/** File-system paths as `Path::components` presents them on Unix: an optional
    root followed by normal components. `.` components and empty pieces between
    separators disappear, and `..` is kept as a component of its own (resolving
    it is the file system's business). A `PathBuf` also keeps the text it was
    built from, with any `//` or inner `/./`; that text is not kept here. */
module Paths {
  import opened Prelude
  import Text

  datatype Path = Path(absolute: bool, segments: seq<string>)

  /** A component as `Path::components` yields it. */
  predicate ValidSegment(s: string) {
    s != [] && '/' !in s && s != "."
  }

  predicate IsNormal(p: Path) {
    forall i :: 0 <= i < |p.segments| ==> ValidSegment(p.segments[i])
  }

  /** The components of a path written as a string. */
  function ParseSegments(s: string): (r: seq<string>)
    ensures forall i :: 0 <= i < |r| ==> ValidSegment(r[i])
    decreases |s|
  {
    var k := Text.IndexOf(s, '/');
    var piece := s[..k];
    var first := if piece == [] || piece == "." then [] else [piece];
    if k == |s| then first else first + ParseSegments(s[k + 1..])
  }

  /** `Path::join` with a string: an absolute string replaces the base. */
  function JoinStr(base: Path, s: string): (r: Path)
    ensures IsNormal(base) ==> IsNormal(r)
  {
    if |s| > 0 && s[0] == '/' then Path(true, ParseSegments(s))
    else Path(base.absolute, base.segments + ParseSegments(s))
  }

  /** The text after the last `/` of `s`, or all of `s` when it has none. */
  function LastPiece(s: string): (r: string)
    ensures '/' !in r
  {
    match LastIndexOf(s, '/')
    case None => s
    case Some(i) => s[i + 1..]
  }

  /** A path text that the file system can resolve only to a directory:
      empty (joining it onto a directory leaves a trailing separator), ending
      in `/`, or ending in a `.` component. The components of such a text are
      those of what it names, but a regular file under that name does not
      exist for it. */
  predicate NamesDirectory(s: string) {
    s == [] || s[|s| - 1] == '/' || LastPiece(s) == "."
  }

  /** `Path::strip_prefix`: the components that follow those of `base`;
      `None` when `base` is not a leading part of `p`. */
  function StripPrefix(p: Path, base: Path): (r: Option<Path>)
    ensures r.Some? <==> p.absolute == base.absolute && base.segments <= p.segments
    ensures r.Some? ==> !r.value.absolute && base.segments + r.value.segments == p.segments
  {
    if p.absolute == base.absolute && base.segments <= p.segments then
      Some(Path(false, p.segments[|base.segments|..]))
    else None
  }

  /** `Path::to_string_lossy` of the path written canonically: its components
      joined by single `/`. A `PathBuf` built from a text with `//` or an inner
      `/./` prints that text instead. */
  function ToString(p: Path): string {
    (if p.absolute then "/" else "") + Text.Join(p.segments, "/")
  }

  /** `Path::file_name`: the last component, unless it is `..`. */
  function FileName(p: Path): (r: Option<string>)
    ensures r.Some? ==> p.segments != [] && r.value == p.segments[|p.segments| - 1]
  {
    if p.segments == [] || p.segments[|p.segments| - 1] == ".." then None
    else Some(p.segments[|p.segments| - 1])
  }

  /** Index of the last `c` in `s`. */
  function LastIndexOf(s: string, c: char): (r: Option<nat>)
    ensures r.Some? ==> r.value < |s| && s[r.value] == c && c !in s[r.value + 1..]
    ensures r.None? ==> c !in s
  {
    if s == [] then None
    else if s[|s| - 1] == c then Some(|s| - 1)
    else
      var r := LastIndexOf(s[..|s| - 1], c);
      assert s == s[..|s| - 1] + [s[|s| - 1]];
      assert r.Some? ==> s[r.value + 1..] == s[..|s| - 1][r.value + 1..] + [s[|s| - 1]];
      r
  }

  /** A file name split into stem and extension at its last `.`; a name whose
      only `.` is its first character has no extension. */
  function SplitExtension(name: string): (r: (string, Option<string>))
    ensures r.1.None? ==> r.0 == name
    ensures r.1.Some? ==> r.0 != [] && name == r.0 + "." + r.1.value && '.' !in r.1.value
  {
    match LastIndexOf(name, '.')
    case None => (name, None)
    case Some(i) =>
      if i == 0 then (name, None)
      else
        assert name == name[..i] + "." + name[i + 1..];
        (name[..i], Some(name[i + 1..]))
  }

  /** `Path::extension`. */
  function Extension(p: Path): Option<string> {
    match FileName(p)
    case None => None
    case Some(name) => SplitExtension(name).1
  }

  /** `Path::file_stem`. */
  function FileStem(p: Path): Option<string> {
    match FileName(p)
    case None => None
    case Some(name) => Some(SplitExtension(name).0)
  }

  /** Writing components with `/` between them and reading them back gives the
      same components. */
  lemma {:induction false} ParseJoined(segments: seq<string>)
    requires forall i :: 0 <= i < |segments| ==> ValidSegment(segments[i])
    ensures ParseSegments(Text.Join(segments, "/")) == segments
    decreases |segments|
  {
    if |segments| == 1 {
      Text.IndexOfAbsent(segments[0], [], '/');
      assert segments[0] + [] == segments[0];
    } else if |segments| > 1 {
      var s, rest := segments[0], Text.Join(segments[1..], "/");
      var joined := s + "/" + rest;
      assert joined == s + ("/" + rest);
      Text.IndexOfAbsent(s, "/" + rest, '/');
      assert joined[..|s|] == s;
      assert joined[|s| + 1..] == rest;
      ParseJoined(segments[1..]);
      assert segments == [s] + segments[1..];
    }
  }

  /** Joining the string form of a relative path onto a base gives the base
      followed by that path's components. */
  lemma JoinToString(base: Path, rel: Path)
    requires IsNormal(rel) && !rel.absolute
    ensures JoinStr(base, ToString(rel)) == Path(base.absolute, base.segments + rel.segments)
  {
    ParseJoined(rel.segments);
    var s := ToString(rel);
    assert "" + Text.Join(rel.segments, "/") == Text.Join(rel.segments, "/");
    if |s| > 0 {
      assert s[0] != '/' by {
        if |rel.segments| == 1 {
          assert s == rel.segments[0];
        } else {
          assert s[0] == (rel.segments[0] + "/" + Text.Join(rel.segments[1..], "/"))[0];
        }
        assert s[0] == rel.segments[0][0];
      }
    }
  }

  /** The text of a relative path with at least one component does not name
      a directory by its syntax: it ends in its last component. */
  lemma ComponentTextNamesFile(rel: Path)
    requires IsNormal(rel) && !rel.absolute && rel.segments != []
    ensures !NamesDirectory(ToString(rel))
  {
    var segs := rel.segments;
    var n := |segs|;
    var s := ToString(rel);
    assert s == Text.Join(segs, "/");
    assert ValidSegment(segs[n - 1]);
    if n == 1 {
      EndsInComponent([], s, segs[0]);
    } else {
      JoinSnoc(segs, "/");
      EndsInComponent(Text.Join(segs[..n - 1], "/") + "/", s, segs[n - 1]);
    }
  }

  /** A text that ends in a component after its last `/` names no directory. */
  lemma EndsInComponent(x: string, s: string, y: string)
    requires ValidSegment(y) && s == x + y && (x == [] || x[|x| - 1] == '/')
    ensures !NamesDirectory(s)
  {
    if x == [] {
      assert s == y;
    } else {
      var x' := x[..|x| - 1];
      assert s == x' + ['/'] + y;
      LastIndexOfSplit(x', '/', y);
    }
    assert LastPiece(s) == y;
    assert s[|s| - 1] == y[|y| - 1];
  }

  /** A component, alone or followed by `/` or `/.`, parses to itself; only
      the latter two name a directory. */
  lemma TrailingSeparators(name: string)
    requires ValidSegment(name)
    ensures ParseSegments(name) == [name] && !NamesDirectory(name)
    ensures ParseSegments(name + "/") == [name] && NamesDirectory(name + "/")
    ensures ParseSegments(name + "/.") == [name] && NamesDirectory(name + "/.")
  {
    Text.IndexOfAbsent(name, [], '/');
    assert name + [] == name;
    ComponentTextNamesFile(Path(false, [name]));
    assert ToString(Path(false, [name])) == name;
    TrailingSlash(name, name + "/");
    TrailingDot(name, name + "/.");
  }

  lemma TrailingSlash(name: string, slash: string)
    requires ValidSegment(name) && slash == name + "/"
    ensures ParseSegments(slash) == [name] && NamesDirectory(slash)
  {
    Text.IndexOfAbsent(name, "/", '/');
    assert slash[..|name|] == name;
    assert slash[|name| + 1..] == [];
  }

  lemma TrailingDot(name: string, dot: string)
    requires ValidSegment(name) && dot == name + "/."
    ensures ParseSegments(dot) == [name] && NamesDirectory(dot)
  {
    Text.IndexOfAbsent(name, "/.", '/');
    assert dot[..|name|] == name;
    assert dot[|name| + 1..] == ".";
    assert Text.IndexOf(".", '/') == 1;
    LastIndexOfSplit(name, '/', ".");
    assert dot == name + ['/'] + ".";
  }

  /** A join ends with the separator and the last part. */
  lemma {:induction false} JoinSnoc(parts: seq<string>, sep: string)
    requires |parts| >= 2
    ensures Text.Join(parts, sep) == Text.Join(parts[..|parts| - 1], sep) + sep + parts[|parts| - 1]
    decreases |parts|
  {
    var n := |parts|;
    if n > 2 {
      JoinSnoc(parts[1..], sep);
      assert parts[1..][..n - 2] == parts[..n - 1][1..];
      assert parts[1..][n - 2] == parts[n - 1];
    } else {
      assert parts[..1] == [parts[0]];
      assert parts[1..] == [parts[1]];
    }
  }

  /** The last `.` of a name found where it is. */
  lemma {:induction false} LastIndexOfSplit(x: string, c: char, y: string)
    requires c !in y
    ensures LastIndexOf(x + [c] + y, c) == Some(|x|)
    decreases |y|
  {
    var s := x + [c] + y;
    if y != [] {
      assert s[..|s| - 1] == x + [c] + y[..|y| - 1];
      assert y[|y| - 1] in y;
      LastIndexOfSplit(x, c, y[..|y| - 1]);
    }
  }

  /** A name with a stem before its last `.` splits there. */
  lemma SplitAtLastDot(name: string, stem: string, ext: string)
    requires name == stem + "." + ext && stem != [] && '.' !in ext
    ensures SplitExtension(name) == (stem, Some(ext))
  {
    LastIndexOfSplit(stem, '.', ext);
    assert name[..|stem|] == stem && name[|stem| + 1..] == ext;
  }

  /** A name whose only `.` leads it, or that has none, has no extension. */
  lemma NoExtension(name: string)
    requires '.' !in name || (name != [] && name[0] == '.' && '.' !in name[1..])
    ensures SplitExtension(name) == (name, None)
  {
    if '.' in name {
      LastIndexOfSplit([], '.', name[1..]);
      assert [] + ['.'] + name[1..] == name;
    }
  }

  /** Examples of `extension` and `file_stem`: `a.md` has extension `md` and
      `a.b.txt` has stem `a.b`. */
  lemma ExtensionExamples(p1: Path, p2: Path)
    requires p1 == Path(true, ["notes", "a.md"]) && p2 == Path(true, ["notes", "a.b.txt"])
    ensures Extension(p1) == Some("md")
    ensures FileStem(p2) == Some("a.b")
  {
    SplitAtLastDot("a.md", "a", "md");
    SplitAtLastDot("a.b.txt", "a.b", "txt");
  }

  /** `.md` and `readme` have no extension, and `..` has no file name. */
  lemma NoExtensionExamples(p1: Path, p2: Path, p3: Path)
    requires p1 == Path(true, ["notes", ".md"]) && p2 == Path(true, ["notes", "readme"])
    requires p3 == Path(false, [".."])
    ensures Extension(p1) == None && Extension(p2) == None && Extension(p3) == None
  {
    NoExtension(".md");
    NoExtension("readme");
  }
}
