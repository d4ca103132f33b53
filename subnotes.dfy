/** The Zettelkasten hierarchy of `src-tauri/src/notes/subnotes.rs`. A note's
    prefix is its title up to the first `-` ("1a2" in "1a2-some-title"); a
    prefix is a run of numbers and letters, and each number or letter added to
    a parent's prefix goes one level deeper. */
module Subnotes {
  import opened Prelude
  import opened Text
  import opened Paths
  import opened Sorting
  import opened Notes

  /** A note of the hierarchy with its depth below the parent (`u32` in the
      source). */
  datatype SubnoteInfo = SubnoteInfo(note: NoteSummary, depth: nat)

  /** `extract_prefix`: the title up to its first `-`; never `None`. */
  function ExtractPrefix(title: string): (r: Option<string>)
    ensures r.Some?
    ensures r.value <= title && '-' !in r.value
    ensures r.value == title || title[|r.value|] == '-'
  {
    Some(BeforeFirst(title, '-'))
  }

  // ---------------------------------------------------------------------------
  // depth

  /** The longest prefix made of digits. */
  function TakeDigits(s: string): (r: string)
    ensures r <= s
    ensures forall i :: 0 <= i < |r| ==> IsDigit(r[i])
    ensures |r| == |s| || !IsDigit(s[|r|])
  {
    if s == [] || !IsDigit(s[0]) then [] else [s[0]] + TakeDigits(s[1..])
  }

  /** The levels a suffix adds: one per letter and one per run of digits;
      other characters add none. */
  function Depth(s: string): nat
    decreases |s|
  {
    if s == [] then 0
    else if IsAlpha(s[0]) then 1 + Depth(s[1..])
    else if IsDigit(s[0]) then
      var run := TakeDigits(s);
      assert run != [];
      1 + Depth(s[|run|..])
    else Depth(s[1..])
  }

  /** The depth `is_subnote` gives `title` below a parent with prefix
      `parentPrefix`, or `None` when it is not below it. */
  function SubnoteDepth(title: string, parentPrefix: Option<string>): Option<nat> {
    match parentPrefix
    case None => None
    case Some(parent) =>
      var first := BeforeFirst(title, '-');
      if parent <= first && |first| > |parent| then
        var suffix := first[|parent|..];
        if parent != [] && IsDigit(parent[|parent| - 1]) && !IsAlpha(suffix[0]) then None
        else Some(Depth(suffix))
      else None
  }

  lemma {:induction false} TakeDigitsUnique(s: string, t: string)
    requires t <= s
    requires forall i :: 0 <= i < |t| ==> IsDigit(t[i])
    requires |t| == |s| || !IsDigit(s[|t|])
    ensures TakeDigits(s) == t
    decreases |t|
  {
    if t != [] {
      TakeDigitsUnique(s[1..], t[1..]);
      assert t == [t[0]] + t[1..];
    }
  }

  /** The digits from `i` on, with where they end. */
  lemma DigitRunEnd(s: string, start: nat, i: nat)
    requires start < i <= |s|
    requires forall k :: start <= k < i ==> IsDigit(s[k])
    requires i == |s| || !IsDigit(s[i])
    ensures TakeDigits(s[start..]) == s[start..i]
    ensures s[start..][|s[start..i]|..] == s[i..]
  {
    TakeDigitsUnique(s[start..], s[start..i]);
  }

  /** `is_subnote`: the title's prefix must extend the parent's prefix, and
      a parent prefix ending in a digit must be followed by a letter, so that
      "10" is not below "1"; the depth counts letters and digit runs of what
      follows. */
  method IsSubnote(title: string, parentPrefix: Option<string>) returns (r: Option<nat>)
    ensures r == SubnoteDepth(title, parentPrefix)
  {
    if parentPrefix.None? {
      return None;
    }
    var parent := parentPrefix.value;
    var first := BeforeFirst(title, '-');
    if parent <= first && |first| > |parent| {
      var suffix := first[|parent|..];
      if |parent| > 0 && IsDigit(parent[|parent| - 1]) {
        if !IsAlpha(suffix[0]) {
          return None;
        }
      }
      assert SubnoteDepth(title, parentPrefix) == Some(Depth(suffix));
      var depth := 0;
      var i := 0;
      while i < |suffix|
        invariant 0 <= i <= |suffix|
        invariant depth + Depth(suffix[i..]) == Depth(suffix)
      {
        var ch := suffix[i];
        ghost var start := i;
        ghost var before := depth;
        i := i + 1;
        if IsAlpha(ch) {
          depth := depth + 1;
          DepthStepSingle(suffix, before, depth, start);
        } else if IsDigit(ch) {
          depth := depth + 1;
          while i < |suffix| && IsDigit(suffix[i])
            invariant start < i <= |suffix|
            invariant forall k :: start <= k < i ==> IsDigit(suffix[k])
          {
            i := i + 1;
          }
          DepthStepRun(suffix, before, depth, start, i);
        } else {
          DepthStepSingle(suffix, before, depth, start);
        }
      }
      return Some(depth);
    } else {
      return None;
    }
  }

  /** The loop invariant of `IsSubnote` carried over a character that is not
      a digit: a letter adds a level, anything else none. */
  lemma DepthStepSingle(suffix: string, before: nat, after: nat, start: nat)
    requires start < |suffix| && !IsDigit(suffix[start])
    requires before + Depth(suffix[start..]) == Depth(suffix)
    requires after == before + (if IsAlpha(suffix[start]) then 1 else 0)
    ensures after + Depth(suffix[start + 1..]) == Depth(suffix)
  {
    assert suffix[start..][1..] == suffix[start + 1..];
  }

  /** The loop invariant of `IsSubnote` carried over a run of digits, which
      adds one level. */
  lemma DepthStepRun(suffix: string, before: nat, after: nat, start: nat, i: nat)
    requires start < i <= |suffix|
    requires forall k :: start <= k < i ==> IsDigit(suffix[k])
    requires i == |suffix| || !IsDigit(suffix[i])
    requires before + Depth(suffix[start..]) == Depth(suffix)
    requires after == before + 1
    ensures after + Depth(suffix[i..]) == Depth(suffix)
  {
    DigitRunEnd(suffix, start, i);
  }

  // ---------------------------------------------------------------------------
  // components

  /** `ZettelComponent`; a number is a `u32`. */
  datatype Component = Number(n: nat) | Letter(c: char)

  const U32Max: nat := 4294967295

  /** The value of a string of decimal digits. */
  function DigitsValue(s: string): nat
    requires forall i :: 0 <= i < |s| ==> IsDigit(s[i])
  {
    if s == [] then 0
    else
      assert IsDigit(s[|s| - 1]);
      DigitsValue(s[..|s| - 1]) * 10 + (s[|s| - 1] as int - '0' as int)
  }

  predicate AllDigits(s: string) {
    forall i :: 0 <= i < |s| ==> IsDigit(s[i])
  }

  /** `str::parse::<u32>`: an optional `+` and at least one decimal digit, of
      value at most `u32::MAX`. */
  function ParseU32(s: string): (r: Option<nat>)
    ensures r.Some? ==> r.value <= U32Max
  {
    var digits := if s != [] && s[0] == '+' then s[1..] else s;
    if digits == [] || !AllDigits(digits) then None
    else if DigitsValue(digits) > U32Max then None
    else Some(DigitsValue(digits))
  }

  /** The components `parse_zettelkasten_parts` reads from a prefix: each run
      of digits that fits a `u32` is a number, each letter is a letter in
      lower case, and everything else, an over-long number included, is
      skipped. */
  function PartsOf(s: string): seq<Component>
    decreases |s|
  {
    if s == [] then []
    else if IsDigit(s[0]) then
      var run := TakeDigits(s);
      assert run != [];
      NumberPart(run) + PartsOf(s[|run|..])
    else LetterPart(s[0]) + PartsOf(s[1..])
  }

  /** The component a digit run contributes: its value, or nothing when it
      does not fit in a `u32`. */
  function NumberPart(run: string): seq<Component> {
    match ParseU32(run) case None => [] case Some(n) => [Number(n)]
  }

  /** The component a non-digit contributes: a lower-cased letter, or nothing. */
  function LetterPart(c: char): seq<Component> {
    if IsAlpha(c) then [Letter(ToAsciiLower(c))] else []
  }

  /** `parse_zettelkasten_parts`. */
  method ParseParts(prefix: string) returns (parts: seq<Component>)
    ensures parts == PartsOf(prefix)
  {
    parts := [];
    var i := 0;
    while i < |prefix|
      invariant 0 <= i <= |prefix|
      invariant parts + PartsOf(prefix[i..]) == PartsOf(prefix)
    {
      var ch := prefix[i];
      ghost var before := parts;
      if IsDigit(ch) {
        var start := i;
        var numStr;
        i, numStr := ScanDigits(prefix, i);
        var num := ParseU32(numStr);
        if num.Some? {
          parts := parts + [Number(num.value)];
        }
        PartsStepNumber(prefix, before, parts, start, i);
      } else {
        if IsAlpha(ch) {
          parts := parts + [Letter(ToAsciiLower(ch))];
        }
        PartsStepLetter(prefix, before, parts, i);
        i := i + 1;
      }
    }
  }

  /** The loop invariant of `ParseParts` carried over a run of digits. */
  lemma PartsStepNumber(prefix: string, before: seq<Component>, after: seq<Component>, start: nat, i: nat)
    requires start < i <= |prefix|
    requires after == before + NumberPart(prefix[start..i])
    requires forall k :: start <= k < i ==> IsDigit(prefix[k])
    requires i == |prefix| || !IsDigit(prefix[i])
    requires before + PartsOf(prefix[start..]) == PartsOf(prefix)
    ensures after + PartsOf(prefix[i..]) == PartsOf(prefix)
  {
    PartsOfDigitRun(prefix, start, i);
    PartsStep(prefix, before, NumberPart(prefix[start..i]), start, i);
  }

  /** The loop invariant of `ParseParts` carried over one other character. */
  lemma PartsStepLetter(prefix: string, before: seq<Component>, after: seq<Component>, i: nat)
    requires i < |prefix| && !IsDigit(prefix[i])
    requires after == before + LetterPart(prefix[i])
    requires before + PartsOf(prefix[i..]) == PartsOf(prefix)
    ensures after + PartsOf(prefix[i + 1..]) == PartsOf(prefix)
  {
    PartsOfSingle(prefix, i);
    PartsStep(prefix, before, LetterPart(prefix[i]), i, i + 1);
  }

  /** The loop invariant of `ParseParts` carried over one component. */
  lemma PartsStep(prefix: string, before: seq<Component>, piece: seq<Component>, i: nat, j: nat)
    requires i <= j <= |prefix|
    requires before + PartsOf(prefix[i..]) == PartsOf(prefix)
    requires PartsOf(prefix[i..]) == piece + PartsOf(prefix[j..])
    ensures (before + piece) + PartsOf(prefix[j..]) == PartsOf(prefix)
  {
    assert (before + piece) + PartsOf(prefix[j..]) == before + (piece + PartsOf(prefix[j..]));
  }

  /** The digit run starting at `start`, collected one character at a time
      while the next one is a digit. */
  method ScanDigits(prefix: string, start: nat) returns (i: nat, numStr: string)
    requires start < |prefix| && IsDigit(prefix[start])
    ensures start < i <= |prefix| && numStr == prefix[start..i]
    ensures forall k :: start <= k < i ==> IsDigit(prefix[k])
    ensures i == |prefix| || !IsDigit(prefix[i])
  {
    numStr := [prefix[start]];
    i := start + 1;
    while i < |prefix| && IsDigit(prefix[i])
      invariant start < i <= |prefix|
      invariant numStr == prefix[start..i]
      invariant forall k :: start <= k < i ==> IsDigit(prefix[k])
    {
      numStr := numStr + [prefix[i]];
      i := i + 1;
    }
  }

  lemma PartsOfDigitRun(s: string, start: nat, i: nat)
    requires start < i <= |s|
    requires forall k :: start <= k < i ==> IsDigit(s[k])
    requires i == |s| || !IsDigit(s[i])
    ensures PartsOf(s[start..]) == NumberPart(s[start..i]) + PartsOf(s[i..])
  {
    DigitRunEnd(s, start, i);
  }

  lemma PartsOfSingle(s: string, start: nat)
    requires start < |s| && !IsDigit(s[start])
    ensures PartsOf(s[start..]) == LetterPart(s[start]) + PartsOf(s[start + 1..])
  {
    assert s[start..][1..] == s[start + 1..];
  }

  /** `compare_zettelkasten_component`: numbers by value, letters by
      character, and every number before every letter. */
  function CompareComponent(a: Component, b: Component): (r: Ordering)
    ensures r == Equal <==> a == b
  {
    match (a, b)
    case (Number(x), Number(y)) => IntCmp(x, y)
    case (Letter(x), Letter(y)) => CharCmp(x, y)
    case (Number(_), Letter(_)) => Less
    case (Letter(_), Number(_)) => Greater
  }

  lemma CompareComponentFlip(a: Component, b: Component)
    ensures CompareComponent(b, a) == CompareComponent(a, b).Flip()
  {
  }

  /** Component sequences in lexicographic order, a proper prefix first. */
  function CompareParts(x: seq<Component>, y: seq<Component>): Ordering
    decreases |x|
  {
    if x == [] && y == [] then Equal
    else if x == [] then Less
    else if y == [] then Greater
    else
      var c := CompareComponent(x[0], y[0]);
      if c != Equal then c else CompareParts(x[1..], y[1..])
  }

  /** A proper prefix sorts first. */
  lemma {:induction false} ComparePartsPrefix(x: seq<Component>, y: seq<Component>)
    requires |x| < |y| && x == y[..|x|]
    ensures CompareParts(x, y) == Less
    decreases |x|
  {
    if x != [] {
      assert x[0] == y[0];
      assert x[1..] == y[1..][..|x| - 1];
      ComparePartsPrefix(x[1..], y[1..]);
    }
  }

  /** Otherwise the first position where the sequences differ decides. */
  lemma {:induction false} ComparePartsFirstDifference(x: seq<Component>, y: seq<Component>, k: nat)
    requires k < |x| && k < |y| && x[..k] == y[..k] && x[k] != y[k]
    ensures CompareParts(x, y) == CompareComponent(x[k], y[k])
    decreases k
  {
    if k > 0 {
      assert x[0] == x[..k][0] == y[..k][0] == y[0];
      assert x[1..][..k - 1] == x[..k][1..] == y[..k][1..] == y[1..][..k - 1];
      ComparePartsFirstDifference(x[1..], y[1..], k - 1);
    }
  }

  /** The order `zettelkasten_compare` puts prefixes in. */
  function ZettelOrder(a: string, b: string): Ordering {
    CompareParts(PartsOf(a), PartsOf(b))
  }

  /** `zettelkasten_compare`: compare the components, position by position,
      up to the longer of the two. */
  method ZettelCompare(a: string, b: string) returns (r: Ordering)
    ensures r == ZettelOrder(a, b)
  {
    var aParts := ParseParts(a);
    var bParts := ParseParts(b);
    var maxLen := if |aParts| >= |bParts| then |aParts| else |bParts|;
    for i := 0 to maxLen
      invariant i <= |aParts| && i <= |bParts|
      invariant CompareParts(aParts[i..], bParts[i..]) == CompareParts(aParts, bParts)
    {
      ComparePartsAt(aParts, bParts, i);
      // below `maxLen` at least one of the two has a component at `i`
      if i < |aParts| && i < |bParts| {
        var cmp := CompareComponent(aParts[i], bParts[i]);
        if cmp != Equal {
          return cmp;
        }
      } else if i < |aParts| {
        return Greater;
      } else {
        return Less;
      }
    }
    ComparePartsAt(aParts, bParts, maxLen);
    return Equal;
  }

  /** How the comparison of the components from position `i` on is decided. */
  lemma ComparePartsAt(x: seq<Component>, y: seq<Component>, i: nat)
    requires i <= |x| && i <= |y|
    ensures i == |x| && i == |y| ==> CompareParts(x[i..], y[i..]) == Equal
    ensures i == |x| && i < |y| ==> CompareParts(x[i..], y[i..]) == Less
    ensures i < |x| && i == |y| ==> CompareParts(x[i..], y[i..]) == Greater
    ensures i < |x| && i < |y| ==>
      CompareParts(x[i..], y[i..]) ==
        if CompareComponent(x[i], y[i]) != Equal then CompareComponent(x[i], y[i])
        else CompareParts(x[i + 1..], y[i + 1..])
  {
    if i < |x| && i < |y| {
      assert x[i..][1..] == x[i + 1..] && y[i..][1..] == y[i + 1..];
    }
  }

  // ---------------------------------------------------------------------------
  // get_subnotes

  /** What one listed note contributes: itself with its depth, when it is
      below the parent. */
  function InfoOf(parentPrefix: Option<string>, note: NoteSummary): Option<SubnoteInfo> {
    match SubnoteDepth(note.title, parentPrefix)
    case None => None
    case Some(depth) => Some(SubnoteInfo(note, depth))
  }

  /** The title prefix the sort uses (`unwrap_or("")`, never needed). */
  function SortPrefix(title: string): string {
    match ExtractPrefix(title)
    case None => ""
    case Some(p) => p
  }

  /** The order of the result of `get_subnotes`: Zettelkasten order of the
      title prefixes. */
  function SubnoteOrder(a: SubnoteInfo, b: SubnoteInfo): Ordering {
    ZettelOrder(SortPrefix(a.note.title), SortPrefix(b.note.title))
  }

  /** What `get_subnotes` returns. */
  function Subnotes(notesDir: Path, fs: map<Path, FileData>, walk: seq<(Path, FileData)>,
                    parentId: string, natural: (string, string) -> Ordering): Result<seq<SubnoteInfo>, NoteError> {
    match GetNote(notesDir, fs, parentId)
    case Err(e) => Err(e)
    case Ok(parent) =>
      var prefix := ExtractPrefix(parent.title);
      var found := Collect((n: NoteSummary) => InfoOf(prefix, n), Listing(notesDir, walk, None, natural));
      Ok(SortBy(found, SubnoteOrder))
  }

  /** `get_subnotes`: read the parent, list every note, keep those below the
      parent with their depth, and sort them in Zettelkasten order. */
  method GetSubnotes(notesDir: Path, fs: map<Path, FileData>, walk: seq<(Path, FileData)>,
                     parentId: string, natural: (string, string) -> Ordering)
    returns (r: Result<seq<SubnoteInfo>, NoteError>)
    requires TotalPreorder(natural)
    ensures r == Subnotes(notesDir, fs, walk, parentId, natural)
  {
    var parentNote := GetNote(notesDir, fs, parentId);
    if parentNote.Err? {
      return Err(parentNote.error);
    }
    var parentPrefix := ExtractPrefix(parentNote.value.title);
    var allNotes := ListNotes(notesDir, walk, None, natural);
    var subnotes := [];
    for i := 0 to |allNotes|
      invariant subnotes == Collect((n: NoteSummary) => InfoOf(parentPrefix, n), allNotes[..i])
    {
      var note := allNotes[i];
      ghost var before := subnotes;
      var depth := IsSubnote(note.title, parentPrefix);
      if depth.Some? {
        subnotes := subnotes + [SubnoteInfo(note, depth.value)];
      }
      CollectNext((n: NoteSummary) => InfoOf(parentPrefix, n), allNotes, i, before, subnotes);
    }
    assert allNotes[..|allNotes|] == allNotes;
    subnotes := SortBy(subnotes, SubnoteOrder);
    return Ok(subnotes);
  }

  // ---------------------------------------------------------------------------
  // the order is total

  lemma {:induction false} ComparePartsEqual(x: seq<Component>, y: seq<Component>)
    ensures CompareParts(x, y) == Equal <==> x == y
    decreases |x|
  {
    if x != [] && y != [] {
      ComparePartsEqual(x[1..], y[1..]);
      assert x == [x[0]] + x[1..] && y == [y[0]] + y[1..];
    }
  }

  lemma {:induction false} ComparePartsFlip(x: seq<Component>, y: seq<Component>)
    ensures CompareParts(y, x) == CompareParts(x, y).Flip()
    decreases |x|
  {
    if x != [] && y != [] {
      CompareComponentFlip(x[0], y[0]);
      ComparePartsFlip(x[1..], y[1..]);
    }
  }

  lemma CompareComponentTransitive(a: Component, b: Component, c: Component)
    requires CompareComponent(a, b) != Greater && CompareComponent(b, c) != Greater
    ensures CompareComponent(a, c) != Greater
    ensures CompareComponent(a, b) == Less || CompareComponent(b, c) == Less ==> CompareComponent(a, c) == Less
  {
  }

  lemma {:induction false} ComparePartsTransitive(x: seq<Component>, y: seq<Component>, z: seq<Component>)
    requires CompareParts(x, y) != Greater && CompareParts(y, z) != Greater
    ensures CompareParts(x, z) != Greater
    decreases |x|
  {
    if x != [] && y != [] && z != [] {
      CompareComponentTransitive(x[0], y[0], z[0]);
      if CompareComponent(x[0], y[0]) == Equal && CompareComponent(y[0], z[0]) == Equal {
        ComparePartsTransitive(x[1..], y[1..], z[1..]);
      }
    }
  }

  /** `zettelkasten_compare` is a total preorder on prefixes, as `sort_by`
      requires; two prefixes are equal in it exactly when they have the same
      components. */
  lemma ZettelOrderPreorder()
    ensures TotalPreorder(ZettelOrder)
    ensures forall a, b :: ZettelOrder(a, b) == Equal <==> PartsOf(a) == PartsOf(b)
  {
    forall a, b
      ensures ZettelOrder(b, a) == ZettelOrder(a, b).Flip()
      ensures ZettelOrder(a, b) == Equal <==> PartsOf(a) == PartsOf(b)
    {
      ComparePartsFlip(PartsOf(a), PartsOf(b));
      ComparePartsEqual(PartsOf(a), PartsOf(b));
    }
    forall a, b, c | ZettelOrder(a, b) != Greater && ZettelOrder(b, c) != Greater
      ensures ZettelOrder(a, c) != Greater
    {
      ComparePartsTransitive(PartsOf(a), PartsOf(b), PartsOf(c));
    }
  }

  lemma SubnoteOrderPreorder()
    ensures TotalPreorder(SubnoteOrder)
  {
    ZettelOrderPreorder();
    forall a, b
      ensures SubnoteOrder(b, a) == SubnoteOrder(a, b).Flip()
    {
      assert ZettelOrder(SortPrefix(b.note.title), SortPrefix(a.note.title))
          == ZettelOrder(SortPrefix(a.note.title), SortPrefix(b.note.title)).Flip();
    }
    forall a, b, c | SubnoteOrder(a, b) != Greater && SubnoteOrder(b, c) != Greater
      ensures SubnoteOrder(a, c) != Greater
    {
      var pa, pb, pc := SortPrefix(a.note.title), SortPrefix(b.note.title), SortPrefix(c.note.title);
      assert ZettelOrder(pa, pb) != Greater && ZettelOrder(pb, pc) != Greater;
    }
  }

  // ---------------------------------------------------------------------------
  // depth

  /** No note is below its own prefix. */
  lemma NotOwnSubnote(title: string)
    ensures SubnoteDepth(title, ExtractPrefix(title)) == None
  {
  }

  /** Below a parent prefix that ends in a digit, the next character is a
      letter, so "10" and "11" are not below "1", and the depth is at least
      one. */
  lemma SubnoteBoundary(title: string, parent: string)
    requires parent != [] && IsDigit(parent[|parent| - 1])
    requires SubnoteDepth(title, Some(parent)).Some?
    ensures var first := BeforeFirst(title, '-');
      |first| > |parent| && IsAlpha(first[|parent|])
    ensures SubnoteDepth(title, Some(parent)).value >= 1
  {
  }

  /** The depth of a suffix with no letter or digit is zero: "1a." is below
      "1a" at depth 0. */
  lemma {:induction false} DepthZero(s: string)
    ensures Depth(s) == 0 <==> forall i :: 0 <= i < |s| ==> !IsAlnum(s[i])
    decreases |s|
  {
    if s != [] {
      if IsDigit(s[0]) {
        assert TakeDigits(s) != [];
      } else if !IsAlpha(s[0]) {
        DepthZero(s[1..]);
        assert forall i :: 1 <= i < |s| ==> s[i] == s[1..][i - 1];
      }
    }
  }

  /** Depths add up where two suffixes do not meet inside a run of digits. */
  lemma {:induction false} DepthAdditive(x: string, y: string)
    requires x == [] || y == [] || !IsDigit(x[|x| - 1]) || !IsDigit(y[0])
    ensures Depth(x + y) == Depth(x) + Depth(y)
    decreases |x|
  {
    if x == [] {
      assert x + y == y;
    } else {
      var s := x + y;
      assert s[0] == x[0];
      if IsDigit(x[0]) {
        var run := TakeDigits(x);
        assert run <= s;
        if |run| < |x| {
          assert s[|run|] == x[|run|];
          TakeDigitsUnique(s, run);
          assert s[|run|..] == x[|run|..] + y;
          DepthAdditive(x[|run|..], y);
        } else {
          assert run == x;
          TakeDigitsUnique(s, x);
          assert s[|x|..] == y;
        }
      } else {
        assert s[1..] == x[1..] + y;
        DepthAdditive(x[1..], y);
      }
    }
  }

  /** The hierarchy composes: a note at depth `d2` below a note that is itself
      at depth `d1` below a parent is at depth `d1 + d2` below that parent. */
  lemma DepthComposes(parent: string, middle: string, title: string, d1: nat, d2: nat)
    requires SubnoteDepth(middle, Some(parent)) == Some(d1)
    requires SubnoteDepth(title, ExtractPrefix(middle)) == Some(d2)
    ensures SubnoteDepth(title, Some(parent)) == Some(d1 + d2)
  {
    var mp := BeforeFirst(middle, '-');
    var first := BeforeFirst(title, '-');
    SubnoteDepthParts(middle, parent, d1);
    SubnoteDepthParts(title, mp, d2);
    SuffixesCompose(parent, mp, first, d1, d2);
    SubnoteDepthOfParts(title, parent);
  }

  /** The string part of `DepthComposes`: `first` extends `mp`, which extends
      `parent`, each past a proper boundary, so `first` extends `parent` past
      one too, by the depths added up. */
  lemma SuffixesCompose(parent: string, mp: string, first: string, d1: nat, d2: nat)
    requires parent <= mp && |mp| > |parent| && d1 == Depth(mp[|parent|..])
    requires parent != [] && IsDigit(parent[|parent| - 1]) ==> IsAlpha(mp[|parent|])
    requires mp <= first && |first| > |mp| && d2 == Depth(first[|mp|..])
    requires IsDigit(mp[|mp| - 1]) ==> IsAlpha(first[|mp|])
    ensures parent <= first && |first| > |parent|
    ensures parent != [] && IsDigit(parent[|parent| - 1]) ==> IsAlpha(first[|parent|])
    ensures Depth(first[|parent|..]) == d1 + d2
  {
    var s1, s2 := mp[|parent|..], first[|mp|..];
    assert s1[|s1| - 1] == mp[|mp| - 1];
    assert first == parent + s1 + s2;
    assert first[|parent|..] == s1 + s2;
    DepthAdditive(s1, s2);
  }

  /** What a depth below a parent says about the title's prefix. */
  lemma SubnoteDepthParts(title: string, parent: string, d: nat)
    requires SubnoteDepth(title, Some(parent)) == Some(d)
    ensures var first := BeforeFirst(title, '-');
      && parent <= first && |first| > |parent|
      && d == Depth(first[|parent|..])
      && (parent != [] && IsDigit(parent[|parent| - 1]) ==> IsAlpha(first[|parent|]))
  {
  }

  /** A prefix that extends the parent past a proper boundary is below it. */
  lemma SubnoteDepthOfParts(title: string, parent: string)
    requires var first := BeforeFirst(title, '-');
      && parent <= first && |first| > |parent|
      && (parent != [] && IsDigit(parent[|parent| - 1]) ==> IsAlpha(first[|parent|]))
    ensures var first := BeforeFirst(title, '-');
      SubnoteDepth(title, Some(parent)) == Some(Depth(first[|parent|..]))
  {
  }

  // ---------------------------------------------------------------------------
  // depth and components

  function Pow10(n: nat): nat {
    if n == 0 then 1 else 10 * Pow10(n - 1)
  }

  lemma {:induction false} DigitsValueBound(s: string)
    requires AllDigits(s)
    ensures DigitsValue(s) < Pow10(|s|)
    decreases |s|
  {
    if s != [] {
      DigitsValueBound(s[..|s| - 1]);
    }
  }

  /** `parse::<u32>` succeeds exactly on an optional `+` and a non-empty run
      of digits whose value fits in 32 bits, and gives that value. */
  lemma ParseU32Value(s: string)
    ensures var digits := if s != [] && s[0] == '+' then s[1..] else s;
      && (ParseU32(s).None? <==> digits == [] || !AllDigits(digits) || DigitsValue(digits) > U32Max)
      && (ParseU32(s).Some? ==> AllDigits(digits) && ParseU32(s).value == DigitsValue(digits))
  {
  }

  /** The decimal digit of a value below ten. */
  function DigitChar(d: nat): (c: char)
    requires d < 10
    ensures IsDigit(c) && c as int - '0' as int == d
  {
    ('0' as int + d) as char
  }

  /** The decimal writing of a number, without leading zeros. */
  function Decimal(n: nat): (s: string)
    ensures s != [] && AllDigits(s)
    decreases n
  {
    if n < 10 then [DigitChar(n)] else Decimal(n / 10) + [DigitChar(n % 10)]
  }

  /** The value of the decimal writing of `n` is `n`. */
  lemma {:induction false} DecimalValue(n: nat)
    ensures DigitsValue(Decimal(n)) == n
    decreases n
  {
    var s := Decimal(n);
    if n < 10 {
      assert s[..0] == [];
    } else {
      DecimalValue(n / 10);
      assert s[..|s| - 1] == Decimal(n / 10);
    }
  }

  /** `parse::<u32>` reads back every number that `to_string` writes, with
      or without a `+` in front, exactly when it fits in 32 bits. */
  lemma ParseDecimal(n: nat)
    ensures ParseU32(Decimal(n)) == if n <= U32Max then Some(n) else None
    ensures ParseU32("+" + Decimal(n)) == ParseU32(Decimal(n))
  {
    DecimalValue(n);
    assert ("+" + Decimal(n))[1..] == Decimal(n);
  }

  /** A digit run at the front of a text is the run `TakeDigits` reads. */
  lemma {:induction false} TakeDigitsOfJoined(run: string, rest: string)
    requires AllDigits(run) && (rest == [] || !IsDigit(rest[0]))
    ensures TakeDigits(run + rest) == run
    decreases |run|
  {
    if run != [] {
      assert (run + rest)[1..] == run[1..] + rest;
      TakeDigitsOfJoined(run[1..], rest);
    }
  }

  /** A whole run of digits gives its number when it fits in 32 bits and is
      skipped otherwise; the parts of what follows come after. */
  lemma RunOfDigits(run: string, rest: string)
    requires run != [] && AllDigits(run) && (rest == [] || !IsDigit(rest[0]))
    ensures PartsOf(run + rest)
         == (if DigitsValue(run) <= U32Max then [Number(DigitsValue(run))] else []) + PartsOf(rest)
  {
    TakeDigitsOfJoined(run, rest);
    assert (run + rest)[0] == run[0];
    assert (run + rest)[|run|..] == rest;
  }

  /** `u32::MAX` followed by a letter gives both parts; one more is too long
      for a `u32` and only the letter is left. */
  lemma U32Boundary(fits: string, over: string)
    requires fits == "4294967295a" && over == "4294967296a"
    ensures PartsOf(fits) == [Number(U32Max), Letter('a')]
    ensures PartsOf(over) == [Letter('a')]
  {
    var max, big := fits[..10], over[..10];
    TenDigitsValue(max, 429496729, 5);
    TenDigitsValue(big, 429496729, 6);
    assert fits == max + "a" && over == big + "a";
    RunOfDigits(max, "a");
    RunOfDigits(big, "a");
    PartsOfLetterThen("a", 'a', []);
  }

  /** The value of `429496729` followed by one more digit. */
  lemma TenDigitsValue(s: string, head: nat, last: nat)
    requires |s| == 10 && s[..9] == "429496729" && IsDigit(s[9]) && s[9] as int - '0' as int == last
    requires head == 429496729
    ensures AllDigits(s) && DigitsValue(s) == head * 10 + last
  {
    var h := s[..9];
    assert h[0] == '4' && h[1] == '2' && h[2] == '9' && h[3] == '4' && h[4] == '9';
    assert h[5] == '6' && h[6] == '7' && h[7] == '2' && h[8] == '9';
    NineDigitsValue(h);
    assert s[..|s| - 1] == h;
  }

  lemma NineDigitsValue(h: string)
    requires |h| == 9
    requires h[0] == '4' && h[1] == '2' && h[2] == '9' && h[3] == '4' && h[4] == '9'
    requires h[5] == '6' && h[6] == '7' && h[7] == '2' && h[8] == '9'
    ensures AllDigits(h) && DigitsValue(h) == 429496729
  {
    assert h[..0] == [];
    DigitsValueSnoc(h, 0, 0, 4);
    DigitsValueSnoc(h, 1, 4, 42);
    DigitsValueSnoc(h, 2, 42, 429);
    DigitsValueSnoc(h, 3, 429, 4294);
    DigitsValueSnoc(h, 4, 4294, 42949);
    DigitsValueSnoc(h, 5, 42949, 429496);
    DigitsValueSnoc(h, 6, 429496, 4294967);
    DigitsValueSnoc(h, 7, 4294967, 42949672);
    DigitsValueSnoc(h, 8, 42949672, 429496729);
    assert h[..9] == h;
  }

  /** The value of a run of digits grows by one digit at a time. */
  lemma DigitsValueSnoc(s: string, k: nat, before: nat, after: nat)
    requires AllDigits(s) && k < |s|
    requires DigitsValue(s[..k]) == before && after == before * 10 + (s[k] as int - '0' as int)
    ensures DigitsValue(s[..k + 1]) == after
  {
    assert s[..k + 1][..k] == s[..k];
  }

  lemma ShortRunFits(run: string)
    requires run != [] && AllDigits(run) && |run| <= 9
    ensures ParseU32(run).Some?
  {
    DigitsValueBound(run);
    var n := |run|;
    assert Pow10(n) <= Pow10(9) by {
      var k := n;
      while k < 9
        invariant n <= k <= 9
        invariant Pow10(n) <= Pow10(k)
      {
        k := k + 1;
      }
    }
  }

  /** The depth of a suffix is the number of components it adds to the
      prefix, except for numbers too long for a `u32`, which the comparison
      skips and the depth still counts. */
  lemma {:induction false} DepthCountsComponents(s: string)
    ensures |PartsOf(s)| <= Depth(s)
    ensures |s| <= 9 ==> |PartsOf(s)| == Depth(s)
    decreases |s|
  {
    if s != [] {
      if IsDigit(s[0]) {
        var run := TakeDigits(s);
        DepthCountsComponents(s[|run|..]);
        if |s| <= 9 {
          ShortRunFits(run);
        }
      } else {
        DepthCountsComponents(s[1..]);
      }
    }
  }

  // ---------------------------------------------------------------------------
  // get_subnotes

  /** The result of `get_subnotes` fails exactly when reading the parent
      does; otherwise it holds every listed note below the parent's prefix,
      each once with its depth, in Zettelkasten order of the prefixes. */
  lemma SubnotesFacts(notesDir: Path, fs: map<Path, FileData>, walk: seq<(Path, FileData)>,
                      parentId: string, natural: (string, string) -> Ordering)
    requires TotalPreorder(natural)
    ensures var r := Subnotes(notesDir, fs, walk, parentId, natural);
      && (r.Err? <==> GetNote(notesDir, fs, parentId).Err?)
      && (r.Err? ==> r.error == GetNote(notesDir, fs, parentId).error)
      && (r.Ok? ==>
            var prefix := ExtractPrefix(GetNote(notesDir, fs, parentId).value.title);
            var listed := Listing(notesDir, walk, None, natural);
            && SortedBy(SubnoteOrder, r.value)
            && multiset(r.value) == multiset(Collect((n: NoteSummary) => InfoOf(prefix, n), listed))
            && (forall info :: info in r.value <==>
                  info.note in listed && SubnoteDepth(info.note.title, prefix) == Some(info.depth)))
  {
    var r := Subnotes(notesDir, fs, walk, parentId, natural);
    if r.Ok? {
      var prefix := ExtractPrefix(GetNote(notesDir, fs, parentId).value.title);
      var listed := Listing(notesDir, walk, None, natural);
      var found := Collect((n: NoteSummary) => InfoOf(prefix, n), listed);
      SubnoteOrderPreorder();
      SortBySorted(found, SubnoteOrder);
      CollectedInfos(prefix, listed, r.value);
    }
  }

  /** A permutation of the collected infos holds exactly the listed notes
      below the parent, each with its depth. */
  lemma CollectedInfos(prefix: Option<string>, listed: seq<NoteSummary>, infos: seq<SubnoteInfo>)
    requires multiset(infos) == multiset(Collect((n: NoteSummary) => InfoOf(prefix, n), listed))
    ensures forall info :: info in infos <==>
      info.note in listed && SubnoteDepth(info.note.title, prefix) == Some(info.depth)
  {
    var f := (n: NoteSummary) => InfoOf(prefix, n);
    var found := Collect(f, listed);
    forall info
      ensures info in infos <==> info.note in listed && SubnoteDepth(info.note.title, prefix) == Some(info.depth)
    {
      assert info in infos <==> info in found by {
        assert info in infos <==> info in multiset(infos);
        assert info in found <==> info in multiset(found);
      }
      CollectMembership(f, listed, info);
      if info.note in listed && SubnoteDepth(info.note.title, prefix) == Some(info.depth) {
        var k :| 0 <= k < |listed| && listed[k] == info.note;
        assert f(listed[k]) == Some(info);
      }
    }
  }

  // ---------------------------------------------------------------------------
  // the cases of the source's tests

  lemma PrefixOfTitle(prefix: string, title: string)
    requires title == prefix + "-title" && '-' !in prefix
    ensures BeforeFirst(title, '-') == prefix
  {
    IndexOfAbsent(prefix, "-title", '-');
    assert title[..|prefix|] == prefix;
  }

  lemma PrefixOfWholeTitle(title: string)
    requires '-' !in title
    ensures ExtractPrefix(title) == Some(title)
  {
    IndexOfAbsent(title, [], '-');
    assert title + [] == title;
  }

  /** The cases of the source's `test_extract_prefix`: a dotted prefix is
      kept whole, and a title without a dash is its own prefix. */
  lemma ExtractPrefixTests()
    ensures ExtractPrefix("1-title") == Some("1")
    ensures ExtractPrefix("1.1-title") == Some("1.1")
    ensures ExtractPrefix("title") == Some("title")
  {
    PrefixOfTitle("1", "1-title");
    PrefixOfTitle("1.1", "1.1-title");
    PrefixOfWholeTitle("title");
  }

  /** The prefix of a title whose first dash is at `n`. */
  lemma PrefixAt(title: string, n: nat)
    requires n < |title| && title[n] == '-'
    requires forall i :: 0 <= i < n ==> title[i] != '-'
    ensures BeforeFirst(title, '-') == title[..n]
  {
    var r := BeforeFirst(title, '-');
    assert |r| <= n ==> title[..|r|] == r;
  }

  /** A title whose prefix, the first `n` characters, extends the parent's. */
  lemma SubnoteCase(title: string, parent: string, n: nat)
    requires n < |title| && title[n] == '-'
    requires forall i :: 0 <= i < n ==> title[i] != '-'
    requires |parent| < n && parent == title[..|parent|]
    ensures SubnoteDepth(title, Some(parent))
         == if parent != [] && IsDigit(parent[|parent| - 1]) && !IsAlpha(title[|parent|]) then None
            else Some(Depth(title[|parent|..n]))
  {
    PrefixAt(title, n);
    assert title[..n][|parent|..] == title[|parent|..n];
  }

  /** A title whose prefix, the first `n` characters, does not extend the
      parent's. */
  lemma NotSubnoteCase(title: string, parent: string, n: nat)
    requires n < |title| && title[n] == '-'
    requires forall i :: 0 <= i < n ==> title[i] != '-'
    requires !(parent <= title[..n] && n > |parent|)
    ensures SubnoteDepth(title, Some(parent)) == None
  {
    PrefixAt(title, n);
  }

  lemma DepthOfLetter(s: string, c: char)
    requires s == [c] && IsAlpha(c)
    ensures Depth(s) == 1
  {
    assert s[1..] == [];
  }

  lemma DepthOfDigit(s: string, d: char)
    requires s == [d] && IsDigit(d)
    ensures Depth(s) == 1
  {
    assert s[1..] == [];
    assert TakeDigits(s) == s;
  }

  lemma DepthOfLetterDigit(s: string, c: char, d: char)
    requires s == [c, d] && IsAlpha(c) && IsDigit(d)
    ensures Depth(s) == 2
  {
    assert s[1..] == [d];
    DepthOfDigit([d], d);
  }

  /** The depths of the source's `test_is_subnote`: a letter directly below
      a number is one level down, a letter and a number two. */
  lemma SubnoteTestDepthsBelowNumber(t1: string, t2: string, t3: string, p1: string, p10: string)
    requires t1 == "1a-title" && t2 == "1b-title" && t3 == "10a-title" && p1 == "1" && p10 == "10"
    ensures SubnoteDepth(t1, Some(p1)) == Some(1)
    ensures SubnoteDepth(t2, Some(p1)) == Some(1)
    ensures SubnoteDepth(t3, Some(p10)) == Some(1)
  {
    SubnoteCase(t1, p1, 2);
    DepthOfLetter(t1[1..2], 'a');
    SubnoteCase(t2, p1, 2);
    DepthOfLetter(t2[1..2], 'b');
    SubnoteCase(t3, p10, 3);
    DepthOfLetter(t3[2..3], 'a');
  }

  lemma SubnoteTestDepthsTwoLevels(t1: string, t2: string, p: string)
    requires t1 == "1a1-title" && t2 == "1a2-title" && p == "1"
    ensures SubnoteDepth(t1, Some(p)) == Some(2)
    ensures SubnoteDepth(t2, Some(p)) == Some(2)
  {
    SubnoteCase(t1, p, 3);
    DepthOfLetterDigit(t1[1..3], 'a', '1');
    SubnoteCase(t2, p, 3);
    DepthOfLetterDigit(t2[1..3], 'a', '2');
  }

  /** A number directly below a letter is one level down. */
  lemma SubnoteTestDepthsBelowLetter(t1: string, t2: string, p: string)
    requires t1 == "1a1-title" && t2 == "1a2-title" && p == "1a"
    ensures SubnoteDepth(t1, Some(p)) == Some(1)
    ensures SubnoteDepth(t2, Some(p)) == Some(1)
  {
    SubnoteCase(t1, p, 3);
    DepthOfDigit(t1[2..3], '1');
    SubnoteCase(t2, p, 3);
    DepthOfDigit(t2[2..3], '2');
  }

  /** The titles that `test_is_subnote` rejects because their prefix does not
      extend the parent's: another number, or the parent itself ... */
  lemma SubnoteTestRejectsOthers(t1: string, t2: string, p: string)
    requires t1 == "2-title" && t2 == "1-title" && p == "1"
    ensures SubnoteDepth(t1, Some(p)) == None
    ensures SubnoteDepth(t2, Some(p)) == None
  {
    NotSubnoteCase(t1, p, 1);
    NotSubnoteCase(t2, p, 1);
  }

  /** ... or a note on another branch. */
  lemma SubnoteTestRejectsBranches(t1: string, t2: string, p1: string, p2: string)
    requires t1 == "1a-title" && t2 == "2a-title" && p1 == "1" && p2 == "2"
    ensures SubnoteDepth(t1, Some(p2)) == None
    ensures SubnoteDepth(t2, Some(p1)) == None
  {
    assert t1[0] != p2[0] && t2[0] != p1[0];
    NotSubnoteCase(t1, p2, 2);
    NotSubnoteCase(t2, p1, 2);
  }

  /** Numbers that merely start with the parent's digits are not below it. */
  lemma SubnoteTestRejectsLongerNumbers(t1: string, t2: string, t3: string, p: string)
    requires t1 == "10-title" && t2 == "11-title" && t3 == "100-title" && p == "1"
    ensures SubnoteDepth(t1, Some(p)) == None
    ensures SubnoteDepth(t2, Some(p)) == None
    ensures SubnoteDepth(t3, Some(p)) == None
  {
    SubnoteCase(t1, p, 2);
    SubnoteCase(t2, p, 2);
    SubnoteCase(t3, p, 3);
  }

  /** A suffix of punctuation only is below its parent at depth zero. */
  lemma DepthZeroExample(t: string, p: string)
    requires t == "1a.-title" && p == "1a"
    ensures SubnoteDepth(t, Some(p)) == Some(0)
  {
    SubnoteCase(t, p, 3);
    assert t[2..3][1..] == [];
  }

  /** A one-digit number at the front of a prefix. */
  lemma PartsOfDigitThen(s: string, d: char, rest: string)
    requires s == [d] + rest && IsDigit(d) && (rest == [] || !IsDigit(rest[0]))
    ensures PartsOf(s) == [Number(d as int - '0' as int)] + PartsOf(rest)
  {
    assert s[1..] == rest;
    assert TakeDigits(s) == [d];
    assert DigitsValue([d]) == d as int - '0' as int by { assert [d][..0] == []; }
    assert ParseU32([d]) == Some(d as int - '0' as int);
  }

  /** A two-digit number at the front of a prefix. */
  lemma PartsOfTwoDigitsThen(s: string, d: char, e: char, rest: string)
    requires s == [d, e] + rest && IsDigit(d) && IsDigit(e) && (rest == [] || !IsDigit(rest[0]))
    ensures PartsOf(s) == [Number(10 * (d as int - '0' as int) + (e as int - '0' as int))] + PartsOf(rest)
  {
    var run := [d, e];
    var v := 10 * (d as int - '0' as int) + (e as int - '0' as int);
    TakeTwoDigits(s, d, e, rest);
    TwoDigitsValue(run, d, e);
    assert ParseU32(run) == Some(v);
    assert s[|run|..] == rest;
  }

  lemma TakeTwoDigits(s: string, d: char, e: char, rest: string)
    requires s == [d, e] + rest && IsDigit(d) && IsDigit(e) && (rest == [] || !IsDigit(rest[0]))
    ensures TakeDigits(s) == [d, e]
  {
    var t := [e] + rest;
    assert s[1..] == t && t[1..] == rest;
    assert TakeDigits(t) == [e];
  }

  lemma TwoDigitsValue(run: string, d: char, e: char)
    requires run == [d, e] && IsDigit(d) && IsDigit(e)
    ensures AllDigits(run)
    ensures DigitsValue(run) == 10 * (d as int - '0' as int) + (e as int - '0' as int)
  {
    assert run[..1] == [d] && [d][..0] == [];
    assert DigitsValue([d]) == d as int - '0' as int;
    assert DigitsValue(run) == DigitsValue([d]) * 10 + (e as int - '0' as int);
  }

  /** A lower-case letter at the front of a prefix. */
  lemma PartsOfLetterThen(s: string, c: char, rest: string)
    requires s == [c] + rest && 'a' <= c <= 'z'
    ensures PartsOf(s) == [Letter(c)] + PartsOf(rest)
  {
    assert s[1..] == rest;
  }

  /** "1a", "1b" and "1c": a number and a letter. */
  lemma PartsOfNumberLetter(s: string, d: char, c: char)
    requires s == [d, c] && IsDigit(d) && 'a' <= c <= 'z'
    ensures PartsOf(s) == [Number(d as int - '0' as int), Letter(c)]
  {
    PartsOfDigitThen(s, d, [c]);
    PartsOfLetterThen([c], c, []);
  }

  /** "1a1" and "1a2": a number, a letter and a number. */
  lemma PartsOfNumberLetterNumber(s: string, d: char, c: char, e: char)
    requires s == [d, c, e] && IsDigit(d) && 'a' <= c <= 'z' && IsDigit(e)
    ensures PartsOf(s) == [Number(d as int - '0' as int), Letter(c), Number(e as int - '0' as int)]
  {
    PartsOfDigitThen(s, d, [c, e]);
    PartsOfLetterThen([c, e], c, [e]);
    PartsOfDigitThen([e], e, []);
  }

  /** The example of `parse_zettelkasten_parts`, with a two-digit number. */
  lemma PartsExample(s: string, t: string)
    requires s == "1a2" && t == "1a10"
    ensures PartsOf(s) == [Number(1), Letter('a'), Number(2)]
    ensures PartsOf(t) == [Number(1), Letter('a'), Number(10)]
  {
    PartsOfNumberLetterNumber(s, '1', 'a', '2');
    PartsOfDigitThen(t, '1', t[1..]);
    PartsOfLetterThen(t[1..], 'a', t[2..]);
    PartsOfTwoDigitsThen(t[2..], '1', '0', t[4..]);
  }

  /** The order of `test_zettelkasten_sorting`, pair by pair: a prefix comes
      before its extensions, numbers compare by value (so "1a2" before
      "1a10"), and a deeper note of "1a" comes before "1b". */
  lemma ZettelTestOrder(a: string, a1: string, a2: string, a10: string, b: string, c: string)
    requires a == "1a" && a1 == "1a1" && a2 == "1a2" && a10 == "1a10" && b == "1b" && c == "1c"
    ensures ZettelOrder(a, a1) == Less
    ensures ZettelOrder(a1, a2) == Less
    ensures ZettelOrder(a2, a10) == Less
    ensures ZettelOrder(a10, b) == Less
    ensures ZettelOrder(b, c) == Less
  {
    PartsOfNumberLetter(a, '1', 'a');
    PartsOfNumberLetter(b, '1', 'b');
    PartsOfNumberLetter(c, '1', 'c');
    PartsOfNumberLetterNumber(a1, '1', 'a', '1');
    PartsExample(a2, a10);
    var pa, pa1, pa2, pa10, pb, pc := PartsOf(a), PartsOf(a1), PartsOf(a2), PartsOf(a10), PartsOf(b), PartsOf(c);
    ComparePartsPrefix(pa, pa1);
    ComparePartsFirstDifference(pa1, pa2, 2);
    ComparePartsFirstDifference(pa2, pa10, 2);
    ComparePartsFirstDifference(pa10, pb, 1);
    ComparePartsFirstDifference(pb, pc, 1);
  }

  lemma ThreeMultiset<T>(x: T, y: T, z: T)
    ensures multiset([x, y, z]) == multiset{x} + multiset{y} + multiset{z}
  {
    assert [x, y, z] == [x] + [y] + [z];
  }

  /** The input of `test_zettelkasten_sorting` is a permutation of its
      expected output. */
  lemma SixPermuted<T>(a: T, a1: T, a2: T, a10: T, b: T, c: T)
    ensures multiset([b, a2, a] + [a1, c, a10]) == multiset([a, a1, a2] + [a10, b, c])
  {
    ThreeMultiset(b, a2, a);
    ThreeMultiset(a1, c, a10);
    ThreeMultiset(a, a1, a2);
    ThreeMultiset(a10, b, c);
    var ma, ma1, ma2, ma10, mb, mc := multiset{a}, multiset{a1}, multiset{a2}, multiset{a10}, multiset{b}, multiset{c};
    UnionRearranged(ma, ma1, ma2, ma10, mb, mc);
  }

  lemma UnionRearranged<T>(ma: multiset<T>, ma1: multiset<T>, ma2: multiset<T>,
                           ma10: multiset<T>, mb: multiset<T>, mc: multiset<T>)
    ensures mb + ma2 + ma + (ma1 + mc + ma10) == ma + ma1 + ma2 + (ma10 + mb + mc)
  {
  }

  lemma SixChain<T>(cmp: (T, T) -> Ordering, a: T, a1: T, a2: T, a10: T, b: T, c: T)
    requires cmp(a, a1) == Less && cmp(a1, a2) == Less && cmp(a2, a10) == Less
    requires cmp(a10, b) == Less && cmp(b, c) == Less
    ensures StrictChain(cmp, [a, a1, a2] + [a10, b, c])
  {
  }

  /** `test_zettelkasten_sorting`: sorting "1b", "1a2", "1a", "1a1", "1c",
      "1a10" by `zettelkasten_compare` gives "1a", "1a1", "1a2", "1a10", "1b",
      "1c". */
  lemma ZettelTestSorting(prefixes: seq<string>, expected: seq<string>)
    requires prefixes == ["1b", "1a2", "1a"] + ["1a1", "1c", "1a10"]
    requires expected == ["1a", "1a1", "1a2"] + ["1a10", "1b", "1c"]
    ensures SortBy(prefixes, ZettelOrder) == expected
  {
    ZettelOrderPreorder();
    var e := expected;
    ZettelTestOrder(e[0], e[1], e[2], e[3], e[4], e[5]);
    SixChain(ZettelOrder, e[0], e[1], e[2], e[3], e[4], e[5]);
    SixPermuted(e[0], e[1], e[2], e[3], e[4], e[5]);
    SortChain(ZettelOrder, prefixes, expected);
  }
}
