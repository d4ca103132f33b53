/** The string operations of Rust's `str` that the note manager relies on:
    character classes, `split_whitespace`, `lines`, `trim`, `trim_start_matches`,
    `trim_end_matches`, `split(c).next()`, `join` and `contains`.

    `char::is_whitespace` is Unicode's White_Space property, a short fixed list,
    and is modelled exactly. `is_numeric`, `is_alphabetic` and `is_alphanumeric`
    cover large Unicode tables; they are modelled by their ASCII part only. */
module Text {

  /** `char::is_whitespace`: the code points with the White_Space property. */
  predicate IsWhitespace(c: char) {
    var n := c as int;
    || (0x09 <= n <= 0x0D)
    || n == 0x20
    || n == 0x85
    || n == 0xA0
    || n == 0x1680
    || (0x2000 <= n <= 0x200A)
    || n == 0x2028
    || n == 0x2029
    || n == 0x202F
    || n == 0x205F
    || n == 0x3000
  }

  /** ASCII stand-in for `char::is_numeric`. */
  predicate IsDigit(c: char) {
    '0' <= c <= '9'
  }

  /** ASCII stand-in for `char::is_alphabetic`. */
  predicate IsAlpha(c: char) {
    ('a' <= c <= 'z') || ('A' <= c <= 'Z')
  }

  /** ASCII stand-in for `char::is_alphanumeric`. */
  predicate IsAlnum(c: char) {
    IsDigit(c) || IsAlpha(c)
  }

  /** `char::to_ascii_lowercase`. */
  function ToAsciiLower(c: char): (r: char)
    ensures IsAlpha(c) ==> IsAlpha(r) && 'a' <= r <= 'z'
    ensures !('A' <= c <= 'Z') ==> r == c
  {
    if 'A' <= c <= 'Z' then (c as int + 32) as char else c
  }

  predicate NoWhitespace(s: string) {
    forall i :: 0 <= i < |s| ==> !IsWhitespace(s[i])
  }

  /** `s` is `t` at some offset: a contiguous piece of `t`. */
  ghost predicate IsSubstring(s: string, t: string) {
    exists i, j :: 0 <= i <= j <= |t| && t[i..j] == s
  }

  // ---------------------------------------------------------------------------
  // split_whitespace

  /** The input with its leading whitespace removed. */
  function DropWhitespace(s: string): (r: string)
    ensures |r| <= |s| && r == s[|s| - |r|..]
    ensures r == [] || !IsWhitespace(r[0])
    ensures forall i :: 0 <= i < |s| - |r| ==> IsWhitespace(s[i])
  {
    if s != [] && IsWhitespace(s[0]) then DropWhitespace(s[1..]) else s
  }

  /** The longest prefix free of whitespace. */
  function TakeWord(s: string): (r: string)
    ensures r <= s
    ensures NoWhitespace(r)
    ensures |r| == |s| || IsWhitespace(s[|r|])
  {
    if s == [] || IsWhitespace(s[0]) then [] else [s[0]] + TakeWord(s[1..])
  }

  /** `str::split_whitespace`: the maximal runs of non-whitespace, in order. */
  function Words(s: string): (r: seq<string>)
    ensures forall i :: 0 <= i < |r| ==> r[i] != [] && NoWhitespace(r[i])
    decreases |s|
  {
    if s == [] then []
    else if IsWhitespace(s[0]) then Words(s[1..])
    else
      var w := TakeWord(s);
      assert w != [];
      [w] + Words(s[|w|..])
  }

  // ---------------------------------------------------------------------------
  // lines

  /** Index of the first `c` in `s`, or `|s|` when there is none. */
  function IndexOf(s: string, c: char): (r: nat)
    ensures r <= |s|
    ensures c !in s[..r]
    ensures r < |s| ==> s[r] == c
  {
    if s == [] then 0
    else if s[0] == c then 0
    else
      var k := IndexOf(s[1..], c);
      assert s[..k + 1] == [s[0]] + s[1..][..k];
      1 + k
  }

  /** A line terminated by `\n` loses a `\r` just before it. */
  function StripCarriageReturn(line: string): (r: string)
    ensures r <= line
  {
    if |line| > 0 && line[|line| - 1] == '\r' then line[..|line| - 1] else line
  }

  /** `str::lines`: split at `\n` (and `\r\n`); a final line ending is optional,
      so the empty string has no lines at all. */
  function Lines(s: string): (r: seq<string>)
    ensures s == [] <==> r == []
    ensures forall i :: 0 <= i < |r| ==> '\n' !in r[i]
    decreases |s|
  {
    if s == [] then []
    else
      var k := IndexOf(s, '\n');
      if k == |s| then [s]
      else [StripCarriageReturn(s[..k])] + Lines(s[k + 1..])
  }

  // ---------------------------------------------------------------------------
  // trimming

  /** `str::trim_start_matches(c)`: drop every leading `c`. */
  function TrimStartChar(s: string, c: char): (r: string)
    ensures |r| <= |s| && r == s[|s| - |r|..]
    ensures r == [] || r[0] != c
    ensures forall i :: 0 <= i < |s| - |r| ==> s[i] == c
  {
    if s != [] && s[0] == c then TrimStartChar(s[1..], c) else s
  }

  /** `str::trim_end_matches(|c| !c.is_alphanumeric())`. */
  function TrimEndNonAlnum(s: string): (r: string)
    ensures r <= s
    ensures r == [] || IsAlnum(r[|r| - 1])
    ensures forall i :: |r| <= i < |s| ==> !IsAlnum(s[i])
  {
    if s != [] && !IsAlnum(s[|s| - 1]) then TrimEndNonAlnum(s[..|s| - 1]) else s
  }

  /** Drop trailing whitespace. */
  function TrimEndWhitespace(s: string): (r: string)
    ensures r <= s
    ensures r == [] || !IsWhitespace(r[|r| - 1])
    ensures forall i :: |r| <= i < |s| ==> IsWhitespace(s[i])
  {
    if s != [] && IsWhitespace(s[|s| - 1]) then TrimEndWhitespace(s[..|s| - 1]) else s
  }

  /** `str::trim`: drop leading and trailing whitespace. */
  function Trim(s: string): (r: string)
    ensures IsSubstring(r, s)
    ensures r == [] || (!IsWhitespace(r[0]) && !IsWhitespace(r[|r| - 1]))
  {
    var t := DropWhitespace(s);
    var r := TrimEndWhitespace(t);
    SliceOfSuffix(s, t, r);
    r
  }

  predicate AllWhitespace(s: string) {
    forall i :: 0 <= i < |s| ==> IsWhitespace(s[i])
  }

  /** `r` is the piece of `s` at offset `a`, and everything of `s` before and
      after that piece is whitespace. */
  predicate TrimmedFrom(s: string, r: string, a: nat) {
    a + |r| <= |s| && r == s[a..a + |r|] && AllWhitespace(s[..a]) && AllWhitespace(s[a + |r|..])
  }

  /** What `trim` keeps is the piece of `s` that starts after the leading
      whitespace; what it removes on either side is whitespace only. */
  lemma TrimRemovesWhitespace(s: string)
    ensures TrimmedFrom(s, Trim(s), |s| - |DropWhitespace(s)|)
  {
    var t := DropWhitespace(s);
    TrimmedPiece(s, t, TrimEndWhitespace(t), |s| - |t|);
  }

  lemma TrimmedPiece(s: string, t: string, r: string, a: nat)
    requires |t| <= |s| && t == s[|s| - |t|..] && a == |s| - |t|
    requires forall i :: 0 <= i < |s| - |t| ==> IsWhitespace(s[i])
    requires r <= t
    requires forall i :: |r| <= i < |t| ==> IsWhitespace(t[i])
    ensures TrimmedFrom(s, r, a)
  {
    SliceOfSuffix(s, t, r);
    var tail := s[a + |r|..];
    forall i | 0 <= i < |tail| ensures IsWhitespace(tail[i]) {
      assert tail[i] == t[|r| + i];
    }
  }

  lemma SliceOfSuffix(s: string, t: string, r: string)
    requires |t| <= |s| && t == s[|s| - |t|..] && r <= t
    ensures s[|s| - |t|..|s| - |t| + |r|] == r
  {
    var a := |s| - |t|;
    forall k | 0 <= k < |r| ensures s[a..a + |r|][k] == r[k] {
      assert s[a + k] == t[k];
    }
  }

  // ---------------------------------------------------------------------------
  // split, join, contains

  /** `s.split(c).next()`: which is always `Some`, the text before the first `c`. */
  function BeforeFirst(s: string, c: char): (r: string)
    ensures r <= s
    ensures c !in r
    ensures r == s || s[|r|] == c
  {
    s[..IndexOf(s, c)]
  }

  /** `slice.join(sep)`. */
  function Join(parts: seq<string>, sep: string): string
    decreases |parts|
  {
    if |parts| == 0 then []
    else if |parts| == 1 then parts[0]
    else parts[0] + sep + Join(parts[1..], sep)
  }

  /** `str::contains` with a string pattern. */
  predicate Contains(s: string, pattern: string)
    decreases |s|
  {
    pattern <= s || (s != [] && Contains(s[1..], pattern))
  }

  // ---------------------------------------------------------------------------
  // split_whitespace undoes a join with single spaces

  lemma {:induction false} TakeWordOfJoined(w: string, rest: string)
    requires NoWhitespace(w)
    requires rest == [] || IsWhitespace(rest[0])
    ensures TakeWord(w + rest) == w
    decreases |w|
  {
    if w != [] {
      assert (w + rest)[1..] == w[1..] + rest;
      TakeWordOfJoined(w[1..], rest);
    }
  }

  lemma WordsAfterSpace(s: string)
    ensures Words(" " + s) == Words(s)
  {
    assert (" " + s)[1..] == s;
  }

  /** Joining whitespace-free, non-empty words with single spaces and then
      splitting on whitespace gives the words back. */
  lemma {:induction false} WordsOfJoin(words: seq<string>)
    requires forall i :: 0 <= i < |words| ==> words[i] != [] && NoWhitespace(words[i])
    ensures Words(Join(words, " ")) == words
    decreases |words|
  {
    if |words| == 1 {
      WordsOfOne(words[0]);
    } else if |words| > 1 {
      var w, rest := words[0], Join(words[1..], " ");
      WordsOfJoinedPair(w, rest);
      WordsOfJoin(words[1..]);
      assert words == [w] + words[1..];
    }
  }

  /** The characters of the words, word after word, are the non-whitespace
      characters of the text in their order: nothing is lost or
      rearranged. */
  lemma {:induction false} WordsCover(s: string)
    ensures Concat(Words(s)) == NonWhitespace(s)
    decreases |s|
  {
    if s != [] {
      if IsWhitespace(s[0]) {
        WordsCover(s[1..]);
      } else {
        var w := TakeWord(s);
        assert s == w + s[|w|..];
        NonWhitespaceAppend(w, s[|w|..]);
        NonWhitespaceOfWord(w);
        WordsCover(s[|w|..]);
      }
    }
  }

  /** The characters of `s` that are not whitespace, in order. */
  function NonWhitespace(s: string): (r: string)
    ensures NoWhitespace(r) && |r| <= |s|
  {
    if s == [] then [] else (if IsWhitespace(s[0]) then [] else [s[0]]) + NonWhitespace(s[1..])
  }

  /** The pieces one after another. */
  function Concat(parts: seq<string>): string {
    if parts == [] then [] else parts[0] + Concat(parts[1..])
  }

  lemma {:induction false} NonWhitespaceAppend(x: string, y: string)
    ensures NonWhitespace(x + y) == NonWhitespace(x) + NonWhitespace(y)
    decreases |x|
  {
    if x == [] {
      assert x + y == y;
    } else {
      var head := if IsWhitespace(x[0]) then [] else [x[0]];
      assert (x + y)[0] == x[0];
      assert (x + y)[1..] == x[1..] + y;
      NonWhitespaceAppend(x[1..], y);
      var u, v := NonWhitespace(x[1..]), NonWhitespace(y);
      assert head + (u + v) == (head + u) + v;
    }
  }

  lemma {:induction false} NonWhitespaceOfWord(w: string)
    requires NoWhitespace(w)
    ensures NonWhitespace(w) == w
    decreases |w|
  {
    if w != [] {
      NonWhitespaceOfWord(w[1..]);
    }
  }

  /** A text has no words exactly when it is all whitespace. */
  lemma {:induction false} WordsNone(s: string)
    ensures Words(s) == [] <==> forall i :: 0 <= i < |s| ==> IsWhitespace(s[i])
    decreases |s|
  {
    if s != [] && IsWhitespace(s[0]) {
      WordsNone(s[1..]);
      assert forall i :: 1 <= i < |s| ==> s[i] == s[1..][i - 1];
    }
  }

  /** A word ended by whitespace or by the end of the text is a whole word of
      it: the runs are maximal. */
  lemma WordsMaximal(w: string, rest: string)
    requires w != [] && NoWhitespace(w)
    requires rest == [] || IsWhitespace(rest[0])
    ensures Words(w + rest) == [w] + Words(rest)
  {
    TakeWordOfJoined(w, rest);
    assert (w + rest)[|w|..] == rest;
  }

  /** A single word splits into itself. */
  lemma WordsOfOne(w: string)
    requires w != [] && NoWhitespace(w)
    ensures Words(w) == [w]
  {
    TakeWordOfJoined(w, []);
    assert w + [] == w;
    assert w[|w|..] == [];
  }

  /** A word, a space, and more text: the word, then the words of the rest. */
  lemma WordsOfJoinedPair(w: string, rest: string)
    requires w != [] && NoWhitespace(w)
    ensures Words(w + " " + rest) == [w] + Words(rest)
  {
    var s := w + " " + rest;
    assert s == w + (" " + rest);
    TakeWordOfJoined(w, " " + rest);
    assert s[|w|..] == " " + rest;
    WordsAfterSpace(rest);
  }

  // ---------------------------------------------------------------------------
  // split_whitespace across a whitespace character

  lemma {:induction false} TakeWordOfPrefix(x: string, y: string)
    requires |TakeWord(x)| < |x| || y == [] || IsWhitespace(y[0])
    ensures TakeWord(x + y) == TakeWord(x)
    decreases |x|
  {
    if x != [] && !IsWhitespace(x[0]) {
      assert (x + y)[1..] == x[1..] + y;
      TakeWordOfPrefix(x[1..], y);
    }
  }

  /** Words on either side of a whitespace character are split apart. */
  lemma {:induction false} WordsAround(a: string, c: char, b: string)
    requires IsWhitespace(c)
    ensures Words(a + [c] + b) == Words(a) + Words(b)
    decreases |a|
  {
    if a == [] {
      assert (a + [c] + b)[1..] == b;
    } else if IsWhitespace(a[0]) {
      WordsAround(a[1..], c, b);
      WordsAroundSpace(a, c, b);
    } else {
      WordsAround(a[TakeWordLength(a)..], c, b);
      WordsAroundWord(a, c, b);
    }
  }

  function TakeWordLength(s: string): (n: nat)
    ensures n <= |s|
  {
    |TakeWord(s)|
  }

  /** The step of `WordsAround` over leading whitespace. */
  lemma WordsAroundSpace(a: string, c: char, b: string)
    requires a != [] && IsWhitespace(a[0])
    requires Words(a[1..] + [c] + b) == Words(a[1..]) + Words(b)
    ensures Words(a + [c] + b) == Words(a) + Words(b)
  {
    assert (a + [c] + b)[1..] == a[1..] + [c] + b;
  }

  /** The step of `WordsAround` over a leading word. */
  lemma WordsAroundWord(a: string, c: char, b: string)
    requires a != [] && !IsWhitespace(a[0]) && IsWhitespace(c)
    requires Words(a[|TakeWord(a)|..] + [c] + b) == Words(a[|TakeWord(a)|..]) + Words(b)
    ensures Words(a + [c] + b) == Words(a) + Words(b)
  {
    var w := TakeWord(a);
    WordsAfterWord(a, c, b);
    WordsOfWordStart(a);
    ConsAssociates(w, Words(a[|w|..]), Words(b));
  }

  lemma ConsAssociates<T>(x: T, y: seq<T>, z: seq<T>)
    ensures [x] + (y + z) == ([x] + y) + z
  {
  }

  /** A word of `a` stays a word when whitespace and more text follow `a`. */
  lemma WordsAfterWord(a: string, c: char, b: string)
    requires a != [] && !IsWhitespace(a[0]) && IsWhitespace(c)
    ensures Words(a + [c] + b) == [TakeWord(a)] + Words(a[|TakeWord(a)|..] + [c] + b)
  {
    var s := a + [c] + b;
    var w := TakeWord(a);
    assert s == a + ([c] + b);
    TakeWordOfPrefix(a, [c] + b);
    assert s[|w|..] == a[|w|..] + [c] + b;
    WordsOfWordStart(s);
  }

  /** A text that starts with a word: that word, then the words after it. */
  lemma WordsOfWordStart(s: string)
    requires s != [] && !IsWhitespace(s[0])
    ensures Words(s) == [TakeWord(s)] + Words(s[|TakeWord(s)|..])
  {
  }

  /** Removing the `\r` of a line does not change its words. */
  lemma WordsOfStripped(line: string)
    ensures Words(StripCarriageReturn(line)) == Words(line)
  {
    if |line| > 0 && line[|line| - 1] == '\r' {
      var x := line[..|line| - 1];
      assert line == x + ['\r'] + [];
      WordsAround(x, '\r', []);
      assert x + [] == x;
    }
  }

  /** Splitting `s` into lines and each line into words gives the words of
      `s`. */
  lemma {:induction false} WordsOfLines(s: string)
    ensures Words(s) == LineWords(Lines(s))
    decreases |s|
  {
    if s != [] {
      var k := IndexOf(s, '\n');
      if k == |s| {
        assert LineWords([s]) == Words(s) + LineWords([]);
      } else {
        var head, tail := s[..k], s[k + 1..];
        assert s == head + ['\n'] + tail;
        WordsAround(head, '\n', tail);
        WordsOfStripped(head);
        WordsOfLines(tail);
        var ls := [StripCarriageReturn(head)] + Lines(tail);
        assert ls[1..] == Lines(tail);
      }
    }
  }

  /** The words of each line, line after line. */
  function LineWords(lines: seq<string>): seq<string> {
    if lines == [] then [] else Words(lines[0]) + LineWords(lines[1..])
  }

  lemma {:induction false} LineWordsSnoc(lines: seq<string>, line: string)
    ensures LineWords(lines + [line]) == LineWords(lines) + Words(line)
    decreases |lines|
  {
    if lines == [] {
      assert [line][1..] == [];
    } else {
      assert (lines + [line])[1..] == lines[1..] + [line];
      LineWordsSnoc(lines[1..], line);
    }
  }

  // ---------------------------------------------------------------------------
  // trimming a character added at the end

  lemma {:induction false} TrimStartAppend(x: string, c: char, d: char)
    requires d != c
    ensures TrimStartChar(x + [d], c) == TrimStartChar(x, c) + [d]
    decreases |x|
  {
    if x != [] && x[0] == c {
      assert (x + [d])[1..] == x[1..] + [d];
      TrimStartAppend(x[1..], c, d);
    }
  }

  lemma {:induction false} DropWhitespaceAppend(y: string, d: char)
    requires IsWhitespace(d)
    ensures DropWhitespace(y + [d]) == if DropWhitespace(y) == [] then [] else DropWhitespace(y) + [d]
    decreases |y|
  {
    if y == [] {
      assert [d][1..] == [];
    } else if IsWhitespace(y[0]) {
      assert (y + [d])[1..] == y[1..] + [d];
      DropWhitespaceAppend(y[1..], d);
    }
  }

  /** A whitespace character at the end does not change what `trim` gives. */
  lemma TrimAppendWhitespace(y: string, d: char)
    requires IsWhitespace(d)
    ensures Trim(y + [d]) == Trim(y)
  {
    DropWhitespaceAppend(y, d);
    var t := DropWhitespace(y);
    if t != [] {
      assert (t + [d])[..|t|] == t;
    }
  }

  lemma {:induction false} IndexOfAbsent(s: string, t: string, c: char)
    requires c !in s
    requires t == [] || t[0] == c
    ensures IndexOf(s + t, c) == |s|
    decreases |s|
  {
    if s != [] {
      assert (s + t)[1..] == s[1..] + t;
      IndexOfAbsent(s[1..], t, c);
    }
  }

  /** A line ended by `\n` is the first of the lines. */
  lemma LinesOfTerminated(line: string, rest: string)
    requires '\n' !in line
    ensures Lines(line + "\n" + rest) == [StripCarriageReturn(line)] + Lines(rest)
  {
    var s := line + "\n" + rest;
    assert s == line + ("\n" + rest);
    IndexOfAbsent(line, "\n" + rest, '\n');
    assert s[..|line|] == line;
    assert s[|line| + 1..] == rest;
  }

  /** There is one line per `\n`, and one more for text after the last `\n`. */
  lemma {:induction false} LinesCount(s: string)
    ensures |Lines(s)| == multiset(s)['\n'] + (if s != [] && s[|s| - 1] != '\n' then 1 else 0)
    decreases |s|
  {
    if s != [] {
      var k := IndexOf(s, '\n');
      if k == |s| {
        assert multiset(s)['\n'] == 0;
      } else {
        var head, tail := s[..k], s[k + 1..];
        assert s == head + ['\n'] + tail;
        assert multiset(s) == multiset(head) + multiset(['\n']) + multiset(tail);
        assert multiset(head)['\n'] == 0;
        LinesCount(tail);
        if tail != [] {
          assert s[|s| - 1] == tail[|tail| - 1];
        }
      }
    }
  }

  /** A text without `\n` is a single line. */
  lemma LinesOfUnterminated(line: string)
    requires line != [] && '\n' !in line
    ensures Lines(line) == [line]
  {
    IndexOfAbsent(line, [], '\n');
    assert line + [] == line;
  }

  /** A character absent from a text is absent from every piece of it. */
  lemma AbsentFromSubstring(s: string, t: string, c: char)
    requires IsSubstring(s, t) && c !in t
    ensures c !in s
  {
    var i, j :| 0 <= i <= j <= |t| && t[i..j] == s;
  }
}
