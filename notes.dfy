/** The note store of `src-tauri/src/notes/mod.rs`: notes are files under a
    notes directory; a note's id is its path relative to that directory,
    written as UTF-8 and encoded in base 64; its title, tags and type are
    derived from the file's name and content every time it is read.

    The file system is an input: `FileData` says what reading a path gives,
    a map from paths to `FileData` says which paths exist, and the directory
    walk is the sequence of paths with their data that it yields. */
module Notes {
  import opened Prelude
  import Text
  import Utf8
  import Base64
  import opened Paths
  import opened Sorting

  /** `DateTime<Utc>` as nanoseconds since the Unix epoch. */
  type Instant = int

  datatype SortOption = TitleAsc | TitleDesc | CreatedNewest | CreatedOldest | ModifiedNewest | ModifiedOldest

  datatype NoteType = Markdown | PlainText

  datatype Note = Note(
    id: string,
    title: string,
    content: string,
    created: Instant,
    modified: Instant,
    tags: seq<string>,
    fileType: NoteType)

  datatype NoteSummary = NoteSummary(
    id: string,
    title: string,
    created: Instant,
    modified: Instant,
    tags: seq<string>,
    fileType: NoteType)

  /** The creation and modification times that `metadata()` reports (with the
      current time already put in for a time the platform cannot supply). */
  datatype Timestamps = Timestamps(created: Instant, modified: Instant)

  /** What the file system has at a path: whether it is a regular file, the
      text `read_to_string` returns (`None` when the read fails or the bytes
      are not UTF-8), and the metadata (`None` when `metadata()` fails). */
  datatype FileData = FileData(isFile: bool, content: Option<string>, metadata: Option<Timestamps>)

  /** The distinct failures behind the `anyhow` errors of the note store. */
  datatype NoteError =
    | ReadFailed      // "Failed to read note file"
    | MetadataFailed  // "Failed to read file metadata"
    | NotInNotesDir   // "Path is not in notes directory"
    | InvalidBase64   // "Failed to decode note ID"
    | InvalidUtf8     // "Invalid UTF-8 in note ID"
    | NotFound        // "Note not found"

  const UntitledNote: string := "Untitled Note"

  /** The summary is the note without its content. */
  function ToSummary(n: Note): NoteSummary {
    NoteSummary(n.id, n.title, n.created, n.modified, n.tags, n.fileType)
  }

  // ---------------------------------------------------------------------------
  // note type and title

  /** `get_note_type`: Markdown for extension `md`, plain text otherwise. */
  function GetNoteType(path: Path): (t: NoteType)
    ensures t == Markdown <==> Extension(path) == Some("md")
  {
    if Extension(path) == Some("md") then Markdown else PlainText
  }

  /** The title `read_note` and `get_note_summary` derive: for Markdown the
      first line without its leading `#`s and then trimmed, for plain text the
      file stem. */
  function NoteTitle(path: Path, fileType: NoteType, content: string): string {
    match fileType
    case Markdown =>
      var lines := Text.Lines(content);
      if lines == [] then UntitledNote else Text.Trim(Text.TrimStartChar(lines[0], '#'))
    case PlainText =>
      match FileStem(path)
      case None => UntitledNote
      case Some(stem) => stem
  }

  // ---------------------------------------------------------------------------
  // tags

  /** `word.starts_with("#") && word.len() > 1`; since `#` is one byte, a byte
      length over one is a character length over one. */
  predicate IsTagWord(word: string) {
    |word| > 1 && word[0] == '#'
  }

  /** `trim_start_matches('#')` and then `trim_end_matches(non-alphanumeric)`. */
  function CleanTag(word: string): string {
    Text.TrimEndNonAlnum(Text.TrimStartChar(word, '#'))
  }

  /** `word` is a tag word that cleans to `tag`. */
  predicate Yields(word: string, tag: string) {
    IsTagWord(word) && CleanTag(word) == tag
  }

  /** One pass of the inner loop of `extract_tags`. */
  function AddTag(tags: seq<string>, word: string): seq<string> {
    if IsTagWord(word) && CleanTag(word) != [] && CleanTag(word) !in tags then tags + [CleanTag(word)]
    else tags
  }

  /** The tags gathered from a sequence of words, one word after another. */
  function TagsOfWords(words: seq<string>): seq<string> {
    if words == [] then [] else AddTag(TagsOfWords(words[..|words| - 1]), words[|words| - 1])
  }

  /** The tags `extract_tags` returns for `content`: those of its words, line
      after line. */
  function TagsOf(content: string): seq<string> {
    TagsOfWords(Text.LineWords(Text.Lines(content)))
  }

  /** `extract_tags`: for each line, for each whitespace-separated word, keep
      the cleaned tag of a `#` word if it is not empty and not yet kept. */
  method ExtractTags(content: string) returns (tags: seq<string>)
    ensures tags == TagsOf(content)
  {
    tags := [];
    var lines := Text.Lines(content);
    for li := 0 to |lines|
      invariant tags == TagsOfWords(Text.LineWords(lines[..li]))
    {
      var words := Text.Words(lines[li]);
      ghost var before := Text.LineWords(lines[..li]);
      assert before + words[..0] == before;
      for wi := 0 to |words|
        invariant tags == TagsOfWords(before + words[..wi])
      {
        var word := words[wi];
        ghost var old_tags := tags;
        if |word| > 1 && word[0] == '#' {
          var tag := CleanTag(word);
          if tag != [] && tag !in tags {
            tags := tags + [tag];
          }
        }
        WordStep(before, words, wi, old_tags, tags);
      }
      LineStep(lines, li, tags);
    }
    assert lines[..|lines|] == lines;
  }

  /** The inner invariant of `ExtractTags` carried over one word. */
  lemma WordStep(before: seq<string>, words: seq<string>, wi: nat, acc: seq<string>, after: seq<string>)
    requires wi < |words| && acc == TagsOfWords(before + words[..wi])
    requires after == AddTag(acc, words[wi])
    ensures after == TagsOfWords(before + words[..wi + 1])
  {
    TagsOfWordsSnoc(before + words[..wi], words[wi]);
    assert before + words[..wi + 1] == (before + words[..wi]) + [words[wi]];
  }

  /** The outer invariant of `ExtractTags` carried over one line. */
  lemma LineStep(lines: seq<string>, li: nat, acc: seq<string>)
    requires li < |lines|
    requires acc == TagsOfWords(Text.LineWords(lines[..li]) + Text.Words(lines[li])[..|Text.Words(lines[li])|])
    ensures acc == TagsOfWords(Text.LineWords(lines[..li + 1]))
  {
    var words := Text.Words(lines[li]);
    assert words[..|words|] == words;
    Text.LineWordsSnoc(lines[..li], lines[li]);
    assert lines[..li + 1] == lines[..li] + [lines[li]];
  }

  lemma TagsOfWordsSnoc(words: seq<string>, word: string)
    ensures TagsOfWords(words + [word]) == AddTag(TagsOfWords(words), word)
  {
    assert (words + [word])[..|words|] == words;
  }

  /** The index of the first word that yields `tag`, or the number of words
      when none does. */
  function FirstYield(words: seq<string>, tag: string): (r: nat)
    ensures r <= |words|
    ensures forall k :: 0 <= k < r ==> !Yields(words[k], tag)
    ensures r < |words| ==> Yields(words[r], tag)
  {
    if words == [] then 0
    else if Yields(words[0], tag) then 0
    else 1 + FirstYield(words[1..], tag)
  }

  /** A tag is not empty, does not start with `#`, ends with an alphanumeric
      character and holds no whitespace. */
  predicate WellFormedTag(tag: string) {
    && tag != []
    && tag[0] != '#'
    && Text.IsAlnum(tag[|tag| - 1])
    && Text.NoWhitespace(tag)
  }

  lemma CleanTagWellFormed(word: string)
    requires Text.NoWhitespace(word) && CleanTag(word) != []
    ensures WellFormedTag(CleanTag(word))
  {
    var stripped := Text.TrimStartChar(word, '#');
    assert CleanTag(word)[0] == stripped[0];
  }

  /** Every tag comes from a `#` word and is not empty. */
  lemma {:induction false} TagsSound(words: seq<string>)
    ensures forall t <- TagsOfWords(words) :: t != [] && FirstYield(words, t) < |words|
    decreases |words|
  {
    if words != [] {
      var n := |words|;
      var front := words[..n - 1];
      TagsSound(front);
      forall t <- TagsOfWords(words)
        ensures t != [] && FirstYield(words, t) < |words|
      {
        if t in TagsOfWords(front) {
          var k := FirstYield(front, t);
          assert words[k] == front[k];
        } else {
          assert Yields(words[n - 1], t);
        }
      }
    }
  }

  /** Every `#` word whose cleaned form is not empty contributes its tag. */
  lemma {:induction false} TagsComplete(words: seq<string>)
    ensures forall k :: 0 <= k < |words| && IsTagWord(words[k]) && CleanTag(words[k]) != [] ==>
      CleanTag(words[k]) in TagsOfWords(words)
    decreases |words|
  {
    if words != [] {
      var n := |words|;
      var front := words[..n - 1];
      TagsComplete(front);
      forall k | 0 <= k < n - 1 && IsTagWord(words[k]) && CleanTag(words[k]) != []
        ensures CleanTag(words[k]) in TagsOfWords(words)
      {
        assert words[k] == front[k];
      }
    }
  }

  /** No element occurs twice. */
  predicate Distinct(s: seq<string>) {
    forall i, j :: 0 <= i < j < |s| ==> s[i] != s[j]
  }

  /** No tag is kept twice. */
  lemma {:induction false} TagsDistinct(words: seq<string>)
    ensures Distinct(TagsOfWords(words))
    decreases |words|
  {
    if words != [] {
      var n := |words|;
      var before, tags := TagsOfWords(words[..n - 1]), TagsOfWords(words);
      TagsDistinct(words[..n - 1]);
      if tags != before {
        var c := CleanTag(words[n - 1]);
        assert tags == before + [c] && c !in before;
        forall i, j | 0 <= i < j < |tags|
          ensures tags[i] != tags[j]
        {
          if j < |before| {
            assert tags[i] == before[i] && tags[j] == before[j];
          } else {
            assert tags[i] == before[i] && tags[j] == c;
          }
        }
      }
    }
  }

  lemma FirstYieldKept(front: seq<string>, word: string, tag: string)
    requires FirstYield(front, tag) < |front|
    ensures FirstYield(front + [word], tag) == FirstYield(front, tag)
  {
    var k := FirstYield(front, tag);
    assert (front + [word])[k] == front[k];
    assert forall m :: 0 <= m < k ==> (front + [word])[m] == front[m];
  }

  lemma FirstYieldNew(front: seq<string>, word: string, tag: string)
    requires FirstYield(front, tag) == |front| && Yields(word, tag)
    ensures FirstYield(front + [word], tag) == |front|
  {
    assert (front + [word])[|front|] == word;
    assert forall m :: 0 <= m < |front| ==> (front + [word])[m] == front[m];
  }

  /** `tags` are in the order of the first word of `words` that yields each. */
  predicate InFirstYieldOrder(words: seq<string>, tags: seq<string>) {
    forall i, j :: 0 <= i < j < |tags| ==> FirstYield(words, tags[i]) < FirstYield(words, tags[j])
  }

  /** One word keeps the order of the tags gathered before it. */
  lemma InOrderStep(front: seq<string>, word: string, before: seq<string>)
    requires InFirstYieldOrder(front, before)
    requires forall t <- before :: FirstYield(front, t) < |front|
    requires forall k :: 0 <= k < |front| && IsTagWord(front[k]) && CleanTag(front[k]) != [] ==>
      CleanTag(front[k]) in before
    ensures InFirstYieldOrder(front + [word], AddTag(before, word))
  {
    var words := front + [word];
    FirstYieldsKept(front, word, before);
    InOrderSame(front, words, before);
    if IsTagWord(word) && CleanTag(word) != [] && CleanTag(word) !in before {
      InOrderNewTag(front, word, before);
    }
  }

  /** A word added at the end does not move the first words of earlier tags. */
  lemma FirstYieldsKept(front: seq<string>, word: string, before: seq<string>)
    requires forall t <- before :: FirstYield(front, t) < |front|
    ensures forall t <- before :: FirstYield(front + [word], t) == FirstYield(front, t)
  {
    forall t <- before
      ensures FirstYield(front + [word], t) == FirstYield(front, t)
    {
      FirstYieldKept(front, word, t);
    }
  }

  /** A new tag from the last word comes after every earlier tag. */
  lemma InOrderNewTag(front: seq<string>, word: string, before: seq<string>)
    requires InFirstYieldOrder(front + [word], before)
    requires forall t <- before :: FirstYield(front, t) < |front|
    requires forall t <- before :: FirstYield(front + [word], t) == FirstYield(front, t)
    requires forall k :: 0 <= k < |front| && IsTagWord(front[k]) && CleanTag(front[k]) != [] ==>
      CleanTag(front[k]) in before
    requires IsTagWord(word) && CleanTag(word) != [] && CleanTag(word) !in before
    ensures InFirstYieldOrder(front + [word], before + [CleanTag(word)])
  {
    var words := front + [word];
    var c := CleanTag(word);
    assert FirstYield(front, c) == |front|;
    FirstYieldNew(front, word, c);
    assert forall t <- before :: FirstYield(words, t) < FirstYield(words, c);
    InOrderAppend(words, before, c);
  }

  lemma InOrderSame(front: seq<string>, words: seq<string>, tags: seq<string>)
    requires InFirstYieldOrder(front, tags)
    requires forall t <- tags :: FirstYield(words, t) == FirstYield(front, t)
    ensures InFirstYieldOrder(words, tags)
  {
  }

  /** A tag whose first word follows those of all earlier tags extends their order. */
  lemma InOrderAppend(words: seq<string>, before: seq<string>, c: string)
    requires InFirstYieldOrder(words, before)
    requires forall t <- before :: FirstYield(words, t) < FirstYield(words, c)
    ensures InFirstYieldOrder(words, before + [c])
  {
    var tags := before + [c];
    forall i, j | 0 <= i < j < |tags|
      ensures FirstYield(words, tags[i]) < FirstYield(words, tags[j])
    {
      assert tags[i] == before[i];
      if j < |before| {
        assert tags[j] == before[j];
      } else {
        assert tags[j] == c;
      }
    }
  }

  /** The tags come in the order of the first word that yields each. */
  lemma {:induction false} TagsInOrder(words: seq<string>)
    ensures InFirstYieldOrder(words, TagsOfWords(words))
    decreases |words|
  {
    if words != [] {
      var n := |words|;
      var front, word := words[..n - 1], words[n - 1];
      assert words == front + [word];
      TagsInOrder(front);
      TagsSound(front);
      TagsComplete(front);
      InOrderStep(front, word, TagsOfWords(front));
    }
  }

  /** The tags are those of the words of the whole content: line breaks act as
      any other whitespace. */
  lemma TagsOfContent(content: string)
    ensures TagsOf(content) == TagsOfWords(Text.Words(content))
  {
    Text.WordsOfLines(content);
  }

  /** Every tag of a note's content is well formed. */
  lemma TagsWellFormed(content: string)
    ensures forall t <- TagsOf(content) :: WellFormedTag(t)
  {
    var words := Text.Words(content);
    TagsOfContent(content);
    TagsSound(words);
    forall t <- TagsOf(content)
      ensures WellFormedTag(t)
    {
      CleanTagWellFormed(words[FirstYield(words, t)]);
    }
  }

  /** The tags of a content, described without the loop: from the words of
      the content, the cleaned forms of its `#` words, each once, in the
      order in which they first occur. */
  lemma TagsCharacterised(content: string)
    ensures var words, tags := Text.Words(content), TagsOf(content);
      && Distinct(tags)
      && (forall t <- tags :: WellFormedTag(t) && FirstYield(words, t) < |words|)
      && (forall k :: 0 <= k < |words| && IsTagWord(words[k]) && CleanTag(words[k]) != [] ==>
            CleanTag(words[k]) in tags)
      && InFirstYieldOrder(words, tags)
  {
    var words := Text.Words(content);
    TagsOfContent(content);
    TagsWellFormed(content);
    TagsDistinct(words);
    TagsSound(words);
    TagsComplete(words);
    TagsInOrder(words);
  }

  /** A `#` word made of a body that starts with something other than `#`
      and ends alphanumerically, then a run of other characters, cleans to
      the body. */
  lemma CleanTagOfWord(word: string, body: string, tail: string)
    requires word == "#" + body + tail
    requires body != [] && body[0] != '#' && Text.IsAlnum(body[|body| - 1])
    requires forall i :: 0 <= i < |tail| ==> !Text.IsAlnum(tail[i])
    ensures CleanTag(word) == body
  {
    assert word[1..] == body + tail;
    assert Text.TrimStartChar(word, '#') == body + tail;
    TrimEndOfTail(body, tail);
  }

  lemma {:induction false} TrimEndOfTail(body: string, tail: string)
    requires body != [] && Text.IsAlnum(body[|body| - 1])
    requires forall i :: 0 <= i < |tail| ==> !Text.IsAlnum(tail[i])
    ensures Text.TrimEndNonAlnum(body + tail) == body
    decreases |tail|
  {
    if tail == [] {
      assert body + tail == body;
    } else {
      var s := body + tail;
      assert s[..|s| - 1] == body + tail[..|tail| - 1];
      TrimEndOfTail(body, tail[..|tail| - 1]);
    }
  }

  /** The cleaning drops trailing punctuation but keeps inner punctuation:
      `#foo-bar` gives `foo-bar`. */
  lemma CleanTagExamples(w1: string, w2: string)
    requires w1 == "#world!" && w2 == "#foo-bar"
    ensures CleanTag(w1) == "world"
    ensures CleanTag(w2) == "foo-bar"
  {
    CleanTagOfWord(w1, w1[1..6], w1[6..]);
    CleanTagOfWord(w2, w2[1..], []);
  }

  /** A one-letter tag is kept, and `##` leaves nothing. */
  lemma CleanTagShortExamples(w1: string, w2: string)
    requires w1 == "#a" && w2 == "##"
    ensures CleanTag(w1) == "a"
    ensures CleanTag(w2) == []
  {
    CleanTagOfWord(w1, w1[1..], []);
    CleanTagOfHashes(w2);
  }

  /** A word of hashes only leaves nothing. */
  lemma CleanTagOfHashes(word: string)
    requires forall i :: 0 <= i < |word| ==> word[i] == '#'
    ensures CleanTag(word) == []
  {
  }

  // ---------------------------------------------------------------------------
  // titles

  /** The trimmed title does not see a `\r` at the end of the first line. */
  lemma TitleIgnoresCarriageReturn(line: string)
    ensures Text.Trim(Text.TrimStartChar(Text.StripCarriageReturn(line), '#'))
         == Text.Trim(Text.TrimStartChar(line, '#'))
  {
    if |line| > 0 && line[|line| - 1] == '\r' {
      var x := line[..|line| - 1];
      assert line == x + ['\r'];
      Text.TrimStartAppend(x, '#', '\r');
      Text.TrimAppendWhitespace(Text.TrimStartChar(x, '#'), '\r');
    }
  }

  /** A Markdown title is the first line of the content with its leading `#`s
      removed and then trimmed, whatever follows that line and whether the
      line ends in `\n` or `\r\n`. */
  lemma MarkdownTitleOfFirstLine(path: Path, line: string, rest: string)
    requires '\n' !in line
    ensures NoteTitle(path, Markdown, line + "\n" + rest) == Text.Trim(Text.TrimStartChar(line, '#'))
    ensures line != [] ==> NoteTitle(path, Markdown, line) == Text.Trim(Text.TrimStartChar(line, '#'))
  {
    Text.LinesOfTerminated(line, rest);
    TitleIgnoresCarriageReturn(line);
    if line != [] {
      Text.LinesOfUnterminated(line);
    }
  }

  /** A Markdown title holds no line break and no whitespace at either end;
      an empty Markdown file is "Untitled Note". */
  lemma MarkdownTitleShape(path: Path, content: string)
    ensures content == [] ==> NoteTitle(path, Markdown, content) == UntitledNote
    ensures content != [] ==> var t := NoteTitle(path, Markdown, content);
      && '\n' !in t
      && (t == [] || (!Text.IsWhitespace(t[0]) && !Text.IsWhitespace(t[|t| - 1])))
  {
    if content != [] {
      var lines := Text.Lines(content);
      var t := NoteTitle(path, Markdown, content);
      var stripped := Text.TrimStartChar(lines[0], '#');
      assert '\n' !in stripped by {
        assert stripped == lines[0][|lines[0]| - |stripped|..];
      }
      Text.AbsentFromSubstring(t, stripped, '\n');
    }
  }

  /** A plain-text title is the file stem and does not depend on the content. */
  lemma PlainTextTitle(path: Path, content: string, other: string)
    ensures NoteTitle(path, PlainText, content) == NoteTitle(path, PlainText, other)
    ensures FileStem(path).Some? ==> NoteTitle(path, PlainText, content) == FileStem(path).value
    ensures FileStem(path).None? ==> NoteTitle(path, PlainText, content) == UntitledNote
  {
  }

  // ---------------------------------------------------------------------------
  // identifiers

  /** `path_to_id`: the base 64 of the UTF-8 of the path relative to the notes
      directory; fails for a path outside it. */
  function PathToId(notesDir: Path, path: Path): (r: Result<string, NoteError>)
    ensures r.Ok? <==> StripPrefix(path, notesDir).Some?
    ensures r.Err? ==> r.error == NotInNotesDir
    ensures r.Ok? ==> Base64.Decode(r.value).Some?
  {
    match StripPrefix(path, notesDir)
    case None => Err(NotInNotesDir)
    case Some(rel) =>
      Base64.DecodeEncode(Utf8.Encode(ToString(rel)));
      Ok(Base64.Encode(Utf8.Encode(ToString(rel))))
  }

  /** `get_note_path`: decode the id and join it onto the notes directory;
      fails on bad base 64, on bytes that are not UTF-8, and on a path that
      does not exist. A text that names a directory by its syntax (a trailing
      `/` or `.`) does not exist when its components lead to a regular file. */
  function GetNotePath(notesDir: Path, fs: map<Path, FileData>, id: string): (r: Result<Path, NoteError>)
    ensures r == Err(InvalidBase64) <==> Base64.Decode(id).None?
    ensures r == Err(InvalidUtf8) <==> Base64.Decode(id).Some? && Utf8.Decode(Base64.Decode(id).value).None?
    ensures r.Ok? ==> r.value in fs
    ensures r.Ok? ==> var relative := Utf8.Decode(Base64.Decode(id).value).value;
                      r.value == JoinStr(notesDir, relative)
                      && !(NamesDirectory(relative) && fs[r.value].isFile)
    ensures r == Err(NotFound) <==>
            Base64.Decode(id).Some? && Utf8.Decode(Base64.Decode(id).value).Some?
            && var relative := Utf8.Decode(Base64.Decode(id).value).value;
               var path := JoinStr(notesDir, relative);
               path !in fs || (NamesDirectory(relative) && fs[path].isFile)
  {
    match Base64.Decode(id)
    case None => Err(InvalidBase64)
    case Some(bytes) =>
      match Utf8.Decode(bytes)
      case None => Err(InvalidUtf8)
      case Some(relative) =>
        var path := JoinStr(notesDir, relative);
        if path in fs && !(NamesDirectory(relative) && fs[path].isFile) then Ok(path) else Err(NotFound)
  }

  /** A note's id leads back to its path: decoding the id that `path_to_id`
      gives a path under the notes directory yields that path again, which
      `get_note_path` returns when it exists and reports missing otherwise.
      The one exception is the notes directory itself when it is a regular
      file: its id is the empty text, which joins with a trailing separator. */
  lemma IdRoundTrip(notesDir: Path, fs: map<Path, FileData>, path: Path)
    requires IsNormal(path) && StripPrefix(path, notesDir).Some?
    ensures PathToId(notesDir, path).Ok?
    ensures GetNotePath(notesDir, fs, PathToId(notesDir, path).value)
         == if path in fs && !(path == notesDir && fs[path].isFile) then Ok(path) else Err(NotFound)
  {
    var rel := StripPrefix(path, notesDir).value;
    assert IsNormal(rel) by {
      forall i | 0 <= i < |rel.segments|
        ensures ValidSegment(rel.segments[i])
      {
        assert rel.segments[i] == path.segments[|notesDir.segments| + i];
      }
    }
    var text := ToString(rel);
    Utf8.DecodeEncode(text);
    Base64.DecodeEncode(Utf8.Encode(text));
    JoinToString(notesDir, rel);
    if rel.segments != [] {
      ComponentTextNamesFile(rel);
      assert path != notesDir by {
        assert |path.segments| == |notesDir.segments| + |rel.segments|;
      }
    } else {
      assert path.segments == notesDir.segments + rel.segments;
      assert path == notesDir;
    }
  }

  /** Distinct paths under the notes directory have distinct ids. */
  lemma IdsDistinct(notesDir: Path, path: Path, other: Path)
    requires IsNormal(path) && StripPrefix(path, notesDir).Some?
    requires IsNormal(other) && StripPrefix(other, notesDir).Some?
    requires path != other
    ensures PathToId(notesDir, path) != PathToId(notesDir, other)
  {
    var data := FileData(false, None, None);
    var fs := map[path := data, other := data];
    IdRoundTrip(notesDir, fs, path);
    IdRoundTrip(notesDir, fs, other);
  }

  // ---------------------------------------------------------------------------
  // reading notes

  /** `read_note`. */
  function ReadNote(notesDir: Path, path: Path, data: FileData): Result<Note, NoteError> {
    match data.content
    case None => Err(ReadFailed)
    case Some(content) =>
      var fileType := GetNoteType(path);
      var title := NoteTitle(path, fileType, content);
      var tags := TagsOf(content);
      match data.metadata
      case None => Err(MetadataFailed)
      case Some(times) =>
        match PathToId(notesDir, path)
        case Err(e) => Err(e)
        case Ok(id) => Ok(Note(id, title, content, times.created, times.modified, tags, fileType))
  }

  /** `get_note_summary`, which repeats the steps of `read_note` and keeps no
      content. */
  function GetNoteSummary(notesDir: Path, path: Path, data: FileData): Result<NoteSummary, NoteError> {
    match data.content
    case None => Err(ReadFailed)
    case Some(content) =>
      var fileType := GetNoteType(path);
      var title := NoteTitle(path, fileType, content);
      var tags := TagsOf(content);
      match data.metadata
      case None => Err(MetadataFailed)
      case Some(times) =>
        match PathToId(notesDir, path)
        case Err(e) => Err(e)
        case Ok(id) => Ok(NoteSummary(id, title, times.created, times.modified, tags, fileType))
  }

  /** `get_note`. */
  function GetNote(notesDir: Path, fs: map<Path, FileData>, id: string): (r: Result<Note, NoteError>)
    ensures GetNotePath(notesDir, fs, id).Err? ==> r == Err(GetNotePath(notesDir, fs, id).error)
    ensures GetNotePath(notesDir, fs, id).Ok? ==>
      var path := GetNotePath(notesDir, fs, id).value; path in fs && r == ReadNote(notesDir, path, fs[path])
  {
    match GetNotePath(notesDir, fs, id)
    case Err(e) => Err(e)
    case Ok(path) => ReadNote(notesDir, path, fs[path])
  }

  // ---------------------------------------------------------------------------
  // listing

  /** The walk keeps regular files with extension `md` or `txt`. */
  predicate IsNoteFile(path: Path, data: FileData) {
    data.isFile && (Extension(path) == Some("md") || Extension(path) == Some("txt"))
  }

  /** The summaries the walk collects, in walk order: note files whose summary
      could be made; every other entry is skipped without an error. */
  function KeptSummaries(notesDir: Path, walk: seq<(Path, FileData)>): seq<NoteSummary> {
    Collect((entry: (Path, FileData)) => Kept(notesDir, entry), walk)
  }

  /** The summary a walk entry contributes, if any. */
  function Kept(notesDir: Path, entry: (Path, FileData)): (r: Option<NoteSummary>)
    ensures r.Some? <==> IsNoteFile(entry.0, entry.1) && GetNoteSummary(notesDir, entry.0, entry.1).Ok?
    ensures r.Some? ==> GetNoteSummary(notesDir, entry.0, entry.1) == Ok(r.value)
  {
    var (path, data) := entry;
    if IsNoteFile(path, data) && GetNoteSummary(notesDir, path, data).Ok? then
      Some(GetNoteSummary(notesDir, path, data).value)
    else None
  }

  /** The comparator of each sort option; `natural` is `natord::compare`. */
  function Comparator(option: SortOption, natural: (string, string) -> Ordering): (NoteSummary, NoteSummary) -> Ordering {
    match option
    case TitleAsc => (a: NoteSummary, b: NoteSummary) => natural(a.title, b.title)
    case TitleDesc => (a: NoteSummary, b: NoteSummary) => natural(b.title, a.title)
    case CreatedNewest => (a: NoteSummary, b: NoteSummary) => IntCmp(b.created, a.created)
    case CreatedOldest => (a: NoteSummary, b: NoteSummary) => IntCmp(a.created, b.created)
    case ModifiedNewest => (a: NoteSummary, b: NoteSummary) => IntCmp(b.modified, a.modified)
    case ModifiedOldest => (a: NoteSummary, b: NoteSummary) => IntCmp(a.modified, b.modified)
  }

  /** `sort.unwrap_or(SortOption::ModifiedNewest)`. */
  function EffectiveSort(sort: Option<SortOption>): SortOption {
    match sort
    case None => ModifiedNewest
    case Some(option) => option
  }

  /** What `list_notes` returns for a walk. */
  function Listing(notesDir: Path, walk: seq<(Path, FileData)>, sort: Option<SortOption>,
                   natural: (string, string) -> Ordering): seq<NoteSummary> {
    SortBy(KeptSummaries(notesDir, walk), Comparator(EffectiveSort(sort), natural))
  }

  lemma ComparatorPreorder(option: SortOption, natural: (string, string) -> Ordering)
    requires TotalPreorder(natural)
    ensures TotalPreorder(Comparator(option, natural))
  {
    var cmp := Comparator(option, natural);
    forall a: NoteSummary, b: NoteSummary
      ensures cmp(b, a) == cmp(a, b).Flip()
    {
      assert natural(b.title, a.title) == natural(a.title, b.title).Flip();
    }
    forall a: NoteSummary, b: NoteSummary, c: NoteSummary
      | cmp(a, b) != Greater && cmp(b, c) != Greater
      ensures cmp(a, c) != Greater
    {
      if option == TitleAsc {
        assert natural(a.title, b.title) != Greater && natural(b.title, c.title) != Greater;
      } else if option == TitleDesc {
        assert natural(c.title, b.title) != Greater && natural(b.title, a.title) != Greater;
      }
    }
  }

  /** `list_notes`: collect the summaries of the walk, then sort them in place
      by the chosen option. */
  method ListNotes(notesDir: Path, walk: seq<(Path, FileData)>, sort: Option<SortOption>,
                   natural: (string, string) -> Ordering) returns (notes: seq<NoteSummary>)
    requires TotalPreorder(natural)
    ensures notes == Listing(notesDir, walk, sort, natural)
    ensures multiset(notes) == multiset(KeptSummaries(notesDir, walk))
    ensures SortedBy(Comparator(EffectiveSort(sort), natural), notes)
  {
    notes := [];
    for i := 0 to |walk|
      invariant notes == KeptSummaries(notesDir, walk[..i])
    {
      var (path, data) := walk[i];
      if data.isFile && (Extension(path) == Some("md") || Extension(path) == Some("txt")) {
        var summary := GetNoteSummary(notesDir, path, data);
        if summary.Ok? {
          notes := notes + [summary.value];
        }
      }
      assert walk[..i + 1][..i] == walk[..i];
      assert walk[..i + 1][i] == (path, data);
    }
    assert walk[..|walk|] == walk;
    var cmp := Comparator(EffectiveSort(sort), natural);
    ComparatorPreorder(EffectiveSort(sort), natural);
    SortBySorted(notes, cmp);
    notes := SortBy(notes, cmp);
  }

  // ---------------------------------------------------------------------------
  // facts about reading and listing

  /** `get_note_summary` gives what `read_note` gives, less the content, and
      fails exactly when `read_note` does, in the same way. */
  lemma SummaryOfNote(notesDir: Path, path: Path, data: FileData)
    ensures GetNoteSummary(notesDir, path, data)
         == match ReadNote(notesDir, path, data)
            case Ok(note) => Ok(ToSummary(note))
            case Err(e) => Err(e)
  {
  }

  /** The checks of `read_note` come in the order of the source: the read,
      then the metadata, then the id; a note that is read has the file's text
      as content, its tags, its title and the id of its path. */
  lemma ReadNoteFacts(notesDir: Path, fs: map<Path, FileData>, path: Path)
    requires path in fs && IsNormal(path)
    ensures var r := ReadNote(notesDir, path, fs[path]);
      && (fs[path].content.None? ==> r == Err(ReadFailed))
      && (fs[path].content.Some? && fs[path].metadata.None? ==> r == Err(MetadataFailed))
      && (fs[path].content.Some? && fs[path].metadata.Some? ==>
            (r.Ok? <==> StripPrefix(path, notesDir).Some?))
      && (r.Ok? ==>
            && Some(r.value.content) == fs[path].content
            && r.value.tags == TagsOf(r.value.content)
            && (forall t <- r.value.tags :: WellFormedTag(t))
            && Distinct(r.value.tags)
            && r.value.title == NoteTitle(path, r.value.fileType, r.value.content)
            && (r.value.fileType == Markdown <==> Extension(path) == Some("md"))
            && Some(r.value.created) == (if fs[path].metadata.Some? then Some(fs[path].metadata.value.created) else None)
            && Some(r.value.modified) == (if fs[path].metadata.Some? then Some(fs[path].metadata.value.modified) else None)
            && GetNotePath(notesDir, fs, r.value.id)
               == if path == notesDir && fs[path].isFile then Err(NotFound) else Ok(path))
  {
    var r := ReadNote(notesDir, path, fs[path]);
    if r.Ok? {
      TagsCharacterised(r.value.content);
      IdRoundTrip(notesDir, fs, path);
    }
  }

  /** `get_note` on the id of an existing note under the notes directory reads
      that note, and the note it returns carries the id it was asked for;
      only a notes directory that is itself a regular file is not found. */
  lemma GetNoteById(notesDir: Path, fs: map<Path, FileData>, path: Path)
    requires path in fs && IsNormal(path) && StripPrefix(path, notesDir).Some?
    ensures var id := PathToId(notesDir, path).value;
      && GetNote(notesDir, fs, id)
         == (if path == notesDir && fs[path].isFile then Err(NotFound) else ReadNote(notesDir, path, fs[path]))
      && (GetNote(notesDir, fs, id).Ok? ==> GetNote(notesDir, fs, id).value.id == id)
  {
    IdRoundTrip(notesDir, fs, path);
  }

  /** The id of a text is decoded back to that text and joined. */
  lemma IdOfText(notesDir: Path, fs: map<Path, FileData>, text: string)
    ensures var path := JoinStr(notesDir, text);
      GetNotePath(notesDir, fs, Base64.Encode(Utf8.Encode(text)))
      == if path in fs && !(NamesDirectory(text) && fs[path].isFile) then Ok(path) else Err(NotFound)
  {
    Utf8.DecodeEncode(text);
    Base64.DecodeEncode(Utf8.Encode(text));
  }

  /** A regular file directly in the notes directory is found by the id of
      its name, and not by the id of its name followed by `/` or `/.`: those
      texts name a directory, and the file is none. */
  lemma FileNeedsNoSeparator(notesDir: Path, fs: map<Path, FileData>, name: string)
    requires ValidSegment(name)
    requires var p := Path(notesDir.absolute, notesDir.segments + [name]); p in fs && fs[p].isFile
    ensures var p := Path(notesDir.absolute, notesDir.segments + [name]);
      && GetNotePath(notesDir, fs, Base64.Encode(Utf8.Encode(name))) == Ok(p)
      && GetNotePath(notesDir, fs, Base64.Encode(Utf8.Encode(name + "/"))) == Err(NotFound)
      && GetNotePath(notesDir, fs, Base64.Encode(Utf8.Encode(name + "/."))) == Err(NotFound)
  {
    TrailingSeparators(name);
    IdOfText(notesDir, fs, name);
    IdOfText(notesDir, fs, name + "/");
    IdOfText(notesDir, fs, name + "/.");
  }

  /** Whatever the id, a note that `get_note` returns lies under the notes
      directory (as components; `..` is not resolved) and is what `read_note`
      gives for an existing path. */
  lemma GetNoteConfined(notesDir: Path, fs: map<Path, FileData>, id: string)
    requires GetNote(notesDir, fs, id).Ok?
    ensures GetNotePath(notesDir, fs, id).Ok?
    ensures var path := GetNotePath(notesDir, fs, id).value;
      && path in fs
      && StripPrefix(path, notesDir).Some?
      && GetNote(notesDir, fs, id) == ReadNote(notesDir, path, fs[path])
  {
  }

  /** A summary is listed exactly when some entry of the walk is a note file
      whose summary it is. */
  lemma KeptMembership(notesDir: Path, walk: seq<(Path, FileData)>, s: NoteSummary)
    ensures s in KeptSummaries(notesDir, walk) <==>
      exists k :: 0 <= k < |walk| && IsNoteFile(walk[k].0, walk[k].1)
                  && GetNoteSummary(notesDir, walk[k].0, walk[k].1) == Ok(s)
  {
    CollectMembership((entry: (Path, FileData)) => Kept(notesDir, entry), walk, s);
  }

  /** Each descending option is its ascending partner with the arguments
      swapped. */
  lemma OppositeOptions(natural: (string, string) -> Ordering, a: NoteSummary, b: NoteSummary)
    ensures Comparator(TitleDesc, natural)(a, b) == Comparator(TitleAsc, natural)(b, a)
    ensures Comparator(CreatedNewest, natural)(a, b) == Comparator(CreatedOldest, natural)(b, a)
    ensures Comparator(ModifiedNewest, natural)(a, b) == Comparator(ModifiedOldest, natural)(b, a)
  {
  }

  /** In a listing sorted oldest first the creation times never decrease. */
  lemma ListingOldestFirst(notesDir: Path, walk: seq<(Path, FileData)>, natural: (string, string) -> Ordering)
    requires TotalPreorder(natural)
    ensures var l := Listing(notesDir, walk, Some(CreatedOldest), natural);
      forall i, j :: 0 <= i < j < |l| ==> l[i].created <= l[j].created
  {
    var cmp := Comparator(CreatedOldest, natural);
    var l := SortBy(KeptSummaries(notesDir, walk), cmp);
    ComparatorPreorder(CreatedOldest, natural);
    SortBySorted(KeptSummaries(notesDir, walk), cmp);
    forall i, j | 0 <= i < j < |l| ensures l[i].created <= l[j].created {
      assert cmp(l[i], l[j]) != Greater;
    }
  }

  /** In the default listing the modification times never increase. */
  lemma ListingNewestFirst(notesDir: Path, walk: seq<(Path, FileData)>, natural: (string, string) -> Ordering)
    requires TotalPreorder(natural)
    ensures var l := Listing(notesDir, walk, None, natural);
      forall i, j :: 0 <= i < j < |l| ==> l[i].modified >= l[j].modified
  {
    var cmp := Comparator(ModifiedNewest, natural);
    var l := SortBy(KeptSummaries(notesDir, walk), cmp);
    ComparatorPreorder(ModifiedNewest, natural);
    SortBySorted(KeptSummaries(notesDir, walk), cmp);
    forall i, j | 0 <= i < j < |l| ensures l[i].modified >= l[j].modified {
      assert cmp(l[i], l[j]) != Greater;
    }
  }
}
