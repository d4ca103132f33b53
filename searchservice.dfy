/** `SearchService` of `src-tauri/src/search/service.rs`: it turns notes into
    index documents on the way in and search hits into note summaries on the
    way out, and otherwise passes requests to the index and the query engine.

    The index and the engine are library code; here the engine is a function
    from a request to the hits it returns, and each index operation is the
    request the service sends. */
module SearchService {
  import opened Prelude
  import opened Text
  import opened Notes
  import opened SearchDocuments
  import opened SearchQuery

  /** `SearchResult`. */
  datatype SearchResult = SearchResult(note: NoteSummary, snippets: seq<string>, score: Score)

  /** `if file_type.contains("Markdown") { Markdown } else { PlainText }`. */
  function ParseFileType(s: string): (t: NoteType)
    ensures t == Markdown <==> Contains(s, "Markdown")
  {
    if Contains(s, "Markdown") then Markdown else PlainText
  }

  /** The type name written into a document reads back as the same type. */
  lemma FileTypeRoundTrip(t: NoteType)
    ensures ParseFileType(FileTypeName(t)) == t
  {
    assert "Markdown" <= "Markdown";
    if t == PlainText {
      NotContains("PlainText", "Markdown");
    }
  }

  /** A text shorter than the pattern, or without its first character, does
      not contain it. */
  lemma {:induction false} NotContains(s: string, pattern: string)
    requires |s| < |pattern| || (pattern != [] && pattern[0] !in s)
    ensures !Contains(s, pattern)
    decreases |s|
  {
    if s != [] {
      if pattern != [] && pattern[0] !in s {
        assert pattern[0] !in s[1..];
      }
      NotContains(s[1..], pattern);
    }
  }

  /** The mapping of `search` and `search_by_field` from a hit to a result. */
  function HitToResult(hit: SearchHit): (r: SearchResult)
    ensures r.note.id == hit.id && r.note.title == hit.title && r.note.tags == hit.tags
    ensures r.note.created == hit.created && r.note.modified == hit.modified
    ensures r.note.fileType == Markdown <==> Contains(hit.fileType, "Markdown")
    ensures r.snippets == hit.snippets && r.score == hit.score
  {
    SearchResult(
      NoteSummary(hit.id, hit.title, hit.created, hit.modified, hit.tags, ParseFileType(hit.fileType)),
      hit.snippets, hit.score)
  }

  /** One result per hit, in hit order. */
  function HitsToResults(hits: seq<SearchHit>): (rs: seq<SearchResult>)
    ensures |rs| == |hits|
    ensures forall i :: 0 <= i < |hits| ==> rs[i] == HitToResult(hits[i])
  {
    if hits == [] then [] else [HitToResult(hits[0])] + HitsToResults(hits[1..])
  }

  /** `SearchOptions { limit, ..Default::default() }`. */
  function OptionsWithLimit(limit: nat): (o: SearchOptions)
    ensures o.limit == limit
    ensures o.(limit := DefaultOptions.limit) == DefaultOptions
  {
    DefaultOptions.(limit := limit)
  }

  /** `search`: the engine runs the query with the caller's limit and default
      options otherwise; its error is passed on, and its hits become results
      one for one. */
  function Search(engine: (string, SearchOptions) -> Result<seq<SearchHit>, SearchError>,
                  query: string, limit: nat): (r: Result<seq<SearchResult>, SearchError>)
    ensures var hits := engine(query, OptionsWithLimit(limit));
      && (hits.Err? ==> r == Err(hits.error))
      && (hits.Ok? ==>
            && r.Ok?
            && |r.value| == |hits.value|
            && forall i :: 0 <= i < |hits.value| ==> r.value[i] == HitToResult(hits.value[i]))
  {
    match engine(query, OptionsWithLimit(limit))
    case Err(e) => Err(e)
    case Ok(hits) => Ok(HitsToResults(hits))
  }

  /** `search_by_field`, the same with a field and a value. */
  function SearchByField(engine: (string, string, SearchOptions) -> Result<seq<SearchHit>, SearchError>,
                         field: string, value: string, limit: nat)
    : (r: Result<seq<SearchResult>, SearchError>)
    ensures var hits := engine(field, value, OptionsWithLimit(limit));
      && (hits.Err? ==> r == Err(hits.error))
      && (hits.Ok? ==>
            && r.Ok?
            && |r.value| == |hits.value|
            && forall i :: 0 <= i < |hits.value| ==> r.value[i] == HitToResult(hits.value[i]))
  {
    match engine(field, value, OptionsWithLimit(limit))
    case Err(e) => Err(e)
    case Ok(hits) => Ok(HitsToResults(hits))
  }

  /** Through the query engine of this repository, a field name it does not
      know fails with a parse error before any search runs. */
  lemma SearchByUnknownField(run: (Field, string, nat) -> Result<seq<SearchHit>, SearchError>,
                             field: string, value: string, limit: nat)
    requires field !in {"title", "content", "tags", "id", "file_type"}
    ensures SearchByField((f, v, o) => EngineSearchByField(f, v, o, run), field, value, limit)
         == Err(QueryParseError("Invalid field: " + field))
  {
  }

  /** What the service asks of the index. */
  datatype IndexRequest =
    | AddDocument(doc: IndexableDocument)
    | RebuildIndex(docs: seq<IndexableDocument>)

  /** `index_note`: the index is asked to add the note's document. */
  function IndexNote(note: Note): (req: IndexRequest)
    ensures req == AddDocument(NoteToDocument(note))
  {
    AddDocument(NoteToDocument(note))
  }

  /** `rebuild_index`: every note, converted, in the notes' order. */
  function Rebuild(notes: seq<Note>): (req: IndexRequest)
    ensures req.RebuildIndex? && |req.docs| == |notes|
    ensures forall i :: 0 <= i < |notes| ==> req.docs[i] == NoteToDocument(notes[i])
  {
    RebuildIndex(NotesToDocuments(notes))
  }

  /** Indexing different notes asks for different documents. */
  lemma IndexNoteInjective(a: Note, b: Note)
    ensures IndexNote(a) == IndexNote(b) <==> a == b
  {
    NoteToDocumentInjective(a, b);
  }

  /** After a rebuild, each note is found as it is after `index_note`: its
      document in the rebuilt index is the one `index_note` adds. */
  lemma RebuiltNoteFound(notes: seq<Note>, i: nat, score: Score, snippets: seq<string>, now: Instant)
    requires i < |notes|
    requires forall t <- notes[i].tags :: t != [] && NoWhitespace(t)
    ensures Rebuild(notes).docs[i] == IndexNote(notes[i]).doc
    ensures var hit := ProcessHit(ToStoredDocument(Rebuild(notes).docs[i]), score, snippets, now);
      && hit.Ok?
      && HitToResult(hit.value)
         == SearchResult(ToSummary(notes[i]).(created := Truncated(notes[i].created),
                                               modified := Truncated(notes[i].modified)),
                         snippets, score)
  {
    IndexedNoteFound(notes[i], score, snippets, now);
  }

  /** A note indexed by `index_note` and later returned by a search comes
      back as its own summary, except that its times are rounded down to the
      second, whenever its tags are non-empty and free of whitespace. */
  lemma IndexedNoteFound(note: Note, score: Score, snippets: seq<string>, now: Instant)
    requires forall t <- note.tags :: t != [] && NoWhitespace(t)
    ensures var hit := ProcessHit(ToStoredDocument(IndexNote(note).doc), score, snippets, now);
      && hit.Ok?
      && HitToResult(hit.value)
         == SearchResult(ToSummary(note).(created := Truncated(note.created), modified := Truncated(note.modified)),
                         snippets, score)
  {
    StoredRoundTrip(NoteToDocument(note), score, snippets, now);
    FileTypeRoundTrip(note.fileType);
  }

  /** The tags the note store extracts always meet that condition, so a note
      read from a file survives indexing with all its tags. */
  lemma ReadNoteFound(notesDir: Paths.Path, path: Paths.Path, data: FileData,
                      score: Score, snippets: seq<string>, now: Instant)
    requires ReadNote(notesDir, path, data).Ok?
    ensures var note := ReadNote(notesDir, path, data).value;
      var hit := ProcessHit(ToStoredDocument(IndexNote(note).doc), score, snippets, now);
      && hit.Ok?
      && HitToResult(hit.value).note.tags == note.tags
      && HitToResult(hit.value).note.id == note.id
      && HitToResult(hit.value).note.fileType == note.fileType
  {
    var note := ReadNote(notesDir, path, data).value;
    ReadNoteTags(notesDir, path, data);
    IndexedNoteFound(note, score, snippets, now);
  }

  lemma ReadNoteTags(notesDir: Paths.Path, path: Paths.Path, data: FileData)
    requires ReadNote(notesDir, path, data).Ok?
    ensures forall t <- ReadNote(notesDir, path, data).value.tags :: t != [] && NoWhitespace(t)
  {
    TagsWellFormed(data.content.value);
  }
}
