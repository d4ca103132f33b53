/** The query side of search (`src-tauri/src/search/query/`): the options a
    query runs with, the hit a query yields, how `process_hit` decodes a stored
    index document into a hit, and the field names `search_by_field` accepts.

    A stored document is modelled by its first value per field name, as
    `get_first` sees it: text, or a date held as whole seconds. Query parsing,
    ranking and snippet generation belong to the search library and are not
    part of this model; scores and snippets are values passed through. */
module SearchQuery {
  import opened Prelude
  import opened Text
  import opened Notes
  import opened SearchDocuments

  /** `SearchError`: every variant carries its message. */
  datatype SearchError =
    | IndexCreationError(msg: string)
    | IndexOpenError(msg: string)
    | DocumentAddError(msg: string)
    | DocumentRemoveError(msg: string)
    | QueryParseError(msg: string)
    | SearchExecutionError(msg: string)
    | SnippetGenerationError(msg: string)
    | IoError(msg: string)
    | TantivyError(msg: string)

  /** An `f32` relevance score; it is only ever passed along. */
  type Score = real

  /** `SearchOptions`. The boosts are `f32` in the source. */
  datatype SearchOptions = SearchOptions(
    limit: nat,
    titleBoost: real,
    tagsBoost: real,
    snippetLength: nat,
    highlightTag: string)

  /** `SearchOptions::default()`. */
  const DefaultOptions: SearchOptions := SearchOptions(100, 2.0, 1.5, 150, "em")

  /** `SearchHit`. */
  datatype SearchHit = SearchHit(
    id: string,
    title: string,
    snippets: seq<string>,
    tags: seq<string>,
    created: Instant,
    modified: Instant,
    fileType: string,
    score: Score)

  /** A stored field value: text, or a date as seconds since the epoch. */
  datatype FieldValue = TextValue(text: string) | DateValue(secs: int)

  /** The first stored value of each field of a retrieved document. */
  type StoredDocument = map<string, FieldValue>

  const NanosPerSecond: int := 1_000_000_000

  /** `DateTime::timestamp`: whole seconds, rounded down. */
  function Seconds(t: Instant): int {
    t / NanosPerSecond
  }

  /** `DateTime::from_timestamp(secs, 0)`. */
  function FromSeconds(secs: int): Instant {
    secs * NanosPerSecond
  }

  /** The instant rounded down to its second: what survives a trip through
      the index. */
  function Truncated(t: Instant): (r: Instant)
    ensures r <= t < r + NanosPerSecond
    ensures r % NanosPerSecond == 0
  {
    FromSeconds(Seconds(t))
  }

  /** Truncating twice is truncating once, and a whole second is kept. */
  lemma TruncatedIdempotent(t: Instant)
    ensures Truncated(Truncated(t)) == Truncated(t)
    ensures t % NanosPerSecond == 0 ==> Truncated(t) == t
  {
  }

  /** `convert_to_tantivy_doc` as it is stored: tags joined with single
      spaces, dates as whole seconds, the type name as given. */
  function ToStoredDocument(d: IndexableDocument): (r: StoredDocument)
    ensures r.Keys == {"id", "title", "content", "tags", "created", "modified", "file_type"}
    ensures forall name <- r.Keys :: r[name].DateValue? <==> name == "created" || name == "modified"
  {
    map[
      "id" := TextValue(d.id),
      "title" := TextValue(d.title),
      "content" := TextValue(d.content),
      "tags" := TextValue(Join(d.tags, " ")),
      "created" := DateValue(Seconds(d.created)),
      "modified" := DateValue(Seconds(d.modified)),
      "file_type" := TextValue(d.fileType)]
  }

  /** `get_first(field).and_then(as_text)`. */
  function TextField(doc: StoredDocument, name: string): (r: Option<string>)
    ensures r.Some? <==> name in doc && doc[name].TextValue?
    ensures r.Some? ==> r.value == doc[name].text
  {
    if name in doc && doc[name].TextValue? then Some(doc[name].text) else None
  }

  /** `get_first(field).and_then(as_date)`, with the current time `now` as
      the fallback of `unwrap_or_else(Utc::now)`. */
  function DateField(doc: StoredDocument, name: string, now: Instant): (r: Instant)
    ensures name in doc && doc[name].DateValue? ==> r == FromSeconds(doc[name].secs)
    ensures !(name in doc && doc[name].DateValue?) ==> r == now
  {
    if name in doc && doc[name].DateValue? then FromSeconds(doc[name].secs) else now
  }

  /** `process_hit`: id and title must be stored text, in that order; the
      tags are the whitespace-separated words of the stored tag text (none
      when it is missing or empty); a missing type reads as "PlainText". */
  function ProcessHit(doc: StoredDocument, score: Score, snippets: seq<string>, now: Instant)
    : (r: Result<SearchHit, SearchError>)
    ensures r.Err? <==> TextField(doc, "id").None? || TextField(doc, "title").None?
    ensures TextField(doc, "id").None? ==>
      r == Err(SearchExecutionError("Failed to get id from search result"))
    ensures TextField(doc, "id").Some? && TextField(doc, "title").None? ==>
      r == Err(SearchExecutionError("Failed to get title from search result"))
    ensures r.Ok? ==>
      && r.value.id == TextField(doc, "id").value
      && r.value.title == TextField(doc, "title").value
      && r.value.snippets == snippets
      && r.value.score == score
  {
    match TextField(doc, "id")
    case None => Err(SearchExecutionError("Failed to get id from search result"))
    case Some(id) =>
      match TextField(doc, "title")
      case None => Err(SearchExecutionError("Failed to get title from search result"))
      case Some(title) =>
        var tagsText := match TextField(doc, "tags") case Some(t) => t case None => "";
        var tags := if tagsText == [] then [] else Words(tagsText);
        var fileType := match TextField(doc, "file_type") case Some(t) => t case None => "PlainText";
        Ok(SearchHit(id, title, snippets, tags,
                     DateField(doc, "created", now), DateField(doc, "modified", now),
                     fileType, score))
  }

  /** The optional fields of a decoded hit and their fallbacks. */
  lemma ProcessHitFields(doc: StoredDocument, score: Score, snippets: seq<string>, now: Instant)
    requires ProcessHit(doc, score, snippets, now).Ok?
    ensures var hit := ProcessHit(doc, score, snippets, now).value;
      && (TextField(doc, "tags").None? ==> hit.tags == [])
      && (TextField(doc, "tags").Some? ==> hit.tags == Words(TextField(doc, "tags").value))
      && (forall t <- hit.tags :: t != [] && NoWhitespace(t))
      && hit.fileType == (if TextField(doc, "file_type").Some? then TextField(doc, "file_type").value else "PlainText")
      && hit.created == DateField(doc, "created", now)
      && hit.modified == DateField(doc, "modified", now)
  {
  }

  /** Indexing a document and decoding it as a hit gives the document back,
      with its times rounded down to the second, provided its tags are
      non-empty and free of whitespace, so that splitting undoes the join. */
  lemma StoredRoundTrip(d: IndexableDocument, score: Score, snippets: seq<string>, now: Instant)
    requires forall t <- d.tags :: t != [] && NoWhitespace(t)
    ensures ProcessHit(ToStoredDocument(d), score, snippets, now)
         == Ok(SearchHit(d.id, d.title, snippets, d.tags, Truncated(d.created), Truncated(d.modified),
                         d.fileType, score))
  {
    var doc := ToStoredDocument(d);
    assert TextField(doc, "id") == Some(d.id);
    assert TextField(doc, "title") == Some(d.title);
    assert TextField(doc, "tags") == Some(Join(d.tags, " "));
    assert TextField(doc, "file_type") == Some(d.fileType);
    assert forall i :: 0 <= i < |d.tags| ==> d.tags[i] != [] && NoWhitespace(d.tags[i]) by {
      forall i | 0 <= i < |d.tags| ensures d.tags[i] != [] && NoWhitespace(d.tags[i]) {
        assert d.tags[i] in d.tags;
      }
    }
    WordsOfJoin(d.tags);
    if d.tags != [] {
      JoinNonEmpty(d.tags);
    }
  }

  lemma JoinNonEmpty(parts: seq<string>)
    requires parts != [] && parts[0] != []
    ensures Join(parts, " ") != []
  {
  }

  /** The schema fields `search_by_field` can search. */
  datatype Field = Title | Content | Tags | Id | FileType

  /** The field-name match of `search_by_field`: five names, anything else is
      a query-parse error naming the field. */
  function SelectField(name: string): (r: Result<Field, SearchError>)
    ensures r.Ok? <==> name in {"title", "content", "tags", "id", "file_type"}
    ensures r.Err? ==> r.error == QueryParseError("Invalid field: " + name)
  {
    if name == "title" then Ok(Title)
    else if name == "content" then Ok(Content)
    else if name == "tags" then Ok(Tags)
    else if name == "id" then Ok(Id)
    else if name == "file_type" then Ok(FileType)
    else Err(QueryParseError("Invalid field: " + name))
  }

  /** The stored name of a field. */
  function FieldName(f: Field): string {
    match f
    case Title => "title"
    case Content => "content"
    case Tags => "tags"
    case Id => "id"
    case FileType => "file_type"
  }

  /** Each field is selected by its own name, and only by it. */
  lemma SelectFieldByName(name: string, f: Field)
    ensures SelectField(name) == Ok(f) <==> name == FieldName(f)
  {
  }

  /** `TantivyQueryEngine::search_by_field` up to the term search: the field
      name is checked before `run` (the term query over the index, a library
      call) is consulted, with the caller's limit. */
  function EngineSearchByField(name: string, value: string, options: SearchOptions,
                               run: (Field, string, nat) -> Result<seq<SearchHit>, SearchError>)
    : (r: Result<seq<SearchHit>, SearchError>)
    ensures SelectField(name).Err? ==> r == Err(QueryParseError("Invalid field: " + name))
    ensures SelectField(name).Ok? ==> r == run(SelectField(name).value, value, options.limit)
  {
    match SelectField(name)
    case Err(e) => Err(e)
    case Ok(f) => run(f, value, options.limit)
  }
}
