/** `DocumentConverter` of `src-tauri/src/search/document/mod.rs`: the record
    a note becomes when it is handed to the search index. The conversion is
    total; it copies the note's fields and writes the note type by the name
    `{:?}` formatting gives its variant. */
module SearchDocuments {
  import opened Notes

  /** `IndexableDocument`: a note with its type written as text. */
  datatype IndexableDocument = IndexableDocument(
    id: string,
    title: string,
    content: string,
    tags: seq<string>,
    created: Instant,
    modified: Instant,
    fileType: string)

  /** `format!("{:?}", note_type)`: the name of the variant. */
  function FileTypeName(t: NoteType): (s: string)
    ensures t == Markdown ==> s == "Markdown"
    ensures t == PlainText ==> s == "PlainText"
  {
    match t
    case Markdown => "Markdown"
    case PlainText => "PlainText"
  }

  /** Different note types get different names. */
  lemma FileTypeNameInjective(t: NoteType, u: NoteType)
    ensures FileTypeName(t) == FileTypeName(u) <==> t == u
  {
    if t != u {
      assert FileTypeName(t)[0] != FileTypeName(u)[0];
    }
  }

  /** `note_to_document`: the note's fields copied over, its type written by
      name. */
  function NoteToDocument(note: Note): (d: IndexableDocument)
    ensures d.id == note.id && d.title == note.title && d.content == note.content
    ensures d.tags == note.tags && d.created == note.created && d.modified == note.modified
    ensures d.fileType == "Markdown" <==> note.fileType == Markdown
  {
    IndexableDocument(note.id, note.title, note.content, note.tags, note.created, note.modified,
                      FileTypeName(note.fileType))
  }

  /** The conversion loses nothing: different notes give different
      documents. */
  lemma NoteToDocumentInjective(a: Note, b: Note)
    ensures NoteToDocument(a) == NoteToDocument(b) <==> a == b
  {
    FileTypeNameInjective(a.fileType, b.fileType);
  }

  /** `notes_to_documents`: one document per note, in order. */
  function NotesToDocuments(notes: seq<Note>): (docs: seq<IndexableDocument>)
    ensures |docs| == |notes|
    ensures forall i :: 0 <= i < |notes| ==> docs[i] == NoteToDocument(notes[i])
  {
    if notes == [] then []
    else [NoteToDocument(notes[0])] + NotesToDocuments(notes[1..])
  }

  /** The documents carry the notes' ids in the notes' order, so notes with
      distinct ids give documents with distinct ids. */
  lemma DocumentIds(notes: seq<Note>)
    ensures var docs := NotesToDocuments(notes);
      forall i, j :: 0 <= i < |notes| && 0 <= j < |notes| ==>
        (docs[i].id == docs[j].id <==> notes[i].id == notes[j].id)
  {
  }
}
