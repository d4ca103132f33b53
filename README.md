# Notter core in Dafny

A Dafny model of the core of Notter, a note manager written in Rust. Notes are
`.md` and `.txt` files under a notes directory. The model covers:

- **The note store** (`src-tauri/src/notes/mod.rs`).
  - A note's id is its path relative to the notes directory, written as
    UTF-8 and encoded in standard base 64 with padding (section 4 of RFC 4648).
  - The title is the first line of a Markdown note, without leading `#`s and
    trimmed, or the file stem of a plain-text note.
  - Tags are the `#` words of the content, cleaned and kept once each in
    order of first appearance.
  - `list_notes` keeps the note files of a directory walk and sorts their
    summaries by one of six options.
- **The Zettelkasten hierarchy** (`src-tauri/src/notes/subnotes.rs`).
  - A title's prefix is the text before its first `-`.
  - A note is a subnote of a parent when its prefix extends the parent's
    prefix; a parent ending in a digit must be followed by a letter.
  - The depth counts letters and digit runs of the extension.
  - Subnotes are ordered by comparing their prefixes as sequences of number
    and letter components.
- **The conversions of search** (`src-tauri/src/search/`).
  - A note becomes an index document with its type written as text.
  - A stored document is decoded into a search hit, with fallbacks for
    missing fields.
  - A hit becomes a search result, its type read back with
    `contains("Markdown")`.
  - Only five field names are searchable.

Files, one module each, in dependency order:

- `prelude.dfy`: `Option`, `Result`, `Ordering`, and `filter_map` as `Collect`.
- `text.dfy`: the `str` operations used: `lines`, `split_whitespace`, `trim`,
  `trim_start_matches`, `trim_end_matches`, `split(c).next()`, `join`,
  `contains`.
- `utf8.dfy`, `base64.dfy`: the two codecs, with round trips in both
  directions.
- `paths.dfy`: `Path` as normalised components, with `join`, `strip_prefix`,
  `file_stem` and `extension`.
- `sorting.dfy`: `sort_by` as a stable insertion sort, with its permutation,
  order and uniqueness lemmas.
- `notes.dfy`: the note store.
- `subnotes.dfy`: the hierarchy.
- `searchdocs.dfy`: the note-to-document converter.
- `searchquery.dfy`: `process_hit`, the options and the field names.
- `searchservice.dfy`: `SearchService`.

The loops of the source are methods proved against the functions that specify
them:

- `Notes.ExtractTags`
- `Notes.ListNotes`
- `Subnotes.IsSubnote`
- `Subnotes.ParseParts`
- `Subnotes.ZettelCompare`
- `Subnotes.GetSubnotes`

Inputs in place of I/O:

- The file system is a map from paths to what reading them gives (content,
  metadata, or the failure of either).
- The directory walk is a sequence of such entries.
- The current time is a parameter `now`.
- `natord::compare` is a parameter `natural`, required to be a total preorder.
- The query engine is a function from a request to the hits it returns.

Two behaviours of the code that a reader might not expect, and that the model
follows:

- `#foo-bar` yields the tag `foo-bar`, not `foo`. Only trailing
  non-alphanumerics are trimmed (`Notes.CleanTagExamples`).
- A subnote can have depth 0: a title whose prefix extends the parent's by
  punctuation only, such as `1a.` under `1a` (`Subnotes.DepthZeroExample`,
  `Subnotes.DepthZero`).

## Model

| member | source | states |
|---|---|---|
| Notes.GetNoteType | src-tauri/src/notes/mod.rs:149-155 | the type is Markdown exactly when the extension is `md`, plain text otherwise |
| Notes.MarkdownTitleOfFirstLine | src-tauri/src/notes/mod.rs:199-203 | a Markdown title is the first line (up to the first `\n`) with leading `#`s removed, then trimmed |
| Notes.TitleIgnoresCarriageReturn | src-tauri/src/notes/mod.rs:200-202 | a `\r` before the line break does not change the title |
| Notes.MarkdownTitleShape | src-tauri/src/notes/mod.rs:199-203 | empty content gives "Untitled Note"; otherwise the title has no line break and no surrounding whitespace |
| Notes.PlainTextTitle | src-tauri/src/notes/mod.rs:204-207 | a plain-text title is the file stem, or "Untitled Note" without one, whatever the content |
| Notes.NoteTitle | src-tauri/src/notes/mod.rs:199-208 | the title as `read_note` computes it; its properties are Notes.MarkdownTitleOfFirstLine, Notes.MarkdownTitleShape, Notes.TitleIgnoresCarriageReturn and Notes.PlainTextTitle |
| Notes.ExtractTags | src-tauri/src/notes/mod.rs:164-183 | the nested line and word loops compute exactly the tags of the content as the specification function defines them |
| Notes.TagsOfContent | src-tauri/src/notes/mod.rs:167-169 | taking words line by line gives the same tags as taking the words of the whole content |
| Notes.TagsSound | src-tauri/src/notes/mod.rs:170-176 | every tag is non-empty and comes from a word of the content |
| Notes.TagsComplete | src-tauri/src/notes/mod.rs:170-177 | every `#` word longer than one character whose cleaned form is non-empty contributes its cleaned form |
| Notes.TagsDistinct | src-tauri/src/notes/mod.rs:175-177 | no tag appears twice |
| Notes.TagsInOrder | src-tauri/src/notes/mod.rs:167-177 | tags appear in the order of the first word yielding each |
| Notes.TagsWellFormed | src-tauri/src/notes/mod.rs:172-175 | every tag is non-empty, does not start with `#`, ends in an alphanumeric character and has no whitespace |
| Notes.TagsCharacterised | src-tauri/src/notes/mod.rs:164-183 | the tags of any content are distinct, well formed, sound, complete and in first-appearance order |
| Notes.TagsOf | src-tauri/src/notes/mod.rs:164-183 | the tags of a content as a function; Notes.ExtractTags computes it and Notes.TagsCharacterised states what it holds |
| Notes.CleanTag | src-tauri/src/notes/mod.rs:172-174 | removes leading `#`s and then trailing non-alphanumerics; Notes.CleanTagOfWord and the example rows state its results |
| Notes.CleanTagOfWord | src-tauri/src/notes/mod.rs:172-174 | a word `#`, then a body not starting with `#` and ending alphanumerically, then non-alphanumerics, cleans to the body |
| Notes.CleanTagExamples | src-tauri/src/notes/mod.rs:172-174 | `#world!` gives `world`, and `#foo-bar` keeps its inner dash and gives `foo-bar` |
| Notes.CleanTagShortExamples | src-tauri/src/notes/mod.rs:170-175 | `#a` gives `a`, and `##` cleans to nothing, so it yields no tag |
| Notes.GetNotePath | src-tauri/src/notes/mod.rs:300-316 | fails with the decoding error exactly on malformed base 64 and with the UTF-8 error exactly on bytes that are not UTF-8; succeeds exactly with the joined path when it exists, where a text that names a directory (empty, a trailing `/` or a last `.` component) does not exist for a regular file |
| Notes.IdRoundTrip | src-tauri/src/notes/mod.rs:300-335 | for a normal path under the notes directory the id exists, and resolving it gives back the same path, or "not found" when the path does not exist or is the notes directory itself as a regular file |
| Notes.IdsDistinct | src-tauri/src/notes/mod.rs:325-335 | distinct note paths get distinct ids |
| Notes.IdOfText | src-tauri/src/notes/mod.rs:300-316 | the id of any text resolves to the text joined onto the notes directory when that exists and is not a file named as a directory, and is "not found" otherwise |
| Notes.FileNeedsNoSeparator | src-tauri/src/notes/mod.rs:309-313 | a regular file in the notes directory is found by the id of its name, and not by the ids of its name followed by `/` or `/.` |
| Notes.PathToId | src-tauri/src/notes/mod.rs:325-335 | succeeds exactly for a path under the notes directory, and its id always decodes as base 64 |
| Notes.GetNote | src-tauri/src/notes/mod.rs:137-140 | a failure to resolve the id is passed on; otherwise the note is what `read_note` gives for the resolved, existing path |
| Notes.ReadNote | src-tauri/src/notes/mod.rs:192-237 | the function `read_note`; its contract is stated in Notes.ReadNoteFacts and Notes.SummaryOfNote |
| Notes.GetNoteSummary | src-tauri/src/notes/mod.rs:246-291 | the function `get_note_summary`; Notes.SummaryOfNote proves it is `read_note` less the content |
| Notes.SummaryOfNote | src-tauri/src/notes/mod.rs:246-291 | `get_note_summary` fails exactly when `read_note` does, with the same error, and otherwise is the note without its content |
| Notes.ReadNoteFacts | src-tauri/src/notes/mod.rs:192-237 | `read_note` fails on an unreadable file, then on missing metadata, then outside the notes directory; a note read carries the file's content, its tags, title and type, the file's creation and modification times, and an id that resolves to its path |
| Notes.GetNoteById | src-tauri/src/notes/mod.rs:137-140 | `get_note` of a path's id reads that path, and the note read carries that id; only a notes directory that is a regular file is not found by its id |
| Notes.GetNoteConfined | src-tauri/src/notes/mod.rs:137-140 | a note that `get_note` returns is read from an existing path that lies lexically under the notes directory |
| Notes.Kept | src-tauri/src/notes/mod.rs:109-113 | an entry is kept exactly when it is a regular `md` or `txt` file whose summary succeeds, and it contributes that summary |
| Notes.KeptMembership | src-tauri/src/notes/mod.rs:101-114 | a summary is collected exactly when some entry of the walk is a note file with that summary; failing entries are skipped |
| Notes.ComparatorPreorder | src-tauri/src/notes/mod.rs:117-125 | each of the six comparators is a total preorder when the title comparison is |
| Notes.Comparator | src-tauri/src/notes/mod.rs:117-125 | the six comparators by title, creation and modification time; Notes.ComparatorPreorder and Notes.OppositeOptions state their properties |
| Notes.Listing | src-tauri/src/notes/mod.rs:98-128 | the listing as a function; Notes.ListNotes computes it and Notes.ListingOldestFirst and Notes.ListingNewestFirst state its order |
| Notes.OppositeOptions | src-tauri/src/notes/mod.rs:119-124 | each descending or newest-first option is its ascending or oldest-first partner with the arguments swapped |
| Notes.ListNotes | src-tauri/src/notes/mod.rs:98-128 | the listing is a permutation of the kept summaries, sorted by the chosen comparator, ModifiedNewest when none is given, and equals the specification function |
| Notes.ListingOldestFirst | src-tauri/src/notes/mod.rs:121 | sorted by CreatedOldest, creation times never decrease along the listing |
| Notes.ListingNewestFirst | src-tauri/src/notes/mod.rs:117-122 | with no option given, modification times never increase along the listing |
| Subnotes.ExtractPrefix | src-tauri/src/notes/subnotes.rs:53-55 | always gives a value: the longest dash-free prefix of the title, which is the whole title or is followed by `-` |
| Subnotes.ExtractPrefixTests | src-tauri/src/notes/subnotes.rs:196-200 | "1-title" gives "1", "1.1-title" gives "1.1", "title" gives "title" |
| Subnotes.IsSubnote | src-tauri/src/notes/subnotes.rs:67-108 | the peekable-iterator loop computes the depth of the specification, `None` for no parent, a prefix that does not strictly extend the parent's, or a digit-ending parent not followed by a letter |
| Subnotes.NotOwnSubnote | src-tauri/src/notes/subnotes.rs:76 | a note is never a subnote of itself |
| Subnotes.SubnoteBoundary | src-tauri/src/notes/subnotes.rs:81-85 | below a parent ending in a digit, a subnote's prefix continues with a letter, so its depth is at least 1 |
| Subnotes.DepthZero | src-tauri/src/notes/subnotes.rs:89-102 | the depth is zero exactly when the suffix has no letter or digit |
| Subnotes.DepthAdditive | src-tauri/src/notes/subnotes.rs:89-102 | depths add over a split that does not cut a digit run |
| Subnotes.DepthComposes | src-tauri/src/notes/subnotes.rs:67-108 | the depth of a note under a grandparent is the sum of the depths through the middle note |
| Subnotes.SubnoteCase | src-tauri/src/notes/subnotes.rs:67-104 | for a title whose first dash follows an extension of the parent's prefix, the depth is that of the extension, or none below a digit-ending parent when the extension does not start with a letter |
| Subnotes.NotSubnoteCase | src-tauri/src/notes/subnotes.rs:72-76 | a title whose prefix does not strictly extend the parent's is not below it |
| Subnotes.SubnoteTestDepthsBelowNumber | src-tauri/src/notes/subnotes.rs:205-222 | "1a" and "1b" are at depth 1 under "1", and "10a" at depth 1 under "10" |
| Subnotes.SubnoteTestDepthsTwoLevels | src-tauri/src/notes/subnotes.rs:207-208 | "1a1" and "1a2" are at depth 2 under "1" |
| Subnotes.SubnoteTestDepthsBelowLetter | src-tauri/src/notes/subnotes.rs:209-210 | "1a1" and "1a2" are at depth 1 under "1a" |
| Subnotes.SubnoteTestRejectsOthers | src-tauri/src/notes/subnotes.rs:211-212 | "2" and "1" itself are not below "1" |
| Subnotes.SubnoteTestRejectsBranches | src-tauri/src/notes/subnotes.rs:213-214 | "1a" is not below "2" and "2a" is not below "1" |
| Subnotes.SubnoteTestRejectsLongerNumbers | src-tauri/src/notes/subnotes.rs:216-219 | "10", "11" and "100" are not below "1" |
| Subnotes.DepthZeroExample | src-tauri/src/notes/subnotes.rs:89-104 | "1a." is below "1a" at depth 0 |
| Subnotes.SubnoteDepth | src-tauri/src/notes/subnotes.rs:67-108 | `is_subnote` as a function; Subnotes.IsSubnote computes it and the rows from Subnotes.NotOwnSubnote to Subnotes.DepthZeroExample state its properties |
| Subnotes.Depth | src-tauri/src/notes/subnotes.rs:89-102 | the depth of a suffix: one per letter and per digit run; Subnotes.DepthZero, Subnotes.DepthAdditive and Subnotes.DepthCountsComponents state its properties |
| Subnotes.ParseU32 | src-tauri/src/notes/subnotes.rs:170 | a parsed number never exceeds the `u32` maximum |
| Subnotes.ParseU32Value | src-tauri/src/notes/subnotes.rs:170 | parsing succeeds exactly on an optional `+` and a non-empty digit run of value at most `u32::MAX`, and gives the run's decimal value |
| Subnotes.DecimalValue | src-tauri/src/notes/subnotes.rs:170 | the decimal writing of a number has that number as its value |
| Subnotes.ParseDecimal | src-tauri/src/notes/subnotes.rs:170 | the decimal writing of a number, with or without a `+`, parses back to it exactly when it fits in 32 bits |
| Subnotes.RunOfDigits | src-tauri/src/notes/subnotes.rs:160-171 | a whole digit run contributes its number when it fits in a `u32` and nothing otherwise, followed by the parts of the rest |
| Subnotes.U32Boundary | src-tauri/src/notes/subnotes.rs:160-171 | "4294967295a" gives Number 4294967295 and Letter a, while "4294967296a" gives only Letter a |
| Subnotes.ShortRunFits | src-tauri/src/notes/subnotes.rs:166-171 | a run of at most nine digits always parses |
| Subnotes.ScanDigits | src-tauri/src/notes/subnotes.rs:161-167 | the inner loop collects the maximal run of digits starting at the current character |
| Subnotes.ParseParts | src-tauri/src/notes/subnotes.rs:156-179 | the push loop builds exactly the component sequence of the specification: a number per digit run that fits in `u32`, a lowercased letter per letter, nothing for other characters |
| Subnotes.DepthCountsComponents | src-tauri/src/notes/subnotes.rs:156-179 | a prefix has no more components than its depth counts, and as many when it has at most nine characters |
| Subnotes.PartsOfDigitThen | src-tauri/src/notes/subnotes.rs:160-171 | a single digit followed by a non-digit contributes its value |
| Subnotes.PartsOfTwoDigitsThen | src-tauri/src/notes/subnotes.rs:160-171 | two digits followed by a non-digit contribute one number, their decimal value |
| Subnotes.PartsOfLetterThen | src-tauri/src/notes/subnotes.rs:172-174 | a lower-case letter contributes itself |
| Subnotes.PartsExample | src-tauri/src/notes/subnotes.rs:155 | "1a2" gives Number 1, Letter a, Number 2, and "1a10" gives Number 1, Letter a, Number 10 |
| Subnotes.PartsOf | src-tauri/src/notes/subnotes.rs:156-179 | the components of a prefix; Subnotes.ParseParts computes it and the rows of the parts lemmas state its results |
| Subnotes.CompareComponent | src-tauri/src/notes/subnotes.rs:182-189 | two components compare equal exactly when they are the same component |
| Subnotes.CompareComponentFlip | src-tauri/src/notes/subnotes.rs:182-189 | swapping the components reverses the answer |
| Subnotes.CompareComponentTransitive | src-tauri/src/notes/subnotes.rs:182-189 | the component order is transitive, strictly so when either step is strict |
| Subnotes.ComparePartsPrefix | src-tauri/src/notes/subnotes.rs:138-139 | a proper prefix sorts first |
| Subnotes.ComparePartsFirstDifference | src-tauri/src/notes/subnotes.rs:127-137 | otherwise the first differing component decides |
| Subnotes.ComparePartsEqual | src-tauri/src/notes/subnotes.rs:119-145 | component sequences compare equal exactly when they are equal |
| Subnotes.ComparePartsFlip | src-tauri/src/notes/subnotes.rs:119-145 | swapping the sequences reverses the answer |
| Subnotes.ComparePartsTransitive | src-tauri/src/notes/subnotes.rs:119-145 | the order of component sequences is transitive |
| Subnotes.CompareParts | src-tauri/src/notes/subnotes.rs:119-145 | the lexicographic order of component sequences; the Subnotes.CompareParts* rows state its properties |
| Subnotes.ZettelOrder | src-tauri/src/notes/subnotes.rs:119-145 | `zettelkasten_compare` as a function; Subnotes.ZettelCompare computes it and Subnotes.ZettelOrderPreorder states it is a total preorder |
| Subnotes.ZettelCompare | src-tauri/src/notes/subnotes.rs:119-145 | the indexed loop with early returns computes the lexicographic order of the two prefixes' components |
| Subnotes.ZettelOrderPreorder | src-tauri/src/notes/subnotes.rs:119-145 | `zettelkasten_compare` is a total preorder, and it calls two prefixes equal exactly when their components are equal |
| Subnotes.ZettelTestOrder | src-tauri/src/notes/subnotes.rs:226-230 | "1a" < "1a1" < "1a2" < "1a10" < "1b" < "1c" |
| Subnotes.ZettelTestSorting | src-tauri/src/notes/subnotes.rs:226-230 | sorting "1b", "1a2", "1a", "1a1", "1c", "1a10" gives "1a", "1a1", "1a2", "1a10", "1b", "1c" |
| Subnotes.SubnoteOrderPreorder | src-tauri/src/notes/subnotes.rs:42-46 | the order on subnotes by their titles' prefixes is a total preorder |
| Subnotes.GetSubnotes | src-tauri/src/notes/subnotes.rs:23-49 | the method (parent lookup, listing, push loop, sort) computes the specification function |
| Subnotes.CollectedInfos | src-tauri/src/notes/subnotes.rs:31-40 | any arrangement of the collected entries holds exactly the listed notes below the parent, each with its depth |
| Subnotes.SubnotesFacts | src-tauri/src/notes/subnotes.rs:23-49 | fails exactly when the parent id does not resolve, with its error; otherwise is a permutation of the collected entries (each listed note below the parent's prefix once, with its depth), sorted by prefix order |
| Subnotes.Subnotes | src-tauri/src/notes/subnotes.rs:23-49 | `get_subnotes` as a function; Subnotes.GetSubnotes computes it and Subnotes.SubnotesFacts states its result |
| Sorting.SortBy | src-tauri/src/notes/mod.rs:117-125 | the sort is a permutation of its input |
| Sorting.SortBySorted | src-tauri/src/notes/mod.rs:117-125 | the sort's output is ordered by any total-preorder comparator |
| Sorting.SortedUnique | src-tauri/src/notes/subnotes.rs:42-46 | when the comparator calls only identical elements equal, a multiset has one ordered arrangement |
| Sorting.ConsSorted | src-tauri/src/notes/mod.rs:117-125 | an element no greater than any element of a sorted sequence can be put in front of it |
| Sorting.SortChain | src-tauri/src/notes/subnotes.rs:226-230 | sorting any permutation of a strictly increasing sequence gives that sequence |
| Base64.DecodeEncode | src-tauri/src/notes/mod.rs:302-304 | decoding an encoding gives back the bytes |
| Base64.EncodeDecode | src-tauri/src/notes/mod.rs:302-304 | a text that decodes is the encoding of what it decodes to, so the decoder accepts only canonical padded text |
| Base64.Encode | src-tauri/src/notes/mod.rs:331-332 | the encoding has four characters per started group of three bytes |
| Base64.Decode | src-tauri/src/notes/mod.rs:302-304 | the decoder; Base64.DecodeEncode, Base64.EncodeDecode and Base64.Rejected state what it accepts and gives |
| Base64.TestVectorFoobar | src-tauri/src/notes/mod.rs:331-332 | "foobar" encodes as "Zm9vYmFy" (section 10 of RFC 4648) |
| Base64.Rejected | src-tauri/src/notes/mod.rs:302-304 | missing padding, extra padding, non-zero unused bits, padding inside the text and characters outside the alphabet are rejected |
| Utf8.DecodeEncode | src-tauri/src/notes/mod.rs:306-307 | the UTF-8 encoding of a string decodes to it |
| Utf8.EncodeDecode | src-tauri/src/notes/mod.rs:306-307 | bytes that decode are the encoding of their decoding |
| Utf8.Encode | src-tauri/src/notes/mod.rs:331-332 | a string takes one to four bytes per character |
| Utf8.Decode | src-tauri/src/notes/mod.rs:306-307 | the decoder; Utf8.DecodeEncode and Utf8.EncodeDecode state that it inverts Utf8.Encode exactly |
| Paths.StripPrefix | src-tauri/src/notes/mod.rs:327-328 | succeeds exactly when the base's components begin the path's, giving the relative rest |
| Paths.JoinToString | src-tauri/src/notes/mod.rs:309 | joining the text of a relative path onto the notes directory appends its components |
| Paths.ParseJoined | src-tauri/src/notes/mod.rs:309 | parsing the `/`-joined components of a normal path gives them back |
| Paths.JoinStr | src-tauri/src/notes/mod.rs:309 | joining onto a normal path gives a normal path; Paths.JoinToString states which |
| Paths.ComponentTextNamesFile | src-tauri/src/notes/mod.rs:309-311 | the text of a relative path with a component ends in that component, so it does not name a directory |
| Paths.TrailingSeparators | src-tauri/src/notes/mod.rs:309-311 | a component alone, or followed by `/` or `/.`, has that one component; only the latter two name a directory |
| Paths.SplitExtension | src-tauri/src/notes/mod.rs:150 | a name with an extension is stem, dot and a dot-free extension, the stem non-empty |
| Paths.SplitAtLastDot | src-tauri/src/notes/mod.rs:109 | a non-empty stem, a dot and a dot-free extension split back into that stem and extension |
| Paths.NoExtension | src-tauri/src/notes/mod.rs:109 | a name without a dot, or whose only dot leads it, has no extension and is its own stem |
| Paths.ExtensionExamples | src-tauri/src/notes/mod.rs:109 | `a.md` has extension `md`, and `a.b.txt` has stem `a.b` |
| Paths.NoExtensionExamples | src-tauri/src/notes/mod.rs:109 | `.md`, `readme` and `..` have no extension |
| Paths.Extension | src-tauri/src/notes/mod.rs:150 | the extension of a file name; Paths.SplitExtension and the extension lemmas state it |
| Paths.FileStem | src-tauri/src/notes/mod.rs:204-207 | the stem of a file name; Paths.SplitExtension and Paths.SplitAtLastDot state it |
| Text.Words | src-tauri/src/notes/mod.rs:169 | `split_whitespace` yields non-empty words without whitespace |
| Text.WordsCover | src-tauri/src/notes/mod.rs:169 | the words, one after another, are exactly the non-whitespace characters of the text in order |
| Text.WordsNone | src-tauri/src/notes/mod.rs:169 | a text has no words exactly when it is all whitespace |
| Text.WordsMaximal | src-tauri/src/notes/mod.rs:169 | a run of non-whitespace ended by whitespace or the end of the text is one whole word |
| Text.WordsAround | src-tauri/src/notes/mod.rs:169 | a whitespace character splits the words of the text on either side apart |
| Text.WordsOfOne | src-tauri/src/notes/mod.rs:169 | a non-empty whitespace-free text is one word |
| Text.WordsOfLines | src-tauri/src/notes/mod.rs:167-169 | the words of the lines are the words of the whole text |
| Text.Lines | src-tauri/src/notes/mod.rs:200-201 | empty text has no lines, and no line holds a line break |
| Text.LinesCount | src-tauri/src/notes/mod.rs:200-201 | there is one line per `\n` and one more for text after the last `\n` |
| Text.LinesOfTerminated | src-tauri/src/notes/mod.rs:200-201 | the first line is the text before the first `\n`, without a final `\r`, and the rest are the lines after it |
| Text.LinesOfUnterminated | src-tauri/src/notes/mod.rs:200-201 | a non-empty text without `\n` is one line |
| Text.Trim | src-tauri/src/notes/mod.rs:202 | the trimmed text is a piece of the input with no whitespace at either end |
| Text.TrimRemovesWhitespace | src-tauri/src/notes/mod.rs:202 | the trimmed text is the piece of the input that starts after its leading whitespace, and only whitespace is removed on either side |
| Text.TrimEndNonAlnum | src-tauri/src/notes/mod.rs:173 | the result is a prefix ending in an alphanumeric character, and only non-alphanumerics were removed |
| Text.WordsOfJoin | src-tauri/src/search/query/tantivy_query.rs:109-113 | splitting on whitespace the single-space join of non-empty, whitespace-free words gives the words back |
| SearchDocuments.FileTypeName | src-tauri/src/search/document/mod.rs:28 | Markdown is written "Markdown" and plain text "PlainText" |
| SearchDocuments.FileTypeNameInjective | src-tauri/src/search/document/mod.rs:28 | different types are written differently |
| SearchDocuments.NoteToDocument | src-tauri/src/search/document/mod.rs:20-30 | the document copies the note's id, title, content, tags and times, and names the type "Markdown" exactly for Markdown |
| SearchDocuments.NoteToDocumentInjective | src-tauri/src/search/document/mod.rs:20-30 | different notes give different documents, so the conversion loses nothing |
| SearchDocuments.NotesToDocuments | src-tauri/src/search/document/mod.rs:39-43 | one document per note, in order, each the conversion of its note |
| SearchDocuments.DocumentIds | src-tauri/src/search/document/mod.rs:20-30 | documents have equal ids exactly when their notes do |
| SearchQuery.Truncated | src-tauri/src/search/index/tantivy_index.rs:139-140 | storing a time keeps its whole second: the stored time is at most one second earlier and a multiple of a second |
| SearchQuery.TruncatedIdempotent | src-tauri/src/search/query/tantivy_query.rs:115-125 | a time read back from the index survives a second trip unchanged |
| SearchQuery.ToStoredDocument | src-tauri/src/search/index/tantivy_index.rs:131-144 | a stored document has exactly the seven schema fields, the two times as dates and the rest as text |
| SearchQuery.TextField | src-tauri/src/search/query/tantivy_query.rs:91-95 | a field is read as text exactly when it is stored as text |
| SearchQuery.DateField | src-tauri/src/search/query/tantivy_query.rs:115-125 | a stored date is read back at its second; a missing one is the current time |
| SearchQuery.ProcessHit | src-tauri/src/search/query/tantivy_query.rs:84-143 | fails exactly when id or title is not stored text, with the id's message first; otherwise copies id, title, snippets and score |
| SearchQuery.ProcessHitFields | src-tauri/src/search/query/tantivy_query.rs:103-131 | missing tags give none, stored tags give their whitespace-separated words, a missing type gives "PlainText" |
| SearchQuery.StoredRoundTrip | src-tauri/src/search/index/tantivy_index.rs:131-144 | a stored document decodes to its own fields, times truncated to the second, whenever its tags are non-empty and whitespace-free |
| SearchQuery.SelectField | src-tauri/src/search/query/tantivy_query.rs:218-225 | only "title", "content", "tags", "id" and "file_type" are accepted; any other name is a parse error "Invalid field: " and the name |
| SearchQuery.SelectFieldByName | src-tauri/src/search/query/tantivy_query.rs:218-225 | each field is selected by its own name and no other |
| SearchQuery.EngineSearchByField | src-tauri/src/search/query/tantivy_query.rs:212-235 | an unknown field fails before the index is searched; a known one is searched with the caller's limit |
| SearchService.ParseFileType | src-tauri/src/search/service.rs:110-114 | a type text means Markdown exactly when it contains "Markdown" |
| SearchService.FileTypeRoundTrip | src-tauri/src/search/service.rs:110-114 | the type written into a document reads back as the same type |
| SearchService.HitToResult | src-tauri/src/search/service.rs:103-118 | a result copies the hit's id, title, tags, times, snippets and score, with type Markdown exactly when the hit's type text contains "Markdown" |
| SearchService.HitsToResults | src-tauri/src/search/service.rs:102-119 | one result per hit, in hit order, each copying the hit |
| SearchService.OptionsWithLimit | src-tauri/src/search/service.rs:94-97 | the options carry the caller's limit and are the defaults otherwise |
| SearchService.Search | src-tauri/src/search/service.rs:93-122 | an engine error is passed on; otherwise one result per hit, in order |
| SearchService.SearchByField | src-tauri/src/search/service.rs:133-162 | an engine error is passed on; otherwise one result per hit, in order |
| SearchService.SearchByUnknownField | src-tauri/src/search/service.rs:133-139 | through this repository's engine an unknown field name fails with the parse error whatever the index holds |
| SearchService.IndexNote | src-tauri/src/search/service.rs:69-72 | indexing a note asks the index to add exactly the note's converted document |
| SearchService.Rebuild | src-tauri/src/search/service.rs:171-178 | a rebuild hands over one document per note, in the notes' order, each the conversion of its note |
| SearchService.IndexNoteInjective | src-tauri/src/search/service.rs:69-72 | different notes are indexed as different documents |
| SearchService.RebuiltNoteFound | src-tauri/src/search/service.rs:171-178 | after a rebuild each note's document is the one `index_note` adds, and it is found again as its own summary with times truncated to the second |
| SearchService.IndexedNoteFound | src-tauri/src/search/service.rs:102-119 | a note indexed and found again is its own summary with times truncated to the second, whenever its tags are non-empty and whitespace-free |
| SearchService.ReadNoteFound | src-tauri/src/search/service.rs:102-119 | every note read from a file meets that condition, so it comes back from the index with its id, tags and type |

## Left out

- File-system access (`WalkDir`, `read_to_string`, `metadata`) is an input: a map from paths to `FileData` and the walk's sequence of entries. Symbolic links and walk errors are not modelled.
- The `Utc::now()` fallbacks are inputs. In the note store the fallback is already folded into the `Timestamps`; in `process_hit` it is the parameter `now`.
- `natord::compare` is a parameter `natural`, required to be a total preorder. Its rules (digit runs, leading zeros) are not modelled.
- `is_numeric`, `is_alphabetic` and `is_alphanumeric` are modelled by their ASCII part. Byte lengths versus character counts (`word.len()`, the slice at `subnotes.rs:77`) coincide for ASCII text and are not modelled otherwise. `char::is_whitespace` is modelled exactly.
- Paths are their components: `.` components and empty pieces are dropped, and `..` components are kept unresolved, as lexical `Path::join` and `strip_prefix` do; reading follows them. So an id whose decoded path starts with `..` can name a file outside the notes directory. Non-UTF-8 file names and `to_string_lossy` are not modelled: paths are strings.
- Notes.GetNote: ids are computed from a path's normalised components (`Notes.PathToId` encodes their canonical `/`-joined text). So for an id whose text holds `//` or an inner `/./`, such as the id of `sub//a.md`, the note comes back with the canonical id (that of `sub/a.md`). The source keeps the text as given through `join` and `strip_prefix` and returns the id it was asked for.
- Notes.ListNotes: the order among summaries that the comparator calls equal is the stable order of insertion, but stability is not stated as a property.
- Subnotes.SubnotesFacts: subnotes whose prefixes compare equal keep the order of the listing, as the stable sort keeps them, but that order is not stated as a property.
- The file-system map is taken to be consistent: a path whose middle component is a regular file is not in it. Only the last component of a path can be a file named as a directory, and `Notes.GetNotePath` handles that case.
- Subnotes.IsSubnote: the depth is unbounded; the `u32` counter of the source could wrap only beyond four billion components.
- Scores and boosts are `f32` in the source and `real` here. They are passed through and never computed.
- The Tantivy library is not modelled: schema creation, writers and commits, query parsing, ranking, snippet HTML, the rebuild's directory copies, and the upsert done by `delete_term` on the tokenized `id` field. The index operations of `SearchService` are modelled as the requests they send (`IndexRequest`).
- The loops over library hits in `TantivyQueryEngine::search` and `search_by_field` (`tantivy_query.rs:188-207, 240-248`) are not modelled; `process_hit` is modelled for one stored document.
- `chrono::DateTime::from_timestamp(..).unwrap()` panics for times out of chrono's range; the model has no range.
- `document_count`, `optimize`, `remove_note` and `SearchService::new` only delegate to the library and are not modelled.
- The `info!` log lines of `rebuild_index` (`service.rs:172, 180`) are output only and not modelled.
- The errors that the index returns from `add_document` and `rebuild_index` are library behaviour; the model states the request and not its outcome.
- The UI (`egui_main.rs`), the Tauri command layer (`lib.rs`) and the configuration file (`config/mod.rs`) are not part of this model. The note operations they call that are not defined in `notes/mod.rs` are not part of this model either: creating, renaming, updating and deleting notes, backlinks, and index scheduling.
