# commonplace note store, modelled in Dafny

This project models the note persistence and indexing engine of the
commonplace prototypes. Markdown files are the record of each note, and a
relational index (notes, tags, links and full-text tables) is kept in step
with them. The model covers:

- **the single-note codec and flat store** (`explore/parser-first.py`):
  - `MarkdownParser.serialize` and `MarkdownParser.parse`, which frame a YAML
    front matter block between `---` lines;
  - the index `NoteDatabase`;
  - `NoteManager`, which keeps each note at `<root>/<module>/<id>.md`.
- **the grouped codec and grouped store** (`explore/storage-first.py`):
  - `GroupedFileParser`, which holds many notes per file between
    `<!-- NOTE_START: id -->` and `<!-- NOTE_END: id -->` markers;
  - its own `NoteDatabase`;
  - `GroupedNoteManager`, which keeps the notes of one module and month in
    `<root>/<module>/<YYYY-MM>.md`.
- **the package skeleton**: `BasicNote` and `NoteCollection`
  (`commonplace/core/core.py`), and the id generator `_generate_id`
  (`commonplace/utils/basic_utils.py`).

The model is built from the following pieces:

- **The file system** is a `map<string, string>` from path to text.
- **The YAML library** is a parameter `YamlCodec(dump, load)`. The round
  trips assume `Lawful(codec)`: what `dump` emits is a well-shaped block
  mapping, and `load` gives that mapping back.
- **The clock** (`datetime.now()`) and **the random draws** (`randint`) are
  parameters. One instant stands for all the clock reads of one operation.
- **The index** is a datatype value `Tables` of row sequences in rowid
  order. Each `NoteDatabase` is a class holding such a value:
  - `index_note` is a method with loops over the tags and links. It is
    proved equal, statement by statement, to the function `Upsert`, and the
    properties are proved about `Upsert`.
  - A primary key that repeats makes `index_note` raise, and the rows
    already inserted stay. The model keeps that partial state.
- **The managers** are classes with the notes directory as a field. Their
  methods are proved against `Upsert`, the serializers and the file-level
  list operations.

Two behaviours of the code are kept as they are. `rebuild_index` never
clears the tables before it re-indexes, so a note whose file is gone stays
in the index. A manager writes the file before it calls `index_note`, so an
`index_note` that raises leaves the file written.

## Model

| member | source | states |
|---|---|---|
| Collection.BasicNote.constructor | commonplace/core/core.py:13-34 | absent tags, links, properties and aliases become empty containers; an absent title stays absent; every other field is as given |
| Collection.NoteCollection.constructor | commonplace/core/core.py:43-46 | a new collection has the given type and name and no notes |
| Collection.NoteCollection.CreateNote | commonplace/core/core.py:48-55 | a note whose id the collection does not hold is appended at the end; otherwise the list is unchanged (`update_note` does nothing); type and name never change |
| Collection.CreateKeepsIdsUnique | commonplace/core/core.py:48-52 | `create_note` keeps the ids of the collection pairwise distinct, and afterwards the note's id is held |
| IdGen.GenerateId | commonplace/utils/basic_utils.py:21-26 | the id is the prefix, a dash, then the alphabet symbol of each draw in order |
| IdGen.Symbols | commonplace/utils/basic_utils.py:24-25 | one symbol per draw, the symbol at the drawn index |
| IdGen.AlphabetCodes | commonplace/utils/basic_utils.py:13-16 | the alphabet has 35 symbols: the digits, `A` to `O`, `Q` to `Z` |
| IdGen.AlphabetFacts | commonplace/utils/basic_utils.py:13-15 | the alphabet has no `P` and no symbol twice |
| IdGen.SymbolIndex | commonplace/utils/basic_utils.py:13-16 | every alphabet symbol sits at an index below `ALP_LEN` |
| IdGen.GeneratedShape | commonplace/utils/basic_utils.py:12-25 | a generated id is the prefix's length plus five long, starts with the prefix and a dash, and every later character is an alphabet symbol other than `P` |
| IdGen.DrawsRoundTrip | commonplace/utils/basic_utils.py:21-26 | the draws can be read back from the id's suffix, so different draws give different ids |
| Notes.MetaOfKeys | explore/parser-first.py:98-111 | the emitted mapping always holds id, module, title, created and modified, and holds tags, properties and links exactly when they are non-empty |
| Notes.MetaRoundTrip | explore/parser-first.py:81-111 | reading the emitted mapping back restores every metadata field: an omitted key defaults to the empty value it stood for |
| Notes.ChompShape | explore/storage-first.py:126-128 | a dumped block without its final newline is what `rstrip` leaves, starts with a key and holds no `\n---` |
| MarkdownCodec.Parse | explore/parser-first.py:52-92 | a parsed note carries the path it was read from; text without a front-matter block becomes a plain note; the parse fails with an invalid-YAML error exactly when the block does not load, and with a not-a-mapping error exactly when it loads to something other than a mapping |
| MarkdownCodec.ParseMapping | explore/parser-first.py:52-92 | a front-matter block that loads to a mapping gives, key by key, the mapping's value where the key is present and the default where it is absent (the file's stem for the id, `default`, `Untitled`, now for both timestamps, empty tags, properties and links); the content is the stripped body and the path is the file's |
| MarkdownCodec.PlainFileFallback | explore/parser-first.py:59-69 | text not beginning with `---` becomes a note whose body is the whole text, whose id and title are the file stem and whose module is `default` |
| MarkdownCodec.SerializeShape | explore/parser-first.py:113-117 | a serialized note is `---`, the metadata block, a closing `---`, a blank line and the body |
| MarkdownCodec.MatchShaped | explore/parser-first.py:46-49 | on a serialized note the front-matter regex captures exactly the metadata block, and a body that differs from the written one only by leading whitespace |
| MarkdownCodec.FrontSplit | explore/parser-first.py:46-49 | the regex's groups are the lazy metadata block up to the first closer and everything after the last newline of the whitespace that follows it |
| MarkdownCodec.ParseSerialize | explore/parser-first.py:52-117 | parsing a serialized note gives back every metadata field, the body with surrounding whitespace stripped, and the path it was read from |
| Paths.StemOfFlatPath | explore/parser-first.py:350-354 | the file of a note is a `.md` name whose stem is the note's id |
| Paths.YearMonth | explore/storage-first.py:393-397 | the year-month exists exactly when the creation time starts with a `YYYY-MM-DD` date that names a real calendar day |
| Paths.YearMonthIsPrefix | explore/storage-first.py:396-397 | for a four-digit year, `%Y-%m` is the first seven characters of the timestamp |
| Paths.SameMonthSameFile | explore/storage-first.py:393-402 | two notes of one module whose timestamps share year and month get the same file |
| GroupedCodec.SerializeNotes | explore/storage-first.py:97-138 | the text is the header, with the generation time and the note count, followed by each note's block in order |
| GroupedCodec.BlocksSnoc | explore/storage-first.py:106-136 | the blocks of a list with one more note are the earlier blocks followed by that note's block |
| GroupedCodec.SectionMarkersAgree | explore/storage-first.py:67 | a section the regex matches starts with a start line and ends with an end marker carrying the same id, the id it reports |
| GroupedCodec.SectionChain | explore/storage-first.py:67 | the section regex at a start tag yields the id, the lazy metadata block and the lazy body up to the first end marker of that id |
| GroupedCodec.ParseFile | explore/storage-first.py:58-94 | `parse_file` is the fold over the matches in order |
| GroupedCodec.NotesFromSections | explore/storage-first.py:70-94 | the loop over the matches returns the fold's result |
| GroupedCodec.NotesOfStep | explore/storage-first.py:75-92 | a section whose metadata does not load is skipped and parsing goes on; a non-mapping aborts the parse; a mapping gives a note whose metadata id takes precedence over the marker's |
| GroupedCodec.SectionNoteFields | explore/storage-first.py:70-92 | a section whose metadata loads to a mapping gives, key by key, the mapping's value where the key is present and the default where it is absent (the marker's id, `default`, `Untitled`, now for both timestamps, empty tags, properties and links); the content is the stripped body and no path is set |
| GroupedRoundTrip.ParseSerializeNotes | explore/storage-first.py:58-138 | `parse_file` of what `serialize_notes` wrote returns the same notes in the same order. Every metadata field is equal, each body is stripped and no file path is set. This holds for framable notes and a generation time without `<` |
| GroupedRoundTrip.ReadBlocks | explore/storage-first.py:67-68 | the scan over the serialized blocks finds one section per note, in order, each with the note's id, its metadata block and a body that strips to its content |
| GroupedRoundTrip.ReadBlock | explore/storage-first.py:67-68 | the scan from a block's leading newline takes that block's section and goes on right after the block |
| GroupedRoundTrip.BlockMatch | explore/storage-first.py:67 | the section regex at a block's start tag matches exactly that block when no later block carries an end marker with its id |
| GroupedRoundTrip.BlockSection | explore/storage-first.py:67 | for a block laid out piece by piece, the regex reads the id and the metadata block exactly, and a body that strips to the content |
| GroupedRoundTrip.EndMarkerOnlyOwn | explore/storage-first.py:134-135 | an end marker anywhere in the serialized blocks carries the id of one of the notes |
| GroupedRoundTrip.BodyEndUnique | explore/storage-first.py:67 | from a block's start on, its own end marker is the only one with its id, so the lazy body stops there |
| GroupedRoundTrip.IdCloseFound | explore/storage-first.py:67 | the lazy id group stops at the tag close right after an id that has no `<` or `>` |
| GroupedRoundTrip.MetaTextShape | explore/storage-first.py:110-129 | a lawful codec's trimmed dump starts with a non-space, holds no `\n---`, and loads back to the note's mapping |
| GroupedRoundTrip.SkipHeader | explore/storage-first.py:101-104 | the header holds no start tag, so the scan of a file starts at its first block |
| GroupedRoundTrip.NotesOfReadsBack | explore/storage-first.py:70-92 | sections holding dumped mappings become the notes they were written from, restored, with none skipped and no error |
| GroupedRoundTrip.CreatedFileReadsBack | explore/storage-first.py:404-431 | the month file `create_note` writes parses back to the notes it already held, then the stamped note, each with its body stripped and no path |
| Index.Filter | explore/parser-first.py:207-208 | a `WHERE` clause keeps exactly the rows that satisfy it, in order |
| Index.FirstDupFrom | explore/parser-first.py:211-227 | the first position whose key already occurred earlier in the list: where an insert hits the primary key |
| Index.NoteDatabase.constructor | explore/parser-first.py:122-184 | a fresh index has empty tables and the given schema |
| Index.NoteDatabase.IndexNote | explore/parser-first.py:186-241 | the tables and the error afterwards are those of `Upsert` |
| Index.NoteDatabase.InsertTags | explore/parser-first.py:210-215 | tag rows are appended in order until a (note, tag) key repeats, and the position of the repeat is reported |
| Index.NoteDatabase.InsertLinks | explore/parser-first.py:217-227 | link rows, with type `reference` and context empty by default, are appended until a (source, target, type) key repeats |
| Index.NoteDatabase.DeleteNote | explore/storage-first.py:371-375 | deleting a note removes its row and, as the declared `ON DELETE CASCADE` intends, its tag and link rows |
| Index.TagConflict | explore/parser-first.py:150-154 | inserting a tag conflicts with the earlier rows exactly when the note listed that tag before |
| Index.LinkConflict | explore/parser-first.py:158-166 | inserting a link conflicts exactly when its (target, type) key occurred before |
| Index.FirstDupNone | explore/parser-first.py:211-227 | no insert conflicts exactly when the keys are pairwise distinct |
| Index.UpsertOutcome | explore/parser-first.py:186-241 | `index_note` succeeds exactly when there is a file path and no tag or link key repeats; a missing path raises before anything changes |
| Index.UpsertKeepsWellformed | explore/parser-first.py:133-167 | every outcome of `index_note` keeps the primary keys of every table, and `UNIQUE(file_path)` in the flat schema |
| Index.FetchAfterIndex | explore/parser-first.py:186-277 | after a successful `index_note`, `get_note` returns the note: its tags as a permutation in text order, its links with defaults filled in as a permutation ordered by target then type, and its path as the schema keeps it |
| Index.IndexLeavesOthers | explore/parser-first.py:186-241 | indexing a note leaves every other note as `get_note` sees it, unless in the flat schema that note's file path was the same |
| Index.FlatReplaceEvicts | explore/parser-first.py:141-143 | in the flat schema, indexing a note at a path another note holds removes that other note from the index |
| Index.FilePathAfterIndex | explore/storage-first.py:328-333 | once `index_note` is past its first statement, `get_file_path` returns the path it was given |
| Index.LinkQueriesOrdered | explore/parser-first.py:315-329 | `get_linked_notes` returns the note's links as a permutation in (target, type) order, and `get_backlinks` the linking sources as a permutation in text order |
| Index.BacklinkSymmetry | explore/parser-first.py:315-329 | a note links to `x` exactly when it is among the backlinks of `x` |
| Index.BacklinksAfterIndex | explore/parser-first.py:217-227 | after a successful `index_note`, the note is among the backlinks of every note it links to, and `get_linked_notes` lists each of its links with its stored type |
| Index.NoBacklinks | explore/parser-first.py:323-329 | an id that no link row targets has no backlinks |
| Index.ByTagAllPresent | explore/parser-first.py:308-313 | when every tag row belongs to a present note, each note `get_notes_by_tag` returns is found and carries the tag |
| Index.ByTagComplete | explore/parser-first.py:308-313 | every note `get_note` finds carrying the tag is among those `get_notes_by_tag` returns |
| Index.TagRowFetched | explore/parser-first.py:252-254 | a tag row of a present note shows up among the tags `get_note` returns |
| Index.FetchedTagRow | explore/parser-first.py:252-254 | every tag `get_note` returns has its tag row |
| Index.OrphanedTagAsWritten | explore/parser-first.py:393-395 | deleting a tagged note as written leaves its tag row, so `get_notes_by_tag` returns a missing note |
| Index.RemoveNoteFetch | explore/storage-first.py:371-375 | after the cascading delete the note is gone, and every other note is as `get_note` saw it |
| Index.RemoveNoteKeeps | explore/storage-first.py:371-375 | the cascading delete keeps the primary keys, and keeps every tag and link row attached to a present note |
| Index.UpsertKeepsIntegrity | explore/parser-first.py:186-241 | every outcome of `index_note` keeps tag and link rows attached to present notes, unless in the flat schema another note shared the path |
| Index.OnlyRow | explore/parser-first.py:243-247 | under unique ids, the row `get_note` reads is the note's only row |
| Index.SearchMembers | explore/parser-first.py:279-299 | an id is found exactly when one of its full-text rows matches, it has a note row, and that row passes the module filter when one is given |
| Index.SearchFindsNotes | explore/parser-first.py:279-299 | every note `search` returns is found |
| Index.SearchAfterIndex | explore/parser-first.py:229-239 | after a successful `index_note`, an unfiltered search finds the note exactly when the query matches its new full-text row |
| Index.StrLeTotal | explore/storage-first.py:360 | the order of timestamps is total |
| Index.StrLeTrans | explore/storage-first.py:360 | the order of timestamps is transitive |
| Index.SortBy | explore/storage-first.py:360 | sorting returns a permutation of its input |
| Index.SortByAscending | explore/storage-first.py:360 | under a total order, the sorted rows are ascending and a permutation of the input |
| Index.TextLeTotal | explore/parser-first.py:252-254 | the text order in which the tag key index answers is total |
| Index.LinkKeyLeTotal | explore/parser-first.py:256-264 | the (target, type) order in which the link key index answers is total |
| Index.PairKeyLeTotal | explore/parser-first.py:315-321 | the (target, type) order in which `get_linked_notes` answers is total |
| Index.NewerLeTotal | explore/storage-first.py:360 | newest-first by `modified` is a total order |
| Index.SortIsNewestFirst | explore/storage-first.py:360 | the sorted rows are newest first |
| Index.ByModuleContents | explore/storage-first.py:357-362 | `get_notes_by_module` returns each row of the module once, newest first in the grouped store, and every note it returns is found |
| FlatStore.NoteManager.constructor | explore/parser-first.py:337-345 | the manager starts with the given directory and an empty flat index |
| FlatStore.NoteManager.CreateNote | explore/parser-first.py:347-370 | the note is placed at `<root>/<module>/<id>.md`, its `created` filled in when empty and `modified` set to now; the file is written, then the note is indexed |
| FlatStore.NoteManager.UpdateNote | explore/parser-first.py:372-381 | `modified` is set to now; without a file path nothing changes and an error is raised; otherwise the file is rewritten and the note re-indexed |
| FlatStore.NoteManager.DeleteNote | explore/parser-first.py:387-395 | the file the index names is unlinked, then the note is deleted from the index with the cascade |
| FlatStore.NoteManager.RebuildIndex | explore/parser-first.py:397-414 | the index and the count are those of indexing the listed files in order, with read and parse errors caught per file |
| FlatStore.NoteManager.IndexFile | explore/parser-first.py:402-412 | one file is skipped, counted, or caught as failed, as the loop body does |
| FlatStore.RebuildCount | explore/parser-first.py:397-414 | the count is exactly the number of listed files that are indexable, parse and have no repeated tag or link key, whatever the index held before |
| FlatStore.RebuildKeepsWellformed | explore/parser-first.py:397-414 | every outcome of `rebuild_index` keeps the index's primary keys |
| FlatStore.CreatedFileReadsBack | explore/parser-first.py:347-370 | the file `create_note` writes parses back to the stored note with its body stripped |
| FlatStore.CreatedIsIndexed | explore/parser-first.py:347-370 | after a successful `create_note`, `get_note` returns the stored note, with `created` kept when given and `modified` now |
| FlatStore.DeleteRemovesFile | explore/parser-first.py:387-391 | `delete_note` unlinks exactly the file the index names for the note and leaves every other file as it was |
| GroupedStore.FirstWithId | explore/storage-first.py:147-152 | the position of the first note with the id, or none when no note has it |
| GroupedStore.UpdateInList | explore/storage-first.py:141-159 | the loop replaces the first note with the id and stops, or appends the note when none has it |
| GroupedStore.ReplaceOrAppendPlaces | explore/storage-first.py:141-159 | afterwards the note is the first with its id, at the old position or at the end; the list grows exactly when no note had the id; every note with another id keeps its place |
| GroupedStore.ReplaceOrAppendUnique | explore/storage-first.py:141-159 | updating a note in a list whose ids are distinct keeps them distinct |
| GroupedStore.ReplaceOrAppendIdempotent | explore/storage-first.py:141-159 | writing the same note twice leaves the list as writing it once |
| GroupedStore.DeleteAfterUpdate | explore/storage-first.py:141-172 | deleting a note from a list after updating it there gives the list deleting it would have given before |
| GroupedStore.WithoutIdContents | explore/storage-first.py:164-172 | `delete_note_from_file` removes every note with the id, keeps every other note, and changes nothing when no note has the id |
| GroupedStore.GroupedNoteManager.constructor | explore/storage-first.py:383-391 | the manager starts with the given directory and an empty grouped index |
| GroupedStore.GroupedNoteManager.CreateNote | explore/storage-first.py:404-431 | the note is stamped; a timestamp that does not parse raises before any write; the notes already in the month file (if any) are parsed, and a parse error raises before any write; the note is appended, the file written, and the note indexed at that path |
| GroupedStore.GroupedNoteManager.UpdateNote | explore/storage-first.py:433-449 | `modified` is set to now; a note the index has no file for is created; otherwise it is replaced in or appended to the named file, which is rewritten, and re-indexed there; a missing or unparsable file raises before anything changes |
| GroupedStore.GroupedNoteManager.DeleteNote | explore/storage-first.py:455-465 | the note is dropped from the file the index names, which is rewritten even when empty; a missing or unparsable file raises before the index changes; then the note is deleted from the index with the cascade |
| GroupedStore.GroupedNoteManager.RebuildIndex | explore/storage-first.py:467-485 | the index and the count are those of indexing, file by file in listing order, every note of each file that parses |
| GroupedStore.GroupedNoteManager.IndexFile | explore/storage-first.py:470-483 | one file is skipped, or its notes are indexed, or a parse error is caught |
| GroupedStore.GroupedNoteManager.IndexNotes | explore/storage-first.py:476-479 | the notes of one file are indexed and counted in order until one raises, which ends that file |
| GroupedStore.CleanPrefix | explore/storage-first.py:476-479 | the number of leading notes that have no repeated tag or link key |
| GroupedStore.IndexAllCount | explore/storage-first.py:476-479 | a file adds its leading run of notes without repeated keys to the count, whatever the index held before |
| GroupedStore.RebuildCount | explore/storage-first.py:467-485 | the count `rebuild_index` reaches is the sum over the listed files of those leading runs |
| GroupedStore.RebuildKeepsWellformed | explore/storage-first.py:467-485 | every outcome of `rebuild_index` keeps the index's primary keys |
| GroupedStore.CreatedIsIndexed | explore/storage-first.py:404-431 | after a successful `create_note`, `get_note` returns the stamped note and `get_file_path` the month file |
| GroupedStore.SameMonthShareFile | explore/storage-first.py:393-431 | two notes of one module created in the same month are written to the same file |

## Left out

- YAML and JSON are a parameter (`YamlCodec`), and properties are kept as encoded text. The round trips assume that loading a dumped mapping gives it back.
- No key order is claimed for the dumped mapping, and a metadata value of an unexpected type (a tag list holding a number, say) is not modelled.
- Regular expressions are explicit searches with the same laziness. The grouped regex's backtracking to a later ` -->` inside an id, or to a later closer when the body search fails, is not modelled: such a start tag yields no section.
- Full-text `MATCH` is a predicate parameter on full-text rows, and `ORDER BY rank` (bm25 relevance) is not modelled. `search` returns its hits in rowid order.
- SQL results without `ORDER BY` are taken in the order of the plan SQLite picks. `get_note` and `get_linked_notes` read tags and links through their primary-key indexes, so tags come in text order and links by target, then type. `get_backlinks` filters on the target, which no index starts with, and is taken to scan the narrower links key whole, so its sources come in text order. The other queries scan the table, which is rowid order. `ReplaceRow` moves a replaced row to the end, as `INSERT OR REPLACE` does. A different query plan would change only these orders.
- Paths.Join / FlatPath / GroupedPath: paths are joined as text with `/`. What `pathlib` normalises is not modelled: a leading `./` in the notes directory is kept, a trailing `/` or an empty module gives `//`, and an absolute module does not replace the directory.
- A failed `index_note` leaves the rows it inserted before the failing statement. Transactions, `commit` and `close` are not modelled.
- An index opened on an existing database file is not modelled: every manager starts from an empty index.
- `mkdir`, `open`, `unlink`, reading a file that disappears mid-scan, and the order of `rglob` are not modelled. The listing `rebuild_index` walks is a parameter, and every listed path is looked up in the directory map.
- The managers return the stamped note. The caller's `Note` object, which Python mutates in place, is not modelled.
- `print` diagnostics, the `__main__` demos and `export_module_to_individual_files` are not modelled.
- The managers' `get_note`, `search`, `get_notes_by_module` and `get_notes_by_tag` forward to the index. They are modelled there.
- `NoteModule`, and the `NoteCollection` methods whose bodies are `pass`, are not modelled. `_is_note_in_collection` is referenced but never defined; the model takes it to be membership by id.
- GroupedRoundTrip.ParseSerializeNotes: the round trip is stated for framable notes. A framable note's id is non-empty and holds no `<` or `>`, the ids are distinct, and no body or metadata block holds an end tag. The generation time must hold no `<`. The code needs less: a body may hold another note's end marker, and an id may hold `<`.
- GroupedRoundTrip.CreatedFileReadsBack: it requires the notes of the month file and the new note to have distinct ids, as `Framable` does. With a repeated id the round trip holds in the code only while every earlier note of that id has a non-blank body. When such a body is empty or only whitespace, `\s*\n` swallows it together with the newline before the end line. The lazy body then starts at that end line, finds the first end marker of the id in the later note, and the two notes come back as one. The weaker condition is not modelled.
- MarkdownCodec.Parse, MarkdownCodec.ParseMapping, GroupedCodec.NotesOf and GroupedCodec.SectionNoteFields: one instant `now` stands for every `datetime.now()` of one operation. The code reads the clock separately for `created` and `modified`, and again for every section of a grouped file. So the model gives a note without timestamps equal `created` and `modified`, and gives every such section of one file the same times, where the code's values can differ.
- Paths.YearMonth: `fromisoformat` is modelled for the `YYYY-MM-DD` prefix only. The time part after it is not checked.

## Findings

| source | as written | input that shows it | evidently intended | confidence | as-written member | corrected member |
|---|---|---|---|---|---|---|
| explore/storage-first.py:371-375 | `delete_note` deletes only the notes row. The schema declares `ON DELETE CASCADE` (explore/storage-first.py:206,217), but foreign keys are never switched on. | index note `a` with tag `x`, delete `a`, then `get_notes_by_tag("x")` | the note's tag and link rows are deleted with it, so `get_notes_by_tag("x")` returns `[]` instead of `[None]` | high; not executed | Index.OrphanedTagAsWritten | Index.RemoveNoteKeeps |
| explore/parser-first.py:393-395 | `NoteManager.delete_note` deletes only the notes row. The schema declares `ON DELETE CASCADE` (explore/parser-first.py:152,164). | index note `a` with tag `x`, delete `a`, then `get_notes_by_tag("x")` | the note's tag and link rows are deleted with it | high; not executed | Index.OrphanedTagAsWritten | Index.RemoveNoteFetch |
