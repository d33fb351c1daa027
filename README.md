# Offline story library: a verified model of its data layer

The offline story library is a browser add-on for a chat front-end. It keeps
short text "stories" (`id`, `title`, `author`, `tags`, `content`) in the
browser's IndexedDB. It lists them newest first, filters them by tag and by
title, creates and edits them, and backs them up to and restores them from a
zip archive (`data/index.json` plus `data/stories/<id>.json`).

This project models that data layer in Dafny and proves what it promises:

- `records.dfy` (`Records`): the story record, the manifest summary,
  `PutAll`, which writes a sequence of records into an id-keyed map one after
  another, and `Keep`, the order-preserving filter that the library view, the
  importer's story-file selection and the append skip rule all use.
- `story_db.dfy` (`StoryDb`): the IndexedDB helper (`story_library_db.js`).
  - It is a class holding the object store as a map, a cached-connection flag
    and a flag for whether the store exists.
  - `initDB`, `saveStory`, `getStory`, `getAllStories`, `deleteStory` and
    `clearAllStories` are methods on it.
  - Whether the browser can open the database is a parameter, `canOpen`.
- `archive.dfy` (`Archive`): the backup format.
  - Which archive paths count as story files.
  - Reading story documents back in order.
  - The manifest and the export.
  - The timestamped backup file name.
- `merge.dfy` (`Merge`): what an import does to the store, as functions.
  - `ZipImport` is the current append/replace importer.
  - `DraftImport` is the older replace-only importer in `index.js`.
  - Lemmas state the skip rule, the counters, rejection before any write, the
    lack of rollback, and the export/import round trip.
- `library_index.dfy` (`LibraryIndex`): the in-memory library.
  - Newest-first ordering by the number in the id.
  - The tag filter and the title search.
  - The list of tag buttons.
- `editing.dfy` (`Editing`): the record the create/edit form builds.
  - Validation of title and content.
  - The id: kept on edit, `story-<now>` on create.
  - The default author.
  - Parsing of the comma-separated tag field.
- `session.dfy` (`Session`): the page state of `story_library_main.js`
  (`allStories`, `currentStory`, `currentImportMode`) and its handlers.
  - The import handler performs one write per admitted story file in a loop,
    and is proved to end in the store and report `Merge.ZipImport` specifies.
  - The export handler is proved to produce an archive that reads back to
    exactly the stored records.
- `older_draft.dfy` (`OlderDraft`): the replace-only import handler of
  `index.js`, proved against `Merge.DraftImport`.

`index.js` is an older draft of `story_library_main.js`. Its `initStoryLibrary`,
`loadStory`, record building and `deleteLocalStory` do the same as the
current file. They are modelled once, in `Session` and `Editing`, and the
table below cites both files.

Three behaviours of the code are worth knowing, and the model keeps them:

- The filter with tag "a" and search "foo" over records tagged a / b / a,b
  and titled Foo / Bar / Foobar keeps both Foo and Foobar, because "Foo"
  lower-cased contains "foo".
- An empty library produces no archive, only a warning.
- The tag list is an ordered list with `all` first.

## Model

| member | source | states |
|---|---|---|
| StoryDb.StoryDB.constructor | story_library_db.js:5-8 | at page load no connection is cached; the store holds whatever an earlier session left |
| StoryDb.StoryDB.InitDB | story_library_db.js:11-38 | a cached connection is returned without reopening and nothing changes; otherwise success is exactly `canOpen`; a failed open caches nothing, so the next call tries again; after a success the `stories` store exists (created only if absent); records are untouched |
| StoryDb.StoryDB.Save | story_library_db.js:41-51 | on success the store is the old map with the record put under its own id (replacing any record with that id); on a failed open nothing changes; the object store exists afterwards exactly when it did before or the open succeeded |
| StoryDb.StoryDB.Get | story_library_db.js:54-64 | returns the record stored under the id, or none when the id is absent (not a failure); never changes the store; the object store exists afterwards exactly when it did before or the open succeeded |
| StoryDb.StoryDB.GetAll | story_library_db.js:67-77 | on success the result lists every stored record exactly once (same size, each one stored under its id, ids distinct); the store is unchanged; the object store exists afterwards exactly when it did before or the open succeeded |
| StoryDb.StoryDB.Delete | story_library_db.js:80-90 | on success exactly that key is removed and every other record is unchanged; deleting an absent id is a successful no-op; the object store exists afterwards exactly when it did before or the open succeeded |
| StoryDb.StoryDB.Clear | story_library_db.js:93-103 | on success the store is empty, so a following `GetAll` lists nothing; the object store exists afterwards exactly when it did before or the open succeeded |
| Records.PutAll | story_library_db.js:46 | writing records one after another yields exactly the old keys plus the written ids |
| Records.PutAllKeyed | story_library_db.js:33 | writing through the key path `id` keeps every record under its own id |
| Records.PutAllLast | story_library_db.js:46 | after a series of `put`s each key holds the last record written under it, or its old record if none was |
| Records.ListedRebuild | story_library_db.js:72-74 | writing a full listing of a store into an empty store rebuilds that store exactly |
| Records.ListedValue | story_library_db.js:72-74 | after writing a full listing into an empty store, each key holds the record the store had under it |
| Text.DecimalRoundTrip | story_library_main.js:67 | the number written into a new id by `${Date.now()}` is read back unchanged by the numeric subtraction in the sort |
| Archive.StoryFiles | story_library_main.js:79 | the story files are an order-preserving subsequence of the archive holding only files whose path matches the story-file pattern, and as many as there are matching files, so none is missed |
| Archive.Decode | story_library_main.js:79 | reads story documents in order and stops at the first one that is not a record; the stories read are the documents' records, and an incomplete read names the failing file |
| Archive.PatternDotIsWildcard | story_library_main.js:79 | the unescaped `.` in `/.json$/` lets any non-line-terminator stand before `json` (`notes_json` is taken), and names of four characters or fewer never match |
| Archive.StoryPathSelected | story_library_main.js:79-80 | every `data/stories/<id>.json` path the export writes is picked up by the importer's pattern, and `data/index.json` is not |
| Archive.ArchiveOf | story_library_main.js:80 | the archive has one file more than there are records: the manifest `data/index.json` first, then record i's full document at `data/stories/<id>.json` in position i + 1 |
| Archive.BackupFileName | story_library_main.js:80 | the download name starts with `SillyTavern-Stories-Backup-`, ends with `.zip`, and has at most 19 characters of timestamp between them |
| Archive.Export | story_library_main.js:80 | an empty listing produces no archive; otherwise the archive is the manifest followed by one document per record, under the backup file name |
| Archive.ManifestMatchesDocuments | story_library_main.js:80 | the manifest has one `{id,title,author,tags}` entry per record in listing order, and the i-th story document is that record in full at `data/stories/<id>.json` |
| Archive.ExportDecodeRoundTrip | story_library_main.js:79-80 | reading back the story files of an exported archive gives exactly the exported records, in order, with no failure |
| Archive.StoryFilesOfDocuments | story_library_main.js:79-80 | every story document the export writes is kept by the importer's story-file filter, in order |
| Archive.DecodeDocuments | story_library_main.js:79-80 | the export's story documents read back completely, as the records they hold |
| Archive.ExportHasIndex | index.js:252-253 | an exported archive carries `data/index.json`, which the older importer insists on |
| Archive.Timestamp | story_library_main.js:80 | the timestamp has at most 19 characters and contains no `-`, `:` or `T` |
| Archive.BackupNameOfIso | story_library_main.js:80 | for a well-formed ISO time the file name is `SillyTavern-Stories-Backup-` + `YYYYMMDDHHmmss` (14 digits) + `.zip` |
| Archive.StripIso | story_library_main.js:80 | removing `-`, `:` and `T` from the first 19 characters of an ISO time leaves its six digit groups in order |
| Merge.AdmittedOf | story_library_main.js:79 | append mode writes a record exactly when its id is not in the snapshot's ids and its title is not in the snapshot's titles: an order-preserving subsequence of the archive's records, as long as the number of admitted positions, so every admitted record is written and in archive order |
| Merge.WriteEffect | story_library_main.js:79 | the write loop either succeeds, counting every story file as added or skipped (none skipped without the filter), or fails naming the first story file that is not a record; it never removes a record from the store it writes into |
| Merge.ZipImport | story_library_main.js:79 | a cancelled import and every failure other than a bad story file leave the store unchanged; a successful import read a non-empty set of story files and counted each as added or skipped, with nothing skipped in replace mode; the current importer never asks for the manifest |
| Merge.DraftImport | index.js:236-276 | a cancelled import and every failure other than a bad story file leave the store unchanged; a successful import had the manifest and counts every story file as imported; an archive without story files is never rejected |
| Merge.SnapshotOfListing | story_library_main.js:79 | the id and title sets built from `getAllStories` are the store's ids and titles |
| Merge.EmptyArchiveRejected | story_library_main.js:79 | an archive with no story file is rejected and the store is unchanged, in both modes |
| Merge.ReplaceImportResult | story_library_main.js:79 | a successful replace import reads every story file, reports all of them added and none skipped, and the store holds only the archive's records |
| Merge.ReplaceFailureNoRollback | story_library_main.js:79 | a replace import that hits a bad file leaves the old records deleted and only the records before the bad file stored; nothing is rolled back |
| Merge.DecodePrefixComplete | story_library_main.js:79 | the records read before the first bad document are a complete reading of the files before it |
| Merge.DecodeAppend | story_library_main.js:79 | reading a fully readable prefix then the rest gives the prefix's records followed by the rest's, with the rest's completeness |
| Merge.PutAllKeepsOld | story_library_main.js:79 | writing only records with new ids never changes an existing record |
| Merge.NewIdsWrite | story_library_main.js:79 | after writing only records with new ids, old records are untouched and each added key holds the last record written under it |
| Merge.AppendSkipRule | story_library_main.js:79 | append mode writes exactly the archive records whose id and title are both new, never changes an existing record, and each new key holds the last written record with that id |
| Merge.AppendCounts | story_library_main.js:79 | on success in append mode, added plus skipped equals the number of story files, and added is the number of admitted records |
| Merge.AppendOfDocuments | story_library_main.js:79 | append-importing a list of story documents writes the admitted ones over the old store and counts the rest as skipped |
| Merge.SnapshotNotUpdated | story_library_main.js:79 | the snapshot is not updated during the loop: two records with different ids and the same title, imported into an empty store, are both written and both counted as added |
| Merge.AppendSkipsOnIdOrTitle | story_library_main.js:79 | with one record `o` stored, importing a record with `o`'s id, one with `o`'s title and one with neither adds only the last, skips two, and leaves `o` in place |
| Merge.ExportThenReplaceRoundTrip | story_library_main.js:79-80 | exporting a store and replace-importing the archive into any store reproduces it exactly, counting every record as added; the older importer does the same |
| Merge.ReplaceOfExport | story_library_main.js:79-80 | the write phase of a replace import of an exported archive finds story files, reads every record and rebuilds the exported store |
| Merge.DraftAgreesWithReplace | index.js:236-276 | on an archive with a manifest and at least one story file, the older importer behaves exactly like the current one in replace mode |
| Merge.DraftEmptiesOnStoryless | index.js:252-268 | with a manifest but no story files, the older importer empties the store and reports 0 imported, while the current one rejects the archive and keeps the store |
| Merge.DraftMissingIndexKeepsStore | index.js:252-253 | without `data/index.json` the older importer fails before clearing, and the store is unchanged |
| LibraryIndex.SortNewestFirst | story_library_main.js:67 | the sorted library is non-increasing in the number after the first `-` in the id (missing or empty counts as 0) and is a permutation of the input |
| LibraryIndex.Insert | index.js:25 | inserting into a newest-first list keeps it newest first and adds exactly the one record |
| LibraryIndex.CreatedIdKey | story_library_main.js:67-69 | a record created at time `now` gets id `story-<now>`, whose sort key is `now` |
| LibraryIndex.PermutedListing | story_library_main.js:67 | reordering a full listing of the store still lists every record exactly once |
| Records.Keep | story_library_main.js:77 | `filter` returns an order-preserving subsequence of only the elements satisfying the predicate, as long as the number of positions holding one, so it keeps each of them, in their original order |
| LibraryIndex.FilterStories | story_library_main.js:77 | the filtered list is an order-preserving subsequence, a record is in it exactly when it carries the selected tag (if a tag other than `all` is selected) and its lower-cased title contains the lower-cased search (if the search is non-empty), and it is as long as the number of positions holding such a record, so none is dropped |
| LibraryIndex.FilterExample | story_library_main.js:77 | records tagged a / b / a,b titled Foo / Bar / Foobar, filtered by tag "a" and search "foo", give Foo and Foobar |
| LibraryIndex.AllTagsMembership | story_library_main.js:74 | a tag is in the flattened tag list exactly when some record carries it |
| LibraryIndex.Distinct | story_library_main.js:74 | building a `Set` in insertion order: no repeats, exactly the input strings not already seen, listed in the order of their first occurrences in the input |
| LibraryIndex.TagList | story_library_main.js:74 | the first tag button is `all` |
| LibraryIndex.TagListSpec | story_library_main.js:74 | the tag buttons start with `all`, repeat nothing, are exactly `all` plus every tag of every record, and follow the order in which the tags first occur in the library |
| Editing.ParseTags | story_library_main.js:69 | every parsed tag is non-empty, trimmed and free of commas |
| Editing.ParseCons | index.js:93 | the text before the first comma becomes one tag when it is not blank, followed by the tags of the rest |
| Editing.ParseSingle | index.js:93 | text without commas gives its trimmed self as the only tag, or no tag when blank |
| Editing.TagsRoundTrip | story_library_main.js:69 | parsing `tags.join(', ')` gives back the same tags when each is non-empty, trimmed and comma-free |
| Editing.ParseJoined | story_library_main.js:69 | after an optional leading space, the joined text of well-formed tags splits and trims back to exactly those tags |
| Editing.NewId | index.js:90 | editing keeps the record's id; creating gives an id whose sort key is the creation time |
| Editing.BuildStory | index.js:79-95 | an empty title or content builds nothing; otherwise the record keeps the id on edit or gets `story-<now>` on create, keeps title and content, gets the default author when the author is empty, and has the tags parsed from the tag field, which are well formed |
| Editing.UnchangedEditIsIdentity | story_library_main.js:69 | opening a record for editing and submitting the pre-filled form unchanged saves that same record under the same id |
| Editing.CreatedSortsFirst | index.js:90 | a record created now sorts at or before every record created earlier |
| Session.Session.constructor | story_library_main.js:27-29 | the page starts with an empty library, nothing on display and append mode |
| Session.Session.InitStoryLibrary | story_library_main.js:67 | on a successful load the library lists every stored record exactly once, newest first when all sort keys are numbers; a failed load keeps the previous library |
| Session.Session.LoadStory | index.js:40-54 | a found record is put on display and returned; an absent id leaves the displayed record unchanged and returns nothing |
| Session.Session.DeleteLocalStory | story_library_main.js:70 | without confirmation nothing happens; otherwise exactly that id is removed from the store and the reloaded library lists the remaining records, newest first when every id has a numeric second part (the reload goes through `initStoryLibrary`); the connection is cached exactly when it was before or the confirmed delete opened it |
| Session.Session.SubmitEdit | index.js:78-97 | an invalid form writes nothing; otherwise the built record is saved under its id, replacing any record with that id; the connection is cached exactly when it was before or a valid form's save opened it |
| Session.Session.TriggerZipImport | story_library_main.js:78 | the chosen import mode is remembered |
| Session.Session.HandleZipImport | story_library_main.js:79 | the handler's checks, clear or snapshot, and write loop end with exactly the store and report `Merge.ZipImport` specifies; the database is opened (and the connection cached) only once a confirmed zip with story files reaches the clear or the snapshot |
| Session.Session.ImportArchive | story_library_main.js:79 | for an archive with story files, clearing (replace) or taking the snapshot (append) and then writing gives the store and report `Merge.ZipImport` specifies; the connection is cached afterwards exactly when it was before or could be opened |
| Session.Session.WriteStories | story_library_main.js:79 | the loop ends with exactly the store and report of `Merge.WriteEffect`: the selected records written in order over the store, added and skipped counted, and the first bad file named with the records before it kept |
| Session.Session.HandleZipExport | story_library_main.js:80 | an archive is produced exactly when the store is non-empty and opens; it carries the manifest, its name is the backup name, and its story files read back to exactly the stored records |
| OlderDraft.DraftZipImport | index.js:236-276 | the older handler's checks, clear and write loop end with exactly the store and report `Merge.DraftImport` specifies; the database is opened only once a confirmed zip with the manifest reaches the clear |
| OlderDraft.WriteAll | index.js:259-266 | the loop ends with exactly the store and report of `Merge.WriteEffect` without filtering: every story record written in order and counted, and the first bad file named with the records before it kept |

## Left out

- Rendering, event binding, modals, status text, toasts and alerts are not modelled. They are presentation only. `confirm(...)` is a boolean parameter.
- Sending a story into the chat (`sendTextDirectly`) is not modelled. It calls a foreign host API and depends on timers.
- Script loading, the settings panel and the menu button are not modelled. They are start-up plumbing.
- IndexedDB events and Promises are not modelled. Each store operation is one atomic step on the map.
- Storage failures of `put`, `delete` and `clear` after a successful open are not modelled. Neither are concurrent tabs.
- JSZip is modelled only as far as the importer sees it.
  - An archive is its list of files in zip order.
  - Each document is reduced to what `JSON.parse` yields: a record, the manifest, or unreadable.
  - Directory entries, compression and the JSON text format are left out.
  - A parsed document without an `id` (an array, a number, an object lacking the field) is grouped with the unreadable ones; see the `Merge.WriteEffect` line below.
- `Date.now()` and `new Date().toISOString()` are parameters.
- `toLowerCase` is modelled for ASCII letters only. `trim` uses the JavaScript whitespace set.
- `Records.Story` and `Archive.Decode`: a story document is a record whose `id`, `title`, `author` and `content` are strings. The source writes whatever `JSON.parse` gives, so other objects reach the store too. The model cannot represent them: it groups such a document with the unreadable ones, so its import stops there with `BadStoryFile` where the source stores the object and goes on. What these objects do later in the source is not modelled either:
  - A document like `{"id": 5, ...}` is stored under the number 5. The next `initStoryLibrary` assigns the unsorted listing to `allStories` and then throws in the sort at `b.id.split('-')`, so the load reports a failure with the library left unsorted.
  - A document without `title` is stored as it is. A non-empty search then throws at `s.title.toLowerCase()`.
  - In append mode, once a title-less record is stored, `undefined` is in the snapshot of titles, so every later document without `title` is skipped.
- A record missing its `tags` field is represented with `tags == []`. The tag filter and the tag list treat both alike; the display and the edit dialog do not (next line).
- `Session.Session.LoadStory` and `Editing.UnchangedEditIsIdentity`: a record stored without a `tags` field is read as one with `tags == []`. In the source, showing such a record and pre-filling its edit dialog call `tags.join(', ')`, which throws: `loadStory` sets `currentStory`, then reports a load failure and returns `null`, and the edit dialog fails before its submit handler is bound. The model loads such a record and lets it be edited like one with no tags.
- `StoryDb.StoryDB.GetAll`: does not state that IndexedDB returns records in ascending key order. The library view re-sorts the records, but `Session.Session.HandleZipExport` writes the manifest and the story files in the listing order as it comes, so the model's export order is any order that lists every record once, not necessarily ascending by id.
- `LibraryIndex.SortNewestFirst`: requires every id's second part to be missing, empty or made of decimal digits. It leaves out both the parts that make the comparator return NaN (after which the order is engine-defined) and parts that JavaScript still reads as numbers, such as `1.5`, ` 7`, `0x10`, `1e3` and `Infinity`, which the source sorts deterministically.
- `LibraryIndex.SortNewestFirst`: compares the sort keys as exact integers. The source subtracts IEEE doubles, so two keys above 2^53 that round to the same double compare equal there and keep their listing order. Ids made as `story-<Date.now()>` stay far below 2^53.
- `Merge.WriteEffect`: stops with `BadStoryFile` at every story document that is not a record with an `id`. In append mode the source first checks the snapshot, so a document without an `id` whose `title` is already stored is skipped and the import goes on. The model reports a failure there, and the files after it are not read. Exported archives never hold such documents.
- `Session.Session.HandleZipImport`: takes the import mode once, when the handler starts. The source reads `currentImportMode` again after each `await`: for the clear, for the snapshot and in every loop iteration. Pressing the other import button while an import runs would change its course, for example clearing the store in the middle of an append import. This interleaving is not modelled.
- `Session.Session.InitStoryLibrary`: when some id's second part is not missing, empty or made of decimal digits (including parts JavaScript reads as numbers), it keeps the listing order. It promises only that every record is listed once.
- `Session.Session.SubmitEdit`: the view refresh one second after saving is not part of the method. It is a separate `InitStoryLibrary` call.
- `index.js` alone:
  - It declares `renderStoryList` twice.
  - It calls `closeLibraryModal`, `onEnableChange` and `loadSettings`, which it never defines.
  - Its `handleSearchAndFilter` is a stub.

  These are not modelled. After a successful delete, `index.js` fails when refreshing the view. The store change is the same as in `Session.Session.DeleteLocalStory`.
