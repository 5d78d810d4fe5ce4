# Amazing Note: a verified model of its core logic

This project models the decision logic of Amazing Note, a Kotlin Multiplatform
notes app, together with the Python tool that keeps the repository's project
context manifest up to date. It proves properties about that model. The model
covers these parts:

- **Project context manifest** (`pcm_paths.dfy`, `pcm_update.dfy`). A file's kind
  and language follow from its path. Cached records are reused only while size
  and modification time match. Overrides are merged in. The module graph and the
  test metadata are rebuilt, and the check mode compares against what is on disk.
- **Note content** (`note_model.dfy`, `note_content_summary.dfy`,
  `note_content_operations.dfy`). Blocks, spans and attachments; the summary a
  note shows; inserting an image at the caret; clipping a range.
- **Block editor** (`note_editor_state.dfy`). A class with the editor's block list,
  text fields, caret, image selection and undo/redo stacks, updated in place.
- **Note detail screen** (`note_detail.dfy`). The snapshot history, span clean-up,
  merging and toggling, and the legacy block list.
- **Text sanitizer** (`text_sanitizer.dfy`). The character loop of `sanitizeText`
  and the block map of `sanitizeNoteContent`.
- **Sign-in and validation** (`auth_validation.dfy`, `auth_validators.dfy`,
  `auth_view_model.dfy`, `google_sign_in.dfy`). The e-mail and password rules, the
  view model's loading guards and error messages, and the Google sign-in URL,
  verifier and one-shot completion.
- **Sync** (`notes_sync_hash.dfy`, `notes_sync_merge.dfy`, `notes_sync_manager.dfy`).
  Order-independent list hashes, the last-writer-wins merge of notes and folders,
  placeholder folders, pending deletions and the merge throttle.
- **Security** (`note_cipher.dfy`, `secure_key_store.dfy`). Payload framing, the
  legacy keystream, constant-time comparison and hex key decoding.
- **Platform glue with logic in it** (`attachment_processor.dfy`,
  `firestore_documents.dfy`, `gitlive_cloud.dfy`, `gradle_build.dfy`,
  `app_state.dfy`). Sample sizes and formats for images, Firestore timestamp and
  document conversion, the version code, and the app shell's navigation state.

`wrappers.dfy`, `kotlin.dfy` and `order.dfy` hold shared definitions. They cover
`Option`/`Result`, the Kotlin and Python library functions the code relies on
(32- and 64-bit wrap-around, truncating division, `trim`, `split`, string
order), and stable sorting.

Foreign primitives are parameters of the model: AES-CTR, HMAC-SHA256, Base64,
UTF-8, JSON, SHA-1, the clock, random bytes, remote calls and file discovery.
Each row under Findings pairs a member that models the code as written with
a corrected member, and the rest of the model is built on the corrected one.
So the manifest run from `PcmUpdate.BuildRecord` on classifies each file by its
root-relative path and splices the tests metadata record in sorted order, and
the entry points of the text sanitizer report a change only when the text
changed. The section "Left out" names every member this affects.

## Model

| member | source | states |
|---|---|---|
| PcmPaths.ChunkLength | tools/pcm_update.py:119-135 | the length of the first path component: no '/' before it and a '/' right after it unless it is the whole path |
| PcmPaths.PartsAppend | tools/pcm_update.py:122 | the components of `x/y` are those of `x` followed by those of `y` |
| PcmPaths.LastDot | tools/pcm_update.py:125 | the index of the last dot of a name, with no dot after it, or -1 exactly when there is none |
| PcmPaths.PathLtStrictTotal | tools/pcm_update.py:404 | the order `sorted` gives to paths (component-wise, '/' below every character) is irreflexive, transitive and total |
| PcmPaths.DetectLangSpec | tools/pcm_update.py:22-34 | Gradle Kotlin scripts are "kotlin" by name; "unknown" exactly when the lower-cased suffix is not in the language table; the result is always one of the table's languages or "unknown" |
| PcmPaths.TestDirectoryIsTest | tools/pcm_update.py:119-124 | a file below any `test` or `androidTest` directory is a test whatever its suffix |
| PcmPaths.MarkdownKind | tools/pcm_update.py:119-135 | a Markdown file outside test trees and resources is docs under `docs/`, script under `scripts/` and source elsewhere |
| PcmPaths.AbsolutePathNeverDocsOrScript | tools/pcm_update.py:328-333 | a path that starts with the root directory is never classified docs or script |
| PcmPaths.DocsFileRelative | tools/pcm_update.py:131-132 | `docs/<name>.md`, classified relative to the root, is docs |
| PcmPaths.DocsFileAbsolute | tools/pcm_update.py:328-333 | the same file classified by its absolute path, as `build_record` does, is source |
| PcmUpdate.BuildRecordAsWritten | tools/pcm_update.py:328-337 | the record as written: its kind is never docs or script when the root is absolute |
| PcmUpdate.BuildRecord | tools/pcm_update.py:328-337 | the record of a file carries its root-relative path and the kind of that path |
| PcmUpdate.BuildRecordShape | tools/pcm_update.py:330-337 | exactly the six fields path, lang, kind, size, hash and last_modified, from the file's stat and content |
| PcmUpdate.LoadCache | tools/pcm_update.py:188-198 | no entries when the file is missing, not JSON or of another version (Python equality, so `true` counts as 1); the stored entries otherwise |
| PcmUpdate.Overlay | tools/pcm_update.py:358-359 | every key of the override wins, every other key of the base record stays, and nothing else is added |
| PcmUpdate.CollectRecords | tools/pcm_update.py:340-367 | the loop returns one record per file in order, the new cache and the list of files it had to rebuild |
| PcmUpdate.LookupOrBuild | tools/pcm_update.py:350-357 | the cached record on a size and mtime_ns hit, a freshly built record otherwise |
| PcmUpdate.CollectedRecordAt | tools/pcm_update.py:347-366 | the i-th record is the base record of the i-th file with its override applied |
| PcmUpdate.CollectedCacheExact | tools/pcm_update.py:345-366 | the new cache holds exactly the listed files, each with its current stat and its base record (never the overridden one) |
| PcmUpdate.RebuiltIffMiss | tools/pcm_update.py:351-355 | a file is rebuilt and hashed exactly when its cache entry is not a hit |
| PcmUpdate.SecondRunRebuildsNothing | tools/pcm_update.py:340-367 | with the cache a run returns, a second run over the same files rebuilds nothing and returns the same records |
| PcmUpdate.CollectedCacheWellFormed | tools/pcm_update.py:328-366 | the written cache keeps a "path" in every record whenever the cache read did |
| PcmUpdate.RecordsFollowFiles | tools/pcm_update.py:347-366 | the i-th record's "path" is the i-th file, so sorted files give records sorted by path |
| PcmUpdate.BuildGraph | tools/pcm_update.py:238-251 | nodes are the sorted distinct declaring module names, edges the sorted distinct (module, dependency) pairs; an empty module list gives the empty graph |
| PcmUpdate.CollectEdges | tools/pcm_update.py:242-246 | the edge loops collect exactly the declared edges |
| PcmUpdate.AddEdges | tools/pcm_update.py:245-246 | the inner loop adds one edge from the module to each target |
| PcmUpdate.GraphIgnoresOrder | tools/pcm_update.py:238-251 | the graph depends only on which declarations occur, not on their order or repetition |
| PcmUpdate.CheckGraph | tools/pcm_update.py:259-274 | passes exactly when there are no modules or graph.json holds the expected graph; otherwise reports missing, invalid or stale |
| PcmUpdate.EntryFor | tools/pcm_update.py:289-297 | the entry has the path and each of suite, subjects and notes exactly when the override has the key, with its value |
| PcmUpdate.BuildTests | tools/pcm_update.py:277-298 | the loop builds exactly the expected test metadata |
| PcmUpdate.ExpectedTestsSpec | tools/pcm_update.py:277-298 | an entry per marked path whose record has kind "test", none for others, in increasing path order |
| PcmUpdate.EntriesForSound | tools/pcm_update.py:285-297 | every entry comes from a listed path that is a test file, with its override's fields |
| PcmUpdate.EntriesForComplete | tools/pcm_update.py:285-297 | every listed path that is a test file has an entry |
| PcmUpdate.NoOverridesNoTests | tools/pcm_update.py:278-279 | without overrides no test metadata is built |
| PcmUpdate.CheckTests | tools/pcm_update.py:313-325 | passes exactly when nothing is expected or tests.jsonl holds the expected lines; otherwise reports missing or stale |
| PcmUpdate.Check | tools/pcm_update.py:411-425 | exit 0 exactly when files.jsonl, graph.json (when there are modules) and tests.jsonl (when there are overrides) are up to date; every failing check reports; exit 0 iff there are no messages |
| PcmUpdate.FindPath | tools/pcm_update.py:436-440 | the first record describing the path, or the length when none does |
| PcmUpdate.ReplaceOrAppend | tools/pcm_update.py:435-442 | the splice loop as written: replace the record of tests.jsonl, or append it at the end |
| PcmUpdate.AppendedOutOfOrder | tools/pcm_update.py:441-442 | with records for `app/a.kt` only, the appended tests.jsonl record is out of path order |
| PcmUpdate.InsertionPoint | tools/pcm_update.py:436-440 | the first record describing the path or sorting after it |
| PcmUpdate.ReplaceOrInsert | tools/pcm_update.py:435-442 | the corrected splice loop: replace the record, or insert it at its sorted position |
| PcmUpdate.SplicedFollowsFiles | tools/pcm_update.py:427-444 | the corrected splice follows the sorted files with tests.jsonl added, and every other record is an old one |
| PcmUpdate.InsertIncreasing | tools/pcm_update.py:442 | inserting a path where it splits increasing files keeps them increasing and adds exactly that path |
| PcmUpdate.WithoutPath | tools/pcm_update.py:446-454 | the filter keeps exactly the records not describing the path |
| PcmUpdate.WithoutPathFollows | tools/pcm_update.py:446-454 | filtered records follow the files without that path, still increasing |
| PcmUpdate.Write | tools/pcm_update.py:393-458 | write mode: graph.json when there are modules, tests.jsonl or its removal, the records and the cache written are the write-mode functions of the inputs |
| PcmUpdate.WriteTests | tools/pcm_update.py:427-457 | the part after `collect_records`: tests.jsonl, then its refreshed record and cache entry, or their removal |
| PcmUpdate.LoadWrittenCache | tools/pcm_update.py:188-207 | `load_cache` reads back exactly the cache `write_cache` wrote |
| PcmUpdate.NextDiscoverable | tools/pcm_update.py:393-458 | after a write the next run's inputs are consistent and its cache is the one written |
| PcmUpdate.WrittenRecordsFollow | tools/pcm_update.py:427-456 | the written records follow the files the next run discovers, in its order |
| PcmUpdate.NextRunReadsWrittenRecords | tools/pcm_update.py:393-458 | the next run rebuilds, from the written cache, exactly the records written to files.jsonl, and hashes nothing |
| PcmUpdate.WriteThenCheckFilesAndGraph | tools/pcm_update.py:411-422 | after a write, the files and graph conditions of `--check` hold |
| NoteModel.CoveredPermutation | shared/src/commonMain/kotlin/com/edufelip/shared/domain/model/NoteContent.kt:34-38 | whether a style covers a position depends only on the multiset of spans, not their order |
| NoteModel.IndexOfId | composeApp/src/commonMain/kotlin/com/edufelip/shared/ui/editor/NoteEditorState.kt:107 | `indexOfFirst { it.id == id }`: the first block with the id, or -1 exactly when no block has it |
| NoteContentSummary.TextBlocks | shared/src/commonMain/kotlin/com/edufelip/shared/domain/model/NoteContentSummary.kt:11 | the text blocks of the list, in order, and all of them |
| NoteContentSummary.ImageBlocks | shared/src/commonMain/kotlin/com/edufelip/shared/domain/model/NoteContentSummary.kt:14 | the image blocks of the list, in order, and all of them |
| NoteContentSummary.AttachmentDownloadUrl | shared/src/commonMain/kotlin/com/edufelip/shared/domain/model/NoteContentSummary.kt:40 | the download URL is the storage path, else the legacy remote URI, else the legacy URI, else the local URI or "" |
| NoteContentSummary.AttachmentMetadataFirst | shared/src/commonMain/kotlin/com/edufelip/shared/domain/model/NoteContentSummary.kt:41-45 | MIME type, width and height come from the metadata first, then the block; the file name falls back to the alt text; the thumbnail to the thumbnail URI |
| NoteContentSummary.AttachmentCopies | shared/src/commonMain/kotlin/com/edufelip/shared/domain/model/NoteContentSummary.kt:46-52 | storage paths, local URI, sync state, size and timestamps are copied unchanged |
| NoteContentSummary.Attachments | shared/src/commonMain/kotlin/com/edufelip/shared/domain/model/NoteContentSummary.kt:14 | one attachment per image, in order |
| NoteContentSummary.EmptyContentSummary | shared/src/commonMain/kotlin/com/edufelip/shared/domain/model/NoteContentSummary.kt:10 | empty content summarises to an empty description, no spans and no attachments |
| NoteContentSummary.SummarySnocText | shared/src/commonMain/kotlin/com/edufelip/shared/domain/model/NoteContentSummary.kt:9-16 | appending a text block appends its text to the description, separated by a blank line after the first, and leaves the attachments |
| NoteContentSummary.SummarySnocImage | shared/src/commonMain/kotlin/com/edufelip/shared/domain/model/NoteContentSummary.kt:9-16 | appending an image block appends its attachment and leaves the description |
| NoteContentSummary.SpansFromFirstText | shared/src/commonMain/kotlin/com/edufelip/shared/domain/model/NoteContentSummary.kt:13 | the summary's spans are those of the first text block, whatever images precede it |
| NoteContentSummary.AttachmentIds | shared/src/commonMain/kotlin/com/edufelip/shared/domain/model/NoteContentSummary.kt:14 | the attachment ids are the image block ids, in order |
| NoteContentSummary.WithFallbacks | shared/src/commonMain/kotlin/com/edufelip/shared/domain/model/NoteContentSummary.kt:18-26 | each field falls back exactly when the computed one is blank or empty |
| NoteContentSummary.FallbacksKeepComputed | shared/src/commonMain/kotlin/com/edufelip/shared/domain/model/NoteContentSummary.kt:18-26 | a summary whose description is not blank and whose spans and attachments are not empty keeps all three, whatever stored fallbacks it is given |
| NoteContentSummary.WithSummary | shared/src/commonMain/kotlin/com/edufelip/shared/domain/model/NoteContentSummary.kt:28-32 | the note takes the summary's description, spans and attachments and keeps every other field |
| NoteContentSummary.WithSummaryFromContentIdempotent | shared/src/commonMain/kotlin/com/edufelip/shared/domain/model/NoteContentSummary.kt:34-36 | refreshing a note's summary from its content twice gives the same note as once |
| NoteContentOperations.NewCaret | shared/src/commonMain/kotlin/com/edufelip/shared/domain/model/NoteContentOperations.kt:7-15 | a caret exists exactly when both ends are non-negative |
| NoteContentOperations.CaretNormalized | shared/src/commonMain/kotlin/com/edufelip/shared/domain/model/NoteContentOperations.kt:17-19 | the normalised start is at most the normalised end, and the caret is a range exactly when its ends differ |
| NoteContentOperations.ClipRangeLoop | shared/src/commonMain/kotlin/com/edufelip/shared/domain/model/NoteContentOperations.kt:111-129 | the loop over spans yields exactly the clipped spans |
| NoteContentOperations.ClipRangeBounds | shared/src/commonMain/kotlin/com/edufelip/shared/domain/model/NoteContentOperations.kt:111-129 | every clipped span is non-empty and lies within the clipped range, shifted to start at 0 |
| NoteContentOperations.ClipRangeExact | shared/src/commonMain/kotlin/com/edufelip/shared/domain/model/NoteContentOperations.kt:111-129 | a style covers position p of the clipped text exactly when it covers position start + p of the original |
| NoteContentOperations.Drop | shared/src/commonMain/kotlin/com/edufelip/shared/domain/model/NoteContentOperations.kt:86 | `drop(n)`: the blocks from n on, or none when n exceeds the length |
| NoteContentOperations.InsertIntoEmpty | shared/src/commonMain/kotlin/com/edufelip/shared/domain/model/NoteContentOperations.kt:52-56 | an empty note becomes the image and an empty text block holding the caret |
| NoteContentOperations.InsertAtUnknownCaret | shared/src/commonMain/kotlin/com/edufelip/shared/domain/model/NoteContentOperations.kt:57-62 | a caret in no block appends the image and an empty text block; the earlier blocks stay |
| NoteContentOperations.SplitTextKeepsText | shared/src/commonMain/kotlin/com/edufelip/shared/domain/model/NoteContentOperations.kt:67-85 | the text before the clamped selection stays in the leading block (kept id when non-empty, a fresh empty block only at the start of the note) and the text after it goes to the trailing block, with spans clipped to each part |
| NoteContentOperations.InsertAtTextCaret | shared/src/commonMain/kotlin/com/edufelip/shared/domain/model/NoteContentOperations.kt:63-88 | a caret in a text block splits it around the selection with the image between, keeping every other block, and moves the caret to the start of the trailing block |
| NoteContentOperations.InsertAtStartOfNote | shared/src/commonMain/kotlin/com/edufelip/shared/domain/model/NoteContentOperations.kt:74-79 | a split at the very start of the first block leaves an empty text block above the image |
| NoteContentOperations.InsertAfterImageReusesText | shared/src/commonMain/kotlin/com/edufelip/shared/domain/model/NoteContentOperations.kt:91-102 | after an image followed by text, the image is inserted between them and the caret goes to that text block |
| NoteContentOperations.InsertAfterImageAddsText | shared/src/commonMain/kotlin/com/edufelip/shared/domain/model/NoteContentOperations.kt:91-102 | after an image not followed by text, the image and a fresh empty text block are inserted after it |
| NoteContentOperations.InsertSplitsHelloWorld | composeApp/src/commonTest/kotlin/com/edufelip/shared/ui/editor/NoteEditorStateTest.kt:13-28 | "Hello world" split after "Hello" gives "Hello", the image and " world", with the caret at the start of " world" |
| NoteEditor.ClampTo | composeApp/src/commonMain/kotlin/com/edufelip/shared/ui/editor/NoteEditorState.kt:587-591 | `clampTo(max)` gives 0 <= start <= end <= max, returns the same range exactly when it is already in bounds, and keeps each end that already fits |
| NoteEditor.NormalizedBlocks | composeApp/src/commonMain/kotlin/com/edufelip/shared/ui/editor/NoteEditorState.kt:560-564 | the result is non-empty and ends with a text block; it is the input exactly when the input already ends with text, otherwise the input plus one empty text block |
| NoteEditor.OffsetByCovered | composeApp/src/commonMain/kotlin/com/edufelip/shared/ui/editor/NoteEditorState.kt:593-599 | a style covers p + delta in the shifted spans exactly when it covers p in the original |
| NoteEditor.OffsetByTwice | composeApp/src/commonMain/kotlin/com/edufelip/shared/ui/editor/NoteEditorState.kt:593-599 | shifting by a then by b is shifting by a + b |
| NoteEditor.ChangedTextIndexSpec | composeApp/src/commonMain/kotlin/com/edufelip/shared/ui/editor/NoteEditorState.kt:107-110 | `onTextChanged` acts exactly when the id is present, its first block is text and the text differs; it then acts on that first block |
| NoteEditor.TextApplied | composeApp/src/commonMain/kotlin/com/edufelip/shared/ui/editor/NoteEditorState.kt:111 | only the first block with the id changes, to the new text, keeping ids, kinds and spans |
| NoteEditor.TextAppliedRoundTrip | composeApp/src/commonMain/kotlin/com/edufelip/shared/ui/editor/NoteEditorState.kt:473-483 | applying the after text and then the before text of a change restores the block list |
| NoteEditor.FieldTextChanged | composeApp/src/commonMain/kotlin/com/edufelip/shared/ui/editor/NoteEditorState.kt:112-119 | the field of the changed block takes the new text with its selection clamped, when it exists and differs; every other field stays |
| NoteEditor.MoveBlock | composeApp/src/commonMain/kotlin/com/edufelip/shared/ui/editor/NoteEditorState.kt:232-233 | `removeAt(from)` then `add(to, block)`: the block lands at `to` and the others keep their order |
| NoteEditor.MoveBlockPermutes | composeApp/src/commonMain/kotlin/com/edufelip/shared/ui/editor/NoteEditorState.kt:232-233 | moving a block keeps the multiset of blocks |
| NoteEditor.MoveTargetSpec | composeApp/src/commonMain/kotlin/com/edufelip/shared/ui/editor/NoteEditorState.kt:221-229 | no move exactly when delta is 0, the id is missing, the block is not an image or the clamped target is the current index; otherwise the image lands at clamp(index + delta, 0, lastIndex) and the blocks are a permutation |
| NoteEditor.MergedBlockSpec | composeApp/src/commonMain/kotlin/com/edufelip/shared/ui/editor/NoteEditorState.kt:347-357 | the merged block keeps the first id, its text is the first text followed by the second, and each position keeps the styles of the block it came from |
| NoteEditor.MergedAround | composeApp/src/commonMain/kotlin/com/edufelip/shared/ui/editor/NoteEditorState.kt:356-357 | the two text blocks are replaced by their merge and every other block keeps its place |
| NoteEditor.MergedAroundMembers | composeApp/src/commonMain/kotlin/com/edufelip/shared/ui/editor/NoteEditorState.kt:347-357 | merging keeps a text block, adds no id and, with distinct ids, removes the second block's id |
| NoteEditor.MergedCaret | composeApp/src/commonMain/kotlin/com/edufelip/shared/ui/editor/NoteEditorState.kt:365-375 | a caret in the second block moves into the merged block, shifted by the first text's length; any other caret stays |
| NoteEditor.MergedFields | composeApp/src/commonMain/kotlin/com/edufelip/shared/ui/editor/NoteEditorState.kt:358-380 | the second block's field goes; the merged block's field holds its text with a selection clamped to it; other fields stay |
| NoteEditor.RemovedBlocksMembers | composeApp/src/commonMain/kotlin/com/edufelip/shared/ui/editor/NoteEditorState.kt:294-306 | after a removal a text block remains, no id but the fresh one is added, and with distinct ids the removed id is gone |
| NoteEditor.RemovedImageJoinsText | composeApp/src/commonMain/kotlin/com/edufelip/shared/ui/editor/NoteEditorState.kt:300-303 | removing an image between two text blocks leaves one block joining their texts and styles |
| NoteEditor.RemovedTextBlock | composeApp/src/commonMain/kotlin/com/edufelip/shared/ui/editor/NoteEditorState.kt:300-306 | removing a text block while another remains only takes it out |
| NoteEditor.ValidSelection | composeApp/src/commonMain/kotlin/com/edufelip/shared/ui/editor/NoteEditorState.kt:405-410 | a selection naming no block is cleared, any other selection stays |
| NoteEditor.SelectionAfterRemoval | composeApp/src/commonMain/kotlin/com/edufelip/shared/ui/editor/NoteEditorState.kt:311-314 | the selection is cleared when it named the removed block or any block no longer present, and kept otherwise |
| NoteEditor.ImageBeforeSpec | composeApp/src/commonMain/kotlin/com/edufelip/shared/ui/editor/NoteEditorState.kt:336-345 | `removeImageBefore` refuses exactly when the id is missing, names the first block or follows a non-image; otherwise, with distinct ids, it removes exactly that image |
| NoteEditor.LastTextIndex | composeApp/src/commonMain/kotlin/com/edufelip/shared/ui/editor/NoteEditorState.kt:397 | the index of the last text block, or -1 exactly when there is none |
| NoteEditor.DefaultCaretOf | composeApp/src/commonMain/kotlin/com/edufelip/shared/ui/editor/NoteEditorState.kt:396-403 | a collapsed caret at the end of the last text block, after appending an empty text block when there is none |
| NoteEditor.BoundedCaretSpec | composeApp/src/commonMain/kotlin/com/edufelip/shared/ui/editor/NoteEditorState.kt:383-394 | the bounded caret is absent exactly when there was none, lies in a text block, keeps the list when it has text, leaves an in-bounds caret alone and keeps the block of a caret already in a text block |
| NoteEditor.FieldFor | composeApp/src/commonMain/kotlin/com/edufelip/shared/ui/editor/NoteEditorState.kt:436-445 | a text block's field gets the block's text: created collapsed at the end, or updated with a clamped selection, or kept when the text is equal |
| NoteEditor.RefreshedFields | composeApp/src/commonMain/kotlin/com/edufelip/shared/ui/editor/NoteEditorState.kt:426-447 | after the refresh there is a field exactly for each text block |
| NoteEditor.RefreshedFieldsTexts | composeApp/src/commonMain/kotlin/com/edufelip/shared/ui/editor/NoteEditorState.kt:426-447 | each field holds its block's text with a selection inside it |
| NoteEditor.KeepLast | composeApp/src/commonMain/kotlin/com/edufelip/shared/ui/editor/NoteEditorState.kt:525-529 | at most n entries: the whole stack when it fits, otherwise its last n |
| NoteEditor.TrimStackIfNeeded | composeApp/src/commonMain/kotlin/com/edufelip/shared/ui/editor/NoteEditorState.kt:525-529 | the loop leaves exactly the last `MAX_HISTORY` operations |
| NoteEditor.RecordedSpec | composeApp/src/commonMain/kotlin/com/edufelip/shared/ui/editor/NoteEditorState.kt:459-468 | recording either replaces the top by its merge with the new operation, or pushes the operation on top of the most recent entries; the stack stays within `MAX_HISTORY` |
| NoteEditor.StacksBounded | composeApp/src/commonMain/kotlin/com/edufelip/shared/ui/editor/NoteEditorState.kt:497-523 | both stacks stay within `MAX_HISTORY`; undo and redo move exactly the top operation to the other stack |
| NoteEditor.UndoRedoStacks | composeApp/src/commonMain/kotlin/com/edufelip/shared/ui/editor/NoteEditorState.kt:497-523 | redo after undo, and undo after redo, give back both stacks while the receiving stack has room |
| NoteEditor.SameAsSpec | composeApp/src/commonMain/kotlin/com/edufelip/shared/ui/editor/NoteEditorState.kt:566-585 | `sameAs` is reflexive, and lists that are `sameAs` agree on every text block and on the ids and kinds of all blocks |
| NoteEditor.SetContentOfCurrent | composeApp/src/commonMain/kotlin/com/edufelip/shared/ui/editor/NoteEditorState.kt:85-99 | setting the content to the editor's own content changes nothing |
| NoteEditor.TextChangeKeepsValues | composeApp/src/commonMain/kotlin/com/edufelip/shared/ui/editor/NoteEditorState.kt:101-131 | a text change keeps the editor's invariants: a text block exists, fields match the text blocks, the caret fits and the selection names a block |
| NoteEditor.MoveKeepsValues | composeApp/src/commonMain/kotlin/com/edufelip/shared/ui/editor/NoteEditorState.kt:221-246 | a move keeps the same invariants |
| NoteEditor.NoteEditorState.constructor | composeApp/src/commonMain/kotlin/com/edufelip/shared/ui/editor/NoteEditorState.kt:47-49 | the editor starts with the normalised initial blocks, fresh fields, no caret, no selection and empty history |
| NoteEditor.NoteEditorState.SetContent | composeApp/src/commonMain/kotlin/com/edufelip/shared/ui/editor/NoteEditorState.kt:85-99 | nothing changes when the content is empty and the list is a single empty text block, or when the normalised content is `sameAs` the list; otherwise the list is replaced, fields refreshed, selection validated and caret bounded |
| NoteEditor.NoteEditorState.OnTextChanged | composeApp/src/commonMain/kotlin/com/edufelip/shared/ui/editor/NoteEditorState.kt:101-131 | a no-op recording nothing when the id is missing, not text or unchanged; otherwise the text and field change and a text operation with the given or default selections is recorded, clearing redo |
| NoteEditor.NoteEditorState.MoveBlockBy | composeApp/src/commonMain/kotlin/com/edufelip/shared/ui/editor/NoteEditorState.kt:221-246 | returns false and changes nothing in the four refusal cases; otherwise moves the image to the clamped target, refreshes fields and records a content operation, clearing redo |
| NoteEditor.NoteEditorState.RemoveBlockById | composeApp/src/commonMain/kotlin/com/edufelip/shared/ui/editor/NoteEditorState.kt:294-327 | returns whether the id was present, and changes nothing when it was not; on removal the list is the removed list, the text fields are refreshed from the joined fields, the caret is the joined caret bounded into a text block, focus on a joined text moves to the merged block, the selection is cleared as required, the content replacement is recorded and redo is cleared; the invariant is kept |
| NoteEditor.RemovalKeepsValues | composeApp/src/commonMain/kotlin/com/edufelip/shared/ui/editor/NoteEditorState.kt:294-315 | the values after a removal keep the editor's invariant: a text block exists, the fields match the text blocks, the caret is well formed and the selection names a block |
| NoteEditor.JoinedCaret | composeApp/src/commonMain/kotlin/com/edufelip/shared/ui/editor/NoteEditorState.kt:365-375 | the caret stays present or absent, stays well formed, and moves only when an image between two texts was removed |
| NoteEditor.JoinedFocus | composeApp/src/commonMain/kotlin/com/edufelip/shared/ui/editor/NoteEditorState.kt:359-364 | the focus changes only when an image between two texts was removed and the later text had it, and then it moves to the earlier text |
| NoteEditor.NoteEditorState.RemoveImageBefore | composeApp/src/commonMain/kotlin/com/edufelip/shared/ui/editor/NoteEditorState.kt:336-345 | removes the image right before the block exactly when there is one, and otherwise changes nothing; a removal has every effect that `removeBlockById` has on that image: list, text fields, caret, focus, selection, undo and redo |
| NoteEditor.NoteEditorState.MergeTextBlocksAround | composeApp/src/commonMain/kotlin/com/edufelip/shared/ui/editor/NoteEditorState.kt:347-381 | no change unless text blocks sit at gap - 1 and gap; otherwise they are merged, and caret, fields, focus and pending focus follow the merged block |
| NoteEditor.NoteEditorState.EnsureCaretWithinBounds | composeApp/src/commonMain/kotlin/com/edufelip/shared/ui/editor/NoteEditorState.kt:383-394 | the list and caret become the bounded ones; fields are refreshed only when a block was added |
| NoteEditor.NoteEditorState.DefaultCaret | composeApp/src/commonMain/kotlin/com/edufelip/shared/ui/editor/NoteEditorState.kt:396-403 | the default caret, appending and refreshing only when there is no text block |
| NoteEditor.NoteEditorState.EnsureSelectedImageIsValid | composeApp/src/commonMain/kotlin/com/edufelip/shared/ui/editor/NoteEditorState.kt:405-410 | the selection becomes the valid selection |
| NoteEditor.NoteEditorState.RefreshTextFieldState | composeApp/src/commonMain/kotlin/com/edufelip/shared/ui/editor/NoteEditorState.kt:426-447 | the fields become the refreshed fields, matching the text blocks |
| NoteEditor.NoteEditorState.RecordOperation | composeApp/src/commonMain/kotlin/com/edufelip/shared/ui/editor/NoteEditorState.kt:459-471 | nothing while history is suppressed; otherwise the undo stack is the recorded one, redo is cleared and the flags follow the stacks |
| NoteEditor.NoteEditorState.ApplyTextChangeFromHistory | composeApp/src/commonMain/kotlin/com/edufelip/shared/ui/editor/NoteEditorState.kt:473-483 | the block's text is replaced, its field takes the text with the clamped selection and the caret follows |
| NoteEditor.NoteEditorState.ReplaceContentFromHistory | composeApp/src/commonMain/kotlin/com/edufelip/shared/ui/editor/NoteEditorState.kt:485-495 | the list is the normalised snapshot, fields refreshed, caret bounded, focus and pending focus on the snapshot's block, no selected image |
| NoteEditor.NoteEditorState.Undo | composeApp/src/commonMain/kotlin/com/edufelip/shared/ui/editor/NoteEditorState.kt:497-509 | false and no change on an empty stack; otherwise the top operation is undone and moved to the redo stack |
| NoteEditor.NoteEditorState.Redo | composeApp/src/commonMain/kotlin/com/edufelip/shared/ui/editor/NoteEditorState.kt:511-523 | false and no change on an empty stack; otherwise the top operation is redone and moved to the undo stack |
| NoteEditor.NoteEditorState.UpdateHistoryFlags | composeApp/src/commonMain/kotlin/com/edufelip/shared/ui/editor/NoteEditorState.kt:531-534 | `canUndo` and `canRedo` mirror the non-emptiness of the stacks |
| NoteDetailScreen.CommitSpec | shared/src/commonMain/kotlin/com/edufelip/shared/ui/nav/screens/NoteDetailScreen.kt:379-391 | a commit keeps the current index on a stored snapshot and the history within `maxSize`, makes the committed snapshot current, changes nothing when it repeats the current snapshot and otherwise leaves nothing to redo |
| NoteDetailScreen.CommitDropsRedoTail | shared/src/commonMain/kotlin/com/edufelip/shared/ui/nav/screens/NoteDetailScreen.kt:382-390 | a new snapshot is appended after exactly the snapshots up to the current one; when that exceeds `maxSize` the oldest snapshot is dropped |
| NoteDetailScreen.UndoAfterCommit | shared/src/commonMain/kotlin/com/edufelip/shared/ui/nav/screens/NoteDetailScreen.kt:379-403 | with room for two snapshots, undo after a fresh commit returns the snapshot that was current before it and redo then restores the commit |
| NoteDetailScreen.UndoRedoSpec | shared/src/commonMain/kotlin/com/edufelip/shared/ui/nav/screens/NoteDetailScreen.kt:393-407 | undo and redo keep the history valid, do nothing when they cannot move, and each undoes the other when it can move |
| NoteDetailScreen.EditorHistory.constructor | shared/src/commonMain/kotlin/com/edufelip/shared/ui/nav/screens/NoteDetailScreen.kt:370-377 | a new history holds only the initial snapshot, with the current index on it |
| NoteDetailScreen.EditorHistory.Commit | shared/src/commonMain/kotlin/com/edufelip/shared/ui/nav/screens/NoteDetailScreen.kt:379-391 | the snapshots and current index become the committed history and stay valid |
| NoteDetailScreen.EditorHistory.Undo | shared/src/commonMain/kotlin/com/edufelip/shared/ui/nav/screens/NoteDetailScreen.kt:393-397 | the state steps back when it can, and the returned snapshot is the current one afterwards |
| NoteDetailScreen.EditorHistory.Redo | shared/src/commonMain/kotlin/com/edufelip/shared/ui/nav/screens/NoteDetailScreen.kt:399-403 | the state steps forward when it can, and the returned snapshot is the current one afterwards |
| NoteDetailScreen.EditorHistory.CanUndoNow | shared/src/commonMain/kotlin/com/edufelip/shared/ui/nav/screens/NoteDetailScreen.kt:405 | true exactly when the current index is past the first snapshot |
| NoteDetailScreen.EditorHistory.CanRedoNow | shared/src/commonMain/kotlin/com/edufelip/shared/ui/nav/screens/NoteDetailScreen.kt:407 | true exactly when the current index is before the last snapshot |
| NoteDetailScreen.SanitizeSpans | shared/src/commonMain/kotlin/com/edufelip/shared/ui/nav/screens/NoteDetailScreen.kt:433-437 | no more spans than given, and each kept span is non-empty and lies inside the text |
| NoteDetailScreen.SanitizeSpansKeepsStyling | shared/src/commonMain/kotlin/com/edufelip/shared/ui/nav/screens/NoteDetailScreen.kt:433-437 | at every position inside the text a style is applied after sanitizing exactly when it was applied before |
| NoteDetailScreen.MergeSpansLoop | shared/src/commonMain/kotlin/com/edufelip/shared/ui/nav/screens/NoteDetailScreen.kt:439-452 | the loop over the spans sorted by style and start produces the merged spans `MergeSpans` defines |
| NoteDetailScreen.MergeSortedLength | shared/src/commonMain/kotlin/com/edufelip/shared/ui/nav/screens/NoteDetailScreen.kt:442-451 | the merge loop never yields more spans than it reads |
| NoteDetailScreen.MergeSortedOrder | shared/src/commonMain/kotlin/com/edufelip/shared/ui/nav/screens/NoteDetailScreen.kt:442-451 | on input sorted by style and start the output stays sorted, and consecutive spans of one style are separated by a gap |
| NoteDetailScreen.MergeSortedCoverage | shared/src/commonMain/kotlin/com/edufelip/shared/ui/nav/screens/NoteDetailScreen.kt:442-451 | on sorted input the merged spans style exactly the positions, per style, that the input styles |
| NoteDetailScreen.MergeSpansSpec | shared/src/commonMain/kotlin/com/edufelip/shared/ui/nav/screens/NoteDetailScreen.kt:439-452 | the result has no more spans than the input, is sorted by style then start, has no touching or overlapping spans of one style, and styles exactly what the input styles |
| NoteDetailScreen.FirstCovering | shared/src/commonMain/kotlin/com/edufelip/shared/ui/nav/screens/NoteDetailScreen.kt:463-464 | the index of the first span of the style that covers the whole range, with no earlier one, or -1 exactly when none does |
| NoteDetailScreen.RemoveFirst | shared/src/commonMain/kotlin/com/edufelip/shared/ui/nav/screens/NoteDetailScreen.kt:466 | removing a value that is not in the list leaves the list unchanged |
| NoteDetailScreen.RemoveFirstAt | shared/src/commonMain/kotlin/com/edufelip/shared/ui/nav/screens/NoteDetailScreen.kt:466 | removing the value at index `i`, when no earlier element equals it, removes exactly that element |
| NoteDetailScreen.ToggleEmptyRange | shared/src/commonMain/kotlin/com/edufelip/shared/ui/nav/screens/NoteDetailScreen.kt:460-462 | an empty range returns the spans unchanged |
| NoteDetailScreen.ToggleAddsStyle | shared/src/commonMain/kotlin/com/edufelip/shared/ui/nav/screens/NoteDetailScreen.kt:464-477 | with no span of the style covering the range, the range is appended as one new span and the styled positions grow by exactly the range |
| NoteDetailScreen.ToggleRemovesCovering | shared/src/commonMain/kotlin/com/edufelip/shared/ui/nav/screens/NoteDetailScreen.kt:464-475 | with a covering span, the result styles what the other spans style plus the parts of that span outside the range |
| NoteDetailScreen.NormalizeOrders | shared/src/commonMain/kotlin/com/edufelip/shared/ui/nav/screens/NoteDetailScreen.kt:525 | same blocks in the same order, each block's order set to its index and nothing else changed |
| NoteDetailScreen.NormalizeOrdersIdempotent | shared/src/commonMain/kotlin/com/edufelip/shared/ui/nav/screens/NoteDetailScreen.kt:525 | normalizing twice is normalizing once |
| NoteDetailScreen.FirstTextIndex | shared/src/commonMain/kotlin/com/edufelip/shared/ui/nav/screens/NoteDetailScreen.kt:533 | the index of the first TEXT block with no TEXT block before it, or -1 exactly when there is none |
| NoteDetailScreen.OtherBlocks | shared/src/commonMain/kotlin/com/edufelip/shared/ui/nav/screens/NoteDetailScreen.kt:556-558 | all blocks except the first TEXT block, in their order |
| NoteDetailScreen.UpdateTextBlockFront | shared/src/commonMain/kotlin/com/edufelip/shared/ui/nav/screens/NoteDetailScreen.kt:527-563 | the result starts with a TEXT block holding the new text at order 0, keeping the first text block's id and other metadata keys (or a fresh id and no other keys), with the spans' entry present exactly when there are spans |
| NoteDetailScreen.UpdateTextBlockRest | shared/src/commonMain/kotlin/com/edufelip/shared/ui/nav/screens/NoteDetailScreen.kt:556-562 | after the text block come the other blocks in their original order, every block numbered by its index |
| NoteDetailScreen.SpansEntryFixed | shared/src/commonMain/kotlin/com/edufelip/shared/ui/nav/screens/NoteDetailScreen.kt:536-543 | writing the spans' entry into metadata that already holds it, or removing it when absent, leaves the metadata unchanged |
| NoteDetailScreen.UpdateTextBlockContentIdempotent | shared/src/commonMain/kotlin/com/edufelip/shared/ui/nav/screens/NoteDetailScreen.kt:527-563 | writing the same text and spans a second time changes nothing |
| NoteDetailScreen.UpdateSettledBlocks | shared/src/commonMain/kotlin/com/edufelip/shared/ui/nav/screens/NoteDetailScreen.kt:527-563 | blocks already led by the text block with this text and spans' entry, and numbered in order, are returned unchanged |
| AppState.IsTab | composeApp/src/commonMain/kotlin/com/edufelip/shared/ui/app/state/AmazingNoteAppState.kt:102 | a route is a tab exactly when it is Notes, Folders or Settings |
| AppState.AmazingNoteAppState.BottomBarTargetVisible | composeApp/src/commonMain/kotlin/com/edufelip/shared/ui/app/state/AmazingNoteAppState.kt:49-50 | the bottom bar should show exactly when it is enabled and the current route is a tab |
| AppState.AmazingNoteAppState.TopBarVisible | composeApp/src/commonMain/kotlin/com/edufelip/shared/ui/app/state/AmazingNoteAppState.kt:59-60 | with the bottom bar enabled the top bar follows it; otherwise it shows exactly on tab routes |
| AppState.AmazingNoteAppState.constructor | composeApp/src/commonMain/kotlin/com/edufelip/shared/ui/app/state/AmazingNoteAppState.kt:25-47 | the stack is the initial route, and the bar is shown exactly when it is enabled and that route is a tab |
| AppState.AmazingNoteAppState.RefreshBottomBarVisibility | composeApp/src/commonMain/kotlin/com/edufelip/shared/ui/app/state/AmazingNoteAppState.kt:55-57 | the bar takes its target visibility; the stack, theme and reported routes stay |
| AppState.AmazingNoteAppState.Navigate | composeApp/src/commonMain/kotlin/com/edufelip/shared/ui/app/state/AmazingNoteAppState.kt:62-66 | the route is pushed unless single-top and already current; it becomes the current route, is reported, and the bar follows it |
| AppState.AmazingNoteAppState.PopBack | composeApp/src/commonMain/kotlin/com/edufelip/shared/ui/app/state/AmazingNoteAppState.kt:68-75 | returns true exactly when the stack had more than one route; then the top is removed, the new current route reported and the bar refreshed; otherwise nothing changes |
| AppState.AmazingNoteAppState.PopToRoot | composeApp/src/commonMain/kotlin/com/edufelip/shared/ui/app/state/AmazingNoteAppState.kt:77-81 | only the first route remains and it is reported |
| AppState.AmazingNoteAppState.SetRoot | composeApp/src/commonMain/kotlin/com/edufelip/shared/ui/app/state/AmazingNoteAppState.kt:83-87 | the stack becomes exactly the destination, which is reported |
| AppState.AmazingNoteAppState.ToggleTheme | composeApp/src/commonMain/kotlin/com/edufelip/shared/ui/app/state/AmazingNoteAppState.kt:89-92 | the theme takes the given value, or flips when none is given; navigation is untouched |
| AppState.AmazingNoteAppState.SetBottomBarVisibility | composeApp/src/commonMain/kotlin/com/edufelip/shared/ui/app/state/AmazingNoteAppState.kt:94-100 | a disabled bar stays hidden; an enabled one takes the requested visibility |
| AppState.TopBarShowsOnTabs | composeApp/src/commonMain/kotlin/com/edufelip/shared/ui/app/state/AmazingNoteAppState.kt:59-60 | once the bar is settled, the top bar shows exactly on tab routes whether or not the bottom bar is enabled |
| AppState.NavigationScenario | composeApp/src/commonTest/kotlin/com/edufelip/shared/ui/app/state/AmazingNoteAppStateTest.kt:35-64 | navigating to Folders gives [Notes, Folders], popping gives [Notes], and setting the root after two navigations gives [Settings] |
| AppState.ThemeScenario | composeApp/src/commonTest/kotlin/com/edufelip/shared/ui/app/state/AmazingNoteAppStateTest.kt:66-84 | setting the theme off and then toggling with no value turns it back on |
| AuthValidation.LowercaseKeepsMatch | shared/src/commonMain/kotlin/com/edufelip/shared/domain/validation/AuthValidation.kt:3 | the pattern ignores case, so an address that matches still matches once lower-cased |
| AuthValidation.ValidateEmail | shared/src/commonMain/kotlin/com/edufelip/shared/domain/validation/AuthValidation.kt:52-62 | REQUIRED exactly for blank input, INVALID_FORMAT exactly for non-blank input whose trimmed text misses the pattern; a valid result holds the lower-cased trimmed text, which matches, and an invalid one the trimmed text |
| AuthValidation.ValidateEmailIdempotent | shared/src/commonMain/kotlin/com/edufelip/shared/domain/validation/AuthValidation.kt:52-62 | validating the sanitized address again gives the same result |
| AuthValidation.LowercaseIdempotent | shared/src/commonMain/kotlin/com/edufelip/shared/domain/validation/AuthValidation.kt:58 | lower-casing twice is lower-casing once |
| AuthValidation.FirstViolationSpec | shared/src/commonMain/kotlin/com/edufelip/shared/domain/validation/AuthValidation.kt:64-85 | the first broken rule of a list is absent exactly when no rule is broken, and otherwise is broken while every earlier rule holds |
| AuthValidation.Rank | shared/src/commonMain/kotlin/com/edufelip/shared/domain/validation/AuthValidation.kt:24-31 | each password error has its place in the order in which the rules are checked |
| AuthValidation.PasswordRulesInOrder | shared/src/commonMain/kotlin/com/edufelip/shared/domain/validation/AuthValidation.kt:64-85 | the first broken rule over the ordered list is the chain of checks: empty, shorter than 8, no upper-case, no lower-case, no digit, no symbol |
| AuthValidation.ValidatePassword | shared/src/commonMain/kotlin/com/edufelip/shared/domain/validation/AuthValidation.kt:64-85 | the sanitized text is the trimmed input and the error is the first broken rule in check order |
| AuthValidation.AcceptedPasswordIsStrong | shared/src/commonMain/kotlin/com/edufelip/shared/domain/validation/AuthValidation.kt:64-85 | an accepted password has at least 8 characters and an upper-case letter, a lower-case letter, a digit and a symbol |
| AuthValidation.RejectedPasswordReportsFirstRule | shared/src/commonMain/kotlin/com/edufelip/shared/domain/validation/AuthValidation.kt:64-85 | a rejected password breaks the reported rule and none of the rules checked before it |
| AuthValidation.ValidatePasswordIdempotent | shared/src/commonMain/kotlin/com/edufelip/shared/domain/validation/AuthValidation.kt:64-85 | validating the sanitized password again gives the same result |
| AuthValidation.ValidatePasswordConfirmation | shared/src/commonMain/kotlin/com/edufelip/shared/domain/validation/AuthValidation.kt:87-97 | the sanitized confirmation is trimmed; REQUIRED exactly when it is blank, MISMATCH exactly when its trimmed text differs from the password |
| AuthValidation.ConfirmationTrimsOnlyConfirmation | shared/src/commonMain/kotlin/com/edufelip/shared/domain/validation/AuthValidation.kt:87-97 | the password is compared untrimmed: an accepted confirmation equals it, and a password with surrounding blanks is never confirmed |
| AuthValidation.PaddedConfirmationAccepted | shared/src/commonMain/kotlin/com/edufelip/shared/domain/validation/AuthValidation.kt:87-97 | a confirmation padded with spaces around a trimmed password is accepted |
| AuthValidators.ValidateEmail | composeApp/src/commonMain/kotlin/com/edufelip/shared/ui/util/validation/AuthValidators.kt:33-43 | the UI copy: REQUIRED exactly for blank input, INVALID_FORMAT exactly when the trimmed text misses the pattern, a valid result lower-cased and matching |
| AuthValidators.ValidatePassword | composeApp/src/commonMain/kotlin/com/edufelip/shared/ui/util/validation/AuthValidators.kt:45-66 | the UI copy: trimmed text; valid exactly when no rule is broken; otherwise the reported error is a broken rule with every earlier rule kept |
| AuthValidators.ValidationIdempotent | composeApp/src/commonMain/kotlin/com/edufelip/shared/ui/util/validation/AuthValidators.kt:33-66 | validating the sanitized e-mail or password again gives the same result |
| AttachmentProcessor.CalculateInSampleSize | composeApp/src/androidMain/kotlin/com/edufelip/shared/ui/attachments/AttachmentProcessor.android.kt:138-153 | the factor is a power of two within Int, 1 when the original fits the request; otherwise the halved dimensions divided by half the factor still reach the request and divided by the factor do not |
| AttachmentProcessor.SelectFormat | composeApp/src/androidMain/kotlin/com/edufelip/shared/ui/attachments/AttachmentProcessor.android.kt:155-159 | PNG with image/png and png exactly when the bitmap has alpha, else JPEG with image/jpeg and jpg |
| AuthViewModel.FirstNonBlankSpec | composeApp/src/commonMain/kotlin/com/edufelip/shared/ui/vm/AuthViewModel.kt:281-289 | the first non-blank message walk returns nothing exactly when no error on the chain has text, and otherwise the message of the first one that has |
| AuthViewModel.AnyFromSpec | composeApp/src/commonMain/kotlin/com/edufelip/shared/ui/vm/AuthViewModel.kt:311-321 | walking the cause chain until a test passes succeeds exactly when some error on the chain passes it |
| AuthViewModel.MatchesSpec | composeApp/src/commonMain/kotlin/com/edufelip/shared/ui/vm/AuthViewModel.kt:311-321 | `messageMatches` holds exactly when some message on the chain contains a hint |
| AuthViewModel.NameHitsSpec | composeApp/src/commonMain/kotlin/com/edufelip/shared/ui/vm/AuthViewModel.kt:293-309 | the class-name walk holds exactly when some class name on the chain contains network, timeout or ioexception |
| AuthViewModel.FirstNonBlankMessage | composeApp/src/commonMain/kotlin/com/edufelip/shared/ui/vm/AuthViewModel.kt:281-289 | the loop returns the first non-blank message of the chain |
| AuthViewModel.MessageMatches | composeApp/src/commonMain/kotlin/com/edufelip/shared/ui/vm/AuthViewModel.kt:311-321 | the loop returns whether a message on the chain contains a hint |
| AuthViewModel.IsInvalidCredentialError | composeApp/src/commonMain/kotlin/com/edufelip/shared/ui/vm/AuthViewModel.kt:291 | an error is an invalid-credential error when a message on its chain contains an invalid-credential hint |
| AuthViewModel.IsNetworkError | composeApp/src/commonMain/kotlin/com/edufelip/shared/ui/vm/AuthViewModel.kt:293-309 | an error is a network error when a message contains a network hint or a class name is network-like |
| AuthViewModel.ResolveError | composeApp/src/commonMain/kotlin/com/edufelip/shared/ui/vm/AuthViewModel.kt:191-199 | InvalidCredentials exactly when a message hits an invalid-credential hint; Network exactly when none does and a network hint or name hits; a custom error carries the first non-blank message; the generic error exactly when nothing applies |
| AuthViewModel.EmailErrorMessage | composeApp/src/commonMain/kotlin/com/edufelip/shared/ui/vm/AuthViewModel.kt:245-249 | every e-mail error has a message, and no error has none |
| AuthViewModel.PasswordErrorMessage | composeApp/src/commonMain/kotlin/com/edufelip/shared/ui/vm/AuthViewModel.kt:251-260 | every password error has a message, and no error has none |
| AuthViewModel.PasswordMessages | composeApp/src/commonMain/kotlin/com/edufelip/shared/ui/vm/AuthViewModel.kt:251-260 | the four character-class errors share one message, distinct from the required and too-short messages; the too-short message names the validator's minimum length |
| AuthViewModel.ConfirmationErrorMessage | composeApp/src/commonMain/kotlin/com/edufelip/shared/ui/vm/AuthViewModel.kt:274-278 | every confirmation error has a message, and no error has none |
| AuthViewModel.ErrorFor | composeApp/src/commonMain/kotlin/com/edufelip/shared/ui/vm/AuthViewModel.kt:201-228 | a message becomes a custom error, no message the generic validation error |
| AuthViewModel.ValidateCredentials | composeApp/src/commonMain/kotlin/com/edufelip/shared/ui/vm/AuthViewModel.kt:69-71 | the credentials are validated as the e-mail and password validators do |
| AuthViewModel.CredentialFailureShowsMessage | composeApp/src/commonMain/kotlin/com/edufelip/shared/ui/vm/AuthViewModel.kt:201-228 | an invalid credential pair always shows a custom message, the e-mail's when the e-mail is invalid |
| AuthViewModel.AuthViewModel.constructor | composeApp/src/commonMain/kotlin/com/edufelip/shared/ui/vm/AuthViewModel.kt:48-59 | no user, unresolved, not loading, no error and no events |
| AuthViewModel.AuthViewModel.OnCurrentUser | composeApp/src/commonMain/kotlin/com/edufelip/shared/ui/vm/AuthViewModel.kt:53-58 | each observed user is stored and marks the user as resolved; nothing else changes |
| AuthViewModel.AuthViewModel.ClearError | composeApp/src/commonMain/kotlin/com/edufelip/shared/ui/vm/AuthViewModel.kt:61-63 | the error is cleared and nothing else changes |
| AuthViewModel.AuthViewModel.SetError | composeApp/src/commonMain/kotlin/com/edufelip/shared/ui/vm/AuthViewModel.kt:65-67 | the error becomes the custom message and nothing else changes |
| AuthViewModel.AuthViewModel.SetLoading | composeApp/src/commonMain/kotlin/com/edufelip/shared/ui/vm/AuthViewModel.kt:183-185 | loading starts and the error is cleared |
| AuthViewModel.AuthViewModel.PublishError | composeApp/src/commonMain/kotlin/com/edufelip/shared/ui/vm/AuthViewModel.kt:191-199 | a cancellation is rethrown and leaves the state; any other error is resolved and stored |
| AuthViewModel.AuthViewModel.HandleCredentialValidationFailure | composeApp/src/commonMain/kotlin/com/edufelip/shared/ui/vm/AuthViewModel.kt:201-228 | an invalid e-mail shows its message, otherwise the password's; nothing else changes |
| AuthViewModel.AuthViewModel.HandleEmailValidationFailure | composeApp/src/commonMain/kotlin/com/edufelip/shared/ui/vm/AuthViewModel.kt:230-243 | the e-mail error's message is shown |
| AuthViewModel.AuthViewModel.HandlePasswordConfirmationFailure | composeApp/src/commonMain/kotlin/com/edufelip/shared/ui/vm/AuthViewModel.kt:262-272 | the confirmation error's message is shown |
| AuthViewModel.AuthViewModel.LoginWithEmail | composeApp/src/commonMain/kotlin/com/edufelip/shared/ui/vm/AuthViewModel.kt:69-88 | ignored while loading; invalid credentials launch nothing and show the e-mail error's message when the e-mail is invalid, and otherwise the password error's; valid ones start loading and launch a login with the sanitized values |
| AuthViewModel.AuthViewModel.SignInWithGoogleToken | composeApp/src/commonMain/kotlin/com/edufelip/shared/ui/vm/AuthViewModel.kt:101-125 | ignored while loading; a blank id token shows the missing-token message; otherwise loading starts and the exchange is launched |
| AuthViewModel.AuthViewModel.SignUp | composeApp/src/commonMain/kotlin/com/edufelip/shared/ui/vm/AuthViewModel.kt:127-162 | ignored while loading; invalid credentials show the e-mail error's message when the e-mail is invalid, and otherwise the password error's; a bad confirmation shows its message; otherwise loading starts and the sign-up is launched with the sanitized values |
| AuthViewModel.AuthViewModel.SendPasswordReset | composeApp/src/commonMain/kotlin/com/edufelip/shared/ui/vm/AuthViewModel.kt:164-181 | ignored while loading; an invalid address shows its message; otherwise loading starts and the reset is launched for the sanitized address |
| AuthViewModel.AuthViewModel.Logout | composeApp/src/commonMain/kotlin/com/edufelip/shared/ui/vm/AuthViewModel.kt:90-99 | logout is always launched |
| AuthViewModel.AuthViewModel.Complete | composeApp/src/commonMain/kotlin/com/edufelip/shared/ui/vm/AuthViewModel.kt:69-181 | success emits the request's event (sign-up renames the user, logout clears user and error); failure publishes the resolved error; loading stops except after a cancellation or a failed logout |
| SyncHash.MixLong | shared/src/commonMain/kotlin/com/edufelip/shared/data/sync/NotesSyncManager.kt:540-548 | the eight-round loop folds the eight bytes of the value into the hash, least significant first |
| SyncHash.MixText | shared/src/commonMain/kotlin/com/edufelip/shared/data/sync/NotesSyncManager.kt:550-557 | the loop folds in every character code, then the terminator 0xFF |
| SyncHash.MixItemsLoop | shared/src/commonMain/kotlin/com/edufelip/shared/data/sync/NotesSyncManager.kt:560-607 | folding a note's or folder's values one call at a time gives the hash of the whole sequence of values |
| SyncHash.ComputeNoteListHash | shared/src/commonMain/kotlin/com/edufelip/shared/data/sync/NotesSyncManager.kt:537-610 | the loop over the notes sorted stably by id computes the 64-bit FNV-1a note-list hash with wrap-around |
| SyncHash.ComputeFolderListHash | shared/src/commonMain/kotlin/com/edufelip/shared/data/sync/NotesSyncManager.kt:505-535 | the loop over the folders sorted stably by id computes the folder-list hash |
| SyncHash.ComputeCombinedHash | shared/src/commonMain/kotlin/com/edufelip/shared/data/sync/NotesSyncManager.kt:499-503 | the combined hash is the XOR of the note-list and folder-list hashes |
| SyncHash.NoteListHashOrderFree | shared/src/commonMain/kotlin/com/edufelip/shared/data/sync/NotesSyncManager.kt:558-559 | when an id stands for one note, any reordering of the note list hashes the same |
| SyncHash.FolderListHashOrderFree | shared/src/commonMain/kotlin/com/edufelip/shared/data/sync/NotesSyncManager.kt:505-535 | when an id stands for one folder, any reordering of the folder list hashes the same |
| SyncHash.CombinedHashOrderFree | shared/src/commonMain/kotlin/com/edufelip/shared/data/sync/NotesSyncManager.kt:499-503 | reordering either list leaves the combined hash unchanged |
| SyncMerge.AssociateBy | shared/src/commonMain/kotlin/com/edufelip/shared/data/sync/NotesSyncManager.kt:245-246 | `associateBy` maps every key of the list, and only those, to an element that has the key |
| SyncMerge.AssociateByLast | shared/src/commonMain/kotlin/com/edufelip/shared/data/sync/NotesSyncManager.kt:245-246 | the element a key maps to is the last one in the list with that key |
| SyncMerge.KeyOrder | shared/src/commonMain/kotlin/com/edufelip/shared/data/sync/NotesSyncManager.kt:247 | the iteration order of the map lists each key once, and exactly its keys |
| SyncMerge.NoteMergeRules | shared/src/commonMain/kotlin/com/edufelip/shared/data/sync/NotesSyncManager.kt:277-315 | per id: a newer remote note overwrites the row and is counted; a newer local row is kept and pushed; equal times keep the row; a new remote note is inserted; a local-only note stays and is pushed exactly when dirty, and is deleted otherwise |
| SyncMerge.MergedNotesAgainstRemote | shared/src/commonMain/kotlin/com/edufelip/shared/data/sync/NotesSyncManager.kt:277-315 | after a merge every remote note is present and at least as new as the remote copy, and is newer only when the local row was newer |
| SyncMerge.MergedNotesWithoutRemote | shared/src/commonMain/kotlin/com/edufelip/shared/data/sync/NotesSyncManager.kt:302-312 | a merged note missing from the snapshot is a dirty local row, unchanged |
| SyncMerge.RemergeNotesKeepsTable | shared/src/commonMain/kotlin/com/edufelip/shared/data/sync/NotesSyncManager.kt:277-315 | merging the same snapshot into the merged table writes nothing |
| SyncMerge.RemergeNotesOverwritesNothing | shared/src/commonMain/kotlin/com/edufelip/shared/data/sync/NotesSyncManager.kt:289-293 | a second merge of the same snapshot counts no overwrites |
| SyncMerge.RemergeNotesPushesSame | shared/src/commonMain/kotlin/com/edufelip/shared/data/sync/NotesSyncManager.kt:293-312 | a second merge of the same snapshot queues the same notes for upload |
| SyncMerge.RemergeNotesIsStable | shared/src/commonMain/kotlin/com/edufelip/shared/data/sync/NotesSyncManager.kt:277-315 | merging twice is merging once: same table, no overwrites, same uploads |
| SyncMerge.FolderMergeRules | shared/src/commonMain/kotlin/com/edufelip/shared/data/sync/NotesSyncManager.kt:241-275 | per id: a local tombstone wins and is pushed; a newer remote folder overwrites; a newer dirty local folder is pushed; a new remote folder is inserted; a local-only folder stays and is pushed exactly when dirty or a tombstone |
| SyncMerge.RemergeFoldersIsStable | shared/src/commonMain/kotlin/com/edufelip/shared/data/sync/NotesSyncManager.kt:241-275 | merging the same folder snapshot twice is merging it once |
| SyncMerge.PlaceholdersCover | shared/src/commonMain/kotlin/com/edufelip/shared/data/sync/NotesSyncManager.kt:317-335 | existing folders are untouched, and every folder a remote note names exists afterwards |
| SyncMerge.PlaceholdersAreFirstReferences | shared/src/commonMain/kotlin/com/edufelip/shared/data/sync/NotesSyncManager.kt:317-335 | an added folder is the "Untitled Folder" placeholder of the first remote note naming it, dirty and stamped with that note's time, or the clock when that is not positive |
| SyncMerge.DecodeStoragePaths | shared/src/commonMain/kotlin/com/edufelip/shared/data/sync/NotesSyncManager.kt:613-616 | paths come only from a non-blank column that decodes, and are exactly the decoded list; anything else gives no paths |
| SyncMerge.RemainingNoteDeletionsSpec | shared/src/commonMain/kotlin/com/edufelip/shared/data/sync/NotesSyncManager.kt:138-162 | an entry stays exactly when its remote or storage delete fails; nothing changes when every entry fails, the list never grows |
| SyncMerge.RemainingNoteDeletionsDistinct | shared/src/commonMain/kotlin/com/edufelip/shared/data/sync/NotesSyncManager.kt:138-162 | pending note deletions keep distinct ids |
| SyncMerge.WithoutTheNoteDeletion | shared/src/commonMain/kotlin/com/edufelip/shared/data/sync/NotesSyncManager.kt:159 | deleting a pending note deletion by id removes exactly the entry with that id |
| SyncMerge.WithoutAbsentNoteDeletion | shared/src/commonMain/kotlin/com/edufelip/shared/data/sync/NotesSyncManager.kt:159 | deleting an id that has no entry changes nothing |
| SyncMerge.RemainingFolderDeletionsSpec | shared/src/commonMain/kotlin/com/edufelip/shared/data/sync/NotesSyncManager.kt:165-181 | a folder id stays exactly when its remote delete fails; nothing changes when none succeeds |
| SyncMerge.RemainingFolderDeletionsDistinct | shared/src/commonMain/kotlin/com/edufelip/shared/data/sync/NotesSyncManager.kt:165-181 | pending folder deletions keep distinct ids |
| SyncMerge.WithoutTheFolderDeletion | shared/src/commonMain/kotlin/com/edufelip/shared/data/sync/NotesSyncManager.kt:173 | deleting a pending folder deletion removes exactly that id |
| SyncMerge.WithoutAbsentFolderDeletion | shared/src/commonMain/kotlin/com/edufelip/shared/data/sync/NotesSyncManager.kt:173 | deleting an absent id changes nothing |
| NotesSync.RetryNoteDeletions | shared/src/commonMain/kotlin/com/edufelip/shared/data/sync/NotesSyncManager.kt:138-162 | the loop leaves the remaining note deletions and reports whether any entry was pushed |
| NotesSync.RetryFolderDeletions | shared/src/commonMain/kotlin/com/edufelip/shared/data/sync/NotesSyncManager.kt:165-181 | the loop leaves the remaining folder deletions, removes exactly the folders deleted remotely, and reports whether any was |
| NotesSync.MergeFolderTable | shared/src/commonMain/kotlin/com/edufelip/shared/data/sync/NotesSyncManager.kt:241-275 | the two loops leave the merged folder table and the folders to push |
| NotesSync.MergeRemoteNote | shared/src/commonMain/kotlin/com/edufelip/shared/data/sync/NotesSyncManager.kt:284-299 | one remote note: inserted or overwritten when newer (counted), queued when the local row is newer |
| NotesSync.MergeNoteTable | shared/src/commonMain/kotlin/com/edufelip/shared/data/sync/NotesSyncManager.kt:277-315 | the two loops leave the merged note table, the placeholder folders, the notes to push and the number of overwrites |
| NotesSync.PushFolders | shared/src/commonMain/kotlin/com/edufelip/shared/data/sync/NotesSyncManager.kt:450-461 | a queued tombstone is deleted remotely and locally; any other queued folder is made clean |
| NotesSync.PushNotes | shared/src/commonMain/kotlin/com/edufelip/shared/data/sync/NotesSyncManager.kt:218-221 | every uploaded note's row is made clean |
| NotesSync.LocalSnapshot | shared/src/commonMain/kotlin/com/edufelip/shared/data/sync/NotesSyncManager.kt:230-239 | every local note, read back through `rowToNote`, and every folder; they are listed in id order, which the hash ignores |
| NotesSync.NoteMergeKeepsKeys | shared/src/commonMain/kotlin/com/edufelip/shared/data/sync/NotesSyncManager.kt:277-315 | after the merge and the upload every note row still sits under its own id |
| NotesSync.FolderMergeKeepsKeys | shared/src/commonMain/kotlin/com/edufelip/shared/data/sync/NotesSyncManager.kt:241-275 | after the merge, the placeholders and the upload every folder row still sits under its own id |
| NotesSync.PlaceholdersKeyed | shared/src/commonMain/kotlin/com/edufelip/shared/data/sync/NotesSyncManager.kt:322-335 | placeholder folders sit under their own ids |
| NotesSync.NotesSyncManager.constructor | shared/src/commonMain/kotlin/com/edufelip/shared/data/sync/NotesSyncManager.kt:44-47 | no remote hash remembered, throttle off |
| NotesSync.NotesSyncManager.ResetMergeThrottle | shared/src/commonMain/kotlin/com/edufelip/shared/data/sync/NotesSyncManager.kt:437-440 | the throttle is turned off and forgets its hash |
| NotesSync.NotesSyncManager.PushPendingNoteDeletions | shared/src/commonMain/kotlin/com/edufelip/shared/data/sync/NotesSyncManager.kt:138-162 | the pending note deletions become those whose deletes failed; the result says whether any succeeded |
| NotesSync.NotesSyncManager.PushPendingFolderDeletions | shared/src/commonMain/kotlin/com/edufelip/shared/data/sync/NotesSyncManager.kt:165-181 | the pending folder deletions become those whose delete failed, those folders' rows are gone, and the result says whether any succeeded |
| NotesSync.NotesSyncManager.ApplyMerge | shared/src/commonMain/kotlin/com/edufelip/shared/data/sync/NotesSyncManager.kt:213-227 | the tables become the merged ones after the upload, the overwrite count is reported, and the throttle is on with this hash |
| NotesSync.NotesSyncManager.RetryPending | shared/src/commonMain/kotlin/com/edufelip/shared/data/sync/NotesSyncManager.kt:194-196 | folders are retried first, then notes; the result says whether either pushed anything |
| NotesSync.NotesSyncManager.CheckSnapshot | shared/src/commonMain/kotlin/com/edufelip/shared/data/sync/NotesSyncManager.kt:199-212 | stops exactly when nothing was pushed and the hash is the last remote one, or the throttle holds this hash, or nothing was pushed and the local tables hash the same (then remembered); otherwise the throttle is reset and the merge goes on |
| NotesSync.NotesSyncManager.MergeSnapshot | shared/src/commonMain/kotlin/com/edufelip/shared/data/sync/NotesSyncManager.kt:197-227 | the early stops change no table; otherwise the tables are merged and the throttle holds this hash |
| NotesSync.NotesSyncManager.MergeRemoteIntoLocal | shared/src/commonMain/kotlin/com/edufelip/shared/data/sync/NotesSyncManager.kt:183-228 | retries the pending deletions, then stops or merges exactly under the conditions above, with the resulting tables |
| NoteCipher.EnsureKeyLength | shared/src/commonMain/kotlin/com/edufelip/shared/security/NoteCipher.kt:47-50 | a key passes exactly when it is 32 bytes long, and is then returned unchanged |
| NoteCipher.DecryptPayload | shared/src/commonMain/kotlin/com/edufelip/shared/security/NoteCipher.kt:86-96 | decryption succeeds only for a payload longer than nonce plus tag whose tag is the HMAC of nonce and ciphertext under the MAC key; the result is the CTR decryption of the middle part under the encryption key |
| NoteCipher.PayloadFraming | shared/src/commonMain/kotlin/com/edufelip/shared/security/NoteCipher.kt:76-84 | a sealed payload is the 16-byte nonce, the ciphertext and a 32-byte tag over both |
| NoteCipher.PayloadRoundTrip | shared/src/commonMain/kotlin/com/edufelip/shared/security/NoteCipher.kt:76-96 | decrypting a payload sealed under the same key gives the plaintext back |
| NoteCipher.LegacyKeystream | shared/src/commonMain/kotlin/com/edufelip/shared/security/NoteCipher.kt:63-74 | the generator fills a fresh array with the keystream of the requested length |
| NoteCipher.Absorb | shared/src/commonMain/kotlin/com/edufelip/shared/security/NoteCipher.kt:64-67 | the loop over key and nonce absorbs every unsigned byte FNV-1a style modulo 2^64 |
| NoteCipher.Draw | shared/src/commonMain/kotlin/com/edufelip/shared/security/NoteCipher.kt:68-73 | each index gets bits 24 to 31 of the next linear-congruential state |
| NoteCipher.XorInvolution | shared/src/commonMain/kotlin/com/edufelip/shared/security/NoteCipher.kt:57-59 | XOR with the same keystream twice gives the body back |
| NoteCipher.LegacyDecrypt | shared/src/commonMain/kotlin/com/edufelip/shared/security/NoteCipher.kt:52-61 | null exactly for payloads of at most 16 bytes; otherwise a body as long as the payload minus the nonce |
| NoteCipher.LegacyRoundTrip | shared/src/commonMain/kotlin/com/edufelip/shared/security/NoteCipher.kt:52-74 | a value stored as nonce followed by the text XOR the keystream reads back as the text |
| NoteCipher.SignExtendXor | shared/src/commonMain/kotlin/com/edufelip/shared/security/NoteCipher.kt:106 | sign-extended bytes XOR to zero exactly when the bytes are equal |
| NoteCipher.ConstantTimeEquals | shared/src/commonMain/kotlin/com/edufelip/shared/security/NoteCipher.kt:102-109 | the loop reports equality exactly when both arrays are equal |
| NoteCipher.EncryptWith | shared/src/commonMain/kotlin/com/edufelip/shared/security/NoteCipher.kt:20-25 | the empty text stays empty; any other text is encrypted to a value that starts with "ENC:" |
| NoteCipher.DecryptWith | shared/src/commonMain/kotlin/com/edufelip/shared/security/NoteCipher.kt:28-35 | empty values, values without the prefix and values that are not Base64 come back unchanged; an error arises only from the key |
| NoteCipher.EncryptDecryptRoundTrip | shared/src/commonMain/kotlin/com/edufelip/shared/security/NoteCipher.kt:20-35 | whatever is encrypted under a key decrypts under that key to the same text |
| NoteCipher.Cipher.constructor | shared/src/commonMain/kotlin/com/edufelip/shared/security/NoteCipher.kt:13-17 | the cipher starts with the stored key and no override |
| NoteCipher.Cipher.ActiveKey | shared/src/commonMain/kotlin/com/edufelip/shared/security/NoteCipher.kt:45 | the override when set, otherwise the stored key, which must be 32 bytes |
| NoteCipher.Cipher.OverrideKeyForTests | shared/src/commonMain/kotlin/com/edufelip/shared/security/NoteCipher.kt:37-39 | a 32-byte key becomes the override; any other length fails and leaves the override |
| NoteCipher.Cipher.ClearKeyOverride | shared/src/commonMain/kotlin/com/edufelip/shared/security/NoteCipher.kt:41-43 | the override is cleared |
| NoteCipher.Cipher.Encrypt | shared/src/commonMain/kotlin/com/edufelip/shared/security/NoteCipher.kt:20-25 | the empty text is returned before the key is read; any other text succeeds exactly when the active key is valid |
| NoteCipher.Cipher.RoundTrip | shared/src/commonMain/kotlin/com/edufelip/shared/security/NoteCipher.kt:20-35 | what the object encrypts, it decrypts |
| SecureKeyStore.HexValue | shared/src/iosMain/kotlin/com/edufelip/shared/security/SecureKeyStore.ios.kt:177-185 | a digit of either case has its value below 16; any other character has none |
| SecureKeyStore.HexValueIgnoresCase | shared/src/iosMain/kotlin/com/edufelip/shared/security/SecureKeyStore.ios.kt:177-185 | an upper-case letter digit has the value of its lower-case letter |
| SecureKeyStore.PairByte | shared/src/iosMain/kotlin/com/edufelip/shared/security/SecureKeyStore.ios.kt:170-172 | a byte is sixteen times its high digit plus its low digit |
| SecureKeyStore.HexDecode | shared/src/iosMain/kotlin/com/edufelip/shared/security/SecureKeyStore.ios.kt:166-175 | decoding succeeds exactly for even-length all-hex text, giving one byte per digit pair |
| SecureKeyStore.HexToBytes | shared/src/iosMain/kotlin/com/edufelip/shared/security/SecureKeyStore.ios.kt:166-175 | the loop returns null exactly when decoding fails, and otherwise a fresh array of the decoded bytes |
| SecureKeyStore.DecodeIgnoresCase | shared/src/iosMain/kotlin/com/edufelip/shared/security/SecureKeyStore.ios.kt:166-185 | hex text decodes the same whatever the case of its letter digits |
| SecureKeyStore.DecodeToHex | shared/src/iosMain/kotlin/com/edufelip/shared/security/SecureKeyStore.ios.kt:166-175 | any byte list written as lower-case hex decodes back to itself |
| TextSanitizer.Escape | composeApp/src/commonMain/kotlin/com/edufelip/shared/ui/util/security/TextSanitizer.kt:73-100 | each of the five markup characters becomes a look-alike that is neither markup, a control character nor whitespace; every other character is kept |
| TextSanitizer.SanitizeTextLoop | composeApp/src/commonMain/kotlin/com/edufelip/shared/ui/util/security/TextSanitizer.kt:58-129 | the loop with its skips and its early stop at the limit yields the sanitized text that `SanitizeText` defines |
| TextSanitizer.ScanOutput | composeApp/src/commonMain/kotlin/com/edufelip/shared/ui/util/security/TextSanitizer.kt:68-123 | the loop's builder never exceeds the limit, holds only clean characters and no two spaces in a row, and `modified` is never reset |
| TextSanitizer.SliceKeepsClean | composeApp/src/commonMain/kotlin/com/edufelip/shared/ui/util/security/TextSanitizer.kt:124 | trimming the builder keeps it clean and free of double spaces |
| TextSanitizer.TrimSlice | composeApp/src/commonMain/kotlin/com/edufelip/shared/ui/util/security/TextSanitizer.kt:64 | the trimmed text is a contiguous slice of the input |
| TextSanitizer.SanitizeTextProperties | composeApp/src/commonMain/kotlin/com/edufelip/shared/ui/util/security/TextSanitizer.kt:58-129 | the value is at most `maxLength` long, clean, without double spaces or surrounding whitespace; an unmodified value is the input itself, and any value that differs from the input is reported as modified |
| TextSanitizer.ScanFlagsChanges | composeApp/src/commonMain/kotlin/com/edufelip/shared/ui/util/security/TextSanitizer.kt:68-123 | with the corrected limit rule every flag the loop raises is backed by a dropped or replaced character |
| TextSanitizer.SanitizeTextReportsChanges | composeApp/src/commonMain/kotlin/com/edufelip/shared/ui/util/security/TextSanitizer.kt:58-129 | with the corrected limit rule, `modified` holds exactly when the value differs from the input |
| TextSanitizer.ScanRuleOnlyFlags | composeApp/src/commonMain/kotlin/com/edufelip/shared/ui/util/security/TextSanitizer.kt:68-123 | from any point of the loop both limit rules build the same text, and a change the corrected rule flags is flagged as written |
| TextSanitizer.SanitizeRuleOnlyFlags | composeApp/src/commonMain/kotlin/com/edufelip/shared/ui/util/security/TextSanitizer.kt:58-129 | the sanitized value is the same under both limit rules, and the corrected rule reports no change the code as written does not |
| TextSanitizer.CleanTextAtLimitFlagged | composeApp/src/commonMain/kotlin/com/edufelip/shared/ui/util/security/TextSanitizer.kt:118-122 | as written, a clean text exactly as long as the limit comes back unchanged but flagged modified; the corrected rule does not flag it |
| TextSanitizer.SanitizeInlineInput | composeApp/src/commonMain/kotlin/com/edufelip/shared/ui/util/security/TextSanitizer.kt:13 | at most `maxLength` characters, no newlines or markup, no double spaces, trimmed, and flagged exactly when changed |
| TextSanitizer.SanitizeMultilineInput | composeApp/src/commonMain/kotlin/com/edufelip/shared/ui/util/security/TextSanitizer.kt:15 | as the inline variant, but newlines are kept |
| TextSanitizer.SanitizeOptionalInlineInput | composeApp/src/commonMain/kotlin/com/edufelip/shared/ui/util/security/TextSanitizer.kt:17 | null stays null; a present value is sanitized on one line, bounded, and flagged exactly when changed |
| TextSanitizer.SanitizeUserDisplay | composeApp/src/commonMain/kotlin/com/edufelip/shared/ui/util/security/TextSanitizer.kt:11 | at most 64 clean characters on one line, trimmed; a missing name gives the empty string |
| TextSanitizer.SanitizeField | composeApp/src/commonMain/kotlin/com/edufelip/shared/ui/util/security/TextSanitizer.kt:34-45 | an image's alt text or file name stays absent when absent, is otherwise at most 120 clean characters, and is flagged exactly when changed |
| TextSanitizer.SanitizeBlockChanges | composeApp/src/commonMain/kotlin/com/edufelip/shared/ui/util/security/TextSanitizer.kt:21-47 | a block's flag is set exactly when the block changed; text blocks get sanitized text and image blocks sanitized alt text and file name, with nothing else changed |
| TextSanitizer.SanitizeNoteContentLoop | composeApp/src/commonMain/kotlin/com/edufelip/shared/ui/util/security/TextSanitizer.kt:19-56 | the loop that maps the blocks and sets `modified` computes what `SanitizeNoteContent` defines |
| TextSanitizer.SanitizeBlocksSpec | composeApp/src/commonMain/kotlin/com/edufelip/shared/ui/util/security/TextSanitizer.kt:21-48 | the mapped blocks keep their number and order, each is the sanitized form of its original, and the flag holds exactly when some block changed |
| TextSanitizer.SanitizeNoteContentSpec | composeApp/src/commonMain/kotlin/com/edufelip/shared/ui/util/security/TextSanitizer.kt:19-56 | a change is reported exactly when the content changed, the original content comes back when nothing changed, and every block is sanitized in place |
| GoogleSignIn.UpperHexDigits | composeApp/src/iosMain/kotlin/com/edufelip/shared/data/auth/GoogleSignInLauncher.ios.kt:167 | the base-16 digits of a code are upper-case hex, at least one, and at most two below 256 |
| GoogleSignIn.PadStart2 | composeApp/src/iosMain/kotlin/com/edufelip/shared/data/auth/GoogleSignInLauncher.ios.kt:167 | padding gives at least two characters and leaves a longer text alone |
| GoogleSignIn.Escape | composeApp/src/iosMain/kotlin/com/edufelip/shared/data/auth/GoogleSignInLauncher.ios.kt:163-168 | an unreserved character is kept; any other becomes '%' and its code in upper-case hex, padded to two digits |
| GoogleSignIn.PEncode | composeApp/src/iosMain/kotlin/com/edufelip/shared/data/auth/GoogleSignInLauncher.ios.kt:161-170 | the builder loop appends the escape of every character in order |
| GoogleSignIn.EscapeOfByte | composeApp/src/iosMain/kotlin/com/edufelip/shared/data/auth/GoogleSignInLauncher.ios.kt:166-167 | an escaped character below 256 is '%' and exactly its two hex digits |
| GoogleSignIn.PEncodeIsSafe | composeApp/src/iosMain/kotlin/com/edufelip/shared/data/auth/GoogleSignInLauncher.ios.kt:161-170 | encoded text holds only letters, digits, `- . _ ~` and '%' |
| GoogleSignIn.PEncodeOfUnreserved | composeApp/src/iosMain/kotlin/com/edufelip/shared/data/auth/GoogleSignInLauncher.ios.kt:161-170 | text of unreserved characters only is encoded as itself |
| GoogleSignIn.PEncodeHasNoAmpersand | composeApp/src/iosMain/kotlin/com/edufelip/shared/data/auth/GoogleSignInLauncher.ios.kt:161-170 | encoded text never holds '&' |
| GoogleSignIn.PEncodeCollision | composeApp/src/iosMain/kotlin/com/edufelip/shared/data/auth/GoogleSignInLauncher.ios.kt:167 | a character above U+00FF gets three or more digits, so the euro sign and the text " AC" are both encoded as "%20AC" |
| GoogleSignIn.AuthUrlParameters | composeApp/src/iosMain/kotlin/com/edufelip/shared/data/auth/GoogleSignInLauncher.ios.kt:151-159 | whatever the client id, scheme and challenge, the URL is the endpoint, '?', and a query that splits at '&' into exactly the seven parameters in order |
| GoogleSignIn.AuthQuerySplits | composeApp/src/iosMain/kotlin/com/edufelip/shared/data/auth/GoogleSignInLauncher.ios.kt:155-157 | the query splits at '&' into the seven name=value parameters |
| GoogleSignIn.KeepUnreserved | composeApp/src/iosMain/kotlin/com/edufelip/shared/data/auth/GoogleSignInLauncher.ios.kt:250 | the filter keeps only unreserved characters, never lengthens, and keeps text that is already unreserved |
| GoogleSignIn.CodeVerifier | composeApp/src/iosMain/kotlin/com/edufelip/shared/data/auth/GoogleSignInLauncher.ios.kt:248-251 | the verifier has at most 64 unreserved characters, and exactly 64 when the filtered text is long enough |
| GoogleSignIn.CodeVerifierOfUuids | composeApp/src/iosMain/kotlin/com/edufelip/shared/data/auth/GoogleSignInLauncher.ios.kt:248-251 | two UUID strings give the first 64 of their 72 characters, and the verifier enters the URL unescaped |
| GoogleSignIn.ExtractAuthCode | composeApp/src/iosMain/kotlin/com/edufelip/shared/data/auth/GoogleSignInLauncher.ios.kt:237-246 | the result is the value of the first "code" item whose value is not blank; none exactly when every "code" item is missing or blank |
| GoogleSignIn.CompletionOf | composeApp/src/iosMain/kotlin/com/edufelip/shared/data/auth/GoogleSignInLauncher.ios.kt:192-234 | an error resumes with its message; a URL without a code resumes with "Missing authorization code"; no URL and no error resumes with "Google sign in canceled"; the exchange starts exactly for a URL with a code |
| GoogleSignIn.ResumeGuard.constructor | composeApp/src/iosMain/kotlin/com/edufelip/shared/data/auth/GoogleSignInLauncher.ios.kt:177 | nothing resumed, nothing delivered |
| GoogleSignIn.ResumeGuard.ResumeOnce | composeApp/src/iosMain/kotlin/com/edufelip/shared/data/auth/GoogleSignInLauncher.ios.kt:179-190 | only the first call counts: it delivers the result when the continuation is active; later calls deliver nothing |
| GoogleSignIn.DuplicateCallbackIgnored | composeApp/src/iosMain/kotlin/com/edufelip/shared/data/auth/GoogleSignInLauncher.ios.kt:179-190 | two callbacks deliver only the first result |
| FirestoreDocuments.ToMillis | shared/src/commonMain/kotlin/com/edufelip/shared/data/cloud/FirestoreDocuments.kt:26 | null exactly for a null timestamp; otherwise seconds times 1000 plus the truncated milliseconds of the nanoseconds, as a Long |
| FirestoreDocuments.DoubleToLong | shared/src/commonMain/kotlin/com/edufelip/shared/data/cloud/FirestoreDocuments.kt:61 | `Double.toLong()`: a finite value within Long range is rounded toward zero (the result within 1 of it, not beyond it), larger values and infinities saturate at the bound of their sign, NaN is 0 |
| FirestoreDocuments.AnyToMillis | shared/src/commonMain/kotlin/com/edufelip/shared/data/cloud/FirestoreDocuments.kt:60-64 | null exactly for a value that is neither a number nor a timestamp; an integer becomes a Long by wrap-around, a floating number by `toLong()`, a timestamp its milliseconds |
| FirestoreDocuments.WholeMillisReadAlike | shared/src/commonMain/kotlin/com/edufelip/shared/data/cloud/FirestoreDocuments.kt:60-64 | a whole number of milliseconds reads back the same whether the field holds it as an integer or as a floating number |
| FirestoreDocuments.ResolvedNoteId | shared/src/commonMain/kotlin/com/edufelip/shared/data/cloud/FirestoreDocuments.kt:33 | the document's id, else the document key parsed as an Int, else -1 |
| FirestoreDocuments.ResolvedStableId | shared/src/commonMain/kotlin/com/edufelip/shared/data/cloud/FirestoreDocuments.kt:34 | the stable id when it is non-blank, else the document key |
| FirestoreDocuments.ToDomainNote | shared/src/commonMain/kotlin/com/edufelip/shared/data/cloud/FirestoreDocuments.kt:28-48 | the resolved ids, the flag deleted only when stored true, missing times as 0, the fields copied, and the note clean with no local edit time |
| FirestoreDocuments.DomainNoteSummaryIsFresh | shared/src/commonMain/kotlin/com/edufelip/shared/data/cloud/FirestoreDocuments.kt:29-32 | the decoded note's description, spans and attachments are the content's summary with the stored values as fallbacks |
| FirestoreDocuments.FallbackIdParsed | shared/src/commonMain/kotlin/com/edufelip/shared/data/cloud/FirestoreDocuments.kt:33 | a document without an id whose key is the decimal text of an Int gets that id |
| FirestoreDocuments.ToDomainFolder | shared/src/commonMain/kotlin/com/edufelip/shared/data/cloud/FirestoreDocuments.kt:50-58 | null exactly when neither the document nor its key gives an id; otherwise that id, the name and the times, not deleted and clean |
| GitLiveCloud.ToFirestoreTimestamp | shared/src/commonMain/kotlin/com/edufelip/shared/data/cloud/GitLiveCloudNotesDataSource.kt:170-173 | seconds are the milliseconds divided by 1000 truncating toward zero and nanoseconds the truncated remainder times a million; the timestamp's constructor throws (no result) exactly when the nanoseconds are negative or the seconds fall outside years 1 to 9999 |
| GitLiveCloud.ToFirestoreTimestampAccepts | shared/src/commonMain/kotlin/com/edufelip/shared/data/cloud/GitLiveCloudNotesDataSource.kt:170-173 | the conversion succeeds exactly for times within years 1 to 9999 that are not before the epoch or are whole seconds, and then the nanoseconds are whole milliseconds between 0 and 999000000 |
| GitLiveCloud.JustBeforeEpochRejected | shared/src/commonMain/kotlin/com/edufelip/shared/data/cloud/GitLiveCloudNotesDataSource.kt:170-173 | one millisecond before the epoch gives nanoseconds -1000000, which the constructor rejects |
| GitLiveCloud.TimestampRoundTrip | shared/src/commonMain/kotlin/com/edufelip/shared/data/cloud/GitLiveCloudNotesDataSource.kt:170-173 | reading back a timestamp the constructor accepted gives the same milliseconds |
| GitLiveCloud.CreatedAtField | shared/src/commonMain/kotlin/com/edufelip/shared/data/cloud/GitLiveCloudNotesDataSource.kt:151-154 | the creation time is server-stamped exactly when it is 0, and otherwise written as the client timestamp, the write throwing exactly when the conversion does |
| GitLiveCloud.NoteTimestampFields | shared/src/commonMain/kotlin/com/edufelip/shared/data/cloud/GitLiveCloudNotesDataSource.kt:137-161 | a note's update time is server-stamped exactly when asked and otherwise written from the note; the write throws exactly when a converted time is rejected |
| GitLiveCloud.FolderTimestampFields | shared/src/commonMain/kotlin/com/edufelip/shared/data/cloud/GitLiveCloudNotesDataSource.kt:163-168 | a folder's update time is always server-stamped, and the write throws exactly when its creation time is rejected |
| GitLiveCloud.NoteTimestampsRoundTrip | shared/src/commonMain/kotlin/com/edufelip/shared/data/cloud/GitLiveCloudNotesDataSource.kt:137-173 | times from the epoch on within year 9999 are always written, and a note written without the server's update time reads back with its update time, and its creation time unless that was 0 |
| GradleBuild.GetOrNull | app/build.gradle.kts:12-14 | the element when the index is inside the list, null otherwise |
| GradleBuild.Segment | app/build.gradle.kts:12-14 | a missing or non-numeric segment counts as 0; otherwise its Int value |
| GradleBuild.ToVersionCode | app/build.gradle.kts:9-16 | the version code is an Int, wrapping around on overflow |
| GradleBuild.VersionCodeIgnoresSuffix | app/build.gradle.kts:10 | everything from the first '-' on is ignored |
| GradleBuild.VersionCodeWithoutNumbers | app/build.gradle.kts:9-16 | a name without digits has code 0 |
| GradleBuild.VersionCodeOfRelease | app/build.gradle.kts:9-16 | a release name "M.m.p", with any further dotted segments, has code M*10000 + m*100 + p when that fits in an Int |
| GradleBuild.EnvOrProperty | app/build.gradle.kts:18-20 | the property when it is a non-blank string, else the non-blank environment variable, else null |

## Left out

- File discovery in `tools/pcm_update.py` (`iter_files`, `should_index`, `normalize_ignore`, `load_manifest`) is the `discovered` input of the model, because it is directory walking and ignore-file parsing.
- The parsing of the overrides and modules documents (`load_overrides`, `load_modules`) is left out: the model takes the parsed maps and lists as inputs.
- SHA-1 hashing, `stat`, `isoformat` and `json.dumps` are host functions given as parameters; their byte formats are not modelled.
- The cached modification time is compared as an integer; floating-point times are not modelled.
- A malformed cache entry (a field of the wrong JSON type, or a cached record with no "path" key) would make the script raise; the model reads only well-typed entries, and `PcmUpdate.Check` requires every cached record to have a "path" even when there are no overrides, which the script itself keeps true of the cache it writes (`PcmUpdate.CollectedCacheWellFormed`).
- PcmUpdate.BuildRecord: classifies the root-relative path, while `build_record` as written passes the absolute path and never yields docs or script under an absolute root; `PcmUpdate.BuildRecordAsWritten` models the code as written (see Findings).
- PcmUpdate.LookupOrBuild: a rebuilt record is `PcmUpdate.BuildRecord`'s, so its kind is the corrected one rather than the code's.
- PcmUpdate.CollectRecords: builds records with the corrected kind of `PcmUpdate.BuildRecord`, not the kind the code as written assigns.
- PcmUpdate.CollectedRecordAt: states the records of the corrected `PcmUpdate.BuildRecord`, not those the code as written builds.
- PcmUpdate.CollectedCacheExact: the cached base records are those of the corrected `PcmUpdate.BuildRecord`, not those the code as written stores.
- PcmUpdate.Check: compares against records with the corrected kind; the code as written expects the absolute-path kind in files.jsonl.
- PcmUpdate.WriteTests: splices the refreshed tests metadata record in at its sorted position (`PcmUpdate.ReplaceOrInsert`), while the code as written appends a new one at the end (`PcmUpdate.ReplaceOrAppend`, see Findings).
- PcmUpdate.Write: writes the records of the corrected kind and the corrected splice, not those of the code as written.
- PcmUpdate.WrittenRecordsFollow: holds for the corrected splice; as written, a newly appended tests metadata record breaks the order (`PcmUpdate.AppendedOutOfOrder`).
- PcmUpdate.NextRunReadsWrittenRecords: is proved for the corrected kind and splice, not for the code as written.
- PcmUpdate.WriteThenCheckFilesAndGraph: is proved for the corrected kind and splice, not for the code as written.
- TextSanitizer.SanitizeInlineInput: uses the corrected rule that reports a change only when the text changed; as written, a text that reaches the limit is reported modified even when nothing was cut. The value is the same under both rules (`TextSanitizer.SanitizeRuleOnlyFlags`).
- TextSanitizer.SanitizeMultilineInput: uses the corrected "modified" rule, as `TextSanitizer.SanitizeInlineInput` does.
- TextSanitizer.SanitizeOptionalInlineInput: uses the corrected "modified" rule, as `TextSanitizer.SanitizeInlineInput` does.
- TextSanitizer.SanitizeField: uses the corrected "modified" rule, as `TextSanitizer.SanitizeInlineInput` does.
- TextSanitizer.SanitizeBlockChanges: a block's flag follows the corrected "modified" rule, not the code's flag at the limit.
- TextSanitizer.SanitizeNoteContentLoop: `modified` follows the corrected rule, not the code's flag at the limit.
- TextSanitizer.SanitizeBlocksSpec: the blocks are sanitized under the corrected "modified" rule.
- TextSanitizer.SanitizeNoteContentSpec: a change is reported under the corrected rule; as written, a text at the limit is reported changed even when it is not.
- FirestoreDocuments.AnyToMillis: a double is a real number or NaN or an infinity, so its rounding to 53 bits is not modelled, and number types other than integers and doubles are not modelled.
- The sync manager's coroutine, flow and event plumbing is not modelled: `start`, `syncNow`, `syncLocalToRemoteOnly`, the `emit` helpers and `handleSyncError`.
- Cloud calls and their exceptions are outcome parameters; a failing upsert is not modelled.
- The remote snapshot hash is a constructor parameter of `NotesSync.NotesSyncManager`, because the stored hash lives in settings storage.
- The iteration order of Kotlin sets and `LinkedHashMap`s is not modelled: the merge's push lists are maps.
- NotesSync.LocalSnapshot: lists the local rows in id order rather than active rows then deleted rows; the list hashes are proved not to depend on the order.
- `getOrCreateKey` and the keychain calls (SecureKeyStore.ios.kt lines 54-108) are not modelled, and neither is the lazily created real key of the cipher, which is a constructor parameter.
- Character classes (`isLetterOrDigit`, `lowercase`, `isWhitespace`, `isISOControl`) are modelled for ASCII and Latin-1 only. This includes the Unicode case folding the e-mail pattern applies to U+212A and U+017F.
- TextSanitizer.SanitizeTextLoop: the reference comparison `trimmed !== rawInput` is modelled as value inequality; `trim` returns the same object exactly when nothing was trimmed.
- GitLiveCloud.ToFirestoreTimestamp: the timestamp constructor's exception is modelled as no result; which exception each platform raises, and how the write reports it, is not modelled.
- TextSanitizer.SanitizeTextLoop: a negative `maxLength` is not modelled (the method requires `maxLength >= 0`); every caller passes a positive constant.
- PcmUpdate.LoadCache: a cache file that holds valid JSON other than an object, on which `raw.get` raises, is not modelled; `CacheFile` has no case for it.
- Parsing the callback URL with `NSURL`, exchanging the code for a token (`exchangeCodeForIdTokenAsync`), the platform exits of `signIn` and `dispatch_async` are not modelled; the callback's query items are an input.
- In `AttachmentProcessor.android.kt`, the floating-point scaling and the bitmap and stream I/O are not modelled: `process`, `createScaledRendition`, `decodeScaledBitmap`, `readBounds`, `querySizeBytes` and `computeSha256`.
- Kotlin strings are sequences of UTF-16 code units; the model uses `char` sequences. The `decodeToString` of malformed UTF-8 is not modelled.
- AES-CTR, HMAC-SHA256, Base64, UTF-8 and secure random bytes are parameters of the cipher with stated inverse laws; the nonce is an input.
- NavigationController is not part of this model. The single-top and pop-back behaviour of `AmazingNoteAppState` follows the state's unit tests.
- AuthUseCases is not part of this model. Its credential validation is taken to be the domain validators.
- AuthViewModel's remote calls are outcome parameters, and `SecurityLogger` and `debugLog` are not modelled. Cyclic cause chains are not modelled, and a user carries only its uid and display name.
- These NoteEditorState.kt operations are not modelled, because they only move focus or the caret, or copy to and from the clipboard: `textFieldValueFor` as a method, `onTextFieldValueChange`, `updateCaret`, `markFocus`, `requestFocus`, `consumePendingFocus`, `focusFirstTextBlock`, `focusTextAdjacentTo`, `toggleImageSelection`, `clearImageSelection`, `isImageSelected`, `copyBlocks`, `cutBlocks` and `pasteBlocks`.
- The editor's own `insertImageAtCaret` (with `ensureTrailingBlankLine`), `consumeSelectedImageBeforeTextInput` and `removeSelectedImage` are not modelled; the content-level `insertImageAtCaret` is.
- The document selection that `setCaretFrom` derives is not modelled, and `mergeWith` of two operations is not modelled.
- `NoteAttachment` declares fewer fields than `ImageBlock.toAttachment` sets; the model carries all 14 fields that `toAttachment` sets.
- `withResolvedStorageUrls` is not modelled. Of `toFirestoreData`, only the timestamp fields are modelled; the other map entries are copies.
- The editor's unit test for inserting an image at the caret expects the following text to stay " world" with the caret at 0, while the state's `insertImageAtCaret` also calls `ensureTrailingBlankLine`, which appends a newline and moves the caret to the end. That state-level method is not modelled, so the model takes no side.
- The spans' JSON encoding (`toJson`) and legacy block ids are parameters of the note detail model.
- Gradle build configuration other than `toVersionCode` and `envOrProperty` is not modelled.

## Findings

| source | as written | input that shows it | evidently intended | confidence | as-written member | corrected member |
|---|---|---|---|---|---|---|
| tools/pcm_update.py:328-337 | `build_record` passes the absolute path to `detect_kind`, whose start-of-path rules expect a path relative to the root | root `/r`, file `docs/a.md`: classified `source` instead of `docs` | classify the path relative to the root, as the record's `path` field is | not executed | PcmPaths.DocsFileAbsolute | PcmPaths.DocsFileRelative |
| tools/pcm_update.py:441-442 | a newly created tests metadata record is appended after all other records | one other file `app/a.kt`: the written order puts `.project_context/tests.jsonl` last although it sorts first | insert the record where the sorted file order puts it | not executed | PcmUpdate.AppendedOutOfOrder | PcmUpdate.SplicedFollowsFiles |
| composeApp/src/commonMain/kotlin/com/edufelip/shared/ui/util/security/TextSanitizer.kt:118-122 | reaching the length limit always sets `modified`, even when nothing was cut | `"ab"` with limit 2: the value is unchanged but reported as modified | report a change only when the value differs from the input | not executed | TextSanitizer.CleanTextAtLimitFlagged | TextSanitizer.SanitizeTextReportsChanges |
