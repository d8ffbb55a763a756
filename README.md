# FileForge line-mutation engine in Dafny

FileForge is a file-editing service. Its `FileForge` class edits text files
by line number (`replaceLines`, `deleteLines`, `insertLines`), does literal
find-and-replace, compares two files line by line (`generateDiff`) and reads
a line range in chunks (`readFileChunked`). Before each mutation it can save
a snapshot of the file to a `.backup.<time>` sibling and record the operation
in an in-memory history map (`operationHistory`). `rollbackOperation` undoes
a recorded operation, and `autoCleanupBackups` expires old records and their
backup files. Two batch loops run a list of filesystem operations
(`batchOperations`) and one per-file operation over many paths
(`processMultipleFilesEnhanced`).

This project models that core. It has these parts:

- **The filesystem** is a `map<string, string>` from path to content.
- **The history** is a `map<string, OperationRecord>`.
- **`Text`** gives JavaScript's `split` (including the empty separator, which splits into characters), `join` and `slice`. A file is its content split on `"\n"`, so it always has at least one line.
- **`LineEdits`** holds the three splices and the laws that relate them.
- **`Diff`, `Chunking`/`ChunkedRead`, `History` and `Batch`** are pure specifications of the diff, the chunked read, history expiry and the two batch loops.
- **`Engine`** states each operation of the class as a function from the store (files and history) to the new store and the result, with its error cases in the source's order.
- **`EngineLaws`** holds the properties across calls: a rollback undoes a mutation, expired records cannot be rolled back, an edited file reads back as the spliced lines, deleting then re-inserting lines restores the file, and every operation keeps each record holding its snapshot, so a recorded operation can always be rolled back.
- **`Forge`** holds the class `FileForge`, with the fields `files` and `history`. It updates them step by step as the source does. Each method is proved to leave exactly the store and result that the matching `Engine` function describes. Its loops (diff, chunking, batch, cleanup) carry invariants tying them to those functions.

Some inputs are parameters rather than computed:
- the MD5 digest is an arbitrary function `hash: string -> string`;
- the current time (`Date.now()`) is `now: nat`;
- the operation id (`crypto.randomUUID()`) is `opId: string`.

The model makes several behaviours of the code explicit:
- A sweep with a maximum age of 0 hours keeps a record stamped in the same millisecond, because the comparison is strict (`History.ZeroHourSweepKeepsSameMillisecond`).
- Deleting every line of a file leaves the empty file. The empty file reads back as one empty line, so inserting the old lines back writes an extra `"\n"` (`LineEdits.DeleteAllThenInsertAddsNewline`).
- For the same reason, `deleteLines` of all lines reports `totalLines` 0, although the file then reads back as one line.
- `generateDiff` treats a missing line as `""`, so `"a"` and `"a\n"` compare as identical (`Diff.TrailingEmptyLineIsIdentical`).
- Literal find-and-replace with an empty pattern on an empty file reports -1 replacements. This is `"".split("").length - 1`. As a result it neither writes nor backs up.

## Model

| member | source | states |
|---|---|---|
| Text.IndexOf | src/fileforge.cjs:793 | the search `split` performs: -1 or an index where the pattern occurs, within the string |
| Text.IndexOfFirst | src/fileforge.cjs:793 | no occurrence comes before the index found, and -1 means the pattern occurs nowhere |
| Text.Split | src/fileforge.cjs:793 | a non-empty separator yields at least one part; the empty separator yields exactly one single-character part per character, in order |
| Text.Chars | src/fileforge.cjs:793 | the empty-separator split of a string: as many parts as characters, part `k` being exactly character `k` |
| Text.JoinSplit | src/fileforge.cjs:793-795 | joining the parts of a split with the same separator gives back the original string |
| Text.SplitJoin | src/fileforge.cjs:396-424 | splitting on a one-character separator the join of parts free of it gives back exactly those parts |
| Text.SplitPartsAvoidSeparator | src/fileforge.cjs:396 | no part of a split on one character contains that character |
| Text.OccurrencesPositiveIff | src/fileforge.cjs:793-794 | with a non-empty pattern the replacement count is non-negative, and positive exactly when the pattern occurs somewhere |
| Text.ReplaceAllNoMatch | src/fileforge.cjs:793-795 | when the count is not positive, split-then-join returns the content unchanged |
| Text.ReplaceAllLength | src/fileforge.cjs:793-795 | the replaced content is longer by `count * (|replacement| - |pattern|)` |
| Text.Slice | src/fileforge.cjs:346 | for non-negative bounds, `slice` is the subsequence from `begin` up to the smaller of `end` and the length |
| LineEdits.Lines | src/fileforge.cjs:396-397 | a file always has at least one line |
| LineEdits.UnlinesLines | src/fileforge.cjs:396-424 | splitting content into lines and joining them again gives the same content, and no line contains "\n" |
| LineEdits.LinesUnlines | src/fileforge.cjs:424 | at least one line, none containing "\n", reads back as the same lines after being joined |
| LineEdits.NewLines | src/fileforge.cjs:421 | an explicit line array is used exactly as given; a text block becomes at least one line, none containing "\n", and those lines joined with "\n" give back the block |
| LineEdits.ReplaceSpan | src/fileforge.cjs:419-423 | the result keeps the lines before `start`, then the new lines, then the lines after `end`, and has `total - (end - start + 1) + |newLines|` lines |
| LineEdits.DeleteSpan | src/fileforge.cjs:599-601 | the result keeps the lines before `start` and after `end`, and has `total - (end - start + 1)` lines |
| LineEdits.InsertAfter | src/fileforge.cjs:657-661 | the result is the first `after` lines, the new lines, then the rest, and has `total + |newLines|` lines |
| LineEdits.ReplaceIsDeleteThenInsert | src/fileforge.cjs:419-423 | replacing a span equals deleting it and inserting the new lines after line `start - 1` |
| LineEdits.DeleteThenInsertRestores | src/fileforge.cjs:599-601 | inserting the deleted span after line `start - 1` restores the original lines |
| LineEdits.ReplaceBySameSpanIsIdentity | src/fileforge.cjs:419-423 | replacing a span by the lines it holds changes nothing |
| LineEdits.ReplaceRereadCount | src/fileforge.cjs:453-455 | when none of the new lines contains "\n" and the result has at least one line, the written file re-reads as exactly the reported `totalLines` lines |
| LineEdits.DeleteThenInsertRestoresContent | src/fileforge.cjs:599-602 | deleting lines `[start, end]`, re-reading and inserting them after line `start - 1` writes back the original content, if at least one line was left |
| LineEdits.DeleteAllThenInsertAddsNewline | src/fileforge.cjs:599-602 | deleting the only line of "a" and inserting it back writes "a\n" |
| Diff.Summarize | src/fileforge.cjs:872-874 | `totalDifferences` is the full count; `differences` is the whole list when it has at most 100 entries and exactly its first 100 otherwise; `identical` holds exactly when the count is 0 |
| Diff.DiffSound | src/fileforge.cjs:854-866 | each reported entry is a real difference: it names its 1-based line and both lines (missing ones as ""), carries the right tag, and entries come in increasing line order |
| Diff.DiffComplete | src/fileforge.cjs:854-866 | every index at which the two lines differ has an entry |
| Diff.NoDifferencesIff | src/fileforge.cjs:854-874 | there are no differences exactly when every compared line agrees |
| Diff.KindMeaning | src/fileforge.cjs:863 | `added` means the first line is empty, `deleted` that the second is, and `modified` that neither is |
| Diff.SameLinesIdentical | src/fileforge.cjs:854-866 | a line sequence compared with itself has no differences |
| Diff.TrailingEmptyLineIsIdentical | src/fileforge.cjs:855-856 | lines ["a"] and ["a", ""] compare as identical |
| Diff.WorkedExample | src/fileforge.cjs:854-866 | ["a","b","c"] against ["a","x","c","d"] differs exactly at line 2 (modified) and line 4 (added) |
| Chunking.ActualStart | src/fileforge.cjs:337 | `Math.max(1, startLine)`: a start of 1 or more is kept, anything below becomes 1 |
| Chunking.ActualEnd | src/fileforge.cjs:336 | an absent end (0) means the last line; an end past the last line becomes the last line; any other end, negative ones included, is kept; the result never exceeds the line count |
| Chunking.ChunksCoverRequest | src/fileforge.cjs:346-357 | joining the chunk contents with "\n" gives exactly the requested lines joined with "\n" |
| Chunking.ChunkLineCountsSum | src/fileforge.cjs:349-356 | the chunks' line counts add up to the number of requested lines |
| Chunking.ChunkShape | src/fileforge.cjs:349-356 | the chunks cut from offset `i` are well shaped: the first starts at line `first + i`, each next one `size` lines further on, each holds 1 to `size` lines (all but the last exactly `size`) and ends at `Math.min(start + lineCount - 1, actualEnd)` |
| Chunking.ChunksHoldTheirLines | src/fileforge.cjs:349-356 | each chunk's content is `requested.slice(i, i + size).join("\n")` for its own offset: the requested lines from its start line on, `lineCount` of them |
| ChunkedRead.RequestedChunksHoldFileLines | src/fileforge.cjs:336-356 | the chunks cut from the clamped range hold lines of the whole file: chunk content is the file's lines from the chunk's start line on, `lineCount` of them |
| ChunkedRead.ReadChunked | src/fileforge.cjs:327-366 | a missing file fails; otherwise the read succeeds exactly when the clamped start is within the file; a success reports the path, the clamped start and end, the line count, the chunk count and the hash of the whole content, and its chunks are well shaped: the first starts at the clamped start, each next one `chunkSize` lines further on, each holds 1 to `chunkSize` lines (all but the last exactly `chunkSize`) and ends at its last line or the clamped end, whichever comes first; each chunk's content is the file's own lines `startLine` to `startLine + lineCount - 1`, joined with "\n" |
| ChunkedRead.ClampedRead | src/fileforge.cjs:336-357 | for every start and end, a successful read returns exactly the clamped range `lines.slice(actualStart - 1, actualEnd)`: the chunk contents join back to it, each chunk holds the lines of that range it claims, the line counts add up to its length, and an empty range gives no chunks |
| ChunkedRead.WholeFileRoundTrip | src/fileforge.cjs:333-357 | reading a whole file in chunks and joining the chunk contents with "\n" gives back the exact content, for every chunk size |
| ChunkedRead.RangeRead | src/fileforge.cjs:333-357 | reading lines `[s, e]` of a file returns exactly those lines, and the line counts add up to `e - s + 1` |
| History.OlderCutoffKeepsMore | src/fileforge.cjs:1160-1176 | a sweep with a larger maximum age keeps a superset of the records a smaller one keeps, the extra ones being exactly those stamped between the two cutoffs, and deletes a subset of its backups |
| History.SweepIdempotent | src/fileforge.cjs:1164-1176 | sweeping twice with the same cutoff removes nothing more |
| History.SweepsCompose | src/fileforge.cjs:1161-1176 | a sweep with a later cutoff after one with an earlier cutoff is the later sweep alone |
| History.ZeroHourSweepKeepsSameMillisecond | src/fileforge.cjs:1161-1165 | with a maximum age of 0 hours, a record stamped at `now` survives |
| History.ZeroHourSweepRemovesOlder | src/fileforge.cjs:1161-1174 | with a maximum age of 0 hours, every record stamped before `now` is removed |
| History.SweepKeepsSnapshots | src/fileforge.cjs:1164-1176 | if every record holds a snapshot, every record kept by a sweep still does |
| History.NatToString | src/fileforge.cjs:408 | the time stamp written into a sibling's name is never empty |
| History.SiblingsDistinct | src/fileforge.cjs:408-440 | the backup, the temporary file and the target are three different paths |
| Batch.ApplyFsOperation | src/fileforge.cjs:898-947 | `copy` fails exactly on a missing source, and otherwise writes the source's content to the destination and reports its size; `move` fails exactly on a missing source, and otherwise gives the destination the content, removes the source, changes nothing else and reports the move; `delete` fails exactly on a missing target, and otherwise removes only it and reports it; `create_directory` fails exactly when a file stands at the path and otherwise reports the directory; an unknown type fails; a failure changes nothing |
| Batch.CountsAddUp | src/fileforge.cjs:958-960 | successful plus failed items make the total |
| Batch.BatchSummary | src/fileforge.cjs:956-962 | the report carries the items, their number, and success and failure counts that add up to it |
| Batch.BatchIsSequential | src/fileforge.cjs:894-954 | one result per operation, in input order; item `i` is operation `i` applied to the files the earlier items left, whether or not any failed |
| Batch.UnrecognizedItemFails | src/fileforge.cjs:945-946 | an operation of unknown type yields a failed item at its position |
| Batch.ApplyFileOperation | src/fileforge.cjs:1066-1128 | `read_chunks` returns the chunked read with `chunkSize \|\| 50`, `startLine \|\| 1` and `endLine \|\| null`; only `backup` changes the files: for an existing file it writes the content to the `.backup.<now>` sibling and reports that path and the content's hash, for a missing file it fails with "Backup failed"; the collaborator operations report the success their collaborator gives; an unknown operation fails |
| Batch.ChunkSizeOr | src/fileforge.cjs:1070 | `chunkSize \|\| 50`: an absent size (0) becomes 50, any other is kept |
| Batch.StartLineOr | src/fileforge.cjs:1071 | `startLine \|\| 1`: an absent start (0) becomes 1, any other is kept |
| Batch.FileCountsAddUp | src/fileforge.cjs:1141-1142 | successful plus failed items make the number of files |
| Batch.FilesSummary | src/fileforge.cjs:1138-1144 | the report carries the items, their number, and success and failure counts that add up to it |
| Batch.FilesAreSequential | src/fileforge.cjs:1062-1136 | one result per path, in input order, naming its path and the operation; item `i` is the operation on path `i` applied to the files the earlier paths left |
| Batch.OnlyBackupWrites | src/fileforge.cjs:1084-1093 | every operation other than `backup` leaves the files as they were, and no operation removes a file |
| Batch.UnrecognizedOperationFailsEverywhere | src/fileforge.cjs:1126-1127 | an unknown operation name fails on every path, and the failure count is the number of paths |
| Engine.CreateFileSnapshot | src/fileforge.cjs:546-561 | a snapshot exists exactly for an existing file, and holds its path, content, hash, length and the time |
| Engine.RecordBackup | src/fileforge.cjs:407-417 | the `.backup.<now>` sibling holds the snapshot content and the id maps to a record of the kind, the original and backup paths, the snapshot and the time; no other file and no other record changes |
| Engine.Commit | src/fileforge.cjs:604-606 | after the temp-write-then-rename commit the target holds the new content, the temporary sibling is gone, and no other file changes |
| Engine.Mutate | src/fileforge.cjs:407-442 | the target holds the new content; with a backup, the `.backup.<now>` sibling holds the old content and the history records the kind, the paths, the snapshot and the time under the id, with no other record changed; without one the history is unchanged; no other file changes |
| Engine.RestoreAfterFailure | src/fileforge.cjs:463-469 | when a record exists under the id, holds a snapshot and its backup file is present, the snapshot content is written back to the record's original path and nothing else changes; otherwise the store is unchanged; the history is never touched |
| Engine.ReplaceLinesStep | src/fileforge.cjs:380-477 | succeeds exactly when the file exists and `1 <= start <= end <= total`; otherwise reports a missing file, then a bad start, then a bad end, and only the catch-block restore may touch the store; on success writes the joined `ReplaceSpan` lines, with or without a backup, and reports the requested range, the replaced and new line counts, `total - replaced + new`, the backup flag and the hash of the written content |
| Engine.DeleteLinesStep | src/fileforge.cjs:565-625 | succeeds exactly on a valid span; the errors come in the source's order and change nothing; on success writes the joined `DeleteSpan` lines and reports the deleted range, `end - start + 1` deleted lines and `total - deleted` remaining |
| Engine.InsertLinesStep | src/fileforge.cjs:627-685 | succeeds exactly when the file exists and `0 <= position <= total`; a failure changes nothing; on success writes the joined `InsertAfter` lines and reports `total + inserted` lines |
| Engine.FindAndReplaceStep | src/fileforge.cjs:772-834 | a missing file fails and changes nothing; otherwise the count is `parts - 1` and `backupCreated` is `createBackup && count > 0`; with no positive count nothing is written or recorded; otherwise the file holds the split-then-join content, with the backup and record when asked |
| Engine.RollbackStep | src/fileforge.cjs:973-1011 | fails, changing nothing, when the id is unknown or its record has no snapshot; otherwise the original path holds the snapshot content, the named backup file is gone, the record is removed (so a second rollback fails) and no other file changes |
| Engine.CleanupStep | src/fileforge.cjs:1158-1183 | the history keeps exactly the records at or after `now - maxAgeHours` hours; exactly the expired records' backup files are deleted; kept files are unchanged; the count is the number of files deleted |
| Engine.GenerateDiffSpec | src/fileforge.cjs:836-879 | fails on the first missing file; otherwise reports the full difference count, the first `min(count, 100)` differences of the full list, `identical` exactly when there are none, both file names, both line counts and both content sizes |
| Engine.ProcessFilesStep | src/fileforge.cjs:1054-1147 | runs the default 24-hour expiry first, then the loop over the paths on the swept files; the files and report are those of that loop, with one result per path naming the path and the operation in input order, success and failure counts that add up, and the swept files untouched unless the operation is `backup` |
| EngineLaws.RollbackUndoesMutation | src/fileforge.cjs:407-417 | a mutation with a backup followed by the rollback of its id returns the files to their earlier state, less the backup and temporary siblings, and returns the history to its earlier state |
| EngineLaws.RollbackUndoesReplace | src/fileforge.cjs:380-477 | rolling back a successful `replaceLines` with a backup restores the files and the history |
| EngineLaws.RollbackUndoesDelete | src/fileforge.cjs:565-625 | rolling back a successful `deleteLines` with a backup restores the files and the history |
| EngineLaws.RollbackUndoesInsert | src/fileforge.cjs:627-685 | rolling back a successful `insertLines` with a backup restores the files and the history |
| EngineLaws.RollbackUndoesFindAndReplace | src/fileforge.cjs:798-814 | rolling back a `findAndReplace` that replaced something restores the files and the history; when nothing was replaced there is nothing to roll back |
| EngineLaws.SweepThenRollback | src/fileforge.cjs:1164-1176 | a record older than the sweep's cutoff can no longer be rolled back; a kept one still can, exactly when it holds a snapshot |
| EngineLaws.SplicedLinesReadBack | src/fileforge.cjs:423-424 | lines free of "\n" that are spliced and joined read back as exactly the spliced lines |
| EngineLaws.ReplaceLinesReadsBack | src/fileforge.cjs:419-455 | after `replaceLines` with a text block the file reads back as the spliced lines, and their number is the reported `totalLines` |
| EngineLaws.InsertLinesReadsBack | src/fileforge.cjs:657-673 | after `insertLines` with a text block the file reads back as the lines with the block inserted, and their number is the reported `totalLines` |
| EngineLaws.ReplaceWithSameLinesKeepsContent | src/fileforge.cjs:419-424 | replacing a span by the lines it holds writes back the same content with the same hash |
| EngineLaws.DeleteThenInsertRestoresFile | src/fileforge.cjs:565-685 | `deleteLines` and then `insertLines` of the deleted lines after line `start - 1` restores the file's content, with or without backups, if at least one line was left; without backups the history is unchanged too |
| EngineLaws.ReplaceEverythingWithNothing | src/fileforge.cjs:419-455 | replacing every line with an empty array reports `totalLines` 0, yet leaves the empty file, which re-reads as one empty line |
| EngineLaws.FindAndReplaceNoMatchIsNoOp | src/fileforge.cjs:793-825 | a non-empty pattern that does not occur leaves the store untouched and reports 0 replacements, no backup, and the hash of the unchanged content |
| EngineLaws.FindAndReplaceCounts | src/fileforge.cjs:793-814 | with a non-empty pattern the count is non-negative, positive exactly when the pattern occurs, and the file's length changes by `count * (|replacement| - |pattern|)` |
| EngineLaws.DiffWithItselfIdentical | src/fileforge.cjs:836-874 | a file compared with itself is reported identical |
| EngineLaws.MutateKeepsSnapshots | src/fileforge.cjs:407-417 | if every record holds a snapshot, it still does after a mutation, since the record a backup adds holds the file's snapshot |
| EngineLaws.ReplaceLinesKeepsSnapshots | src/fileforge.cjs:380-477 | `replaceLines`, successful or not, keeps every record holding a snapshot |
| EngineLaws.DeleteLinesKeepsSnapshots | src/fileforge.cjs:565-625 | `deleteLines`, successful or not, keeps every record holding a snapshot |
| EngineLaws.InsertLinesKeepsSnapshots | src/fileforge.cjs:627-685 | `insertLines`, successful or not, keeps every record holding a snapshot |
| EngineLaws.FindAndReplaceKeepsSnapshots | src/fileforge.cjs:772-834 | `findAndReplace`, successful or not, keeps every record holding a snapshot |
| EngineLaws.RollbackKeepsSnapshots | src/fileforge.cjs:973-1011 | `rollbackOperation` keeps every remaining record holding a snapshot |
| EngineLaws.CleanupKeepsSnapshots | src/fileforge.cjs:1158-1183 | `autoCleanupBackups` keeps every remaining record holding a snapshot |
| EngineLaws.ProcessFilesKeepsSnapshots | src/fileforge.cjs:1054-1060 | `processMultipleFilesEnhanced` keeps every remaining record holding a snapshot |
| EngineLaws.RollbackAlwaysAvailable | src/fileforge.cjs:975-983 | while every record holds a snapshot, `rollbackOperation` succeeds exactly for a recorded id and otherwise fails only with "operation not found" |
| Forge.FileForge.constructor | src/fileforge.cjs:25-26 | a new engine starts with an empty operation history |
| Forge.FileForge.AtomicWrite | src/fileforge.cjs:439-441 | the temp-write-then-rename leaves the files described by `Engine.Commit` and does not touch the history |
| Forge.FileForge.WriteBackup | src/fileforge.cjs:407-417 | writes the backup sibling and records the operation, as `Engine.RecordBackup` describes |
| Forge.FileForge.RestoreOnFailure | src/fileforge.cjs:463-469 | leaves the store described by `Engine.RestoreAfterFailure` |
| Forge.FileForge.ReplaceLines | src/fileforge.cjs:380-477 | leaves exactly the store and result of `Engine.ReplaceLinesStep` |
| Forge.FileForge.DeleteLines | src/fileforge.cjs:565-625 | leaves exactly the store and result of `Engine.DeleteLinesStep` |
| Forge.FileForge.InsertLines | src/fileforge.cjs:627-685 | leaves exactly the store and result of `Engine.InsertLinesStep` |
| Forge.FileForge.FindAndReplace | src/fileforge.cjs:772-834 | leaves exactly the store and result of `Engine.FindAndReplaceStep` |
| Forge.FileForge.RollbackOperation | src/fileforge.cjs:973-1011 | leaves exactly the store and result of `Engine.RollbackStep` |
| Forge.FileForge.AutoCleanupBackups | src/fileforge.cjs:1158-1183 | however the entries are visited, the loop leaves exactly the store and report of `Engine.CleanupStep` |
| Forge.FileForge.SweepEntry | src/fileforge.cjs:1165-1175 | an expired entry is removed, with its backup file when one is named and present; the result says whether a file was deleted; a fresh entry is left alone |
| Forge.FileForge.BatchOperations | src/fileforge.cjs:889-971 | the loop leaves the files of `Batch.RunBatch`, does not touch the history, and returns the summary of its items |
| Forge.FileForge.RunFsOperation | src/fileforge.cjs:898-947 | one filesystem operation changes the files and reports as `Batch.ApplyFsOperation` describes |
| Forge.FileForge.ProcessMultipleFiles | src/fileforge.cjs:1054-1147 | leaves exactly the store and report of `Engine.ProcessFilesStep` |
| Forge.FileForge.ProcessEach | src/fileforge.cjs:1062-1136 | the loop over the paths yields the files and items of `Batch.RunFiles` and does not touch the history |
| Forge.FileForge.ProcessFile | src/fileforge.cjs:1066-1128 | one path's operation changes the files and reports as `Batch.ApplyFileOperation` describes |
| Forge.FileForge.ReadFileChunked | src/fileforge.cjs:304-378 | returns exactly `ChunkedRead.ReadChunked` of the current files |
| Forge.FileForge.GenerateDiff | src/fileforge.cjs:836-887 | the comparison loop returns exactly `Engine.GenerateDiffSpec` of the current files |
| Forge.CutIntoChunks | src/fileforge.cjs:346-357 | the chunking loop returns exactly the chunks `Chunking.ChunksFrom` describes from offset 0 |
| Forge.TakeChunk | src/fileforge.cjs:350-356 | the chunk cut at offset `i` is the first of those described from `i`, and the rest start at `i + chunkSize` |

## Left out

- ChunkedRead.ReadChunked: requires `chunkSize >= 1`. The source's loop never ends for a chunk size of 0 or below once the range is non-empty, so there is no result to model.
- Forge.FileForge.ReadFileChunked: requires `chunkSize >= 1`, for the same reason.
- Forge.CutIntoChunks: requires `chunkSize >= 1`, for the same reason.
- Forge.FileForge.ProcessMultipleFiles: requires a non-negative `chunkSize` for `read_chunks` (`Batch.ParamsUsable`). 0 becomes the default 50. A negative size is passed on unchanged, and the read then loops forever once the file exists and the clamped range is non-empty. On a missing file, a start past the last line or an empty range the source still returns, and the model does not cover those calls.
- Forge.FileForge.ProcessEach: requires `Batch.ParamsUsable`, so it leaves out the same `read_chunks` calls with a negative size that would still return.
- Forge.FileForge.ProcessFile: requires `Batch.ParamsUsable`, so it leaves out the same `read_chunks` calls with a negative size that would still return.
- Batch.ApplyFileOperation: requires `Batch.ParamsUsable`, so it leaves out the same `read_chunks` calls with a negative size that would still return.
- Batch.RunFiles: requires `Batch.ParamsUsable`, so it leaves out the same `read_chunks` calls with a negative size that would still return.
- Engine.ProcessFilesStep: requires `Batch.ParamsUsable`, so it leaves out the same `read_chunks` calls with a negative size that would still return.
- Engine.RollbackStep: states the restored and removed files only when the original and backup paths differ. Those paths always differ for records the engine writes (`History.SiblingsDistinct`).
- Regex mode of `findAndReplace`: JavaScript `RegExp` semantics are not modelled; only the literal mode is.
- The external assembler and embedding tools (`readFileAssembler`, `writeFileAssembler`, `createFileEmbedding`, `findSimilarFiles`, `removeFileEmbedding`, `processFileComplete` and the rest): these run other processes. Reads and writes go straight to the file map, as the source's fallback does. In the multi-file batch, the outcome of these delegated operations is the parameter `delegated`.
- `findCodeStructures`, `validateFileSyntax`, `compressFileContent` and `benchmarkAssemblerPerformance`: regex scanning, `new Function`/`JSON.parse` and timing, reached from the multi-file batch only through `delegated`.
- `getPerformanceAndHistoryStats`: statistics only.
- The tool-request dispatcher of the server: transport plumbing.
- `normalizePath`: path resolution by the platform. Paths are used as given, and the empty path is an ordinary key.
- Timing and floating-point outputs (`processingTime`, `totalProcessingTime`, `averageTimePerFile`, `performance`, `assembler_used`, `embedding_*` flags): not modelled.
- `Date.now()` is the single parameter `now` for a whole call. The source may read the clock several times within one call.
- The MD5 digest is an arbitrary function `hash`. The operation id is the parameter `opId`, so the model does not take ids to be unique. The rollback laws require the id to be fresh instead.
- Crash atomicity of the temp-write-then-rename commit: only its final effect on the file map is modelled.
- I/O errors other than a missing file (permissions, a full disk, failing `unlinkSync` during cleanup): not modelled. Error messages are a datatype rather than text, and failure results do not repeat the operation id.
- Directories: the file map holds files only. `create_directory` fails only when a file stands at that path, and `move` and `delete` act on files.
- Strings are sequences of characters rather than UTF-16 code units, so `size` and `file1Size` count characters.
- The order in which `autoCleanupBackups` visits the history is left open (any order). The result is proved to be the same for every order.
