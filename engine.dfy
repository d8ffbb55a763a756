/** The mutation engine as functions of the store: the file map and the
    operation history before a call, and what the call leaves behind and
    reports. The class in module Forge performs the same steps in place and
    is proved equal to these functions. */
module Engine {
  import opened Text
  import opened LineEdits
  import opened Errors
  import opened History
  import opened Diff
  import opened ChunkedRead
  import opened Batch

  datatype Store = Store(files: FileMap, history: HistoryMap)

  datatype Outcome<T> = Outcome(store: Store, result: Result<T>)

  datatype ReplaceReport = ReplaceReport(
    operationId: string, startLine: int, endLine: int, replacedLines: int,
    newLines: nat, totalLines: nat, backupCreated: bool, fileHash: string)

  datatype DeleteReport = DeleteReport(
    operationId: string, startLine: int, endLine: int, deletedLines: int,
    totalLines: nat, backupCreated: bool, fileHash: string)

  datatype InsertReport = InsertReport(
    operationId: string, insertPosition: int, insertedLines: nat,
    totalLines: nat, backupCreated: bool, fileHash: string)

  datatype ReplaceAllReport = ReplaceAllReport(
    operationId: string, searchPattern: string, replacement: string,
    replacements: int, backupCreated: bool, fileHash: string)

  datatype RollbackReport = RollbackReport(
    operationId: string, restoredFile: string, originalOperation: OpKind, rollbackTime: nat)

  datatype CleanupReport = CleanupReport(cleanedCount: nat, cutoffTime: int)

  datatype DiffReport = DiffReport(
    file1: string, file2: string, totalDifferences: nat, differences: seq<Difference>,
    identical: bool, file1Size: nat, file2Size: nat, file1Lines: nat, file2Lines: nat)

  // ---- snapshots, backups, atomic writes ----

  /** `createFileSnapshot(path)`: nothing for a missing file, otherwise its
      content, the content's hash and length, and the time. */
  function CreateFileSnapshot(files: FileMap, hash: string -> string, path: string, now: nat)
    : (s: Option<Snapshot>)
    ensures s.Some? <==> path in files
    ensures s.Some? ==> && s.value.path == path && s.value.content == files[path]
                        && s.value.hash == hash(s.value.content) && s.value.size == |s.value.content|
                        && s.value.timestamp == now
  {
    if path in files then Some(Snapshot(path, files[path], hash(files[path]), now, |files[path]|))
    else None
  }

  /** Writing the snapshot to `${path}.backup.${now}` and recording the
      operation under its id. */
  function RecordBackup(st: Store, kind: OpKind, opId: string, snapshot: Snapshot, now: nat): (r: Store)
    ensures BackupPath(snapshot.path, now) in r.files
    ensures r.files[BackupPath(snapshot.path, now)] == snapshot.content
    ensures forall p :: p != BackupPath(snapshot.path, now) ==>
              (p in r.files <==> p in st.files) && (p in r.files ==> r.files[p] == st.files[p])
    ensures opId in r.history
    ensures r.history[opId] == OperationRecord(kind, snapshot.path, BackupPath(snapshot.path, now), Some(snapshot), now)
    ensures r.history - {opId} == st.history - {opId}
  {
    var backupPath := BackupPath(snapshot.path, now);
    Store(st.files[backupPath := snapshot.content],
          st.history[opId := OperationRecord(kind, snapshot.path, backupPath, Some(snapshot), now)])
  }

  /** `renameSync(from, to)` */
  function Rename(files: FileMap, from: string, to: string): FileMap
    requires from in files
  {
    (files - {from})[to := files[from]]
  }

  /** The write-to-temporary-then-rename commit: the file gets the content and
      the temporary sibling is gone; nothing else changes. */
  function Commit(files: FileMap, path: string, content: string, now: nat): (r: FileMap)
    ensures path in r && r[path] == content
    ensures TempPath(path, now) !in r
    ensures forall p :: p != path && p != TempPath(path, now) ==>
              (p in r <==> p in files) && (p in r ==> r[p] == files[p])
  {
    SiblingsDistinct(path, now);
    Rename(files[TempPath(path, now) := content], TempPath(path, now), path)
  }

  /** The shared tail of the line mutations: the backup when asked for, then
      the commit of the new content. The old content survives in the backup
      file and in the recorded snapshot; no other file changes. */
  function Mutate(st: Store, hash: string -> string, opId: string, kind: OpKind, path: string,
                  content: string, createBackup: bool, now: nat): (r: Store)
    requires path in st.files
    ensures path in r.files && r.files[path] == content
    ensures TempPath(path, now) !in r.files
    ensures createBackup ==> && BackupPath(path, now) in r.files
                             && r.files[BackupPath(path, now)] == st.files[path]
                             && opId in r.history
                             && r.history[opId].originalPath == path
                             && r.history[opId].backupPath == BackupPath(path, now)
                             && r.history[opId].snapshot == CreateFileSnapshot(st.files, hash, path, now)
                             && r.history[opId].kind == kind
                             && r.history[opId].timestamp == now
                             && r.history - {opId} == st.history - {opId}
    ensures !createBackup ==> r.history == st.history
    ensures forall p :: p != path && p != TempPath(path, now) && (createBackup ==> p != BackupPath(path, now)) ==>
              (p in r.files <==> p in st.files) && (p in r.files ==> r.files[p] == st.files[p])
  {
    SiblingsDistinct(path, now);
    var st1 := if createBackup then RecordBackup(st, kind, opId, CreateFileSnapshot(st.files, hash, path, now).value, now)
               else st;
    Store(Commit(st1.files, path, content, now), st1.history)
  }

  /** The catch block of `replaceLines`: when a record under this id exists,
      holds a snapshot and its backup file is present, the snapshot content
      is written back to the original path. */
  function RestoreAfterFailure(st: Store, opId: string): (r: Store)
    ensures r.history == st.history
    ensures opId in st.history && st.history[opId].snapshot.Some? && st.history[opId].backupPath in st.files ==>
              r.files == st.files[st.history[opId].originalPath := st.history[opId].snapshot.value.content]
    ensures !(opId in st.history && st.history[opId].snapshot.Some? && st.history[opId].backupPath in st.files) ==>
              r == st
  {
    if opId in st.history && st.history[opId].snapshot.Some? && st.history[opId].backupPath in st.files then
      var rec := st.history[opId];
      Store(st.files[rec.originalPath := rec.snapshot.value.content], st.history)
    else st
  }

  // ---- the four line mutations ----

  /** `replaceLines`: the span `[startLine, endLine]` of the file's lines is
      replaced by the new lines. Fails on a missing file, then on a start
      outside `1..totalLines`, then on an end outside `startLine..totalLines`;
      a failure changes nothing unless a record under the same id can be
      restored. */
  function ReplaceLinesStep(st: Store, hash: string -> string, opId: string, path: string,
                            startLine: int, endLine: int, newContent: NewContent,
                            createBackup: bool, now: nat): (r: Outcome<ReplaceReport>)
    ensures r.result.Ok? <==> path in st.files && ValidSpan(|Lines(st.files[path])|, startLine, endLine)
    ensures path !in st.files ==> r.result == Err(FileNotFound(path))
    ensures path in st.files && !(1 <= startLine <= |Lines(st.files[path])|) ==>
              r.result == Err(InvalidStartLine(startLine, |Lines(st.files[path])|))
    ensures (path in st.files && 1 <= startLine <= |Lines(st.files[path])|
             && !(startLine <= endLine <= |Lines(st.files[path])|)) ==> r.result == Err(InvalidEndLine(endLine))
    ensures r.result.Err? ==> r.store == RestoreAfterFailure(st, opId)
    ensures r.result.Ok? ==>
              r.store == Mutate(st, hash, opId, ReplaceLinesOp, path,
                                Unlines(ReplaceSpan(Lines(st.files[path]), startLine, endLine, NewLines(newContent))),
                                createBackup, now)
    ensures r.result.Ok? ==>
              var rep := r.result.value;
              && rep.operationId == opId
              && rep.startLine == startLine && rep.endLine == endLine
              && rep.replacedLines == endLine - startLine + 1
              && rep.newLines == |NewLines(newContent)|
              && rep.totalLines == |Lines(st.files[path])| - rep.replacedLines + rep.newLines
              && rep.backupCreated == createBackup
              && rep.fileHash == hash(r.store.files[path])
  {
    if path !in st.files then Outcome(RestoreAfterFailure(st, opId), Err(FileNotFound(path)))
    else
      var lines := Lines(st.files[path]);
      if startLine < 1 || startLine > |lines| then
        Outcome(RestoreAfterFailure(st, opId), Err(InvalidStartLine(startLine, |lines|)))
      else if endLine < startLine || endLine > |lines| then
        Outcome(RestoreAfterFailure(st, opId), Err(InvalidEndLine(endLine)))
      else
        var newLines := NewLines(newContent);
        var resultLines := ReplaceSpan(lines, startLine, endLine, newLines);
        var resultContent := Unlines(resultLines);
        Outcome(Mutate(st, hash, opId, ReplaceLinesOp, path, resultContent, createBackup, now),
                Ok(ReplaceReport(opId, startLine, endLine, endLine - startLine + 1, |newLines|,
                                 |resultLines|, createBackup, hash(resultContent))))
  }

  /** `deleteLines`: the same checks as `replaceLines`, the span removed; a
      failure changes nothing. */
  function DeleteLinesStep(st: Store, hash: string -> string, opId: string, path: string,
                           startLine: int, endLine: int, createBackup: bool, now: nat): (r: Outcome<DeleteReport>)
    ensures r.result.Ok? <==> path in st.files && ValidSpan(|Lines(st.files[path])|, startLine, endLine)
    ensures path !in st.files ==> r.result == Err(FileNotFound(path))
    ensures path in st.files && !(1 <= startLine <= |Lines(st.files[path])|) ==>
              r.result == Err(InvalidStartLine(startLine, |Lines(st.files[path])|))
    ensures (path in st.files && 1 <= startLine <= |Lines(st.files[path])|
             && !(startLine <= endLine <= |Lines(st.files[path])|)) ==> r.result == Err(InvalidEndLine(endLine))
    ensures r.result.Err? ==> r.store == st
    ensures r.result.Ok? ==>
              r.store == Mutate(st, hash, opId, DeleteLinesOp, path,
                                Unlines(DeleteSpan(Lines(st.files[path]), startLine, endLine)), createBackup, now)
    ensures r.result.Ok? ==>
              var rep := r.result.value;
              && rep.operationId == opId
              && rep.startLine == startLine && rep.endLine == endLine
              && rep.deletedLines == endLine - startLine + 1
              && rep.totalLines == |Lines(st.files[path])| - rep.deletedLines
              && rep.backupCreated == createBackup
              && rep.fileHash == hash(r.store.files[path])
  {
    if path !in st.files then Outcome(st, Err(FileNotFound(path)))
    else
      var lines := Lines(st.files[path]);
      if startLine < 1 || startLine > |lines| then Outcome(st, Err(InvalidStartLine(startLine, |lines|)))
      else if endLine < startLine || endLine > |lines| then Outcome(st, Err(InvalidEndLine(endLine)))
      else
        var resultLines := DeleteSpan(lines, startLine, endLine);
        var resultContent := Unlines(resultLines);
        Outcome(Mutate(st, hash, opId, DeleteLinesOp, path, resultContent, createBackup, now),
                Ok(DeleteReport(opId, startLine, endLine, endLine - startLine + 1, |resultLines|,
                                createBackup, hash(resultContent))))
  }

  /** `insertLines`: the new lines go after line `position`, where 0 means
      before the first line and `totalLines` after the last. */
  function InsertLinesStep(st: Store, hash: string -> string, opId: string, path: string,
                           position: int, newContent: NewContent, createBackup: bool, now: nat)
    : (r: Outcome<InsertReport>)
    ensures r.result.Ok? <==> path in st.files && 0 <= position <= |Lines(st.files[path])|
    ensures path !in st.files ==> r.result == Err(FileNotFound(path))
    ensures path in st.files && !(0 <= position <= |Lines(st.files[path])|) ==>
              r.result == Err(InvalidInsertPosition(position))
    ensures r.result.Err? ==> r.store == st
    ensures r.result.Ok? ==>
              r.store == Mutate(st, hash, opId, InsertLinesOp, path,
                                Unlines(InsertAfter(Lines(st.files[path]), position, NewLines(newContent))),
                                createBackup, now)
    ensures r.result.Ok? ==>
              var rep := r.result.value;
              && rep.operationId == opId
              && rep.insertPosition == position
              && rep.insertedLines == |NewLines(newContent)|
              && rep.totalLines == |Lines(st.files[path])| + rep.insertedLines
              && rep.backupCreated == createBackup
              && rep.fileHash == hash(r.store.files[path])
  {
    if path !in st.files then Outcome(st, Err(FileNotFound(path)))
    else
      var lines := Lines(st.files[path]);
      if position < 0 || position > |lines| then Outcome(st, Err(InvalidInsertPosition(position)))
      else
        var newLines := NewLines(newContent);
        var resultLines := InsertAfter(lines, position, newLines);
        var resultContent := Unlines(resultLines);
        Outcome(Mutate(st, hash, opId, InsertLinesOp, path, resultContent, createBackup, now),
                Ok(InsertReport(opId, position, |newLines|, |resultLines|, createBackup, hash(resultContent))))
  }

  /** `findAndReplace` with a literal pattern: `content.split(pattern)
      .join(replacement)`, reporting `parts.length - 1` replacements. Only a
      positive count takes a backup and writes the file. */
  function FindAndReplaceStep(st: Store, hash: string -> string, opId: string, path: string,
                              pattern: string, replacement: string, createBackup: bool, now: nat)
    : (r: Outcome<ReplaceAllReport>)
    ensures r.result.Ok? <==> path in st.files
    ensures path !in st.files ==> r.result == Err(FileNotFound(path)) && r.store == st
    ensures r.result.Ok? ==>
              var rep := r.result.value;
              && rep.operationId == opId
              && rep.searchPattern == pattern && rep.replacement == replacement
              && rep.replacements == Occurrences(st.files[path], pattern)
              && rep.backupCreated == (createBackup && rep.replacements > 0)
              && (rep.replacements <= 0 ==> r.store == st && rep.fileHash == hash(st.files[path]))
              && (rep.replacements > 0 ==>
                    r.store == Mutate(st, hash, opId, FindAndReplaceOp, path,
                                      ReplaceAll(st.files[path], pattern, replacement), createBackup, now)
                    && rep.fileHash == hash(r.store.files[path]))
  {
    if path !in st.files then Outcome(st, Err(FileNotFound(path)))
    else
      var content := st.files[path];
      var parts := Split(content, pattern);
      var replacements := |parts| - 1;
      var resultContent := Join(parts, replacement);
      var report := ReplaceAllReport(opId, pattern, replacement, replacements,
                                     createBackup && replacements > 0, hash(resultContent));
      if replacements <= 0 then
        ReplaceAllNoMatch(content, pattern, replacement);
        Outcome(st, Ok(report))
      else
        Outcome(Mutate(st, hash, opId, FindAndReplaceOp, path, resultContent, createBackup, now), Ok(report))
  }

  // ---- rollback and expiry ----

  /** `rollbackOperation`: the recorded snapshot is written back to the
      original path, the backup file (if named and present) is removed and
      the record is dropped. */
  function RollbackStep(st: Store, opId: string, now: nat): (r: Outcome<RollbackReport>)
    ensures r.result.Ok? <==> opId in st.history && st.history[opId].snapshot.Some?
    ensures opId !in st.history ==> r.result == Err(OperationNotFound(opId))
    ensures opId in st.history && st.history[opId].snapshot.None? ==> r.result == Err(SnapshotMissing(opId))
    ensures r.result.Err? ==> r.store == st
    ensures r.result.Ok? ==>
              var rec := st.history[opId];
              && r.store.history == st.history - {opId}
              && r.result.value == RollbackReport(opId, rec.originalPath, rec.kind, now)
              && (rec.originalPath != rec.backupPath ==>
                    rec.originalPath in r.store.files
                    && r.store.files[rec.originalPath] == rec.snapshot.value.content)
              && (rec.backupPath != "" && rec.originalPath != rec.backupPath ==> rec.backupPath !in r.store.files)
              && (forall p :: p != rec.originalPath && p != rec.backupPath ==>
                    (p in r.store.files <==> p in st.files) && (p in st.files ==> r.store.files[p] == st.files[p]))
  {
    if opId !in st.history then Outcome(st, Err(OperationNotFound(opId)))
    else
      var rec := st.history[opId];
      if rec.snapshot.None? then Outcome(st, Err(SnapshotMissing(opId)))
      else
        var restored := st.files[rec.originalPath := rec.snapshot.value.content];
        var cleaned := if rec.backupPath != "" && rec.backupPath in restored then restored - {rec.backupPath}
                       else restored;
        Outcome(Store(cleaned, st.history - {opId}), Ok(RollbackReport(opId, rec.originalPath, rec.kind, now)))
  }

  /** `autoCleanupBackups(maxAgeHours)`: every record stamped before
      `now - maxAgeHours` hours is dropped and its backup file deleted; the
      count is the number of such backup files that existed. */
  function CleanupStep(st: Store, now: nat, maxAgeHours: int): (r: (Store, CleanupReport))
    ensures r.0.history == Retained(st.history, Cutoff(now, maxAgeHours))
    ensures r.0.files.Keys == st.files.Keys - ExpiredBackups(st.history, Cutoff(now, maxAgeHours))
    ensures forall p :: p in r.0.files ==> r.0.files[p] == st.files[p]
    ensures r.1.cutoffTime == Cutoff(now, maxAgeHours)
    ensures r.1.cleanedCount == |st.files.Keys| - |r.0.files.Keys|
  {
    var cutoff := Cutoff(now, maxAgeHours);
    var gone := ExpiredBackups(st.history, cutoff);
    var kept := st.files - gone;
    assert kept.Keys == st.files.Keys - gone;
    SplitCardinality(st.files.Keys, gone);
    (Store(kept, Retained(st.history, cutoff)), CleanupReport(|gone * st.files.Keys|, cutoff))
  }

  lemma SplitCardinality(a: set<string>, b: set<string>)
    ensures |a| == |a - b| + |a * b|
  {
    assert a == (a - b) + (a * b);
    assert (a - b) !! (a * b);
  }

  // ---- diff ----

  /** `generateDiff(path1, path2)`: fails on the first missing file;
      otherwise the summary of the line-by-line differences with both
      files' sizes and line counts. */
  function GenerateDiffSpec(files: FileMap, path1: string, path2: string): (r: Result<DiffReport>)
    ensures path1 !in files ==> r == Err(FileNotFound(path1))
    ensures path1 in files && path2 !in files ==> r == Err(FileNotFound(path2))
    ensures r.Ok? <==> path1 in files && path2 in files
    ensures r.Ok? ==> && r.value.totalDifferences == |Differences(Lines(files[path1]), Lines(files[path2]))|
                      && r.value.differences <= Differences(Lines(files[path1]), Lines(files[path2]))
                      && |r.value.differences|
                         == (if r.value.totalDifferences <= MaxReported then r.value.totalDifferences else MaxReported)
                      && (r.value.identical <==> r.value.totalDifferences == 0)
                      && r.value.file1Lines == |Lines(files[path1])|
                      && r.value.file2Lines == |Lines(files[path2])|
                      && r.value.file1 == path1 && r.value.file2 == path2
                      && r.value.file1Size == |files[path1]| && r.value.file2Size == |files[path2]|
  {
    if path1 !in files then Err(FileNotFound(path1))
    else if path2 !in files then Err(FileNotFound(path2))
    else
      var c1 := files[path1];
      var c2 := files[path2];
      var s := Summarize(Differences(Lines(c1), Lines(c2)));
      Ok(DiffReport(path1, path2, s.totalDifferences, s.differences, s.identical,
                    |c1|, |c2|, |Lines(c1)|, |Lines(c2)|))
  }

  // ---- the multi-file batch ----

  /** `processMultipleFilesEnhanced`: the default expiry sweep, then the
      operation on every path in order. */
  function ProcessFilesStep(st: Store, hash: string -> string, paths: seq<string>, op: FileOperation,
                            params: FileOpParams, now: nat, delegated: (FileOperation, string) -> bool)
    : (r: (Store, MultiFileReport))
    requires ParamsUsable(op, params)
    ensures r.0.history == Retained(st.history, Cutoff(now, DefaultMaxAgeHours))
    ensures r.1.totalFiles == |paths| == |r.1.results|
    ensures r.1.successfulOperations + r.1.failedOperations == |paths|
    ensures r.0.files == RunFiles(CleanupStep(st, now, DefaultMaxAgeHours).0.files, hash, paths, op, params, now, delegated).0
    ensures r.1 == FilesSummary(RunFiles(CleanupStep(st, now, DefaultMaxAgeHours).0.files, hash, paths, op, params, now, delegated).1)
    ensures forall i :: 0 <= i < |paths| ==> r.1.results[i].filePath == paths[i] && r.1.results[i].operation == op
    ensures !op.BackupFile? ==> r.0.files == CleanupStep(st, now, DefaultMaxAgeHours).0.files
  {
    var swept := CleanupStep(st, now, DefaultMaxAgeHours).0;
    var run := RunFiles(swept.files, hash, paths, op, params, now, delegated);
    FilesAreSequential(swept.files, hash, paths, op, params, now, delegated);
    OnlyBackupWrites(swept.files, hash, paths, op, params, now, delegated);
    (Store(run.0, swept.history), FilesSummary(run.1))
  }
}
