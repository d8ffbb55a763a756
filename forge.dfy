/** The `FileForge` object: the file map it works on and its in-memory
    operation history, updated in place by its methods. Each method performs
    the source's steps one by one and is proved to leave exactly the store and
    result of the matching function in module Engine. */
module Forge {
  import opened Text
  import opened LineEdits
  import opened Errors
  import opened History
  import opened Diff
  import opened Chunking
  import opened ChunkedRead
  import opened Batch
  import opened Engine

  /** The backup files of the expired records among `done`. */
  ghost function ExpiredAmong(h: HistoryMap, done: set<string>, cutoff: int): set<string>
  {
    set id | id in done && id in h && h[id].timestamp < cutoff && h[id].backupPath != "" :: h[id].backupPath
  }

  /** The history while a sweep is half-way: the records not yet looked at,
      and the fresh ones among those already looked at. */
  ghost function KeptSoFar(h: HistoryMap, pending: set<string>, cutoff: int): HistoryMap
  {
    map id | id in h && (id in pending || h[id].timestamp >= cutoff) :: h[id]
  }

  class FileForge {
    /** The MD5 digest, as an uninterpreted function of the content. */
    const hash: string -> string
    var files: FileMap
    var history: HistoryMap

    constructor (hash: string -> string, files: FileMap)
      ensures this.hash == hash && this.files == files && this.history == map[]
    {
      this.hash := hash;
      this.files := files;
      this.history := map[];
    }

    function State(): Store
      reads this
    {
      Store(files, history)
    }

    /** `writeFileSync(tempPath)` then `renameSync(tempPath, path)`. */
    method AtomicWrite(path: string, content: string, now: nat)
      modifies this
      ensures files == Commit(old(files), path, content, now)
      ensures history == old(history)
    {
      var tempPath := TempPath(path, now);
      files := files[tempPath := content];
      files := Rename(files, tempPath, path);
    }

    /** Writes the snapshot's content to the backup sibling and records the
        operation under `opId`. */
    method WriteBackup(kind: OpKind, opId: string, snapshot: Snapshot, now: nat)
      modifies this
      ensures State() == RecordBackup(old(State()), kind, opId, snapshot, now)
    {
      var backupPath := BackupPath(snapshot.path, now);
      files := files[backupPath := snapshot.content];
      history := history[opId := OperationRecord(kind, snapshot.path, backupPath, Some(snapshot), now)];
    }

    /** The catch block of `replaceLines`. */
    method RestoreOnFailure(opId: string)
      modifies this
      ensures State() == RestoreAfterFailure(old(State()), opId)
    {
      if opId in history {
        var operation := history[opId];
        if operation.snapshot.Some? && operation.backupPath in files {
          files := files[operation.originalPath := operation.snapshot.value.content];
        }
      }
    }

    method ReplaceLines(opId: string, path: string, startLine: int, endLine: int, newContent: NewContent,
                        createBackup: bool, now: nat) returns (r: Result<ReplaceReport>)
      modifies this
      ensures Outcome(State(), r)
           == ReplaceLinesStep(old(State()), hash, opId, path, startLine, endLine, newContent, createBackup, now)
    {
      var snapshot := if createBackup then CreateFileSnapshot(files, hash, path, now) else None;
      if path !in files {
        RestoreOnFailure(opId);
        return Err(FileNotFound(path));
      }
      var content := files[path];
      var lines := Lines(content);
      var totalLines := |lines|;
      if startLine < 1 || startLine > totalLines {
        RestoreOnFailure(opId);
        return Err(InvalidStartLine(startLine, totalLines));
      }
      if endLine < startLine || endLine > totalLines {
        RestoreOnFailure(opId);
        return Err(InvalidEndLine(endLine));
      }
      if createBackup && snapshot.Some? {
        WriteBackup(ReplaceLinesOp, opId, snapshot.value, now);
      }
      var newLines := NewLines(newContent);
      var resultLines := ReplaceSpan(lines, startLine, endLine, newLines);
      var resultContent := Unlines(resultLines);
      AtomicWrite(path, resultContent, now);
      r := Ok(ReplaceReport(opId, startLine, endLine, endLine - startLine + 1, |newLines|,
                            |resultLines|, createBackup, hash(resultContent)));
    }

    method DeleteLines(opId: string, path: string, startLine: int, endLine: int,
                       createBackup: bool, now: nat) returns (r: Result<DeleteReport>)
      modifies this
      ensures Outcome(State(), r)
           == DeleteLinesStep(old(State()), hash, opId, path, startLine, endLine, createBackup, now)
    {
      var snapshot := if createBackup then CreateFileSnapshot(files, hash, path, now) else None;
      if path !in files {
        return Err(FileNotFound(path));
      }
      var content := files[path];
      var lines := Lines(content);
      var totalLines := |lines|;
      if startLine < 1 || startLine > totalLines {
        return Err(InvalidStartLine(startLine, totalLines));
      }
      if endLine < startLine || endLine > totalLines {
        return Err(InvalidEndLine(endLine));
      }
      if createBackup && snapshot.Some? {
        WriteBackup(DeleteLinesOp, opId, snapshot.value, now);
      }
      var resultLines := DeleteSpan(lines, startLine, endLine);
      var resultContent := Unlines(resultLines);
      AtomicWrite(path, resultContent, now);
      r := Ok(DeleteReport(opId, startLine, endLine, endLine - startLine + 1, |resultLines|,
                           createBackup, hash(resultContent)));
    }

    method InsertLines(opId: string, path: string, insertAfterLine: int, newContent: NewContent,
                       createBackup: bool, now: nat) returns (r: Result<InsertReport>)
      modifies this
      ensures Outcome(State(), r)
           == InsertLinesStep(old(State()), hash, opId, path, insertAfterLine, newContent, createBackup, now)
    {
      var snapshot := if createBackup then CreateFileSnapshot(files, hash, path, now) else None;
      if path !in files {
        return Err(FileNotFound(path));
      }
      var content := files[path];
      var lines := Lines(content);
      var totalLines := |lines|;
      if insertAfterLine < 0 || insertAfterLine > totalLines {
        return Err(InvalidInsertPosition(insertAfterLine));
      }
      if createBackup && snapshot.Some? {
        WriteBackup(InsertLinesOp, opId, snapshot.value, now);
      }
      var newLines := NewLines(newContent);
      var resultLines := InsertAfter(lines, insertAfterLine, newLines);
      var resultContent := Unlines(resultLines);
      AtomicWrite(path, resultContent, now);
      r := Ok(InsertReport(opId, insertAfterLine, |newLines|, |resultLines|, createBackup, hash(resultContent)));
    }

    /** `findAndReplace` with `isRegex` false. */
    method FindAndReplace(opId: string, path: string, searchPattern: string, replacement: string,
                          createBackup: bool, now: nat) returns (r: Result<ReplaceAllReport>)
      modifies this
      ensures Outcome(State(), r)
           == FindAndReplaceStep(old(State()), hash, opId, path, searchPattern, replacement, createBackup, now)
    {
      var snapshot := if createBackup then CreateFileSnapshot(files, hash, path, now) else None;
      if path !in files {
        return Err(FileNotFound(path));
      }
      var content := files[path];
      var parts := Split(content, searchPattern);
      var replacements := |parts| - 1;
      var resultContent := Join(parts, replacement);
      if createBackup && snapshot.Some? && replacements > 0 {
        WriteBackup(FindAndReplaceOp, opId, snapshot.value, now);
      }
      if replacements > 0 {
        AtomicWrite(path, resultContent, now);
      }
      r := Ok(ReplaceAllReport(opId, searchPattern, replacement, replacements,
                               createBackup && replacements > 0, hash(resultContent)));
    }

    method RollbackOperation(opId: string, now: nat) returns (r: Result<RollbackReport>)
      modifies this
      ensures Outcome(State(), r) == RollbackStep(old(State()), opId, now)
    {
      if opId !in history {
        return Err(OperationNotFound(opId));
      }
      var operation := history[opId];
      if operation.snapshot.None? {
        return Err(SnapshotMissing(opId));
      }
      files := files[operation.originalPath := operation.snapshot.value.content];
      if operation.backupPath != "" && operation.backupPath in files {
        files := files - {operation.backupPath};
      }
      history := history - {opId};
      r := Ok(RollbackReport(opId, operation.originalPath, operation.kind, now));
    }

    /** The expiry sweep, one history entry at a time in no particular
        order. */
    method AutoCleanupBackups(now: nat, maxAgeHours: int) returns (report: CleanupReport)
      modifies this
      ensures (State(), report) == CleanupStep(old(State()), now, maxAgeHours)
    {
      var cleanedCount := 0;
      var cutoffTime := Cutoff(now, maxAgeHours);
      ghost var h0 := history;
      ghost var f0 := files;
      var pending := history.Keys;
      ghost var gone: set<string> := {};
      while pending != {}
        invariant pending <= h0.Keys
        invariant history == KeptSoFar(h0, pending, cutoffTime)
        invariant gone == ExpiredAmong(h0, h0.Keys - pending, cutoffTime)
        invariant files == f0 - gone
        invariant cleanedCount == |gone * f0.Keys|
        decreases |pending|
      {
        var operationId :| operationId in pending;
        SweepStepHistory(h0, pending, operationId, cutoffTime);
        SweepStepExpired(h0, pending, operationId, cutoffTime);
        var operation := history[operationId];
        if operation.timestamp < cutoffTime && operation.backupPath != "" {
          SweepStepFiles(f0, gone, operation.backupPath);
          gone := gone + {operation.backupPath};
        }
        var deleted := SweepEntry(operationId, cutoffTime);
        if deleted {
          cleanedCount := cleanedCount + 1;
        }
        pending := pending - {operationId};
      }
      SweepDone(h0, cutoffTime);
      report := CleanupReport(cleanedCount, cutoffTime);
    }

    /** One entry of the sweep: an expired record is dropped, and its backup
        file deleted when it names one that is present. */
    method SweepEntry(operationId: string, cutoffTime: int) returns (deleted: bool)
      requires operationId in history
      modifies this
      ensures var operation := old(history)[operationId];
              && deleted == (operation.timestamp < cutoffTime && operation.backupPath != ""
                             && operation.backupPath in old(files))
              && files == (if deleted then old(files) - {operation.backupPath} else old(files))
              && history == (if operation.timestamp < cutoffTime then old(history) - {operationId}
                             else old(history))
    {
      var operation := history[operationId];
      deleted := false;
      if operation.timestamp < cutoffTime {
        if operation.backupPath != "" && operation.backupPath in files {
          files := files - {operation.backupPath};
          deleted := true;
        }
        history := history - {operationId};
      }
    }

    /** `batchOperations`: every operation in order, each on the files the
        previous ones left. */
    method BatchOperations(operations: seq<FsOperation>) returns (report: BatchReport)
      modifies this
      ensures files == RunBatch(old(files), operations).0
      ensures history == old(history)
      ensures report == BatchSummary(RunBatch(old(files), operations).1)
    {
      ghost var f0 := files;
      var results := [];
      var i := 0;
      while i < |operations|
        invariant 0 <= i <= |operations|
        invariant files == RunBatch(f0, operations[..i]).0
        invariant results == RunBatch(f0, operations[..i]).1
        invariant history == old(history)
      {
        assert operations[..i + 1][..i] == operations[..i];
        var result := RunFsOperation(operations[i]);
        results := results + [BatchItem(operations[i], result)];
        i := i + 1;
      }
      assert operations[..i] == operations;
      report := BatchSummary(results);
    }

    /** One `copy`, `move`, `delete` or `create_directory`. */
    method RunFsOperation(operation: FsOperation) returns (result: FsOutcome)
      modifies this
      ensures (files, result) == ApplyFsOperation(old(files), operation)
      ensures history == old(history)
    {
      match operation
      case Copy(source, destination) =>
        if source !in files {
          return FsFailed(FileNotFound(source));
        }
        var content := files[source];
        files := files[destination := content];
        result := Copied(source, destination, |content|);
      case Move(source, destination) =>
        if source !in files {
          return FsFailed(FileNotFound(source));
        }
        files := Rename(files, source, destination);
        result := Moved(source, destination);
      case Delete(target) =>
        if target !in files {
          return FsFailed(FileNotFound(target));
        }
        files := files - {target};
        result := FsOutcome.Deleted(target);
      case CreateDirectory(path) =>
        if path in files {
          return FsFailed(AlreadyExists(path));
        }
        result := DirectoryCreated(path);
      case Unrecognized(typeName) =>
        result := FsFailed(UnknownOperationType(typeName));
    }

    /** `processMultipleFilesEnhanced`: the default expiry sweep, then the
        operation on every path in order. */
    method ProcessMultipleFiles(filePaths: seq<string>, operationType: FileOperation, params: FileOpParams,
                                now: nat, delegated: (FileOperation, string) -> bool)
      returns (report: MultiFileReport)
      requires ParamsUsable(operationType, params)
      modifies this
      ensures (State(), report)
           == ProcessFilesStep(old(State()), hash, filePaths, operationType, params, now, delegated)
    {
      var _ := AutoCleanupBackups(now, DefaultMaxAgeHours);
      var results := ProcessEach(filePaths, operationType, params, now, delegated);
      report := FilesSummary(results);
    }

    /** The loop over the paths, each processed on the files the previous
        ones left. */
    method ProcessEach(filePaths: seq<string>, operationType: FileOperation, params: FileOpParams,
                       now: nat, delegated: (FileOperation, string) -> bool)
      returns (results: seq<FileItem>)
      requires ParamsUsable(operationType, params)
      modifies this
      ensures (files, results) == RunFiles(old(files), hash, filePaths, operationType, params, now, delegated)
      ensures history == old(history)
    {
      ghost var f0 := files;
      results := [];
      var i := 0;
      while i < |filePaths|
        invariant 0 <= i <= |filePaths|
        invariant (files, results) == RunFiles(f0, hash, filePaths[..i], operationType, params, now, delegated)
        invariant history == old(history)
      {
        assert filePaths[..i + 1][..i] == filePaths[..i];
        var result := ProcessFile(filePaths[i], operationType, params, now, delegated);
        results := results + [FileItem(filePaths[i], operationType, result)];
        i := i + 1;
      }
      assert filePaths[..i] == filePaths;
    }

    /** The `switch (operationType)` for one path. */
    method ProcessFile(filePath: string, operationType: FileOperation, params: FileOpParams,
                       now: nat, delegated: (FileOperation, string) -> bool) returns (result: FileOutcome)
      requires ParamsUsable(operationType, params)
      modifies this
      ensures (files, result) == ApplyFileOperation(old(files), hash, filePath, operationType, params, now, delegated)
      ensures history == old(history)
    {
      match operationType
      case ReadChunks =>
        var read := ReadFileChunked(filePath, ChunkSizeOr(params), StartLineOr(params), params.endLine);
        result := ChunksRead(read);
      case BackupFile =>
        var snapshot := CreateFileSnapshot(files, hash, filePath, now);
        if snapshot.Some? {
          var backupPath := BackupPath(filePath, now);
          files := files[backupPath := snapshot.value.content];
          result := BackedUp(backupPath, snapshot.value.hash);
        } else {
          result := FileFailed(BackupFailed);
        }
      case UnrecognizedOperation(name) =>
        result := FileFailed(UnknownOperationType(name));
      case _ =>
        result := Delegated(delegated(operationType, filePath));
    }

    /** `readFileChunked` without the assembler: the clamped range cut into
        chunks of `chunkSize` lines. */
    method ReadFileChunked(filePath: string, chunkSize: int, startLine: int, endLine: int)
      returns (r: Result<ChunkedRead>)
      requires chunkSize >= 1
      ensures r == ReadChunked(files, hash, filePath, chunkSize, startLine, endLine)
    {
      if filePath !in files {
        return Err(FileNotFound(filePath));
      }
      var fileContent := files[filePath];
      var lines := Lines(fileContent);
      var totalLines := |lines|;
      var actualEndLine := ActualEnd(totalLines, endLine);
      var actualStartLine := ActualStart(startLine);
      if actualStartLine > totalLines {
        return Err(StartBeyondEnd(actualStartLine, totalLines));
      }
      var requestedLines := Slice(lines, actualStartLine - 1, actualEndLine);
      var chunks := CutIntoChunks(requestedLines, chunkSize, actualStartLine, actualEndLine);
      r := Ok(ChunkedRead(filePath, totalLines, actualStartLine, actualEndLine, chunks, |chunks|,
                          hash(fileContent)));
    }

    method GenerateDiff(filePath1: string, filePath2: string) returns (r: Result<DiffReport>)
      ensures r == GenerateDiffSpec(files, filePath1, filePath2)
    {
      if filePath1 !in files {
        return Err(FileNotFound(filePath1));
      }
      if filePath2 !in files {
        return Err(FileNotFound(filePath2));
      }
      var content1 := files[filePath1];
      var content2 := files[filePath2];
      var lines1 := Lines(content1);
      var lines2 := Lines(content2);
      var diff := [];
      var maxLines := MaxLen(lines1, lines2);
      var i := 0;
      while i < maxLines
        invariant 0 <= i <= maxLines
        invariant diff == DiffUpTo(lines1, lines2, i)
      {
        var line1 := LineOr(lines1, i);
        var line2 := LineOr(lines2, i);
        if line1 != line2 {
          diff := diff + [Difference(i + 1, line1, line2, Classify(line1, line2))];
        }
        i := i + 1;
      }
      var summary := Summarize(diff);
      r := Ok(DiffReport(filePath1, filePath2, summary.totalDifferences, summary.differences, summary.identical,
                         |content1|, |content2|, |lines1|, |lines2|));
    }
  }

  /** The chunking loop of `readFileChunked`: pieces of `chunkSize` lines
      taken from offset 0, `chunkSize`, `2 * chunkSize`, ... */
  method CutIntoChunks(requestedLines: seq<string>, chunkSize: int, actualStartLine: int, actualEndLine: int)
    returns (chunks: seq<Chunk>)
    requires chunkSize >= 1
    ensures chunks == ChunksFrom(requestedLines, 0, chunkSize, actualStartLine, actualEndLine)
  {
    ghost var all := ChunksFrom(requestedLines, 0, chunkSize, actualStartLine, actualEndLine);
    chunks := [];
    var i := 0;
    while i < |requestedLines|
      invariant 0 <= i
      invariant chunks + ChunksFrom(requestedLines, i, chunkSize, actualStartLine, actualEndLine) == all
      decreases |requestedLines| - i
    {
      var next := TakeChunk(requestedLines, i, chunkSize, actualStartLine, actualEndLine);
      ghost var rest := ChunksFrom(requestedLines, i + chunkSize, chunkSize, actualStartLine, actualEndLine);
      assert chunks + ([next] + rest) == (chunks + [next]) + rest;
      chunks := chunks + [next];
      i := i + chunkSize;
    }
  }

  /** One pass of the chunking loop: the piece starting at offset `i`, with
      its 1-based first and last line numbers. */
  method TakeChunk(requestedLines: seq<string>, i: nat, chunkSize: int, actualStartLine: int, actualEndLine: int)
    returns (next: Chunk)
    requires chunkSize >= 1 && i < |requestedLines|
    ensures ChunksFrom(requestedLines, i, chunkSize, actualStartLine, actualEndLine)
            == [next] + ChunksFrom(requestedLines, i + chunkSize, chunkSize, actualStartLine, actualEndLine)
  {
    var chunk := Slice(requestedLines, i, i + chunkSize);
    assert chunk == requestedLines[i..Min(i + chunkSize, |requestedLines|)];
    next := Chunk(actualStartLine + i, Min(actualStartLine + i + |chunk| - 1, actualEndLine),
                  Unlines(chunk), |chunk|);
  }

  /** When nothing is pending, the sweep has produced exactly what the
      expiry functions describe. */
  lemma SweepDone(h0: HistoryMap, cutoff: int)
    ensures KeptSoFar(h0, {}, cutoff) == Retained(h0, cutoff)
    ensures ExpiredAmong(h0, h0.Keys - {}, cutoff) == ExpiredBackups(h0, cutoff)
  {
    assert h0.Keys - {} == h0.Keys;
  }

  /** Looking at `id` drops it from the history when it is expired and keeps
      it otherwise. */
  lemma SweepStepHistory(h0: HistoryMap, pending: set<string>, id: string, cutoff: int)
    requires id in pending && pending <= h0.Keys
    ensures id in KeptSoFar(h0, pending, cutoff) && KeptSoFar(h0, pending, cutoff)[id] == h0[id]
    ensures KeptSoFar(h0, pending - {id}, cutoff)
         == if h0[id].timestamp < cutoff then KeptSoFar(h0, pending, cutoff) - {id}
            else KeptSoFar(h0, pending, cutoff)
  {
  }

  /** Looking at `id` adds its backup file to the expired ones exactly when
      the record is expired and names a backup. */
  lemma SweepStepExpired(h0: HistoryMap, pending: set<string>, id: string, cutoff: int)
    requires id in pending && pending <= h0.Keys
    ensures ExpiredAmong(h0, h0.Keys - (pending - {id}), cutoff)
         == if h0[id].timestamp < cutoff && h0[id].backupPath != "" then
              ExpiredAmong(h0, h0.Keys - pending, cutoff) + {h0[id].backupPath}
            else ExpiredAmong(h0, h0.Keys - pending, cutoff)
  {
    var e := ExpiredAmong(h0, h0.Keys - pending, cutoff);
    var e' := ExpiredAmong(h0, h0.Keys - (pending - {id}), cutoff);
    if h0[id].timestamp < cutoff && h0[id].backupPath != "" {
      assert h0[id].backupPath in e';
      assert e' == e + {h0[id].backupPath};
    } else {
      assert e' == e;
    }
  }

  /** Deleting one more backup file `b`: when it is still present it goes and
      the count of deleted files grows by one; otherwise nothing changes. */
  lemma SweepStepFiles(f0: FileMap, e: set<string>, b: string)
    ensures b in f0 - e ==> f0 - (e + {b}) == (f0 - e) - {b} && |(e + {b}) * f0.Keys| == |e * f0.Keys| + 1
    ensures b !in f0 - e ==> f0 - (e + {b}) == f0 - e && |(e + {b}) * f0.Keys| == |e * f0.Keys|
  {
    if b in f0 - e {
      assert (e + {b}) * f0.Keys == (e * f0.Keys) + {b};
      assert b !in e * f0.Keys;
    } else {
      assert (e + {b}) * f0.Keys == e * f0.Keys;
    }
  }
}
