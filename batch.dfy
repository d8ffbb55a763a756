/** The two sequential batch loops: a list of filesystem operations, and one
    per-file operation applied to a list of paths. Each item is run on the
    state the previous items left, its failure is recorded against it, and
    the loop always goes on to the next item. */
module Batch {
  import opened Errors
  import opened History
  import opened ChunkedRead

  type FileMap = map<string, string>

  // ---- filesystem batch ----

  datatype FsOperation =
    | Copy(source: string, destination: string)
    | Move(source: string, destination: string)
    | Delete(target: string)
    | CreateDirectory(path: string)
    | Unrecognized(typeName: string)

  datatype FsOutcome =
    | Copied(source: string, destination: string, size: nat)
    | Moved(source: string, destination: string)
    | Deleted(target: string)
    | DirectoryCreated(path: string)
    | FsFailed(error: Error)

  datatype BatchItem = BatchItem(operation: FsOperation, result: FsOutcome)

  /** One filesystem operation: `copy` reads the source and writes it to the
      destination, `move` renames, `delete` unlinks, `create_directory`
      creates the path unless a file already stands there. Directories are
      not entries of the file map. */
  function ApplyFsOperation(files: FileMap, op: FsOperation): (r: (FileMap, FsOutcome))
    ensures r.1.FsFailed? ==> r.0 == files
    ensures op.Unrecognized? ==> r.1 == FsFailed(UnknownOperationType(op.typeName))
    ensures op.Copy? ==> (r.1.FsFailed? <==> op.source !in files)
    ensures op.Copy? && op.source in files ==>
              r.0 == files[op.destination := files[op.source]]
              && r.1 == Copied(op.source, op.destination, |files[op.source]|)
    ensures op.Move? ==> (r.1.FsFailed? <==> op.source !in files)
    ensures op.Move? && op.source in files ==>
              && op.destination in r.0
              && r.0[op.destination] == files[op.source]
              && (op.source != op.destination ==> op.source !in r.0)
              && (forall p :: p != op.source && p != op.destination ==>
                    (p in r.0 <==> p in files) && (p in files ==> r.0[p] == files[p]))
    ensures op.Move? && op.source in files ==> r.1 == Moved(op.source, op.destination)
    ensures op.Delete? ==> (r.1.FsFailed? <==> op.target !in files)
    ensures op.Delete? && op.target in files ==> r.0 == files - {op.target} && r.1 == FsOutcome.Deleted(op.target)
    ensures op.CreateDirectory? ==> r.0 == files && (r.1.FsFailed? <==> op.path in files)
    ensures op.CreateDirectory? && op.path !in files ==> r.1 == DirectoryCreated(op.path)
  {
    match op
    case Copy(source, destination) =>
      if source !in files then (files, FsFailed(FileNotFound(source)))
      else (files[destination := files[source]], Copied(source, destination, |files[source]|))
    case Move(source, destination) =>
      if source !in files then (files, FsFailed(FileNotFound(source)))
      else ((files - {source})[destination := files[source]], Moved(source, destination))
    case Delete(target) =>
      if target !in files then (files, FsFailed(FileNotFound(target)))
      else (files - {target}, Deleted(target))
    case CreateDirectory(path) =>
      if path in files then (files, FsFailed(AlreadyExists(path)))
      else (files, DirectoryCreated(path))
    case Unrecognized(typeName) =>
      (files, FsFailed(UnknownOperationType(typeName)))
  }

  /** The batch run on `ops`, item after item: the final file map and one
      result per operation. */
  function RunBatch(files: FileMap, ops: seq<FsOperation>): (FileMap, seq<BatchItem>)
  {
    if ops == [] then (files, [])
    else
      var before := RunBatch(files, ops[..|ops| - 1]);
      var step := ApplyFsOperation(before.0, ops[|ops| - 1]);
      (step.0, before.1 + [BatchItem(ops[|ops| - 1], step.1)])
  }

  function CountSucceeded(items: seq<BatchItem>): (n: nat)
    ensures n <= |items|
  {
    if items == [] then 0
    else CountSucceeded(items[..|items| - 1]) + (if items[|items| - 1].result.FsFailed? then 0 else 1)
  }

  function CountFailed(items: seq<BatchItem>): (n: nat)
    ensures n <= |items|
  {
    if items == [] then 0
    else CountFailed(items[..|items| - 1]) + (if items[|items| - 1].result.FsFailed? then 1 else 0)
  }

  /** The aggregate counts add up to the number of items. */
  lemma {:induction false} CountsAddUp(items: seq<BatchItem>)
    ensures CountSucceeded(items) + CountFailed(items) == |items|
  {
    if items != [] {
      CountsAddUp(items[..|items| - 1]);
    }
  }

  datatype BatchReport = BatchReport(
    totalOperations: nat, successfulOperations: nat, failedOperations: nat, results: seq<BatchItem>)

  /** The aggregate a batch returns: its size and how many items succeeded
      and failed. */
  function BatchSummary(items: seq<BatchItem>): (r: BatchReport)
    ensures r.results == items && r.totalOperations == |items|
    ensures r.successfulOperations + r.failedOperations == r.totalOperations
  {
    CountsAddUp(items);
    BatchReport(|items|, CountSucceeded(items), CountFailed(items), items)
  }

  /** One result per operation, in input order, and item `i` is operation `i`
      applied to the file map the first `i` operations left behind, whether
      or not any of them failed. */
  lemma {:induction false} BatchIsSequential(files: FileMap, ops: seq<FsOperation>)
    ensures |RunBatch(files, ops).1| == |ops|
    ensures forall i :: 0 <= i < |ops| ==>
              RunBatch(files, ops).1[i]
              == BatchItem(ops[i], ApplyFsOperation(RunBatch(files, ops[..i]).0, ops[i]).1)
  {
    if ops != [] {
      var n := |ops| - 1;
      BatchIsSequential(files, ops[..n]);
      forall i | 0 <= i < |ops|
        ensures RunBatch(files, ops).1[i]
                == BatchItem(ops[i], ApplyFsOperation(RunBatch(files, ops[..i]).0, ops[i]).1)
      {
        if i < n {
          assert ops[..n][..i] == ops[..i];
          assert ops[..n][i] == ops[i];
        } else {
          assert ops[..i] == ops[..n];
        }
      }
    }
  }

  /** An operation of unknown type fails on its own item and nowhere else. */
  lemma UnrecognizedItemFails(files: FileMap, ops: seq<FsOperation>, i: int)
    requires 0 <= i < |ops| && ops[i].Unrecognized?
    ensures |RunBatch(files, ops).1| == |ops|
    ensures RunBatch(files, ops).1[i].result == FsFailed(UnknownOperationType(ops[i].typeName))
  {
    BatchIsSequential(files, ops);
  }

  // ---- multi-file batch ----

  datatype FileOperation =
    | ReadChunks
    | FindStructures
    | BackupFile
    | CreateEmbeddings
    | FindSimilar
    | ProcessComplete
    | ValidateSyntax
    | CompressContent
    | AssemblerBenchmark
    | CleanupFileEmbedding
    | UnrecognizedOperation(name: string)

  /** The shared parameters; 0 stands for an absent value, which the source's
      `||` defaults treat like 0. */
  datatype FileOpParams = FileOpParams(chunkSize: int, startLine: int, endLine: int)

  datatype FileOutcome =
    | ChunksRead(read: Result<ChunkedRead>)
    | BackedUp(backupPath: string, fileHash: string)
    | Delegated(success: bool)
    | FileFailed(error: Error)

  datatype FileItem = FileItem(filePath: string, operation: FileOperation, result: FileOutcome)

  predicate FileSucceeded(o: FileOutcome)
  {
    match o
    case ChunksRead(read) => read.Ok?
    case BackedUp(_, _) => true
    case Delegated(success) => success
    case FileFailed(_) => false
  }

  /** `operationParams.chunkSize || 50` */
  function ChunkSizeOr(p: FileOpParams): (size: int)
    ensures p.chunkSize == 0 ==> size == 50
    ensures p.chunkSize != 0 ==> size == p.chunkSize
    ensures p.chunkSize >= 0 ==> size >= 1
  {
    if p.chunkSize == 0 then 50 else p.chunkSize
  }

  /** `operationParams.startLine || 1` */
  function StartLineOr(p: FileOpParams): (start: int)
    ensures p.startLine == 0 ==> start == 1
    ensures p.startLine != 0 ==> start == p.startLine
  {
    if p.startLine == 0 then 1 else p.startLine
  }

  /** The operations whose work is done by collaborators outside this model. */
  predicate Collaborator(op: FileOperation)
  {
    !op.ReadChunks? && !op.BackupFile? && !op.UnrecognizedOperation?
  }

  predicate ParamsUsable(op: FileOperation, p: FileOpParams)
  {
    op.ReadChunks? ==> p.chunkSize >= 0
  }

  /** One file of a multi-file batch. `read_chunks` is a chunked read;
      `backup` writes the file's content to a backup sibling without adding a
      history record; the operations served by external collaborators report
      the success `delegated` gives them; any other name fails. */
  function ApplyFileOperation(files: FileMap, hash: string -> string, path: string, op: FileOperation,
                              params: FileOpParams, now: nat, delegated: (FileOperation, string) -> bool)
    : (r: (FileMap, FileOutcome))
    requires ParamsUsable(op, params)
    ensures !op.BackupFile? ==> r.0 == files
    ensures op.BackupFile? ==>
              if path in files then r.0 == files[BackupPath(path, now) := files[path]]
                                    && r.1 == BackedUp(BackupPath(path, now), hash(files[path]))
              else r.0 == files && r.1 == FileFailed(BackupFailed)
    ensures op.UnrecognizedOperation? ==> r.1 == FileFailed(UnknownOperationType(op.name))
    ensures op.ReadChunks? ==>
              r.1 == ChunksRead(ReadChunked(files, hash, path, ChunkSizeOr(params), StartLineOr(params), params.endLine))
    ensures Collaborator(op) ==> r.1 == Delegated(delegated(op, path))
  {
    match op
    case ReadChunks =>
      (files, ChunksRead(ReadChunked(files, hash, path, ChunkSizeOr(params), StartLineOr(params), params.endLine)))
    case BackupFile =>
      if path in files then (files[BackupPath(path, now) := files[path]], BackedUp(BackupPath(path, now), hash(files[path])))
      else (files, FileFailed(BackupFailed))
    case UnrecognizedOperation(name) =>
      (files, FileFailed(UnknownOperationType(name)))
    case _ =>
      (files, Delegated(delegated(op, path)))
  }

  function RunFiles(files: FileMap, hash: string -> string, paths: seq<string>, op: FileOperation,
                    params: FileOpParams, now: nat, delegated: (FileOperation, string) -> bool)
    : (FileMap, seq<FileItem>)
    requires ParamsUsable(op, params)
  {
    if paths == [] then (files, [])
    else
      var before := RunFiles(files, hash, paths[..|paths| - 1], op, params, now, delegated);
      var last := paths[|paths| - 1];
      var step := ApplyFileOperation(before.0, hash, last, op, params, now, delegated);
      (step.0, before.1 + [FileItem(last, op, step.1)])
  }

  function CountFilesSucceeded(items: seq<FileItem>): (n: nat)
    ensures n <= |items|
  {
    if items == [] then 0
    else CountFilesSucceeded(items[..|items| - 1]) + (if FileSucceeded(items[|items| - 1].result) then 1 else 0)
  }

  function CountFilesFailed(items: seq<FileItem>): (n: nat)
    ensures n <= |items|
  {
    if items == [] then 0
    else CountFilesFailed(items[..|items| - 1]) + (if FileSucceeded(items[|items| - 1].result) then 0 else 1)
  }

  lemma {:induction false} FileCountsAddUp(items: seq<FileItem>)
    ensures CountFilesSucceeded(items) + CountFilesFailed(items) == |items|
  {
    if items != [] {
      FileCountsAddUp(items[..|items| - 1]);
    }
  }

  datatype MultiFileReport = MultiFileReport(
    totalFiles: nat, successfulOperations: nat, failedOperations: nat, results: seq<FileItem>)

  function FilesSummary(items: seq<FileItem>): (r: MultiFileReport)
    ensures r.results == items && r.totalFiles == |items|
    ensures r.successfulOperations + r.failedOperations == r.totalFiles
  {
    FileCountsAddUp(items);
    MultiFileReport(|items|, CountFilesSucceeded(items), CountFilesFailed(items), items)
  }

  /** One result per path, in input order, each naming its path and the
      operation; item `i` is the operation on path `i` applied to the state
      the first `i` paths left behind. */
  lemma {:induction false} FilesAreSequential(files: FileMap, hash: string -> string, paths: seq<string>,
                                              op: FileOperation, params: FileOpParams, now: nat,
                                              delegated: (FileOperation, string) -> bool)
    requires ParamsUsable(op, params)
    ensures |RunFiles(files, hash, paths, op, params, now, delegated).1| == |paths|
    ensures forall i :: 0 <= i < |paths| ==>
              RunFiles(files, hash, paths, op, params, now, delegated).1[i]
              == FileItem(paths[i], op,
                   ApplyFileOperation(RunFiles(files, hash, paths[..i], op, params, now, delegated).0,
                                      hash, paths[i], op, params, now, delegated).1)
  {
    if paths != [] {
      var n := |paths| - 1;
      FilesAreSequential(files, hash, paths[..n], op, params, now, delegated);
      forall i | 0 <= i < |paths|
        ensures RunFiles(files, hash, paths, op, params, now, delegated).1[i]
                == FileItem(paths[i], op,
                     ApplyFileOperation(RunFiles(files, hash, paths[..i], op, params, now, delegated).0,
                                        hash, paths[i], op, params, now, delegated).1)
      {
        if i < n {
          assert paths[..n][..i] == paths[..i];
          assert paths[..n][i] == paths[i];
        } else {
          assert paths[..i] == paths[..n];
        }
      }
    }
  }

  /** Only `backup` touches the file map, and it only adds backup siblings:
      every other operation leaves the files exactly as they were. */
  lemma {:induction false} OnlyBackupWrites(files: FileMap, hash: string -> string, paths: seq<string>,
                                            op: FileOperation, params: FileOpParams, now: nat,
                                            delegated: (FileOperation, string) -> bool)
    requires ParamsUsable(op, params)
    ensures !op.BackupFile? ==> RunFiles(files, hash, paths, op, params, now, delegated).0 == files
    ensures forall p :: p in files ==> p in RunFiles(files, hash, paths, op, params, now, delegated).0
  {
    if paths != [] {
      OnlyBackupWrites(files, hash, paths[..|paths| - 1], op, params, now, delegated);
    }
  }

  /** An unknown operation name fails on every path. */
  lemma {:induction false} UnrecognizedOperationFailsEverywhere(files: FileMap, hash: string -> string,
                                             paths: seq<string>, name: string, params: FileOpParams,
                                             now: nat, delegated: (FileOperation, string) -> bool)
    ensures |RunFiles(files, hash, paths, UnrecognizedOperation(name), params, now, delegated).1| == |paths|
    ensures forall i :: 0 <= i < |paths| ==>
              RunFiles(files, hash, paths, UnrecognizedOperation(name), params, now, delegated).1[i].result
              == FileFailed(UnknownOperationType(name))
    ensures CountFilesFailed(RunFiles(files, hash, paths, UnrecognizedOperation(name), params, now, delegated).1)
            == |paths|
  {
    if paths != [] {
      var op := UnrecognizedOperation(name);
      var n := |paths| - 1;
      UnrecognizedOperationFailsEverywhere(files, hash, paths[..n], name, params, now, delegated);
      var before := RunFiles(files, hash, paths[..n], op, params, now, delegated);
      var step := ApplyFileOperation(before.0, hash, paths[n], op, params, now, delegated);
      var items := RunFiles(files, hash, paths, op, params, now, delegated).1;
      assert items == before.1 + [FileItem(paths[n], op, step.1)];
      assert items[..n] == before.1;
      assert !FileSucceeded(step.1);
    }
  }
}
