/** The failures the engine reports instead of raising: every operation
    returns either a value or one of these. */
module Errors {

  datatype Error =
    | FileNotFound(path: string)
    | InvalidStartLine(line: int, totalLines: nat)
    | InvalidEndLine(line: int)
    | InvalidInsertPosition(position: int)
    | StartBeyondEnd(start: int, totalLines: nat)
    | OperationNotFound(operationId: string)
    | SnapshotMissing(operationId: string)
    | UnknownOperationType(name: string)
    | BackupFailed
    | AlreadyExists(path: string)

  datatype Result<T> = Ok(value: T) | Err(error: Error)
}
