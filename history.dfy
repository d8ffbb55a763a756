/** The in-memory operation history: one record per mutating call that took a
    backup, keyed by operation id, and the time-based expiry of records. */
module History {

  datatype Option<T> = None | Some(value: T)

  datatype OpKind = ReplaceLinesOp | DeleteLinesOp | InsertLinesOp | FindAndReplaceOp

  /** A file's full content, its hash, its length and when it was taken. */
  datatype Snapshot = Snapshot(path: string, content: string, hash: string, timestamp: int, size: nat)

  datatype OperationRecord = OperationRecord(
    kind: OpKind,
    originalPath: string,
    backupPath: string,
    snapshot: Option<Snapshot>,
    timestamp: int)

  type HistoryMap = map<string, OperationRecord>

  const MsPerHour: int := 3600000
  const DefaultMaxAgeHours: int := 24

  /** `Date.now() - maxAgeHours * 60 * 60 * 1000`. */
  function Cutoff(now: int, maxAgeHours: int): int
  {
    now - maxAgeHours * MsPerHour
  }

  /** The records an expiry sweep keeps: those not older than the cutoff. */
  function Retained(h: HistoryMap, cutoff: int): map<string, OperationRecord>
  {
    map id | id in h && h[id].timestamp >= cutoff :: h[id]
  }

  /** The backup files of the records a sweep removes. */
  function ExpiredBackups(h: HistoryMap, cutoff: int): set<string>
  {
    set id | id in h && h[id].timestamp < cutoff && h[id].backupPath != "" :: h[id].backupPath
  }

  /** A sweep with an older cutoff (a larger `maxAgeHours`) keeps every
      record a newer one keeps, and the extra ones are exactly those stamped
      between the two cutoffs; it deletes no backup the newer one keeps. */
  lemma OlderCutoffKeepsMore(h: HistoryMap, older: int, newer: int)
    requires older <= newer
    ensures Retained(h, newer).Keys <= Retained(h, older).Keys
    ensures forall id :: id in Retained(h, older) && id !in Retained(h, newer) <==>
                         id in h && older <= h[id].timestamp < newer
    ensures ExpiredBackups(h, older) <= ExpiredBackups(h, newer)
  {
  }

  /** Sweeping twice with the same cutoff removes nothing more. */
  lemma SweepIdempotent(h: HistoryMap, cutoff: int)
    ensures Retained(Retained(h, cutoff), cutoff) == Retained(h, cutoff)
  {
  }

  /** A sweep with a later cutoff subsumes one with an earlier cutoff. */
  lemma SweepsCompose(h: HistoryMap, c1: int, c2: int)
    requires c1 <= c2
    ensures Retained(Retained(h, c1), c2) == Retained(h, c2)
  {
  }

  /** The comparison is strict: a sweep with a maximum age of 0 hours at time
      `now` keeps a record stamped at `now`. */
  lemma ZeroHourSweepKeepsSameMillisecond(h: HistoryMap, id: string, now: int)
    requires id in h && h[id].timestamp == now
    ensures id in Retained(h, Cutoff(now, 0))
  {
  }

  /** After a sweep with maximum age 0 at time `now`, every record stamped
      before `now` is gone. */
  lemma ZeroHourSweepRemovesOlder(h: HistoryMap, id: string, now: int)
    requires id in h && h[id].timestamp < now
    ensures id !in Retained(h, Cutoff(now, 0))
  {
  }

  /** Every record holds its snapshot: the history-consistency invariant. */
  ghost predicate SnapshotsPresent(h: HistoryMap)
  {
    forall id :: id in h ==> h[id].snapshot.Some?
  }

  /** A sweep keeps the invariant. */
  lemma SweepKeepsSnapshots(h: HistoryMap, cutoff: int)
    requires SnapshotsPresent(h)
    ensures SnapshotsPresent(Retained(h, cutoff))
  {
  }

  // Names of the sibling files a mutation creates.

  function DigitChar(d: nat): char
    requires d < 10
  {
    "0123456789"[d]
  }

  /** `${n}` for a non-negative integer. */
  function NatToString(n: nat): (s: string)
    ensures |s| >= 1
    decreases n
  {
    if n < 10 then [DigitChar(n)] else NatToString(n / 10) + [DigitChar(n % 10)]
  }

  /** `${filePath}.backup.${Date.now()}` */
  function BackupPath(path: string, now: nat): string
  {
    path + ".backup." + NatToString(now)
  }

  /** `${filePath}.tmp.${Date.now()}` */
  function TempPath(path: string, now: nat): string
  {
    path + ".tmp." + NatToString(now)
  }

  /** The backup, the temporary file and the target are three different paths. */
  lemma SiblingsDistinct(path: string, now: nat)
    ensures BackupPath(path, now) != TempPath(path, now)
    ensures BackupPath(path, now) != path
    ensures TempPath(path, now) != path
  {
    assert BackupPath(path, now)[|path| + 1] == 'b';
    assert TempPath(path, now)[|path| + 1] == 't';
  }
}
