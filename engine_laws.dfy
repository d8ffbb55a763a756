/** What the engine promises across calls: a rollback undoes a mutation that
    took a backup, an expired record can no longer be rolled back, re-reading
    a mutated file gives the spliced lines, and deleting lines then inserting
    them back restores the file. */
module EngineLaws {
  import opened Text
  import opened LineEdits
  import opened Errors
  import opened History
  import opened Diff
  import opened Engine
  import opened Batch

  /** A mutation with a backup followed by the rollback of its id: the target
      holds its old content again, the backup and temporary siblings are gone,
      every other file is as before and the history is as before. */
  lemma RollbackUndoesMutation(st: Store, hash: string -> string, opId: string, kind: OpKind,
                               path: string, content: string, now: nat, later: nat)
    requires path in st.files && opId !in st.history
    ensures var m := Mutate(st, hash, opId, kind, path, content, true, now);
            var rb := RollbackStep(m, opId, later);
            && rb.result == Ok(RollbackReport(opId, path, kind, later))
            && rb.store.files == st.files - {BackupPath(path, now), TempPath(path, now)}
            && rb.store.history == st.history
  {
    SiblingsDistinct(path, now);
    var bp := BackupPath(path, now);
    var tmp := TempPath(path, now);
    var m := Mutate(st, hash, opId, kind, path, content, true, now);
    var rb := RollbackStep(m, opId, later);
    assert |bp| > 0 by { assert bp == path + ".backup." + NatToString(now); }
    var want := st.files - {bp, tmp};
    forall p
      ensures p in rb.store.files <==> p in want
      ensures p in want ==> rb.store.files[p] == want[p]
    {
    }
    assert rb.store.files == want;
    assert rb.store.history == st.history by {
      assert m.history - {opId} == st.history - {opId};
      assert st.history - {opId} == st.history;
    }
  }

  /** `rollbackOperation` after a successful `replaceLines` with a backup. */
  lemma RollbackUndoesReplace(st: Store, hash: string -> string, opId: string, path: string,
                              startLine: int, endLine: int, newContent: NewContent, now: nat, later: nat)
    requires opId !in st.history
    requires path in st.files && ValidSpan(|Lines(st.files[path])|, startLine, endLine)
    ensures var r := ReplaceLinesStep(st, hash, opId, path, startLine, endLine, newContent, true, now);
            var rb := RollbackStep(r.store, opId, later);
            && rb.result.Ok?
            && rb.store.files == st.files - {BackupPath(path, now), TempPath(path, now)}
            && rb.store.history == st.history
  {
    var lines := Lines(st.files[path]);
    RollbackUndoesMutation(st, hash, opId, ReplaceLinesOp, path,
                           Unlines(ReplaceSpan(lines, startLine, endLine, NewLines(newContent))), now, later);
  }

  /** `rollbackOperation` after a successful `deleteLines` with a backup. */
  lemma RollbackUndoesDelete(st: Store, hash: string -> string, opId: string, path: string,
                             startLine: int, endLine: int, now: nat, later: nat)
    requires opId !in st.history
    requires path in st.files && ValidSpan(|Lines(st.files[path])|, startLine, endLine)
    ensures var r := DeleteLinesStep(st, hash, opId, path, startLine, endLine, true, now);
            var rb := RollbackStep(r.store, opId, later);
            && rb.result.Ok?
            && rb.store.files == st.files - {BackupPath(path, now), TempPath(path, now)}
            && rb.store.history == st.history
  {
    var lines := Lines(st.files[path]);
    RollbackUndoesMutation(st, hash, opId, DeleteLinesOp, path,
                           Unlines(DeleteSpan(lines, startLine, endLine)), now, later);
  }

  /** `rollbackOperation` after a successful `insertLines` with a backup. */
  lemma RollbackUndoesInsert(st: Store, hash: string -> string, opId: string, path: string,
                             position: int, newContent: NewContent, now: nat, later: nat)
    requires opId !in st.history
    requires path in st.files && 0 <= position <= |Lines(st.files[path])|
    ensures var r := InsertLinesStep(st, hash, opId, path, position, newContent, true, now);
            var rb := RollbackStep(r.store, opId, later);
            && rb.result.Ok?
            && rb.store.files == st.files - {BackupPath(path, now), TempPath(path, now)}
            && rb.store.history == st.history
  {
    var lines := Lines(st.files[path]);
    RollbackUndoesMutation(st, hash, opId, InsertLinesOp, path,
                           Unlines(InsertAfter(lines, position, NewLines(newContent))), now, later);
  }

  /** `rollbackOperation` after a `findAndReplace` that replaced something;
      when nothing matched there is no record, and the rollback fails. */
  lemma RollbackUndoesFindAndReplace(st: Store, hash: string -> string, opId: string, path: string,
                                     pattern: string, replacement: string, now: nat, later: nat)
    requires opId !in st.history && path in st.files
    ensures var r := FindAndReplaceStep(st, hash, opId, path, pattern, replacement, true, now);
            var rb := RollbackStep(r.store, opId, later);
            && (Occurrences(st.files[path], pattern) > 0 ==>
                  && rb.result.Ok?
                  && rb.store.files == st.files - {BackupPath(path, now), TempPath(path, now)}
                  && rb.store.history == st.history)
            && (Occurrences(st.files[path], pattern) <= 0 ==> rb.result == Err(OperationNotFound(opId)))
  {
    if Occurrences(st.files[path], pattern) > 0 {
      RollbackUndoesMutation(st, hash, opId, FindAndReplaceOp, path,
                             ReplaceAll(st.files[path], pattern, replacement), now, later);
    }
  }

  /** A record older than the sweep's cutoff cannot be rolled back
      afterwards; a record the sweep keeps still can. */
  lemma SweepThenRollback(st: Store, opId: string, now: nat, maxAgeHours: int, later: nat)
    requires opId in st.history
    ensures var swept := CleanupStep(st, now, maxAgeHours).0;
            var rb := RollbackStep(swept, opId, later);
            && (st.history[opId].timestamp < Cutoff(now, maxAgeHours) ==> rb.result == Err(OperationNotFound(opId)))
            && (st.history[opId].timestamp >= Cutoff(now, maxAgeHours) ==>
                  (rb.result.Ok? <==> st.history[opId].snapshot.Some?))
  {
  }

  /** Lines the caller supplies as a block contain no "\n" once split, and the
      spliced file therefore reads back as exactly the spliced lines. */
  lemma SplicedLinesReadBack(before: seq<string>, middle: seq<string>, after: seq<string>)
    requires NoNewlines(before) && NoNewlines(middle) && NoNewlines(after)
    requires |before + middle + after| >= 1
    ensures Lines(Unlines(before + middle + after)) == before + middle + after
  {
    var all := before + middle + after;
    forall k | 0 <= k < |all| ensures '\n' !in all[k] {
      if k < |before| { assert all[k] == before[k]; }
      else if k < |before| + |middle| { assert all[k] == middle[k - |before|]; }
      else { assert all[k] == after[k - |before| - |middle|]; }
    }
    LinesUnlines(all);
  }

  /** After `replaceLines` with a text block, reading the file back gives the
      spliced lines, and their number is the reported `totalLines`. */
  lemma ReplaceLinesReadsBack(st: Store, hash: string -> string, opId: string, path: string,
                              startLine: int, endLine: int, text: string, createBackup: bool, now: nat)
    requires path in st.files && ValidSpan(|Lines(st.files[path])|, startLine, endLine)
    ensures var r := ReplaceLinesStep(st, hash, opId, path, startLine, endLine, Block(text), createBackup, now);
            var lines := Lines(st.files[path]);
            && Lines(r.store.files[path]) == ReplaceSpan(lines, startLine, endLine, Lines(text))
            && |Lines(r.store.files[path])| == r.result.value.totalLines
  {
    var lines := Lines(st.files[path]);
    UnlinesLines(st.files[path]);
    var before := lines[..startLine - 1];
    var after := lines[endLine..];
    assert NoNewlines(before) by { forall k | 0 <= k < |before| ensures '\n' !in before[k] { assert before[k] == lines[k]; } }
    assert NoNewlines(after) by { forall k | 0 <= k < |after| ensures '\n' !in after[k] { assert after[k] == lines[endLine + k]; } }
    SplicedLinesReadBack(before, NewLines(Block(text)), after);
  }

  /** After `insertLines` with a text block, reading the file back gives the
      lines with the block's lines after line `position`. */
  lemma InsertLinesReadsBack(st: Store, hash: string -> string, opId: string, path: string,
                             position: int, text: string, createBackup: bool, now: nat)
    requires path in st.files && 0 <= position <= |Lines(st.files[path])|
    ensures var r := InsertLinesStep(st, hash, opId, path, position, Block(text), createBackup, now);
            var lines := Lines(st.files[path]);
            && Lines(r.store.files[path]) == InsertAfter(lines, position, Lines(text))
            && |Lines(r.store.files[path])| == r.result.value.totalLines
  {
    var lines := Lines(st.files[path]);
    UnlinesLines(st.files[path]);
    var before := lines[..position];
    var after := lines[position..];
    assert NoNewlines(before) by { forall k | 0 <= k < |before| ensures '\n' !in before[k] { assert before[k] == lines[k]; } }
    assert NoNewlines(after) by { forall k | 0 <= k < |after| ensures '\n' !in after[k] { assert after[k] == lines[position + k]; } }
    SplicedLinesReadBack(before, NewLines(Block(text)), after);
  }

  /** Replacing a span by the very lines it holds writes back the same
      content. */
  lemma ReplaceWithSameLinesKeepsContent(st: Store, hash: string -> string, opId: string, path: string,
                                         startLine: int, endLine: int, createBackup: bool, now: nat)
    requires path in st.files && ValidSpan(|Lines(st.files[path])|, startLine, endLine)
    ensures var lines := Lines(st.files[path]);
            var r := ReplaceLinesStep(st, hash, opId, path, startLine, endLine,
                                      LineList(lines[startLine - 1..endLine]), createBackup, now);
            && r.result.Ok?
            && r.store.files[path] == st.files[path]
            && r.result.value.fileHash == hash(st.files[path])
  {
    var lines := Lines(st.files[path]);
    ReplaceBySameSpanIsIdentity(lines, startLine, endLine);
    UnlinesLines(st.files[path]);
  }

  /** `deleteLines` then `insertLines` of the deleted lines after line
      `startLine - 1` restores the file's content, with or without backups,
      provided the deletion left at least one line; without backups the
      history is untouched as well. */
  lemma DeleteThenInsertRestoresFile(st: Store, hash: string -> string, id1: string, id2: string,
                                     path: string, startLine: int, endLine: int,
                                     b1: bool, b2: bool, t1: nat, t2: nat)
    requires path in st.files && ValidSpan(|Lines(st.files[path])|, startLine, endLine)
    requires endLine - startLine + 1 < |Lines(st.files[path])|
    ensures var lines := Lines(st.files[path]);
            var d := DeleteLinesStep(st, hash, id1, path, startLine, endLine, b1, t1);
            var i := InsertLinesStep(d.store, hash, id2, path, startLine - 1,
                                     LineList(lines[startLine - 1..endLine]), b2, t2);
            && i.result.Ok?
            && i.store.files[path] == st.files[path]
            && (!b1 && !b2 ==> i.store.history == st.history)
  {
    DeleteThenInsertRestoresContent(st.files[path], startLine, endLine);
  }

  /** Replacing every line with an empty list of lines reports a file of
      zero lines, yet the file left behind is empty and re-reads as one
      (empty) line. */
  lemma ReplaceEverythingWithNothing(st: Store, hash: string -> string, opId: string, path: string,
                                     createBackup: bool, now: nat)
    requires path in st.files
    ensures var r := ReplaceLinesStep(st, hash, opId, path, 1, |Lines(st.files[path])|, LineList([]),
                                      createBackup, now);
            && r.result.Ok?
            && r.result.value.totalLines == 0
            && r.store.files[path] == ""
            && Lines(r.store.files[path]) == [""]
  {
    var lines := Lines(st.files[path]);
    assert ReplaceSpan(lines, 1, |lines|, []) == [];
    assert Split("", "\n") == [""];
  }

  /** A non-empty pattern that does not occur leaves the store untouched and
      reports zero replacements, whatever `createBackup` says. */
  lemma FindAndReplaceNoMatchIsNoOp(st: Store, hash: string -> string, opId: string, path: string,
                                    pattern: string, replacement: string, createBackup: bool, now: nat)
    requires path in st.files && pattern != []
    requires forall k :: !OccursAt(st.files[path], pattern, k)
    ensures var r := FindAndReplaceStep(st, hash, opId, path, pattern, replacement, createBackup, now);
            && r.store == st
            && r.result.Ok?
            && r.result.value.replacements == 0
            && !r.result.value.backupCreated
            && r.result.value.fileHash == hash(st.files[path])
  {
    OccurrencesPositiveIff(st.files[path], pattern);
  }

  /** With a non-empty pattern the file grows by the length difference once
      per reported replacement, and something is replaced exactly when the
      pattern occurs. */
  lemma FindAndReplaceCounts(st: Store, hash: string -> string, opId: string, path: string,
                             pattern: string, replacement: string, createBackup: bool, now: nat)
    requires path in st.files && pattern != []
    ensures var r := FindAndReplaceStep(st, hash, opId, path, pattern, replacement, createBackup, now);
            var n := r.result.value.replacements;
            && n >= 0
            && (n > 0 <==> exists k :: OccursAt(st.files[path], pattern, k))
            && |r.store.files[path]| == |st.files[path]| + n * (|replacement| - |pattern|)
  {
    OccurrencesPositiveIff(st.files[path], pattern);
    ReplaceAllLength(st.files[path], pattern, replacement);
  }

  /** A file compared with itself is reported identical. */
  lemma DiffWithItselfIdentical(files: map<string, string>, path: string)
    requires path in files
    ensures GenerateDiffSpec(files, path, path).Ok?
    ensures GenerateDiffSpec(files, path, path).value.identical
  {
    SameLinesIdentical(Lines(files[path]));
  }

  // ---- the history-consistency invariant ----

  /** A mutation keeps every record's snapshot: the record it adds holds the
      snapshot of the file it was taken from. */
  lemma MutateKeepsSnapshots(st: Store, hash: string -> string, opId: string, kind: OpKind, path: string,
                             content: string, createBackup: bool, now: nat)
    requires path in st.files && SnapshotsPresent(st.history)
    ensures SnapshotsPresent(Mutate(st, hash, opId, kind, path, content, createBackup, now).history)
  {
    var h := Mutate(st, hash, opId, kind, path, content, createBackup, now).history;
    forall id | id in h ensures h[id].snapshot.Some? {
      if id != opId {
        assert id in h - {opId};
      }
    }
  }

  lemma ReplaceLinesKeepsSnapshots(st: Store, hash: string -> string, opId: string, path: string,
                                   startLine: int, endLine: int, newContent: NewContent,
                                   createBackup: bool, now: nat)
    requires SnapshotsPresent(st.history)
    ensures SnapshotsPresent(ReplaceLinesStep(st, hash, opId, path, startLine, endLine, newContent,
                                              createBackup, now).store.history)
  {
    var r := ReplaceLinesStep(st, hash, opId, path, startLine, endLine, newContent, createBackup, now);
    if r.result.Ok? {
      MutateKeepsSnapshots(st, hash, opId, ReplaceLinesOp, path,
                           Unlines(ReplaceSpan(Lines(st.files[path]), startLine, endLine, NewLines(newContent))),
                           createBackup, now);
    }
  }

  lemma DeleteLinesKeepsSnapshots(st: Store, hash: string -> string, opId: string, path: string,
                                  startLine: int, endLine: int, createBackup: bool, now: nat)
    requires SnapshotsPresent(st.history)
    ensures SnapshotsPresent(DeleteLinesStep(st, hash, opId, path, startLine, endLine, createBackup, now).store.history)
  {
    var r := DeleteLinesStep(st, hash, opId, path, startLine, endLine, createBackup, now);
    if r.result.Ok? {
      MutateKeepsSnapshots(st, hash, opId, DeleteLinesOp, path,
                           Unlines(DeleteSpan(Lines(st.files[path]), startLine, endLine)), createBackup, now);
    }
  }

  lemma InsertLinesKeepsSnapshots(st: Store, hash: string -> string, opId: string, path: string,
                                  position: int, newContent: NewContent, createBackup: bool, now: nat)
    requires SnapshotsPresent(st.history)
    ensures SnapshotsPresent(InsertLinesStep(st, hash, opId, path, position, newContent, createBackup, now).store.history)
  {
    var r := InsertLinesStep(st, hash, opId, path, position, newContent, createBackup, now);
    if r.result.Ok? {
      MutateKeepsSnapshots(st, hash, opId, InsertLinesOp, path,
                           Unlines(InsertAfter(Lines(st.files[path]), position, NewLines(newContent))),
                           createBackup, now);
    }
  }

  lemma FindAndReplaceKeepsSnapshots(st: Store, hash: string -> string, opId: string, path: string,
                                     pattern: string, replacement: string, createBackup: bool, now: nat)
    requires SnapshotsPresent(st.history)
    ensures SnapshotsPresent(FindAndReplaceStep(st, hash, opId, path, pattern, replacement,
                                                createBackup, now).store.history)
  {
    var r := FindAndReplaceStep(st, hash, opId, path, pattern, replacement, createBackup, now);
    if r.result.Ok? && r.result.value.replacements > 0 {
      MutateKeepsSnapshots(st, hash, opId, FindAndReplaceOp, path,
                           ReplaceAll(st.files[path], pattern, replacement), createBackup, now);
    }
  }

  lemma RollbackKeepsSnapshots(st: Store, opId: string, now: nat)
    requires SnapshotsPresent(st.history)
    ensures SnapshotsPresent(RollbackStep(st, opId, now).store.history)
  {
  }

  lemma CleanupKeepsSnapshots(st: Store, now: nat, maxAgeHours: int)
    requires SnapshotsPresent(st.history)
    ensures SnapshotsPresent(CleanupStep(st, now, maxAgeHours).0.history)
  {
    SweepKeepsSnapshots(st.history, Cutoff(now, maxAgeHours));
  }

  lemma ProcessFilesKeepsSnapshots(st: Store, hash: string -> string, paths: seq<string>, op: FileOperation,
                                   params: FileOpParams, now: nat, delegated: (FileOperation, string) -> bool)
    requires ParamsUsable(op, params) && SnapshotsPresent(st.history)
    ensures SnapshotsPresent(ProcessFilesStep(st, hash, paths, op, params, now, delegated).0.history)
  {
    SweepKeepsSnapshots(st.history, Cutoff(now, DefaultMaxAgeHours));
  }

  /** What the invariant buys: while it holds, every recorded operation can be
      rolled back, so `rollbackOperation` can fail only on an unknown id. */
  lemma RollbackAlwaysAvailable(st: Store, opId: string, now: nat)
    requires SnapshotsPresent(st.history)
    ensures RollbackStep(st, opId, now).result.Ok? <==> opId in st.history
    ensures RollbackStep(st, opId, now).result.Err? ==> RollbackStep(st, opId, now).result == Err(OperationNotFound(opId))
  {
  }
}
