/** Line-by-line comparison of two files: index by index up to the longer
    file's line count, a missing line reads as "", and every index where the
    two lines differ is reported with a tag. */
module Diff {

  datatype ChangeKind = Added | Deleted | Modified

  datatype Difference = Difference(lineNumber: nat, file1: string, file2: string, kind: ChangeKind)

  /** The report keeps at most this many differences. */
  const MaxReported: nat := 100

  /** `lines[i] || ''` */
  function LineOr(ls: seq<string>, i: int): string
  {
    if 0 <= i < |ls| then ls[i] else ""
  }

  /** `line1 ? (line2 ? 'modified' : 'deleted') : 'added'` (a string is
      truthy when it is not empty). */
  function Classify(line1: string, line2: string): ChangeKind
  {
    if line1 != "" then (if line2 != "" then Modified else Deleted) else Added
  }

  function MaxLen(a: seq<string>, b: seq<string>): nat
  {
    if |a| >= |b| then |a| else |b|
  }

  /** The differences found at indices `0 .. n - 1`, in index order. */
  function DiffUpTo(a: seq<string>, b: seq<string>, n: nat): seq<Difference>
  {
    if n == 0 then []
    else
      var l1 := LineOr(a, n - 1);
      var l2 := LineOr(b, n - 1);
      DiffUpTo(a, b, n - 1) + (if l1 != l2 then [Difference(n, l1, l2, Classify(l1, l2))] else [])
  }

  /** Every difference in the whole comparison. */
  function Differences(a: seq<string>, b: seq<string>): seq<Difference>
  {
    DiffUpTo(a, b, MaxLen(a, b))
  }

  /** What the report carries: the full count, the first `MaxReported`
      entries, and whether there were none. */
  datatype DiffSummary = DiffSummary(totalDifferences: nat, differences: seq<Difference>, identical: bool)

  function Summarize(all: seq<Difference>): (s: DiffSummary)
    ensures s.totalDifferences == |all|
    ensures |s.differences| <= MaxReported
    ensures s.differences <= all
    ensures |all| <= MaxReported ==> s.differences == all
    ensures |all| > MaxReported ==> s.differences == all[..MaxReported]
    ensures s.identical <==> |all| == 0
  {
    DiffSummary(|all|, if |all| <= MaxReported then all else all[..MaxReported], |all| == 0)
  }

  predicate Reports(d: Difference, a: seq<string>, b: seq<string>, n: nat)
  {
    && 1 <= d.lineNumber <= n
    && d.file1 == LineOr(a, d.lineNumber - 1)
    && d.file2 == LineOr(b, d.lineNumber - 1)
    && d.file1 != d.file2
    && d.kind == Classify(d.file1, d.file2)
  }

  /** Soundness: each reported entry is a real difference at its line, with the
      two lines and the right tag, and the entries are in strictly increasing
      line order. */
  lemma {:induction false} DiffSound(a: seq<string>, b: seq<string>, n: nat)
    ensures forall k :: 0 <= k < |DiffUpTo(a, b, n)| ==> Reports(DiffUpTo(a, b, n)[k], a, b, n)
    ensures forall j, k :: 0 <= j < k < |DiffUpTo(a, b, n)| ==>
              DiffUpTo(a, b, n)[j].lineNumber < DiffUpTo(a, b, n)[k].lineNumber
  {
    if n > 0 {
      DiffSound(a, b, n - 1);
    }
  }

  /** Completeness: every index below `n` at which the lines differ has an
      entry. */
  lemma {:induction false} DiffComplete(a: seq<string>, b: seq<string>, n: nat, i: nat)
    requires i < n
    requires LineOr(a, i) != LineOr(b, i)
    ensures exists k :: 0 <= k < |DiffUpTo(a, b, n)| && DiffUpTo(a, b, n)[k].lineNumber == i + 1
  {
    var prev := DiffUpTo(a, b, n - 1);
    if i == n - 1 {
      assert DiffUpTo(a, b, n)[|prev|].lineNumber == i + 1;
    } else {
      DiffComplete(a, b, n - 1, i);
      var k :| 0 <= k < |prev| && prev[k].lineNumber == i + 1;
      assert DiffUpTo(a, b, n)[k] == prev[k];
    }
  }

  /** There are no differences exactly when every compared line agrees. */
  lemma {:induction false} NoDifferencesIff(a: seq<string>, b: seq<string>, n: nat)
    ensures |DiffUpTo(a, b, n)| == 0 <==> forall i :: 0 <= i < n ==> LineOr(a, i) == LineOr(b, i)
  {
    if n > 0 {
      NoDifferencesIff(a, b, n - 1);
    }
  }

  /** The tags mean what their names say: `Added` has an empty first line,
      `Deleted` an empty second line, `Modified` two non-empty lines. */
  lemma KindMeaning(d: Difference, a: seq<string>, b: seq<string>, n: nat)
    requires Reports(d, a, b, n)
    ensures d.kind == Added <==> d.file1 == "" && d.file2 != ""
    ensures d.kind == Deleted <==> d.file1 != "" && d.file2 == ""
    ensures d.kind == Modified <==> d.file1 != "" && d.file2 != ""
  {
  }

  /** A file compared with itself has no differences. */
  lemma SameLinesIdentical(a: seq<string>)
    ensures Differences(a, a) == []
  {
    NoDifferencesIff(a, a, MaxLen(a, a));
  }

  /** Only missing trailing lines that are empty can go unreported: lines
      `["a"]` and `["a", ""]` (files "a" and "a\n") compare as identical. */
  lemma TrailingEmptyLineIsIdentical()
    ensures Differences(["a"], ["a", ""]) == []
  {
    NoDifferencesIff(["a"], ["a", ""], 2);
  }

  /** The worked example: ["a","b","c"] against ["a","x","c","d"] differs at
      line 2 (modified) and line 4 (added). */
  lemma WorkedExample()
    ensures Differences(["a", "b", "c"], ["a", "x", "c", "d"])
         == [Difference(2, "b", "x", Modified), Difference(4, "", "d", Added)]
  {
  }
}
