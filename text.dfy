/** String and sequence helpers with the meaning JavaScript gives to
    `String.prototype.split` (string separator), `Array.prototype.join` and
    `Array.prototype.slice`. Every line-addressed operation of the engine
    splits a file on "\n", edits the resulting sequence and joins it back. */
module Text {

  /** `pat` occurs in `s` starting at index `k`. */
  predicate OccursAt(s: string, pat: string, k: int)
  {
    0 <= k && k + |pat| <= |s| && s[k..k + |pat|] == pat
  }

  lemma OccursAtShift(s: string, pat: string, k: int)
    requires |s| > 0 && 0 <= k
    ensures OccursAt(s[1..], pat, k) <==> OccursAt(s, pat, k + 1)
  {
    if k + |pat| <= |s[1..]| {
      assert s[1..][k..k + |pat|] == s[k + 1..k + 1 + |pat|];
    }
  }

  /** The first index at which the non-empty `pat` occurs in `s`, or -1:
      the search `split` performs for each separator. That it is the first
      is lemma IndexOfFirst. */
  function IndexOf(s: string, pat: string): (r: int)
    requires |pat| > 0
    ensures -1 <= r <= |s|
    ensures r >= 0 ==> OccursAt(s, pat, r)
    decreases |s|
  {
    if |s| < |pat| then -1
    else if s[..|pat|] == pat then 0
    else
      var j := IndexOf(s[1..], pat);
      if j < 0 then -1 else OccursAtShift(s, pat, j); j + 1
  }

  /** No occurrence comes before the one IndexOf finds, and -1 means there
      is none at all. */
  lemma {:induction false} IndexOfFirst(s: string, pat: string)
    requires |pat| > 0
    ensures IndexOf(s, pat) >= 0 ==> forall k :: 0 <= k < IndexOf(s, pat) ==> !OccursAt(s, pat, k)
    ensures IndexOf(s, pat) < 0 ==> forall k :: !OccursAt(s, pat, k)
    decreases |s|
  {
    if |s| >= |pat| && s[..|pat|] != pat {
      IndexOfFirst(s[1..], pat);
      IndexOfShift(s, pat, IndexOf(s[1..], pat));
    }
  }

  /** The step of the search: when `pat` is not at the front of `s`, the first
      occurrence in `s` is one past the first occurrence in `s[1..]`. */
  lemma IndexOfShift(s: string, pat: string, j: int)
    requires |pat| > 0 && |s| >= |pat| && s[..|pat|] != pat
    requires j >= 0 ==> forall k :: 0 <= k < j ==> !OccursAt(s[1..], pat, k)
    requires j < 0 ==> forall k :: !OccursAt(s[1..], pat, k)
    ensures j >= 0 ==> forall k :: 0 <= k < j + 1 ==> !OccursAt(s, pat, k)
    ensures j < 0 ==> forall k :: !OccursAt(s, pat, k)
  {
    forall k | 0 <= k ensures OccursAt(s[1..], pat, k) <==> OccursAt(s, pat, k + 1) {
      OccursAtShift(s, pat, k);
    }
    assert !OccursAt(s, pat, 0);
    forall k | 0 < k ensures OccursAt(s, pat, k) == OccursAt(s[1..], pat, k - 1) {
    }
  }

  /** `"abc".split("")`: one single-character part per character. */
  function Chars(s: string): (parts: seq<string>)
    ensures |parts| == |s|
    ensures forall k :: 0 <= k < |s| ==> parts[k] == [s[k]]
  {
    seq(|s|, k requires 0 <= k < |s| => [s[k]])
  }

  /** `s.split(sep)`: the parts of `s` between the leftmost non-overlapping
      occurrences of `sep`; with an empty separator, its characters. */
  function Split(s: string, sep: string): (parts: seq<string>)
    ensures sep != [] ==> |parts| >= 1
    ensures sep == [] ==> |parts| == |s|
    ensures sep == [] ==> parts == Chars(s)
    decreases |s|
  {
    if sep == [] then Chars(s)
    else
      var i := IndexOf(s, sep);
      if i < 0 then [s] else [s[..i]] + Split(s[i + |sep|..], sep)
  }

  /** `parts.join(sep)`. */
  function Join(parts: seq<string>, sep: string): string
  {
    if |parts| == 0 then ""
    else if |parts| == 1 then parts[0]
    else parts[0] + sep + Join(parts[1..], sep)
  }

  lemma {:induction false} JoinChars(s: string)
    ensures Join(Chars(s), []) == s
    decreases |s|
  {
    if |s| > 1 {
      assert Chars(s)[1..] == Chars(s[1..]);
      JoinChars(s[1..]);
      assert s == [s[0]] + s[1..];
    }
  }

  /** Joining the parts of a split with the same separator gives back the
      string: splitting loses nothing. */
  lemma {:induction false} JoinSplit(s: string, sep: string)
    ensures Join(Split(s, sep), sep) == s
    decreases |s|
  {
    if sep == [] {
      JoinChars(s);
    } else {
      var i := IndexOf(s, sep);
      if i >= 0 {
        var tail := s[i + |sep|..];
        JoinSplit(tail, sep);
        SplitStep(s, sep, sep, i, tail);
        CutAt(s, sep, i);
      }
    }
  }

  /** `split` at the first occurrence of a non-empty separator. */
  lemma SplitAt(s: string, sep: string)
    requires sep != [] && IndexOf(s, sep) >= 0
    ensures Split(s, sep) == [s[..IndexOf(s, sep)]] + Split(s[IndexOf(s, sep) + |sep|..], sep)
  {
  }

  /** Splitting at the first occurrence `i` and joining with `rep`: the text
      before it, `rep`, then the rest `tail` handled the same way; one more
      part. */
  lemma SplitStep(s: string, sep: string, rep: string, i: int, tail: string)
    requires sep != [] && i == IndexOf(s, sep) >= 0 && tail == s[i + |sep|..]
    ensures Join(Split(s, sep), rep) == s[..i] + rep + Join(Split(tail, sep), rep)
    ensures |Split(s, sep)| == |Split(tail, sep)| + 1
  {
    var rest := Split(tail, sep);
    SplitAt(s, sep);
    assert Split(s, sep) == [s[..i]] + rest;
    JoinCons(s[..i], rest, rep);
  }

  /** A string is the text before an occurrence, the occurrence, and the
      text after it. */
  lemma CutAt(s: string, pat: string, i: int)
    requires OccursAt(s, pat, i)
    ensures s[..i] + pat + s[i + |pat|..] == s
  {
    assert s == s[..i] + s[i..i + |pat|] + s[i + |pat|..];
  }

  /** `join` of a first part followed by at least one more. */
  lemma JoinCons(a: string, rest: seq<string>, sep: string)
    requires |rest| >= 1
    ensures Join([a] + rest, sep) == a + sep + Join(rest, sep)
  {
    assert ([a] + rest)[1..] == rest;
  }

  /** Joining `a + b` is joining each and gluing them with one separator. */
  lemma {:induction false} JoinAppend(a: seq<string>, b: seq<string>, sep: string)
    requires |a| >= 1 && |b| >= 1
    ensures Join(a + b, sep) == Join(a, sep) + sep + Join(b, sep)
    decreases |a|
  {
    if |a| > 1 {
      assert (a + b)[1..] == a[1..] + b;
      JoinAppend(a[1..], b, sep);
    }
  }

  /** A one-character pattern occurs exactly where that character stands. */
  lemma OccursAtChar(s: string, c: char)
    ensures forall k :: OccursAt(s, [c], k) <==> 0 <= k < |s| && s[k] == c
  {
    forall k | 0 <= k < |s| ensures s[k..k + 1] == [s[k]] { }
  }

  lemma CharNotInNoOccurrence(s: string, c: char)
    requires c !in s
    ensures IndexOf(s, [c]) == -1
  {
    OccursAtChar(s, c);
  }

  lemma IndexOfAfterPrefix(a: string, c: char, rest: string)
    requires c !in a
    ensures IndexOf(a + [c] + rest, [c]) == |a|
  {
    var s := a + [c] + rest;
    OccursAtChar(s, c);
    IndexOfFirst(s, [c]);
    assert s[|a|] == c;
    assert forall k :: 0 <= k < |a| ==> s[k] == a[k];
  }

  /** For a one-character separator, splitting the join of parts that do not
      contain it gives back the parts: `join` and `split` are inverse. */
  lemma {:induction false} SplitJoin(parts: seq<string>, c: char)
    requires |parts| >= 1
    requires forall k :: 0 <= k < |parts| ==> c !in parts[k]
    ensures Split(Join(parts, [c]), [c]) == parts
    decreases |parts|
  {
    if |parts| == 1 {
      CharNotInNoOccurrence(parts[0], c);
    } else {
      var rest := Join(parts[1..], [c]);
      var s := parts[0] + [c] + rest;
      JoinCons(parts[0], parts[1..], [c]);
      assert parts == [parts[0]] + parts[1..];
      IndexOfAfterPrefix(parts[0], c, rest);
      SplitAt(s, [c]);
      assert s[..|parts[0]|] == parts[0];
      assert s[|parts[0]| + 1..] == rest;
      SplitJoin(parts[1..], c);
    }
  }

  /** No part produced by splitting on a one-character separator contains it. */
  lemma {:induction false} SplitPartsAvoidSeparator(s: string, c: char)
    ensures forall k :: 0 <= k < |Split(s, [c])| ==> c !in Split(s, [c])[k]
    decreases |s|
  {
    var i := IndexOf(s, [c]);
    var parts := Split(s, [c]);
    if i >= 0 {
      var tail := s[i + 1..];
      var rest := Split(tail, [c]);
      SplitPartsAvoidSeparator(tail, c);
      SplitAt(s, [c]);
      assert parts == [s[..i]] + rest;
      CharNotBeforeFirst(s, c);
    } else {
      CharNotFound(s, c);
      assert parts == [s];
    }
  }

  /** The text before the first occurrence of `c` does not contain `c`. */
  lemma CharNotBeforeFirst(s: string, c: char)
    requires IndexOf(s, [c]) >= 0
    ensures c !in s[..IndexOf(s, [c])]
  {
    var i := IndexOf(s, [c]);
    OccursAtChar(s, c);
    IndexOfFirst(s, [c]);
    assert forall k :: 0 <= k < i ==> s[..i][k] == s[k];
  }

  /** When the search for `c` fails, `c` is not in the text. */
  lemma CharNotFound(s: string, c: char)
    requires IndexOf(s, [c]) < 0
    ensures c !in s
  {
    OccursAtChar(s, c);
    IndexOfFirst(s, [c]);
  }

  /** Number of replacements literal find-and-replace reports:
      `s.split(pat).length - 1` (which is -1 for an empty string split on
      an empty pattern). */
  function Occurrences(s: string, pat: string): int
  {
    |Split(s, pat)| - 1
  }

  /** `s.split(pat).join(rep)`: every leftmost non-overlapping occurrence of
      `pat` replaced by `rep`. */
  function ReplaceAll(s: string, pat: string, rep: string): string
  {
    Join(Split(s, pat), rep)
  }

  /** A non-empty pattern is counted at least once exactly when it occurs. */
  lemma OccurrencesPositiveIff(s: string, pat: string)
    requires pat != []
    ensures Occurrences(s, pat) > 0 <==> exists k :: OccursAt(s, pat, k)
    ensures Occurrences(s, pat) >= 0
  {
    IndexOfFirst(s, pat);
  }

  /** With nothing counted, replacing changes nothing. */
  lemma ReplaceAllNoMatch(s: string, pat: string, rep: string)
    requires Occurrences(s, pat) <= 0
    ensures ReplaceAll(s, pat, rep) == s
  {
    if pat == [] {
      if |s| == 1 {
        assert Chars(s) == [[s[0]]];
      }
    } else {
      var i := IndexOf(s, pat);
      assert i < 0;
    }
  }

  /** Each replacement changes the length by `|rep| - |pat|`. */
  lemma {:induction false} ReplaceAllLength(s: string, pat: string, rep: string)
    requires pat != []
    ensures |ReplaceAll(s, pat, rep)| == |s| + Occurrences(s, pat) * (|rep| - |pat|)
    decreases |s|
  {
    var i := IndexOf(s, pat);
    if i >= 0 {
      var tail := s[i + |pat|..];
      ReplaceAllLength(tail, pat, rep);
      ReplaceAllOneStep(s, pat, rep, i, tail);
      LengthStep(|s|, i, |pat|, |rep|, |tail|, |ReplaceAll(tail, pat, rep)|, |ReplaceAll(s, pat, rep)|,
                 Occurrences(tail, pat));
    } else {
      ReplaceAllNoneFound(s, pat, rep);
    }
  }

  /** The first replacement: the text before it, then `rep`, then the rest
      replaced, with one occurrence more counted than in the rest. */
  lemma ReplaceAllOneStep(s: string, pat: string, rep: string, i: int, tail: string)
    requires pat != [] && i == IndexOf(s, pat) >= 0 && tail == s[i + |pat|..]
    ensures |ReplaceAll(s, pat, rep)| == i + |rep| + |ReplaceAll(tail, pat, rep)|
    ensures Occurrences(s, pat) == Occurrences(tail, pat) + 1
  {
    SplitStep(s, pat, rep, i, tail);
    assert |s[..i]| == i;
  }

  /** Without an occurrence nothing is counted or replaced. */
  lemma ReplaceAllNoneFound(s: string, pat: string, rep: string)
    requires pat != [] && IndexOf(s, pat) < 0
    ensures Occurrences(s, pat) == 0 && ReplaceAll(s, pat, rep) == s
  {
    assert Split(s, pat) == [s];
  }

  /** The arithmetic of one replacement step. */
  lemma LengthStep(lenS: int, i: int, lenPat: int, lenRep: int, lenTail: int,
                   lenTailOut: int, lenOut: int, n: int)
    requires lenS == i + lenPat + lenTail
    requires lenTailOut == lenTail + n * (lenRep - lenPat)
    requires lenOut == i + lenRep + lenTailOut
    ensures lenOut == lenS + (n + 1) * (lenRep - lenPat)
  {
  }

  /** Index normalisation of `Array.prototype.slice`: a negative index counts
      from the end, and every index is clamped into `[0, len]`. */
  function ClampIndex(i: int, len: nat): (r: nat)
    ensures r <= len
    ensures 0 <= i <= len ==> r == i
    ensures i > len ==> r == len
    ensures i < 0 ==> r == if len + i < 0 then 0 else len + i
  {
    if i < 0 then (if len + i < 0 then 0 else len + i)
    else if i > len then len
    else i
  }

  /** `s.slice(begin, end)`. */
  /** A slice from an in-range `begin` is empty or the window of the
      sequence that starts at `begin`. */
  lemma SliceWindow<T>(s: seq<T>, begin: int, end: int)
    requires 0 <= begin <= |s|
    ensures var r := Slice(s, begin, end);
            r != [] ==> begin + |r| <= |s| && r == s[begin..begin + |r|]
  {
  }

  function Slice<T>(s: seq<T>, begin: int, end: int): (r: seq<T>)
    ensures 0 <= begin <= end && begin <= |s| ==>
              r == s[begin..if end <= |s| then end else |s|]
  {
    var lo := ClampIndex(begin, |s|);
    var hi := ClampIndex(end, |s|);
    if lo < hi then s[lo..hi] else []
  }
}
