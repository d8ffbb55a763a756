/** The pure part of the line-addressed mutation engine: a file's content is
    split on "\n" into lines, a 1-based inclusive span is spliced, and the
    lines are joined back with "\n". */
module LineEdits {
  import opened Text

  /** `content.split('\n')`: never empty, since "" is one empty line. */
  function Lines(content: string): (ls: seq<string>)
    ensures |ls| >= 1
  {
    Split(content, "\n")
  }

  /** `lines.join('\n')`. */
  function Unlines(ls: seq<string>): string
  {
    Join(ls, "\n")
  }

  predicate NoNewlines(ls: seq<string>)
  {
    forall k :: 0 <= k < |ls| ==> '\n' !in ls[k]
  }

  /** Splitting a file into lines and joining them back gives the same bytes. */
  lemma UnlinesLines(content: string)
    ensures Unlines(Lines(content)) == content
    ensures NoNewlines(Lines(content))
  {
    JoinSplit(content, "\n");
    SplitPartsAvoidSeparator(content, '\n');
  }

  /** Written lines read back as the same lines, provided there is at least one
      and none of them contains a newline. */
  lemma LinesUnlines(ls: seq<string>)
    requires |ls| >= 1 && NoNewlines(ls)
    ensures Lines(Unlines(ls)) == ls
  {
    SplitJoin(ls, '\n');
  }

  /** What the caller passes as new content: either one multi-line block,
      which is split on "\n", or an explicit array of lines used as given. */
  datatype NewContent = Block(text: string) | LineList(lines: seq<string>)

  /** `Array.isArray(newContent) ? newContent : newContent.split('\n')` */
  function NewLines(c: NewContent): (ls: seq<string>)
    ensures c.Block? ==> |ls| >= 1 && NoNewlines(ls) && Unlines(ls) == c.text
    ensures c.LineList? ==> ls == c.lines
  {
    match c
    case Block(text) => UnlinesLines(text); Lines(text)
    case LineList(lines) => lines
  }

  /** The range check replace and delete perform: `1 <= start <= total` and
      `start <= end <= total`. */
  predicate ValidSpan(total: int, start: int, end: int)
  {
    1 <= start <= total && start <= end <= total
  }

  /** `[...lines.slice(0, start - 1), ...newLines, ...lines.slice(end)]` */
  function ReplaceSpan(lines: seq<string>, start: int, end: int, newLines: seq<string>): (r: seq<string>)
    requires ValidSpan(|lines|, start, end)
    ensures |r| == |lines| - (end - start + 1) + |newLines|
    ensures forall k :: 0 <= k < start - 1 ==> r[k] == lines[k]
    ensures forall k :: 0 <= k < |newLines| ==> r[start - 1 + k] == newLines[k]
    ensures forall k :: end <= k < |lines| ==> r[k - (end - start + 1) + |newLines|] == lines[k]
  {
    lines[..start - 1] + newLines + lines[end..]
  }

  /** `[...lines.slice(0, start - 1), ...lines.slice(end)]` */
  function DeleteSpan(lines: seq<string>, start: int, end: int): (r: seq<string>)
    requires ValidSpan(|lines|, start, end)
    ensures |r| == |lines| - (end - start + 1)
    ensures forall k :: 0 <= k < start - 1 ==> r[k] == lines[k]
    ensures forall k :: end <= k < |lines| ==> r[k - (end - start + 1)] == lines[k]
  {
    lines[..start - 1] + lines[end..]
  }

  /** `[...lines.slice(0, after), ...newLines, ...lines.slice(after)]` */
  function InsertAfter(lines: seq<string>, after: int, newLines: seq<string>): (r: seq<string>)
    requires 0 <= after <= |lines|
    ensures |r| == |lines| + |newLines|
    ensures forall k :: 0 <= k < after ==> r[k] == lines[k]
    ensures forall k :: 0 <= k < |newLines| ==> r[after + k] == newLines[k]
    ensures forall k :: after <= k < |lines| ==> r[k + |newLines|] == lines[k]
  {
    lines[..after] + newLines + lines[after..]
  }

  /** Replacing a span is deleting it and inserting the new lines after the
      line that preceded it. */
  lemma ReplaceIsDeleteThenInsert(lines: seq<string>, start: int, end: int, newLines: seq<string>)
    requires ValidSpan(|lines|, start, end)
    ensures ReplaceSpan(lines, start, end, newLines)
         == InsertAfter(DeleteSpan(lines, start, end), start - 1, newLines)
  {
    var d := DeleteSpan(lines, start, end);
    assert d[..start - 1] == lines[..start - 1];
    assert d[start - 1..] == lines[end..];
  }

  /** Inserting the deleted span back after line `start - 1` restores the
      original lines. */
  lemma DeleteThenInsertRestores(lines: seq<string>, start: int, end: int)
    requires ValidSpan(|lines|, start, end)
    ensures InsertAfter(DeleteSpan(lines, start, end), start - 1, lines[start - 1..end]) == lines
  {
    var d := DeleteSpan(lines, start, end);
    assert d[..start - 1] == lines[..start - 1];
    assert d[start - 1..] == lines[end..];
    assert lines == lines[..start - 1] + lines[start - 1..end] + lines[end..];
  }

  /** Replacing a span by itself leaves the lines as they were. */
  lemma ReplaceBySameSpanIsIdentity(lines: seq<string>, start: int, end: int)
    requires ValidSpan(|lines|, start, end)
    ensures ReplaceSpan(lines, start, end, lines[start - 1..end]) == lines
  {
    assert lines == lines[..start - 1] + lines[start - 1..end] + lines[end..];
  }

  /** Line conservation as seen by a later read of the file: when the new lines
      contain no newline and the result is not empty, re-splitting the written
      content counts `total - (end - start + 1) + |newLines|` lines. */
  lemma ReplaceRereadCount(content: string, start: int, end: int, newLines: seq<string>)
    requires ValidSpan(|Lines(content)|, start, end)
    requires NoNewlines(newLines)
    requires |Lines(content)| - (end - start + 1) + |newLines| >= 1
    ensures |Lines(Unlines(ReplaceSpan(Lines(content), start, end, newLines)))|
         == |Lines(content)| - (end - start + 1) + |newLines|
  {
    var ls := Lines(content);
    UnlinesLines(content);
    var r := ReplaceSpan(ls, start, end, newLines);
    assert NoNewlines(r) by {
      assert r == ls[..start - 1] + newLines + ls[end..];
      forall k | 0 <= k < |r| ensures '\n' !in r[k] {
        if k < start - 1 {
        } else if k < start - 1 + |newLines| {
          assert r[k] == newLines[k - (start - 1)];
        } else {
          assert r[k] == ls[k - (start - 1 + |newLines|) + end];
        }
      }
    }
    LinesUnlines(r);
  }

  /** The file-level inverse law: deleting lines `[start, end]`, re-reading the
      file and inserting the removed lines after line `start - 1` writes back
      the original content, as long as the deletion left at least one line. */
  lemma DeleteThenInsertRestoresContent(content: string, start: int, end: int)
    requires ValidSpan(|Lines(content)|, start, end)
    requires end - start + 1 < |Lines(content)|
    ensures var ls := Lines(content);
            var deleted := Unlines(DeleteSpan(ls, start, end));
            start - 1 <= |Lines(deleted)|
            && Unlines(InsertAfter(Lines(deleted), start - 1, ls[start - 1..end])) == content
  {
    var ls := Lines(content);
    UnlinesLines(content);
    var d := DeleteSpan(ls, start, end);
    assert d == ls[..start - 1] + ls[end..];
    assert NoNewlines(d) by {
      forall k | 0 <= k < |d| ensures '\n' !in d[k] {
        if k >= start - 1 { assert d[k] == ls[k - (start - 1) + end]; }
      }
    }
    LinesUnlines(d);
    DeleteThenInsertRestores(ls, start, end);
  }

  /** Where the inverse law stops: deleting the only line of "a" leaves the
      empty file, which reads back as one empty line, so inserting "a" after
      line 0 writes "a\n", not "a". */
  lemma DeleteAllThenInsertAddsNewline()
    ensures var ls := Lines("a");
            var deleted := Unlines(DeleteSpan(ls, 1, 1));
            Unlines(InsertAfter(Lines(deleted), 0, ls[0..1])) == "a\n"
  {
    CharNotInNoOccurrence("a", '\n');
    assert Lines("a") == ["a"];
    CharNotInNoOccurrence("", '\n');
    assert Lines("") == [""];
    assert InsertAfter([""], 0, ["a"]) == ["a", ""];
  }
}
