/** Range clamping and chunking of a chunked read: the requested line range is
    clamped to the file, sliced out, and cut into chunks of `size` lines. */
module Chunking {
  import opened Text
  import opened LineEdits

  datatype Chunk = Chunk(startLine: int, endLine: int, content: string, lineCount: nat)

  function Min(a: int, b: int): int
  {
    if a <= b then a else b
  }

  function Max(a: int, b: int): int
  {
    if a >= b then a else b
  }

  /** `actualStartLine = Math.max(1, startLine)`. */
  function ActualStart(startLine: int): (s: int)
    ensures s >= 1
    ensures startLine >= 1 ==> s == startLine
    ensures startLine < 1 ==> s == 1
  {
    Max(1, startLine)
  }

  /** `actualEndLine = endLine ? Math.min(endLine, totalLines) : totalLines`;
      an `endLine` of 0 stands for the absent (falsy) end. */
  function ActualEnd(totalLines: nat, endLine: int): (e: int)
    ensures e <= totalLines
    ensures endLine == 0 ==> e == totalLines
    ensures endLine != 0 && endLine <= totalLines ==> e == endLine
    ensures endLine > totalLines ==> e == totalLines
  {
    if endLine == 0 then totalLines else Min(endLine, totalLines)
  }

  /** `lines.slice(actualStartLine - 1, actualEndLine)`. */
  function RequestedLines(lines: seq<string>, startLine: int, endLine: int): seq<string>
  {
    Slice(lines, ActualStart(startLine) - 1, ActualEnd(|lines|, endLine))
  }

  /** The chunks produced from offset `i` of the requested lines by the loop
      `for (i = 0; i < requested.length; i += size)`; each piece is
      `requested.slice(i, i + size)`, whose bounds are non-negative here. */
  function ChunksFrom(req: seq<string>, i: nat, size: int, first: int, last: int): seq<Chunk>
    requires size >= 1
    decreases |req| - i
  {
    if i >= |req| then []
    else
      var piece := req[i..Min(i + size, |req|)];
      [Chunk(first + i, Min(first + i + |piece| - 1, last), Unlines(piece), |piece|)]
        + ChunksFrom(req, i + size, size, first, last)
  }

  function ChunkContents(cs: seq<Chunk>): seq<string>
  {
    if cs == [] then [] else [cs[0].content] + ChunkContents(cs[1..])
  }

  function TotalLineCount(cs: seq<Chunk>): nat
  {
    if cs == [] then 0 else cs[0].lineCount + TotalLineCount(cs[1..])
  }

  /** Joining the chunk contents with "\n" gives exactly the requested lines
      joined with "\n": chunking drops, duplicates and reorders nothing. */
  lemma {:induction false} ChunksCoverRequest(req: seq<string>, i: nat, size: int, first: int, last: int)
    requires size >= 1 && i < |req|
    ensures Join(ChunkContents(ChunksFrom(req, i, size, first, last)), "\n") == Unlines(req[i..])
    decreases |req| - i
  {
    var cs := ChunksFrom(req, i, size, first, last);
    if i + size >= |req| {
      assert req[i..Min(i + size, |req|)] == req[i..];
      assert cs[1..] == ChunksFrom(req, i + size, size, first, last) == [];
      assert ChunkContents(cs) == [Unlines(req[i..])];
    } else {
      var piece := req[i..i + size];
      var rest := ChunksFrom(req, i + size, size, first, last);
      assert req[i..Min(i + size, |req|)] == piece;
      assert cs[1..] == rest;
      ChunksCoverRequest(req, i + size, size, first, last);
      var tail := ChunkContents(rest);
      assert ChunkContents(cs) == [Unlines(piece)] + tail;
      assert |tail| >= 1;
      assert ([Unlines(piece)] + tail)[1..] == tail;
      assert Join(ChunkContents(cs), "\n") == Unlines(piece) + "\n" + Join(tail, "\n");
      JoinAppend(piece, req[i + size..], "\n");
      assert req[i..] == piece + req[i + size..];
    }
  }

  /** The line counts of the chunks add up to the number of requested lines. */
  lemma {:induction false} ChunkLineCountsSum(req: seq<string>, i: nat, size: int, first: int, last: int)
    requires size >= 1 && i <= |req|
    ensures TotalLineCount(ChunksFrom(req, i, size, first, last)) == |req| - i
    decreases |req| - i
  {
    if i < |req| {
      var cs := ChunksFrom(req, i, size, first, last);
      assert cs[1..] == ChunksFrom(req, i + size, size, first, last);
      if i + size <= |req| {
        ChunkLineCountsSum(req, i + size, size, first, last);
      }
    }
  }

  /** Every chunk holds between 1 and `size` lines and all but the last exactly
      `size`; the first starts at `start`, each next one `size` lines further
      on, and each ends at its last line or at `last`, whichever comes first.
      Stated chunk by chunk, from the first. */
  predicate WellShaped(cs: seq<Chunk>, start: int, last: int, size: int)
    decreases |cs|
  {
    || cs == []
    || (&& cs[0].startLine == start
        && 1 <= cs[0].lineCount <= size
        && cs[0].endLine == Min(start + cs[0].lineCount - 1, last)
        && (|cs| > 1 ==> cs[0].lineCount == size)
        && WellShaped(cs[1..], start + size, last, size))
  }

  /** A chunk's content is the lines of `req` it covers, counting line
      `first` as `req[0]`: from its start line on, `lineCount` of them, joined
      with "\n". */
  predicate HoldsLines(c: Chunk, req: seq<string>, first: int)
  {
    && 0 <= c.startLine - first
    && c.startLine - first + c.lineCount <= |req|
    && c.content == Unlines(req[c.startLine - first..c.startLine - first + c.lineCount])
  }

  /** Every chunk holds the lines it covers, chunk by chunk. */
  predicate HoldsItsLines(cs: seq<Chunk>, req: seq<string>, first: int)
    decreases |cs|
  {
    cs == [] || (HoldsLines(cs[0], req, first) && HoldsItsLines(cs[1..], req, first))
  }

  /** Every chunk cut from offset `i` holds exactly the lines it claims. */
  lemma {:induction false} ChunksHoldTheirLines(req: seq<string>, i: nat, size: int, first: int, last: int)
    requires size >= 1
    ensures HoldsItsLines(ChunksFrom(req, i, size, first, last), req, first)
    decreases |req| - i
  {
    if i < |req| {
      var n := Min(size, |req| - i);
      var head := Chunk(first + i, Min(first + i + n - 1, last), Unlines(req[i..i + n]), n);
      var rest := ChunksFrom(req, i + size, size, first, last);
      ChunksFromStep(req, i, size, first, last);
      ChunksHoldTheirLines(req, i + size, size, first, last);
      assert ([head] + rest)[1..] == rest;
    }
  }

  /** The first chunk cut from offset `i`: it starts at line `first + i`,
      holds the next `min(size, |req| - i)` lines, and is followed by the
      chunks cut from `i + size`. */
  lemma ChunksFromStep(req: seq<string>, i: nat, size: int, first: int, last: int)
    requires size >= 1 && i < |req|
    ensures var n := Min(size, |req| - i);
            ChunksFrom(req, i, size, first, last)
            == [Chunk(first + i, Min(first + i + n - 1, last), Unlines(req[i..i + n]), n)]
               + ChunksFrom(req, i + size, size, first, last)
  {
    assert Min(i + size, |req|) == i + Min(size, |req| - i);
  }

  /** The chunks cut from offset `i` are well shaped, starting at line `first + i`. */
  lemma {:induction false} ChunkShape(req: seq<string>, i: nat, size: int, first: int, last: int)
    requires size >= 1
    ensures WellShaped(ChunksFrom(req, i, size, first, last), first + i, last, size)
    decreases |req| - i
  {
    if i < |req| {
      var n := Min(size, |req| - i);
      var head := Chunk(first + i, Min(first + i + n - 1, last), Unlines(req[i..i + n]), n);
      var rest := ChunksFrom(req, i + size, size, first, last);
      ChunksFromStep(req, i, size, first, last);
      ChunkShape(req, i + size, size, first, last);
      assert rest != [] ==> i + size < |req|;
      assert ([head] + rest)[1..] == rest;
    }
  }
}

/** A chunked read of one file, as a function of the file map. */
module ChunkedRead {
  import opened Text
  import opened LineEdits
  import opened Errors
  import opened Chunking

  datatype ChunkedRead = ChunkedRead(
    filePath: string,
    totalLines: nat,
    startLine: int,
    endLine: int,
    chunks: seq<Chunk>,
    chunkCount: nat,
    fileHash: string)

  /** `readFileChunked(path, chunkSize, startLine, endLine)`: fails when the
      file is missing or the clamped start lies past its last line; otherwise
      the clamped range, cut into chunks, with the hash of the whole file. */
  function ReadChunked(files: map<string, string>, hash: string -> string, path: string,
                       chunkSize: int, startLine: int, endLine: int): (r: Result<ChunkedRead>)
    requires chunkSize >= 1
    ensures path !in files ==> r == Err(FileNotFound(path))
    ensures path in files ==>
              (r.Ok? <==> ActualStart(startLine) <= |Lines(files[path])|)
    ensures r.Ok? ==> && r.value.chunkCount == |r.value.chunks|
                      && r.value.totalLines == |Lines(files[path])|
                      && r.value.fileHash == hash(files[path])
                      && r.value.filePath == path
                      && r.value.startLine == ActualStart(startLine)
                      && r.value.endLine == ActualEnd(|Lines(files[path])|, endLine)
                      && WellShaped(r.value.chunks, r.value.startLine, r.value.endLine, chunkSize)
                      && HoldsItsLines(r.value.chunks, Lines(files[path]), 1)
  {
    if path !in files then Err(FileNotFound(path))
    else
      var content := files[path];
      var lines := Lines(content);
      var s := ActualStart(startLine);
      var e := ActualEnd(|lines|, endLine);
      if s > |lines| then Err(StartBeyondEnd(s, |lines|))
      else
        var cs := ChunksFrom(RequestedLines(lines, startLine, endLine), 0, chunkSize, s, e);
        ChunkShape(RequestedLines(lines, startLine, endLine), 0, chunkSize, s, e);
        RequestedChunksHoldFileLines(lines, startLine, endLine, chunkSize);
        Ok(ChunkedRead(path, |lines|, s, e, cs, |cs|, hash(content)))
  }

  /** Reading a whole file in chunks (start 1, no end) and joining the chunk
      contents with "\n" gives back the file's exact content, whatever the
      chunk size. */
  lemma WholeFileRoundTrip(files: map<string, string>, hash: string -> string, path: string, chunkSize: int)
    requires chunkSize >= 1 && path in files
    ensures var r := ReadChunked(files, hash, path, chunkSize, 1, 0);
            r.Ok? && Join(ChunkContents(r.value.chunks), "\n") == files[path]
  {
    var lines := Lines(files[path]);
    assert Slice(lines, 0, |lines|) == lines[0..];
    ChunksCoverRequest(lines, 0, chunkSize, 1, |lines|);
    UnlinesLines(files[path]);
  }

  /** The chunks of a read hold the file's own lines: each chunk's content is
      lines `startLine` to `startLine + lineCount - 1` of the file. */
  lemma RequestedChunksHoldFileLines(lines: seq<string>, startLine: int, endLine: int, chunkSize: int)
    requires chunkSize >= 1 && ActualStart(startLine) <= |lines|
    ensures HoldsItsLines(ChunksFrom(RequestedLines(lines, startLine, endLine), 0, chunkSize,
                                     ActualStart(startLine), ActualEnd(|lines|, endLine)), lines, 1)
  {
    var s := ActualStart(startLine);
    var e := ActualEnd(|lines|, endLine);
    var req := RequestedLines(lines, startLine, endLine);
    SliceWindow(lines, s - 1, e);
    if req != [] {
      var hi := s - 1 + |req|;
      assert req == lines[s - 1..hi];
      ChunksHoldFileLines(lines, s - 1, hi, e, chunkSize);
    }
  }

  /** The chunks cut from the window `lines[lo..hi]` hold the file's own
      lines. */
  lemma ChunksHoldFileLines(lines: seq<string>, lo: int, hi: int, e: int, chunkSize: int)
    requires chunkSize >= 1 && 0 <= lo <= hi <= |lines|
    ensures HoldsItsLines(ChunksFrom(lines[lo..hi], 0, chunkSize, lo + 1, e), lines, 1)
  {
    ChunksHoldTheirLines(lines[lo..hi], 0, chunkSize, lo + 1, e);
    WindowHoldsFileLines(ChunksFrom(lines[lo..hi], 0, chunkSize, lo + 1, e), lines, lo, hi);
  }

  /** Chunks holding lines of a window `lines[lo..hi]`, counted from line
      `lo + 1`, hold the same lines of the whole, counted from line 1. */
  lemma {:induction false} WindowHoldsFileLines(cs: seq<Chunk>, lines: seq<string>, lo: int, hi: int)
    requires 0 <= lo <= hi <= |lines|
    requires HoldsItsLines(cs, lines[lo..hi], lo + 1)
    ensures HoldsItsLines(cs, lines, 1)
    decreases |cs|
  {
    if cs != [] {
      WindowHoldsLines(cs[0], lines, lo, hi);
      WindowHoldsFileLines(cs[1..], lines, lo, hi);
    }
  }

  /** One chunk of the window holds the same lines of the whole. */
  lemma WindowHoldsLines(c: Chunk, lines: seq<string>, lo: int, hi: int)
    requires 0 <= lo <= hi <= |lines|
    requires HoldsLines(c, lines[lo..hi], lo + 1)
    ensures HoldsLines(c, lines, 1)
  {
    var window := lines[lo..hi];
    var a := c.startLine - (lo + 1);
    var b := a + c.lineCount;
    assert |window[a..b]| == |lines[lo + a..lo + b]|;
    forall j | 0 <= j < b - a ensures window[a..b][j] == lines[lo + a..lo + b][j] {
      assert window[a + j] == lines[lo + a + j];
    }
    assert window[a..b] == lines[lo + a..lo + b];
  }

  /** Whatever the start and end asked for, a successful read returns exactly
      the clamped range `lines.slice(actualStart - 1, actualEnd)`, chunk by
      chunk, and its line counts add up to that range's length; an empty range
      (an end before the start) gives no chunks at all. */
  lemma ClampedRead(files: map<string, string>, hash: string -> string, path: string,
                    chunkSize: int, startLine: int, endLine: int)
    requires chunkSize >= 1 && path in files
    ensures var r := ReadChunked(files, hash, path, chunkSize, startLine, endLine);
            var req := RequestedLines(Lines(files[path]), startLine, endLine);
            r.Ok? ==> && Join(ChunkContents(r.value.chunks), "\n") == Unlines(req)
                      && HoldsItsLines(r.value.chunks, req, r.value.startLine)
                      && TotalLineCount(r.value.chunks) == |req|
                      && (req == [] <==> r.value.chunks == [])
  {
    var lines := Lines(files[path]);
    var s := ActualStart(startLine);
    var e := ActualEnd(|lines|, endLine);
    var req := RequestedLines(lines, startLine, endLine);
    if s <= |lines| {
      ChunksHoldTheirLines(req, 0, chunkSize, s, e);
      if req != [] {
        ChunksCoverRequest(req, 0, chunkSize, s, e);
        assert req[0..] == req;
      }
      ChunkLineCountsSum(req, 0, chunkSize, s, e);
    }
  }

  /** A read of lines `[s, e]` inside the file returns exactly those lines,
      chunk by chunk, and its line counts add up to `e - s + 1`. */
  lemma RangeRead(files: map<string, string>, hash: string -> string, path: string,
                  chunkSize: int, s: int, e: int)
    requires chunkSize >= 1 && path in files
    requires 1 <= s <= e <= |Lines(files[path])|
    ensures var r := ReadChunked(files, hash, path, chunkSize, s, e);
            && r.Ok?
            && Join(ChunkContents(r.value.chunks), "\n") == Unlines(Lines(files[path])[s - 1..e])
            && TotalLineCount(r.value.chunks) == e - s + 1
  {
    var lines := Lines(files[path]);
    var req := lines[s - 1..e];
    assert Slice(lines, s - 1, e) == req;
    ChunksCoverRequest(req, 0, chunkSize, s, e);
    assert req[0..] == req;
    ChunkLineCountsSum(req, 0, chunkSize, s, e);
  }
}
