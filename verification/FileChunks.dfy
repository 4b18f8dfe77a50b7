/** Cutting a file into chunks at line starts, for workers to scan independently. */
module FileChunks {
  import opened Bytes
  import opened Lines

  /** A stretch of the file; `startLine` is its absolute first line number, or 0 when unknown. */
  datatype Chunk = Chunk(index: int, startOff: int, endOff: int, startLine: int)

  /** The first line start after the newline that follows `target`, or the end of the file. */
  function NextLineStart(content: Word, target: nat): (o: nat)
    requires target <= |content|
    ensures target <= o <= |content|
    ensures o == |content| || LineStart(content, o)
  {
    var i := FindNL(content, target);
    if i < |content| then i + 1 else i
  }

  lemma NextLineStartMonotone(content: Word, a: nat, b: nat)
    requires a <= b <= |content|
    ensures NextLineStart(content, a) <= NextLineStart(content, b)
  {
    var i := FindNL(content, a);
    assert b <= i ==> FindNL(content, b) == i by {
      if b <= i { FindNLUnique(content, b, i); }
    }
  }

  lemma FindNLSkips(content: Word, from: nat, to: nat)
    requires from <= to <= |content| && forall j | from <= j < to :: content[j] != NL
    ensures FindNL(content, from) == FindNL(content, to)
  {
    FindNLUnique(content, from, FindNL(content, to));
  }

  /** Looks for the next line start window by window, as `ReadAt` with a fixed buffer delivers
      the file. */
  method AlignToLine(content: Word, targetOff: nat, bufSize: nat) returns (off: nat)
    requires targetOff < |content| && bufSize > 0
    ensures off == NextLineStart(content, targetOff)
  {
    var currOff := targetOff;
    while currOff < |content|
      invariant targetOff <= currOff <= |content|
      invariant FindNL(content, targetOff) == FindNL(content, currOff)
      decreases |content| - currOff
    {
      var n := if bufSize <= |content| - currOff then bufSize else |content| - currOff;
      var buf := content[currOff..currOff + n];
      var idx := FindNL(buf, 0);
      assert forall j | currOff <= j < currOff + idx :: content[j] == buf[j - currOff];
      if idx < n {
        FindNLUnique(content, currOff, currOff + idx);
        return currOff + idx + 1;
      }
      FindNLSkips(content, currOff, currOff + n);
      currOff := currOff + n;
      if n < bufSize {
        break;
      }
    }
    off := |content|;
  }

  /** The chunks cover the first `to` bytes without gap or overlap, in order, and each starts at
      a line start. */
  ghost predicate TilesUpTo(content: Word, chunks: seq<Chunk>, to: int) {
    && (chunks == [] ==> to == 0)
    && (chunks != [] ==> chunks[0].startOff == 0 && chunks[|chunks| - 1].endOff == to)
    && (forall i | 0 <= i < |chunks| ::
          chunks[i].index == i && LineStart(content, chunks[i].startOff)
          && chunks[i].startOff < chunks[i].endOff <= |content|)
    && (forall i {:trigger chunks[i].endOff} | 0 <= i < |chunks| - 1 :: chunks[i].endOff == chunks[i + 1].startOff)
  }

  ghost predicate Tiles(content: Word, chunks: seq<Chunk>) {
    TilesUpTo(content, chunks, |content|)
  }

  ghost predicate Cuts(content: Word, raw: seq<int>) {
    && raw != [] && raw[0] == 0 && raw[|raw| - 1] == |content|
    && (forall i | 0 <= i < |raw| :: 0 <= raw[i] <= |content| && (raw[i] == |content| || LineStart(content, raw[i])))
    && (forall i, j | 0 <= i <= j < |raw| :: raw[i] <= raw[j])
  }

  /** Where share `i` of `n` equal ones begins. */
  function Share(content: Word, n: nat, i: nat): nat
    requires n > 0
  {
    |content| / n * i
  }

  /** The chunks tile the file, and each share of it is cut at the first line start behind. */
  method CalculateFileChunks(content: Word, numChunks: nat, bufSize: nat) returns (chunks: seq<Chunk>)
    requires numChunks > 0 && bufSize > 0
    ensures Tiles(content, chunks) && |chunks| <= numChunks
    ensures forall i | 0 <= i < |chunks| :: chunks[i].startLine == 0
    ensures forall i | 0 < i < numChunks :: CutBehind(content, chunks, Share(content, numChunks, i))
  {
    var raw := CutPoints(content, numChunks, bufSize);
    chunks := ChunksOf(content, raw);
    forall i | 0 < i < numChunks ensures CutBehind(content, chunks, Share(content, numChunks, i)) {
      assert raw[i] == CutAt(content, Share(content, numChunks, i));
      CutIsBehind(content, chunks, Share(content, numChunks, i));
    }
  }

  method ChunksOf(content: Word, raw: seq<int>) returns (chunks: seq<Chunk>)
    requires |raw| >= 2 && Cuts(content, raw)
    ensures Tiles(content, chunks) && |chunks| <= |raw| - 1
    ensures forall i | 0 <= i < |chunks| :: chunks[i].startLine == 0
    ensures forall k | 0 <= k < |raw| :: raw[k] == |content| || StartsChunk(chunks, raw[k])
  {
    chunks := [];
    for i := 0 to |raw| - 1
      invariant |chunks| <= i && TilesUpTo(content, chunks, raw[i])
      invariant forall k | 0 <= k < |chunks| :: chunks[k].startLine == 0
      invariant forall k | 0 <= k <= i :: raw[k] == raw[i] || StartsChunk(chunks, raw[k])
    {
      var start, end := raw[i], raw[i + 1];
      if start < end {
        StartsOneMore(chunks, Chunk(|chunks|, start, end, 0));
        chunks := chunks + [Chunk(|chunks|, start, end, 0)];
      }
    }
  }

  ghost predicate StartsChunk(chunks: seq<Chunk>, o: int) {
    exists c :: c in chunks && c.startOff == o
  }

  lemma StartsOneMore(chunks: seq<Chunk>, c: Chunk)
    ensures StartsChunk(chunks + [c], c.startOff)
    ensures forall o | StartsChunk(chunks, o) :: StartsChunk(chunks + [c], o)
  {
    assert c in chunks + [c];
    forall o | StartsChunk(chunks, o) ensures StartsChunk(chunks + [c], o) {
      var d :| d in chunks && d.startOff == o;
      assert d in chunks + [c];
    }
  }

  /** There is no newline from `target` on, or a chunk starts behind the first of them, unless that
      is the end of the file. */
  ghost predicate CutBehind(content: Word, chunks: seq<Chunk>, target: nat) {
    || (forall j | target <= j < |content| :: content[j] != 10)
    || exists i :: FirstNewline(content, target, i) && (i + 1 == |content| || StartsChunk(chunks, i + 1))
  }

  ghost predicate FirstNewline(content: Word, target: nat, i: int) {
    target <= i < |content| && content[i] == 10 && forall j | target <= j < i :: content[j] != 10
  }

  lemma CutIsBehind(content: Word, chunks: seq<Chunk>, target: nat)
    requires CutAt(content, target) == |content| || StartsChunk(chunks, CutAt(content, target))
    ensures CutBehind(content, chunks, target)
  {
    if target < |content| {
      var i := FindNL(content, target);
      if i < |content| {
        assert FirstNewline(content, target, i);
      }
    }
  }

  /** Where the cut for a share that ends at `targetOff` goes. */
  method NextCut(content: Word, targetOff: nat, bufSize: nat) returns (off: nat)
    requires bufSize > 0
    ensures off == CutAt(content, targetOff) <= |content| && (off == |content| || LineStart(content, off))
  {
    off := |content|;
    if targetOff < |content| {
      off := AlignToLine(content, targetOff, bufSize);
    }
  }

  /** Cut points so far: in order, from 0, each a line start or the end. */
  ghost predicate CutsSoFar(content: Word, raw: seq<int>) {
    && raw != [] && raw[0] == 0
    && (forall i | 0 <= i < |raw| :: 0 <= raw[i] <= |content| && (raw[i] == |content| || LineStart(content, raw[i])))
    && (forall i, j | 0 <= i <= j < |raw| :: raw[i] <= raw[j])
  }

  lemma OneMoreCut(content: Word, raw: seq<int>, off: int)
    requires CutsSoFar(content, raw) && raw[|raw| - 1] <= off <= |content|
    requires off == |content| || LineStart(content, off)
    ensures CutsSoFar(content, raw + [off])
  {}

  /** The raw cut points: equal shares of the file, each moved on to the next line start. */
  method CutPoints(content: Word, numChunks: nat, bufSize: nat) returns (raw: seq<int>)
    requires numChunks > 0 && bufSize > 0
    ensures |raw| == numChunks + 1 && Cuts(content, raw)
    ensures forall i | 0 < i < numChunks :: raw[i] == CutAt(content, Share(content, numChunks, i))
  {
    raw := CutEvery(content, numChunks, |content| / numChunks, bufSize);
    forall i | 0 < i < numChunks ensures raw[i] == CutAt(content, Share(content, numChunks, i)) {
      assert raw[i] == CutAt(content, Times(|content| / numChunks, i));
    }
  }

  function Times(step: nat, i: nat): nat {
    step * i
  }

  method CutEvery(content: Word, numChunks: nat, approxChunkSize: nat, bufSize: nat) returns (raw: seq<int>)
    requires numChunks > 0 && bufSize > 0
    ensures |raw| == numChunks + 1 && Cuts(content, raw)
    ensures forall i | 0 < i < numChunks :: raw[i] == CutAt(content, Times(approxChunkSize, i))
  {
    raw := [0];
    for i := 1 to numChunks
      invariant |raw| == i && CutsSoFar(content, raw)
      invariant forall k | 0 < k < i :: raw[k] == CutAt(content, Times(approxChunkSize, k))
    {
      var targetOff := i * approxChunkSize;
      CutAtMonotone(content, i - 1, i, approxChunkSize);
      var off := NextCut(content, targetOff, bufSize);
      OneMoreCut(content, raw, off);
      raw := raw + [off];
    }
    OneMoreCut(content, raw, |content|);
    raw := raw + [|content|];
  }

  function CutAt(content: Word, target: nat): nat {
    if target < |content| then NextLineStart(content, target) else |content|
  }

  lemma CutAtMonotone(content: Word, i: nat, j: nat, step: nat)
    requires i <= j
    ensures CutAt(content, Times(step, i)) <= CutAt(content, Times(step, j))
  {
    var a, b := Times(step, i), Times(step, j);
    assert b - a == step * (j - i);
    if b < |content| {
      NextLineStartMonotone(content, a, b);
    }
  }
}
