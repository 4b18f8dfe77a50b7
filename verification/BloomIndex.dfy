/** The chunk index of a large file: runs of 15000 lines, each with a Bloom filter of the tokens
    read in it, built in one pass over the file in whatever pieces it is read. */
module BloomIndex {
  import opened Bytes
  import opened Lines
  import opened Bloom
  import opened Matchers
  import opened Wrappers

  const BLOOM_CHUNK_LINES: nat := 15000

  datatype BloomChunkMeta = BloomChunkMeta(chunkIndex: int, startLine: int, lineCount: int,
                                           startOffset: int, endOffset: int, filter: seq<bv8>)

  datatype ChunkBloomIndex = ChunkBloomIndex(fileSize: int, modTimeNano: int, totalLines: int,
                                             chunks: seq<BloomChunkMeta>)

  // ---- which tokens a scan in pieces sees

  /** The byte offsets at which one read ends and the next begins. */
  ghost function CutsOf(segments: seq<Word>): set<nat> {
    set j | 0 <= j <= |segments| :: Offset(segments, j)
  }

  ghost predicate NoCutInside(cuts: set<nat>, lo: int, hi: int) {
    forall c: nat | lo < c < hi :: c !in cuts
  }

  /** A maximal run of token bytes within one read, of a length that is indexed. */
  ghost predicate TokenRead(content: Word, cuts: set<nat>, a: nat, b: nat) {
    && a < b <= |content| && 2 <= b - a <= 64
    && (forall j | a <= j < b :: IsTokenByte(content[j]))
    && (a == 0 || a in cuts || !IsTokenByte(content[a - 1]))
    && (b == |content| || b in cuts || !IsTokenByte(content[b]))
    && NoCutInside(cuts, a, b)
  }

  /** Bit `p` belongs to a token read between `s` and `e`. */
  ghost predicate BitRead(h: Hash, content: Word, cuts: set<nat>, s: int, e: int, p: nat) {
    exists a: nat, b: nat :: s <= a && b <= e && TokenRead(content, cuts, a, b) && TokenWithBit(h, content, a, b, p)
  }

  /** The bits are exactly those of the tokens read between `s` and `e`. */
  ghost predicate FilterFor(bits: set<nat>, h: Hash, content: Word, cuts: set<nat>, s: int, e: int) {
    forall p: nat :: p in bits <==> BitRead(h, content, cuts, s, e, p)
  }

  lemma {:induction false} NothingRead(h: Hash, content: Word, cuts: set<nat>, s: int)
    ensures FilterFor({}, h, content, cuts, s, s)
  {}

  /** A stretch that begins and ends at a newline or at a cut. */
  ghost predicate Stretch(content: Word, cuts: set<nat>, x: nat, y: nat) {
    && x <= y <= |content| && NoCutInside(cuts, x, y)
    && (x == 0 || x in cuts || content[x - 1] == NL)
    && (y == |content| || y in cuts || content[y] == NL)
  }

  /** The tokens of a stretch, taken by itself, are the tokens read in it. */
  lemma {:induction false} TokensOfStretch(h: Hash, content: Word, cuts: set<nat>, x: nat, y: nat, a: nat, b: nat,
                                           p: nat)
    requires Stretch(content, cuts, x, y) && x <= a <= b <= y
    ensures TokenRead(content, cuts, a, b) <==> TokenAt(content[x..y], a - x, b - x)
    ensures TokenWithBit(h, content, a, b, p) <==> TokenWithBit(h, content[x..y], a - x, b - x, p)
  {
    SliceOfSlice(content, x, y, a - x, b - x);
    var data := content[x..y];
    assert forall j | x <= j < y :: data[j - x] == content[j];
    assert a > x ==> data[a - x - 1] == content[a - 1];
    assert b < y ==> data[b - x] == content[b];
    if TokenAt(data, a - x, b - x) {
      forall j | a <= j < b ensures IsTokenByte(content[j]) {
        assert data[j - x] == content[j];
      }
    }
  }

  lemma {:induction false} ReadInStretch(content: Word, cuts: set<nat>, x: nat, y: nat, a: nat, b: nat)
    requires Stretch(content, cuts, x, y) && TokenRead(content, cuts, a, b) && x < b <= y
    ensures x <= a
  {}

  lemma {:induction false} BitOfStretch(h: Hash, content: Word, cuts: set<nat>, s: nat, x: nat, y: nat, data: Word,
                                        p: nat)
    requires Stretch(content, cuts, x, y) && s <= x && data == content[x..y] && p in TokenBits(h, data, |data|)
    ensures BitRead(h, content, cuts, s, y, p)
  {
    TokenBitsAre(h, data, |data|, p);
    var a, b :| TokenAt(data, a, b) && b <= |data| && TokenWithBit(h, data, a, b, p);
    var a', b' := x + a, x + b;
    TokensOfStretch(h, content, cuts, x, y, a', b', p);
    assert TokenRead(content, cuts, a', b') && TokenWithBit(h, content, a', b', p);
  }

  lemma {:induction false} StretchOfBit(h: Hash, content: Word, cuts: set<nat>, s: nat, x: nat, y: nat, data: Word,
                                        p: nat)
    requires Stretch(content, cuts, x, y) && s <= x && data == content[x..y] && BitRead(h, content, cuts, s, y, p)
    ensures BitRead(h, content, cuts, s, x, p) || p in TokenBits(h, data, |data|)
  {
    var a: nat, b: nat :| s <= a && b <= y && TokenRead(content, cuts, a, b) && TokenWithBit(h, content, a, b, p);
    if b > x {
      ReadInStretch(content, cuts, x, y, a, b);
      TokensOfStretch(h, content, cuts, x, y, a, b, p);
      TokenBitsAre(h, data, |data|, p);
    }
  }

  lemma {:induction false} AddStretch(bits: set<nat>, h: Hash, content: Word, cuts: set<nat>, s: nat, x: nat, y: nat,
                                      data: Word)
    requires Stretch(content, cuts, x, y) && s <= x && FilterFor(bits, h, content, cuts, s, x) && data == content[x..y]
    ensures FilterFor(bits + TokenBits(h, data, |data|), h, content, cuts, s, y)
  {
    forall p: nat ensures p in bits + TokenBits(h, data, |data|) <==> BitRead(h, content, cuts, s, y, p) {
      if p in TokenBits(h, data, |data|) {
        BitOfStretch(h, content, cuts, s, x, y, data, p);
      }
      if BitRead(h, content, cuts, s, y, p) {
        StretchOfBit(h, content, cuts, s, x, y, data, p);
      }
    }
  }

  /** No token ends with a newline. */
  lemma {:induction false} PastNewline(bits: set<nat>, h: Hash, content: Word, cuts: set<nat>, s: nat, y: nat)
    requires FilterFor(bits, h, content, cuts, s, y) && y < |content| && content[y] == NL
    ensures FilterFor(bits, h, content, cuts, s, y + 1)
  {
    forall p: nat ensures BitRead(h, content, cuts, s, y + 1, p) <==> BitRead(h, content, cuts, s, y, p) {
      if BitRead(h, content, cuts, s, y + 1, p) {
        var a: nat, b: nat :| s <= a && b <= y + 1 && TokenRead(content, cuts, a, b)
          && TokenWithBit(h, content, a, b, p);
        assert b == y + 1 ==> IsTokenByte(content[y]);
      }
    }
  }

  // ---- the build

  /** How many newlines lie between two offsets. */
  function NLBetween(content: Word, s: int, e: int): int
    requires 0 <= s <= |content| && 0 <= e <= |content|
  {
    NLTo(content, e) - NLTo(content, s)
  }

  /** What a chunk records of the file: it starts at a line start, knows its first line's number
      and how many newlines it holds, and its filter stands for the tokens read in it. */
  ghost predicate ChunkOk(h: Hash, content: Word, cuts: set<nat>, c: BloomChunkMeta) {
    && 0 <= c.startOffset <= c.endOffset <= |content| && (content != [] ==> c.startOffset < c.endOffset)
    && LineStart(content, c.startOffset) && (c.endOffset == |content| || LineStart(content, c.endOffset))
    && c.startLine == NLTo(content, c.startOffset) + 1
    && c.lineCount == NLBetween(content, c.startOffset, c.endOffset)
    && |c.filter| == FILTER_BYTES
    && FilterFor(Bits(c.filter), h, content, cuts, c.startOffset, c.endOffset)
  }

  /** The chunks follow one another from the start of the file up to `to`, numbered from 0. */
  ghost predicate ChunksTo(h: Hash, content: Word, cuts: set<nat>, chunks: seq<BloomChunkMeta>, to: int) {
    if chunks == [] then to == 0
    else
      var last := chunks[|chunks| - 1];
      && last.endOffset == to && last.chunkIndex == |chunks| - 1
      && ChunkOk(h, content, cuts, last) && ChunksTo(h, content, cuts, chunks[..|chunks| - 1], last.startOffset)
  }

  /** The scan's variables; the filter of the current chunk is kept apart. */
  datatype Progress = Progress(chunks: seq<BloomChunkMeta>, chunkIndex: int, startLine: int, startOffset: int,
                               lineCount: int, chunkLineCount: int)

  /** Every one of the chunks holds 15000 lines. */
  predicate Full(chunks: seq<BloomChunkMeta>) {
    forall i | 0 <= i < |chunks| :: chunks[i].lineCount == BLOOM_CHUNK_LINES
  }

  /** The last one holds at most as many. */
  predicate FullButLast(chunks: seq<BloomChunkMeta>) {
    chunks != [] ==> Full(chunks[..|chunks| - 1]) && chunks[|chunks| - 1].lineCount <= BLOOM_CHUNK_LINES
  }

  /** What the scan has established after `at` bytes. */
  ghost predicate Building(h: Hash, content: Word, cuts: set<nat>, p: Progress, bits: set<nat>, at: int) {
    && Counted(content, p, at) && Full(p.chunks)
    && ChunksTo(h, content, cuts, p.chunks, p.startOffset)
    && FilterFor(bits, h, content, cuts, p.startOffset, at)
  }

  ghost predicate Counted(content: Word, p: Progress, at: int) {
    && 0 <= p.startOffset <= at <= |content| && LineStart(content, p.startOffset)
    && p.chunkIndex == |p.chunks| && p.startLine == NLTo(content, p.startOffset) + 1
    && p.lineCount == NLTo(content, at)
    && 0 <= p.chunkLineCount == NLBetween(content, p.startOffset, at) < BLOOM_CHUNK_LINES
    && p.lineCount == 15000 * |p.chunks| + p.chunkLineCount
  }

  lemma {:induction false} ReadOn(content: Word, p: Progress, x: nat, y: nat)
    requires Counted(content, p, x) && x <= y <= |content| && forall j | x <= j < y :: content[j] != NL
    ensures Counted(content, p, y)
  {
    NLToWithout(content, x, y);
  }

  method Clear(b: array<bv8>)
    modifies b
    ensures Bits(b[..]) == {}
  {
    for i := 0 to b.Length
      invariant forall j | 0 <= j < i :: b[j] == 0
    {
      b[i] := 0;
    }
    forall p: nat | p < 8 * b.Length ensures !BitAt(b[..], p) {
      assert b[p / 8] == 0;
    }
  }

  lemma {:induction false} ChunkCloses(h: Hash, content: Word, cuts: set<nat>, p: Progress, bits: set<nat>, at: nat,
                                       filter: seq<bv8>)
    requires Building(h, content, cuts, p, bits, at) && at < |content| && content[at] == NL
    requires p.chunkLineCount + 1 == BLOOM_CHUNK_LINES && |filter| == FILTER_BYTES && Bits(filter) == bits
    ensures var c := BloomChunkMeta(p.chunkIndex, p.startLine, p.chunkLineCount + 1, p.startOffset, at + 1, filter);
      Building(h, content, cuts,
               Progress(p.chunks + [c], |p.chunks| + 1, p.lineCount + 2, at + 1, p.lineCount + 1, 0), {}, at + 1)
  {
    PastNewline(bits, h, content, cuts, p.startOffset, at);
    NothingRead(h, content, cuts, at + 1);
    var c := BloomChunkMeta(p.chunkIndex, p.startLine, p.chunkLineCount + 1, p.startOffset, at + 1, filter);
    assert (p.chunks + [c])[..|p.chunks|] == p.chunks;
  }

  lemma {:induction false} LineCloses(h: Hash, content: Word, cuts: set<nat>, p: Progress, bits: set<nat>, at: nat)
    requires Building(h, content, cuts, p, bits, at) && at < |content| && content[at] == NL
    requires p.chunkLineCount + 1 < BLOOM_CHUNK_LINES
    ensures Building(h, content, cuts, p.(lineCount := p.lineCount + 1, chunkLineCount := p.chunkLineCount + 1),
                     bits, at + 1)
  {
    PastNewline(bits, h, content, cuts, p.startOffset, at);
  }

  /** Counts the newline at `absNewlineOffset`; the 15000th of a chunk closes it. */
  method CloseLine(b: array<bv8>, p0: Progress, absNewlineOffset: nat, ghost h: Hash, ghost content: Word,
                   ghost cuts: set<nat>)
    returns (p: Progress)
    requires b.Length == FILTER_BYTES && absNewlineOffset < |content| && content[absNewlineOffset] == NL
    requires Building(h, content, cuts, p0, Bits(b[..]), absNewlineOffset)
    modifies b
    ensures Building(h, content, cuts, p, Bits(b[..]), absNewlineOffset + 1)
  {
    var lineCount, chunkLineCount := p0.lineCount + 1, p0.chunkLineCount + 1;
    if chunkLineCount >= BLOOM_CHUNK_LINES {
      ChunkCloses(h, content, cuts, p0, Bits(b[..]), absNewlineOffset, b[..]);
      var closed := BloomChunkMeta(p0.chunkIndex, p0.startLine, chunkLineCount, p0.startOffset,
                                   absNewlineOffset + 1, b[..]);
      var chunks := p0.chunks + [closed];
      p := Progress(chunks, |chunks|, lineCount + 1, absNewlineOffset + 1, lineCount, 0);
      Clear(b);
    } else {
      LineCloses(h, content, cuts, p0, Bits(b[..]), absNewlineOffset);
      p := p0.(lineCount := lineCount, chunkLineCount := chunkLineCount);
    }
  }

  lemma {:induction false} PieceIsStretch(content: Word, cuts: set<nat>, base: nat, chunk: Word, pos: nat, i: nat)
    requires InPiece(content, cuts, base, chunk)
    requires pos <= |chunk| && i == FindNL(chunk, pos) && (pos == 0 || chunk[pos - 1] == NL)
    ensures Stretch(content, cuts, base + pos, base + i)
    ensures chunk[pos..i] == content[base + pos..base + i]
    ensures forall j | base + pos <= j < base + i :: content[j] != NL
    ensures i < |chunk| ==> content[base + i] == NL
  {
    assert forall j | base <= j < base + |chunk| :: content[j] == chunk[j - base];
    assert pos > 0 ==> content[base + (pos - 1)] == chunk[pos - 1];
  }

  lemma {:induction false} StretchCounted(content: Word, cuts: set<nat>, p: Progress, base: nat, chunk: Word,
                                          pos: nat, i: nat)
    requires InPiece(content, cuts, base, chunk) && Counted(content, p, base + pos)
    requires pos <= |chunk| && i == FindNL(chunk, pos) && (pos == 0 || chunk[pos - 1] == NL)
    ensures Counted(content, p, base + i)
    ensures i < |chunk| ==> base + i < |content| && content[base + i] == NL
  {
    PieceIsStretch(content, cuts, base, chunk, pos, i);
    ReadOn(content, p, base + pos, base + i);
  }

  lemma {:induction false} StretchAdded(h: Hash, content: Word, cuts: set<nat>, s: nat, bits: set<nat>, base: nat,
                                        chunk: Word, pos: nat, i: nat, data: Word)
    requires InPiece(content, cuts, base, chunk)
    requires pos <= |chunk| && i == FindNL(chunk, pos) && (pos == 0 || chunk[pos - 1] == NL) && data == chunk[pos..i]
    requires s <= base + pos && FilterFor(bits, h, content, cuts, s, base + pos)
    ensures FilterFor(bits + TokenBits(h, data, |data|), h, content, cuts, s, base + i)
  {
    PieceIsStretch(content, cuts, base, chunk, pos, i);
    AddStretch(bits, h, content, cuts, s, base + pos, base + i, data);
  }

  /** Adds the tokens of the piece from `pos` to the next newline, or to its end. */
  method TakeStretch(b: array<bv8>, h: Hash, chunkBytes: Word, pos: nat, newline: nat, lowerBuf: array<byte>,
                     p: Progress,
                     ghost base: nat, ghost content: Word, ghost cuts: set<nat>)
    requires b.Length == FILTER_BYTES && lowerBuf.Length >= 64 && b as object != lowerBuf
    requires InPiece(content, cuts, base, chunkBytes)
    requires pos <= |chunkBytes| && newline == FindNL(chunkBytes, pos) && (pos == 0 || chunkBytes[pos - 1] == NL)
    requires Counted(content, p, base + pos) && FilterFor(Bits(b[..]), h, content, cuts, p.startOffset, base + pos)
    modifies b, lowerBuf
    ensures Counted(content, p, base + newline)
    ensures FilterFor(Bits(b[..]), h, content, cuts, p.startOffset, base + newline)
    ensures newline < |chunkBytes| ==> base + newline < |content| && content[base + newline] == NL
  {
    var data := chunkBytes[pos..newline];
    StretchCounted(content, cuts, p, base, chunkBytes, pos, newline);
    StretchAdded(h, content, cuts, p.startOffset, Bits(b[..]), base, chunkBytes, pos, newline, data);
    ExtractTokensToBloom(b, h, data, lowerBuf);
  }

  /** The piece that starts at `base` was read at once. */
  ghost predicate InPiece(content: Word, cuts: set<nat>, base: nat, chunk: Word) {
    && PieceAt(content, base, chunk) && base in cuts && base + |chunk| in cuts
    && NoCutInside(cuts, base, base + |chunk|)
  }

  /** Scans one piece of the file, that starts at byte `base`. */
  method ScanSegment(b: array<bv8>, h: Hash, chunkBytes: Word, lowerBuf: array<byte>, p0: Progress, base: nat,
                     ghost content: Word, ghost cuts: set<nat>) returns (p: Progress)
    requires b.Length == FILTER_BYTES && lowerBuf.Length >= 64 && b as object != lowerBuf
    requires InPiece(content, cuts, base, chunkBytes)
    requires Building(h, content, cuts, p0, Bits(b[..]), base)
    modifies b, lowerBuf
    ensures Building(h, content, cuts, p, Bits(b[..]), base + |chunkBytes|)
  {
    p := p0;
    var pos := 0;
    while true
      invariant 0 <= pos <= |chunkBytes| && (pos == 0 || chunkBytes[pos - 1] == NL)
      invariant Building(h, content, cuts, p, Bits(b[..]), base + pos)
      decreases |chunkBytes| - pos
    {
      var newline := FindNL(chunkBytes, pos);
      TakeStretch(b, h, chunkBytes, pos, newline, lowerBuf, p, base, content, cuts);
      if newline == |chunkBytes| {
        break;
      }
      p := CloseLine(b, p, base + newline, h, content, cuts);
      pos := newline + 1;
    }
  }

  lemma {:induction false} OffsetsGrow(segments: seq<Word>, i: nat, j: nat)
    requires i <= j <= |segments|
    ensures Offset(segments, i) <= Offset(segments, j)
    decreases j
  {
    if i < j {
      SegmentInPlace(segments, j - 1);
      OffsetsGrow(segments, i, j - 1);
    }
  }

  lemma {:induction false} SegmentIsPiece(segments: seq<Word>, j: nat)
    requires j < |segments|
    ensures Offset(segments, j + 1) == Offset(segments, j) + |segments[j]|
    ensures InPiece(Flatten(segments), CutsOf(segments), Offset(segments, j), segments[j])
  {
    SegmentInPlace(segments, j);
    forall c: nat | Offset(segments, j) < c < Offset(segments, j + 1) ensures c !in CutsOf(segments) {
      forall k | 0 <= k <= |segments| ensures Offset(segments, k) != c {
        if k <= j {
          OffsetsGrow(segments, k, j);
        } else {
          OffsetsGrow(segments, j + 1, k);
        }
      }
    }
  }

  /** The text after the last newline starts a chunk of its own, which is never added: there is
      such text, and the newlines before it filled the last chunk exactly. */
  predicate TailDropped(content: Word) {
    && CountNL(content) > 0 && CountNL(content) % BLOOM_CHUNK_LINES == 0
    && content[|content| - 1] != NL
  }

  /** What the index is to the file it was built from. */
  ghost predicate Indexes(h: Hash, segments: seq<Word>, idx: ChunkBloomIndex) {
    var content, chunks := Flatten(segments), idx.chunks;
    && chunks != [] && idx.totalLines == CountNL(content)
    && 0 <= chunks[|chunks| - 1].endOffset <= |content|
    && ChunksTo(h, content, CutsOf(segments), chunks, chunks[|chunks| - 1].endOffset)
    && NLTo(content, chunks[|chunks| - 1].endOffset) == CountNL(content)
    && FullButLast(chunks)
    && (chunks[|chunks| - 1].endOffset == |content| <==> !TailDropped(content))
  }

  lemma {:induction false} LastChunkCloses(h: Hash, content: Word, cuts: set<nat>, p: Progress, bits: set<nat>,
                                           filter: seq<bv8>)
    requires Building(h, content, cuts, p, bits, |content|) && |filter| == FILTER_BYTES && Bits(filter) == bits
    ensures NLTo(content, |content|) == CountNL(content)
    ensures TailDropped(content) <==> p.chunkLineCount == 0 && p.chunks != [] && p.startOffset != |content|
    ensures var c := BloomChunkMeta(p.chunkIndex, p.startLine, p.chunkLineCount, p.startOffset, |content|, filter);
      p.chunkLineCount > 0 || p.chunks == [] ==> ChunksTo(h, content, cuts, p.chunks + [c], |content|)
  {
    NLToCounts(content, |content|);
    TakeAll(content);
    var c := BloomChunkMeta(p.chunkIndex, p.startLine, p.chunkLineCount, p.startOffset, |content|, filter);
    assert (p.chunks + [c])[..|p.chunks|] == p.chunks;
    if p.chunkLineCount == 0 && p.startOffset < |content| && content[|content| - 1] == NL {
      NLGrows(content, p.startOffset, |content| - 1);
    }
  }

  lemma {:induction false} NLGrows(content: Word, x: nat, y: nat)
    requires x <= y <= |content|
    ensures NLTo(content, x) <= NLTo(content, y)
    decreases y
  {
    if x < y {
      NLGrows(content, x, y - 1);
    }
  }

  /** Builds the index from the pieces the file is read in; a read error gives no index. */
  method BuildChunkBloomIndex(segments: seq<Word>, readFails: bool, h: Hash, fileSize: int, modTimeNano: int)
    returns (r: Result<ChunkBloomIndex>)
    ensures readFails <==> r.Err?
    ensures r.Ok? ==> r.value.fileSize == fileSize && r.value.modTimeNano == modTimeNano
    ensures r.Ok? && fileSize == |Flatten(segments)| ==> Indexes(h, segments, r.value)
  {
    ghost var content, cuts := Flatten(segments), CutsOf(segments);
    var filter, lowerTokenBuf := new bv8[FILTER_BYTES], new byte[128];
    Clear(filter);
    var p := Progress([], 0, 1, 0, 0, 0);
    var currentFileOffset := 0;
    NothingRead(h, content, cuts, 0);
    for j := 0 to |segments|
      invariant currentFileOffset == Offset(segments, j)
      invariant Building(h, content, cuts, p, Bits(filter[..]), currentFileOffset)
    {
      SegmentIsPiece(segments, j);
      p := ScanSegment(filter, h, segments[j], lowerTokenBuf, p, currentFileOffset, content, cuts);
      currentFileOffset := currentFileOffset + |segments[j]|;
    }
    if readFails {
      return Err;
    }
    OffsetOfEnd(segments);
    LastChunkCloses(h, content, cuts, p, Bits(filter[..]), filter[..]);
    var chunks := p.chunks;
    if p.chunkLineCount > 0 || |chunks| == 0 {
      chunks := chunks
        + [BloomChunkMeta(p.chunkIndex, p.startLine, p.chunkLineCount, p.startOffset, fileSize, filter[..])];
    }
    r := Ok(ChunkBloomIndex(fileSize, modTimeNano, p.lineCount, chunks));
  }

  // ---- what the index means

  /** The chunks one by one: numbered in order, each sound, and each starting where the one
      before it ends. */
  lemma {:induction false} ChunksAdjoin(h: Hash, content: Word, cuts: set<nat>, chunks: seq<BloomChunkMeta>, to: int,
                                        i: nat)
    requires ChunksTo(h, content, cuts, chunks, to) && i < |chunks|
    ensures ChunkOk(h, content, cuts, chunks[i]) && chunks[i].chunkIndex == i
    ensures i == 0 ==> chunks[i].startOffset == 0
    ensures i > 0 ==> chunks[i].startOffset == chunks[i - 1].endOffset
    ensures i == |chunks| - 1 ==> chunks[i].endOffset == to
    decreases |chunks|
  {
    var init := chunks[..|chunks| - 1];
    if i < |chunks| - 1 {
      ChunksAdjoin(h, content, cuts, init, chunks[|chunks| - 1].startOffset, i);
    } else if i > 0 {
      ChunksAdjoin(h, content, cuts, init, chunks[|chunks| - 1].startOffset, i - 1);
    }
  }

  /** Chunk `i` starts at line 15000 i + 1, and all but the last end where the next such line
      starts. */
  lemma {:induction false} ChunkLines(h: Hash, content: Word, cuts: set<nat>, chunks: seq<BloomChunkMeta>, to: int,
                                      i: nat)
    requires ChunksTo(h, content, cuts, chunks, to) && i < |chunks| && FullButLast(chunks)
    ensures 0 <= chunks[i].startOffset <= chunks[i].endOffset <= |content|
    ensures chunks[i].startLine == 15000 * i + 1 && NLTo(content, chunks[i].startOffset) == 15000 * i
    ensures NLTo(content, chunks[i].endOffset) == 15000 * i + chunks[i].lineCount
    ensures i < |chunks| - 1 ==> chunks[i].lineCount == BLOOM_CHUNK_LINES
    decreases i
  {
    ChunksAdjoin(h, content, cuts, chunks, to, i);
    if i > 0 {
      ChunkLines(h, content, cuts, chunks, to, i - 1);
    }
    if i < |chunks| - 1 {
      assert chunks[..|chunks| - 1][i] == chunks[i];
    }
  }

  lemma {:induction false} NLToOfPrefix(a: Word, b: Word, n: nat)
    requires a <= b && n <= |a|
    ensures NLTo(a, n) == NLTo(b, n)
  {
    NLToCounts(a, n);
    NLToCounts(b, n);
    PrefixIsTake(a, b, n);
  }

  /** A file that has grown past its last chunk: there are more chunks now, and the next one
      starts after the end that the last one had. */
  lemma {:induction false} LastChunkGrows(h: Hash, before: seq<Word>, after: seq<Word>, a: ChunkBloomIndex,
                                          b: ChunkBloomIndex)
    requires Indexes(h, before, a) && Indexes(h, after, b) && Flatten(before) <= Flatten(after)
    requires CountNL(Flatten(before)) < 15000 * |a.chunks| < CountNL(Flatten(after))
    ensures |a.chunks| < |b.chunks|
    ensures a.chunks[|a.chunks| - 1].endOffset < b.chunks[|a.chunks|].startOffset
  {
    var first, later, n := Flatten(before), Flatten(after), |a.chunks|;
    var to := b.chunks[|b.chunks| - 1].endOffset;
    ChunkLines(h, later, CutsOf(after), b.chunks, to, |b.chunks| - 1);
    assert n < |b.chunks|;
    ChunkLines(h, later, CutsOf(after), b.chunks, to, n);
    var end, start := a.chunks[n - 1].endOffset, b.chunks[n].startOffset;
    NLToOfPrefix(first, later, end);
    if start <= end {
      NLGrows(later, start, end);
    }
  }

  /** Files whose last line is in no chunk: 15000 equal lines, however long, and a last line
      without a newline. With lines of 2240 bytes or more they are as large as the files that
      are searched by index. */
  lemma {:induction false} TailCanBeDropped(line: Word, tail: Word)
    requires (forall j | 0 <= j < |line| :: line[j] != NL) && tail != [] && forall j | 0 <= j < |tail| :: tail[j] != NL
    ensures var content := Copies(line + [NL], BLOOM_CHUNK_LINES) + tail;
            && TailDropped(content)
            && (|line| >= 2240 ==> |content| >= 33554432)
  {
    var text := line + [NL];
    assert text[..|line|] == line;
    NoNLCountsZero(line);
    CopiesCount(text, BLOOM_CHUNK_LINES);
    CountNLConcat(Copies(text, BLOOM_CHUNK_LINES), tail);
    NoNLCountsZero(tail);
  }
}
