/** What a search by the chunk index finds: exactly when nothing is lost by skipping chunks. */
module IndexedSearch {
  import opened Bytes
  import opened Lines
  import opened Wrappers
  import opened Matchers
  import opened SearchTheory
  import opened FileChunks
  import opened ParallelSearch
  import opened Bloom
  import opened BloomIndex
  import opened SkipScan
  import opened LargeFileSearch

  // ---- what the index guarantees

  /** Line `k` of the file starts at byte `o`. */
  ghost predicate LineAt(content: Word, k: nat, o: nat) {
    o < |content| && LineStart(content, o) && NLTo(content, o) == k
  }

  lemma {:induction false} FirstLineOfRest(content: Word, o: nat)
    requires o < |content|
    ensures RawLines(content[o..]) != [] && RawLines(content[o..])[0] == content[o..FindNL(content, o)]
  {
    var rest := content[o..];
    var i := FindNL(rest, 0);
    assert forall j | o <= j < o + i :: content[j] == rest[j - o];
    FindNLUnique(content, o, o + i);
    assert rest[..i] == content[o..o + i];
  }

  /** Line `k` is what lies between byte `o` and the next newline. */
  lemma {:induction false} LineAtIs(content: Word, k: nat, o: nat)
    requires LineAt(content, k, o)
    ensures k < |LinesOf(content)| && LinesOf(content)[k] == DropCR(content[o..FindNL(content, o)])
  {
    FirstLineOfRest(content, o);
    LinesSplit(content, o);
    LinesBefore(content, o);
    NLToCounts(content, o);
    FirstOfConcat(LinesOf(content[..o]), LinesOf(content[o..]), k);
  }

  lemma {:induction false} FirstOfConcat<T>(a: seq<T>, b: seq<T>, k: nat)
    requires |a| == k && b != []
    ensures (a + b)[k] == b[0]
  {}

  lemma {:induction false} LineNoGrows(content: Word, a: nat, b: nat)
    requires a < b <= |content| && LineStart(content, a)
    ensures LineNo(content, a) < LineNo(content, b)
  {
    assert content[..b][..a] == content[..a];
    LinesSplit(content[..b], a);
    LineCount(content[..b][a..]);
    assert content[..b][a..] != [];
    assert |RawLines(content[..b][a..])| > 0;
  }

  /** A line of a chunk starts in the chunk. */
  lemma {:induction false} LineInChunk(content: Word, c: Chunk, k: nat, o: nat)
    requires WholeLines(content, c) && LineAt(content, k, o)
    requires LineNo(content, c.startOff) <= k < LineNo(content, c.endOff)
    ensures c.startOff <= o < c.endOff
  {
    LinesBefore(content, o);
    NLToCounts(content, o);
    if o < c.startOff {
      LineNoGrows(content, o, c.startOff);
    }
    if c.endOff < o {
      LineNoGrows(content, c.endOff, o);
    }
  }

  /** The keyword occurs at `j` in a line, up to case, between bytes that are no token bytes or
      at the ends of the line. */
  ghost predicate BoundedIn(line: Word, j: int, kw: Word) {
    && FoldOccursAt(line, j, kw)
    && (j == 0 || !IsTokenByte(line[j - 1])) && (j + |kw| == |line| || !IsTokenByte(line[j + |kw|]))
  }

  /** Line `k` holds a bounded occurrence of the keyword that one read delivered. */
  ghost predicate HoldsKeyword(content: Word, cuts: set<nat>, k: nat, kw: Word) {
    exists o: nat, j: nat :: KeywordAt(content, cuts, k, kw, o, j)
  }

  ghost predicate KeywordAt(content: Word, cuts: set<nat>, k: nat, kw: Word, o: nat, j: nat) {
    && LineAt(content, k, o) && BoundedIn(DropCR(content[o..FindNL(content, o)]), j, kw)
    && NoCutInside(cuts, o + j, o + j + |kw|)
  }

  /** `line` lies in the file at `o`, up to a line end. */
  ghost predicate LineInPlace(content: Word, o: nat, line: Word) {
    && PieceAt(content, o, line) && LineStart(content, o)
    && (o + |line| < |content| ==> content[o + |line|] == NL || content[o + |line|] == CR)
  }

  lemma {:induction false} RawLineInPlace(content: Word, o: nat)
    requires LineStart(content, o)
    ensures var line := DropCR(content[o..FindNL(content, o)]);
      LineInPlace(content, o, line) && o + |line| <= FindNL(content, o)
  {
    var i := FindNL(content, o);
    var raw := content[o..i];
    assert forall j | 0 <= j < |raw| :: content[o + j] == raw[j];
    if raw != [] && raw[|raw| - 1] == CR {
      assert content[o + (|raw| - 1)] == CR;
    }
  }

  lemma {:induction false} KeywordIsCovered(content: Word, cuts: set<nat>, kw: Word, o: nat, j: nat, line: Word)
    requires LineInPlace(content, o, line) && BoundedIn(line, j, kw) && NoCutInside(cuts, o + j, o + j + |kw|)
    ensures CoveredAt(content, cuts, o + j, kw)
  {
    forall x | 0 <= x < |kw| ensures FoldEqual(content[o + j + x], kw[x]) {
      assert FoldEqual(line[j + x], kw[x]) && content[o + (j + x)] == line[j + x];
    }
    assert j > 0 ==> line[j - 1] == content[o + (j - 1)];
    assert j + |kw| < |line| ==> line[j + |kw|] == content[o + (j + |kw|)];
  }

  lemma {:induction false} KeywordInPlace(content: Word, cuts: set<nat>, c: Chunk, k: nat, kw: Word, o: nat, j: nat)
    requires WholeLines(content, c) && KeywordAt(content, cuts, k, kw, o, j) && c.startOff <= o < c.endOff
    ensures CoveredAt(content, cuts, o + j, kw) && c.startOff <= o + j && o + j + |kw| <= c.endOff
  {
    RawLineInPlace(content, o);
    KeywordIsCovered(content, cuts, kw, o, j, DropCR(content[o..FindNL(content, o)]));
    assert c.endOff < |content| ==> content[c.endOff - 1] == NL;
  }

  lemma {:induction false} PlacedKeywordIsAdmitted(h: Hash, content: Word, cuts: set<nat>, c: BloomChunkMeta, i: nat,
          kw: Word, cleanKw: Word)
    requires ChunkOk(h, content, cuts, c)
    requires CoveredAt(content, cuts, i, kw) && c.startOffset <= i && i + |kw| <= c.endOffset
    requires IsAscii(kw) && IsCleaned(kw, cleanKw) && SkipSafe(cleanKw)
    ensures Admits(Bits(c.filter), h, cleanKw)
  {
    CoveredIsServed(content, cuts, c.startOffset, c.endOffset, i, kw, cleanKw);
    ServedIsAdmitted(Bits(c.filter), h, content, cuts, c.startOffset, c.endOffset, cleanKw);
  }

  /** Skipping is sound: a chunk with a line that holds the keyword is admitted by its filter. */
  lemma {:induction false} SkipKeepsKeyword(h: Hash, content: Word, cuts: set<nat>, c: BloomChunkMeta, k: nat,
                                            kw: Word, cleanKw: Word,
                                            o: nat, j: nat)
    requires ChunkOk(h, content, cuts, c)
    requires KeywordAt(content, cuts, k, kw, o, j) && c.startOffset <= o < c.endOffset
    requires IsAscii(kw) && IsCleaned(kw, cleanKw) && SkipSafe(cleanKw)
    ensures Admits(Bits(c.filter), h, cleanKw)
  {
    KeywordInPlace(content, cuts, AsChunk(c), k, kw, o, j);
    PlacedKeywordIsAdmitted(h, content, cuts, c, o + j, kw, cleanKw);
  }

  lemma {:induction false} IndexedChunk(h: Hash, segments: seq<Word>, idx: ChunkBloomIndex, i: nat)
    requires Indexes(h, segments, idx) && i < |idx.chunks|
    ensures ChunkOk(h, Flatten(segments), CutsOf(segments), idx.chunks[i])
    ensures Numbered(Flatten(segments), AsChunk(idx.chunks[i]))
  {
    ChunksAdjoin(h, Flatten(segments), CutsOf(segments), idx.chunks, idx.chunks[|idx.chunks| - 1].endOffset, i);
    ChunkIsNumbered(h, Flatten(segments), CutsOf(segments), idx.chunks[i]);
  }

  /** Where the last chunk ends. */
  function IndexEnd(idx: ChunkBloomIndex): int
    requires idx.chunks != []
  {
    idx.chunks[|idx.chunks| - 1].endOffset
  }

  /** The chunks of an index cover a file up to the end of the last one. */
  lemma {:induction false} IndexTilesUpTo(h: Hash, segments: seq<Word>, idx: ChunkBloomIndex)
    requires Indexes(h, segments, idx) && Flatten(segments) != []
    ensures TilesUpTo(Flatten(segments), AsChunks(idx.chunks), IndexEnd(idx))
    ensures ChunksWhole(Flatten(segments), idx.chunks)
  {
    var content, spans := Flatten(segments), AsChunks(idx.chunks);
    forall i | 0 <= i < |spans|
      ensures WholeLines(content, spans[i]) && spans[i].index == i && spans[i].startOff < spans[i].endOff
      ensures i == 0 ==> spans[i].startOff == 0
    {
      IndexedSpan(h, segments, idx, i);
    }
    forall i {:trigger spans[i].endOff} | 0 <= i < |spans| - 1 ensures spans[i].endOff == spans[i + 1].startOff {
      IndexedSpan(h, segments, idx, i + 1);
    }
    forall i | 0 <= i < |idx.chunks| ensures WholeLines(content, AsChunk(idx.chunks[i])) {
      assert spans[i] == AsChunk(idx.chunks[i]);
    }
    SpansTile(content, spans);
  }

  /** Chunks that adjoin from the start of the file cover what lies before their end. */
  lemma {:induction false} SpansTile(content: Word, spans: seq<Chunk>)
    requires spans != [] && spans[0].startOff == 0
    requires forall i | 0 <= i < |spans| ::
      WholeLines(content, spans[i]) && spans[i].index == i && spans[i].startOff < spans[i].endOff
    requires forall i {:trigger spans[i].endOff} | 0 <= i < |spans| - 1 :: spans[i].endOff == spans[i + 1].startOff
    ensures TilesUpTo(content, spans, spans[|spans| - 1].endOff)
  {}

  /** So they cover it all exactly when its tail was not dropped. */
  lemma {:induction false} IndexTiles(h: Hash, segments: seq<Word>, idx: ChunkBloomIndex)
    requires Indexes(h, segments, idx) && Flatten(segments) != []
    ensures Tiles(Flatten(segments), AsChunks(idx.chunks)) <==> !TailDropped(Flatten(segments))
    ensures ChunksWhole(Flatten(segments), idx.chunks)
  {
    IndexTilesUpTo(h, segments, idx);
    assert AsChunks(idx.chunks)[|idx.chunks| - 1].endOff == IndexEnd(idx);
  }

  lemma {:induction false} IndexedSpan(h: Hash, segments: seq<Word>, idx: ChunkBloomIndex, i: nat)
    requires Indexes(h, segments, idx) && Flatten(segments) != [] && i < |idx.chunks|
    ensures var c := AsChunks(idx.chunks)[i];
            && WholeLines(Flatten(segments), c) && c.index == i && c.startOff < c.endOff
            && (i == 0 ==> c.startOff == 0)
            && (i > 0 ==> c.startOff == AsChunks(idx.chunks)[i - 1].endOff)
  {
    ChunksAdjoin(h, Flatten(segments), CutsOf(segments), idx.chunks, idx.chunks[|idx.chunks| - 1].endOffset, i);
    IndexedChunk(h, segments, idx, i);
  }

  /** Every matching line holds the keyword where the index can see it. */
  ghost predicate AllVisible(q: Query, segments: seq<Word>) {
    var content := Flatten(segments);
    forall k: nat | k < |LinesOf(content)| && LineMatches(q, LinesOf(content)[k]) ::
      HoldsKeyword(content, CutsOf(segments), k, q.literalKw)
  }

  // ---- exactly when nothing is lost

  /** The chunk holds a matching line. */
  ghost predicate HasMatch(q: Query, content: Word, c: Chunk) {
    && WholeLines(content, c)
    && exists k: nat :: LineNo(content, c.startOff) <= k < LineNo(content, c.endOff) && MatchAt(q, content, k)
  }

  ghost predicate MatchAt(q: Query, content: Word, k: nat) {
    k < |LinesOf(content)| && LineMatches(q, LinesOf(content)[k])
  }

  lemma {:induction false} HasMatchIsHits(q: Query, content: Word, c: Chunk)
    requires WholeLines(content, c)
    ensures HasMatch(q, content, c) <==> ChunkHits(JudgedFile(q, content), content, c) != []
  {
    var f := JudgedFile(q, content);
    ChunkLinesInPlace(content, c);
    var lo, hi := LineNo(content, c.startOff), LineNo(content, c.endOff);
    MatchInRange(q, LinesOf(content), lo, hi);
    if k: nat :| lo <= k < hi && LineMatches(q, f.lines[k]) {
      assert MatchAt(q, content, k);
    }
  }

  lemma {:induction false} MatchInRange(q: Query, lines: seq<Word>, lo: nat, hi: nat)
    requires lo <= hi <= |lines|
    ensures MatchesIn(JudgeAll(q, lines), lo, hi) != [] <==> exists k: nat :: lo <= k < hi && LineMatches(q, lines[k])
  {
    var f := JudgeAll(q, lines);
    MatchesInRange(f, lo, hi);
    if MatchesIn(f, lo, hi) != [] {
      var k := MatchesIn(f, lo, hi)[0];
      assert f.verdicts[k] == Judge(q, lines[k]);
    }
    if k: nat :| lo <= k < hi && LineMatches(q, lines[k]) {
      assert f.verdicts[k] == Judge(q, lines[k]);
    }
  }

  /** What a search by the index may answer. */
  ghost predicate Answers(q: Query, segments: seq<Word>, idx: ChunkBloomIndex, h: Hash, cleanKw: Word,
                          hits: seq<Hit>, maxHits: nat) {
    var content, kept := Flatten(segments), Kept(idx.chunks, h, q, cleanKw);
    AllWhole(content, kept) && Capped(hits, Stitched(JudgedFile(q, content), content, kept), maxHits)
  }

  /** Whatever the hash, a search by an index with these chunks finds the first matching lines
      of the file, for every cap. */
  ghost predicate NeverLoses(q: Query, segments: seq<Word>, cleanKw: Word, spans: seq<Chunk>) {
    forall h: Hash, idx: ChunkBloomIndex, hits: seq<Hit>, maxHits: nat |
      && Indexes(h, segments, idx) && AsChunks(idx.chunks) == spans
      && Answers(q, segments, idx, h, cleanKw, hits, maxHits)
      :: FirstMatches(JudgedFile(q, Flatten(segments)), Flatten(segments), spans, hits, maxHits)
  }

  /** Every chunk with a matching line serves the keyword. */
  ghost predicate MatchesServed(q: Query, segments: seq<Word>, cleanKw: Word, spans: seq<Chunk>) {
    forall i | 0 <= i < |spans| && HasMatch(q, Flatten(segments), spans[i]) ::
      Served(Flatten(segments), CutsOf(segments), spans[i].startOff, spans[i].endOff, cleanKw)
  }

  lemma {:induction false} ServedIsNotSkipped(q: Query, segments: seq<Word>, idx: ChunkBloomIndex, h: Hash,
                                              cleanKw: Word, i: nat)
    requires Indexes(h, segments, idx) && i < |idx.chunks| && NoCapitals(cleanKw)
    requires MatchesServed(q, segments, cleanKw, AsChunks(idx.chunks)) && !Searched(idx.chunks[i], h, q, cleanKw)
    requires WholeLines(Flatten(segments), AsChunk(idx.chunks[i]))
    ensures ChunkHits(JudgedFile(q, Flatten(segments)), Flatten(segments), AsChunk(idx.chunks[i])) == []
  {
    var content, cuts, c := Flatten(segments), CutsOf(segments), idx.chunks[i];
    HasMatchIsHits(q, content, AsChunk(c));
    IndexedChunk(h, segments, idx, i);
    if HasMatch(q, content, AsChunk(c)) {
      assert AsChunks(idx.chunks)[i] == AsChunk(c);
      ServedIsAdmitted(Bits(c.filter), h, content, cuts, c.startOffset, c.endOffset, cleanKw);
    }
  }

  /** The last line of the file matches and is in no chunk. */
  ghost predicate TailMatches(q: Query, content: Word) {
    TailDropped(content) && LinesOf(content) != [] && MatchAt(q, content, |LinesOf(content)| - 1)
  }

  /** How many lines of the file are in chunks: all, or all but a dropped tail. */
  lemma {:induction false} LinesIndexed(h: Hash, segments: seq<Word>, idx: ChunkBloomIndex)
    requires Indexes(h, segments, idx)
    ensures var content := Flatten(segments);
            && 0 <= IndexEnd(idx) <= |content|
            && LineNo(content, IndexEnd(idx)) + (if TailDropped(content) then 1 else 0) == |LinesOf(content)|
  {
    if TailDropped(Flatten(segments)) {
      DroppedTailIsALine(h, segments, idx);
      IndexEnds(h, segments, idx, [], PlainQuery([]));
    } else {
      TakeAll(Flatten(segments));
    }
  }

  /** The matches among the lines in chunks are all matches of the file, but for a dropped tail
      that matches. */
  lemma {:induction false} MatchesIndexed(q: Query, segments: seq<Word>, h: Hash, idx: ChunkBloomIndex)
    requires Indexes(h, segments, idx)
    ensures var content, f := Flatten(segments), JudgedFile(q, Flatten(segments));
            && 0 <= IndexEnd(idx) <= |content| && LineNo(content, IndexEnd(idx)) <= |f.lines|
            && MatchesIn(f, 0, |f.lines|)
            == MatchesIn(f, 0, LineNo(content, IndexEnd(idx))) + if TailMatches(q, content) then [|f.lines| - 1] else []
  {
    LinesIndexed(h, segments, idx);
    LastMatch(q, LinesOf(Flatten(segments)));
  }

  lemma {:induction false} LastMatch(q: Query, lines: seq<Word>)
    ensures lines != [] ==>
      MatchesIn(JudgeAll(q, lines), 0, |lines|)
      == MatchesIn(JudgeAll(q, lines), 0, |lines| - 1)
         + if LineMatches(q, lines[|lines| - 1]) then [|lines| - 1] else []
  {
    if lines != [] {
      assert JudgeAll(q, lines).verdicts[|lines| - 1] == Judge(q, lines[|lines| - 1]);
    }
  }

  lemma {:induction false} SkippedHoldNothing(q: Query, segments: seq<Word>, idx: ChunkBloomIndex, h: Hash,
                                              cleanKw: Word)
    requires Indexes(h, segments, idx) && ChunksWhole(Flatten(segments), idx.chunks)
    requires q.literalKw == [] || (NoCapitals(cleanKw) && MatchesServed(q, segments, cleanKw, AsChunks(idx.chunks)))
    ensures NothingSkipped(JudgedFile(q, Flatten(segments)), Flatten(segments), idx.chunks, h, q, cleanKw)
  {
    forall i | 0 <= i < |idx.chunks| && !Searched(idx.chunks[i], h, q, cleanKw)
      ensures ChunkHits(JudgedFile(q, Flatten(segments)), Flatten(segments), AsChunk(idx.chunks[i])) == []
    {
      ServedIsNotSkipped(q, segments, idx, h, cleanKw, i);
    }
  }

  /** When every matching chunk serves the keyword, the search finds what a search of all
      lines in chunks finds. */
  lemma {:induction false} ServedFindsAll(q: Query, segments: seq<Word>, idx: ChunkBloomIndex, h: Hash, cleanKw: Word,
                                          hits: seq<Hit>, maxHits: nat)
    requires Indexes(h, segments, idx) && Flatten(segments) != []
    requires q.literalKw == [] || (NoCapitals(cleanKw) && MatchesServed(q, segments, cleanKw, AsChunks(idx.chunks)))
    requires Answers(q, segments, idx, h, cleanKw, hits, maxHits) && !TailMatches(q, Flatten(segments))
    ensures FirstMatches(JudgedFile(q, Flatten(segments)), Flatten(segments), AsChunks(idx.chunks), hits, maxHits)
  {
    var content, f := Flatten(segments), JudgedFile(q, Flatten(segments));
    IndexTilesUpTo(h, segments, idx);
    SkippedHoldNothing(q, segments, idx, h, cleanKw);
    KeptYieldsAll(f, content, idx.chunks, h, q, cleanKw);
    TiledPart(f, content, AsChunks(idx.chunks), IndexEnd(idx), hits, maxHits);
    MatchesIndexed(q, segments, h, idx);
  }

  // ---- the same chunks under another hash

  lemma SomeBit(bits: set<nat>)
    ensures bits == {} || exists p :: p in bits
  {}

  lemma EmptyFilterHasNoBits(filter: seq<bv8>)
    requires forall j | 0 <= j < |filter| :: filter[j] == 0
    ensures Bits(filter) == {}
  {
    forall p: nat | p < 8 * |filter| ensures !BitAt(filter, p) {
      assert filter[p / 8] == 0;
    }
  }

  /** A filter with the given bits. */
  ghost function FilterWith(bits: set<nat>): (filter: seq<bv8>)
    requires forall p | p in bits :: p < FILTER_BITS
    ensures |filter| == FILTER_BYTES && Bits(filter) == bits
    decreases |bits|
  {
    if bits == {} then
      var zero := seq(FILTER_BYTES, _ => 0 as bv8);
      EmptyFilterHasNoBits(zero);
      zero
    else
      SomeBit(bits);
      var p :| p in bits;
      SetOneBit(FilterWith(bits - {p}), p);
      WithBit(FilterWith(bits - {p}), p)
  }

  ghost function Refilter(h: Hash, content: Word, cuts: set<nat>, c: BloomChunkMeta): BloomChunkMeta {
    c.(filter := FilterWith(FilterBits(h, content, cuts, c.startOffset, c.endOffset)))
  }

  /** The chunks with the filters that the hash `h` gives them. */
  ghost function Refiltered(h: Hash, content: Word, cuts: set<nat>, chunks: seq<BloomChunkMeta>): seq<BloomChunkMeta> {
    if chunks == [] then []
    else Refiltered(h, content, cuts, chunks[..|chunks| - 1]) + [Refilter(h, content, cuts, chunks[|chunks| - 1])]
  }

  lemma {:induction false} RefilteredAt(h: Hash, content: Word, cuts: set<nat>, chunks: seq<BloomChunkMeta>, i: nat)
    requires i < |chunks|
    ensures |Refiltered(h, content, cuts, chunks)| == |chunks|
    ensures Refiltered(h, content, cuts, chunks)[i] == Refilter(h, content, cuts, chunks[i])
    decreases |chunks|
  {
    if |chunks| > 1 {
      RefilteredAt(h, content, cuts, chunks[..|chunks| - 1], if i < |chunks| - 1 then i else 0);
    }
  }

  lemma {:induction false} RefilteredChunksTo(h0: Hash, h: Hash, content: Word, cuts: set<nat>,
                                              chunks: seq<BloomChunkMeta>, to: int)
    requires ChunksTo(h0, content, cuts, chunks, to)
    ensures ChunksTo(h, content, cuts, Refiltered(h, content, cuts, chunks), to)
    ensures |Refiltered(h, content, cuts, chunks)| == |chunks|
    decreases |chunks|
  {
    if chunks != [] {
      var init, last := chunks[..|chunks| - 1], chunks[|chunks| - 1];
      RefilteredChunksTo(h0, h, content, cuts, init, last.startOffset);
      FilterBitsAre(h, content, cuts, last.startOffset, last.endOffset);
      assert Refiltered(h, content, cuts, chunks)[..|chunks| - 1] == Refiltered(h, content, cuts, init);
    }
  }

  ghost function Reindexed(h: Hash, segments: seq<Word>, idx: ChunkBloomIndex): ChunkBloomIndex {
    idx.(chunks := Refiltered(h, Flatten(segments), CutsOf(segments), idx.chunks))
  }

  lemma {:induction false} SameLineCounts(a: seq<BloomChunkMeta>, b: seq<BloomChunkMeta>)
    requires FullButLast(a) && |a| == |b| && forall i | 0 <= i < |a| :: b[i].lineCount == a[i].lineCount
    ensures FullButLast(b)
  {
    forall i | 0 <= i < |b| - 1 ensures b[i].lineCount == BLOOM_CHUNK_LINES {
      assert a[..|a| - 1][i] == a[i];
    }
  }

  /** The same build with another hash gives the same chunks. */
  lemma {:induction false} ReindexedIndexes(h0: Hash, h: Hash, segments: seq<Word>, idx: ChunkBloomIndex)
    requires Indexes(h0, segments, idx)
    ensures Indexes(h, segments, Reindexed(h, segments, idx))
    ensures AsChunks(Reindexed(h, segments, idx).chunks) == AsChunks(idx.chunks)
  {
    var content, cuts, n := Flatten(segments), CutsOf(segments), |idx.chunks|;
    RefilteredChunksTo(h0, h, content, cuts, idx.chunks, idx.chunks[n - 1].endOffset);
    forall i | 0 <= i < n
      ensures AsChunk(Refiltered(h, content, cuts, idx.chunks)[i]) == AsChunk(idx.chunks[i])
      ensures Refiltered(h, content, cuts, idx.chunks)[i].endOffset == idx.chunks[i].endOffset
      ensures Refiltered(h, content, cuts, idx.chunks)[i].lineCount == idx.chunks[i].lineCount
    {
      RefilteredAt(h, content, cuts, idx.chunks, i);
    }
    SameLineCounts(idx.chunks, Refiltered(h, content, cuts, idx.chunks));
  }

  /** Under the hash that tells the word from all others, a chunk in which the word was not
      read is skipped, if the word is one that the keyword asks for. */
  lemma {:induction false} UnreadIsSkipped(q: Query, segments: seq<Word>, idx: ChunkBloomIndex, cleanKw: Word, w: Word,
                                           i: nat)
    requires Indexes(Only(w), segments, idx) && i < |idx.chunks| && q.literalKw != []
    requires w != [] && !LongPureDigits(w)
    requires !WordRead(Flatten(segments), CutsOf(segments), idx.chunks[i].startOffset, idx.chunks[i].endOffset, w)
    requires forall h: Hash, bits: set<nat> | Admits(bits, h, cleanKw) :: WordBits(h, w) <= bits
    ensures !Searched(idx.chunks[i], Only(w), q, cleanKw)
  {
    var c := idx.chunks[i];
    IndexedChunk(Only(w), segments, idx, i);
    UnreadWordHasNoBit(Bits(c.filter), Flatten(segments), CutsOf(segments), c.startOffset, c.endOffset, w);
    OnlyBits(w, w, 1);
  }

  /** A matching chunk that does not serve the keyword is skipped under some hash, and the
      search then returns too few hits. */
  lemma {:induction false} UnservedLoses(q: Query, segments: seq<Word>, h0: Hash, idx0: ChunkBloomIndex, cleanKw: Word,
                                         i: nat)
    requires Indexes(h0, segments, idx0) && Flatten(segments) != []
    requires NoCapitals(cleanKw) && q.literalKw != [] && i < |idx0.chunks|
    requires HasMatch(q, Flatten(segments), AsChunk(idx0.chunks[i]))
    requires !Served(Flatten(segments), CutsOf(segments), idx0.chunks[i].startOffset, idx0.chunks[i].endOffset, cleanKw)
    ensures !NeverLoses(q, segments, cleanKw, AsChunks(idx0.chunks))
  {
    var content, cuts, c := Flatten(segments), CutsOf(segments), idx0.chunks[i];
    var w := MissingWord(content, cuts, c.startOffset, c.endOffset, cleanKw);
    var idx := Reindexed(Only(w), segments, idx0);
    ReindexedIndexes(h0, Only(w), segments, idx0);
    RefilteredAt(Only(w), content, cuts, idx0.chunks, i);
    UnreadIsSkipped(q, segments, idx, cleanKw, w, i);
    SkippedMatchLoses(q, segments, idx, Only(w), cleanKw, i);
  }

  lemma {:induction false} SkippedMatchLoses(q: Query, segments: seq<Word>, idx: ChunkBloomIndex, h: Hash,
                                             cleanKw: Word, i: nat)
    requires Indexes(h, segments, idx) && Flatten(segments) != [] && i < |idx.chunks|
    requires HasMatch(q, Flatten(segments), AsChunk(idx.chunks[i])) && !Searched(idx.chunks[i], h, q, cleanKw)
    ensures !NeverLoses(q, segments, cleanKw, AsChunks(idx.chunks))
  {
    var content, f := Flatten(segments), JudgedFile(q, Flatten(segments));
    IndexTilesUpTo(h, segments, idx);
    HasMatchIsHits(q, content, AsChunk(idx.chunks[i]));
    KeptYieldsAll(f, content, idx.chunks, h, q, cleanKw);
    FewerLoses(q, segments, idx, h, cleanKw);
  }

  /** A dropped tail that matches is one hit too few, whatever the hash. */
  lemma {:induction false} TailLoses(q: Query, segments: seq<Word>, idx: ChunkBloomIndex, h: Hash, cleanKw: Word)
    requires Indexes(h, segments, idx) && Flatten(segments) != [] && TailMatches(q, Flatten(segments))
    ensures !NeverLoses(q, segments, cleanKw, AsChunks(idx.chunks))
  {
    IndexTilesUpTo(h, segments, idx);
    KeptYieldsAll(JudgedFile(q, Flatten(segments)), Flatten(segments), idx.chunks, h, q, cleanKw);
    FewerLoses(q, segments, idx, h, cleanKw);
  }

  /** With fewer hits than the chunks hold, or a matching tail in none, the search is not
      complete. */
  lemma {:induction false} FewerLoses(q: Query, segments: seq<Word>, idx: ChunkBloomIndex, h: Hash, cleanKw: Word)
    requires Indexes(h, segments, idx) && Flatten(segments) != [] && ChunksWhole(Flatten(segments), idx.chunks)
    requires TilesUpTo(Flatten(segments), AsChunks(idx.chunks), IndexEnd(idx))
    requires AllWhole(Flatten(segments), AsChunks(idx.chunks))
    requires AllWhole(Flatten(segments), Kept(idx.chunks, h, q, cleanKw))
    requires var f := JudgedFile(q, Flatten(segments));
             var kept := |Stitched(f, Flatten(segments), Kept(idx.chunks, h, q, cleanKw))|;
             var all := |Stitched(f, Flatten(segments), AsChunks(idx.chunks))|;
             kept < all || (kept == all && TailMatches(q, Flatten(segments)))
    ensures !NeverLoses(q, segments, cleanKw, AsChunks(idx.chunks))
  {
    var content, f := Flatten(segments), JudgedFile(q, Flatten(segments));
    var all, hits := Stitched(f, content, AsChunks(idx.chunks)), Stitched(f, content, Kept(idx.chunks, h, q, cleanKw));
    TiledPart(f, content, AsChunks(idx.chunks), IndexEnd(idx), all, |all|);
    MatchesIndexed(q, segments, h, idx);
    var enough := |MatchesIn(f, 0, |f.lines|)|;
    assert Answers(q, segments, idx, h, cleanKw, hits, enough);
    assert !FirstMatches(f, content, AsChunks(idx.chunks), hits, enough);
  }

  /** A search by index loses nothing, whatever the hash and the cap, exactly when every chunk
      with a matching line serves the keyword, if there is one, and no matching tail was
      dropped. */
  lemma {:induction false} IndexedSearchIsExact(q: Query, segments: seq<Word>, h0: Hash, idx0: ChunkBloomIndex,
                                                cleanKw: Word)
    requires Indexes(h0, segments, idx0) && Flatten(segments) != [] && NoCapitals(cleanKw)
    ensures NeverLoses(q, segments, cleanKw, AsChunks(idx0.chunks))
       <==> && (q.literalKw == [] || MatchesServed(q, segments, cleanKw, AsChunks(idx0.chunks)))
            && !TailMatches(q, Flatten(segments))
  {
    var spans := AsChunks(idx0.chunks);
    if TailMatches(q, Flatten(segments)) {
      TailLoses(q, segments, idx0, h0, cleanKw);
    } else if q.literalKw == [] || MatchesServed(q, segments, cleanKw, spans) {
      forall h: Hash, idx: ChunkBloomIndex, hits: seq<Hit>, maxHits: nat |
        && Indexes(h, segments, idx) && AsChunks(idx.chunks) == spans
        && Answers(q, segments, idx, h, cleanKw, hits, maxHits)
        ensures FirstMatches(JudgedFile(q, Flatten(segments)), Flatten(segments), spans, hits, maxHits)
      {
        ServedFindsAll(q, segments, idx, h, cleanKw, hits, maxHits);
      }
    } else {
      var i :| 0 <= i < |spans| && HasMatch(q, Flatten(segments), spans[i])
        && !Served(Flatten(segments), CutsOf(segments), spans[i].startOff, spans[i].endOff, cleanKw);
      assert spans[i] == AsChunk(idx0.chunks[i]);
      UnservedLoses(q, segments, h0, idx0, cleanKw, i);
    }
  }

  lemma {:induction false} PlacedIsServed(content: Word, cuts: set<nat>, c: Chunk, k: nat, kw: Word, cleanKw: Word,
                                          o: nat, j: nat)
    requires WholeLines(content, c) && c.startOff <= o < c.endOff
    requires KeywordAt(content, cuts, k, kw, o, j) && IsAscii(kw) && IsCleaned(kw, cleanKw) && SkipSafe(cleanKw)
    ensures Served(content, cuts, c.startOff, c.endOff, cleanKw)
  {
    KeywordInPlace(content, cuts, c, k, kw, o, j);
    CoveredIsServed(content, cuts, c.startOff, c.endOff, o + j, kw, cleanKw);
  }

  /** Matches that the index can see are served. */
  lemma {:induction false} VisibleIsServed(q: Query, segments: seq<Word>, cleanKw: Word, spans: seq<Chunk>)
    requires AllVisible(q, segments) && IsAscii(q.literalKw) && IsCleaned(q.literalKw, cleanKw) && SkipSafe(cleanKw)
    ensures MatchesServed(q, segments, cleanKw, spans)
  {
    var content, cuts := Flatten(segments), CutsOf(segments);
    forall i | 0 <= i < |spans| && HasMatch(q, content, spans[i])
      ensures Served(content, cuts, spans[i].startOff, spans[i].endOff, cleanKw)
    {
      var k: nat :| LineNo(content, spans[i].startOff) <= k < LineNo(content, spans[i].endOff)
        && MatchAt(q, content, k);
      var o: nat, j: nat :| KeywordAt(content, cuts, k, q.literalKw, o, j);
      LineInChunk(content, spans[i], k, o);
      PlacedIsServed(content, cuts, spans[i], k, q.literalKw, cleanKw, o, j);
    }
  }

  /** A search by index finds what a search of the whole file finds, when no matching tail was
      dropped and the matches are where the index can see them. */
  lemma {:induction false} IndexedSearchIsComplete(q: Query, segments: seq<Word>, idx: ChunkBloomIndex, h: Hash,
                                                   cleanKw: Word, hits: seq<Hit>, maxHits: nat)
    requires Indexes(h, segments, idx) && Flatten(segments) != [] && !TailMatches(q, Flatten(segments))
    requires q.literalKw == []
      || (AllVisible(q, segments) && IsAscii(q.literalKw) && IsCleaned(q.literalKw, cleanKw) && SkipSafe(cleanKw))
    requires Answers(q, segments, idx, h, cleanKw, hits, maxHits)
    ensures FirstMatches(JudgedFile(q, Flatten(segments)), Flatten(segments), AsChunks(idx.chunks), hits, maxHits)
  {
    if q.literalKw != [] {
      VisibleIsServed(q, segments, cleanKw, AsChunks(idx.chunks));
    }
    ServedFindsAll(q, segments, idx, h, cleanKw, hits, maxHits);
  }

  // ---- everything can be lost

  /** A keyword that the whole file does not serve is answered with no hit at all under some
      hash, however many lines match. */
  lemma {:induction false} AllCanBeSkipped(q: Query, segments: seq<Word>, h0: Hash, idx0: ChunkBloomIndex,
                                           cleanKw: Word)
    requires Indexes(h0, segments, idx0) && NoCapitals(cleanKw) && q.literalKw != []
    requires !Served(Flatten(segments), CutsOf(segments), 0, |Flatten(segments)|, cleanKw)
    ensures exists h: Hash :: Kept(Reindexed(h, segments, idx0).chunks, h, q, cleanKw) == []
                           && Indexes(h, segments, Reindexed(h, segments, idx0))
  {
    var content, cuts := Flatten(segments), CutsOf(segments);
    var w := MissingWord(content, cuts, 0, |content|, cleanKw);
    var idx := Reindexed(Only(w), segments, idx0);
    ReindexedIndexes(h0, Only(w), segments, idx0);
    forall i | 0 <= i < |idx.chunks| ensures !Searched(idx.chunks[i], Only(w), q, cleanKw) {
      IndexedChunk(Only(w), segments, idx, i);
      UnreadIsSkipped(q, segments, idx, cleanKw, w, i);
    }
    NoneSearchedNoneKept(idx.chunks, Only(w), q, cleanKw);
  }

  lemma {:induction false} NoneSearchedNoneKept(chunks: seq<BloomChunkMeta>, h: Hash, q: Query, cleanKw: Word)
    requires forall i | 0 <= i < |chunks| :: !Searched(chunks[i], h, q, cleanKw)
    ensures Kept(chunks, h, q, cleanKw) == []
    decreases |chunks|
  {
    if chunks != [] {
      NoneSearchedNoneKept(chunks[..|chunks| - 1], h, q, cleanKw);
    }
  }

  /** The search for a plain keyword, upper and lower case counting as equal. */
  function PlainQuery(kw: Word): Query {
    Query(kw, None, false, false, false, "", 0)
  }

  lemma {:induction false} EveryLineMatches(line: Word, kw: Word, n: nat)
    requires line != [] && AllTokenBytes(line) && FoldContains(line, kw) && kw != []
    ensures |LinesOf(Copies(line + [NL], n))| == n
    ensures forall k: nat | k < n :: MatchAt(PlainQuery(kw), Copies(line + [NL], n), k)
  {
    LinesOfCopies(line, n);
    assert IsTokenByte(line[|line| - 1]) && DropCR(line) == line;
  }

  lemma {:induction false} MissedCanVanish(q: Query, segments: seq<Word>, h0: Hash, idx0: ChunkBloomIndex,
                                           cleanKw: Word)
    requires Indexes(h0, segments, idx0) && NoCapitals(cleanKw) && q.literalKw != []
    requires Missed(Flatten(segments), CutsOf(segments), cleanKw)
    ensures exists h: Hash :: Kept(Reindexed(h, segments, idx0).chunks, h, q, cleanKw) == []
                           && Indexes(h, segments, Reindexed(h, segments, idx0))
  {
    ServedExactly(Flatten(segments), CutsOf(segments), 0, |Flatten(segments)|, cleanKw);
    AllCanBeSkipped(q, segments, h0, idx0, cleanKw);
  }

  /** A keyword inside a longer token: in a file of `n` such lines, read in pieces that end at
      line ends, every line matches, and under some hash the search returns nothing. */
  lemma {:induction false} EveryHitCanVanish(line: Word, kw: Word, n: nat, segments: seq<Word>, h0: Hash,
                                             idx0: ChunkBloomIndex)
    requires AllTokenBytes(line) && NoCapitals(kw) && IsAscii(kw) && AllTokenBytes(kw)
    requires 2 <= |kw| <= 64 && !LongPureDigits(kw) && |kw| < |line| && FoldContains(line, kw)
    requires Flatten(segments) == Copies(line + [NL], n) && Indexes(h0, segments, idx0)
    requires forall c | c in CutsOf(segments) && c < |Flatten(segments)| :: LineStart(Flatten(segments), c)
    ensures |LinesOf(Flatten(segments))| == n
    ensures forall k: nat | k < n :: MatchAt(PlainQuery(kw), Flatten(segments), k)
    ensures exists h: Hash :: Kept(Reindexed(h, segments, idx0).chunks, h, PlainQuery(kw), kw) == []
                           && Indexes(h, segments, Reindexed(h, segments, idx0))
  {
    EveryLineMatches(line, kw, n);
    InsideLongerToken(line, kw, n, CutsOf(segments));
    MissedCanVanish(PlainQuery(kw), segments, h0, idx0, kw);
  }

  /** Every hit of chunks that end by `to` is on a line before `to`. */
  lemma {:induction false} HitsBefore(f: Judged, content: Word, chunks: seq<Chunk>, to: nat, j: nat)
    requires f.Ok() && f.lines == LinesOf(content) && AllWhole(content, chunks)
    requires to <= |content| && (to == |content| || LineStart(content, to))
    requires forall s | 0 <= s < |chunks| :: chunks[s].endOff <= to
    requires j < |Stitched(f, content, chunks)|
    ensures Stitched(f, content, chunks)[j].lineNumber <= LineNo(content, to)
    decreases |chunks|
  {
    var n := |chunks| - 1;
    var before := |Stitched(f, content, chunks[..n])|;
    if j < before {
      HitsBefore(f, content, chunks[..n], to, j);
    } else {
      ShareBefore(f, content, chunks[n], to, j - before);
    }
  }

  lemma {:induction false} ShareBefore(f: Judged, content: Word, c: Chunk, to: nat, j: nat)
    requires f.Ok() && f.lines == LinesOf(content) && WholeLines(content, c)
    requires c.endOff <= to <= |content| && j < |ChunkHits(f, content, c)|
    ensures ChunkHits(f, content, c)[j].lineNumber <= LineNo(content, to)
  {
    ShareEntry(f, content, c, j);
    if c.endOff < to {
      LineNoGrows(content, c.endOff, to);
    }
  }

  /** When the tail was dropped, its line is not searched: there is one line more than the hits
      can number. */
  lemma {:induction false} DroppedTailIsNotSearched(q: Query, segments: seq<Word>, idx: ChunkBloomIndex, h: Hash,
          cleanKw: Word, j: nat)
    requires Indexes(h, segments, idx) && TailDropped(Flatten(segments))
    requires AllWhole(Flatten(segments), Kept(idx.chunks, h, q, cleanKw))
    requires j < |Stitched(JudgedFile(q, Flatten(segments)), Flatten(segments), Kept(idx.chunks, h, q, cleanKw))|
    ensures |LinesOf(Flatten(segments))| == idx.totalLines + 1
    ensures Stitched(JudgedFile(q, Flatten(segments)), Flatten(segments), Kept(idx.chunks, h, q, cleanKw))[j].lineNumber
         <= idx.totalLines
  {
    DroppedTailIsALine(h, segments, idx);
    IndexEnds(h, segments, idx, cleanKw, q);
    var to := idx.chunks[|idx.chunks| - 1].endOffset;
    HitsBefore(JudgedFile(q, Flatten(segments)), Flatten(segments), Kept(idx.chunks, h, q, cleanKw), to, j);
  }

  lemma {:induction false} DroppedTailIsALine(h: Hash, segments: seq<Word>, idx: ChunkBloomIndex)
    requires Indexes(h, segments, idx) && TailDropped(Flatten(segments))
    ensures |LinesOf(Flatten(segments))| == idx.totalLines + 1
  {
    LineCount(Flatten(segments));
  }

  lemma {:induction false} IndexEnds(h: Hash, segments: seq<Word>, idx: ChunkBloomIndex, cleanKw: Word, q: Query)
    requires Indexes(h, segments, idx) && TailDropped(Flatten(segments))
    ensures var to := idx.chunks[|idx.chunks| - 1].endOffset;
      && LineStart(Flatten(segments), to) && LineNo(Flatten(segments), to) == idx.totalLines
      && forall s | 0 <= s < |Kept(idx.chunks, h, q, cleanKw)| :: Kept(idx.chunks, h, q, cleanKw)[s].endOff <= to
  {
    var to := idx.chunks[|idx.chunks| - 1].endOffset;
    IndexedChunk(h, segments, idx, |idx.chunks| - 1);
    LinesBefore(Flatten(segments), to);
    NLToCounts(Flatten(segments), to);
    forall i | 0 <= i < |idx.chunks| ensures idx.chunks[i].endOffset <= to {
      ChunksEndBy(h, segments, idx, i);
    }
    KeptEndBy(idx.chunks, h, q, cleanKw, to);
  }

  lemma {:induction false} ChunksEndBy(h: Hash, segments: seq<Word>, idx: ChunkBloomIndex, i: nat)
    requires Indexes(h, segments, idx) && i < |idx.chunks|
    ensures idx.chunks[i].endOffset <= idx.chunks[|idx.chunks| - 1].endOffset
    decreases |idx.chunks| - i
  {
    if i < |idx.chunks| - 1 {
      ChunksAdjoin(h, Flatten(segments), CutsOf(segments), idx.chunks, idx.chunks[|idx.chunks| - 1].endOffset, i + 1);
      ChunksEndBy(h, segments, idx, i + 1);
    }
  }

  lemma {:induction false} KeptEndBy(chunks: seq<BloomChunkMeta>, h: Hash, q: Query, cleanKw: Word, to: int)
    requires forall i | 0 <= i < |chunks| :: chunks[i].endOffset <= to
    ensures forall s | 0 <= s < |Kept(chunks, h, q, cleanKw)| :: Kept(chunks, h, q, cleanKw)[s].endOff <= to
    decreases |chunks|
  {
    if chunks != [] {
      KeptEndBy(chunks[..|chunks| - 1], h, q, cleanKw, to);
    }
  }
}
