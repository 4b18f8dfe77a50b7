/** The search of one large file, by its chunk index when there is one and by equal shares
    otherwise, and what it finds compared with a scan from top to bottom. */
module LargeFileSearch {
  import opened Bytes
  import opened Lines
  import opened Wrappers
  import opened Matchers
  import opened SearchTheory
  import opened FileChunks
  import opened ParallelSearch
  import opened Bloom
  import opened BloomIndex
  import opened SkipScan

  const DEFAULT_CHUNK_SIZE: nat := 33554432
  const READ_BUFFER: nat := 65536

  function AsChunk(c: BloomChunkMeta): Chunk {
    Chunk(c.chunkIndex, c.startOffset, c.endOffset, c.startLine)
  }

  function AsChunks(chunks: seq<BloomChunkMeta>): (r: seq<Chunk>)
    ensures |r| == |chunks|
  {
    seq(|chunks|, i requires 0 <= i < |chunks| => AsChunk(chunks[i]))
  }

  ghost predicate Searched(c: BloomChunkMeta, h: Hash, q: Query, cleanKw: Word) {
    q.literalKw == [] || Admits(Bits(c.filter), h, cleanKw)
  }

  /** The chunks that are not skipped, in order. */
  ghost function Kept(chunks: seq<BloomChunkMeta>, h: Hash, q: Query, cleanKw: Word): seq<Chunk> {
    if chunks == [] then []
    else
      var last := chunks[|chunks| - 1];
      Kept(chunks[..|chunks| - 1], h, q, cleanKw) + if Searched(last, h, q, cleanKw) then [AsChunk(last)] else []
  }

  lemma {:induction false} KeptStep(chunks: seq<BloomChunkMeta>, h: Hash, q: Query, cleanKw: Word, i: nat)
    requires i < |chunks|
    ensures Kept(chunks[..i + 1], h, q, cleanKw)
         == Kept(chunks[..i], h, q, cleanKw) + if Searched(chunks[i], h, q, cleanKw) then [AsChunk(chunks[i])] else []
  {
    assert chunks[..i + 1][..i] == chunks[..i];
  }

  /** What a chunk record must be for its hits to be numbered by it. */
  ghost predicate Numbered(content: Word, c: Chunk) {
    WholeLines(content, c) && c.startLine == LineNo(content, c.startOff) + 1
  }

  lemma {:induction false} ChunkIsNumbered(h: Hash, content: Word, cuts: set<nat>, c: BloomChunkMeta)
    requires ChunkOk(h, content, cuts, c)
    ensures Numbered(content, AsChunk(c))
  {
    LinesBefore(content, c.startOffset);
    NLToCounts(content, c.startOffset);
  }

  /** Keeps the chunks that may hold the keyword. */
  method SelectChunks(idx: ChunkBloomIndex, h: Hash, q: Query, lib: Word -> Word, ghost segments: seq<Word>)
    returns (chunks: seq<Chunk>)
    requires Indexes(h, segments, idx) && NoCapitals(lib(q.literalKw))
    ensures chunks == Kept(idx.chunks, h, q, Cleaned(lib, q.literalKw))
    ensures forall s | 0 <= s < |chunks| :: Numbered(Flatten(segments), chunks[s])
  {
    chunks := [];
    ghost var cleanKw := Cleaned(lib, q.literalKw);
    for i := 0 to |idx.chunks|
      invariant chunks == Kept(idx.chunks[..i], h, q, cleanKw)
      invariant forall s | 0 <= s < |chunks| :: Numbered(Flatten(segments), chunks[s])
    {
      var bc := idx.chunks[i];
      ChunksAdjoin(h, Flatten(segments), CutsOf(segments), idx.chunks, idx.chunks[|idx.chunks| - 1].endOffset, i);
      ChunkIsNumbered(h, Flatten(segments), CutsOf(segments), bc);
      KeptStep(idx.chunks, h, q, cleanKw, i);
      if |q.literalKw| > 0 {
        var possible := MayContainSearchKeyword(bc.filter, h, lib, q.literalKw);
        if !possible {
          continue;
        }
      }
      chunks := chunks + [AsChunk(bc)];
    }
    TakeAll(idx.chunks);
  }

  /** The order in which the workers finish `n` chunks: each at some time. */
  ghost predicate FinishesAll(schedule: nat -> seq<nat>) {
    forall n: nat :: Finishes(schedule(n), n)
  }

  ghost predicate Finishes(order: seq<nat>, n: nat) {
    (forall t | 0 <= t < |order| :: order[t] < n) && (forall s | 0 <= s < n :: s in order)
  }

  /** Scans the chunks and collects the hits. */
  method SearchChunks(q: Query, content: Word, chunks: seq<Chunk>, hasStartLines: bool, schedule: nat -> seq<nat>,
                      maxHits: nat)
    returns (hits: seq<Hit>)
    requires maxHits >= 1 && FinishesAll(schedule) && Based(content, chunks, hasStartLines)
    ensures Capped(hits, Stitched(JudgedFile(q, content), content, chunks), maxHits)
  {
    if |chunks| == 0 {
      return [];
    }
    ghost var f := JudgedFile(q, content);
    assert Finishes(schedule(|chunks|), |chunks|);
    var results := RunWorkers(q, content, chunks, schedule(|chunks|));
    forall s | 0 <= s < |chunks| ensures SlotOk(f, content, chunks[s], results[s]) {
      ResultIsShare(q, content, chunks[s], results[s]);
    }
    hits := Collect(f, content, chunks, hasStartLines, results, maxHits);
  }

  // ---- what a search that covers the file finds

  /** The first `maxHits` matches among the first `n` lines of the file, or all when there are
      fewer, in order, each with its true number, content and level and the context that the
      chunk holding the line has around it. */
  ghost predicate MatchesBefore(f: Judged, content: Word, chunks: seq<Chunk>, n: nat, hits: seq<Hit>, maxHits: nat)
    requires f.Ok() && f.lines == LinesOf(content) && n <= |f.lines|
  {
    var indices := MatchesIn(f, 0, n);
    && |hits| == Min(maxHits, |indices|)
    && forall j | 0 <= j < |hits| :: ClippedIn(f, content, chunks, indices[j], hits[j])
  }

  /** The first `maxHits` matching lines of the whole file. */
  ghost predicate FirstMatches(f: Judged, content: Word, chunks: seq<Chunk>, hits: seq<Hit>, maxHits: nat)
    requires f.Ok() && f.lines == LinesOf(content)
  {
    MatchesBefore(f, content, chunks, |f.lines|, hits, maxHits)
  }

  /** Chunks that cover the file up to `to` give the first matches among the lines before it. */
  lemma {:induction false} TiledPart(f: Judged, content: Word, chunks: seq<Chunk>, to: int, hits: seq<Hit>,
                                     maxHits: nat)
    requires f.Ok() && f.lines == LinesOf(content) && TilesUpTo(content, chunks, to) && AllWhole(content, chunks)
    requires chunks != [] && Capped(hits, Stitched(f, content, chunks), maxHits)
    ensures 0 <= to <= |content| && LineNo(content, to) <= |f.lines|
    ensures MatchesBefore(f, content, chunks, LineNo(content, to), hits, maxHits)
    ensures |Stitched(f, content, chunks)| == |MatchesIn(f, 0, LineNo(content, to))|
  {
    TakeAll(chunks);
    var last := |chunks| - 1;
    NextChunk(content, chunks, to, last);
    ChunkLinesInPlace(content, chunks[last]);
    StitchedCoversFile(f, content, chunks, to, last, 0);
    forall j | 0 <= j < |hits|
      ensures ClippedIn(f, content, chunks, MatchesIn(f, 0, LineNo(content, to))[j], hits[j])
    {
      StitchedCoversFile(f, content, chunks, to, last, j);
    }
  }

  lemma {:induction false} TiledAnswer(f: Judged, content: Word, chunks: seq<Chunk>, hits: seq<Hit>, maxHits: nat)
    requires f.Ok() && f.lines == LinesOf(content) && Tiles(content, chunks) && AllWhole(content, chunks)
    requires Capped(hits, Stitched(f, content, chunks), maxHits)
    ensures FirstMatches(f, content, chunks, hits, maxHits)
    ensures |Stitched(f, content, chunks)| == |MatchesIn(f, 0, |f.lines|)|
  {
    TakeAll(content);
    if chunks == [] {
      assert content == [];
    } else {
      TiledPart(f, content, chunks, |content|, hits, maxHits);
    }
  }

  /** How many shares a file is cut into without an index: one for every 32 MiB, but at least one
      for every processor, of which from 2 to 16 are counted, and at most 256. */
  function ShareCount(size: nat, numCPU: nat): (n: nat)
    ensures 2 <= n <= 256
  {
    var workers := if numCPU < 2 then 2 else if numCPU < 16 then numCPU else 16;
    if size < 33554432 * workers then workers else if size < 33554432 * 256 then size / 33554432 else 256
  }

  /** Searches a large file that is read in the given pieces. With an index, only the chunks its
      filters admit are scanned; the hits are theirs, in file order, up to the cap. Without one
      the file is cut into `shares`, and the hits are the first matching lines of the file, with
      context from within the share. */
  method SearchInSingleFileParallel(q: Query, segments: seq<Word>, bloomIdx: Option<ChunkBloomIndex>, h: Hash,
                                    lib: Word -> Word, numCPU: nat, schedule: nat -> seq<nat>, maxHits: nat)
    returns (hits: seq<Hit>, ghost shares: seq<Chunk>)
    requires maxHits >= 1 && FinishesAll(schedule) && NoCapitals(lib(q.literalKw))
    requires bloomIdx.Some? ==> Indexes(h, segments, bloomIdx.value)
    ensures bloomIdx.Some? ==>
      var content, kept := Flatten(segments), Kept(bloomIdx.value.chunks, h, q, Cleaned(lib, q.literalKw));
      AllWhole(content, kept) && Capped(hits, Stitched(JudgedFile(q, content), content, kept), maxHits)
    ensures bloomIdx.None? ==>
      && Tiles(Flatten(segments), shares) && |shares| <= ShareCount(|Flatten(segments)|, numCPU)
      && (forall i | 0 < i < ShareCount(|Flatten(segments)|, numCPU) ::
            CutBehind(Flatten(segments), shares, Share(Flatten(segments), ShareCount(|Flatten(segments)|, numCPU), i)))
      && FirstMatches(JudgedFile(q, Flatten(segments)), Flatten(segments), shares, hits, maxHits)
  {
    var workerCount := numCPU;
    if workerCount < 2 {
      workerCount := 2;
    }
    if workerCount > 16 {
      workerCount := 16;
    }
    var content := Flatten(segments);
    shares := [];
    if bloomIdx.Some? && |bloomIdx.value.chunks| > 0 {
      var chunks := SelectChunks(bloomIdx.value, h, q, lib, segments);
      assert forall s | 0 <= s < |chunks| :: Numbered(content, chunks[s]);
      hits := SearchChunks(q, content, chunks, true, schedule, maxHits);
    } else {
      var numChunks := |content| / DEFAULT_CHUNK_SIZE;
      if numChunks < workerCount {
        numChunks := workerCount;
      }
      if numChunks > 256 {
        numChunks := 256;
      }
      var chunks := CalculateFileChunks(content, numChunks, READ_BUFFER);
      TilesAreWhole(content, chunks);
      hits := SearchChunks(q, content, chunks, false, schedule, maxHits);
      TiledAnswer(JudgedFile(q, content), content, chunks, hits, maxHits);
      shares := chunks;
    }
  }

  // ---- what skipping loses

  ghost predicate ChunksWhole(content: Word, chunks: seq<BloomChunkMeta>) {
    forall i | 0 <= i < |chunks| :: WholeLines(content, AsChunk(chunks[i]))
  }

  lemma {:induction false} KeptIsWhole(content: Word, chunks: seq<BloomChunkMeta>, h: Hash, q: Query, cleanKw: Word)
    requires ChunksWhole(content, chunks)
    ensures AllWhole(content, AsChunks(chunks)) && AllWhole(content, Kept(chunks, h, q, cleanKw))
    decreases |chunks|
  {
    if chunks != [] {
      KeptIsWhole(content, chunks[..|chunks| - 1], h, q, cleanKw);
    }
  }

  /** No chunk that is skipped holds a matching line. */
  ghost predicate NothingSkipped(f: Judged, content: Word, chunks: seq<BloomChunkMeta>, h: Hash, q: Query,
                                 cleanKw: Word)
    requires f.Ok() && f.lines == LinesOf(content) && ChunksWhole(content, chunks)
  {
    forall i | 0 <= i < |chunks| && !Searched(chunks[i], h, q, cleanKw) ::
      ChunkHits(f, content, AsChunk(chunks[i])) == []
  }

  lemma ShorterWithout<T>(kept: seq<T>, all: seq<T>, some: seq<T>, share: seq<T>)
    requires |kept| <= |all| && (|kept| == |all| ==> kept == all)
    requires some == share || some == []
    ensures |kept + some| <= |all + share|
    ensures |kept + some| == |all + share| ==> kept + some == all + share
    ensures kept + some == all + share <==> kept == all && some == share
  {
    if |kept + some| == |all + share| {
      assert |kept| == |all| && |some| == |share|;
    }
  }

  /** What the last chunk adds to the hits of all chunks, and to those of the chunks kept. */
  lemma {:induction false} LastYields(f: Judged, content: Word, chunks: seq<BloomChunkMeta>, h: Hash, q: Query,
                                      cleanKw: Word)
    requires f.Ok() && f.lines == LinesOf(content) && ChunksWhole(content, chunks) && chunks != []
    requires AllWhole(content, AsChunks(chunks)) && AllWhole(content, Kept(chunks, h, q, cleanKw))
    ensures var init, last := chunks[..|chunks| - 1], chunks[|chunks| - 1];
            && AllWhole(content, AsChunks(init)) && AllWhole(content, Kept(init, h, q, cleanKw))
            && WholeLines(content, AsChunk(last))
            && var share := ChunkHits(f, content, AsChunk(last));
            && Stitched(f, content, AsChunks(chunks)) == Stitched(f, content, AsChunks(init)) + share
            && Stitched(f, content, Kept(chunks, h, q, cleanKw))
            == Stitched(f, content, Kept(init, h, q, cleanKw)) + if Searched(last, h, q, cleanKw) then share else []
  {
    var init, last := chunks[..|chunks| - 1], chunks[|chunks| - 1];
    KeptIsWhole(content, init, h, q, cleanKw);
    assert AsChunks(chunks)[..|chunks| - 1] == AsChunks(init);
    var keptInit := Kept(init, h, q, cleanKw);
    if Searched(last, h, q, cleanKw) {
      assert (keptInit + [AsChunk(last)])[..|keptInit|] == keptInit;
    } else {
      assert keptInit + [] == keptInit;
    }
  }

  /** The chunks that are scanned yield what all chunks would exactly when no skipped chunk
      holds a match. */
  lemma {:induction false} KeptYieldsAll(f: Judged, content: Word, chunks: seq<BloomChunkMeta>, h: Hash, q: Query,
                                         cleanKw: Word)
    requires f.Ok() && f.lines == LinesOf(content) && ChunksWhole(content, chunks)
    ensures AllWhole(content, AsChunks(chunks)) && AllWhole(content, Kept(chunks, h, q, cleanKw))
    ensures var kept, all := Stitched(f, content, Kept(chunks, h, q, cleanKw)), Stitched(f, content, AsChunks(chunks));
      && |kept| <= |all|
      && (kept == all <==> NothingSkipped(f, content, chunks, h, q, cleanKw))
      && (|kept| == |all| ==> kept == all)
    decreases |chunks|
  {
    KeptIsWhole(content, chunks, h, q, cleanKw);
    if chunks != [] {
      var init, last := chunks[..|chunks| - 1], chunks[|chunks| - 1];
      KeptYieldsAll(f, content, init, h, q, cleanKw);
      LastYields(f, content, chunks, h, q, cleanKw);
      SkippedStep(f, content, chunks, h, q, cleanKw);
      var share := ChunkHits(f, content, AsChunk(last));
      ShorterWithout(Stitched(f, content, Kept(init, h, q, cleanKw)), Stitched(f, content, AsChunks(init)),
                     if Searched(last, h, q, cleanKw) then share else [], share);
    }
  }

  lemma {:induction false} SkippedStep(f: Judged, content: Word, chunks: seq<BloomChunkMeta>, h: Hash, q: Query,
                                       cleanKw: Word)
    requires f.Ok() && f.lines == LinesOf(content) && ChunksWhole(content, chunks) && chunks != []
    ensures ChunksWhole(content, chunks[..|chunks| - 1])
    ensures var last := chunks[|chunks| - 1];
      NothingSkipped(f, content, chunks, h, q, cleanKw)
      <==> (NothingSkipped(f, content, chunks[..|chunks| - 1], h, q, cleanKw)
            && (Searched(last, h, q, cleanKw) || ChunkHits(f, content, AsChunk(last)) == []))
  {
    var init := chunks[..|chunks| - 1];
    assert forall i | 0 <= i < |init| :: init[i] == chunks[i];
  }
}
