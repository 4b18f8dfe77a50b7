/** The parallel search of one large file: workers scan chunks in any order, and the hits are
    stitched back together with absolute line numbers. */
module ParallelSearch {
  import opened Bytes
  import opened Lines
  import opened ByteRing
  import opened Matchers
  import opened SearchTheory
  import opened FileChunks
  import SearchScan

  /** How many lines end before byte `o`. */
  function LineNo(content: Word, o: int): nat
    requires 0 <= o <= |content|
  {
    |LinesOf(content[..o])|
  }

  /** A chunk holds whole lines of the file. */
  ghost predicate WholeLines(content: Word, c: Chunk) {
    && 0 <= c.startOff <= c.endOff <= |content|
    && LineStart(content, c.startOff) && (c.endOff == |content| || LineStart(content, c.endOff))
  }

  function ChunkLines(content: Word, c: Chunk): seq<Word>
    requires 0 <= c.startOff <= c.endOff <= |content|
  {
    LinesOf(content[c.startOff..c.endOff])
  }

  /** The lines of a chunk are a run of the lines of the file. */
  lemma {:induction false} ChunkLinesInPlace(content: Word, c: Chunk)
    requires WholeLines(content, c)
    ensures LineNo(content, c.startOff) <= LineNo(content, c.endOff) <= |LinesOf(content)|
    ensures ChunkLines(content, c) == LinesOf(content)[LineNo(content, c.startOff)..LineNo(content, c.endOff)]
  {
    var s, e := c.startOff, c.endOff;
    assert content[..e][..s] == content[..s] && content[..e][s..] == content[s..e];
    LinesSplit(content[..e], s);
    if e == |content| {
      assert content[..e] == content;
    } else {
      LinesSplit(content, e);
    }
    var lo, hi := LineNo(content, s), LineNo(content, e);
    assert LinesOf(content)[..hi] == LinesOf(content[..e]);
    assert LinesOf(content)[lo..hi] == LinesOf(content)[..hi][lo..];
  }

  /** The hit for line `i` with its context clipped to the lines [lo, hi). */
  function ClippedHit(f: Judged, i: nat, lo: nat, hi: nat): Hit
    requires f.Ok() && lo <= i < hi <= |f.lines|
  {
    Hit(i + 1, f.lines[i], f.verdicts[i].level,
        LastN(f.lines[lo..i], f.contextLines), f.lines[i + 1..Min(i + 1 + f.contextLines, hi)])
  }

  function ClippedHits(f: Judged, indices: seq<nat>, lo: nat, hi: nat): (hits: seq<Hit>)
    requires f.Ok() && hi <= |f.lines| && forall j | 0 <= j < |indices| :: lo <= indices[j] < hi
    ensures |hits| == |indices|
  {
    seq(|indices|, j requires 0 <= j < |indices| => ClippedHit(f, indices[j], lo, hi))
  }

  lemma PrefixOfSlice<T>(s: seq<T>, lo: nat, hi: nat, b: nat)
    requires lo + b <= hi <= |s|
    ensures s[lo..hi][..b] == s[lo..lo + b]
  {}

  /** Clipping only shortens the context, on the far ends; the rest is the hit of the
      sequential search. */
  lemma {:induction false} ClippedIsSequential(f: Judged, i: nat, lo: nat, hi: nat)
    requires f.Ok() && lo <= i < hi <= |f.lines|
    ensures var h, full := ClippedHit(f, i, lo, hi), HitAt(f, i, |f.lines|);
      && h.(before := [], after := []) == full.(before := [], after := [])
      && h.after == full.after[..Min(|full.after|, hi - i - 1)]
      && h.before == full.before[|full.before| - Min(|full.before|, i - lo)..]
  {
    assert f.lines[lo..i] == f.lines[..i][lo..];
    var to := Min(i + 1 + f.contextLines, |f.lines|);
    PrefixOfSlice(f.lines, i + 1, to, Min(to - i - 1, hi - i - 1));
  }

  /** The part of a judged file between two lines. */
  function Part(f: Judged, lo: nat, hi: nat): (p: Judged)
    requires f.Ok() && lo <= hi <= |f.lines|
    ensures p.Ok()
  {
    Judged(f.lines[lo..hi], f.verdicts[lo..hi], f.contextLines)
  }

  lemma {:induction false} PartMatches(f: Judged, lo: nat, hi: nat, b: nat)
    requires f.Ok() && lo <= hi <= |f.lines| && b <= hi - lo
    ensures var local, global := MatchesIn(Part(f, lo, hi), 0, b), MatchesIn(f, lo, lo + b);
      |local| == |global| && forall j | 0 <= j < |local| :: global[j] == local[j] + lo
    decreases b
  {
    if b != 0 {
      PartMatches(f, lo, hi, b - 1);
    }
  }

  /** A hit numbered within its chunk, renumbered from the chunk's first line. */
  function Renumber(h: Hit, base: int): Hit {
    h.(lineNumber := base + h.lineNumber - 1)
  }

  lemma {:induction false} PartHit(f: Judged, lo: nat, hi: nat, i: nat)
    requires f.Ok() && lo <= hi <= |f.lines| && i < hi - lo
    ensures Renumber(HitAt(Part(f, lo, hi), i, hi - lo), lo + 1) == ClippedHit(f, lo + i, lo, hi)
  {
    var to := Min(i + 1 + f.contextLines, hi - lo);
    PrefixOfSlice(f.lines, lo, hi, i);
    SliceOfSlice(f.lines, lo, hi, i + 1, to);
    assert lo + to == Min(lo + i + 1 + f.contextLines, hi);
    var h, g := HitAt(Part(f, lo, hi), i, hi - lo), ClippedHit(f, lo + i, lo, hi);
    assert h.content == g.content && h.level == g.level;
    assert h.before == g.before;
    assert h.after == g.after;
  }

  /** What a worker finds in a chunk, renumbered, is the chunk's share of the file's matches,
      with clipped context. */
  lemma {:induction false} PartHits(f: Judged, lo: nat, hi: nat, j: nat)
    requires f.Ok() && lo <= hi <= |f.lines|
    ensures |AllHits(Part(f, lo, hi))| == |MatchesIn(f, lo, hi)|
    ensures j < |MatchesIn(f, lo, hi)| ==>
      var i := MatchesIn(f, lo, hi)[j];
      lo <= i < hi && Renumber(AllHits(Part(f, lo, hi))[j], lo + 1) == ClippedHit(f, i, lo, hi)
  {
    var p := Part(f, lo, hi);
    PartMatches(f, lo, hi, hi - lo);
    assert lo + (hi - lo) == hi;
    if j < |MatchesIn(f, lo, hi)| {
      var i := MatchesIn(p, 0, hi - lo)[j];
      AllHitsEntry(p, j);
      PartHit(f, lo, hi, i);
    }
  }

  lemma {:induction false} AllHitsEntry(f: Judged, j: nat)
    requires f.Ok() && j < |MatchesIn(f, 0, |f.lines|)|
    ensures |AllHits(f)| == |MatchesIn(f, 0, |f.lines|)|
    ensures MatchesIn(f, 0, |f.lines|)[j] < |f.lines|
    ensures AllHits(f)[j] == HitAt(f, MatchesIn(f, 0, |f.lines|)[j], |f.lines|)
  {
    MatchesInRange(f, 0, |f.lines|);
  }

  lemma {:induction false} JudgeChunk(q: Query, content: Word, c: Chunk)
    requires WholeLines(content, c)
    ensures LineNo(content, c.startOff) <= LineNo(content, c.endOff) <= |LinesOf(content)|
    ensures JudgeAll(q, ChunkLines(content, c))
         == Part(JudgeAll(q, LinesOf(content)), LineNo(content, c.startOff), LineNo(content, c.endOff))
  {
    ChunkLinesInPlace(content, c);
    var lo, hi := LineNo(content, c.startOff), LineNo(content, c.endOff);
    assert Verdicts(q, LinesOf(content)[lo..hi]) == Verdicts(q, LinesOf(content))[lo..hi];
  }

  // ---- stitching

  ghost predicate AllWhole(content: Word, chunks: seq<Chunk>) {
    forall s | 0 <= s < |chunks| :: WholeLines(content, chunks[s])
  }

  /** The file under search, judged line by line. */
  function JudgedFile(q: Query, content: Word): (f: Judged)
    ensures f.Ok()
  {
    JudgeAll(q, LinesOf(content))
  }

  /** A chunk's share of the hits of the file. */
  function ChunkHits(f: Judged, content: Word, c: Chunk): seq<Hit>
    requires f.Ok() && f.lines == LinesOf(content) && WholeLines(content, c)
  {
    ChunkLinesInPlace(content, c);
    var lo, hi := LineNo(content, c.startOff), LineNo(content, c.endOff);
    MatchesInRange(f, lo, hi);
    ClippedHits(f, MatchesIn(f, lo, hi), lo, hi)
  }

  /** The shares of the chunks, one after the other. */
  function Stitched(f: Judged, content: Word, chunks: seq<Chunk>): seq<Hit>
    requires f.Ok() && f.lines == LinesOf(content) && AllWhole(content, chunks)
  {
    if chunks == [] then []
    else Stitched(f, content, chunks[..|chunks| - 1]) + ChunkHits(f, content, chunks[|chunks| - 1])
  }

  lemma {:induction false} StitchedPrefix(f: Judged, content: Word, chunks: seq<Chunk>, s: nat)
    requires f.Ok() && f.lines == LinesOf(content) && AllWhole(content, chunks) && s <= |chunks|
    ensures Stitched(f, content, chunks[..s]) <= Stitched(f, content, chunks)
    decreases |chunks|
  {
    if s == |chunks| {
      assert chunks[..s] == chunks;
    } else {
      assert chunks[..|chunks| - 1][..s] == chunks[..s];
      StitchedPrefix(f, content, chunks[..|chunks| - 1], s);
    }
  }

  lemma {:induction false} StitchedStep(f: Judged, content: Word, chunks: seq<Chunk>, s: nat)
    requires f.Ok() && f.lines == LinesOf(content) && AllWhole(content, chunks) && s < |chunks|
    ensures Stitched(f, content, chunks[..s + 1])
        == Stitched(f, content, chunks[..s]) + ChunkHits(f, content, chunks[s])
    ensures Stitched(f, content, chunks[..s + 1]) <= Stitched(f, content, chunks)
  {
    assert chunks[..s + 1][..s] == chunks[..s];
    StitchedPrefix(f, content, chunks, s + 1);
  }

  datatype ChunkResult = ChunkResult(hits: seq<Hit>, totalLines: int)

  /** The result slot of a chunk, filled in by a worker. */
  ghost predicate Scanned(q: Query, content: Word, c: Chunk, r: ChunkResult) {
    && 0 <= c.startOff <= c.endOff <= |content|
    && r.hits == AllHits(JudgeAll(q, ChunkLines(content, c))) && r.totalLines == |ChunkLines(content, c)|
  }

  /** Workers take chunks from the queue and fill the slots, finishing in the given order. */
  method RunWorkers(q: Query, content: Word, chunks: seq<Chunk>, order: seq<nat>) returns (results: array<ChunkResult>)
    requires AllWhole(content, chunks)
    requires forall t | 0 <= t < |order| :: order[t] < |chunks|
    requires forall s | 0 <= s < |chunks| :: s in order
    ensures fresh(results) && results.Length == |chunks|
    ensures forall s | 0 <= s < |chunks| :: Scanned(q, content, chunks[s], results[s])
  {
    results := new ChunkResult[|chunks|](_ => ChunkResult([], 0));
    for t := 0 to |order|
      invariant forall s | 0 <= s < |chunks| && s in order[..t] :: Scanned(q, content, chunks[s], results[s])
    {
      var slot := order[t];
      var hits, total := SearchScan.SearchChunk(q, ChunkLines(content, chunks[slot]));
      results[slot] := ChunkResult(hits, total);
      TakeOneMore(order, t);
    }
    TakeAll(order);
  }

  /** Each chunk's first line number is known: noted in the chunk, or counted up over chunks
      that cover the file. */
  ghost predicate Based(content: Word, chunks: seq<Chunk>, hasStartLines: bool) {
    && AllWhole(content, chunks)
    && if hasStartLines
       then forall s | 0 <= s < |chunks| :: chunks[s].startLine == LineNo(content, chunks[s].startOff) + 1
       else Tiles(content, chunks)
  }

  lemma {:induction false} TilesAreWhole(content: Word, chunks: seq<Chunk>)
    requires Tiles(content, chunks)
    ensures AllWhole(content, chunks)
  {
    forall s | 0 <= s < |chunks| ensures WholeLines(content, chunks[s]) {
      if s < |chunks| - 1 {
        assert chunks[s].endOff == chunks[s + 1].startOff;
      }
    }
  }

  lemma {:induction false} NextChunk(content: Word, chunks: seq<Chunk>, to: int, s: nat)
    requires TilesUpTo(content, chunks, to) && s < |chunks|
    ensures chunks[0].startOff == 0 && chunks[|chunks| - 1].endOff == to
    ensures s + 1 < |chunks| ==> chunks[s + 1].startOff == chunks[s].endOff
  {
    var end := chunks[s].endOff;
  }

  /** The hits of a slot, renumbered from `base`, are `share`. */
  ghost predicate Yields(r: ChunkResult, base: int, share: seq<Hit>) {
    |r.hits| == |share| && forall j | 0 <= j < |share| :: Renumber(r.hits[j], base) == share[j]
  }

  /** The slot of a chunk holds the chunk's share, numbered within the chunk. */
  ghost predicate SlotOk(f: Judged, content: Word, c: Chunk, r: ChunkResult)
    requires f.Ok() && f.lines == LinesOf(content)
  {
    && WholeLines(content, c)
    && Yields(r, LineNo(content, c.startOff) + 1, ChunkHits(f, content, c))
    && r.totalLines == LineNo(content, c.endOff) - LineNo(content, c.startOff)
  }

  /** A worker's result, renumbered from the chunk's first line, is the chunk's share. */
  lemma {:induction false} ResultIsShare(q: Query, content: Word, c: Chunk, r: ChunkResult)
    requires WholeLines(content, c) && Scanned(q, content, c, r)
    ensures SlotOk(JudgedFile(q, content), content, c, r)
  {
    JudgeChunk(q, content, c);
    ChunkLinesInPlace(content, c);
    var lo, hi := LineNo(content, c.startOff), LineNo(content, c.endOff);
    PartHits(JudgedFile(q, content), lo, hi, 0);
    forall j | 0 <= j < |r.hits|
      ensures Renumber(r.hits[j], lo + 1) == ChunkHits(JudgedFile(q, content), content, c)[j]
    {
      PartHits(JudgedFile(q, content), lo, hi, j);
    }
  }

  /** Appends the renumbered hits of one slot, stopping at the cap. */
  method CollectSlot(res: ChunkResult, base: int, allHits0: seq<Hit>, maxHits: nat, ghost share: seq<Hit>)
    returns (allHits: seq<Hit>, done: bool)
    requires Yields(res, base, share) && |allHits0| < maxHits
    ensures if |allHits0 + share| < maxHits then !done && allHits == allHits0 + share
            else done && allHits == (allHits0 + share)[..maxHits]
  {
    allHits, done := allHits0, false;
    for j := 0 to |res.hits|
      invariant allHits == allHits0 + share[..j] && |allHits| < maxHits
    {
      allHits := allHits + [Renumber(res.hits[j], base)];
      if |allHits| >= maxHits {
        return allHits, true;
      }
    }
  }

  lemma {:induction false} BaseOfSlot(content: Word, chunks: seq<Chunk>, slot: nat)
    requires Based(content, chunks, true) && slot < |chunks|
    ensures WholeLines(content, chunks[slot]) && chunks[slot].startLine == LineNo(content, chunks[slot].startOff) + 1
  {}

  lemma {:induction false} NextBase(content: Word, chunks: seq<Chunk>, slot: nat)
    requires Based(content, chunks, false) && slot + 1 < |chunks|
    ensures WholeLines(content, chunks[slot + 1]) && chunks[slot + 1].startOff == chunks[slot].endOff
  {
    NextChunk(content, chunks, |content|, slot);
  }

  /** The number of the first line of a chunk is the base its hits are renumbered from. */
  ghost predicate IsBase(content: Word, chunks: seq<Chunk>, slot: nat, base: int) {
    slot < |chunks| ==> WholeLines(content, chunks[slot]) && base == LineNo(content, chunks[slot].startOff) + 1
  }

  lemma {:induction false} FirstBase(content: Word, chunks: seq<Chunk>)
    requires Based(content, chunks, false)
    ensures IsBase(content, chunks, 0, 1)
  {
    if chunks != [] {
      NextChunk(content, chunks, |content|, 0);
      assert content[..0] == [];
    }
  }

  /** The hits of one slot, renumbered from `base`, follow those of the slots before it. */
  method CollectNext(ghost f: Judged, ghost content: Word, chunks: seq<Chunk>, slot: nat, res: ChunkResult, base: int,
                     allHits0: seq<Hit>, maxHits: nat)
    returns (allHits: seq<Hit>, done: bool)
    requires f.Ok() && f.lines == LinesOf(content) && AllWhole(content, chunks)
    requires slot < |chunks| && SlotOk(f, content, chunks[slot], res) && IsBase(content, chunks, slot, base)
    requires allHits0 == Stitched(f, content, chunks[..slot]) && |allHits0| < maxHits
    ensures !done ==> allHits == Stitched(f, content, chunks[..slot + 1]) && |allHits| < maxHits
    ensures done ==> Capped(allHits, Stitched(f, content, chunks), maxHits)
  {
    StitchedStep(f, content, chunks, slot);
    allHits, done := CollectSlot(res, base, allHits0, maxHits, ChunkHits(f, content, chunks[slot]));
    if done {
      PrefixIsTake(Stitched(f, content, chunks[..slot + 1]), Stitched(f, content, chunks), maxHits);
    }
  }

  /** Collects the hits of all slots in file order, renumbered, up to `maxHits`. */
  method Collect(ghost f: Judged, ghost content: Word, chunks: seq<Chunk>, hasStartLines: bool,
                 results: array<ChunkResult>, maxHits: nat)
    returns (allHits: seq<Hit>)
    requires f.Ok() && f.lines == LinesOf(content)
    requires maxHits >= 1 && Based(content, chunks, hasStartLines) && results.Length == |chunks|
    requires forall s | 0 <= s < |chunks| :: SlotOk(f, content, chunks[s], results[s])
    ensures Capped(allHits, Stitched(f, content, chunks), maxHits)
  {
    allHits := [];
    var currentBaseLine := 1;
    if !hasStartLines {
      FirstBase(content, chunks);
    }
    for slot := 0 to |chunks|
      invariant allHits == Stitched(f, content, chunks[..slot]) && |allHits| < maxHits
      invariant !hasStartLines ==> IsBase(content, chunks, slot, currentBaseLine)
    {
      var c, res := chunks[slot], results[slot];
      if hasStartLines {
        BaseOfSlot(content, chunks, slot);
      }
      var base := if hasStartLines && c.startLine > 0 then c.startLine else currentBaseLine;
      assert SlotOk(f, content, c, res);
      var done;
      allHits, done := CollectNext(f, content, chunks, slot, res, base, allHits, maxHits);
      if done {
        return;
      }
      if !hasStartLines && slot + 1 < |chunks| {
        NextBase(content, chunks, slot);
      }
      currentBaseLine := currentBaseLine + res.totalLines;
    }
    TakeAll(chunks);
  }

  /** The first `maxHits` of `all`, or all of them when there are fewer. */
  ghost predicate Capped(hits: seq<Hit>, all: seq<Hit>, maxHits: nat) {
    hits == all[..Min(maxHits, |all|)]
  }

  // ---- what the stitched hits are

  /** `h` is the hit for line `i`, its context clipped to the chunk that holds the line. */
  ghost predicate ClippedIn(f: Judged, content: Word, chunks: seq<Chunk>, i: nat, h: Hit)
    requires f.Ok() && f.lines == LinesOf(content)
  {
    exists s :: 0 <= s < |chunks| && InChunk(f, content, chunks[s], i, h)
  }

  ghost predicate InChunk(f: Judged, content: Word, c: Chunk, i: nat, h: Hit)
    requires f.Ok() && f.lines == LinesOf(content)
  {
    && 0 <= c.startOff <= c.endOff <= |content|
    && LineNo(content, c.startOff) <= i < LineNo(content, c.endOff) <= |f.lines|
    && h == ClippedHit(f, i, LineNo(content, c.startOff), LineNo(content, c.endOff))
  }

  /** Chunks that cover the file up to `to` yield every matching line there once, in order: up
      to chunk `s`, hit `j` belongs to the `j`-th matching line. */
  lemma {:induction false} StitchedCoversFile(f: Judged, content: Word, chunks: seq<Chunk>, to: int, s: nat, j: nat)
    requires f.Ok() && f.lines == LinesOf(content) && TilesUpTo(content, chunks, to) && AllWhole(content, chunks)
    requires s < |chunks|
    ensures CoversUpTo(f, content, chunks, s, j)
    decreases s
  {
    var c := chunks[s];
    ChunkLinesInPlace(content, c);
    StitchedStep(f, content, chunks, s);
    if s > 0 {
      NextChunk(content, chunks, to, s - 1);
      ChunkLinesInPlace(content, chunks[s - 1]);
      StitchedCoversFile(f, content, chunks, to, s - 1, j);
    } else {
      NextChunk(content, chunks, to, 0);
      assert chunks[..0] == [] && content[..0] == [];
    }
    ShareComesNext(f, content, chunks, s, j);
  }

  ghost predicate CoversUpTo(f: Judged, content: Word, chunks: seq<Chunk>, s: nat, j: nat)
    requires f.Ok() && f.lines == LinesOf(content) && AllWhole(content, chunks) && s < |chunks|
  {
    ChunkLinesInPlace(content, chunks[s]);
    var hits, indices := Stitched(f, content, chunks[..s + 1]), MatchesIn(f, 0, LineNo(content, chunks[s].endOff));
    |hits| == |indices| && (j < |hits| ==> ClippedIn(f, content, chunks, indices[j], hits[j]))
  }

  lemma {:induction false} ShareComesNext(f: Judged, content: Word, chunks: seq<Chunk>, s: nat, j: nat)
    requires f.Ok() && f.lines == LinesOf(content) && AllWhole(content, chunks) && s < |chunks|
    requires if s == 0 then LineNo(content, chunks[s].startOff) == 0
             else chunks[s].startOff == chunks[s - 1].endOff && CoversUpTo(f, content, chunks, s - 1, j)
    ensures CoversUpTo(f, content, chunks, s, j)
  {
    var c := chunks[s];
    ChunkLinesInPlace(content, c);
    StitchedStep(f, content, chunks, s);
    SharesBefore(f, content, chunks, s, j);
    var lo, hi := LineNo(content, c.startOff), LineNo(content, c.endOff);
    MatchesSplit(f, 0, lo, hi);
    ShareLength(f, content, c);
    var before := |MatchesIn(f, 0, lo)|;
    if before <= j < before + |ChunkHits(f, content, c)| {
      ShareEntry(f, content, c, j - before);
      assert InChunk(f, content, chunks[s], MatchesIn(f, lo, hi)[j - before], ChunkHits(f, content, c)[j - before]);
    }
  }

  lemma {:induction false} ShareLength(f: Judged, content: Word, c: Chunk)
    requires f.Ok() && f.lines == LinesOf(content) && WholeLines(content, c)
    ensures LineNo(content, c.startOff) <= LineNo(content, c.endOff) <= |f.lines|
    ensures |ChunkHits(f, content, c)| == |MatchesIn(f, LineNo(content, c.startOff), LineNo(content, c.endOff))|
  {
    ChunkLinesInPlace(content, c);
    MatchesInRange(f, LineNo(content, c.startOff), LineNo(content, c.endOff));
  }

  /** The hits of the chunks before chunk `s` are those of the lines before it. */
  lemma {:induction false} SharesBefore(f: Judged, content: Word, chunks: seq<Chunk>, s: nat, j: nat)
    requires f.Ok() && f.lines == LinesOf(content) && AllWhole(content, chunks) && s < |chunks|
    requires if s == 0 then LineNo(content, chunks[s].startOff) == 0
             else chunks[s].startOff == chunks[s - 1].endOff && CoversUpTo(f, content, chunks, s - 1, j)
    ensures LineNo(content, chunks[s].startOff) <= |f.lines|
    ensures var hits, indices := Stitched(f, content, chunks[..s]),
        MatchesIn(f, 0, LineNo(content, chunks[s].startOff));
            |hits| == |indices| && (j < |hits| ==> ClippedIn(f, content, chunks, indices[j], hits[j]))
  {
    ChunkLinesInPlace(content, chunks[s]);
    assert s == 0 ==> chunks[..s] == [];
  }

  lemma {:induction false} ShareEntry(f: Judged, content: Word, c: Chunk, j: nat)
    requires f.Ok() && f.lines == LinesOf(content) && WholeLines(content, c)
    requires j < |ChunkHits(f, content, c)|
    ensures LineNo(content, c.startOff) <= LineNo(content, c.endOff) <= |f.lines|
    ensures |ChunkHits(f, content, c)| == |MatchesIn(f, LineNo(content, c.startOff), LineNo(content, c.endOff))|
    ensures InChunk(f, content, c, MatchesIn(f, LineNo(content, c.startOff), LineNo(content, c.endOff))[j],
        ChunkHits(f, content, c)[j])
  {
    ChunkLinesInPlace(content, c);
    MatchesInRange(f, LineNo(content, c.startOff), LineNo(content, c.endOff));
  }
}
