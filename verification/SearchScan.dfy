/** The two scan loops: the capped scan of a whole file, and the uncapped scan of one chunk.
    Hits wait in a queue until the lines after them have been read. */
module SearchScan {
  import opened Bytes
  import opened ByteRing
  import opened Matchers
  import opened SearchTheory

  datatype Pending = Pending(hit: Hit, remaining: int)

  /** The waiting hits once `e` lines have been read. */
  ghost function PendingAt(f: Judged, indices: seq<nat>, e: nat): (ps: seq<Pending>)
    requires f.Ok() && e <= |f.lines| && forall j | 0 <= j < |indices| :: indices[j] < e
    ensures |ps| == |indices|
  {
    seq(|indices|, j requires 0 <= j < |indices| =>
      Pending(HitAt(f, indices[j], e), indices[j] + 1 + f.contextLines - e))
  }

  /** How far hits are settled once `e` lines have been read. */
  function Settled(f: Judged, e: nat): nat {
    Sub(e, f.contextLines)
  }

  ghost function Ready(f: Judged, e: nat): (idx: seq<nat>)
    requires f.Ok() && e <= |f.lines|
    ensures forall j | 0 <= j < |idx| :: idx[j] < e
  {
    MatchesInRange(f, 0, Settled(f, e));
    MatchesIn(f, 0, Settled(f, e))
  }

  /** The matches whose context was still open after `e` lines, among the first `upto`. */
  ghost function Waiting(f: Judged, e: nat, upto: nat): (idx: seq<nat>)
    requires f.Ok() && upto <= e <= |f.lines|
    ensures forall j | 0 <= j < |idx| :: Settled(f, e) <= idx[j] < e
  {
    MatchesInRange(f, Settled(f, e), upto);
    MatchesIn(f, Settled(f, e), upto)
  }

  /** One more line settles at most one more hit: the matches split into those that were
      settled, those that settle now, and those that go on waiting. */
  lemma WaitingSplits(f: Judged, k: nat)
    requires f.Ok() && k < |f.lines| && f.contextLines >= 1
    ensures var now := MatchesIn(f, Settled(f, k), Settled(f, k + 1));
      && |now| <= 1
      && (forall j | 0 <= j < |now| :: Settled(f, k) <= now[j] < Settled(f, k + 1))
      && Waiting(f, k, k) == now + Waiting(f, k + 1, k)
      && Ready(f, k + 1) == Ready(f, k) + now
  {
    MatchesSplit(f, Settled(f, k), Settled(f, k + 1), k);
    MatchesSplit(f, 0, Settled(f, k), Settled(f, k + 1));
    MatchesInRange(f, Settled(f, k), Settled(f, k + 1));
  }

  lemma HitsConcat(f: Judged, a: seq<nat>, b: seq<nat>, e: nat)
    requires f.Ok() && e <= |f.lines| && forall j | 0 <= j < |a + b| :: (a + b)[j] < e
    ensures forall j | 0 <= j < |a| :: a[j] == (a + b)[j]
    ensures forall j | 0 <= j < |b| :: b[j] == (a + b)[|a| + j]
    ensures HitsAt(f, a + b, e) == HitsAt(f, a, e) + HitsAt(f, b, e)
  {}

  lemma ReadyIsSettled(f: Judged, k: nat)
    requires f.Ok() && k < |f.lines|
    ensures HitsAt(f, Ready(f, k), k + 1) == HitsAt(f, Ready(f, k), k)
  {
    MatchesInRange(f, 0, Settled(f, k));
    forall j | 0 <= j < |Ready(f, k)|
      ensures HitAt(f, Ready(f, k)[j], k + 1) == HitAt(f, Ready(f, k)[j], k)
    {
      HitSettled(f, Ready(f, k)[j], k, k + 1);
    }
  }

  lemma AppendNext<T>(before: seq<T>, s: seq<T>, j: nat)
    requires j < |s|
    ensures before + s[..j] + [s[j]] == before + s[..j + 1]
  {}

  /** Appends one line to every waiting hit; those that have their context now are released. */
  method AdvancePending(pending: seq<Pending>, line: Word, hits0: seq<Hit>, ghost f: Judged, ghost k: nat)
    returns (hits: seq<Hit>, active: seq<Pending>)
    requires f.Ok() && k < |f.lines| && line == f.lines[k] && f.contextLines >= 1
    requires hits0 == HitsAt(f, Ready(f, k), k) && pending == PendingAt(f, Waiting(f, k, k), k)
    ensures hits == HitsAt(f, Ready(f, k + 1), k + 1)
    ensures active == PendingAt(f, Waiting(f, k + 1, k), k + 1)
    ensures |hits| <= |hits0| + 1
  {
    WaitingSplits(f, k);
    ReadyIsSettled(f, k);
    ghost var now := MatchesIn(f, Settled(f, k), Settled(f, k + 1));
    HitsConcat(f, Ready(f, k), now, k + 1);
    MatchesInRange(f, Settled(f, k + 1), k);
    hits, active := AdvanceEach(pending, line, hits0, f, k, now, Waiting(f, k + 1, k));
  }

  /** The waiting hits are those of the lines `now`, which have their context with this line,
      and those of the lines `later`, which do not. */
  method AdvanceEach(pending: seq<Pending>, line: Word, hits0: seq<Hit>, ghost f: Judged, ghost k: nat,
                     ghost now: seq<nat>, ghost later: seq<nat>)
    returns (hits: seq<Hit>, active: seq<Pending>)
    requires f.Ok() && k < |f.lines| && line == f.lines[k]
    requires forall j | 0 <= j < |now| :: now[j] < k && now[j] + f.contextLines == k
    requires forall j | 0 <= j < |later| :: later[j] < k < later[j] + f.contextLines
    requires pending == PendingAt(f, now + later, k)
    ensures hits == hits0 + HitsAt(f, now, k + 1) && active == PendingAt(f, later, k + 1)
  {
    hits, active := hits0, [];
    ghost var settling, going := HitsAt(f, now, k + 1), PendingAt(f, later, k + 1);
    for j := 0 to |pending|
      invariant hits == hits0 + settling[..Min(j, |now|)]
      invariant active == going[..Sub(j, |now|)]
    {
      var p := pending[j];
      HitGrows(f, if j < |now| then now[j] else later[j - |now|], k);
      var hit, remaining := p.hit.(after := p.hit.after + [line]), p.remaining - 1;
      assert if j < |now| then hit == settling[j] && remaining <= 0
             else Pending(hit, remaining) == going[j - |now|] && remaining > 0;
      if remaining <= 0 {
        AppendNext(hits0, settling, j);
        hits := hits + [hit];
      } else {
        TakeOneMore(going, j - |now|);
        active := active + [Pending(hit, remaining)];
      }
    }
    assert |pending| == |now| + |later|;
  }

  /** Turns what the scan holds after `k` lines and the verdict on line `k` into what it holds
      after `k + 1` lines. */
  lemma AfterLine(f: Judged, k: nat)
    requires f.Ok() && k < |f.lines|
    ensures f.contextLines >= 1 ==>
      Waiting(f, k + 1, k + 1) == Waiting(f, k + 1, k) + if f.verdicts[k].matched then [k] else []
    ensures f.contextLines == 0 ==>
      && Waiting(f, k, k) == Waiting(f, k + 1, k) == Waiting(f, k + 1, k + 1) == []
      && Ready(f, k + 1) == Ready(f, k) + if f.verdicts[k].matched then [k] else []
  {}

  /** The state of a scan after `k` lines. */
  ghost predicate ScanState(f: Judged, k: nat, hits: seq<Hit>, pending: seq<Pending>)
    requires f.Ok() && k <= |f.lines|
  {
    && hits == HitsAt(f, Ready(f, k), k)
    && pending == PendingAt(f, Waiting(f, k, k), k)
  }

  /** The state between offering line `k` to the waiting hits and judging it. */
  ghost predicate Advanced(f: Judged, k: nat, hits: seq<Hit>, pending: seq<Pending>)
    requires f.Ok() && k < |f.lines|
  {
    if f.contextLines == 0 then hits == HitsAt(f, Ready(f, k), k) && pending == []
    else hits == HitsAt(f, Ready(f, k + 1), k + 1) && pending == PendingAt(f, Waiting(f, k + 1, k), k + 1)
  }

  /** Takes the verdict on line `k`: a match becomes a hit at once when no context is asked
      for, and otherwise starts waiting. */
  method TakeVerdict(line: Word, lineLevel: string, matched: bool, before: seq<Word>, contextLines: nat,
                     hits0: seq<Hit>, pending0: seq<Pending>, lineNum: int, ghost f: Judged, ghost k: nat)
    returns (hits: seq<Hit>, pending: seq<Pending>)
    requires f.Ok() && k < |f.lines| && line == f.lines[k] && Verdict(lineLevel, matched) == f.verdicts[k]
    requires lineNum == k + 1 && contextLines == f.contextLines
    requires matched ==> before == LastN(f.lines[..k], contextLines)
    requires Advanced(f, k, hits0, pending0)
    ensures ScanState(f, k + 1, hits, pending)
    ensures contextLines >= 1 ==> hits == hits0
    ensures |hits| <= |hits0| + 1
    ensures !matched ==> |hits| == |hits0|
  {
    AfterLine(f, k);
    ReadyIsSettled(f, k);
    hits, pending := hits0, pending0;
    if matched {
      var newHit := Hit(lineNum, line, lineLevel, before, []);
      assert newHit == HitAt(f, k, k + 1);
      if contextLines == 0 {
        hits := hits + [newHit];
      } else {
        pending := pending + [Pending(newHit, contextLines)];
      }
    }
  }

  lemma NothingWaiting(f: Judged, k: nat)
    requires f.Ok() && k < |f.lines| && f.contextLines >= 1 && Waiting(f, k, k) == []
    ensures Waiting(f, k + 1, k) == [] && HitsAt(f, Ready(f, k + 1), k + 1) == HitsAt(f, Ready(f, k), k)
  {
    WaitingSplits(f, k);
    ReadyIsSettled(f, k);
  }

  /** Offers line `k` to the hits that wait for it, if any do. */
  method OfferLine(line: Word, hits0: seq<Hit>, pending0: seq<Pending>, ghost f: Judged, ghost k: nat)
    returns (hits: seq<Hit>, pending: seq<Pending>)
    requires f.Ok() && k < |f.lines| && line == f.lines[k] && ScanState(f, k, hits0, pending0)
    ensures Advanced(f, k, hits, pending)
    ensures pending0 == [] ==> hits == hits0
    ensures f.contextLines == 0 ==> pending0 == []
    ensures |hits| <= |hits0| + 1
  {
    hits, pending := hits0, pending0;
    if |pending| > 0 {
      hits, pending := AdvancePending(pending, line, hits, f, k);
    } else if f.contextLines >= 1 {
      NothingWaiting(f, k);
    }
  }

  /** Judges line `k` and keeps it for the context of later hits. */
  method JudgeLine(q: Query, line: Word, hits0: seq<Hit>, pending0: seq<Pending>, ring: Ring?, lineNum: int,
                   ghost f: Judged, ghost k: nat)
    returns (hits: seq<Hit>, pending: seq<Pending>)
    requires f.Ok() && f.contextLines == q.contextLines && k < |f.lines| && f.verdicts[k] == Judge(q, line)
    requires line == f.lines[k] && lineNum == k + 1
    requires Advanced(f, k, hits0, pending0) && Holds(ring, f.lines[..k], q.contextLines)
    modifies if ring == null then {} else {ring, ring.lines}
    ensures ScanState(f, k + 1, hits, pending) && Holds(ring, f.lines[..k + 1], q.contextLines)
    ensures ring != null ==> ring.lines == old(ring.lines)
    ensures q.contextLines >= 1 ==> hits == hits0
    ensures |hits| <= |hits0| + 1
  {
    var lineLevel, matched := Examine(q, line);
    var before := [];
    if matched {
      before := Recent(ring, f.lines[..k], q.contextLines);
    }
    hits, pending := TakeVerdict(line, lineLevel, matched, before, q.contextLines, hits0, pending0, lineNum, f, k);
    TakeOneMore(f.lines, k);
    Push(ring, line, f.lines[..k], q.contextLines);
  }

  /** Hands out the hits still waiting when the scan stops. */
  method Flush(hits0: seq<Hit>, pending: seq<Pending>, ghost f: Judged, ghost examined: nat, ghost read: nat)
    returns (hits: seq<Hit>)
    requires f.Ok() && examined <= read <= |f.lines| && Settled(f, read) <= examined
    requires hits0 == HitsAt(f, Ready(f, read), read) && pending == PendingAt(f, Waiting(f, read, examined), read)
    ensures forall j | 0 <= j < |MatchesIn(f, 0, examined)| :: MatchesIn(f, 0, examined)[j] < read
    ensures hits == HitsAt(f, MatchesIn(f, 0, examined), read)
  {
    MatchesSplit(f, 0, Settled(f, read), examined);
    HitsConcat(f, Ready(f, read), Waiting(f, read, examined), read);
    ghost var late := HitsAt(f, Waiting(f, read, examined), read);
    hits := hits0;
    for j := 0 to |pending|
      invariant hits == hits0 + late[..j]
    {
      hits := hits + [pending[j].hit];
    }
  }

  /** Ends a scan that has enough settled hits. */
  method FinishAtCap(hits0: seq<Hit>, pending: seq<Pending>, maxHits: nat, ghost f: Judged, ghost k: nat)
    returns (hits: seq<Hit>)
    requires f.Ok() && k < |f.lines| && 1 <= maxHits == |hits0|
    requires f.contextLines >= 1 ==> Advanced(f, k, hits0, pending)
    requires f.contextLines == 0 ==> ScanState(f, k + 1, hits0, pending)
    ensures IsCappedAnswer(f, maxHits, hits)
  {
    ghost var examined := if f.contextLines == 0 then k + 1 else k;
    hits := Flush(hits0, pending, f, examined, k + 1);
    StopsGivesAnswer(f, maxHits, examined, k + 1, hits);
  }

  /** Ends a scan that has read the whole file. */
  method FinishAtEnd(hits0: seq<Hit>, pending: seq<Pending>, maxHits: nat, ghost f: Judged) returns (hits: seq<Hit>)
    requires f.Ok() && |hits0| < maxHits && ScanState(f, |f.lines|, hits0, pending)
    ensures IsCappedAnswer(f, maxHits, hits)
  {
    hits := Flush(hits0, pending, f, |f.lines|, |f.lines|);
    StopsGivesAnswer(f, maxHits, |f.lines|, |f.lines|, hits);
  }

  /** One turn of the capped scan: offers line `k` to the waiting hits, then judges it, unless
      the cap is reached in between. */
  method CappedTurn(q: Query, line: Word, hits0: seq<Hit>, pending0: seq<Pending>, ring: Ring?, maxHits: nat,
                    ghost f: Judged, k: nat)
    returns (hits: seq<Hit>, pending: seq<Pending>, done: bool)
    requires f.Ok() && f.contextLines == q.contextLines && k < |f.lines| && f.verdicts[k] == Judge(q, line)
    requires line == f.lines[k] && |hits0| < maxHits
    requires ScanState(f, k, hits0, pending0) && Holds(ring, f.lines[..k], q.contextLines)
    modifies if ring == null then {} else {ring, ring.lines}
    ensures done ==> pending == [] && IsCappedAnswer(f, maxHits, hits)
    ensures !done ==> ScanState(f, k + 1, hits, pending) && |hits| < maxHits
    ensures !done ==> Holds(ring, f.lines[..k + 1], q.contextLines)
    ensures ring != null ==> ring.lines == old(ring.lines)
  {
    hits, pending := OfferLine(line, hits0, pending0, f, k);
    if |hits| >= maxHits {
      hits := FinishAtCap(hits, pending, maxHits, f, k);
      return hits, [], true;
    }
    hits, pending := JudgeLine(q, line, hits, pending, ring, k + 1, f, k);
    if q.contextLines == 0 && |hits| >= maxHits {
      hits := FinishAtCap(hits, pending, maxHits, f, k);
      return hits, [], true;
    }
    done := false;
  }

  lemma ScanStarts(f: Judged)
    requires f.Ok()
    ensures ScanState(f, 0, [], [])
  {}

  lemma JudgedLine(q: Query, lines: seq<Word>, k: nat)
    requires k < |lines|
    ensures var f := JudgeAll(q, lines);
            f.lines[k] == lines[k] && f.verdicts[k] == Judge(q, lines[k]) && f.contextLines == q.contextLines
  {}

  /** Scans a whole file for at most `maxHits` settled hits. */
  method SearchInSingleFile(q: Query, lines: seq<Word>, maxHits: nat) returns (result: seq<Hit>)
    requires maxHits >= 1
    ensures IsCappedAnswer(JudgeAll(q, lines), maxHits, result)
  {
    ghost var f := JudgeAll(q, lines);
    result := [];
    var pending: seq<Pending> := [];
    ScanStarts(f);
    var ring := NewByteRing(q.contextLines);
    for k := 0 to |lines|
      invariant ScanState(f, k, result, pending) && |result| < maxHits
      invariant Holds(ring, lines[..k], q.contextLines) && (ring != null ==> fresh(ring) && fresh(ring.lines))
    {
      var done;
      JudgedLine(q, lines, k);
      result, pending, done := CappedTurn(q, lines[k], result, pending, ring, maxHits, f, k);
      if done {
        return;
      }
    }
    result := FinishAtEnd(result, pending, maxHits, f);
  }

  /** Scans one chunk, without a cap, and counts its lines. */
  method SearchChunk(q: Query, lines: seq<Word>) returns (hits: seq<Hit>, totalLines: int)
    ensures hits == AllHits(JudgeAll(q, lines)) && totalLines == |lines|
  {
    ghost var f := JudgeAll(q, lines);
    hits := [];
    var pending: seq<Pending> := [];
    var ring := NewByteRing(q.contextLines);
    for k := 0 to |lines|
      invariant ScanState(f, k, hits, pending)
      invariant Holds(ring, lines[..k], q.contextLines) && (ring != null ==> fresh(ring) && fresh(ring.lines))
    {
      hits, pending := OfferLine(lines[k], hits, pending, f, k);
      hits, pending := JudgeLine(q, lines[k], hits, pending, ring, k + 1, f, k);
    }
    hits := Flush(hits, pending, f, |lines|, |lines|);
    totalLines := |lines|;
  }
}
