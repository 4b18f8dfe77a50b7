/** What a search of a file must return: one hit per matching line, in order, with the lines
    around it. */
module SearchTheory {
  import opened Bytes
  import opened ByteRing
  import opened Matchers

  datatype Hit = Hit(lineNumber: int, content: Word, level: string, before: seq<Word>, after: seq<Word>)

  function Sub(a: nat, b: nat): nat {
    if a <= b then 0 else a - b
  }

  function Min(a: nat, b: nat): nat {
    if a <= b then a else b
  }

  /** The lines of a file with the verdict on each. */
  datatype Judged = Judged(lines: seq<Word>, verdicts: seq<Verdict>, contextLines: nat) {
    predicate Ok() {
      |verdicts| == |lines|
    }
  }

  function JudgeAll(q: Query, lines: seq<Word>): (f: Judged)
    ensures f.Ok()
  {
    Judged(lines, Verdicts(q, lines), q.contextLines)
  }

  /** The indices in [a, b) of the lines that match, in order. */
  function MatchesIn(f: Judged, a: nat, b: nat): seq<nat>
    requires f.Ok() && b <= |f.lines|
  {
    if b <= a then []
    else MatchesIn(f, a, b - 1) + if f.verdicts[b - 1].matched then [b - 1] else []
  }

  lemma {:induction false} MatchesSplit(f: Judged, a: nat, b: nat, c: nat)
    requires f.Ok() && a <= b <= c <= |f.lines|
    ensures MatchesIn(f, a, c) == MatchesIn(f, a, b) + MatchesIn(f, b, c)
    decreases c
  {
    if b < c {
      MatchesSplit(f, a, b, c - 1);
    }
  }

  /** The indices are in range, match, increase, and leave no matching line out. */
  lemma {:induction false} MatchesInRange(f: Judged, a: nat, b: nat)
    requires f.Ok() && b <= |f.lines|
    ensures |MatchesIn(f, a, b)| <= Sub(b, a)
    ensures forall j | 0 <= j < |MatchesIn(f, a, b)| ::
      a <= MatchesIn(f, a, b)[j] < b && f.verdicts[MatchesIn(f, a, b)[j]].matched
    ensures forall i, j | 0 <= i < j < |MatchesIn(f, a, b)| ::
      MatchesIn(f, a, b)[i] < MatchesIn(f, a, b)[j]
    ensures forall k | a <= k < b && f.verdicts[k].matched :: k in MatchesIn(f, a, b)
  {
    if a < b {
      MatchesInRange(f, a, b - 1);
    }
  }

  /** The hit for line `i` as it stands once `e` lines have been read: true number, content and
      level, the `c` lines before it, and the up to `c` lines after it that have been read. */
  function HitAt(f: Judged, i: nat, e: nat): Hit
    requires f.Ok() && i < e <= |f.lines|
  {
    Hit(i + 1, f.lines[i], f.verdicts[i].level,
        LastN(f.lines[..i], f.contextLines), f.lines[i + 1..Min(i + 1 + f.contextLines, e)])
  }

  function HitsAt(f: Judged, indices: seq<nat>, e: nat): (hits: seq<Hit>)
    requires f.Ok() && e <= |f.lines| && forall j | 0 <= j < |indices| :: indices[j] < e
    ensures |hits| == |indices|
  {
    seq(|indices|, j requires 0 <= j < |indices| => HitAt(f, indices[j], e))
  }

  /** All hits of a file, with full context. */
  function AllHits(f: Judged): seq<Hit>
    requires f.Ok()
  {
    MatchesInRange(f, 0, |f.lines|);
    HitsAt(f, MatchesIn(f, 0, |f.lines|), |f.lines|)
  }

  /** A complete hit: the line's number and bytes, as many lines before it as asked for, or as
      there are, and so behind it, each the right one. */
  lemma HitShows(f: Judged, i: nat, j: nat)
    requires f.Ok() && i < |f.lines|
    ensures var h, c := HitAt(f, i, |f.lines|), f.contextLines;
      && h.lineNumber == i + 1 && h.content == f.lines[i] && h.level == f.verdicts[i].level
      && (j < |h.before| <==> j < c && j < i)
      && (j < |h.before| ==> h.before[|h.before| - 1 - j] == f.lines[i - 1 - j])
      && (j < |h.after| <==> j < c && i + 1 + j < |f.lines|)
      && (j < |h.after| ==> h.after[j] == f.lines[i + 1 + j])
  {}

  lemma HitSettled(f: Judged, i: nat, e: nat, e': nat)
    requires f.Ok() && i < e <= e' <= |f.lines| && i + f.contextLines < e
    ensures HitAt(f, i, e) == HitAt(f, i, e')
  {}

  lemma HitGrows(f: Judged, i: nat, e: nat)
    requires f.Ok() && i < e < |f.lines| && e <= i + f.contextLines
    ensures HitAt(f, i, e + 1) == HitAt(f, i, e).(after := HitAt(f, i, e).after + [f.lines[e]])
  {}

  /** What a capped search may answer. Either it returns every hit in full; or it returns the
      first `maxHits` hits in full, followed by fewer than `contextLines` further hits, in
      order, whose following lines may be cut short. */
  ghost predicate IsCappedAnswer(f: Judged, maxHits: nat, hits: seq<Hit>)
    requires f.Ok()
  {
    var all, c := AllHits(f), f.contextLines;
    && |hits| <= maxHits + Sub(c, 1)
    && (|MatchesIn(f, 0, Sub(|f.lines|, c))| < maxHits ==> hits == all)
    && (hits == all || maxHits <= |hits| <= |all|)
    && (forall j | 0 <= j < |hits| && j < maxHits :: j < |all| && hits[j] == all[j])
    && (forall j | maxHits <= j < |hits| :: j < |all| && SameButCut(hits[j], all[j]))
  }

  ghost predicate SameButCut(h: Hit, full: Hit) {
    h.(after := []) == full.(after := []) && h.after <= full.after
  }

  /** The two ways the capped scan ends: at the end of the file, or on having `maxHits` hits
      whose context is complete; in the latter case the last line read has been examined only
      if no context was asked for. */
  ghost predicate Stops(f: Judged, maxHits: nat, examined: nat, read: nat)
    requires f.Ok()
  {
    && examined <= read <= |f.lines|
    && var settled := MatchesIn(f, 0, Sub(read, f.contextLines));
       || (examined == read == |f.lines| && |settled| < maxHits)
       || (|settled| == maxHits && read > 0 && examined == if f.contextLines == 0 then read else read - 1)
  }

  lemma StopsGivesAnswer(f: Judged, maxHits: nat, examined: nat, read: nat, hits: seq<Hit>)
    requires f.Ok() && maxHits >= 1 && Stops(f, maxHits, examined, read)
    requires forall j | 0 <= j < |MatchesIn(f, 0, examined)| :: MatchesIn(f, 0, examined)[j] < read
    requires hits == HitsAt(f, MatchesIn(f, 0, examined), read)
    ensures IsCappedAnswer(f, maxHits, hits)
  {
    var n, c := |f.lines|, f.contextLines;
    var all, s := AllHits(f), Sub(read, c);
    var idx := MatchesIn(f, 0, n);
    MatchesInRange(f, 0, n);
    if s <= examined {
      MatchesSplit(f, 0, s, examined);
      MatchesSplit(f, 0, examined, n);
      MatchesInRange(f, s, examined);
      MatchesInRange(f, 0, s);
      MatchesSplit(f, 0, s, n);
      MatchesSplit(f, 0, s, Sub(n, c));
      forall j | 0 <= j < |hits| && j < maxHits ensures hits[j] == all[j] {
        assert MatchesIn(f, 0, examined)[j] == idx[j];
        if j < |MatchesIn(f, 0, s)| {
          HitSettled(f, idx[j], read, n);
        }
      }
      forall j | maxHits <= j < |hits| ensures SameButCut(hits[j], all[j]) {
        assert MatchesIn(f, 0, examined)[j] == idx[j];
        CutHit(f, idx[j], read);
      }
    }
  }

  lemma CutHit(f: Judged, i: nat, e: nat)
    requires f.Ok() && i < e <= |f.lines|
    ensures SameButCut(HitAt(f, i, e), HitAt(f, i, |f.lines|))
  {}
}
