/** Thinning out a chart: the time window, and min/max sampling that keeps the extremes. */
module Downsample {
  datatype Series = Series(name: string, data: seq<real>)

  datatype Anomaly = Anomaly(index: int, detail: string)

  datatype Chart = Chart(x: seq<string>, series: seq<Series>, anomalies: seq<Anomaly>)

  ghost predicate Increasing(idx: seq<int>) {
    forall i, j | 0 <= i < j < |idx| :: idx[i] < idx[j]
  }

  ghost predicate Within(idx: seq<int>, n: int) {
    forall i | 0 <= i < |idx| :: 0 <= idx[i] < n
  }

  // ---- extremes

  predicate Finite(data: seq<real>, maxFloat: real) {
    forall i | 0 <= i < |data| :: -maxFloat <= data[i] <= maxFloat
  }

  ghost predicate IsMin(data: seq<real>, lo: int, hi: int, m: int) {
    0 <= lo <= m < hi <= |data| && forall i | lo <= i < hi :: data[m] <= data[i]
  }

  ghost predicate IsMax(data: seq<real>, lo: int, hi: int, m: int) {
    0 <= lo <= m < hi <= |data| && forall i | lo <= i < hi :: data[i] <= data[m]
  }

  /** Looks for the extremes of a bucket, starting from the largest and smallest float. */
  method FindExtremes(data: seq<real>, lo: int, hi: int, maxFloat: real) returns (minIdx: int, maxIdx: int)
    requires 0 <= lo < hi <= |data| && Finite(data, maxFloat)
    ensures IsMin(data, lo, hi, minIdx) && IsMax(data, lo, hi, maxIdx)
  {
    var minVal, maxVal := maxFloat, -maxFloat;
    minIdx, maxIdx := lo, lo;
    for i := lo to hi
      invariant lo <= minIdx < hi && lo <= maxIdx < hi
      invariant minVal == maxFloat || (minIdx < i && minVal == data[minIdx])
      invariant maxVal == -maxFloat || (maxIdx < i && maxVal == data[maxIdx])
      invariant forall j | lo <= j < i :: minVal <= data[j] <= maxVal
    {
      var v := data[i];
      if v < minVal {
        minVal, minIdx := v, i;
      }
      if v > maxVal {
        maxVal, maxIdx := v, i;
      }
    }
  }

  // ---- buckets

  /** The bounds of the buckets after rounding: from 0, not decreasing, up to the last point or
      beyond it. */
  ghost predicate AreBounds(bounds: seq<int>, n: int) {
    && |bounds| >= 2 && bounds[0] == 0 && n - 1 <= bounds[|bounds| - 1]
    && forall b | 0 <= b < |bounds| - 1 :: bounds[b] <= bounds[b + 1]
  }

  /** What the float product of a bucket's number and the bucket size may be: 0 for the first
      bucket, not decreasing, and short of `n` by at most 1 after the last. */
  ghost predicate RoundsProduct(product: nat -> real, n: nat, numBuckets: nat) {
    && product(0) == 0.0 && product(numBuckets) >= (n - 1) as real
    && forall b: nat | b < numBuckets :: product(b) <= product(b + 1)
  }

  /** The bounds that the products give. */
  function BoundsOf(product: nat -> real, numBuckets: nat): (bounds: seq<int>)
    ensures |bounds| == numBuckets + 1
  {
    seq(numBuckets + 1, b requires 0 <= b <= numBuckets => product(b).Floor)
  }

  lemma FloorMonotone(x: real, y: real)
    requires x <= y
    ensures x.Floor <= y.Floor
  {}

  lemma BoundsOfAreBounds(product: nat -> real, n: nat, numBuckets: nat)
    requires RoundsProduct(product, n, numBuckets) && numBuckets > 0
    ensures AreBounds(BoundsOf(product, numBuckets), n)
  {
    var bounds := BoundsOf(product, numBuckets);
    forall b | 0 <= b < numBuckets ensures bounds[b] <= bounds[b + 1] {
      FloorMonotone(product(b), product(b + 1));
    }
    FloorMonotone((n - 1) as real, product(numBuckets));
    assert ((n - 1) as real).Floor == n - 1;
  }

  /** The product without rounding errors. */
  function ExactProduct(n: nat, numBuckets: nat): nat -> real
    requires numBuckets > 0
  {
    (b: nat) => b as real * (n as real / numBuckets as real)
  }

  lemma ExactProductRounds(n: nat, numBuckets: nat)
    requires numBuckets > 0
    ensures RoundsProduct(ExactProduct(n, numBuckets), n, numBuckets)
  {
    var size := n as real / numBuckets as real;
    assert size >= 0.0;
    var product := ExactProduct(n, numBuckets);
    forall b: nat | b < numBuckets ensures product(b) <= product(b + 1) {
      assert product(b + 1) == b as real * size + size;
    }
    assert product(numBuckets) == n as real;
  }

  function ExactBounds(n: nat, numBuckets: nat): (bounds: seq<int>)
    requires numBuckets > 0
    ensures |bounds| == numBuckets + 1
  {
    seq(numBuckets + 1, b requires 0 <= b <= numBuckets => b * n / numBuckets)
  }

  /** Without rounding errors the bounds cut the points into buckets exactly. */
  lemma ExactBoundsAreBounds(n: nat, numBuckets: nat)
    requires numBuckets > 0
    ensures AreBounds(ExactBounds(n, numBuckets), n) && ExactBounds(n, numBuckets)[numBuckets] == n
  {
    var bounds := ExactBounds(n, numBuckets);
    forall b | 0 <= b < numBuckets ensures bounds[b] <= bounds[b + 1] {
      DivMonotone(b * n, (b + 1) * n, numBuckets);
    }
    DivExact(n, numBuckets);
  }

  lemma MulMonotone(a: int, b: int, d: nat)
    requires a <= b
    ensures a * d <= b * d
  {}

  lemma MulLess(a: int, b: int, d: nat)
    requires a * d < b * d
    ensures a < b
  {
    if b <= a {
      MulMonotone(b, a, d);
    }
  }

  lemma Quotient(x: nat, d: nat)
    requires d > 0
    ensures x / d * d <= x < (x / d + 1) * d
  {
    assert x == x / d * d + x % d;
  }

  lemma DivMonotone(x: nat, y: nat, d: nat)
    requires x <= y && d > 0
    ensures x / d <= y / d
  {
    Quotient(x, d);
    Quotient(y, d);
    MulLess(x / d, y / d + 1, d);
  }

  lemma DivExact(n: nat, d: nat)
    requires d > 0
    ensures d * n / d == n
  {
    Quotient(d * n, d);
    assert d * n == n * d;
    MulLess(d * n / d, n + 1, d);
    MulLess(n, d * n / d + 1, d);
  }

  function ClampTo(end: int, n: int): int {
    if end > n then n else end
  }

  /** The bucket `b` is empty, or its extremes are among the selected points. */
  ghost predicate BucketKept(data: seq<real>, bounds: seq<int>, b: int, selected: set<int>)
    requires 0 <= b < |bounds| - 1
  {
    var lo, hi := bounds[b], ClampTo(bounds[b + 1], |data|);
    || lo >= hi
    || ((exists m :: m in selected && IsMin(data, lo, hi, m)) && exists m :: m in selected && IsMax(data, lo, hi, m))
  }

  ghost predicate BucketsKept(data: seq<real>, bounds: seq<int>, upto: int, selected: set<int>) {
    forall b | 0 <= b < upto && b < |bounds| - 1 :: BucketKept(data, bounds, b, selected)
  }

  /** The point is an extreme of one of the buckets below `upto`. */
  ghost predicate BucketExtreme(data: seq<real>, bounds: seq<int>, upto: int, i: int) {
    exists b | 0 <= b < upto && b < |bounds| - 1 :: ExtremeAt(data, bounds, b, i)
  }

  ghost predicate ExtremeAt(data: seq<real>, bounds: seq<int>, b: int, i: int)
    requires 0 <= b < |bounds| - 1
  {
    ExtremeOf(data, bounds[b], bounds[b + 1], i)
  }

  ghost predicate ExtremeOf(data: seq<real>, bStart: int, bEnd: int, i: int) {
    IsMin(data, bStart, ClampTo(bEnd, |data|), i) || IsMax(data, bStart, ClampTo(bEnd, |data|), i)
  }

  lemma BoundsGrow(bounds: seq<int>, n: int, b: int)
    requires AreBounds(bounds, n) && 0 <= b < |bounds|
    ensures 0 <= bounds[b]
  {
    if b > 0 {
      BoundsGrow(bounds, n, b - 1);
    }
  }

  lemma AddOne(s: set<int>, x: int)
    ensures |s + {x}| <= |s| + 1
  {
    if x in s {
      assert s + {x} == s;
    }
  }

  lemma BucketsGrow(data: seq<real>, bounds: seq<int>, upto: int, s: set<int>, t: set<int>)
    requires BucketsKept(data, bounds, upto, s) && s <= t
    ensures BucketsKept(data, bounds, upto, t)
  {
    forall b | 0 <= b < upto && b < |bounds| - 1 ensures BucketKept(data, bounds, b, t) {
      assert BucketKept(data, bounds, b, s);
    }
  }

  /** Selects the extremes of one bucket, if it has points. */
  method SelectBucket(data: seq<real>, bStart: int, bEnd: int, selected0: set<int>, maxFloat: real)
    returns (selected: set<int>)
    requires 0 <= bStart && Finite(data, maxFloat) && forall i | i in selected0 :: 0 <= i < |data|
    ensures selected0 <= selected && (forall i | i in selected :: 0 <= i < |data|)
    ensures BucketKept(data, [bStart, bEnd], 0, selected)
    ensures forall i | i in selected :: i in selected0 || ExtremeOf(data, bStart, bEnd, i)
    ensures |selected| <= |selected0| + 2
  {
    var end := bEnd;
    if end > |data| {
      end := |data|;
    }
    if bStart >= end {
      return selected0;
    }
    var minIdx, maxIdx := FindExtremes(data, bStart, end, maxFloat);
    AddOne(selected0, minIdx);
    AddOne(selected0 + {minIdx}, maxIdx);
    selected := selected0 + {minIdx} + {maxIdx};
    assert minIdx in selected && maxIdx in selected;
  }

  lemma OneBucketMore(data: seq<real>, bounds: seq<int>, b: nat, s: set<int>, t: set<int>)
    requires BucketsKept(data, bounds, b, s) && s <= t && b < |bounds| - 1
    requires BucketKept(data, [bounds[b], bounds[b + 1]], 0, t)
    ensures BucketsKept(data, bounds, b + 1, t)
  {
    BucketsGrow(data, bounds, b, s, t);
    assert BucketKept(data, bounds, b, t);
  }

  lemma ExtremesGrow(data: seq<real>, bounds: seq<int>, b: nat, s0: set<int>, s: set<int>, t: set<int>)
    requires b < |bounds| - 1 && forall i | i in s :: i in s0 || BucketExtreme(data, bounds, b, i)
    requires forall i | i in t :: i in s || ExtremeOf(data, bounds[b], bounds[b + 1], i)
    ensures forall i | i in t :: i in s0 || BucketExtreme(data, bounds, b + 1, i)
  {
    forall i | i in t && i !in s0 ensures BucketExtreme(data, bounds, b + 1, i) {
      if i in s {
        var a :| 0 <= a < b && a < |bounds| - 1 && ExtremeAt(data, bounds, a, i);
        assert ExtremeAt(data, bounds, a, i);
      } else {
        assert ExtremeAt(data, bounds, b, i);
      }
    }
  }

  /** Selects the extremes of every bucket of one series. */
  method SelectExtremes(data: seq<real>, numBuckets: nat, product: nat -> real, selected0: set<int>, maxFloat: real)
    returns (selected: set<int>)
    requires numBuckets > 0 && RoundsProduct(product, |data|, numBuckets) && Finite(data, maxFloat)
    requires forall i | i in selected0 :: 0 <= i < |data|
    ensures selected0 <= selected && (forall i | i in selected :: 0 <= i < |data|)
    ensures BucketsKept(data, BoundsOf(product, numBuckets), numBuckets, selected)
    ensures forall i | i in selected ::
              i in selected0 || BucketExtreme(data, BoundsOf(product, numBuckets), numBuckets, i)
    ensures |selected| <= |selected0| + 2 * numBuckets
  {
    ghost var bounds := BoundsOf(product, numBuckets);
    BoundsOfAreBounds(product, |data|, numBuckets);
    selected := selected0;
    for b := 0 to numBuckets
      invariant selected0 <= selected && (forall i | i in selected :: 0 <= i < |data|)
      invariant BucketsKept(data, bounds, b, selected)
      invariant forall i | i in selected :: i in selected0 || BucketExtreme(data, bounds, b, i)
      invariant |selected| <= |selected0| + 2 * b
    {
      var bStart, bEnd := product(b).Floor, product(b + 1).Floor;
      assert bStart == bounds[b] && bEnd == bounds[b + 1];
      BoundsGrow(bounds, |data|, b);
      ghost var before := selected;
      selected := SelectBucket(data, bStart, bEnd, selected, maxFloat);
      OneBucketMore(data, bounds, b, before, selected);
      ExtremesGrow(data, bounds, b, selected0, before, selected);
    }
  }

  // ---- the selection

  /** How many series have a value for every point. */
  function FullSeries(series: seq<Series>, n: int): nat {
    if series == [] then 0
    else FullSeries(series[..|series| - 1], n) + if |series[|series| - 1].data| == n then 1 else 0
  }

  ghost predicate SeriesKept(series: seq<Series>, bounds: seq<int>, upto: int, n: int, selected: set<int>) {
    forall s | 0 <= s < upto && s < |series| && |series[s].data| == n ::
      BucketsKept(series[s].data, bounds, |bounds| - 1, selected)
  }

  ghost predicate AnomaliesSelected(anomalies: seq<Anomaly>, upto: int, n: int, selected: set<int>) {
    forall k | 0 <= k < upto && k < |anomalies| && 0 <= anomalies[k].index < n :: anomalies[k].index in selected
  }

  lemma KeptGrows(series: seq<Series>, bounds: seq<int>, upto: int, n: int, s: set<int>, t: set<int>)
    requires SeriesKept(series, bounds, upto, n, s) && s <= t
    ensures SeriesKept(series, bounds, upto, n, t)
  {
    forall k | 0 <= k < upto && k < |series| && |series[k].data| == n
      ensures BucketsKept(series[k].data, bounds, |bounds| - 1, t)
    {
      assert BucketsKept(series[k].data, bounds, |bounds| - 1, s);
      BucketsGrow(series[k].data, bounds, |bounds| - 1, s, t);
    }
  }

  /** The points that are kept: first, last, anomalies, and the extremes of every bucket. */
  ghost predicate Selection(resp: Chart, bounds: seq<int>, selected: set<int>) {
    var n := |resp.x|;
    && (forall i | i in selected :: 0 <= i < n)
    && 0 in selected && n - 1 in selected
    && AnomaliesSelected(resp.anomalies, |resp.anomalies|, n, selected)
    && SeriesKept(resp.series, bounds, |resp.series|, n, selected)
    && (forall i | i in selected :: Wanted(resp, bounds, i))
    && |selected| <= 2 + |resp.anomalies| + 2 * (|bounds| - 1) * FullSeries(resp.series, n)
  }

  /** Nothing else is kept. */
  ghost predicate Wanted(resp: Chart, bounds: seq<int>, i: int) {
    || i == 0 || i == |resp.x| - 1 || HasAnomalyAt(resp.anomalies, i)
    || SeriesExtreme(resp.series, bounds, |resp.series|, |resp.x|, i)
  }

  ghost predicate HasAnomalyAt(anomalies: seq<Anomaly>, i: int) {
    exists k :: 0 <= k < |anomalies| && anomalies[k].index == i
  }

  /** The point is an extreme of a bucket of a full series among the first `upto`. */
  ghost predicate SeriesExtreme(series: seq<Series>, bounds: seq<int>, upto: int, n: int, i: int) {
    exists s | 0 <= s < upto && s < |series| ::
      |series[s].data| == n && BucketExtreme(series[s].data, bounds, |bounds| - 1, i)
  }

  method SelectAnomalies(anomalies: seq<Anomaly>, n: int, selected0: set<int>) returns (selected: set<int>)
    requires forall i | i in selected0 :: 0 <= i < n
    ensures selected0 <= selected && (forall i | i in selected :: 0 <= i < n)
    ensures AnomaliesSelected(anomalies, |anomalies|, n, selected)
    ensures forall i | i in selected :: i in selected0 || HasAnomalyAt(anomalies, i)
    ensures |selected| <= |selected0| + |anomalies|
  {
    selected := selected0;
    for k := 0 to |anomalies|
      invariant selected0 <= selected && (forall i | i in selected :: 0 <= i < n)
      invariant AnomaliesSelected(anomalies, k, n, selected)
      invariant forall i | i in selected :: i in selected0 || HasAnomalyAt(anomalies, i)
      invariant |selected| <= |selected0| + k
    {
      var a := anomalies[k];
      if a.index >= 0 && a.index < n {
        AddOne(selected, a.index);
        selected := selected + {a.index};
      }
    }
  }

  /** What was added to `s0` are extremes of the first `upto` series. */
  ghost predicate OnlyExtremes(series: seq<Series>, bounds: seq<int>, upto: int, n: int, s0: set<int>, s: set<int>) {
    forall i | i in s :: i in s0 || SeriesExtreme(series, bounds, upto, n, i)
  }

  lemma SeriesSkipped(series: seq<Series>, bounds: seq<int>, k: nat, n: int, s0: set<int>, s: set<int>)
    requires OnlyExtremes(series, bounds, k, n, s0, s)
    ensures OnlyExtremes(series, bounds, k + 1, n, s0, s)
  {}

  lemma SeriesAdded(series: seq<Series>, bounds: seq<int>, k: nat, n: int, s0: set<int>, s: set<int>, t: set<int>)
    requires OnlyExtremes(series, bounds, k, n, s0, s) && k < |series| && |series[k].data| == n
    requires forall i | i in t :: i in s || BucketExtreme(series[k].data, bounds, |bounds| - 1, i)
    ensures OnlyExtremes(series, bounds, k + 1, n, s0, t)
  {}

  lemma Budget(buckets: nat, full: nat)
    ensures 2 * buckets * (full + 1) == 2 * buckets * full + 2 * buckets
  {}

  method SelectSeries(resp: Chart, numBuckets: nat, product: nat -> real, selected0: set<int>, maxFloat: real)
    returns (selected: set<int>)
    requires numBuckets > 0 && RoundsProduct(product, |resp.x|, numBuckets)
    requires forall s | 0 <= s < |resp.series| :: Finite(resp.series[s].data, maxFloat)
    requires forall i | i in selected0 :: 0 <= i < |resp.x|
    ensures selected0 <= selected && (forall i | i in selected :: 0 <= i < |resp.x|)
    ensures SeriesKept(resp.series, BoundsOf(product, numBuckets), |resp.series|, |resp.x|, selected)
    ensures OnlyExtremes(resp.series, BoundsOf(product, numBuckets), |resp.series|, |resp.x|, selected0, selected)
    ensures |selected| <= |selected0| + 2 * numBuckets * FullSeries(resp.series, |resp.x|)
  {
    var n := |resp.x|;
    ghost var bounds := BoundsOf(product, numBuckets);
    selected := selected0;
    for s := 0 to |resp.series|
      invariant selected0 <= selected && (forall i | i in selected :: 0 <= i < n)
      invariant SeriesKept(resp.series, bounds, s, n, selected)
      invariant OnlyExtremes(resp.series, bounds, s, n, selected0, selected)
      invariant |selected| <= |selected0| + 2 * numBuckets * FullSeries(resp.series[..s], n)
    {
      assert resp.series[..s + 1][..s] == resp.series[..s];
      if |resp.series[s].data| != n {
        SeriesSkipped(resp.series, bounds, s, n, selected0, selected);
        continue;
      }
      var before := selected;
      selected := SelectExtremes(resp.series[s].data, numBuckets, product, selected, maxFloat);
      KeptGrows(resp.series, bounds, s, n, before, selected);
      SeriesAdded(resp.series, bounds, s, n, selected0, before, selected);
      Budget(numBuckets, FullSeries(resp.series[..s], n));
    }
    assert resp.series[..|resp.series|] == resp.series;
  }

  // ---- the sampled chart

  ghost function Below(selected: set<int>, i: int): set<int> {
    set k | k in selected && k < i
  }

  lemma BelowStep(selected: set<int>, i: int)
    ensures Below(selected, i + 1) == if i in selected then Below(selected, i) + {i} else Below(selected, i)
  {}

  /** Sorts the selected indices. */
  method SortIndices(selected: set<int>, n: nat) returns (idx: seq<int>)
    requires forall i | i in selected :: 0 <= i < n
    ensures Increasing(idx) && Within(idx, n) && (forall i :: i in idx <==> i in selected)
    ensures |idx| == |selected|
  {
    idx := [];
    assert Below(selected, 0) == {};
    for i := 0 to n
      invariant SortedBelow(idx, selected, i)
    {
      SortStep(idx, selected, i);
      if i in selected {
        idx := idx + [i];
      }
    }
    assert Below(selected, n) == selected;
  }

  ghost predicate SortedBelow(idx: seq<int>, selected: set<int>, i: int) {
    && Increasing(idx) && Within(idx, i) && (forall k :: k in idx <==> k in Below(selected, i))
    && |idx| == |Below(selected, i)|
  }

  lemma SortStep(idx: seq<int>, selected: set<int>, i: nat)
    requires SortedBelow(idx, selected, i) && forall k | k in selected :: 0 <= k
    ensures SortedBelow(if i in selected then idx + [i] else idx, selected, i + 1)
  {
    BelowStep(selected, i);
    assert forall k :: k in idx + [i] <==> k in idx || k == i;
  }

  function Picked(data: seq<real>, idx: seq<int>): (r: seq<real>)
    requires forall i | 0 <= i < |idx| :: 0 <= idx[i]
    ensures |r| == |idx|
  {
    seq(|idx|, i requires 0 <= i < |idx| => if idx[i] < |data| then data[idx[i]] else 0.0)
  }

  method PickSeries(series: seq<Series>, idx: seq<int>) returns (newSeries: seq<Series>)
    requires forall i | 0 <= i < |idx| :: 0 <= idx[i]
    ensures |newSeries| == |series|
    ensures forall s | 0 <= s < |series| :: newSeries[s] == series[s].(data := Picked(series[s].data, idx))
  {
    newSeries := [];
    for sIdx := 0 to |series|
      invariant |newSeries| == sIdx
      invariant forall s | 0 <= s < sIdx :: newSeries[s] == series[s].(data := Picked(series[s].data, idx))
    {
      var s := series[sIdx];
      var data: seq<real> := [];
      for i := 0 to |idx|
        invariant data == Picked(s.data, idx)[..i]
      {
        var v := 0.0;
        if idx[i] < |s.data| {
          v := s.data[idx[i]];
        }
        data := data + [v];
      }
      newSeries := newSeries + [Series(s.name, data)];
    }
  }

  /** The anomalies at kept points, in order, each pointing to its place among them. */
  ghost predicate Remapped(anomalies: seq<Anomaly>, idx: seq<int>, out: seq<Anomaly>) {
    if anomalies == [] then out == []
    else
      var last, init := anomalies[|anomalies| - 1], anomalies[..|anomalies| - 1];
      if last.index in idx then
        && out != [] && Remapped(init, idx, out[..|out| - 1])
        && var a := out[|out| - 1];
           a.detail == last.detail && 0 <= a.index < |idx| && idx[a.index] == last.index
      else Remapped(init, idx, out)
  }

  method RemapAnomalies(anomalies: seq<Anomaly>, idx: seq<int>) returns (out: seq<Anomaly>)
    requires Increasing(idx)
    ensures Remapped(anomalies, idx, out)
  {
    var origToNewIndex: map<int, int> := map[];
    for newIdx := 0 to |idx|
      invariant forall o :: o in origToNewIndex <==> o in idx[..newIdx]
      invariant forall o | o in origToNewIndex :: 0 <= origToNewIndex[o] < |idx| && idx[origToNewIndex[o]] == o
    {
      origToNewIndex := origToNewIndex[idx[newIdx] := newIdx];
      assert idx[..newIdx + 1] == idx[..newIdx] + [idx[newIdx]];
    }
    assert idx[..|idx|] == idx;
    out := [];
    for k := 0 to |anomalies|
      invariant Remapped(anomalies[..k], idx, out)
    {
      assert anomalies[..k + 1][..k] == anomalies[..k];
      var a := anomalies[k];
      if a.index in origToNewIndex {
        ghost var before := out;
        out := out + [a.(index := origToNewIndex[a.index])];
        assert out[..|out| - 1] == before;
      }
    }
    assert anomalies[..|anomalies|] == anomalies;
  }

  /** What the sampled chart is: the points at `idx`, with every series and anomaly there. */
  ghost predicate SampledAt(resp: Chart, idx: seq<int>, out: Chart) {
    && Increasing(idx) && Within(idx, |resp.x|)
    && |out.x| == |idx| && (forall i | 0 <= i < |idx| :: out.x[i] == resp.x[idx[i]])
    && |out.series| == |resp.series|
    && (forall s | 0 <= s < |resp.series| :: out.series[s] == resp.series[s].(data := Picked(resp.series[s].data, idx)))
    && Remapped(resp.anomalies, idx, out.anomalies)
  }

  ghost predicate Members(idx: seq<int>, selected: set<int>) {
    |idx| == |selected| && forall i :: i in idx <==> i in selected
  }

  /** Samples a chart down to about `targetPoints` points; short charts and targets below 4 are
      left alone. `product` is the float product of a bucket's number and the bucket size. */
  method DownsampleMinMax(resp: Chart, targetPoints: int, product: nat -> real, maxFloat: real)
    returns (out: Chart, ghost idx: seq<int>, ghost selected: set<int>)
    requires |resp.x| > targetPoints >= 4 ==> RoundsProduct(product, |resp.x|, targetPoints / 2)
    requires forall s | 0 <= s < |resp.series| :: Finite(resp.series[s].data, maxFloat)
    ensures |resp.x| <= targetPoints || targetPoints < 4 ==> out == resp
    ensures |resp.x| > targetPoints >= 4 ==>
      && AreBounds(BoundsOf(product, targetPoints / 2), |resp.x|)
      && Selection(resp, BoundsOf(product, targetPoints / 2), selected)
      && Members(idx, selected) && SampledAt(resp, idx, out)
  {
    var n := |resp.x|;
    if n <= targetPoints || targetPoints < 4 {
      return resp, [], {};
    }
    BoundsOfAreBounds(product, n, targetPoints / 2);
    var chosen := {0, n - 1};
    ghost var ends := chosen;
    chosen := SelectAnomalies(resp.anomalies, n, chosen);
    ghost var marked := chosen;
    chosen := SelectSeries(resp, targetPoints / 2, product, chosen, maxFloat);
    selected := chosen;
    assert AnomaliesSelected(resp.anomalies, |resp.anomalies|, n, selected);
    var sortedIndices := SortIndices(chosen, n);
    idx := sortedIndices;
    var newX: seq<string> := [];
    for i := 0 to |sortedIndices|
      invariant |newX| == i && forall k | 0 <= k < i :: newX[k] == resp.x[sortedIndices[k]]
    {
      newX := newX + [resp.x[sortedIndices[i]]];
    }
    var newSeries := PickSeries(resp.series, sortedIndices);
    var newAnomalies := RemapAnomalies(resp.anomalies, sortedIndices);
    out := Chart(newX, newSeries, newAnomalies);
  }

  // ---- what sampling keeps

  /** The bucket that holds point `m`. */
  lemma {:induction false} BucketOf(bounds: seq<int>, n: int, m: int, upto: int) returns (b: int)
    requires AreBounds(bounds, n) && 0 <= m < n && 1 <= upto < |bounds| && m < bounds[upto]
    ensures 0 <= b < upto && bounds[b] <= m < ClampTo(bounds[b + 1], n)
  {
    if bounds[upto - 1] <= m {
      b := upto - 1;
    } else {
      b := BucketOf(bounds, n, m, upto - 1);
    }
  }

  lemma {:induction false} SomeMin(data: seq<real>, n: nat) returns (m: int)
    requires 0 < n <= |data|
    ensures IsMin(data, 0, n, m)
  {
    if n == 1 {
      m := 0;
    } else {
      m := SomeMin(data, n - 1);
      if data[n - 1] < data[m] {
        m := n - 1;
      }
    }
  }

  lemma {:induction false} SomeMax(data: seq<real>, n: nat) returns (m: int)
    requires 0 < n <= |data|
    ensures IsMax(data, 0, n, m)
  {
    if n == 1 {
      m := 0;
    } else {
      m := SomeMax(data, n - 1);
      if data[n - 1] > data[m] {
        m := n - 1;
      }
    }
  }

  /** The smallest and the largest value of every full series are among the kept points. */
  lemma {:induction false} ExtremesSurvive(resp: Chart, bounds: seq<int>, selected: set<int>, s: int)
    requires AreBounds(bounds, |resp.x|) && Selection(resp, bounds, selected)
    requires 0 <= s < |resp.series| && |resp.series[s].data| == |resp.x|
    ensures exists m :: m in selected && IsMin(resp.series[s].data, 0, |resp.x|, m)
    ensures exists m :: m in selected && IsMax(resp.series[s].data, 0, |resp.x|, m)
  {
    var data, n := resp.series[s].data, |resp.x|;
    var last := |bounds| - 1;
    var lo := SomeMin(data, n);
    var hi := SomeMax(data, n);
    assert BucketsKept(data, bounds, last, selected);
    if lo < bounds[last] {
      var b := BucketOf(bounds, n, lo, last);
      assert BucketKept(data, bounds, b, selected);
      BoundsGrow(bounds, n, b);
      var m :| m in selected && IsMin(data, bounds[b], ClampTo(bounds[b + 1], n), m);
      assert IsMin(data, 0, n, m);
    }
    if hi < bounds[last] {
      var b := BucketOf(bounds, n, hi, last);
      assert BucketKept(data, bounds, b, selected);
      BoundsGrow(bounds, n, b);
      var m :| m in selected && IsMax(data, bounds[b], ClampTo(bounds[b + 1], n), m);
      assert IsMax(data, 0, n, m);
    }
  }

  /** Every anomaly inside the chart survives, under the same label and the same values. */
  lemma {:induction false} AnomalySurvives(resp: Chart, idx: seq<int>, out: Chart, k: int) returns (j: int)
    requires SampledAt(resp, idx, out) && 0 <= k < |resp.anomalies| && resp.anomalies[k].index in idx
    ensures 0 <= j < |out.anomalies| && out.anomalies[j].detail == resp.anomalies[k].detail
    ensures var i, i' := resp.anomalies[k].index, out.anomalies[j].index;
      && 0 <= i' < |out.x| && 0 <= i < |resp.x| && out.x[i'] == resp.x[i]
      && forall s | 0 <= s < |resp.series| && i < |resp.series[s].data| ::
          out.series[s].data[i'] == resp.series[s].data[i]
  {
    j := RemappedEntry(resp.anomalies, idx, out.anomalies, k);
  }

  lemma {:induction false} RemappedEntry(anomalies: seq<Anomaly>, idx: seq<int>, out: seq<Anomaly>, k: int)
    returns (j: int)
    requires Remapped(anomalies, idx, out) && 0 <= k < |anomalies| && anomalies[k].index in idx
    ensures 0 <= j < |out| && out[j].detail == anomalies[k].detail
    ensures 0 <= out[j].index < |idx| && idx[out[j].index] == anomalies[k].index
    decreases |anomalies|
  {
    var n := |anomalies| - 1;
    if k == n {
      j := |out| - 1;
    } else if anomalies[n].index in idx {
      j := RemappedEntry(anomalies[..n], idx, out[..|out| - 1], k);
    } else {
      j := RemappedEntry(anomalies[..n], idx, out, k);
    }
  }

  lemma {:induction false} EndsAreExtremes(idx: seq<int>, i: nat)
    requires Increasing(idx) && i < |idx|
    ensures idx[0] <= idx[i] <= idx[|idx| - 1]
  {
    if 0 < i {
      assert idx[0] < idx[i];
    }
    if i < |idx| - 1 {
      assert idx[i] < idx[|idx| - 1];
    }
  }

  /** The first and the last point stay first and last. */
  lemma {:induction false} EndsSurvive(resp: Chart, bounds: seq<int>, selected: set<int>, idx: seq<int>, out: Chart)
    requires |resp.x| > 0 && Selection(resp, bounds, selected) && Members(idx, selected) && SampledAt(resp, idx, out)
    ensures |out.x| > 0 && idx[0] == 0 && idx[|idx| - 1] == |resp.x| - 1
    ensures |out.x| <= 2 + |resp.anomalies| + 2 * (|bounds| - 1) * FullSeries(resp.series, |resp.x|)
  {
    assert 0 in idx && |resp.x| - 1 in idx;
    var i :| 0 <= i < |idx| && idx[i] == 0;
    var j :| 0 <= j < |idx| && idx[j] == |resp.x| - 1;
    EndsAreExtremes(idx, i);
    EndsAreExtremes(idx, j);
  }
}
