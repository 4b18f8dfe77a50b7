/** The part of a chart inside a time window. */
module TimeWindow {
  import opened Downsample

  /** Byte-wise string order. */
  predicate Le(a: string, b: string) {
    if a == "" then true
    else if b == "" then false
    else if a[0] == b[0] then Le(a[1..], b[1..])
    else a[0] < b[0]
  }

  /** One text is at or before another when it begins it, or when at the first place where they
      differ its character is the smaller one. */
  lemma {:induction false} LeByFirstDifference(a: string, b: string)
    ensures Le(a, b) <==> a <= b || exists k: nat :: FirstDifference(a, b, k) && a[k] < b[k]
  {
    if a != "" && b != "" {
      if a[0] == b[0] {
        LeByFirstDifference(a[1..], b[1..]);
        DifferenceMoves(a, b);
        if k: nat :| FirstDifference(a[1..], b[1..], k) && a[1..][k] < b[1..][k] {
          assert FirstDifference(a, b, k + 1) && a[k + 1] < b[k + 1];
        }
        if k: nat :| FirstDifference(a, b, k) && a[k] < b[k] {
          assert k > 0;
          assert FirstDifference(a[1..], b[1..], k - 1) && a[1..][k - 1] < b[1..][k - 1];
        }
      } else {
        assert FirstDifference(a, b, 0);
      }
    }
  }

  ghost predicate FirstDifference(a: string, b: string, k: nat) {
    k < |a| && k < |b| && a[k] != b[k] && a[..k] == b[..k]
  }

  lemma DifferenceMoves(a: string, b: string)
    requires a != "" && b != "" && a[0] == b[0]
    ensures a <= b <==> a[1..] <= b[1..]
    ensures forall k: nat :: FirstDifference(a[1..], b[1..], k) <==> FirstDifference(a, b, k + 1)
  {
    assert a == [a[0]] + a[1..] && b == [b[0]] + b[1..];
    forall k: nat ensures FirstDifference(a[1..], b[1..], k) <==> FirstDifference(a, b, k + 1) {
      if k < |a[1..]| && k < |b[1..]| {
        assert a[..k + 1] == [a[0]] + a[1..][..k] && b[..k + 1] == [b[0]] + b[1..][..k];
        assert a[..k + 1][1..] == a[1..][..k] && b[..k + 1][1..] == b[1..][..k];
      }
    }
  }

  lemma {:induction false} LeTransitive(a: string, b: string, c: string)
    requires Le(a, b) && Le(b, c)
    ensures Le(a, c)
    decreases |a|
  {
    if a != "" && a[0] == b[0] == c[0] {
      LeTransitive(a[1..], b[1..], c[1..]);
    }
  }

  ghost predicate Sorted(x: seq<string>) {
    forall i, j | 0 <= i <= j < |x| :: Le(x[i], x[j])
  }

  /** The point lies in the window; an empty bound is no bound. */
  predicate InWindow(x: seq<string>, i: int, startTime: string, endTime: string)
    requires 0 <= i < |x|
  {
    (startTime == "" || Le(startTime, x[i])) && (endTime == "" || Le(x[i], endTime))
  }

  /** Where the slice starts: the first label at or after the start of the window, or the first
      of all when there is none. */
  ghost predicate StartsAt(x: seq<string>, startTime: string, i: int) {
    if startTime == "" || (forall k | 0 <= k < |x| :: !Le(startTime, x[k])) then i == 0
    else 0 <= i < |x| && Le(startTime, x[i]) && forall k | 0 <= k < i :: !Le(startTime, x[k])
  }

  /** Where it ends: the last label at or before the end of the window, or the last of all. */
  ghost predicate EndsAt(x: seq<string>, endTime: string, i: int) {
    if endTime == "" || (forall k | 0 <= k < |x| :: !Le(x[k], endTime)) then i == |x| - 1
    else 0 <= i < |x| && Le(x[i], endTime) && forall k | i < k < |x| :: !Le(x[k], endTime)
  }

  method FindWindow(x: seq<string>, startTime: string, endTime: string) returns (startIdx: int, endIdx: int)
    requires |x| > 0
    ensures 0 <= startIdx < |x| && 0 <= endIdx < |x|
    ensures StartsAt(x, startTime, startIdx) && EndsAt(x, endTime, endIdx)
  {
    var n := |x|;
    startIdx, endIdx := 0, n - 1;
    if startTime != "" {
      for i := 0 to n
        invariant startIdx == 0 && forall k | 0 <= k < i :: !Le(startTime, x[k])
      {
        if Le(startTime, x[i]) {
          startIdx := i;
          break;
        }
      }
    }
    if endTime != "" {
      for i := n downto 0
        invariant endIdx == n - 1 && forall k | i <= k < n :: !Le(x[k], endTime)
      {
        if Le(x[i], endTime) {
          endIdx := i;
          break;
        }
      }
    }
  }

  /** The values between two points, as far as the series has them. */
  function Cut(data: seq<real>, a: int, b: int): seq<real>
    requires 0 <= a <= b
  {
    if |data| >= b + 1 then data[a..b + 1]
    else if |data| > a then data[a..]
    else []
  }

  /** The anomalies between two points, counted from the first. */
  function Shifted(anomalies: seq<Anomaly>, a: int, b: int): seq<Anomaly> {
    if anomalies == [] then []
    else
      var n := |anomalies| - 1;
      Shifted(anomalies[..n], a, b)
        + if a <= anomalies[n].index <= b then [anomalies[n].(index := anomalies[n].index - a)] else []
  }

  /** A value stays at its label; a full series stays full. */
  lemma ValuesKeepLabel(x: seq<string>, data: seq<real>, a: int, b: int, i: int)
    requires 0 <= a <= b < |x| && a <= i <= b && i < |data|
    ensures i - a < |Cut(data, a, b)| && Cut(data, a, b)[i - a] == data[i] && x[a..b + 1][i - a] == x[i]
    ensures |data| == |x| ==> |Cut(data, a, b)| == |x[a..b + 1]|
  {}

  /** Which anomalies lie between two points. */
  ghost function Between(anomalies: seq<Anomaly>, a: int, b: int): set<nat> {
    set k: nat | k < |anomalies| && a <= anomalies[k].index <= b
  }

  lemma BetweenLast(anomalies: seq<Anomaly>, a: int, b: int)
    requires anomalies != []
    ensures var n := |anomalies| - 1;
            Between(anomalies, a, b)
            == Between(anomalies[..n], a, b) + if a <= anomalies[n].index <= b then {n} else {}
  {}

  /** The slice has as many anomalies as lie between the two points, */
  lemma {:induction false} AsManyAnomalies(anomalies: seq<Anomaly>, a: int, b: int)
    ensures |Shifted(anomalies, a, b)| == |Between(anomalies, a, b)|
  {
    if anomalies != [] {
      AsManyAnomalies(anomalies[..|anomalies| - 1], a, b);
      BetweenLast(anomalies, a, b);
    }
  }

  /** each of those among them, at the label it had. */
  lemma {:induction false} AnomalyKeepsLabel(x: seq<string>, anomalies: seq<Anomaly>, a: int, b: int, k: int)
    requires 0 <= a <= b < |x| && k in Between(anomalies, a, b)
    ensures var an := anomalies[k].(index := anomalies[k].index - a);
            an in Shifted(anomalies, a, b) && x[a..b + 1][an.index] == x[anomalies[k].index]
  {
    var n := |anomalies| - 1;
    if k < n {
      assert anomalies[..n][k] == anomalies[k];
      AnomalyKeepsLabel(x, anomalies[..n], a, b, k);
    }
  }

  /** The chart from point `a` to point `b`. */
  ghost predicate CutTo(resp: Chart, a: int, b: int, out: Chart) {
    && 0 <= a <= b < |resp.x|
    && out.x == resp.x[a..b + 1]
    && |out.series| == |resp.series|
    && (forall s | 0 <= s < |resp.series| :: out.series[s] == resp.series[s].(data := Cut(resp.series[s].data, a, b)))
    && out.anomalies == Shifted(resp.anomalies, a, b)
  }

  method SliceByTimeWindow(resp: Chart, startTime: string, endTime: string)
    returns (out: Chart, ghost a: int, ghost b: int)
    ensures resp.x == [] ==> out == resp
    ensures resp.x != [] ==> StartsAt(resp.x, startTime, a) && EndsAt(resp.x, endTime, b)
    ensures resp.x != [] ==> if a > b then out == resp else CutTo(resp, a, b, out)
  {
    var n := |resp.x|;
    if n == 0 {
      return resp, 0, 0;
    }
    var startIdx, endIdx := FindWindow(resp.x, startTime, endTime);
    a, b := startIdx, endIdx;
    if startIdx > endIdx {
      return resp, a, b;
    }
    var slicedSeries: seq<Series> := [];
    for sIdx := 0 to |resp.series|
      invariant |slicedSeries| == sIdx
      invariant forall s | 0 <= s < sIdx :: slicedSeries[s] == resp.series[s].(data := Cut(resp.series[s].data, a, b))
    {
      var s := resp.series[sIdx];
      var data: seq<real> := [];
      if |s.data| >= endIdx + 1 {
        data := s.data[startIdx..endIdx + 1];
      } else if |s.data| > startIdx {
        data := s.data[startIdx..];
      }
      slicedSeries := slicedSeries + [Series(s.name, data)];
    }
    var slicedAnomalies: seq<Anomaly> := [];
    for k := 0 to |resp.anomalies|
      invariant slicedAnomalies == Shifted(resp.anomalies[..k], a, b)
    {
      assert resp.anomalies[..k + 1][..k] == resp.anomalies[..k];
      var an := resp.anomalies[k];
      if an.index >= startIdx && an.index <= endIdx {
        slicedAnomalies := slicedAnomalies + [an.(index := an.index - startIdx)];
      }
    }
    assert resp.anomalies[..|resp.anomalies|] == resp.anomalies;
    out := Chart(resp.x[startIdx..endIdx + 1], slicedSeries, slicedAnomalies);
  }

  /** The points that a slice keeps: those between the two ends, or all when the ends cross. */
  predicate Kept(n: int, a: int, b: int, i: int) {
    if a > b then 0 <= i < n else a <= i <= b
  }

  /** With labels in order, a slice keeps exactly the points in the window when there are any;
      when there are none it keeps others. */
  lemma {:induction false} SliceIsWindow(x: seq<string>, startTime: string, endTime: string, a: int, b: int)
    requires |x| > 0 && Sorted(x) && StartsAt(x, startTime, a) && EndsAt(x, endTime, b)
    ensures (forall i | 0 <= i < |x| :: Kept(|x|, a, b, i) <==> InWindow(x, i, startTime, endTime))
       <==> exists i :: 0 <= i < |x| && InWindow(x, i, startTime, endTime)
  {
    if m :| 0 <= m < |x| && InWindow(x, m, startTime, endTime) {
      forall i | 0 <= i < |x| ensures Kept(|x|, a, b, i) <==> InWindow(x, i, startTime, endTime) {
        OrderedAround(x, startTime, endTime, a, b, i);
        OrderedAround(x, startTime, endTime, a, b, m);
      }
    } else {
      var i := if a > b then 0 else a;
      assert Kept(|x|, a, b, i) && !InWindow(x, i, startTime, endTime);
    }
  }

  lemma {:induction false} OrderedAround(x: seq<string>, startTime: string, endTime: string, a: int, b: int, i: int)
    requires Sorted(x) && StartsAt(x, startTime, a) && EndsAt(x, endTime, b) && 0 <= i < |x|
    ensures startTime != "" && (exists k :: 0 <= k < |x| && Le(startTime, x[k])) ==> (Le(startTime, x[i]) <==> a <= i)
    ensures endTime != "" && (exists k :: 0 <= k < |x| && Le(x[k], endTime)) ==> (Le(x[i], endTime) <==> i <= b)
  {
    if a <= i {
      LeTransitiveIf(startTime, x[a], x[i]);
    }
    if i <= b {
      LeTransitiveIf(x[i], x[b], endTime);
    }
  }

  lemma {:induction false} LeTransitiveIf(a: string, b: string, c: string)
    ensures Le(a, b) && Le(b, c) ==> Le(a, c)
  {
    if Le(a, b) && Le(b, c) {
      LeTransitive(a, b, c);
    }
  }
}
