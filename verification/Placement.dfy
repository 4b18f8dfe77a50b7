/** Choosing the worker on which a new archive is stored. */
module Placement {
  import opened Wrappers

  /** A node as last reported. `heartbeatAge` is in seconds. */
  datatype Node = Node(isWorker: bool, online: bool, heartbeatAge: real, readOnly: bool,
                       diskUsedMB: int, diskUsedPercent: real, diskFreeMB: int, storageUsedBytes: int, activeTasks: int)

  const MB: int := 1048576

  /** The node may take `requiredBytes`. */
  predicate Eligible(n: Node, requiredBytes: int) {
    && n.isWorker && n.online && n.heartbeatAge <= 15.0 && !n.readOnly
    && (requiredBytes > 0 && n.diskFreeMB > 0 ==> n.diskFreeMB > requiredBytes / MB)
  }

  /** The node reports how much of its disk is used. */
  predicate Reports(n: Node) {
    n.diskUsedMB > 0
  }

  /** Whether `a` is preferred to `b`. */
  predicate IsWorkerCapacityLower(a: Node, b: Node) {
    if Reports(a) && Reports(b) && a.diskUsedMB != b.diskUsedMB then a.diskUsedMB < b.diskUsedMB
    else if Reports(a) && Reports(b) && a.diskUsedPercent != b.diskUsedPercent
      then a.diskUsedPercent < b.diskUsedPercent
    else if a.storageUsedBytes != b.storageUsedBytes then a.storageUsedBytes < b.storageUsedBytes
    else if a.diskFreeMB != b.diskFreeMB then a.diskFreeMB > b.diskFreeMB
    else a.activeTasks < b.activeTasks
  }

  /** The eligible nodes, in order. */
  function Candidates(nodes: seq<Node>, requiredBytes: int): (cs: seq<Node>)
    ensures forall n :: n in cs <==> (n in nodes && Eligible(n, requiredBytes))
  {
    if nodes == [] then []
    else
      var last, init := nodes[|nodes| - 1], nodes[..|nodes| - 1];
      assert forall n :: n in nodes <==> n in init || n == last;
      Candidates(init, requiredBytes) + if Eligible(last, requiredBytes) then [last] else []
  }

  /** What is left when each candidate in turn replaces the best so far, if it is preferred. */
  function BestOf(cs: seq<Node>, n: nat): (b: nat)
    requires 0 < n <= |cs|
    ensures b < n
  {
    if n == 1 then 0
    else
      var b := BestOf(cs, n - 1);
      if IsWorkerCapacityLower(cs[n - 1], cs[b]) then n - 1 else b
  }

  method PickLowestUsageWorker(nodes: seq<Node>, requiredBytes: int) returns (r: Option<Node>)
    ensures r.None? <==> forall n | n in nodes :: !Eligible(n, requiredBytes)
    ensures r.None? <==> forall n | n in nodes ::
        && (n.isWorker && n.online && n.heartbeatAge <= 15.0 && !n.readOnly ==>
              requiredBytes > 0 && 0 < n.diskFreeMB && n.diskFreeMB * 1048576 <= requiredBytes)
    ensures r.Some? ==> r.value in nodes && Eligible(r.value, requiredBytes)
    ensures r.Some? ==>
      && r.value.isWorker && r.value.online && r.value.heartbeatAge <= 15.0 && !r.value.readOnly
      && (requiredBytes > 0 && r.value.diskFreeMB > 0 ==> r.value.diskFreeMB * 1048576 > requiredBytes)
    ensures r.Some? ==>
      var cs := Candidates(nodes, requiredBytes);
      cs != [] && r.value == cs[BestOf(cs, |cs|)]
  {
    var candidates: seq<Node> := [];
    for i := 0 to |nodes|
      invariant candidates == Candidates(nodes[..i], requiredBytes)
    {
      assert nodes[..i + 1][..i] == nodes[..i];
      var n := nodes[i];
      if !n.isWorker || !n.online {
        continue;
      }
      if n.heartbeatAge > 15.0 {
        continue;
      }
      if requiredBytes > 0 && n.diskFreeMB > 0 {
        var reqMB := requiredBytes / MB;
        if n.diskFreeMB <= reqMB {
          continue;
        }
      }
      if n.readOnly {
        continue;
      }
      candidates := candidates + [n];
    }
    assert nodes[..|nodes|] == nodes;
    if |candidates| == 0 {
      assert forall n | n in nodes :: n !in candidates;
      return None;
    }
    var best := candidates[0];
    for i := 1 to |candidates|
      invariant best == candidates[BestOf(candidates, i)]
    {
      var cur := candidates[i];
      if IsWorkerCapacityLower(cur, best) {
        best := cur;
      }
    }
    assert best in candidates;
    r := Some(best);
  }

  // ---- when the pick is the best

  /** No candidate is preferred to the picked one. */
  predicate PickIsMinimal(cs: seq<Node>)
    requires cs != []
  {
    forall i | 0 <= i < |cs| :: !IsWorkerCapacityLower(cs[i], cs[BestOf(cs, |cs|)])
  }

  /** The comparison by disk usage first, when `usage` is set, and then by the stored bytes, the
      free space and the tasks. */
  predicate Order(usage: bool, a: Node, b: Node) {
    if usage && a.diskUsedMB != b.diskUsedMB then a.diskUsedMB < b.diskUsedMB
    else if usage && a.diskUsedPercent != b.diskUsedPercent then a.diskUsedPercent < b.diskUsedPercent
    else if a.storageUsedBytes != b.storageUsedBytes then a.storageUsedBytes < b.storageUsedBytes
    else if a.diskFreeMB != b.diskFreeMB then a.diskFreeMB > b.diskFreeMB
    else a.activeTasks < b.activeTasks
  }

  /** Each of the two comparisons is a strict weak order. */
  lemma {:induction false} OrderIsWeak(usage: bool, a: Node, b: Node, c: Node)
    ensures !Order(usage, a, a)
    ensures Order(usage, a, b) && Order(usage, b, c) ==> Order(usage, a, c)
    ensures Order(usage, a, c) ==> Order(usage, a, b) || Order(usage, b, c)
  {}

  /** All candidates report their usage, or at most one does. */
  predicate Uniform(flags: seq<bool>) {
    || (forall i | 0 <= i < |flags| :: flags[i])
    || (forall i, j | 0 <= i < j < |flags| :: !(flags[i] && flags[j]))
  }

  function FlagsOf(cs: seq<Node>): (flags: seq<bool>)
    ensures |flags| == |cs|
  {
    seq(|cs|, i requires 0 <= i < |cs| => Reports(cs[i]))
  }

  /** Among uniform candidates the comparison is one and the same order. */
  ghost predicate Agrees(usage: bool, cs: seq<Node>) {
    forall i, j | 0 <= i < |cs| && 0 <= j < |cs| :: IsWorkerCapacityLower(cs[i], cs[j]) <==> Order(usage, cs[i], cs[j])
  }

  lemma {:induction false} UniformAgrees(cs: seq<Node>) returns (usage: bool)
    requires Uniform(FlagsOf(cs))
    ensures Agrees(usage, cs)
  {
    var flags := FlagsOf(cs);
    usage := forall i | 0 <= i < |flags| :: flags[i];
    forall i, j | 0 <= i < |cs| && 0 <= j < |cs|
      ensures IsWorkerCapacityLower(cs[i], cs[j]) <==> Order(usage, cs[i], cs[j])
    {
      assert flags[i] == Reports(cs[i]) && flags[j] == Reports(cs[j]);
    }
  }

  lemma {:induction false} BestIsMinimal(usage: bool, cs: seq<Node>, n: nat, i: nat)
    requires Agrees(usage, cs) && i < n <= |cs|
    ensures !IsWorkerCapacityLower(cs[i], cs[BestOf(cs, n)])
  {
    var b := BestOf(cs, n);
    OrderIsWeak(usage, cs[i], cs[i], cs[b]);
    if n > 1 {
      var b' := BestOf(cs, n - 1);
      OrderIsWeak(usage, cs[i], cs[n - 1], cs[b']);
      if i < n - 1 {
        BestIsMinimal(usage, cs, n - 1, i);
      }
    }
  }

  /** What the pick means: where all candidates report their usage none has less of its disk used;
      where none does, none has fewer bytes stored; and of those alike in that none is preferred
      for its free space. */
  lemma {:induction false} PickMeans(cs: seq<Node>, i: nat)
    requires i < |cs|
    ensures var best := cs[BestOf(cs, |cs|)];
      && ((forall n | n in cs :: n.diskUsedMB > 0) ==> best.diskUsedMB <= cs[i].diskUsedMB)
      && ((forall n | n in cs :: n.diskUsedMB <= 0) ==>
            && best.storageUsedBytes <= cs[i].storageUsedBytes
            && (best.storageUsedBytes == cs[i].storageUsedBytes ==> best.diskFreeMB >= cs[i].diskFreeMB)
            && (best.storageUsedBytes == cs[i].storageUsedBytes && best.diskFreeMB == cs[i].diskFreeMB ==>
                  best.activeTasks <= cs[i].activeTasks))
  {
    var flags := FlagsOf(cs);
    if (forall n | n in cs :: n.diskUsedMB > 0) || forall n | n in cs :: n.diskUsedMB <= 0 {
      assert forall k | 0 <= k < |cs| :: cs[k] in cs && flags[k] == Reports(cs[k]);
      var usage := UniformAgrees(cs);
      BestIsMinimal(usage, cs, |cs|, i);
      assert cs[i] in cs && cs[BestOf(cs, |cs|)] in cs;
    }
  }

  /** The same among candidates that use as much of their disks: the percentage decides next. */
  lemma {:induction false} PickByPercent(cs: seq<Node>, i: nat)
    requires i < |cs| && forall n | n in cs :: n.diskUsedMB > 0
    ensures var best := cs[BestOf(cs, |cs|)];
      best.diskUsedMB == cs[i].diskUsedMB ==> best.diskUsedPercent <= cs[i].diskUsedPercent
  {
    var flags := FlagsOf(cs);
    assert forall k | 0 <= k < |cs| :: cs[k] in cs && flags[k] == Reports(cs[k]);
    var usage := UniformAgrees(cs);
    BestIsMinimal(usage, cs, |cs|, i);
    assert cs[i] in cs && cs[BestOf(cs, |cs|)] in cs;
  }

  /** Candidates that compare in a circle: two report their usage and one does not. The one with
      less disk used has most bytes stored. All others are made worse than these three. */
  function Circle(flags: seq<bool>, r1: int, r2: int, n1: int): (cs: seq<Node>)
    ensures |cs| == |flags|
  {
    seq(|flags|, i requires 0 <= i < |flags| =>
      if i == r1 then Plain(1, 3)
      else if i == r2 then Plain(2, 1)
      else if i == n1 then Plain(0, 2)
      else if flags[i] then Plain(3, 4)
      else Plain(0, 4))
  }

  function Plain(diskUsedMB: int, storageUsedBytes: int): Node {
    Node(true, true, 0.0, false, diskUsedMB, 50.0, 1, storageUsedBytes, 0)
  }

  lemma {:induction false} CircleHasNoBest(flags: seq<bool>, r1: int, r2: int, n1: int, b: int)
    requires 0 <= r1 < r2 < |flags| && 0 <= n1 < |flags| && flags[r1] && flags[r2] && !flags[n1] && 0 <= b < |flags|
    ensures var cs := Circle(flags, r1, r2, n1);
      FlagsOf(cs) == flags && exists i :: 0 <= i < |cs| && IsWorkerCapacityLower(cs[i], cs[b])
  {
    var cs := Circle(flags, r1, r2, n1);
    assert IsWorkerCapacityLower(cs[if b == r1 then n1 else if b == r2 || flags[b] then r1 else r2], cs[b]);
  }

  /** The pick is a best candidate, whatever the nodes report, exactly when they report alike:
      all of them or at most one. */
  lemma {:induction false} PickIsMinimalExactly(flags: seq<bool>)
    requires flags != []
    ensures (forall cs | |cs| > 0 && FlagsOf(cs) == flags :: PickIsMinimal(cs)) <==> Uniform(flags)
  {
    if Uniform(flags) {
      forall cs | |cs| > 0 && FlagsOf(cs) == flags ensures PickIsMinimal(cs) {
        var usage := UniformAgrees(cs);
        forall i | 0 <= i < |cs| ensures !IsWorkerCapacityLower(cs[i], cs[BestOf(cs, |cs|)]) {
          BestIsMinimal(usage, cs, |cs|, i);
        }
      }
    } else {
      var n1 :| 0 <= n1 < |flags| && !flags[n1];
      var r1, r2 :| 0 <= r1 < r2 < |flags| && flags[r1] && flags[r2];
      var cs := Circle(flags, r1, r2, n1);
      CircleHasNoBest(flags, r1, r2, n1, BestOf(cs, |cs|));
    }
  }
}
