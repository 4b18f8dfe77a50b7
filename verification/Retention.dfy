/** Automatic cleaning: archives past their keeping time go, and when a node's disk fills up its
    oldest archives go until enough is free. Protected archives stay. */
module Retention {
  import opened Wrappers

  datatype Archive = Archive(id: int, nodeId: int, pinned: bool, tags: seq<string>, uploadTime: int, size: nat)

  datatype Config = Config(autoClean: bool, retentionDays: int, exemptTags: seq<string>, emergency: int, target: int)

  datatype Node = Node(id: int, online: bool, usedPercent: real, usedMB: int, totalMB: int)

  /** How tags are compared: what is left of them after trimming, and when two of those are the
      same up to case. */
  datatype Tags = Tags(trim: string -> string, same: (string, string) -> bool)

  const MB: int := 1048576

  // ---- protection

  predicate TagExempts(t: Tags, tag: string, exemptTags: seq<string>) {
    && t.trim(tag) != ""
    && exists j :: 0 <= j < |exemptTags| && t.trim(exemptTags[j]) != "" && t.same(t.trim(tag), t.trim(exemptTags[j]))
  }

  /** Pinned, or carrying one of the protected tags. */
  predicate Exempt(t: Tags, arc: Archive, cfg: Config) {
    arc.pinned || exists i :: 0 <= i < |arc.tags| && TagExempts(t, arc.tags[i], cfg.exemptTags)
  }

  lemma TagsExempt(t: Tags, tags: seq<string>, exemptTags: seq<string>)
    ensures (exists i :: 0 <= i < |tags| && TagExempts(t, tags[i], exemptTags))
       <==> exists tag, ex | tag in tags && ex in exemptTags ::
              t.trim(tag) != "" && t.trim(ex) != "" && t.same(t.trim(tag), t.trim(ex))
  {
    if i :| 0 <= i < |tags| && TagExempts(t, tags[i], exemptTags) {
      var j :| 0 <= j < |exemptTags| && t.trim(exemptTags[j]) != "" && t.same(t.trim(tags[i]), t.trim(exemptTags[j]));
      assert tags[i] in tags && exemptTags[j] in exemptTags;
    }
  }

  method IsArchiveExemptFromAutoClean(t: Tags, arc: Option<Archive>, cfg: Option<Config>) returns (r: bool)
    ensures r <==> (arc.None? || arc.value.pinned || (cfg.Some? && Exempt(t, arc.value, cfg.value)))
    ensures r <==> (arc.None? || arc.value.pinned
      || (cfg.Some? && exists tag, ex | tag in arc.value.tags && ex in cfg.value.exemptTags ::
            t.trim(tag) != "" && t.trim(ex) != "" && t.same(t.trim(tag), t.trim(ex))))
  {
    if arc.Some? && cfg.Some? {
      TagsExempt(t, arc.value.tags, cfg.value.exemptTags);
    }
    if arc.None? {
      return true;
    }
    if arc.value.pinned {
      return true;
    }
    if cfg.Some? && |cfg.value.exemptTags| > 0 && |arc.value.tags| > 0 {
      var tags, exemptTags := arc.value.tags, cfg.value.exemptTags;
      for i := 0 to |tags|
        invariant forall k | 0 <= k < i :: !TagExempts(t, tags[k], exemptTags)
      {
        var tag := t.trim(tags[i]);
        if tag == "" {
          continue;
        }
        for j := 0 to |exemptTags|
          invariant forall k | 0 <= k < j :: !(t.trim(exemptTags[k]) != "" && t.same(tag, t.trim(exemptTags[k])))
        {
          var ex := t.trim(exemptTags[j]);
          if ex != "" && t.same(tag, ex) {
            assert TagExempts(t, tags[i], exemptTags);
            return true;
          }
        }
      }
    }
    r := false;
  }

  // ---- the watermark

  function SizeMB(arc: Archive): nat {
    arc.size / MB
  }

  /** The estimated usage after the deletable ones of the first `k` archives are gone. */
  function UsedAfter(used: int, arcs: seq<Archive>, deletes: int -> bool, k: nat): int
    requires k <= |arcs|
  {
    if k == 0 then used
    else
      var before := UsedAfter(used, arcs, deletes, k - 1);
      if !deletes(arcs[k - 1].id) then before
      else if before - SizeMB(arcs[k - 1]) < 0 then 0
      else before - SizeMB(arcs[k - 1])
  }

  /** The usage is at the target or below. */
  predicate AtTarget(used: int, totalMB: int, target: int) {
    used * 100 <= target * totalMB
  }

  /** The pass stops after `k` archives: not earlier, and only at the target or at the end. */
  ghost predicate StopsAfter(used: int, arcs: seq<Archive>, deletes: int -> bool, totalMB: int, target: int, k: int) {
    && 0 <= k <= |arcs|
    && (forall j | 0 <= j < k :: !AtTarget(UsedAfter(used, arcs, deletes, j), totalMB, target))
    && (k == |arcs| || AtTarget(UsedAfter(used, arcs, deletes, k), totalMB, target))
  }

  ghost function Removed(arcs: seq<Archive>, deletes: int -> bool, k: nat): set<int>
    requires k <= |arcs|
  {
    set i | 0 <= i < k && deletes(arcs[i].id) :: arcs[i].id
  }

  /** What the deletable ones of the first `k` archives take up, in whole megabytes each. */
  function FreedMB(arcs: seq<Archive>, deletes: int -> bool, k: nat): nat
    requires k <= |arcs|
  {
    if k == 0 then 0
    else FreedMB(arcs, deletes, k - 1) + if deletes(arcs[k - 1].id) then arcs[k - 1].size / 1048576 else 0
  }

  /** The estimate is what is left of the usage, but not below 0. */
  lemma {:induction false} UsedIsRest(used: int, arcs: seq<Archive>, deletes: int -> bool, k: nat)
    requires used >= 0 && k <= |arcs|
    ensures UsedAfter(used, arcs, deletes, k)
         == if used < FreedMB(arcs, deletes, k) then 0 else used - FreedMB(arcs, deletes, k)
  {
    if k != 0 {
      UsedIsRest(used, arcs, deletes, k - 1);
    }
  }

  lemma {:induction false} FreedGrows(arcs: seq<Archive>, deletes: int -> bool, j: nat, k: nat)
    requires j <= k <= |arcs|
    ensures FreedMB(arcs, deletes, j) <= FreedMB(arcs, deletes, k)
    decreases k
  {
    if j < k {
      FreedGrows(arcs, deletes, j, k - 1);
    }
  }

  /** The pass deals with the shortest run of the oldest archives that brings the usage down to the
      target percentage of the disk: that run is enough, unless it is all there are, and no
      shorter one is. Archives that cannot be deleted free nothing. */
  lemma {:induction false} ShortestRun(used: int, arcs: seq<Archive>, deletes: int -> bool, totalMB: int, target: int,
                                       k: int, j: nat)
    requires totalMB > 0 && target > 0 && StopsAfter(used, arcs, deletes, totalMB, target, k) && j <= |arcs|
    ensures j < k ==> (used - FreedMB(arcs, deletes, j)) * 100 > target * totalMB
    ensures k <= j && k < |arcs| ==> (used - FreedMB(arcs, deletes, j)) * 100 <= target * totalMB
  {
    PositiveTarget(target, totalMB);
    if used < 0 {
      assert k > 0 ==> !AtTarget(UsedAfter(used, arcs, deletes, 0), totalMB, target);
    } else {
      UsedIsRest(used, arcs, deletes, j);
      UsedIsRest(used, arcs, deletes, k);
      if j >= k {
        FreedGrows(arcs, deletes, k, j);
      }
    }
  }

  /** `k` archives are enough for the node, or are all there are, and one fewer is not enough. */
  predicate Enough(node: Node, arcs: seq<Archive>, deletes: int -> bool, target: int, k: nat)
    requires k <= |arcs|
  {
    && (k < |arcs| ==> (node.usedMB - FreedMB(arcs, deletes, k)) * 100 <= target * node.totalMB)
    && (k > 0 ==> (node.usedMB - FreedMB(arcs, deletes, k - 1)) * 100 > target * node.totalMB)
  }

  lemma EnoughIsRemoved(node: Node, arcs: seq<Archive>, deletes: int -> bool, target: int, k: int)
    requires node.totalMB > 0 && target > 0 && StopsAfter(node.usedMB, arcs, deletes, node.totalMB, target, k)
    ensures Enough(node, arcs, deletes, target, k)
  {
    ShortestRun(node.usedMB, arcs, deletes, node.totalMB, target, k, k);
    if k > 0 {
      ShortestRun(node.usedMB, arcs, deletes, node.totalMB, target, k, k - 1);
    }
  }

  lemma {:induction false} PositiveTarget(target: int, totalMB: int)
    requires target > 0 && totalMB > 0
    ensures target * totalMB > 0
  {}

  // ---- the store

  ghost predicate OldestFirst(arcs: seq<Archive>) {
    forall i, j | 0 <= i < j < |arcs| :: arcs[i].uploadTime <= arcs[j].uploadTime
  }

  /** Any sort by upload time; archives of the same time come in any order. */
  ghost predicate SortsByTime(sort: seq<Archive> -> seq<Archive>) {
    forall arcs :: multiset(sort(arcs)) == multiset(arcs) && OldestFirst(sort(arcs))
  }

  ghost predicate ListsOnce(arcs: seq<Archive>, stored: map<int, Archive>, want: Archive -> bool) {
    && (forall i | 0 <= i < |arcs| :: arcs[i].id in stored && stored[arcs[i].id] == arcs[i] && want(arcs[i]))
    && (forall id | id in stored && want(stored[id]) :: stored[id] in arcs)
    && forall i, j | 0 <= i < j < |arcs| :: arcs[i] != arcs[j]
  }

  function Any(): Archive -> bool {
    (arc: Archive) => true
  }

  function OnNode(nodeId: int): Archive -> bool {
    (arc: Archive) => arc.nodeId == nodeId
  }

  function CleanableOn(t: Tags, cfg: Config, nodeId: int): Archive -> bool {
    (arc: Archive) => arc.nodeId == nodeId && !Exempt(t, arc, cfg)
  }

  function ExpiredAndDeleted(t: Tags, cfg: Config, cutoff: int, deletes: int -> bool): Archive -> bool {
    (arc: Archive) => Expired(t, cfg, cutoff, arc) && deletes(arc.id)
  }

  method PickOne(ids: set<int>) returns (id: int)
    requires ids != {}
    ensures id in ids
  {
    SomeMember(ids);
    id :| id in ids;
  }

  lemma {:induction false} SomeMember(ids: set<int>)
    ensures ids == {} || exists id :: id in ids
  {
    if forall id :: id !in ids {
      assert ids == {};
    }
  }

  class ArchiveStore {
    var stored: map<int, Archive>

    ghost predicate Valid()
      reads this
    {
      forall id | id in stored :: stored[id].id == id
    }

    constructor ()
      ensures Valid() && stored == map[]
    {
      stored := map[];
    }

    /** The archives wanted, in some order. */
    method ListArchives(want: Archive -> bool) returns (arcs: seq<Archive>)
      requires Valid()
      ensures ListsOnce(arcs, stored, want)
    {
      arcs := [];
      var todo := stored.Keys;
      while todo != {}
        invariant todo <= stored.Keys
        invariant forall i | 0 <= i < |arcs| ::
            arcs[i].id in stored && arcs[i].id !in todo && stored[arcs[i].id] == arcs[i] && want(arcs[i])
        invariant forall id | id in stored && id !in todo && want(stored[id]) :: stored[id] in arcs
        invariant forall i, j | 0 <= i < j < |arcs| :: arcs[i] != arcs[j]
        decreases |todo|
      {
        var id := PickOne(todo);
        todo := todo - {id};
        if want(stored[id]) {
          arcs := arcs + [stored[id]];
        }
      }
    }

    method DeleteArchiveStorageAndMeta(arc: Archive, succeeds: bool) returns (ok: bool)
      requires Valid()
      modifies this
      ensures Valid() && ok == succeeds
      ensures stored == if succeeds then old(stored) - {arc.id} else old(stored)
    {
      ok := succeeds;
      if succeeds {
        stored := stored - {arc.id};
      }
    }

    /** Removes exactly the unprotected archives uploaded before the cutoff, as far as deleting
        them succeeds. */
    method CleanExpired(t: Tags, cfg: Config, cutoff: int, deletes: int -> bool)
      requires Valid()
      modifies this
      ensures Valid()
      ensures stored == Without(old(stored), ExpiredAndDeleted(t, cfg, cutoff, deletes))
      ensures forall id | id in old(stored) :: id !in stored <==>
                (old(stored)[id].uploadTime < cutoff && !Exempt(t, old(stored)[id], cfg) && deletes(id))
    {
      var archives := ListArchives(Any());
      ghost var before := stored;
      for i := 0 to |archives|
        invariant Valid()
        invariant forall id :: id in stored <==>
          id in before && !(before[id] in archives[..i] && Expired(t, cfg, cutoff, before[id]) && deletes(id))
        invariant forall id | id in stored :: stored[id] == before[id]
      {
        var arc := archives[i];
        var exempt := IsArchiveExemptFromAutoClean(t, Some(arc), Some(cfg));
        if !exempt && arc.uploadTime < cutoff {
          var ok := DeleteArchiveStorageAndMeta(arc, deletes(arc.id));
        }
        assert archives[..i + 1] == archives[..i] + [arc];
      }
      assert archives[..|archives|] == archives;
      ghost var gone := ExpiredAndDeleted(t, cfg, cutoff, deletes);
      forall id | id in before ensures gone(before[id]) <==> id !in stored {
        assert Any()(before[id]);
        assert before[id] in archives && before[id].id == id;
        assert gone(before[id]) <==> Expired(t, cfg, cutoff, before[id]) && deletes(id);
      }
      WithoutIs(before, stored, gone);
    }

    /** One node's pass: its unprotected archives go, oldest first, until the estimated usage is
        at the target. */
    method CleanNode(t: Tags, cfg: Config, node: Node, target: int, deletes: int -> bool,
                     sort: seq<Archive> -> seq<Archive>)
      returns (ghost candidates: seq<Archive>, ghost k: int)
      requires Valid() && SortsByTime(sort)
      modifies this
      ensures Valid()
      ensures node.totalMB <= 0 ==> stored == old(stored)
      ensures node.totalMB > 0 ==>
        && ListsOnce(candidates, old(stored), CleanableOn(t, cfg, node.id))
        && OldestFirst(candidates)
        && StopsAfter(node.usedMB, candidates, deletes, node.totalMB, target, k)
        && stored == old(stored) - Removed(candidates, deletes, k)
      ensures node.totalMB > 0 ==>
        && (forall a | a in candidates :: a.id in old(stored) && old(stored)[a.id] == a)
        && (forall id | id in old(stored) :: old(stored)[id] in candidates
              <==> (old(stored)[id].nodeId == node.id && !Exempt(t, old(stored)[id], cfg)))
        && (forall i, j | 0 <= i < j < |candidates| :: candidates[i].uploadTime <= candidates[j].uploadTime)
        && (forall id | id in old(stored) ::
              id in stored <==> !(deletes(id) && exists i :: 0 <= i < k && i < |candidates| && candidates[i].id == id))
      ensures node.totalMB > 0 && target > 0 ==> 0 <= k <= |candidates| && Enough(node, candidates, deletes, target, k)
    {
      var nodeArchives := ListArchives(OnNode(node.id));
      var unsorted := Unprotected(t, cfg, nodeArchives);
      candidates, k := [], 0;
      if node.totalMB <= 0 {
        return;
      }
      var sorted := sort(unsorted);
      KeepListed(nodeArchives, unsorted, stored, OnNode(node.id), CleanableOn(t, cfg, node.id));
      SameListed(unsorted, sorted, stored, CleanableOn(t, cfg, node.id));
      candidates := sorted;
      ListedAre(sorted, stored, t, cfg, node.id);
      k := RemoveOldest(sorted, node.usedMB, node.totalMB, target, deletes);
      if target > 0 {
        EnoughIsRemoved(node, sorted, deletes, target, k);
      }
    }

    /** One cycle: the expired archives go, then every node over its emergency mark is cleaned
        in turn, oldest archives first, down to the target. Nothing is added or altered, and
        nothing protected goes. */
    method RunRetentionCycle(t: Tags, cfg: Option<Config>, cutoff: int, nodes: seq<Node>, deletes: int -> bool,
                             sort: seq<Archive> -> seq<Archive>)
      requires Valid() && SortsByTime(sort)
      modifies this
      ensures Valid()
      ensures cfg.None? || !cfg.value.autoClean ==> stored == old(stored)
      ensures cfg.Some? && cfg.value.autoClean ==>
        NodeTurns(t, cfg.value, nodes, |nodes|, deletes, AfterExpiry(t, cfg.value, cutoff, deletes, old(stored)),
          stored)
      ensures cfg.Some? ==> OnlyCleaned(t, cfg.value, old(stored), stored)
    {
      if cfg.None? || !cfg.value.autoClean {
        return;
      }
      var c := cfg.value;
      if c.retentionDays > 0 {
        CleanExpired(t, c, cutoff, deletes);
      }
      ghost var kept := stored;
      assert kept == AfterExpiry(t, c, cutoff, deletes, old(stored));
      var emergencyThreshold := if c.emergency <= 0 then 92 else c.emergency;
      var targetThreshold := if c.target <= 0 then 75 else c.target;
      for i := 0 to |nodes|
        invariant Valid() && NodeTurns(t, c, nodes, i, deletes, kept, stored)
      {
        var node := nodes[i];
        ghost var mid := stored;
        if node.online && node.usedPercent > 0.0 {
          if node.usedPercent >= emergencyThreshold as real {
            ghost var candidates, k := CleanNode(t, c, node, targetThreshold, deletes, sort);
            assert node.totalMB > 0 ==> CleanedBy(t, c, node, deletes, mid, stored, candidates, k);
          }
        }
        OneTurnMore(t, c, nodes, i, deletes, kept, mid, stored);
      }
      TurnsOnlyClean(t, c, nodes, |nodes|, deletes, kept, stored);
    }

    method RemoveOldest(candidates: seq<Archive>, usedMB: int, totalMB: int, target: int, deletes: int -> bool)
      returns (ghost k: int)
      requires Valid()
      modifies this
      ensures Valid()
      ensures StopsAfter(usedMB, candidates, deletes, totalMB, target, k)
      ensures stored == old(stored) - Removed(candidates, deletes, k)
    {
      var currentUsedMB := usedMB;
      k := 0;
      for i := 0 to |candidates|
        invariant Valid() && k == i
        invariant currentUsedMB == UsedAfter(usedMB, candidates, deletes, i)
        invariant forall j | 0 <= j < i :: !AtTarget(UsedAfter(usedMB, candidates, deletes, j), totalMB, target)
        invariant stored == old(stored) - Removed(candidates, deletes, i)
      {
        if currentUsedMB * 100 <= target * totalMB {
          break;
        }
        var arc := candidates[i];
        RemovedOneMore(candidates, deletes, i);
        var ok := DeleteArchiveStorageAndMeta(arc, deletes(arc.id));
        if ok {
          currentUsedMB := currentUsedMB - arc.size / MB;
          if currentUsedMB < 0 {
            currentUsedMB := 0;
          }
        }
        k := k + 1;
      }
    }
  }

  /** The list holds exactly the unprotected archives of the node. */
  lemma ListedAre(arcs: seq<Archive>, stored: map<int, Archive>, t: Tags, cfg: Config, nodeId: int)
    requires ListsOnce(arcs, stored, CleanableOn(t, cfg, nodeId))
    ensures forall a | a in arcs :: a.id in stored && stored[a.id] == a
    ensures forall id | id in stored ::
              stored[id] in arcs <==> (stored[id].nodeId == nodeId && !Exempt(t, stored[id], cfg))
  {
    forall id | id in stored
      ensures stored[id] in arcs <==> (stored[id].nodeId == nodeId && !Exempt(t, stored[id], cfg))
    {
      assert CleanableOn(t, cfg, nodeId)(stored[id]) <==> (stored[id].nodeId == nodeId && !Exempt(t, stored[id], cfg));
    }
  }

  lemma {:induction false} RemovedOneMore(arcs: seq<Archive>, deletes: int -> bool, k: nat)
    requires k < |arcs|
    ensures Removed(arcs, deletes, k + 1)
         == Removed(arcs, deletes, k) + if deletes(arcs[k].id) then {arcs[k].id} else {}
  {}

  // ---- one cycle

  /** The marks in percent; a mark that is not set counts as 92 or 75. */
  function EmergencyMark(cfg: Config): int {
    if cfg.emergency <= 0 then 92 else cfg.emergency
  }

  function TargetMark(cfg: Config): int {
    if cfg.target <= 0 then 75 else cfg.target
  }

  /** The node reports a usage at its emergency mark or above. */
  predicate NeedsRoom(cfg: Config, node: Node) {
    node.online && node.usedPercent > 0.0 && node.usedPercent >= EmergencyMark(cfg) as real
  }

  /** A node's pass considered `candidates`, all its unprotected archives, oldest first, and
      stopped after `k` of them. */
  ghost predicate CleanedBy(t: Tags, cfg: Config, node: Node, deletes: int -> bool, before: map<int, Archive>,
                            after: map<int, Archive>, candidates: seq<Archive>, k: int) {
    && ListsOnce(candidates, before, CleanableOn(t, cfg, node.id)) && OldestFirst(candidates)
    && StopsAfter(node.usedMB, candidates, deletes, node.totalMB, TargetMark(cfg), k)
    && after == before - Removed(candidates, deletes, k)
  }

  /** What one node's turn makes of the store. */
  ghost predicate NodeTurn(t: Tags, cfg: Config, node: Node, deletes: int -> bool, before: map<int, Archive>,
                           after: map<int, Archive>) {
    if NeedsRoom(cfg, node) && node.totalMB > 0
    then exists candidates, k :: CleanedBy(t, cfg, node, deletes, before, after, candidates, k)
    else after == before
  }

  /** A node's turn, in numbers: a node that is online and reports at least 92 percent, or the mark
      that is set, loses the shortest run of its oldest unprotected archives that brings it down
      to 75 percent, or the target that is set; any other loses nothing. */
  lemma TurnReachesTarget(t: Tags, cfg: Config, node: Node, deletes: int -> bool, before: map<int, Archive>,
                          after: map<int, Archive>)
    requires NodeTurn(t, cfg, node, deletes, before, after)
    ensures var mark, target := if cfg.emergency <= 0 then 92 else cfg.emergency, if cfg.target <= 0 then 75
        else cfg.target;
      if node.online && node.usedPercent > 0.0 && node.usedPercent >= mark as real && node.totalMB > 0 then
        exists arcs: seq<Archive>, k: nat | k <= |arcs| ::
          && ListsOnce(arcs, before, CleanableOn(t, cfg, node.id)) && OldestFirst(arcs)
          && after == before - Removed(arcs, deletes, k) && Enough(node, arcs, deletes, target, k)
      else after == before
  {
    if NeedsRoom(cfg, node) && node.totalMB > 0 {
      var arcs: seq<Archive>, k: int :| CleanedBy(t, cfg, node, deletes, before, after, arcs, k);
      EnoughIsRemoved(node, arcs, deletes, TargetMark(cfg), k);
    }
  }

  /** What the turns of the first `n` nodes, one after the other, make of it. */
  ghost predicate NodeTurns(t: Tags, cfg: Config, nodes: seq<Node>, n: nat, deletes: int -> bool,
                            before: map<int, Archive>, after: map<int, Archive>)
    requires n <= |nodes|
  {
    if n == 0 then after == before
    else
      var last := nodes[n - 1];
      exists mid {:trigger NodeTurn(t, cfg, last, deletes, mid, after)} ::
        NodeTurns(t, cfg, nodes, n - 1, deletes, before, mid) && NodeTurn(t, cfg, last, deletes, mid, after)
  }

  lemma {:induction false} OneTurnMore(t: Tags, cfg: Config, nodes: seq<Node>, n: nat, deletes: int -> bool,
                                       before: map<int, Archive>, mid: map<int, Archive>, after: map<int, Archive>)
    requires n < |nodes| && NodeTurns(t, cfg, nodes, n, deletes, before, mid)
    requires NodeTurn(t, cfg, nodes[n], deletes, mid, after)
    ensures NodeTurns(t, cfg, nodes, n + 1, deletes, before, after)
  {
    var last := nodes[n];
    assert NodeTurn(t, cfg, last, deletes, mid, after);
  }

  /** The expired archives that can be deleted are gone, if a keeping time is set. */
  function AfterExpiry(t: Tags, cfg: Config, cutoff: int, deletes: int -> bool,
                        stored: map<int, Archive>): map<int, Archive> {
    if cfg.retentionDays > 0 then Without(stored, ExpiredAndDeleted(t, cfg, cutoff, deletes)) else stored
  }

  lemma {:induction false} TurnsOnlyClean(t: Tags, cfg: Config, nodes: seq<Node>, n: nat, deletes: int -> bool,
                                          before: map<int, Archive>, after: map<int, Archive>)
    requires n <= |nodes| && NodeTurns(t, cfg, nodes, n, deletes, before, after)
    ensures OnlyCleaned(t, cfg, before, after)
  {
    if n > 0 {
      var last := nodes[n - 1];
      var mid :| NodeTurns(t, cfg, nodes, n - 1, deletes, before, mid) && NodeTurn(t, cfg, last, deletes, mid, after);
      TurnsOnlyClean(t, cfg, nodes, n - 1, deletes, before, mid);
      TurnOnlyCleans(t, cfg, nodes[n - 1], deletes, mid, after);
    }
  }

  lemma TurnOnlyCleans(t: Tags, cfg: Config, node: Node, deletes: int -> bool, before: map<int, Archive>,
                       after: map<int, Archive>)
    requires NodeTurn(t, cfg, node, deletes, before, after)
    ensures OnlyCleaned(t, cfg, before, after)
  {
    if NeedsRoom(cfg, node) && node.totalMB > 0 {
      var candidates: seq<Archive>, k: int :| CleanedBy(t, cfg, node, deletes, before, after, candidates, k);
      forall id | id in Removed(candidates, deletes, k) ensures id in before && !Exempt(t, before[id], cfg) {
        var i :| 0 <= i < k && deletes(candidates[i].id) && candidates[i].id == id;
        assert CleanableOn(t, cfg, node.id)(candidates[i]);
      }
    }
  }

  /** Some unprotected archives are gone; all else is as it was. */
  ghost predicate OnlyCleaned(t: Tags, cfg: Config, before: map<int, Archive>, after: map<int, Archive>) {
    && (forall id | id in after :: id in before && after[id] == before[id])
    && forall id | id in before && Exempt(t, before[id], cfg) :: id in after
  }

  predicate Expired(t: Tags, cfg: Config, cutoff: int, arc: Archive) {
    !Exempt(t, arc, cfg) && arc.uploadTime < cutoff
  }

  function Without(stored: map<int, Archive>, gone: Archive -> bool): map<int, Archive> {
    map id | id in stored && !gone(stored[id]) :: stored[id]
  }

  lemma {:induction false} WithoutIs(before: map<int, Archive>, after: map<int, Archive>, gone: Archive -> bool)
    requires forall id | id in after :: id in before && after[id] == before[id]
    requires forall id | id in before :: gone(before[id]) <==> id !in after
    ensures after == Without(before, gone)
  {
    var left := Without(before, gone);
    assert forall id :: id in left <==> id in after;
    assert left.Keys == after.Keys;
    assert forall id | id in left :: left[id] == after[id];
  }

  /** The unprotected ones of a list. */
  method Unprotected(t: Tags, cfg: Config, arcs: seq<Archive>) returns (r: seq<Archive>)
    ensures forall a :: a in r <==> (a in arcs && !Exempt(t, a, cfg))
    ensures (forall i, j | 0 <= i < j < |arcs| :: arcs[i] != arcs[j]) ==> forall i, j | 0 <= i < j < |r| :: r[i] != r[j]
  {
    r := [];
    for i := 0 to |arcs|
      invariant forall a :: a in r <==> (a in arcs[..i] && !Exempt(t, a, cfg))
      invariant (forall i, j | 0 <= i < j < |arcs| :: arcs[i] != arcs[j]) ==>
                  forall i, j | 0 <= i < j < |r| :: r[i] != r[j]
    {
      var exempt := IsArchiveExemptFromAutoClean(t, Some(arcs[i]), Some(cfg));
      assert arcs[..i + 1] == arcs[..i] + [arcs[i]];
      if !exempt {
        r := r + [arcs[i]];
      }
    }
    assert arcs[..|arcs|] == arcs;
  }

  /** Part of a list lists what that part wants. */
  lemma {:induction false} KeepListed(arcs: seq<Archive>, part: seq<Archive>, stored: map<int, Archive>,
                                      want: Archive -> bool, wantPart: Archive -> bool)
    requires ListsOnce(arcs, stored, want) && forall a | wantPart(a) :: want(a)
    requires forall a :: a in part <==> (a in arcs && wantPart(a))
    requires forall i, j | 0 <= i < j < |part| :: part[i] != part[j]
    ensures ListsOnce(part, stored, wantPart)
  {
    assert forall i | 0 <= i < |part| :: part[i] in part;
  }

  /** A reordered list lists the same. */
  lemma {:induction false} SameListed(arcs: seq<Archive>, sorted: seq<Archive>, stored: map<int, Archive>,
                                      want: Archive -> bool)
    requires ListsOnce(arcs, stored, want) && multiset(sorted) == multiset(arcs)
    ensures ListsOnce(sorted, stored, want)
  {
    forall a ensures a in sorted <==> a in arcs {
      assert a in multiset(sorted) <==> a in multiset(arcs);
    }
    assert forall i | 0 <= i < |sorted| :: sorted[i] in sorted;
    forall i, j | 0 <= i < j < |sorted| ensures sorted[i] != sorted[j] {
      OnceInMultiset(arcs, sorted[i]);
      TwiceInMultiset(sorted, i, j);
    }
  }

  lemma {:induction false} OnceInMultiset(arcs: seq<Archive>, a: Archive)
    requires forall i, j | 0 <= i < j < |arcs| :: arcs[i] != arcs[j]
    ensures multiset(arcs)[a] <= 1
    decreases |arcs|
  {
    if arcs != [] {
      var n := |arcs| - 1;
      assert arcs == arcs[..n] + [arcs[n]];
      OnceInMultiset(arcs[..n], a);
      assert arcs[n] !in arcs[..n];
      assert arcs[n] !in multiset(arcs[..n]);
    }
  }

  lemma {:induction false} TwiceInMultiset(arcs: seq<Archive>, i: nat, j: nat)
    requires i < j < |arcs|
    ensures arcs[i] == arcs[j] ==> multiset(arcs)[arcs[i]] >= 2
  {
    assert arcs == arcs[..j] + ([arcs[j]] + arcs[j + 1..]);
    assert arcs[..j][i] in multiset(arcs[..j]);
  }
}
