/** The manager node as the object the program keeps: every operation is proved to take
    exactly the step `HaState` gives for it. */
module HaManager {
  import opened HaState
  import HaCluster

  /** What came back for a heartbeat request. */
  datatype Heartbeat = NoAnswer | BadStatus | BadBody | Answer(role: Role)

  /** What a switchover call reports: done, or why not. */
  datatype SwitchResult = Done | StandaloneMode | PeerOffline | PeerRefused

  /** A request to the peer to take the opposite of the role this node has. */
  datatype Request = Promote | Demote

  /** The request as it travels between two nodes, not yet obeyed or answered. */
  function AskFor(who: HaCluster.Who, request: Request): HaCluster.Ask {
    HaCluster.Ask(who, request == Promote, false, HaCluster.Waiting)
  }

  predicate DistinctIds(nodes: seq<ClusterNode>) {
    forall i, j | 0 <= i < j < |nodes| :: nodes[i].id != nodes[j].id
  }

  predicate EnvOk(env: Env) {
    env.listing.Listed? ==> DistinctIds(env.listing.nodes)
  }

  /** The ids of the workers among the listed nodes, in listing order. */
  method CollectWorkers(nodes: seq<ClusterNode>) returns (workers: seq<string>)
    requires DistinctIds(nodes)
    ensures (set w | w in workers) == WorkerIds(nodes) && |workers| == |WorkerIds(nodes)|
    ensures forall id :: id in workers <==> exists n :: n in nodes && n.role == "worker" && n.id == id
  {
    workers := [];
    for i := 0 to |nodes|
      invariant (set w | w in workers) == WorkerIds(nodes[..i]) && |workers| == |WorkerIds(nodes[..i])|
    {
      MoreWorkers(nodes, i);
      if nodes[i].role == "worker" {
        workers := workers + [nodes[i].id];
      }
    }
    assert nodes[..|nodes|] == nodes;
    forall id ensures id in workers <==> exists n :: n in nodes && n.role == "worker" && n.id == id {
      assert id in workers <==> id in WorkerIds(nodes);
      WorkersAreIds(Env("", true, "", Listed(nodes), {}));
    }
  }

  lemma MoreWorkers(nodes: seq<ClusterNode>, i: nat)
    requires DistinctIds(nodes) && i < |nodes|
    ensures nodes[i].id !in WorkerIds(nodes[..i])
    ensures WorkerIds(nodes[..i + 1]) == WorkerIds(nodes[..i]) + if nodes[i].role == "worker" then {nodes[i].id} else {}
  {
    var next := nodes[..i + 1];
    forall id | id in WorkerIds(nodes[..i]) ensures id in WorkerIds(next) {
      var k :| 0 <= k < i && nodes[..i][k].role == "worker" && nodes[..i][k].id == id;
      assert next[k].id == id;
    }
    if nodes[i].role == "worker" {
      assert next[i].id == nodes[i].id;
    }
  }

  /** Counts the workers that answer, taking the replies in whatever order they come. */
  method ProbeAll(workers: set<string>, answering: set<string>) returns (onlineCount: nat)
    ensures onlineCount == |workers * answering|
  {
    var pending := workers;
    onlineCount := 0;
    while pending != {}
      invariant pending <= workers && onlineCount + |pending * answering| == |workers * answering|
    {
      var w :| w in pending;
      OneReply(pending, answering, w);
      if w in answering {
        onlineCount := onlineCount + 1;
      }
      pending := pending - {w};
    }
  }

  lemma OneReply(pending: set<string>, answering: set<string>, w: string)
    requires w in pending
    ensures |pending * answering| == |(pending - {w}) * answering| + if w in answering then 1 else 0
  {
    if w in answering {
      assert pending * answering == (pending - {w}) * answering + {w};
    } else {
      assert pending * answering == (pending - {w}) * answering;
    }
  }

  /** Probes every worker at once; the probes finish in any order. */
  method CheckWorkerQuorum(env: Env) returns (total: nat, online: nat, passed: bool)
    requires EnvOk(env)
    ensures Quorum(total, online, passed) == QuorumOf(env)
    ensures total == |Workers(env)| && online == |Workers(env) * env.answering|
    ensures passed <==> total == 0 || 2 * online > total
  {
    WorkersAreIds(env);
    if !env.listing.Listed? || |env.listing.nodes| == 0 {
      return 0, 0, true;
    }
    var workers := CollectWorkers(env.listing.nodes);
    total := |workers|;
    if total == 0 {
      return 0, 0, true;
    }
    online := ProbeAll((set w | w in workers), env.answering);
    passed := online > total / 2;
  }

  method CheckSplitBrainSafety(cfg: Config, env: Env)
    returns (safe: bool, reason: Reason, gwOnline: bool, wTotal: nat, wOnline: nat)
    requires EnvOk(env)
    ensures Safety(safe, reason, gwOnline, wTotal, wOnline) == SafetyOf(cfg, env)
  {
    gwOnline, wTotal, wOnline := true, 0, 0;
    if cfg.enableGatewayCheck {
      var targetGW := cfg.gatewayIP;
      if targetGW == "" {
        targetGW := env.defaultGateway;
      }
      if targetGW != "" {
        gwOnline := env.pingOk;
        if !gwOnline {
          return false, GatewayUnreachable, false, 0, 0;
        }
      }
    }
    if cfg.enableWorkerQuorum {
      var total, online, passed := CheckWorkerQuorum(env);
      wTotal, wOnline := total, online;
      if total > 0 && !passed {
        return false, QuorumMissed, gwOnline, wTotal, wOnline;
      }
    }
    return true, NoReason, gwOnline, wTotal, wOnline;
  }

  class HAManager {
    const cfg: Config
    var role: Role
    var peerOnline: bool
    var failoverCount: int
    var vipActive: bool
    var gatewayOnline: bool
    var workerQuorumTotal: int
    var workerQuorumOnline: int
    var quorumPassed: bool
    var splitBrainBlocked: bool
    var blockedReason: Reason
    var consecutiveFailures: int

    function View(): State
      reads this
    {
      State(role, peerOnline, consecutiveFailures, failoverCount, vipActive, gatewayOnline,
            workerQuorumTotal, workerQuorumOnline, quorumPassed, splitBrainBlocked, blockedReason)
    }

    /** The class invariant: misses are counted from zero, and only an active node holds the
        virtual address. */
    predicate Valid()
      reads this
    {
      consecutiveFailures >= 0 && VipOk(cfg, View())
    }

    constructor (cfg: Config)
      ensures Valid()
      ensures this.cfg == cfg && View() == Initial(cfg)
      ensures (role == Standby <==> cfg.mode == Backup) && !vipActive && !peerOnline
    {
      this.cfg := cfg;
      role := Active;
      peerOnline, failoverCount, vipActive, consecutiveFailures := false, 0, false, 0;
      gatewayOnline, quorumPassed := true, true;
      workerQuorumTotal, workerQuorumOnline := 0, 0;
      splitBrainBlocked, blockedReason := false, NoReason;
      new;
      if cfg.mode == Backup {
        role := Standby;
      }
    }

    method Start(env: Env)
      requires View() == Initial(cfg)
      modifies this
      ensures View() == Started(cfg, env)
      ensures old(Valid()) && Interface(cfg, env) != "" ==> Valid()
      ensures cfg.mode != Standalone && Interface(cfg, env) != "" ==> VipHeld(cfg, View())
    {
      if cfg.mode == Standalone {
        return;
      }
      if role == Active && cfg.vip != "" {
        BindVipLocked(env);
      }
    }

    method BindVipLocked(env: Env)
      modifies this`vipActive
      ensures View() == BindVip(cfg, env, old(View()))
      ensures old(Valid()) && role == Active ==> Valid()
      ensures cfg.vip != "" && (cfg.vipInterface != "" || env.defaultInterface != "") ==> vipActive
    {
      if cfg.vip == "" {
        return;
      }
      var iface := cfg.vipInterface;
      if iface == "" {
        iface := env.defaultInterface;
      }
      if iface == "" {
        return;
      }
      vipActive := true;
    }

    method ReleaseVipLocked(env: Env)
      modifies this`vipActive
      ensures View() == ReleaseVip(cfg, env, old(View()))
      ensures (old(vipActive) ==> cfg.vip != "") && Interface(cfg, env) != "" && consecutiveFailures >= 0 ==> Valid()
      ensures cfg.vip != "" && (cfg.vipInterface != "" || env.defaultInterface != "") ==> !vipActive
    {
      if cfg.vip == "" || !vipActive {
        return;
      }
      var iface := cfg.vipInterface;
      if iface == "" {
        iface := env.defaultInterface;
      }
      if iface == "" {
        return;
      }
      vipActive := false;
    }

    method ProbePeer(failoverLimit: int, reply: Heartbeat, env: Env)
      requires EnvOk(env)
      modifies this
      ensures View() ==
        if cfg.peerURL == "" then old(View())
        else if reply.Answer? then PeerAnswered(cfg, env, old(View()), reply.role)
        else PeerFailed(cfg, env, failoverLimit, old(View()))
      ensures old(Valid()) && Interface(cfg, env) != "" ==> Valid()
      ensures old(VipHeld(cfg, View())) && Interface(cfg, env) != "" ==> VipHeld(cfg, View())
    {
      if cfg.peerURL == "" {
        return;
      }
      if !reply.Answer? {
        MarkPeerFailure(failoverLimit, env);
        return;
      }
      peerOnline := true;
      consecutiveFailures := 0;
      if role == Active && reply.role == Active && cfg.mode == Primary {
        role := Standby;
        ReleaseVipLocked(env);
      }
    }

    method MarkPeerFailure(failoverLimit: int, env: Env)
      requires EnvOk(env)
      modifies this
      ensures View() == PeerFailed(cfg, env, failoverLimit, old(View()))
      ensures old(Valid()) && Interface(cfg, env) != "" ==> Valid()
      ensures old(VipHeld(cfg, View())) && Interface(cfg, env) != "" ==> VipHeld(cfg, View())
    {
      peerOnline := false;
      consecutiveFailures := consecutiveFailures + 1;

      if role == Standby && consecutiveFailures >= failoverLimit {
        TakeOverIfSafe(env);
        return;
      }
      if role == Active && cfg.enableWorkerQuorum && consecutiveFailures >= failoverLimit {
        StepDownIfIsolated(env);
      }
    }

    /** The standby's side of a lost heartbeat. */
    method TakeOverIfSafe(env: Env)
      requires EnvOk(env) && role == Standby
      modifies this
      ensures View() == TakeOver(cfg, env, old(View()))
      ensures old(Valid()) && Interface(cfg, env) != "" ==> Valid()
      ensures old(VipHeld(cfg, View())) && Interface(cfg, env) != "" ==> VipHeld(cfg, View())
    {
      var safe, reason, gwOnline, wTotal, wOnline := CheckSplitBrainSafety(cfg, env);
      ActOnSafety(Safety(safe, reason, gwOnline, wTotal, wOnline), env);
    }

    method ActOnSafety(check: Safety, env: Env)
      requires role == Standby
      modifies this
      ensures View() == TakeOverBy(cfg, env, check, old(View()))
      ensures old(Valid()) && Interface(cfg, env) != "" ==> Valid()
      ensures old(VipHeld(cfg, View())) && Interface(cfg, env) != "" ==> VipHeld(cfg, View())
    {
      gatewayOnline, workerQuorumTotal, workerQuorumOnline := check.gatewayOnline, check.total, check.online;
      quorumPassed := check.safe;
      if !check.safe {
        splitBrainBlocked, blockedReason := true, check.reason;
        return;
      }
      splitBrainBlocked, blockedReason := false, NoReason;
      role := Active;
      failoverCount := failoverCount + 1;
      consecutiveFailures := 0;
      BindVipLocked(env);
    }

    /** The active node's side of a lost heartbeat. */
    method StepDownIfIsolated(env: Env)
      requires EnvOk(env) && role == Active
      modifies this
      ensures View() == StepDown(cfg, env, old(View()))
      ensures old(Valid()) && Interface(cfg, env) != "" ==> Valid()
      ensures old(VipHeld(cfg, View())) && Interface(cfg, env) != "" ==> VipHeld(cfg, View())
    {
      var total, online, passed := CheckWorkerQuorum(env);
      ActOnQuorum(Quorum(total, online, passed), env);
    }

    method ActOnQuorum(quorum: Quorum, env: Env)
      requires role == Active
      modifies this
      ensures View() == StepDownBy(cfg, env, quorum, old(View()))
      ensures old(Valid()) && Interface(cfg, env) != "" ==> Valid()
      ensures old(VipHeld(cfg, View())) && Interface(cfg, env) != "" ==> VipHeld(cfg, View())
    {
      workerQuorumTotal, workerQuorumOnline, quorumPassed := quorum.total, quorum.online, quorum.passed;
      if quorum.total > 0 && !quorum.passed {
        role := Standby;
        splitBrainBlocked, blockedReason := true, Isolated;
        ReleaseVipLocked(env);
      }
    }

    method PromoteToActive(env: Env)
      modifies this
      ensures View() == Promoted(cfg, env, old(View()))
      ensures old(Valid()) && Interface(cfg, env) != "" ==> Valid()
      ensures old(VipHeld(cfg, View())) && Interface(cfg, env) != "" ==> VipHeld(cfg, View())
    {
      if role == Active {
        return;
      }
      role := Active;
      failoverCount := failoverCount + 1;
      BindVipLocked(env);
    }

    method DemoteToStandby(env: Env)
      modifies this
      ensures View() == Demoted(cfg, env, old(View()))
      ensures old(Valid()) && Interface(cfg, env) != "" ==> Valid()
      ensures old(VipHeld(cfg, View())) && Interface(cfg, env) != "" ==> VipHeld(cfg, View())
    {
      if role == Standby {
        return;
      }
      role := Standby;
      ReleaseVipLocked(env);
    }

    /** The first half of a switchover: reads the role and addresses the peer. The lock is
        released before the request is sent, so the role may change before the reply. In a
        pair of nodes that includes this one, it makes the request that the event `Asks` does. */
    method BeginSwitchover() returns (refused: SwitchResult, request: Request)
      ensures refused in {Done, StandaloneMode, PeerOffline}
      ensures refused == Done <==> AsksPeer(cfg, View())
      ensures refused == StandaloneMode <==> cfg.mode == Standalone
      ensures refused == PeerOffline <==> cfg.mode != Standalone && !peerOnline
      ensures forall u: HaCluster.Setup, c: HaCluster.Cluster, who: HaCluster.Who |
                u.Config(who) == cfg && c.Node(who) == View() ::
                HaCluster.Step(u, c, HaCluster.Asks(who)).asks
                == c.asks + if refused == Done then [AskFor(who, request)] else []
    {
      request := if role == Active then Promote else Demote;
      if cfg.mode == Standalone {
        return StandaloneMode, request;
      }
      if !peerOnline {
        return PeerOffline, request;
      }
      refused := Done;
    }

    /** The second half, in whatever state the reply finds the node: it changes its own role
        only when the peer's confirmation arrives, to the opposite of what it asked for, as the
        event `Confirms` does. */
    method EndSwitchover(request: Request, confirmed: bool, env: Env) returns (result: SwitchResult)
      modifies this
      ensures result == if confirmed then Done else PeerRefused
      ensures View() ==
        if !confirmed then old(View())
        else if request == Promote then Demoted(cfg, env, old(View()))
        else Promoted(cfg, env, old(View()))
      ensures old(Valid()) && Interface(cfg, env) != "" ==> Valid()
      ensures old(VipHeld(cfg, View())) && Interface(cfg, env) != "" ==> VipHeld(cfg, View())
      ensures confirmed ==>
        forall u: HaCluster.Setup, c: HaCluster.Cluster, who: HaCluster.Who, i: nat |
          && u.Config(who) == cfg && c.Node(who) == old(View())
          && c.Awaited(i) && c.asks[i] == AskFor(who, request).(delivered := true) ::
          HaCluster.Step(u, c, HaCluster.Confirms(i, env)).Node(who) == View()
    {
      if !confirmed {
        return PeerRefused;
      }
      if request == Promote {
        DemoteToStandby(env);
      } else {
        PromoteToActive(env);
      }
      return Done;
    }
  }
}
