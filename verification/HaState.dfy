/** One manager node of the high-availability pair, on values: its configuration, its
    state, the answers its environment gives, and the step each operation takes. */
module HaState {
  datatype Mode = Standalone | Primary | Backup | OtherMode(name: string)
  datatype Role = Active | Standby
  datatype Reason = NoReason | GatewayUnreachable | QuorumMissed | Isolated

  datatype Config = Config(mode: Mode, peerURL: string, vip: string, vipInterface: string,
                           gatewayIP: string, enableGatewayCheck: bool, enableWorkerQuorum: bool)

  datatype State = State(role: Role, peerOnline: bool, consecutiveFailures: int, failoverCount: int, vipActive: bool,
                         gatewayOnline: bool, workerQuorumTotal: int, workerQuorumOnline: int,
                         quorumPassed: bool, splitBrainBlocked: bool, blockedReason: Reason)

  /** A registered cluster node, as listed by the store under its unique id. */
  datatype ClusterNode = ClusterNode(id: string, role: string)
  datatype Listing = NoStore | ListFailed | Listed(nodes: seq<ClusterNode>)

  /** What the outside world answers during one operation: the default gateway and network
      interface it finds, whether the gateway replies, the registered nodes, and which of
      them answer a health probe. */
  datatype Env = Env(defaultGateway: string, pingOk: bool, defaultInterface: string,
                     listing: Listing, answering: set<string>)

  // ---- worker quorum

  function WorkerIds(nodes: seq<ClusterNode>): set<string> {
    set i | 0 <= i < |nodes| && nodes[i].role == "worker" :: nodes[i].id
  }

  datatype Quorum = Quorum(total: nat, online: nat, passed: bool)

  /** More than half of the registered workers answer; a cluster without workers passes. */
  function QuorumOf(env: Env): (q: Quorum)
    ensures q.total != 0 ==> (q.passed <==> 2 * q.online > q.total)
  {
    var workers := if env.listing.Listed? then WorkerIds(env.listing.nodes) else {};
    if workers == {} then Quorum(0, 0, true)
    else
      var online := |workers * env.answering|;
      Quorum(|workers|, online, online > |workers| / 2)
  }

  // ---- promotion safety

  datatype Safety = Safety(safe: bool, reason: Reason, gatewayOnline: bool, total: nat, online: nat)

  predicate GatewayDown(cfg: Config, env: Env) {
    var target := if cfg.gatewayIP == "" then env.defaultGateway else cfg.gatewayIP;
    cfg.enableGatewayCheck && target != "" && !env.pingOk
  }

  function SafetyOf(cfg: Config, env: Env): Safety {
    if GatewayDown(cfg, env) then Safety(false, GatewayUnreachable, false, 0, 0)
    else if cfg.enableWorkerQuorum then
      var q := QuorumOf(env);
      if q.total > 0 && !q.passed then Safety(false, QuorumMissed, true, q.total, q.online)
      else Safety(true, NoReason, true, q.total, q.online)
    else Safety(true, NoReason, true, 0, 0)
  }

  // ---- virtual address

  function Interface(cfg: Config, env: Env): string {
    if cfg.vipInterface == "" then env.defaultInterface else cfg.vipInterface
  }

  function BindVip(cfg: Config, env: Env, s: State): State {
    if cfg.vip == "" || Interface(cfg, env) == "" then s else s.(vipActive := true)
  }

  function ReleaseVip(cfg: Config, env: Env, s: State): State {
    if cfg.vip == "" || !s.vipActive || Interface(cfg, env) == "" then s else s.(vipActive := false)
  }

  // ---- role changes

  function Initial(cfg: Config): State {
    State(if cfg.mode == Backup then Standby else Active, false, 0, 0, false, true, 0, 0, true, false, NoReason)
  }

  function Started(cfg: Config, env: Env): State {
    var s := Initial(cfg);
    if cfg.mode != Standalone && s.role == Active && cfg.vip != "" then BindVip(cfg, env, s) else s
  }

  function Promoted(cfg: Config, env: Env, s: State): State {
    if s.role == Active then s
    else BindVip(cfg, env, s.(role := Active, failoverCount := s.failoverCount + 1))
  }

  function Demoted(cfg: Config, env: Env, s: State): State {
    if s.role == Standby then s else ReleaseVip(cfg, env, s.(role := Standby))
  }

  /** A heartbeat reply arrived, telling the peer's role. */
  function PeerAnswered(cfg: Config, env: Env, s: State, peer: Role): State {
    var t := s.(peerOnline := true, consecutiveFailures := 0);
    if s.role == Active && peer == Active && cfg.mode == Primary then ReleaseVip(cfg, env, t.(role := Standby)) else t
  }

  /** A standby that has lost its peer takes over, unless the safety check forbids it. */
  function TakeOver(cfg: Config, env: Env, s: State): State {
    TakeOverBy(cfg, env, SafetyOf(cfg, env), s)
  }

  function TakeOverBy(cfg: Config, env: Env, check: Safety, s: State): State {
    var t := s.(gatewayOnline := check.gatewayOnline, workerQuorumTotal := check.total,
                workerQuorumOnline := check.online, quorumPassed := check.safe);
    if !check.safe then t.(splitBrainBlocked := true, blockedReason := check.reason)
    else BindVip(cfg, env, t.(splitBrainBlocked := false, blockedReason := NoReason, role := Active,
                              failoverCount := t.failoverCount + 1, consecutiveFailures := 0))
  }

  /** An active node that has lost its peer steps down when most workers are out of reach too. */
  function StepDown(cfg: Config, env: Env, s: State): State {
    StepDownBy(cfg, env, QuorumOf(env), s)
  }

  function StepDownBy(cfg: Config, env: Env, q: Quorum, s: State): State {
    var t := s.(workerQuorumTotal := q.total, workerQuorumOnline := q.online, quorumPassed := q.passed);
    if q.total > 0 && !q.passed then
      ReleaseVip(cfg, env, t.(role := Standby, splitBrainBlocked := true, blockedReason := Isolated))
    else t
  }

  /** A heartbeat went unanswered. */
  function PeerFailed(cfg: Config, env: Env, limit: int, s: State): State {
    var t := s.(peerOnline := false, consecutiveFailures := s.consecutiveFailures + 1);
    if t.consecutiveFailures < limit then t
    else if t.role == Standby then TakeOver(cfg, env, t)
    else if cfg.enableWorkerQuorum then StepDown(cfg, env, t)
    else t
  }

  /** The registered workers, and those of them that answer. */
  ghost function Workers(env: Env): set<string> {
    if env.listing.Listed? then set n | n in env.listing.nodes && n.role == "worker" :: n.id else {}
  }

  /** What a standby must find to take over: where a gateway is to be checked and there is one,
      that it answers; where workers are to be counted and some are listed, that more than half
      of them answer. */
  ghost predicate MayTakeOver(cfg: Config, env: Env) {
    && (cfg.enableGatewayCheck && (cfg.gatewayIP != "" || env.defaultGateway != "") ==> env.pingOk)
    && (cfg.enableWorkerQuorum && Workers(env) != {} ==> 2 * |Workers(env) * env.answering| > |Workers(env)|)
  }

  lemma WorkersAreIds(env: Env)
    ensures env.listing.Listed? ==> Workers(env) == WorkerIds(env.listing.nodes)
  {
    if env.listing.Listed? {
      var nodes := env.listing.nodes;
      forall id | id in Workers(env) ensures id in WorkerIds(nodes) {
        var n :| n in nodes && n.role == "worker" && n.id == id;
        var i :| 0 <= i < |nodes| && nodes[i] == n;
      }
      forall id | id in WorkerIds(nodes) ensures id in Workers(env) {
        var i :| 0 <= i < |nodes| && nodes[i].role == "worker" && nodes[i].id == id;
        assert nodes[i] in nodes;
      }
    }
  }

  /** A standby takes over on a miss exactly when that is its limit-th, or a later one, and what it
      finds allows it; if not, it notes why. */
  lemma TakesOverExactly(cfg: Config, env: Env, limit: int, s: State)
    requires s.role == Standby
    ensures var t := PeerFailed(cfg, env, limit, s);
      && (t.role == Active <==> s.consecutiveFailures + 1 >= limit && MayTakeOver(cfg, env))
      && (t.role == Active ==> t.consecutiveFailures == 0 && !t.splitBrainBlocked && t.gatewayOnline)
      && (s.consecutiveFailures + 1 >= limit && !MayTakeOver(cfg, env) ==>
            (t.splitBrainBlocked
             && (t.blockedReason == GatewayUnreachable <==>
                   cfg.enableGatewayCheck && (cfg.gatewayIP != "" || env.defaultGateway != "") && !env.pingOk)))
  {
    WorkersAreIds(env);
  }

  /** An active node steps down on a miss exactly when that is its limit-th, or a later one, and
      it is to count workers and at most half of those listed answer. */
  lemma StepsDownExactly(cfg: Config, env: Env, limit: int, s: State)
    requires s.role == Active
    ensures PeerFailed(cfg, env, limit, s).role == Standby <==>
      && s.consecutiveFailures + 1 >= limit && cfg.enableWorkerQuorum
      && Workers(env) != {} && 2 * |Workers(env) * env.answering| <= |Workers(env)|
  {
    WorkersAreIds(env);
  }

  /** A failover is counted whenever a standby becomes active. */
  predicate FailoverCounted(s: State, t: State) {
    t.failoverCount == s.failoverCount + if s.role == Standby && t.role == Active then 1 else 0
  }

  lemma MissCounts(cfg: Config, env: Env, limit: int, s: State)
    ensures var t := PeerFailed(cfg, env, limit, s);
      && !t.peerOnline && FailoverCounted(s, t)
      && t.consecutiveFailures == if s.role == Standby && t.role == Active then 0 else s.consecutiveFailures + 1
  {
    var t := s.(peerOnline := false, consecutiveFailures := s.consecutiveFailures + 1);
    TakeOverCounts(cfg, env, SafetyOf(cfg, env), t);
    StepDownCounts(cfg, env, QuorumOf(env), t);
  }

  lemma TakeOverCounts(cfg: Config, env: Env, check: Safety, s: State)
    ensures var t := TakeOverBy(cfg, env, check, s);
      && t.peerOnline == s.peerOnline
      && t.failoverCount == s.failoverCount + (if check.safe then 1 else 0)
      && t.role == (if check.safe then Active else s.role)
      && t.consecutiveFailures == if check.safe then 0 else s.consecutiveFailures
  {}

  lemma StepDownCounts(cfg: Config, env: Env, q: Quorum, s: State)
    ensures var t := StepDownBy(cfg, env, q, s);
      && t.peerOnline == s.peerOnline && t.failoverCount == s.failoverCount
      && t.consecutiveFailures == s.consecutiveFailures && (t.role == s.role || t.role == Standby)
  {}

  lemma AnswerCounts(cfg: Config, env: Env, s: State, peer: Role)
    ensures var t := PeerAnswered(cfg, env, s, peer);
      t.peerOnline && t.consecutiveFailures == 0 && FailoverCounted(s, t)
  {}

  lemma RoleChangeCounts(cfg: Config, env: Env, s: State)
    ensures forall t | t in {Promoted(cfg, env, s), Demoted(cfg, env, s)} ::
      t.peerOnline == s.peerOnline && t.consecutiveFailures == s.consecutiveFailures && FailoverCounted(s, t)
  {}

  /** A node asks its peer for a switchover only if it is not standalone and believes the peer
      is up. */
  predicate AsksPeer(cfg: Config, s: State) {
    cfg.mode != Standalone && s.peerOnline
  }

  // ---- what every operation keeps

  /** Only an active node holds the virtual address, and none does when none is configured. */
  predicate VipOk(cfg: Config, s: State) {
    s.vipActive ==> s.role == Active && cfg.vip != ""
  }

  /** Every operation of a node that finds a network interface keeps it so. */
  lemma VipKept(cfg: Config, env: Env, s: State, limit: int, peer: Role)
    requires VipOk(cfg, s) && Interface(cfg, env) != ""
    ensures VipOk(cfg, Promoted(cfg, env, s)) && VipOk(cfg, Demoted(cfg, env, s))
    ensures VipOk(cfg, PeerAnswered(cfg, env, s, peer)) && VipOk(cfg, PeerFailed(cfg, env, limit, s))
  {
    VipKeptByMiss(cfg, env, s, limit);
  }

  lemma VipKeptByMiss(cfg: Config, env: Env, s: State, limit: int)
    requires VipOk(cfg, s) && Interface(cfg, env) != ""
    ensures VipOk(cfg, PeerFailed(cfg, env, limit, s))
  {
    var t := s.(peerOnline := false, consecutiveFailures := s.consecutiveFailures + 1);
    assert VipOk(cfg, t);
    if t.consecutiveFailures >= limit && t.role == Standby {
      assert VipOk(cfg, TakeOver(cfg, env, t));
    } else if t.consecutiveFailures >= limit && cfg.enableWorkerQuorum {
      assert VipOk(cfg, StepDown(cfg, env, t));
    }
  }

  /** A node holds the virtual address exactly when it is active and one is configured. */
  predicate VipHeld(cfg: Config, s: State) {
    s.vipActive <==> s.role == Active && cfg.vip != ""
  }

  /** So it is once a node of a pair has started, */
  lemma StartHoldsVip(cfg: Config, env: Env)
    requires cfg.mode != Standalone && Interface(cfg, env) != ""
    ensures VipHeld(cfg, Started(cfg, env))
  {}

  /** and every operation of a node that finds a network interface keeps it so. */
  lemma VipHeldKept(cfg: Config, env: Env, s: State, limit: int, peer: Role)
    requires VipHeld(cfg, s) && Interface(cfg, env) != ""
    ensures VipHeld(cfg, Promoted(cfg, env, s)) && VipHeld(cfg, Demoted(cfg, env, s))
    ensures VipHeld(cfg, PeerAnswered(cfg, env, s, peer)) && VipHeld(cfg, PeerFailed(cfg, env, limit, s))
  {
    VipHeldKeptByMiss(cfg, env, s, limit);
  }

  lemma VipHeldKeptByMiss(cfg: Config, env: Env, s: State, limit: int)
    requires VipHeld(cfg, s) && Interface(cfg, env) != ""
    ensures VipHeld(cfg, PeerFailed(cfg, env, limit, s))
  {
    var t := s.(peerOnline := false, consecutiveFailures := s.consecutiveFailures + 1);
    assert VipHeld(cfg, t);
    if t.consecutiveFailures >= limit && t.role == Standby {
      assert VipHeld(cfg, TakeOver(cfg, env, t));
    } else if t.consecutiveFailures >= limit && cfg.enableWorkerQuorum {
      assert VipHeld(cfg, StepDown(cfg, env, t));
    }
  }
}
