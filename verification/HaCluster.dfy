/** Two manager nodes and the messages between them as a transition system, and failover
    while the link between the nodes is down. */
module HaCluster {
  import opened Wrappers
  import opened HaState

  datatype Who = A | B

  function Other(w: Who): Who {
    if w == A then B else A
  }

  // ---- messages on their way

  datatype Outcome = Waiting | Confirmed | GivenUp

  /** A switchover request: who asks, whether that node was active when it asked, whether the
      peer has obeyed yet, and what the sender has heard. The peer may obey a request its
      sender has given up. */
  datatype Ask = Ask(who: Who, wasActive: bool, delivered: bool, outcome: Outcome)

  /** Both nodes, the role that the answer to each node's last heartbeat carries while it is
      on its way, and all switchover requests ever made. */
  datatype Cluster = Cluster(a: State, b: State, answerA: Option<Role>, answerB: Option<Role>, asks: seq<Ask>) {
    function Node(w: Who): State {
      if w == A then a else b
    }

    function Answer(w: Who): Option<Role> {
      if w == A then answerA else answerB
    }

    function With(w: Who, s: State): Cluster {
      if w == A then this.(a := s) else this.(b := s)
    }

    function WithAnswer(w: Who, answer: Option<Role>): Cluster {
      if w == A then this.(answerA := answer) else this.(answerB := answer)
    }

    predicate BothActive() {
      a.role == Active && b.role == Active
    }

    predicate OneActive() {
      a.role == Active <==> b.role != Active
    }

    /** Request `i` was made and waits for the sender to hear. */
    predicate Awaited(i: nat) {
      i < |asks| && asks[i].outcome == Waiting
    }
  }

  datatype Setup = Setup(a: Config, b: Config, limitA: int, limitB: int) {
    function Config(w: Who): Config {
      if w == A then a else b
    }

    function Limit(w: Who): int {
      if w == A then limitA else limitB
    }

    /** Both nodes are set up to watch a peer. */
    predicate Paired() {
      a.mode != Standalone && b.mode != Standalone && a.peerURL != "" && b.peerURL != ""
    }
  }

  // ---- events

  /** Each event is what one node does under its own lock; messages travel between events. */
  datatype Event =
    | Heartbeat(who: Who)                // the peer handles a heartbeat of `who` and answers with its role
    | ProbeAnswered(who: Who, env: Env)  // that answer reaches `who`
    | ProbeMissed(who: Who, env: Env)    // a heartbeat of `who` fails
    | Asks(who: Who)                     // `who` reads its own role and sends a switchover request
    | Arrives(i: nat, env: Env)          // request `i` reaches the peer, which changes role
    | Confirms(i: nat, env: Env)         // the sender of `i` hears that the peer has obeyed, and changes role
    | GivesUp(i: nat)                    // the sender of `i` hears an error, or nothing in time

  predicate Sends(u: Setup, c: Cluster, who: Who) {
    AsksPeer(u.Config(who), c.Node(who))
  }

  /** What the peer does with a request: the opposite of the role the sender had. */
  function Obeyed(u: Setup, c: Cluster, ask: Ask, env: Env): Cluster {
    var peer := Other(ask.who);
    c.With(peer, if ask.wasActive then Promoted(u.Config(peer), env, c.Node(peer))
                 else Demoted(u.Config(peer), env, c.Node(peer)))
  }

  /** What the sender does once the peer has obeyed, whatever its role is by then. */
  function Followed(u: Setup, c: Cluster, ask: Ask, env: Env): Cluster {
    c.With(ask.who, if ask.wasActive then Demoted(u.Config(ask.who), env, c.Node(ask.who))
                    else Promoted(u.Config(ask.who), env, c.Node(ask.who)))
  }

  function Step(u: Setup, c: Cluster, e: Event): Cluster {
    match e
    case Heartbeat(who) => c.WithAnswer(who, Some(c.Node(Other(who)).role))
    case ProbeAnswered(who, env) =>
      if c.Answer(who).None? then c
      else
        var d := c.With(who, PeerAnswered(u.Config(who), env, c.Node(who), c.Answer(who).value));
        d.WithAnswer(who, None)
    case ProbeMissed(who, env) =>
      c.With(who, PeerFailed(u.Config(who), env, u.Limit(who), c.Node(who))).WithAnswer(who, None)
    case Asks(who) =>
      if !Sends(u, c, who) then c
      else c.(asks := c.asks + [Ask(who, c.Node(who).role == Active, false, Waiting)])
    case Arrives(i, env) =>
      if i >= |c.asks| || c.asks[i].delivered then c
      else Obeyed(u, c.(asks := c.asks[i := c.asks[i].(delivered := true)]), c.asks[i], env)
    case Confirms(i, env) =>
      if !c.Awaited(i) || !c.asks[i].delivered then c
      else Followed(u, c.(asks := c.asks[i := c.asks[i].(outcome := Confirmed)]), c.asks[i], env)
    case GivesUp(i) =>
      if !c.Awaited(i) then c else c.(asks := c.asks[i := c.asks[i].(outcome := GivenUp)])
  }

  function Run(u: Setup, c: Cluster, run: seq<Event>): Cluster {
    if run == [] then c else Step(u, Run(u, c, run[..|run| - 1]), run[|run| - 1])
  }

  lemma {:induction false} RunAppend(u: Setup, c: Cluster, x: seq<Event>, y: seq<Event>)
    ensures Run(u, c, x + y) == Run(u, Run(u, c, x), y)
  {
    if y == [] {
      assert x + y == x;
    } else {
      assert (x + y)[..|x + y| - 1] == x + y[..|y| - 1];
      RunAppend(u, c, x, y[..|y| - 1]);
    }
  }

  // ---- what a node makes of its heartbeats

  /** The answer to a heartbeat of `w` arrives. */
  predicate Hears(c: Cluster, e: Event, w: Who) {
    e.ProbeAnswered? && e.who == w && c.Answer(w).Some?
  }

  /** How many heartbeats of `w` have been missed since one was last answered. */
  function InARow(u: Setup, c: Cluster, run: seq<Event>, w: Who): nat {
    if run == [] then 0
    else
      var front, last := run[..|run| - 1], run[|run| - 1];
      if Misses1(last, w) then InARow(u, c, front, w) + 1
      else if Hears(Run(u, c, front), last, w) then 0
      else InARow(u, c, front, w)
  }

  lemma StepCounts(u: Setup, c: Cluster, e: Event, w: Who)
    ensures var s, t := c.Node(w), Step(u, c, e).Node(w);
      && FailoverCounted(s, t)
      && (Misses1(e, w) ==>
            (!t.peerOnline && (t.consecutiveFailures == 0 || t.consecutiveFailures == s.consecutiveFailures + 1)))
      && (Hears(c, e, w) ==> t.peerOnline && t.consecutiveFailures == 0)
      && (!Misses1(e, w) && !Hears(c, e, w) ==>
            (t.peerOnline == s.peerOnline && t.consecutiveFailures == s.consecutiveFailures))
  {
    match e
    case ProbeMissed(who, env) => MissCounts(u.Config(w), env, u.Limit(w), c.Node(w));
    case ProbeAnswered(who, env) =>
      if c.Answer(who).Some? {
        AnswerCounts(u.Config(w), env, c.Node(w), c.Answer(who).value);
      }
    case Arrives(i, env) => RoleChangeCounts(u.Config(w), env, c.Node(w));
    case Confirms(i, env) => RoleChangeCounts(u.Config(w), env, c.Node(w));
    case _ =>
  }

  /** What a node counts are misses in a row: an answer in between ends the count. */
  lemma {:induction false} CountedInARow(u: Setup, c: Cluster, run: seq<Event>, w: Who)
    requires c.Node(w).consecutiveFailures == 0
    ensures 0 <= Run(u, c, run).Node(w).consecutiveFailures <= InARow(u, c, run, w)
  {
    if run != [] {
      CountedInARow(u, c, run[..|run| - 1], w);
      StepCounts(u, Run(u, c, run[..|run| - 1]), run[|run| - 1], w);
    }
  }

  /** A standby takes over on a miss only when it and the misses before it, with no answer in
      between, are as many as the limit, and only when what it finds allows it. */
  lemma {:induction false} TakesOverAfterLimit(u: Setup, c: Cluster, run: seq<Event>, w: Who)
    requires c.Node(w).consecutiveFailures == 0 && run != [] && Misses1(run[|run| - 1], w)
    requires Run(u, c, run[..|run| - 1]).Node(w).role == Standby && Run(u, c, run).Node(w).role == Active
    ensures InARow(u, c, run, w) >= u.Limit(w) && MayTakeOver(u.Config(w), run[|run| - 1].env)
  {
    var front, last := run[..|run| - 1], run[|run| - 1];
    CountedInARow(u, c, front, w);
    TakesOverExactly(u.Config(w), last.env, u.Limit(w), Run(u, c, front).Node(w));
  }

  /** The last heartbeat of `w` that was answered or missed in the run was answered; before any,
      what `before` says. */
  function AnsweredLast(u: Setup, c: Cluster, run: seq<Event>, w: Who, before: bool): bool {
    if run == [] then before
    else
      var front, last := run[..|run| - 1], run[|run| - 1];
      if Misses1(last, w) then false
      else if Hears(Run(u, c, front), last, w) then true
      else AnsweredLast(u, c, front, w, before)
  }

  /** A node takes its peer to be up exactly when its last heartbeat was answered. */
  lemma {:induction false} OnlineIsLastOutcome(u: Setup, c: Cluster, run: seq<Event>, w: Who)
    ensures Run(u, c, run).Node(w).peerOnline <==> AnsweredLast(u, c, run, w, c.Node(w).peerOnline)
  {
    if run != [] {
      OnlineIsLastOutcome(u, c, run[..|run| - 1], w);
      StepCounts(u, Run(u, c, run[..|run| - 1]), run[|run| - 1], w);
    }
  }

  /** How many events of the run have turned `w` from standby to active. */
  function TurnsActive(u: Setup, c: Cluster, run: seq<Event>, w: Who): nat {
    if run == [] then 0
    else
      var front := run[..|run| - 1];
      TurnsActive(u, c, front, w)
        + if Run(u, c, front).Node(w).role == Standby && Run(u, c, run).Node(w).role == Active then 1 else 0
  }

  /** The failovers reported are the times the node became active. */
  lemma {:induction false} FailoversCounted(u: Setup, c: Cluster, run: seq<Event>, w: Who)
    ensures Run(u, c, run).Node(w).failoverCount == c.Node(w).failoverCount + TurnsActive(u, c, run, w)
  {
    if run != [] {
      FailoversCounted(u, c, run[..|run| - 1], w);
      StepCounts(u, Run(u, c, run[..|run| - 1]), run[|run| - 1], w);
    }
  }

  // ---- a partition: nothing passes between the nodes

  /** Heartbeats are missed; switchover requests may be made and given up, but none arrives. */
  ghost predicate Partitioned(run: seq<Event>) {
    forall i | 0 <= i < |run| :: run[i].ProbeMissed? || run[i].Asks? || run[i].GivesUp?
  }

  /** How many heartbeats `who` has missed in the run. */
  function Misses(run: seq<Event>, who: Who): nat {
    if run == [] then 0
    else Misses(run[..|run| - 1], who) + if Misses1(run[|run| - 1], who) then 1 else 0
  }

  predicate Misses1(e: Event, who: Who) {
    e.ProbeMissed? && e.who == who
  }

  /** The node lists the workers `all`, and only workers in `reach` can answer it. */
  ghost predicate Sees(env: Env, all: set<string>, reach: set<string>) {
    env.listing.Listed? && WorkerIds(env.listing.nodes) == all && env.answering * all <= reach
  }

  ghost predicate SeesThroughout(run: seq<Event>, who: Who, all: set<string>, reach: set<string>) {
    forall i | 0 <= i < |run| && Misses1(run[i], who) :: Sees(run[i].env, all, reach)
  }

  /** The same, except that a `blind` node may also fail to list the workers, as it does
      while its database is closed. */
  ghost predicate MaySee(run: seq<Event>, who: Who, all: set<string>, reach: set<string>, blind: bool) {
    forall i | 0 <= i < |run| && Misses1(run[i], who) ::
      Sees(run[i].env, all, reach) || (blind && !run[i].env.listing.Listed?)
  }

  lemma SubsetSize(x: set<string>, y: set<string>)
    requires x <= y
    ensures |x| <= |y|
  {
    assert y == x + (y - x);
  }

  /** A node that can reach no majority of the workers fails the quorum check. */
  lemma NoMajorityNoQuorum(env: Env, all: set<string>, reach: set<string>)
    requires all != {} && Sees(env, all, reach) && reach <= all && 2 * |reach| <= |all|
    ensures QuorumOf(env).total > 0 && !QuorumOf(env).passed
  {
    SubsetSize(all * env.answering, reach);
  }

  /** Disjoint sets of workers cannot both be majorities. */
  lemma OneMajority(all: set<string>, r: set<string>, s: set<string>)
    requires r <= all && s <= all && r !! s
    ensures 2 * |r| <= |all| || 2 * |s| <= |all|
  {
    SubsetSize(r + s, all);
  }

  /** A missed heartbeat on the minority side: counted, and at the limit the node stands by. */
  lemma MinorityMisses(cfg: Config, s: State, limit: int, env: Env, all: set<string>, reach: set<string>)
    requires cfg.enableWorkerQuorum && all != {} && reach <= all && 2 * |reach| <= |all| && Sees(env, all, reach)
    ensures var t := PeerFailed(cfg, env, limit, s);
            && t.consecutiveFailures == s.consecutiveFailures + 1
            && (t.role == Active <==> s.role == Active && t.consecutiveFailures < limit)
  {
    NoMajorityNoQuorum(env, all, reach);
  }

  /** The exact role of a node on the minority side of a partition: it is active exactly
      when it was and its misses have not reached the limit. The misses it had before count. */
  lemma {:induction false} MinorityStandsBy(u: Setup, c: Cluster, run: seq<Event>, w: Who,
                                            all: set<string>, reach: set<string>)
    requires u.Config(w).enableWorkerQuorum && all != {} && reach <= all && 2 * |reach| <= |all|
    requires Partitioned(run) && SeesThroughout(run, w, all, reach)
    ensures Run(u, c, run).Node(w).consecutiveFailures == c.Node(w).consecutiveFailures + Misses(run, w)
    ensures Run(u, c, run).Node(w).role == Active <==>
      c.Node(w).role == Active
      && (Misses(run, w) == 0 || c.Node(w).consecutiveFailures + Misses(run, w) < u.Limit(w))
  {
    if run != [] {
      var front, last := run[..|run| - 1], run[|run| - 1];
      MinorityStandsBy(u, c, front, w, all, reach);
      if Misses1(last, w) {
        MinorityMisses(u.Config(w), Run(u, c, front).Node(w), u.Limit(w), last.env, all, reach);
      }
    }
  }

  /** The last event decides the role of a node without a majority: a miss at its limit, with
      the workers listed, or not listed but the gateway up. */
  predicate Decides(u: Setup, c: Cluster, e: Event, w: Who) {
    && Misses1(e, w) && c.Node(w).consecutiveFailures + 1 >= u.Limit(w)
    && (e.env.listing.Listed? || !GatewayDown(u.Config(w), e.env))
  }

  /** Whether the workers were listed at the last event that decided the role, if any did. */
  function LastDecision(u: Setup, c: Cluster, run: seq<Event>, w: Who): Option<bool> {
    if run == [] then None
    else
      var front, last := run[..|run| - 1], run[|run| - 1];
      if Decides(u, Run(u, c, front), last, w) then Some(last.env.listing.Listed?) else LastDecision(u, c, front, w)
  }

  /** The exact role of a node without a majority that may also fail to list the workers: what
      it was until a first deciding miss, and then active exactly when the workers were not
      listed at the last one. */
  lemma {:induction false} CutOffRole(u: Setup, c: Cluster, run: seq<Event>, w: Who, all: set<string>,
                                      reach: set<string>)
    requires u.Config(w).enableWorkerQuorum && all != {} && reach <= all && 2 * |reach| <= |all|
    requires Partitioned(run) && MaySee(run, w, all, reach, true)
    ensures Run(u, c, run).Node(w).role == Active <==>
      if LastDecision(u, c, run, w).Some? then !LastDecision(u, c, run, w).value else c.Node(w).role == Active
  {
    if run != [] {
      var front, last := run[..|run| - 1], run[|run| - 1];
      CutOffRole(u, c, front, w, all, reach);
      if Misses1(last, w) {
        var n := Run(u, c, front).Node(w);
        if last.env.listing.Listed? {
          MinorityMisses(u.Config(w), n, u.Limit(w), last.env, all, reach);
        } else if !GatewayDown(u.Config(w), last.env) {
          UnopposedMiss(u.Config(w), n, u.Limit(w), last.env, all);
        } else {
          BlindMiss(u.Config(w), n, u.Limit(w), last.env);
        }
      }
    }
  }

  lemma BlindMiss(cfg: Config, s: State, limit: int, env: Env)
    requires GatewayDown(cfg, env) && !env.listing.Listed?
    ensures PeerFailed(cfg, env, limit, s).role == s.role
  {}

  /** Nothing keeps a node with this view from taking over or staying active: its gateway is
      up, and it sees a majority of the workers or cannot list them at all. */
  ghost predicate Unopposed(cfg: Config, env: Env, all: set<string>) {
    !GatewayDown(cfg, env) && (env.listing.Listed? ==> SeesMajority(cfg, env, all))
  }

  /** What a node on the majority side sees when its probes are answered and its gateway is up. */
  ghost predicate SeesMajority(cfg: Config, env: Env, all: set<string>) {
    && env.listing.Listed? && WorkerIds(env.listing.nodes) == all
    && 2 * |all * env.answering| > |all| && !GatewayDown(cfg, env)
  }

  /** The other half of failover: a standby that is unopposed becomes active by its limit-th
      missed heartbeat, and stays active. */
  lemma {:induction false} UnopposedTakesOver(u: Setup, c: Cluster, run: seq<Event>, w: Who, all: set<string>)
    requires u.Config(w).enableWorkerQuorum && u.Limit(w) >= 1 && Partitioned(run)
    requires forall i | 0 <= i < |run| && Misses1(run[i], w) :: Unopposed(u.Config(w), run[i].env, all)
    requires c.Node(w).consecutiveFailures >= 0
    ensures var n := Run(u, c, run).Node(w);
      n.role == Active
      || (c.Node(w).role == Standby && n.consecutiveFailures >= Misses(run, w) && Misses(run, w) < u.Limit(w))
  {
    if run != [] {
      var front, last := run[..|run| - 1], run[|run| - 1];
      UnopposedTakesOver(u, c, front, w, all);
      if Misses1(last, w) {
        UnopposedMiss(u.Config(w), Run(u, c, front).Node(w), u.Limit(w), last.env, all);
      }
    }
  }

  /** A missed heartbeat of an unopposed node: an active one stays so, a standby takes over at
      its limit. */
  lemma UnopposedMiss(cfg: Config, s: State, limit: int, env: Env, all: set<string>)
    requires cfg.enableWorkerQuorum && Unopposed(cfg, env, all)
    ensures var t := PeerFailed(cfg, env, limit, s);
            && (t.role == Active <==> s.role == Active || s.consecutiveFailures + 1 >= limit)
            && (t.role == Standby ==> t.consecutiveFailures == s.consecutiveFailures + 1)
  {}

  /** A standby on the majority side becomes active by its limit-th missed heartbeat, and stays
      active. */
  lemma MajorityTakesOver(u: Setup, c: Cluster, run: seq<Event>, w: Who, all: set<string>)
    requires u.Config(w).enableWorkerQuorum && all != {} && u.Limit(w) >= 1 && Partitioned(run)
    requires forall i | 0 <= i < |run| && Misses1(run[i], w) :: SeesMajority(u.Config(w), run[i].env, all)
    requires c.Node(w).consecutiveFailures >= 0
    ensures var n := Run(u, c, run).Node(w);
      n.role == Active
      || (c.Node(w).role == Standby && n.consecutiveFailures >= Misses(run, w) && Misses(run, w) < u.Limit(w))
  {
    UnopposedTakesOver(u, c, run, w, all);
  }

  // ---- exactly when a partition cannot give two active nodes

  /** `w` began as a standby or has missed its limit of heartbeats since. */
  predicate TimedOut(u: Setup, c: Cluster, run: seq<Event>, w: Who) {
    c.Node(w).role == Standby || Misses(run, w) >= u.Limit(w) >= 1
  }

  /** A run of the partition in which A reaches the workers `reachA` and B reaches `reachB`,
      blind nodes failing to list them now and then, long enough for both to have noticed. */
  ghost predicate Apart(u: Setup, c: Cluster, run: seq<Event>, all: set<string>,
                        reachA: set<string>, reachB: set<string>, blindA: bool, blindB: bool) {
    && Partitioned(run) && MaySee(run, A, all, reachA, blindA) && MaySee(run, B, all, reachB, blindB)
    && c.a.consecutiveFailures >= 0 && c.b.consecutiveFailures >= 0
    && TimedOut(u, c, run, A) && TimedOut(u, c, run, B)
  }

  /** The quorum check can hold a node back: it can always list the workers, and reaches no
      majority of them. */
  predicate HeldBack(all: set<string>, reach: set<string>, blind: bool) {
    !blind && 2 * |reach| <= |all|
  }

  /** The worker quorum prevents two active nodes in every such run exactly when one of the
      nodes can always list the workers and cannot reach a majority of them. */
  lemma {:induction false} NoSplitBrainExactly(u: Setup, all: set<string>, reachA: set<string>, reachB: set<string>,
                                               blindA: bool, blindB: bool)
    requires u.Paired() && u.a.enableWorkerQuorum && u.b.enableWorkerQuorum && u.limitA >= 1 && u.limitB >= 1
    requires all != {} && reachA <= all && reachB <= all
    ensures (forall c: Cluster, run: seq<Event> |
               Apart(u, c, run, all, reachA, reachB, blindA, blindB) :: !Run(u, c, run).BothActive())
       <==> HeldBack(all, reachA, blindA) || HeldBack(all, reachB, blindB)
  {
    if HeldBack(all, reachA, blindA) || HeldBack(all, reachB, blindB) {
      forall c: Cluster, run: seq<Event> | Apart(u, c, run, all, reachA, reachB, blindA, blindB)
        ensures !Run(u, c, run).BothActive()
      {
        OneSideStandsBy(u, c, run, all, reachA, reachB, blindA, blindB);
      }
    } else {
      BothTakeOver(u, all, reachA, reachB, blindA, blindB);
      var c, run := StartedPair(u), Silence(u.limitA, ViewOf(all, reachA), u.limitB, ViewOf(all, reachB));
      assert Apart(u, c, run, all, reachA, reachB, blindA, blindB) && Run(u, c, run).BothActive();
    }
  }

  lemma OneSideStandsBy(u: Setup, c: Cluster, run: seq<Event>, all: set<string>,
                        reachA: set<string>, reachB: set<string>, blindA: bool, blindB: bool)
    requires u.a.enableWorkerQuorum && u.b.enableWorkerQuorum
    requires all != {} && reachA <= all && reachB <= all
    requires Apart(u, c, run, all, reachA, reachB, blindA, blindB)
    requires HeldBack(all, reachA, blindA) || HeldBack(all, reachB, blindB)
    ensures !Run(u, c, run).BothActive()
  {
    if HeldBack(all, reachA, blindA) {
      MinorityStandsBy(u, c, run, A, all, reachA);
    } else {
      MinorityStandsBy(u, c, run, B, all, reachB);
    }
  }

  /** Two nodes that can list the same workers and reach disjoint sets of them are never both active once
      each of them started as standby or has missed its limit of heartbeats in a row,
      whatever the order of the missed heartbeats. */
  lemma PartitionSafety(u: Setup, c: Cluster, run: seq<Event>, all: set<string>,
                        reachA: set<string>, reachB: set<string>)
    requires u.a.enableWorkerQuorum && u.b.enableWorkerQuorum
    requires all != {} && reachA <= all && reachB <= all && reachA !! reachB
    requires Apart(u, c, run, all, reachA, reachB, false, false)
    ensures !Run(u, c, run).BothActive()
  {
    OneMajority(all, reachA, reachB);
    OneSideStandsBy(u, c, run, all, reachA, reachB, false, false);
  }

  // ---- runs that show the conditions are needed

  /** The workers of a cluster, listed in some order. */
  ghost function Roster(ids: set<string>): (nodes: seq<ClusterNode>)
    ensures WorkerIds(nodes) == ids
    decreases |ids|
  {
    if ids == {} then []
    else
      SomeMember(ids);
      var id :| id in ids;
      var rest := Roster(ids - {id});
      OneMoreWorker(rest, id);
      rest + [ClusterNode(id, "worker")]
  }

  lemma SomeMember(ids: set<string>)
    ensures ids == {} || exists id :: id in ids
  {}

  lemma OneMoreWorker(nodes: seq<ClusterNode>, id: string)
    ensures WorkerIds(nodes + [ClusterNode(id, "worker")]) == WorkerIds(nodes) + {id}
  {
    var more := nodes + [ClusterNode(id, "worker")];
    assert more[|nodes|].id == id;
    forall x | x in WorkerIds(nodes) ensures x in WorkerIds(more) {
      var i :| 0 <= i < |nodes| && nodes[i].role == "worker" && nodes[i].id == x;
      assert more[i].id == x;
    }
  }

  /** All workers of the cluster are listed, those in `answers` answer, and so does the gateway. */
  ghost function EnvOf(all: set<string>, answers: set<string>): Env {
    Env("", true, "eth0", Listed(Roster(all)), answers)
  }

  ghost function MissedBy(w: Who, n: nat, env: Env): seq<Event> {
    seq(n, _ => ProbeMissed(w, env))
  }

  lemma {:induction false} MissesOfMissedBy(w: Who, n: nat, env: Env)
    ensures Misses(MissedBy(w, n, env), w) == n && Misses(MissedBy(w, n, env), Other(w)) == 0
  {
    if n > 0 {
      assert MissedBy(w, n, env)[..n - 1] == MissedBy(w, n - 1, env);
      MissesOfMissedBy(w, n - 1, env);
    }
  }

  lemma {:induction false} MissesAppend(x: seq<Event>, y: seq<Event>, w: Who)
    ensures Misses(x + y, w) == Misses(x, w) + Misses(y, w)
  {
    if y == [] {
      assert x + y == x;
    } else {
      assert (x + y)[..|x + y| - 1] == x + y[..|y| - 1];
      MissesAppend(x, y[..|y| - 1], w);
    }
  }

  /** A pair as it is after start, A active and B standing by. */
  function StartedPair(u: Setup): Cluster {
    Cluster(Initial(u.a.(mode := Primary)), Initial(u.b.(mode := Backup)), None, None, [])
  }

  /** A misses `n` heartbeats, then B misses `m`. */
  ghost function Silence(n: nat, envA: Env, m: nat, envB: Env): seq<Event> {
    MissedBy(A, n, envA) + MissedBy(B, m, envB)
  }

  lemma {:induction false} SilenceIs(n: nat, envA: Env, m: nat, envB: Env)
    ensures var run := Silence(n, envA, m, envB);
            && Partitioned(run) && Misses(run, A) == n && Misses(run, B) == m
            && (forall i | 0 <= i < |run| && Misses1(run[i], A) :: run[i].env == envA)
            && (forall i | 0 <= i < |run| && Misses1(run[i], B) :: run[i].env == envB)
  {
    MissesAppend(MissedBy(A, n, envA), MissedBy(B, m, envB), A);
    MissesAppend(MissedBy(A, n, envA), MissedBy(B, m, envB), B);
    MissesOfMissedBy(A, n, envA);
    MissesOfMissedBy(B, m, envB);
  }

  lemma EnvOfShows(cfg: Config, all: set<string>, reach: set<string>)
    requires reach <= all
    ensures Sees(EnvOf(all, reach), all, reach)
    ensures 2 * |reach| > |all| ==> SeesMajority(cfg, EnvOf(all, reach), all)
  {
    assert all * reach == reach * all == reach;
  }

  /** What a node sees that cannot list the workers. */
  function Unlisted(): Env {
    Env("", true, "eth0", ListFailed, {})
  }

  /** The view that lets a node take over if any does: the workers it reaches if they are a
      majority, and else none listed. */
  ghost function ViewOf(all: set<string>, reach: set<string>): Env {
    if 2 * |reach| > |all| then EnvOf(all, reach) else Unlisted()
  }

  /** Nodes of which neither is held back are both active once first A and then B has missed
      its limit of heartbeats. */
  lemma {:induction false} BothTakeOver(u: Setup, all: set<string>, reachA: set<string>, reachB: set<string>,
                                        blindA: bool, blindB: bool)
    requires u.a.enableWorkerQuorum && u.b.enableWorkerQuorum && u.limitA >= 1 && u.limitB >= 1
    requires reachA <= all && reachB <= all && !HeldBack(all, reachA, blindA) && !HeldBack(all, reachB, blindB)
    ensures var c, run := StartedPair(u), Silence(u.limitA, ViewOf(all, reachA), u.limitB, ViewOf(all, reachB));
            Apart(u, c, run, all, reachA, reachB, blindA, blindB) && Run(u, c, run).BothActive()
  {
    var c, run := StartedPair(u), Silence(u.limitA, ViewOf(all, reachA), u.limitB, ViewOf(all, reachB));
    SilenceIs(u.limitA, ViewOf(all, reachA), u.limitB, ViewOf(all, reachB));
    EnvOfShows(u.a, all, reachA);
    EnvOfShows(u.b, all, reachB);
    UnopposedTakesOver(u, c, run, A, all);
    UnopposedTakesOver(u, c, run, B, all);
  }

  /** The quorum counts reachable workers, not votes: nodes that each reach a majority are
      both active, although both can list the workers. */
  lemma SharedWorkersAllowTwo(u: Setup, all: set<string>, reachA: set<string>, reachB: set<string>)
    requires u.a.enableWorkerQuorum && u.b.enableWorkerQuorum && u.limitA >= 1 && u.limitB >= 1
    requires reachA <= all && reachB <= all && 2 * |reachA| > |all| && 2 * |reachB| > |all|
    ensures var c, run := StartedPair(u), Silence(u.limitA, EnvOf(all, reachA), u.limitB, EnvOf(all, reachB));
            Apart(u, c, run, all, reachA, reachB, false, false) && Run(u, c, run).BothActive()
  {
    BothTakeOver(u, all, reachA, reachB, false, false);
  }

  /** A node that cannot list the workers passes the check: reaching none of them, B takes over
      beside an active node that reaches a majority. */
  lemma UnlistedWorkersAllowTwo(u: Setup, all: set<string>, reach: set<string>)
    requires u.a.enableWorkerQuorum && u.b.enableWorkerQuorum && u.limitA >= 1 && u.limitB >= 1
    requires reach <= all && 2 * |reach| > |all|
    ensures var c, run := StartedPair(u), Silence(u.limitA, EnvOf(all, reach), u.limitB, Unlisted());
            Apart(u, c, run, all, reach, {}, false, true) && Run(u, c, run).BothActive()
  {
    BothTakeOver(u, all, reach, {}, false, true);
  }

  /** When only B reaches a majority and A misses `n` heartbeats before B misses its limit,
      both end active exactly while A has missed none or fewer than its limit: the window
      that the limit closes. */
  lemma {:induction false} WindowBeforeLimit(u: Setup, all: set<string>, reach: set<string>, n: nat)
    requires u.a.enableWorkerQuorum && u.b.enableWorkerQuorum && u.limitB >= 1
    requires reach <= all && 2 * |reach| > |all|
    ensures var c, run := StartedPair(u), Silence(n, EnvOf(all, {}), u.limitB, EnvOf(all, reach));
            && Partitioned(run) && SeesThroughout(run, A, all, {}) && SeesThroughout(run, B, all, reach)
            && Misses(run, A) == n && TimedOut(u, c, run, B)
            && (Run(u, c, run).BothActive() <==> n == 0 || n < u.limitA)
  {
    var c, run := StartedPair(u), Silence(n, EnvOf(all, {}), u.limitB, EnvOf(all, reach));
    SilenceIs(n, EnvOf(all, {}), u.limitB, EnvOf(all, reach));
    EnvOfShows(u.a, all, {});
    EnvOfShows(u.b, all, reach);
    assert all != {};
    MinorityStandsBy(u, c, run, A, all, {});
    MajorityTakesOver(u, c, run, B, all);
  }
}
