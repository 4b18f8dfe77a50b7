/** Switchover requests, heartbeats and their replies in every interleaving: when two nodes
    become active, how an exchange ends, and how two active nodes heal. */
module HaSwitchover {
  import opened Wrappers
  import opened HaState
  import opened HaCluster

  // ---- which steps make a second node active

  /** The step is a request of an active node that makes its standby peer active too; or the
      confirmation of a standby's request whose peer has become active again; or a failover
      while the peer is active. */
  predicate MakesTwo(u: Setup, c: Cluster, e: Event) {
    match e
    case Arrives(i, _) =>
      && i < |c.asks| && !c.asks[i].delivered && c.asks[i].wasActive
      && c.Node(c.asks[i].who).role == Active && c.Node(Other(c.asks[i].who)).role == Standby
    case Confirms(i, _) =>
      && c.Awaited(i) && c.asks[i].delivered && !c.asks[i].wasActive
      && c.Node(c.asks[i].who).role == Standby && c.Node(Other(c.asks[i].who)).role == Active
    case ProbeMissed(who, env) =>
      && c.Node(who).role == Standby && c.Node(Other(who)).role == Active
      && c.Node(who).consecutiveFailures + 1 >= u.Limit(who) && SafetyOf(u.Config(who), env).safe
    case _ => false
  }

  lemma StepMakesTwoExactly(u: Setup, c: Cluster, e: Event)
    requires !c.BothActive()
    ensures Step(u, c, e).BothActive() <==> MakesTwo(u, c, e)
  {}

  /** In every run from a state without two active nodes, two are active at some point
      exactly when one of those steps is taken. */
  lemma {:induction false} TwoArisesExactly(u: Setup, c: Cluster, run: seq<Event>)
    requires !c.BothActive()
    ensures (exists k {:trigger run[..k]} | 0 <= k <= |run| :: Run(u, c, run[..k]).BothActive())
       <==> (exists k {:trigger run[k]} | 0 <= k < |run| :: MakesTwo(u, Run(u, c, run[..k]), run[k]))
  {
    if k :| 0 <= k <= |run| && Run(u, c, run[..k]).BothActive() {
      FirstTwo(u, c, run, k);
    }
    if k :| 0 <= k < |run| && MakesTwo(u, Run(u, c, run[..k]), run[k]) {
      RunOneMore(u, c, run, k);
      if !Run(u, c, run[..k]).BothActive() {
        StepMakesTwoExactly(u, Run(u, c, run[..k]), run[k]);
      }
      assert Run(u, c, run[..k + 1]).BothActive() || Run(u, c, run[..k]).BothActive();
    }
  }

  lemma RunOneMore(u: Setup, c: Cluster, run: seq<Event>, k: nat)
    requires k < |run|
    ensures Run(u, c, run[..k + 1]) == Step(u, Run(u, c, run[..k]), run[k])
  {
    assert run[..k + 1][..k] == run[..k];
  }

  lemma {:induction false} FirstTwo(u: Setup, c: Cluster, run: seq<Event>, k: nat)
    requires !c.BothActive() && k <= |run| && Run(u, c, run[..k]).BothActive()
    ensures exists j {:trigger run[j]} | 0 <= j < |run| :: MakesTwo(u, Run(u, c, run[..j]), run[j])
  {
    if k > 0 {
      RunOneMore(u, c, run, k - 1);
      if Run(u, c, run[..k - 1]).BothActive() {
        FirstTwo(u, c, run, k - 1);
      } else {
        StepMakesTwoExactly(u, Run(u, c, run[..k - 1]), run[k - 1]);
      }
    }
  }

  // ---- requests of the standby, without failover

  /** No request of the other node is waiting when a node asks. */
  predicate InTurn(c: Cluster, who: Who) {
    forall i | 0 <= i < |c.asks| && c.asks[i].outcome == Waiting :: c.asks[i].who == who
  }

  /** An event of a run without failover in which only a standby asks; with `inTurn`, it
      never asks while a request of the other node is waiting. */
  predicate StandbySide(u: Setup, c: Cluster, e: Event, inTurn: bool) {
    && !e.ProbeMissed?
    && (e.Asks? && Sends(u, c, e.who) ==> c.Node(e.who).role == Standby && (inTurn ==> InTurn(c, e.who)))
  }

  ghost predicate StandbySideRun(u: Setup, c: Cluster, run: seq<Event>, inTurn: bool) {
    && c.asks == [] && !c.BothActive()
    && forall k {:trigger run[k]} | 0 <= k < |run| :: StandbySide(u, Run(u, c, run[..k]), run[k], inTurn)
  }

  /** All requests came from a standby; those waiting came from one node, and once such a
      request has arrived its receiver stands by. */
  ghost predicate AskInv(c: Cluster) {
    && !c.BothActive()
    && (forall i | 0 <= i < |c.asks| :: !c.asks[i].wasActive)
    && (forall i, j | 0 <= i < |c.asks| && 0 <= j < |c.asks| && c.asks[i].outcome == c.asks[j].outcome == Waiting
          :: c.asks[i].who == c.asks[j].who)
    && (forall i | 0 <= i < |c.asks| && c.asks[i].outcome == Waiting && c.asks[i].delivered
          :: c.Node(Other(c.asks[i].who)).role == Standby)
  }

  lemma {:induction false} StepKeepsAskInv(u: Setup, c: Cluster, e: Event)
    requires AskInv(c) && StandbySide(u, c, e, true)
    ensures AskInv(Step(u, c, e))
  {
    if e.Heartbeat? || e.ProbeAnswered? {
      assert Step(u, c, e).asks == c.asks;
    } else if e.Asks? {
      AskKeepsAskInv(u, c, e.who);
    } else if e.Confirms? {
      ConfirmationKeepsAskInv(u, c, e);
    } else {
      ArrivalKeepsAskInv(u, c, e);
    }
  }

  lemma {:induction false} AskKeepsAskInv(u: Setup, c: Cluster, who: Who)
    requires AskInv(c) && StandbySide(u, c, Asks(who), true)
    ensures AskInv(Step(u, c, Asks(who)))
  {}

  lemma {:induction false} ArrivalKeepsAskInv(u: Setup, c: Cluster, e: Event)
    requires AskInv(c) && (e.Arrives? || e.GivesUp?)
    ensures AskInv(Step(u, c, e))
  {
    if e.i < |c.asks| {
      assert !c.asks[e.i].wasActive;
    }
  }

  lemma {:induction false} ConfirmationKeepsAskInv(u: Setup, c: Cluster, e: Event)
    requires AskInv(c) && e.Confirms?
    ensures AskInv(Step(u, c, e))
  {
    if e.i < |c.asks| {
      assert !c.asks[e.i].wasActive;
    }
  }

  /** Whatever is lost, delayed or answered late, requests of the standby never give two
      active nodes as long as no node asks while a request of the other is waiting. */
  lemma {:induction false} NeverTwoByStandbySwitchover(u: Setup, c: Cluster, run: seq<Event>)
    requires StandbySideRun(u, c, run, true)
    ensures AskInv(Run(u, c, run)) && !Run(u, c, run).BothActive()
  {
    if run != [] {
      var front, last := run[..|run| - 1], run[|run| - 1];
      forall k {:trigger front[k]} | 0 <= k < |front| ensures StandbySide(u, Run(u, c, front[..k]), front[k], true) {
        assert front[..k] == run[..k] && front[k] == run[k];
      }
      NeverTwoByStandbySwitchover(u, c, front);
      assert run[|run| - 1] == last;
      StepKeepsAskInv(u, Run(u, c, front), last);
    }
  }

  /** The condition is needed: A is active, B asks and A obeys; before B hears of it A asks,
      B is standing by already, and A becomes active again; then B hears and becomes active.
      No message is lost. */
  function CrossedRequests(env: Env): seq<Event> {
    [Asks(B), Arrives(0, env), Asks(A), Arrives(1, env), Confirms(1, env), Confirms(0, env)]
  }

  function ActiveAndStandby(): Cluster {
    var s := State(Active, true, 0, 0, false, true, 0, 0, true, false, NoReason);
    Cluster(s, s.(role := Standby), None, None, [])
  }

  lemma {:induction false} OneMoreStep(u: Setup, c: Cluster, run: seq<Event>, e: Event, inTurn: bool)
    requires StandbySideRun(u, c, run, inTurn) && StandbySide(u, Run(u, c, run), e, inTurn)
    ensures StandbySideRun(u, c, run + [e], inTurn) && Run(u, c, run + [e]) == Step(u, Run(u, c, run), e)
  {
    var more := run + [e];
    assert more[..|run|] == run;
    forall k {:trigger more[k]} | 0 <= k < |more| ensures StandbySide(u, Run(u, c, more[..k]), more[k], inTurn) {
      if k < |run| {
        assert more[..k] == run[..k] && more[k] == run[k];
      }
    }
  }

  /** B asks, A obeys, A asks. */
  lemma {:induction false} FirstHalf(u: Setup, env: Env)
    requires u.Paired()
    ensures var c, run := ActiveAndStandby(), CrossedRequests(env)[..3];
            var d := Run(u, c, run);
            && StandbySideRun(u, c, run, false) && d.a.role == d.b.role == Standby
            && d.asks == [Ask(B, false, true, Waiting), Ask(A, false, false, Waiting)]
  {
    var c, r := ActiveAndStandby(), CrossedRequests(env);
    OneMoreStep(u, c, [], r[0], false);
    OneMoreStep(u, c, [] + [r[0]], r[1], false);
    OneMoreStep(u, c, [] + [r[0]] + [r[1]], r[2], false);
    assert [] + [r[0]] + [r[1]] + [r[2]] == r[..3];
  }

  /** B asks, A obeys, A asks, B obeys and A hears: A is active, and B yet to hear. */
  lemma {:induction false} SecondHalf(u: Setup, env: Env)
    requires u.Paired()
    ensures var c, run := ActiveAndStandby(), CrossedRequests(env)[..5];
            var d := Run(u, c, run);
            && StandbySideRun(u, c, run, false) && d.a.role == Active && d.b.role == Standby
            && |d.asks| == 2 && d.asks[0] == Ask(B, false, true, Waiting)
  {
    var c, r := ActiveAndStandby(), CrossedRequests(env);
    FirstHalf(u, env);
    OneMoreStep(u, c, r[..3], r[3], false);
    OneMoreStep(u, c, r[..3] + [r[3]], r[4], false);
    assert r[..3] + [r[3]] + [r[4]] == r[..5];
  }

  lemma {:induction false} CrossedRequestsAllowTwo(u: Setup, env: Env)
    requires u.Paired()
    ensures StandbySideRun(u, ActiveAndStandby(), CrossedRequests(env), false)
    ensures Run(u, ActiveAndStandby(), CrossedRequests(env)).BothActive()
  {
    var c, r := ActiveAndStandby(), CrossedRequests(env);
    SecondHalf(u, env);
    OneMoreStep(u, c, r[..5], r[5], false);
    assert r[..5] + [r[5]] == r;
  }

  /** Requests of the standby are safe exactly when they are made in turn. */
  lemma {:induction false} StandbySideSafeExactly(u: Setup, inTurn: bool)
    requires u.Paired()
    ensures (forall c: Cluster, run: seq<Event> | StandbySideRun(u, c, run, inTurn) :: !Run(u, c, run).BothActive())
       <==> inTurn
  {
    if inTurn {
      forall c: Cluster, run: seq<Event> | StandbySideRun(u, c, run, inTurn) ensures !Run(u, c, run).BothActive() {
        NeverTwoByStandbySwitchover(u, c, run);
      }
    } else {
      var env := Env("", true, "eth0", NoStore, {});
      CrossedRequestsAllowTwo(u, env);
      var c, run := ActiveAndStandby(), CrossedRequests(env);
      assert StandbySideRun(u, c, run, inTurn) && Run(u, c, run).BothActive();
    }
  }

  // ---- one request among heartbeats

  /** The step makes a node give way: configured primary, it is active when it hears that
      its peer is, or was, active too. */
  predicate Yields(u: Setup, c: Cluster, e: Event) {
    && e.ProbeAnswered? && c.Answer(e.who) == Some(Active)
    && c.Node(e.who).role == Active && u.Config(e.who).mode == Primary
  }

  /** `w` has given way during the run. */
  predicate Yielded(u: Setup, c: Cluster, run: seq<Event>, w: Who) {
    run != []
    && var front, last := run[..|run| - 1], run[|run| - 1];
       Yielded(u, c, front, w) || (Yields(u, Run(u, c, front), last) && last.who == w)
  }

  /** Heartbeats that are answered, and the messages of request 0. */
  predicate OneExchange(e: Event) {
    match e
    case Heartbeat(_) => true
    case ProbeAnswered(_, _) => true
    case Arrives(i, _) => i == 0
    case Confirms(i, _) => i == 0
    case GivesUp(i) => i == 0
    case _ => false
  }

  /** What has become of one request of `w` and of both roles, given who has given way.
      Asked for by an active node: the sender is active unless it has heard of the success or
      given way, and the peer is once the request has arrived, unless it has given way since.
      Asked for by a standby: the sender is active once it has heard of the success, and the
      peer until the request arrives, giving way aside. */
  ghost predicate ExchangeIs(d: Cluster, w: Who, wasActive: bool, senderYielded: bool, peerYielded: bool) {
    && |d.asks| == 1 && d.asks[0].who == w && d.asks[0].wasActive == wasActive
    && (d.asks[0].outcome == Confirmed ==> d.asks[0].delivered)
    && (wasActive ==>
          && (peerYielded ==> d.asks[0].delivered)
          && (d.Node(w).role == Active <==> d.asks[0].outcome != Confirmed && !senderYielded)
          && (d.Node(Other(w)).role == Active <==> d.asks[0].delivered && !peerYielded))
    && (!wasActive ==>
          && (senderYielded ==> d.asks[0].outcome == Confirmed)
          && (d.Node(w).role == Active <==> d.asks[0].outcome == Confirmed && !senderYielded)
          && (d.Node(Other(w)).role == Active <==> !d.asks[0].delivered && !peerYielded))
  }

  lemma ExchangeStep(u: Setup, d: Cluster, e: Event, w: Who, wasActive: bool, senderYielded: bool, peerYielded: bool)
    requires ExchangeIs(d, w, wasActive, senderYielded, peerYielded) && OneExchange(e)
    ensures ExchangeIs(Step(u, d, e), w, wasActive, senderYielded || (Yields(u, d, e) && e.who == w),
                       peerYielded || (Yields(u, d, e) && e.who == Other(w)))
  {
    if e.Arrives? {
      ExchangeArrives(u, d, e.env, w, wasActive, senderYielded, peerYielded);
    } else if e.Confirms? {
      ExchangeConfirms(u, d, e.env, w, wasActive, senderYielded, peerYielded);
    } else if e.ProbeAnswered? {
      ExchangeAnswer(u, d, e, w, wasActive, senderYielded, peerYielded);
    }
  }

  lemma ExchangeArrives(u: Setup, d: Cluster, env: Env, w: Who, wasActive: bool, senderYielded: bool, peerYielded: bool)
    requires ExchangeIs(d, w, wasActive, senderYielded, peerYielded)
    ensures ExchangeIs(Step(u, d, Arrives(0, env)), w, wasActive, senderYielded, peerYielded)
  {}

  lemma ExchangeConfirms(u: Setup, d: Cluster, env: Env, w: Who, wasActive: bool, senderYielded: bool,
                         peerYielded: bool)
    requires ExchangeIs(d, w, wasActive, senderYielded, peerYielded)
    ensures ExchangeIs(Step(u, d, Confirms(0, env)), w, wasActive, senderYielded, peerYielded)
  {}

  lemma ExchangeAnswer(u: Setup, d: Cluster, e: Event, w: Who, wasActive: bool, senderYielded: bool, peerYielded: bool)
    requires ExchangeIs(d, w, wasActive, senderYielded, peerYielded) && e.ProbeAnswered?
    ensures ExchangeIs(Step(u, d, e), w, wasActive, senderYielded || (Yields(u, d, e) && e.who == w),
                       peerYielded || (Yields(u, d, e) && e.who == Other(w)))
  {
    assert e.who == w || e.who == Other(w);
  }

  /** An exchange that `w` starts while exactly one node is active. */
  ghost predicate Exchange(u: Setup, c: Cluster, run: seq<Event>, w: Who) {
    && c.asks == [] && Sends(u, c, w) && c.OneActive()
    && forall k | 0 <= k < |run| :: OneExchange(run[k])
  }

  /** At every point of every interleaving of the request's messages with heartbeats, both
      roles are as `ExchangeIs` says. */
  lemma {:induction false} ExchangeRoles(u: Setup, c: Cluster, run: seq<Event>, w: Who)
    requires Exchange(u, c, run, w)
    ensures var start := Step(u, c, Asks(w));
            ExchangeIs(Run(u, start, run), w, c.Node(w).role == Active,
                       Yielded(u, start, run, w), Yielded(u, start, run, Other(w)))
  {
    var start, active := Step(u, c, Asks(w)), c.Node(w).role == Active;
    if run == [] {
      assert start.asks == [Ask(w, active, false, Waiting)];
    } else {
      var front, last := run[..|run| - 1], run[|run| - 1];
      ExchangeRoles(u, c, front, w);
      ExchangeStep(u, Run(u, start, front), last, w, active,
                   Yielded(u, start, front, w), Yielded(u, start, front, Other(w)));
    }
  }

  /** Request 0 has arrived. */
  predicate Arrived(d: Cluster) {
    d.asks != [] && d.asks[0].delivered
  }

  /** The sender of request 0 has heard of its success. */
  predicate Heard(d: Cluster) {
    d.asks != [] && d.asks[0].outcome == Confirmed
  }

  /** In an exchange two nodes are active exactly between the arrival of an active node's
      request and its confirmation, while neither gives way; so always at least for a moment
      when such a request succeeds, and for good when the confirmation is lost. */
  lemma ActiveSideSwitchover(u: Setup, c: Cluster, run: seq<Event>, w: Who)
    requires Exchange(u, c, run, w)
    ensures var start := Step(u, c, Asks(w));
            var d := Run(u, start, run);
            d.BothActive() <==>
              && c.Node(w).role == Active && Arrived(d) && !Heard(d)
              && !Yielded(u, start, run, A) && !Yielded(u, start, run, B)
  {
    ExchangeRoles(u, c, run, w);
  }

  /** A switchover whose success the sender has heard leaves the sender's old role with the
      peer and one node active, unless the node that took over has given way: then none is. */
  lemma CompletedSwitchover(u: Setup, c: Cluster, run: seq<Event>, w: Who)
    requires Exchange(u, c, run, w)
    requires Heard(Run(u, Step(u, c, Asks(w)), run))
    ensures var start := Step(u, c, Asks(w));
            var d := Run(u, start, run);
            var heir := if c.Node(w).role == Active then Other(w) else w;
            && d.Node(Other(heir)).role == Standby && c.Node(Other(heir)).role == Active
            && (d.OneActive() <==> !Yielded(u, start, run, heir))
            && (d.Node(heir).role == Active <==> !Yielded(u, start, run, heir))
  {
    ExchangeRoles(u, c, run, w);
  }

  /** When a standby's request has arrived but its sender never hears of it, no node is active. */
  lemma LostConfirmation(u: Setup, c: Cluster, run: seq<Event>, w: Who)
    requires Exchange(u, c, run, w) && c.Node(w).role == Standby
    ensures var start := Step(u, c, Asks(w));
            var d := Run(u, start, run);
            d.a.role == d.b.role == Standby <==>
              if Heard(d) then Yielded(u, start, run, w) else Arrived(d) || Yielded(u, start, run, Other(w))
  {
    ExchangeRoles(u, c, run, w);
  }

  // ---- healing

  /** An answer to a heartbeat of `w` is on its way after the run. */
  predicate AnswerDue(c: Cluster, run: seq<Event>, w: Who) {
    if run == [] then c.Answer(w).Some?
    else
      var last := run[|run| - 1];
      last == Heartbeat(w) || (!(last.ProbeAnswered? && last.who == w) && AnswerDue(c, run[..|run| - 1], w))
  }

  /** An answer to a heartbeat reaches `w` during the run. */
  predicate HearsPeer(c: Cluster, run: seq<Event>, w: Who) {
    run != []
    && var front, last := run[..|run| - 1], run[|run| - 1];
       HearsPeer(c, front, w) || (last.ProbeAnswered? && last.who == w && AnswerDue(c, front, w))
  }

  /** Two active nodes, one configured primary and one not, heal when an answer first
      reaches the primary and not before; from then on the other alone is active. */
  lemma {:induction false} DualActiveHeals(u: Setup, c: Cluster, run: seq<Event>, primary: Who)
    requires c.BothActive() && c.Answer(primary) != Some(Standby)
    requires u.Config(primary).mode == Primary && u.Config(Other(primary)).mode != Primary
    requires forall i | 0 <= i < |run| :: run[i].Heartbeat? || run[i].ProbeAnswered?
    ensures var d := Run(u, c, run);
            && d.Node(Other(primary)).role == Active
            && (d.Node(primary).role == Standby <==> HearsPeer(c, run, primary))
    ensures Run(u, c, run).Answer(primary) == if AnswerDue(c, run, primary) then Some(Active) else None
  {
    if run == [] {
      assert c.Answer(primary).Some? ==> c.Answer(primary).value == Active;
    } else {
      var front, last := run[..|run| - 1], run[|run| - 1];
      DualActiveHeals(u, c, front, primary);
      assert last.who == primary || last.who == Other(primary);
      assert run[|run| - 1] == last;
    }
  }

  /** An answer that reports an active peer ends a state of two active nodes exactly when
      the node it reaches is configured primary. */
  lemma OnlyPrimaryYields(u: Setup, c: Cluster, e: Event)
    requires c.BothActive() && e.ProbeAnswered? && c.Answer(e.who) == Some(Active)
    ensures Step(u, c, e).BothActive() <==> u.Config(e.who).mode != Primary
  {}

  // ---- the virtual address

  /** Every node finds an interface to bind to, as the program's detection always does. */
  predicate InterfaceFound(e: Event) {
    (e.ProbeAnswered? || e.ProbeMissed? || e.Arrives? || e.Confirms?) ==> e.env.defaultInterface != ""
  }

  lemma StepKeepsVip(u: Setup, c: Cluster, e: Event)
    requires VipOk(u.a, c.a) && VipOk(u.b, c.b) && InterfaceFound(e)
    ensures VipOk(u.a, Step(u, c, e).a) && VipOk(u.b, Step(u, c, e).b)
  {
    if e.ProbeAnswered? || e.ProbeMissed? {
      ProbeKeepsVip(u, c, e);
    } else if e.Arrives? || e.Confirms? {
      AskKeepsVip(u, c, e);
    }
  }

  lemma ProbeKeepsVip(u: Setup, c: Cluster, e: Event)
    requires VipOk(u.a, c.a) && VipOk(u.b, c.b) && InterfaceFound(e) && (e.ProbeAnswered? || e.ProbeMissed?)
    ensures VipOk(u.a, Step(u, c, e).a) && VipOk(u.b, Step(u, c, e).b)
  {
    forall peer: Role {
      VipKept(u.Config(e.who), e.env, c.Node(e.who), u.Limit(e.who), peer);
    }
  }

  lemma AskKeepsVip(u: Setup, c: Cluster, e: Event)
    requires VipOk(u.a, c.a) && VipOk(u.b, c.b) && InterfaceFound(e) && (e.Arrives? || e.Confirms?)
    ensures VipOk(u.a, Step(u, c, e).a) && VipOk(u.b, Step(u, c, e).b)
  {
    VipKept(u.a, e.env, c.a, 0, Standby);
    VipKept(u.b, e.env, c.b, 0, Standby);
  }

  /** Only an active node ever holds the virtual address, in every run of probes, failovers,
      step-downs and switchovers, lost, late and crossing messages included. */
  lemma {:induction false} VipFollowsRole(u: Setup, c: Cluster, run: seq<Event>)
    requires VipOk(u.a, c.a) && VipOk(u.b, c.b)
    requires forall i | 0 <= i < |run| :: InterfaceFound(run[i])
    ensures VipOk(u.a, Run(u, c, run).a) && VipOk(u.b, Run(u, c, run).b)
  {
    if run != [] {
      var front, last := run[..|run| - 1], run[|run| - 1];
      VipFollowsRole(u, c, front);
      StepKeepsVip(u, Run(u, c, front), last);
    }
  }

  lemma StepKeepsVipHeld(u: Setup, c: Cluster, e: Event)
    requires VipHeld(u.a, c.a) && VipHeld(u.b, c.b) && InterfaceFound(e)
    ensures VipHeld(u.a, Step(u, c, e).a) && VipHeld(u.b, Step(u, c, e).b)
  {
    if e.ProbeAnswered? || e.ProbeMissed? {
      ProbeKeepsVipHeld(u, c, e);
    } else if e.Arrives? || e.Confirms? {
      AskKeepsVipHeld(u, c, e);
    }
  }

  lemma ProbeKeepsVipHeld(u: Setup, c: Cluster, e: Event)
    requires VipHeld(u.a, c.a) && VipHeld(u.b, c.b) && InterfaceFound(e) && (e.ProbeAnswered? || e.ProbeMissed?)
    ensures VipHeld(u.a, Step(u, c, e).a) && VipHeld(u.b, Step(u, c, e).b)
  {
    VipHeldKept(u.Config(e.who), e.env, c.Node(e.who), u.Limit(e.who), Active);
    VipHeldKept(u.Config(e.who), e.env, c.Node(e.who), u.Limit(e.who), Standby);
  }

  lemma AskKeepsVipHeld(u: Setup, c: Cluster, e: Event)
    requires VipHeld(u.a, c.a) && VipHeld(u.b, c.b) && InterfaceFound(e) && (e.Arrives? || e.Confirms?)
    ensures VipHeld(u.a, Step(u, c, e).a) && VipHeld(u.b, Step(u, c, e).b)
  {
    VipHeldKept(u.a, e.env, c.a, 0, Standby);
    VipHeldKept(u.b, e.env, c.b, 0, Standby);
  }

  /** From the start of both nodes on, in every run, a node holds the virtual address exactly when
      it is active and one is configured. */
  lemma {:induction false} VipHeldExactly(u: Setup, envA: Env, envB: Env, run: seq<Event>)
    requires u.Paired() && envA.defaultInterface != "" && envB.defaultInterface != ""
    requires forall i | 0 <= i < |run| :: InterfaceFound(run[i])
    ensures var c := Cluster(Started(u.a, envA), Started(u.b, envB), None, None, []);
            VipHeld(u.a, Run(u, c, run).a) && VipHeld(u.b, Run(u, c, run).b)
  {
    var c := Cluster(Started(u.a, envA), Started(u.b, envB), None, None, []);
    if run == [] {
      StartHoldsVip(u.a, envA);
      StartHoldsVip(u.b, envB);
    } else {
      var front, last := run[..|run| - 1], run[|run| - 1];
      VipHeldExactly(u, envA, envB, front);
      StepKeepsVipHeld(u, Run(u, c, front), last);
    }
  }
}
