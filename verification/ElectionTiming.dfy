/**
  When is there at most one master?  The election loop keeps role-level mutual exclusion exactly when a master that
  can no longer renew steps down before its lease can expire, and no master is shut down.
 */
module ElectionTiming {
  import opened Options
  import opened Election

  ghost predicate TwoMasters(s: State) {
    exists i, j :: 0 <= i < j < |s.pods| && s.pods[i].role.Master? && s.pods[j].role.Master?
  }

  /** In every timely run, no two pods are master at once. */
  ghost predicate Exclusive(c: Config) {
    forall acts, t :: TimelyRun(c, Init(c), acts, t) ==> !TwoMasters(t)
  }

  /** The worst gap between the last renewal the server served and the moment the pod steps down. */
  function StepDownGap(c: Config): real {
    Later(c.keepAlive, c.acquire) + c.interval + c.keepAlive + 2.0 * c.retryDelay
  }

  function Later(x: real, y: real): (r: real) {
    if x <= y then y else x
  }

  // ---------------------------------------------------------------- timed invariant

  /** The pod relies on its lease: it is acquiring the key, or is master outside shutdown. */
  predicate Relies(p: Pod) {
    && p.lease.Some?
    && (p.phase.Locking? || (p.phase.Granting? && p.phase.granted.Some?) || ActiveMaster(p))
  }

  predicate ActiveMaster(p: Pod) {
    p.role.Master? && !p.phase.Releasing?
  }

  /** A lease served at time `at` cannot lapse before `at + ttl`. */
  ghost predicate LivesFrom(c: Config, sv: Server, l: LeaseId, at: real) {
    && at <= sv.now
    && (sv.now < at + c.ttl ==> l in sv.expiry && at + c.ttl <= sv.expiry[l])
  }

  /** How late an active master may be in each phase, counted from the last renewal it heard of. */
  ghost predicate OnSchedule(c: Config, p: Pod, now: real) {
    var slack := Later(c.keepAlive, c.acquire);
    match p.phase
    case Promoting => now <= p.heard + c.acquire
    case Sleeping => p.since <= p.heard + slack && now <= p.since + c.interval
    case Head => p.since <= p.heard + slack + c.interval && now <= p.since
    case Renewing(_, _) => p.since <= p.heard + slack + c.interval && now <= p.since + c.keepAlive
    case RetryWait(n) =>
      && p.since <= p.heard + slack + c.interval + c.keepAlive + (if n == 0 then 0.0 else c.retryDelay)
      && now <= p.since + c.retryDelay
    case _ => false
  }

  ghost predicate PodTimed(c: Config, sv: Server, stray: set<Request>, p: Pod) {
    && (Relies(p) ==> LivesFrom(c, sv, p.lease.value, p.heard) && Revoke(p.lease.value) !in stray)
    && (p.phase.Renewing? ==> p.since <= (if p.phase.ack.Some? then p.phase.ack.value.at else sv.now))
    && (p.phase.Renewing? && p.phase.ack.Some? && p.phase.ack.value.found && p.lease.Some? ==>
          LivesFrom(c, sv, p.lease.value, p.phase.ack.value.at))
    && (ActiveMaster(p) ==>
          && p.lease.Some?
          && OnSchedule(c, p, sv.now)
          && sv.key == p.lease)
  }

  ghost predicate TimedInv(c: Config, s: State) {
    && Inv(s)
    && forall i :: 0 <= i < |s.pods| ==> PodTimed(c, s.server, s.stray, s.pods[i])
  }

  /** An active master on schedule is strictly inside its lease. */
  lemma MasterInsideLease(c: Config, p: Pod, now: real)
    requires WellFormed(c) && StepDownGap(c) < c.ttl
    requires Coherent(p) && ActiveMaster(p) && OnSchedule(c, p, now)
    ensures now < p.heard + c.ttl
  {
    if p.phase.RetryWait? {
      assert p.phase.attempt == 0 || p.phase.attempt == 1;
    }
  }

  /** The pod's own facts before somebody else's step. */
  ghost predicate Onlooker(c: Config, sv: Server, stray: set<Request>, p: Pod) {
    && WellFormed(c) && StepDownGap(c) < c.ttl
    && ServerInv(sv) && PodInv(sv, p) && PodTimed(c, sv, stray, p)
  }

  /** Another pod's step spares every lease that is not its own. */
  lemma BystanderStaysTimed(c: Config, sv: Server, stray: set<Request>, p: Pod, q: Pod, a: Step)
    requires Onlooker(c, sv, stray, p) && PodInv(sv, q) && PodEnabled(q, sv, a)
    requires p.lease.Some? ==> p.lease != q.lease
    ensures PodTimed(c, ServePod(c.ttl, sv, q, a), stray + Abandoned(q, a), p)
  {
    if ActiveMaster(p) {
      MasterInsideLease(c, p, sv.now);
    }
  }

  /** An expiry takes no lease that a pod relies on, and a request served late is no revocation of one. */
  lemma ServerEventStaysTimed(c: Config, s: State, a: Action, p: Pod)
    requires Onlooker(c, s.server, s.stray, p) && Enabled(c, s, a) && (a.Expire? || a.ServeStray?)
    ensures PodTimed(c, NextServer(c, s, a), s.stray, p)
  {
    if ActiveMaster(p) {
      MasterInsideLease(c, p, s.server.now);
    }
  }

  lemma OtherPodStaysTimed(c: Config, s: State, a: Action, j: nat)
    requires WellFormed(c) && StepDownGap(c) < c.ttl
    requires TimedInv(c, s) && Enabled(c, s, a) && j < |s.pods|
    requires !a.Tick? && (a.Local? ==> j != a.i)
    ensures PodTimed(c, Apply(c, s, a).server, Apply(c, s, a).stray, s.pods[j])
  {
    hide PodTimed, PodInv, ServePod, Abandoned, PodEnabled, NextPod, ServerInv;
    var p := s.pods[j];
    assert Onlooker(c, s.server, s.stray, p);
    if a.Local? {
      var q := s.pods[a.i];
      assert PodInv(s.server, q);
      assert p.lease.Some? ==> p.lease != q.lease by {
        if j < a.i { } else { }
      }
      BystanderStaysTimed(c, s.server, s.stray, p, q, a.step);
    } else {
      ServerEventStaysTimed(c, s, a, p);
    }
  }

  ghost predicate OwnStep(c: Config, sv: Server, stray: set<Request>, p: Pod, a: Step) {
    && WellFormed(c) && StepDownGap(c) < c.ttl
    && ServerInv(sv) && PodInv(sv, p) && PodTimed(c, sv, stray, p) && PodEnabled(p, sv, a)
    && (forall r :: r in stray ==> r.lease < sv.nextLease)
    && (a.LockReply? && p.phase == Locking(Some(true)) ==> sv.now <= p.heard + c.acquire)
  }

  lemma RenewingStepStaysTimed(c: Config, sv: Server, stray: set<Request>, p: Pod, a: Step)
    requires OwnStep(c, sv, stray, p, a) && p.phase.Renewing?
    ensures PodTimed(c, ServePod(c.ttl, sv, p, a), stray + Abandoned(p, a), NextPod(p, sv, a))
  {
    MasterInsideLease(c, p, sv.now);
  }

  /** A master that wakes up, or gives up. */
  lemma AwakeStepStaysTimed(c: Config, sv: Server, stray: set<Request>, p: Pod, a: Step)
    requires OwnStep(c, sv, stray, p, a) && ActiveMaster(p) && (p.phase.Head? || p.phase.RetryWait?)
    ensures PodTimed(c, ServePod(c.ttl, sv, p, a), stray + Abandoned(p, a), NextPod(p, sv, a))
  {
    MasterInsideLease(c, p, sv.now);
  }

  lemma WaitingStepStaysTimed(c: Config, sv: Server, stray: set<Request>, p: Pod, a: Step)
    requires OwnStep(c, sv, stray, p, a) && ActiveMaster(p) && (p.phase.Promoting? || p.phase.Sleeping?)
    ensures PodTimed(c, ServePod(c.ttl, sv, p, a), stray + Abandoned(p, a), NextPod(p, sv, a))
  {
    MasterInsideLease(c, p, sv.now);
  }

  lemma MasterStepStaysTimed(c: Config, sv: Server, stray: set<Request>, p: Pod, a: Step)
    requires OwnStep(c, sv, stray, p, a) && ActiveMaster(p) && !p.phase.Renewing?
    ensures PodTimed(c, ServePod(c.ttl, sv, p, a), stray + Abandoned(p, a), NextPod(p, sv, a))
  {
    hide PodTimed, ServePod, NextPod, Abandoned, PodEnabled, ServerInv;
    if p.phase.Head? || p.phase.RetryWait? {
      AwakeStepStaysTimed(c, sv, stray, p, a);
    } else {
      WaitingStepStaysTimed(c, sv, stray, p, a);
    }
  }

  /** A pod that is acquiring the key, or about to be told that it has it. */
  lemma AcquiringStepStaysTimed(c: Config, sv: Server, stray: set<Request>, p: Pod, a: Step)
    requires OwnStep(c, sv, stray, p, a) && (p.phase.Granting? || p.phase.Locking?)
    ensures PodTimed(c, ServePod(c.ttl, sv, p, a), stray + Abandoned(p, a), NextPod(p, sv, a))
  {
  }

  lemma IdleStepStaysTimed(c: Config, sv: Server, stray: set<Request>, p: Pod, a: Step)
    requires OwnStep(c, sv, stray, p, a) && !ActiveMaster(p) && !p.phase.Granting? && !p.phase.Locking?
    ensures PodTimed(c, ServePod(c.ttl, sv, p, a), stray + Abandoned(p, a), NextPod(p, sv, a))
  {
  }

  lemma OwnStepStaysTimed(c: Config, sv: Server, stray: set<Request>, p: Pod, a: Step)
    requires OwnStep(c, sv, stray, p, a)
    ensures PodTimed(c, ServePod(c.ttl, sv, p, a), stray + Abandoned(p, a), NextPod(p, sv, a))
  {
    hide OwnStep, PodTimed, ServePod, NextPod, Abandoned, ActiveMaster;
    if p.phase.Renewing? {
      RenewingStepStaysTimed(c, sv, stray, p, a);
    } else if p.phase.Granting? || p.phase.Locking? {
      AcquiringStepStaysTimed(c, sv, stray, p, a);
    } else if ActiveMaster(p) {
      MasterStepStaysTimed(c, sv, stray, p, a);
    } else {
      IdleStepStaysTimed(c, sv, stray, p, a);
    }
  }

  lemma TickStaysTimed(c: Config, sv: Server, stray: set<Request>, p: Pod, d: real)
    requires PodInv(sv, p) && PodTimed(c, sv, stray, p) && 0.0 <= d && InTime(c, p, sv.now + d)
    ensures PodTimed(c, sv.(now := sv.now + d), stray, p)
  {
  }

  lemma StepKeepsTimedInv(c: Config, s: State, a: Action)
    requires WellFormed(c) && StepDownGap(c) < c.ttl
    requires TimedInv(c, s) && Enabled(c, s, a) && Timely(c, s, a)
    ensures TimedInv(c, Apply(c, s, a))
  {
    hide PodTimed, PodInv, NextPod, ServePod, Abandoned;
    StepKeepsInv(c, s, a);
    var t := Apply(c, s, a);
    forall j | 0 <= j < |t.pods| ensures PodTimed(c, t.server, t.stray, t.pods[j]) {
      assert PodTimed(c, s.server, s.stray, s.pods[j]) && PodInv(s.server, s.pods[j]);
      match a
      case Tick(d) =>
        TickStaysTimed(c, s.server, s.stray, s.pods[j], d);
      case Local(i, step) =>
        if i == j {
          OwnStepStaysTimed(c, s.server, s.stray, s.pods[i], step);
        } else {
          OtherPodStaysTimed(c, s, a, j);
        }
      case _ =>
        OtherPodStaysTimed(c, s, a, j);
    }
  }

  lemma {:induction false} TimelyRunKeepsInv(c: Config, s: State, acts: seq<Action>, t: State)
    requires WellFormed(c) && StepDownGap(c) < c.ttl
    requires TimedInv(c, s) && TimelyRun(c, s, acts, t)
    ensures TimedInv(c, t)
    decreases |acts|
  {
    if acts != [] {
      StepKeepsTimedInv(c, s, acts[0]);
      TimelyRunKeepsInv(c, Apply(c, s, acts[0]), acts[1..], t);
    }
  }

  /** Two masters at once are only ever seen while one of them is being shut down. */
  lemma MastersOverlapOnlyInShutdown(c: Config, acts: seq<Action>, t: State, i: nat, j: nat)
    requires WellFormed(c) && StepDownGap(c) < c.ttl
    requires TimelyRun(c, Init(c), acts, t)
    requires i < j < |t.pods| && t.pods[i].role.Master? && t.pods[j].role.Master?
    ensures c.stoppable
    ensures t.pods[i].phase.Releasing? || t.pods[j].phase.Releasing?
    ensures t.pods[i].stop || t.pods[j].stop
  {
    TimelyRunKeepsInv(c, Init(c), acts, t);
    assert PodTimed(c, t.server, t.stray, t.pods[i]) && PodTimed(c, t.server, t.stray, t.pods[j]);
    assert PodInv(t.server, t.pods[i]) && PodInv(t.server, t.pods[j]);
    NobodyStopsUnasked(c, Init(c), acts, t);
  }

  lemma {:induction false} NobodyStopsUnasked(c: Config, s: State, acts: seq<Action>, t: State)
    requires TimelyRun(c, s, acts, t)
    requires forall i :: 0 <= i < |s.pods| && s.pods[i].stop ==> c.stoppable
    ensures forall i :: 0 <= i < |t.pods| && t.pods[i].stop ==> c.stoppable
    decreases |acts|
  {
    if acts != [] {
      NobodyStopsUnasked(c, Apply(c, s, acts[0]), acts[1..], t);
    }
  }

  // ---------------------------------------------------------------- runs that show the bounds are needed

  lemma {:induction false} Extend(c: Config, s: State, acts: seq<Action>, t: State, a: Action)
    requires TimelyRun(c, s, acts, t) && Enabled(c, t, a) && Timely(c, t, a)
    ensures TimelyRun(c, s, acts + [a], Apply(c, t, a))
    decreases |acts|
  {
    if acts == [] {
      assert (acts + [a])[1..] == [];
    } else {
      Extend(c, Apply(c, s, acts[0]), acts[1..], t, a);
      assert (acts + [a])[1..] == acts[1..] + [a];
    }
  }

  lemma Do(c: Config, s: State, acts: seq<Action>, t: State, a: Action) returns (acts': seq<Action>, t': State)
    requires TimelyRun(c, s, acts, t) && Enabled(c, t, a) && Timely(c, t, a)
    ensures t' == Apply(c, t, a) && TimelyRun(c, s, acts', t')
  {
    Extend(c, s, acts, t, a);
    acts', t' := acts + [a], Apply(c, t, a);
  }

  /** One step of pod `i`, seen as a change of that pod and of the server only. */
  lemma DoStep(c: Config, s: State, acts: seq<Action>, t: State, i: nat, a: Step, base: seq<Pod>)
    returns (acts': seq<Action>, t': State)
    requires TimelyRun(c, s, acts, t) && Enabled(c, t, Local(i, a)) && Timely(c, t, Local(i, a))
    requires |base| == |t.pods| && t.pods == base[i := t.pods[i]] && Abandoned(t.pods[i], a) == {}
    ensures TimelyRun(c, s, acts', t')
    ensures t' == State(ServePod(c.ttl, t.server, t.pods[i], a), base[i := NextPod(t.pods[i], t.server, a)], t.stray)
  {
    acts', t' := Do(c, s, acts, t, Local(i, a));
    assert base[i := t.pods[i]][i := NextPod(t.pods[i], t.server, a)] == base[i := NextPod(t.pods[i], t.server, a)];
  }

  /** A standby at its loop head. */
  predicate Ready(p: Pod) {
    p.phase.Head? && p.role.Standby? && p.tracked.None? && !p.stop
  }

  lemma GetGrant(c: Config, s: State, acts: seq<Action>, t: State, i: nat) returns (acts': seq<Action>, t': State)
    requires TimelyRun(c, s, acts, t)
    requires i < |t.pods| && Ready(t.pods[i])
    ensures TimelyRun(c, s, acts', t')
    ensures var l, now := t.server.nextLease, t.server.now;
            t' == State(Grant(t.server, c.ttl),
                        t.pods[i := Pod(Standby, None, Granting(Some(l)), now, false, Some(l), now)], t.stray)
  {
    var u;
    acts', u := DoStep(c, s, acts, t, i, LoopHead, t.pods);
    acts', u := DoStep(c, s, acts', u, i, StartLock, t.pods);
    acts', t' := DoStep(c, s, acts', u, i, GrantServed, t.pods);
  }

  /** A standby at its loop head with the key free becomes master without any time passing. */
  lemma Elect(c: Config, s: State, acts: seq<Action>, t: State, i: nat) returns (acts': seq<Action>, t': State)
    requires WellFormed(c) && TimelyRun(c, s, acts, t)
    requires i < |t.pods| && Ready(t.pods[i])
    requires t.server.key.None?
    ensures TimelyRun(c, s, acts', t')
    ensures var l, now := t.server.nextLease, t.server.now;
            t' == State(Grant(t.server, c.ttl).(key := Some(l)),
                        t.pods[i := Pod(Master, Some(l), Promoting, now, false, Some(l), now)], t.stray)
  {
    var u;
    acts', u := GetGrant(c, s, acts, t, i);
    acts', u := DoStep(c, s, acts', u, i, GrantReply, t.pods);
    acts', u := DoStep(c, s, acts', u, i, LockServed, t.pods);
    acts', t' := DoStep(c, s, acts', u, i, LockReply, t.pods);
  }

  function Only(now: real, expires: real): Server {
    Server(now, map[0 := expires], Some(0), 1)
  }

  ghost predicate Alone(c: Config, s: State, p: Pod, now: real, expires: real) {
    0 < c.pods && s.pods == Init(c).pods[0 := p] && s.server == Only(now, expires)
  }

  /** A timely run leads to time `now` with pod 0 as given, holding the only lease, and no other pod having moved. */
  ghost predicate Reached(c: Config, p: Pod, now: real, expires: real) {
    exists acts, s :: TimelyRun(c, Init(c), acts, s) && Alone(c, s, p, now, expires)
  }

  function MasterAt(phase: Phase, since: real, stop: bool, heard: real): Pod {
    Pod(Master, if phase.RetryWait? then None else Some(0), phase, since, stop, Some(0), heard)
  }

  lemma Wait(c: Config, p: Pod, now: real, expires: real, d: real)
    requires WellFormed(c) && Reached(c, p, now, expires)
    requires 0.0 <= d && InTime(c, p, now + d)
    ensures Reached(c, p, now + d, expires)
  {
    var acts, s :| TimelyRun(c, Init(c), acts, s) && Alone(c, s, p, now, expires);
    var acts', t := Do(c, Init(c), acts, s, Tick(d));
    assert Alone(c, t, p, now + d, expires);
  }

  /** A step of pod 0, which may renew its lease. */
  lemma Act(c: Config, p: Pod, now: real, expires: real, a: Step, expires': real)
    requires WellFormed(c) && Reached(c, p, now, expires)
    requires PodEnabled(p, Only(now, expires), a) && !a.LockReply? && (a.Stop? ==> c.stoppable)
    requires ServePod(c.ttl, Only(now, expires), p, a) == Only(now, expires')
    ensures Reached(c, NextPod(p, Only(now, expires), a), now, expires')
  {
    var acts, s :| TimelyRun(c, Init(c), acts, s) && Alone(c, s, p, now, expires);
    var acts', t := Do(c, Init(c), acts, s, Local(0, a));
    assert t.pods == Init(c).pods[0 := NextPod(p, s.server, a)];
    assert Alone(c, t, NextPod(p, Only(now, expires), a), now, expires');
  }

  lemma FirstMaster(c: Config)
    requires WellFormed(c)
    ensures Reached(c, MasterAt(Promoting, 0.0, false, 0.0), 0.0, c.ttl)
  {
    var acts, s := Elect(c, Init(c), [], Init(c), 0);
    assert Alone(c, s, MasterAt(Promoting, 0.0, false, 0.0), 0.0, c.ttl);
  }

  /** A sleeping master wakes up and sends its next keepalive. */
  lemma WakeUp(c: Config, at: real, now: real, expires: real)
    requires WellFormed(c) && Reached(c, MasterAt(Sleeping, now, false, at), now, expires)
    ensures Reached(c, MasterAt(Renewing(0, None), now + c.interval, false, at), now + c.interval, expires)
  {
    hide Reached;
    var wake := now + c.interval;
    Wait(c, MasterAt(Sleeping, now, false, at), now, expires, c.interval);
    Act(c, MasterAt(Sleeping, now, false, at), wake, expires, SleepDone, expires);
    Act(c, MasterAt(Head, wake, false, at), wake, expires, LoopHead, expires);
  }

  /** A renewal that fails at the last moment leaves the pod master for two more waits. */
  lemma LoseContact(c: Config, at: real, now: real, expires: real)
    requires WellFormed(c) && Reached(c, MasterAt(Renewing(0, None), now, false, at), now, expires)
    ensures var end := now + c.keepAlive + c.retryDelay;
            Reached(c, MasterAt(RetryWait(1), end, false, at), end + c.retryDelay, expires)
  {
    hide Reached;
    var t1 := now + c.keepAlive;
    var t2 := t1 + c.retryDelay;
    Wait(c, MasterAt(Renewing(0, None), now, false, at), now, expires, c.keepAlive);
    Act(c, MasterAt(Renewing(0, None), now, false, at), t1, expires, RenewFail, expires);
    Wait(c, MasterAt(RetryWait(0), t1, false, at), t1, expires, c.retryDelay);
    Act(c, MasterAt(RetryWait(0), t1, false, at), t2, expires, RetryDone, expires);
    Wait(c, MasterAt(RetryWait(1), t2, false, at), t2, expires, c.retryDelay);
  }

  /** Once pod 0 is master over a key that is gone, pod 1 becomes master beside it. */
  lemma SecondMaster(c: Config, acts: seq<Action>, s: State, p: Pod)
    requires WellFormed(c) && TimelyRun(c, Init(c), acts, s)
    requires s.pods == Init(c).pods[0 := p] && p.role.Master? && s.server.key.None?
    ensures !Exclusive(c)
  {
    var acts', t := Elect(c, Init(c), acts, s, 1);
    assert t.pods[0].role.Master? && t.pods[1].role.Master?;
  }

  lemma Overtaken(c: Config, p: Pod, now: real, expires: real)
    requires WellFormed(c) && Reached(c, p, now, expires) && p.role.Master? && expires <= now
    ensures !Exclusive(c)
  {
    var acts, s :| TimelyRun(c, Init(c), acts, s) && Alone(c, s, p, now, expires);
    acts, s := Do(c, Init(c), acts, s, Expire(0));
    SecondMaster(c, acts, s, p);
  }

  /** The acquisition is slow, then the first renewal fails. */
  lemma SlowAcquisitionBreaks(c: Config)
    requires WellFormed(c) && c.ttl <= c.acquire + c.interval + c.keepAlive + 2.0 * c.retryDelay
    ensures !Exclusive(c)
  {
    hide Reached;
    var end := c.acquire + c.interval + c.keepAlive + c.retryDelay;
    FirstMaster(c);
    Wait(c, MasterAt(Promoting, 0.0, false, 0.0), 0.0, c.ttl, c.acquire);
    Act(c, MasterAt(Promoting, 0.0, false, 0.0), c.acquire, c.ttl, PromoteDone, c.ttl);
    WakeUp(c, 0.0, c.acquire, c.ttl);
    LoseContact(c, 0.0, c.acquire + c.interval, c.ttl);
    Overtaken(c, MasterAt(RetryWait(1), end, false, 0.0), end + c.retryDelay, c.ttl);
  }

  lemma FirstRenewal(c: Config)
    requires WellFormed(c)
    ensures Reached(c, MasterAt(Renewing(0, None), c.interval, false, 0.0), c.interval, c.ttl)
  {
    hide Reached;
    FirstMaster(c);
    Act(c, MasterAt(Promoting, 0.0, false, 0.0), 0.0, c.ttl, PromoteDone, c.ttl);
    WakeUp(c, 0.0, 0.0, c.ttl);
  }

  /** The first renewal is served at once and heard of as late as the keepalive timeout allows. */
  lemma LateRenewal(c: Config)
    requires WellFormed(c)
    ensures var heard := c.interval + c.keepAlive;
            Reached(c, MasterAt(Sleeping, heard, false, c.interval), heard, c.interval + c.ttl)
  {
    hide Reached;
    var at, expires := c.interval, c.interval + c.ttl;
    var renewed := MasterAt(Renewing(0, Some(Ack(at, true))), at, false, 0.0);
    FirstRenewal(c);
    assert map[0 := c.ttl][0 := expires] == map[0 := expires];
    Act(c, MasterAt(Renewing(0, None), at, false, 0.0), at, c.ttl, RenewServed(true), expires);
    Wait(c, renewed, at, expires, c.keepAlive);
    Act(c, renewed, at + c.keepAlive, expires, RenewReply, expires);
  }

  /** A renewal is heard of late, then the next one fails. */
  lemma SlowRenewalBreaks(c: Config)
    requires WellFormed(c) && c.ttl <= 2.0 * c.keepAlive + c.interval + 2.0 * c.retryDelay
    ensures !Exclusive(c)
  {
    hide Reached;
    var at, heard, expires := c.interval, c.interval + c.keepAlive, c.interval + c.ttl;
    var end := heard + c.interval + c.keepAlive + c.retryDelay;
    LateRenewal(c);
    WakeUp(c, at, heard, expires);
    LoseContact(c, at, heard + c.interval, expires);
    Overtaken(c, MasterAt(RetryWait(1), end, false, at), end + c.retryDelay, expires);
  }

  /** Shutdown revokes the lease before it gives up the role, so the next master can appear in between. */
  lemma ShutdownBreaks(c: Config)
    requires WellFormed(c) && c.stoppable
    ensures !Exclusive(c)
  {
    hide Reached;
    FirstMaster(c);
    Act(c, MasterAt(Promoting, 0.0, false, 0.0), 0.0, c.ttl, Stop, c.ttl);
    Act(c, MasterAt(Promoting, 0.0, true, 0.0), 0.0, c.ttl, PromoteDone, c.ttl);
    Wait(c, MasterAt(Sleeping, 0.0, true, 0.0), 0.0, c.ttl, c.interval);
    Act(c, MasterAt(Sleeping, 0.0, true, 0.0), c.interval, c.ttl, SleepDone, c.ttl);
    Act(c, MasterAt(Head, c.interval, true, 0.0), c.interval, c.ttl, LoopHead, c.ttl);
    Revoked(c, MasterAt(Releasing(false), c.interval, true, 0.0), c.interval, c.ttl);
  }

  lemma Revoked(c: Config, p: Pod, now: real, expires: real)
    requires WellFormed(c) && Reached(c, p, now, expires)
    requires p.role.Master? && p.tracked == Some(0) && p.phase == Releasing(false)
    ensures !Exclusive(c)
  {
    var acts, s :| TimelyRun(c, Init(c), acts, s) && Alone(c, s, p, now, expires);
    acts, s := DoStep(c, Init(c), acts, s, 0, ReleaseServed, Init(c).pods);
    SecondMaster(c, acts, s, s.pods[0]);
  }

  /**
    Role-level mutual exclusion over every timely run, exactly: the step-down gap stays below the lease's time to live
    on both the renewal and the acquisition path, and no pod is stopped.
   */
  lemma RoleExclusionExactly(c: Config)
    requires WellFormed(c)
    ensures Exclusive(c) <==>
              && 2.0 * c.keepAlive + c.interval + 2.0 * c.retryDelay < c.ttl
              && c.acquire + c.interval + c.keepAlive + 2.0 * c.retryDelay < c.ttl
              && !c.stoppable
  {
    if c.ttl <= 2.0 * c.keepAlive + c.interval + 2.0 * c.retryDelay {
      SlowRenewalBreaks(c);
    } else if c.ttl <= c.acquire + c.interval + c.keepAlive + 2.0 * c.retryDelay {
      SlowAcquisitionBreaks(c);
    } else if c.stoppable {
      ShutdownBreaks(c);
    } else {
      forall acts, t | TimelyRun(c, Init(c), acts, t) ensures !TwoMasters(t) {
        if TwoMasters(t) {
          var i, j :| 0 <= i < j < |t.pods| && t.pods[i].role.Master? && t.pods[j].role.Master?;
          MastersOverlapOnlyInShutdown(c, acts, t, i, j);
        }
      }
    }
  }

  /** The shipped settings (TTL 15 s, interval 5 s, keepalive 3 s, retry delay 1 s) leave under 5 s to acquire. */
  lemma DefaultsNeedFastAcquisition(acquire: real, pods: nat)
    requires 0.0 <= acquire && 2 <= pods
    ensures Exclusive(Config(15.0, 5.0, 3.0, 1.0, acquire, pods, false)) <==> acquire < 5.0
  {
    RoleExclusionExactly(Config(15.0, 5.0, 3.0, 1.0, acquire, pods, false));
  }
}
