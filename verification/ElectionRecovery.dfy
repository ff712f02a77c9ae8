/**
  The election recovers: whatever leases nobody tracks and requests nobody waits for are left behind, a pod that is not
  being stopped can become master again, and a pod that is cannot.
 */
module ElectionRecovery {
  import opened Options
  import opened Election
  import opened ElectionTiming

  /** A continuation that moves pod `i` alone and leaves the server as it is. */
  ghost predicate Moves(c: Config, s: State, acts: seq<Action>, t: State, i: nat) {
    && TimelyRun(c, s, acts, t) && Inv(t)
    && t.server == s.server && |t.pods| == |s.pods| && i < |s.pods| && t.pods == s.pods[i := t.pods[i]]
    && t.pods[i].stop == s.pods[i].stop
  }

  /** Steps that are taken without waiting and without the server's help. */
  predicate Unaided(a: Step) {
    match a
    case LoopHead => true
    case StartLock => true
    case GrantFail => true
    case LockFail => true
    case UndoDone => true
    case PromoteDone => true
    case SleepDone => true
    case RenewFail => true
    case RetryDone => true
    case DemoteDone(_) => true
    case ReleaseDone => true
    case _ => false
  }

  lemma {:induction false} Join(c: Config, s: State, a: seq<Action>, t: State, b: seq<Action>, u: State)
    requires TimelyRun(c, s, a, t) && TimelyRun(c, t, b, u)
    ensures TimelyRun(c, s, a + b, u)
    decreases |a|
  {
    if a == [] {
      assert a + b == b;
    } else {
      Join(c, Apply(c, s, a[0]), a[1..], t, b, u);
      assert (a + b)[1..] == a[1..] + b && (a + b)[0] == a[0];
    }
  }

  lemma MoveOnce(c: Config, s: State, i: nat, a: Step) returns (acts: seq<Action>, t: State)
    requires Inv(s) && i < |s.pods| && PodEnabled(s.pods[i], s.server, a) && Unaided(a)
    ensures Moves(c, s, acts, t, i) && t.pods[i] == NextPod(s.pods[i], s.server, a)
  {
    hide Inv, NextPod, PodEnabled;
    UnaidedServer(c, s.server, s.pods[i], a);
    assert Enabled(c, s, Local(i, a)) && Timely(c, s, Local(i, a));
    StepKeepsInv(c, s, Local(i, a));
    acts, t := [Local(i, a)], Apply(c, s, Local(i, a));
    assert acts[1..] == [] && TimelyRun(c, t, acts[1..], t);
  }

  lemma UnaidedServer(c: Config, sv: Server, p: Pod, a: Step)
    requires PodEnabled(p, sv, a) && Unaided(a)
    ensures ServePod(c.ttl, sv, p, a) == sv && NextPod(p, sv, a).stop == p.stop && !a.LockReply? && !a.Stop?
  {
  }

  lemma MovesChain(c: Config, s: State, a: seq<Action>, t: State, b: seq<Action>, u: State, i: nat)
    requires Moves(c, s, a, t, i) && Moves(c, t, b, u, i)
    ensures Moves(c, s, a + b, u, i)
  {
    hide Inv, TimelyRun;
    Join(c, s, a, t, b, u);
    assert s.pods[i := t.pods[i]][i := u.pods[i]] == s.pods[i := u.pods[i]];
  }

  // ---------------------------------------------------------------- stepping down

  /** How many steps a master is from giving up its role, when all its calls fail. */
  function FromStandby(p: Pod): nat {
    if p.role.Standby? then 0
    else
      match p.phase
      case Promoting => 6
      case Sleeping => 5
      case Head => 4
      case Renewing(_, _) => 3
      case RetryWait(n) => if n == 0 then 2 else 1
      case _ => 1
  }

  function StepDown(p: Pod): Step {
    match p.phase
    case Promoting => PromoteDone
    case Sleeping => SleepDone
    case Renewing(_, _) => RenewFail
    case RetryWait(_) => RetryDone
    case Releasing(_) => ReleaseDone
    case _ => LoopHead
  }

  lemma StepDownIsCloser(sv: Server, p: Pod)
    requires Coherent(p) && p.role.Master?
    ensures Unaided(StepDown(p)) && PodEnabled(p, sv, StepDown(p))
    ensures FromStandby(NextPod(p, sv, StepDown(p))) < FromStandby(p)
  {
  }

  lemma {:induction false} StandDown(c: Config, s: State, i: nat) returns (acts: seq<Action>, t: State)
    requires Inv(s) && i < |s.pods|
    ensures Moves(c, s, acts, t, i) && t.pods[i].role.Standby?
    decreases FromStandby(s.pods[i])
  {
    hide NextPod, PodEnabled, Unaided, FromStandby, StepDown, Moves;
    if s.pods[i].role.Standby? {
      acts, t := [], s;
      StaysPut(c, s, i);
    } else {
      assert PodInv(s.server, s.pods[i]);
      StepDownIsCloser(s.server, s.pods[i]);
      var a, u := MoveOnce(c, s, i, StepDown(s.pods[i]));
      MovesKeepsInv(c, s, a, u, i);
      var b;
      b, t := StandDown(c, u, i);
      acts := a + b;
      MovesChain(c, s, a, u, b, t, i);
    }
  }

  lemma StaysPut(c: Config, s: State, i: nat)
    requires Inv(s) && i < |s.pods|
    ensures Moves(c, s, [], s, i)
  {
    hide Inv;
    assert s.pods == s.pods[i := s.pods[i]];
  }

  lemma MovesKeepsInv(c: Config, s: State, acts: seq<Action>, t: State, i: nat)
    requires Moves(c, s, acts, t, i)
    ensures Inv(t) && |t.pods| == |s.pods| && i < |t.pods|
  {
  }

  /** The pods below `n` are standby. */
  ghost predicate DownBelow(s: State, n: nat) {
    forall j :: 0 <= j < n && j < |s.pods| ==> s.pods[j].role.Standby?
  }

  /** All pods lose their role, at once and in turn. */
  lemma {:induction false} AllStandDown(c: Config, s: State, i: nat, n: nat) returns (acts: seq<Action>, t: State)
    requires Inv(s) && n <= |s.pods| && i < |s.pods|
    ensures TimelyRun(c, s, acts, t) && Inv(t) && |t.pods| == |s.pods| && t.server == s.server
    ensures DownBelow(t, n) && t.pods[i].stop == s.pods[i].stop
    decreases n
  {
    hide Inv, TimelyRun;
    if n == 0 {
      acts, t := [], s;
      EmptyRun(c, s);
    } else {
      var a, u := AllStandDown(c, s, i, n - 1);
      var b;
      b, t := StandDown(c, u, n - 1);
      acts := a + b;
      Join(c, s, a, u, b, t);
    }
  }

  lemma EmptyRun(c: Config, s: State)
    ensures TimelyRun(c, s, [], s)
  {
  }

  // ---------------------------------------------------------------- back to the loop head

  /** How many steps a standby is from its loop head, when all its calls fail. */
  function FromHead(p: Pod): nat {
    match p.phase
    case TryLock => 6
    case Granting(_) => 5
    case Locking(_) => 5
    case Undoing(_, _) => 4
    case Head => 0
    case _ => 3
  }

  function StepBack(p: Pod): Step {
    match p.phase
    case TryLock => StartLock
    case Granting(_) => GrantFail
    case Locking(_) => LockFail
    case Undoing(_, _) => UndoDone
    case Demoting => DemoteDone(false)
    case _ => SleepDone
  }

  lemma StepBackIsCloser(sv: Server, p: Pod)
    requires Coherent(p) && p.role.Standby? && !p.stop && !p.phase.Head?
    ensures Unaided(StepBack(p)) && PodEnabled(p, sv, StepBack(p))
    ensures var q := NextPod(p, sv, StepBack(p)); q.role.Standby? && FromHead(q) < FromHead(p)
  {
  }

  lemma {:induction false} BackToHead(c: Config, s: State, i: nat) returns (acts: seq<Action>, t: State)
    requires Inv(s) && i < |s.pods| && s.pods[i].role.Standby? && !s.pods[i].stop
    ensures Moves(c, s, acts, t, i) && Ready(t.pods[i])
    decreases FromHead(s.pods[i])
  {
    hide NextPod, PodEnabled, Unaided, FromHead, StepBack, Moves;
    assert PodInv(s.server, s.pods[i]);
    if s.pods[i].phase.Head? {
      acts, t := [], s;
      StaysPut(c, s, i);
    } else {
      StepBackIsCloser(s.server, s.pods[i]);
      var a, u := MoveOnce(c, s, i, StepBack(s.pods[i]));
      MovesKeepsInv(c, s, a, u, i);
      MovesStop(c, s, a, u, i);
      var b;
      b, t := BackToHead(c, u, i);
      acts := a + b;
      MovesChain(c, s, a, u, b, t, i);
    }
  }

  lemma MovesStop(c: Config, s: State, acts: seq<Action>, t: State, i: nat)
    requires Moves(c, s, acts, t, i)
    ensures i < |s.pods| && i < |t.pods| && t.pods[i].stop == s.pods[i].stop
  {
  }

  // ---------------------------------------------------------------- a free key

  /** With every pod standby, nobody renews: the lease on the key runs out. */
  lemma FreeKey(c: Config, s: State) returns (acts: seq<Action>, t: State)
    requires Inv(s) && DownBelow(s, |s.pods|)
    ensures TimelyRun(c, s, acts, t) && t.pods == s.pods && t.server.key.None?
  {
    if s.server.key.None? {
      acts, t := [], s;
    } else {
      var l := s.server.key.value;
      var d := if s.server.now < s.server.expiry[l] then s.server.expiry[l] - s.server.now else 0.0;
      forall j | 0 <= j < |s.pods| ensures InTime(c, s.pods[j], s.server.now + d) {
        assert PodInv(s.server, s.pods[j]);
      }
      var u := Apply(c, s, Tick(d));
      t := Apply(c, u, Expire(l));
      acts := [Tick(d), Expire(l)];
      assert acts[1..] == [Expire(l)] && acts[1..][1..] == [];
      assert TimelyRun(c, u, acts[1..], t);
    }
  }

  /**
    From every state that a run can reach, with any delays, lost replies and failed revokes behind it, every pod that is
    not being stopped has a timely continuation in which it becomes master.
   */
  lemma RecoveryPossible(c: Config, acts: seq<Action>, s: State, i: nat)
    requires WellFormed(c) && Run(c, Init(c), acts, s) && i < |s.pods| && !s.pods[i].stop
    ensures exists more, t :: TimelyRun(c, s, more, t) && i < |t.pods| && t.pods[i].role.Master?
  {
    hide Inv, TimelyRun, DownBelow;
    InitInv(c);
    RunKeepsInv(c, Init(c), acts, s);
    var a, t := AllStandDown(c, s, i, |s.pods|);
    AllDown(t, i);
    var b, u := BackToHead(c, t, i);
    StillDown(t, u, i);
    Join(c, s, a, t, b, u);
    var d, v := FreeKey(c, u);
    Join(c, s, a + b, u, d, v);
    var more, w := Elect(c, s, a + b + d, v, i);
  }

  lemma InitInv(c: Config)
    ensures Inv(Init(c))
  {
  }

  lemma AllDown(s: State, i: nat)
    requires DownBelow(s, |s.pods|) && i < |s.pods|
    ensures s.pods[i].role.Standby?
  {
  }

  lemma StillDown(s: State, t: State, i: nat)
    requires DownBelow(s, |s.pods|) && i < |s.pods| && |t.pods| == |s.pods|
    requires t.pods == s.pods[i := t.pods[i]] && t.pods[i].role.Standby?
    ensures DownBelow(t, |t.pods|)
  {
  }

  // ---------------------------------------------------------------- once stopped

  /** Being stopped, without the role and without an acquisition under way. */
  predicate Retired(p: Pod) {
    && p.stop && p.role.Standby? && p.tracked.None?
    && !p.phase.Granting? && !p.phase.Locking?
    && !p.phase.Renewing? && !p.phase.RetryWait?
  }

  lemma RetiredStep(sv: Server, p: Pod, a: Step)
    requires Retired(p) && PodEnabled(p, sv, a)
    ensures Retired(NextPod(p, sv, a))
  {
  }

  /** A standby that is being stopped never becomes master again, in any run. */
  lemma {:induction false} RetiredForGood(c: Config, s: State, acts: seq<Action>, t: State, i: nat)
    requires Run(c, s, acts, t) && i < |s.pods| && Retired(s.pods[i])
    ensures i < |t.pods| && Retired(t.pods[i])
    decreases |acts|
  {
    hide Retired, NextPod, PodEnabled;
    if acts != [] {
      if acts[0].Local? && acts[0].i == i {
        RetiredStep(s.server, s.pods[i], acts[0].step);
      }
      RetiredForGood(c, Apply(c, s, acts[0]), acts[1..], t, i);
    }
  }
}
