/** What becomes of leases: each one the server holds is somebody's, is on its way out, or was let go unknowingly. */
module ElectionLeases {
  import opened Options
  import opened Election
  import opened ElectionTiming

  /** The pod has this lease in hand: tracked, in the middle of an acquisition, or about to be revoked. */
  predicate InHand(p: Pod, l: LeaseId) {
    && p.lease == Some(l)
    && (|| p.tracked == Some(l)
        || p.phase == Granting(Some(l))
        || p.phase.Locking?
        || p.phase == Undoing(true, false))
  }

  /**
    Leases that a step lets go without a word to the server: a grant whose reply was lost, which the pod knows nothing
    of, and a lease that could not be renewed.
   */
  function Forsaken(p: Pod, a: Step): set<LeaseId> {
    match a
    case GrantFail => if p.phase.Granting? && p.phase.granted.Some? then {p.phase.granted.value} else {}
    case RenewFail => if p.tracked.Some? then {p.tracked.value} else {}
    case RenewReply =>
      if p.phase.Renewing? && p.phase.ack.Some? && !p.phase.ack.value.found && p.tracked.Some? then {p.tracked.value}
      else {}
    case _ => {}
  }

  /** All that a run lets go in this way. */
  function ForsakenBy(c: Config, s: State, acts: seq<Action>): set<LeaseId>
    decreases |acts|
  {
    if acts == [] || !Enabled(c, s, acts[0]) then {}
    else
      (if acts[0].Local? then Forsaken(s.pods[acts[0].i], acts[0].step) else {})
      + ForsakenBy(c, Apply(c, s, acts[0]), acts[1..])
  }

  ghost predicate Accounted(s: State, forsaken: set<LeaseId>, l: LeaseId) {
    || (exists i :: 0 <= i < |s.pods| && InHand(s.pods[i], l))
    || Revoke(l) in s.stray
    || l in forsaken
  }

  ghost predicate AllAccounted(s: State, forsaken: set<LeaseId>) {
    forall l :: l in s.server.expiry ==> Accounted(s, forsaken, l)
  }

  /** A lease whose release was served is gone. */
  ghost predicate ReleasedGone(s: State) {
    forall i :: 0 <= i < |s.pods| && s.pods[i].phase == Releasing(true) && s.pods[i].tracked.Some? ==>
                  s.pods[i].tracked.value !in s.server.expiry
  }

  /** The pod's own step: the lease stays in hand, is revoked or to be revoked, or is let go. */
  lemma OwnLeaseAccounted(ttl: real, sv: Server, p: Pod, a: Step, l: LeaseId)
    requires PodInv(sv, p) && PodEnabled(p, sv, a) && InHand(p, l)
    requires p.phase == Releasing(true) ==> l !in sv.expiry
    ensures || InHand(NextPod(p, sv, a), l)
            || l !in ServePod(ttl, sv, p, a).expiry
            || Revoke(l) in Abandoned(p, a)
            || l in Forsaken(p, a)
  {
  }

  /** A step of a pod adds a lease only as its own. */
  lemma NewLeaseInHand(ttl: real, sv: Server, p: Pod, a: Step, l: LeaseId)
    requires PodEnabled(p, sv, a) && l in ServePod(ttl, sv, p, a).expiry
    ensures l in sv.expiry || InHand(NextPod(p, sv, a), l)
  {
  }

  lemma ServerAddsNothing(c: Config, s: State, a: Action, l: LeaseId)
    requires Enabled(c, s, a) && !a.Local? && l in NextServer(c, s, a).expiry
    ensures l in s.server.expiry
  {
  }

  lemma StepKeepsReleasedGone(c: Config, s: State, a: Action)
    requires Inv(s) && ReleasedGone(s) && Enabled(c, s, a)
    ensures ReleasedGone(Apply(c, s, a))
  {
    var t := Apply(c, s, a);
    forall i | 0 <= i < |t.pods| && t.pods[i].phase == Releasing(true) && t.pods[i].tracked.Some?
      ensures t.pods[i].tracked.value !in t.server.expiry
    {
      assert PodInv(s.server, s.pods[i]);
      var l := t.pods[i].tracked.value;
      if a.Local? && a.i == i {
        OwnRelease(c.ttl, s.server, s.pods[i], a.step);
      } else if a.Local? {
        OldLeaseStaysGone(c.ttl, s.server, s.pods[a.i], a.step, l);
      } else if l in t.server.expiry {
        ServerAddsNothing(c, s, a, l);
      }
    }
  }

  lemma OwnRelease(ttl: real, sv: Server, p: Pod, a: Step)
    requires PodInv(sv, p) && PodEnabled(p, sv, a)
    requires p.phase == Releasing(true) && p.tracked.Some? ==> p.tracked.value !in sv.expiry
    ensures var q := NextPod(p, sv, a);
            q.phase == Releasing(true) && q.tracked.Some? ==> q.tracked.value !in ServePod(ttl, sv, p, a).expiry
  {
  }

  lemma OldLeaseStaysGone(ttl: real, sv: Server, q: Pod, a: Step, l: LeaseId)
    requires PodEnabled(q, sv, a) && l < sv.nextLease && l !in sv.expiry
    ensures l !in ServePod(ttl, sv, q, a).expiry
  {
  }

  lemma StepKeepsAccounts(c: Config, s: State, a: Action, forsaken: set<LeaseId>)
    requires Inv(s) && ReleasedGone(s) && AllAccounted(s, forsaken) && Enabled(c, s, a)
    ensures AllAccounted(Apply(c, s, a), forsaken + if a.Local? then Forsaken(s.pods[a.i], a.step) else {})
  {
    hide InHand, NextPod, ServePod, Abandoned, Forsaken, PodEnabled;
    var t := Apply(c, s, a);
    var more := forsaken + if a.Local? then Forsaken(s.pods[a.i], a.step) else {};
    forall l | l in t.server.expiry ensures Accounted(t, more, l) {
      if a.Local? {
        var p := s.pods[a.i];
        NewLeaseInHand(c.ttl, s.server, p, a.step, l);
        if InHand(NextPod(p, s.server, a.step), l) {
          assert InHand(t.pods[a.i], l);
        } else if i :| 0 <= i < |s.pods| && InHand(s.pods[i], l) {
          if i == a.i {
            assert PodInv(s.server, p);
            ReleasingLease(s, i, l);
            OwnLeaseAccounted(c.ttl, s.server, p, a.step, l);
          } else {
            assert InHand(t.pods[i], l);
          }
        }
      } else {
        ServerAddsNothing(c, s, a, l);
      }
    }
  }

  lemma ReleasingLease(s: State, i: nat, l: LeaseId)
    requires Inv(s) && ReleasedGone(s) && i < |s.pods| && InHand(s.pods[i], l)
    ensures s.pods[i].phase == Releasing(true) ==> l !in s.server.expiry
  {
    assert PodInv(s.server, s.pods[i]);
  }

  lemma {:induction false} RunKeepsAccounts(c: Config, s: State, acts: seq<Action>, t: State, forsaken: set<LeaseId>)
    requires Run(c, s, acts, t) && Inv(s) && ReleasedGone(s) && AllAccounted(s, forsaken)
    ensures ReleasedGone(t) && AllAccounted(t, forsaken + ForsakenBy(c, s, acts))
    decreases |acts|
  {
    hide Inv, ReleasedGone, AllAccounted, Forsaken;
    if acts == [] {
      assert forsaken + ForsakenBy(c, s, acts) == forsaken;
    } else {
      var a := acts[0];
      var more := if a.Local? then Forsaken(s.pods[a.i], a.step) else {};
      StepKeepsInv(c, s, a);
      StepKeepsReleasedGone(c, s, a);
      StepKeepsAccounts(c, s, a, forsaken);
      RunKeepsAccounts(c, Apply(c, s, a), acts[1..], t, forsaken + more);
      assert forsaken + more + ForsakenBy(c, Apply(c, s, a), acts[1..]) == forsaken + ForsakenBy(c, s, acts);
    }
  }

  /**
    No lease leaks: in every reachable state each lease the server holds is in some pod's hand, has a revocation on its
    way, or was let go in one of the two ways that leave the pod nothing to revoke.
   */
  lemma NoLeaseLeaks(c: Config, acts: seq<Action>, t: State)
    requires Run(c, Init(c), acts, t)
    ensures forall l :: l in t.server.expiry ==>
              || (exists i :: 0 <= i < |t.pods| && InHand(t.pods[i], l))
              || Revoke(l) in t.stray
              || l in ForsakenBy(c, Init(c), acts)
  {
    assert Inv(Init(c));
    RunKeepsAccounts(c, Init(c), acts, t, {});
    forall l | l in t.server.expiry
      ensures Accounted(t, ForsakenBy(c, Init(c), acts), l)
    {
      assert {} + ForsakenBy(c, Init(c), acts) == ForsakenBy(c, Init(c), acts);
    }
  }

  // ---------------------------------------------------------------- a lost acquisition

  /** The pod is about to revoke this lease, or it is gone, or its revocation is on its way. */
  ghost predicate GivenUp(s: State, i: nat, l: LeaseId) {
    && i < |s.pods| && l < s.server.nextLease
    && (|| (s.pods[i].lease == Some(l) && s.pods[i].phase == Undoing(true, false))
        || l !in s.server.expiry
        || Revoke(l) in s.stray)
  }

  lemma OwnUndo(ttl: real, sv: Server, p: Pod, a: Step, l: LeaseId)
    requires PodEnabled(p, sv, a) && p.lease == Some(l) && p.phase == Undoing(true, false)
    ensures var q := NextPod(p, sv, a);
            || (q.lease == Some(l) && q.phase == Undoing(true, false))
            || l !in ServePod(ttl, sv, p, a).expiry
            || Revoke(l) in Abandoned(p, a)
  {
  }

  lemma StepKeepsGivenUp(c: Config, s: State, a: Action, i: nat, l: LeaseId)
    requires Inv(s) && GivenUp(s, i, l) && Enabled(c, s, a)
    ensures GivenUp(Apply(c, s, a), i, l)
  {
    hide NextPod, ServePod, Abandoned, PodEnabled, PodInv;
    ServerStepHarmless(c, s, a);
    if a.Local? && a.i == i && s.pods[i].lease == Some(l) && s.pods[i].phase == Undoing(true, false) {
      OwnUndo(c.ttl, s.server, s.pods[i], a.step, l);
    }
  }

  lemma {:induction false} RunKeepsGivenUp(c: Config, s: State, acts: seq<Action>, t: State, i: nat, l: LeaseId)
    requires Inv(s) && GivenUp(s, i, l) && Run(c, s, acts, t)
    ensures GivenUp(t, i, l)
    decreases |acts|
  {
    hide Inv, GivenUp;
    if acts != [] {
      StepKeepsInv(c, s, acts[0]);
      StepKeepsGivenUp(c, s, acts[0], i, l);
      RunKeepsGivenUp(c, Apply(c, s, acts[0]), acts[1..], t, i, l);
    }
  }

  /** An acquisition ends without the lock: the transaction found the key taken, or the call failed. */
  predicate LosesLock(p: Pod, a: Step) {
    p.phase.Locking? && (a.LockFail? || (a.LockReply? && p.phase.put == Some(false)))
  }

  lemma LosingGivesUp(c: Config, s: State, i: nat, a: Step)
    requires Inv(s) && Enabled(c, s, Local(i, a)) && LosesLock(s.pods[i], a)
    ensures s.pods[i].lease.Some? && GivenUp(Apply(c, s, Local(i, a)), i, s.pods[i].lease.value)
  {
    assert PodInv(s.server, s.pods[i]);
  }

  /**
    A pod that loses an acquisition takes its fresh lease back: whenever it sleeps again, in any continuation of any
    run, the lease is gone from the server or its revocation is on its way.
   */
  lemma LostAcquisitionRevoked(c: Config, before: seq<Action>, s: State, i: nat, a: Step, acts: seq<Action>, t: State)
    requires Run(c, Init(c), before, s) && Enabled(c, s, Local(i, a)) && LosesLock(s.pods[i], a)
    requires Run(c, Apply(c, s, Local(i, a)), acts, t) && i < |t.pods| && t.pods[i].phase.Sleeping?
    ensures s.pods[i].lease.Some?
    ensures s.pods[i].lease.value !in t.server.expiry || Revoke(s.pods[i].lease.value) in t.stray
  {
    assert Inv(Init(c));
    RunKeepsInv(c, Init(c), before, s);
    LosingGivesUp(c, s, i, a);
    StepKeepsInv(c, s, Local(i, a));
    RunKeepsGivenUp(c, Apply(c, s, Local(i, a)), acts, t, i, s.pods[i].lease.value);
  }

  /** If the server is reached, the revocation is served once: the lease is gone and nothing stays on its way. */
  lemma RevocationInTime(c: Config, s: State, i: nat) returns (t: State)
    requires Inv(s) && i < |s.pods| && s.pods[i].phase == Undoing(true, false)
    ensures Run(c, s, [Local(i, UndoServed), Local(i, UndoDone)], t) && t.stray == s.stray
    ensures s.pods[i].lease.Some? && t.server == Drop(s.server, s.pods[i].lease.value)
    ensures i < |t.pods| && t.pods[i].phase.Sleeping?
  {
    assert PodInv(s.server, s.pods[i]);
    var u := Apply(c, s, Local(i, UndoServed));
    t := Apply(c, u, Local(i, UndoDone));
    var acts := [Local(i, UndoServed), Local(i, UndoDone)];
    assert acts[1..] == [Local(i, UndoDone)] && acts[1..][1..] == [];
    assert Run(c, u, acts[1..], t);
  }

  // ---------------------------------------------------------------- who is master

  /** The reply that the pod's put took the key. */
  predicate Wins(p: Pod, a: Step) {
    a.LockReply? && p.phase == Locking(Some(true))
  }

  /** A renewal fails or finds no lease, or the lock is released. */
  predicate Loses(p: Pod, a: Step) {
    || a.RenewFail? || a.ReleaseDone?
    || (a.RenewReply? && p.phase.Renewing? && p.phase.ack.Some? && !p.phase.ack.value.found)
  }

  /** The lease pod `i` won last and has not lost since, told from the steps of a run. */
  function Held(c: Config, s: State, acts: seq<Action>, i: nat, held: Option<LeaseId>): Option<LeaseId>
    decreases |acts|
  {
    if acts == [] || !Enabled(c, s, acts[0]) then held
    else
      var a, t := acts[0], Apply(c, s, acts[0]);
      if !a.Local? || a.i != i then Held(c, t, acts[1..], i, held)
      else if Wins(s.pods[i], a.step) then Held(c, t, acts[1..], i, s.pods[i].lease)
      else if Loses(s.pods[i], a.step) then Held(c, t, acts[1..], i, None)
      else Held(c, t, acts[1..], i, held)
  }

  lemma OwnHold(p: Pod, sv: Server, a: Step)
    requires PodEnabled(p, sv, a)
    ensures NextPod(p, sv, a).tracked ==
            if Wins(p, a) then p.lease else if Loses(p, a) then None else p.tracked
  {
  }

  lemma {:induction false} TrackedIsHeld(c: Config, s: State, acts: seq<Action>, t: State, i: nat)
    requires Run(c, s, acts, t) && i < |s.pods|
    ensures i < |t.pods| && t.pods[i].tracked == Held(c, s, acts, i, s.pods[i].tracked)
    decreases |acts|
  {
    hide Wins, Loses, NextPod, PodEnabled;
    if acts != [] {
      var a := acts[0];
      if a.Local? && a.i == i {
        OwnHold(s.pods[i], s.server, a.step);
      }
      TrackedIsHeld(c, Apply(c, s, a), acts[1..], t, i);
    }
  }

  /**
    In every run, a pod at its loop head or asleep is master exactly when it has won the lock and since then no renewal
    was lost and nothing released; and the lease it renews is the one it won.
   */
  lemma MasterExactlyWhileHeld(c: Config, acts: seq<Action>, t: State, i: nat)
    requires Run(c, Init(c), acts, t) && i < c.pods
    ensures i < |t.pods| && t.pods[i].tracked == Held(c, Init(c), acts, i, None)
    ensures t.pods[i].phase.Head? || t.pods[i].phase.Sleeping? ==>
              (t.pods[i].role.Master? <==> Held(c, Init(c), acts, i, None).Some?)
  {
    assert Inv(Init(c));
    RunKeepsInv(c, Init(c), acts, t);
    TrackedIsHeld(c, Init(c), acts, t, i);
    assert PodInv(t.server, t.pods[i]);
  }

  // ---------------------------------------------------------------- late service

  /** Pod 0 has the only lease and is about to put the key. */
  ghost predicate IsAtLocking(c: Config, s: State) {
    && 0 < c.pods
    && s == State(Server(0.0, map[0 := c.ttl], None, 1),
                  Init(c).pods[0 := Pod(Standby, None, Locking(None), 0.0, false, Some(0), 0.0)], {})
  }

  lemma AtLocking(c: Config) returns (acts: seq<Action>, s: State)
    requires WellFormed(c)
    ensures TimelyRun(c, Init(c), acts, s) && IsAtLocking(c, s)
  {
    acts, s := GetGrant(c, Init(c), [], Init(c), 0);
    hide TimelyRun;
    acts, s := DoStep(c, Init(c), acts, s, 0, GrantReply, Init(c).pods);
  }

  lemma GiveUpPut(c: Config, s: State)
    requires IsAtLocking(c, s)
    ensures Enabled(c, s, Local(0, LockFail)) && Timely(c, s, Local(0, LockFail))
    ensures Apply(c, s, Local(0, LockFail)) ==
            State(s.server, s.pods[0 := Pod(Standby, None, Undoing(true, false), 0.0, false, Some(0), 0.0)],
                  {PutIfAbsent(0)})
  {
  }

  lemma AcquireAndGiveUp(c: Config) returns (acts: seq<Action>, s: State)
    requires WellFormed(c)
    ensures TimelyRun(c, Init(c), acts, s) && PutIfAbsent(0) in s.stray
    ensures s.server.expiry == map[0 := c.ttl] && s.server.key.None?
    ensures |s.pods| == c.pods && s.pods[0].phase == Undoing(true, false) && s.pods[0].tracked.None?
    ensures forall j :: 1 <= j < |s.pods| ==> s.pods[j] == InitialPod()
  {
    acts, s := AtLocking(c);
    hide TimelyRun;
    GiveUpPut(c, s);
    hide Apply, Enabled, Timely;
    acts, s := Do(c, Init(c), acts, s, Local(0, LockFail));
  }

  /** A put whose caller gave up can still be served: the key is then bound to a lease that nobody tracks. */
  lemma OrphanHoldsKey(c: Config)
    requires WellFormed(c)
    ensures exists acts, s :: TimelyRun(c, Init(c), acts, s) && s.server.key.Some?
                              && forall i :: 0 <= i < |s.pods| ==> s.pods[i].tracked.None?
  {
    var acts, s := AcquireAndGiveUp(c);
    var acts', t := Do(c, Init(c), acts, s, ServeStray(PutIfAbsent(0)));
    assert t.server.key == Some(0) && t.pods == s.pods;
  }

  /** A keepalive whose caller gave up can still be served: a lease that its pod has let go is extended. */
  lemma OrphanIsExtended(c: Config)
    requires WellFormed(c) && c.keepAlive > 0.0
    ensures exists acts, s :: TimelyRun(c, Init(c), acts, s) && 0 in s.server.expiry && s.server.expiry[0] > c.ttl
                              && forall i :: 0 <= i < |s.pods| ==> s.pods[i].tracked.None?
  {
    hide TimelyRun;
    FirstRenewal(c);
    Wait(c, MasterAt(Renewing(0, None), c.interval, false, 0.0), c.interval, c.ttl, c.keepAlive);
    var p := MasterAt(Renewing(0, None), c.interval, false, 0.0);
    var acts, s :| TimelyRun(c, Init(c), acts, s) && Alone(c, s, p, c.interval + c.keepAlive, c.ttl);
    var acts1, t := Do(c, Init(c), acts, s, Local(0, RenewFail));
    assert KeepAlive(0) in t.stray && t.pods[0].tracked.None?;
    var acts2, u := Do(c, Init(c), acts1, t, ServeStray(KeepAlive(0)));
    assert u.server.expiry[0] == c.interval + c.keepAlive + c.ttl;
  }
}
