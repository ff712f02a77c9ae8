/**
  Leader election by a leased etcd key, as a system of interleaved steps.

  Any number of pods run the master/standby loop against one etcd server.  A pod takes the master key with a
  transaction that puts the key only when it does not exist, bound to a lease; it keeps the lease alive by
  renewal and steps down when a renewal fails.  Every remote call is split into the server serving it and the
  client hearing back, so it may fail before or after it took effect, and a request whose caller gave up may
  still be served later.  The clock is a step of its own.
 */
module Election {
  import opened Options

  type LeaseId = nat

  datatype Role = Standby | Master

  /** Requests that outlive the call that sent them. */
  datatype Request = PutIfAbsent(lease: LeaseId) | KeepAlive(lease: LeaseId) | Revoke(lease: LeaseId)

  /** The reply to a keepalive: when the server served it, and whether it still knew the lease. */
  datatype Ack = Ack(at: real, found: bool)

  /** Where a pod's loop stands.  A phase with an `Option` or a flag is a remote call: has the server served it? */
  datatype Phase =
    | Head                               // about to test stop_event
    | TryLock                            // about to call acquire_lock
    | Granting(granted: Option<LeaseId>) // LeaseGrant in flight
    | Locking(put: Option<bool>)         // compare-and-put transaction in flight
    | Undoing(known: bool, revoked: bool)// silent revoke after a failed acquisition
    | Promoting                          // on_become_master is running
    | Sleeping                           // the check interval
    | Renewing(attempt: nat, ack: Option<Ack>)
    | RetryWait(attempt: nat)            // the pause between two renewal attempts
    | Demoting                           // on_become_standby is running
    | Releasing(released: bool)          // release_lock during shutdown
    | Stopped

  /**
    `tracked` is the client's `_leases` entry for the master key.  `lease` (the last lease the server granted to
    this pod) and `heard` (when the server served the last grant or keepalive the pod has heard of) record history.
   */
  datatype Pod = Pod(role: Role, tracked: Option<LeaseId>, phase: Phase, since: real, stop: bool,
                     lease: Option<LeaseId>, heard: real)

  datatype Server = Server(now: real, expiry: map<LeaseId, real>, key: Option<LeaseId>, nextLease: LeaseId)

  datatype State = State(server: Server, pods: seq<Pod>, stray: set<Request>)

  /** `acquire` bounds the time from a served grant to the end of on_become_master; the code sets no such bound. */
  datatype Config = Config(ttl: real, interval: real, keepAlive: real, retryDelay: real, acquire: real,
                           pods: nat, stoppable: bool)

  /** One step of one pod's loop, or the server serving the call that pod is waiting for. */
  datatype Step =
    | Stop
    | LoopHead
    | StartLock
    | GrantServed
    | GrantReply
    | GrantFail
    | LockServed
    | LockReply
    | LockFail
    | UndoServed
    | UndoDone
    | PromoteDone
    | SleepDone
    | RenewServed(found: bool)
    | RenewReply
    | RenewFail
    | RetryDone
    | DemoteDone(raised: bool)
    | ReleaseServed
    | ReleaseDone

  datatype Action =
    | Tick(d: real)
    | Expire(lease: LeaseId)
    | ServeStray(request: Request)
    | Local(i: nat, step: Step)

  /** `_renew_master_lock` makes this many retries after its first attempt. */
  const MAX_RETRIES := 2

  ghost predicate WellFormed(c: Config) {
    && 0.0 < c.ttl && 0.0 <= c.interval && 0.0 <= c.keepAlive && 0.0 <= c.retryDelay && 0.0 <= c.acquire
    && 2 <= c.pods
  }

  function InitialPod(): Pod {
    Pod(Standby, None, Head, 0.0, false, None, 0.0)
  }

  function Init(c: Config): State {
    State(Server(0.0, map[], None, 0), seq(c.pods, _ => InitialPod()), {})
  }

  // ---------------------------------------------------------------- server

  /** Losing a lease deletes the key bound to it. */
  function Drop(sv: Server, l: LeaseId): Server {
    sv.(expiry := sv.expiry - {l}, key := if sv.key == Some(l) then None else sv.key)
  }

  function PutKey(sv: Server, l: LeaseId): Server {
    if sv.key.None? && l in sv.expiry then sv.(key := Some(l)) else sv
  }

  function Refresh(sv: Server, ttl: real, l: LeaseId): Server {
    if l in sv.expiry then sv.(expiry := sv.expiry[l := sv.now + ttl]) else sv
  }

  function Grant(sv: Server, ttl: real): Server {
    sv.(expiry := sv.expiry[sv.nextLease := sv.now + ttl], nextLease := sv.nextLease + 1)
  }

  function Serve(sv: Server, ttl: real, r: Request): Server {
    match r
    case PutIfAbsent(l) => PutKey(sv, l)
    case KeepAlive(l) => Refresh(sv, ttl, l)
    case Revoke(l) => Drop(sv, l)
  }

  // ---------------------------------------------------------------- client

  function GoTo(p: Pod, phase: Phase, now: real): Pod {
    p.(phase := phase, since := now)
  }

  /** A failed renew_lease forgets the lease; the last failed attempt ends the pod's mastership. */
  function AttemptFailed(p: Pod, attempt: nat, now: real): Pod {
    var q := p.(tracked := None);
    if attempt < MAX_RETRIES then GoTo(q, RetryWait(attempt), now) else GoTo(q.(role := Standby), Demoting, now)
  }

  /** renew_lease without a tracked lease fails on the spot, without a remote call. */
  function BeginAttempt(p: Pod, attempt: nat, now: real): Pod {
    if p.tracked.Some? then GoTo(p, Renewing(attempt, None), now) else AttemptFailed(p, attempt, now)
  }

  function AtLoopHead(p: Pod, now: real): Pod {
    if !p.stop then
      if p.role.Master? then BeginAttempt(p, 0, now) else GoTo(p, TryLock, now)
    else if p.role.Master? && p.tracked.Some? then
      GoTo(p, Releasing(false), now)
    else
      GoTo(p.(role := Standby), Stopped, now)
  }

  function AtTryLock(p: Pod, now: real): Pod {
    if p.stop then GoTo(p, Sleeping, now)
    else if p.tracked.Some? then GoTo(p.(role := Standby), Sleeping, now) // "already exists"
    else GoTo(p, Granting(None), now)
  }

  // ---------------------------------------------------------------- steps

  predicate PodEnabled(p: Pod, s: Server, a: Step) {
    match a
    case LoopHead => p.phase.Head?
    case StartLock => p.phase.TryLock?
    case GrantServed => p.phase == Granting(None)
    case GrantReply => p.phase.Granting? && p.phase.granted.Some?
    case GrantFail => p.phase.Granting?
    case LockServed => p.phase == Locking(None) && p.lease.Some?
    case LockReply => p.phase.Locking? && p.phase.put.Some? && p.lease.Some?
    case LockFail => p.phase.Locking? && p.lease.Some?
    case UndoServed => p.phase == Undoing(true, false) && p.lease.Some?
    case UndoDone => p.phase.Undoing?
    case PromoteDone => p.phase.Promoting?
    case SleepDone => p.phase.Sleeping?
    case RenewServed(found) =>
      && p.phase.Renewing? && p.phase.ack.None? && p.tracked.Some?
      && (if found then p.tracked.value in s.expiry
          else p.tracked.value in s.expiry ==> s.expiry[p.tracked.value] <= s.now)
    case RenewReply => p.phase.Renewing? && p.phase.ack.Some?
    case RenewFail => p.phase.Renewing?
    case RetryDone => p.phase.RetryWait?
    case DemoteDone(_) => p.phase.Demoting?
    case ReleaseServed => p.phase == Releasing(false) && p.tracked.Some?
    case ReleaseDone => p.phase.Releasing?
    case Stop => true
  }

  predicate Enabled(c: Config, s: State, a: Action) {
    match a
    case Tick(d) => 0.0 <= d
    case Expire(l) => l in s.server.expiry && s.server.expiry[l] <= s.server.now
    case ServeStray(r) => r in s.stray
    case Local(i, step) => i < |s.pods| && PodEnabled(s.pods[i], s.server, step) && (step.Stop? ==> c.stoppable)
  }

  /** The pod after its own step; a step of the server leaves it with the reply that is on its way. */
  function NextPod(p: Pod, sv: Server, a: Step): Pod
    requires PodEnabled(p, sv, a)
  {
    var now := sv.now;
    match a
    case Stop => p.(stop := true)
    case LoopHead => AtLoopHead(p, now)
    case StartLock => AtTryLock(p, now)
    case GrantServed => p.(phase := Granting(Some(sv.nextLease)), lease := Some(sv.nextLease), heard := now)
    case GrantReply => GoTo(p, Locking(None), now)
    case GrantFail => GoTo(p, Undoing(false, false), now)
    case LockServed => p.(phase := Locking(Some(sv.key.None? && p.lease.value in sv.expiry)))
    case LockReply =>
      if p.phase.put.value then GoTo(p.(role := Master, tracked := p.lease), Promoting, now)
      else GoTo(p, Undoing(true, false), now)
    case LockFail => GoTo(p, Undoing(true, false), now)
    case UndoServed => p.(phase := Undoing(true, true))
    case UndoDone => GoTo(p.(role := Standby), Sleeping, now)
    case PromoteDone => GoTo(p, Sleeping, now)
    case SleepDone => GoTo(p, Head, now)
    case RenewServed(found) => p.(phase := Renewing(p.phase.attempt, Some(Ack(now, found))))
    case RenewReply =>
      if p.phase.ack.value.found then GoTo(p.(heard := p.phase.ack.value.at), Sleeping, now)
      else AttemptFailed(p, p.phase.attempt, now)
    case RenewFail => AttemptFailed(p, p.phase.attempt, now)
    case RetryDone => BeginAttempt(p, p.phase.attempt + 1, now)
    case DemoteDone(raised) => GoTo(p, if raised then Sleeping else Head, now)
    case ReleaseServed => p.(phase := Releasing(true))
    case ReleaseDone => GoTo(p.(role := Standby, tracked := None), Stopped, now)
  }

  /** What serving a pod's pending call does to the server. */
  function ServePod(ttl: real, sv: Server, p: Pod, a: Step): Server
    requires PodEnabled(p, sv, a)
  {
    match a
    case GrantServed => Grant(sv, ttl)
    case LockServed => PutKey(sv, p.lease.value)
    case UndoServed => Drop(sv, p.lease.value)
    case RenewServed(found) => if found then Refresh(sv, ttl, p.tracked.value) else sv
    case ReleaseServed => Drop(sv, p.tracked.value)
    case _ => sv
  }

  function NextServer(c: Config, s: State, a: Action): Server
    requires Enabled(c, s, a)
  {
    match a
    case Tick(d) => s.server.(now := s.server.now + d)
    case Expire(l) => Drop(s.server, l)
    case ServeStray(r) => Serve(s.server, c.ttl, r)
    case Local(i, step) => ServePod(c.ttl, s.server, s.pods[i], step)
  }

  /** Requests a pod walks away from before they were served. */
  function Abandoned(p: Pod, a: Step): set<Request> {
    match a
    case LockFail => if p.phase == Locking(None) && p.lease.Some? then {PutIfAbsent(p.lease.value)} else {}
    case UndoDone => if p.phase == Undoing(true, false) && p.lease.Some? then {Revoke(p.lease.value)} else {}
    case RenewFail =>
      if p.phase.Renewing? && p.phase.ack.None? && p.tracked.Some? then {KeepAlive(p.tracked.value)} else {}
    case ReleaseDone => if p.phase == Releasing(false) && p.tracked.Some? then {Revoke(p.tracked.value)} else {}
    case _ => {}
  }

  function Apply(c: Config, s: State, a: Action): State
    requires Enabled(c, s, a)
  {
    match a
    case Local(i, step) =>
      State(NextServer(c, s, a), s.pods[i := NextPod(s.pods[i], s.server, step)], s.stray + Abandoned(s.pods[i], step))
    case _ => s.(server := NextServer(c, s, a))
  }

  /** The time limits on a pod that is master; local computation is counted in the limits of the waits around it. */
  predicate InTime(c: Config, p: Pod, t: real) {
    match p.phase
    case Head => p.role.Master? ==> t <= p.since
    case Promoting => t <= p.heard + c.acquire
    case Sleeping => p.role.Master? ==> t <= p.since + c.interval
    case Renewing(_, _) => t <= p.since + c.keepAlive
    case RetryWait(_) => t <= p.since + c.retryDelay
    case _ => true
  }

  /** No pod overstays a timed phase, and a lock reply that makes a master arrives within `acquire` of the grant. */
  predicate Timely(c: Config, s: State, a: Action) {
    match a
    case Tick(d) => forall i :: 0 <= i < |s.pods| ==> InTime(c, s.pods[i], s.server.now + d)
    case Local(i, step) =>
      && i < |s.pods|
      && (step.LockReply? && s.pods[i].phase == Locking(Some(true)) ==> s.server.now <= s.pods[i].heard + c.acquire)
    case _ => true
  }

  ghost predicate Run(c: Config, s: State, acts: seq<Action>, t: State)
    decreases |acts|
  {
    if acts == [] then s == t
    else Enabled(c, s, acts[0]) && Run(c, Apply(c, s, acts[0]), acts[1..], t)
  }

  ghost predicate TimelyRun(c: Config, s: State, acts: seq<Action>, t: State)
    decreases |acts|
  {
    if acts == [] then s == t
    else
      && Enabled(c, s, acts[0]) && Timely(c, s, acts[0])
      && TimelyRun(c, Apply(c, s, acts[0]), acts[1..], t)
  }

  // ---------------------------------------------------------------- invariants without timing

  /** Role and tracked lease agree in every phase but the short wait after a failed renewal. */
  predicate Coherent(p: Pod) {
    match p.phase
    case Head => p.role.Master? <==> p.tracked.Some?
    case TryLock => p.role.Standby? && p.tracked.None?
    case Granting(g) => p.role.Standby? && p.tracked.None? && (g.Some? ==> p.lease == g)
    case Locking(_) => p.role.Standby? && p.tracked.None? && p.lease.Some?
    case Undoing(known, _) => p.role.Standby? && p.tracked.None? && (known ==> p.lease.Some?)
    case Promoting => p.role.Master? && p.tracked.Some?
    case Sleeping => p.role.Master? <==> p.tracked.Some?
    case Renewing(n, _) => p.role.Master? && p.tracked.Some? && n == 0
    case RetryWait(n) => p.role.Master? && p.tracked.None? && n < MAX_RETRIES
    case Demoting => p.role.Standby? && p.tracked.None?
    case Releasing(_) => p.role.Master? && p.tracked.Some? && p.stop
    case Stopped => p.role.Standby? && p.tracked.None? && p.stop
  }

  /** The pod believes, or is about to hear, that the key is bound to its lease. */
  predicate Claims(p: Pod) {
    p.lease.Some? && (p.tracked.Some? || p.phase == Locking(Some(true)))
  }

  ghost predicate PodInv(sv: Server, p: Pod) {
    && Coherent(p)
    && (p.tracked.Some? ==> p.lease == p.tracked)
    && (p.lease.Some? ==> p.lease.value < sv.nextLease)
    && (Claims(p) && p.lease.value in sv.expiry ==> sv.key == p.lease)
  }

  ghost predicate ServerInv(sv: Server) {
    && (forall l :: l in sv.expiry ==> l < sv.nextLease)
    && (sv.key.Some? ==> sv.key.value in sv.expiry)
  }

  ghost predicate DistinctLeases(pods: seq<Pod>) {
    forall i, j :: 0 <= i < j < |pods| && pods[i].lease.Some? ==> pods[i].lease != pods[j].lease
  }

  ghost predicate StrayInv(s: State) {
    forall r :: r in s.stray ==> r.lease < s.server.nextLease
  }

  ghost predicate Inv(s: State) {
    && ServerInv(s.server)
    && (forall i :: 0 <= i < |s.pods| ==> PodInv(s.server, s.pods[i]))
    && DistinctLeases(s.pods)
    && StrayInv(s)
  }

  /** Server changes that keep every pod's claim: nothing but a put into an absent key binds the key. */
  ghost predicate Harmless(sv: Server, sv': Server) {
    && ServerInv(sv')
    && sv.nextLease <= sv'.nextLease
    && (forall l :: l in sv'.expiry && l < sv.nextLease ==> l in sv.expiry)
    && (sv.key.Some? && sv.key.value in sv'.expiry ==> sv'.key == sv.key)
  }

  lemma HarmlessKeepsPod(sv: Server, sv': Server, p: Pod)
    requires Harmless(sv, sv') && PodInv(sv, p)
    ensures PodInv(sv', p)
  {
  }

  lemma ServerStepHarmless(c: Config, s: State, a: Action)
    requires Inv(s) && Enabled(c, s, a)
    ensures Harmless(s.server, NextServer(c, s, a))
  {
    if a.Local? {
      assert PodInv(s.server, s.pods[a.i]);
    }
  }

  lemma StepKeepsCoherent(sv: Server, p: Pod, a: Step)
    requires Coherent(p) && PodEnabled(p, sv, a)
    ensures Coherent(NextPod(p, sv, a))
  {
  }

  /** A step changes the tracked lease only when it is answered, fails, or lets go. */
  lemma StepKeepsTracked(sv: Server, p: Pod, a: Step)
    requires Coherent(p) && PodEnabled(p, sv, a) && (p.tracked.Some? ==> p.lease == p.tracked)
    ensures var q := NextPod(p, sv, a); q.tracked.Some? ==> q.lease == q.tracked
  {
  }

  lemma StepKeepsOldLease(ttl: real, sv: Server, p: Pod, a: Step)
    requires PodEnabled(p, sv, a) && (p.lease.Some? ==> p.lease.value < sv.nextLease)
    ensures var q := NextPod(p, sv, a); q.lease.Some? ==> q.lease.value < ServePod(ttl, sv, p, a).nextLease
  {
  }

  /** A claim appears only with the server's own put, and outlives nothing that unbinds the key. */
  lemma StepKeepsClaim(ttl: real, sv: Server, p: Pod, a: Step)
    requires ServerInv(sv) && PodInv(sv, p) && PodEnabled(p, sv, a)
    ensures var q, sv' := NextPod(p, sv, a), ServePod(ttl, sv, p, a);
            Claims(q) && q.lease.value in sv'.expiry ==> sv'.key == q.lease
  {
  }

  lemma PodStepKeepsInv(ttl: real, sv: Server, p: Pod, a: Step)
    requires ServerInv(sv) && PodInv(sv, p) && PodEnabled(p, sv, a)
    ensures PodInv(ServePod(ttl, sv, p, a), NextPod(p, sv, a))
  {
    hide NextPod, ServePod, Coherent, Claims, PodEnabled, ServerInv;
    StepKeepsCoherent(sv, p, a);
    StepKeepsTracked(sv, p, a);
    StepKeepsOldLease(ttl, sv, p, a);
    StepKeepsClaim(ttl, sv, p, a);
  }

  /** A pod keeps its lease, or is granted one that nobody has had before. */
  lemma StepKeepsLeasesDistinct(c: Config, s: State, a: Action)
    requires Inv(s) && Enabled(c, s, a)
    ensures DistinctLeases(Apply(c, s, a).pods)
  {
    if a.Local? {
      var p, q := s.pods[a.i], NextPod(s.pods[a.i], s.server, a.step);
      assert q.lease == p.lease || q.lease == Some(s.server.nextLease);
      assert forall j :: 0 <= j < |s.pods| ==> PodInv(s.server, s.pods[j]);
    }
  }

  lemma StepKeepsStray(c: Config, s: State, a: Action)
    requires Inv(s) && Enabled(c, s, a)
    ensures StrayInv(Apply(c, s, a))
  {
    ServerStepHarmless(c, s, a);
    if a.Local? {
      assert PodInv(s.server, s.pods[a.i]);
    }
  }

  lemma StepKeepsInv(c: Config, s: State, a: Action)
    requires Inv(s) && Enabled(c, s, a)
    ensures Inv(Apply(c, s, a))
  {
    var t := Apply(c, s, a);
    ServerStepHarmless(c, s, a);
    forall i | 0 <= i < |t.pods| ensures PodInv(t.server, t.pods[i]) {
      if a.Local? && i == a.i {
        PodStepKeepsInv(c.ttl, s.server, s.pods[i], a.step);
      } else {
        HarmlessKeepsPod(s.server, t.server, s.pods[i]);
      }
    }
    StepKeepsLeasesDistinct(c, s, a);
    StepKeepsStray(c, s, a);
  }

  lemma {:induction false} RunKeepsInv(c: Config, s: State, acts: seq<Action>, t: State)
    requires Inv(s) && Run(c, s, acts, t)
    ensures Inv(t)
    decreases |acts|
  {
    if acts != [] {
      StepKeepsInv(c, s, acts[0]);
      RunKeepsInv(c, Apply(c, s, acts[0]), acts[1..], t);
    }
  }

  /**
    Lease-level mutual exclusion, for every pattern of delays, lost replies and failed revokes: a tracked lease
    that is still live at the server is the one bound to the key, so no two pods track a live lease.
   */
  lemma LeaseExclusion(c: Config, acts: seq<Action>, t: State)
    requires Run(c, Init(c), acts, t)
    ensures forall i :: 0 <= i < |t.pods| && t.pods[i].tracked.Some? && t.pods[i].tracked.value in t.server.expiry
                        ==> t.server.key == t.pods[i].tracked
    ensures forall i, j :: 0 <= i < j < |t.pods| && t.pods[i].tracked.Some? && t.pods[j].tracked.Some?
                        ==> t.pods[i].tracked.value !in t.server.expiry || t.pods[j].tracked.value !in t.server.expiry
  {
    RunKeepsInv(c, Init(c), acts, t);
    forall i | 0 <= i < |t.pods| && t.pods[i].tracked.Some? && t.pods[i].tracked.value in t.server.expiry
      ensures t.server.key == t.pods[i].tracked
    {
      assert PodInv(t.server, t.pods[i]);
    }
    forall i, j | 0 <= i < j < |t.pods| && t.pods[i].tracked.Some? && t.pods[j].tracked.Some?
      ensures t.pods[i].tracked.value !in t.server.expiry || t.pods[j].tracked.value !in t.server.expiry
    {
      assert PodInv(t.server, t.pods[i]) && PodInv(t.server, t.pods[j]);
    }
  }

  /**
    At every loop head a pod is master exactly when it tracks a lease; a pod about to lock never trips over its own
    "already exists" check; renewal talks to the server on its first attempt only; a stopped pod is standby.
   */
  lemma RoleFollowsLease(c: Config, acts: seq<Action>, t: State, i: nat)
    requires Run(c, Init(c), acts, t) && i < |t.pods|
    ensures t.pods[i].phase.Head? ==> (t.pods[i].role.Master? <==> t.pods[i].tracked.Some?)
    ensures t.pods[i].phase.TryLock? ==> t.pods[i].tracked.None?
    ensures t.pods[i].phase.Renewing? ==> t.pods[i].phase.attempt == 0
    ensures t.pods[i].phase.Stopped? ==> t.pods[i].role.Standby? && t.pods[i].tracked.None?
  {
    RunKeepsInv(c, Init(c), acts, t);
    assert PodInv(t.server, t.pods[i]);
  }
}
