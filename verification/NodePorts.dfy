/** Finding, resolving and writing back conflicts between planned NodePorts and those the cluster already uses. */
module NodePorts {
  import opened Options

  const NODEPORT_MIN := 30000
  const NODEPORT_MAX := 32767
  const SPAN: nat := NODEPORT_MAX - NODEPORT_MIN + 1

  datatype Planned = Planned(port: int, service: string, namespace: string)

  datatype Owner = Owner(namespace: string, service: string)

  type Cluster = map<int, Owner>

  predicate InRange(p: int) {
    NODEPORT_MIN <= p <= NODEPORT_MAX
  }

  /** The range Kubernetes gives to NodePorts by default. */
  lemma RangeIs(p: int)
    ensures InRange(p) <==> 30000 <= p < 32768
  {
  }

  // ---------------------------------------------------------------- conflicts

  predicate IsSelfOwned(item: Planned, owner: Owner, job: string) {
    owner.namespace == (if item.namespace == "" then job else item.namespace) && owner.service == item.service
  }

  predicate Conflicting(item: Planned, cluster: Cluster, job: string) {
    item.port in cluster && !IsSelfOwned(item, cluster[item.port], job)
  }

  /** The first conflicting item on each port, in planned order. */
  ghost function ConflictsOf(planned: seq<Planned>, cluster: Cluster, job: string): seq<Planned> {
    if planned == [] then []
    else
      var n := |planned| - 1;
      var before, item := ConflictsOf(planned[..n], cluster, job), planned[n];
      if Conflicting(item, cluster, job) && !(exists c :: c in before && c.port == item.port) then before + [item]
      else before
  }

  /**
    One conflict per port: every reported item conflicts, and every conflicting port is reported exactly once.  A port
    that the cluster uses goes unreported exactly when every item planned on it is that very service: the same service
    name, in the item's namespace or, where it names none, in the job's.
   */
  method FindConflicts(planned: seq<Planned>, cluster: Cluster, job: string) returns (conflicts: seq<Planned>)
    ensures conflicts == ConflictsOf(planned, cluster, job)
    ensures forall i :: 0 <= i < |conflicts| ==> conflicts[i] in planned && Conflicting(conflicts[i], cluster, job)
    ensures forall i, j :: 0 <= i < j < |conflicts| ==> conflicts[i].port != conflicts[j].port
    ensures forall item :: item in planned && Conflicting(item, cluster, job) ==>
                             exists i :: 0 <= i < |conflicts| && conflicts[i].port == item.port
    ensures forall i :: 0 <= i < |conflicts| ==> conflicts[i].port in cluster
    ensures forall p :: p in cluster ==>
              ((forall i :: 0 <= i < |conflicts| ==> conflicts[i].port != p) <==>
                 forall item :: item in planned && item.port == p ==> OwnService(item, cluster[p], job))
  {
    hide OwnService;
    conflicts := [];
    var seen: set<int> := {};
    for n := 0 to |planned|
      invariant conflicts == ConflictsOf(planned[..n], cluster, job)
      invariant seen == set c | c in conflicts :: c.port
    {
      var item := planned[n];
      assert planned[..n + 1][..n] == planned[..n];
      if item.port in cluster && !IsSelfOwned(item, cluster[item.port], job) && item.port !in seen {
        seen := seen + {item.port};
        conflicts := conflicts + [item];
      }
    }
    assert planned[..|planned|] == planned;
    ConflictsOnly(planned, cluster, job);
    hide ConflictsOf, Conflicting;
    ConflictsCovered(planned, cluster, job, conflicts);
    ConflictsFields(planned, cluster, job, conflicts);
  }

  /** Only conflicts are reported, and no port twice. */
  lemma {:induction false} ConflictsOnly(planned: seq<Planned>, cluster: Cluster, job: string)
    ensures var conflicts := ConflictsOf(planned, cluster, job);
            && (forall c :: c in conflicts ==> c in planned && Conflicting(c, cluster, job))
            && (forall i, j :: 0 <= i < j < |conflicts| ==> conflicts[i].port != conflicts[j].port)
  {
    if planned != [] {
      var n := |planned| - 1;
      ConflictsOnly(planned[..n], cluster, job);
      var before, after := ConflictsOf(planned[..n], cluster, job), ConflictsOf(planned, cluster, job);
      hide ConflictsOf, Conflicting;
      forall i, j | 0 <= i < j < |after| ensures after[i].port != after[j].port {
        assert after[i] == before[i] && before[i] in before;
      }
    }
  }

  /** Every conflicting port is reported. */
  lemma {:induction false} ConflictsReported(planned: seq<Planned>, cluster: Cluster, job: string, item: Planned)
    requires item in planned && Conflicting(item, cluster, job)
    ensures exists c :: c in ConflictsOf(planned, cluster, job) && c.port == item.port
  {
    var n := |planned| - 1;
    var before, after := ConflictsOf(planned[..n], cluster, job), ConflictsOf(planned, cluster, job);
    if item in planned[..n] {
      ConflictsReported(planned[..n], cluster, job, item);
      hide ConflictsOf, Conflicting;
      var c :| c in before && c.port == item.port;
      assert c in after;
    } else {
      assert item == planned[n];
      hide Conflicting;
      if c :| c in before && c.port == item.port {
        assert c in after;
      } else {
        assert item in after;
      }
    }
  }

  lemma ConflictsCovered(planned: seq<Planned>, cluster: Cluster, job: string, conflicts: seq<Planned>)
    requires conflicts == ConflictsOf(planned, cluster, job)
    ensures forall item :: item in planned && Conflicting(item, cluster, job) ==>
              exists i :: 0 <= i < |conflicts| && conflicts[i].port == item.port
  {
    forall item | item in planned && Conflicting(item, cluster, job)
      ensures exists i :: 0 <= i < |conflicts| && conflicts[i].port == item.port
    {
      ConflictsReported(planned, cluster, job, item);
      var c :| c in conflicts && c.port == item.port;
    }
  }

  /** The same in fields. */
  lemma ConflictsFields(planned: seq<Planned>, cluster: Cluster, job: string, conflicts: seq<Planned>)
    requires forall c :: c in conflicts ==> c in planned && Conflicting(c, cluster, job)
    requires forall item :: item in planned && Conflicting(item, cluster, job) ==>
               exists i :: 0 <= i < |conflicts| && conflicts[i].port == item.port
    ensures forall i :: 0 <= i < |conflicts| ==> conflicts[i].port in cluster
    ensures forall p :: p in cluster ==>
              ((forall i :: 0 <= i < |conflicts| ==> conflicts[i].port != p) <==>
                 forall item :: item in planned && item.port == p ==> OwnService(item, cluster[p], job))
  {
    forall item | item in planned && item.port in cluster
      ensures Conflicting(item, cluster, job) <==> !OwnService(item, cluster[item.port], job)
    {
      ConflictingExactly(item, cluster, job);
    }
    forall i | 0 <= i < |conflicts|
      ensures conflicts[i] in planned && conflicts[i].port in cluster
              && !OwnService(conflicts[i], cluster[conflicts[i].port], job)
    {
      assert conflicts[i] in conflicts;
    }
  }

  /** The service that holds the port is the planned one, by its fields. */
  ghost predicate OwnService(item: Planned, owner: Owner, job: string) {
    && owner.service == item.service
    && (item.namespace != "" ==> owner.namespace == item.namespace)
    && (item.namespace == "" ==> owner.namespace == job)
  }

  lemma ConflictingExactly(item: Planned, cluster: Cluster, job: string)
    requires item.port in cluster
    ensures Conflicting(item, cluster, job) <==> !OwnService(item, cluster[item.port], job)
  {
  }

  // ---------------------------------------------------------------- the circular scan

  function Following(c: int): int {
    if c + 1 > NODEPORT_MAX then NODEPORT_MIN else c + 1
  }

  /** The port the scan looks at after `i` steps. */
  function Candidate(taken: int, i: nat): int {
    if i == 0 then Following(taken) else Following(Candidate(taken, i - 1))
  }

  method AllocateFreePort(taken: int, reserved: set<int>) returns (r: Option<int>)
    ensures r.Some? ==> exists i :: 0 <= i < SPAN && IsFirstFree(taken, reserved, i) && r.value == Candidate(taken, i)
    ensures r.None? ==> forall i :: 0 <= i < SPAN ==> Candidate(taken, i) in reserved
  {
    var candidate := taken + 1;
    if candidate > NODEPORT_MAX {
      candidate := NODEPORT_MIN;
    }
    for i := 0 to SPAN
      invariant candidate == Candidate(taken, i)
      invariant forall j :: 0 <= j < i ==> Candidate(taken, j) in reserved
    {
      if candidate !in reserved {
        assert IsFirstFree(taken, reserved, i);
        return Some(candidate);
      }
      candidate := candidate + 1;
      if candidate > NODEPORT_MAX {
        candidate := NODEPORT_MIN;
      }
      assert candidate == Candidate(taken, i + 1);
    }
    return None;
  }

  ghost predicate IsFirstFree(taken: int, reserved: set<int>, i: nat) {
    Candidate(taken, i) !in reserved && forall j :: 0 <= j < i ==> Candidate(taken, j) in reserved
  }

  /** How many steps the scan from `taken` needs to reach `p`, going up and around. */
  function StepsTo(taken: int, p: int): int {
    if p >= Following(taken) then p - Following(taken) else p - Following(taken) + SPAN
  }

  lemma {:induction false} CandidateClosed(taken: int, i: nat)
    requires NODEPORT_MIN - 1 <= taken && i < SPAN
    ensures InRange(Candidate(taken, i)) && StepsTo(taken, Candidate(taken, i)) == i
  {
    if i > 0 {
      CandidateClosed(taken, i - 1);
    }
  }

  lemma {:induction false} CandidateReaches(taken: int, p: int)
    requires NODEPORT_MIN - 1 <= taken && InRange(p)
    ensures 0 <= StepsTo(taken, p) < SPAN && Candidate(taken, StepsTo(taken, p)) == p
  {
    var i := StepsTo(taken, p);
    CandidateClosed(taken, i);
  }

  /** The scan passes every port of the range, and none twice. */
  lemma ScanVisitsEachOnce(taken: int)
    requires NODEPORT_MIN - 1 <= taken
    ensures forall i :: 0 <= i < SPAN ==> InRange(Candidate(taken, i))
    ensures forall i, j :: 0 <= i < j < SPAN ==> Candidate(taken, i) != Candidate(taken, j)
    ensures forall p :: InRange(p) ==> 0 <= StepsTo(taken, p) < SPAN && Candidate(taken, StepsTo(taken, p)) == p
  {
    forall i | 0 <= i < SPAN ensures InRange(Candidate(taken, i)) && StepsTo(taken, Candidate(taken, i)) == i {
      CandidateClosed(taken, i);
    }
    forall p | InRange(p) ensures 0 <= StepsTo(taken, p) < SPAN && Candidate(taken, StepsTo(taken, p)) == p {
      CandidateReaches(taken, p);
    }
  }

  /** What the scan finds is in range and cyclically nearest above the old port. */
  lemma FirstFreeIsNearest(taken: int, reserved: set<int>, i: nat)
    requires NODEPORT_MIN - 1 <= taken && i < SPAN && IsFirstFree(taken, reserved, i)
    ensures InRange(Candidate(taken, i)) && Candidate(taken, i) !in reserved
    ensures forall q :: InRange(q) && q !in reserved ==> StepsTo(taken, Candidate(taken, i)) <= StepsTo(taken, q)
  {
    CandidateClosed(taken, i);
    forall q | InRange(q) && q !in reserved ensures i <= StepsTo(taken, q) {
      CandidateReaches(taken, q);
    }
  }

  ghost predicate AllSeenReserved(taken: int, reserved: set<int>) {
    forall i: nat :: i < SPAN ==> Candidate(taken, i) in reserved
  }

  ghost predicate RangeReserved(reserved: set<int>) {
    forall p :: InRange(p) ==> p in reserved
  }

  lemma ScanFailsExactly(taken: int, reserved: set<int>)
    requires NODEPORT_MIN - 1 <= taken
    ensures AllSeenReserved(taken, reserved) <==> RangeReserved(reserved)
  {
    if AllSeenReserved(taken, reserved) {
      forall p | InRange(p) ensures p in reserved {
        CandidateReaches(taken, p);
        var i: nat := StepsTo(taken, p);
        assert Candidate(taken, i) in reserved;
      }
    }
    if RangeReserved(reserved) {
      forall i: nat | i < SPAN ensures Candidate(taken, i) in reserved {
        CandidateClosed(taken, i);
        assert InRange(Candidate(taken, i));
      }
    }
  }

  /** From an old port below the range the scan hands out ports outside it: the bound is exactly what it needs. */
  lemma InRangeExactly(taken: int)
    ensures NODEPORT_MIN - 1 <= taken <==>
              forall reserved, i :: 0 <= i < SPAN && IsFirstFree(taken, reserved, i) ==> InRange(Candidate(taken, i))
  {
    if NODEPORT_MIN - 1 <= taken {
      forall reserved, i | 0 <= i < SPAN && IsFirstFree(taken, reserved, i) ensures InRange(Candidate(taken, i)) {
        CandidateClosed(taken, i);
      }
    } else {
      assert IsFirstFree(taken, {}, 0) && Candidate(taken, 0) == taken + 1;
    }
  }

  // ---------------------------------------------------------------- resolution

  /** What the operator types at a prompt; running out of answers is end of file. */
  datatype Answer = Auto | Port(n: nat) | Decline | Garbage

  datatype Outcome = Chosen(port: int) | Declined | Exhausted

  type Remapping = map<int, int>

  function Effective(m: Remapping, p: int): int {
    if p in m then m[p] else p
  }

  /** Distinct planned ports stay distinct. */
  ghost predicate Injective(m: Remapping, planned: seq<Planned>) {
    forall a, b :: a in planned && b in planned && a.port != b.port ==> Effective(m, a.port) != Effective(m, b.port)
  }

  /** A target that no other planned port uses, now or after the remapping so far. */
  ghost predicate Admissible(port: int, taken: int, m: Remapping, planned: seq<Planned>) {
    port !in m.Values && forall item :: item in planned && item.port != taken ==> port != Effective(m, item.port)
  }

  /** The first item planned on the old port is the service that holds the new one. */
  ghost predicate OwnersOwn(planned: seq<Planned>, taken: int, owner: Owner, job: string) {
    exists i :: 0 <= i < |planned| && planned[i].port == taken && OwnService(planned[i], owner, job)
      && forall j :: 0 <= j < i ==> planned[j].port != taken
  }

  /** A port the operator may name: in range, nobody else's, and not promised within this plan. */
  ghost predicate Acceptable(port: int, taken: int, cluster: Cluster, planned: seq<Planned>, m: Remapping, job: string)
  {
    && NODEPORT_MIN <= port <= NODEPORT_MAX
    && (port in cluster ==> OwnersOwn(planned, taken, cluster[port], job))
    && Admissible(port, taken, m, planned)
  }

  method ValidateUserPort(port: int, taken: int, cluster: Cluster, planned: seq<Planned>, m: Remapping, job: string)
    returns (ok: bool)
    ensures ok <==> Acceptable(port, taken, cluster, planned, m, job)
  {
    if port < NODEPORT_MIN || port > NODEPORT_MAX {
      return false;
    }
    if port in cluster {
      FirstOwnsExactly(planned, taken, cluster[port], job);
      if !FirstOwns(planned, taken, cluster[port], job) {
        return false;
      }
    }
    var others := set item | item in planned && item.port != taken :: Effective(m, item.port);
    assert forall item :: item in planned && item.port != taken ==> Effective(m, item.port) in others;
    return !(port in m.Values || port in others);
  }

  /** The first planned item on the old port is the owner's own service. */
  predicate FirstOwns(planned: seq<Planned>, taken: int, owner: Owner, job: string) {
    planned != [] &&
    if planned[0].port == taken then IsSelfOwned(planned[0], owner, job) else FirstOwns(planned[1..], taken, owner, job)
  }

  lemma {:induction false} FirstOwnsExactly(planned: seq<Planned>, taken: int, owner: Owner, job: string)
    ensures FirstOwns(planned, taken, owner, job) <==> OwnersOwn(planned, taken, owner, job)
  {
    if planned != [] && planned[0].port != taken {
      var rest := planned[1..];
      FirstOwnsExactly(rest, taken, owner, job);
      if i :| 0 <= i < |planned| && planned[i].port == taken && OwnService(planned[i], owner, job)
              && forall j :: 0 <= j < i ==> planned[j].port != taken {
        assert rest[i - 1] == planned[i] && forall j :: 0 <= j < i - 1 ==> rest[j] == planned[j + 1];
      }
      if i :| 0 <= i < |rest| && rest[i].port == taken && OwnService(rest[i], owner, job)
              && forall j :: 0 <= j < i ==> rest[j].port != taken {
        assert planned[i + 1] == rest[i] && forall j :: 1 <= j < i + 1 ==> planned[j] == rest[j - 1];
      }
    }
  }

  /** What an automatic choice stays clear of. */
  function Unavailable(cluster: Cluster, planned: seq<Planned>, m: Remapping): set<int> {
    cluster.Keys + (set p | p in planned :: p.port) + m.Values
  }

  ghost predicate IsNextFree(port: int, taken: int, reserved: set<int>) {
    exists i :: 0 <= i < SPAN && IsFirstFree(taken, reserved, i) && port == Candidate(taken, i)
  }

  lemma AutoMeans(taken: int, reserved: set<int>, free: Option<int>)
    requires free.Some? ==>
               exists i :: 0 <= i < SPAN && IsFirstFree(taken, reserved, i) && free.value == Candidate(taken, i)
    requires free.None? ==> forall i :: 0 <= i < SPAN ==> Candidate(taken, i) in reserved
    ensures free.Some? ==> IsNextFree(free.value, taken, reserved)
    ensures free.None? <==> AllSeenReserved(taken, reserved)
  {
  }

  lemma NextFreeMeans(item: Planned, cluster: Cluster, planned: seq<Planned>, m: Remapping, port: int)
    requires IsNextFree(port, item.port, Unavailable(cluster, planned, m))
    ensures Admissible(port, item.port, m, planned) && port !in cluster
    ensures NODEPORT_MIN - 1 <= item.port ==> InRange(port)
  {
    var reserved := Unavailable(cluster, planned, m);
    var i :| 0 <= i < SPAN && IsFirstFree(item.port, reserved, i) && port == Candidate(item.port, i);
    if NODEPORT_MIN - 1 <= item.port {
      CandidateClosed(item.port, i);
    }
    forall p | p in planned && p.port != item.port ensures port != Effective(m, p.port) {
      assert p.port in reserved;
    }
  }

  /** An answer that is not understood or not acceptable; the question is put again. */
  ghost predicate Skipped(a: Answer, taken: int, cluster: Cluster, planned: seq<Planned>, m: Remapping, job: string) {
    a.Garbage? || (a.Port? && !Acceptable(a.n, taken, cluster, planned, m, job))
  }

  /**
    One dialogue: the answers from `k` up to `k'` are read.  The first that can decide does; the end of input declines.
   */
  ghost predicate Prompted(item: Planned, cluster: Cluster, planned: seq<Planned>, m: Remapping, job: string,
                           answers: seq<Answer>, k: nat, k': nat, outcome: Outcome)
  {
    && k <= k' <= |answers|
    && (forall j :: k <= j < k' - 1 ==> Skipped(answers[j], item.port, cluster, planned, m, job))
    && if k == k' || Skipped(answers[k' - 1], item.port, cluster, planned, m, job) then
         k' == |answers| && outcome == Declined
       else
         match answers[k' - 1]
         case Decline => outcome == Declined
         case Auto =>
           if AllSeenReserved(item.port, Unavailable(cluster, planned, m)) then outcome == Exhausted
           else outcome.Chosen? && IsNextFree(outcome.port, item.port, Unavailable(cluster, planned, m))
         case Port(n) => outcome == Chosen(n)
         case Garbage => false
  }

  method PromptOneConflict(item: Planned, cluster: Cluster, planned: seq<Planned>, m: Remapping, job: string,
                           answers: seq<Answer>, k: nat)
    returns (outcome: Outcome, k': nat)
    requires k <= |answers|
    ensures Prompted(item, cluster, planned, m, job, answers, k, k', outcome)
  {
    hide Acceptable, AllSeenReserved, IsNextFree, Unavailable;
    k' := k;
    while k' < |answers|
      invariant k <= k' <= |answers|
      invariant forall j :: k <= j < k' ==> Skipped(answers[j], item.port, cluster, planned, m, job)
    {
      var answer := answers[k'];
      k' := k' + 1;
      match answer
      case Decline =>
        return Declined, k';
      case Garbage =>
      case Auto =>
        var free := AllocateFreePort(item.port, Unavailable(cluster, planned, m));
        AutoMeans(item.port, Unavailable(cluster, planned, m), free);
        return if free.None? then Exhausted else Chosen(free.value), k';
      case Port(n) =>
        var ok := ValidateUserPort(n, item.port, cluster, planned, m, job);
        if ok {
          return Chosen(n), k';
        }
    }
    outcome := Declined;
  }

  /** Whatever is chosen keeps the plan's ports apart. */
  lemma PromptedMeans(item: Planned, cluster: Cluster, planned: seq<Planned>, m: Remapping, job: string,
                      answers: seq<Answer>, k: nat, k': nat, outcome: Outcome)
    requires Prompted(item, cluster, planned, m, job, answers, k, k', outcome)
    ensures outcome.Chosen? ==> Admissible(outcome.port, item.port, m, planned)
    ensures outcome.Chosen? && NODEPORT_MIN - 1 <= item.port ==> InRange(outcome.port)
    ensures k < |answers| && answers[k] == Auto ==>
              !outcome.Declined? && k' == k + 1 && (outcome.Chosen? ==> outcome.port !in cluster)
  {
    hide AllSeenReserved;
    if k < |answers| && answers[k] == Auto {
      assert !Skipped(answers[k], item.port, cluster, planned, m, job);
    }
    if outcome.Chosen? && answers[k' - 1] == Auto {
      NextFreeMeans(item, cluster, planned, m, outcome.port);
    }
  }

  /** What the outcomes for the first conflicts make of the plan. */
  function RemapAfter(conflicts: seq<Planned>, outs: seq<Outcome>): Remapping
    requires |outs| <= |conflicts|
  {
    if outs == [] then map[]
    else
      var n := |outs| - 1;
      var m := RemapAfter(conflicts, outs[..n]);
      if outs[n].Chosen? then m[conflicts[n].port := outs[n].port] else m
  }

  function DeclinedAfter(conflicts: seq<Planned>, outs: seq<Outcome>): seq<Planned>
    requires |outs| <= |conflicts|
  {
    if outs == [] then []
    else
      var n := |outs| - 1;
      DeclinedAfter(conflicts, outs[..n]) + if outs[n].Declined? then [conflicts[n]] else []
  }

  /** One dialogue after another, each with the plan as the ones before it left it; `ks` counts the answers read. */
  ghost predicate Transcript(conflicts: seq<Planned>, cluster: Cluster, planned: seq<Planned>, job: string,
                             answers: seq<Answer>, outs: seq<Outcome>, ks: seq<nat>)
  {
    && |outs| <= |conflicts| && |ks| == |outs| + 1
    && if outs == [] then ks[0] == 0
       else
         var n := |outs| - 1;
         && Transcript(conflicts, cluster, planned, job, answers, outs[..n], ks[..n + 1])
         && Prompted(conflicts[n], cluster, planned, RemapAfter(conflicts, outs[..n]), job, answers, ks[n], ks[n + 1],
                     outs[n])
  }

  /** The dialogues end when all conflicts are through, or with the first that finds no free port. */
  ghost predicate Through(conflicts: seq<Planned>, outs: seq<Outcome>, aborted: bool) {
    && (forall n :: 0 <= n < |outs| - 1 ==> !outs[n].Exhausted?)
    && (aborted <==> outs != [] && outs[|outs| - 1].Exhausted?)
    && (!aborted ==> |outs| == |conflicts|)
  }

  lemma TranscriptMore(conflicts: seq<Planned>, cluster: Cluster, planned: seq<Planned>, job: string,
                       answers: seq<Answer>, outs: seq<Outcome>, ks: seq<nat>, outcome: Outcome, k: nat)
    requires Transcript(conflicts, cluster, planned, job, answers, outs, ks) && |outs| < |conflicts|
    requires Prompted(conflicts[|outs|], cluster, planned, RemapAfter(conflicts, outs), job, answers, ks[|outs|], k,
                      outcome)
    ensures Transcript(conflicts, cluster, planned, job, answers, outs + [outcome], ks + [k])
    ensures var m := RemapAfter(conflicts, outs);
            RemapAfter(conflicts, outs + [outcome]) ==
            if outcome.Chosen? then m[conflicts[|outs|].port := outcome.port] else m
    ensures DeclinedAfter(conflicts, outs + [outcome]) ==
            DeclinedAfter(conflicts, outs) + if outcome.Declined? then [conflicts[|outs|]] else []
  {
    hide Prompted;
    assert (outs + [outcome])[..|outs|] == outs && (ks + [k])[..|outs| + 1] == ks;
  }

  /** The loop over the conflicts; running out of free ports aborts it. */
  method PromptInTurn(conflicts: seq<Planned>, cluster: Cluster, planned: seq<Planned>, job: string,
                      answers: seq<Answer>)
    returns (m: Remapping, declined: seq<Planned>, aborted: bool, ghost outs: seq<Outcome>, ghost ks: seq<nat>)
    ensures Transcript(conflicts, cluster, planned, job, answers, outs, ks) && Through(conflicts, outs, aborted)
    ensures m == RemapAfter(conflicts, outs) && declined == DeclinedAfter(conflicts, outs)
  {
    m, declined, aborted, outs, ks := map[], [], false, [], [0];
    hide Prompted;
    var k := 0;
    for n := 0 to |conflicts|
      invariant |outs| == n && |ks| == n + 1 && ks[n] == k <= |answers| && !aborted
      invariant Transcript(conflicts, cluster, planned, job, answers, outs, ks)
      invariant forall i :: 0 <= i < n ==> !outs[i].Exhausted?
      invariant m == RemapAfter(conflicts, outs) && declined == DeclinedAfter(conflicts, outs)
    {
      hide Transcript, RemapAfter, DeclinedAfter;
      var item := conflicts[n];
      var outcome, k' := PromptOneConflict(item, cluster, planned, m, job, answers, k);
      PromptedReads(item, cluster, planned, m, job, answers, k, k', outcome);
      TranscriptMore(conflicts, cluster, planned, job, answers, outs, ks, outcome, k');
      k, outs, ks := k', outs + [outcome], ks + [k'];
      match outcome {
        case Exhausted =>
          aborted := true;
          break;
        case Declined =>
          declined := declined + [item];
        case Chosen(port) =>
          m := m[item.port := port];
      }
    }
  }

  /** The resolution for any answers, and what it guarantees. */
  method ResolveConflicts(conflicts: seq<Planned>, cluster: Cluster, planned: seq<Planned>, job: string,
                          answers: seq<Answer>)
    returns (m: Remapping, declined: seq<Planned>, aborted: bool, ghost outs: seq<Outcome>, ghost ks: seq<nat>)
    requires forall i, j :: 0 <= i < j < |conflicts| ==> conflicts[i].port != conflicts[j].port
    ensures Transcript(conflicts, cluster, planned, job, answers, outs, ks) && Through(conflicts, outs, aborted)
    ensures m == RemapAfter(conflicts, outs) && declined == DeclinedAfter(conflicts, outs)
    ensures Injective(m, planned)
    ensures forall p :: p in m ==> exists i :: 0 <= i < |conflicts| && conflicts[i].port == p
    ensures StaysInRange(m)
    ensures !aborted ==> forall i :: 0 <= i < |conflicts| ==> (conflicts[i] in declined <==> conflicts[i].port !in m)
    ensures |answers| >= |conflicts| && (forall k :: 0 <= k < |conflicts| ==> answers[k] == Auto) && !aborted ==>
              && (forall i :: 0 <= i < |conflicts| ==> conflicts[i].port in m)
              && OffCluster(m, cluster)
  {
    hide Transcript, Injective, StaysInRange, OffCluster, RemapAfter, DeclinedAfter, Settled;
    m, declined, aborted, outs, ks := PromptInTurn(conflicts, cluster, planned, job, answers);
    ResolutionSound(conflicts, cluster, planned, job, answers, outs, ks);
    SettledMeans(conflicts, outs, m, declined);
  }

  lemma PromptedReads(item: Planned, cluster: Cluster, planned: seq<Planned>, m: Remapping, job: string,
                      answers: seq<Answer>, k: nat, k': nat, outcome: Outcome)
    requires Prompted(item, cluster, planned, m, job, answers, k, k', outcome)
    ensures k <= k' <= |answers|
  {
  }

  ghost predicate AllAuto(conflicts: seq<Planned>, answers: seq<Answer>) {
    |answers| >= |conflicts| && forall k :: 0 <= k < |conflicts| ==> answers[k] == Auto
  }

  /** What any transcript guarantees. */
  lemma {:induction false} ResolutionSound(conflicts: seq<Planned>, cluster: Cluster, planned: seq<Planned>,
                                           job: string, answers: seq<Answer>, outs: seq<Outcome>, ks: seq<nat>)
    requires Transcript(conflicts, cluster, planned, job, answers, outs, ks)
    requires forall i, j :: 0 <= i < j < |conflicts| ==> conflicts[i].port != conflicts[j].port
    ensures var m, declined := RemapAfter(conflicts, outs), DeclinedAfter(conflicts, outs);
            && Injective(m, planned) && StaysInRange(m)
            && Settled(conflicts, outs, m, declined)
            && (AllAuto(conflicts, answers) ==> ks[|outs|] == |outs| && declined == [] && OffCluster(m, cluster))
    decreases |outs|
  {
    if outs != [] {
      var n := |outs| - 1;
      var item, outcome, m := conflicts[n], outs[n], RemapAfter(conflicts, outs[..n]);
      var declined := DeclinedAfter(conflicts, outs[..n]);
      assert Prompted(item, cluster, planned, m, job, answers, ks[n], ks[n + 1], outcome);
      assert AllAuto(conflicts, answers) && ks[n] == n ==> ks[n] < |answers| && answers[ks[n]] == Auto;
      hide Transcript, Prompted, Injective, StaysInRange, OffCluster, Settled, Admissible, InRange, AllAuto;
      ResolutionSound(conflicts, cluster, planned, job, answers, outs[..n], ks[..n + 1]);
      PromptedMeans(item, cluster, planned, m, job, answers, ks[n], ks[n + 1], outcome);
      SettledMore(conflicts, outs, m, declined);
      if outcome.Chosen? {
        AdmissibleKeepsInjective(m, planned, item.port, outcome.port);
        ChoiceKeeps(m, cluster, item.port, outcome.port);
      }
    }
  }

  /** A port at or above the lower bound is moved within the range. */
  ghost predicate StaysInRange(m: Remapping) {
    forall p :: p in m && NODEPORT_MIN - 1 <= p ==> InRange(m[p])
  }

  /** No port is moved to one that the cluster uses. */
  ghost predicate OffCluster(m: Remapping, cluster: Cluster) {
    forall p :: p in m ==> m[p] !in cluster
  }

  lemma ChoiceKeeps(m: Remapping, cluster: Cluster, taken: int, port: int)
    ensures StaysInRange(m) && (NODEPORT_MIN - 1 <= taken ==> InRange(port)) ==> StaysInRange(m[taken := port])
    ensures OffCluster(m, cluster) && port !in cluster ==> OffCluster(m[taken := port], cluster)
  {
  }

  /** Of the conflicts talked about, the declined are declined and the remapped are remapped, and nothing else is. */
  ghost predicate Settled(conflicts: seq<Planned>, outs: seq<Outcome>, m: Remapping, declined: seq<Planned>) {
    && |outs| <= |conflicts|
    && (forall p :: p in m ==> exists i :: 0 <= i < |outs| && conflicts[i].port == p)
    && (forall i :: 0 <= i < |outs| ==> (conflicts[i] in declined <==> outs[i].Declined?))
    && (forall i :: 0 <= i < |outs| ==> (conflicts[i].port in m <==> outs[i].Chosen?))
    && (forall d :: d in declined ==> exists i :: 0 <= i < |outs| && conflicts[i] == d)
  }

  lemma SettledMore(conflicts: seq<Planned>, outs: seq<Outcome>, m: Remapping, declined: seq<Planned>)
    requires outs != [] && |outs| <= |conflicts| && Settled(conflicts, outs[..|outs| - 1], m, declined)
    requires forall i, j :: 0 <= i < j < |conflicts| ==> conflicts[i].port != conflicts[j].port
    ensures var n := |outs| - 1;
            Settled(conflicts, outs,
                    if outs[n].Chosen? then m[conflicts[n].port := outs[n].port] else m,
                    declined + if outs[n].Declined? then [conflicts[n]] else [])
  {
    var n := |outs| - 1;
    assert conflicts[n].port !in m && conflicts[n] !in declined;
  }

  lemma SettledMeans(conflicts: seq<Planned>, outs: seq<Outcome>, m: Remapping, declined: seq<Planned>)
    requires Settled(conflicts, outs, m, declined)
    ensures forall p :: p in m ==> exists i :: 0 <= i < |conflicts| && conflicts[i].port == p
    ensures |outs| == |conflicts| && (forall n :: 0 <= n < |outs| ==> !outs[n].Exhausted?) ==>
              forall i :: 0 <= i < |conflicts| ==> (conflicts[i] in declined <==> conflicts[i].port !in m)
    ensures |outs| == |conflicts| && (forall n :: 0 <= n < |outs| ==> !outs[n].Exhausted?) && declined == [] ==>
              forall i :: 0 <= i < |conflicts| ==> conflicts[i].port in m
  {
  }

  lemma AdmissibleKeepsInjective(m: Remapping, planned: seq<Planned>, taken: int, port: int)
    requires Injective(m, planned) && Admissible(port, taken, m, planned)
    ensures Injective(m[taken := port], planned)
  {
  }

  // ---------------------------------------------------------------- yaml

  /** The nodePort field of a port entry, by what int() makes of it. */
  datatype NodePortValue = Absent | Number(n: int) | Text(n: int) | NotAnInt

  /** One element of a `ports` list; `other` stands for the rest of the entry. */
  datatype PortEntry = Entry(nodePort: NodePortValue, other: string) | NotADict

  datatype Service = Service(name: string, ports: seq<PortEntry>)

  /** A yaml document; the services of an InferServiceSet are those of its roles, in order. */
  datatype Doc =
    | ServiceDoc(service: Service, namespace: string)
    | InferServiceSet(services: seq<Service>, namespace: string)
    | OtherDoc

  /** Falsy values are skipped, so an integer zero is, but a textual zero is not. */
  function PlannedEntry(e: PortEntry, service: string, namespace: string): seq<Planned> {
    if e.NotADict? then []
    else
      match e.nodePort
      case Number(n) => if n == 0 then [] else [Planned(n, service, namespace)]
      case Text(n) => [Planned(n, service, namespace)]
      case _ => []
  }

  function CollectPorts(ports: seq<PortEntry>, service: string, namespace: string): seq<Planned> {
    if ports == [] then []
    else PlannedEntry(ports[0], service, namespace) + CollectPorts(ports[1..], service, namespace)
  }

  function CollectServices(services: seq<Service>, namespace: string): seq<Planned> {
    if services == [] then []
    else CollectPorts(services[0].ports, services[0].name, namespace) + CollectServices(services[1..], namespace)
  }

  function Services(d: Doc): seq<Service> {
    match d
    case ServiceDoc(s, _) => [s]
    case InferServiceSet(ss, _) => ss
    case OtherDoc => []
  }

  function Collect(docs: seq<Doc>): seq<Planned> {
    if docs == [] then []
    else
      (if docs[0].OtherDoc? then [] else CollectServices(Services(docs[0]), docs[0].namespace)) + Collect(docs[1..])
  }

  /** An entry that plans this port: an integer other than zero, or any text that reads as one. */
  ghost predicate Plans(e: PortEntry, port: int) {
    && e.Entry?
    && ((e.nodePort.Number? && e.nodePort.n == port && port != 0) || (e.nodePort.Text? && e.nodePort.n == port))
  }

  ghost predicate AnyPlans(ports: seq<PortEntry>, port: int) {
    exists i :: 0 <= i < |ports| && Plans(ports[i], port)
  }

  lemma AnyPlansSplit(ports: seq<PortEntry>, port: int)
    requires ports != []
    ensures AnyPlans(ports, port) <==> Plans(ports[0], port) || AnyPlans(ports[1..], port)
  {
    hide Plans;
    assert forall i :: 1 <= i < |ports| ==> ports[i] == ports[1..][i - 1];
  }

  lemma {:induction false} CollectPortsExactly(ports: seq<PortEntry>, service: string, namespace: string, item: Planned)
    ensures item in CollectPorts(ports, service, namespace) <==>
              item.service == service && item.namespace == namespace && AnyPlans(ports, item.port)
  {
    if ports != [] {
      CollectPortsExactly(ports[1..], service, namespace, item);
      AnyPlansSplit(ports, item.port);
      hide AnyPlans;
    }
  }

  ghost predicate ServicePlans(s: Service, item: Planned) {
    s.name == item.service && AnyPlans(s.ports, item.port)
  }

  ghost predicate AnyServicePlans(ss: seq<Service>, item: Planned) {
    exists i :: 0 <= i < |ss| && ServicePlans(ss[i], item)
  }

  lemma AnyServicePlansSplit(ss: seq<Service>, item: Planned)
    requires ss != []
    ensures AnyServicePlans(ss, item) <==> ServicePlans(ss[0], item) || AnyServicePlans(ss[1..], item)
  {
    hide ServicePlans;
    assert forall i :: 1 <= i < |ss| ==> ss[i] == ss[1..][i - 1];
  }

  lemma {:induction false} CollectServicesExactly(ss: seq<Service>, namespace: string, item: Planned)
    ensures item in CollectServices(ss, namespace) <==> item.namespace == namespace && AnyServicePlans(ss, item)
  {
    if ss != [] {
      CollectServicesExactly(ss[1..], namespace, item);
      CollectPortsExactly(ss[0].ports, ss[0].name, namespace, item);
      AnyServicePlansSplit(ss, item);
      hide AnyServicePlans, AnyPlans, CollectPorts;
    }
  }

  /** A document of one of the known kinds, with a service of the item's name and namespace that plans its port. */
  ghost predicate DocPlans(d: Doc, item: Planned) {
    !d.OtherDoc? && d.namespace == item.namespace && AnyServicePlans(Services(d), item)
  }

  ghost predicate AnyDocPlans(docs: seq<Doc>, item: Planned) {
    exists i :: 0 <= i < |docs| && DocPlans(docs[i], item)
  }

  lemma AnyDocPlansSplit(docs: seq<Doc>, item: Planned)
    requires docs != []
    ensures AnyDocPlans(docs, item) <==> DocPlans(docs[0], item) || AnyDocPlans(docs[1..], item)
  {
    hide DocPlans;
    assert forall i :: 1 <= i < |docs| ==> docs[i] == docs[1..][i - 1];
  }

  /** What is planned: exactly the ports that some entry of some service of some document sets. */
  lemma {:induction false} CollectExactly(docs: seq<Doc>, item: Planned)
    ensures item in Collect(docs) <==> AnyDocPlans(docs, item)
  {
    if docs != [] {
      CollectExactly(docs[1..], item);
      if !docs[0].OtherDoc? {
        CollectServicesExactly(Services(docs[0]), docs[0].namespace, item);
      }
      AnyDocPlansSplit(docs, item);
      hide AnyDocPlans, AnyServicePlans, CollectServices;
    }
  }

  function RewriteEntry(e: PortEntry, m: Remapping): PortEntry {
    if e.NotADict? then e
    else
      match e.nodePort
      case Number(n) => if n in m then e.(nodePort := Number(m[n])) else e
      case Text(n) => if n in m then e.(nodePort := Number(m[n])) else e
      case _ => e
  }

  function RewriteAll(ports: seq<PortEntry>, m: Remapping): (r: seq<PortEntry>)
    ensures |r| == |ports| && forall i :: 0 <= i < |r| ==> r[i] == RewriteEntry(ports[i], m)
  {
    seq(|ports|, i requires 0 <= i < |ports| => RewriteEntry(ports[i], m))
  }

  function RewriteService(s: Service, m: Remapping): Service {
    s.(ports := RewriteAll(s.ports, m))
  }

  function RewriteServices(ss: seq<Service>, m: Remapping): (r: seq<Service>)
    ensures |r| == |ss| && forall i :: 0 <= i < |r| ==> r[i] == RewriteService(ss[i], m)
  {
    seq(|ss|, i requires 0 <= i < |ss| => RewriteService(ss[i], m))
  }

  function RewriteDoc(d: Doc, m: Remapping): Doc {
    match d
    case ServiceDoc(s, ns) => ServiceDoc(RewriteService(s, m), ns)
    case InferServiceSet(ss, ns) => InferServiceSet(RewriteServices(ss, m), ns)
    case OtherDoc => d
  }

  function Rewrite(docs: seq<Doc>, m: Remapping): (r: seq<Doc>)
    ensures |r| == |docs| && forall i :: 0 <= i < |r| ==> r[i] == RewriteDoc(docs[i], m)
  {
    seq(|docs|, i requires 0 <= i < |docs| => RewriteDoc(docs[i], m))
  }

  /** An entry whose port the remapping moves. */
  predicate Hit(e: PortEntry, m: Remapping) {
    e.Entry? && (e.nodePort.Number? || e.nodePort.Text?) && e.nodePort.n in m
  }

  /** _rewrite_ports_in_spec: each entry is looked at once, so a new port is never taken for an old one. */
  method RewritePortsInSpec(ports: array<PortEntry>, m: Remapping) returns (changed: bool)
    modifies ports
    ensures ports[..] == RewriteAll(old(ports[..]), m)
    ensures changed <==> exists i :: 0 <= i < ports.Length && Hit(old(ports[i]), m)
    ensures !changed ==> ports[..] == old(ports[..])
    ensures forall i :: 0 <= i < ports.Length && old(ports[i]).NotADict? ==> ports[i].NotADict?
    ensures forall i :: 0 <= i < ports.Length && old(ports[i]).Entry? ==>
              ports[i].Entry? && ports[i].other == old(ports[i]).other
  {
    changed := false;
    var i := 0;
    while i < ports.Length
      invariant 0 <= i <= ports.Length
      invariant forall j :: 0 <= j < i ==> ports[j] == RewriteEntry(old(ports[j]), m)
      invariant forall j :: i <= j < ports.Length ==> ports[j] == old(ports[j])
      invariant !changed ==> forall j :: 0 <= j < i ==> ports[j] == old(ports[j])
      invariant changed <==> exists j :: 0 <= j < i && Hit(old(ports[j]), m)
    {
      var e := ports[i];
      if e.Entry? && (e.nodePort.Number? || e.nodePort.Text?) && e.nodePort.n in m {
        ports[i] := e.(nodePort := Number(m[e.nodePort.n]));
        changed := true;
      }
      i := i + 1;
    }
  }

  function Remapped(planned: seq<Planned>, m: Remapping): (r: seq<Planned>)
    ensures |r| == |planned| && forall i :: 0 <= i < |r| ==> r[i] == planned[i].(port := Effective(m, planned[i].port))
  {
    seq(|planned|, i requires 0 <= i < |planned| => planned[i].(port := Effective(m, planned[i].port)))
  }

  lemma RemappedConcat(a: seq<Planned>, b: seq<Planned>, m: Remapping)
    ensures Remapped(a + b, m) == Remapped(a, m) + Remapped(b, m)
  {
  }

  /** Ports that a rewrite adds to the collection, and ports it makes the collector skip. */
  datatype Tally = Tally(gained: nat, lost: nat) {
    function Plus(other: Tally): Tally {
      Tally(gained + other.gained, lost + other.lost)
    }
  }

  /** An integer zero is not collected and still replaced; a port sent to zero is collected before and not after. */
  function EntryTally(e: PortEntry, m: Remapping): Tally {
    if e.NotADict? then Tally(0, 0)
    else
      match e.nodePort
      case Number(n) =>
        if n !in m then Tally(0, 0)
        else if n == 0 then Tally(if m[n] != 0 then 1 else 0, 0)
        else Tally(0, if m[n] == 0 then 1 else 0)
      case Text(n) => Tally(0, if n in m && m[n] == 0 then 1 else 0)
      case _ => Tally(0, 0)
  }

  function PortsTally(ports: seq<PortEntry>, m: Remapping): Tally {
    if ports == [] then Tally(0, 0) else EntryTally(ports[0], m).Plus(PortsTally(ports[1..], m))
  }

  function ServicesTally(ss: seq<Service>, m: Remapping): Tally {
    if ss == [] then Tally(0, 0) else PortsTally(ss[0].ports, m).Plus(ServicesTally(ss[1..], m))
  }

  function DocsTally(docs: seq<Doc>, m: Remapping): Tally {
    if docs == [] then Tally(0, 0) else ServicesTally(Services(docs[0]), m).Plus(DocsTally(docs[1..], m))
  }

  function Zeros(planned: seq<Planned>): nat {
    if planned == [] then 0 else (if planned[0].port == 0 then 1 else 0) + Zeros(planned[1..])
  }

  lemma {:induction false} ZerosConcat(a: seq<Planned>, b: seq<Planned>)
    ensures Zeros(a + b) == Zeros(a) + Zeros(b)
  {
    if a == [] {
      assert a + b == b;
    } else {
      assert (a + b)[1..] == a[1..] + b;
      ZerosConcat(a[1..], b);
    }
  }

  /**
    Collecting after rewriting, against remapping what was collected: how many ports differ, and where a port that is
    collected afterwards comes from.
   */
  ghost predicate Tracks(after: seq<Planned>, before: seq<Planned>, m: Remapping, t: Tally) {
    && |after| + t.lost == |before| + t.gained
    && Zeros(after) + t.lost == Zeros(Remapped(before, m))
    && (t == Tally(0, 0) ==> after == Remapped(before, m))
    && forall item :: item in after ==> IsTarget(m, item.port) || (item in before && item.port !in m)
  }

  ghost predicate IsTarget(m: Remapping, port: int) {
    exists p :: p in m && m[p] == port
  }

  lemma TracksConcat(a: seq<Planned>, b: seq<Planned>, c: seq<Planned>, d: seq<Planned>, m: Remapping,
                     x: Tally, y: Tally)
    requires Tracks(a, b, m, x) && Tracks(c, d, m, y)
    ensures Tracks(a + c, b + d, m, x.Plus(y))
  {
    hide Zeros, IsTarget;
    RemappedConcat(b, d, m);
    ZerosConcat(a, c);
    ZerosConcat(Remapped(b, m), Remapped(d, m));
  }

  lemma EntryTracks(e: PortEntry, service: string, namespace: string, m: Remapping)
    ensures Tracks(PlannedEntry(RewriteEntry(e, m), service, namespace), PlannedEntry(e, service, namespace), m,
                   EntryTally(e, m))
  {
    var after, before := PlannedEntry(RewriteEntry(e, m), service, namespace), PlannedEntry(e, service, namespace);
    assert after != [] ==> after[1..] == [];
    assert before != [] ==> Remapped(before, m)[1..] == [];
    if e.Entry? && (e.nodePort.Number? || e.nodePort.Text?) && e.nodePort.n in m {
      assert IsTarget(m, m[e.nodePort.n]);
    }
  }

  lemma {:induction false} RewritePortsTracks(ports: seq<PortEntry>, service: string, namespace: string, m: Remapping)
    ensures Tracks(CollectPorts(RewriteAll(ports, m), service, namespace), CollectPorts(ports, service, namespace), m,
                   PortsTally(ports, m))
  {
    if ports != [] {
      hide Tracks, PlannedEntry, RewriteEntry, EntryTally;
      var after := RewriteAll(ports, m);
      assert after[1..] == RewriteAll(ports[1..], m);
      RewritePortsTracks(ports[1..], service, namespace, m);
      EntryTracks(ports[0], service, namespace, m);
      TracksConcat(PlannedEntry(after[0], service, namespace), PlannedEntry(ports[0], service, namespace),
                   CollectPorts(after[1..], service, namespace), CollectPorts(ports[1..], service, namespace), m,
                   EntryTally(ports[0], m), PortsTally(ports[1..], m));
    }
  }

  lemma {:induction false} RewriteServicesTracks(ss: seq<Service>, namespace: string, m: Remapping)
    ensures Tracks(CollectServices(RewriteServices(ss, m), namespace), CollectServices(ss, namespace), m,
                   ServicesTally(ss, m))
  {
    if ss != [] {
      hide Tracks, CollectPorts, PortsTally, RewriteAll;
      var after := RewriteServices(ss, m);
      assert after[0] == RewriteService(ss[0], m) && after[1..] == RewriteServices(ss[1..], m);
      RewriteServicesTracks(ss[1..], namespace, m);
      RewritePortsTracks(ss[0].ports, ss[0].name, namespace, m);
      TracksConcat(CollectPorts(after[0].ports, ss[0].name, namespace),
                   CollectPorts(ss[0].ports, ss[0].name, namespace),
                   CollectServices(after[1..], namespace), CollectServices(ss[1..], namespace), m,
                   PortsTally(ss[0].ports, m), ServicesTally(ss[1..], m));
    }
  }

  function CollectDoc(d: Doc): seq<Planned> {
    if d.OtherDoc? then [] else CollectServices(Services(d), d.namespace)
  }

  lemma RewriteDocTracks(d: Doc, m: Remapping)
    ensures Tracks(CollectDoc(RewriteDoc(d, m)), CollectDoc(d), m, ServicesTally(Services(d), m))
  {
    if !d.OtherDoc? {
      RewriteServicesTracks(Services(d), d.namespace, m);
      assert Services(RewriteDoc(d, m)) == RewriteServices(Services(d), m);
    }
  }

  lemma {:induction false} RewriteTracks(docs: seq<Doc>, m: Remapping)
    ensures Tracks(Collect(Rewrite(docs, m)), Collect(docs), m, DocsTally(docs, m))
  {
    if docs != [] {
      hide Tracks, CollectServices, ServicesTally, RewriteDoc;
      var after := Rewrite(docs, m);
      assert after[1..] == Rewrite(docs[1..], m);
      RewriteTracks(docs[1..], m);
      RewriteDocTracks(docs[0], m);
      TracksConcat(CollectDoc(after[0]), CollectDoc(docs[0]), Collect(after[1..]), Collect(docs[1..]), m,
                   ServicesTally(Services(docs[0]), m), DocsTally(docs[1..], m));
    }
  }

  /**
    Collecting from the rewritten yaml is remapping the original collection if and only if no integer zero in the yaml
    is remapped to a port and no collected port is remapped to zero.
   */
  lemma RewriteIsRemapExactly(docs: seq<Doc>, m: Remapping)
    ensures Collect(Rewrite(docs, m)) == Remapped(Collect(docs), m) <==> DocsTally(docs, m) == Tally(0, 0)
  {
    RewriteTracks(docs, m);
  }

  /** With every conflicting port moved to one the cluster does not use, the rewritten yaml has no conflict left. */
  lemma NoConflictLeft(docs: seq<Doc>, cluster: Cluster, job: string, m: Remapping)
    requires forall item :: item in Collect(docs) && Conflicting(item, cluster, job) ==> item.port in m
    requires OffCluster(m, cluster)
    ensures forall item :: item in Collect(Rewrite(docs, m)) ==> !Conflicting(item, cluster, job)
  {
    RewriteTracks(docs, m);
    hide Collect, Rewrite;
    forall item | item in Collect(Rewrite(docs, m)) ensures !Conflicting(item, cluster, job) {
      assert IsTarget(m, item.port) ==> item.port !in cluster;
    }
  }

  /** No planned port lies so far below the range that the scan would leave it. */
  ghost predicate Sane(planned: seq<Planned>) {
    forall item :: item in planned ==> NODEPORT_MIN - 1 <= item.port
  }

  lemma {:induction false} TallyMeans(docs: seq<Doc>, m: Remapping)
    requires 0 !in m && 0 !in m.Values
    ensures DocsTally(docs, m) == Tally(0, 0)
  {
    if docs != [] {
      TallyMeans(docs[1..], m);
      ServicesTallyMeans(Services(docs[0]), m);
    }
  }

  lemma {:induction false} ServicesTallyMeans(ss: seq<Service>, m: Remapping)
    requires 0 !in m && 0 !in m.Values
    ensures ServicesTally(ss, m) == Tally(0, 0)
  {
    if ss != [] {
      ServicesTallyMeans(ss[1..], m);
      PortsTallyMeans(ss[0].ports, m);
    }
  }

  lemma {:induction false} PortsTallyMeans(ports: seq<PortEntry>, m: Remapping)
    requires 0 !in m && 0 !in m.Values
    ensures PortsTally(ports, m) == Tally(0, 0)
  {
    if ports != [] {
      PortsTallyMeans(ports[1..], m);
    }
  }

  lemma SaneRewrite(docs: seq<Doc>, m: Remapping)
    requires Sane(Collect(docs))
    requires forall p :: p in m ==> exists item :: item in Collect(docs) && item.port == p
    requires StaysInRange(m)
    ensures Collect(Rewrite(docs, m)) == Remapped(Collect(docs), m)
  {
    assert forall p :: p in m ==> NODEPORT_MIN - 1 <= p;
    forall v | v in m.Values ensures v != 0 {
      var p :| p in m && m[p] == v;
    }
    TallyMeans(docs, m);
    RewriteIsRemapExactly(docs, m);
  }

  /**
    resolve_and_rewrite_nodeports, for any answers: distinct planned ports stay distinct; the rewritten yaml plans the
    remapped ports exactly when none is lost or gained to a zero, as for sane ports; and with every prompt answered
    "auto" no conflict with the cluster survives.
   */
  method ResolveAndRewrite(docs: seq<Doc>, cluster: Cluster, job: string, answers: seq<Answer>)
    returns (rewritten: seq<Doc>, m: Remapping, aborted: bool, ghost outs: seq<Outcome>, ghost ks: seq<nat>)
    ensures var conflicts := ConflictsOf(Collect(docs), cluster, job);
            && Transcript(conflicts, cluster, Collect(docs), job, answers, outs, ks)
            && Through(conflicts, outs, aborted) && m == RemapAfter(conflicts, outs)
    ensures Injective(m, Collect(docs))
    ensures rewritten == if aborted then docs else Rewrite(docs, m)
    ensures !aborted ==> (Collect(rewritten) == Remapped(Collect(docs), m) <==> DocsTally(docs, m) == Tally(0, 0))
    ensures !aborted && Sane(Collect(docs)) ==> Collect(rewritten) == Remapped(Collect(docs), m)
    ensures !aborted && |answers| >= |Collect(docs)| && (forall k :: 0 <= k < |answers| ==> answers[k] == Auto) ==>
              forall item :: item in Collect(rewritten) ==> !Conflicting(item, cluster, job)
    ensures !aborted && |answers| >= |Collect(docs)| && (forall k :: 0 <= k < |answers| ==> answers[k] == Auto) ==>
              forall item :: item in Collect(rewritten) && item.port in cluster ==>
                && cluster[item.port].service == item.service
                && (item.namespace != "" ==> cluster[item.port].namespace == item.namespace)
                && (item.namespace == "" ==> cluster[item.port].namespace == job)
  {
    hide Collect, Rewrite, Conflicting, DocsTally, ConflictsOf, Transcript, Through, RemapAfter;
    var planned := Collect(docs);
    var conflicts := FindConflicts(planned, cluster, job);
    DistinctFit(conflicts, planned);
    var declined;
    m, declined, aborted, outs, ks := ResolveConflicts(conflicts, cluster, planned, job, answers);
    rewritten := if aborted then docs else Rewrite(docs, m);
    if !aborted {
      RewriteIsRemapExactly(docs, m);
      if Sane(planned) {
        SaneRewrite(docs, m);
      }
      if |answers| >= |planned| && forall k :: 0 <= k < |answers| ==> answers[k] == Auto {
        NoConflictLeft(docs, cluster, job, m);
        forall item | item in Collect(rewritten) && item.port in cluster
          ensures OwnService(item, cluster[item.port], job)
        {
          ConflictingExactly(item, cluster, job);
        }
      }
    }
  }

  /** There are no more conflicts than planned items. */
  lemma {:induction false} DistinctFit(conflicts: seq<Planned>, planned: seq<Planned>)
    requires forall i :: 0 <= i < |conflicts| ==> conflicts[i] in planned
    requires forall i, j :: 0 <= i < j < |conflicts| ==> conflicts[i].port != conflicts[j].port
    ensures |conflicts| <= |planned|
  {
    if conflicts != [] {
      var last := conflicts[|conflicts| - 1];
      var i :| 0 <= i < |planned| && planned[i] == last;
      var others := planned[..i] + planned[i + 1..];
      forall k | 0 <= k < |conflicts| - 1 ensures conflicts[k] in others {
        assert conflicts[k] in planned && conflicts[k] != last;
        var h :| 0 <= h < |planned| && planned[h] == conflicts[k];
        assert others[if h < i then h else h - 1] == conflicts[k];
      }
      DistinctFit(conflicts[..|conflicts| - 1], others);
    }
  }
}
