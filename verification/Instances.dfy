/** The controller's record of one inference instance: its endpoints, the cached listing, and when it is complete. */
module Instances {
  import opened Options
  import PodLayout

  datatype Status = Initial | Normal | Abnormal | Paused | Wait2Start

  /** Endpoints are shared objects: the registry, the cache and its readers hold the same ones. */
  class Endpoint {
    const id: nat
    var status: Status
    var hbTimestamp: real
    var headless: bool

    constructor (id: nat, headless: bool)
      ensures this.id == id && this.headless == headless && status == Initial && hbTimestamp == 0.0
    {
      this.id := id;
      this.headless := headless;
      status := Initial;
      hbTimestamp := 0.0;
    }
  }

  /** One entry of the endpoint map, which keeps its insertion order. */
  datatype Pod = Pod(ip: string, eps: seq<Endpoint>)

  datatype NodeManagerInfo = NodeManagerInfo(ip: string, port: string, devices: int)

  datatype Parallel = Parallel(dp: int, world: int)

  datatype HeartbeatResult = Updated | Refused | KeyError

  // ---------------------------------------------------------------- the endpoint map

  function Lookup(pods: seq<Pod>, ip: string): Option<seq<Endpoint>> {
    if pods == [] then None else if pods[0].ip == ip then Some(pods[0].eps) else Lookup(pods[1..], ip)
  }

  /** Assignment to a key: an existing entry keeps its place. */
  function Put(pods: seq<Pod>, ip: string, eps: seq<Endpoint>): seq<Pod> {
    if pods == [] then [Pod(ip, eps)]
    else if pods[0].ip == ip then [Pod(ip, eps)] + pods[1..]
    else [pods[0]] + Put(pods[1..], ip, eps)
  }

  function Remove(pods: seq<Pod>, ip: string): seq<Pod> {
    if pods == [] then [] else if pods[0].ip == ip then pods[1..] else [pods[0]] + Remove(pods[1..], ip)
  }

  function Ips(pods: seq<Pod>): set<string> {
    if pods == [] then {} else {pods[0].ip} + Ips(pods[1..])
  }

  predicate DistinctIps(pods: seq<Pod>) {
    pods == [] || (pods[0].ip !in Ips(pods[1..]) && DistinctIps(pods[1..]))
  }

  /** get_endpoints_num: headless endpoints count too. */
  function Total(pods: seq<Pod>): nat {
    if pods == [] then 0 else |pods[0].eps| + Total(pods[1..])
  }

  /** Every endpoint in the map. */
  ghost function Members(pods: seq<Pod>): set<Endpoint> {
    set p, e | p in pods && e in p.eps :: e
  }

  lemma {:induction false} LookupIffIn(pods: seq<Pod>, ip: string)
    ensures Lookup(pods, ip).Some? <==> ip in Ips(pods)
  {
    if pods != [] {
      LookupIffIn(pods[1..], ip);
    }
  }

  lemma {:induction false} LookupFinds(pods: seq<Pod>, ip: string) returns (i: nat)
    requires Lookup(pods, ip).Some?
    ensures i < |pods| && pods[i] == Pod(ip, Lookup(pods, ip).value)
  {
    if pods[0].ip == ip {
      i := 0;
    } else {
      i := LookupFinds(pods[1..], ip);
      i := i + 1;
    }
  }

  lemma {:induction false} PutIsAssignment(pods: seq<Pod>, ip: string, eps: seq<Endpoint>, q: string)
    requires DistinctIps(pods)
    ensures DistinctIps(Put(pods, ip, eps)) && Ips(Put(pods, ip, eps)) == Ips(pods) + {ip}
    ensures Lookup(Put(pods, ip, eps), q) == if q == ip then Some(eps) else Lookup(pods, q)
  {
    if pods != [] {
      PutIsAssignment(pods[1..], ip, eps, q);
    }
  }

  lemma {:induction false} RemoveIsDeletion(pods: seq<Pod>, ip: string, q: string)
    requires DistinctIps(pods)
    ensures DistinctIps(Remove(pods, ip)) && Ips(Remove(pods, ip)) == Ips(pods) - {ip}
    ensures Lookup(Remove(pods, ip), q) == if q == ip then None else Lookup(pods, q)
  {
    if pods != [] {
      RemoveIsDeletion(pods[1..], ip, q);
      LookupIffIn(pods[1..], ip);
    }
  }

  // ---------------------------------------------------------------- the listing

  ghost function HeadlessOnes(pods: seq<Pod>): set<Endpoint>
    reads Members(pods)`headless
  {
    set e | e in Members(pods) && e.headless
  }

  /** The endpoints of one pod that a reader is shown: none that is hidden, and outside multi mode only number 0. */
  ghost function Select(eps: seq<Endpoint>, hidden: set<Endpoint>, multi: bool): seq<Endpoint> {
    if eps == [] then []
    else
      var n := |eps| - 1;
      Select(eps[..n], hidden, multi) + if eps[n] !in hidden && (multi || eps[n].id == 0) then [eps[n]] else []
  }

  /** The endpoints of all pods that a reader is shown, computed afresh and in the map's order. */
  ghost function SelectAll(pods: seq<Pod>, hidden: set<Endpoint>, multi: bool): seq<Endpoint> {
    if pods == [] then []
    else
      var n := |pods| - 1;
      SelectAll(pods[..n], hidden, multi) + Select(pods[n].eps, hidden, multi)
  }

  lemma LookupMembers(pods: seq<Pod>, ip: string)
    requires Lookup(pods, ip).Some?
    ensures forall e :: e in Lookup(pods, ip).value ==> e in Members(pods)
  {
    var i := LookupFinds(pods, ip);
    assert pods[i] in pods;
  }

  /** The filter over the current map, pod by pod and endpoint by endpoint. */
  method FilterEndpoints(pods: seq<Pod>, multi: bool, headlessToo: bool) returns (r: seq<Endpoint>)
    ensures r == SelectAll(pods, if headlessToo then {} else HeadlessOnes(pods), multi)
  {
    ghost var hidden := if headlessToo then {} else HeadlessOnes(pods);
    r := [];
    var i := 0;
    while i < |pods|
      invariant 0 <= i <= |pods|
      invariant r == SelectAll(pods[..i], hidden, multi)
    {
      assert pods[i] in pods && forall e :: e in pods[i].eps ==> e in Members(pods);
      var shown := FilterPod(pods[i].eps, multi, headlessToo, hidden);
      assert pods[..i + 1][..i] == pods[..i];
      r := r + shown;
      i := i + 1;
    }
    assert pods[..i] == pods;
  }

  method FilterPod(eps: seq<Endpoint>, multi: bool, headlessToo: bool, ghost hidden: set<Endpoint>)
    returns (r: seq<Endpoint>)
    requires forall e :: e in eps ==> (e in hidden <==> !headlessToo && e.headless)
    ensures r == Select(eps, hidden, multi)
  {
    r := [];
    var j := 0;
    while j < |eps|
      invariant 0 <= j <= |eps|
      invariant r == Select(eps[..j], hidden, multi)
    {
      var endpoint := eps[j];
      assert endpoint in eps && eps[..j + 1][..j] == eps[..j];
      j := j + 1;
      if !headlessToo && endpoint.headless {
        continue;
      }
      if multi || endpoint.id == 0 {
        r := r + [endpoint];
      }
    }
    assert eps[..j] == eps;
  }

  /** Writes the reported time and status to each endpoint in turn, until one is missing from the report. */
  method UpdateAll(eps: seq<Endpoint>, timestamp: real, status: map<nat, Status>) returns (ok: bool)
    modifies eps`status, eps`hbTimestamp
    ensures ok <==> forall e :: e in eps ==> e.id in status
    ensures ok ==> forall e :: e in eps ==> e.hbTimestamp == timestamp && e.status == status[e.id]
    ensures !ok ==>
              exists k :: Interrupted(eps, k, timestamp, status) &&
                forall e :: e in eps && e !in eps[..k + 1] ==>
                  e.hbTimestamp == old(e.hbTimestamp) && e.status == old(e.status)
    ensures forall e :: e in eps && e.id !in status ==> e.status == old(e.status)
  {
    var i := 0;
    while i < |eps|
      invariant 0 <= i <= |eps|
      invariant forall j :: 0 <= j < i ==> eps[j].id in status
      invariant forall j :: 0 <= j < i ==> eps[j].hbTimestamp == timestamp && eps[j].status == status[eps[j].id]
      invariant forall e :: e in eps && e !in eps[..i] ==>
                  e.hbTimestamp == old(e.hbTimestamp) && e.status == old(e.status)
    {
      eps[i].hbTimestamp := timestamp;
      if eps[i].id !in status {
        assert Interrupted(eps, i, timestamp, status);
        return false;
      }
      eps[i].status := status[eps[i].id];
      i := i + 1;
    }
    return true;
  }

  class Instance {
    const multi: bool
    const parallel: Option<Parallel>
    var pods: seq<Pod>
    var managers: seq<NodeManagerInfo>
    var version: nat
    var cached: Option<seq<Endpoint>>
    var cachedVersion: Option<nat>

    /** What a reader must be given. */
    ghost function Listing(headlessToo: bool): seq<Endpoint>
      reads this`pods, Members(pods)`headless
    {
      SelectAll(pods, if headlessToo then {} else HeadlessOnes(pods), multi)
    }

    /** A cache stamped with the current version is the current listing; stamps never come from the future. */
    ghost predicate Valid()
      reads this`pods, this`version, this`cached, this`cachedVersion, Members(pods)`headless
    {
      && DistinctIps(pods)
      && (cachedVersion.Some? ==> cachedVersion.value <= version)
      && (cached.Some? && cachedVersion == Some(version) ==> cached.value == Listing(false))
    }

    constructor (multi: bool, parallel: Option<Parallel>)
      ensures Valid() && pods == [] && managers == [] && this.multi == multi && this.parallel == parallel
    {
      this.multi := multi;
      this.parallel := parallel;
      pods := [];
      managers := [];
      version := 0;
      cached := None;
      cachedVersion := None;
    }

    method AddNodeMgr(info: NodeManagerInfo)
      requires Valid()
      modifies this`managers
      ensures Valid() && managers == AddManager(old(managers), info)
    {
      if info !in managers {
        managers := managers + [info];
      }
    }

    method DelNodeMgr(ip: string, port: string)
      requires Valid()
      modifies this`managers
      ensures Valid() && managers == DropManager(old(managers), ip, port)
    {
      ghost var before := managers;
      var i := 0;
      assert managers[..0] == [] && managers[0..] == managers && DropManager([], ip, port) == [];
      hide DropManager, SelectAll, DistinctIps;
      while i < |managers|
        invariant 0 <= i <= |managers| && managers == before
        invariant DropManager(before, ip, port) == before[..i] + DropManager(before[i..], ip, port)
      {
        DropStep(before, i, ip, port);
        if managers[i].ip == ip && managers[i].port == port {
          managers := managers[..i] + managers[i + 1..];
          return;
        }
        i := i + 1;
      }
      assert before[i..] == [] && before[..i] == before;
    }

    /** Endpoints that are missing or not a dictionary are ignored. */
    method AddEndpoints(ip: string, eps: Option<seq<Endpoint>>)
      requires Valid()
      modifies this`pods, this`version
      ensures Valid()
      ensures pods == if eps.None? then old(pods) else Put(old(pods), ip, eps.value)
    {
      if eps.Some? {
        PutIsAssignment(pods, ip, eps.value, ip);
        pods := Put(pods, ip, eps.value);
        version := version + 1;
      }
    }

    method DelEndpoints(ip: string)
      requires Valid()
      modifies this`pods, this`version
      ensures Valid() && pods == Remove(old(pods), ip)
    {
      if Lookup(pods, ip).Some? {
        RemoveIsDeletion(pods, ip, ip);
        pods := Remove(pods, ip);
        version := version + 1;
      } else {
        RemoveAbsent(pods, ip);
      }
    }

    method InvalidateEndpointsCache()
      requires DistinctIps(pods) && (cachedVersion.Some? ==> cachedVersion.value <= version)
      modifies this`version
      ensures Valid() && version == old(version) + 1
    {
      version := version + 1;
    }

    /** Cached or not, the answer is the listing of the current map. */
    method GetAllEndpoints(headlessToo: bool) returns (r: seq<Endpoint>)
      requires Valid()
      modifies this`cached, this`cachedVersion
      ensures Valid() && r == Listing(headlessToo)
      ensures !headlessToo ==> cached == Some(r) && cachedVersion == Some(version)
    {
      if !headlessToo && cached.Some? && cachedVersion == Some(version) {
        return cached.value;
      }
      r := FilterEndpoints(pods, multi, headlessToo);
      assert HeadlessOnes(pods) == old(HeadlessOnes(pods));
      if !headlessToo {
        cached := Some(r);
        cachedVersion := Some(version);
      }
    }

    /**
      Heartbeats touch neither the map nor the listing.  A report of the wrong size or from an unknown pod changes
      nothing; one that misses an endpoint raises at the first such endpoint, after updating those before it.
     */
    method UpdateHeartbeat(ip: string, timestamp: real, status: map<nat, Status>) returns (r: HeartbeatResult)
      requires Valid()
      modifies Members(pods)`status, Members(pods)`hbTimestamp
      ensures Valid() && forall h :: Listing(h) == old(Listing(h))
      ensures var at := Lookup(pods, ip);
              && (r.Refused? <==> at.None? || |at.value| != |status|)
              && (r.Updated? <==> at.Some? && |at.value| == |status| && forall e :: e in at.value ==> e.id in status)
      ensures r.Updated? ==>
                forall e :: e in Lookup(pods, ip).value ==> e.hbTimestamp == timestamp && e.status == status[e.id]
      ensures r.KeyError? ==>
                exists k :: Interrupted(Lookup(pods, ip).value, k, timestamp, status) &&
                  forall e :: e in Members(pods) && e !in Lookup(pods, ip).value[..k + 1] ==>
                    e.hbTimestamp == old(e.hbTimestamp) && e.status == old(e.status)
      ensures forall e :: e in Members(pods) && e.id !in status ==> e.status == old(e.status)
      ensures r.Refused? ==>
                forall e :: e in Members(pods) ==> e.hbTimestamp == old(e.hbTimestamp) && e.status == old(e.status)
      ensures r.Updated? ==>
                forall e :: e in Members(pods) && e !in Lookup(pods, ip).value ==>
                  e.hbTimestamp == old(e.hbTimestamp) && e.status == old(e.status)
    {
      hide SelectAll, DistinctIps, Lookup;
      var at := Lookup(pods, ip);
      if at.None? || |at.value| != |status| {
        return Refused;
      }
      LookupMembers(pods, ip);
      var ok := UpdateAll(at.value, timestamp, status);
      return if ok then Updated else KeyError;
    }

    /** Complete when there are as many endpoints (or, with one per pod, node managers) as the layout asks for. */
    method IsEndpointsEnough() returns (r: bool)
      ensures r == Enough(pods, managers, multi, parallel)
    {
      if parallel.None? {
        return false;
      }
      if multi {
        var total, i := 0, 0;
        while i < |pods|
          invariant 0 <= i <= |pods|
          invariant total + Total(pods[i..]) == Total(pods)
        {
          total := total + |pods[i].eps|;
          assert pods[i..][1..] == pods[i + 1..];
          i := i + 1;
        }
        return total == parallel.value.dp;
      }
      var expected := ExpectedNodes(managers, parallel.value.world);
      return expected > 0 && |managers| == expected;
    }
  }

  /** Where a heartbeat stopped: everything before it is updated, and it has the new time. */
  ghost predicate Interrupted(eps: seq<Endpoint>, k: nat, timestamp: real, status: map<nat, Status>)
    reads eps
  {
    && k < |eps| && eps[k].id !in status && eps[k].hbTimestamp == timestamp
    && forall j :: 0 <= j < k ==>
         eps[j].id in status && eps[j].hbTimestamp == timestamp && eps[j].status == status[eps[j].id]
  }

  lemma {:induction false} RemoveAbsent(pods: seq<Pod>, ip: string)
    requires Lookup(pods, ip).None?
    ensures Remove(pods, ip) == pods
  {
    if pods != [] {
      RemoveAbsent(pods[1..], ip);
    }
  }

  /** Whether the pod's node manager is a slave of a group that spans nodes. */
  predicate Slave(managers: seq<NodeManagerInfo>, nnodes: nat, rank: nat)
    requires nnodes > 0
  {
    rank < |managers| && rank % nnodes != 0
  }

  /** Belongs to the pod of some slave among the first `n` node managers. */
  ghost predicate OnSlave(pods: seq<Pod>, managers: seq<NodeManagerInfo>, nnodes: nat, n: nat, e: Endpoint)
    requires nnodes > 0
  {
    exists rank :: 0 <= rank < n && Slave(managers, nnodes, rank)
      && Lookup(pods, managers[rank].ip).Some? && e in Lookup(pods, managers[rank].ip).value
  }

  /**
    The assembler's headless marking: afterwards an endpoint is headless exactly when it was before or its pod is a
    slave, and the listing that readers get is the new one.
   */
  method MarkSlavesHeadless(inst: Instance, nnodes: nat)
    requires inst.Valid() && nnodes > 1
    modifies inst`version, Members(inst.pods)`headless
    ensures inst.Valid()
    ensures forall e :: e in Members(inst.pods) ==>
              e.headless == (old(e.headless) || OnSlave(inst.pods, inst.managers, nnodes, |inst.managers|, e))
  {
    var pods, managers := inst.pods, inst.managers;
    var rank := 0;
    while rank < |managers|
      invariant 0 <= rank <= |managers| && inst.version == old(inst.version)
      invariant forall e :: e in Members(pods) ==>
                  e.headless == (old(e.headless) || OnSlave(pods, managers, nnodes, rank, e))
    {
      if rank % nnodes != 0 {
        assert Slave(managers, nnodes, rank);
        var at := Lookup(pods, managers[rank].ip);
        if at.Some? {
          LookupMembers(pods, managers[rank].ip);
          MarkAll(at.value);
        }
      }
      rank := rank + 1;
    }
    inst.InvalidateEndpointsCache();
  }

  method MarkAll(eps: seq<Endpoint>)
    modifies eps`headless
    ensures forall e :: e in eps ==> e.headless
  {
    var i := 0;
    while i < |eps|
      invariant 0 <= i <= |eps|
      invariant forall j :: 0 <= j < i ==> eps[j].headless
    {
      eps[i].headless := true;
      i := i + 1;
    }
  }

  /** Counting in groups of `nnodes`, the first node manager of each group is its master and all others are slaves. */
  lemma SlavesExactly(managers: seq<NodeManagerInfo>, nnodes: nat, group: nat, place: nat)
    requires place < nnodes && group * nnodes + place < |managers|
    ensures Slave(managers, nnodes, group * nnodes + place) <==> place != 0
  {
    var rank := group * nnodes + place;
    PodLayout.DivMod(rank, nnodes);
    var q := rank / nnodes;
    if q < group {
      PodLayout.MulMono(q + 1, group, nnodes);
    } else if q > group {
      PodLayout.MulMono(group + 1, q, nnodes);
    }
  }

  // ---------------------------------------------------------------- what is shown

  function Flat(pods: seq<Pod>): seq<Endpoint> {
    if pods == [] then [] else Flat(pods[..|pods| - 1]) + pods[|pods| - 1].eps
  }

  lemma {:induction false} SelectAppend(a: seq<Endpoint>, b: seq<Endpoint>, hidden: set<Endpoint>, multi: bool)
    ensures Select(a + b, hidden, multi) == Select(a, hidden, multi) + Select(b, hidden, multi)
  {
    if b == [] {
      assert a + b == a;
    } else {
      var n := |b| - 1;
      SelectAppend(a, b[..n], hidden, multi);
      assert (a + b)[..|a + b| - 1] == a + b[..n] && (a + b)[|a + b| - 1] == b[n];
    }
  }

  /** The listing is that of the pods' endpoints in a row. */
  lemma {:induction false} SelectAllFlat(pods: seq<Pod>, hidden: set<Endpoint>, multi: bool)
    ensures SelectAll(pods, hidden, multi) == Select(Flat(pods), hidden, multi)
  {
    if pods != [] {
      var n := |pods| - 1;
      SelectAllFlat(pods[..n], hidden, multi);
      SelectAppend(Flat(pods[..n]), pods[n].eps, hidden, multi);
    }
  }

  /** Shown in both modes: outside multi mode only the endpoint numbered 0 of each pod. */
  ghost predicate Shown(e: Endpoint, hidden: set<Endpoint>, multi: bool) {
    e !in hidden && (multi || e.id == 0)
  }

  /** Where the `k`-th endpoint of a row stands among those shown. */
  ghost function Place(eps: seq<Endpoint>, hidden: set<Endpoint>, multi: bool, k: nat): nat
    requires k <= |eps|
  {
    if k == 0 then 0
    else Place(eps, hidden, multi, k - 1) + if Shown(eps[k - 1], hidden, multi) then 1 else 0
  }

  lemma {:induction false} PlacePrefix(eps: seq<Endpoint>, hidden: set<Endpoint>, multi: bool, k: nat, n: nat)
    requires k <= n <= |eps|
    ensures Place(eps[..n], hidden, multi, k) == Place(eps, hidden, multi, k) <= Place(eps, hidden, multi, n)
    decreases n, k
  {
    if k > 0 {
      PlacePrefix(eps, hidden, multi, k - 1, n);
    }
    if k < n {
      PlacePrefix(eps, hidden, multi, k, n - 1);
    }
  }

  /** Nothing shown is lost, doubled or out of order: each stands where the ones shown before it leave off. */
  lemma {:induction false} SelectExactly(eps: seq<Endpoint>, hidden: set<Endpoint>, multi: bool, k: nat)
    requires k < |eps|
    ensures |Select(eps, hidden, multi)| == Place(eps, hidden, multi, |eps|)
    ensures var at := Place(eps, hidden, multi, k);
            Shown(eps[k], hidden, multi) ==>
              at < |Select(eps, hidden, multi)| && Select(eps, hidden, multi)[at] == eps[k]
  {
    var n := |eps| - 1;
    PlacePrefix(eps, hidden, multi, n, n);
    if k < n {
      SelectExactly(eps[..n], hidden, multi, k);
      PlacePrefix(eps, hidden, multi, k, n);
    } else if n > 0 {
      SelectExactly(eps[..n], hidden, multi, 0);
    }
  }

  /** The listing of the whole map, in either mode and whatever is hidden. */
  lemma ListingExactly(pods: seq<Pod>, hidden: set<Endpoint>, multi: bool)
    ensures var all, shown := Flat(pods), SelectAll(pods, hidden, multi);
            && |shown| == Place(all, hidden, multi, |all|)
            && forall k :: 0 <= k < |all| && Shown(all[k], hidden, multi) ==>
                 Place(all, hidden, multi, k) < |shown| && shown[Place(all, hidden, multi, k)] == all[k]
  {
    SelectAllFlat(pods, hidden, multi);
    forall k | 0 <= k < |Flat(pods)|
      ensures |Select(Flat(pods), hidden, multi)| == Place(Flat(pods), hidden, multi, |Flat(pods)|)
      ensures Shown(Flat(pods)[k], hidden, multi) ==>
                var at := Place(Flat(pods), hidden, multi, k);
                at < |Select(Flat(pods), hidden, multi)| && Select(Flat(pods), hidden, multi)[at] == Flat(pods)[k]
    {
      SelectExactly(Flat(pods), hidden, multi, k);
    }
  }

  // ---------------------------------------------------------------- what is counted

  lemma {:induction false} TotalSnoc(pods: seq<Pod>)
    requires pods != []
    ensures Total(pods) == Total(pods[..|pods| - 1]) + |pods[|pods| - 1].eps|
  {
    if |pods| > 1 {
      TotalSnoc(pods[1..]);
      assert pods[..|pods| - 1][1..] == pods[1..][..|pods| - 2];
    } else {
      assert pods[1..] == [];
    }
  }

  lemma {:induction false} SelectLength(eps: seq<Endpoint>, hidden: set<Endpoint>)
    ensures |Select(eps, hidden, true)| <= |eps|
    ensures |Select(eps, hidden, true)| == |eps| <==> forall e :: e in eps ==> e !in hidden
  {
    if eps != [] {
      var n := |eps| - 1;
      SelectLength(eps[..n], hidden);
      assert eps == eps[..n] + [eps[n]];
    }
  }

  /** The endpoints shown are all that are counted exactly when none is hidden. */
  lemma {:induction false} SelectAllLength(pods: seq<Pod>, hidden: set<Endpoint>)
    ensures |SelectAll(pods, hidden, true)| <= Total(pods)
    ensures |SelectAll(pods, hidden, true)| == Total(pods) <==> Members(pods) !! hidden
  {
    if pods != [] {
      var n := |pods| - 1;
      SelectAllLength(pods[..n], hidden);
      SelectLength(pods[n].eps, hidden);
      TotalSnoc(pods);
      MembersSnoc(pods, hidden);
    }
  }

  lemma MembersSnoc(pods: seq<Pod>, hidden: set<Endpoint>)
    requires pods != []
    ensures var n := |pods| - 1;
            Members(pods) !! hidden <==> Members(pods[..n]) !! hidden && forall e :: e in pods[n].eps ==> e !in hidden
  {
    var n := |pods| - 1;
    assert pods == pods[..n] + [pods[n]];
    assert forall p :: p in pods <==> p in pods[..n] || p == pods[n];
    assert Members(pods) == Members(pods[..n]) + set e | e in pods[n].eps;
  }

  /**
    The documentation counts endpoints that are not headless, the code counts all: in an instance that is complete,
    the documented count agrees exactly when no endpoint is headless.
   */
  lemma DocumentedCountExactly(pods: seq<Pod>, managers: seq<NodeManagerInfo>, p: Parallel)
    requires Enough(pods, managers, true, Some(p))
    ensures |SelectAll(pods, HeadlessOnes(pods), true)| == p.dp <==> HeadlessOnes(pods) == {}
  {
    SelectAllLength(pods, HeadlessOnes(pods));
    assert HeadlessOnes(pods) <= Members(pods);
    assert Members(pods) !! HeadlessOnes(pods) <==> HeadlessOnes(pods) == {} by {
      if e :| e in HeadlessOnes(pods) {
        assert e in Members(pods);
      }
    }
  }

  /** An instance of one headless endpoint is complete, and shows none. */
  lemma HeadlessIsCounted(ip: string, e: Endpoint)
    requires e.headless
    ensures var pods := [Pod(ip, [e])];
            Enough(pods, [], true, Some(Parallel(1, 1))) && SelectAll(pods, HeadlessOnes(pods), true) == []
  {
    var pods := [Pod(ip, [e])];
    assert pods[1..] == [] && Total([]) == 0;
    assert pods[0] in pods && e in pods[0].eps && e in HeadlessOnes(pods);
    SelectAllLength(pods, HeadlessOnes(pods));
  }

  // ---------------------------------------------------------------- readiness

  function AddManager(managers: seq<NodeManagerInfo>, info: NodeManagerInfo): seq<NodeManagerInfo> {
    if info in managers then managers else managers + [info]
  }

  /** Removes the first entry for that address and port. */
  function DropManager(managers: seq<NodeManagerInfo>, ip: string, port: string): seq<NodeManagerInfo> {
    if managers == [] then []
    else if managers[0].ip == ip && managers[0].port == port then managers[1..]
    else [managers[0]] + DropManager(managers[1..], ip, port)
  }

  lemma DropStep(ms: seq<NodeManagerInfo>, i: nat, ip: string, port: string)
    requires i < |ms|
    ensures ms[..i] + DropManager(ms[i..], ip, port) ==
            if ms[i].ip == ip && ms[i].port == port then ms[..i] + ms[i + 1..]
            else ms[..i + 1] + DropManager(ms[i + 1..], ip, port)
  {
    assert ms[i..][1..] == ms[i + 1..] && ms[..i + 1] == ms[..i] + [ms[i]];
  }

  /** The world divided by the first node's devices, rounded up; zero while that is unknown. */
  function ExpectedNodes(managers: seq<NodeManagerInfo>, world: int): int {
    if managers == [] || managers[0].devices <= 0 then 0
    else (world + managers[0].devices - 1) / managers[0].devices
  }

  /** The fewest nodes of that many devices that hold the world. */
  lemma ExpectedNodesExactly(managers: seq<NodeManagerInfo>, world: nat, m: nat)
    requires managers != [] && managers[0].devices > 0
    ensures ExpectedNodes(managers, world) <= m <==> world <= m * managers[0].devices
  {
    var n, d := ExpectedNodes(managers, world), managers[0].devices;
    PodLayout.DivMod(world + d - 1, d);
    if m < n {
      PodLayout.MulMono(m + 1, n, d);
    } else {
      PodLayout.MulMono(n, m, d);
    }
  }

  predicate Enough(pods: seq<Pod>, managers: seq<NodeManagerInfo>, multi: bool, parallel: Option<Parallel>) {
    && parallel.Some?
    && if multi then Total(pods) == parallel.value.dp
       else |managers| == ExpectedNodes(managers, parallel.value.world) > 0
  }

  /** What pods do to the map, in any order and any number of times. */
  datatype Event = Register(ip: string, eps: seq<Endpoint>) | Deregister(ip: string)

  function After(evs: seq<Event>): seq<Pod> {
    if evs == [] then []
    else
      match evs[|evs| - 1]
      case Register(ip, eps) => Put(After(evs[..|evs| - 1]), ip, eps)
      case Deregister(ip) => Remove(After(evs[..|evs| - 1]), ip)
  }

  /** The pods whose last event was a registration. */
  function Present(evs: seq<Event>): set<string> {
    if evs == [] then {}
    else
      match evs[|evs| - 1]
      case Register(ip, _) => Present(evs[..|evs| - 1]) + {ip}
      case Deregister(ip) => Present(evs[..|evs| - 1]) - {ip}
  }

  ghost predicate EachServes(evs: seq<Event>, n: nat) {
    forall i :: 0 <= i < |evs| && evs[i].Register? ==> |evs[i].eps| == n
  }

  ghost predicate Uniform(pods: seq<Pod>, n: nat) {
    forall p :: p in pods ==> |p.eps| == n
  }

  lemma {:induction false} PutUniform(pods: seq<Pod>, ip: string, eps: seq<Endpoint>)
    requires Uniform(pods, |eps|)
    ensures Uniform(Put(pods, ip, eps), |eps|)
  {
    if pods != [] {
      assert pods == [pods[0]] + pods[1..];
      PutUniform(pods[1..], ip, eps);
    }
  }

  lemma {:induction false} RemoveUniform(pods: seq<Pod>, ip: string, n: nat)
    requires Uniform(pods, n)
    ensures Uniform(Remove(pods, ip), n)
  {
    if pods != [] {
      assert pods == [pods[0]] + pods[1..];
      RemoveUniform(pods[1..], ip, n);
    }
  }

  lemma {:induction false} UniformTotal(pods: seq<Pod>, n: nat)
    requires Uniform(pods, n) && DistinctIps(pods)
    ensures |Ips(pods)| == |pods| && Total(pods) == |pods| * n
  {
    if pods != [] {
      UniformTotal(pods[1..], n);
      assert |pods| * n == n + (|pods| - 1) * n;
    }
  }

  /** After any history, the map holds the present pods and nothing else. */
  lemma {:induction false} HistoryTotal(evs: seq<Event>, n: nat)
    requires EachServes(evs, n)
    ensures DistinctIps(After(evs)) && Ips(After(evs)) == Present(evs) && Uniform(After(evs), n)
    ensures Total(After(evs)) == |Present(evs)| * n
  {
    if evs != [] {
      var before, last := evs[..|evs| - 1], evs[|evs| - 1];
      HistoryTotal(before, n);
      match last {
        case Register(ip, eps) =>
          PutIsAssignment(After(before), ip, eps, ip);
          PutUniform(After(before), ip, eps);
        case Deregister(ip) =>
          RemoveIsDeletion(After(before), ip, ip);
          RemoveUniform(After(before), ip, n);
      }
    }
    UniformTotal(After(evs), n);
  }

  /** The endpoints each pod of an inferred layout serves. */
  function PerPod(dp: nat, tp: nat, cards: nat, pp: nat): nat
    requires cards > 0 && PodLayout.InferPodLayout(dp, tp, cards, pp).Ok?
  {
    var n := PodLayout.EndpointNum(dp, PodLayout.InferPodLayout(dp, tp, cards, pp).value.npus, tp * pp);
    if n.Ok? then n.value else 0
  }

  /** A layout with one node per group. */
  predicate OneNode(dp: nat, tp: nat, cards: nat, pp: nat) {
    && cards > 0 && dp > 0 && tp > 0 && pp > 0
    && PodLayout.InferPodLayout(dp, tp, cards, pp).Ok?
    && PodLayout.InferPodLayout(dp, tp, cards, pp).value.nnodes == 1
  }

  /**
    Packing and readiness, after every history of registrations, repeated registrations and removals: when every
    address registers the endpoints its NodeManager computed for the inferred layout, the instance is complete exactly
    while the addresses present make up dp.
   */
  lemma ReadyExactly(dp: nat, tp: nat, cards: nat, pp: nat, evs: seq<Event>, managers: seq<NodeManagerInfo>)
    requires OneNode(dp, tp, cards, pp) && EachServes(evs, PerPod(dp, tp, cards, pp))
    ensures Enough(After(evs), managers, true, Some(Parallel(dp, dp * (tp * pp)))) <==>
              |Present(evs)| * PerPod(dp, tp, cards, pp) == dp
  {
    HistoryTotal(evs, PerPod(dp, tp, cards, pp));
  }

  /**
    With no more addresses than pods, that is when all pods are present and a group divides a node; if it does not,
    the instance is never complete.
   */
  lemma ReadyExactlyWhenAllPresent(dp: nat, tp: nat, cards: nat, pp: nat, evs: seq<Event>,
                                   managers: seq<NodeManagerInfo>)
    requires OneNode(dp, tp, cards, pp) && EachServes(evs, PerPod(dp, tp, cards, pp))
    requires |Present(evs)| <= PodLayout.InferPodLayout(dp, tp, cards, pp).value.pods
    ensures var l := PodLayout.InferPodLayout(dp, tp, cards, pp).value;
            && tp * pp > 0
            && (Enough(After(evs), managers, true, Some(Parallel(dp, dp * (tp * pp)))) <==>
                  |Present(evs)| == l.pods && (l.pods == 1 || cards % (tp * pp) == 0))
  {
    hide After, Enough, EachServes, Present;
    PodLayout.EndpointsMatchExactly(dp, tp, cards, pp);
    ReadyExactly(dp, tp, cards, pp, evs, managers);
    PartialProduct(|Present(evs)|, PodLayout.InferPodLayout(dp, tp, cards, pp).value.pods,
                   PerPod(dp, tp, cards, pp), dp);
  }

  /** A stale address can complete an instance that its own pods cannot: 3 pods of 2 endpoints each, for dp = 8. */
  lemma StaleAddressCompletes(evs: seq<Event>, managers: seq<NodeManagerInfo>)
    requires EachServes(evs, 2) && |Present(evs)| == 4
    ensures PodLayout.InferPodLayout(8, 3, 8, 1) == PodLayout.Ok(PodLayout.Layout(3, 8, 1)) && 8 % 3 != 0
    ensures PerPod(8, 3, 8, 1) == 2 && Enough(After(evs), managers, true, Some(Parallel(8, 8 * (3 * 1))))
  {
    ReadyExactly(8, 3, 8, 1, evs, managers);
  }

  lemma PartialProduct(k: nat, m: nat, n: nat, total: nat)
    requires k <= m && n > 0 && m * n <= total
    ensures k * n == total <==> k == m && m * n == total
  {
    if k < m {
      PodLayout.MulMono(k + 1, m, n);
      assert (k + 1) * n == k * n + n;
    }
  }

  /** What node managers do: join, again or for the first time, and leave. */
  datatype ManagerEvent = Join(info: NodeManagerInfo) | Leave(ip: string, port: string)

  function ManagersAfter(evs: seq<ManagerEvent>): seq<NodeManagerInfo> {
    if evs == [] then []
    else
      match evs[|evs| - 1]
      case Join(info) => AddManager(ManagersAfter(evs[..|evs| - 1]), info)
      case Leave(ip, port) => DropManager(ManagersAfter(evs[..|evs| - 1]), ip, port)
  }

  function WithoutManager(ms: set<NodeManagerInfo>, ip: string, port: string): set<NodeManagerInfo> {
    set m | m in ms && !(m.ip == ip && m.port == port)
  }

  /** The node managers whose last event was to join. */
  function JoinedManagers(evs: seq<ManagerEvent>): set<NodeManagerInfo> {
    if evs == [] then {}
    else
      match evs[|evs| - 1]
      case Join(info) => JoinedManagers(evs[..|evs| - 1]) + {info}
      case Leave(ip, port) => WithoutManager(JoinedManagers(evs[..|evs| - 1]), ip, port)
  }

  ghost predicate JoinWith(evs: seq<ManagerEvent>, devices: int) {
    forall i :: 0 <= i < |evs| && evs[i].Join? ==> evs[i].info.devices == devices
  }

  /** A list of node managers with the same device count, none of them twice. */
  ghost predicate Lists(ms: seq<NodeManagerInfo>, members: set<NodeManagerInfo>, devices: int)
    decreases ms
  {
    if ms == [] then members == {}
    else ms[0].devices == devices && ms[0] in members && Lists(ms[1..], members - {ms[0]}, devices)
  }

  lemma {:induction false} ListsAll(ms: seq<NodeManagerInfo>, members: set<NodeManagerInfo>, devices: int)
    requires Lists(ms, members, devices)
    ensures |ms| == |members| && (forall m :: m in ms <==> m in members) && forall m :: m in ms ==> m.devices == devices
    decreases ms
  {
    if ms != [] {
      ListsAll(ms[1..], members - {ms[0]}, devices);
      assert |members| == |members - {ms[0]}| + 1 && ms == [ms[0]] + ms[1..];
    }
  }

  lemma {:induction false} AddLists(ms: seq<NodeManagerInfo>, members: set<NodeManagerInfo>, info: NodeManagerInfo)
    requires Lists(ms, members, info.devices) && info !in members
    ensures Lists(ms + [info], members + {info}, info.devices)
    decreases ms
  {
    var all := ms + [info];
    if ms == [] {
      assert all[1..] == [] && members + {info} - {info} == {};
    } else {
      assert all[1..] == ms[1..] + [info] && members + {info} - {ms[0]} == members - {ms[0]} + {info};
      AddLists(ms[1..], members - {ms[0]}, info);
    }
  }

  lemma {:induction false} DropLists(ms: seq<NodeManagerInfo>, members: set<NodeManagerInfo>, devices: int,
                                     ip: string, port: string)
    requires Lists(ms, members, devices)
    ensures Lists(DropManager(ms, ip, port), WithoutManager(members, ip, port), devices)
    decreases ms
  {
    if ms != [] {
      var first, rest := ms[0], members - {ms[0]};
      ListsAll(ms, members, devices);
      if first.ip == ip && first.port == port {
        assert WithoutManager(members, ip, port) == rest by {
          forall m | m in rest ensures !(m.ip == ip && m.port == port) {
            assert m in ms && m.devices == first.devices && m != first;
          }
        }
      } else {
        DropLists(ms[1..], rest, devices, ip, port);
        assert WithoutManager(members, ip, port) - {first} == WithoutManager(rest, ip, port);
      }
    }
  }

  lemma {:induction false} ManagersListed(evs: seq<ManagerEvent>, devices: int)
    requires JoinWith(evs, devices)
    ensures Lists(ManagersAfter(evs), JoinedManagers(evs), devices)
  {
    if evs != [] {
      var before, last := evs[..|evs| - 1], evs[|evs| - 1];
      ManagersListed(before, devices);
      ListsAll(ManagersAfter(before), JoinedManagers(before), devices);
      match last {
        case Join(info) =>
          if info in JoinedManagers(before) {
            assert JoinedManagers(before) + {info} == JoinedManagers(before);
          } else {
            AddLists(ManagersAfter(before), JoinedManagers(before), info);
          }
        case Leave(ip, port) =>
          DropLists(ManagersAfter(before), JoinedManagers(before), devices, ip, port);
      }
    }
  }

  /**
    With one endpoint per pod the node managers are counted instead: after every history of joining and leaving, the
    instance is complete exactly while as many are there as the layout has pods.
   */
  lemma SingleEndpointReadyExactly(dp: nat, tp: nat, cards: nat, pp: nat, evs: seq<ManagerEvent>, pods: seq<Pod>)
    requires cards > 0 && dp > 0 && tp > 0 && pp > 0 && PodLayout.InferPodLayout(dp, tp, cards, pp).Ok?
    requires JoinWith(evs, PodLayout.InferPodLayout(dp, tp, cards, pp).value.npus)
    ensures var l := PodLayout.InferPodLayout(dp, tp, cards, pp).value;
            Enough(pods, ManagersAfter(evs), false, Some(Parallel(dp, dp * (tp * pp)))) <==>
              |JoinedManagers(evs)| == l.pods
  {
    var l := PodLayout.InferPodLayout(dp, tp, cards, pp).value;
    var managers := ManagersAfter(evs);
    PodLayout.PackingConserves(dp, tp, cards, pp);
    ManagersListed(evs, l.npus);
    ListsAll(managers, JoinedManagers(evs), l.npus);
    PodsPositive(dp, tp, cards, pp);
    if managers != [] {
      assert managers[0] in managers;
      CeilingExact(l.pods, l.npus);
    }
  }

  lemma PodsPositive(dp: nat, tp: nat, cards: nat, pp: nat)
    requires cards > 0 && dp > 0 && tp > 0 && pp > 0 && PodLayout.InferPodLayout(dp, tp, cards, pp).Ok?
    ensures var l := PodLayout.InferPodLayout(dp, tp, cards, pp).value; l.npus > 0 && l.pods > 0
  {
    PodLayout.PackingConserves(dp, tp, cards, pp);
    PodLayout.MulMono(1, pp, tp);
    PodLayout.MulMono(1, dp, tp * pp);
  }

  lemma CeilingExact(q: nat, d: nat)
    requires d > 0
    ensures (q * d + d - 1) / d == q
  {
    PodLayout.QuotientExact(q, d);
    PodLayout.DivMod(q * d + d - 1, d);
    var k := (q * d + d - 1) / d;
    if k < q {
      PodLayout.MulMono(k + 1, q, d);
    } else if k > q {
      PodLayout.MulMono(q + 1, k, d);
    }
  }
}
