/** Startup ports of a NodeManager pod: a service keeps its preferred port or gets the next one nobody prefers. */
module NodeManagerPorts {
  import opened Options

  // ---------------------------------------------------------------- one port

  predicate Usable(p: int, blocked: set<int>, probe: int -> bool) {
    p !in blocked && probe(p)
  }

  /** The least usable port in `[first, bound)`. */
  function FirstFree(first: int, bound: int, blocked: set<int>, probe: int -> bool): (r: Option<int>)
    ensures r.Some? ==> first <= r.value < bound && Usable(r.value, blocked, probe)
    ensures r.Some? ==> forall q :: first <= q < r.value ==> !Usable(q, blocked, probe)
    ensures r.None? ==> forall q :: first <= q < bound ==> !Usable(q, blocked, probe)
    decreases bound - first
  {
    if first >= bound then None
    else if Usable(first, blocked, probe) then Some(first)
    else FirstFree(first + 1, bound, blocked, probe)
  }

  method AllocateAuto(port: int, scanRange: nat, blocked: set<int>, probe: int -> bool) returns (r: Option<int>)
    ensures r == FirstFree(port, port + scanRange, blocked, probe)
  {
    var candidate := port;
    while candidate < port + scanRange
      invariant port <= candidate <= port + scanRange
      invariant FirstFree(port, port + scanRange, blocked, probe) ==
                FirstFree(candidate, port + scanRange, blocked, probe)
    {
      if candidate !in blocked && probe(candidate) {
        return Some(candidate);
      }
      candidate := candidate + 1;
    }
    return None;
  }

  // ---------------------------------------------------------------- all ports

  /** The ports assigned to a list of preferences, in order; a port somebody else prefers is never handed out. */
  function Assign(prefs: seq<nat>, reserved: set<int>, handed: set<int>, scan: nat, probe: int -> bool)
    : Option<seq<int>>
  {
    if prefs == [] then Some([])
    else
      var p := FirstFree(prefs[0], prefs[0] + scan, (reserved - {prefs[0]}) + handed, probe);
      if p.None? then None
      else
        var rest := Assign(prefs[1..], reserved, handed + {p.value}, scan, probe);
        if rest.None? then None else Some([p.value] + rest.value)
  }

  ghost predicate Distinct<T>(s: seq<T>) {
    forall i, j :: 0 <= i < j < |s| ==> s[i] != s[j]
  }

  lemma {:induction false} AssignedApart(prefs: seq<nat>, reserved: set<int>, handed: set<int>, scan: nat,
                                         probe: int -> bool)
    requires Assign(prefs, reserved, handed, scan, probe).Some?
    ensures var out := Assign(prefs, reserved, handed, scan, probe).value;
            && |out| == |prefs| && Distinct(out)
            && (forall i :: 0 <= i < |out| ==> out[i] !in handed)
            && (forall i :: 0 <= i < |out| ==> prefs[i] <= out[i] < prefs[i] + scan && probe(out[i]))
            && (forall i :: 0 <= i < |out| ==> out[i] == prefs[i] || out[i] !in reserved)
  {
    if prefs != [] {
      var out := Assign(prefs, reserved, handed, scan, probe).value;
      AssignedApart(prefs[1..], reserved, handed + {out[0]}, scan, probe);
      assert forall i :: 1 <= i < |out| ==> out[i] == out[1..][i - 1] && prefs[i] == prefs[1..][i - 1];
    }
  }

  /** Ports handed out so far are either somebody's own preference or outside every reserved one. */
  ghost predicate Respectful(handed: set<int>, prefs: seq<nat>, reserved: set<int>) {
    forall i :: 0 <= i < |prefs| && prefs[i] in reserved ==> prefs[i] !in handed
  }

  lemma {:induction false} PreferenceKept(prefs: seq<nat>, reserved: set<int>, handed: set<int>, scan: nat,
                                          probe: int -> bool, i: nat)
    requires Assign(prefs, reserved, handed, scan, probe).Some? && i < |prefs|
    requires Distinct(prefs) && Respectful(handed, prefs, reserved) && (0 in prefs ==> 0 !in handed)
    requires (prefs[i] in reserved || prefs[i] == 0) && probe(prefs[i])
    ensures |Assign(prefs, reserved, handed, scan, probe).value| == |prefs|
    ensures Assign(prefs, reserved, handed, scan, probe).value[i] == prefs[i]
  {
    AssignedApart(prefs, reserved, handed, scan, probe);
    var out := Assign(prefs, reserved, handed, scan, probe).value;
    if i > 0 {
      hide Distinct, Respectful;
      RestRespectful(prefs, reserved, handed, out[0]);
      PreferenceKept(prefs[1..], reserved, handed + {out[0]}, scan, probe, i - 1);
      assert out[i] == out[1..][i - 1];
    } else {
      assert prefs[0] in prefs;
      assert Usable(prefs[0], (reserved - {prefs[0]}) + handed, probe);
    }
  }

  /** Handing out the first port takes nothing that a later service prefers. */
  lemma RestRespectful(prefs: seq<nat>, reserved: set<int>, handed: set<int>, port: int)
    requires prefs != [] && (port == prefs[0] || port !in reserved) && prefs[0] <= port
    requires Distinct(prefs) && Respectful(handed, prefs, reserved) && (0 in prefs ==> 0 !in handed)
    ensures Distinct(prefs[1..]) && Respectful(handed + {port}, prefs[1..], reserved)
    ensures 0 in prefs[1..] ==> 0 !in handed + {port}
  {
    assert forall j :: 0 <= j < |prefs| - 1 ==> prefs[1..][j] == prefs[j + 1] && prefs[j + 1] != prefs[0];
    if 0 in prefs[1..] {
      var j :| 0 <= j < |prefs| - 1 && prefs[1..][j] == 0;
      assert prefs[j + 1] == 0 && prefs[0] != 0;
    }
  }

  // ---------------------------------------------------------------- the configuration

  function Zip(a: seq<nat>, b: seq<nat>): seq<nat> {
    if a == [] || b == [] then [] else [a[0], b[0]] + Zip(a[1..], b[1..])
  }

  function Shorter(m: nat, n: nat): nat {
    if m < n then m else n
  }

  function Present(o: Option<nat>): seq<nat> {
    if o.Some? then [o.value] else []
  }

  /** The ports a NodeManager pod listens on; the last three exist in single-container mode only. */
  datatype Ports = Ports(manager: nat, service: seq<nat>, mgmt: seq<nat>, single: bool,
                         kv: Option<nat>, lookupRpc: Option<nat>, dpRpc: Option<nat>)
  {
    /** In the order they are assigned; endpoints come in pairs, so a list's surplus is dropped. */
    function Preferences(): seq<nat> {
      [manager] + Zip(service, mgmt) + Extra()
    }

    function Extra(): seq<nat> {
      if single then Singles() else []
    }

    function Singles(): seq<nat> {
      Present(kv) + Present(lookupRpc) + Present(dpRpc)
    }

    /** The same single-container ports are set. */
    predicate SameSingles(other: Ports) {
      kv.Some? == other.kv.Some? && lookupRpc.Some? == other.lookupRpc.Some? && dpRpc.Some? == other.dpRpc.Some?
    }

    /** Every preference but the zeros among the single-container ports. */
    function Reserved(): set<int> {
      {manager} + (set p | p in service) + (set p | p in mgmt) + (set p | p in Extra() && p != 0)
    }
  }

  lemma {:induction false} ZipPairs(a: seq<nat>, b: seq<nat>)
    ensures |Zip(a, b)| == 2 * Shorter(|a|, |b|)
    ensures forall i :: 0 <= i < Shorter(|a|, |b|) ==> Zip(a, b)[2 * i] == a[i] && Zip(a, b)[2 * i + 1] == b[i]
  {
    if a != [] && b != [] {
      ZipPairs(a[1..], b[1..]);
      var rest := Zip(a[1..], b[1..]);
      forall i | 0 < i < Shorter(|a|, |b|) ensures Zip(a, b)[2 * i] == a[i] && Zip(a, b)[2 * i + 1] == b[i] {
        assert Zip(a, b)[2 * i] == rest[2 * (i - 1)] && Zip(a, b)[2 * i + 1] == rest[2 * (i - 1) + 1];
      }
    }
  }

  /**
    What is assigned: the manager's port, then both ports of each endpoint, and in a single container each of the
    three further ports that is set; all of these but zeros are reserved.
   */
  lemma PreferencesExactly(c: Ports)
    ensures var prefs, n := c.Preferences(), Shorter(|c.service|, |c.mgmt|);
            && |prefs| >= 1 + 2 * n && prefs[0] == c.manager
            && (forall i :: 0 <= i < n ==> prefs[1 + 2 * i] == c.service[i] && prefs[2 + 2 * i] == c.mgmt[i])
            && (!c.single ==> |prefs| == 1 + 2 * n)
            && (c.single ==>
                  && (c.kv.Some? ==> |prefs| > 1 + 2 * n && prefs[1 + 2 * n] == c.kv.value)
                  && (c.dpRpc.Some? ==> prefs[|prefs| - 1] == c.dpRpc.value)
                  && (c.lookupRpc.Some? ==> c.lookupRpc.value in prefs[1 + 2 * n..])
                  && |prefs| == 1 + 2 * n + Set(c.kv) + Set(c.lookupRpc) + Set(c.dpRpc))
            && forall p :: p in prefs && p != 0 ==> p in c.Reserved()
  {
    ZipPairs(c.service, c.mgmt);
    var z := Zip(c.service, c.mgmt);
    assert c.Preferences()[1 + |z|..] == c.Extra();
    assert forall i :: 0 <= i < |z| ==> c.Preferences()[1 + i] == z[i];
    hide Zip;
    forall p | p in c.Preferences() && p != 0 ensures p in c.Reserved() {
      PreferencesReserved(c, p);
    }
  }

  lemma ReservedExactly(c: Ports, p: nat)
    ensures p in c.Reserved() <==>
              || p == c.manager || p in c.service || p in c.mgmt
              || (c.single && p != 0 && (c.kv == Some(p) || c.lookupRpc == Some(p) || c.dpRpc == Some(p)))
  {
  }

  /** One when the optional port is set. */
  function Set(o: Option<nat>): nat {
    if o.Some? then 1 else 0
  }

  lemma {:induction false} ZipFrom(a: seq<nat>, b: seq<nat>, p: nat)
    requires p in Zip(a, b)
    ensures p in a || p in b
  {
    if p != a[0] && p != b[0] {
      ZipFrom(a[1..], b[1..], p);
    }
  }

  /** Every preference is reserved, except a zero. */
  lemma PreferencesReserved(c: Ports, p: nat)
    requires p in c.Preferences()
    ensures p in c.Reserved() || p == 0
  {
    if p in Zip(c.service, c.mgmt) {
      ZipFrom(c.service, c.mgmt, p);
    }
  }

  /**
    The assignment as a whole, under any fixed probe: all ports differ, each lies within the scan range of its
    preference, each is its own preference or nobody's, and with distinct preferences every free one goes to its owner.
   */
  lemma AssignmentCorrect(c: Ports, scan: nat, probe: int -> bool)
    requires Assign(c.Preferences(), c.Reserved(), {}, scan, probe).Some?
    ensures var prefs, out := c.Preferences(), Assign(c.Preferences(), c.Reserved(), {}, scan, probe).value;
            && |out| == |prefs| && Distinct(out)
            && (forall i :: 0 <= i < |out| ==> prefs[i] <= out[i] < prefs[i] + scan && probe(out[i]))
            && (forall i :: 0 <= i < |out| ==> out[i] == prefs[i] || out[i] !in c.Reserved())
            && (Distinct(prefs) ==> forall i :: 0 <= i < |out| && probe(prefs[i]) ==> out[i] == prefs[i])
  {
    var prefs := c.Preferences();
    AssignedApart(prefs, c.Reserved(), {}, scan, probe);
    if Distinct(prefs) {
      forall i | 0 <= i < |prefs| && probe(prefs[i])
        ensures Assign(prefs, c.Reserved(), {}, scan, probe).value[i] == prefs[i]
      {
        PreferencesReserved(c, prefs[i]);
        PreferenceKept(prefs, c.Reserved(), {}, scan, probe, i);
      }
    }
  }

  lemma {:induction false} ZipAppend(a: seq<nat>, b: seq<nat>, x: nat, y: nat)
    requires |a| == |b|
    ensures Zip(a + [x], b + [y]) == Zip(a, b) + [x, y]
  {
    if a != [] {
      assert (a + [x])[1..] == a[1..] + [x] && (b + [y])[1..] == b[1..] + [y];
      ZipAppend(a[1..], b[1..], x, y);
    }
  }

  class NodeManagerConfig {
    const scanRange: nat
    var ports: Ports
    var handed: set<int>

    constructor (ports: Ports, scanRange: nat)
      ensures this.ports == ports && this.scanRange == scanRange && handed == {}
    {
      this.ports, this.scanRange, handed := ports, scanRange, {};
    }

    /** What assigning `prefs` gives when `reserved` is fixed and `handed` are the ports given out so far. */
    ghost function Outcome(prefs: seq<nat>, reserved: set<int>, probe: int -> bool): Option<seq<int>>
      reads this
    {
      Assign(prefs, reserved, handed, scanRange, probe)
    }

    /** The `_auto` closure: one allocation, remembered. */
    method Auto(pref: nat, reserved: set<int>, probe: int -> bool) returns (r: Option<nat>)
      modifies this`handed
      ensures r == FirstFree(pref, pref + scanRange, (reserved - {pref}) + old(handed), probe)
      ensures handed == if r.Some? then old(handed) + {r.value} else old(handed)
    {
      var p := AllocateAuto(pref, scanRange, (reserved - {pref}) + handed, probe);
      if p.None? {
        return None;
      }
      handed := handed + {p.value};
      r := Some(p.value);
    }

    /** The endpoint loop: a business port and a management port for each pair of preferences. */
    method AutoPairs(service: seq<nat>, mgmt: seq<nat>, reserved: set<int>, probe: int -> bool, ghost extra: seq<nat>)
      returns (ok: bool, service': seq<nat>, mgmt': seq<nat>)
      modifies this`handed
      ensures !ok ==> old(Outcome(Zip(service, mgmt) + extra, reserved, probe)).None?
      ensures ok ==> |service'| == |mgmt'| == Shorter(|service|, |mgmt|)
      ensures ok ==> Continues(old(Outcome(Zip(service, mgmt) + extra, reserved, probe)), Zip(service', mgmt'),
                               Outcome(extra, reserved, probe))
    {
      hide Assign, FirstFree, Zip, Continues;
      ok, service', mgmt' := true, [], [];
      ghost var whole := Outcome(Zip(service, mgmt) + extra, reserved, probe);
      assert service[0..] == service && mgmt[0..] == mgmt;
      ContinuesFromStart(whole);
      ZipEmpty();
      var i := 0;
      while i < |service| && i < |mgmt|
        invariant 0 <= i <= |service| && i <= |mgmt| && |service'| == |mgmt'| == i
        invariant Continues(whole, Zip(service', mgmt'), Outcome(Zip(service[i..], mgmt[i..]) + extra, reserved, probe))
      {
        ghost var rest := Zip(service[i + 1..], mgmt[i + 1..]) + extra;
        ZipStep(service, mgmt, i);
        assert [service[i], mgmt[i]] + Zip(service[i + 1..], mgmt[i + 1..]) + extra ==
               [service[i]] + ([mgmt[i]] + rest);
        Advance(whole, Zip(service', mgmt'), service[i], [mgmt[i]] + rest, reserved, handed, scanRange, probe);
        var s := Auto(service[i], reserved, probe);
        if s.None? {
          return false, [], [];
        }
        Advance(whole, Zip(service', mgmt') + [s.value], mgmt[i], rest, reserved, handed, scanRange, probe);
        var m := Auto(mgmt[i], reserved, probe);
        if m.None? {
          return false, [], [];
        }
        ZipAppend(service', mgmt', s.value, m.value);
        assert Zip(service', mgmt') + [s.value] + [m.value] == Zip(service', mgmt') + [s.value, m.value];
        service', mgmt' := service' + [s.value], mgmt' + [m.value];
        i := i + 1;
      }
      ZipEnd(service, mgmt, i);
      assert [] + extra == extra;
    }

    /** One optional single-container port. */
    method AutoOptional(pref: Option<nat>, reserved: set<int>, probe: int -> bool, ghost extra: seq<nat>)
      returns (ok: bool, r: Option<nat>)
      modifies this`handed
      ensures !ok ==> old(Outcome(Present(pref) + extra, reserved, probe)).None?
      ensures ok ==> r.Some? == pref.Some? && Continues(old(Outcome(Present(pref) + extra, reserved, probe)),
                                                         Present(r), Outcome(extra, reserved, probe))
    {
      if pref.None? {
        assert [] + extra == extra;
        ContinuesFromStart(Outcome(extra, reserved, probe));
        return true, None;
      }
      ghost var whole := Outcome([pref.value] + extra, reserved, probe);
      ContinuesFromStart(whole);
      Advance(whole, [], pref.value, extra, reserved, handed, scanRange, probe);
      r := Auto(pref.value, reserved, probe);
      ok := r.Some?;
      assert ok ==> [] + [r.value] == Present(r);
    }

    /** The single-container ports, in order; each is written as soon as it is assigned. */
    method AutoExtra(reserved: set<int>, probe: int -> bool) returns (ok: bool)
      modifies this
      ensures !ok ==> old(Outcome(ports.Singles(), reserved, probe)).None?
      ensures ok ==> old(Outcome(ports.Singles(), reserved, probe)) == Some(ports.Singles())
      ensures ports == old(ports).(kv := ports.kv, lookupRpc := ports.lookupRpc, dpRpc := ports.dpRpc)
      ensures ports.SameSingles(old(ports))
    {
      hide Assign, FirstFree, Present;
      var c := ports;
      ghost var third := Present(c.dpRpc) + [];
      ghost var second := Present(c.lookupRpc) + third;
      assert c.Singles() == Present(c.kv) + second;
      var kv, lookupRpc, dpRpc;
      ok, kv := AutoOptional(c.kv, reserved, probe, second);
      if !ok {
        return;
      }
      ports := ports.(kv := kv);
      ok, lookupRpc := AutoOptional(c.lookupRpc, reserved, probe, third);
      if !ok {
        return;
      }
      ports := ports.(lookupRpc := lookupRpc);
      ok, dpRpc := AutoOptional(c.dpRpc, reserved, probe, []);
      if !ok {
        return;
      }
      ports := ports.(dpRpc := dpRpc);
      AssignNothing(reserved, handed, scanRange, probe);
      assert Present(dpRpc) + [] == Present(dpRpc);
      assert Present(kv) + (Present(lookupRpc) + Present(dpRpc)) == ports.Singles();
    }

    /**
      The whole setup.  On success the ports are rewritten to the assignment; on failure a port conflict is raised and
      only the ports assigned before it have changed.
     */
    method ApplyNodeManagerPorts(probe: int -> bool) returns (ok: bool)
      modifies this
      ensures ok <==> Assign(old(ports).Preferences(), old(ports).Reserved(), {}, scanRange, probe).Some?
      ensures ok ==> Assign(old(ports).Preferences(), old(ports).Reserved(), {}, scanRange, probe) ==
                     Some(ports.Preferences())
      ensures ok ==> |ports.service| == |ports.mgmt| == Shorter(|old(ports).service|, |old(ports).mgmt|)
      ensures ports.single == old(ports).single && ports.SameSingles(old(ports))
      ensures !ports.single ==>
                ports == old(ports).(manager := ports.manager, service := ports.service, mgmt := ports.mgmt)
    {
      hide Assign, FirstFree, Zip, Present;
      handed := {};
      var c, reserved := ports, ports.Reserved();
      ghost var whole := Outcome(c.Preferences(), reserved, probe);
      ghost var rest := Zip(c.service, c.mgmt) + c.Extra();
      assert c.Preferences() == [c.manager] + rest;
      ContinuesFromStart(whole);
      Advance(whole, [], c.manager, rest, reserved, handed, scanRange, probe);
      var manager := Auto(c.manager, reserved, probe);
      if manager.None? {
        return false;
      }
      ports := ports.(manager := manager.value);
      assert [] + [manager.value] == [manager.value];
      var service, mgmt;
      ok, service, mgmt := AutoPairs(c.service, c.mgmt, reserved, probe, c.Extra());
      if !ok {
        return;
      }
      ports := ports.(service := service, mgmt := mgmt);
      Chain(whole, [manager.value], Zip(service, mgmt), Outcome(c.Extra(), reserved, probe));
      if !c.single {
        AssignNothing(reserved, handed, scanRange, probe);
        return;
      }
      ok := AutoExtra(reserved, probe);
    }
  }

  lemma AssignNothing(reserved: set<int>, handed: set<int>, scan: nat, probe: int -> bool)
    ensures Assign([], reserved, handed, scan, probe) == Some([])
  {
  }

  /** The outcome of the whole is what is done so far, followed by the outcome of the rest. */
  ghost predicate Continues(whole: Option<seq<int>>, done: seq<int>, rest: Option<seq<int>>) {
    whole == if rest.None? then None else Some(done + rest.value)
  }

  lemma ContinuesFromStart(whole: Option<seq<int>>)
    ensures Continues(whole, [], whole)
  {
    assert whole.Some? ==> [] + whole.value == whole.value;
  }

  lemma Chain(whole: Option<seq<int>>, a: seq<int>, b: seq<int>, rest: Option<seq<int>>)
    requires exists mid :: Continues(whole, a, mid) && Continues(mid, b, rest)
    ensures Continues(whole, a + b, rest)
  {
    assert rest.Some? ==> a + (b + rest.value) == (a + b) + rest.value;
  }

  lemma Advance(whole: Option<seq<int>>, done: seq<int>, pref: nat, prefs: seq<nat>, reserved: set<int>,
                handed: set<int>, scan: nat, probe: int -> bool)
    requires Continues(whole, done, Assign([pref] + prefs, reserved, handed, scan, probe))
    ensures var p := FirstFree(pref, pref + scan, (reserved - {pref}) + handed, probe);
            if p.None? then whole.None?
            else Continues(whole, done + [p.value], Assign(prefs, reserved, handed + {p.value}, scan, probe))
  {
    var p := FirstFree(pref, pref + scan, (reserved - {pref}) + handed, probe);
    assert ([pref] + prefs)[1..] == prefs;
    if p.Some? {
      var rest := Assign(prefs, reserved, handed + {p.value}, scan, probe);
      assert rest.Some? ==> done + ([p.value] + rest.value) == (done + [p.value]) + rest.value;
    }
  }

  lemma ZipStep(a: seq<nat>, b: seq<nat>, i: nat)
    requires i < |a| && i < |b|
    ensures Zip(a[i..], b[i..]) == [a[i], b[i]] + Zip(a[i + 1..], b[i + 1..])
  {
    assert a[i..][1..] == a[i + 1..] && b[i..][1..] == b[i + 1..];
  }

  lemma ZipEnd(a: seq<nat>, b: seq<nat>, i: nat)
    requires i <= |a| && i <= |b| && (i == |a| || i == |b|)
    ensures Zip(a[i..], b[i..]) == []
  {
  }

  lemma ZipEmpty()
    ensures Zip([], []) == []
  {
  }
}
