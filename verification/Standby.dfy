/**
  The master/standby loop as one process runs it, against arbitrary outcomes of its remote calls.

  Remote calls are inputs: each method takes the outcomes its calls would have and reports which calls it made.
 */
module Standby {
  import opened Options
  import EtcdStore
  import opened Election

  datatype Rpc<+T> = Reply(value: T) | Failed

  /** The lock half of the etcd client: `leases` maps namespaced lock keys to the leases it tracks. */
  class EtcdClient {
    const ns: string
    const job: string
    var leases: map<string, LeaseId>

    constructor (ns: string, job: string)
      ensures this.ns == ns && this.job == job && leases == map[]
    {
      this.ns, this.job, leases := ns, job, map[];
    }

    function Name(lockKey: string): string {
      EtcdStore.Namespaced(ns, job, lockKey)
    }

    /** A lease granted during an acquisition that fails is handed to LeaseRevoke. */
    method AcquireLock(lockKey: string, grant: Rpc<LeaseId>, put: Rpc<bool>) returns (ok: bool, revoke: Option<LeaseId>)
      modifies this
      ensures ok == (Name(lockKey) !in old(leases) && grant.Reply? && put == Reply(true))
      ensures leases == if ok then old(leases)[Name(lockKey) := grant.value] else old(leases)
      ensures revoke == if !ok && Name(lockKey) !in old(leases) && grant.Reply? then Some(grant.value) else None
    {
      ok, revoke := false, None;
      if Name(lockKey) in leases {
        return;
      }
      match grant
      case Failed =>
      case Reply(lease) =>
        if put == Reply(true) {
          leases := leases[Name(lockKey) := lease];
          ok := true;
        } else {
          revoke := Some(lease);
        }
    }

    /** A failed renewal forgets the lease without revoking it; an unknown lock fails without a call. */
    method RenewLease(lockKey: string, ttl: Rpc<int>) returns (ok: bool, called: bool)
      modifies this
      ensures called == (Name(lockKey) in old(leases))
      ensures ok == (called && ttl.Reply? && ttl.value > 0)
      ensures leases == if ok then old(leases) else old(leases) - {Name(lockKey)}
    {
      called := Name(lockKey) in leases;
      ok := called && ttl.Reply? && ttl.value > 0;
      if called && !ok {
        leases := leases - {Name(lockKey)};
      }
    }

    method ReleaseLock(lockKey: string, revoked: bool) returns (ok: bool, called: bool)
      modifies this
      ensures called == (Name(lockKey) in old(leases))
      ensures ok == (called && revoked)
      ensures leases == old(leases) - {Name(lockKey)}
    {
      called := Name(lockKey) in leases;
      ok := called && revoked;
      leases := leases - {Name(lockKey)};
    }
  }

  /** What one pass through the loop meets: the replies to its calls, and whether stop_event is set before it locks. */
  datatype Turn = Turn(renewals: seq<Rpc<int>>, stopping: bool, grant: Rpc<LeaseId>, put: Rpc<bool>)

  ghost predicate WellFormedTurn(t: Turn) {
    |t.renewals| == MAX_RETRIES + 1
  }

  predicate Renewed(ttl: Rpc<int>) {
    ttl.Reply? && ttl.value > 0
  }

  /** The role after one pass.  Of the three renewal replies only the first has a say. */
  function NextRole(role: Role, t: Turn, maxFailures: nat): Role
    requires WellFormedTurn(t)
  {
    match role
    case Master => if Renewed(t.renewals[0]) then Master else Election.Standby
    case Standby =>
      if maxFailures > 0 && !t.stopping && t.grant.Reply? && t.put == Reply(true) then Master else Election.Standby
  }

  /** The roles a pod has at its successive loop heads. */
  function RoleTrace(role: Role, turns: seq<Turn>, maxFailures: nat): (roles: seq<Role>)
    requires forall i :: 0 <= i < |turns| ==> WellFormedTurn(turns[i])
    ensures |roles| == |turns| + 1 && roles[0] == role
    ensures forall i :: 0 <= i < |turns| ==> roles[i + 1] == NextRole(roles[i], turns[i], maxFailures)
    decreases |turns|
  {
    if turns == [] then [role]
    else
      var rest := RoleTrace(NextRole(role, turns[0], maxFailures), turns[1..], maxFailures);
      [role] + rest
  }

  /** From head `k` on, every renewal up to head `n` is answered with time left to live. */
  ghost predicate KeptFrom(turns: seq<Turn>, k: nat, n: nat)
    requires k <= n <= |turns|
  {
    forall j :: k <= j < n ==>
      |turns[j].renewals| > 0 && turns[j].renewals[0].Reply? && turns[j].renewals[0].value > 0
  }

  /** The turn is one in which a standby takes the lock. */
  ghost predicate TakesLock(t: Turn, maxFailures: nat) {
    maxFailures > 0 && !t.stopping && t.grant.Reply? && t.put.Reply? && t.put.value
  }

  /**
    Why a pod is master at head `n`: it was standby at some earlier head, took the lock in that turn and has renewed it
    in every turn since; or it was master from the start and has renewed all along.
   */
  ghost predicate MasterSince(roles: seq<Role>, turns: seq<Turn>, maxFailures: nat, n: nat)
    requires n <= |turns| && |roles| == |turns| + 1
  {
    || (exists k :: 0 <= k < n && roles[k] == Election.Standby && TakesLock(turns[k], maxFailures)
                    && KeptFrom(turns, k + 1, n))
    || (roles[0] == Master && KeptFrom(turns, 0, n))
  }

  /** The roles at the loop heads, told from the outcomes of the remote calls alone. */
  lemma {:induction false} MasterExactly(role: Role, turns: seq<Turn>, maxFailures: nat, n: nat)
    requires n <= |turns| && forall i :: 0 <= i < |turns| ==> WellFormedTurn(turns[i])
    ensures RoleTrace(role, turns, maxFailures)[n] == Master <==>
              MasterSince(RoleTrace(role, turns, maxFailures), turns, maxFailures, n)
  {
    var roles := RoleTrace(role, turns, maxFailures);
    if n > 0 {
      MasterExactly(role, turns, maxFailures, n - 1);
      assert roles[n] == NextRole(roles[n - 1], turns[n - 1], maxFailures);
      if roles[n - 1] == Master {
        MasterGoesOn(roles, turns, maxFailures, n);
      } else {
        StandbyGoesOn(roles, turns, maxFailures, n);
      }
    }
  }

  lemma MasterGoesOn(roles: seq<Role>, turns: seq<Turn>, maxFailures: nat, n: nat)
    requires 0 < n <= |turns| && |roles| == |turns| + 1 && WellFormedTurn(turns[n - 1])
    requires roles[n - 1] == Master && MasterSince(roles, turns, maxFailures, n - 1)
    ensures MasterSince(roles, turns, maxFailures, n) <==> Renewed(turns[n - 1].renewals[0])
  {
    if Renewed(turns[n - 1].renewals[0]) {
      if k :| 0 <= k < n - 1 && roles[k] == Election.Standby && TakesLock(turns[k], maxFailures)
              && KeptFrom(turns, k + 1, n - 1) {
        assert KeptFrom(turns, k + 1, n);
      } else {
        assert KeptFrom(turns, 0, n);
      }
    }
  }

  lemma StandbyGoesOn(roles: seq<Role>, turns: seq<Turn>, maxFailures: nat, n: nat)
    requires 0 < n <= |turns| && |roles| == |turns| + 1
    requires roles[n - 1] == Election.Standby && !MasterSince(roles, turns, maxFailures, n - 1)
    ensures MasterSince(roles, turns, maxFailures, n) <==> TakesLock(turns[n - 1], maxFailures)
  {
    if TakesLock(turns[n - 1], maxFailures) {
      assert KeptFrom(turns, n, n);
    } else {
      forall k | 0 <= k < n - 1 && roles[k] == Election.Standby && TakesLock(turns[k], maxFailures)
        ensures !KeptFrom(turns, k + 1, n)
      {
        assert !KeptFrom(turns, k + 1, n - 1);
      }
    }
  }

  class StandbyManager {
    const client: EtcdClient
    const lockKey: string
    const maxFailures: nat
    var role: Role

    constructor (client: EtcdClient, lockKey: string, maxFailures: nat)
      ensures this.client == client && this.lockKey == lockKey && this.maxFailures == maxFailures
      ensures role == Election.Standby
    {
      this.client, this.lockKey, this.maxFailures, role := client, lockKey, maxFailures, Election.Standby;
    }

    predicate Tracks()
      reads client
    {
      client.Name(lockKey) in client.leases
    }

    /** The loop-head invariant: master exactly when the client tracks a lease for the master key. */
    ghost predicate Coherent()
      reads this, client
    {
      role == Master <==> Tracks()
    }

    /**
      The documented retries are idle: the first failure drops the lease, so the verdict is the first reply's and at
      most one keepalive is ever sent.
     */
    method RenewMasterLock(replies: seq<Rpc<int>>) returns (ok: bool, calls: nat)
      requires |replies| == MAX_RETRIES + 1
      modifies client
      ensures ok == (role == Master && old(Tracks()) && Renewed(replies[0]))
      ensures calls == if role == Master && old(Tracks()) then 1 else 0
      ensures client.leases ==
                if ok || role != Master then old(client.leases) else old(client.leases) - {client.Name(lockKey)}
    {
      ok, calls := false, 0;
      if role != Master {
        return;
      }
      var attempt := 0;
      while attempt <= MAX_RETRIES
        invariant 0 <= attempt <= MAX_RETRIES + 1
        invariant attempt == 0 ==> calls == 0 && client.leases == old(client.leases)
        invariant attempt > 0 ==> !(old(Tracks()) && Renewed(replies[0]))
        invariant attempt > 0 ==> client.leases == old(client.leases) - {client.Name(lockKey)}
        invariant attempt > 0 ==> calls == if old(Tracks()) then 1 else 0
      {
        var renewed, called := client.RenewLease(lockKey, replies[attempt]);
        calls := if called then calls + 1 else calls;
        if renewed {
          return true, calls;
        }
        attempt := attempt + 1;
      }
    }

    /** acquire_lock reports every failure as "not acquired", so the retry loop around it runs at most once. */
    method TryBecomeMaster(t: Turn) returns (ok: bool)
      requires Coherent() && role == Election.Standby
      modifies this, client
      ensures ok == (maxFailures > 0 && !t.stopping && t.grant.Reply? && t.put == Reply(true))
      ensures role == if ok then Master else Election.Standby
      ensures Coherent()
      ensures client.leases ==
                if ok then old(client.leases)[client.Name(lockKey) := t.grant.value] else old(client.leases)
    {
      ok := false;
      if maxFailures > 0 && !t.stopping {
        var acquired, _ := client.AcquireLock(lockKey, t.grant, t.put);
        role := if acquired then Master else Election.Standby;
        ok := acquired;
      }
    }

    /** The whole loop: `turns` are the passes until stop_event is seen, `revoked` the fate of the final revoke. */
    method MasterStandbyLoop(turns: seq<Turn>, revoked: bool) returns (roles: seq<Role>)
      requires Coherent() && forall i :: 0 <= i < |turns| ==> WellFormedTurn(turns[i])
      modifies this, client
      ensures roles == RoleTrace(old(role), turns, maxFailures)
      ensures |roles| == |turns| + 1 && roles[0] == old(role)
      ensures forall n :: 0 <= n <= |turns| ==> (roles[n] == Master <==> MasterSince(roles, turns, maxFailures, n))
      ensures role == Election.Standby && !Tracks()
      ensures client.leases - {client.Name(lockKey)} == old(client.leases) - {client.Name(lockKey)}
    {
      hide MasterSince;
      ghost var trace := RoleTrace(role, turns, maxFailures);
      roles := [role];
      var i := 0;
      while i < |turns|
        invariant 0 <= i <= |turns| && Coherent()
        invariant roles == trace[..i + 1] && trace[i] == role
        invariant client.leases - {client.Name(lockKey)} == old(client.leases) - {client.Name(lockKey)}
      {
        if role == Master {
          var renewed, _ := RenewMasterLock(turns[i].renewals);
          if !renewed {
            role := Election.Standby;
          }
        } else {
          var _ := TryBecomeMaster(turns[i]);
        }
        assert trace[i + 1] == NextRole(trace[i], turns[i], maxFailures) == role;
        roles := roles + [role];
        i := i + 1;
      }
      assert roles == trace;
      forall n | 0 <= n <= |turns| ensures roles[n] == Master <==> MasterSince(roles, turns, maxFailures, n) {
        MasterExactly(old(role), turns, maxFailures, n);
      }
      if role == Master {
        var _, _ := client.ReleaseLock(lockKey, revoked);
        role := Election.Standby;
      }
    }
  }
}
