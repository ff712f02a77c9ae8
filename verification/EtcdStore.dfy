/** The etcd client's key space: namespacing, prefix queries, and the persist/restore pair built on them. */
module EtcdStore {
  import opened Options
  import opened Utf8
  import Lex

  type Key = seq<Byte>

  // ---------------------------------------------------------------- namespacing

  function Base(ns: string, job: string): string {
    ns + "/" + job
  }

  function Namespaced(ns: string, job: string, key: string): string {
    if Base(ns, job) + "/" <= key then key else Base(ns, job) + key
  }

  /** Namespacing twice is namespacing once exactly for the keys the client's documentation asks for. */
  lemma NamespacedTwice(ns: string, job: string, key: string)
    ensures (Namespaced(ns, job, Namespaced(ns, job, key)) == Namespaced(ns, job, key)) <==>
              (Base(ns, job) + "/" <= key || "/" <= key)
  {
    PrefixCancel(Base(ns, job), "/", key);
  }

  lemma PrefixCancel(b: string, x: string, y: string)
    ensures b + x <= b + y <==> x <= y
  {
    assert (b + y)[|b|..] == y && (b + x)[|b|..] == x;
    if x <= y {
      assert b + y == (b + x) + y[|x|..];
    }
    if b + x <= b + y {
      assert (b + y)[..|b + x|] == b + x;
      assert y[..|x|] == (b + y)[|b|..|b| + |x|] == x;
    }
  }

  // ---------------------------------------------------------------- prefix queries

  /** The last byte below 0xFF is incremented; bytes after it stay. */
  function RangeEnd(p: Key): (end: Key)
    ensures |end| == |p|
  {
    if p == [] then []
    else
      var n := |p| - 1;
      if p[n] < 0xFF then p[..n] + [p[n] + 1] else RangeEnd(p[..n]) + [p[n]]
  }

  /** The in-place edit of the prefix's bytes. */
  method PrefixRangeEnd(bytes: Key) returns (end: Key)
    ensures end == RangeEnd(bytes)
  {
    var s := new Byte[|bytes|](i requires 0 <= i < |bytes| => bytes[i]);
    assert s[..] == bytes && bytes[..|bytes|] == bytes && bytes[|bytes|..] == [];
    assert RangeEnd(bytes) + [] == RangeEnd(bytes);
    hide RangeEnd;
    var i := s.Length;
    while i > 0
      invariant 0 <= i <= s.Length && s[..] == bytes
      invariant RangeEnd(bytes) == RangeEnd(bytes[..i]) + bytes[i..]
    {
      i := i - 1;
      RangeEndAt(bytes, i);
      if s[i] < 0xFF {
        s[i] := s[i] + 1;
        assert s[..] == bytes[..i] + [bytes[i] + 1] + bytes[i + 1..];
        return s[..];
      }
    }
    RangeEndOfNothing(bytes);
    end := s[..];
  }

  lemma {:induction false} RangeEndAt(p: Key, i: nat)
    requires i < |p| && RangeEnd(p) == RangeEnd(p[..i + 1]) + p[i + 1..]
    ensures RangeEnd(p) == if p[i] < 0xFF then p[..i] + [p[i] + 1] + p[i + 1..] else RangeEnd(p[..i]) + p[i..]
  {
    hide RangeEnd;
    RangeEndUnfold(p[..i + 1]);
    assert p[..i + 1][..i] == p[..i] && p[i..] == [p[i]] + p[i + 1..];
    Rejoin(RangeEnd(p[..i]), p[i], p[i + 1..]);
  }

  lemma {:induction false} RangeEndUnfold(p: Key)
    requires p != []
    ensures var n := |p| - 1; RangeEnd(p) == if p[n] < 0xFF then p[..n] + [p[n] + 1] else RangeEnd(p[..n]) + [p[n]]
  {
  }

  lemma Rejoin(a: Key, b: Byte, c: Key)
    ensures a + [b] + c == a + ([b] + c)
  {
  }

  lemma RangeEndOfNothing(p: Key)
    requires RangeEnd(p) == RangeEnd(p[..0]) + p[0..]
    ensures RangeEnd(p) == p
  {
    assert p[..0] == [] && p[0..] == p;
  }

  /** The keys a range request covers; an empty end asks for a single key, a zero byte for everything from the start. */
  predicate InRange(k: Key, from: Key, end: Key) {
    if end == [] then k == from
    else if end == [0] then !Lex.Less(k, from)
    else !Lex.Less(k, from) && Lex.Less(k, end)
  }

  lemma {:induction false} RangeIsPrefix(p: Key, k: Key)
    requires p != [] && p[|p| - 1] < 0xFF
    ensures InRange(k, p, RangeEnd(p)) <==> p <= k
  {
    var n := |p| - 1;
    var end := p[..n] + [p[n] + 1];
    if n == 0 {
      assert RangeEnd(p) == [p[0] + 1] && p == [p[0]] && p[1..] == [];
      assert k != [] ==> !Lex.Less(k[1..], p[1..]);
      assert p <= k <==> k != [] && k[0] == p[0];
    } else {
      assert p[1..][..n - 1] == p[..n][1..];
      assert end[1..] == RangeEnd(p[1..]) && end[0] == p[0];
      if k != [] {
        RangeIsPrefix(p[1..], k[1..]);
        assert p <= k <==> p[0] == k[0] && p[1..] <= k[1..];
      }
    }
  }

  /** The range holds the key exactly when the key has the prefix. */
  ghost predicate AnsweredRight(p: Key, k: Key) {
    InRange(k, p, RangeEnd(p)) <==> p <= k
  }

  /** The byte range is exactly the prefix's keys when, and only when, the prefix ends in a byte below 0xFF. */
  lemma RangeExactlyPrefix(p: Key)
    ensures (forall k: Key :: AnsweredRight(p, k)) <==> p != [] && p[|p| - 1] < 0xFF
  {
    if p == [] {
      var k: Key := [0];
      assert RangeEnd(p) == [] && !InRange(k, p, RangeEnd(p)) && p <= k;
      assert !AnsweredRight(p, k);
    } else if p[|p| - 1] < 0xFF {
      forall k: Key ensures AnsweredRight(p, k) { RangeIsPrefix(p, k); }
    } else {
      var k := RangeTooWide(p);
      assert !AnsweredRight(p, k);
    }
  }

  /** Behind a trailing 0xFF the range holds a stranger, or nothing at all. */
  lemma {:induction false} RangeTooWide(p: Key) returns (k: Key)
    requires p != [] && p[|p| - 1] == 0xFF
    ensures !(InRange(k, p, RangeEnd(p)) <==> p <= k)
  {
    var i := |p|;
    while i > 0 && p[i - 1] == 0xFF
      invariant 0 <= i <= |p|
      invariant forall j :: i <= j < |p| ==> p[j] == 0xFF
    {
      i := i - 1;
    }
    hide RangeEnd, InRange;
    EndAfter(p, i);
    if i == 0 {
      k := p;
      NothingInRange(p);
    } else {
      k := p[..i - 1] + [p[i - 1] + 1];
      StrangerInRange(p[..i - 1], p[i - 1], p[i..]);
      assert p == p[..i - 1] + [p[i - 1]] + p[i..];
    }
  }

  /** All bytes are 0xFF, so the end is the prefix itself. */
  lemma NothingInRange(p: Key)
    requires p != [] && p[|p| - 1] == 0xFF
    ensures !InRange(p, p, p) && p <= p
  {
    Lex.Irreflexive(p);
  }

  /** The key that ends in the incremented byte lies between the prefix and its end, without having the prefix. */
  lemma StrangerInRange(q: Key, b: Byte, tail: Key)
    requires b < 0xFF && tail != []
    ensures InRange(q + [b + 1], q + [b] + tail, q + [b + 1] + tail) && !(q + [b] + tail <= q + [b + 1])
  {
    var k, p, end := q + [b + 1], q + [b] + tail, q + [b + 1] + tail;
    assert p == q + ([b] + tail) && end == q + ([b + 1] + tail);
    AfterCommon(q, [b + 1], [b] + tail);
    AfterCommon(q, [b + 1], [b + 1] + tail);
    assert !Lex.Less([b + 1], [b] + tail);
    assert [b + 1][1..] == [] && ([b + 1] + tail)[1..] == tail && Lex.Less([b + 1], [b + 1] + tail);
    assert |p| > |k| && |end| > 1;
  }

  lemma {:induction false} EndAfter(p: Key, i: nat)
    requires i <= |p| && (forall j :: i <= j < |p| ==> p[j] == 0xFF) && (i > 0 ==> p[i - 1] < 0xFF)
    ensures RangeEnd(p) == if i == 0 then p else p[..i - 1] + [p[i - 1] + 1] + p[i..]
    decreases |p|
  {
    hide RangeEnd;
    if i < |p| {
      EndAfter(p[..|p| - 1], i);
      RangeEndUnfold(p);
      Bumped(p, i);
    } else if i > 0 {
      RangeEndUnfold(p);
      assert p[i..] == [];
    } else {
      EmptyEnd();
    }
  }

  lemma EmptyEnd()
    ensures RangeEnd([]) == []
  {
  }

  /** A last byte may be put back after the one before it was incremented. */
  lemma Bumped(p: Key, i: nat)
    requires i < |p| && (i > 0 ==> p[i - 1] < 0xFF)
    ensures var n := |p| - 1; var front := p[..n];
            (if i == 0 then front else front[..i - 1] + [front[i - 1] + 1] + front[i..]) + [p[n]] ==
            if i == 0 then p else p[..i - 1] + [p[i - 1] + 1] + p[i..]
  {
    var n := |p| - 1;
    var front := p[..n];
    if i > 0 {
      assert front[..i - 1] == p[..i - 1];
      assert front[i..] + [p[n]] == p[i..];
      Rejoin3(p[..i - 1], p[i - 1] + 1, front[i..], p[n]);
    }
  }

  lemma Rejoin3(a: Key, b: Byte, c: Key, d: Byte)
    ensures a + [b] + c + [d] == a + [b] + (c + [d])
  {
  }

  lemma {:induction false} AfterCommon(q: seq<int>, a: seq<int>, b: seq<int>)
    ensures Lex.Less(q + a, q + b) == Lex.Less(a, b)
  {
    if q == [] {
      assert q + a == a && q + b == b;
    } else {
      assert (q + a)[1..] == q[1..] + a && (q + b)[1..] == q[1..] + b;
      AfterCommon(q[1..], a, b);
    }
  }

  lemma NotBoth(a: seq<int>, b: seq<int>)
    ensures !(Lex.Less(a, b) && Lex.Less(b, a))
  {
    if Lex.Less(a, b) && Lex.Less(b, a) {
      Lex.Transitive(a, b, a);
      Lex.Irreflexive(a);
    }
  }

  /** On text keys the query never errs: a UTF-8 prefix cannot end in 0xFF. */
  lemma PrefixQueryExact(prefix: string, key: string)
    requires prefix != ""
    ensures InRange(Encode(key), Encode(prefix), RangeEnd(Encode(prefix))) <==> prefix <= key
  {
    PrefixIffBytePrefix(prefix, key);
    RangeIsPrefix(Encode(prefix), Encode(key));
  }

  // ---------------------------------------------------------------- persist and restore

  /** A dictionary as the list of its items, in insertion order. */
  type Items<V> = seq<(string, V)>

  ghost predicate DistinctKeys<V>(items: Items<V>) {
    forall i, j :: 0 <= i < j < |items| ==> items[i].0 != items[j].0
  }

  function Dict<V>(items: Items<V>): map<string, V> {
    if items == [] then map[] else Dict(items[..|items| - 1])[items[|items| - 1].0 := items[|items| - 1].1]
  }

  /** Where the client keeps one data item, and what prefix it reads them back from. */
  datatype Client = Client(ns: string, job: string) {
    function Root(prefix: string): string {
      Namespaced(ns, job, prefix)
    }

    function Slot(prefix: string, k: string): string {
      Namespaced(ns, job, prefix + "/" + k)
    }

    predicate Covers(prefix: string, key: Key) {
      InRange(key, Encode(Root(prefix)), RangeEnd(Encode(Root(prefix))))
    }
  }

  function Without<V>(c: Client, kv: map<Key, V>, prefix: string): map<Key, V> {
    map key | key in kv && !c.Covers(prefix, key) :: kv[key]
  }

  function PutAll<V>(c: Client, kv: map<Key, V>, prefix: string, items: Items<V>): map<Key, V> {
    if items == [] then kv
    else
      var last := items[|items| - 1];
      PutAll(c, kv, prefix, items[..|items| - 1])[Encode(c.Slot(prefix, last.0)) := last.1]
  }

  lemma PutOneMore<V>(c: Client, kv: map<Key, V>, prefix: string, items: Items<V>, i: nat)
    requires i < |items|
    ensures PutAll(c, kv, prefix, items[..i + 1]) ==
            PutAll(c, kv, prefix, items[..i])[Encode(c.Slot(prefix, items[i].0)) := items[i].1]
  {
    assert items[..i + 1][..i] == items[..i];
  }

  lemma PutNone<V>(c: Client, kv: map<Key, V>, prefix: string, items: Items<V>)
    ensures PutAll(c, kv, prefix, items[..0]) == kv
  {
  }

  /** A remote call is answered, fails before the server acts on it, or fails after. */
  datatype Call = Answered | Unserved | Unheard

  /** How many writes are answered before the first one that is not. */
  function Completed(calls: seq<Call>): (n: nat)
    ensures n <= |calls| && (forall i :: 0 <= i < n ==> calls[i].Answered?) && (n < |calls| ==> !calls[n].Answered?)
  {
    if calls == [] || !calls[0].Answered? then 0 else 1 + Completed(calls[1..])
  }

  /** How many writes reach the store; the one that ends the loop may have. */
  function Written(calls: seq<Call>): (n: nat)
    ensures Completed(calls) <= n <= |calls|
    ensures forall i :: 0 <= i < |calls| ==>
              (i < n <==> !calls[i].Unserved? && forall j :: 0 <= j < i ==> calls[j].Answered?)
  {
    var n := Completed(calls);
    if n < |calls| && calls[n].Unheard? then n + 1 else n
  }

  function DropChars(s: string, n: nat): string {
    if n <= |s| then s[n..] else ""
  }

  /** get_prefix_data over the keys of a range reply, in the order received; a key that is not UTF-8 voids it all. */
  function Rebuild<V>(kv: map<Key, V>, keys: seq<Key>, rootLen: nat): Option<map<string, V>>
    requires forall key :: key in keys ==> key in kv
  {
    if keys == [] then Some(map[])
    else
      var key := keys[|keys| - 1];
      var before, text := Rebuild(kv, keys[..|keys| - 1], rootLen), Decode(key);
      if before.None? || text.None? then None
      else Some(before.value[DropChars(text.value, rootLen + 1) := kv[key]])
  }

  ghost function RangeReply<V>(c: Client, kv: map<Key, V>, prefix: string): (keys: seq<Key>)
    ensures forall key :: key in keys <==> key in kv && c.Covers(prefix, key)
    ensures forall i, j :: 0 <= i < j < |keys| ==> keys[i] != keys[j] && Lex.Less(keys[i], keys[j])
  {
    var found: set<Key> := set key | key in kv && c.Covers(prefix, key);
    var sorted := Lex.Sorted(found);
    assert forall i, j :: 0 <= i < j < |sorted| ==> sorted[i] != sorted[j] by {
      forall i, j | 0 <= i < j < |sorted| ensures sorted[i] != sorted[j] { Lex.Irreflexive(sorted[i]); }
    }
    assert forall i :: 0 <= i < |sorted| ==> sorted[i] in found;
    sorted
  }

  /** What restore_data returns: nothing at all when no item, or no readable item, is found. */
  ghost function Restored<V>(c: Client, kv: map<Key, V>, prefix: string): Option<map<string, V>> {
    var r := Rebuild(kv, RangeReply(c, kv, prefix), |c.Root(prefix)|);
    if r.None? || r.value == map[] then None else r
  }

  class Etcd<V(==)> {
    const client: Client
    var kv: map<Key, V>

    constructor (c: Client)
      ensures client == c && kv == map[]
    {
      client, kv := c, map[];
    }

    method DeletePrefix(prefix: string, call: Call) returns (ok: bool)
      modifies this
      ensures ok == call.Answered?
      ensures kv == if call.Unserved? then old(kv) else Without(client, old(kv), prefix)
    {
      if !call.Unserved? {
        kv := map key | key in kv && !client.Covers(prefix, key) :: kv[key];
      }
      ok := call.Answered?;
    }

    method PutJson(key: string, value: V, call: Call) returns (ok: bool)
      modifies this
      ensures ok == call.Answered?
      ensures kv == if call.Unserved? then old(kv) else old(kv)[Encode(Namespaced(client.ns, client.job, key)) := value]
    {
      if !call.Unserved? {
        kv := kv[Encode(Namespaced(client.ns, client.job, key)) := value];
      }
      ok := call.Answered?;
    }

    /** persist_data: the result of the delete is not looked at, the first write that is not answered ends the loop. */
    method PersistData(prefix: string, data: Items<V>, lockOk: bool, delete: Call, puts: seq<Call>) returns (ok: bool)
      requires |puts| == |data|
      modifies this
      ensures ok == (lockOk && Completed(puts) == |data|)
      ensures !lockOk ==> kv == old(kv)
      ensures lockOk ==>
                var start := if delete.Unserved? then old(kv) else Without(client, old(kv), prefix);
                kv == PutAll(client, start, prefix, data[..Written(puts)])
    {
      if !lockOk {
        return false;
      }
      var _ := DeletePrefix(prefix, delete);
      ghost var start := kv;
      PutNone(client, start, prefix, data);
      hide Without, Namespaced, Encode, PutAll;
      var i := 0;
      while i < |data|
        invariant 0 <= i <= Completed(puts)
        invariant kv == PutAll(client, start, prefix, data[..i])
      {
        var stored := PutJson(prefix + "/" + data[i].0, data[i].1, puts[i]);
        PutOneMore(client, start, prefix, data, i);
        if !stored {
          return false;
        }
        i := i + 1;
      }
      return true;
    }

    /** restore_data, given the server's reply to the range request. */
    method RestoreData(prefix: string, reply: seq<Key>) returns (r: Option<map<string, V>>)
      requires reply == RangeReply(client, kv, prefix)
      ensures r == Restored(client, kv, prefix)
    {
      var data := GetPrefixData(kv, reply, |client.Root(prefix)|);
      r := if data.None? || data.value == map[] then None else data;
    }
  }

  method GetPrefixData<V>(kv: map<Key, V>, reply: seq<Key>, n: nat) returns (r: Option<map<string, V>>)
    requires forall key :: key in reply ==> key in kv
    ensures r == Rebuild(kv, reply, n)
  {
    hide Decode;
    var data: map<string, V> := map[];
    var i := 0;
    while i < |reply|
      invariant 0 <= i <= |reply|
      invariant Rebuild(kv, reply[..i], n) == Some(data)
    {
      var text := Decode(reply[i]);
      assert reply[..i + 1][..i] == reply[..i];
      if text.None? {
        NoneStays(kv, reply, i + 1, n);
        return None;
      }
      data := data[DropChars(text.value, n + 1) := kv[reply[i]]];
      i := i + 1;
    }
    assert reply[..|reply|] == reply;
    r := Some(data);
  }

  lemma {:induction false} NoneStays<V>(kv: map<Key, V>, keys: seq<Key>, i: nat, n: nat)
    requires (forall key :: key in keys ==> key in kv) && i <= |keys| && Rebuild(kv, keys[..i], n).None?
    ensures Rebuild(kv, keys, n).None?
    decreases |keys| - i
  {
    if i < |keys| {
      assert keys[..i + 1][..i] == keys[..i];
      NoneStays(kv, keys, i + 1, n);
    } else {
      assert keys[..i] == keys;
    }
  }
}
