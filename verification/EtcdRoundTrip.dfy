/** persist_data followed by restore_data: when does the client get its dictionary back? */
module EtcdRoundTrip {
  import opened Options
  import opened Utf8
  import opened EtcdStore

  /**
    The item's key is namespaced the same way as the prefix it is read back from.  The one other case that works is
    the empty item key under "/" with neither namespace nor job name, which is stored at the prefix itself.
   */
  predicate Fits(c: Client, prefix: string, k: string) {
    var b := Base(c.ns, c.job);
    || b + "/" <= prefix
    || !(b + "/" <= prefix + "/" + k)
    || (b == "/" && prefix == "/" && k == "")
  }

  function Relative(c: Client, prefix: string, k: string): string {
    DropChars(c.Slot(prefix, k), |c.Root(prefix)| + 1)
  }

  /** The item is found under the prefix and read back under its own name. */
  predicate Faithful(c: Client, prefix: string, k: string) {
    c.Root(prefix) <= c.Slot(prefix, k) && Relative(c, prefix, k) == k
  }

  lemma FitsIsFaithful(c: Client, prefix: string, k: string)
    requires Fits(c, prefix, k)
    ensures Faithful(c, prefix, k)
  {
    var b := Base(c.ns, c.job);
    if b + "/" <= prefix {
      assert prefix <= prefix + "/" + k;
      assert b + "/" <= prefix + "/" + k;
      assert c.Slot(prefix, k) == c.Root(prefix) + ("/" + k);
    } else if !(b + "/" <= prefix + "/" + k) {
      assert b + (prefix + "/" + k) == (b + prefix) + ("/" + k);
    } else {
      assert prefix + "/" + k == "//";
    }
  }

  lemma EmptyNameFits(c: Client, prefix: string)
    requires c.Root(prefix) <= c.Slot(prefix, "")
    ensures Fits(c, prefix, "")
  {
    var b := Base(c.ns, c.job);
    if !(b + "/" <= prefix) && b + "/" <= prefix + "/" {
      assert prefix + "/" + "" == prefix + "/";
      assert |b + prefix| <= |prefix + "/"|;
      assert b == "/" && (b + "/")[0] == (prefix + "/")[0] == '/' && (b + "/")[1] == '/';
      assert |prefix| < 2;
    }
  }

  /** A misfit is read back, if at all, under a strictly shorter name. */
  lemma MisfitShrinks(c: Client, prefix: string, k: string)
    requires !Fits(c, prefix, k) && c.Root(prefix) <= c.Slot(prefix, k)
    ensures |Relative(c, prefix, k)| < |k|
  {
    var b := Base(c.ns, c.job);
    assert c.Slot(prefix, k) == prefix + "/" + k && c.Root(prefix) == b + prefix;
    if k == "" {
      EmptyNameFits(c, prefix);
    }
  }

  // ---------------------------------------------------------------- what is stored

  /** The key of one of the items. */
  ghost predicate IsSlot<V>(c: Client, prefix: string, items: Items<V>, key: Key) {
    exists i :: 0 <= i < |items| && key == Encode(c.Slot(prefix, items[i].0))
  }

  lemma SlotSnoc<V>(c: Client, prefix: string, items: Items<V>, key: Key)
    requires items != []
    ensures IsSlot(c, prefix, items, key) <==>
              IsSlot(c, prefix, items[..|items| - 1], key) || key == Encode(c.Slot(prefix, items[|items| - 1].0))
  {
    hide Encode, Namespaced;
    var n := |items| - 1;
    if i :| 0 <= i < |items| && key == Encode(c.Slot(prefix, items[i].0)) {
      assert i < n ==> items[..n][i] == items[i];
    }
    if i :| 0 <= i < n && key == Encode(c.Slot(prefix, items[..n][i].0)) {
      assert items[..n][i] == items[i];
    }
  }

  lemma {:induction false} StoredKeys<V>(c: Client, kv: map<Key, V>, prefix: string, items: Items<V>, key: Key)
    ensures key in PutAll(c, kv, prefix, items) <==> key in kv || IsSlot(c, prefix, items, key)
    ensures key in kv && !IsSlot(c, prefix, items, key) ==> PutAll(c, kv, prefix, items)[key] == kv[key]
    decreases |items|
  {
    if items == [] {
      assert !IsSlot(c, prefix, items, key);
    } else {
      hide Encode, Namespaced, IsSlot;
      StoredKeys(c, kv, prefix, items[..|items| - 1], key);
      SlotSnoc(c, prefix, items, key);
    }
  }

  lemma {:induction false} StoredValue<V>(c: Client, kv: map<Key, V>, prefix: string, items: Items<V>, i: nat)
    requires i < |items|
    requires forall j :: i < j < |items| ==> c.Slot(prefix, items[j].0) != c.Slot(prefix, items[i].0)
    ensures Encode(c.Slot(prefix, items[i].0)) in PutAll(c, kv, prefix, items)
    ensures PutAll(c, kv, prefix, items)[Encode(c.Slot(prefix, items[i].0))] == items[i].1
    decreases |items|
  {
    if i < |items| - 1 {
      var last := items[|items| - 1];
      StoredValue(c, kv, prefix, items[..|items| - 1], i);
      if Encode(c.Slot(prefix, last.0)) == Encode(c.Slot(prefix, items[i].0)) {
        EncodeInjective(c.Slot(prefix, last.0), c.Slot(prefix, items[i].0));
      }
    }
  }

  lemma {:induction false} DictKeys<V>(items: Items<V>, k: string)
    ensures k in Dict(items) <==> exists i :: 0 <= i < |items| && items[i].0 == k
    decreases |items|
  {
    if items != [] {
      DictKeys(items[..|items| - 1], k);
      if k == items[|items| - 1].0 {
        assert items[|items| - 1].0 == k;
      }
    }
  }

  lemma {:induction false} DictValue<V>(items: Items<V>, i: nat)
    requires DistinctKeys(items) && i < |items|
    ensures items[i].0 in Dict(items) && Dict(items)[items[i].0] == items[i].1
    decreases |items|
  {
    if i < |items| - 1 {
      DictValue(items[..|items| - 1], i);
    }
  }

  // ---------------------------------------------------------------- what is read back

  ghost predicate Readable(keys: seq<Key>) {
    forall j :: 0 <= j < |keys| ==> Decode(keys[j]).Some?
  }

  function NameOf(key: Key, n: nat): string
    requires Decode(key).Some?
  {
    DropChars(Decode(key).value, n + 1)
  }

  lemma {:induction false} RebuildKeys<V>(kv: map<Key, V>, keys: seq<Key>, n: nat)
    requires (forall key :: key in keys ==> key in kv) && Readable(keys)
    ensures Rebuild(kv, keys, n).Some?
    ensures forall j :: 0 <= j < |keys| ==> NameOf(keys[j], n) in Rebuild(kv, keys, n).value
    ensures forall name :: name in Rebuild(kv, keys, n).value ==>
                             exists j :: 0 <= j < |keys| && NameOf(keys[j], n) == name
    decreases |keys|
  {
    hide Decode;
    if keys != [] {
      var front := keys[..|keys| - 1];
      RebuildKeys(kv, front, n);
      assert keys == front + [keys[|keys| - 1]];
      forall name | name in Rebuild(kv, keys, n).value
        ensures exists j :: 0 <= j < |keys| && NameOf(keys[j], n) == name
      {
        if name == NameOf(keys[|keys| - 1], n) {
        } else {
          var j :| 0 <= j < |front| && NameOf(front[j], n) == name;
          assert keys[j] == front[j];
        }
      }
      forall j | 0 <= j < |keys| ensures NameOf(keys[j], n) in Rebuild(kv, keys, n).value {
        if j < |front| {
          assert keys[j] == front[j];
        }
      }
    }
  }

  lemma {:induction false} RebuildValues<V>(kv: map<Key, V>, keys: seq<Key>, n: nat, j: nat)
    requires (forall key :: key in keys ==> key in kv) && Readable(keys) && j < |keys|
    requires forall i :: j < i < |keys| ==> NameOf(keys[i], n) != NameOf(keys[j], n)
    ensures Rebuild(kv, keys, n).Some? && NameOf(keys[j], n) in Rebuild(kv, keys, n).value
    ensures Rebuild(kv, keys, n).value[NameOf(keys[j], n)] == kv[keys[j]]
    decreases |keys|
  {
    hide Decode;
    RebuildKeys(kv, keys, n);
    if j < |keys| - 1 {
      RebuildValues(kv, keys[..|keys| - 1], n, j);
    }
  }

  // ---------------------------------------------------------------- round trip

  /** After a persist whose delete went through, the restore's query finds items of this dictionary and nothing else. */
  lemma ReplyHoldsItems<V>(c: Client, kv: map<Key, V>, prefix: string, items: Items<V>, key: Key) returns (i: nat)
    requires key in RangeReply(c, PutAll(c, Without(c, kv, prefix), prefix, items), prefix)
    ensures i < |items| && key == Encode(c.Slot(prefix, items[i].0))
    ensures c.Root(prefix) <= c.Slot(prefix, items[i].0)
    ensures Decode(key).Some? && NameOf(key, |c.Root(prefix)|) == Relative(c, prefix, items[i].0)
  {
    hide Decode, Encode, Namespaced;
    StoredKeys(c, Without(c, kv, prefix), prefix, items, key);
    i :| i < |items| && key == Encode(c.Slot(prefix, items[i].0));
    RootNotEmpty(c, prefix);
    PrefixQueryExact(c.Root(prefix), c.Slot(prefix, items[i].0));
    NameOfSlot(c, prefix, items[i].0);
  }

  lemma ReplyReadable<V>(c: Client, kv: map<Key, V>, prefix: string, items: Items<V>)
    ensures Readable(RangeReply(c, PutAll(c, Without(c, kv, prefix), prefix, items), prefix))
  {
    hide Decode, Encode, Namespaced, PutAll;
    var keys := RangeReply(c, PutAll(c, Without(c, kv, prefix), prefix, items), prefix);
    forall j | 0 <= j < |keys| ensures Decode(keys[j]).Some? {
      var _ := ReplyHoldsItems(c, kv, prefix, items, keys[j]);
    }
  }

  lemma NameOfSlot(c: Client, prefix: string, k: string)
    ensures Decode(Encode(c.Slot(prefix, k))).Some?
    ensures NameOf(Encode(c.Slot(prefix, k)), |c.Root(prefix)|) == Relative(c, prefix, k)
  {
    DecodeEncode(c.Slot(prefix, k));
  }

  lemma RootNotEmpty(c: Client, prefix: string)
    ensures c.Root(prefix) != ""
  {
  }

  lemma FaithfulRoundTrip<V>(c: Client, kv: map<Key, V>, prefix: string, items: Items<V>)
    requires items != [] && DistinctKeys(items)
    requires forall i :: 0 <= i < |items| ==> Faithful(c, prefix, items[i].0)
    ensures Restored(c, PutAll(c, Without(c, kv, prefix), prefix, items), prefix) == Some(Dict(items))
  {
    hide Decode, Encode, Namespaced, PutAll, Rebuild, Dict, Without, Faithful;
    var stored := PutAll(c, Without(c, kv, prefix), prefix, items);
    var r := Rebuild(stored, RangeReply(c, stored, prefix), |c.Root(prefix)|);
    ItemReadBack(c, kv, prefix, items, 0);
    forall name ensures name in r.value <==> name in Dict(items) {
      SameNames(c, kv, prefix, items, name);
    }
    forall name | name in r.value ensures r.value[name] == Dict(items)[name] {
      DictKeys(items, name);
      var i :| 0 <= i < |items| && items[i].0 == name;
      DictValue(items, i);
      ItemReadBack(c, kv, prefix, items, i);
    }
    assert r.value == Dict(items);
  }

  lemma SameNames<V>(c: Client, kv: map<Key, V>, prefix: string, items: Items<V>, name: string)
    requires DistinctKeys(items)
    requires forall i :: 0 <= i < |items| ==> Faithful(c, prefix, items[i].0)
    ensures var stored := PutAll(c, Without(c, kv, prefix), prefix, items);
            var r := Rebuild(stored, RangeReply(c, stored, prefix), |c.Root(prefix)|);
            r.Some? && (name in r.value <==> name in Dict(items))
  {
    hide Decode, Encode, Namespaced, PutAll, Rebuild, Dict, Without;
    var stored := PutAll(c, Without(c, kv, prefix), prefix, items);
    var keys, n := RangeReply(c, stored, prefix), |c.Root(prefix)|;
    ReplyReadable(c, kv, prefix, items);
    RebuildKeys(stored, keys, n);
    DictKeys(items, name);
    if name in Rebuild(stored, keys, n).value {
      var j :| 0 <= j < |keys| && NameOf(keys[j], n) == name;
      var i := ReplyHoldsItems(c, kv, prefix, items, keys[j]);
      assert Faithful(c, prefix, items[i].0);
    } else if name in Dict(items) {
      var i :| 0 <= i < |items| && items[i].0 == name;
      ItemReadBack(c, kv, prefix, items, i);
    }
  }

  lemma ItemReadBack<V>(c: Client, kv: map<Key, V>, prefix: string, items: Items<V>, i: nat)
    requires i < |items| && DistinctKeys(items)
    requires forall i :: 0 <= i < |items| ==> Faithful(c, prefix, items[i].0)
    ensures var stored := PutAll(c, Without(c, kv, prefix), prefix, items);
            var r := Rebuild(stored, RangeReply(c, stored, prefix), |c.Root(prefix)|);
            r.Some? && items[i].0 in r.value && r.value[items[i].0] == items[i].1
  {
    hide Decode, Encode, Namespaced, PutAll, Rebuild, Dict, Without;
    var stored := PutAll(c, Without(c, kv, prefix), prefix, items);
    var keys, n := RangeReply(c, stored, prefix), |c.Root(prefix)|;
    var slot := c.Slot(prefix, items[i].0);
    assert Faithful(c, prefix, items[i].0);
    forall j | i < j < |items| ensures c.Slot(prefix, items[j].0) != slot {
      assert Faithful(c, prefix, items[j].0);
    }
    StoredValue(c, Without(c, kv, prefix), prefix, items, i);
    RootNotEmpty(c, prefix);
    PrefixQueryExact(c.Root(prefix), slot);
    assert Encode(slot) in keys;
    var at :| 0 <= at < |keys| && keys[at] == Encode(slot);
    NameOfSlot(c, prefix, items[i].0);
    ReplyReadable(c, kv, prefix, items);
    forall j | at < j < |keys| ensures NameOf(keys[j], n) != NameOf(keys[at], n) {
      var h := ReplyHoldsItems(c, kv, prefix, items, keys[j]);
      assert Faithful(c, prefix, items[h].0);
      assert h != i;
    }
    RebuildValues(stored, keys, n, at);
  }

  lemma {:induction false} LongestMisfit<V>(c: Client, prefix: string, items: Items<V>, start: nat) returns (i: nat)
    requires start < |items| && !Fits(c, prefix, items[start].0)
    ensures i < |items| && !Fits(c, prefix, items[i].0)
    ensures forall j :: 0 <= j < |items| && !Fits(c, prefix, items[j].0) ==> |items[j].0| <= |items[i].0|
  {
    i := start;
    for n := 0 to |items|
      invariant i < |items| && !Fits(c, prefix, items[i].0)
      invariant forall j :: 0 <= j < n && !Fits(c, prefix, items[j].0) ==> |items[j].0| <= |items[i].0|
    {
      if !Fits(c, prefix, items[n].0) && |items[n].0| > |items[i].0| {
        i := n;
      }
    }
  }

  /** The longest misfit cannot come back: whatever is read under its name was stored by a longer misfit. */
  lemma MisfitLost<V>(c: Client, kv: map<Key, V>, prefix: string, items: Items<V>, misfit: nat)
    requires misfit < |items| && !Fits(c, prefix, items[misfit].0)
    ensures Restored(c, PutAll(c, Without(c, kv, prefix), prefix, items), prefix) != Some(Dict(items))
  {
    hide Decode, Encode, Namespaced, PutAll, Rebuild, Dict, Without, Fits, DropChars;
    var stored := PutAll(c, Without(c, kv, prefix), prefix, items);
    var keys, n := RangeReply(c, stored, prefix), |c.Root(prefix)|;
    var i := LongestMisfit(c, prefix, items, misfit);
    ReplyReadable(c, kv, prefix, items);
    RebuildKeys(stored, keys, n);
    DictKeys(items, items[i].0);
    if Restored(c, stored, prefix) == Some(Dict(items)) {
      var j :| 0 <= j < |keys| && NameOf(keys[j], n) == items[i].0;
      var h := ReplyHoldsItems(c, kv, prefix, items, keys[j]);
      if Fits(c, prefix, items[h].0) {
        FitsIsFaithful(c, prefix, items[h].0);
      } else {
        MisfitShrinks(c, prefix, items[h].0);
      }
      assert false;
    }
  }

  /**
    With every remote call successful and no other writer, restore returns the dictionary that was persisted exactly
    when every item's key is namespaced like the prefix.
   */
  lemma PersistThenRestore<V>(c: Client, kv: map<Key, V>, prefix: string, items: Items<V>)
    requires items != [] && DistinctKeys(items)
    ensures (Restored(c, PutAll(c, Without(c, kv, prefix), prefix, items), prefix) == Some(Dict(items))) <==>
              (forall i :: 0 <= i < |items| ==> Fits(c, prefix, items[i].0))
  {
    if misfit: nat :| misfit < |items| && !Fits(c, prefix, items[misfit].0) {
      MisfitLost(c, kv, prefix, items, misfit);
    } else {
      forall i | 0 <= i < |items| ensures Faithful(c, prefix, items[i].0) {
        FitsIsFaithful(c, prefix, items[i].0);
      }
      FaithfulRoundTrip(c, kv, prefix, items);
    }
  }

  /** A prefix that starts with a slash round-trips in any namespace that does not. */
  lemma UsualPrefixFits(c: Client, prefix: string, k: string)
    requires c.ns != "" && c.ns[0] != '/' && "/" <= prefix
    ensures Fits(c, prefix, k)
  {
    var b := Base(c.ns, c.job);
    assert (b + "/")[0] == c.ns[0] && (prefix + "/" + k)[0] == '/';
  }

  /** Persisting leaves this key as it was. */
  ghost predicate Kept<V>(c: Client, kv: map<Key, V>, prefix: string, items: Items<V>, key: Key) {
    var stored := PutAll(c, Without(c, kv, prefix), prefix, items);
    (key in stored <==> key in kv) && (key in kv ==> stored[key] == kv[key])
  }

  lemma KeptUnlessSlot<V>(c: Client, kv: map<Key, V>, prefix: string, items: Items<V>, key: Key)
    requires !(Encode(c.Root(prefix)) <= key) && !IsSlot(c, prefix, items, key)
    ensures Kept(c, kv, prefix, items, key)
  {
    hide Encode, PutAll, IsSlot;
    RootNotEmpty(c, prefix);
    NotCovered(c, prefix, key);
    StoredKeys(c, Without(c, kv, prefix), prefix, items, key);
  }

  lemma NotCovered(c: Client, prefix: string, key: Key)
    requires !(Encode(c.Root(prefix)) <= key)
    ensures !c.Covers(prefix, key)
  {
    RootNotEmpty(c, prefix);
    RangeIsPrefix(Encode(c.Root(prefix)), key);
  }

  /** Every item is written under the prefix. */
  ghost predicate WrittenUnder<V>(c: Client, prefix: string, items: Items<V>) {
    forall i :: 0 <= i < |items| ==> c.Root(prefix) <= c.Slot(prefix, items[i].0)
  }

  /** Persisting then touches no key outside the prefix. */
  lemma OtherKeysUntouched<V>(c: Client, kv: map<Key, V>, prefix: string, items: Items<V>, key: Key)
    requires WrittenUnder(c, prefix, items) && !(Encode(c.Root(prefix)) <= key)
    ensures Kept(c, kv, prefix, items, key)
  {
    hide Encode, Kept, Namespaced;
    if i :| 0 <= i < |items| && key == Encode(c.Slot(prefix, items[i].0)) {
      PrefixIffBytePrefix(c.Root(prefix), c.Slot(prefix, items[i].0));
    }
    KeptUnlessSlot(c, kv, prefix, items, key);
  }

  /** And only then: in any other case some store loses or gains a key outside the prefix. */
  lemma OtherKeysUntouchedExactly<V(!new)>(c: Client, prefix: string, items: Items<V>)
    ensures WrittenUnder(c, prefix, items) <==>
              forall kv: map<Key, V>, key: Key :: !(Encode(c.Root(prefix)) <= key) ==> Kept(c, kv, prefix, items, key)
  {
    hide Encode, Namespaced, PutAll;
    if WrittenUnder(c, prefix, items) {
      forall kv: map<Key, V>, key: Key | !(Encode(c.Root(prefix)) <= key) ensures Kept(c, kv, prefix, items, key) {
        OtherKeysUntouched(c, kv, prefix, items, key);
      }
    } else {
      var i :| 0 <= i < |items| && !(c.Root(prefix) <= c.Slot(prefix, items[i].0));
      var kv: map<Key, V>, key := map[], Encode(c.Slot(prefix, items[i].0));
      PrefixIffBytePrefix(c.Root(prefix), c.Slot(prefix, items[i].0));
      StoredKeys(c, Without(c, kv, prefix), prefix, items, key);
      assert IsSlot(c, prefix, items, key) && !Kept(c, kv, prefix, items, key);
    }
  }

  lemma FittingItemsWrittenUnder<V>(c: Client, prefix: string, items: Items<V>)
    requires forall i :: 0 <= i < |items| ==> Fits(c, prefix, items[i].0)
    ensures WrittenUnder(c, prefix, items)
  {
    forall i | 0 <= i < |items| ensures c.Root(prefix) <= c.Slot(prefix, items[i].0) {
      FitsIsFaithful(c, prefix, items[i].0);
    }
  }

  /**
    A prefix that is the namespace and job name without the slash behind them: the prefix is namespaced, the items
    below it are taken for namespaced already, and every one is written outside the prefix and never read back.
   */
  lemma BarePrefixMisfits<V>(kv: map<Key, V>, items: Items<V>)
    requires items != [] && DistinctKeys(items)
    ensures var c := Client("a", "b");
            && c.Root("a/b") == "a/ba/b"
            && (forall i :: 0 <= i < |items| ==> !(c.Root("a/b") <= c.Slot("a/b", items[i].0)))
            && Restored(c, PutAll(c, Without(c, kv, "a/b"), "a/b", items), "a/b") != Some(Dict(items))
  {
    hide PutAll, Without, Restored, Dict, Namespaced, Fits, DistinctKeys;
    var c := Client("a", "b");
    forall i | 0 <= i < |items| ensures !(c.Root("a/b") <= c.Slot("a/b", items[i].0)) && !Fits(c, "a/b", items[i].0) {
      BareSlot(items[i].0);
    }
    BareSlot("");
    PersistThenRestore(c, kv, "a/b", items);
    assert !Fits(c, "a/b", items[0].0);
  }

  lemma BareSlot(k: string)
    ensures var c := Client("a", "b");
            c.Root("a/b") == "a/ba/b" && !(c.Root("a/b") <= c.Slot("a/b", k)) && !Fits(c, "a/b", k)
  {
    var c, full := Client("a", "b"), "a/b" + "/" + k;
    assert Base("a", "b") == "a/b" && Base("a", "b") + "/" == "a/b/";
    assert full == "a/b/" + k && "a/b/" <= full;
    assert c.Slot("a/b", k) == full && c.Root("a/b") == "a/ba/b";
    assert full[3] == '/' && "a/ba/b"[3] == 'a';
  }

  lemma {:induction false} RebuiltIsReadable<V>(kv: map<Key, V>, keys: seq<Key>, n: nat)
    requires (forall key :: key in keys ==> key in kv) && Rebuild(kv, keys, n).Some?
    ensures Readable(keys)
    decreases |keys|
  {
    hide Decode;
    if keys != [] {
      RebuiltIsReadable(kv, keys[..|keys| - 1], n);
    }
  }

  lemma FoundUnderRoot<V>(c: Client, kv: map<Key, V>, prefix: string, name: string) returns (at: nat)
    requires Encode(c.Root(prefix) + "/" + name) in kv
    ensures at < |RangeReply(c, kv, prefix)|
    ensures var key := RangeReply(c, kv, prefix)[at]; Decode(key).Some? && NameOf(key, |c.Root(prefix)|) == name
  {
    hide Decode, Encode, Namespaced;
    var root, keys := c.Root(prefix), RangeReply(c, kv, prefix);
    var full := root + "/" + name;
    RootNotEmpty(c, prefix);
    assert full == root + ("/" + name);
    PrefixQueryExact(root, full);
    assert Encode(full) in keys;
    at :| at < |keys| && keys[at] == Encode(full);
    DecodeEncode(full);
  }

  /** persist_data ignores a failed delete: an item left over from before then comes back with the new ones. */
  lemma FailedDeleteBreaks<V>(c: Client, kv: map<Key, V>, prefix: string, items: Items<V>, name: string)
    requires Encode(c.Root(prefix) + "/" + name) in kv
    requires forall i :: 0 <= i < |items| ==> items[i].0 != name
    ensures Restored(c, PutAll(c, kv, prefix, items), prefix) != Some(Dict(items))
  {
    hide Decode, Encode, Namespaced, PutAll, Rebuild, Dict;
    var stored := PutAll(c, kv, prefix, items);
    var keys, n := RangeReply(c, stored, prefix), |c.Root(prefix)|;
    StoredKeys(c, kv, prefix, items, Encode(c.Root(prefix) + "/" + name));
    var at := FoundUnderRoot(c, stored, prefix, name);
    DictKeys(items, name);
    if Rebuild(stored, keys, n).Some? {
      RebuiltIsReadable(stored, keys, n);
      RebuildKeys(stored, keys, n);
      assert NameOf(keys[at], n) == name;
    }
  }
}
