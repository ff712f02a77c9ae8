/** What an earlier dictionary leaves behind when persist_data's delete did not reach the server. */
module EtcdLeftovers {
  import opened Options
  import opened Utf8
  import opened EtcdStore
  import opened EtcdRoundTrip
  import Lex

  /** A key under the prefix that the new items do not overwrite. */
  ghost predicate Leftover<V>(c: Client, kv: map<Key, V>, prefix: string, items: Items<V>, key: Key) {
    key in kv && c.Covers(prefix, key) && !IsSlot(c, prefix, items, key)
  }

  /** The key is read back under this name. */
  ghost predicate ReadAs(c: Client, prefix: string, key: Key, name: string) {
    Decode(key).Some? && NameOf(key, |c.Root(prefix)|) == name
  }

  /** A leftover that is read back under an item's name, after the item itself. */
  ghost predicate Shadows<V>(c: Client, kv: map<Key, V>, prefix: string, items: Items<V>, k: string, key: Key) {
    Leftover(c, kv, prefix, items, key) && ReadAs(c, prefix, key, k) && Lex.Less(Encode(c.Slot(prefix, k)), key)
  }

  /** The last of them, which decides what is read. */
  ghost predicate LastShadow<V>(c: Client, kv: map<Key, V>, prefix: string, items: Items<V>, k: string, key: Key) {
    && Shadows(c, kv, prefix, items, k, key)
    && forall other: Key :: Shadows(c, kv, prefix, items, k, other) ==> other == key || Lex.Less(other, key)
  }

  /** Every leftover is read back under the name of some item. */
  ghost predicate NoNewNames<V>(c: Client, kv: map<Key, V>, prefix: string, items: Items<V>) {
    forall key :: Leftover(c, kv, prefix, items, key) ==>
                    exists i :: 0 <= i < |items| && ReadAs(c, prefix, key, items[i].0)
  }

  /** Where a leftover decides what is read, it holds the new value anyway. */
  ghost predicate ShadowAgrees<V>(c: Client, kv: map<Key, V>, prefix: string, items: Items<V>, i: nat)
    requires i < |items|
  {
    forall key :: LastShadow(c, kv, prefix, items, items[i].0, key) ==> kv[key] == items[i].1
  }

  ghost predicate ShadowsAgree<V>(c: Client, kv: map<Key, V>, prefix: string, items: Items<V>) {
    forall i :: 0 <= i < |items| ==> ShadowAgrees(c, kv, prefix, items, i)
  }

  ghost predicate AllFit<V>(c: Client, prefix: string, items: Items<V>) {
    DistinctKeys(items) && forall i :: 0 <= i < |items| ==> Fits(c, prefix, items[i].0)
  }

  ghost function Stored<V>(c: Client, kv: map<Key, V>, prefix: string, items: Items<V>): map<Key, V> {
    PutAll(c, kv, prefix, items)
  }

  /** The restore's query finds the leftovers and the items' own keys. */
  lemma ReplyMembers<V>(c: Client, kv: map<Key, V>, prefix: string, items: Items<V>, key: Key)
    requires AllFit(c, prefix, items)
    ensures key in RangeReply(c, Stored(c, kv, prefix, items), prefix) <==>
              Leftover(c, kv, prefix, items, key) || IsSlot(c, prefix, items, key)
    ensures Leftover(c, kv, prefix, items, key) ==> Stored(c, kv, prefix, items)[key] == kv[key]
  {
    hide Encode, Decode, PutAll, Fits;
    StoredKeys(c, kv, prefix, items, key);
    if i :| 0 <= i < |items| && key == Encode(c.Slot(prefix, items[i].0)) {
      FitsIsFaithful(c, prefix, items[i].0);
      RootNotEmpty(c, prefix);
      PrefixQueryExact(c.Root(prefix), c.Slot(prefix, items[i].0));
    }
  }

  /** An item's own key is read back under its name and no other item's, and holds its value. */
  lemma SlotReads<V>(c: Client, kv: map<Key, V>, prefix: string, items: Items<V>, i: nat)
    requires AllFit(c, prefix, items) && i < |items|
    ensures var slot := Encode(c.Slot(prefix, items[i].0));
            && ReadAs(c, prefix, slot, items[i].0)
            && slot in Stored(c, kv, prefix, items) && Stored(c, kv, prefix, items)[slot] == items[i].1
  {
    hide Encode, Decode, PutAll, Fits;
    FitsIsFaithful(c, prefix, items[i].0);
    NameOfSlot(c, prefix, items[i].0);
    forall j | i < j < |items| ensures c.Slot(prefix, items[j].0) != c.Slot(prefix, items[i].0) {
      FitsIsFaithful(c, prefix, items[j].0);
    }
    StoredValue(c, kv, prefix, items, i);
  }

  lemma SlotReadsOnlyAs<V>(c: Client, prefix: string, items: Items<V>, key: Key, i: nat)
    requires AllFit(c, prefix, items) && i < |items|
    requires IsSlot(c, prefix, items, key) && ReadAs(c, prefix, key, items[i].0)
    ensures key == Encode(c.Slot(prefix, items[i].0))
  {
    hide Encode, Decode, Fits;
    var j :| 0 <= j < |items| && key == Encode(c.Slot(prefix, items[j].0));
    FitsIsFaithful(c, prefix, items[j].0);
    NameOfSlot(c, prefix, items[j].0);
    assert items[j].0 == items[i].0;
  }

  /** The last key of a list with a given property. */
  lemma {:induction false} LastIndex(keys: seq<Key>, c: Client, prefix: string, name: string) returns (j: nat)
    requires exists a :: 0 <= a < |keys| && ReadAs(c, prefix, keys[a], name)
    ensures j < |keys| && ReadAs(c, prefix, keys[j], name)
    ensures forall b :: j < b < |keys| ==> !ReadAs(c, prefix, keys[b], name)
  {
    j := |keys| - 1;
    while !ReadAs(c, prefix, keys[j], name)
      invariant j < |keys| && forall b :: j < b < |keys| ==> !ReadAs(c, prefix, keys[b], name)
      invariant exists a :: 0 <= a <= j && ReadAs(c, prefix, keys[a], name)
      decreases j
    {
      j := j - 1;
    }
  }

  /** What is read under an item's name: its own value, or that of the last leftover which shadows it. */
  lemma DecidingKey<V>(c: Client, kv: map<Key, V>, prefix: string, items: Items<V>, i: nat) returns (j: nat)
    requires AllFit(c, prefix, items) && i < |items|
    ensures var keys := RangeReply(c, Stored(c, kv, prefix, items), prefix);
            && j < |keys| && ReadAs(c, prefix, keys[j], items[i].0)
            && (forall b :: j < b < |keys| ==> !ReadAs(c, prefix, keys[b], items[i].0))
            && (keys[j] == Encode(c.Slot(prefix, items[i].0)) || LastShadow(c, kv, prefix, items, items[i].0, keys[j]))
  {
    hide Encode, Decode, PutAll, Fits, RangeReply, ReadAs, IsSlot, Leftover;
    var stored, k := Stored(c, kv, prefix, items), items[i].0;
    var keys, slot := RangeReply(c, stored, prefix), Encode(c.Slot(prefix, k));
    SlotReads(c, kv, prefix, items, i);
    SlotIsSlot(c, prefix, items, i);
    ReplyMembers(c, kv, prefix, items, slot);
    var a :| 0 <= a < |keys| && keys[a] == slot;
    j := LastIndex(keys, c, prefix, k);
    ReplyMembers(c, kv, prefix, items, keys[j]);
    if IsSlot(c, prefix, items, keys[j]) {
      SlotReadsOnlyAs(c, prefix, items, keys[j], i);
    } else {
      assert a < j && Shadows(c, kv, prefix, items, k, keys[j]);
      forall other: Key | Shadows(c, kv, prefix, items, k, other) ensures other == keys[j] || Lex.Less(other, keys[j]) {
        ReplyMembers(c, kv, prefix, items, other);
        var b :| 0 <= b < |keys| && keys[b] == other;
      }
    }
  }

  lemma SlotIsSlot<V>(c: Client, prefix: string, items: Items<V>, i: nat)
    requires i < |items|
    ensures IsSlot(c, prefix, items, Encode(c.Slot(prefix, items[i].0)))
  {
  }

  /** There is one last shadow only, and an item's own key is not one. */
  lemma LastShadowUnique<V>(c: Client, kv: map<Key, V>, prefix: string, items: Items<V>, k: string, x: Key, y: Key)
    requires LastShadow(c, kv, prefix, items, k, x) && LastShadow(c, kv, prefix, items, k, y)
    ensures x == y
  {
    if x != y {
      NotBoth(x, y);
    }
  }

  /** A key that shadows an item is found later than the item. */
  lemma ShadowIsNotLast<V>(c: Client, kv: map<Key, V>, prefix: string, items: Items<V>, i: nat, j: nat, key: Key)
    requires AllFit(c, prefix, items) && i < |items| && Shadows(c, kv, prefix, items, items[i].0, key)
    requires var keys := RangeReply(c, Stored(c, kv, prefix, items), prefix);
             j < |keys| && keys[j] == Encode(c.Slot(prefix, items[i].0))
    ensures var keys := RangeReply(c, Stored(c, kv, prefix, items), prefix);
            exists b :: j < b < |keys| && keys[b] == key && ReadAs(c, prefix, keys[b], items[i].0)
  {
    hide Encode, Decode, PutAll, Fits, ReadAs;
    var keys := RangeReply(c, Stored(c, kv, prefix, items), prefix);
    ReplyMembers(c, kv, prefix, items, key);
    var b :| 0 <= b < |keys| && keys[b] == key;
    if b <= j {
      Lex.Irreflexive(key);
      NotBoth(keys[b], keys[j]);
    }
  }

  lemma ValueRead<V>(c: Client, kv: map<Key, V>, prefix: string, items: Items<V>, i: nat)
    requires AllFit(c, prefix, items) && i < |items|
    requires Readable(RangeReply(c, Stored(c, kv, prefix, items), prefix))
    ensures var stored, k := Stored(c, kv, prefix, items), items[i].0;
            var r := Rebuild(stored, RangeReply(c, stored, prefix), |c.Root(prefix)|);
            && r.Some? && k in r.value
            && ((exists key :: LastShadow(c, kv, prefix, items, k, key) && r.value[k] == kv[key])
                || (r.value[k] == items[i].1 && forall key :: !LastShadow(c, kv, prefix, items, k, key)))
  {
    hide Encode, Decode, PutAll, Fits, Rebuild, LastShadow;
    var stored, k := Stored(c, kv, prefix, items), items[i].0;
    var keys := RangeReply(c, stored, prefix);
    var j := DecidingKey(c, kv, prefix, items, i);
    RebuildValues(stored, keys, |c.Root(prefix)|, j);
    SlotReads(c, kv, prefix, items, i);
    ReplyMembers(c, kv, prefix, items, keys[j]);
    if keys[j] == Encode(c.Slot(prefix, k)) {
      forall key ensures !LastShadow(c, kv, prefix, items, k, key) {
        if LastShadow(c, kv, prefix, items, k, key) {
          LastShadowShadows(c, kv, prefix, items, k, key);
          ShadowIsNotLast(c, kv, prefix, items, i, j, key);
        }
      }
    } else {
      LastShadowShadows(c, kv, prefix, items, k, keys[j]);
    }
  }

  lemma LastShadowShadows<V>(c: Client, kv: map<Key, V>, prefix: string, items: Items<V>, k: string, key: Key)
    requires LastShadow(c, kv, prefix, items, k, key)
    ensures Shadows(c, kv, prefix, items, k, key)
  {
  }

  /** The names that are read are the items' exactly when no leftover brings another one, or is unreadable. */
  lemma NamesRead<V>(c: Client, kv: map<Key, V>, prefix: string, items: Items<V>)
    requires AllFit(c, prefix, items)
    ensures var stored := Stored(c, kv, prefix, items);
            var r := Rebuild(stored, RangeReply(c, stored, prefix), |c.Root(prefix)|);
            (r.Some? && r.value.Keys == Dict(items).Keys) <==> NoNewNames(c, kv, prefix, items)
  {
    hide Encode, Decode, PutAll, Fits, Rebuild, Dict, NoNewNames, RangeReply;
    var stored := Stored(c, kv, prefix, items);
    var r := Rebuild(stored, RangeReply(c, stored, prefix), |c.Root(prefix)|);
    if NoNewNames(c, kv, prefix, items) {
      AllReadable(c, kv, prefix, items);
      SameNamesRead(c, kv, prefix, items, "");
      forall name ensures name in r.value <==> name in Dict(items) {
        SameNamesRead(c, kv, prefix, items, name);
      }
    }
    if r.Some? && r.value.Keys == Dict(items).Keys {
      OnlyItemNames(c, kv, prefix, items);
    }
  }

  lemma OnlyItemNames<V>(c: Client, kv: map<Key, V>, prefix: string, items: Items<V>)
    requires AllFit(c, prefix, items)
    requires var stored := Stored(c, kv, prefix, items);
             var r := Rebuild(stored, RangeReply(c, stored, prefix), |c.Root(prefix)|);
             r.Some? && r.value.Keys == Dict(items).Keys
    ensures NoNewNames(c, kv, prefix, items)
  {
    hide Encode, Decode, PutAll, Fits, Rebuild, Dict;
    var stored := Stored(c, kv, prefix, items);
    var keys, n := RangeReply(c, stored, prefix), |c.Root(prefix)|;
    RebuiltIsReadable(stored, keys, n);
    RebuildKeys(stored, keys, n);
    forall key | Leftover(c, kv, prefix, items, key)
      ensures exists i :: 0 <= i < |items| && ReadAs(c, prefix, key, items[i].0)
    {
      ReplyMembers(c, kv, prefix, items, key);
      var j :| 0 <= j < |keys| && keys[j] == key;
      DictKeys(items, NameOf(keys[j], n));
    }
  }

  lemma AllReadable<V>(c: Client, kv: map<Key, V>, prefix: string, items: Items<V>)
    requires AllFit(c, prefix, items) && NoNewNames(c, kv, prefix, items)
    ensures Readable(RangeReply(c, Stored(c, kv, prefix, items), prefix))
  {
    hide Encode, Decode, PutAll, Fits;
    var keys := RangeReply(c, Stored(c, kv, prefix, items), prefix);
    forall j | 0 <= j < |keys| ensures Decode(keys[j]).Some? {
      NameIsAnItems(c, kv, prefix, items, keys[j]);
    }
  }

  lemma NameIsAnItems<V>(c: Client, kv: map<Key, V>, prefix: string, items: Items<V>, key: Key)
    requires AllFit(c, prefix, items) && NoNewNames(c, kv, prefix, items)
    requires key in RangeReply(c, Stored(c, kv, prefix, items), prefix)
    ensures exists i :: 0 <= i < |items| && ReadAs(c, prefix, key, items[i].0)
  {
    hide Encode, Decode, PutAll, Fits, ReadAs, Leftover;
    ReplyMembers(c, kv, prefix, items, key);
    if !Leftover(c, kv, prefix, items, key) {
      var i :| 0 <= i < |items| && key == Encode(c.Slot(prefix, items[i].0));
      SlotReads(c, kv, prefix, items, i);
    }
  }

  lemma SameNamesRead<V>(c: Client, kv: map<Key, V>, prefix: string, items: Items<V>, name: string)
    requires AllFit(c, prefix, items) && NoNewNames(c, kv, prefix, items)
    requires Readable(RangeReply(c, Stored(c, kv, prefix, items), prefix))
    ensures var stored := Stored(c, kv, prefix, items);
            var r := Rebuild(stored, RangeReply(c, stored, prefix), |c.Root(prefix)|);
            r.Some? && (name in r.value <==> name in Dict(items))
  {
    hide Encode, Decode, PutAll, Fits, Rebuild, Dict, NoNewNames;
    var stored := Stored(c, kv, prefix, items);
    var keys, n := RangeReply(c, stored, prefix), |c.Root(prefix)|;
    RebuildKeys(stored, keys, n);
    DictKeys(items, name);
    if name in Rebuild(stored, keys, n).value {
      var j :| 0 <= j < |keys| && NameOf(keys[j], n) == name;
      NameIsAnItems(c, kv, prefix, items, keys[j]);
    } else if name in Dict(items) {
      var i :| 0 <= i < |items| && items[i].0 == name;
      ValueRead(c, kv, prefix, items, i);
    }
  }

  /**
    persist_data ignores a failed delete.  The new dictionary still comes back if and only if the leftovers bring no
    name of their own, and none that is read after an item of the same name holds another value.
   */
  lemma FailedDeleteExactly<V>(c: Client, kv: map<Key, V>, prefix: string, items: Items<V>)
    requires items != [] && AllFit(c, prefix, items)
    ensures Restored(c, PutAll(c, kv, prefix, items), prefix) == Some(Dict(items)) <==>
              NoNewNames(c, kv, prefix, items) && ShadowsAgree(c, kv, prefix, items)
  {
    hide Encode, Decode, PutAll, Fits, Rebuild, Dict, NoNewNames, ShadowAgrees;
    var stored := Stored(c, kv, prefix, items);
    var r := Rebuild(stored, RangeReply(c, stored, prefix), |c.Root(prefix)|);
    NamesRead(c, kv, prefix, items);
    if NoNewNames(c, kv, prefix, items) {
      AllReadable(c, kv, prefix, items);
      forall i | 0 <= i < |items|
        ensures items[i].0 in r.value && items[i].0 in Dict(items) && Dict(items)[items[i].0] == items[i].1
        ensures r.value[items[i].0] == items[i].1 <==> ShadowAgrees(c, kv, prefix, items, i)
      {
        ItemRead(c, kv, prefix, items, i);
        DictValue(items, i);
      }
      if ShadowsAgree(c, kv, prefix, items) {
        SameValues(items, r.value);
      }
      DictValue(items, 0);
    }
  }

  lemma ItemRead<V>(c: Client, kv: map<Key, V>, prefix: string, items: Items<V>, i: nat)
    requires AllFit(c, prefix, items) && i < |items|
    requires Readable(RangeReply(c, Stored(c, kv, prefix, items), prefix))
    ensures var stored := Stored(c, kv, prefix, items);
            var r := Rebuild(stored, RangeReply(c, stored, prefix), |c.Root(prefix)|);
            && r.Some? && items[i].0 in r.value
            && (r.value[items[i].0] == items[i].1 <==> ShadowAgrees(c, kv, prefix, items, i))
  {
    ValueRead(c, kv, prefix, items, i);
    hide Encode, Decode, PutAll, Fits, Rebuild, Leftover, ReadAs, RangeReply, Stored;
    forall x, y | LastShadow(c, kv, prefix, items, items[i].0, x) && LastShadow(c, kv, prefix, items, items[i].0, y)
      ensures x == y
    {
      LastShadowUnique(c, kv, prefix, items, items[i].0, x, y);
    }
  }

  lemma SameValues<V>(items: Items<V>, m: map<string, V>)
    requires DistinctKeys(items) && m.Keys == Dict(items).Keys
    requires forall i :: 0 <= i < |items| ==> items[i].0 in m && m[items[i].0] == items[i].1
    ensures m == Dict(items)
  {
    forall name | name in m ensures m[name] == Dict(items)[name] {
      DictKeys(items, name);
      var i :| 0 <= i < |items| && items[i].0 == name;
      DictValue(items, i);
    }
  }

  // ---------------------------------------------------------------- stores that only this client writes

  /** Every key under the prefix is the prefix, a slash and a name. */
  ghost predicate Tidy<V>(c: Client, kv: map<Key, V>, prefix: string) {
    forall key :: key in kv && c.Covers(prefix, key) ==> exists name :: key == Encode(c.Root(prefix) + "/" + name)
  }

  ghost predicate NamesIncluded<V>(c: Client, kv: map<Key, V>, prefix: string, items: Items<V>) {
    forall name :: Encode(c.Root(prefix) + "/" + name) in kv ==> exists i :: 0 <= i < |items| && items[i].0 == name
  }

  lemma PlainSlot(c: Client, prefix: string, k: string)
    requires Fits(c, prefix, k) && Base(c.ns, c.job) != "/"
    ensures c.Slot(prefix, k) == c.Root(prefix) + "/" + k
  {
    var b := Base(c.ns, c.job);
    if b + "/" <= prefix {
      assert b + "/" <= prefix + "/" + k;
    } else {
      assert b + (prefix + "/" + k) == (b + prefix) + "/" + k;
    }
  }

  lemma ReadsUnderRoot(c: Client, prefix: string, name: string)
    ensures c.Covers(prefix, Encode(c.Root(prefix) + "/" + name))
    ensures ReadAs(c, prefix, Encode(c.Root(prefix) + "/" + name), name)
  {
    hide Encode, Decode, Namespaced;
    var root := c.Root(prefix);
    var full := root + "/" + name;
    RootNotEmpty(c, prefix);
    assert full == root + ("/" + name);
    PrefixQueryExact(root, full);
    DecodeEncode(full);
  }

  /** Reading a key of a tidy store. */
  lemma TidyReads<V>(c: Client, kv: map<Key, V>, prefix: string, key: Key) returns (name: string)
    requires Tidy(c, kv, prefix) && key in kv && c.Covers(prefix, key)
    ensures key == Encode(c.Root(prefix) + "/" + name) && ReadAs(c, prefix, key, name)
    ensures forall other :: ReadAs(c, prefix, key, other) ==> other == name
  {
    hide Encode, Decode, Namespaced;
    name :| key == Encode(c.Root(prefix) + "/" + name);
    ReadsUnderRoot(c, prefix, name);
  }

  lemma TidyNames<V>(c: Client, kv: map<Key, V>, prefix: string, items: Items<V>)
    requires AllFit(c, prefix, items) && Tidy(c, kv, prefix)
    ensures NoNewNames(c, kv, prefix, items) <==> NamesIncluded(c, kv, prefix, items)
  {
    hide Encode, Decode, PutAll, Fits, Tidy, ReadAs;
    if NamesIncluded(c, kv, prefix, items) {
      forall key | Leftover(c, kv, prefix, items, key)
        ensures exists i :: 0 <= i < |items| && ReadAs(c, prefix, key, items[i].0)
      {
        var name := TidyReads(c, kv, prefix, key);
      }
    }
    if NoNewNames(c, kv, prefix, items) {
      forall name | Encode(c.Root(prefix) + "/" + name) in kv
        ensures exists i :: 0 <= i < |items| && items[i].0 == name
      {
        IncludedName(c, kv, prefix, items, name);
      }
    }
  }

  lemma IncludedName<V>(c: Client, kv: map<Key, V>, prefix: string, items: Items<V>, name: string)
    requires AllFit(c, prefix, items) && NoNewNames(c, kv, prefix, items) && Encode(c.Root(prefix) + "/" + name) in kv
    ensures exists i :: 0 <= i < |items| && items[i].0 == name
  {
    hide Encode, Decode, PutAll, Fits;
    var key := Encode(c.Root(prefix) + "/" + name);
    ReadsUnderRoot(c, prefix, name);
    if IsSlot(c, prefix, items, key) {
      var i :| 0 <= i < |items| && key == Encode(c.Slot(prefix, items[i].0));
      SlotReads(c, kv, prefix, items, i);
    } else {
      assert Leftover(c, kv, prefix, items, key);
    }
  }

  /** With a namespace or a job name, a leftover of a tidy store never shadows an item: it is overwritten. */
  lemma TidyShadows<V>(c: Client, kv: map<Key, V>, prefix: string, items: Items<V>)
    requires AllFit(c, prefix, items) && Tidy(c, kv, prefix) && Base(c.ns, c.job) != "/"
    ensures ShadowsAgree(c, kv, prefix, items)
  {
    hide Encode, Decode, PutAll, Fits, Tidy, ReadAs, Namespaced;
    forall key, i | Leftover(c, kv, prefix, items, key) && 0 <= i < |items|
      ensures !ReadAs(c, prefix, key, items[i].0)
    {
      var name := TidyReads(c, kv, prefix, key);
      PlainSlot(c, prefix, items[i].0);
    }
  }

  /**
    There, the dictionary comes back after a failed delete if and only if it has every name of the old one.  A client
    with neither namespace nor job name needs the shadow condition as well, for an empty item name under "/".
   */
  lemma FailedDeleteInTidyStore<V>(c: Client, kv: map<Key, V>, prefix: string, items: Items<V>)
    requires items != [] && AllFit(c, prefix, items) && Tidy(c, kv, prefix)
    ensures Restored(c, PutAll(c, kv, prefix, items), prefix) == Some(Dict(items)) <==>
              NamesIncluded(c, kv, prefix, items) && ShadowsAgree(c, kv, prefix, items)
    ensures Base(c.ns, c.job) != "/" ==> ShadowsAgree(c, kv, prefix, items)
  {
    hide PutAll, Fits, Dict, Restored, NamesIncluded, NoNewNames, ShadowsAgree, Tidy;
    FailedDeleteExactly(c, kv, prefix, items);
    TidyNames(c, kv, prefix, items);
    if Base(c.ns, c.job) != "/" {
      TidyShadows(c, kv, prefix, items);
    }
  }

  // ---------------------------------------------------------------- any store

  /** The last key of the store that is read under this name. */
  ghost predicate Decides<V>(c: Client, kv: map<Key, V>, prefix: string, name: string, key: Key) {
    && key in kv && c.Covers(prefix, key) && ReadAs(c, prefix, key, name)
    && forall other: Key :: other in kv && c.Covers(prefix, other) && ReadAs(c, prefix, other, name) ==>
                              other == key || Lex.Less(other, key)
  }

  /** What is read last under this name. */
  ghost predicate LastValue<V>(c: Client, kv: map<Key, V>, prefix: string, name: string, v: V) {
    exists key :: Decides(c, kv, prefix, name, key) && kv[key] == v
  }

  /** The store reads as this dictionary: no other name, and under each of its names last the value it has there. */
  ghost predicate ReadsLike<V>(c: Client, kv: map<Key, V>, prefix: string, d: map<string, V>) {
    && (forall key :: key in kv && c.Covers(prefix, key) ==> exists name :: name in d && ReadAs(c, prefix, key, name))
    && (forall name :: name in d ==> LastValue(c, kv, prefix, name, d[name]))
  }

  /** What is read under a name of any store is the value of the key that decides. */
  lemma DecidesReads<V>(c: Client, kv: map<Key, V>, prefix: string, name: string, key: Key)
    requires Readable(RangeReply(c, kv, prefix)) && Decides(c, kv, prefix, name, key)
    ensures var r := Rebuild(kv, RangeReply(c, kv, prefix), |c.Root(prefix)|);
            r.Some? && name in r.value && r.value[name] == kv[key]
  {
    hide Decode, Rebuild;
    var keys := RangeReply(c, kv, prefix);
    var j :| 0 <= j < |keys| && keys[j] == key;
    forall b | j < b < |keys| ensures !ReadAs(c, prefix, keys[b], name) {
      if ReadAs(c, prefix, keys[b], name) {
        assert keys[b] in keys;
        NotBoth(keys[b], keys[j]);
      }
    }
    RebuildValues(kv, keys, |c.Root(prefix)|, j);
  }

  /** Every name that is read has a key that decides. */
  lemma SomeKeyDecides<V>(c: Client, kv: map<Key, V>, prefix: string, name: string) returns (key: Key)
    requires exists k :: k in kv && c.Covers(prefix, k) && ReadAs(c, prefix, k, name)
    ensures Decides(c, kv, prefix, name, key)
  {
    hide Decode, ReadAs;
    var keys := RangeReply(c, kv, prefix);
    var k :| k in kv && c.Covers(prefix, k) && ReadAs(c, prefix, k, name);
    assert k in keys;
    var j := LastIndex(keys, c, prefix, name);
    key := keys[j];
    assert key in keys;
    forall other: Key | other in kv && c.Covers(prefix, other) && ReadAs(c, prefix, other, name)
      ensures other == key || Lex.Less(other, key)
    {
      assert other in keys;
      var b :| 0 <= b < |keys| && keys[b] == other;
    }
  }

  /** restore_data returns a dictionary if and only if the store reads like it: for every store and every dictionary. */
  lemma RestoredExactly<V>(c: Client, kv: map<Key, V>, prefix: string, d: map<string, V>)
    ensures Restored(c, kv, prefix) == Some(d) <==> d != map[] && ReadsLike(c, kv, prefix, d)
  {
    if Restored(c, kv, prefix) == Some(d) {
      RestoredReadsLike(c, kv, prefix, d);
    }
    if d != map[] && ReadsLike(c, kv, prefix, d) {
      ReadsLikeRestored(c, kv, prefix, d);
    }
  }

  lemma LastValueReads<V>(c: Client, kv: map<Key, V>, prefix: string, name: string, v: V)
    requires Readable(RangeReply(c, kv, prefix)) && LastValue(c, kv, prefix, name, v)
    ensures var r := Rebuild(kv, RangeReply(c, kv, prefix), |c.Root(prefix)|);
            r.Some? && name in r.value && r.value[name] == v
  {
    hide Rebuild, RangeReply;
    var key :| Decides(c, kv, prefix, name, key) && kv[key] == v;
    DecidesReads(c, kv, prefix, name, key);
  }

  lemma ReadLastValue<V>(c: Client, kv: map<Key, V>, prefix: string, key: Key, name: string)
    requires Readable(RangeReply(c, kv, prefix)) && key in kv && c.Covers(prefix, key) && ReadAs(c, prefix, key, name)
    ensures var r := Rebuild(kv, RangeReply(c, kv, prefix), |c.Root(prefix)|);
            r.Some? && name in r.value && LastValue(c, kv, prefix, name, r.value[name])
  {
    hide Rebuild, RangeReply, ReadAs;
    var last := SomeKeyDecides(c, kv, prefix, name);
    DecidesReads(c, kv, prefix, name, last);
  }

  lemma RestoredReadsLike<V>(c: Client, kv: map<Key, V>, prefix: string, d: map<string, V>)
    requires Restored(c, kv, prefix) == Some(d)
    ensures d != map[] && ReadsLike(c, kv, prefix, d)
  {
    hide Decode, Rebuild, LastValue;
    var keys, n := RangeReply(c, kv, prefix), |c.Root(prefix)|;
    RebuiltIsReadable(kv, keys, n);
    RebuildKeys(kv, keys, n);
    forall key | key in kv && c.Covers(prefix, key) ensures exists name :: name in d && ReadAs(c, prefix, key, name) {
      var j :| 0 <= j < |keys| && keys[j] == key;
      assert NameOf(keys[j], n) in d && ReadAs(c, prefix, key, NameOf(keys[j], n));
    }
    forall name | name in d ensures LastValue(c, kv, prefix, name, d[name]) {
      var j :| 0 <= j < |keys| && NameOf(keys[j], n) == name;
      assert keys[j] in keys && ReadAs(c, prefix, keys[j], name);
      ReadLastValue(c, kv, prefix, keys[j], name);
    }
  }

  lemma ReadsLikeRestored<V>(c: Client, kv: map<Key, V>, prefix: string, d: map<string, V>)
    requires d != map[] && ReadsLike(c, kv, prefix, d)
    ensures Restored(c, kv, prefix) == Some(d)
  {
    hide Decode, Rebuild, ReadAs, LastValue, NameOf;
    var keys, n := RangeReply(c, kv, prefix), |c.Root(prefix)|;
    NamesWithin(c, kv, prefix, d);
    RebuildKeys(kv, keys, n);
    var r := Rebuild(kv, keys, n).value;
    forall name | name in d ensures name in r && r[name] == d[name] {
      LastValueReads(c, kv, prefix, name, d[name]);
    }
    forall name | name in r ensures name in d {
      var j :| 0 <= j < |keys| && NameOf(keys[j], n) == name;
    }
    assert r == d;
  }

  lemma NamesWithin<V>(c: Client, kv: map<Key, V>, prefix: string, d: map<string, V>)
    requires ReadsLike(c, kv, prefix, d)
    ensures var keys := RangeReply(c, kv, prefix);
            Readable(keys) && forall j :: 0 <= j < |keys| ==> NameOf(keys[j], |c.Root(prefix)|) in d
  {
    hide Decode, Decides;
    var keys := RangeReply(c, kv, prefix);
    forall j | 0 <= j < |keys| ensures Decode(keys[j]).Some? && NameOf(keys[j], |c.Root(prefix)|) in d {
      assert keys[j] in keys;
      var name :| name in d && ReadAs(c, prefix, keys[j], name);
    }
  }
}
