/** Comparing two JSON configurations: which paths changed? */
module ConfigDiff {
  import opened Lex

  /** What json.load gives: besides numbers it accepts NaN and the infinities. */
  datatype Json =
    | Null
    | Bool(b: bool)
    | Num(x: real)
    | Infinite(negative: bool)
    | NaN
    | Str(s: string)
    | Obj(fields: map<string, Json>)
    | Arr(items: seq<Json>)

  /** A path string such as `a.b[2].c`, as the sequence of keys and indices it stands for. */
  datatype Token = Key(k: string) | Idx(i: nat)

  type Path = seq<Token>

  // ---------------------------------------------------------------- values

  predicate IsNumber(j: Json) {
    j.Bool? || j.Num?
  }

  function Number(j: Json): real
    requires IsNumber(j)
  {
    if j.Num? then j.x else if j.b then 1.0 else 0.0
  }

  /** Python's == on decoded JSON, where True equals 1 and NaN equals nothing, not even itself. */
  predicate Same(a: Json, b: Json) {
    if IsNumber(a) && IsNumber(b) then Number(a) == Number(b)
    else
      match (a, b)
      case (Null, Null) => true
      case (Infinite(m), Infinite(n)) => m == n
      case (Str(s), Str(t)) => s == t
      case (Obj(f), Obj(g)) => f.Keys == g.Keys && forall k :: k in f ==> Same(f[k], g[k])
      case (Arr(x), Arr(y)) => |x| == |y| && forall i :: 0 <= i < |x| ==> Same(x[i], y[i])
      case _ => false
  }

  /** On leaves: numbers and truth values by value, NaN never, everything else by being the same. */
  lemma SameLeaves(a: Json, b: Json)
    requires Leaf(a) && Leaf(b)
    ensures IsNumber(a) && IsNumber(b) ==> (Same(a, b) <==> Number(a) == Number(b))
    ensures !(IsNumber(a) && IsNumber(b)) ==> (Same(a, b) <==> a == b && !a.NaN?)
    ensures Number(Bool(true)) == 1.0 && Number(Bool(false)) == 0.0
  {
  }

  /** One level down; a missing key or index reads as None, and a string can be indexed. */
  function Navigate(j: Json, t: Token): Json {
    match (j, t)
    case (Obj(f), Key(k)) => if k in f then f[k] else Null
    case (Arr(x), Idx(i)) => if i < |x| then x[i] else Null
    case (Str(s), Idx(i)) => if i < |s| then Str([s[i]]) else Null
    case _ => Null
  }

  function Lookup(j: Json, p: Path): Json
    decreases |p|
  {
    if p == [] then j else Lookup(Navigate(j, p[0]), p[1..])
  }

  lemma {:induction false} LookupConcat(j: Json, p: Path, q: Path)
    ensures Lookup(j, p + q) == Lookup(Lookup(j, p), q)
    decreases |p|
  {
    if p == [] {
      assert p + q == q;
    } else {
      assert (p + q)[1..] == p[1..] + q;
      LookupConcat(Navigate(j, p[0]), p[1..], q);
    }
  }

  predicate Leaf(j: Json) {
    !j.Obj? && !j.Arr?
  }

  // ---------------------------------------------------------------- the comparison

  /** Two objects, or an object and nothing: the comparison goes into the keys. */
  predicate Objects(u: Json, b: Json) {
    (u.Obj? && b.Obj?) || (u.Obj? && b.Null?) || (u.Null? && b.Obj?)
  }

  /** Two lists, or a list and nothing. */
  predicate Lists(u: Json, b: Json) {
    (u.Arr? && b.Arr?) || (u.Arr? && b.Null?) || (u.Null? && b.Arr?)
  }

  function KeysOf(j: Json): set<string> {
    if j.Obj? then j.fields.Keys else {}
  }

  function Count(j: Json): nat {
    if j.Arr? then |j.items| else 0
  }

  predicate LengthsDiffer(u: Json, b: Json) {
    u.Arr? && b.Arr? && |u.items| != |b.items|
  }

  /** The number of values that are there; with the values themselves, the measure of the comparison's recursion. */
  function Present(u: Json, b: Json): nat {
    (if u.Null? then 0 else 1) + (if b.Null? then 0 else 1)
  }

  function Under(t: Token, paths: seq<Path>): (r: seq<Path>)
    ensures |r| == |paths| && forall i :: 0 <= i < |r| ==> r[i] == [t] + paths[i]
  {
    seq(|paths|, i requires 0 <= i < |paths| => [t] + paths[i])
  }

  /** collect_changed_paths, with paths relative to the two values. */
  function Changed(u: Json, b: Json): seq<Path>
    decreases Present(u, b), u, b, 2, 0
  {
    if Objects(u, b) then ChangedKeys(u, b, SortedKeys(KeysOf(u) + KeysOf(b)))
    else if LengthsDiffer(u, b) then [[]]
    else if Lists(u, b) then ChangedItems(u, b, 0)
    else if !Same(u, b) then [[]]
    else []
  }

  function ChangedKeys(u: Json, b: Json, keys: seq<string>): seq<Path>
    requires Objects(u, b) && forall k :: k in keys ==> k in KeysOf(u) + KeysOf(b)
    decreases Present(u, b), u, b, 1, |keys|
  {
    if keys == [] then []
    else
      assert keys[0] in keys;
      Under(Key(keys[0]), Changed(Navigate(u, Key(keys[0])), Navigate(b, Key(keys[0])))) + ChangedKeys(u, b, keys[1..])
  }

  function ChangedItems(u: Json, b: Json, i: nat): seq<Path>
    requires Lists(u, b) && !LengthsDiffer(u, b) && i <= Count(u) + Count(b)
    decreases Present(u, b), u, b, 1, Count(u) + Count(b) - i
  {
    if i >= Count(u) && i >= Count(b) then []
    else Under(Idx(i), Changed(Navigate(u, Idx(i)), Navigate(b, Idx(i)))) + ChangedItems(u, b, i + 1)
  }

  // ---------------------------------------------------------------- what is reported

  /** Whether a path is reported, decided by walking down that path alone. */
  predicate Reported(u: Json, b: Json, p: Path)
    decreases |p|
  {
    if Objects(u, b) then
      && p != [] && p[0].Key? && p[0].k in KeysOf(u) + KeysOf(b)
      && Reported(Navigate(u, p[0]), Navigate(b, p[0]), p[1..])
    else if LengthsDiffer(u, b) then p == []
    else if Lists(u, b) then
      && p != [] && p[0].Idx? && (p[0].i < Count(u) || p[0].i < Count(b))
      && Reported(Navigate(u, p[0]), Navigate(b, p[0]), p[1..])
    else p == [] && !Same(u, b)
  }

  lemma InUnder(t: Token, paths: seq<Path>, p: Path)
    ensures p in Under(t, paths) <==> p != [] && p[0] == t && p[1..] in paths
  {
    if p in Under(t, paths) {
      var i :| 0 <= i < |paths| && p == [t] + paths[i];
      assert p[1..] == paths[i];
    }
    if p != [] && p[0] == t && p[1..] in paths {
      var i :| 0 <= i < |paths| && paths[i] == p[1..];
      assert Under(t, paths)[i] == p;
    }
  }

  lemma {:induction false} InChangedKeys(u: Json, b: Json, keys: seq<string>, p: Path)
    requires Objects(u, b) && forall k :: k in keys ==> k in KeysOf(u) + KeysOf(b)
    ensures p in ChangedKeys(u, b, keys) <==>
              p != [] && p[0].Key? && p[0].k in keys && p[1..] in Changed(Navigate(u, p[0]), Navigate(b, p[0]))
    decreases |keys|
  {
    hide Changed, Same, Navigate, Under;
    if keys != [] {
      InUnder(Key(keys[0]), Changed(Navigate(u, Key(keys[0])), Navigate(b, Key(keys[0]))), p);
      InChangedKeys(u, b, keys[1..], p);
    }
  }

  lemma {:induction false} InChangedItems(u: Json, b: Json, i: nat, p: Path)
    requires Lists(u, b) && !LengthsDiffer(u, b) && i <= Count(u) + Count(b)
    ensures p in ChangedItems(u, b, i) <==>
              && p != [] && p[0].Idx? && i <= p[0].i && (p[0].i < Count(u) || p[0].i < Count(b))
              && p[1..] in Changed(Navigate(u, p[0]), Navigate(b, p[0]))
    decreases Count(u) + Count(b) - i
  {
    hide Changed, Same, Navigate, Under;
    if i < Count(u) || i < Count(b) {
      InUnder(Idx(i), Changed(Navigate(u, Idx(i)), Navigate(b, Idx(i))), p);
      InChangedItems(u, b, i + 1, p);
    }
  }

  lemma {:induction false} ChangedIffReported(u: Json, b: Json, p: Path)
    ensures p in Changed(u, b) <==> Reported(u, b, p)
    decreases |p|
  {
    if Objects(u, b) {
      InChangedKeys(u, b, SortedKeys(KeysOf(u) + KeysOf(b)), p);
    } else if Lists(u, b) && !LengthsDiffer(u, b) {
      InChangedItems(u, b, 0, p);
    }
    if p != [] {
      ChangedIffReported(Navigate(u, p[0]), Navigate(b, p[0]), p[1..]);
    }
  }

  lemma {:induction false} ReportedDiffers(u: Json, b: Json, p: Path)
    requires Reported(u, b, p)
    ensures !Same(Lookup(u, p), Lookup(b, p))
    decreases |p|
  {
    if p != [] {
      ReportedDiffers(Navigate(u, p[0]), Navigate(b, p[0]), p[1..]);
    }
  }

  lemma {:induction false} NothingBelowNull(p: Path)
    ensures Lookup(Null, p) == Null
    decreases |p|
  {
    if p != [] {
      NothingBelowNull(p[1..]);
    }
  }

  lemma {:induction false} BelowText(j: Json, p: Path)
    requires j.Str?
    ensures Lookup(j, p).Str? || Lookup(j, p).Null?
    decreases |p|
  {
    if p != [] {
      if Navigate(j, p[0]).Str? {
        BelowText(Navigate(j, p[0]), p[1..]);
      } else {
        NothingBelowNull(p[1..]);
      }
    }
  }

  /** Equal leaves stay equal further down: only a string has anything below it. */
  lemma SameLeavesBelow(u: Json, b: Json, p: Path)
    requires Leaf(u) && Leaf(b) && Same(u, b)
    ensures Same(Lookup(u, p), Lookup(b, p))
  {
    if p != [] {
      if u.Str? {
        BelowText(u, p);
      } else {
        NothingBelowNull(p[1..]);
      }
    }
  }

  lemma {:induction false} DifferenceIsReported(u: Json, b: Json, p: Path) returns (q: Path)
    requires Leaf(Lookup(u, p)) && Leaf(Lookup(b, p)) && !Same(Lookup(u, p), Lookup(b, p))
    ensures q <= p && Reported(u, b, q)
    decreases |p|
  {
    if !Objects(u, b) && (LengthsDiffer(u, b) || (!Lists(u, b) && !Same(u, b))) {
      q := [];
    } else if !Objects(u, b) && !Lists(u, b) {
      SameLeavesBelow(u, b, p);
    } else {
      assert Navigate(u, p[0]) != Null || Navigate(b, p[0]) != Null by {
        NothingBelowNull(p[1..]);
      }
      var rest := DifferenceIsReported(Navigate(u, p[0]), Navigate(b, p[0]), p[1..]);
      q := [p[0]] + rest;
      assert q[1..] == rest && p == [p[0]] + p[1..];
    }
  }

  lemma {:induction false} ReportedIsMinimal(u: Json, b: Json, p: Path, q: Path)
    requires Reported(u, b, p) && Reported(u, b, q) && p <= q
    ensures p == q
    decreases |p|
  {
    if p != [] {
      assert p[0] == q[0] && p[1..] <= q[1..];
      ReportedIsMinimal(Navigate(u, p[0]), Navigate(b, p[0]), p[1..], q[1..]);
      assert p == [p[0]] + p[1..] && q == [q[0]] + q[1..];
    }
  }

  /** The path leads, through objects and lists, to a NaN. */
  predicate NaNAt(j: Json, p: Path)
    decreases |p|
  {
    match j
    case Obj(f) => p != [] && p[0].Key? && p[0].k in f && NaNAt(f[p[0].k], p[1..])
    case Arr(x) => p != [] && p[0].Idx? && p[0].i < |x| && NaNAt(x[p[0].i], p[1..])
    case NaN => p == []
    case _ => false
  }

  /** Comparing a value with itself reports its NaNs and nothing else. */
  lemma {:induction false} SelfComparison(j: Json, p: Path)
    ensures Reported(j, j, p) <==> NaNAt(j, p)
    decreases |p|
  {
    if p != [] {
      SelfComparison(Navigate(j, p[0]), p[1..]);
    }
  }

  ghost predicate NoRepeats(paths: seq<Path>) {
    forall i, j :: 0 <= i < j < |paths| ==> paths[i] != paths[j]
  }

  lemma {:induction false} ChangedNoRepeats(u: Json, b: Json)
    ensures NoRepeats(Changed(u, b))
    decreases Present(u, b), u, b, 2, 0
  {
    if Objects(u, b) {
      KeysNoRepeats(u, b, SortedKeys(KeysOf(u) + KeysOf(b)));
    } else if Lists(u, b) && !LengthsDiffer(u, b) {
      ItemsNoRepeats(u, b, 0);
    }
  }

  lemma {:induction false} KeysNoRepeats(u: Json, b: Json, keys: seq<string>)
    requires Objects(u, b) && forall k :: k in keys ==> k in KeysOf(u) + KeysOf(b)
    requires forall i, j :: 0 <= i < j < |keys| ==> keys[i] != keys[j]
    ensures NoRepeats(ChangedKeys(u, b, keys))
    decreases Present(u, b), u, b, 1, |keys|
  {
    hide Changed, Same, Under;
    if keys != [] {
      assert keys[0] in keys;
      var first := Changed(Navigate(u, Key(keys[0])), Navigate(b, Key(keys[0])));
      var rest := ChangedKeys(u, b, keys[1..]);
      ChangedNoRepeats(Navigate(u, Key(keys[0])), Navigate(b, Key(keys[0])));
      KeysNoRepeats(u, b, keys[1..]);
      forall p | p in rest ensures p != [] && p[0] != Key(keys[0]) { InChangedKeys(u, b, keys[1..], p); }
      JoinNoRepeats(Key(keys[0]), first, rest);
    }
  }

  lemma {:induction false} ItemsNoRepeats(u: Json, b: Json, i: nat)
    requires Lists(u, b) && !LengthsDiffer(u, b) && i <= Count(u) + Count(b)
    ensures NoRepeats(ChangedItems(u, b, i))
    decreases Present(u, b), u, b, 1, Count(u) + Count(b) - i
  {
    hide Changed, Same, Under;
    if i < Count(u) || i < Count(b) {
      var first := Changed(Navigate(u, Idx(i)), Navigate(b, Idx(i)));
      var rest := ChangedItems(u, b, i + 1);
      ChangedNoRepeats(Navigate(u, Idx(i)), Navigate(b, Idx(i)));
      ItemsNoRepeats(u, b, i + 1);
      forall p | p in rest ensures p != [] && p[0] != Idx(i) { InChangedItems(u, b, i + 1, p); }
      JoinNoRepeats(Idx(i), first, rest);
    }
  }

  lemma JoinNoRepeats(t: Token, first: seq<Path>, rest: seq<Path>)
    requires NoRepeats(first) && NoRepeats(rest)
    requires forall p :: p in rest ==> p != [] && p[0] != t
    ensures NoRepeats(Under(t, first) + rest)
  {
    var all := Under(t, first) + rest;
    forall i, j | 0 <= i < j < |all| ensures all[i] != all[j] {
      if j < |first| {
        assert all[i][1..] == first[i] && all[j][1..] == first[j];
      } else if i < |first| {
        assert all[j] in rest;
      }
    }
  }

  lemma NothingMissed(u: Json, b: Json, p: Path)
    requires Leaf(Lookup(u, p)) && Leaf(Lookup(b, p)) && !Same(Lookup(u, p), Lookup(b, p))
    ensures exists q :: q in Changed(u, b) && q <= p
  {
    hide Changed, Reported;
    var q := DifferenceIsReported(u, b, p);
    ChangedIffReported(u, b, q);
  }

  lemma NothingInvented(u: Json, b: Json, p: Path)
    requires p in Changed(u, b)
    ensures !Same(Lookup(u, p), Lookup(b, p))
  {
    hide Changed, Reported;
    ChangedIffReported(u, b, p);
    ReportedDiffers(u, b, p);
  }

  lemma NothingNested(u: Json, b: Json, i: nat, j: nat)
    requires i < |Changed(u, b)| && j < |Changed(u, b)| && i != j
    ensures !(Changed(u, b)[i] <= Changed(u, b)[j])
  {
    hide Changed, Reported;
    var p, q := Changed(u, b)[i], Changed(u, b)[j];
    if p <= q {
      ChangedIffReported(u, b, p);
      ChangedIffReported(u, b, q);
      ReportedIsMinimal(u, b, p, q);
      ChangedNoRepeats(u, b);
    }
  }

  /**
    The comparison misses nothing and invents nothing: a path at which two leaves differ is reported, itself or through
    an ancestor; a reported path reads differently in the two trees; and no reported path lies inside another.
   */
  lemma ComparisonExact(u: Json, b: Json)
    ensures forall p :: Leaf(Lookup(u, p)) && Leaf(Lookup(b, p)) && !Same(Lookup(u, p), Lookup(b, p)) ==>
                          exists q :: q in Changed(u, b) && q <= p
    ensures forall p :: p in Changed(u, b) ==> !Same(Lookup(u, p), Lookup(b, p))
    ensures forall i, j :: 0 <= i < |Changed(u, b)| && 0 <= j < |Changed(u, b)| && i != j ==>
                             !(Changed(u, b)[i] <= Changed(u, b)[j])
  {
    hide Changed, Same, Lookup, Leaf;
    forall p | Leaf(Lookup(u, p)) && Leaf(Lookup(b, p)) && !Same(Lookup(u, p), Lookup(b, p))
      ensures exists q :: q in Changed(u, b) && q <= p
    {
      NothingMissed(u, b, p);
    }
    forall p | p in Changed(u, b) ensures !Same(Lookup(u, p), Lookup(b, p)) {
      NothingInvented(u, b, p);
    }
    forall i, j | 0 <= i < |Changed(u, b)| && 0 <= j < |Changed(u, b)| && i != j
      ensures !(Changed(u, b)[i] <= Changed(u, b)[j])
    {
      NothingNested(u, b, i, j);
    }
  }
}
