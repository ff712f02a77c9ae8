/** Applying only the whitelisted changes of a user's configuration to the deployed baseline. */
module ConfigPatch {
  import opened Options
  import opened ConfigDiff

  // ---------------------------------------------------------------- whitelist

  /** Nested sections ending in lists of field names. */
  datatype Whitelist = Section(entries: map<string, Whitelist>) | Fields(names: set<string>)

  /**
    The keys of a path's dot-separated tokens, with their indices dropped; a path that starts with an index has an
    empty first key.
   */
  function TokenKeys(p: Path): seq<string> {
    if p == [] || p[0].Idx? then [""] + KeyTokens(p) else KeyTokens(p)
  }

  function KeyTokens(p: Path): seq<string> {
    if p == [] then [] else (if p[0].Key? then [p[0].k] else []) + KeyTokens(p[1..])
  }

  /** The keys spell a way from the root of the whitelist to one of its field names. */
  predicate Allows(w: Whitelist, keys: seq<string>)
    decreases keys
  {
    match w
    case Section(m) => keys != [] && keys[0] in m && Allows(m[keys[0]], keys[1..])
    case Fields(names) => |keys| == 1 && keys[0] in names
  }

  predicate Whitelisted(w: Whitelist, p: Path) {
    Allows(w, TokenKeys(p))
  }

  /** The node that a list of section names leads to. */
  function Node(w: Whitelist, sections: seq<string>): Option<Whitelist>
    decreases sections
  {
    if sections == [] then Some(w)
    else if w.Section? && sections[0] in w.entries then Node(w.entries[sections[0]], sections[1..])
    else None
  }

  /** Accepted are the keys of sections that lead to a list of names, followed by one of its names. */
  lemma {:induction false} AllowsExactly(w: Whitelist, keys: seq<string>)
    ensures Allows(w, keys) <==>
              && keys != []
              && var node := Node(w, keys[..|keys| - 1]);
                 node.Some? && node.value.Fields? && keys[|keys| - 1] in node.value.names
    decreases keys
  {
    if |keys| > 1 && w.Section? && keys[0] in w.entries {
      AllowsExactly(w.entries[keys[0]], keys[1..]);
      assert keys[..|keys| - 1][1..] == keys[1..][..|keys| - 2];
    }
  }

  /** Nothing above or below an accepted field is accepted. */
  lemma {:induction false} AcceptedKeysApart(w: Whitelist, a: seq<string>, b: seq<string>)
    requires Allows(w, a) && Allows(w, b) && a <= b
    ensures a == b
    decreases a
  {
    if w.Section? {
      assert a[0] == b[0] && a[1..] <= b[1..];
      AcceptedKeysApart(w.entries[a[0]], a[1..], b[1..]);
      assert a == [a[0]] + a[1..] && b == [b[0]] + b[1..];
    }
  }

  /** A path's keys are its key tokens in order, without the indices. */
  lemma {:induction false} KeyTokensExactly(p: Path, q: Path)
    ensures KeyTokens(p + q) == KeyTokens(p) + KeyTokens(q)
    ensures forall k :: KeyTokens([Key(k)]) == [k]
    ensures forall i :: KeyTokens([Idx(i)]) == []
    ensures p != [] && p[0].Key? ==> TokenKeys(p) == KeyTokens(p)
    decreases |p|
  {
    forall k ensures KeyTokens([Key(k)]) == [k] { assert [Key(k)][1..] == []; }
    forall i ensures KeyTokens([Idx(i)]) == [] { assert [Idx(i)][1..] == []; }
    if p == [] {
      assert p + q == q;
    } else {
      assert (p + q)[1..] == p[1..] + q;
      KeyTokensExactly(p[1..], q);
    }
  }

  method PathIsWhitelisted(w: Whitelist, p: Path) returns (ok: bool)
    ensures ok == Whitelisted(w, p)
  {
    var keys := TokenKeys(p);
    var node, index := w, 0;
    while index < |keys|
      invariant 0 <= index <= |keys|
      invariant Allows(w, keys) == Allows(node, keys[index..])
    {
      match node {
        case Section(m) =>
          if keys[index] !in m {
            return false;
          }
          assert keys[index..][1..] == keys[index + 1..];
          node := m[keys[index]];
        case Fields(names) =>
          return index == |keys| - 1 && keys[index] in names;
      }
      index := index + 1;
    }
    return false;
  }

  // ---------------------------------------------------------------- writing one value

  /** Path strings that parse back: a key first, and at most one index after each key. */
  predicate Parses(p: Path) {
    && p != [] && p[0].Key?
    && forall i :: 0 <= i < |p| - 1 ==> !(p[i].Idx? && p[i + 1].Idx?)
  }

  /** Assigning below an existing container; a missing container, or one of the wrong kind, is an error. */
  function SetAt(j: Json, p: Path, v: Json): Option<Json>
    decreases |p|
  {
    if p == [] then None
    else
      match (j, p[0])
      case (Obj(f), Key(k)) =>
        if |p| == 1 then Some(Obj(f[k := v]))
        else if k in f then
          var child := SetAt(f[k], p[1..], v);
          if child.None? then None else Some(Obj(f[k := child.value]))
        else None
      case (Arr(x), Idx(i)) =>
        if i >= |x| then None
        else if |p| == 1 then Some(Arr(x[i := v]))
        else
          var child := SetAt(x[i], p[1..], v);
          if child.None? then None else Some(Arr(x[i := child.value]))
      case _ => None
  }

  /** The containers on the way to a path are there and of the right kind. */
  predicate HasContainer(j: Json, p: Path)
    decreases |p|
  {
    && p != []
    && match (j, p[0])
       case (Obj(f), Key(k)) => |p| == 1 || (k in f && HasContainer(f[k], p[1..]))
       case (Arr(x), Idx(i)) => i < |x| && (|p| == 1 || HasContainer(x[i], p[1..]))
       case _ => false
  }

  /** What a token can be applied to: a key to an object, an index to a list that is long enough. */
  predicate Takes(j: Json, t: Token) {
    match t
    case Key(_) => j.Obj?
    case Idx(i) => j.Arr? && i < |j.items|
  }

  /** A write has its container exactly when every step on the way finds something it can be applied to. */
  lemma {:induction false} HasContainerExactly(j: Json, p: Path)
    ensures HasContainer(j, p) <==> p != [] && forall n :: 0 <= n < |p| ==> Takes(Lookup(j, p[..n]), p[n])
    decreases |p|
  {
    if p != [] {
      assert Lookup(j, p[..0]) == j;
      var rest := p[1..];
      HasContainerExactly(Navigate(j, p[0]), rest);
      forall n | 0 < n < |p|
        ensures Lookup(j, p[..n]) == Lookup(Navigate(j, p[0]), rest[..n - 1]) && p[n] == rest[n - 1]
      {
        assert p[..n][0] == p[0] && p[..n][1..] == rest[..n - 1];
      }
      if |p| > 1 && forall n :: 0 <= n < |p| ==> Takes(Lookup(j, p[..n]), p[n]) {
        assert Takes(Lookup(j, p[..0]), p[0]) && Takes(Lookup(j, p[..1]), p[1]);
        forall m | 0 <= m < |rest| ensures Takes(Lookup(Navigate(j, p[0]), rest[..m]), rest[m]) {
          assert Takes(Lookup(j, p[..m + 1]), p[m + 1]);
        }
      }
    }
  }

  lemma {:induction false} SetAtSucceeds(j: Json, p: Path, v: Json)
    ensures SetAt(j, p, v).Some? <==> HasContainer(j, p)
    decreases |p|
  {
    if |p| > 1 {
      SetAtSucceeds(Navigate(j, p[0]), p[1..], v);
    }
  }

  /** What is left of a value when the contents of containers are ignored. */
  function Shape(j: Json): Json {
    match j
    case Obj(_) => Obj(map[])
    case Arr(x) => Arr(seq(|x|, _ => Null))
    case _ => j
  }

  predicate Comparable(p: Path, q: Path) {
    p <= q || q <= p
  }

  lemma {:induction false} SetAtHere(j: Json, p: Path, v: Json)
    requires SetAt(j, p, v).Some?
    ensures Lookup(SetAt(j, p, v).value, p) == v
    decreases |p|
  {
    if |p| > 1 {
      SetAtHere(Navigate(j, p[0]), p[1..], v);
    }
  }

  lemma {:induction false} SetAtElsewhere(j: Json, p: Path, v: Json, q: Path)
    requires SetAt(j, p, v).Some? && !Comparable(p, q)
    ensures Lookup(SetAt(j, p, v).value, q) == Lookup(j, q)
    ensures HasContainer(SetAt(j, p, v).value, q) == HasContainer(j, q)
    decreases |p|
  {
    var r := SetAt(j, p, v).value;
    if p[0] == q[0] {
      assert p == [p[0]] + p[1..] && q == [q[0]] + q[1..];
      assert !Comparable(p[1..], q[1..]);
      SetAtElsewhere(Navigate(j, p[0]), p[1..], v, q[1..]);
    } else {
      assert Navigate(r, q[0]) == Navigate(j, q[0]);
    }
  }

  lemma {:induction false} SetAtKeepsShape(j: Json, p: Path, v: Json, q: Path)
    requires SetAt(j, p, v).Some? && !(p <= q)
    ensures Shape(Lookup(SetAt(j, p, v).value, q)) == Shape(Lookup(j, q))
    decreases |p|
  {
    if !(q <= p) {
      SetAtElsewhere(j, p, v, q);
    } else if q == [] {
    } else {
      assert p[0] == q[0] && p == [p[0]] + p[1..] && q == [q[0]] + q[1..];
      SetAtKeepsShape(Navigate(j, p[0]), p[1..], v, q[1..]);
    }
  }

  // ---------------------------------------------------------------- applying all changes

  /** Writing the user's value at each path in turn. */
  function Patch(user: Json, j: Json, paths: seq<Path>): Option<Json> {
    if paths == [] then Some(j)
    else
      var before := Patch(user, j, paths[..|paths| - 1]);
      var p := paths[|paths| - 1];
      if before.None? || !Parses(p) then None else SetAt(before.value, p, Lookup(user, p))
  }

  function Selected(w: Whitelist, paths: seq<Path>): (r: seq<Path>)
    ensures forall p :: p in r <==> p in paths && Whitelisted(w, p)
  {
    if paths == [] then []
    else
      var rest := Selected(w, paths[..|paths| - 1]);
      var p := paths[|paths| - 1];
      assert paths == paths[..|paths| - 1] + [p];
      if Whitelisted(w, p) then rest + [p] else rest
  }

  /** The whitelisted paths that changed. */
  function Updates(w: Whitelist, user: Json, baseline: Json): seq<Path> {
    Selected(w, Changed(user, baseline))
  }

  method SelectWhitelisted(w: Whitelist, changed: seq<Path>) returns (whitelisted: seq<Path>)
    ensures whitelisted == Selected(w, changed)
  {
    whitelisted := [];
    var i := 0;
    while i < |changed|
      invariant 0 <= i <= |changed|
      invariant whitelisted == Selected(w, changed[..i])
    {
      var ok := PathIsWhitelisted(w, changed[i]);
      assert changed[..i + 1][..i] == changed[..i];
      if ok {
        whitelisted := whitelisted + [changed[i]];
      }
      i := i + 1;
    }
    assert changed[..|changed|] == changed;
  }

  method ApplyWhitelistUpdate(w: Whitelist, user: Json, baseline: Json) returns (result: Option<Json>)
    ensures result == Patch(user, baseline, Updates(w, user, baseline))
  {
    hide Changed, Selected, SetAt, Parses, Lookup;
    var whitelisted := SelectWhitelisted(w, Changed(user, baseline));
    var current := baseline;
    var i := 0;
    while i < |whitelisted|
      invariant 0 <= i <= |whitelisted|
      invariant Patch(user, baseline, whitelisted[..i]) == Some(current)
    {
      var p := whitelisted[i];
      assert whitelisted[..i + 1][..i] == whitelisted[..i];
      var written := if Parses(p) then SetAt(current, p, Lookup(user, p)) else None;
      if written.None? {
        FailureStays(user, baseline, whitelisted, i + 1);
        return None;
      }
      current := written.value;
      i := i + 1;
    }
    assert whitelisted[..|whitelisted|] == whitelisted;
    return Some(current);
  }

  lemma {:induction false} FailureStays(user: Json, j: Json, paths: seq<Path>, n: nat)
    requires n <= |paths| && Patch(user, j, paths[..n]).None?
    ensures Patch(user, j, paths).None?
    decreases |paths| - n
  {
    if n < |paths| {
      assert paths[..n + 1][..n] == paths[..n];
      FailureStays(user, j, paths, n + 1);
    } else {
      assert paths[..n] == paths;
    }
  }

  ghost predicate Antichain(paths: seq<Path>) {
    forall i, j :: 0 <= i < |paths| && 0 <= j < |paths| && i != j ==> !(paths[i] <= paths[j])
  }

  lemma {:induction false} SelectedAntichain(w: Whitelist, paths: seq<Path>)
    requires Antichain(paths)
    ensures Antichain(Selected(w, paths))
    decreases |paths|
  {
    if paths != [] {
      var n := |paths| - 1;
      hide Whitelisted, Antichain, Comparable;
      AntichainFront(paths);
      SelectedAntichain(w, paths[..n]);
      var rest := Selected(w, paths[..n]);
      forall q | q in rest ensures !Comparable(q, paths[n]) {
        assert q in paths[..n];
      }
      AntichainSnoc(rest, paths[n]);
    }
  }

  lemma AntichainFront(paths: seq<Path>)
    requires Antichain(paths) && paths != []
    ensures var n := |paths| - 1; Antichain(paths[..n]) && forall q :: q in paths[..n] ==> !Comparable(q, paths[n])
  {
    var n := |paths| - 1;
    forall q | q in paths[..n] ensures !Comparable(q, paths[n]) {
      var m :| 0 <= m < n && paths[m] == q;
    }
  }

  lemma AntichainSnoc(paths: seq<Path>, p: Path)
    requires Antichain(paths) && forall q :: q in paths ==> !Comparable(q, p)
    ensures Antichain(paths + [p])
  {
    var all := paths + [p];
    forall i, j | 0 <= i < |all| && 0 <= j < |all| && i != j ensures !(all[i] <= all[j]) {
      if i < |paths| {
        assert all[i] in paths;
      }
      if j < |paths| {
        assert all[j] in paths;
      }
    }
  }

  /** A patch along incomparable paths succeeds exactly when each path parses and has its container in the original. */
  lemma {:induction false} PatchSucceeds(user: Json, j: Json, paths: seq<Path>)
    requires Antichain(paths)
    ensures Patch(user, j, paths).Some? <==>
              forall i :: 0 <= i < |paths| ==> Parses(paths[i]) && HasContainer(j, paths[i])
    decreases |paths|
  {
    hide SetAt, HasContainer, Parses, Lookup;
    if paths != [] {
      var n := |paths| - 1;
      PatchSucceeds(user, j, paths[..n]);
      if Patch(user, j, paths[..n]).Some? {
        PatchElsewhere(user, j, paths[..n], paths[n]);
        SetAtSucceeds(Patch(user, j, paths[..n]).value, paths[n], Lookup(user, paths[n]));
      }
    }
  }

  lemma {:induction false} PatchElsewhere(user: Json, j: Json, paths: seq<Path>, q: Path)
    requires Patch(user, j, paths).Some?
    requires forall i :: 0 <= i < |paths| ==> !Comparable(paths[i], q)
    ensures Lookup(Patch(user, j, paths).value, q) == Lookup(j, q)
    ensures HasContainer(Patch(user, j, paths).value, q) == HasContainer(j, q)
    decreases |paths|
  {
    if paths != [] {
      var n := |paths| - 1;
      PatchElsewhere(user, j, paths[..n], q);
      SetAtElsewhere(Patch(user, j, paths[..n]).value, paths[n], Lookup(user, paths[n]), q);
    }
  }

  lemma {:induction false} PatchHere(user: Json, j: Json, paths: seq<Path>, i: nat)
    requires Patch(user, j, paths).Some? && Antichain(paths) && i < |paths|
    ensures Lookup(Patch(user, j, paths).value, paths[i]) == Lookup(user, paths[i])
    decreases |paths|
  {
    var n := |paths| - 1;
    var before := Patch(user, j, paths[..n]).value;
    if i == n {
      SetAtHere(before, paths[n], Lookup(user, paths[n]));
    } else {
      PatchHere(user, j, paths[..n], i);
      SetAtElsewhere(before, paths[n], Lookup(user, paths[n]), paths[i]);
    }
  }

  lemma {:induction false} PatchKeepsShape(user: Json, j: Json, paths: seq<Path>, q: Path)
    requires Patch(user, j, paths).Some?
    requires forall i :: 0 <= i < |paths| ==> !(paths[i] <= q)
    ensures Shape(Lookup(Patch(user, j, paths).value, q)) == Shape(Lookup(j, q))
    decreases |paths|
  {
    if paths != [] {
      var n := |paths| - 1;
      PatchKeepsShape(user, j, paths[..n], q);
      SetAtKeepsShape(Patch(user, j, paths[..n]).value, paths[n], Lookup(user, paths[n]), q);
    }
  }

  // ---------------------------------------------------------------- comparing again

  /** Whether a path is reported depends on the shapes along it only. */
  lemma {:induction false} ReportedByShape(u: Json, a: Json, b: Json, q: Path)
    requires Reported(u, a, q)
    requires forall n :: 0 <= n <= |q| ==> Shape(Lookup(a, q[..n])) == Shape(Lookup(b, q[..n]))
    ensures Reported(u, b, q)
    decreases |q|
  {
    assert Lookup(a, q[..0]) == a && Lookup(b, q[..0]) == b;
    assert Shape(a) == Shape(b);
    SameShapeKind(a, b);
    if q != [] {
      var t := q[0];
      forall n | 0 <= n <= |q| - 1
        ensures Shape(Lookup(Navigate(a, t), q[1..][..n])) == Shape(Lookup(Navigate(b, t), q[1..][..n]))
      {
        assert q[..n + 1][0] == t && q[..n + 1][1..] == q[1..][..n];
        assert Shape(Lookup(a, q[..n + 1])) == Shape(Lookup(b, q[..n + 1]));
      }
      ReportedByShape(Navigate(u, t), Navigate(a, t), Navigate(b, t), q[1..]);
      ReportedIsNotNull(Navigate(u, t), Navigate(b, t), q[1..]);
    }
  }

  lemma SameShapeKind(a: Json, b: Json)
    requires Shape(a) == Shape(b)
    ensures a.Obj? == b.Obj? && a.Arr? == b.Arr? && (Leaf(a) ==> a == b)
    ensures a.Arr? ==> |a.items| == |b.items|
  {
    if a.Arr? && b.Arr? {
      assert |Shape(a).items| == |a.items| && |Shape(b).items| == |b.items|;
    }
  }

  /** Nothing is ever reported between two missing values. */
  lemma ReportedIsNotNull(u: Json, b: Json, q: Path)
    requires Reported(u, b, q)
    ensures u != Null || b != Null
  {
  }

  lemma {:induction false} ReportedBelow(u: Json, b: Json, p: Path, q: Path)
    requires Reported(u, b, p + q)
    ensures Reported(Lookup(u, p), Lookup(b, p), q)
    decreases |p|
  {
    if p == [] {
      assert p + q == q;
    } else {
      assert (p + q)[1..] == p[1..] + q;
      ReportedBelow(Navigate(u, p[0]), Navigate(b, p[0]), p[1..], q);
    }
  }

  /** The other way: a path on which the walk down `p` would have stopped goes on below it. */
  lemma {:induction false} ReportedAbove(u: Json, a: Json, b: Json, p: Path, q: Path)
    requires Reported(u, a, p) && Reported(Lookup(u, p), Lookup(b, p), q)
    requires forall n :: 0 <= n < |p| ==> Shape(Lookup(a, p[..n])) == Shape(Lookup(b, p[..n]))
    ensures Reported(u, b, p + q)
    decreases |p|
  {
    if p == [] {
      assert p + q == q;
    } else {
      var t := p[0];
      assert Lookup(a, p[..0]) == a && Lookup(b, p[..0]) == b;
      assert Shape(a) == Shape(b);
      SameShapeKind(a, b);
      forall n | 0 <= n < |p| - 1
        ensures Shape(Lookup(Navigate(a, t), p[1..][..n])) == Shape(Lookup(Navigate(b, t), p[1..][..n]))
      {
        assert p[..n + 1][0] == t && p[..n + 1][1..] == p[1..][..n];
        assert Shape(Lookup(a, p[..n + 1])) == Shape(Lookup(b, p[..n + 1]));
      }
      assert (p + q)[1..] == p[1..] + q && (p + q)[0] == t;
      ReportedAbove(Navigate(u, t), Navigate(a, t), Navigate(b, t), p[1..], q);
      ReportedIsNotNull(Navigate(u, t), Navigate(b, t), p[1..] + q);
    }
  }

  /** A NaN of the user's that was written at or above this path. */
  ghost predicate NaNWritten(user: Json, paths: seq<Path>, q: Path) {
    exists i :: 0 <= i < |paths| && NaNBelow(user, paths[i], q)
  }

  ghost predicate NaNBelow(user: Json, p: Path, q: Path) {
    p <= q && NaNAt(Lookup(user, p), q[|p|..])
  }

  /** A path still reported after the patch leads to a NaN that was written, or was reported before it elsewhere. */
  lemma StillReported(user: Json, baseline: Json, paths: seq<Path>, q: Path)
    requires Antichain(paths) && Patch(user, baseline, paths).Some?
    requires Reported(user, Patch(user, baseline, paths).value, q) && !NaNWritten(user, paths, q)
    ensures Reported(user, baseline, q)
    ensures forall i :: 0 <= i < |paths| ==> !(paths[i] <= q)
  {
    hide Patch, Reported, Antichain, NaNAt;
    var result := Patch(user, baseline, paths).value;
    forall i | 0 <= i < |paths| ensures !(paths[i] <= q) {
      assert !NaNBelow(user, paths[i], q);
      if paths[i] <= q {
        var below := q[|paths[i]|..];
        assert q == paths[i] + below;
        ReportedBelow(user, result, paths[i], below);
        PatchHere(user, baseline, paths, i);
        SelfComparison(Lookup(user, paths[i]), below);
      }
    }
    forall n | 0 <= n <= |q| ensures Shape(Lookup(result, q[..n])) == Shape(Lookup(baseline, q[..n])) {
      PatchKeepsShape(user, baseline, paths, q[..n]);
    }
    ReportedByShape(user, result, baseline, q);
  }

  lemma ShorterPrefix(a: Path, p: Path, n: nat)
    requires n <= |p|
    ensures a <= p[..n] ==> a <= p && |a| <= n
  {
    assert |a| <= n ==> p[..n][..|a|] == p[..|a|];
  }

  /** A NaN that was written is reported again. */
  lemma NaNReportedAgain(user: Json, baseline: Json, paths: seq<Path>, i: nat, q: Path)
    requires Antichain(paths) && Patch(user, baseline, paths).Some?
    requires i < |paths| && Reported(user, baseline, paths[i]) && NaNBelow(user, paths[i], q)
    ensures Reported(user, Patch(user, baseline, paths).value, q)
  {
    hide Patch, Reported, NaNAt;
    var result, p := Patch(user, baseline, paths).value, paths[i];
    var below := q[|p|..];
    assert q == p + below;
    PatchHere(user, baseline, paths, i);
    SelfComparison(Lookup(user, p), below);
    forall n | 0 <= n < |p| ensures Shape(Lookup(baseline, p[..n])) == Shape(Lookup(result, p[..n])) {
      forall j | 0 <= j < |paths| ensures !(paths[j] <= p[..n]) {
        ShorterPrefix(paths[j], p, n);
      }
      PatchKeepsShape(user, baseline, paths, p[..n]);
    }
    ReportedAbove(user, baseline, result, p, below);
  }

  lemma UpdatesAntichain(w: Whitelist, user: Json, baseline: Json)
    ensures Antichain(Updates(w, user, baseline))
  {
    ComparisonExact(user, baseline);
    SelectedAntichain(w, Changed(user, baseline));
  }

  /** The update goes through exactly when every whitelisted change parses and has its container in the baseline. */
  lemma UpdateSucceedsExactly(w: Whitelist, user: Json, baseline: Json)
    ensures Patch(user, baseline, Updates(w, user, baseline)).Some? <==>
              forall p :: p in Changed(user, baseline) && Whitelisted(w, p) ==> Parses(p) && HasContainer(baseline, p)
  {
    hide Changed, Patch, HasContainer, Parses, Whitelisted, Selected, Antichain;
    var updates := Updates(w, user, baseline);
    UpdatesAntichain(w, user, baseline);
    PatchSucceeds(user, baseline, updates);
    if forall i :: 0 <= i < |updates| ==> Parses(updates[i]) && HasContainer(baseline, updates[i]) {
      forall p | p in Changed(user, baseline) && Whitelisted(w, p) ensures Parses(p) && HasContainer(baseline, p) {
        assert p in updates;
      }
    }
  }

  /** Comparing again reports, of the whitelisted paths, exactly the NaNs that were written. */
  lemma ReportedAgainExactly(w: Whitelist, user: Json, baseline: Json, q: Path)
    requires Patch(user, baseline, Updates(w, user, baseline)).Some? && Whitelisted(w, q)
    ensures q in Changed(user, Patch(user, baseline, Updates(w, user, baseline)).value) <==>
              NaNWritten(user, Updates(w, user, baseline), q)
  {
    hide Changed, Patch, Whitelisted, Antichain, Reported, NaNBelow;
    var updates := Updates(w, user, baseline);
    var result := Patch(user, baseline, updates).value;
    UpdatesAntichain(w, user, baseline);
    ChangedIffReported(user, result, q);
    ChangedIffReported(user, baseline, q);
    assert q in Changed(user, baseline) ==> q in updates;
    if i :| 0 <= i < |updates| && NaNBelow(user, updates[i], q) {
      assert updates[i] in updates;
      ChangedIffReported(user, baseline, updates[i]);
      NaNReportedAgain(user, baseline, updates, i, q);
    } else if Reported(user, result, q) {
      StillReported(user, baseline, updates, q);
    }
  }

  /** The whitelisted part of the user's configuration that is written holds no NaN. */
  ghost predicate NoNaNWritten(w: Whitelist, user: Json, baseline: Json) {
    forall q :: Whitelisted(w, q) ==> !NaNWritten(user, Updates(w, user, baseline), q)
  }

  /**
    A whitelisted update is framed and complete: away from the whitelisted changes the result reads like the baseline,
    at each of them it reads like the user's configuration.  It converges, so that comparing again finds none of them,
    if and only if no NaN was written.
   */
  lemma UpdateFramedCompleteConvergent(w: Whitelist, user: Json, baseline: Json)
    requires Patch(user, baseline, Updates(w, user, baseline)).Some?
    ensures var result := Patch(user, baseline, Updates(w, user, baseline)).value;
            && (forall q :: (forall p :: p in Updates(w, user, baseline) ==> !Comparable(p, q)) ==>
                              Lookup(result, q) == Lookup(baseline, q))
            && (forall p :: p in Updates(w, user, baseline) ==> Lookup(result, p) == Lookup(user, p))
            && ((forall q :: q in Changed(user, result) ==> !Whitelisted(w, q)) <==> NoNaNWritten(w, user, baseline))
  {
    hide Changed, Patch, Whitelisted, Lookup, Antichain, Reported, Selected, NaNWritten;
    var updates := Updates(w, user, baseline);
    var result := Patch(user, baseline, updates).value;
    UpdatesAntichain(w, user, baseline);
    forall q | forall p :: p in updates ==> !Comparable(p, q) ensures Lookup(result, q) == Lookup(baseline, q) {
      PatchElsewhere(user, baseline, updates, q);
    }
    forall p | p in updates ensures Lookup(result, p) == Lookup(user, p) {
      var i :| 0 <= i < |updates| && updates[i] == p;
      PatchHere(user, baseline, updates, i);
    }
    forall q | Whitelisted(w, q) ensures q in Changed(user, result) <==> NaNWritten(user, updates, q) {
      ReportedAgainExactly(w, user, baseline, q);
    }
  }

  /** One whitelisted field, and nothing else, in a section. */
  function OneField(x: Json): Json {
    Obj(map["n" := Obj(map["a" := x])])
  }

  lemma OnlyField(x: Json, y: Json, q: Path)
    requires Leaf(x) && Leaf(y) && !Objects(x, y) && !Lists(x, y) && !Same(x, y)
    ensures Reported(OneField(x), OneField(y), q) <==> q == [Key("n"), Key("a")]
  {
    ReportedInOnlyField("n", Obj(map["a" := x]), Obj(map["a" := y]), q);
    if q != [] {
      ReportedInOnlyField("a", x, y, q[1..]);
      assert q == [q[0]] + q[1..];
    }
  }

  lemma ReportedInOnlyField(k: string, u: Json, b: Json, p: Path)
    ensures Reported(Obj(map[k := u]), Obj(map[k := b]), p) <==> p != [] && p[0] == Key(k) && Reported(u, b, p[1..])
  {
    assert KeysOf(Obj(map[k := u])) + KeysOf(Obj(map[k := b])) == {k};
  }

  lemma FieldPath(x: Json, p: Path)
    requires p == [Key("n"), Key("a")]
    ensures Whitelisted(Section(map["n" := Fields({"a"})]), p) && Parses(p) && HasContainer(OneField(x), p)
    ensures NaNBelow(OneField(NaN), p, p)
  {
    var tail, section := p[1..], Obj(map["a" := NaN]);
    assert tail == [Key("a")] && tail[1..] == [] && p[|p|..] == [];
    assert KeyTokens(tail[1..]) == [] && KeyTokens(tail) == ["a"] && TokenKeys(p) == ["n", "a"];
    assert ["n", "a"][1..] == ["a"];
    assert Navigate(OneField(NaN), p[0]) == section && Navigate(section, tail[0]) == NaN;
    assert Lookup(NaN, tail[1..]) == NaN && Lookup(section, tail) == NaN;
  }

  /** A NaN never settles: a whitelisted field that the user sets to it is reported again after every update. */
  lemma NaNNeverSettles(x: Json)
    requires Leaf(x)
    ensures var w := Section(map["n" := Fields({"a"})]);
            var result := Patch(OneField(NaN), OneField(x), Updates(w, OneField(NaN), OneField(x)));
            && result.Some? && Whitelisted(w, [Key("n"), Key("a")])
            && [Key("n"), Key("a")] in Changed(OneField(NaN), result.value)
  {
    var w, p := Section(map["n" := Fields({"a"})]), [Key("n"), Key("a")];
    var user, baseline := OneField(NaN), OneField(x);
    FieldPath(x, p);
    forall q ensures q in Changed(user, baseline) <==> q == p {
      OnlyChange(x, p, q);
    }
    hide Changed, Whitelisted, Parses, HasContainer, NaNBelow, OneField;
    NaNAlone(w, user, baseline, p);
  }

  lemma OnlyChange(x: Json, p: Path, q: Path)
    requires Leaf(x) && p == [Key("n"), Key("a")]
    ensures q in Changed(OneField(NaN), OneField(x)) <==> q == p
  {
    hide Changed, Reported, OneField;
    ChangedIffReported(OneField(NaN), OneField(x), q);
    OnlyField(NaN, x, q);
  }

  lemma NaNAlone(w: Whitelist, user: Json, baseline: Json, p: Path)
    requires forall q :: q in Changed(user, baseline) <==> q == p
    requires Whitelisted(w, p) && Parses(p) && HasContainer(baseline, p) && NaNBelow(user, p, p)
    ensures var result := Patch(user, baseline, Updates(w, user, baseline));
            result.Some? && p in Changed(user, result.value)
  {
    hide Patch, Changed, Whitelisted, Parses, HasContainer, NaNBelow, Updates, NaNWritten;
    UpdateSucceedsExactly(w, user, baseline);
    InUpdates(w, user, baseline, p);
    ReportedAgainExactly(w, user, baseline, p);
  }

  lemma InUpdates(w: Whitelist, user: Json, baseline: Json, p: Path)
    requires p in Changed(user, baseline) && Whitelisted(w, p) && NaNBelow(user, p, p)
    ensures NaNWritten(user, Updates(w, user, baseline), p)
  {
    hide Changed, Whitelisted, NaNBelow;
    var i :| 0 <= i < |Updates(w, user, baseline)| && Updates(w, user, baseline)[i] == p;
  }

  lemma Raises(w: Whitelist, user: Json, baseline: Json, p: Path)
    requires Reported(user, baseline, p) && Whitelisted(w, p) && !(Parses(p) && HasContainer(baseline, p))
    ensures Patch(user, baseline, Updates(w, user, baseline)) == None
  {
    ChangedIffReported(user, baseline, p);
    UpdateSucceedsExactly(w, user, baseline);
  }

  lemma ReportedInField(k: string, u: Json, b: Json, p: Path)
    requires Reported(u, b, p)
    ensures Reported(Obj(map[k := u]), Obj(map[k := b]), [Key(k)] + p)
  {
    assert ([Key(k)] + p)[1..] == p;
  }

  lemma ReportedInItem(u: Json, b: Json, p: Path)
    requires Reported(u, b, p)
    ensures Reported(Arr([u]), Arr([b]), [Idx(0)] + p)
  {
    assert ([Idx(0)] + p)[1..] == p;
  }

  /** A whitelisted change inside a list of lists raises: its path has two indices in a row and does not parse back. */
  lemma NestedListRaises(x: Json, y: Json)
    requires Leaf(x) && Leaf(y) && !Same(x, y)
    ensures var w := Section(map["n" := Fields({"a"})]);
            var user := Obj(map["n" := Obj(map["a" := Arr([Arr([x])])])]);
            var baseline := Obj(map["n" := Obj(map["a" := Arr([Arr([y])])])]);
            Patch(user, baseline, Updates(w, user, baseline)) == None
  {
    hide Patch, Updates, Changed;
    var w := Section(map["n" := Fields({"a"})]);
    var user := Obj(map["n" := Obj(map["a" := Arr([Arr([x])])])]);
    var baseline := Obj(map["n" := Obj(map["a" := Arr([Arr([y])])])]);
    var p := [Key("n"), Key("a"), Idx(0), Idx(0)];
    assert Reported(user, baseline, p) by {
      ReportedInItem(x, y, []);
      ReportedInItem(Arr([x]), Arr([y]), [Idx(0)] + []);
      ReportedInField("a", Arr([Arr([x])]), Arr([Arr([y])]), [Idx(0)] + ([Idx(0)] + []));
      ReportedInField("n", user.fields["n"], baseline.fields["n"], [Key("a")] + ([Idx(0)] + ([Idx(0)] + [])));
      assert p == [Key("n")] + ([Key("a")] + ([Idx(0)] + ([Idx(0)] + [])));
    }
    TwoIndices(p);
    Raises(w, user, baseline, p);
  }

  lemma TwoIndices(p: Path)
    requires p == [Key("n"), Key("a"), Idx(0), Idx(0)]
    ensures Whitelisted(Section(map["n" := Fields({"a"})]), p) && !Parses(p)
  {
    assert p[1..] == [Key("a"), Idx(0), Idx(0)] && p[1..][1..] == [Idx(0), Idx(0)] && p[1..][1..][1..] == [Idx(0)];
    assert KeyTokens([Idx(0)]) == [] && KeyTokens([Idx(0), Idx(0)]) == [] && KeyTokens(p[1..]) == ["a"];
    assert TokenKeys(p) == ["n", "a"] && ["n", "a"][1..] == ["a"];
    assert p[2].Idx? && p[3].Idx?;
  }

  /** A whitelisted field in a section the baseline lacks raises: there is nothing to write it into. */
  lemma MissingSectionRaises(x: Json)
    requires Leaf(x) && x != Null
    ensures var w := Section(map["n" := Fields({"a"})]);
            var user := Obj(map["n" := Obj(map["a" := x])]);
            Patch(user, Obj(map[]), Updates(w, user, Obj(map[]))) == None
  {
    hide Patch, Updates, Changed;
    var user, p := Obj(map["n" := Obj(map["a" := x])]), [Key("n"), Key("a")];
    assert p[1..] == [Key("a")] && KeyTokens(p[1..]) == ["a"] && TokenKeys(p) == ["n", "a"];
    assert Reported(x, Null, []);
    assert Reported(user.fields["n"], Null, p[1..]);
    Raises(Section(map["n" := Fields({"a"})]), user, Obj(map[]), p);
  }
}
