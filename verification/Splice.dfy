/** Applying text replacements from the end of a file to its start. */
module Splice {
  import Sorting

  datatype Replacement = Replacement(start: nat, end: nat, text: string)

  function Start(r: Replacement): real {
    r.start as real
  }

  /** The order of application: by descending start, and as listed where starts are equal. */
  function Sorted(reps: seq<Replacement>): seq<Replacement> {
    Sorting.LargestFirst(reps, Start)
  }

  /** Every range lies within the text. */
  ghost predicate InBounds(source: string, reps: seq<Replacement>) {
    forall r :: r in reps ==> r.start <= r.end <= |source|
  }

  // ---------------------------------------------------------------- the loop

  function Min(a: nat, b: nat): nat {
    if a < b then a else b
  }

  /** One step, with slices that are cut off at the end of the text. */
  function Cut(text: string, r: Replacement): string {
    text[..Min(r.start, |text|)] + r.text + text[Min(r.end, |text|)..]
  }

  function Applied(text: string, sorted: seq<Replacement>): string
    decreases sorted
  {
    if sorted == [] then text else Applied(Cut(text, sorted[0]), sorted[1..])
  }

  method ApplyReplacements(source: string, reps: seq<Replacement>) returns (result: string)
    ensures result == Applied(source, Sorted(reps))
  {
    var sorted := Sorted(reps);
    result := source;
    var i := 0;
    while i < |sorted|
      invariant 0 <= i <= |sorted|
      invariant Applied(source, sorted) == Applied(result, sorted[i..])
    {
      var repl := sorted[i];
      assert sorted[i..][1..] == sorted[i + 1..];
      result := result[..Min(repl.start, |result|)] + repl.text + result[Min(repl.end, |result|)..];
      i := i + 1;
    }
  }

  // ---------------------------------------------------------------- when offsets stay valid

  predicate EndsBy(s: seq<Replacement>, pos: nat) {
    s == [] || (s[0].end <= pos && EndsBy(s[1..], pos))
  }

  /** In the order of application, every range ends before the ones already replaced start. */
  predicate Falling(sorted: seq<Replacement>) {
    sorted == [] || (EndsBy(sorted[1..], sorted[0].start) && Falling(sorted[1..]))
  }

  /** What that takes of two replacements, the first listed before the second. */
  predicate Placed(a: Replacement, b: Replacement) {
    if a.start >= b.start then b.end <= a.start else a.end <= b.start
  }

  predicate PlacedBefore(r: Replacement, s: seq<Replacement>) {
    s == [] || (Placed(r, s[0]) && PlacedBefore(r, s[1..]))
  }

  predicate Orderly(reps: seq<Replacement>) {
    reps == [] || (PlacedBefore(reps[0], reps[1..]) && Orderly(reps[1..]))
  }

  lemma {:induction false} EndsByInsert(r: Replacement, s: seq<Replacement>, pos: nat)
    ensures EndsBy(Sorting.Insert(r, s, Start), pos) <==> r.end <= pos && EndsBy(s, pos)
  {
    if s != [] && r.start < s[0].start {
      EndsByInsert(r, s[1..], pos);
    }
  }

  lemma {:induction false} PlacedBeforeInsert(a: Replacement, r: Replacement, s: seq<Replacement>)
    ensures PlacedBefore(a, Sorting.Insert(r, s, Start)) <==> Placed(a, r) && PlacedBefore(a, s)
  {
    if s != [] && r.start < s[0].start {
      PlacedBeforeInsert(a, r, s[1..]);
    }
  }

  lemma {:induction false} PlacedBeforeSorted(a: Replacement, s: seq<Replacement>)
    ensures PlacedBefore(a, Sorted(s)) <==> PlacedBefore(a, s)
  {
    if s != [] {
      PlacedBeforeSorted(a, s[1..]);
      PlacedBeforeInsert(a, s[0], Sorted(s[1..]));
    }
  }

  lemma {:induction false} PlacedAbove(r: Replacement, s: seq<Replacement>)
    requires Sorting.NoneAbove(s, Start, Start(r))
    ensures PlacedBefore(r, s) <==> EndsBy(s, r.start)
  {
    if s != [] {
      assert Start(s[0]) <= Start(r);
      PlacedAbove(r, s[1..]);
    }
  }

  lemma {:induction false} InsertFalling(r: Replacement, s: seq<Replacement>)
    requires Sorting.Descending(s, Start)
    ensures Falling(Sorting.Insert(r, s, Start)) <==> Falling(s) && PlacedBefore(r, s)
  {
    if s != [] {
      if r.start >= s[0].start {
        assert s == [s[0]] + s[1..];
        assert Sorting.NoneAbove(s, Start, Start(r));
        PlacedAbove(r, s);
      } else {
        InsertFalling(r, s[1..]);
        EndsByInsert(r, s[1..], s[0].start);
      }
    }
  }

  /** Replacing never disturbs a range that is still to come, exactly when the list is orderly. */
  lemma {:induction false} OffsetsStayValidExactly(reps: seq<Replacement>)
    ensures Falling(Sorted(reps)) <==> Orderly(reps)
  {
    if reps != [] {
      OffsetsStayValidExactly(reps[1..]);
      Sorting.LargestFirstSorts(reps[1..], Start);
      InsertFalling(reps[0], Sorted(reps[1..]));
      PlacedBeforeSorted(reps[0], reps[1..]);
    }
  }

  /** No two ranges overlap. */
  ghost predicate Disjoint(reps: seq<Replacement>) {
    forall i, j :: 0 <= i < j < |reps| ==> reps[i].end <= reps[j].start || reps[j].end <= reps[i].start
  }

  /** Of two ranges that start together, the one listed later is empty. */
  ghost predicate EmptyLast(reps: seq<Replacement>) {
    forall i, j :: 0 <= i < j < |reps| && reps[i].start == reps[j].start ==> reps[j].end == reps[j].start
  }

  ghost predicate Apart(a: Replacement, b: Replacement) {
    && (a.end <= b.start || b.end <= a.start)
    && (a.start == b.start ==> b.end == b.start)
  }

  lemma {:induction false} PlacedBeforeMeans(r: Replacement, s: seq<Replacement>)
    requires r.start <= r.end && forall j :: 0 <= j < |s| ==> s[j].start <= s[j].end
    ensures PlacedBefore(r, s) <==> forall j :: 0 <= j < |s| ==> Apart(r, s[j])
  {
    if s != [] {
      PlacedBeforeMeans(r, s[1..]);
      assert forall j :: 1 <= j < |s| ==> s[j] == s[1..][j - 1];
      assert Placed(r, s[0]) <==> Apart(r, s[0]);
    }
  }

  ghost predicate AllApart(reps: seq<Replacement>) {
    forall i, j :: 0 <= i < j < |reps| ==> Apart(reps[i], reps[j])
  }

  lemma AllApartSplit(reps: seq<Replacement>)
    requires reps != []
    ensures AllApart(reps) <==>
              (forall j :: 0 <= j < |reps| - 1 ==> Apart(reps[0], reps[1..][j])) && AllApart(reps[1..])
  {
    hide Apart;
    assert forall j :: 1 <= j < |reps| ==> reps[j] == reps[1..][j - 1];
  }

  /** Orderly lists are those of disjoint ranges in which no empty range is listed before a neighbour it starts with. */
  lemma {:induction false} OrderlyExactly(source: string, reps: seq<Replacement>)
    requires InBounds(source, reps)
    ensures Orderly(reps) <==> Disjoint(reps) && EmptyLast(reps)
  {
    OrderlyIsApart(reps);
    assert AllApart(reps) <==> Disjoint(reps) && EmptyLast(reps);
  }

  lemma {:induction false} OrderlyIsApart(reps: seq<Replacement>)
    requires forall r :: r in reps ==> r.start <= r.end
    ensures Orderly(reps) <==> AllApart(reps)
  {
    if reps != [] {
      hide Apart, AllApart;
      OrderlyIsApart(reps[1..]);
      PlacedBeforeMeans(reps[0], reps[1..]);
      AllApartSplit(reps);
    }
  }

  // ---------------------------------------------------------------- substitution

  ghost predicate InOrder(source: string, reps: seq<Replacement>) {
    && (forall i :: 0 <= i < |reps| ==> reps[i].start <= reps[i].end <= |source|)
    && (forall i, j :: 0 <= i < j < |reps| ==> reps[i].end <= reps[j].start)
  }

  /** All replacements at once: the text from `pos` on, with each range exchanged for its text. */
  function Substitute(source: string, reps: seq<Replacement>, pos: nat): string
    requires pos <= |source| && InOrder(source, reps) && (reps != [] ==> pos <= reps[0].start)
  {
    if reps == [] then source[pos..]
    else source[pos..reps[0].start] + reps[0].text + Substitute(source, reps[1..], reps[0].end)
  }

  function Reversed(s: seq<Replacement>): (r: seq<Replacement>)
    ensures |r| == |s| && forall i :: 0 <= i < |s| ==> r[i] == s[|s| - 1 - i]
  {
    seq(|s|, i requires 0 <= i < |s| => s[|s| - 1 - i])
  }

  /** The replacements in textual order. */
  function Ascending(reps: seq<Replacement>): seq<Replacement> {
    Reversed(Sorted(reps))
  }

  lemma {:induction false} EndsByEach(s: seq<Replacement>, pos: nat, j: nat)
    requires EndsBy(s, pos) && j < |s|
    ensures s[j].end <= pos
  {
    if j > 0 {
      EndsByEach(s[1..], pos, j - 1);
    }
  }

  lemma {:induction false} FallingPairs(s: seq<Replacement>, i: nat, j: nat)
    requires Falling(s) && i < j < |s|
    ensures s[j].end <= s[i].start
  {
    if i > 0 {
      FallingPairs(s[1..], i - 1, j - 1);
    } else {
      EndsByEach(s[1..], s[0].start, j - 1);
    }
  }

  lemma SortedMembers(reps: seq<Replacement>, r: Replacement)
    ensures r in Sorted(reps) <==> r in reps
  {
    Sorting.LargestFirstMembers(reps, Start, r);
  }

  lemma AscendingInOrder(source: string, reps: seq<Replacement>)
    requires InBounds(source, reps) && Orderly(reps)
    ensures InOrder(source, Ascending(reps))
  {
    hide Sorted, Falling, Orderly;
    var s, up := Sorted(reps), Ascending(reps);
    OffsetsStayValidExactly(reps);
    forall i | 0 <= i < |up| ensures up[i].start <= up[i].end <= |source| {
      assert up[i] in s;
      SortedMembers(reps, up[i]);
    }
    forall i, j | 0 <= i < j < |up| ensures up[i].end <= up[j].start {
      FallingPairs(s, |s| - 1 - j, |s| - 1 - i);
    }
  }

  /** Replacing one by one from the end is replacing all at once. */
  lemma SpliceIsSubstitution(source: string, reps: seq<Replacement>)
    requires InBounds(source, reps) && Orderly(reps)
    ensures InOrder(source, Ascending(reps))
    ensures Applied(source, Sorted(reps)) == Substitute(source, Ascending(reps), 0)
  {
    AscendingInOrder(source, reps);
    var up := Ascending(reps);
    NothingDone(source, up);
    assert up[..|up|] == up && Reversed(up) == Sorted(reps);
    StepsBack(source, up, |up|, source);
    AllDone(source, up);
  }

  lemma {:induction false} StepsBack(source: string, up: seq<Replacement>, i: nat, text: string)
    requires InOrder(source, up) && i <= |up| && text == Shown(source, up, i)
    ensures Applied(text, Reversed(up[..i])) == Shown(source, up, 0)
    decreases i
  {
    hide InOrder, Shown;
    if i > 0 {
      var todo := Reversed(up[..i]);
      assert todo[0] == up[i - 1] && todo[1..] == Reversed(up[..i - 1]);
      StepBack(source, up, i - 1, text);
      StepsBack(source, up, i - 1, Cut(text, up[i - 1]));
    }
  }

  /** An empty range listed before the neighbour it starts with: the neighbour then overwrites what was inserted. */
  lemma EmptyFirstBreaks(source: string, start: nat, end: nat, x: string, y: string)
    requires start < end <= |source| && x != "" && y != "" && x[0] != y[0]
    ensures var insertion, neighbour := Replacement(start, start, x), Replacement(start, end, y);
            && InOrder(source, [insertion, neighbour])
            && Applied(source, Sorted([insertion, neighbour])) != Substitute(source, [insertion, neighbour], 0)
  {
    var insertion, neighbour := Replacement(start, start, x), Replacement(start, end, y);
    SortedPair(insertion, neighbour);
    hide Sorted;
    AppliedPair(source, insertion, neighbour);
    SubstitutePair(source, insertion, neighbour);
    var once := Cut(source, insertion);
    assert once[..start] == source[..start];
    assert Cut(once, neighbour)[start] == y[0];
    assert (source[..start] + x)[start] == x[0];
  }

  lemma AppliedPair(text: string, a: Replacement, b: Replacement)
    ensures Applied(text, [a, b]) == Cut(Cut(text, a), b)
  {
    hide Cut;
    assert [a, b][1..] == [b] && [b][1..] == [];
    assert Applied(Cut(text, a), [b]) == Applied(Cut(Cut(text, a), b), []);
  }

  lemma SubstitutePair(source: string, a: Replacement, b: Replacement)
    requires InOrder(source, [a, b]) && a.start <= |source|
    ensures source[..a.start] + a.text <= Substitute(source, [a, b], 0)
  {
    var reps := [a, b];
    RestInOrder(source, reps);
    assert Substitute(source, reps, 0) == source[0..a.start] + a.text + Substitute(source, reps[1..], a.end);
  }

  lemma SortedPair(a: Replacement, b: Replacement)
    requires a.start == b.start
    ensures Sorted([a, b]) == [a, b]
  {
    assert [a, b][1..] == [b] && [b][1..] == [];
    assert Sorting.LargestFirst([b], Start) == Sorting.Insert(b, [], Start) == [b];
    assert Sorting.LargestFirst([a, b], Start) == Sorting.Insert(a, [b], Start) == [a] + [b];
  }

  /** The text once the replacements from `i` on are done. */
  function Shown(source: string, sorted: seq<Replacement>, i: nat): string
    requires InOrder(source, sorted) && i <= |sorted|
  {
    SuffixInOrder(source, sorted, i);
    source[..Limit(source, sorted, i)] + Substitute(source, sorted[i..], Limit(source, sorted, i))
  }

  lemma SuffixInOrder(source: string, sorted: seq<Replacement>, i: nat)
    requires InOrder(source, sorted) && i <= |sorted|
    ensures InOrder(source, sorted[i..]) && Limit(source, sorted, i) <= |source|
    ensures i < |sorted| ==> sorted[i..][0] == sorted[i] && sorted[i..][1..] == sorted[i + 1..]
    ensures i < |sorted| ==> sorted[i].start <= sorted[i].end <= Limit(source, sorted, i + 1)
  {
    if i + 1 < |sorted| {
      assert sorted[i].end <= sorted[i + 1].start;
    }
  }

  lemma NothingDone(source: string, sorted: seq<Replacement>)
    requires InOrder(source, sorted)
    ensures Shown(source, sorted, |sorted|) == source
  {
    assert sorted[|sorted|..] == [];
  }

  lemma AllDone(source: string, sorted: seq<Replacement>)
    requires InOrder(source, sorted)
    ensures Shown(source, sorted, 0) == Substitute(source, sorted, 0)
  {
    hide Substitute;
    SuffixInOrder(source, sorted, 0);
    assert sorted[0..] == sorted && source[..0] == "";
    Slide(source, sorted, 0, Limit(source, sorted, 0));
  }

  lemma StepBack(source: string, sorted: seq<Replacement>, i: nat, result: string)
    requires InOrder(source, sorted) && i < |sorted| && result == Shown(source, sorted, i + 1)
    ensures sorted[i].start <= sorted[i].end <= |result|
    ensures Cut(result, sorted[i]) == Shown(source, sorted, i)
  {
    hide Substitute, InOrder;
    var r := sorted[i];
    SuffixInOrder(source, sorted, i);
    SuffixInOrder(source, sorted, i + 1);
    Slide(source, sorted[i + 1..], r.end, Limit(source, sorted, i + 1));
    assert result[..r.start] == source[..r.start];
    assert result[r.end..] == Substitute(source, sorted[i + 1..], r.end);
    Unfold(source, sorted[i..]);
  }

  lemma Regroup(a: string, b: string, c: string, d: string)
    ensures (a + b) + c + d == a + (b + c + d)
  {
  }

  lemma RestInOrder(source: string, reps: seq<Replacement>)
    requires reps != [] && InOrder(source, reps)
    ensures InOrder(source, reps[1..]) && reps[0].start <= reps[0].end <= |source|
    ensures reps[1..] != [] ==> reps[0].end <= reps[1..][0].start
  {
    if |reps| > 1 {
      assert reps[0].end <= reps[1].start;
    }
  }

  lemma SubstituteFrom(source: string, reps: seq<Replacement>, p: nat, q: nat)
    requires p <= q <= |source| && InOrder(source, reps) && (reps != [] ==> q <= reps[0].start)
    ensures Substitute(source, reps, p) == source[p..q] + Substitute(source, reps, q)
  {
    hide InOrder;
    if reps == [] {
      assert source[p..] == source[p..q] + source[q..];
    } else {
      RestInOrder(source, reps);
      assert source[p..reps[0].start] == source[p..q] + source[q..reps[0].start];
      Regroup(source[p..q], source[q..reps[0].start], reps[0].text, Substitute(source, reps[1..], reps[0].end));
    }
  }

  /** Untouched text may be counted with either side. */
  lemma Slide(source: string, reps: seq<Replacement>, p: nat, q: nat)
    requires p <= q <= |source| && InOrder(source, reps) && (reps != [] ==> q <= reps[0].start)
    ensures source[..q] + Substitute(source, reps, q) == source[..p] + Substitute(source, reps, p)
  {
    hide InOrder, Substitute;
    SubstituteFrom(source, reps, p, q);
    assert source[..q] == source[..p] + source[p..q];
  }

  lemma Unfold(source: string, reps: seq<Replacement>)
    requires reps != [] && InOrder(source, reps)
    ensures Substitute(source, reps, reps[0].start) == reps[0].text + Substitute(source, reps[1..], reps[0].end)
  {
    assert source[reps[0].start..reps[0].start] == "";
  }

  /** Everything before this point of the text is still untouched when the replacements from `i` on are done. */
  function Limit(source: string, sorted: seq<Replacement>, i: nat): nat
    requires i <= |sorted|
  {
    if i < |sorted| then sorted[i].start else |source|
  }

  // ---------------------------------------------------------------- what substitution means

  /** How far the first `n` replacements move the text behind them. */
  function Shift(reps: seq<Replacement>, n: nat): int
    requires n <= |reps|
  {
    if n == 0 then 0 else |reps[0].text| - (reps[0].end - reps[0].start) + Shift(reps[1..], n - 1)
  }

  lemma {:induction false} SubstituteLength(source: string, reps: seq<Replacement>, pos: nat)
    requires pos <= |source| && InOrder(source, reps) && (reps != [] ==> pos <= reps[0].start)
    ensures |Substitute(source, reps, pos)| == |source| - pos + Shift(reps, |reps|)
  {
    hide InOrder;
    if reps != [] {
      RestInOrder(source, reps);
      SubstituteLength(source, reps[1..], reps[0].end);
    }
  }

  /** A character between range `n - 1` and range `n` is kept, moved by what the ranges before it added or removed. */
  lemma {:induction false} KeptVerbatim(source: string, reps: seq<Replacement>, pos: nat, n: nat, i: nat)
    requires pos <= i < |source| && InOrder(source, reps) && (reps != [] ==> pos <= reps[0].start)
    requires n <= |reps| && (n > 0 ==> reps[n - 1].end <= i) && (n < |reps| ==> i < reps[n].start)
    ensures 0 <= i - pos + Shift(reps, n) < |Substitute(source, reps, pos)|
    ensures Substitute(source, reps, pos)[i - pos + Shift(reps, n)] == source[i]
  {
    if reps != [] && n > 0 {
      assert reps[0].end <= i by {
        if n > 1 {
          assert reps[0].end <= reps[n - 1].start;
        }
      }
      KeptVerbatim(source, reps[1..], reps[0].end, n - 1, i);
    }
  }

  /** Each replacement's text stands, whole, where its range was. */
  lemma {:induction false} ReplacedWhole(source: string, reps: seq<Replacement>, pos: nat, n: nat)
    requires pos <= |source| && InOrder(source, reps) && (reps != [] ==> pos <= reps[0].start) && n < |reps|
    ensures var at := reps[n].start - pos + Shift(reps, n);
            && 0 <= at && at + |reps[n].text| <= |Substitute(source, reps, pos)|
            && Substitute(source, reps, pos)[at..at + |reps[n].text|] == reps[n].text
  {
    if n > 0 {
      ReplacedWhole(source, reps[1..], reps[0].end, n - 1);
      var rest, head := Substitute(source, reps[1..], reps[0].end), source[pos..reps[0].start] + reps[0].text;
      var at := reps[n].start - reps[0].end + Shift(reps[1..], n - 1);
      assert (head + rest)[|head| + at..|head| + at + |reps[n].text|] == rest[at..at + |reps[n].text|];
    }
  }
}
