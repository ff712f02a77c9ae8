/** Log retention: which rotated files are kept and which are queued for removal. */
module LogCleanup {
  import Sorting

  datatype File = File(path: string, size: nat, mtime: real, compressed: bool)

  datatype Split = Split(keep: seq<File>, queued: seq<File>)

  /** On-disk totals allowed, and how many uncompressed files are kept in any case. */
  datatype Limits = Limits(maxTotal: nat, backups: nat, keepUncompressed: nat)

  // ---------------------------------------------------------------- newest first

  function Mtime(f: File): real {
    f.mtime
  }

  function NewestFirst(s: seq<File>): seq<File> {
    Sorting.LargestFirst(s, Mtime)
  }

  ghost predicate Descending(s: seq<File>) {
    Sorting.Descending(s, Mtime)
  }

  lemma NewestFirstSorts(s: seq<File>)
    ensures Descending(NewestFirst(s)) && multiset(NewestFirst(s)) == multiset(s)
  {
    Sorting.LargestFirstSorts(s, Mtime);
  }

  function Uncompressed(s: seq<File>): seq<File> {
    if s == [] then [] else (if s[0].compressed then [] else [s[0]]) + Uncompressed(s[1..])
  }

  // ---------------------------------------------------------------- the greedy choice

  function Size(s: seq<File>): nat {
    if s == [] then 0 else Size(s[..|s| - 1]) + s[|s| - 1].size
  }

  lemma SizeSnoc(s: seq<File>, f: File)
    ensures Size(s + [f]) == Size(s) + f.size
  {
    assert (s + [f])[..|s|] == s;
  }

  function Protected(files: seq<File>, l: Limits): seq<File> {
    var u := NewestFirst(Uncompressed(NewestFirst(files)));
    if |u| <= l.keepUncompressed then u else u[..l.keepUncompressed]
  }

  function Greedy(files: seq<File>, keep: seq<File>, l: Limits): Split
    decreases files
  {
    if files == [] then Split(keep, [])
    else if files[0] in keep then Greedy(files[1..], keep, l)
    else if Size(keep) + files[0].size > l.maxTotal || |keep| >= l.backups then
      var g := Greedy(files[1..], keep, l);
      Split(g.keep, [files[0]] + g.queued)
    else Greedy(files[1..], keep + [files[0]], l)
  }

  lemma GreedyStep(files: seq<File>, i: nat, keep: seq<File>, l: Limits)
    requires i < |files|
    ensures var f, rest := files[i], files[i + 1..];
            Greedy(files[i..], keep, l) ==
            if f in keep then Greedy(rest, keep, l)
            else if Size(keep) + f.size > l.maxTotal || |keep| >= l.backups then
              Split(Greedy(rest, keep, l).keep, [f] + Greedy(rest, keep, l).queued)
            else Greedy(rest, keep + [f], l)
  {
    assert files[i..][1..] == files[i + 1..];
  }

  lemma Shift(done: seq<File>, f: File, rest: seq<File>)
    ensures done + ([f] + rest) == done + [f] + rest
  {
  }

  lemma GreedyDone(files: seq<File>, i: nat, keep: seq<File>, l: Limits)
    requires i == |files|
    ensures Greedy(files[i..], keep, l) == Split(keep, [])
  {
  }

  predicate WithinLimits(files: seq<File>, l: Limits) {
    Size(files) <= l.maxTotal && |files| <= l.backups
  }

  function Cleanup(files: seq<File>, l: Limits): Split {
    if WithinLimits(files, l) then Split(files, []) else Greedy(NewestFirst(files), Protected(files, l), l)
  }

  function Paths(s: seq<File>): seq<string> {
    seq(|s|, i requires 0 <= i < |s| => s[i].path)
  }

  class LogHandler {
    const limits: Limits
    var cleanupQueue: seq<string>

    constructor (limits: Limits)
      ensures this.limits == limits && cleanupQueue == []
    {
      this.limits := limits;
      cleanupQueue := [];
    }

    /** `files` is what the directory listing found. */
    method PerformCleanup(files: seq<File>)
      modifies this
      ensures cleanupQueue == old(cleanupQueue) + Paths(Cleanup(files, limits).queued)
    {
      var total := TotalSize(files);
      if total <= limits.maxTotal && |files| <= limits.backups {
        assert Paths([]) == [];
        return;
      }
      var candidates := Candidates(NewestFirst(files), Protected(files, limits));
      cleanupQueue := cleanupQueue + Paths(candidates);
    }

    /** The loop over all files, newest first, with `protected` kept from the start. */
    method Candidates(all: seq<File>, protected: seq<File>) returns (candidates: seq<File>)
      ensures candidates == Greedy(all, protected, limits).queued
    {
      var keep := protected;
      var current := TotalSize(keep);
      candidates := [];
      ghost var goal := Greedy(all, protected, limits);
      assert all[0..] == all;
      hide Greedy, Size;
      var i := 0;
      while i < |all|
        invariant 0 <= i <= |all| && current == Size(keep)
        invariant goal.queued == candidates + Greedy(all[i..], keep, limits).queued
      {
        var f := all[i];
        GreedyStep(all, i, keep, limits);
        i := i + 1;
        if f in keep {
          continue;
        }
        if current + f.size > limits.maxTotal || |keep| >= limits.backups {
          Shift(candidates, f, Greedy(all[i..], keep, limits).queued);
          candidates := candidates + [f];
        } else {
          SizeSnoc(keep, f);
          current := current + f.size;
          keep := keep + [f];
        }
      }
      GreedyDone(all, i, keep, limits);
    }
  }

  method TotalSize(s: seq<File>) returns (n: nat)
    ensures n == Size(s)
  {
    n := 0;
    var i := 0;
    while i < |s|
      invariant 0 <= i <= |s| && n == Size(s[..i])
    {
      assert s[..i + 1][..i] == s[..i];
      n := n + s[i].size;
      i := i + 1;
    }
    assert s[..i] == s;
  }

  // ---------------------------------------------------------------- what the choice guarantees

  ghost predicate NoDup(s: seq<File>) {
    forall f :: multiset(s)[f] <= 1
  }

  /** Kept and queued files are the listed ones, each on one side only; what was kept at the start stays first. */
  ghost predicate Partition(files: seq<File>, keep: seq<File>, g: Split) {
    && keep <= g.keep && NoDup(g.keep) && NoDup(g.queued)
    && (forall f :: f in g.keep || f in g.queued <==> f in files || f in keep)
    && (forall f :: f in g.queued ==> f !in g.keep)
  }

  function Max(a: nat, b: nat): nat {
    if a < b then b else a
  }

  function Min(a: nat, b: nat): nat {
    if a < b then a else b
  }

  /** Within the limits, or no more than there was to begin with; and nothing queued would still have fitted. */
  ghost predicate TightFit(keep: seq<File>, g: Split, l: Limits) {
    && Size(g.keep) <= Max(l.maxTotal, Size(keep))
    && |g.keep| <= Max(l.backups, |keep|)
    && forall f :: f in g.queued ==> Size(g.keep) + f.size > l.maxTotal || |g.keep| >= l.backups
  }

  lemma NoDupParts(a: seq<File>, b: seq<File>)
    requires NoDup(a + b)
    ensures NoDup(a) && NoDup(b) && forall f :: f in a ==> f !in b
  {
    forall f ensures multiset(a)[f] + multiset(b)[f] <= 1 {
      assert multiset(a + b)[f] <= 1;
    }
    assert forall f :: f in a ==> multiset(a)[f] >= 1;
    assert forall f :: f in b ==> multiset(b)[f] >= 1;
  }

  lemma {:induction false} GreedySplits(files: seq<File>, keep: seq<File>, l: Limits)
    requires NoDup(files) && NoDup(keep)
    ensures Partition(files, keep, Greedy(files, keep, l))
    decreases files
  {
    if files != [] {
      var f, rest := files[0], files[1..];
      assert files == [f] + rest;
      NoDupParts([f], rest);
      if f in keep || Size(keep) + f.size > l.maxTotal || |keep| >= l.backups {
        GreedySplits(rest, keep, l);
        SplitStep(f, rest, keep, Greedy(rest, keep, l));
      } else {
        assert multiset(keep + [f]) == multiset(keep) + multiset{f};
        GreedySplits(rest, keep + [f], l);
        AddStep(f, rest, keep, Greedy(rest, keep + [f], l));
      }
    }
  }

  lemma SplitStep(f: File, rest: seq<File>, keep: seq<File>, g: Split)
    requires f !in rest && Partition(rest, keep, g)
    ensures f in keep ==> Partition([f] + rest, keep, g)
    ensures f !in keep ==> Partition([f] + rest, keep, Split(g.keep, [f] + g.queued))
  {
    assert f !in g.queued;
    assert multiset([f] + g.queued) == multiset{f} + multiset(g.queued);
  }

  lemma AddStep(f: File, rest: seq<File>, keep: seq<File>, g: Split)
    requires f !in rest && Partition(rest, keep + [f], g)
    ensures Partition([f] + rest, keep, g)
  {
    assert keep <= keep + [f];
  }

  lemma {:induction false} SizeMono(a: seq<File>, b: seq<File>)
    requires a <= b
    ensures Size(a) <= Size(b)
  {
    if |a| < |b| {
      SizeMono(a, b[..|b| - 1]);
    } else {
      assert a == b;
    }
  }

  lemma {:induction false} GreedyTakesListed(files: seq<File>, keep: seq<File>, l: Limits)
    ensures keep <= Greedy(files, keep, l).keep
    ensures forall i :: |keep| <= i < |Greedy(files, keep, l).keep| ==> Greedy(files, keep, l).keep[i] in files
    decreases files
  {
    if files != [] {
      GreedyTakesListed(files[1..], keep, l);
      GreedyTakesListed(files[1..], keep + [files[0]], l);
      assert keep <= keep + [files[0]];
    }
  }

  lemma {:induction false} GreedyFits(files: seq<File>, keep: seq<File>, l: Limits)
    ensures TightFit(keep, Greedy(files, keep, l), l)
    decreases files
  {
    if files != [] {
      GreedyFits(files[1..], keep, l);
      GreedyFits(files[1..], keep + [files[0]], l);
      SizeSnoc(keep, files[0]);
      GreedyTakesListed(files[1..], keep, l);
      SizeMono(keep, Greedy(files[1..], keep, l).keep);
    }
  }

  // ---------------------------------------------------------------- newer files have the first claim

  /** What was kept up to place `i` and at it is within the limits. */
  ghost predicate Fitted(keep: seq<File>, i: nat, l: Limits) {
    i < |keep| && Size(keep[..i + 1]) <= l.maxTotal && i < l.backups
  }

  /** What was kept from place `n` on is newest first, and fitted when it was taken. */
  ghost predicate TakenInTurn(keep: seq<File>, n: nat, l: Limits) {
    FittedFrom(keep, n, l) && NewestFirstFrom(keep, n)
  }

  ghost predicate FittedFrom(keep: seq<File>, n: nat, l: Limits) {
    forall i :: n <= i < |keep| ==> Fitted(keep, i, l)
  }

  ghost predicate NewestFirstFrom(keep: seq<File>, n: nat) {
    forall i, j :: n <= i < j < |keep| ==> keep[j].mtime <= keep[i].mtime
  }

  /** After what was kept at the start and the files that are no older than `f`, there was no room for `f`. */
  ghost predicate NoRoomInTurn(keep: seq<File>, n: nat, f: File, l: Limits, m: nat) {
    && n <= m <= |keep|
    && (forall i :: n <= i < m ==> f.mtime <= keep[i].mtime)
    && (forall i :: m <= i < |keep| ==> keep[i].mtime <= f.mtime)
    && (Size(keep[..m]) + f.size > l.maxTotal || m >= l.backups)
  }

  ghost predicate NoneNewer(files: seq<File>, keep: seq<File>, n: nat) {
    forall i, f :: n <= i < |keep| && f in files ==> f.mtime <= keep[i].mtime
  }

  lemma {:induction false} GreedyInTurn(files: seq<File>, keep: seq<File>, n: nat, l: Limits)
    requires n <= |keep| && Descending(files) && NoneNewer(files, keep, n) && TakenInTurn(keep, n, l)
    ensures var g := Greedy(files, keep, l);
            && TakenInTurn(g.keep, n, l)
            && forall f :: f in g.queued ==> exists m :: NoRoomInTurn(g.keep, n, f, l, m)
    decreases files
  {
    if files != [] {
      var f, rest := files[0], files[1..];
      assert forall h :: h in rest ==> Mtime(h) <= Mtime(f);
      if f in keep {
        GreedyInTurn(rest, keep, n, l);
      } else if Size(keep) + f.size > l.maxTotal || |keep| >= l.backups {
        GreedyInTurn(rest, keep, n, l);
        var kept := Greedy(rest, keep, l).keep;
        GreedyTakesListed(rest, keep, l);
        assert kept[..|keep|] == keep;
        assert NoRoomInTurn(kept, n, f, l, |keep|);
      } else {
        TakeOne(keep, n, f, l);
        GreedyInTurn(rest, keep + [f], n, l);
      }
    }
  }

  lemma FittedStays(keep: seq<File>, f: File, i: nat, l: Limits)
    requires Fitted(keep, i, l)
    ensures Fitted(keep + [f], i, l)
  {
    hide Size;
    assert (keep + [f])[..i + 1] == keep[..i + 1];
  }

  lemma FittedLast(keep: seq<File>, f: File, l: Limits)
    requires Size(keep) + f.size <= l.maxTotal && |keep| < l.backups
    ensures Fitted(keep + [f], |keep|, l)
  {
    hide Size;
    SizeSnoc(keep, f);
    assert (keep + [f])[..|keep| + 1] == keep + [f];
  }

  lemma FittedMore(keep: seq<File>, n: nat, f: File, l: Limits)
    requires FittedFrom(keep, n, l) && Size(keep) + f.size <= l.maxTotal && |keep| < l.backups
    ensures FittedFrom(keep + [f], n, l)
  {
    hide Size, Fitted;
    forall i | n <= i < |keep + [f]| ensures Fitted(keep + [f], i, l) {
      if i < |keep| {
        FittedStays(keep, f, i, l);
      } else {
        FittedLast(keep, f, l);
      }
    }
  }

  lemma OlderLast(keep: seq<File>, n: nat, f: File)
    requires NewestFirstFrom(keep, n) && forall i :: n <= i < |keep| ==> f.mtime <= keep[i].mtime
    ensures NewestFirstFrom(keep + [f], n)
  {
    var more := keep + [f];
    forall i, j | n <= i < j < |more| ensures more[j].mtime <= more[i].mtime {
      assert more[i] == keep[i];
    }
  }

  lemma TakeOne(keep: seq<File>, n: nat, f: File, l: Limits)
    requires n <= |keep| && TakenInTurn(keep, n, l) && Size(keep) + f.size <= l.maxTotal && |keep| < l.backups
    requires forall i :: n <= i < |keep| ==> f.mtime <= keep[i].mtime
    ensures TakenInTurn(keep + [f], n, l)
  {
    hide FittedFrom, NewestFirstFrom;
    FittedMore(keep, n, f, l);
    OlderLast(keep, n, f);
  }

  /**
    Beyond the protected files, room goes to the newest first: what is kept there is newest first and fitted when its
    turn came, and each queued file was out of room after the protected ones and those kept that are no older.
   */
  lemma NewerKeptFirst(files: seq<File>, l: Limits)
    requires !WithinLimits(files, l)
    ensures var g, n := Cleanup(files, l), |Protected(files, l)|;
            && Protected(files, l) <= g.keep && TakenInTurn(g.keep, n, l)
            && forall f :: f in g.queued ==> exists m :: NoRoomInTurn(g.keep, n, f, l, m)
  {
    var all, p := NewestFirst(files), Protected(files, l);
    NewestFirstSorts(files);
    GreedyTakesListed(all, p, l);
    GreedyInTurn(all, p, |p|, l);
  }

  // ---------------------------------------------------------------- the protected files

  lemma {:induction false} UncompressedCounts(s: seq<File>)
    ensures forall f :: multiset(Uncompressed(s))[f] == if f.compressed then 0 else multiset(s)[f]
  {
    if s != [] {
      assert s == [s[0]] + s[1..];
      UncompressedCounts(s[1..]);
    }
  }

  lemma PermutedMembers(a: seq<File>, b: seq<File>)
    requires multiset(a) == multiset(b)
    ensures |a| == |b| && forall f :: f in a <==> f in b
  {
    assert |multiset(a)| == |multiset(b)|;
    assert forall f :: f in a <==> f in multiset(a);
    assert forall f :: f in b <==> f in multiset(b);
  }

  /** Filtering and sorting again gives the listed uncompressed files, newest first. */
  lemma UncompressedSorted(files: seq<File>)
    ensures var u := NewestFirst(Uncompressed(NewestFirst(files)));
            Descending(u) && multiset(u) == multiset(Uncompressed(files))
  {
    var all := NewestFirst(files);
    NewestFirstSorts(files);
    NewestFirstSorts(Uncompressed(all));
    UncompressedCounts(all);
    UncompressedCounts(files);
  }

  lemma {:induction false} UncompressedMembers(s: seq<File>)
    ensures forall f :: f in Uncompressed(s) <==> f in s && !f.compressed
  {
    if s != [] {
      assert s == [s[0]] + s[1..];
      UncompressedMembers(s[1..]);
    }
  }

  lemma UncompressedOnce(files: seq<File>, u: seq<File>)
    requires NoDup(files) && multiset(u) == multiset(Uncompressed(files))
    ensures NoDup(u)
  {
    UncompressedCounts(files);
  }

  /** The protected files are the newest uncompressed ones, as many as asked for or as there are. */
  lemma ProtectedNewest(files: seq<File>, l: Limits)
    requires NoDup(files)
    ensures var p := Protected(files, l);
            && NoDup(p) && |p| == Min(|Uncompressed(files)|, l.keepUncompressed)
            && (forall f :: f in p ==> f in files && !f.compressed)
            && (forall f, g :: f in p && g in files && !g.compressed && g !in p ==> g.mtime <= f.mtime)
  {
    hide NoDup, Descending, NewestFirst, Uncompressed;
    var u, p := NewestFirst(Uncompressed(NewestFirst(files))), Protected(files, l);
    UncompressedSorted(files);
    UncompressedMembers(files);
    UncompressedOnce(files, u);
    PermutedMembers(u, Uncompressed(files));
    TakeNewest(u, |p|);
    assert u == u[..|p|] + u[|p|..];
    NoDupParts(u[..|p|], u[|p|..]);
    Prefix(u, p);
  }

  lemma Prefix(u: seq<File>, p: seq<File>)
    requires |p| <= |u| && p == u[..|p|]
    ensures forall f :: f in p ==> f in u
  {
  }

  lemma {:induction false} TakeNewest(u: seq<File>, n: nat)
    requires Descending(u) && n <= |u|
    ensures forall f, g :: f in u[..n] && g in u && g !in u[..n] ==> g.mtime <= f.mtime
  {
    if n > 0 {
      TakeNewest(u[1..], n - 1);
      assert forall g :: g in u[1..] ==> Mtime(g) <= Mtime(u[0]);
      assert u == [u[0]] + u[1..] && u[..n] == [u[0]] + u[1..][..n - 1];
    }
  }

  /**
    A cleanup splits the listed files in two without losing any, never queues a protected file, keeps the totals
    within the limits or what is protected, and queues only files that would not fit; none if all are within the limits.
   */
  lemma CleanupCorrect(files: seq<File>, l: Limits)
    requires NoDup(files)
    ensures var g, p := Cleanup(files, l), Protected(files, l);
            && (forall f :: f in g.keep || f in g.queued <==> f in files)
            && (forall f :: f in g.queued ==> f !in g.keep && f !in p)
            && NoDup(g.keep) && NoDup(g.queued)
            && TightFit(p, g, l)
            && (Size(files) <= l.maxTotal && |files| <= l.backups ==> g.queued == [])
  {
    if !WithinLimits(files, l) {
      var all, p := NewestFirst(files), Protected(files, l);
      NewestFirstSorts(files);
      PermutedMembers(all, files);
      ProtectedNewest(files, l);
      GreedySplits(all, p, l);
      GreedyFits(all, p, l);
    }
  }
}
