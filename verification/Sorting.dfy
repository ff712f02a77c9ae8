/** Python's sorted(..., reverse=True): the largest key first, equal keys in their original order. */
module Sorting {
  function Insert<T>(x: T, s: seq<T>, key: T -> real): seq<T> {
    if s == [] || key(x) >= key(s[0]) then [x] + s else [s[0]] + Insert(x, s[1..], key)
  }

  function LargestFirst<T>(s: seq<T>, key: T -> real): seq<T> {
    if s == [] then [] else Insert(s[0], LargestFirst(s[1..], key), key)
  }

  ghost predicate NoneAbove<T>(s: seq<T>, key: T -> real, bound: real) {
    forall x :: x in s ==> key(x) <= bound
  }

  ghost predicate Descending<T>(s: seq<T>, key: T -> real) {
    s == [] || (NoneAbove(s[1..], key, key(s[0])) && Descending(s[1..], key))
  }

  lemma {:induction false} InsertAdds<T>(x: T, s: seq<T>, key: T -> real)
    ensures multiset(Insert(x, s, key)) == multiset(s) + multiset{x}
    ensures forall y :: y in Insert(x, s, key) <==> y == x || y in s
  {
    if s != [] {
      InsertAdds(x, s[1..], key);
      assert s == [s[0]] + s[1..];
    }
  }

  lemma {:induction false} InsertSorts<T>(x: T, s: seq<T>, key: T -> real)
    requires Descending(s, key)
    ensures Descending(Insert(x, s, key), key)
  {
    if s != [] {
      assert s == [s[0]] + s[1..];
      InsertSorts(x, s[1..], key);
      InsertAdds(x, s[1..], key);
    }
  }

  lemma {:induction false} LargestFirstSorts<T>(s: seq<T>, key: T -> real)
    ensures Descending(LargestFirst(s, key), key) && multiset(LargestFirst(s, key)) == multiset(s)
  {
    if s != [] {
      LargestFirstSorts(s[1..], key);
      InsertSorts(s[0], LargestFirst(s[1..], key), key);
      InsertAdds(s[0], LargestFirst(s[1..], key), key);
      assert s == [s[0]] + s[1..];
    }
  }

  lemma {:induction false} LargestFirstMembers<T>(s: seq<T>, key: T -> real, x: T)
    ensures x in LargestFirst(s, key) <==> x in s
  {
    if s != [] {
      LargestFirstMembers(s[1..], key, x);
      InsertAdds(s[0], LargestFirst(s[1..], key), key);
      assert s == [s[0]] + s[1..];
    }
  }
}
