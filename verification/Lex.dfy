/** The lexicographic order on sequences of numbers: the key order of etcd and of Python's string sort. */
module Lex {
  predicate Less(a: seq<int>, b: seq<int>) {
    b != [] && (a == [] || a[0] < b[0] || (a[0] == b[0] && Less(a[1..], b[1..])))
  }

  lemma {:induction false} Irreflexive(a: seq<int>)
    ensures !Less(a, a)
  {
    if a != [] {
      Irreflexive(a[1..]);
    }
  }

  lemma {:induction false} Transitive(a: seq<int>, b: seq<int>, c: seq<int>)
    requires Less(a, b) && Less(b, c)
    ensures Less(a, c)
  {
    if a != [] && a[0] == b[0] == c[0] {
      Transitive(a[1..], b[1..], c[1..]);
    }
  }

  lemma {:induction false} Total(a: seq<int>, b: seq<int>)
    ensures a == b || Less(a, b) || Less(b, a)
  {
    if a != [] && b != [] {
      Total(a[1..], b[1..]);
      assert a == [a[0]] + a[1..] && b == [b[0]] + b[1..];
    }
  }

  predicate IsLeast(a: seq<int>, s: set<seq<int>>) {
    a in s && forall b :: b in s ==> a == b || Less(a, b)
  }

  lemma {:induction false} LeastExists(s: set<seq<int>>) returns (a: seq<int>)
    requires s != {}
    ensures IsLeast(a, s)
    decreases |s|
  {
    var x :| x in s;
    if s == {x} {
      a := x;
    } else {
      var y := LeastExists(s - {x});
      Total(x, y);
      a := if Less(x, y) then x else y;
      forall b | b in s ensures a == b || Less(a, b) {
        if a == x && b != x && b != y {
          Transitive(x, y, b);
        }
      }
    }
  }

  lemma LeastUnique(s: set<seq<int>>)
    requires s != {}
    ensures exists a :: a in s && IsLeast(a, s)
    ensures forall a, b :: IsLeast(a, s) && IsLeast(b, s) ==> a == b
  {
    var a := LeastExists(s);
    forall a, b | IsLeast(a, s) && IsLeast(b, s) ensures a == b {
      if a != b {
        Transitive(a, b, a);
        Irreflexive(a);
      }
    }
  }

  function LeastOf(s: set<seq<int>>): (a: seq<int>)
    requires s != {}
    ensures IsLeast(a, s)
  {
    LeastUnique(s);
    var a :| a in s && IsLeast(a, s);
    a
  }

  /** The elements of a finite set, in increasing order. */
  function Sorted(s: set<seq<int>>): (r: seq<seq<int>>)
    ensures forall a :: a in r <==> a in s
    ensures forall i, j :: 0 <= i < j < |r| ==> Less(r[i], r[j])
    decreases |s|
  {
    if s == {} then []
    else
      var a := LeastOf(s);
      var rest := Sorted(s - {a});
      assert forall b :: b in s ==> b == a || b in rest;
      [a] + rest
  }

  // ---------------------------------------------------------------- text

  function Codes(s: string): seq<int> {
    seq(|s|, i requires 0 <= i < |s| => s[i] as int)
  }

  lemma CodesInjective(s: string, t: string)
    requires Codes(s) == Codes(t)
    ensures s == t
  {
    assert |s| == |Codes(s)| == |Codes(t)| == |t|;
    forall i | 0 <= i < |s| ensures s[i] == t[i] {
      assert Codes(s)[i] == Codes(t)[i];
    }
  }

  function FirstKey(keys: set<string>): (k: string)
    requires keys != {}
    ensures k in keys && forall other :: other in keys ==> other == k || Less(Codes(k), Codes(other))
  {
    var codes := set k | k in keys :: Codes(k);
    assert codes != {} by {
      var any :| any in keys;
      assert Codes(any) in codes;
    }
    var least := LeastOf(codes);
    assert forall a, b | a in keys && b in keys && Codes(a) == Codes(b) :: a == b by {
      forall a, b | a in keys && b in keys && Codes(a) == Codes(b) ensures a == b { CodesInjective(a, b); }
    }
    var k :| k in keys && Codes(k) == least;
    k
  }

  /** Python's sorted() on a set of strings. */
  function SortedKeys(keys: set<string>): (r: seq<string>)
    ensures forall k :: k in r <==> k in keys
    ensures forall i, j :: 0 <= i < j < |r| ==> Less(Codes(r[i]), Codes(r[j]))
    ensures forall i, j :: 0 <= i < j < |r| ==> r[i] != r[j]
    decreases |keys|
  {
    if keys == {} then []
    else
      var k := FirstKey(keys);
      var rest := SortedKeys(keys - {k});
      assert forall other :: other in keys ==> other == k || other in rest;
      assert k !in rest;
      [k] + rest
  }
}
