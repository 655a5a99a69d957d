/** Finite sets: members, bounds and cardinalities. */
module Sets {

  lemma Member<T>(s: set<T>) returns (x: T)
    requires s != {}
    ensures x in s
  {
    x :| x in s;
  }

  lemma {:induction false} SmallestElement(s: set<int>) returns (x: int)
    requires s != {}
    ensures x in s && forall y :: y in s ==> x <= y
  {
    var a := Member(s);
    x := a;
    if s != {a} {
      var rest := s - {a};
      var b := SmallestElement(rest);
      assert forall y :: y in s ==> y == a || y in rest;
      x := if a <= b then a else b;
    }
  }

  lemma {:induction false} LargestElement(s: set<int>) returns (x: int)
    requires s != {}
    ensures x in s && forall y :: y in s ==> y <= x
  {
    var a := Member(s);
    x := a;
    if s != {a} {
      var rest := s - {a};
      var b := LargestElement(rest);
      assert forall y :: y in s ==> y == a || y in rest;
      x := if a <= b then b else a;
    }
  }

  lemma SmallerSet<T>(a: set<T>, b: set<T>)
    requires a < b
    ensures |a| < |b|
  {
    assert b == a + (b - a) && b - a != {};
    assert |b| == |a| + |b - a|;
  }

  predicate IsSmallest(s: set<nat>, x: nat) {
    x in s && forall y :: y in s ==> x <= y
  }

  function Smallest(s: set<nat>): (x: nat)
    requires s != {}
    ensures IsSmallest(s, x)
  {
    assert exists x :: IsSmallest(s, x) by {
      var x := SmallestElement(s);
      assert IsSmallest(s, x);
    }
    var x :| IsSmallest(s, x);
    x
  }

  /** All members of a set of numbers, smallest first. */
  function InOrder(s: set<nat>): (ns: seq<nat>)
    ensures forall x :: x in ns <==> x in s
  {
    if s == {} then [] else [Smallest(s)] + InOrder(s - {Smallest(s)})
  }

  lemma {:induction false} InOrderAscends(s: set<nat>)
    ensures forall i, j :: 0 <= i < j < |InOrder(s)| ==> InOrder(s)[i] < InOrder(s)[j]
  {
    if s != {} {
      var x := Smallest(s);
      var rest := InOrder(s - {x});
      InOrderAscends(s - {x});
      forall i | 0 <= i < |rest| ensures x < rest[i] {
        assert rest[i] in rest;
      }
    }
  }
}
