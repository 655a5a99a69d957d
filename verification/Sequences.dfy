/** Sequences: regrouping, repeats, and the stable sort of the standard library. */
module Sequences {

  lemma Regroup<T>(a: seq<T>, b: seq<T>, c: seq<T>)
    ensures (a + b) + c == a + (b + c)
  {
  }

  function Flatten<T>(chunks: seq<seq<T>>): seq<T> {
    if chunks == [] then [] else Flatten(chunks[..|chunks| - 1]) + chunks[|chunks| - 1]
  }

  lemma FlattenNext<T>(chunks: seq<seq<T>>, chunk: seq<T>)
    ensures Flatten(chunks + [chunk]) == Flatten(chunks) + chunk
  {
    assert (chunks + [chunk])[..|chunks|] == chunks;
  }

  ghost predicate NoRepeats<T(!new)>(s: seq<T>) {
    forall i, j :: 0 <= i < j < |s| ==> s[i] != s[j]
  }

  lemma NoRepeatsAppended<T(!new)>(s: seq<T>, x: T)
    requires NoRepeats(s) && x !in s
    ensures NoRepeats(s + [x])
  {
  }

  lemma LastNotInFront<T(!new)>(s: seq<T>)
    requires NoRepeats(s) && s != []
    ensures NoRepeats(s[..|s| - 1]) && s[|s| - 1] !in s[..|s| - 1]
  {
  }

  // ---- Sorting ----

  /** A strict weak order. */
  ghost predicate WeakOrder<T(!new)>(before: (T, T) -> bool) {
    && (forall a, b :: before(a, b) ==> !before(b, a))
    && (forall a, b, c :: !before(b, a) && !before(c, b) ==> !before(c, a))
  }

  /** No element comes before an earlier one. */
  ghost predicate SortedBy<T(!new)>(s: seq<T>, before: (T, T) -> bool) {
    forall i, j :: 0 <= i < j < |s| ==> !before(s[j], s[i])
  }

  /** `x` goes behind every element that it does not come before. */
  function Placed<T>(s: seq<T>, x: T, before: (T, T) -> bool): seq<T> {
    if s != [] && before(x, s[|s| - 1]) then Placed(s[..|s| - 1], x, before) + [s[|s| - 1]] else s + [x]
  }

  function Sorted<T>(s: seq<T>, before: (T, T) -> bool): seq<T> {
    if s == [] then [] else Placed(Sorted(s[..|s| - 1], before), s[|s| - 1], before)
  }

  lemma {:induction false} PlacedMembers<T(!new)>(s: seq<T>, x: T, before: (T, T) -> bool)
    ensures forall y :: y in Placed(s, x, before) <==> y in s || y == x
  {
    if s != [] && before(x, s[|s| - 1]) {
      PlacedMembers(s[..|s| - 1], x, before);
      assert s == s[..|s| - 1] + [s[|s| - 1]];
    }
  }

  lemma Appended<T(!new)>(s: seq<T>, x: T, before: (T, T) -> bool)
    requires SortedBy(s, before) && forall y :: y in s ==> !before(x, y)
    ensures SortedBy(s + [x], before)
  {
    forall i, j | 0 <= i < j < |s + [x]|
      ensures !before((s + [x])[j], (s + [x])[i])
    {
      if j == |s| {
        assert s[i] in s;
      }
    }
  }

  lemma BehindLast<T(!new)>(s: seq<T>, x: T, y: T, before: (T, T) -> bool)
    requires WeakOrder(before) && SortedBy(s, before) && y in s && !before(x, s[|s| - 1])
    ensures !before(x, y)
  {
    var i :| 0 <= i < |s| && s[i] == y;
    if i < |s| - 1 {
      assert !before(s[|s| - 1], s[i]);
    }
  }

  lemma {:induction false} PlacedSorted<T(!new)>(s: seq<T>, x: T, before: (T, T) -> bool)
    requires WeakOrder(before) && SortedBy(s, before)
    ensures SortedBy(Placed(s, x, before), before)
  {
    if s != [] {
      var front, last := s[..|s| - 1], s[|s| - 1];
      if before(x, last) {
        PlacedSorted(front, x, before);
        PlacedMembers(front, x, before);
        forall y | y in Placed(front, x, before)
          ensures !before(last, y)
        {
          FrontNotBehind(s, x, y, before);
        }
        Appended(Placed(front, x, before), last, before);
      } else {
        forall y | y in s
          ensures !before(x, y)
        {
          BehindLast(s, x, y, before);
        }
        Appended(s, x, before);
      }
    }
  }

  lemma FrontNotBehind<T(!new)>(s: seq<T>, x: T, y: T, before: (T, T) -> bool)
    requires WeakOrder(before) && SortedBy(s, before) && s != [] && before(x, s[|s| - 1])
    requires y in s[..|s| - 1] || y == x
    ensures !before(s[|s| - 1], y)
  {
    if y != x {
      var i :| 0 <= i < |s| - 1 && s[..|s| - 1][i] == y;
      assert s[i] == y;
    }
  }

  /** The sort is sorted and keeps the elements. */
  lemma {:induction false} SortedIsSorted<T(!new)>(s: seq<T>, before: (T, T) -> bool)
    requires WeakOrder(before)
    ensures SortedBy(Sorted(s, before), before)
    ensures forall y :: y in Sorted(s, before) <==> y in s
  {
    if s != [] {
      var front, last := s[..|s| - 1], s[|s| - 1];
      assert s == front + [last];
      SortedIsSorted(front, before);
      PlacedSorted(Sorted(front, before), last, before);
      PlacedMembers(Sorted(front, before), last, before);
    }
  }

  lemma {:induction false} PlacedNoRepeats<T(!new)>(s: seq<T>, x: T, before: (T, T) -> bool)
    requires NoRepeats(s) && x !in s
    ensures NoRepeats(Placed(s, x, before))
  {
    if s != [] && before(x, s[|s| - 1]) {
      var front, last := s[..|s| - 1], s[|s| - 1];
      LastNotInFront(s);
      PlacedNoRepeats(front, x, before);
      PlacedMembers(front, x, before);
      NoRepeatsAppended(Placed(front, x, before), last);
    } else {
      NoRepeatsAppended(s, x);
    }
  }

  /** Different elements of `s` are comparable. */
  ghost predicate Comparable<T(!new)>(s: seq<T>, before: (T, T) -> bool) {
    forall x, y :: x in s && y in s && x != y ==> before(x, y) || before(y, x)
  }

  lemma LastIsLargest<T(!new)>(s: seq<T>, x: T, before: (T, T) -> bool)
    requires WeakOrder(before) && SortedBy(s, before) && x in s
    ensures !before(s[|s| - 1], x)
  {
    var i :| 0 <= i < |s| && s[i] == x;
    if i == |s| - 1 {
      assert before(x, x) ==> !before(x, x);
    }
  }

  /** Sorted arrangements of the same comparable elements are equal. */
  lemma {:induction false} SortedUnique<T(!new)>(a: seq<T>, b: seq<T>, before: (T, T) -> bool)
    requires WeakOrder(before) && SortedBy(a, before) && SortedBy(b, before) && Comparable(a, before)
    requires NoRepeats(a) && NoRepeats(b) && forall x :: x in a <==> x in b
    ensures a == b
  {
    assert b != [] ==> b[|b| - 1] in a;
    if a != [] {
      assert a[|a| - 1] in b;
      var x, y := a[|a| - 1], b[|b| - 1];
      assert x in b && y in a;
      LastIsLargest(a, y, before);
      LastIsLargest(b, x, before);
      assert x == y;
      LastNotInFront(a);
      LastNotInFront(b);
      var f, g := a[..|a| - 1], b[..|b| - 1];
      assert a == f + [x] && b == g + [x];
      forall z ensures z in f <==> z in g {
        assert z in a <==> z in f || z == x;
        assert z in b <==> z in g || z == x;
      }
      SortedUnique(f, g, before);
    }
  }
}
