/** Walking a set of keys in ascending order, as the ordered maps of the engine do. */
module KeyOrder {
  import opened Bytes
  import opened Sets

  ghost predicate StrictlyAscending(ks: seq<Key>) {
    forall i, j :: 0 <= i < j < |ks| ==> Less(ks[i], ks[j])
  }

  predicate IsFirst(keys: set<Key>, k: Key) {
    k in keys && forall x :: x in keys && x != k ==> Less(k, x)
  }

  lemma {:induction false} FirstExists(keys: set<Key>) returns (k: Key)
    requires keys != {}
    ensures IsFirst(keys, k)
  {
    var a := Member(keys);
    k := a;
    if keys != {a} {
      var rest := keys - {a};
      var b := FirstExists(rest);
      assert forall x :: x in keys ==> x == a || x in rest;
      LessTotal(a, b);
      if Less(a, b) {
        forall x | x in keys && x != a ensures Less(a, x) {
          if x != b {
            LessTransitive(a, b, x);
          }
        }
      } else {
        k := b;
      }
    }
  }

  lemma FirstUnique(keys: set<Key>)
    ensures forall a, b :: IsFirst(keys, a) && IsFirst(keys, b) ==> a == b
  {
    forall a, b | IsFirst(keys, a) && IsFirst(keys, b) ensures a == b {
      if a != b {
        LessAsymmetric(a, b);
      }
    }
  }

  function First(keys: set<Key>): (k: Key)
    requires keys != {}
    ensures IsFirst(keys, k)
  {
    FirstUnique(keys);
    assert exists k :: IsFirst(keys, k) by {
      var k := FirstExists(keys);
    }
    var k :| IsFirst(keys, k);
    k
  }

  /** All keys of a set, smallest first. */
  function Ascending(keys: set<Key>): (ks: seq<Key>)
    ensures forall k :: k in ks <==> k in keys
  {
    if keys == {} then []
    else
      var k := First(keys);
      [k] + Ascending(keys - {k})
  }

  lemma {:induction false} AscendingSorted(keys: set<Key>)
    ensures StrictlyAscending(Ascending(keys))
  {
    if keys != {} {
      var k := First(keys);
      var rest := Ascending(keys - {k});
      AscendingSorted(keys - {k});
      forall i | 0 <= i < |rest| ensures Less(k, rest[i]) {
        assert rest[i] in rest;
      }
    }
  }

  lemma NotEarlier(keys: seq<Key>, i: nat)
    requires StrictlyAscending(keys) && i < |keys|
    ensures keys[i] !in keys[..i]
  {
    hide Less;
    LessIrreflexive(keys[i]);
  }
}
