/** A client transaction: its write buffer, and reads that see the buffer before the snapshot. */
module Transactions {
  import opened Bytes
  import opened Sequences
  import opened Memtable
  import opened TxManager
  import opened Serializability

  type Rows = seq<(Key, Value)>

  predicate HasKey(rows: Rows, k: Key) {
    exists i :: 0 <= i < |rows| && rows[i].0 == k
  }

  ghost predicate KeysDistinct(rows: Rows) {
    forall i, j :: 0 <= i < j < |rows| ==> rows[i].0 != rows[j].0
  }

  /** `rows` is what a scan of `[lo, hi)` over `db` under the buffer `b` holds, in some order. */
  ghost predicate Shows(rows: Rows, db: Db, b: Buffer, lo: Key, hi: Key) {
    KeysDistinct(rows) && forall k, v :: (k, v) in rows <==> InRange(k, lo, hi) && View(db, b, k) == Some(v)
  }

  // ---- Editing a result ----

  function Upserted(rows: Rows, k: Key, v: Value): Rows {
    if rows == [] then [(k, v)]
    else if rows[0].0 == k then [(k, v)] + rows[1..]
    else [rows[0]] + Upserted(rows[1..], k, v)
  }

  function Removed(rows: Rows, k: Key): Rows {
    if rows == [] then []
    else if rows[0].0 == k then Removed(rows[1..], k)
    else [rows[0]] + Removed(rows[1..], k)
  }

  lemma {:induction false} UpsertedMembers(rows: Rows, k: Key, v: Value)
    requires KeysDistinct(rows)
    ensures KeysDistinct(Upserted(rows, k, v))
    ensures forall x, u :: (x, u) in Upserted(rows, k, v) <==> (x == k && u == v) || (x != k && (x, u) in rows)
  {
    if rows != [] {
      var rest := rows[1..];
      assert rows == [rows[0]] + rest;
      HeadKeyOnce(rows);
      if rows[0].0 == k {
        assert forall x, u :: (x, u) in rest ==> x != k;
      } else {
        UpsertedMembers(rest, k, v);
        var up := Upserted(rest, k, v);
        forall i | 0 <= i < |up|
          ensures up[i].0 != rows[0].0
        {
          assert (up[i].0, up[i].1) in up;
        }
      }
    }
  }

  lemma HeadKeyOnce(rows: Rows)
    requires KeysDistinct(rows) && rows != []
    ensures KeysDistinct(rows[1..]) && forall x, u :: (x, u) in rows[1..] ==> x != rows[0].0
  {
  }

  lemma {:induction false} RemovedMembers(rows: Rows, k: Key)
    requires KeysDistinct(rows)
    ensures KeysDistinct(Removed(rows, k))
    ensures forall x, u :: (x, u) in Removed(rows, k) <==> x != k && (x, u) in rows
  {
    if rows != [] {
      var rest := rows[1..];
      assert rows == [rows[0]] + rest;
      HeadKeyOnce(rows);
      RemovedMembers(rest, k);
      var rem := Removed(rest, k);
      forall i | 0 <= i < |rem|
        ensures rem[i].0 != rows[0].0
      {
        assert (rem[i].0, rem[i].1) in rem;
      }
    }
  }

  // ---- Restoring key order ----

  predicate KeyBefore(a: (Key, Value), b: (Key, Value)) {
    Less(a.0, b.0)
  }

  ghost predicate Ascends(rows: Rows) {
    forall i, j :: 0 <= i < j < |rows| ==> Less(rows[i].0, rows[j].0)
  }

  lemma KeyBeforeIsOrder()
    ensures WeakOrder(KeyBefore)
  {
    hide Less;
    forall a: (Key, Value), b: (Key, Value) | KeyBefore(a, b)
      ensures !KeyBefore(b, a)
    {
      LessAsymmetric(a.0, b.0);
    }
    forall a: (Key, Value), b: (Key, Value), c: (Key, Value) | !KeyBefore(b, a) && !KeyBefore(c, b)
      ensures !KeyBefore(c, a)
    {
      NotLessTransitive(a.0, b.0, c.0);
    }
  }

  /** Placing a row of a new key keeps the keys distinct. */
  lemma {:induction false} PlacedDistinct(rows: Rows, r: (Key, Value))
    requires KeysDistinct(rows) && !HasKey(rows, r.0)
    ensures KeysDistinct(Placed(rows, r, KeyBefore))
  {
    hide KeyBefore;
    if rows != [] && KeyBefore(r, rows[|rows| - 1]) {
      var front, last := rows[..|rows| - 1], rows[|rows| - 1];
      FrontLacksKey(rows, r.0);
      PlacedDistinct(front, r);
      PlacedMembers(front, r, KeyBefore);
      var p := Placed(front, r, KeyBefore);
      forall i | 0 <= i < |p|
        ensures p[i].0 != last.0
      {
        assert p[i] in p;
      }
    }
  }

  lemma FrontLacksKey(rows: Rows, k: Key)
    requires rows != [] && !HasKey(rows, k)
    ensures !HasKey(rows[..|rows| - 1], k)
  {
    var front := rows[..|rows| - 1];
    assert forall i :: 0 <= i < |front| ==> front[i] == rows[i];
  }

  lemma {:induction false} SortedDistinct(rows: Rows)
    requires KeysDistinct(rows)
    ensures KeysDistinct(Sorted(rows, KeyBefore))
  {
    hide KeyBefore;
    if rows != [] {
      var front, last := rows[..|rows| - 1], rows[|rows| - 1];
      SortedDistinct(front);
      KeyBeforeIsOrder();
      SortedIsSorted(front, KeyBefore);
      var p := Sorted(front, KeyBefore);
      forall i | 0 <= i < |p|
        ensures p[i].0 != last.0
      {
        assert p[i] in p;
      }
      PlacedDistinct(p, last);
    }
  }

  lemma SortedAscends(rows: Rows)
    requires KeysDistinct(rows)
    ensures Ascends(Sorted(rows, KeyBefore))
    ensures forall x :: x in Sorted(rows, KeyBefore) <==> x in rows
  {
    hide Less, Sorted;
    KeyBeforeIsOrder();
    SortedIsSorted(rows, KeyBefore);
    SortedDistinct(rows);
    var p := Sorted(rows, KeyBefore);
    forall i, j | 0 <= i < j < |p|
      ensures Less(p[i].0, p[j].0)
    {
      LessTotal(p[i].0, p[j].0);
      assert !KeyBefore(p[j], p[i]);
    }
  }

  // ---- The transaction ----

  lemma UpdatesNext(ms: seq<Mutation>, i: nat)
    requires i < |ms|
    ensures Updates(ms[..i + 1]) == Updates(ms[..i])[ms[i].key := ms[i].Update()]
  {
    assert ms[..i + 1][..i] == ms[..i];
  }

  lemma {:induction false} UntouchedSince(ms: seq<Mutation>, k: Key, i: nat)
    requires i <= |ms| && forall j :: i <= j < |ms| ==> ms[j].key != k
    ensures k in Updates(ms) <==> k in Updates(ms[..i])
    ensures k in Updates(ms) ==> Updates(ms)[k] == Updates(ms[..i])[k]
    decreases |ms| - i
  {
    if i == |ms| {
      assert ms[..i] == ms;
    } else {
      UntouchedSince(ms, k, i + 1);
      UpdatesNext(ms, i);
    }
  }

  class Transaction {
    const manager: TxManager
    const id: TxnId
    const isSsi: bool
    var mutations: seq<Mutation>

    constructor (manager: TxManager, id: TxnId, isSsi: bool)
      ensures mutations == [] && this.manager == manager && this.id == id && this.isSsi == isSsi
    {
      this.manager, this.id, this.isSsi := manager, id, isSsi;
      mutations := [];
    }

    /** What the transaction has buffered for each key. */
    function Writes(): Buffer
      reads this
    {
      Updates(mutations)
    }

    method RecordSsiWrite(key: Key)
      modifies manager
      ensures isSsi && old(id in manager.contexts) ==> manager.State() == MgrRecordWrites(old(manager.State()), id, {key})
      ensures !(isSsi && old(id in manager.contexts)) ==> manager.State() == old(manager.State())
    {
      if isSsi {
        var _ := manager.RecordWrite(id, key);
      }
    }

    /** The write is recorded for validation and buffered. */
    method Put(key: Key, value: Value)
      modifies this, manager
      ensures Writes() == old(Writes())[key := Some(value)]
      ensures isSsi && old(id in manager.contexts) ==> manager.State() == MgrRecordWrites(old(manager.State()), id, {key})
      ensures !(isSsi && old(id in manager.contexts)) ==> manager.State() == old(manager.State())
    {
      RecordSsiWrite(key);
      mutations := mutations + [Mutation.Put(key, value)];
      UpdatesNext(mutations, |mutations| - 1);
      assert mutations[..|mutations| - 1] == old(mutations) && mutations[..|mutations|] == mutations;
    }

    method Delete(key: Key)
      modifies this, manager
      ensures Writes() == old(Writes())[key := None]
      ensures isSsi && old(id in manager.contexts) ==> manager.State() == MgrRecordWrites(old(manager.State()), id, {key})
      ensures !(isSsi && old(id in manager.contexts)) ==> manager.State() == old(manager.State())
    {
      RecordSsiWrite(key);
      mutations := mutations + [Mutation.Delete(key)];
      UpdatesNext(mutations, |mutations| - 1);
      assert mutations[..|mutations| - 1] == old(mutations) && mutations[..|mutations|] == mutations;
    }

    /** Walks the buffer backwards; `below` is the value in the snapshot. Only a read that reaches the
        snapshot is recorded. */
    method Get(key: Key, below: Option<Value>, ghost db: Db) returns (o: Option<Value>)
      requires Fetch(db, key) == below
      modifies manager
      ensures o == View(db, Writes(), key)
      ensures isSsi && key !in Writes() && old(id in manager.contexts) ==>
                manager.State() == MgrRecordRead(old(manager.State()), id, key)
      ensures !(isSsi && key !in Writes() && old(id in manager.contexts)) ==> manager.State() == old(manager.State())
    {
      hide Updates;
      var i := |mutations|;
      while i > 0
        invariant 0 <= i <= |mutations|
        invariant forall j :: i <= j < |mutations| ==> mutations[j].key != key
        invariant manager.State() == old(manager.State())
      {
        i := i - 1;
        if mutations[i].key == key {
          UpdatesNext(mutations, i);
          UntouchedSince(mutations, key, i + 1);
          return mutations[i].Update();
        }
      }
      UntouchedSince(mutations, key, 0);
      NoUpdates(mutations);
      if isSsi {
        var _ := manager.RecordRead(id, key);
      }
      return below;
    }

    /** Records the range, folds the buffer into a scan of the snapshot and restores key order. */
    method ScanRange(lo: Key, hi: Key, below: Rows, ghost db: Db) returns (rows: Rows)
      requires Shows(below, db, map[], lo, hi)
      modifies manager
      ensures Ascends(rows)
      ensures forall k, v :: (k, v) in rows <==> InRange(k, lo, hi) && View(db, Writes(), k) == Some(v)
      ensures isSsi && old(id in manager.contexts) ==> manager.State() == MgrRecordRange(old(manager.State()), id, lo, hi)
      ensures !(isSsi && old(id in manager.contexts)) ==> manager.State() == old(manager.State())
    {
      hide Shows, Ascends, View, InRange;
      if isSsi {
        var _ := manager.AddReadConflictRange(id, lo, hi);
      }
      rows := Fold(mutations, lo, hi, below, db);
    }
  }

  /** The buffered mutations applied, in order, to a scan. */
  method Fold(mutations: seq<Mutation>, lo: Key, hi: Key, below: Rows, ghost db: Db) returns (rows: Rows)
    requires Shows(below, db, map[], lo, hi)
    ensures Ascends(rows)
    ensures forall k, v :: (k, v) in rows <==> InRange(k, lo, hi) && View(db, Updates(mutations), k) == Some(v)
  {
    hide Updates, InRange, Shows, Upserted, Removed, Sorted, View;
    var kvs := below;
    NoUpdates(mutations);
    for i := 0 to |mutations|
      invariant Shows(kvs, db, Updates(mutations[..i]), lo, hi)
    {
      UpdatesNext(mutations, i);
      FoldOne(kvs, db, Updates(mutations[..i]), lo, hi, mutations[i]);
      var m := mutations[i];
      if InRange(m.key, lo, hi) {
        match m {
          case Put(key, value) => kvs := Upserted(kvs, key, value);
          case Delete(key) => kvs := Removed(kvs, key);
        }
      }
    }
    assert mutations[..|mutations|] == mutations;
    rows := Sorted(kvs, KeyBefore);
    ShowsSorted(kvs, db, Updates(mutations), lo, hi);
  }

  lemma NoUpdates(ms: seq<Mutation>)
    ensures ms[..0] == [] && Updates([]) == map[]
  {
  }

  lemma FoldOne(kvs: Rows, db: Db, b: Buffer, lo: Key, hi: Key, m: Mutation)
    requires Shows(kvs, db, b, lo, hi)
    ensures var b' := b[m.key := m.Update()];
            && (!InRange(m.key, lo, hi) ==> Shows(kvs, db, b', lo, hi))
            && (InRange(m.key, lo, hi) && m.Put? ==> Shows(Upserted(kvs, m.key, m.value), db, b', lo, hi))
            && (InRange(m.key, lo, hi) && m.Delete? ==> Shows(Removed(kvs, m.key), db, b', lo, hi))
  {
    hide InRange, Upserted, Removed, KeysDistinct;
    match m {
      case Put(k, v) => UpsertedMembers(kvs, k, v);
      case Delete(k) => RemovedMembers(kvs, k);
    }
  }

  lemma ShowsSorted(kvs: Rows, db: Db, b: Buffer, lo: Key, hi: Key)
    requires Shows(kvs, db, b, lo, hi)
    ensures Ascends(Sorted(kvs, KeyBefore))
    ensures forall k, v :: (k, v) in Sorted(kvs, KeyBefore) <==> InRange(k, lo, hi) && View(db, b, k) == Some(v)
  {
    hide InRange, Sorted, View, Ascends;
    SortedAscends(kvs);
  }
}
