/**
 The range scan.

 It collects candidate versions from the memtable and the files and keeps the newest. It is proved
 against the committed history: whatever the store has been through, a scan at a snapshot that no
 collection or compaction has overtaken returns the newest committed values.
 */
module Reads {
  import opened Bytes
  import opened Sets
  import opened KeyOrder
  import opened Version
  import opened Compaction
  import opened Memtable
  import opened Lsm

  // ---- Keeping the newest version of each key ----

  type Visible = map<Key, VersionedValue>

  function InsertNewest(m: Visible, k: Key, v: VersionedValue): Visible {
    if k in m && m[k].beginTs >= v.beginTs then m else m[k := v]
  }

  predicate Covers(m: Visible, k: Key, t: u64) {
    k in m && m[k].beginTs >= t
  }

  /** `v` is a committed version of `k` that a read at `s` may consider. */
  ghost predicate Genuine(hist: Versions, s: u64, k: Key, v: VersionedValue) {
    (k, v.beginTs) in hist && hist[(k, v.beginTs)] == v.value && v.beginTs <= s
  }

  /** Everything collected is genuine and in range. */
  ghost predicate Sound(hist: Versions, lo: Key, hi: Key, s: u64, m: Visible) {
    forall k :: k in m ==> InRange(k, lo, hi) && Genuine(hist, s, k, m[k])
  }

  /** `m'` has seen at least what `m` has. */
  ghost predicate Extends(m': Visible, m: Visible) {
    forall k :: k in m ==> Covers(m', k, m[k].beginTs)
  }

  lemma InsertNewestKeeps(hist: Versions, lo: Key, hi: Key, s: u64, m: Visible, k: Key, v: VersionedValue)
    requires Sound(hist, lo, hi, s, m) && InRange(k, lo, hi) && Genuine(hist, s, k, v)
    ensures Sound(hist, lo, hi, s, InsertNewest(m, k, v))
    ensures Extends(InsertNewest(m, k, v), m) && Covers(InsertNewest(m, k, v), k, v.beginTs)
  {
  }

  lemma CoversLater(m: Visible, m': Visible, k: Key, t: u64)
    requires Extends(m', m) && Covers(m, k, t)
    ensures Covers(m', k, t)
  {
  }

  // ---- Range scan ----

  /** The memtable shows `k` at `s` as of `t`. */
  predicate MemShows(mem: Entries, k: Key, s: u64, t: u64) {
    var v := FirstVisible(ChainOf(mem, k), s);
    v.Some? && v.value.beginTs == t
  }

  method ScanMem(mem: Entries, ghost hist: Versions, ghost flushed: u64, ghost floor: u64, lo: Key, hi: Key, s: u64)
    returns (m: Visible)
    requires MemOk(mem, hist, flushed, floor) && s < OPEN_ENDED_TS
    ensures Sound(hist, lo, hi, s, m)
    ensures forall k, t: u64 :: InRange(k, lo, hi) && MemShows(mem, k, s, t) ==> Covers(m, k, t)
  {
    hide MemOk, FirstVisible, InRange;
    var ks := Ascending(mem.Keys);
    m := map[];
    for i := 0 to |ks|
      invariant Sound(hist, lo, hi, s, m)
      invariant forall k, t: u64 :: k in ks[..i] && InRange(k, lo, hi) && MemShows(mem, k, s, t) ==> Covers(m, k, t)
    {
      var k := ks[i];
      assert ks[..i + 1] == ks[..i] + [k];
      var v := FirstVisible(ChainOf(mem, k), s);
      if InRange(k, lo, hi) && v.Some? {
        MemCandidate(mem, hist, flushed, floor, k, s, v.value);
        InsertNewestKeeps(hist, lo, hi, s, m, k, v.value);
        m := InsertNewest(m, k, v.value);
      }
    }
    assert ks[..|ks|] == ks;
    forall k, t: u64 | InRange(k, lo, hi) && MemShows(mem, k, s, t)
      ensures Covers(m, k, t)
    {
      NothingVisible(mem, k, s, t);
    }
  }

  lemma NothingVisible(mem: Entries, k: Key, s: u64, t: u64)
    requires MemShows(mem, k, s, t)
    ensures k in mem
  {
  }

  /** The rows of a file that are in range and visible are collected. */
  ghost predicate Collected(rows: seq<Row>, lo: Key, hi: Key, s: u64, m: Visible) {
    forall r :: r in rows && InRange(r.key, lo, hi) && r.version.VisibleAt(s) ==> Covers(m, r.key, r.version.beginTs)
  }

  lemma CollectedLater(rows: seq<Row>, lo: Key, hi: Key, s: u64, m: Visible, m': Visible)
    requires Collected(rows, lo, hi, s, m) && Extends(m', m)
    ensures Collected(rows, lo, hi, s, m')
  {
    hide InRange;
  }

  method ScanFile(rows: seq<Row>, ghost hist: Versions, ghost flushed: u64, lo: Key, hi: Key, s: u64, m0: Visible)
    returns (m: Visible)
    requires FileOk(rows, hist, flushed) && Sound(hist, lo, hi, s, m0)
    ensures Sound(hist, lo, hi, s, m) && Extends(m, m0) && Collected(rows, lo, hi, s, m)
  {
    hide InRange, StrictlySorted;
    m := m0;
    for i := 0 to |rows|
      invariant Sound(hist, lo, hi, s, m) && Extends(m, m0) && Collected(rows[..i], lo, hi, s, m)
    {
      var r := rows[i];
      assert r in rows && RowOk(r, hist, flushed);
      assert rows[..i + 1] == rows[..i] + [r];
      if InRange(r.key, lo, hi) && r.version.VisibleAt(s) {
        InsertNewestKeeps(hist, lo, hi, s, m, r.key, r.version);
        m := InsertNewest(m, r.key, r.version);
      }
    }
    assert rows[..|rows|] == rows;
  }

  lemma ExtendsTransitive(a: Visible, b: Visible, c: Visible)
    requires Extends(c, b) && Extends(b, a)
    ensures Extends(c, a)
  {
  }

  // Key bounds, as recorded in the manifest when a file is written.

  function MinKey(rows: seq<Row>): Key {
    if rows == [] then [] else rows[0].key
  }

  function MaxKey(rows: seq<Row>): Key {
    if rows == [] then [] else rows[|rows| - 1].key
  }

  lemma WithinBounds(rows: seq<Row>, r: Row)
    requires StrictlySorted(rows) && r in rows
    ensures LessEq(MinKey(rows), r.key) && LessEq(r.key, MaxKey(rows))
  {
    var i :| 0 <= i < |rows| && rows[i] == r;
    if 0 < i {
      assert Before(rows[0], rows[i]);
    }
    if i < |rows| - 1 {
      assert Before(rows[i], rows[|rows| - 1]);
    }
  }

  /** The recorded bounds show that a file has nothing in `[lo, hi)`. */
  predicate OutOfRange(rows: seq<Row>, lo: Key, hi: Key) {
    MinKey(rows) != [] && MaxKey(rows) != [] && (Less(MaxKey(rows), lo) || LessEq(hi, MinKey(rows)))
  }

  lemma LessEqThenLess(a: Key, b: Key, c: Key)
    requires LessEq(a, b) && Less(b, c)
    ensures Less(a, c)
  {
    if a != b {
      LessTransitive(a, b, c);
    }
  }

  lemma LessThenLessEq(a: Key, b: Key, c: Key)
    requires Less(a, b) && LessEq(b, c)
    ensures Less(a, c)
  {
    if b != c {
      LessTransitive(a, b, c);
    }
  }

  lemma PrunedHasNothing(rows: seq<Row>, lo: Key, hi: Key, s: u64, m: Visible)
    requires StrictlySorted(rows) && OutOfRange(rows, lo, hi)
    ensures Collected(rows, lo, hi, s, m)
  {
    hide StrictlySorted, Less;
    forall r | r in rows
      ensures !InRange(r.key, lo, hi)
    {
      WithinBounds(rows, r);
      if InRange(r.key, lo, hi) {
        if Less(MaxKey(rows), lo) {
          LessEqThenLess(r.key, MaxKey(rows), lo);
          LessThenLessEq(r.key, lo, r.key);
          LessIrreflexive(r.key);
        } else {
          LessThenLessEq(r.key, hi, MinKey(rows));
          LessThenLessEq(r.key, MinKey(rows), r.key);
          LessIrreflexive(r.key);
        }
      }
    }
  }

  method ScanFiles(files: Files, ghost hist: Versions, ghost flushed: u64, lo: Key, hi: Key, s: u64, m0: Visible)
    returns (m: Visible)
    requires forall id :: id in files ==> FileOk(files[id].rows, hist, flushed)
    requires Sound(hist, lo, hi, s, m0)
    ensures Sound(hist, lo, hi, s, m) && Extends(m, m0)
    ensures forall id :: id in files ==> Collected(files[id].rows, lo, hi, s, m)
  {
    hide InRange, RowOk, StrictlySorted, Collected;
    var ids := InOrder(files.Keys);
    m := m0;
    for i := 0 to |ids|
      invariant Sound(hist, lo, hi, s, m) && Extends(m, m0)
      invariant forall id :: id in ids[..i] ==> id in files && Collected(files[id].rows, lo, hi, s, m)
    {
      var id := ids[i];
      assert id in ids && ids[..i + 1] == ids[..i] + [id];
      assert FileOk(files[id].rows, hist, flushed);
      if OutOfRange(files[id].rows, lo, hi) {
        PrunedHasNothing(files[id].rows, lo, hi, s, m);
      } else {
        var m' := ScanFile(files[id].rows, hist, flushed, lo, hi, s, m);
        ExtendsTransitive(m0, m, m');
        forall j | j in ids[..i]
          ensures Collected(files[j].rows, lo, hi, s, m')
        {
          CollectedLater(files[j].rows, lo, hi, s, m, m');
        }
        m := m';
      }
    }
    assert ids[..|ids|] == ids;
  }

  /** What has been collected decides every key in range. */
  ghost predicate Settles(hist: Versions, lo: Key, hi: Key, s: u64, m: Visible) {
    forall k :: InRange(k, lo, hi) ==> ReadIs(hist, k, s, if k in m then m[k].value else None)
  }

  lemma CollectedAllSettles(w: World, lo: Key, hi: Key, s: u64, m: Visible)
    requires Inv(w) && w.floor <= s < OPEN_ENDED_TS && Sound(w.hist, lo, hi, s, m)
    requires forall k, t: u64 :: InRange(k, lo, hi) && MemShows(w.st.mem, k, s, t) ==> Covers(m, k, t)
    requires forall id :: id in w.st.files ==> Collected(w.st.files[id].rows, lo, hi, s, m)
    ensures Settles(w.hist, lo, hi, s, m)
  {
    hide Inv, InRange;
    forall k | InRange(k, lo, hi)
      ensures ReadIs(w.hist, k, s, if k in m then m[k].value else None)
    {
      KeySettled(w, lo, hi, s, m, k);
    }
  }

  lemma KeySettled(w: World, lo: Key, hi: Key, s: u64, m: Visible, k: Key)
    requires Inv(w) && w.floor <= s < OPEN_ENDED_TS && Sound(w.hist, lo, hi, s, m) && InRange(k, lo, hi)
    requires forall t: u64 :: MemShows(w.st.mem, k, s, t) ==> Covers(m, k, t)
    requires forall id :: id in w.st.files ==> Collected(w.st.files[id].rows, lo, hi, s, m)
    ensures ReadIs(w.hist, k, s, if k in m then m[k].value else None)
  {
    hide Inv, InRange, FirstVisible;
    if t0: u64 :| (k, t0) in w.hist && t0 <= s {
      var t := NewestExists(w.hist, k, s, t0);
      NewestIsStored(w, k, s, t);
      if t <= w.flushed {
        var id, r :| id in w.st.files && r in w.st.files[id].rows && r.key == k && r.version.beginTs == t && r.version.VisibleAt(s);
        assert Collected(w.st.files[id].rows, lo, hi, s, m);
      } else {
        assert MemShows(w.st.mem, k, s, t);
      }
      assert Covers(m, k, t);
      assert Genuine(w.hist, s, k, m[k]);
      assert m[k].beginTs == t;
    }
  }

  lemma ReadIsUnique(hist: Versions, k: Key, s: u64, a: Option<Value>, b: Option<Value>)
    requires ReadIs(hist, k, s, a) && ReadIs(hist, k, s, b)
    ensures a == b
  {
    if t: u64 :| NewestVersion(hist, k, s, t) && hist[(k, t)] == a {
      if u: u64 :| NewestVersion(hist, k, s, u) && hist[(k, u)] == b {
        assert t == u;
      }
    }
  }

  function KeysOf(rows: seq<(Key, Value)>): (ks: seq<Key>)
    ensures |ks| == |rows|
  {
    seq(|rows|, i requires 0 <= i < |rows| => rows[i].0)
  }

  /** Drops tombstones and lists the rest by key. */
  method Listing(m: Visible) returns (out: seq<(Key, Value)>)
    ensures StrictlyAscending(KeysOf(out))
    ensures forall k, v :: (k, v) in out <==> k in m && m[k].value == Some(v)
  {
    hide Less;
    var ks := Ascending(m.Keys);
    AscendingSorted(m.Keys);
    out := [];
    for i := 0 to |ks|
      invariant StrictlyAscending(KeysOf(out))
      invariant forall k, v :: (k, v) in out <==> k in ks[..i] && k in m && m[k].value == Some(v)
    {
      var k := ks[i];
      assert k in ks && ks[..i + 1] == ks[..i] + [k];
      if m[k].value.Some? {
        ListingNext(ks, i, out, m[k].value.value);
        out := out + [(k, m[k].value.value)];
      }
      NotEarlier(ks, i);
    }
    assert ks[..|ks|] == ks;
  }

  lemma ListingNext(ks: seq<Key>, i: nat, out: seq<(Key, Value)>, v: Value)
    requires StrictlyAscending(ks) && i < |ks| && StrictlyAscending(KeysOf(out))
    requires forall k, u :: (k, u) in out ==> k in ks[..i]
    ensures StrictlyAscending(KeysOf(out + [(ks[i], v)]))
  {
    hide Less;
    var next := KeysOf(out + [(ks[i], v)]);
    forall a, b | 0 <= a < b < |next|
      ensures Less(next[a], next[b])
    {
      if b == |out| {
        assert (out[a].0, out[a].1) in out;
      } else {
        assert Less(KeysOf(out)[a], KeysOf(out)[b]);
      }
    }
  }

  /**
   A range scan at any snapshot that no watermark in use has passed returns, in key order, exactly
   the newest committed values of the keys in `[lo, hi)`, deleted keys left out.
   */
  method ScanRange(st: Store, ghost w: World, lo: Key, hi: Key, s: u64) returns (out: seq<(Key, Value)>)
    requires Inv(w) && st == w.st && w.floor <= s < OPEN_ENDED_TS
    ensures StrictlyAscending(KeysOf(out))
    ensures forall k, v :: (k, v) in out <==> InRange(k, lo, hi) && ReadIs(w.hist, k, s, Some(v))
  {
    hide InRange, MemOk, FileOk, PinsOk, LogOk, HistOk, MarksOk, ReadIs, Collected, MemShows;
    var m0 := ScanMem(st.mem, w.hist, w.flushed, w.floor, lo, hi, s);
    var m := ScanFiles(st.files, w.hist, w.flushed, lo, hi, s, m0);
    forall k, t: u64 | InRange(k, lo, hi) && MemShows(st.mem, k, s, t)
      ensures Covers(m, k, t)
    {
      CoversLater(m0, m, k, t);
    }
    CollectedAllSettles(w, lo, hi, s, m);
    out := Listing(m);
    forall k, v
      ensures (k, v) in out <==> InRange(k, lo, hi) && ReadIs(w.hist, k, s, Some(v))
    {
      if InRange(k, lo, hi) && ReadIs(w.hist, k, s, Some(v)) {
        ReadIsUnique(w.hist, k, s, Some(v), if k in m then m[k].value else None);
      }
    }
  }
}
