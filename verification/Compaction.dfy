/**
 The compaction merge: rows of several files, with the interval ends frozen when each file was
 written, become one run of versions with recomputed intervals and without the versions that no
 snapshot at or above the watermark can see.
 */
module Compaction {
  import opened Bytes
  import opened Sets
  import opened Version
  import opened Sequences

  datatype Row = Row(key: Key, version: VersionedValue)

  // ---- Meaning: which versions a set of rows holds ----

  type Versions = map<(Key, u64), Option<Value>>

  /** The versions held by rows; the first of several copies wins. */
  function VersionsOf(rows: seq<Row>): Versions {
    if rows == [] then map[] else With(VersionsOf(rows[..|rows| - 1]), rows[|rows| - 1])
  }

  function With(m: Versions, r: Row): Versions {
    var id := (r.key, r.version.beginTs);
    if id in m then m else m[id := r.version.value]
  }

  /** Some newer version of `k` begins at or below `w`. */
  ghost predicate Superseded(m: Versions, k: Key, t: u64, w: u64) {
    exists t': u64 :: (k, t') in m && t < t' <= w
  }

  /** `e` is where the interval of the version `(k, t)` ends: the next newer version, or never. */
  ghost predicate EndsAt(m: Versions, k: Key, t: u64, e: u64) {
    if exists t': u64 :: (k, t') in m && t < t'
    then (k, e) in m && t < e && forall t': u64 :: (k, t') in m && t < t' ==> e <= t'
    else e == OPEN_ENDED_TS
  }

  /** The rows a merge at watermark `w` must produce. */
  ghost predicate Survives(m: Versions, w: u64, r: Row) {
    var (k, t) := (r.key, r.version.beginTs);
    && (k, t) in m && m[(k, t)] == r.version.value
    && !Superseded(m, k, t, w)
    && EndsAt(m, k, t, r.version.endTs)
  }

  // ---- Row order ----

  /** Key ascending, then newest first. */
  predicate Before(a: Row, b: Row) {
    Less(a.key, b.key) || (a.key == b.key && a.version.beginTs > b.version.beginTs)
  }

  predicate SameVersion(a: Row, b: Row) {
    a.key == b.key && a.version.beginTs == b.version.beginTs
  }

  ghost predicate StrictlySorted(rows: seq<Row>) {
    forall i, j :: 0 <= i < j < |rows| ==> Before(rows[i], rows[j])
  }

  lemma BeforeTransitive(a: Row, b: Row, c: Row)
    requires Before(a, b) && Before(b, c)
    ensures Before(a, c)
  {
    if Less(a.key, b.key) && Less(b.key, c.key) {
      LessTransitive(a.key, b.key, c.key);
    }
  }

  lemma BeforeTotal(a: Row, b: Row)
    ensures Before(a, b) || Before(b, a) || SameVersion(a, b)
    ensures Before(a, b) ==> !Before(b, a) && !SameVersion(a, b)
  {
    LessTotal(a.key, b.key);
    LessIrreflexive(a.key);
    if Less(a.key, b.key) {
      LessAsymmetric(a.key, b.key);
    }
  }

  /** Two strictly sorted runs with the same rows are the same run. */
  lemma {:induction false} SortedUnique(a: seq<Row>, b: seq<Row>)
    requires StrictlySorted(a) && StrictlySorted(b) && forall r :: r in a <==> r in b
    ensures a == b
  {
    assert a != [] ==> a[0] in b;
    assert b != [] ==> b[0] in a;
    if a != [] {
      HeadIsFirst(a, b[0]);
      HeadIsFirst(b, a[0]);
      BeforeTotal(a[0], b[0]);
      var x, y := a[1..], b[1..];
      assert a[0] == b[0];
      assert a == [a[0]] + x && b == [b[0]] + y;
      HeadNotInTail(a);
      HeadNotInTail(b);
      forall r ensures r in x <==> r in y {
        assert r in a <==> r == a[0] || r in x;
        assert r in b <==> r == b[0] || r in y;
      }
      SortedUnique(x, y);
    }
  }

  lemma HeadIsFirst(a: seq<Row>, r: Row)
    requires StrictlySorted(a) && r in a
    ensures a[0] == r || Before(a[0], r)
  {
  }

  lemma HeadNotInTail(a: seq<Row>)
    requires StrictlySorted(a) && a != []
    ensures a[0] !in a[1..]
  {
    if a[0] in a[1..] {
      var i :| 0 <= i < |a[1..]| && a[1..][i] == a[0];
      assert Before(a[0], a[i + 1]);
      BeforeTotal(a[0], a[0]);
    }
  }

  // ---- Stable sort and removal of duplicates ----

  /** The stable sort by key ascending and timestamp descending. */
  function SortRows(rows: seq<Row>): seq<Row> {
    Sorted(rows, Before)
  }

  lemma BeforeIsOrder()
    ensures WeakOrder(Before)
  {
    hide Before;
    forall a: Row, b: Row | Before(a, b)
      ensures !Before(b, a)
    {
      BeforeTotal(a, b);
    }
    forall a: Row, b: Row, c: Row | !Before(b, a) && !Before(c, b)
      ensures !Before(c, a)
    {
      NotBeforeTransitive(a, b, c);
    }
  }

  lemma NotBeforeTransitive(a: Row, b: Row, c: Row)
    requires !Before(b, a) && !Before(c, b)
    ensures !Before(c, a)
  {
    hide Before;
    BeforeTotal(a, b);
    BeforeTotal(b, c);
    if Before(c, a) {
      BeforeTotal(c, a);
      if Before(a, b) {
        BeforeTransitive(c, a, b);
      } else if Before(b, c) {
        BeforeTransitive(b, c, a);
      } else {
        SameVersionOrder(c, a, b);
      }
    }
  }

  /** Keeps the first of adjacent copies of one version. */
  function DropCopies(rows: seq<Row>): seq<Row> {
    if rows == [] then []
    else
      var front := DropCopies(rows[..|rows| - 1]);
      if front != [] && SameVersion(front[|front| - 1], rows[|rows| - 1]) then front else front + [rows[|rows| - 1]]
  }

  lemma VersionsNext(rows: seq<Row>, r: Row)
    ensures VersionsOf(rows + [r]) == With(VersionsOf(rows), r)
  {
    hide With;
    assert (rows + [r])[..|rows|] == rows;
  }

  lemma WithCommutes(m: Versions, a: Row, b: Row)
    requires Before(a, b)
    ensures With(With(m, a), b) == With(With(m, b), a)
  {
    BeforeTotal(a, b);
  }

  lemma {:induction false} PlacedVersions(rows: seq<Row>, r: Row)
    ensures VersionsOf(Placed(rows, r, Before)) == With(VersionsOf(rows), r)
  {
    hide With, VersionsOf, Before;
    var n := |rows|;
    if rows != [] && Before(r, rows[n - 1]) {
      var front, last := rows[..n - 1], rows[n - 1];
      PlacedVersions(front, r);
      assert rows == front + [last];
      VersionsNext(front, last);
      VersionsNext(Placed(front, r, Before), last);
      WithCommutes(VersionsOf(front), r, last);
    } else {
      VersionsNext(rows, r);
    }
  }

  lemma SameVersionOrder(r: Row, x: Row, y: Row)
    requires SameVersion(x, y)
    ensures Before(r, x) <==> Before(r, y)
    ensures Before(x, r) <==> Before(y, r)
  {
  }

  lemma SortRowsSorted(rows: seq<Row>)
    ensures SortedBy(SortRows(rows), Before)
    ensures VersionsOf(SortRows(rows)) == VersionsOf(rows)
  {
    hide Before, VersionsOf;
    BeforeIsOrder();
    SortedIsSorted(rows, Before);
    SortRowsVersions(rows);
  }

  lemma {:induction false} SortRowsVersions(rows: seq<Row>)
    ensures VersionsOf(SortRows(rows)) == VersionsOf(rows)
  {
    hide Before, With;
    if rows != [] {
      var front := rows[..|rows| - 1];
      SortRowsVersions(front);
      PlacedVersions(SortRows(front), rows[|rows| - 1]);
    }
  }

  lemma {:induction false} VersionsMember(rows: seq<Row>)
    ensures forall r :: r in rows ==> (r.key, r.version.beginTs) in VersionsOf(rows)
    ensures forall id :: id in VersionsOf(rows) ==>
              exists r :: r in rows && (r.key, r.version.beginTs) == id && r.version.value == VersionsOf(rows)[id]
  {
    if rows != [] {
      var front, last := rows[..|rows| - 1], rows[|rows| - 1];
      VersionsMember(front);
      assert rows == front + [last];
    }
  }

  lemma DropCopiesStrict(rows: seq<Row>)
    requires SortedBy(rows, Before)
    ensures StrictlySorted(DropCopies(rows))
    ensures VersionsOf(DropCopies(rows)) == VersionsOf(rows)
  {
    DropCopiesSorted(rows);
    DropCopiesVersions(rows);
  }

  lemma {:induction false} DropCopiesVersions(rows: seq<Row>)
    ensures VersionsOf(DropCopies(rows)) == VersionsOf(rows)
  {
    if rows != [] {
      var front, last := rows[..|rows| - 1], rows[|rows| - 1];
      DropCopiesVersions(front);
      hide VersionsOf, DropCopies;
      DropCopiesNext(front, last);
      assert rows == front + [last];
      VersionsNext(front, last);
      VersionsNext(DropCopies(front), last);
      VersionsMember(DropCopies(front));
    }
  }

  /** Whatever is kept last is a copy of the last row. */
  lemma DropCopiesLast(rows: seq<Row>)
    requires rows != []
    ensures DropCopies(rows) != [] && SameVersion(DropCopies(rows)[|DropCopies(rows)| - 1], rows[|rows| - 1])
  {
  }

  lemma {:induction false} DropCopiesSorted(rows: seq<Row>)
    requires SortedBy(rows, Before)
    ensures StrictlySorted(DropCopies(rows))
  {
    if rows != [] {
      var n := |rows|;
      var front, last := rows[..n - 1], rows[n - 1];
      DropCopiesSorted(front);
      var d := DropCopies(front);
      if n > 1 && !SameVersion(d[|d| - 1], last) {
        DropCopiesLast(front);
        NextIsBehind(d[|d| - 1], front[n - 2], last);
        hide DropCopies, Before;
        StrictAppend(d, last);
      }
      hide DropCopies;
      DropCopiesNext(front, last);
      assert rows == front + [last];
    }
  }

  lemma NextIsBehind(kept: Row, previous: Row, last: Row)
    requires SameVersion(kept, previous) && !Before(last, previous) && !SameVersion(kept, last)
    ensures Before(kept, last)
  {
    hide Before;
    SameVersionOrder(last, kept, previous);
    BeforeTotal(kept, last);
  }

  lemma DropCopiesNext(front: seq<Row>, last: Row)
    ensures var d := DropCopies(front);
            DropCopies(front + [last]) == if d != [] && SameVersion(d[|d| - 1], last) then d else d + [last]
  {
    assert (front + [last])[..|front|] == front;
  }

  lemma StrictAppend(d: seq<Row>, last: Row)
    requires StrictlySorted(d) && d != [] && Before(d[|d| - 1], last)
    ensures StrictlySorted(d + [last])
    ensures forall i :: 0 <= i < |d| ==> Before(d[i], last)
  {
    hide Before;
    forall i | 0 <= i < |d| ensures Before(d[i], last) {
      if i < |d| - 1 {
        BeforeTransitive(d[i], d[|d| - 1], last);
      }
    }
  }

  // ---- The merge ----

  /** Row `i` with its interval end recomputed from the next newer version of the same key. */
  function Recomputed(rows: seq<Row>, i: nat): Row
    requires i < |rows|
  {
    rows[i].(version := rows[i].version.(endTs :=
      if i > 0 && rows[i - 1].key == rows[i].key then rows[i - 1].version.beginTs else OPEN_ENDED_TS))
  }

  /** The newest version of a key always stays, an older one only while its interval passes the watermark. */
  predicate Keeps(rows: seq<Row>, w: u64, i: nat)
    requires i < |rows|
  {
    i == 0 || rows[i - 1].key != rows[i].key || rows[i - 1].version.beginTs > w
  }

  /** What the merge emits for the first `n` rows of a sorted, copy-free run. */
  function Merged(rows: seq<Row>, w: u64, n: nat): seq<Row>
    requires n <= |rows|
  {
    if n == 0 then []
    else Merged(rows, w, n - 1) + (if Keeps(rows, w, n - 1) then [Recomputed(rows, n - 1)] else [])
  }

  function Dedup(rows: seq<Row>, w: u64): seq<Row> {
    var run := DropCopies(SortRows(rows));
    Merged(run, w, |run|)
  }

  lemma MergedNext(rows: seq<Row>, w: u64, n: nat)
    requires n < |rows|
    ensures Merged(rows, w, n + 1) == Merged(rows, w, n) + if Keeps(rows, w, n) then [Recomputed(rows, n)] else []
  {
  }

  lemma MergedNothing(rows: seq<Row>, w: u64)
    ensures Merged(rows, w, 0) == []
  {
  }

  /** The merge loop: for each key a head, then its older versions against the previous begin. */
  method DedupSuperseded(rows: seq<Row>, watermark: u64) returns (out: seq<Row>)
    ensures out == Dedup(rows, watermark)
  {
    hide DropCopies, SortRows, Merged;
    var run := DropCopies(SortRows(rows));
    out := [];
    MergedNothing(run, watermark);
    var i := 0;
    while i < |run|
      invariant 0 <= i <= |run|
      invariant out == Merged(run, watermark, i)
      invariant 0 < i < |run| ==> run[i - 1].key != run[i].key
    {
      MergedNext(run, watermark, i);
      var key, prevBegin := run[i].key, run[i].version.beginTs;
      out := out + [Row(key, run[i].version.(endTs := OPEN_ENDED_TS))];
      i := i + 1;
      while i < |run| && run[i].key == key
        invariant 0 < i <= |run|
        invariant out == Merged(run, watermark, i)
        invariant run[i - 1].key == key && run[i - 1].version.beginTs == prevBegin
      {
        MergedNext(run, watermark, i);
        var version := run[i].version.(endTs := prevBegin);
        if version.endTs > watermark {
          out := out + [Row(key, version)];
        }
        prevBegin := version.beginTs;
        i := i + 1;
      }
    }
  }

  lemma {:induction false} MergedMembers(run: seq<Row>, w: u64, n: nat)
    requires n <= |run|
    ensures forall r :: r in Merged(run, w, n) <==> exists i :: 0 <= i < n && Keeps(run, w, i) && Recomputed(run, i) == r
  {
    hide Keeps, Recomputed;
    if n > 0 {
      MergedMembers(run, w, n - 1);
    }
  }

  lemma {:induction false} MergedSorted(run: seq<Row>, w: u64, n: nat)
    requires n <= |run| && StrictlySorted(run)
    ensures StrictlySorted(Merged(run, w, n))
  {
    if n > 0 {
      MergedSorted(run, w, n - 1);
      MergedMembers(run, w, n - 1);
      var m := Merged(run, w, n - 1);
      forall i | 0 <= i < |m| ensures Before(m[i], Recomputed(run, n - 1)) {
        assert m[i] in m;
      }
    }
  }

  /** In a strictly sorted run the next newer version of a key is the row just before. */
  lemma RunNeighbours(run: seq<Row>, i: nat)
    requires StrictlySorted(run) && i < |run|
    ensures EndsAt(VersionsOf(run), run[i].key, run[i].version.beginTs, Recomputed(run, i).version.endTs)
    ensures forall w: u64 :: Keeps(run, w, i) <==> !Superseded(VersionsOf(run), run[i].key, run[i].version.beginTs, w)
  {
    var m, k, t := VersionsOf(run), run[i].key, run[i].version.beginTs;
    VersionsMember(run);
    if i > 0 && run[i - 1].key == k {
      var e := run[i - 1].version.beginTs;
      assert run[i - 1] in run && Before(run[i - 1], run[i]);
      LessIrreflexive(k);
      assert (k, e) in m && t < e;
      forall t': u64 | (k, t') in m && t < t' ensures e <= t' {
        NewerIsEarlier(run, i, t');
      }
    } else {
      forall t': u64 | (k, t') in m ensures t' <= t {
        if t < t' {
          NewerIsEarlier(run, i, t');
        }
      }
    }
  }

  lemma NewerIsEarlier(run: seq<Row>, i: nat, t': u64)
    requires StrictlySorted(run) && i < |run|
    requires (run[i].key, t') in VersionsOf(run) && run[i].version.beginTs < t'
    ensures i > 0 && run[i - 1].key == run[i].key && run[i - 1].version.beginTs <= t'
  {
    var k := run[i].key;
    VersionsMember(run);
    var r :| r in run && (r.key, r.version.beginTs) == (k, t');
    var j :| 0 <= j < |run| && run[j] == r;
    BeforeTotal(r, run[i]);
    LessIrreflexive(k);
    assert j < i;
    if j < i - 1 {
      assert Before(run[j], run[i - 1]) && Before(run[i - 1], run[i]);
      if Less(k, run[i - 1].key) {
        LessAsymmetric(k, run[i - 1].key);
      }
    }
  }

  /** The whole merge, stated without reference to how it is computed. */
  lemma DedupSpec(rows: seq<Row>, w: u64)
    ensures StrictlySorted(Dedup(rows, w))
    ensures forall r :: r in Dedup(rows, w) <==> Survives(VersionsOf(rows), w, r)
  {
    SortRowsSorted(rows);
    DropCopiesStrict(SortRows(rows));
    var run := DropCopies(SortRows(rows));
    MergedSorted(run, w, |run|);
    MergedMembers(run, w, |run|);
    VersionsMember(run);
    forall r ensures r in Dedup(rows, w) <==> Survives(VersionsOf(run), w, r) {
      DedupMember(run, w, r);
    }
  }

  lemma DedupMember(run: seq<Row>, w: u64, r: Row)
    requires StrictlySorted(run)
    ensures r in Merged(run, w, |run|) <==> Survives(VersionsOf(run), w, r)
  {
    MergedMembers(run, w, |run|);
    VersionsMember(run);
    var m := VersionsOf(run);
    if r in Merged(run, w, |run|) {
      var i :| 0 <= i < |run| && Keeps(run, w, i) && Recomputed(run, i) == r;
      RunNeighbours(run, i);
      RunValue(run, i);
    }
    if Survives(m, w, r) {
      var x :| x in run && (x.key, x.version.beginTs) == (r.key, r.version.beginTs) && x.version.value == r.version.value;
      var i :| 0 <= i < |run| && run[i] == x;
      RunNeighbours(run, i);
      EndUnique(m, r.key, r.version.beginTs, r.version.endTs, Recomputed(run, i).version.endTs);
      assert Recomputed(run, i) == r;
    }
  }

  lemma EndUnique(m: Versions, k: Key, t: u64, e: u64, e': u64)
    requires EndsAt(m, k, t, e) && EndsAt(m, k, t, e')
    ensures e == e'
  {
  }

  lemma RunValue(run: seq<Row>, i: nat)
    requires StrictlySorted(run) && i < |run|
    ensures (run[i].key, run[i].version.beginTs) in VersionsOf(run)
    ensures VersionsOf(run)[(run[i].key, run[i].version.beginTs)] == run[i].version.value
  {
    hide Before;
    VersionsMember(run);
    var id := (run[i].key, run[i].version.beginTs);
    assert run[i] in run;
    var x :| x in run && (x.key, x.version.beginTs) == id && x.version.value == VersionsOf(run)[id];
    var j :| 0 <= j < |run| && run[j] == x;
    BeforeTotal(run[j], run[i]);
    BeforeTotal(run[i], run[j]);
    assert i == j;
  }

  // ---- What readers see of the merged run ----

  /** `t` is the newest version of `k` at or below `s`. */
  ghost predicate NewestVersion(m: Versions, k: Key, s: u64, t: u64) {
    (k, t) in m && t <= s && forall t': u64 :: (k, t') in m && t' <= s ==> t' <= t
  }

  lemma EndExists(m: Versions, k: Key, t: u64)
    ensures exists e: u64 :: EndsAt(m, k, t, e)
  {
    var newer: set<int> := set id | id in m && id.0 == k && t < id.1 :: id.1;
    assert forall t': u64 :: (k, t') in m && t < t' ==> t' in newer;
    if newer == {} {
      assert EndsAt(m, k, t, OPEN_ENDED_TS);
    } else {
      var e := SmallestElement(newer);
      var id :| id in m && id.0 == k && t < id.1 && id.1 == e;
      assert id == (k, id.1);
      assert EndsAt(m, k, t, id.1);
    }
  }

  /** Every version that is not superseded survives the merge with its value. */
  lemma SurvivorExists(rows: seq<Row>, w: u64, k: Key, t: u64) returns (r: Row)
    requires (k, t) in VersionsOf(rows) && !Superseded(VersionsOf(rows), k, t, w)
    ensures r in Dedup(rows, w) && r.key == k && r.version.beginTs == t
    ensures r.version.value == VersionsOf(rows)[(k, t)]
  {
    var m := VersionsOf(rows);
    EndExists(m, k, t);
    var e: u64 :| EndsAt(m, k, t, e);
    r := Row(k, VersionedValue(m[(k, t)], t, e));
    DedupSpec(rows, w);
    assert Survives(m, w, r);
  }

  /** A surviving row is visible from the watermark on exactly when it is the newest version. */
  lemma SurvivorVisible(m: Versions, w: u64, s: u64, r: Row)
    requires Survives(m, w, r) && w <= s < OPEN_ENDED_TS
    ensures r.version.VisibleAt(s) <==> NewestVersion(m, r.key, s, r.version.beginTs)
  {
  }

  lemma NewestSurvives(m: Versions, w: u64, k: Key, s: u64, t: u64)
    requires NewestVersion(m, k, s, t) && w <= s
    ensures !Superseded(m, k, t, w)
  {
  }

  lemma SurvivorUnique(m: Versions, w: u64, r: Row, r': Row)
    requires Survives(m, w, r) && Survives(m, w, r') && SameVersion(r, r')
    ensures r == r'
  {
    EndUnique(m, r.key, r.version.beginTs, r.version.endTs, r'.version.endTs);
  }

  /** At every snapshot from the watermark on, exactly the newest version of the input is visible. */
  lemma DedupVisible(rows: seq<Row>, w: u64, k: Key, s: u64)
    requires w <= s < OPEN_ENDED_TS
    ensures forall r :: r in Dedup(rows, w) && r.key == k ==>
              (r.version.VisibleAt(s) <==> NewestVersion(VersionsOf(rows), k, s, r.version.beginTs))
    ensures forall t: u64 :: NewestVersion(VersionsOf(rows), k, s, t) ==>
              exists r :: r in Dedup(rows, w) && r.key == k && r.version.beginTs == t &&
                          r.version.value == VersionsOf(rows)[(k, t)]
    ensures forall r, r' :: r in Dedup(rows, w) && r' in Dedup(rows, w) && SameVersion(r, r') ==> r == r'
  {
    hide Dedup, VersionsOf, Survives, Superseded, StrictlySorted;
    var m := VersionsOf(rows);
    DedupSpec(rows, w);
    forall r | r in Dedup(rows, w) && r.key == k
      ensures r.version.VisibleAt(s) <==> NewestVersion(m, k, s, r.version.beginTs)
    {
      SurvivorVisible(m, w, s, r);
    }
    forall t: u64 | NewestVersion(m, k, s, t)
      ensures exists r :: r in Dedup(rows, w) && r.key == k && r.version.beginTs == t && r.version.value == m[(k, t)]
    {
      NewestSurvives(m, w, k, s, t);
      var r := SurvivorExists(rows, w, k, t);
    }
    forall r, r' | r in Dedup(rows, w) && r' in Dedup(rows, w) && SameVersion(r, r')
      ensures r == r'
    {
      SurvivorUnique(m, w, r, r');
    }
  }

  /** Some row of `rows` holds a newer version of the same key that begins at or below `w`. */
  ghost predicate Overtaken(rows: seq<Row>, x: Row, w: u64) {
    exists y :: y in rows && y.key == x.key && x.version.beginTs < y.version.beginTs <= w
  }

  /** The merge keeps an input version exactly when no other input row overtakes it: of the versions of
      a key at or below the watermark at most one is left. */
  lemma DedupKeepsIff(rows: seq<Row>, w: u64, x: Row)
    requires x in rows
    ensures (exists r :: r in Dedup(rows, w) && SameVersion(r, x)) <==> !Overtaken(rows, x, w)
    ensures forall r :: r in Dedup(rows, w) && r.key == x.key && r.version.beginTs < x.version.beginTs ==> x.version.beginTs > w
  {
    hide Dedup, VersionsOf, StrictlySorted;
    var m, k, t := VersionsOf(rows), x.key, x.version.beginTs;
    DedupSpec(rows, w);
    VersionsMember(rows);
    assert Superseded(m, k, t, w) <==> Overtaken(rows, x, w) by {
      if Superseded(m, k, t, w) {
        var t': u64 :| (k, t') in m && t < t' <= w;
        var y :| y in rows && (y.key, y.version.beginTs) == (k, t') && y.version.value == m[(k, t')];
      }
    }
    if !Superseded(m, k, t, w) {
      var r := SurvivorExists(rows, w, k, t);
    }
  }

  // ---- Compacting in stages ----

  /** `m'` lost nothing of `m` that is still needed at watermark `w`. */
  ghost predicate Agree(m': Versions, m: Versions, w: u64) {
    && m'.Keys <= m.Keys
    && forall k, t: u64 :: (k, t) in m && !Superseded(m, k, t, w) ==> (k, t) in m' && m'[(k, t)] == m[(k, t)]
  }

  /** A version hidden at `w` is hidden by one that is itself not hidden. */
  lemma NewestHider(m: Versions, k: Key, t: u64, w: u64) returns (h: u64)
    requires Superseded(m, k, t, w)
    ensures (k, h) in m && t < h <= w && !Superseded(m, k, h, w)
  {
    var hiders: set<int> := set id | id in m && id.0 == k && t < id.1 <= w :: id.1;
    assert forall t': u64 :: (k, t') in m && t < t' <= w ==> t' in hiders;
    var x := LargestElement(hiders);
    var id :| id in m && id.0 == k && t < id.1 <= w && id.1 == x;
    assert id == (k, id.1);
    h := id.1;
  }

  lemma AgreeSuperseded(m': Versions, m: Versions, w: u64, k: Key, t: u64)
    requires Agree(m', m, w)
    ensures Superseded(m', k, t, w) <==> Superseded(m, k, t, w)
  {
    if Superseded(m, k, t, w) {
      var h := NewestHider(m, k, t, w);
      assert (k, h) in m';
    }
  }

  lemma AgreeEnds(m': Versions, m: Versions, w: u64, k: Key, t: u64, e: u64)
    requires Agree(m', m, w) && !Superseded(m, k, t, w)
    ensures EndsAt(m', k, t, e) <==> EndsAt(m, k, t, e)
  {
    forall t': u64 | t < t' ensures (k, t') in m' <==> (k, t') in m {
      if (k, t') in m {
        assert t' > w;
        assert !Superseded(m, k, t', w);
      }
    }
  }

  lemma AgreeSurvives(m': Versions, m: Versions, w: u64, r: Row)
    requires Agree(m', m, w)
    ensures Survives(m', w, r) <==> Survives(m, w, r)
  {
    var k, t := r.key, r.version.beginTs;
    AgreeSuperseded(m', m, w, k, t);
    if !Superseded(m, k, t, w) {
      AgreeEnds(m', m, w, k, t, r.version.endTs);
    }
  }

  lemma AgreeDedup(rows: seq<Row>, w': u64, w: u64)
    requires w' <= w
    ensures Agree(VersionsOf(Dedup(rows, w')), VersionsOf(rows), w)
  {
    var m, out := VersionsOf(rows), Dedup(rows, w');
    DedupSpec(rows, w');
    VersionsMember(out);
    forall k, t: u64 | (k, t) in m && !Superseded(m, k, t, w)
      ensures (k, t) in VersionsOf(out) && VersionsOf(out)[(k, t)] == m[(k, t)]
    {
      assert !Superseded(m, k, t, w');
      var r := SurvivorExists(rows, w', k, t);
      var i :| 0 <= i < |out| && out[i] == r;
      RunValue(out, i);
    }
  }

  lemma {:induction false} VersionsConcat(a: seq<Row>, b: seq<Row>)
    ensures VersionsOf(a + b) == VersionsOf(b) + VersionsOf(a)
  {
    hide VersionsOf, With;
    if b == [] {
      assert a + b == a;
      NoVersions(VersionsOf(a));
    } else {
      var front, last := b[..|b| - 1], b[|b| - 1];
      VersionsConcat(a, front);
      VersionsNext(a + front, last);
      VersionsNext(front, last);
      assert a + b == (a + front) + [last] && b == front + [last];
      WithBelow(VersionsOf(front), VersionsOf(a), last);
    }
  }

  lemma NoVersions(m: Versions)
    ensures VersionsOf([]) + m == m
  {
  }

  lemma WithBelow(m: Versions, over: Versions, r: Row)
    ensures With(m + over, r) == With(m, r) + over
  {
  }

  lemma AgreeConcat(m1': Versions, m1: Versions, m2': Versions, m2: Versions, w: u64)
    requires Agree(m1', m1, w) && Agree(m2', m2, w)
    ensures Agree(m2' + m1', m2 + m1, w)
  {
    var m, m' := m2 + m1, m2' + m1';
    forall k, t: u64 | (k, t) in m && !Superseded(m, k, t, w)
      ensures (k, t) in m' && m'[(k, t)] == m[(k, t)]
    {
      assert forall t': u64 :: (k, t') in m1 || (k, t') in m2 ==> (k, t') in m;
      assert !Superseded(m1, k, t, w) && !Superseded(m2, k, t, w);
    }
  }

  /** Each chunk merged on its own, at its own watermark. */
  function DedupEach(chunks: seq<seq<Row>>, ws: seq<u64>): seq<seq<Row>>
    requires |chunks| == |ws|
  {
    seq(|chunks|, i requires 0 <= i < |chunks| => Dedup(chunks[i], ws[i]))
  }

  lemma {:induction false} AgreeEach(chunks: seq<seq<Row>>, ws: seq<u64>, w: u64)
    requires |chunks| == |ws| && forall i :: 0 <= i < |ws| ==> ws[i] <= w
    ensures Agree(VersionsOf(Flatten(DedupEach(chunks, ws))), VersionsOf(Flatten(chunks)), w)
  {
    var n := |chunks|;
    if n > 0 {
      AgreeEach(chunks[..n - 1], ws[..n - 1], w);
      AgreeDedup(chunks[n - 1], ws[n - 1], w);
      var merged := DedupEach(chunks, ws);
      assert merged[..n - 1] == DedupEach(chunks[..n - 1], ws[..n - 1]);
      VersionsConcat(Flatten(merged[..n - 1]), merged[n - 1]);
      VersionsConcat(Flatten(chunks[..n - 1]), chunks[n - 1]);
      AgreeConcat(VersionsOf(Flatten(merged[..n - 1])), VersionsOf(Flatten(chunks[..n - 1])),
                  VersionsOf(merged[n - 1]), VersionsOf(chunks[n - 1]), w);
    }
  }

  /** However the rows are split, merging the parts first and then their union at a watermark that
      is not below theirs gives the same rows as merging everything at once. */
  lemma StagedCompactionIsOneShot(chunks: seq<seq<Row>>, ws: seq<u64>, w: u64)
    requires |chunks| == |ws| && forall i :: 0 <= i < |ws| ==> ws[i] <= w
    ensures Dedup(Flatten(DedupEach(chunks, ws)), w) == Dedup(Flatten(chunks), w)
  {
    var staged, all := Flatten(DedupEach(chunks, ws)), Flatten(chunks);
    AgreeEach(chunks, ws, w);
    DedupSpec(staged, w);
    DedupSpec(all, w);
    forall r ensures r in Dedup(staged, w) <==> r in Dedup(all, w) {
      AgreeSurvives(VersionsOf(staged), VersionsOf(all), w, r);
    }
    SortedUnique(Dedup(staged, w), Dedup(all, w));
  }
}
