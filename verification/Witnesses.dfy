/**
 Runs after which a point lookup does not return the newest committed value.

 Two versions of a key flushed together: the key index lands on the older one, which is not visible.
 A lookup, then a newer version in another file: the hot-key cache still answers with the old file.
 Two flushed files merged in chunks of their own: the early exit stops at the older one.
 */
module Witnesses {
  import opened Bytes
  import opened KeyOrder
  import opened Sequences
  import opened Version
  import opened Compaction
  import opened Memtable
  import opened Lsm
  import opened Reads
  import opened Lookup
  import opened RowCounts
  import opened Nodes
  import opened Chunks
  import KI = KeyIndexes
  import Manifest
  import ManifestLog

  ghost predicate Reached(n: Node) {
    exists run :: Nodes.Runs(NEW, run, n)
  }

  lemma {:induction false} RunsOn(n: Node, run: seq<Deed>, n': Node, d: Deed)
    requires Nodes.Runs(n, run, n') && Nodes.Enabled(n', d)
    ensures Nodes.Runs(n, run + [d], Nodes.Step(n', d))
    decreases |run|
  {
    hide Nodes.Enabled, Nodes.Step;
    if run == [] {
      assert [d][1..] == [];
    } else {
      RunsOn(Nodes.Step(n, run[0]), run[1..], n', d);
      assert (run + [d])[1..] == run[1..] + [d];
    }
  }

  lemma ReachedNext(n: Node, d: Deed)
    requires Reached(n) && Nodes.Enabled(n, d)
    ensures Reached(Nodes.Step(n, d))
  {
    hide Nodes.Enabled, Nodes.Step, Nodes.Runs;
    var run :| Nodes.Runs(NEW, run, n);
    RunsOn(NEW, run, n, d);
  }

  lemma ReachedInv(n: Node)
    requires Reached(n)
    ensures Nodes.Inv(n)
  {
    hide Nodes.Inv, Nodes.Runs, NEW;
    var run :| Nodes.Runs(NEW, run, n);
    NewInv();
    RunKeeps(NEW, run, n);
  }

  lemma Start() returns (n: Node)
    ensures Reached(n) && n == NEW
  {
    hide Nodes.Step, Nodes.Enabled;
    n := NEW;
    assert Nodes.Runs(NEW, [], NEW);
  }

  // ---- Commits and flushes ----

  lemma CommitTo(n: Node, batch: Batch) returns (n': Node)
    requires Reached(n) && n.w.st.commitSeq < U64_MAX && batch != [] && KeysFit(batch)
    ensures Reached(n') && n' == n.(w := n'.w) && n'.w.floor == n.w.floor
    ensures n'.w.st == n.w.st.(mem := Applied(n.w.st.mem, batch, n.w.st.commitSeq), commitSeq := n.w.st.commitSeq + 1,
                               wal := n.w.st.wal + [batch])
    ensures n'.w.hist == Stamp(n.w.hist, batch, n.w.st.commitSeq)
  {
    hide Updates, Applied, KeysFit, Stamp, Reached;
    ReachedNext(n, Plain(Commit(batch)));
    n' := Nodes.Step(n, Plain(Commit(batch)));
  }

  lemma FlushAll(n: Node, extra: Extra) returns (n': Node)
    requires Reached(n) && n.w.st.nextFileId < U64_MAX && Drained(n.w.st.mem) != [] && Built(extra, Drained(n.w.st.mem))
    ensures Reached(n') && n'.w.hist == n.w.hist && n'.w.floor == n.w.floor
    ensures var id, rows := n.w.st.nextFileId, Drained(n.w.st.mem);
            && n'.w.st == n.w.st.(mem := map[], files := n.w.st.files[id := Sst(0, rows)], nextFileId := id + 1)
            && n'.caches == WithFile(n.caches, id, extra)
            && n'.man.members.meta == n.man.members.meta[id := MetaOf(rows, extra)]
  {
    hide Drained, FlushCounts, Reached, WithFile, Built, ManifestLog.NextLog, MetaOf, Manifest.ApplyAll;
    ReachedNext(n, FlushTo(false, extra));
    n' := Nodes.Step(n, FlushTo(false, extra));
    FlushMeta(n.man.members, n.w.st.nextFileId, Drained(n.w.st.mem), extra);
  }

  lemma FlushMeta(m: Members, id: u64, rows: seq<Row>, extra: Extra)
    ensures Manifest.ApplyAll(m, FlushEdits(id, rows, extra)).meta == m.meta[id := MetaOf(rows, extra)]
  {
    hide Manifest.ApplyAll, MetaOf;
    var add, next := Manifest.AddFile(id, 0, MetaOf(rows, extra)), Manifest.NextFileId(Manifest.Succ(id));
    Manifest.ApplyNext(m, [], add);
    Manifest.ApplyNext(m, [add], next);
    assert [] + [add] == [add] && [add] + [next] == FlushEdits(id, rows, extra);
    Manifest.NothingApplied(m);
  }

  // ---- One key ----

  lemma UpdatesOne(k: Key, v: Value)
    ensures Updates([Put(k, v)]).Keys == {k} && Updates([Put(k, v)])[k] == Some(v)
  {
    assert [Put(k, v)][..0] == [];
  }

  lemma AppliedOne(mem: Entries, k: Key, v: Value, ts: u64)
    ensures Applied(mem, [Put(k, v)], ts) == mem[k := Inserted(ChainOf(mem, k), Live(Some(v), ts), OPEN_ENDED_TS)]
  {
    assert [Put(k, v)][..0] == [];
  }

  lemma DrainedKey(k: Key, vs: seq<VersionedValue>)
    ensures Drained(map[k := vs]) == RowsOf(k, vs)
  {
    var entries := map[k := vs];
    var ks := Ascending(entries.Keys);
    AscendingSorted(entries.Keys);
    assert k in ks;
    forall i | 0 <= i < |ks|
      ensures ks[i] == k
    {
      assert ks[i] in ks;
    }
    if |ks| > 1 {
      NotEarlier(ks, 1);
    }
    assert ks == [k] && ks[1..] == [];
    assert DrainedOver(entries, ks) == RowsOf(k, vs) + [];
  }

  lemma LastCommit(hist: Versions, before: Versions, batch: Batch, ts: u64, k: Key, v: Value)
    requires hist == Stamp(before, batch, ts) && k in Updates(batch) && Updates(batch)[k] == Some(v)
    ensures ReadIs(hist, k, ts, Some(v))
  {
    hide Updates, Stamp;
    StampMembers(before, batch, ts);
    assert NewestVersion(hist, k, ts, ts);
  }

  /** A key and two values that are far from the limits of the key index. */
  predicate Small(k: Key, v: Value) {
    |k| + |v| <= 1_000_000
  }

  lemma OneRowFits(r: Row)
    requires r.version.value.Some? && Small(r.key, r.version.value.value)
    ensures KI.Fits([r])
  {
    assert [r][..0] == [];
  }

  lemma TwoRowsFit(r: Row, x: Row)
    requires r.version.value.Some? && Small(r.key, r.version.value.value) && x.version.value.Some? && Small(x.key, x.version.value.value)
    ensures KI.Fits([r, x])
  {
    hide KI.Entry;
    var rows := [r, x];
    assert rows[..0] == [] && rows[..1] == [r] && [r][..0] == [];
    KI.EntryLength(r);
    assert KI.Entries([r]) == [] + KI.Entry(r);
  }

  /** A file of 64 MiB without sidecars. */
  const PLAIN := Extra(CHUNK_LIMIT, 0, None, None)

  /** A file of which the key index was stored. */
  lemma IndexedExtra(rows: seq<Row>) returns (extra: Extra)
    requires KI.Fits(rows)
    ensures Built(extra, rows) && extra.filter.None? && extra.index.Some?
  {
    KI.RowsParseBack(rows);
    extra := Extra(CHUNK_LIMIT, 0, None, KI.ParsedIndex(KI.Data(rows)));
  }

  // ---- Two versions in one file ----

  /** Rows of one key, the newer without an end, the older ending where the newer begins. */
  function TwoVersions(k: Key, v1: Value, v2: Value): seq<Row> {
    [Row(k, VersionedValue(Some(v2), 2, OPEN_ENDED_TS)), Row(k, VersionedValue(Some(v1), 1, 2))]
  }

  lemma TwoPutsDrained(k: Key, v1: Value, v2: Value)
    ensures Drained(Applied(Applied(map[], [Put(k, v1)], 1), [Put(k, v2)], 2)) == TwoVersions(k, v1, v2)
  {
    hide Drained, Applied;
    AppliedOne(map[], k, v1, 1);
    var mem := Applied(map[], [Put(k, v1)], 1);
    AppliedOne(mem, k, v2, 2);
    var vs := [VersionedValue(Some(v2), 2, OPEN_ENDED_TS), VersionedValue(Some(v1), 1, 2)];
    assert mem == map[k := [Live(Some(v1), 1)]];
    assert Inserted(mem[k], Live(Some(v2), 2), OPEN_ENDED_TS) == vs;
    assert Applied(mem, [Put(k, v2)], 2) == map[k := vs];
    DrainedKey(k, vs);
  }

  /**
   Two puts of a key, a flush that stores its key index, and a lookup with an empty hot-key cache: the
   newest committed value is `v2`, and the lookup finds nothing.
   */
  lemma IndexHidesNewest(k: Key, v1: Value, v2: Value) returns (n: Node)
    requires Small(k, v1) && Small(k, v2)
    ensures Reached(n) && Nodes.Inv(n) && n.caches.hot == map[] && SnapshotTs(n.w.st) == 2
    ensures ReadIs(n.w.hist, k, 2, Some(v2))
    ensures forall v :: Finds(n.w.st.mem, n.w.st.files, n.caches, k, 2, v) <==> v == None
    ensures !Exact(n.w.st.mem, n.w.st.files, n.caches, k, 2)
  {
    hide Nodes.Inv, Reached, NEW, Updates, Stamp, Drained, Applied, Built, ReadIs, Finds, Exact;
    var b1, b2 := [Put(k, v1)], [Put(k, v2)];
    UpdatesOne(k, v1);
    UpdatesOne(k, v2);
    StartState();
    var n0 := Start();
    var n1 := CommitTo(n0, b1);
    var n2 := CommitTo(n1, b2);
    TwoPutsDrained(k, v1, v2);
    var rows := TwoVersions(k, v1, v2);
    TwoRowsFit(rows[0], rows[1]);
    var extra := IndexedExtra(rows);
    n := FlushAll(n2, extra);
    ReachedInv(n);
    LastCommit(n.w.hist, n1.w.hist, b2, 2, k, v2);
    TwoVersionsMissed(n.w.st.files, n.caches, k, v1, v2);
  }

  lemma StartState()
    ensures NEW.w.st == Store(map[], map[], 0, 1, map[], []) && NEW.caches == NO_CACHES && NEW.man.members == Manifest.EMPTY
  {
  }

  lemma TwoVersionsMissed(files: Files, c: Caches, k: Key, v1: Value, v2: Value)
    requires files == map[0 := Sst(0, TwoVersions(k, v1, v2))] && c.indexes.Keys == {0} && c.hot == map[]
    ensures forall v :: Finds(map[], files, c, k, 2, v) <==> v == None
    ensures !Exact(map[], files, c, k, 2)
  {
    hide Leads;
    var rows := files[0].rows;
    KI.DuplicateReturnsOlder(rows[0], rows[1]);
    assert forall id, u :: !Given(files, {0}, id, k, 2, u);
    assert rows[0] in rows;
    assert ShownBy(files, 0, k, 2, 2);
    assert FirstVisible(ChainOf(map[], k), 2).None?;
  }

  // ---- A stale entry of the hot-key cache ----

  function OneVersion(k: Key, v: Value, ts: u64): seq<Row> {
    [Row(k, VersionedValue(Some(v), ts, OPEN_ENDED_TS))]
  }

  /** A put of the key is flushed with its key index into a new file. */
  lemma PutAndFlush(n: Node, k: Key, v: Value) returns (n': Node)
    requires Reached(n) && n.w.st.mem == map[] && n.w.st.commitSeq < U64_MAX && n.w.st.nextFileId < U64_MAX && Small(k, v)
    ensures Reached(n') && n'.caches.hot == n.caches.hot && n'.caches.indexes.Keys == n.caches.indexes.Keys + {n.w.st.nextFileId}
    ensures var id, ts := n.w.st.nextFileId, n.w.st.commitSeq;
            && n'.w.st.mem == map[] && n'.w.st.commitSeq == ts + 1 && n'.w.st.nextFileId == id + 1
            && n'.w.st.files == n.w.st.files[id := Sst(0, OneVersion(k, v, ts))]
            && n'.w.hist == Stamp(n.w.hist, [Put(k, v)], ts)
  {
    hide Reached, Updates, Stamp, Drained, Applied, Built;
    var ts := n.w.st.commitSeq;
    UpdatesOne(k, v);
    var n1 := CommitTo(n, [Put(k, v)]);
    AppliedOne(map[], k, v, ts);
    var vs := [Live(Some(v), ts)];
    assert n1.w.st.mem == map[k := vs];
    DrainedKey(k, vs);
    var rows := OneVersion(k, v, ts);
    assert RowsOf(k, vs) == rows;
    OneRowFits(rows[0]);
    var extra := IndexedExtra(rows);
    n' := FlushAll(n1, extra);
  }

  /**
   A put, a flush, a lookup that leaves the file in the hot-key cache, a second put and flush: the newest
   committed value is `v2`, and the lookup finds `v1`.
   */
  lemma HotEntryHidesNewest(k: Key, v1: Value, v2: Value) returns (n: Node)
    requires Small(k, v1) && Small(k, v2)
    ensures Reached(n) && Nodes.Inv(n) && SnapshotTs(n.w.st) == 2
    ensures ReadIs(n.w.hist, k, 2, Some(v2))
    ensures forall v :: Finds(n.w.st.mem, n.w.st.files, n.caches, k, 2, v) <==> v == Some(VersionedValue(Some(v1), 1, OPEN_ENDED_TS))
    ensures !Exact(n.w.st.mem, n.w.st.files, n.caches, k, 2)
  {
    hide Nodes.Inv, Nodes.Step, Nodes.Enabled, Reached, NEW, Updates, Stamp, ReadIs, Finds, Exact, OneVersion;
    UpdatesOne(k, v2);
    StartState();
    var n0 := Start();
    var n1 := PutAndFlush(n0, k, v1);
    var n2 := LookUpOnly(n1, k, v1);
    var n3 := PutAndFlush(n2, k, v2);
    n := n3;
    ReachedInv(n);
    LastCommit(n.w.hist, n2.w.hist, [Put(k, v2)], 2, k, v2);
    HotMisses(n.w.st.files, n.caches, k, v1, v2);
  }

  lemma LookUpOnly(n: Node, k: Key, v: Value) returns (n': Node)
    requires Reached(n) && n.w.st.mem == map[] && n.w.st.files == map[0 := Sst(0, OneVersion(k, v, 1))]
    requires n.caches.indexes.Keys == {0} && n.caches.hot == map[]
    ensures Reached(n') && n'.w == n.w && n'.caches.indexes == n.caches.indexes && n'.caches.hot == map[k := 0]
    ensures forall u :: Finds(n.w.st.mem, n.w.st.files, n.caches, k, 1, u) ==> u.Some? && u.value.value == Some(v)
  {
    hide Reached, Leads;
    var rows := n.w.st.files[0].rows;
    assert Given(n.w.st.files, {0}, 0, k, 1, rows[0].version);
    ReachedNext(n, LookUp(k, 1, 0));
    n' := Nodes.Step(n, LookUp(k, 1, 0));
  }

  lemma HotMisses(files: Files, c: Caches, k: Key, v1: Value, v2: Value)
    requires files == map[0 := Sst(0, OneVersion(k, v1, 1)), 1 := Sst(0, OneVersion(k, v2, 2))]
    requires c.indexes.Keys == {0, 1} && c.hot == map[k := 0]
    ensures forall v :: Finds(map[], files, c, k, 2, v) <==> v == Some(VersionedValue(Some(v1), 1, OPEN_ENDED_TS))
    ensures !Exact(map[], files, c, k, 2)
  {
    hide NewestGiven, FilesSuffice;
    var hot := HotOffer(files, c, k, 2);
    assert hot == Some(files[0].rows[0].version);
    assert files[1].rows[0] in files[1].rows;
    assert ShownBy(files, 1, k, 2, 2);
    assert FirstVisible(ChainOf(map[], k), 2).None?;
  }

  // ---- A sub-compaction in two chunks ----

  /** Exactly the updates of one batch, all at `ts`. */
  ghost predicate HoldsBatch(rows: seq<Row>, batch: Batch, ts: u64) {
    && (forall r :: r in rows ==> r.version.beginTs == ts && r.key in Updates(batch))
    && (forall k :: k in Updates(batch) ==> exists r :: r in rows && r.key == k)
  }

  lemma DrainedBatch(batch: Batch, ts: u64)
    ensures HoldsBatch(Drained(Applied(map[], batch, ts)), batch, ts)
  {
    hide Updates, Drained, Applied;
    var mem := Applied(map[], batch, ts);
    NothingChained();
    AppliedContents(map[], batch, ts);
    DrainedMembers(mem);
    forall r | r in Drained(mem)
      ensures r.version.beginTs == ts && r.key in Updates(batch)
    {
      assert ChainOf(mem, r.key) == mem[r.key];
      ContentsMember(ChainOf(mem, r.key));
      assert r.version.beginTs in MemContents(mem, r.key);
      NothingContained(r.key);
    }
    forall k | k in Updates(batch)
      ensures exists r :: r in Drained(mem) && r.key == k
    {
      MemRow(mem, k, ts);
    }
  }

  lemma NothingChained()
    ensures ChainsOk(map[])
  {
  }

  lemma NothingContained(k: Key)
    ensures MemContents(map[], k) == map[]
  {
  }

  lemma CommitAndFlush(n: Node, batch: Batch) returns (n': Node)
    requires Reached(n) && n.w.st.mem == map[] && n.w.st.commitSeq < U64_MAX && n.w.st.nextFileId < U64_MAX
    requires batch != [] && KeysFit(batch)
    ensures Reached(n') && n'.w.st.mem == map[] && n'.w.st.commitSeq == n.w.st.commitSeq + 1
    ensures n'.w.st.nextFileId == n.w.st.nextFileId + 1 && n'.w.st.pins == n.w.st.pins && n'.caches == n.caches
    ensures n'.w.hist == Stamp(n.w.hist, batch, n.w.st.commitSeq)
    ensures exists rows :: HoldsBatch(rows, batch, n.w.st.commitSeq)
                        && n'.w.st.files == n.w.st.files[n.w.st.nextFileId := Sst(0, rows)]
                        && n'.man.members.meta == n.man.members.meta[n.w.st.nextFileId := MetaOf(rows, PLAIN)]
  {
    hide Updates, Drained, Applied, KeysFit, Stamp, Reached, MetaOf;
    var ts := n.w.st.commitSeq;
    DrainedBatch(batch, ts);
    UpdatesOfLast(batch);
    var n1 := CommitTo(n, batch);
    n' := FlushAll(n1, PLAIN);
  }

  lemma UpdatesTwo(a: Key, x: Value, k: Key, v: Value)
    requires a != k
    ensures Updates([Put(a, x), Put(k, v)]).Keys == {a, k} && Updates([Put(a, x), Put(k, v)])[k] == Some(v)
  {
    assert [Put(a, x), Put(k, v)][..1] == [Put(a, x)];
    UpdatesOne(a, x);
  }

  lemma BatchVersions(rows: seq<Row>, batch: Batch, ts: u64)
    requires HoldsBatch(rows, batch, ts)
    ensures forall k, t: u64 :: (k, t) in VersionsOf(rows) <==> k in Updates(batch) && t == ts
  {
    hide Updates, VersionsOf;
    var m := VersionsOf(rows);
    VersionsMember(rows);
    forall k | k in Updates(batch)
      ensures (k, ts) in m
    {
      var r :| r in rows && r.key == k;
      assert (r.key, r.version.beginTs) in m;
    }
  }

  /** The row that a merge makes of a key of the batch. */
  lemma MergedRow(rows: seq<Row>, batch: Batch, ts: u64, mark: u64, k: Key) returns (r: Row)
    requires HoldsBatch(rows, batch, ts) && k in Updates(batch)
    ensures r in Dedup(rows, mark) && r.key == k && r.version.beginTs == ts && r.version.endTs == OPEN_ENDED_TS
  {
    hide Updates, Dedup, StrictlySorted, VersionsOf, HoldsBatch;
    var m := VersionsOf(rows);
    BatchVersions(rows, batch, ts);
    DedupSpec(rows, mark);
    r := Row(k, VersionedValue(m[(k, ts)], ts, OPEN_ENDED_TS));
    assert Survives(m, mark, r);
  }

  /** Merging a file that holds one batch keeps its versions, all of them without an end. */
  lemma MergedBatch(rows: seq<Row>, batch: Batch, ts: u64, mark: u64)
    requires HoldsBatch(rows, batch, ts) && ts < OPEN_ENDED_TS
    ensures StrictlySorted(Dedup(rows, mark)) && HoldsBatch(Dedup(rows, mark), batch, ts)
    ensures forall k, s: u64, t: u64 :: ts <= s < OPEN_ENDED_TS ==>
              (Shows(Dedup(rows, mark), k, s, t) <==> k in Updates(batch) && t == ts)
  {
    hide Updates, Dedup, StrictlySorted, VersionsOf;
    var out, m := Dedup(rows, mark), VersionsOf(rows);
    DedupSpec(rows, mark);
    BatchVersions(rows, batch, ts);
    forall r | r in out
      ensures r.version.beginTs == ts && r.key in Updates(batch)
    {
      assert Survives(m, mark, r);
    }
    forall k | k in Updates(batch)
      ensures exists r :: r in out && r.key == k && r.version.beginTs == ts && r.version.endTs == OPEN_ENDED_TS
    {
      var r := MergedRow(rows, batch, ts, mark, k);
    }
  }

  lemma SmallestOf(rows: seq<Row>, a: Key)
    requires StrictlySorted(rows) && (exists r :: r in rows && r.key == a) && forall r :: r in rows ==> LessEq(a, r.key)
    ensures MinKey(rows) == a
  {
    hide StrictlySorted, Less;
    var r :| r in rows && r.key == a;
    WithinBounds(rows, r);
    assert rows[0] in rows;
    LessAntisymmetric(a, rows[0].key);
  }

  lemma LessAntisymmetric(a: Key, b: Key)
    requires LessEq(a, b) && LessEq(b, a)
    ensures a == b
  {
    hide Less;
    if a != b {
      LessAsymmetric(a, b);
    }
  }

  /**
   After a sub-compaction of levels 0 and 1, whose greedy split has two chunks because the files are
   large, the newest committed value is `v2`, and the files that a lookup reads do not suffice, whichever
   of them have a key index: the lookup finds another version.
   */
  lemma SubCompactionHidesNewest(a: Key, x: Value, k: Key, v1: Value, v2: Value) returns (before: Node, n: Node)
    requires Less(a, k) && |a| <= U32_MAX && |k| <= U32_MAX
    ensures Reached(before) && Next(before, CompactLevels(0, 1, TWO_CHUNKS, 2, [PLAIN, PLAIN]), n)
    ensures IsSplit(before.man.members.meta, CompactionInputs(before.man.members.levels, 0, 1), CHUNK_LIMIT, TWO_CHUNKS)
    ensures Reached(n) && Nodes.Inv(n) && SnapshotTs(n.w.st) == 2
    ensures ReadIs(n.w.hist, k, 2, Some(v2))
    ensures forall indexed: set<FileId> :: !FilesSuffice(n.w.st.files, indexed, k, 2)
    ensures !Exact(n.w.st.mem, n.w.st.files, n.caches, k, 2)
  {
    hide Nodes.Inv, Nodes.Step, Nodes.Enabled, Next, Reached, NEW, Updates, Dedup, HoldsBatch, Stamp, FilesSuffice, Less, IsSplit, MetaOf;
    var b1, b2 := [Put(k, v1)], [Put(a, x), Put(k, v2)];
    LessIrreflexive(k);
    UpdatesOne(k, v1);
    UpdatesTwo(a, x, k, v2);
    StartState();
    var n0 := Start();
    var n1 := CommitAndFlush(n0, b1);
    var rows1 :| HoldsBatch(rows1, b1, 1) && n1.w.st.files == n0.w.st.files[0 := Sst(0, rows1)]
                 && n1.man.members.meta == n0.man.members.meta[0 := MetaOf(rows1, PLAIN)];
    var n2 := CommitAndFlush(n1, b2);
    var rows2 :| HoldsBatch(rows2, b2, 2) && n2.w.st.files == n1.w.st.files[1 := Sst(0, rows2)]
                 && n2.man.members.meta == n1.man.members.meta[1 := MetaOf(rows2, PLAIN)];
    before, n := Split(n2, rows1, rows2);
    ReachedInv(n);
    LastCommit(n.w.hist, n1.w.hist, b2, 2, k, v2);
    forall indexed: set<FileId>
      ensures !FilesSuffice(n.w.st.files, indexed, k, 2)
    {
      TwoOutputs(n.w.st.files, indexed, rows1, rows2, a, x, k, v1, v2);
    }
    NothingHot(n.w.st.files, n.caches, k);
  }

  lemma NothingHot(files: Files, c: Caches, k: Key)
    requires c.hot == map[]
    ensures HotOffer(files, c, k, 2).None? && FirstVisible(ChainOf(map[], k), 2).None?
  {
  }

  /** The watermark, then the compaction of files 0 and 1 in a chunk each. */
  lemma Split(n: Node, rows1: seq<Row>, rows2: seq<Row>) returns (before: Node, n': Node)
    requires Reached(n) && n.w.st.mem == map[] && n.w.st.commitSeq == 3 && n.w.st.nextFileId == 2 && n.w.st.pins == map[]
    requires n.w.st.files == map[0 := Sst(0, rows1), 1 := Sst(0, rows2)] && n.caches == NO_CACHES
    requires n.man.members.meta == map[0 := MetaOf(rows1, PLAIN), 1 := MetaOf(rows2, PLAIN)]
    ensures Reached(before) && Next(before, CompactLevels(0, 1, TWO_CHUNKS, 2, [PLAIN, PLAIN]), n')
    ensures IsSplit(before.man.members.meta, CompactionInputs(before.man.members.levels, 0, 1), CHUNK_LIMIT, TWO_CHUNKS)
    ensures Reached(n') && n'.w.st.mem == map[] && n'.w.st.commitSeq == 3 && n'.w.hist == n.w.hist && n'.caches.hot == map[]
    ensures n'.w.st.files == map[2 := Sst(1, Dedup(rows1, 2)), 3 := Sst(1, Dedup(rows2, 2))]
  {
    hide Dedup, CompactEdits, CompactCounts, Reached, IsSplit, CompactionInputs, WithFiles;
    var d := Plain(ComputeWatermark(2));
    ReachedNext(n, d);
    before := Nodes.Step(n, d);
    TwoAreSplit(before, rows1, rows2);
    SplitEnabled(before);
    ReachedNext(before, CompactLevels(0, 1, TWO_CHUNKS, 2, [PLAIN, PLAIN]));
    n' := Nodes.Step(before, CompactLevels(0, 1, TWO_CHUNKS, 2, [PLAIN, PLAIN]));
    TwoChunks(n.w.st.files);
    NoFilesCached();
  }

  lemma NoFilesCached()
    ensures WithFiles(NO_CACHES, 2, [PLAIN, PLAIN]) == NO_CACHES
  {
    assert [PLAIN, PLAIN][..1] == [PLAIN] && [PLAIN][..0] == [];
    assert WithFiles(NO_CACHES, 2, [PLAIN]) == WithFile(WithFiles(NO_CACHES, 2, []), 2, PLAIN);
  }

  lemma TwoAreSplit(n: Node, rows1: seq<Row>, rows2: seq<Row>)
    requires Reached(n) && n.w.st.files == map[0 := Sst(0, rows1), 1 := Sst(0, rows2)]
    requires n.man.members.meta == map[0 := MetaOf(rows1, PLAIN), 1 := MetaOf(rows2, PLAIN)]
    ensures IsSplit(n.man.members.meta, CompactionInputs(n.man.members.levels, 0, 1), CHUNK_LIMIT, TWO_CHUNKS)
  {
    hide Nodes.Inv, Reached, Flatten, IsSplit, CompactionInputs, MetaOf;
    TwoInputs(n, rows1, rows2);
    FlattenTwo();
    TwoFull(n.man.members.meta, rows1, rows2);
  }

  lemma TwoInputs(n: Node, rows1: seq<Row>, rows2: seq<Row>)
    requires Reached(n) && n.w.st.files == map[0 := Sst(0, rows1), 1 := Sst(0, rows2)]
    ensures CompactionInputs(n.man.members.levels, 0, 1) == [0, 1]
  {
    hide Nodes.Inv, Reached, Matches, CompactionInputs, NoRepeats, IdsFit;
    ReachedInv(n);
    NodeMatches(n);
    InputsAreLevels(n.w.st.files, n.man.members, 0, 1);
    assert InLevels(n.w.st.files, 0, 1) == {0, 1};
    AscendingPair(CompactionInputs(n.man.members.levels, 0, 1));
  }

  lemma TwoFull(meta: Metas, rows1: seq<Row>, rows2: seq<Row>)
    requires meta == map[0 := MetaOf(rows1, PLAIN), 1 := MetaOf(rows2, PLAIN)]
    ensures IsSplit(meta, [0, 1], CHUNK_LIMIT, TWO_CHUNKS)
  {
    hide Flatten;
    FlattenTwo();
    TotalNext(meta, [], 0);
    assert [] + [0] == [0];
    assert ChunkFull(meta, TWO_CHUNKS, CHUNK_LIMIT, 0);
  }

  lemma AscendingPair(ids: seq<FileId>)
    requires |ids| == 2 && ids[0] < ids[1] && forall id :: id in ids <==> id in {0, 1}
    ensures ids == [0, 1]
  {
    assert ids[0] in ids && ids[1] in ids;
  }

  const TWO_CHUNKS: seq<seq<FileId>> := [[0], [1]]

  lemma FlattenTwo()
    ensures Flatten(TWO_CHUNKS) == [0, 1] && Inputs(TWO_CHUNKS) == {0, 1}
  {
    assert TWO_CHUNKS[..1] == [[0]];
    assert TWO_CHUNKS[..1][..0] == [];
    assert TWO_CHUNKS[0][0] == 0 && TWO_CHUNKS[1][0] == 1;
  }

  lemma OneRead(files: Files, id: FileId)
    requires id in files
    ensures ChunkRows(files, [id]) == files[id].rows
  {
    assert [id][..0] == [];
    assert [] + files[id].rows == files[id].rows;
  }

  lemma TwoChunks(files: Files)
    requires files.Keys == {0, 1}
    ensures CompactFiles(files, TWO_CHUNKS, 1, 2, 2) == map[2 := Sst(1, Dedup(files[0].rows, 2)), 3 := Sst(1, Dedup(files[1].rows, 2))]
  {
    hide Dedup, Outputs, Inputs, ChunkRows;
    FlattenTwo();
    OneRead(files, 0);
    OneRead(files, 1);
    OutputsMembers(files, TWO_CHUNKS, 1, 2, 2);
    var outputs := Outputs(files, TWO_CHUNKS, 1, 2, 2);
    assert 2 + 0 in outputs && 2 + 1 in outputs;
    assert files - {0, 1} == map[];
  }

  lemma SplitEnabled(n: Node)
    requires 2 in n.w.watermarks && n.w.st.nextFileId == 2
    requires n.w.st.files.Keys == {0, 1} && n.w.st.files[0].level == 0 && n.w.st.files[1].level == 0
    ensures Nodes.Enabled(n, CompactLevels(0, 1, TWO_CHUNKS, 2, [PLAIN, PLAIN]))
  {
    hide Flatten, OutputRows;
    FlattenTwo();
    assert forall i :: 0 <= i < |TWO_CHUNKS| ==> TWO_CHUNKS[i] == [i];
    assert InputsOk(n.w.st.files, TWO_CHUNKS, 0, 1);
  }

  /** Two files of level 1 with one batch each: the lookup comes first to the one that holds only `k`, the older. */
  lemma TwoOutputs(files: Files, indexed: set<FileId>, rows1: seq<Row>, rows2: seq<Row>, a: Key, x: Value, k: Key, v1: Value, v2: Value)
    requires Less(a, k) && HoldsBatch(rows1, [Put(k, v1)], 1) && HoldsBatch(rows2, [Put(a, x), Put(k, v2)], 2)
    requires files == map[2 := Sst(1, Dedup(rows1, 2)), 3 := Sst(1, Dedup(rows2, 2))]
    ensures !FilesSuffice(files, indexed, k, 2)
  {
    hide Updates, Dedup, HoldsBatch, Shows, Less, StrictlySorted, Marks, Offers;
    var b1, b2 := [Put(k, v1)], [Put(a, x), Put(k, v2)];
    LessIrreflexive(k);
    UpdatesOne(k, v1);
    UpdatesTwo(a, x, k, v2);
    MergedBatch(rows1, b1, 1, 2);
    MergedBatch(rows2, b2, 2, 2);
    BatchSmallest(Dedup(rows1, 2), b1, 1, k);
    BatchSmallest(Dedup(rows2, 2), b2, 2, a);
    assert Earlier(files, 3, 2);
    LessAsymmetric(a, k);
    ShownMarks(files[2].rows, 2 in indexed, k, 2, 1);
    assert LeveledMark(files, indexed, 2, k, 2);
    assert !Leads(files, indexed, 3, k, 2);
    forall b, u | Given(files, indexed, b, k, 2, u)
      ensures u.beginTs == 1
    {
      OfferIsRow(files[b].rows, b in indexed, k, 2, u);
    }
    assert ShownBy(files, 3, k, 2, 2);
  }

  lemma ShownMarks(rows: seq<Row>, byIndex: bool, k: Key, s: u64, t: u64)
    requires StrictlySorted(rows) && Shows(rows, k, s, t)
    ensures Marks(rows, byIndex, k, s)
  {
    hide StrictlySorted, KI.Search;
    KI.FileKeysSorted(rows);
    KI.SearchFinds(rows, k, 0, |rows|);
  }

  lemma BatchSmallest(rows: seq<Row>, batch: Batch, ts: u64, a: Key)
    requires StrictlySorted(rows) && HoldsBatch(rows, batch, ts)
    requires a in Updates(batch) && forall k :: k in Updates(batch) ==> LessEq(a, k)
    ensures MinKey(rows) == a
  {
    hide StrictlySorted, Updates, Less;
    SmallestOf(rows, a);
  }
}
