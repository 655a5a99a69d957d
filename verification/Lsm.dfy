/**
 The storage engine as a refinement of the committed history.

 A `Store` is what the engine keeps: memtable, files, counters, pins and the write-ahead log. A
 `World` adds what the engine does not keep: the history of every committed version, the sequence
 of committed batches, how many of them the files hold, the live read guards, the pins that protect
 nothing, and the watermarks handed out so far. Every step keeps
 an invariant from which reads at any live snapshot are exactly reads of the history.
 */
module Lsm {
  import opened Bytes
  import opened Sets
  import opened Version
  import opened Compaction
  import opened Memtable

  type FileId = nat
  type Batch = seq<Mutation>

  datatype Sst = Sst(level: nat, rows: seq<Row>)
  type Files = map<FileId, Sst>

  datatype Store = Store(
    mem: Entries,
    files: Files,
    nextFileId: FileId,
    commitSeq: u64,
    pins: map<u64, nat>,
    wal: seq<Batch>)

  datatype World = World(
    st: Store,
    hist: Versions,
    flushed: u64,
    floor: u64,
    log: seq<Batch>,
    onDisk: nat,
    guards: multiset<u64>,
    loose: multiset<u64>,
    watermarks: set<u64>)

  // ---- The history ----

  /** The history after one more batch at `ts`. */
  function Stamp(hist: Versions, batch: Batch, ts: u64): Versions {
    hist + map k | k in Updates(batch) :: (k, ts) := Updates(batch)[k]
  }

  /** The last update of `k` in a sequence of committed batches. */
  function LogValue(log: seq<Batch>, k: Key): Option<Option<Value>> {
    if log == [] then None
    else if k in Updates(log[|log| - 1]) then Some(Updates(log[|log| - 1])[k])
    else LogValue(log[..|log| - 1], k)
  }

  /** `o` is the newest value of `k` in the history, if it has one. */
  ghost predicate LatestIs(hist: Versions, k: Key, o: Option<Option<Value>>) {
    if o.None? then forall t: u64 :: (k, t) !in hist
    else exists t: u64 :: (k, t) in hist && hist[(k, t)] == o.value && forall t': u64 :: (k, t') in hist ==> t' <= t
  }

  // ---- Steps of the store ----

  function CommitStore(st: Store, batch: Batch): Store
    requires st.commitSeq < U64_MAX
  {
    st.(mem := Applied(st.mem, batch, st.commitSeq), commitSeq := st.commitSeq + 1, wal := st.wal + [batch])
  }

  /** The memtable becomes a level-0 file; the log is reset when it has grown too long. */
  function FlushStore(st: Store, resetWal: bool): Store {
    var rows := Drained(st.mem);
    if rows == [] then st
    else st.(mem := map[],
             files := st.files[st.nextFileId := Sst(0, rows)],
             nextFileId := st.nextFileId + 1,
             wal := if resetWal then [] else st.wal)
  }

  predicate ChunksOk(files: Files, chunks: seq<seq<FileId>>) {
    forall i, j :: 0 <= i < |chunks| && 0 <= j < |chunks[i]| ==> chunks[i][j] in files
  }

  function Inputs(chunks: seq<seq<FileId>>): set<FileId> {
    set i, j | 0 <= i < |chunks| && 0 <= j < |chunks[i]| :: chunks[i][j]
  }

  function ChunkRows(files: Files, chunk: seq<FileId>): seq<Row>
    requires forall j :: 0 <= j < |chunk| ==> chunk[j] in files
  {
    if chunk == [] then [] else ChunkRows(files, chunk[..|chunk| - 1]) + files[chunk[|chunk| - 1]].rows
  }

  /** The merged output of every chunk, under consecutive new ids. */
  function Outputs(files: Files, chunks: seq<seq<FileId>>, level: nat, w: u64, nextId: FileId): Files
    requires ChunksOk(files, chunks)
  {
    if chunks == [] then map[]
    else
      var n := |chunks| - 1;
      Outputs(files, chunks[..n], level, w, nextId)[nextId + n := Sst(level, Dedup(ChunkRows(files, chunks[n]), w))]
  }

  /** Outputs are added and all inputs retired. */
  function CompactFiles(files: Files, chunks: seq<seq<FileId>>, level: nat, w: u64, nextId: FileId): Files
    requires ChunksOk(files, chunks)
  {
    (files - Inputs(chunks)) + Outputs(files, chunks, level, w, nextId)
  }

  function CompactStore(st: Store, chunks: seq<seq<FileId>>, level: nat, w: u64): Store
    requires ChunksOk(st.files, chunks)
  {
    st.(files := CompactFiles(st.files, chunks, level, w, st.nextFileId), nextFileId := st.nextFileId + |chunks|)
  }

  function Pin(pins: map<u64, nat>, ts: u64): map<u64, nat> {
    pins[ts := (if ts in pins then pins[ts] else 0) + 1]
  }

  function Unpin(pins: map<u64, nat>, ts: u64): map<u64, nat> {
    if ts !in pins then pins
    else if pins[ts] <= 1 then pins - {ts}
    else pins[ts := pins[ts] - 1]
  }

  /** Newest committed timestamp. */
  function SnapshotTs(st: Store): u64 {
    if st.commitSeq == 0 then 0 else st.commitSeq - 1
  }

  /** The smaller of the oldest pin and the newest committed timestamp. */
  ghost predicate IsWatermark(st: Store, w: u64) {
    && w <= SnapshotTs(st)
    && (forall ts :: ts in st.pins ==> w <= ts)
    && (w == SnapshotTs(st) || w in st.pins)
  }

  /** No pinned snapshot, and not the newest committed one, lies below `x`. */
  ghost predicate BelowReaders(st: Store, x: u64) {
    x <= SnapshotTs(st) && forall ts :: ts in st.pins ==> x <= ts
  }

  /** The watermark is the highest timestamp below which no reader can be. */
  lemma WatermarkGreatest(st: Store, w: u64)
    ensures IsWatermark(st, w) <==> forall x: u64 :: BelowReaders(st, x) <==> x <= w
  {
    if forall x: u64 :: BelowReaders(st, x) <==> x <= w {
      assert BelowReaders(st, w);
      if w != SnapshotTs(st) {
        assert !BelowReaders(st, w + 1);
      }
    }
  }

  /** Highest commit timestamp found in the files. */
  ghost predicate IsSstMax(files: Files, m: u64) {
    && (forall id, r :: id in files && r in files[id].rows ==> r.version.beginTs <= m)
    && (m == 0 || exists id, r :: id in files && r in files[id].rows && r.version.beginTs == m)
  }

  function Replay(mem: Entries, wal: seq<Batch>, base: nat): Entries
    requires base + |wal| <= U64_MAX
  {
    if wal == [] then mem else Applied(Replay(mem, wal[..|wal| - 1], base), wal[|wal| - 1], base + |wal|)
  }

  /** Reopening: what is left of the log is replayed into an empty memtable, stamped from the files' maximum on. */
  function ReopenStore(st: Store, sstMax: u64, left: nat): Store
    requires left <= |st.wal| && sstMax + left < U64_MAX
  {
    st.(mem := Replay(map[], st.wal[..left], sstMax), commitSeq := sstMax + 1 + left, pins := map[], wal := st.wal[..left])
  }

  // ---- Steps of the world ----

  datatype Action =
    | Commit(batch: Batch)
    | Flush(resetWal: bool)
    | CollectMem(watermark: u64)
    | Compact(chunks: seq<seq<FileId>>, level: nat, watermark: u64)
    | BeginRead
    | PinSnapshot(ts: u64)
    | DropGuard(ts: u64)
    | ComputeWatermark(watermark: u64)
    | DropLoose(ts: u64)
    | CrashAndReopen(sstMax: u64, left: nat)

  /** Collection and compaction may use any watermark handed out earlier, however old it is by now. */
  ghost predicate Enabled(w: World, a: Action) {
    match a
    case Commit(batch) => batch != [] && w.st.commitSeq < U64_MAX
    case Flush(_) => true
    case CollectMem(mark) => mark in w.watermarks
    case Compact(chunks, _, mark) => mark in w.watermarks && ChunksOk(w.st.files, chunks)
    case BeginRead => true
    case PinSnapshot(_) => true
    case DropGuard(ts) => ts in w.guards
    case ComputeWatermark(mark) => IsWatermark(w.st, mark)
    case DropLoose(ts) => ts in w.loose
    case CrashAndReopen(sstMax, left) => IsSstMax(w.st.files, sstMax) && left <= |w.st.wal| && sstMax + left < U64_MAX
  }

  function Max(a: u64, b: u64): u64 {
    if a >= b then a else b
  }

  function Min(a: u64, b: u64): u64 {
    if a <= b then a else b
  }

  function StampAll(hist: Versions, wal: seq<Batch>, base: nat): Versions
    requires base + |wal| <= U64_MAX
  {
    if wal == [] then hist else Stamp(StampAll(hist, wal[..|wal| - 1], base), wal[|wal| - 1], base + |wal|)
  }

  function Upto(hist: Versions, ts: u64): Versions {
    map id | id in hist && id.1 <= ts :: hist[id]
  }

  /** Pinning `ts` now protects it: it is a current or past snapshot that no watermark has passed. */
  ghost predicate Safe(w: World, ts: u64) {
    w.floor <= ts < w.st.commitSeq && forall m :: m in w.watermarks ==> m <= ts
  }

  /** The batches that a store holds, in the order in which it applied them, once a crash has left the
      first `left` batches of the write-ahead log. Batches lost from the log are gone if the files do not
      hold them either; a log that lost batches the files do hold is replayed on top of them. */
  function Replayed(log: seq<Batch>, wal: seq<Batch>, onDisk: nat, left: nat): seq<Batch> {
    if left <= |wal| && |wal| - left <= |log| && onDisk <= |log| - (|wal| - left) then log[..|log| - (|wal| - left)]
    else if onDisk <= |log| && left <= |wal| then log[..onDisk] + wal[..left]
    else log
  }

  ghost function Step(w: World, a: Action): World
    requires Enabled(w, a)
  {
    match a
    case Commit(batch) =>
      w.(st := CommitStore(w.st, batch), hist := Stamp(w.hist, batch, w.st.commitSeq), log := w.log + [batch])
    case Flush(resetWal) =>
      w.(st := FlushStore(w.st, resetWal),
         flushed := if Drained(w.st.mem) == [] then w.flushed else SnapshotTs(w.st),
         onDisk := if Drained(w.st.mem) == [] then w.onDisk else |w.log|)
    case CollectMem(mark) =>
      w.(st := w.st.(mem := CollectedAll(w.st.mem, mark)), floor := Max(w.floor, mark))
    case Compact(chunks, level, mark) =>
      w.(st := CompactStore(w.st, chunks, level, mark), floor := Max(w.floor, mark))
    case BeginRead =>
      var ts := SnapshotTs(w.st);
      w.(st := w.st.(pins := Pin(w.st.pins, ts)), guards := w.guards + multiset{ts})
    case PinSnapshot(ts) =>
      var w' := w.(st := w.st.(pins := Pin(w.st.pins, ts)));
      if Safe(w, ts) then w'.(guards := w.guards + multiset{ts}) else w'.(loose := w.loose + multiset{ts})
    case DropGuard(ts) => w.(st := w.st.(pins := Unpin(w.st.pins, ts)), guards := w.guards - multiset{ts})
    case ComputeWatermark(mark) => w.(watermarks := w.watermarks + {mark})
    case DropLoose(ts) => w.(st := w.st.(pins := Unpin(w.st.pins, ts)), loose := w.loose - multiset{ts})
    case CrashAndReopen(sstMax, left) =>
      w.(st := ReopenStore(w.st, sstMax, left), hist := StampAll(Upto(w.hist, sstMax), w.st.wal[..left], sstMax),
         log := Replayed(w.log, w.st.wal, w.onDisk, left), floor := Min(w.floor, w.flushed),
         guards := multiset{}, loose := multiset{}, watermarks := {})
  }

  // ---- The invariant ----

  ghost predicate HistOk(hist: Versions, commitSeq: u64) {
    && 1 <= commitSeq
    && (forall k, t: u64 :: (k, t) in hist ==> 1 <= t < commitSeq)
    && (forall t: u64 :: 1 <= t < commitSeq ==> Dated(hist, t))
  }

  /** Some key was written at `t`. */
  ghost predicate Dated(hist: Versions, t: u64) {
    exists k :: (k, t) in hist
  }

  /** The memtable holds what was committed since the last flush, except what a newer version at or
      below the floor hides. */
  ghost predicate MemOk(mem: Entries, hist: Versions, flushed: u64, floor: u64) {
    && ChainsOk(mem)
    && (forall k, t: u64 :: t in MemContents(mem, k) ==>
          t > flushed && (k, t) in hist && hist[(k, t)] == MemContents(mem, k)[t])
    && (forall k, t: u64 :: (k, t) in hist && t > flushed ==> t in MemContents(mem, k) || Superseded(hist, k, t, floor))
  }

  /** A stored row is a committed version; its end is open, possibly stale, or a later version. */
  ghost predicate RowOk(r: Row, hist: Versions, flushed: u64) {
    var (k, v) := (r.key, r.version);
    && (k, v.beginTs) in hist && hist[(k, v.beginTs)] == v.value && v.beginTs <= flushed
    && (v.endTs == OPEN_ENDED_TS || (v.beginTs < v.endTs <= flushed && (k, v.endTs) in hist))
  }

  /** Rows of one file: sorted, and older versions of a key end before newer ones begin. */
  ghost predicate FileOk(rows: seq<Row>, hist: Versions, flushed: u64) {
    && (forall r :: r in rows ==> RowOk(r, hist, flushed))
    && StrictlySorted(rows)
    && (forall r, r' :: r in rows && r' in rows && r.key == r'.key && r.version.beginTs < r'.version.beginTs ==>
          r.version.endTs <= r'.version.beginTs)
  }

  ghost predicate Holds(files: Files, k: Key, t: u64) {
    exists id, r :: id in files && r in files[id].rows && r.key == k && r.version.beginTs == t
  }

  ghost predicate FilesOk(files: Files, hist: Versions, flushed: u64, floor: u64) {
    && (forall id :: id in files ==> FileOk(files[id].rows, hist, flushed))
    && (forall k, t: u64 :: (k, t) in hist && t <= flushed ==>
          Holds(files, k, t) || Superseded(hist, k, t, Min(floor, flushed)))
  }

  ghost predicate PinsOk(pins: map<u64, nat>, guards: multiset<u64>) {
    && (forall ts: u64 :: guards[ts] == if ts in pins then pins[ts] else 0)
    && (forall ts :: ts in pins ==> pins[ts] > 0)
  }

  /** Nothing handed out or used as a watermark exceeds a live snapshot or the current one. */
  ghost predicate MarksOk(guards: multiset<u64>, watermarks: set<u64>, floor: u64, commitSeq: u64) {
    && floor < commitSeq
    && (forall m :: m in watermarks ==> m < commitSeq)
    && (forall g :: g in guards ==> floor <= g < commitSeq)
    && (forall m, g :: m in watermarks && g in guards ==> m <= g)
  }

  /** The last `n` batches of the log, which are in the write-ahead log, are the history above `flushed`. */
  ghost predicate LogOk(hist: Versions, log: seq<Batch>, wal: seq<Batch>, flushed: u64, commitSeq: u64) {
    && flushed < commitSeq
    && (forall i :: 0 <= i < |log| ==> log[i] != [])
    && commitSeq - 1 - flushed <= |wal| <= |log|
    && wal == log[|log| - |wal|..]
    && StampedBy(hist, wal, flushed, commitSeq)
    && (forall k :: LatestIs(hist, k, LogValue(log, k)))
  }

  /** The files hold the first `onDisk` batches of the log, which include all but those above `flushed`. */
  ghost predicate DiskOk(hist: Versions, log: seq<Batch>, onDisk: nat, flushed: u64, commitSeq: u64) {
    && |log| <= onDisk + (commitSeq - 1 - flushed) && onDisk <= |log|
    && (forall k :: LatestIs(Upto(hist, flushed), k, LogValue(log[..onDisk], k)))
  }

  /** Timestamps above `flushed` are the last batches of the write-ahead log, in order. */
  ghost predicate StampedBy(hist: Versions, wal: seq<Batch>, flushed: u64, commitSeq: u64)
    requires commitSeq - 1 - flushed <= |wal|
  {
    forall k, t: u64 :: flushed < t < commitSeq ==> ((k, t) in hist <==> k in Updates(wal[|wal| - (commitSeq - t)]))
  }

  ghost predicate Inv(w: World) {
    && HistOk(w.hist, w.st.commitSeq)
    && MemOk(w.st.mem, w.hist, w.flushed, w.floor)
    && FilesOk(w.st.files, w.hist, w.flushed, w.floor)
    && (forall id :: id in w.st.files ==> id < w.st.nextFileId)
    && PinsOk(w.st.pins, w.guards + w.loose)
    && MarksOk(w.guards, w.watermarks, w.floor, w.st.commitSeq)
    && LogOk(w.hist, w.log, w.st.wal, w.flushed, w.st.commitSeq)
    && DiskOk(w.hist, w.log, w.onDisk, w.flushed, w.st.commitSeq)
  }

  // ---- Commits ----

  lemma StampMembers(hist: Versions, batch: Batch, ts: u64)
    ensures hist.Keys <= Stamp(hist, batch, ts).Keys
    ensures forall k, t: u64 :: (k, t) in Stamp(hist, batch, ts) <==> (k, t) in hist || (t == ts && k in Updates(batch))
    ensures forall k, t: u64 :: (k, t) in Stamp(hist, batch, ts) ==>
              Stamp(hist, batch, ts)[(k, t)] == if t == ts && k in Updates(batch) then Updates(batch)[k] else hist[(k, t)]
  {
  }

  lemma SupersededGrows(hist: Versions, hist': Versions, w: u64, w': u64)
    requires hist.Keys <= hist'.Keys && w <= w'
    ensures forall k, t: u64 :: Superseded(hist, k, t, w) ==> Superseded(hist', k, t, w')
  {
    forall k, t: u64 | Superseded(hist, k, t, w) ensures Superseded(hist', k, t, w') {
      var t': u64 :| (k, t') in hist && t < t' <= w;
      assert (k, t') in hist';
    }
  }

  lemma UpdatesOfLast(batch: Batch)
    requires batch != []
    ensures batch[|batch| - 1].key in Updates(batch)
  {
  }

  lemma CommitHist(hist: Versions, ts: u64, batch: Batch)
    requires HistOk(hist, ts) && ts < U64_MAX && batch != []
    ensures HistOk(Stamp(hist, batch, ts), ts + 1)
  {
    hide Stamp, Updates;
    var hist' := Stamp(hist, batch, ts);
    StampMembers(hist, batch, ts);
    UpdatesOfLast(batch);
    forall t: u64 | 1 <= t < ts + 1 ensures Dated(hist', t) {
      if t < ts {
        assert Dated(hist, t);
        var k :| (k, t) in hist;
        assert (k, t) in hist';
      } else {
        assert (batch[|batch| - 1].key, t) in hist';
      }
    }
  }

  lemma CommitMem(mem: Entries, hist: Versions, flushed: u64, floor: u64, ts: u64, batch: Batch)
    requires MemOk(mem, hist, flushed, floor) && HistOk(hist, ts) && flushed < ts
    ensures MemOk(Applied(mem, batch, ts), Stamp(hist, batch, ts), flushed, floor)
  {
    hide Stamp, Updates, Superseded, Applied, MemContents;
    var hist' := Stamp(hist, batch, ts);
    StampMembers(hist, batch, ts);
    AppliedContents(mem, batch, ts);
    SupersededGrows(hist, hist', floor, floor);
  }

  lemma CommitFiles(files: Files, hist: Versions, flushed: u64, floor: u64, ts: u64, batch: Batch)
    requires FilesOk(files, hist, flushed, floor) && HistOk(hist, ts) && flushed < ts
    ensures FilesOk(files, Stamp(hist, batch, ts), flushed, floor)
  {
    hide Stamp, Updates, Superseded, StrictlySorted;
    var hist' := Stamp(hist, batch, ts);
    StampMembers(hist, batch, ts);
    SupersededGrows(hist, hist', Min(floor, flushed), Min(floor, flushed));
  }

  lemma CommitLatest(hist: Versions, log: seq<Batch>, ts: u64, batch: Batch)
    requires HistOk(hist, ts) && forall k :: LatestIs(hist, k, LogValue(log, k))
    ensures forall k :: LatestIs(Stamp(hist, batch, ts), k, LogValue(log + [batch], k))
  {
    hide Stamp, Updates;
    var hist' := Stamp(hist, batch, ts);
    StampMembers(hist, batch, ts);
    assert (log + [batch])[..|log|] == log;
    forall k ensures LatestIs(hist', k, LogValue(log + [batch], k)) {
      if k in Updates(batch) {
        assert (k, ts) in hist';
      } else {
        assert LatestIs(hist, k, LogValue(log, k));
        if LogValue(log, k).Some? {
          var t: u64 :| (k, t) in hist && hist[(k, t)] == LogValue(log, k).value && forall t': u64 :: (k, t') in hist ==> t' <= t;
          assert (k, t) in hist';
        }
      }
    }
  }

  lemma CommitInv(w: World, batch: Batch)
    requires Inv(w) && Enabled(w, Commit(batch))
    ensures Inv(Step(w, Commit(batch)))
  {
    hide HistOk, MemOk, FilesOk, PinsOk, DiskOk, Stamp, Applied, LatestIs, LogValue, Updates;
    var ts := w.st.commitSeq;
    CommitHist(w.hist, ts, batch);
    CommitMem(w.st.mem, w.hist, w.flushed, w.floor, ts, batch);
    CommitFiles(w.st.files, w.hist, w.flushed, w.floor, ts, batch);
    CommitLatest(w.hist, w.log, ts, batch);
    CommitLog(w.hist, w.log, w.st.wal, w.flushed, ts, batch);
    CommitDisk(w.hist, w.log, w.onDisk, w.flushed, ts, batch);
  }

  lemma CommitDisk(hist: Versions, log: seq<Batch>, onDisk: nat, flushed: u64, ts: u64, batch: Batch)
    requires DiskOk(hist, log, onDisk, flushed, ts) && flushed < ts < U64_MAX
    ensures DiskOk(Stamp(hist, batch, ts), log + [batch], onDisk, flushed, ts + 1)
  {
    hide Stamp, LogValue, LatestIs, Upto, Updates;
    StampAboveUpto(hist, batch, ts, flushed);
    assert (log + [batch])[..onDisk] == log[..onDisk];
  }

  lemma StampAboveUpto(hist: Versions, batch: Batch, ts: u64, flushed: u64)
    requires flushed < ts
    ensures Upto(Stamp(hist, batch, ts), flushed) == Upto(hist, flushed)
  {
    hide Updates;
  }

  lemma CommitLog(hist: Versions, log: seq<Batch>, wal: seq<Batch>, flushed: u64, ts: u64, batch: Batch)
    requires LogOk(hist, log, wal, flushed, ts) && HistOk(hist, ts) && ts < U64_MAX && batch != []
    requires forall k :: LatestIs(Stamp(hist, batch, ts), k, LogValue(log + [batch], k))
    ensures LogOk(Stamp(hist, batch, ts), log + [batch], wal + [batch], flushed, ts + 1)
  {
    hide Stamp, Updates, LatestIs, LogValue;
    StampMembers(hist, batch, ts);
    var hist', wal' := Stamp(hist, batch, ts), wal + [batch];
    forall k, t: u64 | flushed < t < ts + 1
      ensures (k, t) in hist' <==> k in Updates(wal'[|wal'| - (ts + 1 - t)])
    {
      if t < ts {
        assert wal'[|wal'| - (ts + 1 - t)] == wal[|wal| - (ts - t)];
      }
    }
  }

  // ---- Collection in the memtable ----

  lemma CollectMemOk(mem: Entries, hist: Versions, flushed: u64, floor: u64, mark: u64)
    requires MemOk(mem, hist, flushed, floor)
    ensures MemOk(CollectedAll(mem, mark), hist, flushed, Max(floor, mark))
  {
    hide MemContents, CollectedAll, Superseded;
    var mem' := CollectedAll(mem, mark);
    CollectedContents(mem, mark);
    SupersededGrows(hist, hist, floor, Max(floor, mark));
    forall k, t: u64 | (k, t) in hist && t > flushed
      ensures t in MemContents(mem', k) || Superseded(hist, k, t, Max(floor, mark))
    {
      if t in MemContents(mem, k) && t !in MemContents(mem', k) {
        HiddenIsSuperseded(hist, k, MemContents(mem', k), t, mark);
        SupersededGrows(hist, hist, mark, Max(floor, mark));
      }
    }
  }

  lemma HiddenIsSuperseded(hist: Versions, k: Key, m: map<u64, Option<Value>>, t: u64, mark: u64)
    requires Hidden(m, t, mark) && forall t': u64 :: t' in m ==> (k, t') in hist
    ensures Superseded(hist, k, t, mark)
  {
    var t' :| t' in m && t < t' <= mark;
    assert (k, t') in hist;
  }

  lemma FilesOkFloor(files: Files, hist: Versions, flushed: u64, floor: u64, floor': u64)
    requires FilesOk(files, hist, flushed, floor) && floor <= floor'
    ensures FilesOk(files, hist, flushed, floor')
  {
    hide Superseded, FileOk;
    SupersededGrows(hist, hist, Min(floor, flushed), Min(floor', flushed));
  }

  lemma MemOkFloor(mem: Entries, hist: Versions, flushed: u64, floor: u64, floor': u64)
    requires MemOk(mem, hist, flushed, floor) && floor <= floor'
    ensures MemOk(mem, hist, flushed, floor')
  {
    hide Superseded, MemContents;
    SupersededGrows(hist, hist, floor, floor');
  }

  lemma CollectInv(w: World, mark: u64)
    requires Inv(w) && Enabled(w, CollectMem(mark))
    ensures Inv(Step(w, CollectMem(mark)))
  {
    hide HistOk, MemOk, FilesOk, PinsOk, LogOk, DiskOk, CollectedAll;
    CollectMemOk(w.st.mem, w.hist, w.flushed, w.floor, mark);
    FilesOkFloor(w.st.files, w.hist, w.flushed, w.floor, Max(w.floor, mark));
  }

  // ---- Flush ----

  /** Drained chains make a well-formed file. */
  lemma DrainedFileOk(mem: Entries, hist: Versions, flushed: u64, floor: u64, commitSeq: u64)
    requires MemOk(mem, hist, flushed, floor) && HistOk(hist, commitSeq)
    ensures FileOk(Drained(mem), hist, commitSeq - 1)
  {
    hide Drained, MemContents, Superseded, Before;
    var rows := Drained(mem);
    DrainedMembers(mem);
    DrainedSorted(mem);
    forall r | r in rows ensures RowOk(r, hist, commitSeq - 1) {
      ChainRowOk(mem, hist, flushed, floor, commitSeq, r);
    }
    forall r, r' | r in rows && r' in rows && r.key == r'.key && r.version.beginTs < r'.version.beginTs
      ensures r.version.endTs <= r'.version.beginTs
    {
      ChainDisjoint(mem[r.key], r.version, r'.version);
    }
  }

  lemma ChainRowOk(mem: Entries, hist: Versions, flushed: u64, floor: u64, commitSeq: u64, r: Row)
    requires MemOk(mem, hist, flushed, floor) && HistOk(hist, commitSeq)
    requires r.key in mem && r.version in mem[r.key]
    ensures RowOk(r, hist, commitSeq - 1)
  {
    hide Superseded;
    var vs := mem[r.key];
    var i :| 0 <= i < |vs| && vs[i] == r.version;
    assert ChainOf(mem, r.key) == vs;
    ChainValue(vs, i);
    ChainShape(vs, i);
    if i > 0 {
      ChainValue(vs, i - 1);
    }
  }

  lemma {:induction false} ChainValue(vs: seq<VersionedValue>, i: nat)
    requires Chain(vs) && i < |vs|
    ensures vs[i].beginTs in Contents(vs) && Contents(vs)[vs[i].beginTs] == vs[i].value
  {
    if i > 0 {
      BelowValue(vs[1..], vs[0].beginTs, i - 1);
    }
  }

  lemma {:induction false} BelowValue(vs: seq<VersionedValue>, end: u64, i: nat)
    requires Below(vs, end) && i < |vs|
    ensures vs[i].beginTs < end
    ensures vs[i].beginTs in Contents(vs) && Contents(vs)[vs[i].beginTs] == vs[i].value
  {
    if i > 0 {
      BelowValue(vs[1..], vs[0].beginTs, i - 1);
    }
  }

  lemma ChainDisjoint(vs: seq<VersionedValue>, v: VersionedValue, v': VersionedValue)
    requires Chain(vs) && v in vs && v' in vs && v.beginTs < v'.beginTs
    ensures v.endTs <= v'.beginTs
  {
    hide Chain;
    var i :| 0 <= i < |vs| && vs[i] == v';
    var j :| 0 <= j < |vs| && vs[j] == v;
    if j < i {
      Descending(vs, j, i);
    } else {
      Descending(vs, i, j);
    }
  }

  lemma FileOkGrows(rows: seq<Row>, hist: Versions, flushed: u64, flushed': u64)
    requires FileOk(rows, hist, flushed) && flushed <= flushed'
    ensures FileOk(rows, hist, flushed')
  {
    hide StrictlySorted;
  }

  lemma FlushFilesOk(mem: Entries, files: Files, id: FileId, hist: Versions, flushed: u64, floor: u64, commitSeq: u64)
    requires MemOk(mem, hist, flushed, floor) && HistOk(hist, commitSeq) && FilesOk(files, hist, flushed, floor)
    requires id !in files && flushed < commitSeq
    ensures FilesOk(files[id := Sst(0, Drained(mem))], hist, commitSeq - 1, floor)
  {
    hide Superseded, Drained, FileOk, MemContents;
    var files', top := files[id := Sst(0, Drained(mem))], commitSeq - 1;
    DrainedFileOk(mem, hist, flushed, floor, commitSeq);
    forall x | x in files' ensures FileOk(files'[x].rows, hist, top) {
      if x != id {
        FileOkGrows(files[x].rows, hist, flushed, top);
      }
    }
    SupersededGrows(hist, hist, Min(floor, flushed), Min(floor, top));
    forall k, t: u64 | (k, t) in hist && t <= top
      ensures Holds(files', k, t) || Superseded(hist, k, t, Min(floor, top))
    {
      if t <= flushed {
        if Holds(files, k, t) {
          HoldsMore(files, files', k, t);
        }
      } else if t in MemContents(mem, k) {
        MemRow(mem, k, t);
        var r :| r in Drained(mem) && r.key == k && r.version.beginTs == t;
        assert id in files' && r in files'[id].rows;
      } else {
        SupersededCapped(hist, k, t, floor, commitSeq);
      }
    }
  }

  lemma SupersededCapped(hist: Versions, k: Key, t: u64, floor: u64, commitSeq: u64)
    requires Superseded(hist, k, t, floor) && HistOk(hist, commitSeq)
    ensures Superseded(hist, k, t, Min(floor, commitSeq - 1))
  {
  }

  lemma HoldsMore(files: Files, files': Files, k: Key, t: u64)
    requires Holds(files, k, t)
    requires forall id :: id in files ==> id in files' && files'[id] == files[id]
    ensures Holds(files', k, t)
  {
    var id, r :| id in files && r in files[id].rows && r.key == k && r.version.beginTs == t;
    assert id in files' && r in files'[id].rows;
  }

  lemma MemRow(mem: Entries, k: Key, t: u64)
    requires t in MemContents(mem, k)
    ensures exists r :: r in Drained(mem) && r.key == k && r.version.beginTs == t
  {
    hide Drained;
    ContentsMember(ChainOf(mem, k));
    var vs := ChainOf(mem, k);
    var i :| 0 <= i < |vs| && vs[i].beginTs == t;
    DrainedMembers(mem);
    assert Row(k, vs[i]) in Drained(mem);
  }

  lemma EmptyMemOk(hist: Versions, commitSeq: u64, floor: u64)
    requires HistOk(hist, commitSeq)
    ensures MemOk(map[], hist, commitSeq - 1, floor)
  {
  }

  lemma FlushInv(w: World, resetWal: bool)
    requires Inv(w) && Enabled(w, Flush(resetWal))
    ensures Inv(Step(w, Flush(resetWal)))
  {
    hide HistOk, MemOk, FilesOk, PinsOk, DiskOk, Drained, LatestIs, LogValue, Updates;
    PositiveSeq(w.hist, w.st.commitSeq);
    if Drained(w.st.mem) != [] {
      FlushDisk(w.hist, w.log, w.st.commitSeq);
      FlushFilesOk(w.st.mem, w.st.files, w.st.nextFileId, w.hist, w.flushed, w.floor, w.st.commitSeq);
      EmptyMemOk(w.hist, w.st.commitSeq, w.floor);
    }
  }

  lemma FlushDisk(hist: Versions, log: seq<Batch>, commitSeq: u64)
    requires HistOk(hist, commitSeq) && forall k :: LatestIs(hist, k, LogValue(log, k))
    ensures DiskOk(hist, log, |log|, commitSeq - 1, commitSeq)
  {
    hide LogValue, LatestIs;
    assert Upto(hist, commitSeq - 1) == hist;
    assert log[..|log|] == log;
  }

  lemma PositiveSeq(hist: Versions, commitSeq: u64)
    requires HistOk(hist, commitSeq)
    ensures commitSeq >= 1
  {
  }

  // ---- Compaction ----

  lemma {:induction false} ChunkMembers(files: Files, chunk: seq<FileId>)
    requires forall j :: 0 <= j < |chunk| ==> chunk[j] in files
    ensures forall r :: r in ChunkRows(files, chunk) <==> exists j :: 0 <= j < |chunk| && r in files[chunk[j]].rows
  {
    if chunk != [] {
      ChunkMembers(files, chunk[..|chunk| - 1]);
    }
  }

  /** What the merge keeps of committed rows are committed rows, with true interval ends. */
  lemma SurvivorRowOk(rows: seq<Row>, hist: Versions, flushed: u64, w: u64, r: Row)
    requires forall x :: x in rows ==> RowOk(x, hist, flushed)
    requires Survives(VersionsOf(rows), w, r)
    ensures RowOk(r, hist, flushed)
  {
    var m := VersionsOf(rows);
    VersionsMember(rows);
    var k, e := r.key, r.version.endTs;
    var x :| x in rows && (x.key, x.version.beginTs) == (k, r.version.beginTs) && x.version.value == m[(k, r.version.beginTs)];
    if (k, e) in m && r.version.beginTs < e {
      var y :| y in rows && (y.key, y.version.beginTs) == (k, e);
    }
  }

  lemma MergedFileOk(rows: seq<Row>, hist: Versions, flushed: u64, w: u64)
    requires forall x :: x in rows ==> RowOk(x, hist, flushed)
    ensures FileOk(Dedup(rows, w), hist, flushed)
  {
    hide Dedup, RowOk, Before, VersionsOf;
    var out := Dedup(rows, w);
    DedupSpec(rows, w);
    forall r | r in out ensures RowOk(r, hist, flushed) {
      SurvivorRowOk(rows, hist, flushed, w, r);
    }
    forall r, r' | r in out && r' in out && r.key == r'.key && r.version.beginTs < r'.version.beginTs
      ensures r.version.endTs <= r'.version.beginTs
    {
      assert Survives(VersionsOf(rows), w, r) && Survives(VersionsOf(rows), w, r');
    }
  }

  /** A version of the input is in the output, or a newer input version at or below the watermark hides it. */
  lemma MergedHolds(rows: seq<Row>, hist: Versions, flushed: u64, w: u64, r: Row)
    requires forall x :: x in rows ==> RowOk(x, hist, flushed)
    requires r in rows
    ensures (exists x :: x in Dedup(rows, w) && x.key == r.key && x.version.beginTs == r.version.beginTs) ||
            Superseded(hist, r.key, r.version.beginTs, Min(w, flushed))
  {
    var m, k, t := VersionsOf(rows), r.key, r.version.beginTs;
    VersionsMember(rows);
    if Superseded(m, k, t, w) {
      var t': u64 :| (k, t') in m && t < t' <= w;
      var y :| y in rows && (y.key, y.version.beginTs) == (k, t');
      assert RowOk(y, hist, flushed);
      assert (k, t') in hist && t < t' <= Min(w, flushed);
    } else {
      var x := SurvivorExists(rows, w, k, t);
    }
  }

  lemma {:induction false} OutputsMembers(files: Files, chunks: seq<seq<FileId>>, level: nat, w: u64, nextId: FileId)
    requires ChunksOk(files, chunks)
    ensures forall id :: id in Outputs(files, chunks, level, w, nextId) <==> nextId <= id < nextId + |chunks|
    ensures forall i :: 0 <= i < |chunks| ==>
              nextId + i in Outputs(files, chunks, level, w, nextId) &&
              Outputs(files, chunks, level, w, nextId)[nextId + i] == Sst(level, Dedup(ChunkRows(files, chunks[i]), w))
  {
    hide Dedup, ChunkRows;
    if chunks != [] {
      var n := |chunks| - 1;
      OutputsMembers(files, chunks[..n], level, w, nextId);
    }
  }

  lemma ChunkRowsOk(files: Files, chunk: seq<FileId>, hist: Versions, flushed: u64)
    requires forall j :: 0 <= j < |chunk| ==> chunk[j] in files
    requires forall id :: id in files ==> FileOk(files[id].rows, hist, flushed)
    ensures forall r :: r in ChunkRows(files, chunk) ==> RowOk(r, hist, flushed)
  {
    hide ChunkRows, StrictlySorted, RowOk;
    ChunkMembers(files, chunk);
  }

  lemma CompactFileOk(files: Files, chunks: seq<seq<FileId>>, level: nat, w: u64, nextId: FileId,
                      hist: Versions, flushed: u64, id: FileId)
    requires ChunksOk(files, chunks) && id in CompactFiles(files, chunks, level, w, nextId)
    requires forall x :: x in files ==> FileOk(files[x].rows, hist, flushed)
    ensures FileOk(CompactFiles(files, chunks, level, w, nextId)[id].rows, hist, flushed)
  {
    hide FileOk, Dedup, ChunkRows, Outputs, Inputs, RowOk;
    OutputsMembers(files, chunks, level, w, nextId);
    if nextId <= id < nextId + |chunks| {
      var i := id - nextId;
      assert nextId + i == id;
      ChunkRowsOk(files, chunks[i], hist, flushed);
      MergedFileOk(ChunkRows(files, chunks[i]), hist, flushed, w);
    }
  }

  lemma CompactHolds(files: Files, chunks: seq<seq<FileId>>, level: nat, w: u64, nextId: FileId,
                     hist: Versions, flushed: u64, k: Key, t: u64)
    requires ChunksOk(files, chunks) && Holds(files, k, t)
    requires forall x :: x in files ==> x < nextId && FileOk(files[x].rows, hist, flushed)
    ensures Holds(CompactFiles(files, chunks, level, w, nextId), k, t) || Superseded(hist, k, t, Min(w, flushed))
  {
    hide FileOk, Dedup, ChunkRows, Outputs, Superseded, RowOk;
    var files' := CompactFiles(files, chunks, level, w, nextId);
    var id, r :| id in files && r in files[id].rows && r.key == k && r.version.beginTs == t;
    OutputsMembers(files, chunks, level, w, nextId);
    if id in Inputs(chunks) {
      var i, j :| 0 <= i < |chunks| && 0 <= j < |chunks[i]| && chunks[i][j] == id;
      var rows := ChunkRows(files, chunks[i]);
      ChunkMembers(files, chunks[i]);
      ChunkRowsOk(files, chunks[i], hist, flushed);
      MergedHolds(rows, hist, flushed, w, r);
      if !Superseded(hist, k, t, Min(w, flushed)) {
        var x :| x in Dedup(rows, w) && x.key == r.key && x.version.beginTs == r.version.beginTs;
        assert nextId + i in files' && x in files'[nextId + i].rows;
      }
    } else {
      assert id in files' && r in files'[id].rows;
    }
  }

  lemma CompactFilesOk(files: Files, chunks: seq<seq<FileId>>, level: nat, w: u64, nextId: FileId,
                       hist: Versions, flushed: u64, floor: u64)
    requires ChunksOk(files, chunks) && FilesOk(files, hist, flushed, floor)
    requires forall x :: x in files ==> x < nextId
    ensures FilesOk(CompactFiles(files, chunks, level, w, nextId), hist, flushed, Max(floor, w))
  {
    hide FileOk, CompactFiles, Superseded, Holds;
    var files', f := CompactFiles(files, chunks, level, w, nextId), Max(floor, w);
    forall id | id in files' ensures FileOk(files'[id].rows, hist, flushed) {
      CompactFileOk(files, chunks, level, w, nextId, hist, flushed, id);
    }
    SupersededGrows(hist, hist, Min(w, flushed), Min(f, flushed));
    SupersededGrows(hist, hist, Min(floor, flushed), Min(f, flushed));
    forall k, t: u64 | (k, t) in hist && t <= flushed
      ensures Holds(files', k, t) || Superseded(hist, k, t, Min(f, flushed))
    {
      if Holds(files, k, t) {
        CompactHolds(files, chunks, level, w, nextId, hist, flushed, k, t);
      }
    }
  }

  lemma CompactInv(w: World, chunks: seq<seq<FileId>>, level: nat, mark: u64)
    requires Inv(w) && Enabled(w, Compact(chunks, level, mark))
    ensures Inv(Step(w, Compact(chunks, level, mark)))
  {
    hide HistOk, MemOk, FilesOk, PinsOk, LogOk, DiskOk, Inputs, Outputs;
    CompactFilesOk(w.st.files, chunks, level, mark, w.st.nextFileId, w.hist, w.flushed, w.floor);
    MemOkFloor(w.st.mem, w.hist, w.flushed, w.floor, Max(w.floor, mark));
    OutputsMembers(w.st.files, chunks, level, mark, w.st.nextFileId);
  }

  // ---- Pins and watermarks ----

  lemma PinOk(pins: map<u64, nat>, guards: multiset<u64>, ts: u64)
    requires PinsOk(pins, guards)
    ensures PinsOk(Pin(pins, ts), guards + multiset{ts})
  {
  }

  lemma UnpinOk(pins: map<u64, nat>, guards: multiset<u64>, ts: u64)
    requires PinsOk(pins, guards) && ts in guards
    ensures PinsOk(Unpin(pins, ts), guards - multiset{ts})
  {
  }

  lemma BeginReadInv(w: World)
    requires Inv(w)
    ensures Inv(Step(w, BeginRead))
  {
    hide HistOk, MemOk, FilesOk, LogOk, DiskOk, PinsOk, Pin;
    PositiveSeq(w.hist, w.st.commitSeq);
    var ts := w.st.commitSeq - 1;
    PinOk(w.st.pins, w.guards + w.loose, ts);
    assert (w.guards + multiset{ts}) + w.loose == (w.guards + w.loose) + multiset{ts};
  }

  lemma PinInv(w: World, ts: u64)
    requires Inv(w)
    ensures Inv(Step(w, PinSnapshot(ts)))
  {
    hide HistOk, MemOk, FilesOk, LogOk, DiskOk, PinsOk, Pin;
    PinOk(w.st.pins, w.guards + w.loose, ts);
    assert (w.guards + multiset{ts}) + w.loose == (w.guards + w.loose) + multiset{ts};
    assert w.guards + (w.loose + multiset{ts}) == (w.guards + w.loose) + multiset{ts};
  }

  lemma DropGuardInv(w: World, ts: u64)
    requires Inv(w) && Enabled(w, DropGuard(ts))
    ensures Inv(Step(w, DropGuard(ts)))
  {
    hide HistOk, MemOk, FilesOk, LogOk, DiskOk, PinsOk, Unpin;
    UnpinOk(w.st.pins, w.guards + w.loose, ts);
    assert (w.guards - multiset{ts}) + w.loose == (w.guards + w.loose) - multiset{ts};
  }

  lemma DropLooseInv(w: World, ts: u64)
    requires Inv(w) && Enabled(w, DropLoose(ts))
    ensures Inv(Step(w, DropLoose(ts)))
  {
    hide HistOk, MemOk, FilesOk, LogOk, DiskOk, PinsOk, Unpin;
    UnpinOk(w.st.pins, w.guards + w.loose, ts);
    assert w.guards + (w.loose - multiset{ts}) == (w.guards + w.loose) - multiset{ts};
  }

  lemma WatermarkInv(w: World, mark: u64)
    requires Inv(w) && Enabled(w, ComputeWatermark(mark))
    ensures Inv(Step(w, ComputeWatermark(mark)))
  {
    hide HistOk, MemOk, FilesOk, LogOk, DiskOk, PinsOk;
    GuardsArePinned(w.st.pins, w.guards + w.loose);
    assert forall g :: g in w.guards ==> g in w.guards + w.loose;
  }

  lemma GuardsArePinned(pins: map<u64, nat>, guards: multiset<u64>)
    requires PinsOk(pins, guards)
    ensures forall g :: g in guards ==> g in pins
  {
  }

  // ---- Crash and recovery ----

  /** The recovered commit counter restarts exactly where the flushed history ends. */
  lemma SstMaxIsFlushed(files: Files, hist: Versions, commitSeq: u64, flushed: u64, floor: u64, m: u64)
    requires HistOk(hist, commitSeq) && FilesOk(files, hist, flushed, floor) && flushed < commitSeq && IsSstMax(files, m)
    ensures m == flushed
  {
    hide StrictlySorted;
    if flushed > 0 {
      assert Dated(hist, flushed);
      var k :| (k, flushed) in hist;
      assert Holds(files, k, flushed);
    }
    assert m <= flushed;
  }

  lemma UptoMembers(hist: Versions, ts: u64)
    ensures forall k, t: u64 :: (k, t) in Upto(hist, ts) <==> (k, t) in hist && t <= ts
    ensures forall k, t: u64 :: (k, t) in Upto(hist, ts) ==> Upto(hist, ts)[(k, t)] == hist[(k, t)]
  {
  }

  lemma RecoveryHist(hist: Versions, commitSeq: u64, flushed: u64)
    requires HistOk(hist, commitSeq) && flushed < commitSeq
    ensures HistOk(Upto(hist, flushed), flushed + 1)
  {
    hide Upto;
    var h := Upto(hist, flushed);
    UptoMembers(hist, flushed);
    forall t: u64 | 1 <= t < flushed + 1 ensures Dated(h, t) {
      assert Dated(hist, t);
      var k :| (k, t) in hist;
      assert (k, t) in h;
    }
  }

  lemma RecoveryFiles(files: Files, hist: Versions, flushed: u64, floor: u64)
    requires FilesOk(files, hist, flushed, floor)
    ensures FilesOk(files, Upto(hist, flushed), flushed, floor)
  {
    hide Upto, StrictlySorted, Holds;
    var h := Upto(hist, flushed);
    UptoMembers(hist, flushed);
    forall k, t: u64 | (k, t) in h && !Holds(files, k, t) ensures Superseded(h, k, t, Min(floor, flushed)) {
      var t': u64 :| (k, t') in hist && t < t' <= Min(floor, flushed);
      assert (k, t') in h;
    }
  }

  lemma RecoveryMem(hist: Versions, flushed: u64, floor: u64)
    ensures MemOk(map[], Upto(hist, flushed), flushed, floor)
  {
    hide Upto;
    UptoMembers(hist, flushed);
  }

  lemma {:induction false} ReplayParts(files: Files, h: Versions, base: u64, floor: u64, wal: seq<Batch>)
    requires base + |wal| < U64_MAX && forall i :: 0 <= i < |wal| ==> wal[i] != []
    requires HistOk(h, base + 1) && MemOk(map[], h, base, floor) && FilesOk(files, h, base, floor)
    ensures HistOk(StampAll(h, wal, base), base + 1 + |wal|)
    ensures MemOk(Replay(map[], wal, base), StampAll(h, wal, base), base, floor)
    ensures FilesOk(files, StampAll(h, wal, base), base, floor)
  {
    hide HistOk, MemOk, FilesOk, Stamp, Applied;
    if wal != [] {
      var front, batch := wal[..|wal| - 1], wal[|wal| - 1];
      ReplayParts(files, h, base, floor, front);
      var hist, mem, ts := StampAll(h, front, base), Replay(map[], front, base), base + |wal|;
      CommitHist(hist, ts, batch);
      CommitMem(mem, hist, base, floor, ts, batch);
      CommitFiles(files, hist, base, floor, ts, batch);
    }
  }

  lemma {:induction false} StampAllMembers(h: Versions, base: u64, wal: seq<Batch>)
    requires base + |wal| < U64_MAX && HistOk(h, base + 1)
    ensures forall k, t: u64 :: t <= base ==> ((k, t) in StampAll(h, wal, base) <==> (k, t) in h)
    ensures forall k, t: u64 :: (k, t) in StampAll(h, wal, base) ==> t <= base + |wal|
    ensures forall k, t: u64 :: base < t <= base + |wal| ==>
              ((k, t) in StampAll(h, wal, base) <==> k in Updates(wal[t - base - 1]))
  {
    hide Stamp, Updates;
    if wal != [] {
      var front, batch := wal[..|wal| - 1], wal[|wal| - 1];
      StampAllMembers(h, base, front);
      StampMembers(StampAll(h, front, base), batch, base + |wal|);
    }
  }

  /** Keys in the replayed log get their last logged value, all other keys keep what they had. */
  lemma {:induction false} StampAllLatest(h: Versions, base: u64, wal: seq<Batch>, k: Key)
    requires base + |wal| < U64_MAX && HistOk(h, base + 1)
    ensures LogValue(wal, k).Some? ==> LatestIs(StampAll(h, wal, base), k, LogValue(wal, k))
    ensures LogValue(wal, k).None? ==>
              forall t: u64 :: ((k, t) in StampAll(h, wal, base) <==> (k, t) in h) &&
                               ((k, t) in h ==> StampAll(h, wal, base)[(k, t)] == h[(k, t)])
  {
    hide Stamp, Updates;
    if wal != [] {
      var front, batch := wal[..|wal| - 1], wal[|wal| - 1];
      var hist, ts := StampAll(h, front, base), base + |wal|;
      StampAllLatest(h, base, front, k);
      StampAllMembers(h, base, front);
      StampMembers(hist, batch, ts);
      var hist' := Stamp(hist, batch, ts);
      if k in Updates(batch) {
        assert (k, ts) in hist';
      } else if LogValue(front, k).Some? {
        var t: u64 :| (k, t) in hist && hist[(k, t)] == LogValue(front, k).value && forall t': u64 :: (k, t') in hist ==> t' <= t;
        assert (k, t) in hist';
      }
    }
  }

  lemma {:induction false} LogValueConcat(a: seq<Batch>, b: seq<Batch>, k: Key)
    ensures LogValue(a + b, k) == if LogValue(b, k).Some? then LogValue(b, k) else LogValue(a, k)
  {
    hide Updates;
    if b == [] {
      assert a + b == a;
    } else {
      assert (a + b)[..|a + b| - 1] == a + b[..|b| - 1];
      LogValueConcat(a, b[..|b| - 1], k);
    }
  }

  lemma {:induction false} LogValueAbsent(log: seq<Batch>, k: Key)
    requires LogValue(log, k).None?
    ensures forall i :: 0 <= i < |log| ==> k !in Updates(log[i])
  {
    hide Updates;
    if log != [] {
      LogValueAbsent(log[..|log| - 1], k);
    }
  }

  /** What is left of the log is a suffix of the batches the store holds after the crash. */
  lemma ReplayedSuffix(log: seq<Batch>, wal: seq<Batch>, onDisk: nat, left: nat)
    requires |wal| <= |log| && wal == log[|log| - |wal|..] && onDisk <= |log| && left <= |wal|
    ensures var log' := Replayed(log, wal, onDisk, left);
            && left <= |log'| && wal[..left] == log'[|log'| - left..]
            && onDisk <= |log'| && log'[..onDisk] == log[..onDisk]
  {
    var log' := Replayed(log, wal, onDisk, left);
    if onDisk > |log| - (|wal| - left) {
      assert log'[|log'| - left..] == wal[..left];
    }
  }

  /** Beyond what the files hold there are only batches that are left in the log. */
  lemma BeyondDisk(log: seq<Batch>, wal: seq<Batch>, onDisk: nat, left: nat)
    requires |wal| <= |log| && wal == log[|log| - |wal|..] && |log| - |wal| <= onDisk <= |log| && left <= |wal|
    ensures var log' := Replayed(log, wal, onDisk, left);
            onDisk <= |log'| && forall i :: onDisk <= i < |log'| ==> log'[i] in wal[..left]
  {
    var log' := Replayed(log, wal, onDisk, left);
    ReplayedSuffix(log, wal, onDisk, left);
    forall i | onDisk <= i < |log'|
      ensures log'[i] in wal[..left]
    {
      assert log'[i] == log'[|log'| - left..][i - (|log'| - left)];
    }
  }

  /** Keys of the log that is left get their value there, all other keys what the files hold. */
  lemma LogValueReplayed(log: seq<Batch>, wal: seq<Batch>, onDisk: nat, left: nat, k: Key)
    requires |wal| <= |log| && wal == log[|log| - |wal|..] && |log| - |wal| <= onDisk <= |log| && left <= |wal|
    ensures LogValue(Replayed(log, wal, onDisk, left), k) ==
            if LogValue(wal[..left], k).Some? then LogValue(wal[..left], k) else LogValue(log[..onDisk], k)
  {
    hide LogValue, Updates;
    var log' := Replayed(log, wal, onDisk, left);
    ReplayedSuffix(log, wal, onDisk, left);
    assert log' == log'[..|log'| - left] + wal[..left];
    LogValueConcat(log'[..|log'| - left], wal[..left], k);
    if LogValue(wal[..left], k).None? {
      LogValueAbsent(wal[..left], k);
      BeyondDisk(log, wal, onDisk, left);
      assert log' == log'[..onDisk] + log'[onDisk..];
      LogValueConcat(log'[..onDisk], log'[onDisk..], k);
      forall i | 0 <= i < |log'[onDisk..]|
        ensures k !in Updates(log'[onDisk..][i])
      {
        assert log'[onDisk + i] in wal[..left];
      }
      AbsentValue(log'[onDisk..], k);
    }
  }

  lemma {:induction false} AbsentValue(log: seq<Batch>, k: Key)
    requires forall i :: 0 <= i < |log| ==> k !in Updates(log[i])
    ensures LogValue(log, k).None?
  {
    hide Updates;
    if log != [] {
      AbsentValue(log[..|log| - 1], k);
    }
  }

  /** Re-stamping what is left of the log above the flushed history gives every key its value in the batches
      the store then holds. */
  lemma RecoveryLatest(hist: Versions, log: seq<Batch>, wal: seq<Batch>, onDisk: nat, left: nat, flushed: u64, k: Key)
    requires |wal| <= |log| && wal == log[|log| - |wal|..] && |log| - |wal| <= onDisk <= |log| && left <= |wal|
    requires flushed + left < U64_MAX && HistOk(Upto(hist, flushed), flushed + 1)
    requires LatestIs(Upto(hist, flushed), k, LogValue(log[..onDisk], k))
    ensures LatestIs(StampAll(Upto(hist, flushed), wal[..left], flushed), k, LogValue(Replayed(log, wal, onDisk, left), k))
  {
    hide Updates, LogValue, StampAll, Upto, Replayed;
    var h := Upto(hist, flushed);
    LogValueReplayed(log, wal, onDisk, left, k);
    StampAllLatest(h, flushed, wal[..left], k);
    if LogValue(wal[..left], k).None? {
      SameLatest(h, StampAll(h, wal[..left], flushed), k, LogValue(log[..onDisk], k));
    }
  }

  lemma SameLatest(hist: Versions, hist': Versions, k: Key, o: Option<Option<Value>>)
    requires LatestIs(hist, k, o)
    requires forall t: u64 :: ((k, t) in hist' <==> (k, t) in hist) && ((k, t) in hist ==> hist'[(k, t)] == hist[(k, t)])
    ensures LatestIs(hist', k, o)
  {
    if o.Some? {
      var t: u64 :| (k, t) in hist && hist[(k, t)] == o.value && forall t': u64 :: (k, t') in hist ==> t' <= t;
      assert (k, t) in hist';
    }
  }

  lemma RecoveryLog(hist: Versions, log: seq<Batch>, wal: seq<Batch>, onDisk: nat, left: nat, flushed: u64, commitSeq: u64)
    requires LogOk(hist, log, wal, flushed, commitSeq) && DiskOk(hist, log, onDisk, flushed, commitSeq)
    requires left <= |wal| && flushed + left < U64_MAX && HistOk(Upto(hist, flushed), flushed + 1)
    ensures var (hist', log') := (StampAll(Upto(hist, flushed), wal[..left], flushed), Replayed(log, wal, onDisk, left));
            && LogOk(hist', log', wal[..left], flushed, flushed + 1 + left)
            && DiskOk(hist', log', onDisk, flushed, flushed + 1 + left)
  {
    hide LogValue, StampAll, LatestIs, Upto, HistOk, StampedBy;
    var h := Upto(hist, flushed);
    var hist', log' := StampAll(h, wal[..left], flushed), Replayed(log, wal, onDisk, left);
    forall k ensures LatestIs(hist', k, LogValue(log', k)) {
      RecoveryLatest(hist, log, wal, onDisk, left, flushed, k);
    }
    RecoveryStamps(h, wal[..left], flushed);
    ReplayedSuffix(log, wal, onDisk, left);
    ReplayedBatches(log, wal, onDisk, left);
    StampAllUpto(h, wal[..left], flushed);
    UptoTwice(hist, flushed);
  }

  lemma ReplayedBatches(log: seq<Batch>, wal: seq<Batch>, onDisk: nat, left: nat)
    requires |wal| <= |log| && wal == log[|log| - |wal|..] && onDisk <= |log| && left <= |wal|
    requires |log| - |wal| <= onDisk && forall i :: 0 <= i < |log| ==> log[i] != []
    ensures var log' := Replayed(log, wal, onDisk, left);
            (forall i :: 0 <= i < |log'| ==> log'[i] != []) && |log'| <= onDisk + left
  {
  }

  lemma {:induction false} StampAllUpto(h: Versions, wal: seq<Batch>, base: nat)
    requires base + |wal| <= U64_MAX
    ensures Upto(StampAll(h, wal, base), base) == Upto(h, base)
  {
    hide Stamp, Upto;
    if wal != [] {
      StampAllUpto(h, wal[..|wal| - 1], base);
      StampAboveUpto(StampAll(h, wal[..|wal| - 1], base), wal[|wal| - 1], base + |wal|, base);
    }
  }

  lemma UptoTwice(hist: Versions, ts: u64)
    ensures Upto(Upto(hist, ts), ts) == Upto(hist, ts)
  {
  }

  lemma RecoveryStamps(h: Versions, wal: seq<Batch>, flushed: u64)
    requires flushed + |wal| < U64_MAX && HistOk(h, flushed + 1)
    ensures StampedBy(StampAll(h, wal, flushed), wal, flushed, flushed + 1 + |wal|)
  {
    hide Updates, StampAll, HistOk;
    var hist', commitSeq' := StampAll(h, wal, flushed), flushed + 1 + |wal|;
    StampAllMembers(h, flushed, wal);
    forall k, t: u64 | flushed < t < commitSeq'
      ensures (k, t) in hist' <==> k in Updates(wal[|wal| - (commitSeq' - t)])
    {
      assert |wal| - (commitSeq' - t) == t - flushed - 1;
    }
  }

  lemma CrashInv(w: World, sstMax: u64, left: nat)
    requires Inv(w) && Enabled(w, CrashAndReopen(sstMax, left))
    ensures Inv(Step(w, CrashAndReopen(sstMax, left)))
  {
    hide HistOk, MemOk, FilesOk, PinsOk, DiskOk, LatestIs, LogValue, Updates, Upto, Replay, StampAll, IsSstMax, Replayed, StampedBy;
    SstMaxIsFlushed(w.st.files, w.hist, w.st.commitSeq, w.flushed, w.floor, sstMax);
    RecoveryHist(w.hist, w.st.commitSeq, w.flushed);
    var floor := Min(w.floor, w.flushed);
    RecoveryMem(w.hist, w.flushed, floor);
    RecoveryFiles(w.st.files, w.hist, w.flushed, w.floor);
    LowerFloor(w.st.files, Upto(w.hist, w.flushed), w.flushed, w.floor);
    ReplayParts(w.st.files, Upto(w.hist, w.flushed), w.flushed, floor, w.st.wal[..left]);
    RecoveryLog(w.hist, w.log, w.st.wal, w.onDisk, left, w.flushed, w.st.commitSeq);
    NoPins();
  }

  lemma LowerFloor(files: Files, hist: Versions, flushed: u64, floor: u64)
    requires FilesOk(files, hist, flushed, floor)
    ensures FilesOk(files, hist, flushed, Min(floor, flushed))
  {
    hide FileOk, Holds, Superseded;
  }

  lemma NoPins()
    ensures PinsOk(map[], multiset{} + multiset{})
  {
  }

  // ---- Runs ----

  lemma StepInv(w: World, a: Action)
    requires Inv(w) && Enabled(w, a)
    ensures Inv(Step(w, a))
  {
    hide Inv, CommitStore, FlushStore, CompactStore, ReopenStore, StampAll, Stamp;
    match a
    case Commit(batch) => CommitInv(w, batch);
    case Flush(resetWal) => FlushInv(w, resetWal);
    case CollectMem(mark) => CollectInv(w, mark);
    case Compact(chunks, level, mark) => CompactInv(w, chunks, level, mark);
    case BeginRead => BeginReadInv(w);
    case PinSnapshot(ts) => PinInv(w, ts);
    case DropGuard(ts) => DropGuardInv(w, ts);
    case ComputeWatermark(mark) => WatermarkInv(w, mark);
    case DropLoose(ts) => DropLooseInv(w, ts);
    case CrashAndReopen(sstMax, left) => CrashInv(w, sstMax, left);
  }

  const FRESH := World(Store(map[], map[], 0, 1, map[], []), map[], 0, 0, [], 0, multiset{}, multiset{}, {})

  ghost predicate Runs(w: World, run: seq<Action>, w': World)
    decreases |run|
  {
    if run == [] then w == w' else Enabled(w, run[0]) && Runs(Step(w, run[0]), run[1..], w')
  }

  lemma FreshInv()
    ensures Inv(FRESH)
  {
  }

  lemma {:induction false} RunInv(w: World, run: seq<Action>, w': World)
    requires Inv(w) && Runs(w, run, w')
    ensures Inv(w')
    decreases |run|
  {
    hide Inv, Step, Enabled;
    if run != [] {
      StepInv(w, run[0]);
      RunInv(Step(w, run[0]), run[1..], w');
    }
  }

  /** A world some run of the engine leads to from an empty directory. */
  ghost predicate Reachable(w: World) {
    exists run :: Runs(FRESH, run, w)
  }

  lemma ReachableInv(w: World)
    requires Reachable(w)
    ensures Inv(w)
  {
    hide Inv, Runs;
    var run :| Runs(FRESH, run, w);
    FreshInv();
    RunInv(FRESH, run, w);
  }

  // ---- Reads ----

  /** What a read of `k` at snapshot `s` must return: the newest committed value at or below `s`. */
  ghost predicate ReadIs(hist: Versions, k: Key, s: u64, o: Option<Value>) {
    || (exists t: u64 :: NewestVersion(hist, k, s, t) && hist[(k, t)] == o)
    || (o == None && forall t: u64 :: (k, t) in hist ==> t > s)
  }

  /** A snapshot the engine protects: pinned by a live guard, or the current one. */
  ghost predicate Protected(w: World, s: u64) {
    s in w.guards || s == SnapshotTs(w.st)
  }

  /** Nothing used as a watermark so far exceeds a protected snapshot. */
  lemma ProtectedAboveFloor(w: World, s: u64)
    requires Inv(w) && Protected(w, s)
    ensures w.floor <= s < w.st.commitSeq && s < OPEN_ENDED_TS
    ensures forall m :: m in w.watermarks ==> m <= s
  {
    hide MemOk, FilesOk, LogOk, DiskOk, PinsOk;
  }

  /** Whatever a chain or a file shows at a snapshot is a committed version. */
  lemma MemCandidate(mem: Entries, hist: Versions, flushed: u64, floor: u64, k: Key, s: u64, v: VersionedValue)
    requires MemOk(mem, hist, flushed, floor) && s < OPEN_ENDED_TS
    requires FirstVisible(ChainOf(mem, k), s) == Some(v)
    ensures (k, v.beginTs) in hist && hist[(k, v.beginTs)] == v.value && flushed < v.beginTs <= s
  {
    VisibleIsNewest(ChainOf(mem, k), s);
  }

  lemma FileCandidate(files: Files, hist: Versions, flushed: u64, floor: u64, id: FileId, r: Row)
    requires FilesOk(files, hist, flushed, floor) && id in files && r in files[id].rows
    ensures (r.key, r.version.beginTs) in hist && hist[(r.key, r.version.beginTs)] == r.version.value
    ensures r.version.beginTs <= flushed
  {
  }

  ghost predicate FileShows(files: Files, k: Key, s: u64, t: u64) {
    exists id, r :: id in files && r in files[id].rows && r.key == k && r.version.beginTs == t && r.version.VisibleAt(s)
  }

  /** The newest committed version at a snapshot at or above the floor is visible somewhere: in the
      memtable when it was committed after the last flush, in a file otherwise. */
  lemma NewestIsStored(w: World, k: Key, s: u64, t: u64)
    requires Inv(w) && w.floor <= s < OPEN_ENDED_TS && NewestVersion(w.hist, k, s, t)
    ensures t > w.flushed ==> FirstVisible(ChainOf(w.st.mem, k), s).Some? &&
                              FirstVisible(ChainOf(w.st.mem, k), s).value.beginTs == t
    ensures t <= w.flushed ==> FileShows(w.st.files, k, s, t)
  {
    hide PinsOk, LogOk, DiskOk, HistOk, MarksOk;
    if t > w.flushed {
      NewestInMem(w.st.mem, w.hist, w.flushed, w.floor, k, s, t);
    } else {
      NewestInFiles(w.st.files, w.hist, w.flushed, w.floor, k, s, t);
    }
  }

  lemma NewestInMem(mem: Entries, hist: Versions, flushed: u64, floor: u64, k: Key, s: u64, t: u64)
    requires MemOk(mem, hist, flushed, floor) && floor <= s < OPEN_ENDED_TS && NewestVersion(hist, k, s, t) && t > flushed
    ensures FirstVisible(ChainOf(mem, k), s).Some? && FirstVisible(ChainOf(mem, k), s).value.beginTs == t
  {
    VisibleIsNewest(ChainOf(mem, k), s);
    assert !Superseded(hist, k, t, floor);
    assert t in MemContents(mem, k);
  }

  lemma NewestInFiles(files: Files, hist: Versions, flushed: u64, floor: u64, k: Key, s: u64, t: u64)
    requires FilesOk(files, hist, flushed, floor) && floor <= s < OPEN_ENDED_TS && NewestVersion(hist, k, s, t) && t <= flushed
    ensures FileShows(files, k, s, t)
  {
    hide StrictlySorted;
    assert !Superseded(hist, k, t, Min(floor, flushed));
    assert Holds(files, k, t);
    var id, r :| id in files && r in files[id].rows && r.key == k && r.version.beginTs == t;
    assert RowOk(r, hist, flushed);
    assert r.version.VisibleAt(s);
  }

  // ---- Main theorems about runs ----

  /** Watermark safety: in every reachable state the pin table counts exactly the live pins, and
      no watermark ever handed out exceeds a live or current snapshot. */
  lemma WatermarkSafety(w: World)
    requires Reachable(w)
    ensures forall ts: u64 :: w.guards[ts] + w.loose[ts] == if ts in w.st.pins then w.st.pins[ts] else 0
    ensures forall m: u64, s: u64 :: m in w.watermarks && Protected(w, s) ==> m <= s
    ensures forall s: u64 :: Protected(w, s) ==> w.floor <= s
  {
    ReachableInv(w);
    hide MemOk, FilesOk, LogOk, DiskOk, Reachable;
  }

  /** The memtable or a file shows `v` of `k` at `s`. */
  ghost predicate StoreShows(st: Store, k: Key, s: u64, v: VersionedValue) {
    || FirstVisible(ChainOf(st.mem, k), s) == Some(v)
    || exists id, r :: id in st.files && r in st.files[id].rows && r.key == k && r.version == v && v.VisibleAt(s)
  }

  /** What reading every place of the store and keeping the newest version gives. */
  ghost predicate StoreReads(st: Store, k: Key, s: u64, o: Option<Value>) {
    || (exists v :: StoreShows(st, k, s, v) && v.value == o && forall u :: StoreShows(st, k, s, u) ==> u.beginTs <= v.beginTs)
    || (o == None && forall v :: !StoreShows(st, k, s, v))
  }

  lemma ShownIsCommitted(w: World, k: Key, s: u64, v: VersionedValue)
    requires Inv(w) && s < OPEN_ENDED_TS && StoreShows(w.st, k, s, v)
    ensures (k, v.beginTs) in w.hist && w.hist[(k, v.beginTs)] == v.value && v.beginTs <= s
  {
    hide PinsOk, LogOk, DiskOk, HistOk, MarksOk, MemOk, FilesOk, FirstVisible;
    if FirstVisible(ChainOf(w.st.mem, k), s) == Some(v) {
      MemCandidate(w.st.mem, w.hist, w.flushed, w.floor, k, s, v);
    } else {
      var id, r :| id in w.st.files && r in w.st.files[id].rows && r.key == k && r.version == v && v.VisibleAt(s);
      FileCandidate(w.st.files, w.hist, w.flushed, w.floor, id, r);
    }
  }

  lemma NewestIsShown(w: World, k: Key, s: u64, t: u64)
    requires Inv(w) && w.floor <= s < OPEN_ENDED_TS && NewestVersion(w.hist, k, s, t)
    ensures exists v :: StoreShows(w.st, k, s, v) && v.beginTs == t
  {
    hide Inv, FirstVisible;
    NewestIsStored(w, k, s, t);
    if t > w.flushed {
      assert StoreShows(w.st, k, s, FirstVisible(ChainOf(w.st.mem, k), s).value);
    } else {
      var id, r :| id in w.st.files && r in w.st.files[id].rows && r.key == k && r.version.beginTs == t && r.version.VisibleAt(s);
      assert StoreShows(w.st, k, s, r.version);
    }
  }

  lemma {:induction false} NewestExists(hist: Versions, k: Key, s: u64, t0: u64) returns (t: u64)
    requires (k, t0) in hist && t0 <= s
    ensures NewestVersion(hist, k, s, t)
  {
    var ts: set<int> := set id | id in hist && id.0 == k && id.1 <= s :: id.1;
    assert t0 in ts by { assert (k, t0) in hist; }
    var x := LargestElement(ts);
    t := x;
    forall t': u64 | (k, t') in hist && t' <= s
      ensures t' <= t
    {
      assert (k, t').1 in ts;
    }
  }

  /** Reading the store at a snapshot from the floor on is reading the history. */
  lemma StoreReadsHistory(w: World, k: Key, s: u64, o: Option<Value>)
    requires Inv(w) && w.floor <= s < OPEN_ENDED_TS
    ensures StoreReads(w.st, k, s, o) <==> ReadIs(w.hist, k, s, o)
  {
    hide Inv, StoreShows;
    forall v | StoreShows(w.st, k, s, v)
      ensures (k, v.beginTs) in w.hist && w.hist[(k, v.beginTs)] == v.value && v.beginTs <= s
    {
      ShownIsCommitted(w, k, s, v);
    }
    if t0: u64 :| (k, t0) in w.hist && t0 <= s {
      var t := NewestExists(w.hist, k, s, t0);
      NewestIsShown(w, k, s, t);
      var v :| StoreShows(w.st, k, s, v) && v.beginTs == t;
      assert forall u: u64 :: NewestVersion(w.hist, k, s, u) ==> u == t;
    }
  }

  lemma HistoryStable(w: World, a: Action, k: Key, s: u64, o: Option<Value>)
    requires Inv(w) && Enabled(w, a) && !a.CrashAndReopen? && s < w.st.commitSeq
    ensures ReadIs(Step(w, a).hist, k, s, o) <==> ReadIs(w.hist, k, s, o)
  {
    hide MemOk, FilesOk, LogOk, DiskOk, PinsOk, Stamp, Updates;
    var h, h' := w.hist, Step(w, a).hist;
    if a.Commit? {
      StampMembers(h, a.batch, w.st.commitSeq);
      assert forall t: u64 :: NewestVersion(h', k, s, t) <==> NewestVersion(h, k, s, t);
    }
  }

  /** No commit, flush, collection, compaction or pin changes what the store returns at a past or current
      snapshot that no watermark has passed, before or after the step. */
  lemma SnapshotStable(w: World, a: Action, k: Key, s: u64, o: Option<Value>)
    requires Inv(w) && Enabled(w, a) && !a.CrashAndReopen? && s < w.st.commitSeq
    requires w.floor <= s && Step(w, a).floor <= s
    ensures StoreReads(Step(w, a).st, k, s, o) <==> StoreReads(w.st, k, s, o)
  {
    hide Inv, Step, Enabled, ReadIs, StoreReads;
    StepInv(w, a);
    HistoryStable(w, a, k, s, o);
    StoreReadsHistory(w, k, s, o);
    StoreReadsHistory(Step(w, a), k, s, o);
  }

  /** Recovery over data that is partly flushed already: with the whole log left, all keys keep their
      latest value, and the current snapshot does not go backwards. */
  lemma CrashKeepsLatest(w: World, sstMax: u64)
    requires Reachable(w) && Enabled(w, CrashAndReopen(sstMax, |w.st.wal|))
    ensures
      var w' := Step(w, CrashAndReopen(sstMax, |w.st.wal|));
      && w'.st.commitSeq >= w.st.commitSeq && w'.log == w.log
      && forall k, o :: ReadIs(w.hist, k, SnapshotTs(w.st), o) <==> ReadIs(w'.hist, k, SnapshotTs(w'.st), o)
  {
    ReachableInv(w);
    hide Reachable, Inv, Step;
    var w' := Step(w, CrashAndReopen(sstMax, |w.st.wal|));
    CrashInv(w, sstMax, |w.st.wal|);
    CrashMovesForward(w, sstMax);
    forall k, o ensures ReadIs(w.hist, k, SnapshotTs(w.st), o) <==> ReadIs(w'.hist, k, SnapshotTs(w'.st), o) {
      InvCurrentRead(w, k, o);
      InvCurrentRead(w', k, o);
    }
  }

  lemma CrashMovesForward(w: World, sstMax: u64)
    requires Inv(w) && Enabled(w, CrashAndReopen(sstMax, |w.st.wal|))
    ensures Step(w, CrashAndReopen(sstMax, |w.st.wal|)).st.commitSeq >= w.st.commitSeq
    ensures Step(w, CrashAndReopen(sstMax, |w.st.wal|)).log == w.log
  {
    hide HistOk, MemOk, FilesOk, PinsOk, LatestIs, LogValue, Updates, Upto, Replay, StampAll, IsSstMax, StampedBy;
    SstMaxIsFlushed(w.st.files, w.hist, w.st.commitSeq, w.flushed, w.floor, sstMax);
    assert w.log[..|w.log|] == w.log;
  }

  // ---- A crash that loses part of the log ----

  /** How many batches a log cut to `left` batches still has, counted in the whole history. */
  function CutAt(w: World, left: nat): int {
    |w.log| - (|w.st.wal| - left)
  }

  /** The batches that the files or the cut log still hold, in commit order. */
  function Survivors(w: World, left: nat): seq<Batch> {
    var n := if w.onDisk >= CutAt(w, left) then w.onDisk else CutAt(w, left);
    if 0 <= n <= |w.log| then w.log[..n] else w.log
  }

  /** The batches that the files hold and the cut log has lost. */
  function LostOnDisk(w: World, left: nat): seq<Batch> {
    if 0 <= CutAt(w, left) < w.onDisk <= |w.log| then w.log[CutAt(w, left)..w.onDisk] else []
  }

  /** The cut log does not hold a value of `k` that a batch on disk, but lost from the log, overwrote. */
  ghost predicate KeyNotStale(w: World, left: nat, k: Key)
    requires left <= |w.st.wal|
  {
    LogValue(w.st.wal[..left], k).Some? && LogValue(LostOnDisk(w, left), k).Some? ==>
      LogValue(w.st.wal[..left], k) == LogValue(LostOnDisk(w, left), k)
  }

  ghost predicate NothingStale(w: World, left: nat)
    requires left <= |w.st.wal|
  {
    forall k :: KeyNotStale(w, left, k)
  }

  function ValueIn(log: seq<Batch>, k: Key): Option<Value> {
    if LogValue(log, k).Some? then LogValue(log, k).value else None
  }

  lemma SurvivingValue(w: World, left: nat, k: Key)
    requires left <= |w.st.wal| <= |w.log| && w.st.wal == w.log[|w.log| - |w.st.wal|..]
    requires |w.log| - |w.st.wal| <= w.onDisk <= |w.log|
    ensures LogValue(Survivors(w, left), k) ==
            if LogValue(LostOnDisk(w, left), k).Some? then LogValue(LostOnDisk(w, left), k)
            else if LogValue(w.st.wal[..left], k).Some? then LogValue(w.st.wal[..left], k)
            else LogValue(w.log[..w.onDisk], k)
    ensures LogValue(LostOnDisk(w, left), k).Some? ==> LogValue(w.log[..w.onDisk], k) == LogValue(LostOnDisk(w, left), k)
  {
    hide LogValue, Updates;
    var wal, cut := w.st.wal, CutAt(w, left);
    var pre := w.log[..|w.log| - |wal|];
    assert w.log[..cut] == pre + wal[..left];
    LogValueConcat(pre, wal[..left], k);
    if cut < w.onDisk {
      assert w.log[..w.onDisk] == w.log[..cut] + LostOnDisk(w, left);
      LogValueConcat(w.log[..cut], LostOnDisk(w, left), k);
    } else {
      AbsentValue([], k);
      LogValueReplayed(w.log, wal, w.onDisk, left, k);
      assert Replayed(w.log, wal, w.onDisk, left) == w.log[..cut];
    }
  }

  /**
   A crash that leaves any prefix of the log: the current values are those of the batches that
   survive, in the files or in the log, exactly when no key of the log that is left was overwritten by
   a flushed batch that the log lost. In particular they are when every lost batch is unflushed.
   */
  lemma CrashLatestIff(w: World, sstMax: u64, left: nat)
    requires Inv(w) && Enabled(w, CrashAndReopen(sstMax, left))
    ensures
      var w' := Step(w, CrashAndReopen(sstMax, left));
      && ((forall k, o :: ReadIs(w'.hist, k, SnapshotTs(w'.st), o) <==> o == ValueIn(Survivors(w, left), k))
          <==> NothingStale(w, left))
      && (w.onDisk <= CutAt(w, left) ==> NothingStale(w, left))
  {
    hide LogValue, Inv, Step, Survivors, LostOnDisk, ReadIs, Replayed, IsSstMax, KeyNotStale, NothingStale, ValueIn;
    CrashShape(w);
    var w' := Step(w, CrashAndReopen(sstMax, left));
    forall k, o
      ensures ReadIs(w'.hist, k, SnapshotTs(w'.st), o) <==> o == ValueIn(Replayed(w.log, w.st.wal, w.onDisk, left), k)
    {
      CrashReads(w, sstMax, left, k, o);
    }
    forall k
      ensures ValueIn(Replayed(w.log, w.st.wal, w.onDisk, left), k) == ValueIn(Survivors(w, left), k) <==> KeyNotStale(w, left, k)
    {
      StaleKey(w, left, k);
    }
    StaleMeans(w, w', left);
    NothingLost(w, left);
  }

  lemma CrashReads(w: World, sstMax: u64, left: nat, k: Key, o: Option<Value>)
    requires Inv(w) && Enabled(w, CrashAndReopen(sstMax, left))
    ensures var w' := Step(w, CrashAndReopen(sstMax, left));
            ReadIs(w'.hist, k, SnapshotTs(w'.st), o) <==> o == ValueIn(Replayed(w.log, w.st.wal, w.onDisk, left), k)
  {
    hide Inv, LogValue, ReadIs, Replayed, IsSstMax;
    CrashInv(w, sstMax, left);
    InvCurrentRead(Step(w, CrashAndReopen(sstMax, left)), k, o);
  }

  lemma StaleKey(w: World, left: nat, k: Key)
    requires left <= |w.st.wal| <= |w.log| && w.st.wal == w.log[|w.log| - |w.st.wal|..]
    requires |w.log| - |w.st.wal| <= w.onDisk <= |w.log|
    ensures ValueIn(Replayed(w.log, w.st.wal, w.onDisk, left), k) == ValueIn(Survivors(w, left), k) <==> KeyNotStale(w, left, k)
  {
    hide LogValue, Survivors, LostOnDisk, Replayed;
    SurvivingValue(w, left, k);
    LogValueReplayed(w.log, w.st.wal, w.onDisk, left, k);
  }

  lemma StaleMeans(w: World, w': World, left: nat)
    requires left <= |w.st.wal|
    requires forall k, o :: ReadIs(w'.hist, k, SnapshotTs(w'.st), o) <==> o == ValueIn(Replayed(w.log, w.st.wal, w.onDisk, left), k)
    requires forall k :: ValueIn(Replayed(w.log, w.st.wal, w.onDisk, left), k) == ValueIn(Survivors(w, left), k) <==> KeyNotStale(w, left, k)
    ensures (forall k, o :: ReadIs(w'.hist, k, SnapshotTs(w'.st), o) <==> o == ValueIn(Survivors(w, left), k)) <==> NothingStale(w, left)
  {
    hide LogValue, ReadIs, Survivors, LostOnDisk, ValueIn, Replayed;
    if forall k, o :: ReadIs(w'.hist, k, SnapshotTs(w'.st), o) <==> o == ValueIn(Survivors(w, left), k) {
      forall k
        ensures KeyNotStale(w, left, k)
      {
        var o := ValueIn(Replayed(w.log, w.st.wal, w.onDisk, left), k);
        assert ReadIs(w'.hist, k, SnapshotTs(w'.st), o);
      }
    }
    if NothingStale(w, left) {
      forall k
        ensures ValueIn(Replayed(w.log, w.st.wal, w.onDisk, left), k) == ValueIn(Survivors(w, left), k)
      {
        assert KeyNotStale(w, left, k);
      }
    }
  }

  /** Two commits of one key, a flush, and a crash that leaves only the first of them in the log: the store
      then reads the older value, although the newer one was flushed. */
  lemma LostBatchBringsBackOldValue(k: Key, v1: Value, v2: Value) returns (w: World, sstMax: u64)
    ensures Reachable(w) && w.log == w.st.wal == [[Put(k, v1)], [Put(k, v2)]] && w.onDisk == 2
    ensures Enabled(w, CrashAndReopen(sstMax, 1))
    ensures var w' := Step(w, CrashAndReopen(sstMax, 1));
            ReadIs(w'.hist, k, SnapshotTs(w'.st), Some(v1))
  {
    hide Inv, Applied, Stamp, Drained, IsSstMax;
    var b1, b2 := [Put(k, v1)], [Put(k, v2)];
    var a1, a2, a3 := Commit(b1), Commit(b2), Flush(false);
    var w1 := Step(FRESH, a1);
    var w2 := Step(w1, a2);
    FreshInv();
    StepInv(FRESH, a1);
    StepInv(w1, a2);
    CommittedIsBuffered(w1, w2, k, v2);
    w := Step(w2, a3);
    ThreeSteps(a1, a2, a3, w1, w2, w);
    assert [] + [b1] == [b1] && [b1] + [b2] == [b1, b2];
    ReachableInv(w);
    sstMax := SstMaxExists(w);
    CrashReads(w, sstMax, 1, k, Some(v1));
    OldestReplayed(k, v1, v2);
  }

  /** The files have a highest commit timestamp, which is below the next one to be given out. */
  lemma SstMaxExists(w: World) returns (m: u64)
    requires Inv(w)
    ensures IsSstMax(w.st.files, m) && m < w.st.commitSeq
  {
    hide Inv;
    var ts: set<int> := set x | x in w.hist && BeginsIn(w.st.files, x.1) :: x.1;
    PositiveSeqInv(w);
    forall id, r | id in w.st.files && r in w.st.files[id].rows
      ensures r.version.beginTs in ts && r.version.beginTs < w.st.commitSeq
    {
      RowDated(w, id, r);
      assert (r.key, r.version.beginTs).1 == r.version.beginTs && BeginsIn(w.st.files, r.version.beginTs);
    }
    m := 0;
    if ts != {} {
      var x := LargestElement(ts);
      m := x;
      assert BeginsIn(w.st.files, m);
    }
  }

  ghost predicate BeginsIn(files: Files, t: u64) {
    exists id, r :: id in files && r in files[id].rows && r.version.beginTs == t
  }

  lemma RowDated(w: World, id: FileId, r: Row)
    requires Inv(w) && id in w.st.files && r in w.st.files[id].rows
    ensures (r.key, r.version.beginTs) in w.hist && r.version.beginTs < w.st.commitSeq
  {
    hide MemOk, PinsOk, LogOk, DiskOk, MarksOk, FilesOk;
    FileCandidate(w.st.files, w.hist, w.flushed, w.floor, id, r);
  }

  lemma PositiveSeqInv(w: World)
    requires Inv(w)
    ensures w.st.commitSeq >= 1
  {
    hide MemOk, PinsOk, LogOk, DiskOk, MarksOk, FilesOk;
  }

  lemma ThreeSteps(a: Action, b: Action, c: Action, w1: World, w2: World, w3: World)
    requires Enabled(FRESH, a) && w1 == Step(FRESH, a) && Enabled(w1, b) && w2 == Step(w1, b) && Enabled(w2, c) && w3 == Step(w2, c)
    ensures Reachable(w3)
  {
    hide Enabled, Step;
    assert [a, b, c][1..] == [b, c] && [b, c][1..] == [c] && [c][1..] == [];
    assert Runs(w3, [], w3);
    assert Runs(w2, [c], w3);
    assert Runs(w1, [b, c], w3);
    assert Runs(FRESH, [a, b, c], w3);
  }

  lemma OldestReplayed(k: Key, v1: Value, v2: Value)
    ensures var log := [[Put(k, v1)], [Put(k, v2)]];
            ValueIn(Replayed(log, log, 2, 1), k) == Some(v1)
  {
    var log := [[Put(k, v1)], [Put(k, v2)]];
    assert log[..2] + log[..1] == [[Put(k, v1)], [Put(k, v2)], [Put(k, v1)]];
    assert [Put(k, v1)][..0] == [];
    assert Updates([Put(k, v1)]) == map[][k := Some(v1)];
  }

  /** What was just committed is in the memtable, so that a flush writes a file. */
  lemma CommittedIsBuffered(w1: World, w2: World, k: Key, v: Value)
    requires Inv(w1) && Enabled(w1, Commit([Put(k, v)])) && w2 == Step(w1, Commit([Put(k, v)])) && w1.floor < w1.st.commitSeq
    ensures Drained(w2.st.mem) != []
  {
    StepInv(w1, Commit([Put(k, v)]));
    hide HistOk, FilesOk, PinsOk, DiskOk, MarksOk, LatestIs, LogValue, Drained, Applied, StampedBy;
    var ts := w1.st.commitSeq;
    StampMembers(w1.hist, [Put(k, v)], ts);
    assert [Put(k, v)][..0] == [];
    assert k in Updates([Put(k, v)]);
    assert (k, ts) in w2.hist;
    assert ts in MemContents(w2.st.mem, k);
    MemRow(w2.st.mem, k, ts);
  }

  lemma CrashShape(w: World)
    requires Inv(w)
    ensures |w.st.wal| <= |w.log| && w.st.wal == w.log[|w.log| - |w.st.wal|..]
    ensures |w.log| - |w.st.wal| <= w.onDisk <= |w.log|
  {
    hide HistOk, MemOk, FilesOk, PinsOk, MarksOk, LatestIs, LogValue, StampedBy;
  }

  lemma NothingLost(w: World, left: nat)
    requires left <= |w.st.wal|
    ensures w.onDisk <= CutAt(w, left) ==> NothingStale(w, left)
  {
  }

  /** Reading at the current snapshot returns the last logged update. */
  lemma CurrentReadIsLogValue(hist: Versions, commitSeq: u64, k: Key, latest: Option<Option<Value>>, o: Option<Value>)
    requires HistOk(hist, commitSeq) && LatestIs(hist, k, latest)
    ensures commitSeq >= 1 && (ReadIs(hist, k, commitSeq - 1, o) <==> o == (if latest.Some? then latest.value else None))
  {
    if latest.Some? {
      var t: u64 :| (k, t) in hist && hist[(k, t)] == latest.value && forall t': u64 :: (k, t') in hist ==> t' <= t;
      assert NewestVersion(hist, k, commitSeq - 1, t);
    }
  }

  lemma InvCurrentRead(w: World, k: Key, o: Option<Value>)
    requires Inv(w)
    ensures ReadIs(w.hist, k, SnapshotTs(w.st), o) <==>
            o == (if LogValue(w.log, k).Some? then LogValue(w.log, k).value else None)
  {
    hide MemOk, FilesOk, PinsOk, DiskOk, HistOk, MarksOk, LogValue, LatestIs, StampedBy;
    assert LatestIs(w.hist, k, LogValue(w.log, k));
    CurrentReadIsLogValue(w.hist, w.st.commitSeq, k, LogValue(w.log, k), o);
  }

  /** In every reachable state the current value of a key is its last committed update, across any
      number of flushes, collections, compactions and crashes. */
  lemma CurrentReadIsLastCommit(w: World, k: Key, o: Option<Value>)
    requires Reachable(w)
    ensures ReadIs(w.hist, k, SnapshotTs(w.st), o) <==>
            o == (if LogValue(w.log, k).Some? then LogValue(w.log, k).value else None)
  {
    hide Inv;
    ReachableInv(w);
    InvCurrentRead(w, k, o);
  }
}
