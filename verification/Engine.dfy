/** The storage engine as an object: each operation is one step of the node, and keeps its invariant. */
module Engines {
  import opened Bytes
  import opened Sets
  import opened KeyOrder
  import opened Sequences
  import opened Compaction
  import opened Memtable
  import opened Lsm
  import opened Reads
  import opened Lookup
  import opened RowCounts
  import opened Nodes
  import opened Chunks
  import Bloom
  import KeyIndexes
  import Manifest
  import ManifestLog
  import Recovery

  // ---- Written files ----

  /** What disk and clock say about a written file, and how large its filter is. */
  datatype Outcome = Outcome(bytes: u64, createdAt: u64, words: nat, numHashes: nat, filterStored: bool, indexStored: bool)

  function KeysIn(rows: seq<Row>): seq<Key> {
    seq(|rows|, i requires 0 <= i < |rows| => rows[i].key)
  }

  method WriteFilter(rows: seq<Row>, outcome: Outcome) returns (filter: Option<Bloom.Filter>)
    ensures filter.Some? ==> filter.value.Valid() && forall r :: r in rows ==> filter.value.MayContain(r.key)
  {
    hide Bloom.Filter.MayContain;
    if !outcome.filterStored || outcome.words == 0 || outcome.numHashes == 0 {
      return None;
    }
    var f := Bloom.BuildFilter(KeysIn(rows), 64 * outcome.words, outcome.numHashes);
    forall r | r in rows
      ensures f.MayContain(r.key)
    {
      var i :| 0 <= i < |rows| && rows[i] == r;
      assert KeysIn(rows)[i] == r.key;
    }
    return Some(f);
  }

  /** The key index and the filter beside a file. */
  method WriteSidecars(rows: seq<Row>, outcome: Outcome) returns (extra: Extra)
    ensures Built(extra, rows)
    ensures extra.bytes == outcome.bytes && extra.createdAt == outcome.createdAt
    ensures outcome.indexStored && KeyIndexes.Fits(rows) ==> extra.index.Some?
  {
    hide Bloom.Filter.MayContain, KeyIndexes.Indexes, KeyIndexes.Fits;
    var filter := WriteFilter(rows, outcome);
    if !outcome.indexStored || !KeyIndexes.Fits(rows) {
      return Extra(outcome.bytes, outcome.createdAt, filter, None);
    }
    var index := KeyIndexes.FromRows(rows);
    return Extra(outcome.bytes, outcome.createdAt, filter, Some(index));
  }

  /** Merges every chunk into a new file with its filter and key index. */
  method MergeChunks(files: Files, caches: Caches, chunks: seq<seq<FileId>>, target: u32, mark: u64, nextId: FileId,
                     disk: FileId -> Outcome)
    returns (outputs: Files, extras: seq<Extra>, caches': Caches)
    requires ChunksOk(files, chunks)
    ensures outputs == Outputs(files, chunks, target, mark, nextId) && |extras| == |chunks|
    ensures forall i :: 0 <= i < |chunks| ==> Built(extras[i], OutputRows(files, chunks, mark, i))
    ensures caches' == WithFiles(caches, nextId, extras)
  {
    hide Dedup, ChunkRows, Outputs, Built, WithFile;
    outputs, extras, caches' := map[], [], caches;
    NoOutputs(files, target, mark, nextId);
    for i := 0 to |chunks|
      invariant ChunksOk(files, chunks[..i]) && |extras| == i
      invariant outputs == Outputs(files, chunks[..i], target, mark, nextId)
      invariant forall j :: 0 <= j < i ==> Built(extras[j], OutputRows(files, chunks, mark, j))
      invariant caches' == WithFiles(caches, nextId, extras)
    {
      OutputsNext(files, chunks, i, target, mark, nextId);
      var rows := ReadChunk(files, chunks[i]);
      var merged := DedupSuperseded(rows, mark);
      var extra := WriteSidecars(merged, disk(nextId + i));
      outputs := outputs[nextId + i := Sst(target, merged)];
      assert (extras + [extra])[..i] == extras;
      extras := extras + [extra];
      caches' := WithFile(caches', nextId + i, extra);
    }
    assert chunks[..|chunks|] == chunks;
  }

  /** The batch that adds the outputs and deletes the inputs. */
  method CompactionBatch(files: Files, levels: Manifest.Levels, chunks: seq<seq<FileId>>, source: u32, target: u32, mark: u64,
                         nextId: FileId, outputs: Files, extras: seq<Extra>, inputs: seq<FileId>)
    returns (edits: seq<Edit>)
    requires ChunksOk(files, chunks) && chunks != [] && |extras| == |chunks| && nextId + |chunks| <= U64_MAX
    requires inputs == Flatten(chunks) && IdsFit(inputs) && outputs == Outputs(files, chunks, target, mark, nextId)
    ensures edits == CompactEdits(files, levels, chunks, source, target, mark, nextId, extras)
  {
    hide Dedup, ChunkRows, Outputs, Flatten, MetaOf, LevelOf;
    edits := [];
    OutputsMembers(files, chunks, target, mark, nextId);
    var maxId: u64 := 0;
    for i := 0 to |chunks|
      invariant ChunksOk(files, chunks[..i]) && edits == AddEdits(files, chunks[..i], target, mark, nextId, extras[..i])
      invariant maxId == if i == 0 then 0 else nextId + i - 1
    {
      assert chunks[..i + 1][..i] == chunks[..i] && extras[..i + 1][..i] == extras[..i];
      assert nextId + i in outputs;
      edits := edits + [Manifest.AddFile(nextId + i, target, MetaOf(outputs[nextId + i].rows, extras[i]))];
      maxId := Manifest.Larger(maxId, nextId + i);
    }
    assert chunks[..|chunks|] == chunks && extras[..|extras|] == extras;
    edits := edits + [Manifest.NextFileId(Manifest.Succ(maxId))];
    ghost var front := edits;
    assert front + DeleteEdits(levels, [], source, target) == front;
    for i := 0 to |inputs|
      invariant IdsFit(inputs[..i]) && edits == front + DeleteEdits(levels, inputs[..i], source, target)
    {
      assert inputs[..i + 1][..i] == inputs[..i];
      var delete := Manifest.DeleteFile(inputs[i], LevelOf(levels, inputs[i], source, target));
      Regroup(front, DeleteEdits(levels, inputs[..i], source, target), [delete]);
      edits := edits + [delete];
    }
    assert inputs[..|inputs|] == inputs;
  }

  // ---- The engine ----

  class Engine {
    var mem: MemTable
    var files: Files
    var commitSeq: u64
    var pins: map<u64, nat>
    var wal: seq<Batch>
    var manifest: ManifestLog.ManifestFile
    var caches: Caches
    const counter: RowCounter

    /** The state of the node, together with what it refines. */
    ghost var node: Node

    ghost predicate Valid()
      reads this, mem, manifest, manifest.versionSet, counter
    {
      && node.w.st == Store(mem.entries, files, manifest.versionSet.nextFileId, commitSeq, pins, wal)
      && manifest.Valid() && node.man == manifest.AsState()
      && node.caches == caches && node.counts == counter.AsCounts()
      && Nodes.Inv(node)
    }

    constructor ()
      ensures Valid() && node == NEW && fresh(mem) && fresh(manifest) && fresh(manifest.versionSet) && fresh(counter)
    {
      hide Nodes.Inv, Manifest.ApplyAll, ManifestLog.Encodable;
      mem := new MemTable();
      files, commitSeq, pins, wal, caches := map[], 1, map[], [], NO_CACHES;
      manifest := new ManifestLog.ManifestFile.Create();
      counter := new RowCounter();
      node := NEW;
      new;
      NewInv();
    }

    /** A batch that is empty or has an oversized field is refused and changes nothing. */
    method Write(batch: Batch) returns (commitTs: Option<u64>)
      requires Valid() && commitSeq < U64_MAX
      modifies this, mem
      ensures Valid() && mem == old(mem) && manifest == old(manifest)
      ensures commitTs.Some? <==> batch != [] && forall i :: 0 <= i < |batch| ==> Recovery.MutationEncodable(batch[i])
      ensures commitTs.Some? ==> commitTs.value == old(commitSeq) && Next(old(node), Plain(Commit(batch)), node)
      ensures commitTs.None? ==> node == old(node)
    {
      hide Nodes.Inv, Next, Applied, Updates, ManifestLog.ManifestFile.Valid, ManifestLog.Frames, Stamp;
      if batch == [] || exists i :: 0 <= i < |batch| && !Recovery.MutationEncodable(batch[i]) {
        return None;
      }
      EncodableKeysFit(batch);
      PlainNext(node, Commit(batch));
      wal := wal + [batch];
      commitTs := Some(commitSeq);
      commitSeq := commitSeq + 1;
      mem.ApplyMutationsBatch(batch, commitSeq - 1);
      node := node.(w := Lsm.Step(node.w, Commit(batch)));
    }

    /** An empty memtable is left alone; otherwise it becomes a level-0 file. */
    method Flush(resetWal: bool, outcome: Outcome)
      requires Valid() && manifest.versionSet.nextFileId < U64_MAX
      modifies this, mem, manifest, counter
      ensures Valid() && mem == old(mem) && manifest == old(manifest)
      ensures manifest.versionSet == old(manifest.versionSet) || fresh(manifest.versionSet)
      ensures exists extra: Extra :: && extra.bytes == outcome.bytes && extra.createdAt == outcome.createdAt
                              && Next(old(node), FlushTo(resetWal, extra), node)
    {
      hide Nodes.Inv, Next, Drained, Built, FlushEdits, FlushCounts, ManifestLog.After, ManifestLog.ManifestFile.Valid,
        ManifestLog.ManifestFile.InStep, ManifestLog.AllEncodable, Manifest.Consistent, WithFile;
      var rows := mem.DrainInto();
      var id := manifest.versionSet.nextFileId;
      var extra := WriteSidecars(rows, outcome);
      ghost var next := FlushNext(node, resetWal, extra);
      if rows == [] {
        return;
      }
      files := files[id := Sst(0, rows)];
      caches := WithFile(caches, id, extra);
      var result := manifest.AppendBatch(FlushEdits(id, rows, extra));
      counter.Flush(rows);
      mem.Clear();
      if resetWal {
        wal := [];
      }
      node := next;
    }

    /** The oldest pinned snapshot, or the current one if it is older or nothing is pinned. */
    method Watermark() returns (mark: u64)
      requires Valid()
      modifies this`node
      ensures Valid() && IsWatermark(old(node).w.st, mark) && Next(old(node), Plain(ComputeWatermark(mark)), node)
    {
      hide Nodes.Inv, Next, ManifestLog.ManifestFile.Valid;
      mark := if commitSeq == 0 then 0 else commitSeq - 1;
      if pins != map[] {
        var oldest := Smallest(pins.Keys);
        if oldest < mark {
          mark := oldest;
        }
      }
      assert IsWatermark(node.w.st, mark) by {
        assert forall ts :: ts in pins ==> ts in pins.Keys;
      }
      PlainNext(node, ComputeWatermark(mark));
      node := node.(w := Lsm.Step(node.w, ComputeWatermark(mark)));
    }

    /** Reads and pins the current snapshot in one step. */
    method BeginRead() returns (ts: u64)
      requires Valid()
      modifies this`pins, this`node
      ensures Valid() && Next(old(node), Plain(Action.BeginRead), node) && ts in node.w.guards && ts == SnapshotTs(node.w.st)
    {
      hide Nodes.Inv, Next, ManifestLog.ManifestFile.Valid;
      PlainNext(node, Action.BeginRead);
      ts := if commitSeq == 0 then 0 else commitSeq - 1;
      pins := Pin(pins, ts);
      node := node.(w := Lsm.Step(node.w, Action.BeginRead));
    }

    /** Any timestamp can be pinned; the pin protects it exactly if no watermark has passed it. */
    method PinSnapshot(ts: u64)
      requires Valid()
      modifies this`pins, this`node
      ensures Valid() && Next(old(node), Plain(Action.PinSnapshot(ts)), node)
      ensures node.w.guards == if Safe(old(node).w, ts) then old(node).w.guards + multiset{ts} else old(node).w.guards
    {
      hide Nodes.Inv, Next, ManifestLog.ManifestFile.Valid;
      PlainNext(node, Action.PinSnapshot(ts));
      pins := Pin(pins, ts);
      node := node.(w := Lsm.Step(node.w, Action.PinSnapshot(ts)));
    }

    /** Drops one pin; a timestamp that is not pinned is left alone. */
    method Unpin(ts: u64)
      requires Valid()
      modifies this`pins, this`node
      ensures Valid()
      ensures if ts in old(node).w.guards then Next(old(node), Plain(DropGuard(ts)), node)
              else if ts in old(node).w.loose then Next(old(node), Plain(DropLoose(ts)), node)
              else node == old(node)
    {
      hide Nodes.Inv, Next, ManifestLog.ManifestFile.Valid;
      ghost var next := UnpinNext(node, ts);
      if ts in pins {
        if pins[ts] <= 1 {
          pins := pins - {ts};
        } else {
          pins := pins[ts := pins[ts] - 1];
        }
      }
      node := next;
    }

    method GarbageCollect(mark: u64)
      requires Valid() && mark in node.w.watermarks
      modifies this`node, mem
      ensures Valid() && Next(old(node), Plain(CollectMem(mark)), node)
    {
      hide Nodes.Inv, Next, CollectedAll, ManifestLog.ManifestFile.Valid;
      PlainNext(node, CollectMem(mark));
      mem.GarbageCollect(mark);
      node := node.(w := Lsm.Step(node.w, CollectMem(mark)));
    }

    /** Merges each chunk into one new file, then retires all inputs in one batch of the manifest. */
    method CommitCompaction(inputs: seq<FileId>, source: u32, target: u32, chunks: seq<seq<FileId>>, mark: u64, disk: FileId -> Outcome)
      returns (ghost extras: seq<Extra>)
      requires Valid() && mark in node.w.watermarks && chunks != [] && inputs == Flatten(chunks)
      requires manifest.versionSet.nextFileId + |chunks| <= U64_MAX && InputsOk(files, chunks, source, target)
      modifies this, manifest, counter
      ensures Valid() && mem == old(mem) && manifest == old(manifest)
      ensures manifest.versionSet == old(manifest.versionSet) || fresh(manifest.versionSet)
      ensures Next(old(node), CompactLevels(source, target, chunks, mark, extras), node)
    {
      hide Nodes.Inv, Next, Nodes.Enabled, Dedup, ChunkRows, Outputs, Inputs, Flatten, InputsOk, OutputRows, Built, CompactEdits,
        CompactCounts, WithFiles, ManifestLog.After, ManifestLog.ManifestFile.Valid, ManifestLog.ManifestFile.InStep,
        ManifestLog.AllEncodable, Manifest.Consistent;
      ChosenInFiles(files, chunks, source, target);
      var nextId := manifest.versionSet.nextFileId;
      var outputs, added, caches' := MergeChunks(files, caches, chunks, target, mark, nextId, disk);
      var edits := CompactionBatch(files, manifest.versionSet.levels, chunks, source, target, mark, nextId, outputs, added, inputs);
      extras := added;
      ChunksEnabled(node, source, target, chunks, mark, extras);
      ghost var next := CompactNext(node, source, target, chunks, mark, extras);
      var result := manifest.AppendBatch(edits);
      counter.Compact(files, chunks, mark);
      files := (files - Inputs(chunks)) + outputs;
      caches := WithoutFiles(caches', Inputs(chunks));
      node := next;
    }

    /** Merges two levels in chunks of bounded size, when they hold at least two files. */
    method SubCompact(source: u32, target: u32, mark: u64, disk: FileId -> Outcome)
      returns (done: bool, ghost chunks: seq<seq<FileId>>, ghost extras: seq<Extra>)
      requires Valid() && mark in node.w.watermarks && manifest.versionSet.nextFileId + |files| <= U64_MAX
      modifies this, manifest, counter
      ensures Valid() && mem == old(mem) && manifest == old(manifest)
      ensures manifest.versionSet == old(manifest.versionSet) || fresh(manifest.versionSet)
      ensures done <==> |InLevels(old(files), source, target)| >= 2
      ensures !done ==> node == old(node)
      ensures done ==> Next(old(node), CompactLevels(source, target, chunks, mark, extras), node)
      ensures done ==> IsSplit(old(node).man.members.meta, CompactionInputs(old(node).man.members.levels, source, target),
                               CHUNK_LIMIT, chunks)
    {
      hide Nodes.Inv, CompactionInputs, InLevels, Flatten, ManifestLog.ManifestFile.Valid, Total;
      chunks, extras := [], [];
      ghost var m := node.man.members;
      var inputs := CompactionInputs(manifest.versionSet.levels, source, target);
      NodeMatches(node);
      InputsAreLevels(files, m, source, target);
      if |inputs| < 2 {
        return false, chunks, extras;
      }
      var split := SplitBySize(inputs, manifest.versionSet.meta, CHUNK_LIMIT);
      SplitInputsOk(files, split, inputs, source, target);
      chunks := split;
      extras := CommitCompaction(inputs, source, target, split, mark, disk);
      return true, chunks, extras;
    }

    /** Merges two whole levels into one file of the target level, at the watermark of the moment. */
    method Compact(source: u32, target: u32, disk: FileId -> Outcome)
      returns (done: bool, ghost mark: u64, ghost inputs: seq<FileId>, ghost extras: seq<Extra>)
      requires Valid() && manifest.versionSet.nextFileId < U64_MAX
      modifies this, manifest, counter
      ensures Valid() && mem == old(mem) && manifest == old(manifest)
      ensures manifest.versionSet == old(manifest.versionSet) || fresh(manifest.versionSet)
      ensures done <==> |InLevels(old(files), source, target)| >= 2
      ensures IsWatermark(old(node).w.st, mark) && Nodes.Enabled(old(node), Plain(ComputeWatermark(mark)))
      ensures var marked := Nodes.Step(old(node), Plain(ComputeWatermark(mark)));
              if done then Next(marked, CompactLevels(source, target, [inputs], mark, extras), node) else node == marked
    {
      hide Nodes.Inv, CompactionInputs, InLevels, Flatten, ManifestLog.ManifestFile.Valid, IsWatermark;
      inputs, extras := [], [];
      var w := Watermark();
      mark := w;
      var ids := CompactionInputs(manifest.versionSet.levels, source, target);
      NodeMatches(node);
      InputsAreLevels(files, node.man.members, source, target);
      if |ids| < 2 {
        return false, mark, inputs, extras;
      }
      inputs := ids;
      FlattenOne(inputs);
      SplitInputsOk(files, [inputs], inputs, source, target);
      extras := CommitCompaction(ids, source, target, [ids], w, disk);
      return true, mark, inputs, extras;
    }

    /**
     Opening after a crash that left the first batches of the log: the manifest is read back, memory
     is rebuilt from the files and the log, rows are counted again; pins do not survive.
     */
    method Reopen(left: nat, readable: set<FileId>) returns (sstMax: u64)
      requires Valid() && left <= |wal| && forall m: u64 :: IsSstMax(files, m) ==> m + left < U64_MAX
      modifies this, counter
      ensures Valid() && fresh(mem) && fresh(manifest) && fresh(manifest.versionSet)
      ensures IsSstMax(old(files), sstMax) && Next(old(node), Deed.Reopen(sstMax, left, readable), node)
    {
      hide Nodes.Inv, Next, Replay, IsSstMax, RecoverCounts, StillReadable, ManifestLog.ManifestFile.Valid, Manifest.ApplyAll;
      sstMax := HighestCommit(files);
      ghost var next := ReopenNext(node, sstMax, left, readable);
      var reread := ReadManifest(manifest, node);
      RestoreLog(left, sstMax);
      counter.Recover(files);
      manifest, caches := reread, StillReadable(caches, readable);
      node := next;
    }

    /** The batches left in the log are stamped on from the files' maximum. */
    method RestoreLog(left: nat, sstMax: u64)
      requires left <= |wal| && sstMax + left < U64_MAX
      modifies this`mem, this`commitSeq, this`pins, this`wal
      ensures fresh(mem) && mem.entries == Replay(map[], old(wal)[..left], sstMax)
      ensures commitSeq == sstMax + 1 + left && pins == map[] && wal == old(wal)[..left]
    {
      hide Replay;
      mem := ReplayBatches(wal[..left], sstMax);
      commitSeq := sstMax + 1 + left;
      pins, wal := map[], wal[..left];
    }

    /** A scan at a snapshot held by a live guard, or at the current one. */
    method Scan(lo: Key, hi: Key, s: u64) returns (out: seq<(Key, Value)>)
      requires Valid() && Protected(node.w, s)
      ensures StrictlyAscending(KeysOf(out))
      ensures forall k, v :: (k, v) in out <==> InRange(k, lo, hi) && ReadIs(node.w.hist, k, s, Some(v))
    {
      hide Lsm.Inv, StrictlyAscending, InRange, ReadIs, ManifestLog.ManifestFile.Valid, Described, CountsOk, CachesOk, ManifestLog.Agrees;
      ProtectedAboveFloor(node.w, s);
      out := ScanRange(Store(mem.entries, files, manifest.versionSet.nextFileId, commitSeq, pins, wal), node.w, lo, hi, s);
    }

    /**
     A point lookup at such a snapshot. It returns the newest committed value in the states that `Exact`
     describes; those include every state with at most one file above level 0, no entry for the key in
     the hot-key cache and no indexed file with two versions of it. The lookup may leave an entry there.
     */
    method Get(k: Key, s: u64) returns (o: Option<Value>)
      requires Valid() && Protected(node.w, s)
      modifies this`caches, this`node
      ensures Valid() && (node == old(node) || exists id :: Next(old(node), LookUp(k, s, id), node))
      ensures exists v :: Finds(mem.entries, files, old(caches), k, s, v) && o == if v.Some? then v.value.value else None
      ensures Exact(mem.entries, files, old(caches), k, s) ==> ReadIs(node.w.hist, k, s, o)
      ensures OneLeveled(files) && k !in old(caches).hot && IndexedOnce(files, old(caches).indexes.Keys, k) ==>
                ReadIs(node.w.hist, k, s, o)
    {
      hide Nodes.Inv, Next, ReadIs, Exact, Finds, OneLeveled, IndexedOnce, Heated, ManifestLog.ManifestFile.Valid;
      var heated;
      o, heated := FindValue(mem, files, manifest, caches, k, s, node);
      if heated.Some? {
        LookUpNext(node, k, s, heated.value);
        caches := caches.(hot := Heated(caches.hot, k, heated.value));
        node := node.(caches := caches);
      }
    }
  }

  method FindValue(mem: MemTable, files: Files, manifest: ManifestLog.ManifestFile, c: Caches, k: Key, s: u64, ghost n: Node)
    returns (o: Option<Value>, heated: Option<FileId>)
    requires Nodes.Inv(n) && Protected(n.w, s) && manifest.Valid() && manifest.AsState() == n.man
    requires mem.entries == n.w.st.mem && files == n.w.st.files && c == n.caches
    ensures exists v :: Finds(mem.entries, files, c, k, s, v) && o == if v.Some? then v.value.value else None
    ensures Exact(mem.entries, files, c, k, s) ==> ReadIs(n.w.hist, k, s, o)
    ensures OneLeveled(files) && k !in c.hot && IndexedOnce(files, c.indexes.Keys, k) ==> ReadIs(n.w.hist, k, s, o)
    ensures heated.Some? ==> Heats(mem.entries, files, c, k, s, heated.value)
  {
    hide Lsm.Inv, ReadIs, CountsOk, CachesOk, ManifestLog.Agrees, Matches, Exact, Finds, Heats, OneLeveled, IndexedOnce, OneLeveledHolds,
      ManifestLog.Compact, ManifestLog.Frames, ManifestLog.Encodable, HistFits, LogFits;
    ProtectedAboveFloor(n.w, s);
    if OneLeveled(files) && k !in c.hot && IndexedOnce(files, c.indexes.Keys, k) {
      OneLeveledOneHolds(files, k);
      ExactWhenOnce(n.w, c, k, s);
    }
    o, heated := Lookup.Get(mem, files, n.w, manifest.versionSet, c, k, s);
  }

  lemma LookUpNext(n: Node, k: Key, s: u64, id: FileId)
    requires Nodes.Inv(n) && Heats(n.w.st.mem, n.w.st.files, n.caches, k, s, id)
    ensures var n' := n.(caches := n.caches.(hot := Heated(n.caches.hot, k, id)));
            Next(n, LookUp(k, s, id), n') && Nodes.Inv(n')
  {
    hide Nodes.Inv, Heats, Heated;
    StepKeeps(n, LookUp(k, s, id));
  }

  lemma EncodableKeysFit(batch: Batch)
    requires forall i :: 0 <= i < |batch| ==> Recovery.MutationEncodable(batch[i])
    ensures KeysFit(batch)
  {
    if batch != [] {
      EncodableKeysFit(batch[..|batch| - 1]);
    }
  }

  /** A flush as a step, and that the manifest accepts its batch. */
  lemma FlushNext(n: Node, resetWal: bool, extra: Extra) returns (n': Node)
    requires Nodes.Inv(n) && n.w.st.nextFileId < U64_MAX && Built(extra, Drained(n.w.st.mem))
    ensures Next(n, FlushTo(resetWal, extra), n') && Nodes.Inv(n')
    ensures Drained(n.w.st.mem) == [] ==> n' == n
    ensures Drained(n.w.st.mem) != [] ==>
              var (rows, id) := (Drained(n.w.st.mem), n.w.st.nextFileId);
              var edits := FlushEdits(id, rows, extra);
              && n'.w.st == Store(map[], n.w.st.files[id := Sst(0, rows)], id + 1, n.w.st.commitSeq, n.w.st.pins,
                                  if resetWal then [] else n.w.st.wal)
              && edits != [] && ManifestLog.AllEncodable(edits)
              && n'.man == ManifestLog.After(n.man, ManifestLog.Batch(edits)) && n'.man.members.nextFileId == id + 1
              && n'.caches == WithFile(n.caches, id, extra) && n'.counts == FlushCounts(n.counts, rows)
  {
    hide Lsm.Inv, HistFits, LogFits, Drained, Matches, CachesOk, CountsOk, ManifestLog.Agrees, ManifestLog.After, Built,
      WithFile, FlushCounts;
    StepKeeps(n, FlushTo(resetWal, extra));
    n' := Nodes.Step(n, FlushTo(resetWal, extra));
    if Drained(n.w.st.mem) != [] {
      FlushAccepted(n, extra);
    }
  }

  /** The manifest accepts the batch of a flush. */
  lemma FlushAccepted(n: Node, extra: Extra)
    requires Nodes.Inv(n) && n.w.st.nextFileId < U64_MAX
    ensures var edits := FlushEdits(n.w.st.nextFileId, Drained(n.w.st.mem), extra);
            edits != [] && ManifestLog.AllEncodable(edits)
  {
    hide Lsm.Inv, HistFits, Drained, FileOk, RowsFit, Described, CachesOk, CountsOk, ManifestLog.Agrees, ManifestLog.NextLog, Tracks;
    var rows, id := Drained(n.w.st.mem), n.w.st.nextFileId;
    WorldFiles(n.w);
    FileRowsFit(rows, n.w.hist, SnapshotTs(n.w.st));
    FlushTracks(n.w.st.files, n.man.members, id, rows, extra);
    TracksAccepted(n.w.st.files[id := Sst(0, rows)], id + 1, n.man.members, FlushEdits(id, rows, extra));
  }

  /** A compaction as a step, and that the manifest accepts its batch. */
  lemma CompactNext(n: Node, source: u32, target: u32, chunks: seq<seq<FileId>>, mark: u64, extras: seq<Extra>) returns (n': Node)
    requires ChunksOk(n.w.st.files, chunks) && chunks != [] && |extras| == |chunks|
    requires n.w.st.nextFileId + |chunks| <= U64_MAX && IdsFit(Flatten(chunks))
    requires Nodes.Inv(n) && Nodes.Enabled(n, CompactLevels(source, target, chunks, mark, extras))
    ensures Next(n, CompactLevels(source, target, chunks, mark, extras), n') && Nodes.Inv(n')
    ensures Compacted(n, source, target, chunks, mark, extras, n')
  {
    hide Lsm.Inv, HistFits, LogFits, Matches, CachesOk, CountsOk, ManifestLog.Agrees, ManifestLog.After, Built, WithFiles,
      CompactCounts, CompactFiles, CompactEdits, Inputs, OutputRows, InputsOk, Flatten;
    StepKeeps(n, CompactLevels(source, target, chunks, mark, extras));
    n' := Nodes.Step(n, CompactLevels(source, target, chunks, mark, extras));
    CompactionAccepted(n, source, target, chunks, mark, extras);
  }

  /** What a compaction makes of each part of the node. */
  ghost predicate Compacted(n: Node, source: u32, target: u32, chunks: seq<seq<FileId>>, mark: u64, extras: seq<Extra>, n': Node)
    requires ChunksOk(n.w.st.files, chunks) && chunks != [] && |extras| == |chunks|
    requires n.w.st.nextFileId + |chunks| <= U64_MAX && IdsFit(Flatten(chunks))
  {
    var files, id := n.w.st.files, n.w.st.nextFileId;
    var edits := CompactEdits(files, n.man.members.levels, chunks, source, target, mark, id, extras);
    && n'.w.st == n.w.st.(files := CompactFiles(files, chunks, target, mark, id), nextFileId := id + |chunks|)
    && edits != [] && ManifestLog.AllEncodable(edits)
    && n'.man == ManifestLog.After(n.man, ManifestLog.Batch(edits)) && n'.man.members.nextFileId == id + |chunks|
    && n'.caches == WithoutFiles(WithFiles(n.caches, id, extras), Inputs(chunks))
    && n'.counts == CompactCounts(n.counts, files, chunks, mark)
  }

  /** The manifest accepts the batch of a compaction. */
  lemma CompactionAccepted(n: Node, source: u32, target: u32, chunks: seq<seq<FileId>>, mark: u64, extras: seq<Extra>)
    requires Nodes.Inv(n) && Nodes.Enabled(n, CompactLevels(source, target, chunks, mark, extras))
    ensures var edits := CompactEdits(n.w.st.files, n.man.members.levels, chunks, source, target, mark, n.w.st.nextFileId, extras);
            edits != [] && ManifestLog.AllEncodable(edits)
  {
    hide Lsm.Inv, HistFits, FileOk, Described, CachesOk, CountsOk, ManifestLog.Agrees, ManifestLog.NextLog, Built, OutputRows, InputsOk,
      Flatten, AddEdits, DeleteEdits, CompactFiles, Tracks;
    WorldFiles(n.w);
    var files, id := n.w.st.files, n.w.st.nextFileId;
    ChosenInFiles(files, chunks, source, target);
    CompactTracks(files, n.man.members, chunks, source, target, mark, id, extras, n.w.hist, n.w.flushed);
    TracksAccepted(CompactFiles(files, chunks, target, mark, id), id + |chunks|, n.man.members,
                   CompactEdits(files, n.man.members.levels, chunks, source, target, mark, id, extras));
  }

  lemma TracksAccepted(files: Files, next: FileId, m: Members, edits: seq<Edit>)
    requires Tracks(files, next, m, edits)
    ensures ManifestLog.AllEncodable(edits)
  {
    hide Matches, Manifest.ApplyAll, Manifest.Proper;
  }

  lemma PlainNext(n: Node, a: Action)
    requires Nodes.Inv(n) && Nodes.Enabled(n, Plain(a))
    ensures Lsm.Enabled(n.w, a)
    ensures var n' := n.(w := Lsm.Step(n.w, a)); Next(n, Plain(a), n') && Nodes.Inv(n')
  {
    hide Nodes.Inv, Lsm.Step, Lsm.Enabled;
    StepKeeps(n, Plain(a));
  }

  lemma PinnedIsHeld(n: Node, ts: u64)
    requires Nodes.Inv(n)
    ensures ts in n.w.st.pins <==> ts in n.w.guards || ts in n.w.loose
  {
    hide HistOk, MemOk, FilesOk, MarksOk, LogOk, DiskOk, Described, CachesOk, CountsOk, ManifestLog.Agrees;
    assert (n.w.guards + n.w.loose)[ts] == n.w.guards[ts] + n.w.loose[ts];
  }

  lemma UnpinNext(n: Node, ts: u64) returns (n': Node)
    requires Nodes.Inv(n)
    ensures Nodes.Inv(n') && n' == n.(w := n'.w) && n'.w.st == n.w.st.(pins := Lsm.Unpin(n.w.st.pins, ts))
    ensures if ts in n.w.guards then Next(n, Plain(DropGuard(ts)), n')
            else if ts in n.w.loose then Next(n, Plain(DropLoose(ts)), n')
            else n' == n
  {
    hide Nodes.Inv, Next;
    PinnedIsHeld(n, ts);
    n' := n;
    if ts in n.w.guards {
      PlainNext(n, DropGuard(ts));
      n' := n.(w := Lsm.Step(n.w, DropGuard(ts)));
    } else if ts in n.w.loose {
      PlainNext(n, DropLoose(ts));
      n' := n.(w := Lsm.Step(n.w, DropLoose(ts)));
    }
  }

  lemma ChunksEnabled(n: Node, source: u32, target: u32, chunks: seq<seq<FileId>>, mark: u64, extras: seq<Extra>)
    requires mark in n.w.watermarks && chunks != [] && |extras| == |chunks| && n.w.st.nextFileId + |chunks| <= U64_MAX
    requires ChunksOk(n.w.st.files, chunks) && InputsOk(n.w.st.files, chunks, source, target)
    requires forall i :: 0 <= i < |chunks| ==> Built(extras[i], OutputRows(n.w.st.files, chunks, mark, i))
    ensures Nodes.Enabled(n, CompactLevels(source, target, chunks, mark, extras))
  {
    hide InputsOk, Built, OutputRows;
  }

  lemma ChosenInFiles(files: Files, chunks: seq<seq<FileId>>, source: u32, target: u32)
    requires InputsOk(files, chunks, source, target)
    ensures ChunksOk(files, chunks) && IdsFit(Flatten(chunks))
  {
    hide Flatten;
    FlattenedInFiles(files, chunks);
  }

  lemma SplitInputsOk(files: Files, chunks: seq<seq<FileId>>, inputs: seq<FileId>, source: u32, target: u32)
    requires Flatten(chunks) == inputs && |inputs| >= 2 && NoRepeats(inputs) && IdsFit(inputs)
    requires forall id :: id in inputs <==> id in InLevels(files, source, target)
    ensures chunks != [] && InputsOk(files, chunks, source, target)
  {
  }

  lemma FlattenOne(inputs: seq<FileId>)
    ensures Flatten([inputs]) == inputs
  {
    assert [inputs][..0] == [];
    assert [] + inputs == inputs;
  }

  lemma ManifestReadsBack(n: Node)
    requires Nodes.Inv(n)
    ensures ManifestLog.AllEncodable(n.man.log) && ManifestLog.ReadFile(ManifestLog.Frames(n.man.log)) == Ok(n.man.log)
  {
    hide Lsm.Inv, Described, CachesOk, CountsOk, ManifestLog.ReadFile, ManifestLog.Fine, Manifest.ApplyAll;
    ManifestLog.FileRoundTrip(n.man.log);
  }

  method ReadManifest(manifest: ManifestLog.ManifestFile, ghost n: Node) returns (reread: ManifestLog.ManifestFile)
    requires manifest.Valid() && manifest.AsState() == n.man && Nodes.Inv(n)
    ensures fresh(reread) && fresh(reread.versionSet) && reread.Valid()
    ensures reread.AsState() == ManifestLog.State(n.man.log, |n.man.log|, Manifest.ApplyAll(Manifest.EMPTY, n.man.log))
  {
    hide Nodes.Inv, ManifestLog.ReadFile, ManifestLog.Frames, Manifest.ApplyAll, ManifestLog.Encodable, ManifestLog.Compact;
    ManifestReadsBack(n);
    var result := ManifestLog.ManifestFile.Open(manifest.file);
    reread := result.value;
  }

  lemma ReopenNext(n: Node, sstMax: u64, left: nat, readable: set<FileId>) returns (n': Node)
    requires Nodes.Inv(n) && IsSstMax(n.w.st.files, sstMax) && left <= |n.w.st.wal| && sstMax + left < U64_MAX
    ensures Next(n, Deed.Reopen(sstMax, left, readable), n') && Nodes.Inv(n')
    ensures n'.w.st == Store(Replay(map[], n.w.st.wal[..left], sstMax), n.w.st.files, n.w.st.nextFileId, sstMax + 1 + left, map[],
                             n.w.st.wal[..left])
    ensures n'.man == ManifestLog.State(n.man.log, |n.man.log|, Manifest.ApplyAll(Manifest.EMPTY, n.man.log))
    ensures n'.man.members.nextFileId == n.w.st.nextFileId
    ensures n'.caches == StillReadable(n.caches, readable) && n'.counts == RecoverCounts(n.w.st.files)
  {
    hide Lsm.Inv, Matches, CachesOk, CountsOk, ManifestLog.ReadFile, ManifestLog.Fine, Manifest.ApplyAll, IsSstMax, RecoverCounts,
      ManifestLog.After, StampAll, Replay, Upto, ManifestLog.Printable, Manifest.Consistent, StillReadable, HistFits, LogFits;
    StepKeeps(n, Deed.Reopen(sstMax, left, readable));
    ReopenFollows(n.man);
    n' := Nodes.Step(n, Deed.Reopen(sstMax, left, readable));
  }

  /** Replays the batches of the log in order, stamped from `base` on, into a new memtable. */
  method ReplayBatches(wal: seq<Batch>, base: nat) returns (mem: MemTable)
    requires base + |wal| <= U64_MAX
    ensures fresh(mem) && mem.entries == Replay(map[], wal, base)
  {
    hide Applied;
    mem := new MemTable();
    for i := 0 to |wal|
      invariant mem.entries == Replay(map[], wal[..i], base)
    {
      assert wal[..i + 1][..i] == wal[..i];
      mem.ApplyMutationsBatch(wal[i], base + 1 + i);
    }
    assert wal[..|wal|] == wal;
  }

  /** The highest commit timestamp in any file, zero if there is none. */
  method HighestCommit(files: Files) returns (m: u64)
    ensures IsSstMax(files, m)
  {
    var ids := InOrder(files.Keys);
    m := 0;
    for i := 0 to |ids|
      invariant forall id, r :: id in ids[..i] && id in files && r in files[id].rows ==> r.version.beginTs <= m
      invariant m == 0 || exists id, r :: id in files && r in files[id].rows && r.version.beginTs == m
    {
      var id := ids[i];
      assert id in ids && ids[..i + 1] == ids[..i] + [id];
      var rows := files[id].rows;
      for j := 0 to |rows|
        invariant forall id, r :: id in ids[..i] && id in files && r in files[id].rows ==> r.version.beginTs <= m
        invariant forall r :: r in rows[..j] ==> r.version.beginTs <= m
        invariant m == 0 || exists id, r :: id in files && r in files[id].rows && r.version.beginTs == m
      {
        assert rows[..j + 1] == rows[..j] + [rows[j]];
        if rows[j].version.beginTs > m {
          m := rows[j].version.beginTs;
          assert rows[j] in files[id].rows;
        }
      }
      assert rows[..|rows|] == rows;
    }
    assert ids[..|ids|] == ids;
  }

  method ReadChunk(files: Files, chunk: seq<FileId>) returns (rows: seq<Row>)
    requires forall j :: 0 <= j < |chunk| ==> chunk[j] in files
    ensures rows == ChunkRows(files, chunk)
  {
    rows := [];
    for j := 0 to |chunk|
      invariant rows == ChunkRows(files, chunk[..j])
    {
      assert chunk[..j + 1][..j] == chunk[..j];
      rows := rows + files[chunk[j]].rows;
    }
    assert chunk[..|chunk|] == chunk;
  }

  lemma NoOutputs(files: Files, level: nat, mark: u64, nextId: FileId)
    ensures Outputs(files, [], level, mark, nextId) == map[]
  {
  }

  lemma OutputsNext(files: Files, chunks: seq<seq<FileId>>, i: nat, level: nat, mark: u64, nextId: FileId)
    requires ChunksOk(files, chunks) && i < |chunks|
    ensures ChunksOk(files, chunks[..i]) && ChunksOk(files, chunks[..i + 1])
    ensures Outputs(files, chunks[..i + 1], level, mark, nextId)
         == Outputs(files, chunks[..i], level, mark, nextId)[nextId + i := Sst(level, Dedup(ChunkRows(files, chunks[i]), mark))]
  {
    hide Dedup, ChunkRows;
    assert chunks[..i + 1][..i] == chunks[..i];
  }
}
