/**
 The store together with its manifest, its caches and its row counts.

 Flush and compaction write files, append a batch of edits to the manifest, build filters and key
 indexes and adjust the counts; opening replays the manifest and counts again. In every run the
 manifest describes the files, filters and indexes are those of their files, and the counts are a recount.
 */
module Nodes {
  import opened Bytes
  import opened Sequences
  import opened Version
  import opened Compaction
  import opened Memtable
  import opened Lsm
  import opened Reads
  import opened Lookup
  import opened RowCounts
  import opened VersionSets
  import KeyIndexes
  import Bloom
  import Manifest
  import ManifestLog

  type Members = Manifest.Members
  type Edit = Manifest.Edit

  datatype Node = Node(w: World, man: ManifestLog.State, caches: Caches, counts: Counts)

  const NEW := Node(FRESH, ManifestLog.State([], 0, Manifest.EMPTY), NO_CACHES, NO_COUNTS)

  /** What a written file has besides its rows: its size, its time, and its filter and key index unless they could not be stored. */
  datatype Extra = Extra(bytes: u64, createdAt: u64, filter: Option<Bloom.Filter>, index: Option<KeyIndexes.Index>)

  datatype Deed =
    | Plain(a: Action)
    | FlushTo(resetWal: bool, extra: Extra)
    | CompactLevels(source: u32, target: u32, chunks: seq<seq<FileId>>, mark: u64, extras: seq<Extra>)
    | LookUp(key: Key, snapshot: u64, heated: FileId)
    | Reopen(sstMax: u64, left: nat, readable: set<FileId>)

  ghost predicate Built(extra: Extra, rows: seq<Row>) {
    && (extra.filter.Some? ==> extra.filter.value.Valid() && forall r :: r in rows ==> extra.filter.value.MayContain(r.key))
    && (extra.index.Some? ==> KeyIndexes.Indexes(extra.index.value, rows))
  }

  /** Keys that the log accepts. */
  predicate KeysFit(batch: Batch) {
    forall k :: k in Updates(batch) ==> |k| <= U32_MAX
  }

  /** The rows that chunk `i` is merged into. */
  function OutputRows(files: Files, chunks: seq<seq<FileId>>, mark: u64, i: nat): seq<Row>
    requires ChunksOk(files, chunks) && i < |chunks|
  {
    Dedup(ChunkRows(files, chunks[i]), mark)
  }

  /** The inputs of a compaction are all files of two levels, each once. */
  ghost predicate InputsOk(files: Files, chunks: seq<seq<FileId>>, source: u32, target: u32) {
    && NoRepeats(Flatten(chunks))
    && (forall id :: id in Flatten(chunks) <==> id in files && (files[id].level == source || files[id].level == target))
    && IdsFit(Flatten(chunks))
  }

  predicate IdsFit(ids: seq<FileId>) {
    forall j :: 0 <= j < |ids| ==> ids[j] <= U64_MAX
  }

  ghost predicate Enabled(n: Node, d: Deed) {
    match d
    case Plain(a) =>
      Lsm.Enabled(n.w, a) && !a.Flush? && !a.Compact? && !a.CrashAndReopen? && (a.Commit? ==> KeysFit(a.batch))
    case FlushTo(_, extra) => n.w.st.nextFileId < U64_MAX && Built(extra, Drained(n.w.st.mem))
    case CompactLevels(source, target, chunks, mark, extras) =>
      && Lsm.Enabled(n.w, Compact(chunks, target, mark)) && chunks != [] && |extras| == |chunks|
      && n.w.st.nextFileId + |chunks| <= U64_MAX
      && InputsOk(n.w.st.files, chunks, source, target)
      && forall i :: 0 <= i < |chunks| ==> Built(extras[i], OutputRows(n.w.st.files, chunks, mark, i))
    case LookUp(k, s, id) => Heats(n.w.st.mem, n.w.st.files, n.caches, k, s, id)
    case Reopen(sstMax, left, _) => Lsm.Enabled(n.w, CrashAndReopen(sstMax, left))
  }

  // ---- Manifest edits ----

  function MetaOf(rows: seq<Row>, extra: Extra): Manifest.Meta {
    Manifest.Meta(MinKey(rows), MaxKey(rows), extra.bytes, extra.createdAt)
  }

  function FlushEdits(id: u64, rows: seq<Row>, extra: Extra): seq<Edit> {
    [Manifest.AddFile(id, 0, MetaOf(rows, extra)), Manifest.NextFileId(Manifest.Succ(id))]
  }

  function AddEdits(files: Files, chunks: seq<seq<FileId>>, target: u32, mark: u64, nextId: FileId, extras: seq<Extra>): seq<Edit>
    requires ChunksOk(files, chunks) && |extras| == |chunks| && nextId + |chunks| <= U64_MAX
  {
    if chunks == [] then []
    else
      var i := |chunks| - 1;
      AddEdits(files, chunks[..i], target, mark, nextId, extras[..i])
      + [Manifest.AddFile(nextId + i, target, MetaOf(OutputRows(files, chunks, mark, i), extras[i]))]
  }

  /** The level an input is deleted from. */
  function LevelOf(levels: Manifest.Levels, id: u64, source: u32, target: u32): u32 {
    if Manifest.InLevel(levels, source, id) then source else target
  }

  function DeleteEdits(levels: Manifest.Levels, inputs: seq<FileId>, source: u32, target: u32): seq<Edit>
    requires IdsFit(inputs)
  {
    if inputs == [] then []
    else
      var id: u64 := inputs[|inputs| - 1];
      DeleteEdits(levels, inputs[..|inputs| - 1], source, target) + [Manifest.DeleteFile(id, LevelOf(levels, id, source, target))]
  }

  /** Outputs become visible before inputs are retired, in one batch. */
  function CompactEdits(files: Files, levels: Manifest.Levels, chunks: seq<seq<FileId>>, source: u32, target: u32, mark: u64,
                        nextId: FileId, extras: seq<Extra>): seq<Edit>
    requires ChunksOk(files, chunks) && chunks != [] && |extras| == |chunks| && nextId + |chunks| <= U64_MAX
    requires IdsFit(Flatten(chunks))
  {
    AddEdits(files, chunks, target, mark, nextId, extras)
    + [Manifest.NextFileId(Manifest.Succ(nextId + |chunks| - 1))]
    + DeleteEdits(levels, Flatten(chunks), source, target)
  }

  // ---- Caches ----

  function WithFile(c: Caches, id: FileId, extra: Extra): Caches {
    c.(filters := if extra.filter.Some? then c.filters[id := extra.filter.value] else c.filters,
       indexes := if extra.index.Some? then c.indexes[id := extra.index.value] else c.indexes)
  }

  function WithFiles(c: Caches, nextId: FileId, extras: seq<Extra>): Caches {
    if extras == [] then c
    else WithFile(WithFiles(c, nextId, extras[..|extras| - 1]), nextId + |extras| - 1, extras[|extras| - 1])
  }

  /** Entries of the hot-key cache outlive their files. */
  function WithoutFiles(c: Caches, ids: set<FileId>): Caches {
    c.(filters := c.filters - ids, indexes := c.indexes - ids)
  }

  /** After a restart: the filters and indexes that can be read from their files, which are those written
      before (`IndexReadsBack`). */
  function StillReadable(c: Caches, readable: set<FileId>): Caches {
    Caches(map id | id in c.filters && id in readable :: c.filters[id],
           map id | id in c.indexes && id in readable :: c.indexes[id],
           map[])
  }

  // ---- Steps ----

  ghost function Step(n: Node, d: Deed): Node
    requires Enabled(n, d)
  {
    match d
    case Plain(a) => n.(w := Lsm.Step(n.w, a))
    case FlushTo(resetWal, extra) =>
      var rows, id := Drained(n.w.st.mem), n.w.st.nextFileId;
      if rows == [] then n
      else Node(Lsm.Step(n.w, Flush(resetWal)), ManifestLog.After(n.man, ManifestLog.Batch(FlushEdits(id, rows, extra))),
                WithFile(n.caches, id, extra), FlushCounts(n.counts, rows))
    case CompactLevels(source, target, chunks, mark, extras) =>
      var files, id := n.w.st.files, n.w.st.nextFileId;
      var edits := CompactEdits(files, n.man.members.levels, chunks, source, target, mark, id, extras);
      Node(Lsm.Step(n.w, Compact(chunks, target, mark)), ManifestLog.After(n.man, ManifestLog.Batch(edits)),
           WithoutFiles(WithFiles(n.caches, id, extras), Inputs(chunks)), CompactCounts(n.counts, files, chunks, mark))
    case LookUp(k, _, id) => n.(caches := n.caches.(hot := Heated(n.caches.hot, k, id)))
    case Reopen(sstMax, left, readable) =>
      Node(Lsm.Step(n.w, CrashAndReopen(sstMax, left)), ManifestLog.After(n.man, ManifestLog.Reopen),
           StillReadable(n.caches, readable), RecoverCounts(n.w.st.files))
  }

  ghost predicate Next(n: Node, d: Deed, n': Node) {
    Enabled(n, d) && n' == Step(n, d)
  }

  // ---- The invariant ----

  ghost predicate HistFits(hist: Versions) {
    forall k, t: u64 :: (k, t) in hist ==> |k| <= U32_MAX
  }

  ghost predicate LogFits(log: seq<Batch>) {
    forall i :: 0 <= i < |log| ==> KeysFit(log[i])
  }

  ghost predicate Described(files: Files, m: Members, next: FileId) {
    Matches(files, m.levels, m.meta) && m.nextFileId == next
  }

  ghost predicate Inv(n: Node) {
    && Lsm.Inv(n.w)
    && HistFits(n.w.hist) && LogFits(n.w.log)
    && ManifestLog.Agrees(n.man) && Described(n.w.st.files, n.man.members, n.w.st.nextFileId)
    && CachesOk(n.w.st.files, n.caches)
    && CountsOk(n.w.st.files, n.counts)
  }

  lemma NodeMatches(n: Node)
    requires Inv(n)
    ensures Matches(n.w.st.files, n.man.members.levels, n.man.members.meta)
  {
    hide Lsm.Inv, Matches, CachesOk, CountsOk, ManifestLog.Agrees;
  }

  // ---- Edits follow files ----

  ghost predicate RowsFit(rows: seq<Row>) {
    forall r :: r in rows ==> |r.key| <= U32_MAX
  }

  lemma BoundsFit(rows: seq<Row>, extra: Extra)
    requires RowsFit(rows)
    ensures |MinKey(rows)| <= U32_MAX && |MaxKey(rows)| <= U32_MAX
  {
    if rows != [] {
      assert rows[0] in rows && rows[|rows| - 1] in rows;
    }
  }

  lemma MatchesAdd(files: Files, m: Members, id: u64, sst: Sst, extra: Extra)
    requires Matches(files, m.levels, m.meta) && id !in files && sst.level <= U32_MAX
    ensures var m' := Manifest.ApplyEdit(m, Manifest.AddFile(id, sst.level, MetaOf(sst.rows, extra)));
            Matches(files[id := sst], m'.levels, m'.meta)
  {
    var level: u32 := sst.level;
    var m' := Manifest.ApplyEdit(m, Manifest.AddFile(id, level, MetaOf(sst.rows, extra)));
    forall x: u64, l: u32
      ensures Manifest.InLevel(m'.levels, l, x) <==> Manifest.InLevel(m.levels, l, x) || (l == level && x == id)
    {
    }
    hide Manifest.ApplyEdit, Manifest.InLevel;
    assert !Manifest.InLevel(m.levels, level, id);
  }

  lemma MatchesDelete(files: Files, m: Members, id: u64)
    requires Matches(files, m.levels, m.meta) && id in files
    ensures files[id].level <= U32_MAX
    ensures var e := Manifest.DeleteFile(id, files[id].level);
            var m' := Manifest.ApplyEdit(m, e);
            Manifest.Proper(m, e) && Matches(files - {id}, m'.levels, m'.meta)
  {
    var level: u32 := files[id].level;
    var m' := Manifest.ApplyEdit(m, Manifest.DeleteFile(id, level));
    hide Manifest.InLevel, Manifest.Without;
    forall x: u64, l: u32
      ensures Manifest.InLevel(m'.levels, l, x) <==> Manifest.InLevel(m.levels, l, x) && !(l == level && x == id)
    {
      Manifest.WithoutIn(m.levels, level, id, l, x);
    }
  }

  /** The edits are well formed for `m` and lead to a description of `files`. */
  ghost predicate Tracks(files: Files, next: FileId, m: Members, edits: seq<Edit>) {
    ManifestLog.WellFormed(m, edits) && Described(files, Manifest.ApplyAll(m, edits), next)
  }

  lemma WellFormedNext(m: Members, edits: seq<Edit>, e: Edit)
    requires ManifestLog.WellFormed(m, edits) && ManifestLog.Fine(e) && Manifest.Proper(Manifest.ApplyAll(m, edits), e)
    ensures ManifestLog.WellFormed(m, edits + [e])
  {
    hide Manifest.Proper, ManifestLog.Fine, Manifest.ApplyAll;
    forall i | 0 <= i < |edits + [e]|
      ensures Manifest.Proper(Manifest.ApplyAll(m, (edits + [e])[..i]), (edits + [e])[i])
    {
      assert (edits + [e])[..i] == edits[..i];
      if i == |edits| {
        assert edits[..i] == edits;
      }
    }
  }

  lemma FineAdd(id: u64, level: u32, rows: seq<Row>, extra: Extra)
    requires RowsFit(rows)
    ensures ManifestLog.Fine(Manifest.AddFile(id, level, MetaOf(rows, extra)))
  {
    BoundsFit(rows, extra);
  }

  lemma DescribedAdd(files: Files, m: Members, id: u64, sst: Sst, extra: Extra)
    requires Described(files, m, id) && id < U64_MAX && id !in files && sst.level <= U32_MAX
    ensures Described(files[id := sst], Manifest.ApplyEdit(m, Manifest.AddFile(id, sst.level, MetaOf(sst.rows, extra))), id + 1)
  {
    MatchesAdd(files, m, id, sst, extra);
    hide Matches;
  }

  lemma TracksAdd(files: Files, m: Members, edits: seq<Edit>, id: u64, sst: Sst, extra: Extra)
    requires Tracks(files, id, m, edits) && id < U64_MAX && id !in files && sst.level <= U32_MAX && RowsFit(sst.rows)
    ensures Tracks(files[id := sst], id + 1, m, edits + [Manifest.AddFile(id, sst.level, MetaOf(sst.rows, extra))])
  {
    hide Described, ManifestLog.WellFormed, Manifest.ApplyAll, Manifest.ApplyEdit, ManifestLog.Fine, RowsFit, MetaOf;
    var e := Manifest.AddFile(id, sst.level, MetaOf(sst.rows, extra));
    FineAdd(id, sst.level, sst.rows, extra);
    DescribedAdd(files, Manifest.ApplyAll(m, edits), id, sst, extra);
    Manifest.ApplyNext(m, edits, e);
    WellFormedNext(m, edits, e);
  }

  lemma DescribedNext(files: Files, next: FileId, m: Members, v: u64)
    requires Described(files, m, next) && v <= next
    ensures Described(files, Manifest.ApplyEdit(m, Manifest.NextFileId(v)), next)
  {
    hide Matches;
  }

  lemma TracksNext(files: Files, next: FileId, m: Members, edits: seq<Edit>, v: u64)
    requires Tracks(files, next, m, edits) && v <= next
    ensures Tracks(files, next, m, edits + [Manifest.NextFileId(v)])
  {
    hide Described, ManifestLog.WellFormed, Manifest.ApplyAll, Manifest.ApplyEdit;
    DescribedNext(files, next, Manifest.ApplyAll(m, edits), v);
    Manifest.ApplyNext(m, edits, Manifest.NextFileId(v));
    WellFormedNext(m, edits, Manifest.NextFileId(v));
  }

  lemma DescribedDelete(files: Files, next: FileId, m: Members, id: u64)
    requires Described(files, m, next) && id in files
    ensures files[id].level <= U32_MAX
    ensures var e := Manifest.DeleteFile(id, files[id].level);
            Manifest.Proper(m, e) && Described(files - {id}, Manifest.ApplyEdit(m, e), next)
  {
    MatchesDelete(files, m, id);
    hide Matches;
  }

  lemma TracksDelete(files: Files, next: FileId, m: Members, edits: seq<Edit>, id: u64)
    requires Tracks(files, next, m, edits) && id in files
    ensures files[id].level <= U32_MAX
    ensures Tracks(files - {id}, next, m, edits + [Manifest.DeleteFile(id, files[id].level)])
  {
    hide Described, ManifestLog.WellFormed, Manifest.ApplyAll, Manifest.ApplyEdit, Manifest.Proper;
    DescribedDelete(files, next, Manifest.ApplyAll(m, edits), id);
    var e := Manifest.DeleteFile(id, files[id].level);
    Manifest.ApplyNext(m, edits, e);
    WellFormedNext(m, edits, e);
  }

  lemma TracksNothing(files: Files, next: FileId, m: Members)
    requires Described(files, m, next)
    ensures Tracks(files, next, m, [])
  {
    hide Matches;
  }

  // ---- Flush ----

  lemma FlushTracks(files: Files, m: Members, id: FileId, rows: seq<Row>, extra: Extra)
    requires Described(files, m, id) && id < U64_MAX && id !in files && RowsFit(rows)
    ensures Tracks(files[id := Sst(0, rows)], id + 1, m, FlushEdits(id, rows, extra))
  {
    hide Described, Tracks, MetaOf;
    var add := Manifest.AddFile(id, 0, MetaOf(rows, extra));
    TracksNothing(files, id, m);
    TracksAdd(files, m, [], id, Sst(0, rows), extra);
    assert [] + [add] == [add];
    TracksNext(files[id := Sst(0, rows)], id + 1, m, [add], Manifest.Succ(id));
    assert FlushEdits(id, rows, extra) == [add] + [Manifest.NextFileId(Manifest.Succ(id))];
  }

  // ---- Compaction ----

  lemma FileRowsFit(rows: seq<Row>, hist: Versions, flushed: u64)
    requires FileOk(rows, hist, flushed) && HistFits(hist)
    ensures RowsFit(rows)
  {
    hide StrictlySorted;
    forall r | r in rows
      ensures |r.key| <= U32_MAX
    {
      assert RowOk(r, hist, flushed);
    }
  }

  lemma {:induction false} AddsTrack(files: Files, m: Members, chunks: seq<seq<FileId>>, target: u32, mark: u64, nextId: FileId,
                                     extras: seq<Extra>, hist: Versions, flushed: u64)
    requires ChunksOk(files, chunks) && |extras| == |chunks| && nextId + |chunks| <= U64_MAX
    requires Described(files, m, nextId) && (forall id :: id in files ==> id < nextId)
    requires HistFits(hist) && forall id :: id in files ==> FileOk(files[id].rows, hist, flushed)
    ensures Tracks(files + Outputs(files, chunks, target, mark, nextId), nextId + |chunks|, m,
                   AddEdits(files, chunks, target, mark, nextId, extras))
  {
    hide Described, Tracks, FileOk, HistFits, Dedup, ChunkRows, MetaOf, RowsFit;
    if chunks == [] {
      TracksNothing(files, nextId, m);
      assert files + map[] == files;
    } else {
      var n := |chunks| - 1;
      var front := Outputs(files, chunks[..n], target, mark, nextId);
      var sst := Sst(target, OutputRows(files, chunks, mark, n));
      AddsTrack(files, m, chunks[..n], target, mark, nextId, extras[..n], hist, flushed);
      OutputsMembers(files, chunks[..n], target, mark, nextId);
      OutputRowsFit(files, chunks, mark, n, hist, flushed);
      TracksAdd(files + front, m, AddEdits(files, chunks[..n], target, mark, nextId, extras[..n]), nextId + n, sst, extras[n]);
      assert files + front[nextId + n := sst] == (files + front)[nextId + n := sst];
    }
  }

  lemma OutputRowsFit(files: Files, chunks: seq<seq<FileId>>, mark: u64, i: nat, hist: Versions, flushed: u64)
    requires ChunksOk(files, chunks) && i < |chunks|
    requires HistFits(hist) && forall id :: id in files ==> FileOk(files[id].rows, hist, flushed)
    ensures RowsFit(OutputRows(files, chunks, mark, i))
  {
    hide FileOk, HistFits, Dedup, ChunkRows, RowsFit, RowOk;
    ChunkRowsOk(files, chunks[i], hist, flushed);
    MergedFileOk(ChunkRows(files, chunks[i]), hist, flushed, mark);
    FileRowsFit(OutputRows(files, chunks, mark, i), hist, flushed);
  }

  /** Each input is deleted from the level it is in. */
  ghost predicate LevelsRight(base: Files, levels: Manifest.Levels, inputs: seq<FileId>, source: u32, target: u32) {
    forall j :: 0 <= j < |inputs| ==>
      inputs[j] <= U64_MAX && inputs[j] in base && LevelOf(levels, inputs[j], source, target) == base[inputs[j]].level
  }

  lemma {:induction false} DeletesTrack(base: Files, next: FileId, m: Members, edits: seq<Edit>, levels: Manifest.Levels,
                                        inputs: seq<FileId>, source: u32, target: u32)
    requires Tracks(base, next, m, edits) && NoRepeats(inputs) && LevelsRight(base, levels, inputs, source, target)
    ensures Tracks(base - SetOf(inputs), next, m, edits + DeleteEdits(levels, inputs, source, target))
  {
    hide Tracks, LevelOf;
    if inputs == [] {
      assert base - SetOf(inputs) == base;
      assert edits + [] == edits;
    } else {
      var front, id: u64 := inputs[..|inputs| - 1], inputs[|inputs| - 1];
      LastNotInFront(inputs);
      DeletesTrack(base, next, m, edits, levels, front, source, target);
      var so := DeleteEdits(levels, front, source, target);
      TracksDelete(base - SetOf(front), next, m, edits + so, id);
      var delete := Manifest.DeleteFile(id, base[id].level);
      Regroup(edits, so, [delete]);
      assert base - SetOf(front) - {id} == base - SetOf(inputs) by {
        assert inputs == front + [id];
      }
    }
  }

  lemma LevelIsRight(files: Files, m: Members, id: u64, source: u32, target: u32)
    requires Matches(files, m.levels, m.meta) && id in files
    requires files[id].level == source || files[id].level == target
    ensures LevelOf(m.levels, id, source, target) == files[id].level
  {
    hide Manifest.InLevel;
  }

  lemma CompactTracks(files: Files, m: Members, chunks: seq<seq<FileId>>, source: u32, target: u32, mark: u64, nextId: FileId,
                      extras: seq<Extra>, hist: Versions, flushed: u64)
    requires ChunksOk(files, chunks) && chunks != [] && |extras| == |chunks| && nextId + |chunks| <= U64_MAX
    requires InputsOk(files, chunks, source, target)
    requires Described(files, m, nextId) && (forall id :: id in files ==> id < nextId)
    requires HistFits(hist) && forall id :: id in files ==> FileOk(files[id].rows, hist, flushed)
    ensures Tracks(CompactFiles(files, chunks, target, mark, nextId), nextId + |chunks|, m,
                   CompactEdits(files, m.levels, chunks, source, target, mark, nextId, extras))
  {
    hide Tracks, FileOk, HistFits, Outputs, AddEdits, DeleteEdits, Flatten, NoRepeats, Inputs, LevelOf, Matches, OutputRows;
    var outputs, inputs, next := Outputs(files, chunks, target, mark, nextId), Flatten(chunks), nextId + |chunks|;
    var adds := AddEdits(files, chunks, target, mark, nextId, extras);
    AddsTrack(files, m, chunks, target, mark, nextId, extras, hist, flushed);
    var bump := Manifest.NextFileId(Manifest.Succ(next - 1));
    TracksNext(files + outputs, next, m, adds, Manifest.Succ(next - 1));
    OutputsMembers(files, chunks, target, mark, nextId);
    InputsInFiles(files, chunks, All);
    forall j | 0 <= j < |inputs|
      ensures inputs[j] <= U64_MAX && inputs[j] in files + outputs
      ensures LevelOf(m.levels, inputs[j], source, target) == (files + outputs)[inputs[j]].level
    {
      assert inputs[j] in inputs;
      LevelIsRight(files, m, inputs[j], source, target);
    }
    DeletesTrack(files + outputs, next, m, adds + [bump], m.levels, inputs, source, target);
    assert (files + outputs) - SetOf(inputs) == CompactFiles(files, chunks, target, mark, nextId);
  }

  // ---- Caches follow files ----

  lemma FileCached(files: Files, c: Caches, id: FileId, sst: Sst, extra: Extra)
    requires CachesOk(files, c) && id !in files && Built(extra, sst.rows)
    ensures CachesOk(files[id := sst], WithFile(c, id, extra))
  {
    hide Bloom.Filter.MayContain, KeyIndexes.Indexes;
  }

  lemma {:induction false} FilesCached(files: Files, c: Caches, chunks: seq<seq<FileId>>, target: u32, mark: u64,
                                       nextId: FileId, extras: seq<Extra>)
    requires ChunksOk(files, chunks) && |extras| == |chunks| && CachesOk(files, c)
    requires forall id :: id in files ==> id < nextId
    requires forall i :: 0 <= i < |chunks| ==> Built(extras[i], OutputRows(files, chunks, mark, i))
    ensures CachesOk(files + Outputs(files, chunks, target, mark, nextId), WithFiles(c, nextId, extras))
  {
    hide CachesOk, Built, Dedup, ChunkRows, WithFile;
    if chunks == [] {
      assert files + map[] == files;
    } else {
      var n := |chunks| - 1;
      var front := Outputs(files, chunks[..n], target, mark, nextId);
      forall i | 0 <= i < n
        ensures Built(extras[..n][i], OutputRows(files, chunks[..n], mark, i))
      {
        assert Built(extras[i], OutputRows(files, chunks, mark, i));
      }
      FilesCached(files, c, chunks[..n], target, mark, nextId, extras[..n]);
      OutputsMembers(files, chunks[..n], target, mark, nextId);
      var sst := Sst(target, OutputRows(files, chunks, mark, n));
      FileCached(files + front, WithFiles(c, nextId, extras[..n]), nextId + n, sst, extras[n]);
      assert files + front[nextId + n := sst] == (files + front)[nextId + n := sst];
    }
  }

  lemma CachesCompacted(files: Files, c: Caches, chunks: seq<seq<FileId>>, target: u32, mark: u64,
                        nextId: FileId, extras: seq<Extra>)
    requires ChunksOk(files, chunks) && |extras| == |chunks| && CachesOk(files, c)
    requires forall id :: id in files ==> id < nextId
    requires forall i :: 0 <= i < |chunks| ==> Built(extras[i], OutputRows(files, chunks, mark, i))
    ensures CachesOk(CompactFiles(files, chunks, target, mark, nextId), WithoutFiles(WithFiles(c, nextId, extras), Inputs(chunks)))
  {
    hide Bloom.Filter.MayContain, KeyIndexes.Indexes, Outputs, Inputs, WithFiles, OutputRows;
    FilesCached(files, c, chunks, target, mark, nextId, extras);
  }

  lemma CachesReread(files: Files, c: Caches, readable: set<FileId>)
    requires CachesOk(files, c)
    ensures CachesOk(files, StillReadable(c, readable))
  {
    hide Bloom.Filter.MayContain, KeyIndexes.Indexes;
  }

  // ---- Every step keeps the invariant ----

  lemma StampFits(hist: Versions, batch: Batch, ts: u64)
    requires HistFits(hist) && KeysFit(batch)
    ensures HistFits(Stamp(hist, batch, ts))
  {
    hide Updates;
  }

  lemma {:induction false} StampAllFits(hist: Versions, wal: seq<Batch>, base: nat)
    requires HistFits(hist) && LogFits(wal) && base + |wal| <= U64_MAX
    ensures HistFits(StampAll(hist, wal, base))
  {
    hide HistFits, KeysFit, Stamp;
    if wal != [] {
      StampAllFits(hist, wal[..|wal| - 1], base);
      StampFits(StampAll(hist, wal[..|wal| - 1], base), wal[|wal| - 1], base + |wal|);
    }
  }

  lemma ReplayedFits(log: seq<Batch>, wal: seq<Batch>, onDisk: nat, left: nat)
    requires LogFits(log) && LogFits(wal)
    ensures LogFits(Replayed(log, wal, onDisk, left))
  {
    hide KeysFit;
  }

  lemma PlainFits(w: World, a: Action)
    requires Lsm.Enabled(w, a) && !a.Flush? && !a.Compact? && !a.CrashAndReopen? && (a.Commit? ==> KeysFit(a.batch))
    requires HistFits(w.hist) && LogFits(w.log)
    ensures var w' := Lsm.Step(w, a);
            HistFits(w'.hist) && LogFits(w'.log) && w'.st.files == w.st.files && w'.st.nextFileId == w.st.nextFileId
  {
    hide HistFits, KeysFit, Stamp, CollectedAll, Applied, IsWatermark;
    if a.Commit? {
      StampFits(w.hist, a.batch, w.st.commitSeq);
    }
  }

  lemma PlainInv(n: Node, a: Action)
    requires Inv(n) && Enabled(n, Plain(a))
    ensures Inv(Step(n, Plain(a)))
  {
    hide Lsm.Inv, Lsm.Enabled, Lsm.Step, HistFits, LogFits, ManifestLog.Agrees, Described, CachesOk, CountsOk;
    StepInv(n.w, a);
    PlainFits(n.w, a);
  }

  /** What flush and compaction need to know of a world. */
  lemma WorldFiles(w: World)
    requires Lsm.Inv(w)
    ensures forall id :: id in w.st.files ==> id < w.st.nextFileId && FileOk(w.st.files[id].rows, w.hist, w.flushed)
    ensures FileOk(Drained(w.st.mem), w.hist, SnapshotTs(w.st))
    ensures |w.st.wal| <= |w.log| && w.st.wal == w.log[|w.log| - |w.st.wal|..]
  {
    hide PinsOk, DiskOk, MarksOk, MemOk, FileOk, Drained, LatestIs, StampedBy, HistOk;
    DrainedFileOk(w.st.mem, w.hist, w.flushed, w.floor, w.st.commitSeq);
    PositiveSeq(w.hist, w.st.commitSeq);
  }

  lemma FlushShape(w: World, resetWal: bool)
    requires Drained(w.st.mem) != []
    ensures var w' := Lsm.Step(w, Flush(resetWal));
            && w'.hist == w.hist && w'.log == w.log && w'.st.nextFileId == w.st.nextFileId + 1
            && w'.st.files == w.st.files[w.st.nextFileId := Sst(0, Drained(w.st.mem))]
  {
    hide Drained;
  }

  lemma FlushToInv(n: Node, resetWal: bool, extra: Extra)
    requires Inv(n) && Enabled(n, FlushTo(resetWal, extra))
    ensures Inv(Step(n, FlushTo(resetWal, extra)))
  {
    hide Lsm.Inv, Lsm.Step, HistFits, LogFits, ManifestLog.Agrees, ManifestLog.After, Described, CachesOk, CountsOk, Drained,
      FlushEdits, FlushCounts, WithFile, FileOk, RowsFit;
    var rows, id, files := Drained(n.w.st.mem), n.w.st.nextFileId, n.w.st.files;
    if rows != [] {
      StepInv(n.w, Flush(resetWal));
      FlushShape(n.w, resetWal);
      WorldFiles(n.w);
      FileRowsFit(rows, n.w.hist, SnapshotTs(n.w.st));
      FlushTracks(files, n.man.members, id, rows, extra);
      BatchFollows(n.man, files[id := Sst(0, rows)], id + 1, FlushEdits(id, rows, extra));
      FileCached(files, n.caches, id, Sst(0, rows), extra);
      FlushCountsOk(files, n.counts, id, Sst(0, rows));
    }
  }

  lemma BatchFollows(man: ManifestLog.State, files: Files, next: FileId, edits: seq<Edit>)
    requires ManifestLog.Agrees(man) && Tracks(files, next, man.members, edits)
    ensures var man' := ManifestLog.After(man, ManifestLog.Batch(edits));
            ManifestLog.Agrees(man') && Described(files, man'.members, next)
  {
    hide ManifestLog.Agrees, ManifestLog.WellFormed, ManifestLog.NextLog, Described;
    ManifestLog.BatchAgrees(man, edits);
  }

  lemma CompactShape(w: World, chunks: seq<seq<FileId>>, level: nat, mark: u64)
    requires Lsm.Enabled(w, Compact(chunks, level, mark))
    ensures var w' := Lsm.Step(w, Compact(chunks, level, mark));
            && w'.hist == w.hist && w'.log == w.log && w'.st.nextFileId == w.st.nextFileId + |chunks|
            && w'.st.files == CompactFiles(w.st.files, chunks, level, mark, w.st.nextFileId)
  {
    hide CompactFiles;
  }

  lemma CompactLevelsInv(n: Node, source: u32, target: u32, chunks: seq<seq<FileId>>, mark: u64, extras: seq<Extra>)
    requires Inv(n) && Enabled(n, CompactLevels(source, target, chunks, mark, extras))
    ensures Inv(Step(n, CompactLevels(source, target, chunks, mark, extras)))
  {
    hide Lsm.Inv, Lsm.Step, HistFits, LogFits, ManifestLog.Agrees, ManifestLog.After, Described, CachesOk, CountsOk,
      CompactEdits, CompactCounts, WithFiles, FileOk, CompactFiles, Inputs, Flatten, NoRepeats, Built, OutputRows;
    var files, id := n.w.st.files, n.w.st.nextFileId;
    StepInv(n.w, Compact(chunks, target, mark));
    CompactShape(n.w, chunks, target, mark);
    WorldFiles(n.w);
    CompactTracks(files, n.man.members, chunks, source, target, mark, id, extras, n.w.hist, n.w.flushed);
    BatchFollows(n.man, CompactFiles(files, chunks, target, mark, id), id + |chunks|,
                 CompactEdits(files, n.man.members.levels, chunks, source, target, mark, id, extras));
    CachesCompacted(files, n.caches, chunks, target, mark, id, extras);
    CompactCountsOk(files, n.counts, chunks, target, mark, id);
  }

  /** Reopening reads back the manifest that was written. */
  lemma ReopenFollows(man: ManifestLog.State)
    requires ManifestLog.Agrees(man)
    ensures ManifestLog.After(man, ManifestLog.Reopen) == man.(count := |man.log|)
    ensures ManifestLog.Agrees(man.(count := |man.log|))
  {
    hide Manifest.Consistent, ManifestLog.Printable, ManifestLog.ReadFile, ManifestLog.Fine, Manifest.ApplyAll;
    ManifestLog.FileRoundTrip(man.log);
  }

  lemma CrashShape(w: World, sstMax: u64, left: nat)
    requires Lsm.Enabled(w, CrashAndReopen(sstMax, left))
    requires |w.st.wal| <= |w.log| && w.st.wal == w.log[|w.log| - |w.st.wal|..]
    requires HistFits(w.hist) && LogFits(w.log)
    ensures var w' := Lsm.Step(w, CrashAndReopen(sstMax, left));
            && HistFits(w'.hist) && LogFits(w'.log)
            && w'.st.files == w.st.files && w'.st.nextFileId == w.st.nextFileId
  {
    hide KeysFit, StampAll, Replay, Replayed, IsSstMax;
    StampAllFits(Upto(w.hist, sstMax), w.st.wal[..left], sstMax);
    ReplayedFits(w.log, w.st.wal, w.onDisk, left);
  }

  lemma ReopenInv(n: Node, sstMax: u64, left: nat, readable: set<FileId>)
    requires Inv(n) && Enabled(n, Reopen(sstMax, left, readable))
    ensures Inv(Step(n, Reopen(sstMax, left, readable)))
  {
    hide Lsm.Inv, Lsm.Step, HistFits, LogFits, ManifestLog.Agrees, ManifestLog.After, Described, CountsOk, RecoverCounts,
      CachesOk, StillReadable, IsSstMax;
    StepInv(n.w, CrashAndReopen(sstMax, left));
    WorldFiles(n.w);
    CrashShape(n.w, sstMax, left);
    ReopenFollows(n.man);
    RecoverCountsOk(n.w.st.files);
    CachesReread(n.w.st.files, n.caches, readable);
    assert Described(n.w.st.files, n.man.(count := |n.man.log|).members, n.w.st.nextFileId);
  }

  lemma LookUpInv(n: Node, k: Key, s: u64, id: FileId)
    requires Inv(n) && Enabled(n, LookUp(k, s, id))
    ensures Inv(Step(n, LookUp(k, s, id)))
  {
    hide Lsm.Inv, HistFits, LogFits, ManifestLog.Agrees, Described, CountsOk, FiltersOk, IndexesOk, Heats, Heated;
  }

  lemma StepKeeps(n: Node, d: Deed)
    requires Inv(n) && Enabled(n, d)
    ensures Inv(Step(n, d))
  {
    hide Inv, Enabled, Step;
    match d
    case Plain(a) => PlainInv(n, a);
    case FlushTo(resetWal, extra) => FlushToInv(n, resetWal, extra);
    case CompactLevels(source, target, chunks, mark, extras) => CompactLevelsInv(n, source, target, chunks, mark, extras);
    case LookUp(k, s, id) => LookUpInv(n, k, s, id);
    case Reopen(sstMax, left, readable) => ReopenInv(n, sstMax, left, readable);
  }

  lemma NewInv()
    ensures Inv(NEW)
  {
    hide Lsm.Inv, ManifestLog.Agrees, CountsOk;
    FreshInv();
    ManifestLog.FreshAgrees();
    NoCountsOk();
    assert forall id: u64, l: u32 :: !Manifest.InLevel(map[], l, id);
  }

  // ---- Runs ----

  ghost predicate Runs(n: Node, run: seq<Deed>, n': Node)
    decreases |run|
  {
    if run == [] then n == n' else Enabled(n, run[0]) && Runs(Step(n, run[0]), run[1..], n')
  }

  lemma {:induction false} RunKeeps(n: Node, run: seq<Deed>, n': Node)
    requires Inv(n) && Runs(n, run, n')
    ensures Inv(n')
    decreases |run|
  {
    hide Inv, Enabled, Step;
    if run != [] {
      StepKeeps(n, run[0]);
      RunKeeps(Step(n, run[0]), run[1..], n');
    }
  }

  /** In every run, crashes included, the cached counts are a recount of the live files. */
  lemma CountsInEveryRun(run: seq<Deed>, n: Node)
    requires Runs(NEW, run, n)
    ensures n.counts.sstRows == Recount(n.w.st.files, All)
    ensures forall p :: TableCountOk(n.counts.tableRows, p, Recount(n.w.st.files, OfTable(p)))
  {
    hide Runs, NEW;
    NewInv();
    RunKeeps(NEW, run, n);
  }

  /** In every run the manifest file, read back, describes exactly the live files. */
  lemma ManifestInEveryRun(run: seq<Deed>, n: Node)
    requires Runs(NEW, run, n)
    ensures ManifestLog.AllFine(n.man.log)
    ensures var read := ManifestLog.ReadFile(ManifestLog.Frames(n.man.log));
            && read.Ok? && Manifest.ApplyAll(Manifest.EMPTY, read.value) == n.man.members
            && Described(n.w.st.files, n.man.members, n.w.st.nextFileId)
  {
    hide Runs, NEW, Lsm.Inv, Described, ManifestLog.ReadFile, ManifestLog.Fine, Manifest.ApplyAll;
    NewInv();
    RunKeeps(NEW, run, n);
    ManifestLog.FileRoundTrip(n.man.log);
  }

  // ---- Point lookup ----

  /** Compactions only merge levels 0 and 1 into one file. */
  predicate Whole(d: Deed) {
    d.CompactLevels? ==> d.source == 0 && d.target == 1 && |d.chunks| == 1
  }

  lemma DeedOneLeveled(n: Node, d: Deed)
    requires OneLeveled(n.w.st.files) && Enabled(n, d) && Whole(d)
    ensures OneLeveled(Step(n, d).w.st.files)
  {
    hide OneLeveled, Lsm.Enabled, Lsm.Step, Built, OutputRows, CompactEdits, ManifestLog.After, CompactCounts, NoRepeats, FlushCounts,
      RecoverCounts, Drained, FlushEdits;
    match d
    case Plain(a) => StepOneLeveled(n.w, a);
    case FlushTo(resetWal, extra) => FlushOneLeveled(n, resetWal, extra);
    case CompactLevels(source, target, chunks, mark, extras) =>
      WholeInputs(n.w, chunks, mark);
      StepOneLeveled(n.w, Compact(chunks, target, mark));
    case LookUp(_, _, _) =>
    case Reopen(sstMax, left, readable) => StepOneLeveled(n.w, CrashAndReopen(sstMax, left));
  }

  lemma FlushOneLeveled(n: Node, resetWal: bool, extra: Extra)
    requires OneLeveled(n.w.st.files) && Enabled(n, FlushTo(resetWal, extra))
    ensures OneLeveled(Step(n, FlushTo(resetWal, extra)).w.st.files)
  {
    hide OneLeveled, ManifestLog.After, FlushCounts, Drained, FlushEdits, FlushStore, Built;
    StepOneLeveled(n.w, Flush(resetWal));
  }

  lemma WholeInputs(w: World, chunks: seq<seq<FileId>>, mark: u64)
    requires |chunks| == 1 && InputsOk(w.st.files, chunks, 0, 1)
    ensures WholeLevels(w, Compact(chunks, 1, mark))
  {
    assert chunks == [chunks[0]];
    assert chunks[..0] == [];
    assert Flatten(chunks) == [] + chunks[0];
  }

  lemma {:induction false} RunOneLeveled(n: Node, run: seq<Deed>, n': Node)
    requires OneLeveled(n.w.st.files) && Runs(n, run, n') && forall d :: d in run ==> Whole(d)
    ensures OneLeveled(n'.w.st.files)
    decreases |run|
  {
    hide OneLeveled, Enabled, Step, Whole;
    if run != [] {
      DeedOneLeveled(n, run[0]);
      RunOneLeveled(Step(n, run[0]), run[1..], n');
    }
  }

  /**
   The pruned lookup in any state reached by commits, flushes, collections, compactions of levels 0
   and 1, pins, lookups and crashes, with the engine's own manifest and caches. Unless the memtable or
   the hot-key cache answers, it finds the newest committed version exactly when that version is in a
   file without key index or where the search of the index lands; hence always when no indexed file
   holds two versions of the key.
   */
  method GetAfterRun(ghost run: seq<Deed>, ghost n: Node, mem: MemTable, files: Files, vs: VersionSet, c: Caches, k: Key, s: u64)
    returns (v: Option<VersionedValue>)
    requires Runs(NEW, run, n) && forall d :: d in run ==> Whole(d)
    requires mem.entries == n.w.st.mem && files == n.w.st.files && c == n.caches && vs.Indexed() && vs.Contents() == n.man.members
    requires n.w.floor <= s < OPEN_ENDED_TS
    ensures var first, hot := FirstVisible(ChainOf(mem.entries, k), s), HotOffer(files, c, k, s);
            FindIs(n.w.hist, k, s, v) <==>
            || first.Some?
            || if hot.Some? then NoneNewer(files, k, s, hot.value) else NewestReached(files, c.indexes.Keys, k, s)
    ensures k !in c.hot && IndexedOnce(files, c.indexes.Keys, k) ==> FindIs(n.w.hist, k, s, v)
  {
    hide Runs, NEW, Lsm.Inv, Whole, OneLeveled, Matches, CachesOk, CountsOk, IsFilesByKey, IsFileLevel, Finds, FirstVisible, HotOffer,
      FilesSuffice, AnswersSuffice, NewestReached, NoneNewer, FindIs, IndexedOnce, OneLeveledHolds;
    NewInv();
    RunKeeps(NEW, run, n);
    NothingLeveled();
    RunOneLeveled(NEW, run, n);
    OneLeveledOneHolds(files, k);
    OneLeveledIff(files, c.indexes.Keys, k, s);
    AnswersIff(n.w, c.indexes.Keys, k, s);
    if k !in c.hot && IndexedOnce(files, c.indexes.Keys, k) {
      ExactWhenOnce(n.w, c, k, s);
    }
    var heated;
    v, heated := Lookup.Find(mem, files, n.w, vs, c, k, s);
  }

  lemma NothingLeveled()
    ensures OneLeveled(NEW.w.st.files)
  {
  }
}
