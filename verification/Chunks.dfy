/** What a compaction merges: all files of two levels, split by size into chunks. */
module Chunks {
  import opened Bytes
  import opened Sets
  import opened Sequences
  import opened Lsm
  import opened Lookup
  import opened Nodes
  import Manifest

  // ---- The inputs ----

  /** The files of two levels. */
  function InLevels(files: Files, source: nat, target: nat): set<FileId> {
    set id | id in files && (files[id].level == source || files[id].level == target)
  }

  /** The ids the manifest lists at two levels, sorted and without repetition. */
  function CompactionInputs(levels: Manifest.Levels, source: u32, target: u32): seq<u64> {
    Manifest.IdsInOrder(Manifest.FilesAt(levels, source) + Manifest.FilesAt(levels, target))
  }

  lemma InputsAreLevels(files: Files, m: Members, source: u32, target: u32)
    requires Matches(files, m.levels, m.meta)
    ensures var inputs := CompactionInputs(m.levels, source, target);
            && NoRepeats<FileId>(inputs) && IdsFit(inputs) && (forall i, j :: 0 <= i < j < |inputs| ==> inputs[i] < inputs[j])
            && (forall id: FileId :: id in inputs <==> id in InLevels(files, source, target))
            && |inputs| == |InLevels(files, source, target)| <= |files|
  {
    var inputs := CompactionInputs(m.levels, source, target);
    InOrderAscends(Manifest.FilesAt(m.levels, source) + Manifest.FilesAt(m.levels, target));
    forall id: FileId
      ensures id in inputs <==> id in InLevels(files, source, target)
    {
      if id <= U64_MAX {
        assert Manifest.InLevel(m.levels, source, id) <==> id in files && files[id].level == source;
        assert Manifest.InLevel(m.levels, target, id) <==> id in files && files[id].level == target;
      }
    }
    ManyDistinct(inputs, InLevels(files, source, target));
    assert InLevels(files, source, target) <= files.Keys;
    SubsetNotLarger(InLevels(files, source, target), files.Keys);
  }

  lemma {:induction false} ManyDistinct(ids: seq<FileId>, s: set<FileId>)
    requires NoRepeats(ids) && forall id :: id in ids <==> id in s
    ensures |ids| == |s|
  {
    if ids != [] {
      var front, last := ids[..|ids| - 1], ids[|ids| - 1];
      assert ids == front + [last];
      ManyDistinct(front, s - {last});
    }
  }

  lemma SubsetNotLarger<T>(a: set<T>, b: set<T>)
    requires a <= b
    ensures |a| <= |b|
  {
    if a != b {
      SmallerSet(a, b);
    }
  }

  // ---- The split ----

  type Metas = map<u64, Manifest.Meta>

  const CHUNK_LIMIT: u64 := 64 * 1024 * 1024

  function Total(meta: Metas, chunk: seq<FileId>): nat {
    if chunk == [] then 0 else Total(meta, chunk[..|chunk| - 1]) + SizeOf(meta, chunk[|chunk| - 1])
  }

  function SizeOf(meta: Metas, id: FileId): u64 {
    if id <= U64_MAX && id in meta then meta[id].bytes else 0
  }

  function SatAdd(a: u64, b: u64): u64 {
    if a + b > U64_MAX then U64_MAX else a + b
  }

  /** A chunk within the size limit, or a single file that is over it alone. */
  predicate ChunkFits(meta: Metas, chunk: seq<FileId>, limit: u64) {
    chunk != [] && (|chunk| == 1 || Total(meta, chunk) <= limit)
  }

  lemma TotalNext(meta: Metas, chunk: seq<FileId>, id: FileId)
    ensures Total(meta, chunk + [id]) == Total(meta, chunk) + SizeOf(meta, id)
  {
    assert (chunk + [id])[..|chunk|] == chunk;
  }

  /** The next file would have made chunk `i` too large. */
  predicate ChunkFull(meta: Metas, chunks: seq<seq<FileId>>, limit: u64, i: nat)
    requires i + 1 < |chunks|
  {
    chunks[i + 1] != [] && Total(meta, chunks[i]) + SizeOf(meta, chunks[i + 1][0]) > limit
  }

  /** The greedy split: the inputs in order, in chunks that fit and could not have been longer. */
  ghost predicate IsSplit(meta: Metas, inputs: seq<FileId>, limit: u64, chunks: seq<seq<FileId>>) {
    && Flatten(chunks) == inputs
    && (forall i :: 0 <= i < |chunks| ==> ChunkFits(meta, chunks[i], limit))
    && (forall i :: 0 <= i < |chunks| - 1 ==> ChunkFull(meta, chunks, limit, i))
  }

  /** `chunks` and then `current` are a split so far, and each but the last is full. */
  ghost predicate SplitSoFar(meta: Metas, limit: u64, chunks: seq<seq<FileId>>, current: seq<FileId>) {
    && (forall i :: 0 <= i < |chunks| ==> ChunkFits(meta, chunks[i], limit))
    && (forall i :: 0 <= i < |chunks| - 1 ==> ChunkFull(meta, chunks, limit, i))
    && (current == [] ==> chunks == [])
    && (current != [] ==> ChunkFits(meta, current, limit))
    && (chunks != [] && current != [] ==> ChunkFull(meta, chunks + [current], limit, |chunks| - 1))
  }

  lemma SplitLonger(meta: Metas, limit: u64, chunks: seq<seq<FileId>>, current: seq<FileId>, id: FileId)
    requires SplitSoFar(meta, limit, chunks, current) && (current == [] || Total(meta, current) + SizeOf(meta, id) <= limit)
    ensures SplitSoFar(meta, limit, chunks, current + [id])
  {
    hide Total;
    TotalNext(meta, current, id);
    if current != [] {
      assert (current + [id])[0] == current[0];
    }
  }

  lemma SplitClosed(meta: Metas, limit: u64, chunks: seq<seq<FileId>>, current: seq<FileId>)
    requires SplitSoFar(meta, limit, chunks, current) && current != []
    ensures forall i :: 0 <= i < |chunks + [current]| ==> ChunkFits(meta, (chunks + [current])[i], limit)
    ensures forall i :: 0 <= i < |chunks| ==> ChunkFull(meta, chunks + [current], limit, i)
  {
    hide Total;
    forall i | 0 <= i < |chunks|
      ensures ChunkFull(meta, chunks + [current], limit, i)
    {
      if i < |chunks| - 1 {
        assert ChunkFull(meta, chunks, limit, i);
      }
    }
  }

  lemma SplitNextChunk(meta: Metas, limit: u64, chunks: seq<seq<FileId>>, current: seq<FileId>, id: FileId)
    requires SplitSoFar(meta, limit, chunks, current) && current != [] && Total(meta, current) + SizeOf(meta, id) > limit
    ensures SplitSoFar(meta, limit, chunks + [current], [id])
  {
    hide Total;
    SplitClosed(meta, limit, chunks, current);
    var next := chunks + [current];
    assert (next + [[id]])[|chunks|] == current && (next + [[id]])[|next|] == [id];
  }

  /** Splits the inputs greedily by size. */
  method SplitBySize(inputs: seq<FileId>, meta: Metas, limit: u64) returns (chunks: seq<seq<FileId>>)
    requires limit < U64_MAX
    ensures IsSplit(meta, inputs, limit, chunks) && |chunks| <= |inputs|
  {
    hide Flatten, Total, SplitSoFar;
    chunks := [];
    var current: seq<FileId>, bytes: u64 := [], 0;
    EmptyChunks(meta, limit);
    for i := 0 to |inputs|
      invariant Flatten(chunks) + current == inputs[..i] && |chunks| + (if current == [] then 0 else 1) <= i
      invariant SplitSoFar(meta, limit, chunks, current) && (current == [] ==> i == 0)
      invariant bytes == (if Total(meta, current) > U64_MAX then U64_MAX else Total(meta, current))
    {
      var size := SizeOf(meta, inputs[i]);
      TotalNext(meta, current, inputs[i]);
      Regroup(Flatten(chunks), current, [inputs[i]]);
      if SatAdd(bytes, size) > limit && current != [] {
        SplitNextChunk(meta, limit, chunks, current, inputs[i]);
        FlattenNext(chunks, current);
        TotalNext(meta, [], inputs[i]);
        assert [] + [inputs[i]] == [inputs[i]];
        chunks := chunks + [current];
        current, bytes := [], 0;
      } else {
        SplitLonger(meta, limit, chunks, current, inputs[i]);
      }
      current := current + [inputs[i]];
      bytes := SatAdd(bytes, size);
      assert inputs[..i + 1] == inputs[..i] + [inputs[i]];
    }
    if current != [] {
      SplitClosed(meta, limit, chunks, current);
      FlattenNext(chunks, current);
      chunks := chunks + [current];
    } else {
      NothingSplit(meta, limit, chunks);
    }
    assert inputs[..|inputs|] == inputs;
  }

  lemma NothingSplit(meta: Metas, limit: u64, chunks: seq<seq<FileId>>)
    requires SplitSoFar(meta, limit, chunks, [])
    ensures chunks == []
  {
  }

  lemma EmptyChunks(meta: Metas, limit: u64)
    ensures Flatten<FileId>([]) == [] && Total(meta, []) == 0 && SplitSoFar(meta, limit, [], [])
  {
  }

  // The greedy split is unique.

  lemma {:induction false} TotalGrows(meta: Metas, chunk: seq<FileId>, n: nat)
    requires n <= |chunk|
    ensures Total(meta, chunk[..n]) <= Total(meta, chunk)
  {
    if n < |chunk| {
      TotalGrows(meta, chunk[..|chunk| - 1], n);
      assert chunk[..|chunk| - 1][..n] == chunk[..n];
    } else {
      assert chunk[..n] == chunk;
    }
  }

  lemma {:induction false} FlattenHead(chunks: seq<seq<FileId>>)
    requires chunks != []
    ensures Flatten(chunks) == chunks[0] + Flatten(chunks[1..])
  {
    if |chunks| == 1 {
      assert chunks[..0] == [] && chunks[1..] == [];
      assert [] + chunks[0] == chunks[0] + [];
    } else {
      var front := chunks[..|chunks| - 1];
      FlattenHead(front);
      assert chunks[1..][..|chunks| - 2] == front[1..];
      Regroup(chunks[0], Flatten(front[1..]), chunks[|chunks| - 1]);
    }
  }

  lemma SplitTail(meta: Metas, inputs: seq<FileId>, limit: u64, chunks: seq<seq<FileId>>)
    requires IsSplit(meta, inputs, limit, chunks) && chunks != []
    ensures chunks[0] <= inputs && IsSplit(meta, inputs[|chunks[0]|..], limit, chunks[1..])
  {
    hide Flatten, Total;
    FlattenHead(chunks);
    assert inputs[|chunks[0]|..] == Flatten(chunks[1..]);
    forall i | 0 <= i < |chunks[1..]| - 1
      ensures ChunkFull(meta, chunks[1..], limit, i)
    {
      assert ChunkFull(meta, chunks, limit, i + 1);
    }
  }

  /** A first chunk cannot be longer than one that is full. */
  lemma FirstNotLonger(meta: Metas, inputs: seq<FileId>, limit: u64, a: seq<seq<FileId>>, b: seq<seq<FileId>>)
    requires IsSplit(meta, inputs, limit, a) && IsSplit(meta, inputs, limit, b) && a != [] && b != []
    ensures |a[0]| >= |b[0]|
  {
    hide Flatten, Total;
    SplitTail(meta, inputs, limit, a);
    SplitTail(meta, inputs, limit, b);
    if |a| == 1 {
      LoneChunk(a);
    } else if |a[0]| < |b[0]| {
      var n := |a[0]|;
      assert ChunkFull(meta, a, limit, 0);
      FlattenHead(a[1..]);
      assert inputs[n] == a[1][0] == b[0][n];
      assert b[0][..n] == a[0] && b[0][..n + 1] == a[0] + [b[0][n]];
      TotalNext(meta, a[0], b[0][n]);
      TotalGrows(meta, b[0], n + 1);
    }
  }

  lemma LoneChunk(chunks: seq<seq<FileId>>)
    requires |chunks| == 1
    ensures Flatten(chunks) == chunks[0]
  {
    assert chunks[..0] == [];
    assert [] + chunks[0] == chunks[0];
  }

  lemma NothingFlat()
    ensures Flatten<FileId>([]) == []
  {
  }

  lemma {:induction false} SplitUnique(meta: Metas, inputs: seq<FileId>, limit: u64, a: seq<seq<FileId>>, b: seq<seq<FileId>>)
    requires IsSplit(meta, inputs, limit, a) && IsSplit(meta, inputs, limit, b)
    ensures a == b
    decreases |a|
  {
    hide Total;
    if a == [] || b == [] {
      SplitOfNothing(meta, inputs, limit, a, b);
    } else {
      FirstNotLonger(meta, inputs, limit, a, b);
      FirstNotLonger(meta, inputs, limit, b, a);
      SplitTail(meta, inputs, limit, a);
      SplitTail(meta, inputs, limit, b);
      assert a[0] == b[0];
      SplitUnique(meta, inputs[|a[0]|..], limit, a[1..], b[1..]);
      assert a == [a[0]] + a[1..] && b == [b[0]] + b[1..];
    }
  }

  lemma SplitOfNothing(meta: Metas, inputs: seq<FileId>, limit: u64, a: seq<seq<FileId>>, b: seq<seq<FileId>>)
    requires IsSplit(meta, inputs, limit, a) && IsSplit(meta, inputs, limit, b) && (a == [] || b == [])
    ensures a == b
  {
    hide Total;
    NothingFlat();
    if a != [] {
      FlattenHead(a);
    }
    if b != [] {
      FlattenHead(b);
    }
  }

  lemma {:induction false} FlattenedInFiles(files: Files, chunks: seq<seq<FileId>>)
    requires forall id :: id in Flatten(chunks) ==> id in files
    ensures ChunksOk(files, chunks)
  {
    if chunks != [] {
      var front, last := chunks[..|chunks| - 1], chunks[|chunks| - 1];
      assert chunks == front + [last];
      FlattenedInFiles(files, front);
      forall i, j | 0 <= i < |chunks| && 0 <= j < |chunks[i]|
        ensures chunks[i][j] in files
      {
        if i < |front| {
          assert front[i][j] in files;
        } else {
          assert last[j] in Flatten(chunks);
        }
      }
    }
  }
}
