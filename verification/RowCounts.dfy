/** Cached row counts: kept by adding and subtracting, equal to a recount of the live files at all times. */
module RowCounts {
  import opened Bytes
  import opened Sequences
  import opened Sets
  import opened KeyOrder
  import opened Compaction
  import opened Lsm
  import Codec

  // ---- Counting ----

  /** The table prefix of a key: up to and including the first zero byte, or the whole key. */
  function TablePrefix(k: Key): Key {
    if k == [] then [] else if k[0] == 0 then [0] else [k[0]] + TablePrefix(k[1..])
  }

  /** Which rows are counted: those of one table, or all. */
  datatype Which = OfTable(prefix: Key) | All

  predicate Selects(which: Which, r: Row) {
    which.All? || TablePrefix(r.key) == which.prefix
  }

  lemma {:induction false} PrefixUpToZero(name: Key, rest: Key)
    requires Codec.NulFree(name)
    ensures TablePrefix(name + [0] + rest) == name + [0]
  {
    var k := name + [0] + rest;
    if name != [] {
      PrefixUpToZero(name[1..], rest);
      assert k[1..] == name[1..] + [0] + rest;
      assert k[0] == name[0];
      assert [name[0]] + (name[1..] + [0]) == name + [0];
    }
  }

  /** A key of a table, whose name has no zero byte, has the name and a zero byte as its prefix. */
  lemma PrefixOfTableKey(table: Key, parts: seq<seq<byte>>)
    requires Codec.NulFree(table)
    ensures TablePrefix(Codec.TableKey(table, parts)) == table + [0]
  {
    PrefixUpToZero(table, Codec.Joined(parts));
  }

  /** A row is counted under its own table and no other. */
  lemma CountedUnderOwnTable(table: Key, other: Key, parts: seq<seq<byte>>, r: Row)
    requires Codec.NulFree(table) && Codec.NulFree(other) && r.key == Codec.TableKey(other, parts)
    ensures Selects(OfTable(table + [0]), r) <==> table == other
  {
    hide TablePrefix, Codec.TableKey;
    PrefixOfTableKey(other, parts);
    if table + [0] == other + [0] {
      assert table == (table + [0])[..|table|] && other == (other + [0])[..|other|];
    }
  }

  function Count(rows: seq<Row>, which: Which): nat {
    if rows == [] then 0
    else Count(rows[..|rows| - 1], which) + if Selects(which, rows[|rows| - 1]) then 1 else 0
  }

  lemma {:induction false} CountConcat(a: seq<Row>, b: seq<Row>, which: Which)
    ensures Count(a + b, which) == Count(a, which) + Count(b, which)
  {
    hide Selects;
    if b == [] {
      assert a + b == a;
    } else {
      CountConcat(a, b[..|b| - 1], which);
      assert (a + b)[..|a + b| - 1] == a + b[..|b| - 1];
    }
  }

  lemma {:induction false} CountAll(rows: seq<Row>)
    ensures Count(rows, All) == |rows|
  {
    if rows != [] {
      CountAll(rows[..|rows| - 1]);
    }
  }

  /** The rows in a set of files. */
  function Recount(files: Files, which: Which): nat
    decreases |files.Keys|
  {
    if files == map[] then 0
    else
      var id := Smallest(files.Keys);
      Fewer(files, id);
      Count(files[id].rows, which) + Recount(files - {id}, which)
  }

  lemma Fewer(files: Files, id: FileId)
    requires id in files
    ensures |(files - {id}).Keys| < |files.Keys|
  {
    assert (files - {id}).Keys == files.Keys - {id};
  }

  /** Any file may be counted first. */
  lemma {:induction false} RecountWithout(files: Files, id: FileId, which: Which)
    requires id in files
    ensures Recount(files, which) == Count(files[id].rows, which) + Recount(files - {id}, which)
    decreases |files.Keys|
  {
    hide Count;
    var first := Smallest(files.Keys);
    if first != id {
      Fewer(files, first);
      Fewer(files, id);
      RecountWithout(files - {first}, id, which);
      RecountWithout(files - {id}, first, which);
      assert files - {first} - {id} == files - {id} - {first};
    }
  }

  lemma RecountAdded(files: Files, id: FileId, sst: Sst, which: Which)
    requires id !in files
    ensures Recount(files[id := sst], which) == Recount(files, which) + Count(sst.rows, which)
  {
    hide Count, Recount;
    RecountWithout(files[id := sst], id, which);
    assert files[id := sst] - {id} == files;
  }

  // ---- Compaction ----

  function SetOf(ids: seq<FileId>): set<FileId> {
    set id | id in ids
  }

  /** Retiring distinct files takes exactly their rows away. */
  lemma {:induction false} RecountRetired(files: Files, ids: seq<FileId>, which: Which)
    requires NoRepeats(ids) && forall j :: 0 <= j < |ids| ==> ids[j] in files
    ensures Recount(files, which) == Count(ChunkRows(files, ids), which) + Recount(files - SetOf(ids), which)
  {
    hide Recount, Count;
    if ids == [] {
      assert files - SetOf(ids) == files;
      NoRows(which);
    } else {
      var front, last := ids[..|ids| - 1], ids[|ids| - 1];
      RecountRetired(files, front, which);
      CountConcat(ChunkRows(files, front), files[last].rows, which);
      RecountWithout(files - SetOf(front), last, which);
      assert files - SetOf(front) - {last} == files - SetOf(ids) by {
        assert ids == front + [last];
        assert SetOf(ids) == SetOf(front) + {last};
      }
    }
  }

  lemma NoRows(which: Which)
    ensures Count([], which) == 0
  {
  }

  /** Rows read by, and rows written by, the compaction of chunks. */
  function RowsIn(files: Files, chunks: seq<seq<FileId>>, which: Which): nat
    requires ChunksOk(files, chunks)
  {
    if chunks == [] then 0
    else RowsIn(files, chunks[..|chunks| - 1], which) + Count(ChunkRows(files, chunks[|chunks| - 1]), which)
  }

  function RowsOut(files: Files, chunks: seq<seq<FileId>>, mark: u64, which: Which): nat
    requires ChunksOk(files, chunks)
  {
    if chunks == [] then 0
    else RowsOut(files, chunks[..|chunks| - 1], mark, which) + Count(Dedup(ChunkRows(files, chunks[|chunks| - 1]), mark), which)
  }

  lemma {:induction false} ChunkRowsConcat(files: Files, a: seq<FileId>, b: seq<FileId>)
    requires forall j :: 0 <= j < |a| ==> a[j] in files
    requires forall j :: 0 <= j < |b| ==> b[j] in files
    ensures forall j :: 0 <= j < |a + b| ==> (a + b)[j] in files
    ensures ChunkRows(files, a + b) == ChunkRows(files, a) + ChunkRows(files, b)
  {
    if b == [] {
      assert a + b == a;
    } else {
      var front, last := b[..|b| - 1], b[|b| - 1];
      ChunkRowsConcat(files, a, front);
      assert (a + b)[..|a + b| - 1] == a + front;
      assert ChunkRows(files, a) + (ChunkRows(files, front) + files[last].rows)
          == (ChunkRows(files, a) + ChunkRows(files, front)) + files[last].rows;
    }
  }

  lemma {:induction false} InputsInFiles(files: Files, chunks: seq<seq<FileId>>, which: Which)
    requires ChunksOk(files, chunks)
    ensures forall j :: 0 <= j < |Flatten(chunks)| ==> Flatten(chunks)[j] in files
    ensures Count(ChunkRows(files, Flatten(chunks)), which) == RowsIn(files, chunks, which)
    ensures SetOf(Flatten(chunks)) == Inputs(chunks)
  {
    hide Count, ChunkRows;
    if chunks == [] {
      EmptyChunk(files, which);
    } else {
      var front, last := chunks[..|chunks| - 1], chunks[|chunks| - 1];
      InputsInFiles(files, front, which);
      ChunkRowsConcat(files, Flatten(front), last);
      CountConcat(ChunkRows(files, Flatten(front)), ChunkRows(files, last), which);
      InputsNext(chunks);
      assert SetOf(Flatten(front) + last) == SetOf(Flatten(front)) + SetOf(last);
    }
  }

  lemma EmptyChunk(files: Files, which: Which)
    ensures Count(ChunkRows(files, []), which) == 0
  {
  }

  lemma InputsNext(chunks: seq<seq<FileId>>)
    requires chunks != []
    ensures Inputs(chunks) == Inputs(chunks[..|chunks| - 1]) + SetOf(chunks[|chunks| - 1])
  {
    var front, n := chunks[..|chunks| - 1], |chunks| - 1;
    forall id | id in Inputs(chunks)
      ensures id in Inputs(front) + SetOf(chunks[n])
    {
      var i, j :| 0 <= i < |chunks| && 0 <= j < |chunks[i]| && chunks[i][j] == id;
      if i < n {
        assert front[i][j] == id;
      }
    }
    forall id | id in Inputs(front) + SetOf(chunks[n])
      ensures id in Inputs(chunks)
    {
      if id in Inputs(front) {
        var i, j :| 0 <= i < |front| && 0 <= j < |front[i]| && front[i][j] == id;
        assert chunks[i][j] == id;
      } else {
        var j :| 0 <= j < |chunks[n]| && chunks[n][j] == id;
      }
    }
  }

  /** New files add exactly the rows written. */
  lemma {:induction false} RecountOutputs(base: Files, files: Files, chunks: seq<seq<FileId>>, level: nat, mark: u64,
                                          nextId: FileId, which: Which)
    requires ChunksOk(files, chunks) && forall id :: id in base ==> id < nextId
    ensures Recount(base + Outputs(files, chunks, level, mark, nextId), which)
         == Recount(base, which) + RowsOut(files, chunks, mark, which)
  {
    hide Recount, Count, Dedup, ChunkRows;
    if chunks == [] {
      assert base + map[] == base;
    } else {
      var n := |chunks| - 1;
      var front := Outputs(files, chunks[..n], level, mark, nextId);
      RecountOutputs(base, files, chunks[..n], level, mark, nextId, which);
      OutputsMembers(files, chunks[..n], level, mark, nextId);
      var sst := Sst(level, Dedup(ChunkRows(files, chunks[n]), mark));
      RecountAdded(base + front, nextId + n, sst, which);
      assert base + front[nextId + n := sst] == (base + front)[nextId + n := sst];
    }
  }

  /** What compaction does to any row count. */
  lemma RecountCompacted(files: Files, chunks: seq<seq<FileId>>, level: nat, mark: u64, nextId: FileId, which: Which)
    requires ChunksOk(files, chunks) && NoRepeats(Flatten(chunks)) && forall id :: id in files ==> id < nextId
    ensures RowsIn(files, chunks, which) <= Recount(files, which)
    ensures Recount(CompactFiles(files, chunks, level, mark, nextId), which)
         == Recount(files, which) - RowsIn(files, chunks, which) + RowsOut(files, chunks, mark, which)
  {
    hide Recount, Count, Outputs, RowsIn, RowsOut, Flatten, Inputs, NoRepeats;
    InputsInFiles(files, chunks, which);
    RecountRetired(files, Flatten(chunks), which);
    RecountOutputs(files - Inputs(chunks), files, chunks, level, mark, nextId, which);
  }

  // ---- The cached counts ----

  /** The cached row count of all files and of each table. */
  datatype Counts = Counts(sstRows: nat, tableRows: map<Key, nat>)

  const NO_COUNTS := Counts(0, map[])

  /** The cached numbers are a recount of the files, and tables without rows have no entry. */
  ghost predicate CountsOk(files: Files, c: Counts) {
    && c.sstRows == Recount(files, All)
    && forall p :: TableCountOk(c.tableRows, p, Recount(files, OfTable(p)))
  }

  predicate TableCountOk(tableRows: map<Key, nat>, p: Key, n: nat) {
    if n == 0 then p !in tableRows else p in tableRows && tableRows[p] == n
  }

  function EntryAt(m: map<Key, nat>, p: Key): nat {
    if p in m then m[p] else 0
  }

  function Change(delta: map<Key, int>, p: Key): int {
    if p in delta then delta[p] else 0
  }

  // Counting rows in.

  function Bumped(m: map<Key, nat>, p: Key): map<Key, nat> {
    m[p := EntryAt(m, p) + 1]
  }

  /** `m` with every row counted in. */
  function Tally(m: map<Key, nat>, rows: seq<Row>): map<Key, nat> {
    if rows == [] then m else Bumped(Tally(m, rows[..|rows| - 1]), TablePrefix(rows[|rows| - 1].key))
  }

  lemma {:induction false} TallyCounts(m: map<Key, nat>, rows: seq<Row>, p: Key, n: nat)
    requires TableCountOk(m, p, n)
    ensures TableCountOk(Tally(m, rows), p, n + Count(rows, OfTable(p)))
  {
    hide TablePrefix;
    if rows != [] {
      TallyCounts(m, rows[..|rows| - 1], p, n);
    }
  }

  lemma EntryIsCount(rows: seq<Row>, p: Key)
    ensures EntryAt(Tally(map[], rows), p) == Count(rows, OfTable(p))
  {
    hide Tally, Count;
    TallyCounts(map[], rows, p, 0);
  }

  method CountRowsByPrefix(m: map<Key, nat>, rows: seq<Row>) returns (counts: map<Key, nat>)
    ensures counts == Tally(m, rows)
  {
    hide TablePrefix;
    counts := m;
    for i := 0 to |rows|
      invariant counts == Tally(m, rows[..i])
    {
      assert rows[..i + 1][..i] == rows[..i];
      counts := Bumped(counts, TablePrefix(rows[i].key));
    }
    assert rows[..|rows|] == rows;
  }

  // Differences.

  /** The nonzero differences, output minus input. */
  function DeltaOf(input: map<Key, nat>, output: map<Key, nat>): map<Key, int> {
    map p | p in input.Keys + output.Keys && EntryAt(output, p) != EntryAt(input, p) :: EntryAt(output, p) - EntryAt(input, p)
  }

  function Summed(acc: map<Key, int>, delta: map<Key, int>): map<Key, int> {
    map p | p in acc.Keys + delta.Keys :: Change(acc, p) + Change(delta, p)
  }

  function ChunkDelta(rows: seq<Row>, mark: u64): map<Key, int> {
    DeltaOf(Tally(map[], rows), Tally(map[], Dedup(rows, mark)))
  }

  /** The per-table change of compacting all chunks. */
  function ChunksDelta(files: Files, chunks: seq<seq<FileId>>, mark: u64): map<Key, int>
    requires ChunksOk(files, chunks)
  {
    if chunks == [] then map[]
    else Summed(ChunksDelta(files, chunks[..|chunks| - 1], mark), ChunkDelta(ChunkRows(files, chunks[|chunks| - 1]), mark))
  }

  lemma ChunkDeltaCounts(rows: seq<Row>, mark: u64, p: Key)
    ensures Change(ChunkDelta(rows, mark), p) == Count(Dedup(rows, mark), OfTable(p)) - Count(rows, OfTable(p))
  {
    hide Tally, Count, Dedup;
    EntryIsCount(rows, p);
    EntryIsCount(Dedup(rows, mark), p);
  }

  lemma {:induction false} ChunksDeltaCounts(files: Files, chunks: seq<seq<FileId>>, mark: u64, p: Key)
    requires ChunksOk(files, chunks)
    ensures Change(ChunksDelta(files, chunks, mark), p) ==
            RowsOut(files, chunks, mark, OfTable(p)) - RowsIn(files, chunks, OfTable(p))
  {
    hide Count, Dedup, ChunkRows, ChunkDelta;
    if chunks != [] {
      ChunksDeltaCounts(files, chunks[..|chunks| - 1], mark, p);
      ChunkDeltaCounts(ChunkRows(files, chunks[|chunks| - 1]), mark, p);
    }
  }

  method PrefixCountDelta(input: map<Key, nat>, output: map<Key, nat>) returns (delta: map<Key, int>)
    ensures delta == DeltaOf(input, output)
    ensures forall p :: p in delta <==> EntryAt(output, p) != EntryAt(input, p)
  {
    var keys := Ascending(input.Keys + output.Keys);
    delta := map[];
    for i := 0 to |keys|
      invariant forall p :: p in delta <==> p in keys[..i] && EntryAt(output, p) != EntryAt(input, p)
      invariant forall p :: p in delta ==> delta[p] == EntryAt(output, p) - EntryAt(input, p)
    {
      assert keys[..i + 1] == keys[..i] + [keys[i]];
      var change := EntryAt(output, keys[i]) - EntryAt(input, keys[i]);
      if change != 0 {
        delta := delta[keys[i] := change];
      }
    }
    assert keys[..|keys|] == keys;
  }

  /** `sum` has followed `delta` at the prefixes in `done`. */
  ghost predicate SummedAt(sum: map<Key, int>, acc: map<Key, int>, delta: map<Key, int>, done: seq<Key>, p: Key) {
    && (p in sum <==> p in acc || p in done)
    && Change(sum, p) == Change(acc, p) + if p in done then Change(delta, p) else 0
  }

  lemma SummedNext(sum: map<Key, int>, acc: map<Key, int>, delta: map<Key, int>, keys: seq<Key>, i: nat, p: Key)
    requires i < |keys| && keys[i] !in keys[..i] && keys[i] in delta
    requires SummedAt(sum, acc, delta, keys[..i], p) && SummedAt(sum, acc, delta, keys[..i], keys[i])
    ensures SummedAt(sum[keys[i] := Change(sum, keys[i]) + delta[keys[i]]], acc, delta, keys[..i + 1], p)
  {
    assert keys[..i + 1] == keys[..i] + [keys[i]];
  }

  lemma SummedAll(sum: map<Key, int>, acc: map<Key, int>, delta: map<Key, int>, keys: seq<Key>)
    requires (forall p :: p in keys <==> p in delta) && forall p :: SummedAt(sum, acc, delta, keys, p)
    ensures sum == Summed(acc, delta)
  {
    forall p
      ensures p in sum <==> p in Summed(acc, delta)
      ensures p in sum ==> sum[p] == Summed(acc, delta)[p]
    {
      assert SummedAt(sum, acc, delta, keys, p);
    }
  }

  method AddDelta(acc: map<Key, int>, delta: map<Key, int>) returns (sum: map<Key, int>)
    ensures sum == Summed(acc, delta)
  {
    hide SummedAt, Summed, StrictlyAscending, Change;
    var keys := Ascending(delta.Keys);
    AscendingSorted(delta.Keys);
    sum := acc;
    NothingSummed(acc, delta);
    for i := 0 to |keys|
      invariant forall p :: SummedAt(sum, acc, delta, keys[..i], p)
    {
      NotEarlier(keys, i);
      assert keys[i] in keys;
      var next := sum[keys[i] := Change(sum, keys[i]) + delta[keys[i]]];
      ghost var done := keys[..i + 1];
      forall p
        ensures SummedAt(next, acc, delta, done, p)
      {
        SummedNext(sum, acc, delta, keys, i, p);
      }
      sum := next;
    }
    assert keys[..|keys|] == keys;
    SummedAll(sum, acc, delta, keys);
  }

  lemma NothingSummed(acc: map<Key, int>, delta: map<Key, int>)
    ensures forall p :: SummedAt(acc, acc, delta, [], p)
  {
  }

  // Following the differences.

  function SatSub(a: nat, b: nat): nat {
    if a >= b then a - b else 0
  }

  /** Subtraction of an unsigned 64-bit counter. */
  function WrapSub(a: nat, b: nat): nat {
    if a >= b then a - b else a + (U64_MAX + 1 - b % (U64_MAX + 1))
  }

  /** One entry after its change; an entry that reaches zero is removed. */
  function AdjustedEntry(m: map<Key, nat>, p: Key, change: int): map<Key, nat> {
    if change > 0 then m[p := EntryAt(m, p) + change]
    else if p !in m then m
    else if SatSub(m[p], 0 - change) == 0 then m - {p}
    else m[p := SatSub(m[p], 0 - change)]
  }

  function Adjusted(m: map<Key, nat>, keys: seq<Key>, delta: map<Key, int>): map<Key, nat> {
    if keys == [] then m
    else
      var p := keys[|keys| - 1];
      AdjustedEntry(Adjusted(m, keys[..|keys| - 1], delta), p, Change(delta, p))
  }

  /** The subtraction does not saturate when the entry counts at least the rows taken away. */
  lemma AdjustedEntryOk(m: map<Key, nat>, p: Key, change: int, before: nat)
    requires TableCountOk(m, p, before) && 0 <= before + change
    ensures TableCountOk(AdjustedEntry(m, p, change), p, before + change)
    ensures change <= 0 ==> EntryAt(m, p) >= 0 - change
    ensures forall q :: q != p ==> (q in AdjustedEntry(m, p, change) <==> q in m) && EntryAt(AdjustedEntry(m, p, change), q) == EntryAt(m, q)
  {
  }

  lemma {:induction false} AdjustedOk(m: map<Key, nat>, keys: seq<Key>, delta: map<Key, int>, q: Key, before: nat)
    requires NoRepeats(keys) && TableCountOk(m, q, before) && 0 <= before + Change(delta, q)
    ensures TableCountOk(Adjusted(m, keys, delta), q, if q in keys then before + Change(delta, q) else before)
  {
    hide AdjustedEntry;
    if keys != [] {
      var front, p := keys[..|keys| - 1], keys[|keys| - 1];
      assert keys == front + [p];
      LastNotInFront(keys);
      AdjustedOk(m, front, delta, q, before);
      var m' := Adjusted(m, front, delta);
      if p == q {
        AdjustedEntryOk(m', p, Change(delta, p), before);
      } else {
        AdjustedOther(m', p, Change(delta, p), q);
      }
    }
  }

  lemma AdjustedOther(m: map<Key, nat>, p: Key, change: int, q: Key)
    requires p != q
    ensures forall n :: TableCountOk(AdjustedEntry(m, p, change), q, n) <==> TableCountOk(m, q, n)
  {
  }

  // ---- The three updates ----

  function FlushCounts(c: Counts, rows: seq<Row>): Counts {
    Counts(c.sstRows + |rows|, Tally(c.tableRows, rows))
  }

  function CompactCounts(c: Counts, files: Files, chunks: seq<seq<FileId>>, mark: u64): Counts
    requires ChunksOk(files, chunks)
  {
    var delta := ChunksDelta(files, chunks, mark);
    Counts(WrapSub(c.sstRows, RowsIn(files, chunks, All)) + RowsOut(files, chunks, mark, All),
           Adjusted(c.tableRows, Ascending(delta.Keys), delta))
  }

  /** Opening counts every row of every file. */
  function RecoverCounts(files: Files): Counts {
    var rows := ChunkRows(files, InOrder(files.Keys));
    Counts(|rows|, Tally(map[], rows))
  }

  lemma FlushCountsOk(files: Files, c: Counts, id: FileId, sst: Sst)
    requires CountsOk(files, c) && id !in files
    ensures CountsOk(files[id := sst], FlushCounts(c, sst.rows))
  {
    hide Recount, Count, Tally, TableCountOk;
    CountAll(sst.rows);
    RecountAdded(files, id, sst, All);
    forall p
      ensures TableCountOk(Tally(c.tableRows, sst.rows), p, Recount(files[id := sst], OfTable(p)))
    {
      RecountAdded(files, id, sst, OfTable(p));
      TallyCounts(c.tableRows, sst.rows, p, Recount(files, OfTable(p)));
    }
  }

  /** No subtraction runs below zero, and the counts stay right. */
  lemma CompactCountsOk(files: Files, c: Counts, chunks: seq<seq<FileId>>, level: nat, mark: u64, nextId: FileId)
    requires CountsOk(files, c) && ChunksOk(files, chunks)
    requires NoRepeats(Flatten(chunks)) && forall id :: id in files ==> id < nextId
    ensures RowsIn(files, chunks, All) <= c.sstRows
    ensures CountsOk(CompactFiles(files, chunks, level, mark, nextId), CompactCounts(c, files, chunks, mark))
  {
    hide Recount, Count, TableCountOk, CompactFiles, RowsIn, RowsOut, ChunksDelta, Adjusted, NoRepeats, Flatten;
    var files' := CompactFiles(files, chunks, level, mark, nextId);
    var delta := ChunksDelta(files, chunks, mark);
    var keys := Ascending(delta.Keys);
    AscendingHasNoRepeats(delta.Keys);
    RecountCompacted(files, chunks, level, mark, nextId, All);
    forall p
      ensures TableCountOk(Adjusted(c.tableRows, keys, delta), p, Recount(files', OfTable(p)))
    {
      RecountCompacted(files, chunks, level, mark, nextId, OfTable(p));
      ChunksDeltaCounts(files, chunks, mark, p);
      AdjustedOk(c.tableRows, keys, delta, p, Recount(files, OfTable(p)));
    }
  }

  lemma AscendingHasNoRepeats(keys: set<Key>)
    ensures NoRepeats(Ascending(keys))
  {
    hide Less;
    AscendingSorted(keys);
    forall i, j | 0 <= i < j < |Ascending(keys)|
      ensures Ascending(keys)[i] != Ascending(keys)[j]
    {
      LessIrreflexive(Ascending(keys)[i]);
    }
  }

  lemma RecoverCountsOk(files: Files)
    ensures CountsOk(files, RecoverCounts(files))
  {
    hide Recount, Count, Tally, TableCountOk, ChunkRows;
    var ids := InOrder(files.Keys);
    InOrderAscends(files.Keys);
    assert forall j :: 0 <= j < |ids| ==> ids[j] in ids;
    var rows := ChunkRows(files, ids);
    CountAll(rows);
    forall which
      ensures Count(rows, which) == Recount(files, which)
    {
      RecountRetired(files, ids, which);
      assert files - SetOf(ids) == map[];
      NothingToCount(which);
    }
    forall p
      ensures TableCountOk(Tally(map[], rows), p, Recount(files, OfTable(p)))
    {
      NoEntry(p);
      TallyCounts(map[], rows, p, 0);
    }
  }

  lemma NoEntry(p: Key)
    ensures TableCountOk(map[], p, 0)
  {
  }

  lemma NothingToCount(which: Which)
    ensures Recount(map[], which) == 0
  {
  }

  lemma NoCountsOk()
    ensures CountsOk(map[], NO_COUNTS)
  {
  }

  // ---- The counters as an object ----

  class RowCounter {
    var sstRows: nat
    var tableRows: map<Key, nat>

    function AsCounts(): Counts
      reads this
    {
      Counts(sstRows, tableRows)
    }

    constructor ()
      ensures AsCounts() == NO_COUNTS
    {
      sstRows, tableRows := 0, map[];
    }

    /** A flushed file is counted in. */
    method Flush(rows: seq<Row>)
      modifies this
      ensures AsCounts() == FlushCounts(old(AsCounts()), rows)
    {
      sstRows := sstRows + |rows|;
      tableRows := CountRowsByPrefix(tableRows, rows);
    }

    /** The counts follow the rows read, the rows written and the per-table differences. */
    method Compact(files: Files, chunks: seq<seq<FileId>>, mark: u64)
      requires ChunksOk(files, chunks)
      modifies this
      ensures AsCounts() == CompactCounts(old(AsCounts()), files, chunks, mark)
    {
      hide RowsIn, RowsOut, ChunksDelta;
      var deleted, added, delta := TallyChunks(files, chunks, mark);
      sstRows := WrapSub(sstRows, deleted);
      sstRows := sstRows + added;
      tableRows := Adjust(tableRows, delta);
    }

    method Recover(files: Files)
      modifies this
      ensures AsCounts() == RecoverCounts(files)
    {
      hide ChunkRows, Tally;
      var ids := InOrder(files.Keys);
      assert forall j :: 0 <= j < |ids| ==> ids[j] in ids;
      sstRows, tableRows := RecountRows(files, ids);
    }
  }

  method RecountRows(files: Files, ids: seq<FileId>) returns (total: nat, tableRows: map<Key, nat>)
    requires forall j :: 0 <= j < |ids| ==> ids[j] in files
    ensures total == |ChunkRows(files, ids)| && tableRows == Tally(map[], ChunkRows(files, ids))
  {
    hide Tally;
    total, tableRows := 0, map[];
    TallyNothing(map[]);
    for i := 0 to |ids|
      invariant total == |ChunkRows(files, ids[..i])| && tableRows == Tally(map[], ChunkRows(files, ids[..i]))
    {
      assert ids[..i + 1][..i] == ids[..i];
      var rows := files[ids[i]].rows;
      TallyConcat(map[], ChunkRows(files, ids[..i]), rows);
      total := total + |rows|;
      tableRows := CountRowsByPrefix(tableRows, rows);
    }
    assert ids[..|ids|] == ids;
  }

  lemma TallyNothing(m: map<Key, nat>)
    ensures Tally(m, []) == m
  {
  }

  lemma {:induction false} TallyConcat(m: map<Key, nat>, a: seq<Row>, b: seq<Row>)
    ensures Tally(m, a + b) == Tally(Tally(m, a), b)
  {
    hide TablePrefix, Bumped;
    if b == [] {
      assert a + b == a;
    } else {
      TallyConcat(m, a, b[..|b| - 1]);
      assert (a + b)[..|a + b| - 1] == a + b[..|b| - 1];
    }
  }

  method Adjust(tableRows: map<Key, nat>, delta: map<Key, int>) returns (next: map<Key, nat>)
    ensures next == Adjusted(tableRows, Ascending(delta.Keys), delta)
  {
    hide AdjustedEntry;
    var keys := Ascending(delta.Keys);
    next := tableRows;
    for i := 0 to |keys|
      invariant next == Adjusted(tableRows, keys[..i], delta)
    {
      assert keys[..i + 1][..i] == keys[..i] && keys[i] in keys;
      next := AdjustEntry(next, keys[i], delta[keys[i]]);
    }
    assert keys[..|keys|] == keys;
  }

  method AdjustEntry(m: map<Key, nat>, p: Key, change: int) returns (next: map<Key, nat>)
    ensures next == AdjustedEntry(m, p, change)
  {
    next := m;
    if change > 0 {
      next := m[p := EntryAt(m, p) + change];
    } else if p in m {
      next := m[p := SatSub(m[p], 0 - change)];
      if next[p] == 0 {
        next := next - {p};
      }
    }
  }

  method TallyChunks(files: Files, chunks: seq<seq<FileId>>, mark: u64)
    returns (deleted: nat, added: nat, delta: map<Key, int>)
    requires ChunksOk(files, chunks)
    ensures deleted == RowsIn(files, chunks, All) && added == RowsOut(files, chunks, mark, All)
    ensures delta == ChunksDelta(files, chunks, mark)
  {
    hide Count, Dedup, ChunkRows, Tally, DeltaOf, Summed;
    deleted, added, delta := 0, 0, map[];
    for i := 0 to |chunks|
      invariant ChunksOk(files, chunks[..i])
      invariant deleted == RowsIn(files, chunks[..i], All) && added == RowsOut(files, chunks[..i], mark, All)
      invariant delta == ChunksDelta(files, chunks[..i], mark)
    {
      assert chunks[..i + 1][..i] == chunks[..i];
      var input := ChunkRows(files, chunks[i]);
      var output := DedupSuperseded(input, mark);
      CountAll(input);
      CountAll(output);
      deleted, added := deleted + |input|, added + |output|;
      var inputCounts := CountRowsByPrefix(map[], input);
      var outputCounts := CountRowsByPrefix(map[], output);
      var change := PrefixCountDelta(inputCounts, outputCounts);
      delta := AddDelta(delta, change);
    }
    assert chunks[..|chunks|] == chunks;
  }
}
