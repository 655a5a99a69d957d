/** The in-memory write buffer: one version chain per key. */
module Memtable {
  import opened Bytes
  import opened Sequences
  import opened KeyOrder
  import opened Version
  import opened Compaction

  datatype Mutation = Put(key: Key, value: Value) | Delete(key: Key) {
    function Update(): Option<Value> {
      match this
      case Put(_, v) => Some(v)
      case Delete(_) => None
    }
  }

  type Entries = map<Key, seq<VersionedValue>>

  function ChainOf(entries: Entries, k: Key): seq<VersionedValue> {
    if k in entries then entries[k] else []
  }

  function MemContents(entries: Entries, k: Key): map<u64, Option<Value>> {
    Contents(ChainOf(entries, k))
  }

  ghost predicate ChainsOk(entries: Entries) {
    forall k :: k in entries ==> Chain(entries[k])
  }

  /** The last update of each key in a batch. */
  function Updates(batch: seq<Mutation>): map<Key, Option<Value>> {
    if batch == [] then map[]
    else Updates(batch[..|batch| - 1])[batch[|batch| - 1].key := batch[|batch| - 1].Update()]
  }

  /** One mutation installed at a commit timestamp. */
  function Installed(entries: Entries, m: Mutation, ts: u64): Entries {
    entries[m.key := Inserted(ChainOf(entries, m.key), Live(m.Update(), ts), OPEN_ENDED_TS)]
  }

  function Applied(entries: Entries, batch: seq<Mutation>, ts: u64): Entries {
    if batch == [] then entries
    else Installed(Applied(entries, batch[..|batch| - 1], ts), batch[|batch| - 1], ts)
  }

  function CollectedAll(entries: Entries, oldest: u64): Entries {
    map k | k in entries :: Collected(entries[k], oldest)
  }

  /** All versions of one key as rows, newest first. */
  function RowsOf(k: Key, vs: seq<VersionedValue>): seq<Row> {
    seq(|vs|, i requires 0 <= i < |vs| => Row(k, vs[i]))
  }

  function DrainedOver(entries: Entries, ks: seq<Key>): seq<Row>
    requires forall k :: k in ks ==> k in entries
  {
    if ks == [] then [] else RowsOf(ks[0], entries[ks[0]]) + DrainedOver(entries, ks[1..])
  }

  /** Every committed version, keys ascending and newest first within a key. */
  function Drained(entries: Entries): seq<Row> {
    DrainedOver(entries, Ascending(entries.Keys))
  }

  // ---- Meaning of a batch ----

  /** Applying a batch adds, per key it touches, one version at its timestamp: the last update. */
  lemma {:induction false} AppliedContents(entries: Entries, batch: seq<Mutation>, ts: u64)
    requires ChainsOk(entries)
    ensures ChainsOk(Applied(entries, batch, ts))
    ensures forall k :: MemContents(Applied(entries, batch, ts), k) ==
              if k in Updates(batch) then MemContents(entries, k)[ts := Updates(batch)[k]] else MemContents(entries, k)
  {
    if batch != [] {
      var front, m := batch[..|batch| - 1], batch[|batch| - 1];
      AppliedContents(entries, front, ts);
      var mid := Applied(entries, front, ts);
      InsertedChain(ChainOf(mid, m.key), Live(m.Update(), ts));
    }
  }

  lemma CollectedContents(entries: Entries, oldest: u64)
    requires ChainsOk(entries)
    ensures ChainsOk(CollectedAll(entries, oldest))
    ensures forall k, t: u64 :: t in MemContents(CollectedAll(entries, oldest), k) ==>
              t in MemContents(entries, k) && MemContents(entries, k)[t] == MemContents(CollectedAll(entries, oldest), k)[t]
    ensures forall k, t: u64 :: t in MemContents(entries, k) && t !in MemContents(CollectedAll(entries, oldest), k) ==>
              Hidden(MemContents(CollectedAll(entries, oldest), k), t, oldest)
  {
    forall k | k in entries ensures Chain(Collected(entries[k], oldest)) {
      CollectedChain(entries[k], oldest);
    }
    forall k, t: u64 | t in MemContents(CollectedAll(entries, oldest), k)
      ensures t in MemContents(entries, k) && MemContents(entries, k)[t] == MemContents(CollectedAll(entries, oldest), k)[t]
    {
      CollectedChain(entries[k], oldest);
    }
    forall k, t: u64 | t in MemContents(entries, k) && t !in MemContents(CollectedAll(entries, oldest), k)
      ensures Hidden(MemContents(CollectedAll(entries, oldest), k), t, oldest)
    {
      CollectedChain(entries[k], oldest);
    }
  }

  /** After collection a key has exactly the versions that no newer version at or below the watermark
      hides: at most one at or below the watermark is left of any key. */
  lemma CollectedAllExactly(entries: Entries, oldest: u64)
    requires ChainsOk(entries)
    ensures forall k, t: u64 :: t in MemContents(CollectedAll(entries, oldest), k) <==>
              t in MemContents(entries, k) && !exists t' :: t' in MemContents(entries, k) && t < t' <= oldest
    ensures forall k, t: u64, t': u64 | t in MemContents(CollectedAll(entries, oldest), k) && t < t' ::
              t' in MemContents(CollectedAll(entries, oldest), k) ==> t' > oldest
  {
    hide Collected, Contents;
    CollectedContents(entries, oldest);
    forall k, t: u64, t' | t in MemContents(CollectedAll(entries, oldest), k) && t' in MemContents(entries, k) && t < t'
      ensures t' > oldest
    {
      CollectedExactly(ChainOf(entries, k), oldest);
      CollectedOne(entries, oldest, k);
    }
  }

  lemma CollectedOne(entries: Entries, oldest: u64, k: Key)
    ensures ChainOf(CollectedAll(entries, oldest), k) == Collected(ChainOf(entries, k), oldest)
  {
  }

  // ---- Draining ----

  lemma {:induction false} DrainedOverMembers(entries: Entries, ks: seq<Key>)
    requires forall k :: k in ks ==> k in entries
    ensures forall r :: r in DrainedOver(entries, ks) <==> r.key in ks && r.version in entries[r.key]
  {
    if ks != [] {
      DrainedOverMembers(entries, ks[1..]);
      var k := ks[0];
      RowsOfMembers(k, entries[k]);
      assert ks == [k] + ks[1..];
    }
  }

  lemma RowsOfMembers(k: Key, vs: seq<VersionedValue>)
    ensures forall r :: r in RowsOf(k, vs) <==> r.key == k && r.version in vs
  {
    forall r: Row | r.key == k && r.version in vs ensures r in RowsOf(k, vs) {
      var i :| 0 <= i < |vs| && vs[i] == r.version;
      assert RowsOf(k, vs)[i] == r;
    }
  }

  lemma DrainedMembers(entries: Entries)
    ensures forall r :: r in Drained(entries) <==> r.key in entries && r.version in entries[r.key]
  {
    DrainedOverMembers(entries, Ascending(entries.Keys));
  }

  lemma DrainedSorted(entries: Entries)
    requires ChainsOk(entries)
    ensures StrictlySorted(Drained(entries))
  {
    AscendingSorted(entries.Keys);
    DrainedOverSorted(entries, Ascending(entries.Keys));
  }

  lemma {:induction false} DrainedOverSorted(entries: Entries, ks: seq<Key>)
    requires ChainsOk(entries) && StrictlyAscending(ks) && forall k :: k in ks ==> k in entries
    ensures StrictlySorted(DrainedOver(entries, ks))
  {
    if ks != [] {
      var k := ks[0];
      var head, tail := RowsOf(k, entries[k]), DrainedOver(entries, ks[1..]);
      DrainedOverSorted(entries, ks[1..]);
      DrainedOverMembers(entries, ks[1..]);
      RowsOfSorted(k, entries[k]);
      forall i | 0 <= i < |tail| ensures Less(k, tail[i].key) {
        assert tail[i] in tail && tail[i].key in ks[1..];
        var j :| 0 <= j < |ks[1..]| && ks[1..][j] == tail[i].key;
        assert Less(ks[0], ks[j + 1]);
      }
    }
  }

  lemma RowsOfSorted(k: Key, vs: seq<VersionedValue>)
    requires Chain(vs)
    ensures StrictlySorted(RowsOf(k, vs))
  {
    forall i, j | 0 <= i < j < |vs| ensures vs[i].beginTs > vs[j].beginTs {
      Descending(vs, i, j);
    }
  }

  lemma {:induction false} Descending(vs: seq<VersionedValue>, i: nat, j: nat)
    requires Chain(vs) && i < j < |vs|
    ensures vs[i].beginTs > vs[j].beginTs && vs[j].endTs <= vs[i].beginTs
    decreases j
  {
    ChainShape(vs, j);
    if i < j - 1 {
      Descending(vs, i, j - 1);
    }
  }

  // ---- The buffer as an object ----

  lemma NothingStored(entries: Entries, k: Key)
    requires k !in entries
    ensures MemContents(entries, k) == map[] && ChainOf(entries, k) == []
  {
  }

  class MemTable {
    var entries: Entries

    constructor ()
      ensures entries == map[]
    {
      entries := map[];
    }

    method ApplyMutationsBatch(batch: seq<Mutation>, commitTs: u64)
      modifies this
      ensures entries == Applied(old(entries), batch, commitTs)
    {
      for i := 0 to |batch|
        invariant entries == Applied(old(entries), batch[..i], commitTs)
      {
        assert batch[..i + 1][..i] == batch[..i];
        entries := Installed(entries, batch[i], commitTs);
      }
      assert batch[..|batch|] == batch;
    }

    method Get(key: Key, snapshot: u64) returns (r: Option<VersionedValue>)
      ensures r == FirstVisible(ChainOf(entries, key), snapshot)
      ensures ChainsOk(entries) && snapshot < OPEN_ENDED_TS ==>
                if r.None? then forall t :: t in MemContents(entries, key) ==> t > snapshot
                else IsNewest(MemContents(entries, key), snapshot, r.value.beginTs)
                     && r.value.value == MemContents(entries, key)[r.value.beginTs]
    {
      hide Contents, Chain, IsNewest;
      if key !in entries {
        NothingStored(entries, key);
        return None;
      }
      var chain, i := entries[key], 0;
      if ChainsOk(entries) && snapshot < OPEN_ENDED_TS {
        VisibleIsNewest(chain, snapshot);
      }
      assert chain[0..] == chain;
      while i < |chain|
        invariant 0 <= i <= |chain|
        invariant FirstVisible(chain[i..], snapshot) == FirstVisible(chain, snapshot)
      {
        if chain[i].VisibleAt(snapshot) {
          return Some(chain[i]);
        }
        assert chain[i..][1..] == chain[i + 1..];
        i := i + 1;
      }
      return None;
    }

    method DrainInto() returns (rows: seq<Row>)
      ensures rows == Drained(entries)
    {
      rows := [];
      var ks := Ascending(entries.Keys);
      for i := 0 to |ks|
        invariant rows + DrainedOver(entries, ks[i..]) == Drained(entries)
      {
        assert ks[i..][1..] == ks[i + 1..] && ks[i] in ks;
        Regroup(rows, RowsOf(ks[i], entries[ks[i]]), DrainedOver(entries, ks[i + 1..]));
        rows := rows + RowsOf(ks[i], entries[ks[i]]);
      }
    }

    method GarbageCollect(oldest: u64)
      modifies this
      ensures entries == CollectedAll(old(entries), oldest)
    {
      var todo := entries.Keys;
      while todo != {}
        invariant todo <= entries.Keys == old(entries).Keys
        invariant forall k :: k in entries ==>
                    entries[k] == if k in todo then old(entries)[k] else Collected(old(entries)[k], oldest)
      {
        var k :| k in todo;
        entries := entries[k := Collected(entries[k], oldest)];
        todo := todo - {k};
      }
    }

    method Clear()
      modifies this
      ensures entries == map[]
    {
      entries := map[];
    }
  }
}
