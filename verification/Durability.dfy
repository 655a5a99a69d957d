/**
 The node together with the bytes of its write-ahead log.

 Commits are appended to the file, a flush may reset it, and a crash cuts it at any byte. What is left
 of the file delivers the first batches of the log of the node, so that the crash of the bytes is the
 crash of the store that leaves so many batches.
 */
module Durability {
  import opened Bytes
  import opened Memtable
  import opened Lsm
  import opened Nodes
  import opened Lookup
  import opened RowCounts
  import ManifestLog
  import Recovery
  import Wal

  datatype Machine = Machine(n: Node, disk: Recovery.World)

  const IDLE := Machine(NEW, Recovery.FRESH)

  datatype Event =
    | Write(tx: u64, batch: Batch)
    | Do(d: Deed)
    | CutAndReopen(bytes: nat, sstMax: u64, readable: set<FileId>)

  /** A flush that writes a file and resets the log. */
  ghost predicate Resets(n: Node, d: Deed) {
    d.FlushTo? && d.resetWal && Drained(n.w.st.mem) != []
  }

  /** How many batches the first `bytes` bytes of the file hold whole. */
  function Left(disk: Recovery.World, bytes: nat): nat {
    |Recovery.Surviving(disk.entries, bytes)|
  }

  ghost predicate Enabled(m: Machine, e: Event) {
    match e
    case Write(tx, batch) => Recovery.Enabled(m.disk, Recovery.Append(tx, batch)) && Nodes.Enabled(m.n, Plain(Commit(batch)))
    case Do(d) => Nodes.Enabled(m.n, d) && !d.Reopen? && !(d.Plain? && d.a.Commit?)
    case CutAndReopen(bytes, sstMax, readable) =>
      && Recovery.Enabled(m.disk, Recovery.CrashAndReopen(bytes))
      && Nodes.Enabled(m.n, Reopen(sstMax, Left(m.disk, bytes), readable))
  }

  ghost function Step(m: Machine, e: Event): Machine
    requires Enabled(m, e)
  {
    match e
    case Write(tx, batch) => Machine(Nodes.Step(m.n, Plain(Commit(batch))), Recovery.Step(m.disk, Recovery.Append(tx, batch)))
    case Do(d) => Machine(Nodes.Step(m.n, d), if Resets(m.n, d) then Recovery.Step(m.disk, Recovery.Reset) else m.disk)
    case CutAndReopen(bytes, sstMax, readable) =>
      Machine(Nodes.Step(m.n, Reopen(sstMax, Left(m.disk, bytes), readable)),
              Recovery.Step(m.disk, Recovery.CrashAndReopen(bytes)))
  }

  // ---- The invariant ----

  ghost predicate EndsAscend(entries: seq<Recovery.Entry>) {
    forall i, j :: 0 <= i < j < |entries| ==> entries[i].end <= entries[j].end
  }

  /** The file holds exactly the batches of the log of the node, in order. */
  ghost predicate Joined(wal: seq<Batch>, disk: Recovery.World) {
    && EndsAscend(disk.entries) && (forall e :: e in disk.entries ==> e.end <= |disk.file|)
    && Recovery.Batches(disk.entries) == wal
  }

  ghost predicate Inv(m: Machine) {
    Nodes.Inv(m.n) && Recovery.Inv(m.disk) && Joined(m.n.w.st.wal, m.disk)
  }

  /** The batches that survive a cut are the first ones. */
  lemma {:induction false} SurvivorsArePrefix(entries: seq<Recovery.Entry>, bytes: nat)
    requires EndsAscend(entries)
    ensures Recovery.Surviving(entries, bytes) <= entries
  {
    if entries != [] {
      var front, last := entries[..|entries| - 1], entries[|entries| - 1];
      SurvivorsArePrefix(front, bytes);
      if last.end <= bytes {
        AllSurvive(front, bytes);
        assert front + [last] == entries;
      }
    }
  }

  lemma {:induction false} AllSurvive(entries: seq<Recovery.Entry>, bytes: nat)
    requires forall i :: 0 <= i < |entries| ==> entries[i].end <= bytes
    ensures Recovery.Surviving(entries, bytes) == entries
  {
    if entries != [] {
      AllSurvive(entries[..|entries| - 1], bytes);
      assert entries[..|entries| - 1] + [entries[|entries| - 1]] == entries;
    }
  }

  lemma CutJoined(wal: seq<Batch>, disk: Recovery.World, bytes: nat)
    requires Joined(wal, disk)
    ensures Left(disk, bytes) <= |wal|
    ensures Recovery.Batches(Recovery.Surviving(disk.entries, bytes)) == wal[..Left(disk, bytes)]
  {
    hide Recovery.Surviving;
    SurvivorsArePrefix(disk.entries, bytes);
  }

  // ---- Every step keeps it ----

  lemma WriteKeeps(m: Machine, tx: u64, batch: Batch)
    requires Inv(m) && Enabled(m, Write(tx, batch))
    ensures Inv(Step(m, Write(tx, batch)))
  {
    hide Nodes.Inv, Recovery.Inv, Recovery.BatchRecords, KeysFit, Recovery.BatchFits;
    StepKeeps(m.n, Plain(Commit(batch)));
    Recovery.AppendInv(m.disk, tx, batch);
    WriteJoins(m, tx, batch);
  }

  lemma WriteJoins(m: Machine, tx: u64, batch: Batch)
    requires Joined(m.n.w.st.wal, m.disk) && Enabled(m, Write(tx, batch))
    ensures Joined(Step(m, Write(tx, batch)).n.w.st.wal, Step(m, Write(tx, batch)).disk)
  {
    hide Recovery.BatchRecords, KeysFit, Applied, Stamp, Wal.Frames, Recovery.BatchFits;
    Recovery.BatchRecordsFine(tx, batch);
    var disk := Recovery.Step(m.disk, Recovery.Append(tx, batch));
    var e := disk.entries[|disk.entries| - 1];
    assert disk.entries == m.disk.entries + [e];
    Recovery.BatchesNext(m.disk.entries, e);
    forall i | 0 <= i < |m.disk.entries|
      ensures m.disk.entries[i].end <= e.end
    {
      assert m.disk.entries[i] in m.disk.entries;
    }
  }

  lemma DoKeeps(m: Machine, d: Deed)
    requires Inv(m) && Enabled(m, Do(d))
    ensures Inv(Step(m, Do(d)))
  {
    hide Nodes.Inv, Recovery.Inv, Nodes.Step, Nodes.Enabled, Drained;
    StepKeeps(m.n, d);
    Recovery.ResetInv(m.disk);
    LogKept(m.n, d);
    assert Recovery.Batches([]) == [];
  }

  lemma LogKept(n: Node, d: Deed)
    requires Nodes.Enabled(n, d) && !d.Reopen? && !(d.Plain? && d.a.Commit?)
    ensures Nodes.Step(n, d).w.st.wal == if Resets(n, d) then [] else n.w.st.wal
  {
    hide Drained, CompactFiles, CompactEdits, CompactCounts, FlushEdits, FlushCounts, CollectedAll, IsWatermark, ManifestLog.After,
      WithFile, WithFiles, Heats, Heated, InputsOk, Built, OutputRows;
  }

  lemma CutKeeps(m: Machine, bytes: nat, sstMax: u64, readable: set<FileId>)
    requires Inv(m) && Enabled(m, CutAndReopen(bytes, sstMax, readable))
    ensures Inv(Step(m, CutAndReopen(bytes, sstMax, readable)))
  {
    hide Nodes.Inv, Nodes.Step, Nodes.Enabled, Recovery.Inv, Recovery.Replay, Wal.Recovered, Left, Recovery.Surviving;
    var left := Left(m.disk, bytes);
    StepKeeps(m.n, Reopen(sstMax, left, readable));
    Recovery.CrashInv(m.disk, bytes);
    CutJoined(m.n.w.st.wal, m.disk, bytes);
    SurvivorsArePrefix(m.disk.entries, bytes);
    CutEnds(m.disk, bytes);
    ReopenedLog(m.n, sstMax, left, readable);
  }

  lemma ReopenedLog(n: Node, sstMax: u64, left: nat, readable: set<FileId>)
    requires Nodes.Enabled(n, Reopen(sstMax, left, readable)) && left <= |n.w.st.wal|
    ensures Nodes.Step(n, Reopen(sstMax, left, readable)).w.st.wal == n.w.st.wal[..left]
  {
    hide Lsm.Replay, StampAll, IsSstMax, Replayed, Upto;
  }

  /** What survives ends within what is left of the file. */
  lemma CutEnds(disk: Recovery.World, bytes: nat)
    requires Recovery.Inv(disk) && Recovery.Enabled(disk, Recovery.CrashAndReopen(bytes))
    ensures var disk' := Recovery.Step(disk, Recovery.CrashAndReopen(bytes));
            forall e :: e in disk'.entries ==> e.end <= |disk'.file|
  {
    hide Recovery.Replay, Wal.Recovered, Recovery.Surviving, Wal.Frames, Recovery.PrefixesOk, Recovery.OrphansOk, Recovery.IdsOk;
    Recovery.CrashInv(disk, bytes);
    var disk' := Recovery.Step(disk, Recovery.CrashAndReopen(bytes));
    forall e | e in disk'.entries
      ensures e.end <= |disk'.file|
    {
      assert Recovery.Boundary(disk'.log, e.end);
      var i :| 0 <= i <= |disk'.log| && Recovery.FramesLen(disk'.log, i) == e.end;
      Recovery.FramesLenMonotone(disk'.log, i, |disk'.log|);
      Recovery.WholeLog(disk'.log);
    }
  }

  lemma StepJoins(m: Machine, e: Event)
    requires Inv(m) && Enabled(m, e)
    ensures Inv(Step(m, e))
  {
    hide Inv, Enabled, Step;
    match e
    case Write(tx, batch) => WriteKeeps(m, tx, batch);
    case Do(d) => DoKeeps(m, d);
    case CutAndReopen(bytes, sstMax, readable) => CutKeeps(m, bytes, sstMax, readable);
  }

  ghost predicate Runs(m: Machine, events: seq<Event>, m': Machine)
    decreases |events|
  {
    if events == [] then m == m' else Enabled(m, events[0]) && Runs(Step(m, events[0]), events[1..], m')
  }

  lemma {:induction false} RunJoins(m: Machine, events: seq<Event>, m': Machine)
    requires Inv(m) && Runs(m, events, m')
    ensures Inv(m')
    decreases |events|
  {
    hide Inv, Enabled, Step;
    if events != [] {
      StepJoins(m, events[0]);
      RunJoins(Step(m, events[0]), events[1..], m');
    }
  }

  lemma IdleJoined()
    ensures Inv(IDLE)
  {
    hide Nodes.Inv, Recovery.Inv;
    NewInv();
    Recovery.FreshInv();
    NewLog();
  }

  lemma NewLog()
    ensures NEW.w.st.wal == [] && Recovery.Batches([]) == []
  {
  }

  /**
   A crash at any byte. After any run, unless one to three bytes are left, opening the cut file delivers
   a prefix of the log of the node; replaying what it delivers gives the store that the crash leaving so
   many batches gives; and then every current value is that of the surviving batches exactly if no key of
   the log that is left was overwritten by a flushed batch that the log lost.
   */
  lemma CrashAtAnyByte(events: seq<Event>, m: Machine, bytes: nat, sstMax: u64)
    requires Runs(IDLE, events, m) && bytes <= |m.disk.file| && (bytes == 0 || bytes >= 4)
    requires IsSstMax(m.n.w.st.files, sstMax) && sstMax + |m.n.w.st.wal| < U64_MAX
    ensures var read, w, left := Wal.Recovered(m.disk.file[..bytes]), m.n.w, Left(m.disk, bytes);
            && left <= |w.st.wal| && Lsm.Enabled(w, CrashAndReopen(sstMax, left))
            && read.Ok? && Recovery.Replay(read.value.records).Replayed?
            && Recovery.Replay(read.value.records).done == w.st.wal[..left]
            && var w' := Lsm.Step(w, CrashAndReopen(sstMax, left));
               && w'.st.mem == Lsm.Replay(map[], Recovery.Replay(read.value.records).done, sstMax)
               && ((forall k, o :: ReadIs(w'.hist, k, SnapshotTs(w'.st), o) <==> o == ValueIn(Survivors(w, left), k))
                   <==> NothingStale(w, left))
  {
    hide Runs, IDLE, Nodes.Inv, Recovery.Inv, Left, IsSstMax, ReadIs, Survivors, NothingStale, ValueIn, Lsm.Replay, StampAll, Replayed,
      Wal.Recovered, Recovery.Replay, Recovery.Surviving;
    IdleJoined();
    RunJoins(IDLE, events, m);
    CutJoined(m.n.w.st.wal, m.disk, bytes);
    Recovery.CutDelivers(m.disk, bytes);
    WorldInv(m.n);
    CrashLatestIff(m.n.w, sstMax, Left(m.disk, bytes));
  }

  lemma WorldInv(n: Node)
    requires Nodes.Inv(n)
    ensures Lsm.Inv(n.w)
  {
    hide Lsm.Inv;
  }
}
