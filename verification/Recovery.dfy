/**
 Crash atomicity of the write-ahead log.

 A committed batch is a run of mutation frames and a commit frame. Reopening parses what is left of
 the file, groups mutations by transaction id and delivers a group when its commit frame is met.
 Frames whose commit frame was lost stay in the file as orphans.
 */
module Recovery {
  import opened Bytes
  import opened Memtable
  import opened Wal

  type Batch = seq<Mutation>

  // ---- Writing batches ----

  function RecordOf(tx: u64, m: Mutation): Record {
    match m
    case Put(k, v) => Record(tx, PutOp, k, Some(v))
    case Delete(k) => Record(tx, DeleteOp, k, None)
  }

  function MutationRecords(tx: u64, batch: Batch): (rs: seq<Record>)
    ensures |rs| == |batch|
  {
    if batch == [] then []
    else MutationRecords(tx, batch[..|batch| - 1]) + [RecordOf(tx, batch[|batch| - 1])]
  }

  function CommitRecord(tx: u64): Record {
    Record(tx, CommitOp, [], None)
  }

  function BatchRecords(tx: u64, batch: Batch): seq<Record> {
    MutationRecords(tx, batch) + [CommitRecord(tx)]
  }

  predicate BatchFits(batch: Batch) {
    forall i :: 0 <= i < |batch| ==> MutationFits(batch[i])
  }

  predicate MutationFits(m: Mutation) {
    |m.key| < NONE && (m.Put? ==> |m.value| < NONE)
  }

  predicate MutationEncodable(m: Mutation) {
    |m.key| <= U32_MAX && (m.Put? ==> |m.value| <= U32_MAX)
  }

  lemma {:induction false} BatchRecordsFine(tx: u64, batch: Batch)
    requires BatchFits(batch)
    ensures AllFit(MutationRecords(tx, batch)) && AllFit(BatchRecords(tx, batch))
  {
    if batch != [] {
      BatchRecordsFine(tx, batch[..|batch| - 1]);
    }
  }

  /** The buffer that frames are encoded into before they are written to the file. */
  class Buffer {
    var bytes: seq<byte>

    constructor ()
      ensures bytes == []
    {
      bytes := [];
    }

    method EncodeFrame(tx: u64, op: OpType, key: Key, value: Option<Value>) returns (result: Result<()>)
      modifies this
      ensures result.Ok? <==> Encodable(Record(tx, op, key, value))
      ensures result.Ok? ==> bytes == old(bytes) + Frame(Record(tx, op, key, value))
      ensures !result.Ok? ==> result == OutOfRange && bytes == old(bytes)
    {
      hide Frame;
      if value.Some? && |value.value| > U32_MAX {
        return OutOfRange;
      }
      if |key| > U32_MAX {
        return OutOfRange;
      }
      bytes := bytes + Frame(Record(tx, op, key, value));
      return Ok(());
    }

    /** On the first oversized mutation the frames before it stay in the buffer. */
    method EncodeMutations(tx: u64, batch: Batch) returns (result: Result<()>)
      modifies this
      ensures result.Ok? <==> forall i :: 0 <= i < |batch| ==> MutationEncodable(batch[i])
      ensures result.Ok? ==> AllEncodable(BatchRecords(tx, batch))
      ensures result.Ok? ==> bytes == old(bytes) + Frames(BatchRecords(tx, batch))
      ensures !result.Ok? ==> result == OutOfRange && exists i ::
                && 0 <= i < |batch| && !MutationEncodable(batch[i])
                && AllEncodable(MutationRecords(tx, batch[..i]))
                && bytes == old(bytes) + Frames(MutationRecords(tx, batch[..i]))
    {
      hide Frame, Frames, MutationRecords;
      NoMutations(tx);
      for i := 0 to |batch|
        invariant forall k :: 0 <= k < i ==> MutationEncodable(batch[k])
        invariant AllEncodable(MutationRecords(tx, batch[..i]))
        invariant bytes == old(bytes) + Frames(MutationRecords(tx, batch[..i]))
      {
        NextMutation(tx, batch, i);
        match batch[i] {
          case Put(key, value) =>
            result := EncodeFrame(tx, PutOp, key, Some(value));
          case Delete(key) =>
            result := EncodeFrame(tx, DeleteOp, key, None);
        }
        if !result.Ok? {
          return;
        }
        FramesNext(MutationRecords(tx, batch[..i]), RecordOf(tx, batch[i]));
      }
      assert batch[..|batch|] == batch;
      FramesNext(MutationRecords(tx, batch), CommitRecord(tx));
      result := EncodeFrame(tx, CommitOp, [], None);
    }
  }

  lemma NoMutations(tx: u64)
    ensures MutationRecords(tx, []) == [] && Frames([]) == []
  {
  }

  lemma NextMutation(tx: u64, batch: Batch, i: nat)
    requires i < |batch|
    ensures MutationRecords(tx, batch[..i + 1]) == MutationRecords(tx, batch[..i]) + [RecordOf(tx, batch[i])]
  {
    assert batch[..i + 1][..i] == batch[..i];
  }

  lemma FramesNext(log: seq<Record>, r: Record)
    requires AllEncodable(log) && Encodable(r)
    ensures AllEncodable(log + [r]) && Frames(log + [r]) == Frames(log) + Frame(r)
  {
    hide Frame;
    FramesConcat(log, [r]);
    assert [r][1..] == [];
    assert Frames([r]) == Frame(r) + [];
  }

  // ---- Replay ----

  datatype Replayed = Replayed(pending: map<u64, seq<Record>>, highest: u64, done: seq<Batch>) | Failed

  /** The mutations of a group; a put without a value is an error. */
  function BatchOf(group: seq<Record>): Option<Batch> {
    if group == [] then Some([])
    else
      var front, r := BatchOf(group[..|group| - 1]), group[|group| - 1];
      if front.None? || (r.op.PutOp? && r.value.None?) then None
      else if r.op.PutOp? then Some(front.value + [Put(r.key, r.value.value)])
      else if r.op.DeleteOp? then Some(front.value + [Delete(r.key)])
      else front
  }

  function Group(pending: map<u64, seq<Record>>, tx: u64): seq<Record> {
    if tx in pending then pending[tx] else []
  }

  function Higher(a: u64, b: u64): u64 {
    if a >= b then a else b
  }

  function ReplayStep(s: Replayed, r: Record): Replayed {
    if s.Failed? then s
    else
      var highest := Higher(s.highest, r.txId);
      match r.op
      case PutOp => Replayed(s.pending[r.txId := Group(s.pending, r.txId) + [r]], highest, s.done)
      case DeleteOp => Replayed(s.pending[r.txId := Group(s.pending, r.txId) + [r]], highest, s.done)
      case AbortOp => Replayed(s.pending - {r.txId}, highest, s.done)
      case CommitOp =>
        if r.txId !in s.pending then s.(highest := highest)
        else
          var batch := BatchOf(s.pending[r.txId]);
          if batch.None? then Failed
          else Replayed(s.pending - {r.txId}, highest, s.done + [batch.value])
  }

  function Replay(log: seq<Record>): Replayed {
    if log == [] then Replayed(map[], 0, []) else ReplayStep(Replay(log[..|log| - 1]), log[|log| - 1])
  }

  /** The replay loop of opening: the batches delivered, and the first free transaction id. */
  method ReplayLog(records: seq<Record>) returns (result: Result<(seq<Batch>, u64)>)
    ensures result.Ok? <==> Replay(records).Replayed?
    ensures result.Ok? ==> result.value == (Replay(records).done, NextTx(Replay(records).highest))
  {
    var pending: map<u64, seq<Record>>, highest: u64, done: seq<Batch> := map[], 0, [];
    for i := 0 to |records|
      invariant Replay(records[..i]) == Replayed(pending, highest, done)
    {
      var r := records[i];
      assert records[..i + 1][..i] == records[..i];
      highest := Higher(highest, r.txId);
      match r.op
      case PutOp => pending := pending[r.txId := Group(pending, r.txId) + [r]];
      case DeleteOp => pending := pending[r.txId := Group(pending, r.txId) + [r]];
      case AbortOp => pending := pending - {r.txId};
      case CommitOp =>
        if r.txId in pending {
          var batch := BatchOf(pending[r.txId]);
          if batch.None? {
            StaysFailed(records, i + 1);
            return Corrupt;
          }
          done := done + [batch.value];
          pending := pending - {r.txId};
        }
    }
    assert records[..|records|] == records;
    return Ok((done, NextTx(highest)));
  }

  lemma {:induction false} StaysFailed(records: seq<Record>, i: nat)
    requires i <= |records| && Replay(records[..i]).Failed?
    ensures Replay(records).Failed?
    decreases |records| - i
  {
    if i < |records| {
      assert records[..i + 1][..i] == records[..i];
      StaysFailed(records, i + 1);
    } else {
      assert records[..i] == records;
    }
  }

  /** Saturating successor. */
  function NextTx(highest: u64): u64 {
    if highest == U64_MAX then highest else highest + 1
  }

  lemma ReplayNext(log: seq<Record>, r: Record)
    ensures Replay(log + [r]) == ReplayStep(Replay(log), r)
  {
    assert (log + [r])[..|log|] == log;
  }

  /** The state once the mutations `rs` of transaction `tx` have been read. */
  function Buffered(s: Replayed, tx: u64, rs: seq<Record>): Replayed
    requires s.Replayed?
  {
    if rs == [] then s
    else Replayed(s.pending[tx := Group(s.pending, tx) + rs], Higher(s.highest, tx), s.done)
  }

  lemma BufferedNext(s: Replayed, tx: u64, rs: seq<Record>, m: Mutation)
    requires s.Replayed?
    ensures ReplayStep(Buffered(s, tx, rs), RecordOf(tx, m)) == Buffered(s, tx, rs + [RecordOf(tx, m)])
  {
    assert Group(s.pending, tx) + (rs + [RecordOf(tx, m)]) == (Group(s.pending, tx) + rs) + [RecordOf(tx, m)];
    if rs == [] {
      assert rs + [RecordOf(tx, m)] == [RecordOf(tx, m)];
    }
  }

  lemma {:induction false} ReplayMutations(log: seq<Record>, tx: u64, batch: Batch)
    requires Replay(log).Replayed?
    ensures Replay(log + MutationRecords(tx, batch)) == Buffered(Replay(log), tx, MutationRecords(tx, batch))
  {
    hide Replay, ReplayStep, Buffered, RecordOf;
    if batch == [] {
      assert log + MutationRecords(tx, batch) == log;
      BufferedNone(Replay(log), tx);
    } else {
      var front, m := batch[..|batch| - 1], batch[|batch| - 1];
      ReplayMutations(log, tx, front);
      ReplayNext(log + MutationRecords(tx, front), RecordOf(tx, m));
      assert log + MutationRecords(tx, batch) == (log + MutationRecords(tx, front)) + [RecordOf(tx, m)];
      BufferedNext(Replay(log), tx, MutationRecords(tx, front), m);
    }
  }

  lemma BufferedNone(s: Replayed, tx: u64)
    requires s.Replayed?
    ensures Buffered(s, tx, []) == s
  {
  }

  /** An abort frame discards what its transaction wrote before it: nothing is delivered, a later commit
      frame with its id finds nothing, and other transactions keep what they have pending. */
  lemma AbortDiscards(log: seq<Record>, tx: u64, batch: Batch)
    requires Replay(log).Replayed?
    ensures var s, t := Replay(log), Replay(log + MutationRecords(tx, batch) + [Record(tx, AbortOp, [], None)]);
            && t.Replayed? && t.done == s.done
            && tx !in t.pending
            && forall other: u64 :: other != tx ==> Group(t.pending, other) == Group(s.pending, other)
    ensures var t := Replay(log + MutationRecords(tx, batch) + [Record(tx, AbortOp, [], None)] + [CommitRecord(tx)]);
            t.Replayed? && t.done == Replay(log).done
  {
    hide Replay, MutationRecords, BatchOf;
    var written := log + MutationRecords(tx, batch);
    ReplayMutations(log, tx, batch);
    ReplayNext(written, Record(tx, AbortOp, [], None));
    ReplayNext(written + [Record(tx, AbortOp, [], None)], CommitRecord(tx));
  }

  lemma BatchOfNext(group: seq<Record>, tx: u64, m: Mutation)
    requires BatchOf(group).Some?
    ensures BatchOf(group + [RecordOf(tx, m)]) == Some(BatchOf(group).value + [m])
  {
    assert (group + [RecordOf(tx, m)])[..|group|] == group;
  }

  lemma {:induction false} BatchOfMutations(orphans: seq<Record>, tx: u64, batch: Batch)
    requires BatchOf(orphans).Some?
    ensures BatchOf(orphans + MutationRecords(tx, batch)) == Some(BatchOf(orphans).value + batch)
  {
    hide BatchOf, RecordOf;
    if batch == [] {
      assert orphans + MutationRecords(tx, batch) == orphans;
      assert BatchOf(orphans).value + batch == BatchOf(orphans).value;
    } else {
      var front, m := batch[..|batch| - 1], batch[|batch| - 1];
      BatchOfMutations(orphans, tx, front);
      BatchOfNext(orphans + MutationRecords(tx, front), tx, m);
      assert orphans + MutationRecords(tx, batch) == (orphans + MutationRecords(tx, front)) + [RecordOf(tx, m)];
      assert BatchOf(orphans).value + batch == (BatchOf(orphans).value + front) + [m];
    }
  }

  function Orphans(s: Replayed, tx: u64): Option<Batch>
    requires s.Replayed?
  {
    BatchOf(Group(s.pending, tx))
  }

  /** The state once a batch has been delivered behind the orphans that share its id. */
  function Delivered(s: Replayed, tx: u64, batch: Batch): Replayed
    requires s.Replayed? && Orphans(s, tx).Some?
  {
    Replayed(s.pending - {tx}, Higher(s.highest, tx), s.done + [Orphans(s, tx).value + batch])
  }

  lemma CommitDelivers(s: Replayed, tx: u64, batch: Batch)
    requires s.Replayed? && batch != [] && Orphans(s, tx).Some?
    ensures ReplayStep(Buffered(s, tx, MutationRecords(tx, batch)), CommitRecord(tx)) == Delivered(s, tx, batch)
  {
    hide BatchOf, MutationRecords;
    BatchOfMutations(Group(s.pending, tx), tx, batch);
    var t := Buffered(s, tx, MutationRecords(tx, batch));
    assert MutationRecords(tx, batch) != [];
    assert t.pending - {tx} == s.pending - {tx};
  }

  /** Whatever the log holds, a batch appended to it is delivered last, behind the orphans that share its id. */
  lemma BatchDelivered(log: seq<Record>, tx: u64, batch: Batch)
    requires Replay(log).Replayed? && batch != [] && Orphans(Replay(log), tx).Some?
    ensures Replay(log + BatchRecords(tx, batch)) == Delivered(Replay(log), tx, batch)
  {
    hide Replay, ReplayStep, Buffered, MutationRecords, Delivered, Orphans;
    ReplayMutations(log, tx, batch);
    ReplayNext(log + MutationRecords(tx, batch), CommitRecord(tx));
    assert log + BatchRecords(tx, batch) == (log + MutationRecords(tx, batch)) + [CommitRecord(tx)];
    CommitDelivers(Replay(log), tx, batch);
  }

  /** It is delivered unmixed exactly when its id has no orphans. */
  lemma DeliveredAloneIff(log: seq<Record>, tx: u64, batch: Batch)
    requires Replay(log).Replayed? && batch != [] && Orphans(Replay(log), tx).Some?
    ensures var t := Replay(log + BatchRecords(tx, batch));
            t.Replayed? && (t.done == Replay(log).done + [batch] <==> Orphans(Replay(log), tx) == Some([]))
  {
    hide Replay, Orphans, BatchRecords;
    BatchDelivered(log, tx, batch);
    LastDiffers(Replay(log).done, Orphans(Replay(log), tx).value, batch);
  }

  /** A log cut to one orphaned put, then a batch written under the same id: both reach the store as one batch. */
  lemma ReusedIdMixes(tx: u64, k: Key, v: Value, k2: Key)
    ensures var cut := [RecordOf(tx, Put(k, v))];
            && Replay(cut).Replayed? && Replay(cut).done == []
            && Replay(cut + BatchRecords(tx, [Delete(k2)])).Replayed?
            && Replay(cut + BatchRecords(tx, [Delete(k2)])).done == [[Put(k, v), Delete(k2)]]
  {
    var r := RecordOf(tx, Put(k, v));
    ReplayNext([], r);
    assert [] + [r] == [r];
    var s := Replay([r]);
    assert s.pending[tx] == [] + [r] == [r];
    assert [r][..0] == [];
    var one: Batch := [Put(k, v)];
    assert [] + one == one;
    assert BatchOf([r]) == Some([] + one);
    BatchDelivered([r], tx, [Delete(k2)]);
    var both := [Put(k, v)] + [Delete(k2)];
    assert both == [Put(k, v), Delete(k2)];
    assert Orphans(s, tx) == Some(one);
    assert Delivered(s, tx, [Delete(k2)]).done == [] + [both] == [both];
  }

  lemma LastDiffers(done: seq<Batch>, orphans: Batch, batch: Batch)
    ensures done + [orphans + batch] == done + [batch] <==> orphans == []
  {
    assert (done + [orphans + batch])[|done|] == orphans + batch;
    assert (done + [batch])[|done|] == batch;
    if orphans == [] {
      assert orphans + batch == batch;
    } else {
      assert |orphans + batch| > |batch|;
    }
  }

  // ---- Runs ----

  /** A committed batch and the file offset at which its commit frame ends. */
  datatype Entry = Entry(end: nat, batch: Batch)

  /**
   The file, the first id of this session and the next free id; with them the batches committed so
   far whose commit frame is in the file, and the frames in the file.
   */
  datatype World = World(file: seq<byte>, openTx: u64, nextTx: u64, entries: seq<Entry>, log: seq<Record>)

  datatype Action =
    | Append(tx: u64, batch: Batch)
    | Reset
    | CrashAndReopen(n: nat)

  /** The entries whose commit frame ends within the first `n` bytes. */
  function Surviving(entries: seq<Entry>, n: nat): seq<Entry> {
    if entries == [] then []
    else
      var front, last := Surviving(entries[..|entries| - 1], n), entries[|entries| - 1];
      if last.end <= n then front + [last] else front
  }

  function Batches(entries: seq<Entry>): (bs: seq<Batch>)
    ensures |bs| == |entries|
  {
    seq(|entries|, i requires 0 <= i < |entries| => entries[i].batch)
  }

  /** Batches of session ids are appended whole; a crash cuts the file at a byte from which it can be reopened. */
  predicate Enabled(w: World, a: Action) {
    match a
    case Append(tx, batch) => w.openTx <= tx < U64_MAX && batch != [] && BatchFits(batch)
    case Reset => true
    case CrashAndReopen(n) => n <= |w.file| && Recovered(w.file[..n]).Ok? && Replay(Recovered(w.file[..n]).value.records).Replayed?
  }

  function Step(w: World, a: Action): World
    requires Enabled(w, a)
  {
    match a
    case Append(tx, batch) =>
      BatchRecordsFine(tx, batch);
      var file := w.file + Frames(BatchRecords(tx, batch));
      World(file, w.openTx, Higher(w.nextTx, tx + 1), w.entries + [Entry(|file|, batch)],
            w.log + BatchRecords(tx, batch))
    case Reset => World([], w.openTx, w.nextTx, [], [])
    case CrashAndReopen(n) =>
      var parsed := Recovered(w.file[..n]).value;
      var next := NextTx(Replay(parsed.records).highest);
      World(w.file[..parsed.validBytes], next, next, Surviving(w.entries, n), parsed.records)
  }

  const FRESH := World([], 1, 1, [], [])

  function Run(actions: seq<Action>): Option<World> {
    if actions == [] then Some(FRESH)
    else
      var w, a := Run(actions[..|actions| - 1]), actions[|actions| - 1];
      if w.Some? && Enabled(w.value, a) then Some(Step(w.value, a)) else None
  }

  // ---- The invariant ----

  ghost predicate FileOk(file: seq<byte>, log: seq<Record>) {
    AllFit(log) && file == Frames(log)
  }

  ghost predicate IdsOk(log: seq<Record>, openTx: u64, nextTx: u64) {
    1 <= openTx <= nextTx && forall i :: 0 <= i < |log| ==> log[i].txId < nextTx
  }

  ghost predicate OrphansOk(s: Replayed, openTx: u64) {
    s.Replayed? && forall tx :: tx in s.pending ==> tx < openTx
  }

  ghost predicate Boundary(log: seq<Record>, end: nat)
    requires AllFit(log)
  {
    exists i :: 0 <= i <= |log| && FramesLen(log, i) == end
  }

  /** Where frame `i` starts. */
  function FramesLen(log: seq<Record>, i: nat): nat
    requires AllFit(log) && i <= |log|
  {
    |Frames(log[..i])|
  }

  ghost predicate EndsOk(log: seq<Record>, entries: seq<Entry>)
    requires AllFit(log)
  {
    forall e :: e in entries ==> Boundary(log, e.end)
  }

  /** The first `j` frames replay as exactly the batches that end within them. */
  ghost predicate PrefixOk(log: seq<Record>, entries: seq<Entry>, j: nat)
    requires AllFit(log) && j <= |log|
  {
    var s := Replay(log[..j]);
    s.Replayed? && s.done == Batches(Surviving(entries, FramesLen(log, j)))
  }

  ghost predicate PrefixesOk(log: seq<Record>, entries: seq<Entry>)
    requires AllFit(log)
  {
    forall j :: 0 <= j <= |log| ==> PrefixOk(log, entries, j)
  }

  ghost predicate Inv(w: World) {
    && FileOk(w.file, w.log)
    && IdsOk(w.log, w.openTx, w.nextTx)
    && OrphansOk(Replay(w.log), w.openTx)
    && EndsOk(w.log, w.entries)
    && PrefixesOk(w.log, w.entries)
  }

  // ---- Entries ----

  lemma {:induction false} SurvivingTwice(entries: seq<Entry>, n: nat, m: nat)
    requires m <= n
    ensures Surviving(Surviving(entries, n), m) == Surviving(entries, m)
  {
    if entries != [] {
      var front, last := entries[..|entries| - 1], entries[|entries| - 1];
      SurvivingTwice(front, n, m);
      if last.end <= n {
        SurvivingNext(Surviving(front, n), last, m);
      }
    }
  }

  lemma SurvivingNext(entries: seq<Entry>, e: Entry, n: nat)
    ensures Surviving(entries + [e], n) == if e.end <= n then Surviving(entries, n) + [e] else Surviving(entries, n)
  {
    assert (entries + [e])[..|entries|] == entries;
  }

  lemma {:induction false} SurvivingMember(entries: seq<Entry>, n: nat, e: Entry)
    ensures e in Surviving(entries, n) <==> e in entries && e.end <= n
  {
    if entries != [] {
      SurvivingMember(entries[..|entries| - 1], n, e);
    }
  }

  /** Two cuts with no entry's end between them keep the same entries. */
  lemma {:induction false} SameSurvivors(entries: seq<Entry>, m: nat, n: nat)
    requires forall e :: e in entries ==> (e.end <= m <==> e.end <= n)
    ensures Surviving(entries, m) == Surviving(entries, n)
  {
    if entries != [] {
      SameSurvivors(entries[..|entries| - 1], m, n);
    }
  }

  lemma BatchesNext(entries: seq<Entry>, e: Entry)
    ensures Batches(entries + [e]) == Batches(entries) + [e.batch]
  {
  }

  // ---- Frames ----

  lemma FramesLenMonotone(log: seq<Record>, i: nat, j: nat)
    requires AllFit(log) && i <= j <= |log|
    ensures FramesLen(log, i) <= FramesLen(log, j)
    ensures i < j ==> FramesLen(log, i) < FramesLen(log, j)
  {
    hide Frame;
    FramesConcat(log[..i], log[i..j]);
    assert log[..i] + log[i..j] == log[..j];
  }

  lemma FramesLenPrefix(log: seq<Record>, more: seq<Record>, i: nat)
    requires AllFit(log) && AllFit(more) && i <= |log|
    ensures AllFit(log + more) && FramesLen(log + more, i) == FramesLen(log, i)
    ensures FramesLen(log + more, |log|) == |Frames(log)|
    ensures FramesLen(log + more, |log + more|) == |Frames(log)| + |Frames(more)|
  {
    hide Frame;
    FramesConcat(log, more);
    assert (log + more)[..i] == log[..i];
    assert (log + more)[..|log|] == log && (log + more)[..|log + more|] == log + more;
  }

  // ---- Ids ----

  lemma {:induction false} HighestIsBound(log: seq<Record>)
    requires Replay(log).Replayed?
    ensures forall i :: 0 <= i < |log| ==> log[i].txId <= Replay(log).highest
    ensures forall tx :: tx in Replay(log).pending ==> tx <= Replay(log).highest
    ensures Replay(log).highest == 0 || exists i :: 0 <= i < |log| && log[i].txId == Replay(log).highest
  {
    hide BatchOf;
    if log != [] {
      HighestIsBound(log[..|log| - 1]);
    }
  }

  // ---- Append ----

  lemma {:induction false} MutationPrefix(tx: u64, batch: Batch, k: nat)
    requires k <= |batch|
    ensures MutationRecords(tx, batch)[..k] == MutationRecords(tx, batch[..k])
  {
    if k == |batch| {
      assert batch[..k] == batch;
    } else {
      MutationPrefix(tx, batch[..|batch| - 1], k);
      assert batch[..|batch| - 1][..k] == batch[..k];
    }
  }

  lemma NoOrphans(s: Replayed, openTx: u64, tx: u64)
    requires OrphansOk(s, openTx) && openTx <= tx
    ensures Orphans(s, tx) == Some([])
  {
  }

  lemma EntriesWithin(log: seq<Record>, entries: seq<Entry>, n: nat)
    requires AllFit(log) && EndsOk(log, entries) && n >= |Frames(log)|
    ensures Surviving(entries, n) == Surviving(entries, |Frames(log)|)
  {
    hide Frames;
    assert log[..|log|] == log;
    forall e | e in entries
      ensures e.end <= |Frames(log)|
    {
      var i :| 0 <= i <= |log| && FramesLen(log, i) == e.end;
      FramesLenMonotone(log, i, |log|);
    }
    SameSurvivors(entries, |Frames(log)|, n);
  }

  /** A prefix that ends inside the appended batch delivers what the log delivered before it. */
  lemma PartialBatch(log: seq<Record>, tx: u64, batch: Batch, k: nat)
    requires Replay(log).Replayed? && k <= |batch|
    ensures var s := Replay((log + BatchRecords(tx, batch))[..|log| + k]);
            s.Replayed? && s.done == Replay(log).done
  {
    hide Replay, MutationRecords;
    ReplayMutations(log, tx, batch[..k]);
    MutationPrefix(tx, batch, k);
    assert (log + BatchRecords(tx, batch))[..|log| + k] == log + MutationRecords(tx, batch)[..k];
  }

  lemma AppendPrefix(log: seq<Record>, entries: seq<Entry>, openTx: u64, tx: u64, batch: Batch, e: Entry, j: nat)
    requires AllFit(log) && EndsOk(log, entries) && PrefixesOk(log, entries) && OrphansOk(Replay(log), openTx)
    requires openTx <= tx && batch != [] && AllFit(BatchRecords(tx, batch))
    requires e == Entry(|Frames(log)| + |Frames(BatchRecords(tx, batch))|, batch)
    requires j <= |log + BatchRecords(tx, batch)|
    ensures AllFit(log + BatchRecords(tx, batch)) && PrefixOk(log + BatchRecords(tx, batch), entries + [e], j)
  {
    hide Frames, Replay, Surviving, Batches, BatchRecords, FramesLen, EndsOk, OrphansOk, Orphans, AllFit;
    var rs := BatchRecords(tx, batch);
    var log' := log + rs;
    LogFits(log, rs);
    BatchLen(tx, batch);
    WholeLog(log);
    WholeLog(log');
    assert PrefixOk(log, entries, |log|);
    FramesLenPrefix(log, rs, if j <= |log| then j else 0);
    SurvivingNext(entries, e, FramesLen(log', j));
    FramesLenMonotone(log', j, |log'|);
    if j <= |log| {
      assert log'[..j] == log[..j];
      assert PrefixOk(log, entries, j);
    } else {
      FramesLenMonotone(log', |log|, j);
      EntriesWithin(log, entries, FramesLen(log', j));
      if j < |log'| {
        PartialBatch(log, tx, batch, j - |log|);
      } else {
        NoOrphans(Replay(log), openTx, tx);
        DeliveredAloneIff(log, tx, batch);
        BatchesNext(Surviving(entries, FramesLen(log', j)), e);
      }
    }
  }

  lemma BatchLen(tx: u64, batch: Batch)
    ensures |BatchRecords(tx, batch)| == |batch| + 1
  {
  }

  lemma LogFits(log: seq<Record>, rs: seq<Record>)
    requires AllFit(log) && AllFit(rs)
    ensures AllFit(log + rs)
  {
  }

  lemma WholeLog(log: seq<Record>)
    requires AllFit(log)
    ensures log[..|log|] == log && FramesLen(log, |log|) == |Frames(log)|
  {
    assert log[..|log|] == log;
  }

  lemma AppendIds(log: seq<Record>, openTx: u64, nextTx: u64, tx: u64, batch: Batch)
    requires IdsOk(log, openTx, nextTx) && openTx <= tx < U64_MAX
    ensures IdsOk(log + BatchRecords(tx, batch), openTx, Higher(nextTx, tx + 1))
  {
    BatchIds(tx, batch);
  }

  lemma {:induction false} BatchIds(tx: u64, batch: Batch)
    ensures forall i :: 0 <= i < |MutationRecords(tx, batch)| ==> MutationRecords(tx, batch)[i].txId == tx
  {
    if batch != [] {
      BatchIds(tx, batch[..|batch| - 1]);
    }
  }

  lemma AppendOrphans(log: seq<Record>, openTx: u64, tx: u64, batch: Batch)
    requires OrphansOk(Replay(log), openTx) && openTx <= tx && batch != []
    ensures OrphansOk(Replay(log + BatchRecords(tx, batch)), openTx)
  {
    hide Replay, BatchRecords;
    NoOrphans(Replay(log), openTx, tx);
    BatchDelivered(log, tx, batch);
  }

  lemma AppendEnds(log: seq<Record>, entries: seq<Entry>, rs: seq<Record>, e: Entry)
    requires AllFit(log) && AllFit(rs) && EndsOk(log, entries) && e.end == |Frames(log)| + |Frames(rs)|
    ensures AllFit(log + rs) && EndsOk(log + rs, entries + [e])
  {
    hide Frames, FramesLen;
    LogFits(log, rs);
    FramesLenPrefix(log, rs, 0);
    forall e' | e' in entries + [e]
      ensures Boundary(log + rs, e'.end)
    {
      if e' in entries {
        var i :| 0 <= i <= |log| && FramesLen(log, i) == e'.end;
        FramesLenPrefix(log, rs, i);
      } else {
        assert FramesLen(log + rs, |log + rs|) == e'.end;
      }
    }
  }

  lemma AppendInv(w: World, tx: u64, batch: Batch)
    requires Inv(w) && Enabled(w, Append(tx, batch))
    ensures Inv(Step(w, Append(tx, batch)))
  {
    hide Frames, Replay, BatchRecords, Surviving, Batches, FramesLen, IdsOk, EndsOk, OrphansOk;
    var rs := BatchRecords(tx, batch);
    BatchRecordsFine(tx, batch);
    FramesConcat(w.log, rs);
    var e := Entry(|w.file| + |Frames(rs)|, batch);
    AppendIds(w.log, w.openTx, w.nextTx, tx, batch);
    AppendOrphans(w.log, w.openTx, tx, batch);
    AppendEnds(w.log, w.entries, rs, e);
    forall j | 0 <= j <= |w.log + rs|
      ensures PrefixOk(w.log + rs, w.entries + [e], j)
    {
      AppendPrefix(w.log, w.entries, w.openTx, tx, batch, e, j);
    }
  }

  // ---- Crash ----

  /** The frames left after a cut at `n`, and which entries end within them. */
  lemma CutKeeps(log: seq<Record>, entries: seq<Entry>, n: nat)
    requires AllFit(log) && EndsOk(log, entries) && n <= |Frames(log)|
    ensures var j := Complete(log, n);
            FramesLen(log, j) <= n && Surviving(entries, n) == Surviving(entries, FramesLen(log, j))
  {
    hide Frames, Parse, Complete;
    var j := Complete(log, n);
    ParseCut(log, n);
    forall e | e in entries
      ensures e.end <= n <==> e.end <= FramesLen(log, j)
    {
      var i :| 0 <= i <= |log| && FramesLen(log, i) == e.end;
      if e.end <= n {
        CompleteIsLast(log, n, i);
        FramesLenMonotone(log, i, j);
      }
    }
    SameSurvivors(entries, n, FramesLen(log, j));
  }

  /** Reopening is refused exactly when one, two or three bytes are left. */
  lemma RecoverableIff(log: seq<Record>, n: nat)
    requires AllFit(log) && n <= |Frames(log)|
    ensures Recovered(Frames(log)[..n]).Ok? <==> n == 0 || n >= 4
    ensures n == 0 || n >= 4 ==>
              Recovered(Frames(log)[..n]) == Ok(Parsed(log[..Complete(log, n)], FramesLen(log, Complete(log, n))))
  {
    hide Parse, Complete, Frames;
    ParseCut(log, n);
    if n == 0 {
      EmptyCut(log);
    } else {
      LogMagic(log);
      CutMagic(Frames(log), n);
    }
  }

  lemma CutMagic(file: seq<byte>, n: nat)
    requires MAGIC <= file && 0 < n <= |file|
    ensures MAGIC <= file[..n] <==> n >= 4
  {
  }

  lemma EmptyCut(log: seq<Record>)
    requires AllFit(log)
    ensures Complete(log, 0) == 0 && log[..0] == [] && FramesLen(log, 0) == 0
  {
  }

  lemma LogMagic(log: seq<Record>)
    requires AllFit(log) && Frames(log) != []
    ensures MAGIC <= Frames(log)
  {
    hide Frame;
    FrameMagic(log[0]);
    assert Frames(log)[..4] == Frame(log[0])[..4];
  }

  lemma CrashPrefixes(log: seq<Record>, entries: seq<Entry>, n: nat)
    requires AllFit(log) && EndsOk(log, entries) && PrefixesOk(log, entries) && n <= |Frames(log)|
    ensures var kept := log[..Complete(log, n)];
            AllFit(kept) && PrefixesOk(kept, Surviving(entries, n)) && EndsOk(kept, Surviving(entries, n))
  {
    hide Frames, Surviving, Batches, Replay;
    var c := Complete(log, n);
    var kept := log[..c];
    CutKeeps(log, entries, n);
    forall j | 0 <= j <= c
      ensures PrefixOk(kept, Surviving(entries, n), j)
    {
      assert PrefixOk(log, entries, j);
      assert kept[..j] == log[..j];
      FramesLenMonotone(log, j, c);
      SurvivingTwice(entries, n, FramesLen(log, j));
    }
    forall e | e in Surviving(entries, n)
      ensures Boundary(kept, e.end)
    {
      SurvivingMember(entries, n, e);
      var i :| 0 <= i <= |log| && FramesLen(log, i) == e.end;
      CompleteIsLast(log, n, i);
      assert kept[..i] == log[..i];
      assert FramesLen(kept, i) == e.end;
    }
  }

  lemma CrashIds(log: seq<Record>, openTx: u64, nextTx: u64, c: nat)
    requires IdsOk(log, openTx, nextTx) && c <= |log| && Replay(log[..c]).Replayed?
    ensures var next := NextTx(Replay(log[..c]).highest);
            IdsOk(log[..c], next, next) && OrphansOk(Replay(log[..c]), next)
  {
    hide Replay;
    HighestIsBound(log[..c]);
  }

  lemma CrashInv(w: World, n: nat)
    requires Inv(w) && Enabled(w, CrashAndReopen(n))
    ensures Inv(Step(w, CrashAndReopen(n)))
  {
    hide Frames, Replay, Complete, Surviving, IdsOk, EndsOk, OrphansOk, PrefixesOk, Recovered, AllFit, FramesLen;
    var c := Complete(w.log, n);
    RecoverableIff(w.log, n);
    CrashPrefixes(w.log, w.entries, n);
    CrashIds(w.log, w.openTx, w.nextTx, c);
    CutFile(w.log, c);
  }

  lemma CutFile(log: seq<Record>, c: nat)
    requires AllFit(log) && c <= |log|
    ensures AllFit(log[..c]) && FramesLen(log, c) <= |Frames(log)|
    ensures Frames(log)[..FramesLen(log, c)] == Frames(log[..c])
  {
    hide Frames;
    FramesConcat(log[..c], log[c..]);
    assert log[..c] + log[c..] == log;
  }

  lemma ResetInv(w: World)
    requires Inv(w)
    ensures Inv(Step(w, Reset))
  {
  }

  lemma {:induction false} RunInv(actions: seq<Action>)
    requires Run(actions).Some?
    ensures Inv(Run(actions).value)
  {
    hide Inv, Step, Enabled;
    if actions == [] {
      FreshInv();
    } else {
      RunInv(actions[..|actions| - 1]);
      var w, a := Run(actions[..|actions| - 1]).value, actions[|actions| - 1];
      match a
      case Append(tx, batch) => AppendInv(w, tx, batch);
      case Reset => ResetInv(w);
      case CrashAndReopen(n) => CrashInv(w, n);
    }
  }

  lemma FreshInv()
    ensures Inv(FRESH)
  {
  }

  /** Opening a file damaged in four bytes of frame `j`, other than its length fields, delivers exactly the
      batches that are complete before that frame, whatever follows the damage. It is refused only when the
      magic at the start of the file was hit or an unknown operation made. */
  lemma DamageDelivers(w: World, j: nat, post: seq<byte>, a: seq<byte>, u: seq<byte>, v: seq<byte>, b: seq<byte>)
    requires Inv(w) && j < |w.log| && Frame(w.log[j]) == a + u + b
    requires |u| == 4 && |v| == 4 && u != v && SparesLengths(|a|)
    ensures var left := Recovered(Frames(w.log[..j]) + ((a + v + b) + post));
            && (left.Ok? <==> !BreaksOp(|a|, v) && (j > 0 || MAGIC <= a + v + b))
            && (left.Ok? ==>
                  && left == Ok(Parsed(w.log[..j], FramesLen(w.log, j)))
                  && Replay(left.value.records).Replayed?
                  && Replay(left.value.records).done == Batches(Surviving(w.entries, FramesLen(w.log, j))))
  {
    hide Frame, Replay, Surviving, OrphansOk, Recovered, Batches, BreaksOp, EndsOk, IdsOk;
    RecoverDamaged(w.log[..j], w.log[j], post, a, u, v, b);
    assert PrefixOk(w.log, w.entries, j);
  }

  /** What opening a cut file delivers. */
  lemma CutDelivers(w: World, n: nat)
    requires Inv(w) && n <= |w.file|
    ensures var left := Recovered(w.file[..n]);
            && (left.Ok? <==> n == 0 || n >= 4)
            && (left.Ok? ==>
                  var s := Replay(left.value.records);
                  && s.Replayed?
                  && s.done == Batches(Surviving(w.entries, n))
                  && forall i :: 0 <= i < |left.value.records| ==> left.value.records[i].txId < NextTx(s.highest))
  {
    hide Frames, Replay, Complete, Surviving, OrphansOk, Recovered, AllFit, FramesLen, Batches;
    var c := Complete(w.log, n);
    RecoverableIff(w.log, n);
    CutKeeps(w.log, w.entries, n);
    assert PrefixOk(w.log, w.entries, c);
    CrashIds(w.log, w.openTx, w.nextTx, c);
  }

  /**
   Crash atomicity. After any run of appends, resets, crashes and reopenings, cutting the file at
   any byte leaves a file that opens unless one to three bytes are left; opening it delivers exactly
   the batches whose commit frame is complete, whole, in commit order, and no orphan; and the ids
   handed out from then on are above every id left in the file.
   */
  lemma CrashAtomicity(actions: seq<Action>, n: nat)
    requires Run(actions).Some? && n <= |Run(actions).value.file|
    ensures var w := Run(actions).value;
            var left := Recovered(w.file[..n]);
            && (left.Ok? <==> n == 0 || n >= 4)
            && (left.Ok? ==>
                  var s := Replay(left.value.records);
                  && s.Replayed?
                  && s.done == Batches(Surviving(w.entries, n))
                  && forall i :: 0 <= i < |left.value.records| ==> left.value.records[i].txId < NextTx(s.highest))
  {
    hide Run, Inv, Replay, Surviving, Recovered, Batches;
    RunInv(actions);
    CutDelivers(Run(actions).value, n);
  }
}
