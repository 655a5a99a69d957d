/**
 Serializability of whole runs.

 A `World` is the transaction manager together with the transactions that drive it: each
 transaction buffers its writes, reads its snapshot through that buffer and keeps a trace of what
 it saw. The commit history kept in `commits` is never collected; the manager only ever sees its
 own bounded ring. The main theorem says that the committed traces, taken in commit order, are a
 serial execution: every result they recorded is the result of running them one after another.
 */
module Serializability {
  import opened Bytes
  import opened TxManager

  type Db = map<Key, Value>
  type Buffer = map<Key, Option<Value>>

  datatype Op =
    | Get(key: Key, seen: Option<Value>)
    | Scan(lo: Key, hi: Key, rows: Db)
    | Put(key: Key, value: Value)
    | Delete(key: Key)

  type Trace = seq<Op>

  // ---- What one transaction sees ----

  function Buffered(b: Buffer, op: Op): Buffer {
    match op
    case Put(k, v) => b[k := Some(v)]
    case Delete(k) => b[k := None]
    case _ => b
  }

  /** Buffered writes of a trace; a delete is buffered as `None`. */
  function BufferOf(t: Trace): Buffer {
    if t == [] then map[] else Buffered(BufferOf(t[..|t| - 1]), t[|t| - 1])
  }

  function Fetch(db: Db, k: Key): Option<Value> {
    if k in db then Some(db[k]) else None
  }

  /** Buffered writes first, then the snapshot. */
  function View(db: Db, b: Buffer, k: Key): Option<Value> {
    if k in b then b[k] else Fetch(db, k)
  }

  function ScanView(db: Db, b: Buffer, lo: Key, hi: Key): Db {
    map k | k in db.Keys + b.Keys && InRange(k, lo, hi) && View(db, b, k).Some? :: View(db, b, k).value
  }

  /** The database after a transaction with this buffer. */
  function After(db: Db, b: Buffer): Db {
    map k | k in db.Keys + b.Keys && View(db, b, k).Some? :: View(db, b, k).value
  }

  predicate OpAgrees(op: Op, db: Db, b: Buffer) {
    match op
    case Get(k, seen) => seen == View(db, b, k)
    case Scan(lo, hi, rows) => rows == ScanView(db, b, lo, hi)
    case _ => true
  }

  /** Every result in the trace is what running it alone on `db` returns. */
  predicate LegalOn(t: Trace, db: Db) {
    t == [] || (LegalOn(t[..|t| - 1], db) && OpAgrees(t[|t| - 1], db, BufferOf(t[..|t| - 1])))
  }

  /** The operation looks at `k` in the snapshot, by a point read or a scan. */
  predicate LooksAt(op: Op, b: Buffer, k: Key) {
    match op
    case Get(key, _) => key == k && k !in b
    case Scan(lo, hi, _) => InRange(k, lo, hi)
    case _ => false
  }

  predicate DependsOn(t: Trace, k: Key) {
    t != [] && (DependsOn(t[..|t| - 1], k) || LooksAt(t[|t| - 1], BufferOf(t[..|t| - 1]), k))
  }

  /** Legality only depends on the keys a trace depends on. */
  lemma {:induction false} LegalTransfer(t: Trace, db: Db, db': Db)
    requires LegalOn(t, db)
    requires forall k :: DependsOn(t, k) ==> Fetch(db, k) == Fetch(db', k)
    ensures LegalOn(t, db')
  {
    if t != [] {
      var front, last := t[..|t| - 1], t[|t| - 1];
      assert forall k :: DependsOn(front, k) ==> DependsOn(t, k);
      LegalTransfer(front, db, db');
      var b := BufferOf(front);
      if last.Scan? {
        forall k | InRange(k, last.lo, last.hi) ensures View(db, b, k) == View(db', b, k) {
          assert DependsOn(t, k);
        }
        ScanViewTransfer(db, db', b, last.lo, last.hi);
      } else if last.Get? && last.key !in b {
        assert DependsOn(t, last.key);
      }
    }
  }

  lemma ScanViewTransfer(db: Db, db': Db, b: Buffer, lo: Key, hi: Key)
    requires forall k :: InRange(k, lo, hi) ==> View(db, b, k) == View(db', b, k)
    ensures ScanView(db, b, lo, hi) == ScanView(db', b, lo, hi)
  {
    var x, y := ScanView(db, b, lo, hi), ScanView(db', b, lo, hi);
    assert forall k :: k in x <==> InRange(k, lo, hi) && View(db, b, k).Some?;
    assert forall k :: k in y <==> InRange(k, lo, hi) && View(db', b, k).Some?;
  }

  // ---- Serial execution ----

  datatype CommittedTxn = CommittedTxn(id: TxnId, startTs: u64, commitTs: u64, trace: Trace)

  /** The database after running the committed transactions one after another. */
  function DbAfter(base: Db, commits: seq<CommittedTxn>): Db {
    if commits == [] then base
    else After(DbAfter(base, commits[..|commits| - 1]), BufferOf(commits[|commits| - 1].trace))
  }

  /** Running the transactions one at a time, in this order, gives every result they recorded. */
  predicate SerialExecution(base: Db, commits: seq<CommittedTxn>) {
    forall i :: 0 <= i < |commits| ==> LegalOn(commits[i].trace, DbAfter(base, commits[..i]))
  }

  /** A key nobody wrote between two points of the history has the same value at both. */
  lemma {:induction false} UnwrittenKey(base: Db, commits: seq<CommittedTxn>, i: nat, k: Key)
    requires i <= |commits|
    requires forall j :: i <= j < |commits| ==> k !in BufferOf(commits[j].trace)
    ensures Fetch(DbAfter(base, commits[..i]), k) == Fetch(DbAfter(base, commits), k)
  {
    var n := |commits|;
    if i == n {
      assert commits[..i] == commits;
    } else {
      var front := commits[..n - 1];
      assert front[..i] == commits[..i];
      UnwrittenKey(base, front, i, k);
    }
  }

  // ---- Worlds and their steps ----

  datatype World = World(
    mgr: Mgr,
    base: Db,
    baseTs: u64,
    commits: seq<CommittedTxn>,
    traces: map<TxnId, Trace>,
    staged: seq<TxnId>)
  {
    /** Latest committed timestamp, the snapshot a new transaction reads. */
    function Clock(): nat {
      baseTs + |commits|
    }

    ghost predicate Running(id: TxnId) {
      id in mgr.contexts && id in traces && id !in staged
    }

    /** Room for one more timestamp. */
    ghost predicate Room() {
      Clock() + |staged| < U64_MAX
    }
  }

  datatype Action =
    | Begin(id: TxnId)
    | DoGet(id: TxnId, key: Key)
    | DoScan(id: TxnId, lo: Key, hi: Key)
    | DoWrite(id: TxnId, key: Key, update: Option<Value>)
    | Commit(id: TxnId)
    | Stage(id: TxnId)
    | Promote
    | Discard
    | Abort(id: TxnId)

  /** How many of the commits have a timestamp of at most `ts`. */
  function Upto(w: World, ts: u64): (n: nat)
    ensures n <= |w.commits|
  {
    if ts <= w.baseTs then 0 else if ts >= w.Clock() then |w.commits| else ts - w.baseTs
  }

  function Snapshot(w: World, ts: u64): Db {
    DbAfter(w.base, w.commits[..Upto(w, ts)])
  }

  /**
   When a step may happen. The engine's write guard serialises commits: a single commit validates
   and promotes under the guard, so it never runs while a group is staged; a group is promoted in
   the order in which it was staged. A staged transaction is inside its own commit call, so it
   does not issue further operations.
   */
  ghost predicate Enabled(w: World, a: Action) {
    match a
    case Begin(id) => id !in w.mgr.transactions && id !in w.mgr.contexts && w.Clock() <= U64_MAX
    case DoGet(id, _) => w.Running(id)
    case DoScan(id, _, _) => w.Running(id)
    case DoWrite(id, _, _) => w.Running(id)
    case Commit(id) => w.Running(id) && w.staged == [] && BufferOf(w.traces[id]) != map[] && w.Room()
    case Stage(id) => w.Running(id) && BufferOf(w.traces[id]) != map[] && w.Room()
    case Promote => w.staged != [] && w.staged[0] in w.mgr.contexts && w.staged[0] in w.traces && w.Clock() < U64_MAX
    case Discard => true
    case Abort(id) => id in w.mgr.transactions && w.mgr.transactions[id] == Active && id !in w.staged
  }

  function Logged(w: World, id: TxnId, op: Op): map<TxnId, Trace>
    requires id in w.traces
  {
    w.traces[id := w.traces[id] + [op]]
  }

  ghost function Promoted(w: World, m: Mgr, id: TxnId): World
    requires id in m.contexts && id in w.traces && w.Clock() < U64_MAX
  {
    var ts := w.Clock() + 1;
    w.(mgr := MgrCommit(m, id, ts),
       commits := w.commits + [CommittedTxn(id, m.contexts[id].startTs, ts, w.traces[id])],
       traces := w.traces - {id})
  }

  ghost function Step(w: World, a: Action): World
    requires Enabled(w, a)
  {
    match a
    case Begin(id) => w.(mgr := MgrBegin(w.mgr, id, w.Clock()), traces := w.traces[id := []])
    case DoGet(id, k) =>
      var b := BufferOf(w.traces[id]);
      w.(mgr := if k in b then w.mgr else MgrRecordRead(w.mgr, id, k),
         traces := Logged(w, id, Get(k, View(Snapshot(w, w.mgr.contexts[id].startTs), b, k))))
    case DoScan(id, lo, hi) =>
      var b := BufferOf(w.traces[id]);
      w.(mgr := MgrRecordRange(w.mgr, id, lo, hi),
         traces := Logged(w, id, Scan(lo, hi, ScanView(Snapshot(w, w.mgr.contexts[id].startTs), b, lo, hi))))
    case DoWrite(id, k, update) =>
      w.(mgr := MgrRecordWrites(w.mgr, id, {k}),
         traces := Logged(w, id, if update.Some? then Put(k, update.value) else Delete(k)))
    case Commit(id) =>
      var m := MgrValidate(w.mgr, id, BufferOf(w.traces[id]).Keys);
      if id in m.contexts then Promoted(w, m, id) else w.(mgr := m, traces := w.traces - {id})
    case Stage(id) =>
      var m := MgrValidate(w.mgr, id, BufferOf(w.traces[id]).Keys);
      if id in m.contexts
      then w.(mgr := MgrStage(m, id, w.Clock() + 1 + |w.staged|), staged := w.staged + [id])
      else w.(mgr := m, traces := w.traces - {id})
    case Promote => Promoted(w, w.mgr, w.staged[0]).(staged := w.staged[1..])
    case Discard => w.(mgr := MgrDiscard(w.mgr), staged := [])
    case Abort(id) => w.(mgr := MgrDrop(w.mgr, id), traces := w.traces - {id})
  }

  ghost predicate Init(w: World) {
    w.mgr == EMPTY && w.commits == [] && w.traces == map[] && w.staged == []
  }

  /** `w'` is reached from `w` by the actions `run`, each enabled where it happens. */
  ghost predicate Runs(w: World, run: seq<Action>, w': World)
    decreases |run|
  {
    if run == [] then w == w'
    else Enabled(w, run[0]) && Runs(Step(w, run[0]), run[1..], w')
  }

  // ---- The invariant ----

  function EntryOf(c: CommittedTxn): CommitEntry {
    CommitEntry(BufferOf(c.trace).Keys, c.commitTs)
  }

  /** The uncollected history of every commit there ever was. */
  function FullHistory(commits: seq<CommittedTxn>): seq<CommitEntry> {
    seq(|commits|, i requires 0 <= i < |commits| => EntryOf(commits[i]))
  }

  /** Entries of staged transactions that are not promoted yet, at the timestamps they will get. */
  ghost function Pending(contexts: Contexts, staged: seq<TxnId>, clock: nat): seq<CommitEntry>
    requires Registered(contexts, staged, clock)
  {
    seq(|staged|, j requires 0 <= j < |staged| => CommitEntry(contexts[staged[j]].writeSet, clock + 1 + j))
  }

  ghost predicate Registered(contexts: Contexts, staged: seq<TxnId>, clock: nat) {
    clock + |staged| <= U64_MAX && forall j :: 0 <= j < |staged| ==> staged[j] in contexts
  }

  /** The context tells the truth about the trace, and the trace is legal on its snapshot. */
  ghost predicate TxnOk(t: SsiTxn, trace: Trace, db: Db) {
    && t.writeSet == BufferOf(trace).Keys
    && (forall k :: DependsOn(trace, k) <==> t.Reads(k))
    && LegalOn(trace, db)
  }

  ghost predicate ActiveOk(w: World, id: TxnId)
    requires id in w.mgr.contexts
  {
    var t := w.mgr.contexts[id];
    && t.id == id && id in w.mgr.transactions && w.mgr.transactions[id] == Active && id in w.traces
    && w.baseTs <= t.startTs <= w.Clock()
    && TxnOk(t, w.traces[id], Snapshot(w, t.startTs))
  }

  ghost predicate AllActiveOk(w: World) {
    forall id :: id in w.mgr.contexts ==> ActiveOk(w, id)
  }

  /** The ring holds real commits only, in order, and every commit some active reader can conflict with. */
  ghost predicate RingOk(contexts: Contexts, ring: seq<CommitEntry>, history: seq<CommitEntry>) {
    && InCommitOrder(ring)
    && (forall e :: e in ring ==> e in history)
    && (forall id, e :: id in contexts && e in history ==> e.commitTs > contexts[id].startTs ==> e in ring)
  }

  /** What is staged is pending or already promoted, and nobody in the group conflicts with the
      history or with an earlier member of the group. */
  ghost predicate StagingOk(contexts: Contexts, staged: seq<TxnId>, clock: nat,
                            provisional: seq<CommitEntry>, history: seq<CommitEntry>)
  {
    && Registered(contexts, staged, clock)
    && (forall i, j :: 0 <= i < j < |staged| ==> staged[i] != staged[j])
    && var pending := Pending(contexts, staged, clock);
    && (forall e :: e in provisional ==> e in history || e in pending)
    && (forall e :: e in pending ==> e in provisional)
    && (forall j :: 0 <= j < |staged| ==>
          NoConflicts(contexts[staged[j]], history) && NoConflicts(contexts[staged[j]], pending[..j]))
  }

  ghost predicate HistoryOk(w: World) {
    && w.Clock() <= U64_MAX
    && (forall i :: 0 <= i < |w.commits| ==> w.commits[i].commitTs == w.baseTs + i + 1)
    && SerialExecution(w.base, w.commits)
  }

  ghost predicate Inv(w: World) {
    && w.traces.Keys == w.mgr.contexts.Keys
    && HistoryOk(w)
    && AllActiveOk(w)
    && RingOk(w.mgr.contexts, w.mgr.ring, FullHistory(w.commits))
    && StagingOk(w.mgr.contexts, w.staged, w.Clock(), w.mgr.provisional, FullHistory(w.commits))
  }

  // ---- Every step keeps the invariant ----

  lemma InitInv(w: World)
    requires Init(w)
    ensures Inv(w)
  {
  }

  /** Contexts may change freely where nothing is staged, as long as no older reader appears. */
  lemma RingFrame(contexts: Contexts, contexts': Contexts, ring: seq<CommitEntry>, history: seq<CommitEntry>)
    requires RingOk(contexts, ring, history)
    requires forall id :: id in contexts' ==>
               (id in contexts && contexts[id].startTs == contexts'[id].startTs) ||
               forall e :: e in history ==> e.commitTs <= contexts'[id].startTs
    ensures RingOk(contexts', ring, history)
  {
  }

  lemma StagingFrame(contexts: Contexts, contexts': Contexts, staged: seq<TxnId>, clock: nat,
                     provisional: seq<CommitEntry>, history: seq<CommitEntry>)
    requires StagingOk(contexts, staged, clock, provisional, history)
    requires forall id :: id in staged && id in contexts ==> id in contexts' && contexts'[id] == contexts[id]
    ensures StagingOk(contexts', staged, clock, provisional, history)
  {
    assert Pending(contexts', staged, clock) == Pending(contexts, staged, clock);
  }

  lemma ActiveFrame(w: World, w': World, id: TxnId)
    requires id in w.mgr.contexts && ActiveOk(w, id)
    requires id in w'.mgr.contexts && w'.mgr.contexts[id] == w.mgr.contexts[id]
    requires id in w.mgr.transactions ==> id in w'.mgr.transactions && w'.mgr.transactions[id] == w.mgr.transactions[id]
    requires id in w'.traces && id in w.traces && w'.traces[id] == w.traces[id]
    requires w'.base == w.base && w'.baseTs == w.baseTs && w.commits <= w'.commits
    ensures ActiveOk(w', id)
  {
    var ts := w.mgr.contexts[id].startTs;
    assert w'.commits[..Upto(w, ts)] == w.commits[..Upto(w, ts)];
  }

  /** A step that only touches one running transaction's context and trace. */
  lemma FrameRunning(w: World, w': World, id: TxnId)
    requires Inv(w) && w.Running(id)
    requires id in w'.mgr.contexts && w'.mgr.contexts[id].startTs == w.mgr.contexts[id].startTs
    requires id in w'.traces
    requires w' == w.(mgr := w.mgr.(contexts := w.mgr.contexts[id := w'.mgr.contexts[id]]),
                      traces := w.traces[id := w'.traces[id]])
    requires ActiveOk(w', id)
    ensures Inv(w')
  {
    hide ActiveOk, RingOk, StagingOk, SerialExecution;
    RingFrame(w.mgr.contexts, w'.mgr.contexts, w.mgr.ring, FullHistory(w.commits));
    StagingFrame(w.mgr.contexts, w'.mgr.contexts, w.staged, w.Clock(), w.mgr.provisional, FullHistory(w.commits));
    forall x | x in w'.mgr.contexts ensures ActiveOk(w', x) {
      if x != id {
        ActiveFrame(w, w', x);
      }
    }
  }

  lemma BufferAppend(t: Trace, op: Op)
    ensures (t + [op])[..|t|] == t
    ensures BufferOf(t + [op]) == Buffered(BufferOf(t), op)
    ensures forall db :: LegalOn(t + [op], db) <==> LegalOn(t, db) && OpAgrees(op, db, BufferOf(t))
    ensures forall k :: DependsOn(t + [op], k) <==> DependsOn(t, k) || LooksAt(op, BufferOf(t), k)
  {
    assert (t + [op])[..|t|] == t;
  }

  lemma GetInv(w: World, id: TxnId, k: Key)
    requires Inv(w) && Enabled(w, DoGet(id, k))
    ensures Inv(Step(w, DoGet(id, k)))
  {
    hide RingOk, StagingOk, SerialExecution, LegalOn, DependsOn, BufferOf, Snapshot;
    var w' := Step(w, DoGet(id, k));
    assert ActiveOk(w, id);
    BufferAppend(w.traces[id], w'.traces[id][|w.traces[id]|]);
    SameSnapshots(w, w');
    assert ActiveOk(w', id);
    assert w.mgr.contexts[id := w.mgr.contexts[id]] == w.mgr.contexts;
    FrameRunning(w, w', id);
  }

  lemma SameSnapshots(w: World, w': World)
    requires w'.base == w.base && w'.baseTs == w.baseTs && w'.commits == w.commits
    ensures forall ts :: Snapshot(w', ts) == Snapshot(w, ts)
  {
  }

  lemma ScanInv(w: World, id: TxnId, lo: Key, hi: Key)
    requires Inv(w) && Enabled(w, DoScan(id, lo, hi))
    ensures Inv(Step(w, DoScan(id, lo, hi)))
  {
    hide RingOk, StagingOk, SerialExecution, LegalOn, DependsOn, BufferOf, Snapshot;
    var w' := Step(w, DoScan(id, lo, hi));
    assert ActiveOk(w, id);
    BufferAppend(w.traces[id], w'.traces[id][|w.traces[id]|]);
    SameSnapshots(w, w');
    MoreRanges(w.mgr.contexts[id], lo, hi);
    assert ActiveOk(w', id);
    FrameRunning(w, w', id);
  }

  lemma MoreRanges(t: SsiTxn, lo: Key, hi: Key)
    ensures forall k :: t.(readRanges := t.readRanges + [(lo, hi)]).Reads(k) <==> t.Reads(k) || InRange(k, lo, hi)
  {
    var t' := t.(readRanges := t.readRanges + [(lo, hi)]);
    assert t'.readRanges[|t.readRanges|] == (lo, hi);
    assert forall i :: 0 <= i < |t.readRanges| ==> t'.readRanges[i] == t.readRanges[i];
  }

  lemma WriteInv(w: World, id: TxnId, k: Key, update: Option<Value>)
    requires Inv(w) && Enabled(w, DoWrite(id, k, update))
    ensures Inv(Step(w, DoWrite(id, k, update)))
  {
    hide RingOk, StagingOk, SerialExecution, LegalOn, DependsOn, BufferOf, Snapshot;
    var w' := Step(w, DoWrite(id, k, update));
    assert ActiveOk(w, id);
    BufferAppend(w.traces[id], w'.traces[id][|w.traces[id]|]);
    SameSnapshots(w, w');
    assert ActiveOk(w', id);
    FrameRunning(w, w', id);
  }

  lemma HistoryBelowClock(w: World)
    requires HistoryOk(w)
    ensures forall e :: e in FullHistory(w.commits) ==> w.baseTs < e.commitTs <= w.Clock()
  {
  }

  lemma BeginInv(w: World, id: TxnId)
    requires Inv(w) && Enabled(w, Begin(id))
    ensures Inv(Step(w, Begin(id)))
  {
    hide ActiveOk, RingOk, StagingOk, SerialExecution, FullHistory;
    HistoryBelowClock(w);
    var w' := Step(w, Begin(id));
    RingFrame(w.mgr.contexts, w'.mgr.contexts, w.mgr.ring, FullHistory(w.commits));
    StagingFrame(w.mgr.contexts, w'.mgr.contexts, w.staged, w.Clock(), w.mgr.provisional, FullHistory(w.commits));
    BeganActive(w, id);
    forall x | x in w'.mgr.contexts ensures ActiveOk(w', x) {
      if x != id {
        ActiveFrame(w, w', x);
      }
    }
  }

  lemma BeganActive(w: World, id: TxnId)
    requires Enabled(w, Begin(id))
    ensures ActiveOk(Step(w, Begin(id)), id)
  {
  }

  /** Dropping a transaction that is not staged. */
  lemma DropInv(w: World, id: TxnId)
    requires Inv(w) && id !in w.staged
    ensures Inv(w.(mgr := MgrDrop(w.mgr, id), traces := w.traces - {id}))
  {
    hide ActiveOk, RingOk, StagingOk, SerialExecution, FullHistory;
    var w' := w.(mgr := MgrDrop(w.mgr, id), traces := w.traces - {id});
    RingFrame(w.mgr.contexts, w'.mgr.contexts, w.mgr.ring, FullHistory(w.commits));
    StagingFrame(w.mgr.contexts, w'.mgr.contexts, w.staged, w.Clock(), w.mgr.provisional, FullHistory(w.commits));
    forall x | x in w'.mgr.contexts ensures ActiveOk(w', x) {
      ActiveFrame(w, w', x);
    }
  }

  lemma DiscardInv(w: World)
    requires Inv(w)
    ensures Inv(Step(w, Discard))
  {
    hide ActiveOk, RingOk, SerialExecution, FullHistory;
    var w' := Step(w, Discard);
    forall x | x in w'.mgr.contexts ensures ActiveOk(w', x) {
      ActiveFrame(w, w', x);
    }
  }

  /** The write set is already complete when validation records it again. */
  lemma ValidateIsVerdict(w: World, id: TxnId)
    requires Inv(w) && w.Running(id)
    ensures MgrValidate(w.mgr, id, BufferOf(w.traces[id]).Keys) ==
              if Accepts(w.mgr, w.mgr.contexts[id]) then w.mgr else MgrDrop(w.mgr, id)
  {
    hide RingOk, StagingOk, SerialExecution, LegalOn, DependsOn, BufferOf, Snapshot, Accepts;
    assert ActiveOk(w, id);
    var t := w.mgr.contexts[id];
    assert t.writeSet + BufferOf(w.traces[id]).Keys == t.writeSet;
    assert w.mgr.contexts[id := t] == w.mgr.contexts;
    assert MgrRecordWrites(w.mgr, id, BufferOf(w.traces[id]).Keys) == w.mgr;
  }

  /** The bounded history and the staging area decide like the full history and the pending group. */
  lemma VerdictEquivalence(w: World, id: TxnId, t: SsiTxn)
    requires Inv(w) && id in w.mgr.contexts && t.startTs == w.mgr.contexts[id].startTs
    ensures Registered(w.mgr.contexts, w.staged, w.Clock())
    ensures (NoConflicts(t, w.mgr.ring) && NoConflicts(t, w.mgr.provisional)) <==>
            (NoConflicts(t, FullHistory(w.commits)) && NoConflicts(t, Pending(w.mgr.contexts, w.staged, w.Clock())))
  {
    hide ActiveOk, SerialExecution, FullHistory, NoConflicts, Pending;
    NoConflictsMembers(t, w.mgr.ring);
    NoConflictsMembers(t, w.mgr.provisional);
    NoConflictsMembers(t, FullHistory(w.commits));
    NoConflictsMembers(t, Pending(w.mgr.contexts, w.staged, w.Clock()));
  }

  lemma NoConflictsMembers(t: SsiTxn, entries: seq<CommitEntry>)
    ensures NoConflicts(t, entries) <==> forall e :: e in entries ==> !Conflict(t, e)
  {
  }

  lemma StageInv(w: World, id: TxnId)
    requires Enabled(w, Stage(id)) && Inv(w)
    ensures Inv(Step(w, Stage(id)))
  {
    hide ActiveOk, RingOk, StagingOk, SerialExecution, FullHistory, OnCycle, NoConflicts, MgrValidate;
    var w' := Step(w, Stage(id));
    ValidateIsVerdict(w, id);
    if Accepts(w.mgr, w.mgr.contexts[id]) {
      VerdictEquivalence(w, id, w.mgr.contexts[id]);
      StagingGrows(w.mgr.contexts, w.staged, w.Clock(), w.mgr.provisional, FullHistory(w.commits), id);
      forall x | x in w'.mgr.contexts ensures ActiveOk(w', x) {
        ActiveFrame(w, w', x);
      }
    } else {
      DropInv(w, id);
    }
  }

  lemma StagingGrows(contexts: Contexts, staged: seq<TxnId>, clock: nat,
                     provisional: seq<CommitEntry>, history: seq<CommitEntry>, id: TxnId)
    requires StagingOk(contexts, staged, clock, provisional, history)
    requires id in contexts && id !in staged && clock + |staged| < U64_MAX
    requires NoConflicts(contexts[id], history) && NoConflicts(contexts[id], Pending(contexts, staged, clock))
    ensures StagingOk(contexts, staged + [id], clock,
                      provisional + [CommitEntry(contexts[id].writeSet, clock + 1 + |staged|)], history)
  {
    hide NoConflicts;
    var n := |staged|;
    var e := CommitEntry(contexts[id].writeSet, clock + 1 + n);
    var pending, pending' := Pending(contexts, staged, clock), Pending(contexts, staged + [id], clock);
    assert pending' == pending + [e] && pending'[..n] == pending;
    forall j | 0 <= j < n + 1
      ensures NoConflicts(contexts[(staged + [id])[j]], history) && NoConflicts(contexts[(staged + [id])[j]], pending'[..j])
    {
      if j < n {
        assert pending'[..j] == pending[..j];
      }
    }
  }

  lemma HistoryAppend(commits: seq<CommittedTxn>, c: CommittedTxn)
    ensures FullHistory(commits + [c]) == FullHistory(commits) + [EntryOf(c)]
  {
  }

  /** A transaction without conflicts in the full history reads the same at its commit as at its start. */
  lemma LegalAtCommit(w: World, id: TxnId)
    requires HistoryOk(w) && id in w.mgr.contexts && ActiveOk(w, id)
    requires NoConflicts(w.mgr.contexts[id], FullHistory(w.commits))
    ensures LegalOn(w.traces[id], DbAfter(w.base, w.commits))
  {
    hide SerialExecution, LegalOn, DependsOn, BufferOf, DbAfter;
    var t, trace := w.mgr.contexts[id], w.traces[id];
    var i := Upto(w, t.startTs);
    forall k | DependsOn(trace, k)
      ensures Fetch(Snapshot(w, t.startTs), k) == Fetch(DbAfter(w.base, w.commits), k)
    {
      assert t.Reads(k);
      forall j | i <= j < |w.commits| ensures k !in BufferOf(w.commits[j].trace) {
        assert FullHistory(w.commits)[j] == EntryOf(w.commits[j]);
        assert !Conflict(t, EntryOf(w.commits[j]));
      }
      UnwrittenKey(w.base, w.commits, i, k);
    }
    LegalTransfer(trace, Snapshot(w, t.startTs), DbAfter(w.base, w.commits));
  }

  /** Promotion of a transaction that has no conflict with the full history. `rest` is what stays staged. */
  lemma PromotedInv(w: World, id: TxnId, rest: seq<TxnId>)
    requires Inv(w) && id in w.mgr.contexts && id in w.traces && w.Clock() < U64_MAX
    requires w.staged == [id] + rest || (w.staged == [] == rest)
    requires NoConflicts(w.mgr.contexts[id], FullHistory(w.commits))
    ensures Inv(Promoted(w, w.mgr, id).(staged := rest))
  {
    hide ActiveOk, RingOk, StagingOk, SerialExecution, FullHistory, NoConflicts, PopFront, LegalOn, EntryOf;
    var w' := Promoted(w, w.mgr, id).(staged := rest);
    var c := CommittedTxn(id, w.mgr.contexts[id].startTs, w.Clock() + 1, w.traces[id]);
    EntryOfActive(w, id, c);
    HistoryAppend(w.commits, c);
    HistoryBelowClock(w);
    LegalAtCommit(w, id);
    assert w'.commits == w.commits + [c];
    SerialAppend(w.base, w.commits, c);
    RingGrows(w.mgr.contexts, w.mgr.ring, FullHistory(w.commits), id, EntryOf(c));
    if rest == w.staged {
      StagingOfNone(w.mgr.contexts, w.Clock(), w.mgr.provisional, FullHistory(w.commits), id, EntryOf(c));
    } else {
      assert rest == w.staged[1..];
      StagingShrinks(w.mgr.contexts, w.staged, w.Clock(), w.mgr.provisional, FullHistory(w.commits), EntryOf(c));
    }
    forall x | x in w'.mgr.contexts ensures ActiveOk(w', x) {
      ActiveFrame(w, w', x);
    }
  }

  lemma EntryOfActive(w: World, id: TxnId, c: CommittedTxn)
    requires id in w.mgr.contexts && ActiveOk(w, id) && c.trace == w.traces[id]
    ensures EntryOf(c) == CommitEntry(w.mgr.contexts[id].writeSet, c.commitTs)
  {
  }

  lemma SerialAppend(base: Db, commits: seq<CommittedTxn>, c: CommittedTxn)
    requires SerialExecution(base, commits) && LegalOn(c.trace, DbAfter(base, commits))
    ensures SerialExecution(base, commits + [c])
  {
    hide LegalOn, DbAfter;
    forall i | 0 <= i < |commits + [c]|
      ensures LegalOn((commits + [c])[i].trace, DbAfter(base, (commits + [c])[..i]))
    {
      if i < |commits| {
        assert (commits + [c])[..i] == commits[..i];
      } else {
        assert (commits + [c])[..i] == commits;
      }
    }
  }

  lemma RingGrows(contexts: Contexts, ring: seq<CommitEntry>, history: seq<CommitEntry>, id: TxnId, e: CommitEntry)
    requires RingOk(contexts, ring, history)
    requires forall x :: x in history ==> x.commitTs < e.commitTs
    ensures RingOk(contexts - {id}, PopFront(ring + [e], MinStart(contexts - {id})), history + [e])
  {
    hide Above, PopFront, MinStart;
    var pushed := ring + [e];
    var watermark := MinStart(contexts - {id});
    assert forall i :: 0 <= i < |ring| ==> ring[i] in ring;
    assert InCommitOrder(pushed);
    PopFrontIsFilter(pushed, watermark);
    AboveMembers(pushed, watermark);
    AboveInOrder(pushed, watermark);
  }

  lemma StagingOfNone(contexts: Contexts, clock: nat, provisional: seq<CommitEntry>, history: seq<CommitEntry>,
                      id: TxnId, e: CommitEntry)
    requires StagingOk(contexts, [], clock, provisional, history) && clock < U64_MAX
    ensures StagingOk(contexts - {id}, [], clock + 1, provisional, history + [e])
  {
  }

  lemma StagingShrinks(contexts: Contexts, staged: seq<TxnId>, clock: nat, provisional: seq<CommitEntry>,
                       history: seq<CommitEntry>, e: CommitEntry)
    requires StagingOk(contexts, staged, clock, provisional, history) && staged != []
    requires e == CommitEntry(contexts[staged[0]].writeSet, clock + 1)
    ensures StagingOk(contexts - {staged[0]}, staged[1..], clock + 1, provisional, history + [e])
  {
    hide NoConflicts;
    var contexts', rest := contexts - {staged[0]}, staged[1..];
    assert forall j :: 0 <= j < |rest| ==> rest[j] == staged[j + 1];
    assert Registered(contexts', rest, clock + 1);
    var pending, pending' := Pending(contexts, staged, clock), Pending(contexts', rest, clock + 1);
    assert pending == [e] + pending';
    forall j | 0 <= j < |rest|
      ensures NoConflicts(contexts'[rest[j]], history + [e]) && NoConflicts(contexts'[rest[j]], pending'[..j])
    {
      assert pending[..j + 1] == [e] + pending'[..j];
      NoConflictsMove(contexts[staged[j + 1]], history, e, pending'[..j]);
    }
  }

  lemma NoConflictsMove(t: SsiTxn, history: seq<CommitEntry>, e: CommitEntry, rest: seq<CommitEntry>)
    requires NoConflicts(t, history) && NoConflicts(t, [e] + rest)
    ensures NoConflicts(t, history + [e]) && NoConflicts(t, rest)
  {
    hide Conflict;
    assert ([e] + rest)[0] == e;
    assert forall i :: 0 <= i < |rest| ==> rest[i] == ([e] + rest)[i + 1];
  }

  lemma CommitInv(w: World, id: TxnId)
    requires Inv(w) && Enabled(w, Commit(id))
    ensures Inv(Step(w, Commit(id)))
  {
    hide Inv, MgrCommit;
    ValidateIsVerdict(w, id);
    if Accepts(w.mgr, w.mgr.contexts[id]) {
      VerdictEquivalence(w, id, w.mgr.contexts[id]);
      PromotedInv(w, id, []);
      assert Step(w, Commit(id)) == Promoted(w, w.mgr, id).(staged := []);
    } else {
      DropInv(w, id);
    }
  }

  lemma HeadIsStaged(w: World)
    requires Inv(w) && w.staged != []
    ensures Enabled(w, Promote)
    ensures CommitEntry(w.mgr.contexts[w.staged[0]].writeSet, w.Clock() + 1) in w.mgr.provisional
    ensures NoConflicts(w.mgr.contexts[w.staged[0]], FullHistory(w.commits))
  {
    hide ActiveOk, RingOk, SerialExecution, FullHistory, NoConflicts;
    var pending := Pending(w.mgr.contexts, w.staged, w.Clock());
    assert pending[0] in pending;
  }

  lemma PromoteInv(w: World)
    requires Inv(w) && Enabled(w, Promote)
    ensures Inv(Step(w, Promote))
  {
    hide Inv, MgrCommit;
    HeadIsStaged(w);
    assert w.staged == [w.staged[0]] + w.staged[1..];
    PromotedInv(w, w.staged[0], w.staged[1..]);
  }

  lemma StepInv(w: World, a: Action)
    requires Inv(w) && Enabled(w, a)
    ensures Inv(Step(w, a))
  {
    hide Inv, MgrValidate, MgrCommit;
    match a
    case Begin(id) => BeginInv(w, id);
    case DoGet(id, k) => GetInv(w, id, k);
    case DoScan(id, lo, hi) => ScanInv(w, id, lo, hi);
    case DoWrite(id, k, update) => WriteInv(w, id, k, update);
    case Commit(id) => CommitInv(w, id);
    case Stage(id) => StageInv(w, id);
    case Promote => PromoteInv(w);
    case Discard => DiscardInv(w);
    case Abort(id) => DropInv(w, id);
  }

  lemma {:induction false} RunInv(w: World, run: seq<Action>, w': World)
    requires Inv(w) && Runs(w, run, w')
    ensures Inv(w')
    decreases |run|
  {
    hide Inv, Step, Enabled;
    if run != [] {
      StepInv(w, run[0]);
      RunInv(Step(w, run[0]), run[1..], w');
    }
  }

  // ---- Main theorems ----

  /** Whatever the interleaving, the committed transactions are a serial execution in commit order. */
  lemma Serializable(w: World, run: seq<Action>, w': World)
    requires Init(w) && Runs(w, run, w')
    ensures SerialExecution(w'.base, w'.commits)
    ensures forall i :: 0 <= i < |w'.commits| ==> w'.commits[i].commitTs == w'.baseTs + i + 1
  {
    InitInv(w);
    RunInv(w, run, w');
  }

  /** Collecting the history never changes a verdict, in any reachable state and for any write set. */
  lemma BoundedHistoryDecidesLikeFullHistory(w: World, run: seq<Action>, w': World, t: SsiTxn)
    requires Init(w) && Runs(w, run, w')
    requires t.id in w'.mgr.contexts && t.startTs == w'.mgr.contexts[t.id].startTs
    ensures Registered(w'.mgr.contexts, w'.staged, w'.Clock())
    ensures (NoConflicts(t, w'.mgr.ring) && NoConflicts(t, w'.mgr.provisional)) <==>
            (NoConflicts(t, FullHistory(w'.commits)) &&
             NoConflicts(t, Pending(w'.mgr.contexts, w'.staged, w'.Clock())))
  {
    InitInv(w);
    hide Inv, Runs;
    RunInv(w, run, w');
    VerdictEquivalence(w', t.id, t);
  }

  /** A staged group is never stuck: its head can always be promoted, at the timestamp it was staged with. */
  lemma StagedHeadCanBePromoted(w: World, run: seq<Action>, w': World)
    requires Init(w) && Runs(w, run, w') && w'.staged != []
    ensures Enabled(w', Promote)
    ensures CommitEntry(w'.mgr.contexts[w'.staged[0]].writeSet, w'.Clock() + 1) in w'.mgr.provisional
  {
    hide Runs;
    InitInv(w);
    RunInv(w, run, w');
    HeadIsStaged(w');
  }
}
