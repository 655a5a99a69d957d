/**
 The SSI transaction manager: active contexts, the watermark-bounded commit history, the
 group-commit staging area, and the validation that guards every commit.

 `Mgr` is the manager's abstract state and the `Mgr…` functions its transitions; the class
 `TxManager` is the imperative manager, each of whose methods performs one of them.
 */
module TxManager {
  import opened Bytes
  import opened Sets

  type TxnId = u64

  datatype TxnState = Active | Committed | Aborted

  datatype TxError =
    | UnknownTxn(txn: TxnId)
    | InvalidState(txn: TxnId, expected: TxnState, actual: TxnState)
    | WriteConflict(txn: TxnId, key: Key)
    | ReadWriteConflict(txn: TxnId, key: Key)

  datatype Outcome = Pass | Fail(error: TxError)

  datatype SsiTxn = SsiTxn(
    id: TxnId,
    startTs: u64,
    readSet: set<Key>,
    writeSet: set<Key>,
    readRanges: seq<(Key, Key)>)
  {
    /** Whether `k` was read, by a point read or inside a scanned range. */
    predicate Reads(k: Key) {
      k in readSet || exists i :: 0 <= i < |readRanges| && InRange(k, readRanges[i].0, readRanges[i].1)
    }
  }

  datatype CommitEntry = CommitEntry(writeSet: set<Key>, commitTs: u64)

  // ---- Conflicts with committed peers ----

  /** The peer committed after `txn` began and wrote something `txn` wrote, read or scanned. */
  predicate Conflict(txn: SsiTxn, e: CommitEntry) {
    txn.startTs < e.commitTs && exists k :: k in e.writeSet && (k in txn.writeSet || txn.Reads(k))
  }

  predicate NoConflicts(txn: SsiTxn, entries: seq<CommitEntry>) {
    forall i :: 0 <= i < |entries| ==> !Conflict(txn, entries[i])
  }

  /** First conflicting key in the order write-write, read-write, range. */
  method CheckConflict(txn: SsiTxn, e: CommitEntry) returns (r: Outcome)
    ensures r.Pass? <==> !Conflict(txn, e)
    ensures r.Fail? ==> r.error.WriteConflict? || r.error.ReadWriteConflict?
    ensures r.Fail? && r.error.WriteConflict? ==>
              r.error.txn == txn.id && r.error.key in e.writeSet * txn.writeSet
    ensures r.Fail? && r.error.ReadWriteConflict? ==>
              r.error.txn == txn.id && e.writeSet !! txn.writeSet &&
              r.error.key in e.writeSet && txn.Reads(r.error.key)
  {
    if e.commitTs <= txn.startTs {
      return Pass;
    }
    var todo := txn.writeSet;
    while todo != {}
      invariant todo <= txn.writeSet && (txn.writeSet - todo) !! e.writeSet
    {
      var k :| k in todo;
      if k in e.writeSet {
        return Fail(WriteConflict(txn.id, k));
      }
      todo := todo - {k};
    }
    todo := txn.readSet;
    while todo != {}
      invariant todo <= txn.readSet && (txn.readSet - todo) !! e.writeSet
    {
      var k :| k in todo;
      if k in e.writeSet {
        return Fail(ReadWriteConflict(txn.id, k));
      }
      todo := todo - {k};
    }
    for i := 0 to |txn.readRanges|
      invariant forall j, k :: 0 <= j < i && k in e.writeSet ==>
                  !InRange(k, txn.readRanges[j].0, txn.readRanges[j].1)
    {
      var (lower, upper) := txn.readRanges[i];
      todo := e.writeSet;
      while todo != {}
        invariant todo <= e.writeSet
        invariant forall k :: k in e.writeSet - todo ==> !InRange(k, lower, upper)
      {
        var k :| k in todo;
        if InRange(k, lower, upper) {
          return Fail(ReadWriteConflict(txn.id, k));
        }
        todo := todo - {k};
      }
    }
    return Pass;
  }

  /** Checks every entry in order, stopping at the first conflict. */
  method CheckEntries(txn: SsiTxn, entries: seq<CommitEntry>) returns (r: Outcome)
    ensures r.Pass? <==> NoConflicts(txn, entries)
    ensures r.Fail? ==> r.error.WriteConflict? || r.error.ReadWriteConflict?
  {
    for i := 0 to |entries|
      invariant NoConflicts(txn, entries[..i])
    {
      r := CheckConflict(txn, entries[i]);
      if r.Fail? {
        return;
      }
      assert entries[..i + 1] == entries[..i] + [entries[i]];
    }
    assert entries[..|entries|] == entries;
    return Pass;
  }

  // ---- rw-cycles among active peers ----

  type Contexts = map<TxnId, SsiTxn>

  predicate HitsReads(writes: set<Key>, peer: SsiTxn) {
    exists k :: k in writes && peer.Reads(k)
  }

  /** Active peers that read something `from` wrote. */
  function Outgoing(contexts: Contexts, from: SsiTxn): set<TxnId> {
    set p | p in contexts && p != from.id && HitsReads(from.writeSet, contexts[p])
  }

  /** `path` lists the ids visited by following rw-edges from `from`. */
  ghost predicate PathFrom(contexts: Contexts, from: SsiTxn, path: seq<TxnId>)
    decreases |path|
  {
    && |path| > 0
    && path[0] in Outgoing(contexts, from)
    && (|path| > 1 ==> PathFrom(contexts, contexts[path[0]], path[1..]))
  }

  /** A chain of rw-edges leads from `txn` to `id`. */
  ghost predicate Reaches(contexts: Contexts, txn: SsiTxn, id: TxnId) {
    exists path :: PathFrom(contexts, txn, path) && path[|path| - 1] == id
  }

  /** Some chain of rw-edges, of any length, leaves `txn` and comes back to its id. */
  ghost predicate OnCycle(contexts: Contexts, txn: SsiTxn) {
    Reaches(contexts, txn, txn.id)
  }

  /** `to` read, by a point read or in a scanned range, a key that `from` wrote. */
  ghost predicate Antidepends(from: SsiTxn, to: SsiTxn) {
    exists k :: k in from.writeSet &&
      (k in to.readSet || exists i :: 0 <= i < |to.readRanges| && InRange(k, to.readRanges[i].0, to.readRanges[i].1))
  }

  /** The transactions `ids`, each reading what the one before wrote, the first what `txn` wrote. */
  ghost predicate Antichain(contexts: Contexts, txn: SsiTxn, ids: seq<TxnId>) {
    && |ids| > 0 && (forall i :: 0 <= i < |ids| ==> ids[i] in contexts)
    && ids[0] != txn.id && Antidepends(txn, contexts[ids[0]])
    && forall i :: 0 < i < |ids| ==> ids[i] != contexts[ids[i - 1]].id && Antidepends(contexts[ids[i - 1]], contexts[ids[i]])
  }

  lemma EdgeIff(contexts: Contexts, from: SsiTxn, to: TxnId)
    ensures to in Outgoing(contexts, from) <==> to in contexts && to != from.id && Antidepends(from, contexts[to])
  {
  }

  lemma {:induction false} PathIff(contexts: Contexts, from: SsiTxn, path: seq<TxnId>)
    ensures PathFrom(contexts, from, path) <==> Antichain(contexts, from, path)
    decreases |path|
  {
    hide Outgoing, Antidepends;
    if path != [] {
      EdgeIff(contexts, from, path[0]);
      if path[0] in contexts && |path| > 1 {
        var rest := path[1..];
        PathIff(contexts, contexts[path[0]], rest);
        assert forall i :: 0 <= i < |rest| ==> rest[i] == path[i + 1];
        assert Antichain(contexts, from, path) ==> Antichain(contexts, contexts[path[0]], rest);
      }
    }
  }

  /** A transaction is on a cycle exactly if a chain of antidependencies among active transactions leads back to it. */
  lemma OnCycleIff(contexts: Contexts, txn: SsiTxn)
    ensures OnCycle(contexts, txn) <==> exists ids :: Antichain(contexts, txn, ids) && ids[|ids| - 1] == txn.id
  {
    hide Outgoing, Antidepends;
    if OnCycle(contexts, txn) {
      var path :| PathFrom(contexts, txn, path) && path[|path| - 1] == txn.id;
      PathIff(contexts, txn, path);
    }
    if ids :| Antichain(contexts, txn, ids) && ids[|ids| - 1] == txn.id {
      PathIff(contexts, txn, ids);
    }
  }

  lemma {:induction false} PathAppend(contexts: Contexts, from: SsiTxn, path: seq<TxnId>, next: TxnId)
    requires PathFrom(contexts, from, path)
    requires path[|path| - 1] in contexts && next in Outgoing(contexts, contexts[path[|path| - 1]])
    ensures PathFrom(contexts, from, path + [next])
    decreases |path|
  {
    assert (path + [next])[1..] == path[1..] + [next];
    if |path| > 1 {
      PathAppend(contexts, contexts[path[0]], path[1..], next);
    }
  }

  lemma ReachesStep(contexts: Contexts, txn: SsiTxn, id: TxnId, next: TxnId)
    requires Reaches(contexts, txn, id)
    requires id in contexts && next in Outgoing(contexts, contexts[id])
    ensures Reaches(contexts, txn, next)
  {
    var path :| PathFrom(contexts, txn, path) && path[|path| - 1] == id;
    PathAppend(contexts, txn, path, next);
    assert (path + [next])[|path|] == next;
  }

  lemma {:induction false} PathEndsInContexts(contexts: Contexts, from: SsiTxn, path: seq<TxnId>)
    requires PathFrom(contexts, from, path)
    ensures path[|path| - 1] in contexts
    decreases |path|
  {
    if |path| > 1 {
      PathEndsInContexts(contexts, contexts[path[0]], path[1..]);
    }
  }

  /** A transaction that is missing from the context map is never rejected by the cycle check. */
  lemma UnregisteredNeverOnCycle(contexts: Contexts, txn: SsiTxn)
    requires txn.id !in contexts
    ensures !OnCycle(contexts, txn)
  {
    forall path | PathFrom(contexts, txn, path)
      ensures path[|path| - 1] != txn.id
    {
      PathEndsInContexts(contexts, txn, path);
    }
  }

  /** The first hop and the hops of every finished node are finished or queued, and whatever is
      queued is reached. */
  ghost predicate SearchInv(contexts: Contexts, txn: SsiTxn, done: set<TxnId>, queued: set<TxnId>) {
    && done <= contexts.Keys && queued <= contexts.Keys
    && Outgoing(contexts, txn) <= done + queued
    && (forall v :: v in done ==> Outgoing(contexts, contexts[v]) <= done + queued)
    && (forall p :: p in queued ==> Reaches(contexts, txn, p))
  }

  lemma SearchStart(contexts: Contexts, txn: SsiTxn)
    ensures SearchInv(contexts, txn, {}, Outgoing(contexts, txn))
  {
    forall p | p in Outgoing(contexts, txn) ensures Reaches(contexts, txn, p) {
      assert PathFrom(contexts, txn, [p]) && [p][|[p]| - 1] == p;
    }
  }

  lemma SearchStep(contexts: Contexts, txn: SsiTxn, done: set<TxnId>, queued: set<TxnId>, next: TxnId)
    requires SearchInv(contexts, txn, done, queued + {next})
    ensures SearchInv(contexts, txn, done + {next}, queued + Outgoing(contexts, contexts[next]))
    ensures next in done ==> SearchInv(contexts, txn, done, queued)
  {
    forall p | p in Outgoing(contexts, contexts[next]) ensures Reaches(contexts, txn, p) {
      ReachesStep(contexts, txn, next, p);
    }
  }

  lemma {:induction false} ExhaustedSearch(contexts: Contexts, txn: SsiTxn, from: SsiTxn, done: set<TxnId>, path: seq<TxnId>)
    requires SearchInv(contexts, txn, done, {})
    requires Outgoing(contexts, from) <= done
    requires PathFrom(contexts, from, path)
    ensures path[|path| - 1] in done
    decreases |path|
  {
    if |path| > 1 {
      ExhaustedSearch(contexts, txn, contexts[path[0]], done, path[1..]);
    }
  }

  lemma SearchEnd(contexts: Contexts, txn: SsiTxn, done: set<TxnId>)
    requires SearchInv(contexts, txn, done, {}) && txn.id !in done
    ensures !OnCycle(contexts, txn)
  {
    forall path | PathFrom(contexts, txn, path) ensures path[|path| - 1] != txn.id {
      ExhaustedSearch(contexts, txn, txn, done, path);
    }
  }

  /** The ids of `Outgoing`, in some order. */
  method CollectOutgoing(contexts: Contexts, from: SsiTxn) returns (out: seq<TxnId>)
    ensures Elements(out) == Outgoing(contexts, from)
  {
    out := [];
    var todo := contexts.Keys;
    while todo != {}
      invariant todo <= contexts.Keys
      invariant forall p :: p in out <==> p in Outgoing(contexts, from) && p !in todo
    {
      var p :| p in todo;
      if p != from.id && HitsReads(from.writeSet, contexts[p]) {
        out := out + [p];
      }
      todo := todo - {p};
    }
  }

  /** A key of the committer's write set that some active peer read, named in the error. */
  method RepresentativeKey(contexts: Contexts, txn: SsiTxn) returns (key: Key)
    requires OnCycle(contexts, txn)
    ensures key in txn.writeSet && exists p :: p in contexts && contexts[p].Reads(key)
  {
    ghost var path :| PathFrom(contexts, txn, path) && path[|path| - 1] == txn.id;
    assert path[0] in Outgoing(contexts, txn);
    key :| key in txn.writeSet && exists p :: p in contexts && contexts[p].Reads(key);
  }

  function Elements(ids: seq<TxnId>): set<TxnId> {
    set p | p in ids
  }

  lemma ElementsLast(ids: seq<TxnId>)
    requires ids != []
    ensures Elements(ids) == Elements(ids[..|ids| - 1]) + {ids[|ids| - 1]}
  {
    assert ids == ids[..|ids| - 1] + [ids[|ids| - 1]];
  }

  lemma ElementsConcat(a: seq<TxnId>, b: seq<TxnId>)
    ensures Elements(a + b) == Elements(a) + Elements(b)
  {
  }

  /** Marks `next` visited and queues its peers, unless it was visited before. */
  method Visit(contexts: Contexts, txn: SsiTxn, visited: set<TxnId>, frontier: seq<TxnId>, next: TxnId)
      returns (visited': set<TxnId>, frontier': seq<TxnId>)
    requires txn.id in visited && next != txn.id
    requires SearchInv(contexts, txn, visited - {txn.id}, Elements(frontier) + {next})
    ensures txn.id in visited'
    ensures SearchInv(contexts, txn, visited' - {txn.id}, Elements(frontier'))
    ensures (visited' == visited && frontier' == frontier) || |contexts.Keys - visited'| < |contexts.Keys - visited|
  {
    SearchStep(contexts, txn, visited - {txn.id}, Elements(frontier), next);
    if next in visited {
      return visited, frontier;
    }
    var out := CollectOutgoing(contexts, contexts[next]);
    ElementsConcat(frontier, out);
    SmallerSet(contexts.Keys - (visited + {next}), contexts.Keys - visited);
    visited', frontier' := visited + {next}, frontier + out;
    assert visited' - {txn.id} == visited - {txn.id} + {next};
  }

  /** Graph search for an rw-cycle through the committer: exact, and terminating because every
      round either visits a new context or shrinks the frontier. */
  method ValidateCahill(contexts: Contexts, txn: SsiTxn) returns (r: Outcome)
    ensures r.Fail? <==> OnCycle(contexts, txn)
    ensures r.Fail? ==> r.error.ReadWriteConflict? && r.error.txn == txn.id && r.error.key in txn.writeSet
  {
    var visited := {txn.id};
    var frontier := CollectOutgoing(contexts, txn);
    SearchStart(contexts, txn);
    assert visited - {txn.id} == {};
    while frontier != []
      invariant txn.id in visited
      invariant SearchInv(contexts, txn, visited - {txn.id}, Elements(frontier))
      decreases |contexts.Keys - visited|, |frontier|
    {
      ElementsLast(frontier);
      var next := frontier[|frontier| - 1];
      frontier := frontier[..|frontier| - 1];
      if next == txn.id {
        var key := RepresentativeKey(contexts, txn);
        return Fail(ReadWriteConflict(txn.id, key));
      }
      visited, frontier := Visit(contexts, txn, visited, frontier, next);
    }
    SearchEnd(contexts, txn, visited - {txn.id});
    return Pass;
  }

  // ---- The manager as a value ----

  datatype Mgr = Mgr(
    transactions: map<TxnId, TxnState>,
    contexts: Contexts,
    ring: seq<CommitEntry>,
    provisional: seq<CommitEntry>)

  const EMPTY := Mgr(map[], map[], [], [])

  /** The whole validation: durable history, staged peers, rw-cycle. */
  ghost predicate Accepts(m: Mgr, txn: SsiTxn) {
    NoConflicts(txn, m.ring) && NoConflicts(txn, m.provisional) && !OnCycle(m.contexts, txn)
  }

  /** Entries a watermark keeps; the ring is in commit order so these are a suffix of it. */
  function Above(entries: seq<CommitEntry>, watermark: u64): seq<CommitEntry> {
    if entries == [] then []
    else (if entries[0].commitTs > watermark then [entries[0]] else []) + Above(entries[1..], watermark)
  }

  predicate InCommitOrder(entries: seq<CommitEntry>) {
    forall i, j :: 0 <= i < j < |entries| ==> entries[i].commitTs < entries[j].commitTs
  }

  /** Popping while the front is at or below the watermark, as the ring does. */
  function PopFront(entries: seq<CommitEntry>, watermark: u64): seq<CommitEntry> {
    if entries != [] && entries[0].commitTs <= watermark then PopFront(entries[1..], watermark) else entries
  }

  /** Oldest snapshot among the active transactions; `U64_MAX` when there is none. */
  ghost function MinStart(contexts: Contexts, ids: set<TxnId> := contexts.Keys): (w: u64)
    requires ids <= contexts.Keys
    ensures forall p :: p in ids ==> w <= contexts[p].startTs
    ensures w == U64_MAX || exists p :: p in ids && contexts[p].startTs == w
  {
    if ids == {} then U64_MAX
    else
      var p :| p in ids;
      var rest := MinStart(contexts, ids - {p});
      if contexts[p].startTs < rest then contexts[p].startTs else rest
  }

  function MgrBegin(m: Mgr, id: TxnId, startTs: u64): Mgr {
    m.(transactions := m.transactions[id := Active],
       contexts := m.contexts[id := SsiTxn(id, startTs, {}, {}, [])])
  }

  function MgrRecordRead(m: Mgr, id: TxnId, k: Key): Mgr
    requires id in m.contexts
  {
    var t := m.contexts[id];
    m.(contexts := m.contexts[id := t.(readSet := t.readSet + {k})])
  }

  function MgrRecordRange(m: Mgr, id: TxnId, lo: Key, hi: Key): Mgr
    requires id in m.contexts
  {
    var t := m.contexts[id];
    m.(contexts := m.contexts[id := t.(readRanges := t.readRanges + [(lo, hi)])])
  }

  function MgrRecordWrites(m: Mgr, id: TxnId, keys: set<Key>): Mgr
    requires id in m.contexts
  {
    var t := m.contexts[id];
    m.(contexts := m.contexts[id := t.(writeSet := t.writeSet + keys)])
  }

  /** Terminal abort: marked first, then the context is dropped. */
  function MgrDrop(m: Mgr, id: TxnId): Mgr {
    m.(transactions := if id in m.transactions then m.transactions[id := Aborted] else m.transactions,
       contexts := m.contexts - {id})
  }

  /** Recording the final write set and validating; a rejection is terminal. */
  ghost function MgrValidate(m: Mgr, id: TxnId, keys: set<Key>): Mgr
    requires id in m.contexts
  {
    var m1 := MgrRecordWrites(m, id, keys);
    if Accepts(m1, m1.contexts[id]) then m1 else MgrDrop(m1, id)
  }

  function MgrStage(m: Mgr, id: TxnId, commitTs: u64): Mgr
    requires id in m.contexts
  {
    m.(provisional := m.provisional + [CommitEntry(m.contexts[id].writeSet, commitTs)])
  }

  function MgrDiscard(m: Mgr): Mgr {
    m.(provisional := [])
  }

  /** Promotion to the history, followed by collection against the remaining readers. */
  ghost function MgrCommit(m: Mgr, id: TxnId, commitTs: u64): Mgr
    requires id in m.contexts
  {
    var contexts := m.contexts - {id};
    m.(transactions := m.transactions[id := Committed],
       contexts := contexts,
       ring := PopFront(m.ring + [CommitEntry(m.contexts[id].writeSet, commitTs)], MinStart(contexts)))
  }

  // ---- Calls ----

  datatype Call =
    | BeginCall(id: TxnId, startTs: u64)
    | ReadCall(id: TxnId, key: Key)
    | RangeCall(id: TxnId, lo: Key, hi: Key)
    | WriteCall(id: TxnId, key: Key)
    | ValidateCall(id: TxnId, keys: set<Key>)
    | StageCall(id: TxnId, commitTs: u64)
    | DiscardCall
    | CommitCall(id: TxnId, commitTs: u64)
    | AbortCall(id: TxnId)

  ghost predicate IsActive(m: Mgr, id: TxnId) {
    id in m.transactions && m.transactions[id] == Active
  }

  /** The manager after a call. */
  ghost function After(m: Mgr, c: Call): Mgr {
    match c
    case BeginCall(id, startTs) => MgrBegin(m, id, startTs)
    case ReadCall(id, k) => if id in m.contexts then MgrRecordRead(m, id, k) else m
    case RangeCall(id, lo, hi) => if id in m.contexts then MgrRecordRange(m, id, lo, hi) else m
    case WriteCall(id, k) => if id in m.contexts then MgrRecordWrites(m, id, {k}) else m
    case ValidateCall(id, keys) => if id in m.contexts then MgrValidate(m, id, keys) else m
    case StageCall(id, commitTs) => if id in m.contexts then MgrStage(m, id, commitTs) else m
    case DiscardCall => MgrDiscard(m)
    case CommitCall(id, commitTs) =>
      if !IsActive(m, id) then m
      else if id in m.contexts then MgrCommit(m, id, commitTs)
      else m.(transactions := m.transactions[id := Committed])
    case AbortCall(id) => if IsActive(m, id) then MgrDrop(m, id) else m
  }

  ghost function AfterAll(m: Mgr, calls: seq<Call>): Mgr {
    if calls == [] then m else After(AfterAll(m, calls[..|calls| - 1]), calls[|calls| - 1])
  }

  /** What a transaction in a state it cannot leave is answered. */
  ghost function Refusal(m: Mgr, id: TxnId): Outcome {
    if id !in m.transactions then Fail(UnknownTxn(id)) else Fail(InvalidState(id, Active, m.transactions[id]))
  }

  /** `r` can be the answer to a call that ends a transaction or validates it. */
  ghost predicate Answers(m: Mgr, c: Call, r: Outcome) {
    match c
    case CommitCall(id, _) => r == if IsActive(m, id) then Pass else Refusal(m, id)
    case AbortCall(id) => r == if IsActive(m, id) then Pass else Refusal(m, id)
    case ValidateCall(id, keys) =>
      if id in m.contexts then r.Pass? <==> id in MgrValidate(m, id, keys).contexts
      else r == if id in m.transactions && m.transactions[id] == Aborted then Refusal(m, id) else Fail(UnknownTxn(id))
    case _ => true
  }

  /** `id` has ended in state `st`. */
  ghost predicate Ended(m: Mgr, id: TxnId, st: TxnState) {
    st != Active && id in m.transactions && m.transactions[id] == st && id !in m.contexts
  }

  lemma EndedStays(m: Mgr, c: Call, id: TxnId, st: TxnState)
    requires Ended(m, id, st) && !(c.BeginCall? && c.id == id)
    ensures Ended(After(m, c), id, st)
  {
    hide PopFront, MinStart, Accepts;
  }

  lemma {:induction false} EndedForever(m: Mgr, calls: seq<Call>, id: TxnId, st: TxnState)
    requires Ended(m, id, st) && forall c :: c in calls ==> !(c.BeginCall? && c.id == id)
    ensures Ended(AfterAll(m, calls), id, st)
  {
    hide After, Ended;
    if calls != [] {
      var front, last := calls[..|calls| - 1], calls[|calls| - 1];
      assert forall c :: c in front ==> c in calls;
      assert last in calls;
      EndedForever(m, front, id, st);
      EndedStays(AfterAll(m, front), last, id, st);
    }
  }

  /** A transaction that has ended is refused, and nothing changes. */
  lemma EndedIsRefused(m: Mgr, id: TxnId, st: TxnState, commitTs: u64, keys: set<Key>, r: Outcome)
    requires Ended(m, id, st)
    ensures After(m, CommitCall(id, commitTs)) == m && After(m, AbortCall(id)) == m && After(m, ValidateCall(id, keys)) == m
    ensures Answers(m, CommitCall(id, commitTs), r) ==> r == Fail(InvalidState(id, Active, st))
    ensures Answers(m, AbortCall(id), r) ==> r == Fail(InvalidState(id, Active, st))
    ensures Answers(m, ValidateCall(id, keys), r) ==>
              r == if st == Aborted then Fail(InvalidState(id, Active, Aborted)) else Fail(UnknownTxn(id))
  {
  }

  /**
   How a transaction ends: an abort of an active one, a rejecting validation of a known one, and a commit
   of an active one are final. In every later state, unless the id is begun again, it is refused with the
   state it ended in.
   */
  lemma EndIsFinal(m: Mgr, c: Call, r: Outcome, calls: seq<Call>, id: TxnId, commitTs: u64, keys: set<Key>, r': Outcome)
    requires c.AbortCall? || c.CommitCall? || c.ValidateCall?
    requires c.id == id && id in m.transactions && (m.transactions[id] == Active || id in m.contexts) && Answers(m, c, r)
    requires if c.ValidateCall? then id in m.contexts && r.Fail? else r.Pass?
    requires forall x :: x in calls ==> !(x.BeginCall? && x.id == id)
    ensures var st := if c.CommitCall? then Committed else Aborted;
            var m' := AfterAll(After(m, c), calls);
            && id in m'.transactions && m'.transactions[id] == st && id !in m'.contexts
            && (Answers(m', CommitCall(id, commitTs), r') ==> r' == Fail(InvalidState(id, Active, st)))
            && (Answers(m', AbortCall(id), r') ==> r' == Fail(InvalidState(id, Active, st)))
            && (st == Aborted && Answers(m', ValidateCall(id, keys), r') ==> r' == Fail(InvalidState(id, Active, Aborted)))
            && After(m', CommitCall(id, commitTs)) == m'
  {
    hide PopFront, MinStart, Accepts, AfterAll;
    var st := if c.CommitCall? then Committed else Aborted;
    assert Ended(After(m, c), id, st);
    EndedForever(After(m, c), calls, id, st);
    EndedIsRefused(AfterAll(After(m, c), calls), id, st, commitTs, keys, r');
  }

  // ---- The manager as an object ----

  lemma {:induction false} AboveMembers(entries: seq<CommitEntry>, watermark: u64)
    ensures forall e :: e in Above(entries, watermark) <==> e in entries && e.commitTs > watermark
  {
    if entries != [] {
      AboveMembers(entries[1..], watermark);
      assert entries == [entries[0]] + entries[1..];
    }
  }

  lemma {:induction false} AboveInOrder(entries: seq<CommitEntry>, watermark: u64)
    requires InCommitOrder(entries)
    ensures InCommitOrder(Above(entries, watermark))
  {
    if entries != [] {
      AboveInOrder(entries[1..], watermark);
      AboveMembers(entries[1..], watermark);
      var tail := Above(entries[1..], watermark);
      assert forall j :: 0 <= j < |tail| ==> tail[j] in tail;
    }
  }

  lemma {:induction false} AllAbove(entries: seq<CommitEntry>, watermark: u64)
    requires forall i :: 0 <= i < |entries| ==> entries[i].commitTs > watermark
    ensures Above(entries, watermark) == entries
  {
    if entries != [] {
      AllAbove(entries[1..], watermark);
      assert entries == [entries[0]] + entries[1..];
    }
  }

  /** In commit order the entries at or below a watermark all sit at the front. */
  lemma {:induction false} PopFrontIsFilter(entries: seq<CommitEntry>, watermark: u64)
    requires InCommitOrder(entries)
    ensures PopFront(entries, watermark) == Above(entries, watermark)
  {
    if entries != [] {
      if entries[0].commitTs > watermark {
        AllAbove(entries, watermark);
      } else {
        PopFrontIsFilter(entries[1..], watermark);
      }
    }
  }

  lemma {:induction false} PopFrontStops(entries: seq<CommitEntry>, watermark: u64)
    ensures PopFront(entries, watermark) != [] ==> PopFront(entries, watermark)[0].commitTs > watermark
  {
    if entries != [] && entries[0].commitTs <= watermark {
      PopFrontStops(entries[1..], watermark);
    }
  }

  /** What a commit leaves in an ordered ring, some remaining reader started before. */
  lemma CommitKeepsNeeded(m: Mgr, id: TxnId, commitTs: u64)
    requires id in m.contexts && InCommitOrder(MgrCommit(m, id, commitTs).ring)
    ensures var m' := MgrCommit(m, id, commitTs);
            forall e :: e in m'.ring ==> exists p :: p in m'.contexts && m'.contexts[p].startTs < e.commitTs
  {
    hide PopFront, MinStart;
    var m' := MgrCommit(m, id, commitTs);
    PopFrontStops(m.ring + [CommitEntry(m.contexts[id].writeSet, commitTs)], MinStart(m'.contexts));
    forall e | e in m'.ring
      ensures exists p :: p in m'.contexts && m'.contexts[p].startTs < e.commitTs
    {
      assert m'.ring[0].commitTs <= e.commitTs;
      assert MinStart(m'.contexts) < e.commitTs;
    }
  }

  class TxManager {
    var transactions: map<TxnId, TxnState>
    var contexts: Contexts
    var ring: seq<CommitEntry>
    var provisional: seq<CommitEntry>

    ghost function State(): Mgr
      reads this
    {
      Mgr(transactions, contexts, ring, provisional)
    }

    constructor ()
      ensures State() == EMPTY
    {
      transactions, contexts, ring, provisional := map[], map[], [], [];
    }

    method BeginSsiWithId(id: TxnId, startTs: u64) returns (txn: SsiTxn)
      modifies this
      ensures State() == MgrBegin(old(State()), id, startTs)
      ensures txn == SsiTxn(id, startTs, {}, {}, []) && State() == After(old(State()), BeginCall(id, startTs))
    {
      transactions := transactions[id := Active];
      txn := SsiTxn(id, startTs, {}, {}, []);
      contexts := contexts[id := txn];
    }

    method RecordRead(id: TxnId, k: Key) returns (r: Outcome)
      modifies this`contexts
      ensures id in old(contexts) ==> r.Pass? && State() == MgrRecordRead(old(State()), id, k)
      ensures id !in old(contexts) ==> r == Fail(UnknownTxn(id)) && State() == old(State())
      ensures State() == After(old(State()), ReadCall(id, k))
    {
      if id !in contexts {
        return Fail(UnknownTxn(id));
      }
      contexts := contexts[id := contexts[id].(readSet := contexts[id].readSet + {k})];
      return Pass;
    }

    method RecordWrite(id: TxnId, k: Key) returns (r: Outcome)
      modifies this`contexts
      ensures old(id in contexts) ==> r.Pass? && State() == MgrRecordWrites(old(State()), id, {k})
      ensures old(id !in contexts) ==> r == Fail(UnknownTxn(id)) && State() == old(State())
      ensures State() == After(old(State()), WriteCall(id, k))
    {
      if id !in contexts {
        return Fail(UnknownTxn(id));
      }
      var t := contexts[id];
      contexts := contexts[id := t.(writeSet := t.writeSet + {k})];
      return Pass;
    }

    method AddReadConflictRange(id: TxnId, lo: Key, hi: Key) returns (r: Outcome)
      modifies this`contexts
      ensures id in old(contexts) ==> r.Pass? && State() == MgrRecordRange(old(State()), id, lo, hi)
      ensures id !in old(contexts) ==> r == Fail(UnknownTxn(id)) && State() == old(State())
      ensures State() == After(old(State()), RangeCall(id, lo, hi))
    {
      if id !in contexts {
        return Fail(UnknownTxn(id));
      }
      contexts := contexts[id := contexts[id].(readRanges := contexts[id].readRanges + [(lo, hi)])];
      return Pass;
    }

    method ValidateSsi(txn: SsiTxn) returns (r: Outcome)
      ensures r.Pass? <==> NoConflicts(txn, ring) && NoConflicts(txn, provisional) && !OnCycle(contexts, txn)
      ensures r.Fail? ==> r.error.WriteConflict? || r.error.ReadWriteConflict?
    {
      r := CheckEntries(txn, ring);
      if r.Pass? {
        r := CheckEntries(txn, provisional);
        if r.Pass? {
          r := ValidateCahill(contexts, txn);
        }
      }
    }

    /** Pre-commit entry point: final write set, verdict, and terminal abort on rejection. */
    method RecordWriteAndValidate(id: TxnId, keys: seq<Key>) returns (r: Outcome)
      modifies this
      ensures id in old(contexts) ==>
                State() == MgrValidate(old(State()), id, set k | k in keys) &&
                (r.Pass? <==> id in contexts)
      ensures id in old(contexts) ==>
                var txn := old(contexts)[id].(writeSet := old(contexts)[id].writeSet + set k | k in keys);
                r.Pass? <==> NoConflicts(txn, ring) && NoConflicts(txn, provisional) && !OnCycle(old(contexts)[id := txn], txn)
      ensures id in old(contexts) && r.Fail? ==>
                && contexts == old(contexts) - {id} && ring == old(ring) && provisional == old(provisional)
                && transactions == if id in old(transactions) then old(transactions)[id := Aborted] else old(transactions)
      ensures id !in old(contexts) ==>
                State() == old(State()) &&
                r == Fail(if id in transactions && transactions[id] == Aborted
                          then InvalidState(id, Active, Aborted) else UnknownTxn(id))
      ensures var c := ValidateCall(id, set k | k in keys); State() == After(old(State()), c) && Answers(old(State()), c, r)
    {
      if id !in contexts {
        if id in transactions && transactions[id] == Aborted {
          return Fail(InvalidState(id, Active, Aborted));
        }
        return Fail(UnknownTxn(id));
      }
      ghost var before := State();
      var txn := contexts[id];
      for i := 0 to |keys|
        invariant txn == before.contexts[id].(writeSet := before.contexts[id].writeSet + set k | k in keys[..i])
      {
        assert keys[..i + 1] == keys[..i] + [keys[i]];
        txn := txn.(writeSet := txn.writeSet + {keys[i]});
      }
      assert keys[..|keys|] == keys;
      contexts := contexts[id := txn];
      assert State() == MgrRecordWrites(before, id, set k | k in keys);
      r := ValidateSsi(txn);
      if r.Fail? {
        if id in transactions {
          transactions := transactions[id := Aborted];
        }
        contexts := contexts - {id};
      }
    }

    method StageCommit(id: TxnId, commitTs: u64) returns (r: Outcome)
      modifies this`provisional
      ensures id in contexts ==> r.Pass? && State() == MgrStage(old(State()), id, commitTs)
      ensures id !in contexts ==> r == Fail(UnknownTxn(id)) && State() == old(State())
      ensures State() == After(old(State()), StageCall(id, commitTs))
    {
      if id !in contexts {
        return Fail(UnknownTxn(id));
      }
      provisional := provisional + [CommitEntry(contexts[id].writeSet, commitTs)];
      return Pass;
    }

    method DiscardStaged()
      modifies this`provisional
      ensures State() == MgrDiscard(old(State())) && State() == After(old(State()), DiscardCall)
    {
      provisional := [];
    }

    method GarbageCollect(watermark: u64) returns (dropped: nat)
      modifies this`ring
      ensures ring == PopFront(old(ring), watermark)
      ensures dropped == |old(ring)| - |ring|
    {
      var before := |ring|;
      while ring != [] && ring[0].commitTs <= watermark
        invariant |ring| <= before
        invariant PopFront(ring, watermark) == PopFront(old(ring), watermark)
        decreases |ring|
      {
        ring := ring[1..];
      }
      dropped := before - |ring|;
    }

    method Watermark() returns (w: u64)
      ensures w == MinStart(contexts)
    {
      w := U64_MAX;
      var todo := contexts.Keys;
      while todo != {}
        invariant todo <= contexts.Keys
        invariant forall p :: p in contexts.Keys - todo ==> w <= contexts[p].startTs
        invariant w == U64_MAX || exists p :: p in contexts && contexts[p].startTs == w
      {
        var p :| p in todo;
        if contexts[p].startTs < w {
          w := contexts[p].startTs;
        }
        todo := todo - {p};
      }
    }

    method CommitAt(id: TxnId, commitTs: u64) returns (r: Outcome)
      modifies this
      ensures old(id !in transactions) ==> r == Fail(UnknownTxn(id)) && State() == old(State())
      ensures old(id in transactions && transactions[id] != Active) ==>
                r == Fail(InvalidState(id, Active, old(transactions)[id])) && State() == old(State())
      ensures old(id in transactions && transactions[id] == Active && id in contexts) ==>
                r.Pass? && State() == MgrCommit(old(State()), id, commitTs)
      ensures old(id in transactions && transactions[id] == Active && id !in contexts) ==>
                r.Pass? && State() == old(State()).(transactions := old(transactions)[id := Committed])
      ensures var c := CommitCall(id, commitTs); State() == After(old(State()), c) && Answers(old(State()), c, r)
    {
      if id !in transactions {
        return Fail(UnknownTxn(id));
      }
      if transactions[id] != Active {
        return Fail(InvalidState(id, Active, transactions[id]));
      }
      transactions := transactions[id := Committed];
      if id in contexts {
        var txn := contexts[id];
        contexts := contexts - {id};
        ring := ring + [CommitEntry(txn.writeSet, commitTs)];
        var watermark := Watermark();
        var _ := GarbageCollect(watermark);
      }
      return Pass;
    }

    method Abort(id: TxnId) returns (r: Outcome)
      modifies this
      ensures old(id !in transactions) ==> r == Fail(UnknownTxn(id)) && State() == old(State())
      ensures old(id in transactions && transactions[id] != Active) ==>
                r == Fail(InvalidState(id, Active, old(transactions)[id])) && State() == old(State())
      ensures old(id in transactions && transactions[id] == Active) ==>
                r.Pass? && State() == MgrDrop(old(State()), id) && transactions == old(transactions)[id := Aborted]
      ensures var c := AbortCall(id); State() == After(old(State()), c) && Answers(old(State()), c, r)
    {
      if id !in transactions {
        return Fail(UnknownTxn(id));
      }
      if transactions[id] != Active {
        return Fail(InvalidState(id, Active, transactions[id]));
      }
      transactions := transactions[id := Aborted];
      contexts := contexts - {id};
      return Pass;
    }
  }
}
