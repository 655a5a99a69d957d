/**
 Which transactions commit, over whole runs.

 `Serializability` says that what commits is a serial execution. Here it is said who commits: a running
 transaction does exactly when it is on no cycle of antidependencies and no transaction that committed
 after its start wrote a key that it wrote, read or scanned. Hence the first committer wins, and what
 was committed or aborted stays so.
 */
module Isolation {
  import opened Bytes
  import opened TxManager
  import opened Serializability

  /** The keys a trace writes. */
  function Written(t: Trace): set<Key> {
    BufferOf(t).Keys
  }

  /** No key of `keys` was written, read or scanned by the trace. */
  ghost predicate Apart(t: Trace, keys: set<Key>) {
    forall k :: k in keys ==> k !in Written(t) && !DependsOn(t, k)
  }

  /** No transaction that committed after `startTs` wrote a key of the trace. */
  ghost predicate Undisturbed(commits: seq<CommittedTxn>, startTs: u64, t: Trace) {
    forall i :: 0 <= i < |commits| && commits[i].commitTs > startTs ==> Apart(t, Written(commits[i].trace))
  }

  /** No staged transaction writes a key of the trace. */
  ghost predicate UndisturbedByStaged(w: World, t: Trace) {
    forall j :: 0 <= j < |w.staged| && w.staged[j] in w.traces ==> Apart(t, Written(w.traces[w.staged[j]]))
  }

  lemma ConflictIff(t: SsiTxn, trace: Trace, e: CommitEntry)
    requires t.writeSet == Written(trace) && forall k :: DependsOn(trace, k) <==> t.Reads(k)
    ensures !Conflict(t, e) <==> (e.commitTs > t.startTs ==> Apart(trace, e.writeSet))
  {
    hide BufferOf, DependsOn;
  }

  lemma ActiveTrace(w: World, id: TxnId)
    requires Inv(w) && id in w.mgr.contexts
    ensures id in w.traces && w.mgr.contexts[id].writeSet == Written(w.traces[id]) && w.mgr.contexts[id].startTs <= w.Clock()
    ensures forall k :: DependsOn(w.traces[id], k) <==> w.mgr.contexts[id].Reads(k)
    ensures w.mgr.contexts[id].id == id && id in w.mgr.transactions && w.mgr.transactions[id] == Active
  {
    hide HistoryOk, RingOk, StagingOk, LegalOn, DependsOn, BufferOf, Snapshot;
    assert ActiveOk(w, id);
  }

  /** Conflicts with the history, in terms of traces. */
  lemma HistoryIff(w: World, id: TxnId)
    requires Inv(w) && id in w.mgr.contexts
    ensures id in w.traces
    ensures NoConflicts(w.mgr.contexts[id], FullHistory(w.commits)) <==>
            Undisturbed(w.commits, w.mgr.contexts[id].startTs, w.traces[id])
  {
    hide Inv, Conflict, Apart, DependsOn, BufferOf;
    ActiveTrace(w, id);
    var t, trace := w.mgr.contexts[id], w.traces[id];
    forall i | 0 <= i < |w.commits|
      ensures !Conflict(t, FullHistory(w.commits)[i]) <==>
              (w.commits[i].commitTs > t.startTs ==> Apart(trace, Written(w.commits[i].trace)))
    {
      ConflictIff(t, trace, FullHistory(w.commits)[i]);
    }
  }

  lemma StagedIff(w: World, id: TxnId)
    requires Inv(w) && id in w.mgr.contexts
    ensures id in w.traces && Registered(w.mgr.contexts, w.staged, w.Clock())
    ensures NoConflicts(w.mgr.contexts[id], Pending(w.mgr.contexts, w.staged, w.Clock())) <==>
            UndisturbedByStaged(w, w.traces[id])
  {
    hide Inv, Conflict, Apart, DependsOn, BufferOf;
    ActiveTrace(w, id);
    VerdictEquivalence(w, id, w.mgr.contexts[id]);
    var t, trace, pending := w.mgr.contexts[id], w.traces[id], Pending(w.mgr.contexts, w.staged, w.Clock());
    forall j | 0 <= j < |w.staged|
      ensures w.staged[j] in w.traces
      ensures !Conflict(t, pending[j]) <==> Apart(trace, Written(w.traces[w.staged[j]]))
    {
      ActiveTrace(w, w.staged[j]);
      ConflictIff(t, trace, pending[j]);
    }
  }

  /** Who may commit. */
  ghost predicate MayCommit(w: World, id: TxnId) {
    && id in w.mgr.contexts && id in w.traces
    && Undisturbed(w.commits, w.mgr.contexts[id].startTs, w.traces[id])
    && UndisturbedByStaged(w, w.traces[id])
    && !OnCycle(w.mgr.contexts, w.mgr.contexts[id])
  }

  lemma AcceptedIff(w: World, id: TxnId)
    requires Inv(w) && id in w.mgr.contexts
    ensures Accepts(w.mgr, w.mgr.contexts[id]) <==> MayCommit(w, id)
  {
    hide Inv, OnCycle, Undisturbed, UndisturbedByStaged, NoConflicts, FullHistory, Pending;
    HistoryIff(w, id);
    StagedIff(w, id);
    VerdictEquivalence(w, id, w.mgr.contexts[id]);
  }

  /** The transaction is committed at the next timestamp, with the trace it has. */
  ghost predicate Commits(w: World, id: TxnId, w': World)
    requires id in w.mgr.contexts && id in w.traces && w.Clock() < U64_MAX
  {
    && w'.commits == w.commits + [CommittedTxn(id, w.mgr.contexts[id].startTs, w.Clock() + 1, w.traces[id])]
    && id in w'.mgr.transactions && w'.mgr.transactions[id] == Committed && id !in w'.mgr.contexts
  }

  /** The transaction is aborted, and nothing is committed or staged. */
  ghost predicate Refuses(w: World, id: TxnId, w': World) {
    && w'.commits == w.commits && w'.staged == w.staged
    && id in w'.mgr.transactions && w'.mgr.transactions[id] == Aborted && id !in w'.mgr.contexts
  }

  lemma CommitStep(w: World, id: TxnId)
    requires Inv(w) && Enabled(w, Commit(id))
    ensures var w' := Step(w, Commit(id));
            if MayCommit(w, id) then Commits(w, id, w') else Refuses(w, id, w')
  {
    hide Inv, MayCommit, Accepts, PopFront, MinStart, BufferOf;
    ValidateIsVerdict(w, id);
    AcceptedIff(w, id);
    ActiveTrace(w, id);
  }

  lemma StageStep(w: World, id: TxnId)
    requires Inv(w) && Enabled(w, Stage(id))
    ensures var w' := Step(w, Stage(id));
            if MayCommit(w, id) then w'.staged == w.staged + [id] && w'.commits == w.commits && id in w'.mgr.contexts
            else Refuses(w, id, w')
  {
    hide Inv, MayCommit, Accepts, BufferOf;
    ValidateIsVerdict(w, id);
    AcceptedIff(w, id);
    ActiveTrace(w, id);
  }

  lemma PromoteStep(w: World)
    requires Inv(w) && Enabled(w, Promote)
    ensures Commits(w, w.staged[0], Step(w, Promote)) && Step(w, Promote).staged == w.staged[1..]
    ensures Undisturbed(w.commits, w.mgr.contexts[w.staged[0]].startTs, w.traces[w.staged[0]])
  {
    hide Inv, PopFront, MinStart, Undisturbed, FullHistory, NoConflicts;
    HeadIsStaged(w);
    HistoryIff(w, w.staged[0]);
  }

  // ---- Over runs ----

  /** In every reachable state, a commit succeeds exactly for the transactions that may commit. */
  lemma CommitDecided(w: World, run: seq<Action>, w': World, id: TxnId)
    requires Init(w) && Runs(w, run, w') && Enabled(w', Commit(id))
    ensures if MayCommit(w', id) then Commits(w', id, Step(w', Commit(id))) else Refuses(w', id, Step(w', Commit(id)))
    ensures OnCycle(w'.mgr.contexts, w'.mgr.contexts[id]) ==> Step(w', Commit(id)).commits == w'.commits
  {
    hide Runs, Inv, Step, Enabled, OnCycle, Undisturbed, UndisturbedByStaged;
    InitInv(w);
    RunInv(w, run, w');
    CommitStep(w', id);
  }

  lemma StageDecided(w: World, run: seq<Action>, w': World, id: TxnId)
    requires Init(w) && Runs(w, run, w') && Enabled(w', Stage(id))
    ensures var s := Step(w', Stage(id));
            if MayCommit(w', id) then s.staged == w'.staged + [id] && s.commits == w'.commits else Refuses(w', id, s)
    ensures OnCycle(w'.mgr.contexts, w'.mgr.contexts[id]) ==>
              Step(w', Stage(id)).commits == w'.commits && Step(w', Stage(id)).staged == w'.staged
  {
    hide Runs, Inv, Step, Enabled, OnCycle, Undisturbed, UndisturbedByStaged;
    InitInv(w);
    RunInv(w, run, w');
    StageStep(w', id);
  }

  /** In every run, a commit leaves in the history ring exactly the commits that some active transaction
      overlaps: with no reader left the ring is empty. */
  lemma RingIsNeeded(w: World, run: seq<Action>, w': World, a: Action)
    requires Init(w) && Runs(w, run, w') && Enabled(w', a) && Step(w', a).commits != w'.commits
    ensures var s := Step(w', a);
            forall e :: e in s.mgr.ring <==>
              e in FullHistory(s.commits) && exists p :: p in s.mgr.contexts && s.mgr.contexts[p].startTs < e.commitTs
  {
    hide Runs, Inv, FullHistory, MgrCommit, BufferOf, MgrValidate;
    InitInv(w);
    RunInv(w, run, w');
    StepInv(w', a);
    var s := Step(w', a);
    RingInOrder(s);
    if a.Promote? {
      CommitKeepsNeeded(w'.mgr, w'.staged[0], w'.Clock() + 1);
    } else {
      CommitKeepsNeeded(MgrValidate(w'.mgr, a.id, BufferOf(w'.traces[a.id]).Keys), a.id, w'.Clock() + 1);
    }
  }

  lemma RingInOrder(w: World)
    requires Inv(w)
    ensures RingOk(w.mgr.contexts, w.mgr.ring, FullHistory(w.commits))
  {
  }

  /** Of two committed transactions that overlapped, the later wrote, read and scanned nothing the earlier wrote. */
  ghost predicate FirstWins(commits: seq<CommittedTxn>) {
    forall j :: 0 <= j < |commits| ==> Undisturbed(commits[..j], commits[j].startTs, commits[j].trace)
  }

  /** Every commit is of a transaction of its own, which the manager knows as committed. */
  ghost predicate CommittedOnce(w: World) {
    && (forall i :: 0 <= i < |w.commits| ==>
          w.commits[i].id in w.mgr.transactions && w.mgr.transactions[w.commits[i].id] == Committed)
    && (forall i, j :: 0 <= i < j < |w.commits| ==> w.commits[i].id != w.commits[j].id)
  }

  lemma FirstWinsNext(commits: seq<CommittedTxn>, c: CommittedTxn)
    requires FirstWins(commits) && Undisturbed(commits, c.startTs, c.trace)
    ensures FirstWins(commits + [c])
  {
    hide Undisturbed;
    forall j | 0 <= j < |commits + [c]|
      ensures Undisturbed((commits + [c])[..j], (commits + [c])[j].startTs, (commits + [c])[j].trace)
    {
      assert (commits + [c])[..j] == if j < |commits| then commits[..j] else commits;
    }
  }

  /** What any step does to the commits and to the states of transactions. */
  lemma StepShape(w: World, a: Action)
    requires Inv(w) && Enabled(w, a)
    ensures var w' := Step(w, a);
            || w'.commits == w.commits
            || exists id :: id in w.mgr.contexts && id in w.traces && w.Clock() < U64_MAX && Commits(w, id, w')
                 && Undisturbed(w.commits, w.mgr.contexts[id].startTs, w.traces[id])
  {
    hide Inv, Undisturbed, UndisturbedByStaged, OnCycle, MgrValidate, MgrCommit, Snapshot, BufferOf;
    match a
    case Commit(id) => CommitStep(w, id);
    case Stage(id) => StageStep(w, id);
    case Promote => PromoteStep(w);
    case _ =>
  }

  lemma StatesKept(w: World, a: Action, id: TxnId)
    requires Inv(w) && Enabled(w, a) && id in w.mgr.transactions && w.mgr.transactions[id] != Active
    ensures id in Step(w, a).mgr.transactions && Step(w, a).mgr.transactions[id] == w.mgr.transactions[id]
  {
    hide Inv, Accepts, PopFront, MinStart, Snapshot, BufferOf;
    if id in w.mgr.contexts {
      ActiveTrace(w, id);
    }
    match a
    case Commit(x) => ActiveTrace(w, x);
    case Stage(x) => ActiveTrace(w, x);
    case Promote => ActiveTrace(w, w.staged[0]);
    case _ =>
  }

  lemma StepIsolates(w: World, a: Action)
    requires Inv(w) && Enabled(w, a) && FirstWins(w.commits) && CommittedOnce(w)
    ensures FirstWins(Step(w, a).commits) && CommittedOnce(Step(w, a))
  {
    hide Inv, Enabled, Step, Undisturbed, FirstWins;
    var w' := Step(w, a);
    StepShape(w, a);
    forall i | 0 <= i < |w.commits|
      ensures w.commits[i].id in w'.mgr.transactions && w'.mgr.transactions[w.commits[i].id] == Committed
    {
      StatesKept(w, a, w.commits[i].id);
    }
    if w'.commits != w.commits {
      var id :| id in w.mgr.contexts && id in w.traces && w.Clock() < U64_MAX && Commits(w, id, w')
                && Undisturbed(w.commits, w.mgr.contexts[id].startTs, w.traces[id]);
      ActiveTrace(w, id);
      FirstWinsNext(w.commits, CommittedTxn(id, w.mgr.contexts[id].startTs, w.Clock() + 1, w.traces[id]));
    }
  }

  lemma {:induction false} RunIsolates(w: World, run: seq<Action>, w': World)
    requires Inv(w) && FirstWins(w.commits) && CommittedOnce(w) && Runs(w, run, w')
    ensures FirstWins(w'.commits) && CommittedOnce(w')
    decreases |run|
  {
    hide Inv, Enabled, Step, FirstWins, CommittedOnce;
    if run != [] {
      StepIsolates(w, run[0]);
      StepInv(w, run[0]);
      RunIsolates(Step(w, run[0]), run[1..], w');
    }
  }

  /**
   First committer wins. In every run, of two committed transactions of which the later started before
   the earlier committed, the later wrote, read and scanned no key that the earlier wrote; and no
   transaction commits twice or after it was aborted.
   */
  lemma FirstCommitterWins(w: World, run: seq<Action>, w': World, i: nat, j: nat)
    requires Init(w) && Runs(w, run, w') && i < j < |w'.commits|
    ensures w'.commits[j].startTs < w'.commits[i].commitTs ==>
              && Written(w'.commits[i].trace) !! Written(w'.commits[j].trace)
              && forall k :: k in Written(w'.commits[i].trace) ==> !DependsOn(w'.commits[j].trace, k)
    ensures w'.commits[i].id != w'.commits[j].id
    ensures w'.commits[i].id in w'.mgr.transactions && w'.mgr.transactions[w'.commits[i].id] == Committed
  {
    hide Runs, Inv, DependsOn, BufferOf;
    InitInv(w);
    RunIsolates(w, run, w');
    var c := w'.commits;
    assert Undisturbed(c[..j], c[j].startTs, c[j].trace);
    assert c[..j][i] == c[i];
  }

  /** Whatever was committed or aborted stays so, in every run. */
  lemma {:induction false} EndsForGood(w: World, run: seq<Action>, w': World, id: TxnId)
    requires Inv(w) && Runs(w, run, w') && id in w.mgr.transactions && w.mgr.transactions[id] != Active
    ensures id in w'.mgr.transactions && w'.mgr.transactions[id] == w.mgr.transactions[id]
    decreases |run|
  {
    hide Inv, Enabled, Step;
    if run != [] {
      StatesKept(w, run[0], id);
      StepInv(w, run[0]);
      EndsForGood(Step(w, run[0]), run[1..], w', id);
    }
  }
}
