/**
 Group commit: writers queue requests, and whoever holds the write guard commits the whole queue.

 The first part is the in-place partition and the commit of one drained batch; the second is the
 protocol around it, as a state machine over the steps of any number of writers.
 */
module GroupCommit {
  import opened Bytes
  import opened Sequences

  type Id = nat

  datatype Outcome = Committed(ts: nat) | Rejected | WalFailed

  datatype Delivery = Delivery(id: Id, outcome: Outcome)

  // ---- One batch ----

  /** The requests whose verdict is `keep`, in order. */
  function Filtered(batch: seq<Id>, verdicts: seq<bool>, keep: bool): seq<Id>
    requires |batch| == |verdicts|
  {
    if batch == [] then []
    else
      var n := |batch| - 1;
      var front := Filtered(batch[..n], verdicts[..n], keep);
      if verdicts[n] == keep then front + [batch[n]] else front
  }

  lemma FilteredNext(batch: seq<Id>, verdicts: seq<bool>, keep: bool, i: nat)
    requires |batch| == |verdicts| && i < |batch|
    ensures Filtered(batch[..i + 1], verdicts[..i + 1], keep)
         == if verdicts[i] == keep then Filtered(batch[..i], verdicts[..i], keep) + [batch[i]]
            else Filtered(batch[..i], verdicts[..i], keep)
  {
    assert batch[..i + 1][..i] == batch[..i] && verdicts[..i + 1][..i] == verdicts[..i];
  }

  lemma {:induction false} FilteredSplits(batch: seq<Id>, verdicts: seq<bool>)
    requires |batch| == |verdicts|
    ensures multiset(batch) == multiset(Filtered(batch, verdicts, true)) + multiset(Filtered(batch, verdicts, false))
  {
    if batch != [] {
      var n := |batch| - 1;
      FilteredSplits(batch[..n], verdicts[..n]);
      assert batch == batch[..n] + [batch[n]];
    }
  }

  lemma NothingFiltered()
    ensures Filtered([], [], true) == [] && Filtered([], [], false) == []
  {
  }

  /** The in-place partition: passing requests move to the front in order, the others are told at once. */
  method Partition(batch: array<Id>, verdicts: seq<bool>) returns (passed: nat, told: seq<Id>)
    requires batch.Length == |verdicts|
    modifies batch
    ensures passed <= batch.Length
    ensures batch[..passed] == Filtered(old(batch[..]), verdicts, true)
    ensures told == Filtered(old(batch[..]), verdicts, false)
  {
    hide Filtered;
    ghost var orig := batch[..];
    passed, told := 0, [];
    NothingFiltered();
    for i := 0 to batch.Length
      invariant passed <= i
      invariant batch[..passed] == Filtered(orig[..i], verdicts[..i], true)
      invariant told == Filtered(orig[..i], verdicts[..i], false)
      invariant forall j :: i <= j < batch.Length ==> batch[j] == orig[j]
    {
      FilteredNext(orig, verdicts, true, i);
      FilteredNext(orig, verdicts, false, i);
      if verdicts[i] {
        ghost var before := batch[..passed];
        batch[passed], batch[i] := batch[i], batch[passed];
        assert batch[..passed + 1] == before + [orig[i]];
        passed := passed + 1;
      } else {
        told := told + [batch[i]];
      }
    }
    assert orig[..batch.Length] == orig && verdicts[..batch.Length] == verdicts;
  }

  /** Commit timestamps are handed out in order. */
  function Stamped(ids: seq<Id>, first: nat): seq<Delivery> {
    if ids == [] then [] else Stamped(ids[..|ids| - 1], first) + [Delivery(ids[|ids| - 1], Committed(first + |ids| - 1))]
  }

  function Told(ids: seq<Id>, outcome: Outcome): seq<Delivery> {
    if ids == [] then [] else Told(ids[..|ids| - 1], outcome) + [Delivery(ids[|ids| - 1], outcome)]
  }

  /** What one batch leads to: the outcomes sent and the requests logged. */
  datatype Flushes = Flushes(sent: seq<Delivery>, logged: seq<Id>)

  function Flushed(batch: seq<Id>, verdicts: seq<bool>, walOk: bool, first: nat): Flushes
    requires |batch| == |verdicts|
  {
    var passing, failing := Filtered(batch, verdicts, true), Filtered(batch, verdicts, false);
    if walOk then Flushes(Told(failing, Rejected) + Stamped(passing, first), passing)
    else Flushes(Told(failing, Rejected) + Told(passing, WalFailed), [])
  }

  function Receivers(sent: seq<Delivery>): seq<Id> {
    if sent == [] then [] else Receivers(sent[..|sent| - 1]) + [sent[|sent| - 1].id]
  }

  lemma {:induction false} ReceiversConcat(a: seq<Delivery>, b: seq<Delivery>)
    ensures Receivers(a + b) == Receivers(a) + Receivers(b)
  {
    if b == [] {
      assert a + b == a;
    } else {
      ReceiversConcat(a, b[..|b| - 1]);
      assert (a + b)[..|a + b| - 1] == a + b[..|b| - 1];
    }
  }

  lemma {:induction false} StampedReceivers(ids: seq<Id>, first: nat)
    ensures Receivers(Stamped(ids, first)) == ids
  {
    if ids != [] {
      StampedReceivers(ids[..|ids| - 1], first);
      ReceiversConcat(Stamped(ids[..|ids| - 1], first), [Delivery(ids[|ids| - 1], Committed(first + |ids| - 1))]);
      assert ids == ids[..|ids| - 1] + [ids[|ids| - 1]];
    }
  }

  lemma {:induction false} ToldReceivers(ids: seq<Id>, outcome: Outcome)
    ensures Receivers(Told(ids, outcome)) == ids
  {
    if ids != [] {
      ToldReceivers(ids[..|ids| - 1], outcome);
      ReceiversConcat(Told(ids[..|ids| - 1], outcome), [Delivery(ids[|ids| - 1], outcome)]);
      assert ids == ids[..|ids| - 1] + [ids[|ids| - 1]];
    }
  }

  /** Every request of a batch is sent exactly one outcome, whatever the verdicts and the log do. */
  lemma OneOutcomeEach(batch: seq<Id>, verdicts: seq<bool>, walOk: bool, first: nat)
    requires |batch| == |verdicts|
    ensures multiset(Receivers(Flushed(batch, verdicts, walOk, first).sent)) == multiset(batch)
  {
    hide Filtered, Stamped, Told, Receivers;
    var passing, failing := Filtered(batch, verdicts, true), Filtered(batch, verdicts, false);
    FilteredSplits(batch, verdicts);
    ToldReceivers(failing, Rejected);
    StampedReceivers(passing, first);
    ToldReceivers(passing, WalFailed);
    ReceiversConcat(Told(failing, Rejected), Stamped(passing, first));
    ReceiversConcat(Told(failing, Rejected), Told(passing, WalFailed));
  }

  /** The committing of one drained batch. */
  method FlushPendingBatch(batch: array<Id>, verdicts: seq<bool>, walOk: bool, first: nat)
    returns (result: Flushes, nextSeq: nat)
    requires batch.Length == |verdicts|
    modifies batch
    ensures result == Flushed(old(batch[..]), verdicts, walOk, first)
    ensures nextSeq == first + |result.logged|
  {
    hide Filtered;
    var passed, told := Partition(batch, verdicts);
    var sent := Told(told, Rejected);
    ghost var refused := sent;
    ghost var passing := batch[..passed];
    if passed == 0 {
      NothingPassed(refused, first);
      return Flushes(sent, []), first;
    }
    if !walOk {
      for i := 0 to passed
        invariant batch[..passed] == passing && sent == refused + Told(passing[..i], WalFailed)
      {
        assert passing[..i + 1][..i] == passing[..i];
        assert refused + (Told(passing[..i], WalFailed) + [Delivery(batch[i], WalFailed)])
            == (refused + Told(passing[..i], WalFailed)) + [Delivery(batch[i], WalFailed)];
        sent := sent + [Delivery(batch[i], WalFailed)];
      }
      assert passing[..passed] == passing;
      return Flushes(sent, []), first;
    }
    var logged := batch[..passed];
    nextSeq := first;
    for i := 0 to passed
      invariant batch[..passed] == passing && nextSeq == first + i && sent == refused + Stamped(passing[..i], first)
    {
      assert passing[..i + 1][..i] == passing[..i];
      assert refused + (Stamped(passing[..i], first) + [Delivery(batch[i], Committed(nextSeq))])
          == (refused + Stamped(passing[..i], first)) + [Delivery(batch[i], Committed(nextSeq))];
      sent := sent + [Delivery(batch[i], Committed(nextSeq))];
      nextSeq := nextSeq + 1;
    }
    assert passing[..passed] == passing;
    result := Flushes(sent, logged);
  }

  lemma NothingPassed(refused: seq<Delivery>, first: nat)
    ensures refused + Stamped([], first) == refused && refused + Told([], WalFailed) == refused
  {
  }

  // ---- The protocol ----

  /**
   Where a writer is: not started; found the queue empty and wants the guard; holds it for the fast
   path; is about to queue its request; waits for the guard; holds it; holds it and found no result
   waiting; commits the batch it took from the queue; finished, with what its caller was given.
   */
  datatype Pc =
    | Start | WantFast | HoldFast | ToPush | Queued | HoldSlow | Missed | Draining(batch: seq<Id>)
    | Done(returned: Outcome)

  datatype State = State(
    pcs: map<Id, Pc>,
    guard: Option<Id>,
    queue: seq<Id>,
    sent: seq<Delivery>,
    wal: seq<Id>,
    nextSeq: nat)

  const FIRST: nat := 1
  const INIT := State(map[], None, [], [], [], FIRST)

  function PcOf(s: State, r: Id): Pc {
    if r in s.pcs then s.pcs[r] else Start
  }

  function Move(s: State, r: Id, pc: Pc): State {
    s.(pcs := s.pcs[r := pc])
  }

  /** The outcome sent to `r`, if there is one. */
  function SentTo(sent: seq<Delivery>, r: Id): Option<Outcome> {
    if sent == [] then None
    else if sent[|sent| - 1].id == r then Some(sent[|sent| - 1].outcome)
    else SentTo(sent[..|sent| - 1], r)
  }

  /** How many outcomes `r` has been given. */
  function Got(s: State, r: Id): nat {
    multiset(Receivers(s.sent))[r]
  }

  datatype Action =
    | Probe(r: Id)
    | AcquireFast(r: Id)
    | FastCheck(r: Id, verdict: bool, walOk: bool)
    | Push(r: Id)
    | AcquireSlow(r: Id)
    | Look(r: Id)
    | Drain(r: Id)
    | Flush(r: Id, verdicts: seq<bool>, walOk: bool)

  predicate Enabled(s: State, a: Action) {
    match a
    case Probe(r) => PcOf(s, r).Start?
    case AcquireFast(r) => PcOf(s, r).WantFast? && s.guard.None?
    case FastCheck(r, _, _) => PcOf(s, r).HoldFast?
    case Push(r) => PcOf(s, r).ToPush?
    case AcquireSlow(r) => PcOf(s, r).Queued? && s.guard.None?
    case Look(r) => PcOf(s, r).HoldSlow?
    case Drain(r) => PcOf(s, r).Missed?
    case Flush(r, verdicts, _) => PcOf(s, r).Draining? && |verdicts| == |PcOf(s, r).batch|
  }

  function FastOutcome(verdict: bool, walOk: bool, ts: nat): Outcome {
    if !verdict then Rejected else if !walOk then WalFailed else Committed(ts)
  }

  /** The fast path under the guard: it commits alone if the queue is still empty. */
  function FastStep(s: State, r: Id, verdict: bool, walOk: bool): State {
    if s.queue != [] then Move(s.(guard := None), r, ToPush)
    else
      var outcome := FastOutcome(verdict, walOk, s.nextSeq);
      var logged := if outcome.Committed? then [r] else [];
      Move(s.(guard := None, sent := s.sent + [Delivery(r, outcome)], wal := s.wal + logged, nextSeq := s.nextSeq + |logged|), r,
           Done(outcome))
  }

  function FlushStep(s: State, r: Id, verdicts: seq<bool>, walOk: bool): State
    requires PcOf(s, r).Draining? && |verdicts| == |PcOf(s, r).batch|
  {
    var result := Flushed(PcOf(s, r).batch, verdicts, walOk, s.nextSeq);
    Move(s.(guard := None, sent := s.sent + result.sent, wal := s.wal + result.logged, nextSeq := s.nextSeq + |result.logged|),
         r, Done(Returned(PcOf(s, r).batch, verdicts, walOk, result.sent, r)))
  }

  /** A leader whose log append failed returns that error; otherwise it returns what it was sent. */
  function Returned(batch: seq<Id>, verdicts: seq<bool>, walOk: bool, sent: seq<Delivery>, r: Id): Outcome
    requires |batch| == |verdicts|
  {
    if !walOk && Filtered(batch, verdicts, true) != [] then WalFailed else Channel(sent, r)
  }

  /** What the result channel of `r` yields; a closed channel is an error. */
  function Channel(sent: seq<Delivery>, r: Id): Outcome {
    var o := SentTo(sent, r);
    if o.Some? then o.value else WalFailed
  }

  function Next(s: State, a: Action): State
    requires Enabled(s, a)
  {
    match a
    case Probe(r) => Move(s, r, if s.queue == [] then WantFast else ToPush)
    case AcquireFast(r) => Move(s.(guard := Some(r)), r, HoldFast)
    case FastCheck(r, verdict, walOk) => FastStep(s, r, verdict, walOk)
    case Push(r) => Move(s.(queue := s.queue + [r]), r, Queued)
    case AcquireSlow(r) => Move(s.(guard := Some(r)), r, HoldSlow)
    case Look(r) => if Got(s, r) > 0 then Move(s.(guard := None), r, Done(Channel(s.sent, r))) else Move(s, r, Missed)
    case Drain(r) => Move(s.(queue := []), r, Draining(s.queue))
    case Flush(r, verdicts, walOk) => FlushStep(s, r, verdicts, walOk)
  }

  ghost predicate Leads(t: State, a: Action, s: State) {
    Enabled(t, a) && s == Next(t, a)
  }

  /** `s` is reached by the steps of `run`, in any interleaving of writers they describe. */
  ghost predicate Runs(run: seq<Action>, s: State)
    decreases |run|, 0
  {
    if run == [] then s == INIT else RunsThen(run[..|run| - 1], run[|run| - 1], s)
  }

  ghost predicate RunsThen(run: seq<Action>, a: Action, s: State)
    decreases |run|, 1
  {
    exists t: State :: Runs(run, t) && Leads(t, a, s)
  }

  // ---- The invariant ----

  predicate HoldsGuard(pc: Pc) {
    pc.HoldFast? || pc.HoldSlow? || pc.Missed? || pc.Draining?
  }

  ghost predicate GuardOk(s: State) {
    forall r: Id :: HoldsGuard(PcOf(s, r)) <==> s.guard == Some(r)
  }

  /** The batch being committed, if there is one. */
  function BatchOf(s: State): seq<Id> {
    if s.guard.Some? && PcOf(s, s.guard.value).Draining? then PcOf(s, s.guard.value).batch else []
  }

  /** Where a request is, given where its writer is and how many outcomes it has. */
  predicate RequestOk(pc: Pc, got: nat, inQueue: bool, inBatch: bool) {
    match pc
    case Queued => if got == 0 then inQueue != inBatch else got == 1 && !inQueue && !inBatch
    case HoldSlow => !inBatch && got == if inQueue then 0 else 1
    case Missed => got == 0 && inQueue && !inBatch
    case Draining(_) => got == 0 && !inQueue && inBatch
    case Done(_) => got == 1 && !inQueue && !inBatch
    case _ => got == 0 && !inQueue && !inBatch
  }

  ghost predicate RequestsOk(s: State) {
    forall r: Id :: RequestOk(PcOf(s, r), Got(s, r), r in s.queue, r in BatchOf(s))
  }

  function CommitsOf(sent: seq<Delivery>): seq<Delivery> {
    if sent == [] then []
    else
      var front, last := CommitsOf(sent[..|sent| - 1]), sent[|sent| - 1];
      if last.outcome.Committed? then front + [last] else front
  }

  /** The log holds the committed requests in the order of their timestamps. */
  ghost predicate OrderOk(s: State) {
    CommitsOf(s.sent) == Stamped(s.wal, FIRST) && s.nextSeq == FIRST + |s.wal|
  }

  ghost predicate Inv(s: State) {
    GuardOk(s) && NoRepeats(s.queue) && NoRepeats(BatchOf(s)) && RequestsOk(s) && OrderOk(s)
  }

  lemma GotNext(sent: seq<Delivery>, d: Delivery, r: Id)
    ensures multiset(Receivers(sent + [d]))[r] == multiset(Receivers(sent))[r] + if d.id == r then 1 else 0
  {
    assert (sent + [d])[..|sent|] == sent;
  }

  lemma {:induction false} DistinctCount(ids: seq<Id>, r: Id)
    requires NoRepeats(ids)
    ensures multiset(ids)[r] == if r in ids then 1 else 0
  {
    if ids != [] {
      var front, last := ids[..|ids| - 1], ids[|ids| - 1];
      assert ids == front + [last];
      assert last !in front;
      DistinctCount(front, r);
    }
  }

  // ---- Order ----

  lemma CommitsNext(sent: seq<Delivery>, d: Delivery)
    ensures CommitsOf(sent + [d]) == if d.outcome.Committed? then CommitsOf(sent) + [d] else CommitsOf(sent)
  {
    assert (sent + [d])[..|sent|] == sent;
  }

  lemma {:induction false} CommitsConcat(a: seq<Delivery>, b: seq<Delivery>)
    ensures CommitsOf(a + b) == CommitsOf(a) + CommitsOf(b)
  {
    if b == [] {
      assert a + b == a;
    } else {
      CommitsConcat(a, b[..|b| - 1]);
      assert (a + b)[..|a + b| - 1] == a + b[..|b| - 1];
    }
  }

  lemma {:induction false} ToldCommits(ids: seq<Id>, outcome: Outcome)
    requires !outcome.Committed?
    ensures CommitsOf(Told(ids, outcome)) == []
  {
    if ids != [] {
      ToldCommits(ids[..|ids| - 1], outcome);
      CommitsNext(Told(ids[..|ids| - 1], outcome), Delivery(ids[|ids| - 1], outcome));
    }
  }

  lemma {:induction false} StampedCommits(ids: seq<Id>, first: nat)
    ensures CommitsOf(Stamped(ids, first)) == Stamped(ids, first)
  {
    if ids != [] {
      StampedCommits(ids[..|ids| - 1], first);
      CommitsNext(Stamped(ids[..|ids| - 1], first), Delivery(ids[|ids| - 1], Committed(first + |ids| - 1)));
    }
  }

  lemma {:induction false} StampedConcat(a: seq<Id>, b: seq<Id>, first: nat)
    ensures Stamped(a + b, first) == Stamped(a, first) + Stamped(b, first + |a|)
  {
    if b == [] {
      assert a + b == a;
    } else {
      StampedConcat(a, b[..|b| - 1], first);
      assert (a + b)[..|a + b| - 1] == a + b[..|b| - 1];
    }
  }

  lemma FlushOrder(s: State, r: Id, verdicts: seq<bool>, walOk: bool)
    requires OrderOk(s) && PcOf(s, r).Draining? && |verdicts| == |PcOf(s, r).batch|
    ensures OrderOk(FlushStep(s, r, verdicts, walOk))
  {
    hide CommitsOf, Stamped, Told, Filtered;
    var batch := PcOf(s, r).batch;
    var passing, failing := Filtered(batch, verdicts, true), Filtered(batch, verdicts, false);
    var result := Flushed(batch, verdicts, walOk, s.nextSeq);
    CommitsConcat(s.sent, result.sent);
    ToldCommits(failing, Rejected);
    if walOk {
      CommitsConcat(Told(failing, Rejected), Stamped(passing, s.nextSeq));
      StampedCommits(passing, s.nextSeq);
      StampedConcat(s.wal, passing, FIRST);
    } else {
      CommitsConcat(Told(failing, Rejected), Told(passing, WalFailed));
      ToldCommits(passing, WalFailed);
      assert s.wal + [] == s.wal && CommitsOf(s.sent) + [] == CommitsOf(s.sent);
    }
  }

  lemma FastOrder(s: State, r: Id, verdict: bool, walOk: bool)
    requires OrderOk(s)
    ensures OrderOk(FastStep(s, r, verdict, walOk))
  {
    hide CommitsOf;
    CommitsNext(s.sent, Delivery(r, FastOutcome(verdict, walOk, s.nextSeq)));
    assert (s.wal + [r])[..|s.wal|] == s.wal && s.wal + [] == s.wal;
  }

  // ---- Steps ----

  lemma FastInv(s: State, r: Id, verdict: bool, walOk: bool)
    requires Inv(s) && PcOf(s, r).HoldFast?
    ensures Inv(FastStep(s, r, verdict, walOk))
  {
    hide OrderOk, Receivers;
    FastOrder(s, r, verdict, walOk);
    assert s.guard == Some(r) && BatchOf(s) == [];
    var s' := FastStep(s, r, verdict, walOk);
    forall q
      ensures RequestOk(PcOf(s', q), Got(s', q), q in s'.queue, q in BatchOf(s'))
    {
      assert RequestOk(PcOf(s, q), Got(s, q), q in s.queue, q in BatchOf(s));
      GotNext(s.sent, Delivery(r, FastOutcome(verdict, walOk, s.nextSeq)), q);
    }
  }

  lemma FlushInv(s: State, r: Id, verdicts: seq<bool>, walOk: bool)
    requires Inv(s) && PcOf(s, r).Draining? && |verdicts| == |PcOf(s, r).batch|
    ensures Inv(FlushStep(s, r, verdicts, walOk))
  {
    hide OrderOk, Receivers, Flushed;
    FlushOrder(s, r, verdicts, walOk);
    var batch := PcOf(s, r).batch;
    assert s.guard == Some(r) && BatchOf(s) == batch;
    var result := Flushed(batch, verdicts, walOk, s.nextSeq);
    var s' := FlushStep(s, r, verdicts, walOk);
    OneOutcomeEach(batch, verdicts, walOk, s.nextSeq);
    ReceiversConcat(s.sent, result.sent);
    forall q
      ensures RequestOk(PcOf(s', q), Got(s', q), q in s'.queue, q in BatchOf(s'))
    {
      assert RequestOk(PcOf(s, q), Got(s, q), q in s.queue, q in BatchOf(s));
      DistinctCount(batch, q);
      assert Got(s', q) == Got(s, q) + if q in batch then 1 else 0;
    }
  }

  lemma PushInv(s: State, r: Id)
    requires Inv(s) && PcOf(s, r).ToPush?
    ensures Inv(Next(s, Push(r)))
  {
    hide OrderOk, Got;
    var s' := Next(s, Push(r));
    assert BatchOf(s') == BatchOf(s);
    assert RequestOk(PcOf(s, r), Got(s, r), r in s.queue, r in BatchOf(s));
    forall q
      ensures RequestOk(PcOf(s', q), Got(s', q), q in s'.queue, q in BatchOf(s'))
    {
      assert RequestOk(PcOf(s, q), Got(s, q), q in s.queue, q in BatchOf(s));
      SameGot(s, s', q);
    }
    OrderKept(s, s');
  }

  lemma SameGot(s: State, s': State, q: Id)
    requires s'.sent == s.sent
    ensures Got(s', q) == Got(s, q)
  {
  }

  lemma OrderKept(s: State, s': State)
    requires OrderOk(s) && s'.sent == s.sent && s'.wal == s.wal && s'.nextSeq == s.nextSeq
    ensures OrderOk(s')
  {
  }

  lemma DrainInv(s: State, r: Id)
    requires Inv(s) && PcOf(s, r).Missed?
    ensures Inv(Next(s, Drain(r)))
  {
    hide OrderOk, Got;
    var s' := Next(s, Drain(r));
    assert s.guard == Some(r) && BatchOf(s) == [] && BatchOf(s') == s.queue;
    forall q
      ensures RequestOk(PcOf(s', q), Got(s', q), q in s'.queue, q in BatchOf(s'))
    {
      assert RequestOk(PcOf(s, q), Got(s, q), q in s.queue, q in BatchOf(s));
      SameGot(s, s', q);
      if q != r {
        assert !HoldsGuard(PcOf(s, q));
      }
    }
    OrderKept(s, s');
  }

  /** Steps that only move a writer and the guard. */
  lemma QuietInv(s: State, a: Action)
    requires Inv(s) && Enabled(s, a) && (a.Probe? || a.AcquireFast? || a.AcquireSlow? || a.Look?)
    ensures Inv(Next(s, a))
  {
    hide OrderOk, Got;
    var s', r := Next(s, a), a.r;
    assert RequestOk(PcOf(s, r), Got(s, r), r in s.queue, r in BatchOf(s));
    assert HoldsGuard(PcOf(s, r)) <==> s.guard == Some(r);
    assert BatchOf(s') == BatchOf(s);
    forall q
      ensures RequestOk(PcOf(s', q), Got(s', q), q in s'.queue, q in BatchOf(s'))
    {
      assert RequestOk(PcOf(s, q), Got(s, q), q in s.queue, q in BatchOf(s));
      SameGot(s, s', q);
    }
    OrderKept(s, s');
  }

  lemma StepInv(s: State, a: Action)
    requires Inv(s) && Enabled(s, a)
    ensures Inv(Next(s, a))
  {
    hide Inv, FastStep, FlushStep;
    match a
    case FastCheck(r, verdict, walOk) => FastInv(s, r, verdict, walOk);
    case Flush(r, verdicts, walOk) => FlushInv(s, r, verdicts, walOk);
    case Push(r) => PushInv(s, r);
    case Drain(r) => DrainInv(s, r);
    case _ => QuietInv(s, a);
  }

  lemma {:induction false} RunInv(run: seq<Action>, s: State)
    requires Runs(run, s)
    ensures Inv(s)
  {
    hide Inv, Next, Enabled;
    if run == [] {
      InitInv();
    } else {
      var a := run[|run| - 1];
      var t: State :| Runs(run[..|run| - 1], t) && Leads(t, a, s);
      RunInv(run[..|run| - 1], t);
      StepInv(t, a);
    }
  }

  lemma InitInv()
    ensures Inv(INIT)
  {
  }

  // ---- Main results ----

  /** In every interleaving, a writer that holds the guard without a result finds its own request in
      the queue: the batch it takes is never empty. */
  lemma OwnRequestIsQueued(run: seq<Action>, s: State, r: Id)
    requires Runs(run, s) && PcOf(s, r).Missed?
    ensures r in s.queue && s.guard == Some(r)
  {
    hide Got, OrderOk, Runs;
    RunInv(run, s);
    assert RequestOk(PcOf(s, r), Got(s, r), r in s.queue, r in BatchOf(s));
    assert HoldsGuard(PcOf(s, r)) <==> s.guard == Some(r);
  }

  /** In every interleaving, a request is given at most one outcome, and a finished one exactly one. */
  lemma ExactlyOneOutcome(run: seq<Action>, s: State, r: Id)
    requires Runs(run, s)
    ensures Got(s, r) <= 1 && (PcOf(s, r).Done? ==> Got(s, r) == 1)
  {
    hide Got, OrderOk, Runs;
    RunInv(run, s);
    assert RequestOk(PcOf(s, r), Got(s, r), r in s.queue, r in BatchOf(s));
  }

  // ---- What callers are given ----

  lemma {:induction false} SentToMember(sent: seq<Delivery>, r: Id)
    ensures SentTo(sent, r).Some? <==> r in Receivers(sent)
    ensures SentTo(sent, r).Some? ==> Delivery(r, SentTo(sent, r).value) in sent
  {
    if sent != [] {
      SentToMember(sent[..|sent| - 1], r);
    }
  }

  lemma {:induction false} OnlyDelivery(sent: seq<Delivery>, d: Delivery)
    requires d in sent && multiset(Receivers(sent))[d.id] <= 1
    ensures SentTo(sent, d.id) == Some(d.outcome)
  {
    var n := |sent| - 1;
    var front, last := sent[..n], sent[n];
    assert sent == front + [last];
    GotNext(front, last, d.id);
    if last.id == d.id {
      assert multiset(Receivers(front))[d.id] == 0;
      if d in front {
        ReceiverOf(front, d);
      }
    } else {
      OnlyDelivery(front, d);
    }
  }

  lemma {:induction false} ReceiverOf(sent: seq<Delivery>, d: Delivery)
    requires d in sent
    ensures d.id in Receivers(sent) && multiset(Receivers(sent))[d.id] > 0
  {
    if sent[|sent| - 1] != d {
      ReceiverOf(sent[..|sent| - 1], d);
    }
  }

  lemma {:induction false} ToldMembers(ids: seq<Id>, outcome: Outcome, r: Id)
    ensures Delivery(r, outcome) in Told(ids, outcome) <==> r in ids
  {
    if ids != [] {
      ToldMembers(ids[..|ids| - 1], outcome, r);
    }
  }

  /** What a finished writer was sent, once, and what it returned: the same, or, for a rejected leader
      whose log append failed, the log error. */
  ghost predicate ReturnOk(sent: seq<Delivery>, r: Id, returned: Outcome) {
    exists o: Outcome :: Delivery(r, o) in sent && (returned == o || (returned.WalFailed? && o.Rejected?))
  }

  ghost predicate ReturnsOk(s: State) {
    forall r: Id :: PcOf(s, r).Done? ==> ReturnOk(s.sent, r, PcOf(s, r).returned)
  }

  lemma ReturnOkLater(sent: seq<Delivery>, more: seq<Delivery>, r: Id, returned: Outcome)
    requires ReturnOk(sent, r, returned)
    ensures ReturnOk(sent + more, r, returned)
  {
    var o: Outcome :| Delivery(r, o) in sent && (returned == o || (returned.WalFailed? && o.Rejected?));
    assert Delivery(r, o) in sent + more;
  }

  lemma ChannelOk(sent: seq<Delivery>, r: Id)
    requires r in Receivers(sent)
    ensures ReturnOk(sent, r, Channel(sent, r))
  {
    SentToMember(sent, r);
  }

  /** What a leader returns, and that it differs from what it was sent exactly when its own request was
      rejected and the log append of others failed. */
  lemma LeaderReturns(batch: seq<Id>, verdicts: seq<bool>, walOk: bool, first: nat, r: Id)
    requires |batch| == |verdicts| && NoRepeats(batch) && r in batch
    ensures var sent := Flushed(batch, verdicts, walOk, first).sent;
            var returned := Returned(batch, verdicts, walOk, sent, r);
            && ReturnOk(sent, r, returned)
            && SentTo(sent, r).Some?
            && (returned != SentTo(sent, r).value <==>
                !walOk && Filtered(batch, verdicts, true) != [] && r in Filtered(batch, verdicts, false))
  {
    hide Filtered, Told, Stamped, Receivers, SentTo;
    var result := Flushed(batch, verdicts, walOk, first);
    var sent := result.sent;
    OneOutcomeEach(batch, verdicts, walOk, first);
    assert r in Receivers(sent) by {
      assert r in multiset(Receivers(sent));
    }
    DistinctCount(batch, r);
    ChannelOk(sent, r);
    SentToMember(sent, r);
    if !walOk && Filtered(batch, verdicts, true) != [] {
      FilteredSplits(batch, verdicts);
      assert r in Filtered(batch, verdicts, true) || r in Filtered(batch, verdicts, false) by {
        assert r in multiset(batch);
      }
      var failing, passing := Filtered(batch, verdicts, false), Filtered(batch, verdicts, true);
      ToldMembers(failing, Rejected, r);
      ToldMembers(passing, WalFailed, r);
      if r in failing {
        OnlyDelivery(sent, Delivery(r, Rejected));
      } else {
        OnlyDelivery(sent, Delivery(r, WalFailed));
      }
    }
  }

  lemma StepReturns(s: State, a: Action)
    requires Inv(s) && ReturnsOk(s) && Enabled(s, a)
    ensures ReturnsOk(Next(s, a))
  {
    hide OrderOk, Receivers, Flushed, Returned, Channel, ReturnOk, NoRepeats;
    var s', r := Next(s, a), a.r;
    assert RequestOk(PcOf(s, r), Got(s, r), r in s.queue, r in BatchOf(s));
    assert HoldsGuard(PcOf(s, r)) <==> s.guard == Some(r);
    match a {
      case FastCheck(_, verdict, walOk) =>
        FastReturn(s, r, verdict, walOk);
      case Look(_) =>
        if Got(s, r) > 0 {
          ChannelOk(s.sent, r);
        }
      case Flush(_, verdicts, walOk) =>
        FlushReturn(s, r, verdicts, walOk);
      case _ =>
    }
    forall q: Id | q != r && PcOf(s', q).Done?
      ensures ReturnOk(s'.sent, q, PcOf(s', q).returned)
    {
      assert PcOf(s', q) == PcOf(s, q);
      GrownSent(s, a);
      ReturnOkLater(s.sent, s'.sent[|s.sent|..], q, PcOf(s, q).returned);
    }
  }

  lemma GrownSent(s: State, a: Action)
    requires Enabled(s, a)
    ensures |s.sent| <= |Next(s, a).sent| && s.sent + Next(s, a).sent[|s.sent|..] == Next(s, a).sent
  {
    hide Flushed;
  }

  lemma FastReturn(s: State, r: Id, verdict: bool, walOk: bool)
    ensures var s' := FastStep(s, r, verdict, walOk);
            PcOf(s', r).Done? ==> ReturnOk(s'.sent, r, PcOf(s', r).returned)
  {
    var outcome := FastOutcome(verdict, walOk, s.nextSeq);
    assert Delivery(r, outcome) in s.sent + [Delivery(r, outcome)];
  }

  lemma FlushReturn(s: State, r: Id, verdicts: seq<bool>, walOk: bool)
    requires PcOf(s, r).Draining? && |verdicts| == |PcOf(s, r).batch|
    requires NoRepeats(PcOf(s, r).batch) && r in PcOf(s, r).batch
    ensures var s' := FlushStep(s, r, verdicts, walOk);
            ReturnOk(s'.sent, r, PcOf(s', r).returned)
  {
    hide Flushed, Returned, ReturnOk, NoRepeats;
    var batch := PcOf(s, r).batch;
    var sent := Flushed(batch, verdicts, walOk, s.nextSeq).sent;
    LeaderReturns(batch, verdicts, walOk, s.nextSeq, r);
    ReturnOkEarlier(s.sent, sent, r, Returned(batch, verdicts, walOk, sent, r));
  }

  lemma ReturnOkEarlier(before: seq<Delivery>, sent: seq<Delivery>, r: Id, returned: Outcome)
    requires ReturnOk(sent, r, returned)
    ensures ReturnOk(before + sent, r, returned)
  {
    var o: Outcome :| Delivery(r, o) in sent && (returned == o || (returned.WalFailed? && o.Rejected?));
    assert Delivery(r, o) in before + sent;
  }

  lemma {:induction false} RunReturns(run: seq<Action>, s: State)
    requires Runs(run, s)
    ensures ReturnsOk(s)
  {
    hide Inv, Next, Enabled, ReturnsOk;
    if run == [] {
      InitReturns();
    } else {
      var a := run[|run| - 1];
      var t: State :| Runs(run[..|run| - 1], t) && Leads(t, a, s);
      RunReturns(run[..|run| - 1], t);
      RunInv(run[..|run| - 1], t);
      StepReturns(t, a);
    }
  }

  lemma InitReturns()
    ensures ReturnsOk(INIT)
  {
  }

  /** In every interleaving, a finished writer was sent exactly one outcome, and returned it; only a
      rejected leader may return the log error of its batch instead. */
  lemma ReturnedOutcome(run: seq<Action>, s: State, r: Id)
    requires Runs(run, s) && PcOf(s, r).Done?
    ensures var o := SentTo(s.sent, r);
            && o.Some?
            && (PcOf(s, r).returned == o.value || (PcOf(s, r).returned.WalFailed? && o.value.Rejected?))
  {
    hide Runs, Inv, SentTo, Receivers;
    RunReturns(run, s);
    ExactlyOneOutcome(run, s, r);
    var returned := PcOf(s, r).returned;
    assert ReturnOk(s.sent, r, returned);
    var o: Outcome :| Delivery(r, o) in s.sent && (returned == o || (returned.WalFailed? && o.Rejected?));
    OnlyDelivery(s.sent, Delivery(r, o));
  }

  /** In every interleaving, the requests in the log are the committed ones, and their timestamps are
      consecutive in log order. */
  lemma LogOrderIsCommitOrder(run: seq<Action>, s: State)
    requires Runs(run, s)
    ensures CommitsOf(s.sent) == Stamped(s.wal, FIRST)
  {
    hide Got, RequestsOk, Runs, GuardOk;
    RunInv(run, s);
  }

  // ---- Verdicts decide ----

  /** How many of the first `i` verdicts are favourable. */
  function Favourable(verdicts: seq<bool>, i: nat): nat
    requires i <= |verdicts|
  {
    if i == 0 then 0 else Favourable(verdicts, i - 1) + if verdicts[i - 1] then 1 else 0
  }

  lemma {:induction false} FavourablePrefix(verdicts: seq<bool>, n: nat, i: nat)
    requires i <= n <= |verdicts|
    ensures Favourable(verdicts[..n], i) == Favourable(verdicts, i)
  {
    if i > 0 {
      FavourablePrefix(verdicts, n, i - 1);
    }
  }

  /** Requests with a favourable verdict keep their order, and the others are left out. */
  lemma {:induction false} FilteredPlace(batch: seq<Id>, verdicts: seq<bool>, i: nat)
    requires |batch| == |verdicts| && i < |batch|
    ensures var passing := Filtered(batch, verdicts, true);
            verdicts[i] ==> Favourable(verdicts, i) < |passing| && passing[Favourable(verdicts, i)] == batch[i]
    ensures !verdicts[i] ==> batch[i] in Filtered(batch, verdicts, false)
  {
    var n := |batch| - 1;
    FavourablePrefix(verdicts, n, i);
    FilteredCount(batch[..n], verdicts[..n]);
    if i < n {
      FilteredPlace(batch[..n], verdicts[..n], i);
      assert verdicts[..n][i] == verdicts[i] && batch[..n][i] == batch[i];
    }
  }

  lemma {:induction false} FilteredCount(batch: seq<Id>, verdicts: seq<bool>)
    requires |batch| == |verdicts|
    ensures |Filtered(batch, verdicts, true)| == Favourable(verdicts, |verdicts|)
  {
    if batch != [] {
      var n := |batch| - 1;
      FilteredCount(batch[..n], verdicts[..n]);
      FavourablePrefix(verdicts, n, n);
    }
  }

  lemma FilteredPlaces(batch: seq<Id>, verdicts: seq<bool>)
    requires |batch| == |verdicts|
    ensures var passing := Filtered(batch, verdicts, true);
            && |passing| == Favourable(verdicts, |verdicts|)
            && forall i :: 0 <= i < |batch| && verdicts[i] ==>
                 Favourable(verdicts, i) < |passing| && passing[Favourable(verdicts, i)] == batch[i]
    ensures forall i :: 0 <= i < |batch| && !verdicts[i] ==> batch[i] in Filtered(batch, verdicts, false)
  {
    hide Filtered, Favourable;
    FilteredCount(batch, verdicts);
    forall i | 0 <= i < |batch|
      ensures var passing := Filtered(batch, verdicts, true);
              verdicts[i] ==> Favourable(verdicts, i) < |passing| && passing[Favourable(verdicts, i)] == batch[i]
      ensures !verdicts[i] ==> batch[i] in Filtered(batch, verdicts, false)
    {
      FilteredPlace(batch, verdicts, i);
    }
  }

  lemma {:induction false} StampedPlaces(ids: seq<Id>, first: nat, i: nat)
    requires i < |ids|
    ensures Delivery(ids[i], Committed(first + i)) in Stamped(ids, first)
  {
    if i < |ids| - 1 {
      StampedPlaces(ids[..|ids| - 1], first, i);
    }
  }

  /** What request `i` of a batch is to be sent. */
  function Due(verdicts: seq<bool>, walOk: bool, first: nat, i: nat): Outcome
    requires i < |verdicts|
  {
    if !verdicts[i] then Rejected else if !walOk then WalFailed else Committed(first + Favourable(verdicts, i))
  }

  /**
   The verdict of the hook decides. A request is rejected if and only if its verdict is unfavourable, and
   committed if and only if it is favourable and the log append succeeded; the requests logged are exactly
   the committed ones, in the order of the batch, with consecutive timestamps.
   */
  lemma VerdictDecides(batch: seq<Id>, verdicts: seq<bool>, walOk: bool, first: nat, i: nat)
    requires |batch| == |verdicts| && NoRepeats(batch) && i < |batch|
    ensures var result := Flushed(batch, verdicts, walOk, first);
            && SentTo(result.sent, batch[i]) == Some(Due(verdicts, walOk, first, i))
            && (batch[i] in result.logged <==> walOk && verdicts[i])
            && |result.logged| == (if walOk then Favourable(verdicts, |verdicts|) else 0)
            && (walOk && verdicts[i] ==>
                  Favourable(verdicts, i) < |result.logged| && result.logged[Favourable(verdicts, i)] == batch[i])
  {
    hide Filtered, Told, Stamped, Receivers, SentTo;
    var r, result := batch[i], Flushed(batch, verdicts, walOk, first);
    var passing, failing := Filtered(batch, verdicts, true), Filtered(batch, verdicts, false);
    FilteredPlaces(batch, verdicts);
    FilteredApart(batch, verdicts, r);
    OneOutcomeEach(batch, verdicts, walOk, first);
    DistinctCount(batch, r);
    ToldMembers(failing, Rejected, r);
    ToldMembers(passing, WalFailed, r);
    if verdicts[i] {
      assert passing[Favourable(verdicts, i)] in passing;
      StampedPlaces(passing, first, Favourable(verdicts, i));
    }
    assert Delivery(r, Due(verdicts, walOk, first, i)) in result.sent;
    OnlyDelivery(result.sent, Delivery(r, Due(verdicts, walOk, first, i)));
  }

  lemma FilteredApart(batch: seq<Id>, verdicts: seq<bool>, r: Id)
    requires |batch| == |verdicts| && NoRepeats(batch) && r in batch
    ensures r in Filtered(batch, verdicts, true) <==> r !in Filtered(batch, verdicts, false)
  {
    hide Filtered;
    var passing: seq<Id>, failing: seq<Id> := Filtered(batch, verdicts, true), Filtered(batch, verdicts, false);
    FilteredSplits(batch, verdicts);
    DistinctCount(batch, r);
    var p: multiset<Id>, f: multiset<Id> := multiset(passing), multiset(failing);
    assert multiset(batch)[r] == (p + f)[r] == p[r] + f[r];
    assert r in passing <==> r in p;
    assert r in failing <==> r in f;
  }

  /** Step `a` in state `t` gives request `r` this verdict. */
  ghost predicate Judges(t: State, a: Action, r: Id, verdict: bool) {
    || (a.FastCheck? && a.r == r && a.verdict == verdict && t.queue == [])
    || (a.Flush? && PcOf(t, a.r).Draining? && |a.verdicts| == |PcOf(t, a.r).batch| && InBatchAs(PcOf(t, a.r).batch, a.verdicts, r, verdict))
  }

  ghost predicate InBatchAs(batch: seq<Id>, verdicts: seq<bool>, r: Id, verdict: bool)
    requires |batch| == |verdicts|
  {
    exists i :: 0 <= i < |batch| && batch[i] == r && verdicts[i] == verdict
  }

  /** A step logs a request only with a favourable verdict and a log append that succeeded. */
  lemma LoggingStep(t: State, a: Action, r: Id)
    requires Inv(t) && Enabled(t, a) && r !in t.wal && r in Next(t, a).wal
    ensures Judges(t, a, r, true) && (a.FastCheck? || a.Flush?) && a.walOk
  {
    hide OrderOk, Receivers, RequestsOk, Filtered, Told, Stamped, SentTo, Flushed, GuardOk, Returned;
    if a.Flush? {
      var batch := PcOf(t, a.r).batch;
      DrainedOnce(t, a.r);
      LoggedIsFavoured(batch, a.verdicts, a.walOk, t.nextSeq, r);
    }
  }

  lemma DrainedOnce(t: State, r: Id)
    requires Inv(t) && PcOf(t, r).Draining?
    ensures NoRepeats(PcOf(t, r).batch)
  {
    hide OrderOk, RequestsOk, NoRepeats;
    assert HoldsGuard(PcOf(t, r)) <==> t.guard == Some(r);
  }

  lemma LoggedIsFavoured(batch: seq<Id>, verdicts: seq<bool>, walOk: bool, first: nat, r: Id)
    requires |batch| == |verdicts| && NoRepeats(batch) && r in Flushed(batch, verdicts, walOk, first).logged
    ensures walOk && InBatchAs(batch, verdicts, r, true)
  {
    hide Told, Stamped, SentTo;
    FilteredSplits(batch, verdicts);
    hide Filtered;
    assert r in multiset(Filtered(batch, verdicts, true));
    assert r in multiset(batch);
    var i :| 0 <= i < |batch| && batch[i] == r;
    VerdictDecides(batch, verdicts, walOk, first, i);
  }

  /** A step that refuses a request sends it a rejection. */
  lemma RefusingStep(t: State, a: Action, r: Id)
    requires Inv(t) && Enabled(t, a) && Judges(t, a, r, false)
    ensures Delivery(r, Rejected) in Next(t, a).sent
  {
    hide OrderOk, Receivers, RequestsOk, Filtered, Told, Stamped, SentTo, Flushed, GuardOk, Returned;
    if a.Flush? {
      var batch := PcOf(t, a.r).batch;
      DrainedOnce(t, a.r);
      var i :| 0 <= i < |batch| && batch[i] == r && !a.verdicts[i];
      VerdictDecides(batch, a.verdicts, a.walOk, t.nextSeq, i);
      SentToMember(Flushed(batch, a.verdicts, a.walOk, t.nextSeq).sent, r);
    }
  }

  /** A step that favours a request, and whose log append succeeds, commits and logs it. */
  lemma FavouringStep(t: State, a: Action, r: Id)
    requires Inv(t) && Enabled(t, a) && Judges(t, a, r, true) && a.walOk
    ensures r in Next(t, a).wal && exists ts: nat :: Delivery(r, Committed(ts)) in Next(t, a).sent
  {
    hide OrderOk, Receivers, RequestsOk, Filtered, Told, Stamped, SentTo, Flushed, GuardOk, Returned;
    if a.Flush? {
      var batch := PcOf(t, a.r).batch;
      DrainedOnce(t, a.r);
      var i :| 0 <= i < |batch| && batch[i] == r && a.verdicts[i];
      VerdictDecides(batch, a.verdicts, a.walOk, t.nextSeq, i);
      SentToMember(Flushed(batch, a.verdicts, a.walOk, t.nextSeq).sent, r);
      assert Delivery(r, Committed(t.nextSeq + Favourable(a.verdicts, i))) in Next(t, a).sent;
    } else {
      assert Delivery(r, Committed(t.nextSeq)) in Next(t, a).sent;
    }
  }

  /** The state that `r` was judged in, and the step. */
  ghost predicate JudgedAt(run: seq<Action>, i: nat, r: Id, verdict: bool) {
    i < |run| && exists t: State :: Runs(run[..i], t) && Enabled(t, run[i]) && Judges(t, run[i], r, verdict)
  }

  lemma JudgedLater(run: seq<Action>, i: nat, r: Id, verdict: bool)
    requires run != [] && JudgedAt(run[..|run| - 1], i, r, verdict)
    ensures JudgedAt(run, i, r, verdict)
  {
    hide Runs, Enabled, Judges;
    assert run[..|run| - 1][..i] == run[..i];
  }

  /** In every interleaving, whatever is in the log, by the fast path or by a group, was given a favourable verdict. */
  lemma {:induction false} LoggedWasFavoured(run: seq<Action>, s: State, r: Id) returns (i: nat)
    requires Runs(run, s) && r in s.wal
    ensures JudgedAt(run, i, r, true)
  {
    hide Inv, Next, Enabled, Judges;
    assert run != [];
    var n := |run| - 1;
    var t: State :| Runs(run[..n], t) && Leads(t, run[n], s);
    if r in t.wal {
      i := LoggedWasFavoured(run[..n], t, r);
      JudgedLater(run, i, r, true);
    } else {
      RunInv(run[..n], t);
      LoggingStep(t, run[n], r);
      i := n;
    }
  }

  lemma {:induction false} RunsUnique(run: seq<Action>, s: State, t: State)
    requires Runs(run, s) && Runs(run, t)
    ensures s == t
  {
    hide Next, Enabled;
    if run != [] {
      var n := |run| - 1;
      var s0: State :| Runs(run[..n], s0) && Leads(s0, run[n], s);
      var t0: State :| Runs(run[..n], t0) && Leads(t0, run[n], t);
      RunsUnique(run[..n], s0, t0);
    }
  }

  lemma {:induction false} RefusedIsTold(run: seq<Action>, s: State, i: nat, r: Id)
    requires Runs(run, s) && JudgedAt(run, i, r, false)
    ensures Delivery(r, Rejected) in s.sent
  {
    hide Inv, Next, Enabled, Judges;
    var n := |run| - 1;
    var t: State :| Runs(run[..n], t) && Leads(t, run[n], s);
    RunInv(run[..n], t);
    if i == n {
      var u: State :| Runs(run[..i], u) && Enabled(u, run[i]) && Judges(u, run[i], r, false);
      RunsUnique(run[..n], t, u);
      RefusingStep(t, run[n], r);
    } else {
      assert run[..n][..i] == run[..i];
      RefusedIsTold(run[..n], t, i, r);
      GrownSent(t, run[n]);
    }
  }

  /** In every interleaving, a request that was given an unfavourable verdict is sent a rejection, once, and is never in the log. */
  lemma RefusedNeverLogged(run: seq<Action>, s: State, i: nat, r: Id)
    requires Runs(run, s) && JudgedAt(run, i, r, false)
    ensures SentTo(s.sent, r) == Some(Rejected) && r !in s.wal
  {
    hide Runs, Inv, SentTo, Receivers, Stamped, CommitsOf, JudgedAt;
    RefusedIsTold(run, s, i, r);
    ExactlyOneOutcome(run, s, r);
    OnlyDelivery(s.sent, Delivery(r, Rejected));
    if r in s.wal {
      LogOrderIsCommitOrder(run, s);
      var j :| 0 <= j < |s.wal| && s.wal[j] == r;
      StampedPlaces(s.wal, FIRST, j);
      CommitsMember(s.sent, Delivery(r, Committed(FIRST + j)));
      OnlyDelivery(s.sent, Delivery(r, Committed(FIRST + j)));
    }
  }

  lemma {:induction false} CommitsMember(sent: seq<Delivery>, d: Delivery)
    ensures d in CommitsOf(sent) ==> d in sent
  {
    if sent != [] {
      CommitsMember(sent[..|sent| - 1], d);
    }
  }
}
