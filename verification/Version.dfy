/** MVCC version chains: newest first, with contiguous visibility intervals. */
module Version {
  import opened Bytes
  import opened Sequences

  const OPEN_ENDED_TS: u64 := U64_MAX

  datatype VersionedValue = VersionedValue(value: Option<Value>, beginTs: u64, endTs: u64) {
    predicate VisibleAt(snapshot: u64) {
      beginTs <= snapshot < endTs
    }
  }

  /** A fresh version: `None` is a delete tombstone. */
  function Live(value: Option<Value>, ts: u64): VersionedValue {
    VersionedValue(value, ts, OPEN_ENDED_TS)
  }

  /** `vs` is the part of a chain older than a version that begins at `end`. */
  predicate Below(vs: seq<VersionedValue>, end: u64) {
    vs == [] || (vs[0].beginTs < end && vs[0].endTs == end && Below(vs[1..], vs[0].beginTs))
  }

  /** Newest first; the newest interval is open, each older one ends where the next newer begins. */
  predicate Chain(vs: seq<VersionedValue>) {
    vs == [] || (vs[0].endTs == OPEN_ENDED_TS && Below(vs[1..], vs[0].beginTs))
  }

  /** The chain as a map from timestamp to value. */
  function Contents(vs: seq<VersionedValue>): map<u64, Option<Value>> {
    if vs == [] then map[] else Contents(vs[1..])[vs[0].beginTs := vs[0].value]
  }

  /** Splicing a version in: `end` is where the interval of the first position ends. */
  function Inserted(vs: seq<VersionedValue>, v: VersionedValue, end: u64): seq<VersionedValue> {
    if vs == [] then [v.(endTs := end)]
    else if vs[0].beginTs < v.beginTs then [v.(endTs := end), vs[0].(endTs := v.beginTs)] + vs[1..]
    else if vs[0].beginTs == v.beginTs then [v.(endTs := end)] + vs[1..]
    else [vs[0]] + Inserted(vs[1..], v, vs[0].beginTs)
  }

  /** The versions collection keeps: the newest, and those whose interval reaches past the watermark. */
  function Retained(vs: seq<VersionedValue>, oldest: u64, newest: u64): seq<VersionedValue> {
    if vs == [] then []
    else (if vs[0].beginTs == newest || vs[0].endTs > oldest then [vs[0]] else []) + Retained(vs[1..], oldest, newest)
  }

  function Collected(vs: seq<VersionedValue>, oldest: u64): seq<VersionedValue> {
    if vs == [] then [] else Retained(vs, oldest, vs[0].beginTs)
  }

  /** The first version of the chain that the snapshot sees. */
  function FirstVisible(vs: seq<VersionedValue>, snapshot: u64): Option<VersionedValue> {
    if vs == [] then None
    else if vs[0].VisibleAt(snapshot) then Some(vs[0])
    else FirstVisible(vs[1..], snapshot)
  }

  // ---- The timestamp-to-value map a chain refines ----

  /** `ts` is the newest write at or below `s`. */
  predicate IsNewest(m: map<u64, Option<Value>>, s: u64, ts: u64) {
    ts in m && ts <= s && forall t :: t in m && t <= s ==> t <= ts
  }

  /** A newer timestamp, still at or below `floor`, hides `t` from every snapshot from `floor` on. */
  predicate Hidden(m: map<u64, Option<Value>>, t: u64, floor: u64) {
    exists t' :: t' in m && t < t' <= floor
  }

  /** Every write is in the chain, or hidden by a newer write at or below the highest watermark used. */
  predicate Refines(vs: seq<VersionedValue>, writes: map<u64, Option<Value>>, floor: u64) {
    && Chain(vs)
    && (forall t :: t in Contents(vs) ==> t in writes && writes[t] == Contents(vs)[t])
    && (forall t :: t in writes && t !in Contents(vs) ==> Hidden(Contents(vs), t, floor))
  }

  lemma HiddenMonotone(m: map<u64, Option<Value>>, m': map<u64, Option<Value>>, floor: u64, floor': u64)
    requires m.Keys <= m'.Keys && floor <= floor'
    ensures forall t: u64 :: Hidden(m, t, floor) ==> Hidden(m', t, floor')
  {
    forall t: u64 | Hidden(m, t, floor) ensures Hidden(m', t, floor') {
      var t' :| t' in m && t < t' <= floor;
      assert t' in m';
    }
  }

  // ---- Shape of a chain ----

  lemma {:induction false} ContentsMember(vs: seq<VersionedValue>)
    ensures forall t :: t in Contents(vs) <==> exists i :: 0 <= i < |vs| && vs[i].beginTs == t
  {
    if vs != [] {
      ContentsMember(vs[1..]);
      assert forall i :: 0 < i < |vs| ==> vs[i] == vs[1..][i - 1];
      assert vs[0].beginTs in Contents(vs);
    }
  }

  lemma {:induction false} BelowBounds(vs: seq<VersionedValue>, end: u64)
    requires Below(vs, end)
    ensures forall t :: t in Contents(vs) ==> t < end
  {
    if vs != [] {
      BelowBounds(vs[1..], vs[0].beginTs);
    }
  }

  /** Timestamps strictly descend and intervals are contiguous, index by index. */
  lemma {:induction false} ChainShape(vs: seq<VersionedValue>, i: nat)
    requires Chain(vs) && i < |vs|
    ensures vs[i].endTs == if i == 0 then OPEN_ENDED_TS else vs[i - 1].beginTs
    ensures i > 0 ==> vs[i - 1].beginTs > vs[i].beginTs
  {
    if i > 0 {
      BelowShape(vs[1..], vs[0].beginTs, i - 1);
    }
  }

  lemma {:induction false} BelowShape(vs: seq<VersionedValue>, end: u64, i: nat)
    requires Below(vs, end) && i < |vs|
    ensures vs[i].endTs == if i == 0 then end else vs[i - 1].beginTs
    ensures vs[i].beginTs < vs[i].endTs
  {
    if i > 0 {
      BelowShape(vs[1..], vs[0].beginTs, i - 1);
    }
  }

  lemma EmptyContents(vs: seq<VersionedValue>)
    ensures Contents(vs) == map[] <==> vs == []
  {
    if vs != [] {
      assert vs[0].beginTs in Contents(vs);
    }
  }

  /** A chain is determined by its contents. */
  lemma {:induction false} BelowUnique(a: seq<VersionedValue>, b: seq<VersionedValue>, end: u64)
    requires Below(a, end) && Below(b, end) && Contents(a) == Contents(b)
    ensures a == b
  {
    EmptyContents(a);
    EmptyContents(b);
    if a != [] && b != [] {
      TailContents(a, end);
      TailContents(b, end);
      assert a[0].beginTs in Contents(a) && b[0].beginTs in Contents(b);
      assert a[0].beginTs == b[0].beginTs;
      BelowUnique(a[1..], b[1..], a[0].beginTs);
      assert a == [a[0]] + a[1..] && b == [b[0]] + b[1..];
    }
  }

  lemma TailContents(vs: seq<VersionedValue>, end: u64)
    requires vs != [] && Below(vs[1..], vs[0].beginTs)
    ensures Contents(vs[1..]) == Contents(vs) - {vs[0].beginTs}
    ensures forall t :: t in Contents(vs) ==> t <= vs[0].beginTs
    ensures Contents(vs)[vs[0].beginTs] == vs[0].value
  {
    BelowBounds(vs[1..], vs[0].beginTs);
  }

  lemma ChainUnique(a: seq<VersionedValue>, b: seq<VersionedValue>)
    requires Chain(a) && Chain(b) && Contents(a) == Contents(b)
    ensures a == b
  {
    EmptyContents(a);
    EmptyContents(b);
    if a != [] && b != [] {
      TailContents(a, OPEN_ENDED_TS);
      TailContents(b, OPEN_ENDED_TS);
      assert a[0].beginTs in Contents(a) && b[0].beginTs in Contents(b);
      BelowUnique(a[1..], b[1..], a[0].beginTs);
      assert a == [a[0]] + a[1..] && b == [b[0]] + b[1..];
    }
  }

  // ---- Insertion ----

  lemma {:induction false} InsertedBelow(vs: seq<VersionedValue>, v: VersionedValue, end: u64)
    requires Below(vs, end) && v.beginTs < end
    ensures Below(Inserted(vs, v, end), end)
    ensures Contents(Inserted(vs, v, end)) == Contents(vs)[v.beginTs := v.value]
  {
    if vs != [] {
      var r := Inserted(vs, v, end);
      if vs[0].beginTs < v.beginTs {
        var older := vs[0].(endTs := v.beginTs);
        assert r[1..] == [older] + vs[1..] && r[1..][1..] == vs[1..];
      } else if vs[0].beginTs == v.beginTs {
        assert r[1..] == vs[1..];
      } else {
        InsertedBelow(vs[1..], v, vs[0].beginTs);
        assert r[1..] == Inserted(vs[1..], v, vs[0].beginTs);
      }
    }
  }

  /** Inserting at any position keeps the chain and overwrites exactly one timestamp. */
  lemma InsertedChain(vs: seq<VersionedValue>, v: VersionedValue)
    requires Chain(vs)
    ensures Chain(Inserted(vs, v, OPEN_ENDED_TS))
    ensures Contents(Inserted(vs, v, OPEN_ENDED_TS)) == Contents(vs)[v.beginTs := v.value]
  {
    var r := Inserted(vs, v, OPEN_ENDED_TS);
    if vs == [] {
      assert r[1..] == [];
    } else if vs[0].beginTs < v.beginTs {
      var older := vs[0].(endTs := v.beginTs);
      assert r[1..] == [older] + vs[1..] && r[1..][1..] == vs[1..];
    } else if vs[0].beginTs == v.beginTs {
      assert r[1..] == vs[1..];
    } else {
      InsertedBelow(vs[1..], v, vs[0].beginTs);
      assert r[1..] == Inserted(vs[1..], v, vs[0].beginTs);
    }
  }

  // ---- Collection ----

  /** Among the older versions the retained ones are a prefix, and whatever goes is hidden by a
      version at or below the watermark that stays. */
  lemma {:induction false} RetainedBelow(vs: seq<VersionedValue>, end: u64, oldest: u64, newest: u64)
    requires Below(vs, end) && end <= newest
    ensures Below(Retained(vs, oldest, newest), end)
    ensures end <= oldest ==> Retained(vs, oldest, newest) == []
    ensures forall t :: t in Contents(Retained(vs, oldest, newest)) ==>
              t in Contents(vs) && Contents(vs)[t] == Contents(Retained(vs, oldest, newest))[t]
    ensures forall t :: t in Contents(vs) && t !in Contents(Retained(vs, oldest, newest)) ==>
              end <= oldest || Hidden(Contents(Retained(vs, oldest, newest)), t, oldest)
  {
    if vs != [] {
      RetainedBelow(vs[1..], vs[0].beginTs, oldest, newest);
      BelowBounds(vs[1..], vs[0].beginTs);
      var r := Retained(vs, oldest, newest);
      if end > oldest {
        var tail := Retained(vs[1..], oldest, newest);
        assert r[1..] == tail;
        assert vs[0].beginTs in Contents(r) && Contents(tail).Keys <= Contents(r).Keys;
        HiddenMonotone(Contents(tail), Contents(r), oldest, oldest);
        forall t | t in Contents(vs) && t !in Contents(r) ensures Hidden(Contents(r), t, oldest) {
          assert t in Contents(vs[1..]) && t < vs[0].beginTs;
          if vs[0].beginTs > oldest {
            assert Hidden(Contents(tail), t, oldest);
          }
        }
      } else {
        assert r == Retained(vs[1..], oldest, newest);
        assert r == [];
      }
    }
  }

  lemma CollectedChain(vs: seq<VersionedValue>, oldest: u64)
    requires Chain(vs)
    ensures Chain(Collected(vs, oldest))
    ensures forall t :: t in Contents(Collected(vs, oldest)) ==>
              t in Contents(vs) && Contents(vs)[t] == Contents(Collected(vs, oldest))[t]
    ensures forall t :: t in Contents(vs) && t !in Contents(Collected(vs, oldest)) ==>
              Hidden(Contents(Collected(vs, oldest)), t, oldest)
  {
    if vs != [] {
      RetainedBelow(vs[1..], vs[0].beginTs, oldest, vs[0].beginTs);
      BelowBounds(vs[1..], vs[0].beginTs);
      var r := Collected(vs, oldest);
      var tail := Retained(vs[1..], oldest, vs[0].beginTs);
      assert r[1..] == tail;
      assert vs[0].beginTs in Contents(r) && Contents(tail).Keys <= Contents(r).Keys;
      HiddenMonotone(Contents(tail), Contents(r), oldest, oldest);
      forall t | t in Contents(vs) && t !in Contents(r) ensures Hidden(Contents(r), t, oldest) {
        assert t in Contents(vs[1..]) && t < vs[0].beginTs;
        if vs[0].beginTs > oldest {
          assert Hidden(Contents(tail), t, oldest);
        }
      }
    }
  }

  /** Among the older versions nothing that stays is followed by a version at or below the watermark. */
  lemma {:induction false} RetainedVisible(vs: seq<VersionedValue>, end: u64, oldest: u64, newest: u64)
    requires Below(vs, end) && end <= newest
    ensures forall t, t' :: t in Contents(Retained(vs, oldest, newest)) && t' in Contents(vs) && t < t' ==> t' > oldest
  {
    if vs != [] {
      RetainedVisible(vs[1..], vs[0].beginTs, oldest, newest);
      RetainedBelow(vs[1..], vs[0].beginTs, oldest, newest);
      BelowBounds(vs[1..], vs[0].beginTs);
      var r, tail := Retained(vs, oldest, newest), Retained(vs[1..], oldest, newest);
      if end > oldest {
        assert r[1..] == tail;
      } else {
        assert r == tail;
      }
    }
  }

  /** Collection drops exactly the versions that a newer one at or below the watermark hides, so that
      at most one version at or below the watermark is left. */
  lemma CollectedExactly(vs: seq<VersionedValue>, oldest: u64)
    requires Chain(vs)
    ensures forall t :: t in Contents(Collected(vs, oldest)) <==>
              t in Contents(vs) && !exists t' :: t' in Contents(vs) && t < t' <= oldest
    ensures forall t, t' :: t in Contents(Collected(vs, oldest)) && t' in Contents(Collected(vs, oldest)) && t < t' ==>
              t' > oldest
  {
    hide Collected;
    CollectedChain(vs, oldest);
    forall t, t' | t in Contents(Collected(vs, oldest)) && t' in Contents(vs) && t < t' ensures t' > oldest {
      CollectedVisible(vs, oldest, t, t');
    }
  }

  lemma CollectedVisible(vs: seq<VersionedValue>, oldest: u64, t: u64, t': u64)
    requires Chain(vs) && t in Contents(Collected(vs, oldest)) && t' in Contents(vs) && t < t'
    ensures t' > oldest
  {
    var newest := vs[0].beginTs;
    RetainedVisible(vs[1..], newest, oldest, newest);
    RetainedBelow(vs[1..], newest, oldest, newest);
    BelowBounds(vs[1..], newest);
    assert Collected(vs, oldest)[1..] == Retained(vs[1..], oldest, newest);
  }

  // ---- Reading ----

  lemma {:induction false} VisibleBelow(vs: seq<VersionedValue>, end: u64, s: u64)
    requires Below(vs, end) && s < end
    ensures FirstVisible(vs, s).None? ==> forall t :: t in Contents(vs) ==> t > s
    ensures FirstVisible(vs, s).Some? ==>
              var v := FirstVisible(vs, s).value;
              IsNewest(Contents(vs), s, v.beginTs) && v.value == Contents(vs)[v.beginTs]
  {
    if vs != [] {
      BelowBounds(vs[1..], vs[0].beginTs);
      if s < vs[0].beginTs {
        VisibleBelow(vs[1..], vs[0].beginTs, s);
      }
    }
  }

  /** A read below `OPEN_ENDED_TS` returns the newest write at or below the snapshot. */
  lemma VisibleIsNewest(vs: seq<VersionedValue>, s: u64)
    requires Chain(vs) && s < OPEN_ENDED_TS
    ensures FirstVisible(vs, s).None? ==> forall t :: t in Contents(vs) ==> t > s
    ensures FirstVisible(vs, s).Some? ==>
              var v := FirstVisible(vs, s).value;
              IsNewest(Contents(vs), s, v.beginTs) && v.value == Contents(vs)[v.beginTs]
  {
    if vs != [] {
      BelowBounds(vs[1..], vs[0].beginTs);
      if s < vs[0].beginTs {
        VisibleBelow(vs[1..], vs[0].beginTs, s);
      }
    }
  }

  /** No version is visible at the sentinel timestamp itself. */
  lemma {:induction false} NothingVisibleAtSentinel(vs: seq<VersionedValue>)
    ensures FirstVisible(vs, OPEN_ENDED_TS) == None
  {
    if vs != [] {
      NothingVisibleAtSentinel(vs[1..]);
    }
  }

  // ---- Runs of inserts and collections, in any order ----

  datatype ChainOp = Insert(value: Option<Value>, ts: u64) | Collect(oldest: u64)

  function Run(ops: seq<ChainOp>): seq<VersionedValue> {
    if ops == [] then []
    else
      var vs := Run(ops[..|ops| - 1]);
      match ops[|ops| - 1]
      case Insert(value, ts) => Inserted(vs, Live(value, ts), OPEN_ENDED_TS)
      case Collect(oldest) => Collected(vs, oldest)
  }

  /** Everything ever written; the last write at a timestamp wins. */
  function Writes(ops: seq<ChainOp>): map<u64, Option<Value>> {
    if ops == [] then map[]
    else
      var m := Writes(ops[..|ops| - 1]);
      match ops[|ops| - 1]
      case Insert(value, ts) => m[ts := value]
      case Collect(_) => m
  }

  /** Highest watermark used. */
  function Floor(ops: seq<ChainOp>): u64 {
    if ops == [] then 0
    else
      var f := Floor(ops[..|ops| - 1]);
      match ops[|ops| - 1]
      case Collect(oldest) => if oldest > f then oldest else f
      case _ => f
  }

  lemma {:induction false} RunRefines(ops: seq<ChainOp>)
    ensures Refines(Run(ops), Writes(ops), Floor(ops))
  {
    if ops != [] {
      var front := ops[..|ops| - 1];
      RunRefines(front);
      var before, after := Contents(Run(front)), Contents(Run(ops));
      match ops[|ops| - 1]
      case Insert(value, ts) =>
        InsertedChain(Run(front), Live(value, ts));
        HiddenMonotone(before, after, Floor(front), Floor(ops));
      case Collect(oldest) =>
        CollectedChain(Run(front), oldest);
        forall t | t in Writes(ops) && t !in after ensures Hidden(after, t, Floor(ops)) {
          if t in before {
            assert Hidden(after, t, oldest);
          } else {
            var t' :| t' in before && t < t' <= Floor(front);
            assert t' in after || Hidden(after, t', oldest);
          }
        }
    }
  }

  /** After any mix of inserts (out of order, with repeated timestamps) and collections, a read at a
      snapshot at or above every watermark used returns the newest write at or below it. At the
      sentinel timestamp that fails as soon as anything was written. */
  lemma ReadAfterRun(ops: seq<ChainOp>, s: u64)
    requires s >= Floor(ops)
    ensures
      var r := FirstVisible(Run(ops), s);
      var correct := if r.Some? then IsNewest(Writes(ops), s, r.value.beginTs) && r.value.value == Writes(ops)[r.value.beginTs]
                     else forall t :: t in Writes(ops) ==> t > s;
      correct <==> s < OPEN_ENDED_TS || Writes(ops) == map[]
  {
    RunRefines(ops);
    var vs := Run(ops);
    if s < OPEN_ENDED_TS {
      VisibleIsNewest(vs, s);
    } else {
      NothingVisibleAtSentinel(vs);
    }
  }

  predicate DistinctInserts(ops: seq<ChainOp>) {
    && (forall i :: 0 <= i < |ops| ==> ops[i].Insert?)
    && (forall i, j :: 0 <= i < j < |ops| ==> ops[i].ts != ops[j].ts)
  }

  /** The chain does not depend on the order of inserts with distinct timestamps. */
  lemma PermutationIrrelevant(a: seq<ChainOp>, b: seq<ChainOp>)
    requires DistinctInserts(a) && DistinctInserts(b) && multiset(a) == multiset(b)
    ensures Run(a) == Run(b)
  {
    hide Writes, Chain, Contents;
    WritesPermuted(a, b);
    RunRefines(a);
    RunRefines(b);
    NoCollectionKeepsAll(a);
    NoCollectionKeepsAll(b);
    ChainUnique(Run(a), Run(b));
  }

  lemma WritesPermuted(a: seq<ChainOp>, b: seq<ChainOp>)
    requires DistinctInserts(a) && DistinctInserts(b) && multiset(a) == multiset(b)
    ensures Writes(a) == Writes(b)
  {
    hide Writes;
    WritesOfDistinct(a);
    WritesOfDistinct(b);
    assert forall op :: op in a ==> op in multiset(a);
    assert forall op :: op in b ==> op in multiset(b);
  }

  lemma {:induction false} WritesOfDistinct(ops: seq<ChainOp>)
    requires DistinctInserts(ops)
    ensures forall t :: t in Writes(ops) ==> Insert(Writes(ops)[t], t) in ops
    ensures forall op :: op in ops ==> op.ts in Writes(ops) && Writes(ops)[op.ts] == op.value
  {
    if ops != [] {
      var front, last := ops[..|ops| - 1], ops[|ops| - 1];
      WritesOfDistinct(front);
      assert ops == front + [last];
      assert forall op :: op in front ==> op.ts != last.ts;
    }
  }

  lemma {:induction false} NoCollectionKeepsAll(ops: seq<ChainOp>)
    requires forall op :: op in ops ==> op.Insert?
    ensures Contents(Run(ops)) == Writes(ops)
  {
    if ops != [] {
      var front := ops[..|ops| - 1];
      NoCollectionKeepsAll(front);
      RunRefines(front);
      InsertedChain(Run(front), Live(ops[|ops| - 1].value, ops[|ops| - 1].ts));
    }
  }

  // ---- The chain as an object ----

  /** First index whose timestamp is at most `ts`. */
  function PartitionPoint(vs: seq<VersionedValue>, ts: u64): (n: nat)
    ensures n <= |vs|
    ensures forall i :: 0 <= i < n ==> vs[i].beginTs > ts
    ensures n < |vs| ==> vs[n].beginTs <= ts
  {
    if vs == [] || vs[0].beginTs <= ts then 0 else 1 + PartitionPoint(vs[1..], ts)
  }

  /** Insertion leaves everything before the partition point alone. */
  lemma {:induction false} InsertedSkips(vs: seq<VersionedValue>, v: VersionedValue, end: u64)
    ensures
      var n := PartitionPoint(vs, v.beginTs);
      Inserted(vs, v, end) == vs[..n] + Inserted(vs[n..], v, if n == 0 then end else vs[n - 1].beginTs)
  {
    var n := PartitionPoint(vs, v.beginTs);
    if n > 0 {
      var tail := vs[1..];
      InsertedSkips(tail, v, vs[0].beginTs);
      var rest := Inserted(vs[n..], v, vs[n - 1].beginTs);
      assert tail[n - 1..] == vs[n..];
      assert Inserted(tail, v, vs[0].beginTs) == tail[..n - 1] + rest;
      Regroup([vs[0]], tail[..n - 1], rest);
      assert [vs[0]] + tail[..n - 1] == vs[..n];
    }
  }

  lemma UpdateIsSplice<T>(s: seq<T>, n: nat, x: T)
    requires n < |s|
    ensures s[n := x] == s[..n] + ([x] + s[n + 1..])
  {
  }

  lemma InsertedOver(vs: seq<VersionedValue>, v: VersionedValue, n: nat)
    requires Chain(vs) && n == PartitionPoint(vs, v.beginTs) && n < |vs| && vs[n].beginTs == v.beginTs
    ensures Inserted(vs, v, OPEN_ENDED_TS) == vs[n := v.(endTs := vs[n].endTs)]
  {
    InsertedSkips(vs, v, OPEN_ENDED_TS);
    ChainShape(vs, n);
    hide Chain, Below;
    var rest := vs[n..];
    assert rest[0] == vs[n] && rest[1..] == vs[n + 1..];
    UpdateIsSplice(vs, n, v.(endTs := vs[n].endTs));
  }

  lemma InsertedMiddle(vs: seq<VersionedValue>, v: VersionedValue, n: nat)
    requires Chain(vs) && n == PartitionPoint(vs, v.beginTs) && 0 < n < |vs| && vs[n].beginTs < v.beginTs
    ensures vs[n].endTs > v.beginTs
    ensures Inserted(vs, v, OPEN_ENDED_TS) ==
              vs[..n] + [v.(endTs := vs[n - 1].beginTs), vs[n].(endTs := v.beginTs)] + vs[n + 1..]
  {
    InsertedSkips(vs, v, OPEN_ENDED_TS);
    ChainShape(vs, n);
    hide Chain, Below;
    var rest := vs[n..];
    assert rest[0] == vs[n] && rest[1..] == vs[n + 1..];
    Regroup(vs[..n], [v.(endTs := vs[n - 1].beginTs), vs[n].(endTs := v.beginTs)], vs[n + 1..]);
  }

  lemma InsertedLast(vs: seq<VersionedValue>, v: VersionedValue)
    requires vs != [] && PartitionPoint(vs, v.beginTs) == |vs|
    ensures Inserted(vs, v, OPEN_ENDED_TS) == vs + [v.(endTs := vs[|vs| - 1].beginTs)]
  {
    InsertedSkips(vs, v, OPEN_ENDED_TS);
    assert vs[..|vs|] == vs && vs[|vs|..] == [];
  }

  class VersionChain {
    var versions: seq<VersionedValue>

    constructor ()
      ensures versions == []
    {
      versions := [];
    }

    /** Installs a committed version while preserving visibility intervals. */
    method Insert(version: VersionedValue)
      requires Chain(versions) && version.endTs == OPEN_ENDED_TS
      modifies this
      ensures versions == Inserted(old(versions), version, OPEN_ENDED_TS)
      ensures Chain(versions) && Contents(versions) == Contents(old(versions))[version.beginTs := version.value]
    {
      InsertedChain(versions, version);
      hide Chain, Below, Contents;
      if versions == [] {
        versions := [version];
        return;
      }
      if versions[0].beginTs < version.beginTs {
        versions := [version, versions[0].(endTs := version.beginTs)] + versions[1..];
        return;
      }
      var v := version;
      var idx := PartitionPoint(versions, v.beginTs);
      if idx < |versions| && versions[idx].beginTs == v.beginTs {
        InsertedOver(versions, v, idx);
        v := v.(endTs := versions[idx].endTs);
        versions := versions[idx := v];
        return;
      }
      v := v.(endTs := versions[idx - 1].beginTs);
      if idx < |versions| {
        InsertedMiddle(versions, version, idx);
        var older := versions[idx];
        if older.endTs > v.beginTs {
          older := older.(endTs := v.beginTs);
        }
        versions := versions[..idx] + [v, older] + versions[idx + 1..];
      } else {
        InsertedLast(versions, version);
        versions := versions + [v];
      }
    }

    /** The visible version at a snapshot: the head when it is visible, else the first visible one. */
    method Get(snapshot: u64) returns (r: Option<VersionedValue>)
      ensures r == FirstVisible(versions, snapshot)
    {
      if versions == [] {
        return None;
      }
      if versions[0].VisibleAt(snapshot) {
        return Some(versions[0]);
      }
      for i := 0 to |versions|
        invariant FirstVisible(versions, snapshot) == FirstVisible(versions[i..], snapshot)
      {
        if versions[i].VisibleAt(snapshot) {
          return Some(versions[i]);
        }
      }
      return None;
    }

    /** Drops versions no snapshot at or above `oldest` can observe; the newest always stays. */
    method GarbageCollect(oldest: u64) returns (dropped: nat)
      modifies this
      ensures versions == Collected(old(versions), oldest)
      ensures dropped == |old(versions)| - |versions|
    {
      if versions == [] {
        return 0;
      }
      var before, newest := versions, versions[0].beginTs;
      var kept: seq<VersionedValue> := [];
      for i := 0 to |before|
        invariant kept + Retained(before[i..], oldest, newest) == Retained(before, oldest, newest)
        invariant |kept| <= i
      {
        assert before[i..][1..] == before[i + 1..];
        Regroup(kept, [before[i]], Retained(before[i + 1..], oldest, newest));
        if before[i].beginTs == newest || before[i].endTs > oldest {
          kept := kept + [before[i]];
        }
      }
      versions := kept;
      dropped := |before| - |kept|;
    }
  }
}
