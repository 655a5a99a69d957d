/**
 The manifest: which files exist, kept as a log of edits.

 Opening replays the log; appending a batch extends log and memory together; a log that has grown
 past a threshold is replaced by a snapshot of memory.
 */
module Manifest {
  import opened Bytes
  import opened Sets
  import opened KeyOrder

  datatype Edit =
    | AddFile(fileId: u64, level: u32, meta: Meta)
    | DeleteFile(fileId: u64, level: u32)
    | NextFileId(next: u64)
    | DroppedPrefix(prefix: Key)
    | UndroppedPrefix(prefix: Key)

  datatype Meta = Meta(minKey: Key, maxKey: Key, bytes: u64, createdAt: u64)

  const NO_META := Meta([], [], 0, 0)

  type Levels = map<u32, set<u64>>

  datatype Members = Members(levels: Levels, meta: map<u64, Meta>, nextFileId: u64, dropped: set<Key>)

  const EMPTY := Members(map[], map[], 0, {})

  // ---- Edits ----

  function Succ(id: u64): u64 {
    if id == U64_MAX then id else id + 1
  }

  function Larger(a: u64, b: u64): u64 {
    if a >= b then a else b
  }

  function FilesAt(levels: Levels, level: u32): set<u64> {
    if level in levels then levels[level] else {}
  }

  predicate InLevel(levels: Levels, level: u32, id: u64) {
    id in FilesAt(levels, level)
  }

  function Without(levels: Levels, level: u32, id: u64): Levels {
    if level !in levels then levels
    else if levels[level] - {id} == {} then levels - {level}
    else levels[level := levels[level] - {id}]
  }

  function ApplyEdit(m: Members, e: Edit): Members {
    match e
    case AddFile(id, level, meta) =>
      m.(levels := m.levels[level := FilesAt(m.levels, level) + {id}],
         meta := m.meta[id := meta],
         nextFileId := Larger(m.nextFileId, Succ(id)))
    case DeleteFile(id, level) => m.(levels := Without(m.levels, level, id), meta := m.meta - {id})
    case NextFileId(next) => m.(nextFileId := Larger(m.nextFileId, next))
    case DroppedPrefix(p) => m.(dropped := m.dropped + {p})
    case UndroppedPrefix(p) => m.(dropped := m.dropped - {p})
  }

  function ApplyAll(m: Members, edits: seq<Edit>): Members {
    if edits == [] then m else ApplyEdit(ApplyAll(m, edits[..|edits| - 1]), edits[|edits| - 1])
  }

  lemma {:induction false} ApplyConcat(m: Members, a: seq<Edit>, b: seq<Edit>)
    ensures ApplyAll(m, a + b) == ApplyAll(ApplyAll(m, a), b)
  {
    hide ApplyEdit;
    if b == [] {
      assert a + b == a;
    } else {
      assert (a + b)[..|a + b| - 1] == a + b[..|b| - 1];
      ApplyConcat(m, a, b[..|b| - 1]);
    }
  }

  // ---- Consistency ----

  ghost predicate NoEmptyLevel(levels: Levels) {
    forall l :: l in levels ==> levels[l] != {}
  }

  ghost predicate Holds(levels: Levels, id: u64) {
    exists l: u32 :: InLevel(levels, l, id)
  }

  ghost predicate MetaMatches(levels: Levels, meta: map<u64, Meta>) {
    forall id: u64 :: id in meta <==> Holds(levels, id)
  }

  ghost predicate NextAbove(levels: Levels, next: u64) {
    forall id: u64 :: Holds(levels, id) ==> Succ(id) <= next
  }

  /** Every level has a file, exactly the files in a level have metadata, and the next id is above all of them. */
  ghost predicate Consistent(m: Members) {
    NoEmptyLevel(m.levels) && MetaMatches(m.levels, m.meta) && NextAbove(m.levels, m.nextFileId)
  }

  /** A deletion must name the only level its file is in. */
  ghost predicate Proper(m: Members, e: Edit) {
    e.DeleteFile? ==> forall l: u32 :: l != e.level ==> !InLevel(m.levels, l, e.fileId)
  }

  lemma AddKeepsConsistent(m: Members, id: u64, level: u32, meta: Meta)
    requires Consistent(m)
    ensures Consistent(ApplyEdit(m, AddFile(id, level, meta)))
  {
    var levels' := m.levels[level := FilesAt(m.levels, level) + {id}];
    forall x: u64
      ensures Holds(levels', x) <==> Holds(m.levels, x) || x == id
    {
      if Holds(m.levels, x) {
        var l: u32 :| InLevel(m.levels, l, x);
        assert InLevel(levels', l, x);
      }
      assert InLevel(levels', level, id);
      if Holds(levels', x) && x != id {
        var l: u32 :| InLevel(levels', l, x);
        assert InLevel(m.levels, l, x);
      }
    }
  }

  lemma WithoutIn(levels: Levels, level: u32, id: u64, l: u32, x: u64)
    ensures InLevel(Without(levels, level, id), l, x) <==> InLevel(levels, l, x) && !(l == level && x == id)
  {
  }

  /** A deletion keeps a consistent set consistent exactly when no other level holds its file. */
  lemma DeleteKeepsConsistentIff(m: Members, id: u64, level: u32)
    requires Consistent(m)
    ensures Consistent(ApplyEdit(m, DeleteFile(id, level))) <==> Proper(m, DeleteFile(id, level))
  {
    hide Without, InLevel;
    var levels' := Without(m.levels, level, id);
    forall l: u32, x: u64
      ensures InLevel(levels', l, x) <==> InLevel(m.levels, l, x) && !(l == level && x == id)
    {
      WithoutIn(m.levels, level, id, l, x);
    }
    WithoutNoEmpty(m.levels, level, id);
    assert Holds(levels', id) <==> !Proper(m, DeleteFile(id, level));
    forall x: u64 | x != id
      ensures Holds(levels', x) <==> Holds(m.levels, x)
    {
    }
  }

  lemma WithoutNoEmpty(levels: Levels, level: u32, id: u64)
    requires NoEmptyLevel(levels)
    ensures NoEmptyLevel(Without(levels, level, id))
  {
  }

  /** What exactly keeps a consistent set consistent. */
  lemma EditKeepsConsistentIff(m: Members, e: Edit)
    requires Consistent(m)
    ensures Consistent(ApplyEdit(m, e)) <==> Proper(m, e)
  {
    match e
    case AddFile(id, level, meta) => AddKeepsConsistent(m, id, level, meta);
    case DeleteFile(id, level) => DeleteKeepsConsistentIff(m, id, level);
    case _ =>
  }

  // ---- Snapshot ----

  function MetaOf(m: Members, id: u64): Meta {
    if id in m.meta then m.meta[id] else NO_META
  }

  function IdsInOrder(s: set<u64>): (ids: seq<u64>)
    ensures forall x :: x in ids <==> x in s
  {
    var ns := InOrder(s);
    assert forall i :: 0 <= i < |ns| ==> ns[i] in ns;
    ns
  }

  function LevelsInOrder(s: set<u32>): (ls: seq<u32>)
    ensures forall x :: x in ls <==> x in s
  {
    var ns := InOrder(s);
    assert forall i :: 0 <= i < |ns| ==> ns[i] in ns;
    ns
  }

  function FileEdits(m: Members, level: u32, ids: seq<u64>): seq<Edit> {
    if ids == [] then []
    else
      var id := ids[|ids| - 1];
      FileEdits(m, level, ids[..|ids| - 1]) + [AddFile(id, level, MetaOf(m, id))]
  }

  function LevelEdits(m: Members, levels: seq<u32>): seq<Edit> {
    if levels == [] then []
    else
      var l := levels[|levels| - 1];
      LevelEdits(m, levels[..|levels| - 1]) + FileEdits(m, l, IdsInOrder(FilesAt(m.levels, l)))
  }

  function DropEdits(prefixes: seq<Key>): seq<Edit> {
    if prefixes == [] then []
    else DropEdits(prefixes[..|prefixes| - 1]) + [DroppedPrefix(prefixes[|prefixes| - 1])]
  }

  /** The current state as a batch of edits. */
  function ToEdits(m: Members): seq<Edit> {
    LevelEdits(m, LevelsInOrder(m.levels.Keys)) + [NextFileId(m.nextFileId)] + DropEdits(Ascending(m.dropped))
  }

  /** The edit that adds `id` to `level`. */
  function Addition(m: Members, level: u32, id: u64): Edit {
    AddFile(id, level, MetaOf(m, id))
  }

  lemma {:induction false} FileEditsMembers(m: Members, level: u32, ids: seq<u64>, e: Edit)
    ensures e in FileEdits(m, level, ids) <==> e.AddFile? && e.fileId in ids && e == Addition(m, level, e.fileId)
  {
    if ids != [] {
      FileEditsMembers(m, level, ids[..|ids| - 1], e);
    }
  }

  lemma {:induction false} LevelEditsMembers(m: Members, levels: seq<u32>, e: Edit)
    ensures e in LevelEdits(m, levels) <==>
            e.AddFile? && e.level in levels && InLevel(m.levels, e.level, e.fileId) && e == Addition(m, e.level, e.fileId)
  {
    if levels != [] {
      var l := levels[|levels| - 1];
      LevelEditsMembers(m, levels[..|levels| - 1], e);
      FileEditsMembers(m, l, IdsInOrder(FilesAt(m.levels, l)), e);
    }
  }

  /** `adds` is a list of additions of exactly the files of `m`. */
  ghost predicate Lists(m: Members, adds: seq<Edit>) {
    && (forall e :: e in adds ==> e.AddFile? && InLevel(m.levels, e.level, e.fileId) && e == Addition(m, e.level, e.fileId))
    && (forall l: u32, id: u64 :: InLevel(m.levels, l, id) ==> Addition(m, l, id) in adds)
  }

  lemma LevelEditsList(m: Members)
    ensures Lists(m, LevelEdits(m, LevelsInOrder(m.levels.Keys)))
  {
    hide LevelEdits;
    var adds := LevelEdits(m, LevelsInOrder(m.levels.Keys));
    forall e | e in adds
      ensures e.AddFile? && InLevel(m.levels, e.level, e.fileId) && e == Addition(m, e.level, e.fileId)
    {
      LevelEditsMembers(m, LevelsInOrder(m.levels.Keys), e);
    }
    forall l: u32, id: u64 | InLevel(m.levels, l, id)
      ensures Addition(m, l, id) in adds
    {
      LevelEditsMembers(m, LevelsInOrder(m.levels.Keys), Addition(m, l, id));
    }
  }

  ghost predicate AllAdds(m: Members, adds: seq<Edit>) {
    forall e :: e in adds ==> e.AddFile? && e == Addition(m, e.level, e.fileId)
  }

  /** What a replay of additions holds: each added file at its level, with the metadata it was added with. */
  lemma {:induction false} AddsReplay(m: Members, adds: seq<Edit>)
    requires AllAdds(m, adds)
    ensures var r := ApplyAll(EMPTY, adds);
            && NoEmptyLevel(r.levels)
            && r.dropped == {}
            && (forall l: u32, id: u64 :: InLevel(r.levels, l, id) <==> Addition(m, l, id) in adds)
            && (forall id: u64 :: id in r.meta ==> r.meta[id] == MetaOf(m, id))
  {
    if adds != [] {
      var front, e := adds[..|adds| - 1], adds[|adds| - 1];
      assert adds == front + [e];
      AddsReplay(m, front);
      var r, r' := ApplyAll(EMPTY, front), ApplyAll(EMPTY, adds);
      assert e in adds;
      forall l: u32, id: u64
        ensures InLevel(r'.levels, l, id) <==> Addition(m, l, id) in adds
      {
        assert InLevel(r'.levels, l, id) <==> InLevel(r.levels, l, id) || (l == e.level && id == e.fileId);
      }
    }
  }

  lemma {:induction false} AddsMeta(m: Members, adds: seq<Edit>, id: u64)
    requires AllAdds(m, adds)
    ensures id in ApplyAll(EMPTY, adds).meta <==> exists e :: e in adds && e.AddFile? && e.fileId == id
  {
    if adds != [] {
      var front, e := adds[..|adds| - 1], adds[|adds| - 1];
      assert adds == front + [e];
      AddsMeta(m, front, id);
    }
  }

  lemma {:induction false} AddsNext(m: Members, adds: seq<Edit>, bound: u64)
    requires AllAdds(m, adds)
    ensures ApplyAll(EMPTY, adds).nextFileId <= bound <==> forall e :: e in adds ==> Succ(e.fileId) <= bound
  {
    if adds != [] {
      var front, e := adds[..|adds| - 1], adds[|adds| - 1];
      assert adds == front + [e];
      AddsNext(m, front, bound);
    }
  }

  function Elements(prefixes: seq<Key>): set<Key> {
    set p | p in prefixes
  }

  lemma ElementsNext(prefixes: seq<Key>, p: Key)
    ensures Elements(prefixes + [p]) == Elements(prefixes) + {p}
  {
  }

  lemma {:induction false} DropsReplay(m: Members, prefixes: seq<Key>)
    ensures ApplyAll(m, DropEdits(prefixes)) == m.(dropped := m.dropped + Elements(prefixes))
  {
    if prefixes != [] {
      hide ApplyAll, Elements;
      var front, p := prefixes[..|prefixes| - 1], prefixes[|prefixes| - 1];
      DropsReplay(m, front);
      ApplyNext(m, DropEdits(front), DroppedPrefix(p));
      assert prefixes == front + [p];
      ElementsNext(front, p);
    }
  }

  lemma LevelsEqualIff(a: Levels, b: Levels)
    requires NoEmptyLevel(a)
    requires forall l: u32, id: u64 :: InLevel(a, l, id) <==> InLevel(b, l, id)
    ensures a == b <==> NoEmptyLevel(b)
  {
    if NoEmptyLevel(b) {
      forall l: u32
        ensures FilesAt(a, l) == FilesAt(b, l)
      {
        forall id: u64 ensures id in FilesAt(a, l) <==> id in FilesAt(b, l) {
          assert InLevel(a, l, id) <==> InLevel(b, l, id);
        }
      }
      forall l: u32
        ensures l in a <==> l in b
      {
        assert FilesAt(a, l) == FilesAt(b, l);
      }
      forall l: u32 | l in a
        ensures a[l] == b[l]
      {
        assert FilesAt(a, l) == FilesAt(b, l);
      }
    }
  }

  /** Replaying a snapshot, part by part. */
  lemma SnapshotParts(m: Members)
    ensures var adds := LevelEdits(m, LevelsInOrder(m.levels.Keys));
            var a, r := ApplyAll(EMPTY, adds), ApplyAll(EMPTY, ToEdits(m));
            && AllAdds(m, adds)
            && r == Members(a.levels, a.meta, Larger(a.nextFileId, m.nextFileId), m.dropped)
  {
    hide ApplyAll, LevelEdits, DropEdits;
    var adds := LevelEdits(m, LevelsInOrder(m.levels.Keys));
    LevelEditsList(m);
    AddsReplay(m, adds);
    var a := ApplyAll(EMPTY, adds);
    ApplyConcat(EMPTY, adds + [NextFileId(m.nextFileId)], DropEdits(Ascending(m.dropped)));
    ApplyNext(EMPTY, adds, NextFileId(m.nextFileId));
    DropsReplay(ApplyAll(EMPTY, adds + [NextFileId(m.nextFileId)]), Ascending(m.dropped));
    assert {} + Elements(Ascending(m.dropped)) == m.dropped;
  }

  lemma NothingApplied(m: Members)
    ensures ApplyAll(m, []) == m
  {
  }

  lemma ApplyNext(m: Members, edits: seq<Edit>, e: Edit)
    ensures ApplyAll(m, edits + [e]) == ApplyEdit(ApplyAll(m, edits), e)
  {
    assert (edits + [e])[..|edits|] == edits;
  }

  /** Replaying a snapshot restores exactly the consistent states. */
  lemma SnapshotReplayIff(m: Members)
    ensures ApplyAll(EMPTY, ToEdits(m)) == m <==> Consistent(m)
  {
    hide ApplyAll, LevelEdits, ToEdits, InLevel, MetaOf;
    var adds := LevelEdits(m, LevelsInOrder(m.levels.Keys));
    var a := ApplyAll(EMPTY, adds);
    SnapshotParts(m);
    LevelEditsList(m);
    AddsReplay(m, adds);
    assert a.levels == m.levels <==> NoEmptyLevel(m.levels) by {
      LevelsEqualIff(a.levels, m.levels);
    }
    forall id: u64
      ensures id in a.meta <==> Holds(m.levels, id)
    {
      SnapshotMeta(m, adds, id);
    }
    assert a.meta == m.meta <==> MetaMatches(m.levels, m.meta) by {
      MetaEqualIff(m, a.meta);
    }
    SnapshotNext(m, adds);
  }

  /** A file added at two levels and deleted from one: it keeps a level and loses its metadata, so that a
      snapshot does not replay to memory. */
  lemma DoubleAddLosesMeta(meta: Meta)
    ensures var edits := [AddFile(1, 0, meta), AddFile(1, 1, meta), DeleteFile(1, 0)];
            var m := ApplyAll(EMPTY, edits);
            && InLevel(m.levels, 1, 1) && 1 !in m.meta
            && !Consistent(m) && ApplyAll(EMPTY, ToEdits(m)) != m
  {
    hide ToEdits, ApplyAll;
    var a, b, c := AddFile(1, 0, meta), AddFile(1, 1, meta), DeleteFile(1, 0);
    NothingApplied(EMPTY);
    ApplyNext(EMPTY, [], a);
    ApplyNext(EMPTY, [a], b);
    ApplyNext(EMPTY, [a, b], c);
    assert [] + [a] == [a] && [a] + [b] == [a, b] && [a, b] + [c] == [a, b, c];
    var m := ApplyAll(EMPTY, [a, b, c]);
    assert InLevel(m.levels, 1, 1);
    assert Holds(m.levels, 1);
    SnapshotReplayIff(m);
  }

  lemma SnapshotMeta(m: Members, adds: seq<Edit>, id: u64)
    requires Lists(m, adds)
    ensures id in ApplyAll(EMPTY, adds).meta <==> Holds(m.levels, id)
  {
    hide ApplyAll;
    AddsMeta(m, adds, id);
    if Holds(m.levels, id) {
      var l: u32 :| InLevel(m.levels, l, id);
      assert Addition(m, l, id) in adds;
    }
  }

  lemma MetaEqualIff(m: Members, meta: map<u64, Meta>)
    requires forall id: u64 :: id in meta <==> Holds(m.levels, id)
    requires forall id: u64 :: id in meta ==> meta[id] == MetaOf(m, id)
    ensures meta == m.meta <==> MetaMatches(m.levels, m.meta)
  {
  }

  lemma SnapshotNext(m: Members, adds: seq<Edit>)
    requires Lists(m, adds)
    ensures ApplyAll(EMPTY, adds).nextFileId <= m.nextFileId <==> NextAbove(m.levels, m.nextFileId)
  {
    hide ApplyAll;
    AddsNext(m, adds, m.nextFileId);
    if NextAbove(m.levels, m.nextFileId) {
      forall e | e in adds
        ensures Succ(e.fileId) <= m.nextFileId
      {
        assert Holds(m.levels, e.fileId);
      }
    }
    if forall e :: e in adds ==> Succ(e.fileId) <= m.nextFileId {
      forall id: u64 | Holds(m.levels, id)
        ensures Succ(id) <= m.nextFileId
      {
        var l: u32 :| InLevel(m.levels, l, id);
        assert Addition(m, l, id) in adds;
      }
    }
  }

  // ---- What a log of edits says ----

  predicate Adds(e: Edit, id: u64) {
    e.AddFile? && e.fileId == id
  }

  predicate Touches(e: Edit, id: u64) {
    (e.AddFile? || e.DeleteFile?) && e.fileId == id
  }

  /** `id` was added at `level` and not deleted from it since. */
  ghost predicate Kept(edits: seq<Edit>, level: u32, id: u64) {
    exists i :: 0 <= i < |edits| && Adds(edits[i], id) && edits[i].level == level && DeleteFile(id, level) !in edits[i + 1..]
  }

  /** The last edit that names `id`, at any level, is an addition with `meta`. */
  ghost predicate LastAdded(edits: seq<Edit>, id: u64, meta: Meta) {
    exists i :: 0 <= i < |edits| && Adds(edits[i], id) && edits[i].meta == meta
                && forall j :: i < j < |edits| ==> !Touches(edits[j], id)
  }

  /** `p` was dropped and not undropped since. */
  ghost predicate StillDropped(edits: seq<Edit>, p: Key) {
    exists i :: 0 <= i < |edits| && edits[i] == DroppedPrefix(p) && UndroppedPrefix(p) !in edits[i + 1..]
  }

  /** `bound` is above every file added and not below any recorded next id. */
  ghost predicate Bounds(edits: seq<Edit>, bound: u64) {
    forall e :: e in edits ==> (e.AddFile? ==> Succ(e.fileId) <= bound) && (e.NextFileId? ==> e.next <= bound)
  }

  lemma {:induction false} KeptIff(edits: seq<Edit>, level: u32, id: u64)
    ensures InLevel(ApplyAll(EMPTY, edits).levels, level, id) <==> Kept(edits, level, id)
  {
    if edits != [] {
      var n := |edits| - 1;
      var front, e := edits[..n], edits[n];
      KeptIff(front, level, id);
      KeptNext(front, e, level, id);
      assert edits == front + [e];
      var m := ApplyAll(EMPTY, front);
      match e
      case DeleteFile(x, l) => WithoutIn(m.levels, l, x, level, id);
      case _ =>
    }
  }

  lemma KeptNext(front: seq<Edit>, e: Edit, level: u32, id: u64)
    ensures Kept(front + [e], level, id) <==>
            (Adds(e, id) && e.level == level) || (Kept(front, level, id) && e != DeleteFile(id, level))
  {
    var edits := front + [e];
    forall i | 0 <= i < |front|
      ensures edits[i + 1..] == front[i + 1..] + [e] && edits[i] == front[i]
    {
    }
    assert edits[|front|] == e && edits[|front| + 1..] == [];
  }

  lemma {:induction false} LastAddedIff(edits: seq<Edit>, id: u64, meta: Meta)
    ensures var r := ApplyAll(EMPTY, edits).meta; (id in r && r[id] == meta) <==> LastAdded(edits, id, meta)
  {
    if edits != [] {
      var n := |edits| - 1;
      var front, e := edits[..n], edits[n];
      LastAddedIff(front, id, meta);
      LastAddedNext(front, e, id, meta);
      assert edits == front + [e];
    }
  }

  lemma LastAddedNext(front: seq<Edit>, e: Edit, id: u64, meta: Meta)
    ensures LastAdded(front + [e], id, meta) <==>
            (Adds(e, id) && e.meta == meta) || (LastAdded(front, id, meta) && !Touches(e, id))
  {
    var edits := front + [e];
    assert forall i :: 0 <= i < |front| ==> edits[i] == front[i];
    assert edits[|front|] == e;
  }

  lemma {:induction false} StillDroppedIff(edits: seq<Edit>, p: Key)
    ensures p in ApplyAll(EMPTY, edits).dropped <==> StillDropped(edits, p)
  {
    if edits != [] {
      var n := |edits| - 1;
      var front, e := edits[..n], edits[n];
      StillDroppedIff(front, p);
      StillDroppedNext(front, e, p);
      assert edits == front + [e];
    }
  }

  lemma StillDroppedNext(front: seq<Edit>, e: Edit, p: Key)
    ensures StillDropped(front + [e], p) <==> e == DroppedPrefix(p) || (StillDropped(front, p) && e != UndroppedPrefix(p))
  {
    var edits := front + [e];
    forall i | 0 <= i < |front|
      ensures edits[i + 1..] == front[i + 1..] + [e] && edits[i] == front[i]
    {
    }
    assert edits[|front|] == e && edits[|front| + 1..] == [];
  }

  lemma {:induction false} BoundsIff(edits: seq<Edit>, bound: u64)
    ensures ApplyAll(EMPTY, edits).nextFileId <= bound <==> Bounds(edits, bound)
  {
    if edits != [] {
      var n := |edits| - 1;
      BoundsIff(edits[..n], bound);
      assert edits == edits[..n] + [edits[n]];
    }
  }

  /** What replaying any log restores: a file is at a level when its last addition there was not followed
      by a deletion there, its metadata is that of the last edit naming it, a prefix is dropped when
      its last drop was not undone, and the next id is the least that no edit exceeds. */
  lemma ReplayMeans(edits: seq<Edit>)
    ensures var r := ApplyAll(EMPTY, edits);
            && (forall level: u32, id: u64 :: InLevel(r.levels, level, id) <==> Kept(edits, level, id))
            && (forall id: u64, meta :: (id in r.meta && r.meta[id] == meta) <==> LastAdded(edits, id, meta))
            && (forall p :: p in r.dropped <==> StillDropped(edits, p))
            && (forall bound: u64 :: r.nextFileId <= bound <==> Bounds(edits, bound))
  {
    hide ApplyAll, InLevel, Kept, LastAdded, StillDropped, Bounds;
    var r := ApplyAll(EMPTY, edits);
    forall level: u32, id: u64
      ensures InLevel(r.levels, level, id) <==> Kept(edits, level, id)
    {
      KeptIff(edits, level, id);
    }
    forall id: u64, meta
      ensures (id in r.meta && r.meta[id] == meta) <==> LastAdded(edits, id, meta)
    {
      LastAddedIff(edits, id, meta);
    }
    forall p
      ensures p in r.dropped <==> StillDropped(edits, p)
    {
      StillDroppedIff(edits, p);
    }
    forall bound: u64
      ensures r.nextFileId <= bound <==> Bounds(edits, bound)
    {
      BoundsIff(edits, bound);
    }
  }
}
