/** The in-memory version set: membership, the indexes derived from it, and lookups in them. */
module VersionSets {
  import opened Bytes
  import opened Sets
  import opened Sequences
  import opened Manifest

  // ---- Files by smallest key ----

  type KeyEntry = (Key, u64)

  predicate EntryBefore(a: KeyEntry, b: KeyEntry) {
    Less(a.0, b.0) || (a.0 == b.0 && a.1 < b.1)
  }

  ghost predicate EntriesAscend(f: seq<KeyEntry>) {
    forall i, j :: 0 <= i < j < |f| ==> EntryBefore(f[i], f[j])
  }

  predicate Describes(meta: map<u64, Meta>, e: KeyEntry) {
    e.1 in meta && meta[e.1].minKey == e.0
  }

  /** One entry per file, by smallest key and then by id. */
  ghost predicate IsFilesByKey(meta: map<u64, Meta>, f: seq<KeyEntry>) {
    EntriesAscend(f) && forall e :: e in f <==> Describes(meta, e)
  }

  lemma EntryTransitive(a: KeyEntry, b: KeyEntry, c: KeyEntry)
    requires EntryBefore(a, b) && EntryBefore(b, c)
    ensures EntryBefore(a, c)
  {
    if Less(a.0, b.0) && Less(b.0, c.0) {
      LessTransitive(a.0, b.0, c.0);
    }
  }

  lemma EntryTotal(a: KeyEntry, b: KeyEntry)
    ensures EntryBefore(a, b) || a == b || EntryBefore(b, a)
    ensures EntryBefore(a, b) ==> !EntryBefore(b, a) && a != b
  {
    LessTotal(a.0, b.0);
    LessIrreflexive(a.0);
    if Less(a.0, b.0) {
      LessAsymmetric(a.0, b.0);
    }
  }

  predicate KeyBefore(a: KeyEntry, b: KeyEntry) {
    Less(a.0, b.0)
  }

  lemma AscendAppend(f: seq<KeyEntry>, e: KeyEntry)
    requires EntriesAscend(f) && forall x :: x in f ==> EntryBefore(x, e)
    ensures EntriesAscend(f + [e])
  {
    hide EntryBefore;
    var g := f + [e];
    forall i, j | 0 <= i < j < |g|
      ensures EntryBefore(g[i], g[j])
    {
      if j == |f| {
        assert f[i] in f;
      }
    }
  }

  lemma BeforeLast(f: seq<KeyEntry>, x: KeyEntry)
    requires EntriesAscend(f) && x in f
    ensures x == f[|f| - 1] || EntryBefore(x, f[|f| - 1])
  {
    hide EntryBefore;
  }

  /** The stable sort by smallest key: an entry of a higher id goes behind those whose key is not larger. */
  lemma {:induction false} PlacedEntryAscends(f: seq<KeyEntry>, e: KeyEntry)
    requires EntriesAscend(f) && forall x :: x in f ==> x.1 < e.1
    ensures EntriesAscend(Placed(f, e, KeyBefore))
  {
    if f != [] {
      var front, last := f[..|f| - 1], f[|f| - 1];
      assert f == front + [last];
      assert last in f;
      LessTotal(e.0, last.0);
      if Less(e.0, last.0) {
        PlacedEntryAscends(front, e);
        PlacedMembers(front, e, KeyBefore);
        forall x | x in Placed(front, e, KeyBefore)
          ensures EntryBefore(x, last)
        {
          if x != e {
            FrontBeforeLast(f, x);
          }
        }
        AscendAppend(Placed(front, e, KeyBefore), last);
      } else {
        assert EntryBefore(last, e);
        forall x | x in f
          ensures EntryBefore(x, e)
        {
          BeforeLast(f, x);
          if x != last {
            EntryTransitive(x, last, e);
          }
        }
        AscendAppend(f, e);
      }
    }
  }

  lemma FrontBeforeLast(f: seq<KeyEntry>, x: KeyEntry)
    requires EntriesAscend(f) && f != [] && x in f[..|f| - 1]
    ensures EntryBefore(x, f[|f| - 1])
  {
    hide EntryBefore;
  }

  method BuildFilesByKey(meta: map<u64, Meta>) returns (f: seq<KeyEntry>)
    ensures IsFilesByKey(meta, f)
  {
    hide EntriesAscend, Placed, KeyBefore;
    var ids := IdsInOrder(meta.Keys);
    IdsAscend(meta.Keys);
    f := [];
    NothingAscends();
    for i := 0 to |ids|
      invariant EntriesAscend(f)
      invariant forall e :: e in f <==> Describes(meta, e) && e.1 in ids[..i]
    {
      assert ids[i] in ids;
      var e := (meta[ids[i]].minKey, ids[i]);
      forall x | x in f
        ensures x.1 < e.1
      {
        EarlierId(ids, i, x.1);
      }
      PlacedEntryAscends(f, e);
      PlacedMembers(f, e, KeyBefore);
      f := Placed(f, e, KeyBefore);
      assert ids[..i + 1] == ids[..i] + [ids[i]];
    }
    assert ids[..|ids|] == ids;
  }

  lemma NothingAscends()
    ensures EntriesAscend([])
  {
  }

  ghost predicate NumbersAscend(ids: seq<u64>) {
    forall i, j :: 0 <= i < j < |ids| ==> ids[i] < ids[j]
  }

  lemma IdsAscend(s: set<u64>)
    ensures NumbersAscend(IdsInOrder(s))
  {
    InOrderAscends(s);
  }

  lemma EarlierId(ids: seq<u64>, i: nat, x: u64)
    requires NumbersAscend(ids) && i < |ids| && x in ids[..i]
    ensures x < ids[i]
  {
  }

  lemma EntryBeforeIsOrder()
    ensures WeakOrder(EntryBefore)
  {
    hide EntryBefore;
    forall a: KeyEntry, b: KeyEntry | EntryBefore(a, b)
      ensures !EntryBefore(b, a)
    {
      EntryTotal(a, b);
    }
    forall a: KeyEntry, b: KeyEntry, c: KeyEntry | !EntryBefore(b, a) && !EntryBefore(c, b)
      ensures !EntryBefore(c, a)
    {
      EntryTotal(a, b);
      EntryTotal(b, c);
      EntryTotal(a, c);
      if EntryBefore(a, b) && EntryBefore(b, c) {
        EntryTransitive(a, b, c);
      }
    }
  }

  lemma AscendIsSorted(f: seq<KeyEntry>)
    requires EntriesAscend(f)
    ensures SortedBy(f, EntryBefore) && NoRepeats(f) && Comparable(f, EntryBefore)
  {
    hide EntryBefore;
    forall i, j | 0 <= i < j < |f|
      ensures !EntryBefore(f[j], f[i]) && f[i] != f[j]
    {
      EntryTotal(f[i], f[j]);
    }
    forall x, y | x in f && y in f && x != y
      ensures EntryBefore(x, y) || EntryBefore(y, x)
    {
      EntryTotal(x, y);
    }
  }

  /** The index is determined by the metadata. */
  lemma AscendingUnique(a: seq<KeyEntry>, b: seq<KeyEntry>)
    requires EntriesAscend(a) && EntriesAscend(b) && forall e :: e in a <==> e in b
    ensures a == b
  {
    hide EntryBefore, EntriesAscend;
    EntryBeforeIsOrder();
    AscendIsSorted(a);
    AscendIsSorted(b);
    SortedUnique(a, b, EntryBefore);
  }

  // ---- Levels by file ----

  type LevelEntry = (u64, u32)

  predicate IdBefore(a: LevelEntry, b: LevelEntry) {
    a.0 < b.0
  }

  /** One entry per file and level it is in, by file id. */
  ghost predicate IsFileLevel(levels: Levels, f: seq<LevelEntry>) {
    SortedBy(f, IdBefore) && NoRepeats(f) && forall e :: e in f <==> InLevel(levels, e.1, e.0)
  }

  method BuildFileLevel(levels: Levels) returns (f: seq<LevelEntry>)
    ensures IsFileLevel(levels, f)
  {
    hide Placed, SortedBy, NoRepeats;
    f := [];
    NoLevels();
    var ls := LevelsInOrder(levels.Keys);
    for i := 0 to |ls|
      invariant SortedBy(f, IdBefore) && NoRepeats(f)
      invariant forall e :: e in f <==> InLevel(levels, e.1, e.0) && e.1 in ls[..i]
    {
      assert ls[i] in ls;
      NewLevel(levels.Keys, i);
      f := AddLevel(levels, ls[i], ls[..i], f);
      assert ls[..i + 1] == ls[..i] + [ls[i]];
    }
    assert ls[..|ls|] == ls;
  }

  lemma NoLevels()
    ensures SortedBy<LevelEntry>([], IdBefore) && NoRepeats<LevelEntry>([])
  {
  }

  lemma NewLevel(s: set<u32>, i: nat)
    requires i < |LevelsInOrder(s)|
    ensures LevelsInOrder(s)[i] !in LevelsInOrder(s)[..i]
  {
    InOrderAscends(s);
  }

  method AddLevel(levels: Levels, l: u32, ghost done: seq<u32>, f0: seq<LevelEntry>) returns (f: seq<LevelEntry>)
    requires SortedBy(f0, IdBefore) && NoRepeats(f0) && l !in done
    requires forall e :: e in f0 <==> InLevel(levels, e.1, e.0) && e.1 in done
    ensures SortedBy(f, IdBefore) && NoRepeats(f)
    ensures forall e :: e in f <==> InLevel(levels, e.1, e.0) && (e.1 in done || e.1 == l)
  {
    hide Placed, SortedBy, NoRepeats;
    f := f0;
    var ids := IdsInOrder(FilesAt(levels, l));
    for i := 0 to |ids|
      invariant SortedBy(f, IdBefore) && NoRepeats(f)
      invariant forall e :: e in f <==> InLevel(levels, e.1, e.0) && (e.1 in done || (e.1 == l && e.0 in ids[..i]))
    {
      assert ids[i] in ids;
      NewId(FilesAt(levels, l), i);
      PlacedSorted(f, (ids[i], l), IdBefore);
      PlacedMembers(f, (ids[i], l), IdBefore);
      PlacedNoRepeats(f, (ids[i], l), IdBefore);
      f := Placed(f, (ids[i], l), IdBefore);
      assert ids[..i + 1] == ids[..i] + [ids[i]];
    }
    assert ids[..|ids|] == ids;
  }

  lemma NewId(s: set<u64>, i: nat)
    requires i < |IdsInOrder(s)|
    ensures IdsInOrder(s)[i] !in IdsInOrder(s)[..i]
  {
    InOrderAscends(s);
  }

  /** With no file in two levels, the index is determined by the levels. */
  lemma FileLevelUnique(levels: Levels, a: seq<LevelEntry>, b: seq<LevelEntry>)
    requires IsFileLevel(levels, a) && IsFileLevel(levels, b)
    requires forall id: u64, l: u32, l': u32 :: InLevel(levels, l, id) && InLevel(levels, l', id) ==> l == l'
    ensures a == b
  {
    hide InLevel;
    assert Comparable(a, IdBefore) by {
      forall x, y | x in a && y in a && x != y
        ensures IdBefore(x, y) || IdBefore(y, x)
      {
        assert InLevel(levels, x.1, x.0) && InLevel(levels, y.1, y.0);
      }
    }
    SortedUnique(a, b, IdBefore);
  }

  // ---- The version set ----

  /** Files whose key range may contain `k`; an empty largest key means unbounded. */
  predicate MayContain(m: Meta, k: Key) {
    LessEq(m.minKey, k) && (m.maxKey == [] || LessEq(k, m.maxKey))
  }

  /** Files listed from the largest smallest key down, the newest first among equals. */
  ghost predicate Backwards(meta: map<u64, Meta>, ids: seq<u64>) {
    && (forall i :: 0 <= i < |ids| ==> ids[i] in meta)
    && forall i, j :: 0 <= i < j < |ids| ==> EntryBefore((meta[ids[j]].minKey, ids[j]), (meta[ids[i]].minKey, ids[i]))
  }

  lemma BackwardsNext(meta: map<u64, Meta>, f: seq<KeyEntry>, i: nat, idx: nat, ids: seq<u64>)
    requires IsFilesByKey(meta, f) && i < idx <= |f| && Backwards(meta, ids)
    requires forall id :: id in ids ==> Listed(f[i + 1..idx], id)
    ensures Backwards(meta, ids + [f[i].1])
  {
    hide EntryBefore;
    assert f[i] in f;
    forall a | 0 <= a < |ids|
      ensures EntryBefore(f[i], (meta[ids[a]].minKey, ids[a]))
    {
      assert ids[a] in ids;
      var j :| 0 <= j < |f[i + 1..idx]| && f[i + 1..idx][j].1 == ids[a];
      assert f[i + 1 + j] in f;
      assert f[i + 1 + j] == (meta[ids[a]].minKey, ids[a]);
    }
  }

  lemma BackwardsOnce(meta: map<u64, Meta>, ids: seq<u64>)
    requires Backwards(meta, ids)
    ensures NoRepeats(ids)
  {
    hide EntryBefore;
    forall i, j | 0 <= i < j < |ids|
      ensures ids[i] != ids[j]
    {
      EntryTotal((meta[ids[j]].minKey, ids[j]), (meta[ids[i]].minKey, ids[i]));
    }
  }

  class VersionSet {
    var levels: Levels
    var meta: map<u64, Meta>
    var nextFileId: u64
    var dropped: set<Key>
    var filesByKey: seq<KeyEntry>
    var fileLevel: seq<LevelEntry>

    function Contents(): Members
      reads this
    {
      Members(levels, meta, nextFileId, dropped)
    }

    ghost predicate Indexed()
      reads this
    {
      IsFilesByKey(meta, filesByKey) && IsFileLevel(levels, fileLevel)
    }

    constructor ()
      ensures Contents() == EMPTY && Indexed()
    {
      levels, meta, nextFileId, dropped, filesByKey, fileLevel := map[], map[], 0, {}, [], [];
    }

    constructor Clone(from: VersionSet)
      ensures Contents() == from.Contents() && filesByKey == from.filesByKey && fileLevel == from.fileLevel
    {
      levels, meta, nextFileId, dropped := from.levels, from.meta, from.nextFileId, from.dropped;
      filesByKey, fileLevel := from.filesByKey, from.fileLevel;
    }

    method Apply(edit: Edit)
      modifies this
      ensures Contents() == ApplyEdit(old(Contents()), edit)
    {
      match edit
      case AddFile(id, level, m) =>
        levels := levels[level := FilesAt(levels, level) + {id}];
        meta := meta[id := m];
        nextFileId := Larger(nextFileId, Succ(id));
      case DeleteFile(id, level) =>
        if level in levels {
          levels := levels[level := levels[level] - {id}];
          if levels[level] == {} {
            levels := levels - {level};
          }
        }
        meta := meta - {id};
      case NextFileId(next) =>
        nextFileId := Larger(nextFileId, next);
      case DroppedPrefix(p) =>
        dropped := dropped + {p};
      case UndroppedPrefix(p) =>
        dropped := dropped - {p};
    }

    method RebuildIndexes()
      modifies this`filesByKey, this`fileLevel
      ensures Indexed() && Contents() == old(Contents())
    {
      filesByKey := BuildFilesByKey(meta);
      fileLevel := BuildFileLevel(levels);
    }

    /** A copy with the edits applied and the indexes rebuilt; this one is left alone. */
    method Applied(edits: seq<Edit>) returns (next: VersionSet)
      ensures fresh(next) && next.Indexed()
      ensures next.Contents() == ApplyAll(Contents(), edits)
    {
      hide ApplyEdit;
      next := new VersionSet.Clone(this);
      for i := 0 to |edits|
        invariant fresh(next) && next.Contents() == ApplyAll(Contents(), edits[..i])
      {
        assert edits[..i + 1][..i] == edits[..i];
        next.Apply(edits[i]);
      }
      assert edits[..|edits|] == edits;
      next.RebuildIndexes();
    }

    /** Exactly the files whose key range may contain `k`, each once, from the largest smallest key down. */
    method CandidateFiles(k: Key) returns (out: seq<u64>)
      requires Indexed()
      ensures forall id :: id in out <==> id in meta && MayContain(meta[id], k)
      ensures Backwards(meta, out) && NoRepeats(out)
    {
      hide EntryBefore;
      if filesByKey == [] {
        NoFiles(meta);
        return [];
      }
      var idx := PartitionPoint(filesByKey, k);
      out := [];
      var i := idx;
      while i > 0
        invariant 0 <= i <= idx
        invariant forall id :: id in out <==> Listed(filesByKey[i..idx], id) && id in meta && MayContain(meta[id], k)
        invariant Backwards(meta, out)
      {
        i := i - 1;
        var id := filesByKey[i].1;
        assert filesByKey[i] in filesByKey;
        ListedNext(meta, filesByKey, i, idx);
        BackwardsNext(meta, filesByKey, i, idx, out);
        if meta[id].maxKey == [] || LessEq(k, meta[id].maxKey) {
          out := out + [id];
        }
      }
      forall id
        ensures id in out <==> id in meta && MayContain(meta[id], k)
      {
        ListedIff(meta, filesByKey, k, idx, id);
      }
      BackwardsOnce(meta, out);
    }

    /** The level of a file, if it is in one. */
    method FileLevelFor(id: u64) returns (level: Option<u32>)
      requires Indexed()
      ensures level.Some? ==> InLevel(levels, level.value, id)
      ensures level.None? ==> !Holds(levels, id)
    {
      var lo, hi := 0, |fileLevel|;
      while lo < hi
        invariant 0 <= lo <= hi <= |fileLevel|
        invariant forall i :: 0 <= i < lo ==> fileLevel[i].0 < id
        invariant forall i :: hi <= i < |fileLevel| ==> id < fileLevel[i].0
      {
        var mid := (lo + hi) / 2;
        if fileLevel[mid].0 == id {
          assert fileLevel[mid] in fileLevel;
          return Some(fileLevel[mid].1);
        } else if fileLevel[mid].0 < id {
          lo := mid + 1;
        } else {
          hi := mid;
        }
      }
      forall l: u32
        ensures !InLevel(levels, l, id)
      {
        assert (id, l) !in fileLevel;
      }
      return None;
    }
  }

  /** How many entries have a smallest key not above `k`. */
  method PartitionPoint(f: seq<KeyEntry>, k: Key) returns (idx: nat)
    requires EntriesAscend(f)
    ensures idx <= |f|
    ensures forall i :: 0 <= i < |f| ==> (LessEq(f[i].0, k) <==> i < idx)
  {
    var lo, hi := 0, |f|;
    while lo < hi
      invariant 0 <= lo <= hi <= |f|
      invariant forall i :: 0 <= i < lo ==> LessEq(f[i].0, k)
      invariant forall i :: hi <= i < |f| ==> !LessEq(f[i].0, k)
    {
      var mid := (lo + hi) / 2;
      if LessEq(f[mid].0, k) {
        forall i | 0 <= i < mid
          ensures LessEq(f[i].0, k)
        {
          NotAbove(f[i], f[mid], k);
        }
        lo := mid + 1;
      } else {
        forall i | mid < i < |f|
          ensures !LessEq(f[i].0, k)
        {
          if LessEq(f[i].0, k) {
            NotAbove(f[mid], f[i], k);
          }
        }
        hi := mid;
      }
    }
    return lo;
  }

  lemma NotAbove(a: KeyEntry, b: KeyEntry, k: Key)
    requires EntryBefore(a, b) && LessEq(b.0, k)
    ensures LessEq(a.0, k)
  {
    if Less(a.0, b.0) && Less(b.0, k) {
      LessTransitive(a.0, b.0, k);
    }
  }

  lemma NoFiles(meta: map<u64, Meta>)
    requires IsFilesByKey(meta, [])
    ensures meta == map[]
  {
    forall id | id in meta ensures false {
      assert Describes(meta, (meta[id].minKey, id));
    }
  }

  predicate Listed(f: seq<KeyEntry>, id: u64) {
    exists i :: 0 <= i < |f| && f[i].1 == id
  }

  /** Going down one entry lists one more file, which was not listed yet. */
  lemma ListedNext(meta: map<u64, Meta>, f: seq<KeyEntry>, i: nat, idx: nat)
    requires IsFilesByKey(meta, f) && i < idx <= |f|
    ensures !Listed(f[i + 1..idx], f[i].1)
    ensures forall id: u64 :: Listed(f[i..idx], id) <==> id == f[i].1 || Listed(f[i + 1..idx], id)
  {
    hide EntryBefore;
    var rest := f[i + 1..idx];
    if Listed(rest, f[i].1) {
      var j :| 0 <= j < |rest| && rest[j].1 == f[i].1;
      assert f[i] in f && f[i + 1 + j] in f;
      assert Describes(meta, f[i]) && Describes(meta, f[i + 1 + j]);
      assert EntryBefore(f[i], f[i + 1 + j]);
      EntryTotal(f[i], f[i]);
    }
    assert f[i..idx] == [f[i]] + rest;
    forall id: u64
      ensures Listed(f[i..idx], id) <==> id == f[i].1 || Listed(rest, id)
    {
      if Listed(rest, id) {
        var j :| 0 <= j < |rest| && rest[j].1 == id;
        assert f[i..idx][j + 1].1 == id;
      }
      assert f[i..idx][0].1 == f[i].1;
      if Listed(f[i..idx], id) && id != f[i].1 {
        var j :| 0 <= j < |f[i..idx]| && f[i..idx][j].1 == id;
        assert rest[j - 1].1 == id;
      }
    }
  }

  lemma ListedIff(meta: map<u64, Meta>, f: seq<KeyEntry>, k: Key, idx: nat, id: u64)
    requires IsFilesByKey(meta, f) && idx <= |f|
    requires forall i :: 0 <= i < |f| ==> (LessEq(f[i].0, k) <==> i < idx)
    ensures Listed(f[0..idx], id) <==> id in meta && LessEq(meta[id].minKey, k)
  {
    if Listed(f[0..idx], id) {
      var i :| 0 <= i < idx && f[0..idx][i].1 == id;
      assert f[i] in f;
    }
    if id in meta && LessEq(meta[id].minKey, k) {
      assert Describes(meta, (meta[id].minKey, id));
      var i :| 0 <= i < |f| && f[i] == (meta[id].minKey, id);
      assert f[0..idx][i].1 == id;
    }
  }
}
