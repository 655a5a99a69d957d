/** The pruned point lookup: memtable, hot-key cache, then candidate files by key bounds, Bloom filter and key index. */
module Lookup {
  import opened Bytes
  import opened Sets
  import opened Version
  import opened Compaction
  import opened Memtable
  import opened Lsm
  import opened Reads
  import Manifest
  import opened VersionSets
  import opened KeyIndexes
  import Bloom

  /** The manifest describes the files. */
  ghost predicate Matches(files: Files, levels: Manifest.Levels, meta: map<u64, Manifest.Meta>) {
    && (forall id: FileId :: id in files <==> id <= U64_MAX && id in meta)
    && (forall id: u64 :: id in files && id in meta ==>
          meta[id].minKey == MinKey(files[id].rows) && meta[id].maxKey == MaxKey(files[id].rows))
    && (forall id :: id in files ==> files[id].level <= U32_MAX)
    && (forall id: u64, l: u32 :: Manifest.InLevel(levels, l, id) <==> id in files && files[id].level == l)
  }

  type Filters = map<FileId, Bloom.Filter>

  /** A filter says yes to every key of its file. */
  ghost predicate FiltersOk(files: Files, filters: Filters) {
    forall id :: id in filters && id in files ==>
      filters[id].Valid() && forall r :: r in files[id].rows ==> filters[id].MayContain(r.key)
  }

  type IndexMap = map<FileId, Index>

  /** An index is the index of its file. */
  ghost predicate IndexesOk(files: Files, indexes: IndexMap) {
    forall id :: id in indexes && id in files ==> Indexes(indexes[id], files[id].rows)
  }

  const HOT_KEY_CACHE_MAX: nat := 16_384

  /** What the engine keeps beside its files: filters, key indexes, and the file in which a key was last found. */
  datatype Caches = Caches(filters: Filters, indexes: IndexMap, hot: map<Key, FileId>)

  const NO_CACHES := Caches(map[], map[], map[])

  /** Filters and indexes belong to live files; entries of the hot-key cache may be stale. */
  ghost predicate CachesOk(files: Files, c: Caches) {
    && FiltersOk(files, c.filters) && IndexesOk(files, c.indexes)
    && c.filters.Keys <= files.Keys && c.indexes.Keys <= files.Keys
  }

  /** The hot-key cache with one more entry; a full one is emptied first. */
  function Heated(hot: map<Key, FileId>, k: Key, id: FileId): map<Key, FileId> {
    (if |hot| >= HOT_KEY_CACHE_MAX then map[] else hot)[k := id]
  }

  // ---- What one file answers ----

  ghost predicate Shows(rows: seq<Row>, k: Key, s: u64, t: u64) {
    exists r :: r in rows && r.key == k && r.version.VisibleAt(s) && r.version.beginTs == t
  }

  ghost predicate ShownBy(files: Files, id: FileId, k: Key, s: u64, t: u64) {
    id in files && Shows(files[id].rows, k, s, t)
  }

  ghost predicate NewestShown(rows: seq<Row>, k: Key, s: u64, v: VersionedValue) {
    && (exists r :: r in rows && r.key == k && r.version == v && v.VisibleAt(s))
    && forall t: u64 :: Shows(rows, k, s, t) ==> t <= v.beginTs
  }

  /**
   The version of `k` that the lookup gets from a file. A key index gives the version it lands on if
   that is visible at `s`, and otherwise nothing; the file itself gives its newest visible version.
   */
  ghost predicate Offers(rows: seq<Row>, byIndex: bool, k: Key, s: u64, v: VersionedValue) {
    if byIndex then Search(rows, k, 0, |rows|).Some? && rows[Search(rows, k, 0, |rows|).value].version == v && v.VisibleAt(s)
    else NewestShown(rows, k, s, v)
  }

  /** Whether a file above level 0 counts as having the key: by its index in any version, by itself in a visible one. */
  ghost predicate Marks(rows: seq<Row>, byIndex: bool, k: Key, s: u64) {
    if byIndex then Search(rows, k, 0, |rows|).Some? else exists t: u64 :: Shows(rows, k, s, t)
  }

  lemma OfferIsRow(rows: seq<Row>, byIndex: bool, k: Key, s: u64, v: VersionedValue)
    requires Offers(rows, byIndex, k, s, v)
    ensures v.VisibleAt(s) && Marks(rows, byIndex, k, s) && Shows(rows, k, s, v.beginTs)
    ensures exists r :: r in rows && r.key == k && r.version == v
  {
    hide Search;
    if byIndex {
      assert rows[Search(rows, k, 0, |rows|).value] in rows;
    }
    assert Shows(rows, k, s, v.beginTs);
  }

  /** Where `k` stands at positions `[a, b)` of a file, its index offers a version exactly if the row at the landing is visible. */
  lemma IndexOffersIff(rows: seq<Row>, k: Key, s: u64, a: nat, b: nat)
    requires StrictlySorted(rows) && Occupies(rows, k, a, b)
    ensures var v := rows[Landing(0, |rows|, a, b)].version;
            forall u :: Offers(rows, true, k, s, u) <==> u == v && v.VisibleAt(s)
  {
    hide StrictlySorted, Landing, Search;
    FileKeysSorted(rows);
    SearchLands(rows, k, 0, |rows|, a, b);
  }

  /** At most one row of `k`. */
  ghost predicate OnceHeld(rows: seq<Row>, k: Key) {
    forall i, j :: 0 <= i < |rows| && 0 <= j < |rows| && rows[i].key == k && rows[j].key == k ==> i == j
  }

  /** With at most one version of a key in a file, its index offers what the file shows. */
  lemma OnceOffers(rows: seq<Row>, k: Key, s: u64, t: u64) returns (v: VersionedValue)
    requires StrictlySorted(rows) && OnceHeld(rows, k) && Shows(rows, k, s, t)
    ensures Offers(rows, true, k, s, v) && v.beginTs == t
  {
    hide StrictlySorted, Search;
    FileKeysSorted(rows);
    SearchFinds(rows, k, 0, |rows|);
    var r :| r in rows && r.key == k && r.version.VisibleAt(s) && r.version.beginTs == t;
    var i :| 0 <= i < |rows| && rows[i] == r;
    v := r.version;
  }

  lemma {:induction false} NewestShownExists(rows: seq<Row>, k: Key, s: u64, t: u64) returns (v: VersionedValue)
    requires Shows(rows, k, s, t)
    ensures NewestShown(rows, k, s, v)
  {
    var front, last := rows[..|rows| - 1], rows[|rows| - 1];
    assert rows == front + [last];
    if u: u64 :| Shows(front, k, s, u) {
      v := NewestShownExists(front, k, s, u);
      if last.key == k && last.version.VisibleAt(s) && last.version.beginTs > v.beginTs {
        v := last.version;
      }
    } else {
      v := last.version;
    }
    assert forall t: u64 :: Shows(rows, k, s, t) ==>
      Shows(front, k, s, t) || (last.key == k && last.version.VisibleAt(s) && last.version.beginTs == t);
  }

  /** The newest version of `k` among `rows` that is visible at `s`. */
  method FileGet(rows: seq<Row>, k: Key, s: u64) returns (o: Option<VersionedValue>)
    ensures o.Some? ==> NewestShown(rows, k, s, o.value)
    ensures o.None? ==> forall t: u64 :: !Shows(rows, k, s, t)
  {
    o := None;
    for i := 0 to |rows|
      invariant o.Some? ==> exists r :: r in rows && r.key == k && r.version == o.value && o.value.VisibleAt(s)
      invariant forall r :: r in rows[..i] && r.key == k && r.version.VisibleAt(s) ==>
                              o.Some? && o.value.beginTs >= r.version.beginTs
    {
      var r := rows[i];
      assert r in rows && rows[..i + 1] == rows[..i] + [r];
      if r.key == k && r.version.VisibleAt(s) && (o.None? || r.version.beginTs > o.value.beginTs) {
        o := Some(r.version);
      }
    }
    assert rows[..|rows|] == rows;
  }

  /** Asks the key index of a file if there is one, and the file itself otherwise. */
  method Ask(rows: seq<Row>, idx: Option<Index>, k: Key, s: u64) returns (o: Option<VersionedValue>, found: bool)
    requires idx.Some? ==> Indexes(idx.value, rows)
    ensures o.Some? ==> Offers(rows, idx.Some?, k, s, o.value)
    ensures o.None? ==> forall v :: !Offers(rows, idx.Some?, k, s, v)
    ensures found <==> Marks(rows, idx.Some?, k, s)
  {
    hide Search, Indexes, Shows;
    if idx.Some? {
      o := KeyIndexes.Get(idx.value, rows, k);
      found := o.Some?;
      if found && !o.value.VisibleAt(s) {
        o := None;
      }
    } else {
      o := FileGet(rows, k, s);
      found := o.Some?;
      NoneShown(rows, k, s, o);
    }
  }

  lemma NoneShown(rows: seq<Row>, k: Key, s: u64, o: Option<VersionedValue>)
    requires o.None? ==> forall t: u64 :: !Shows(rows, k, s, t)
    requires o.Some? ==> NewestShown(rows, k, s, o.value)
    ensures o.None? ==> forall v :: !NewestShown(rows, k, s, v)
    ensures o.Some? ==> Shows(rows, k, s, o.value.beginTs)
  {
    if o.None? {
      forall v ensures !NewestShown(rows, k, s, v) {
        if NewestShown(rows, k, s, v) {
          assert Shows(rows, k, s, v.beginTs);
        }
      }
    }
  }

  lemma AbsentGivesNothing(rows: seq<Row>, byIndex: bool, k: Key, s: u64)
    requires forall r :: r in rows ==> r.key != k
    ensures !Marks(rows, byIndex, k, s) && forall v :: !Offers(rows, byIndex, k, s, v)
  {
    hide Search;
    assert forall i :: 0 <= i < |rows| ==> rows[i] in rows;
  }

  lemma MarkHolds(rows: seq<Row>, byIndex: bool, k: Key, s: u64) returns (r: Row)
    requires Marks(rows, byIndex, k, s)
    ensures r in rows && r.key == k
  {
    hide Search;
    if byIndex {
      r := rows[Search(rows, k, 0, |rows|).value];
    } else {
      var t: u64 :| Shows(rows, k, s, t);
      r :| r in rows && r.key == k && r.version.VisibleAt(s) && r.version.beginTs == t;
    }
  }

  // ---- Which files are read ----

  /** The order of candidates, last first. */
  predicate Earlier(files: Files, a: FileId, b: FileId) {
    && a in files && b in files
    && (Less(MinKey(files[a].rows), MinKey(files[b].rows)) || (MinKey(files[a].rows) == MinKey(files[b].rows) && a < b))
  }

  ghost predicate LeveledMark(files: Files, indexed: set<FileId>, id: FileId, k: Key, s: u64) {
    id in files && files[id].level > 0 && Marks(files[id].rows, id in indexed, k, s)
  }

  /** `id` is the file above level 0 that the early exit stops at. */
  ghost predicate Leads(files: Files, indexed: set<FileId>, id: FileId, k: Key, s: u64) {
    && LeveledMark(files, indexed, id, k, s)
    && forall b :: b != id && LeveledMark(files, indexed, b, k, s) ==> Earlier(files, b, id)
  }

  /** The early exit does not keep the lookup from reading file `id`. */
  ghost predicate Consulted(files: Files, indexed: set<FileId>, id: FileId, k: Key, s: u64) {
    id in files && (files[id].level == 0 || Leads(files, indexed, id, k, s))
  }

  /** `v` is what the lookup gets from file `id`. */
  ghost predicate Given(files: Files, indexed: set<FileId>, id: FileId, k: Key, s: u64, v: VersionedValue) {
    Consulted(files, indexed, id, k, s) && Offers(files[id].rows, id in indexed, k, s, v)
  }

  /** Whatever any file shows, some file that is read gives a version at least as new. */
  ghost predicate FilesSuffice(files: Files, indexed: set<FileId>, k: Key, s: u64) {
    forall a, t: u64 :: ShownBy(files, a, k, s, t) ==> exists b, u :: Given(files, indexed, b, k, s, u) && u.beginTs >= t
  }

  /** `v` is the newest of all versions that the lookup gets from files. */
  ghost predicate NewestGiven(files: Files, indexed: set<FileId>, k: Key, s: u64, v: Option<VersionedValue>) {
    if v.None? then forall id, u :: !Given(files, indexed, id, k, s, u)
    else
      && (exists id :: Given(files, indexed, id, k, s, v.value))
      && forall id, u :: Given(files, indexed, id, k, s, u) ==> u.beginTs <= v.value.beginTs
  }

  /** What file `id` gives is not newer than `newest`. */
  ghost predicate Seen(files: Files, indexed: set<FileId>, k: Key, s: u64, newest: Option<VersionedValue>, id: FileId) {
    forall u :: Given(files, indexed, id, k, s, u) ==> newest.Some? && newest.value.beginTs >= u.beginTs
  }

  lemma SeenLater(files: Files, indexed: set<FileId>, k: Key, s: u64, newest: Option<VersionedValue>,
                  newest': Option<VersionedValue>, id: FileId)
    requires Seen(files, indexed, k, s, newest, id)
    requires newest.Some? ==> newest'.Some? && newest'.value.beginTs >= newest.value.beginTs
    ensures Seen(files, indexed, k, s, newest', id)
  {
    hide Given;
  }

  lemma AbsentIsSeen(files: Files, indexed: set<FileId>, k: Key, s: u64, newest: Option<VersionedValue>, id: FileId)
    requires id in files ==> forall r :: r in files[id].rows ==> r.key != k
    ensures Seen(files, indexed, k, s, newest, id) && !LeveledMark(files, indexed, id, k, s)
  {
    hide Offers, Marks, Leads;
    if id in files {
      AbsentGivesNothing(files[id].rows, id in indexed, k, s);
    }
  }

  lemma EarlierTotal(files: Files, a: FileId, b: FileId)
    requires a in files && b in files && a != b
    ensures Earlier(files, a, b) || Earlier(files, b, a)
    ensures !(Earlier(files, a, b) && Earlier(files, b, a))
  {
    var x, y := MinKey(files[a].rows), MinKey(files[b].rows);
    LessTotal(x, y);
    LessIrreflexive(x);
    if Less(x, y) {
      LessAsymmetric(x, y);
    }
  }

  lemma BoundsPrune(files: Files, k: Key, id: FileId)
    requires id in files && StrictlySorted(files[id].rows)
    requires Less(k, MinKey(files[id].rows)) || Less(MaxKey(files[id].rows), k)
    ensures forall r :: r in files[id].rows ==> r.key != k
  {
    hide StrictlySorted, Less;
    forall r | r in files[id].rows
      ensures r.key != k
    {
      WithinBounds(files[id].rows, r);
      LessIrreflexive(k);
      if r.key == k {
        if Less(k, MinKey(files[id].rows)) {
          LessThenLessEq(k, MinKey(files[id].rows), k);
        } else {
          LessEqThenLess(k, MaxKey(files[id].rows), k);
        }
      }
    }
  }

  lemma ContainingIsCandidate(rows: seq<Row>, m: Manifest.Meta, r: Row)
    requires StrictlySorted(rows) && r in rows && m.minKey == MinKey(rows) && m.maxKey == MaxKey(rows)
    ensures MayContain(m, r.key)
  {
    WithinBounds(rows, r);
  }

  /** Whether the checks before the read of file `id` let it be skipped. */
  predicate Skippable(rows: seq<Row>, filters: Filters, id: FileId, k: Key) {
    || (MinKey(rows) != [] && MaxKey(rows) != [] && (Less(k, MinKey(rows)) || Less(MaxKey(rows), k)))
    || (id in filters && filters[id].Valid() && !filters[id].MayContain(k))
  }

  lemma SkippedShowsNothing(files: Files, filters: Filters, k: Key, id: FileId)
    requires id in files && StrictlySorted(files[id].rows) && FiltersOk(files, filters)
    requires Skippable(files[id].rows, filters, id, k)
    ensures forall r :: r in files[id].rows ==> r.key != k
  {
    hide StrictlySorted, Bloom.Filter.MayContain, Less;
    if id in filters && !filters[id].MayContain(k) {
    } else {
      BoundsPrune(files, k, id);
    }
  }

  function IndexOf(indexes: IndexMap, id: FileId): Option<Index> {
    if id in indexes then Some(indexes[id]) else None
  }

  /** One candidate file; `inLeveled` says whether one above level 0 has marked the key before. */
  method Probe(files: Files, c: Caches, k: Key, s: u64, id: FileId, level: nat, newest: Option<VersionedValue>, inLeveled: bool)
    returns (newest': Option<VersionedValue>, inLeveled': bool, heated: bool)
    requires id in files && level == files[id].level && StrictlySorted(files[id].rows) && CachesOk(files, c)
    requires LeveledMark(files, c.indexes.Keys, id, k, s) ==> (Leads(files, c.indexes.Keys, id, k, s) <==> !inLeveled)
    ensures Seen(files, c.indexes.Keys, k, s, newest', id)
    ensures newest.Some? ==> newest'.Some? && newest'.value.beginTs >= newest.value.beginTs
    ensures newest' != newest ==> newest'.Some? && Given(files, c.indexes.Keys, id, k, s, newest'.value)
    ensures inLeveled' <==> inLeveled || LeveledMark(files, c.indexes.Keys, id, k, s)
    ensures heated <==> newest' != newest && id in c.indexes
  {
    hide FiltersOk, StrictlySorted, Skippable, Seen, Leads, Marks, Offers;
    newest', inLeveled', heated := newest, inLeveled, false;
    if inLeveled && level > 0 {
      PassedOver(files, c.indexes.Keys, k, s, newest, id);
      return;
    }
    if Skippable(files[id].rows, c.filters, id, k) {
      SkippedShowsNothing(files, c.filters, k, id);
      AbsentIsSeen(files, c.indexes.Keys, k, s, newest, id);
      return;
    }
    var o, found := Ask(files[id].rows, IndexOf(c.indexes, id), k, s);
    if o.Some? {
      OfferIsRow(files[id].rows, id in c.indexes, k, s, o.value);
      if newest.None? || o.value.beginTs > newest.value.beginTs {
        newest', heated := o, id in c.indexes;
      }
    }
    if found && level > 0 {
      inLeveled' := true;
    }
    AnswerSeen(files, c.indexes.Keys, k, s, id, o, newest');
  }

  lemma PassedOver(files: Files, indexed: set<FileId>, k: Key, s: u64, newest: Option<VersionedValue>, id: FileId)
    requires id in files && files[id].level > 0 && (LeveledMark(files, indexed, id, k, s) ==> !Leads(files, indexed, id, k, s))
    ensures Seen(files, indexed, k, s, newest, id)
  {
    hide Offers, Marks;
  }

  lemma AnswerSeen(files: Files, indexed: set<FileId>, k: Key, s: u64, id: FileId, o: Option<VersionedValue>,
                   newest: Option<VersionedValue>)
    requires id in files && (o.Some? ==> Offers(files[id].rows, id in indexed, k, s, o.value))
    requires o.None? ==> forall v :: !Offers(files[id].rows, id in indexed, k, s, v)
    requires o.Some? ==> newest.Some? && newest.value.beginTs >= o.value.beginTs
    ensures Seen(files, indexed, k, s, newest, id)
  {
    hide Leads;
    forall u | Given(files, indexed, id, k, s, u)
      ensures newest.Some? && newest.value.beginTs >= u.beginTs
    {
      OneOffer(files[id].rows, id in indexed, k, s, o.value, u);
    }
  }

  lemma OneOffer(rows: seq<Row>, byIndex: bool, k: Key, s: u64, u: VersionedValue, v: VersionedValue)
    requires Offers(rows, byIndex, k, s, u) && Offers(rows, byIndex, k, s, v)
    ensures u.beginTs == v.beginTs
  {
    hide Search;
    if !byIndex {
      assert Shows(rows, k, s, u.beginTs) && Shows(rows, k, s, v.beginTs);
    }
  }

  // ---- The lookup ----

  /** `v` is the newest committed version of `k` at or below `s`, if there is one. */
  ghost predicate FindIs(hist: Versions, k: Key, s: u64, v: Option<VersionedValue>) {
    if v.None? then forall t: u64 :: (k, t) in hist ==> t > s
    else NewestVersion(hist, k, s, v.value.beginTs) && hist[(k, v.value.beginTs)] == v.value.value
  }

  lemma FindIsRead(hist: Versions, k: Key, s: u64, v: Option<VersionedValue>)
    requires FindIs(hist, k, s, v)
    ensures ReadIs(hist, k, s, if v.Some? then v.value.value else None)
  {
  }

  /** What the hot-key cache gives: the version on which the index of the cached file lands, if visible. */
  function HotOffer(files: Files, c: Caches, k: Key, s: u64): Option<VersionedValue> {
    if k !in c.hot || c.hot[k] !in c.indexes || c.hot[k] !in files then None
    else
      var rows := files[c.hot[k]].rows;
      var i := Search(rows, k, 0, |rows|);
      if i.Some? && rows[i.value].version.VisibleAt(s) then Some(rows[i.value].version) else None
  }

  /** No file shows anything newer than `v`. */
  ghost predicate NoneNewer(files: Files, k: Key, s: u64, v: VersionedValue) {
    forall a, t: u64 :: ShownBy(files, a, k, s, t) ==> t <= v.beginTs
  }

  /** The version that the lookup finds. */
  ghost predicate Finds(mem: Entries, files: Files, c: Caches, k: Key, s: u64, v: Option<VersionedValue>) {
    var first, hot := FirstVisible(ChainOf(mem, k), s), HotOffer(files, c, k, s);
    if first.Some? then v == first
    else if hot.Some? then v == hot
    else NewestGiven(files, c.indexes.Keys, k, s, v)
  }

  /** When the lookup finds the newest committed version: the memtable shows one, or the cached file has
      the newest, or no file is cached and the files that are read suffice. */
  ghost predicate Exact(mem: Entries, files: Files, c: Caches, k: Key, s: u64) {
    var hot := HotOffer(files, c, k, s);
    || FirstVisible(ChainOf(mem, k), s).Some?
    || if hot.Some? then NoneNewer(files, k, s, hot.value) else FilesSuffice(files, c.indexes.Keys, k, s)
  }

  /** A lookup of `k` at `s` that gets past memory and the hot-key cache may leave `id` in that cache. */
  ghost predicate Heats(mem: Entries, files: Files, c: Caches, k: Key, s: u64, id: FileId) {
    && FirstVisible(ChainOf(mem, k), s).None? && HotOffer(files, c, k, s).None?
    && id in c.indexes && exists v :: Given(files, c.indexes.Keys, id, k, s, v)
  }

  /**
   The version the pruned lookup finds, and the file it leaves in the hot-key cache. It is the newest
   committed one exactly in the states that `Exact` describes.
   */
  method Find(mem: MemTable, files: Files, ghost w: World, vs: VersionSet, c: Caches, k: Key, s: u64)
    returns (v: Option<VersionedValue>, heated: Option<FileId>)
    requires Inv(w) && mem.entries == w.st.mem && files == w.st.files && w.floor <= s < OPEN_ENDED_TS
    requires vs.Indexed() && Matches(files, vs.levels, vs.meta) && CachesOk(files, c)
    ensures Finds(mem.entries, files, c, k, s, v)
    ensures FindIs(w.hist, k, s, v) <==> Exact(mem.entries, files, c, k, s)
    ensures heated.Some? ==> Heats(mem.entries, files, c, k, s, heated.value)
  {
    hide Inv, Matches, FiltersOk, FindIs, FirstVisible, Exact, HotOffer, NewestGiven, Given;
    heated := None;
    v := mem.Get(k, s);
    if v.Some? {
      FoundIff(w, c, k, s, v);
      return;
    }
    v := AskHot(files, c, k, s);
    if v.Some? {
      FoundIff(w, c, k, s, v);
      return;
    }
    v, heated := ReadFiles(files, w, vs, c, k, s);
    FoundIff(w, c, k, s, v);
  }

  method AskHot(files: Files, c: Caches, k: Key, s: u64) returns (v: Option<VersionedValue>)
    requires CachesOk(files, c)
    ensures v == HotOffer(files, c, k, s)
  {
    hide FiltersOk, Search;
    if k in c.hot && c.hot[k] in c.indexes {
      v := KeyIndexes.Get(c.indexes[c.hot[k]], files[c.hot[k]].rows, k);
      if v.Some? && v.value.VisibleAt(s) {
        return;
      }
    }
    return None;
  }

  /** The candidate files in turn. */
  method ReadFiles(files: Files, ghost w: World, vs: VersionSet, c: Caches, k: Key, s: u64)
    returns (v: Option<VersionedValue>, heated: Option<FileId>)
    requires Inv(w) && files == w.st.files
    requires vs.Indexed() && Matches(files, vs.levels, vs.meta) && CachesOk(files, c)
    ensures NewestGiven(files, c.indexes.Keys, k, s, v)
    ensures heated.Some? ==> heated.value in c.indexes && exists u :: Given(files, c.indexes.Keys, heated.value, k, s, u)
  {
    hide Inv, Matches, CachesOk, Seen, Given, Backwards, Leads, LeveledMark, MayContain;
    ghost var indexed := c.indexes.Keys;
    var candidates := vs.CandidateFiles(k);
    var inLeveled := false;
    v, heated := None, None;
    for i := 0 to |candidates|
      invariant inLeveled <==> MarkAmong(files, indexed, candidates[..i], k, s)
      invariant v.Some? ==> exists id :: Given(files, indexed, id, k, s, v.value)
      invariant heated.Some? ==> heated.value in c.indexes && exists u :: Given(files, indexed, heated.value, k, s, u)
      invariant forall j :: 0 <= j < i ==> Seen(files, indexed, k, s, v, candidates[j])
    {
      var id := candidates[i];
      assert id in candidates;
      var level := vs.FileLevelFor(id);
      CandidateIsFile(w, vs.levels, vs.meta, id, level);
      FirstMarkLeads(w, vs.levels, vs.meta, candidates, indexed, k, s, i);
      var v', inLeveled', heats := Probe(files, c, k, s, id, LevelOr0(level), v, inLeveled);
      forall j | 0 <= j < i
        ensures Seen(files, indexed, k, s, v', candidates[j])
      {
        SeenLater(files, indexed, k, s, v, v', candidates[j]);
      }
      MarkNext(files, indexed, candidates, k, s, i);
      v, inLeveled, heated := v', inLeveled', if heats then Some(id) else heated;
    }
    forall id: FileId
      ensures Seen(files, indexed, k, s, v, id)
    {
      if id <= U64_MAX && id in candidates {
        var j :| 0 <= j < |candidates| && candidates[j] == id;
      } else {
        NotCandidate(w, vs.levels, vs.meta, candidates, k, id);
        AbsentIsSeen(files, indexed, k, s, v, id);
      }
    }
    AllSeen(files, indexed, k, s, v);
  }

  lemma AllSeen(files: Files, indexed: set<FileId>, k: Key, s: u64, v: Option<VersionedValue>)
    requires forall id: FileId :: Seen(files, indexed, k, s, v, id)
    requires v.Some? ==> exists id :: Given(files, indexed, id, k, s, v.value)
    ensures NewestGiven(files, indexed, k, s, v)
  {
    hide Given;
    forall id: FileId, u | Given(files, indexed, id, k, s, u)
      ensures v.Some? && u.beginTs <= v.value.beginTs
    {
      assert Seen(files, indexed, k, s, v, id);
    }
  }

  /** The value the pruned lookup returns. */
  method Get(mem: MemTable, files: Files, ghost w: World, vs: VersionSet, c: Caches, k: Key, s: u64)
    returns (o: Option<Value>, heated: Option<FileId>)
    requires Inv(w) && mem.entries == w.st.mem && files == w.st.files && w.floor <= s < OPEN_ENDED_TS
    requires vs.Indexed() && Matches(files, vs.levels, vs.meta) && CachesOk(files, c)
    ensures exists v :: Finds(mem.entries, files, c, k, s, v) && o == if v.Some? then v.value.value else None
    ensures Exact(mem.entries, files, c, k, s) ==> ReadIs(w.hist, k, s, o)
    ensures heated.Some? ==> Heats(mem.entries, files, c, k, s, heated.value)
  {
    hide Inv, Matches, CachesOk, FindIs, Finds, Exact, ReadIs, Heats;
    var v;
    v, heated := Find(mem, files, w, vs, c, k, s);
    if Exact(mem.entries, files, c, k, s) {
      FindIsRead(w.hist, k, s, v);
    }
    o := if v.Some? then v.value.value else None;
  }

  /** One of the files is above level 0 and marks the key. */
  ghost predicate MarkAmong(files: Files, indexed: set<FileId>, ids: seq<u64>, k: Key, s: u64) {
    exists j :: 0 <= j < |ids| && LeveledMark(files, indexed, ids[j], k, s)
  }

  lemma MarkNext(files: Files, indexed: set<FileId>, ids: seq<u64>, k: Key, s: u64, i: nat)
    requires i < |ids|
    ensures MarkAmong(files, indexed, ids[..i + 1], k, s) <==>
            MarkAmong(files, indexed, ids[..i], k, s) || LeveledMark(files, indexed, ids[i], k, s)
  {
    hide LeveledMark;
    if MarkAmong(files, indexed, ids[..i], k, s) {
      var j :| 0 <= j < i && LeveledMark(files, indexed, ids[..i][j], k, s);
      assert ids[..i + 1][j] == ids[..i][j];
    }
    assert ids[..i + 1][i] == ids[i];
    if MarkAmong(files, indexed, ids[..i + 1], k, s) {
      var j :| 0 <= j < i + 1 && LeveledMark(files, indexed, ids[..i + 1][j], k, s);
      if j < i {
        assert ids[..i][j] == ids[..i + 1][j];
      }
    }
  }

  /** A file with the key is a candidate. */
  lemma HolderIsCandidate(w: World, levels: Manifest.Levels, meta: map<u64, Manifest.Meta>, candidates: seq<u64>, id: FileId, r: Row)
    requires Inv(w) && Matches(w.st.files, levels, meta) && id in w.st.files && r in w.st.files[id].rows
    requires forall id :: id in candidates <==> id in meta && MayContain(meta[id], r.key)
    ensures id in candidates
  {
    hide PinsOk, LogOk, DiskOk, HistOk, MarksOk, MemOk, MayContain;
    assert FileOk(w.st.files[id].rows, w.hist, w.flushed);
    ContainingIsCandidate(w.st.files[id].rows, meta[id], r);
  }

  lemma CandidateOrder(files: Files, levels: Manifest.Levels, meta: map<u64, Manifest.Meta>, candidates: seq<u64>, i: nat, j: nat)
    requires Matches(files, levels, meta) && Backwards(meta, candidates) && i < j < |candidates|
    ensures candidates[i] in files && candidates[j] in files && Earlier(files, candidates[j], candidates[i])
  {
    hide Manifest.InLevel, Less;
  }

  /** Among files above level 0 that mark the key, exactly the first candidate leads. */
  lemma FirstMarkLeads(w: World, levels: Manifest.Levels, meta: map<u64, Manifest.Meta>, candidates: seq<u64>,
                       indexed: set<FileId>, k: Key, s: u64, i: nat)
    requires Inv(w) && Matches(w.st.files, levels, meta) && Backwards(meta, candidates) && i < |candidates|
    requires forall id :: id in candidates <==> id in meta && MayContain(meta[id], k)
    ensures LeveledMark(w.st.files, indexed, candidates[i], k, s) ==>
              (Leads(w.st.files, indexed, candidates[i], k, s) <==> !MarkAmong(w.st.files, indexed, candidates[..i], k, s))
  {
    hide Inv, Matches, Backwards, MayContain, Marks, Earlier;
    var files, id := w.st.files, candidates[i];
    if LeveledMark(files, indexed, id, k, s) {
      if MarkAmong(files, indexed, candidates[..i], k, s) {
        var j :| 0 <= j < i && LeveledMark(files, indexed, candidates[..i][j], k, s);
        CandidateOrder(files, levels, meta, candidates, j, i);
        SelfNotEarlier(files, id);
        EarlierTotalOr(files, candidates[j], id);
      } else {
        forall b | b != id && LeveledMark(files, indexed, b, k, s)
          ensures Earlier(files, b, id)
        {
          var r := MarkHolds(files[b].rows, b in indexed, k, s);
          HolderIsCandidate(w, levels, meta, candidates, b, r);
          var j :| 0 <= j < |candidates| && candidates[j] == b;
          assert forall x :: 0 <= x < i ==> candidates[..i][x] == candidates[x];
          CandidateOrder(files, levels, meta, candidates, i, j);
        }
      }
    }
  }

  lemma SelfNotEarlier(files: Files, id: FileId)
    requires id in files
    ensures !Earlier(files, id, id)
  {
    LessIrreflexive(MinKey(files[id].rows));
  }

  lemma EarlierTotalOr(files: Files, a: FileId, b: FileId)
    requires a in files && b in files
    ensures a == b || !(Earlier(files, a, b) && Earlier(files, b, a))
  {
    hide Earlier;
    if a != b {
      EarlierTotal(files, a, b);
    }
  }

  lemma CandidateIsFile(w: World, levels: Manifest.Levels, meta: map<u64, Manifest.Meta>, id: u64, level: Option<u32>)
    requires Inv(w) && Matches(w.st.files, levels, meta) && id in meta
    requires level.Some? ==> Manifest.InLevel(levels, level.value, id)
    requires level.None? ==> !Manifest.Holds(levels, id)
    ensures id in w.st.files && StrictlySorted(w.st.files[id].rows)
    ensures LevelOr0(level) == w.st.files[id].level
  {
    hide PinsOk, LogOk, DiskOk, HistOk, MarksOk, MemOk;
    assert FileOk(w.st.files[id].rows, w.hist, w.flushed);
    assert Manifest.InLevel(levels, w.st.files[id].level, id);
  }

  function LevelOr0(level: Option<u32>): nat {
    if level.Some? then level.value else 0
  }

  lemma MemHitIsFind(w: World, k: Key, s: u64, v: VersionedValue)
    requires Inv(w) && w.floor <= s < OPEN_ENDED_TS && FirstVisible(ChainOf(w.st.mem, k), s) == Some(v)
    ensures FindIs(w.hist, k, s, Some(v))
  {
    hide MemOk, FilesOk, PinsOk, LogOk, DiskOk, HistOk, MarksOk, FirstVisible;
    MemCandidate(w.st.mem, w.hist, w.flushed, w.floor, k, s, v);
    var t := NewestExists(w.hist, k, s, v.beginTs);
    NewestIsStored(w, k, s, t);
  }

  lemma NotCandidate(w: World, levels: Manifest.Levels, meta: map<u64, Manifest.Meta>, candidates: seq<u64>, k: Key, id: FileId)
    requires Inv(w) && Matches(w.st.files, levels, meta) && id !in candidates
    requires forall id :: id in candidates <==> id in meta && MayContain(meta[id], k)
    ensures id in w.st.files ==> forall r :: r in w.st.files[id].rows ==> r.key != k
  {
    hide Inv, Matches, MayContain;
    if id in w.st.files {
      forall r | r in w.st.files[id].rows
        ensures r.key != k
      {
        if r.key == k {
          HolderIsCandidate(w, levels, meta, candidates, id, r);
        }
      }
    }
  }

  lemma FileShowsCommitted(w: World, k: Key, s: u64, id: FileId, t: u64)
    requires Inv(w) && ShownBy(w.st.files, id, k, s, t)
    ensures (k, t) in w.hist && t <= s
  {
    hide PinsOk, LogOk, DiskOk, HistOk, MarksOk, MemOk, FilesOk;
    var r :| r in w.st.files[id].rows && r.key == k && r.version.VisibleAt(s) && r.version.beginTs == t;
    FileCandidate(w.st.files, w.hist, w.flushed, w.floor, id, r);
  }

  /** With no visible version in memory, the newest committed version is shown by a file. */
  lemma NewestInFile(w: World, k: Key, s: u64, t: u64) returns (id: FileId)
    requires Inv(w) && w.floor <= s < OPEN_ENDED_TS && FirstVisible(ChainOf(w.st.mem, k), s).None? && NewestVersion(w.hist, k, s, t)
    ensures ShownBy(w.st.files, id, k, s, t)
  {
    hide Inv, FirstVisible;
    NewestIsStored(w, k, s, t);
    var b, r :| b in w.st.files && r in w.st.files[b].rows && r.key == k && r.version.beginTs == t && r.version.VisibleAt(s);
    id := b;
  }

  /** What a file offers is a committed version. */
  lemma OfferCommitted(w: World, id: FileId, byIndex: bool, k: Key, s: u64, v: VersionedValue)
    requires Inv(w) && id in w.st.files && Offers(w.st.files[id].rows, byIndex, k, s, v)
    ensures ShownBy(w.st.files, id, k, s, v.beginTs)
    ensures (k, v.beginTs) in w.hist && w.hist[(k, v.beginTs)] == v.value && v.beginTs <= s
  {
    hide PinsOk, LogOk, DiskOk, HistOk, MarksOk, MemOk, FilesOk, Offers, Marks;
    OfferIsRow(w.st.files[id].rows, byIndex, k, s, v);
    var r :| r in w.st.files[id].rows && r.key == k && r.version == v;
    FileCandidate(w.st.files, w.hist, w.flushed, w.floor, id, r);
  }

  /** The lookup finds the newest committed version exactly in the states that `Exact` describes. */
  lemma FoundIff(w: World, c: Caches, k: Key, s: u64, v: Option<VersionedValue>)
    requires Inv(w) && w.floor <= s < OPEN_ENDED_TS && Finds(w.st.mem, w.st.files, c, k, s, v)
    ensures FindIs(w.hist, k, s, v) <==> Exact(w.st.mem, w.st.files, c, k, s)
  {
    hide Inv, FirstVisible, FindIs, NewestGiven, FilesSuffice, NoneNewer, HotOffer;
    var first, hot := FirstVisible(ChainOf(w.st.mem, k), s), HotOffer(w.st.files, c, k, s);
    if first.Some? {
      MemHitIsFind(w, k, s, first.value);
    } else if hot.Some? {
      HotIff(w, c, k, s, hot.value);
    } else {
      GivenIff(w, c.indexes.Keys, k, s, v);
    }
  }

  lemma HotIff(w: World, c: Caches, k: Key, s: u64, v: VersionedValue)
    requires Inv(w) && w.floor <= s < OPEN_ENDED_TS && FirstVisible(ChainOf(w.st.mem, k), s).None?
    requires HotOffer(w.st.files, c, k, s) == Some(v)
    ensures FindIs(w.hist, k, s, Some(v)) <==> NoneNewer(w.st.files, k, s, v)
  {
    hide Inv, FirstVisible, Search, Shows;
    OfferCommitted(w, c.hot[k], true, k, s, v);
    if NoneNewer(w.st.files, k, s, v) {
      var t := NewestExists(w.hist, k, s, v.beginTs);
      var id := NewestInFile(w, k, s, t);
    }
    if FindIs(w.hist, k, s, Some(v)) {
      forall a, t: u64 | ShownBy(w.st.files, a, k, s, t)
        ensures t <= v.beginTs
      {
        FileShowsCommitted(w, k, s, a, t);
      }
    }
  }

  lemma GivenIff(w: World, indexed: set<FileId>, k: Key, s: u64, v: Option<VersionedValue>)
    requires Inv(w) && w.floor <= s < OPEN_ENDED_TS && FirstVisible(ChainOf(w.st.mem, k), s).None?
    requires NewestGiven(w.st.files, indexed, k, s, v)
    ensures FindIs(w.hist, k, s, v) <==> FilesSuffice(w.st.files, indexed, k, s)
  {
    hide Inv, FirstVisible, Offers, Leads, FindIs, FilesSuffice;
    if v.Some? {
      var id :| Given(w.st.files, indexed, id, k, s, v.value);
      OfferCommitted(w, id, id in indexed, k, s, v.value);
    }
    if FilesSuffice(w.st.files, indexed, k, s) {
      SufficientFinds(w, indexed, k, s, v);
    }
    if FindIs(w.hist, k, s, v) {
      FoundSuffices(w, indexed, k, s, v);
    }
  }

  lemma SufficientFinds(w: World, indexed: set<FileId>, k: Key, s: u64, v: Option<VersionedValue>)
    requires Inv(w) && w.floor <= s < OPEN_ENDED_TS && FirstVisible(ChainOf(w.st.mem, k), s).None?
    requires v.Some? ==> (k, v.value.beginTs) in w.hist && w.hist[(k, v.value.beginTs)] == v.value.value && v.value.beginTs <= s
    requires NewestGiven(w.st.files, indexed, k, s, v) && FilesSuffice(w.st.files, indexed, k, s)
    ensures FindIs(w.hist, k, s, v)
  {
    hide Inv, FirstVisible, Given, ShownBy;
    if t0: u64 :| (k, t0) in w.hist && t0 <= s {
      var t := NewestExists(w.hist, k, s, t0);
      var id := NewestInFile(w, k, s, t);
      var b, u :| Given(w.st.files, indexed, b, k, s, u) && u.beginTs >= t;
    }
  }

  lemma FoundSuffices(w: World, indexed: set<FileId>, k: Key, s: u64, v: Option<VersionedValue>)
    requires Inv(w) && FindIs(w.hist, k, s, v) && NewestGiven(w.st.files, indexed, k, s, v)
    ensures FilesSuffice(w.st.files, indexed, k, s)
  {
    hide Inv, Given, ShownBy;
    forall a, t: u64 | ShownBy(w.st.files, a, k, s, t)
      ensures exists b, u :: Given(w.st.files, indexed, b, k, s, u) && u.beginTs >= t
    {
      FileShowsCommitted(w, k, s, a, t);
      var b :| Given(w.st.files, indexed, b, k, s, v.value);
    }
  }

  // ---- Where the lookup is exact ----

  ghost predicate HoldsKey(files: Files, id: FileId, k: Key) {
    id in files && exists r :: r in files[id].rows && r.key == k
  }

  /** At most one file above level 0 holds `k`. */
  ghost predicate OneLeveledHolds(files: Files, k: Key) {
    forall a, b :: HoldsKey(files, a, k) && HoldsKey(files, b, k) && files[a].level > 0 && files[b].level > 0 ==> a == b
  }

  /** What the files show is offered, by index or by the file. */
  ghost predicate AnswersSuffice(files: Files, indexed: set<FileId>, k: Key, s: u64) {
    forall a, t: u64 :: ShownBy(files, a, k, s, t) ==>
      exists b, u :: b in files && Offers(files[b].rows, b in indexed, k, s, u) && u.beginTs >= t
  }

  /** With at most one file above level 0 that holds the key, the early exit plays no part. */
  lemma OneLeveledIff(files: Files, indexed: set<FileId>, k: Key, s: u64)
    requires OneLeveledHolds(files, k)
    ensures FilesSuffice(files, indexed, k, s) <==> AnswersSuffice(files, indexed, k, s)
  {
    hide Offers, Marks, ShownBy, OneLeveledHolds;
    forall b, u
      ensures Given(files, indexed, b, k, s, u) <==> b in files && Offers(files[b].rows, b in indexed, k, s, u)
    {
      if b in files && Offers(files[b].rows, b in indexed, k, s, u) && files[b].level > 0 {
        OfferIsRow(files[b].rows, b in indexed, k, s, u);
        OnlyMarkLeads(files, indexed, b, k, s);
      }
    }
  }

  lemma OnlyMarkLeads(files: Files, indexed: set<FileId>, id: FileId, k: Key, s: u64)
    requires OneLeveledHolds(files, k) && LeveledMark(files, indexed, id, k, s)
    ensures Leads(files, indexed, id, k, s)
  {
    hide Marks, Earlier;
    var r := MarkHolds(files[id].rows, id in indexed, k, s);
    forall b | LeveledMark(files, indexed, b, k, s)
      ensures b == id
    {
      var x := MarkHolds(files[b].rows, b in indexed, k, s);
    }
  }

  /** Where `k` stands in a file, the search of its index lands on a row that is visible at `s`. */
  ghost predicate LandsVisible(rows: seq<Row>, k: Key, s: u64) {
    forall a, b :: Occupies(rows, k, a, b) ==> rows[Landing(0, |rows|, a, b)].version.VisibleAt(s)
  }

  /** No file shows a version newer than `t`, which file `id` shows. */
  ghost predicate NewestFile(files: Files, k: Key, s: u64, id: FileId, t: u64) {
    ShownBy(files, id, k, s, t) && forall a, u: u64 :: ShownBy(files, a, k, s, u) ==> u <= t
  }

  /** The newest version that files show is in a file without index, or on the landing of an indexed one. */
  ghost predicate NewestReached(files: Files, indexed: set<FileId>, k: Key, s: u64) {
    forall a, t: u64 :: NewestFile(files, k, s, a, t) ==>
      exists b :: ShownBy(files, b, k, s, t) && (b in indexed ==> LandsVisible(files[b].rows, k, s))
  }

  /** The rows of a key are contiguous. */
  lemma OccupiedExists(rows: seq<Row>, k: Key, i: nat) returns (a: nat, b: nat)
    requires KeysSorted(rows) && i < |rows| && rows[i].key == k
    ensures Occupies(rows, k, a, b)
  {
    hide Less;
    var at: set<int> := set j | 0 <= j < |rows| && rows[j].key == k;
    assert i in at;
    var lo := SmallestElement(at);
    var hi := LargestElement(at);
    a, b := lo, hi + 1;
    forall j | 0 <= j < |rows|
      ensures rows[j].key == k <==> a <= j < b
    {
      if rows[j].key == k {
        assert j in at;
      } else if a <= j < b {
        OrderAround(rows, k, j, a);
      }
    }
  }

  /** A visible version in an indexed file is offered exactly if the search lands on a visible row. */
  lemma OfferedIffLands(rows: seq<Row>, k: Key, s: u64, t: u64)
    requires StrictlySorted(rows) && Shows(rows, k, s, t)
    ensures (exists v :: Offers(rows, true, k, s, v)) <==> LandsVisible(rows, k, s)
  {
    hide StrictlySorted, Landing, Search;
    FileKeysSorted(rows);
    var r :| r in rows && r.key == k && r.version.VisibleAt(s) && r.version.beginTs == t;
    var i :| 0 <= i < |rows| && rows[i] == r;
    var a, b := OccupiedExists(rows, k, i);
    IndexOffersIff(rows, k, s, a, b);
    var v := rows[Landing(0, |rows|, a, b)].version;
    assert v.VisibleAt(s) ==> Offers(rows, true, k, s, v);
    forall x, y | Occupies(rows, k, x, y)
      ensures x == a && y == b
    {
      OccupiedOnce(rows, k, a, b, x, y);
    }
  }

  lemma OccupiedOnce(rows: seq<Row>, k: Key, a: nat, b: nat, x: nat, y: nat)
    requires Occupies(rows, k, a, b) && Occupies(rows, k, x, y)
    ensures a == x && b == y
  {
    assert rows[a].key == k && rows[x].key == k && rows[b - 1].key == k && rows[y - 1].key == k;
  }

  lemma NewestFileExists(w: World, k: Key, s: u64, a: FileId, t: u64) returns (id: FileId, u: u64)
    requires Inv(w) && ShownBy(w.st.files, a, k, s, t)
    ensures NewestFile(w.st.files, k, s, id, u) && u >= t
  {
    hide Inv, Shows;
    var ts: set<int> := set x | x in w.hist && x.0 == k && exists id :: ShownBy(w.st.files, id, k, s, x.1) :: x.1;
    forall id, u: u64 | ShownBy(w.st.files, id, k, s, u)
      ensures u in ts
    {
      FileShowsCommitted(w, k, s, id, u);
      assert (k, u) in w.hist && (k, u).1 == u;
    }
    var x := LargestElement(ts);
    u := x;
    id :| ShownBy(w.st.files, id, k, s, u);
  }

  /** The answers suffice exactly if the newest version that files show is reached. */
  lemma AnswersIff(w: World, indexed: set<FileId>, k: Key, s: u64)
    requires Inv(w)
    ensures AnswersSuffice(w.st.files, indexed, k, s) <==> NewestReached(w.st.files, indexed, k, s)
  {
    hide Inv, Shows, Offers, LandsVisible;
    var files := w.st.files;
    if AnswersSuffice(files, indexed, k, s) {
      forall a, t: u64 | NewestFile(files, k, s, a, t)
        ensures exists b :: ShownBy(files, b, k, s, t) && (b in indexed ==> LandsVisible(files[b].rows, k, s))
      {
        var b, u :| b in files && Offers(files[b].rows, b in indexed, k, s, u) && u.beginTs >= t;
        OfferIsRow(files[b].rows, b in indexed, k, s, u);
        assert ShownBy(files, b, k, s, u.beginTs);
        SortedFile(w, b);
        if b in indexed {
          OfferedIffLands(files[b].rows, k, s, t);
        }
      }
    }
    if NewestReached(files, indexed, k, s) {
      forall a, t: u64 | ShownBy(files, a, k, s, t)
        ensures exists b, u :: b in files && Offers(files[b].rows, b in indexed, k, s, u) && u.beginTs >= t
      {
        var id, newest := NewestFileExists(w, k, s, a, t);
        var b :| ShownBy(files, b, k, s, newest) && (b in indexed ==> LandsVisible(files[b].rows, k, s));
        var u := ReachedOffer(w, indexed, k, s, b, newest);
      }
    }
  }

  lemma ReachedOffer(w: World, indexed: set<FileId>, k: Key, s: u64, id: FileId, t: u64) returns (v: VersionedValue)
    requires Inv(w) && ShownBy(w.st.files, id, k, s, t) && (id in indexed ==> LandsVisible(w.st.files[id].rows, k, s))
    ensures Offers(w.st.files[id].rows, id in indexed, k, s, v) && v.beginTs == t
  {
    hide Inv, Shows, LandsVisible, Search;
    var rows := w.st.files[id].rows;
    SortedFile(w, id);
    if id in indexed {
      OfferedIffLands(rows, k, s, t);
      v :| Offers(rows, true, k, s, v);
    } else {
      v := NewestShownExists(rows, k, s, t);
      assert Offers(rows, false, k, s, v);
    }
    OfferIsRow(rows, id in indexed, k, s, v);
    OneVersionShown(rows, w.hist, w.flushed, k, s, t, v.beginTs);
  }

  lemma SortedFile(w: World, id: FileId)
    requires Inv(w) && id in w.st.files
    ensures StrictlySorted(w.st.files[id].rows) && FileOk(w.st.files[id].rows, w.hist, w.flushed)
  {
    hide HistOk, MemOk, PinsOk, LogOk, DiskOk, MarksOk, StrictlySorted, RowOk;
    assert FileOk(w.st.files[id].rows, w.hist, w.flushed);
  }

  /** A file shows at most one version of a key. */
  lemma OneVersionShown(rows: seq<Row>, hist: Versions, flushed: u64, k: Key, s: u64, t: u64, u: u64)
    requires FileOk(rows, hist, flushed) && Shows(rows, k, s, t) && Shows(rows, k, s, u)
    ensures t == u
  {
    hide StrictlySorted, RowOk;
  }

  /** No indexed file holds two versions of `k`. */
  ghost predicate IndexedOnce(files: Files, indexed: set<FileId>, k: Key) {
    forall id :: id in files && id in indexed ==> OnceHeld(files[id].rows, k)
  }

  /** The answers suffice when no indexed file holds two versions of the key. */
  lemma OnceSuffices(files: Files, indexed: set<FileId>, k: Key, s: u64)
    requires IndexedOnce(files, indexed, k) && forall id :: id in files ==> StrictlySorted(files[id].rows)
    ensures AnswersSuffice(files, indexed, k, s)
  {
    hide StrictlySorted, OnceHeld, Shows, Search;
    forall a, t: u64 | ShownBy(files, a, k, s, t)
      ensures exists b, u :: b in files && Offers(files[b].rows, b in indexed, k, s, u) && u.beginTs >= t
    {
      if a in indexed {
        var u := OnceOffers(files[a].rows, k, s, t);
      } else {
        var u := NewestShownExists(files[a].rows, k, s, t);
        assert Offers(files[a].rows, false, k, s, u);
      }
    }
  }

  /** With an empty hot-key cache, one file above level 0 that holds the key, and no indexed file with two
      versions of it, the lookup is exact. */
  lemma ExactWhenOnce(w: World, c: Caches, k: Key, s: u64)
    requires Inv(w) && k !in c.hot && OneLeveledHolds(w.st.files, k) && IndexedOnce(w.st.files, c.indexes.Keys, k)
    ensures Exact(w.st.mem, w.st.files, c, k, s)
  {
    hide Inv, OneLeveledHolds, IndexedOnce, FilesSuffice, AnswersSuffice, StrictlySorted;
    forall id | id in w.st.files
      ensures StrictlySorted(w.st.files[id].rows)
    {
      SortedFile(w, id);
    }
    OnceSuffices(w.st.files, c.indexes.Keys, k, s);
    OneLeveledIff(w.st.files, c.indexes.Keys, k, s);
  }

  // ---- Compactions of whole levels ----

  /** Compaction of all of levels 0 and 1 into one file of level 1. */
  ghost predicate WholeLevels(w: World, a: Action) {
    a.Compact? ==>
      a.level == 1 && |a.chunks| == 1 && forall id :: id in w.st.files && w.st.files[id].level <= 1 ==> id in a.chunks[0]
  }

  ghost predicate OneLeveled(files: Files) {
    && (forall id :: id in files ==> files[id].level <= 1)
    && (forall a, b :: a in files && b in files && files[a].level > 0 && files[b].level > 0 ==> a == b)
  }

  lemma CompactOneLeveled(files: Files, chunk: seq<FileId>, mark: u64, nextId: FileId)
    requires ChunksOk(files, [chunk]) && forall id :: id in files ==> id in chunk
    ensures OneLeveled(CompactFiles(files, [chunk], 1, mark, nextId))
  {
    hide Dedup, ChunkRows;
    forall id | id in files
      ensures id in Inputs([chunk])
    {
      var j :| 0 <= j < |chunk| && chunk[j] == id;
      assert [chunk][0][j] == id;
    }
    assert [chunk][..0] == [];
    assert Outputs(files, [chunk], 1, mark, nextId).Keys == {nextId};
  }

  lemma StepOneLeveled(w: World, a: Action)
    requires OneLeveled(w.st.files) && Enabled(w, a) && WholeLevels(w, a)
    ensures OneLeveled(Step(w, a).st.files)
  {
    hide Dedup, ChunkRows, Replay, Drained, Applied;
    if a.Compact? {
      assert a.chunks == [a.chunks[0]];
      CompactOneLeveled(w.st.files, a.chunks[0], a.watermark, w.st.nextFileId);
    }
  }

  lemma OneLeveledOneHolds(files: Files, k: Key)
    requires OneLeveled(files)
    ensures OneLeveledHolds(files, k)
  {
  }
}
