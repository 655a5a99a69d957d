/** The key-index sidecar of a file: all rows in one buffer, found by binary search over entry offsets. */
module KeyIndexes {
  import opened Bytes
  import opened LittleEndian
  import opened Version
  import opened Compaction

  const MAGIC: seq<byte> := [0x4B, 0x49, 0x44, 0x58]
  const NONE: u32 := 0xFFFF_FFFF
  const HEADER_LEN: nat := 8

  // ---- Layout ----

  function Clamped(n: nat): u32 {
    if n > U32_MAX then U32_MAX else n
  }

  function ValueField(v: Option<Value>): u32 {
    if v.Some? then Clamped(|v.value|) else NONE
  }

  function ValueBytes(v: Option<Value>): seq<byte> {
    if ValueField(v) == NONE then [] else v.value
  }

  function Entry(r: Row): seq<byte> {
    Le32(Clamped(|r.key|)) + (r.key +
      (Le32(ValueField(r.version.value)) + (ValueBytes(r.version.value) + (Le64(r.version.beginTs) + Le64(r.version.endTs)))))
  }

  function Entries(rows: seq<Row>): seq<byte> {
    if rows == [] then [] else Entries(rows[..|rows| - 1]) + Entry(rows[|rows| - 1])
  }

  function Data(rows: seq<Row>): seq<byte> {
    MAGIC + Le32(|rows| % 0x1_0000_0000) + Entries(rows)
  }

  /** Where entry `i` starts. */
  function Start(rows: seq<Row>, i: nat): nat
    requires i <= |rows|
  {
    HEADER_LEN + |Entries(rows[..i])|
  }

  /** Lengths and offsets fit their fields, and no value has the length that means "absent". */
  predicate Fits(rows: seq<Row>) {
    && |rows| <= U32_MAX
    && (forall i :: 0 <= i < |rows| ==> RowFits(rows[i]) && Start(rows, i) <= U32_MAX)
  }

  predicate RowFits(r: Row) {
    |r.key| <= U32_MAX && (r.version.value.Some? ==> |r.version.value.value| < NONE)
  }

  datatype Index = Index(data: seq<byte>, count: u32, offsets: seq<u32>)

  /** `idx` is the index of `rows`. */
  ghost predicate Indexes(idx: Index, rows: seq<Row>) {
    && Fits(rows)
    && idx.data == Data(rows) && idx.count == |rows| && |idx.offsets| == |rows|
    && forall i :: 0 <= i < |rows| ==> idx.offsets[i] == Start(rows, i)
  }

  lemma EntriesNext(rows: seq<Row>, i: nat)
    requires i < |rows|
    ensures Entries(rows[..i + 1]) == Entries(rows[..i]) + Entry(rows[i])
  {
    assert rows[..i + 1][..i] == rows[..i];
  }

  ghost predicate WrappedOffsets(rows: seq<Row>, offsets: seq<u32>) {
    |offsets| <= |rows| && forall j :: 0 <= j < |offsets| ==> offsets[j] == Start(rows, j) % 0x1_0000_0000
  }

  lemma WrappedNext(rows: seq<Row>, offsets: seq<u32>)
    requires WrappedOffsets(rows, offsets) && |offsets| < |rows|
    ensures WrappedOffsets(rows, offsets + [Start(rows, |offsets|) % 0x1_0000_0000])
  {
    hide Start;
  }

  /** A truncated offset is right exactly when the start fits 32 bits. */
  lemma WrappedRight(rows: seq<Row>, offsets: seq<u32>)
    requires WrappedOffsets(rows, offsets)
    ensures forall j :: 0 <= j < |offsets| ==> (offsets[j] == Start(rows, j) <==> Start(rows, j) <= U32_MAX)
  {
    hide Start;
  }

  lemma WrappedFits(rows: seq<Row>, idx: Index)
    requires Fits(rows) && WrappedOffsets(rows, idx.offsets) && |idx.offsets| == |rows|
    requires idx.data == Data(rows) && idx.count == |rows|
    ensures Indexes(idx, rows)
  {
    hide Start, Data;
  }

  /** Offsets are stored in 32 bits; they are right whenever rows, lengths and offsets fit. */
  method FromRows(rows: seq<Row>) returns (idx: Index)
    ensures idx.data == Data(rows) && |idx.offsets| == |rows| && WrappedOffsets(rows, idx.offsets)
    ensures forall j :: 0 <= j < |rows| ==> (idx.offsets[j] == Start(rows, j) <==> Start(rows, j) <= U32_MAX)
    ensures Fits(rows) ==> Indexes(idx, rows)
  {
    hide Entry, Entries, WrappedOffsets, Indexes, Fits, Le32;
    var count: u32 := |rows| % 0x1_0000_0000;
    var offsets: seq<u32>, data := [], MAGIC + Le32(count);
    NoEntries(rows);
    NoneWrapped(rows);
    for i := 0 to |rows|
      invariant |offsets| == i && WrappedOffsets(rows, offsets)
      invariant data == MAGIC + Le32(count) + Entries(rows[..i])
    {
      EntriesNext(rows, i);
      WrappedNext(rows, offsets);
      offsets := offsets + [|data| % 0x1_0000_0000];
      data := data + Entry(rows[i]);
    }
    assert rows[..|rows|] == rows;
    idx := Index(data, count, offsets);
    WrappedRight(rows, offsets);
    if Fits(rows) {
      FitsCount(rows);
      WrappedFits(rows, idx);
    }
  }

  lemma FitsCount(rows: seq<Row>)
    requires Fits(rows)
    ensures |rows| % 0x1_0000_0000 == |rows|
  {
  }

  lemma NoneWrapped(rows: seq<Row>)
    ensures WrappedOffsets(rows, [])
  {
  }

  lemma NoEntries(rows: seq<Row>)
    ensures rows[..0] == [] && Entries([]) == []
  {
  }

  // ---- Reading an entry ----

  function EntryLen(r: Row): nat {
    4 + |r.key| + 4 + |ValueBytes(r.version.value)| + 16
  }

  lemma EntryLength(r: Row)
    ensures |Entry(r)| == EntryLen(r)
  {
    hide Le32, Le64;
  }

  function U32At(data: seq<byte>, at: nat): u32
    requires at + 4 <= |data|
  {
    ReadLe32(data[at..at + 4])
  }

  function U64At(data: seq<byte>, at: nat): u64
    requires at + 8 <= |data|
  {
    ReadLe64(data[at..at + 8])
  }

  /** The length a value field stands for. */
  function FieldLen(field: u32): nat {
    if field == NONE then 0 else field
  }

  /** Taking `a` off the front of what follows `at`. */
  lemma Peel(d: seq<byte>, at: nat, a: seq<byte>, rest: seq<byte>)
    requires at <= |d| && d[at..] == a + rest
    ensures at + |a| <= |d| && d[at..at + |a|] == a && d[at + |a|..] == rest
  {
    assert d[at + |a|..] == d[at..][|a|..];
    assert d[at..at + |a|] == d[at..][..|a|];
  }

  lemma Peel32(d: seq<byte>, at: nat, n: u32, rest: seq<byte>)
    requires at <= |d| && d[at..] == Le32(n) + rest
    ensures at + 4 <= |d| && U32At(d, at) == n && d[at + 4..] == rest
  {
    hide Le32, ReadLe32;
    Peel(d, at, Le32(n), rest);
    ReadsBack32(n);
  }

  lemma Peel64(d: seq<byte>, at: nat, n: u64, rest: seq<byte>)
    requires at <= |d| && d[at..] == Le64(n) + rest
    ensures at + 8 <= |d| && U64At(d, at) == n && d[at + 8..] == rest
  {
    hide Le64, ReadLe64;
    Peel(d, at, Le64(n), rest);
    ReadsBack64(n);
  }

  lemma EntryRegrouped(r: Row, rest: seq<byte>)
    requires RowFits(r)
    ensures Entry(r) + rest ==
            Le32(|r.key|) + (r.key + (Le32(ValueField(r.version.value)) + (ValueBytes(r.version.value) +
              (Le64(r.version.beginTs) + (Le64(r.version.endTs) + rest)))))
  {
    hide Le32, Le64;
  }

  /** What the reader finds in an entry. */
  lemma EntryReads(d: seq<byte>, c: nat, r: Row, rest: seq<byte>)
    requires RowFits(r) && c <= |d| && d[c..] == Entry(r) + rest
    ensures var k, n := |r.key|, |ValueBytes(r.version.value)|;
            && c + EntryLen(r) <= |d|
            && U32At(d, c) == k
            && d[c + 4..c + 4 + k] == r.key
            && U32At(d, c + 4 + k) == ValueField(r.version.value)
            && d[c + 8 + k..c + 8 + k + n] == ValueBytes(r.version.value)
            && U64At(d, c + 8 + k + n) == r.version.beginTs
            && U64At(d, c + 16 + k + n) == r.version.endTs
  {
    hide Entry, Le32, Le64, U32At, U64At, ValueField, ValueBytes;
    var v := r.version;
    var k, n := |r.key|, |ValueBytes(v.value)|;
    EntryRegrouped(r, rest);
    var s5 := Le64(v.endTs) + rest;
    var s4 := Le64(v.beginTs) + s5;
    var s3 := ValueBytes(v.value) + s4;
    var s2 := Le32(ValueField(v.value)) + s3;
    Peel32(d, c, k, r.key + s2);
    Peel(d, c + 4, r.key, s2);
    Peel32(d, c + 4 + k, ValueField(v.value), s3);
    Peel(d, c + 8 + k, ValueBytes(v.value), s4);
    Peel64(d, c + 8 + k + n, v.beginTs, s5);
    Peel64(d, c + 16 + k + n, v.endTs, rest);
  }

  lemma {:induction false} EntriesConcat(a: seq<Row>, b: seq<Row>)
    ensures Entries(a + b) == Entries(a) + Entries(b)
  {
    hide Entry;
    if b == [] {
      assert a + b == a;
    } else {
      EntriesConcat(a, b[..|b| - 1]);
      assert (a + b)[..|a + b| - 1] == a + b[..|b| - 1];
    }
  }

  /** The buffer from entry `i` on is that entry and the ones behind it. */
  lemma DataFrom(rows: seq<Row>, i: nat)
    requires i < |rows|
    ensures Start(rows, i) + EntryLen(rows[i]) == Start(rows, i + 1) <= |Data(rows)|
    ensures Data(rows)[Start(rows, i)..] == Entry(rows[i]) + Entries(rows[i + 1..])
  {
    hide Entry, Entries;
    EntriesNext(rows, i);
    EntryLength(rows[i]);
    EntriesConcat(rows[..i + 1], rows[i + 1..]);
    assert rows[..i + 1] + rows[i + 1..] == rows;
  }

  // ---- Parsing ----

  /** One step over an entry; `None` when the buffer is too short for it. */
  function SkipEntry(data: seq<byte>, cursor: nat): Option<nat> {
    if cursor + 4 > |data| then None
    else
      var afterKey := cursor + 4 + U32At(data, cursor);
      if afterKey + 4 > |data| then None
      else
        var next := afterKey + 4 + FieldLen(U32At(data, afterKey)) + 16;
        if next > |data| then None else Some(next)
  }

  lemma SkipsEntry(rows: seq<Row>, i: nat)
    requires Fits(rows) && i < |rows|
    ensures SkipEntry(Data(rows), Start(rows, i)) == Some(Start(rows, i + 1))
  {
    hide Entry, Entries, Data, Start, U32At, U64At;
    DataFrom(rows, i);
    EntryReads(Data(rows), Start(rows, i), rows[i], Entries(rows[i + 1..]));
  }

  /** The starts of `n` entries from `cursor` on, if the buffer holds that many. */
  function Walk(data: seq<byte>, cursor: nat, n: nat): Option<seq<nat>>
    decreases n
  {
    if n == 0 then Some([])
    else
      var next := SkipEntry(data, cursor);
      if next.None? then None else Behind([cursor], Walk(data, next.value, n - 1))
  }

  function Behind(starts: seq<nat>, rest: Option<seq<nat>>): Option<seq<nat>> {
    if rest.Some? then Some(starts + rest.value) else None
  }

  function Truncated(starts: seq<nat>): (offsets: seq<u32>)
    ensures |offsets| == |starts|
  {
    seq(|starts|, i requires 0 <= i < |starts| => starts[i] % 0x1_0000_0000)
  }

  /** An index is read from a buffer with the right header whose entries all lie within it. */
  function ParsedIndex(data: seq<byte>): Option<Index> {
    if |data| < 8 || data[..4] != MAGIC then None
    else
      var count := ReadLe32(data[4..8]);
      var starts := Walk(data, 8, count);
      if starts.None? then None else Some(Index(data, count, Truncated(starts.value)))
  }

  lemma BehindBehind(starts: seq<nat>, c: nat, rest: Option<seq<nat>>)
    ensures Behind(starts, Behind([c], rest)) == Behind(starts + [c], rest)
  {
    if rest.Some? {
      assert starts + ([c] + rest.value) == (starts + [c]) + rest.value;
    }
  }

  lemma BehindEnds(starts: seq<nat>, rest: Option<seq<nat>>)
    ensures Behind([], rest) == rest && Behind(starts, Some([])) == Some(starts)
  {
    assert starts + [] == starts;
    if rest.Some? {
      assert [] + rest.value == rest.value;
    }
  }

  lemma TruncatedNext(starts: seq<nat>, c: nat)
    ensures Truncated(starts + [c]) == Truncated(starts) + [c % 0x1_0000_0000]
  {
  }

  method FromBytes(data: seq<byte>) returns (idx: Option<Index>)
    ensures idx == ParsedIndex(data)
  {
    hide SkipEntry, ReadLe32, Truncated;
    if |data| < 8 || data[..4] != MAGIC {
      return None;
    }
    var count := ReadLe32(data[4..8]);
    var offsets: seq<u32>, cursor := [], 8;
    ghost var starts: seq<nat> := [];
    BehindEnds([], Walk(data, 8, count));
    NoneTruncated();
    for i := 0 to count
      invariant offsets == Truncated(starts)
      invariant Walk(data, 8, count) == Behind(starts, Walk(data, cursor, count - i))
    {
      var next := SkipEntry(data, cursor);
      if next.None? {
        return None;
      }
      BehindBehind(starts, cursor, Walk(data, next.value, count - i - 1));
      TruncatedNext(starts, cursor);
      offsets := offsets + [cursor % 0x1_0000_0000];
      starts := starts + [cursor];
      cursor := next.value;
    }
    BehindEnds(starts, Some([]));
    return Some(Index(data, count, offsets));
  }

  lemma NoneTruncated()
    ensures Truncated([]) == []
  {
  }

  /** The entry starts of `rows` from entry `i` on. */
  function StartsFrom(rows: seq<Row>, i: nat): (starts: seq<nat>)
    requires i <= |rows|
    ensures |starts| == |rows| - i
  {
    seq<nat>(|rows| - i, j requires 0 <= j < |rows| - i => Start(rows, i + j))
  }

  lemma StartsNext(rows: seq<Row>, i: nat)
    requires i < |rows|
    ensures [Start(rows, i)] + StartsFrom(rows, i + 1) == StartsFrom(rows, i)
  {
    hide Start;
  }

  lemma {:induction false} WalkFindsStarts(rows: seq<Row>, i: nat)
    requires Fits(rows) && i <= |rows|
    ensures Walk(Data(rows), Start(rows, i), |rows| - i) == Some(StartsFrom(rows, i))
    decreases |rows| - i
  {
    hide Data, Start, SkipEntry, Fits;
    if i < |rows| {
      SkipsEntry(rows, i);
      WalkFindsStarts(rows, i + 1);
      StartsNext(rows, i);
    }
  }

  /** The buffer of rows that fit is read back as their index. */
  lemma RowsParseBack(rows: seq<Row>)
    requires Fits(rows)
    ensures ParsedIndex(Data(rows)).Some? && Indexes(ParsedIndex(Data(rows)).value, rows)
  {
    hide Data, ReadLe32, Walk, Start;
    HeaderReads(rows);
    WalkFindsStarts(rows, 0);
  }

  /** An index written to a file is read back as it was. */
  lemma IndexReadsBack(idx: Index, rows: seq<Row>)
    requires Indexes(idx, rows)
    ensures ParsedIndex(idx.data) == Some(idx)
  {
    hide Data, Start, Fits, ParsedIndex;
    RowsParseBack(rows);
    var read := ParsedIndex(Data(rows)).value;
    assert read.offsets == idx.offsets;
  }

  lemma HeaderReads(rows: seq<Row>)
    ensures Fits(rows) ==> |Data(rows)| >= 8 && Data(rows)[..4] == MAGIC && ReadLe32(Data(rows)[4..8]) == |rows|
    ensures Start(rows, 0) == 8
  {
    hide ReadLe32, Le32, Entries;
    NoEntries(rows);
    if Fits(rows) {
      assert Data(rows)[4..8] == Le32(|rows|);
      ReadsBack32(|rows|);
    }
  }

  // ---- Lookup ----

  ghost predicate KeysSorted(rows: seq<Row>) {
    forall i, j :: 0 <= i < j < |rows| ==> LessEq(rows[i].key, rows[j].key)
  }

  ghost predicate KeysDistinct(rows: seq<Row>) {
    forall i, j :: 0 <= i < j < |rows| ==> rows[i].key != rows[j].key
  }

  function KeyAt(idx: Index, i: nat): Option<Key>
    requires i < |idx.offsets|
  {
    var c := idx.offsets[i];
    if c + 4 > |idx.data| || c + 4 + U32At(idx.data, c) > |idx.data| then None
    else Some(idx.data[c + 4..c + 4 + U32At(idx.data, c)])
  }

  lemma KeyAtIsKey(idx: Index, rows: seq<Row>, i: nat)
    requires Indexes(idx, rows) && i < |rows|
    ensures KeyAt(idx, i) == Some(rows[i].key)
  {
    hide Entry, Data, Start, U32At, U64At, Entries;
    DataFrom(rows, i);
    EntryReads(Data(rows), Start(rows, i), rows[i], Entries(rows[i + 1..]));
  }

  /** The value and timestamps behind the key, whose end is `at`. */
  function VersionFrom(data: seq<byte>, at: nat): Option<VersionedValue> {
    if at + 4 > |data| then None
    else
      var field := U32At(data, at);
      var ts := at + 4 + FieldLen(field);
      if ts + 16 > |data| then None
      else Some(VersionedValue(if field == NONE then None else Some(data[at + 4..ts]), U64At(data, ts), U64At(data, ts + 8)))
  }

  /** The version stored in the entry at `start`. */
  function VersionAt(data: seq<byte>, start: nat): Option<VersionedValue> {
    if start + 4 > |data| then None else VersionFrom(data, start + 4 + U32At(data, start))
  }

  lemma VersionAtIsVersion(rows: seq<Row>, i: nat)
    requires Fits(rows) && i < |rows|
    ensures VersionAt(Data(rows), Start(rows, i)) == Some(rows[i].version)
  {
    hide Entry, Data, Start, U32At, U64At, Entries;
    DataFrom(rows, i);
    EntryReads(Data(rows), Start(rows, i), rows[i], Entries(rows[i + 1..]));
  }

  /** The loop's choice of rows to look at, on the rows themselves. */
  function Search(rows: seq<Row>, k: Key, lo: nat, hi: nat): (r: Option<nat>)
    requires lo <= hi <= |rows|
    ensures r.Some? ==> lo <= r.value < hi && rows[r.value].key == k
    decreases hi - lo
  {
    if lo == hi then None
    else
      var mid := lo + (hi - lo) / 2;
      if rows[mid].key == k then Some(mid)
      else if Less(rows[mid].key, k) then Search(rows, k, mid + 1, hi)
      else Search(rows, k, lo, mid)
  }

  /** What the index holds at position `i`. */
  lemma HeldAt(idx: Index, rows: seq<Row>, i: nat)
    requires Indexes(idx, rows) && i < |rows|
    ensures i < |idx.offsets| && KeyAt(idx, i) == Some(rows[i].key)
    ensures VersionAt(idx.data, idx.offsets[i]) == Some(rows[i].version)
  {
    hide Data, Start, KeyAt, VersionAt;
    KeyAtIsKey(idx, rows, i);
    VersionAtIsVersion(rows, i);
  }

  lemma HeldCount(idx: Index, rows: seq<Row>)
    requires Indexes(idx, rows)
    ensures idx.count == |rows| == |idx.offsets|
  {
  }

  method Get(idx: Index, ghost rows: seq<Row>, k: Key) returns (o: Option<VersionedValue>)
    requires Indexes(idx, rows)
    ensures o == match Search(rows, k, 0, |rows|) case None => None case Some(i) => Some(rows[i].version)
  {
    hide Indexes, Less, KeyAt, VersionAt;
    HeldCount(idx, rows);
    if idx.count == 0 {
      return None;
    }
    var lo, hi := 0, idx.count as nat;
    while lo < hi
      invariant 0 <= lo <= hi <= |rows|
      invariant Search(rows, k, lo, hi) == Search(rows, k, 0, |rows|)
    {
      var mid := lo + (hi - lo) / 2;
      HeldAt(idx, rows, mid);
      var key := KeyAt(idx, mid).value;
      if key == k {
        return VersionAt(idx.data, idx.offsets[mid]);
      } else if Less(key, k) {
        lo := mid + 1;
      } else {
        hi := mid;
      }
    }
    return None;
  }

  lemma OrderAround(rows: seq<Row>, k: Key, mid: nat, i: nat)
    requires KeysSorted(rows) && mid < |rows| && i < |rows| && rows[i].key == k && rows[mid].key != k
    ensures Less(rows[mid].key, k) <==> mid < i
  {
    LessTotal(rows[mid].key, k);
    if mid < i {
      assert LessEq(rows[mid].key, rows[i].key);
    } else if i < mid {
      assert LessEq(rows[i].key, rows[mid].key);
      LessAsymmetric(k, rows[mid].key);
    }
  }

  /** On sorted rows the search finds a row of the key whenever there is one. */
  lemma {:induction false} SearchFinds(rows: seq<Row>, k: Key, lo: nat, hi: nat)
    requires KeysSorted(rows) && lo <= hi <= |rows|
    ensures var r := Search(rows, k, lo, hi);
            && (r.Some? ==> lo <= r.value < hi && rows[r.value].key == k)
            && (r.None? ==> forall i :: lo <= i < hi ==> rows[i].key != k)
    decreases hi - lo
  {
    hide Less, KeysSorted;
    if lo < hi {
      var mid := lo + (hi - lo) / 2;
      SearchFinds(rows, k, mid + 1, hi);
      SearchFinds(rows, k, lo, mid);
      if rows[mid].key != k {
        forall i | lo <= i < hi && rows[i].key == k
          ensures Less(rows[mid].key, k) <==> mid < i
        {
          OrderAround(rows, k, mid, i);
        }
      }
    }
  }

  /** With one row per key the lookup is exact: present keys give their version, absent keys nothing. */
  lemma LookupExact(rows: seq<Row>, k: Key, i: nat)
    requires KeysSorted(rows) && KeysDistinct(rows) && i < |rows|
    ensures Search(rows, rows[i].key, 0, |rows|) == Some(i)
    ensures Search(rows, k, 0, |rows|).None? <==> forall j :: 0 <= j < |rows| ==> rows[j].key != k
  {
    hide KeysSorted;
    SearchFinds(rows, rows[i].key, 0, |rows|);
    SearchFinds(rows, k, 0, |rows|);
  }

  /** The rows of `k` are those at positions `[a, b)`. */
  ghost predicate Occupies(rows: seq<Row>, k: Key, a: nat, b: nat) {
    a < b <= |rows| && forall i :: 0 <= i < |rows| ==> (rows[i].key == k <==> a <= i < b)
  }

  /** The first midpoint of the search within `[a, b)`. */
  function Landing(lo: nat, hi: nat, a: nat, b: nat): (r: nat)
    requires lo <= a < b <= hi
    ensures a <= r < b
    decreases hi - lo
  {
    var mid := lo + (hi - lo) / 2;
    if mid < a then Landing(mid + 1, hi, a, b) else if mid >= b then Landing(lo, mid, a, b) else mid
  }

  lemma {:induction false} SearchLands(rows: seq<Row>, k: Key, lo: nat, hi: nat, a: nat, b: nat)
    requires KeysSorted(rows) && Occupies(rows, k, a, b) && lo <= a < b <= hi <= |rows|
    ensures Search(rows, k, lo, hi) == Some(Landing(lo, hi, a, b))
    decreases hi - lo
  {
    hide Less, KeysSorted;
    var mid := lo + (hi - lo) / 2;
    if mid < a {
      OrderAround(rows, k, mid, a);
      SearchLands(rows, k, mid + 1, hi, a, b);
    } else if mid >= b {
      OrderAround(rows, k, mid, a);
      SearchLands(rows, k, lo, mid, a, b);
    }
  }

  /** In a file, where the versions of a key stand newest first, the lookup returns the newest of them
      exactly when the search first lands on the first of their positions. */
  lemma NewestReturnedIff(rows: seq<Row>, k: Key, a: nat, b: nat)
    requires StrictlySorted(rows) && Occupies(rows, k, a, b)
    ensures var found := Search(rows, k, 0, |rows|);
            && found == Some(Landing(0, |rows|, a, b))
            && ((forall i :: a <= i < b ==> rows[i].version.beginTs <= rows[found.value].version.beginTs)
                <==> Landing(0, |rows|, a, b) == a)
  {
    hide Less, KeysSorted, Search, Landing;
    FileKeysSorted(rows);
    SearchLands(rows, k, 0, |rows|, a, b);
    forall i, j | a <= i < j < b
      ensures rows[i].version.beginTs > rows[j].version.beginTs
    {
      assert Before(rows[i], rows[j]);
      LessIrreflexive(k);
    }
    var l := Landing(0, |rows|, a, b);
    if l != a {
      assert rows[a].version.beginTs > rows[l].version.beginTs;
    }
  }

  lemma FileKeysSorted(rows: seq<Row>)
    requires StrictlySorted(rows)
    ensures KeysSorted(rows)
  {
    hide Less;
    forall i, j | 0 <= i < j < |rows|
      ensures LessEq(rows[i].key, rows[j].key)
    {
      assert Before(rows[i], rows[j]);
    }
  }

  /** With two versions of a key alone in a file the older one is returned. */
  lemma DuplicateReturnsOlder(newer: Row, older: Row)
    requires newer.key == older.key
    ensures Search([newer, older], newer.key, 0, 2) == Some(1) && Landing(0, 2, 0, 2) == 1
  {
  }
}
