/** The byte format of the manifest's edit log, and the manifest that keeps log and memory in step. */
module ManifestLog {
  import opened Bytes
  import opened Sequences
  import opened KeyOrder
  import opened LittleEndian
  import opened Crc32c
  import opened Manifest
  import opened VersionSets

  const MAGIC: seq<byte> := [0x4D, 0x41, 0x4E, 0x31]
  const OVERHEAD: nat := 9
  const SNAPSHOT_THRESHOLD: nat := 1024

  // ---- Printing ----

  predicate Encodable(e: Edit) {
    match e
    case AddFile(_, _, meta) => |meta.minKey| <= U32_MAX && |meta.maxKey| <= U32_MAX
    case DroppedPrefix(p) => |p| <= U32_MAX
    case UndroppedPrefix(p) => |p| <= U32_MAX
    case _ => true
  }

  function LenPrefixed(k: Key): seq<byte>
    requires |k| <= U32_MAX
  {
    Le32(|k|) + k
  }

  function OpByte(e: Edit): byte {
    match e
    case AddFile(_, _, _) => 1
    case DeleteFile(_, _) => 2
    case NextFileId(_) => 3
    case DroppedPrefix(_) => 4
    case UndroppedPrefix(_) => 5
  }

  function Payload(e: Edit): seq<byte>
    requires Encodable(e)
  {
    match e
    case AddFile(id, level, meta) =>
      Le64(id) + (Le32(level) + (LenPrefixed(meta.minKey) + (LenPrefixed(meta.maxKey) + (Le64(meta.bytes) + Le64(meta.createdAt)))))
    case DeleteFile(id, level) => Le64(id) + Le32(level)
    case NextFileId(next) => Le64(next)
    case DroppedPrefix(p) => LenPrefixed(p)
    case UndroppedPrefix(p) => LenPrefixed(p)
  }

  function Body(e: Edit): seq<byte>
    requires Encodable(e)
  {
    MAGIC + [OpByte(e)] + Payload(e)
  }

  function Frame(e: Edit): seq<byte>
    requires Encodable(e)
  {
    Body(e) + Trailer(Crc(0, Body(e)))
  }

  /** The documented start of a frame, and its end: the magic "MAN1", the code of the edit, its payload,
      and the checksum of all that. */
  lemma FrameLayout(e: Edit)
    requires Encodable(e)
    ensures var f := Frame(e);
            && |f| == OVERHEAD + |Payload(e)|
            && f[..4] == [0x4D, 0x41, 0x4E, 0x31]
            && f[4] == (match e
                        case AddFile(_, _, _) => 1
                        case DeleteFile(_, _) => 2
                        case NextFileId(_) => 3
                        case DroppedPrefix(_) => 4
                        case UndroppedPrefix(_) => 5)
            && f[|f| - 4..] == Trailer(Crc(0, f[..|f| - 4]))
  {
    hide Crc, Payload;
    var f, t := Frame(e), Trailer(Crc(0, Body(e)));
    assert f[..|f| - 4] == Body(e) && f[|f| - 4..] == t;
  }

  /** The payloads of the other edits: file id and level, next id, prefix with its length. */
  lemma PayloadLayout(e: Edit)
    requires Encodable(e) && !e.AddFile?
    ensures e.DeleteFile? ==> |Frame(e)| == 21 && Stores(Frame(e), 5, 8, e.fileId) && Stores(Frame(e), 13, 4, e.level)
    ensures e.NextFileId? ==> |Frame(e)| == 17 && Stores(Frame(e), 5, 8, e.next)
    ensures e.DroppedPrefix? || e.UndroppedPrefix? ==>
              && |Frame(e)| == 13 + |e.prefix|
              && Stores(Frame(e), 5, 4, |e.prefix|) && Frame(e)[9..9 + |e.prefix|] == e.prefix
  {
    hide Frame, Stores, Le32, Le64, Trailer, Crc;
    var f, t := Frame(e), Trailer(Crc(0, Body(e)));
    FrameTail(e);
    match e
    case DeleteFile(id, level) =>
      Regroup(Le64(id), Le32(level), t);
      Number64(f, 5, id, Le32(level) + t);
      Number32(f, 13, level, t);
    case NextFileId(next) =>
      Number64(f, 5, next, t);
    case DroppedPrefix(p) =>
      Regroup(Le32(|p|), p, t);
      KeyField(f, 5, p, t);
    case UndroppedPrefix(p) =>
      Regroup(Le32(|p|), p, t);
      KeyField(f, 5, p, t);
  }

  /** The payload of an addition: file id, level, both bounding keys with their lengths, size and age. */
  lemma AddLayout(id: u64, level: u32, meta: Meta)
    requires Encodable(AddFile(id, level, meta))
    ensures var f, n, m := Frame(AddFile(id, level, meta)), |meta.minKey|, |meta.maxKey|;
            && |f| == 45 + n + m
            && Stores(f, 5, 8, id) && Stores(f, 13, 4, level)
            && Stores(f, 17, 4, n) && f[21..21 + n] == meta.minKey
            && Stores(f, 21 + n, 4, m) && f[25 + n..25 + n + m] == meta.maxKey
            && Stores(f, 25 + n + m, 8, meta.bytes) && Stores(f, 33 + n + m, 8, meta.createdAt)
  {
    hide Frame, Stores, Le32, Le64, Trailer, Crc;
    var e := AddFile(id, level, meta);
    var f, n, m := Frame(e), |meta.minKey|, |meta.maxKey|;
    var p7 := Le64(meta.createdAt) + Trailer(Crc(0, Body(e)));
    var p6 := Le64(meta.bytes) + p7;
    var p4 := Le32(m) + (meta.maxKey + p6);
    var p2 := Le32(n) + (meta.minKey + p4);
    AddUnfolds(id, level, meta);
    Number64(f, 5, id, Le32(level) + p2);
    Number32(f, 13, level, p2);
    KeyField(f, 17, meta.minKey, p4);
    KeyField(f, 21 + n, meta.maxKey, p6);
    Number64(f, 25 + n + m, meta.bytes, p7);
    Number64(f, 33 + n + m, meta.createdAt, Trailer(Crc(0, Body(e))));
  }

  lemma Number64(f: seq<byte>, at: nat, n: u64, rest: seq<byte>)
    requires at <= |f| && f[at..] == Le64(n) + rest
    ensures at + 8 <= |f| && Stores(f, at, 8, n) && f[at + 8..] == rest
  {
    hide Stores, Encode;
    Field(f, at, Le64(n), rest);
    SliceStores(f, at, n, 8);
  }

  lemma Number32(f: seq<byte>, at: nat, n: u32, rest: seq<byte>)
    requires at <= |f| && f[at..] == Le32(n) + rest
    ensures at + 4 <= |f| && Stores(f, at, 4, n) && f[at + 4..] == rest
  {
    hide Stores, Encode;
    Field(f, at, Le32(n), rest);
    SliceStores(f, at, n, 4);
  }

  lemma KeyField(f: seq<byte>, at: nat, k: Key, rest: seq<byte>)
    requires |k| <= U32_MAX && at <= |f| && f[at..] == Le32(|k|) + (k + rest)
    ensures at + 4 + |k| <= |f| && Stores(f, at, 4, |k|)
    ensures f[at + 4..at + 4 + |k|] == k && f[at + 4 + |k|..] == rest
  {
    hide Stores, Le32;
    Number32(f, at, |k|, k + rest);
    Field(f, at + 4, k, rest);
  }

  /** A frame that adds a file, field after field. */
  lemma AddUnfolds(id: u64, level: u32, meta: Meta)
    requires Encodable(AddFile(id, level, meta))
    ensures var e := AddFile(id, level, meta);
            && |Frame(e)| >= 5
            && Frame(e)[5..] ==
                 Le64(id) + (Le32(level) + (Le32(|meta.minKey|) + (meta.minKey + (Le32(|meta.maxKey|) + (meta.maxKey +
                   (Le64(meta.bytes) + (Le64(meta.createdAt) + Trailer(Crc(0, Body(e))))))))))
  {
    hide Frame, Body, Crc, Trailer, Le32, Le64;
    var e := AddFile(id, level, meta);
    FrameTail(e);
    var t := Trailer(Crc(0, Body(e)));
    var s5, s4 := Le64(meta.createdAt), Le64(meta.bytes) + Le64(meta.createdAt);
    var s3 := LenPrefixed(meta.maxKey) + s4;
    var s2 := LenPrefixed(meta.minKey) + s3;
    var s1 := Le32(level) + s2;
    Regroup(Le64(id), s1, t);
    Regroup(Le32(level), s2, t);
    Regroup(LenPrefixed(meta.minKey), s3, t);
    Regroup(LenPrefixed(meta.maxKey), s4, t);
    Regroup(Le64(meta.bytes), s5, t);
    Regroup(Le32(|meta.minKey|), meta.minKey, s3 + t);
    Regroup(Le32(|meta.maxKey|), meta.maxKey, s4 + t);
  }

  lemma FrameTail(e: Edit)
    requires Encodable(e)
    ensures |Frame(e)| >= 5 && Frame(e)[5..] == Payload(e) + Trailer(Crc(0, Body(e)))
  {
    hide Payload, Crc, Trailer;
  }

  lemma Field(f: seq<byte>, at: nat, x: seq<byte>, rest: seq<byte>)
    requires at <= |f| && f[at..] == x + rest
    ensures at + |x| <= |f| && f[at..at + |x|] == x && f[at + |x|..] == rest
  {
    assert f[at..][..|x|] == x && f[at..][|x|..] == rest;
  }

  // ---- Parsing ----

  datatype Taken<+T> = Taken(value: T, rest: seq<byte>) | Short

  function Take64(s: seq<byte>): (t: Taken<u64>)
    ensures t.Taken? ==> |t.rest| <= |s|
  {
    if |s| < 8 then Short else Taken(ReadLe64(s[..8]), s[8..])
  }

  function Take32(s: seq<byte>): (t: Taken<u32>)
    ensures t.Taken? ==> |t.rest| <= |s|
  {
    if |s| < 4 then Short else Taken(ReadLe32(s[..4]), s[4..])
  }

  function TakeBytes(s: seq<byte>): (t: Taken<Key>)
    ensures t.Taken? ==> |t.rest| <= |s|
  {
    var n := Take32(s);
    if n.Short? || |n.rest| < n.value then Short else Taken(n.rest[..n.value], n.rest[n.value..])
  }

  function TakeAdd(s: seq<byte>): (t: Taken<Edit>)
    ensures t.Taken? ==> |t.rest| <= |s|
  {
    var id := Take64(s);
    if id.Short? then Short else
    var level := Take32(id.rest);
    if level.Short? then Short else
    var minKey := TakeBytes(level.rest);
    if minKey.Short? then Short else
    var maxKey := TakeBytes(minKey.rest);
    if maxKey.Short? then Short else
    var bytes := Take64(maxKey.rest);
    if bytes.Short? then Short else
    var createdAt := Take64(bytes.rest);
    if createdAt.Short? then Short else
    Taken(AddFile(id.value, level.value, Meta(minKey.value, maxKey.value, bytes.value, createdAt.value)), createdAt.rest)
  }

  function TakeDelete(s: seq<byte>): (t: Taken<Edit>)
    ensures t.Taken? ==> |t.rest| <= |s|
  {
    var id := Take64(s);
    if id.Short? then Short else
    var level := Take32(id.rest);
    if level.Short? then Short else Taken(DeleteFile(id.value, level.value), level.rest)
  }

  /** Payload of an edit of kind `op`; an unknown kind, a short payload or an empty prefix is an error. */
  function TakeEdit(op: byte, s: seq<byte>): (t: Taken<Edit>)
    ensures t.Taken? ==> |t.rest| <= |s|
  {
    if op == 1 then TakeAdd(s)
    else if op == 2 then TakeDelete(s)
    else if op == 3 then
      var next := Take64(s);
      if next.Short? then Short else Taken(NextFileId(next.value), next.rest)
    else if op == 4 || op == 5 then
      var p := TakeBytes(s);
      if p.Short? || p.value == [] then Short
      else Taken(if op == 4 then DroppedPrefix(p.value) else UndroppedPrefix(p.value), p.rest)
    else Short
  }

  datatype Decoded = Torn | Bad | Whole(edit: Edit, end: nat)

  predicate ChecksumMatches(s: seq<byte>, end: nat)
    requires end + 4 <= |s|
  {
    s[end..end + 4] == Trailer(Crc(0, s[..end]))
  }

  function FirstFrame(s: seq<byte>): (d: Decoded)
    ensures d.Whole? ==> 0 < d.end <= |s|
  {
    if |s| < OVERHEAD then Torn
    else if s[..4] != MAGIC then Torn
    else
      var t := TakeEdit(s[4], s[5..]);
      if t.Short? then Bad
      else
        var end := |s| - |t.rest|;
        if end + 4 > |s| then Torn
        else if !ChecksumMatches(s, end) then Torn
        else Whole(t.value, end + 4)
  }

  // ---- Round trip ----

  /** Edits that survive printing and parsing: a recorded prefix is not empty. */
  predicate Fine(e: Edit) {
    && Encodable(e)
    && (e.DroppedPrefix? ==> e.prefix != [])
    && (e.UndroppedPrefix? ==> e.prefix != [])
  }

  lemma Takes64(n: u64, rest: seq<byte>)
    ensures Take64(Le64(n) + rest) == Taken(n, rest)
  {
    hide ReadLe64, Le64;
    var s := Le64(n) + rest;
    assert s[..8] == Le64(n) && s[8..] == rest;
    ReadsBack64(n);
  }

  lemma Takes32(n: u32, rest: seq<byte>)
    ensures Take32(Le32(n) + rest) == Taken(n, rest)
  {
    hide ReadLe32, Le32;
    var s := Le32(n) + rest;
    assert s[..4] == Le32(n) && s[4..] == rest;
    ReadsBack32(n);
  }

  lemma TakesBytes(k: Key, rest: seq<byte>)
    requires |k| <= U32_MAX
    ensures TakeBytes(LenPrefixed(k) + rest) == Taken(k, rest)
  {
    hide Take32, Le32;
    Takes32(|k|, k + rest);
    assert LenPrefixed(k) + rest == Le32(|k|) + (k + rest);
    assert (k + rest)[..|k|] == k && (k + rest)[|k|..] == rest;
  }

  lemma TakesAdd(id: u64, level: u32, meta: Meta, rest: seq<byte>)
    requires Encodable(AddFile(id, level, meta))
    ensures TakeAdd(Payload(AddFile(id, level, meta)) + rest) == Taken(AddFile(id, level, meta), rest)
  {
    hide Take64, Take32, TakeBytes, Le32, Le64, LenPrefixed;
    var s5 := Le64(meta.createdAt);
    var s4 := Le64(meta.bytes) + s5;
    var s3 := LenPrefixed(meta.maxKey) + s4;
    var s2 := LenPrefixed(meta.minKey) + s3;
    var s1 := Le32(level) + s2;
    Regroup(Le64(id), s1, rest);
    Regroup(Le32(level), s2, rest);
    Regroup(LenPrefixed(meta.minKey), s3, rest);
    Regroup(LenPrefixed(meta.maxKey), s4, rest);
    Regroup(Le64(meta.bytes), s5, rest);
    Takes64(id, s1 + rest);
    Takes32(level, s2 + rest);
    TakesBytes(meta.minKey, s3 + rest);
    TakesBytes(meta.maxKey, s4 + rest);
    Takes64(meta.bytes, s5 + rest);
    Takes64(meta.createdAt, rest);
  }

  lemma TakesDelete(id: u64, level: u32, rest: seq<byte>)
    ensures TakeDelete(Payload(DeleteFile(id, level)) + rest) == Taken(DeleteFile(id, level), rest)
  {
    hide Take64, Take32, Le32, Le64;
    Regroup(Le64(id), Le32(level), rest);
    Takes64(id, Le32(level) + rest);
    Takes32(level, rest);
  }

  lemma TakesEditIff(e: Edit, rest: seq<byte>)
    requires Encodable(e)
    ensures TakeEdit(OpByte(e), Payload(e) + rest) == Taken(e, rest) <==> Fine(e)
  {
    hide TakeAdd, TakeDelete, Take64, TakeBytes, Le64, LenPrefixed;
    match e
    case AddFile(id, level, meta) => TakesAdd(id, level, meta, rest);
    case DeleteFile(id, level) => TakesDelete(id, level, rest);
    case NextFileId(next) => Takes64(next, rest);
    case DroppedPrefix(p) => TakesBytes(p, rest);
    case UndroppedPrefix(p) => TakesBytes(p, rest);
  }

  lemma FrameSlices(op: byte, payload: seq<byte>, t: seq<byte>, post: seq<byte>)
    requires |t| == 4
    ensures var s := (MAGIC + [op] + payload + t) + post;
            var end := |s| - |t + post|;
            && |s| >= OVERHEAD && s[..4] == MAGIC && s[4] == op
            && s[5..] == payload + (t + post)
            && s[..end] == MAGIC + [op] + payload && s[end..end + 4] == t
  {
  }

  /** A printed frame is read back exactly when it does not record an empty prefix. */
  lemma FrameRoundTrip(e: Edit, post: seq<byte>)
    requires Encodable(e)
    ensures FirstFrame(Frame(e) + post) == Whole(e, |Frame(e)|) <==> Fine(e)
  {
    hide TakeEdit, Payload, OpByte, Crc, Trailer, Fine;
    var t := Trailer(Crc(0, Body(e)));
    FrameSlices(OpByte(e), Payload(e), t, post);
    TakesEditIff(e, t + post);
    if !Fine(e) {
      TakesNothing(e, t + post);
    }
  }

  lemma TakesNothing(e: Edit, rest: seq<byte>)
    requires Encodable(e) && !Fine(e)
    ensures TakeEdit(OpByte(e), Payload(e) + rest) == Short
  {
    hide TakeAdd, TakeDelete, Take64, TakeBytes, LenPrefixed;
    TakesBytes(e.prefix, rest);
  }

  // ---- Whole logs ----

  predicate AllEncodable(edits: seq<Edit>) {
    forall i :: 0 <= i < |edits| ==> Encodable(edits[i])
  }

  predicate AllFine(edits: seq<Edit>): (b: bool)
    ensures b ==> AllEncodable(edits)
  {
    forall i :: 0 <= i < |edits| ==> Fine(edits[i])
  }

  function Frames(edits: seq<Edit>): seq<byte>
    requires AllEncodable(edits)
  {
    if edits == [] then [] else Frame(edits[0]) + Frames(edits[1..])
  }

  /** The edits up to the first torn frame. */
  function Parse(s: seq<byte>): Result<seq<Edit>> {
    if s == [] then Ok([])
    else
      match FirstFrame(s)
      case Torn => Ok([])
      case Bad => Corrupt
      case Whole(e, end) => Behind([e], Parse(s[end..]))
  }

  function Behind(out: seq<Edit>, rest: Result<seq<Edit>>): Result<seq<Edit>> {
    if rest.Ok? then Ok(out + rest.value) else rest
  }

  lemma BehindBehind(out: seq<Edit>, e: Edit, rest: Result<seq<Edit>>)
    ensures Behind(out, Behind([e], rest)) == Behind(out + [e], rest)
  {
    if rest.Ok? {
      assert out + ([e] + rest.value) == (out + [e]) + rest.value;
    }
  }

  lemma BehindEnds(out: seq<Edit>, rest: Result<seq<Edit>>)
    ensures Behind([], rest) == rest && Behind(out, Ok([])) == Ok(out)
  {
    assert out + [] == out;
    if rest.Ok? {
      assert [] + rest.value == rest.value;
    }
  }

  method DecodeAll(buf: seq<byte>) returns (result: Result<seq<Edit>>)
    ensures result == Parse(buf)
  {
    hide FirstFrame;
    var cursor, edits := 0, [];
    BehindEnds([], Parse(buf));
    assert buf[0..] == buf;
    while cursor < |buf|
      invariant 0 <= cursor <= |buf|
      invariant Parse(buf) == Behind(edits, Parse(buf[cursor..]))
    {
      BehindEnds(edits, Parse(buf));
      match FirstFrame(buf[cursor..])
      case Torn =>
        return Ok(edits);
      case Bad =>
        return Corrupt;
      case Whole(e, end) =>
        assert buf[cursor..][end..] == buf[cursor + end..];
        BehindBehind(edits, e, Parse(buf[cursor + end..]));
        edits := edits + [e];
        cursor := cursor + end;
    }
    BehindEnds(edits, Parse(buf));
    return Ok(edits);
  }

  lemma {:induction false} FramesConcat(a: seq<Edit>, b: seq<Edit>)
    requires AllEncodable(a) && AllEncodable(b)
    ensures AllEncodable(a + b) && Frames(a + b) == Frames(a) + Frames(b)
  {
    hide Frame, Encodable;
    if a == [] {
      assert a + b == b;
    } else {
      FramesConcat(a[1..], b);
      assert (a + b)[1..] == a[1..] + b;
    }
  }

  /** A printed log is parsed back exactly when none of its edits records an empty prefix. */
  lemma {:induction false} LogRoundTrip(edits: seq<Edit>)
    requires AllEncodable(edits)
    ensures Parse(Frames(edits)) == Ok(edits) <==> AllFine(edits)
  {
    hide FirstFrame, Frame, Encodable, Fine;
    if edits != [] {
      LogRoundTrip(edits[1..]);
      var f, rest := Frame(edits[0]), Frames(edits[1..]);
      FrameRoundTrip(edits[0], rest);
      NotEmpty(edits[0]);
      assert (f + rest)[|f|..] == rest;
      assert [edits[0]] + edits[1..] == edits;
      FineHead(edits);
      if Fine(edits[0]) {
        BehindInjective(edits[0], Parse(rest), edits[1..]);
      } else {
        BadFrame(edits[0], rest);
      }
    }
  }

  lemma FineHead(edits: seq<Edit>)
    requires edits != []
    ensures AllFine(edits) <==> Fine(edits[0]) && AllFine(edits[1..])
  {
    hide Fine;
    if Fine(edits[0]) && AllFine(edits[1..]) {
      forall i | 0 <= i < |edits|
        ensures Fine(edits[i])
      {
        assert i > 0 ==> edits[i] == edits[1..][i - 1];
      }
    }
  }

  lemma BehindInjective(e: Edit, rest: Result<seq<Edit>>, edits: seq<Edit>)
    ensures Behind([e], rest) == Ok([e] + edits) <==> rest == Ok(edits)
  {
    if Behind([e], rest) == Ok([e] + edits) {
      assert ([e] + rest.value)[1..] == rest.value && ([e] + edits)[1..] == edits;
    }
  }

  lemma BadFrame(e: Edit, post: seq<byte>)
    requires Encodable(e) && !Fine(e)
    ensures FirstFrame(Frame(e) + post) == Bad
  {
    hide TakeEdit, Payload, OpByte, Crc, Trailer, Fine;
    var t := Trailer(Crc(0, Body(e)));
    FrameSlices(OpByte(e), Payload(e), t, post);
    TakesNothing(e, t + post);
  }

  lemma NotEmpty(e: Edit)
    requires Encodable(e)
    ensures |Frame(e)| >= OVERHEAD
  {
  }

  // ---- The manifest ----

  /** Reading a manifest file: empty is fine, anything not beginning with the magic is refused. */
  function ReadFile(file: seq<byte>): Result<seq<Edit>> {
    if file == [] then Ok([])
    else if !(MAGIC <= file) then Corrupt
    else Parse(file)
  }

  lemma FileRoundTrip(edits: seq<Edit>)
    requires AllEncodable(edits)
    ensures ReadFile(Frames(edits)) == Ok(edits) <==> AllFine(edits)
  {
    hide Frame, Parse, Encodable, Fine;
    LogRoundTrip(edits);
    if edits != [] {
      FrameMagic(edits[0]);
      assert Frames(edits)[..4] == Frame(edits[0])[..4];
    }
  }

  lemma FrameMagic(e: Edit)
    requires Encodable(e)
    ensures |Frame(e)| >= OVERHEAD && Frame(e)[..4] == MAGIC
  {
    hide Payload, Crc, Trailer;
  }

  /** Every edit of a batch is printable and meets a state it is proper for. */
  ghost predicate WellFormed(m: Members, edits: seq<Edit>) {
    AllFine(edits) && forall i :: 0 <= i < |edits| ==> Proper(ApplyAll(m, edits[..i]), edits[i])
  }

  lemma {:induction false} BatchKeepsConsistent(m: Members, edits: seq<Edit>)
    requires Consistent(m) && WellFormed(m, edits)
    ensures Consistent(ApplyAll(m, edits))
  {
    hide Consistent, ApplyEdit, Proper, Fine;
    if edits != [] {
      var n := |edits| - 1;
      forall i | 0 <= i < n
        ensures Proper(ApplyAll(m, edits[..n][..i]), edits[..n][i])
      {
        assert edits[..n][..i] == edits[..i];
      }
      BatchKeepsConsistent(m, edits[..n]);
      EditKeepsConsistentIff(ApplyAll(m, edits[..n]), edits[n]);
    }
  }

  /** Keys and prefixes in memory fit their length fields. */
  ghost predicate Compact(m: Members) {
    && (forall id: u64 :: id in m.meta ==> |m.meta[id].minKey| <= U32_MAX && |m.meta[id].maxKey| <= U32_MAX)
    && (forall p :: p in m.dropped ==> |p| <= U32_MAX)
  }

  lemma {:induction false} BatchKeepsCompact(m: Members, edits: seq<Edit>)
    requires Compact(m) && AllEncodable(edits)
    ensures Compact(ApplyAll(m, edits))
  {
    hide ApplyEdit, Compact, Encodable;
    if edits != [] {
      BatchKeepsCompact(m, edits[..|edits| - 1]);
      EditKeepsCompact(ApplyAll(m, edits[..|edits| - 1]), edits[|edits| - 1]);
    }
  }

  lemma EditKeepsCompact(m: Members, e: Edit)
    requires Compact(m) && Encodable(e)
    ensures Compact(ApplyEdit(m, e))
  {
  }

  lemma SnapshotEncodable(m: Members)
    requires Compact(m)
    ensures AllEncodable(ToEdits(m))
  {
    hide LevelEdits, DropEdits;
    LevelEditsList(m);
    DropEditsEncodable(Ascending(m.dropped));
    var adds := LevelEdits(m, LevelsInOrder(m.levels.Keys));
    forall i | 0 <= i < |adds|
      ensures Encodable(adds[i])
    {
      assert adds[i] in adds;
    }
  }

  lemma {:induction false} DropEditsEncodable(prefixes: seq<Key>)
    requires forall p :: p in prefixes ==> |p| <= U32_MAX
    ensures AllEncodable(DropEdits(prefixes))
  {
    if prefixes != [] {
      DropEditsEncodable(prefixes[..|prefixes| - 1]);
    }
  }

  /** Prefixes and keys in memory are such that a snapshot of it can be printed. */
  ghost predicate Printable(m: Members) {
    && (forall id: u64 :: id in m.meta ==> |m.meta[id].minKey| <= U32_MAX && |m.meta[id].maxKey| <= U32_MAX)
    && (forall p :: p in m.dropped ==> 0 < |p| <= U32_MAX)
  }

  lemma EditKeepsPrintable(m: Members, e: Edit)
    requires Printable(m) && Fine(e)
    ensures Printable(ApplyEdit(m, e))
  {
  }

  lemma {:induction false} BatchKeepsPrintable(m: Members, edits: seq<Edit>)
    requires Printable(m) && AllFine(edits)
    ensures Printable(ApplyAll(m, edits))
  {
    hide Printable, ApplyEdit, Fine;
    if edits != [] {
      BatchKeepsPrintable(m, edits[..|edits| - 1]);
      EditKeepsPrintable(ApplyAll(m, edits[..|edits| - 1]), edits[|edits| - 1]);
    }
  }

  lemma {:induction false} DropEditsFine(prefixes: seq<Key>)
    requires forall p :: p in prefixes ==> 0 < |p| <= U32_MAX
    ensures AllFine(DropEdits(prefixes))
  {
    if prefixes != [] {
      DropEditsFine(prefixes[..|prefixes| - 1]);
    }
  }

  lemma SnapshotFine(m: Members)
    requires Printable(m)
    ensures AllFine(ToEdits(m))
  {
    hide LevelEdits, DropEdits;
    LevelEditsList(m);
    DropEditsFine(Ascending(m.dropped));
    var adds := LevelEdits(m, LevelsInOrder(m.levels.Keys));
    forall i | 0 <= i < |adds|
      ensures Fine(adds[i])
    {
      assert adds[i] in adds;
    }
  }

  /** What printing, threshold and rewriting make of a log. */
  function NextLog(log: seq<Edit>, count: nat, m: Members, edits: seq<Edit>): seq<Edit> {
    if count + |edits| >= SNAPSHOT_THRESHOLD then ToEdits(ApplyAll(m, edits)) else log + edits
  }

  // ---- Runs ----

  datatype Event = Batch(edits: seq<Edit>) | Reopen

  /** The log on disk, the edits counted against the threshold, and memory. */
  datatype State = State(log: seq<Edit>, count: nat, members: Members)

  ghost predicate Allowed(s: State, e: Event) {
    e.Batch? ==> e.edits != [] && WellFormed(s.members, e.edits)
  }

  /** Reopening forgets memory and rebuilds it from the file. */
  function After(s: State, e: Event): State {
    match e
    case Batch(edits) =>
      State(NextLog(s.log, s.count, s.members, edits),
            if s.count + |edits| >= SNAPSHOT_THRESHOLD then 0 else s.count + |edits|,
            ApplyAll(s.members, edits))
    case Reopen =>
      var read := if AllEncodable(s.log) then ReadFile(Frames(s.log)) else Corrupt;
      if read.Ok? then State(read.value, |read.value|, ApplyAll(EMPTY, read.value)) else s
  }

  ghost predicate Agrees(s: State) {
    && AllFine(s.log) && ApplyAll(EMPTY, s.log) == s.members
    && Consistent(s.members) && Printable(s.members)
  }

  /** `s` is reached by the events, each allowed where it happens. */
  ghost predicate Reaches(events: seq<Event>, s: State) {
    if events == [] then s == State([], 0, EMPTY)
    else
      exists t: State :: Reaches(events[..|events| - 1], t) && AllFine(t.log)
                      && Allowed(t, events[|events| - 1]) && s == After(t, events[|events| - 1])
  }

  lemma BatchAgrees(s: State, edits: seq<Edit>)
    requires Agrees(s) && WellFormed(s.members, edits)
    ensures Agrees(After(s, Batch(edits)))
  {
    hide Consistent, Printable, Fine, Proper, ToEdits, ApplyAll;
    ApplyConcat(EMPTY, s.log, edits);
    BatchKeepsConsistent(s.members, edits);
    BatchKeepsPrintable(s.members, edits);
    var m := ApplyAll(s.members, edits);
    SnapshotFine(m);
    SnapshotReplayIff(m);
  }

  /** In every run of batches, automatic rewrites and reopenings, the file replays to what memory holds. */
  lemma {:induction false} FileAgreesInEveryRun(events: seq<Event>, s: State)
    requires Reaches(events, s)
    ensures Agrees(s)
    ensures ReadFile(Frames(s.log)) == Ok(s.log) && ApplyAll(EMPTY, s.log) == s.members
  {
    hide Consistent, Printable, ReadFile, Fine, WellFormed, NextLog;
    if events == [] {
      FreshAgrees();
    } else {
      var e := events[|events| - 1];
      var t: State :| Reaches(events[..|events| - 1], t) && AllFine(t.log) && Allowed(t, e) && s == After(t, e);
      FileAgreesInEveryRun(events[..|events| - 1], t);
      match e {
        case Batch(edits) => BatchAgrees(t, edits);
        case Reopen =>
      }
    }
    FileRoundTrip(s.log);
  }

  lemma FreshAgrees()
    ensures Agrees(State([], 0, EMPTY))
  {
  }

  /** Memory is what the batches alone, without rewrites or reopenings, make of an empty set. */
  function EditsOf(events: seq<Event>): seq<Edit> {
    if events == [] then []
    else
      var e := events[|events| - 1];
      EditsOf(events[..|events| - 1]) + if e.Batch? then e.edits else []
  }

  lemma {:induction false} RewritesInvisible(events: seq<Event>, s: State)
    requires Reaches(events, s)
    ensures s.members == ApplyAll(EMPTY, EditsOf(events))
  {
    hide ReadFile, NextLog, Allowed, Agrees, ApplyAll;
    if events == [] {
      NothingApplied(EMPTY);
    } else {
      var front, e := events[..|events| - 1], events[|events| - 1];
      var t: State :| Reaches(front, t) && AllFine(t.log) && Allowed(t, e) && s == After(t, e);
      RewritesInvisible(front, t);
      FileAgreesInEveryRun(front, t);
      match e {
        case Batch(edits) => ApplyConcat(EMPTY, EditsOf(front), edits);
        case Reopen => assert EditsOf(front) + [] == EditsOf(front);
      }
    }
  }

  class ManifestFile {
    var file: seq<byte>
    var versionSet: VersionSet
    var editCount: nat

    /** The edits the file holds. */
    ghost var log: seq<Edit>

    ghost function AsState(): State
      reads this, versionSet
    {
      State(log, editCount, versionSet.Contents())
    }

    /** The file holds `log`, the indexes are current, and memory can be printed. */
    ghost predicate Valid()
      reads this, versionSet
    {
      && AllEncodable(log) && file == Frames(log)
      && versionSet.Indexed() && Compact(versionSet.Contents())
    }

    /** Replaying the log gives what memory holds. */
    ghost predicate InStep()
      reads this, versionSet
    {
      versionSet.Contents() == ApplyAll(EMPTY, log)
    }

    constructor Create()
      ensures Valid() && InStep() && fresh(versionSet) && AsState() == State([], 0, EMPTY)
    {
      file, editCount, log := [], 0, [];
      versionSet := new VersionSet();
    }

    constructor FromEdits(bytes: seq<byte>, edits: seq<Edit>, vs: VersionSet)
      ensures file == bytes && log == edits && editCount == |edits| && versionSet == vs
    {
      file, log, editCount, versionSet := bytes, edits, |edits|, vs;
    }

    /** Opens a manifest file by replaying its edits. */
    static method Open(bytes: seq<byte>) returns (result: Result<ManifestFile>)
      ensures result.Ok? <==> ReadFile(bytes).Ok?
      ensures result.Ok? ==>
                var (m, edits) := (result.value, ReadFile(bytes).value);
                && fresh(m) && fresh(m.versionSet)
                && m.file == bytes && m.AsState() == State(edits, |edits|, ApplyAll(EMPTY, edits)) && m.InStep()
                && (AllEncodable(edits) && bytes == Frames(edits) ==> m.Valid())
    {
      hide IsFilesByKey, IsFileLevel, ApplyAll, Parse, Frames, Encodable, Compact;
      var edits: Result<seq<Edit>> := Ok([]);
      if bytes != [] {
        if !(MAGIC <= bytes) {
          return Corrupt;
        }
        edits := DecodeAll(bytes);
        if !edits.Ok? {
          return Corrupt;
        }
      }
      var start := new VersionSet();
      var vs := start.Applied(edits.value);
      var m := new ManifestFile.FromEdits(bytes, edits.value, vs);
      EmptyCompact();
      if AllEncodable(edits.value) {
        BatchKeepsCompact(EMPTY, edits.value);
      }
      return Ok(m);
    }

    /** In step and without empty prefixes, decoding and replaying the file gives what memory holds,
        the key index included; and the level index too when no file is in two levels. */
    lemma LogAgreesWithMemory(filesByKey: seq<KeyEntry>, fileLevel: seq<LevelEntry>)
      requires Valid() && InStep() && AllFine(log)
      requires IsFilesByKey(ApplyAll(EMPTY, log).meta, filesByKey) && IsFileLevel(ApplyAll(EMPTY, log).levels, fileLevel)
      ensures ReadFile(file).Ok? && ApplyAll(EMPTY, ReadFile(file).value) == versionSet.Contents()
      ensures filesByKey == versionSet.filesByKey
      ensures (forall id: u64, l: u32, l': u32 ::
                InLevel(versionSet.levels, l, id) && InLevel(versionSet.levels, l', id) ==> l == l') ==>
              fileLevel == versionSet.fileLevel
    {
      hide ApplyAll, Parse, Frames, Compact, InLevel, IsFilesByKey, IsFileLevel;
      FileRoundTrip(log);
      IndexUnique(versionSet.meta, filesByKey, versionSet.filesByKey);
      if forall id: u64, l: u32, l': u32 ::
           InLevel(versionSet.levels, l, id) && InLevel(versionSet.levels, l', id) ==> l == l' {
        FileLevelUnique(versionSet.levels, fileLevel, versionSet.fileLevel);
      }
    }

    /**
     An oversized field changes nothing. Otherwise the batch reaches file and memory, and past the
     threshold the log becomes a snapshot. A manifest in step stays in step exactly when no snapshot
     is taken or memory is consistent.
     */
    method AppendBatch(edits: seq<Edit>) returns (result: Result<()>)
      requires Valid()
      modifies this
      ensures Valid() && (versionSet == old(versionSet) || fresh(versionSet))
      ensures result.Ok? <==> AllEncodable(edits)
      ensures !result.Ok? ==> result == OutOfRange && AsState() == old(AsState())
      ensures result.Ok? ==> AsState() == if edits == [] then old(AsState()) else After(old(AsState()), Batch(edits))
      ensures result.Ok? && edits != [] && old(InStep()) ==>
                (InStep() <==> old(editCount) + |edits| < SNAPSHOT_THRESHOLD || Consistent(versionSet.Contents()))
    {
      hide Consistent, Compact, IsFilesByKey, IsFileLevel, Frames, Encodable;
      if edits == [] {
        return Ok(());
      }
      var bytes := EncodeAll(edits);
      if !bytes.Ok? {
        return OutOfRange;
      }
      FramesConcat(log, edits);
      file := file + bytes.value;
      ApplyConcat(EMPTY, log, edits);
      BatchKeepsCompact(versionSet.Contents(), edits);
      log := log + edits;
      versionSet := versionSet.Applied(edits);
      editCount := editCount + |edits|;
      if editCount >= SNAPSHOT_THRESHOLD {
        Rewrite();
      }
      return Ok(());
    }

    /** The log becomes a snapshot of memory, which it replays to exactly when memory is consistent. */
    method Rewrite()
      requires Valid()
      modifies this`file, this`editCount, this`log
      ensures Valid() && log == ToEdits(versionSet.Contents()) && editCount == 0
      ensures InStep() <==> Consistent(versionSet.Contents())
    {
      hide Consistent, Compact, IsFilesByKey, IsFileLevel, Frames, Encodable, ToEdits, ApplyAll;
      var edits := ToEdits(versionSet.Contents());
      SnapshotEncodable(versionSet.Contents());
      SnapshotReplayIff(versionSet.Contents());
      file := Frames(edits);
      log := edits;
      editCount := 0;
    }
  }

  /** The frames of a batch, unless a field of it is oversized. */
  method EncodeAll(edits: seq<Edit>) returns (bytes: Result<seq<byte>>)
    ensures bytes.Ok? <==> AllEncodable(edits)
    ensures bytes.Ok? ==> bytes.value == Frames(edits)
  {
    hide Frames, Encodable, Frame;
    var out: seq<byte> := [];
    NoFrames();
    for i := 0 to |edits|
      invariant AllEncodable(edits[..i]) && out == Frames(edits[..i])
    {
      if !Encodable(edits[i]) {
        return OutOfRange;
      }
      FramesNext(edits, i);
      out := out + Frame(edits[i]);
    }
    assert edits[..|edits|] == edits;
    return Ok(out);
  }

  lemma EmptyCompact()
    ensures Compact(EMPTY)
  {
  }

  lemma NoFrames()
    ensures Frames([]) == []
  {
  }

  lemma FramesNext(edits: seq<Edit>, i: nat)
    requires i < |edits| && AllEncodable(edits[..i]) && Encodable(edits[i])
    ensures AllEncodable(edits[..i + 1]) && Frames(edits[..i + 1]) == Frames(edits[..i]) + Frame(edits[i])
  {
    hide Frame, Encodable;
    FramesConcat(edits[..i], [edits[i]]);
    assert edits[..i] + [edits[i]] == edits[..i + 1];
    assert [edits[i]][1..] == [];
    assert Frames([edits[i]]) == Frame(edits[i]) + [];
  }

  lemma IndexUnique(meta: map<u64, Meta>, a: seq<KeyEntry>, b: seq<KeyEntry>)
    requires IsFilesByKey(meta, a) && IsFilesByKey(meta, b)
    ensures a == b
  {
    hide EntriesAscend;
    AscendingUnique(a, b);
  }
}
