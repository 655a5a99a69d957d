/**
 The write-ahead log's frame format: printer, parser and their round trip.

 A frame is a 21-byte header, the key, the value and a checksum trailer. A length field holding
 0xFFFF_FFFF means "absent", for keys as well as for values.
 */
module Wal {
  import opened Bytes
  import opened LittleEndian
  import opened Crc32c

  datatype OpType = PutOp | DeleteOp | CommitOp | AbortOp

  datatype Record = Record(txId: u64, op: OpType, key: Key, value: Option<Value>)

  const MAGIC: seq<byte> := [0x57, 0x41, 0x4C, 0x31]
  const HEADER_LEN: nat := 21
  const CRC_LEN: nat := 4
  const NONE: u32 := 0xFFFF_FFFF

  function OpByte(op: OpType): byte {
    match op
    case PutOp => 1
    case DeleteOp => 2
    case CommitOp => 3
    case AbortOp => 4
  }

  function OpOf(b: byte): Option<OpType> {
    if b == 1 then Some(PutOp)
    else if b == 2 then Some(DeleteOp)
    else if b == 3 then Some(CommitOp)
    else if b == 4 then Some(AbortOp)
    else None
  }

  // ---- Printing ----

  /** Lengths the printer accepts. */
  predicate Encodable(r: Record) {
    |r.key| <= U32_MAX && (r.value.Some? ==> |r.value.value| <= U32_MAX)
  }

  /** Lengths the parser can tell from the "absent" marker. */
  predicate Fits(r: Record) {
    |r.key| < NONE && (r.value.Some? ==> |r.value.value| < NONE)
  }

  function Payload(r: Record): seq<byte> {
    if r.value.Some? then r.value.value else []
  }

  function ValueField(r: Record): u32
    requires Encodable(r)
  {
    if r.value.Some? then |r.value.value| else NONE
  }

  function Header(r: Record): (h: seq<byte>)
    requires Encodable(r)
    ensures |h| == HEADER_LEN
  {
    MAGIC + Le64(r.txId) + [OpByte(r.op)] + Le32(|r.key|) + Le32(ValueField(r))
  }

  function Body(r: Record): (b: seq<byte>)
    requires Encodable(r)
    ensures |b| == HEADER_LEN + |r.key| + |Payload(r)|
  {
    Header(r) + r.key + Payload(r)
  }

  function FrameLen(r: Record): nat {
    HEADER_LEN + |r.key| + |Payload(r)| + CRC_LEN
  }

  function Frame(r: Record): (f: seq<byte>)
    requires Encodable(r)
    ensures |f| == FrameLen(r)
  {
    Body(r) + Trailer(Crc(0, Body(r)))
  }

  /** The documented layout of a frame, field by field: the magic "WAL1", the transaction id, the
      operation, the two lengths, the key, the value, and the checksum of all that, integers with the
      least significant byte first. */
  lemma FrameLayout(r: Record)
    requires Encodable(r)
    ensures var f, k := Frame(r), |r.key|;
            var v := if r.value.Some? then r.value.value else [];
            && |f| == 25 + k + |v|
            && f[..4] == [0x57, 0x41, 0x4C, 0x31]
            && Stores(f, 4, 8, r.txId)
            && f[12] == (match r.op case PutOp => 1 case DeleteOp => 2 case CommitOp => 3 case AbortOp => 4)
            && Stores(f, 13, 4, k)
            && Stores(f, 17, 4, if r.value.Some? then |v| else 0xFFFF_FFFF)
            && f[21..21 + k] == r.key
            && f[21 + k..21 + k + |v|] == v
            && f[21 + k + |v|..] == Trailer(Crc(0, f[..21 + k + |v|]))
  {
    hide Crc, Stores, Encode;
    var f, h := Frame(r), Header(r);
    var t := Trailer(Crc(0, Body(r)));
    var tail := r.key + Payload(r) + t;
    var op, kl, vl := [OpByte(r.op)], Le32(|r.key|), Le32(ValueField(r));
    EncodeStores(MAGIC, r.txId, 8, op + kl + vl + tail);
    EncodeStores(MAGIC + Le64(r.txId) + op, |r.key|, 4, vl + tail);
    EncodeStores(MAGIC + Le64(r.txId) + op + kl, ValueField(r), 4, tail);
    assert f == h + tail;
    assert f == MAGIC + Le64(r.txId) + (op + kl + vl + tail);
    assert f == (MAGIC + Le64(r.txId) + op) + kl + (vl + tail);
    assert f[..21 + |r.key| + |Payload(r)|] == Body(r);
  }

  // ---- Parsing ----

  /** A truncated, foreign or damaged frame is torn; an unknown operation is an error. */
  datatype Decoded = Torn | Bad | Whole(record: Record, end: nat)

  function TxField(s: seq<byte>): u64
    requires |s| >= HEADER_LEN
  {
    ReadLe64(s[4..12])
  }

  function KeyLenField(s: seq<byte>): u32
    requires |s| >= HEADER_LEN
  {
    ReadLe32(s[13..17])
  }

  function ValueLenField(s: seq<byte>): u32
    requires |s| >= HEADER_LEN
  {
    ReadLe32(s[17..21])
  }

  /** The length a header field stands for. */
  function FieldLen(field: u32): nat {
    if field == NONE then 0 else field
  }

  /** Where the body of the frame that begins `s` ends, by its header. */
  function BodyEnd(s: seq<byte>): nat
    requires |s| >= HEADER_LEN
  {
    HEADER_LEN + FieldLen(KeyLenField(s)) + FieldLen(ValueLenField(s))
  }

  function FirstRecord(s: seq<byte>, op: OpType): Record
    requires |s| >= HEADER_LEN && BodyEnd(s) <= |s|
  {
    var keyEnd := HEADER_LEN + FieldLen(KeyLenField(s));
    Record(TxField(s), op, s[HEADER_LEN..keyEnd],
           if ValueLenField(s) == NONE then None else Some(s[keyEnd..BodyEnd(s)]))
  }

  predicate ChecksumMatches(s: seq<byte>, end: nat)
    requires end + CRC_LEN <= |s|
  {
    s[end..end + CRC_LEN] == Trailer(Crc(0, s[..end]))
  }

  /** The frame that begins `s`. */
  function FirstFrame(s: seq<byte>): (d: Decoded)
    ensures d.Whole? ==> HEADER_LEN + CRC_LEN <= d.end <= |s|
  {
    if |s| < HEADER_LEN then Torn
    else if s[..4] != MAGIC then Torn
    else if OpOf(s[12]).None? then Bad
    else if BodyEnd(s) + CRC_LEN > |s| then Torn
    else if !ChecksumMatches(s, BodyEnd(s)) then Torn
    else Whole(FirstRecord(s, OpOf(s[12]).value), BodyEnd(s) + CRC_LEN)
  }

  /** The frame at `cursor`, with the offset at which the next one starts. */
  function DecodeFrame(buf: seq<byte>, cursor: nat): (d: Decoded)
    ensures d.Whole? ==> cursor + HEADER_LEN + CRC_LEN <= d.end <= |buf|
  {
    if cursor > |buf| then Torn
    else
      var d := FirstFrame(buf[cursor..]);
      if d.Whole? then d.(end := cursor + d.end) else d
  }

  // ---- Round trip ----

  lemma HeaderSlices(m: seq<byte>, t: seq<byte>, o: byte, k: seq<byte>, v: seq<byte>, rest: seq<byte>)
    requires |m| == 4 && |t| == 8 && |k| == 4 && |v| == 4
    ensures var s := (m + t + [o] + k + v) + rest;
            s[..4] == m && s[4..12] == t && s[12] == o && s[13..17] == k && s[17..21] == v
  {
  }

  lemma HeaderFields(r: Record, rest: seq<byte>)
    requires Encodable(r)
    ensures var s := Header(r) + rest;
            && s[..4] == MAGIC
            && TxField(s) == r.txId
            && OpOf(s[12]) == Some(r.op)
            && KeyLenField(s) == |r.key|
            && ValueLenField(s) == ValueField(r)
  {
    hide ReadLe32, ReadLe64, Le32, Le64;
    HeaderSlices(MAGIC, Le64(r.txId), OpByte(r.op), Le32(|r.key|), Le32(ValueField(r)), rest);
    ReadsBack64(r.txId);
    ReadsBack32(|r.key|);
    ReadsBack32(ValueField(r));
  }

  lemma Extent(r: Record, rest: seq<byte>)
    requires Fits(r)
    ensures BodyEnd(Header(r) + rest) == |Body(r)|
  {
    hide KeyLenField, ValueLenField, Header;
    HeaderFields(r, rest);
  }

  /** The slices the parser takes out of `header + key + payload + trailer`. */
  lemma Slices(h: seq<byte>, key: seq<byte>, payload: seq<byte>, t: seq<byte>, post: seq<byte>)
    requires |h| == HEADER_LEN && |t| == CRC_LEN
    ensures var s := (h + key + payload + t) + post;
            var k, e := HEADER_LEN + |key|, HEADER_LEN + |key| + |payload|;
            && s == h + s[HEADER_LEN..]
            && s[HEADER_LEN..k] == key
            && s[k..e] == payload
            && s[..e] == h + key + payload
            && s[e..e + CRC_LEN] == t
  {
  }

  lemma FrameShape(r: Record)
    requires Encodable(r)
    ensures Body(r) == Header(r) + r.key + Payload(r)
    ensures Frame(r) == Header(r) + r.key + Payload(r) + Trailer(Crc(0, Body(r)))
    ensures Frame(r)[..HEADER_LEN] == Header(r)
  {
    hide Crc, Trailer, Header;
  }

  lemma FrameMagic(r: Record)
    requires Encodable(r)
    ensures |Frame(r)| >= 4 && Frame(r)[..4] == MAGIC
  {
    hide Header, Frame, TxField, KeyLenField, ValueLenField, OpOf;
    FrameShape(r);
    HeaderFields(r, Frame(r)[HEADER_LEN..]);
    assert Frame(r) == Header(r) + Frame(r)[HEADER_LEN..];
  }

  lemma FirstFrameDecodes(r: Record, post: seq<byte>)
    requires Fits(r)
    ensures FirstFrame(Frame(r) + post) == Whole(r, |Frame(r)|)
  {
    hide Crc, Trailer, TxField, KeyLenField, ValueLenField, Header, BodyEnd, Body, Frame, OpOf;
    var s := Frame(r) + post;
    FrameShape(r);
    Slices(Header(r), r.key, Payload(r), Trailer(Crc(0, Body(r))), post);
    HeaderFields(r, s[HEADER_LEN..]);
    Extent(r, s[HEADER_LEN..]);
  }

  lemma FrameDecodes(pre: seq<byte>, r: Record, post: seq<byte>)
    requires Fits(r)
    ensures DecodeFrame(pre + Frame(r) + post, |pre|) == Whole(r, |pre| + |Frame(r)|)
  {
    hide FirstFrame, Frame;
    assert (pre + Frame(r) + post)[|pre|..] == Frame(r) + post;
    FirstFrameDecodes(r, post);
  }

  lemma OversizeLost(r: Record, post: seq<byte>)
    requires Encodable(r) && !Fits(r)
    ensures var d := FirstFrame(Frame(r) + post);
            d.Whole? ==> d.record != r
  {
    hide Frame, Header, KeyLenField, ValueLenField, TxField, ChecksumMatches;
    var s := Frame(r) + post;
    FrameShape(r);
    assert s == Header(r) + s[HEADER_LEN..];
    HeaderFields(r, s[HEADER_LEN..]);
  }

  /** A printed frame is read back, wherever it stands, exactly when its lengths avoid the marker. */
  lemma FrameRoundTrip(pre: seq<byte>, r: Record, post: seq<byte>)
    requires Encodable(r)
    ensures DecodeFrame(pre + Frame(r) + post, |pre|) == Whole(r, |pre| + |Frame(r)|) <==> Fits(r)
  {
    hide FirstFrame, Frame;
    if Fits(r) {
      FrameDecodes(pre, r, post);
    } else {
      assert (pre + Frame(r) + post)[|pre|..] == Frame(r) + post;
      OversizeLost(r, post);
    }
  }

  /** A value of exactly 0xFFFF_FFFF bytes is accepted by the printer and comes back as no value. */
  lemma MarkerCollision(r: Record, pre: seq<byte>, post: seq<byte>)
    requires r.value.Some? && |r.value.value| == NONE && |r.key| < NONE
    ensures Encodable(r) && DecodeFrame(pre + Frame(r) + post, |pre|) != Whole(r, |pre| + |Frame(r)|)
  {
    hide DecodeFrame, Frame;
    FrameRoundTrip(pre, r, post);
  }

  /** A frame cut anywhere before its end is torn. */
  lemma CutFrame(r: Record, m: nat)
    requires Fits(r) && m < |Frame(r)|
    ensures FirstFrame(Frame(r)[..m]) == Torn
  {
    hide Frame, Header, BodyEnd, ChecksumMatches, OpOf;
    var s := Frame(r)[..m];
    if m >= HEADER_LEN {
      FrameShape(r);
      assert s == Header(r) + s[HEADER_LEN..];
      HeaderFields(r, s[HEADER_LEN..]);
      Extent(r, s[HEADER_LEN..]);
    }
  }

  // ---- Damage ----

  /** The bytes at which a frame states its lengths. */
  predicate SparesLengths(at: nat) {
    at + 4 <= 13 || at >= HEADER_LEN
  }

  lemma FrameIsCodeword(r: Record)
    requires Encodable(r)
    ensures Crc(0, Frame(r)) == 0
  {
    TrailerMatches(0, Body(r), Trailer(Crc(0, Body(r))));
  }

  /** What the parser accepts is a codeword. */
  lemma AcceptedIsCodeword(s: seq<byte>)
    requires FirstFrame(s).Whole?
    ensures Crc(0, s[..FirstFrame(s).end]) == 0
  {
    hide Crc, Trailer, BodyEnd;
    var end := BodyEnd(s);
    TrailerMatches(0, s[..end], s[end..end + CRC_LEN]);
    assert s[..end] + s[end..end + CRC_LEN] == s[..end + CRC_LEN];
  }

  /** Damage to four consecutive bytes of a frame, other than its length fields, is always noticed. */
  lemma DamageRejected(pre: seq<byte>, r: Record, post: seq<byte>, a: seq<byte>, u: seq<byte>, v: seq<byte>, b: seq<byte>)
    requires Fits(r) && Frame(r) == a + u + b
    requires |u| == 4 && |v| == 4 && u != v && SparesLengths(|a|)
    ensures !DecodeFrame(pre + (a + v + b) + post, |pre|).Whole?
  {
    hide Crc, Frame, FirstFrame;
    DamagedVerdict(r, post, a, u, v, b);
    var s := (a + v + b) + post;
    assert (pre + (a + v + b) + post)[|pre|..] == s;
  }

  lemma NotAccepted(r: Record, post: seq<byte>, a: seq<byte>, u: seq<byte>, v: seq<byte>, b: seq<byte>)
    requires Fits(r) && Frame(r) == a + u + b
    requires |u| == 4 && |v| == 4 && u != v && SparesLengths(|a|)
    ensures !FirstFrame((a + v + b) + post).Whole?
  {
    hide Crc, Frame, FirstFrame;
    FrameIsCodeword(r);
    WindowChangesCrc(0, a, u, v, b);
    DamagedExtent(r, post, a, u, v, b);
    if FirstFrame((a + v + b) + post).Whole? {
      AcceptedIsCodeword((a + v + b) + post);
    }
  }

  /** The damage made the operation byte one that does not exist. */
  predicate BreaksOp(at: nat, v: seq<byte>)
    requires |v| == 4
  {
    at == 9 && v[3] != 1 && v[3] != 2 && v[3] != 3 && v[3] != 4
  }

  /** What such damage is taken for: the end of the log, except that an unknown operation is an error. */
  lemma DamagedVerdict(r: Record, post: seq<byte>, a: seq<byte>, u: seq<byte>, v: seq<byte>, b: seq<byte>)
    requires Fits(r) && Frame(r) == a + u + b
    requires |u| == 4 && |v| == 4 && u != v && SparesLengths(|a|)
    ensures FirstFrame((a + v + b) + post) == if BreaksOp(|a|, v) then Bad else Torn
  {
    hide Crc, Frame, Header, ChecksumMatches, FirstRecord, BodyEnd, TxField, KeyLenField, ValueLenField;
    NotAccepted(r, post, a, u, v, b);
    FrameExtent(r);
    FrameShape(r);
    HeaderFields(r, Frame(r)[HEADER_LEN..]);
    var s, f := (a + v + b) + post, Frame(r);
    assert f == Header(r) + f[HEADER_LEN..];
    WindowBytes(f, post, a, u, v, b);
  }

  lemma WindowBytes(f: seq<byte>, post: seq<byte>, a: seq<byte>, u: seq<byte>, v: seq<byte>, b: seq<byte>)
    requires f == a + u + b && |u| == 4 && |v| == 4 && |f| >= HEADER_LEN && SparesLengths(|a|)
    ensures var s := (a + v + b) + post;
            && |s| >= |f|
            && (|a| >= 4 ==> s[..4] == f[..4])
            && s[12] == (if |a| == 9 then v[3] else f[12])
  {
  }

  /** The damaged frame still states, and spans, the same length. */
  lemma DamagedExtent(r: Record, post: seq<byte>, a: seq<byte>, u: seq<byte>, v: seq<byte>, b: seq<byte>)
    requires Fits(r) && Frame(r) == a + u + b && |u| == 4 && |v| == 4 && SparesLengths(|a|)
    ensures var s := (a + v + b) + post;
            FirstFrame(s).Whole? ==> s[..FirstFrame(s).end] == a + v + b
  {
    hide Frame, Header, ChecksumMatches, FirstRecord, OpOf, BodyEnd;
    FrameExtent(r);
    WindowApart(post, a, u, v, b);
    SameExtent((a + v + b) + post, a + u + b);
  }

  lemma FrameExtent(r: Record)
    requires Fits(r)
    ensures BodyEnd(Frame(r)) + CRC_LEN == |Frame(r)|
  {
    hide Frame, Header, BodyEnd;
    FrameShape(r);
    var f := Frame(r);
    assert f == Header(r) + f[HEADER_LEN..];
    Extent(r, f[HEADER_LEN..]);
  }

  lemma SameExtent(s: seq<byte>, f: seq<byte>)
    requires |s| >= HEADER_LEN && |f| >= HEADER_LEN && s[13..17] == f[13..17] && s[17..21] == f[17..21]
    ensures BodyEnd(s) == BodyEnd(f)
  {
    hide ReadLe32;
  }

  /** What a window that spares the length fields leaves alone. */
  lemma WindowApart(post: seq<byte>, a: seq<byte>, u: seq<byte>, v: seq<byte>, b: seq<byte>)
    requires |u| == 4 && |v| == 4 && SparesLengths(|a|) && |a + u + b| >= HEADER_LEN
    ensures var s, f := (a + v + b) + post, a + u + b;
            s[13..17] == f[13..17] && s[17..21] == f[17..21] && s[..|f|] == a + v + b
  {
    var s, f := (a + v + b) + post, a + u + b;
    assert forall i :: 13 <= i < 21 ==> s[i] == f[i];
  }

  // ---- Whole logs ----

  datatype Parsed = Parsed(records: seq<Record>, validBytes: nat)

  /** The record kept of a frame: only puts keep their value. */
  function Kept(r: Record): Record {
    if r.op.PutOp? then r else r.(value := None)
  }

  /** The records of `s` up to the first torn frame, and where that is. */
  function Parse(s: seq<byte>): (p: Result<Parsed>)
    ensures p.Ok? ==> p.value.validBytes <= |s|
  {
    match FirstFrame(s)
    case Torn => Ok(Parsed([], 0))
    case Bad => Corrupt
    case Whole(r, end) => Behind([Kept(r)], end, Parse(s[end..]))
  }

  /** A parse of what follows `out`, which ends at `base`. */
  function Behind(out: seq<Record>, base: nat, rest: Result<Parsed>): Result<Parsed> {
    if rest.Ok? then Ok(Parsed(out + rest.value.records, base + rest.value.validBytes)) else rest
  }

  lemma BehindBehind(out: seq<Record>, base: nat, r: Record, len: nat, rest: Result<Parsed>)
    ensures Behind(out, base, Behind([r], len, rest)) == Behind(out + [r], base + len, rest)
  {
    if rest.Ok? {
      assert out + ([r] + rest.value.records) == (out + [r]) + rest.value.records;
    }
  }

  lemma BehindEnds(out: seq<Record>, base: nat, rest: Result<Parsed>)
    ensures Behind([], 0, rest) == rest && Behind(out, base, Ok(Parsed([], 0))) == Ok(Parsed(out, base))
  {
    assert out + [] == out;
    if rest.Ok? {
      assert [] + rest.value.records == rest.value.records;
    }
  }

  /** A frame is read back as it was written, except that only a put keeps its value. */
  lemma OnlyPutsKeepValues(r: Record)
    requires Fits(r)
    ensures Parse(Frame(r)) == Ok(Parsed([Record(r.txId, r.op, r.key, if r.op.PutOp? then r.value else None)], |Frame(r)|))
  {
    hide Frame, FirstFrame;
    var f := Frame(r);
    FirstFrameDecodes(r, []);
    assert f + [] == f && f[|f|..] == [];
    EmptyIsTorn();
    assert Parse(f[|f|..]) == Ok(Parsed([], 0));
    BehindEnds([Kept(r)], |f|, Parse(f));
  }

  method DecodeAll(buf: seq<byte>) returns (result: Result<Parsed>)
    ensures result == Parse(buf)
  {
    hide FirstFrame;
    var out, cursor, lastValid := [], 0, 0;
    BehindEnds([], 0, Parse(buf));
    assert buf[0..] == buf;
    while true
      invariant cursor <= |buf| && lastValid == cursor
      invariant Parse(buf) == Behind(out, cursor, Parse(buf[cursor..]))
      decreases |buf| - cursor
    {
      BehindEnds(out, cursor, Parse(buf));
      match DecodeFrame(buf, cursor)
      case Torn =>
        return Ok(Parsed(out, lastValid));
      case Bad =>
        return Corrupt;
      case Whole(r, end) =>
        var len := end - cursor;
        assert buf[cursor..][len..] == buf[end..];
        BehindBehind(out, cursor, Kept(r), len, Parse(buf[end..]));
        out := out + [Kept(r)];
        lastValid := end;
        if end == |buf| {
          EmptyIsTorn();
          BehindEnds(out, end, Parse(buf));
          return Ok(Parsed(out, lastValid));
        }
        cursor := end;
    }
  }

  lemma EmptyIsTorn()
    ensures FirstFrame([]) == Torn
  {
  }

  /** Reading a log file: empty is fine, anything not beginning with the magic is refused. */
  method Recover(file: seq<byte>) returns (result: Result<Parsed>)
    ensures result == Recovered(file)
  {
    if file == [] {
      return Ok(Parsed([], 0));
    }
    if !(MAGIC <= file) {
      return Corrupt;
    }
    result := DecodeAll(file);
  }

  function Recovered(file: seq<byte>): (p: Result<Parsed>)
    ensures p.Ok? ==> p.value.validBytes <= |file|
  {
    if file == [] then Ok(Parsed([], 0))
    else if !(MAGIC <= file) then Corrupt
    else Parse(file)
  }

  predicate Fine(r: Record) {
    Fits(r) && Kept(r) == r
  }

  predicate AllEncodable(log: seq<Record>) {
    forall i :: 0 <= i < |log| ==> Encodable(log[i])
  }

  predicate AllFit(log: seq<Record>): (b: bool)
    ensures b ==> AllEncodable(log)
  {
    forall i :: 0 <= i < |log| ==> Fine(log[i])
  }

  function Frames(log: seq<Record>): seq<byte>
    requires AllEncodable(log)
  {
    if log == [] then [] else Frame(log[0]) + Frames(log[1..])
  }

  /** How many whole frames of `log` lie within its first `n` bytes. */
  function Complete(log: seq<Record>, n: nat): (j: nat)
    requires AllFit(log)
    ensures j <= |log|
  {
    if log == [] || FrameLen(log[0]) > n then 0 else 1 + Complete(log[1..], n - FrameLen(log[0]))
  }

  lemma {:induction false} FramesConcat(a: seq<Record>, b: seq<Record>)
    requires AllEncodable(a) && AllEncodable(b)
    ensures AllEncodable(a + b) && Frames(a + b) == Frames(a) + Frames(b)
  {
    hide Frame;
    if a == [] {
      assert a + b == b;
    } else {
      FramesConcat(a[1..], b);
      assert (a + b)[1..] == a[1..] + b;
    }
  }

  /** A log cut at byte `n` parses as its whole frames, which end at or before `n`. */
  lemma {:induction false} ParseCut(log: seq<Record>, n: nat)
    requires AllFit(log) && n <= |Frames(log)|
    ensures var j := Complete(log, n);
            && |Frames(log[..j])| <= n
            && Parse(Frames(log)[..n]) == Ok(Parsed(log[..j], |Frames(log[..j])|))
  {
    hide FirstFrame, Frame;
    if log == [] {
      EmptyIsTorn();
    } else {
      var f, rest := Frame(log[0]), log[1..];
      if |f| > n {
        assert Frames(log)[..n] == f[..n];
        CutFrame(log[0], n);
      } else {
        var m := n - |f|;
        ParseCut(rest, m);
        SplitCut(f, Frames(rest), n);
        FirstFrameDecodes(log[0], Frames(rest)[..m]);
        FramesFirst(log, Complete(rest, m));
      }
    }
  }

  lemma FramesFirst(log: seq<Record>, j: nat)
    requires AllFit(log) && j < |log|
    ensures [log[0]] + log[1..][..j] == log[..j + 1]
    ensures Frames(log[..j + 1]) == Frame(log[0]) + Frames(log[1..][..j])
  {
    hide Frame;
    assert log[..j + 1][1..] == log[1..][..j];
  }

  lemma SplitCut(f: seq<byte>, g: seq<byte>, n: nat)
    requires |f| <= n <= |f| + |g|
    ensures (f + g)[..n] == f + g[..n - |f|] && (f + g)[..n][|f|..] == g[..n - |f|]
  {
  }

  lemma {:induction false} CompleteIsLast(log: seq<Record>, n: nat, i: nat)
    requires AllFit(log) && i <= |log| && |Frames(log[..i])| <= n
    ensures i <= Complete(log, n)
  {
    hide Frame;
    if i > 0 {
      FramesFirst(log, i - 1);
      CompleteIsLast(log[1..], n - |Frame(log[0])|, i - 1);
    }
  }

  /** A log with such damage in one frame parses as the frames before it, whatever follows. */
  lemma {:induction false} ParseDamaged(front: seq<Record>, r: Record, post: seq<byte>,
                                        a: seq<byte>, u: seq<byte>, v: seq<byte>, b: seq<byte>)
    requires AllFit(front) && Fits(r) && Frame(r) == a + u + b
    requires |u| == 4 && |v| == 4 && u != v && SparesLengths(|a|)
    ensures Parse(Frames(front) + ((a + v + b) + post)) ==
            if BreaksOp(|a|, v) then Corrupt else Ok(Parsed(front, |Frames(front)|))
  {
    hide Frame, FirstFrame, BreaksOp;
    var damaged := (a + v + b) + post;
    DamagedVerdict(r, post, a, u, v, b);
    if front == [] {
      assert Frames(front) + damaged == damaged;
    } else {
      ParseDamaged(front[1..], r, post, a, u, v, b);
      var rest := Frames(front[1..]) + damaged;
      assert Frames(front) + damaged == Frame(front[0]) + rest;
      FirstFrameDecodes(front[0], rest);
      assert (Frame(front[0]) + rest)[|Frame(front[0])|..] == rest;
      assert [front[0]] + front[1..] == front;
    }
  }

  /** Opening a log with such damage: the frames before it are kept and the rest is cut off; it is refused
      only when the damage hit the magic at the start of the file or made an unknown operation. */
  lemma RecoverDamaged(front: seq<Record>, r: Record, post: seq<byte>, a: seq<byte>, u: seq<byte>, v: seq<byte>, b: seq<byte>)
    requires AllFit(front) && Fits(r) && Frame(r) == a + u + b
    requires |u| == 4 && |v| == 4 && u != v && SparesLengths(|a|)
    ensures Recovered(Frames(front) + ((a + v + b) + post)) ==
            if BreaksOp(|a|, v) || (front == [] && !(MAGIC <= a + v + b)) then Corrupt
            else Ok(Parsed(front, |Frames(front)|))
  {
    hide Frame, Parse, BreaksOp;
    ParseDamaged(front, r, post, a, u, v, b);
    FrameMagic(r);
    var damaged := a + v + b;
    if front == [] {
      assert Frames(front) + (damaged + post) == damaged + post;
      assert MAGIC <= damaged + post <==> MAGIC <= damaged;
    } else {
      FrameMagic(front[0]);
      assert (Frames(front) + (damaged + post))[..4] == Frame(front[0])[..4];
    }
  }
}
