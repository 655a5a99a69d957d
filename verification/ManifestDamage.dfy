/** Damaged manifest frames: what a reader makes of a log in which a few bytes changed. */
module ManifestDamage {
  import opened Bytes
  import opened LittleEndian
  import opened Crc32c
  import opened Manifest
  import opened ManifestLog

  // ---- Where a payload ends ----

  /** How far an addition reaches is decided by its two length fields. */
  lemma AddSpan(s: seq<byte>)
    ensures TakeAdd(s).Taken? <==>
            && |s| >= 16
            && var n := ReadLe32(s[12..16]);
            && |s| >= 20 + n
            && |s| >= 36 + n + ReadLe32(s[16 + n..20 + n])
    ensures TakeAdd(s).Taken? ==>
            var n := |TakeAdd(s).value.meta.minKey|;
            && n == ReadLe32(s[12..16])
            && |s| >= 20 + n
            && |TakeAdd(s).rest| == |s| - (36 + n + ReadLe32(s[16 + n..20 + n]))
  {
    hide ReadLe64, ReadLe32;
    if |s| >= 16 {
      assert s[8..][4..] == s[12..] && s[12..][..4] == s[12..16] && s[12..][4..] == s[16..];
      var n: nat := ReadLe32(s[12..16]);
      if |s| >= 20 + n {
        assert s[16..][n..] == s[16 + n..] && s[16 + n..][..4] == s[16 + n..20 + n];
      }
    }
  }

  /** `s'` has the bytes of `s` where the edit `e`, read from `s`, states its lengths. */
  predicate SameLengths(e: Edit, s: seq<byte>, s': seq<byte>) {
    match e
    case AddFile(_, _, meta) =>
      && |s| == |s'| >= 20 + |meta.minKey|
      && s[12..16] == s'[12..16]
      && s[16 + |meta.minKey|..20 + |meta.minKey|] == s'[16 + |meta.minKey|..20 + |meta.minKey|]
    case DroppedPrefix(_) => |s| == |s'| >= 4 && s[..4] == s'[..4]
    case UndroppedPrefix(_) => |s| == |s'| >= 4 && s[..4] == s'[..4]
    case _ => |s| == |s'|
  }

  lemma SameSpan(op: byte, s: seq<byte>, s': seq<byte>)
    requires TakeEdit(op, s).Taken? && SameLengths(TakeEdit(op, s).value, s, s')
    ensures TakeEdit(op, s').Taken? && |TakeEdit(op, s').rest| == |TakeEdit(op, s).rest|
  {
    hide ReadLe64, ReadLe32, TakeAdd;
    if op == 1 {
      AddIsAdd(s);
      AddSpan(s);
      AddSpan(s');
    }
  }

  lemma AddIsAdd(s: seq<byte>)
    requires TakeAdd(s).Taken?
    ensures TakeAdd(s).value.AddFile?
  {
  }

  // ---- Damage ----

  /** A window of four bytes at `at` lies behind the operation byte and hits no length field of the frame. */
  predicate SparesLengths(e: Edit, at: nat) {
    && at >= 5
    && (e.AddFile? ==>
         && (at + 4 <= 17 || at >= 21)
         && (at + 4 <= 21 + |e.meta.minKey| || at >= 25 + |e.meta.minKey|))
    && (e.DroppedPrefix? || e.UndroppedPrefix? ==> at >= 9)
  }

  /** The damaged payload with what follows it, beside the payload that was written. */
  lemma DamagedLengths(e: Edit, post: seq<byte>, a: seq<byte>, u: seq<byte>, v: seq<byte>, b: seq<byte>)
    requires Fine(e) && Frame(e) == a + u + b && |u| == 4 && |v| == 4 && SparesLengths(e, |a|)
    ensures var s, s' := (a + u + b) + post, (a + v + b) + post;
            && s[..5] == s'[..5] && |s| == |s'|
            && SameLengths(e, s[5..], s'[5..])
  {
    hide Frame;
    PayloadLen(e);
    var s, s' := (a + u + b) + post, (a + v + b) + post;
    WindowApart(a, u, v, b, post);
    match e
    case AddFile(_, _, meta) =>
      var n := |meta.minKey|;
      SameSlice(s, s', 12, 16, |a|);
      SameSlice(s, s', 16 + n, 20 + n, |a|);
    case DroppedPrefix(_) =>
      SameSlice(s, s', 0, 4, |a|);
    case UndroppedPrefix(_) =>
      SameSlice(s, s', 0, 4, |a|);
    case _ =>
  }

  /** Outside the window both are the same. */
  ghost predicate ApartFrom(s: seq<byte>, s': seq<byte>, at: nat) {
    |s| == |s'| && forall i :: 0 <= i < |s| && (i < at || i >= at + 4) ==> s[i] == s'[i]
  }

  lemma WindowApart(a: seq<byte>, u: seq<byte>, v: seq<byte>, b: seq<byte>, post: seq<byte>)
    requires |u| == 4 && |v| == 4
    ensures ApartFrom((a + u + b) + post, (a + v + b) + post, |a|)
    ensures forall n :: 0 <= n <= |a| ==> ((a + u + b) + post)[..n] == ((a + v + b) + post)[..n]
  {
  }

  lemma SameSlice(s: seq<byte>, s': seq<byte>, lo: nat, hi: nat, at: nat)
    requires ApartFrom(s, s', at) && lo <= hi && 5 + hi <= |s| && (at + 4 <= 5 + lo || at >= 5 + hi)
    ensures s[5..][lo..hi] == s'[5..][lo..hi]
  {
    assert forall i :: lo <= i < hi ==> s[5..][i] == s[5 + i] && s'[5..][i] == s'[5 + i];
  }

  lemma PayloadLen(e: Edit)
    requires Fine(e)
    ensures |Frame(e)| >= OVERHEAD
    ensures e.AddFile? ==> |Frame(e)| >= 25 + |e.meta.minKey|
    ensures e.DroppedPrefix? || e.UndroppedPrefix? ==> |Frame(e)| >= OVERHEAD + 4
  {
    hide Crc;
  }

  /** A damaged frame that still ends where it did is not accepted: its checksum cannot match. */
  lemma ChecksumFails(e: Edit, post: seq<byte>, a: seq<byte>, u: seq<byte>, v: seq<byte>, b: seq<byte>)
    requires Encodable(e) && Frame(e) == a + u + b && |u| == 4 && |v| == 4 && u != v
    ensures var s, end := (a + v + b) + post, |Frame(e)| - 4;
            0 <= end && end + 4 <= |s| && !ChecksumMatches(s, end)
  {
    hide Crc, Trailer, Payload;
    var body := Body(e);
    var s, f, end := (a + v + b) + post, a + v + b, |Frame(e)| - 4;
    TrailerMatches(0, body, Trailer(Crc(0, body)));
    WindowChangesCrc(0, a, u, v, b);
    TrailerMatches(0, f[..end], f[end..]);
    assert f[..end] + f[end..] == f;
    assert s[..end] == f[..end] && s[end..end + 4] == f[end..];
  }

  /** Damage to four consecutive bytes behind the operation byte, other than the length fields, is taken
      for the end of the log. */
  lemma DamagedIsTorn(e: Edit, post: seq<byte>, a: seq<byte>, u: seq<byte>, v: seq<byte>, b: seq<byte>)
    requires Fine(e) && Frame(e) == a + u + b && |u| == 4 && |v| == 4 && u != v && SparesLengths(e, |a|)
    ensures FirstFrame((a + v + b) + post) == Torn
  {
    hide TakeEdit, ChecksumMatches, Frame, SameLengths, SparesLengths, Fine;
    var s, s' := (a + u + b) + post, (a + v + b) + post;
    WrittenTakes(e, post);
    DamagedLengths(e, post, a, u, v, b);
    assert s[4] == s[..5][4] && s'[4] == s'[..5][4];
    assert s[..4] == s[..5][..4] && s'[..4] == s'[..5][..4];
    SameSpan(s[4], s[5..], s'[5..]);
    FineEncodable(e);
    ChecksumFails(e, post, a, u, v, b);
  }

  /** What is read from a frame as it was written. */
  lemma WrittenTakes(e: Edit, post: seq<byte>)
    requires Fine(e)
    ensures var s := Frame(e) + post;
            && |s| >= OVERHEAD && s[..4] == MAGIC
            && TakeEdit(s[4], s[5..]).Taken? && TakeEdit(s[4], s[5..]).value == e
            && |TakeEdit(s[4], s[5..]).rest| == 4 + |post|
  {
    hide TakeEdit, Payload, OpByte, Crc, Trailer, Fine;
    FineEncodable(e);
    var t := Trailer(Crc(0, Body(e)));
    TrailerLen(Crc(0, Body(e)));
    FrameSlices(OpByte(e), Payload(e), t, post);
    TakesEditIff(e, t + post);
  }

  lemma FineEncodable(e: Edit)
    requires Fine(e)
    ensures Encodable(e)
  {
  }

  lemma TrailerLen(c: bv32)
    ensures |Trailer(c)| == 4
  {
  }

  /** A manifest with such damage in one frame is read as the edits before it, whatever follows. */
  lemma {:induction false} ReadDamaged(front: seq<Edit>, e: Edit, post: seq<byte>,
                                       a: seq<byte>, u: seq<byte>, v: seq<byte>, b: seq<byte>)
    requires AllFine(front) && Fine(e) && Frame(e) == a + u + b
    requires |u| == 4 && |v| == 4 && u != v && SparesLengths(e, |a|)
    ensures ReadFile(Frames(front) + ((a + v + b) + post)) == Ok(front)
  {
    hide Frame, Frames, Parse, Fine;
    ParseDamaged(front, e, post, a, u, v, b);
    StartsWithMagic(front, e, post, a, u, v, b);
  }

  lemma StartsWithMagic(front: seq<Edit>, e: Edit, post: seq<byte>, a: seq<byte>, u: seq<byte>, v: seq<byte>, b: seq<byte>)
    requires AllFine(front) && Fine(e) && Frame(e) == a + u + b && |u| == 4 && |v| == 4 && |a| >= 5
    ensures MAGIC <= Frames(front) + ((a + v + b) + post)
  {
    hide Frame, Fine;
    var file := Frames(front) + ((a + v + b) + post);
    if front == [] {
      FineEncodable(e);
      FrameMagic(e);
      assert file[..4] == a[..4] == Frame(e)[..4];
    } else {
      FineEncodable(front[0]);
      FrameMagic(front[0]);
      assert file[..4] == Frame(front[0])[..4];
    }
  }

  lemma {:induction false} ParseDamaged(front: seq<Edit>, e: Edit, post: seq<byte>,
                                        a: seq<byte>, u: seq<byte>, v: seq<byte>, b: seq<byte>)
    requires AllFine(front) && Fine(e) && Frame(e) == a + u + b
    requires |u| == 4 && |v| == 4 && u != v && SparesLengths(e, |a|)
    ensures Parse(Frames(front) + ((a + v + b) + post)) == Ok(front)
  {
    hide Frame, FirstFrame, SparesLengths, Fine;
    var damaged := (a + v + b) + post;
    DamagedIsTorn(e, post, a, u, v, b);
    if front == [] {
      assert Frames(front) + damaged == damaged;
    } else {
      FineHead(front);
      ParseDamaged(front[1..], e, post, a, u, v, b);
      var f, rest := Frame(front[0]), Frames(front[1..]) + damaged;
      assert Frames(front) + damaged == f + rest;
      FineEncodable(front[0]);
      FrameRoundTrip(front[0], rest);
      NotEmpty(front[0]);
      assert (f + rest)[|f|..] == rest;
      assert [front[0]] + front[1..] == front;
    }
  }
}
