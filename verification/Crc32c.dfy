/**
 CRC32C, the Castagnoli checksum of section 12.1 of RFC 3720, in its reflected form.

 `Crc` feeds a message to the shift register one bit at a time; the engine computes it with a
 256-entry table and an eight-way unrolled loop.
 */
module Crc32c {
  import opened Bytes

  const POLY: bv32 := 0x82F6_3B78
  const INIT: bv32 := 0xFFFF_FFFF

  // ---- The register, bit by bit ----

  function Xor(a: bv32, b: bv32): bv32 {
    a ^ b
  }

  function Half(s: bv32): bv32 {
    s >> 1
  }

  function Feedback(s: bv32): bv32 {
    if s & 1 == 0 then 0 else POLY
  }

  /** One clock of the reflected register. */
  function Shift(s: bv32): bv32 {
    Xor(Half(s), Feedback(s))
  }

  function Shift8(s: bv32): bv32 {
    Shift(Shift(Shift(Shift(Shift(Shift(Shift(Shift(s))))))))
  }

  function FeedByte(s: bv32, b: byte): bv32 {
    Shift8(Xor(s, b as bv32))
  }

  function Crc(s: bv32, data: seq<byte>): bv32 {
    if data == [] then s else FeedByte(Crc(s, data[..|data| - 1]), data[|data| - 1])
  }

  // ---- Exclusive or ----

  lemma XorAssoc(a: bv32, b: bv32, c: bv32)
    ensures Xor(a, Xor(b, c)) == Xor(Xor(a, b), c)
  {
  }

  lemma XorComm(a: bv32, b: bv32)
    ensures Xor(a, b) == Xor(b, a)
  {
  }

  lemma XorSwap(a: bv32, b: bv32, c: bv32, d: bv32)
    ensures Xor(Xor(a, b), Xor(c, d)) == Xor(Xor(a, c), Xor(b, d))
  {
    hide Xor;
    XorAssoc(Xor(a, b), c, d);
    XorAssoc(a, b, c);
    XorComm(b, c);
    XorAssoc(a, c, b);
    XorAssoc(Xor(a, c), b, d);
  }

  lemma XorZero(a: bv32)
    ensures Xor(a, 0) == a
  {
  }

  lemma XorSelf(a: bv32, b: bv32)
    ensures Xor(a, b) == 0 <==> a == b
  {
  }

  lemma XorInjective(a: bv32, b: bv32, c: bv32)
    requires Xor(a, c) == Xor(b, c)
    ensures a == b
  {
  }

  // ---- The register is linear and injective ----

  lemma XorHalf(a: bv32, b: bv32)
    ensures Half(Xor(a, b)) == Xor(Half(a), Half(b))
  {
  }

  lemma FeedbackXor(a: bv32, b: bv32)
    ensures Feedback(Xor(a, b)) == Xor(Feedback(a), Feedback(b))
  {
    assert Xor(a, b) & 1 == Xor(a & 1, b & 1);
    assert a & 1 == 0 || a & 1 == 1;
    assert b & 1 == 0 || b & 1 == 1;
  }

  lemma ShiftXor(a: bv32, b: bv32)
    ensures Shift(Xor(a, b)) == Xor(Shift(a), Shift(b))
  {
    hide Xor, Feedback, Half;
    FeedbackXor(a, b);
    XorHalf(a, b);
    XorSwap(Half(a), Half(b), Feedback(a), Feedback(b));
  }

  lemma Shift8Xor(a: bv32, b: bv32)
    ensures Shift8(Xor(a, b)) == Xor(Shift8(a), Shift8(b))
  {
    hide Xor, Shift;
    ShiftXor(a, b);
    var a1, b1 := Shift(a), Shift(b);
    ShiftXor(a1, b1);
    var a2, b2 := Shift(a1), Shift(b1);
    ShiftXor(a2, b2);
    var a3, b3 := Shift(a2), Shift(b2);
    ShiftXor(a3, b3);
    var a4, b4 := Shift(a3), Shift(b3);
    ShiftXor(a4, b4);
    var a5, b5 := Shift(a4), Shift(b4);
    ShiftXor(a5, b5);
    var a6, b6 := Shift(a5), Shift(b5);
    ShiftXor(a6, b6);
    ShiftXor(Shift(a6), Shift(b6));
  }

  /** No two states clock to the same state: the polynomial's top bit remembers the bit shifted out. */
  lemma ShiftInjective(a: bv32, b: bv32)
    requires Shift(a) == Shift(b)
    ensures a == b
  {
  }

  lemma Shift8Injective(a: bv32, b: bv32)
    requires Shift8(a) == Shift8(b)
    ensures a == b
  {
    hide Shift;
    var a1, b1 := Shift(a), Shift(b);
    var a2, b2 := Shift(a1), Shift(b1);
    var a3, b3 := Shift(a2), Shift(b2);
    var a4, b4 := Shift(a3), Shift(b3);
    var a5, b5 := Shift(a4), Shift(b4);
    var a6, b6 := Shift(a5), Shift(b5);
    ShiftInjective(Shift(a6), Shift(b6));
    ShiftInjective(a6, b6);
    ShiftInjective(a5, b5);
    ShiftInjective(a4, b4);
    ShiftInjective(a3, b3);
    ShiftInjective(a2, b2);
    ShiftInjective(a1, b1);
    ShiftInjective(a, b);
  }

  // ---- Eight clocks as a table lookup ----

  function Twice(x: bv32): bv32 {
    x << 1
  }

  function Twice8(x: bv32): bv32 {
    Twice(Twice(Twice(Twice(Twice(Twice(Twice(Twice(x))))))))
  }

  function Drop8(s: bv32): bv32 {
    s >> 8
  }

  function Low8(s: bv32): bv32 {
    s & 0xFF
  }

  /** The bits of `mask` are clear in `x`. */
  predicate Clear(x: bv32, mask: bv32) {
    x & mask == 0
  }

  lemma TwiceClear(x: bv32, mask: bv32)
    requires Clear(x, mask)
    ensures Clear(Twice(x), mask << 1)
  {
  }

  lemma TopBitClear(x: bv32, mask: bv32)
    requires x & mask == 0 && mask & 0x8000_0000 != 0
    ensures x & 0x8000_0000 == 0
  {
  }

  lemma DoubleHalved(x: bv32)
    requires x & 0x8000_0000 == 0
    ensures (x << 1) >> 1 == x && (x << 1) & 1 == 0
  {
  }

  /** Clocking undoes a shift that lost no bit. */
  lemma ShiftTwice(x: bv32, mask: bv32)
    requires Clear(x, mask) && mask & 0x8000_0000 != 0
    ensures Shift(Twice(x)) == x
  {
    hide Xor;
    TopBitClear(x, mask);
    DoubleHalved(x);
    XorZero(x);
  }

  lemma Undo(x: bv32, mask: bv32)
    requires Clear(x, mask) && mask & 0x8000_0000 != 0
    ensures Shift(Twice(x)) == x && Clear(Twice(x), mask << 1)
  {
    hide Shift, Twice, Clear;
    ShiftTwice(x, mask);
    TwiceClear(x, mask);
  }

  /** Bits above the low byte only move down during eight clocks. */
  lemma HighBits(y: bv32)
    requires Clear(y, 0xFF00_0000)
    ensures Shift8(Twice8(y)) == y
  {
    hide Shift, Twice, Clear;
    Undo(y, 0xFF00_0000);
    var y1 := Twice(y);
    Undo(y1, 0xFE00_0000);
    var y2 := Twice(y1);
    Undo(y2, 0xFC00_0000);
    var y3 := Twice(y2);
    Undo(y3, 0xF800_0000);
    var y4 := Twice(y3);
    Undo(y4, 0xF000_0000);
    var y5 := Twice(y4);
    Undo(y5, 0xE000_0000);
    var y6 := Twice(y5);
    Undo(y6, 0xC000_0000);
    Undo(Twice(y6), 0x8000_0000);
  }

  lemma RawSplit(s: bv32)
    ensures ((s >> 8) << 8) ^ (s & 0xFF) == s && (s >> 8) & 0xFF00_0000 == 0
  {
  }

  lemma SplitLowByte(s: bv32)
    ensures Xor(Twice8(Drop8(s)), Low8(s)) == s && Clear(Drop8(s), 0xFF00_0000)
  {
    hide Twice8;
    Twice8IsShift(Drop8(s));
    RawSplit(s);
  }

  lemma Twice8IsShift(y: bv32)
    ensures Twice8(y) == y << 8
  {
    assert (((((((y << 1) << 1) << 1) << 1) << 1) << 1) << 1) << 1 == y << 8;
  }

  /** Eight clocks are a table lookup on the low byte, combined with the rest moved down. */
  lemma Shift8Table(s: bv32)
    ensures Shift8(s) == Xor(Drop8(s), Shift8(Low8(s)))
  {
    hide Shift8, Twice8, Xor, Clear, Drop8, Low8;
    SplitLowByte(s);
    HighBits(Drop8(s));
    Shift8Xor(Twice8(Drop8(s)), Low8(s));
  }

  lemma ByteAboveLow(s: bv32, b: byte)
    ensures Drop8(Xor(s, b as bv32)) == Drop8(s)
  {
    assert (s ^ (b as bv32)) >> 8 == s >> 8;
  }

  // ---- The table ----

  ghost predicate IsTable(t: seq<bv32>) {
    |t| == 256 && forall i :: 0 <= i < 256 ==> t[i] == Shift8(i as bv32)
  }

  function ShiftN(s: bv32, n: nat): bv32 {
    if n == 0 then s else Shift(ShiftN(s, n - 1))
  }

  lemma ShiftEight(s: bv32)
    ensures ShiftN(s, 8) == Shift8(s)
  {
    hide Shift;
    assert ShiftN(s, 1) == Shift(s);
    assert ShiftN(s, 2) == Shift(Shift(s));
    assert ShiftN(s, 3) == Shift(Shift(Shift(s)));
    assert ShiftN(s, 4) == Shift(Shift(Shift(Shift(s))));
    assert ShiftN(s, 5) == Shift(Shift(Shift(Shift(Shift(s)))));
    assert ShiftN(s, 6) == Shift(Shift(Shift(Shift(Shift(Shift(s))))));
    assert ShiftN(s, 7) == Shift(Shift(Shift(Shift(Shift(Shift(Shift(s)))))));
  }

  lemma ShiftBranches(s: bv32)
    ensures Shift(s) == if s & 1 != 0 then (s >> 1) ^ POLY else s >> 1
  {
    XorZero(s >> 1);
  }

  /** One table entry: eight clocks of the index. */
  method TableEntry(i: bv32) returns (crc: bv32)
    ensures crc == Shift8(i)
  {
    ShiftEight(i);
    hide Shift, Shift8;
    crc := i;
    var j := 0;
    while j < 8
      invariant 0 <= j <= 8 && crc == ShiftN(i, j)
    {
      ShiftBranches(crc);
      crc := if crc & 1 != 0 then (crc >> 1) ^ POLY else crc >> 1;
      j := j + 1;
    }
  }

  /** Fills the table in place. */
  method BuildTable() returns (table: array<bv32>)
    ensures fresh(table) && IsTable(table[..])
  {
    hide Shift8;
    table := new bv32[256];
    var i := 0;
    while i < 256
      invariant 0 <= i <= 256
      invariant forall k :: 0 <= k < i ==> table[k] == Shift8(k as bv32)
    {
      table[i] := TableEntry(i as bv32);
      i := i + 1;
    }
  }

  // ---- The table-driven loop ----

  function Index(crc: bv32, b: byte): (i: nat)
    ensures i < 256
  {
    Low8(Xor(crc, b as bv32)) as nat
  }

  function TableStep(table: seq<bv32>, crc: bv32, b: byte): bv32
    requires |table| == 256
  {
    Xor(Drop8(crc), table[Index(crc, b)])
  }

  lemma IndexRoundTrip(crc: bv32, b: byte)
    ensures Index(crc, b) as bv32 == Low8(Xor(crc, b as bv32))
  {
    hide Xor, Low8;
    ThereAndBack(Low8(Xor(crc, b as bv32)));
  }

  lemma ThereAndBack(x: bv32)
    ensures (x as int) as bv32 == x
  {
  }

  lemma TableStepFeeds(table: seq<bv32>, crc: bv32, b: byte)
    requires IsTable(table)
    ensures TableStep(table, crc, b) == FeedByte(crc, b)
  {
    hide Shift8, Xor, Drop8, Low8, Index;
    IndexRoundTrip(crc, b);
    ByteAboveLow(crc, b);
    Shift8Table(Xor(crc, b as bv32));
  }

  lemma CrcNext(s: bv32, data: seq<byte>, i: nat)
    requires i < |data|
    ensures Crc(s, data[..i + 1]) == FeedByte(Crc(s, data[..i]), data[i])
  {
    assert data[..i + 1][..i] == data[..i];
  }

  /** Byte by byte below 1024 bytes, eight bytes per round above, with a byte-wise tail: always the
      register fed bit by bit. */
  method Crc32cSoftware(table: seq<bv32>, data: seq<byte>, init: bv32) returns (crc: bv32)
    requires IsTable(table)
    ensures crc == Crc(init, data)
  {
    hide Crc, IsTable;
    WholePrefix(init, data);
    var len := |data|;
    if len < 1024 {
      crc := FeedRest(table, data, init, init, 0);
      return;
    }
    crc := init;
    var chunks, chunk := len / 8, 0;
    while chunk < chunks
      invariant 0 <= chunk <= chunks && crc == Crc(init, data[..8 * chunk])
    {
      crc := FeedEight(table, data, init, crc, 8 * chunk);
      chunk := chunk + 1;
    }
    crc := FeedRest(table, data, init, crc, 8 * chunks);
  }

  lemma WholePrefix(init: bv32, data: seq<byte>)
    ensures data[..0] == [] && data[..|data|] == data && Crc(init, []) == init
  {
  }

  /** The byte-at-a-time loop, from byte `start` to the end. */
  method FeedRest(table: seq<bv32>, data: seq<byte>, ghost init: bv32, crc: bv32, start: nat) returns (crc': bv32)
    requires IsTable(table) && start <= |data| && crc == Crc(init, data[..start])
    ensures crc' == Crc(init, data)
  {
    hide Crc, IsTable;
    WholePrefix(init, data);
    crc' := crc;
    for i := start to |data|
      invariant crc' == Crc(init, data[..i])
    {
      crc' := FeedNext(table, data, init, crc', i);
    }
  }

  /** Eight bytes, one table lookup each. */
  method FeedEight(table: seq<bv32>, data: seq<byte>, ghost init: bv32, crc: bv32, i: nat) returns (crc': bv32)
    requires IsTable(table) && i + 8 <= |data| && crc == Crc(init, data[..i])
    ensures crc' == Crc(init, data[..i + 8])
  {
    hide Crc, IsTable;
    crc' := FeedNext(table, data, init, crc, i);
    crc' := FeedNext(table, data, init, crc', i + 1);
    crc' := FeedNext(table, data, init, crc', i + 2);
    crc' := FeedNext(table, data, init, crc', i + 3);
    crc' := FeedNext(table, data, init, crc', i + 4);
    crc' := FeedNext(table, data, init, crc', i + 5);
    crc' := FeedNext(table, data, init, crc', i + 6);
    crc' := FeedNext(table, data, init, crc', i + 7);
  }

  method FeedNext(table: seq<bv32>, data: seq<byte>, ghost init: bv32, crc: bv32, i: nat) returns (crc': bv32)
    requires IsTable(table) && i < |data| && crc == Crc(init, data[..i])
    ensures crc' == Crc(init, data[..i + 1])
  {
    hide Crc, FeedByte, Xor, Drop8, Index;
    CrcNext(init, data, i);
    TableStepFeeds(table, crc, data[i]);
    crc' := Xor(Drop8(crc), table[Index(crc, data[i])]);
  }

  // ---- Streaming ----

  /** Splitting a message anywhere does not change its checksum. */
  lemma {:induction false} CrcConcat(s: bv32, a: seq<byte>, b: seq<byte>)
    ensures Crc(s, a + b) == Crc(Crc(s, a), b)
  {
    hide FeedByte;
    if b == [] {
      assert a + b == a;
    } else {
      assert (a + b)[..|a + b| - 1] == a + b[..|b| - 1];
      CrcConcat(s, a, b[..|b| - 1]);
    }
  }

  class Hasher {
    var state: bv32
    ghost var fed: seq<byte>

    constructor ()
      ensures state == INIT && fed == []
    {
      state, fed := INIT, [];
    }

    method Update(table: seq<bv32>, data: seq<byte>)
      requires IsTable(table) && state == Crc(INIT, fed)
      modifies this
      ensures fed == old(fed) + data && state == Crc(INIT, fed)
    {
      CrcConcat(INIT, fed, data);
      state := Crc32cSoftware(table, data, state);
      fed := fed + data;
    }

    method Finalize() returns (crc: bv32)
      requires state == Crc(INIT, fed)
      ensures crc == Crc(INIT, fed) ^ 0xFFFF_FFFF
    {
      crc := state ^ 0xFFFF_FFFF;
    }
  }

  // ---- Error detection ----

  /** Four bytes as one little-endian word. */
  function Word(b0: byte, b1: byte, b2: byte, b3: byte): bv32 {
    Xor(Xor(Xor(b0 as bv32, Up8(b1 as bv32)), Up8(Up8(b2 as bv32))), Up8(Up8(Up8(b3 as bv32))))
  }

  function Up8(x: bv32): bv32 {
    x << 8
  }

  function Shift32(s: bv32): bv32 {
    Shift8(Shift8(Shift8(Shift8(s))))
  }

  /** The checksum as it is stored: little-endian. */
  function Trailer(c: bv32): (t: seq<byte>)
    ensures |t| == 4
  {
    [(c & 0xFF) as byte, ((c >> 8) & 0xFF) as byte, ((c >> 16) & 0xFF) as byte, ((c >> 24) & 0xFF) as byte]
  }

  lemma ByteClear(b: byte)
    ensures Clear(b as bv32, 0xFF00_0000)
    ensures Clear(Up8(b as bv32), 0xFF00_0000)
    ensures Clear(Up8(Up8(b as bv32)), 0xFF00_0000)
  {
    assert (b as bv32) & 0xFF00_0000 == 0;
    assert ((b as bv32) << 8) & 0xFF00_0000 == 0;
    assert (((b as bv32) << 8) << 8) & 0xFF00_0000 == 0;
  }

  /** A byte entering after eight more clocks may as well enter eight positions higher now. */
  lemma EnterHigher(t: bv32, x: bv32)
    requires Clear(x, 0xFF00_0000)
    ensures Xor(Shift8(t), x) == Shift8(Xor(t, Up8(x)))
  {
    assert Up8(x) == Twice8(x) by { Twice8IsShift(x); }
    hide Xor, Shift8, Twice8, Clear, Up8;
    HighBits(x);
    Shift8Xor(t, Up8(x));
  }

  lemma FourBytes(s: bv32, b0: byte, b1: byte, b2: byte, b3: byte)
    ensures FeedByte(FeedByte(FeedByte(FeedByte(s, b0), b1), b2), b3) == Shift32(Xor(s, Word(b0, b1, b2, b3)))
  {
    hide Xor, Shift8, Up8, Clear;
    var x0, x1, x2, x3 := b0 as bv32, b1 as bv32, b2 as bv32, b3 as bv32;
    var y1, y2, y3 := Up8(x1), Up8(Up8(x2)), Up8(Up8(Up8(x3)));
    ByteClear(b1);
    ByteClear(b2);
    ByteClear(b3);
    var s0 := Xor(s, x0);
    EnterHigher(s0, x1);
    var s1 := Xor(s0, y1);
    EnterHigher(Shift8(s1), x2);
    EnterHigher(s1, Up8(x2));
    var s2 := Xor(s1, y2);
    EnterHigher(Shift8(Shift8(s2)), x3);
    EnterHigher(Shift8(s2), Up8(x3));
    EnterHigher(s2, Up8(Up8(x3)));
    XorAssoc(s, x0, y1);
    XorAssoc(s, Xor(x0, y1), y2);
    XorAssoc(s, Xor(Xor(x0, y1), y2), y3);
  }

  lemma Shift32Injective(a: bv32, b: bv32)
    requires Shift32(a) == Shift32(b)
    ensures a == b
  {
    hide Shift8;
    Shift8Injective(Shift8(Shift8(Shift8(a))), Shift8(Shift8(Shift8(b))));
    Shift8Injective(Shift8(Shift8(a)), Shift8(Shift8(b)));
    Shift8Injective(Shift8(a), Shift8(b));
    Shift8Injective(a, b);
  }

  lemma Shift8Zero()
    ensures Shift8(0) == 0
  {
    assert Shift(0) == 0;
    hide Shift;
  }

  lemma RawFields(x: bv32, y: bv32, z: bv32, w: bv32)
    requires x <= 0xFF && y <= 0xFF && z <= 0xFF && w <= 0xFF
    ensures var c := x ^ (y << 8) ^ ((z << 8) << 8) ^ (((w << 8) << 8) << 8);
            c & 0xFF == x && (c >> 8) & 0xFF == y && (c >> 16) & 0xFF == z && (c >> 24) & 0xFF == w
  {
  }

  lemma WordBytes(b0: byte, b1: byte, b2: byte, b3: byte)
    ensures Trailer(Word(b0, b1, b2, b3)) == [b0, b1, b2, b3]
  {
    RawFields(b0 as bv32, b1 as bv32, b2 as bv32, b3 as bv32);
  }

  lemma RawJoin(c: bv32)
    ensures (c & 0xFF) ^ (((c >> 8) & 0xFF) << 8) ^ ((((c >> 16) & 0xFF) << 8) << 8) ^ (((((c >> 24) & 0xFF) << 8) << 8) << 8) == c
  {
  }

  lemma TrailerWord(c: bv32)
    ensures Word(Trailer(c)[0], Trailer(c)[1], Trailer(c)[2], Trailer(c)[3]) == c
  {
    assert ((c & 0xFF) as byte) as bv32 == c & 0xFF;
    assert (((c >> 8) & 0xFF) as byte) as bv32 == (c >> 8) & 0xFF;
    assert (((c >> 16) & 0xFF) as byte) as bv32 == (c >> 16) & 0xFF;
    assert (((c >> 24) & 0xFF) as byte) as bv32 == (c >> 24) & 0xFF;
    RawJoin(c);
  }

  lemma CrcOfFour(s: bv32, u: seq<byte>)
    requires |u| == 4
    ensures Crc(s, u) == Shift32(Xor(s, Word(u[0], u[1], u[2], u[3])))
  {
    hide FeedByte, Word, Shift32, Xor;
    CrcNext(s, u, 0);
    CrcNext(s, u, 1);
    CrcNext(s, u, 2);
    CrcNext(s, u, 3);
    assert u[..0] == [] && u[..4] == u;
    FourBytes(s, u[0], u[1], u[2], u[3]);
  }

  lemma {:induction false} CrcInjective(a: bv32, b: bv32, data: seq<byte>)
    requires a != b
    ensures Crc(a, data) != Crc(b, data)
  {
    hide Shift8, Xor;
    if data != [] {
      var front, last := data[..|data| - 1], data[|data| - 1] as bv32;
      CrcInjective(a, b, front);
      if Crc(a, data) == Crc(b, data) {
        Shift8Injective(Xor(Crc(a, front), last), Xor(Crc(b, front), last));
        XorInjective(Crc(a, front), Crc(b, front), last);
      }
    }
  }

  /** Any change confined to four consecutive bytes changes the checksum, wherever the window is and
      whatever surrounds it. */
  lemma WindowChangesCrc(s: bv32, p: seq<byte>, u: seq<byte>, v: seq<byte>, q: seq<byte>)
    requires |u| == 4 && |v| == 4 && u != v
    ensures Crc(s, p + u + q) != Crc(s, p + v + q)
  {
    hide Crc, Shift32, Word, Xor, Trailer;
    var t := Crc(s, p);
    var x, y := Word(u[0], u[1], u[2], u[3]), Word(v[0], v[1], v[2], v[3]);
    assert u == [u[0], u[1], u[2], u[3]] && v == [v[0], v[1], v[2], v[3]];
    CrcConcat(s, p, u);
    CrcConcat(s, p, v);
    CrcConcat(s, p + u, q);
    CrcConcat(s, p + v, q);
    CrcOfFour(t, u);
    CrcOfFour(t, v);
    if Crc(t, u) == Crc(t, v) {
      Shift32Injective(Xor(t, x), Xor(t, y));
      XorComm(t, x);
      XorComm(t, y);
      XorInjective(x, y, t);
      WordBytes(u[0], u[1], u[2], u[3]);
      WordBytes(v[0], v[1], v[2], v[3]);
    }
    CrcInjective(Crc(t, u), Crc(t, v), q);
  }

  /** A stored trailer matches exactly when the checksum runs to zero over body and trailer together. */
  lemma TrailerMatches(s: bv32, body: seq<byte>, t: seq<byte>)
    requires |t| == 4
    ensures t == Trailer(Crc(s, body)) <==> Crc(s, body + t) == 0
  {
    hide Crc, Shift8, Word, Xor, Trailer;
    var c := Crc(s, body);
    var x := Word(t[0], t[1], t[2], t[3]);
    CrcConcat(s, body, t);
    CrcOfFour(c, t);
    Shift8Zero();
    XorSelf(c, x);
    if Crc(s, body + t) == 0 {
      Shift32Injective(Xor(c, x), 0);
    }
    WordBytes(t[0], t[1], t[2], t[3]);
    assert t == [t[0], t[1], t[2], t[3]];
    if t == Trailer(c) {
      TrailerWord(c);
    }
  }
}
