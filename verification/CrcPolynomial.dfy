/**
 The register of `Crc32c` as polynomial division.

 A polynomial over the field of two elements is the set of exponents whose coefficient is one. The
 checksum is the remainder of the message, behind the starting state, modulo the generator of
 section 12.1 of RFC 3720, with the bits of every byte and of the register taken lowest first.
 */
module CrcPolynomials {
  import opened Bytes
  import opened Crc32c

  type Poly = set<nat>

  /** x^32 + x^28 + x^27 + x^26 + x^25 + x^23 + x^22 + x^20 + x^19 + x^18 + x^14 + x^13 + x^11 + x^10 + x^9 + x^8 + x^6 + 1 */
  const GENERATOR: Poly := {32, 28, 27, 26, 25, 23, 22, 20, 19, 18, 14, 13, 11, 10, 9, 8, 6, 0}

  // ---- Polynomials ----

  function Plus(p: Poly, q: Poly): Poly {
    (p - q) + (q - p)
  }

  /** p times x^n. */
  function Raised(p: Poly, n: nat): Poly {
    set e | e in p :: e + n
  }

  /** The sum of x^n times the generator over all n in `ns`. */
  function Multiple(ns: seq<nat>): Poly {
    if ns == [] then {} else Plus(Multiple(ns[..|ns| - 1]), Raised(GENERATOR, ns[|ns| - 1]))
  }

  /** p and q differ by a multiple of the generator. */
  ghost predicate Congruent(p: Poly, q: Poly) {
    exists ns: seq<nat> :: Plus(p, q) == Multiple(ns)
  }

  /** r is a remainder of p modulo the generator. */
  ghost predicate Remainder(p: Poly, r: Poly) {
    Congruent(p, r) && forall e :: e in r ==> e < 32
  }

  lemma PlusAssoc(p: Poly, q: Poly, r: Poly)
    ensures Plus(Plus(p, q), r) == Plus(p, Plus(q, r))
  {
  }

  lemma PlusComm(p: Poly, q: Poly)
    ensures Plus(p, q) == Plus(q, p)
  {
  }

  lemma PlusZero(p: Poly)
    ensures Plus(p, {}) == p && Plus({}, p) == p && Plus(p, p) == {}
  {
  }

  lemma PlusSwap(p: Poly, q: Poly, r: Poly, s: Poly)
    ensures Plus(Plus(p, q), Plus(r, s)) == Plus(Plus(p, r), Plus(q, s))
  {
  }

  lemma RaisedPlus(p: Poly, q: Poly, n: nat)
    ensures Raised(Plus(p, q), n) == Plus(Raised(p, n), Raised(q, n))
  {
    forall e: nat
      ensures e in Raised(Plus(p, q), n) <==> e in Plus(Raised(p, n), Raised(q, n))
    {
      RaisedMember(Plus(p, q), n, e);
      RaisedMember(p, n, e);
      RaisedMember(q, n, e);
    }
  }

  lemma RaisedMember(p: Poly, n: nat, e: nat)
    ensures e in Raised(p, n) <==> e >= n && e - n in p
  {
    if e >= n && e - n in p {
      assert (e - n) + n in Raised(p, n);
    }
  }

  lemma RaisedTwice(p: Poly, m: nat, n: nat)
    ensures Raised(Raised(p, m), n) == Raised(p, m + n) && Raised(p, 0) == p
  {
    forall e: nat
      ensures e in Raised(Raised(p, m), n) <==> e in Raised(p, m + n)
    {
      RaisedMember(Raised(p, m), n, e);
      if e >= n {
        RaisedMember(p, m, e - n);
      }
      RaisedMember(p, m + n, e);
    }
  }

  lemma RaisedNothing(n: nat)
    ensures Raised({}, n) == {}
  {
  }

  // ---- Congruence ----

  function AllRaised(ns: seq<nat>, n: nat): seq<nat> {
    seq<nat>(|ns|, i requires 0 <= i < |ns| => ns[i] + n)
  }

  lemma {:induction false} MultipleRaised(ns: seq<nat>, n: nat)
    ensures Raised(Multiple(ns), n) == Multiple(AllRaised(ns, n))
  {
    hide Plus, Raised, GENERATOR;
    if ns == [] {
      RaisedNothing(n);
    } else {
      var front, last := ns[..|ns| - 1], ns[|ns| - 1];
      MultipleRaised(front, n);
      RaisedPlus(Multiple(front), Raised(GENERATOR, last), n);
      RaisedTwice(GENERATOR, last, n);
      assert AllRaised(ns, n)[..|ns| - 1] == AllRaised(front, n);
    }
  }

  lemma {:induction false} MultipleConcat(ms: seq<nat>, ns: seq<nat>)
    ensures Multiple(ms + ns) == Plus(Multiple(ms), Multiple(ns))
  {
    hide Plus, Raised;
    if ns == [] {
      assert ms + ns == ms;
      PlusZero(Multiple(ms));
    } else {
      var front, last := ns[..|ns| - 1], ns[|ns| - 1];
      MultipleConcat(ms, front);
      assert (ms + ns)[..|ms + ns| - 1] == ms + front;
      PlusAssoc(Multiple(ms), Multiple(front), Raised(GENERATOR, last));
    }
  }

  lemma CongruentSelf(p: Poly)
    ensures Congruent(p, p)
  {
    PlusZero(p);
    assert Plus(p, p) == Multiple([]);
  }

  lemma CongruentRaised(p: Poly, q: Poly, n: nat)
    requires Congruent(p, q)
    ensures Congruent(Raised(p, n), Raised(q, n))
  {
    hide Plus, Raised, Multiple;
    var ns: seq<nat> :| Plus(p, q) == Multiple(ns);
    RaisedPlus(p, q, n);
    MultipleRaised(ns, n);
  }

  lemma CongruentPlus(p: Poly, q: Poly, r: Poly)
    requires Congruent(p, q)
    ensures Congruent(Plus(p, r), Plus(q, r))
  {
    hide Plus, Raised, Multiple;
    var ns: seq<nat> :| Plus(p, q) == Multiple(ns);
    PlusSwap(p, r, q, r);
    PlusZero(r);
    PlusZero(Plus(p, q));
  }

  lemma CongruentTransitive(p: Poly, q: Poly, r: Poly)
    requires Congruent(p, q) && Congruent(q, r)
    ensures Congruent(p, r)
  {
    hide Plus, Raised, Multiple;
    var ms: seq<nat> :| Plus(p, q) == Multiple(ms);
    var ns: seq<nat> :| Plus(q, r) == Multiple(ns);
    MultipleConcat(ms, ns);
    PlusAssoc(p, q, Plus(q, r));
    PlusAssoc(q, q, r);
    PlusZero(q);
    PlusZero(r);
  }

  // ---- Registers and bytes as polynomials ----

  /** Bit `i` of a register. */
  predicate Bit(s: bv32, i: nat)
    decreases i
  {
    if i == 0 then s & 1 != 0 else Bit(Half(s), i - 1)
  }

  predicate Coefficient(x: bv32, n: nat, e: nat) {
    e < n && Bit(x, n - 1 - e)
  }

  /** The lowest `n` bits, of which the lowest is the coefficient of x^(n-1). */
  function BitsPoly(x: bv32, n: nat): Poly {
    set e | 0 <= e < n && Coefficient(x, n, e)
  }

  function RegisterPoly(s: bv32): Poly {
    BitsPoly(s, 32)
  }

  function BytePoly(b: byte): Poly {
    BitsPoly(b as bv32, 8)
  }

  /** Bytes follow one another, the last holding the lowest powers. */
  function MessagePoly(data: seq<byte>): Poly {
    if data == [] then {} else Plus(Raised(MessagePoly(data[..|data| - 1]), 8), BytePoly(data[|data| - 1]))
  }

  // ---- Bits ----

  lemma {:induction false} BitXor(a: bv32, b: bv32, i: nat)
    ensures Bit(Xor(a, b), i) <==> Bit(a, i) != Bit(b, i)
    decreases i
  {
    hide Half, Xor;
    if i == 0 {
      LowBitXor(a, b);
    } else {
      XorHalf(a, b);
      BitXor(Half(a), Half(b), i - 1);
    }
  }

  lemma LowBitXor(a: bv32, b: bv32)
    ensures Xor(a, b) & 1 != 0 <==> (a & 1 != 0) != (b & 1 != 0)
  {
    assert Xor(a, b) & 1 == Xor(a & 1, b & 1);
    assert a & 1 == 0 || a & 1 == 1;
    assert b & 1 == 0 || b & 1 == 1;
  }

  function Halved(s: bv32, n: nat): bv32 {
    if n == 0 then s else Half(Halved(s, n - 1))
  }

  lemma {:induction false} HalvedFirst(s: bv32, n: nat)
    ensures Halved(Half(s), n) == Halved(s, n + 1)
  {
    hide Half;
    if n > 0 {
      HalvedFirst(s, n - 1);
    }
  }

  lemma {:induction false} BitAbove(s: bv32, n: nat, i: nat)
    ensures Bit(s, n + i) <==> Bit(Halved(s, n), i)
    decreases n
  {
    hide Half;
    if n > 0 {
      BitAbove(Half(s), n - 1, i);
      HalvedFirst(s, n - 1);
    }
  }

  function Half8(s: bv32): bv32 {
    Half(Half(Half(Half(Half(Half(Half(Half(s))))))))
  }

  lemma Half8IsDrop(s: bv32)
    ensures Half8(s) == s >> 8
  {
    assert (((((((s >> 1) >> 1) >> 1) >> 1) >> 1) >> 1) >> 1) >> 1 == s >> 8;
  }

  lemma HalvedEight(s: bv32)
    ensures Halved(s, 8) == s >> 8
  {
    Half8IsDrop(s);
    hide Half;
    assert Halved(s, 1) == Half(s);
    assert Halved(s, 2) == Half(Half(s));
    assert Halved(s, 3) == Half(Half(Half(s)));
    assert Halved(s, 4) == Half(Half(Half(Half(s))));
    assert Halved(s, 5) == Half(Half(Half(Half(Half(s)))));
    assert Halved(s, 6) == Half(Half(Half(Half(Half(Half(s))))));
    assert Halved(s, 7) == Half(Half(Half(Half(Half(Half(Half(s)))))));
  }

  lemma {:induction false} NoBits(i: nat)
    ensures !Bit(0, i)
  {
    if i > 0 {
      assert Half(0) == 0;
      NoBits(i - 1);
    }
  }

  lemma FourDrops(s: bv32)
    ensures (((s >> 8) >> 8) >> 8) >> 8 == 0
  {
  }

  lemma NoHighBit(s: bv32)
    ensures !Bit(s, 32)
  {
    hide Half, Bit, Halved;
    BitAbove(s, 8, 24);
    HalvedEight(s);
    var s1 := s >> 8;
    BitAbove(s1, 8, 16);
    HalvedEight(s1);
    var s2 := s1 >> 8;
    BitAbove(s2, 8, 8);
    HalvedEight(s2);
    var s3 := s2 >> 8;
    BitAbove(s3, 8, 0);
    HalvedEight(s3);
    FourDrops(s);
    NoBits(0);
  }

  lemma ByteBits(b: byte, i: nat)
    requires i >= 8
    ensures !Bit(b as bv32, i)
  {
    hide Half, Bit, Halved;
    BitAbove(b as bv32, 8, i - 8);
    HalvedEight(b as bv32);
    assert (b as bv32) >> 8 == 0;
    NoBits(i - 8);
  }

  // ---- One clock multiplies by x ----

  /** The feedback constant is the generator without its leading term. */
  lemma FeedbackIsGenerator(e: nat)
    requires e < 32
    ensures Coefficient(0x82F6_3B78, 32, e) <==> e in GENERATOR
  {
    GeneratorBits(31 - e);
  }

  lemma LowestByte(i: nat)
    requires i < 8
    ensures Bit(0x82F6_3B78, i) <==> 31 - i in GENERATOR
  {
    assert !Bit(0x82F6_3B78, 0);
    assert !Bit(0x82F6_3B78, 1);
    assert !Bit(0x82F6_3B78, 2);
    assert Bit(0x82F6_3B78, 3);
    assert Bit(0x82F6_3B78, 4);
    assert Bit(0x82F6_3B78, 5);
    assert Bit(0x82F6_3B78, 6);
    assert !Bit(0x82F6_3B78, 7);
  }

  lemma SecondByte(i: nat)
    requires i < 8
    ensures Bit(0x0082_F63B, i) <==> 23 - i in GENERATOR
  {
    assert Bit(0x0082_F63B, 0);
    assert Bit(0x0082_F63B, 1);
    assert !Bit(0x0082_F63B, 2);
    assert Bit(0x0082_F63B, 3);
    assert Bit(0x0082_F63B, 4);
    assert Bit(0x0082_F63B, 5);
    assert !Bit(0x0082_F63B, 6);
    assert !Bit(0x0082_F63B, 7);
  }

  lemma ThirdByte(i: nat)
    requires i < 8
    ensures Bit(0x0000_82F6, i) <==> 15 - i in GENERATOR
  {
    assert !Bit(0x0000_82F6, 0);
    assert Bit(0x0000_82F6, 1);
    assert Bit(0x0000_82F6, 2);
    assert !Bit(0x0000_82F6, 3);
    assert Bit(0x0000_82F6, 4);
    assert Bit(0x0000_82F6, 5);
    assert Bit(0x0000_82F6, 6);
    assert Bit(0x0000_82F6, 7);
  }

  lemma HighestByte(i: nat)
    requires i < 8
    ensures Bit(0x0000_0082, i) <==> 7 - i in GENERATOR
  {
    assert !Bit(0x0000_0082, 0);
    assert Bit(0x0000_0082, 1);
    assert !Bit(0x0000_0082, 2);
    assert !Bit(0x0000_0082, 3);
    assert !Bit(0x0000_0082, 4);
    assert !Bit(0x0000_0082, 5);
    assert !Bit(0x0000_0082, 6);
    assert Bit(0x0000_0082, 7);
  }

  lemma GeneratorBits(i: nat)
    requires i < 32
    ensures Bit(0x82F6_3B78, i) <==> 31 - i in GENERATOR
  {
    hide Bit, Halved, GENERATOR;
    if i < 8 {
      LowestByte(i);
      return;
    }
    HalvedEight(0x82F6_3B78);
    BitAbove(0x82F6_3B78, 8, i - 8);
    if i < 16 {
      SecondByte(i - 8);
      return;
    }
    HalvedEight(0x0082_F63B);
    BitAbove(0x0082_F63B, 8, i - 16);
    if i < 24 {
      ThirdByte(i - 16);
      return;
    }
    HalvedEight(0x0000_82F6);
    BitAbove(0x0000_82F6, 8, i - 24);
    HighestByte(i - 24);
  }

  lemma RegisterMember(s: bv32, e: nat)
    ensures e in RegisterPoly(s) <==> Coefficient(s, 32, e)
  {
  }

  lemma ClockMember(s: bv32, e: nat)
    ensures e in RegisterPoly(Shift(s)) <==>
            (e in Raised(RegisterPoly(s), 1)) != (s & 1 != 0 && e in GENERATOR)
  {
    hide Half, Xor, RegisterPoly, Raised;
    RegisterMember(Shift(s), e);
    RaisedMember(RegisterPoly(s), 1, e);
    if e > 0 {
      RegisterMember(s, e - 1);
    }
    if e < 32 {
      BitXor(Half(s), Feedback(s), 31 - e);
      NoBits(31 - e);
      FeedbackIsGenerator(e);
      NoHighBit(s);
    }
  }

  /** A clock multiplies by x and takes the generator away if x^32 appears. */
  lemma ClockRaises(s: bv32)
    ensures RegisterPoly(Shift(s)) == Plus(Raised(RegisterPoly(s), 1), if s & 1 != 0 then GENERATOR else {})
    ensures Congruent(Raised(RegisterPoly(s), 1), RegisterPoly(Shift(s)))
  {
    hide RegisterPoly, Raised, Shift, GENERATOR;
    var p, q, g := Raised(RegisterPoly(s), 1), RegisterPoly(Shift(s)), if s & 1 != 0 then GENERATOR else {};
    forall e: nat
      ensures e in q <==> e in Plus(p, g)
    {
      ClockMember(s, e);
    }
    assert q == Plus(p, g);
    TakenAway(p, g);
    OneMultiple();
  }

  lemma TakenAway(p: Poly, g: Poly)
    ensures Plus(p, Plus(p, g)) == g
  {
  }

  lemma OneMultiple()
    ensures Multiple([]) == {} && Multiple([0]) == GENERATOR
  {
    assert [0][..0] == [];
    RaisedTwice(GENERATOR, 0, 0);
    PlusZero(GENERATOR);
  }

  lemma {:induction false} ClocksRaise(s: bv32, n: nat)
    ensures Congruent(Raised(RegisterPoly(s), n), RegisterPoly(ShiftN(s, n)))
  {
    hide RegisterPoly, Raised, Shift, Congruent;
    RaisedTwice(RegisterPoly(s), 0, 0);
    if n == 0 {
      CongruentSelf(RegisterPoly(s));
    } else {
      ClocksRaise(s, n - 1);
      CongruentRaised(Raised(RegisterPoly(s), n - 1), RegisterPoly(ShiftN(s, n - 1)), 1);
      RaisedTwice(RegisterPoly(s), n - 1, 1);
      ClockRaises(ShiftN(s, n - 1));
      CongruentTransitive(Raised(RegisterPoly(s), n), Raised(RegisterPoly(ShiftN(s, n - 1)), 1), RegisterPoly(ShiftN(s, n)));
    }
  }

  // ---- Messages ----

  lemma RegisterXor(a: bv32, b: bv32)
    ensures RegisterPoly(Xor(a, b)) == Plus(RegisterPoly(a), RegisterPoly(b))
  {
    hide Xor, RegisterPoly;
    forall e: nat
      ensures e in RegisterPoly(Xor(a, b)) <==> e in Plus(RegisterPoly(a), RegisterPoly(b))
    {
      RegisterMember(Xor(a, b), e);
      RegisterMember(a, e);
      RegisterMember(b, e);
      if e < 32 {
        BitXor(a, b, 31 - e);
      }
    }
  }

  lemma ByteEntersHigh(b: byte)
    ensures RegisterPoly(b as bv32) == Raised(BytePoly(b), 24)
  {
    hide RegisterPoly, Raised, Bit;
    forall e: nat
      ensures e in RegisterPoly(b as bv32) <==> e in Raised(BytePoly(b), 24)
    {
      RegisterMember(b as bv32, e);
      RaisedMember(BytePoly(b), 24, e);
      if e < 24 {
        ByteBits(b, 31 - e);
      } else if e < 32 {
        assert Coefficient(b as bv32, 8, e - 24) <==> Coefficient(b as bv32, 32, e);
      }
    }
  }

  lemma FeedRaises(s: bv32, b: byte)
    ensures Congruent(Plus(Raised(RegisterPoly(s), 8), Raised(BytePoly(b), 32)), RegisterPoly(FeedByte(s, b)))
  {
    hide RegisterPoly, Raised, BytePoly, Congruent, Xor, Shift8, Plus;
    RegisterXor(s, b as bv32);
    ByteEntersHigh(b);
    var x := Xor(s, b as bv32);
    ClocksRaise(x, 8);
    ShiftEight(x);
    RaisedPlus(RegisterPoly(s), Raised(BytePoly(b), 24), 8);
    RaisedTwice(BytePoly(b), 24, 8);
  }

  /** The message behind the starting state. */
  function Dividend(s: bv32, data: seq<byte>): Poly {
    Plus(Raised(RegisterPoly(s), 8 * |data|), Raised(MessagePoly(data), 32))
  }

  lemma DividendNext(s: bv32, front: seq<byte>, b: byte)
    ensures Dividend(s, front + [b]) == Plus(Raised(Dividend(s, front), 8), Raised(BytePoly(b), 32))
  {
    hide RegisterPoly, Raised, BytePoly, Plus;
    assert (front + [b])[..|front|] == front;
    var r, m, c := RegisterPoly(s), MessagePoly(front), BytePoly(b);
    RaisedPlus(Raised(m, 8), c, 32);
    RaisedTwice(m, 8, 32);
    RaisedPlus(Raised(r, 8 * |front|), Raised(m, 32), 8);
    RaisedTwice(r, 8 * |front|, 8);
    RaisedTwice(m, 32, 8);
    PlusAssoc(Raised(r, 8 * |front| + 8), Raised(m, 40), Raised(c, 32));
  }

  lemma {:induction false} CrcCongruent(s: bv32, data: seq<byte>)
    ensures Congruent(Dividend(s, data), RegisterPoly(Crc(s, data)))
  {
    hide RegisterPoly, Raised, BytePoly, Congruent, Plus, FeedByte, Dividend;
    if data == [] {
      EmptyDividend(s);
      CongruentSelf(RegisterPoly(s));
    } else {
      var front, b := data[..|data| - 1], data[|data| - 1];
      assert data == front + [b];
      var c := Crc(s, front);
      CrcCongruent(s, front);
      CongruentRaised(Dividend(s, front), RegisterPoly(c), 8);
      CongruentPlus(Raised(Dividend(s, front), 8), Raised(RegisterPoly(c), 8), Raised(BytePoly(b), 32));
      DividendNext(s, front, b);
      FeedRaises(c, b);
      CongruentTransitive(Dividend(s, data), Plus(Raised(RegisterPoly(c), 8), Raised(BytePoly(b), 32)), RegisterPoly(FeedByte(c, b)));
    }
  }

  lemma EmptyDividend(s: bv32)
    ensures Dividend(s, []) == RegisterPoly(s)
  {
    hide RegisterPoly;
    RaisedTwice(RegisterPoly(s), 0, 0);
    RaisedNothing(32);
    PlusZero(RegisterPoly(s));
  }

  /** The register after a message is the remainder of the message, behind its starting state, modulo the generator. */
  lemma CrcIsRemainder(s: bv32, data: seq<byte>)
    ensures Remainder(Dividend(s, data), RegisterPoly(Crc(s, data)))
  {
    hide Congruent, Dividend, Crc;
    CrcCongruent(s, data);
  }

  // ---- The remainder is unique ----

  ghost predicate Rising(ns: seq<nat>) {
    forall i, j :: 0 <= i < j < |ns| ==> ns[i] < ns[j]
  }

  lemma PlusTwice(p: Poly, q: Poly)
    ensures Plus(Plus(p, q), q) == p
  {
  }

  lemma MultipleNext(ns: seq<nat>, n: nat)
    ensures Multiple(ns + [n]) == Plus(Multiple(ns), Raised(GENERATOR, n))
  {
    assert (ns + [n])[..|ns|] == ns;
  }

  /** Adding x^n times the generator to a multiple with rising powers. */
  lemma {:induction false} AddedPower(ns: seq<nat>, n: nat) returns (ms: seq<nat>)
    requires Rising(ns)
    ensures Rising(ms) && Multiple(ms) == Plus(Multiple(ns), Raised(GENERATOR, n))
    ensures forall x :: x in ms ==> x in ns || x == n
  {
    hide Plus, Raised, Multiple, GENERATOR;
    if ns == [] || ns[|ns| - 1] < n {
      ms := ns + [n];
      MultipleNext(ns, n);
    } else {
      var front, last := ns[..|ns| - 1], ns[|ns| - 1];
      assert ns == front + [last];
      MultipleNext(front, last);
      if last == n {
        ms := front;
        PlusTwice(Multiple(front), Raised(GENERATOR, n));
      } else {
        var rest := AddedPower(front, n);
        forall i | 0 <= i < |rest|
          ensures rest[i] < last
        {
          assert rest[i] in rest;
        }
        ms := rest + [last];
        MultipleNext(rest, last);
        PlusAssoc(Multiple(front), Raised(GENERATOR, n), Raised(GENERATOR, last));
        PlusComm(Raised(GENERATOR, n), Raised(GENERATOR, last));
        PlusAssoc(Multiple(front), Raised(GENERATOR, last), Raised(GENERATOR, n));
      }
    }
  }

  lemma {:induction false} RisingPowers(ns: seq<nat>) returns (ms: seq<nat>)
    ensures Rising(ms) && Multiple(ms) == Multiple(ns)
  {
    if ns == [] {
      ms := [];
    } else {
      var rest := RisingPowers(ns[..|ns| - 1]);
      ms := AddedPower(rest, ns[|ns| - 1]);
    }
  }

  lemma GeneratorTop(n: nat, e: nat)
    ensures n + 32 in Raised(GENERATOR, n) && (e in Raised(GENERATOR, n) ==> e <= n + 32)
  {
    RaisedMember(GENERATOR, n, n + 32);
    RaisedMember(GENERATOR, n, e);
  }

  /** The highest power of a multiple comes from its highest term alone. */
  lemma {:induction false} TopPower(ns: seq<nat>, e: nat)
    requires Rising(ns) && ns != []
    ensures ns[|ns| - 1] + 32 in Multiple(ns) && (e in Multiple(ns) ==> e <= ns[|ns| - 1] + 32)
  {
    hide Raised, GENERATOR;
    var front, last := ns[..|ns| - 1], ns[|ns| - 1];
    GeneratorTop(last, e);
    if front == [] {
      PlusZero(Raised(GENERATOR, last));
    } else {
      TopPower(front, e);
      TopPower(front, last + 32);
    }
  }

  lemma SmallMultiple(ns: seq<nat>)
    requires forall e :: e in Multiple(ns) ==> e < 32
    ensures Multiple(ns) == {}
  {
    hide Plus, Raised, GENERATOR;
    var ms := RisingPowers(ns);
    if ms != [] {
      TopPower(ms, 0);
    }
  }

  /** There is only one remainder, so that the register is determined by the generator. */
  lemma RemainderUnique(p: Poly, r: Poly, r': Poly)
    requires Remainder(p, r) && Remainder(p, r')
    ensures r == r'
  {
    hide Multiple;
    var ms: seq<nat> :| Plus(p, r) == Multiple(ms);
    var ns: seq<nat> :| Plus(p, r') == Multiple(ns);
    MultipleConcat(ms, ns);
    assert Plus(Plus(p, r), Plus(p, r')) == Plus(r, r');
    SmallMultiple(ms + ns);
  }

  // ---- The check value ----

  /** The digits 1 to 9. */
  const DIGITS: seq<byte> := [0x31, 0x32, 0x33, 0x34, 0x35, 0x36, 0x37, 0x38, 0x39]

  lemma FirstDigits()
    ensures Crc(INIT, DIGITS[..5]) == 0xE72E_DCCA
  {
    hide Crc;
    CrcNext(INIT, DIGITS, 0);
    assert FeedByte(0xFFFF_FFFF, 0x31) == 0x6F0A_661C;
    CrcNext(INIT, DIGITS, 1);
    assert FeedByte(0x6F0A_661C, 0x32) == 0x8CAA_3B9F;
    CrcNext(INIT, DIGITS, 2);
    assert FeedByte(0x8CAA_3B9F, 0x33) == 0xEF84_D04D;
    CrcNext(INIT, DIGITS, 3);
    assert FeedByte(0xEF84_D04D, 0x34) == 0x09C5_0B11;
    CrcNext(INIT, DIGITS, 4);
    assert FeedByte(0x09C5_0B11, 0x35) == 0xE72E_DCCA;
    WholePrefix(INIT, DIGITS);
  }

  lemma CheckValue()
    ensures Crc(INIT, DIGITS) ^ 0xFFFF_FFFF == 0xE306_9283
  {
    hide Crc;
    FirstDigits();
    CrcNext(INIT, DIGITS, 5);
    assert FeedByte(0xE72E_DCCA, 0x36) == 0xBECA_8E79;
    CrcNext(INIT, DIGITS, 6);
    assert FeedByte(0xBECA_8E79, 0x37) == 0xEDBD_6815;
    CrcNext(INIT, DIGITS, 7);
    assert FeedByte(0xEDBD_6815, 0x38) == 0x9F78_7F65;
    CrcNext(INIT, DIGITS, 8);
    assert FeedByte(0x9F78_7F65, 0x39) == 0x1CF9_6D7C;
    WholePrefix(INIT, DIGITS);
  }
}
