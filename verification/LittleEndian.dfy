/** Fixed-width little-endian integers. */
module LittleEndian {
  import opened Bytes

  function Pow256(w: nat): (p: nat)
    ensures p > 0
  {
    if w == 0 then 1 else 256 * Pow256(w - 1)
  }

  lemma NextByte(b: byte)
    requires b < 255
    ensures (b + 1) as nat == b as nat + 1
  {
  }

  lemma ByteInjective(a: byte, b: byte)
    requires a as nat == b as nat
    ensures a == b
  {
  }

  /** The byte of value `d`. */
  function ByteOf(d: nat): (b: byte)
    requires d < 256
    ensures b as nat == d
  {
    if d == 0 then 0
    else
      var b := ByteOf(d - 1);
      NextByte(b);
      b + 1
  }

  function Digit(n: nat): byte {
    ByteOf(n % 256)
  }

  lemma DigitValue(n: nat)
    ensures Digit(n) as nat == n % 256
  {
    hide ByteOf;
  }

  lemma ByteRange(b: byte)
    ensures (b as nat) < 256
  {
  }

  lemma SmallDigit(d: nat, m: nat)
    requires d < 256
    ensures (d + 256 * m) / 256 == m && Digit(d + 256 * m) == ByteOf(d)
  {
    hide ByteOf;
    assert (d + 256 * m) % 256 == d;
  }

  lemma LowDigit(b: byte, m: nat)
    ensures (b as nat + 256 * m) / 256 == m && Digit(b as nat + 256 * m) == b
  {
    hide ByteOf, Digit;
    ByteRange(b);
    var d := b as nat;
    SmallDigit(d, m);
    ByteInjective(ByteOf(d), b);
  }

  function Encode(n: nat, w: nat): (s: seq<byte>)
    ensures |s| == w
  {
    if w == 0 then [] else [Digit(n)] + Encode(n / 256, w - 1)
  }

  function Decode(s: seq<byte>): nat {
    if s == [] then 0 else s[0] as nat + 256 * Decode(s[1..])
  }

  lemma {:induction false} DecodeEncode(n: nat, w: nat)
    requires n < Pow256(w)
    ensures Decode(Encode(n, w)) == n
  {
    hide Digit;
    if w > 0 {
      DigitValue(n);
      DecodeEncode(n / 256, w - 1);
      assert Encode(n, w)[1..] == Encode(n / 256, w - 1);
    }
  }

  lemma {:induction false} EncodeDecode(s: seq<byte>)
    ensures Decode(s) < Pow256(|s|) && Encode(Decode(s), |s|) == s
  {
    hide Digit;
    if s != [] {
      ByteRange(s[0]);
      LowDigit(s[0], Decode(s[1..]));
      EncodeDecode(s[1..]);
      assert s == [s[0]] + s[1..];
    }
  }

  lemma DivideTwice(n: nat, a: nat, b: nat)
    requires a > 0 && b > 0
    ensures a * b > 0 && n / a / b == n / (a * b)
  {
    DivideDigits(n, a, b, n / a, n % a, n / a / b, n / a % b);
  }

  lemma DivideDigits(n: nat, a: nat, b: nat, m: nat, x: nat, q: nat, y: nat)
    requires n == a * m + x && x < a && m == b * q + y && y < b
    ensures a * b > 0 && n / (a * b) == q
  {
    calc {
      n;
      a * (b * q + y) + x;
      { Spread(a, b * q, y); }
      a * (b * q) + a * y + x;
      { Associate(a, b, q); }
      a * b * q + (a * y + x);
    }
    Times(a, y, b - 1);
    Spread(a, b, -1);
    QuotientOf(n, a * b, q, a * y + x);
  }

  lemma Spread(a: nat, x: int, y: int)
    ensures a * (x + y) == a * x + a * y
  {
  }

  lemma Associate(a: nat, b: nat, c: nat)
    ensures a * (b * c) == a * b * c
  {
  }

  lemma Times(a: nat, x: int, y: int)
    requires x <= y
    ensures a * x <= a * y
  {
  }

  lemma QuotientOf(n: nat, c: nat, q: int, r: int)
    requires c > 0 && n == c * q + r && 0 <= r < c
    ensures n / c == q
  {
    var d := n / c - q;
    assert c * d == r - n % c;
    if d > 0 {
      Times(c, 1, d);
    } else if d < 0 {
      Times(c, d, -1);
    }
  }

  /** Byte `i` is the `i`-th digit to base 256, the least significant first. */
  lemma {:induction false} EncodeDigits(n: nat, w: nat, i: nat)
    requires i < w
    ensures Encode(n, w)[i] as nat == n / Pow256(i) % 256
  {
    hide Digit;
    if i == 0 {
      DigitValue(n);
    } else {
      EncodeDigits(n / 256, w - 1, i - 1);
      DivideTwice(n, 256, Pow256(i - 1));
      assert Encode(n, w)[i] == Encode(n / 256, w - 1)[i - 1];
    }
  }

  /** The `w` bytes of `s` from `at` on are the digits of `n` to base 256, the least significant first. */
  predicate Stores(s: seq<byte>, at: nat, w: nat, n: nat) {
    at + w <= |s| && forall i :: 0 <= i < w ==> s[at + i] as nat == n / Pow256(i) % 256
  }

  lemma EncodeStores(a: seq<byte>, n: nat, w: nat, b: seq<byte>)
    ensures Stores(a + Encode(n, w) + b, |a|, w, n)
  {
    var s := a + Encode(n, w) + b;
    forall i | 0 <= i < w
      ensures s[|a| + i] as nat == n / Pow256(i) % 256
    {
      EncodeDigits(n, w, i);
      assert s[|a| + i] == Encode(n, w)[i];
    }
  }

  lemma SliceStores(s: seq<byte>, at: nat, n: nat, w: nat)
    requires at + w <= |s| && s[at..at + w] == Encode(n, w)
    ensures Stores(s, at, w, n)
  {
    hide Encode;
    EncodeStores(s[..at], n, w, s[at + w..]);
    assert s == s[..at] + Encode(n, w) + s[at + w..];
  }

  lemma Widths()
    ensures Pow256(4) == U32_MAX + 1 && Pow256(8) == U64_MAX + 1
  {
    assert Pow256(2) == 65536;
    assert Pow256(4) == 256 * (256 * Pow256(2));
    assert Pow256(6) == 256 * (256 * Pow256(4));
    assert Pow256(8) == 256 * (256 * Pow256(6));
  }

  function Le32(n: u32): (s: seq<byte>)
    ensures |s| == 4
  {
    Encode(n, 4)
  }

  function Le64(n: u64): (s: seq<byte>)
    ensures |s| == 8
  {
    Encode(n, 8)
  }

  function ReadLe32(s: seq<byte>): (n: u32)
    requires |s| == 4
    ensures Le32(n) == s
  {
    Widths();
    EncodeDecode(s);
    Decode(s)
  }

  function ReadLe64(s: seq<byte>): (n: u64)
    requires |s| == 8
    ensures Le64(n) == s
  {
    Widths();
    EncodeDecode(s);
    Decode(s)
  }

  lemma ReadsBack32(n: u32)
    ensures ReadLe32(Le32(n)) == n
  {
    Widths();
    DecodeEncode(n, 4);
  }

  lemma ReadsBack64(n: u64)
    ensures ReadLe64(Le64(n)) == n
  {
    Widths();
    DecodeEncode(n, 8);
  }
}
