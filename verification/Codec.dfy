/**
 Order-preserving primary keys.

 Each column value becomes a byte string, and a row key is the table name followed by its columns,
 separated by zero bytes. Byte order of keys is column-by-column order of values.
 */
module Codec {
  import opened Bytes
  import opened Sequences
  import opened LittleEndian

  // ---- Big-endian numbers ----

  function High(n: nat, p: nat): nat
    requires p > 0
  {
    n / p
  }

  function Low(n: nat, p: nat): nat
    requires p > 0
  {
    n % p
  }

  /** `w` bytes, most significant first. */
  function BigEndian(n: nat, w: nat): (s: seq<byte>)
    requires n < Pow256(w)
    ensures |s| == w
  {
    if w == 0 then []
    else
      TopByte(n, Pow256(w - 1));
      [ByteOf(High(n, Pow256(w - 1)))] + BigEndian(Low(n, Pow256(w - 1)), w - 1)
  }

  lemma TopByte(n: nat, p: nat)
    requires p > 0 && n < 256 * p
    ensures High(n, p) < 256 && Low(n, p) < p
  {
  }

  lemma HigherWins(p: nat, q: nat, r: nat, q': nat, r': nat)
    requires r < p && q < q'
    ensures p * q + r < p * q' + r'
  {
    assert p * (q + 1) <= p * q';
  }

  lemma Digits(n: nat, p: nat)
    requires p > 0
    ensures n == p * High(n, p) + Low(n, p) && Low(n, p) < p
  {
  }

  lemma DigitsOrder(n: nat, m: nat, p: nat)
    requires p > 0
    ensures n < m <==> High(n, p) < High(m, p) || (High(n, p) == High(m, p) && Low(n, p) < Low(m, p))
  {
    hide High, Low;
    Digits(n, p);
    Digits(m, p);
    if High(n, p) < High(m, p) {
      HigherWins(p, High(n, p), Low(n, p), High(m, p), Low(m, p));
    } else if High(m, p) < High(n, p) {
      HigherWins(p, High(m, p), Low(m, p), High(n, p), Low(n, p));
    }
  }

  lemma ByteOrder(a: byte, b: byte)
    ensures a < b <==> a as nat < b as nat
  {
  }

  lemma ByteOfOrder(d: nat, e: nat)
    requires d < 256 && e < 256
    ensures ByteOf(d) < ByteOf(e) <==> d < e
    ensures ByteOf(d) == ByteOf(e) <==> d == e
  {
    hide ByteOf;
    ByteOrder(ByteOf(d), ByteOf(e));
  }

  lemma LessCons(a: byte, s: Key, b: byte, t: Key)
    ensures Less([a] + s, [b] + t) <==> a < b || (a == b && Less(s, t))
  {
    assert ([a] + s)[1..] == s && ([b] + t)[1..] == t;
  }

  lemma {:induction false} BigEndianOrder(n: nat, m: nat, w: nat)
    requires n < Pow256(w) && m < Pow256(w)
    ensures Less(BigEndian(n, w), BigEndian(m, w)) <==> n < m
    decreases w
  {
    hide ByteOf, High, Low;
    if w > 0 {
      var p := Pow256(w - 1);
      TopByte(n, p);
      TopByte(m, p);
      BigEndianOrder(Low(n, p), Low(m, p), w - 1);
      DigitsOrder(n, m, p);
      ByteOfOrder(High(n, p), High(m, p));
      LessCons(ByteOf(High(n, p)), BigEndian(Low(n, p), w - 1), ByteOf(High(m, p)), BigEndian(Low(m, p), w - 1));
    }
  }

  // ---- Scalars ----

  /** A column value; dates and timestamps are signed numbers, floats are given by their bits. */
  datatype Scalar =
    | Null
    | Signed(width: nat, v: int)
    | Unsigned(width: nat, n: nat)
    | Float(width: nat, bits: nat)
    | Boolean(b: bool)
    | Text(bytes: seq<byte>)
  {
    /** Widths are 1, 2, 4 or 8 bytes, floats 4 or 8, and numbers are in the range of their width. */
    predicate Valid() {
      match this
      case Signed(w, v) => w in {1, 2, 4, 8} && 0 <= v + Half(w) < Pow256(w)
      case Unsigned(w, n) => w in {1, 2, 4, 8} && n < Pow256(w)
      case Float(w, bits) => w in {4, 8} && bits < Pow256(w)
      case _ => true
    }

    predicate SameType(other: Scalar) {
      match this
      case Null => other.Null?
      case Signed(w, _) => other.Signed? && other.width == w
      case Unsigned(w, _) => other.Unsigned? && other.width == w
      case Float(w, _) => other.Float? && other.width == w
      case Boolean(_) => other.Boolean?
      case Text(_) => other.Text?
    }
  }

  /** Half the range of `w` bytes: the weight of the top bit. */
  function Half(w: nat): nat
    requires w > 0
  {
    128 * Pow256(w - 1)
  }

  lemma HalfIsHalf(w: nat)
    requires w > 0
    ensures Half(w) + Half(w) == Pow256(w)
  {
  }

  function TwosComplement(v: int, w: nat): (n: nat)
    requires w > 0 && 0 <= v + Half(w) < Pow256(w)
    ensures n < Pow256(w)
  {
    HalfIsHalf(w);
    if v < 0 then v + Pow256(w) else v
  }

  /** Inverts the top bit. */
  function FlipTop(n: nat, w: nat): (r: nat)
    requires w > 0 && n < Pow256(w)
    ensures r < Pow256(w)
  {
    HalfIsHalf(w);
    if n >= Half(w) then n - Half(w) else n + Half(w)
  }

  /** Inverts all bits of a negative float and the sign bit of the others. */
  function TotalOrderBits(bits: nat, w: nat): (r: nat)
    requires w > 0 && bits < Pow256(w)
    ensures r < Pow256(w)
  {
    if bits >= Half(w) then Pow256(w) - 1 - bits else FlipTop(bits, w)
  }

  /** Zero bytes become `00 FF`; a zero byte ends the string. */
  function Escaped(s: seq<byte>): seq<byte> {
    if s == [] then [0]
    else EscapedByte(s[0]) + Escaped(s[1..])
  }

  function EscapedByte(b: byte): seq<byte> {
    if b == 0 then [0, 0xFF] else [b]
  }

  /** The terminator is the only zero byte that is not part of an escape, so that two zero bytes never meet. */
  lemma {:induction false} EscapedDelimits(s: seq<byte>, i: nat)
    requires i < |Escaped(s)|
    ensures Escaped(s)[i] == 0 && i < |Escaped(s)| - 1 ==> Escaped(s)[i + 1] == 0xFF
    ensures Escaped(s)[|Escaped(s)| - 1] == 0
  {
    if s != [] {
      var e, rest := EscapedByte(s[0]), Escaped(s[1..]);
      EscapedDelimits(s[1..], if i >= |e| then i - |e| else 0);
    }
  }

  method EscapeBytes(s: seq<byte>) returns (out: seq<byte>)
    ensures out == Escaped(s)
  {
    hide Escaped, EscapedByte;
    out := [];
    EscapedEnds(s);
    for i := 0 to |s|
      invariant out + Escaped(s[i..]) == Escaped(s)
    {
      EscapedNext(s, i, out);
      var e := EscapeByte(s[i]);
      out := out + e;
    }
    out := out + [0];
  }

  method EscapeByte(b: byte) returns (out: seq<byte>)
    ensures out == EscapedByte(b)
  {
    if b == 0 {
      out := [0];
      out := out + [0xFF];
    } else {
      out := [b];
    }
  }

  lemma EscapedNext(s: seq<byte>, i: nat, out: seq<byte>)
    requires i < |s|
    ensures out + Escaped(s[i..]) == (out + EscapedByte(s[i])) + Escaped(s[i + 1..])
  {
    hide EscapedByte;
    assert s[i..][1..] == s[i + 1..];
  }

  lemma EscapedEnds(s: seq<byte>)
    ensures s[0..] == s && [] + Escaped(s) == Escaped(s) && Escaped(s[|s|..]) == [0]
  {
  }

  /** The bytes of a primary-key value; a null has none. */
  function EncodePkValue(x: Scalar): (e: Option<seq<byte>>)
    requires x.Valid()
    ensures e.None? <==> x.Null?
  {
    match x
    case Null => None
    case Signed(w, v) => Some(BigEndian(FlipTop(TwosComplement(v, w), w), w))
    case Unsigned(w, n) => Some(BigEndian(n, w))
    case Float(w, bits) => Some(BigEndian(TotalOrderBits(bits, w), w))
    case Boolean(b) => Some([if b then 1 else 0])
    case Text(s) => Some(Escaped(s))
  }

  // ---- Orders ----

  /** Total order of floats, section 5.10 of IEEE 754-2008: by sign, then by magnitude, reversed for negatives. */
  predicate FloatLess(a: nat, b: nat, w: nat)
    requires w > 0
  {
    if a >= Half(w) then (b >= Half(w) ==> a > b) else b < Half(w) && a < b
  }

  predicate ValueLess(x: Scalar, y: Scalar)
    requires x.Valid() && y.Valid() && x.SameType(y)
  {
    match x
    case Null => false
    case Signed(_, v) => v < y.v
    case Unsigned(_, n) => n < y.n
    case Float(w, bits) => FloatLess(bits, y.bits, w)
    case Boolean(b) => !b && y.b
    case Text(s) => Less(s, y.bytes)
  }

  // ---- One column ----

  lemma SignedOrder(v: int, u: int, w: nat)
    requires w > 0 && 0 <= v + Half(w) < Pow256(w) && 0 <= u + Half(w) < Pow256(w)
    ensures FlipTop(TwosComplement(v, w), w) == v + Half(w)
    ensures FlipTop(TwosComplement(v, w), w) < FlipTop(TwosComplement(u, w), w) <==> v < u
  {
    HalfIsHalf(w);
    hide Pow256, Half;
  }

  lemma FloatOrder(a: nat, b: nat, w: nat)
    requires w > 0 && a < Pow256(w) && b < Pow256(w)
    ensures TotalOrderBits(a, w) < TotalOrderBits(b, w) <==> FloatLess(a, b, w)
    ensures TotalOrderBits(a, w) == TotalOrderBits(b, w) <==> a == b
  {
    HalfIsHalf(w);
    hide Pow256, Half;
  }

  /** What may follow a column in a key: the end, or the separator before the next column. */
  predicate Boundary(rest: seq<byte>) {
    rest == [] || rest[0] == 0
  }

  lemma {:induction false} EqualLengths(a: seq<byte>, b: seq<byte>, ra: seq<byte>, rb: seq<byte>)
    requires |a| == |b|
    ensures Less(a + ra, b + rb) <==> Less(a, b) || (a == b && Less(ra, rb))
  {
    if a == [] {
      assert a + ra == ra && b + rb == rb;
    } else {
      EqualLengths(a[1..], b[1..], ra, rb);
      assert a == [a[0]] + a[1..] && b == [b[0]] + b[1..];
      LessCons(a[0], a[1..], b[0], b[1..]);
      LessCons(a[0], a[1..] + ra, b[0], b[1..] + rb);
      assert a + ra == [a[0]] + (a[1..] + ra) && b + rb == [b[0]] + (b[1..] + rb);
    }
  }

  /** An escaped string with what follows it, by its first byte. */
  lemma EscapedHead(s: seq<byte>, rest: seq<byte>)
    requires s != []
    ensures Escaped(s) + rest == EscapedByte(s[0]) + (Escaped(s[1..]) + rest)
    ensures s[0] != 0 ==> Escaped(s) + rest == [s[0]] + (Escaped(s[1..]) + rest)
    ensures s[0] == 0 ==> Escaped(s) + rest == [0] + ([0xFF] + (Escaped(s[1..]) + rest))
  {
    hide EscapedByte;
    Regroup(EscapedByte(s[0]), Escaped(s[1..]), rest);
    EscapedByteCases(s[0], Escaped(s[1..]) + rest);
  }

  lemma EscapedByteCases(b: byte, t: seq<byte>)
    ensures b != 0 ==> EscapedByte(b) + t == [b] + t
    ensures b == 0 ==> EscapedByte(b) + t == [0] + ([0xFF] + t)
  {
  }

  lemma EndsFirst(y: seq<byte>, ra: seq<byte>, rb: seq<byte>)
    requires y != [] && Boundary(ra)
    ensures Less([0] + ra, Escaped(y) + rb) && !Less(Escaped(y) + rb, [0] + ra)
  {
    hide Escaped;
    EscapedHead(y, rb);
    var t := Escaped(y[1..]) + rb;
    if y[0] == 0 {
      LessCons(0, ra, 0, [0xFF] + t);
      LessCons(0, [0xFF] + t, 0, ra);
      SeparatorBeforeFf(ra, t);
    } else {
      LessCons(0, ra, y[0], t);
      LessCons(y[0], t, 0, ra);
    }
  }

  lemma SeparatorBeforeFf(ra: seq<byte>, t: seq<byte>)
    requires Boundary(ra)
    ensures Less(ra, [0xFF] + t) && !Less([0xFF] + t, ra)
  {
    if ra != [] {
      assert ra == [0] + ra[1..];
      LessCons(0, ra[1..], 0xFF, t);
      LessCons(0xFF, t, 0, ra[1..]);
    }
  }

  lemma HeadsDiffer(x: seq<byte>, y: seq<byte>, ra: seq<byte>, rb: seq<byte>)
    requires x != [] && y != [] && x[0] != y[0]
    ensures Less(Escaped(x) + ra, Escaped(y) + rb) <==> x[0] < y[0]
  {
    hide Escaped;
    EscapedHead(x, ra);
    EscapedHead(y, rb);
    var s, t := Escaped(x[1..]) + ra, Escaped(y[1..]) + rb;
    LessCons(x[0], if x[0] == 0 then [0xFF] + s else s, y[0], if y[0] == 0 then [0xFF] + t else t);
  }

  /** Escaping keeps the order of strings, whatever columns follow. */
  lemma {:induction false} EscapedOrder(x: seq<byte>, y: seq<byte>, ra: seq<byte>, rb: seq<byte>)
    requires Boundary(ra) && Boundary(rb)
    ensures Less(Escaped(x) + ra, Escaped(y) + rb) <==> Less(x, y) || (x == y && Less(ra, rb))
  {
    hide EscapedByte;
    if x == [] && y == [] {
      LessCons(0, ra, 0, rb);
    } else if x == [] {
      EndsFirst(y, ra, rb);
    } else if y == [] {
      EndsFirst(x, rb, ra);
    } else if x[0] != y[0] {
      HeadsDiffer(x, y, ra, rb);
    } else {
      EscapedOrder(x[1..], y[1..], ra, rb);
      EscapedHead(x, ra);
      EscapedHead(y, rb);
      LessAfterPrefix(EscapedByte(x[0]), Escaped(x[1..]) + ra, Escaped(y[1..]) + rb);
      assert x == [x[0]] + x[1..] && y == [y[0]] + y[1..];
    }
  }

  lemma BigEndianColumn(n: nat, m: nat, w: nat, ra: seq<byte>, rb: seq<byte>)
    requires n < Pow256(w) && m < Pow256(w)
    ensures Less(BigEndian(n, w) + ra, BigEndian(m, w) + rb) <==> n < m || (n == m && Less(ra, rb))
  {
    hide BigEndian, Less;
    BigEndianOrder(n, m, w);
    BigEndianOrder(m, n, w);
    EqualLengths(BigEndian(n, w), BigEndian(m, w), ra, rb);
    LessIrreflexive(BigEndian(n, w));
    LessTotal(BigEndian(n, w), BigEndian(m, w));
  }

  /** Encoded columns compare like their values, and equal columns leave the order to what follows. */
  lemma ColumnOrder(x: Scalar, y: Scalar, ra: seq<byte>, rb: seq<byte>)
    requires x.Valid() && y.Valid() && x.SameType(y) && !x.Null? && Boundary(ra) && Boundary(rb)
    ensures Less(EncodePkValue(x).value + ra, EncodePkValue(y).value + rb) <==> ValueLess(x, y) || (x == y && Less(ra, rb))
  {
    hide BigEndian, Less, Escaped, Boundary, FlipTop, TwosComplement, TotalOrderBits, FloatLess, Pow256, Half;
    match x
    case Signed(w, v) =>
      SignedOrder(v, y.v, w);
      SignedOrder(y.v, v, w);
      BigEndianColumn(FlipTop(TwosComplement(v, w), w), FlipTop(TwosComplement(y.v, w), w), w, ra, rb);
    case Unsigned(w, n) =>
      BigEndianColumn(n, y.n, w, ra, rb);
    case Float(w, bits) =>
      FloatOrder(bits, y.bits, w);
      BigEndianColumn(TotalOrderBits(bits, w), TotalOrderBits(y.bits, w), w, ra, rb);
    case Boolean(b) =>
      LessCons(if b then 1 else 0, ra, if y.b then 1 else 0, rb);
    case Text(s) =>
      EscapedOrder(s, y.bytes, ra, rb);
  }

  // ---- Rows ----

  predicate RowOk(xs: seq<Scalar>) {
    forall i :: 0 <= i < |xs| ==> xs[i].Valid() && !xs[i].Null?
  }

  predicate SameColumns(xs: seq<Scalar>, ys: seq<Scalar>) {
    |xs| == |ys| && forall i :: 0 <= i < |xs| ==> xs[i].SameType(ys[i])
  }

  /** Column-by-column order. */
  predicate RowLess(xs: seq<Scalar>, ys: seq<Scalar>)
    requires RowOk(xs) && RowOk(ys) && SameColumns(xs, ys)
  {
    xs != [] && (ValueLess(xs[0], ys[0]) || (xs[0] == ys[0] && RowLess(xs[1..], ys[1..])))
  }

  function Parts(xs: seq<Scalar>): seq<seq<byte>>
    requires RowOk(xs)
  {
    if xs == [] then [] else [EncodePkValue(xs[0]).value] + Parts(xs[1..])
  }

  function Joined(parts: seq<seq<byte>>): seq<byte> {
    if parts == [] then [] else [0] + parts[0] + Joined(parts[1..])
  }

  function TableKey(table: seq<byte>, parts: seq<seq<byte>>): Key {
    table + [0] + Joined(parts)
  }

  method AssembleTableKey(table: seq<byte>, parts: seq<seq<byte>>) returns (out: Key)
    ensures out == TableKey(table, parts)
  {
    out := table + [0];
    assert parts[0..] == parts;
    for i := 0 to |parts|
      invariant out + Joined(parts[i..]) == TableKey(table, parts)
    {
      JoinedNext(parts, i, out);
      out := out + [0];
      out := out + parts[i];
    }
    assert Joined(parts[|parts|..]) == [];
  }

  lemma JoinedNext(parts: seq<seq<byte>>, i: nat, out: seq<byte>)
    requires i < |parts|
    ensures out + Joined(parts[i..]) == (out + [0] + parts[i]) + Joined(parts[i + 1..])
  {
    assert parts[i..][1..] == parts[i + 1..];
  }

  lemma JoinedBoundary(parts: seq<seq<byte>>)
    ensures Boundary(Joined(parts))
  {
  }

  lemma {:induction false} JoinedOrder(xs: seq<Scalar>, ys: seq<Scalar>)
    requires RowOk(xs) && RowOk(ys) && SameColumns(xs, ys)
    ensures Less(Joined(Parts(xs)), Joined(Parts(ys))) <==> RowLess(xs, ys)
  {
    hide EncodePkValue, ValueLess, Scalar.Valid, Boundary;
    if xs != [] {
      var x, y := EncodePkValue(xs[0]).value, EncodePkValue(ys[0]).value;
      var ra, rb := Joined(Parts(xs[1..])), Joined(Parts(ys[1..]));
      JoinedOrder(xs[1..], ys[1..]);
      JoinedBoundary(Parts(xs[1..]));
      JoinedBoundary(Parts(ys[1..]));
      ColumnOrder(xs[0], ys[0], ra, rb);
      JoinedHead(xs);
      JoinedHead(ys);
      LessCons(0, x + ra, 0, y + rb);
    }
  }

  lemma JoinedHead(xs: seq<Scalar>)
    requires RowOk(xs) && xs != []
    ensures Joined(Parts(xs)) == [0] + (EncodePkValue(xs[0]).value + Joined(Parts(xs[1..])))
  {
    hide EncodePkValue, Scalar.Valid, Joined;
    PartsHead(xs);
    JoinedParts(Parts(xs));
  }

  lemma PartsHead(xs: seq<Scalar>)
    requires RowOk(xs) && xs != []
    ensures Parts(xs) != [] && Parts(xs)[0] == EncodePkValue(xs[0]).value && Parts(xs)[1..] == Parts(xs[1..])
  {
    hide EncodePkValue, Scalar.Valid;
  }

  lemma JoinedParts(parts: seq<seq<byte>>)
    requires parts != []
    ensures Joined(parts) == [0] + (parts[0] + Joined(parts[1..]))
  {
    Regroup([0], parts[0], Joined(parts[1..]));
  }

  /** Keys of one table are ordered like their rows. */
  lemma KeyOrderIsRowOrder(table: seq<byte>, xs: seq<Scalar>, ys: seq<Scalar>)
    requires RowOk(xs) && RowOk(ys) && SameColumns(xs, ys)
    ensures Less(TableKey(table, Parts(xs)), TableKey(table, Parts(ys))) <==> RowLess(xs, ys)
  {
    hide Less, RowLess, RowOk, SameColumns, Parts;
    JoinedOrder(xs, ys);
    LessAfterPrefix(table + [0], Joined(Parts(xs)), Joined(Parts(ys)));
  }

  lemma ValueTotal(x: Scalar, y: Scalar)
    requires x.Valid() && y.Valid() && x.SameType(y) && !x.Null?
    ensures x == y || ValueLess(x, y) || ValueLess(y, x)
  {
    hide Less;
    if x.Text? {
      LessTotal(x.bytes, y.bytes);
    }
  }

  lemma {:induction false} RowTotal(xs: seq<Scalar>, ys: seq<Scalar>)
    requires RowOk(xs) && RowOk(ys) && SameColumns(xs, ys)
    ensures xs == ys || RowLess(xs, ys) || RowLess(ys, xs)
  {
    hide ValueLess, Scalar.Valid;
    assert SameColumns(ys, xs) by { ColumnsSymmetric(xs, ys); }
    if xs != [] {
      RowTotal(xs[1..], ys[1..]);
      ValueTotal(xs[0], ys[0]);
      assert xs == [xs[0]] + xs[1..] && ys == [ys[0]] + ys[1..];
    }
  }

  lemma ColumnsSymmetric(xs: seq<Scalar>, ys: seq<Scalar>)
    requires SameColumns(xs, ys)
    ensures SameColumns(ys, xs)
  {
    forall i | 0 <= i < |ys| ensures ys[i].SameType(xs[i]) {
      assert xs[i].SameType(ys[i]);
    }
  }

  /** Different rows of one table get different keys. */
  lemma KeysInjective(table: seq<byte>, xs: seq<Scalar>, ys: seq<Scalar>)
    requires RowOk(xs) && RowOk(ys) && SameColumns(xs, ys)
    ensures TableKey(table, Parts(xs)) == TableKey(table, Parts(ys)) <==> xs == ys
  {
    hide Less, RowLess, RowOk, SameColumns, Parts, TableKey;
    ColumnsSymmetric(xs, ys);
    RowTotal(xs, ys);
    KeyOrderIsRowOrder(table, xs, ys);
    KeyOrderIsRowOrder(table, ys, xs);
    LessIrreflexive(TableKey(table, Parts(xs)));
  }

  // ---- Tables ----

  predicate NulFree(s: seq<byte>) {
    forall i :: 0 <= i < |s| ==> s[i] != 0
  }

  /** The longer name continues the shorter one with a zero byte that ends it, or that another zero byte follows. */
  predicate Continues(t: seq<byte>, u: seq<byte>) {
    |t| > |u| && t[..|u|] == u && t[|u|] == 0 && (|t| == |u| + 1 || t[|u| + 1] == 0)
  }

  lemma SharedKeyContinues(t: seq<byte>, u: seq<byte>, ps: seq<seq<byte>>, qs: seq<seq<byte>>)
    requires t != u && |t| >= |u| && TableKey(t, ps) == TableKey(u, qs)
    ensures Continues(t, u)
  {
    hide Joined;
    var a, b := TableKey(t, ps), TableKey(u, qs);
    assert a[..|u|] == t[..|u|] && b[..|u|] == u;
    assert |t| > |u| by {
      assert t[..|t|] == t;
    }
    assert a[|u|] == t[|u|] && b[|u|] == 0;
    JoinedBoundary(qs);
    var rest := b[|u| + 1..];
    assert rest == Joined(qs);
    assert rest == a[|u| + 1..];
    assert |t| > |u| + 1 ==> rest[0] == t[|u| + 1];
  }

  lemma ContinuationShares(t: seq<byte>, u: seq<byte>) returns (qs: seq<seq<byte>>)
    requires Continues(t, u)
    ensures TableKey(t, []) == TableKey(u, qs)
  {
    var rest := t[|u| + 1..] + [0];
    assert rest[0] == 0;
    qs := [rest[1..]];
    JoinedParts(qs);
    assert qs[1..] == [];
    assert Joined(qs) == [0] + (rest[1..] + []) == rest;
    assert t == u + [0] + t[|u| + 1..];
    assert Joined([]) == [];
  }

  /** Two tables can share a key, for some columns, exactly when one name continues the other through a zero byte. */
  lemma TablesShareIff(t: seq<byte>, u: seq<byte>)
    requires t != u && |t| >= |u|
    ensures (exists ps, qs :: TableKey(t, ps) == TableKey(u, qs)) <==> Continues(t, u)
  {
    hide Joined, Continues, TableKey;
    if Continues(t, u) {
      var qs := ContinuationShares(t, u);
    } else {
      forall ps, qs
        ensures TableKey(t, ps) != TableKey(u, qs)
      {
        if TableKey(t, ps) == TableKey(u, qs) {
          SharedKeyContinues(t, u, ps, qs);
        }
      }
    }
  }

  /** Tables with different names without zero bytes have no key in common, whatever their columns. */
  lemma TablesDisjoint(t: seq<byte>, u: seq<byte>, ps: seq<seq<byte>>, qs: seq<seq<byte>>)
    requires NulFree(t) && NulFree(u) && t != u
    ensures TableKey(t, ps) != TableKey(u, qs)
  {
    hide Joined, TableKey;
    if |t| >= |u| {
      TablesShareIff(t, u);
    } else {
      TablesShareIff(u, t);
    }
  }

  /** Such a collision with encoded columns: an 8-bit column under one name, a 16-bit column under the other. */
  lemma NulInNameCollides()
    ensures RowOk([Unsigned(1, 5)]) && RowOk([Unsigned(2, 5)])
    ensures TableKey([0x61, 0], Parts([Unsigned(1, 5)])) == TableKey([0x61], Parts([Unsigned(2, 5)]))
  {
    assert Pow256(1) == 256 && Pow256(0) == 1 && Pow256(2) == 65536;
    assert BigEndian(5, 1) == [ByteOf(5)] + BigEndian(0, 0);
    assert BigEndian(5, 2) == [ByteOf(0)] + BigEndian(5, 1);
    assert Parts([Unsigned(1, 5)]) == [BigEndian(5, 1)];
    assert Parts([Unsigned(2, 5)]) == [BigEndian(5, 2)];
  }

  // ---- Floats as numbers ----

  function Pow2(n: nat): (p: nat)
    ensures p > 0
  {
    if n == 0 then 1 else 2 * Pow2(n - 1)
  }

  /** Number of fraction bits: 23 of 32, or 52 of 64. */
  function FractionBits(w: nat): nat {
    if w == 4 then 23 else 52
  }

  /** The magnitude bits of infinity: all exponent bits set, no fraction. */
  function Infinity(w: nat): nat {
    ((if w == 4 then 255 else 2047) * Pow2(FractionBits(w)))
  }

  /** The number that magnitude bits stand for, in units of the smallest subnormal; `f` is two to the fraction bits. */
  function Scaled(mag: nat, f: nat): nat
    requires f > 0
  {
    var e, frac := mag / f, mag % f;
    if e == 0 then frac else (f + frac) * Pow2(e - 1)
  }

  function Magnitude(bits: nat, w: nat): nat
    requires w > 0
  {
    if bits >= Half(w) then bits - Half(w) else bits
  }

  predicate Finite(bits: nat, w: nat)
    requires w > 0
  {
    Magnitude(bits, w) < Infinity(w)
  }

  predicate IsNan(bits: nat, w: nat)
    requires w > 0
  {
    Magnitude(bits, w) > Infinity(w)
  }

  /** The value of a finite float, in units of the smallest subnormal. */
  function Numeric(bits: nat, w: nat): int
    requires w > 0
  {
    var m := Scaled(Magnitude(bits, w), Pow2(FractionBits(w)));
    if bits >= Half(w) then 0 - m else m
  }

  lemma NextDigits(m: nat, f: nat)
    requires f > 0
    ensures m % f < f - 1 ==> (m + 1) / f == m / f && (m + 1) % f == m % f + 1
    ensures m % f == f - 1 ==> (m + 1) / f == m / f + 1 && (m + 1) % f == 0
  {
    assert m == f * (m / f) + m % f;
    if m % f < f - 1 {
      DivisionUnique(m + 1, f, m / f, m % f + 1);
    } else {
      assert m + 1 == f * (m / f + 1);
      DivisionUnique(m + 1, f, m / f + 1, 0);
    }
  }

  lemma DivisionUnique(n: nat, f: nat, q: nat, r: nat)
    requires f > 0 && r < f && n == f * q + r
    ensures n / f == q && n % f == r
  {
    Digits(n, f);
    var q', r' := n / f, n % f;
    if q' < q {
      HigherWins(f, q', r', q, r);
    } else if q < q' {
      HigherWins(f, q, r, q', r');
    }
  }

  lemma ScaledStep(m: nat, f: nat)
    requires f > 0
    ensures Scaled(m, f) < Scaled(m + 1, f)
  {
    NextDigits(m, f);
    var e, frac := m / f, m % f;
    if frac < f - 1 {
      if e > 0 {
        MulLess(f + frac, f + frac + 1, Pow2(e - 1));
      }
    } else if e > 0 {
      MulLess(f + frac, f + f, Pow2(e - 1));
      assert (f + f) * Pow2(e - 1) == f * Pow2(e);
    }
  }

  lemma MulLess(a: nat, b: nat, p: nat)
    requires a < b && p > 0
    ensures a * p < b * p
  {
  }

  lemma {:induction false} ScaledMonotone(m: nat, n: nat, f: nat)
    requires f > 0 && m < n
    ensures Scaled(m, f) < Scaled(n, f)
    decreases n - m
  {
    ScaledStep(m, f);
    if m + 1 < n {
      ScaledMonotone(m + 1, n, f);
    }
  }

  lemma ScaledOrder(m: nat, n: nat, f: nat)
    requires f > 0
    ensures m < n <==> Scaled(m, f) < Scaled(n, f)
    ensures m == n <==> Scaled(m, f) == Scaled(n, f)
  {
    hide Scaled;
    if m < n {
      ScaledMonotone(m, n, f);
    } else if n < m {
      ScaledMonotone(n, m, f);
    }
  }

  lemma ScaledZero(m: nat, f: nat)
    requires f > 0
    ensures Scaled(m, f) == 0 <==> m == 0
  {
    hide Scaled;
    ScaledOrder(0, m, f);
    ZeroScaled(f);
  }

  lemma ZeroScaled(f: nat)
    requires f > 0
    ensures Scaled(0, f) == 0
  {
  }

  /** For finite floats the byte order is the numeric order, with minus zero before plus zero. */
  lemma FloatLessIsNumeric(a: nat, b: nat, w: nat)
    requires w in {4, 8} && Finite(a, w) && Finite(b, w)
    ensures FloatLess(a, b, w) <==>
            Numeric(a, w) < Numeric(b, w) || (Numeric(a, w) == Numeric(b, w) && a == Half(w) && b == 0)
  {
    hide Scaled, Pow2, Half, Infinity;
    var f := Pow2(FractionBits(w));
    var m, n := Magnitude(a, w), Magnitude(b, w);
    HalfPositive(w);
    ScaledOrder(m, n, f);
    ScaledZero(m, f);
    ScaledZero(n, f);
  }

  lemma HalfPositive(w: nat)
    requires w in {4, 8}
    ensures Half(w) > 0
  {
    Widths();
    assert Pow256(3) > 0;
  }

  /** A NaN sorts after every number exactly when its sign bit is clear; otherwise it sorts before minus infinity. */
  lemma NanLastIff(nan: nat, w: nat)
    requires w in {4, 8} && IsNan(nan, w)
    ensures FloatLess(Infinity(w), nan, w) <==> nan < Half(w)
    ensures nan >= Half(w) ==> FloatLess(nan, Half(w) + Infinity(w), w)
  {
    hide Half, Infinity;
    InfinityIsPositive(w);
  }

  lemma InfinityIsPositive(w: nat)
    requires w in {4, 8}
    ensures Infinity(w) < Half(w)
  {
    Pow2Widths();
    Widths();
    assert Pow256(4) == 256 * Pow256(3) && Pow256(8) == 256 * Pow256(7);
  }

  lemma Pow2Widths()
    ensures Pow2(23) == 0x80_0000 && Pow2(52) == 0x10_0000_0000_0000
  {
    Pow2Sum(10, 13);
    Pow2Sum(26, 26);
    Pow2Sum(13, 13);
    assert Pow2(10) == 1024 by { Pow2Sum(5, 5); }
    assert Pow2(13) == 8192 by { Pow2Sum(10, 3); }
  }

  lemma {:induction false} Pow2Sum(a: nat, b: nat)
    ensures Pow2(a + b) == Pow2(a) * Pow2(b)
  {
    if b > 0 {
      Pow2Sum(a, b - 1);
    }
  }
}
