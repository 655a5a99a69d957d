/** Machine integers, byte strings and their lexicographic order, shared by every other module. */
module Bytes {

  const U64_MAX: nat := 0xFFFF_FFFF_FFFF_FFFF
  const U32_MAX: nat := 0xFFFF_FFFF

  type u64 = n: nat | n <= U64_MAX
  type u32 = n: nat | n <= U32_MAX

  type byte = bv8
  type Key = seq<byte>
  type Value = seq<byte>

  datatype Option<+T> = None | Some(value: T)

  /** A value, a field too long for its length prefix, or malformed input. */
  datatype Result<+T> = Ok(value: T) | OutOfRange | Corrupt

  /** Byte-lexicographic order, the order of Rust's `[u8]`. */
  predicate Less(a: Key, b: Key) {
    if b == [] then false
    else if a == [] then true
    else a[0] < b[0] || (a[0] == b[0] && Less(a[1..], b[1..]))
  }

  predicate LessEq(a: Key, b: Key) {
    a == b || Less(a, b)
  }

  /** Membership of the half-open range `[lo, hi)`. */
  predicate InRange(k: Key, lo: Key, hi: Key) {
    LessEq(lo, k) && Less(k, hi)
  }

  lemma LessIrreflexive(a: Key)
    ensures !Less(a, a)
  {
    if a != [] {
      LessIrreflexive(a[1..]);
    }
  }

  lemma {:induction false} LessTransitive(a: Key, b: Key, c: Key)
    requires Less(a, b) && Less(b, c)
    ensures Less(a, c)
  {
    if a != [] && a[0] == b[0] && b[0] == c[0] {
      LessTransitive(a[1..], b[1..], c[1..]);
    }
  }

  /** Ranges include their lower and exclude their upper end: two that meet share no key and leave none out. */
  lemma RangesMeet(k: Key, lo: Key, mid: Key, hi: Key)
    requires LessEq(lo, mid) && LessEq(mid, hi)
    ensures InRange(k, lo, hi) <==> InRange(k, lo, mid) || InRange(k, mid, hi)
    ensures !(InRange(k, lo, mid) && InRange(k, mid, hi))
    ensures InRange(lo, lo, hi) <==> lo != hi
  {
    hide Less;
    LessTotal(k, mid);
    LessIrreflexive(k);
    LessIrreflexive(lo);
    var ks := {k, lo, mid, hi};
    forall a, b, c | a in ks && b in ks && c in ks && Less(a, b) && Less(b, c)
      ensures Less(a, c)
    {
      LessTransitive(a, b, c);
    }
  }

  lemma {:induction false} LessTotal(a: Key, b: Key)
    ensures Less(a, b) || a == b || Less(b, a)
  {
    if a != [] && b != [] && a[0] == b[0] {
      LessTotal(a[1..], b[1..]);
      assert a == [a[0]] + a[1..] && b == [b[0]] + b[1..];
    }
  }

  lemma LessAsymmetric(a: Key, b: Key)
    requires Less(a, b)
    ensures !Less(b, a) && a != b
  {
    LessIrreflexive(a);
    if Less(b, a) {
      LessTransitive(a, b, a);
    }
  }

  lemma NotLessTransitive(a: Key, b: Key, c: Key)
    requires !Less(b, a) && !Less(c, b)
    ensures !Less(c, a)
  {
    hide Less;
    LessTotal(a, b);
    LessTotal(b, c);
    if Less(c, a) {
      if a != b {
        LessTransitive(c, a, b);
      }
    }
  }

  /** The order is decided by the first position where two strings differ. */
  lemma {:induction false} LessAfterPrefix(p: Key, a: Key, b: Key)
    ensures Less(p + a, p + b) <==> Less(a, b)
  {
    if p == [] {
      assert p + a == a && p + b == b;
    } else {
      LessAfterPrefix(p[1..], a, b);
      assert (p + a)[1..] == p[1..] + a && (p + b)[1..] == p[1..] + b;
    }
  }
}
