/** Per-file Bloom filters: two deterministic hashes, double hashing, packed bits. */
module Bloom {
  import opened Bytes

  const TWO_64: nat := 0x1_0000_0000_0000_0000

  // ---- The two hashes ----

  const FNV_OFFSET: bv64 := 0xcbf2_9ce4_8422_2325
  const FNV_PRIME: bv64 := 0x0000_0100_0000_01b3
  const DJB_SEED: bv64 := 5381

  function FnvStep(h: bv64, b: byte): bv64 {
    (h ^ (b as bv64)) * FNV_PRIME
  }

  function DjbStep(h: bv64, b: byte): bv64 {
    h * 33 + (b as bv64)
  }

  /** One byte at a time. */
  function Fold(step: (bv64, byte) -> bv64, h: bv64, data: seq<byte>): bv64 {
    if data == [] then h else step(Fold(step, h, data[..|data| - 1]), data[|data| - 1])
  }

  lemma FoldNext(step: (bv64, byte) -> bv64, h: bv64, data: seq<byte>, i: nat)
    requires i < |data|
    ensures Fold(step, h, data[..i + 1]) == step(Fold(step, h, data[..i]), data[i])
  {
    assert data[..i + 1][..i] == data[..i];
  }

  /** The four-way unrolled loop with its tail is the byte-at-a-time hash. */
  method UnrolledHash(step: (bv64, byte) -> bv64, seed: bv64, data: seq<byte>) returns (hash: bv64)
    ensures hash == Fold(step, seed, data)
  {
    assert data[..0] == [] && Fold(step, seed, []) == seed;
    hide Fold;
    hash := seed;
    var i, chunks := 0, |data| / 4;
    for c := 0 to chunks
      invariant i == 4 * c && hash == Fold(step, seed, data[..i])
    {
      FoldNext(step, seed, data, i);
      FoldNext(step, seed, data, i + 1);
      FoldNext(step, seed, data, i + 2);
      FoldNext(step, seed, data, i + 3);
      hash := step(hash, data[i]);
      hash := step(hash, data[i + 1]);
      hash := step(hash, data[i + 2]);
      hash := step(hash, data[i + 3]);
      i := i + 4;
    }
    for j := i to |data|
      invariant hash == Fold(step, seed, data[..j])
    {
      FoldNext(step, seed, data, j);
      hash := step(hash, data[j]);
    }
    assert data[..|data|] == data;
  }

  function Fnv1a(data: seq<byte>): bv64 {
    Fold(FnvStep, FNV_OFFSET, data)
  }

  function Djb2(data: seq<byte>): bv64 {
    Fold(DjbStep, DJB_SEED, data)
  }

  // ---- One word ----

  /** The place of a bit within its word. */
  function Place(n: nat): bv6
    requires n < 64
  {
    n as bv6
  }

  lemma PlaceInjective(n: nat, n': nat)
    requires n < 64 && n' < 64
    ensures Place(n) == Place(n') <==> n == n'
  {
    PlaceValue(n);
    PlaceValue(n');
  }

  lemma PlaceValue(n: nat)
    requires n < 64
    ensures Place(n) as nat == n
  {
  }

  function Mask(i: bv6): bv64 {
    (1 as bv64) << i
  }

  predicate Meets(word: bv64, mask: bv64) {
    word & mask != 0
  }

  predicate TestBit(word: bv64, n: nat)
    requires n < 64
  {
    Meets(word, Mask(Place(n)))
  }

  function SetBit(word: bv64, n: nat): bv64
    requires n < 64
  {
    word | Mask(Place(n))
  }

  lemma MasksMeet(i: bv6, j: bv6)
    ensures Meets(Mask(i), Mask(j)) <==> i == j
  {
  }

  lemma UnionMeets(a: bv64, b: bv64, mask: bv64)
    ensures Meets(a | b, mask) <==> Meets(a, mask) || Meets(b, mask)
  {
    assert (a | b) & mask == (a & mask) | (b & mask);
    NeitherMeets(a & mask, b & mask);
  }

  lemma NeitherMeets(a: bv64, b: bv64)
    ensures a | b == 0 <==> a == 0 && b == 0
  {
  }

  /** Setting a bit changes the answer for that bit alone. */
  lemma SetThenTest(word: bv64, n: nat, n': nat)
    requires n < 64 && n' < 64
    ensures TestBit(SetBit(word, n), n') <==> TestBit(word, n') || n == n'
  {
    hide Place, Mask, Meets;
    UnionMeets(word, Mask(Place(n)), Mask(Place(n')));
    MasksMeet(Place(n), Place(n'));
    PlaceInjective(n, n');
  }

  // ---- The filter ----

  /** The bit probed by the `probe`-th hash; for a power of two the mask `numBits - 1` computes the same remainder. */
  function Bit(numBits: nat, key: Key, probe: nat): (bit: nat)
    requires numBits > 0
    ensures bit < numBits
  {
    ((Fnv1a(key) as int + probe * (Djb2(key) as int)) % TWO_64) % numBits
  }

  /** One of the probes of `key` hits `bit`. */
  predicate Probes(numBits: nat, numHashes: nat, key: Key, bit: nat)
    requires numBits > 0
  {
    exists p :: 0 <= p < numHashes && Bit(numBits, key, p) == bit
  }

  datatype Filter = Filter(numBits: nat, numHashes: nat, bits: seq<bv64>) {
    /** A whole number of words, at least one; the engine sizes filters as powers of two. */
    predicate Valid() {
      numBits > 0 && numBits == 64 * |bits|
    }

    predicate Test(bit: nat)
      requires Valid() && bit < numBits
    {
      TestBit(bits[bit / 64], bit % 64)
    }

    function Set(bit: nat): Filter
      requires Valid() && bit < numBits
    {
      this.(bits := bits[bit / 64 := SetBit(bits[bit / 64], bit % 64)])
    }

    /** Every probe of `key` finds its bit set. */
    predicate MayContain(key: Key)
      requires Valid()
    {
      numHashes > 0 && forall p :: 0 <= p < numHashes ==> Test(Bit(numBits, key, p))
    }
  }

  lemma SetTests(f: Filter, bit: nat, other: nat)
    requires f.Valid() && bit < f.numBits && other < f.numBits
    ensures f.Set(bit).Valid()
    ensures f.Set(bit).Test(other) <==> f.Test(other) || other == bit
  {
    hide TestBit, SetBit;
    SetThenTest(f.bits[bit / 64], bit % 64, other % 64);
    var f' := f.Set(bit);
    if other / 64 != bit / 64 {
      assert f'.bits[other / 64] == f.bits[other / 64];
    }
  }

  lemma SetTestsExactly(f: Filter, bit: nat)
    requires f.Valid() && bit < f.numBits
    ensures f.Set(bit).Valid() && f.Set(bit).numBits == f.numBits && f.Set(bit).numHashes == f.numHashes
    ensures forall b :: 0 <= b < f.numBits ==> (f.Set(bit).Test(b) <==> f.Test(b) || b == bit)
  {
    SetTests(f, bit, bit);
    hide Filter.Test;
    forall b | 0 <= b < f.numBits ensures f.Set(bit).Test(b) <==> f.Test(b) || b == bit {
      SetTests(f, bit, b);
    }
  }

  lemma ProbesNext(numBits: nat, probe: nat, key: Key)
    requires numBits > 0
    ensures forall b: nat :: Probes(numBits, probe + 1, key, b) <==> Probes(numBits, probe, key, b) || b == Bit(numBits, key, probe)
  {
    hide Bit;
    assert Probes(numBits, probe + 1, key, Bit(numBits, key, probe));
    forall b: nat | Probes(numBits, probe, key, b)
      ensures Probes(numBits, probe + 1, key, b)
    {
      var p :| 0 <= p < probe && Bit(numBits, key, p) == b;
    }
  }

  class BloomFilter {
    var filter: Filter

    constructor (numBits: nat, numHashes: nat)
      requires numBits > 0 && numBits % 64 == 0
      ensures filter == Filter(numBits, numHashes, seq(numBits / 64, _ => 0)) && filter.Valid()
    {
      filter := Filter(numBits, numHashes, seq(numBits / 64, _ => 0));
    }

    /** Sets the bits that `key` probes and no other: afterwards the key is found, and so is every key
        that was found before. */
    method Insert(key: Key)
      requires filter.Valid()
      modifies this
      ensures filter.Valid() && filter.numBits == old(filter.numBits) && filter.numHashes == old(filter.numHashes)
      ensures forall b :: 0 <= b < filter.numBits ==>
                (filter.Test(b) <==> old(filter).Test(b) || Probes(filter.numBits, filter.numHashes, key, b))
      ensures filter.numHashes > 0 ==> filter.MayContain(key)
      ensures forall k :: old(filter).MayContain(k) ==> filter.MayContain(k)
    {
      hide Filter.Test, Filter.Set, Bit;
      ghost var before := filter;
      for probe := 0 to filter.numHashes
        invariant filter.Valid() && filter.numBits == before.numBits && filter.numHashes == before.numHashes
        invariant forall b :: 0 <= b < before.numBits ==>
                    (filter.Test(b) <==> before.Test(b) || Probes(before.numBits, probe, key, b))
      {
        var bit := Bit(filter.numBits, key, probe);
        SetTestsExactly(filter, bit);
        ProbesNext(before.numBits, probe, key);
        filter := filter.Set(bit);
      }
      forall p | 0 <= p < filter.numHashes
        ensures filter.Test(Bit(filter.numBits, key, p))
      {
        assert Probes(filter.numBits, filter.numHashes, key, Bit(filter.numBits, key, p));
      }
    }

    method Contains(key: Key) returns (found: bool)
      requires filter.Valid()
      ensures found == filter.MayContain(key)
    {
      hide Filter.Test, Bit;
      if filter.numHashes == 0 {
        return false;
      }
      for probe := 0 to filter.numHashes
        invariant forall p :: 0 <= p < probe ==> filter.Test(Bit(filter.numBits, key, p))
      {
        if !filter.Test(Bit(filter.numBits, key, probe)) {
          return false;
        }
      }
      return true;
    }
  }

  /** Some key of a file probes `bit`. */
  predicate ProbedBy(keys: seq<Key>, numBits: nat, numHashes: nat, bit: nat)
    requires numBits > 0
  {
    exists k :: k in keys && Probes(numBits, numHashes, k, bit)
  }

  lemma ProbedByNext(keys: seq<Key>, i: nat, numBits: nat, numHashes: nat)
    requires numBits > 0 && i < |keys|
    ensures forall b: nat :: ProbedBy(keys[..i + 1], numBits, numHashes, b) <==>
              ProbedBy(keys[..i], numBits, numHashes, b) || Probes(numBits, numHashes, keys[i], b)
  {
    hide Probes;
    assert keys[..i + 1] == keys[..i] + [keys[i]];
  }

  /** A new filter has no bit set. */
  lemma NothingSet(f: Filter, bit: nat)
    requires f.Valid() && bit < f.numBits && f.bits == seq(|f.bits|, _ => 0)
    ensures !f.Test(bit)
  {
    assert f.bits[bit / 64] == 0;
  }

  /** A filter built over the keys of a file has exactly the bits set that a key of the file probes: it
      answers yes for all of them, and for another key exactly when each of its probes hits such a bit. */
  method BuildFilter(keys: seq<Key>, numBits: nat, numHashes: nat) returns (f: Filter)
    requires numBits > 0 && numBits % 64 == 0 && numHashes > 0
    ensures f.Valid() && f.numBits == numBits && f.numHashes == numHashes
    ensures forall b :: 0 <= b < numBits ==> (f.Test(b) <==> ProbedBy(keys, numBits, numHashes, b))
    ensures forall k :: k in keys ==> f.MayContain(k)
    ensures forall k :: f.MayContain(k) <==> forall p :: 0 <= p < numHashes ==> ProbedBy(keys, numBits, numHashes, Bit(numBits, k, p))
  {
    hide Filter.Test, Bit, Probes, ProbedBy;
    var bloom := new BloomFilter(numBits, numHashes);
    NothingProbed(bloom.filter);
    for i := 0 to |keys|
      invariant bloom.filter.Valid() && bloom.filter.numBits == numBits && bloom.filter.numHashes == numHashes
      invariant forall b :: 0 <= b < numBits ==> (bloom.filter.Test(b) <==> ProbedBy(keys[..i], numBits, numHashes, b))
      invariant forall k :: k in keys[..i] ==> bloom.filter.MayContain(k)
    {
      assert keys[..i + 1] == keys[..i] + [keys[i]];
      ProbedByNext(keys, i, numBits, numHashes);
      bloom.Insert(keys[i]);
    }
    assert keys[..|keys|] == keys;
    f := bloom.filter;
  }

  lemma NothingProbed(f: Filter)
    requires f.Valid() && f.bits == seq(|f.bits|, _ => 0)
    ensures forall b :: 0 <= b < f.numBits ==> !f.Test(b) && !ProbedBy([], f.numBits, f.numHashes, b)
  {
    hide Filter.Test;
    forall b | 0 <= b < f.numBits ensures !f.Test(b) {
      NothingSet(f, b);
    }
  }

  // ---- Check values ----

  const FOOBAR: seq<byte> := [0x66, 0x6F, 0x6F, 0x62, 0x61, 0x72]

  /** Hashing "foobar" goes through the six states of `h` after the seed. */
  lemma FoldsFoobar(step: (bv64, byte) -> bv64, h: seq<bv64>)
    requires |h| == 7 && forall i :: 0 <= i < 6 ==> step(h[i], FOOBAR[i]) == h[i + 1]
    ensures Fold(step, h[0], []) == h[0] && Fold(step, h[0], FOOBAR) == h[6]
  {
    for i := 0 to 6
      invariant Fold(step, h[0], FOOBAR[..i]) == h[i]
    {
      FoldNext(step, h[0], FOOBAR, i);
    }
    assert FOOBAR[..6] == FOOBAR;
  }

  lemma FnvSteps()
    ensures FnvStep(0xcbf2_9ce4_8422_2325, 0x66) == 0xaf63_db4c_8601_ead9
    ensures FnvStep(0xaf63_db4c_8601_ead9, 0x6F) == 0x898_5907_b541_d342
    ensures FnvStep(0x898_5907_b541_d342, 0x6F) == 0xdcb2_7518_fed9_d577
    ensures FnvStep(0xdcb2_7518_fed9_d577, 0x62) == 0xdd12_0e79_0c25_12af
    ensures FnvStep(0xdd12_0e79_0c25_12af, 0x61) == 0xcac1_65af_a2fe_f40a
    ensures FnvStep(0xcac1_65af_a2fe_f40a, 0x72) == 0x8594_4171_f739_67e8
  {
  }

  lemma DjbSteps()
    ensures DjbStep(0x1505, 0x66) == 0x2_b60b
    ensures DjbStep(0x2_b60b, 0x6F) == 0x59_77da
    ensures DjbStep(0x59_77da, 0x6F) == 0xb88_7389
    ensures DjbStep(0xb88_7389, 0x62) == 0x1_7c96_e50b
    ensures DjbStep(0x1_7c96_e50b, 0x61) == 0x31_0f73_86cc
    ensures DjbStep(0x31_0f73_86cc, 0x72) == 0x652_fde4_60be
  {
  }

  /** The published values of 64-bit FNV-1a for the empty string and "foobar". */
  lemma FnvCheckValues()
    ensures Fnv1a([]) == 0xcbf2_9ce4_8422_2325 && Fnv1a(FOOBAR) == 0x8594_4171_f739_67e8
  {
    FnvSteps();
    hide FnvStep;
    FoldsFoobar(FnvStep, [0xcbf2_9ce4_8422_2325, 0xaf63_db4c_8601_ead9, 0x898_5907_b541_d342, 0xdcb2_7518_fed9_d577,
                          0xdd12_0e79_0c25_12af, 0xcac1_65af_a2fe_f40a, 0x8594_4171_f739_67e8]);
  }

  /** The values of 64-bit DJB2 for the same two strings. */
  lemma DjbCheckValues()
    ensures Djb2([]) == 5381 && Djb2(FOOBAR) == 0x652_fde4_60be
  {
    DjbSteps();
    hide DjbStep;
    FoldsFoobar(DjbStep, [0x1505, 0x2_b60b, 0x59_77da, 0xb88_7389, 0x1_7c96_e50b, 0x31_0f73_86cc, 0x652_fde4_60be]);
  }
}
