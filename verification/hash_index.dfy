/** The table indices of hashmap.c as it computes them, with a bit mask and wrapping size_t subtraction,
    against the cyclic arithmetic of ProbeTable. */
module HashIndex {
  import opened Bits
  import opened Powers
  import opened ProbeTable

  /** HASHMAP_SIZE_MOD, with the table size as a power of two. */
  function SizeMod(k: nat, val: nat): nat {
    And(val, Pow2(k) - 1)
  }

  lemma MaskedBit(k: nat, val: nat, i: nat)
    ensures Bit(SizeMod(k, val), i) == Bit(val % Pow2(k), i)
  {
    AndBit(val, Pow2(k) - 1, i);
    OnesBit(k, i);
    ModBit(val, k, i);
  }

  lemma RemainderIsLess(val: nat, p: nat)
    requires p > 0
    ensures val % p <= val
  {
    var q, r := Euclid(val, p);
    assert p * q >= 0;
  }

  lemma MaskIsMod(k: nat, val: nat)
    ensures SizeMod(k, val) == val % Pow2(k)
  {
    var len, m, r := BitLength(val), SizeMod(k, val), val % Pow2(k);
    BitLengthBounds(val);
    AndBit(val, Pow2(k) - 1, 0);
    RemainderIsLess(val, Pow2(k));
    forall i | 0 <= i < len ensures Bit(m, i) == Bit(r, i) {
      MaskedBit(k, val, i);
    }
    SameBits(m, r, len);
  }

  /** hashmap_calc_index: the hash, masked, is the home slot. */
  lemma MaskedHome<K>(k: nat, ops: KeyOps<K>, key: K)
    ensures Home(ops, Pow2(k), key) == SizeMod(k, ops.hash(key))
  {
    MaskIsMod(k, ops.hash(key));
  }

  /** HASHMAP_PROBE_NEXT is the next slot of the ring of slots. */
  lemma MaskedNext(k: nat, index: nat)
    requires index < Pow2(k)
    ensures SizeMod(k, index + 1) == Next(Pow2(k), index)
  {
    MaskIsMod(k, index + 1);
    ModUnique(Pow2(k), 1, 0);
    if index + 1 < Pow2(k) {
      ModUnique(Pow2(k), 0, index + 1);
    }
  }

  /** A difference of indices, wrapped to a size_t and masked, is the cyclic distance between them. */
  lemma MaskedDistance(k: nat, from: nat, to: nat)
    requires k <= WORD_BITS && from < Pow2(k) && to < Pow2(k)
    ensures SizeMod(k, (to + Pow2(WORD_BITS) - from) % Pow2(WORD_BITS)) == Dist(Pow2(k), from, to)
  {
    Pow2Monotone(k, WORD_BITS);
    Pow2Add(k, WORD_BITS - k);
    WrappedDifference(Pow2(k), Pow2(WORD_BITS - k), from, to);
    MaskIsMod(k, (to + Pow2(WORD_BITS) - from) % Pow2(WORD_BITS));
  }

  lemma WrappedDifference(n: nat, m: nat, from: nat, to: nat)
    requires 0 < n && 0 < m && from < n && to < n
    ensures n * m > 0 && to + n * m - from >= 0
    ensures (to + n * m - from) % (n * m) % n == Dist(n, from, to)
  {
    assert n * m == n * (m - 1) + n && n * (m - 1) >= 0;
    if from <= to {
      ModUnique(n * m, 1, to - from);
      ModUnique(n, 0, to - from);
    } else {
      ModUnique(n * m, 0, n * m + to - from);
      ModUnique(n, m - 1, n + to - from);
    }
  }
}
