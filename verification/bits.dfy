/** Binary numerals: single bits of a number, numbers packed from bits, and the uint64_t operators of C
    read bit by bit. */
module Bits {
  import opened Powers

  type Byte = n: nat | n < 256

  const WORD_BITS: nat := 64

  predicate Bit(n: nat, i: nat) {
    if i == 0 then n % 2 == 1 else Bit(n / 2, i - 1)
  }

  /** The number whose bits below len are given by f. */
  function Pack(f: nat -> bool, len: nat): nat {
    if len == 0 then 0 else Pack(f, len - 1) + if f(len - 1) then Pow2(len - 1) else 0
  }

  function And(a: nat, b: nat): nat {
    if a == 0 then 0 else (if a % 2 == 1 && b % 2 == 1 then 1 else 0) + 2 * And(a / 2, b / 2)
  }

  function Or(a: nat, b: nat): nat
    decreases a + b
  {
    if a == 0 then b
    else (if a % 2 == 1 || b % 2 == 1 then 1 else 0) + 2 * Or(a / 2, b / 2)
  }

  function Not(a: nat): nat
    requires a < Pow2(WORD_BITS)
  {
    Pow2(WORD_BITS) - 1 - a
  }

  function ShiftLeft(a: nat, k: nat): nat {
    a * Pow2(k) % Pow2(WORD_BITS)
  }

  function ShiftRight(a: nat, k: nat): nat {
    if k == 0 then a else ShiftRight(a / 2, k - 1)
  }

  // ----- single bits -----

  lemma DivUnique(n: int, q: int, r: int)
    requires 0 <= r < n
    ensures (n * q + r) / n == q
  {
    var x := n * q + r;
    ModUnique(n, q, r);
    var e := x / n - q;
    assert n * e == 0;
    assert e >= 1 ==> n * e >= n;
    assert e <= -1 ==> n * e <= -n;
  }

  lemma {:induction false} ShiftRightBit(a: nat, k: nat, i: nat)
    ensures Bit(ShiftRight(a, k), i) == Bit(a, k + i)
  {
    if k > 0 {
      ShiftRightBit(a / 2, k - 1, i);
    }
  }

  lemma DivTwice(a: nat, p: nat)
    requires p > 0
    ensures a / 2 / p == a / (2 * p)
  {
    var q, r := a / 2 / p, a / 2 % p;
    assert a / 2 == p * q + r;
    assert (2 * p) * q == 2 * (p * q);
    DivUnique(2 * p, q, 2 * r + a % 2);
  }

  /** Shifting right by k divides by 2^k. */
  lemma {:induction false} ShiftRightDivides(a: nat, k: nat)
    ensures ShiftRight(a, k) == a / Pow2(k)
  {
    if k > 0 {
      ShiftRightDivides(a / 2, k - 1);
      DivTwice(a, Pow2(k - 1));
    }
  }

  lemma {:induction false} BeyondHasNoBit(n: nat, len: nat, i: nat)
    requires n < Pow2(len) && len <= i
    ensures !Bit(n, i)
  {
    if i > 0 {
      BeyondHasNoBit(n / 2, if len == 0 then 0 else len - 1, i - 1);
    }
  }

  lemma ZeroHasNoBit(i: nat)
    ensures !Bit(0, i)
  {
    BeyondHasNoBit(0, 0, i);
  }

  lemma HalfSplit(p: nat, h: nat, low: nat)
    ensures (2 * p * h + low) / 2 == p * h + low / 2 && (2 * p * h + low) % 2 == low % 2
  {
    assert 2 * p * h == 2 * (p * h);
  }

  /** Adding the multiple h of 2^k to a number below 2^k: the low bits stay, the high ones are those of h. */
  lemma {:induction false} SplitBit(h: nat, low: nat, k: nat, i: nat)
    requires low < Pow2(k)
    ensures Bit(Pow2(k) * h + low, i) == if i < k then Bit(low, i) else Bit(h, i - k)
  {
    if k > 0 {
      HalfSplit(Pow2(k - 1), h, low);
      if i > 0 {
        SplitBit(h, low / 2, k - 1, i - 1);
      }
    }
  }

  lemma Euclid(x: nat, w: nat) returns (q: nat, r: nat)
    requires w > 0
    ensures x == w * q + r && r < w && r == x % w
  {
    q, r := x / w, x % w;
  }

  lemma ModBit(x: nat, w: nat, i: nat)
    ensures Bit(x % Pow2(w), i) == (i < w && Bit(x, i))
  {
    hide Bit, Pow2;
    var q, r := Euclid(x, Pow2(w));
    if i < w {
      SplitBit(q, r, w, i);
    } else {
      BeyondHasNoBit(r, w, i);
    }
  }

  lemma TimesBit(a: nat, k: nat, i: nat)
    ensures Bit(a * Pow2(k), i) == (k <= i && Bit(a, i - k))
  {
    SplitBit(a, 0, k, i);
    ZeroHasNoBit(i);
    assert Pow2(k) * a + 0 == a * Pow2(k);
  }

  lemma ShiftLeftBit(a: nat, k: nat, i: nat)
    ensures Bit(ShiftLeft(a, k), i) == (k <= i < WORD_BITS && Bit(a, i - k))
  {
    TimesBit(a, k, i);
    ModBit(a * Pow2(k), WORD_BITS, i);
  }

  // ----- packing -----

  lemma {:induction false} PackBit(f: nat -> bool, len: nat, i: nat)
    ensures Pack(f, len) < Pow2(len)
    ensures Bit(Pack(f, len), i) == (i < len && f(i))
  {
    hide Bit;
    if len == 0 {
      ZeroHasNoBit(i);
    } else {
      PackBit(f, len - 1, i);
      var k := len - 1;
      var low, h := Pack(f, k), if f(k) then 1 else 0;
      assert Pack(f, len) == Pow2(k) * h + low;
      SplitBit(h, low, k, i);
      if k <= i {
        OneBit(h, i - k);
      }
    }
  }

  lemma OneBit(h: nat, i: nat)
    requires h <= 1
    ensures Bit(h, i) == (i == 0 && h == 1)
  {
    if i > 0 {
      BeyondHasNoBit(h, 1, i);
    }
  }

  lemma TopBit(n: nat, p: nat) returns (h: nat, low: nat)
    requires n < 2 * p
    ensures h <= 1 && low < p && n == p * h + low
  {
    h, low := if n < p then 0 else 1, if n < p then n else n - p;
  }

  /** A number below 2^len is determined by its bits. */
  lemma {:induction false} PackOfBits(n: nat, f: nat -> bool, len: nat)
    requires n < Pow2(len) && forall i | 0 <= i < len :: Bit(n, i) == f(i)
    ensures Pack(f, len) == n
  {
    hide Bit;
    if len > 0 {
      var k := len - 1;
      var h, low := TopBit(n, Pow2(k));
      SplitBit(h, low, k, k);
      OneBit(h, 0);
      forall i | 0 <= i < k ensures Bit(low, i) == f(i) {
        SplitBit(h, low, k, i);
      }
      PackOfBits(low, f, k);
    }
  }

  lemma SameBits(a: nat, b: nat, len: nat)
    requires a < Pow2(len) && b < Pow2(len) && forall i | 0 <= i < len :: Bit(a, i) == Bit(b, i)
    ensures a == b
  {
    hide Bit, Pow2;
    PackOfBits(a, (i: nat) => Bit(b, i), len);
    PackOfBits(b, (i: nat) => Bit(b, i), len);
  }

  lemma {:induction false} PackEqual(f: nat -> bool, g: nat -> bool, len: nat)
    requires forall i | 0 <= i < len :: f(i) == g(i)
    ensures Pack(f, len) == Pack(g, len)
  {
    if len > 0 {
      PackEqual(f, g, len - 1);
    }
  }

  // ----- words -----

  lemma {:induction false} AndBit(a: nat, b: nat, i: nat)
    ensures Bit(And(a, b), i) == (Bit(a, i) && Bit(b, i)) && And(a, b) <= a
  {
    if a == 0 {
      ZeroHasNoBit(i);
    } else {
      AndBit(a / 2, b / 2, if i == 0 then 0 else i - 1);
    }
  }

  lemma {:induction false} OrBit(a: nat, b: nat, i: nat)
    ensures Bit(Or(a, b), i) == (Bit(a, i) || Bit(b, i))
    decreases a
  {
    if a == 0 {
      ZeroHasNoBit(i);
    } else if i > 0 {
      OrBit(a / 2, b / 2, i - 1);
    }
  }

  lemma {:induction false} OrBound(a: nat, b: nat, k: nat)
    requires a < Pow2(k) && b < Pow2(k)
    ensures Or(a, b) < Pow2(k)
    decreases k
  {
    if a > 0 {
      OrBound(a / 2, b / 2, k - 1);
    }
  }

  lemma {:induction false} ComplementBit(a: nat, k: nat, i: nat)
    requires a < Pow2(k)
    ensures Bit(Pow2(k) - 1 - a, i) == (i < k && !Bit(a, i))
  {
    if k == 0 {
      ZeroHasNoBit(i);
    } else if i > 0 {
      assert (Pow2(k) - 1 - a) / 2 == Pow2(k - 1) - 1 - a / 2;
      ComplementBit(a / 2, k - 1, i - 1);
    }
  }

  lemma NotBit(a: nat, i: nat)
    requires a < Pow2(WORD_BITS)
    ensures Bit(Not(a), i) == (i < WORD_BITS && !Bit(a, i))
  {
    hide Bit, Pow2;
    ComplementBit(a, WORD_BITS, i);
  }

  /** ((uint64_t)1 << len) - 1 has exactly its low len bits set. */
  lemma MaskBit(len: nat, i: nat)
    requires len < WORD_BITS
    ensures 1 <= ShiftLeft(1, len) == Pow2(len) < Pow2(WORD_BITS)
    ensures Bit(ShiftLeft(1, len) - 1, i) == (i < len)
  {
    hide Bit;
    Pow2Monotone(len + 1, WORD_BITS);
    ModUnique(Pow2(WORD_BITS), 0, Pow2(len));
    OnesBit(len, i);
  }

  lemma {:induction false} OnesBit(len: nat, i: nat)
    ensures Bit(Pow2(len) - 1, i) == (i < len)
  {
    if len == 0 {
      ZeroHasNoBit(i);
    } else if i > 0 {
      OnesBit(len - 1, i - 1);
    }
  }

  // ----- bytes -----

  /** The number whose little-endian bytes are given. */
  function Word(bytes: seq<Byte>): nat {
    if bytes == [] then 0 else bytes[0] + 256 * Word(bytes[1..])
  }

  function Zeros(n: nat): (r: seq<Byte>)
    ensures |r| == n
  {
    seq(n, _ => 0)
  }

  /** Byte k of a little-endian number. */
  function ByteOf(n: nat, k: nat): Byte {
    ShiftRight(n, 8 * k) % 256
  }

  lemma EightBits()
    ensures Pow2(8) == 256
  {
    assert Pow2(4) == 16;
  }

  lemma {:induction false} WordBit(bytes: seq<Byte>, i: nat)
    ensures Bit(Word(bytes), i) == (i / 8 < |bytes| && Bit(bytes[i / 8], i % 8))
  {
    EightBits();
    if bytes == [] {
      ZeroHasNoBit(i);
    } else {
      SplitBit(Word(bytes[1..]), bytes[0], 8, i);
      if 8 <= i {
        WordBit(bytes[1..], i - 8);
      }
    }
  }

  lemma {:induction false} WordBound(bytes: seq<Byte>)
    ensures Word(bytes) < Pow2(8 * |bytes|)
  {
    if bytes != [] {
      WordBound(bytes[1..]);
      EightBits();
      Pow2Add(8, 8 * |bytes[1..]|);
      assert 8 * |bytes| == 8 + 8 * |bytes[1..]|;
    }
  }

  lemma ByteOfBit(n: nat, k: nat, j: nat)
    ensures Bit(ByteOf(n, k), j) == (j < 8 && Bit(n, 8 * k + j))
  {
    EightBits();
    var m := ShiftRight(n, 8 * k);
    ShiftRightBit(n, 8 * k, j);
    if j < 8 {
      SplitBit(m / 256, m % 256, 8, j);
    } else {
      BeyondHasNoBit(m % 256, 8, j);
    }
  }
}
