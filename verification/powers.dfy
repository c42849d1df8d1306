/** Powers of two, bit lengths and remainders, shared by the models. */
module Powers {

  function Pow2(k: nat): (p: nat)
    ensures p > 0
  {
    if k == 0 then 1 else 2 * Pow2(k - 1)
  }

  predicate IsPow2(n: nat) {
    n == 1 || (n > 1 && n % 2 == 0 && IsPow2(n / 2))
  }

  /** Number of significant bits: what (sizeof(unsigned long) << 3) - __builtin_clzl(n) yields for n > 0. */
  function BitLength(n: nat): nat {
    if n == 0 then 0 else 1 + BitLength(n / 2)
  }

  lemma {:induction false} Pow2IsPow2(k: nat)
    ensures IsPow2(Pow2(k))
  {
    if k > 0 {
      Pow2IsPow2(k - 1);
    }
  }

  lemma {:induction false} Pow2Monotone(a: nat, b: nat)
    requires a <= b
    ensures Pow2(a) <= Pow2(b)
  {
    if a < b {
      Pow2Monotone(a, b - 1);
    }
  }

  lemma {:induction false} Pow2Add(a: nat, b: nat)
    ensures Pow2(a + b) == Pow2(a) * Pow2(b)
  {
    if a > 0 {
      Pow2Add(a - 1, b);
    }
  }

  lemma {:induction false} BitLengthBounds(n: nat)
    ensures n < Pow2(BitLength(n))
    ensures n > 0 ==> Pow2(BitLength(n) - 1) <= n
  {
    if n > 0 {
      BitLengthBounds(n / 2);
    }
  }

  /** A power of two above half of m is at least the rounded-up m. */
  lemma {:induction false} LeastPow2(m: nat, p: nat)
    requires IsPow2(p) && m < p
    ensures Pow2(BitLength(m)) <= p
  {
    if m > 0 {
      LeastPow2(m / 2, p / 2);
    }
  }

  /** A number is its quotient times the divisor plus a remainder in one way only. */
  lemma ModUnique(n: int, q: int, r: int)
    requires 0 <= r < n
    ensures (n * q + r) % n == r
  {
    var x := n * q + r;
    var e := x / n - q;
    assert n * e == r - x % n;
    assert e >= 1 ==> n * e >= n;
    assert e <= -1 ==> n * e <= -n;
  }
}
