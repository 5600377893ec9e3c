// Multiplication and division of natural numbers, and powers of two.

module Arith {
  /** One more than the greatest 32-bit number */
  const W32 := 0x1_0000_0000

  type word = x: int | 0 <= x < W32

  lemma MulMono(a: nat, b: nat, c: nat)
    requires a <= b
    ensures a * c <= b * c
  {
  }

  /** Quotient and remainder are what they should be only. */
  lemma ModUnique(x: nat, m: nat, q: nat, r: nat)
    requires m > 0 && r < m && x == q * m + r
    ensures x % m == r && x / m == q
  {
    var p, s := x / m, x % m;
    assert x == p * m + s;
    assert (p + 1) * m == p * m + m && (q + 1) * m == q * m + m;
    if p < q {
      MulMono(p + 1, q, m);
    } else if q < p {
      MulMono(q + 1, p, m);
    }
  }

  function Pow2(k: nat): (r: nat)
    ensures r > 0
  {
    if k == 0 then 1 else 2 * Pow2(k - 1)
  }

  lemma {:induction false} Pow2Mono(a: nat, b: nat)
    requires a <= b
    ensures Pow2(a) <= Pow2(b)
    decreases b
  {
    if a < b {
      Pow2Mono(a, b - 1);
    }
  }

  lemma {:induction false} Pow2Add(a: nat, b: nat)
    ensures Pow2(a + b) == Pow2(a) * Pow2(b)
  {
    if a > 0 {
      Pow2Add(a - 1, b);
      assert Pow2(a + b) == 2 * Pow2(a - 1 + b);
    }
  }
}
