/** Facts about natural-number arithmetic that the codecs and `XOR` share. */
module Arith {
  /** `2 ** k` */
  function Pow2(k: nat): (p: nat)
    ensures p > 0
  {
    if k == 0 then 1 else 2 * Pow2(k - 1)
  }

  /** Multiplying by a positive number does not make a natural number smaller. */
  lemma {:induction false} MulAtLeast(d: nat, k: nat)
    requires k >= 1
    ensures d * k >= d
    decreases k
  {
    if k > 1 {
      MulAtLeast(d, k - 1);
      assert d * k == d * (k - 1) + d;
    }
  }

  /** The quotient is the only `a` with `v == d * a + e` for a remainder `0 <= e < d`. */
  lemma DivUnique(v: int, d: nat, a: int, e: int)
    requires d > 0 && 0 <= e < d && v == d * a + e
    ensures v / d == a
  {
    var q, r := v / d, v % d;
    assert v == d * q + r && 0 <= r < d;
    if q > a {
      MulAtLeast(d, q - a);
    } else if q < a {
      MulAtLeast(d, a - q);
    }
  }

  /** Taking `n` away from a multiple of `n` leaves a multiple of `n`. */
  lemma ModMinus(a: nat, n: nat)
    requires 0 < n <= a && a % n == 0
    ensures (a - n) % n == 0
  {
    var q, r := (a - n) / n, (a - n) % n;
    assert a - n == n * q + r && 0 <= r < n;
    assert n * (q + 1) == n * q + n;
    DivUnique(a, n, q + 1, r);
  }
}
