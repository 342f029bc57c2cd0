/**
 * The arithmetic of the backoff schedules in the test helpers: powers of
 * two, their growth factor, and the minimum that caps them.
 */
module Pow {

  function Pow2(n: nat): (r: nat)
    ensures r >= 1
  {
    if n == 0 then 1 else 2 * Pow2(n - 1)
  }

  /** Doubling never shrinks: larger exponents give larger powers. */
  lemma {:induction false} Pow2Monotone(m: nat, n: nat)
    requires m <= n
    ensures Pow2(m) <= Pow2(n)
    decreases n
  {
    if m < n {
      Pow2Monotone(m, n - 1);
    }
  }

  /** The largest power the capped backoff loops ever reach is 2^6. */
  lemma Pow2AtMostSixtyFour(n: nat)
    requires n <= 6
    ensures Pow2(n) <= 64
  {
    Pow2Monotone(n, 6);
  }

  /** The smaller of two numbers: the cap applied to a growing backoff. */
  function Min(a: int, b: int): int {
    if a <= b then a else b
  }
}
