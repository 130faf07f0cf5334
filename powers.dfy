/**
 * Integer replacements for the floating-point tests `Math.log2(size) % 1 != 0`
 * and `Math.log2(size).to_i` that the bracket builders use.
 */
module Powers {

  /** `n` is 1, 2, 4, 8, ... */
  predicate IsPowerOfTwo(n: int)
    decreases if n < 0 then 0 else n
  {
    n == 1 || (n >= 2 && n % 2 == 0 && IsPowerOfTwo(n / 2))
  }

  function Pow2(k: nat): (p: nat)
    ensures p >= 1
  {
    if k == 0 then 1 else 2 * Pow2(k - 1)
  }

  /** `Math.log2(n).to_i` for `n >= 1`: the floor of the binary logarithm. */
  function Log2(n: int): (k: nat)
    requires n >= 1
    ensures Pow2(k) <= n < 2 * Pow2(k)
  {
    if n == 1 then 0 else 1 + Log2(n / 2)
  }

  /** The integer guard agrees with "log2 has no fractional part". */
  lemma {:induction false} PowerOfTwoIff(n: int)
    ensures IsPowerOfTwo(n) <==> n >= 1 && Pow2(Log2(n)) == n
  {
    if n >= 2 {
      PowerOfTwoIff(n / 2);
      if n % 2 == 1 {
        assert Pow2(Log2(n)) == 2 * Pow2(Log2(n / 2));
      }
    }
  }

  /** Every power 2^k passes the guard, and its logarithm is exactly k. */
  lemma {:induction false} Log2OfPow2(k: nat)
    ensures IsPowerOfTwo(Pow2(k)) && Log2(Pow2(k)) == k
  {
    if k > 0 {
      Log2OfPow2(k - 1);
      assert Pow2(k) / 2 == Pow2(k - 1);
    }
  }

  /**
   * A power of two strictly below another power of two can be doubled
   * without passing it: the doubling frontier never overshoots.
   */
  lemma {:induction false} DoublingStaysWithin(a: int, b: int)
    requires IsPowerOfTwo(a) && IsPowerOfTwo(b) && a < b
    ensures IsPowerOfTwo(2 * a) && 2 * a <= b
  {
    assert (2 * a) / 2 == a;
    if a > 1 {
      DoublingStaysWithin(a / 2, b / 2);
    }
  }
}
