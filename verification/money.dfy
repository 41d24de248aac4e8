/**
 * Integer money helpers. Amounts are minor units (cents); percentages are hundredths of
 * a percent, so PHP's `round($x, 2)` of a percentage and `round($cents * $percent / 100)`
 * both become one integer division rounded half away from zero.
 */
module Money {

  function Min(a: int, b: int): int { if a <= b then a else b }

  function Max(a: int, b: int): int { if a >= b then a else b }

  /** Hundredths of a percent in a whole: 100% is 10000. */
  const Whole: int := 10000

  /** Nearest integer to a non-negative quotient `n / d`, halves rounded up. */
  function NearestOfNonNegative(n: int, d: int): (r: int)
    requires n >= 0 && d > 0
    ensures r >= 0
    ensures 2 * (r * d - n) <= d && 2 * (n - r * d) < d
  {
    var dd := 2 * d;
    var m := 2 * n + d;
    var q := m / dd;
    assert m == q * dd + m % dd && 0 <= m % dd < dd;
    assert q * dd == 2 * (q * d);
    q
  }

  /**
   * `n / d` rounded to the nearest integer, halves away from zero: PHP's `round()`
   * applied to an exact quotient.
   */
  function RoundDiv(n: int, d: int): int
    requires d > 0
  {
    if n >= 0 then NearestOfNonNegative(n, d) else -NearestOfNonNegative(-n, d)
  }

  lemma MulMonotone(a: int, b: int, d: int)
    requires a <= b && d >= 0
    ensures a * d <= b * d
  {
    assert b * d - a * d == (b - a) * d;
  }

  /** Rounding a non-negative quotient lands within half a unit of it. */
  lemma RoundDivNearest(n: int, d: int)
    requires d > 0 && n >= 0
    ensures RoundDiv(n, d) >= 0
    ensures 2 * (RoundDiv(n, d) * d - n) <= d && 2 * (n - RoundDiv(n, d) * d) < d
  {
  }

  /** Rounding never overshoots a whole bound: `0 <= n <= k*d` gives `0 <= RoundDiv(n, d) <= k`. */
  lemma RoundDivAtMost(n: int, d: int, k: int)
    requires d > 0 && 0 <= n <= k * d
    ensures 0 <= RoundDiv(n, d) <= k
  {
    var r := RoundDiv(n, d);
    RoundDivNearest(n, d);
    if r > k {
      MulMonotone(k + 1, r, d);
      assert false;
    }
  }

  /** An exact non-negative quotient is returned unchanged. */
  lemma RoundDivExact(k: int, d: int)
    requires d > 0 && k >= 0
    ensures RoundDiv(k * d, d) == k
  {
    MulMonotone(0, k, d);
    var r := RoundDiv(k * d, d);
    RoundDivNearest(k * d, d);
    if r > k {
      MulMonotone(k + 1, r, d);
      assert false;
    }
    if r < k {
      MulMonotone(r + 1, k, d);
      assert false;
    }
  }
}
