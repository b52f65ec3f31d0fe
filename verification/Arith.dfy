/** Rounding division, characterised by products. */
module Arith {

  function Min(a: int, b: int): int { if a < b then a else b }

  function Max(a: int, b: int): int { if a < b then b else a }

  lemma DivMod(n: int, d: int)
    requires 0 < d
    ensures n == n / d * d + n % d && 0 <= n % d < d
  {
  }

  lemma MulMonotone(a: int, b: int, d: int)
    requires a <= b && 0 <= d
    ensures a * d <= b * d
  {
    MulNonNegative(b - a, d);
    assert b * d == a * d + (b - a) * d;
  }

  lemma MulNonNegative(a: int, b: int)
    requires 0 <= a && 0 <= b
    ensures 0 <= a * b
  {
  }

  /** Rounding down: the quotient is below `c` exactly when the number is below `c * d`. */
  lemma FloorBelow(n: int, d: int, c: int)
    requires 0 < d
    ensures n / d < c <==> n < c * d
  {
    var q, r := n / d, n % d;
    DivMod(n, d);
    if q < c {
      MulMonotone(q + 1, c, d);
      assert (q + 1) * d == q * d + d;
    } else {
      MulMonotone(c, q, d);
    }
  }

  /** Rounding up: the quotient is at most `c` exactly when the number is at most `c * d`. */
  lemma CeilAtMost(n: int, d: int, c: int)
    requires 0 < d
    ensures (n + d - 1) / d <= c <==> n <= c * d
  {
    FloorBelow(n + d - 1, d, c + 1);
    assert (c + 1) * d == c * d + d;
  }

  lemma MulCancel(a: int, b: int, d: int)
    requires 0 < d && a * d <= b * d
    ensures a <= b
  {
    if b < a {
      MulMonotone(b + 1, a, d);
    }
  }
}
