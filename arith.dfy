/**
 * Small facts about multiplication and division by a variable. Callers invoke
 * them as hints, which keeps their own nonlinear proofs stable across solver seeds.
 */
module Arith {

  lemma MulMonotone(a: int, b: int, k: int)
    requires a <= b && k >= 0
    ensures a * k <= b * k
  {
    assert b * k - a * k == (b - a) * k;
  }

  lemma CancelFactor(x: int, y: int, d: int)
    requires d > 0 && x * d < y * d
    ensures x < y
  {
  }

  lemma AddOne(q: int, d: int)
    ensures (q + 1) * d == q * d + d
  {
  }

  lemma DivMod(x: int, d: int)
    requires x >= 0 && d >= 1
    ensures x == (x / d) * d + x % d && 0 <= x % d < d && x / d >= 0
  {
  }

  /** Floor division brackets its dividend. */
  lemma DivBounds(x: int, d: int)
    requires x >= 0 && d >= 1
    ensures x / d >= 0
    ensures (x / d) * d <= x < (x / d + 1) * d
  {
    DivMod(x, d);
    AddOne(x / d, d);
  }

  /** The quotient is the one q with q w <= x < (q + 1) w. */
  lemma DivUnique(x: int, w: int, q: int)
    requires w >= 1 && q * w <= x < (q + 1) * w
    ensures x / w == q
  {
    var d := x / w;
    assert x == d * w + x % w && 0 <= x % w < w;
    if d < q {
      MulMonotone(d + 1, q, w);
    } else if d > q {
      MulMonotone(q + 1, d, w);
    }
  }
}
