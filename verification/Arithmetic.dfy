/** Division by a variable, proved once and away from everything else. */
module Arithmetic {

  lemma MulMonotone(a: nat, q: nat, d: nat)
    requires a <= q
    ensures a * d <= q * d
  {
    var k := q - a;
    assert q * d == (a + k) * d == a * d + k * d;
  }

  lemma MulBounds(a: nat, q: nat, d: nat)
    requires a < q
    ensures a * d + d <= q * d
  {
    MulMonotone(a + 1, q, d);
    assert (a + 1) * d == a * d + d;
  }

  lemma DivMod(a: nat, b: nat, d: nat)
    requires b < d
    ensures (a * d + b) / d == a && (a * d + b) % d == b
  {
    var x := a * d + b;
    var q, r := x / d, x % d;
    assert x == q * d + r;
    if q < a {
      MulBounds(q, a, d);
    } else if a < q {
      MulBounds(a, q, d);
    }
  }

  lemma ShiftDigit(a: nat, p: nat, v: nat, digit: nat)
    ensures 16 * (a * p + v) + digit == a * (16 * p) + (16 * v + digit)
  {
  }

  /** A quotient stays below the number of whole units that fit. */
  lemma QuotientBound(x: nat, c: nat, u: nat)
    requires u > 0 && x < c * u
    ensures x / u < c && x / u * u + x % u == x
  {
    var q := x / u;
    assert x == q * u + x % u;
    if c <= q {
      MulMonotone(c, q, u);
    }
  }
}
