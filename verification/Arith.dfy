/** Division by a positive number, stated once: quotient and remainder are unique. */
module Arith {
  lemma {:induction false} MulStep(a: int, b: int, d: int)
    requires a < b && d > 0
    ensures a * d + d <= b * d
    decreases b - a
  {
    assert (b - 1) * d + d == b * d;
    if a < b - 1 {
      MulStep(a, b - 1, d);
    }
  }

  lemma DivModIs(x: int, d: int, q: int, r: int)
    requires d > 0 && x == q * d + r && 0 <= r < d
    ensures x / d == q && x % d == r
  {
    var q' := x / d;
    assert x == q' * d + x % d;
    if q > q' {
      MulStep(q', q, d);
    } else if q < q' {
      MulStep(q, q', d);
    }
  }

  /** Dividing by a product is dividing twice, and the remainders nest. */
  lemma DivTwice(x: int, a: int, b: int, ab: int)
    requires a > 0 && b > 0 && ab == a * b
    ensures ab > 0 && x / ab == x / a / b && x % ab == x / a % b * a + x % a
  {
    var n, t := x / a, x % a;
    var q, r := n / b, n % b;
    MulStep(r, b, a);
    assert b * a == ab;
    assert r * a >= 0 by {
      if r > 0 {
        MulStep(0, r, a);
      }
    }
    assert x == n * a + t;
    assert n == q * b + r;
    assert (q * b) * a == q * ab;
    assert x == q * ab + (r * a + t);
    DivModIs(x, ab, q, r * a + t);
  }
}
