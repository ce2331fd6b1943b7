/** Facts about multiplication, integer division and remainder that the
    solver does not find on its own when the divisor is not a literal. */
module Arithmetic {
  lemma MulMono(a: int, b: int, d: int)
    requires a <= b && d >= 0
    ensures a * d <= b * d
  {
    assert b * d - a * d == (b - a) * d;
  }

  lemma MulLessCancel(a: int, b: int, d: int)
    requires d >= 1 && a * d < b * d
    ensures a < b
  {
    if b <= a {
      MulMono(b, a, d);
    }
  }

  /** Quotient and remainder are the only ones with `x == q * d + r` and
      `0 <= r < d`. */
  lemma DivModUnique(x: int, q: int, r: int, d: int)
    requires d >= 1 && 0 <= r < d && x == q * d + r
    ensures x / d == q && x % d == r
  {
    var q', r' := x / d, x % d;
    assert x == q' * d + r';
    assert q' * d < (q + 1) * d;
    MulLessCancel(q', q + 1, d);
    assert q * d < (q' + 1) * d;
    MulLessCancel(q, q' + 1, d);
  }
}
