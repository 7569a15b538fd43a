/** The few facts of integer multiplication and division that the other modules need. */
module Arithmetic {

  lemma MulMonotone(a: int, b: int, d: int)
    requires a <= b && d >= 0
    ensures a * d <= b * d
  {
    assert b * d - a * d == (b - a) * d;
  }

  lemma MulStep(a: int, d: int)
    ensures (a + 1) * d == a * d + d
    ensures (a - 1) * d == a * d - d
  {
  }

  lemma SmallMultipleIsZero(k: int, d: int)
    requires d > 0 && -d < k * d < d
    ensures k == 0
  {
    if k >= 1 {
      MulMonotone(1, k, d);
    } else if k <= -1 {
      MulMonotone(k, -1, d);
    }
  }

  lemma DivModUnique(x: int, d: int, q: int, r: int)
    requires d > 0 && 0 <= r < d && x == q * d + r
    ensures x / d == q && x % d == r
  {
    var k := x / d - q;
    assert x == (x / d) * d + x % d;
    assert k * d == (x / d) * d - q * d;
    SmallMultipleIsZero(k, d);
  }

  lemma MultipleMod(q: int, d: int)
    requires d > 0
    ensures (q * d) % d == 0 && (q * d) / d == q
  {
    DivModUnique(q * d, d, q, 0);
  }

  lemma ExactDivision(x: int, d: int)
    requires d > 0 && x % d == 0
    ensures x == (x / d) * d
  {
  }

  lemma DividesTrans(e: int, d: int, x: int)
    requires e > 0 && d > 0 && d % e == 0 && x % d == 0
    ensures x % e == 0
  {
    ExactDivision(d, e);
    ExactDivision(x, d);
    var a, b := d / e, x / d;
    assert x == b * (a * e) == (b * a) * e;
    MultipleMod(b * a, e);
  }

  lemma DivDiv(x: int, a: int, b: int)
    requires a > 0 && b > 0
    ensures a * b > 0 && x / (a * b) == x / a / b
  {
    var q := x / a / b;
    var r := x / a % b;
    MulMonotone(1, a, b);
    MulMonotone(r, b - 1, a);
    MulMonotone(0, r, a);
    MulStep(b, a);
    TwoDigits(q, r, a, b, x % a);
    DivModUnique(x, a * b, q, r * a + x % a);
  }

  lemma TwoDigits(q: int, r: int, a: int, b: int, s: int)
    ensures (q * b + r) * a + s == q * (a * b) + (r * a + s)
  {
  }

  /** Multiples of `d` differ by at least `d`. */
  lemma MultiplesApart(a: int, b: int, d: int)
    requires d > 0 && a % d == 0 && b % d == 0 && a < b
    ensures a + d <= b && (a + d) % d == 0
  {
    ExactDivision(a, d);
    ExactDivision(b, d);
    var m, n := a / d, b / d;
    if n <= m {
      MulMonotone(n, m, d);
    }
    MulMonotone(m + 1, n, d);
    MulStep(m, d);
    MultipleMod(m + 1, d);
  }
}
