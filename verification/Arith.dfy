/** Facts about products and quotients that the solver does not find by itself. */
module Arith {
  lemma TimesLess(a: int, b: int, c: int)
    requires a <= b && c >= 0
    ensures a * c <= b * c
  {
  }

  lemma SmallMultiple(k: int, d: int, x: int)
    requires k * d == x && -d < x < d
    ensures k == 0
  {
    if k >= 1 {
      TimesLess(1, k, d);
    } else if k <= -1 {
      TimesLess(1, -k, d);
    }
  }

  lemma Distribute(a: int, b: int, c: int)
    ensures (a + b) * c == a * c + b * c && (a - b) * c == a * c - b * c
  {
  }

  lemma Divides(n: int, d: int)
    requires d > 0
    ensures n == n / d * d + n % d && 0 <= n % d < d
  {
  }

  /** Quotient and remainder are what they should be. */
  lemma DivUnique(n: int, d: int, q: int, r: int)
    requires d > 0 && n == q * d + r && 0 <= r < d
    ensures n / d == q && n % d == r
  {
    Divides(n, d);
    Distribute(q, n / d, d);
    SmallMultiple(q - n / d, d, n % d - r);
  }

  /** Dividing twice is dividing by the product. */
  lemma DivDiv(n: int, a: int, b: int)
    requires a > 0 && b > 0
    ensures n / (a * b) == n / a / b && a * b > 0
  {
    var q, r := n / a, n % a;
    Divides(n, a);
    Divides(q, b);
    Distribute(q / b * b, q % b, a);
    TimesLess(q % b, b - 1, a);
    Distribute(b, 1, a);
    DivUniqueProduct(n, a, b, q / b, q % b * a + r);
  }

  lemma DivUniqueProduct(n: int, a: int, b: int, q: int, r: int)
    requires a > 0 && b > 0 && n == q * b * a + r && 0 <= r < b * a
    ensures a * b > 0 && n / (a * b) == q
  {
    assert q * b * a == q * (a * b);
    DivUnique(n, a * b, q, r);
  }
}
