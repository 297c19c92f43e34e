/** Products and quotients under names of their own, so that proofs use the few facts they need about
    them instead of the solver's nonlinear arithmetic. */
module Arithmetic {

  function Min(a: int, b: int): int { if a < b then a else b }

  function Product(a: int, b: int): int { a * b }

  function Quotient(a: int, d: int): int requires d > 0 { a / d }

  function Remainder(a: int, d: int): int requires d > 0 { a % d }

  lemma MulBound(a: int, b: int, c: int, d: int)
    requires 0 <= a <= c && 0 <= b <= d
    ensures 0 <= Product(a, b) <= Product(c, d)
  {
    assert (c - a) * b >= 0 && c * (d - b) >= 0;
  }

  lemma ProductAdd(a: int, b: int, c: int)
    ensures Product(a + b, c) == Product(a, c) + Product(b, c)
  {}

  lemma ProductSwap(a: int, b: int, c: int)
    ensures Product(Product(a, b), c) == Product(Product(a, c), b)
  {}

  lemma Divide(n: int, d: int)
    requires d > 0
    ensures n == Product(Quotient(n, d), d) + Remainder(n, d)
    ensures 0 <= Remainder(n, d) < d
    ensures n >= 0 ==> Quotient(n, d) >= 0
  {}

  lemma DivUnique(n: int, d: int, q: int, m: int)
    requires 0 <= m < d && n == Product(q, d) + m
    ensures Quotient(n, d) == q && Remainder(n, d) == m
  {
    Divide(n, d);
    var q' := Quotient(n, d);
    if q < q' {
      MulBound(1, d, q' - q, d);
      ProductAdd(q, q' - q, d);
    } else if q' < q {
      MulBound(1, d, q - q', d);
      ProductAdd(q', q - q', d);
    }
  }

  lemma DivideSum(k: int, r: int, d: int)
    requires d > 0
    ensures Quotient(Product(k, d) + r, d) == k + Quotient(r, d)
  {
    Divide(r, d);
    ProductAdd(k, Quotient(r, d), d);
    DivUnique(Product(k, d) + r, d, k + Quotient(r, d), Remainder(r, d));
  }

  /** The quotient test used by the source decides overflow of the product. */
  lemma QuotientTest(a: int, b: int, limit: int)
    requires b > 0 && a >= 0 && limit >= 0
    ensures a > Quotient(limit, b) <==> Product(a, b) > limit
  {
    Divide(limit, b);
    var q := Quotient(limit, b);
    if a > q {
      MulBound(q + 1, b, a, b);
      ProductAdd(q, 1, b);
    } else {
      MulBound(a, b, q, b);
    }
  }

  lemma QuotientMonotone(a: int, b: int, d: int)
    requires 0 <= a <= b && d > 0
    ensures 0 <= Quotient(a, d) <= Quotient(b, d)
  {
    Divide(a, d);
    Divide(b, d);
    QuotientTest(Quotient(a, d), d, b);
  }

  lemma ProductMonotone(a: int, b: int, d: int)
    requires a <= b && d >= 0
    ensures Product(a, d) <= Product(b, d)
  {
    assert (b - a) * d >= 0;
  }

  /** n / d == q exactly on the half-open block of length d that starts at q * d. */
  lemma QuotientBlock(n: int, d: int, q: int)
    requires d > 0
    ensures Quotient(n, d) == q <==> Product(q, d) <= n < Product(q, d) + d
    ensures Quotient(n, d) < q <==> n < Product(q, d)
  {
    Divide(n, d);
    if Product(q, d) <= n < Product(q, d) + d { DivUnique(n, d, q, n - Product(q, d)); }
    var m := Quotient(n, d);
    if m < q {
      ProductMonotone(m + 1, q, d);
      ProductAdd(m, 1, d);
    } else {
      ProductMonotone(q, m, d);
    }
  }
}
