/** Products and quotients: the few facts the solver needs to be told. */
module Arithmetic {

  lemma Distribute(x: int, y: int, m: int)
    ensures (x + y) * m == x * m + y * m
  {
  }

  lemma MulLe(x: int, y: int, m: nat)
    requires x <= y
    ensures x * m <= y * m
  {
    assert (y - x) * m >= 0;
  }

  lemma DivMod(x: int, m: nat)
    requires m > 0
    ensures x == x / m * m + x % m && 0 <= x % m < m
  {
  }

  // Quotient and remainder are the only numbers with this property.
  lemma QuotientUnique(x: int, m: nat, q: int, r: nat)
    requires m > 0 && x == q * m + r && r < m
    ensures x / m == q && x % m == r
  {
    var q', r' := x / m, x % m;
    DivMod(x, m);
    Distribute(q, 1, m);
    Distribute(q', 1, m);
    if q > q' {
      MulLe(q' + 1, q, m);
    } else if q < q' {
      MulLe(q + 1, q', m);
    }
  }

  lemma MultipleMod(k: nat, m: nat)
    requires m > 0
    ensures k * m % m == 0
  {
    QuotientUnique(k * m, m, k, 0);
  }

  // Adding a multiple of m does not change the remainder.
  lemma SumMod(x: nat, y: nat, m: nat)
    requires m > 0 && x % m == 0
    ensures (x + y) % m == y % m
  {
    DivMod(x, m);
    DivMod(y, m);
    Distribute(x / m, y / m, m);
    QuotientUnique(x + y, m, x / m + y / m, y % m);
  }
}
