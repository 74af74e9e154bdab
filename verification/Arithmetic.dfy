/** Facts about products, quotients and remainders that the solver does not find by itself. */
module Arithmetic {

  lemma FactorBelow(p: int, q: int, n: int)
    requires n > 0 && p * n < q * n
    ensures p < q
  {
    assert (q - p) * n > 0;
  }

  lemma DivMod(x: int, n: int, q: int, r: int)
    requires n > 0 && x == q * n + r && 0 <= r < n
    ensures x / n == q && x % n == r
  {
    var q', r' := x / n, x % n;
    assert x == q' * n + r';
    FactorBelow(q, q' + 1, n);
    FactorBelow(q', q + 1, n);
  }

  lemma Distribute(p: int, q: int, n: int)
    ensures (p + q) * n == p * n + q * n
  {
  }

  lemma Reassociate(p: int, q: int, n: int)
    ensures p * q * n == p * (q * n) == p * n * q
  {
  }

  lemma NonNegative(p: int, q: int)
    requires p >= 0 && q >= 0
    ensures p * q >= 0
  {
  }

  lemma DivPlusOne(x: nat, n: nat)
    requires n > 0
    ensures (x + n) / n == x / n + 1
  {
    var q, r := x / n, x % n;
    Distribute(q, 1, n);
    DivMod(x + n, n, q + 1, r);
  }
}
