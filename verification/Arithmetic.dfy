/** Products and quotients of natural numbers, one step at a time. */
module Arithmetic {

  lemma Product(a: nat, b: nat, c: nat, d: nat)
    requires a <= c && b <= d
    ensures 0 <= a * b <= c * d
  {
    assert a * b <= c * b <= c * d;
  }

  lemma Distribute(q: nat, n: nat)
    ensures (q + 1) * n == q * n + n && n * (q + 1) == n * q + n
  {
  }

  lemma Reassociate(a: nat, b: nat, c: nat)
    ensures a * b * c == a * (b * c)
  {
  }

  lemma Divide(a: nat, n: nat, q: nat)
    requires n > 0 && q == a / n
    ensures 0 <= q * n <= a < q * n + n
  {
    assert a == q * n + a % n;
  }

  lemma NotBelow(a: nat, b: nat, n: nat)
    requires a * n < b * n + n
    ensures a <= b
  {
    if b < a {
      Product(b + 1, n, a, n);
      Distribute(b, n);
    }
  }

  lemma DivMod(n: nat, d: nat, q: nat, r: nat)
    requires r < d
    ensures n == q * d + r <==> n / d == q && n % d == r
  {
    if n == q * d + r {
      Divide(n, d, n / d);
      NotBelow(q, n / d, d);
      NotBelow(n / d, q, d);
    }
  }
}
