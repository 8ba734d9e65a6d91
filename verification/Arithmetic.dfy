/** Products and quotients of variables, in small steps. */
module Arithmetic {
  function Product(x: nat, y: nat): nat {
    x * y
  }

  function Quotient(n: nat, d: nat): nat
    requires d > 0
  {
    n / d
  }

  lemma MulMono(x: nat, y: nat, k: nat)
    requires x <= y
    ensures Product(x, k) <= Product(y, k)
  {
  }

  lemma Cancel(x: nat, y: nat, d: nat)
    requires Product(x, d) < Product(y, d)
    ensures x < y
  {
    hide Product;
    if y <= x { MulMono(y, x, d); }
  }

  lemma Distribute(x: nat, y: nat, k: nat)
    ensures Product(x + y, k) == Product(x, k) + Product(y, k)
    ensures Product(1, k) == k
    ensures Product(k, x) == Product(x, k)
  {
  }

  lemma Associate(x: nat, y: nat, k: nat)
    ensures Product(Product(x, y), k) == Product(Product(x, k), y)
  {
  }

  lemma DivBounds(n: nat, d: nat)
    requires d > 0
    ensures Product(Quotient(n, d), d) <= n < Product(Quotient(n, d), d) + d
    ensures Quotient(n, d) <= n
  {
    assert n == n / d * d + n % d;
    if n / d > 0 { MulMono(1, d, n / d); }
  }

  lemma DivIs(n: nat, d: nat, q: nat)
    requires d > 0 && Product(q, d) <= n < Product(q, d) + d
    ensures Quotient(n, d) == q
  {
    hide Product, Quotient;
    DivBounds(n, d);
    var e := Quotient(n, d);
    Distribute(e, 1, d);
    Distribute(q, 1, d);
    Cancel(e, q + 1, d);
    Cancel(q, e + 1, d);
  }

  lemma DivMod(a: nat, b: nat)
    requires b > 0
    ensures a == Product(a / b, b) + a % b && a / b == Quotient(a, b)
  {
  }

  lemma RemainderOnce(n: nat, r: nat)
    requires r < n
    ensures (n + r) % n == r
  {
    hide Product, Quotient;
    Distribute(n, 0, 0);
    Distribute(0, 0, n);
    DivIs(n + r, n, 1);
    DivMod(n + r, n);
  }
}
