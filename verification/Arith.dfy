/** Facts about products, quotients and powers of two that several modules need. */
module Arith {

  function Pow2(n: nat): (p: nat)
    ensures p >= 1
  {
    if n == 0 then 1 else 2 * Pow2(n - 1)
  }

  function Quotient(a: nat, b: nat): nat
    requires b > 0
  {
    a / b
  }

  function CeilDiv(a: nat, b: nat): nat
    requires b > 0
  {
    (a + b - 1) / b
  }

  function Min(a: nat, b: nat): nat {
    if a < b then a else b
  }

  lemma NatProduct(a: nat, b: nat)
    ensures a * b >= 0
  {
    MulLe(0, a, b);
  }

  lemma {:induction false} MulLe(a: int, b: int, p: nat)
    ensures a <= b ==> a * p <= b * p
    decreases p
  {
    if p > 0 {
      MulLe(a, b, p - 1);
      assert a * p == a * (p - 1) + a;
      assert b * p == b * (p - 1) + b;
    }
  }

  lemma MulLtCancel(a: int, b: int, p: nat)
    requires a * p < b * p
    ensures a < b
  {
    MulLe(b, a, p);
  }

  // q is the quotient of a by p when a lies in q's slot.
  lemma DivUnique(a: int, p: nat, q: int)
    requires p > 0 && q * p <= a < q * p + p
    ensures a / p == q
  {
    var d := a / p;
    assert d * p <= a < d * p + p;
    assert (d + 1) * p == d * p + p && (q + 1) * p == q * p + p;
    MulLtCancel(d, q + 1, p);
    MulLtCancel(q, d + 1, p);
  }

  lemma DivMono(a: int, b: int, p: nat)
    requires p > 0 && a <= b
    ensures a / p <= b / p
  {
    var d, e := a / p, b / p;
    assert d * p <= a && b < e * p + p;
    assert (e + 1) * p == e * p + p;
    MulLtCancel(d, e + 1, p);
  }

  lemma DivPlus(a: int, k: int, p: nat)
    requires p > 0
    ensures (a + k * p) / p == a / p + k
  {
    var d := a / p;
    assert d * p <= a < d * p + p;
    assert (d + k) * p == d * p + k * p;
    DivUnique(a + k * p, p, d + k);
  }

  lemma CeilDivMono(a: nat, b: nat, d: nat)
    requires a <= b && d > 0
    ensures CeilDiv(a, d) <= CeilDiv(b, d)
  {
    DivMono(a + d - 1, b + d - 1, d);
  }

  lemma CeilDivPositive(a: nat, d: nat)
    requires a > 0 && d > 0
    ensures CeilDiv(a, d) > 0
  {
    DivMono(d, a + d - 1, d);
    DivUnique(d, d, 1);
  }

  lemma {:induction false} Pow2Add(a: nat, b: nat)
    ensures Pow2(a + b) == Pow2(a) * Pow2(b)
  {
    if a > 0 {
      Pow2Add(a - 1, b);
      assert Pow2(a + b) == 2 * Pow2(a - 1 + b);
      assert 2 * (Pow2(a - 1) * Pow2(b)) == (2 * Pow2(a - 1)) * Pow2(b);
    }
  }

  lemma AddMultiple(a: nat, k: nat, m: nat)
    requires m > 0
    ensures (k * m + a) % m == a % m && (k * m + a) / m == k + a / m
  {
    DivPlus(a, k, m);
    assert (k + a / m) * m == k * m + a / m * m;
  }
}
