/** The few facts about multiplication and division the layout and the wire format rest on. */
module Arith {

  function Quotient(a: nat, m: nat): nat
    requires m > 0
  {
    a / m
  }

  lemma MulGap(x: nat, y: nat, m: nat)
    ensures x < y ==> (x + 1) * m <= y * m
  {
    if x < y {
      assert y * m == (x + 1) * m + (y - x - 1) * m;
    }
  }

  lemma QuotientIs(a: nat, m: nat, q: nat)
    requires m > 0 && q * m <= a < (q + 1) * m
    ensures a / m == q && a % m == a - q * m
  {
    var r := a / m;
    assert a == r * m + a % m;
    MulGap(r, q, m);
    MulGap(q, r, m);
  }

  lemma DivDiv(a: nat, p: nat)
    requires p > 0
    ensures a / 10 / p == a / (10 * p)
  {
    var b := a / 10;
    var q := b / p;
    assert b == q * p + b % p;
    assert (q + 1) * p == q * p + p;
    assert q * (10 * p) == 10 * (q * p);
    assert (q + 1) * (10 * p) == 10 * (q * p) + 10 * p;
    QuotientIs(a, 10 * p, q);
  }

  lemma Distribute(x: nat, y: nat, p: nat)
    ensures (10 * x + y) * p == x * (10 * p) + y * p
  {
  }

  lemma MulMono(a: nat, b: nat, c: nat, d: nat)
    requires a <= b && c <= d
    ensures a * c <= b * d
  {
    assert b * d == a * c + a * (d - c) + (b - a) * d;
  }

  /** n things of size S, counted in groups of q. */
  lemma InGroups(n: nat, q: nat, S: nat)
    requires q > 0
    ensures n * S == (n / q) * (q * S) + (n % q) * S
  {
    var a, r := n / q, n % q;
    assert n == a * q + r;
    assert (a * q + r) * S == (a * q) * S + r * S;
    assert (a * q) * S == a * (q * S);
  }
}
