/** Division facts that need a word of proof. */
module Arithmetic {

  lemma Multiples(x: int, d: int)
    requires d > 0
    ensures x >= 1 ==> x * d >= d
    ensures x <= -1 ==> x * d <= -d
  {
  }

  /** Quotient and remainder are unique. */
  lemma DivisionIs(h: nat, d: nat, q: nat, r: nat)
    requires h == q * d + r && r < d
    ensures h / d == q && h % d == r
  {
    var k := h / d;
    assert h == k * d + h % d;
    assert (k - q) * d == r - h % d;
    Multiples(k - q, d);
  }

  lemma DivisionStep(a: nat, d: nat)
    requires d > 0
    ensures (a + d) / d == a / d + 1
  {
    var q, r := a / d, a % d;
    assert a == q * d + r;
    assert a + d == (q + 1) * d + r;
    DivisionIs(a + d, d, q + 1, r);
  }

  function Quotient(n: nat, d: nat): (q: nat)
    requires d > 0
  {
    n / d
  }

  lemma QuotientBelow(n: nat, d: nat, c: nat)
    requires d > 0 && n < d * c
    ensures Quotient(n, d) < c
  {
    var q := n / d;
    assert n == q * d + n % d;
    assert (q - c) * d < d;
    Multiples(q - c, d);
    assert q - c != 0 by {
      assert q == c ==> q * d == d * c;
    }
  }

  lemma QuotientIs(n: nat, d: nat)
    requires d > 0
    ensures Quotient(n, d) * d <= n < (Quotient(n, d) + 1) * d
  {
    assert n == n / d * d + n % d;
  }

  lemma LessByFactor(a: nat, b: nat, c: nat)
    requires c > 0
    ensures a * c <= b * c ==> a <= b
    ensures a * c < b * c ==> a < b
  {
    Multiples(a - b, c);
  }

  lemma QuotientAtLeast(n: nat, d: nat, a: nat)
    requires d > 0
    ensures a <= Quotient(n, d) <==> a * d <= n
  {
    var q := Quotient(n, d);
    QuotientIs(n, d);
    if a <= q {
      Times(a, q, d);
    } else {
      Times(q + 1, a, d);
    }
  }

  lemma Times(a: nat, b: nat, c: nat)
    requires a <= b
    ensures a * c <= b * c
  {
  }

  /** A common factor does not matter. */
  lemma QuotientReduced(n: nat, w: nat, p: nat, q: nat)
    requires w > 0 && p > 0 && w * p > 0 && q == Quotient(n * w, w * p)
    ensures q * p <= n < (q + 1) * p
  {
    QuotientIs(n * w, w * p);
    Regroup(q, w, p);
    Regroup(q + 1, w, p);
    LessByFactor(q * p, n, w);
    LessByFactor(n, (q + 1) * p, w);
  }

  lemma Regroup(a: nat, b: nat, c: nat)
    ensures a * (b * c) == (a * c) * b
  {
  }

  /** A digit and a rest stay below the next multiple. */
  lemma Carry(a: nat, b: nat, n: nat, r: nat)
    requires a < b && r < n
    ensures a * n + r < b * n
  {
    assert a * n + n == (a + 1) * n <= b * n;
  }

  function DivRoundUp(a: nat, b: nat): (r: nat)
    requires b > 0
  {
    (a + b - 1) / b
  }
}
