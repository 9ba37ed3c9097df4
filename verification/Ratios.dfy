/** Counts divided by counts, as exact reals. */
module Ratios {

  function Ratio(a: nat, n: nat): (r: real)
    requires n > 0
    ensures r >= 0.0 && (a <= n <==> r <= 1.0) && (a == n <==> r == 1.0) && (a == 0 <==> r == 0.0)
  {
    RatioFacts(a as real, n as real);
    a as real / n as real
  }

  /** It is the quotient. */
  lemma RatioIs(a: nat, n: nat)
    requires n > 0
    ensures Ratio(a, n) * n as real == a as real
  {
    Quotient(a as real, n as real);
  }

  lemma RatioFacts(x: real, m: real)
    requires x >= 0.0 && m > 0.0
    ensures x / m >= 0.0 && (x <= m <==> x / m <= 1.0) && (x == m <==> x / m == 1.0) && (x == 0.0 <==> x / m == 0.0)
  {
    var r := x / m;
    assert r * m == x;
    assert (1.0 - r) * m == m - x;
  }

  lemma Quotient(x: real, m: real)
    requires m > 0.0
    ensures (x / m) * m == x
  {
  }

  lemma Sign(a: real, z: real)
    requires z > 0.0
    ensures a * z > 0.0 <==> a > 0.0
    ensures a * z < 0.0 <==> a < 0.0
  {
  }

  lemma Difference(a: real, b: real, d: real, z: real)
    requires d == a - b
    ensures d * z == a * z - b * z
  {
  }

  /** A difference has the sign of its multiple. */
  lemma Compare(a: real, b: real, z: real, x: real, y: real)
    requires z > 0.0 && a * z == x && b * z == y
    ensures a < b <==> x < y
    ensures a == b <==> x == y
  {
    var d := b - a;
    Difference(b, a, d, z);
    Sign(d, z);
  }

  lemma RatioMonotone(a: nat, b: nat, n: nat)
    requires n > 0
    ensures a <= b <==> Ratio(a, n) <= Ratio(b, n)
  {
    var m := n as real;
    Quotient(a as real, m);
    Quotient(b as real, m);
    Compare(Ratio(a, n), Ratio(b, n), m, a as real, b as real);
  }

  /** A larger denominator gives a smaller ratio. */
  lemma RatioAntitone(a: nat, m: nat, n: nat)
    requires 0 < m <= n
    ensures Ratio(a, n) <= Ratio(a, m)
  {
    QuotientAntitone(a as real, m as real, n as real);
  }

  lemma ProductMonotone(r: real, m: real, n: real)
    requires r >= 0.0 && m <= n
    ensures r * m <= r * n
  {
    var d := n - m;
    assert r * d >= 0.0;
    assert r * d == r * n - r * m;
  }

  lemma QuotientAntitone(x: real, m: real, n: real)
    requires x >= 0.0 && 0.0 < m <= n
    ensures x / n <= x / m
  {
    var r, s := x / n, x / m;
    Quotient(x, n);
    Quotient(x, m);
    assert r >= 0.0 by { RatioFacts(x, n); }
    ProductMonotone(r, m, n);
    Compare(s, r, m, x, r * m);
  }
}
