/**
  Why a relative band of 1e-12 holds exact ties only: two different fused scores of one reference
  are rationals with bounded numerators and denominators, so they cannot be that close.
 */
module RrfSeparation {
  import opened Ratios
  import opened RrfFusion
  import opened RrfScore
  import opened RrfLattice

  /** `v` is `p/q` with `0 < p <= 2n` and `0 < q <= n*n`. */
  ghost predicate IsFraction(v: real, p: nat, q: nat, n: nat) {
    0 < p <= 2 * n && 0 < q <= n * n && v * q as real == p as real
  }

  /** The condition on `n = rank_constant + window` under which the band is exact. */
  predicate Separable(n: nat) {
    2 * n * n * n < 1_000_000_000_000
  }

  lemma MulMonotone(a: nat, b: nat, c: nat)
    requires a <= b
    ensures a * c <= b * c && c * a <= c * b
  {
  }

  lemma SeparableUpTo(n: nat)
    requires n <= 7937
    ensures Separable(n)
  {
    var m := n * n;
    MulMonotone(n, 7937, n);
    MulMonotone(m, 7937 * 7937, n);
    assert 2 * n * n * n == 2 * (m * n);
  }

  lemma ProductBound(p: nat, q: nat, n: nat)
    requires p <= 2 * n && q <= n * n
    ensures p * q <= 2 * n * n * n
  {
    MulMonotone(p, 2 * n, q);
    MulMonotone(q, n * n, 2 * n);
    assert (2 * n) * (n * n) == 2 * n * n * n;
  }

  lemma FarApart(u: real, v: real, t: real, z: real, x: int, y: int)
    requires z > 0.0 && t * z < 1.0 && u * z == x as real && v * z == y as real && x > y
    ensures u - v > t
  {
    var d, w := u - v, (x - y) as real;
    assert d * z == w by { Difference(u, v, d, z); }
    assert w >= 1.0;
    var tz := t * z;
    Compare(t, d, z, tz, w);
  }

  /** Over a common denominator `z` the values are integers, so they differ by at least one unit. */
  lemma UnitsApart(u: real, v: real, t: real, z: real, m1: int, m2: int)
    requires z > 0.0 && u * z == m1 as real && v * z == m2 as real && m2 < 1_000_000_000_000 && u != v
    requires t == ReferenceBand(v)
    ensures Abs(u - v) > t
  {
    assert t * z < 1.0 by { BandTimes(v, t, z); }
    assert m1 != m2 by { Compare(u, v, z, m1 as real, m2 as real); }
    if m1 > m2 { FarApart(u, v, t, z, m1, m2); } else { FarApart(v, u, t, z, m2, m1); }
  }

  lemma BandTimes(v: real, t: real, z: real)
    requires t == ReferenceBand(v)
    ensures t * z == ReferenceBand(v * z)
  {
  }

  lemma Cleared(v: real, p: nat, q: nat, r: nat, z: real)
    requires v * q as real == p as real && z == q as real * r as real
    ensures v * z == (p * r) as real
  {
    assert v * (q as real * r as real) == (v * q as real) * r as real;
  }

  /** Two different fractions of this size differ by more than the relative tolerance. */
  lemma FractionsSeparate(u: real, v: real, p1: nat, q1: nat, p2: nat, q2: nat, n: nat, z: real)
    requires IsFraction(u, p1, q1, n) && IsFraction(v, p2, q2, n) && Separable(n) && u != v
    requires z == q1 as real * q2 as real
    ensures Abs(u - v) > ReferenceBand(v)
  {
    var m1, m2 := p1 * q2, p2 * q1;
    assert z > 0.0 by { Sign(q1 as real, q2 as real); }
    assert u * z == m1 as real by { Cleared(u, p1, q1, q2, z); }
    assert v * z == m2 as real by {
      assert q1 as real * q2 as real == q2 as real * q1 as real;
      Cleared(v, p2, q2, q1, z);
    }
    assert m2 < 1_000_000_000_000 by { ProductBound(p2, q1, n); }
    UnitsApart(u, v, ReferenceBand(v), z, m1, m2);
  }

  lemma RecipFraction(a: nat, n: nat)
    requires 1 <= a <= n
    ensures IsFraction(Recip(a), 1, a, n)
  {
    assert a <= n * n;
  }

  lemma SumFraction(a: nat, b: nat, n: nat)
    requires 1 <= a <= n && 1 <= b <= n
    ensures IsFraction(Recip(a) + Recip(b), a + b, a * b, n)
  {
    var x, y := a as real, b as real;
    assert 0 < a * b <= n * n;
    assert (a * b) as real == x * y;
    assert (Recip(a) + Recip(b)) * (x * y) == (Recip(a) * x) * y + (Recip(b) * y) * x;
  }

  /** Every fused score of two lists of at most `W` ids is such a fraction with `n = k + W`. */
  lemma FusedScoreIsFraction(l1: seq<int>, l2: seq<int>, spec: RrfSpec, id: int) returns (p: nat, q: nat)
    requires |l1| <= spec.window && |l2| <= spec.window && id in Union([l1, l2])
    ensures IsFraction(FusedScore([l1, l2], spec.rankConstant, id), p, q, spec.rankConstant + spec.window)
  {
    var k, w := spec.rankConstant, spec.window;
    TwoListScore(l1, l2, k, id);
    var a := ContributionRank(l1, k, w, id);
    var b := ContributionRank(l2, k, w, id);
    var m, n := k + a, k + b;
    if id in l1 && id in l2 {
      SumFraction(m, n, k + w);
      p, q := m + n, m * n;
    } else {
      p, q := 1, if id in l1 then m else n;
      RecipFraction(q, k + w);
    }
  }

  /** Two documents of one reference: equal scores, or scores further apart than the tolerance. */
  lemma ScoresSeparate(l1: seq<int>, l2: seq<int>, spec: RrfSpec, x: int, y: int)
    requires |l1| <= spec.window && |l2| <= spec.window && Separable(spec.rankConstant + spec.window)
    requires x in Union([l1, l2]) && y in Union([l1, l2])
    ensures var u := FusedScore([l1, l2], spec.rankConstant, x); var v := FusedScore([l1, l2], spec.rankConstant, y);
            Floor(v) <= u <= Ceil(v) <==> u == v
  {
    var u, v := FusedScore([l1, l2], spec.rankConstant, x), FusedScore([l1, l2], spec.rankConstant, y);
    var p1, q1 := FusedScoreIsFraction(l1, l2, spec, x);
    var p2, q2 := FusedScoreIsFraction(l1, l2, spec, y);
    BandHoldsCutoff(v);
    if u != v {
      FractionsSeparate(u, v, p1, q1, p2, q2, spec.rankConstant + spec.window, q1 as real * q2 as real);
      Sign(v, q2 as real);
    }
  }

  /** Rank `i` is in the tie group of the cutoff exactly when tied with it, above it exactly when it scores more. */
  ghost predicate ExactAt(f: seq<Scored>, expected: nat, i: nat)
    requires 0 < expected <= |f| && i < |f|
  {
    var cutoff := f[expected - 1].1;
    && (f[i].0 in TiedIds(f, cutoff) <==> f[i].1 == cutoff)
    && (f[i].0 in AboveIds(f, cutoff) <==> f[i].1 > cutoff)
  }

  /** The tie group is exactly the documents tied with the cutoff, the others strictly above or below it. */
  lemma TieGroupIsExact(f: seq<Scored>, l1: seq<int>, l2: seq<int>, spec: RrfSpec, expected: nat, i: nat)
    requires |l1| <= spec.window && |l2| <= spec.window && Separable(spec.rankConstant + spec.window)
    requires IsFusion(f, [l1, l2], spec.rankConstant) && 0 < expected <= |f| && i < |f|
    ensures ExactAt(f, expected, i)
  {
    var cutoff := f[expected - 1].1;
    assert f[i] in f && f[expected - 1] in f;
    FusionIsRanked(f, [l1, l2], spec.rankConstant);
    ScoreMapAt(f, i);
    ScoresSeparate(l1, l2, spec, f[i].0, f[expected - 1].0);
    BandHoldsCutoff(cutoff);
  }
}
