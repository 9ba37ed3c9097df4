/**
  When the 1e-12 tie band of src/hybrid_rrf.rs is exact: for every reference of a spec if and only if
  no four ranks merge, an integer condition on the rank constant and the window. Specs that break it
  exist, and there `score_query` counts a document that scores strictly below the cutoff.
 */
module RrfMerge {
  import opened Lists
  import opened Ratios
  import opened Sorting
  import opened RrfFusion
  import opened RrfScore
  import opened RrfLattice
  import opened RrfSeparation

  const BAND: int := 1_000_000_000_000

  /** `1/c + 1/d - 1/a - 1/b`, times `abcd`. */
  function Cross(a: nat, b: nat, c: nat, d: nat): int { (c + d) * (a * b) - (a + b) * (c * d) }

  /** `1/a + 1/b` differs from `1/c + 1/d` but lies in its band. */
  predicate Merges(a: nat, b: nat, c: nat, d: nat) {
    var x := Cross(a, b, c, d);
    x != 0 && -((c + d) * (a * b)) <= BAND * x <= (c + d) * (a * b)
  }

  /** `a` is `k + rank` for a rank of the window. */
  predicate Between(spec: RrfSpec, a: nat) {
    spec.rankConstant < a <= spec.rankConstant + spec.window
  }

  /** No two different sums of two reciprocals of the spec share a band. */
  ghost predicate NoMerge(spec: RrfSpec) {
    forall a: nat, b: nat, c: nat, d: nat
      | Between(spec, a) && Between(spec, b) && Between(spec, c) && Between(spec, d) :: !Merges(a, b, c, d)
  }

  lemma SumTimes(a: nat, b: nat, q: nat, z: real)
    requires a > 0 && b > 0 && z == (a * b) as real * q as real
    ensures (Recip(a) + Recip(b)) * z == ((a + b) * q) as real
  {
    SumFraction(a, b, a + b);
    Cleared(Recip(a) + Recip(b), a + b, a * b, q, z);
  }

  lemma PositiveProduct(p: nat, q: nat)
    requires p > 0 && q > 0
    ensures p * q > 0 && p as real * q as real > 0.0
  {
    Sign(p as real, q as real);
  }

  /** The integer condition is the one on the scores. */
  lemma MergesIff(a: nat, b: nat, c: nat, d: nat)
    requires a > 0 && b > 0 && c > 0 && d > 0
    ensures var u, v := Recip(a) + Recip(b), Recip(c) + Recip(d);
            Merges(a, b, c, d) <==> u != v && Floor(v) <= u <= Ceil(v)
  {
    var u, v := Recip(a) + Recip(b), Recip(c) + Recip(d);
    PositiveProduct(a, b);
    PositiveProduct(c, d);
    PositiveProduct(a * b, c * d);
    var z := (a * b) as real * (c * d) as real;
    SumTimes(a, b, c * d, z);
    assert z == (c * d) as real * (a * b) as real;
    SumTimes(c, d, a * b, z);
    InBandIff(u, v, z, (a + b) * (c * d), (c + d) * (a * b));
  }

  /** Two values that are integers over a common denominator: equal, or in the band, as their integers say. */
  lemma InBandIff(u: real, v: real, z: real, x: int, y: int)
    requires z > 0.0 && v > 0.0 && u * z == x as real && v * z == y as real
    ensures u == v <==> x == y
    ensures Floor(v) <= u <= Ceil(v) <==> -y <= BAND * (y - x) <= y
  {
    Compare(u, v, z, x as real, y as real);
    var t, tz := ReferenceBand(v), ReferenceBand(y as real);
    BandTimes(v, t, z);
    var lo, hi := v - t, v + t;
    Difference(v, t, lo, z);
    Difference(hi, t, v, z);
    Compare(lo, u, z, y as real - tz, x as real);
    Compare(u, hi, z, x as real, y as real + tz);
  }

  // ----- Ranks that merge are four different documents' ranks -----

  lemma Quadratic(a: nat, b: nat, d: nat)
    ensures Cross(a, b, a, d) == (a * a) * (b - d)
  {
    assert (a + d) * (a * b) == (a * a) * b + (a * b) * d;
    assert (a + b) * (a * d) == (a * a) * d + (a * b) * d;
  }

  lemma Magnitude(g: nat, e: int)
    requires e != 0
    ensures g * e >= g || g * e + g <= 0
  {
    if e >= 1 { MulMonotone(1, e, g); } else { MulMonotone(1, -e, g); }
  }

  lemma Regroup(p: nat, a: nat, b: nat)
    ensures p * (a * b) == a * (p * b)
  {
  }

  lemma SharedBound(a: nat, b: nat, d: nat)
    requires 0 < a && b <= 20_000 && a + d <= 40_000
    ensures (a + d) * (a * b) < BAND * (a * a)
  {
    var p, y, g := a + d, (a + d) * b, a * a;
    assert p * (a * b) == a * y by { Regroup(p, a, b); }
    assert y <= 800_000_000 by {
      MulMonotone(p, 40_000, b);
    }
    assert a * y <= a * 800_000_000 by { MulMonotone(y, 800_000_000, a); }
    assert a <= g by { MulMonotone(1, a, a); }
  }

  /** Two sums that share a rank are far apart. */
  lemma SharedRankDoesNotMerge(a: nat, b: nat, d: nat)
    requires 0 < a && b <= 20_000 && a + d <= 40_000
    ensures !Merges(a, b, a, d)
  {
    var x, y, g := Cross(a, b, a, d), (a + d) * (a * b), a * a;
    assert x == g * (b - d) by { Quadratic(a, b, d); }
    assert y < BAND * g by { SharedBound(a, b, d); }
    if b != d { Magnitude(g, b - d); }
  }

  lemma Swapped(a: nat, b: nat, c: nat, d: nat)
    ensures Merges(a, b, c, d) <==> Merges(b, a, d, c)
    ensures Merges(a, b, c, d) <==> Merges(a, b, d, c)
  {
    assert a * b == b * a && c * d == d * c;
  }

  lemma MergingRanksDiffer(a: nat, b: nat, c: nat, d: nat)
    requires Merges(a, b, c, d) && 0 < a <= 20_000 && 0 < b <= 20_000 && 0 < c <= 20_000 && 0 < d <= 20_000
    ensures a != c && b != d
  {
    if a == c { SharedRankDoesNotMerge(a, b, d); }
    if b == d {
      Swapped(a, b, c, d);
      SharedRankDoesNotMerge(b, a, c);
    }
  }

  // ----- A reference with two given documents at given ranks -----

  /** `n` ids, -1 at rank `a` and -2 at rank `c`. */
  function Ranking(n: nat, a: nat, c: nat): (l: seq<int>)
    requires 1 <= a <= n && 1 <= c <= n && a != c
    ensures |l| == n && Distinct(l) && l[a - 1] == -1 && l[c - 1] == -2
  {
    seq(n, i requires 0 <= i < n => if i == a - 1 then -1 else if i == c - 1 then -2 else i)
  }

  lemma RankedAt(l: seq<int>, k: nat, r: nat)
    requires Distinct(l) && 1 <= r <= |l|
    ensures Contribution(l, k, l[r - 1]) == Recip(k + r)
  {
    DedupOfDistinct(l);
    assert IndexOf(l, l[r - 1]) == r - 1;
  }

  lemma {:induction false} Enumerate<T>(s: set<T>) returns (q: seq<T>)
    ensures Distinct(q) && forall x :: x in q <==> x in s
    decreases |s|
  {
    if s == {} {
      q := [];
    } else {
      var x :| x in s;
      var r := Enumerate(s - {x});
      q := r + [x];
    }
  }

  /** Every pair of lists has a fusion, the one `rrf_fuse` returns. */
  lemma FusionExists(lists: seq<seq<int>>, k: nat) returns (f: seq<Scored>)
    ensures IsFusion(f, lists, k)
  {
    var scored := set id | id in Union(lists) :: (id, FusedScore(lists, k, id));
    var entries := Enumerate(scored);
    FusionOfEntries(entries, lists, k);
    f := Sort(entries, RankLe);
  }

  /** What `reference` builds: at most `W` distinct BM25 ids fused with at most `W` KNN ids. */
  ghost predicate IsReference(f: seq<Scored>, bm25: seq<int>, knn: seq<int>, spec: RrfSpec) {
    && |bm25| <= spec.window && Distinct(bm25) && |knn| <= spec.window
    && IsFusion(f, [bm25, knn], spec.rankConstant)
  }

  /** `id` is a document of the two lists with fused score `s`. */
  ghost predicate HasScore(bm25: seq<int>, knn: seq<int>, k: nat, id: int, s: real) {
    id in Union([bm25, knn]) && FusedScore([bm25, knn], k, id) == s
  }

  /** The documents -1 and -2 have the fused scores of these ranks, given as `k + rank`. */
  ghost predicate Realises(bm25: seq<int>, knn: seq<int>, k: nat, a: nat, b: nat, c: nat, d: nat) {
    && a > 0 && b > 0 && c > 0 && d > 0
    && HasScore(bm25, knn, k, -1, Recip(a) + Recip(b))
    && HasScore(bm25, knn, k, -2, Recip(c) + Recip(d))
  }

  lemma Placed(bm25: seq<int>, knn: seq<int>, k: nat, id: int, a: nat, b: nat)
    requires Distinct(bm25) && Distinct(knn) && k < a <= k + |bm25| && k < b <= k + |knn|
    requires bm25[a - k - 1] == id && knn[b - k - 1] == id
    ensures HasScore(bm25, knn, k, id, Recip(a) + Recip(b))
  {
    RankedAt(bm25, k, a - k);
    RankedAt(knn, k, b - k);
    TwoListScore(bm25, knn, k, id);
  }

  lemma RanksAreRealised(spec: RrfSpec, a: nat, b: nat, c: nat, d: nat) returns (bm25: seq<int>, knn: seq<int>)
    requires Between(spec, a) && Between(spec, b) && Between(spec, c) && Between(spec, d)
    requires a != c && b != d
    ensures |bm25| <= spec.window && Distinct(bm25) && |knn| <= spec.window
    ensures Realises(bm25, knn, spec.rankConstant, a, b, c, d)
  {
    var k, w := spec.rankConstant, spec.window;
    bm25, knn := Ranking(w, a - k, c - k), Ranking(w, b - k, d - k);
    assert HasScore(bm25, knn, k, -1, Recip(a) + Recip(b)) by { Placed(bm25, knn, k, -1, a, b); }
    assert HasScore(bm25, knn, k, -2, Recip(c) + Recip(d)) by { Placed(bm25, knn, k, -2, c, d); }
  }

  // ----- Exactly when the tie group is exact -----

  /** `TieGroupIsExact` holds of every reference of the spec. */
  ghost predicate TiesExact(spec: RrfSpec) {
    forall f, bm25, knn, expected: nat, i: nat | IsReference(f, bm25, knn, spec) && 0 < expected <= |f| && i < |f| ::
      ExactAt(f, expected, i)
  }

  /** A sum of two reciprocals never comes close to a single one, nor two single ones to each other. */
  lemma SingleSeparates(u: real, v: real, p1: nat, q1: nat, p2: nat, q2: nat)
    requires p1 > 0 && q1 > 0 && p2 > 0 && q2 > 0 && u * q1 as real == p1 as real && v * q2 as real == p2 as real
    requires p2 * q1 < BAND
    ensures Floor(v) <= u <= Ceil(v) ==> u == v
  {
    PositiveProduct(q1, q2);
    var z := q1 as real * q2 as real;
    Cleared(u, p1, q1, q2, z);
    assert z == q2 as real * q1 as real;
    Cleared(v, p2, q2, q1, z);
    assert v > 0.0 by { Sign(v, q2 as real); }
    InBandIff(u, v, z, p1 * q2, p2 * q1);
  }

  lemma SmallProducts(p: nat, q: nat)
    requires p <= 40_000 && q <= 20_000
    ensures p * q < BAND
  {
    MulMonotone(p, 40_000, q);
    MulMonotone(q, 20_000, 40_000);
  }

  /** The score of a document of two lists: the reciprocal of one rank, or of two. */
  datatype Ranks = Single(a: nat) | Pair(a: nat, b: nat)

  ghost predicate RanksOf(s: real, spec: RrfSpec, r: Ranks) {
    match r
    case Single(a) => Between(spec, a) && s == Recip(a)
    case Pair(a, b) => Between(spec, a) && Between(spec, b) && s == Recip(a) + Recip(b)
  }

  lemma SomeRanks(l1: seq<int>, l2: seq<int>, spec: RrfSpec, id: int) returns (r: Ranks)
    requires |l1| <= spec.window && |l2| <= spec.window && id in Union([l1, l2])
    ensures RanksOf(FusedScore([l1, l2], spec.rankConstant, id), spec, r)
  {
    var k, w := spec.rankConstant, spec.window;
    TwoListScore(l1, l2, k, id);
    var a := ContributionRank(l1, k, w, id);
    var b := ContributionRank(l2, k, w, id);
    r := if id in l1 && id in l2 then Pair(k + a, k + b) else Single(if id in l1 then k + a else k + b);
  }

  function Numerator(r: Ranks): nat { if r.Single? then 1 else r.a + r.b }
  function Denominator(r: Ranks): nat { if r.Single? then r.a else r.a * r.b }

  lemma RanksFraction(s: real, spec: RrfSpec, r: Ranks)
    requires ValidSpec(spec) && RanksOf(s, spec, r)
    ensures Numerator(r) > 0 && Denominator(r) > 0 && s * Denominator(r) as real == Numerator(r) as real
  {
    if r.Pair? { SumFraction(r.a, r.b, r.a + r.b); }
  }

  lemma PairsSeparate(u: real, v: real, spec: RrfSpec, r: Ranks, s: Ranks)
    requires ValidSpec(spec) && NoMerge(spec) && RanksOf(u, spec, r) && RanksOf(v, spec, s) && r.Pair? && s.Pair?
    ensures Floor(v) <= u <= Ceil(v) ==> u == v
  {
    MergesIff(r.a, r.b, s.a, s.b);
    assert !Merges(r.a, r.b, s.a, s.b);
  }

  ghost predicate Small(r: Ranks) {
    0 < r.a <= 20_000 && (r.Pair? ==> 0 < r.b <= 20_000)
  }

  lemma SmallCross(r: Ranks, s: Ranks)
    requires Small(r) && Small(s) && (r.Single? || s.Single?)
    ensures Numerator(s) * Denominator(r) < BAND
  {
    if r.Single? { SmallProducts(Numerator(s), r.a); } else { SmallProducts(r.a, r.b); }
  }

  lemma SinglesSeparate(u: real, v: real, spec: RrfSpec, r: Ranks, s: Ranks)
    requires ValidSpec(spec) && RanksOf(u, spec, r) && RanksOf(v, spec, s) && (r.Single? || s.Single?)
    ensures Floor(v) <= u <= Ceil(v) ==> u == v
  {
    var p1, q1, p2, q2 := Numerator(r), Denominator(r), Numerator(s), Denominator(s);
    assert p1 > 0 && q1 > 0 && u * q1 as real == p1 as real by { RanksFraction(u, spec, r); }
    assert p2 > 0 && q2 > 0 && v * q2 as real == p2 as real by { RanksFraction(v, spec, s); }
    assert p2 * q1 < BAND by { SmallCross(r, s); }
    SingleSeparates(u, v, p1, q1, p2, q2);
  }

  lemma RanksSeparate(u: real, v: real, spec: RrfSpec, r: Ranks, s: Ranks)
    requires ValidSpec(spec) && NoMerge(spec) && RanksOf(u, spec, r) && RanksOf(v, spec, s)
    ensures Floor(v) <= u <= Ceil(v) <==> u == v
  {
    BandHoldsCutoff(v);
    if r.Pair? && s.Pair? {
      PairsSeparate(u, v, spec, r, s);
    } else {
      SinglesSeparate(u, v, spec, r, s);
    }
  }

  lemma ExactUnlessMerge(f: seq<Scored>, bm25: seq<int>, knn: seq<int>, spec: RrfSpec, expected: nat, i: nat)
    requires ValidSpec(spec) && NoMerge(spec) && IsReference(f, bm25, knn, spec)
    requires 0 < expected <= |f| && i < |f|
    ensures ExactAt(f, expected, i)
  {
    assert f[i] in f && f[expected - 1] in f;
    FusionIsRanked(f, [bm25, knn], spec.rankConstant);
    ScoreMapAt(f, i);
    var r := SomeRanks(bm25, knn, spec, f[i].0);
    var s := SomeRanks(bm25, knn, spec, f[expected - 1].0);
    RanksSeparate(f[i].1, f[expected - 1].1, spec, r, s);
    BandHoldsCutoff(f[expected - 1].1);
  }

  /** In a reference that realises merging ranks the tie group of -2 holds -1, whose score is another. */
  lemma MergeIsInexact(f: seq<Scored>, bm25: seq<int>, knn: seq<int>, k: nat, a: nat, b: nat, c: nat, d: nat)
    returns (i: nat, j: nat)
    requires IsFusion(f, [bm25, knn], k) && Realises(bm25, knn, k, a, b, c, d) && Merges(a, b, c, d)
    ensures i < |f| && j < |f| && f[i] == (-2, Recip(c) + Recip(d)) && f[j] == (-1, Recip(a) + Recip(b))
    ensures f[j].0 in TiedIds(f, f[i].1) && f[j].1 != f[i].1 && !ExactAt(f, i + 1, j)
  {
    var u, v := Recip(a) + Recip(b), Recip(c) + Recip(d);
    assert (-1, u) in f && (-2, v) in f;
    i, j := IndexOf(f, (-2, v)), IndexOf(f, (-1, u));
    MergesIff(a, b, c, d);
    FusionIsRanked(f, [bm25, knn], k);
    ScoreMapAt(f, j);
  }

  lemma MergingSpecIsInexact(spec: RrfSpec, a: nat, b: nat, c: nat, d: nat)
    requires ValidSpec(spec) && Merges(a, b, c, d)
    requires Between(spec, a) && Between(spec, b) && Between(spec, c) && Between(spec, d)
    ensures !TiesExact(spec)
  {
    MergingRanksDiffer(a, b, c, d);
    var bm25, knn := RanksAreRealised(spec, a, b, c, d);
    var f := FusionExists([bm25, knn], spec.rankConstant);
    var i, j := MergeIsInexact(f, bm25, knn, spec.rankConstant, a, b, c, d);
    assert IsReference(f, bm25, knn, spec);
  }

  /** The tie group is exact in every reference of a spec if and only if no four ranks of the spec merge. */
  lemma TiesExactIff(spec: RrfSpec)
    requires ValidSpec(spec)
    ensures TiesExact(spec) <==> NoMerge(spec)
  {
    if NoMerge(spec) {
      forall f, bm25, knn, expected: nat, i: nat
        | IsReference(f, bm25, knn, spec) && 0 < expected <= |f| && i < |f|
        ensures ExactAt(f, expected, i)
      {
        ExactUnlessMerge(f, bm25, knn, spec, expected, i);
      }
    } else {
      var a: nat, b: nat, c: nat, d: nat :|
        Between(spec, a) && Between(spec, b) && Between(spec, c) && Between(spec, d) && Merges(a, b, c, d);
      MergingSpecIsInexact(spec, a, b, c, d);
    }
  }

  // ----- Specs that break it -----

  /** Ranks that merge, as `k + rank`, for every `m >= 63`. */
  function FamilyA(m: nat): int { 2 * m * m + m - 2 }
  function FamilyB(m: nat): int { 2 * m * m + 3 * m - 1 }
  function FamilyC(m: nat): int { 2 * m * m + 2 * m - 3 }
  function FamilyD(m: nat): int { 2 * m * m + 2 * m - 1 }

  /** With `w = m*m + m - 1` the four are `2w - m`, `2w + m + 1`, `2w - 1` and `2w + 1`. */
  lemma FamilyProducts(m: nat, w: int)
    requires w == m * m + m - 1
    ensures FamilyA(m) == 2 * w - m && FamilyB(m) == 2 * w + m + 1
    ensures FamilyC(m) == 2 * w - 1 && FamilyD(m) == 2 * w + 1
    ensures FamilyA(m) * FamilyB(m) == 4 * (w * w) + w - 1
    ensures FamilyC(m) * FamilyD(m) == 4 * (w * w) - 1
  {
    assert (2 * w - m) * (2 * w + m + 1) == 4 * (w * w) + 2 * w - (m * m + m);
    assert (2 * w - 1) * (2 * w + 1) == 4 * (w * w) - 1;
  }

  lemma FamilyCross(w: int)
    ensures (4 * w) * (4 * (w * w) + w - 1) - (4 * w + 1) * (4 * (w * w) - 1) == 1
  {
    var q := w * w;
    assert (4 * w) * (4 * q + w - 1) == 16 * (w * q) + 4 * q - 4 * w;
    assert (4 * w + 1) * (4 * q - 1) == 16 * (w * q) - 4 * w + 4 * q - 1;
  }

  lemma FamilyBounds(m: nat)
    requires m >= 63
    ensures 7999 <= FamilyA(m) < FamilyC(m) < FamilyD(m) < FamilyB(m)
    ensures FamilyB(m) >= 8126 && FamilyC(m) + FamilyD(m) >= 16124
  {
    MulMonotone(63, m, m);
    MulMonotone(63, m, 63);
  }

  lemma LargeProduct(a: nat, b: nat, t: nat)
    requires a >= 7999 && b >= 8126 && t >= 16124
    ensures t * (a * b) >= BAND
  {
    MulMonotone(7999, a, b);
    MulMonotone(8126, b, 7999);
    MulMonotone(16124, t, a * b);
    MulMonotone(7999 * 8126, a * b, 16124);
  }

  lemma FamilyMerges(m: nat)
    requires m >= 63
    ensures 0 < FamilyA(m) && 0 < FamilyB(m) && 0 < FamilyC(m) && 0 < FamilyD(m)
    ensures Cross(FamilyA(m), FamilyB(m), FamilyC(m), FamilyD(m)) == 1
    ensures Merges(FamilyA(m), FamilyB(m), FamilyC(m), FamilyD(m))
  {
    var w := m * m + m - 1;
    FamilyBounds(m);
    FamilyProducts(m, w);
    FamilyCross(w);
    LargeProduct(FamilyA(m), FamilyB(m), FamilyC(m) + FamilyD(m));
  }

  /** The spec reaches the merging ranks of `m`. */
  predicate Reaches(spec: RrfSpec, m: nat) {
    m >= 63 && spec.rankConstant < FamilyA(m) && FamilyB(m) <= spec.rankConstant + spec.window
  }

  lemma ReachingSpecsMerge(spec: RrfSpec, m: nat)
    requires ValidSpec(spec) && Reaches(spec, m)
    ensures !NoMerge(spec) && !TiesExact(spec)
  {
    FamilyBounds(m);
    FamilyMerges(m);
    TiesExactIff(spec);
  }

  /** `score_query` counts a page of one document that scores strictly below the cutoff as a hit. */
  ghost predicate CountsLower(f: seq<Scored>) {
    exists i, j | 0 <= i < j < |f| :: f[j].1 < f[i].1 && CountedAt(f, i, j)
  }

  ghost predicate CountedAt(f: seq<Scored>, i: nat, j: nat)
    requires i < |f| && j < |f|
  {
    var q := QueryScoreOf([f[j].0], f, i + 1);
    q.recall > 0.0 && q.strictRecall == 0.0 && q.precision == 1.0
  }

  lemma PositiveSlots(f: seq<Scored>, expected: nat)
    requires Ranked(f) && 0 < expected <= |f|
    ensures Slots(f, expected) >= 1
  {
    CutoffSplit(f, expected);
  }

  /** A tied document outside the expected list is a hit when it is the whole page. */
  lemma TiedPageCounts(f: seq<Scored>, i: nat, j: nat)
    requires Ranked(f) && i < j < |f| && f[j].0 in TiedIds(f, f[i].1)
    ensures CountedAt(f, i, j)
  {
    var page, id := [f[j].0], f[j].0;
    PositiveSlots(f, i + 1);
    assert page[..0] == [];
    assert Dedup(page) == page by { DedupOfDistinct(page); }
    assert FirstDistinct(page, i + 1) == page;
    CutoffSplit(f, i + 1);
    assert CountIn(page, TiedIds(f, f[i].1)) == 1 && CountIn(page, AboveIds(f, f[i].1)) == 0;
    var ids := Ids(f[..i + 1]);
    assert id !in ids by {
      forall m | 0 <= m < |ids| ensures ids[m] != id { assert Ids(f)[m] != Ids(f)[j]; }
    }
    assert StrictHits(page, f, i + 1) == 0;
    assert Hits(page, f, i + 1) == 1;
  }

  /**
    For every valid spec that reaches merging ranks there are two lists the reference can be built
    from whose reference counts a strictly lower document as a hit.
   */
  lemma LowerDocumentCounts(spec: RrfSpec, m: nat) returns (bm25: seq<int>, knn: seq<int>)
    requires ValidSpec(spec) && Reaches(spec, m)
    ensures |bm25| <= spec.window && Distinct(bm25) && |knn| <= spec.window
    ensures exists f :: IsReference(f, bm25, knn, spec)
    ensures forall f | IsReference(f, bm25, knn, spec) :: CountsLower(f)
  {
    var k, a, b, c, d := spec.rankConstant, FamilyA(m), FamilyB(m), FamilyC(m), FamilyD(m);
    FamilyBounds(m);
    FamilyMerges(m);
    bm25, knn := RanksAreRealised(spec, a, b, c, d);
    var g := FusionExists([bm25, knn], k);
    assert IsReference(g, bm25, knn, spec);
    forall f | IsReference(f, bm25, knn, spec) ensures CountsLower(f) {
      var i, j := MergeIsInexact(f, bm25, knn, k, a, b, c, d);
      FusionIsRanked(f, [bm25, knn], k);
      PositiveCrossIsLower(a, b, c, d);
      assert i < j;
      TiedPageCounts(f, i, j);
    }
  }

  lemma PositiveCrossIsLower(a: nat, b: nat, c: nat, d: nat)
    requires a > 0 && b > 0 && c > 0 && d > 0 && Cross(a, b, c, d) > 0
    ensures Recip(a) + Recip(b) < Recip(c) + Recip(d)
  {
    PositiveProduct(a, b);
    PositiveProduct(c, d);
    PositiveProduct(a * b, c * d);
    var z := (a * b) as real * (c * d) as real;
    SumTimes(a, b, c * d, z);
    assert z == (c * d) as real * (a * b) as real;
    SumTimes(c, d, a * b, z);
    Compare(Recip(a) + Recip(b), Recip(c) + Recip(d), z, ((a + b) * (c * d)) as real, ((c + d) * (a * b)) as real);
  }

  // ----- Specs that meet it -----

  /** Up to `k + W = 7937` no ranks merge. */
  lemma SmallSpecsAreExact(spec: RrfSpec)
    requires ValidSpec(spec) && spec.rankConstant + spec.window <= 7937
    ensures NoMerge(spec) && TiesExact(spec)
  {
    var n := spec.rankConstant + spec.window;
    SeparableUpTo(n);
    forall a: nat, b: nat, c: nat, d: nat
      | Between(spec, a) && Between(spec, b) && Between(spec, c) && Between(spec, d)
      ensures !Merges(a, b, c, d)
    {
      SmallCrossDoesNotMerge(a, b, c, d, n);
    }
    TiesExactIff(spec);
  }

  lemma SmallCrossDoesNotMerge(a: nat, b: nat, c: nat, d: nat, n: nat)
    requires a <= n && b <= n && c <= n && d <= n && Separable(n)
    ensures !Merges(a, b, c, d)
  {
    MulMonotone(a, n, b);
    MulMonotone(b, n, n);
    ProductBound(c + d, a * b, n);
  }
}
