/** `check_rrf_score`, `check_page_scores` and `score_page` of src/hybrid_rrf.rs, over exact reals. */
module RrfLattice {
  import opened Outcomes
  import opened Lists
  import opened RrfFusion
  import opened RrfScore

  /** `TIE_TOLERANCE` (1e-5) times a magnitude. */
  function TieBand(v: real): real { v * 0.00001 }

  function Recip(n: nat): (r: real)
    requires n > 0
    ensures r > 0.0 && r * (n as real) == 1.0
  {
    1.0 / n as real
  }

  function Upper(v: real): real { v + TieBand(v) }
  function Lower(v: real): real { v - TieBand(v) }

  predicate Close(a: real, b: real) {
    Abs(a - b) <= TieBand(Abs(b))
  }

  /** `f64::round`: to the nearest integer, halves away from zero. */
  function Round(x: real): int {
    if x >= 0.0 then (x + 0.5).Floor else -((-x + 0.5).Floor)
  }

  predicate NearSingle(score: real, k: nat, a: nat)
    requires a >= 1
  {
    Close(score, Recip(k + a))
  }

  predicate NearPair(score: real, k: nat, a: nat, b: nat)
    requires a >= 1 && b >= 1
  {
    Close(score, Recip(k + a) + Recip(k + b))
  }

  /** `score` is within tolerance of `1/(k+a)` or `1/(k+a) + 1/(k+b)` for ranks in `1..=W`. */
  ghost predicate OnLattice(score: real, spec: RrfSpec) {
    || (exists a: nat | 1 <= a <= spec.window :: NearSingle(score, spec.rankConstant, a))
    || (exists a: nat, b: nat | 1 <= b <= a <= spec.window :: NearPair(score, spec.rankConstant, a, b))
  }

  /** One iteration of the search: the rank `b` is recovered from what `1/(k+a)` leaves of the score. */
  predicate AcceptsAt(score: real, spec: RrfSpec, a: nat)
    requires a >= 1
  {
    var k, first := spec.rankConstant, Recip(spec.rankConstant + a);
    Close(score, first) ||
    (score - first > 0.0 &&
     var b := Round(1.0 / (score - first) - k as real);
     1 <= b <= spec.window && Close(score, first + Recip(k + b)))
  }

  // ----- The search recovers the rank -----

  lemma RecipOrder(m: nat, n: nat)
    requires 0 < m <= n
    ensures Recip(n) <= Recip(m)
  {
    if m < n { ReciprocalIsMonotone(m, n); }
  }

  lemma PositiveFactor(p: real, z: real)
    requires z > 0.0 && p * z > 0.0
    ensures p > 0.0
  {
  }

  /** `x` times a value within two tolerances of `1/x` is within two tolerances of 1. */
  lemma ScaledRest(x: real, r: real, rest: real)
    requires 1.0 <= x <= 20000.0 && r * x == 1.0 && r > 0.0
    requires r * 0.99998 <= rest <= r * 1.00002
    ensures 0.99998 <= rest * x <= 1.00002 && rest > 0.000049
  {
    assert (r * 0.99998) * x == 0.99998 && (r * 1.00002) * x == 1.00002;
    var p := r - 0.00004999;
    assert p * x == r * x - 0.00004999 * x;
    PositiveFactor(p, x);
  }

  lemma InverseNear(x: real, rest: real)
    requires 1.0 <= x && 0.99998 <= rest * x <= 1.00002 && rest > 0.000049
    ensures x - 0.5 < 1.0 / rest < x + 0.5
  {
    var y := 1.0 / rest;
    assert y * rest == 1.0;
    var p, q := y - (x - 0.5), (x + 0.5) - y;
    assert p * rest == 1.0 - rest * x + 0.5 * rest;
    PositiveFactor(p, rest);
    assert q * rest == rest * x + 0.5 * rest - 1.0;
    PositiveFactor(q, rest);
  }

  lemma RestNear(score: real, first: real, r: real)
    requires 0.0 < first <= r && Close(score, first + r)
    ensures r * 0.99998 <= score - first <= r * 1.00002
  {
  }

  lemma RoundNear(y: real, k: nat, b: nat)
    requires (k + b) as real - 0.5 < y < (k + b) as real + 0.5 && b >= 1
    ensures Round(y - k as real) == b
  {
  }

  lemma RestInverse(score: real, first: real, n: nat)
    requires 1 <= n <= 20000 && 0.0 < first <= Recip(n) && Close(score, first + Recip(n))
    ensures score - first > 0.0 && n as real - 0.5 < 1.0 / (score - first) < n as real + 0.5
  {
    RestNear(score, first, Recip(n));
    ScaledRest(n as real, Recip(n), score - first);
    InverseNear(n as real, score - first);
  }

  lemma RankRecovered(score: real, spec: RrfSpec, a: nat, b: nat)
    requires ValidSpec(spec) && 1 <= b <= a <= spec.window
    requires NearPair(score, spec.rankConstant, a, b)
    ensures AcceptsAt(score, spec, a)
  {
    var k := spec.rankConstant;
    var first := Recip(k + a);
    RecipOrder(k + b, k + a);
    RestInverse(score, first, k + b);
    RoundNear(1.0 / (score - first), k, b);
  }

  lemma LatticeInRange(score: real, spec: RrfSpec)
    requires ValidSpec(spec) && OnLattice(score, spec)
    ensures Lower(Recip(spec.rankConstant + spec.window)) <= score
    ensures score <= Upper(2.0 * Recip(spec.rankConstant + 1))
  {
    var k, w := spec.rankConstant, spec.window;
    if a: nat :| 1 <= a <= w && NearSingle(score, k, a) {
      RankInRange(k, w, a);
      NearIsInRange(score, Recip(k + a), Recip(k + w), 2.0 * Recip(k + 1));
    } else {
      var a: nat, b: nat :| 1 <= b <= a <= w && NearPair(score, k, a, b);
      RankInRange(k, w, a);
      RankInRange(k, w, b);
      NearIsInRange(score, Recip(k + a) + Recip(k + b), Recip(k + w), 2.0 * Recip(k + 1));
    }
  }

  lemma RankInRange(k: nat, w: nat, a: nat)
    requires 1 <= a <= w
    ensures Recip(k + w) <= Recip(k + a) <= Recip(k + 1)
  {
    RecipOrder(k + a, k + w);
    RecipOrder(k + 1, k + a);
  }

  lemma NearIsInRange(score: real, v: real, min: real, max: real)
    requires 0.0 < min <= v <= max && Close(score, v)
    ensures Lower(min) <= score <= Upper(max)
  {
  }

  /** The search accepts exactly the scores within tolerance of the lattice, over the whole valid range. */
  method CheckRrfScore(score: real, spec: RrfSpec) returns (ok: bool)
    requires ValidSpec(spec)
    ensures ok <==> OnLattice(score, spec)
  {
    var k, w := spec.rankConstant, spec.window;
    var max, min := 2.0 * Recip(k + 1), Recip(k + w);
    if score > Upper(max) || score < Lower(min) {
      if OnLattice(score, spec) { LatticeInRange(score, spec); assert false; }
      return false;
    }
    for a := 1 to w + 1
      invariant forall i: nat | 1 <= i < a :: !AcceptsAt(score, spec, i)
    {
      var first := Recip(k + a);
      if Close(score, first) {
        assert NearSingle(score, k, a);
        return true;
      }
      var rest := score - first;
      if rest <= 0.0 { continue; }
      var b := Round(1.0 / rest - k as real);
      if 1 <= b <= w && Close(score, first + Recip(k + b)) {
        PairOnLattice(score, spec, a, b);
        return true;
      }
    }
    if OnLattice(score, spec) {
      LatticeAccepted(score, spec);
      assert false;
    }
    return false;
  }

  lemma PairOnLattice(score: real, spec: RrfSpec, a: nat, b: nat)
    requires 1 <= a <= spec.window && 1 <= b <= spec.window && NearPair(score, spec.rankConstant, a, b)
    ensures OnLattice(score, spec)
  {
    assert NearPair(score, spec.rankConstant, b, a);
  }

  lemma LatticeAccepted(score: real, spec: RrfSpec)
    requires ValidSpec(spec) && OnLattice(score, spec)
    ensures exists a: nat | 1 <= a <= spec.window :: AcceptsAt(score, spec, a)
  {
    var k, w := spec.rankConstant, spec.window;
    if a: nat :| 1 <= a <= w && NearSingle(score, k, a) {
      assert AcceptsAt(score, spec, a);
    } else {
      var a: nat, b: nat :| 1 <= b <= a <= w && NearPair(score, k, a, b);
      RankRecovered(score, spec, a, b);
    }
  }

  // ----- A whole page -----

  /** Every score an RRF score, none above its predecessor by more than the tolerance. */
  ghost predicate PageScoresOk(scores: seq<real>, spec: RrfSpec) {
    forall i | 0 <= i < |scores| ::
      OnLattice(scores[i], spec) && (i > 0 ==> scores[i] <= Upper(scores[i - 1]))
  }

  method CheckPageScores(scores: seq<real>, spec: RrfSpec) returns (ok: bool)
    requires ValidSpec(spec)
    ensures ok <==> PageScoresOk(scores, spec)
  {
    for i := 0 to |scores|
      invariant PageScoresOk(scores[..i], spec)
    {
      ok := CheckRrfScore(scores[i], spec);
      if !ok || (i > 0 && scores[i] > Upper(scores[i - 1])) { return false; }
    }
    assert scores[..|scores|] == scores;
    return true;
  }

  datatype PageError = TooManyResults | DuplicateId | BadScores

  function Scores(page: seq<Scored>): (r: seq<real>)
    ensures |r| == |page| && forall i | 0 <= i < |page| :: r[i] == page[i].1
  {
    seq(|page|, i requires 0 <= i < |page| => page[i].1)
  }

  /** Every score of the page is an RRF score, and each but the first at most a tolerance above the one before. */
  ghost predicate CarriesScores(page: seq<Scored>, spec: RrfSpec) {
    && (forall i | 0 <= i < |page| :: OnLattice(page[i].1, spec))
    && (forall i | 1 <= i < |page| :: page[i].1 <= Upper(page[i - 1].1))
  }

  lemma CarriesIff(page: seq<Scored>, spec: RrfSpec)
    ensures CarriesScores(page, spec) <==> PageScoresOk(Scores(page), spec)
  {
    var s := Scores(page);
    if CarriesScores(page, spec) {
      forall i | 0 <= i < |s| ensures OnLattice(s[i], spec) && (i > 0 ==> s[i] <= Upper(s[i - 1])) {
        assert s[i] == page[i].1 && (i > 0 ==> s[i - 1] == page[i - 1].1);
      }
    }
    if PageScoresOk(s, spec) {
      forall i | 0 <= i < |page| ensures OnLattice(page[i].1, spec) && (i > 0 ==> page[i].1 <= Upper(page[i - 1].1)) {
        assert s[i] == page[i].1 && (i > 0 ==> s[i - 1] == page[i - 1].1);
      }
    }
  }

  ghost function PageScoreOf(page: seq<Scored>, f: seq<Scored>, spec: RrfSpec, top: nat)
    : Result<QueryScore, PageError>
  {
    if |page| > top then Err(TooManyResults)
    else if !Distinct(Ids(page)) then Err(DuplicateId)
    else if !PageScoresOk(Scores(page), spec) then Err(BadScores)
    else Ok(QueryScoreOf(Ids(page), f, top))
  }

  /**
    A page is scored exactly when it is no longer than `top`, holds no id twice and carries RRF scores,
    each fault reported in that order; its score is then that of its own ids.
   */
  method ScorePage(page: seq<Scored>, reference: Reference, spec: RrfSpec, top: nat)
    returns (r: Result<QueryScore, PageError>)
    requires ValidSpec(spec)
    ensures r.Ok? <==> |page| <= top && Distinct(Ids(page)) && CarriesScores(page, spec)
    ensures r == Err(TooManyResults) <==> |page| > top
    ensures r == Err(DuplicateId) <==> |page| <= top && !Distinct(Ids(page))
    ensures r == Err(BadScores) <==> |page| <= top && Distinct(Ids(page)) && !CarriesScores(page, spec)
    ensures r.Ok? ==> IsScore(r.value, Ids(page), reference.fused, top)
    ensures r == PageScoreOf(page, reference.fused, spec, top)
  {
    CarriesIff(page, spec);
    if |page| > top { return Err(TooManyResults); }
    if |Dedup(Ids(page))| != |page| {
      if Distinct(Ids(page)) { DedupOfDistinct(Ids(page)); assert false; }
      return Err(DuplicateId);
    }
    FullDedupIsDistinct(Ids(page));
    var ok := CheckPageScores(Scores(page), spec);
    if !ok { return Err(BadScores); }
    var q := ScoreQuery(Ids(page), reference, top);
    FirstOfDistinct(Ids(page), top);
    QueryScoreIs(Ids(page), reference.fused, top);
    return Ok(q);
  }

  /** The tolerance of the score checks: one part in 100 000 of the expected magnitude. */
  lemma ToleranceIs(a: real, b: real)
    ensures Close(a, b) <==> (100000.0 * (a - b) <= Abs(b) && 100000.0 * (b - a) <= Abs(b))
    ensures b >= 0.0 ==> (a <= Upper(b) <==> 100000.0 * (a - b) <= b)
  {
  }

  // ----- The reference passes its own checks -----

  /** What one list of at most `w` ids adds: nothing, or the reciprocal of one rank in `1..=w`. */
  lemma ContributionRank(list: seq<int>, k: nat, w: nat, id: int) returns (a: nat)
    requires |list| <= w
    ensures id in list ==> 1 <= a <= w && Contribution(list, k, id) == Recip(k + a)
    ensures id !in list ==> Contribution(list, k, id) == 0.0
  {
    a := if id in list then IndexOf(Dedup(list), id) + 1 else 0;
  }

  lemma TwoListScore(l1: seq<int>, l2: seq<int>, k: nat, id: int)
    ensures FusedScore([l1, l2], k, id) == Contribution(l1, k, id) + Contribution(l2, k, id)
    ensures id in Union([l1, l2]) <==> id in l1 || id in l2
  {
    assert [l1, l2][..1] == [l1] && [l1][..0] == [];
    assert FusedScore([l1], k, id) == FusedScore([], k, id) + Contribution(l1, k, id);
    assert [l1, l2][0] == l1 && [l1, l2][1] == l2;
  }

  lemma CloseToItself(v: real)
    ensures Close(v, v)
  {
  }

  /** Every score of the fusion of two lists of at most `W` ids passes the score check. */
  lemma FusedScoreOnLattice(l1: seq<int>, l2: seq<int>, spec: RrfSpec, id: int)
    requires |l1| <= spec.window && |l2| <= spec.window && id in Union([l1, l2])
    ensures var s := FusedScore([l1, l2], spec.rankConstant, id); OnLattice(s, spec) && s > 0.0
  {
    var k, w := spec.rankConstant, spec.window;
    var s := FusedScore([l1, l2], k, id);
    TwoListScore(l1, l2, k, id);
    var a := ContributionRank(l1, k, w, id);
    var b := ContributionRank(l2, k, w, id);
    CloseToItself(s);
    if id in l1 && id in l2 {
      assert NearPair(s, k, a, b);
      PairOnLattice(s, spec, a, b);
    } else {
      assert NearSingle(s, k, if id in l1 then a else b);
    }
  }

  lemma OwnPageScoresOk(f: seq<Scored>, l1: seq<int>, l2: seq<int>, spec: RrfSpec, n: nat)
    requires |l1| <= spec.window && |l2| <= spec.window && n <= |f|
    requires IsFusion(f, [l1, l2], spec.rankConstant)
    ensures PageScoresOk(Scores(f[..n]), spec)
  {
    var scores := Scores(f[..n]);
    forall i | 0 <= i < |scores|
      ensures OnLattice(scores[i], spec) && (i > 0 ==> scores[i] <= Upper(scores[i - 1]))
    {
      assert f[i] in f;
      FusedScoreOnLattice(l1, l2, spec, f[i].0);
      if i > 0 {
        assert f[i - 1] in f && RankLe(f[i - 1], f[i]);
        FusedScoreOnLattice(l1, l2, spec, f[i - 1].0);
      }
    }
  }

  lemma OwnIdsDistinct(f: seq<Scored>, n: nat)
    requires Distinct(Ids(f)) && n <= |f|
    ensures Distinct(Ids(f[..n]))
  {
    forall i, j | 0 <= i < j < n ensures Ids(f[..n])[i] != Ids(f[..n])[j] {
      assert Ids(f)[i] != Ids(f)[j];
    }
  }

  lemma OwnPageHits(f: seq<Scored>, n: nat)
    requires Ranked(f) && 0 < n <= |f|
    ensures Hits(Ids(f[..n]), f, n) == StrictHits(Ids(f[..n]), f, n) == n
  {
    var ids := Ids(f[..n]);
    OwnIdsDistinct(f, n);
    StrictIsAFilling(ids, f, n);
    CountIsIntersection(ids, Elements(ids));
    assert Elements(ids) * Elements(ids) == Elements(ids);
    DistinctSize(ids);
  }

  lemma OwnQueryScore(f: seq<Scored>, top: nat)
    requires Ranked(f)
    ensures QueryScoreOf(Ids(Take(f, top)), f, top) == QueryScore(1.0, 1.0, 1.0)
  {
    var n := Min(top, |f|);
    var ids := Ids(Take(f, top));
    assert Take(f, top) == f[..n];
    OwnIdsDistinct(f, n);
    DedupOfDistinct(ids);
    assert FirstDistinct(ids, top) == ids && |ids| == n;
    if n > 0 {
      OwnPageHits(f, n);
    }
  }

  /** The top page of a reference, returned as is, is accepted and scores 1 on all three measures. */
  lemma OwnPageIsPerfect(f: seq<Scored>, l1: seq<int>, l2: seq<int>, spec: RrfSpec, top: nat)
    requires |l1| <= spec.window && |l2| <= spec.window
    requires IsFusion(f, [l1, l2], spec.rankConstant)
    ensures PageScoreOf(Take(f, top), f, spec, top) == Ok(QueryScore(1.0, 1.0, 1.0))
  {
    var n := Min(top, |f|);
    assert Take(f, top) == f[..n];
    FusionIsRanked(f, [l1, l2], spec.rankConstant);
    OwnIdsDistinct(f, n);
    OwnPageScoresOk(f, l1, l2, spec, n);
    OwnQueryScore(f, top);
  }
}
