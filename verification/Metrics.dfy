/** `compute_metrics` of src/metrics.rs: recall, precision and their three denominators, MRR and NDCG. */
module Metrics {
  import opened Lists
  import opened Ratios

  datatype QueryMetrics = QueryMetrics(recall: real, precision: real, recallAtTop: real, mrr: real, ndcg: real)

  /** The discount of a rank; `1 / log2(i + 2)` in the source, any positive strictly decreasing one here. */
  type Gain = nat -> real

  ghost predicate Discounts(g: Gain) {
    forall i: nat :: g(i) > 0.0 && g(i) > g(i + 1)
  }

  /** The non-negative ids, in order. */
  function NonNegative(truth: seq<int>): (r: seq<int>)
    ensures |r| <= |truth|
  {
    if truth == [] then [] else
      var n := |truth| - 1;
      NonNegative(truth[..n]) + (if truth[n] >= 0 then [truth[n]] else [])
  }

  ghost function NonNegativePlaces(truth: seq<int>, i: nat): set<nat>
    requires i <= |truth|
  {
    set j: nat | j < i && truth[j] >= 0
  }

  /** The id at position `i` is kept: non-negative, with fewer than `k` non-negative entries before it. */
  ghost predicate KeptAt(truth: seq<int>, k: nat, i: nat) {
    i < |truth| && truth[i] >= 0 && |NonNegativePlaces(truth, i)| < k
  }

  /** The ground truth of a query: the ids kept, without the negative padding and after that at most `k` entries. */
  ghost predicate IsTruth(s: set<int>, truth: seq<int>, k: nat) {
    forall id :: id in s <==> exists i: nat :: KeptAt(truth, k, i) && truth[i] == id
  }

  lemma {:induction false} PlacesCounted(truth: seq<int>, i: nat)
    requires i <= |truth|
    ensures |NonNegative(truth[..i])| == |NonNegativePlaces(truth, i)|
  {
    if i > 0 {
      PlacesCounted(truth, i - 1);
      assert truth[..i][..i - 1] == truth[..i - 1];
      var rest := NonNegativePlaces(truth, i - 1);
      assert NonNegativePlaces(truth, i) == if truth[i - 1] >= 0 then rest + {i - 1} else rest;
    } else {
      assert NonNegativePlaces(truth, 0) == {};
    }
  }

  lemma {:induction false} NonNegativeAt(truth: seq<int>, i: nat)
    requires i < |truth| && truth[i] >= 0
    ensures var c := |NonNegative(truth[..i])|; c < |NonNegative(truth)| && NonNegative(truth)[c] == truth[i]
    decreases |truth|
  {
    var n := |truth| - 1;
    if i < n {
      NonNegativeAt(truth[..n], i);
      assert truth[..n][..i] == truth[..i];
    }
  }

  lemma {:induction false} NonNegativeFrom(truth: seq<int>, c: nat) returns (i: nat)
    requires c < |NonNegative(truth)|
    ensures i < |truth| && truth[i] >= 0 && |NonNegative(truth[..i])| == c && truth[i] == NonNegative(truth)[c]
    decreases |truth|
  {
    var n := |truth| - 1;
    if c < |NonNegative(truth[..n])| {
      i := NonNegativeFrom(truth[..n], c);
      assert truth[..n][..i] == truth[..i];
    } else {
      i := n;
    }
  }

  /** `filter(|id| id >= 0).take(k)`, as a set. */
  function TruthSet(truth: seq<int>, k: nat): (s: set<int>)
    ensures |s| <= k && IsTruth(s, truth, k)
  {
    var v := Take(NonNegative(truth), k);
    ElementsBounded(v);
    TruthSetIs(truth, k);
    set id | id in v
  }

  lemma TruthSetIs(truth: seq<int>, k: nat)
    ensures IsTruth((set id | id in Take(NonNegative(truth), k)), truth, k)
  {
    var all, v := NonNegative(truth), Take(NonNegative(truth), k);
    forall id ensures id in v <==> exists i: nat :: KeptAt(truth, k, i) && truth[i] == id {
      if id in v {
        var c := IndexOf(v, id);
        var i := NonNegativeFrom(truth, c);
        PlacesCounted(truth, i);
        assert KeptAt(truth, k, i) && truth[i] == id;
      }
      if i: nat :| KeptAt(truth, k, i) && truth[i] == id {
        NonNegativeAt(truth, i);
        PlacesCounted(truth, i);
        assert v[|NonNegative(truth[..i])|] == id;
      }
    }
  }

  lemma ElementsBounded(s: seq<int>)
    ensures |set id | id in s| <= |s|
  {
    if s != [] {
      var n := |s| - 1;
      ElementsBounded(s[..n]);
      assert (set id | id in s) == (set id | id in s[..n]) + {s[n]};
    }
  }

  ghost function Dcg(page: seq<int>, truth: set<int>, g: Gain): real {
    if page == [] then 0.0 else
      var n := |page| - 1;
      Dcg(page[..n], truth, g) + (if page[n] in truth then g(n) else 0.0)
  }

  function Idcg(n: nat, g: Gain): real {
    if n == 0 then 0.0 else Idcg(n - 1, g) + g(n - 1)
  }

  /** `1 / rank` of the first relevant result, 0 without one. */
  ghost predicate IsMrr(mrr: real, page: seq<int>, truth: set<int>) {
    || (mrr == 0.0 && forall i | 0 <= i < |page| :: page[i] !in truth)
    || exists r | 0 <= r < |page| ::
         page[r] in truth && mrr == Ratio(1, r + 1) && forall i | 0 <= i < r :: page[i] !in truth
  }

  /** What the five numbers are, for a query with ground truth and `k > 0`. */
  ghost predicate Measures(m: QueryMetrics, page: seq<int>, truth: set<int>, k: nat, g: Gain)
    requires k > 0 && truth != {}
  {
    var hits := CountIn(page, truth);
    && m.recall == Ratio(hits, |truth|)
    && m.precision == (if page == [] then 0.0 else Ratio(hits, |page|))
    && m.recallAtTop == Ratio(hits, k)
    && IsMrr(m.mrr, page, truth)
    && m.ndcg == if Idcg(|truth|, g) > 0.0 then Dcg(page, truth, g) / Idcg(|truth|, g) else 0.0
  }

  /**
    `page` are the first `k` distinct results and `truth` the first `k` valid ids of the ground truth;
    without either every measure is 1, otherwise they are what `Measures` says.
   */
  method ComputeMetrics(results: seq<int>, groundTruth: seq<int>, k: nat, g: Gain)
    returns (m: QueryMetrics)
    ensures var page, truth := FirstDistinct(results, k), TruthSet(groundTruth, k);
            && IsFirstDistinct(page, results, k) && IsTruth(truth, groundTruth, k)
            && if k == 0 || truth == {} then m == QueryMetrics(1.0, 1.0, 1.0, 1.0, 1.0)
               else Measures(m, page, truth, k, g)
  {
    if k == 0 { return QueryMetrics(1.0, 1.0, 1.0, 1.0, 1.0); }
    var truthSet := TruthSet(groundTruth, k);
    if |truthSet| == 0 { return QueryMetrics(1.0, 1.0, 1.0, 1.0, 1.0); }
    var kept := FirstDistinct(results, k);
    var hits, dcg, mrr := Scan(kept, truthSet, g);
    var idcg := Idcg(|truthSet|, g);
    m := QueryMetrics(Ratio(hits, |truthSet|), if kept == [] then 0.0 else Ratio(hits, |kept|), Ratio(hits, k), mrr,
                      if idcg > 0.0 then dcg / idcg else 0.0);
  }

  /** The passes over the kept results: hits, discounted gain, and the rank of the first hit. */
  method Scan(page: seq<int>, truth: set<int>, g: Gain) returns (hits: nat, dcg: real, mrr: real)
    ensures hits == CountIn(page, truth) && dcg == Dcg(page, truth, g) && IsMrr(mrr, page, truth)
  {
    hits, dcg, mrr := 0, 0.0, 0.0;
    for i := 0 to |page|
      invariant hits == CountIn(page[..i], truth) && dcg == Dcg(page[..i], truth, g)
      invariant IsMrr(mrr, page[..i], truth)
    {
      assert page[..i + 1][..i] == page[..i];
      MrrStep(mrr, page, truth, i);
      if page[i] in truth {
        if mrr == 0.0 { mrr := Ratio(1, i + 1); }
        hits := hits + 1;
        dcg := dcg + g(i);
      }
    }
    assert page[..|page|] == page;
  }

  lemma MrrStep(mrr: real, page: seq<int>, truth: set<int>, i: nat)
    requires i < |page| && IsMrr(mrr, page[..i], truth)
    ensures var mrr' := if page[i] in truth && mrr == 0.0 then Ratio(1, i + 1) else mrr;
            IsMrr(mrr', page[..i + 1], truth)
  {
    var p, q := page[..i], page[..i + 1];
    assert forall j | 0 <= j < i :: p[j] == q[j];
    if mrr == 0.0 {
      assert forall j | 0 <= j < i :: p[j] !in truth;
    } else {
      var r :| 0 <= r < |p| && p[r] in truth && mrr == Ratio(1, r + 1) && forall j | 0 <= j < r :: p[j] !in truth;
      assert q[r] in truth;
    }
  }

  // ----- Range and order of the measures -----

  lemma HitsBounded(page: seq<int>, truth: set<int>)
    requires Distinct(page)
    ensures CountIn(page, truth) <= |truth|
  {
    CountIsIntersection(page, truth);
    SubsetSize(Elements(page) * truth, truth);
  }

  lemma {:induction false} GainsDecrease(g: Gain, i: nat, j: nat)
    requires Discounts(g) && i < j
    ensures g(i) > g(j)
  {
    if i + 1 < j { GainsDecrease(g, i, j - 1); }
    assert g(j - 1) > g(j - 1 + 1);
  }

  lemma {:induction false} IdcgIncreases(g: Gain, m: nat, n: nat)
    requires Discounts(g) && m <= n
    ensures Idcg(m, g) <= Idcg(n, g) && (m < n ==> Idcg(m, g) < Idcg(n, g))
    ensures Idcg(m, g) >= 0.0
    decreases n
  {
    if n > 0 {
      IdcgIncreases(g, if m < n then m else n - 1, n - 1);
    }
  }

  /** The relevant results are exactly the first `c`. */
  ghost predicate RelevantPrefix(page: seq<int>, truth: set<int>, c: nat) {
    forall i | 0 <= i < |page| :: page[i] in truth <==> i < c
  }

  lemma PrefixStep(page: seq<int>, truth: set<int>, c: nat)
    requires page != [] && c < |page|
    ensures var n := |page| - 1;
            if page[n] in truth
            then RelevantPrefix(page, truth, c + 1) <==> c == n && RelevantPrefix(page[..n], truth, c)
            else RelevantPrefix(page, truth, c) <==> RelevantPrefix(page[..n], truth, c)
  {
    var n := |page| - 1;
    assert forall i | 0 <= i < n :: page[..n][i] == page[i];
  }

  /** A ranking with `c` relevant results gains at most the first `c` discounts, all of them only as a prefix. */
  lemma {:induction false} DcgBound(page: seq<int>, truth: set<int>, g: Gain)
    requires Discounts(g)
    ensures var c := CountIn(page, truth);
            && 0.0 <= Dcg(page, truth, g) <= Idcg(c, g)
            && (Dcg(page, truth, g) == Idcg(c, g) <==> RelevantPrefix(page, truth, c))
  {
    if page != [] {
      var n := |page| - 1;
      var init := page[..n];
      DcgBound(init, truth, g);
      PrefixStep(page, truth, CountIn(init, truth));
      if page[n] in truth && CountIn(init, truth) < n { GainsDecrease(g, CountIn(init, truth), n); }
    }
  }

  /** With no more truth than found, the first `|truth|` results being relevant makes them all there is. */
  lemma PrefixIsAll(page: seq<int>, truth: set<int>, t: nat)
    requires Distinct(page) && t == |truth| <= |page| && forall i | 0 <= i < t :: page[i] in truth
    ensures RelevantPrefix(page, truth, t) && CountIn(page, truth) == t
  {
    var first := page[..t];
    DistinctSize(first);
    SubsetSize(Elements(first), truth);
    forall i | t <= i < |page| ensures page[i] !in truth {
      assert page[i] !in first;
      assert page[i] in truth <==> page[i] in Elements(first);
    }
    CountIsIntersection(page, truth);
    assert Elements(page) * truth == truth;
  }

  lemma IdealIff(page: seq<int>, truth: set<int>, g: Gain)
    requires Discounts(g) && Distinct(page)
    ensures Dcg(page, truth, g) <= Idcg(|truth|, g)
    ensures Dcg(page, truth, g) == Idcg(|truth|, g) <==>
            |truth| <= |page| && forall i | 0 <= i < |truth| :: page[i] in truth
  {
    var c := CountIn(page, truth);
    HitsBounded(page, truth);
    DcgBound(page, truth, g);
    IdcgIncreases(g, c, |truth|);
    if |truth| <= |page| && forall i | 0 <= i < |truth| :: page[i] in truth {
      PrefixIsAll(page, truth, |truth|);
    }
  }

  /** NDCG is at most 1, and 1 exactly when the first `truth_count` results are all relevant. */
  lemma NdcgIsNormalized(m: QueryMetrics, page: seq<int>, truth: set<int>, k: nat, g: Gain)
    requires Discounts(g) && Distinct(page) && k > 0 && truth != {} && Measures(m, page, truth, k, g)
    ensures 0.0 <= m.ndcg <= 1.0
    ensures m.ndcg == 1.0 <==> |truth| <= |page| && forall i | 0 <= i < |truth| :: page[i] in truth
  {
    IdcgIncreases(g, 0, |truth|);
    IdealIff(page, truth, g);
    DcgBound(page, truth, g);
    RatioFacts(Dcg(page, truth, g), Idcg(|truth|, g));
  }

  /** All five measures lie in [0, 1], and `recall_at_top` is the smallest of the three ratios. */
  lemma MeasuresInRange(m: QueryMetrics, page: seq<int>, truth: set<int>, k: nat, g: Gain)
    requires Discounts(g) && Distinct(page) && k > 0 && |page| <= k && truth != {} && |truth| <= k
    requires Measures(m, page, truth, k, g)
    ensures 0.0 <= m.recall <= 1.0 && 0.0 <= m.precision <= 1.0 && 0.0 <= m.mrr <= 1.0 && 0.0 <= m.ndcg <= 1.0
    ensures 0.0 <= m.recallAtTop <= m.recall && m.recallAtTop <= m.precision
    ensures m.mrr > 0.0 <==> CountIn(page, truth) > 0
  {
    var hits := CountIn(page, truth);
    HitsBounded(page, truth);
    NdcgIsNormalized(m, page, truth, k, g);
    RatioAntitone(hits, |truth|, k);
    if page != [] { RatioAntitone(hits, |page|, k); }
    CountIsIntersection(page, truth);
    if m.mrr == 0.0 {
      assert Elements(page) * truth == {};
    } else {
      var r :| 0 <= r < |page| && page[r] in truth && m.mrr == Ratio(1, r + 1);
      assert page[r] in Elements(page) * truth;
    }
  }

  // ----- What the gain is: one discount per relevant rank -----

  /** Gain adds up over disjoint sets of relevant ids. */
  lemma {:induction false} GainAddsUp(page: seq<int>, a: set<int>, b: set<int>, g: Gain)
    requires a !! b
    ensures Dcg(page, a + b, g) == Dcg(page, a, g) + Dcg(page, b, g)
  {
    if page != [] { GainAddsUp(page[..|page| - 1], a, b, g); }
  }

  /** A single relevant id gains the discount of its rank, or nothing. */
  lemma {:induction false} GainOfOne(page: seq<int>, id: int, g: Gain)
    requires Distinct(page)
    ensures Dcg(page, {id}, g) == if id in page then g(IndexOf(page, id)) else 0.0
  {
    if page != [] {
      var n := |page| - 1;
      GainOfOne(page[..n], id, g);
      if id in page[..n] { IndexInPrefix(page[..n], page, id); }
    }
  }

  /** The ideal gain of `n` relevant results is that of a page that holds nothing else. */
  lemma {:induction false} IdealGain(page: seq<int>, truth: set<int>, g: Gain)
    requires forall i | 0 <= i < |page| :: page[i] in truth
    ensures Idcg(|page|, g) == Dcg(page, truth, g)
  {
    if page != [] { IdealGain(page[..|page| - 1], truth, g); }
  }
}
