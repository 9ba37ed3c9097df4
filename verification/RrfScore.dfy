/** `score_query` of src/hybrid_rrf.rs: recall against a fused reference, with a cap on the cutoff tie group. */
module RrfScore {
  import opened Lists
  import opened Ratios
  import opened RrfFusion

  /** `REFERENCE_TIE_TOLERANCE` (1e-12) times a magnitude. */
  function ReferenceBand(v: real): real { v * 0.000000000001 }

  datatype QueryScore = QueryScore(recall: real, strictRecall: real, precision: real)

  function Abs(x: real): real { if x < 0.0 then -x else x }
  function SaturatingSub(a: nat, b: nat): nat { if a >= b then a - b else 0 }

  function Ceil(cutoff: real): real { cutoff + ReferenceBand(Abs(cutoff)) }
  function Floor(cutoff: real): real { cutoff - ReferenceBand(Abs(cutoff)) }

  /** `fused.iter().collect::<HashMap>()`: a later entry of the same id wins. */
  function ScoreMap(f: seq<Scored>): map<int, real> {
    if f == [] then map[] else ScoreMap(f[..|f| - 1])[f[|f| - 1].0 := f[|f| - 1].1]
  }

  ghost function AboveIds(f: seq<Scored>, cutoff: real): set<int> {
    set id | id in ScoreMap(f) && ScoreMap(f)[id] > Ceil(cutoff)
  }

  /** The cutoff tie group. */
  ghost function TiedIds(f: seq<Scored>, cutoff: real): set<int> {
    set id | id in ScoreMap(f) && Floor(cutoff) <= ScoreMap(f)[id] <= Ceil(cutoff)
  }

  function CountAbove(f: seq<Scored>, bound: real): nat {
    if f == [] then 0 else CountAbove(f[..|f| - 1], bound) + (if f[|f| - 1].1 > bound then 1 else 0)
  }

  /** The slots the reference leaves the tie group. */
  function Slots(f: seq<Scored>, expected: nat): nat
    requires 0 < expected <= |f|
  {
    SaturatingSub(expected, CountAbove(f, Ceil(f[expected - 1].1)))
  }

  ghost function Hits(page: seq<int>, f: seq<Scored>, expected: nat): nat
    requires 0 < expected <= |f|
  {
    var cutoff := f[expected - 1].1;
    CountIn(page, AboveIds(f, cutoff)) + Min(CountIn(page, TiedIds(f, cutoff)), Slots(f, expected))
  }

  ghost function StrictHits(page: seq<int>, f: seq<Scored>, expected: nat): nat
    requires expected <= |f|
  {
    CountIn(page, Elements(Ids(f[..expected])))
  }

  /** The score of one page: tie-aware recall, recall against the id-broken list, and precision. */
  ghost function QueryScoreOf(returned: seq<int>, f: seq<Scored>, top: nat): QueryScore {
    var page, expected := FirstDistinct(returned, top), Min(top, |f|);
    if expected == 0 then
      if page == [] then QueryScore(1.0, 1.0, 1.0) else QueryScore(0.0, 0.0, 0.0)
    else
      QueryScore(Ratio(Hits(page, f, expected), expected),
                 Ratio(StrictHits(page, f, expected), expected),
                 if page == [] then 0.0 else Ratio(Hits(page, f, expected), |page|))
  }

  /**
    What the three numbers are for a page of distinct ids: hits over the expected list, hits against the
    id-broken list, and hits over the page. Without a reference only an empty page is perfect.
   */
  ghost predicate IsScore(q: QueryScore, page: seq<int>, f: seq<Scored>, top: nat) {
    var expected := Min(top, |f|);
    if expected == 0 then q == if page == [] then QueryScore(1.0, 1.0, 1.0) else QueryScore(0.0, 0.0, 0.0)
    else
      && q.recall == Ratio(Hits(page, f, expected), expected)
      && q.strictRecall == Ratio(|Elements(page) * Elements(Ids(f[..expected]))|, expected)
      && q.precision == if page == [] then 0.0 else Ratio(Hits(page, f, expected), |page|)
  }

  lemma QueryScoreIs(returned: seq<int>, f: seq<Scored>, top: nat)
    ensures IsScore(QueryScoreOf(returned, f, top), FirstDistinct(returned, top), f, top)
  {
    var page, expected := FirstDistinct(returned, top), Min(top, |f|);
    if expected > 0 { CountIsIntersection(page, Elements(Ids(f[..expected]))); }
  }

  /** The page scored is the first `top` distinct ids returned. */
  method ScoreQuery(returned: seq<int>, reference: Reference, top: nat) returns (q: QueryScore)
    ensures q == QueryScoreOf(returned, reference.fused, top)
    ensures var page := FirstDistinct(returned, top);
            IsFirstDistinct(page, returned, top) && IsScore(q, page, reference.fused, top)
  {
    var f := reference.fused;
    var expected := Min(top, |f|);
    var kept := FirstDistinct(returned, top);
    if expected == 0 {
      var perfect := if kept == [] then 1.0 else 0.0;
      q := QueryScore(perfect, perfect, perfect);
    } else {
      q := ScoreKept(kept, f, expected);
    }
    QueryScoreIs(returned, f, top);
  }

  /** The counters of a page against a nonempty expected list. */
  method ScoreKept(page: seq<int>, f: seq<Scored>, expected: nat) returns (q: QueryScore)
    requires 0 < expected <= |f|
    ensures q == QueryScore(Ratio(Hits(page, f, expected), expected), Ratio(StrictHits(page, f, expected), expected),
                            if page == [] then 0.0 else Ratio(Hits(page, f, expected), |page|))
  {
    var cutoff := f[expected - 1].1;
    var aboveHits, tieHits := CountHits(page, f, cutoff);
    var strictHits := CountMembers(page, set id | id in Ids(f[..expected]));
    var hits := aboveHits + Min(tieHits, SaturatingSub(expected, CountAbove(f, Ceil(cutoff))));
    q := QueryScore(Ratio(hits, expected), Ratio(strictHits, expected),
                    if page == [] then 0.0 else Ratio(hits, |page|));
  }

  method CountHits(page: seq<int>, f: seq<Scored>, cutoff: real) returns (aboveHits: nat, tieHits: nat)
    ensures aboveHits == CountIn(page, AboveIds(f, cutoff)) && tieHits == CountIn(page, TiedIds(f, cutoff))
  {
    var floor, ceil, refScore := Floor(cutoff), Ceil(cutoff), ScoreMap(f);
    ghost var above, tied := AboveIds(f, cutoff), TiedIds(f, cutoff);
    aboveHits, tieHits := 0, 0;
    for i := 0 to |page|
      invariant aboveHits == CountIn(page[..i], above) && tieHits == CountIn(page[..i], tied)
    {
      assert page[..i + 1][..i] == page[..i];
      var id := page[i];
      if id in refScore && refScore[id] > ceil {
        aboveHits := aboveHits + 1;
      } else if id in refScore && refScore[id] >= floor {
        tieHits := tieHits + 1;
      }
    }
    assert page[..|page|] == page;
  }

  method CountMembers(page: seq<int>, keep: set<int>) returns (n: nat)
    ensures n == CountIn(page, keep)
  {
    n := 0;
    for i := 0 to |page|
      invariant n == CountIn(page[..i], keep)
    {
      assert page[..i + 1][..i] == page[..i];
      if page[i] in keep { n := n + 1; }
    }
    assert page[..|page|] == page;
  }

  // ----- Optimality -----

  /** A reference as `rrf_fuse` leaves it: one entry per id, best score first. */
  ghost predicate Ranked(f: seq<Scored>) {
    Distinct(Ids(f)) && forall i, j | 0 <= i < j < |f| :: f[i].1 >= f[j].1
  }

  lemma FusionIsRanked(f: seq<Scored>, lists: seq<seq<int>>, k: nat)
    requires IsFusion(f, lists, k)
    ensures Ranked(f)
  {
    FusedIdsAreDistinct(f, lists, k);
    forall i, j | 0 <= i < j < |f| ensures f[i].1 >= f[j].1 {
      assert RankLe(f[i], f[j]);
    }
  }

  lemma {:induction false} ScoreMapOf(f: seq<Scored>, id: int)
    requires Distinct(Ids(f))
    ensures id in ScoreMap(f) <==> id in Ids(f)
    ensures id in Ids(f) ==> ScoreMap(f)[id] == f[IndexOf(Ids(f), id)].1
  {
    if f != [] {
      var n := |f| - 1;
      var g := f[..n];
      assert Ids(f) == Ids(g) + [f[n].0];
      assert Ids(f)[n] == f[n].0;
      ScoreMapOf(g, id);
      if id in Ids(g) { IndexInPrefix(Ids(g), Ids(f), id); }
    }
  }

  lemma ScoreMapAt(f: seq<Scored>, i: nat)
    requires Distinct(Ids(f)) && i < |f|
    ensures f[i].0 in ScoreMap(f) && ScoreMap(f)[f[i].0] == f[i].1
  {
    ScoreMapOf(f, f[i].0);
    assert Ids(f)[i] == f[i].0;
    assert IndexOf(Ids(f), f[i].0) == i;
  }

  /** On a ranked list the entries above a bound are a prefix. */
  lemma {:induction false} AboveIsPrefix(f: seq<Scored>, bound: real)
    requires forall i, j | 0 <= i < j < |f| :: f[i].1 >= f[j].1
    ensures CountAbove(f, bound) <= |f|
    ensures forall i | 0 <= i < |f| :: f[i].1 > bound <==> i < CountAbove(f, bound)
  {
    if f != [] {
      var n := |f| - 1;
      AboveIsPrefix(f[..n], bound);
      assert forall i | 0 <= i < n :: f[..n][i] == f[i];
      if f[n].1 > bound {
        assert forall i | 0 <= i < n :: f[i].1 > bound;
        assert CountAbove(f[..n], bound) == n;
      }
    }
  }

  /** The ids at positions `lo..hi` of the reference. */
  ghost function IdsBetween(f: seq<Scored>, lo: nat, hi: nat): set<int>
    requires lo <= hi <= |f|
  {
    set i | lo <= i < hi :: f[i].0
  }

  lemma {:induction false} IdsBetweenSize(f: seq<Scored>, lo: nat, hi: nat)
    requires Distinct(Ids(f)) && lo <= hi <= |f|
    ensures |IdsBetween(f, lo, hi)| == hi - lo
    decreases hi
  {
    if lo < hi {
      IdsBetweenSize(f, lo, hi - 1);
      assert IdsBetween(f, lo, hi) == IdsBetween(f, lo, hi - 1) + {f[hi - 1].0};
      assert forall i | lo <= i < hi - 1 :: Ids(f)[i] != Ids(f)[hi - 1];
    }
  }

  lemma BetweenSubset(f: seq<Scored>, lo: nat, hi: nat, s: set<int>)
    requires lo <= hi <= |f| && forall i | lo <= i < hi :: f[i].0 in s
    ensures IdsBetween(f, lo, hi) <= s
  {
  }

  lemma PrefixIds(f: seq<Scored>, n: nat)
    requires n <= |f|
    ensures Elements(Ids(f[..n])) == IdsBetween(f, 0, n)
  {
    var ids := Ids(f[..n]);
    assert forall i | 0 <= i < n :: ids[i] == f[i].0;
  }

  lemma AboveIdsArePrefix(f: seq<Scored>, cutoff: real)
    requires Ranked(f)
    ensures CountAbove(f, Ceil(cutoff)) <= |f|
    ensures AboveIds(f, cutoff) == IdsBetween(f, 0, CountAbove(f, Ceil(cutoff)))
  {
    var above := CountAbove(f, Ceil(cutoff));
    AboveIsPrefix(f, Ceil(cutoff));
    forall id ensures id in AboveIds(f, cutoff) <==> id in IdsBetween(f, 0, above) {
      ScoreMapOf(f, id);
      if id in AboveIds(f, cutoff) {
        var i := IndexOf(Ids(f), id);
        assert f[i].0 == id;
      }
      if id in IdsBetween(f, 0, above) {
        var i :| 0 <= i < above && f[i].0 == id;
        ScoreMapAt(f, i);
      }
    }
  }

  lemma SlotsHoldTied(f: seq<Scored>, expected: nat)
    requires Ranked(f) && 0 < expected <= |f|
    ensures var cutoff := f[expected - 1].1; var above := CountAbove(f, Ceil(cutoff));
            above < expected && forall i | above <= i < expected :: f[i].0 in TiedIds(f, cutoff)
  {
    var cutoff := f[expected - 1].1;
    var above := CountAbove(f, Ceil(cutoff));
    AboveIsPrefix(f, Ceil(cutoff));
    BandHoldsCutoff(cutoff);
    forall i | above <= i < expected ensures f[i].0 in TiedIds(f, cutoff) {
      assert f[i].1 >= f[expected - 1].1;
      TiedAt(f, i, cutoff);
    }
  }

  lemma BandHoldsCutoff(cutoff: real)
    ensures Floor(cutoff) <= cutoff <= Ceil(cutoff)
  {
  }

  lemma TiedAt(f: seq<Scored>, i: nat, cutoff: real)
    requires Distinct(Ids(f)) && i < |f| && cutoff <= f[i].1 <= Ceil(cutoff)
    ensures f[i].0 in TiedIds(f, cutoff)
  {
    ScoreMapAt(f, i);
  }

  /** The reference around its cutoff: the ids above it, then the first `Slots` members of the tie group. */
  lemma CutoffSplit(f: seq<Scored>, expected: nat)
    requires Ranked(f) && 0 < expected <= |f|
    ensures var cutoff := f[expected - 1].1; var above := CountAbove(f, Ceil(cutoff));
            && above < expected && Slots(f, expected) == expected - above
            && AboveIds(f, cutoff) == IdsBetween(f, 0, above)
            && IdsBetween(f, above, expected) <= TiedIds(f, cutoff)
            && AboveIds(f, cutoff) !! TiedIds(f, cutoff)
  {
    var cutoff := f[expected - 1].1;
    AboveIdsArePrefix(f, cutoff);
    SlotsHoldTied(f, expected);
    BetweenSubset(f, CountAbove(f, Ceil(cutoff)), expected, TiedIds(f, cutoff));
  }

  /** A way of filling the tie group's slots from its members. */
  ghost predicate Filling(s: set<int>, f: seq<Scored>, expected: nat)
    requires 0 < expected <= |f|
  {
    s <= TiedIds(f, f[expected - 1].1) && |s| == Slots(f, expected)
  }

  /** The strict hit count against one such filling. */
  ghost function FillingHits(page: seq<int>, s: set<int>, f: seq<Scored>, expected: nat): nat
    requires 0 < expected <= |f|
  {
    |Elements(page) * (AboveIds(f, f[expected - 1].1) + s)|
  }

  lemma {:induction false} SetBetween<T>(a: set<T>, b: set<T>, n: nat) returns (c: set<T>)
    requires a <= b && |a| <= n <= |b|
    ensures a <= c <= b && |c| == n
    decreases n - |a|
  {
    if |a| == n {
      c := a;
    } else {
      assert b == a + (b - a);
      var x :| x in b - a;
      c := SetBetween(a + {x}, b, n);
    }
  }

  lemma HitsOfFilling(page: seq<int>, s: set<int>, f: seq<Scored>, expected: nat)
    requires Distinct(page) && Ranked(f) && 0 < expected <= |f| && Filling(s, f, expected)
    ensures FillingHits(page, s, f, expected) ==
            CountIn(page, AboveIds(f, f[expected - 1].1)) + |Elements(page) * s|
  {
    CutoffSplit(f, expected);
    var p, above := Elements(page), AboveIds(f, f[expected - 1].1);
    CountIsIntersection(page, above);
    assert p * (above + s) == p * above + p * s;
    assert p * above !! p * s;
  }

  /** The counted hits are the largest strict hit count over every filling of the tie group's slots. */
  lemma TieAwareOptimality(page: seq<int>, f: seq<Scored>, expected: nat)
    requires Distinct(page) && Ranked(f) && 0 < expected <= |f|
    ensures forall s | Filling(s, f, expected) :: FillingHits(page, s, f, expected) <= Hits(page, f, expected)
    ensures exists s :: Filling(s, f, expected) && FillingHits(page, s, f, expected) == Hits(page, f, expected)
  {
    var cutoff := f[expected - 1].1;
    var p, tied, slots := Elements(page), TiedIds(f, cutoff), Slots(f, expected);
    CountIsIntersection(page, tied);
    CutoffSplit(f, expected);
    forall s | Filling(s, f, expected)
      ensures FillingHits(page, s, f, expected) <= Hits(page, f, expected)
    {
      HitsOfFilling(page, s, f, expected);
      SubsetSize(p * s, p * tied);
      SubsetSize(p * s, s);
    }
    var above := CountAbove(f, Ceil(cutoff));
    IdsBetweenSize(f, above, expected);
    SubsetSize(IdsBetween(f, above, expected), tied);
    var s: set<int>;
    if |p * tied| <= slots {
      s := SetBetween(p * tied, tied, slots);
      assert p * s == p * tied;
    } else {
      s := SetBetween({}, p * tied, slots);
      assert p * s == s;
    }
    HitsOfFilling(page, s, f, expected);
    assert Filling(s, f, expected) && FillingHits(page, s, f, expected) == Hits(page, f, expected);
  }

  lemma FillingHitsBounded(page: seq<int>, s: set<int>, f: seq<Scored>, expected: nat)
    requires Distinct(page) && Ranked(f) && 0 < expected <= |f| && Filling(s, f, expected)
    ensures FillingHits(page, s, f, expected) <= expected && FillingHits(page, s, f, expected) <= |page|
  {
    var kept := AboveIds(f, f[expected - 1].1) + s;
    CutoffSplit(f, expected);
    IdsBetweenSize(f, 0, CountAbove(f, Ceil(f[expected - 1].1)));
    DistinctSize(page);
    SubsetSize(Elements(page) * kept, Elements(page));
    SubsetSize(Elements(page) * kept, kept);
  }

  /** The id-broken reference list is one filling, so strict hits never exceed the counted hits. */
  lemma StrictIsAFilling(page: seq<int>, f: seq<Scored>, expected: nat)
    requires Distinct(page) && Ranked(f) && 0 < expected <= |f|
    ensures StrictHits(page, f, expected) <= Hits(page, f, expected) <= expected
    ensures Hits(page, f, expected) <= |page|
    ensures CountAbove(f, Ceil(f[expected - 1].1)) < expected
  {
    var cutoff := f[expected - 1].1;
    var above := CountAbove(f, Ceil(cutoff));
    CutoffSplit(f, expected);
    IdsBetweenSize(f, above, expected);
    var s := IdsBetween(f, above, expected);
    assert StrictHits(page, f, expected) == FillingHits(page, s, f, expected) by {
      PrefixIds(f, expected);
      assert IdsBetween(f, 0, expected) == AboveIds(f, cutoff) + s;
      CountIsIntersection(page, Elements(Ids(f[..expected])));
    }
    TieAwareOptimality(page, f, expected);
    var t :| Filling(t, f, expected) && FillingHits(page, t, f, expected) == Hits(page, f, expected);
    FillingHitsBounded(page, t, f, expected);
    assert Filling(s, f, expected);
  }

  /** Over a ranked reference: `strict_recall <= recall <= 1` and every quantity lies in [0, 1]. */
  lemma ScoresInRange(returned: seq<int>, f: seq<Scored>, top: nat)
    requires Ranked(f)
    ensures var q := QueryScoreOf(returned, f, top);
            0.0 <= q.strictRecall <= q.recall <= 1.0 && 0.0 <= q.precision <= 1.0
  {
    var page, expected := FirstDistinct(returned, top), Min(top, |f|);
    if expected > 0 {
      StrictIsAFilling(page, f, expected);
      RatioMonotone(StrictHits(page, f, expected), Hits(page, f, expected), expected);
    }
  }
}
