/** `rrf_fuse` and `reference` of src/hybrid_rrf.rs: reciprocal rank fusion over exact reals. */
module RrfFusion {
  import opened Outcomes
  import opened Lists
  import opened Sorting

  /** A fused document: its id and its score. */
  type Scored = (int, real)

  /** What one list adds to a document: `1 / (k + rank)`, rank 1-based among first occurrences. */
  function Contribution(list: seq<int>, k: nat, id: int): real {
    var d := Dedup(list);
    if id in d then 1.0 / ((k + IndexOf(d, id) + 1) as real) else 0.0
  }

  function FusedScore(lists: seq<seq<int>>, k: nat, id: int): real {
    if lists == [] then 0.0
    else FusedScore(lists[..|lists| - 1], k, id) + Contribution(lists[|lists| - 1], k, id)
  }

  ghost function Union(lists: seq<seq<int>>): set<int> {
    set i, id | 0 <= i < |lists| && id in lists[i] :: id
  }

  /** Score descending, then id ascending. */
  predicate RankLe(a: Scored, b: Scored) {
    a.1 > b.1 || (a.1 == b.1 && a.0 <= b.0)
  }

  function Ids(s: seq<Scored>): (r: seq<int>)
    ensures |r| == |s| && forall i | 0 <= i < |s| :: r[i] == s[i].0
  {
    seq(|s|, i requires 0 <= i < |s| => s[i].0)
  }

  /** Exactly the documents of the union with their fused scores, once each, in rank order. */
  ghost predicate IsFusion(fused: seq<Scored>, lists: seq<seq<int>>, k: nat) {
    && Distinct(fused)
    && (forall e: Scored :: e in fused <==> e.0 in Union(lists) && e.1 == FusedScore(lists, k, e.0))
    && Sorted(fused, RankLe)
  }

  lemma RankOrder()
    ensures TotalOrder(RankLe)
  {
  }

  /** The scores accumulated after the lists `done` and the entries `part` of the next list. */
  ghost predicate Accumulated(scores: map<int, real>, done: seq<seq<int>>, part: seq<int>, k: nat) {
    && (forall id :: id in scores <==> id in Union(done) || id in part)
    && (forall id | id in scores :: scores[id] == FusedScore(done, k, id) + Contribution(part, k, id))
  }

  lemma ContributionStep(list: seq<int>, n: nat, k: nat, id: int)
    requires n < |list|
    ensures Contribution(list[..n + 1], k, id) ==
            if id == list[n] && list[n] !in list[..n] then 1.0 / ((k + |Dedup(list[..n])| + 1) as real)
            else Contribution(list[..n], k, id)
  {
    DedupStep(list, n);
    var d, e := Dedup(list[..n]), Dedup(list[..n + 1]);
    if id in d { IndexInPrefix(d, e, id); }
    if id == list[n] && list[n] !in list[..n] {
      assert IndexOf(e, id) == |d|;
    }
  }

  /** What a list adds to the id at position `i`: `1 / (k + rank)`, the different ids before it ranked above it. */
  lemma ContributionAt(list: seq<int>, k: nat, i: nat)
    requires i < |list| && FirstAt(list, list[i], i)
    ensures Contribution(list, k, list[i]) == 1.0 / (k + |Elements(list[..i])| + 1) as real
  {
    PlaceAmongDistinct(list, i);
  }

  lemma NoContribution(list: seq<int>, k: nat, id: int)
    requires id !in list
    ensures Contribution(list, k, id) == 0.0
  {
  }

  lemma NotInUnionScoresZero(lists: seq<seq<int>>, k: nat, id: int)
    requires id !in Union(lists)
    ensures FusedScore(lists, k, id) == 0.0
  {
    if lists != [] {
      var n := |lists| - 1;
      assert id !in lists[n];
      assert id !in Union(lists[..n]) by {
        forall i | 0 <= i < n ensures id !in lists[..n][i] { assert lists[..n][i] == lists[i]; }
      }
      NotInUnionScoresZero(lists[..n], k, id);
    }
  }

  lemma UnionStep(lists: seq<seq<int>>, n: nat)
    requires n < |lists|
    ensures forall id :: id in Union(lists[..n + 1]) <==> id in Union(lists[..n]) || id in lists[n]
  {
    var a, b := lists[..n], lists[..n + 1];
    assert forall i | 0 <= i < n :: a[i] == b[i];
    assert b[n] == lists[n];
  }

  lemma ListDone(scores: map<int, real>, lists: seq<seq<int>>, n: nat, k: nat)
    requires n < |lists| && Accumulated(scores, lists[..n], lists[n], k)
    ensures Accumulated(scores, lists[..n + 1], [], k)
  {
    UnionStep(lists, n);
    assert lists[..n + 1][..n] == lists[..n];
    assert lists[..n + 1][n] == lists[n];
  }

  /** One entry of the inner loop. */
  lemma EntryStep(scores: map<int, real>, scores': map<int, real>, done: seq<seq<int>>, list: seq<int>, n: nat, k: nat)
    requires n < |list| && Accumulated(scores, done, list[..n], k)
    requires if list[n] in list[..n] then scores' == scores
             else scores' == scores[list[n] := (if list[n] in scores then scores[list[n]] else 0.0)
                                                 + 1.0 / ((k + |Dedup(list[..n])| + 1) as real)]
    ensures Accumulated(scores', done, list[..n + 1], k)
  {
    var part, part', x := list[..n], list[..n + 1], list[n];
    assert part' == part + [x];
    forall id | id in scores'
      ensures scores'[id] == FusedScore(done, k, id) + Contribution(part', k, id)
    {
      ContributionStep(list, n, k, id);
      if id == x && x !in scores {
        NotInUnionScoresZero(done, k, id);
      }
    }
  }

  lemma SeenStep(list: seq<int>, n: nat)
    requires n < |list|
    ensures forall id :: id in list[..n + 1] <==> id in list[..n] || id == list[n]
    ensures |Dedup(list[..n + 1])| == |Dedup(list[..n])| + (if list[n] in list[..n] then 0 else 1)
  {
    DedupStep(list, n);
    assert list[..n + 1] == list[..n] + [list[n]];
  }

  /** The inner loop: one list, its first occurrences ranked from 1. */
  method AddList(scores: map<int, real>, ghost done: seq<seq<int>>, list: seq<int>, k: nat)
    returns (scores': map<int, real>)
    requires Accumulated(scores, done, [], k)
    ensures Accumulated(scores', done, list, k)
  {
    scores' := scores;
    var seen: set<int> := {};
    var rank := 0;
    assert list[..0] == [];
    for b := 0 to |list|
      invariant (forall id :: id in seen <==> id in list[..b]) && rank == |Dedup(list[..b])|
      invariant Accumulated(scores', done, list[..b], k)
    {
      var id := list[b];
      ghost var before := scores';
      SeenStep(list, b);
      if id !in seen {
        seen := seen + {id};
        rank := rank + 1;
        scores' := scores'[id := (if id in scores' then scores'[id] else 0.0) + 1.0 / ((k + rank) as real)];
      }
      EntryStep(before, scores', done, list, b, k);
    }
    assert list[..|list|] == list;
  }

  method RrfFuse(lists: seq<seq<int>>, rankConstant: nat) returns (fused: seq<Scored>)
    ensures IsFusion(fused, lists, rankConstant)
  {
    var scores: map<int, real> := map[];
    assert lists[..0] == [];
    for a := 0 to |lists|
      invariant Accumulated(scores, lists[..a], [], rankConstant)
    {
      scores := AddList(scores, lists[..a], lists[a], rankConstant);
      ListDone(scores, lists, a, rankConstant);
    }
    assert lists[..|lists|] == lists;
    var entries := Entries(scores);
    fused := Sort(entries, RankLe);
    EntriesAreFused(scores, entries, lists, rankConstant);
    FusionOfEntries(entries, lists, rankConstant);
  }

  lemma EntriesAreFused(scores: map<int, real>, entries: seq<Scored>, lists: seq<seq<int>>, k: nat)
    requires Accumulated(scores, lists, [], k)
    requires forall e: Scored :: e in entries <==> e.0 in scores && e.1 == scores[e.0]
    ensures forall e: Scored :: e in entries <==> e.0 in Union(lists) && e.1 == FusedScore(lists, k, e.0)
  {
    forall e: Scored ensures e in entries <==> e.0 in Union(lists) && e.1 == FusedScore(lists, k, e.0) {
      var id := e.0;
      assert id in scores <==> id in Union(lists);
      assert Contribution([], k, id) == 0.0;
    }
  }

  lemma RankSorts(entries: seq<Scored>)
    ensures Sorted(Sort(entries, RankLe), RankLe)
  {
    RankOrder();
    SortSorts(entries, RankLe);
  }

  lemma FusionOfEntries(entries: seq<Scored>, lists: seq<seq<int>>, k: nat)
    requires Distinct(entries)
    requires forall e: Scored :: e in entries <==> e.0 in Union(lists) && e.1 == FusedScore(lists, k, e.0)
    ensures IsFusion(Sort(entries, RankLe), lists, k)
  {
    RankSorts(entries);
    ArrangementIsDistinct(entries, Sort(entries, RankLe));
  }

  /** `scores.into_iter().collect()`: every entry once, in no particular order. */
  method Entries(scores: map<int, real>) returns (entries: seq<Scored>)
    ensures Distinct(entries)
    ensures forall e: Scored :: e in entries <==> e.0 in scores && e.1 == scores[e.0]
  {
    entries := [];
    var left: set<int> := scores.Keys;
    while left != {}
      invariant left <= scores.Keys
      invariant Distinct(entries)
      invariant forall e: Scored :: e in entries <==> e.0 in scores && e.0 !in left && e.1 == scores[e.0]
      decreases left
    {
      var id := AnyOf(left);
      entries := entries + [(id, scores[id])];
      left := left - {id};
    }
  }

  // ----- Consequences of the contract -----

  /** The order is the only one possible: the map's iteration order cannot show. */
  lemma FusionIsUnique(f: seq<Scored>, g: seq<Scored>, lists: seq<seq<int>>, k: nat)
    requires IsFusion(f, lists, k) && IsFusion(g, lists, k)
    ensures f == g
  {
    RankOrder();
    SameElementsSameMultiset(f, g);
    SortedIsUnique(f, g, RankLe);
  }

  lemma FusedIdsAreDistinct(f: seq<Scored>, lists: seq<seq<int>>, k: nat)
    requires IsFusion(f, lists, k)
    ensures Distinct(Ids(f))
  {
    forall i, j | 0 <= i < j < |f| ensures Ids(f)[i] != Ids(f)[j] {
      assert f[i] in f && f[j] in f;
    }
  }

  /** `a` is ranked above `b` in every list that holds `b`. */
  ghost predicate Dominates(lists: seq<seq<int>>, a: int, b: int) {
    forall i | 0 <= i < |lists| && b in lists[i] ::
      a in lists[i] && IndexOf(Dedup(lists[i]), a) < IndexOf(Dedup(lists[i]), b)
  }

  lemma ReciprocalIsMonotone(x: nat, y: nat)
    requires 0 < x < y
    ensures 1.0 / (x as real) > 1.0 / (y as real) > 0.0
  {
    var p, q := x as real, y as real;
    assert 1.0 / p - 1.0 / q == (q - p) / (p * q);
    assert p * q > 0.0;
  }

  lemma {:induction false} DominatesScores(lists: seq<seq<int>>, k: nat, a: int, b: int)
    requires Dominates(lists, a, b)
    ensures FusedScore(lists, k, a) >= FusedScore(lists, k, b)
    ensures b in Union(lists) ==> FusedScore(lists, k, a) > FusedScore(lists, k, b)
  {
    if lists != [] {
      var n := |lists| - 1;
      var init, last := lists[..n], lists[n];
      assert forall i | 0 <= i < n :: init[i] == lists[i];
      DominatesScores(init, k, a, b);
      UnionStep(lists, n);
      assert lists[..n + 1] == lists;
      ContributionsCompare(last, k, a, b);
    }
  }

  lemma ContributionIsNonnegative(list: seq<int>, k: nat, id: int)
    ensures Contribution(list, k, id) >= 0.0
  {
  }

  lemma ContributionsCompare(list: seq<int>, k: nat, a: int, b: int)
    requires b in list ==> a in list && IndexOf(Dedup(list), a) < IndexOf(Dedup(list), b)
    ensures Contribution(list, k, a) >= Contribution(list, k, b)
    ensures b in list ==> Contribution(list, k, a) > Contribution(list, k, b)
  {
    if b in list {
      ReciprocalIsMonotone(k + IndexOf(Dedup(list), a) + 1, k + IndexOf(Dedup(list), b) + 1);
    } else {
      ContributionIsNonnegative(list, k, a);
    }
  }

  /** A document ranked above another in every list that holds the other always precedes it. */
  lemma DominancePrecedes(f: seq<Scored>, lists: seq<seq<int>>, k: nat, a: int, b: int)
    requires IsFusion(f, lists, k) && Dominates(lists, a, b) && b in Union(lists)
    ensures exists i, j | 0 <= i < j < |f| :: f[i].0 == a && f[j].0 == b
  {
    DominatesScores(lists, k, a, b);
    assert a in Union(lists) by {
      var i :| 0 <= i < |lists| && b in lists[i];
      assert a in lists[i];
    }
    var ea, eb := (a, FusedScore(lists, k, a)), (b, FusedScore(lists, k, b));
    assert ea in f && eb in f;
    var i, j := IndexOf(f, ea), IndexOf(f, eb);
    assert !RankLe(f[j], f[i]);
  }

  // ----- The reference of one query -----

  datatype RrfSpec = RrfSpec(window: nat, rankConstant: nat)

  const MAX_WINDOW: nat := 10_000
  const MAX_RANK_CONSTANT: nat := 10_000

  /** What `parse_spec` lets through. */
  predicate ValidSpec(spec: RrfSpec) {
    1 <= spec.window <= MAX_WINDOW && 1 <= spec.rankConstant <= MAX_RANK_CONSTANT
  }

  datatype Reference = Reference(fused: seq<Scored>, bm25Candidates: nat, inBoth: nat)

  datatype ReferenceError = TooManyCandidates | DuplicateCandidate

  /** `reference`: fuse the exact BM25 candidates with the exact KNN list cut to the window. */
  method BuildReference(bm25: seq<int>, knn: seq<int>, spec: RrfSpec) returns (r: Result<Reference, ReferenceError>)
    ensures r.Ok? <==> |bm25| <= spec.window && Distinct(bm25)
    ensures r.Ok? ==> IsFusion(r.value.fused, [bm25, Take(knn, spec.window)], spec.rankConstant)
    ensures r.Ok? ==> r.value.bm25Candidates == |bm25|
    ensures r.Ok? ==> r.value.inBoth == CountIn(Take(knn, spec.window), Elements(bm25))
    ensures r.Err? ==> r.error.TooManyCandidates? == (|bm25| > spec.window)
  {
    if |bm25| > spec.window { return Err(TooManyCandidates); }
    if |Dedup(bm25)| != |bm25| {
      if Distinct(bm25) { DedupOfDistinct(bm25); assert false; }
      return Err(DuplicateCandidate);
    }
    FullDedupIsDistinct(bm25);
    var window := Take(knn, spec.window);
    var fused := RrfFuse([bm25, window], spec.rankConstant);
    var inBoth := 0;
    for i := 0 to |window|
      invariant inBoth == CountIn(window[..i], Elements(bm25))
    {
      assert window[..i + 1][..i] == window[..i];
      if window[i] in bm25 { inBoth := inBoth + 1; }
    }
    assert window[..|window|] == window;
    r := Ok(Reference(fused, |bm25|, inBoth));
  }

  lemma {:induction false} FullDedupIsDistinct(s: seq<int>)
    requires |Dedup(s)| == |s|
    ensures Distinct(s)
  {
    if s != [] {
      var n := |s| - 1;
      FullDedupIsDistinct(s[..n]);
      DedupOfDistinct(s[..n]);
      assert s == s[..n] + [s[n]];
    }
  }
}
