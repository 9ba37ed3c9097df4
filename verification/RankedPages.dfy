/** Ranked result pages of src/fulltext.rs: reading a reply, and when two pages are the same top-k. */
module RankedPages {
  import opened Outcomes
  import opened Lists

  /** `(engine id, score)` in rank order. */
  type Hit = (string, real)

  function HitIds(p: seq<Hit>): (r: seq<string>)
    ensures |r| == |p| && forall i | 0 <= i < |p| :: r[i] == p[i].0
  {
    seq(|p|, i requires 0 <= i < |p| => p[i].0)
  }

  ghost predicate Descending(p: seq<Hit>) {
    forall i, j | 0 <= i < j < |p| :: p[i].1 >= p[j].1
  }

  // ----- Reading a reply -----

  datatype Score = Finite(x: real) | NonFinite

  datatype RawHit = RawHit(id: Option<string>, score: Option<Score>)

  /** An `FT.SEARCH` reply: its fields, each absent when missing or of the wrong type. */
  datatype Reply = Reply(warnings: Option<nat>, total: Option<int>, results: Option<seq<RawHit>>)

  datatype TotalHits = Exact | Uncounted

  datatype RankedPage = RankedPage(total: Option<nat>, returned: nat, hits: Option<seq<Hit>>)

  datatype PageFault =
    | Warned | NoTotal | NoResults | Incomplete | NoId | NoScore | DuplicateHit | BadRank

  predicate Complete(h: RawHit) {
    h.id.Some? && h.score.Some? && h.score.value.Finite?
  }

  function HitOf(h: RawHit): Hit
    requires Complete(h)
  {
    (h.id.value, h.score.value.x)
  }

  ghost predicate Holds(raw: seq<RawHit>, p: seq<Hit>) {
    |p| == |raw| && forall i | 0 <= i < |raw| :: Complete(raw[i]) && p[i] == HitOf(raw[i])
  }

  /** A reply the reader accepts, holding the page `p`: complete, duplicate-free, ranked. */
  ghost predicate Readable(reply: Reply, top: nat, p: seq<Hit>) {
    && reply.warnings == Some(0)
    && reply.total.Some? && reply.total.value >= 0
    && reply.results.Some? && |reply.results.value| == Min(reply.total.value, top)
    && Holds(reply.results.value, p) && Distinct(HitIds(p)) && Descending(p)
  }

  /** The streaming rank check: every score finite and none above its predecessor. */
  class RankCheck {
    var prev: Option<real>

    constructor ()
      ensures prev == None
    {
      prev := None;
    }

    method Push(score: Score) returns (ok: bool)
      modifies this
      ensures ok <==> score.Finite? && (old(prev).Some? ==> score.x <= old(prev).value)
      ensures prev == if ok then Some(score.x) else old(prev)
    {
      if score.NonFinite? { return false; }
      if prev.Some? && score.x > prev.value { return false; }
      prev := Some(score.x);
      return true;
    }
  }

  /** `redis_ranked_page_with`: the page rules. Under `Uncounted` the clamped total is not published. */
  method ReadPage(reply: Reply, top: nat, keepHits: bool, mode: TotalHits) returns (r: Result<RankedPage, PageFault>)
    ensures r.Ok? <==> exists p :: Readable(reply, top, p)
    ensures r.Ok? ==> forall p | Readable(reply, top, p) ::
              r.value == RankedPage(if mode.Exact? then Some(reply.total.value) else None, |p|,
                                    if keepHits then Some(p) else None)
  {
    if reply.warnings != Some(0) { return Err(Warned); }
    if reply.total.None? || reply.total.value < 0 { return Err(NoTotal); }
    if reply.results.None? { return Err(NoResults); }
    var results := reply.results.value;
    if |results| != Min(reply.total.value, top) { return Err(Incomplete); }
    var rank := new RankCheck();
    var seen: set<string> := {};
    var hits: seq<Hit> := [];
    for i := 0 to |results|
      invariant fresh(rank)
      invariant Holds(results[..i], hits) && Distinct(HitIds(hits)) && Descending(hits)
      invariant forall id :: id in seen <==> id in HitIds(hits)
      invariant rank.prev == if i == 0 then None else Some(hits[i - 1].1)
    {
      var raw := results[i];
      if raw.id.None? || raw.score.None? {
        NotReadable(reply, top, i);
        return Err(if raw.id.None? then NoId else NoScore);
      }
      if raw.id.value in seen {
        var j := IndexOf(HitIds(hits), raw.id.value);
        DuplicateNotReadable(reply, top, j, i);
        return Err(DuplicateHit);
      }
      var ok := rank.Push(raw.score.value);
      if !ok {
        if raw.score.value.NonFinite? { NotReadable(reply, top, i); }
        else { RiseNotReadable(reply, top, i); }
        return Err(BadRank);
      }
      seen := seen + {raw.id.value};
      assert results[..i + 1] == results[..i] + [raw];
      ExtendPage(hits, HitOf(raw));
      hits := hits + [HitOf(raw)];
    }
    assert results[..|results|] == results;
    assert Readable(reply, top, hits);
    forall p | Readable(reply, top, p) ensures p == hits { SamePageRead(reply, top, p, hits); }
    r := Ok(RankedPage(if mode.Exact? then Some(reply.total.value) else None, |results|,
                       if keepHits then Some(hits) else None));
  }

  lemma SamePageRead(reply: Reply, top: nat, p: seq<Hit>, q: seq<Hit>)
    requires Readable(reply, top, p) && Readable(reply, top, q)
    ensures p == q
  {
  }

  lemma NotReadable(reply: Reply, top: nat, i: nat)
    requires reply.results.Some? && i < |reply.results.value| && !Complete(reply.results.value[i])
    ensures !exists p :: Readable(reply, top, p)
  {
  }

  lemma DuplicateNotReadable(reply: Reply, top: nat, j: nat, i: nat)
    requires reply.results.Some? && j < i < |reply.results.value|
    requires reply.results.value[j].id == reply.results.value[i].id
    ensures !exists p :: Readable(reply, top, p)
  {
    forall p: seq<Hit> ensures !Readable(reply, top, p) {
      assert Holds(reply.results.value, p) ==> HitIds(p)[j] == HitIds(p)[i];
    }
  }

  lemma RiseNotReadable(reply: Reply, top: nat, i: nat)
    requires reply.results.Some? && 1 <= i < |reply.results.value|
    requires Complete(reply.results.value[i - 1]) && Complete(reply.results.value[i])
    requires HitOf(reply.results.value[i]).1 > HitOf(reply.results.value[i - 1]).1
    ensures !exists p :: Readable(reply, top, p)
  {
    forall p: seq<Hit> ensures !Readable(reply, top, p) {
      assert Holds(reply.results.value, p) ==> p[i - 1].1 < p[i].1;
    }
  }

  lemma ExtendPage(hits: seq<Hit>, h: Hit)
    requires Distinct(HitIds(hits)) && Descending(hits) && h.0 !in HitIds(hits)
    requires hits != [] ==> h.1 <= hits[|hits| - 1].1
    ensures Distinct(HitIds(hits + [h])) && Descending(hits + [h])
    ensures forall id :: id in HitIds(hits + [h]) <==> id in HitIds(hits) || id == h.0
  {
    assert HitIds(hits + [h]) == HitIds(hits) + [h.0];
  }

  // ----- Comparing two pages -----

  /** The end of the run of equal scores that starts at `start`. */
  function RunEnd(p: seq<Hit>, start: nat): (end: nat)
    requires start < |p|
    ensures start < end <= |p|
    ensures forall i | start <= i < end :: p[i].1 == p[start].1
    ensures end < |p| ==> p[end].1 != p[start].1
    decreases |p| - start
  {
    if start + 1 == |p| || p[start + 1].1 != p[start].1 then start + 1 else RunEnd(p, start + 1)
  }

  ghost function IdsIn(p: seq<Hit>, lo: nat, hi: nat): set<string>
    requires lo <= hi <= |p|
  {
    set i | lo <= i < hi :: p[i].0
  }

  predicate SameScores(p: seq<Hit>, q: seq<Hit>) {
    |p| == |q| && forall i | 0 <= i < |p| :: p[i].1 == q[i].1
  }

  /** The same ids in every run of equal scores from `start` on; a truncated page may end in another choice. */
  ghost predicate RunsAgree(p: seq<Hit>, q: seq<Hit>, truncated: bool, start: nat)
    requires |p| == |q| && start <= |p|
    decreases |p| - start
  {
    start < |p| ==>
      var end := RunEnd(p, start);
      && ((truncated && end == |p|) || IdsIn(p, start, end) == IdsIn(q, start, end))
      && RunsAgree(p, q, truncated, end)
  }

  method SameRankedPage(counted: seq<Hit>, uncounted: seq<Hit>, truncated: bool) returns (ok: bool)
    ensures ok <==> SameScores(counted, uncounted) && RunsAgree(counted, uncounted, truncated, 0)
  {
    if !SameScores(counted, uncounted) { return false; }
    var start := 0;
    while start < |counted|
      invariant start <= |counted|
      invariant RunsAgree(counted, uncounted, truncated, 0) <==> RunsAgree(counted, uncounted, truncated, start)
      decreases |counted| - start
    {
      var end := RunEnd(counted, start);
      var a := set i | start <= i < end :: counted[i].0;
      var b := set i | start <= i < end :: uncounted[i].0;
      if !(truncated && end == |counted|) && a != b { return false; }
      start := end;
    }
    return true;
  }

  /** The documents a page shows at one score. */
  ghost function IdsAt(p: seq<Hit>, score: real): set<string> {
    set i | 0 <= i < |p| && p[i].1 == score :: p[i].0
  }

  /** The same documents at the score of rank `i`, unless that score is cut off by the limit. */
  ghost predicate AgreesAt(p: seq<Hit>, q: seq<Hit>, truncated: bool, i: nat)
    requires i < |p|
  {
    (truncated && p[i].1 == p[|p| - 1].1) || IdsAt(p, p[i].1) == IdsAt(q, p[i].1)
  }

  /** The same documents at every score, except at the last score of a truncated page. */
  ghost predicate SamePage(p: seq<Hit>, q: seq<Hit>, truncated: bool) {
    SameScores(p, q) && forall i | 0 <= i < |p| :: AgreesAt(p, q, truncated, i)
  }

  lemma RunIsScore(p: seq<Hit>, start: nat)
    requires Descending(p) && start < |p| && (start > 0 ==> p[start - 1].1 != p[start].1)
    ensures forall i | 0 <= i < |p| :: p[i].1 == p[start].1 <==> start <= i < RunEnd(p, start)
  {
    var end := RunEnd(p, start);
    forall i | 0 <= i < |p| ensures p[i].1 == p[start].1 <==> start <= i < end {
      if i < start { assert p[i].1 >= p[start - 1].1 >= p[start].1; }
      if end <= i { assert p[start].1 >= p[end].1 >= p[i].1; }
    }
  }

  lemma RunIds(p: seq<Hit>, q: seq<Hit>, start: nat)
    requires Descending(p) && SameScores(p, q)
    requires start < |p| && (start > 0 ==> p[start - 1].1 != p[start].1)
    ensures IdsIn(q, start, RunEnd(p, start)) == IdsAt(q, p[start].1)
  {
    RunIsScore(p, start);
  }

  lemma SameScoresRefl(p: seq<Hit>)
    ensures SameScores(p, p)
  {
  }

  /** On ranked pages, walking the runs compares the documents score by score. */
  lemma {:induction false} RunsAgreeIff(p: seq<Hit>, q: seq<Hit>, truncated: bool, start: nat)
    requires Descending(p) && SameScores(p, q)
    requires start <= |p| && (0 < start < |p| ==> p[start - 1].1 != p[start].1)
    ensures RunsAgree(p, q, truncated, start) <==> forall i | start <= i < |p| :: AgreesAt(p, q, truncated, i)
    decreases |p| - start
  {
    if start < |p| {
      var end := RunEnd(p, start);
      RunIsScore(p, start);
      SameScoresRefl(p);
      RunIds(p, p, start);
      RunIds(p, q, start);
      RunsAgreeIff(p, q, truncated, end);
      assert end == |p| <==> p[start].1 == p[|p| - 1].1;
      var here := (truncated && end == |p|) || IdsIn(p, start, end) == IdsIn(q, start, end);
      assert here <==> AgreesAt(p, q, truncated, start);
      forall i | start <= i < end ensures AgreesAt(p, q, truncated, i) <==> here {
        assert p[i].1 == p[start].1;
      }
      if forall i | start <= i < |p| :: AgreesAt(p, q, truncated, i) {
        assert RunsAgree(p, q, truncated, end);
      }
    }
  }

  /** What acceptance means for ranked pages, in both directions. */
  lemma AcceptanceIff(p: seq<Hit>, q: seq<Hit>, truncated: bool)
    requires Descending(p)
    ensures SameScores(p, q) && RunsAgree(p, q, truncated, 0) <==> SamePage(p, q, truncated)
  {
    if SameScores(p, q) {
      RunsAgreeIff(p, q, truncated, 0);
    }
  }

  /** Accepted pages that are not truncated show the same documents. */
  lemma SameDocuments(p: seq<Hit>, q: seq<Hit>)
    requires SamePage(p, q, false)
    ensures Elements(HitIds(p)) == Elements(HitIds(q))
  {
    forall id ensures id in Elements(HitIds(p)) <==> id in Elements(HitIds(q)) {
      if id in HitIds(p) {
        var i := IndexOf(HitIds(p), id);
        assert AgreesAt(p, q, false, i) && id in IdsAt(p, p[i].1);
        var j :| 0 <= j < |q| && q[j].1 == p[i].1 && q[j].0 == id;
        assert HitIds(q)[j] == id;
      }
      if id in HitIds(q) {
        var i := IndexOf(HitIds(q), id);
        assert q[i].1 == p[i].1;
        assert AgreesAt(p, q, false, i) && id in IdsAt(q, p[i].1);
        var j :| 0 <= j < |p| && p[j].1 == p[i].1 && p[j].0 == id;
        assert HitIds(p)[j] == id;
      }
    }
  }

  // ----- Genuine top-k pages -----

  /** The score of every document that matches a query. */
  type Corpus = map<string, real>

  /** A top-k page of the corpus: ranked, complete, ties broken in any way. */
  ghost predicate GenuinePage(p: seq<Hit>, corpus: Corpus, top: nat) {
    && Distinct(HitIds(p)) && Descending(p)
    && |p| == Min(|corpus|, top)
    && (forall i | 0 <= i < |p| :: p[i].0 in corpus && p[i].1 == corpus[p[i].0])
    && (forall id, i | id in corpus && id !in HitIds(p) && 0 <= i < |p| :: corpus[id] <= p[i].1)
  }

  lemma PrefixIdsSize(p: seq<Hit>, n: nat)
    requires Distinct(HitIds(p)) && n <= |p|
    ensures |IdsIn(p, 0, n)| == n
  {
    if n > 0 {
      PrefixIdsSize(p, n - 1);
      assert IdsIn(p, 0, n) == IdsIn(p, 0, n - 1) + {p[n - 1].0};
      assert forall i | 0 <= i < n - 1 :: HitIds(p)[i] != HitIds(p)[n - 1];
    }
  }

  lemma OneMore<T>(a: set<T>, b: set<T>) returns (x: T)
    requires |a| > |b|
    ensures x in a && x !in b
  {
    assert !(a <= b) by {
      if a <= b { SubsetSize(a, b); assert false; }
    }
    x :| x in a && x !in b;
  }

  /** A document of the corpus outside the first `i` of a genuine page scores at most what rank `i` shows. */
  lemma OutsidePrefix(q: seq<Hit>, corpus: Corpus, top: nat, i: nat, id: string)
    requires GenuinePage(q, corpus, top) && i < |q| && id in corpus && id !in IdsIn(q, 0, i)
    ensures corpus[id] <= q[i].1
  {
    if id in HitIds(q) {
      var m := IndexOf(HitIds(q), id);
      assert q[m].0 == id && m >= i;
      assert q[m].1 <= q[i].1;
    }
  }

  /** No genuine page can show a higher score at a rank than another. */
  lemma NoHigherScore(p: seq<Hit>, q: seq<Hit>, corpus: Corpus, top: nat, i: nat)
    requires GenuinePage(p, corpus, top) && GenuinePage(q, corpus, top) && i < |p|
    ensures p[i].1 <= q[i].1
  {
    PrefixIdsSize(p, i + 1);
    PrefixIdsSize(q, i);
    var id := OneMore(IdsIn(p, 0, i + 1), IdsIn(q, 0, i));
    var j :| 0 <= j < i + 1 && p[j].0 == id;
    assert p[i].1 <= p[j].1 == corpus[id];
    OutsidePrefix(q, corpus, top, i, id);
  }

  ghost function ScoringAt(corpus: Corpus, score: real): set<string> {
    set id | id in corpus && corpus[id] == score
  }

  lemma UntruncatedShowsAll(p: seq<Hit>, corpus: Corpus, top: nat)
    requires GenuinePage(p, corpus, top) && |corpus| <= top
    ensures forall id | id in corpus :: id in HitIds(p)
  {
    PrefixIdsSize(p, |p|);
    var shown := IdsIn(p, 0, |p|);
    SubsetSize(shown, corpus.Keys);
    forall id | id in corpus ensures id in HitIds(p) {
      assert id in shown;
      var i :| 0 <= i < |p| && p[i].0 == id;
      assert HitIds(p)[i] == id;
    }
  }

  /** The documents of a genuine page at a score that is not cut off are all of the corpus at that score. */
  lemma UncutScore(p: seq<Hit>, corpus: Corpus, top: nat, score: real)
    requires GenuinePage(p, corpus, top) && p != []
    requires score > p[|p| - 1].1 || |corpus| <= top
    ensures IdsAt(p, score) == ScoringAt(corpus, score)
  {
    if |corpus| <= top { UntruncatedShowsAll(p, corpus, top); }
    forall id | id in corpus && corpus[id] == score ensures id in IdsAt(p, score) {
      assert id in HitIds(p);
      assert p[IndexOf(HitIds(p), id)].0 == id;
    }
  }

  lemma LastIsLeast(p: seq<Hit>, i: nat)
    requires Descending(p) && i < |p|
    ensures p[i].1 >= p[|p| - 1].1
  {
  }

  lemma GenuineAgreesAt(p: seq<Hit>, q: seq<Hit>, corpus: Corpus, top: nat, i: nat)
    requires GenuinePage(p, corpus, top) && GenuinePage(q, corpus, top) && i < |p| == |q|
    requires p[|p| - 1].1 == q[|p| - 1].1
    ensures AgreesAt(p, q, |corpus| > top, i)
  {
    var v := p[i].1;
    LastIsLeast(p, i);
    if |corpus| <= top || v > p[|p| - 1].1 {
      UncutScore(p, corpus, top, v);
      UncutScore(q, corpus, top, v);
    }
  }

  /** Any two genuine top-k pages of one corpus are accepted, however ties were broken. */
  lemma GenuinePagesAccepted(p: seq<Hit>, q: seq<Hit>, corpus: Corpus, top: nat)
    requires GenuinePage(p, corpus, top) && GenuinePage(q, corpus, top)
    ensures SamePage(p, q, |corpus| > top)
  {
    forall i | 0 <= i < |p| ensures p[i].1 == q[i].1 {
      NoHigherScore(p, q, corpus, top, i);
      NoHigherScore(q, p, corpus, top, i);
    }
    assert SameScores(p, q);
    var truncated := |corpus| > top;
    forall i | 0 <= i < |p| ensures AgreesAt(p, q, truncated, i) {
      GenuineAgreesAt(p, q, corpus, top, i);
    }
  }
}
