/** `probe_withoutcount` of src/fulltext.rs: does an uncounted search still return the ranked page? */
module WithoutCountProbe {
  import opened Outcomes
  import opened RankedPages

  const PROBE_QUERIES: nat := 8

  datatype Probe = Probe(compared: nat, overLimit: nat)

  datatype ProbeError = CountedRefused | UncountedRefused | PagesDiffer | NothingOverLimit

  /** What the server answered one request: a reply, or a failure to send. */
  type Answer = Result<Reply, ()>

  ghost predicate Shows(a: Answer, top: nat, p: seq<Hit>) {
    a.Ok? && Readable(a.value, top, p)
  }

  ghost predicate Answered(a: Answer, top: nat) {
    exists p :: Shows(a, top, p)
  }

  ghost function PageOf(a: Answer, top: nat): (p: seq<Hit>)
    requires Answered(a, top)
    ensures Shows(a, top, p)
  {
    var p :| Shows(a, top, p);
    p
  }

  /** The probe from query `i` on, given what it has compared so far. */
  ghost function Outcome(counted: seq<Answer>, uncounted: seq<Answer>, top: nat, i: nat, probe: Probe)
    : Result<Probe, ProbeError>
    requires i <= |counted| == |uncounted|
    decreases |counted| - i
  {
    if i == |counted| || probe.overLimit >= PROBE_QUERIES then
      if probe.overLimit == 0 then Err(NothingOverLimit) else Ok(probe)
    else if !Answered(counted[i], top) then Err(CountedRefused)
    else
      var total := counted[i].value.total.value;
      if total == 0 then Outcome(counted, uncounted, top, i + 1, probe)
      else if !Answered(uncounted[i], top) then Err(UncountedRefused)
      else if !SamePage(PageOf(counted[i], top), PageOf(uncounted[i], top), total > top) then Err(PagesDiffer)
      else Outcome(counted, uncounted, top, i + 1, Compared(probe, total > top))
  }

  function Compared(probe: Probe, truncated: bool): Probe {
    Probe(probe.compared + 1, probe.overLimit + (if truncated then 1 else 0))
  }

  /** `send` and then read: the page with its published total, or nothing. */
  method Ask(a: Answer, top: nat, mode: TotalHits) returns (page: Option<RankedPage>)
    ensures page.Some? <==> Answered(a, top)
    ensures page.Some? ==> page.value.hits == Some(PageOf(a, top))
    ensures page.Some? && mode.Exact? ==> page.value.total == Some(a.value.total.value)
  {
    if a.Err? { return None; }
    var r := ReadPage(a.value, top, true, mode);
    if r.Err? {
      assert forall p :: !Readable(a.value, top, p);
      return None;
    }
    ghost var p :| Readable(a.value, top, p);
    assert Shows(a, top, p);
    return Some(r.value);
  }

  method ProbeWithoutCount(counted: seq<Answer>, uncounted: seq<Answer>, top: nat)
    returns (r: Result<Probe, ProbeError>)
    requires |counted| == |uncounted|
    ensures r == Outcome(counted, uncounted, top, 0, Probe(0, 0))
  {
    var probe := Probe(0, 0);
    var i := 0;
    while i < |counted| && probe.overLimit < PROBE_QUERIES
      invariant i <= |counted|
      invariant Outcome(counted, uncounted, top, i, probe) == Outcome(counted, uncounted, top, 0, Probe(0, 0))
    {
      var c := Ask(counted[i], top, Exact);
      if c.None? { return Err(CountedRefused); }
      var total := c.value.total.value;
      if total != 0 {
        var u := Ask(uncounted[i], top, Uncounted);
        if u.None? { return Err(UncountedRefused); }
        var same := SameRankedPage(c.value.hits.value, u.value.hits.value, total > top);
        AcceptanceIff(c.value.hits.value, u.value.hits.value, total > top);
        if !same { return Err(PagesDiffer); }
        probe := Compared(probe, total > top);
      }
      i := i + 1;
    }
    return if probe.overLimit == 0 then Err(NothingOverLimit) else Ok(probe);
  }

  // ----- Against a server that keeps the ranking -----

  ghost predicate GenuineAnswer(a: Answer, corpus: Corpus, top: nat) {
    exists p :: Shows(a, top, p) && GenuinePage(p, corpus, top)
  }

  /** Both requests of every query return a genuine page, and the counted one its exact total. */
  ghost predicate GenuineServer(counted: seq<Answer>, uncounted: seq<Answer>, corpora: seq<Corpus>, top: nat) {
    && |counted| == |uncounted| == |corpora|
    && forall i | 0 <= i < |corpora| ::
         && GenuineAnswer(counted[i], corpora[i], top) && counted[i].value.total == Some(|corpora[i]|)
         && GenuineAnswer(uncounted[i], corpora[i], top)
  }

  lemma GenuinePageOf(a: Answer, corpus: Corpus, top: nat)
    requires GenuineAnswer(a, corpus, top)
    ensures Answered(a, top) && GenuinePage(PageOf(a, top), corpus, top)
  {
    var p :| Shows(a, top, p) && GenuinePage(p, corpus, top);
    SamePageRead(a.value, top, p, PageOf(a, top));
  }

  lemma GenuineStep(c: Answer, u: Answer, corpus: Corpus, top: nat)
    requires GenuineAnswer(c, corpus, top) && GenuineAnswer(u, corpus, top)
    ensures Answered(c, top) && Answered(u, top)
    ensures SamePage(PageOf(c, top), PageOf(u, top), |corpus| > top)
  {
    GenuinePageOf(c, corpus, top);
    GenuinePageOf(u, corpus, top);
    GenuinePagesAccepted(PageOf(c, top), PageOf(u, top), corpus, top);
  }

  lemma {:induction false} GenuineOutcome(
    counted: seq<Answer>, uncounted: seq<Answer>, corpora: seq<Corpus>, top: nat, i: nat, probe: Probe)
    requires GenuineServer(counted, uncounted, corpora, top) && i <= |corpora|
    ensures Outcome(counted, uncounted, top, i, probe).Ok? <==>
            probe.overLimit > 0 || exists j | i <= j < |corpora| :: |corpora[j]| > top
    decreases |corpora| - i
  {
    if i < |corpora| && probe.overLimit < PROBE_QUERIES {
      GenuineStep(counted[i], uncounted[i], corpora[i], top);
      var total := |corpora[i]|;
      var next := if total == 0 then probe else Compared(probe, total > top);
      assert Outcome(counted, uncounted, top, i, probe) == Outcome(counted, uncounted, top, i + 1, next);
      GenuineOutcome(counted, uncounted, corpora, top, i + 1, next);
      assert (exists j | i <= j < |corpora| :: |corpora[j]| > top) <==>
             total > top || exists j | i + 1 <= j < |corpora| :: |corpora[j]| > top;
    }
  }

  /** The probe succeeds exactly when some query has more matches than the page. */
  lemma ProbeSucceedsIff(counted: seq<Answer>, uncounted: seq<Answer>, corpora: seq<Corpus>, top: nat)
    requires GenuineServer(counted, uncounted, corpora, top)
    ensures Outcome(counted, uncounted, top, 0, Probe(0, 0)).Ok? <==>
            exists j | 0 <= j < |corpora| :: |corpora[j]| > top
  {
    GenuineOutcome(counted, uncounted, corpora, top, 0, Probe(0, 0));
  }

  // ----- Against any server -----

  /** The matches the counted reply of query `i` reported. */
  ghost function TotalOf(counted: seq<Answer>, top: nat, i: nat): nat
    requires i < |counted| && Answered(counted[i], top)
  {
    counted[i].value.total.value
  }

  /** Query `i` was answered, and if it has matches its two pages agree. */
  ghost predicate Agrees(counted: seq<Answer>, uncounted: seq<Answer>, top: nat, i: nat)
    requires i < |counted| == |uncounted|
  {
    && Answered(counted[i], top)
    && (TotalOf(counted, top, i) > 0 ==>
          && Answered(uncounted[i], top)
          && SamePage(PageOf(counted[i], top), PageOf(uncounted[i], top), TotalOf(counted, top, i) > top))
  }

  ghost predicate AllAgree(counted: seq<Answer>, uncounted: seq<Answer>, top: nat, from: nat, n: nat) {
    && from <= n <= |counted| == |uncounted|
    && (forall i | from <= i < n :: Answered(counted[i], top))
    && (forall i | from <= i < n :: Agrees(counted, uncounted, top, i))
  }

  /** How many of the queries `from..n` have more than `limit` matches. */
  ghost function CountOver(counted: seq<Answer>, top: nat, limit: nat, from: nat, n: nat): nat
    requires from <= n <= |counted| && forall i | from <= i < n :: Answered(counted[i], top)
    decreases n - from
  {
    if from == n then 0
    else (if TotalOf(counted, top, from) > limit then 1 else 0) + CountOver(counted, top, limit, from + 1, n)
  }

  /**
    What success reports, whatever the server is: of the first `n` queries every one with matches
    agreed, `compared` counts those and `overLimit` those with more matches than the page; the probe
    stopped at the eighth of the latter or at the end.
   */
  ghost predicate Reports(
    counted: seq<Answer>, uncounted: seq<Answer>, top: nat, from: nat, n: nat, before: Probe, after: Probe)
  {
    && AllAgree(counted, uncounted, top, from, n)
    && after.compared == before.compared + CountOver(counted, top, 0, from, n)
    && after.overLimit == before.overLimit + CountOver(counted, top, top, from, n)
    && 0 < after.overLimit
    && (n == |counted| || after.overLimit >= PROBE_QUERIES)
    && (from < n ==> after.overLimit <= PROBE_QUERIES)
  }

  lemma {:induction false} SuccessReports(
    counted: seq<Answer>, uncounted: seq<Answer>, top: nat, i: nat, probe: Probe) returns (n: nat)
    requires i <= |counted| == |uncounted| && Outcome(counted, uncounted, top, i, probe).Ok?
    ensures Reports(counted, uncounted, top, i, n, probe, Outcome(counted, uncounted, top, i, probe).value)
    decreases |counted| - i
  {
    if i == |counted| || probe.overLimit >= PROBE_QUERIES {
      n := i;
    } else {
      var total := TotalOf(counted, top, i);
      var next := if total == 0 then probe else Compared(probe, total > top);
      assert Outcome(counted, uncounted, top, i, probe) == Outcome(counted, uncounted, top, i + 1, next);
      n := SuccessReports(counted, uncounted, top, i + 1, next);
      assert Agrees(counted, uncounted, top, i);
    }
  }

  /** The report of a whole probe: the counts of the queries it reached, at least one and at most 8 over the limit. */
  lemma ProbeReports(counted: seq<Answer>, uncounted: seq<Answer>, top: nat) returns (n: nat)
    requires |counted| == |uncounted| && Outcome(counted, uncounted, top, 0, Probe(0, 0)).Ok?
    ensures var probe := Outcome(counted, uncounted, top, 0, Probe(0, 0)).value;
            && AllAgree(counted, uncounted, top, 0, n)
            && probe.compared == CountOver(counted, top, 0, 0, n)
            && probe.overLimit == CountOver(counted, top, top, 0, n)
            && 1 <= probe.overLimit <= PROBE_QUERIES
            && (n == |counted| || probe.overLimit == PROBE_QUERIES)
  {
    n := SuccessReports(counted, uncounted, top, 0, Probe(0, 0));
  }

  /** Why a probe fails at query `n`. */
  ghost predicate FailsAt(counted: seq<Answer>, uncounted: seq<Answer>, top: nat, n: nat, error: ProbeError)
    requires n < |counted| == |uncounted|
  {
    match error
    case CountedRefused => !Answered(counted[n], top)
    case UncountedRefused =>
      Answered(counted[n], top) && TotalOf(counted, top, n) > 0 && !Answered(uncounted[n], top)
    case PagesDiffer =>
      && Answered(counted[n], top) && TotalOf(counted, top, n) > 0 && Answered(uncounted[n], top)
      && !SamePage(PageOf(counted[n], top), PageOf(uncounted[n], top), TotalOf(counted, top, n) > top)
    case NothingOverLimit => false
  }

  /**
    A failed probe: the first `n` queries agreed, fewer than 8 of them over the limit, and then one of
    the two requests was refused or the pages differ; or all agreed and none was over the limit.
   */
  ghost predicate Faults(
    counted: seq<Answer>, uncounted: seq<Answer>, top: nat, from: nat, n: nat, before: Probe, error: ProbeError)
  {
    && AllAgree(counted, uncounted, top, from, n)
    && before.overLimit + CountOver(counted, top, top, from, n) < PROBE_QUERIES
    && if n < |counted| then FailsAt(counted, uncounted, top, n, error)
       else error == NothingOverLimit && before.overLimit + CountOver(counted, top, top, from, n) == 0
  }

  lemma {:induction false} FailureIs(
    counted: seq<Answer>, uncounted: seq<Answer>, top: nat, i: nat, probe: Probe) returns (n: nat)
    requires i <= |counted| == |uncounted| && Outcome(counted, uncounted, top, i, probe).Err?
    requires probe.overLimit < PROBE_QUERIES || i == |counted|
    ensures Faults(counted, uncounted, top, i, n, probe, Outcome(counted, uncounted, top, i, probe).error)
    decreases |counted| - i
  {
    n := i;
    if i < |counted| && Agrees(counted, uncounted, top, i) {
      var total := TotalOf(counted, top, i);
      var next := if total == 0 then probe else Compared(probe, total > top);
      assert Outcome(counted, uncounted, top, i, probe) == Outcome(counted, uncounted, top, i + 1, next);
      n := FailureIs(counted, uncounted, top, i + 1, next);
    }
  }
}
