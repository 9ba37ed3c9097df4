/** `compare_pair`, `index`, `compare` and the verdict of src/compare_results.rs. */
module Comparison {
  import opened Outcomes
  import opened Lists
  import opened Sorting

  datatype IdSpace = RowSpace | FieldSpace(field: string)

  datatype Header = Header(
    engine: string, config: string, dataset: string, workload: string, parallel: nat, top: nat,
    searchId: nat, idSpace: IdSpace, compound: Option<string>)

  datatype Record = Record(queryId: nat, order: nat, error: Option<string>, expected: Option<seq<string>>)

  datatype Dump = Dump(header: Header, records: seq<Record>)

  /** A dump and the file it came from. */
  type Entry = (string, Dump)

  // ----- First answers -----

  predicate EarlierLe(a: Record, b: Record) { a.order <= b.order }

  /** The first answered record of every query, in a list ordered by time. */
  function FirstOf(rs: seq<Record>): (m: map<nat, Record>)
    ensures forall q :: q in m <==> exists i | 0 <= i < |rs| :: rs[i].queryId == q && rs[i].error.None?
  {
    if rs == [] then map[] else
      var n := |rs| - 1;
      var m := FirstOf(rs[..n]);
      assert forall i | 0 <= i < n :: rs[..n][i] == rs[i];
      if rs[n].error.None? && rs[n].queryId !in m then m[rs[n].queryId := rs[n]] else m
  }

  function FirstAnswers(d: Dump): map<nat, Record> {
    FirstOf(Sort(d.records, EarlierLe))
  }

  /** A query some record of the dump attempted, and one some record answered. */
  ghost predicate Attempted(d: Dump, q: nat) {
    exists i | 0 <= i < |d.records| :: d.records[i].queryId == q
  }

  ghost predicate Answered(d: Dump, q: nat) {
    exists i | 0 <= i < |d.records| :: d.records[i].queryId == q && d.records[i].error.None?
  }

  lemma FirstAnswersAre(d: Dump, q: nat)
    ensures q in FirstAnswers(d) <==> Answered(d, q)
  {
    var s := Sort(d.records, EarlierLe);
    forall r ensures r in s <==> r in d.records {
      assert r in multiset(s) <==> r in multiset(d.records);
    }
    if q in FirstAnswers(d) {
      var i :| 0 <= i < |s| && s[i].queryId == q && s[i].error.None?;
      assert s[i] in d.records;
    }
    if Answered(d, q) {
      var i :| 0 <= i < |d.records| && d.records[i].queryId == q && d.records[i].error.None?;
      assert d.records[i] in s;
    }
  }

  /** An answered record of query `q`. */
  predicate Answers(r: Record, q: nat) { r.queryId == q && r.error.None? }

  /** The first answer to `q` in a list. */
  function First(rs: seq<Record>, q: nat): Option<Record> {
    if rs == [] then None else if Answers(rs[0], q) then Some(rs[0]) else First(rs[1..], q)
  }

  lemma {:induction false} FirstOfPrefix(rs: seq<Record>, r: Record, q: nat)
    ensures First(rs + [r], q) ==
            if First(rs, q).Some? then First(rs, q) else if Answers(r, q) then Some(r) else None
  {
    if rs != [] {
      assert (rs + [r])[1..] == rs[1..] + [r];
      FirstOfPrefix(rs[1..], r, q);
    }
  }

  lemma {:induction false} FirstOfIsFirst(rs: seq<Record>, q: nat)
    ensures First(rs, q) == if q in FirstOf(rs) then Some(FirstOf(rs)[q]) else None
  {
    if rs != [] {
      var n := |rs| - 1;
      FirstOfIsFirst(rs[..n], q);
      FirstOfPrefix(rs[..n], rs[n], q);
      assert rs == rs[..n] + [rs[n]];
    }
  }

  /** One more record at the front: it wins unless a strictly earlier answer follows. */
  function Better(r: Record, rest: Option<Record>, q: nat): Option<Record> {
    if Answers(r, q) && (rest.None? || r.order <= rest.value.order) then Some(r) else rest
  }

  lemma {:induction false} FirstIsMember(rs: seq<Record>, q: nat)
    requires First(rs, q).Some?
    ensures First(rs, q).value in rs
  {
    if !Answers(rs[0], q) { FirstIsMember(rs[1..], q); }
  }

  lemma {:induction false} FirstOfInsert(x: Record, s: seq<Record>, q: nat)
    requires Sorted(s, EarlierLe)
    ensures First(Insert(x, s, EarlierLe), q) == Better(x, First(s, q), q)
  {
    if s == [] || EarlierLe(x, s[0]) {
      assert ([x] + s)[1..] == s;
      if First(s, q).Some? { FirstIsMember(s, q); }
    } else {
      var tail := Insert(x, s[1..], EarlierLe);
      FirstOfInsert(x, s[1..], q);
      assert ([s[0]] + tail)[1..] == tail;
    }
  }

  /** The earliest answer, the first listed of several at the same time. */
  function Earliest(rs: seq<Record>, q: nat): Option<Record> {
    if rs == [] then None else Better(rs[0], Earliest(rs[1..], q), q)
  }

  lemma {:induction false} FirstOfSorted(rs: seq<Record>, q: nat)
    ensures First(Sort(rs, EarlierLe), q) == Earliest(rs, q)
  {
    if rs != [] {
      FirstOfSorted(rs[1..], q);
      SortSorts(rs[1..], EarlierLe);
      FirstOfInsert(rs[0], Sort(rs[1..], EarlierLe), q);
    }
  }

  lemma {:induction false} EarliestAt(rs: seq<Record>, q: nat) returns (i: nat)
    requires Earliest(rs, q).Some?
    ensures i < |rs| && rs[i] == Earliest(rs, q).value && Answers(rs[i], q)
    ensures forall j | 0 <= j < |rs| && Answers(rs[j], q) ::
              rs[i].order < rs[j].order || (rs[i].order == rs[j].order && i <= j)
  {
    assert forall j | 0 < j < |rs| :: rs[j] == rs[1..][j - 1];
    if Earliest(rs[1..], q).Some? {
      var m := EarliestAt(rs[1..], q);
      i := if Earliest(rs, q) == Earliest(rs[1..], q) && !(Answers(rs[0], q) && rs[0].order <= rs[m + 1].order)
           then m + 1 else 0;
    } else {
      NoneAnswers(rs[1..], q);
      i := 0;
    }
  }

  lemma {:induction false} NoneAnswers(rs: seq<Record>, q: nat)
    requires Earliest(rs, q).None?
    ensures forall j | 0 <= j < |rs| :: !Answers(rs[j], q)
  {
    if rs != [] {
      NoneAnswers(rs[1..], q);
      assert forall j | 0 < j < |rs| :: rs[j] == rs[1..][j - 1];
    }
  }

  /** The answer a query is compared on: of its answered records the earliest, and of those the first listed. */
  lemma FirstAnswerIsEarliest(d: Dump, q: nat) returns (i: nat)
    requires Answered(d, q)
    ensures i < |d.records| && Answers(d.records[i], q)
    ensures q in FirstAnswers(d) && FirstAnswers(d)[q] == d.records[i]
    ensures forall j | 0 <= j < |d.records| && Answers(d.records[j], q) ::
              d.records[i].order < d.records[j].order || (d.records[i].order == d.records[j].order && i <= j)
  {
    FirstAnswersAre(d, q);
    FirstOfIsFirst(Sort(d.records, EarlierLe), q);
    FirstOfSorted(d.records, q);
    i := EarliestAt(d.records, q);
  }

  // ----- One pair -----

  datatype OneSided = OneSided(queryId: nat, byReference: bool)

  datatype SideInfo = SideInfo(file: string, attempted: nat, answered: nat, failedAttempts: nat)

  datatype PairReport = PairReport(
    k: nat, reference: SideInfo, candidate: SideInfo,
    both: seq<nat>, oneSided: seq<OneSided>, unansweredByBoth: seq<nat>)

  datatype CompareError =
    | DifferentCompound | DifferentDataset | DifferentWorkload | DifferentIdSpace | DifferentK
    | DifferentTruth | TruthOnOneSide | DuplicateKey | EmptySide | NoReferenceSide | NothingPaired

  function QueryIds(rs: seq<Record>): (r: seq<nat>)
    ensures |r| == |rs| && forall i | 0 <= i < |rs| :: r[i] == rs[i].queryId
  {
    seq(|rs|, i requires 0 <= i < |rs| => rs[i].queryId)
  }

  predicate NatLe(a: nat, b: nat) { a <= b }

  /** Every query either dump attempted, ascending. */
  function AllQueries(r: Dump, c: Dump): seq<nat> {
    Sort(Dedup(QueryIds(r.records + c.records)), NatLe)
  }

  function FailedCount(rs: seq<Record>): nat {
    if rs == [] then 0 else FailedCount(rs[..|rs| - 1]) + (if rs[|rs| - 1].error.Some? then 1 else 0)
  }

  function SideOf(e: Entry): SideInfo {
    SideInfo(e.0, |Dedup(QueryIds(e.1.records))|, |FirstAnswers(e.1)|, FailedCount(e.1.records))
  }

  /** The headers may be compared: same queries, corpus, workload, id space and page size. */
  function Compatible(r: Header, c: Header): Result<(), CompareError> {
    if r.compound != c.compound then Err(DifferentCompound)
    else if r.dataset != c.dataset then Err(DifferentDataset)
    else if r.workload != c.workload then Err(DifferentWorkload)
    else if r.idSpace != c.idSpace then Err(DifferentIdSpace)
    else if r.top != c.top then Err(DifferentK)
    else Ok(())
  }

  ghost predicate SameQuestion(r: Header, c: Header) {
    r.compound == c.compound && r.dataset == c.dataset && r.workload == c.workload
    && r.idSpace == c.idSpace && r.top == c.top
  }

  function Partition(qs: seq<nat>, r: map<nat, Record>, c: map<nat, Record>): (seq<nat>, seq<OneSided>, seq<nat>) {
    if qs == [] then ([], [], []) else
      var n := |qs| - 1;
      var (both, one, neither) := Partition(qs[..n], r, c);
      var q := qs[n];
      if q in r && q in c then (both + [q], one, neither)
      else if q in r then (both, one + [OneSided(q, true)], neither)
      else if q in c then (both, one + [OneSided(q, false)], neither)
      else (both, one, neither + [q])
  }

  /** Queries both sides answered must carry the same ground truth, or none on either side. */
  function TruthAgrees(both: seq<nat>, r: map<nat, Record>, c: map<nat, Record>): Result<(), CompareError>
    requires forall i | 0 <= i < |both| :: both[i] in r && both[i] in c
  {
    if both == [] then Ok(()) else
      var a, b := r[both[0]].expected, c[both[0]].expected;
      if a.Some? && b.Some? && a != b then Err(DifferentTruth)
      else if a.Some? != b.Some? then Err(TruthOnOneSide)
      else TruthAgrees(both[1..], r, c)
  }

  lemma {:induction false} PartitionSplits(qs: seq<nat>, r: map<nat, Record>, c: map<nat, Record>)
    requires Distinct(qs)
    ensures var (both, one, neither) := Partition(qs, r, c);
            && Distinct(both) && Distinct(one) && Distinct(neither)
            && (forall q :: q in both <==> q in qs && q in r && q in c)
            && (forall o :: o in one <==> o.queryId in qs && (if o.byReference then o.queryId in r && o.queryId !in c
                                                              else o.queryId !in r && o.queryId in c))
            && (forall q :: q in neither <==> q in qs && q !in r && q !in c)
            && |both| + |one| + |neither| == |qs|
  {
    if qs != [] {
      var n := |qs| - 1;
      PartitionSplits(qs[..n], r, c);
      assert qs == qs[..n] + [qs[n]];
    }
  }

  /** `compare_pair`, as a function of the two dumps. */
  function PairOf(r: Entry, c: Entry): Result<PairReport, CompareError> {
    var _ :- Compatible(r.1.header, c.1.header);
    var rAns, cAns := FirstAnswers(r.1), FirstAnswers(c.1);
    var (both, one, neither) := Partition(AllQueries(r.1, c.1), rAns, cAns);
    AllQueriesAre(r.1, c.1);
    PartitionSplits(AllQueries(r.1, c.1), rAns, cAns);
    var _ :- TruthAgrees(both, rAns, cAns);
    Ok(PairReport(r.1.header.top, SideOf(r), SideOf(c), both, one, neither))
  }

  lemma AllQueriesAre(r: Dump, c: Dump)
    ensures Distinct(AllQueries(r, c))
    ensures forall q :: q in AllQueries(r, c) <==> Attempted(r, q) || Attempted(c, q)
  {
    var rs := r.records + c.records;
    var ids := QueryIds(rs);
    ArrangementIsDistinct(Dedup(ids), AllQueries(r, c));
    forall q ensures q in ids <==> Attempted(r, q) || Attempted(c, q) {
      if Attempted(r, q) {
        var i :| 0 <= i < |r.records| && r.records[i].queryId == q;
        assert rs[i] == r.records[i] && ids[i] == q;
      }
      if Attempted(c, q) {
        var i :| 0 <= i < |c.records| && c.records[i].queryId == q;
        assert rs[|r.records| + i] == c.records[i] && ids[|r.records| + i] == q;
      }
      if q in ids {
        var i := IndexOf(ids, q);
        assert rs[i].queryId == q;
        assert i < |r.records| ==> rs[i] == r.records[i];
        assert i >= |r.records| ==> rs[i] == c.records[i - |r.records|];
      }
    }
  }

  /** The first loop of `compare_pair`: each query pushed to the list it belongs to. */
  method SplitQueries(all: seq<nat>, rAns: map<nat, Record>, cAns: map<nat, Record>)
    returns (both: seq<nat>, one: seq<OneSided>, neither: seq<nat>)
    ensures (both, one, neither) == Partition(all, rAns, cAns)
  {
    both, one, neither := [], [], [];
    for i := 0 to |all|
      invariant (both, one, neither) == Partition(all[..i], rAns, cAns)
    {
      assert all[..i + 1][..i] == all[..i];
      var q := all[i];
      if q in rAns && q in cAns { both := both + [q]; }
      else if q in rAns { one := one + [OneSided(q, true)]; }
      else if q in cAns { one := one + [OneSided(q, false)]; }
      else { neither := neither + [q]; }
    }
    assert all[..|all|] == all;
  }

  /** The second loop: the ground truth of every query both sides answered. */
  method CheckTruth(both: seq<nat>, rAns: map<nat, Record>, cAns: map<nat, Record>)
    returns (r: Result<(), CompareError>)
    requires forall i | 0 <= i < |both| :: both[i] in rAns && both[i] in cAns
    ensures r == TruthAgrees(both, rAns, cAns)
  {
    for i := 0 to |both|
      invariant TruthAgrees(both, rAns, cAns) == TruthAgrees(both[i..], rAns, cAns)
    {
      assert both[i..][1..] == both[i + 1..];
      var a, b := rAns[both[i]].expected, cAns[both[i]].expected;
      if a.Some? && b.Some? && a != b { return Err(DifferentTruth); }
      if a.Some? != b.Some? { return Err(TruthOnOneSide); }
    }
    return Ok(());
  }

  method ComparePair(r: Entry, c: Entry) returns (report: Result<PairReport, CompareError>)
    ensures report == PairOf(r, c)
  {
    var ok := Compatible(r.1.header, c.1.header);
    if ok.Err? { return Err(ok.error); }
    var rAns, cAns, all := FirstAnswers(r.1), FirstAnswers(c.1), AllQueries(r.1, c.1);
    var both, one, neither := SplitQueries(all, rAns, cAns);
    AllQueriesAre(r.1, c.1);
    PartitionSplits(all, rAns, cAns);
    ok := CheckTruth(both, rAns, cAns);
    if ok.Err? { return Err(ok.error); }
    return Ok(PairReport(r.1.header.top, SideOf(r), SideOf(c), both, one, neither));
  }

  /** A report that splits the attempted queries into both, one-sided and neither, and counts the failures. */
  ghost predicate Splits(p: PairReport, r: Dump, c: Dump) {
    && (forall q :: q in p.both <==> Answered(r, q) && Answered(c, q))
    && (forall o :: o in p.oneSided <==> if o.byReference then Answered(r, o.queryId) && !Answered(c, o.queryId)
                                         else !Answered(r, o.queryId) && Answered(c, o.queryId))
    && (forall q :: q in p.unansweredByBoth <==>
                      (Attempted(r, q) || Attempted(c, q)) && !Answered(r, q) && !Answered(c, q))
    && Distinct(p.both) && Distinct(p.oneSided) && Distinct(p.unansweredByBoth)
    && p.reference.failedAttempts == FailedCount(r.records) && p.candidate.failedAttempts == FailedCount(c.records)
  }

  /** Every pair report does. */
  lemma PairSplits(r: Entry, c: Entry)
    requires PairOf(r, c).Ok?
    ensures Splits(PairOf(r, c).value, r.1, c.1)
  {
    var p := PairOf(r, c).value;
    var all, rAns, cAns := AllQueries(r.1, c.1), FirstAnswers(r.1), FirstAnswers(c.1);
    assert (p.both, p.oneSided, p.unansweredByBoth) == Partition(all, rAns, cAns);
    AllQueriesAre(r.1, c.1);
    PartitionMeans(p, r.1, c.1, all);
  }

  lemma PartitionMeans(p: PairReport, r: Dump, c: Dump, all: seq<nat>)
    requires (p.both, p.oneSided, p.unansweredByBoth) == Partition(all, FirstAnswers(r), FirstAnswers(c))
    requires p.reference.failedAttempts == FailedCount(r.records)
    requires p.candidate.failedAttempts == FailedCount(c.records)
    requires Distinct(all) && forall q :: q in all <==> Attempted(r, q) || Attempted(c, q)
    ensures Splits(p, r, c)
  {
    PartitionSplits(all, FirstAnswers(r), FirstAnswers(c));
    AnswersAre(r, c, all);
  }

  lemma AnswersAre(r: Dump, c: Dump, all: seq<nat>)
    requires forall q :: q in all <==> Attempted(r, q) || Attempted(c, q)
    ensures forall q: nat :: q in FirstAnswers(r) <==> Answered(r, q)
    ensures forall q: nat :: q in FirstAnswers(c) <==> Answered(c, q)
    ensures forall q: nat | Answered(r, q) || Answered(c, q) :: q in all
  {
    forall q: nat ensures (q in FirstAnswers(r) <==> Answered(r, q)) && (q in FirstAnswers(c) <==> Answered(c, q)) {
      FirstAnswersAre(r, q);
      FirstAnswersAre(c, q);
    }
    forall q: nat | Answered(r, q) || Answered(c, q) ensures q in all {
      AnsweredIsAttempted(r, q);
      AnsweredIsAttempted(c, q);
    }
  }

  /** The ground truth one dump carries for a query it answered. */
  function TruthOf(d: Dump, q: nat): Option<seq<string>>
    requires q in FirstAnswers(d)
  {
    FirstAnswers(d)[q].expected
  }

  ghost predicate SameTruth(r: Dump, c: Dump) {
    forall q | q in FirstAnswers(r) && q in FirstAnswers(c) :: TruthOf(r, q) == TruthOf(c, q)
  }

  lemma {:induction false} TruthAgreesIff(both: seq<nat>, r: map<nat, Record>, c: map<nat, Record>)
    requires forall i | 0 <= i < |both| :: both[i] in r && both[i] in c
    ensures TruthAgrees(both, r, c).Ok? <==> forall i | 0 <= i < |both| :: r[both[i]].expected == c[both[i]].expected
  {
    if both != [] {
      TruthAgreesIff(both[1..], r, c);
      assert forall i | 0 < i < |both| :: both[i] == both[1..][i - 1];
    }
  }

  /** The queries in both lists of first answers. */
  lemma BothAre(r: Dump, c: Dump)
    ensures forall q :: q in Partition(AllQueries(r, c), FirstAnswers(r), FirstAnswers(c)).0 <==>
                        q in FirstAnswers(r) && q in FirstAnswers(c)
  {
    var all := AllQueries(r, c);
    AllQueriesAre(r, c);
    PartitionSplits(all, FirstAnswers(r), FirstAnswers(c));
    AnswersAre(r, c, all);
  }

  lemma TruthCheckIff(both: seq<nat>, r: Dump, c: Dump)
    requires forall q :: q in both <==> q in FirstAnswers(r) && q in FirstAnswers(c)
    ensures TruthAgrees(both, FirstAnswers(r), FirstAnswers(c)).Ok? <==> SameTruth(r, c)
  {
    TruthAgreesIff(both, FirstAnswers(r), FirstAnswers(c));
    if TruthAgrees(both, FirstAnswers(r), FirstAnswers(c)).Ok? {
      forall q | q in FirstAnswers(r) && q in FirstAnswers(c) ensures TruthOf(r, q) == TruthOf(c, q) {
        assert both[IndexOf(both, q)] == q;
      }
    } else {
      var i :| 0 <= i < |both| && FirstAnswers(r)[both[i]].expected != FirstAnswers(c)[both[i]].expected;
      assert TruthOf(r, both[i]) != TruthOf(c, both[i]);
    }
  }

  /** Exactly which two dumps are compared: the same question, and one ground truth per shared query. */
  lemma PairAcceptedIff(r: Entry, c: Entry)
    ensures PairOf(r, c).Ok? <==> SameQuestion(r.1.header, c.1.header) && SameTruth(r.1, c.1)
  {
    BothAre(r.1, c.1);
    TruthCheckIff(Partition(AllQueries(r.1, c.1), FirstAnswers(r.1), FirstAnswers(c.1)).0, r.1, c.1);
  }

  // ----- What a pair report says, and why there is none -----

  ghost predicate QueriesAscend(qs: seq<nat>) { forall i, j | 0 <= i < j < |qs| :: qs[i] < qs[j] }

  lemma AllQueriesAscend(r: Dump, c: Dump)
    ensures QueriesAscend(AllQueries(r, c))
  {
    var ids := Dedup(QueryIds(r.records + c.records));
    SortSorts(ids, NatLe);
    ArrangementIsDistinct(ids, AllQueries(r, c));
    var qs := AllQueries(r, c);
    forall i, j | 0 <= i < j < |qs| ensures qs[i] < qs[j] { assert NatLe(qs[i], qs[j]); }
  }

  lemma AppendAscends(qs: seq<nat>, q: nat)
    requires QueriesAscend(qs) && forall p | p in qs :: p < q
    ensures QueriesAscend(qs + [q])
  {
    forall i | 0 <= i < |qs| ensures qs[i] < q { assert qs[i] in qs; }
  }

  lemma BelowIsEarlier(qs: seq<nat>, i: nat, p: nat)
    requires QueriesAscend(qs) && i < |qs| && p in qs && p < qs[i]
    ensures IndexOf(qs, p) < i
  {
  }

  /** The queries of one-sided entries, in their order. */
  function OneSidedQueries(one: seq<OneSided>): (r: seq<nat>)
    ensures |r| == |one| && forall i | 0 <= i < |one| :: r[i] == one[i].queryId
  {
    seq(|one|, i requires 0 <= i < |one| => one[i].queryId)
  }

  lemma {:induction false} PartitionAscends(qs: seq<nat>, r: map<nat, Record>, c: map<nat, Record>)
    requires QueriesAscend(qs)
    ensures var (both, one, neither) := Partition(qs, r, c);
            && QueriesAscend(both) && QueriesAscend(neither) && QueriesAscend(OneSidedQueries(one))
            && (forall q | q in both || q in neither || q in OneSidedQueries(one) :: q in qs)
  {
    if qs != [] {
      var n := |qs| - 1;
      var q := qs[n];
      var (both, one, neither) := Partition(qs[..n], r, c);
      PartitionAscends(qs[..n], r, c);
      assert qs == qs[..n] + [q];
      forall p | p in qs[..n] ensures p < q { assert qs[IndexOf(qs[..n], p)] == p; }
      AppendAscends(both, q);
      AppendAscends(neither, q);
      AppendAscends(OneSidedQueries(one), q);
      assert OneSidedQueries(one + [OneSided(q, true)]) == OneSidedQueries(one) + [q];
      assert OneSidedQueries(one + [OneSided(q, false)]) == OneSidedQueries(one) + [q];
    }
  }

  ghost function AttemptedQueries(d: Dump): set<nat> {
    set i | 0 <= i < |d.records| :: d.records[i].queryId
  }

  ghost function AnsweredQueries(d: Dump): set<nat> {
    set i | 0 <= i < |d.records| && d.records[i].error.None? :: d.records[i].queryId
  }

  ghost function FailedPlaces(rs: seq<Record>): set<nat> {
    set i: nat | i < |rs| && rs[i].error.Some?
  }

  lemma {:induction false} FailedAre(rs: seq<Record>)
    ensures FailedCount(rs) == |FailedPlaces(rs)|
  {
    if rs == [] {
      assert FailedPlaces(rs) == {};
    } else {
      var n := |rs| - 1;
      FailedAre(rs[..n]);
      var rest := FailedPlaces(rs[..n]);
      assert FailedPlaces(rs) == if rs[n].error.Some? then rest + {n} else rest;
    }
  }

  /** One side of a report: its file, and how many queries it attempted and answered and attempts it failed. */
  lemma SideIs(e: Entry)
    ensures SideOf(e) == SideInfo(e.0, |AttemptedQueries(e.1)|, |AnsweredQueries(e.1)|, |FailedPlaces(e.1.records)|)
  {
    var d, ids := e.1, QueryIds(e.1.records);
    FailedAre(d.records);
    DistinctSize(Dedup(ids));
    forall q ensures q in Elements(Dedup(ids)) <==> q in AttemptedQueries(d) {
      if q in ids { assert d.records[IndexOf(ids, q)].queryId == q; }
      if q in AttemptedQueries(d) {
        var i :| 0 <= i < |d.records| && d.records[i].queryId == q;
        assert ids[i] == q;
      }
    }
    assert Elements(Dedup(ids)) == AttemptedQueries(d);
    forall q: nat ensures q in FirstAnswers(d).Keys <==> q in AnsweredQueries(d) { FirstAnswersAre(d, q); }
    assert FirstAnswers(d).Keys == AnsweredQueries(d);
  }

  /** A pair report names its two sides and lists every query in ascending order. */
  lemma ReportIs(r: Entry, c: Entry)
    requires PairOf(r, c).Ok?
    ensures var p := PairOf(r, c).value;
            && p.k == r.1.header.top
            && p.reference ==
               SideInfo(r.0, |AttemptedQueries(r.1)|, |AnsweredQueries(r.1)|, |FailedPlaces(r.1.records)|)
            && p.candidate ==
               SideInfo(c.0, |AttemptedQueries(c.1)|, |AnsweredQueries(c.1)|, |FailedPlaces(c.1.records)|)
            && QueriesAscend(p.both) && QueriesAscend(p.unansweredByBoth)
            && QueriesAscend(OneSidedQueries(p.oneSided))
  {
    SideIs(r);
    SideIs(c);
    AllQueriesAscend(r.1, c.1);
    PartitionAscends(AllQueries(r.1, c.1), FirstAnswers(r.1), FirstAnswers(c.1));
  }

  /** The least query both sides answered with different ground truth. */
  ghost predicate FirstTruthFault(r: Dump, c: Dump, q: nat) {
    && q in FirstAnswers(r) && q in FirstAnswers(c) && TruthOf(r, q) != TruthOf(c, q)
    && forall p | p < q && p in FirstAnswers(r) && p in FirstAnswers(c) :: TruthOf(r, p) == TruthOf(c, p)
  }

  lemma {:induction false} TruthFaultIs(both: seq<nat>, r: map<nat, Record>, c: map<nat, Record>) returns (i: nat)
    requires forall i | 0 <= i < |both| :: both[i] in r && both[i] in c
    requires TruthAgrees(both, r, c).Err?
    ensures i < |both| && r[both[i]].expected != c[both[i]].expected
    ensures forall j | 0 <= j < i :: r[both[j]].expected == c[both[j]].expected
    ensures TruthAgrees(both, r, c).error ==
            if r[both[i]].expected.Some? && c[both[i]].expected.Some? then DifferentTruth else TruthOnOneSide
  {
    if r[both[0]].expected != c[both[0]].expected {
      i := 0;
    } else {
      i := TruthFaultIs(both[1..], r, c);
      i := i + 1;
    }
  }

  /** Which refusal two dumps meet: the first header field that differs, in this order, or the first truth that does. */
  lemma PairErrorIs(r: Entry, c: Entry)
    ensures var g, h, e := r.1.header, c.1.header, PairOf(r, c);
            if g.compound != h.compound then e == Err(DifferentCompound)
            else if g.dataset != h.dataset then e == Err(DifferentDataset)
            else if g.workload != h.workload then e == Err(DifferentWorkload)
            else if g.idSpace != h.idSpace then e == Err(DifferentIdSpace)
            else if g.top != h.top then e == Err(DifferentK)
            else e.Err? ==> exists q :: TruthRefusal(r.1, c.1, q, e.error)
  {
    if SameQuestion(r.1.header, c.1.header) && PairOf(r, c).Err? {
      var q := TruthRefusalIs(r, c);
    }
  }

  ghost predicate TruthRefusal(r: Dump, c: Dump, q: nat, error: CompareError) {
    FirstTruthFault(r, c, q) &&
    error == if TruthOf(r, q).Some? && TruthOf(c, q).Some? then DifferentTruth else TruthOnOneSide
  }

  lemma BothAscend(r: Dump, c: Dump)
    ensures QueriesAscend(Partition(AllQueries(r, c), FirstAnswers(r), FirstAnswers(c)).0)
  {
    AllQueriesAscend(r, c);
    PartitionAscends(AllQueries(r, c), FirstAnswers(r), FirstAnswers(c));
  }

  lemma TruthRefusalIs(r: Entry, c: Entry) returns (q: nat)
    requires SameQuestion(r.1.header, c.1.header) && PairOf(r, c).Err?
    ensures TruthRefusal(r.1, c.1, q, PairOf(r, c).error)
  {
    var rAns, cAns := FirstAnswers(r.1), FirstAnswers(c.1);
    var both := Partition(AllQueries(r.1, c.1), rAns, cAns).0;
    BothAre(r.1, c.1);
    BothAscend(r.1, c.1);
    var i := TruthFaultIs(both, rAns, cAns);
    q := both[i];
    forall p | p < q && p in rAns && p in cAns ensures TruthOf(r.1, p) == TruthOf(c.1, p) {
      BelowIsEarlier(both, i, p);
      assert both[IndexOf(both, p)] == p;
    }
  }

  lemma AnsweredIsAttempted(d: Dump, q: nat)
    ensures Answered(d, q) ==> Attempted(d, q)
  {
  }

  lemma {:induction false} NoFailures(rs: seq<Record>)
    ensures FailedCount(rs) == 0 <==> forall i | 0 <= i < |rs| :: rs[i].error.None?
  {
    if rs != [] {
      var n := |rs| - 1;
      NoFailures(rs[..n]);
      assert forall i | 0 <= i < n :: rs[..n][i] == rs[i];
    }
  }

  // ----- Pairing two sides -----

  datatype Key = Key(dataset: string, workload: string, parallel: nat, top: nat, space: string, search: Option<nat>)

  function KeyOf(e: Entry): Key {
    var h := e.1.header;
    Key(h.dataset, h.workload, h.parallel, h.top,
        if h.idSpace.RowSpace? then "row" else h.idSpace.field,
        if h.compound.Some? then Some(h.searchId) else None)
  }

  /** Id spaces that have one name: the same, or row ids and a field called `row`. */
  ghost predicate SameSpaceName(a: IdSpace, b: IdSpace) {
    a == b || (a == RowSpace && b == FieldSpace("row")) || (a == FieldSpace("row") && b == RowSpace)
  }

  /** Two dumps have one key exactly when these header fields agree; the search id counts under a compound only. */
  lemma SameKeyIff(a: Entry, b: Entry)
    ensures KeyOf(a) == KeyOf(b) <==>
            var g, h := a.1.header, b.1.header;
            && g.dataset == h.dataset && g.workload == h.workload && g.parallel == h.parallel && g.top == h.top
            && SameSpaceName(g.idSpace, h.idSpace)
            && (g.compound.Some? <==> h.compound.Some?) && (g.compound.Some? ==> g.searchId == h.searchId)
  {
  }

  ghost predicate DistinctKeys(side: seq<Entry>) {
    forall i, j | 0 <= i < j < |side| :: KeyOf(side[i]) != KeyOf(side[j])
  }

  ghost predicate Indexes(m: map<Key, Entry>, side: seq<Entry>) {
    && (forall k | k in m :: m[k] in side && KeyOf(m[k]) == k)
    && (forall e | e in side :: KeyOf(e) in m && m[KeyOf(e)] == e)
  }

  method Index(side: seq<Entry>) returns (r: Result<map<Key, Entry>, CompareError>)
    ensures r.Ok? <==> DistinctKeys(side)
    ensures r.Ok? ==> Indexes(r.value, side)
    ensures r.Err? ==> r.error == DuplicateKey
  {
    var m: map<Key, Entry> := map[];
    for i := 0 to |side|
      invariant DistinctKeys(side[..i]) && Indexes(m, side[..i])
    {
      var key := KeyOf(side[i]);
      assert side[..i + 1] == side[..i] + [side[i]];
      if key in m {
        var j := IndexOf(side[..i], m[key]);
        assert KeyOf(side[j]) == KeyOf(side[i]);
        return Err(DuplicateKey);
      }
      m := m[key := side[i]];
    }
    assert side[..|side|] == side;
    return Ok(m);
  }

  datatype Report = Report(pairs: seq<PairReport>, unpaired: seq<string>, oneSidedTotal: nat, failedTotal: nat)

  function Files(es: seq<Entry>): (r: seq<string>)
    ensures |r| == |es| && forall i | 0 <= i < |es| :: r[i] == es[i].0
  {
    seq(|es|, i requires 0 <= i < |es| => es[i].0)
  }

  function OneSidedSum(ps: seq<PairReport>): nat {
    if ps == [] then 0 else OneSidedSum(ps[..|ps| - 1]) + |ps[|ps| - 1].oneSided|
  }

  function FailedSum(ps: seq<PairReport>): nat {
    if ps == [] then 0 else
      var p := ps[|ps| - 1];
      FailedSum(ps[..|ps| - 1]) + p.reference.failedAttempts + p.candidate.failedAttempts
  }

  /** How the dumps of the two sides were matched up, and what was left over. */
  datatype Matching = Matching(pairs: seq<(Entry, Entry)>, leftReference: seq<Entry>, leftCandidate: seq<Entry>)

  ghost predicate HasKey(side: seq<Entry>, k: Key) {
    exists e :: e in side && KeyOf(e) == k
  }

  /** By key: every pair of equal keys once, everything else left over once. Two single files always pair. */
  ghost predicate IsMatching(m: Matching, reference: seq<Entry>, candidate: seq<Entry>) {
    if |reference| == 1 && |candidate| == 1 then m == Matching([(reference[0], candidate[0])], [], [])
    else
      && DistinctKeys(reference) && DistinctKeys(candidate)
      && Distinct(m.pairs) && Distinct(m.leftReference) && Distinct(m.leftCandidate)
      && (forall r, c :: (r, c) in m.pairs <==> r in reference && c in candidate && KeyOf(r) == KeyOf(c))
      && (forall r :: r in m.leftReference <==> r in reference && !HasKey(candidate, KeyOf(r)))
      && (forall c :: c in m.leftCandidate <==> c in candidate && !HasKey(reference, KeyOf(c)))
  }

  /** The order of keys: any total order, the derived tuple order in the source. */
  type KeyOrder = (Key, Key) -> bool

  predicate EntryLe(le: KeyOrder, a: Entry, b: Entry) { le(KeyOf(a), KeyOf(b)) }

  ghost predicate Ascending(es: seq<Entry>, le: KeyOrder) {
    forall i, j | 0 <= i < j < |es| :: EntryLe(le, es[i], es[j])
  }

  /** Pairs and leftovers in the order of their keys. */
  ghost predicate InKeyOrder(m: Matching, le: KeyOrder) {
    && (forall i, j | 0 <= i < j < |m.pairs| :: EntryLe(le, m.pairs[i].0, m.pairs[j].0))
    && Ascending(m.leftReference, le) && Ascending(m.leftCandidate, le)
  }

  ghost predicate Reported(pairs: seq<PairReport>, matched: seq<(Entry, Entry)>) {
    |pairs| == |matched| && forall i | 0 <= i < |matched| :: PairOf(matched[i].0, matched[i].1) == Ok(pairs[i])
  }

  ghost predicate ReportsMatching(report: Report, m: Matching) {
    && Reported(report.pairs, m.pairs)
    && report.unpaired == Files(m.leftReference + m.leftCandidate)
    && report.oneSidedTotal == OneSidedSum(report.pairs) && report.failedTotal == FailedSum(report.pairs)
  }

  predicate Names(e: Entry, engine: string) { e.1.header.engine == engine || e.1.header.config == engine }

  predicate AllName(side: seq<Entry>, engine: string) { forall i | 0 <= i < |side| :: Names(side[i], engine) }

  /** A side in the order of its keys, as a `BTreeMap` iterates. */
  function ByKey(side: seq<Entry>, le: KeyOrder): seq<Entry> {
    Sort(side, (a, b) => EntryLe(le, a, b))
  }

  lemma ByKeySorts(side: seq<Entry>, le: KeyOrder)
    requires TotalOrder(le) && DistinctKeys(side)
    ensures Ascending(ByKey(side, le), le) && DistinctKeys(ByKey(side, le)) && Distinct(ByKey(side, le))
    ensures forall e :: e in ByKey(side, le) <==> e in side
  {
    var entryLe := (a: Entry, b: Entry) => EntryLe(le, a, b);
    SortSorts(side, entryLe);
    var sorted := ByKey(side, le);
    assert Sorted(sorted, entryLe);
    forall i, j | 0 <= i < j < |sorted| ensures EntryLe(le, sorted[i], sorted[j]) {
      assert entryLe(sorted[i], sorted[j]);
    }
    ArrangementIsDistinct(side, sorted);
    forall i, j | 0 <= i < j < |sorted| ensures KeyOf(sorted[i]) != KeyOf(sorted[j]) {
      if KeyOf(sorted[i]) == KeyOf(sorted[j]) {
        SameKeySameEntry(side, sorted[i], sorted[j]);
        assert false;
      }
    }
  }

  /** The pairs and leftovers of the reference entries `done`; `ci` indexes the candidates. */
  ghost predicate Matched(
    pairs: seq<(Entry, Entry)>, left: seq<Entry>, done: seq<Entry>, candidate: seq<Entry>, ci: map<Key, Entry>)
  {
    && Distinct(pairs) && Distinct(left)
    && (forall r, c :: (r, c) in pairs <==> r in done && c in candidate && KeyOf(r) == KeyOf(c))
    && (forall r :: r in left <==> r in done && KeyOf(r) !in ci)
  }

  lemma MatchStep(
    pairs: seq<(Entry, Entry)>, left: seq<Entry>, done: seq<Entry>, candidate: seq<Entry>, ci: map<Key, Entry>,
    e: Entry)
    requires Indexes(ci, candidate) && e !in done && Matched(pairs, left, done, candidate, ci)
    ensures KeyOf(e) in ci ==> Matched(pairs + [(e, ci[KeyOf(e)])], left, done + [e], candidate, ci)
    ensures KeyOf(e) !in ci ==> Matched(pairs, left + [e], done + [e], candidate, ci)
  {
  }

  /** What was matched so far is in key order and not above what follows. */
  ghost predicate OrderedSoFar(pairs: seq<(Entry, Entry)>, left: seq<Entry>, le: KeyOrder) {
    && (forall i, j | 0 <= i < j < |pairs| :: EntryLe(le, pairs[i].0, pairs[j].0))
    && Ascending(left, le)
  }

  lemma OrderStep(
    pairs: seq<(Entry, Entry)>, left: seq<Entry>, done: seq<Entry>, candidate: seq<Entry>, ci: map<Key, Entry>,
    le: KeyOrder, e: Entry, c: Entry)
    requires Matched(pairs, left, done, candidate, ci) && OrderedSoFar(pairs, left, le)
    requires forall i | 0 <= i < |done| :: EntryLe(le, done[i], e)
    ensures OrderedSoFar(pairs + [(e, c)], left, le) && OrderedSoFar(pairs, left + [e], le)
  {
    forall i | 0 <= i < |pairs| ensures EntryLe(le, pairs[i].0, e) {
      assert (pairs[i].0, pairs[i].1) in pairs;
    }
    forall i | 0 <= i < |left| ensures EntryLe(le, left[i], e) {
      assert left[i] in left;
    }
  }

  lemma MatchDone(
    pairs: seq<(Entry, Entry)>, left: seq<Entry>, rest: seq<Entry>, reference: seq<Entry>, candidate: seq<Entry>,
    ci: map<Key, Entry>)
    requires !(|reference| == 1 && |candidate| == 1) && DistinctKeys(reference) && DistinctKeys(candidate)
    requires Indexes(ci, candidate)
    requires Matched(pairs, left, reference, candidate, ci)
    requires Distinct(rest) && forall e :: e in rest <==> e in candidate && !HasKey(reference, KeyOf(e))
    ensures IsMatching(Matching(pairs, left, rest), reference, candidate)
  {
    forall e ensures HasKey(candidate, KeyOf(e)) <==> KeyOf(e) in ci {
      if KeyOf(e) in ci { assert ci[KeyOf(e)] in candidate; }
    }
  }

  /** The candidates not yet taken: `ci` without the keys of the reference entries already handled. */
  ghost predicate Remaining(cm: map<Key, Entry>, ci: map<Key, Entry>, done: seq<Entry>) {
    && (forall k :: k in cm <==> k in ci && !HasKey(done, k))
    && (forall k | k in cm :: cm[k] == ci[k])
  }

  lemma HasKeyStep(done: seq<Entry>, e: Entry)
    ensures forall k :: HasKey(done + [e], k) <==> HasKey(done, k) || k == KeyOf(e)
  {
    forall k | HasKey(done, k) || k == KeyOf(e) ensures HasKey(done + [e], k) {
      if k == KeyOf(e) {
        assert e in done + [e];
      } else {
        var d :| d in done && KeyOf(d) == k;
        assert d in done + [e];
      }
    }
  }

  lemma Taken(cm: map<Key, Entry>, ci: map<Key, Entry>, done: seq<Entry>, e: Entry)
    requires Remaining(cm, ci, done) && !HasKey(done, KeyOf(e))
    ensures Remaining(cm - {KeyOf(e)}, ci, done + [e]) && (KeyOf(e) in cm <==> KeyOf(e) in ci)
  {
    HasKeyStep(done, e);
  }

  /** Two dumps of the same key that cannot be compared. */
  ghost predicate Refused(reference: seq<Entry>, candidate: seq<Entry>, r: Entry, c: Entry) {
    r in reference && c in candidate && KeyOf(r) == KeyOf(c) && PairOf(r, c).Err?
  }

  ghost predicate SomePairRefused(reference: seq<Entry>, candidate: seq<Entry>) {
    exists r, c :: Refused(reference, candidate, r, c)
  }

  /** `error` is that of the refused pair with the least key. */
  ghost predicate FirstRefusal(reference: seq<Entry>, candidate: seq<Entry>, le: KeyOrder, error: CompareError) {
    exists r, c :: && Refused(reference, candidate, r, c) && PairOf(r, c) == Err(error)
                   && forall r', c' | Refused(reference, candidate, r', c') :: EntryLe(le, r, r')
  }

  lemma NothingRefused(pairs: seq<PairReport>, m: Matching, reference: seq<Entry>, candidate: seq<Entry>)
    requires !(|reference| == 1 && |candidate| == 1)
    requires IsMatching(m, reference, candidate) && Reported(pairs, m.pairs)
    ensures !SomePairRefused(reference, candidate)
  {
    forall r, c | r in reference && c in candidate && KeyOf(r) == KeyOf(c) ensures PairOf(r, c).Ok? {
      var i := IndexOf(m.pairs, (r, c));
      assert PairOf(m.pairs[i].0, m.pairs[i].1) == Ok(pairs[i]);
    }
  }

  /** The entry at which the loop stops holds the refusal it reports. */
  lemma StopsAtFirstRefusal(
    pairs: seq<PairReport>, matched: seq<(Entry, Entry)>, left: seq<Entry>, rs: seq<Entry>, i: nat,
    reference: seq<Entry>, candidate: seq<Entry>, ci: map<Key, Entry>, le: KeyOrder, c: Entry)
    requires TotalOrder(le) && i < |rs| && Ascending(rs, le) && forall e :: e in rs <==> e in reference
    requires Matched(matched, left, rs[..i], candidate, ci) && Reported(pairs, matched)
    requires Refused(reference, candidate, rs[i], c)
    ensures FirstRefusal(reference, candidate, le, PairOf(rs[i], c).error)
  {
    forall r', c' | Refused(reference, candidate, r', c') ensures EntryLe(le, rs[i], r') {
      RefusalIsLater(pairs, matched, left, rs, i, candidate, ci, le, r', c');
    }
  }

  lemma RefusalIsLater(
    pairs: seq<PairReport>, matched: seq<(Entry, Entry)>, left: seq<Entry>, rs: seq<Entry>, i: nat,
    candidate: seq<Entry>, ci: map<Key, Entry>, le: KeyOrder, r: Entry, c: Entry)
    requires TotalOrder(le) && i < |rs| && Ascending(rs, le)
    requires Matched(matched, left, rs[..i], candidate, ci) && Reported(pairs, matched)
    requires r in rs && c in candidate && KeyOf(r) == KeyOf(c) && PairOf(r, c).Err?
    ensures EntryLe(le, rs[i], r)
  {
    assert r !in rs[..i] by {
      if r in rs[..i] { EarlierIsCompared(pairs, matched, left, rs[..i], candidate, ci, r, c); }
    }
    NotBefore(rs, i, le, r);
  }

  lemma NotBefore(rs: seq<Entry>, i: nat, le: KeyOrder, r: Entry)
    requires TotalOrder(le) && i < |rs| && Ascending(rs, le) && r in rs && r !in rs[..i]
    ensures EntryLe(le, rs[i], r)
  {
    var j := IndexOf(rs, r);
    assert rs == rs[..i] + rs[i..] && j >= i;
  }

  lemma EarlierIsCompared(
    pairs: seq<PairReport>, matched: seq<(Entry, Entry)>, left: seq<Entry>, done: seq<Entry>, candidate: seq<Entry>,
    ci: map<Key, Entry>, r: Entry, c: Entry)
    requires Matched(matched, left, done, candidate, ci) && Reported(pairs, matched)
    requires r in done && c in candidate && KeyOf(r) == KeyOf(c)
    ensures PairOf(r, c).Ok?
  {
    assert (r, c) in matched;
    var m := IndexOf(matched, (r, c));
    assert PairOf(matched[m].0, matched[m].1) == Ok(pairs[m]);
  }

  lemma ReportedStep(pairs: seq<PairReport>, matched: seq<(Entry, Entry)>, r: Entry, c: Entry, p: PairReport)
    requires Reported(pairs, matched) && PairOf(r, c) == Ok(p)
    ensures Reported(pairs + [p], matched + [(r, c)])
  {
  }

  /** `e` has a key of its own, above those of `done`. */
  ghost predicate Follows(done: seq<Entry>, e: Entry, le: KeyOrder) {
    e !in done && !HasKey(done, KeyOf(e)) && forall j | 0 <= j < |done| :: EntryLe(le, done[j], e)
  }

  lemma FreshEntry(rs: seq<Entry>, i: nat, le: KeyOrder)
    requires i < |rs| && DistinctKeys(rs) && Ascending(rs, le)
    ensures rs[..i + 1] == rs[..i] + [rs[i]] && Follows(rs[..i], rs[i], le)
  {
  }

  /** The loop's state once the reference entries `done` are handled. */
  ghost predicate Progress(
    pairs: seq<PairReport>, unpaired: seq<string>, matched: seq<(Entry, Entry)>, left: seq<Entry>, cm: map<Key, Entry>,
    done: seq<Entry>, candidate: seq<Entry>, ci: map<Key, Entry>, le: KeyOrder)
  {
    && Remaining(cm, ci, done) && Matched(matched, left, done, candidate, ci) && OrderedSoFar(matched, left, le)
    && Reported(pairs, matched) && unpaired == Files(left)
  }

  lemma PairStep(
    pairs: seq<PairReport>, unpaired: seq<string>, matched: seq<(Entry, Entry)>, left: seq<Entry>, cm: map<Key, Entry>,
    done: seq<Entry>, candidate: seq<Entry>, ci: map<Key, Entry>, le: KeyOrder, e: Entry, p: PairReport)
    requires Progress(pairs, unpaired, matched, left, cm, done, candidate, ci, le) && Indexes(ci, candidate)
    requires Follows(done, e, le) && KeyOf(e) in cm && PairOf(e, cm[KeyOf(e)]) == Ok(p)
    ensures Progress(pairs + [p], unpaired, matched + [(e, cm[KeyOf(e)])], left, cm - {KeyOf(e)}, done + [e],
                     candidate, ci, le)
  {
    var c := cm[KeyOf(e)];
    MatchStep(matched, left, done, candidate, ci, e);
    Taken(cm, ci, done, e);
    OrderStep(matched, left, done, candidate, ci, le, e, c);
    ReportedStep(pairs, matched, e, c, p);
  }

  lemma LeaveStep(
    pairs: seq<PairReport>, unpaired: seq<string>, matched: seq<(Entry, Entry)>, left: seq<Entry>, cm: map<Key, Entry>,
    done: seq<Entry>, candidate: seq<Entry>, ci: map<Key, Entry>, le: KeyOrder, e: Entry)
    requires Progress(pairs, unpaired, matched, left, cm, done, candidate, ci, le) && Indexes(ci, candidate)
    requires Follows(done, e, le) && KeyOf(e) !in cm
    ensures Progress(pairs, unpaired + [e.0], matched, left + [e], cm - {KeyOf(e)}, done + [e], candidate, ci, le)
  {
    MatchStep(matched, left, done, candidate, ci, e);
    Taken(cm, ci, done, e);
    OrderStep(matched, left, done, candidate, ci, le, e, e);
    assert Files(left + [e]) == Files(left) + [e.0];
  }

  /** The loop over the reference index: pair each entry with the candidate of its key, or leave it. */
  method PairByKey(reference: seq<Entry>, candidate: seq<Entry>, le: KeyOrder)
    returns (r: Result<(seq<PairReport>, seq<string>), CompareError>, ghost m: Matching)
    requires TotalOrder(le) && !(|reference| == 1 && |candidate| == 1)
    ensures r.Ok? ==> IsMatching(m, reference, candidate) && InKeyOrder(m, le) && Reported(r.value.0, m.pairs)
    ensures r.Ok? ==> r.value.1 == Files(m.leftReference + m.leftCandidate)
    ensures r.Ok? <==> DistinctKeys(reference) && DistinctKeys(candidate) && !SomePairRefused(reference, candidate)
    ensures r.Err? ==> if DistinctKeys(reference) && DistinctKeys(candidate)
                       then FirstRefusal(reference, candidate, le, r.error) else r.error == DuplicateKey
  {
    m := Matching([], [], []);
    var ri := Index(reference);
    if ri.Err? { return Err(ri.error), m; }
    var index := Index(candidate);
    if index.Err? { return Err(index.error), m; }
    ByKeySorts(reference, le);
    ByKeySorts(candidate, le);
    var rs, ci, cm := ByKey(reference, le), index.value, index.value;
    var pairs: seq<PairReport>, unpaired: seq<string> := [], [];
    ghost var matched: seq<(Entry, Entry)>, left: seq<Entry> := [], [];
    for i := 0 to |rs|
      invariant Progress(pairs, unpaired, matched, left, cm, rs[..i], candidate, ci, le)
    {
      var e := rs[i];
      FreshEntry(rs, i, le);
      if KeyOf(e) in cm {
        var p := ComparePair(e, cm[KeyOf(e)]);
        if p.Err? {
          StopsAtFirstRefusal(pairs, matched, left, rs, i, reference, candidate, ci, le, cm[KeyOf(e)]);
          return Err(p.error), m;
        }
        PairStep(pairs, unpaired, matched, left, cm, rs[..i], candidate, ci, le, e, p.value);
        pairs := pairs + [p.value];
        matched := matched + [(e, cm[KeyOf(e)])];
      } else {
        LeaveStep(pairs, unpaired, matched, left, cm, rs[..i], candidate, ci, le, e);
        unpaired := unpaired + [e.0];
        left := left + [e];
      }
      cm := cm - {KeyOf(e)};
    }
    assert rs[..|rs|] == rs;
    var rest := Values(cm, ByKey(candidate, le), le);
    m := Matching(matched, left, rest);
    PairingDone(pairs, unpaired, m, cm, rs, reference, candidate, ci, le);
    r := Ok((pairs, unpaired + Files(rest)));
  }

  lemma PairingDone(
    pairs: seq<PairReport>, unpaired: seq<string>, m: Matching, cm: map<Key, Entry>, rs: seq<Entry>,
    reference: seq<Entry>, candidate: seq<Entry>, ci: map<Key, Entry>, le: KeyOrder)
    requires !(|reference| == 1 && |candidate| == 1) && DistinctKeys(reference) && DistinctKeys(candidate)
    requires Progress(pairs, unpaired, m.pairs, m.leftReference, cm, rs, candidate, ci, le) && Indexes(ci, candidate)
    requires forall e :: e in rs <==> e in reference
    requires Distinct(m.leftCandidate) && Ascending(m.leftCandidate, le)
    requires forall e :: e in m.leftCandidate <==> e in candidate && KeyOf(e) in cm
    ensures IsMatching(m, reference, candidate) && InKeyOrder(m, le) && !SomePairRefused(reference, candidate)
    ensures unpaired + Files(m.leftCandidate) == Files(m.leftReference + m.leftCandidate)
  {
    RestIs(cm, ci, rs, reference, candidate, m.leftCandidate);
    SameMatched(m.pairs, m.leftReference, rs, reference, candidate, ci);
    MatchDone(m.pairs, m.leftReference, m.leftCandidate, reference, candidate, ci);
    NothingRefused(pairs, m, reference, candidate);
  }

  lemma SameMatched(
    pairs: seq<(Entry, Entry)>, left: seq<Entry>, rs: seq<Entry>, reference: seq<Entry>, candidate: seq<Entry>,
    ci: map<Key, Entry>)
    requires Matched(pairs, left, rs, candidate, ci) && forall e :: e in rs <==> e in reference
    ensures Matched(pairs, left, reference, candidate, ci)
  {
  }

  lemma RestIs(
    cm: map<Key, Entry>, ci: map<Key, Entry>, rs: seq<Entry>, reference: seq<Entry>, candidate: seq<Entry>,
    rest: seq<Entry>)
    requires Indexes(ci, candidate) && Remaining(cm, ci, rs) && forall e :: e in rs <==> e in reference
    requires forall e :: e in rest <==> e in candidate && KeyOf(e) in cm
    ensures forall e :: e in rest <==> e in candidate && !HasKey(reference, KeyOf(e))
  {
    forall k ensures HasKey(rs, k) <==> HasKey(reference, k) {
      if HasKey(rs, k) {
        var e :| e in rs && KeyOf(e) == k;
        assert e in reference;
      }
      if HasKey(reference, k) {
        var e :| e in reference && KeyOf(e) == k;
        assert e in rs;
      }
    }
  }

  /** `into_values`: the entries of a side whose key is still in the map, in key order. */
  method Values(cm: map<Key, Entry>, side: seq<Entry>, le: KeyOrder) returns (es: seq<Entry>)
    requires Distinct(side) && Ascending(side, le)
    ensures Distinct(es) && Ascending(es, le) && forall e :: e in es <==> e in side && KeyOf(e) in cm
  {
    es := [];
    for i := 0 to |side|
      invariant Distinct(es) && Ascending(es, le)
      invariant forall e :: e in es <==> e in side[..i] && KeyOf(e) in cm
    {
      assert side[..i + 1] == side[..i] + [side[i]] && side[i] !in side[..i];
      if KeyOf(side[i]) in cm { es := es + [side[i]]; }
    }
    assert side[..|side|] == side;
  }

  /** The side that is the reference: the first whose every dump names the engine. */
  function Oriented(first: seq<Entry>, second: seq<Entry>, engine: string): Option<(seq<Entry>, seq<Entry>)> {
    if AllName(first, engine) then Some((first, second))
    else if AllName(second, engine) then Some((second, first))
    else None
  }

  ghost predicate SomePair(reference: seq<Entry>, candidate: seq<Entry>) {
    exists r, c :: r in reference && c in candidate && KeyOf(r) == KeyOf(c)
  }

  /** Two sides that can be compared: the two single dumps, or every two dumps of one key and at least one such pair. */
  ghost predicate Comparable(reference: seq<Entry>, candidate: seq<Entry>) {
    if |reference| == 1 && |candidate| == 1 then PairOf(reference[0], candidate[0]).Ok?
    else && DistinctKeys(reference) && DistinctKeys(candidate)
         && !SomePairRefused(reference, candidate) && SomePair(reference, candidate)
  }

  /** Why oriented sides fail: the one pair, a repeated key, the refusal of least key, or nothing to pair. */
  ghost predicate FailsAs(
    r: Result<Report, CompareError>, reference: seq<Entry>, candidate: seq<Entry>, le: KeyOrder)
  {
    r.Err? ==>
      if |reference| == 1 && |candidate| == 1 then PairOf(reference[0], candidate[0]) == Err(r.error)
      else if !DistinctKeys(reference) || !DistinctKeys(candidate) then r.error == DuplicateKey
      else if SomePairRefused(reference, candidate) then FirstRefusal(reference, candidate, le, r.error)
      else r.error == NothingPaired && !SomePair(reference, candidate)
  }

  lemma PairedIff(m: Matching, reference: seq<Entry>, candidate: seq<Entry>)
    requires !(|reference| == 1 && |candidate| == 1) && IsMatching(m, reference, candidate)
    ensures m.pairs != [] <==> SomePair(reference, candidate)
  {
    if m.pairs != [] { assert (m.pairs[0].0, m.pairs[0].1) in m.pairs; }
    if SomePair(reference, candidate) {
      var r, c :| r in reference && c in candidate && KeyOf(r) == KeyOf(c);
      assert (r, c) in m.pairs;
    }
  }

  /** Every dump of the side was made by the engine, by type or by config name. */
  ghost predicate MadeBy(side: seq<Entry>, engine: string) {
    forall i | 0 <= i < |side| :: side[i].1.header.engine == engine || side[i].1.header.config == engine
  }

  /** The sides can be compared and have a pair, the first side being the reference. */
  ghost predicate CanCompare(first: seq<Entry>, second: seq<Entry>, engine: string) {
    if MadeBy(first, engine) then Comparable(first, second) else MadeBy(second, engine) && Comparable(second, first)
  }

  /**
    The reference is the first side if all its dumps were made by the engine, otherwise the second, and
    only if all its dumps were.
   */
  method Compare(first: seq<Entry>, second: seq<Entry>, engine: string, le: KeyOrder)
    returns (r: Result<Report, CompareError>, ghost m: Matching)
    requires TotalOrder(le)
    ensures r.Ok? <==> first != [] && second != [] && CanCompare(first, second, engine)
    ensures r.Ok? && MadeBy(first, engine) ==> IsMatching(m, first, second)
    ensures r.Ok? && !MadeBy(first, engine) ==> MadeBy(second, engine) && IsMatching(m, second, first)
    ensures r.Ok? ==> InKeyOrder(m, le) && ReportsMatching(r.value, m) && r.value.pairs != []
    ensures first == [] || second == [] ==> r == Err(EmptySide)
    ensures first != [] && second != [] && !MadeBy(first, engine) && !MadeBy(second, engine) ==>
              r == Err(NoReferenceSide)
    ensures first != [] && second != [] && MadeBy(first, engine) ==> FailsAs(r, first, second, le)
    ensures first != [] && second != [] && !MadeBy(first, engine) && MadeBy(second, engine) ==>
              FailsAs(r, second, first, le)
  {
    assert AllName(first, engine) <==> MadeBy(first, engine);
    assert AllName(second, engine) <==> MadeBy(second, engine);
    m := Matching([], [], []);
    if first == [] || second == [] { return Err(EmptySide), m; }
    var sides := Oriented(first, second, engine);
    if sides.None? { return Err(NoReferenceSide), m; }
    var (reference, candidate) := sides.value;
    var pairs: seq<PairReport>, unpaired: seq<string> := [], [];
    if |reference| == 1 && |candidate| == 1 {
      var p := ComparePair(reference[0], candidate[0]);
      if p.Err? { return Err(p.error), m; }
      pairs := [p.value];
      m := Matching([(reference[0], candidate[0])], [], []);
    } else {
      var q;
      q, m := PairByKey(reference, candidate, le);
      if q.Err? { return Err(q.error), m; }
      pairs, unpaired := q.value.0, q.value.1;
      PairedIff(m, reference, candidate);
    }
    if pairs == [] { return Err(NothingPaired), m; }
    r := Ok(Report(pairs, unpaired, OneSidedSum(pairs), FailedSum(pairs)));
  }

  // ----- What a matching and a verdict mean -----

  /** Every reference dump ends in exactly one pair or is left over. */
  lemma EveryReferenceOnce(m: Matching, reference: seq<Entry>, candidate: seq<Entry>, e: Entry)
    requires IsMatching(m, reference, candidate) && e in reference
    ensures (exists i | 0 <= i < |m.pairs| :: m.pairs[i].0 == e) <==> e !in m.leftReference
    ensures forall i, j | 0 <= i < j < |m.pairs| && m.pairs[i].0 == e :: m.pairs[j].0 != e
  {
    if |reference| == 1 && |candidate| == 1 {
      assert m.pairs[0].0 == e;
    } else {
      if HasKey(candidate, KeyOf(e)) {
        var c :| c in candidate && KeyOf(c) == KeyOf(e);
        assert (e, c) in m.pairs;
      }
      forall i | 0 <= i < |m.pairs| && m.pairs[i].0 == e
        ensures m.pairs[i].1 in candidate && KeyOf(m.pairs[i].1) == KeyOf(e)
      {
        assert (m.pairs[i].0, m.pairs[i].1) in m.pairs;
      }
      forall i, j | 0 <= i < j < |m.pairs| && m.pairs[i].0 == e ensures m.pairs[j].0 != e {
        if m.pairs[j].0 == e {
          SameKeySameEntry(candidate, m.pairs[i].1, m.pairs[j].1);
          assert false;
        }
      }
    }
  }

  /** And so does every candidate dump. */
  lemma EveryCandidateOnce(m: Matching, reference: seq<Entry>, candidate: seq<Entry>, e: Entry)
    requires IsMatching(m, reference, candidate) && e in candidate
    ensures (exists i | 0 <= i < |m.pairs| :: m.pairs[i].1 == e) <==> e !in m.leftCandidate
    ensures forall i, j | 0 <= i < j < |m.pairs| && m.pairs[i].1 == e :: m.pairs[j].1 != e
  {
    if |reference| == 1 && |candidate| == 1 {
      assert m.pairs[0].1 == e;
    } else {
      if HasKey(reference, KeyOf(e)) {
        var r :| r in reference && KeyOf(r) == KeyOf(e);
        assert (r, e) in m.pairs;
      }
      forall i | 0 <= i < |m.pairs| && m.pairs[i].1 == e
        ensures m.pairs[i].0 in reference && KeyOf(m.pairs[i].0) == KeyOf(e)
      {
        assert (m.pairs[i].0, m.pairs[i].1) in m.pairs;
      }
      forall i, j | 0 <= i < j < |m.pairs| && m.pairs[i].1 == e ensures m.pairs[j].1 != e {
        if m.pairs[j].1 == e {
          SameKeySameEntry(reference, m.pairs[i].0, m.pairs[j].0);
          assert false;
        }
      }
    }
  }

  lemma SameKeySameEntry(side: seq<Entry>, a: Entry, b: Entry)
    requires DistinctKeys(side) && a in side && b in side && KeyOf(a) == KeyOf(b)
    ensures a == b
  {
  }

  function Keys(es: seq<Entry>): (r: seq<Key>)
    ensures |r| == |es| && forall i | 0 <= i < |es| :: r[i] == KeyOf(es[i])
  {
    seq(|es|, i requires 0 <= i < |es| => KeyOf(es[i]))
  }

  lemma KeysAreDistinct(es: seq<Entry>, side: seq<Entry>)
    requires Distinct(es) && DistinctKeys(side) && forall e | e in es :: e in side
    ensures Distinct(Keys(es))
  {
    forall i, j | 0 <= i < j < |es| ensures Keys(es)[i] != Keys(es)[j] {
      assert es[i] in es && es[j] in es;
      if KeyOf(es[i]) == KeyOf(es[j]) {
        SameKeySameEntry(side, es[i], es[j]);
        assert false;
      }
    }
  }

  lemma SameKeys(a: seq<Entry>, b: seq<Entry>)
    requires forall e :: e in a <==> e in b
    ensures forall k :: k in Keys(a) <==> k in Keys(b)
  {
    forall k | k in Keys(a) ensures k in Keys(b) {
      var e := a[IndexOf(Keys(a), k)];
      assert e in b && Keys(b)[IndexOf(b, e)] == k;
    }
    forall k | k in Keys(b) ensures k in Keys(a) {
      var e := b[IndexOf(Keys(b), k)];
      assert e in a && Keys(a)[IndexOf(a, e)] == k;
    }
  }

  /** The same entries of one side, in key order, are the same list. */
  lemma OneAscendingList(a: seq<Entry>, b: seq<Entry>, side: seq<Entry>, le: KeyOrder)
    requires TotalOrder(le) && DistinctKeys(side) && Distinct(a) && Distinct(b)
    requires (forall e | e in a :: e in side) && forall e :: e in a <==> e in b
    requires Ascending(a, le) && Ascending(b, le)
    ensures a == b
  {
    KeysAreDistinct(a, side);
    KeysAreDistinct(b, side);
    SameKeys(a, b);
    SameElementsSameMultiset(Keys(a), Keys(b));
    SortedIsUnique(Keys(a), Keys(b), le);
    assert |a| == |Keys(a)| == |Keys(b)| == |b|;
    forall i | 0 <= i < |a| ensures a[i] == b[i] {
      assert a[i] in a && b[i] in b && Keys(a)[i] == Keys(b)[i];
      SameKeySameEntry(side, a[i], b[i]);
    }
  }

  function References(ps: seq<(Entry, Entry)>): (r: seq<Entry>)
    ensures |r| == |ps| && forall i | 0 <= i < |ps| :: r[i] == ps[i].0
  {
    seq(|ps|, i requires 0 <= i < |ps| => ps[i].0)
  }

  lemma PairedReferences(m: Matching, reference: seq<Entry>, candidate: seq<Entry>)
    requires !(|reference| == 1 && |candidate| == 1) && IsMatching(m, reference, candidate)
    ensures Distinct(References(m.pairs))
    ensures forall e :: e in References(m.pairs) <==> e in reference && HasKey(candidate, KeyOf(e))
  {
    var refs := References(m.pairs);
    forall i, j | 0 <= i < j < |refs| ensures refs[i] != refs[j] {
      assert (m.pairs[i].0, m.pairs[i].1) in m.pairs;
      EveryReferenceOnce(m, reference, candidate, refs[i]);
    }
    forall e | e in refs ensures e in reference && HasKey(candidate, KeyOf(e)) {
      var i := IndexOf(refs, e);
      assert (m.pairs[i].0, m.pairs[i].1) in m.pairs;
    }
    forall e | e in reference && HasKey(candidate, KeyOf(e)) ensures e in refs {
      var c :| c in candidate && KeyOf(c) == KeyOf(e);
      assert (e, c) in m.pairs && refs[IndexOf(m.pairs, (e, c))] == e;
    }
  }

  /** The report is determined: there is one matching in key order. */
  lemma MatchingIsUnique(m: Matching, n: Matching, reference: seq<Entry>, candidate: seq<Entry>, le: KeyOrder)
    requires TotalOrder(le) && IsMatching(m, reference, candidate) && IsMatching(n, reference, candidate)
    requires InKeyOrder(m, le) && InKeyOrder(n, le)
    ensures m == n
  {
    if !(|reference| == 1 && |candidate| == 1) {
      OneAscendingList(m.leftReference, n.leftReference, reference, le);
      OneAscendingList(m.leftCandidate, n.leftCandidate, candidate, le);
      PairedReferences(m, reference, candidate);
      PairedReferences(n, reference, candidate);
      OneAscendingList(References(m.pairs), References(n.pairs), reference, le);
      assert |m.pairs| == |References(m.pairs)| == |References(n.pairs)| == |n.pairs|;
      forall i | 0 <= i < |m.pairs| ensures m.pairs[i] == n.pairs[i] {
        SamePartner(m, n, reference, candidate, i);
      }
    }
  }

  lemma SamePartner(m: Matching, n: Matching, reference: seq<Entry>, candidate: seq<Entry>, i: nat)
    requires !(|reference| == 1 && |candidate| == 1)
    requires IsMatching(m, reference, candidate) && IsMatching(n, reference, candidate)
    requires i < |m.pairs| && i < |n.pairs| && References(m.pairs)[i] == References(n.pairs)[i]
    ensures m.pairs[i] == n.pairs[i]
  {
    assert (m.pairs[i].0, m.pairs[i].1) in m.pairs && (n.pairs[i].0, n.pairs[i].1) in n.pairs;
    SameKeySameEntry(candidate, m.pairs[i].1, n.pairs[i].1);
  }

  /** `passed`: nothing one-sided, nothing failed, nothing unpaired. */
  predicate Passed(r: Report) {
    r.oneSidedTotal == 0 && r.failedTotal == 0 && r.unpaired == []
  }

  lemma {:induction false} SumsAreZero(ps: seq<PairReport>)
    ensures OneSidedSum(ps) == 0 <==> forall i | 0 <= i < |ps| :: ps[i].oneSided == []
    ensures FailedSum(ps) == 0 <==>
            forall i | 0 <= i < |ps| :: ps[i].reference.failedAttempts == 0 && ps[i].candidate.failedAttempts == 0
  {
    if ps != [] {
      var n := |ps| - 1;
      SumsAreZero(ps[..n]);
      assert forall i | 0 <= i < n :: ps[..n][i] == ps[i];
    }
  }

  /** The totals of a report add up over its pairs. */
  lemma {:induction false} TotalsAddUp(a: seq<PairReport>, b: seq<PairReport>)
    ensures OneSidedSum(a + b) == OneSidedSum(a) + OneSidedSum(b) && FailedSum(a + b) == FailedSum(a) + FailedSum(b)
  {
    if b == [] {
      assert a + b == a;
    } else {
      var n := |b| - 1;
      TotalsAddUp(a, b[..n]);
      assert (a + b)[..|a| + n] == a + b[..n];
    }
  }

  lemma TotalOfOne(p: PairReport)
    ensures OneSidedSum([p]) == |p.oneSided|
    ensures FailedSum([p]) == p.reference.failedAttempts + p.candidate.failedAttempts
  {
    assert [p][..0] == [];
  }

  /** Both sides answered every query either attempted. */
  ghost predicate FullyAnswered(r: Dump, c: Dump) {
    && (forall i | 0 <= i < |r.records| :: r.records[i].error.None?)
    && (forall i | 0 <= i < |c.records| :: c.records[i].error.None?)
    && (forall q :: Answered(r, q) <==> Answered(c, q))
  }

  predicate Clean(p: PairReport) {
    p.oneSided == [] && p.reference.failedAttempts == 0 && p.candidate.failedAttempts == 0
  }

  lemma CleanIff(p: PairReport, r: Dump, c: Dump)
    requires Splits(p, r, c)
    ensures Clean(p) <==> FullyAnswered(r, c)
    ensures FullyAnswered(r, c) ==> p.unansweredByBoth == []
  {
    NoFailures(r.records);
    NoFailures(c.records);
    if Clean(p) {
      forall q: nat ensures Answered(r, q) <==> Answered(c, q) {
        assert OneSided(q, true) !in p.oneSided && OneSided(q, false) !in p.oneSided;
      }
    }
    if FullyAnswered(r, c) {
      NoMembers(p.oneSided);
      forall q ensures q !in p.unansweredByBoth {
        AllAnswered(r, q);
        AllAnswered(c, q);
      }
      NoMembers(p.unansweredByBoth);
    }
  }

  lemma AllAnswered(d: Dump, q: nat)
    requires forall i | 0 <= i < |d.records| :: d.records[i].error.None?
    ensures Attempted(d, q) ==> Answered(d, q)
  {
  }

  lemma NoMembers<T(!new)>(s: seq<T>)
    ensures (forall x :: x !in s) ==> s == []
  {
    if s != [] { assert s[0] in s; }
  }

  /** The verdict: a report passes exactly when every dump is paired and every pair fully answered. */
  lemma PassedIff(report: Report, m: Matching)
    requires ReportsMatching(report, m)
    ensures Passed(report) <==>
            && m.leftReference == [] && m.leftCandidate == []
            && forall i | 0 <= i < |m.pairs| :: FullyAnswered(m.pairs[i].0.1, m.pairs[i].1.1)
    ensures Passed(report) ==> forall i | 0 <= i < |report.pairs| :: report.pairs[i].unansweredByBoth == []
  {
    SumsAreZero(report.pairs);
    assert |report.unpaired| == |m.leftReference| + |m.leftCandidate|;
    forall i | 0 <= i < |m.pairs|
      ensures Clean(report.pairs[i]) <==> FullyAnswered(m.pairs[i].0.1, m.pairs[i].1.1)
      ensures FullyAnswered(m.pairs[i].0.1, m.pairs[i].1.1) ==> report.pairs[i].unansweredByBoth == []
    {
      PairSplits(m.pairs[i].0, m.pairs[i].1);
      CleanIff(report.pairs[i], m.pairs[i].0.1, m.pairs[i].1.1);
    }
  }
}
