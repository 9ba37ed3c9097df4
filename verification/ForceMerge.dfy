/**
  The asynchronous force merge of src/opensearch_maintenance.rs: submit until the server hands out
  a task, then poll the task until it completes. The server is any sequence of exchanges.
 */
module ForceMerge {
  import opened Outcomes
  import opened Json

  /** Durations in nanoseconds. */
  datatype Options = Options(maxRetries: nat, retryBase: nat, pollInterval: nat)

  /** What one HTTP request met: no response, a body that could not be read, or a text that may be JSON. */
  datatype Exchange =
    | NoResponse
    | UnreadableBody(status: nat)
    | Response(status: nat, body: Option<Json>)

  const SECOND: nat := 1_000_000_000
  const DURATION_MAX: nat := 0xFFFF_FFFF_FFFF_FFFF * 1_000_000_000 + 999_999_999

  predicate IsSuccess(status: nat) { 200 <= status < 300 }

  /** Worth another attempt: lost, unreadable, or one of the four retryable statuses. */
  predicate IsTransient(x: Exchange) {
    match x
    case NoResponse => true
    case UnreadableBody(_) => true
    case Response(status, _) => status == 429 || status == 502 || status == 503 || status == 504
  }

  /** The task id a submission returned, if it returned one. */
  function TaskId(x: Exchange): Option<string> {
    if x.Response? && IsSuccess(x.status) && x.body.Some? then
      match Get(x.body.value, "task")
      case Some(Str(id)) => if id == "" then None else Some(id)
      case _ => None
    else None
  }

  // ----- The completion decision -----

  function AsU64(v: Option<Json>): Option<nat> {
    match v
    case Some(Int(n)) => if 0 <= n <= 0xFFFF_FFFF_FFFF_FFFF then Some(n) else None
    case _ => None
  }

  /** `value[key]`, with `Null` for anything missing. */
  function At(v: Json, key: string): Json {
    match Get(v, key)
    case Some(w) => w
    case None => Null
  }

  datatype TaskError = TaskFailed | IncompleteShards | NoCompletedFlag

  function TaskComplete(body: Json): (r: Result<bool, TaskError>)
    ensures r == Ok(true) <==> FullyMerged(body)
  {
    if Get(body, "error").Some? then Err(TaskFailed)
    else
      match Get(body, "completed")
      case Some(Bool(false)) => Ok(false)
      case Some(Bool(true)) =>
        var response := At(body, "response");
        var shards := At(response, "_shards");
        var total := AsU64(Get(shards, "total"));
        assert FullyMerged(body) <==> Completes(body) by { MergedIff(body); }
        if total.Some? && total.value > 0 && AsU64(Get(shards, "successful")) == total
           && AsU64(Get(shards, "failed")) == Some(0) && Get(response, "error").None?
        then Ok(true) else Err(IncompleteShards)
      case _ => Err(NoCompletedFlag)
  }

  /** The tests of the source on a completed task, in its own terms. */
  ghost predicate Completes(body: Json) {
    var response := At(body, "response");
    var shards := At(response, "_shards");
    var total := AsU64(Get(shards, "total"));
    && Get(body, "completed") == Some(Bool(true)) && Get(body, "error") == None && Get(response, "error") == None
    && total.Some? && total.value > 0 && AsU64(Get(shards, "successful")) == total
    && AsU64(Get(shards, "failed")) == Some(0)
  }

  lemma MergedIff(body: Json)
    ensures FullyMerged(body) <==> Completes(body)
  {
    var response := At(body, "response");
    var shards := At(response, "_shards");
    if Completes(body) {
      var n := AsU64(Get(shards, "total")).value;
      assert ShardsAre(shards, n);
      assert AllShards(response, n);
    }
  }

  /** The reply reports completion with every shard successful, none failed, and no error anywhere. */
  ghost predicate FullyMerged(body: Json) {
    && Get(body, "completed") == Some(Bool(true)) && Get(body, "error") == None
    && exists response, n: nat :: Get(body, "response") == Some(response) && AllShards(response, n)
  }

  /** All of `n` shards succeeded, none failed, and the response holds no error. */
  ghost predicate AllShards(response: Json, n: nat) {
    && Get(response, "error") == None && 0 < n <= 0xFFFF_FFFF_FFFF_FFFF
    && exists shards :: Get(response, "_shards") == Some(shards) && ShardsAre(shards, n)
  }

  ghost predicate ShardsAre(shards: Json, n: nat) {
    && Get(shards, "total") == Some(Int(n)) && Get(shards, "successful") == Some(Int(n))
    && Get(shards, "failed") == Some(Int(0))
  }

  // ----- One step -----

  datatype Phase = Submitting | Polling(task: string)

  datatype State = Live(phase: Phase, retries: nat) | Succeeded | Failed

  const START: State := Live(Submitting, 0)

  /** A readable 2xx answer to a poll, and what it says. */
  function PollVerdict(x: Exchange): Result<bool, ()> {
    if x.Response? && IsSuccess(x.status) && x.body.Some? then
      match TaskComplete(x.body.value)
      case Ok(b) => Ok(b)
      case Err(_) => Err(())
    else Err(())
  }

  function Step(s: State, x: Exchange, o: Options): State {
    if !s.Live? then s
    else if IsTransient(x) then
      if s.retries >= o.maxRetries then Failed else Live(s.phase, s.retries + 1)
    else if s.phase.Submitting? then
      if TaskId(x).Some? then Live(Polling(TaskId(x).value), 0) else Failed
    else
      match PollVerdict(x)
      case Ok(true) => Succeeded
      case Ok(false) => Live(s.phase, 0)
      case Err(_) => Failed
  }

  /** `retry_base * 2^min(retries, 16)`, saturating, at most 30 seconds. */
  function Delay(o: Options, retries: nat): nat {
    var raw := o.retryBase * Pow2(if retries < 16 then retries else 16);
    var capped := if raw < DURATION_MAX then raw else DURATION_MAX;
    if capped < 30 * SECOND then capped else 30 * SECOND
  }

  function Pow2(n: nat): nat { if n == 0 then 1 else 2 * Pow2(n - 1) }

  /** The sleep after an exchange, if the run goes on. */
  function Wait(s: State, x: Exchange, o: Options): seq<nat> {
    if !Step(s, x, o).Live? || !s.Live? then []
    else if IsTransient(x) then [Delay(o, s.retries)]
    else if s.phase.Submitting? then []
    else [o.pollInterval]
  }

  // ----- Whole runs -----

  function Run(xs: seq<Exchange>, o: Options): State {
    if xs == [] then START else Step(Run(xs[..|xs| - 1], o), xs[|xs| - 1], o)
  }

  function Waits(xs: seq<Exchange>, o: Options): seq<nat> {
    if xs == [] then [] else
      var n := |xs| - 1;
      Waits(xs[..n], o) + Wait(Run(xs[..n], o), xs[n], o)
  }

  method RetryWait(retries: nat, o: Options) returns (delay: Option<nat>, retries': nat)
    ensures delay == if retries < o.maxRetries then Some(Delay(o, retries)) else None
    ensures retries' == if retries < o.maxRetries then retries + 1 else retries
  {
    if retries >= o.maxRetries { return None, retries; }
    return Some(Delay(o, retries)), retries + 1;
  }

  lemma Ended(xs: seq<Exchange>, k: nat, o: Options)
    requires k <= |xs| && !Run(xs[..k], o).Live?
    ensures Run(xs, o) == Run(xs[..k], o) && Waits(xs, o) == Waits(xs[..k], o)
  {
    if k == |xs| {
      assert xs[..k] == xs;
    } else {
      var n := |xs| - 1;
      assert xs[..n][..k] == xs[..k];
      Ended(xs[..n], k, o);
    }
  }

  /** The submission loop: it leaves with a task, with a failure, or with no exchange left. */
  method Submit(xs: seq<Exchange>, o: Options) returns (s: State, k: nat, waits: seq<nat>)
    ensures k <= |xs| && s == Run(xs[..k], o) && waits == Waits(xs[..k], o)
    ensures s.Live? && s.phase.Submitting? ==> k == |xs|
    ensures s.Live? && s.phase.Polling? ==> s.retries == 0
  {
    var retries := 0;
    k, waits := 0, [];
    while k < |xs|
      invariant k <= |xs| && Run(xs[..k], o) == Live(Submitting, retries) && waits == Waits(xs[..k], o)
    {
      var x := xs[k];
      assert xs[..k + 1][..k] == xs[..k];
      k := k + 1;
      if !IsTransient(x) {
        var task := TaskId(x);
        return if task.Some? then Live(Polling(task.value), 0) else Failed, k, waits;
      }
      var delay;
      delay, retries := RetryWait(retries, o);
      if delay.None? { return Failed, k, waits; }
      waits := waits + [delay.value];
    }
    return Live(Submitting, retries), k, waits;
  }

  /** The polling loop, from exchange `from` on: a healthy unfinished poll resets the retries. */
  method Poll(xs: seq<Exchange>, o: Options, task: string, from: nat, before: seq<nat>)
    returns (s: State, waits: seq<nat>)
    requires from <= |xs| && Run(xs[..from], o) == Live(Polling(task), 0) && before == Waits(xs[..from], o)
    ensures s == Run(xs, o) && waits == Waits(xs, o)
  {
    var retries, k := 0, from;
    waits := before;
    while k < |xs|
      invariant k <= |xs| && Run(xs[..k], o) == Live(Polling(task), retries) && waits == Waits(xs[..k], o)
    {
      var x := xs[k];
      assert xs[..k + 1][..k] == xs[..k];
      k := k + 1;
      if IsTransient(x) {
        var delay;
        delay, retries := RetryWait(retries, o);
        if delay.None? {
          Ended(xs, k, o);
          return Failed, waits;
        }
        waits := waits + [delay.value];
      } else {
        var verdict := PollVerdict(x);
        if verdict != Ok(false) {
          Ended(xs, k, o);
          return if verdict == Ok(true) then Succeeded else Failed, waits;
        }
        retries := 0;
        waits := waits + [o.pollInterval];
      }
    }
    assert xs[..k] == xs;
    return Live(Polling(task), retries), waits;
  }

  /** `merge_task`, run against the exchanges the server produced so far. */
  method MergeTask(xs: seq<Exchange>, o: Options) returns (s: State, waits: seq<nat>)
    ensures s == Run(xs, o) && waits == Waits(xs, o)
  {
    var k;
    s, k, waits := Submit(xs, o);
    if s.Live? && s.phase.Polling? {
      s, waits := Poll(xs, o, s.phase.task, k, waits);
    } else if s.Live? {
      assert xs[..k] == xs;
    } else {
      Ended(xs, k, o);
    }
  }

  // ----- What every exchange does to a run -----

  /** The transient failures: no response, a body that cannot be read, and statuses 429, 502, 503 and 504. */
  ghost predicate Transient(x: Exchange) {
    x.NoResponse? || x.UnreadableBody? || (x.Response? && x.status in {429, 502, 503, 504})
  }

  /** A 2xx reply whose body is JSON. */
  ghost predicate Reply(x: Exchange, body: Json) {
    x.Response? && 200 <= x.status <= 299 && x.body == Some(body)
  }

  lemma RunSnoc(xs: seq<Exchange>, x: Exchange, o: Options)
    ensures Run(xs + [x], o) == Step(Run(xs, o), x, o)
    ensures Waits(xs + [x], o) == Waits(xs, o) + Wait(Run(xs, o), x, o)
  {
    assert (xs + [x])[..|xs|] == xs;
  }

  /** A run starts by submitting, with no retry used; and once it has ended nothing changes it. */
  lemma RunStartsAndEnds(xs: seq<Exchange>, x: Exchange, o: Options)
    ensures Run([], o) == Live(Submitting, 0) && Waits([], o) == []
    ensures !Run(xs, o).Live? ==> Run(xs + [x], o) == Run(xs, o) && Waits(xs + [x], o) == Waits(xs, o)
  {
    RunSnoc(xs, x, o);
  }

  /** A transient failure uses one retry and waits, or ends a run that has none left. */
  lemma AfterTransient(xs: seq<Exchange>, x: Exchange, o: Options)
    requires Run(xs, o).Live? && Transient(x)
    ensures var s, t := Run(xs, o), Run(xs + [x], o);
            if s.retries < o.maxRetries
            then t == Live(s.phase, s.retries + 1) && Waits(xs + [x], o) == Waits(xs, o) + [Delay(o, s.retries)]
            else t == Failed && Waits(xs + [x], o) == Waits(xs, o)
  {
    RunSnoc(xs, x, o);
  }

  /**
    A submission that is answered otherwise starts polling if and only if a 2xx reply carries a nonempty
    string `task`, at once and with the counter at zero; everything else fails.
   */
  lemma AfterSubmission(xs: seq<Exchange>, x: Exchange, o: Options)
    requires Run(xs, o).Live? && Run(xs, o).phase.Submitting? && !Transient(x)
    ensures var t := Run(xs + [x], o);
            && (forall id :: t == Live(Polling(id), 0) <==>
                  id != "" && exists body :: Reply(x, body) && Get(body, "task") == Some(Str(id)))
            && (t == Failed <==> !exists body, id :: Reply(x, body) && Get(body, "task") == Some(Str(id)) && id != "")
            && Waits(xs + [x], o) == Waits(xs, o)
  {
    RunSnoc(xs, x, o);
    if x.Response? && x.body.Some? && 200 <= x.status <= 299 {
      assert Reply(x, x.body.value);
    }
  }

  /** The reply says that the task is not finished, and reports no error. */
  ghost predicate StillRunning(body: Json) {
    Get(body, "error") == None && Get(body, "completed") == Some(Bool(false))
  }

  /**
    A poll that is answered otherwise succeeds if and only if the reply reports the merge complete; goes
    on, with the counter back at zero and after one poll interval, if and only if it says that the task is
    still running; and fails in every other case.
   */
  lemma AfterPoll(xs: seq<Exchange>, x: Exchange, o: Options)
    requires Run(xs, o).Live? && Run(xs, o).phase.Polling? && !Transient(x)
    ensures var s, t := Run(xs, o), Run(xs + [x], o);
            && (t == Succeeded <==> exists body :: Reply(x, body) && FullyMerged(body))
            && (t == Live(s.phase, 0) <==> exists body :: Reply(x, body) && StillRunning(body))
            && (t == Succeeded || t == Live(s.phase, 0) || t == Failed)
            && Waits(xs + [x], o) == Waits(xs, o) + (if t.Live? then [o.pollInterval] else [])
  {
    RunSnoc(xs, x, o);
    if x.Response? && x.body.Some? && 200 <= x.status <= 299 {
      assert Reply(x, x.body.value);
    }
  }

  // ----- Safety over whole runs -----

  /** Every exchange of `xs[i..j]` was a transient failure. */
  ghost predicate Outage(xs: seq<Exchange>, i: nat, j: nat) {
    i <= j <= |xs| && forall m | i <= m < j :: IsTransient(xs[m])
  }

  /** The length of the outage that ends the run so far. */
  ghost function Trailing(xs: seq<Exchange>): nat {
    if xs == [] || !IsTransient(xs[|xs| - 1]) then 0 else Trailing(xs[..|xs| - 1]) + 1
  }

  /** While the run is live its retry counter is exactly the length of the current outage. */
  lemma {:induction false} RetriesCountTheOutage(xs: seq<Exchange>, o: Options)
    requires Run(xs, o).Live?
    ensures Run(xs, o).retries == Trailing(xs) <= o.maxRetries
  {
    if xs != [] { RetriesCountTheOutage(xs[..|xs| - 1], o); }
  }

  lemma {:induction false} OutageWithinTrailing(xs: seq<Exchange>, i: nat)
    requires Outage(xs, i, |xs|)
    ensures |xs| - i <= Trailing(xs)
  {
    if i < |xs| {
      var n := |xs| - 1;
      assert forall m | i <= m < n :: xs[..n][m] == xs[m];
      OutageWithinTrailing(xs[..n], i);
    }
  }

  /** No live run has seen more than `max_retries` consecutive transient failures. */
  lemma {:induction false} OutagesAreBounded(xs: seq<Exchange>, o: Options, i: nat, j: nat)
    requires Run(xs, o).Live? && Outage(xs, i, j)
    ensures j - i <= o.maxRetries
  {
    if j == |xs| {
      OutageWithinTrailing(xs, i);
      RetriesCountTheOutage(xs, o);
    } else {
      var n := |xs| - 1;
      assert forall m | i <= m < j :: xs[..n][m] == xs[m];
      OutagesAreBounded(xs[..n], o, i, j);
    }
  }

  /** One more transient failure ends the run exactly when the outage has used up the retries. */
  lemma GivesUpIff(xs: seq<Exchange>, x: Exchange, o: Options)
    requires Run(xs, o).Live? && IsTransient(x)
    ensures Run(xs + [x], o) == Failed <==> Trailing(xs) == o.maxRetries
  {
    assert (xs + [x])[..|xs|] == xs;
    RetriesCountTheOutage(xs, o);
  }

  lemma {:induction false} PollingHasTask(xs: seq<Exchange>, o: Options) returns (i: nat)
    requires Run(xs, o).Live? && Run(xs, o).phase.Polling?
    ensures i < |xs| && TaskId(xs[i]) == Some(Run(xs, o).phase.task)
    ensures Outage(xs, 0, i)
  {
    var n := |xs| - 1;
    var init := xs[..n];
    if Run(init, o).phase.Polling? {
      i := PollingHasTask(init, o);
      assert forall m | 0 <= m <= i :: init[m] == xs[m];
    } else {
      i := n;
      SubmittingIsOutage(init, o);
      assert forall m | 0 <= m < n :: init[m] == xs[m];
    }
  }

  lemma {:induction false} SubmittingIsOutage(xs: seq<Exchange>, o: Options)
    requires Run(xs, o).Live? && Run(xs, o).phase.Submitting?
    ensures Outage(xs, 0, |xs|)
  {
    if xs != [] {
      var n := |xs| - 1;
      SubmittingIsOutage(xs[..n], o);
      assert forall m | 0 <= m < n :: xs[..n][m] == xs[m];
    }
  }

  /**
    Success needs a task id, obtained after transient failures only, and a later reply that reports
    every shard merged.
   */
  lemma {:induction false} SuccessMeansMerged(xs: seq<Exchange>, o: Options) returns (i: nat, j: nat)
    requires Run(xs, o) == Succeeded
    ensures i < j < |xs| && TaskId(xs[i]).Some? && Outage(xs, 0, i)
    ensures xs[j].Response? && IsSuccess(xs[j].status) && xs[j].body.Some? && FullyMerged(xs[j].body.value)
    ensures Run(xs[..j], o).Live? && Run(xs[..j], o).phase == Polling(TaskId(xs[i]).value)
  {
    var n := |xs| - 1;
    var init := xs[..n];
    if Run(init, o) == Succeeded {
      i, j := SuccessMeansMerged(init, o);
      assert init[..j] == xs[..j];
      assert forall m | 0 <= m <= j :: init[m] == xs[m];
    } else {
      i := PollingHasTask(init, o);
      j := n;
      assert forall m | 0 <= m <= i :: init[m] == xs[m];
    }
  }

  // ----- Delays -----

  lemma {:induction false} Pow2Monotone(m: nat, n: nat)
    requires m <= n
    ensures Pow2(m) <= Pow2(n)
  {
    if m < n { Pow2Monotone(m, n - 1); }
  }

  /** A delay never exceeds 30 seconds and never shrinks as the outage goes on. */
  lemma DelayIsCappedAndMonotone(o: Options, r: nat, s: nat)
    requires r <= s
    ensures Delay(o, r) <= Delay(o, s) <= 30 * SECOND
  {
    var a, b := if r < 16 then r else 16, if s < 16 then s else 16;
    Pow2Monotone(a, b);
    Scale(o.retryBase, Pow2(a), Pow2(b));
  }

  lemma Scale(x: nat, a: nat, b: nat)
    requires a <= b
    ensures x * a <= x * b
  {
  }

  /** The backoff: the base, doubled by each further failure up to the sixteenth, never above 30 seconds. */
  lemma DelayDoubles(o: Options, r: nat)
    ensures Delay(o, 0) == if o.retryBase < 30 * SECOND then o.retryBase else 30 * SECOND
    ensures r < 16 ==> Delay(o, r + 1) == if 2 * Delay(o, r) < 30 * SECOND then 2 * Delay(o, r) else 30 * SECOND
    ensures r >= 16 ==> Delay(o, r) == Delay(o, 16)
  {
    assert Pow2(0) == 1 && o.retryBase * Pow2(0) == o.retryBase;
    if r < 16 {
      assert o.retryBase * Pow2(r + 1) == 2 * (o.retryBase * Pow2(r));
    }
  }

  /** The wait after exchange `m` of a live run. */
  ghost function WaitAfter(xs: seq<Exchange>, m: nat, o: Options): seq<nat>
    requires m < |xs|
  {
    Wait(Run(xs[..m], o), xs[m], o)
  }

  lemma {:induction false} LivePrefix(xs: seq<Exchange>, m: nat, o: Options)
    requires Run(xs, o).Live? && m <= |xs|
    ensures Run(xs[..m], o).Live?
  {
    if m < |xs| {
      assert xs[..|xs| - 1][..m] == xs[..m];
      LivePrefix(xs[..|xs| - 1], m, o);
    } else {
      assert xs[..m] == xs;
    }
  }

  lemma {:induction false} TrailingGrows(xs: seq<Exchange>, a: nat, b: nat)
    requires a <= b <= |xs| && Outage(xs, a, b)
    ensures Trailing(xs[..a]) <= Trailing(xs[..b])
  {
    if a < b {
      TrailingGrows(xs, a, b - 1);
      assert xs[..b][..b - 1] == xs[..b - 1];
    }
  }

  /** Within one outage of a live run the delays are capped and never decrease. */
  lemma OutageDelays(xs: seq<Exchange>, o: Options, a: nat, b: nat)
    requires Run(xs, o).Live? && a <= b < |xs| && Outage(xs, a, b + 1)
    ensures |WaitAfter(xs, a, o)| == 1 && |WaitAfter(xs, b, o)| == 1
    ensures WaitAfter(xs, a, o)[0] <= WaitAfter(xs, b, o)[0] <= 30 * SECOND
  {
    forall m | m == a || m == b
      ensures WaitAfter(xs, m, o) == [Delay(o, Trailing(xs[..m]))]
    {
      LivePrefix(xs, m, o);
      LivePrefix(xs, m + 1, o);
      assert xs[..m + 1][..m] == xs[..m];
      RetriesCountTheOutage(xs[..m], o);
    }
    TrailingGrows(xs, a, b);
    DelayIsCappedAndMonotone(o, Trailing(xs[..a]), Trailing(xs[..b]));
  }
}
