/** The indexing wait of src/indexing_wait.rs: how long transient errors are retried. */
module OutageWindow {
  import opened Outcomes

  /** Instants and durations in nanoseconds. */
  const SECOND: nat := 1_000_000_000
  const RECONNECT_WINDOW: nat := 120 * SECOND

  function SaturatingSince(now: nat, earlier: nat): (d: nat)
    ensures earlier + d == now || (d == 0 && now < earlier)
  {
    if now >= earlier then now - earlier else 0
  }

  datatype GiveUp = WindowExceeded | BudgetSpent

  /** What has happened to one wait: polls that answered, and transient errors with their times. */
  datatype Event = Success | Transient(at: nat)

  /** When the current outage started, computed event by event. */
  function OutageStart(h: seq<Event>): Option<nat> {
    if h == [] then None else
      match h[|h| - 1]
      case Success => None
      case Transient(at) =>
        var since := OutageStart(h[..|h| - 1]);
        if since.Some? then since else Some(at)
  }

  /** The decision on a transient error at `now`, given the events before it. */
  function Decision(h: seq<Event>, start: nat, now: nat, budget: nat): Result<nat, GiveUp> {
    var outage := SaturatingSince(now, OutageStart(h + [Transient(now)]).value);
    if outage > RECONNECT_WINDOW then Err(WindowExceeded)
    else if SaturatingSince(now, start) >= budget then Err(BudgetSpent)
    else Ok(outage)
  }

  class TransientRetry {
    const budget: nat
    var outageSince: Option<nat>
    ghost var history: seq<Event>

    ghost predicate Valid()
      reads this
    {
      outageSince == OutageStart(history)
    }

    constructor (budget: nat)
      ensures Valid() && history == [] && this.budget == budget
    {
      this.budget, outageSince, history := budget, None, [];
    }

    method OnSuccess()
      requires Valid()
      modifies this
      ensures Valid() && history == old(history) + [Success] && outageSince == None
    {
      outageSince := None;
      history := history + [Success];
    }

    method OnTransient(start: nat, now: nat) returns (r: Result<nat, GiveUp>)
      requires Valid()
      modifies this
      ensures Valid() && history == old(history) + [Transient(now)]
      ensures r == Decision(old(history), start, now, budget)
    {
      if outageSince.None? { outageSince := Some(now); }
      assert (history + [Transient(now)])[..|history|] == history;
      history := history + [Transient(now)];
      var outage := SaturatingSince(now, outageSince.value);
      if outage > RECONNECT_WINDOW { return Err(WindowExceeded); }
      if SaturatingSince(now, start) >= budget { return Err(BudgetSpent); }
      return Ok(outage);
    }
  }

  // ----- Over whole histories -----

  /** Event `i` is the first failure after the last success. */
  ghost predicate FirstFailure(h: seq<Event>, i: nat) {
    && i < |h| && (forall j | i <= j < |h| :: h[j].Transient?)
    && (i > 0 ==> h[i - 1].Success?)
  }

  lemma {:induction false} OutageStartIsFirstFailure(h: seq<Event>, i: nat)
    requires FirstFailure(h, i)
    ensures OutageStart(h) == Some(h[i].at)
  {
    var n := |h| - 1;
    if i < n {
      assert FirstFailure(h[..n], i);
      OutageStartIsFirstFailure(h[..n], i);
    } else if n > 0 {
      assert h[..n][n - 1].Success?;
    }
  }

  lemma {:induction false} SomeFirstFailure(h: seq<Event>) returns (i: nat)
    requires h != [] && h[|h| - 1].Transient?
    ensures FirstFailure(h, i)
  {
    var n := |h| - 1;
    if n > 0 && h[n - 1].Transient? {
      i := SomeFirstFailure(h[..n]);
      assert forall j | i <= j < n :: h[j] == h[..n][j];
      assert i > 0 ==> h[i - 1] == h[..n][i - 1];
    } else {
      i := n;
    }
  }

  /** The clock never runs backwards, and the wait started before every error. */
  ghost predicate Ordered(h: seq<Event>, start: nat) {
    && (forall i | 0 <= i < |h| && h[i].Transient? :: start <= h[i].at)
    && (forall i, j | 0 <= i < j < |h| && h[i].Transient? && h[j].Transient? :: h[i].at <= h[j].at)
  }

  /**
    For every history with a non-decreasing clock: a retry is granted exactly when the time since
    the first failure after the last success is within the window and the wait is inside its budget,
    and it then reports that time.
   */
  lemma RetryIff(h: seq<Event>, start: nat, now: nat, budget: nat, i: nat)
    requires Ordered(h + [Transient(now)], start) && FirstFailure(h + [Transient(now)], i)
    ensures var outage := now - (h + [Transient(now)])[i].at;
            var d := Decision(h, start, now, budget);
            && 0 <= outage
            && (d.Ok? <==> outage <= RECONNECT_WINDOW && now - start < budget)
            && (d.Ok? ==> d.value == outage)
            && (d == Err(WindowExceeded) <==> outage > RECONNECT_WINDOW)
  {
    var g := h + [Transient(now)];
    assert g[|h|] == Transient(now);
    OutageStartIsFirstFailure(g, i);
  }
}
