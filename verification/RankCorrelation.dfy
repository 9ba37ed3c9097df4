/** `top_k` and `rank_correlation` of src/compare_results.rs: Kendall tau over the ids two lists share. */
module RankCorrelation {
  import opened Outcomes
  import opened Lists
  import opened Ratios

  /** The ids both lists hold, in the order of `r`. */
  function Shared(r: seq<string>, c: seq<string>): (s: seq<string>)
    ensures forall x :: x in s <==> x in r && x in c
  {
    if r == [] then [] else
      var n := |r| - 1;
      Shared(r[..n], c) + (if r[n] in c then [r[n]] else [])
  }

  /** `a` stands before `b` in `s`. */
  predicate Before(s: seq<string>, a: string, b: string) {
    a in s && b in s && IndexOf(s, a) < IndexOf(s, b)
  }

  lemma {:induction false} SharedKeepsOrder(r: seq<string>, c: seq<string>)
    requires Distinct(r)
    ensures Distinct(Shared(r, c))
    ensures forall i, j | 0 <= i < j < |Shared(r, c)| :: Before(r, Shared(r, c)[i], Shared(r, c)[j])
  {
    if r != [] {
      var n := |r| - 1;
      var init := r[..n];
      SharedKeepsOrder(init, c);
      var s, t := Shared(r, c), Shared(init, c);
      assert r[n] !in init && IndexOf(r, r[n]) == n;
      forall i, j | 0 <= i < j < |s| ensures s[i] != s[j] && Before(r, s[i], s[j]) {
        assert t[i] in init;
        IndexInPrefix(init, r, t[i]);
        if j < |t| {
          assert t[j] in init;
          IndexInPrefix(init, r, t[j]);
          assert Before(init, t[i], t[j]);
        }
      }
    }
  }

  /** The shared ids that stand behind `x` in both lists. */
  ghost function AfterInBoth(r: seq<string>, c: seq<string>, x: string): set<string> {
    set y | y in r && Before(r, x, y) && Before(c, x, y)
  }

  ghost function Behind(r: seq<string>, c: seq<string>): string -> nat {
    x => |AfterInBoth(r, c, x)|
  }

  ghost function SumOver(s: seq<string>, f: string -> nat): nat {
    if s == [] then 0 else SumOver(s[..|s| - 1], f) + f(s[|s| - 1])
  }

  /** Concordant pairs whose first member is in `s`. */
  ghost function ConcordantFrom(s: seq<string>, r: seq<string>, c: seq<string>): nat {
    SumOver(s, Behind(r, c))
  }

  /** Pairs of positions of a list of `n` whose first member is below `i`. */
  function PairsFrom(n: nat, i: nat): nat
    requires i <= n
  {
    if i == 0 then 0 else PairsFrom(n, i - 1) + (n - i)
  }

  lemma {:induction false} PairsFromClosed(n: nat, i: nat)
    requires i <= n
    ensures 2 * PairsFrom(n, i) == i * (2 * n - i - 1)
  {
    if i > 0 {
      PairsFromClosed(n, i - 1);
      assert i * (2 * n - i - 1) == (i - 1) * (2 * n - i) + 2 * (n - i);
    }
  }

  /** All pairs of a list of `n`. */
  lemma AllPairs(n: nat)
    ensures PairsFrom(n, n) == Pairs(n) && (n >= 2 ==> PairsFrom(n, n) > 0)
  {
    PairsFromClosed(n, n);
    assert n * (2 * n - n - 1) == n * (n - 1);
    assert n >= 2 ==> n * (n - 1) > 0;
  }

  /** Kendall tau-a: concordant minus discordant pairs, over all pairs. */
  ghost function Tau(r: seq<string>, c: seq<string>): Option<real> {
    var s := Shared(r, c);
    if |s| < 2 then None else
      AllPairs(|s|);
      Some(Balance(ConcordantFrom(s, r, c), PairsFrom(|s|, |s|)))
  }

  /** `a` pairs of one kind against the rest, out of `m`. */
  function Balance(a: nat, m: nat): real
    requires m > 0
  {
    Share(2 * a - m, m)
  }

  function Share(score: int, m: nat): real
    requires m > 0
  {
    score as real / m as real
  }

  /** Pairs of a list of `n`. */
  function Pairs(n: nat): nat {
    n * (n - 1) / 2
  }

  // ----- One row of the double loop -----

  /** The ids behind position `i` of `s` and before position `j`, all of them or those also behind it in `c`. */
  ghost function Row(s: seq<string>, c: seq<string>, all: bool, i: nat, j: nat): set<string>
    requires i < j <= |s|
  {
    set b | i < b < j && (all || Before(c, s[i], s[b])) :: s[b]
  }

  lemma RowStep(s: seq<string>, c: seq<string>, all: bool, i: nat, j: nat)
    requires Distinct(s) && i < j < |s|
    ensures |Row(s, c, all, i, j + 1)| ==
            |Row(s, c, all, i, j)| + (if all || Before(c, s[i], s[j]) then 1 else 0)
  {
    var p, q := Row(s, c, all, i, j), Row(s, c, all, i, j + 1);
    assert s[j] !in p;
    assert q == if all || Before(c, s[i], s[j]) then p + {s[j]} else p;
  }

  lemma {:induction false} FullRow(s: seq<string>, c: seq<string>, i: nat, j: nat)
    requires Distinct(s) && i < j <= |s|
    ensures |Row(s, c, true, i, j)| == j - i - 1
  {
    if j == i + 1 {
      assert Row(s, c, true, i, j) == {};
    } else {
      FullRow(s, c, i, j - 1);
      RowStep(s, c, true, i, j - 1);
    }
  }

  /** Along the shared list a whole row is the concordant set of its first member. */
  lemma RowIsAfter(r: seq<string>, c: seq<string>, i: nat)
    requires Distinct(r) && i < |Shared(r, c)|
    ensures var s := Shared(r, c); Row(s, c, false, i, |s|) == AfterInBoth(r, c, s[i])
  {
    var s := Shared(r, c);
    SharedKeepsOrder(r, c);
    forall y | y in AfterInBoth(r, c, s[i]) ensures y in Row(s, c, false, i, |s|) {
      var b := IndexOf(s, y);
      assert b != i;
      assert b < i ==> Before(r, s[b], s[i]);
    }
    forall b | i < b < |s| && Before(c, s[i], s[b]) ensures s[b] in AfterInBoth(r, c, s[i]) {
      assert Before(r, s[i], s[b]);
    }
  }

  /** One more row of concordant pairs. */
  lemma ConcordantStep(s: seq<string>, r: seq<string>, c: seq<string>, i: nat)
    requires i < |s|
    ensures ConcordantFrom(s[..i + 1], r, c) == ConcordantFrom(s[..i], r, c) + |AfterInBoth(r, c, s[i])|
  {
    assert s[..i + 1][..i] == s[..i];
  }

  /** Concordant minus discordant pairs whose first member is one of the first `i` shared ids. */
  ghost function ScoreUpTo(r: seq<string>, c: seq<string>, i: nat): int
    requires i <= |Shared(r, c)|
  {
    2 * ConcordantFrom(Shared(r, c)[..i], r, c) - PairsFrom(|Shared(r, c)|, i)
  }

  lemma ScoreStep(r: seq<string>, c: seq<string>, i: nat)
    requires Distinct(r) && i < |Shared(r, c)|
    ensures var s := Shared(r, c);
            ScoreUpTo(r, c, i + 1) == ScoreUpTo(r, c, i) + 2 * |Row(s, c, false, i, |s|)| - (|s| - i - 1)
  {
    RowIsAfter(r, c, i);
    ConcordantStep(Shared(r, c), r, c, i);
  }

  lemma ScoreIsTau(r: seq<string>, c: seq<string>, n: nat)
    requires n == |Shared(r, c)| >= 2
    ensures Pairs(n) > 0 && Tau(r, c) == Some(Share(ScoreUpTo(r, c, n), Pairs(n)))
  {
    assert Shared(r, c)[..n] == Shared(r, c);
    AllPairs(n);
  }

  /** Over the first `k` distinct ids of either list. */
  method RankCorrelation(reference: seq<string>, candidate: seq<string>, k: nat)
    returns (tau: Option<real>)
    ensures var r, c := FirstDistinct(reference, k), FirstDistinct(candidate, k);
            IsFirstDistinct(r, reference, k) && IsFirstDistinct(c, candidate, k) && tau == Tau(r, c)
  {
    tau := TauOf(FirstDistinct(reference, k), FirstDistinct(candidate, k));
  }

  method TauOf(r: seq<string>, c: seq<string>) returns (tau: Option<real>)
    requires Distinct(r) && Distinct(c)
    ensures tau == Tau(r, c)
  {
    var s := Shared(r, c);
    SharedKeepsOrder(r, c);
    if |s| < 2 { return None; }
    var pos := seq(|s|, i requires 0 <= i < |s| => IndexOf(c, s[i]));
    var score := AddRows(r, c, s, pos);
    tau := Normalized(r, c, |s|, score);
  }

  /** The outer loop. */
  method AddRows(r: seq<string>, c: seq<string>, s: seq<string>, pos: seq<nat>) returns (score: int)
    requires Distinct(r) && s == Shared(r, c) && Distinct(s)
    requires |s| == |pos| && forall j | 0 <= j < |s| :: pos[j] == IndexOf(c, s[j])
    ensures score == ScoreUpTo(r, c, |s|)
  {
    score := 0;
    assert s[..0] == [];
    SharedInBoth(r, c);
    for i := 0 to |s|
      invariant score == ScoreUpTo(r, c, i)
    {
      score := AddRow(s, c, pos, i, score);
      ScoreStep(r, c, i);
    }
  }

  /** The score over the number of pairs. */
  method Normalized(r: seq<string>, c: seq<string>, n: nat, score: int) returns (tau: Option<real>)
    requires n == |Shared(r, c)| >= 2 && score == ScoreUpTo(r, c, n)
    ensures tau == Tau(r, c)
  {
    ScoreIsTau(r, c, n);
    tau := Some(Share(score, Pairs(n)));
  }

  /** The inner loop: plus one for every later id also behind `s[i]` in `c`, minus one for every other. */
  method AddRow(s: seq<string>, c: seq<string>, pos: seq<nat>, i: nat, before: int) returns (score: int)
    requires Distinct(s) && i < |s| == |pos| && forall j | 0 <= j < |s| :: s[j] in c && pos[j] == IndexOf(c, s[j])
    ensures score == before + 2 * |Row(s, c, false, i, |s|)| - (|s| - i - 1)
  {
    score := before;
    for j := i + 1 to |s|
      invariant score == before + 2 * |Row(s, c, false, i, j)| - (j - i - 1)
    {
      RowStep(s, c, false, i, j);
      score := score + (if pos[i] < pos[j] then 1 else -1);
    }
  }

  // ----- What the number means -----

  lemma AfterIsSymmetric(r: seq<string>, c: seq<string>, x: string)
    ensures AfterInBoth(r, c, x) == AfterInBoth(c, r, x)
  {
  }

  lemma {:induction false} SumOfConcat(s: seq<string>, t: seq<string>, f: string -> nat)
    ensures SumOver(s + t, f) == SumOver(s, f) + SumOver(t, f)
  {
    if t == [] {
      assert s + t == s;
    } else {
      var n := |t| - 1;
      SumOfConcat(s, t[..n], f);
      assert (s + t)[..|s| + n] == s + t[..n];
    }
  }

  lemma {:induction false} SumOfEqual(s: seq<string>, f: string -> nat, g: string -> nat)
    requires forall x :: f(x) == g(x)
    ensures SumOver(s, f) == SumOver(s, g)
  {
    if s != [] { SumOfEqual(s[..|s| - 1], f, g); }
  }

  /** A sum does not depend on the order of its terms. */
  lemma {:induction false} SumOfArrangement(s: seq<string>, t: seq<string>, f: string -> nat)
    requires multiset(s) == multiset(t)
    ensures SumOver(s, f) == SumOver(t, f)
    decreases |s|
  {
    if s == [] {
      assert |t| == |multiset(t)| == |multiset(s)| == 0;
    } else {
      var i := RemoveLast(s, t);
      var a, b := t[..i], t[i + 1..];
      SumOfConcat(a, [t[i]] + b, f);
      SumOfConcat([t[i]], b, f);
      SumOfConcat(a, b, f);
      SumOfArrangement(s[..|s| - 1], a + b, f);
    }
  }

  lemma SharedArrangement(r: seq<string>, c: seq<string>)
    requires Distinct(r) && Distinct(c)
    ensures multiset(Shared(r, c)) == multiset(Shared(c, r)) && |Shared(r, c)| == |Shared(c, r)|
  {
    var s, t := Shared(r, c), Shared(c, r);
    SharedKeepsOrder(r, c);
    SharedKeepsOrder(c, r);
    SameElementsSameMultiset(s, t);
    assert |s| == |multiset(s)| == |multiset(t)| == |t|;
  }

  /** Swapping reference and candidate does not change tau. */
  lemma TauSymmetric(r: seq<string>, c: seq<string>)
    requires Distinct(r) && Distinct(c)
    ensures Tau(r, c) == Tau(c, r)
  {
    var s, t := Shared(r, c), Shared(c, r);
    SharedArrangement(r, c);
    SumOfArrangement(s, t, Behind(r, c));
    assert forall x :: Behind(r, c)(x) == Behind(c, r)(x) by {
      forall x ensures Behind(r, c)(x) == Behind(c, r)(x) { AfterIsSymmetric(r, c, x); }
    }
    SumOfEqual(t, Behind(r, c), Behind(c, r));
  }

  ghost predicate RowKept(s: seq<string>, c: seq<string>, a: nat) {
    forall b | a < b < |s| :: Before(c, s[a], s[b])
  }

  ghost predicate RowReversed(s: seq<string>, c: seq<string>, a: nat) {
    forall b | a < b < |s| :: !Before(c, s[a], s[b])
  }

  /** Every row below `i` is kept, or reversed. */
  ghost predicate RowsKept(s: seq<string>, c: seq<string>, i: nat) {
    i == 0 || (RowsKept(s, c, i - 1) && RowKept(s, c, i - 1))
  }

  ghost predicate RowsReversed(s: seq<string>, c: seq<string>, i: nat) {
    i == 0 || (RowsReversed(s, c, i - 1) && RowReversed(s, c, i - 1))
  }

  lemma {:induction false} RowsIff(s: seq<string>, c: seq<string>, i: nat)
    ensures RowsKept(s, c, i) <==> forall a | 0 <= a < i :: RowKept(s, c, a)
    ensures RowsReversed(s, c, i) <==> forall a | 0 <= a < i :: RowReversed(s, c, a)
  {
    if i > 0 { RowsIff(s, c, i - 1); }
  }

  /** Row by row: how many pairs are concordant, and when all or none of them are. */
  lemma {:induction false} RowsBounded(r: seq<string>, c: seq<string>, i: nat)
    requires Distinct(r) && i <= |Shared(r, c)|
    ensures var s := Shared(r, c); var count := ConcordantFrom(s[..i], r, c);
            && count <= PairsFrom(|s|, i)
            && (count == PairsFrom(|s|, i) <==> RowsKept(s, c, i))
            && (count == 0 <==> RowsReversed(s, c, i))
  {
    if i > 0 {
      var s, a := Shared(r, c), i - 1;
      RowsBounded(r, c, a);
      ConcordantStep(s, r, c, a);
      RowBounded(r, c, a);
    }
  }

  lemma RowBounded(r: seq<string>, c: seq<string>, i: nat)
    requires Distinct(r) && i < |Shared(r, c)|
    ensures var s := Shared(r, c); var row := |AfterInBoth(r, c, s[i])|;
            && row <= |s| - i - 1
            && (row == |s| - i - 1 <==> RowKept(s, c, i))
            && (row == 0 <==> RowReversed(s, c, i))
  {
    var s := Shared(r, c);
    SharedKeepsOrder(r, c);
    RowIsAfter(r, c, i);
    RowSize(s, c, i);
  }

  lemma RowSize(s: seq<string>, c: seq<string>, i: nat)
    requires Distinct(s) && i < |s|
    ensures var row := |Row(s, c, false, i, |s|)|;
            && row <= |s| - i - 1
            && (row == |s| - i - 1 <==> RowKept(s, c, i))
            && (row == 0 <==> RowReversed(s, c, i))
  {
    FullRow(s, c, i, |s|);
    var all, same := Row(s, c, true, i, |s|), Row(s, c, false, i, |s|);
    SubsetSize(same, all);
    forall b | i < b < |s| ensures s[b] in all && (s[b] in same <==> Before(c, s[i], s[b])) {}
    if RowKept(s, c, i) { assert same == all; }
    if RowReversed(s, c, i) { assert same == {}; }
  }

  lemma BalanceMeaning(a: nat, m: nat)
    requires a <= m && m > 0
    ensures var t := Balance(a, m);
            -1.0 <= t <= 1.0 && (t == 1.0 <==> a == m) && (t == -1.0 <==> a == 0)
  {
    var x, y, t := (2 * a - m) as real, m as real, Balance(a, m);
    Quotient(x, y);
    Compare(t, 1.0, y, x, y);
    Compare(-1.0, t, y, -y, x);
  }

  /** The shared ids stand in `c` in the same order, or in the opposite one. */
  ghost predicate SameOrder(s: seq<string>, c: seq<string>) {
    forall a, b | 0 <= a < b < |s| :: Before(c, s[a], s[b])
  }

  ghost predicate OppositeOrder(s: seq<string>, c: seq<string>) {
    forall a, b | 0 <= a < b < |s| :: Before(c, s[b], s[a])
  }

  lemma RowsAreOrder(s: seq<string>, c: seq<string>)
    requires Distinct(s) && forall i | 0 <= i < |s| :: s[i] in c
    ensures RowsKept(s, c, |s|) <==> SameOrder(s, c)
    ensures RowsReversed(s, c, |s|) <==> OppositeOrder(s, c)
  {
    RowsIff(s, c, |s|);
    forall a, b | 0 <= a < b < |s| ensures Before(c, s[b], s[a]) <==> !Before(c, s[a], s[b]) {
      OneBeforeOther(c, s[a], s[b]);
    }
    if SameOrder(s, c) {
      forall a | 0 <= a < |s| ensures RowKept(s, c, a) {}
    } else {
      var a, b :| 0 <= a < b < |s| && !Before(c, s[a], s[b]);
      assert !RowKept(s, c, a);
    }
    if OppositeOrder(s, c) {
      forall a | 0 <= a < |s| ensures RowReversed(s, c, a) {}
    } else {
      var a, b :| 0 <= a < b < |s| && !Before(c, s[b], s[a]);
      assert !RowReversed(s, c, a);
    }
  }

  /** Tau lies in [-1, 1]: 1 exactly when the shared ids keep their order, -1 exactly when it is reversed. */
  lemma TauMeaning(r: seq<string>, c: seq<string>)
    requires Distinct(r) && |Shared(r, c)| >= 2
    ensures var t := Tau(r, c).value;
            && -1.0 <= t <= 1.0
            && (t == 1.0 <==> SameOrder(Shared(r, c), c))
            && (t == -1.0 <==> OppositeOrder(Shared(r, c), c))
  {
    var s := Shared(r, c);
    RowsBounded(r, c, |s|);
    assert s[..|s|] == s;
    AllPairs(|s|);
    BalanceMeaning(ConcordantFrom(s, r, c), PairsFrom(|s|, |s|));
    SharedKeepsOrder(r, c);
    RowsAreOrder(s, c);
  }

  lemma OneBeforeOther(c: seq<string>, x: string, y: string)
    requires x in c && y in c && x != y
    ensures Before(c, x, y) <==> !Before(c, y, x)
  {
  }

  // ----- Tau counts pairs of shared ids -----

  /** Positions behind `i` and before `j` that `ok` relates to `i`. */
  ghost function PlaceCount(ok: (nat, nat) -> bool, i: nat, j: nat): nat {
    if j <= i + 1 then 0 else PlaceCount(ok, i, j - 1) + (if ok(i, j - 1) then 1 else 0)
  }

  /** Related pairs of positions below `n` whose first member is below `i`. */
  ghost function PairsUpTo(ok: (nat, nat) -> bool, n: nat, i: nat): set<(nat, nat)> {
    set a: nat, b: nat | a < i && a < b < n && ok(a, b) :: (a, b)
  }

  ghost function PairCount(ok: (nat, nat) -> bool, n: nat, i: nat): nat {
    if i == 0 then 0 else PairCount(ok, n, i - 1) + PlaceCount(ok, i - 1, n)
  }

  ghost function RowPairs(ok: (nat, nat) -> bool, i: nat, j: nat): set<(nat, nat)> {
    set b: nat | i < b < j && ok(i, b) :: (i, b)
  }

  lemma {:induction false} RowPairsCount(ok: (nat, nat) -> bool, i: nat, j: nat)
    ensures |RowPairs(ok, i, j)| == PlaceCount(ok, i, j)
  {
    if j <= i + 1 {
      assert RowPairs(ok, i, j) == {};
    } else {
      RowPairsCount(ok, i, j - 1);
      var rest := RowPairs(ok, i, j - 1);
      assert RowPairs(ok, i, j) == if ok(i, j - 1) then rest + {(i, j - 1)} else rest;
    }
  }

  lemma {:induction false} PairsCount(ok: (nat, nat) -> bool, n: nat, i: nat)
    ensures |PairsUpTo(ok, n, i)| == PairCount(ok, n, i)
  {
    if i == 0 {
      assert PairsUpTo(ok, n, 0) == {};
    } else {
      PairsCount(ok, n, i - 1);
      RowPairsCount(ok, i - 1, n);
      var rest, row := PairsUpTo(ok, n, i - 1), RowPairs(ok, i - 1, n);
      assert PairsUpTo(ok, n, i) == rest + row && rest !! row;
    }
  }

  /** Two positions of `s` whose ids stand in `c` in the same order, or do not. */
  ghost function Alike(s: seq<string>, c: seq<string>): (nat, nat) -> bool {
    (a: nat, b: nat) => a < |s| && b < |s| && Before(c, s[a], s[b])
  }

  ghost function Unlike(s: seq<string>, c: seq<string>): (nat, nat) -> bool {
    (a: nat, b: nat) => !Alike(s, c)(a, b)
  }

  lemma {:induction false} RowCounts(s: seq<string>, c: seq<string>, i: nat, j: nat)
    requires Distinct(s) && i < j <= |s|
    ensures PlaceCount(Alike(s, c), i, j) == |Row(s, c, false, i, j)|
    ensures PlaceCount(Unlike(s, c), i, j) == j - i - 1 - |Row(s, c, false, i, j)|
  {
    if j == i + 1 {
      assert Row(s, c, false, i, j) == {};
    } else {
      RowCounts(s, c, i, j - 1);
      RowStep(s, c, false, i, j - 1);
    }
  }

  lemma {:induction false} ScoreCounts(r: seq<string>, c: seq<string>, i: nat)
    requires Distinct(r) && i <= |Shared(r, c)|
    ensures var s := Shared(r, c);
            PairCount(Alike(s, c), |s|, i) - PairCount(Unlike(s, c), |s|, i) == ScoreUpTo(r, c, i)
  {
    var s := Shared(r, c);
    if i > 0 {
      ScoreCounts(r, c, i - 1);
      ScoreStep(r, c, i - 1);
      SharedKeepsOrder(r, c);
      RowCounts(s, c, i - 1, |s|);
    } else {
      assert s[..0] == [];
    }
  }

  /** Pairs of shared ids that both lists order alike, and that they order differently. */
  ghost function Concordant(s: seq<string>, c: seq<string>): set<(nat, nat)> {
    set a: nat, b: nat | a < b < |s| && Before(c, s[a], s[b]) :: (a, b)
  }

  ghost function Discordant(s: seq<string>, c: seq<string>): set<(nat, nat)> {
    set a: nat, b: nat | a < b < |s| && Before(c, s[b], s[a]) :: (a, b)
  }

  lemma ConcordantAre(s: seq<string>, c: seq<string>)
    ensures |Concordant(s, c)| == PairCount(Alike(s, c), |s|, |s|)
  {
    assert Concordant(s, c) == PairsUpTo(Alike(s, c), |s|, |s|);
    PairsCount(Alike(s, c), |s|, |s|);
  }

  lemma DiscordantAre(s: seq<string>, c: seq<string>)
    requires Distinct(s) && forall i | 0 <= i < |s| :: s[i] in c
    ensures |Discordant(s, c)| == PairCount(Unlike(s, c), |s|, |s|)
  {
    forall a: nat, b: nat | a < b < |s| ensures Before(c, s[b], s[a]) <==> Unlike(s, c)(a, b) {
      OneBeforeOther(c, s[a], s[b]);
      assert Alike(s, c)(a, b) <==> Before(c, s[a], s[b]);
    }
    assert Discordant(s, c) == PairsUpTo(Unlike(s, c), |s|, |s|);
    PairsCount(Unlike(s, c), |s|, |s|);
  }

  lemma SharedInBoth(r: seq<string>, c: seq<string>)
    ensures forall i | 0 <= i < |Shared(r, c)| :: Shared(r, c)[i] in r && Shared(r, c)[i] in c
  {
    var s := Shared(r, c);
    forall i | 0 <= i < |s| ensures s[i] in r && s[i] in c { assert s[i] in s; }
  }

  lemma ScoreIsPairs(r: seq<string>, c: seq<string>)
    requires Distinct(r)
    ensures var s := Shared(r, c); ScoreUpTo(r, c, |s|) == |Concordant(s, c)| - |Discordant(s, c)|
  {
    var s := Shared(r, c);
    SharedKeepsOrder(r, c);
    SharedInBoth(r, c);
    ConcordantAre(s, c);
    DiscordantAre(s, c);
    ScoreCounts(r, c, |s|);
  }

  /** `t` is `d` over the number of pairs of a list of `n`. */
  ghost predicate IsOverPairs(t: Option<real>, d: int, n: nat) {
    t.Some? && Pairs(n) > 0 && t.value * Pairs(n) as real == d as real
  }

  lemma OverPairs(t: Option<real>, d: int, n: nat)
    requires Pairs(n) > 0 && t == Some(Share(d, Pairs(n)))
    ensures IsOverPairs(t, d, n)
  {
    ShareTimes(d, Pairs(n));
  }

  /** Kendall tau-a: concordant less discordant pairs of shared ids, over the number of pairs. */
  lemma TauCountsPairs(r: seq<string>, c: seq<string>)
    requires Distinct(r) && |Shared(r, c)| >= 2
    ensures var s := Shared(r, c); IsOverPairs(Tau(r, c), |Concordant(s, c)| - |Discordant(s, c)|, |s|)
  {
    var n := |Shared(r, c)|;
    ScoreIsPairs(r, c);
    ScoreIsTau(r, c, n);
    OverPairs(Tau(r, c), ScoreUpTo(r, c, n), n);
  }

  lemma ShareTimes(score: int, m: nat)
    requires m > 0
    ensures Share(score, m) * m as real == score as real
  {
    Quotient(score as real, m as real);
  }

  /** Which ids are shared: those of both lists, in the order of the first. */
  lemma SharedIs(r: seq<string>, c: seq<string>)
    requires Distinct(r)
    ensures var s := Shared(r, c);
            && Distinct(s) && (forall x :: x in s <==> x in r && x in c)
            && forall i, j | 0 <= i < j < |s| :: FirstBefore(r, s[i], s[j])
  {
    var s := Shared(r, c);
    SharedKeepsOrder(r, c);
    forall i, j | 0 <= i < j < |s| ensures FirstBefore(r, s[i], s[j]) { IndexOrder(r, s[i], s[j]); }
  }
}
