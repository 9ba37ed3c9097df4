/** Lists without repetition: first-occurrence deduplication, positions, and counting. */
module Lists {

  function Min(a: nat, b: nat): nat { if a <= b then a else b }

  ghost predicate Distinct<T>(s: seq<T>) {
    forall i, j | 0 <= i < j < |s| :: s[i] != s[j]
  }

  /** The first occurrence of every element, in order (`filter(|x| seen.insert(x))`). */
  function Dedup<T(==)>(s: seq<T>): (d: seq<T>)
    ensures Distinct(d)
    ensures (forall x | x in d :: x in s) && (forall x | x in s :: x in d)
    ensures |d| <= |s|
  {
    if s == [] then [] else
      var n := |s| - 1;
      var d := Dedup(s[..n]);
      assert s == s[..n] + [s[n]];
      if s[n] in d then d else d + [s[n]]
  }

  function Take<T>(s: seq<T>, k: nat): (r: seq<T>)
    ensures r <= s && |r| == if k <= |s| then k else |s|
  {
    if k <= |s| then s[..k] else s
  }

  lemma {:induction false} DedupOfDistinct<T>(s: seq<T>)
    requires Distinct(s)
    ensures Dedup(s) == s
  {
    if s != [] {
      var n := |s| - 1;
      DedupOfDistinct(s[..n]);
      assert s == s[..n] + [s[n]];
    }
  }

  /** One more element of a list being deduplicated. */
  lemma DedupStep<T>(s: seq<T>, n: nat)
    requires n < |s|
    ensures Dedup(s[..n + 1]) == if s[n] in s[..n] then Dedup(s[..n]) else Dedup(s[..n]) + [s[n]]
  {
    assert s[..n + 1][..n] == s[..n];
  }

  /** The position of `x` in a list that holds it. */
  function IndexOf<T(==)>(s: seq<T>, x: T): (i: nat)
    requires x in s
    ensures i < |s| && s[i] == x
    ensures forall j | 0 <= j < i :: s[j] != x
  {
    if s[0] == x then 0 else 1 + IndexOf(s[1..], x)
  }

  lemma IndexInPrefix<T>(s: seq<T>, t: seq<T>, x: T)
    requires s <= t && x in s
    ensures x in t && IndexOf(t, x) == IndexOf(s, x)
  {
    assert s[IndexOf(s, x)] == t[IndexOf(s, x)];
    assert IndexOf(t, x) <= IndexOf(s, x);
    assert s[IndexOf(t, x)] == t[IndexOf(t, x)];
  }

  lemma DistinctSize<T>(s: seq<T>)
    requires Distinct(s)
    ensures |Elements(s)| == |s|
  {
    if s != [] {
      var n := |s| - 1;
      DistinctSize(s[..n]);
      assert Elements(s) == Elements(s[..n]) + {s[n]};
    }
  }

  ghost function Elements<T>(s: seq<T>): set<T> {
    set x | x in s
  }

  /** Distinct lists with the same elements are arrangements of each other. */
  lemma SameElementsSameMultiset<T>(a: seq<T>, b: seq<T>)
    requires Distinct(a) && Distinct(b) && forall x :: x in a <==> x in b
    ensures multiset(a) == multiset(b)
  {
    forall x ensures multiset(a)[x] == multiset(b)[x] {
      OccursOnce(a, x);
      OccursOnce(b, x);
    }
  }

  lemma {:induction false} OccursOnce<T>(s: seq<T>, x: T)
    requires Distinct(s)
    ensures multiset(s)[x] == if x in s then 1 else 0
  {
    if s != [] {
      var n := |s| - 1;
      OccursOnce(s[..n], x);
      assert s == s[..n] + [s[n]];
    }
  }

  lemma ArrangementIsDistinct<T>(a: seq<T>, b: seq<T>)
    requires Distinct(a) && multiset(a) == multiset(b)
    ensures Distinct(b) && forall x :: x in a <==> x in b
  {
    forall x ensures x in a <==> x in b {
      assert x in multiset(a) <==> x in multiset(b);
    }
    forall i, j | 0 <= i < j < |b| ensures b[i] != b[j] {
      if b[i] == b[j] {
        OccursOnce(a, b[i]);
        OccursTwice(b, i, j);
        assert false;
      }
    }
  }

  /** Taking the last element of `s` out of an arrangement of `s`. */
  lemma RemoveLast<T>(s: seq<T>, t: seq<T>) returns (i: nat)
    requires s != [] && multiset(s) == multiset(t)
    ensures i < |t| && t[i] == s[|s| - 1]
    ensures t == t[..i] + ([t[i]] + t[i + 1..])
    ensures multiset(t[..i] + t[i + 1..]) == multiset(s[..|s| - 1])
  {
    var n := |s| - 1;
    assert s == s[..n] + [s[n]];
    assert s[n] in multiset(t);
    i := IndexOf(t, s[n]);
    assert t == t[..i] + ([t[i]] + t[i + 1..]);
    assert multiset(t[..i] + t[i + 1..]) == multiset(t) - multiset{s[n]};
    assert multiset(s[..n]) == multiset(s) - multiset{s[n]};
  }

  lemma OccursTwice<T>(s: seq<T>, i: nat, j: nat)
    requires i < j < |s| && s[i] == s[j]
    ensures multiset(s)[s[i]] >= 2
  {
    var a, b := s[..j], s[j..];
    assert s == a + b && a[i] == s[i] && b[0] == s[i];
    assert s[i] in multiset(a) && s[i] in multiset(b);
  }

  /** How many entries of `s` lie in `keep`. */
  ghost function CountIn<T>(s: seq<T>, keep: set<T>): (n: nat)
    ensures n <= |s|
  {
    if s == [] then 0 else CountIn(s[..|s| - 1], keep) + (if s[|s| - 1] in keep then 1 else 0)
  }

  /** Over a distinct list this is the size of an intersection. */
  lemma {:induction false} CountIsIntersection<T>(s: seq<T>, keep: set<T>)
    requires Distinct(s)
    ensures CountIn(s, keep) == |Elements(s) * keep|
  {
    if s == [] {
      assert Elements(s) * keep == {};
    } else {
      var n := |s| - 1;
      CountIsIntersection(s[..n], keep);
      IntersectionStep(s, n, keep);
    }
  }

  lemma IntersectionStep<T>(s: seq<T>, n: nat, keep: set<T>)
    requires Distinct(s) && |s| == n + 1
    ensures |Elements(s) * keep| == |Elements(s[..n]) * keep| + (if s[n] in keep then 1 else 0)
  {
    var a, b := Elements(s[..n]) * keep, Elements(s) * keep;
    assert s == s[..n] + [s[n]];
    if s[n] in keep {
      assert b == a + {s[n]} && s[n] !in a;
    } else {
      assert b == a;
    }
  }

  /** Whichever element an unordered collection yields next. */
  method AnyOf<T(==)>(s: set<T>) returns (x: T)
    requires s != {}
    ensures x in s
  {
    x :| x in s;
  }

  lemma SubsetSize<T>(a: set<T>, b: set<T>)
    requires a <= b
    ensures |a| <= |b|
    ensures |a| == |b| ==> a == b
  {
    assert b == a + (b - a);
  }

  // ----- The first `k` distinct elements -----

  /** `x` occurs in `s`, first at position `i`. */
  ghost predicate FirstAt<T>(s: seq<T>, x: T, i: nat) {
    i < |s| && s[i] == x && forall j | 0 <= j < i :: s[j] != x
  }

  /** `x` occurs in `s` before `y` does. */
  ghost predicate FirstBefore<T>(s: seq<T>, x: T, y: T) {
    exists i, j :: i < j && FirstAt(s, x, i) && FirstAt(s, y, j)
  }

  /**
    `p` holds the first `k` distinct elements of `s` in the order of their first occurrence: one is
    left out only when `k` others occur before it.
   */
  ghost predicate IsFirstDistinct<T(!new)>(p: seq<T>, s: seq<T>, k: nat) {
    && Distinct(p) && |p| <= k && (forall x | x in p :: x in s)
    && (forall i, j | 0 <= i < j < |p| :: FirstBefore(s, p[i], p[j]))
    && (forall x | x in s && x !in p :: |p| == k && forall y | y in p :: FirstBefore(s, y, x))
  }

  lemma IndexIsFirst<T>(s: seq<T>, x: T)
    requires x in s
    ensures FirstAt(s, x, IndexOf(s, x))
  {
  }

  lemma IndexOrder<T>(s: seq<T>, x: T, y: T)
    requires x in s && y in s && IndexOf(s, x) < IndexOf(s, y)
    ensures FirstBefore(s, x, y)
  {
    IndexIsFirst(s, x);
    IndexIsFirst(s, y);
  }

  lemma {:induction false} DedupInOrder<T(!new)>(s: seq<T>)
    ensures forall i, j | 0 <= i < j < |Dedup(s)| :: IndexOf(s, Dedup(s)[i]) < IndexOf(s, Dedup(s)[j])
  {
    if s != [] {
      var n := |s| - 1;
      var init, d, e := s[..n], Dedup(s[..n]), Dedup(s);
      DedupInOrder(init);
      assert s == init + [s[n]];
      forall i, j | 0 <= i < j < |e| ensures IndexOf(s, e[i]) < IndexOf(s, e[j]) {
        assert d[i] in d && d[i] in init;
        IndexInPrefix(init, s, d[i]);
        if j < |d| {
          assert d[j] in d && d[j] in init;
          IndexInPrefix(init, s, d[j]);
        } else {
          assert e[j] == s[n] && s[n] !in init;
        }
      }
    }
  }

  /** `filter(|x| seen.insert(x)).take(k)`. */
  function FirstDistinct<T(!new,==)>(s: seq<T>, k: nat): (p: seq<T>)
    ensures IsFirstDistinct(p, s, k)
  {
    FirstDistinctIs(s, k);
    Take(Dedup(s), k)
  }

  lemma FirstDistinctIs<T(!new)>(s: seq<T>, k: nat)
    ensures IsFirstDistinct(Take(Dedup(s), k), s, k)
  {
    var d, p := Dedup(s), Take(Dedup(s), k);
    DedupInOrder(s);
    forall x | x in p ensures x in s { assert x in d; }
    forall i, j | 0 <= i < j < |p| ensures FirstBefore(s, p[i], p[j]) {
      assert p[i] == d[i] && p[j] == d[j] && d[i] in d && d[j] in d;
      IndexOrder(s, d[i], d[j]);
    }
    forall x | x in s && x !in p ensures |p| == k && forall y | y in p :: FirstBefore(s, y, x) {
      var j := IndexOf(d, x);
      assert j >= |p|;
      forall y | y in p ensures FirstBefore(s, y, x) {
        var i := IndexOf(p, y);
        assert d[i] == y && d[j] == x && i < j && y in d;
        IndexOrder(s, y, x);
      }
    }
  }

  /** A distinct list that is short enough is its own first `k`. */
  lemma FirstOfDistinct<T(!new)>(s: seq<T>, k: nat)
    requires Distinct(s) && |s| <= k
    ensures FirstDistinct(s, k) == s
  {
    DedupOfDistinct(s);
  }

  /** The place of an element among the distinct ones is the number of different elements before it. */
  lemma {:induction false} PlaceAmongDistinct<T>(s: seq<T>, i: nat)
    requires i < |s| && FirstAt(s, s[i], i)
    ensures s[i] in Dedup(s) && IndexOf(Dedup(s), s[i]) == |Elements(s[..i])|
    decreases |s|
  {
    var n := |s| - 1;
    var init := s[..n];
    if i < n {
      assert init[i] == s[i] && init[..i] == s[..i];
      PlaceAmongDistinct(init, i);
      assert s == init + [s[n]];
      IndexInPrefix(Dedup(init), Dedup(s), s[i]);
    } else {
      assert s[n] !in init;
      DistinctSize(Dedup(init));
      assert Elements(Dedup(init)) == Elements(init);
    }
  }
}
