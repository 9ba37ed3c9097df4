/**
  And/or trees over an arbitrary kind of leaf. `RNode` and `Predicate` in src/hybrid.rs are both
  such trees and are flattened by the same steps, so the tree and `Flatten` are defined once.
 */
module FilterTree {

  datatype Tree<L> =
    | And(children: seq<Tree<L>>)
    | Or(children: seq<Tree<L>>)
    | Leaf(leaf: L)

  /** What a tree selects, given what each leaf selects. */
  predicate Eval<L>(t: Tree<L>, sat: L -> bool) {
    match t
    case And(c) => forall i | 0 <= i < |c| :: Eval(c[i], sat)
    case Or(c) => exists i | 0 <= i < |c| :: Eval(c[i], sat)
    case Leaf(l) => sat(l)
  }

  /** Every leaf, left to right (`leaves` in src/hybrid.rs). */
  function Leaves<L>(t: Tree<L>): seq<L>
    decreases t, 1
  {
    match t
    case And(c) => LeavesOf(c)
    case Or(c) => LeavesOf(c)
    case Leaf(l) => [l]
  }

  function LeavesOf<L>(c: seq<Tree<L>>): seq<L>
    decreases c, 0
  {
    if c == [] then [] else Leaves(c[0]) + LeavesOf(c[1..])
  }

  /** The children a flattened child contributes to a group of kind `inAnd`. */
  function Splice<L>(k: Tree<L>, inAnd: bool): seq<Tree<L>> {
    if (inAnd && k.And?) || (!inAnd && k.Or?) then k.children else [k]
  }

  /** Collapse one-child groups and groups nested in a group of the same kind. */
  function Flatten<L>(t: Tree<L>): Tree<L>
    decreases t, 1
  {
    match t
    case And(c) => if |c| == 1 then Flatten(c[0]) else And(FlattenAll(c, true))
    case Or(c) => if |c| == 1 then Flatten(c[0]) else Or(FlattenAll(c, false))
    case Leaf(_) => t
  }

  function FlattenAll<L>(c: seq<Tree<L>>, inAnd: bool): seq<Tree<L>>
    decreases c, 0
  {
    if c == [] then [] else Splice(Flatten(c[0]), inAnd) + FlattenAll(c[1..], inAnd)
  }

  /** No group of the tree is empty. */
  ghost predicate NoEmptyGroup<L>(t: Tree<L>) {
    match t
    case And(c) => c != [] && forall i | 0 <= i < |c| :: NoEmptyGroup(c[i])
    case Or(c) => c != [] && forall i | 0 <= i < |c| :: NoEmptyGroup(c[i])
    case Leaf(_) => true
  }

  /** No group has fewer than two children, and none sits directly in a group of its own kind. */
  ghost predicate Normal<L>(t: Tree<L>) {
    match t
    case And(c) => |c| >= 2 && forall i | 0 <= i < |c| :: Normal(c[i]) && !c[i].And?
    case Or(c) => |c| >= 2 && forall i | 0 <= i < |c| :: Normal(c[i]) && !c[i].Or?
    case Leaf(_) => true
  }

  predicate AllHold<L>(c: seq<Tree<L>>, sat: L -> bool) {
    forall i | 0 <= i < |c| :: Eval(c[i], sat)
  }

  predicate AnyHolds<L>(c: seq<Tree<L>>, sat: L -> bool) {
    exists i | 0 <= i < |c| :: Eval(c[i], sat)
  }

  lemma HoldsOfConcat<L>(a: seq<Tree<L>>, b: seq<Tree<L>>, sat: L -> bool)
    ensures AllHold(a + b, sat) <==> AllHold(a, sat) && AllHold(b, sat)
    ensures AnyHolds(a + b, sat) <==> AnyHolds(a, sat) || AnyHolds(b, sat)
  {
    var c := a + b;
    assert forall i | 0 <= i < |a| :: a[i] == c[i];
    assert forall i | 0 <= i < |b| :: b[i] == c[|a| + i];
  }

  /** `Flatten` never changes what a tree selects, empty groups included. */
  lemma {:induction false} FlattenPreservesMeaning<L>(t: Tree<L>, sat: L -> bool)
    ensures Eval(Flatten(t), sat) == Eval(t, sat)
    decreases t, 1
  {
    match t
    case Leaf(_) =>
    case And(c) =>
      if |c| == 1 {
        FlattenPreservesMeaning(c[0], sat);
      } else {
        FlattenAllPreservesMeaning(c, true, sat);
        assert Eval(t, sat) == AllHold(c, sat);
      }
    case Or(c) =>
      if |c| == 1 {
        FlattenPreservesMeaning(c[0], sat);
      } else {
        FlattenAllPreservesMeaning(c, false, sat);
        assert Eval(t, sat) == AnyHolds(c, sat);
      }
  }

  lemma {:induction false} FlattenAllPreservesMeaning<L>(c: seq<Tree<L>>, inAnd: bool, sat: L -> bool)
    ensures inAnd ==> AllHold(FlattenAll(c, inAnd), sat) == AllHold(c, sat)
    ensures !inAnd ==> AnyHolds(FlattenAll(c, inAnd), sat) == AnyHolds(c, sat)
    decreases c, 0
  {
    if c != [] {
      var k := Flatten(c[0]);
      FlattenPreservesMeaning(c[0], sat);
      FlattenAllPreservesMeaning(c[1..], inAnd, sat);
      HoldsOfConcat(Splice(k, inAnd), FlattenAll(c[1..], inAnd), sat);
      assert c == [c[0]] + c[1..];
      HoldsOfConcat([c[0]], c[1..], sat);
      SpliceMeaning(k, inAnd, sat);
      assert [c[0]][0] == c[0];
    }
  }

  lemma SpliceMeaning<L>(k: Tree<L>, inAnd: bool, sat: L -> bool)
    ensures inAnd ==> AllHold(Splice(k, inAnd), sat) == Eval(k, sat)
    ensures !inAnd ==> AnyHolds(Splice(k, inAnd), sat) == Eval(k, sat)
  {
    assert [k][0] == k;
    assert k.And? ==> Eval(k, sat) == AllHold(k.children, sat);
    assert k.Or? ==> Eval(k, sat) == AnyHolds(k.children, sat);
  }

  /** On trees without an empty group the result is in normal form. */
  lemma {:induction false} FlattenNormalizes<L>(t: Tree<L>)
    requires NoEmptyGroup(t)
    ensures Normal(Flatten(t))
    decreases t, 1
  {
    match t
    case Leaf(_) =>
    case And(c) => if |c| == 1 { FlattenNormalizes(c[0]); } else { FlattenAllNormalizes(c, true); }
    case Or(c) => if |c| == 1 { FlattenNormalizes(c[0]); } else { FlattenAllNormalizes(c, false); }
  }

  lemma {:induction false} FlattenAllNormalizes<L>(c: seq<Tree<L>>, inAnd: bool)
    requires forall i | 0 <= i < |c| :: NoEmptyGroup(c[i])
    ensures |FlattenAll(c, inAnd)| >= |c|
    ensures forall i | 0 <= i < |FlattenAll(c, inAnd)| ::
              var k := FlattenAll(c, inAnd)[i]; Normal(k) && (if inAnd then !k.And? else !k.Or?)
    decreases c, 0
  {
    if c != [] {
      FlattenNormalizes(c[0]);
      FlattenAllNormalizes(c[1..], inAnd);
    }
  }

  /** A normal form is left alone; with `FlattenNormalizes` this makes `Flatten` idempotent. */
  lemma {:induction false} FlattenFixesNormal<L>(t: Tree<L>)
    requires Normal(t)
    ensures Flatten(t) == t
    decreases t, 1
  {
    match t
    case Leaf(_) =>
    case And(c) => FlattenAllFixesNormal(c, true);
    case Or(c) => FlattenAllFixesNormal(c, false);
  }

  lemma {:induction false} FlattenAllFixesNormal<L>(c: seq<Tree<L>>, inAnd: bool)
    requires forall i | 0 <= i < |c| :: Normal(c[i]) && (if inAnd then !c[i].And? else !c[i].Or?)
    ensures FlattenAll(c, inAnd) == c
    decreases c, 0
  {
    if c != [] {
      FlattenFixesNormal(c[0]);
      FlattenAllFixesNormal(c[1..], inAnd);
      assert c == [c[0]] + c[1..];
    }
  }

  lemma FlattenIdempotent<L>(t: Tree<L>)
    requires NoEmptyGroup(t)
    ensures Flatten(Flatten(t)) == Flatten(t)
  {
    FlattenNormalizes(t);
    FlattenFixesNormal(Flatten(t));
  }

  /** With an empty group a second pass can still change the tree. */
  lemma EmptyGroupBreaksIdempotence<L>(a: Tree<L>)
    requires a.Leaf?
    ensures var t := And([And([]), a]); Flatten(t) == And([a]) && Flatten(Flatten(t)) == a
  {
    var t := And([And([]), a]);
    assert FlattenAll([a], true) == [a] by { assert [a][1..] == []; }
    assert t.children[1..] == [a];
    assert Flatten(t.children[0]) == And([]);
  }

  /** No leaf is dropped, added or reordered. */
  lemma {:induction false} FlattenKeepsLeaves<L>(t: Tree<L>)
    ensures Leaves(Flatten(t)) == Leaves(t)
    decreases t, 1
  {
    match t
    case Leaf(_) =>
    case And(c) => FlattenGroupKeepsLeaves(c, true);
    case Or(c) => FlattenGroupKeepsLeaves(c, false);
  }

  lemma {:induction false} FlattenGroupKeepsLeaves<L>(c: seq<Tree<L>>, inAnd: bool)
    ensures LeavesOf(FlattenAll(c, inAnd)) == LeavesOf(c)
    ensures |c| == 1 ==> Leaves(Flatten(c[0])) == LeavesOf(c)
    decreases c, 0
  {
    if c != [] {
      var k := Flatten(c[0]);
      FlattenKeepsLeaves(c[0]);
      FlattenGroupKeepsLeaves(c[1..], inAnd);
      LeavesOfConcat(Splice(k, inAnd), FlattenAll(c[1..], inAnd));
      assert LeavesOf([k]) == Leaves(k) + [];
    }
  }

  lemma {:induction false} LeavesOfConcat<L>(a: seq<Tree<L>>, b: seq<Tree<L>>)
    ensures LeavesOf(a + b) == LeavesOf(a) + LeavesOf(b)
  {
    if a == [] {
      assert a + b == b;
    } else {
      assert (a + b)[1..] == a[1..] + b;
      LeavesOfConcat(a[1..], b);
    }
  }

  lemma {:induction false} LeafOfChild<L>(c: seq<Tree<L>>, l: L)
    ensures l in LeavesOf(c) <==> exists i | 0 <= i < |c| :: l in Leaves(c[i])
  {
    if c != [] {
      LeafOfChild(c[1..], l);
      assert forall i | 0 <= i < |c| :: c[i] == if i == 0 then c[0] else c[1..][i - 1];
    }
  }
}
