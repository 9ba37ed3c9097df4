/**
  Which predicates `check_redis_filter` can accept at all. Flattening splices a multi-value integer
  match into an enclosing `or`, so a predicate with one there is refused whatever is rendered, also a
  text that selects exactly its rows; every other predicate has an accepted rendering.
 */
module RedisFilterComplete {
  import opened Outcomes
  import opened FilterTree
  import opened Predicates
  import opened RedisFilterSyntax
  import opened RedisFilterRoundTrip
  import opened RedisFilterCheck

  /** Of a flattened predicate: no integer list of several values directly in an `or`, no `:` in a field. */
  ghost predicate Acceptable(p: Predicate, inOr: bool) {
    match p
    case And(c) => forall i | 0 <= i < |c| :: Acceptable(c[i], false)
    case Or(c) => forall i | 0 <= i < |c| :: Acceptable(c[i], true)
    case Leaf(l) => ':' !in l.field && !(inOr && Splits(l))
  }

  /** A leaf that is rendered as several alternatives: an integer list of several values. */
  predicate Splits(l: FieldTest) { l.test.Match? && |Ints(l.test.ops)| > 1 }

  // ----- A refused predicate is refused for every expression -----

  ghost predicate CleanFields(n: RNode) {
    forall l | l in Leaves(n) :: ':' !in l.field
  }

  lemma {:induction false} PrintableIsClean(n: RNode)
    requires Printable(n)
    ensures CleanFields(n) && NoEmptyGroup(n)
  {
    if !n.Leaf? {
      var c := n.children;
      forall i | 0 <= i < |c| ensures CleanFields(c[i]) && NoEmptyGroup(c[i]) { PrintableIsClean(c[i]); }
      forall l | l in LeavesOf(c) ensures ':' !in l.field { LeafOfChild(c, l); }
    }
  }

  lemma ChildrenAreClean(n: RNode)
    requires !n.Leaf? && CleanFields(n)
    ensures forall i | 0 <= i < |n.children| :: CleanFields(n.children[i])
  {
    forall i | 0 <= i < |n.children| ensures CleanFields(n.children[i]) {
      forall l | l in Leaves(n.children[i]) ensures ':' !in l.field { LeafOfChild(n.children, l); }
    }
  }

  lemma PointIsClean(n: RNode, field: string, params: Params)
    requires CleanFields(n) && PointOf(n, field, params).Some?
    ensures ':' !in field
  {
    assert n.leaf in Leaves(n);
  }

  lemma IntsAreClean(field: string, ints: seq<real>, n: RNode, params: Params)
    requires IntsExpressed(field, ints, n, params) && CleanFields(n)
    ensures ':' !in field
  {
    if |ints| > 1 {
      var got := PointsOf(n.children, field, params).value;
      assert |got| == |multiset(got)| == |multiset(ints)| == |ints|;
      ChildrenAreClean(n);
      PointIsClean(n.children[0], field, params);
    } else {
      assert [n][0] == n;
      PointIsClean(n, field, params);
    }
  }

  lemma WalkedLeafIsAcceptable(l: FieldTest, n: RNode, params: Params, inOr: bool)
    requires LeafExpressed(l, n, params) && CleanFields(n) && (inOr ==> !n.Or?)
    ensures Acceptable(Leaf(l), inOr)
  {
    if l.test.Match? && (Words(l.test.ops) == [] || Ints(l.test.ops) != []) {
      IntsAreClean(l.field, Ints(l.test.ops), n, params);
    } else {
      assert n.leaf in Leaves(n);
    }
  }

  lemma {:induction false} WalkedIsAcceptable(p: Predicate, n: RNode, params: Params, inOr: bool)
    requires Walk(p, n, params) && Normal(n) && CleanFields(n) && (inOr ==> !n.Or?)
    ensures Acceptable(p, inOr)
    decreases p
  {
    match p
    case Leaf(l) => WalkedLeafIsAcceptable(l, n, params, inOr);
    case And(c) =>
      ChildrenAreClean(n);
      forall i | 0 <= i < |c| ensures Acceptable(c[i], false) {
        WalkedIsAcceptable(c[i], n.children[i], params, false);
      }
    case Or(c) =>
      ChildrenAreClean(n);
      forall i | 0 <= i < |c| ensures Acceptable(c[i], true) {
        WalkedIsAcceptable(c[i], n.children[i], params, true);
      }
  }

  // ----- Rendering leaf by leaf, with a running counter -----

  /** What a leaf becomes at a counter value, and how far it moves the counter. */
  datatype Renderer = Renderer(node: (FieldTest, nat) -> RNode, uses: FieldTest -> nat)

  function Used(ls: seq<FieldTest>, uses: FieldTest -> nat): nat {
    if ls == [] then 0 else uses(ls[0]) + Used(ls[1..], uses)
  }

  function Render(p: Predicate, k: nat, r: Renderer): RNode
    decreases p, 1
  {
    match p
    case And(c) => And(RenderAll(c, k, r))
    case Or(c) => Or(RenderAll(c, k, r))
    case Leaf(l) => r.node(l, k)
  }

  function RenderAll(c: seq<Predicate>, k: nat, r: Renderer): (ns: seq<RNode>)
    ensures |ns| == |c|
    decreases c, 0
  {
    if c == [] then [] else [Render(c[0], k, r)] + RenderAll(c[1..], k + Used(Leaves(c[0]), r.uses), r)
  }

  lemma {:induction false} UsedConcat(a: seq<FieldTest>, b: seq<FieldTest>, uses: FieldTest -> nat)
    ensures Used(a + b, uses) == Used(a, uses) + Used(b, uses)
  {
    if a == [] {
      assert a + b == b;
    } else {
      assert (a + b)[1..] == a[1..] + b;
      UsedConcat(a[1..], b, uses);
    }
  }

  lemma {:induction false} RenderAllConcat(a: seq<Predicate>, b: seq<Predicate>, k: nat, r: Renderer)
    ensures RenderAll(a + b, k, r) == RenderAll(a, k, r) + RenderAll(b, k + Used(LeavesOf(a), r.uses), r)
  {
    if a == [] {
      assert a + b == b;
    } else {
      assert (a + b)[1..] == a[1..] + b;
      UsedConcat(Leaves(a[0]), LeavesOf(a[1..]), r.uses);
      RenderAllConcat(a[1..], b, k + Used(Leaves(a[0]), r.uses), r);
    }
  }

  /** `ok` holds of every leaf at the counter value it is rendered with. */
  ghost predicate InTurn(ls: seq<FieldTest>, k: nat, uses: FieldTest -> nat, ok: (FieldTest, nat) -> bool) {
    ls == [] || (ok(ls[0], k) && InTurn(ls[1..], k + uses(ls[0]), uses, ok))
  }

  lemma {:induction false} InTurnSplit(
    a: seq<FieldTest>, b: seq<FieldTest>, k: nat, uses: FieldTest -> nat, ok: (FieldTest, nat) -> bool)
    requires InTurn(a + b, k, uses, ok)
    ensures InTurn(a, k, uses, ok) && InTurn(b, k + Used(a, uses), uses, ok)
  {
    if a == [] {
      assert a + b == b;
    } else {
      assert (a + b)[1..] == a[1..] + b;
      InTurnSplit(a[1..], b, k + uses(a[0]), uses, ok);
    }
  }

  lemma {:induction false} InTurnWeaken(
    ls: seq<FieldTest>, k: nat, uses: FieldTest -> nat, ok: (FieldTest, nat) -> bool, also: (FieldTest, nat) -> bool)
    requires InTurn(ls, k, uses, ok) && forall l, i | l in ls && ok(l, i) :: also(l, i)
    ensures InTurn(ls, k, uses, also)
  {
    if ls != [] {
      assert ls[0] in ls;
      InTurnWeaken(ls[1..], k + uses(ls[0]), uses, ok, also);
    }
  }

  /** Flattening a rendering of `p` is rendering the flattened `p`, when no spliced list is in the way. */
  ghost predicate FlatLeaf(r: Renderer, l: FieldTest) {
    forall k :: Flatten(r.node(l, k)) == r.node(l, k) && !r.node(l, k).And? && (r.node(l, k).Or? ==> Splits(l))
  }

  lemma {:induction false} FlattenRender(p: Predicate, k: nat, r: Renderer)
    requires Acceptable(Flatten(p), false) && forall l :: FlatLeaf(r, l)
    ensures Flatten(Render(p, k, r)) == Render(Flatten(p), k, r)
    decreases p, 1
  {
    match p
    case Leaf(l) => assert FlatLeaf(r, l);
    case And(c) =>
      if |c| == 1 { FlattenRender(c[0], k, r); } else { FlattenRenderAll(c, k, true, r); }
    case Or(c) =>
      if |c| == 1 { FlattenRender(c[0], k, r); } else { FlattenRenderAll(c, k, false, r); }
  }

  lemma {:induction false} FlattenRenderAll(c: seq<Predicate>, k: nat, inAnd: bool, r: Renderer)
    requires forall i | 0 <= i < |FlattenAll(c, inAnd)| :: Acceptable(FlattenAll(c, inAnd)[i], !inAnd)
    requires forall l :: FlatLeaf(r, l)
    ensures FlattenAll(RenderAll(c, k, r), inAnd) == RenderAll(FlattenAll(c, inAnd), k, r)
    decreases c, 0
  {
    if c != [] {
      var q, next := Flatten(c[0]), k + Used(Leaves(c[0]), r.uses);
      var first, others := Splice(q, inAnd), FlattenAll(c[1..], inAnd);
      SpliceAcceptable(q, inAnd, others, FlattenAll(c, inAnd));
      FlattenRender(c[0], k, r);
      FlattenRenderAll(c[1..], next, inAnd, r);
      calc {
        FlattenAll(RenderAll(c, k, r), inAnd);
        { assert RenderAll(c, k, r)[1..] == RenderAll(c[1..], next, r); }
        Splice(Flatten(Render(c[0], k, r)), inAnd) + FlattenAll(RenderAll(c[1..], next, r), inAnd);
        { SpliceRender(q, k, inAnd, r); }
        RenderAll(first, k, r) + RenderAll(others, next, r);
        { FlattenKeepsLeaves(c[0]); SpliceLeaves(q, inAnd); RenderAllConcat(first, others, k, r); }
        RenderAll(first + others, k, r);
      }
    }
  }

  lemma SpliceLeaves(q: Predicate, inAnd: bool)
    ensures LeavesOf(Splice(q, inAnd)) == Leaves(q)
  {
    assert LeavesOf([q]) == Leaves(q) + [];
  }

  lemma SpliceAcceptable(q: Predicate, inAnd: bool, others: seq<Predicate>, all: seq<Predicate>)
    requires all == Splice(q, inAnd) + others && forall i | 0 <= i < |all| :: Acceptable(all[i], !inAnd)
    ensures Acceptable(q, false)
    ensures forall i | 0 <= i < |Splice(q, inAnd)| :: Acceptable(Splice(q, inAnd)[i], !inAnd)
    ensures forall i | 0 <= i < |others| :: Acceptable(others[i], !inAnd)
  {
    var first := Splice(q, inAnd);
    forall i | 0 <= i < |first| ensures Acceptable(first[i], !inAnd) { assert all[i] == first[i]; }
    forall i | 0 <= i < |others| ensures Acceptable(others[i], !inAnd) { assert all[|first| + i] == others[i]; }
    if first == [q] { assert first[0] == q; }
  }

  lemma SpliceRender(q: Predicate, k: nat, inAnd: bool, r: Renderer)
    requires forall i | 0 <= i < |Splice(q, inAnd)| :: Acceptable(Splice(q, inAnd)[i], !inAnd)
    requires forall l :: FlatLeaf(r, l)
    ensures Splice(Render(q, k, r), inAnd) == RenderAll(Splice(q, inAnd), k, r)
  {
    assert RenderAll([q], k, r) == [Render(q, k, r)];
    if q.Leaf? {
      assert FlatLeaf(r, q.leaf) && Splice(q, inAnd)[0] == q;
    }
  }

  /** One-child groups make no difference to flattening. */
  lemma {:induction false} FlattenCollapse(n: RNode)
    ensures Flatten(Collapse(n)) == Flatten(n)
    decreases n, 1
  {
    match n
    case Leaf(_) =>
    case And(c) =>
      if |c| == 1 { FlattenCollapse(c[0]); } else { FlattenCollapseAll(c, true); }
    case Or(c) =>
      if |c| == 1 { FlattenCollapse(c[0]); } else { FlattenCollapseAll(c, false); }
  }

  lemma {:induction false} FlattenCollapseAll(c: seq<RNode>, inAnd: bool)
    ensures FlattenAll(CollapseAll(c), inAnd) == FlattenAll(c, inAnd)
    decreases c, 0
  {
    if c != [] {
      FlattenCollapse(c[0]);
      FlattenCollapseAll(c[1..], inAnd);
      assert CollapseAll(c)[1..] == CollapseAll(c[1..]);
    }
  }

  lemma CollapseKeepsMeaning(n: RNode, params: Params, row: Row, engine: Engine)
    ensures RedisSelects(Collapse(n), params, row, engine) == RedisSelects(n, params, row, engine)
  {
    FlattenCollapse(n);
    FlattenPreservesMeaning(n, RedisMeaning(params, row, engine));
    FlattenPreservesMeaning(Collapse(n), RedisMeaning(params, row, engine));
  }

  /** Trees of the same shape whose leaves correspond. */
  ghost predicate Corresponds(p: Predicate, n: RNode, ok: (FieldTest, RNode) -> bool) {
    match p
    case And(c) => n.And? && |c| == |n.children| && forall i | 0 <= i < |c| :: Corresponds(c[i], n.children[i], ok)
    case Or(c) => n.Or? && |c| == |n.children| && forall i | 0 <= i < |c| :: Corresponds(c[i], n.children[i], ok)
    case Leaf(l) => ok(l, n)
  }

  ghost function LeafOk(params: Params): (FieldTest, RNode) -> bool {
    (l: FieldTest, n: RNode) => LeafExpressed(l, n, params)
  }

  lemma {:induction false} CorrespondingWalks(p: Predicate, n: RNode, params: Params)
    requires Corresponds(p, n, LeafOk(params))
    ensures Walk(p, n, params)
  {
    if !p.Leaf? {
      var c := p.children;
      forall i | 0 <= i < |c| ensures Walk(c[i], n.children[i], params) {
        CorrespondingWalks(c[i], n.children[i], params);
      }
    }
  }

  ghost function OkAt(r: Renderer, ok: (FieldTest, RNode) -> bool): (FieldTest, nat) -> bool {
    (l: FieldTest, i: nat) => ok(l, r.node(l, i))
  }

  lemma {:induction false} RenderCorresponds(p: Predicate, k: nat, r: Renderer, ok: (FieldTest, RNode) -> bool)
    requires InTurn(Leaves(p), k, r.uses, OkAt(r, ok))
    ensures Corresponds(p, Render(p, k, r), ok)
    decreases p, 1
  {
    match p
    case Leaf(l) => assert [l][0] == l;
    case And(c) => RenderAllCorresponds(c, k, r, ok);
    case Or(c) => RenderAllCorresponds(c, k, r, ok);
  }

  lemma {:induction false} RenderAllCorresponds(c: seq<Predicate>, k: nat, r: Renderer, ok: (FieldTest, RNode) -> bool)
    requires InTurn(LeavesOf(c), k, r.uses, OkAt(r, ok))
    ensures forall i | 0 <= i < |c| :: Corresponds(c[i], RenderAll(c, k, r)[i], ok)
    decreases c, 0
  {
    if c != [] {
      var next := k + Used(Leaves(c[0]), r.uses);
      InTurnSplit(Leaves(c[0]), LeavesOf(c[1..]), k, r.uses, OkAt(r, ok));
      RenderCorresponds(c[0], k, r, ok);
      RenderAllCorresponds(c[1..], next, r, ok);
    }
  }

  /** Every leaf, where it stands, is expressed by its rendering. */
  ghost function Expressed(r: Renderer, params: Params): (FieldTest, nat) -> bool {
    OkAt(r, LeafOk(params))
  }

  /** A rendering whose leaves are expressed walks. */
  lemma RenderWalks(p: Predicate, k: nat, r: Renderer, params: Params)
    requires InTurn(Leaves(p), k, r.uses, Expressed(r, params))
    ensures Walk(p, Render(p, k, r), params)
  {
    RenderCorresponds(p, k, r, LeafOk(params));
    CorrespondingWalks(p, Render(p, k, r), params);
  }

  lemma {:induction false} RenderIsLoose(p: Predicate, k: nat, r: Renderer)
    requires NoEmptyGroup(p) && forall l, i | l in Leaves(p) :: Loose(r.node(l, i))
    ensures Loose(Render(p, k, r))
    decreases p, 1
  {
    match p
    case Leaf(l) => assert l in Leaves(p);
    case And(c) => RenderAllIsLoose(c, k, r);
    case Or(c) => RenderAllIsLoose(c, k, r);
  }

  lemma {:induction false} RenderAllIsLoose(c: seq<Predicate>, k: nat, r: Renderer)
    requires (forall i | 0 <= i < |c| :: NoEmptyGroup(c[i])) && forall l, i | l in LeavesOf(c) :: Loose(r.node(l, i))
    ensures forall i | 0 <= i < |c| :: Loose(RenderAll(c, k, r)[i])
    decreases c, 0
  {
    if c != [] {
      RenderIsLoose(c[0], k, r);
      RenderAllIsLoose(c[1..], k + Used(Leaves(c[0]), r.uses), r);
    }
  }

  /**
    A text that parses to the rendering of a predicate whose leaves are expressed: it selects exactly
    the rows of the predicate, and it is accepted unless a list is spliced.
   */
  lemma RenderingIsFaithful(p: Predicate, r: Renderer, params: Params, expr: string)
    requires (forall l | l in Leaves(p) :: Translatable(l.test)) && (forall l :: FlatLeaf(r, l))
    requires InTurn(Leaves(p), 0, r.uses, Expressed(r, params))
    requires Parse(expr) == Ok(Collapse(Render(p, 0, r)))
    ensures Faithful(p, expr, params)
    ensures Acceptable(Flatten(p), false) ==> CheckRedisFilter(p, expr, params).Ok?
  {
    var n := Render(p, 0, r);
    RenderWalks(p, 0, r, params);
    forall row, engine ensures RedisSelects(Collapse(n), params, row, engine) == Selects(p, row, engine) {
      CollapseKeepsMeaning(n, params, row, engine);
      WalkSound(p, n, params, row, engine);
    }
    if Acceptable(Flatten(p), false) {
      FlattenRender(p, 0, r);
      FlattenCollapse(n);
      FlattenKeepsLeaves(p);
      RenderWalks(Flatten(p), 0, r, params);
    }
  }

  /** A text and its parameters that select exactly the rows of `p`, on every row and for every engine. */
  ghost predicate Faithful(p: Predicate, expr: string, params: Params) {
    && Parse(expr).Ok?
    && forall row, engine :: RedisSelects(Parse(expr).value, params, row, engine) == Selects(p, row, engine)
  }

  // ----- A leaf with given parameter names -----

  /** The values a leaf binds, in the order of its parameters. */
  function Values(l: FieldTest): seq<RedisParam> {
    match l.test
    case TextMatch(term) => [TextParam(term)]
    case Range(gt, gte, lt, lte) => BoundValue(Wanted(gt, gte)) + BoundValue(Wanted(lt, lte))
    case Match(ops) =>
      var words, ints := Words(ops), Ints(ops);
      if words != [] then seq(|words|, i requires 0 <= i < |words| => TextParam(words[i]))
      else seq(|ints|, i requires 0 <= i < |ints| => NumParam(ints[i]))
  }

  function BoundValue(b: Option<(real, bool)>): seq<RedisParam> {
    if b.Some? then [NumParam(b.value.0)] else []
  }

  /** Name number `i`, or nothing. */
  function NameAt(names: seq<string>, i: nat): string { if i < |names| then names[i] else "" }

  function Point(field: string, name: string): RNode {
    Leaf(Interval(field, Some(Bound(name, false)), Some(Bound(name, false))))
  }

  function Points(field: string, names: seq<string>, n: nat): (ps: seq<RNode>)
    ensures |ps| == n && forall i | 0 <= i < n :: ps[i] == Point(field, NameAt(names, i))
  {
    seq(n, i requires 0 <= i < n => Point(field, NameAt(names, i)))
  }

  function SideNode(b: Option<(real, bool)>, name: string): Option<Bound> {
    if b.Some? then Some(Bound(name, b.value.1)) else None
  }

  function LeafNode(l: FieldTest, names: seq<string>): RNode {
    match l.test
    case TextMatch(_) => Leaf(Term(l.field, NameAt(names, 0)))
    case Range(gt, gte, lt, lte) =>
      var lo, hi := Wanted(gt, gte), Wanted(lt, lte);
      Leaf(Interval(l.field, SideNode(lo, NameAt(names, 0)), SideNode(hi, NameAt(names, |BoundValue(lo)|))))
    case Match(ops) =>
      if Words(ops) != [] then Leaf(Tags(l.field, names))
      else if |Ints(ops)| <= 1 then Point(l.field, NameAt(names, 0))
      else Or(Points(l.field, names, |Ints(ops)|))
  }

  ghost predicate NamesBind(params: Params, names: seq<string>, vals: seq<RedisParam>) {
    |names| == |vals| && forall i | 0 <= i < |vals| :: names[i] in params && params[names[i]] == vals[i]
  }

  lemma WordsWalk(l: FieldTest, names: seq<string>, params: Params)
    requires l.test.Match? && Words(l.test.ops) != [] && NamesBind(params, names, Values(l))
    ensures WordsExpressed(l.field, Words(l.test.ops), LeafNode(l, names), params)
  {
    var words, vals := Words(l.test.ops), Values(l);
    forall i | 0 <= i < |words| ensures TextOf(params, names[i]) == Some(words[i]) {
      assert vals[i] == TextParam(words[i]);
    }
    assert TextsOf(params, names).value == words;
  }

  lemma PointResolves(field: string, name: string, params: Params, x: real)
    requires name in params && params[name] == NumParam(x)
    ensures PointOf(Point(field, name), field, params) == Some(x)
  {
  }

  lemma PointsResolve(points: seq<RNode>, ints: seq<real>, field: string, params: Params)
    requires |points| == |ints| && forall i | 0 <= i < |ints| :: PointOf(points[i], field, params) == Some(ints[i])
    ensures PointsOf(points, field, params) == Some(ints)
  {
    assert PointsOf(points, field, params).value == ints;
  }

  lemma IntsWalk(l: FieldTest, names: seq<string>, params: Params)
    requires l.test.Match? && Words(l.test.ops) == [] && Ints(l.test.ops) != [] && NamesBind(params, names, Values(l))
    ensures IntsExpressed(l.field, Ints(l.test.ops), LeafNode(l, names), params)
  {
    var ints, vals, n := Ints(l.test.ops), Values(l), LeafNode(l, names);
    var points := if |ints| > 1 then n.children else [n];
    forall i | 0 <= i < |ints| ensures PointOf(points[i], l.field, params) == Some(ints[i]) {
      assert vals[i] == NumParam(ints[i]) && points[i] == Point(l.field, names[i]);
      PointResolves(l.field, names[i], params, ints[i]);
    }
    PointsResolve(points, ints, l.field, params);
  }

  lemma HasOperand(ops: seq<Operand>)
    requires ops != [] && Words(ops) == []
    ensures Ints(ops) != []
  {
  }

  lemma RangeWalks(l: FieldTest, names: seq<string>, params: Params)
    requires l.test.Range? && NamesBind(params, names, Values(l))
    ensures LeafExpressed(l, LeafNode(l, names), params)
  {
    var lo, hi, vals := Wanted(l.test.gt, l.test.gte), Wanted(l.test.lt, l.test.lte), Values(l);
    if lo.Some? { assert vals[0] == NumParam(lo.value.0); }
    if hi.Some? { assert vals[|BoundValue(lo)|] == NumParam(hi.value.0); }
  }

  lemma LeafWalks(l: FieldTest, names: seq<string>, params: Params)
    requires Translatable(l.test) && NamesBind(params, names, Values(l))
    ensures LeafExpressed(l, LeafNode(l, names), params)
  {
    match l.test
    case Match(ops) =>
      if Words(ops) != [] {
        WordsWalk(l, names, params);
      } else {
        HasOperand(ops);
        IntsWalk(l, names, params);
      }
    case Range(_, _, _, _) => RangeWalks(l, names, params);
    case TextMatch(_) => assert Values(l)[0] in Values(l);
  }

  lemma LeafNodeIsFlat(l: FieldTest, names: seq<string>)
    ensures var n := LeafNode(l, names); Flatten(n) == n && !n.And? && (n.Or? ==> Splits(l))
  {
    var n := LeafNode(l, names);
    if n.Or? { PointsAreFlat(n.children); }
  }

  lemma {:induction false} PointsAreFlat(c: seq<RNode>)
    requires forall i | 0 <= i < |c| :: c[i].Leaf?
    ensures FlattenAll(c, false) == c
  {
    if c != [] {
      PointsAreFlat(c[1..]);
      assert [c[0]] + c[1..] == c;
    }
  }

  /** A name every kind of clause can hold. */
  predicate PlainName(s: string) { TagParam(s) && TermParam(s) && ']' !in s }

  lemma LeafNodeIsLoose(l: FieldTest, names: seq<string>)
    requires Translatable(l.test) && ':' !in l.field && |names| == |Values(l)|
    requires forall i | 0 <= i < |names| :: PlainName(names[i])
    ensures Loose(LeafNode(l, names))
  {
    var n := LeafNode(l, names);
    if l.test.Match? && Words(l.test.ops) == [] {
      HasOperand(l.test.ops);
      if n.Or? {
        forall i | 0 <= i < |n.children| ensures Loose(n.children[i]) {
          assert n.children[i] == Point(l.field, names[i]);
        }
      }
    }
  }

  // ----- A rendering that is always possible -----

  /** The name of parameter number `k`. */
  function Name(k: nat): (s: string)
    ensures |s| == k + 1 && PlainName(s)
  {
    var s := seq(k + 1, _ => 'p');
    assert s[0] == 'p' && s[|s| - 1] == 'p';
    s
  }

  function Names(k: nat, n: nat): (s: seq<string>)
    ensures |s| == n && forall i | 0 <= i < n :: s[i] == Name(k + i)
  {
    seq(n, i requires 0 <= i < n => Name(k + i))
  }

  /** Parameters numbered in the order of the leaves. */
  ghost function Numbered(): Renderer {
    Renderer((l: FieldTest, k: nat) => LeafNode(l, Names(k, |Values(l)|)), SizeOf(Values))
  }

  ghost function SizeOf(f: FieldTest -> seq<RedisParam>): FieldTest -> nat {
    l => |f(l)|
  }

  ghost function BindsAt(params: Params, f: FieldTest -> seq<RedisParam>): (FieldTest, nat) -> bool {
    (l: FieldTest, i: nat) => Binds(params, i, f(l))
  }

  function Gather(ls: seq<FieldTest>, f: FieldTest -> seq<RedisParam>): seq<RedisParam> {
    if ls == [] then [] else f(ls[0]) + Gather(ls[1..], f)
  }

  function Bind(vals: seq<RedisParam>): (r: Params)
    ensures forall j | 0 <= j < |vals| :: Name(j) in r && r[Name(j)] == vals[j]
    ensures forall s | s in r :: |s| <= |vals|
  {
    if vals == [] then map[] else Bind(vals[..|vals| - 1])[Name(|vals| - 1) := vals[|vals| - 1]]
  }

  predicate Has(params: Params, i: nat, v: RedisParam) {
    Name(i) in params && params[Name(i)] == v
  }

  /** The parameters numbered from `k` on hold `vals`. */
  ghost predicate Binds(params: Params, k: nat, vals: seq<RedisParam>) {
    forall j | 0 <= j < |vals| :: Has(params, k + j, vals[j])
  }

  lemma BindsConcat(params: Params, k: nat, a: seq<RedisParam>, b: seq<RedisParam>)
    requires Binds(params, k, a + b)
    ensures Binds(params, k, a) && Binds(params, k + |a|, b)
  {
    var c := a + b;
    forall j | 0 <= j < |a| ensures Has(params, k + j, a[j]) {
      assert c[j] == a[j];
    }
    forall j | 0 <= j < |b| ensures Has(params, k + |a| + j, b[j]) {
      assert c[|a| + j] == b[j];
    }
  }

  lemma {:induction false} GatheredInTurn(ls: seq<FieldTest>, f: FieldTest -> seq<RedisParam>, k: nat, params: Params)
    requires Binds(params, k, Gather(ls, f))
    ensures InTurn(ls, k, SizeOf(f), BindsAt(params, f))
  {
    if ls != [] {
      BindsConcat(params, k, f(ls[0]), Gather(ls[1..], f));
      GatheredInTurn(ls[1..], f, k + |f(ls[0])|, params);
    }
  }

  lemma NumberedLeaf(l: FieldTest, k: nat, params: Params)
    requires Translatable(l.test) && Binds(params, k, Values(l))
    ensures LeafExpressed(l, LeafNode(l, Names(k, |Values(l)|)), params)
  {
    var names, vals := Names(k, |Values(l)|), Values(l);
    forall j | 0 <= j < |vals| ensures names[j] in params && params[names[j]] == vals[j] {
      assert Has(params, k + j, vals[j]);
    }
    LeafWalks(l, names, params);
  }

  /** Numbering gives a faithful text, accepted unless a list is spliced. */
  lemma NumberedIsFaithful(p: Predicate) returns (expr: string, params: Params)
    requires WellFormed(p) && forall l | l in Leaves(p) :: Translatable(l.test) && ':' !in l.field
    ensures Faithful(p, expr, params)
    ensures Acceptable(Flatten(p), false) ==> CheckRedisFilter(p, expr, params).Ok?
  {
    var r, ls := Numbered(), Leaves(p);
    params := Bind(Gather(ls, Values));
    forall l ensures FlatLeaf(r, l) { NumberedIsFlat(l); }
    forall l, i | l in ls ensures Loose(r.node(l, i)) { LeafNodeIsLoose(l, Names(i, |Values(l)|)); }
    NumberedInTurn(ls, params);
    RenderIsLoose(p, 0, r);
    expr := Print(Render(p, 0, r));
    LoosePrintParses(Render(p, 0, r));
    RenderingIsFaithful(p, r, params, expr);
  }

  lemma NumberedIsFlat(l: FieldTest)
    ensures FlatLeaf(Numbered(), l)
  {
    forall k ensures var n := Numbered().node(l, k); Flatten(n) == n && !n.And? && (n.Or? ==> Splits(l)) {
      LeafNodeIsFlat(l, Names(k, |Values(l)|));
    }
  }

  lemma NumberedInTurn(ls: seq<FieldTest>, params: Params)
    requires (forall l | l in ls :: Translatable(l.test)) && params == Bind(Gather(ls, Values))
    ensures InTurn(ls, 0, Numbered().uses, Expressed(Numbered(), params))
  {
    GatheredInTurn(ls, Values, 0, params);
    forall l, i | l in ls && BindsAt(params, Values)(l, i) ensures Expressed(Numbered(), params)(l, i) {
      NumberedLeaf(l, i, params);
    }
    InTurnWeaken(ls, 0, SizeOf(Values), BindsAt(params, Values), Expressed(Numbered(), params));
  }

  // ----- Which predicates are accepted -----

  ghost predicate SomeAccepted(p: Predicate) {
    exists expr: string, params: Params :: CheckRedisFilter(p, expr, params).Ok?
  }

  lemma AcceptedIsAcceptable(p: Predicate, expr: string, params: Params)
    requires CheckRedisFilter(p, expr, params).Ok?
    ensures Acceptable(Flatten(p), false)
  {
    var n := Parse(expr).value;
    PrintableIsClean(n);
    FlattenNormalizes(n);
    FlattenKeepsLeaves(n);
    WalkedIsAcceptable(Flatten(p), Flatten(n), params, false);
  }

  lemma {:induction false} AcceptableFields(p: Predicate, inOr: bool)
    requires Acceptable(p, inOr)
    ensures forall l | l in Leaves(p) :: ':' !in l.field
  {
    if !p.Leaf? {
      var c := p.children;
      forall l | l in Leaves(p) ensures ':' !in l.field {
        LeafOfChild(c, l);
        var i :| 0 <= i < |c| && l in Leaves(c[i]);
        AcceptableFields(c[i], p.Or?);
      }
    }
  }

  /** Exactly which predicates have an accepted rendering. */
  lemma AcceptableIff(p: Predicate)
    requires WellFormed(p) && forall l | l in Leaves(p) :: Translatable(l.test)
    ensures SomeAccepted(p) <==> Acceptable(Flatten(p), false)
  {
    forall expr: string, params: Params | CheckRedisFilter(p, expr, params).Ok? ensures Acceptable(Flatten(p), false) {
      AcceptedIsAcceptable(p, expr, params);
    }
    if Acceptable(Flatten(p), false) {
      AcceptableFields(Flatten(p), false);
      FlattenKeepsLeaves(p);
      var expr, params := NumberedIsFaithful(p);
    }
  }

  /**
    Completeness fails exactly there: every predicate over fields without `:` has a faithful text, and
    one of them is accepted if and only if no integer list is spliced into an `or`.
   */
  lemma FaithfulTextMayBeRefused(p: Predicate)
    requires WellFormed(p) && forall l | l in Leaves(p) :: Translatable(l.test) && ':' !in l.field
    ensures exists expr: string, params: Params :: Faithful(p, expr, params)
    ensures (exists expr: string, params: Params :: Faithful(p, expr, params) && CheckRedisFilter(p, expr, params).Ok?)
            <==> Acceptable(Flatten(p), false)
  {
    var expr, params := NumberedIsFaithful(p);
    if e, ps :| Faithful(p, e, ps) && CheckRedisFilter(p, e, ps).Ok? { AcceptedIsAcceptable(p, e, ps); }
  }
}
