/**
  `check_redis_filter` of src/hybrid.rs. The rendered expression is read back, both sides are
  flattened and compared node by node, with `$param` names resolved through the bound parameters.
 */
module RedisFilterCheck {
  import opened Outcomes
  import opened FilterTree
  import opened Json
  import opened Predicates
  import opened RedisFilterSyntax
  import opened Sorting

  datatype RedisParam = TextParam(s: string) | NumParam(x: real)

  type Params = map<string, RedisParam>

  function TextOf(params: Params, name: string): Option<string> {
    if name in params && params[name].TextParam? then Some(params[name].s) else None
  }

  function NumOf(params: Params, name: string): Option<real> {
    if name in params && params[name].NumParam? then Some(params[name].x) else None
  }

  function TextsOf(params: Params, names: seq<string>): (r: Option<seq<string>>)
    ensures r.Some? ==> |r.value| == |names|
    ensures r.Some? <==> forall i | 0 <= i < |names| :: TextOf(params, names[i]).Some?
    ensures r.Some? ==> forall i | 0 <= i < |names| :: TextOf(params, names[i]) == Some(r.value[i])
  {
    if names == [] then Some([]) else
      var rest := TextsOf(params, names[1..]);
      assert forall i | 0 <= i < |names| :: names[i] == if i == 0 then names[0] else names[1..][i - 1];
      if TextOf(params, names[0]).None? || rest.None? then None
      else Some([TextOf(params, names[0]).value] + rest.value)
  }

  // ----- The comparison -----

  function Words(ops: seq<Operand>): (r: seq<string>)
    ensures forall w :: w in r <==> Keyword(w) in ops
  {
    if ops == [] then [] else (if ops[0].Keyword? then [ops[0].word] else []) + Words(ops[1..])
  }

  function Ints(ops: seq<Operand>): (r: seq<real>)
    ensures forall n: int :: n as real in r <==> Number(n) in ops
  {
    if ops == [] then [] else (if ops[0].Number? then [ops[0].value as real] else []) + Ints(ops[1..])
  }

  predicate RealLe(a: real, b: real) { a <= b }

  predicate BoundAgrees(b: Option<Bound>, want: Option<(real, bool)>, params: Params) {
    match b
    case None => want == None
    case Some(Bound(name, exclusive)) =>
      NumOf(params, name).Some? && want == Some((NumOf(params, name).value, exclusive))
  }

  /** A closed one-point interval on `field`, and its point. */
  function PointOf(n: RNode, field: string, params: Params): Option<real> {
    match n
    case Leaf(Interval(f, Some(Bound(a, false)), Some(Bound(b, false)))) =>
      if f == field && NumOf(params, a).Some? && NumOf(params, a) == NumOf(params, b)
      then NumOf(params, a) else None
    case _ => None
  }

  function PointsOf(c: seq<RNode>, field: string, params: Params): (r: Option<seq<real>>)
    ensures r.Some? ==> |r.value| == |c|
    ensures r.Some? <==> forall i | 0 <= i < |c| :: PointOf(c[i], field, params).Some?
    ensures r.Some? ==> forall i | 0 <= i < |c| :: PointOf(c[i], field, params) == Some(r.value[i])
  {
    if c == [] then Some([]) else
      var rest := PointsOf(c[1..], field, params);
      assert forall i | 0 <= i < |c| :: c[i] == if i == 0 then c[0] else c[1..][i - 1];
      if PointOf(c[0], field, params).None? || rest.None? then None
      else Some([PointOf(c[0], field, params).value] + rest.value)
  }

  predicate WordsExpressed(field: string, words: seq<string>, n: RNode, params: Params) {
    && n.Leaf? && n.leaf.Tags? && n.leaf.field == field
    && var got := TextsOf(params, n.leaf.params);
       got.Some? && Sort(got.value, StringLe) == Sort(words, StringLe)
  }

  /** An integer list is one point interval per value, joined by `|` when there are several. */
  predicate IntsExpressed(field: string, ints: seq<real>, n: RNode, params: Params) {
    && ((n.Or? && |ints| > 1) || |ints| == 1)
    && var got := PointsOf(if |ints| > 1 then n.children else [n], field, params);
       got.Some? && Sort(got.value, RealLe) == Sort(ints, RealLe)
  }

  predicate LeafExpressed(l: FieldTest, n: RNode, params: Params) {
    match l.test
    case TextMatch(term) =>
      n.Leaf? && n.leaf.Term? && n.leaf.field == l.field && TextOf(params, n.leaf.param) == Some(term)
    case Range(gt, gte, lt, lte) =>
      && n.Leaf? && n.leaf.Interval? && n.leaf.field == l.field
      && BoundAgrees(n.leaf.lo, Wanted(gt, gte), params) && BoundAgrees(n.leaf.hi, Wanted(lt, lte), params)
    case Match(ops) =>
      if Words(ops) != [] && Ints(ops) == [] then WordsExpressed(l.field, Words(ops), n, params)
      else IntsExpressed(l.field, Ints(ops), n, params)
  }

  /** `walk`: same kind of group, same arity, children in order. */
  predicate Walk(p: Predicate, n: RNode, params: Params) {
    match p
    case And(pc) =>
      n.And? && |pc| == |n.children| && forall i | 0 <= i < |pc| :: Walk(pc[i], n.children[i], params)
    case Or(pc) =>
      n.Or? && |pc| == |n.children| && forall i | 0 <= i < |pc| :: Walk(pc[i], n.children[i], params)
    case Leaf(l) => LeafExpressed(l, n, params)
  }

  datatype CheckError = Unreadable(error: ParseError) | Mismatch

  function CheckRedisFilter(p: Predicate, expr: string, params: Params): Result<(), CheckError> {
    match Parse(expr)
    case Err(e) => Err(Unreadable(e))
    case Ok(n) => if Walk(Flatten(p), Flatten(n), params) then Ok(()) else Err(Mismatch)
  }

  // ----- Value lists: the accepted renderings are exactly the arrangements -----

  lemma RealOrder()
    ensures TotalOrder(RealLe)
  {
  }

  /** A keyword list is expressed by exactly the tag lists whose values are its values in some order. */
  lemma WordsExpressedIff(field: string, words: seq<string>, n: RNode, params: Params)
    ensures WordsExpressed(field, words, n, params) <==>
            && n.Leaf? && n.leaf.Tags? && n.leaf.field == field
            && TextsOf(params, n.leaf.params).Some?
            && multiset(TextsOf(params, n.leaf.params).value) == multiset(words)
  {
    if n.Leaf? && n.leaf.Tags? && TextsOf(params, n.leaf.params).Some? {
      StringOrder();
      SortedCopiesEqual(TextsOf(params, n.leaf.params).value, words, StringLe);
    }
  }

  /** The nodes an integer list is compared with: the children of an `or`, or the one node. */
  function PointNodes(ints: seq<real>, n: RNode): seq<RNode>
    requires |ints| == 1 || n.Or?
  {
    if |ints| == 1 then [n] else n.children
  }

  /** An integer list is expressed by exactly the point intervals on its field with its values in some order. */
  lemma IntsExpressedIff(field: string, ints: seq<real>, n: RNode, params: Params)
    ensures IntsExpressed(field, ints, n, params) <==>
            && (|ints| == 1 || (|ints| > 1 && n.Or?))
            && var got := PointsOf(PointNodes(ints, n), field, params);
               got.Some? && multiset(got.value) == multiset(ints)
  {
    if |ints| == 1 || (|ints| > 1 && n.Or?) {
      var got := PointsOf(PointNodes(ints, n), field, params);
      if got.Some? {
        RealOrder();
        SortedCopiesEqual(got.value, ints, RealLe);
      }
    }
  }

  // ----- What the expression selects -----

  predicate AboveLower(b: Option<Bound>, x: real, params: Params) {
    b.Some? ==> NumOf(params, b.value.param).Some? &&
                var v := NumOf(params, b.value.param).value; if b.value.exclusive then x > v else x >= v
  }

  predicate BelowUpper(b: Option<Bound>, x: real, params: Params) {
    b.Some? ==> NumOf(params, b.value.param).Some? &&
                var v := NumOf(params, b.value.param).value; if b.value.exclusive then x < v else x <= v
  }

  predicate RedisLeafSelects(l: RedisLeaf, v: FieldValue, params: Params, engine: Engine) {
    match (l, v)
    case (Interval(_, lo, hi), IntValue(n)) => AboveLower(lo, n as real, params) && BelowUpper(hi, n as real, params)
    case (Tags(_, names), KeywordValue(s)) => exists i | 0 <= i < |names| :: TextOf(params, names[i]) == Some(s)
    case (Term(_, name), KeywordValue(text)) =>
      TextOf(params, name).Some? && engine(text, TextOf(params, name).value)
    case _ => false
  }

  function RedisMeaning(params: Params, row: Row, engine: Engine): RedisLeaf -> bool {
    (l: RedisLeaf) => l.field in row && RedisLeafSelects(l, row[l.field], params, engine)
  }

  predicate RedisSelects(n: RNode, params: Params, row: Row, engine: Engine) {
    Eval(n, RedisMeaning(params, row, engine))
  }

  // ----- Soundness -----

  /** A value list of one type only. */
  predicate Unmixed(ops: seq<Operand>) {
    Words(ops) == [] || Ints(ops) == []
  }

  predicate Translatable(t: Test) {
    ValidTest(t) && (t.Match? ==> Unmixed(t.ops))
  }

  lemma WordsSound(field: string, ops: seq<Operand>, n: RNode, params: Params, row: Row, engine: Engine)
    requires Ints(ops) == [] && WordsExpressed(field, Words(ops), n, params)
    ensures RedisSelects(n, params, row, engine) == LeafMeaning(row, engine)(FieldTest(field, Match(ops)))
  {
    var names, got := n.leaf.params, TextsOf(params, n.leaf.params).value;
    SortedCopiesSameMembers(got, Words(ops), StringLe);
    if field in row && row[field].KeywordValue? {
      var s := row[field].s;
      assert Keyword(s) in ops <==> s in got;
      assert s in got <==> exists i | 0 <= i < |names| :: TextOf(params, names[i]) == Some(s);
    } else if field in row && row[field].IntValue? {
      assert row[field].n as real !in Ints(ops);
    }
  }

  /** A row whose field is the number `x`. */
  predicate HoldsNumber(row: Row, field: string, x: real) {
    field in row && row[field].IntValue? && row[field].n as real == x
  }

  lemma PointSelects(n: RNode, field: string, x: real, params: Params, row: Row, engine: Engine)
    requires PointOf(n, field, params) == Some(x)
    ensures RedisSelects(n, params, row, engine) <==> HoldsNumber(row, field, x)
  {
  }

  /** What a list of point intervals selects. */
  lemma PointsSelect(points: seq<RNode>, field: string, got: seq<real>, params: Params, row: Row, engine: Engine)
    requires PointsOf(points, field, params) == Some(got)
    ensures AnyHolds(points, RedisMeaning(params, row, engine)) <==>
            field in row && row[field].IntValue? && row[field].n as real in got
  {
    forall i | 0 <= i < |points|
      ensures Eval(points[i], RedisMeaning(params, row, engine)) <==> HoldsNumber(row, field, got[i])
    {
      PointSelects(points[i], field, got[i], params, row, engine);
    }
  }

  lemma ManyIntsSelect(field: string, ints: seq<real>, n: RNode, params: Params, row: Row, engine: Engine)
    requires IntsExpressed(field, ints, n, params) && |ints| > 1
    ensures RedisSelects(n, params, row, engine) <==>
            field in row && row[field].IntValue? && row[field].n as real in ints
  {
    var got := PointsOf(n.children, field, params).value;
    PointsSelect(n.children, field, got, params, row, engine);
    assert forall x :: x in got <==> x in ints by { SortedCopiesSameMembers(got, ints, RealLe); }
  }

  lemma OneIntSelects(field: string, ints: seq<real>, n: RNode, params: Params, row: Row, engine: Engine)
    requires IntsExpressed(field, ints, n, params) && |ints| == 1
    ensures RedisSelects(n, params, row, engine) <==> HoldsNumber(row, field, ints[0])
  {
    var got := PointsOf([n], field, params).value;
    assert got[0] == ints[0] by {
      SortedCopiesSameMembers(got, ints, RealLe);
      assert got[0] in ints;
    }
    assert [n][0] == n;
    PointSelects(n, field, ints[0], params, row, engine);
  }

  lemma IntsSelect(field: string, ints: seq<real>, n: RNode, params: Params, row: Row, engine: Engine)
    requires IntsExpressed(field, ints, n, params)
    ensures RedisSelects(n, params, row, engine) <==>
            field in row && row[field].IntValue? && row[field].n as real in ints
  {
    if |ints| > 1 {
      ManyIntsSelect(field, ints, n, params, row, engine);
    } else {
      OneIntSelects(field, ints, n, params, row, engine);
      assert ints == [ints[0]];
    }
  }

  lemma IntsSound(field: string, ops: seq<Operand>, n: RNode, params: Params, row: Row, engine: Engine)
    requires Words(ops) == [] && IntsExpressed(field, Ints(ops), n, params)
    ensures RedisSelects(n, params, row, engine) == LeafMeaning(row, engine)(FieldTest(field, Match(ops)))
  {
    IntsSelect(field, Ints(ops), n, params, row, engine);
    IntMatchMeaning(field, ops, row, engine);
  }

  lemma IntMatchMeaning(field: string, ops: seq<Operand>, row: Row, engine: Engine)
    requires Words(ops) == []
    ensures LeafMeaning(row, engine)(FieldTest(field, Match(ops))) <==>
            field in row && row[field].IntValue? && row[field].n as real in Ints(ops)
  {
    if field in row && row[field].KeywordValue? {
      assert row[field].s !in Words(ops);
    }
  }

  lemma LeafSound(l: FieldTest, n: RNode, params: Params, row: Row, engine: Engine)
    requires Translatable(l.test) && LeafExpressed(l, n, params)
    ensures RedisSelects(n, params, row, engine) == LeafMeaning(row, engine)(l)
  {
    if l.test.Match? {
      if Words(l.test.ops) != [] && Ints(l.test.ops) == [] {
        WordsSound(l.field, l.test.ops, n, params, row, engine);
      } else {
        IntsSound(l.field, l.test.ops, n, params, row, engine);
      }
    }
  }

  lemma {:induction false} WalkSound(p: Predicate, n: RNode, params: Params, row: Row, engine: Engine)
    requires Walk(p, n, params) && forall l | l in Leaves(p) :: Translatable(l.test)
    ensures RedisSelects(n, params, row, engine) == Selects(p, row, engine)
    decreases p
  {
    match p
    case Leaf(l) => LeafSound(l, n, params, row, engine);
    case And(pc) => ChildrenSound(pc, n.children, params, row, engine);
    case Or(pc) => ChildrenSound(pc, n.children, params, row, engine);
  }

  lemma {:induction false} ChildrenSound(
    pc: seq<Predicate>, nc: seq<RNode>, params: Params, row: Row, engine: Engine)
    requires |pc| == |nc| && forall i | 0 <= i < |pc| :: Walk(pc[i], nc[i], params)
    requires forall l | l in LeavesOf(pc) :: Translatable(l.test)
    ensures forall i | 0 <= i < |pc| :: RedisSelects(nc[i], params, row, engine) == Selects(pc[i], row, engine)
    decreases pc
  {
    forall i | 0 <= i < |pc|
      ensures RedisSelects(nc[i], params, row, engine) == Selects(pc[i], row, engine)
    {
      forall l | l in Leaves(pc[i]) ensures Translatable(l.test) {
        LeafOfChild(pc, l);
      }
      WalkSound(pc[i], nc[i], params, row, engine);
    }
  }

  /** A well-formed predicate that fits its schema has no mixed value list. */
  lemma SchemaMakesTranslatable(p: Predicate, schema: Option<Json>)
    requires WellFormed(p) && ValidateAgainstSchema(p, schema).Ok?
    ensures forall l | l in Leaves(p) :: Translatable(l.test)
  {
    forall l | l in Leaves(p) ensures Translatable(l.test) {
      assert LeafFits(l, schema.value.fields);
      if l.test.Match? && !Unmixed(l.test.ops) {
        var ops := l.test.ops;
        assert Keyword(Words(ops)[0]) in ops;
        SomeNumber(ops);
        assert false;
      }
    }
  }

  lemma SomeNumber(ops: seq<Operand>)
    requires Ints(ops) != []
    ensures exists i | 0 <= i < |ops| :: ops[i].Number?
  {
  }

  /** Acceptance on a translatable predicate: the text that was sent selects exactly its rows. */
  lemma AcceptanceIsSound(p: Predicate, expr: string, params: Params, row: Row, engine: Engine)
    requires forall l | l in Leaves(p) :: Translatable(l.test)
    requires CheckRedisFilter(p, expr, params).Ok?
    ensures Parse(expr).Ok?
    ensures RedisSelects(Parse(expr).value, params, row, engine) == Selects(p, row, engine)
  {
    var n := Parse(expr).value;
    FlattenKeepsLeaves(p);
    WalkSound(Flatten(p), Flatten(n), params, row, engine);
    FlattenPreservesMeaning(p, LeafMeaning(row, engine));
    FlattenPreservesMeaning(n, RedisMeaning(params, row, engine));
  }

  /**
    Validator soundness. For every `conditions` value that compiles and fits the schema, every
    expression and every parameter map: acceptance means the expression selects exactly the rows
    the predicate selects, and agrees with the row oracle wherever the oracle answers.
   */
  lemma ValidatorSound(
    conditions: Json, schema: Option<Json>, expr: string, params: Params,
    row: Row, classify: Classifier, engine: Engine)
    requires Compile(conditions).Ok?
    requires ValidateAgainstSchema(Compile(conditions).value, schema).Ok?
    requires CheckRedisFilter(Compile(conditions).value, expr, params).Ok?
    ensures Parse(expr).Ok?
    ensures var p := Compile(conditions).value;
            var sent := RedisSelects(Parse(expr).value, params, row, engine);
            && sent == Selects(p, row, engine)
            && (Agree(classify, engine) && Matches(p, row, classify).Ok? ==>
                  Matches(p, row, classify) == Ok(sent))
  {
    var p := Compile(conditions).value;
    CompiledIsWellFormed(conditions);
    SchemaMakesTranslatable(p, schema);
    AcceptanceIsSound(p, expr, params, row, engine);
    if Agree(classify, engine) && Matches(p, row, classify).Ok? {
      MatchesIsMeaning(p, row, classify, engine);
    }
  }

  /** Why the schema check matters: an accepted value list is expressed exactly when it is not mixed. */
  lemma AcceptedMatchIsExactIffUnmixed(field: string, ops: seq<Operand>, n: RNode, params: Params, engine: Engine)
    requires LeafExpressed(FieldTest(field, Match(ops)), n, params)
    ensures (forall row: Row :: RedisSelects(n, params, row, engine) ==
                                LeafMeaning(row, engine)(FieldTest(field, Match(ops))))
            <==> Unmixed(ops)
  {
    if Unmixed(ops) {
      forall row: Row
        ensures RedisSelects(n, params, row, engine) == LeafMeaning(row, engine)(FieldTest(field, Match(ops)))
      {
        if Words(ops) != [] { WordsSound(field, ops, n, params, row, engine); }
        else { IntsSound(field, ops, n, params, row, engine); }
      }
    } else {
      var word := Words(ops)[0];
      var row: Row := map[field := KeywordValue(word)];
      IntsSelect(field, Ints(ops), n, params, row, engine);
      assert Keyword(word) in ops;
      assert LeafMeaning(row, engine)(FieldTest(field, Match(ops)));
    }
  }
}
