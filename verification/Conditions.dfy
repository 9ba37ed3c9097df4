/**
  What `conditions` can say: writing a predicate or an expression as JSON and compiling it gives it
  back, and nothing else ever compiles. `Predicate::compile` is in src/msmarco/derived.rs,
  `Expr::node` in src/compound_text.rs.
 */
module Conditions {
  import opened Outcomes
  import opened Json
  import opened Predicates
  import opened Compound

  // ----- Leaves -----

  predicate ExactReal(x: real) { -(MAX_EXACT_INTEGER as real) <= x <= MAX_EXACT_INTEGER as real }

  predicate ExactOperand(o: Operand) { o.Number? ==> -MAX_EXACT_INTEGER <= o.value <= MAX_EXACT_INTEGER }

  predicate ExactBound(b: Option<real>) { b.Some? ==> ExactReal(b.value) }

  /** A test that some JSON body compiles to: valid, every number exact in `f64`, a range with a bound. */
  predicate ExactTest(t: Test) {
    ValidTest(t) &&
    match t
    case TextMatch(_) => true
    case Match(ops) => forall i | 0 <= i < |ops| :: ExactOperand(ops[i])
    case Range(gt, gte, lt, lte) =>
      && ExactBound(gt) && ExactBound(gte) && ExactBound(lt) && ExactBound(lte)
      && (gt.Some? || gte.Some? || lt.Some? || lte.Some?)
  }

  function One(key: string, v: Json): Json { Obj(map[key := v]) }

  function TestJson(t: Test): Json {
    match t
    case TextMatch(term) => One("match", One("text", Str(term)))
    case Match(ops) => One("match", One("any", Arr(OperandsJson(ops))))
    case Range(_, _, _, _) => One("range", Obj(BoundsJson(t)))
  }

  lemma {:induction false} OperandsRead(vs: seq<Json>, ops: seq<Operand>)
    requires |vs| == |ops| && forall i | 0 <= i < |ops| :: CompileOperand(vs[i]) == Ok(ops[i])
    ensures CompileOperands(vs) == Ok(ops)
  {
    if vs != [] {
      OperandsRead(vs[1..], ops[1..]);
      assert [ops[0]] + ops[1..] == ops;
    }
  }

  lemma MatchReads(ops: seq<Operand>)
    requires ops != [] && forall i | 0 <= i < |ops| :: ExactOperand(ops[i])
    ensures CompileMatch(One("any", Arr(OperandsJson(ops)))) == Ok(Match(ops))
  {
    var vs := OperandsJson(ops);
    forall i | 0 <= i < |ops| ensures CompileOperand(vs[i]) == Ok(ops[i]) {
      assert vs[i] == OperandJson(ops[i]);
    }
    OperandsRead(vs, ops);
    assert |"any"| == 3 && |"text"| == 4 && |"value"| == 5;
  }

  lemma TermReads(term: string)
    requires ValidTerm(term)
    ensures CompileMatch(One("text", Str(term))) == Ok(TextMatch(term))
  {
  }

  lemma RangeReads(t: Test)
    requires t.Range? && ExactTest(t)
    ensures CompileRange(Obj(BoundsJson(t))) == Ok(t)
  {
    var c := BoundsJson(t);
    assert BoundAt(c, "gt") == t.gt && BoundAt(c, "gte") == t.gte;
    assert BoundAt(c, "lt") == t.lt && BoundAt(c, "lte") == t.lte;
    assert c.Keys != {};
    forall k | k in c ensures k in BOUND_KEYS && ValidBound(c[k]) {}
  }

  lemma TestReads(t: Test)
    requires ExactTest(t)
    ensures CompileTest(TestJson(t)) == Ok(t)
  {
    match t
    case TextMatch(term) =>
      TermReads(term);
      OneEntry("match", One("text", Str(term)));
    case Match(ops) =>
      MatchReads(ops);
      OneEntry("match", One("any", Arr(OperandsJson(ops))));
    case Range(_, _, _, _) =>
      RangeReads(t);
      OneEntry("range", Obj(BoundsJson(t)));
  }

  lemma CompiledRangeIsExact(criteria: Json)
    requires CompileRange(criteria).Ok?
    ensures ExactTest(CompileRange(criteria).value)
  {
    var c := criteria.fields;
    assert exists k :: k in c by {
      assert c.Keys != {};
    }
  }

  lemma CompiledMatchIsExact(criteria: Json)
    requires CompileMatch(criteria).Ok?
    ensures ExactTest(CompileMatch(criteria).value)
  {
    var c := criteria.fields;
    if "text" !in c && "value" !in c {
      var vs, ops := c["any"].items, CompileOperands(c["any"].items).value;
      forall i | 0 <= i < |ops| ensures ExactOperand(ops[i]) {
        assert CompileOperand(vs[i]) == Ok(ops[i]);
      }
    }
  }

  lemma CompiledTestIsExact(body: Json)
    requires CompileTest(body).Ok?
    ensures ExactTest(CompileTest(body).value)
  {
    var op := OnlyKey(body.fields);
    if op == "match" { CompiledMatchIsExact(body.fields[op]); } else { CompiledRangeIsExact(body.fields[op]); }
  }

  // ----- Predicates -----

  /** A predicate that some JSON node compiles to. */
  ghost predicate Sayable(p: Predicate) {
    match p
    case And(c) => c != [] && forall i | 0 <= i < |c| :: Sayable(c[i])
    case Or(c) => c != [] && forall i | 0 <= i < |c| :: Sayable(c[i])
    case Leaf(l) => l.field != "and" && l.field != "or" && ExactTest(l.test)
  }

  function PredicateJson(p: Predicate): Json
    decreases p, 1
  {
    match p
    case And(c) => One("and", Arr(PredicatesJson(c)))
    case Or(c) => One("or", Arr(PredicatesJson(c)))
    case Leaf(l) => One(l.field, TestJson(l.test))
  }

  function PredicatesJson(c: seq<Predicate>): (r: seq<Json>)
    ensures |r| == |c| && forall i | 0 <= i < |c| :: r[i] == PredicateJson(c[i])
    decreases c, 0
  {
    if c == [] then [] else [PredicateJson(c[0])] + PredicatesJson(c[1..])
  }

  lemma {:induction false} NodesRead(vs: seq<Json>, ps: seq<Predicate>)
    requires |vs| == |ps| && forall i | 0 <= i < |ps| :: CompileNode(vs[i]) == Ok(ps[i])
    ensures CompileNodes(vs) == Ok(ps)
  {
    if vs != [] {
      NodesRead(vs[1..], ps[1..]);
      assert [ps[0]] + ps[1..] == ps;
    }
  }

  /** Writing a predicate and compiling it gives it back. */
  lemma {:induction false} PredicateReads(p: Predicate)
    requires Sayable(p)
    ensures CompileNode(PredicateJson(p)) == Ok(p)
  {
    match p
    case Leaf(l) =>
      OneEntry(l.field, TestJson(l.test));
      TestReads(l.test);
    case And(c) =>
      forall i | 0 <= i < |c| ensures CompileNode(PredicatesJson(c)[i]) == Ok(c[i]) { PredicateReads(c[i]); }
      NodesRead(PredicatesJson(c), c);
      OneEntry("and", Arr(PredicatesJson(c)));
    case Or(c) =>
      forall i | 0 <= i < |c| ensures CompileNode(PredicatesJson(c)[i]) == Ok(c[i]) { PredicateReads(c[i]); }
      NodesRead(PredicatesJson(c), c);
      OneEntry("or", Arr(PredicatesJson(c)));
  }

  lemma {:induction false} CompiledIsSayable(v: Json)
    requires CompileNode(v).Ok?
    ensures Sayable(CompileNode(v).value)
    decreases v
  {
    var key := OnlyKey(v.fields);
    var body := v.fields[key];
    if key == "and" || key == "or" {
      var c := CompileNodes(body.items).value;
      forall i | 0 <= i < |c| ensures Sayable(c[i]) { CompiledIsSayable(body.items[i]); }
    } else {
      CompiledTestIsExact(body);
    }
  }

  /** Exactly which predicates `conditions` can express: groups at the top, sayable throughout. */
  lemma CompileImage(p: Predicate)
    ensures (exists v :: Compile(v) == Ok(p)) <==> Sayable(p) && !p.Leaf?
  {
    if v :| Compile(v) == Ok(p) {
      CompiledIsSayable(v);
      assert OnlyKey(v.fields) in {"and", "or"};
    }
    if Sayable(p) && !p.Leaf? {
      PredicateReads(p);
      assert Compile(PredicateJson(p)) == Ok(p);
    }
  }

  // ----- Compound expressions -----

  /** A leaf that fits the schema, on a plain field, with plain tags. */
  predicate SayableLeaf(l: FieldTest, schema: Json) {
    && l.field !in ["and", "or", "not"] && CompiledLeaf(l) && ExactTest(l.test)
    && schema.Obj? && LeafFits(l, schema.fields)
  }

  /** An expression that some JSON compiles to at nesting depth `depth`. */
  ghost predicate Expressible(e: Expr, schema: Json, depth: nat) {
    depth <= MAX_DEPTH &&
    match e
    case And(c) => c != [] && forall i | 0 <= i < |c| :: Expressible(c[i], schema, depth + 1)
    case Or(c) => c != [] && forall i | 0 <= i < |c| :: Expressible(c[i], schema, depth + 1)
    case Not(p) => Expressible(p, schema, depth + 1)
    case Leaf(l) => SayableLeaf(l, schema)
  }

  function ExprJson(e: Expr): Json
    decreases e, 1
  {
    match e
    case And(c) => One("and", Arr(ExprsJson(c)))
    case Or(c) => One("or", Arr(ExprsJson(c)))
    case Not(p) => One("not", ExprJson(p))
    case Leaf(l) => One(l.field, TestJson(l.test))
  }

  function ExprsJson(c: seq<Expr>): (r: seq<Json>)
    ensures |r| == |c| && forall i | 0 <= i < |c| :: r[i] == ExprJson(c[i])
    decreases c, 0
  {
    if c == [] then [] else [ExprJson(c[0])] + ExprsJson(c[1..])
  }

  lemma {:induction false} ExprsRead(vs: seq<Json>, es: seq<Expr>, schema: Json, depth: nat)
    requires |vs| == |es| && forall i | 0 <= i < |es| :: CompileExpr(vs[i], schema, depth) == Ok(es[i])
    ensures CompileExprs(vs, schema, depth) == Ok(es)
  {
    if vs != [] {
      ExprsRead(vs[1..], es[1..], schema, depth);
      assert [es[0]] + es[1..] == es;
    }
  }

  lemma LeafReads(l: FieldTest, schema: Json, depth: nat)
    requires SayableLeaf(l, schema) && depth <= MAX_DEPTH
    ensures CompileExpr(ExprJson(Leaf(l)), schema, depth) == Ok(Leaf(l))
  {
    OneEntry(l.field, TestJson(l.test));
    TestReads(l.test);
    assert l.field != "and" && l.field != "or" && l.field != "not" by {
      var keys := ["and", "or", "not"];
      assert keys[0] in keys && keys[1] in keys && keys[2] in keys;
    }
  }

  /** Writing an expression and compiling it gives it back. */
  lemma {:induction false} ExprReads(e: Expr, schema: Json, depth: nat)
    requires Expressible(e, schema, depth)
    ensures CompileExpr(ExprJson(e), schema, depth) == Ok(e)
    decreases e, 1
  {
    match e
    case Leaf(l) => LeafReads(l, schema, depth);
    case Not(p) =>
      ExprReads(p, schema, depth + 1);
      OneEntry("not", ExprJson(p));
    case And(c) =>
      ChildrenRead(c, schema, depth + 1);
      GroupReads(c, true, schema, depth);
    case Or(c) =>
      ChildrenRead(c, schema, depth + 1);
      GroupReads(c, false, schema, depth);
  }

  lemma GroupReads(c: seq<Expr>, inAnd: bool, schema: Json, depth: nat)
    requires Expressible(if inAnd then And(c) else Or(c), schema, depth)
    requires CompileExprs(ExprsJson(c), schema, depth + 1) == Ok(c)
    ensures var e := if inAnd then And(c) else Or(c); CompileExpr(ExprJson(e), schema, depth) == Ok(e)
  {
    OneEntry(if inAnd then "and" else "or", Arr(ExprsJson(c)));
  }

  lemma {:induction false} ChildrenRead(c: seq<Expr>, schema: Json, depth: nat)
    requires forall i | 0 <= i < |c| :: Expressible(c[i], schema, depth)
    ensures CompileExprs(ExprsJson(c), schema, depth) == Ok(c)
    decreases c, 0
  {
    forall i | 0 <= i < |c| ensures CompileExpr(ExprsJson(c)[i], schema, depth) == Ok(c[i]) {
      ExprReads(c[i], schema, depth);
    }
    ExprsRead(ExprsJson(c), c, schema, depth);
  }

  lemma CompiledLeafIsSayable(v: Json, schema: Json, depth: nat)
    requires CompileExpr(v, schema, depth).Ok? && OnlyKey(v.fields) !in ["and", "or", "not"]
    ensures var e := CompileExpr(v, schema, depth).value; e.Leaf? && SayableLeaf(e.leaf, schema)
  {
    CompiledTestIsExact(v.fields[OnlyKey(v.fields)]);
  }

  lemma {:induction false} CompiledIsExpressible(v: Json, schema: Json, depth: nat)
    requires CompileExpr(v, schema, depth).Ok?
    ensures Expressible(CompileExpr(v, schema, depth).value, schema, depth)
    decreases v
  {
    var key := OnlyKey(v.fields);
    var body := v.fields[key];
    if key == "and" || key == "or" {
      var c := CompileExprs(body.items, schema, depth + 1).value;
      forall i | 0 <= i < |c| ensures Expressible(c[i], schema, depth + 1) {
        CompiledIsExpressible(body.items[i], schema, depth + 1);
      }
    } else if key == "not" {
      CompiledIsExpressible(body, schema, depth + 1);
    } else {
      CompiledLeafIsSayable(v, schema, depth);
    }
  }

  /** Exactly which expressions compile under a schema, nesting limit included. */
  lemma CompileExprImage(e: Expr, schema: Json)
    ensures (exists v :: CompileExpr(v, schema, 0) == Ok(e)) <==> Expressible(e, schema, 0)
  {
    if v :| CompileExpr(v, schema, 0) == Ok(e) { CompiledIsExpressible(v, schema, 0); }
    if Expressible(e, schema, 0) { ExprReads(e, schema, 0); }
  }

  /** Every text the expression looks at is decided by the classifier. */
  ghost predicate AllDecided(e: Expr, row: Row, classify: Classifier) {
    match e
    case And(c) => forall i | 0 <= i < |c| :: AllDecided(c[i], row, classify)
    case Or(c) => forall i | 0 <= i < |c| :: AllDecided(c[i], row, classify)
    case Not(p) => AllDecided(p, row, classify)
    case Leaf(l) => Decided(l, row, classify)
  }

  /** The oracle answers every compiled expression on every row of the schema's types, unless a text is ambiguous. */
  lemma {:induction false} OracleAnswers(e: Expr, schema: Json, depth: nat, row: Row, classify: Classifier)
    requires Expressible(e, schema, depth) && AllDecided(e, row, classify)
    requires schema.Obj? && RowFits(row, schema.fields)
    ensures ExprMatches(e, row, classify).Ok?
    decreases e, 1
  {
    match e
    case Leaf(l) => LeafAnswers(l, row, schema.fields, classify);
    case Not(p) => OracleAnswers(p, schema, depth + 1, row, classify);
    case And(c) => GroupAnswers(c, true, schema, depth + 1, row, classify);
    case Or(c) => GroupAnswers(c, false, schema, depth + 1, row, classify);
  }

  lemma {:induction false} GroupAnswers(
    c: seq<Expr>, inAnd: bool, schema: Json, depth: nat, row: Row, classify: Classifier)
    requires forall i | 0 <= i < |c| :: Expressible(c[i], schema, depth) && AllDecided(c[i], row, classify)
    requires schema.Obj? && RowFits(row, schema.fields)
    ensures GroupMatches(c, inAnd, row, classify).Ok?
    decreases c, 0
  {
    if c != [] {
      OracleAnswers(c[0], schema, depth, row, classify);
      GroupAnswers(c[1..], inAnd, schema, depth, row, classify);
    }
  }
}
