/** The Boolean text/scalar matching of src/compound_text.rs: compilation, the row oracle, OpenSearch. */
module Compound {
  import opened Outcomes
  import opened Json
  import opened Text
  import opened Predicates
  import D = Decimals

  datatype Expr =
    | And(children: seq<Expr>)
    | Or(children: seq<Expr>)
    | Not(child: Expr)
    | Leaf(leaf: FieldTest)

  // ----- Compilation -----

  datatype ExprError =
    | TooDeep | NotOneOperator | EmptyBooleanGroup | NotAnIdentifier | BadLeaf | NotInSchema | WrongType | BadTag

  const MAX_DEPTH: nat := 32


  predicate PlainIdentifier(f: string) {
    && f != "" && !D.IsDigit(f[0])
    && forall i | 0 <= i < |f| :: IsAsciiAlphanumeric(f[i]) || f[i] == '_'
  }

  predicate IsControl(c: char) { c <= '\U{1F}' || '\U{7F}' <= c <= '\U{9F}' }

  /** Nonempty, without `;`, edge whitespace or control characters. */
  predicate PlainTag(s: string) {
    s != "" && ';' !in s && Trim(s) == s && forall i | 0 <= i < |s| :: !IsControl(s[i])
  }

  predicate PlainTags(t: Test) {
    t.Match? ==> forall i | 0 <= i < |t.ops| && t.ops[i].Keyword? :: PlainTag(t.ops[i].word)
  }

  function CompileExpr(v: Json, schema: Json, depth: nat): Result<Expr, ExprError>
    decreases v, 1
  {
    if depth > MAX_DEPTH then Err(TooDeep)
    else if !v.Obj? || |v.fields| != 1 then Err(NotOneOperator) else
      var key := OnlyKey(v.fields);
      var body := v.fields[key];
      if key == "and" || key == "or" then
        if !body.Arr? || body.items == [] then Err(EmptyBooleanGroup) else
          var children :- CompileExprs(body.items, schema, depth + 1);
          Ok(if key == "and" then And(children) else Or(children))
      else if key == "not" then
        var child :- CompileExpr(body, schema, depth + 1);
        Ok(Not(child))
      else if !PlainIdentifier(key) then Err(NotAnIdentifier)
      else
        match CompileTest(body)
        case Err(_) => Err(BadLeaf)
        case Ok(test) =>
          match Get(schema, key)
          case Some(Str(kind)) =>
            if !TestFits(test, kind) then Err(WrongType)
            else if !PlainTags(test) then Err(BadTag)
            else Ok(Leaf(FieldTest(key, test)))
          case _ => Err(NotInSchema)
  }

  function CompileExprs(vs: seq<Json>, schema: Json, depth: nat): (r: Result<seq<Expr>, ExprError>)
    ensures r.Ok? ==> |r.value| == |vs|
    ensures r.Ok? ==> forall i | 0 <= i < |vs| :: CompileExpr(vs[i], schema, depth) == Ok(r.value[i])
    decreases vs, 0
  {
    if vs == [] then Ok([]) else
      var e :- CompileExpr(vs[0], schema, depth);
      var es :- CompileExprs(vs[1..], schema, depth);
      Ok([e] + es)
  }

  /** What compilation guarantees of a leaf: a plain field, a valid test, plain tags. */
  predicate CompiledLeaf(l: FieldTest) {
    PlainIdentifier(l.field) && ValidTest(l.test) && PlainTags(l.test)
  }

  ghost predicate Compiled(e: Expr) {
    match e
    case And(c) => c != [] && forall i | 0 <= i < |c| :: Compiled(c[i])
    case Or(c) => c != [] && forall i | 0 <= i < |c| :: Compiled(c[i])
    case Not(p) => Compiled(p)
    case Leaf(l) => CompiledLeaf(l)
  }

  lemma {:induction false} CompileIsCompiled(v: Json, schema: Json, depth: nat)
    requires CompileExpr(v, schema, depth).Ok?
    ensures Compiled(CompileExpr(v, schema, depth).value)
    decreases v
  {
    var key := OnlyKey(v.fields);
    var body := v.fields[key];
    if key == "and" || key == "or" {
      var c := CompileExprs(body.items, schema, depth + 1).value;
      forall i | 0 <= i < |c| ensures Compiled(c[i]) {
        CompileIsCompiled(body.items[i], schema, depth + 1);
      }
    } else if key == "not" {
      CompileIsCompiled(body, schema, depth + 1);
    }
  }

  // ----- The row oracle and the meaning -----

  /** `Expr::matches`: children left to right, stopping at the first that decides the group. */
  function ExprMatches(e: Expr, row: Row, classify: Classifier): Result<bool, EvalError>
    decreases e, 1
  {
    match e
    case And(c) => GroupMatches(c, true, row, classify)
    case Or(c) => GroupMatches(c, false, row, classify)
    case Not(p) =>
      var b :- ExprMatches(p, row, classify);
      Ok(!b)
    case Leaf(l) => LeafMatches(l, row, classify)
  }

  function GroupMatches(c: seq<Expr>, inAnd: bool, row: Row, classify: Classifier): Result<bool, EvalError>
    decreases c, 0
  {
    if c == [] then Ok(inAnd) else
      var first :- ExprMatches(c[0], row, classify);
      if first != inAnd then Ok(!inAnd) else GroupMatches(c[1..], inAnd, row, classify)
  }

  predicate ExprSelects(e: Expr, row: Row, engine: Engine) {
    match e
    case And(c) => forall i | 0 <= i < |c| :: ExprSelects(c[i], row, engine)
    case Or(c) => exists i | 0 <= i < |c| :: ExprSelects(c[i], row, engine)
    case Not(p) => !ExprSelects(p, row, engine)
    case Leaf(l) => LeafMeaning(row, engine)(l)
  }

  lemma {:induction false} OracleIsMeaning(e: Expr, row: Row, classify: Classifier, engine: Engine)
    requires Agree(classify, engine) && ExprMatches(e, row, classify).Ok?
    ensures ExprMatches(e, row, classify).value == ExprSelects(e, row, engine)
    decreases e, 1
  {
    match e
    case Leaf(l) =>
    case Not(p) => OracleIsMeaning(p, row, classify, engine);
    case And(c) => GroupOracle(c, true, row, classify, engine);
    case Or(c) => GroupOracle(c, false, row, classify, engine);
  }

  lemma {:induction false} GroupOracle(c: seq<Expr>, inAnd: bool, row: Row, classify: Classifier, engine: Engine)
    requires Agree(classify, engine) && GroupMatches(c, inAnd, row, classify).Ok?
    ensures GroupMatches(c, inAnd, row, classify).value ==
            if inAnd then ExprSelects(And(c), row, engine) else ExprSelects(Or(c), row, engine)
    decreases c, 0
  {
    if c != [] {
      OracleIsMeaning(c[0], row, classify, engine);
      assert forall i | 0 < i < |c| :: c[i] == c[1..][i - 1];
      if ExprMatches(c[0], row, classify).value == inAnd {
        GroupOracle(c[1..], inAnd, row, classify, engine);
      }
      assert ExprSelects(And(c), row, engine) <==>
             ExprSelects(c[0], row, engine) && ExprSelects(And(c[1..]), row, engine);
      assert ExprSelects(Or(c), row, engine) <==>
             ExprSelects(c[0], row, engine) || ExprSelects(Or(c[1..]), row, engine);
    }
  }

  function ExprResults(c: seq<Expr>, row: Row, classify: Classifier): (rs: seq<Result<bool, EvalError>>)
    ensures |rs| == |c| && forall i | 0 <= i < |c| :: rs[i] == ExprMatches(c[i], row, classify)
  {
    seq(|c|, i requires 0 <= i < |c| => ExprMatches(c[i], row, classify))
  }

  /** The first child that decides the group or fails settles it; without one, every child agreed. */
  lemma {:induction false} ExprGroupDecides(
    c: seq<Expr>, inAnd: bool, r: Result<bool, EvalError>, row: Row, classify: Classifier)
    ensures GroupMatches(c, inAnd, row, classify) == r <==> Settles(ExprResults(c, row, classify), inAnd, r)
  {
    ExprGroupIsFirstOther(c, inAnd, row, classify);
    FirstOtherSettles(ExprResults(c, row, classify), inAnd);
    if Settles(ExprResults(c, row, classify), inAnd, r) {
      OneSettles(ExprResults(c, row, classify), inAnd, r, GroupMatches(c, inAnd, row, classify));
    }
  }

  lemma {:induction false} ExprGroupIsFirstOther(c: seq<Expr>, inAnd: bool, row: Row, classify: Classifier)
    ensures GroupMatches(c, inAnd, row, classify) == FirstOther(ExprResults(c, row, classify), inAnd)
  {
    if c != [] {
      ExprGroupIsFirstOther(c[1..], inAnd, row, classify);
      assert ExprResults(c, row, classify)[1..] == ExprResults(c[1..], row, classify);
    }
  }

  // ----- OpenSearch -----

  function BoolQuery(clauses: map<string, Json>): Json {
    Obj(map["bool" := Obj(clauses)])
  }

  function OperandJson(o: Operand): Json {
    match o
    case Keyword(w) => Str(w)
    case Number(n) => Int(n)
  }

  function OperandsJson(ops: seq<Operand>): (r: seq<Json>)
    ensures |r| == |ops| && forall i | 0 <= i < |ops| :: r[i] == OperandJson(ops[i])
  {
    seq(|ops|, i requires 0 <= i < |ops| => OperandJson(ops[i]))
  }

  function WithBound(m: map<string, Json>, key: string, bound: Option<real>): map<string, Json> {
    if bound.Some? then m[key := Float(bound.value)] else m
  }

  function BoundsJson(t: Test): map<string, Json>
    requires t.Range?
  {
    WithBound(WithBound(WithBound(WithBound(map[], "gt", t.gt), "gte", t.gte), "lt", t.lt), "lte", t.lte)
  }

  function LeafQuery(l: FieldTest): Json {
    match l.test
    case TextMatch(term) =>
      Obj(map["match" := Obj(map[l.field := Obj(map["query" := Str(term), "operator" := Str("and")])])])
    case Match(ops) =>
      BoolQuery(map["filter" := Arr([Obj(map["terms" := Obj(map[l.field := Arr(OperandsJson(ops))])])])])
    case Range(_, _, _, _) =>
      BoolQuery(map["filter" := Arr([Obj(map["range" := Obj(map[l.field := Obj(BoundsJson(l.test))])])])])
  }

  /** `Expr::opensearch`. */
  function OpenSearch(e: Expr): Json
    decreases e, 1
  {
    match e
    case And(c) => BoolQuery(map["must" := Arr(OpenSearchAll(c))])
    case Or(c) => BoolQuery(map["should" := Arr(OpenSearchAll(c)), "minimum_should_match" := Int(1)])
    case Not(p) => BoolQuery(map["must_not" := Arr([OpenSearch(p)])])
    case Leaf(l) => LeafQuery(l)
  }

  function OpenSearchAll(c: seq<Expr>): (r: seq<Json>)
    ensures |r| == |c|
    ensures forall i | 0 <= i < |c| :: r[i] == OpenSearch(c[i])
    decreases c, 0
  {
    if c == [] then [] else [OpenSearch(c[0])] + OpenSearchAll(c[1..])
  }

  // ----- What an OpenSearch query selects -----

  function Clauses(b: map<string, Json>, key: string): seq<Json> {
    if key in b && b[key].Arr? then b[key].items else []
  }

  /** The number of `should` clauses that must match: given, or 1 only where nothing else is required. */
  function MinimumShould(b: map<string, Json>): int {
    if "minimum_should_match" in b && b["minimum_should_match"].Int? then b["minimum_should_match"].n
    else if Clauses(b, "should") != [] && Clauses(b, "must") == [] && Clauses(b, "filter") == [] then 1
    else 0
  }

  predicate InTerms(v: FieldValue, values: seq<Json>) {
    match v
    case KeywordValue(s) => Str(s) in values
    case IntValue(n) => Int(n) in values
    case _ => false
  }

  predicate WithinBounds(x: real, b: map<string, Json>) {
    && ("gt" in b && AsReal(b["gt"]).Some? ==> x > AsReal(b["gt"]).value)
    && ("gte" in b && AsReal(b["gte"]).Some? ==> x >= AsReal(b["gte"]).value)
    && ("lt" in b && AsReal(b["lt"]).Some? ==> x < AsReal(b["lt"]).value)
    && ("lte" in b && AsReal(b["lte"]).Some? ==> x <= AsReal(b["lte"]).value)
  }

  /** A leaf query `{kind: {field: body}}`. */
  predicate OsLeafSelects(kind: string, field: string, body: Json, row: Row, engine: Engine) {
    field in row &&
    if kind == "match" then
      row[field].KeywordValue? && Get(body, "query").Some? && Get(body, "query").value.Str?
      && engine(row[field].s, Get(body, "query").value.s)
    else if kind == "terms" then body.Arr? && InTerms(row[field], body.items)
    else kind == "range" && body.Obj? && row[field].IntValue? && WithinBounds(row[field].n as real, body.fields)
  }

  predicate OsSelects(q: Json, row: Row, engine: Engine)
    decreases q, 0
  {
    q.Obj? && |q.fields| == 1 &&
    var kind := OnlyKey(q.fields);
    var body := q.fields[kind];
    body.Obj? &&
    if kind == "bool" then BoolSelects(body, row, engine)
    else |body.fields| == 1 && OsLeafSelects(kind, OnlyKey(body.fields), body.fields[OnlyKey(body.fields)], row, engine)
  }

  /** `bool`: every `must` and `filter` clause, no `must_not` clause, enough `should` clauses. */
  predicate BoolSelects(body: Json, row: Row, engine: Engine)
    requires body.Obj?
    decreases body, 2
  {
    var b := body.fields;
    && CountAt(body, "must", row, engine) == |Clauses(b, "must")|
    && CountAt(body, "filter", row, engine) == |Clauses(b, "filter")|
    && CountAt(body, "must_not", row, engine) == 0
    && CountAt(body, "should", row, engine) >= MinimumShould(b)
  }

  /** How many clauses under `key` select the row. */
  function CountAt(body: Json, key: string, row: Row, engine: Engine): nat
    requires body.Obj?
    decreases body, 1
  {
    if key in body.fields && body.fields[key].Arr? then CountSelecting(body.fields[key].items, row, engine) else 0
  }

  function CountSelecting(qs: seq<Json>, row: Row, engine: Engine): (n: nat)
    ensures n <= |qs|
    ensures n == |qs| <==> forall i | 0 <= i < |qs| :: OsSelects(qs[i], row, engine)
    ensures n == 0 <==> forall i | 0 <= i < |qs| :: !OsSelects(qs[i], row, engine)
    decreases qs, 0
  {
    if qs == [] then 0 else
      assert forall i | 0 < i < |qs| :: qs[i] == qs[1..][i - 1];
      (if OsSelects(qs[0], row, engine) then 1 else 0) + CountSelecting(qs[1..], row, engine)
  }

  lemma OneEntry(key: string, v: Json)
    ensures OnlyKey(map[key := v]) == key
  {
    assert key in map[key := v].Keys;
  }

  lemma LeafObject(kind: string, field: string, body: Json, row: Row, engine: Engine)
    requires kind != "bool"
    ensures OsSelects(Obj(map[kind := Obj(map[field := body])]), row, engine) ==
            OsLeafSelects(kind, field, body, row, engine)
  {
    OneEntry(kind, Obj(map[field := body]));
    OneEntry(field, body);
  }

  lemma BoolObject(b: map<string, Json>, row: Row, engine: Engine)
    ensures OsSelects(BoolQuery(b), row, engine) == BoolSelects(Obj(b), row, engine)
  {
    OneEntry("bool", Obj(b));
  }

  lemma ClauseKeys()
    ensures "must" != "filter" && "must" != "must_not" && "must" != "should"
    ensures "filter" != "must_not" && "filter" != "should" && "must_not" != "should"
    ensures "minimum_should_match" !in {"must", "filter", "must_not", "should"}
  {
    assert |"must"| == 4 && |"filter"| == 6 && |"must_not"| == 8 && |"should"| == 6;
    assert |"minimum_should_match"| == 20;
    assert "filter"[0] == 'f' && "should"[0] == 's';
  }

  /** A `bool` query with one clause list and nothing else. */
  lemma OneClause(key: string, qs: seq<Json>, row: Row, engine: Engine)
    requires key in {"must", "filter", "must_not"}
    ensures OsSelects(BoolQuery(map[key := Arr(qs)]), row, engine) <==>
            CountSelecting(qs, row, engine) == if key == "must_not" then 0 else |qs|
  {
    var b := map[key := Arr(qs)];
    BoolObject(b, row, engine);
    assert "should" != key && "minimum_should_match" != key by { ClauseKeys(); }
    AbsentClause(b, "should", row, engine);
    if key != "must" { AbsentClause(b, "must", row, engine); }
    if key != "filter" { AbsentClause(b, "filter", row, engine); }
    if key != "must_not" { AbsentClause(b, "must_not", row, engine); }
    PresentClause(b, key, row, engine);
    assert MinimumShould(b) == 0;
  }

  lemma AbsentClause(b: map<string, Json>, key: string, row: Row, engine: Engine)
    requires key !in b
    ensures CountAt(Obj(b), key, row, engine) == 0 && Clauses(b, key) == []
  {
  }

  lemma PresentClause(b: map<string, Json>, key: string, row: Row, engine: Engine)
    requires key in b && b[key].Arr?
    ensures CountAt(Obj(b), key, row, engine) == CountSelecting(b[key].items, row, engine)
    ensures Clauses(b, key) == b[key].items
  {
  }

  lemma FilterObject(q: Json, row: Row, engine: Engine)
    ensures OsSelects(BoolQuery(map["filter" := Arr([q])]), row, engine) == OsSelects(q, row, engine)
  {
    OneClause("filter", [q], row, engine);
    assert [q][0] == q;
  }

  lemma BoundsSelect(t: Test, x: real)
    requires t.Range?
    ensures WithinBounds(x, BoundsJson(t)) == InRange(t, x)
  {
  }

  lemma TermsSelect(v: FieldValue, ops: seq<Operand>, engine: Engine)
    ensures InTerms(v, OperandsJson(ops)) == TestSelects(Match(ops), v, engine)
  {
    var js := OperandsJson(ops);
    forall o: Operand ensures OperandJson(o) in js <==> o in ops {
      if o in ops {
        var i :| 0 <= i < |ops| && ops[i] == o;
        assert js[i] == OperandJson(o);
      }
    }
    if v.KeywordValue? { assert OperandJson(Keyword(v.s)) in js <==> Keyword(v.s) in ops; }
    if v.IntValue? { assert OperandJson(Number(v.n)) in js <==> Number(v.n) in ops; }
  }

  lemma MatchQuerySelects(field: string, ops: seq<Operand>, row: Row, engine: Engine)
    ensures OsSelects(LeafQuery(FieldTest(field, Match(ops))), row, engine) ==
            LeafMeaning(row, engine)(FieldTest(field, Match(ops)))
  {
    var body := Arr(OperandsJson(ops));
    FilterObject(Obj(map["terms" := Obj(map[field := body])]), row, engine);
    LeafObject("terms", field, body, row, engine);
    if field in row { TermsSelect(row[field], ops, engine); }
  }

  lemma RangeQuerySelects(field: string, t: Test, row: Row, engine: Engine)
    requires t.Range?
    ensures OsSelects(LeafQuery(FieldTest(field, t)), row, engine) == LeafMeaning(row, engine)(FieldTest(field, t))
  {
    var body := Obj(BoundsJson(t));
    FilterObject(Obj(map["range" := Obj(map[field := body])]), row, engine);
    LeafObject("range", field, body, row, engine);
    if field in row && row[field].IntValue? { BoundsSelect(t, row[field].n as real); }
  }

  lemma LeafQuerySelects(l: FieldTest, row: Row, engine: Engine)
    ensures OsSelects(LeafQuery(l), row, engine) == LeafMeaning(row, engine)(l)
  {
    match l.test
    case TextMatch(term) =>
      LeafObject("match", l.field, Obj(map["query" := Str(term), "operator" := Str("and")]), row, engine);
    case Match(ops) => MatchQuerySelects(l.field, ops, row, engine);
    case Range(_, _, _, _) => RangeQuerySelects(l.field, l.test, row, engine);
  }

  lemma ShouldObject(qs: seq<Json>, row: Row, engine: Engine)
    ensures OsSelects(BoolQuery(map["should" := Arr(qs), "minimum_should_match" := Int(1)]), row, engine) <==>
            CountSelecting(qs, row, engine) >= 1
  {
    var b := map["should" := Arr(qs), "minimum_should_match" := Int(1)];
    ClauseKeys();
    BoolObject(b, row, engine);
    PresentClause(b, "should", row, engine);
    AbsentClause(b, "must", row, engine);
    AbsentClause(b, "filter", row, engine);
    AbsentClause(b, "must_not", row, engine);
    assert MinimumShould(b) == 1;
  }

  /** The OpenSearch query selects exactly the rows of the expression, on every row. */
  lemma {:induction false} OpenSearchPreservesMeaning(e: Expr, row: Row, engine: Engine)
    ensures OsSelects(OpenSearch(e), row, engine) == ExprSelects(e, row, engine)
    decreases e
  {
    match e
    case Leaf(l) => LeafQuerySelects(l, row, engine);
    case Not(p) =>
      OpenSearchPreservesMeaning(p, row, engine);
      OneClause("must_not", [OpenSearch(p)], row, engine);
      assert [OpenSearch(p)][0] == OpenSearch(p);
    case And(c) =>
      ChildrenPreserved(c, row, engine);
      OneClause("must", OpenSearchAll(c), row, engine);
    case Or(c) =>
      ChildrenPreserved(c, row, engine);
      ShouldObject(OpenSearchAll(c), row, engine);
  }

  lemma {:induction false} ChildrenPreserved(c: seq<Expr>, row: Row, engine: Engine)
    ensures forall i | 0 <= i < |c| :: OsSelects(OpenSearchAll(c)[i], row, engine) == ExprSelects(c[i], row, engine)
    decreases c
  {
    forall i | 0 <= i < |c| ensures OsSelects(OpenSearchAll(c)[i], row, engine) == ExprSelects(c[i], row, engine) {
      OpenSearchPreservesMeaning(c[i], row, engine);
    }
  }
}
