/** Filter predicates: compiling `conditions`, checking them against a schema, evaluating them on a row. */
module Predicates {
  import opened Outcomes
  import opened Json
  import opened FilterTree
  import opened Text

  datatype Operand = Keyword(word: string) | Number(value: int)

  datatype Test =
    | Match(ops: seq<Operand>)
    | Range(gt: Option<real>, gte: Option<real>, lt: Option<real>, lte: Option<real>)
    | TextMatch(term: string)

  datatype FieldTest = FieldTest(field: string, test: Test)

  type Predicate = Tree<FieldTest>

  const MAX_EXACT_INTEGER: int := 0x20_0000_0000_0000  // 2^53

  // ----- Compilation -----

  datatype CompileError =
    | NotAGroup | NotOneKey | EmptyGroup | BadOperand | BadMatch | BadTerm | BadRange | BadOperation

  /** One lowercase ASCII word of 3 to 64 letters that is not a stopword. */
  predicate ValidTerm(t: string) {
    && 3 <= |t| <= 64
    && (forall i | 0 <= i < |t| :: 'a' <= t[i] <= 'z')
    && t !in STOPWORDS
  }

  function CompileOperand(v: Json): Result<Operand, CompileError> {
    match v
    case Str(s) => Ok(Keyword(s))
    case Int(n) => if -MAX_EXACT_INTEGER <= n <= MAX_EXACT_INTEGER then Ok(Number(n)) else Err(BadOperand)
    case _ => Err(BadOperand)
  }

  function CompileOperands(vs: seq<Json>): (r: Result<seq<Operand>, CompileError>)
    ensures r.Ok? ==> |r.value| == |vs|
    ensures r.Ok? ==> forall i | 0 <= i < |vs| :: CompileOperand(vs[i]) == Ok(r.value[i])
  {
    if vs == [] then Ok([]) else
      var o :- CompileOperand(vs[0]);
      var os :- CompileOperands(vs[1..]);
      Ok([o] + os)
  }

  function CompileMatch(criteria: Json): Result<Test, CompileError> {
    if !criteria.Obj? || |criteria.fields| != 1 then Err(BadMatch) else
      var c := criteria.fields;
      if "text" in c then
        if c["text"].Str? && ValidTerm(c["text"].s) then Ok(TextMatch(c["text"].s)) else Err(BadTerm)
      else if "value" in c then
        var o :- CompileOperand(c["value"]);
        Ok(Match([o]))
      else if "any" in c then
        if c["any"].Arr? && c["any"].items != [] then
          var os :- CompileOperands(c["any"].items);
          Ok(Match(os))
        else Err(BadMatch)
      else Err(BadMatch)
  }

  const BOUND_KEYS: set<string> := {"gt", "gte", "lt", "lte"}

  predicate ValidBound(v: Json) {
    AsReal(v).Some? && -(MAX_EXACT_INTEGER as real) <= AsReal(v).value <= MAX_EXACT_INTEGER as real
  }

  function BoundAt(c: map<string, Json>, key: string): Option<real> {
    if key in c then AsReal(c[key]) else None
  }

  function CompileRange(criteria: Json): Result<Test, CompileError> {
    if !criteria.Obj? || |criteria.fields| == 0 then Err(BadRange) else
      var c := criteria.fields;
      if !(forall k <- c.Keys :: k in BOUND_KEYS && ValidBound(c[k])) then Err(BadRange)
      else if ("gt" in c && "gte" in c) || ("lt" in c && "lte" in c) then Err(BadRange)
      else Ok(Range(BoundAt(c, "gt"), BoundAt(c, "gte"), BoundAt(c, "lt"), BoundAt(c, "lte")))
  }

  function CompileTest(body: Json): Result<Test, CompileError> {
    if !body.Obj? || |body.fields| != 1 then Err(NotOneKey) else
      var op := OnlyKey(body.fields);
      if op == "match" then CompileMatch(body.fields[op])
      else if op == "range" then CompileRange(body.fields[op])
      else Err(BadOperation)
  }

  function CompileNode(v: Json): Result<Predicate, CompileError>
    decreases v, 1
  {
    if !v.Obj? || |v.fields| != 1 then Err(NotOneKey) else
      var key := OnlyKey(v.fields);
      var body := v.fields[key];
      if key == "and" || key == "or" then
        if !body.Arr? || body.items == [] then Err(EmptyGroup) else
          var children :- CompileNodes(body.items);
          Ok(if key == "and" then And(children) else Or(children))
      else
        var test :- CompileTest(body);
        Ok(Leaf(FieldTest(key, test)))
  }

  function CompileNodes(vs: seq<Json>): (r: Result<seq<Predicate>, CompileError>)
    ensures r.Ok? ==> |r.value| == |vs|
    ensures r.Ok? ==> forall i | 0 <= i < |vs| :: CompileNode(vs[i]) == Ok(r.value[i])
    decreases vs, 0
  {
    if vs == [] then Ok([]) else
      var p :- CompileNode(vs[0]);
      var ps :- CompileNodes(vs[1..]);
      Ok([p] + ps)
  }

  /** `Predicate::compile`: the top level must be a group. */
  function Compile(conditions: Json): Result<Predicate, CompileError> {
    if !conditions.Obj? || ("and" !in conditions.fields && "or" !in conditions.fields) then Err(NotAGroup)
    else CompileNode(conditions)
  }

  /** What compilation guarantees of a leaf. */
  predicate ValidTest(t: Test) {
    match t
    case Match(ops) => ops != []
    case Range(gt, gte, lt, lte) => !(gt.Some? && gte.Some?) && !(lt.Some? && lte.Some?)
    case TextMatch(term) => ValidTerm(term)
  }

  ghost predicate WellFormed(p: Predicate) {
    NoEmptyGroup(p) && forall l | l in Leaves(p) :: ValidTest(l.test)
  }

  lemma {:induction false} CompiledIsWellFormed(v: Json)
    requires CompileNode(v).Ok?
    ensures WellFormed(CompileNode(v).value)
    decreases v
  {
    var key := OnlyKey(v.fields);
    var body := v.fields[key];
    if key == "and" || key == "or" {
      var c := CompileNodes(body.items).value;
      forall i | 0 <= i < |c| ensures WellFormed(c[i]) {
        CompiledIsWellFormed(body.items[i]);
      }
      forall l | l in LeavesOf(c) ensures ValidTest(l.test) {
        LeafOfChild(c, l);
      }
    }
  }

  // ----- Schema -----

  datatype SchemaError = NoSchema | UnknownField | TypeDisagrees

  predicate TestFits(t: Test, ty: string) {
    match t
    case TextMatch(_) => ty == "text"
    case Range(_, _, _, _) => ty == "int"
    case Match(ops) =>
      forall i | 0 <= i < |ops| :: (if ops[i].Keyword? then ty == "keyword" else ty == "int")
  }

  /** The first leaf that does not fit the schema decides the error. */
  function ValidateLeaves(ls: seq<FieldTest>, schema: map<string, Json>): (r: Result<(), SchemaError>)
    ensures r.Ok? <==> forall i | 0 <= i < |ls| :: LeafFits(ls[i], schema)
  {
    if ls == [] then Ok(()) else
      var l := ls[0];
      if l.field !in schema || !schema[l.field].Str? then assert !LeafFits(ls[0], schema); Err(UnknownField)
      else if !TestFits(l.test, schema[l.field].s) then assert !LeafFits(ls[0], schema); Err(TypeDisagrees)
      else
        assert forall i | 0 <= i < |ls| :: ls[i] == if i == 0 then ls[0] else ls[1..][i - 1];
        ValidateLeaves(ls[1..], schema)
  }

  predicate LeafFits(l: FieldTest, schema: map<string, Json>) {
    l.field in schema && schema[l.field].Str? && TestFits(l.test, schema[l.field].s)
  }

  /** `validate_against_schema`: every leaf on a registered field of a fitting type. */
  function ValidateAgainstSchema(p: Predicate, schema: Option<Json>): Result<(), SchemaError> {
    if schema.None? || !schema.value.Obj? then Err(NoSchema) else ValidateLeaves(Leaves(p), schema.value.fields)
  }

  // ----- Evaluation -----

  /** The bound as declared: the exclusive one wins, as `gt.or(gte)` does. */
  function Wanted(exclusive: Option<real>, inclusive: Option<real>): Option<(real, bool)> {
    if exclusive.Some? then Some((exclusive.value, true))
    else if inclusive.Some? then Some((inclusive.value, false))
    else None
  }

  /** A field of a row, as a predicate sees it; a field that is not in the row is absent. */
  datatype FieldValue = KeywordValue(s: string) | IntValue(n: int) | OtherValue | UnknownValue

  type Row = map<string, FieldValue>

  datatype TextVerdict = Yes | No | Ambiguous

  /** The document-text classifier of src/msmarco/text_match.rs, kept uninterpreted. */
  type Classifier = (string, string) -> TextVerdict

  /** Which (document text, term) pairs an engine's own full-text match accepts. */
  type Engine = (string, string) -> bool

  datatype EvalError = TypeMismatch | AmbiguousText | Incomparable | OutOfRange | NotAField

  predicate InRange(t: Test, x: real)
    requires t.Range?
  {
    && (t.gt.Some? ==> x > t.gt.value) && (t.gte.Some? ==> x >= t.gte.value)
    && (t.lt.Some? ==> x < t.lt.value) && (t.lte.Some? ==> x <= t.lte.value)
  }

  function TestMatches(t: Test, v: FieldValue, classify: Classifier): Result<bool, EvalError> {
    match (t, v)
    case (_, OtherValue) => Err(Incomparable)
    case (_, UnknownValue) => Err(NotAField)
    case (Match(ops), KeywordValue(s)) =>
      if exists o <- ops :: o.Number? then Err(TypeMismatch) else Ok(Keyword(s) in ops)
    case (Match(ops), IntValue(n)) =>
      if exists o <- ops :: o.Keyword? then Err(TypeMismatch) else Ok(Number(n) in ops)
    case (Range(_, _, _, _), IntValue(n)) =>
      if -MAX_EXACT_INTEGER <= n <= MAX_EXACT_INTEGER then Ok(InRange(t, n as real)) else Err(OutOfRange)
    case (Range(_, _, _, _), KeywordValue(_)) => Err(TypeMismatch)
    case (TextMatch(_), IntValue(_)) => Err(TypeMismatch)
    case (TextMatch(term), KeywordValue(text)) =>
      match classify(text, term)
      case Yes => Ok(true)
      case No => Ok(false)
      case Ambiguous => Err(AmbiguousText)
  }

  function LeafMatches(l: FieldTest, row: Row, classify: Classifier): Result<bool, EvalError> {
    if l.field !in row then Ok(false) else TestMatches(l.test, row[l.field], classify)
  }

  /** `Predicate::matches`: left to right, stopping at the first child that decides the group. */
  function Matches(p: Predicate, row: Row, classify: Classifier): Result<bool, EvalError>
    decreases p, 1
  {
    match p
    case And(c) => MatchesGroup(c, true, row, classify)
    case Or(c) => MatchesGroup(c, false, row, classify)
    case Leaf(l) => LeafMatches(l, row, classify)
  }

  function MatchesGroup(c: seq<Predicate>, inAnd: bool, row: Row, classify: Classifier): Result<bool, EvalError>
    decreases c, 0
  {
    if c == [] then Ok(inAnd) else
      var first :- Matches(c[0], row, classify);
      if first != inAnd then Ok(!inAnd) else MatchesGroup(c[1..], inAnd, row, classify)
  }

  // ----- Meaning -----

  /** What a leaf selects, with a value of another type selecting nothing. */
  predicate TestSelects(t: Test, v: FieldValue, engine: Engine) {
    match (t, v)
    case (Match(ops), KeywordValue(s)) => Keyword(s) in ops
    case (Match(ops), IntValue(n)) => Number(n) in ops
    case (Range(_, _, _, _), IntValue(n)) => InRange(t, n as real)
    case (TextMatch(term), KeywordValue(text)) => engine(text, term)
    case _ => false
  }

  function LeafMeaning(row: Row, engine: Engine): FieldTest -> bool {
    (l: FieldTest) => l.field in row && TestSelects(l.test, row[l.field], engine)
  }

  predicate Selects(p: Predicate, row: Row, engine: Engine) {
    Eval(p, LeafMeaning(row, engine))
  }

  /** The engine does what the classifier is sure of. */
  ghost predicate Agree(classify: Classifier, engine: Engine) {
    forall text, term :: (classify(text, term) == Yes ==> engine(text, term)) &&
                         (classify(text, term) == No ==> !engine(text, term))
  }

  /** Whenever the short-circuiting evaluator answers, its answer is the predicate's meaning. */
  lemma {:induction false} MatchesIsMeaning(p: Predicate, row: Row, classify: Classifier, engine: Engine)
    requires Agree(classify, engine) && Matches(p, row, classify).Ok?
    ensures Matches(p, row, classify).value == Selects(p, row, engine)
    decreases p, 1
  {
    match p
    case Leaf(l) =>
    case And(c) => MatchesGroupIsMeaning(c, true, row, classify, engine);
    case Or(c) => MatchesGroupIsMeaning(c, false, row, classify, engine);
  }

  lemma {:induction false} MatchesGroupIsMeaning(
    c: seq<Predicate>, inAnd: bool, row: Row, classify: Classifier, engine: Engine)
    requires Agree(classify, engine) && MatchesGroup(c, inAnd, row, classify).Ok?
    ensures var b := MatchesGroup(c, inAnd, row, classify).value;
            b == if inAnd then AllHold(c, LeafMeaning(row, engine)) else AnyHolds(c, LeafMeaning(row, engine))
    decreases c, 0
  {
    if c != [] {
      MatchesIsMeaning(c[0], row, classify, engine);
      assert c == [c[0]] + c[1..];
      HoldsOfConcat([c[0]], c[1..], LeafMeaning(row, engine));
      assert [c[0]][0] == c[0];
      if Matches(c[0], row, classify).value == inAnd {
        MatchesGroupIsMeaning(c[1..], inAnd, row, classify, engine);
      }
    }
  }

  // ----- When the oracle answers -----

  /** A value of the type the schema gives its field; integers exact in `f64`. */
  predicate ValueFits(v: FieldValue, ty: string) {
    if ty == "int" then v.IntValue? && -MAX_EXACT_INTEGER <= v.n <= MAX_EXACT_INTEGER else v.KeywordValue?
  }

  ghost predicate RowFits(row: Row, schema: map<string, Json>) {
    forall f | f in row && f in schema && schema[f].Str? :: ValueFits(row[f], schema[f].s)
  }

  /** The classifier is sure about the text this leaf looks at. */
  predicate Decided(l: FieldTest, row: Row, classify: Classifier) {
    l.test.TextMatch? && l.field in row && row[l.field].KeywordValue? ==>
      !classify(row[l.field].s, l.test.term).Ambiguous?
  }

  lemma LeafAnswers(l: FieldTest, row: Row, schema: map<string, Json>, classify: Classifier)
    requires LeafFits(l, schema) && RowFits(row, schema) && Decided(l, row, classify) && ValidTest(l.test)
    ensures LeafMatches(l, row, classify).Ok?
  {
    if l.field in row {
      assert ValueFits(row[l.field], schema[l.field].s);
      assert |"int"| == 3 && |"text"| == 4 && |"keyword"| == 7;
    }
  }

  /** On a row of the schema's types a schema-valid predicate is always answered, unless a text is ambiguous. */
  lemma {:induction false} MatchesAnswers(p: Predicate, row: Row, schema: map<string, Json>, classify: Classifier)
    requires WellFormed(p) && ValidateAgainstSchema(p, Some(Obj(schema))).Ok? && RowFits(row, schema)
    requires forall l | l in Leaves(p) :: Decided(l, row, classify)
    ensures Matches(p, row, classify).Ok?
  {
    forall l | l in Leaves(p) ensures LeafMatches(l, row, classify).Ok? { LeafAnswers(l, row, schema, classify); }
    AnsweredLeaves(p, row, classify);
  }

  lemma {:induction false} AnsweredLeaves(p: Predicate, row: Row, classify: Classifier)
    requires forall l | l in Leaves(p) :: LeafMatches(l, row, classify).Ok?
    ensures Matches(p, row, classify).Ok?
    decreases p, 1
  {
    match p
    case Leaf(l) => assert l in Leaves(p);
    case And(c) => AnsweredGroup(c, true, row, classify);
    case Or(c) => AnsweredGroup(c, false, row, classify);
  }

  lemma {:induction false} AnsweredGroup(c: seq<Predicate>, inAnd: bool, row: Row, classify: Classifier)
    requires forall l | l in LeavesOf(c) :: LeafMatches(l, row, classify).Ok?
    ensures MatchesGroup(c, inAnd, row, classify).Ok?
    decreases c, 0
  {
    if c != [] {
      AnsweredLeaves(c[0], row, classify);
      AnsweredGroup(c[1..], inAnd, row, classify);
    }
  }

  // ----- How the oracle decides -----

  /** A value the test can be evaluated on; any other value of a present field is an error, not a mismatch. */
  predicate Suits(t: Test, v: FieldValue, classify: Classifier) {
    match t
    case Match(ops) =>
      || (v.KeywordValue? && forall i | 0 <= i < |ops| :: ops[i].Keyword?)
      || (v.IntValue? && forall i | 0 <= i < |ops| :: ops[i].Number?)
    case Range(_, _, _, _) => v.IntValue? && -9_007_199_254_740_992 <= v.n <= 9_007_199_254_740_992
    case TextMatch(term) => v.KeywordValue? && classify(v.s, term) != Ambiguous
  }

  /** An absent field is `false`; a present one is answered exactly when its value suits. */
  lemma LeafAnswersIff(l: FieldTest, row: Row, classify: Classifier)
    ensures l.field !in row ==> LeafMatches(l, row, classify) == Ok(false)
    ensures l.field in row ==> (LeafMatches(l, row, classify).Ok? <==> Suits(l.test, row[l.field], classify))
  {
    if l.field in row && l.test.Match? {
      var ops := l.test.ops;
      assert (exists o <- ops :: o.Number?) <==> exists i | 0 <= i < |ops| :: ops[i].Number?;
      assert (exists o <- ops :: o.Keyword?) <==> exists i | 0 <= i < |ops| :: ops[i].Keyword?;
    }
  }

  /** The first of the results that is not `Ok(inAnd)`. */
  function FirstOther(rs: seq<Result<bool, EvalError>>, inAnd: bool): Result<bool, EvalError> {
    if rs == [] then Ok(inAnd) else if rs[0] != Ok(inAnd) then rs[0] else FirstOther(rs[1..], inAnd)
  }

  /** `r` settles the results: it is the first that differs from `Ok(inAnd)`, or all are that. */
  ghost predicate Settles(rs: seq<Result<bool, EvalError>>, inAnd: bool, r: Result<bool, EvalError>) {
    if r == Ok(inAnd) then forall i | 0 <= i < |rs| :: rs[i] == r
    else exists i | 0 <= i < |rs| :: rs[i] == r && forall j | 0 <= j < i :: rs[j] == Ok(inAnd)
  }

  lemma {:induction false} FirstOtherSettles(rs: seq<Result<bool, EvalError>>, inAnd: bool)
    ensures Settles(rs, inAnd, FirstOther(rs, inAnd))
  {
    if rs != [] {
      var d := rs[1..];
      FirstOtherSettles(d, inAnd);
      assert forall i | 0 < i < |rs| :: rs[i] == d[i - 1];
      if rs[0] == Ok(inAnd) {
        var r := FirstOther(d, inAnd);
        if r != Ok(inAnd) {
          var i :| 0 <= i < |d| && d[i] == r && forall j | 0 <= j < i :: d[j] == Ok(inAnd);
          assert rs[i + 1] == r;
        }
      } else {
        assert rs[0] == FirstOther(rs, inAnd);
      }
    }
  }

  lemma OneSettles(
    rs: seq<Result<bool, EvalError>>, inAnd: bool, r: Result<bool, EvalError>, q: Result<bool, EvalError>)
    requires Settles(rs, inAnd, r) && Settles(rs, inAnd, q)
    ensures r == q
  {
  }

  function Results(c: seq<Predicate>, row: Row, classify: Classifier): (rs: seq<Result<bool, EvalError>>)
    ensures |rs| == |c| && forall i | 0 <= i < |c| :: rs[i] == Matches(c[i], row, classify)
  {
    seq(|c|, i requires 0 <= i < |c| => Matches(c[i], row, classify))
  }

  /** The first child that decides the group or fails settles it; without one, every child agreed. */
  lemma {:induction false} GroupDecides(
    c: seq<Predicate>, inAnd: bool, r: Result<bool, EvalError>, row: Row, classify: Classifier)
    ensures MatchesGroup(c, inAnd, row, classify) == r <==> Settles(Results(c, row, classify), inAnd, r)
  {
    GroupIsFirstOther(c, inAnd, row, classify);
    FirstOtherSettles(Results(c, row, classify), inAnd);
    if Settles(Results(c, row, classify), inAnd, r) {
      OneSettles(Results(c, row, classify), inAnd, r, MatchesGroup(c, inAnd, row, classify));
    }
  }

  lemma {:induction false} GroupIsFirstOther(c: seq<Predicate>, inAnd: bool, row: Row, classify: Classifier)
    ensures MatchesGroup(c, inAnd, row, classify) == FirstOther(Results(c, row, classify), inAnd)
  {
    if c != [] {
      GroupIsFirstOther(c[1..], inAnd, row, classify);
      assert Results(c, row, classify)[1..] == Results(c[1..], row, classify);
    }
  }

  // ----- The schema, field by field -----

  /** Text match on `text`, values on `keyword` or `int` by their type, ranges on `int`; nothing else. */
  lemma SchemaAcceptsIff(p: Predicate, schema: Option<Json>)
    ensures ValidateAgainstSchema(p, schema).Ok? <==>
            && schema.Some? && schema.value.Obj?
            && forall i | 0 <= i < |Leaves(p)| ::
                 var l := Leaves(p)[i];
                 match l.test
                 case TextMatch(_) => Get(schema.value, l.field) == Some(Str("text"))
                 case Range(_, _, _, _) => Get(schema.value, l.field) == Some(Str("int"))
                 case Match(ops) =>
                   && Get(schema.value, l.field).Some? && Get(schema.value, l.field).value.Str?
                   && forall j | 0 <= j < |ops| :: Get(schema.value, l.field) ==
                        Some(Str(if ops[j].Keyword? then "keyword" else "int"))
  {
  }
}
