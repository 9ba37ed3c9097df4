/**
  What a JSON `conditions` value says, read off the JSON itself: which values compile, and which rows
  they select. Compilation accepts exactly those and keeps their meaning, for predicates
  (src/msmarco/derived.rs) and for compound expressions (src/compound_text.rs).
 */
module ConditionsMeaning {
  import opened Outcomes
  import opened Json
  import opened Text
  import opened Predicates
  import opened Compound

  /** Integers that `f64` holds exactly. */
  const EXACT: int := 9_007_199_254_740_992

  // ----- Values and bounds -----

  /** A string, or an exact integer. */
  predicate IsOperand(w: Json) { w.Str? || (w.Int? && -EXACT <= w.n <= EXACT) }

  /** A number in the exact range. */
  predicate IsBound(w: Json) {
    || (w.Int? && -EXACT <= w.n <= EXACT)
    || (w.Float? && -(EXACT as real) <= w.x <= EXACT as real)
  }

  predicate Equal(v: FieldValue, w: Json) {
    (w.Str? && v == KeywordValue(w.s)) || (w.Int? && v == IntValue(w.n))
  }

  /** An integer against a number of the JSON, compared as numbers. */
  predicate Above(x: int, w: Json) { (w.Int? && x > w.n) || (w.Float? && x as real > w.x) }
  predicate Below(x: int, w: Json) { (w.Int? && x < w.n) || (w.Float? && (x as real) < w.x) }
  predicate Meets(x: int, w: Json) { (w.Int? && x == w.n) || (w.Float? && x as real == w.x) }

  // ----- One field -----

  /** Exactly one of `text`, `value` and `any`. */
  ghost predicate IsMatch(c: map<string, Json>) {
    |c| == 1 &&
    if "text" in c then c["text"].Str? && ValidTerm(c["text"].s)
    else if "value" in c then IsOperand(c["value"])
    else && "any" in c && c["any"].Arr? && c["any"].items != []
         && forall i | 0 <= i < |c["any"].items| :: IsOperand(c["any"].items[i])
  }

  /** Nothing but bounds, at least one, at most one on a side. */
  ghost predicate IsRange(c: map<string, Json>) {
    && |c| > 0 && (forall k | k in c :: k in {"gt", "gte", "lt", "lte"} && IsBound(c[k]))
    && !("gt" in c && "gte" in c) && !("lt" in c && "lte" in c)
  }

  ghost predicate IsTest(body: Json) {
    && body.Obj? && |body.fields| == 1
    && (if "match" in body.fields then body.fields["match"].Obj? && IsMatch(body.fields["match"].fields)
        else "range" in body.fields && body.fields["range"].Obj? && IsRange(body.fields["range"].fields))
  }

  ghost predicate MatchSays(c: map<string, Json>, v: FieldValue, engine: Engine) {
    if "text" in c then c["text"].Str? && v.KeywordValue? && engine(v.s, c["text"].s)
    else if "value" in c then Equal(v, c["value"])
    else "any" in c && c["any"].Arr? && exists i | 0 <= i < |c["any"].items| :: Equal(v, c["any"].items[i])
  }

  predicate RangeSays(c: map<string, Json>, x: int) {
    && ("gt" in c ==> Above(x, c["gt"])) && ("gte" in c ==> Above(x, c["gte"]) || Meets(x, c["gte"]))
    && ("lt" in c ==> Below(x, c["lt"])) && ("lte" in c ==> Below(x, c["lte"]) || Meets(x, c["lte"]))
  }

  ghost predicate TestSays(body: Json, v: FieldValue, engine: Engine) {
    body.Obj? &&
    if "match" in body.fields then body.fields["match"].Obj? && MatchSays(body.fields["match"].fields, v, engine)
    else && "range" in body.fields && body.fields["range"].Obj?
         && v.IntValue? && RangeSays(body.fields["range"].fields, v.n)
  }

  lemma OperandMeans(w: Json, v: FieldValue)
    ensures CompileOperand(w).Ok? <==> IsOperand(w)
    ensures CompileOperand(w).Ok? ==> (Equal(v, w) <==> Holds(CompileOperand(w).value, v))
  {
  }

  /** A row value that one operand accepts. */
  predicate Holds(o: Operand, v: FieldValue) {
    if o.Keyword? then v == KeywordValue(o.word) else v == IntValue(o.value)
  }

  lemma {:induction false} OperandsCompile(ws: seq<Json>)
    ensures CompileOperands(ws).Ok? <==> forall i | 0 <= i < |ws| :: IsOperand(ws[i])
  {
    if ws != [] {
      OperandMeans(ws[0], OtherValue);
      OperandsCompile(ws[1..]);
      assert forall i | 0 < i < |ws| :: ws[i] == ws[1..][i - 1];
    }
  }

  lemma OperandsMean(ws: seq<Json>, v: FieldValue, engine: Engine)
    requires CompileOperands(ws).Ok?
    ensures TestSelects(Match(CompileOperands(ws).value), v, engine) <==>
            exists i | 0 <= i < |ws| :: Equal(v, ws[i])
  {
    var ops := CompileOperands(ws).value;
    forall i | 0 <= i < |ws| ensures Equal(v, ws[i]) <==> Holds(ops[i], v) {
      assert CompileOperand(ws[i]) == Ok(ops[i]);
      OperandMeans(ws[i], v);
    }
    AnyHolds(ops, v, engine);
  }

  lemma AnyHolds(ops: seq<Operand>, v: FieldValue, engine: Engine)
    ensures TestSelects(Match(ops), v, engine) <==> exists i | 0 <= i < |ops| :: Holds(ops[i], v)
  {
    if i :| 0 <= i < |ops| && Holds(ops[i], v) { assert ops[i] in ops; }
  }

  lemma KeysDiffer()
    ensures "text" != "value" && "text" != "any" && "value" != "any" && "match" != "range"
    ensures "gt" != "gte" && "lt" != "lte" && "gt" != "lt" && "gte" != "lte" && "gt" != "lte" && "gte" != "lt"
  {
    assert |"text"| == 4 && |"value"| == 5 && |"any"| == 3;
    assert "match"[0] == 'm' && "range"[0] == 'r';
    assert |"gt"| == 2 && |"gte"| == 3 && |"lt"| == 2 && |"lte"| == 3;
    assert "gt"[0] == 'g' && "lt"[0] == 'l' && "gte"[0] == 'g' && "lte"[0] == 'l';
  }

  lemma MatchMeans(criteria: Json, v: FieldValue, engine: Engine)
    ensures CompileMatch(criteria).Ok? <==> criteria.Obj? && IsMatch(criteria.fields)
    ensures CompileMatch(criteria).Ok? ==>
              (TestSelects(CompileMatch(criteria).value, v, engine) <==> MatchSays(criteria.fields, v, engine))
  {
    KeysDiffer();
    if criteria.Obj? && |criteria.fields| == 1 {
      var c := criteria.fields;
      if "text" in c {
      } else if "value" in c {
        OperandMeans(c["value"], v);
        if CompileOperand(c["value"]).Ok? {
          var o := CompileOperand(c["value"]).value;
          AnyHolds([o], v, engine);
          assert [o][0] == o;
        }
      } else if "any" in c && c["any"].Arr? {
        OperandsCompile(c["any"].items);
        if CompileOperands(c["any"].items).Ok? { OperandsMean(c["any"].items, v, engine); }
      }
    }
  }

  /** A JSON number as the real it stands for. */
  lemma BoundMeans(w: Json, x: int)
    ensures ValidBound(w) <==> IsBound(w)
    ensures IsBound(w) ==> AsReal(w).Some?
    ensures IsBound(w) ==> (Above(x, w) <==> x as real > AsReal(w).value)
    ensures IsBound(w) ==> (Below(x, w) <==> (x as real) < AsReal(w).value)
    ensures IsBound(w) ==> (Meets(x, w) <==> x as real == AsReal(w).value)
  {
  }

  lemma RangeCompiles(criteria: Json)
    ensures CompileRange(criteria).Ok? <==> criteria.Obj? && IsRange(criteria.fields)
  {
    if criteria.Obj? {
      var c := criteria.fields;
      forall k | k in c ensures ValidBound(c[k]) <==> IsBound(c[k]) { BoundMeans(c[k], 0); }
      KeysDiffer();
      assert BOUND_KEYS == {"gt", "gte", "lt", "lte"};
    }
  }

  lemma RangeMeans(criteria: Json, v: FieldValue, engine: Engine)
    requires CompileRange(criteria).Ok?
    ensures TestSelects(CompileRange(criteria).value, v, engine) <==> v.IntValue? && RangeSays(criteria.fields, v.n)
  {
    if v.IntValue? {
      var c := criteria.fields;
      forall k | k in c
        ensures IsBound(c[k]) && AsReal(c[k]).Some?
        ensures Above(v.n, c[k]) <==> v.n as real > AsReal(c[k]).value
        ensures Below(v.n, c[k]) <==> (v.n as real) < AsReal(c[k]).value
        ensures Meets(v.n, c[k]) <==> v.n as real == AsReal(c[k]).value
      {
        BoundMeans(c[k], v.n);
      }
    }
  }

  /** Exactly which leaf bodies compile, and what a compiled one selects. */
  lemma TestMeans(body: Json, v: FieldValue, engine: Engine)
    ensures CompileTest(body).Ok? <==> IsTest(body)
    ensures CompileTest(body).Ok? ==> (TestSelects(CompileTest(body).value, v, engine) <==> TestSays(body, v, engine))
  {
    KeysDiffer();
    if body.Obj? && |body.fields| == 1 {
      var op := OnlyKey(body.fields);
      if op == "match" {
        MatchMeans(body.fields[op], v, engine);
      } else if op == "range" {
        RangeCompiles(body.fields[op]);
        if CompileRange(body.fields[op]).Ok? { RangeMeans(body.fields[op], v, engine); }
      }
    }
  }

  // ----- Predicates -----

  /** A node: one key, a nonempty group or a field with one test. */
  ghost predicate IsNode(v: Json)
    decreases v
  {
    && v.Obj? && |v.fields| == 1
    && var key := OnlyKey(v.fields);
       var body := v.fields[key];
       if key == "and" || key == "or" then
         body.Arr? && body.items != [] && forall i | 0 <= i < |body.items| :: IsNode(body.items[i])
       else IsTest(body)
  }

  /** What a node says of a row: `and` all, `or` some, a field its test, an absent field nothing. */
  ghost predicate NodeSays(v: Json, row: Row, engine: Engine)
    decreases v
  {
    && v.Obj? && |v.fields| == 1
    && var key := OnlyKey(v.fields);
       var body := v.fields[key];
       if key == "and" then body.Arr? && forall i | 0 <= i < |body.items| :: NodeSays(body.items[i], row, engine)
       else if key == "or" then body.Arr? && exists i | 0 <= i < |body.items| :: NodeSays(body.items[i], row, engine)
       else key in row && TestSays(body, row[key], engine)
  }

  lemma {:induction false} NodesCompile(vs: seq<Json>)
    ensures CompileNodes(vs).Ok? <==> forall i | 0 <= i < |vs| :: CompileNode(vs[i]).Ok?
  {
    if vs != [] {
      NodesCompile(vs[1..]);
      assert forall i | 0 < i < |vs| :: vs[i] == vs[1..][i - 1];
    }
  }

  lemma {:induction false} NodeCompiles(v: Json)
    ensures CompileNode(v).Ok? <==> IsNode(v)
    decreases v
  {
    if v.Obj? && |v.fields| == 1 {
      var key := OnlyKey(v.fields);
      var body := v.fields[key];
      if key == "and" || key == "or" {
        if body.Arr? {
          forall i | 0 <= i < |body.items| ensures CompileNode(body.items[i]).Ok? <==> IsNode(body.items[i]) {
            NodeCompiles(body.items[i]);
          }
          NodesCompile(body.items);
        }
      } else {
        TestMeans(body, OtherValue, (_, _) => false);
      }
    }
  }

  lemma {:induction false} NodeMeans(v: Json, row: Row, engine: Engine)
    requires CompileNode(v).Ok?
    ensures Selects(CompileNode(v).value, row, engine) <==> NodeSays(v, row, engine)
    decreases v
  {
    var key := OnlyKey(v.fields);
    var body := v.fields[key];
    if key == "and" || key == "or" {
      var c := CompileNodes(body.items).value;
      forall i | 0 <= i < |c| ensures Selects(c[i], row, engine) <==> NodeSays(body.items[i], row, engine) {
        assert CompileNode(body.items[i]) == Ok(c[i]);
        NodeMeans(body.items[i], row, engine);
      }
    } else {
      TestMeans(body, if key in row then row[key] else OtherValue, engine);
    }
  }

  /**
    Exactly which `conditions` compile, and what the compiled predicate selects: a group at the top, and
    on every row what the JSON says.
   */
  lemma CompileMeans(conditions: Json)
    ensures Compile(conditions).Ok? <==>
            IsNode(conditions) && ("and" in conditions.fields || "or" in conditions.fields)
    ensures Compile(conditions).Ok? ==> forall row, engine ::
              Selects(Compile(conditions).value, row, engine) <==> NodeSays(conditions, row, engine)
  {
    NodeCompiles(conditions);
    if Compile(conditions).Ok? {
      forall row, engine
        ensures Selects(Compile(conditions).value, row, engine) <==> NodeSays(conditions, row, engine)
      {
        NodeMeans(conditions, row, engine);
      }
    }
  }

  // ----- Compound expressions -----

  /** The values of a match fit a field of this kind. */
  ghost predicate FitsKind(w: Json, kind: string) {
    if w.Str? then kind == "keyword" else kind == "int"
  }

  /** The test fits a field of this kind, and every keyword is a plain tag. */
  ghost predicate IsTyped(body: Json, kind: string)
    requires IsTest(body)
  {
    if "match" in body.fields then
      var c := body.fields["match"].fields;
      if "text" in c then kind == "text"
      else if "value" in c then FitsKind(c["value"], kind) && PlainValue(c["value"])
      else forall i | 0 <= i < |c["any"].items| :: FitsKind(c["any"].items[i], kind) && PlainValue(c["any"].items[i])
    else kind == "int"
  }

  /** Letters, digits and underscores, not starting with a digit. */
  predicate IsPlainName(f: string) {
    && f != "" && !('0' <= f[0] <= '9')
    && forall c | c in f :: 'a' <= c <= 'z' || 'A' <= c <= 'Z' || '0' <= c <= '9' || c == '_'
  }

  /** Neither empty nor edged by white space, without `;` and without the control characters below U+00A0. */
  predicate IsPlainTag(s: string) {
    && s != "" && !IsWhitespace(s[0]) && !IsWhitespace(s[|s| - 1])
    && forall c | c in s :: c != ';' && c >= ' ' && !('\U{7F}' <= c < '\U{A0}')
  }

  lemma NameIff(f: string)
    ensures PlainIdentifier(f) <==> IsPlainName(f)
  {
    assert forall i | 0 <= i < |f| :: f[i] in f;
  }

  lemma TagIff(s: string)
    ensures PlainTag(s) <==> IsPlainTag(s)
  {
    assert forall i | 0 <= i < |s| :: s[i] in s;
    if s != "" && !IsWhitespace(s[0]) && !IsWhitespace(s[|s| - 1]) {
      assert TrimStart(s) == s && TrimEnd(s) == s;
    }
  }

  predicate PlainValue(w: Json) { w.Str? ==> IsPlainTag(w.s) }

  /** The registered type of a field. */
  predicate Registered(schema: Json, field: string) {
    schema.Obj? && field in schema.fields && schema.fields[field].Str?
  }

  /** An expression at nesting depth `depth`: groups, negation, and typed tests on plain registered fields. */
  ghost predicate IsExpr(v: Json, schema: Json, depth: nat)
    decreases v
  {
    && depth <= 32 && v.Obj? && |v.fields| == 1
    && var key := OnlyKey(v.fields);
       var body := v.fields[key];
       if key == "and" || key == "or" then
         body.Arr? && body.items != [] && forall i | 0 <= i < |body.items| :: IsExpr(body.items[i], schema, depth + 1)
       else if key == "not" then IsExpr(body, schema, depth + 1)
       else IsPlainName(key) && IsTest(body) && Registered(schema, key) && IsTyped(body, schema.fields[key].s)
  }

  /** What an expression says of a row. */
  ghost predicate ExprSays(v: Json, row: Row, engine: Engine)
    decreases v
  {
    && v.Obj? && |v.fields| == 1
    && var key := OnlyKey(v.fields);
       var body := v.fields[key];
       if key == "and" then body.Arr? && forall i | 0 <= i < |body.items| :: ExprSays(body.items[i], row, engine)
       else if key == "or" then body.Arr? && exists i | 0 <= i < |body.items| :: ExprSays(body.items[i], row, engine)
       else if key == "not" then !ExprSays(body, row, engine)
       else key in row && TestSays(body, row[key], engine)
  }

  lemma {:induction false} ExprsCompile(vs: seq<Json>, schema: Json, depth: nat)
    ensures CompileExprs(vs, schema, depth).Ok? <==> forall i | 0 <= i < |vs| :: CompileExpr(vs[i], schema, depth).Ok?
  {
    if vs != [] {
      ExprsCompile(vs[1..], schema, depth);
      assert forall i | 0 < i < |vs| :: vs[i] == vs[1..][i - 1];
    }
  }

  lemma OperandTyped(w: Json, kind: string)
    requires IsOperand(w)
    ensures CompileOperand(w).Ok?
    ensures var o := CompileOperand(w).value;
            && (FitsKind(w, kind) <==> if o.Keyword? then kind == "keyword" else kind == "int")
            && (PlainValue(w) <==> (o.Keyword? ==> PlainTag(o.word)))
  {
    if w.Str? { TagIff(w.s); }
  }

  lemma TestTyped(body: Json, kind: string)
    requires IsTest(body)
    ensures CompileTest(body).Ok?
    ensures var t := CompileTest(body).value; IsTyped(body, kind) <==> TestFits(t, kind) && PlainTags(t)
  {
    TestMeans(body, OtherValue, (_, _) => false);
    KeysDiffer();
    var op := OnlyKey(body.fields);
    if op == "match" {
      var c := body.fields[op].fields;
      if "value" in c && "text" !in c {
        OperandTyped(c["value"], kind);
        var ops := CompileTest(body).value.ops;
        assert |ops| == 1 && ops[0] == CompileOperand(c["value"]).value;
      } else if "text" !in c {
        var ws, ops := c["any"].items, CompileOperands(c["any"].items).value;
        forall i | 0 <= i < |ws|
          ensures FitsKind(ws[i], kind) <==> if ops[i].Keyword? then kind == "keyword" else kind == "int"
          ensures PlainValue(ws[i]) <==> (ops[i].Keyword? ==> PlainTag(ops[i].word))
        {
          assert CompileOperand(ws[i]) == Ok(ops[i]);
          OperandTyped(ws[i], kind);
        }
      }
    }
  }

  lemma LeafExprCompiles(v: Json, schema: Json, depth: nat)
    requires v.Obj? && |v.fields| == 1 && depth <= 32
    requires var key := OnlyKey(v.fields); key != "and" && key != "or" && key != "not"
    ensures CompileExpr(v, schema, depth).Ok? <==> IsExpr(v, schema, depth)
  {
    var key := OnlyKey(v.fields);
    var body := v.fields[key];
    TestMeans(body, OtherValue, (_, _) => false);
    NameIff(key);
    if IsTest(body) && Registered(schema, key) { TestTyped(body, schema.fields[key].s); }
  }

  lemma GroupExprCompiles(v: Json, schema: Json, depth: nat)
    requires v.Obj? && |v.fields| == 1 && depth <= 32
    requires var key := OnlyKey(v.fields);
             && (key == "and" || key == "or")
             && (v.fields[key].Arr? ==> forall i | 0 <= i < |v.fields[key].items| ::
                   var w := v.fields[key].items[i];
                   CompileExpr(w, schema, depth + 1).Ok? <==> IsExpr(w, schema, depth + 1))
    ensures CompileExpr(v, schema, depth).Ok? <==> IsExpr(v, schema, depth)
  {
    var body := v.fields[OnlyKey(v.fields)];
    if body.Arr? { ExprsCompile(body.items, schema, depth + 1); }
  }

  lemma NotExprCompiles(v: Json, schema: Json, depth: nat)
    requires v.Obj? && |v.fields| == 1 && depth <= 32 && OnlyKey(v.fields) == "not"
    requires CompileExpr(v.fields["not"], schema, depth + 1).Ok? <==> IsExpr(v.fields["not"], schema, depth + 1)
    ensures CompileExpr(v, schema, depth).Ok? <==> IsExpr(v, schema, depth)
  {
  }

  lemma {:induction false} ExprCompiles(v: Json, schema: Json, depth: nat)
    ensures CompileExpr(v, schema, depth).Ok? <==> IsExpr(v, schema, depth)
    decreases v
  {
    if depth <= 32 && v.Obj? && |v.fields| == 1 {
      var key := OnlyKey(v.fields);
      var body := v.fields[key];
      if key == "and" || key == "or" {
        if body.Arr? {
          forall i | 0 <= i < |body.items|
            ensures CompileExpr(body.items[i], schema, depth + 1).Ok? <==> IsExpr(body.items[i], schema, depth + 1)
          {
            ExprCompiles(body.items[i], schema, depth + 1);
          }
        }
        GroupExprCompiles(v, schema, depth);
      } else if key == "not" {
        ExprCompiles(body, schema, depth + 1);
        NotExprCompiles(v, schema, depth);
      } else {
        LeafExprCompiles(v, schema, depth);
      }
    }
  }

  lemma {:induction false} ExprMeans(v: Json, schema: Json, depth: nat, row: Row, engine: Engine)
    requires CompileExpr(v, schema, depth).Ok?
    ensures ExprSelects(CompileExpr(v, schema, depth).value, row, engine) <==> ExprSays(v, row, engine)
    decreases v
  {
    var key := OnlyKey(v.fields);
    var body := v.fields[key];
    if key == "and" || key == "or" {
      var c := CompileExprs(body.items, schema, depth + 1).value;
      forall i | 0 <= i < |c| ensures ExprSelects(c[i], row, engine) <==> ExprSays(body.items[i], row, engine) {
        assert CompileExpr(body.items[i], schema, depth + 1) == Ok(c[i]);
        ExprMeans(body.items[i], schema, depth + 1, row, engine);
      }
    } else if key == "not" {
      ExprMeans(body, schema, depth + 1, row, engine);
    } else {
      TestMeans(body, if key in row then row[key] else OtherValue, engine);
    }
  }

  /** Exactly which expressions compile under a schema, and that the compiled one selects what the JSON says. */
  lemma CompileExprMeans(v: Json, schema: Json)
    ensures CompileExpr(v, schema, 0).Ok? <==> IsExpr(v, schema, 0)
    ensures CompileExpr(v, schema, 0).Ok? ==> forall row, engine ::
              ExprSelects(CompileExpr(v, schema, 0).value, row, engine) <==> ExprSays(v, row, engine)
  {
    ExprCompiles(v, schema, 0);
    if CompileExpr(v, schema, 0).Ok? {
      forall row, engine
        ensures ExprSelects(CompileExpr(v, schema, 0).value, row, engine) <==> ExprSays(v, row, engine)
      {
        ExprMeans(v, schema, 0, row, engine);
      }
    }
  }
}
