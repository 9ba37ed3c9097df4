/**
  `Expr::redis` of src/compound_text.rs and a reader of the RediSearch syntax it uses: parentheses,
  juxtaposition, `|`, `-`, and backslash escapes in tags. The reader is the specification: reading
  the rendered text back gives a query that selects the rows of the expression.
 */
module CompoundRedis {
  import opened Outcomes
  import opened Json
  import opened Text
  import opened Predicates
  import opened Compound
  import opened Decimals

  /** How numbers are written and read; `f64` display round-trips every value it prints. */
  datatype Numerals = Numerals(show: real -> string, read: string -> Option<real>)

  predicate NumeralText(s: string) {
    s != "" && forall i | 0 <= i < |s| :: '0' <= s[i] <= '9' || s[i] == '-' || s[i] == '.'
  }

  predicate Legible(nm: Numerals, x: real) {
    NumeralText(nm.show(x)) && nm.read(nm.show(x)) == Some(x)
  }

  predicate LegibleBound(nm: Numerals, b: Option<real>) { b.Some? ==> Legible(nm, b.value) }

  predicate LegibleLeaf(nm: Numerals, t: Test) {
    match t
    case Match(ops) => forall i | 0 <= i < |ops| && ops[i].Number? :: Legible(nm, ops[i].value as real)
    case Range(gt, gte, lt, lte) =>
      LegibleBound(nm, gt) && LegibleBound(nm, gte) && LegibleBound(nm, lt) && LegibleBound(nm, lte)
    case TextMatch(_) => true
  }

  /** Every number of the expression is written legibly. */
  ghost predicate LegibleExpr(nm: Numerals, e: Expr) {
    match e
    case And(c) => forall i | 0 <= i < |c| :: LegibleExpr(nm, c[i])
    case Or(c) => forall i | 0 <= i < |c| :: LegibleExpr(nm, c[i])
    case Not(p) => LegibleExpr(nm, p)
    case Leaf(l) => LegibleLeaf(nm, l.test)
  }

  // ----- Rendering -----

  const BACKSLASH: char := '\U{5C}'

  function Escaped(c: char): string {
    if IsAsciiAlphanumeric(c) then [c] else [BACKSLASH, c]
  }

  /** Every character that is not an ASCII letter or digit is escaped. */
  function Esc(s: string): string {
    if s == "" then "" else Escaped(s[0]) + Esc(s[1..])
  }

  function Clause(field: string, open: char, body: string, close: char, rest: string): string {
    "@" + (field + ([':'] + ([open] + (body + ([close] + rest)))))
  }

  function Side(nm: Numerals, bound: Option<(real, bool)>, inf: string): string {
    match bound
    case None => inf
    case Some((x, exclusive)) => (if exclusive then "(" else "") + nm.show(x)
  }

  function Interval(nm: Numerals, lo: Option<(real, bool)>, hi: Option<(real, bool)>): string {
    Side(nm, lo, "-inf") + ([' '] + Side(nm, hi, "+inf"))
  }

  /** The text behind an alternative that is not the last. */
  function Bar(tail: string): string { " " + ("|" + (" " + tail)) }

  function RedisOperand(nm: Numerals, field: string, o: Operand, rest: string): string {
    match o
    case Keyword(w) => Clause(field, '{', Esc(w), '}', rest)
    case Number(n) => var x := Some((n as real, false)); Clause(field, '[', Interval(nm, x, x), ']', rest)
  }

  function RedisOperands(nm: Numerals, field: string, ops: seq<Operand>, rest: string): string
    requires ops != []
    decreases |ops|
  {
    if |ops| == 1 then RedisOperand(nm, field, ops[0], rest)
    else RedisOperand(nm, field, ops[0], Bar(RedisOperands(nm, field, ops[1..], rest)))
  }

  function RedisLeaf(nm: Numerals, l: FieldTest, rest: string): string
    requires ValidTest(l.test)
  {
    match l.test
    case TextMatch(term) => Clause(l.field, '(', term, ')', rest)
    case Match(ops) => RedisOperands(nm, l.field, ops, rest)
    case Range(gt, gte, lt, lte) => Clause(l.field, '[', Interval(nm, Wanted(gt, gte), Wanted(lt, lte)), ']', rest)
  }

  /** The text of `e`, followed by `rest`. */
  ghost function RedisOnto(nm: Numerals, e: Expr, rest: string): string
    requires Compiled(e)
    decreases e, 1
  {
    match e
    case And(c) => "(" + RedisAll(nm, c, true, ")" + rest)
    case Or(c) => "(" + RedisAll(nm, c, false, ")" + rest)
    case Not(p) => "(" + ("-" + RedisOnto(nm, p, ")" + rest))
    case Leaf(l) => "(" + RedisLeaf(nm, l, ")" + rest)
  }

  ghost function RedisAll(nm: Numerals, c: seq<Expr>, inAnd: bool, rest: string): string
    requires c != [] && forall i | 0 <= i < |c| :: Compiled(c[i])
    decreases c, 0
  {
    if |c| == 1 then RedisOnto(nm, c[0], rest)
    else
      var tail := RedisAll(nm, c[1..], inAnd, rest);
      RedisOnto(nm, c[0], if inAnd then " " + tail else Bar(tail))
  }

  /** `Expr::redis`. */
  ghost function Redis(nm: Numerals, e: Expr): string
    requires Compiled(e)
  {
    RedisOnto(nm, e, "")
  }

  // ----- Reading -----

  datatype Query =
    | QAnd(children: seq<Query>)
    | QOr(children: seq<Query>)
    | QNot(child: Query)
    | QTags(field: string, values: seq<string>)
    | QRange(field: string, lo: Option<(real, bool)>, hi: Option<(real, bool)>)
    | QTerm(field: string, term: string)

  datatype Parsed<+T> = Done(value: T, rest: string) | Fail

  function Conj(units: seq<Query>): Query { if |units| == 1 then units[0] else QAnd(units) }
  function Disj(alts: seq<Query>): Query { if |alts| == 1 then alts[0] else QOr(alts) }

  /** Tag values up to the closing brace: `|` separates them, a backslash takes the next character literally. */
  function ReadTags(t: string, current: string, done: seq<string>): (r: Parsed<seq<string>>)
    ensures r.Done? ==> |r.rest| < |t|
    decreases |t|
  {
    if t == "" then Fail
    else if t[0] == BACKSLASH then if |t| < 2 then Fail else ReadTags(t[2..], current + [t[1]], done)
    else if t[0] == '}' then Done(done + [current], t[1..])
    else if t[0] == '|' then ReadTags(t[1..], "", done + [current])
    else ReadTags(t[1..], current + [t[0]], done)
  }

  function ReadSide(nm: Numerals, t: string, inf: string): Parsed<Option<(real, bool)>> {
    if t == inf then Done(None, "")
    else
      var exclusive := t != "" && t[0] == '(';
      match nm.read(if exclusive then t[1..] else t)
      case Some(x) => Done(Some((x, exclusive)), "")
      case None => Fail
  }

  function ReadInterval(nm: Numerals, field: string, body: string, rest: string): (r: Parsed<Query>)
    ensures r.Done? ==> r.rest == rest
  {
    var parts := Split(body, ' ');
    if |parts| != 2 then Fail else
      var lo, hi := ReadSide(nm, parts[0], "-inf"), ReadSide(nm, parts[1], "+inf");
      if lo.Fail? || hi.Fail? then Fail else Done(QRange(field, lo.value, hi.value), rest)
  }

  function ReadClause(nm: Numerals, t: string): (r: Parsed<Query>)
    requires t != ""
    ensures r.Done? ==> |r.rest| < |t|
  {
    var colon := Until(t[1..], ':');
    if colon + 2 >= |t| then Fail else ReadValue(nm, t[1..][..colon], t[colon + 2..])
  }

  function ReadValue(nm: Numerals, field: string, u: string): (r: Parsed<Query>)
    requires u != ""
    ensures r.Done? ==> |r.rest| < |u|
  {
    if u[0] == '{' then
      match ReadTags(u[1..], "", [])
      case Fail => Fail
      case Done(values, rest) => Done(QTags(field, values), rest)
    else if u[0] == '[' then
      var n := Until(u[1..], ']');
      if n == |u[1..]| then Fail else ReadInterval(nm, field, u[1..][..n], u[n + 2..])
    else if u[0] == '(' then
      var n := Until(u[1..], ')');
      if n == |u[1..]| then Fail else Done(QTerm(field, u[1..][..n]), u[n + 2..])
    else Fail
  }

  predicate StartsUnit(t: string) { t != "" && (t[0] == '(' || t[0] == '-' || t[0] == '@') }

  function ReadUnit(nm: Numerals, t: string): (r: Parsed<Query>)
    requires StartsUnit(t)
    ensures r.Done? ==> |r.rest| < |t|
    decreases |t|, 0
  {
    if t[0] == '(' then ReadGroup(nm, t[1..], [], [])
    else if t[0] == '-' then
      if !StartsUnit(t[1..]) then Fail else
        match ReadUnit(nm, t[1..])
        case Fail => Fail
        case Done(q, rest) => Done(QNot(q), rest)
    else ReadClause(nm, t)
  }

  /** The inside of a group up to its `)`: finished alternatives, and the units of the current one. */
  function ReadGroup(nm: Numerals, t: string, alts: seq<Query>, units: seq<Query>): (r: Parsed<Query>)
    ensures r.Done? ==> |r.rest| < |t|
    decreases |t|, 1
  {
    var u := DropBlanks(t);
    if StartsUnit(u) then
      match ReadUnit(nm, u)
      case Fail => Fail
      case Done(q, rest) => ReadGroup(nm, rest, alts, units + [q])
    else if u == "" || units == [] then Fail
    else if u[0] == '|' then ReadGroup(nm, u[1..], alts + [Conj(units)], [])
    else if u[0] == ')' then Done(Disj(alts + [Conj(units)]), u[1..])
    else Fail
  }

  /** A whole query: one unit and nothing behind it. */
  function ReadQuery(nm: Numerals, text: string): Option<Query> {
    if !StartsUnit(text) then None else
      match ReadUnit(nm, text)
      case Fail => None
      case Done(q, rest) => if rest == "" then Some(q) else None
  }

  // ----- What the rendered text reads as -----

  function OperandQuery(field: string, o: Operand): Query {
    match o
    case Keyword(w) => QTags(field, [w])
    case Number(n) => QRange(field, Some((n as real, false)), Some((n as real, false)))
  }

  function OperandQueries(field: string, ops: seq<Operand>): (r: seq<Query>)
    ensures |r| == |ops| && forall i | 0 <= i < |ops| :: r[i] == OperandQuery(field, ops[i])
  {
    if ops == [] then [] else [OperandQuery(field, ops[0])] + OperandQueries(field, ops[1..])
  }

  function LeafReading(l: FieldTest): Query {
    match l.test
    case TextMatch(term) => QTerm(l.field, term)
    case Match(ops) => Disj(OperandQueries(l.field, ops))
    case Range(gt, gte, lt, lte) => QRange(l.field, Wanted(gt, gte), Wanted(lt, lte))
  }

  function Reading(e: Expr): Query
    decreases e, 1
  {
    match e
    case And(c) => Conj(Readings(c))
    case Or(c) => Disj(Readings(c))
    case Not(p) => QNot(Reading(p))
    case Leaf(l) => LeafReading(l)
  }

  function Readings(c: seq<Expr>): (r: seq<Query>)
    ensures |r| == |c| && forall i | 0 <= i < |c| :: r[i] == Reading(c[i])
    decreases c, 0
  {
    if c == [] then [] else [Reading(c[0])] + Readings(c[1..])
  }

  /** No tag value can end its clause early or split it: the escaped text reads back as the one value. */
  lemma {:induction false} TagReads(s: string, current: string, done: seq<string>, rest: string)
    ensures ReadTags(Esc(s) + (['}'] + rest), current, done) == Done(done + [current + s], rest)
    decreases |s|
  {
    var close := ['}'] + rest;
    if s == "" {
      assert Esc(s) + close == close && current + s == current;
      TagEnds(current, done, rest);
    } else {
      var head, tail := [s[0]], Esc(s[1..]) + close;
      assert Esc(s) + close == Escaped(s[0]) + tail;
      EscapedCharReads(s[0], tail, current, done);
      TagReads(s[1..], current + head, done, rest);
      assert current + head + s[1..] == current + s;
    }
  }

  lemma TagEnds(current: string, done: seq<string>, rest: string)
    ensures ReadTags(['}'] + rest, current, done) == Done(done + [current], rest)
  {
    assert (['}'] + rest)[1..] == rest;
  }

  lemma EscapedCharReads(c: char, tail: string, current: string, done: seq<string>)
    ensures ReadTags(Escaped(c) + tail, current, done) == ReadTags(tail, current + [c], done)
  {
    var t := Escaped(c) + tail;
    if IsAsciiAlphanumeric(c) {
      assert t[1..] == tail;
    } else {
      assert t[2..] == tail && t[1] == c;
    }
  }

  /** A clause reads as its value does. */
  lemma ClauseReads(nm: Numerals, field: string, open: char, body: string, close: char, q: Query, rest: string)
    requires PlainIdentifier(field)
    requires ReadValue(nm, field, [open] + (body + ([close] + rest))) == Done(q, rest)
    ensures ReadUnit(nm, Clause(field, open, body, close, rest)) == Done(q, rest)
  {
    assert ':' !in field;
    FieldReads(field, [open] + (body + ([close] + rest)));
  }

  lemma SideReads(nm: Numerals, b: Option<(real, bool)>, inf: string)
    requires inf in ["-inf", "+inf"] && (b.Some? ==> Legible(nm, b.value.0))
    ensures ReadSide(nm, Side(nm, b, inf), inf) == Done(b, "")
    ensures ' ' !in Side(nm, b, inf) && ']' !in Side(nm, b, inf)
  {
    if b.Some? {
      var digits := nm.show(b.value.0);
      var t := Side(nm, b, inf);
      if b.value.1 {
        assert t[0] == '(' && t[1..] == digits;
      } else {
        assert t == digits;
        assert inf[1] == 'i' && t != inf;
      }
    }
  }

  lemma RangeReads(nm: Numerals, field: string, lo: Option<(real, bool)>, hi: Option<(real, bool)>, rest: string)
    requires PlainIdentifier(field)
    requires (lo.Some? ==> Legible(nm, lo.value.0)) && (hi.Some? ==> Legible(nm, hi.value.0))
    ensures ReadUnit(nm, Clause(field, '[', Interval(nm, lo, hi), ']', rest)) == Done(QRange(field, lo, hi), rest)
  {
    var a, b, body := Side(nm, lo, "-inf"), Side(nm, hi, "+inf"), Interval(nm, lo, hi);
    SideReads(nm, lo, "-inf");
    SideReads(nm, hi, "+inf");
    SplitAt(a, ' ', b);
    SplitNone(b, ' ');
    assert ReadInterval(nm, field, body, rest) == Done(QRange(field, lo, hi), rest);
    BodyReads('[', body, ']', rest);
    ClauseReads(nm, field, '[', body, ']', QRange(field, lo, hi), rest);
  }

  lemma TagClauseReads(nm: Numerals, field: string, w: string, rest: string)
    requires PlainIdentifier(field)
    ensures ReadUnit(nm, Clause(field, '{', Esc(w), '}', rest)) == Done(QTags(field, [w]), rest)
  {
    var u := ['{'] + (Esc(w) + (['}'] + rest));
    assert u[1..] == Esc(w) + (['}'] + rest);
    TagReads(w, "", [], rest);
    assert "" + w == w && [] + [w] == [w];
    ClauseReads(nm, field, '{', Esc(w), '}', QTags(field, [w]), rest);
  }

  lemma TermReads(nm: Numerals, field: string, term: string, rest: string)
    requires PlainIdentifier(field) && ValidTerm(term)
    ensures ReadUnit(nm, Clause(field, '(', term, ')', rest)) == Done(QTerm(field, term), rest)
  {
    assert ')' !in term;
    BodyReads('(', term, ')', rest);
    ClauseReads(nm, field, '(', term, ')', QTerm(field, term), rest);
  }

  lemma OperandReads(nm: Numerals, field: string, o: Operand, rest: string)
    requires PlainIdentifier(field) && (o.Number? ==> Legible(nm, o.value as real))
    ensures ReadUnit(nm, RedisOperand(nm, field, o, rest)) == Done(OperandQuery(field, o), rest)
  {
    match o
    case Keyword(w) => TagClauseReads(nm, field, w, rest);
    case Number(n) => RangeReads(nm, field, Some((n as real, false)), Some((n as real, false)), rest);
  }

  // One step of the group loop.

  lemma GroupUnit(nm: Numerals, t: string, q: Query, rest: string, alts: seq<Query>, units: seq<Query>)
    requires StartsUnit(t) && ReadUnit(nm, t) == Done(q, rest)
    ensures ReadGroup(nm, t, alts, units) == ReadGroup(nm, rest, alts, units + [q])
  {
  }

  lemma GroupBlank(nm: Numerals, t: string, alts: seq<Query>, units: seq<Query>)
    ensures ReadGroup(nm, " " + t, alts, units) == ReadGroup(nm, t, alts, units)
  {
    assert (" " + t)[1..] == t;
    assert DropBlanks(" " + t) == DropBlanks(t);
  }

  lemma GroupBar(nm: Numerals, t: string, alts: seq<Query>, q: Query)
    ensures ReadGroup(nm, Bar(t), alts, [q]) == ReadGroup(nm, t, alts + [q], [])
  {
    GroupBlank(nm, "|" + (" " + t), alts, [q]);
    assert ("|" + (" " + t))[1..] == " " + t;
    GroupBlank(nm, t, alts + [q], []);
  }

  lemma GroupClose(nm: Numerals, rest: string, alts: seq<Query>, units: seq<Query>)
    requires units != []
    ensures ReadGroup(nm, ")" + rest, alts, units) == Done(Disj(alts + [Conj(units)]), rest)
  {
    assert (")" + rest)[1..] == rest;
  }

  lemma NextAlternative(nm: Numerals, t: string, q: Query, tail: string, alts: seq<Query>)
    requires StartsUnit(t) && ReadUnit(nm, t) == Done(q, Bar(tail))
    ensures ReadGroup(nm, t, alts, []) == ReadGroup(nm, tail, alts + [q], [])
  {
    GroupUnit(nm, t, q, Bar(tail), alts, []);
    assert [] + [q] == [q];
    GroupBar(nm, tail, alts, q);
  }

  lemma LastAlternative(nm: Numerals, t: string, q: Query, rest: string, alts: seq<Query>)
    requires StartsUnit(t) && ReadUnit(nm, t) == Done(q, ")" + rest)
    ensures ReadGroup(nm, t, alts, []) == Done(Disj(alts + [q]), rest)
  {
    GroupUnit(nm, t, q, ")" + rest, alts, []);
    assert [] + [q] == [q];
    GroupClose(nm, rest, alts, [q]);
  }

  lemma NextUnit(nm: Numerals, t: string, q: Query, tail: string, units: seq<Query>)
    requires StartsUnit(t) && ReadUnit(nm, t) == Done(q, " " + tail)
    ensures ReadGroup(nm, t, [], units) == ReadGroup(nm, tail, [], units + [q])
  {
    GroupUnit(nm, t, q, " " + tail, [], units);
    GroupBlank(nm, tail, [], units + [q]);
  }

  lemma LastUnit(nm: Numerals, t: string, q: Query, rest: string, units: seq<Query>)
    requires StartsUnit(t) && ReadUnit(nm, t) == Done(q, ")" + rest)
    ensures ReadGroup(nm, t, [], units) == Done(Conj(units + [q]), rest)
  {
    GroupUnit(nm, t, q, ")" + rest, [], units);
    GroupClose(nm, rest, [], units + [q]);
    assert [] + [Conj(units + [q])] == [Conj(units + [q])];
  }

  /** One operand that is not the last, read in the group loop. */
  lemma NextOperand(nm: Numerals, field: string, o: Operand, tail: string, alts: seq<Query>)
    requires PlainIdentifier(field) && (o.Number? ==> Legible(nm, o.value as real))
    ensures ReadGroup(nm, RedisOperand(nm, field, o, Bar(tail)), alts, []) ==
            ReadGroup(nm, tail, alts + [OperandQuery(field, o)], [])
  {
    OperandReads(nm, field, o, Bar(tail));
    NextAlternative(nm, RedisOperand(nm, field, o, Bar(tail)), OperandQuery(field, o), tail, alts);
  }

  lemma LastOperand(nm: Numerals, field: string, o: Operand, rest: string, alts: seq<Query>)
    requires PlainIdentifier(field) && (o.Number? ==> Legible(nm, o.value as real))
    ensures ReadGroup(nm, RedisOperand(nm, field, o, ")" + rest), alts, []) ==
            Done(Disj(alts + [OperandQuery(field, o)]), rest)
  {
    OperandReads(nm, field, o, ")" + rest);
    LastAlternative(nm, RedisOperand(nm, field, o, ")" + rest), OperandQuery(field, o), rest, alts);
  }

  lemma OneOperandReads(nm: Numerals, field: string, ops: seq<Operand>, rest: string, alts: seq<Query>)
    requires PlainIdentifier(field) && |ops| == 1 && (ops[0].Number? ==> Legible(nm, ops[0].value as real))
    ensures ReadGroup(nm, RedisOperands(nm, field, ops, ")" + rest), alts, []) ==
            Done(Disj(alts + OperandQueries(field, ops)), rest)
  {
    LastOperand(nm, field, ops[0], rest, alts);
    assert OperandQueries(field, ops) == [OperandQuery(field, ops[0])];
  }

  lemma {:induction false} OperandsRead(nm: Numerals, field: string, ops: seq<Operand>, rest: string, alts: seq<Query>)
    requires PlainIdentifier(field) && ops != []
    requires forall i | 0 <= i < |ops| && ops[i].Number? :: Legible(nm, ops[i].value as real)
    ensures ReadGroup(nm, RedisOperands(nm, field, ops, ")" + rest), alts, []) ==
            Done(Disj(alts + OperandQueries(field, ops)), rest)
    decreases |ops|
  {
    if |ops| == 1 {
      OneOperandReads(nm, field, ops, rest, alts);
    } else {
      var o, os, after := ops[0], ops[1..], ")" + rest;
      var q := OperandQuery(field, o);
      var tail := RedisOperands(nm, field, os, after);
      assert alts + [q] + OperandQueries(field, os) == alts + OperandQueries(field, ops);
      calc {
        ReadGroup(nm, RedisOperands(nm, field, ops, after), alts, []);
        ReadGroup(nm, RedisOperand(nm, field, o, Bar(tail)), alts, []);
        { NextOperand(nm, field, o, tail, alts); }
        ReadGroup(nm, tail, alts + [q], []);
        { OperandsRead(nm, field, os, rest, alts + [q]); }
        Done(Disj(alts + [q] + OperandQueries(field, os)), rest);
      }
    }
  }

  /** A single unit fills its parentheses. */
  lemma SingleUnit(nm: Numerals, t: string, q: Query, rest: string)
    requires StartsUnit(t) && ReadUnit(nm, t) == Done(q, ")" + rest)
    ensures ReadUnit(nm, "(" + t) == Done(q, rest)
  {
    assert ("(" + t)[1..] == t;
    GroupUnit(nm, t, q, ")" + rest, [], []);
    assert [] + [q] == [q];
    GroupClose(nm, rest, [], [q]);
  }

  lemma LeafReads(nm: Numerals, l: FieldTest, rest: string)
    requires CompiledLeaf(l) && LegibleLeaf(nm, l.test)
    ensures ReadUnit(nm, "(" + RedisLeaf(nm, l, ")" + rest)) == Done(LeafReading(l), rest)
  {
    match l.test
    case TextMatch(term) =>
      TermReads(nm, l.field, term, ")" + rest);
      SingleUnit(nm, RedisLeaf(nm, l, ")" + rest), LeafReading(l), rest);
    case Range(gt, gte, lt, lte) =>
      RangeReads(nm, l.field, Wanted(gt, gte), Wanted(lt, lte), ")" + rest);
      SingleUnit(nm, RedisLeaf(nm, l, ")" + rest), LeafReading(l), rest);
    case Match(ops) =>
      var t := RedisOperands(nm, l.field, ops, ")" + rest);
      OperandsRead(nm, l.field, ops, rest, []);
      assert ("(" + t)[1..] == t;
      assert [] + OperandQueries(l.field, ops) == OperandQueries(l.field, ops);
  }

  /** Every rendered expression reads back as one unit, leaving what follows untouched. */
  lemma {:induction false} ExprReads(nm: Numerals, e: Expr, rest: string)
    requires Compiled(e) && LegibleExpr(nm, e)
    ensures StartsUnit(RedisOnto(nm, e, rest)) && ReadUnit(nm, RedisOnto(nm, e, rest)) == Done(Reading(e), rest)
    decreases e, 1
  {
    match e
    case Leaf(l) => LeafReads(nm, l, rest);
    case Not(p) =>
      var t := RedisOnto(nm, p, ")" + rest);
      ExprReads(nm, p, ")" + rest);
      assert ("-" + t)[1..] == t;
      SingleUnit(nm, "-" + t, QNot(Reading(p)), rest);
    case And(c) =>
      var t := RedisAll(nm, c, true, ")" + rest);
      AndReads(nm, c, rest, []);
      assert ("(" + t)[1..] == t;
      assert [] + Readings(c) == Readings(c);
    case Or(c) =>
      var t := RedisAll(nm, c, false, ")" + rest);
      OrReads(nm, c, rest, []);
      assert ("(" + t)[1..] == t;
      assert [] + Readings(c) == Readings(c);
  }

  lemma {:induction false} AndReads(nm: Numerals, c: seq<Expr>, rest: string, units: seq<Query>)
    requires c != [] && forall i | 0 <= i < |c| :: Compiled(c[i]) && LegibleExpr(nm, c[i])
    ensures ReadGroup(nm, RedisAll(nm, c, true, ")" + rest), [], units) == Done(Conj(units + Readings(c)), rest)
    decreases c, 0
  {
    var e, d := c[0], c[1..];
    var q := Reading(e);
    if |c| == 1 {
      ExprReads(nm, e, ")" + rest);
      LastUnit(nm, RedisOnto(nm, e, ")" + rest), q, rest, units);
      assert Readings(c) == [q];
    } else {
      var tail := RedisAll(nm, d, true, ")" + rest);
      assert units + [q] + Readings(d) == units + Readings(c);
      calc {
        ReadGroup(nm, RedisAll(nm, c, true, ")" + rest), [], units);
        ReadGroup(nm, RedisOnto(nm, e, " " + tail), [], units);
        { ExprReads(nm, e, " " + tail); NextUnit(nm, RedisOnto(nm, e, " " + tail), q, tail, units); }
        ReadGroup(nm, tail, [], units + [q]);
        { AndReads(nm, d, rest, units + [q]); }
        Done(Conj(units + [q] + Readings(d)), rest);
      }
    }
  }

  lemma {:induction false} OrReads(nm: Numerals, c: seq<Expr>, rest: string, alts: seq<Query>)
    requires c != [] && forall i | 0 <= i < |c| :: Compiled(c[i]) && LegibleExpr(nm, c[i])
    ensures ReadGroup(nm, RedisAll(nm, c, false, ")" + rest), alts, []) == Done(Disj(alts + Readings(c)), rest)
    decreases c, 0
  {
    var e, d := c[0], c[1..];
    var q := Reading(e);
    if |c| == 1 {
      ExprReads(nm, e, ")" + rest);
      LastAlternative(nm, RedisOnto(nm, e, ")" + rest), q, rest, alts);
      assert Readings(c) == [q];
    } else {
      var tail := RedisAll(nm, d, false, ")" + rest);
      assert alts + [q] + Readings(d) == alts + Readings(c);
      calc {
        ReadGroup(nm, RedisAll(nm, c, false, ")" + rest), alts, []);
        ReadGroup(nm, RedisOnto(nm, e, Bar(tail)), alts, []);
        { ExprReads(nm, e, Bar(tail)); NextAlternative(nm, RedisOnto(nm, e, Bar(tail)), q, tail, alts); }
        ReadGroup(nm, tail, alts + [q], []);
        { OrReads(nm, d, rest, alts + [q]); }
        Done(Disj(alts + [q] + Readings(d)), rest);
      }
    }
  }

  // ----- Meaning -----

  predicate Above(lo: Option<(real, bool)>, x: real) {
    lo.Some? ==> if lo.value.1 then x > lo.value.0 else x >= lo.value.0
  }

  predicate Below(hi: Option<(real, bool)>, x: real) {
    hi.Some? ==> if hi.value.1 then x < hi.value.0 else x <= hi.value.0
  }

  /** What a RediSearch query selects. */
  predicate QSelects(q: Query, row: Row, engine: Engine) {
    match q
    case QAnd(c) => forall i | 0 <= i < |c| :: QSelects(c[i], row, engine)
    case QOr(c) => exists i | 0 <= i < |c| :: QSelects(c[i], row, engine)
    case QNot(p) => !QSelects(p, row, engine)
    case QTags(f, values) => f in row && row[f].KeywordValue? && row[f].s in values
    case QRange(f, lo, hi) => f in row && row[f].IntValue? && Above(lo, row[f].n as real) && Below(hi, row[f].n as real)
    case QTerm(f, term) => f in row && row[f].KeywordValue? && engine(row[f].s, term)
  }

  lemma DisjSelects(alts: seq<Query>, row: Row, engine: Engine)
    requires alts != []
    ensures QSelects(Disj(alts), row, engine) <==> exists i | 0 <= i < |alts| :: QSelects(alts[i], row, engine)
  {
  }

  lemma ConjSelects(units: seq<Query>, row: Row, engine: Engine)
    requires units != []
    ensures QSelects(Conj(units), row, engine) <==> forall i | 0 <= i < |units| :: QSelects(units[i], row, engine)
  {
  }

  /** A row value that one operand accepts. */
  predicate Equals(v: FieldValue, o: Operand) {
    if o.Keyword? then v == KeywordValue(o.word) else v == IntValue(o.value)
  }

  lemma OperandSelects(field: string, o: Operand, row: Row, engine: Engine)
    ensures QSelects(OperandQuery(field, o), row, engine) <==> field in row && Equals(row[field], o)
  {
  }

  lemma LeafReadingSelects(l: FieldTest, row: Row, engine: Engine)
    requires ValidTest(l.test)
    ensures QSelects(LeafReading(l), row, engine) == LeafMeaning(row, engine)(l)
  {
    if l.test.Match? {
      var ops, qs := l.test.ops, OperandQueries(l.field, l.test.ops);
      DisjSelects(qs, row, engine);
      forall i | 0 <= i < |ops|
        ensures QSelects(qs[i], row, engine) <==> l.field in row && Equals(row[l.field], ops[i])
      {
        OperandSelects(l.field, ops[i], row, engine);
      }
    }
  }

  lemma {:induction false} ReadingSelects(e: Expr, row: Row, engine: Engine)
    requires Compiled(e)
    ensures QSelects(Reading(e), row, engine) == ExprSelects(e, row, engine)
    decreases e
  {
    match e
    case Leaf(l) => LeafReadingSelects(l, row, engine);
    case Not(p) => ReadingSelects(p, row, engine);
    case And(c) =>
      forall i | 0 <= i < |c| ensures QSelects(Readings(c)[i], row, engine) == ExprSelects(c[i], row, engine) {
        ReadingSelects(c[i], row, engine);
      }
      ConjSelects(Readings(c), row, engine);
    case Or(c) =>
      forall i | 0 <= i < |c| ensures QSelects(Readings(c)[i], row, engine) == ExprSelects(c[i], row, engine) {
        ReadingSelects(c[i], row, engine);
      }
      DisjSelects(Readings(c), row, engine);
  }

  /** The Redis text, read back, selects exactly the rows of the expression. */
  lemma RedisPreservesMeaning(nm: Numerals, e: Expr, row: Row, engine: Engine)
    requires Compiled(e) && LegibleExpr(nm, e)
    ensures ReadQuery(nm, Redis(nm, e)) == Some(Reading(e))
    ensures QSelects(Reading(e), row, engine) == ExprSelects(e, row, engine)
  {
    ExprReads(nm, e, "");
    ReadingSelects(e, row, engine);
  }

  /** Both rendered queries select exactly the rows the oracle counts, wherever the oracle has an answer. */
  lemma EnginesAgreeWithOracle(
    conditions: Json, schema: Json, nm: Numerals, row: Row, classify: Classifier, engine: Engine)
    requires CompileExpr(conditions, schema, 0).Ok? && LegibleExpr(nm, CompileExpr(conditions, schema, 0).value)
    requires Agree(classify, engine) && ExprMatches(CompileExpr(conditions, schema, 0).value, row, classify).Ok?
    ensures var e := CompileExpr(conditions, schema, 0).value;
            var counted := ExprMatches(e, row, classify).value;
            && Compiled(e)
            && OsSelects(OpenSearch(e), row, engine) == counted
            && ReadQuery(nm, Redis(nm, e)).Some?
            && QSelects(ReadQuery(nm, Redis(nm, e)).value, row, engine) == counted
  {
    CompileIsCompiled(conditions, schema, 0);
    var e := CompileExpr(conditions, schema, 0).value;
    OracleIsMeaning(e, row, classify, engine);
    OpenSearchPreservesMeaning(e, row, engine);
    RedisPreservesMeaning(nm, e, row, engine);
  }

  // ----- Decimal notation -----

  /** Numbers written and read as decimals. */
  ghost function DecimalNumerals(): Numerals {
    Numerals(x => Show(x), Read)
  }

  lemma DecimalsAreLegible(x: real)
    requires IsDecimal(x)
    ensures Legible(DecimalNumerals(), x)
  {
    DecimalReads(x);
    var s := Show(x);
    forall i | 0 <= i < |s| ensures '0' <= s[i] <= '9' || s[i] == '-' || s[i] == '.' {
      assert NumeralChar(s[i]);
    }
  }

  ghost predicate DecimalBound(b: Option<real>) { b.Some? ==> IsDecimal(b.value) }

  /** Every range bound is a finite decimal, as every `f64` is; integer operands need nothing. */
  ghost predicate DecimalExpr(e: Expr) {
    match e
    case And(c) => forall i | 0 <= i < |c| :: DecimalExpr(c[i])
    case Or(c) => forall i | 0 <= i < |c| :: DecimalExpr(c[i])
    case Not(p) => DecimalExpr(p)
    case Leaf(l) => l.test.Range? ==>
      DecimalBound(l.test.gt) && DecimalBound(l.test.gte) && DecimalBound(l.test.lt) && DecimalBound(l.test.lte)
  }

  lemma DecimalLeafIsLegible(t: Test)
    requires t.Range? ==> DecimalBound(t.gt) && DecimalBound(t.gte) && DecimalBound(t.lt) && DecimalBound(t.lte)
    ensures LegibleLeaf(DecimalNumerals(), t)
  {
    match t
    case TextMatch(_) =>
    case Match(ops) =>
      forall i | 0 <= i < |ops| && ops[i].Number? ensures Legible(DecimalNumerals(), ops[i].value as real) {
        IntegersAreDecimals(ops[i].value);
        DecimalsAreLegible(ops[i].value as real);
      }
    case Range(gt, gte, lt, lte) =>
      if gt.Some? { DecimalsAreLegible(gt.value); }
      if gte.Some? { DecimalsAreLegible(gte.value); }
      if lt.Some? { DecimalsAreLegible(lt.value); }
      if lte.Some? { DecimalsAreLegible(lte.value); }
  }

  lemma {:induction false} DecimalExprIsLegible(e: Expr)
    requires DecimalExpr(e)
    ensures LegibleExpr(DecimalNumerals(), e)
  {
    match e
    case Leaf(l) => DecimalLeafIsLegible(l.test);
    case Not(p) => DecimalExprIsLegible(p);
    case And(c) => forall i | 0 <= i < |c| ensures LegibleExpr(DecimalNumerals(), c[i]) { DecimalExprIsLegible(c[i]); }
    case Or(c) => forall i | 0 <= i < |c| ensures LegibleExpr(DecimalNumerals(), c[i]) { DecimalExprIsLegible(c[i]); }
  }

  /** In decimal notation both engines agree with the oracle, without a hypothesis on how numbers are written. */
  lemma DecimalQueriesAgreeWithOracle(conditions: Json, schema: Json, row: Row, classify: Classifier, engine: Engine)
    requires CompileExpr(conditions, schema, 0).Ok? && DecimalExpr(CompileExpr(conditions, schema, 0).value)
    requires Agree(classify, engine) && ExprMatches(CompileExpr(conditions, schema, 0).value, row, classify).Ok?
    ensures var e := CompileExpr(conditions, schema, 0).value;
            var counted := ExprMatches(e, row, classify).value;
            && Compiled(e)
            && OsSelects(OpenSearch(e), row, engine) == counted
            && ReadQuery(DecimalNumerals(), Redis(DecimalNumerals(), e)).Some?
            && QSelects(ReadQuery(DecimalNumerals(), Redis(DecimalNumerals(), e)).value, row, engine) == counted
  {
    DecimalExprIsLegible(CompileExpr(conditions, schema, 0).value);
    EnginesAgreeWithOracle(conditions, schema, DecimalNumerals(), row, classify, engine);
  }
}
