/**
  The RediSearch filter grammar of src/hybrid.rs: its tree, a specification of the recursive
  descent as functions from text to (tree, rest of the text), and the canonical printing.
  `RedisFilterParser` holds the cursor-based parser that is proved against these functions.
 */
module RedisFilterSyntax {
  import opened Outcomes
  import opened FilterTree
  import opened Text

  /** One side of an interval: the parameter and whether the bound is exclusive. */
  datatype Bound = Bound(param: string, exclusive: bool)

  datatype RedisLeaf =
    | Interval(field: string, lo: Option<Bound>, hi: Option<Bound>)  // @f:[lo hi]
    | Tags(field: string, params: seq<string>)                       // @f:{$a | $b}
    | Term(field: string, param: string)                             // @f:($p)

  type RNode = Tree<RedisLeaf>

  datatype ParseError =
    | UnexpectedToken | EmptyClause | UnclosedGroup | LeafWithoutValue | UnclosedLeaf
    | TrailingInput | NotAParameter | NotARange

  // ----- Leaves -----

  /** `$name` with a nonempty name that holds no space. */
  function ReadParam(t: string): (r: Result<string, ParseError>)
    ensures r.Ok? ==> t == "$" + r.value && r.value != "" && ' ' !in r.value
  {
    if t != "" && t[0] == '$' && t[1..] != "" && ' ' !in t[1..] then Ok(t[1..]) else Err(NotAParameter)
  }

  function ReadParams(parts: seq<string>): (r: Result<seq<string>, ParseError>)
    ensures r.Ok? ==> |r.value| == |parts|
    ensures r.Ok? ==> forall i | 0 <= i < |parts| :: ReadParam(Trim(parts[i])) == Ok(r.value[i])
  {
    if parts == [] then Ok([]) else
      var p :- ReadParam(Trim(parts[0]));
      var ps :- ReadParams(parts[1..]);
      Ok([p] + ps)
  }

  /** One side of an interval; `inf` is the token of the unbounded side. */
  function ReadBound(t: string, inf: string): (r: Result<Option<Bound>, ParseError>) {
    if t == inf then Ok(None)
    else if t != "" && t[0] == '(' then
      var p :- ReadParam(t[1..]);
      Ok(Some(Bound(p, true)))
    else
      var p :- ReadParam(t);
      Ok(Some(Bound(p, false)))
  }

  function NonEmpty(parts: seq<string>): (r: seq<string>)
    ensures forall i | 0 <= i < |r| :: r[i] in parts
  {
    if parts == [] then [] else (if parts[0] == "" then [] else [parts[0]]) + NonEmpty(parts[1..])
  }

  predicate IsOpening(c: char) { c == '[' || c == '{' || c == '(' }

  function Closing(open: char): char {
    if open == '[' then ']' else if open == '{' then '}' else ')'
  }

  function ReadInterval(field: string, body: string): (r: Result<RedisLeaf, ParseError>)
    requires ':' !in field && ']' !in body
    ensures r.Ok? ==> r.value.Interval? && PrintableLeaf(r.value)
  {
    var parts := NonEmpty(Split(body, ' '));
    if |parts| != 2 then Err(NotARange) else
      var lo :- ReadBound(parts[0], "-inf");
      var hi :- ReadBound(parts[1], "+inf");
      assert parts[0] in Split(body, ' ') && parts[1] in Split(body, ' ');
      Ok(Interval(field, lo, hi))
  }

  function ReadTags(field: string, body: string): (r: Result<RedisLeaf, ParseError>)
    requires ':' !in field && '}' !in body
    ensures r.Ok? ==> r.value.Tags? && PrintableLeaf(r.value)
  {
    var parts := Split(body, '|');
    var params :- ReadParams(parts);
    assert forall i | 0 <= i < |params| :: TagParam(params[i]) by {
      forall i | 0 <= i < |params| ensures TagParam(params[i]) {
        assert '|' !in parts[i] && '}' !in parts[i];
        TrimmedParam(parts[i], params[i]);
      }
    }
    Ok(Tags(field, params))
  }

  function ReadTerm(field: string, body: string): (r: Result<RedisLeaf, ParseError>)
    requires ':' !in field && ')' !in body
    ensures r.Ok? ==> r.value.Term? && PrintableLeaf(r.value)
  {
    var param :- ReadParam(Trim(body));
    assert TermParam(param) by { TrimmedParam(body, param); }
    Ok(Term(field, param))
  }

  /** The leaf `@field:<open>body<close>`. */
  function ReadLeaf(field: string, open: char, body: string): (r: Result<RedisLeaf, ParseError>)
    requires ':' !in field && Closing(open) !in body
    ensures r.Ok? ==> PrintableLeaf(r.value)
  {
    if open == '[' then ReadInterval(field, body)
    else if open == '{' then ReadTags(field, body)
    else ReadTerm(field, body)
  }

  lemma TrimmedParam(part: string, p: string)
    requires ReadParam(Trim(part)) == Ok(p)
    ensures ParamName(p) && !IsWhitespace(p[|p| - 1])
    ensures forall x | x in p :: x in part
  {
    var t := Trim(part);
    assert p[|p| - 1] == t[|p|];
    assert forall x | x in p :: x in t;
  }

  // ----- What the grammar can express -----

  predicate ParamName(p: string) { p != "" && ' ' !in p }
  predicate TagParam(p: string) {
    ParamName(p) && '|' !in p && '}' !in p && !IsWhitespace(p[|p| - 1])
  }
  predicate TermParam(p: string) { ParamName(p) && ')' !in p && !IsWhitespace(p[|p| - 1]) }
  predicate PrintableBound(b: Option<Bound>) {
    b.Some? ==> ParamName(b.value.param) && ']' !in b.value.param
  }

  predicate PrintableLeaf(l: RedisLeaf) {
    ':' !in l.field &&
    match l
    case Interval(_, lo, hi) => PrintableBound(lo) && PrintableBound(hi)
    case Tags(_, params) => params != [] && forall i | 0 <= i < |params| :: TagParam(params[i])
    case Term(_, param) => TermParam(param)
  }

  /** Trees the grammar can express: no group of fewer than two children, delimiter-free names. */
  ghost predicate Printable(n: RNode) {
    match n
    case And(c) => |c| >= 2 && forall i | 0 <= i < |c| :: Printable(c[i])
    case Or(c) => |c| >= 2 && forall i | 0 <= i < |c| :: Printable(c[i])
    case Leaf(l) => PrintableLeaf(l)
  }

  ghost predicate AllPrintable(c: seq<RNode>) {
    forall i | 0 <= i < |c| :: Printable(c[i])
  }

  // ----- Recursive descent: text to (tree, rest) -----

  datatype Parsed = Done(node: RNode, rest: string) | Fail(error: ParseError)

  /** A parsed node is expressible and used up some text. */
  ghost predicate Progress(r: Parsed, t: string) {
    r.Done? ==> Printable(r.node) && |r.rest| < |t|
  }

  predicate StartsUnit(t: string) { t != "" && (t[0] == '(' || t[0] == '@') }
  predicate EndsClause(t: string) { t == "" || t[0] == '|' || t[0] == ')' }

  /** alternatives := sequence ('|' sequence)* */
  function ReadAlternatives(t: string): (r: Parsed)
    ensures Progress(r, t)
    decreases |t|, 4
  {
    var first := ReadSequence(t, []);
    if first.Fail? then first else ReadMoreAlternatives(first.rest, [first.node])
  }

  function ReadMoreAlternatives(t: string, alts: seq<RNode>): (r: Parsed)
    requires alts != [] && AllPrintable(alts)
    ensures r.Done? ==> Printable(r.node) && |r.rest| <= |t|
    decreases |t|, 2
  {
    var u := DropBlanks(t);
    if u != "" && u[0] == '|' then
      var next := ReadSequence(u[1..], []);
      if next.Fail? then next else ReadMoreAlternatives(next.rest, alts + [next.node])
    else Done(if |alts| == 1 then alts[0] else Or(alts), u)
  }

  /** sequence := unit (' ' unit)*, where juxtaposition is AND; `units` have been read already. */
  function ReadSequence(t: string, units: seq<RNode>): (r: Parsed)
    requires AllPrintable(units)
    ensures r.Done? ==> Printable(r.node) && |r.rest| <= |t| && (units == [] ==> |r.rest| < |t|)
    decreases |t|, 3
  {
    var u := DropBlanks(t);
    if StartsUnit(u) then
      var next := ReadUnit(u);
      if next.Fail? then next else ReadSequence(next.rest, units + [next.node])
    else if !EndsClause(u) then Fail(UnexpectedToken)
    else if units == [] then Fail(EmptyClause)
    else Done(if |units| == 1 then units[0] else And(units), u)
  }

  function ReadUnit(t: string): (r: Parsed)
    requires StartsUnit(t)
    ensures Progress(r, t)
    decreases |t|, 1
  {
    if t[0] == '(' then
      var inner := ReadAlternatives(t[1..]);
      if inner.Fail? then inner else
        var u := DropBlanks(inner.rest);
        if u != "" && u[0] == ')' then Done(inner.node, u[1..]) else Fail(UnclosedGroup)
    else
      var colon := Until(t[1..], ':');
      ReadValue(t[1..][..colon], if colon + 2 <= |t| then t[colon + 2..] else "")
  }

  /** The bracketed value of a leaf, from its opening bracket on. */
  function ReadValue(field: string, u: string): (r: Parsed)
    requires ':' !in field
    ensures r.Done? ==> Printable(r.node) && |r.rest| < |u|
  {
    if u == "" || !IsOpening(u[0]) then Fail(LeafWithoutValue) else
      var n := Until(u[1..], Closing(u[0]));
      if n == |u[1..]| then Fail(UnclosedLeaf) else
        match ReadLeaf(field, u[0], u[1..][..n])
        case Err(e) => Fail(e)
        case Ok(leaf) => Done(Leaf(leaf), u[n + 2..])
  }

  /** `parse_redis_filter`: alternatives up to the end of the text. */
  function Parse(expr: string): (r: Result<RNode, ParseError>)
    ensures r.Ok? ==> Printable(r.value)
  {
    match ReadAlternatives(expr)
    case Fail(e) => Err(e)
    case Done(n, rest) => if DropBlanks(rest) == "" then Ok(n) else Err(TrailingInput)
  }
}
