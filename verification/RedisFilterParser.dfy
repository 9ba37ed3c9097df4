/** `RParser` of src/hybrid.rs: the recursive descent over a mutable cursor, proved to read the grammar. */
module RedisFilterParser {
  import opened Outcomes
  import opened FilterTree
  import opened Text
  import opened RedisFilterSyntax

  class RParser {
    const s: string
    var i: nat

    constructor (expr: string)
      ensures s == expr && i == 0
    {
      s, i := expr, 0;
    }

    /** The text from the cursor on. */
    ghost function Rest(): string
      reads this
      requires i <= |s|
    {
      s[i..]
    }

    /** `r` and the cursor are what the grammar function returned. */
    ghost predicate Agrees(r: Result<RNode, ParseError>, spec: Parsed)
      reads this
    {
      match spec
      case Fail(e) => r == Err(e)
      case Done(n, rest) => r == Ok(n) && i <= |s| && Rest() == rest
    }

    method Ws()
      requires i <= |s|
      modifies this
      ensures i <= |s| && Rest() == DropBlanks(old(Rest()))
    {
      while i < |s| && s[i] == ' '
        invariant i <= |s| && DropBlanks(Rest()) == DropBlanks(old(Rest()))
      {
        assert Rest()[1..] == s[i + 1..];
        i := i + 1;
      }
      assert Rest() != "" ==> Rest()[0] == s[i];
    }

    /** The cursor after the next `c`, or the length: how the field and the body of a leaf are cut out. */
    method SkipTo(c: char)
      requires i <= |s|
      modifies this
      ensures old(i) <= i <= |s| && i == old(i) + Until(old(Rest()), c)
    {
      while i < |s| && s[i] != c
        invariant old(i) <= i <= |s|
        invariant i + Until(Rest(), c) == old(i) + Until(old(Rest()), c)
      {
        assert Rest()[1..] == s[i + 1..];
        i := i + 1;
      }
    }

    method Alternatives() returns (r: Result<RNode, ParseError>)
      requires i <= |s|
      modifies this
      ensures Agrees(r, ReadAlternatives(old(Rest())))
      decreases |s| - i, 4
    {
      var first := Sequence();
      if first.Err? { return first; }
      var alts := [first.value];
      while true
        invariant i <= |s| && old(i) < i && alts != [] && AllPrintable(alts)
        invariant ReadMoreAlternatives(Rest(), alts) == ReadAlternatives(old(Rest()))
        decreases |s| - i
      {
        Ws();
        if i < |s| && s[i] == '|' {
          assert Rest()[0] == '|' && Rest()[1..] == s[i + 1..];
          i := i + 1;
          var next := Sequence();
          if next.Err? { return next; }
          alts := alts + [next.value];
        } else {
          break;
        }
      }
      assert Rest() != "" ==> Rest()[0] == s[i];
      r := Ok(if |alts| == 1 then alts[0] else Or(alts));
    }

    method Sequence() returns (r: Result<RNode, ParseError>)
      requires i <= |s|
      modifies this
      ensures Agrees(r, ReadSequence(old(Rest()), []))
      ensures r.Ok? ==> old(i) < i
      decreases |s| - i, 3
    {
      var units: seq<RNode> := [];
      while true
        invariant old(i) <= i <= |s| && AllPrintable(units)
        invariant ReadSequence(Rest(), units) == ReadSequence(old(Rest()), [])
        decreases |s| - i
      {
        Ws();
        assert Rest() != "" ==> Rest()[0] == s[i];
        if i < |s| && (s[i] == '(' || s[i] == '@') {
          var next := Unit();
          if next.Err? { return next; }
          units := units + [next.value];
        } else if i == |s| || s[i] == '|' || s[i] == ')' {
          break;
        } else {
          return Err(UnexpectedToken);
        }
      }
      if units == [] { return Err(EmptyClause); }
      r := Ok(if |units| == 1 then units[0] else And(units));
    }

    method Unit() returns (r: Result<RNode, ParseError>)
      requires i < |s| && (s[i] == '(' || s[i] == '@')
      modifies this
      ensures Agrees(r, ReadUnit(old(Rest())))
      ensures r.Ok? ==> old(i) < i
      decreases |s| - i, 1
    {
      ghost var t := Rest();
      i := i + 1;
      assert t[1..] == Rest();
      if s[i - 1] == '(' {
        r := Alternatives();
        if r.Err? { return; }
        Ws();
        assert Rest() != "" ==> Rest()[0] == s[i];
        if !(i < |s| && s[i] == ')') { return Err(UnclosedGroup); }
        assert Rest()[1..] == s[i + 1..];
        i := i + 1;
        return;
      }
      var start := i;
      SkipTo(':');
      var field := s[start..i];
      assert field == t[1..][..i - start];
      i := i + 1;
      if i <= |s| {
        assert Rest() == t[i - start + 1..];
      }
      r := Value(field);
    }

    /** The bracketed value of a leaf; the cursor stands behind the `:`, or past the end without one. */
    method Value(field: string) returns (r: Result<RNode, ParseError>)
      requires ':' !in field && i <= |s| + 1
      modifies this
      ensures Agrees(r, ReadValue(field, if old(i) <= |s| then old(s[i..]) else ""))
      ensures r.Ok? ==> old(i) < i
    {
      if !(i < |s| && IsOpening(s[i])) { return Err(LeafWithoutValue); }
      ghost var u := Rest();
      var open := s[i];
      assert u[0] == open;
      i := i + 1;
      assert u[1..] == Rest();
      var bodyStart := i;
      SkipTo(Closing(open));
      if i >= |s| { return Err(UnclosedLeaf); }
      var body := s[bodyStart..i];
      assert body == u[1..][..i - bodyStart];
      i := i + 1;
      assert Rest() == u[i - bodyStart + 1..];
      var leaf := ReadLeaf(field, open, body);
      r := if leaf.Err? then Err(leaf.error) else Ok(Leaf(leaf.value));
    }
  }

  /** `parse_redis_filter`. It terminates on every input. */
  method ParseRedisFilter(expr: string) returns (r: Result<RNode, ParseError>)
    ensures r == Parse(expr)
  {
    var p := new RParser(expr);
    assert p.Rest() == expr;
    r := p.Alternatives();
    if r.Err? { return; }
    p.Ws();
    if p.i != |p.s| { r := Err(TrailingInput); }
  }
}
