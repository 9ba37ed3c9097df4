/**
  The filter grammar of src/hybrid.rs as a relation between a whole text and a tree, and the proof that
  `Parse` accepts exactly the related texts. Nothing here scans: a text is related by how it is put together.
 */
module RedisFilterGrammar {
  import opened Outcomes
  import opened FilterTree
  import opened Text
  import opened RedisFilterSyntax
  import opened RedisFilterRoundTrip

  // ----- The relation -----

  predicate AllBlank(t: string) { forall i | 0 <= i < |t| :: t[i] == ' ' }

  predicate AllWhite(t: string) { forall i | 0 <= i < |t| :: IsWhitespace(t[i]) }

  /** `w` with white space around it. */
  ghost predicate Padded(t: string, w: string) {
    exists i, j | 0 <= i <= j <= |t| :: t[i..j] == w && AllWhite(t[..i]) && AllWhite(t[j..])
  }

  /** The pieces with one `c` between neighbours. */
  function Joined(parts: seq<string>, c: char): string
    requires parts != []
  {
    if |parts| == 1 then parts[0] else parts[0] + ([c] + Joined(parts[1..], c))
  }

  ghost predicate Pieces(parts: seq<string>, c: char, t: string) {
    parts != [] && (forall i | 0 <= i < |parts| :: c !in parts[i]) && Joined(parts, c) == t
  }

  /** The two blank-separated sides of an interval. */
  ghost predicate IsSides(parts: seq<string>, lo: Option<Bound>, hi: Option<Bound>) {
    NonEmpty(parts) == [PrintBound(lo, "-inf"), PrintBound(hi, "+inf")]
    && (lo.Some? ==> ParamName(lo.value.param)) && (hi.Some? ==> ParamName(hi.value.param))
  }

  /** One padded `$param` per piece. */
  ghost predicate IsParams(parts: seq<string>, params: seq<string>) {
    |parts| == |params| && forall i | 0 <= i < |parts| :: IsParam(parts[i], params[i])
  }

  ghost predicate IsParam(t: string, p: string) {
    Padded(t, "$" + p) && ParamName(p) && !IsWhitespace(p[|p| - 1])
  }

  ghost predicate IsBody(body: string, l: RedisLeaf) {
    match l
    case Interval(_, lo, hi) => exists parts :: Pieces(parts, ' ', body) && IsSides(parts, lo, hi)
    case Tags(_, params) => exists parts :: Pieces(parts, '|', body) && IsParams(parts, params)
    case Term(_, param) => IsParam(body, param)
  }

  /** `@field:`, a body between the brackets of its kind, and nothing else. */
  ghost predicate IsLeaf(t: string, l: RedisLeaf) {
    exists body ::
      && IsBody(body, l) && ':' !in l.field && Closing(Opening(l)) !in body
      && t == PrintLeaf(l.field, Opening(l), body, "")
  }

  /** The one node, or the group of several. */
  function Grouped(ns: seq<RNode>, inAnd: bool): RNode
    requires ns != []
  {
    if |ns| == 1 then ns[0] else if inAnd then And(ns) else Or(ns)
  }

  /** A leaf, or alternatives in parentheses. */
  ghost predicate IsUnit(t: string, n: RNode)
    decreases |t|, 0, 0
  {
    || (n.Leaf? && IsLeaf(t, n.leaf))
    || (|t| >= 2 && t[0] == '(' && t[|t| - 1] == ')' && IsAlternatives(t[1..|t| - 1], n))
  }

  /** One unit per node, with any blanks between and around them. */
  ghost predicate IsUnits(t: string, ns: seq<RNode>)
    decreases |t|, 1, 0
  {
    if ns == [] then AllBlank(t) else
      exists i, j | 0 <= i < j <= |t| ::
        AllBlank(t[..i]) && IsUnit(t[i..j], ns[0]) && IsUnits(t[j..], ns[1..])
  }

  ghost predicate IsSequence(t: string, n: RNode)
    decreases |t|, 2, 0
  {
    exists ns :: ns != [] && IsUnits(t, ns) && n == Grouped(ns, true)
  }

  /** One sequence per node, with a `|` between neighbours. */
  ghost predicate IsChoice(t: string, ns: seq<RNode>)
    requires ns != []
    decreases |t|, 3, |ns|
  {
    if |ns| == 1 then IsSequence(t, ns[0]) else
      exists k | 0 <= k < |t| :: t[k] == '|' && IsSequence(t[..k], ns[0]) && IsChoice(t[k + 1..], ns[1..])
  }

  ghost predicate IsAlternatives(t: string, n: RNode)
    decreases |t|, 4, 0
  {
    exists ns :: ns != [] && IsChoice(t, ns) && n == Grouped(ns, false)
  }

  // ----- Leaves -----

  lemma {:induction false} SplitJoins(t: string, c: char)
    ensures Pieces(Split(t, c), c, t)
    decreases |t|
  {
    var n := Until(t, c);
    if n < |t| {
      SplitJoins(t[n + 1..], c);
      assert Split(t, c)[1..] == Split(t[n + 1..], c);
      assert t == t[..n] + ([c] + t[n + 1..]);
    }
  }

  lemma {:induction false} JoinedSplits(parts: seq<string>, c: char, t: string)
    requires Pieces(parts, c, t)
    ensures Split(t, c) == parts
    decreases |parts|
  {
    if |parts| == 1 {
      SplitNone(t, c);
    } else {
      JoinedSplits(parts[1..], c, Joined(parts[1..], c));
      SplitAt(parts[0], c, Joined(parts[1..], c));
    }
  }

  lemma {:induction false} TrimStartDrops(a: string, b: string)
    requires AllWhite(a) && (b != "" ==> !IsWhitespace(b[0]))
    ensures TrimStart(a + b) == b
  {
    if a == "" {
      assert a + b == b;
    } else {
      assert (a + b)[1..] == a[1..] + b;
      TrimStartDrops(a[1..], b);
    }
  }

  lemma {:induction false} TrimEndDrops(b: string, a: string)
    requires AllWhite(a) && (b != "" ==> !IsWhitespace(b[|b| - 1]))
    ensures TrimEnd(b + a) == b
  {
    if a == "" {
      assert b + a == b;
    } else {
      assert (b + a)[..|b + a| - 1] == b + a[..|a| - 1];
      TrimEndDrops(b, a[..|a| - 1]);
    }
  }

  lemma {:induction false} TrimStartSplits(t: string)
    ensures var k := |t| - |TrimStart(t)|; 0 <= k && AllWhite(t[..k]) && t[k..] == TrimStart(t)
  {
    if t != "" && IsWhitespace(t[0]) {
      TrimStartSplits(t[1..]);
      var k := |t| - |TrimStart(t)|;
      assert t[k..] == t[1..][k - 1..];
      assert forall i | 1 <= i < k :: t[i] == t[1..][..k - 1][i - 1];
    }
  }

  lemma {:induction false} TrimEndSplits(t: string)
    ensures AllWhite(t[|TrimEnd(t)|..])
  {
    if t != "" && IsWhitespace(t[|t| - 1]) {
      var s, k := t[..|t| - 1], |TrimEnd(t)|;
      TrimEndSplits(s);
      assert t[k..] == s[k..] + [t[|t| - 1]];
    }
  }

  lemma TrimPads(t: string)
    ensures Padded(t, Trim(t))
  {
    TrimStartSplits(t);
    var u := TrimStart(t);
    TrimEndSplits(u);
    var i, j := |t| - |u|, |t| - |u| + |Trim(t)|;
    assert t[i..j] == u[..|Trim(t)|] && t[j..] == u[|Trim(t)|..];
  }

  lemma PaddedTrims(t: string, w: string)
    requires Padded(t, w) && w != "" && Trimmed(w)
    ensures Trim(t) == w
  {
    var i, j :| 0 <= i <= j <= |t| && t[i..j] == w && AllWhite(t[..i]) && AllWhite(t[j..]);
    var a, b := t[..i], t[j..];
    Cut(t, i, j, "");
    assert t + "" == t && b + "" == b;
    assert (w + b)[0] == w[0];
    TrimStartDrops(a, w + b);
    TrimEndDrops(w, b);
  }

  lemma TrimIff(t: string, w: string)
    requires w != ""
    ensures Trim(t) == w <==> Padded(t, w) && Trimmed(w)
  {
    if Trim(t) == w { TrimPads(t); }
    if Padded(t, w) && Trimmed(w) { PaddedTrims(t, w); }
  }

  lemma ParamIff(t: string, p: string)
    ensures ReadParam(Trim(t)) == Ok(p) <==> IsParam(t, p)
  {
    var w := "$" + p;
    TrimIff(t, w);
    assert w[1..] == p && (p != "" ==> w[|w| - 1] == p[|p| - 1]);
    if ReadParam(Trim(t)) == Ok(p) { assert Trim(t) == w; }
  }

  lemma {:induction false} ParamsIff(parts: seq<string>, params: seq<string>)
    ensures ReadParams(parts) == Ok(params) <==> IsParams(parts, params)
  {
    if parts != [] && params != [] {
      ParamIff(parts[0], params[0]);
      ParamsIff(parts[1..], params[1..]);
      assert params == [params[0]] + params[1..];
      assert IsParams(parts, params) <==> IsParam(parts[0], params[0]) && IsParams(parts[1..], params[1..]) by {
        ParamsCons(parts, params);
      }
    }
  }

  lemma ParamsCons(parts: seq<string>, params: seq<string>)
    requires parts != [] && params != []
    ensures IsParams(parts, params) <==> IsParam(parts[0], params[0]) && IsParams(parts[1..], params[1..])
  {
    if IsParam(parts[0], params[0]) && IsParams(parts[1..], params[1..]) {
      forall i | 0 <= i < |parts| ensures IsParam(parts[i], params[i]) {
        if i > 0 { assert parts[i] == parts[1..][i - 1]; }
      }
    }
  }

  /** A side of an interval reads exactly its own text. */
  lemma BoundIff(t: string, inf: string, b: Option<Bound>)
    requires inf in ["-inf", "+inf"]
    ensures ReadBound(t, inf) == Ok(b) <==> t == PrintBound(b, inf) && (b.Some? ==> ParamName(b.value.param))
  {
    if b.Some? {
      var p, u := b.value.param, PrintBound(b, inf);
      if b.value.exclusive { assert u[1..] == "$" + p && u[1..][1..] == p; } else { assert u[1..] == p; }
    }
  }

  lemma SidesIff(field: string, body: string, lo: Option<Bound>, hi: Option<Bound>)
    requires ':' !in field && ']' !in body
    ensures ReadInterval(field, body) == Ok(Interval(field, lo, hi)) <==> IsSides(Split(body, ' '), lo, hi)
  {
    var parts := NonEmpty(Split(body, ' '));
    if |parts| == 2 {
      BoundIff(parts[0], "-inf", lo);
      BoundIff(parts[1], "+inf", hi);
    }
  }

  lemma PiecesAre(t: string, c: char)
    ensures forall parts :: Pieces(parts, c, t) <==> parts == Split(t, c)
  {
    SplitJoins(t, c);
    forall parts | Pieces(parts, c, t) ensures parts == Split(t, c) { JoinedSplits(parts, c, t); }
  }

  lemma BodyIff(l: RedisLeaf, body: string)
    requires ':' !in l.field && Closing(Opening(l)) !in body
    ensures ReadLeaf(l.field, Opening(l), body) == Ok(l) <==> IsBody(body, l)
  {
    match l
    case Interval(field, lo, hi) =>
      PiecesAre(body, ' ');
      SidesIff(field, body, lo, hi);
    case Tags(field, params) =>
      PiecesAre(body, '|');
      ParamsIff(Split(body, '|'), params);
    case Term(field, param) =>
      ParamIff(body, param);
  }

  // ----- Putting texts together -----

  lemma Cut(t: string, i: nat, j: nat, rest: string)
    requires i <= j <= |t|
    ensures t + rest == t[..i] + (t[i..j] + (t[j..] + rest))
  {
  }

  lemma CutAt(t: string, k: nat, rest: string)
    requires k < |t|
    ensures t + rest == t[..k] + ([t[k]] + (t[k + 1..] + rest))
  {
  }

  lemma LeafOnto(field: string, open: char, body: string, rest: string)
    ensures PrintLeaf(field, open, body, "") + rest == PrintLeaf(field, open, body, rest)
  {
    var a, b := body + ([Closing(open)] + ""), body + ([Closing(open)] + rest);
    assert a + rest == b;
    var c, d := [open] + a, [open] + b;
    assert c + rest == d;
    var e, f := field + ([':'] + c), field + ([':'] + d);
    assert e + rest == f;
    assert ("@" + e) + rest == "@" + f;
  }

  lemma GroupOnto(inner: string, rest: string)
    ensures ("(" + inner + ")") + rest == "(" + (inner + (")" + rest))
    ensures ("(" + inner + ")")[1..|inner| + 1] == inner
  {
  }

  lemma Regroup(a: string, b: string, c: string)
    ensures (a + b) + c == a + (b + c)
  {
  }

  lemma UnitsGlue(blanks: string, unit: string, q: string, rest: string)
    ensures (blanks + unit + q) + rest == blanks + (unit + (q + rest))
  {
    Regroup(blanks + unit, q, rest);
    Regroup(blanks, unit, q + rest);
  }

  lemma NodesGlue(units: seq<RNode>, n: RNode, more: seq<RNode>)
    ensures units + ([n] + more) == (units + [n]) + more
  {
  }

  lemma GroupIsUnit(inner: string, n: RNode)
    requires IsAlternatives(inner, n)
    ensures IsUnit("(" + inner + ")", n)
  {
    var t := "(" + inner + ")";
    assert t[1..|t| - 1] == inner;
  }

  // ----- A related text is read -----

  lemma PrintedLeafIsRead(field: string, open: char, body: string, l: RedisLeaf, rest: string)
    requires ':' !in field && IsOpening(open) && Closing(open) !in body
    requires ReadLeaf(field, open, body) == Ok(l)
    ensures var u := PrintLeaf(field, open, body, rest); StartsUnit(u) && ReadUnit(u) == Done(Leaf(l), rest)
  {
    LeafUnitReads(field, open, body, l, rest);
  }

  lemma LeafIsRead(t: string, l: RedisLeaf, rest: string)
    requires IsLeaf(t, l)
    ensures StartsUnit(t + rest) && ReadUnit(t + rest) == Done(Leaf(l), rest)
  {
    var body :| && IsBody(body, l) && ':' !in l.field && Closing(Opening(l)) !in body
                && t == PrintLeaf(l.field, Opening(l), body, "");
    BodyIff(l, body);
    LeafOnto(l.field, Opening(l), body, rest);
    PrintedLeafIsRead(l.field, Opening(l), body, l, rest);
  }

  lemma {:induction false} UnitIsRead(t: string, n: RNode, rest: string)
    requires IsUnit(t, n)
    ensures StartsUnit(t + rest) && ReadUnit(t + rest) == Done(n, rest) && Printable(n)
    decreases |t|, 0, 0
  {
    if n.Leaf? && IsLeaf(t, n.leaf) {
      LeafIsRead(t, n.leaf, rest);
    } else {
      var inner := t[1..|t| - 1];
      AlternativesAreRead(inner, n, ")" + rest);
      GroupReads(inner + (")" + rest), n, rest);
      assert t == "(" + inner + ")";
      GroupOnto(inner, rest);
    }
    assert Progress(ReadUnit(t + rest), t + rest);
  }

  lemma {:induction false} BlanksDrop(t: string, rest: string)
    requires AllBlank(t)
    ensures DropBlanks(t + rest) == DropBlanks(rest)
  {
    if t == "" {
      assert t + rest == rest;
    } else {
      assert (t + rest)[1..] == t[1..] + rest;
      BlanksDrop(t[1..], rest);
    }
  }

  lemma SequenceSkipsBlanks(blanks: string, t: string, units: seq<RNode>)
    requires AllBlank(blanks) && AllPrintable(units)
    ensures ReadSequence(blanks + t, units) == ReadSequence(t, units)
  {
    BlanksDrop(blanks, t);
  }

  lemma NextUnitIsRead(blanks: string, unit: string, n: RNode, tail: string, units: seq<RNode>)
    requires AllBlank(blanks) && AllPrintable(units) && Printable(n)
    requires StartsUnit(unit + tail) && ReadUnit(unit + tail) == Done(n, tail)
    ensures ReadSequence(blanks + (unit + tail), units) == ReadSequence(tail, units + [n])
  {
    SequenceSkipsBlanks(blanks, unit + tail, units);
    SequenceStep(unit + tail, n, tail, units);
  }

  lemma {:induction false} UnitsAreRead(t: string, ns: seq<RNode>, units: seq<RNode>, stop: string)
    requires IsUnits(t, ns) && AllPrintable(units) && EndsClause(stop) && units + ns != []
    ensures AllPrintable(units + ns) && ReadSequence(t + stop, units) == Done(Grouped(units + ns, true), stop)
    decreases |t|, 1, 0
  {
    if ns == [] {
      assert units + ns == units;
      SequenceSkipsBlanks(t, stop, units);
      SequenceEnds(stop, units);
    } else {
      var i, j :| 0 <= i < j <= |t| && AllBlank(t[..i]) && IsUnit(t[i..j], ns[0]) && IsUnits(t[j..], ns[1..]);
      var blanks, unit, tail, n, more := t[..i], t[i..j], t[j..], ns[0], ns[1..];
      UnitIsRead(unit, n, tail + stop);
      Cut(t, i, j, stop);
      NextUnitIsRead(blanks, unit, n, tail + stop, units);
      assert ns == [n] + more;
      NodesGlue(units, n, more);
      AppendPrintable(units, n);
      UnitsAreRead(tail, more, units + [n], stop);
    }
  }

  lemma {:induction false} SequenceIsRead(t: string, n: RNode, stop: string)
    requires IsSequence(t, n) && EndsClause(stop)
    ensures ReadSequence(t + stop, []) == Done(n, stop) && Printable(n)
    decreases |t|, 2, 0
  {
    var ns :| ns != [] && IsUnits(t, ns) && n == Grouped(ns, true);
    assert [] + ns == ns;
    UnitsAreRead(t, ns, [], stop);
  }

  lemma NextAlternative(t: string, n: RNode, tail: string, alts: seq<RNode>)
    requires AllPrintable(alts) && Printable(n) && ReadSequence(t, []) == Done(n, "|" + tail)
    ensures ReadAfter(t, alts) == ReadAfter(tail, alts + [n])
  {
    assert ("|" + tail)[1..] == tail;
  }

  lemma LastAlternative(t: string, n: RNode, stop: string, alts: seq<RNode>)
    requires AllPrintable(alts) && Printable(n) && ReadSequence(t, []) == Done(n, stop)
    requires stop == "" || stop[0] == ')'
    ensures ReadAfter(t, alts) == Done(Grouped(alts + [n], false), stop)
  {
    assert DropBlanks(stop) == stop;
  }

  lemma ChoiceStep(t: string, k: nat, n: RNode, alts: seq<RNode>, stop: string)
    requires k < |t| && t[k] == '|' && AllPrintable(alts) && Printable(n)
    requires var tail := t[k + 1..] + stop; ReadSequence(t[..k] + ("|" + tail), []) == Done(n, "|" + tail)
    ensures ReadAfter(t + stop, alts) == ReadAfter(t[k + 1..] + stop, alts + [n])
  {
    CutAt(t, k, stop);
    NextAlternative(t + stop, n, t[k + 1..] + stop, alts);
  }

  lemma FirstCut(t: string, ns: seq<RNode>) returns (k: nat, n: RNode, more: seq<RNode>)
    requires |ns| >= 2 && IsChoice(t, ns)
    ensures k < |t| && t[k] == '|' && more != [] && ns == [n] + more
    ensures IsSequence(t[..k], n) && IsChoice(t[k + 1..], more)
  {
    k :| 0 <= k < |t| && t[k] == '|' && IsSequence(t[..k], ns[0]) && IsChoice(t[k + 1..], ns[1..]);
    n, more := ns[0], ns[1..];
  }

  lemma {:induction false} ChoiceIsRead(t: string, ns: seq<RNode>, alts: seq<RNode>, stop: string)
    requires ns != [] && IsChoice(t, ns) && AllPrintable(alts) && (stop == "" || stop[0] == ')')
    ensures ReadAfter(t + stop, alts) == Done(Grouped(alts + ns, false), stop)
    decreases |t|, 3, |ns|
  {
    if |ns| == 1 {
      SequenceIsRead(t, ns[0], stop);
      LastAlternative(t + stop, ns[0], stop, alts);
      assert [ns[0]] == ns;
    } else {
      var k, n, more := FirstCut(t, ns);
      var tail := t[k + 1..];
      SequenceIsRead(t[..k], n, "|" + (tail + stop));
      ChoiceStep(t, k, n, alts, stop);
      NodesGlue(alts, n, more);
      AppendPrintable(alts, n);
      ChoiceIsRead(tail, more, alts + [n], stop);
    }
  }

  lemma {:induction false} AlternativesAreRead(t: string, n: RNode, stop: string)
    requires IsAlternatives(t, n) && (stop == "" || stop[0] == ')')
    ensures ReadAlternatives(t + stop) == Done(n, stop)
    decreases |t|, 4, 0
  {
    var ns :| ns != [] && IsChoice(t, ns) && n == Grouped(ns, false);
    ChoiceIsRead(t, ns, [], stop);
    assert [] + ns == ns;
    AfterNothing(t + stop);
  }

  // ----- What is read is a related text -----

  lemma LeafWasRead(field: string, u: string, n: RNode, rest: string) returns (value: string)
    requires ':' !in field && ReadValue(field, u) == Done(n, rest)
    ensures u == value + rest && n.Leaf? && IsLeaf("@" + (field + ([':'] + value)), n.leaf)
  {
    var open := u[0];
    var k := Until(u[1..], Closing(open));
    var body, l := u[1..][..k], n.leaf;
    KindIsRead(field, open, body, l);
    BodyIff(l, body);
    value := [open] + (body + ([Closing(open)] + ""));
    assert PrintLeaf(field, open, body, "") == "@" + (field + ([':'] + value));
    ValueOnto(u, k, Closing(open));
  }

  lemma KindIsRead(field: string, open: char, body: string, l: RedisLeaf)
    requires ':' !in field && IsOpening(open) && Closing(open) !in body && ReadLeaf(field, open, body) == Ok(l)
    ensures l.field == field && Opening(l) == open
  {
  }

  lemma ValueOnto(u: string, k: nat, close: char)
    requires k + 2 <= |u| && u[1..][k] == close
    ensures u == ([u[0]] + (u[1..][..k] + ([close] + ""))) + u[k + 2..]
  {
    assert u[k + 1] == close;
  }

  lemma {:induction false} UnitWasRead(t: string, n: RNode, rest: string) returns (p: string)
    requires StartsUnit(t) && ReadUnit(t) == Done(n, rest)
    ensures t == p + rest && p != "" && IsUnit(p, n)
    decreases |t|, 0
  {
    if t[0] == '(' {
      var mid := ReadAlternatives(t[1..]).rest;
      var inner := AlternativesWereRead(t[1..], n, mid);
      p := "(" + inner + ")";
      assert mid == ")" + rest by { GroupCloses(t, n, rest); }
      GroupOnto(inner, rest);
      GroupIsUnit(inner, n);
    } else {
      p := LeafUnitWasRead(t, n, rest);
    }
  }

  lemma GroupCloses(t: string, n: RNode, rest: string)
    requires StartsUnit(t) && t[0] == '(' && ReadUnit(t) == Done(n, rest)
    ensures var inner := ReadAlternatives(t[1..]);
            inner.Done? && inner.node == n && (DropBlanks(inner.rest) == inner.rest ==> inner.rest == ")" + rest)
  {
  }

  lemma LeafUnitWasRead(t: string, n: RNode, rest: string) returns (p: string)
    requires StartsUnit(t) && t[0] == '@' && ReadUnit(t) == Done(n, rest)
    ensures t == p + rest && p != "" && IsUnit(p, n)
  {
    var colon := Until(t[1..], ':');
    assert colon + 2 <= |t|;
    var field, u := t[1..][..colon], t[colon + 2..];
    var value := LeafWasRead(field, u, n, rest);
    p := "@" + (field + ([':'] + value));
    FieldOnto(t, colon, value, rest);
  }

  lemma FieldOnto(t: string, colon: nat, value: string, rest: string)
    requires colon + 2 <= |t| && t[0] == '@' && t[1..][colon] == ':' && t[colon + 2..] == value + rest
    ensures t == ("@" + (t[1..][..colon] + ([':'] + value))) + rest
  {
    var field := t[1..][..colon];
    assert t[1..] == field + ([':'] + (value + rest));
    assert t == "@" + t[1..];
    assert ([':'] + value) + rest == [':'] + (value + rest);
    assert (field + ([':'] + value)) + rest == field + ([':'] + (value + rest));
  }

  lemma {:induction false} DroppedAreBlank(t: string)
    ensures var k := |t| - |DropBlanks(t)|; 0 <= k && AllBlank(t[..k]) && t[k..] == DropBlanks(t)
  {
    if t != "" && t[0] == ' ' {
      DroppedAreBlank(t[1..]);
      var k := |t| - |DropBlanks(t)|;
      assert t[k..] == t[1..][k - 1..];
      assert forall i | 1 <= i < k :: t[i] == t[1..][..k - 1][i - 1];
    }
  }

  lemma UnitsCons(blanks: string, unit: string, n: RNode, tail: string, ns: seq<RNode>)
    requires AllBlank(blanks) && unit != "" && IsUnit(unit, n) && IsUnits(tail, ns)
    ensures IsUnits(blanks + unit + tail, [n] + ns)
  {
    var t, i, j := blanks + unit + tail, |blanks|, |blanks| + |unit|;
    assert t[..i] == blanks && t[i..j] == unit && t[j..] == tail && ([n] + ns)[1..] == ns;
    assert AllBlank(t[..i]) && IsUnit(t[i..j], ([n] + ns)[0]) && IsUnits(t[j..], ([n] + ns)[1..]);
  }

  /** One round of the sequence loop. */
  lemma SequenceRound(t: string, units: seq<RNode>, n: RNode, rest: string)
    requires AllPrintable(units) && ReadSequence(t, units) == Done(n, rest) && StartsUnit(DropBlanks(t))
    ensures var next := ReadUnit(DropBlanks(t));
            && next.Done? && AllPrintable(units + [next.node]) && |next.rest| < |t|
            && ReadSequence(next.rest, units + [next.node]) == Done(n, rest)
  {
  }

  lemma SequenceStopped(t: string, units: seq<RNode>, n: RNode, rest: string)
    requires AllPrintable(units) && ReadSequence(t, units) == Done(n, rest) && !StartsUnit(DropBlanks(t))
    ensures units != [] && n == Grouped(units, true) && rest == DropBlanks(t)
    ensures EndsClause(rest) && DropBlanks(rest) == rest
  {
  }

  lemma {:induction false} UnitsWereRead(t: string, units: seq<RNode>, n: RNode, rest: string)
    returns (p: string, ns: seq<RNode>)
    requires AllPrintable(units) && ReadSequence(t, units) == Done(n, rest)
    ensures t == p + rest && IsUnits(p, ns) && units + ns != [] && n == Grouped(units + ns, true)
    ensures EndsClause(rest) && DropBlanks(rest) == rest
    decreases |t|, 1
  {
    var u := DropBlanks(t);
    DroppedAreBlank(t);
    var blanks := t[..|t| - |u|];
    assert t == blanks + u;
    if StartsUnit(u) {
      SequenceRound(t, units, n, rest);
      var node, left := ReadUnit(u).node, ReadUnit(u).rest;
      var unit := UnitWasRead(u, node, left);
      var q, more := UnitsWereRead(left, units + [node], n, rest);
      p, ns := blanks + unit + q, [node] + more;
      UnitsCons(blanks, unit, node, q, more);
      UnitsGlue(blanks, unit, q, rest);
      NodesGlue(units, node, more);
    } else {
      SequenceStopped(t, units, n, rest);
      p, ns := blanks, [];
      assert units + ns == units;
    }
  }

  lemma {:induction false} SequenceWasRead(t: string, n: RNode, rest: string) returns (p: string)
    requires ReadSequence(t, []) == Done(n, rest)
    ensures t == p + rest && IsSequence(p, n) && EndsClause(rest) && DropBlanks(rest) == rest
    decreases |t|, 2
  {
    var ns;
    p, ns := UnitsWereRead(t, [], n, rest);
    assert [] + ns == ns;
  }

  lemma ChoiceCons(p: string, n: RNode, tail: string, ns: seq<RNode>)
    requires IsSequence(p, n) && ns != [] && IsChoice(tail, ns)
    ensures IsChoice(p + ("|" + tail), [n] + ns)
  {
    var t, k := p + ("|" + tail), |p|;
    assert t[..k] == p && t[k + 1..] == tail && ([n] + ns)[1..] == ns;
    assert t[k] == '|' && IsSequence(t[..k], ([n] + ns)[0]) && IsChoice(t[k + 1..], ([n] + ns)[1..]);
  }

  /** One round of the alternatives loop, from a sequence on. */
  lemma ChoiceRound(t: string, alts: seq<RNode>, n: RNode, rest: string)
    requires AllPrintable(alts) && ReadAfter(t, alts) == Done(n, rest)
    ensures var first := ReadSequence(t, []);
            && first.Done? && AllPrintable(alts + [first.node]) && |first.rest| < |t|
            && ReadMoreAlternatives(first.rest, alts + [first.node]) == Done(n, rest)
  {
  }

  lemma MoreRound(u: string, alts: seq<RNode>, n: RNode, rest: string)
    requires alts != [] && AllPrintable(alts) && DropBlanks(u) == u && ReadMoreAlternatives(u, alts) == Done(n, rest)
    ensures if u != "" && u[0] == '|' then ReadAfter(u[1..], alts) == Done(n, rest)
            else n == Grouped(alts, false) && rest == u
  {
  }

  lemma {:induction false} ChoiceWasRead(t: string, alts: seq<RNode>, n: RNode, rest: string)
    returns (p: string, ns: seq<RNode>)
    requires AllPrintable(alts) && ReadAfter(t, alts) == Done(n, rest)
    ensures t == p + rest && ns != [] && IsChoice(p, ns) && n == Grouped(alts + ns, false)
    ensures DropBlanks(rest) == rest
    decreases |t|, 3
  {
    ChoiceRound(t, alts, n, rest);
    var node, u := ReadSequence(t, []).node, ReadSequence(t, []).rest;
    var q := SequenceWasRead(t, node, u);
    MoreRound(u, alts + [node], n, rest);
    if u != "" && u[0] == '|' {
      var tail, more := ChoiceWasRead(u[1..], alts + [node], n, rest);
      p, ns := q + ("|" + tail), [node] + more;
      ChoiceCons(q, node, tail, more);
      NodesGlue(alts, node, more);
      assert u == "|" + u[1..];
      Regroup(q, "|" + tail, rest);
      Regroup("|", tail, rest);
    } else {
      p, ns := q, [node];
    }
  }

  lemma {:induction false} AlternativesWereRead(t: string, n: RNode, rest: string) returns (p: string)
    requires ReadAlternatives(t) == Done(n, rest)
    ensures t == p + rest && IsAlternatives(p, n) && DropBlanks(rest) == rest
    decreases |t|, 4
  {
    AfterNothing(t);
    var ns;
    p, ns := ChoiceWasRead(t, [], n, rest);
    assert [] + ns == ns;
  }

  // ----- The language -----

  /** A text is accepted, as `n`, exactly when the grammar relates it to `n`; nothing may be left over. */
  lemma ParsesIff(t: string, n: RNode)
    ensures Parse(t) == Ok(n) <==> IsAlternatives(t, n)
  {
    if IsAlternatives(t, n) {
      AlternativesAreRead(t, n, "");
      assert t + "" == t;
    }
    if Parse(t) == Ok(n) {
      var rest := ReadAlternatives(t).rest;
      var p := AlternativesWereRead(t, n, rest);
      assert rest == "" && p + "" == p;
    }
  }

  /** The grammar is unambiguous. */
  lemma Unambiguous(t: string, m: RNode, n: RNode)
    requires IsAlternatives(t, m) && IsAlternatives(t, n)
    ensures m == n
  {
    ParsesIff(t, m);
    ParsesIff(t, n);
  }
}
