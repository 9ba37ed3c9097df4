/** Printing a filter tree and reading it back: the grammar is unambiguous on everything it can express. */
module RedisFilterRoundTrip {
  import opened Outcomes
  import opened FilterTree
  import opened Text
  import opened RedisFilterSyntax

  function PrintBound(b: Option<Bound>, inf: string): string {
    match b
    case None => inf
    case Some(Bound(p, exclusive)) => (if exclusive then "($" else "$") + p
  }

  /** The parameters of a tag clause, `$a | $b`, after `before` (nothing, or the blank behind a `|`). */
  function PrintParams(before: string, ps: seq<string>): string
    requires ps != []
    decreases |ps|
  {
    var p := before + ("$" + ps[0]);
    if |ps| == 1 then p else (p + " ") + (['|'] + PrintParams(" ", ps[1..]))
  }

  function LeafBody(l: RedisLeaf): string
    requires PrintableLeaf(l)
  {
    match l
    case Interval(_, lo, hi) => PrintBound(lo, "-inf") + ([' '] + PrintBound(hi, "+inf"))
    case Tags(_, params) => PrintParams("", params)
    case Term(_, param) => "$" + param
  }

  function Opening(l: RedisLeaf): char {
    match l
    case Interval(_, _, _) => '['
    case Tags(_, _) => '{'
    case Term(_, _) => '('
  }

  /** Trees a printer may write: a group may also hold a single child, `(a)`. */
  ghost predicate Loose(n: RNode) {
    match n
    case And(c) => c != [] && forall i | 0 <= i < |c| :: Loose(c[i])
    case Or(c) => c != [] && forall i | 0 <= i < |c| :: Loose(c[i])
    case Leaf(l) => PrintableLeaf(l)
  }

  ghost predicate AllLoose(c: seq<RNode>) {
    forall i | 0 <= i < |c| :: Loose(c[i])
  }

  /** The tree without its one-child groups. */
  ghost function Collapse(n: RNode): RNode
    decreases n, 1
  {
    match n
    case And(c) => if |c| == 1 then Collapse(c[0]) else And(CollapseAll(c))
    case Or(c) => if |c| == 1 then Collapse(c[0]) else Or(CollapseAll(c))
    case Leaf(_) => n
  }

  ghost function CollapseAll(c: seq<RNode>): (r: seq<RNode>)
    ensures |r| == |c| && forall i | 0 <= i < |c| :: r[i] == Collapse(c[i])
    decreases c, 0
  {
    if c == [] then [] else [Collapse(c[0])] + CollapseAll(c[1..])
  }

  lemma {:induction false} CollapseIsPrintable(n: RNode)
    requires Loose(n)
    ensures Printable(Collapse(n))
  {
    if !n.Leaf? {
      var c := n.children;
      forall i | 0 <= i < |c| ensures Printable(Collapse(c[i])) { CollapseIsPrintable(c[i]); }
    }
  }

  lemma {:induction false} PrintableIsLoose(n: RNode)
    requires Printable(n)
    ensures Loose(n) && Collapse(n) == n
  {
    if !n.Leaf? {
      var c := n.children;
      forall i | 0 <= i < |c| ensures Loose(c[i]) && Collapse(c[i]) == c[i] { PrintableIsLoose(c[i]); }
      assert CollapseAll(c) == c;
    }
  }

  /** The text of `n` followed by `rest`: groups are parenthesised, AND is juxtaposition, OR is `|`. */
  ghost function PrintOnto(n: RNode, rest: string): string
    requires Loose(n)
    decreases n, 1
  {
    match n
    case And(c) => "(" + PrintAll(c, true, ")" + rest)
    case Or(c) => "(" + PrintAll(c, false, ")" + rest)
    case Leaf(l) => PrintLeaf(l.field, Opening(l), LeafBody(l), rest)
  }

  function PrintLeaf(field: string, open: char, body: string, rest: string): string {
    "@" + (field + ([':'] + ([open] + (body + ([Closing(open)] + rest)))))
  }

  ghost function PrintAll(c: seq<RNode>, inAnd: bool, rest: string): string
    requires c != [] && AllLoose(c)
    decreases c, 0
  {
    if |c| == 1 then PrintOnto(c[0], rest)
    else PrintOnto(c[0], " " + (if inAnd then PrintAll(c[1..], inAnd, rest)
                                else "|" + (" " + PrintAll(c[1..], inAnd, rest))))
  }

  ghost function Print(n: RNode): string
    requires Loose(n)
  {
    PrintOnto(n, "")
  }

  // ----- Leaves -----

  lemma BoundReads(b: Option<Bound>, inf: string)
    requires PrintableBound(b) && inf in ["-inf", "+inf"]
    ensures ReadBound(PrintBound(b, inf), inf) == Ok(b)
    ensures PrintBound(b, inf) != "" && ' ' !in PrintBound(b, inf) && ']' !in PrintBound(b, inf)
  {
    var t := PrintBound(b, inf);
    if b.Some? {
      var p := b.value.param;
      if b.value.exclusive {
        assert t[1..] == "$" + p && t[1..][1..] == p;
      } else {
        assert t[1..] == p;
      }
    }
  }

  lemma IntervalReads(l: RedisLeaf)
    requires l.Interval? && PrintableLeaf(l)
    ensures ']' !in LeafBody(l) && ReadInterval(l.field, LeafBody(l)) == Ok(l)
  {
    var lo, hi := PrintBound(l.lo, "-inf"), PrintBound(l.hi, "+inf");
    BoundReads(l.lo, "-inf");
    BoundReads(l.hi, "+inf");
    SplitAt(lo, ' ', hi);
    SplitNone(hi, ' ');
    assert Split(LeafBody(l), ' ') == [lo, hi];
    assert NonEmpty([hi]) == [hi] && [lo, hi][1..] == [hi];
    assert NonEmpty([lo, hi]) == [lo, hi];
  }

  lemma ParamReads(before: string, p: string, after: string)
    requires ParamName(p) && !IsWhitespace(p[|p| - 1]) && before in ["", " "] && after in ["", " "]
    ensures ReadParam(Trim(before + ("$" + p) + after)) == Ok(p)
  {
    TrimPadded(before == " ", "$" + p, after == " ");
    assert ("$" + p)[1..] == p;
  }

  lemma OneParamReads(part: string, p: string)
    requires '|' !in part && ReadParam(Trim(part)) == Ok(p)
    ensures ReadParams(Split(part, '|')) == Ok([p])
  {
    SplitNone(part, '|');
    ReadParamsCons(part, [], p, []);
    assert [part] + [] == [part] && [p] + [] == [p];
  }

  lemma {:induction false} ParamsRead(before: string, ps: seq<string>)
    requires ps != [] && before in ["", " "] && forall i | 0 <= i < |ps| :: TagParam(ps[i])
    ensures ReadParams(Split(PrintParams(before, ps), '|')) == Ok(ps)
    decreases |ps|
  {
    var p := before + ("$" + ps[0]);
    if |ps| == 1 {
      ParamReads(before, ps[0], "");
      assert p + "" == p && [ps[0]] == ps;
      OneParamReads(p, ps[0]);
    } else {
      var others := PrintParams(" ", ps[1..]);
      ParamReads(before, ps[0], " ");
      ParamsRead(" ", ps[1..]);
      ReadParamsCons(p + " ", Split(others, '|'), ps[0], ps[1..]);
      assert [ps[0]] + ps[1..] == ps;
      assert '|' !in p + " ";
      SplitAt(p + " ", '|', others);
    }
  }

  lemma {:induction false} ParamsHoldNoBrace(before: string, ps: seq<string>)
    requires ps != [] && before in ["", " "] && forall i | 0 <= i < |ps| :: TagParam(ps[i])
    ensures '}' !in PrintParams(before, ps)
    decreases |ps|
  {
    if |ps| > 1 {
      ParamsHoldNoBrace(" ", ps[1..]);
    }
  }

  lemma ReadParamsCons(part: string, parts: seq<string>, p: string, ps: seq<string>)
    requires ReadParam(Trim(part)) == Ok(p) && ReadParams(parts) == Ok(ps)
    ensures ReadParams([part] + parts) == Ok([p] + ps)
  {
    assert ([part] + parts)[1..] == parts;
  }

  lemma TermReads(field: string, param: string)
    requires ':' !in field && TermParam(param)
    ensures ')' !in "$" + param && ReadTerm(field, "$" + param) == Ok(Term(field, param))
  {
    ParamReads("", param, "");
    assert "" + ("$" + param) + "" == "$" + param;
  }

  lemma TagsRead(field: string, params: seq<string>)
    requires PrintableLeaf(Tags(field, params))
    ensures '}' !in PrintParams("", params)
    ensures ReadTags(field, PrintParams("", params)) == Ok(Tags(field, params))
  {
    ParamsRead("", params);
    ParamsHoldNoBrace("", params);
  }

  lemma LeafReads(l: RedisLeaf)
    requires PrintableLeaf(l)
    ensures Closing(Opening(l)) !in LeafBody(l)
    ensures ReadLeaf(l.field, Opening(l), LeafBody(l)) == Ok(l)
  {
    match l
    case Interval(_, _, _) => IntervalReads(l);
    case Tags(field, params) => TagsRead(field, params);
    case Term(field, param) => TermReads(field, param);
  }

  // ----- Trees -----

  lemma LeafUnitReads(field: string, open: char, body: string, l: RedisLeaf, rest: string)
    requires ':' !in field && IsOpening(open) && Closing(open) !in body
    requires ReadLeaf(field, open, body) == Ok(l)
    ensures ReadUnit(PrintLeaf(field, open, body, rest)) == Done(Leaf(l), rest)
  {
    FieldReads(field, [open] + (body + ([Closing(open)] + rest)));
    BodyReads(open, body, Closing(open), rest);
  }

  // One step of each loop of the descent, for text that starts where the loop looks.

  lemma SequenceStep(t: string, n: RNode, rest: string, units: seq<RNode>)
    requires AllPrintable(units) && StartsUnit(t) && ReadUnit(t) == Done(n, rest)
    ensures ReadSequence(t, units) == ReadSequence(rest, units + [n])
  {
  }

  lemma SequenceSkipsBlank(t: string, units: seq<RNode>)
    requires AllPrintable(units)
    ensures ReadSequence(" " + t, units) == ReadSequence(t, units)
  {
    assert (" " + t)[1..] == t;
    assert DropBlanks(" " + t) == DropBlanks(t);
  }

  lemma SequenceEnds(stop: string, units: seq<RNode>)
    requires units != [] && AllPrintable(units) && EndsClause(stop)
    ensures ReadSequence(stop, units) == Done(if |units| == 1 then units[0] else And(units), stop)
  {
    assert DropBlanks(stop) == stop;
  }

  lemma SequenceStop(blank: string, stop: string, units: seq<RNode>)
    requires units != [] && AllPrintable(units) && EndsClause(stop) && blank in ["", " "]
    ensures ReadSequence(blank + stop, units) == Done(if |units| == 1 then units[0] else And(units), stop)
  {
    SequenceEnds(stop, units);
    if blank == "" { assert blank + stop == stop; } else { SequenceSkipsBlank(stop, units); }
  }

  lemma GroupReads(inner: string, n: RNode, rest: string)
    requires ReadAlternatives(inner) == Done(n, ")" + rest)
    ensures ReadUnit("(" + inner) == Done(n, rest)
  {
    assert ("(" + inner)[1..] == inner;
    assert (")" + rest)[1..] == rest;
  }

  /** A group of one child reads as that child. */
  lemma OneChildReads(text: string, n: RNode, rest: string)
    requires Printable(n) && ReadSequence(text, []) == Done(n, ")" + rest)
    ensures ReadUnit("(" + text) == Done(n, rest)
  {
    assert ReadMoreAlternatives(")" + rest, [n]) == Done(n, ")" + rest);
    GroupReads(text, n, rest);
  }

  /** Whatever follows it, the text of `n` reads as the unit `m`. */
  ghost predicate Reads(n: RNode, m: RNode)
    requires Loose(n)
  {
    Printable(m) && forall rest :: StartsUnit(PrintOnto(n, rest)) && ReadUnit(PrintOnto(n, rest)) == Done(m, rest)
  }

  ghost predicate AllRead(c: seq<RNode>, ns: seq<RNode>) {
    |c| == |ns| && AllLoose(c) && forall i | 0 <= i < |c| :: Reads(c[i], ns[i])
  }

  lemma LastUnitReads(t: string, n: RNode, units: seq<RNode>, stop: string)
    requires StartsUnit(t) && Printable(n) && ReadUnit(t) == Done(n, stop)
    requires units != [] && AllPrintable(units) && EndsClause(stop)
    ensures ReadSequence(t, units) == Done(And(units + [n]), stop)
  {
    SequenceStep(t, n, stop, units);
    SequenceEnds(stop, units + [n]);
  }

  lemma NextUnitReads(t: string, n: RNode, units: seq<RNode>, tail: string)
    requires StartsUnit(t) && Printable(n) && AllPrintable(units) && ReadUnit(t) == Done(n, " " + tail)
    ensures ReadSequence(t, units) == ReadSequence(tail, units + [n])
  {
    SequenceStep(t, n, " " + tail, units);
    SequenceSkipsBlank(tail, units + [n]);
  }

  lemma TailReads(c: seq<RNode>, ns: seq<RNode>)
    requires c != [] && AllRead(c, ns)
    ensures AllRead(c[1..], ns[1..]) && Loose(c[0]) && Reads(c[0], ns[0]) && Printable(ns[0])
  {
    forall i | 0 <= i < |c| - 1 ensures Reads(c[1..][i], ns[1..][i]) {
      assert Reads(c[i + 1], ns[i + 1]);
    }
    assert Reads(c[0], ns[0]);
  }

  lemma AppendPrintable(units: seq<RNode>, n: RNode)
    requires AllPrintable(units) && Printable(n)
    ensures AllPrintable(units + [n])
  {
  }

  lemma LastChildReads(c: seq<RNode>, ns: seq<RNode>, units: seq<RNode>, stop: string)
    requires |c| == 1 && AllRead(c, ns) && units != [] && AllPrintable(units) && EndsClause(stop)
    ensures ReadSequence(PrintAll(c, true, stop), units) == Done(And(units + ns), stop)
  {
    TailReads(c, ns);
    LastUnitReads(PrintOnto(c[0], stop), ns[0], units, stop);
    assert [ns[0]] == ns;
  }

  lemma {:induction false} SequenceReads(c: seq<RNode>, ns: seq<RNode>, units: seq<RNode>, stop: string)
    requires c != [] && AllRead(c, ns) && AllPrintable(units) && EndsClause(stop) && |units| + |c| >= 2
    ensures ReadSequence(PrintAll(c, true, stop), units) == Done(And(units + ns), stop)
    decreases |c|
  {
    if |c| == 1 {
      LastChildReads(c, ns, units, stop);
    } else {
      TailReads(c, ns);
      var d, read := c[1..], units + [ns[0]];
      AppendPrintable(units, ns[0]);
      assert read + ns[1..] == units + ns;
      calc {
        ReadSequence(PrintAll(c, true, stop), units);
        ReadSequence(PrintOnto(c[0], " " + PrintAll(d, true, stop)), units);
        { NextUnitReads(PrintOnto(c[0], " " + PrintAll(d, true, stop)), ns[0], units, PrintAll(d, true, stop)); }
        ReadSequence(PrintAll(d, true, stop), read);
        { SequenceReads(d, ns[1..], read, stop); }
        Done(And(read + ns[1..]), stop);
      }
    }
  }

  /** One printed tree followed by the end of its clause is a whole sequence. */
  lemma SingleReads(n: RNode, m: RNode, blank: string, stop: string)
    requires Loose(n) && Reads(n, m) && EndsClause(stop) && blank in ["", " "]
    ensures ReadSequence(PrintOnto(n, blank + stop), []) == Done(m, stop)
  {
    SequenceStep(PrintOnto(n, blank + stop), m, blank + stop, []);
    assert [] + [m] == [m];
    SequenceStop(blank, stop, [m]);
  }

  /** The alternatives loop from its next sequence on. */
  ghost function ReadAfter(t: string, alts: seq<RNode>): Parsed
    requires AllPrintable(alts)
  {
    var first := ReadSequence(t, []);
    if first.Fail? then first else ReadMoreAlternatives(first.rest, alts + [first.node])
  }

  lemma AfterNothing(t: string)
    ensures ReadAlternatives(t) == ReadAfter(t, [])
  {
    var first := ReadSequence(t, []);
    if first.Done? {
      assert [] + [first.node] == [first.node];
    }
  }

  lemma AlternativesStep(t: string, n: RNode, tail: string, alts: seq<RNode>)
    requires AllPrintable(alts) && Printable(n) && ReadSequence(t, []) == Done(n, "|" + (" " + tail))
    ensures ReadAfter(t, alts) == ReadAfter(tail, alts + [n])
  {
    assert ("|" + (" " + tail))[1..] == " " + tail;
    SequenceSkipsBlank(tail, []);
  }

  lemma AlternativesStop(t: string, n: RNode, stop: string, alts: seq<RNode>)
    requires alts != [] && AllPrintable(alts) && Printable(n)
    requires stop != "" && stop[0] == ')' && ReadSequence(t, []) == Done(n, stop)
    ensures ReadAfter(t, alts) == Done(Or(alts + [n]), stop)
  {
  }

  lemma {:induction false} AlternativesRead(c: seq<RNode>, ns: seq<RNode>, alts: seq<RNode>, stop: string)
    requires c != [] && AllRead(c, ns) && AllPrintable(alts) && |alts| + |c| >= 2
    requires stop != "" && stop[0] == ')'
    ensures ReadAfter(PrintAll(c, false, stop), alts) == Done(Or(alts + ns), stop)
    decreases |c|
  {
    TailReads(c, ns);
    if |c| == 1 {
      SingleReads(c[0], ns[0], "", stop);
      assert "" + stop == stop && [ns[0]] == ns;
      AlternativesStop(PrintOnto(c[0], stop), ns[0], stop, alts);
    } else {
      var d, read := c[1..], alts + [ns[0]];
      var tail := PrintAll(d, false, stop);
      var text := PrintOnto(c[0], " " + ("|" + (" " + tail)));
      assert read + ns[1..] == alts + ns;
      calc {
        ReadAfter(PrintAll(c, false, stop), alts);
        ReadAfter(text, alts);
        { SingleReads(c[0], ns[0], " ", "|" + (" " + tail)); AlternativesStep(text, ns[0], tail, alts); }
        ReadAfter(tail, read);
        { AlternativesRead(d, ns[1..], read, stop); }
        Done(Or(read + ns[1..]), stop);
      }
    }
  }

  lemma AndUnitReads(c: seq<RNode>, ns: seq<RNode>, rest: string)
    requires c != [] && AllRead(c, ns)
    ensures ReadUnit(PrintOnto(And(c), rest)) == Done(if |ns| == 1 then ns[0] else And(ns), rest)
  {
    var stop, inner := ")" + rest, PrintAll(c, true, ")" + rest);
    assert Reads(c[0], ns[0]);
    if |c| == 1 {
      SingleReads(c[0], ns[0], "", stop);
      assert "" + stop == stop;
      OneChildReads(inner, ns[0], rest);
    } else {
      SequenceReads(c, ns, [], stop);
      assert [] + ns == ns;
      OneChildReads(inner, And(ns), rest);
    }
  }

  lemma OrUnitReads(c: seq<RNode>, ns: seq<RNode>, rest: string)
    requires c != [] && AllRead(c, ns)
    ensures ReadUnit(PrintOnto(Or(c), rest)) == Done(if |ns| == 1 then ns[0] else Or(ns), rest)
  {
    var stop, inner := ")" + rest, PrintAll(c, false, ")" + rest);
    assert Reads(c[0], ns[0]);
    if |c| == 1 {
      SingleReads(c[0], ns[0], "", stop);
      assert "" + stop == stop;
      OneChildReads(inner, ns[0], rest);
    } else {
      AlternativesRead(c, ns, [], stop);
      assert [] + ns == ns;
      AfterNothing(inner);
      GroupReads(inner, Or(ns), rest);
    }
  }

  lemma ReadsIntro(n: RNode, m: RNode)
    requires Loose(n) && Printable(m)
    requires forall rest :: StartsUnit(PrintOnto(n, rest)) && ReadUnit(PrintOnto(n, rest)) == Done(m, rest)
    ensures Reads(n, m)
  {
  }

  /** Every printed tree reads back as one unit, without its one-child groups, leaving what follows untouched. */
  lemma {:induction false} UnitReads(n: RNode)
    requires Loose(n)
    ensures Reads(n, Collapse(n))
  {
    CollapseIsPrintable(n);
    if !n.Leaf? {
      var c, ns := n.children, CollapseAll(n.children);
      forall i | 0 <= i < |c| ensures Reads(c[i], ns[i]) { UnitReads(c[i]); }
      forall rest
        ensures StartsUnit(PrintOnto(n, rest)) && ReadUnit(PrintOnto(n, rest)) == Done(Collapse(n), rest)
      {
        if n.And? { AndUnitReads(c, ns, rest); } else { OrUnitReads(c, ns, rest); }
      }
    } else {
      forall rest
        ensures StartsUnit(PrintOnto(n, rest)) && ReadUnit(PrintOnto(n, rest)) == Done(n, rest)
      {
        LeafReads(n.leaf);
        LeafUnitReads(n.leaf.field, Opening(n.leaf), LeafBody(n.leaf), n.leaf, rest);
      }
    }
    ReadsIntro(n, Collapse(n));
  }

  /** Parsing a printed tree gives back that tree without its one-child groups. */
  lemma LoosePrintParses(n: RNode)
    requires Loose(n)
    ensures Parse(Print(n)) == Ok(Collapse(n))
  {
    var m := Collapse(n);
    CollapseIsPrintable(n);
    UnitReads(n);
    SingleReads(n, m, "", "");
    assert "" + "" == "";
    assert ReadMoreAlternatives("", [m]) == Done(m, "");
    assert ReadAlternatives(Print(n)) == Done(m, "");
  }

  /** Parsing a printed tree gives back exactly that tree. */
  lemma PrintThenParse(n: RNode)
    requires Printable(n)
    ensures Loose(n) && Parse(Print(n)) == Ok(n)
  {
    PrintableIsLoose(n);
    LoosePrintParses(n);
  }

  /** `Printable` is exactly what the parser returns: it reaches every such tree and no other. */
  lemma ParserImage(n: RNode)
    ensures Printable(n) <==> exists expr :: Parse(expr) == Ok(n)
  {
    if Printable(n) {
      PrintThenParse(n);
    }
  }

  /** Printing what was parsed is a canonical form: it parses to the same tree. */
  lemma ParseThenPrint(expr: string)
    requires Parse(expr).Ok?
    ensures Loose(Parse(expr).value) && Parse(Print(Parse(expr).value)) == Parse(expr)
  {
    PrintThenParse(Parse(expr).value);
  }
}
