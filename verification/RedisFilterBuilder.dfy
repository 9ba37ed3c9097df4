/**
  The filter builder of the Redis engine (src/bin/vector_db_benchmark/engine/redis.rs) and its
  validator: what the builder renders for `conditions` is accepted exactly when no integer list is
  spliced and no listed keyword is empty. `match.any` drops empty strings, parenthesises integer
  lists, and renders a list with nothing left as a clause that matches nothing.
 */
module RedisFilterBuilder {
  import opened Outcomes
  import opened Json
  import opened Lists
  import opened FilterTree
  import opened Text
  import opened Predicates
  import opened RedisFilterSyntax
  import opened RedisFilterRoundTrip
  import opened RedisFilterCheck
  import opened RedisFilterComplete
  import opened RedisParamNames
  import D = Decimals

  // ----- What the builder is asked, and what it keeps of it -----

  /** A leaf, and whether its values were given as a list (`any`). */
  datatype Asked = Asked(l: FieldTest, listed: bool)

  function IsListed(body: Json): bool {
    body.Obj? && "match" in body.fields && body.fields["match"].Obj? && "any" in body.fields["match"].fields
  }

  function AskNode(v: Json): Tree<Asked>
    requires CompileNode(v).Ok?
    decreases v, 1
  {
    var key := OnlyKey(v.fields);
    var body := v.fields[key];
    if key == "and" then And(AskNodes(body.items))
    else if key == "or" then Or(AskNodes(body.items))
    else Leaf(Asked(FieldTest(key, CompileTest(body).value), IsListed(body)))
  }

  function AskNodes(vs: seq<Json>): (r: seq<Tree<Asked>>)
    requires CompileNodes(vs).Ok?
    ensures |r| == |vs|
    decreases vs, 0
  {
    if vs == [] then [] else [AskNode(vs[0])] + AskNodes(vs[1..])
  }

  function MapTree<A, B>(t: Tree<A>, f: A -> B): Tree<B>
    decreases t, 1
  {
    match t
    case And(c) => And(MapAll(c, f))
    case Or(c) => Or(MapAll(c, f))
    case Leaf(a) => Leaf(f(a))
  }

  function MapAll<A, B>(c: seq<Tree<A>>, f: A -> B): (r: seq<Tree<B>>)
    ensures |r| == |c| && forall i | 0 <= i < |c| :: r[i] == MapTree(c[i], f)
    decreases c, 0
  {
    if c == [] then [] else [MapTree(c[0], f)] + MapAll(c[1..], f)
  }

  function Plain(a: Asked): FieldTest { a.l }

  /** The predicate asked for. */
  function Forget(t: Tree<Asked>): Predicate { MapTree(t, Plain) }

  lemma {:induction false} AskedIsCompiled(v: Json)
    requires CompileNode(v).Ok?
    ensures Forget(AskNode(v)) == CompileNode(v).value
    decreases v, 1
  {
    var key := OnlyKey(v.fields);
    var body := v.fields[key];
    if key == "and" || key == "or" { AskedAreCompiled(body.items); }
  }

  lemma {:induction false} AskedAreCompiled(vs: seq<Json>)
    requires CompileNodes(vs).Ok?
    ensures MapAll(AskNodes(vs), Plain) == CompileNodes(vs).value
    decreases vs, 0
  {
    if vs != [] {
      AskedIsCompiled(vs[0]);
      AskedAreCompiled(vs[1..]);
      assert AskNodes(vs)[1..] == AskNodes(vs[1..]);
    }
  }

  predicate AllNumbers(ops: seq<Operand>) { forall i | 0 <= i < |ops| :: ops[i].Number? }

  /** The nonempty keywords of a list. */
  function KeptWords(ops: seq<Operand>): (r: seq<Operand>)
    ensures |r| <= |ops| && forall i | 0 <= i < |r| :: r[i].Keyword?
  {
    if ops == [] then [] else
      (if ops[0].Keyword? && ops[0].word != "" then [ops[0]] else []) + KeptWords(ops[1..])
  }

  function SeenOps(ops: seq<Operand>): seq<Operand> {
    if AllNumbers(ops) then ops else KeptWords(ops)
  }

  function SeenTest(t: Test, listed: bool): Test {
    if listed && t.Match? then Match(SeenOps(t.ops)) else t
  }

  function SeenLeaf(a: Asked): FieldTest { FieldTest(a.l.field, SeenTest(a.l.test, a.listed)) }

  /** The predicate the builder renders. */
  function Seen(t: Tree<Asked>): Predicate { MapTree(t, SeenLeaf) }

  /** A list with nothing left. */
  predicate Never(a: Asked) { SeenTest(a.l.test, a.listed) == Match([]) }

  /** A list the builder takes as it is. */
  predicate Whole(a: Asked) { a.listed && a.l.test.Match? ==> Keyword("") !in a.l.test.ops }

  lemma {:induction false} KeptWordsIff(ops: seq<Operand>)
    requires forall i | 0 <= i < |ops| :: ops[i].Keyword?
    ensures Keyword("") !in ops ==> KeptWords(ops) == ops
    ensures Keyword("") in ops ==> |KeptWords(ops)| < |ops|
  {
    if ops != [] {
      KeptWordsIff(ops[1..]);
      assert ops == [ops[0]] + ops[1..];
    }
  }

  lemma {:induction false} AllKeywords(ops: seq<Operand>)
    requires Ints(ops) == []
    ensures forall i | 0 <= i < |ops| :: ops[i].Keyword?
  {
    if ops != [] {
      AllKeywords(ops[1..]);
      assert forall i | 0 < i < |ops| :: ops[i] == ops[1..][i - 1];
    }
  }

  lemma {:induction false} AllNumeric(ops: seq<Operand>)
    requires Words(ops) == []
    ensures AllNumbers(ops)
  {
    if ops != [] {
      AllNumeric(ops[1..]);
      assert forall i | 0 < i < |ops| :: ops[i] == ops[1..][i - 1];
    }
  }

  lemma {:induction false} KeywordsOnly(ops: seq<Operand>)
    requires forall i | 0 <= i < |ops| :: ops[i].Keyword?
    ensures Ints(ops) == []
  {
    if ops != [] { KeywordsOnly(ops[1..]); }
  }

  /** An unmixed leaf is kept whole, or loses values. */
  lemma SeenIff(a: Asked)
    requires Translatable(a.l.test)
    ensures Whole(a) ==> SeenLeaf(a) == a.l
    ensures !Whole(a) ==> Size(SeenLeaf(a)) < Size(a.l)
    ensures !Never(a) ==> Translatable(SeenLeaf(a).test)
  {
    if a.listed && a.l.test.Match? {
      var ops := a.l.test.ops;
      if Words(ops) == [] {
        AllNumeric(ops);
      } else {
        AllKeywords(ops);
        KeptWordsIff(ops);
        KeywordsOnly(KeptWords(ops));
        assert ops[0].Keyword?;
      }
    }
  }

  // ----- Counting values -----

  function Size(l: FieldTest): nat { if l.test.Match? then |l.test.ops| else 1 }

  function Weight(ls: seq<FieldTest>): nat {
    if ls == [] then 0 else Size(ls[0]) + Weight(ls[1..])
  }

  function RedisSize(l: RedisLeaf): nat { if l.Tags? then |l.params| else 1 }

  function RedisWeight(ls: seq<RedisLeaf>): nat {
    if ls == [] then 0 else RedisSize(ls[0]) + RedisWeight(ls[1..])
  }

  lemma {:induction false} WeightConcat(a: seq<FieldTest>, b: seq<FieldTest>)
    ensures Weight(a + b) == Weight(a) + Weight(b)
  {
    if a == [] {
      assert a + b == b;
    } else {
      assert (a + b)[1..] == a[1..] + b;
      WeightConcat(a[1..], b);
    }
  }

  lemma {:induction false} RedisWeightConcat(a: seq<RedisLeaf>, b: seq<RedisLeaf>)
    ensures RedisWeight(a + b) == RedisWeight(a) + RedisWeight(b)
  {
    if a == [] {
      assert a + b == b;
    } else {
      assert (a + b)[1..] == a[1..] + b;
      RedisWeightConcat(a[1..], b);
    }
  }

  lemma {:induction false} PointsWeigh(c: seq<RNode>)
    requires forall i | 0 <= i < |c| :: c[i].Leaf? && c[i].leaf.Interval?
    ensures RedisWeight(LeavesOf(c)) == |c|
  {
    if c != [] {
      PointsWeigh(c[1..]);
      RedisWeightConcat(Leaves(c[0]), LeavesOf(c[1..]));
      OneLeafWeighs(c[0].leaf);
    }
  }

  lemma OneLeafWeighs(l: RedisLeaf)
    ensures RedisWeight([l]) == RedisSize(l)
  {
    assert [l][1..] == [];
  }

  lemma SameLength<T>(a: seq<T>, b: seq<T>)
    requires multiset(a) == multiset(b)
    ensures |a| == |b|
  {
    assert |a| == |multiset(a)| == |multiset(b)| == |b|;
  }

  lemma WordsWeigh(field: string, words: seq<string>, n: RNode, params: Params)
    requires WordsExpressed(field, words, n, params)
    ensures RedisWeight(Leaves(n)) == |words|
  {
    WordsExpressedIff(field, words, n, params);
    SameLength(TextsOf(params, n.leaf.params).value, words);
    OneLeafWeighs(n.leaf);
  }

  lemma IntsWeigh(field: string, ints: seq<real>, n: RNode, params: Params)
    requires IntsExpressed(field, ints, n, params)
    ensures RedisWeight(Leaves(n)) == |ints|
  {
    IntsExpressedIff(field, ints, n, params);
    var nodes := PointNodes(ints, n);
    var got := PointsOf(nodes, field, params).value;
    SameLength(got, ints);
    forall i | 0 <= i < |nodes| ensures nodes[i].Leaf? && nodes[i].leaf.Interval? {
      assert PointOf(nodes[i], field, params).Some?;
    }
    if |ints| == 1 {
      assert nodes[0] == n;
      OneLeafWeighs(n.leaf);
    } else {
      PointsWeigh(n.children);
    }
  }

  lemma LeafWeighs(l: FieldTest, n: RNode, params: Params)
    requires Translatable(l.test) && LeafExpressed(l, n, params)
    ensures RedisWeight(Leaves(n)) == Size(l)
  {
    if l.test.Match? {
      UnmixedSize(l.test.ops);
      if Words(l.test.ops) != [] && Ints(l.test.ops) == [] {
        WordsWeigh(l.field, Words(l.test.ops), n, params);
      } else {
        IntsWeigh(l.field, Ints(l.test.ops), n, params);
      }
    } else {
      OneLeafWeighs(n.leaf);
    }
  }

  /** An accepted tree holds as many values as the predicate. */
  lemma {:induction false} WalkWeighs(p: Predicate, n: RNode, params: Params)
    requires Walk(p, n, params) && forall l | l in Leaves(p) :: Translatable(l.test)
    ensures RedisWeight(Leaves(n)) == Weight(Leaves(p))
    decreases p, 1
  {
    match p
    case Leaf(l) =>
      assert l in Leaves(p) && [l][1..] == [];
      LeafWeighs(l, n, params);
    case And(c) => WalksWeigh(c, n.children, params);
    case Or(c) => WalksWeigh(c, n.children, params);
  }

  lemma {:induction false} WalksWeigh(c: seq<Predicate>, ns: seq<RNode>, params: Params)
    requires |c| == |ns| && forall i | 0 <= i < |c| :: Walk(c[i], ns[i], params)
    requires forall l | l in LeavesOf(c) :: Translatable(l.test)
    ensures RedisWeight(LeavesOf(ns)) == Weight(LeavesOf(c))
    decreases c, 0
  {
    if c != [] {
      WalkWeighs(c[0], ns[0], params);
      WalksWeigh(c[1..], ns[1..], params);
      WeightConcat(Leaves(c[0]), LeavesOf(c[1..]));
      RedisWeightConcat(Leaves(ns[0]), LeavesOf(ns[1..]));
    }
  }

  // ----- The rendered tree -----

  /** A field name without a blank or a delimiter of the filter syntax. */
  predicate SafeField(f: string) { forall c | c in f :: c !in " :|}])" }

  /** What the builder is given: safe fields and tests that translate. */
  ghost predicate Askable(t: Tree<Asked>) {
    NoEmptyGroup(t) && forall a | a in Leaves(t) :: SafeField(a.l.field) && Translatable(a.l.test)
  }

  function BuilderNode(l: FieldTest, k: nat): RNode { LeafNode(l, LeafNames(l, k)) }

  const BUILDER: Renderer := Renderer(BuilderNode, LeafUses)

  lemma NamesArePlain(l: FieldTest, k: nat)
    requires SafeField(l.field)
    ensures forall i | 0 <= i < |LeafNames(l, k)| :: PlainName(LeafNames(l, k)[i])
  {
    var names := LeafNames(l, k);
    forall i | 0 <= i < |names| ensures PlainName(names[i]) {
      match l.test
      case TextMatch(_) => FieldNameIsPlain(l.field, k);
      case Match(_) => FieldNameIsPlain(l.field, k + i);
      case Range(_, _, _, _) =>
        assert names[i] in [BoundName(l.field, k, "gt"), BoundName(l.field, k, "gte"),
                            BoundName(l.field, k, "lt"), BoundName(l.field, k, "lte")];
        BoundNamesArePlain(l.field, k);
    }
  }

  lemma SafeText(s: string)
    requires s != "" && SafeField(s) && (D.IsDigit(s[|s| - 1]) || 'a' <= s[|s| - 1] <= 'z')
    ensures PlainName(s)
  {
    var delimiters := " :|}])";
    assert delimiters[0] == ' ' && delimiters[2] == '|' && delimiters[3] == '}';
    assert delimiters[4] == ']' && delimiters[5] == ')';
    assert ' ' in delimiters && '|' in delimiters && '}' in delimiters && ']' in delimiters && ')' in delimiters;
  }

  lemma FieldNameIsPlain(field: string, k: nat)
    requires SafeField(field)
    ensures PlainName(FieldName(field, k)) && SafeField(FieldName(field, k))
  {
    var digits, name := D.Digits(k), FieldName(field, k);
    assert name[|name| - 1] == digits[|digits| - 1];
    forall c | c in name ensures c !in " :|}])" {
      if c in digits {
        var i :| 0 <= i < |digits| && digits[i] == c;
        assert D.IsDigit(c);
      }
    }
    SafeText(name);
  }

  lemma BoundNamesArePlain(field: string, k: nat)
    requires SafeField(field)
    ensures PlainName(BoundName(field, k, "gt")) && PlainName(BoundName(field, k, "gte"))
    ensures PlainName(BoundName(field, k, "lt")) && PlainName(BoundName(field, k, "lte"))
  {
    FieldNameIsPlain(field, k);
    SafeText(BoundName(field, k, "gt"));
    SafeText(BoundName(field, k, "gte"));
    SafeText(BoundName(field, k, "lt"));
    SafeText(BoundName(field, k, "lte"));
  }

  lemma SafeHasNoColon(f: string)
    requires SafeField(f)
    ensures ':' !in f
  {
    var delimiters := " :|}])";
    assert delimiters[1] == ':';
  }

  lemma BuilderNodeIsLoose(l: FieldTest, k: nat)
    requires SafeField(l.field) && Translatable(l.test)
    ensures Loose(BuilderNode(l, k))
  {
    SafeHasNoColon(l.field);
    NamesMatchValues(l, k);
    NamesArePlain(l, k);
    LeafNodeIsLoose(l, LeafNames(l, k));
  }

  /** A listed integer match is parenthesised also when it has a single value. */
  function AskedNode(a: Asked, k: nat): RNode {
    var l := SeenLeaf(a);
    if a.listed && l.test.Match? && |l.test.ops| == 1 && l.test.ops[0].Number? then Or([BuilderNode(l, k)])
    else BuilderNode(l, k)
  }

  function Built(t: Tree<Asked>, k: nat): RNode
    decreases t, 1
  {
    match t
    case And(c) => And(BuiltAll(c, k))
    case Or(c) => Or(BuiltAll(c, k))
    case Leaf(a) => AskedNode(a, k)
  }

  function BuiltAll(c: seq<Tree<Asked>>, k: nat): (ns: seq<RNode>)
    ensures |ns| == |c|
    decreases c, 0
  {
    if c == [] then [] else [Built(c[0], k)] + BuiltAll(c[1..], k + Used(Leaves(Seen(c[0])), LeafUses))
  }

  ghost predicate NoNever(t: Tree<Asked>) { forall a | a in Leaves(t) :: !Never(a) }

  lemma ChildrenAskable(t: Tree<Asked>)
    requires !t.Leaf? && Askable(t)
    ensures t.children != [] && forall i | 0 <= i < |t.children| :: Askable(t.children[i])
    ensures NoNever(t) <==> forall i | 0 <= i < |t.children| :: NoNever(t.children[i])
  {
    var c := t.children;
    forall i, a | 0 <= i < |c| && a in Leaves(c[i]) ensures a in Leaves(t) { LeafOfChild(c, a); }
    forall i | 0 <= i < |c| ensures Askable(c[i]) {
      forall a: Asked | a in Leaves(c[i]) ensures SafeField(a.l.field) && Translatable(a.l.test) {
        assert a in Leaves(t);
      }
    }
    if forall i | 0 <= i < |c| :: NoNever(c[i]) {
      forall a | a in Leaves(t) ensures !Never(a) {
        LeafOfChild(c, a);
        var i :| 0 <= i < |c| && a in Leaves(c[i]);
        assert NoNever(c[i]);
      }
    }
  }

  lemma {:induction false} BuiltIsLoose(t: Tree<Asked>, k: nat)
    requires Askable(t) && NoNever(t)
    ensures Loose(Built(t, k))
    decreases t, 1
  {
    match t
    case Leaf(a) =>
      assert a in Leaves(t);
      SeenIff(a);
      BuilderNodeIsLoose(SeenLeaf(a), k);
    case And(c) =>
      ChildrenAskable(t);
      BuiltAllIsLoose(c, k);
    case Or(c) =>
      ChildrenAskable(t);
      BuiltAllIsLoose(c, k);
  }

  lemma {:induction false} BuiltAllIsLoose(c: seq<Tree<Asked>>, k: nat)
    requires forall i | 0 <= i < |c| :: Askable(c[i]) && NoNever(c[i])
    ensures forall i | 0 <= i < |c| :: Loose(BuiltAll(c, k)[i])
    decreases c, 0
  {
    if c != [] {
      BuiltIsLoose(c[0], k);
      BuiltAllIsLoose(c[1..], k + Used(Leaves(Seen(c[0])), LeafUses));
    }
  }

  /** Two trees that differ in one-child groups only. */
  ghost predicate Alike(a: RNode, b: RNode) { Collapse(a) == Collapse(b) }

  ghost predicate AllAlike(a: seq<RNode>, b: seq<RNode>) {
    |a| == |b| && forall i | 0 <= i < |a| :: Alike(a[i], b[i])
  }

  lemma GroupsAlike(a: seq<RNode>, b: seq<RNode>)
    requires AllAlike(a, b)
    ensures Alike(And(a), And(b)) && Alike(Or(a), Or(b))
  {
    assert CollapseAll(a) == CollapseAll(b);
    if |a| == 1 { assert Alike(a[0], b[0]); }
  }

  /** The tree is the rendering of what the builder kept, but for one-child groups. */
  lemma {:induction false} BuiltIsRendering(t: Tree<Asked>, k: nat)
    ensures Alike(Built(t, k), Render(Seen(t), k, BUILDER))
    decreases t, 1
  {
    match t
    case Leaf(a) =>
    case And(c) =>
      BuiltAllIsRendering(c, k);
      GroupsAlike(BuiltAll(c, k), RenderAll(MapAll(c, SeenLeaf), k, BUILDER));
    case Or(c) =>
      BuiltAllIsRendering(c, k);
      GroupsAlike(BuiltAll(c, k), RenderAll(MapAll(c, SeenLeaf), k, BUILDER));
  }

  lemma {:induction false} BuiltAllIsRendering(c: seq<Tree<Asked>>, k: nat)
    ensures AllAlike(BuiltAll(c, k), RenderAll(MapAll(c, SeenLeaf), k, BUILDER))
    decreases c, 0
  {
    if c != [] {
      var next := k + Used(Leaves(Seen(c[0])), LeafUses);
      BuiltIsRendering(c[0], k);
      BuiltAllIsRendering(c[1..], next);
      assert MapAll(c, SeenLeaf)[1..] == MapAll(c[1..], SeenLeaf);
      AlikeCons(Built(c[0], k), BuiltAll(c[1..], next), Render(Seen(c[0]), k, BUILDER),
                RenderAll(MapAll(c[1..], SeenLeaf), next, BUILDER));
    }
  }

  lemma AlikeCons(x: RNode, a: seq<RNode>, y: RNode, b: seq<RNode>)
    requires Alike(x, y) && AllAlike(a, b)
    ensures AllAlike([x] + a, [y] + b)
  {
  }

  // ----- The rendered text -----

  /** A clause that matches nothing: the value and not the value. */
  function NeverText(field: string, name: string, rest: string): string {
    "(" + PrintLeaf(field, '{', "$" + name, " " + ("-" + PrintLeaf(field, '{', "$" + name, ")" + rest)))
  }

  ghost function LeafText(a: Asked, k: nat, rest: string): string
    requires SafeField(a.l.field) && Translatable(a.l.test)
  {
    if Never(a) then NeverText(a.l.field, FieldName(a.l.field, k), rest)
    else
      assert Loose(AskedNode(a, k)) by {
        SeenIff(a);
        BuilderNodeIsLoose(SeenLeaf(a), k);
      }
      PrintOnto(AskedNode(a, k), rest)
  }

  /** The text of `t`, its counter starting at `k`, followed by `rest`. */
  ghost function BuildOnto(t: Tree<Asked>, k: nat, rest: string): string
    requires Askable(t)
    decreases t, 1
  {
    match t
    case And(c) => ChildrenAskable(t); "(" + BuildAll(c, k, true, ")" + rest)
    case Or(c) => ChildrenAskable(t); "(" + BuildAll(c, k, false, ")" + rest)
    case Leaf(a) => assert a in Leaves(t); LeafText(a, k, rest)
  }

  ghost function BuildAll(c: seq<Tree<Asked>>, k: nat, inAnd: bool, rest: string): string
    requires c != [] && forall i | 0 <= i < |c| :: Askable(c[i])
    decreases c, 0
  {
    if |c| == 1 then BuildOnto(c[0], k, rest)
    else
      var tail := BuildAll(c[1..], k + Used(Leaves(Seen(c[0])), LeafUses), inAnd, rest);
      BuildOnto(c[0], k, " " + (if inAnd then tail else "|" + (" " + tail)))
  }

  /** `parse_conditions`: the text and the parameters sent to the server. */
  ghost function BuilderText(t: Tree<Asked>): string
    requires Askable(t)
  {
    BuildOnto(t, 0, "")
  }

  /** Without the placeholder of a clause that matches nothing, which no accepted text can hold. */
  ghost function BuilderParams(t: Tree<Asked>): Params { AllParams(Leaves(Seen(t)), 0, BuilderNaming()) }

  lemma {:induction false} TextIsPrinted(t: Tree<Asked>, k: nat, rest: string)
    requires Askable(t) && NoNever(t)
    ensures Loose(Built(t, k)) && BuildOnto(t, k, rest) == PrintOnto(Built(t, k), rest)
    decreases t, 1
  {
    BuiltIsLoose(t, k);
    match t
    case Leaf(a) => assert a in Leaves(t);
    case And(c) =>
      ChildrenAskable(t);
      TextsArePrinted(c, k, true, ")" + rest);
    case Or(c) =>
      ChildrenAskable(t);
      TextsArePrinted(c, k, false, ")" + rest);
  }

  lemma {:induction false} TextsArePrinted(c: seq<Tree<Asked>>, k: nat, inAnd: bool, rest: string)
    requires c != [] && forall i | 0 <= i < |c| :: Askable(c[i]) && NoNever(c[i])
    ensures AllLoose(BuiltAll(c, k)) && BuildAll(c, k, inAnd, rest) == PrintAll(BuiltAll(c, k), inAnd, rest)
    decreases c, 0
  {
    BuiltAllIsLoose(c, k);
    var next := k + Used(Leaves(Seen(c[0])), LeafUses);
    if |c| == 1 {
      TextIsPrinted(c[0], k, rest);
    } else {
      TextsArePrinted(c[1..], next, inAnd, rest);
      var tail := BuildAll(c[1..], next, inAnd, rest);
      TextIsPrinted(c[0], k, " " + (if inAnd then tail else "|" + (" " + tail)));
      assert BuiltAll(c, k)[1..] == BuiltAll(c[1..], next);
    }
  }

  /** A text with nothing dropped to nothing parses to the rendering of what the builder kept. */
  lemma TextParses(t: Tree<Asked>)
    requires Askable(t) && NoNever(t)
    ensures Parse(BuilderText(t)) == Ok(Collapse(Render(Seen(t), 0, BUILDER)))
  {
    TextIsPrinted(t, 0, "");
    LoosePrintParses(Built(t, 0));
    BuiltIsRendering(t, 0);
  }

  // ----- A clause that matches nothing cannot be parsed -----

  lemma TagClauseReads(field: string, name: string, rest: string)
    requires ':' !in field && TagParam(name)
    ensures ReadUnit(PrintLeaf(field, '{', "$" + name, rest)) == Done(Leaf(Tags(field, [name])), rest)
  {
    var l := Tags(field, [name]);
    LeafReads(l);
    LeafUnitReads(field, '{', LeafBody(l), l, rest);
    assert PrintParams("", [name]) == "$" + name;
  }

  lemma MinusFails(t: string, units: seq<RNode>)
    requires AllPrintable(units)
    ensures ReadSequence(" " + ("-" + t), units).Fail?
  {
    var u := "-" + t;
    assert (" " + u)[1..] == u;
    assert DropBlanks(" " + u) == DropBlanks(u) == u;
  }

  lemma NeverFails(field: string, name: string, rest: string)
    requires ':' !in field && TagParam(name)
    ensures StartsUnit(NeverText(field, name, rest)) && ReadUnit(NeverText(field, name, rest)).Fail?
  {
    var leaf := Leaf(Tags(field, [name]));
    var minus := PrintLeaf(field, '{', "$" + name, ")" + rest);
    var inner := PrintLeaf(field, '{', "$" + name, " " + ("-" + minus));
    TagClauseReads(field, name, " " + ("-" + minus));
    SequenceStep(inner, leaf, " " + ("-" + minus), []);
    assert [] + [leaf] == [leaf];
    MinusFails(minus, [leaf]);
    assert ("(" + inner)[1..] == inner;
  }

  /** A subtree without such a clause reads as one unit. */
  lemma TextReads(t: Tree<Asked>, k: nat, rest: string) returns (m: RNode)
    requires Askable(t) && NoNever(t)
    ensures StartsUnit(BuildOnto(t, k, rest)) && Printable(m) && ReadUnit(BuildOnto(t, k, rest)) == Done(m, rest)
  {
    TextIsPrinted(t, k, rest);
    m := Collapse(Built(t, k));
    UnitReads(Built(t, k));
    assert Reads(Built(t, k), m);
  }

  lemma UnitFails(t: string, units: seq<RNode>)
    requires StartsUnit(t) && AllPrintable(units) && ReadUnit(t).Fail?
    ensures ReadSequence(t, units).Fail?
  {
    assert DropBlanks(t) == t;
  }

  lemma {:induction false} TextFails(t: Tree<Asked>, k: nat, rest: string)
    requires Askable(t) && !NoNever(t)
    ensures StartsUnit(BuildOnto(t, k, rest)) && ReadUnit(BuildOnto(t, k, rest)).Fail?
    decreases t, 1
  {
    match t
    case Leaf(a) =>
      assert a in Leaves(t);
      SafeHasNoColon(a.l.field);
      FieldNameIsPlain(a.l.field, k);
      NeverFails(a.l.field, FieldName(a.l.field, k), rest);
    case And(c) =>
      ChildrenAskable(t);
      SequenceFails(c, k, [], ")" + rest);
      GroupFails(BuildAll(c, k, true, ")" + rest));
    case Or(c) =>
      ChildrenAskable(t);
      AlternativesFail(c, k, [], ")" + rest);
      AfterNothing(BuildAll(c, k, false, ")" + rest));
      GroupFails(BuildAll(c, k, false, ")" + rest));
  }

  lemma GroupFails(inner: string)
    requires ReadAlternatives(inner).Fail?
    ensures ReadUnit("(" + inner).Fail?
  {
    assert ("(" + inner)[1..] == inner;
  }

  ghost predicate SomeNever(c: seq<Tree<Asked>>) { exists i | 0 <= i < |c| :: !NoNever(c[i]) }

  lemma NeverInTail(c: seq<Tree<Asked>>)
    requires SomeNever(c) && NoNever(c[0])
    ensures |c| > 1 && SomeNever(c[1..])
  {
    var i :| 0 <= i < |c| && !NoNever(c[i]);
    assert i > 0 && c[1..][i - 1] == c[i];
  }

  lemma {:induction false} SequenceFails(c: seq<Tree<Asked>>, k: nat, units: seq<RNode>, stop: string)
    requires c != [] && (forall i | 0 <= i < |c| :: Askable(c[i])) && SomeNever(c) && AllPrintable(units)
    ensures ReadSequence(BuildAll(c, k, true, stop), units).Fail?
    decreases c, 0
  {
    var next := k + Used(Leaves(Seen(c[0])), LeafUses);
    var tail := if |c| == 1 then "" else BuildAll(c[1..], next, true, stop);
    if NoNever(c[0]) {
      NeverInTail(c);
      var m := TextReads(c[0], k, " " + tail);
      assert AllPrintable(units + [m]) by { AppendPrintable(units, m); }
      assert ReadSequence(BuildOnto(c[0], k, " " + tail), units) == ReadSequence(tail, units + [m]) by {
        NextUnitReads(BuildOnto(c[0], k, " " + tail), m, units, tail);
      }
      SequenceFails(c[1..], next, units + [m], stop);
    } else {
      var rest := if |c| == 1 then stop else " " + tail;
      TextFails(c[0], k, rest);
      UnitFails(BuildOnto(c[0], k, rest), units);
    }
  }

  lemma {:induction false} AlternativesFail(c: seq<Tree<Asked>>, k: nat, alts: seq<RNode>, stop: string)
    requires c != [] && (forall i | 0 <= i < |c| :: Askable(c[i])) && SomeNever(c) && AllPrintable(alts)
    ensures ReadAfter(BuildAll(c, k, false, stop), alts).Fail?
    decreases c, 0
  {
    var next := k + Used(Leaves(Seen(c[0])), LeafUses);
    var tail := if |c| == 1 then "" else BuildAll(c[1..], next, false, stop);
    var bar := "|" + (" " + tail);
    if NoNever(c[0]) {
      NeverInTail(c);
      var m := TextReads(c[0], k, " " + bar);
      UnitThenBar(BuildOnto(c[0], k, " " + bar), m, bar);
      AlternativesFail(c[1..], next, alts + [m], stop);
      AlternativesStep(BuildOnto(c[0], k, " " + bar), m, tail, alts);
    } else {
      var rest := if |c| == 1 then stop else " " + bar;
      TextFails(c[0], k, rest);
      UnitFails(BuildOnto(c[0], k, rest), []);
    }
  }

  /** A unit and the blank behind it are a whole sequence before a bar. */
  lemma UnitThenBar(t: string, m: RNode, bar: string)
    requires StartsUnit(t) && Printable(m) && EndsClause(bar) && ReadUnit(t) == Done(m, " " + bar)
    ensures ReadSequence(t, []) == Done(m, bar)
  {
    SequenceStep(t, m, " " + bar, []);
    assert [] + [m] == [m];
    SequenceStop(" ", bar, [m]);
  }

  lemma FailingTextIsUnreadable(t: Tree<Asked>)
    requires Askable(t) && !NoNever(t)
    ensures Parse(BuilderText(t)).Err?
  {
    TextFails(t, 0, "");
    UnitFails(BuilderText(t), []);
  }

  // ----- When the builder's own text is accepted -----

  lemma {:induction false} MapLeaves<A, B>(t: Tree<A>, f: A -> B)
    ensures |Leaves(MapTree(t, f))| == |Leaves(t)|
    ensures forall i | 0 <= i < |Leaves(t)| :: Leaves(MapTree(t, f))[i] == f(Leaves(t)[i])
    decreases t, 1
  {
    match t
    case Leaf(_) =>
    case And(c) => MapLeavesOf(c, f);
    case Or(c) => MapLeavesOf(c, f);
  }

  lemma {:induction false} MapLeavesOf<A, B>(c: seq<Tree<A>>, f: A -> B)
    ensures |LeavesOf(MapAll(c, f))| == |LeavesOf(c)|
    ensures forall i | 0 <= i < |LeavesOf(c)| :: LeavesOf(MapAll(c, f))[i] == f(LeavesOf(c)[i])
    decreases c, 0
  {
    if c != [] {
      MapLeaves(c[0], f);
      MapLeavesOf(c[1..], f);
      assert MapAll(c, f)[1..] == MapAll(c[1..], f);
    }
  }

  lemma {:induction false} SameMap<A, B>(t: Tree<A>, f: A -> B, g: A -> B)
    requires forall a | a in Leaves(t) :: f(a) == g(a)
    ensures MapTree(t, f) == MapTree(t, g)
  {
    match t
    case Leaf(a) => assert a in Leaves(t);
    case And(c) => SameMaps(c, f, g);
    case Or(c) => SameMaps(c, f, g);
  }

  lemma {:induction false} SameMaps<A, B>(c: seq<Tree<A>>, f: A -> B, g: A -> B)
    requires forall a | a in LeavesOf(c) :: f(a) == g(a)
    ensures MapAll(c, f) == MapAll(c, g)
  {
    forall i | 0 <= i < |c| ensures MapTree(c[i], f) == MapTree(c[i], g) {
      forall a | a in Leaves(c[i]) ensures f(a) == g(a) { LeafOfChild(c, a); }
      SameMap(c[i], f, g);
    }
  }

  /** Every list is taken as it is. */
  ghost predicate AllWhole(t: Tree<Asked>) { forall a | a in Leaves(t) :: Whole(a) }

  lemma WholeIsSeen(t: Tree<Asked>)
    requires Askable(t) && AllWhole(t)
    ensures Seen(t) == Forget(t) && NoNever(t)
  {
    forall a | a in Leaves(t) ensures SeenLeaf(a) == Plain(a) && !Never(a) { SeenIff(a); }
    SameMap(t, SeenLeaf, Plain);
  }

  lemma {:induction false} SeenWeighsLess(ls: seq<Asked>, seen: seq<FieldTest>, plain: seq<FieldTest>)
    requires |ls| == |seen| == |plain| && forall i | 0 <= i < |ls| :: Translatable(ls[i].l.test)
    requires forall i | 0 <= i < |ls| :: seen[i] == SeenLeaf(ls[i]) && plain[i] == ls[i].l
    ensures Weight(seen) <= Weight(plain)
    ensures (exists i | 0 <= i < |ls| :: !Whole(ls[i])) ==> Weight(seen) < Weight(plain)
  {
    if ls != [] {
      SeenIff(ls[0]);
      SeenWeighsLess(ls[1..], seen[1..], plain[1..]);
      assert forall i | 0 < i < |ls| :: ls[i] == ls[1..][i - 1];
    }
  }

  lemma DroppedWeighsLess(t: Tree<Asked>)
    requires Askable(t) && !AllWhole(t)
    ensures Weight(Leaves(Seen(t))) < Weight(Leaves(Forget(t)))
  {
    var ls := Leaves(t);
    MapLeaves(t, SeenLeaf);
    MapLeaves(t, Plain);
    forall i | 0 <= i < |ls| ensures Translatable(ls[i].l.test) { assert ls[i] in ls; }
    var a :| a in ls && !Whole(a);
    assert ls[IndexOf(ls, a)] == a;
    SeenWeighsLess(ls, Leaves(Seen(t)), Leaves(Forget(t)));
  }

  lemma SeenTranslates(t: Tree<Asked>)
    requires Askable(t) && NoNever(t)
    ensures forall l | l in Leaves(Seen(t)) :: Translatable(l.test)
  {
    MapLeaves(t, SeenLeaf);
    forall l | l in Leaves(Seen(t)) ensures Translatable(l.test) {
      var i := IndexOf(Leaves(Seen(t)), l);
      assert Leaves(t)[i] in Leaves(t);
      SeenIff(Leaves(t)[i]);
    }
  }

  lemma BuilderIsFlat(l: FieldTest)
    ensures FlatLeaf(BUILDER, l)
  {
    forall k ensures var n := BUILDER.node(l, k); Flatten(n) == n && !n.And? && (n.Or? ==> Splits(l)) {
      LeafNodeIsFlat(l, LeafNames(l, k));
    }
  }

  lemma BuilderLeaf(l: FieldTest, i: nat, params: Params)
    requires Translatable(l.test) && NamesBind(params, LeafNames(l, i), Values(l))
    ensures Expressed(BUILDER, params)(l, i)
  {
    LeafWalks(l, LeafNames(l, i), params);
    assert LeafOk(params)(l, BUILDER.node(l, i));
  }

  /** The parameters express every leaf the builder rendered. */
  lemma BuilderInTurn(t: Tree<Asked>)
    requires Askable(t) && NoNever(t)
    ensures InTurn(Leaves(Seen(t)), 0, BUILDER.uses, Expressed(BUILDER, BuilderParams(t)))
  {
    var ls, nm, params := Leaves(Seen(t)), BuilderNaming(), BuilderParams(t);
    SeenTranslates(t);
    BuilderCounters();
    forall l | l in ls ensures WellNamed(nm, l) { BuilderIsWellNamed(l); }
    EachWellNamed(ls, nm);
    ParamsInTurn(ls, 0, nm);
    forall l, i | l in ls && NamesBind(params, nm.names(l, i), nm.vals(l)) ensures Expressed(BUILDER, params)(l, i) {
      BuilderLeaf(l, i, params);
    }
    BoundMeans(ls, 0, nm, params, Expressed(BUILDER, params));
  }

  /** Unless a list was emptied, the text selects exactly the rows of what the builder kept. */
  lemma BuilderIsFaithful(t: Tree<Asked>)
    requires Askable(t) && NoNever(t)
    ensures Faithful(Seen(t), BuilderText(t), BuilderParams(t))
    ensures Acceptable(Flatten(Seen(t)), false) ==> CheckRedisFilter(Seen(t), BuilderText(t), BuilderParams(t)).Ok?
  {
    TextParses(t);
    SeenTranslates(t);
    BuilderInTurn(t);
    forall l ensures FlatLeaf(BUILDER, l) { BuilderIsFlat(l); }
    RenderingIsFaithful(Seen(t), BUILDER, BuilderParams(t), BuilderText(t));
  }

  lemma CollapseKeepsLeaves(n: RNode)
    ensures Leaves(Collapse(n)) == Leaves(n)
  {
    FlattenCollapse(n);
    FlattenKeepsLeaves(n);
    FlattenKeepsLeaves(Collapse(n));
  }

  lemma ForgetTranslates(t: Tree<Asked>)
    requires Askable(t)
    ensures forall l | l in Leaves(Forget(t)) :: Translatable(l.test)
  {
    MapLeaves(t, Plain);
    forall l | l in Leaves(Forget(t)) ensures Translatable(l.test) {
      var i := IndexOf(Leaves(Forget(t)), l);
      assert Leaves(t)[i] in Leaves(t);
    }
  }

  /** A text with dropped values holds too few of them. */
  lemma DroppedIsRefused(t: Tree<Asked>)
    requires Askable(t) && NoNever(t) && !AllWhole(t)
    ensures CheckRedisFilter(Forget(t), BuilderText(t), BuilderParams(t)).Err?
  {
    var p, params, n := Forget(t), BuilderParams(t), Render(Seen(t), 0, BUILDER);
    TextParses(t);
    BuilderInTurn(t);
    RenderWalks(Seen(t), 0, BUILDER, params);
    SeenTranslates(t);
    WalkWeighs(Seen(t), n, params);
    CollapseKeepsLeaves(n);
    FlattenKeepsLeaves(Collapse(n));
    FlattenKeepsLeaves(p);
    DroppedWeighsLess(t);
    ForgetTranslates(t);
    if CheckRedisFilter(p, BuilderText(t), params).Ok? {
      WalkWeighs(Flatten(p), Flatten(Collapse(n)), params);
      assert false;
    }
  }

  /**
    For every tree the builder is asked to render: the validator accepts its text and parameters if
    and only if no integer list is spliced into an `or` and no listed keyword is empty; and then, or
    whenever no keyword is empty, the text selects exactly the rows asked for.
   */
  lemma BuilderAcceptedIff(t: Tree<Asked>)
    requires Askable(t)
    ensures CheckRedisFilter(Forget(t), BuilderText(t), BuilderParams(t)).Ok? <==>
            Acceptable(Flatten(Forget(t)), false) && AllWhole(t)
    ensures AllWhole(t) ==> Faithful(Forget(t), BuilderText(t), BuilderParams(t))
  {
    var p, expr, params := Forget(t), BuilderText(t), BuilderParams(t);
    if CheckRedisFilter(p, expr, params).Ok? { AcceptedIsAcceptable(p, expr, params); }
    if AllWhole(t) {
      WholeIsSeen(t);
      BuilderIsFaithful(t);
    } else if NoNever(t) {
      DroppedIsRefused(t);
    } else {
      FailingTextIsUnreadable(t);
    }
  }

  // ----- From the JSON conditions on -----

  ghost predicate SafeFields(p: Predicate) { forall l | l in Leaves(p) :: SafeField(l.field) }

  lemma {:induction false} ForgetKeepsGroups(t: Tree<Asked>)
    ensures NoEmptyGroup(Forget(t)) <==> NoEmptyGroup(t)
  {
    if !t.Leaf? {
      var c := t.children;
      forall i | 0 <= i < |c| ensures NoEmptyGroup(MapTree(c[i], Plain)) <==> NoEmptyGroup(c[i]) {
        ForgetKeepsGroups(c[i]);
      }
    }
  }

  lemma CompiledIsAskable(v: Json, schema: Option<Json>)
    requires Compile(v).Ok? && ValidateAgainstSchema(Compile(v).value, schema).Ok? && SafeFields(Compile(v).value)
    ensures Askable(AskNode(v)) && Forget(AskNode(v)) == Compile(v).value
  {
    var t, p := AskNode(v), Compile(v).value;
    AskedIsCompiled(v);
    CompiledIsWellFormed(v);
    SchemaMakesTranslatable(p, schema);
    ForgetKeepsGroups(t);
    MapLeaves(t, Plain);
    forall a | a in Leaves(t) ensures SafeField(a.l.field) && Translatable(a.l.test) {
      var i := IndexOf(Leaves(t), a);
      assert Leaves(p)[i] == a.l && Leaves(p)[i] in Leaves(p);
    }
  }

  /** The same for every `conditions` value that compiles and fits its schema over safe fields. */
  lemma ConditionsAcceptedIff(v: Json, schema: Option<Json>)
    requires Compile(v).Ok? && ValidateAgainstSchema(Compile(v).value, schema).Ok? && SafeFields(Compile(v).value)
    ensures Askable(AskNode(v))
    ensures var t, p := AskNode(v), Compile(v).value;
            && (CheckRedisFilter(p, BuilderText(t), BuilderParams(t)).Ok? <==>
                  Acceptable(Flatten(p), false) && AllWhole(t))
            && (AllWhole(t) ==> Faithful(p, BuilderText(t), BuilderParams(t)))
  {
    CompiledIsAskable(v, schema);
    BuilderAcceptedIff(AskNode(v));
  }

  /** The term of a full-text match is sent trimmed, which changes nothing. */
  lemma TermIsTrimmed(term: string)
    requires ValidTerm(term)
    ensures Trim(term) == term
  {
    assert !IsWhitespace(term[0]) && !IsWhitespace(term[|term| - 1]);
    assert TrimStart(term) == term && TrimEnd(term) == term;
  }
}
