/**
  A refusal of the validator at an input the code receives: the integer list of an `or` is spliced
  into it, so the text of the engine's own builder, which selects exactly the rows, is refused, and
  so is every other text.
 */
module RedisFilterRefusal {
  import opened Outcomes
  import opened Json
  import opened FilterTree
  import opened Predicates
  import opened RedisFilterSyntax
  import opened RedisFilterCheck
  import opened RedisFilterComplete
  import opened RedisFilterBuilder
  import opened RedisFilterRoundTrip
  import opened RedisParamNames
  import C = Conditions
  import D = Decimals

  /** `{"or":[{"f":{"match":{"any":[1,2]}}},{"g":{"match":{"value":3}}}]}` */
  function ListOrValue(): Json {
    One("or", Arr([One("f", One("match", One("any", Arr([Int(1), Int(2)])))),
                   One("g", One("match", One("value", Int(3))))]))
  }

  /** Both fields are integers. */
  function IntFields(): Json { Obj(map["f" := Str("int"), "g" := Str("int")]) }

  function One(key: string, v: Json): Json { Obj(map[key := v]) }

  function FirstLeaf(): FieldTest { FieldTest("f", Match([Number(1), Number(2)])) }
  function SecondLeaf(): FieldTest { FieldTest("g", Match([Number(3)])) }
  function ListOrValuePredicate(): Predicate { Or([Leaf(FirstLeaf()), Leaf(SecondLeaf())]) }

  lemma OnlyKeyOf(key: string, v: Json)
    ensures OnlyKey(map[key := v]) == key
  {
    assert key in map[key := v].Keys;
  }

  lemma FirstCompiles()
    ensures CompileNode(One("f", One("match", One("any", Arr([Int(1), Int(2)]))))) == Ok(Leaf(FirstLeaf()))
  {
    var items := [Int(1), Int(2)];
    OnlyKeyOf("f", One("match", One("any", Arr(items))));
    OnlyKeyOf("match", One("any", Arr(items)));
    assert |"any"| == 3 && |"text"| == 4 && |"value"| == 5;
    C.OperandsRead(items, [Number(1), Number(2)]);
    assert |"f"| == 1 && |"and"| == 3 && |"or"| == 2;
  }

  lemma SecondCompiles()
    ensures CompileNode(One("g", One("match", One("value", Int(3))))) == Ok(Leaf(SecondLeaf()))
  {
    OnlyKeyOf("g", One("match", One("value", Int(3))));
    OnlyKeyOf("match", One("value", Int(3)));
    assert |"text"| == 4 && |"value"| == 5;
    assert |"g"| == 1 && |"and"| == 3 && |"or"| == 2;
  }

  lemma Compiles()
    ensures Compile(ListOrValue()) == Ok(ListOrValuePredicate())
  {
    var first := One("f", One("match", One("any", Arr([Int(1), Int(2)]))));
    var second := One("g", One("match", One("value", Int(3))));
    FirstCompiles();
    SecondCompiles();
    OnlyKeyOf("or", Arr([first, second]));
    C.NodesRead([first, second], [Leaf(FirstLeaf()), Leaf(SecondLeaf())]);
  }

  lemma LeavesAre()
    ensures Leaves(ListOrValuePredicate()) == [FirstLeaf(), SecondLeaf()]
  {
    var c: seq<Predicate> := [Leaf(FirstLeaf()), Leaf(SecondLeaf())];
    assert c[1..] == [Leaf(SecondLeaf())] && c[1..][1..] == [];
    assert LeavesOf(c[1..]) == [SecondLeaf()] + [];
  }

  lemma FitsSchema()
    ensures ValidateAgainstSchema(ListOrValuePredicate(), Some(IntFields())).Ok?
  {
    LeavesAre();
    assert "f" != "g" by { assert "f"[0] == 'f' && "g"[0] == 'g'; }
    assert LeafFits(FirstLeaf(), IntFields().fields) && LeafFits(SecondLeaf(), IntFields().fields);
  }

  lemma FieldsAreSafe()
    ensures SafeFields(ListOrValuePredicate())
  {
    LeavesAre();
  }

  lemma IsSpliced()
    ensures !Acceptable(Flatten(ListOrValuePredicate()), false)
  {
    var c: seq<Predicate> := [Leaf(FirstLeaf()), Leaf(SecondLeaf())];
    var flat := FlattenAll(c, false);
    assert flat[0] == Leaf(FirstLeaf());
    IntsOfList();
  }

  lemma AskedTree()
    ensures CompileNode(ListOrValue()).Ok?
    ensures AskNode(ListOrValue()) == Or([Leaf(Asked(FirstLeaf(), true)), Leaf(Asked(SecondLeaf(), false))])
  {
    Compiles();
    FirstCompiles();
    SecondCompiles();
    var first := One("f", One("match", One("any", Arr([Int(1), Int(2)]))));
    var second := One("g", One("match", One("value", Int(3))));
    OnlyKeyOf("or", Arr([first, second]));
    OnlyKeyOf("f", One("match", One("any", Arr([Int(1), Int(2)]))));
    OnlyKeyOf("g", One("match", One("value", Int(3))));
    assert |"any"| == 3 && |"value"| == 5 && |"f"| == 1 && |"g"| == 1 && |"and"| == 3 && |"or"| == 2;
    assert [first, second][1..] == [second] && [second][1..] == [];
    assert AskNodes([second]) == [AskNode(second)];
  }

  lemma ListsAreWhole()
    ensures CompileNode(ListOrValue()).Ok? && AllWhole(AskNode(ListOrValue()))
  {
    AskedTree();
    var c: seq<Tree<Asked>> := [Leaf(Asked(FirstLeaf(), true)), Leaf(Asked(SecondLeaf(), false))];
    assert c[1..] == [Leaf(Asked(SecondLeaf(), false))] && c[1..][1..] == [];
    assert Leaves(Or(c)) == [Asked(FirstLeaf(), true), Asked(SecondLeaf(), false)];
  }

  // ----- The text the builder sends for them -----

  lemma SmallNames()
    ensures FieldName("f", 0) == "f_0" && FieldName("f", 1) == "f_1" && FieldName("g", 2) == "g_2"
  {
    assert D.Wide(0, 0) == "";
    assert D.Digits(0) == "0" && D.Digits(1) == "1" && D.Digits(2) == "2";
  }

  lemma PointText(field: string, name: string, rest: string)
    requires Loose(Point(field, name))
    ensures PrintOnto(Point(field, name), rest) == "@" + field + ":[$" + name + " $" + name + "]" + rest
  {
    var body := ("$" + name) + ([' '] + ("$" + name));
    assert LeafBody(Point(field, name).leaf) == body;
    assert PrintOnto(Point(field, name), rest) == "@" + (field + ([':'] + (['['] + (body + ([']'] + rest)))));
  }

  /** Two alternatives in parentheses. */
  lemma PairText(a: RNode, b: RNode, rest: string)
    requires Loose(a) && Loose(b)
    ensures Loose(Or([a, b]))
    ensures PrintOnto(Or([a, b]), rest) == "(" + PrintOnto(a, " | " + PrintOnto(b, ")" + rest))
  {
    var c := [a, b];
    assert c[1..] == [b];
    assert PrintAll(c[1..], false, ")" + rest) == PrintOnto(b, ")" + rest);
    assert " " + ("|" + (" " + PrintOnto(b, ")" + rest))) == " | " + PrintOnto(b, ")" + rest);
  }

  lemma LooseNames()
    ensures Loose(Point("f", "f_0")) && Loose(Point("f", "f_1")) && Loose(Point("g", "g_2"))
  {
    FieldNameIsPlain("f", 0);
    FieldNameIsPlain("f", 1);
    FieldNameIsPlain("g", 2);
    SmallNames();
  }

  lemma BuiltTree()
    ensures var t: Tree<Asked> := Or([Leaf(Asked(FirstLeaf(), true)), Leaf(Asked(SecondLeaf(), false))]);
            Built(t, 0) == Or([Or([Point("f", "f_0"), Point("f", "f_1")]), Point("g", "g_2")])
  {
    var first, second := Asked(FirstLeaf(), true), Asked(SecondLeaf(), false);
    var c: seq<Tree<Asked>> := [Leaf(first), Leaf(second)];
    assert c[1..] == [Leaf(second)] && c[1..][1..] == [];
    SmallNames();
    FirstNode();
    SecondNode();
    assert [FirstLeaf()][1..] == [];
    assert Leaves(Seen(c[0])) == [FirstLeaf()] && Used([FirstLeaf()], LeafUses) == 2;
    assert BuiltAll(c[1..], 2) == [Built(c[1], 2)];
  }

  lemma FirstNode()
    ensures SeenLeaf(Asked(FirstLeaf(), true)) == FirstLeaf()
    ensures AskedNode(Asked(FirstLeaf(), true), 0) == Or([Point("f", "f_0"), Point("f", "f_1")])
  {
    SmallNames();
    IntsOfList();
    var ops := [Number(1), Number(2)];
    assert Words(ops) == [] by { assert ops[1..] == [Number(2)] && ops[1..][1..] == []; }
    assert Points("f", FieldNames("f", 0, 2), 2) == [Point("f", "f_0"), Point("f", "f_1")];
  }

  lemma SecondNode()
    ensures SeenLeaf(Asked(SecondLeaf(), false)) == SecondLeaf()
    ensures AskedNode(Asked(SecondLeaf(), false), 2) == Point("g", "g_2")
  {
    SmallNames();
    assert [Number(3)][1..] == [];
    assert Ints([Number(3)]) == [3.0] && Words([Number(3)]) == [];
  }

  lemma IntsOfList()
    ensures Ints([Number(1), Number(2)]) == [1.0, 2.0]
  {
    var ops := [Number(1), Number(2)];
    assert ops[1..] == [Number(2)] && ops[1..][1..] == [];
    assert Ints(ops[1..]) == [2.0];
  }

  /** `((@f:[$f_0 $f_0] | @f:[$f_1 $f_1]) | @g:[$g_2 $g_2])` */
  function SentText(): string {
    "(" + ("(" + ("@f:[$f_0 $f_0]" + (" | " + ("@f:[$f_1 $f_1]" + (")" + (" | " + ("@g:[$g_2 $g_2]" + ")")))))))
  }

  lemma BuilderTextIs()
    ensures CompileNode(ListOrValue()).Ok? && Askable(AskNode(ListOrValue()))
    ensures BuilderText(AskNode(ListOrValue())) == SentText()
  {
    Compiles();
    FitsSchema();
    FieldsAreSafe();
    CompiledIsAskable(ListOrValue(), Some(IntFields()));
    ListsAreWhole();
    WholeIsSeen(AskNode(ListOrValue()));
    TextIsPrinted(AskNode(ListOrValue()), 0, "");
    AskedTree();
    BuiltTree();
    PrintedText();
  }

  lemma ThreePoints(rest: string)
    requires Loose(Point("f", "f_0")) && Loose(Point("f", "f_1")) && Loose(Point("g", "g_2"))
    ensures PrintOnto(Point("f", "f_0"), rest) == "@f:[$f_0 $f_0]" + rest
    ensures PrintOnto(Point("f", "f_1"), rest) == "@f:[$f_1 $f_1]" + rest
    ensures PrintOnto(Point("g", "g_2"), rest) == "@g:[$g_2 $g_2]" + rest
  {
    PointText("f", "f_0", rest);
    PointText("f", "f_1", rest);
    PointText("g", "g_2", rest);
    assert "@" + "f" + ":[$" + "f_0" + " $" + "f_0" + "]" == "@f:[$f_0 $f_0]";
    assert "@" + "f" + ":[$" + "f_1" + " $" + "f_1" + "]" == "@f:[$f_1 $f_1]";
    assert "@" + "g" + ":[$" + "g_2" + " $" + "g_2" + "]" == "@g:[$g_2 $g_2]";
  }

  lemma PrintedText()
    ensures var n := Or([Or([Point("f", "f_0"), Point("f", "f_1")]), Point("g", "g_2")]);
            Loose(n) && Print(n) == SentText()
  {
    var a, b, c := Point("f", "f_0"), Point("f", "f_1"), Point("g", "g_2");
    LooseNames();
    ThreePoints(")" + "");
    assert ")" + "" == ")";
    var last := " | " + ("@g:[$g_2 $g_2]" + ")");
    ThreePoints(")" + last);
    ThreePoints(" | " + ("@f:[$f_1 $f_1]" + (")" + last)));
    PairText(a, b, last);
    PairText(Or([a, b]), c, "");
  }

  /**
    These conditions compile and fit an integer schema; the builder's text for them selects exactly
    their rows; and the validator refuses that text, as it refuses every text and parameters.
   */
  lemma FaithfulTextIsRefused()
    ensures Compile(ListOrValue()).Ok?
    ensures ValidateAgainstSchema(Compile(ListOrValue()).value, Some(IntFields())).Ok?
    ensures Askable(AskNode(ListOrValue()))
    ensures var t, p := AskNode(ListOrValue()), Compile(ListOrValue()).value;
            && Faithful(p, BuilderText(t), BuilderParams(t))
            && CheckRedisFilter(p, BuilderText(t), BuilderParams(t)).Err?
            && forall expr: string, params: Params :: CheckRedisFilter(p, expr, params).Err?
  {
    Compiles();
    FitsSchema();
    FieldsAreSafe();
    IsSpliced();
    ListsAreWhole();
    ConditionsAcceptedIff(ListOrValue(), Some(IntFields()));
    var p := ListOrValuePredicate();
    forall expr: string, params: Params ensures CheckRedisFilter(p, expr, params).Err? {
      if CheckRedisFilter(p, expr, params).Ok? {
        AcceptedIsAcceptable(p, expr, params);
        assert false;
      }
    }
  }
}
