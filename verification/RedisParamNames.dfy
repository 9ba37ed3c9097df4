/**
  The parameter names of the Redis filter builder (src/bin/vector_db_benchmark/engine/redis.rs):
  `{field}_{counter}`, and `{field}_{counter}_{bound}` for a range. A running counter keeps them apart.
 */
module RedisParamNames {
  import opened Lists
  import opened FilterTree
  import opened Predicates
  import opened RedisFilterSyntax
  import opened RedisFilterCheck
  import opened RedisFilterComplete
  import D = Decimals

  function FieldName(field: string, k: nat): string { field + ("_" + D.Digits(k)) }

  function BoundName(field: string, k: nat, op: string): string { FieldName(field, k) + ("_" + op) }

  const BOUND_OPS: seq<string> := ["gt", "gte", "lt", "lte"]

  /** `name` is made from these parts, `op` empty for a name without a bound. */
  predicate MadeOf(name: string, field: string, c: nat, op: string) {
    if op == "" then name == FieldName(field, c) else op in BOUND_OPS && name == BoundName(field, c, op)
  }

  /** A name made with counter value `c`. */
  ghost predicate Counted(name: string, c: nat) {
    exists field, op :: MadeOf(name, field, c, op)
  }

  // ----- The counter can be read off a name -----

  /** How many characters stand behind the last underscore. */
  function BehindLast(s: string): nat {
    if s == "" || s[|s| - 1] == '_' then 0 else 1 + BehindLast(s[..|s| - 1])
  }

  lemma {:induction false} BehindLastIs(a: string, b: string)
    requires '_' !in b
    ensures BehindLast(a + ("_" + b)) == |b|
  {
    var s := a + ("_" + b);
    if b != "" {
      var c := b[..|b| - 1];
      BehindLastIs(a, c);
      assert s[..|s| - 1] == a + ("_" + c);
    }
  }

  /** Strings cut at their last underscore. */
  lemma LastPart(a: string, b: string, c: string, d: string)
    requires a + ("_" + b) == c + ("_" + d) && '_' !in b && '_' !in d
    ensures a == c && b == d
  {
    var s, t := a + ("_" + b), c + ("_" + d);
    BehindLastIs(a, b);
    BehindLastIs(c, d);
    assert s[..|a|] == a && t[..|c|] == c && s[|a| + 1..] == b && t[|c| + 1..] == d;
  }

  lemma DigitsHoldNoUnderscore(k: nat)
    ensures '_' !in D.Digits(k) && D.IsDigit(D.Digits(k)[0])
  {
    var s := D.Digits(k);
    forall i | 0 <= i < |s| ensures s[i] != '_' { assert D.IsDigit(s[i]); }
  }

  lemma OpsHoldNoUnderscore(op: string)
    requires op in BOUND_OPS
    ensures op != "" && '_' !in op && !D.IsDigit(op[0])
  {
  }

  lemma FieldNameCounter(f: string, c: nat, g: string, d: nat)
    requires FieldName(f, c) == FieldName(g, d)
    ensures f == g && c == d
  {
    DigitsHoldNoUnderscore(c);
    DigitsHoldNoUnderscore(d);
    LastPart(f, D.Digits(c), g, D.Digits(d));
    D.DigitsDiffer(c, d);
  }

  lemma BoundNameCounter(f: string, c: nat, op: string, g: string, d: nat, op': string)
    requires op in BOUND_OPS && op' in BOUND_OPS && BoundName(f, c, op) == BoundName(g, d, op')
    ensures f == g && c == d && op == op'
  {
    OpsHoldNoUnderscore(op);
    OpsHoldNoUnderscore(op');
    LastPart(FieldName(f, c), op, FieldName(g, d), op');
    FieldNameCounter(f, c, g, d);
  }

  lemma KindsDiffer(f: string, c: nat, g: string, d: nat, op: string)
    requires op in BOUND_OPS
    ensures FieldName(f, c) != BoundName(g, d, op)
  {
    OpsHoldNoUnderscore(op);
    DigitsHoldNoUnderscore(c);
    if FieldName(f, c) == BoundName(g, d, op) {
      LastPart(f, D.Digits(c), FieldName(g, d), op);
      assert false;
    }
  }

  lemma CounterIsUnique(name: string, c: nat, d: nat)
    requires Counted(name, c) && Counted(name, d)
    ensures c == d
  {
    var f, op :| MadeOf(name, f, c, op);
    var g, op' :| MadeOf(name, g, d, op');
    if op == "" && op' == "" {
      FieldNameCounter(f, c, g, d);
    } else if op == "" {
      KindsDiffer(f, c, g, d, op');
    } else if op' == "" {
      KindsDiffer(g, d, f, c, op);
    } else {
      BoundNameCounter(f, c, op, g, d, op');
    }
  }

  // ----- The names of a leaf -----

  function LowerNames(field: string, k: nat, t: Test): seq<string>
    requires t.Range?
  {
    if t.gt.Some? then [BoundName(field, k, "gt")] else if t.gte.Some? then [BoundName(field, k, "gte")] else []
  }

  function UpperNames(field: string, k: nat, t: Test): seq<string>
    requires t.Range?
  {
    if t.lt.Some? then [BoundName(field, k, "lt")] else if t.lte.Some? then [BoundName(field, k, "lte")] else []
  }

  /** The parameter of a bound names the field, the counter and the bound's own key. */
  lemma BoundNamesTell(field: string, k: nat, t: Test, name: string)
    requires t.Range? && !(t.gt.Some? && t.gte.Some?) && !(t.lt.Some? && t.lte.Some?)
    ensures var stem := field + ("_" + D.Digits(k));
            && (name in LowerNames(field, k, t) <==>
                  (t.gt.Some? && name == stem + "_gt") || (t.gte.Some? && name == stem + "_gte"))
            && (name in UpperNames(field, k, t) <==>
                  (t.lt.Some? && name == stem + "_lt") || (t.lte.Some? && name == stem + "_lte"))
  {
    assert "_" + "gt" == "_gt" && "_" + "gte" == "_gte" && "_" + "lt" == "_lt" && "_" + "lte" == "_lte";
  }

  function FieldNames(field: string, k: nat, n: nat): (s: seq<string>)
    ensures |s| == n && forall i | 0 <= i < n :: s[i] == FieldName(field, k + i)
  {
    seq(n, i requires 0 <= i < n => FieldName(field, k + i))
  }

  function LeafNames(l: FieldTest, k: nat): seq<string> {
    match l.test
    case TextMatch(_) => FieldNames(l.field, k, 1)
    case Match(ops) => FieldNames(l.field, k, |ops|)
    case Range(_, _, _, _) => LowerNames(l.field, k, l.test) + UpperNames(l.field, k, l.test)
  }

  /** How far a leaf moves the counter. */
  function LeafUses(l: FieldTest): nat {
    if l.test.Match? && |l.test.ops| > 0 then |l.test.ops| else 1
  }

  lemma {:induction false} UnmixedSize(ops: seq<Operand>)
    ensures Ints(ops) == [] ==> |Words(ops)| == |ops|
    ensures Words(ops) == [] ==> |Ints(ops)| == |ops|
  {
    if ops != [] { UnmixedSize(ops[1..]); }
  }

  lemma NamesMatchValues(l: FieldTest, k: nat)
    requires Translatable(l.test)
    ensures |LeafNames(l, k)| == |Values(l)|
  {
    if l.test.Match? { UnmixedSize(l.test.ops); }
  }

  /** Which names are made with which counter value. */
  type Counter = (string, nat) -> bool

  ghost function MadeWith(): Counter {
    (name: string, c: nat) => Counted(name, c)
  }

  ghost predicate CountedFrom(at: Counter, name: string, k: nat, n: nat) {
    exists c: nat :: k <= c < n && at(name, c)
  }

  /** Names that are different from each other and made with counter values from `k` to `n`. */
  ghost predicate Apart(at: Counter, names: seq<string>, k: nat, n: nat) {
    Distinct(names) && forall i | 0 <= i < |names| :: CountedFrom(at, names[i], k, n)
  }

  lemma FieldNamesApart(field: string, k: nat, n: nat)
    ensures Apart(MadeWith(), FieldNames(field, k, n), k, k + n)
  {
    var names := FieldNames(field, k, n);
    forall i | 0 <= i < n ensures CountedFrom(MadeWith(), names[i], k, k + n) {
      assert MadeOf(names[i], field, k + i, "");
      assert MadeWith()(names[i], k + i);
    }
    forall i, j | 0 <= i < j < n ensures names[i] != names[j] {
      if names[i] == names[j] {
        FieldNameCounter(field, k + i, field, k + j);
        assert false;
      }
    }
  }

  lemma BoundNamesApart(field: string, k: nat, lo: string, hi: string)
    requires lo in ["gt", "gte"] && hi in ["lt", "lte"]
    ensures CountedFrom(MadeWith(), BoundName(field, k, lo), k, k + 1)
    ensures CountedFrom(MadeWith(), BoundName(field, k, hi), k, k + 1)
    ensures BoundName(field, k, lo) != BoundName(field, k, hi)
  {
    assert BOUND_OPS[0] == "gt" && BOUND_OPS[1] == "gte" && BOUND_OPS[2] == "lt" && BOUND_OPS[3] == "lte";
    assert MadeOf(BoundName(field, k, lo), field, k, lo) && MadeOf(BoundName(field, k, hi), field, k, hi);
    assert MadeWith()(BoundName(field, k, lo), k) && MadeWith()(BoundName(field, k, hi), k);
    assert lo[0] == 'g' && hi[0] == 'l';
    if BoundName(field, k, lo) == BoundName(field, k, hi) {
      BoundNameCounter(field, k, lo, field, k, hi);
      assert false;
    }
  }

  lemma NamesApart(l: FieldTest, k: nat)
    ensures Apart(MadeWith(), LeafNames(l, k), k, k + LeafUses(l))
  {
    match l.test
    case TextMatch(_) => FieldNamesApart(l.field, k, 1);
    case Match(ops) =>
      FieldNamesApart(l.field, k, |ops|);
      if ops == [] { assert LeafNames(l, k) == []; }
    case Range(gt, gte, lt, lte) =>
      BoundNamesApart(l.field, k, if gt.Some? then "gt" else "gte", if lt.Some? then "lt" else "lte");
  }

  // ----- The parameters of a whole filter -----

  /** The names bound to the values, one after the other. */
  function Zip(names: seq<string>, vals: seq<RedisParam>): (m: Params)
    ensures forall s | s in m :: s in names
  {
    if names == [] || vals == [] then map[] else map[names[0] := vals[0]] + Zip(names[1..], vals[1..])
  }

  lemma {:induction false} ZipBinds(names: seq<string>, vals: seq<RedisParam>)
    requires |names| == |vals| && Distinct(names)
    ensures NamesBind(Zip(names, vals), names, vals)
  {
    if names != [] {
      ZipBinds(names[1..], vals[1..]);
      var m := Zip(names, vals);
      assert names[0] !in names[1..];
      forall i | 0 <= i < |vals| ensures names[i] in m && m[names[i]] == vals[i] {
        if i > 0 { assert names[1..][i - 1] == names[i] && vals[1..][i - 1] == vals[i]; }
      }
    }
  }

  /** How leaves are named, how far each moves the counter, and the values it binds. */
  datatype Naming = Naming(
    names: (FieldTest, nat) -> seq<string>, uses: FieldTest -> nat, vals: FieldTest -> seq<RedisParam>, at: Counter)

  ghost predicate WellNamed(nm: Naming, l: FieldTest) {
    forall k: nat :: Apart(nm.at, nm.names(l, k), k, k + nm.uses(l)) && |nm.names(l, k)| == |nm.vals(l)|
  }

  ghost predicate AllWellNamed(ls: seq<FieldTest>, nm: Naming) {
    ls == [] || (WellNamed(nm, ls[0]) && AllWellNamed(ls[1..], nm))
  }

  lemma {:induction false} EachWellNamed(ls: seq<FieldTest>, nm: Naming)
    requires forall l | l in ls :: WellNamed(nm, l)
    ensures AllWellNamed(ls, nm)
  {
    if ls != [] {
      assert ls[0] in ls;
      EachWellNamed(ls[1..], nm);
    }
  }

  ghost predicate OneCounterEach(at: Counter) {
    forall name, c: nat, d: nat | at(name, c) && at(name, d) :: c == d
  }

  /** The parameters bound for the leaves, the counter starting at `k`. */
  function AllParams(ls: seq<FieldTest>, k: nat, nm: Naming): Params {
    if ls == [] then map[]
    else Zip(nm.names(ls[0], k), nm.vals(ls[0])) + AllParams(ls[1..], k + nm.uses(ls[0]), nm)
  }

  ghost predicate CountedAbove(at: Counter, name: string, k: nat) {
    exists c: nat :: k <= c && at(name, c)
  }

  lemma LeafNamesCounted(nm: Naming, l: FieldTest, k: nat, name: string)
    requires WellNamed(nm, l) && name in nm.names(l, k)
    ensures CountedFrom(nm.at, name, k, k + nm.uses(l))
  {
    assert Apart(nm.at, nm.names(l, k), k, k + nm.uses(l));
    var i := IndexOf(nm.names(l, k), name);
  }

  lemma {:induction false} ParamsAreCounted(ls: seq<FieldTest>, k: nat, nm: Naming, name: string)
    requires name in AllParams(ls, k, nm) && AllWellNamed(ls, nm)
    ensures CountedAbove(nm.at, name, k)
  {
    var l, next := ls[0], k + nm.uses(ls[0]);
    if name in AllParams(ls[1..], next, nm) {
      ParamsAreCounted(ls[1..], next, nm, name);
      var c: nat :| next <= c && nm.at(name, c);
    } else {
      assert name in nm.names(l, k);
      LeafNamesCounted(nm, l, k, name);
      var c: nat :| k <= c < next && nm.at(name, c);
    }
  }

  lemma NameNotLater(name: string, k: nat, n: nat, ls: seq<FieldTest>, nm: Naming)
    requires OneCounterEach(nm.at) && CountedFrom(nm.at, name, k, n) && AllWellNamed(ls, nm)
    ensures name !in AllParams(ls, n, nm)
  {
    if name in AllParams(ls, n, nm) {
      ParamsAreCounted(ls, n, nm, name);
      assert false;
    }
  }

  /** Every leaf finds its values under the names it has where it stands. */
  ghost predicate BoundInTurn(ls: seq<FieldTest>, k: nat, nm: Naming, params: Params) {
    ls == [] || (&& NamesBind(params, nm.names(ls[0], k), nm.vals(ls[0]))
                 && BoundInTurn(ls[1..], k + nm.uses(ls[0]), nm, params))
  }

  lemma UnionBinds(first: Params, rest: Params, names: seq<string>, vals: seq<RedisParam>)
    requires NamesBind(first, names, vals) && forall s | s in names :: s !in rest
    ensures NamesBind(first + rest, names, vals)
  {
    forall i | 0 <= i < |vals| ensures names[i] in first + rest && (first + rest)[names[i]] == vals[i] {
      assert names[i] in names;
    }
  }

  lemma FirstLeafBound(l: FieldTest, ls: seq<FieldTest>, k: nat, nm: Naming)
    requires OneCounterEach(nm.at) && WellNamed(nm, l) && AllWellNamed(ls, nm)
    ensures NamesBind(Zip(nm.names(l, k), nm.vals(l)) + AllParams(ls, k + nm.uses(l), nm), nm.names(l, k), nm.vals(l))
  {
    var names, vals, next := nm.names(l, k), nm.vals(l), k + nm.uses(l);
    assert Apart(nm.at, names, k, next) && |names| == |vals|;
    ZipBinds(names, vals);
    forall s | s in names ensures s !in AllParams(ls, next, nm) {
      LeafNamesCounted(nm, l, k, s);
      NameNotLater(s, k, next, ls, nm);
    }
    UnionBinds(Zip(names, vals), AllParams(ls, next, nm), names, vals);
  }

  lemma RestBinds(first: Params, rest: Params, names: seq<string>, vals: seq<RedisParam>)
    requires NamesBind(rest, names, vals)
    ensures NamesBind(first + rest, names, vals)
  {
  }

  lemma {:induction false} StaysBound(ls: seq<FieldTest>, k: nat, nm: Naming, first: Params, rest: Params)
    requires BoundInTurn(ls, k, nm, rest)
    ensures BoundInTurn(ls, k, nm, first + rest)
  {
    if ls != [] {
      RestBinds(first, rest, nm.names(ls[0], k), nm.vals(ls[0]));
      StaysBound(ls[1..], k + nm.uses(ls[0]), nm, first, rest);
    }
  }

  /** The parameters bind every leaf: no later leaf overwrites the values of an earlier one. */
  lemma {:induction false} ParamsInTurn(ls: seq<FieldTest>, k: nat, nm: Naming)
    requires OneCounterEach(nm.at) && AllWellNamed(ls, nm)
    ensures BoundInTurn(ls, k, nm, AllParams(ls, k, nm))
  {
    if ls != [] {
      var l, next := ls[0], k + nm.uses(ls[0]);
      ParamsInTurn(ls[1..], next, nm);
      StaysBound(ls[1..], next, nm, Zip(nm.names(l, k), nm.vals(l)), AllParams(ls[1..], next, nm));
      FirstLeafBound(l, ls[1..], k, nm);
    }
  }

  /** What follows from a bound leaf holds of every leaf where it stands. */
  lemma {:induction false} BoundMeans(
    ls: seq<FieldTest>, k: nat, nm: Naming, params: Params, ok: (FieldTest, nat) -> bool)
    requires BoundInTurn(ls, k, nm, params)
    requires forall l, i | l in ls && NamesBind(params, nm.names(l, i), nm.vals(l)) :: ok(l, i)
    ensures InTurn(ls, k, nm.uses, ok)
  {
    if ls != [] {
      assert ls[0] in ls;
      BoundMeans(ls[1..], k + nm.uses(ls[0]), nm, params, ok);
    }
  }

  // ----- The builder's naming -----

  ghost function BuilderNaming(): Naming { Naming(LeafNames, LeafUses, Values, MadeWith()) }

  lemma BuilderCounters()
    ensures OneCounterEach(BuilderNaming().at)
  {
    var at := BuilderNaming().at;
    forall name, c: nat, d: nat | at(name, c) && at(name, d) ensures c == d { CounterIsUnique(name, c, d); }
  }

  lemma BuilderIsWellNamed(l: FieldTest)
    requires Translatable(l.test)
    ensures WellNamed(BuilderNaming(), l)
  {
    var nm := BuilderNaming();
    forall k: nat
      ensures Apart(nm.at, nm.names(l, k), k, k + nm.uses(l)) && |nm.names(l, k)| == |nm.vals(l)|
    {
      NamesApart(l, k);
      NamesMatchValues(l, k);
    }
  }
}
