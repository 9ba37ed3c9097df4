/** `index_profile` and the index marker of src/fulltext.rs. */
module IndexProfile {
  import opened Outcomes
  import opened Json

  datatype Workload = Vector | Hybrid | HybridRrf | Fulltext | FilterOnly {
    predicate UsesTextIndex() { Fulltext? || HybridRrf? }
  }

  datatype Analysis = English | Parity
  datatype ScalarIndexing = All | TextTagOnly

  /** A parsed `fulltext` block; `fields` lists the searched fields in ascending order. */
  datatype Spec = Spec(scalarIndexing: ScalarIndexing, analysis: Analysis, fields: Option<seq<string>>)

  /** A search config: its workload and what `parse_spec` made of its block. */
  type Config = (Workload, Result<Spec, ()>)

  /** `text_fields` is an ordered set, held as its ascending elements. */
  datatype Profile = Profile(scalarIndexing: ScalarIndexing, analysis: Analysis, textFields: seq<string>)

  datatype ProfileError = BadBlock | MixedScalarIndexing | MixedAnalysis | NoFields | MixedFields | SharedWithOther

  // ----- What a profile must satisfy -----

  ghost predicate HasText(cs: seq<Config>) {
    exists c :: c in cs && c.0.UsesTextIndex()
  }

  /** One config is served by an index built for `p`. */
  predicate Serves(p: Profile, c: Config) {
    if c.0.UsesTextIndex() then
      && c.1.Ok? && c.1.value.scalarIndexing == p.scalarIndexing && c.1.value.analysis == p.analysis
      && (p.analysis.Parity? ==> c.1.value.fields == Some(p.textFields))
    else p.analysis.English?
  }

  /** `p` is the profile of these configs: it serves each of them and indexes nothing beyond the searched fields. */
  ghost predicate Fits(p: Profile, cs: seq<Config>) {
    HasText(cs) && (p.analysis.English? ==> p.textFields == []) && forall c | c in cs :: Serves(p, c)
  }

  lemma FitsIsUnique(p: Profile, q: Profile, cs: seq<Config>)
    requires Fits(p, cs) && Fits(q, cs)
    ensures p == q
  {
    var c :| c in cs && c.0.UsesTextIndex();
    assert Serves(p, c) && Serves(q, c);
  }

  /** `c` is one of the text configs, and its block parsed. */
  ghost predicate IsText(c: Config, cs: seq<Config>) {
    c in cs && c.0.UsesTextIndex() && c.1.Ok?
  }

  /** What an error says about the configs. */
  ghost predicate Shows(e: ProfileError, cs: seq<Config>) {
    match e
    case BadBlock => exists c :: c in cs && c.0.UsesTextIndex() && c.1.Err?
    case MixedScalarIndexing =>
      exists a, b :: IsText(a, cs) && IsText(b, cs) && a.1.value.scalarIndexing != b.1.value.scalarIndexing
    case MixedAnalysis => exists a, b :: IsText(a, cs) && IsText(b, cs) && a.1.value.analysis != b.1.value.analysis
    case NoFields => exists c :: IsText(c, cs) && c.1.value.analysis.Parity? && c.1.value.fields.None?
    case MixedFields =>
      exists a, b :: IsText(a, cs) && IsText(b, cs) && a.1.value.analysis.Parity? && b.1.value.analysis.Parity?
                     && a.1.value.fields.Some? && b.1.value.fields.Some? && a.1.value.fields != b.1.value.fields
    case SharedWithOther =>
      exists a, o :: IsText(a, cs) && a.1.value.analysis.Parity? && o in cs && !o.0.UsesTextIndex()
  }

  // ----- The fold -----

  /** The accumulators after `cs`: the shared settings of its text configs, and whether it holds others. */
  ghost predicate Folded(
    cs: seq<Config>, scalar: Option<ScalarIndexing>, analysis: Option<Analysis>, fields: Option<seq<string>>,
    other: bool)
  {
    && (analysis.Some? <==> HasText(cs)) && (scalar.Some? <==> HasText(cs))
    && (fields.Some? <==> analysis == Some(Parity))
    && (other <==> exists c :: c in cs && !c.0.UsesTextIndex())
    && forall c | c in cs && c.0.UsesTextIndex() ::
         && c.1.Ok? && Some(c.1.value.scalarIndexing) == scalar && Some(c.1.value.analysis) == analysis
         && (analysis == Some(Parity) ==> c.1.value.fields == fields)
  }

  lemma MembersOfNext(cs: seq<Config>, i: nat)
    requires i < |cs|
    ensures forall c :: c in cs[..i + 1] <==> c in cs[..i] || c == cs[i]
    ensures forall c | c in cs[..i + 1] :: c in cs
  {
    assert cs[..i + 1] == cs[..i] + [cs[i]];
  }

  lemma Disagree(cs: seq<Config>, a: Config, b: Config)
    requires a in cs && b in cs && a.0.UsesTextIndex() && b.0.UsesTextIndex() && a.1.Ok? && b.1.Ok?
    requires a.1.value.scalarIndexing != b.1.value.scalarIndexing || a.1.value.analysis != b.1.value.analysis
             || (b.1.value.analysis.Parity? && a.1.value.fields != b.1.value.fields)
    ensures forall p :: !Fits(p, cs)
  {
    forall p ensures !Fits(p, cs) {
      assert !(Serves(p, a) && Serves(p, b));
    }
  }

  /** A text config already folded that carries the current accumulators. */
  lemma Earlier(cs: seq<Config>, scalar: Option<ScalarIndexing>, analysis: Option<Analysis>,
                fields: Option<seq<string>>, other: bool) returns (a: Config)
    requires Folded(cs, scalar, analysis, fields, other) && analysis.Some?
    ensures a in cs && a.0.UsesTextIndex() && a.1.Ok? && Some(a.1.value.scalarIndexing) == scalar
    ensures Some(a.1.value.analysis) == analysis && (analysis == Some(Parity) ==> a.1.value.fields == fields)
  {
    a :| a in cs && a.0.UsesTextIndex();
  }

  method ResolveProfile(configs: seq<Config>) returns (r: Result<Option<Profile>, ProfileError>)
    ensures r == Ok(None) <==> !HasText(configs)
    ensures forall p :: r == Ok(Some(p)) <==> Fits(p, configs)
    ensures r.Err? ==> Shows(r.error, configs)
  {
    var scalar: Option<ScalarIndexing>, analysis: Option<Analysis>, fields: Option<seq<string>> := None, None, None;
    var other := false;
    for i := 0 to |configs|
      invariant Folded(configs[..i], scalar, analysis, fields, other)
    {
      var c := configs[i];
      MembersOfNext(configs, i);
      assert c in configs;
      if !c.0.UsesTextIndex() {
        other := true;
        continue;
      }
      if c.1.Err? { return Err(BadBlock); }
      var spec := c.1.value;
      if analysis.Some? {
        ghost var a := Earlier(configs[..i], scalar, analysis, fields, other);
        assert IsText(a, configs) && IsText(c, configs);
        if scalar != Some(spec.scalarIndexing) || analysis != Some(spec.analysis)
           || (spec.analysis.Parity? && fields != spec.fields) {
          Disagree(configs, a, c);
        }
      }
      if scalar.Some? && scalar != Some(spec.scalarIndexing) { return Err(MixedScalarIndexing); }
      scalar := Some(spec.scalarIndexing);
      if analysis.Some? && analysis != Some(spec.analysis) { return Err(MixedAnalysis); }
      analysis := Some(spec.analysis);
      if spec.analysis.Parity? {
        if spec.fields.None? {
          assert IsText(c, configs);
          return Err(NoFields);
        }
        if fields.Some? && fields != spec.fields { return Err(MixedFields); }
        fields := spec.fields;
      }
    }
    assert configs[..|configs|] == configs;
    if analysis.None? { return Ok(None); }
    ghost var a := Earlier(configs, scalar, analysis, fields, other);
    assert IsText(a, configs);
    if analysis == Some(Parity) && other {
      ghost var o :| o in configs && !o.0.UsesTextIndex();
      assert forall p :: !(Serves(p, a) && Serves(p, o));
      return Err(SharedWithOther);
    }
    ghost var fit := Profile(scalar.value, analysis.value, if fields.Some? then fields.value else []);
    assert Fits(fit, configs);
    forall p | Fits(p, configs) ensures p == fit { FitsIsUnique(p, fit, configs); }
    return Ok(Some(Profile(scalar.value, analysis.value, if fields.Some? then fields.value else [])));
  }

  /** Any reordering of the configs has the same profiles, so it resolves alike or fails alike. */
  lemma ReorderingResolvesAlike(a: seq<Config>, b: seq<Config>, p: Profile)
    requires multiset(a) == multiset(b)
    ensures HasText(a) <==> HasText(b)
    ensures Fits(p, a) <==> Fits(p, b)
  {
    forall c ensures c in a <==> c in b {
      assert c in multiset(a) <==> c in multiset(b);
    }
  }

  // ----- The marker -----

  function Strings(s: seq<string>): (r: seq<Json>)
    ensures |r| == |s| && forall i | 0 <= i < |s| :: r[i] == Str(s[i])
  {
    seq(|s|, i requires 0 <= i < |s| => Str(s[i]))
  }

  /** The record written into the index. */
  function Marker(p: Profile): Json {
    var base := map[
      "analysis" := Str(if p.analysis.English? then "english" else "parity"),
      "normalize_whitespace" := Bool(p.analysis.Parity?),
      "text_fields" := Arr(Strings(p.textFields))
    ];
    Obj(if p.scalarIndexing.TextTagOnly? then base["scalar_indexing" := Str("text-tag-only")] else base)
  }

  /** An index without a marker is accepted only in english mode. */
  predicate CheckMarker(p: Profile, recorded: Json) {
    (p.analysis.English? && recorded == Null) || recorded == Marker(p)
  }

  lemma MarkerKeys()
    ensures "scalar_indexing" !in {"analysis", "normalize_whitespace", "text_fields"}
    ensures "text_fields" !in {"analysis", "normalize_whitespace"} && "analysis" != "normalize_whitespace"
  {
    assert |"scalar_indexing"| == 15 && |"text_fields"| == 11 && |"analysis"| == 8 && |"normalize_whitespace"| == 20;
  }

  /** The marker says "parity" and the normalization, or "english" and none; it lists the profile's fields. */
  lemma MarkerRecords(p: Profile)
    ensures var m := Marker(p).fields;
            && m.Keys <= {"analysis", "normalize_whitespace", "text_fields", "scalar_indexing"}
            && {"analysis", "normalize_whitespace", "text_fields"} <= m.Keys
            && (p.analysis.Parity? <==> m["analysis"] == Str("parity") && m["normalize_whitespace"] == Bool(true))
            && (p.analysis.English? <==> m["analysis"] == Str("english") && m["normalize_whitespace"] == Bool(false))
            && (forall f :: f in p.textFields <==> m["text_fields"].Arr? && Str(f) in m["text_fields"].items)
            && ("scalar_indexing" in m <==> p.scalarIndexing.TextTagOnly?)
            && ("scalar_indexing" in m ==> m["scalar_indexing"] == Str("text-tag-only"))
  {
    MarkerKeys();
    assert |"english"| == 7 && |"parity"| == 6;
    forall f | f in p.textFields ensures Str(f) in Strings(p.textFields) {
      var i :| 0 <= i < |p.textFields| && p.textFields[i] == f;
      assert Strings(p.textFields)[i] == Str(f);
    }
  }

  /** An index marked by `q` is accepted by `p` exactly when they are the same profile. */
  lemma MarkerAcceptedIff(p: Profile, q: Profile)
    ensures CheckMarker(p, Marker(q)) <==> p == q
    ensures CheckMarker(p, Null) <==> p.analysis.English?
  {
    MarkerKeys();
    var m, n := Marker(p).fields, Marker(q).fields;
    assert m["normalize_whitespace"] == Bool(p.analysis.Parity?);
    assert n["normalize_whitespace"] == Bool(q.analysis.Parity?);
    assert m["text_fields"] == Arr(Strings(p.textFields)) && n["text_fields"] == Arr(Strings(q.textFields));
    assert "scalar_indexing" in m <==> p.scalarIndexing.TextTagOnly?;
    assert "scalar_indexing" in n <==> q.scalarIndexing.TextTagOnly?;
    if m == n {
      forall i | 0 <= i < |p.textFields| ensures p.textFields[i] == q.textFields[i] {
        assert Strings(p.textFields)[i] == Strings(q.textFields)[i];
      }
      assert p.textFields == q.textFields;
    }
  }
}
