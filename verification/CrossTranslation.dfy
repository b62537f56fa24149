/** The convergence run: two authorities, two shadows, two round trips, five comparisons. */
module CrossTranslation {
  import opened Prelude
  import opened Text
  import opened SchemaModel
  import opened JsonWitness
  import opened JsonRoundTrip
  import opened JsonTheorem
  import opened TypeSpecWitness
  import opened TypeSpecLines
  import opened TypeSpecParsed
  import opened TypeSpecRoundTrip
  import opened TypeSpecDocument
  import opened TypeSpecKeys
  import opened TypeSpecHeader
  import opened TypeSpecSearch
  import opened TypeSpecTheorem

  datatype Finding =
    | PeerMismatch
    | TypeSpecToJsonLoss
    | JsonToTypeSpecLoss
    | TypeSpecRoundTripLoss
    | JsonRoundTripLoss

  /** What a TypeSpec witness of a JSON witness names as its authority. */
  const SHADOW: string := "typespec-via-" + "json-schema-shadow"

  /** The digests of the four artifacts the witnesses are derived from. */
  datatype Digests = Digests(typeSpec: string, json: string, jsonShadow: string, typeSpecShadow: string)

  /** Digests are hexadecimal: single lines without braces. */
  ghost predicate SingleLine(d: Digests) {
    IsQuietLine(d.typeSpec) && IsQuietLine(d.json) && IsQuietLine(d.jsonShadow) && IsQuietLine(d.typeSpecShadow)
  }

  function CompareModels(left: Model, right: Model, kind: Finding, lower: Lowering): seq<Finding>
    requires KeysKnown(left) && KeysKnown(right)
  {
    if Canonical(left, lower) != Canonical(right, lower) then [kind] else []
  }

  /** The findings for the models the two authorities were parsed into. */
  function Run(typeSpec: Model, json: Model, d: Digests, lower: Lowering, letters: Letters): Result<seq<Finding>, TranslateError>
    requires KeysKnown(typeSpec) && KeysKnown(json)
  {
    hide RenderJson, RenderTypeSpec, Canonical, KeysKnown;
    var jsonDoc :- RenderJson(typeSpec, "typespec", d.typeSpec);
    var source :- RenderTypeSpec(json, "json-schema-openapi", d.json);
    var typeSpecJson :- ParseJson(jsonDoc);
    var jsonTypeSpec :- ParseTypeSpec(source, letters);
    var backSource :- RenderTypeSpec(typeSpecJson, SHADOW, d.jsonShadow);
    var backDoc :- RenderJson(jsonTypeSpec, "json-schema-openapi-via-typespec-shadow", d.typeSpecShadow);
    var typeSpecBack :- ParseTypeSpec(backSource, letters);
    var jsonBack :- ParseJson(backDoc);
    Ok(CompareModels(typeSpec, json, PeerMismatch, lower)
       + CompareModels(typeSpec, typeSpecJson, TypeSpecToJsonLoss, lower)
       + CompareModels(json, jsonTypeSpec, JsonToTypeSpecLoss, lower)
       + CompareModels(typeSpec, typeSpecBack, TypeSpecRoundTripLoss, lower)
       + CompareModels(json, jsonBack, JsonRoundTripLoss, lower))
  }

  /** The whole run, from the two authorities' texts. */
  function RunAuthorities(
    source: string, doc: Members, d: Digests, lower: Lowering, letters: Letters): Result<seq<Finding>, TranslateError>
  {
    hide Run, KeysKnown;
    var typeSpec :- ParseTypeSpec(source, letters);
    var json :- ParseJson(doc);
    Run(typeSpec, json, d, lower, letters)
  }

  // ----- every finding

  lemma AuthoritiesSingle()
    ensures IsQuietLine("json-schema-openapi") && IsQuietLine(SHADOW)
  {
    hide IsQuietLine;
    AuthoritySingle();
    ShadowSingle();
  }

  lemma AuthoritySingle()
    ensures IsQuietLine("json-schema-openapi")
  {}

  lemma ShadowSingle()
    ensures IsQuietLine(SHADOW)
  {}

  /** What the TypeSpec witness drops or respells. */
  ghost predicate Loses(m: Model) {
    (exists g :: g in m.unique && g == []) || exists f, v :: f in m.fields && v in f.enumValues && !AllPlain(v)
  }

  function Report(lost: bool, kind: Finding): seq<Finding> {
    if lost then [kind] else []
  }

  lemma WitnessedWellFormed(m: Model)
    requires WellFormed(m) && Notated(m)
    ensures WellFormed(Witnessed(m))
  {
    WitnessedKeysKnown(m);
    EscapedFieldsFit(m.fields);
    hide KeysKnown, EscapedFields, NonEmpty, IsIdent, IsValue, FieldOk, Agree, DistinctNames;
    forall e | e in EscapedFields(m.fields) && IsEnum(e)
      ensures e.enumName.value != m.name && Free(e.enumName.value, '/')
    {
      var f :| f in m.fields && e == Escaped(f);
      assert IsEnum(f);
    }
  }

  lemma EscapedFieldsFit(fields: seq<Field>)
    ensures forall e :: e in EscapedFields(fields) ==> exists f :: f in fields && e == Escaped(f)
    ensures (forall f :: f in fields ==> FieldOk(f)) ==> forall e :: e in EscapedFields(fields) ==> FieldOk(e)
    ensures DistinctNames(fields) ==> DistinctNames(EscapedFields(fields))
    ensures Agree(fields) ==> Agree(EscapedFields(fields))
  {
    hide EscapeAll, IsScalar;
    var es := EscapedFields(fields);
    forall e | e in es ensures exists f :: f in fields && e == Escaped(f) {
      var i :| 0 <= i < |es| && es[i] == e;
      assert fields[i] in fields;
    }
    forall f | f in fields ensures f.enumValues == [] <==> EscapeAll(f.enumValues) == [] {
      EscapeAllSize(f.enumValues);
    }
    if Agree(fields) {
      forall d, e | d in es && e in es && IsEnum(d) && IsEnum(e) && d.enumName == e.enumName
        ensures d.enumValues == e.enumValues
      {
        var f :| f in fields && d == Escaped(f);
        var g :| g in fields && e == Escaped(g);
        assert IsEnum(f) && IsEnum(g) && f.enumName == g.enumName;
      }
    }
  }

  lemma LossShows(m: Model, lower: Lowering)
    requires KeysKnown(m) && KeysKnown(Witnessed(m))
    ensures CompareModels(m, Witnessed(m), JsonToTypeSpecLoss, lower) == Report(Loses(m), JsonToTypeSpecLoss)
    ensures CompareModels(m, Witnessed(m), TypeSpecRoundTripLoss, lower) == Report(Loses(m), TypeSpecRoundTripLoss)
    ensures CompareModels(m, Witnessed(m), JsonRoundTripLoss, lower) == Report(Loses(m), JsonRoundTripLoss)
  {
    hide Canonical, Witnessed, KeysKnown, AllPlain;
    WitnessedSame(m);
    if Canonical(m, lower) == Canonical(Witnessed(m), lower) {
      CanonicalShows(m, Witnessed(m), lower);
    }
  }

  /**
   The run on models that both notations can express: it fails if a TypeSpec witness cannot be
   read, and otherwise reports exactly the peer mismatch and each witness that lost something.
   */
  lemma RunExact(typeSpec: Model, json: Model, d: Digests, lower: Lowering, letters: Letters)
    requires WellFormed(typeSpec) && Notated(typeSpec)
    requires WellFormed(json) && Notated(json) && SingleLine(d)
    ensures KeysKnown(typeSpec) && KeysKnown(json)
    ensures var r := Run(typeSpec, json, d, lower, letters);
      if CanBeRead(typeSpec, letters) && CanBeRead(json, letters)
      then r == Ok(CompareModels(typeSpec, json, PeerMismatch, lower)
                   + Report(Loses(json), JsonToTypeSpecLoss)
                   + Report(Loses(typeSpec), TypeSpecRoundTripLoss)
                   + Report(Loses(json), JsonRoundTripLoss))
      else r.Err?
  {
    hide *;
    FormedKeys(typeSpec);
    FormedKeys(json);
    WitnessesRead(typeSpec, json, d, lower, letters);
    LossShows(json, lower);
    LossShows(typeSpec, lower);
    NoJsonLoss(typeSpec, lower);
    DropEmpty(CompareModels(typeSpec, json, PeerMismatch, lower));
  }

  lemma DropEmpty(s: seq<Finding>)
    ensures s + [] == s
  {}

  lemma FormedKeys(m: Model)
    requires WellFormed(m)
    ensures KeysKnown(m)
  {}

  lemma NoJsonLoss(m: Model, lower: Lowering)
    requires KeysKnown(m)
    ensures CompareModels(m, m, TypeSpecToJsonLoss, lower) == []
  {}

  /** The five comparisons, each with the model that its witness was read as. */
  lemma WitnessesRead(typeSpec: Model, json: Model, d: Digests, lower: Lowering, letters: Letters)
    requires WellFormed(typeSpec) && Notated(typeSpec) && WellFormed(json) && Notated(json) && SingleLine(d)
    ensures KeysKnown(typeSpec) && KeysKnown(json)
    ensures KeysKnown(Witnessed(typeSpec)) && KeysKnown(Witnessed(json))
    ensures var r := Run(typeSpec, json, d, lower, letters);
      if CanBeRead(typeSpec, letters) && CanBeRead(json, letters)
      then r == Ok(CompareModels(typeSpec, json, PeerMismatch, lower)
                   + CompareModels(typeSpec, typeSpec, TypeSpecToJsonLoss, lower)
                   + CompareModels(json, Witnessed(json), JsonToTypeSpecLoss, lower)
                   + CompareModels(typeSpec, Witnessed(typeSpec), TypeSpecRoundTripLoss, lower)
                   + CompareModels(json, Witnessed(json), JsonRoundTripLoss, lower))
      else r.Err?
  {
    hide RenderJson, RenderTypeSpec, ParseJson, ParseTypeSpec, Witnessed, CanBeRead, WellFormed, Notated, KeysKnown,
      CompareModels, Free;
    FormedKeys(typeSpec);
    FormedKeys(json);
    AuthoritiesSingle();
    JsonRoundTrips(typeSpec, "typespec", d.typeSpec);
    TypeSpecRead(json, "json-schema-openapi", d.json, letters);
    TypeSpecRead(typeSpec, SHADOW, d.jsonShadow, letters);
    WitnessedWellFormed(json);
    WitnessedKeysKnown(json);
    WitnessedKeysKnown(typeSpec);
    JsonRoundTrips(Witnessed(json), "json-schema-openapi-via-typespec-shadow", d.typeSpecShadow);
  }

  // ----- when the run passes

  /** The models that both witnesses carry without loss. */
  ghost predicate Carried(m: Model, letters: Letters) {
    WellFormed(m) && Survives(m, letters)
  }

  /** With models that are carried nothing is lost: the run reports the peer mismatch, if any, and no more. */
  lemma NothingLost(typeSpec: Model, json: Model, d: Digests, lower: Lowering, letters: Letters)
    requires Carried(typeSpec, letters) && Carried(json, letters) && SingleLine(d)
    ensures KeysKnown(typeSpec) && KeysKnown(json)
    ensures Run(typeSpec, json, d, lower, letters) == Ok(CompareModels(typeSpec, json, PeerMismatch, lower))
  {
    hide Canonical, Run, Witnessed, CanBeRead, WellFormed, Notated, KeysKnown, AllPlain, KeysPresent, ValuesPlain;
    RunExact(typeSpec, json, d, lower, letters);
    ReadWholeIff(typeSpec, letters);
    ReadWholeIff(json, letters);
    WitnessedSame(typeSpec);
    WitnessedSame(json);
    var peer := CompareModels(typeSpec, json, PeerMismatch, lower);
    assert peer + [] + [] + [] == peer;
  }

  lemma TypeSpecCarried(typeSpec: Model, json: Model, d: Digests, lower: Lowering, letters: Letters)
    requires KeysKnown(typeSpec) && KeysKnown(json) && SingleLine(d)
    ensures Run(typeSpec, json, d, lower, letters) == Ok([]) ==> Carried(typeSpec, letters)
  {
    hide Canonical, RenderJson, RenderTypeSpec, ParseJson, ParseTypeSpec, WellFormed, Survives, KeysKnown,
      Visible;
    AuthoritiesSingle();
    var name := SHADOW;
    JsonRoundTripsIff(typeSpec, "typespec", d.typeSpec);
    TypeSpecRoundTripsIff(typeSpec, name, d.jsonShadow, letters);
    if Run(typeSpec, json, d, lower, letters) == Ok([]) {
      var shadow := ParseJson(RenderJson(typeSpec, "typespec", d.typeSpec).value).value;
      FieldsShow(typeSpec, shadow, lower);
      assert shadow == typeSpec;
      CanonicalShows(typeSpec, ParseTypeSpec(RenderTypeSpec(typeSpec, name, d.jsonShadow).value, letters).value, lower);
    }
  }

  lemma FieldsShow(m: Model, n: Model, lower: Lowering)
    requires KeysKnown(m) && KeysKnown(n) && Canonical(m, lower) == Canonical(n, lower)
    ensures m.fields == n.fields
  {
    CanonicalShows(m, n, lower);
  }

  lemma JsonCarried(typeSpec: Model, json: Model, d: Digests, lower: Lowering, letters: Letters)
    requires KeysKnown(typeSpec) && KeysKnown(json) && SingleLine(d)
    ensures Run(typeSpec, json, d, lower, letters) == Ok([]) ==> Carried(json, letters)
  {
    hide Canonical, RenderJson, RenderTypeSpec, ParseJson, ParseTypeSpec, WellFormed, Survives, KeysKnown,
      Visible;
    AuthoritiesSingle();
    var name, back := "json-schema-openapi", "json-schema-openapi-via-typespec-shadow";
    TypeSpecRoundTripsIff(json, name, d.json, letters);
    JsonRoundTripsIff(json, back, d.typeSpecShadow);
    if Run(typeSpec, json, d, lower, letters) == Ok([]) {
      var shadow := ParseTypeSpec(RenderTypeSpec(json, name, d.json).value, letters).value;
      CanonicalShows(json, shadow, lower);
      assert shadow == json;
      FieldsShow(json, ParseJson(RenderJson(json, back, d.typeSpecShadow).value).value, lower);
    }
  }

  /** The run passes exactly when both models are carried and their canonical forms agree. */
  lemma RunPassesIff(typeSpec: Model, json: Model, d: Digests, lower: Lowering, letters: Letters)
    requires KeysKnown(typeSpec) && KeysKnown(json) && SingleLine(d)
    ensures Run(typeSpec, json, d, lower, letters) == Ok([]) <==>
      Carried(typeSpec, letters) && Carried(json, letters) && Canonical(typeSpec, lower) == Canonical(json, lower)
  {
    hide Run, Canonical, Carried, KeysKnown;
    if Carried(typeSpec, letters) && Carried(json, letters) {
      NothingLost(typeSpec, json, d, lower, letters);
    }
    TypeSpecCarried(typeSpec, json, d, lower, letters);
    JsonCarried(typeSpec, json, d, lower, letters);
  }

  /** If no two fields share a column, a passing run means that the authorities say the same. */
  lemma PassingMeansEqual(typeSpec: Model, json: Model, d: Digests, lower: Lowering, letters: Letters)
    requires KeysKnown(typeSpec) && KeysKnown(json) && SingleLine(d)
    requires ColumnsDiffer(typeSpec.fields, lower)
    ensures Run(typeSpec, json, d, lower, letters) == Ok([]) <==> Carried(typeSpec, letters) && typeSpec == json
  {
    hide Run, Canonical, Carried, ColumnsDiffer, KeysKnown;
    RunPassesIff(typeSpec, json, d, lower, letters);
    if Canonical(typeSpec, lower) == Canonical(json, lower) {
      CanonicalDetermines(typeSpec, json, lower);
    }
  }

  // ----- from the texts of the authorities

  /** What agrees with a model in the notation's terms is in them too. */
  lemma AgreeingIsNotated(typeSpec: Model, json: Model)
    requires Notated(typeSpec) && !Visible(typeSpec, json) && KeysKnown(json)
    ensures Notated(json)
  {
    hide IsIdent, IsValue, Agree, FieldOk, AllFree, IsScalar, KeysKnown;
  }

  lemma NotatedEnumsNamed(m: Model)
    requires Notated(m)
    ensures EnumsNamed(m)
  {
    hide IsIdent, IsValue, Agree, AllFree, IsScalar, KeysKnown;
  }

  lemma AgreeingIsWellFormed(typeSpec: Model, json: Model)
    requires WellFormed(json) && !Visible(typeSpec, json)
    ensures EnumsApart(typeSpec) && DistinctNames(typeSpec.fields)
  {
    hide KeysKnown, Agree, FieldOk;
  }

  lemma AgreeingHasKeys(typeSpec: Model, json: Model)
    requires |typeSpec.primaryKey| == |json.primaryKey| && |typeSpec.unique| == |json.unique|
    requires forall i :: 0 <= i < |json.unique| ==> |typeSpec.unique[i]| == |json.unique[i]|
    ensures KeysPresent(typeSpec) ==> KeysPresent(json)
  {
    if KeysPresent(typeSpec) {
      forall g | g in json.unique ensures g != [] {
        var i :| 0 <= i < |json.unique| && json.unique[i] == g;
        assert typeSpec.unique[i] in typeSpec.unique;
      }
    }
  }

  /** Models that agree, each in the terms of its authority, are both carried if the first one survives. */
  lemma AgreeingAreCarried(typeSpec: Model, json: Model, lower: Lowering, letters: Letters)
    requires Survives(typeSpec, letters) && KeysKnown(json) && (EnumsNamed(json) ==> WellFormed(json))
    requires EnumsApart(typeSpec) && DistinctNames(typeSpec.fields) ==> WellFormed(typeSpec)
    requires KeysKnown(typeSpec) && Canonical(typeSpec, lower) == Canonical(json, lower)
    ensures Carried(typeSpec, letters) && Carried(json, letters)
  {
    hide Canonical, KeysPresent, Notated, WellFormed, KeysKnown, EnumsNamed, EnumsApart, DistinctNames, Shown, TableReads,
      Undeclared, ValuesUndeclared;
    CanonicalShows(typeSpec, json, lower);
    AgreeingIsNotated(typeSpec, json);
    NotatedEnumsNamed(json);
    AgreeingIsWellFormed(typeSpec, json);
    AgreeingHasKeys(typeSpec, json);
    assert ValuesPlain(json) && NoOtherModel(json, letters);
  }

  /** Objects hold each key once, as they do when they are loaded. */
  ghost predicate IsLoaded(doc: Members) {
    hide *;
    PropertiesOf(doc).Ok? ==> Dictionary(PropertiesOf(doc).value)
  }

  /** Both authorities can be read and agree, and what the first one says survives. */
  ghost predicate AuthoritiesAgree(source: string, doc: Members, lower: Lowering, letters: Letters) {
    hide *;
    var typeSpec, json := ParseTypeSpec(source, letters), ParseJson(doc);
    && typeSpec.Ok? && json.Ok? && Canonical(typeSpec.value, lower) == Canonical(json.value, lower)
    && IsValue(typeSpec.value.table) && KeysPresent(typeSpec.value) && ValuesPlain(typeSpec.value)
    && TableReads(typeSpec.value.table, letters) && NoOtherModel(typeSpec.value, letters)
  }

  /** For every TypeSpec source and every schema document, the run passes exactly when the authorities agree. */
  lemma AuthoritiesPassIff(source: string, doc: Members, d: Digests, lower: Lowering, letters: Letters)
    requires SingleLine(d) && IsLoaded(doc)
    ensures RunAuthorities(source, doc, d, lower, letters) == Ok([]) <==> AuthoritiesAgree(source, doc, lower, letters)
  {
    hide ParseTypeSpec, ParseJson, PropertiesOf, Dictionary, Canonical, KeysPresent, Declared, WellFormed, KeysKnown,
      Run, ValuesPlain, EnumsNamed, EnumsApart, DistinctNames, TableReads, NoOtherModel, IsValue, IsBlank, SingleLine;
    if ParseTypeSpec(source, letters).Ok? && ParseJson(doc).Ok? {
      var typeSpec, json := ParseTypeSpec(source, letters).value, ParseJson(doc).value;
      RunPassesIff(typeSpec, json, d, lower, letters);
      ReadIsDeclared(source, letters);
      ReadIsWellFormedIff(doc);
      if AuthoritiesAgree(source, doc, lower, letters) {
        AgreeingAreCarried(typeSpec, json, lower, letters);
      }
    }
  }
}
