/** What the JSON Schema reader can return, and exactly which models the JSON witness carries. */
module JsonTheorem {
  import opened Prelude
  import opened Text
  import opened SchemaModel
  import opened JsonWitness
  import opened JsonRoundTrip

  // ----- what is read

  /** Each key occurs once, as in every object that was loaded. */
  ghost predicate Dictionary(o: Members) {
    forall i, j :: 0 <= i < j < |o| ==> o[i].0 != o[j].0
  }

  /** The properties of the model that a document refers to. */
  function PropertiesOf(doc: Members): Result<Members, TranslateError> {
    var defs :- AsObject(Get(doc, "$defs"), MissingDefs);
    var name :- RefName(Get(doc, "$ref"), RootRefInvalid);
    var model :- AsObject(Get(defs, name), MissingObject);
    AsObject(Get(model, "properties"), MissingProperties)
  }

  lemma {:induction false} AfterSlashNoSlash(s: string)
    ensures Free(AfterSlash(s), '/')
  {
    if s == [] || s[|s| - 1] == '/' {
    } else {
      AfterSlashNoSlash(s[..|s| - 1]);
    }
  }

  lemma RefNoSlash(j: Option<Json>, e: TranslateError)
    ensures RefName(j, e).Ok? ==> Free(RefName(j, e).value, '/')
  {
    if j.Some? && j.value.JStr? {
      AfterSlashNoSlash(j.value.str);
    }
  }

  /** A scalar without enum data, or an enum with the values its definition lists. */
  ghost predicate IsRead(defs: Members, f: Field) {
    if f.logicalType == "enum"
    then f.enumName.Some? && Free(f.enumName.value, '/') && EnumValues(defs, f.enumName.value) == Ok(f.enumValues)
    else IsScalar(f.logicalType) && f.enumName.None? && f.enumValues == []
  }

  lemma ScalarNames()
    ensures "string" != "enum" && "utcDateTime" != "enum" && "int32" != "enum"
  {
    assert "string"[0] == 's' && "utcDateTime"[0] == 'u' && "int32"[0] == 'i' && "enum"[0] == 'e';
  }

  lemma PropertyShape(defs: Members, required: set<string>, name: string, prop: Json)
    ensures var r := ParseProperty(defs, required, name, prop);
      r.Ok? ==> r.value.name == name && IsRead(defs, r.value)
  {
    hide EnumValues, Get, RefName;
    ScalarNames();
    if prop.JObj? {
      RefNoSlash(Get(prop.members, "$ref"), PropertyRefInvalid);
    }
  }

  lemma {:induction false} FieldsShape(defs: Members, required: set<string>, props: Members)
    ensures var r := ParseFields(defs, required, props);
      r.Ok? ==>
        && |r.value| == |props|
        && forall i :: 0 <= i < |props| ==> r.value[i].name == props[i].0 && IsRead(defs, r.value[i])
  {
    hide ParseProperty, IsRead;
    if props == [] {
    } else {
      var n := |props| - 1;
      FieldsShape(defs, required, props[..n]);
      PropertyShape(defs, required, props[n].0, props[n].1);
    }
  }

  /** Where the parts of a model that was read come from. */
  lemma Origin(doc: Members) returns (defs: Members, required: set<string>, model: Members)
    requires ParseJson(doc).Ok?
    ensures var m := ParseJson(doc).value;
      && RefName(Get(doc, "$ref"), RootRefInvalid) == Ok(m.name)
      && Get(defs, m.name) == Some(JObj(model)) && Get(model, "type") == Some(JStr("object"))
      && PropertiesOf(doc).Ok? && ParseFields(defs, required, PropertiesOf(doc).value) == Ok(m.fields)
      && m.table != [] && KeysKnown(m)
  {
    hide Get, RefName, ParseFields, ParseRequired, KeysKnown;
    defs := AsObject(Get(doc, "$defs"), MissingDefs).value;
    var name := RefName(Get(doc, "$ref"), RootRefInvalid).value;
    model := AsObject(Get(defs, name), MissingObject).value;
    required := ParseRequired(model).value;
  }

  lemma ObjectIsNoEnum(defs: Members, name: string, model: Members)
    requires Get(defs, name) == Some(JObj(model)) && Get(model, "type") == Some(JStr("object"))
    ensures EnumValues(defs, name).Err?
  {
    hide Get;
    assert "object"[0] == 'o' && "string"[0] == 's';
  }

  lemma ReadFieldsFit(defs: Members, name: string, fields: seq<Field>)
    requires forall f :: f in fields ==> IsRead(defs, f)
    requires EnumValues(defs, name).Err?
    ensures Agree(fields)
    ensures forall f :: f in fields ==>
      && (FieldOk(f) <==> f.logicalType != "enum" || f.enumName != Some(""))
      && (IsEnum(f) ==> Free(f.enumName.value, '/') && f.enumName.value != name)
  {
    hide IsScalar;
    forall f | f in fields && f.logicalType == "enum" ensures f.enumValues != [] {
      EnumValuesSome(defs, f.enumName.value);
    }
    hide EnumValues;
  }

  lemma EnumValuesSome(defs: Members, name: string)
    ensures EnumValues(defs, name).Ok? ==> EnumValues(defs, name).value != []
  {
    hide Get;
  }

  /** An enum without a name can be read, though not printed. */
  ghost predicate EnumsNamed(m: Model) {
    forall f :: f in m.fields && f.logicalType == "enum" ==> f.enumName != Some("")
  }

  /** Whatever the document, the model read from it is well-formed exactly when its enums have names. */
  lemma ReadIsWellFormedIff(doc: Members)
    requires PropertiesOf(doc).Ok? ==> Dictionary(PropertiesOf(doc).value)
    ensures ParseJson(doc).Ok? ==> (WellFormed(ParseJson(doc).value) <==> EnumsNamed(ParseJson(doc).value))
  {
    hide ParseJson, PropertiesOf, Get, RefName, ParseFields, EnumValues, IsRead, KeysKnown, FieldOk, Agree;
    if ParseJson(doc).Ok? {
      var m := ParseJson(doc).value;
      var defs, required, model := Origin(doc);
      var props := PropertiesOf(doc).value;
      RefNoSlash(Get(doc, "$ref"), RootRefInvalid);
      FieldsShape(defs, required, props);
      assert DistinctNames(m.fields);
      ObjectIsNoEnum(defs, m.name, model);
      ReadFieldsFit(defs, m.name, m.fields);
    }
  }

  // ----- what is printed

  lemma StringsInjective(a: seq<string>, b: seq<string>)
    requires Strings(a) == Strings(b)
    ensures a == b
  {
    StringsBack(a);
    StringsBack(b);
  }

  lemma EnumDefInjective(f: Field, g: Field)
    requires EnumDef(f) == EnumDef(g)
    ensures f.enumValues == g.enumValues
  {
    hide Strings;
    assert EnumDef(f).members[1].1 == EnumDef(g).members[1].1;
    StringsInjective(f.enumValues, g.enumValues);
  }

  /** Definitions that were accepted define every enum with the values of every field that uses it. */
  lemma {:induction false} EnumDefsDefine(fields: seq<Field>)
    requires EnumDefs(fields).Ok?
    ensures forall f :: f in fields && IsEnum(f) ==>
      Get(EnumDefs(fields).value, f.enumName.value) == Some(EnumDef(f))
  {
    hide Get, Put, EnumDef;
    if fields == [] {
    } else {
      var rest, f := fields[..|fields| - 1], fields[|fields| - 1];
      assert fields == rest + [f];
      EnumDefsDefine(rest);
      var before, defs := EnumDefs(rest).value, EnumDefs(fields).value;
      if IsEnum(f) {
        forall g | g in fields && IsEnum(g) ensures Get(defs, g.enumName.value) == Some(EnumDef(g)) {
          GetPut(before, f.enumName.value, EnumDef(f), g.enumName.value);
        }
      }
    }
  }

  /** The definitions are refused exactly when two fields disagree on an enum. */
  lemma EnumDefsIff(fields: seq<Field>)
    ensures EnumDefs(fields).Ok? <==> Agree(fields)
    ensures EnumDefs(fields).Err? ==> EnumDefs(fields).error == InconsistentEnum
  {
    hide Get, Put, EnumDef;
    if Agree(fields) {
      EnumDefsComplete(fields);
    }
    if EnumDefs(fields).Ok? {
      EnumDefsDefine(fields);
      forall f, g | f in fields && g in fields && IsEnum(f) && IsEnum(g) && f.enumName == g.enumName
        ensures f.enumValues == g.enumValues
      {
        EnumDefInjective(f, g);
      }
    }
    EnumDefsError(fields);
  }

  lemma {:induction false} EnumDefsError(fields: seq<Field>)
    ensures EnumDefs(fields).Err? ==> EnumDefs(fields).error == InconsistentEnum
  {
    if fields == [] {
    } else {
      EnumDefsError(fields[..|fields| - 1]);
    }
  }

  lemma {:induction false} PutDictionary(o: Members, key: string, v: Json)
    requires Dictionary(o)
    ensures Dictionary(Put(o, key, v))
    ensures forall e :: e in Put(o, key, v) ==> e.0 == key || e in o
  {
    if o == [] || o[0].0 == key {
    } else {
      PutDictionary(o[1..], key, v);
      var rest := Put(o[1..], key, v);
      forall j | 0 <= j < |rest| ensures rest[j].0 != o[0].0 {
        assert rest[j] in rest;
      }
    }
  }

  lemma {:induction false} PropertiesShape(fields: seq<Field>)
    requires Properties(fields).Ok?
    ensures Dictionary(Properties(fields).value)
    ensures forall f :: f in fields ==> JsonProperty(f).Ok?
  {
    hide JsonProperty, Put, Dictionary;
    if fields == [] {
      assert Dictionary([]) by { NoMembersTwice(); }
    } else {
      var n := |fields| - 1;
      PropertiesShape(fields[..n]);
      PutDictionary(Properties(fields[..n]).value, fields[n].name, JsonProperty(fields[n]).value);
      assert fields == fields[..n] + [fields[n]];
    }
  }

  lemma NoMembersTwice()
    ensures Dictionary([])
  {}

  lemma PrintedEnumsNamed(m: Model)
    requires forall f :: f in m.fields ==> JsonProperty(f).Ok?
    ensures EnumsNamed(m)
  {
    ScalarNames();
  }

  lemma EnumDefIsNoObject(f: Field, name: string, defs: Members)
    requires Get(defs, name) == Some(EnumDef(f))
    ensures EnumDef(f).JObj? && Get(EnumDef(f).members, "type") != Some(JStr("object"))
  {
    hide Strings;
    assert "object"[0] == 'o' && "string"[0] == 's';
  }

  /** The only object among the definitions is the model. */
  lemma ModelDefinition(m: Model, shape: Json, name: string, model: Members)
    requires EnumDefs(m.fields).Ok?
    requires Get(Put(EnumDefs(m.fields).value, m.name, shape), name) == Some(JObj(model))
    requires Get(model, "type") == Some(JStr("object"))
    ensures name == m.name && shape == JObj(model)
  {
    hide Get, Put, EnumDef, EnumDefs;
    var enums := EnumDefs(m.fields).value;
    GetPut(enums, m.name, shape, name);
    EnumDefsIff(m.fields);
    EnumDefsComplete(m.fields);
    if name != m.name {
      var f :| f in m.fields && IsEnum(f) && f.enumName.value == name && Get(enums, name).value == EnumDef(f);
      EnumDefIsNoObject(f, name, enums);
      assert false;
    }
  }

  /** Where a model read from a model's own definition got its parts. */
  lemma ObjectKept(m: Model, props: Members, defs: Members)
    ensures var r := ParseObject(m.name, defs, ModelMembers(m, props));
      r.Ok? ==> r.value == Model(m.name, m.table, m.primaryKey, m.unique, r.value.fields)
  {
    hide Get, ModelMembers, SqlMembers, ParseSql, ParseFields, ParseRequired, Keys;
    ModelKeys(m, props);
    var o := ModelMembers(m, props);
    if ParseObject(m.name, defs, o).Ok? {
      var fields := ParseFields(defs, ParseRequired(o).value, props).value;
      SqlBack(m, m.name, fields);
    }
  }

  /** What is read back from a printed model has its name, table and keys, and no field twice. */
  lemma PrintedRead(m: Model, authority: string, digest: string)
    requires RenderJson(m, authority, digest).Ok? && ParseJson(RenderJson(m, authority, digest).value).Ok?
    ensures var doc := RenderJson(m, authority, digest).value;
      var n := ParseJson(doc).value;
      && n == Model(m.name, m.table, m.primaryKey, m.unique, n.fields)
      && PropertiesOf(doc).Ok? && Dictionary(PropertiesOf(doc).value) && EnumsNamed(m)
  {
    hide Get, Put, EnumDefs, Properties, ModelMembers, DocumentMembers, RefName, ParseObject, Dictionary, EnumsNamed,
      JsonProperty;
    var props := Properties(m.fields).value;
    var shape := JObj(ModelMembers(m, props));
    var defs := Put(EnumDefs(m.fields).value, m.name, shape);
    var doc := RenderJson(m, authority, digest).value;
    DocumentKeys(m.name, defs, authority, digest);
    PropertiesShape(m.fields);
    PrintedEnumsNamed(m);
    var name := RefName(Get(doc, "$ref"), RootRefInvalid).value;
    var model := AsObject(Get(defs, name), MissingObject).value;
    assert ParseJson(doc) == ParseObject(name, defs, model);
    ObjectTyped(name, defs, model);
    ModelDefinition(m, shape, name, model);
    ObjectKept(m, props, defs);
    ModelKeys(m, props);
  }

  lemma ObjectTyped(name: string, defs: Members, model: Members)
    requires ParseObject(name, defs, model).Ok?
    ensures Get(model, "type") == Some(JStr("object"))
  {
    hide Get, ParseFields, ParseSql, ParseRequired;
  }

  /**
   A model is printed as a schema and read back unchanged exactly when it is well-formed. Otherwise
   printing or reading fails, or the fields that come back differ.
   */
  lemma JsonRoundTripsIff(m: Model, authority: string, digest: string)
    requires KeysKnown(m)
    ensures var doc := RenderJson(m, authority, digest);
      && (doc.Ok? && ParseJson(doc.value) == Ok(m) <==> WellFormed(m))
      && (doc.Ok? && !WellFormed(m) ==> ParseJson(doc.value).Err? || ParseJson(doc.value).value.fields != m.fields)
  {
    hide WellFormed, RenderJson, ParseJson, PropertiesOf, Dictionary, EnumsNamed, KeysKnown;
    var doc := RenderJson(m, authority, digest);
    if WellFormed(m) {
      JsonRoundTrips(m, authority, digest);
    } else if doc.Ok? && ParseJson(doc.value).Ok? {
      PrintedRead(m, authority, digest);
      ReadIsWellFormedIff(doc.value);
    }
  }

  /** Reading any document, printing the model and reading that gives the same model, if enums have names. */
  lemma ReadingIsStable(doc: Members, authority: string, digest: string)
    requires PropertiesOf(doc).Ok? ==> Dictionary(PropertiesOf(doc).value)
    ensures ParseJson(doc).Ok? ==>
      var m := ParseJson(doc).value;
      var printed := RenderJson(m, authority, digest);
      printed.Ok? && ParseJson(printed.value) == Ok(m) <==> EnumsNamed(m)
  {
    hide WellFormed, RenderJson, ParseJson, PropertiesOf, Dictionary, EnumsNamed, KeysKnown;
    if ParseJson(doc).Ok? {
      ReadIsWellFormedIff(doc);
      JsonRoundTripsIff(ParseJson(doc).value, authority, digest);
    }
  }

  // ----- the loops of the printer and the reader

  /**
   The enum definitions: refused exactly when two fields disagree on an enum's values, and
   otherwise one for each enum, with its values.
   */
  method BuildEnumDefs(fields: seq<Field>) returns (r: Result<Members, TranslateError>)
    ensures r == EnumDefs(fields)
    ensures if Agree(fields) then r.Ok? else r == Err(InconsistentEnum)
    ensures r.Ok? ==> Dictionary(r.value) && DefsFrom(r.value, fields)
    ensures r.Ok? ==> forall f :: f in fields && IsEnum(f) ==> Get(r.value, f.enumName.value) == Some(EnumDef(f))
  {
    hide Get, Put, EnumDef, Dictionary, Agree;
    EnumDefsIff(fields);
    if Agree(fields) {
      EnumDefsComplete(fields);
    }
    var defs := [];
    assert fields[..0] == [];
    NoMembersTwice();
    for i := 0 to |fields|
      invariant EnumDefs(fields[..i]) == Ok(defs)
      invariant Dictionary(defs)
    {
      var f := fields[i];
      assert fields[..i + 1][..i] == fields[..i];
      if IsEnum(f) {
        var current := Get(defs, f.enumName.value);
        if current.Some? && current.value != EnumDef(f) {
          EnumDefsFail(fields, i + 1);
          return Err(InconsistentEnum);
        }
        PutDictionary(defs, f.enumName.value, EnumDef(f));
        defs := Put(defs, f.enumName.value, EnumDef(f));
      }
    }
    assert fields[..|fields|] == fields;
    return Ok(defs);
  }

  lemma {:induction false} EnumDefsFail(fields: seq<Field>, n: nat)
    requires n <= |fields| && EnumDefs(fields[..n]).Err?
    ensures EnumDefs(fields) == EnumDefs(fields[..n])
    decreases |fields| - n
  {
    if n == |fields| {
      assert fields[..n] == fields;
    } else {
      assert fields[..n + 1][..n] == fields[..n];
      EnumDefsFail(fields, n + 1);
    }
  }

  /** The fields in the order of the properties, or the error of the first property that has one. */
  method ReadFields(defs: Members, required: set<string>, props: Members)
    returns (r: Result<seq<Field>, TranslateError>)
    ensures r == ParseFields(defs, required, props)
    ensures r.Ok? ==>
      && |r.value| == |props|
      && forall i :: 0 <= i < |props| ==> ParseProperty(defs, required, props[i].0, props[i].1) == Ok(r.value[i])
    ensures r.Err? ==>
      exists i :: 0 <= i < |props| && ParseProperty(defs, required, props[i].0, props[i].1) == Err(r.error)
                  && forall j :: 0 <= j < i ==> ParseProperty(defs, required, props[j].0, props[j].1).Ok?
  {
    hide ParseProperty;
    var fields := [];
    assert props[..0] == [];
    for i := 0 to |props|
      invariant ParseFields(defs, required, props[..i]) == Ok(fields)
      invariant |fields| == i
      invariant forall j :: 0 <= j < i ==> ParseProperty(defs, required, props[j].0, props[j].1) == Ok(fields[j])
    {
      assert props[..i + 1][..i] == props[..i];
      var f := ParseProperty(defs, required, props[i].0, props[i].1);
      if f.Err? {
        ParseFieldsFail(defs, required, props, i + 1);
        return Err(f.error);
      }
      fields := fields + [f.value];
    }
    assert props[..|props|] == props;
    return Ok(fields);
  }

  lemma {:induction false} ParseFieldsFail(defs: Members, required: set<string>, props: Members, n: nat)
    requires n <= |props| && ParseFields(defs, required, props[..n]).Err?
    ensures ParseFields(defs, required, props) == ParseFields(defs, required, props[..n])
    decreases |props| - n
  {
    if n == |props| {
      assert props[..n] == props;
    } else {
      assert props[..n + 1][..n] == props[..n];
      ParseFieldsFail(defs, required, props, n + 1);
    }
  }
}
