/** Reading back what was printed: the JSON Schema witness loses nothing. */
module JsonRoundTrip {
  import opened Prelude
  import opened Text
  import opened SchemaModel
  import opened JsonWitness

  // ----- enum definitions

  /** Every definition is that of some enum field. */
  ghost predicate DefsFrom(defs: Members, fields: seq<Field>) {
    forall k :: Get(defs, k).Some? ==>
      exists f :: f in fields && IsEnum(f) && f.enumName.value == k && Get(defs, k).value == EnumDef(f)
  }

  /** Consistent enums are all defined, each with its values. */
  lemma {:induction false} EnumDefsComplete(fields: seq<Field>)
    requires Agree(fields)
    ensures EnumDefs(fields).Ok? && DefsFrom(EnumDefs(fields).value, fields)
    ensures forall f :: f in fields && IsEnum(f) ==>
      Get(EnumDefs(fields).value, f.enumName.value) == Some(EnumDef(f))
  {
    hide EnumDef, Get, Put;
    if fields == [] {
      NoMembers();
    } else {
      var rest, f := fields[..|fields| - 1], fields[|fields| - 1];
      assert fields == rest + [f];
      assert forall g :: g in rest ==> g in fields;
      EnumDefsComplete(rest);
      var before := EnumDefs(rest).value;
      if IsEnum(f) {
        SameDefinition(before, rest, f);
        assert EnumDefs(fields).Ok?;
        PutDefined(before, rest, f);
      } else {
        assert EnumDefs(fields).value == before;
      }
    }
  }

  lemma NoMembers()
    ensures forall k :: Get([], k).None?
  {}

  lemma SameDefinition(defs: Members, rest: seq<Field>, f: Field)
    requires DefsFrom(defs, rest) && Agree(rest + [f]) && IsEnum(f)
    ensures Get(defs, f.enumName.value).Some? ==> Get(defs, f.enumName.value).value == EnumDef(f)
  {
    hide Get;
    if Get(defs, f.enumName.value).Some? {
      var g :| g in rest && IsEnum(g) && g.enumName.value == f.enumName.value
               && Get(defs, f.enumName.value).value == EnumDef(g);
      assert g in rest + [f] && f in rest + [f];
      assert f.enumName == g.enumName;
    }
  }

  lemma PutDefined(before: Members, rest: seq<Field>, f: Field)
    requires DefsFrom(before, rest) && Agree(rest + [f]) && IsEnum(f)
    requires forall g :: g in rest && IsEnum(g) ==> Get(before, g.enumName.value) == Some(EnumDef(g))
    ensures var defs := Put(before, f.enumName.value, EnumDef(f));
      && DefsFrom(defs, rest + [f])
      && forall g :: g in rest + [f] && IsEnum(g) ==> Get(defs, g.enumName.value) == Some(EnumDef(g))
  {
    hide Get, Put;
    var defs := Put(before, f.enumName.value, EnumDef(f));
    forall k ensures Get(defs, k) == if k == f.enumName.value then Some(EnumDef(f)) else Get(before, k) {
      GetPut(before, f.enumName.value, EnumDef(f), k);
    }
    forall k | Get(defs, k).Some?
      ensures exists g :: g in rest + [f] && IsEnum(g) && g.enumName.value == k && Get(defs, k).value == EnumDef(g)
    {
      if k == f.enumName.value {
        assert f in rest + [f];
      } else {
        var g :| g in rest && IsEnum(g) && g.enumName.value == k && Get(before, k).value == EnumDef(g);
        assert g in rest + [f];
      }
    }
    forall g | g in rest + [f] && IsEnum(g) ensures Get(defs, g.enumName.value) == Some(EnumDef(g)) {
      if g.enumName.value == f.enumName.value {
        assert f in rest + [f] && g.enumName == f.enumName;
      } else {
        assert g in rest;
      }
    }
  }

  // ----- properties

  ghost predicate Lists(props: Members, fields: seq<Field>) {
    && |props| == |fields|
    && forall i :: 0 <= i < |fields| ==>
         JsonProperty(fields[i]).Ok? && props[i] == (fields[i].name, JsonProperty(fields[i]).value)
  }

  lemma ScalarOrEnum(f: Field)
    requires FieldOk(f)
    ensures JsonProperty(f).Ok?
  {}

  /** Fields with distinct names become one property each, in order. */
  lemma {:induction false} PropertiesList(fields: seq<Field>)
    requires DistinctNames(fields) && forall f :: f in fields ==> FieldOk(f)
    ensures Properties(fields).Ok? && Lists(Properties(fields).value, fields)
  {
    hide JsonProperty, FieldOk, Put;
    if fields == [] {
    } else {
      var n := |fields| - 1;
      var rest, f := fields[..n], fields[n];
      assert f in fields && forall g :: g in rest ==> g in fields;
      PropertiesList(rest);
      ScalarOrEnum(f);
      NameIsNew(Properties(rest).value, fields);
      PutNew(Properties(rest).value, f.name, JsonProperty(f).value);
    }
  }

  lemma NameIsNew(props: Members, fields: seq<Field>)
    requires fields != [] && DistinctNames(fields) && Lists(props, fields[..|fields| - 1])
    ensures forall e :: e in props ==> e.0 != fields[|fields| - 1].name
  {
    hide JsonProperty;
    forall e | e in props ensures e.0 != fields[|fields| - 1].name {
      var i :| 0 <= i < |props| && props[i] == e;
      assert props[i].0 == fields[i].name;
    }
  }

  lemma {:induction false} RequiredMember(fields: seq<Field>)
    ensures forall k :: k in Required(fields) <==> exists f :: f in fields && !f.nullable && f.name == k
  {
    if fields == [] {
    } else {
      var rest, f := fields[..|fields| - 1], fields[|fields| - 1];
      RequiredMember(rest);
      assert fields == rest + [f];
      forall k ensures k in Required(fields) <==> exists g :: g in fields && !g.nullable && g.name == k {
        if k in Required(rest) {
          var g :| g in rest && !g.nullable && g.name == k;
          assert g in fields;
        } else if k in Required(fields) {
          assert f in fields;
        }
      }
    }
  }

  lemma RequiredExact(fields: seq<Field>, f: Field)
    requires DistinctNames(fields) && f in fields
    ensures f.name in Required(fields) <==> !f.nullable
  {
    RequiredMember(fields);
    if f.name in Required(fields) {
      var g :| g in fields && !g.nullable && g.name == f.name;
      var i :| 0 <= i < |fields| && fields[i] == f;
      var j :| 0 <= j < |fields| && fields[j] == g;
    }
  }

  lemma EnumValuesBack(defs: Members, f: Field)
    requires f.enumName.Some? && f.enumValues != []
    requires Get(defs, f.enumName.value) == Some(EnumDef(f))
    ensures EnumValues(defs, f.enumName.value) == Ok(f.enumValues)
  {
    StringsBack(f.enumValues);
    var e := EnumDef(f).members;
    assert Get(e, "type") == Some(JStr("string"));
    assert e[1..][0].0 == "enum" && "type" != "enum";
    assert Get(e, "enum") == Get(e[1..], "enum") == Some(JArr(Strings(f.enumValues)));
  }

  lemma LiteralKeys()
    ensures "type" != "$ref" && "type" != "format" && "type" != "minimum" && "type" != "maximum"
    ensures "format" != "$ref" && "minimum" != "$ref" && "maximum" != "$ref"
    ensures "minimum" != "format" && "maximum" != "format" && "minimum" != "maximum"
    ensures "string" != "integer"
  {
    assert "type"[0] == 't' && "$ref"[0] == '$' && "format"[0] == 'f';
    assert "minimum"[1] == 'i' && "maximum"[1] == 'a';
    assert "string"[0] == 's' && "integer"[0] == 'i';
    assert |"minimum"| == 7 && |"format"| == 6;
  }

  lemma Get1(a: string, x: Json, key: string)
    ensures Get([(a, x)], key) == if a == key then Some(x) else None
  {}

  lemma Get2(a: string, x: Json, b: string, y: Json, key: string)
    ensures Get([(a, x), (b, y)], key) == if a == key then Some(x) else if b == key then Some(y) else None
  {
    assert [(a, x), (b, y)][1..] == [(b, y)];
    Get1(b, y, key);
  }

  lemma Get3(a: string, x: Json, b: string, y: Json, c: string, z: Json, key: string)
    ensures Get([(a, x), (b, y), (c, z)], key)
         == if a == key then Some(x) else if b == key then Some(y) else if c == key then Some(z) else None
  {
    assert [(a, x), (b, y), (c, z)][1..] == [(b, y), (c, z)];
    Get2(b, y, c, z, key);
  }

  /** One property is read back as the field it was printed from. */
  lemma PropertyBack(defs: Members, required: set<string>, f: Field)
    requires FieldOk(f) && (f.name in required <==> !f.nullable)
    requires IsEnum(f) ==> Free(f.enumName.value, '/') && Get(defs, f.enumName.value) == Some(EnumDef(f))
    ensures JsonProperty(f).Ok? && ParseProperty(defs, required, f.name, JsonProperty(f).value) == Ok(f)
  {
    LiteralKeys();
    if f.logicalType == "enum" {
      EnumPropertyBack(defs, required, f);
    } else if f.logicalType == "string" {
      StringPropertyBack(defs, required, f);
    } else if f.logicalType == "utcDateTime" {
      TimePropertyBack(defs, required, f);
    } else {
      IntPropertyBack(defs, required, f);
    }
  }

  lemma EnumPropertyBack(defs: Members, required: set<string>, f: Field)
    requires FieldOk(f) && f.logicalType == "enum" && (f.name in required <==> !f.nullable)
    requires Free(f.enumName.value, '/') && Get(defs, f.enumName.value) == Some(EnumDef(f))
    ensures JsonProperty(f).Ok? && ParseProperty(defs, required, f.name, JsonProperty(f).value) == Ok(f)
  {
    hide EnumDef, EnumValues;
    assert "enum"[0] == 'e' && "string"[0] == 's' && "int32"[0] == 'i' && "utcDateTime"[0] == 'u';
    EnumValuesBack(defs, f);
    RefBack(f.enumName.value, PropertyRefInvalid);
    Get1("$ref", JStr(PREFIX + f.enumName.value), "$ref");
  }

  lemma StringPropertyBack(defs: Members, required: set<string>, f: Field)
    requires FieldOk(f) && f.logicalType == "string" && (f.name in required <==> !f.nullable)
    ensures JsonProperty(f).Ok? && ParseProperty(defs, required, f.name, JsonProperty(f).value) == Ok(f)
  {
    LiteralKeys();
    assert "enum"[0] == 'e' && "string"[0] == 's';
    Get1("type", JStr("string"), "$ref");
    Get1("type", JStr("string"), "type");
    Get1("type", JStr("string"), "format");
  }

  lemma TimePropertyBack(defs: Members, required: set<string>, f: Field)
    requires FieldOk(f) && f.logicalType == "utcDateTime" && (f.name in required <==> !f.nullable)
    ensures JsonProperty(f).Ok? && ParseProperty(defs, required, f.name, JsonProperty(f).value) == Ok(f)
  {
    LiteralKeys();
    assert "enum"[0] == 'e' && "string"[0] == 's' && "utcDateTime"[0] == 'u';
    Get2("type", JStr("string"), "format", JStr("date-time"), "$ref");
    Get2("type", JStr("string"), "format", JStr("date-time"), "type");
    Get2("type", JStr("string"), "format", JStr("date-time"), "format");
  }

  lemma IntPropertyBack(defs: Members, required: set<string>, f: Field)
    requires FieldOk(f) && f.logicalType == "int32" && (f.name in required <==> !f.nullable)
    ensures JsonProperty(f).Ok? && ParseProperty(defs, required, f.name, JsonProperty(f).value) == Ok(f)
  {
    LiteralKeys();
    assert "enum"[0] == 'e' && "string"[0] == 's' && "int32"[0] == 'i' && "utcDateTime"[0] == 'u';
    Get3("type", JStr("integer"), "minimum", JNum(INT32_MIN), "maximum", JNum(INT32_MAX), "$ref");
    Get3("type", JStr("integer"), "minimum", JNum(INT32_MIN), "maximum", JNum(INT32_MAX), "type");
    Get3("type", JStr("integer"), "minimum", JNum(INT32_MIN), "maximum", JNum(INT32_MAX), "format");
    Get3("type", JStr("integer"), "minimum", JNum(INT32_MIN), "maximum", JNum(INT32_MAX), "minimum");
    Get3("type", JStr("integer"), "minimum", JNum(INT32_MIN), "maximum", JNum(INT32_MAX), "maximum");
  }

  /** What the reader needs to know about a field it is about to read. */
  ghost predicate Readable(defs: Members, required: set<string>, f: Field) {
    && FieldOk(f) && (f.name in required <==> !f.nullable)
    && (IsEnum(f) ==> Free(f.enumName.value, '/') && Get(defs, f.enumName.value) == Some(EnumDef(f)))
  }

  lemma {:induction false} FieldsBack(defs: Members, required: set<string>, props: Members, fields: seq<Field>)
    requires Lists(props, fields) && forall f :: f in fields ==> Readable(defs, required, f)
    ensures ParseFields(defs, required, props) == Ok(fields)
  {
    hide Readable, JsonProperty, ParseProperty;
    if props == [] {
    } else {
      var n := |props| - 1;
      assert fields[n] in fields && forall f :: f in fields[..n] ==> f in fields;
      FieldsBack(defs, required, props[..n], fields[..n]);
      ReadableBack(defs, required, fields[n]);
      assert fields == fields[..n] + [fields[n]];
    }
  }

  lemma ReadableBack(defs: Members, required: set<string>, f: Field)
    requires Readable(defs, required, f)
    ensures JsonProperty(f).Ok? && ParseProperty(defs, required, f.name, JsonProperty(f).value) == Ok(f)
  {
    PropertyBack(defs, required, f);
  }

  // ----- the document

  lemma {:induction false} GetAt(o: Members, i: nat, key: string)
    requires i < |o| && o[i].0 == key && forall j :: 0 <= j < i ==> o[j].0 != key
    ensures Get(o, key) == Some(o[i].1)
    decreases i
  {
    if i == 0 {
    } else {
      GetAt(o[1..], i - 1, key);
    }
  }

  lemma DocumentKeys(name: string, defs: Members, authority: string, digest: string)
    ensures var doc := DocumentMembers(name, defs, authority, digest);
      Get(doc, "$ref") == Some(JStr(PREFIX + name)) && Get(doc, "$defs") == Some(JObj(defs))
  {
    hide Comment;
    var doc := DocumentMembers(name, defs, authority, digest);
    assert "$schema"[1] == 's' && "$id"[1] == 'i' && "$comment"[1] == 'c' && "x-ores-witness"[1] == '-';
    assert "$ref"[1] == 'r' && "$defs"[1] == 'd';
    GetAt(doc, 4, "$ref");
    GetAt(doc, 5, "$defs");
  }

  lemma ModelKeys(m: Model, props: Members)
    ensures var o := ModelMembers(m, props);
      && Get(o, "type") == Some(JStr("object"))
      && Get(o, "additionalProperties") == Some(JBool(false))
      && Get(o, "x-ores-sql") == Some(JObj(SqlMembers(m)))
      && Get(o, "properties") == Some(JObj(props))
      && Get(o, "required") == Some(JArr(Strings(Required(m.fields))))
  {
    hide SqlMembers, Strings, Required;
    var o := ModelMembers(m, props);
    assert "type"[0] == 't' && "additionalProperties"[0] == 'a' && "x-ores-sql"[0] == 'x';
    assert "properties"[0] == 'p' && "required"[0] == 'r';
    GetAt(o, 0, "type");
    GetAt(o, 1, "additionalProperties");
    GetAt(o, 2, "x-ores-sql");
    GetAt(o, 3, "properties");
    GetAt(o, 4, "required");
  }

  /** Table and keys come back as they were printed, with whatever name and fields go with them. */
  lemma SqlBack(m: Model, name: string, fields: seq<Field>)
    ensures var read := Model(name, m.table, m.primaryKey, m.unique, fields);
      ParseSql(name, fields, SqlMembers(m))
      == if m.table == [] then Err(TableInvalid) else if KeysKnown(read) then Ok(read) else Err(UnknownKey)
  {
    hide KeysKnown;
    var o := SqlMembers(m);
    assert "table"[0] == 't' && "primaryKey"[0] == 'p' && "unique"[0] == 'u';
    GetAt(o, 0, "table");
    GetAt(o, 1, "primaryKey");
    GetAt(o, 2, "unique");
    StringsBack(m.primaryKey);
    GroupsBack(m.unique);
  }

  ghost function RequiredSet(fields: seq<Field>): set<string> {
    set k | k in Required(fields)
  }

  lemma RequiredBack(m: Model, o: Members)
    requires Get(o, "required") == Some(JArr(Strings(Required(m.fields))))
    ensures ParseRequired(o) == Ok(RequiredSet(m.fields))
  {
    hide Required;
    StringsBack(Required(m.fields));
  }

  lemma RequiredKnown(fields: seq<Field>, props: Members)
    requires Lists(props, fields)
    ensures RequiredSet(fields) <= Keys(props)
  {
    hide JsonProperty, Required;
    RequiredMember(fields);
    forall k | k in Required(fields) ensures k in Keys(props) {
      var f :| f in fields && !f.nullable && f.name == k;
      var i :| 0 <= i < |fields| && fields[i] == f;
      assert props[i] in props && props[i].0 == k;
    }
  }

  lemma AllReadable(m: Model, defs: Members)
    requires WellFormed(m) && EnumDefs(m.fields).Ok?
    requires forall f :: f in m.fields && IsEnum(f) ==> Get(defs, f.enumName.value) == Some(EnumDef(f))
    ensures forall f :: f in m.fields ==> Readable(defs, RequiredSet(m.fields), f)
  {
    hide EnumDef, Get, EnumDefs, Required, KeysKnown, FieldOk;
    forall f | f in m.fields ensures Readable(defs, RequiredSet(m.fields), f) {
      RequiredExact(m.fields, f);
    }
  }

  /** With the model's own definition added, every enum is still defined as it was. */
  lemma DefsWithModel(m: Model, shape: Json)
    requires WellFormed(m)
    ensures EnumDefs(m.fields).Ok?
    ensures var defs := Put(EnumDefs(m.fields).value, m.name, shape);
      && Get(defs, m.name) == Some(shape)
      && forall f :: f in m.fields && IsEnum(f) ==> Get(defs, f.enumName.value) == Some(EnumDef(f))
  {
    hide EnumDef, Get, Put, EnumDefs, KeysKnown, FieldOk;
    EnumDefsComplete(m.fields);
    var enums := EnumDefs(m.fields).value;
    GetPut(enums, m.name, shape, m.name);
    forall f | f in m.fields && IsEnum(f)
      ensures Get(Put(enums, m.name, shape), f.enumName.value) == Some(EnumDef(f))
    {
      GetPut(enums, m.name, shape, f.enumName.value);
    }
  }

  lemma ObjectBack(m: Model, defs: Members, props: Members)
    requires WellFormed(m) && Lists(props, m.fields) && EnumDefs(m.fields).Ok?
    requires forall f :: f in m.fields && IsEnum(f) ==> Get(defs, f.enumName.value) == Some(EnumDef(f))
    ensures ParseObject(m.name, defs, ModelMembers(m, props)) == Ok(m)
  {
    AllReadable(m, defs);
    hide EnumDef, Get, EnumDefs, Required, KeysKnown, FieldOk, ModelMembers, SqlMembers, ParseSql, ParseFields,
      ParseRequired, Lists, Readable, IsEnum;
    var o := ModelMembers(m, props);
    ModelKeys(m, props);
    RequiredBack(m, o);
    RequiredKnown(m.fields, props);
    FieldsBack(defs, RequiredSet(m.fields), props, m.fields);
    SqlBack(m, m.name, m.fields);
  }

  /** Every model both notations can express is printed, and read back unchanged. */
  lemma JsonRoundTrips(m: Model, authority: string, digest: string)
    requires WellFormed(m)
    ensures RenderJson(m, authority, digest).Ok?
    ensures ParseJson(RenderJson(m, authority, digest).value) == Ok(m)
  {
    hide ParseObject, ModelMembers, DocumentMembers, Get, Put, EnumDefs, Properties, EnumDef, RefName, KeysKnown,
      DistinctNames, Agree, FieldOk, Lists;
    PropertiesList(m.fields);
    var props := Properties(m.fields).value;
    var shape := JObj(ModelMembers(m, props));
    DefsWithModel(m, shape);
    var defs := Put(EnumDefs(m.fields).value, m.name, shape);
    ObjectBack(m, defs, props);
    DocumentKeys(m.name, defs, authority, digest);
    RefBack(m.name, RootRefInvalid);
    assert RenderJson(m, authority, digest) == Ok(DocumentMembers(m.name, defs, authority, digest));
  }
}
