/** Which documents the schema reader accepts, and which model each one describes. */
module JsonMeaning {
  import opened Prelude
  import opened Text
  import opened SchemaModel
  import opened JsonWitness
  import opened JsonRoundTrip

  // ----- values

  lemma StringsOf(items: seq<Json>, xs: seq<string>)
    ensures AllStrings(items) && Unstrings(items) == xs <==> items == Strings(xs)
  {
    if AllStrings(items) {
      forall i | 0 <= i < |items| ensures items[i] == JStr(Unstrings(items)[i]) {
        assert items[i] in items;
      }
    }
    if items == Strings(xs) {
      StringsBack(xs);
    }
  }

  lemma GroupsOf(items: seq<Json>, groups: seq<seq<string>>)
    ensures AllGroups(items) && Ungroups(items) == groups <==> items == Groups(groups)
  {
    hide AllStrings, Unstrings, Strings;
    if AllGroups(items) && Ungroups(items) == groups {
      forall i | 0 <= i < |items| ensures items[i] == JArr(Strings(groups[i])) {
        assert items[i] in items;
        StringsOf(items[i].items, groups[i]);
      }
    }
    if items == Groups(groups) {
      GroupsBack(groups);
    }
  }

  /** The name after the last slash. */
  lemma {:induction false} AfterSlashIs(s: string)
    ensures var n := |s| - |AfterSlash(s)|;
      0 <= n && s[n..] == AfterSlash(s) && Free(AfterSlash(s), '/') && (n == 0 || s[n - 1] == '/')
  {
    if s == [] || s[|s| - 1] == '/' {
    } else {
      AfterSlashIs(s[..|s| - 1]);
    }
  }

  // ----- properties

  /** The definitions hold a string enum of that name with exactly those values. */
  ghost predicate DefinesEnum(defs: Members, name: string, values: seq<string>) {
    exists e :: IsEnumDef(defs, name, values, e)
  }

  ghost predicate IsEnumDef(defs: Members, name: string, values: seq<string>, e: Members) {
    && Get(defs, name) == Some(JObj(e)) && Get(e, "type") == Some(JStr("string"))
    && values != [] && Get(e, "enum") == Some(JArr(Strings(values)))
  }

  lemma EnumValuesIff(defs: Members, name: string, values: seq<string>)
    ensures EnumValues(defs, name) == Ok(values) <==> DefinesEnum(defs, name, values)
  {
    hide Get, AllStrings, Unstrings, Strings;
    var d := Get(defs, name);
    if d.Some? && d.value.JObj? {
      var e := d.value.members;
      if Get(e, "enum").Some? && Get(e, "enum").value.JArr? {
        var items := Get(e, "enum").value.items;
        StringsOf(items, values);
        NoStrings(items, values);
      }
      if EnumValues(defs, name) == Ok(values) {
        assert IsEnumDef(defs, name, values, e);
      }
    }
  }

  lemma NoStrings(items: seq<Json>, values: seq<string>)
    ensures items == Strings(values) ==> (items == [] <==> values == [])
  {}

  /** What a property has to be for a field to be read from it. */
  ghost predicate DescribesField(defs: Members, required: set<string>, name: string, prop: Json, f: Field) {
    && prop.JObj? && f.name == name && (f.nullable <==> name !in required)
    && var p := prop.members;
       if Get(p, "$ref").Some? then
         && f.logicalType == "enum" && f.enumName.Some?
         && Get(p, "$ref").value.JStr? && PREFIX <= Get(p, "$ref").value.str
         && f.enumName.value == AfterSlash(Get(p, "$ref").value.str)
         && DefinesEnum(defs, f.enumName.value, f.enumValues)
       else
         && f.enumName.None? && f.enumValues == []
         && IsScalarType(p, f.logicalType)
  }

  ghost predicate IsScalarType(p: Members, logicalType: string) {
    || (logicalType == "string" && Get(p, "type") == Some(JStr("string")) && Get(p, "format").None?)
    || (logicalType == "utcDateTime" && Get(p, "type") == Some(JStr("string"))
        && Get(p, "format") == Some(JStr("date-time")))
    || (logicalType == "int32" && Get(p, "type") == Some(JStr("integer"))
        && Get(p, "minimum") == Some(JNum(-2147483648)) && Get(p, "maximum") == Some(JNum(2147483647)))
  }

  lemma TypesDiffer()
    ensures "string" != "integer"
  {
    assert "string"[0] == 's' && "integer"[0] == 'i';
  }

  /** A property is read as a field exactly when it describes that field. */
  lemma PropertyReadIff(defs: Members, required: set<string>, name: string, prop: Json, f: Field)
    ensures ParseProperty(defs, required, name, prop) == Ok(f) <==> DescribesField(defs, required, name, prop, f)
  {
    hide Get, EnumValues, DefinesEnum, AfterSlash;
    TypesDiffer();
    if prop.JObj? && Get(prop.members, "$ref").Some? {
      var ref := Get(prop.members, "$ref");
      if ref.value.JStr? {
        EnumValuesIff(defs, AfterSlash(ref.value.str), f.enumValues);
        if EnumValues(defs, AfterSlash(ref.value.str)).Ok? {
          EnumValuesIff(defs, AfterSlash(ref.value.str), EnumValues(defs, AfterSlash(ref.value.str)).value);
        }
      }
    }
  }

  /** An integer without its bounds, and a string with another format, are refused. */
  lemma LooseTypesRefused(defs: Members, required: set<string>, name: string, format: string)
    requires format != "date-time"
    ensures ParseProperty(defs, required, name, JObj([("type", JStr("integer"))])).Err?
    ensures ParseProperty(defs, required, name, JObj([("type", JStr("string")), ("format", JStr(format))])).Err?
  {
    LiteralKeys();
    var number, text := [("type", JStr("integer"))], [("type", JStr("string")), ("format", JStr(format))];
    Get1("type", JStr("integer"), "$ref");
    Get1("type", JStr("integer"), "type");
    Get1("type", JStr("integer"), "minimum");
    Get2("type", JStr("string"), "format", JStr(format), "$ref");
    Get2("type", JStr("string"), "format", JStr(format), "type");
    Get2("type", JStr("string"), "format", JStr(format), "format");
    hide Get;
  }

  lemma {:induction false} FieldsReadIff(defs: Members, required: set<string>, props: Members, fields: seq<Field>)
    ensures ParseFields(defs, required, props) == Ok(fields) <==>
      && |fields| == |props|
      && forall i :: 0 <= i < |props| ==> DescribesField(defs, required, props[i].0, props[i].1, fields[i])
  {
    hide DescribesField, ParseProperty;
    if props == [] {
    } else {
      var n := |props| - 1;
      var before := props[..n];
      assert forall i :: 0 <= i < n ==> before[i] == props[i];
      if |fields| == |props| {
        FieldsReadIff(defs, required, before, fields[..n]);
        PropertyReadIff(defs, required, props[n].0, props[n].1, fields[n]);
        assert fields == fields[..n] + [fields[n]];
      }
      if ParseFields(defs, required, props) == Ok(fields) {
        FieldsReadIff(defs, required, before, ParseFields(defs, required, before).value);
        assert fields[..n] == ParseFields(defs, required, before).value;
      }
    }
  }

  // ----- documents

  datatype Parts = Parts(ref: string, defs: Members, model: Members, props: Members, required: set<string>, sql: Members)

  /** The document, taken apart, describes the model. */
  ghost predicate Describes(doc: Members, m: Model, x: Parts) {
    && Get(doc, "$defs") == Some(JObj(x.defs))
    && Get(doc, "$ref") == Some(JStr(x.ref)) && PREFIX <= x.ref && m.name == AfterSlash(x.ref)
    && Get(x.defs, m.name) == Some(JObj(x.model))
    && Get(x.model, "type") == Some(JStr("object")) && Get(x.model, "additionalProperties") == Some(JBool(false))
    && Get(x.model, "properties") == Some(JObj(x.props))
    && RequiresOnly(x.model, x.required) && (forall k :: k in x.required ==> k in Keys(x.props))
    && |m.fields| == |x.props|
    && (forall i :: 0 <= i < |x.props| ==>
          DescribesField(x.defs, x.required, x.props[i].0, x.props[i].1, m.fields[i]))
    && Get(x.model, "x-ores-sql") == Some(JObj(x.sql))
    && m.table != [] && Get(x.sql, "table") == Some(JStr(m.table))
    && Get(x.sql, "primaryKey") == Some(JArr(Strings(m.primaryKey)))
    && Get(x.sql, "unique") == Some(JArr(Groups(m.unique)))
    && KeysKnown(m)
  }

  ghost predicate RequiresOnly(model: Members, required: set<string>) {
    if Get(model, "required").None? then required == {}
    else exists names :: Get(model, "required") == Some(JArr(Strings(names))) && required == set s | s in names
  }

  lemma RequiredIff(model: Members, required: set<string>)
    ensures ParseRequired(model) == Ok(required) <==> RequiresOnly(model, required)
  {
    hide Get, AllStrings, Unstrings, Strings;
    var r := Get(model, "required");
    if r.Some? && r.value.JArr? {
      var items := r.value.items;
      forall names ensures items == Strings(names) <==> AllStrings(items) && Unstrings(items) == names {
        StringsOf(items, names);
      }
      if ParseRequired(model) == Ok(required) {
        var names := Unstrings(items);
        assert items == Strings(names);
      }
    }
  }

  lemma SqlIff(name: string, fields: seq<Field>, sql: Members, m: Model)
    ensures ParseSql(name, fields, sql) == Ok(m) <==>
      && m.name == name && m.fields == fields && m.table != [] && Get(sql, "table") == Some(JStr(m.table))
      && Get(sql, "primaryKey") == Some(JArr(Strings(m.primaryKey)))
      && Get(sql, "unique") == Some(JArr(Groups(m.unique)))
      && KeysKnown(m)
  {
    hide Get, AllStrings, Unstrings, Strings, AllGroups, Ungroups, Groups, KeysKnown;
    var p, u := Get(sql, "primaryKey"), Get(sql, "unique");
    if p.Some? && p.value.JArr? {
      StringsOf(p.value.items, m.primaryKey);
      if AllStrings(p.value.items) {
        StringsOf(p.value.items, Unstrings(p.value.items));
      }
    }
    if u.Some? && u.value.JArr? {
      GroupsOf(u.value.items, m.unique);
      if AllGroups(u.value.items) {
        GroupsOf(u.value.items, Ungroups(u.value.items));
      }
    }
  }

  /** A document is read as a model exactly when it describes that model. */
  lemma DocumentReadIff(doc: Members, m: Model)
    ensures ParseJson(doc) == Ok(m) <==> exists x :: Describes(doc, m, x)
  {
    hide Get, AfterSlash, ParseFields, ParseRequired, ParseSql, RequiresOnly, DescribesField, KeysKnown, Strings, Groups;
    if ParseJson(doc) == Ok(m) {
      var x := PartsOf(doc, m);
    }
    if exists x :: Describes(doc, m, x) {
      var x :| Describes(doc, m, x);
      RequiredIff(x.model, x.required);
      FieldsReadIff(x.defs, x.required, x.props, m.fields);
      SqlIff(m.name, m.fields, x.sql, m);
      assert x.required <= Keys(x.props);
    }
  }

  lemma PartsOf(doc: Members, m: Model) returns (x: Parts)
    requires ParseJson(doc) == Ok(m)
    ensures Describes(doc, m, x)
  {
    hide Get, AfterSlash, ParseFields, ParseRequired, ParseSql, RequiresOnly, DescribesField, KeysKnown, Strings, Groups;
    var defs := Get(doc, "$defs").value.members;
    var ref := Get(doc, "$ref").value.str;
    var model := Get(defs, AfterSlash(ref)).value.members;
    var props := Get(model, "properties").value.members;
    var required := ParseRequired(model).value;
    var fields := ParseFields(defs, required, props).value;
    var sql := Get(model, "x-ores-sql").value.members;
    x := Parts(ref, defs, model, props, required, sql);
    RequiredIff(model, required);
    SqlIff(AfterSlash(ref), fields, sql, m);
    FieldsReadIff(defs, required, props, fields);
  }

  // ----- what every printed document says about itself

  /** Every witness is named after what it was made from, and says that it is none of the authorities. */
  lemma WitnessMarked(m: Model, authority: string, digest: string)
    requires RenderJson(m, authority, digest).Ok?
    ensures var doc := RenderJson(m, authority, digest).value;
      && Get(doc, "$id") == Some(JStr("urn:ores:shadow:" + authority + ":" + m.name))
      && exists w :: Get(doc, "x-ores-witness") == Some(JObj(w))
                  && Get(w, "authoritative") == Some(JBool(false))
                  && Get(w, "sourceAuthority") == Some(JStr(authority)) && Get(w, "sourceDigest") == Some(JStr(digest))
  {
    hide EnumDefs, Properties, ModelMembers, Put, Comment;
    var doc := RenderJson(m, authority, digest).value;
    var w := WitnessMembers(authority, digest);
    assert "$schema"[1] == 's' && "$id"[1] == 'i' && "$comment"[1] == 'c' && "x-ores-witness"[1] == '-';
    GetAt(doc, 1, "$id");
    GetAt(doc, 3, "x-ores-witness");
    WitnessKeys(authority, digest);
  }

  lemma WitnessKeys(authority: string, digest: string)
    ensures var w := WitnessMembers(authority, digest);
      && Get(w, "authoritative") == Some(JBool(false))
      && Get(w, "sourceAuthority") == Some(JStr(authority)) && Get(w, "sourceDigest") == Some(JStr(digest))
  {
    var w := WitnessMembers(authority, digest);
    assert "authoritative"[0] == 'a' && "sourceAuthority"[0] == 's' && "sourceDigest"[0] == 's';
    assert "sourceAuthority"[6] == 'A' && "sourceDigest"[6] == 'D';
    GetAt(w, 0, "authoritative");
    GetAt(w, 1, "sourceAuthority");
    GetAt(w, 2, "sourceDigest");
  }
}
