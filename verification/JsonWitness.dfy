/** The JSON Schema witness: printing a model as a schema document and reading it back. */
module JsonWitness {
  import opened Prelude
  import opened Text
  import opened SchemaModel

  /** An object lists its members in insertion order, each key once. */
  datatype Json =
    | JNull | JBool(flag: bool) | JNum(num: int) | JStr(str: string) | JArr(items: seq<Json>) | JObj(members: Members)

  type Members = seq<(string, Json)>

  // ----- dictionaries

  function Get(o: Members, key: string): Option<Json> {
    if o == [] then None else if o[0].0 == key then Some(o[0].1) else Get(o[1..], key)
  }

  /** Assignment keeps the place of a key that is there and appends one that is not. */
  function Put(o: Members, key: string, v: Json): Members {
    if o == [] then [(key, v)]
    else if o[0].0 == key then [(key, v)] + o[1..]
    else [o[0]] + Put(o[1..], key, v)
  }

  function Keys(o: Members): set<string> {
    set e | e in o :: e.0
  }

  lemma {:induction false} GetPut(o: Members, key: string, v: Json, other: string)
    ensures Get(Put(o, key, v), other) == if other == key then Some(v) else Get(o, other)
  {
    if o != [] && o[0].0 != key {
      GetPut(o[1..], key, v, other);
      assert ([o[0]] + Put(o[1..], key, v))[1..] == Put(o[1..], key, v);
    } else if o != [] {
      assert ([(key, v)] + o[1..])[1..] == o[1..];
    }
  }

  lemma {:induction false} PutNew(o: Members, key: string, v: Json)
    requires forall e :: e in o ==> e.0 != key
    ensures Put(o, key, v) == o + [(key, v)]
  {
    if o == [] {
    } else {
      assert o[0] in o;
      assert forall e :: e in o[1..] ==> e in o;
      PutNew(o[1..], key, v);
      assert o == [o[0]] + o[1..];
    }
  }

  // ----- values

  function Strings(xs: seq<string>): seq<Json> {
    seq(|xs|, i requires 0 <= i < |xs| => JStr(xs[i]))
  }

  predicate AllStrings(items: seq<Json>) {
    forall j :: j in items ==> j.JStr?
  }

  function Unstrings(items: seq<Json>): seq<string>
    requires AllStrings(items)
  {
    seq(|items|, i requires 0 <= i < |items| => assert items[i] in items; items[i].str)
  }

  lemma StringsBack(xs: seq<string>)
    ensures AllStrings(Strings(xs)) && Unstrings(Strings(xs)) == xs
  {}

  function Groups(groups: seq<seq<string>>): seq<Json> {
    seq(|groups|, i requires 0 <= i < |groups| => JArr(Strings(groups[i])))
  }

  predicate AllGroups(items: seq<Json>) {
    forall j :: j in items ==> j.JArr? && AllStrings(j.items)
  }

  function Ungroups(items: seq<Json>): seq<seq<string>>
    requires AllGroups(items)
  {
    seq(|items|, i requires 0 <= i < |items| => assert items[i] in items; Unstrings(items[i].items))
  }

  lemma GroupsBack(groups: seq<seq<string>>)
    ensures AllGroups(Groups(groups)) && Ungroups(Groups(groups)) == groups
  {
    forall i | 0 <= i < |groups|
      ensures AllStrings(Groups(groups)[i].items) && Unstrings(Groups(groups)[i].items) == groups[i]
    {
      StringsBack(groups[i]);
    }
  }

  function AsObject(j: Option<Json>, e: TranslateError): Result<Members, TranslateError> {
    if j.Some? && j.value.JObj? then Ok(j.value.members) else Err(e)
  }

  const PREFIX: string := "#/$defs/"

  /** The part after the last slash. */
  function AfterSlash(s: string): string {
    if s == [] then []
    else if s[|s| - 1] == '/' then []
    else AfterSlash(s[..|s| - 1]) + [s[|s| - 1]]
  }

  lemma {:induction false} AfterSlashFree(prefix: string, s: string)
    requires prefix != [] && prefix[|prefix| - 1] == '/' && Free(s, '/')
    ensures AfterSlash(prefix + s) == s
  {
    if s == [] {
      assert prefix + s == prefix;
    } else {
      assert (prefix + s)[..|prefix + s| - 1] == prefix + s[..|s| - 1];
      AfterSlashFree(prefix, s[..|s| - 1]);
      assert s == s[..|s| - 1] + [s[|s| - 1]];
    }
  }

  function RefName(j: Option<Json>, e: TranslateError): Result<string, TranslateError> {
    if j.Some? && j.value.JStr? && PREFIX <= j.value.str then Ok(AfterSlash(j.value.str)) else Err(e)
  }

  lemma RefBack(name: string, e: TranslateError)
    requires Free(name, '/')
    ensures RefName(Some(JStr(PREFIX + name)), e) == Ok(name)
  {
    AfterSlashFree(PREFIX, name);
  }

  // ----- printing

  const INT32_MIN := -2147483648
  const INT32_MAX := 2147483647

  function JsonProperty(f: Field): Result<Json, TranslateError> {
    if f.logicalType == "string" then Ok(JObj([("type", JStr("string"))]))
    else if f.logicalType == "utcDateTime" then Ok(JObj([("type", JStr("string")), ("format", JStr("date-time"))]))
    else if f.logicalType == "int32" then
      Ok(JObj([("type", JStr("integer")), ("minimum", JNum(INT32_MIN)), ("maximum", JNum(INT32_MAX))]))
    else if IsEnum(f) then Ok(JObj([("$ref", JStr(PREFIX + f.enumName.value))]))
    else Err(TypeUnsupported)
  }

  function EnumDef(f: Field): Json {
    JObj([("type", JStr("string")), ("enum", JArr(Strings(f.enumValues)))])
  }

  /** One definition per enum; fields that disagree on an enum's values are refused. */
  function EnumDefs(fields: seq<Field>): Result<Members, TranslateError> {
    if fields == [] then Ok([])
    else
      var f := fields[|fields| - 1];
      var defs :- EnumDefs(fields[..|fields| - 1]);
      if !IsEnum(f) then Ok(defs)
      else
        var current := Get(defs, f.enumName.value);
        if current.Some? && current.value != EnumDef(f) then Err(InconsistentEnum)
        else Ok(Put(defs, f.enumName.value, EnumDef(f)))
  }

  function Properties(fields: seq<Field>): Result<Members, TranslateError> {
    if fields == [] then Ok([])
    else
      var f := fields[|fields| - 1];
      var props :- Properties(fields[..|fields| - 1]);
      var p :- JsonProperty(f);
      Ok(Put(props, f.name, p))
  }

  function Required(fields: seq<Field>): seq<string> {
    if fields == [] then []
    else
      var f := fields[|fields| - 1];
      Required(fields[..|fields| - 1]) + (if f.nullable then [] else [f.name])
  }

  function SqlMembers(m: Model): Members {
    [("table", JStr(m.table)), ("primaryKey", JArr(Strings(m.primaryKey))), ("unique", JArr(Groups(m.unique)))]
  }

  function ModelMembers(m: Model, props: Members): Members {
    [("type", JStr("object")), ("additionalProperties", JBool(false)), ("x-ores-sql", JObj(SqlMembers(m))),
     ("properties", JObj(props)), ("required", JArr(Strings(Required(m.fields))))]
  }

  function WitnessMembers(authority: string, digest: string): Members {
    [("authoritative", JBool(false)), ("sourceAuthority", JStr(authority)), ("sourceDigest", JStr(digest)),
     ("purpose", JStr("cross-translation-and-round-trip-convergence-only"))]
  }

  function Comment(): string {
    "NON-AUTHORITATIVE GENERATED WITNESS. "
    + "Never replace or rewrite the independent "
    + "human-authored JSON Schema/OpenAPI "
    + "authority from this file."
  }

  function DocumentMembers(name: string, defs: Members, authority: string, digest: string): Members {
    [("$schema", JStr("https://json-schema.org/draft/2020-12/schema")),
     ("$id", JStr("urn:ores:shadow:" + authority + ":" + name)),
     ("$comment", JStr(Comment())),
     ("x-ores-witness", JObj(WitnessMembers(authority, digest))),
     ("$ref", JStr(PREFIX + name)),
     ("$defs", JObj(defs))]
  }

  /** The schema document of a model. */
  function RenderJson(m: Model, authority: string, digest: string): Result<Members, TranslateError> {
    var defs :- EnumDefs(m.fields);
    var props :- Properties(m.fields);
    Ok(DocumentMembers(m.name, Put(defs, m.name, JObj(ModelMembers(m, props))), authority, digest))
  }

  // ----- reading

  function EnumValues(defs: Members, name: string): Result<seq<string>, TranslateError> {
    var e :- AsObject(Get(defs, name), MissingEnum);
    if Get(e, "type") != Some(JStr("string")) then Err(MissingEnum)
    else match Get(e, "enum")
      case Some(JArr(items)) => if items != [] && AllStrings(items) then Ok(Unstrings(items)) else Err(EnumInvalid)
      case _ => Err(EnumInvalid)
  }

  function ParseProperty(defs: Members, required: set<string>, name: string, prop: Json): Result<Field, TranslateError> {
    if !prop.JObj? then Err(PropertyInvalid)
    else
      var p, nullable := prop.members, name !in required;
      if Get(p, "$ref").Some? then
        var enumName :- RefName(Get(p, "$ref"), PropertyRefInvalid);
        var values :- EnumValues(defs, enumName);
        Ok(Field(name, "enum", nullable, Some(enumName), values))
      else if Get(p, "type") == Some(JStr("string")) && Get(p, "format") == Some(JStr("date-time")) then
        Ok(Field(name, "utcDateTime", nullable, None, []))
      else if Get(p, "type") == Some(JStr("string")) && Get(p, "format").None? then
        Ok(Field(name, "string", nullable, None, []))
      else if Get(p, "type") == Some(JStr("integer")) && Get(p, "minimum") == Some(JNum(INT32_MIN))
              && Get(p, "maximum") == Some(JNum(INT32_MAX)) then
        Ok(Field(name, "int32", nullable, None, []))
      else Err(PropertyUnsupported)
  }

  function ParseFields(defs: Members, required: set<string>, props: Members): Result<seq<Field>, TranslateError> {
    if props == [] then Ok([])
    else
      var (name, prop) := props[|props| - 1];
      var fields :- ParseFields(defs, required, props[..|props| - 1]);
      var f :- ParseProperty(defs, required, name, prop);
      Ok(fields + [f])
  }

  function ParseRequired(model: Members): Result<set<string>, TranslateError> {
    match Get(model, "required")
    case None => Ok({})
    case Some(JArr(items)) =>
      if AllStrings(items) then Ok(set s | s in Unstrings(items)) else Err(RequiredInvalid)
    case _ => Err(RequiredInvalid)
  }

  function ParseSql(name: string, fields: seq<Field>, sql: Members): Result<Model, TranslateError> {
    match Get(sql, "table")
    case Some(JStr(table)) =>
      if table == [] then Err(TableInvalid)
      else (match Get(sql, "primaryKey")
            case Some(JArr(primary)) =>
              if !AllStrings(primary) then Err(PrimaryKeyInvalid)
              else (match Get(sql, "unique")
                    case Some(JArr(unique)) =>
                      if !AllGroups(unique) then Err(UniqueInvalid)
                      else
                        var m := Model(name, table, Unstrings(primary), Ungroups(unique), fields);
                        if KeysKnown(m) then Ok(m) else Err(UnknownKey)
                    case _ => Err(UniqueInvalid))
            case _ => Err(PrimaryKeyInvalid))
    case _ => Err(TableInvalid)
  }

  function ParseObject(name: string, defs: Members, model: Members): Result<Model, TranslateError> {
    if Get(model, "type") != Some(JStr("object")) then Err(MissingObject)
    else if Get(model, "additionalProperties") != Some(JBool(false)) then Err(NotClosed)
    else
      var props :- AsObject(Get(model, "properties"), MissingProperties);
      var required :- ParseRequired(model);
      if !(required <= Keys(props)) then Err(UnknownRequired)
      else
        var fields :- ParseFields(defs, required, props);
        var sql :- AsObject(Get(model, "x-ores-sql"), MissingSql);
        ParseSql(name, fields, sql)
  }

  /** The model a schema document describes. */
  function ParseJson(doc: Members): (r: Result<Model, TranslateError>)
    ensures r.Ok? ==> KeysKnown(r.value) && r.value.table != []
  {
    var defs :- AsObject(Get(doc, "$defs"), MissingDefs);
    var name :- RefName(Get(doc, "$ref"), RootRefInvalid);
    var model :- AsObject(Get(defs, name), MissingObject);
    ParseObject(name, defs, model)
  }
}
