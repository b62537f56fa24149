/** Why the schema reader refuses a document: what each error says about it. */
module JsonRefusals {
  import opened Prelude
  import opened SchemaModel
  import opened JsonWitness
  import opened JsonRoundTrip
  import opened JsonMeaning

  ghost predicate IsRef(j: Option<Json>) {
    j.Some? && j.value.JStr? && PREFIX <= j.value.str
  }

  ghost predicate IsObject(j: Option<Json>) {
    exists o :: j == Some(JObj(o))
  }

  ghost predicate IsNames(j: Option<Json>) {
    exists xs :: j == Some(JArr(Strings(xs)))
  }

  ghost predicate IsGroups(j: Option<Json>) {
    exists groups :: j == Some(JArr(Groups(groups)))
  }

  // ----- properties

  /** The definition that a property refers to is a string type. */
  ghost predicate IsStringType(j: Option<Json>) {
    exists e :: j == Some(JObj(e)) && Get(e, "type") == Some(JStr("string"))
  }

  lemma PropertyRefused(defs: Members, required: set<string>, name: string, prop: Json)
    requires ParseProperty(defs, required, name, prop).Err?
    ensures match ParseProperty(defs, required, name, prop).error
      case PropertyInvalid => !prop.JObj?
      case PropertyRefInvalid => prop.JObj? && Get(prop.members, "$ref").Some? && !IsRef(Get(prop.members, "$ref"))
      case MissingEnum => prop.JObj? && IsRef(Get(prop.members, "$ref"))
        && !IsStringType(Get(defs, AfterSlash(Get(prop.members, "$ref").value.str)))
      case EnumInvalid => prop.JObj? && IsRef(Get(prop.members, "$ref"))
        && var target := AfterSlash(Get(prop.members, "$ref").value.str);
           IsStringType(Get(defs, target)) && forall values :: !DefinesEnum(defs, target, values)
      case PropertyUnsupported => prop.JObj? && Get(prop.members, "$ref").None?
        && forall t :: !IsScalarType(prop.members, t)
      case _ => false
  {
    hide Get, AfterSlash, EnumValues, DefinesEnum;
    if prop.JObj? && IsRef(Get(prop.members, "$ref")) {
      EnumRefused(defs, AfterSlash(Get(prop.members, "$ref").value.str));
    }
  }

  lemma EnumRefused(defs: Members, name: string)
    requires EnumValues(defs, name).Err?
    ensures match EnumValues(defs, name).error
      case MissingEnum => !IsStringType(Get(defs, name))
      case EnumInvalid => IsStringType(Get(defs, name)) && forall values :: !DefinesEnum(defs, name, values)
      case _ => false
  {
    forall values ensures !DefinesEnum(defs, name, values) {
      EnumValuesIff(defs, name, values);
    }
    hide Get, AllStrings, Unstrings, DefinesEnum;
  }

  // ----- documents

  /** The object that the document's root refers to, among its definitions. */
  ghost predicate IsModel(doc: Members, defs: Members, model: Members) {
    && Get(doc, "$defs") == Some(JObj(defs)) && IsRef(Get(doc, "$ref"))
    && Get(defs, AfterSlash(Get(doc, "$ref").value.str)) == Some(JObj(model))
  }

  ghost predicate IsClosedObject(model: Members) {
    Get(model, "type") == Some(JStr("object")) && Get(model, "additionalProperties") == Some(JBool(false))
  }

  /** What is wrong with a closed object that is no model. */
  ghost predicate Blamed(defs: Members, model: Members, e: TranslateError) {
    match e
    case MissingProperties => !IsObject(Get(model, "properties"))
    case RequiredInvalid => Get(model, "required").Some? && !IsNames(Get(model, "required"))
    case MissingSql => !IsObject(Get(model, "x-ores-sql"))
    case _ => exists props, required :: BlamedFor(defs, model, props, required, e)
  }

  ghost predicate BlamedFor(defs: Members, model: Members, props: Members, required: set<string>, e: TranslateError) {
    && Get(model, "properties") == Some(JObj(props)) && RequiresOnly(model, required)
    && match e
       case UnknownRequired => exists k :: k in required && k !in Keys(props)
       case TableInvalid => exists sql ::
         && Get(model, "x-ores-sql") == Some(JObj(sql))
         && forall table :: Get(sql, "table") == Some(JStr(table)) ==> table == []
       case PrimaryKeyInvalid => exists sql ::
         Get(model, "x-ores-sql") == Some(JObj(sql)) && !IsNames(Get(sql, "primaryKey"))
       case UniqueInvalid => exists sql ::
         Get(model, "x-ores-sql") == Some(JObj(sql)) && !IsGroups(Get(sql, "unique"))
       case UnknownKey => exists sql, k ::
         Get(model, "x-ores-sql") == Some(JObj(sql)) && IsKey(sql, k) && k !in Keys(props)
       case _ => exists i :: 0 <= i < |props| && ParseProperty(defs, required, props[i].0, props[i].1) == Err(e)
  }

  /** A column that the primary key or a unique group names. */
  ghost predicate IsKey(sql: Members, k: string) {
    || (exists xs :: Get(sql, "primaryKey") == Some(JArr(Strings(xs))) && k in xs)
    || (exists groups, g :: Get(sql, "unique") == Some(JArr(Groups(groups))) && g in groups && k in g)
  }

  lemma {:induction false} FieldsRefused(defs: Members, required: set<string>, props: Members)
    requires ParseFields(defs, required, props).Err?
    ensures exists i ::
      0 <= i < |props| && ParseProperty(defs, required, props[i].0, props[i].1) == Err(ParseFields(defs, required, props).error)
  {
    hide ParseProperty;
    var n := |props| - 1;
    var before := props[..n];
    if ParseFields(defs, required, before).Err? {
      FieldsRefused(defs, required, before);
      var i :| 0 <= i < n && ParseProperty(defs, required, before[i].0, before[i].1)
        == Err(ParseFields(defs, required, before).error);
      assert props[i] == before[i];
    } else {
      var (name, prop) := props[n];
      assert ParseProperty(defs, required, name, prop).Err?;
    }
  }

  lemma NotNames(items: seq<Json>)
    ensures IsNames(Some(JArr(items))) <==> AllStrings(items)
  {
    if AllStrings(items) {
      StringsOf(items, Unstrings(items));
    }
    if IsNames(Some(JArr(items))) {
      var xs :| items == Strings(xs);
      StringsOf(items, xs);
    }
  }

  lemma NotGroups(items: seq<Json>)
    ensures IsGroups(Some(JArr(items))) <==> AllGroups(items)
  {
    if AllGroups(items) {
      GroupsOf(items, Ungroups(items));
    }
    if IsGroups(Some(JArr(items))) {
      var groups :| items == Groups(groups);
      GroupsOf(items, groups);
    }
  }

  lemma RequiredRefused(model: Members)
    ensures ParseRequired(model).Ok? ==> RequiresOnly(model, ParseRequired(model).value)
    ensures ParseRequired(model).Err? ==>
      && ParseRequired(model).error == RequiredInvalid
      && Get(model, "required").Some? && !IsNames(Get(model, "required"))
  {
    if ParseRequired(model).Ok? {
      RequiredIff(model, ParseRequired(model).value);
    }
    var r := Get(model, "required");
    if r.Some? && r.value.JArr? {
      NotNames(r.value.items);
    }
    hide Get, AllStrings, RequiresOnly, Strings;
  }

  lemma NamesOfFields(defs: Members, required: set<string>, props: Members, fields: seq<Field>)
    requires ParseFields(defs, required, props) == Ok(fields)
    ensures FieldNames(fields) == Keys(props)
  {
    hide ParseFields;
    FieldsReadIff(defs, required, props, fields);
    forall k ensures k in FieldNames(fields) <==> k in Keys(props) {
      if k in FieldNames(fields) {
        var f :| f in fields && f.name == k;
        var i :| 0 <= i < |fields| && fields[i] == f;
        assert DescribesField(defs, required, props[i].0, props[i].1, fields[i]);
        assert props[i] in props;
      }
      if k in Keys(props) {
        var p :| p in props && p.0 == k;
        var i :| 0 <= i < |props| && props[i] == p;
        assert DescribesField(defs, required, props[i].0, props[i].1, fields[i]);
        assert fields[i] in fields;
      }
    }
  }

  lemma SqlRefused(name: string, fields: seq<Field>, sql: Members)
    requires ParseSql(name, fields, sql).Err?
    ensures match ParseSql(name, fields, sql).error
      case TableInvalid => forall table :: Get(sql, "table") == Some(JStr(table)) ==> table == []
      case PrimaryKeyInvalid => !IsNames(Get(sql, "primaryKey"))
      case UniqueInvalid => !IsGroups(Get(sql, "unique"))
      case UnknownKey => exists k :: IsKey(sql, k) && k !in FieldNames(fields)
      case _ => false
  {
    hide Get, AllStrings, Unstrings, Strings, AllGroups, Ungroups, Groups, FieldNames, IsNames, IsGroups;
    var p, u := Get(sql, "primaryKey"), Get(sql, "unique");
    NamesShape(p);
    GroupsShape(u);
    if ParseSql(name, fields, sql).error == UnknownKey {
      var primary, unique := Unstrings(p.value.items), Ungroups(u.value.items);
      StringsOf(p.value.items, primary);
      GroupsOf(u.value.items, unique);
      KeyMissing(Model(name, Get(sql, "table").value.str, primary, unique, fields), sql);
    }
  }

  lemma NamesShape(j: Option<Json>)
    ensures IsNames(j) <==> j.Some? && j.value.JArr? && AllStrings(j.value.items)
  {
    hide AllStrings;
    if j.Some? && j.value.JArr? {
      NotNames(j.value.items);
    }
  }

  lemma GroupsShape(j: Option<Json>)
    ensures IsGroups(j) <==> j.Some? && j.value.JArr? && AllGroups(j.value.items)
  {
    hide AllGroups;
    if j.Some? && j.value.JArr? {
      NotGroups(j.value.items);
    }
  }

  lemma KeyMissing(m: Model, sql: Members)
    requires !KeysKnown(m)
    requires Get(sql, "primaryKey") == Some(JArr(Strings(m.primaryKey)))
    requires Get(sql, "unique") == Some(JArr(Groups(m.unique)))
    ensures exists k :: IsKey(sql, k) && k !in FieldNames(m.fields)
  {
    hide Get, Strings, Groups, FieldNames;
    if k :| k in m.primaryKey && k !in FieldNames(m.fields) {
      assert IsKey(sql, k);
    } else {
      var g, k :| g in m.unique && k in g && k !in FieldNames(m.fields);
      assert IsKey(sql, k);
    }
  }

  lemma ObjectRefused(name: string, defs: Members, model: Members)
    requires ParseObject(name, defs, model).Err? && IsClosedObject(model)
    ensures Blamed(defs, model, ParseObject(name, defs, model).error)
    ensures ParseObject(name, defs, model).error !in {MissingDefs, RootRefInvalid, MissingObject, NotClosed}
  {
    hide Get, Keys, ParseFields, ParseRequired, ParseSql, RequiresOnly, ParseProperty, IsKey, IsNames, IsGroups, FieldNames;
    var e := ParseObject(name, defs, model).error;
    RequiredRefused(model);
    if IsObject(Get(model, "properties")) && ParseRequired(model).Ok? {
      var props, required := Get(model, "properties").value.members, ParseRequired(model).value;
      if required <= Keys(props) {
        if ParseFields(defs, required, props).Err? {
          FieldsRefused(defs, required, props);
          PropertyErrors(defs, required, props, e);
          assert BlamedFor(defs, model, props, required, e);
        } else if IsObject(Get(model, "x-ores-sql")) {
          var fields, sql := ParseFields(defs, required, props).value, Get(model, "x-ores-sql").value.members;
          NamesOfFields(defs, required, props, fields);
          SqlRefused(name, fields, sql);
          assert BlamedFor(defs, model, props, required, e);
        }
      } else {
        assert BlamedFor(defs, model, props, required, e);
      }
    }
  }

  lemma PropertyErrors(defs: Members, required: set<string>, props: Members, e: TranslateError)
    requires exists i :: 0 <= i < |props| && ParseProperty(defs, required, props[i].0, props[i].1) == Err(e)
    ensures e in {PropertyInvalid, PropertyRefInvalid, MissingEnum, EnumInvalid, PropertyUnsupported}
  {
    hide ParseProperty;
    var i :| 0 <= i < |props| && ParseProperty(defs, required, props[i].0, props[i].1) == Err(e);
    PropertyRefused(defs, required, props[i].0, props[i].1);
  }

  /** What is wrong with a refused document. */
  lemma DocumentRefused(doc: Members)
    requires ParseJson(doc).Err?
    ensures match ParseJson(doc).error
      case MissingDefs => !IsObject(Get(doc, "$defs"))
      case RootRefInvalid => !IsRef(Get(doc, "$ref"))
      case MissingObject => forall defs, model :: IsModel(doc, defs, model) ==> Get(model, "type") != Some(JStr("object"))
      case NotClosed => exists defs, model ::
        IsModel(doc, defs, model) && Get(model, "additionalProperties") != Some(JBool(false))
      case e => exists defs, model :: IsModel(doc, defs, model) && IsClosedObject(model) && Blamed(defs, model, e)
  {
    hide Get, AfterSlash, Blamed, ParseFields, ParseRequired, ParseSql;
    if IsObject(Get(doc, "$defs")) && IsRef(Get(doc, "$ref")) {
      var defs, name := Get(doc, "$defs").value.members, AfterSlash(Get(doc, "$ref").value.str);
      if IsObject(Get(defs, name)) {
        var model := Get(defs, name).value.members;
        assert IsModel(doc, defs, model);
        if IsClosedObject(model) {
          ObjectRefused(name, defs, model);
        }
      }
    }
  }
}
