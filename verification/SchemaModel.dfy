/** The persistence model that TypeSpec and JSON Schema both describe, and its canonical form. */
module SchemaModel {
  import opened Prelude
  import opened Text
  import HttpBytes

  datatype Field = Field(
    name: string, logicalType: string, nullable: bool, enumName: Option<string>, enumValues: seq<string>)

  datatype Model = Model(
    name: string, table: string, primaryKey: seq<string>, unique: seq<seq<string>>, fields: seq<Field>)

  datatype TranslateError =
    | MissingDefs | RootRefInvalid | MissingObject | NotClosed | MissingProperties | RequiredInvalid
    | UnknownRequired | PropertyInvalid | PropertyRefInvalid | MissingEnum | EnumInvalid | PropertyUnsupported
    | MissingSql | TableInvalid | PrimaryKeyInvalid | UniqueInvalid | UnknownKey | InconsistentEnum
    | TypeUnsupported | MissingNamespace | EnumMemberUnsupported | EnumEmpty | ModelCount | FieldUnsupported
    | MissingMetadata

  predicate IsScalar(t: string) {
    t in {"string", "int32", "utcDateTime"}
  }

  predicate IsEnum(f: Field) {
    f.logicalType == "enum" && f.enumName.Some? && f.enumName.value != []
  }

  function FieldNames(fields: seq<Field>): set<string> {
    set f | f in fields :: f.name
  }

  /** Every key names a field. */
  predicate KeysKnown(m: Model) {
    && (forall k :: k in m.primaryKey ==> k in FieldNames(m.fields))
    && (forall g, k :: g in m.unique && k in g ==> k in FieldNames(m.fields))
  }

  ghost predicate DistinctNames(fields: seq<Field>) {
    forall i, j :: 0 <= i < j < |fields| ==> fields[i].name != fields[j].name
  }

  /** A field is a scalar without enum data, or a named enum with values. */
  predicate FieldOk(f: Field) {
    if f.logicalType == "enum" then f.enumName.Some? && f.enumName.value != [] && f.enumValues != []
    else IsScalar(f.logicalType) && f.enumName.None? && f.enumValues == []
  }

  /** Fields of one enum agree on its values. */
  ghost predicate Agree(fields: seq<Field>) {
    forall f, g :: f in fields && g in fields && IsEnum(f) && IsEnum(g) && f.enumName == g.enumName
      ==> f.enumValues == g.enumValues
  }

  /** No enum has the model's name. */
  ghost predicate EnumsApart(m: Model) {
    forall f :: f in m.fields && IsEnum(f) ==> f.enumName.value != m.name
  }

  /** What both notations can express. */
  ghost predicate WellFormed(m: Model) {
    && KeysKnown(m) && DistinctNames(m.fields) && Agree(m.fields) && EnumsApart(m)
    && (forall f :: f in m.fields ==> FieldOk(f))
    && m.table != []
    && Free(m.name, '/') && (forall f :: f in m.fields && IsEnum(f) ==> Free(f.enumName.value, '/'))
  }

  // ----- canonical form

  /** The program's lower-casing of strings: what it does to which letters is left open. */
  type Lowering = string -> string

  predicate IsUpper(c: char) {
    'A' <= c <= 'Z'
  }

  /** An underscore before every capital but the first character. */
  function Underscored(s: string): string {
    if s == [] then []
    else
      var n := |s| - 1;
      Underscored(s[..n]) + if n > 0 && IsUpper(s[n]) then ['_', s[n]] else [s[n]]
  }

  function SnakeCase(s: string, lower: Lowering): string {
    lower(Underscored(s))
  }

  function Columns(names: seq<string>, lower: Lowering): seq<string> {
    seq(|names|, i requires 0 <= i < |names| => SnakeCase(names[i], lower))
  }

  function ColumnGroups(groups: seq<seq<string>>, lower: Lowering): seq<seq<string>> {
    seq(|groups|, i requires 0 <= i < |groups| => Columns(groups[i], lower))
  }

  datatype CanonicalField = CanonicalField(field: Field, column: string)

  datatype CanonicalModel = CanonicalModel(
    name: string, table: string, primaryKey: seq<string>, unique: seq<seq<string>>, fields: seq<CanonicalField>)

  function CanonicalFields(fields: seq<Field>, lower: Lowering): seq<CanonicalField> {
    seq(|fields|, i requires 0 <= i < |fields| => CanonicalField(fields[i], SnakeCase(fields[i].name, lower)))
  }

  function Canonical(m: Model, lower: Lowering): CanonicalModel
    requires KeysKnown(m)
  {
    CanonicalModel(m.name, m.table, Columns(m.primaryKey, lower), ColumnGroups(m.unique, lower),
                   CanonicalFields(m.fields, lower))
  }

  /** Different fields have different columns. */
  predicate ColumnsDiffer(fields: seq<Field>, lower: Lowering) {
    forall f, g :: f in fields && g in fields && SnakeCase(f.name, lower) == SnakeCase(g.name, lower)
      ==> f.name == g.name
  }

  lemma ColumnsInjective(fields: seq<Field>, a: seq<string>, b: seq<string>, lower: Lowering)
    requires ColumnsDiffer(fields, lower) && Columns(a, lower) == Columns(b, lower)
    requires forall k :: k in a || k in b ==> k in FieldNames(fields)
    ensures a == b
  {
    hide SnakeCase;
    assert |Columns(a, lower)| == |a| && |Columns(b, lower)| == |b|;
    forall i | 0 <= i < |a| ensures a[i] == b[i] {
      assert Columns(a, lower)[i] == Columns(b, lower)[i];
      assert a[i] in a && b[i] in b;
      var f :| f in fields && f.name == a[i];
      var g :| g in fields && g.name == b[i];
    }
  }

  /** The models differ in more than the names of their keys. */
  ghost predicate Visible(m: Model, n: Model) {
    m.name != n.name || m.table != n.table || |m.unique| != |n.unique| || m.fields != n.fields
  }

  /** Canonical forms show everything but the names of the keys. */
  lemma CanonicalShows(m: Model, n: Model, lower: Lowering)
    requires KeysKnown(m) && KeysKnown(n) && Canonical(m, lower) == Canonical(n, lower)
    ensures !Visible(m, n)
    ensures |m.primaryKey| == |n.primaryKey|
    ensures |m.unique| == |n.unique| && forall i :: 0 <= i < |m.unique| ==> |m.unique[i]| == |n.unique[i]|
  {
    hide SnakeCase, KeysKnown;
    var c, d := CanonicalFields(m.fields, lower), CanonicalFields(n.fields, lower);
    assert |c| == |m.fields| && |d| == |n.fields|;
    forall i | 0 <= i < |m.fields| ensures m.fields[i] == n.fields[i] {
      assert c[i].field == d[i].field;
    }
    assert |Columns(m.primaryKey, lower)| == |m.primaryKey| && |Columns(n.primaryKey, lower)| == |n.primaryKey|;
    var a, b := ColumnGroups(m.unique, lower), ColumnGroups(n.unique, lower);
    assert |a| == |m.unique| && |b| == |n.unique|;
    forall i | 0 <= i < |m.unique| ensures |m.unique[i]| == |n.unique[i]| {
      assert a[i] == b[i] && |a[i]| == |m.unique[i]| && |b[i]| == |n.unique[i]|;
    }
  }

  lemma CanonicalDetermines(m: Model, n: Model, lower: Lowering)
    requires KeysKnown(m) && KeysKnown(n) && ColumnsDiffer(m.fields, lower)
    requires Canonical(m, lower) == Canonical(n, lower)
    ensures m == n
  {
    hide ColumnsDiffer, Columns;
    CanonicalShows(m, n, lower);
    ColumnsInjective(m.fields, m.primaryKey, n.primaryKey, lower);
    var c, d := ColumnGroups(m.unique, lower), ColumnGroups(n.unique, lower);
    forall i | 0 <= i < |m.unique| ensures m.unique[i] == n.unique[i] {
      assert c[i] == d[i];
      assert m.unique[i] in m.unique && n.unique[i] in n.unique;
      ColumnsInjective(m.fields, m.unique[i], n.unique[i], lower);
    }
  }

  lemma CollisionHides(fields: seq<Field>, f: Field, g: Field, lower: Lowering)
    requires f in fields && g in fields && f.name != g.name
    requires SnakeCase(f.name, lower) == SnakeCase(g.name, lower)
    ensures var m, n := Model("M", "t", [f.name], [], fields), Model("M", "t", [g.name], [], fields);
      KeysKnown(m) && KeysKnown(n) && Canonical(m, lower) == Canonical(n, lower) && m != n
  {
    hide SnakeCase;
    var m, n := Model("M", "t", [f.name], [], fields), Model("M", "t", [g.name], [], fields);
    assert Columns(m.primaryKey, lower) == [SnakeCase(f.name, lower)];
    assert Columns(n.primaryKey, lower) == [SnakeCase(g.name, lower)];
    assert m.primaryKey[0] != n.primaryKey[0];
  }

  /** Two models over `fields` that the comparison cannot tell apart. */
  ghost predicate Indistinct(fields: seq<Field>, m: Model, n: Model, lower: Lowering) {
    && m.fields == fields == n.fields && KeysKnown(m) && KeysKnown(n)
    && Canonical(m, lower) == Canonical(n, lower)
  }

  /**
   Comparing canonical forms tells models over given fields apart exactly when no two of the
   fields share a column.
   */
  lemma CanonicalFaithfulIff(fields: seq<Field>, lower: Lowering)
    ensures ColumnsDiffer(fields, lower) <==> forall m, n :: Indistinct(fields, m, n, lower) ==> m == n
  {
    hide Canonical, KeysKnown, SnakeCase;
    if ColumnsDiffer(fields, lower) {
      forall m, n | Indistinct(fields, m, n, lower) ensures m == n {
        CanonicalDetermines(m, n, lower);
      }
    } else {
      var f, g :| f in fields && g in fields && SnakeCase(f.name, lower) == SnakeCase(g.name, lower)
                  && f.name != g.name;
      CollisionHides(fields, f, g, lower);
      assert Indistinct(fields, Model("M", "t", [f.name], [], fields), Model("M", "t", [g.name], [], fields), lower);
    }
  }

  lemma UnderscoredSnoc(s: string, c: char)
    ensures Underscored(s + [c]) == Underscored(s) + if s != [] && IsUpper(c) then ['_', c] else [c]
  {
    assert (s + [c])[..|s|] == s;
  }

  /** A capital and an underscore with the small letter give one column: `aB` and `a_b` share it. */
  lemma CamelMeetsSnake(s: string, capital: char, small: char, lower: Lowering)
    requires s != [] && IsUpper(capital) && !IsUpper(small)
    requires lower(Underscored(s) + ['_', capital]) == lower(Underscored(s) + ['_', small])
    ensures SnakeCase(s + [capital], lower) == SnakeCase(s + ['_'] + [small], lower)
    ensures s + [capital] != s + ['_'] + [small]
  {
    hide Underscored;
    UnderscoredSnoc(s, capital);
    UnderscoredSnoc(s, '_');
    UnderscoredSnoc(s + ['_'], small);
    Ends(Underscored(s), '_', small);
    assert |s + [capital]| != |s + ['_'] + [small]|;
  }

  /** With capitals made small, `aB` and `a_b` are one column. */
  lemma CamelExample()
    ensures SnakeCase("aB", HttpBytes.Lower) == SnakeCase("a_b", HttpBytes.Lower) && "aB" != "a_b"
  {
    hide Underscored;
    UnderscoredSnoc([], 'a');
    UnderscoredEmpty();
    assert [] + ['a'] == "a";
    assert Underscored("a") == "a";
    assert HttpBytes.Lower("a" + ['_', 'B']) == "a_b" == HttpBytes.Lower("a" + ['_', 'b']);
    CamelMeetsSnake("a", 'B', 'b', HttpBytes.Lower);
    assert "a" + ['B'] == "aB" && "a" + ['_'] + ['b'] == "a_b";
  }

  lemma UnderscoredEmpty()
    ensures Underscored([]) == []
  {}

  lemma Ends(s: string, c: char, d: char)
    ensures s + [c] + [d] == s + [c, d]
  {}
}
