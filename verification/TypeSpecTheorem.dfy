/** The TypeSpec round trip: what is read from a printed model, and when it is that model. */
module TypeSpecTheorem {
  import opened Prelude
  import opened Text
  import opened SchemaModel
  import opened TypeSpecWitness
  import opened TypeSpecLines
  import opened TypeSpecBlocks
  import opened TypeSpecParsed
  import opened TypeSpecRoundTrip
  import opened TypeSpecDocument
  import opened TypeSpecKeys
  import opened TypeSpecHeader
  import opened TypeSpecSearch

  // ----- the fields

  lemma SameFieldLines(fields: seq<Field>)
    ensures FieldLines(EscapedFields(fields)) == FieldLines(fields)
    ensures FieldNames(EscapedFields(fields)) == FieldNames(fields)
  {
    hide EscapeAll, TypeName;
    var es := EscapedFields(fields);
    assert forall i :: 0 <= i < |fields| ==> TypeName(es[i]) == TypeName(fields[i]) by {
      forall i | 0 <= i < |fields| ensures TypeName(es[i]) == TypeName(fields[i]) {
        SameTypeName(fields[i]);
      }
    }
    forall n | n in FieldNames(fields) ensures n in FieldNames(es) {
      var f :| f in fields && f.name == n;
      var i :| 0 <= i < |fields| && fields[i] == f;
      assert es[i] in es && es[i].name == n;
    }
  }

  lemma SameTypeName(f: Field)
    ensures TypeName(Escaped(f)) == TypeName(f)
  {
    hide EscapeAll;
  }

  lemma EscapedReadable(enums: map<string, seq<string>>, f: Field)
    requires FieldOk(f) && IsIdent(f.name) && Defines(enums, [f])
    requires IsEnum(f) ==> IsIdent(f.enumName.value) && !IsScalar(f.enumName.value)
    ensures Readable(enums, Escaped(f))
  {
    EscapeAllSize(f.enumValues);
    assert f in [f];
    hide EscapeAll, IsIdent, IsScalar;
  }

  lemma FieldsRead(m: Model, enums: map<string, seq<string>>)
    requires Declared(m) && Defines(enums, m.fields)
    ensures ParseFieldLines(enums, LinesOf(FieldsBody(m.fields))) == Ok(EscapedFields(m.fields))
  {
    hide FieldLines, ParseFieldLines, AllFree, KeysKnown, IsIdent, IsScalar, FieldOk, Readable, EscapeAll, FieldNames,
      LinesOf, FieldsBody, TypeName, EnumsPrintable;
    TypeNames(m);
    FieldsBodyLines(m.fields);
    var es := EscapedFields(m.fields);
    forall e | e in es ensures Readable(enums, e) {
      var i :| 0 <= i < |es| && es[i] == e;
      assert m.fields[i] in m.fields;
      EscapedReadable(enums, m.fields[i]);
    }
    FieldBodyBack(enums, es);
    SameFieldLines(m.fields);
  }

  // ----- the metadata

  lemma DocumentText(m: Model, authority: string, digest: string)
    ensures Document(m, authority, digest)
         == Glue(Preamble(authority, digest))
            + (SqlLine("table", m.table) + "\n"
               + (SqlLine("primary-key", Join(m.primaryKey, ',')) + "\n"
                  + (SqlLine("unique", JoinGroups(m.unique)) + "\n" + ("\n" + Declarations(m)))))
  {
    hide HeaderLines, Glue, Preamble, Join, JoinGroups, SqlLine, Declarations;
    HeaderText(m, authority, digest, Declarations(m));
    var line := SqlLine("table", m.table);
    var rest := SqlLine("primary-key", Join(m.primaryKey, ',')) + "\n"
      + (SqlLine("unique", JoinGroups(m.unique)) + "\n" + ("\n" + Declarations(m)));
    assert line + ("\n" + rest) == line + "\n" + rest;
  }

  lemma DocumentSkips(m: Model, authority: string, digest: string, key: string)
    requires IsQuietLine(authority) && IsQuietLine(digest)
    ensures Metadata(Document(m, authority, digest), key)
         == Metadata(SqlLine("table", m.table) + "\n"
                     + (SqlLine("primary-key", Join(m.primaryKey, ',')) + "\n"
                        + (SqlLine("unique", JoinGroups(m.unique)) + "\n" + ("\n" + Declarations(m)))), key)
  {
    hide Document, Glue, Preamble, Join, JoinGroups, SqlLine, Declarations, IsRemark, NamespaceLine, IsQuietLine, Metadata;
    DocumentText(m, authority, digest);
    forall l | l in Preamble(authority, digest)
      ensures (IsRemark(l) || l == NamespaceLine() || l == "") && IsQuietLine(l)
    {
      PreambleLine(authority, digest, l);
    }
    PreambleSkipped(Preamble(authority, digest),
                    SqlLine("table", m.table) + "\n"
                    + (SqlLine("primary-key", Join(m.primaryKey, ',')) + "\n"
                       + (SqlLine("unique", JoinGroups(m.unique)) + "\n" + ("\n" + Declarations(m)))), key);
  }

  lemma SqlSingle(key: string, text: string)
    requires Free(text, '\n') && (key == "table" || key == "primary-key" || key == "unique")
    ensures Free(SqlLine(key, text), '\n') && SqlLine(key, text) != [] && SqlLine(key, text)[0] == '/'
  {}

  lemma KeyStarts()
    ensures "table"[0] == 't' && "primary-key"[0] == 'p' && "unique"[0] == 'u'
  {}

  /** A value that is there is what is read. */
  lemma OwnValue(key: string, text: string, rest: string)
    requires IsValue(text)
    ensures Metadata(SqlLine(key, text) + "\n" + rest, key) == Ok(text)
  {
    hide SqlLine, MetadataAt, ValueAfter, Strip, StripLeft;
    OwnKeyFound(key, text, rest);
    assert " " + text + "\n" + rest == " " + (text + "\n" + rest);
    BlankStrips();
    NextText(" ", text, rest);
    StripRightSame(text);
  }

  lemma BlankStrips()
    ensures StripLeft(" ") == [] && StripLeft(" \n") == [] && StripLeft(" \n\n") == []
  {
    AllBlank(" ");
    AllBlank(" \n");
    AllBlank(" \n\n");
  }

  lemma StripRightSame(s: string)
    requires s == [] || !IsSpace(s[|s| - 1])
    ensures StripRight(s) == s
  {}

  lemma TableRead(m: Model, authority: string, digest: string)
    requires IsQuietLine(authority) && IsQuietLine(digest) && IsValue(m.table)
    ensures Metadata(Document(m, authority, digest), "table") == Ok(m.table)
  {
    hide *;
    DocumentSkips(m, authority, digest, "table");
    OwnValue("table", m.table,
             SqlLine("primary-key", Join(m.primaryKey, ',')) + "\n"
             + (SqlLine("unique", JoinGroups(m.unique)) + "\n" + ("\n" + Declarations(m))));
  }

  lemma SkipTable(m: Model, rest: string, key: string)
    requires Free(m.table, '\n') && (key == "primary-key" || key == "unique")
    ensures Metadata(SqlLine("table", m.table) + "\n" + rest, key) == Metadata(rest, key)
  {
    hide SqlLine, MetadataAt, Metadata;
    KeyStarts();
    OtherKeySkipped("table", m.table, rest, key);
    SqlSingle("table", m.table);
    MetadataSkip(SqlLine("table", m.table), rest, key);
  }

  lemma SkipPrimary(keys: string, rest: string)
    requires Free(keys, '\n')
    ensures Metadata(SqlLine("primary-key", keys) + "\n" + rest, "unique") == Metadata(rest, "unique")
  {
    hide SqlLine, MetadataAt, Metadata;
    KeyStarts();
    OtherKeySkipped("primary-key", keys, rest, "unique");
    SqlSingle("primary-key", keys);
    MetadataSkip(SqlLine("primary-key", keys), rest, "unique");
  }

  /** Without a value, the next text is taken for one. */
  lemma MissingValue(key: string, blanks: string, line: string, rest: string)
    requires blanks == "\n" || blanks == "\n\n"
    requires line != [] && !IsSpace(line[0]) && Free(line, '\n')
    ensures Metadata(SqlLine(key, []) + blanks + (line + "\n" + rest), key) == Ok(StripRight(line))
  {
    hide SqlLine, MetadataAt, ValueAfter, StripLeft, StripRight;
    var more := blanks[1..] + (line + "\n" + rest);
    assert blanks == "\n" + blanks[1..];
    assert SqlLine(key, []) + blanks + (line + "\n" + rest) == SqlLine(key, []) + "\n" + more;
    OwnKeyFound(key, [], more);
    assert " " + [] + "\n" + more == (" " + blanks) + (line + "\n" + rest);
    BlankStrips();
    assert " " + "\n" == " \n" && " " + "\n\n" == " \n\n";
    NextText(" " + blanks, line, rest);
  }

  lemma NoSpaceValue(s: string)
    requires NoSpace(s) && s != [] && Free(s, '\n')
    ensures IsValue(s)
  {
    assert s[0] in s && s[|s| - 1] in s;
  }

  /** Without a primary key the reader takes the next comment for one. */
  lemma PrimaryRead(m: Model, authority: string, digest: string)
    requires Notated(m) && IsQuietLine(authority) && IsQuietLine(digest)
    ensures var r := Metadata(Document(m, authority, digest), "primary-key");
      r.Ok? && (if m.primaryKey != [] then ParseKey(r.value) == m.primaryKey
                else exists k :: k in ParseKey(r.value) && k !in FieldNames(m.fields))
  {
    hide Declared, Document, Declarations, SqlLine, Metadata, Strip, StripRight, ParseKey, Join, JoinGroups, AllIdents,
      FieldNames, IsQuietLine, AllGroupsIdents;
    var keys, groups := Join(m.primaryKey, ','), JoinGroups(m.unique);
    var uniqueLine, rest := SqlLine("unique", groups), "\n" + Declarations(m);
    DocumentSkips(m, authority, digest, "primary-key");
    SkipTable(m, SqlLine("primary-key", keys) + "\n" + (uniqueLine + "\n" + rest), "primary-key");
    KeysAreIdents(m);
    KeyText(m.primaryKey);
    GroupsText(m.unique);
    if m.primaryKey != [] {
      NoSpaceValue(keys);
      OwnValue("primary-key", keys, uniqueLine + "\n" + rest);
      KeyBack(m.primaryKey);
    } else {
      SqlSingle("unique", groups);
      MissingValue("primary-key", "\n", uniqueLine, rest);
      StripRightSome(uniqueLine);
      SlashKeyUnknown(m, StripRight(uniqueLine));
    }
  }

  /** Without unique groups the reader takes the first declaration for them. */
  lemma UniqueRead(m: Model, authority: string, digest: string)
    requires Notated(m) && IsQuietLine(authority) && IsQuietLine(digest)
    ensures var r := Metadata(Document(m, authority, digest), "unique");
      r.Ok? && (if JoinGroups(m.unique) != [] then ParseGroups(Split(r.value, ';')) == NonEmpty(m.unique)
                else exists g, k :: g in ParseGroups(Split(r.value, ';')) && k in g && k !in FieldNames(m.fields))
  {
    hide Declared, Document, Declarations, SqlLine, Metadata, Strip, StripRight, ParseGroups, Join, JoinGroups, AllIdents,
      FieldNames, IsQuietLine, AllGroupsIdents, NonEmpty, Split, IsIdent;
    var keys, groups := Join(m.primaryKey, ','), JoinGroups(m.unique);
    var rest := "\n" + Declarations(m);
    DocumentSkips(m, authority, digest, "unique");
    SkipTable(m, SqlLine("primary-key", keys) + "\n" + (SqlLine("unique", groups) + "\n" + rest), "unique");
    KeysAreIdents(m);
    KeyText(m.primaryKey);
    GroupsText(m.unique);
    SkipPrimary(keys, SqlLine("unique", groups) + "\n" + rest);
    if groups != [] {
      NoSpaceValue(groups);
      OwnValue("unique", groups, rest);
      UniqueBack(m.unique);
    } else {
      UniqueMissing(m);
    }
  }

  lemma UniqueMissing(m: Model)
    requires Declared(m)
    ensures var r := Metadata(SqlLine("unique", []) + "\n" + ("\n" + Declarations(m)), "unique");
      r.Ok? && exists g, k :: g in ParseGroups(Split(r.value, ';')) && k in g && k !in FieldNames(m.fields)
  {
    hide Declared, Declarations, SqlLine, Metadata, Strip, StripRight, ParseGroups, FieldNames, Split, IsIdent;
    var word, name, rest := FirstDeclaration(m);
    var head := word + " " + name + " {";
    KeywordIdent(word);
    HeadLine(word, name);
    DeclarationKeyUnknown(m, word, name);
    assert SqlLine("unique", []) + "\n" + ("\n" + Declarations(m))
        == SqlLine("unique", []) + "\n\n" + (head + "\n" + rest);
    MissingValue("unique", "\n\n", head, rest);
  }

  lemma HeadLine(word: string, name: string)
    requires IsIdent(word) && IsIdent(name)
    ensures var head := word + " " + name + " {";
      head != [] && !IsSpace(head[0]) && Free(head, '\n') && StripRight(head) == head
  {
    var head := word + " " + name + " {";
    assert head[0] == word[0] && head[|head| - 1] == '{';
    IdentNotSpace(word[0]);
    StripRightSame(head);
  }

  // ----- what is read

  /**
   A printed model is read at all: its values are legible, its keys leave no comment empty, and no
   free text declares a model or spoils the enums.
   */
  ghost predicate CanBeRead(m: Model, letters: Letters) {
    && EnumsLegible(m.fields) && m.primaryKey != [] && JoinGroups(m.unique) != []
    && TableReads(m.table, letters) && NoOtherModel(m, letters)
  }

  /** What is read from a model that can be read: empty groups are gone, values are spelled as in JSON. */
  function Witnessed(m: Model): Model {
    m.(unique := NonEmpty(m.unique), fields := EscapedFields(m.fields))
  }

  lemma WitnessedKeysKnown(m: Model)
    requires KeysKnown(m)
    ensures KeysKnown(Witnessed(m))
  {
    hide EscapedFields, FieldNames;
    NonEmptyWhole(m.unique);
    SameFieldLines(m.fields);
  }

  /** How the parts found in the source make up the result. */
  lemma Assembled(
    source: string, letters: Letters, enums: map<string, seq<string>>, name: string, body: string, fields: seq<Field>,
    primary: string, unique: string, table: string)
    requires DeclaresNamespace(source, letters)
    requires ParseEnums(Blocks(source, false, "enum", letters)) == Ok(enums)
    requires Blocks(source, false, "model", letters) == [(name, body)]
    requires ParseFieldLines(enums, LinesOf(body)) == Ok(fields)
    requires Metadata(source, "primary-key") == Ok(primary) && Metadata(source, "unique") == Ok(unique)
    requires Metadata(source, "table") == Ok(table)
    ensures var m := Model(name, table, ParseKey(primary), ParseGroups(Split(unique, ';')), fields);
      ParseTypeSpec(source, letters) == if KeysKnown(m) then Ok(m) else Err(UnknownKey)
  {
    hide DeclaresNamespace, Blocks, ParseEnums, ParseFieldLines, Metadata, ParseKey, ParseGroups, Split, LinesOf;
  }

  /** The reader stops at the enums, or at the models. */
  lemma Refused(source: string, letters: Letters)
    requires var r := ParseEnums(Blocks(source, false, "enum", letters));
      var models := Blocks(source, false, "model", letters);
      || r.Err?
      || |models| != 1
      || ParseFieldLines(r.value, LinesOf(models[0].1)).Err?
    ensures ParseTypeSpec(source, letters).Err?
  {
    hide DeclaresNamespace, Blocks, ParseEnums, ParseFieldLines, Metadata, ParseKey, ParseGroups, Split, LinesOf;
  }

  lemma NamespaceThere(m: Model, authority: string, digest: string, letters: Letters)
    ensures DeclaresNamespace(Document(m, authority, digest), letters)
  {
    hide DeclaresNamespace, Glue, Declarations, NamespaceLine, Notice, Warning, Purpose, WitnessLine, SqlLine, Join,
      JoinGroups;
    var lines := HeaderLines(m, authority, digest);
    var before, after := lines[..5], lines[6..];
    assert lines[5] == NamespaceLine() && before != [];
    assert lines == before + ([NamespaceLine()] + after);
    GlueJoin(before, [NamespaceLine()] + after);
    GlueJoin([NamespaceLine()], after);
    GlueOne(NamespaceLine());
    var rest := "\n" + Glue(after) + Declarations(m);
    assert Document(m, authority, digest) == Glue(before) + (NamespaceLine() + rest);
    NamespaceDeclared(before, rest, letters);
  }

  /** What the reader makes of every model in the notation's terms. */
  lemma DocumentRead(m: Model, authority: string, digest: string, letters: Letters)
    requires Notated(m) && IsQuietLine(authority) && IsQuietLine(digest)
    ensures var r := ParseTypeSpec(Document(m, authority, digest), letters);
      if CanBeRead(m, letters) then r == Ok(Witnessed(m)) else r.Err?
  {
    hide Declared, Document, DeclaresNamespace, Blocks, ParseEnums, ParseFieldLines, Metadata, ParseKey, ParseGroups,
      Split, JoinGroups, NonEmpty, ParseTypeSpec, FieldNames, EscapedFields, EnumsLegible, TableReads, NoOtherModel,
      LinesOf, Defines, IsQuietLine, FieldsBody, IsValue;
    var doc := Document(m, authority, digest);
    NamespaceThere(m, authority, digest, letters);
    EnumPass(m, authority, digest, letters);
    ModelPass(m, authority, digest, letters);
    var r := ParseEnums(Blocks(doc, false, "enum", letters));
    if r.Err? || !NoOtherModel(m, letters) {
      Refused(doc, letters);
    } else {
      TableRead(m, authority, digest);
      PrimaryRead(m, authority, digest);
      UniqueRead(m, authority, digest);
      FieldsRead(m, r.value);
      DeclaredKeys(m);
      WitnessedKeysKnown(m);
      SameFieldLines(m.fields);
      Assembled(doc, letters, r.value, m.name, FieldsBody(m.fields), EscapedFields(m.fields),
                Metadata(doc, "primary-key").value, Metadata(doc, "unique").value, m.table);
    }
  }

  lemma DeclaredKeys(m: Model)
    requires Declared(m)
    ensures KeysKnown(m)
  {}

  /** What is read back from the printed source of every model in the notation's terms. */
  lemma TypeSpecRead(m: Model, authority: string, digest: string, letters: Letters)
    requires Notated(m) && IsQuietLine(authority) && IsQuietLine(digest)
    ensures RenderTypeSpec(m, authority, digest).Ok?
    ensures var r := ParseTypeSpec(RenderTypeSpec(m, authority, digest).value, letters);
      if CanBeRead(m, letters) then r == Ok(Witnessed(m)) else r.Err?
  {
    hide Declared, Document, ParseTypeSpec, Witnessed, CanBeRead, RenderTypeSpec, IsQuietLine, IsValue;
    DeclaredRenders(m, authority, digest);
    Rendered(m, authority, digest);
    DocumentRead(m, authority, digest, letters);
  }

  // ----- what survives

  /** A primary key and unique groups, none of them empty. */
  predicate KeysPresent(m: Model) {
    m.primaryKey != [] && m.unique != [] && forall g :: g in m.unique ==> g != []
  }

  lemma PresentText(m: Model)
    requires Declared(m) && KeysPresent(m)
    ensures JoinGroups(m.unique) != []
  {
    KeysAreIdents(m);
    assert m.unique[0] in m.unique;
    KeyText(m.unique[0]);
    var texts := Texts(m.unique);
    assert JoinGroups(m.unique) == Join(texts, ';');
    assert texts[0] == Join(m.unique[0], ',');
  }

  /** JSON shows every enum value as it is. */
  ghost predicate ValuesPlain(m: Model) {
    forall f, v :: f in m.fields && v in f.enumValues ==> Shown(v)
  }

  lemma EscapeAllPlain(values: seq<string>)
    ensures EscapeAll(values) == values <==> forall v :: v in values ==> AllPlain(v)
  {
    hide Escape, AllPlain;
    forall v | v in values ensures Escape(v) == v <==> AllPlain(v) {
      EscapePlain(v);
    }
    if EscapeAll(values) == values {
      forall v | v in values ensures AllPlain(v) {
        var i :| 0 <= i < |values| && values[i] == v;
        assert EscapeAll(values)[i] == Escape(values[i]);
      }
    }
  }

  lemma EscapedFieldsPlain(fields: seq<Field>)
    ensures EscapedFields(fields) == fields <==> forall f, v :: f in fields && v in f.enumValues ==> AllPlain(v)
  {
    hide EscapeAll, AllPlain;
    var es := EscapedFields(fields);
    forall f | f in fields ensures Escaped(f) == f <==> forall v :: v in f.enumValues ==> AllPlain(v) {
      EscapeAllPlain(f.enumValues);
    }
    if es == fields {
      forall f, v | f in fields && v in f.enumValues ensures AllPlain(v) {
        var i :| 0 <= i < |fields| && fields[i] == f;
        assert es[i] == Escaped(fields[i]);
      }
    }
  }

  lemma ShownIff(v: string)
    ensures Shown(v) <==> Legible(v) && AllPlain(v)
  {}

  /** Nothing is lost exactly when no group is empty and JSON shows every value as it is. */
  lemma WitnessedSame(m: Model)
    ensures Witnessed(m) == m <==>
      (forall g :: g in m.unique ==> g != []) && forall f, v :: f in m.fields && v in f.enumValues ==> AllPlain(v)
    ensures Witnessed(m) != m ==> |Witnessed(m).unique| != |m.unique| || Witnessed(m).fields != m.fields
  {
    hide EscapedFields, NonEmpty, AllPlain;
    NonEmptyWhole(m.unique);
    EscapedFieldsPlain(m.fields);
  }

  lemma OnlyEnumsHaveValues(m: Model)
    requires Declared(m)
    ensures forall f :: f in m.fields && f.enumValues != [] ==> IsEnum(f)
  {
    hide KeysKnown, AllFree, IsIdent;
  }

  lemma LegibleValues(m: Model)
    requires forall f :: f in m.fields && f.enumValues != [] ==> IsEnum(f)
    ensures EnumsLegible(m.fields) && (forall f, v :: f in m.fields && v in f.enumValues ==> AllPlain(v))
      <==> ValuesPlain(m)
  {
    hide AllPlain, Legible, Shown;
    forall f, v | f in m.fields && v in f.enumValues ensures Shown(v) <==> Legible(v) && AllPlain(v) {
      ShownIff(v);
    }
    if EnumsLegible(m.fields) {
      forall f, v | f in m.fields && v in f.enumValues ensures Legible(v) {
        assert AllLegible(f.enumValues);
      }
    }
  }

  /** Exactly the models that the TypeSpec witness carries without loss. */
  ghost predicate Survives(m: Model, letters: Letters) {
    Notated(m) && KeysPresent(m) && ValuesPlain(m) && TableReads(m.table, letters) && NoOtherModel(m, letters)
  }

  /** A model that can be read and loses nothing is one that survives. */
  lemma ReadWholeIff(m: Model, letters: Letters)
    requires Notated(m)
    ensures CanBeRead(m, letters) && Witnessed(m) == m <==> Survives(m, letters)
  {
    hide TableReads, NoOtherModel, Declared;
    OnlyEnumsHaveValues(m);
    LegibleValues(m);
    WitnessedSame(m);
    if KeysPresent(m) {
      PresentText(m);
    }
    if m.unique == [] {
      assert Texts(m.unique) == [];
      assert JoinGroups(m.unique) == Join([], ';');
    }
  }

  lemma BlanksHaveNoKey(key: string)
    ensures Metadata([], key).Err?
  {}

  lemma BraceKeptAfter(s: string, prefix: string, c: char)
    requires c in s && c !in prefix
    ensures After(s, prefix).Some? ==> c in After(s, prefix).value
  {
    if prefix <= s {
      assert s == prefix + s[|prefix|..];
    }
  }

  lemma ValueBeforeBrace(s: string, key: string)
    requires '}' in s && '}' !in key
    ensures MetadataAt(s, key).Some? ==> IsValue(MetadataAt(s, key).value)
  {
    hide ValueAfter, IsValue, StripLeft;
    StripKeeps(s, '}');
    BraceKeptAfter(StripLeft(s), "//", '}');
    match After(StripLeft(s), "//")
    case None =>
    case Some(comment) =>
      StripKeeps(comment, '}');
      assert '}' !in "@ores.sql." + key by {
        assert Free("@ores.sql.", '}');
      }
      BraceKeptAfter(StripLeft(comment), "@ores.sql." + key, '}');
      match After(StripLeft(comment), "@ores.sql." + key)
      case None =>
      case Some(rest) =>
        StripKeeps(rest, '}');
        ValueShape(rest);
  }

  /** In a text that ends with a closed block, metadata is never just a blank. */
  lemma {:induction false} ClosedMetadata(x: string, key: string)
    requires '}' !in key
    ensures var r := Metadata(x + "}\n", key); r.Ok? ==> IsValue(r.value)
    decreases |x|
  {
    hide MetadataAt, IsValue, Before;
    var s := x + "}\n";
    assert s[|x|] == '}' && s[|x| + 1] == '\n';
    ValueBeforeBrace(s, key);
    if MetadataAt(s, key).None? {
      BeforeJoin(x, "}\n", '\n');
      var n := |Before(s, '\n')|;
      if '\n' in x {
        assert s[n + 1..] == x[n + 1..] + "}\n";
        ClosedMetadata(x[n + 1..], key);
      } else {
        FirstBreak();
        assert s[n + 1..] == [];
        BlanksHaveNoKey(key);
      }
    }
  }

  lemma FirstBreak()
    ensures Before("}\n", '\n') == "}"
  {
    assert "}\n" == "}" + ['\n'] + [];
    BeforeBack("}", '\n', []);
  }

  lemma RenderedTable(m: Model, authority: string, digest: string, letters: Letters)
    ensures var source := RenderTypeSpec(m, authority, digest);
      source.Ok? && ParseTypeSpec(source.value, letters).Ok? ==> IsValue(ParseTypeSpec(source.value, letters).value.table)
  {
    hide RenderTypeSpec, ParseTypeSpec, IsValue, Metadata, Declarations, FieldsBody, Glue, HeaderLines;
    var source := RenderTypeSpec(m, authority, digest);
    if source.Ok? && ParseTypeSpec(source.value, letters).Ok? {
      Rendered(m, authority, digest);
      var enums := Origin(source.value, letters);
      var x := DocumentCloses(m, authority, digest);
      assert '}' !in "table";
      ClosedMetadata(x, "table");
    }
  }

  lemma DocumentCloses(m: Model, authority: string, digest: string) returns (x: string)
    ensures Document(m, authority, digest) == x + "}\n"
  {
    hide Glue, HeaderLines, FieldsBody, AllEnumLines;
    x := Glue(HeaderLines(m, authority, digest)) + Glue(AllEnumLines(m.fields))
         + ("model" + " " + m.name + " {" + FieldsBody(m.fields));
    assert "}\n" == "}" + "\n";
  }

  lemma UnnotatedDiffers(m: Model, n: Model)
    requires !Notated(m) && Notated(n) && KeysKnown(m)
    ensures Visible(m, n)
  {
    hide IsIdent, IsValue, Agree, FieldOk, AllFree, IsScalar, KeysKnown;
  }

  /**
   A model is printed and read back unchanged exactly when it is in the notation's terms, has a
   primary key and unique groups that are not empty, has enum values that JSON shows as they are, and
   declares nothing in free text that a search would take for part of the document. Otherwise
   printing or reading fails, or the loss is visible.
   */
  lemma TypeSpecRoundTripsIff(m: Model, authority: string, digest: string, letters: Letters)
    requires KeysKnown(m) && IsQuietLine(authority) && IsQuietLine(digest)
    ensures var source := RenderTypeSpec(m, authority, digest);
      && (source.Ok? && ParseTypeSpec(source.value, letters) == Ok(m) <==> Survives(m, letters))
      && (source.Ok? && !Survives(m, letters) ==>
            ParseTypeSpec(source.value, letters).Err? || Visible(m, ParseTypeSpec(source.value, letters).value))
  {
    hide Declared, ParseTypeSpec, RenderTypeSpec, KeysPresent, ValuesPlain, KeysKnown, TableReads, NoOtherModel,
      IsQuietLine, CanBeRead, Witnessed, IsValue, IsBlank;
    var source := RenderTypeSpec(m, authority, digest);
    if Notated(m) {
      TypeSpecRead(m, authority, digest, letters);
      ReadWholeIff(m, letters);
      WitnessedSame(m);
    } else if source.Ok? && ParseTypeSpec(source.value, letters).Ok? {
      ReadIsDeclared(source.value, letters);
      RenderedTable(m, authority, digest, letters);
      UnnotatedDiffers(m, ParseTypeSpec(source.value, letters).value);
    }
  }
}
