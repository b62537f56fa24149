/** What the searches for enums and models find in a printed document. */
module TypeSpecSearch {
  import opened Prelude
  import opened Text
  import opened SchemaModel
  import opened TypeSpecWitness
  import opened TypeSpecScan
  import opened TypeSpecBlocks
  import opened TypeSpecParsed
  import opened TypeSpecRoundTrip
  import opened TypeSpecDocument
  import opened TypeSpecKeys
  import opened TypeSpecHeader

  // ----- the document as text

  /** What follows the metadata comments. */
  ghost function Declarations(m: Model): string {
    Glue(AllEnumLines(m.fields)) + ModelText(m)
  }

  ghost function Document(m: Model, authority: string, digest: string): string {
    Glue(HeaderLines(m, authority, digest)) + Declarations(m)
  }

  lemma Rendered(m: Model, authority: string, digest: string)
    requires RenderTypeSpec(m, authority, digest).Ok?
    ensures RenderTypeSpec(m, authority, digest) == Ok(Document(m, authority, digest))
  {
    hide HeaderLines, AllEnumLines, FieldLines, Glue, Join, ModelText, TypeName;
    var header, enums := HeaderLines(m, authority, digest), AllEnumLines(m.fields);
    var model := ["model " + m.name + " {"] + FieldLines(m.fields) + ["}"];
    var lines := header + enums + model;
    assert header + enums + ModelLines(m) == lines + [""];
    JoinGlue(lines);
    GlueJoin(header + enums, model);
    GlueJoin(header, enums);
    ModelGlue(m);
    assert Glue(header) + Glue(enums) + ModelText(m) == Glue(header) + (Glue(enums) + ModelText(m));
  }

  lemma TypeNames(m: Model)
    requires Declared(m)
    ensures EnumsPrintable(m.fields) && Agree(m.fields) && IsIdent(m.name)
    ensures forall f :: f in m.fields ==> IsIdent(f.name) && IsIdent(TypeName(f))
  {
    hide AllFree, KeysKnown, IsIdent;
    forall f | f in m.fields ensures IsIdent(TypeName(f)) {
      if f.logicalType != "enum" {
        ScalarsAreIdents(f.logicalType);
      }
    }
  }

  lemma DeclaredRenders(m: Model, authority: string, digest: string)
    requires Declared(m)
    ensures RenderTypeSpec(m, authority, digest).Ok?
  {
    hide HeaderLines, AllEnumLines, ModelLines, TypeName, Declared;
    TypeNames(m);
  }

  /** The first declaration after the header is a line that opens a block. */
  lemma {:induction false} FirstEnumLine(fields: seq<Field>)
    requires EnumsPrintable(fields) && AllEnumLines(fields) != []
    ensures exists name :: IsIdent(name) && AllEnumLines(fields)[0] == "enum " + name + " {"
  {
    hide IsIdent, AllFree, Emitted, MemberLines;
    var before, f := fields[..|fields| - 1], fields[|fields| - 1];
    assert f in fields && forall g :: g in before ==> g in fields;
    if AllEnumLines(before) != [] {
      FirstEnumLine(before);
    } else {
      assert AllEnumLines(fields)[0] == "enum " + f.enumName.value + " {";
    }
  }

  /** The declarations start with the head of a block, and a block closes after it. */
  lemma FirstDeclaration(m: Model) returns (keyword: string, name: string, rest: string)
    requires Declared(m)
    ensures IsKeyword(keyword) && IsIdent(name) && '}' in rest
    ensures Declarations(m) == keyword + " " + name + " {" + "\n" + rest
  {
    hide IsIdent, EnumsPrintable, AllEnumLines, FieldLines, Declared, Agree, TypeName, ModelText, Glue;
    TypeNames(m);
    var lines := AllEnumLines(m.fields);
    ModelCloses(m);
    if lines != [] {
      FirstEnumLine(m.fields);
      keyword := "enum";
      name :| IsIdent(name) && lines[0] == "enum " + name + " {";
      rest := Glue(lines[1..]) + ModelText(m);
      KeywordText(name);
      GlueFirst(lines);
      assert lines[0] + "\n" + Glue(lines[1..]) + ModelText(m) == lines[0] + "\n" + rest;
    } else {
      keyword, name, rest := "model", m.name, Glue(FieldLines(m.fields)) + "}" + "\n";
      GlueNone();
      assert Glue(lines) + ModelText(m) == ModelText(m);
    }
  }

  lemma ModelCloses(m: Model)
    ensures ModelText(m) == "model" + " " + m.name + " {" + "\n" + (Glue(FieldLines(m.fields)) + "}" + "\n")
    ensures '}' in Glue(FieldLines(m.fields)) + "}" + "\n" && '}' in ModelText(m)
  {
    hide Glue;
    var rest := Glue(FieldLines(m.fields)) + "}" + "\n";
    assert rest[|rest| - 2] == '}';
    assert ModelText(m)[|ModelText(m)| - 2] == '}';
  }

  lemma GlueFirst(lines: seq<string>)
    requires lines != []
    ensures Glue(lines) == lines[0] + "\n" + Glue(lines[1..])
  {}

  lemma KeywordText(name: string)
    ensures "enum " + name + " {" == "enum" + " " + name + " {"
  {}

  lemma HeadStarts(keyword: string, name: string, rest: string)
    requires IsKeyword(keyword) && IsIdent(name)
    ensures StartsDeclaration(keyword + " " + name + " {" + "\n" + rest)
  {
    hide IsIdent;
    KeywordIdent(keyword);
    IdentStarts(keyword);
    var decls := keyword + " " + name + " {" + "\n" + rest;
    assert decls == keyword + " " + name + (" {" + "\n" + rest);
    assert decls[0] == keyword[0];
    TwoWordsNotNamed(keyword, name, " {" + "\n" + rest);
  }

  lemma IdentStarts(s: string)
    requires IsIdent(s)
    ensures s != [] && IsIdentStart(s[0])
  {}

  // ----- the text around the table

  /** What comes before the table. */
  ghost function BeforeTable(authority: string, digest: string): string {
    Glue(Preamble(authority, digest)) + "// @ores.sql.table "
  }

  /** What comes after it, up to the declarations. */
  ghost function Comments(m: Model): string {
    Between(Join(m.primaryKey, ','), JoinGroups(m.unique))
  }

  lemma HeaderParts(m: Model, authority: string, digest: string, decls: string)
    ensures Glue(HeaderLines(m, authority, digest)) + decls
         == BeforeTable(authority, digest) + (m.table + (Comments(m) + decls))
    ensures Separate(Comments(m) + decls)
  {
    hide HeaderLines, Glue, Preamble, Join, JoinGroups, Between, Separate;
    var keys, groups := Join(m.primaryKey, ','), JoinGroups(m.unique);
    HeaderText(m, authority, digest, decls);
    BetweenText(keys, groups, decls);
    TableLine(m.table);
    hide AfterTable;
    var p := Glue(Preamble(authority, digest));
    assert p + ("// @ores.sql.table " + m.table + (Comments(m) + decls))
        == p + "// @ores.sql.table " + (m.table + (Comments(m) + decls));
  }

  lemma TableLine(table: string)
    ensures SqlLine("table", table) == "// @ores.sql.table " + table
  {
    assert "// @ores.sql." + "table" + " " == "// @ores.sql.table ";
  }

  lemma PreambleFree(authority: string, digest: string)
    requires IsQuietLine(authority) && IsQuietLine(digest)
    ensures Free(Glue(Preamble(authority, digest)), '{')
  {
    hide Preamble;
    forall l | l in Preamble(authority, digest) ensures Free(l, '{') {
      PreambleLine(authority, digest, l);
    }
    GlueFree(Preamble(authority, digest), '{');
  }

  lemma KeysFree(m: Model)
    requires Declared(m)
    ensures OneLine(Join(m.primaryKey, ',')) && OneLine(JoinGroups(m.unique))
  {
    hide Join, JoinGroups, Declared;
    KeysAreIdents(m);
    KeyText(m.primaryKey);
    GroupsText(m.unique);
  }

  /** A search for either kind of block goes over everything but the table. */
  lemma SearchReachesTable(m: Model, authority: string, digest: string, keyword: string, letters: Letters)
    requires Declared(m) && IsQuietLine(authority) && IsQuietLine(digest) && IsKeyword(keyword)
    ensures Blocks(Document(m, authority, digest), false, keyword, letters)
         == Blocks(m.table + (Comments(m) + Declarations(m)), false, keyword, letters)
    ensures Blocks(Comments(m) + Declarations(m), false, keyword, letters)
         == Blocks(Declarations(m), false, keyword, letters)
  {
    hide Declared, Blocks, HeaderLines, Declarations, IsQuietLine, IsIdent, Join, JoinGroups, Quiet, Between, InWord,
      Preamble, StartsDeclaration, Glue, IsKeyword;
    var decls := Declarations(m);
    HeaderParts(m, authority, digest, decls);
    PreambleFree(authority, digest);
    KeysFree(m);
    var word, name, rest := FirstDeclaration(m);
    HeadStarts(word, name, rest);
    ToTable(Glue(Preamble(authority, digest)), m.table + (Comments(m) + decls), keyword, letters);
    QuietSkip(BeforeTable(authority, digest), m.table + (Comments(m) + decls), false, keyword, letters);
    FromTable(Join(m.primaryKey, ','), JoinGroups(m.unique), decls, keyword, letters);
    QuietSkip(Comments(m), decls, false, keyword, letters);
  }

  // ----- the enums

  /** Enums declared in the table are whole and can be read. */
  ghost predicate TableReads(table: string, letters: Letters) {
    var blocks := ClosedBlocks(table, false, "enum", letters);
    blocks.Some? && ParseEnums(blocks.value).Ok?
  }

  lemma DeclarationBlocks(m: Model, letters: Letters)
    requires Declared(m)
    ensures Blocks(Declarations(m), false, "enum", letters) == EnumBlocks(m.fields)
  {
    hide Declared, Blocks, EnumBlocks, EnumsPrintable, Agree, IsIdent, TypeName, Glue, ModelText, AllEnumLines;
    TypeNames(m);
    EnumBlocksFound(m.fields, ModelText(m), letters);
    ModelFound(m, letters);
    assert EnumBlocks(m.fields) + [] == EnumBlocks(m.fields);
  }

  /** What the search for enums makes of the document. */
  lemma EnumPass(m: Model, authority: string, digest: string, letters: Letters)
    requires Declared(m) && IsQuietLine(authority) && IsQuietLine(digest)
    ensures var r := ParseEnums(Blocks(Document(m, authority, digest), false, "enum", letters));
      if TableReads(m.table, letters) && EnumsLegible(m.fields) then r.Ok? && Defines(r.value, m.fields) else r.Err?
  {
    hide Declared, Blocks, ParseEnums, IsQuietLine, EnumBlocks, EnumsLegible, Defines, ClosedBlocks, Document,
      Declarations, Comments, EnumsPrintable, Agree, IsIdent, TypeName;
    SearchReachesTable(m, authority, digest, "enum", letters);
    DeclarationBlocks(m, letters);
    TypeNames(m);
    KeywordsAreIdents();
    HeaderSeparate(m, authority, digest);
    match ClosedBlocks(m.table, false, "enum", letters)
    case Some(blocks) =>
      ClosedSkip(m.table, Comments(m) + Declarations(m), false, "enum", letters);
      if ParseEnums(blocks).Ok? {
        EnumsParsed(blocks, m.fields);
      } else {
        EnumsFailEarly(blocks, EnumBlocks(m.fields));
      }
    case None =>
      TableRunsOver(m, letters);
  }

  lemma HeaderSeparate(m: Model, authority: string, digest: string)
    ensures Separate(Comments(m) + Declarations(m))
  {
    hide Comments, Declarations, Separate;
    HeaderParts(m, authority, digest, Declarations(m));
  }

  /** A declaration that the table leaves open swallows the head of the first block. */
  lemma TableRunsOver(m: Model, letters: Letters)
    requires Declared(m) && ClosedBlocks(m.table, false, "enum", letters).None?
    ensures ParseEnums(Blocks(m.table + (Comments(m) + Declarations(m)), false, "enum", letters)).Err?
  {
    hide Declared, Blocks, ParseEnums, ClosedBlocks, Declarations, Comments, IsIdent, LinesOf, Leads, ParseMembers;
    KeywordsAreIdents();
    var word, name, rest := FirstDeclaration(m);
    KeywordIdent(word);
    var z, head := Comments(m) + Declarations(m), word + " " + name + " {";
    var p := CommentsLead(m, word, name, rest);
    OpenRunsOver(m.table, z, p, head, rest, false, "enum", letters);
    var blocks := Blocks(m.table + z, false, "enum", letters);
    var b :| b in blocks && head in LinesOf(b.1);
    HeadIsNoMember(word, name, LinesOf(b.1));
    EnumsFail(blocks, b);
  }

  lemma CommentsLead(m: Model, word: string, name: string, rest: string) returns (p: string)
    requires Declared(m) && IsIdent(word) && IsIdent(name) && '}' in rest
    requires Declarations(m) == word + " " + name + " {" + "\n" + rest
    ensures Leads(Comments(m) + Declarations(m), p, word + " " + name + " {", rest)
  {
    hide Declared, Declarations, IsIdent, Join, JoinGroups, GroupPart, KeyPart, Unbroken, Separate;
    var keys, groups := Join(m.primaryKey, ','), JoinGroups(m.unique);
    KeysFree(m);
    BetweenFree(keys, groups);
    BetweenText(keys, groups, Declarations(m));
    GroupPartEnd(groups);
    HeadPlain(word, name);
    var x := Comments(m);
    var g := GroupPart(groups);
    assert x[|x| - 1] == g[|g| - 1] == '\n';
    p := x[..|x| - 1];
    assert x == p + "\n";
    assert '}' !in p;
    assert x + (word + " " + name + " {" + "\n" + rest) == p + "\n" + (word + " " + name + " {" + "\n" + rest);
  }

  // ----- the model

  /** Neither the table nor an enum value declares a model. */
  ghost predicate NoOtherModel(m: Model, letters: Letters) {
    Undeclared(m.table, "model", letters) && ValuesUndeclared(m.fields, "model", letters)
  }

  ghost function BeforeModel(m: Model, authority: string, digest: string): string {
    Glue(HeaderLines(m, authority, digest)) + Glue(AllEnumLines(m.fields))
  }

  lemma HeaderQuiet(m: Model, authority: string, digest: string, decls: string, letters: Letters)
    requires Declared(m) && IsQuietLine(authority) && IsQuietLine(digest) && StartsDeclaration(decls)
    ensures Quiet(Glue(HeaderLines(m, authority, digest)), decls, false, "model", letters)
      <==> Undeclared(m.table, "model", letters)
  {
    hide Declared, HeaderLines, IsQuietLine, StartsDeclaration, Quiet, Glue, Join, JoinGroups, Between, InWord, Preamble;
    KeywordsAreIdents();
    KeysFree(m);
    PreambleFree(authority, digest);
    HeaderParts(m, authority, digest, []);
    var start, table, x := BeforeTable(authority, digest), m.table, Comments(m);
    var header := Glue(HeaderLines(m, authority, digest));
    assert header == start + (table + x) by {
      assert header + [] == header && x + [] == x;
    }
    ToTable(Glue(Preamble(authority, digest)), table + x + decls, "model", letters);
    QuietJoin(start, table + x, decls, false, "model", letters);
    FromTable(Join(m.primaryKey, ','), JoinGroups(m.unique), decls, "model", letters);
    QuietJoin(table, x, decls, false, "model", letters);
    QuietAnyway(x, decls, InWord(table, |table|, false, letters), "model", letters);
    HeaderParts(m, authority, digest, decls);
    SeparateAlone(table, x + decls, "model", letters);
  }

  lemma QuietAnyway(x: string, rest: string, inWord: bool, keyword: string, letters: Letters)
    requires Quiet(x, rest, false, keyword, letters)
    ensures Quiet(x, rest, inWord, keyword, letters)
  {
    hide OpenAt, IsWord;
    forall i | 0 <= i < |x| && !InWord(x, i, inWord, letters) ensures OpenAt(x[i..] + rest, keyword).None? {
      assert !InWord(x, i, false, letters);
    }
  }

  lemma SeparateAlone(x: string, z: string, keyword: string, letters: Letters)
    requires IsIdent(keyword) && Separate(z)
    ensures Quiet(x, z, false, keyword, letters) <==> Undeclared(x, keyword, letters)
  {
    hide Quiet, IsIdent, IsStopper;
    assert z == "\n" + [z[1]] + z[2..];
    assert Free("\n", '{');
    QuietAlone(x, "\n", z[1], z[2..], false, keyword, letters);
  }

  /** No model is declared before the model exactly when free text declares none. */
  lemma BeforeModelQuiet(m: Model, authority: string, digest: string, letters: Letters)
    requires Declared(m) && IsQuietLine(authority) && IsQuietLine(digest)
    ensures Quiet(BeforeModel(m, authority, digest), ModelText(m), false, "model", letters) <==> NoOtherModel(m, letters)
  {
    hide Declared, HeaderLines, IsQuietLine, StartsDeclaration, Quiet, Glue, InWord, AllEnumLines, ModelText,
      EnumsPrintable, Agree, IsIdent, TypeName, Undeclared, ValuesUndeclared;
    TypeNames(m);
    var header, enums := Glue(HeaderLines(m, authority, digest)), Glue(AllEnumLines(m.fields));
    var word, name, rest := FirstDeclaration(m);
    HeadStarts(word, name, rest);
    HeaderQuiet(m, authority, digest, enums + ModelText(m), letters);
    EnumsQuiet(m.fields, ModelText(m), letters);
    GlueNotInWord(HeaderLines(m, authority, digest), letters);
    QuietJoin(header, enums, ModelText(m), false, "model", letters);
  }

  /** What the search for models makes of the document. */
  lemma ModelPass(m: Model, authority: string, digest: string, letters: Letters)
    requires Declared(m) && IsQuietLine(authority) && IsQuietLine(digest)
    ensures var models := Blocks(Document(m, authority, digest), false, "model", letters);
      if NoOtherModel(m, letters) then models == [(m.name, FieldsBody(m.fields))]
      else |models| == 1 ==> forall enums :: ParseFieldLines(enums, LinesOf(models[0].1)).Err?
  {
    hide Declared, HeaderLines, IsQuietLine, Quiet, Glue, InWord, AllEnumLines, EnumsPrintable, Agree, IsIdent,
      TypeName, Blocks, FieldsBody, NoOtherModel, LinesOf, ModelText, ParseFieldLines;
    TypeNames(m);
    KeywordsAreIdents();
    var a := BeforeModel(m, authority, digest);
    BeforeModelQuiet(m, authority, digest, letters);
    assert Document(m, authority, digest) == a + ModelText(m);
    BeforeModelEnds(m, authority, digest, letters);
    if NoOtherModel(m, letters) {
      QuietSkip(a, ModelText(m), false, "model", letters);
      ModelFound(m, letters);
    } else {
      ModelCloses(m);
      var y := Glue(FieldLines(m.fields)) + "}" + "\n";
      Spoiled(a, m.name, y, false, "model", letters);
      var models := Blocks(a + ModelText(m), false, "model", letters);
      if |models| == 1 {
        HeadIsNoMember("model", m.name, LinesOf(models[0].1));
      }
    }
  }

  lemma BeforeModelEnds(m: Model, authority: string, digest: string, letters: Letters)
    ensures var a := BeforeModel(m, authority, digest);
      a != [] && a[|a| - 1] == '\n' && !InWord(a, |a|, false, letters)
  {
    hide HeaderLines, Glue, AllEnumLines;
    var lines := HeaderLines(m, authority, digest) + AllEnumLines(m.fields);
    GlueJoin(HeaderLines(m, authority, digest), AllEnumLines(m.fields));
    HeaderSome(m, authority, digest);
    EndsLine(lines);
    GlueNotInWord(lines, letters);
  }

  lemma HeaderSome(m: Model, authority: string, digest: string)
    ensures HeaderLines(m, authority, digest) != []
  {
    hide Preamble;
  }
}
