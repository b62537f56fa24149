/** A whole TypeSpec document: what a search finds in what the printer wrote. */
module TypeSpecDocument {
  import opened Prelude
  import opened Text
  import opened SchemaModel
  import opened TypeSpecWitness
  import opened TypeSpecLines
  import opened TypeSpecScan
  import opened TypeSpecBlocks
  import opened TypeSpecParsed
  import opened TypeSpecRoundTrip

  // ----- enums

  /** Fields whose enums can be printed as blocks. */
  ghost predicate EnumsPrintable(fields: seq<Field>) {
    forall f :: f in fields && IsEnum(f) ==>
      IsIdent(f.enumName.value) && f.enumValues != [] && AllFree(f.enumValues, '}')
  }

  function BlockOf(f: Field): (string, string)
    requires f.enumName.Some?
  {
    (f.enumName.value, BodyText(f.enumValues))
  }

  /** The text between the braces of a printed enum. */
  function BodyText(values: seq<string>): string {
    "\n" + Glue(MemberLines(values))
  }

  ghost function EnumBlocks(fields: seq<Field>): seq<(string, string)> {
    if fields == [] then []
    else
      var before, f := fields[..|fields| - 1], fields[|fields| - 1];
      EnumBlocks(before) + (if Introduces(before, f) then [BlockOf(f)] else [])
  }

  lemma BodyLines(values: seq<string>)
    ensures LinesOf(BodyText(values)) == [""] + MemberLines(values) + [""]
  {
    hide LinesOf, MemberLine, Unbroken;
    var lines := [""] + MemberLines(values);
    forall l | l in lines ensures Unbroken(l) {
      if l == "" {
        EmptyUnbroken();
      } else {
        var i :| 0 <= i < |values| && l == MemberLine(values[i]);
        MemberLinePlain(values[i]);
      }
    }
    assert lines[0] == "" && lines[1..] == MemberLines(values);
    assert Glue(lines) == BodyText(values);
    GlueLines(lines);
  }

  lemma EmptyUnbroken()
    ensures Unbroken("")
  {}

  lemma {:induction false} GlueFree(lines: seq<string>, c: char)
    requires AllFree(lines, c) && c != '\n'
    ensures Free(Glue(lines), c)
  {
    if lines == [] {
    } else {
      assert lines[0] in lines;
      GlueFree(lines[1..], c);
    }
  }

  lemma BodyFree(values: seq<string>)
    requires AllFree(values, '}')
    ensures Free(BodyText(values), '}')
  {
    hide MemberLine, Glue;
    var lines := MemberLines(values);
    forall l | l in lines ensures Free(l, '}') {
      var i :| 0 <= i < |values| && l == MemberLine(values[i]);
      assert values[i] in values;
      MemberLinePlain(values[i]);
    }
    GlueFree(lines, '}');
  }

  /** A printed enum as text. */
  lemma EnumText(name: string, values: seq<string>)
    ensures Glue(EnumLines(name, values)) == "enum" + " " + name + " {" + BodyText(values) + "}" + "\n\n"
  {
    hide Glue, MemberLines;
    var head, members := "enum " + name + " {", MemberLines(values);
    assert EnumLines(name, values) == [head] + (members + ["}", ""]);
    GlueJoin([head], members + ["}", ""]);
    GlueJoin(members, ["}", ""]);
    GlueOne(head);
    GlueCloser();
    assert head == "enum" + " " + name + " {";
  }

  lemma GlueOne(line: string)
    ensures Glue([line]) == line + "\n"
  {
    assert [line][1..] == [];
    assert line + "\n" + [] == line + "\n";
  }

  lemma GlueCloser()
    ensures Glue(["}", ""]) == "}\n\n" && Glue(["}"]) == "}\n"
  {
    assert ["}", ""][1..] == [""];
    GlueOne("");
    GlueOne("}");
  }

  lemma DullEnd(keyword: string, rest: string, letters: Letters)
    requires IsIdent(keyword)
    ensures Quiet("\n\n", rest, false, keyword, letters) && Quiet("}\n\n", rest, false, keyword, letters)
    ensures Quiet("}\n", rest, false, keyword, letters) && Quiet("\n", rest, false, keyword, letters)
    ensures !IsWord('\n', letters)
  {
    hide Quiet;
    DullQuiet("\n\n", rest, false, keyword, letters);
    DullQuiet("}\n\n", rest, false, keyword, letters);
    DullQuiet("}\n", rest, false, keyword, letters);
    DullQuiet("\n", rest, false, keyword, letters);
  }

  /** One printed enum is found. */
  lemma EnumFound(f: Field, rest: string, letters: Letters)
    requires IsEnum(f) && IsIdent(f.enumName.value) && AllFree(f.enumValues, '}')
    ensures Blocks(Glue(EnumLines(f.enumName.value, f.enumValues)) + rest, false, "enum", letters)
         == [BlockOf(f)] + Blocks(rest, false, "enum", letters)
  {
    hide Glue, Blocks, BodyText, EnumLines, IsIdent;
    var name, body := f.enumName.value, BodyText(f.enumValues);
    KeywordsAreIdents();
    EnumText(name, f.enumValues);
    BodyFree(f.enumValues);
    assert "enum" + " " + name + " {" + body + "}" + "\n\n" + rest
        == "enum" + " " + name + " {" + body + "}" + ("\n\n" + rest);
    BlockFound("enum", name, body, "\n\n" + rest, letters);
    DullEnd("enum", rest, letters);
    QuietSkip("\n\n", rest, false, "enum", letters);
  }

  lemma PrintableParts(fields: seq<Field>)
    requires EnumsPrintable(fields) && fields != []
    ensures EnumsPrintable(fields[..|fields| - 1])
    ensures var f := fields[|fields| - 1];
      IsEnum(f) ==> IsIdent(f.enumName.value) && f.enumValues != [] && AllFree(f.enumValues, '}')
  {
    hide AllFree, IsIdent;
    assert fields[|fields| - 1] in fields && forall g :: g in fields[..|fields| - 1] ==> g in fields;
  }

  /** All printed enums are found, in order. */
  lemma {:induction false} EnumBlocksFound(fields: seq<Field>, rest: string, letters: Letters)
    requires EnumsPrintable(fields)
    ensures Blocks(Glue(AllEnumLines(fields)) + rest, false, "enum", letters)
         == EnumBlocks(fields) + Blocks(rest, false, "enum", letters)
  {
    hide Blocks, EnumLines, BlockOf, Introduces, EnumsPrintable, Glue, IsIdent, AllFree;
    if fields == [] {
      GlueNone();
      assert Glue(AllEnumLines(fields)) + rest == rest;
    } else {
      var before, f := fields[..|fields| - 1], fields[|fields| - 1];
      PrintableParts(fields);
      if Introduces(before, f) {
        IsEnumIntroduced(before, f);
        var lines := EnumLines(f.enumName.value, f.enumValues);
        GlueJoin(AllEnumLines(before), lines);
        EnumFound(f, rest, letters);
        EnumBlocksFound(before, Glue(lines) + rest, letters);
        assert Glue(AllEnumLines(before)) + Glue(lines) + rest == Glue(AllEnumLines(before)) + (Glue(lines) + rest);
        assert EnumBlocks(before) + [BlockOf(f)] + Blocks(rest, false, "enum", letters)
            == EnumBlocks(before) + ([BlockOf(f)] + Blocks(rest, false, "enum", letters));
      } else {
        assert AllEnumLines(fields) == AllEnumLines(before);
        assert EnumBlocks(fields) == EnumBlocks(before);
        EnumBlocksFound(before, rest, letters);
      }
    }
  }

  lemma GlueNone()
    ensures Glue([]) == []
  {}

  // ----- enum tables

  /** What reading makes of a field: its enum values come back as JSON spells them. */
  function Escaped(f: Field): Field {
    f.(enumValues := EscapeAll(f.enumValues))
  }

  function EscapedFields(fields: seq<Field>): seq<Field> {
    seq(|fields|, i requires 0 <= i < |fields| => Escaped(fields[i]))
  }

  /** Every enum value can be read at all. */
  ghost predicate EnumsLegible(fields: seq<Field>) {
    forall f :: f in fields && IsEnum(f) ==> AllLegible(f.enumValues)
  }

  ghost predicate Defines(enums: map<string, seq<string>>, fields: seq<Field>) {
    forall f :: f in fields && IsEnum(f) ==>
      f.enumName.value in enums && enums[f.enumName.value] == EscapeAll(f.enumValues)
  }

  lemma BlockRead(f: Field)
    requires f.enumName.Some?
    ensures ParseMembers(LinesOf(BlockOf(f).1))
         == if AllLegible(f.enumValues) then Ok(EscapeAll(f.enumValues)) else Err(EnumMemberUnsupported)
  {
    BodyLines(f.enumValues);
    MemberBodyBack(f.enumValues);
  }

  lemma DefinesMore(enums: map<string, seq<string>>, before: seq<Field>, f: Field)
    requires Defines(enums, before) && Introduces(before, f)
    ensures Defines(enums[f.enumName.value := EscapeAll(f.enumValues)], before + [f])
  {
    hide EscapeAll;
    forall g | g in before && IsEnum(g) ensures g.enumName.value != f.enumName.value {
    }
  }

  lemma IntroducedBefore(before: seq<Field>, f: Field) returns (g: Field)
    requires IsEnum(f) && !Introduces(before, f) && Agree(before + [f])
    ensures g in before && IsEnum(g) && g.enumName == f.enumName && g.enumValues == f.enumValues
  {
    g :| g in before && IsEnum(g) && g.enumName.value == f.enumName.value;
    assert g in before + [f] && f in before + [f] && g.enumName == f.enumName;
  }

  lemma DefinesSame(enums: map<string, seq<string>>, before: seq<Field>, f: Field)
    requires !Introduces(before, f) && Agree(before + [f])
    ensures Defines(enums, before) ==> Defines(enums, before + [f])
    ensures EnumsLegible(before) ==> EnumsLegible(before + [f])
  {
    hide EscapeAll, AllLegible, Introduces, Agree;
    if IsEnum(f) {
      var g := IntroducedBefore(before, f);
    }
  }

  lemma LegibleParts(before: seq<Field>, f: Field)
    ensures EnumsLegible(before + [f]) <==> EnumsLegible(before) && (IsEnum(f) ==> AllLegible(f.enumValues))
  {
    hide AllLegible;
    var all := before + [f];
    assert f in all && forall g :: g in all <==> g in before || g == f;
  }

  lemma IsEnumIntroduced(before: seq<Field>, f: Field)
    requires Introduces(before, f)
    ensures IsEnum(f)
  {}

  /**
   After blocks that could be read, the printed ones are read into a table that gives every enum
   field its values as JSON spells them.
   */
  lemma {:induction false} EnumsParsed(pre: seq<(string, string)>, fields: seq<Field>)
    requires EnumsPrintable(fields) && Agree(fields) && ParseEnums(pre).Ok?
    ensures var r := ParseEnums(pre + EnumBlocks(fields));
      if EnumsLegible(fields) then r.Ok? && Defines(r.value, fields) else r == Err(EnumMemberUnsupported)
  {
    hide ParseMembers, BlockOf, AllFree, IsIdent, Introduces, EscapeAll, AllLegible, EnumsLegible, Defines, LinesOf;
    if fields == [] {
      NoFields();
      assert pre + EnumBlocks(fields) == pre;
    } else {
      var before, f := fields[..|fields| - 1], fields[|fields| - 1];
      assert fields == before + [f];
      assert f in fields && forall g :: g in before ==> g in fields;
      EnumsParsed(pre, before);
      LegibleParts(before, f);
      var blocks := pre + EnumBlocks(fields);
      if Introduces(before, f) {
        IsEnumIntroduced(before, f);
        assert blocks[..|blocks| - 1] == pre + EnumBlocks(before) && blocks[|blocks| - 1] == BlockOf(f);
        BlockRead(f);
        BlockName(f);
        EscapeAllSize(f.enumValues);
        if EnumsLegible(before) {
          DefinesMore(ParseEnums(pre + EnumBlocks(before)).value, before, f);
        }
      } else {
        assert blocks == pre + EnumBlocks(before);
        if EnumsLegible(before) {
          DefinesSame(ParseEnums(pre + EnumBlocks(before)).value, before, f);
        }
      }
    }
  }

  /** One block that cannot be read fails them all. */
  lemma {:induction false} EnumsFail(blocks: seq<(string, string)>, b: (string, string))
    requires b in blocks && ParseMembers(LinesOf(b.1)).Err?
    ensures ParseEnums(blocks).Err?
  {
    hide ParseMembers, LinesOf;
    var n := |blocks| - 1;
    if blocks[n] == b {
    } else {
      assert blocks == blocks[..n] + [blocks[n]];
      EnumsFail(blocks[..n], b);
    }
  }

  lemma {:induction false} EnumsFailEarly(pre: seq<(string, string)>, more: seq<(string, string)>)
    requires ParseEnums(pre).Err?
    ensures ParseEnums(pre + more).Err?
  {
    hide ParseMembers, LinesOf;
    if more == [] {
      assert pre + more == pre;
    } else {
      var all := pre + more;
      assert all[..|all| - 1] == pre + more[..|more| - 1];
      EnumsFailEarly(pre, more[..|more| - 1]);
    }
  }

  lemma NoFields()
    ensures EnumsLegible([]) && forall enums :: Defines(enums, [])
  {}

  lemma EscapeAllSize(values: seq<string>)
    ensures |EscapeAll(values)| == |values|
  {}

  lemma BlockName(f: Field)
    requires f.enumName.Some?
    ensures BlockOf(f).0 == f.enumName.value
  {}

  // ----- where the printed text declares nothing

  ghost predicate IsKeyword(keyword: string) {
    keyword == "enum" || keyword == "model"
  }

  lemma KeywordIdent(keyword: string)
    requires IsKeyword(keyword)
    ensures IsIdent(keyword)
  {
    KeywordsAreIdents();
  }

  /** Free text in which nothing of a kind is declared. */
  ghost predicate Undeclared(text: string, keyword: string, letters: Letters) {
    Quiet(text, [], false, keyword, letters)
  }

  /** A printed member is quiet exactly when its escaped value is. */
  lemma MemberQuiet(v: string, rest: string, keyword: string, letters: Letters)
    requires IsIdent(keyword)
    ensures Quiet(MemberLine(v) + "\n", rest, false, keyword, letters) <==> Undeclared(Escape(v), keyword, letters)
  {
    hide Quiet, TspIdentifier, Escape, IsIdent, Strip;
    var id, e := TspIdentifier(v), Escape(v);
    IdentifierIdent(v);
    IdentTrimmed(id);
    var pre := "  " + id + ": \"";
    var post := "\",\n";
    assert MemberLine(v) + "\n" == pre + (e + post);
    assert Free(pre, '{') && pre[|pre| - 1] == '"';
    StopperQuiet(pre, e + post + rest, false, keyword, letters);
    QuietJoin(pre, e + post, rest, false, keyword, letters);
    assert !IsWord('"', letters);
    QuietJoin(e, post, rest, false, keyword, letters);
    DullQuiet(post, rest, InWord(e, |e|, false, letters), keyword, letters);
    assert post + rest == [] + ['"'] + (",\n" + rest);
    QuietAlone(e, [], '"', ",\n" + rest, false, keyword, letters);
  }

  ghost predicate AllUndeclared(values: seq<string>, keyword: string, letters: Letters) {
    forall v :: v in values ==> Undeclared(Escape(v), keyword, letters)
  }

  lemma {:induction false} MembersQuiet(values: seq<string>, rest: string, keyword: string, letters: Letters)
    requires IsIdent(keyword)
    ensures Quiet(Glue(MemberLines(values)), rest, false, keyword, letters) <==> AllUndeclared(values, keyword, letters)
  {
    hide Quiet, MemberLine, Escape, IsIdent, Undeclared;
    var lines := MemberLines(values);
    if values == [] {
      QuietNothing(rest, keyword, letters);
    } else {
      var line := MemberLine(values[0]);
      assert lines[0] == line && lines[1..] == MemberLines(values[1..]);
      assert values == [values[0]] + values[1..];
      MemberQuiet(values[0], Glue(lines[1..]) + rest, keyword, letters);
      MembersQuiet(values[1..], rest, keyword, letters);
      QuietJoin(line + "\n", Glue(lines[1..]), rest, false, keyword, letters);
      assert (line + "\n")[|line|] == '\n' && !IsWord('\n', letters);
    }
  }

  lemma QuietNothing(rest: string, keyword: string, letters: Letters)
    ensures Quiet([], rest, false, keyword, letters)
  {}

  lemma OtherHead(other: string, name: string, rest: string, keyword: string, letters: Letters)
    requires IsIdent(name) && ((other == "enum" && keyword == "model") || (other == "model" && keyword == "enum"))
    ensures Quiet(other + " " + name + " {", rest, false, keyword, letters)
  {
    hide Quiet, IsIdent;
    KeywordsAreIdents();
    Suffixes(other, keyword);
    HeadQuiet(other, name, rest, false, keyword, letters);
  }

  lemma Suffixes(other: string, keyword: string)
    requires (other == "enum" && keyword == "model") || (other == "model" && keyword == "enum")
    ensures forall i :: 0 <= i <= |other| ==> other[i..] != keyword
  {
    forall i | 0 <= i <= |other| ensures other[i..] != keyword {
      if |other[i..]| == |keyword| {
        assert other[i..][0] == other[1] == 'o';
      }
    }
  }

  /** A printed enum declares a model exactly when one of its escaped values does. */
  lemma EnumQuiet(name: string, values: seq<string>, rest: string, letters: Letters)
    requires IsIdent(name)
    ensures Quiet(Glue(EnumLines(name, values)), rest, false, "model", letters) <==> AllUndeclared(values, "model", letters)
  {
    hide Quiet, Glue, MemberLines, IsIdent, EnumLines, AllUndeclared;
    KeywordsAreIdents();
    var head, members := "enum" + " " + name + " {", Glue(MemberLines(values));
    EnumText(name, values);
    var tail := "\n" + (members + "}\n\n");
    assert Glue(EnumLines(name, values)) == head + tail;
    OtherHead("enum", name, tail + rest, "model", letters);
    QuietJoin(head, tail, rest, false, "model", letters);
    assert head[|head| - 1] == '{' && !IsWord('{', letters);
    DullEnd("model", members + "}\n\n" + rest, letters);
    QuietJoin("\n", members + "}\n\n", rest, false, "model", letters);
    MembersQuiet(values, "}\n\n" + rest, "model", letters);
    QuietJoin(members, "}\n\n", rest, false, "model", letters);
    DullQuiet("}\n\n", rest, InWord(members, |members|, false, letters), "model", letters);
  }

  lemma EndsLine(lines: seq<string>)
    requires lines != []
    ensures Glue(lines) != [] && Glue(lines)[|Glue(lines)| - 1] == '\n'
  {
    var n := |lines| - 1;
    assert lines == lines[..n] + [lines[n]];
    GlueJoin(lines[..n], [lines[n]]);
    GlueOne(lines[n]);
  }

  lemma GlueNotInWord(lines: seq<string>, letters: Letters)
    ensures !InWord(Glue(lines), |Glue(lines)|, false, letters)
  {
    if lines != [] {
      EndsLine(lines);
    }
  }

  /** No enum value of the fields declares anything, once escaped. */
  ghost predicate ValuesUndeclared(fields: seq<Field>, keyword: string, letters: Letters) {
    forall f :: f in fields && IsEnum(f) ==> AllUndeclared(f.enumValues, keyword, letters)
  }

  lemma {:induction false} EnumsQuiet(fields: seq<Field>, rest: string, letters: Letters)
    requires EnumsPrintable(fields) && Agree(fields)
    ensures Quiet(Glue(AllEnumLines(fields)), rest, false, "model", letters)
      <==> ValuesUndeclared(fields, "model", letters)
  {
    hide Quiet, Glue, EnumLines, IsIdent, AllUndeclared, Introduces, EnumsPrintable, AllFree, IsWord, InWord;
    if fields == [] {
      GlueNone();
      QuietNothing(rest, "model", letters);
    } else {
      var before, f := fields[..|fields| - 1], fields[|fields| - 1];
      assert fields == before + [f];
      assert f in fields && forall g :: g in before ==> g in fields;
      PrintableParts(fields);
      if Introduces(before, f) {
        IsEnumIntroduced(before, f);
        var lines := EnumLines(f.enumName.value, f.enumValues);
        GlueJoin(AllEnumLines(before), lines);
        EnumsQuiet(before, Glue(lines) + rest, letters);
        EnumQuiet(f.enumName.value, f.enumValues, rest, letters);
        QuietJoin(Glue(AllEnumLines(before)), Glue(lines), rest, false, "model", letters);
        GlueNotInWord(AllEnumLines(before), letters);
      } else {
        assert AllEnumLines(fields) == AllEnumLines(before);
        EnumsQuiet(before, rest, letters);
        if IsEnum(f) {
          var g := IntroducedBefore(before, f);
        }
      }
    }
  }

  // ----- the model block

  /** The text between the braces of the printed model. */
  function FieldsBody(fields: seq<Field>): string {
    "\n" + Glue(FieldLines(fields))
  }

  function ModelText(m: Model): string {
    "model" + " " + m.name + " {" + FieldsBody(m.fields) + "}" + "\n"
  }

  lemma ModelGlue(m: Model)
    ensures Glue(["model " + m.name + " {"] + FieldLines(m.fields) + ["}"]) == ModelText(m)
  {
    hide Glue, FieldLines;
    var head, lines := "model " + m.name + " {", FieldLines(m.fields);
    GlueJoin([head] + lines, ["}"]);
    GlueJoin([head], lines);
    GlueOne(head);
    GlueCloser();
    assert head == "model" + " " + m.name + " {";
  }

  lemma FieldLinesPlain(fields: seq<Field>)
    requires forall f :: f in fields ==> IsIdent(f.name) && IsIdent(TypeName(f))
    ensures forall l :: l in FieldLines(fields) ==> Unbroken(l) && Free(l, '}')
  {
    hide FieldLine, IsIdent, TypeName, Unbroken;
    forall l | l in FieldLines(fields) ensures Unbroken(l) && Free(l, '}') {
      var i :| 0 <= i < |fields| && l == FieldLine(fields[i]);
      assert fields[i] in fields;
      FieldLinePlain(fields[i]);
    }
  }

  lemma FieldsBodyLines(fields: seq<Field>)
    requires forall f :: f in fields ==> IsIdent(f.name) && IsIdent(TypeName(f))
    ensures LinesOf(FieldsBody(fields)) == [""] + FieldLines(fields) + [""] && Free(FieldsBody(fields), '}')
  {
    hide LinesOf, FieldLines, IsIdent, TypeName, Unbroken;
    FieldLinesPlain(fields);
    EmptyUnbroken();
    var lines := [""] + FieldLines(fields);
    assert lines[0] == "" && lines[1..] == FieldLines(fields);
    assert Glue(lines) == FieldsBody(fields);
    GlueLines(lines);
    hide Glue;
    GlueFree(FieldLines(fields), '}');
  }

  lemma FieldQuiet(f: Field, rest: string, letters: Letters)
    requires IsIdent(f.name) && IsIdent(TypeName(f))
    ensures Quiet(FieldLine(f) + "\n", rest, false, "enum", letters)
  {
    FieldLinePlain(f);
    KeywordsAreIdents();
    var line := FieldLine(f);
    assert line[|line| - 1] == ';';
    hide Quiet, FieldLine, IsIdent, TypeName;
    StopperQuiet(line, "\n" + rest, false, "enum", letters);
    QuietJoin(line, "\n", rest, false, "enum", letters);
    DullQuiet("\n", rest, InWord(line, |line|, false, letters), "enum", letters);
  }

  lemma {:induction false} FieldsQuiet(fields: seq<Field>, rest: string, letters: Letters)
    requires forall f :: f in fields ==> IsIdent(f.name) && IsIdent(TypeName(f))
    ensures Quiet(Glue(FieldLines(fields)), rest, false, "enum", letters)
  {
    hide Quiet, FieldLine, IsIdent, TypeName;
    var lines := FieldLines(fields);
    if fields == [] {
      QuietNothing(rest, "enum", letters);
    } else {
      var line := FieldLine(fields[0]);
      assert lines[0] == line && lines[1..] == FieldLines(fields[1..]);
      assert fields[0] in fields;
      FieldQuiet(fields[0], Glue(lines[1..]) + rest, letters);
      FieldsQuiet(fields[1..], rest, letters);
      QuietJoin(line + "\n", Glue(lines[1..]), rest, false, "enum", letters);
      assert (line + "\n")[|line|] == '\n' && !IsWord('\n', letters);
    }
  }

  /** The printed model is found as a model, and nothing in it as an enum. */
  lemma ModelFound(m: Model, letters: Letters)
    requires IsIdent(m.name) && forall f :: f in m.fields ==> IsIdent(f.name) && IsIdent(TypeName(f))
    ensures Blocks(ModelText(m), false, "model", letters) == [(m.name, FieldsBody(m.fields))]
    ensures Blocks(ModelText(m), false, "enum", letters) == []
  {
    hide Blocks, FieldsBody, IsIdent, TypeName, Quiet, Glue;
    KeywordsAreIdents();
    FieldsBodyLines(m.fields);
    BlockFound("model", m.name, FieldsBody(m.fields), "\n", letters);
    DullEnd("model", [], letters);
    QuietSkip("\n", [], false, "model", letters);
    assert "\n" + [] == "\n";
    NoBlocks("model", letters);
    ModelQuiet(m, letters);
    QuietSkip(ModelText(m), [], false, "enum", letters);
    assert ModelText(m) + [] == ModelText(m);
    NoBlocks("enum", letters);
  }

  lemma NoBlocks(keyword: string, letters: Letters)
    ensures forall w :: Blocks([], w, keyword, letters) == []
  {}

  lemma ModelQuiet(m: Model, letters: Letters)
    requires IsIdent(m.name) && forall f :: f in m.fields ==> IsIdent(f.name) && IsIdent(TypeName(f))
    ensures Quiet(ModelText(m), [], false, "enum", letters)
  {
    hide IsIdent, TypeName, Quiet, Glue, FieldLines;
    KeywordsAreIdents();
    var head, fields := "model" + " " + m.name + " {", Glue(FieldLines(m.fields));
    var tail := "\n" + (fields + "}\n");
    assert ModelText(m) == head + tail;
    OtherHead("model", m.name, tail + [], "enum", letters);
    QuietJoin(head, tail, [], false, "enum", letters);
    assert head[|head| - 1] == '{' && !IsWord('{', letters);
    DullEnd("enum", fields + "}\n" + [], letters);
    QuietJoin("\n", fields + "}\n", [], false, "enum", letters);
    FieldsQuiet(m.fields, "}\n" + [], letters);
    QuietJoin(fields, "}\n", [], false, "enum", letters);
    DullQuiet("}\n", [], InWord(fields, |fields|, false, letters), "enum", letters);
  }

  // ----- heads of blocks where they do not belong

  lemma HeadIsNoMember(keyword: string, name: string, lines: seq<string>)
    requires IsIdent(keyword) && IsIdent(name) && keyword + " " + name + " {" in lines
    ensures ParseMembers(lines).Err?
    ensures forall enums :: ParseFieldLines(enums, lines).Err?
  {
    hide Strip, Skipped, ParseMember, ParseFieldLine, IsIdent;
    var head := keyword + " " + name + " {";
    HeadStripped(keyword, name);
    HeadUnread(keyword, name);
    MembersRefused(lines, head);
    forall enums ensures ParseFieldLines(enums, lines).Err? {
      FieldsRefused(enums, lines, head);
    }
  }

  lemma HeadStripped(keyword: string, name: string)
    requires IsIdent(keyword) && IsIdent(name)
    ensures var head := keyword + " " + name + " {"; Strip(head) == head && !Skipped(head)
  {
    var head := keyword + " " + name + " {";
    IdentNotSpace(keyword[0]);
    assert head[0] == keyword[0] && head[|head| - 1] == '{';
    TrimmedStrip(head);
  }

  lemma HeadUnread(keyword: string, name: string)
    requires IsIdent(keyword) && IsIdent(name)
    ensures var head := keyword + " " + name + " {"; ParseMember(head).None? && ParseFieldLine(head).None?
  {
    var tail := " " + (name + " {");
    assert keyword + " " + name + " {" == keyword + tail;
    IdentBack(keyword, tail);
    NoColonNext(name);
    hide IsIdent, IdentPrefix, StripLeft;
    IdentChars(keyword);
    assert tail[0] == ' ';
  }

  lemma NoColonNext(name: string)
    requires IsIdent(name)
    ensures After(StripLeft(" " + (name + " {")), ":").None?
  {
    IdentNotSpace(name[0]);
    StripIndent(name + " {");
  }

  lemma {:induction false} MembersRefused(lines: seq<string>, line: string)
    requires line in lines && Strip(line) == line && !Skipped(line) && ParseMember(line).None?
    ensures ParseMembers(lines).Err?
  {
    hide Strip, Skipped, ParseMember;
    var n := |lines| - 1;
    if lines[n] == line {
    } else {
      assert lines == lines[..n] + [lines[n]];
      MembersRefused(lines[..n], line);
    }
  }

  lemma {:induction false} FieldsRefused(enums: map<string, seq<string>>, lines: seq<string>, line: string)
    requires line in lines && Strip(line) == line && !Skipped(line) && ParseFieldLine(line).None?
    ensures ParseFieldLines(enums, lines).Err?
  {
    hide Strip, Skipped, ParseFieldLine;
    var n := |lines| - 1;
    if lines[n] == line {
    } else {
      assert lines == lines[..n] + [lines[n]];
      FieldsRefused(enums, lines[..n], line);
    }
  }
}
