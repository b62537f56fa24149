/** How the printed body of an enum or a model is read back. */
module TypeSpecRoundTrip {
  import opened Prelude
  import opened Text
  import opened SchemaModel
  import opened TypeSpecWitness
  import opened TypeSpecLines
  import opened TypeSpecBlocks

  // ----- member and field lines

  lemma MemberStripped(v: string)
    ensures Strip(MemberLine(v)) == MemberText(v) && !Skipped(MemberText(v))
  {
    hide TspIdentifier, Dumps;
    var text := MemberText(v);
    IdentifierIdent(v);
    assert MemberLine(v) == "  " + text;
    IdentNotSpace(text[0]);
    assert text[0] == TspIdentifier(v)[0] && text[|text| - 1] == ',';
    StripIndent(text);
    TrimmedStrip(text);
  }

  function EscapeAll(values: seq<string>): seq<string> {
    seq(|values|, i requires 0 <= i < |values| => Escape(values[i]))
  }

  ghost predicate AllLegible(values: seq<string>) {
    forall v :: v in values ==> Legible(v)
  }

  /** Printed members are read as the escaped values; one illegible value fails them all. */
  lemma {:induction false} MembersBack(values: seq<string>, lines: seq<string>)
    requires |lines| == |values| && forall i :: 0 <= i < |values| ==> lines[i] == MemberLine(values[i])
    ensures ParseMembers([""] + lines)
         == if AllLegible(values) then Ok(EscapeAll(values)) else Err(EnumMemberUnsupported)
  {
    hide MemberLine, ParseMember, Strip, Skipped, Legible, MemberText, Escape;
    var all := [""] + lines;
    if values == [] {
      assert all == [""] && all[..0] == [];
      BlankSkipped();
      assert ParseMembers([]) == Ok([]);
    } else {
      var n := |values| - 1;
      assert all[..|all| - 1] == [""] + lines[..n] && all[|all| - 1] == lines[n];
      MembersBack(values[..n], lines[..n]);
      MemberStripped(values[n]);
      MemberRead(values[n]);
      LegibleSnoc(values);
      assert EscapeAll(values) == EscapeAll(values[..n]) + [Escape(values[n])];
    }
  }

  lemma LegibleSnoc(values: seq<string>)
    requires values != []
    ensures AllLegible(values) <==> AllLegible(values[..|values| - 1]) && Legible(values[|values| - 1])
  {
    hide Legible;
    var n := |values| - 1;
    assert values == values[..n] + [values[n]];
  }

  lemma BlankSkipped()
    ensures Strip("") == "" && Skipped("")
  {}

  lemma MemberBodyBack(values: seq<string>)
    ensures ParseMembers([""] + MemberLines(values) + [""])
         == if AllLegible(values) then Ok(EscapeAll(values)) else Err(EnumMemberUnsupported)
  {
    hide MemberLine, Strip, AllLegible, ParseMember, Escape;
    var body := [""] + MemberLines(values) + [""];
    assert body[..|body| - 1] == [""] + MemberLines(values);
    MembersBack(values, MemberLines(values));
    BlankSkipped();
  }

  function FieldText(f: Field): string {
    f.name + ((if f.nullable then "?" else "") + ": " + TypeName(f) + ";")
  }

  lemma FieldStripped(f: Field)
    requires IsIdent(f.name)
    ensures Strip(FieldLine(f)) == FieldText(f) && !Skipped(FieldText(f))
  {
    hide TypeName;
    var text := FieldText(f);
    assert FieldLine(f) == "  " + text;
    IdentNotSpace(f.name[0]);
    assert text[0] == f.name[0] && text[|text| - 1] == ';';
    StripIndent(text);
    TrimmedStrip(text);
  }

  lemma IdentTrimmed(s: string)
    requires IsIdent(s)
    ensures Trimmed(s) && Strip(s) == s && Strip(" " + s) == s
    ensures Free(s, ';') && Free(s, ',') && Free(s, '{') && Free(s, '}') && Free(s, '\n') && Free(s, '/') && Free(s, ' ')
  {
    IdentNotSpace(s[0]);
    IdentNotSpace(s[|s| - 1]);
    StripIndent(s);
    TrimmedStrip(s);
  }

  lemma TypeBack(t: string)
    requires IsIdent(t)
    ensures ParseType(": " + t + ";") == Some(t)
  {
    hide IsIdent;
    var tail := " " + t + ";";
    assert ": " + t + ";" == ":" + tail;
    assert StripLeft(":" + tail) == ":" + tail;
    AfterBack(":", tail);
    assert tail[..|tail| - 1] == " " + t;
    IdentTrimmed(t);
    assert Free(" " + t, ';');
  }

  lemma FieldTextBack(f: Field)
    requires IsIdent(f.name) && IsIdent(TypeName(f))
    ensures ParseFieldLine(FieldText(f)) == Some((f.name, f.nullable, TypeName(f)))
  {
    hide TypeName, ParseType, IsIdent;
    var colon := ": " + TypeName(f) + ";";
    TypeBack(TypeName(f));
    NamePositive(f.name);
    if f.nullable {
      assert FieldText(f) == f.name + ("?" + colon);
      IdentBack(f.name, "?" + colon);
      assert ("?" + colon)[1..] == colon;
    } else {
      assert FieldText(f) == f.name + colon;
      IdentBack(f.name, colon);
    }
  }

  lemma NamePositive(s: string)
    requires IsIdent(s)
    ensures s != []
  {}

  lemma ScalarsAreIdents(t: string)
    requires IsScalar(t)
    ensures IsIdent(t) && t != "enum"
  {
    assert forall i :: 0 <= i < 6 ==> IsIdentChar("string"[i]);
    assert forall i :: 0 <= i < 5 ==> IsIdentChar("int32"[i]);
    assert forall i :: 0 <= i < 11 ==> IsIdentChar("utcDateTime"[i]);
    assert t[0] != 'e' && "enum"[0] == 'e';
  }

  /** What the reader needs in order to read a field back. */
  ghost predicate Readable(enums: map<string, seq<string>>, f: Field) {
    && FieldOk(f) && IsIdent(f.name)
    && (IsEnum(f) ==> IsIdent(f.enumName.value) && !IsScalar(f.enumName.value)
                      && f.enumName.value in enums && enums[f.enumName.value] == f.enumValues)
  }

  lemma FieldBack(enums: map<string, seq<string>>, f: Field)
    requires Readable(enums, f)
    ensures IsIdent(TypeName(f))
    ensures IsScalar(TypeName(f)) ==> f == Field(f.name, TypeName(f), f.nullable, None, [])
    ensures !IsScalar(TypeName(f)) ==>
      TypeName(f) in enums && f == Field(f.name, "enum", f.nullable, Some(TypeName(f)), enums[TypeName(f)])
  {
    if f.logicalType != "enum" {
      ScalarsAreIdents(f.logicalType);
    }
  }

  /** One more printed field is read after the ones before it. */
  lemma FieldStep(enums: map<string, seq<string>>, before: seq<string>, fields: seq<Field>, f: Field)
    requires ParseFieldLines(enums, before) == Ok(fields) && Readable(enums, f)
    ensures ParseFieldLines(enums, before + [FieldLine(f)]) == Ok(fields + [f])
  {
    hide FieldLine, ParseFieldLine, Strip, Skipped, FieldText, Readable, IsScalar, TypeName;
    var all := before + [FieldLine(f)];
    assert all[..|all| - 1] == before && all[|all| - 1] == FieldLine(f);
    ReadableName(enums, f);
    FieldBack(enums, f);
    FieldStripped(f);
    FieldTextBack(f);
  }

  lemma {:induction false} FieldsBack(enums: map<string, seq<string>>, fields: seq<Field>, lines: seq<string>)
    requires forall f :: f in fields ==> Readable(enums, f)
    requires |lines| == |fields| && forall i :: 0 <= i < |fields| ==> lines[i] == FieldLine(fields[i])
    ensures ParseFieldLines(enums, [""] + lines) == Ok(fields)
  {
    hide FieldLine, ParseFieldLines, Readable;
    if fields == [] {
      assert [""] + lines == [""];
      NoFieldLines(enums);
    } else {
      var n := |fields| - 1;
      assert forall f :: f in fields[..n] ==> f in fields;
      FieldsBack(enums, fields[..n], lines[..n]);
      assert fields[n] in fields;
      FieldStep(enums, [""] + lines[..n], fields[..n], fields[n]);
      assert [""] + lines == [""] + lines[..n] + [lines[n]];
      assert fields == fields[..n] + [fields[n]];
    }
  }

  lemma NoFieldLines(enums: map<string, seq<string>>)
    ensures ParseFieldLines(enums, [""]) == Ok([])
  {
    hide Strip, Skipped;
    assert [""][..0] == [];
    BlankSkipped();
    assert ParseFieldLines(enums, []) == Ok([]);
  }

  lemma ReadableName(enums: map<string, seq<string>>, f: Field)
    requires Readable(enums, f)
    ensures IsIdent(f.name)
  {}

  lemma FieldBodyBack(enums: map<string, seq<string>>, fields: seq<Field>)
    requires forall f :: f in fields ==> Readable(enums, f)
    ensures ParseFieldLines(enums, [""] + FieldLines(fields) + [""]) == Ok(fields)
  {
    hide FieldLine, Strip, Readable, ParseFieldLine;
    var body := [""] + FieldLines(fields) + [""];
    assert body[..|body| - 1] == [""] + FieldLines(fields);
    FieldsBack(enums, fields, FieldLines(fields));
    BlankSkipped();
  }

  // ----- what the lines are made of

  ghost predicate IsAscii(s: string) {
    forall c :: c in s ==> ' ' <= c <= '~'
  }

  lemma AsciiUnbroken(s: string)
    requires IsAscii(s)
    ensures Unbroken(s)
  {}

  lemma IdentAscii(s: string)
    requires IsIdent(s)
    ensures IsAscii(s)
  {}

  lemma MemberLinePlain(v: string)
    ensures Unbroken(MemberLine(v)) && (Free(v, '}') ==> Free(MemberLine(v), '}'))
  {
    hide TspIdentifier, Escape, IsIdent, Unbroken, Strip;
    var id := TspIdentifier(v);
    IdentifierIdent(v);
    IdentAscii(id);
    IdentTrimmed(id);
    EscapeAscii(v);
    if Free(v, '}') {
      EscapeFree(v, '}');
    }
    AsciiUnbroken(MemberLine(v));
  }

  lemma FieldLinePlain(f: Field)
    requires IsIdent(f.name) && IsIdent(TypeName(f))
    ensures Unbroken(FieldLine(f)) && Free(FieldLine(f), '}') && Free(FieldLine(f), '{')
  {
    hide TypeName, IsIdent, Unbroken, Strip;
    IdentAscii(f.name);
    IdentAscii(TypeName(f));
    IdentTrimmed(f.name);
    IdentTrimmed(TypeName(f));
    AsciiUnbroken(FieldLine(f));
  }

  lemma KeywordsAreIdents()
    ensures IsIdent("enum") && IsIdent("model")
  {
    assert forall i :: 0 <= i < 4 ==> IsIdentChar("enum"[i]);
    assert forall i :: 0 <= i < 5 ==> IsIdentChar("model"[i]);
  }
}
