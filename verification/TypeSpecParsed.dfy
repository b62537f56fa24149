/** What the TypeSpec reader can return, whatever source it is given. */
module TypeSpecParsed {
  import opened Prelude
  import opened Text
  import opened SchemaModel
  import opened TypeSpecWitness
  import opened TypeSpecScan

  // ----- pieces of text

  /** Everything in `part` comes from `whole`. */
  ghost predicate Within(part: string, whole: string) {
    forall c :: c in part ==> c in whole
  }

  lemma {:induction false} StripLeftWithin(s: string)
    ensures Within(StripLeft(s), s)
  {
    if s == [] || !IsSpace(s[0]) {
    } else {
      StripLeftWithin(s[1..]);
    }
  }

  lemma {:induction false} StripRightWithin(s: string)
    ensures Within(StripRight(s), s)
  {
    if s == [] || !IsSpace(s[|s| - 1]) {
    } else {
      StripRightWithin(s[..|s| - 1]);
    }
  }

  lemma StripWithin(s: string)
    ensures Within(Strip(s), s)
  {
    hide StripLeft, StripRight;
    StripLeftWithin(s);
    StripRightWithin(StripLeft(s));
  }

  lemma AfterWithin(s: string, prefix: string)
    ensures After(s, prefix).Some? ==> Within(After(s, prefix).value, s)
  {}

  lemma {:induction false} BeforeFree(s: string, c: char)
    ensures Free(Before(s, c), c)
  {
    if s == [] || s[0] == c {
    } else {
      BeforeFree(s[1..], c);
    }
  }

  // ----- blocks

  ghost predicate AllFree(lines: seq<string>, c: char) {
    forall l :: l in lines ==> Free(l, c)
  }

  /** A block has an identifier for a name and no closing brace in its body. */
  ghost predicate IsBlock(b: (string, string)) {
    IsIdent(b.0) && Free(b.1, '}')
  }

  lemma BlockShape(s: string, keyword: string)
    ensures var r := BlockAt(s, keyword);
      r.Some? ==> IsBlock((r.value.0, r.value.1))
  {
    hide IsIdent, IdentPrefix, StripLeft, After;
    match AfterWord(s, keyword)
    case None =>
    case Some(rest) =>
      PrefixIdent(rest);
      if NamedAt(rest).Some? {
        BeforeFree(NamedAt(rest).value.1, '}');
      }
  }

  lemma {:induction false} BlocksShape(s: string, inWord: bool, keyword: string, letters: Letters)
    ensures forall b :: b in Blocks(s, inWord, keyword, letters) ==> IsBlock(b)
    decreases |s|
  {
    hide BlockAt, IsBlock, IsWord;
    if s == [] {
    } else if !inWord && BlockAt(s, keyword).Some? {
      BlockShape(s, keyword);
      BlocksShape(BlockAt(s, keyword).value.2, false, keyword, letters);
    } else {
      BlocksShape(s[1..], IsWord(s[0], letters), keyword, letters);
    }
  }

  /** Lines hold only what the text holds, apart from line feeds. */
  lemma LinesFree(s: string, c: char)
    requires Free(s, c) && c != '\n'
    ensures AllFree(LinesOf(s), c)
  {
    assert forall i :: 0 <= i < |s| ==> Unified(s)[i] != c;
    SplitWithin(Unified(s), '\n');
  }

  lemma {:induction false} SplitWithin(s: string, sep: char)
    ensures forall p :: p in Split(s, sep) ==> Within(p, s)
  {
    if s == [] {
    } else {
      SplitWithin(s[1..], sep);
      var rest := Split(s[1..], sep);
      assert rest[0] in rest;
      assert forall c :: c in s[1..] ==> c in s;
      forall p | p in Split(s, sep) ensures Within(p, s) {
        if p in rest {
        } else {
          assert p == [] || p == [s[0]] + rest[0];
        }
      }
    }
  }

  // ----- enums

  lemma QuotedShape(quoted: string)
    ensures ParseQuoted(quoted).Some? ==> Within(ParseQuoted(quoted).value, quoted)
  {}

  lemma MemberShape(line: string)
    ensures ParseMember(line).Some? ==> Within(ParseMember(line).value, line)
  {
    hide ParseQuoted, IdentPrefix, After, StripLeft;
    var name := IdentPrefix(line, false);
    if name != [] {
      var colon := StripLeft(line[|name|..]);
      StripLeftWithin(line[|name|..]);
      AfterWithin(colon, ":");
      match After(colon, ":")
      case None =>
      case Some(rest) =>
        StripLeftWithin(rest);
        AfterWithin(StripLeft(rest), "\"");
        match After(StripLeft(rest), "\"")
        case None =>
        case Some(quoted) => QuotedShape(quoted);
    }
  }

  lemma {:induction false} MembersShape(lines: seq<string>)
    requires AllFree(lines, '}')
    ensures ParseMembers(lines).Ok? ==> AllFree(ParseMembers(lines).value, '}')
  {
    hide ParseMember, Strip, Skipped;
    if lines == [] {
    } else {
      var n := |lines| - 1;
      MembersShape(lines[..n]);
      StripWithin(lines[n]);
      MemberShape(Strip(lines[n]));
      assert lines[n] in lines;
    }
  }

  /** Enum tables name identifiers and give each some values without closing braces. */
  ghost predicate IsTable(enums: map<string, seq<string>>) {
    forall n :: n in enums ==> IsIdent(n) && enums[n] != [] && AllFree(enums[n], '}')
  }

  lemma {:induction false} EnumsShape(blocks: seq<(string, string)>)
    requires forall b :: b in blocks ==> IsBlock(b)
    ensures ParseEnums(blocks).Ok? ==> IsTable(ParseEnums(blocks).value)
  {
    hide ParseMembers, IsIdent, AllFree, LinesOf, Free;
    if blocks == [] {
    } else {
      var n := |blocks| - 1;
      assert blocks[n] in blocks && forall b :: b in blocks[..n] ==> b in blocks;
      EnumsShape(blocks[..n]);
      LinesFree(blocks[n].1, '}');
      MembersShape(LinesOf(blocks[n].1));
    }
  }

  // ----- fields

  /** Scalars have no enum data; an enum field has an enum of the table with its values. */
  ghost predicate IsRead(enums: map<string, seq<string>>, f: Field) {
    && IsIdent(f.name)
    && if f.logicalType == "enum"
       then f.enumName.Some? && f.enumName.value in enums && !IsScalar(f.enumName.value)
            && f.enumValues == enums[f.enumName.value]
       else IsScalar(f.logicalType) && f.enumName.None? && f.enumValues == []
  }

  lemma FieldLineIdent(line: string)
    ensures ParseFieldLine(line).Some? ==> IsIdent(ParseFieldLine(line).value.0)
  {
    hide IsIdent, IdentPrefix, ParseType;
    PrefixIdent(line);
  }

  lemma ScalarNotEnum(t: string)
    requires IsScalar(t)
    ensures t != "enum"
  {
    assert t[0] != 'e' && "enum"[0] == 'e';
  }

  lemma {:induction false} FieldsShape(enums: map<string, seq<string>>, lines: seq<string>)
    ensures var r := ParseFieldLines(enums, lines);
      r.Ok? ==> forall f :: f in r.value ==> IsRead(enums, f)
  {
    hide ParseFieldLine, Strip, Skipped, IsIdent, IsScalar;
    if lines == [] {
    } else {
      var n := |lines| - 1;
      FieldsShape(enums, lines[..n]);
      var line := Strip(lines[n]);
      FieldLineIdent(line);
      match ParseFieldLine(line)
      case None =>
      case Some((_, _, type_)) =>
        if IsScalar(type_) {
          ScalarNotEnum(type_);
        }
    }
  }

  // ----- metadata

  /** A trimmed piece of one line. */
  ghost predicate IsValue(text: string) {
    text != [] && Trimmed(text) && Free(text, '\n')
  }

  /** One blank, as it is read when nothing but blanks follows a key. */
  ghost predicate IsBlank(text: string) {
    |text| == 1 && IsSpace(text[0]) && text[0] != '\n'
  }

  lemma {:induction false} LastBlankShape(s: string)
    requires StripLeft(s) == []
    ensures LastBlank(s).Some? ==> IsBlank(LastBlank(s).value)
  {
    StripLeftSuffix(s);
    if |s| <= 1 || s[|s| - 1] != '\n' {
    } else {
      AllBlank(s[..|s| - 1]);
      LastBlankShape(s[..|s| - 1]);
    }
  }

  lemma {:induction false} AllBlank(s: string)
    requires forall i :: 0 <= i < |s| ==> IsSpace(s[i])
    ensures StripLeft(s) == []
  {
    if s == [] {
    } else {
      AllBlank(s[1..]);
    }
  }

  lemma ValueShape(rest: string)
    ensures var r := ValueAfter(rest);
      r.Some? ==> IsValue(r.value) || (IsBlank(r.value) && StripLeft(rest) == [])
  {
    hide StripLeft, StripRight;
    if rest != [] && IsSpace(rest[0]) {
      var text := StripLeft(rest);
      if text == [] {
        LastBlankShape(rest);
      } else {
        var line := Before(text, '\n');
        BeforeFree(text, '\n');
        assert line[0] == text[0];
        StripRightTrims(line);
        StripRightWithin(line);
        StripRightSome(line);
      }
    }
  }

  lemma {:induction false} StripRightSome(s: string)
    requires s != [] && !IsSpace(s[0])
    ensures StripRight(s) != [] && StripRight(s)[0] == s[0]
  {
    if !IsSpace(s[|s| - 1]) {
    } else {
      StripRightSome(s[..|s| - 1]);
    }
  }

  lemma MetadataAtShape(s: string, key: string)
    ensures var r := MetadataAt(s, key); r.Some? ==> IsValue(r.value) || IsBlank(r.value)
  {
    hide IsValue, IsBlank, ValueAfter, StripLeft;
    match After(StripLeft(s), "//")
    case None =>
    case Some(comment) =>
      match After(StripLeft(comment), "@ores.sql." + key)
      case None =>
      case Some(rest) => ValueShape(rest);
  }

  lemma {:induction false} MetadataShape(s: string, key: string)
    ensures var r := Metadata(s, key); r.Ok? ==> IsValue(r.value) || IsBlank(r.value)
    decreases |s|
  {
    hide IsValue, IsBlank, MetadataAt;
    if MetadataAt(s, key).Some? || '\n' !in s {
      MetadataAtShape(s, key);
    } else {
      MetadataShape(s[|Before(s, '\n')| + 1..], key);
    }
  }

  // ----- the model

  /**
   What declarations can say: keys that name fields, identifiers for names, scalars and enums for
   types, one list of values per enum and no closing brace in it.
   */
  ghost predicate Declared(m: Model) {
    && KeysKnown(m) && Agree(m.fields) && (forall f :: f in m.fields ==> FieldOk(f))
    && IsIdent(m.name) && (forall f :: f in m.fields ==> IsIdent(f.name))
    && (forall f :: f in m.fields && IsEnum(f) ==>
          IsIdent(f.enumName.value) && !IsScalar(f.enumName.value) && AllFree(f.enumValues, '}'))
  }

  /** What the notation can say: declarations, and a table that is one trimmed line. */
  ghost predicate Notated(m: Model) {
    Declared(m) && IsValue(m.table)
  }

  lemma FieldsNotated(enums: map<string, seq<string>>, fields: seq<Field>)
    requires IsTable(enums) && forall f :: f in fields ==> IsRead(enums, f)
    ensures forall f :: f in fields ==> FieldOk(f) && IsIdent(f.name)
    ensures forall f :: f in fields && IsEnum(f) ==>
      IsIdent(f.enumName.value) && !IsScalar(f.enumName.value) && AllFree(f.enumValues, '}')
    ensures Agree(fields)
  {
    hide IsScalar, AllFree;
    forall n | n in enums ensures n != [] {
    }
    hide IsIdent;
  }

  /** Where the parts of a model that was read come from. */
  lemma Origin(source: string, letters: Letters) returns (enums: map<string, seq<string>>)
    requires ParseTypeSpec(source, letters).Ok?
    ensures var m := ParseTypeSpec(source, letters).value;
      var models := Blocks(source, false, "model", letters);
      && ParseEnums(Blocks(source, false, "enum", letters)) == Ok(enums)
      && |models| == 1 && m.name == models[0].0
      && ParseFieldLines(enums, LinesOf(models[0].1)) == Ok(m.fields)
      && Metadata(source, "table") == Ok(m.table)
  {
    hide DeclaresNamespace, Blocks, ParseEnums, ParseFieldLines, Metadata, ParseKey, ParseGroups, Split, KeysKnown,
      LinesOf;
    enums := ParseEnums(Blocks(source, false, "enum", letters)).value;
  }

  /**
   Whatever the source, a model that is read is in the terms of declarations, with a trimmed table
   or a single blank for one. JSON Schema can express it too exactly when no two fields have one
   name and no enum has the model's.
   */
  lemma ReadIsDeclared(source: string, letters: Letters)
    ensures ParseTypeSpec(source, letters).Ok? ==>
      var m := ParseTypeSpec(source, letters).value;
      && Declared(m) && (IsValue(m.table) || IsBlank(m.table))
      && (WellFormed(m) <==> EnumsApart(m) && DistinctNames(m.fields))
  {
    hide ParseTypeSpec, Blocks, ParseEnums, ParseFieldLines, Metadata, LinesOf, IsBlock, IsTable, IsRead, IsIdent,
      FieldOk, DistinctNames, Trimmed, IsScalar, AllFree, KeysKnown, Agree;
    if ParseTypeSpec(source, letters).Ok? {
      var m := ParseTypeSpec(source, letters).value;
      var enums := Origin(source, letters);
      var models := Blocks(source, false, "model", letters);
      BlocksShape(source, false, "enum", letters);
      BlocksShape(source, false, "model", letters);
      EnumsShape(Blocks(source, false, "enum", letters));
      FieldsShape(enums, LinesOf(models[0].1));
      MetadataShape(source, "table");
      FieldsNotated(enums, m.fields);
      BlockIdent(models[0]);
      IdentNoSlash(m.name);
      forall f | f in m.fields && IsEnum(f) ensures Free(f.enumName.value, '/') {
        IdentNoSlash(f.enumName.value);
      }
    }
  }

  lemma BlockIdent(b: (string, string))
    requires IsBlock(b)
    ensures IsIdent(b.0)
  {}

  lemma IdentNoSlash(s: string)
    requires IsIdent(s)
    ensures Free(s, '/')
  {}
}
