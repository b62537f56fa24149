/** Inputs on which the TypeSpec witness loses something that the JSON witness carries. */
module TypeSpecFailures {
  import opened Prelude
  import opened Text
  import opened SchemaModel
  import opened TypeSpecWitness
  import opened TypeSpecLines
  import opened TypeSpecScan
  import opened TypeSpecBlocks
  import opened TypeSpecParsed
  import opened TypeSpecRoundTrip
  import opened TypeSpecDocument
  import opened TypeSpecKeys
  import opened TypeSpecHeader
  import opened TypeSpecSearch
  import opened TypeSpecTheorem

  const TEXT := Field("a", "string", false, None, [])

  /** A field of an enum with one value. */
  function Coded(value: string): Field {
    Field("a", "enum", false, Some("E"), [value])
  }

  function Table(primaryKey: seq<string>, unique: seq<seq<string>>, field: Field): Model {
    Model("M", "t", primaryKey, unique, [field])
  }

  ghost function Read(m: Model, letters: Letters): Result<Model, TranslateError> {
    match RenderTypeSpec(m, "x", "y")
    case Ok(source) => ParseTypeSpec(source, letters)
    case Err(e) => Err(e)
  }

  lemma ReadExact(m: Model, letters: Letters)
    requires Notated(m)
    ensures if CanBeRead(m, letters) then Read(m, letters) == Ok(Witnessed(m)) else Read(m, letters).Err?
  {
    assert IsQuietLine("x") && IsQuietLine("y");
    hide Notated, RenderTypeSpec, ParseTypeSpec, CanBeRead, Witnessed, IsQuietLine;
    TypeSpecRead(m, "x", "y", letters);
  }

  lemma SmallNames()
    ensures IsIdent("M") && IsIdent("E") && IsIdent("a") && !IsScalar("E") && IsScalar("string") && !IsScalar("enum")
    ensures IsValue("t")
  {
    assert "string"[0] == 's' && "int32"[0] == 'i' && "utcDateTime"[0] == 'u' && "enum"[0] == 'e' && "E"[0] == 'E';
  }

  lemma SmallTable(letters: Letters)
    ensures TableReads("t", letters) && Undeclared("t", "model", letters)
  {
    OtherStart("t", "enum");
    assert "t"[1..] == [];
    assert ClosedBlocks("t", false, "enum", letters) == ClosedBlocks([], IsWord('t', letters), "enum", letters) == Some([]);
    KeywordsAreIdents();
    NoStartQuiet("t", "model", letters);
  }

  /** Where a keyword's first letter does not occur, nothing is declared. */
  lemma NoStartQuiet(text: string, keyword: string, letters: Letters)
    requires IsIdent(keyword) && keyword[0] !in text
    ensures Undeclared(text, keyword, letters)
  {
    hide OpenAt, InWord;
    forall i | 0 <= i < |text| ensures OpenAt(text[i..] + [], keyword).None? {
      assert text[i] in text;
      OtherStart(text[i..] + [], keyword);
    }
  }

  lemma TextTable(primaryKey: seq<string>, unique: seq<seq<string>>, letters: Letters)
    requires forall k :: k in primaryKey ==> k == "a"
    requires forall g, k :: g in unique && k in g ==> k == "a"
    ensures var m := Table(primaryKey, unique, TEXT);
      && Notated(m) && WellFormed(m) && EnumsLegible(m.fields)
      && TableReads(m.table, letters) && NoOtherModel(m, letters)
  {
    hide IsIdent, IsScalar, IsValue, TableReads, Undeclared;
    SmallNames();
    SmallTable(letters);
    assert TEXT in [TEXT] && "string" != "enum";
    assert Free("M", '/');
    hide Free;
  }

  /** Without keys nothing can be read. */
  lemma NoKeysUnreadable(letters: Letters)
    ensures var m := Table([], [], TEXT); WellFormed(m) && Read(m, letters).Err?
  {
    hide Read, Notated, WellFormed, EnumsLegible, TableReads, NoOtherModel;
    TextTable([], [], letters);
    ReadExact(Table([], [], TEXT), letters);
  }

  /** An empty group is dropped. */
  lemma EmptyGroupLost(letters: Letters)
    ensures var m := Table(["a"], [["a"], []], TEXT);
      WellFormed(m) && Read(m, letters) == Ok(Table(["a"], [["a"]], TEXT))
  {
    hide Read, Notated, WellFormed, EnumsLegible, TableReads, NoOtherModel;
    var m := Table(["a"], [["a"], []], TEXT);
    TextTable(["a"], [["a"], []], letters);
    ReadExact(m, letters);
    assert Join(m.unique[0], ',') == "a";
    var rest := m.unique[1..];
    assert rest == [[]] && rest[1..] == [];
    assert NonEmpty(rest) == [];
    assert NonEmpty(m.unique) == [["a"]];
    assert EscapeAll([]) == [];
    assert EscapedFields([TEXT]) == [Escaped(TEXT)] == [TEXT];
  }

  lemma CodedNotated(value: string)
    requires Free(value, '}')
    ensures var m := Table(["a"], [["a"]], Coded(value)); Notated(m) && WellFormed(m)
  {
    hide IsIdent, IsScalar, IsValue;
    SmallNames();
    var f := Coded(value);
    assert Free("M", '/') && Free("E", '/') && "E"[0] != "M"[0];
    assert f in [f] && [value][0] in [value];
    hide Free;
  }

  lemma CodedRead(value: string, letters: Letters)
    ensures var m := Table(["a"], [["a"]], Coded(value));
      && (CanBeRead(m, letters) <==> Legible(value) && Undeclared(Escape(value), "model", letters))
      && Witnessed(m) == Table(["a"], [["a"]], Coded(Escape(value)))
  {
    hide Legible, Escape, TableReads, Undeclared;
    SmallTable(letters);
    var f := Coded(value);
    var m := Table(["a"], [["a"]], f);
    assert Join(m.unique[0], ',') == "a";
    assert f in [f] && "E" != [];
    assert value in [value];
    assert EnumsLegible([f]) <==> AllLegible([value]);
    assert ValuesUndeclared([f], "model", letters) <==> AllUndeclared([value], "model", letters);
    assert NonEmpty(m.unique) == [["a"]] by { assert m.unique[1..] == []; }
    assert EscapeAll([value]) == [Escape(value)];
    assert EscapedFields([f]) == [Escaped(f)];
  }

  lemma CodedExact(value: string, letters: Letters)
    requires Free(value, '}')
    ensures var m := Table(["a"], [["a"]], Coded(value));
      && WellFormed(m)
      && if Legible(value) && Undeclared(Escape(value), "model", letters)
         then Read(m, letters) == Ok(Table(["a"], [["a"]], Coded(Escape(value))))
         else Read(m, letters).Err?
  {
    hide *;
    CodedNotated(value);
    CodedRead(value, letters);
    ReadExact(Table(["a"], [["a"]], Coded(value)), letters);
  }

  lemma AccentEscaped()
    ensures Escape("\U{E9}") == "\\u00e9" && Legible("\U{E9}")
  {
    assert EscapeChar('\U{E9}') == UnicodeEscape(0xE9);
    assert UnicodeEscape(0xE9) == "\\u" + [Hex(0), Hex(0), Hex(14), Hex(9)];
    assert "\U{E9}"[1..] == [];
  }

  /** A letter outside ASCII comes back as its JSON escape. */
  lemma AccentRespelled(letters: Letters)
    ensures var m := Table(["a"], [["a"]], Coded("\U{E9}"));
      WellFormed(m) && Read(m, letters) == Ok(Table(["a"], [["a"]], Coded("\\u00e9")))
  {
    hide Read, WellFormed, Escape, Legible, Undeclared;
    AccentEscaped();
    KeywordsAreIdents();
    NoStartQuiet("\\u00e9", "model", letters);
    CodedExact("\U{E9}", letters);
  }

  /** A value with a quotation mark cannot be read. */
  lemma QuoteUnreadable(letters: Letters)
    ensures var m := Table(["a"], [["a"]], Coded("\"")); WellFormed(m) && Read(m, letters).Err?
  {
    hide Read, WellFormed, Escape, Undeclared;
    CodedExact("\"", letters);
  }

  /** A value that declares a model makes a second one. */
  lemma SecondModelUnreadable(letters: Letters)
    ensures var m := Table(["a"], [["a"]], Coded("model X {")); WellFormed(m) && Read(m, letters).Err?
  {
    hide Read, WellFormed, Escape, Legible, OpenAt, AllPlain;
    var value := "model X {";
    KeywordsAreIdents();
    LetterIdent();
    PlainDeclaration();
    EscapePlain(value);
    assert value == "model" + " " + "X" + " {" + [];
    OwnOpen("model", "X", []);
    assert value[0..] + [] == value;
    assert !InWord(value, 0, false, letters);
    assert !Undeclared(value, "model", letters);
    hide Undeclared;
    CodedExact(value, letters);
  }

  lemma LetterIdent()
    ensures IsIdent("X")
  {}

  lemma PlainDeclaration()
    ensures AllPlain("model X {") && Free("model X {", '}')
  {}

  /** A brace alone does no harm. */
  lemma BraceSurvives(letters: Letters)
    ensures var m := Table(["a"], [["a"]], Coded("a{b")); WellFormed(m) && Read(m, letters) == Ok(m)
  {
    hide Read, WellFormed, Escape, Undeclared;
    assert AllPlain("a{b");
    EscapePlain("a{b");
    KeywordsAreIdents();
    NoStartQuiet("a{b", "model", letters);
    CodedExact("a{b", letters);
  }
}
