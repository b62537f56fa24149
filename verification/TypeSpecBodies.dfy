/** What the reader makes of whole bodies: comments left out, one entry a line, the last enum of a name wins. */
module TypeSpecBodies {
  import opened Prelude
  import opened Text
  import opened SchemaModel
  import opened TypeSpecWitness
  import opened TypeSpecLines
  import opened TypeSpecScan
  import opened TypeSpecGrammar

  // ----- which lines count

  /** A line counts, trimmed, unless it is blank or starts with two slashes. */
  lemma {:induction false} TellingAdds(a: seq<string>, line: string, b: seq<string>)
    ensures Telling(a + [line] + b) ==
      Telling(a) + (if Strip(line) == "" || "//" <= Strip(line) then [] else [Strip(line)]) + Telling(b)
  {
    hide Strip;
    var all := a + [line] + b;
    if b == [] {
      assert all == a + [line] && all[..|a|] == a && all[|a|] == line;
    } else {
      var n := |b| - 1;
      assert all[|all| - 1] == b[n] && all[..|all| - 1] == a + [line] + b[..n];
      TellingAdds(a, line, b[..n]);
    }
  }

  // ----- the fields of a model

  /** The line declares the field: of a scalar type, or of an enum with that enum's values. */
  ghost predicate Declares(enums: map<string, seq<string>>, line: string, f: Field) {
    match ParseFieldLine(line)
    case Some((name, optional, type_)) =>
      && f.name == name && f.nullable == optional
      && (if type_ in {"string", "int32", "utcDateTime"} then
            f.logicalType == type_ && f.enumName.None? && f.enumValues == []
          else
            type_ in enums && f.logicalType == "enum" && f.enumName == Some(type_) && f.enumValues == enums[type_])
    case None => false
  }

  ghost predicate AllDeclare(enums: map<string, seq<string>>, lines: seq<string>, fields: seq<Field>) {
    |fields| == |lines| && forall i :: 0 <= i < |lines| ==> Declares(enums, lines[i], fields[i])
  }

  lemma DeclareSnoc(enums: map<string, seq<string>>, lines: seq<string>, line: string, fields: seq<Field>)
    ensures AllDeclare(enums, lines + [line], fields) <==>
      fields != [] && AllDeclare(enums, lines, fields[..|fields| - 1]) && Declares(enums, line, fields[|fields| - 1])
  {
    hide Declares;
    var all := lines + [line];
    assert all[|lines|] == line && forall i :: 0 <= i < |lines| ==> all[i] == lines[i];
    if fields != [] {
      assert fields == fields[..|fields| - 1] + [fields[|fields| - 1]];
    }
  }

  /** One more line: its field at the end, or an error. */
  lemma OneMoreLine(enums: map<string, seq<string>>, lines: seq<string>, before: seq<Field>, f: Field)
    requires lines != [] && ParseFieldLines(enums, lines[..|lines| - 1]) == Ok(before)
    requires !Skipped(Strip(lines[|lines| - 1]))
    ensures ParseFieldLines(enums, lines) == Ok(before + [f]) <==> Declares(enums, Strip(lines[|lines| - 1]), f)
    ensures match ParseFieldLines(enums, lines)
      case Ok(all) => |all| == |before| + 1 && all[..|before|] == before
      case Err(e) => e == FieldUnsupported
  {
    hide Strip, Skipped, ParseFieldLine;
    assert (before + [f])[|before|] == f;
  }

  /** A body is read exactly when every line that counts declares a field; otherwise a field is unsupported. */
  lemma {:induction false} FieldLinesIff(enums: map<string, seq<string>>, lines: seq<string>, fields: seq<Field>)
    ensures ParseFieldLines(enums, lines) == Ok(fields) <==> AllDeclare(enums, Telling(lines), fields)
    ensures ParseFieldLines(enums, lines).Err? ==> ParseFieldLines(enums, lines).error == FieldUnsupported
    decreases |lines|, 1
  {
    if lines != [] {
      hide Strip, Skipped, ParseFieldLine, Declares, AllDeclare;
      var init, line := lines[..|lines| - 1], Strip(lines[|lines| - 1]);
      if Skipped(line) {
        FieldLinesIff(enums, init, fields);
      } else {
        FieldLineAdded(enums, lines, fields);
      }
    }
  }

  lemma {:induction false} FieldLineAdded(enums: map<string, seq<string>>, lines: seq<string>, fields: seq<Field>)
    requires lines != [] && !Skipped(Strip(lines[|lines| - 1]))
    ensures ParseFieldLines(enums, lines) == Ok(fields) <==> AllDeclare(enums, Telling(lines), fields)
    ensures ParseFieldLines(enums, lines).Err? ==> ParseFieldLines(enums, lines).error == FieldUnsupported
    decreases |lines|, 0
  {
    hide Strip, Skipped, ParseFieldLine, Declares, AllDeclare;
    var init, line := lines[..|lines| - 1], Strip(lines[|lines| - 1]);
    var before := ParseFieldLines(enums, init);
    FieldLinesIff(enums, init, if fields == [] then [] else fields[..|fields| - 1]);
    DeclareSnoc(enums, Telling(init), line, fields);
    if before.Err? {
      assert ParseFieldLines(enums, lines) == before;
    } else {
      hide ParseFieldLines;
      OneMoreLine(enums, lines, before.value, if fields == [] then Field([], [], false, None, []) else fields[|fields| - 1]);
      if fields != [] {
        assert fields == fields[..|fields| - 1] + [fields[|fields| - 1]];
      }
    }
  }

  // ----- enums

  /** The block's values, if every line that counts is a member and there is one. */
  ghost function ValuesOf(block: (string, string)): Option<seq<string>> {
    match ParseMembers(LinesOf(block.1))
    case Ok(values) => if values == [] then None else Some(values)
    case Err(_) => None
  }

  /** Block `i` is the last of its name. */
  ghost predicate IsLast(blocks: seq<(string, string)>, i: nat) {
    i < |blocks| && forall j :: i < j < |blocks| ==> blocks[j].0 != blocks[i].0
  }

  /** The enums are those of the blocks, each with the values of the last block of its name. */
  ghost predicate IsCatalogue(blocks: seq<(string, string)>, enums: map<string, seq<string>>) {
    && (forall block :: block in blocks ==> ValuesOf(block).Some? && block.0 in enums)
    && (forall name :: name in enums ==> exists block :: block in blocks && block.0 == name)
    && (forall i :: 0 <= i < |blocks| && IsLast(blocks, i) ==>
          blocks[i].0 in enums && ValuesOf(blocks[i]) == Some(enums[blocks[i].0]))
  }

  lemma {:induction false} SomeLast(blocks: seq<(string, string)>, name: string)
    requires exists block :: block in blocks && block.0 == name
    ensures exists i :: 0 <= i < |blocks| && IsLast(blocks, i) && blocks[i].0 == name
  {
    var n := |blocks| - 1;
    if blocks[n].0 == name {
      assert IsLast(blocks, n);
    } else {
      var init := blocks[..n];
      assert forall i :: 0 <= i < n ==> blocks[i] == init[i];
      SomeLast(init, name);
      var i :| 0 <= i < |init| && IsLast(init, i) && init[i].0 == name;
      assert IsLast(blocks, i);
    }
  }

  lemma CatalogueUnique(blocks: seq<(string, string)>, a: map<string, seq<string>>, b: map<string, seq<string>>)
    requires IsCatalogue(blocks, a) && IsCatalogue(blocks, b)
    ensures a == b
  {
    hide ValuesOf, IsLast;
    forall name | name in a || name in b ensures name in a && name in b && a[name] == b[name] {
      SomeLast(blocks, name);
    }
  }

  lemma CatalogueSnoc(
    blocks: seq<(string, string)>, block: (string, string), enums: map<string, seq<string>>, values: seq<string>)
    requires IsCatalogue(blocks, enums) && ValuesOf(block) == Some(values)
    ensures IsCatalogue(blocks + [block], enums[block.0 := values])
  {
    hide ValuesOf;
    var all, more := blocks + [block], enums[block.0 := values];
    var n := |blocks|;
    assert all[n] == block && forall i :: 0 <= i < n ==> all[i] == blocks[i];
    forall name | name in more ensures exists b :: b in all && b.0 == name {
      if name == block.0 {
        assert block in all;
      } else {
        var b :| b in blocks && b.0 == name;
        assert b in all;
      }
    }
    forall i | 0 <= i < |all| && IsLast(all, i)
      ensures all[i].0 in more && ValuesOf(all[i]) == Some(more[all[i].0])
    {
      if i < n {
        assert all[n].0 != all[i].0;
        assert IsLast(blocks, i) && all[i].0 == blocks[i].0;
      }
    }
  }

  lemma {:induction false} EnumBlocksRead(blocks: seq<(string, string)>)
    ensures ParseEnums(blocks).Ok? <==> forall block :: block in blocks ==> ValuesOf(block).Some?
    ensures ParseEnums(blocks).Ok? ==> IsCatalogue(blocks, ParseEnums(blocks).value)
  {
    hide ParseMembers, LinesOf, IsLast;
    if blocks != [] {
      var init, block := blocks[..|blocks| - 1], blocks[|blocks| - 1];
      EnumBlocksRead(init);
      assert blocks == init + [block];
      assert (forall b :: b in blocks ==> ValuesOf(b).Some?) <==>
        (forall b :: b in init ==> ValuesOf(b).Some?) && ValuesOf(block).Some?;
      if ParseEnums(blocks).Ok? {
        CatalogueSnoc(init, block, ParseEnums(init).value, ValuesOf(block).value);
      }
    }
  }

  /** Enum blocks are read exactly when each lists at least one member; the last of a name is the one that counts. */
  lemma EnumBlocksIff(blocks: seq<(string, string)>, enums: map<string, seq<string>>)
    ensures ParseEnums(blocks) == Ok(enums) <==> IsCatalogue(blocks, enums)
  {
    hide ParseEnums, ValuesOf, IsLast;
    EnumBlocksRead(blocks);
    if IsCatalogue(blocks, enums) {
      CatalogueUnique(blocks, enums, ParseEnums(blocks).value);
    }
  }

  /** The first block that cannot be read decides the error. */
  lemma {:induction false} EnumBlocksRefused(blocks: seq<(string, string)>)
    requires ParseEnums(blocks).Err?
    ensures exists i ::
      && 0 <= i < |blocks| && ValuesOf(blocks[i]).None? && (forall j :: 0 <= j < i ==> ValuesOf(blocks[j]).Some?)
      && ParseEnums(blocks).error == if Telling(LinesOf(blocks[i].1)) == [] then EnumEmpty else EnumMemberUnsupported
  {
    hide LinesOf;
    var n := |blocks| - 1;
    var init := blocks[..n];
    assert forall i :: 0 <= i < n ==> blocks[i] == init[i];
    EnumBlocksRead(init);
    if ParseEnums(init).Err? {
      EnumBlocksRefused(init);
    } else {
      assert forall j :: 0 <= j < n ==> blocks[j] in init;
      MembersRefused(LinesOf(blocks[n].1));
    }
  }

  /** Without lines that count there are no members; otherwise there are as many, or an error. */
  lemma {:induction false} MembersRefused(lines: seq<string>)
    ensures match ParseMembers(lines)
      case Ok(values) => |values| == |Telling(lines)|
      case Err(e) => e == EnumMemberUnsupported && Telling(lines) != []
  {
    hide Strip, Skipped, ParseMember;
    if lines != [] {
      MembersRefused(lines[..|lines| - 1]);
    }
  }

  // ----- the namespace

  /** A letter or underscore, then letters, digits, underscores and dots. */
  ghost predicate IsDotted(s: string) {
    s != [] && IsIdentStart(s[0]) && forall i :: 0 <= i < |s| ==> IsIdentChar(s[i]) || s[i] == '.'
  }

  ghost predicate IsNamespace(s: string, gap: string, name: string, space: string, after: string) {
    && s == "namespace" + (gap + (name + (space + (";" + after))))
    && gap != [] && Blank(gap) && IsDotted(name) && Blank(space)
  }

  lemma {:induction false} DottedSpan(s: string)
    ensures var n := Span(s, true);
      && (n < |s| ==> !IsIdentChar(s[n]) && s[n] != '.')
      && forall i :: 0 <= i < n ==> IsIdentChar(s[i]) || s[i] == '.'
  {
    if s != [] && (IsIdentChar(s[0]) || s[0] == '.') {
      DottedSpan(s[1..]);
      assert s == [s[0]] + s[1..];
    }
  }

  lemma NamespaceReads(s: string, gap: string, name: string, space: string, after: string)
    requires IsNamespace(s, gap, name, space, after)
    ensures NamespaceAt(s)
  {
    hide StripLeft;
    var tail := space + (";" + after);
    AfterBack("namespace", gap + (name + tail));
    IdentNotSpace(name[0]);
    assert (name + tail)[0] == name[0];
    BlankStrips(gap, name + tail);
    assert (gap + (name + tail))[0] == gap[0];
    assert tail[0] == if space == [] then ';' else space[0];
    if space != [] {
      SpaceNotIdent(space[0]);
    }
    SpanBack(name, tail, true);
    assert (name + tail)[..|name|] == name && (name + tail)[|name|..] == tail;
    BlankStrips(space, ";" + after);
    AfterBack(";", after);
  }

  /** A namespace stands exactly where the keyword, a dotted name and a semicolon do, with blanks between them. */
  lemma NamespaceIff(s: string)
    ensures NamespaceAt(s) <==> exists gap, name, space, after :: IsNamespace(s, gap, name, space, after)
  {
    hide StripLeft, IsNamespace;
    if NamespaceAt(s) {
      AfterSplits(s, "namespace");
      var words := After(s, "namespace").value;
      var gap := StripSplits(words);
      var rest := StripLeft(words);
      DottedSpan(rest);
      var name := IdentPrefix(rest, true);
      assert rest == name + rest[|name|..];
      var space := StripSplits(rest[|name|..]);
      AfterSplits(StripLeft(rest[|name|..]), ";");
      var after := After(StripLeft(rest[|name|..]), ";").value;
      NamespaceShown(s, gap, name, space, after);
    }
    if exists gap, name, space, after :: IsNamespace(s, gap, name, space, after) {
      var gap, name, space, after :| IsNamespace(s, gap, name, space, after);
      NamespaceReads(s, gap, name, space, after);
    }
  }

  lemma NamespaceShown(s: string, gap: string, name: string, space: string, after: string)
    requires s == "namespace" + (gap + (name + (space + (";" + after))))
    requires gap != [] && Blank(gap) && IsDotted(name) && Blank(space)
    ensures IsNamespace(s, gap, name, space, after)
  {}
}
