/** The reader's patterns, each as the texts it matches. */
module TypeSpecGrammar {
  import opened Prelude
  import opened Text
  import opened SchemaModel
  import opened TypeSpecWitness
  import opened TypeSpecLines
  import opened TypeSpecScan

  ghost predicate Blank(s: string) {
    forall i :: 0 <= i < |s| ==> IsSpace(s[i])
  }

  /** Text that does not go on with a blank. */
  ghost predicate Starts(s: string) {
    s == [] || !IsSpace(s[0])
  }

  lemma {:induction false} BlankStrips(blank: string, rest: string)
    requires Blank(blank) && Starts(rest)
    ensures StripLeft(blank + rest) == rest
  {
    if blank == [] {
      assert blank + rest == rest;
    } else {
      assert (blank + rest)[0] == blank[0] && (blank + rest)[1..] == blank[1..] + rest;
      BlankStrips(blank[1..], rest);
    }
  }

  /** Any text is blanks and then what is left when they are stripped. */
  lemma StripSplits(s: string) returns (blank: string)
    ensures Blank(blank) && s == blank + StripLeft(s) && Starts(StripLeft(s))
  {
    hide StripLeft;
    StripLeftSuffix(s);
    blank := s[..|s| - |StripLeft(s)|];
  }

  lemma AfterSplits(s: string, prefix: string)
    ensures After(s, prefix).Some? <==> exists rest :: s == prefix + rest
    ensures After(s, prefix).Some? ==> s == prefix + After(s, prefix).value
    ensures forall rest :: s == prefix + rest ==> After(s, prefix) == Some(rest)
  {
    if prefix <= s {
      assert s == prefix + s[|prefix|..];
    }
    forall rest | s == prefix + rest ensures After(s, prefix) == Some(rest) {
      AfterBack(prefix, rest);
    }
  }

  /** An identifier, and then no more of it. */
  ghost predicate IsName(s: string, name: string, rest: string) {
    s == name + rest && IsIdent(name) && (rest == [] || !IsIdentChar(rest[0]))
  }

  lemma {:induction false} SpanStops(s: string)
    ensures var n := Span(s, false); n < |s| ==> !IsIdentChar(s[n])
  {
    if s == [] || !IsIdentChar(s[0]) {
    } else {
      SpanStops(s[1..]);
    }
  }

  lemma NameSplits(s: string)
    ensures var name := IdentPrefix(s, false);
      name != [] ==> IsName(s, name, s[|name|..])
    ensures forall name, rest :: IsName(s, name, rest) ==>
      IdentPrefix(s, false) == name && s[|name|..] == rest && name != []
  {
    PrefixIdent(s);
    SpanStops(s);
    var name := IdentPrefix(s, false);
    if name != [] {
      assert s == name + s[|name|..];
    }
    forall name, rest | IsName(s, name, rest)
      ensures IdentPrefix(s, false) == name && s[|name|..] == rest && name != []
    {
      IdentBack(name, rest);
    }
  }

  // ----- declarations

  /** `keyword Name {`, with white space as the pattern allows it. */
  ghost predicate IsHead(s: string, keyword: string, gap: string, name: string, space: string, after: string) {
    && s == keyword + (gap + (name + (space + ("{" + after))))
    && gap != [] && Blank(gap) && IsIdent(name) && Blank(space)
  }

  lemma HeadOpens(s: string, keyword: string, gap: string, name: string, space: string, after: string)
    requires IsHead(s, keyword, gap, name, space, after)
    ensures OpenAt(s, keyword) == Some((name, after))
  {
    hide StripLeft, IdentPrefix, IsIdent;
    var tail := space + ("{" + after);
    AfterBack(keyword, gap + (name + tail));
    IdentChars(name);
    IdentNotSpaces(name);
    assert (name + tail)[0] == name[0];
    BlankStrips(gap, name + tail);
    assert (gap + (name + tail))[0] == gap[0];
    assert tail[0] == if space == [] then '{' else space[0];
    if space != [] {
      SpaceNotIdent(space[0]);
    }
    IdentBack(name, tail);
    BlankStrips(space, "{" + after);
    AfterBack("{", after);
  }

  lemma OpensHead(s: string, keyword: string) returns (gap: string, space: string)
    requires OpenAt(s, keyword).Some?
    ensures var (name, after) := OpenAt(s, keyword).value;
      IsHead(s, keyword, gap, name, space, after)
  {
    hide StripLeft, IdentPrefix, IsIdent;
    AfterSplits(s, keyword);
    var words := After(s, keyword).value;
    gap := StripSplits(words);
    var rest := StripLeft(words);
    NameSplits(rest);
    var name := IdentPrefix(rest, false);
    space := StripSplits(rest[|name|..]);
    AfterSplits(StripLeft(rest[|name|..]), "{");
  }

  /** A block starts exactly where its keyword, a name and a brace stand, with blanks between them. */
  lemma OpenIff(s: string, keyword: string, name: string, after: string)
    ensures OpenAt(s, keyword) == Some((name, after)) <==>
      exists gap, space :: IsHead(s, keyword, gap, name, space, after)
  {
    hide OpenAt, IsHead;
    if OpenAt(s, keyword) == Some((name, after)) {
      var gap, space := OpensHead(s, keyword);
    }
    if exists gap, space :: IsHead(s, keyword, gap, name, space, after) {
      var gap, space :| IsHead(s, keyword, gap, name, space, after);
      HeadOpens(s, keyword, gap, name, space, after);
    }
  }

  // ----- enum members

  /** `name: "value"` and perhaps a comma, with white space as the pattern allows it. */
  ghost predicate IsMember(line: string, name: string, a: string, b: string, value: string, c: string, end: string) {
    && line == name + (a + (":" + (b + ("\"" + (value + ("\"" + (c + end)))))))
    && IsIdent(name) && Blank(a) && Blank(b) && Blank(c) && value != [] && Free(value, '"')
    && (end == "" || end == ",")
  }

  lemma MemberParses(line: string, name: string, a: string, b: string, value: string, c: string, end: string)
    requires IsMember(line, name, a, b, value, c, end)
    ensures ParseMember(line) == Some(value)
  {
    hide StripLeft, IdentPrefix, IsIdent;
    var quoted := value + ("\"" + (c + end));
    var colon := ":" + (b + ("\"" + quoted));
    assert (a + colon)[0] == if a == [] then ':' else a[0];
    if a != [] {
      SpaceNotIdent(a[0]);
    }
    IdentBack(name, a + colon);
    IdentChars(name);
    BlankStrips(a, colon);
    AfterBack(":", b + ("\"" + quoted));
    BlankStrips(b, "\"" + quoted);
    AfterBack("\"", quoted);
    QuotedParses(value, c, end);
  }

  lemma QuotedParses(value: string, c: string, end: string)
    requires value != [] && Free(value, '"') && Blank(c) && (end == "" || end == ",")
    ensures ParseQuoted(value + ("\"" + (c + end))) == Some(value)
  {
    hide StripLeft;
    var quoted := value + ("\"" + (c + end));
    assert quoted == value + ['"'] + (c + end);
    BeforeBack(value, '"', c + end);
    assert quoted[|value| + 1..] == c + end;
    assert Starts(end);
    BlankStrips(c, end);
  }

  lemma {:induction false} BeforeLacks(s: string, c: char)
    ensures Free(Before(s, c), c)
  {
    if s == [] || s[0] == c {
    } else {
      BeforeLacks(s[1..], c);
    }
  }

  lemma ParsesMember(line: string) returns (name: string, a: string, b: string, c: string, end: string)
    requires ParseMember(line).Some?
    ensures IsMember(line, name, a, b, ParseMember(line).value, c, end)
  {
    hide StripLeft, IdentPrefix, IsIdent, Before;
    NameSplits(line);
    name := IdentPrefix(line, false);
    var tail := line[|name|..];
    a := StripSplits(tail);
    AfterSplits(StripLeft(tail), ":");
    var rest := After(StripLeft(tail), ":").value;
    b := StripSplits(rest);
    AfterSplits(StripLeft(rest), "\"");
    var quoted := After(StripLeft(rest), "\"").value;
    var value := Before(quoted, '"');
    BeforeLacks(quoted, '"');
    c := StripSplits(quoted[|value| + 1..]);
    end := StripLeft(quoted[|value| + 1..]);
    assert quoted == value + ("\"" + (c + end));
  }

  /** A line is an enum member with a value exactly when it is of that form. */
  lemma MemberIff(line: string, value: string)
    ensures ParseMember(line) == Some(value) <==>
      exists name, a, b, c, end :: IsMember(line, name, a, b, value, c, end)
  {
    hide ParseMember, IsMember;
    if ParseMember(line) == Some(value) {
      var name, a, b, c, end := ParsesMember(line);
    }
    if exists name, a, b, c, end :: IsMember(line, name, a, b, value, c, end) {
      var name, a, b, c, end :| IsMember(line, name, a, b, value, c, end);
      MemberParses(line, name, a, b, value, c, end);
    }
  }

  // ----- fields

  /** `name: type;` or `name?: type;`, with white space as the pattern allows it. */
  ghost predicate IsFieldLine(line: string, name: string, optional: bool, a: string, raw: string) {
    && line == name + ((if optional then "?" else "") + (a + (":" + (raw + ";"))))
    && IsIdent(name) && Blank(a) && raw != [] && Free(raw, ';')
  }

  lemma TypeIff(s: string)
    ensures forall a, raw :: Blank(a) && raw != [] && Free(raw, ';') && s == a + (":" + (raw + ";")) ==>
      ParseType(s) == Some(Strip(raw))
    ensures ParseType(s).Some? ==>
      exists a, raw :: Blank(a) && raw != [] && Free(raw, ';') && s == a + (":" + (raw + ";"))
                       && ParseType(s) == Some(Strip(raw))
  {
    hide StripLeft, Strip;
    forall a, raw | Blank(a) && raw != [] && Free(raw, ';') && s == a + (":" + (raw + ";"))
      ensures ParseType(s) == Some(Strip(raw))
    {
      BlankStrips(a, ":" + (raw + ";"));
      AfterBack(":", raw + ";");
      assert (raw + ";")[..|raw|] == raw;
    }
    if ParseType(s).Some? {
      var a := StripSplits(s);
      AfterSplits(StripLeft(s), ":");
      var tail := After(StripLeft(s), ":").value;
      var raw := tail[..|tail| - 1];
      assert tail == raw + ";";
      assert s == a + (":" + (raw + ";"));
    }
  }

  /** A line is a field exactly when it is of that form; its type is the text before the semicolon, trimmed. */
  lemma FieldLineIff(line: string, name: string, optional: bool, type_: string)
    ensures ParseFieldLine(line) == Some((name, optional, type_)) <==>
      exists a, raw :: IsFieldLine(line, name, optional, a, raw) && type_ == Strip(raw)
  {
    hide Strip, IdentPrefix, ParseType, IsIdent;
    NameSplits(line);
    if ParseFieldLine(line) == Some((name, optional, type_)) {
      var rest := line[|name|..];
      var typed := if optional then rest[1..] else rest;
      TypeIff(typed);
      var a, raw :| Blank(a) && raw != [] && Free(raw, ';') && typed == a + (":" + (raw + ";")) && type_ == Strip(raw);
      assert rest == (if optional then "?" else "") + typed;
      assert IsFieldLine(line, name, optional, a, raw);
    }
    if exists a, raw :: IsFieldLine(line, name, optional, a, raw) && type_ == Strip(raw) {
      var a, raw :| IsFieldLine(line, name, optional, a, raw) && type_ == Strip(raw);
      FieldLineParses(line, name, optional, a, raw);
    }
  }

  lemma FieldLineParses(line: string, name: string, optional: bool, a: string, raw: string)
    requires IsFieldLine(line, name, optional, a, raw)
    ensures ParseFieldLine(line) == Some((name, optional, Strip(raw)))
  {
    hide Strip, IdentPrefix, ParseType, IsIdent;
    var typed := a + (":" + (raw + ";"));
    var rest := (if optional then "?" else "") + typed;
    assert typed[0] == if a == [] then ':' else a[0];
    if a != [] {
      SpaceNotIdent(a[0]);
      assert a[0] != '?' by { assert !IsSpace('?'); }
    }
    IdentBack(name, rest);
    IdentChars(name);
    TypeIff(typed);
    if optional {
      assert rest[0] == '?' && rest[1..] == typed;
      assert "?" <= rest;
    } else {
      assert rest == typed;
      assert !("?" <= rest);
    }
  }

  // ----- keys

  lemma {:induction false} StripRightBlank(s: string, blank: string)
    requires Blank(blank) && s != [] && !IsSpace(s[|s| - 1])
    ensures StripRight(s + blank) == s
  {
    if blank == [] {
      assert s + blank == s;
    } else {
      var n := |blank| - 1;
      assert (s + blank)[|s| + n] == blank[n] && (s + blank)[..|s| + n] == s + blank[..n];
      StripRightBlank(s, blank[..n]);
    }
  }

  lemma StripBoth(left: string, s: string, right: string)
    requires Blank(left) && Blank(right) && s != [] && Trimmed(s)
    ensures Strip(left + (s + right)) == s
  {
    hide StripLeft, StripRight;
    assert (s + right)[0] == s[0];
    BlankStrips(left, s + right);
    StripRightBlank(s, right);
  }

  /** Text of a key with blanks around it, or of nothing but blanks. */
  datatype Piece = Piece(left: string, name: string, right: string)

  ghost predicate IsPiece(p: Piece) {
    Blank(p.left) && Blank(p.right) && (p.name == [] || IsIdent(p.name))
  }

  function PieceText(p: Piece): string {
    p.left + (p.name + p.right)
  }

  function PieceTexts(ps: seq<Piece>): seq<string> {
    seq(|ps|, i requires 0 <= i < |ps| => PieceText(ps[i]))
  }

  /** The names that are there, in order. */
  ghost function Names(ps: seq<Piece>): seq<string> {
    if ps == [] then [] else (if ps[0].name == [] then [] else [ps[0].name]) + Names(ps[1..])
  }

  lemma {:induction false} BlankIsNothing(s: string)
    requires Blank(s)
    ensures Strip(s) == []
  {
    assert s + [] == s;
    BlankStrips(s, []);
  }

  lemma PieceStrips(p: Piece)
    requires IsPiece(p)
    ensures Strip(PieceText(p)) == p.name && Free(PieceText(p), ',') && Free(PieceText(p), ';')
  {
    assert !IsSpace(',') && !IsSpace(';');
    if p.name == [] {
      assert PieceText(p) == p.left + p.right;
      BlankIsNothing(p.left + p.right);
    } else {
      IdentChars(p.name);
      IdentNotSpaces(p.name);
      StripBoth(p.left, p.name, p.right);
    }
  }

  lemma {:induction false} PiecesAre(ps: seq<Piece>)
    requires forall p :: p in ps ==> IsPiece(p)
    ensures Pieces(PieceTexts(ps)) == Names(ps)
  {
    hide Strip, IsPiece, PieceText;
    if ps == [] {
    } else {
      assert ps[0] in ps && PieceTexts(ps)[1..] == PieceTexts(ps[1..]);
      PieceStrips(ps[0]);
      PiecesAre(ps[1..]);
    }
  }

  /** A key is read from any list of its names between commas: blanks and empty places do not matter. */
  lemma KeySpacing(ps: seq<Piece>)
    requires ps != [] && forall p :: p in ps ==> IsPiece(p)
    ensures ParseKey(Join(PieceTexts(ps), ',')) == Names(ps)
  {
    hide Strip, IsPiece, PieceText, Join, Split;
    forall t | t in PieceTexts(ps) ensures Free(t, ',') {
      var i :| 0 <= i < |ps| && t == PieceText(ps[i]);
      assert ps[i] in ps;
      PieceStrips(ps[i]);
    }
    SplitJoin(PieceTexts(ps), ',');
    PiecesAre(ps);
  }

  // ----- what every printed source says about itself

  /** Every witness names, on lines of their own, the authority it was made from and that authority's digest. */
  lemma SourceMarked(m: Model, authority: string, digest: string)
    requires RenderTypeSpec(m, authority, digest).Ok?
    ensures
      var text := RenderTypeSpec(m, authority, digest).value;
      var marks :=
        "\n// @ores.witness." + "source-authority " + authority
        + "\n// @ores.witness." + "source-digest " + digest + "\n";
      exists i :: 0 <= i <= |text| && marks <= text[i..]
  {
    hide RenderLines, Join, AllEnumLines, ModelLines, Notice, Warning;
    var lines := RenderLines(m, authority, digest).value;
    MarkedLines(m, authority, digest);
    var head, marks, tail := lines[..2], lines[2..4], lines[4..];
    assert lines == head + (marks + tail);
    JoinAppend(head, marks + tail, '\n');
    JoinAppend(marks, tail, '\n');
    assert marks == [lines[2]] + [lines[3]];
    JoinAppend([lines[2]], [lines[3]], '\n');
    JoinOne(lines[2]);
    JoinOne(lines[3]);
    var before := Join(head, '\n');
    Marked(before, authority, digest, Join(tail, '\n'));
    var text := RenderTypeSpec(m, authority, digest).value;
    assert text == before + text[|before|..];
  }

  lemma Marked(before: string, authority: string, digest: string, after: string)
    ensures before + ['\n'] + (WitnessLine("source-authority", authority) + ['\n']
              + WitnessLine("source-digest", digest) + ['\n'] + after) ==
      before
      + ("\n// @ores.witness." + "source-authority " + authority
         + "\n// @ores.witness." + "source-digest " + digest + "\n"
         + after)
  {
    hide WitnessLine;
    MarkedLine("source-authority", authority);
    MarkedLine("source-digest", digest);
    assert "source-authority" + " " == "source-authority ";
    assert "source-digest" + " " == "source-digest ";
    Chained(before, WitnessLine("source-authority", authority), WitnessLine("source-digest", digest), after,
            "\n// @ores.witness.", "source-authority " + authority, "source-digest " + digest);
  }

  lemma MarkedLine(key: string, text: string)
    ensures ['\n'] + WitnessLine(key, text) == "\n// @ores.witness." + (key + " " + text)
  {
    assert "\n// @ores.witness." == ['\n'] + "// @ores.witness.";
  }

  lemma Chained(before: string, a: string, b: string, after: string, mark: string, x: string, y: string)
    requires ['\n'] + a == mark + x && ['\n'] + b == mark + y
    ensures before + ['\n'] + (a + ['\n'] + b + ['\n'] + after) == before + (mark + x + mark + y + "\n" + after)
  {
    assert a + ['\n'] + b + ['\n'] + after == a + (['\n'] + b) + ['\n'] + after;
    assert before + ['\n'] + (a + (mark + y) + ['\n'] + after)
        == before + (['\n'] + a + (mark + y) + ['\n'] + after);
    assert mark + x + (mark + y) == mark + x + mark + y;
  }

  lemma MarkedLines(m: Model, authority: string, digest: string)
    requires RenderLines(m, authority, digest).Ok?
    ensures var lines := RenderLines(m, authority, digest).value;
      && |lines| > 4 && lines[2] == WitnessLine("source-authority", authority)
      && lines[3] == WitnessLine("source-digest", digest)
  {
    hide AllEnumLines, ModelLines, WitnessLine, Notice, Warning, SqlLine;
  }

  lemma JoinOne(x: string)
    ensures Join([x], '\n') == x
  {
    assert [x][1..] == [];
  }

  // ----- names

  /** A value that is an identifier is its own member name; other characters become underscores. */
  lemma IdentifierOf(v: string)
    ensures IsIdent(TspIdentifier(v))
    ensures IsIdent(v) ==> TspIdentifier(v) == v
    ensures v != [] && IsIdentStart(v[0]) ==>
      |TspIdentifier(v)| == |v|
      && forall i :: 0 <= i < |v| ==> TspIdentifier(v)[i] == if IsIdentChar(v[i]) then v[i] else '_'
  {
    IdentifierIdent(v);
  }
}
