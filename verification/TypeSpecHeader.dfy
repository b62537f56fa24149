/** The head of a TypeSpec document: the remarks, the namespace and the metadata comments. */
module TypeSpecHeader {
  import opened Prelude
  import opened Text
  import opened SchemaModel
  import opened TypeSpecWitness
  import opened TypeSpecLines
  import opened TypeSpecScan
  import opened TypeSpecBlocks
  import opened TypeSpecDocument

  // ----- remarks

  /** The fixed comments on top: no metadata, no brace, one line each. */
  ghost predicate IsRemark(line: string) {
    && |line| > 9 && line[0] == line[1] == '/' && line[2] == ' '
    && (line[3] == 'N' || (line[3] == '@' && line[9] == 'w'))
  }

  /** Text of one line that opens no block. */
  ghost predicate IsQuietLine(text: string) {
    Free(text, '\n') && Free(text, '{')
  }

  lemma NoticeRemark()
    ensures IsRemark(Notice())
  {}

  lemma NoticeLine()
    ensures IsQuietLine(Notice())
  {}

  lemma WarningRemark()
    ensures IsRemark(Warning())
  {}

  lemma WarningSingle()
    ensures Free(Warning(), '\n')
  {}

  lemma WarningOpensNothing()
    ensures Free(Warning(), '{')
  {}

  lemma PurposeLine()
    ensures IsQuietLine(Purpose())
  {}

  lemma WitnessRemark(key: string, text: string)
    ensures IsRemark(WitnessLine(key, text))
    ensures IsQuietLine(key) && IsQuietLine(text) ==> IsQuietLine(WitnessLine(key, text))
  {}

  lemma KeysQuiet()
    ensures IsQuietLine("source-authority") && IsQuietLine("source-digest") && IsQuietLine("purpose")
  {}

  lemma DottedName()
    ensures forall i :: 0 <= i < |NAMESPACE| ==> IsIdentChar(NAMESPACE[i]) || NAMESPACE[i] == '.'
    ensures IsIdentStart(NAMESPACE[0])
  {}

  lemma NamespaceQuiet()
    ensures IsQuietLine(NamespaceLine())
  {
    DottedName();
  }

  /** Every line on top is a remark, the namespace or blank, and holds no brace and no line feed. */
  lemma PreambleLine(authority: string, digest: string, line: string)
    requires IsQuietLine(authority) && IsQuietLine(digest) && line in Preamble(authority, digest)
    ensures IsRemark(line) || line == NamespaceLine() || line == ""
    ensures IsQuietLine(line)
  {
    hide Notice, Warning, Purpose, WitnessLine, NamespaceLine, IsRemark;
    NoticeRemark();
    NoticeLine();
    WarningRemark();
    WarningSingle();
    WarningOpensNothing();
    PurposeLine();
    KeysQuiet();
    NamespaceQuiet();
    WitnessRemark("source-authority", authority);
    WitnessRemark("source-digest", digest);
    WitnessRemark("purpose", Purpose());
  }

  // ----- the namespace

  lemma DottedPrefix(rest: string)
    ensures IdentPrefix(NAMESPACE + (";" + rest), true) == NAMESPACE
    ensures (NAMESPACE + (";" + rest))[|NAMESPACE|..] == ";" + rest
  {
    DottedName();
    SpanBack(NAMESPACE, ";" + rest, true);
    assert (NAMESPACE + (";" + rest))[..|NAMESPACE|] == NAMESPACE;
  }

  lemma NamespaceFound(rest: string)
    ensures NamespaceAt(NamespaceLine() + rest)
  {
    DottedPrefix(rest);
    DottedName();
    NamespaceWord();
    hide IdentPrefix;
    var tail := NAMESPACE + (";" + rest);
    NamespaceSplit(rest);
    IdentNotSpace(NAMESPACE[0]);
    assert tail[0] == NAMESPACE[0];
    FirstWord("namespace", " " + tail, "namespace");
    StripIndent(tail);
    StripIndent(";" + rest);
    AfterBack(";", rest);
  }

  lemma NamespaceWord()
    ensures IsIdent("namespace")
  {
    assert forall i :: 0 <= i < 9 ==> IsIdentChar("namespace"[i]);
  }

  lemma NamespaceSplit(rest: string)
    ensures NamespaceLine() + rest == "namespace" + (" " + (NAMESPACE + (";" + rest)))
  {
    assert "namespace " == "namespace" + " ";
  }

  lemma NamespaceDeclared(before: seq<string>, after: string, letters: Letters)
    requires before != []
    ensures DeclaresNamespace(Glue(before) + (NamespaceLine() + after), letters)
  {
    hide NamespaceLine, NamespaceAt;
    NamespaceFound(after);
    EndsLine(before);
    var i := |Glue(before)|;
    var s := Glue(before) + (NamespaceLine() + after);
    assert s[i..] == NamespaceLine() + after;
    NamespaceNotEmpty();
    assert s[i - 1] == '\n' && !IsWord('\n', letters);
    assert !InWord(s, i, false, letters);
  }

  lemma NamespaceNotEmpty()
    ensures NamespaceLine() != []
  {
    assert |"namespace "| > 0;
  }

  // ----- metadata

  /** A line that is no metadata comment for the key is skipped. */
  lemma MetadataSkip(line: string, rest: string, key: string)
    requires Free(line, '\n') && MetadataAt(line + "\n" + rest, key).None?
    ensures Metadata(line + "\n" + rest, key) == Metadata(rest, key)
  {
    hide MetadataAt;
    var s := line + "\n" + rest;
    assert s == line + ['\n'] + rest;
    BeforeBack(line, '\n', rest);
    assert s[|line|] == '\n' && s[|line| + 1..] == rest;
  }

  lemma BlankLine(rest: string, key: string)
    ensures Metadata("\n" + rest, key) == Metadata(rest, key)
  {
    assert ("\n" + rest)[1..] == rest;
    assert StripLeft("\n" + rest) == StripLeft(rest);
    assert MetadataAt("\n" + rest, key) == MetadataAt(rest, key);
    hide MetadataAt;
    if MetadataAt(rest, key).None? {
      assert [] + "\n" + rest == "\n" + rest;
      MetadataSkip([], rest, key);
    }
  }

  /** What the comment `// x` is for. */
  lemma CommentAt(x: string, key: string)
    requires x != [] && !IsSpace(x[0])
    ensures MetadataAt("// " + x, key)
         == match After(x, "@ores.sql." + key) case Some(rest) => ValueAfter(rest) case None => None
  {
    hide ValueAfter;
    var s := "// " + x;
    assert StripLeft(s) == s;
    assert s == "//" + (" " + x);
    AfterBack("//", " " + x);
    StripIndent(x);
  }

  lemma CommentOther(x: string, key: string, i: nat)
    requires x != [] && !IsSpace(x[0]) && i < |x| && i < |"@ores.sql." + key|
    requires x[i] != ("@ores.sql." + key)[i]
    ensures MetadataAt("// " + x, key).None?
  {
    hide MetadataAt;
    CommentAt(x, key);
  }

  lemma RemarkSkipped(line: string, rest: string, key: string)
    requires IsRemark(line)
    ensures MetadataAt(line + "\n" + rest, key).None?
  {
    hide MetadataAt;
    var s := line + "\n" + rest;
    var x := s[3..];
    assert s == "// " + x;
    var prefix := "@ores.sql." + key;
    assert prefix[0] == '@' && prefix[6] == 's';
    assert x[0] == line[3] && x[6] == line[9];
    CommentOther(x, key, if line[3] == 'N' then 0 else 6);
  }

  lemma NamespaceSkipped(rest: string, key: string)
    ensures MetadataAt(NamespaceLine() + "\n" + rest, key).None?
  {
    var s := NamespaceLine() + "\n" + rest;
    assert s[0] == 'n';
  }

  /** One metadata comment is not mistaken for another. */
  lemma OtherKeySkipped(key: string, text: string, rest: string, other: string)
    requires key != [] && other != [] && key[0] != other[0]
    ensures MetadataAt(SqlLine(key, text) + "\n" + rest, other).None?
  {
    hide MetadataAt;
    var s := SqlLine(key, text) + "\n" + rest;
    var x := "@ores.sql." + key + " " + text + "\n" + rest;
    assert s == "// " + x;
    assert x[0] == '@' && x[10] == key[0] && ("@ores.sql." + other)[10] == other[0];
    CommentOther(x, other, 10);
  }

  lemma OwnKeyFound(key: string, text: string, rest: string)
    ensures MetadataAt(SqlLine(key, text) + "\n" + rest, key) == ValueAfter(" " + text + "\n" + rest)
  {
    hide MetadataAt, ValueAfter;
    var prefix := "@ores.sql." + key;
    var tail := " " + text + "\n" + rest;
    var x := prefix + tail;
    assert SqlLine(key, text) + "\n" + rest == "// " + x;
    assert x[0] == '@';
    CommentAt(x, key);
    AfterBack(prefix, tail);
  }

  /** Behind blanks, the value is the next text up to the end of its line. */
  lemma NextText(blanks: string, line: string, rest: string)
    requires blanks != [] && StripLeft(blanks) == [] && line != [] && !IsSpace(line[0]) && Free(line, '\n')
    ensures ValueAfter(blanks + (line + "\n" + rest)) == Some(StripRight(line))
  {
    hide StripLeft, StripRight;
    var text := line + "\n" + rest;
    StripLeftJoin(blanks, text);
    StripLeftSuffix(blanks);
    StripIndent(text);
    assert text == line + ['\n'] + rest;
    BeforeBack(line, '\n', rest);
    assert (blanks + text)[0] == blanks[0];
  }

  lemma {:induction false} PreambleSkipped(lines: seq<string>, rest: string, key: string)
    requires forall l :: l in lines ==> (IsRemark(l) || l == NamespaceLine() || l == "") && IsQuietLine(l)
    ensures Metadata(Glue(lines) + rest, key) == Metadata(rest, key)
  {
    hide IsRemark, NamespaceLine, Metadata, MetadataAt;
    if lines == [] {
      assert Glue(lines) + rest == rest;
    } else {
      var line, more := lines[0], Glue(lines[1..]) + rest;
      assert line in lines;
      assert Glue(lines) + rest == line + "\n" + more;
      PreambleSkipped(lines[1..], rest, key);
      if line == "" {
        assert line + "\n" + more == "\n" + more;
        BlankLine(more, key);
      } else {
        if IsRemark(line) {
          RemarkSkipped(line, more, key);
        } else {
          NamespaceSkipped(more, key);
        }
        MetadataSkip(line, more, key);
      }
    }
  }

  // ----- the metadata comments as text

  /** What follows the table: the other comments, a blank line and the declarations. */
  function AfterTable(keys: string, groups: string, decls: string): string {
    "\n" + (SqlLine("primary-key", keys) + "\n" + (SqlLine("unique", groups) + "\n" + ("\n" + decls)))
  }

  lemma HeaderText(m: Model, authority: string, digest: string, decls: string)
    ensures Glue(HeaderLines(m, authority, digest)) + decls
         == Glue(Preamble(authority, digest))
            + (SqlLine("table", m.table) + AfterTable(Join(m.primaryKey, ','), JoinGroups(m.unique), decls))
  {
    hide Glue, SqlLine, Preamble, Join, JoinGroups;
    var a, b, c := SqlLine("table", m.table), SqlLine("primary-key", Join(m.primaryKey, ',')),
      SqlLine("unique", JoinGroups(m.unique));
    GlueJoin(Preamble(authority, digest), [a, b, c, ""]);
    GlueFour(a, b, c);
    var p := Glue(Preamble(authority, digest));
    assert p + (a + "\n" + (b + "\n" + (c + "\n" + "\n"))) + decls
        == p + (a + ("\n" + (b + "\n" + (c + "\n" + ("\n" + decls)))));
  }

  lemma GlueFour(a: string, b: string, c: string)
    ensures Glue([a, b, c, ""]) == a + "\n" + (b + "\n" + (c + "\n" + "\n"))
  {
    var lines := [a, b, c, ""];
    assert lines[1..] == [b, c, ""] && [b, c, ""][1..] == [c, ""] && [c, ""][1..] == [""];
    GlueOne("");
    assert Glue([c, ""]) == c + "\n" + "\n";
    assert Glue([b, c, ""]) == b + "\n" + Glue([c, ""]);
  }

  // ----- where the head declares nothing

  lemma WordQuiet(word: string, rest: string, keyword: string, letters: Letters)
    requires IsIdent(keyword) && IsIdent(word) && forall i :: 0 <= i <= |word| ==> word[i..] != keyword
    ensures Quiet(word + " ", rest, false, keyword, letters)
  {
    hide AfterWord, InWord;
    var x := word + " ";
    forall i | 0 <= i < |x| ensures OpenAt(x[i..] + rest, keyword).None? {
      assert x[i..] + rest == word[i..] + (" " + rest);
      FirstWord(word[i..], " " + rest, keyword);
    }
  }

  lemma TableWord(keyword: string)
    requires IsKeyword(keyword)
    ensures IsIdent("table") && forall i :: 0 <= i <= |"table"| ==> "table"[i..] != keyword
  {
    assert forall i :: 0 <= i < 5 ==> IsIdentChar("table"[i]);
    forall i | 0 <= i <= |"table"| ensures "table"[i..] != keyword {
      if |"table"[i..]| == |keyword| {
        assert "table"[i..][0] == "table"[i] && i <= 1;
      }
    }
  }

  lemma StopsAtDot(x: string, rest: string, keyword: string, letters: Letters)
    requires IsIdent(keyword) && Free(x, '{')
    ensures Quiet(x + "// @ores.sql.", rest, false, keyword, letters)
    ensures !InWord(x + "// @ores.sql.", |x + "// @ores.sql."|, false, letters)
  {
    hide Quiet, IsIdent;
    var s := x + "// @ores.sql.";
    assert s[|s| - 1] == '.' && Free(s, '{');
    StopperQuiet(s, rest, false, keyword, letters);
  }

  /** Nothing is declared on the way to the table. */
  lemma ToTable(before: string, rest: string, keyword: string, letters: Letters)
    requires IsKeyword(keyword) && Free(before, '{')
    ensures Quiet(before + "// @ores.sql.table ", rest, false, keyword, letters)
    ensures !InWord(before + "// @ores.sql.table ", |before + "// @ores.sql.table "|, false, letters)
  {
    hide Quiet, IsIdent, IsKeyword;
    KeywordIdent(keyword);
    TableWord(keyword);
    var x := before + "// @ores.sql.";
    assert before + "// @ores.sql.table " == x + ("table" + " ");
    StopsAtDot(before, "table" + " " + rest, keyword, letters);
    WordQuiet("table", rest, keyword, letters);
    QuietJoin(x, "table" + " ", rest, false, keyword, letters);
    assert !IsWord(' ', letters);
  }

  /** Text that starts with a declaration. */
  ghost predicate StartsDeclaration(decls: string) {
    decls != [] && IsIdentStart(decls[0]) && NamedAt(decls).None?
  }

  function KeyPart(keys: string): string {
    "\n" + SqlLine("primary-key", keys) + "\n"
  }

  function GroupPart(groups: string): string {
    "unique " + groups + "\n\n"
  }

  /** The text between the table and the declarations. */
  function Between(keys: string, groups: string): string {
    (KeyPart(keys) + "// @ores.sql.") + GroupPart(groups)
  }

  lemma BetweenText(keys: string, groups: string, decls: string)
    ensures AfterTable(keys, groups, decls) == Between(keys, groups) + decls
    ensures Separate(AfterTable(keys, groups, decls))
  {
    assert SqlLine("unique", groups) == "// @ores.sql." + ("unique " + groups);
    assert "\n\n" == "\n" + "\n";
    assert SqlLine("primary-key", keys)[0] == '/';
    assert AfterTable(keys, groups, decls)[1] == '/';
  }

  lemma KeyPartFree(keys: string, c: char)
    requires Free(keys, c) && (c == '{' || c == '}')
    ensures Free(KeyPart(keys), c)
  {
    assert Free("// @ores.sql.", c) && Free("primary-key", c);
  }

  lemma GroupPartFree(groups: string, c: char)
    requires Free(groups, c) && (c == '{' || c == '}')
    ensures Free(GroupPart(groups), c)
  {
    assert Free("unique ", c);
  }

  lemma GroupPartEnd(groups: string)
    ensures var g := GroupPart(groups); g != [] && g[|g| - 1] == '\n' && g[|g| - 2] == '\n'
  {}

  /** Nothing is declared between the table and the declarations. */
  lemma FromTable(keys: string, groups: string, decls: string, keyword: string, letters: Letters)
    requires IsKeyword(keyword) && Free(keys, '{') && Free(groups, '{') && StartsDeclaration(decls)
    ensures Quiet(Between(keys, groups), decls, false, keyword, letters)
    ensures var x := Between(keys, groups); !InWord(x, |x|, false, letters)
  {
    hide Quiet, IsIdent, IsKeyword, KeyPart, GroupPart, NamedAt;
    KeywordIdent(keyword);
    var a, words := KeyPart(keys), GroupPart(groups);
    KeyPartFree(keys, '{');
    GroupPartFree(groups, '{');
    GroupPartEnd(groups);
    StopsAtDot(a, words + decls, keyword, letters);
    WordsQuiet(words, decls, false, keyword, letters);
    QuietJoin(a + "// @ores.sql.", words, decls, false, keyword, letters);
    var x := Between(keys, groups);
    assert x[|x| - 1] == words[|words| - 1] == '\n' && !IsWord('\n', letters);
  }

  lemma BetweenFree(keys: string, groups: string)
    requires Free(keys, '}') && Free(groups, '}')
    ensures Free(Between(keys, groups), '}')
  {
    hide KeyPart, GroupPart;
    KeyPartFree(keys, '}');
    GroupPartFree(groups, '}');
    assert Free("// @ores.sql.", '}');
  }
}
