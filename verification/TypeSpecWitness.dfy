/**
 The TypeSpec witness: printing a model as TypeSpec source and reading it back. The reader's
 patterns search the whole text, and their white space runs across line breaks.
 */
module TypeSpecWitness {
  import opened Prelude
  import opened Text
  import opened SchemaModel

  // ----- characters and identifiers

  predicate IsIdentStart(c: char) {
    'a' <= c <= 'z' || 'A' <= c <= 'Z' || c == '_'
  }

  predicate IsIdentChar(c: char) {
    IsIdentStart(c) || '0' <= c <= '9'
  }

  predicate IsIdent(s: string) {
    s != [] && IsIdentStart(s[0]) && forall i :: 0 <= i < |s| ==> IsIdentChar(s[i])
  }

  /** Length of the longest prefix of identifier characters, with dots if `dotted`. */
  function Span(s: string, dotted: bool): (n: nat)
    ensures n <= |s|
  {
    if s != [] && (IsIdentChar(s[0]) || (dotted && s[0] == '.')) then 1 + Span(s[1..], dotted) else 0
  }

  /** The identifier a string starts with, if any. */
  function IdentPrefix(s: string, dotted: bool): (p: string)
    ensures p <= s
  {
    if s != [] && IsIdentStart(s[0]) then s[..Span(s, dotted)] else []
  }

  /** The rest after `prefix`, if the string starts with it. */
  function After(s: string, prefix: string): (r: Option<string>)
    ensures r.Some? ==> |r.value| + |prefix| == |s|
  {
    if prefix <= s then Some(s[|prefix|..]) else None
  }

  /** The rest after `prefix` and at least one space, with leading space dropped. */
  function AfterWord(s: string, prefix: string): (r: Option<string>)
    ensures r.Some? ==> |r.value| + |prefix| < |s|
  {
    match After(s, prefix)
    case Some(rest) => if rest != [] && IsSpace(rest[0]) then Some(StripLeft(rest)) else None
    case None => None
  }

  // ----- printing

  function Hex(n: nat): char {
    if n < 10 then '0' + n as char else if n < 16 then 'a' + (n - 10) as char else '?'
  }

  function UnicodeEscape(n: nat): string {
    "\\u" + [Hex(n / 4096 % 16), Hex(n / 256 % 16), Hex(n / 16 % 16), Hex(n % 16)]
  }

  /** Characters that a JSON string shows as themselves. */
  predicate IsPlain(c: char) {
    ' ' <= c <= '~' && c != '"' && c != '\\'
  }

  function EscapeChar(c: char): string {
    if IsPlain(c) then [c]
    else if c == '"' then "\\\""
    else if c == '\\' then "\\\\"
    else if c == '\n' then "\\n"
    else if c == '\r' then "\\r"
    else if c == '\t' then "\\t"
    else if c as int == 8 then "\\b"
    else if c as int == 12 then "\\f"
    else if c as int < 0x10000 then UnicodeEscape(c as int)
    else
      var n := c as int - 0x10000;
      UnicodeEscape(0xD800 + n / 0x400) + UnicodeEscape(0xDC00 + n % 0x400)
  }

  function Escape(s: string): string {
    if s == [] then [] else EscapeChar(s[0]) + Escape(s[1..])
  }

  /** Python's `json.dumps` of a string. */
  function Dumps(s: string): string {
    ['"'] + Escape(s) + ['"']
  }

  function Sanitized(s: string): string {
    seq(|s|, i requires 0 <= i < |s| => if IsIdentChar(s[i]) then s[i] else '_')
  }

  function TspIdentifier(s: string): string {
    var candidate := Sanitized(s);
    if candidate == [] || !IsIdentStart(candidate[0]) then "value_" + candidate else candidate
  }

  function MemberLine(value: string): string {
    "  " + TspIdentifier(value) + ": " + Dumps(value) + ","
  }

  function MemberLines(values: seq<string>): seq<string> {
    seq(|values|, i requires 0 <= i < |values| => MemberLine(values[i]))
  }

  function EnumLines(name: string, values: seq<string>): seq<string> {
    ["enum " + name + " {"] + MemberLines(values) + ["}", ""]
  }

  predicate Emitted(fields: seq<Field>, name: string) {
    exists f :: f in fields && IsEnum(f) && f.enumName.value == name
  }

  /** The field is the first to use its enum. */
  predicate Introduces(before: seq<Field>, f: Field) {
    IsEnum(f) && !Emitted(before, f.enumName.value)
  }

  /** Each enum once, where a field first uses it. */
  function AllEnumLines(fields: seq<Field>): seq<string> {
    if fields == [] then []
    else
      var before, f := fields[..|fields| - 1], fields[|fields| - 1];
      AllEnumLines(before) + (if Introduces(before, f) then EnumLines(f.enumName.value, f.enumValues) else [])
  }

  function TypeName(f: Field): string {
    if f.logicalType == "enum" then (if f.enumName.Some? then f.enumName.value else []) else f.logicalType
  }

  function FieldLine(f: Field): string {
    "  " + f.name + (if f.nullable then "?" else "") + ": " + TypeName(f) + ";"
  }

  function FieldLines(fields: seq<Field>): seq<string> {
    seq(|fields|, i requires 0 <= i < |fields| => FieldLine(fields[i]))
  }

  function JoinGroups(groups: seq<seq<string>>): string {
    Join(seq(|groups|, i requires 0 <= i < |groups| => Join(groups[i], ',')), ';')
  }

  const NAMESPACE: string := "Ores.Middleware.Persistence"

  function NamespaceLine(): string {
    "namespace " + NAMESPACE + ";"
  }

  function Notice(): string {
    "// NON-AUTHORITATIVE "
    + "GENERATED WITNESS."
  }

  function Warning(): string {
    "// Never replace or "
    + "rewrite the independent "
    + "human-authored TypeSpec "
    + "authority from this file."
  }

  function WitnessLine(key: string, text: string): string {
    "// @ores.witness." + key + " " + text
  }

  function Purpose(): string {
    "cross-translation-and-"
    + "round-trip-convergence-only"
  }

  function SqlLine(key: string, text: string): string {
    "// @ores.sql." + key + " " + text
  }

  function Preamble(authority: string, digest: string): seq<string> {
    [Notice(), Warning(), WitnessLine("source-authority", authority), WitnessLine("source-digest", digest),
     WitnessLine("purpose", Purpose()), NamespaceLine(), ""]
  }

  function HeaderLines(m: Model, authority: string, digest: string): seq<string> {
    Preamble(authority, digest)
    + [SqlLine("table", m.table),
       SqlLine("primary-key", Join(m.primaryKey, ',')),
       SqlLine("unique", JoinGroups(m.unique)),
       ""]
  }

  function ModelLines(m: Model): seq<string> {
    ["model " + m.name + " {"] + FieldLines(m.fields) + ["}", ""]
  }

  /** The lines of a model's TypeSpec source. */
  function RenderLines(m: Model, authority: string, digest: string): Result<seq<string>, TranslateError> {
    if exists f :: f in m.fields && TypeName(f) == [] then Err(TypeUnsupported)
    else Ok(HeaderLines(m, authority, digest) + AllEnumLines(m.fields) + ModelLines(m))
  }

  function RenderTypeSpec(m: Model, authority: string, digest: string): Result<string, TranslateError> {
    hide RenderLines;
    var lines :- RenderLines(m, authority, digest);
    Ok(Join(lines, '\n'))
  }

  // ----- reading: declarations

  /** Which characters beyond ASCII are letters or digits is left open. */
  type Letters = char -> bool

  predicate IsWord(c: char, letters: Letters) {
    IsIdentChar(c) || (c as int >= 128 && letters(c))
  }

  /** Whether a search that has come to position `i` is in the middle of a word. */
  predicate InWord(s: string, i: nat, inWord: bool, letters: Letters)
    requires i <= |s|
  {
    if i == 0 then inWord else IsWord(s[i - 1], letters)
  }

  /** `namespace Name;` at the start of the text. */
  predicate NamespaceAt(s: string) {
    match AfterWord(s, "namespace")
    case Some(rest) =>
      var name := IdentPrefix(rest, true);
      name != [] && After(StripLeft(rest[|name|..]), ";").Some?
    case None => false
  }

  predicate DeclaresNamespace(s: string, letters: Letters) {
    exists i :: 0 <= i < |s| && !InWord(s, i, false, letters) && NamespaceAt(s[i..])
  }

  /** `Name {` at the start of the text, and what follows it. */
  function NamedAt(s: string): (r: Option<(string, string)>)
    ensures r.Some? ==> |r.value.1| < |s|
  {
    var name := IdentPrefix(s, false);
    if name == [] then None
    else match After(StripLeft(s[|name|..]), "{")
      case Some(after) => Some((name, after))
      case None => None
  }

  /** `keyword Name {` at the start of the text, and what follows it. */
  function OpenAt(s: string, keyword: string): (r: Option<(string, string)>)
    ensures r.Some? ==> |r.value.1| < |s|
  {
    match AfterWord(s, keyword)
    case Some(rest) => NamedAt(rest)
    case None => None
  }

  /** The text before the first `c`. */
  function Before(s: string, c: char): (p: string)
    ensures p <= s
    ensures if c in s then |p| < |s| && s[|p|] == c else p == s
  {
    if s == [] || s[0] == c then [] else [s[0]] + Before(s[1..], c)
  }

  /** A whole block at the start of the text: its name, the text between its braces, and the rest. */
  function BlockAt(s: string, keyword: string): (r: Option<(string, string, string)>)
    ensures r.Some? ==> |r.value.2| < |s|
  {
    match OpenAt(s, keyword)
    case Some((name, after)) =>
      var body := Before(after, '}');
      if '}' in after then Some((name, body, after[|body| + 1..])) else None
    case None => None
  }

  /** All blocks of one kind, left to right. */
  function Blocks(s: string, inWord: bool, keyword: string, letters: Letters): seq<(string, string)>
    decreases |s|
  {
    if s == [] then []
    else if !inWord && BlockAt(s, keyword).Some? then
      var (name, body, rest) := BlockAt(s, keyword).value;
      [(name, body)] + Blocks(rest, false, keyword, letters)
    else Blocks(s[1..], IsWord(s[0], letters), keyword, letters)
  }

  // ----- reading: lines of a block

  /** What ends a line for Python's `str.splitlines`. */
  predicate IsBreak(c: char) {
    || '\n' <= c <= '\r' || '\U{1C}' <= c <= '\U{1E}' || c == '\U{85}' || c == '\U{2028}' || c == '\U{2029}'
  }

  function Unified(s: string): string {
    seq(|s|, i requires 0 <= i < |s| => if IsBreak(s[i]) then '\n' else s[i])
  }

  /** The lines of a text; blank ones do not matter to any reader. */
  function LinesOf(s: string): seq<string> {
    Split(Unified(s), '\n')
  }

  predicate Skipped(line: string) {
    line == [] || "//" <= line
  }

  /** The text up to the closing quote, which only a comma may follow. */
  function ParseQuoted(quoted: string): Option<string> {
    var value := Before(quoted, '"');
    if value == [] || |value| == |quoted| then None
    else
      var tail := StripLeft(quoted[|value| + 1..]);
      if tail == [] || tail == "," then Some(value) else None
  }

  /** `name: "value"` with an optional comma. */
  function ParseMember(line: string): Option<string> {
    var name := IdentPrefix(line, false);
    if name == [] then None
    else match After(StripLeft(line[|name|..]), ":")
      case None => None
      case Some(rest) =>
        match After(StripLeft(rest), "\"")
        case None => None
        case Some(quoted) => ParseQuoted(quoted)
  }

  function ParseMembers(lines: seq<string>): Result<seq<string>, TranslateError> {
    if lines == [] then Ok([])
    else
      var values :- ParseMembers(lines[..|lines| - 1]);
      var line := Strip(lines[|lines| - 1]);
      if Skipped(line) then Ok(values)
      else match ParseMember(line)
        case Some(v) => Ok(values + [v])
        case None => Err(EnumMemberUnsupported)
  }

  function ParseEnums(blocks: seq<(string, string)>): Result<map<string, seq<string>>, TranslateError> {
    if blocks == [] then Ok(map[])
    else
      var enums :- ParseEnums(blocks[..|blocks| - 1]);
      var (name, body) := blocks[|blocks| - 1];
      var values :- ParseMembers(LinesOf(body));
      if values == [] then Err(EnumEmpty) else Ok(enums[name := values])
  }

  /** `: type;` with nothing after the semicolon. */
  function ParseType(s: string): Option<string> {
    match After(StripLeft(s), ":")
    case None => None
    case Some(tail) =>
      if |tail| >= 2 && tail[|tail| - 1] == ';' && Free(tail[..|tail| - 1], ';')
      then Some(Strip(tail[..|tail| - 1])) else None
  }

  /** `name: type;` with an optional question mark after the name. */
  function ParseFieldLine(line: string): Option<(string, bool, string)> {
    var name := IdentPrefix(line, false);
    if name == [] then None
    else
      var rest := line[|name|..];
      var optional := "?" <= rest;
      match ParseType(if optional then rest[1..] else rest)
      case Some(t) => Some((name, optional, t))
      case None => None
  }

  function ParseFieldLines(enums: map<string, seq<string>>, lines: seq<string>): Result<seq<Field>, TranslateError> {
    if lines == [] then Ok([])
    else
      var fields :- ParseFieldLines(enums, lines[..|lines| - 1]);
      var line := Strip(lines[|lines| - 1]);
      if Skipped(line) then Ok(fields)
      else match ParseFieldLine(line)
        case None => Err(FieldUnsupported)
        case Some((name, optional, type_)) =>
          if IsScalar(type_) then Ok(fields + [Field(name, type_, optional, None, [])])
          else if type_ in enums then Ok(fields + [Field(name, "enum", optional, Some(type_), enums[type_])])
          else Err(FieldUnsupported)
  }

  // ----- reading: metadata comments

  /** The last blank that is not a line feed, after the first. */
  function LastBlank(s: string): Option<string> {
    if |s| <= 1 then None
    else if s[|s| - 1] != '\n' then Some([s[|s| - 1]])
    else LastBlank(s[..|s| - 1])
  }

  /**
   The text of a metadata comment, from what follows its key: the next text, up to the end of its
   line, even if that is on another line. Only blanks to the end of the file count as a blank.
   */
  function ValueAfter(rest: string): Option<string> {
    if rest == [] || !IsSpace(rest[0]) then None
    else
      var text := StripLeft(rest);
      if text == [] then LastBlank(rest) else Some(StripRight(Before(text, '\n')))
  }

  /** The metadata comment that the text starts with, after any blanks. */
  function MetadataAt(s: string, key: string): Option<string> {
    match After(StripLeft(s), "//")
    case None => None
    case Some(comment) =>
      match After(StripLeft(comment), "@ores.sql." + key)
      case None => None
      case Some(rest) => ValueAfter(rest)
  }

  /** The first metadata comment for a key that starts a line. */
  function Metadata(s: string, key: string): Result<string, TranslateError>
    decreases |s|
  {
    match MetadataAt(s, key)
    case Some(value) => Ok(value)
    case None =>
      if '\n' in s then Metadata(s[|Before(s, '\n')| + 1..], key) else Err(MissingMetadata)
  }

  /** The non-blank pieces, stripped. */
  function Pieces(parts: seq<string>): seq<string> {
    if parts == [] then []
    else (if Strip(parts[0]) == [] then [] else [Strip(parts[0])]) + Pieces(parts[1..])
  }

  function ParseKey(text: string): seq<string> {
    Pieces(Split(text, ','))
  }

  function ParseGroups(parts: seq<string>): seq<seq<string>> {
    if parts == [] then []
    else (if Strip(parts[0]) == [] then [] else [ParseKey(parts[0])]) + ParseGroups(parts[1..])
  }

  /** The model that a TypeSpec source describes. */
  function ParseTypeSpec(source: string, letters: Letters): (r: Result<Model, TranslateError>)
    ensures r.Ok? ==> KeysKnown(r.value)
  {
    if !DeclaresNamespace(source, letters) then Err(MissingNamespace)
    else
      var enums :- ParseEnums(Blocks(source, false, "enum", letters));
      var models := Blocks(source, false, "model", letters);
      if |models| != 1 then Err(ModelCount)
      else
        var fields :- ParseFieldLines(enums, LinesOf(models[0].1));
        var primary :- Metadata(source, "primary-key");
        var unique :- Metadata(source, "unique");
        var m := Model(models[0].0, [], ParseKey(primary), ParseGroups(Split(unique, ';')), fields);
        if !KeysKnown(m) then Err(UnknownKey)
        else
          var table :- Metadata(source, "table");
          Ok(m.(table := table))
  }

  // ----- the loops of the reader and the printer

  /** The lines of a body that say something. */
  function Telling(lines: seq<string>): seq<string> {
    if lines == [] then []
    else
      var line := Strip(lines[|lines| - 1]);
      Telling(lines[..|lines| - 1]) + (if Skipped(line) then [] else [line])
  }

  /**
   Every line that is not blank or a comment must be a member. The values come in the order of their
   lines; one line that is no member fails the whole body.
   */
  method ReadMembers(lines: seq<string>) returns (r: Result<seq<string>, TranslateError>)
    ensures r == ParseMembers(lines)
    ensures r.Ok? <==> forall l :: l in Telling(lines) ==> ParseMember(l).Some?
    ensures r.Ok? ==>
      && |r.value| == |Telling(lines)|
      && forall i :: 0 <= i < |r.value| ==> ParseMember(Telling(lines)[i]) == Some(r.value[i])
    ensures r.Err? ==> r.error == EnumMemberUnsupported
  {
    hide ParseMember, Strip, Skipped;
    var values := [];
    assert lines[..0] == [];
    for i := 0 to |lines|
      invariant ParseMembers(lines[..i]) == Ok(values)
      invariant |values| == |Telling(lines[..i])|
      invariant forall j :: 0 <= j < |values| ==> ParseMember(Telling(lines[..i])[j]) == Some(values[j])
    {
      assert lines[..i + 1][..i] == lines[..i];
      var line := Strip(lines[i]);
      if !Skipped(line) {
        var v := ParseMember(line);
        if v.None? {
          MembersFail(lines, i + 1);
          TellingPrefix(lines, i + 1);
          assert line in Telling(lines[..i + 1]);
          return Err(EnumMemberUnsupported);
        }
        values := values + [v.value];
      }
    }
    assert lines[..|lines|] == lines;
    return Ok(values);
  }

  lemma {:induction false} TellingPrefix(lines: seq<string>, n: nat)
    requires n <= |lines|
    ensures forall l :: l in Telling(lines[..n]) ==> l in Telling(lines)
    decreases |lines| - n
  {
    hide Strip, Skipped;
    if n == |lines| {
      assert lines[..n] == lines;
    } else {
      assert lines[..n + 1][..n] == lines[..n];
      TellingPrefix(lines, n + 1);
    }
  }

  lemma {:induction false} MembersFail(lines: seq<string>, n: nat)
    requires n <= |lines| && ParseMembers(lines[..n]).Err?
    ensures ParseMembers(lines) == ParseMembers(lines[..n])
    decreases |lines| - n
  {
    if n == |lines| {
      assert lines[..n] == lines;
    } else {
      assert lines[..n + 1][..n] == lines[..n];
      MembersFail(lines, n + 1);
    }
  }

  lemma EmittedSnoc(fields: seq<Field>, i: nat, n: string)
    requires i < |fields|
    ensures Emitted(fields[..i + 1], n) <==>
      Emitted(fields[..i], n) || (IsEnum(fields[i]) && fields[i].enumName.value == n)
  {
    assert fields[..i + 1] == fields[..i] + [fields[i]];
    if Emitted(fields[..i], n) {
      var f :| f in fields[..i] && IsEnum(f) && f.enumName.value == n;
      assert f in fields[..i + 1];
    }
    assert fields[i] in fields[..i + 1];
  }

  method PrintEnums(fields: seq<Field>) returns (lines: seq<string>)
    ensures lines == AllEnumLines(fields)
  {
    hide Emitted, EnumLines;
    lines := [];
    var emitted: set<string> := {};
    assert fields[..0] == [];
    NothingEmitted();
    for i := 0 to |fields|
      invariant lines == AllEnumLines(fields[..i])
      invariant forall n :: n in emitted <==> Emitted(fields[..i], n)
    {
      var f := fields[i];
      assert fields[..i + 1][..i] == fields[..i];
      forall n ensures Emitted(fields[..i + 1], n) <==>
        Emitted(fields[..i], n) || (IsEnum(f) && f.enumName.value == n)
      {
        EmittedSnoc(fields, i, n);
      }
      if IsEnum(f) && f.enumName.value !in emitted {
        emitted := emitted + {f.enumName.value};
        lines := lines + EnumLines(f.enumName.value, f.enumValues);
      }
    }
    assert fields[..|fields|] == fields;
  }

  lemma NothingEmitted()
    ensures forall n :: !Emitted([], n)
  {}
}
