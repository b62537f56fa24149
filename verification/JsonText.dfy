/** Reading a JSON string back, after section 7 of RFC 8259: what is printed for a value denotes that value. */
module JsonText {
  import opened Prelude
  import opened TypeSpecWitness

  function Digit(c: char): Option<nat> {
    if '0' <= c <= '9' then Some((c - '0') as nat)
    else if 'a' <= c <= 'f' then Some((c - 'a') as nat + 10)
    else if 'A' <= c <= 'F' then Some((c - 'A') as nat + 10)
    else None
  }

  /** The 16-bit unit that a text starts with, written with four hexadecimal digits. */
  function ReadUnit(s: string): (r: Option<nat>)
    ensures r.Some? ==> |s| >= 6 && r.value < 0x10000
  {
    if |s| < 6 || s[0] != '\\' || s[1] != 'u' then None
    else
      match (Digit(s[2]), Digit(s[3]), Digit(s[4]), Digit(s[5]))
      case (Some(a), Some(b), Some(c), Some(d)) =>
        if a < 16 && b < 16 && c < 16 && d < 16 then Some(4096 * a + 256 * b + 16 * c + d) else None
      case _ => None
  }

  function ReadShort(c: char): Option<char> {
    match c
    case '"' => Some('"')
    case '\\' => Some('\\')
    case '/' => Some('/')
    case 'b' => Some(8 as char)
    case 'f' => Some(12 as char)
    case 'n' => Some('\n')
    case 'r' => Some('\r')
    case 't' => Some('\t')
    case _ => None
  }

  /** The first character and how much of the text it takes; beyond 16 bits it takes two units. */
  function ReadChar(s: string): (r: Option<(char, nat)>)
    ensures r.Some? ==> 0 < r.value.1 <= |s|
  {
    if s == [] || s[0] < ' ' || s[0] == '"' then None
    else if s[0] != '\\' then Some((s[0], 1))
    else if |s| < 2 then None
    else if s[1] != 'u' then
      match ReadShort(s[1])
      case Some(c) => Some((c, 2))
      case None => None
    else
      match ReadUnit(s)
      case None => None
      case Some(n) =>
        if n < 0xD800 || n >= 0xE000 then Some((n as char, 6))
        else
          match ReadUnit(s[6..])
          case Some(m) =>
            if n < 0xDC00 && 0xDC00 <= m < 0xE000
            then Some(((0x10000 + 0x400 * (n - 0xD800) + (m - 0xDC00)) as char, 12))
            else None
          case None => None
  }

  function ReadText(s: string): Option<string> {
    if s == [] then Some([])
    else
      match ReadChar(s)
      case None => None
      case Some((c, n)) =>
        match ReadText(s[n..])
        case Some(rest) => Some([c] + rest)
        case None => None
  }

  lemma HexRead(n: nat)
    requires n < 16
    ensures Digit(Hex(n)) == Some(n)
  {}

  lemma FourDigits(n: nat)
    requires n < 0x10000
    ensures 4096 * (n / 4096 % 16) + 256 * (n / 256 % 16) + 16 * (n / 16 % 16) + n % 16 == n
  {
    assert n / 4096 % 16 == n / 4096;
    assert n / 256 == 16 * (n / 4096) + n / 256 % 16;
    assert n / 16 == 16 * (n / 256) + n / 16 % 16;
  }

  lemma DigitsRead(a: nat, b: nat, c: nat, d: nat, rest: string)
    requires a < 16 && b < 16 && c < 16 && d < 16
    ensures ReadUnit("\\u" + [Hex(a), Hex(b), Hex(c), Hex(d)] + rest) == Some(4096 * a + 256 * b + 16 * c + d)
  {
    hide Digit, Hex;
    HexRead(a);
    HexRead(b);
    HexRead(c);
    HexRead(d);
  }

  lemma UnitRead(n: nat, rest: string)
    requires n < 0x10000
    ensures |UnicodeEscape(n)| == 6 && ReadUnit(UnicodeEscape(n) + rest) == Some(n)
    ensures UnicodeEscape(n)[0] == '\\' && UnicodeEscape(n)[1] == 'u'
  {
    hide ReadUnit, Hex;
    FourDigits(n);
    DigitsRead(n / 4096 % 16, n / 256 % 16, n / 16 % 16, n % 16, rest);
  }

  lemma CharRead(c: char, rest: string)
    ensures ReadChar(EscapeChar(c) + rest) == Some((c, |EscapeChar(c)|))
  {
    hide UnicodeEscape, ReadUnit;
    if IsPlain(c) || c in "\"\\\n\r\t" || c as int in {8, 12} {
    } else if c as int < 0x10000 {
      UnitRead(c as int, rest);
    } else {
      var n := c as int - 0x10000;
      var high, low := UnicodeEscape(0xD800 + n / 0x400), UnicodeEscape(0xDC00 + n % 0x400);
      UnitRead(0xD800 + n / 0x400, low + rest);
      UnitRead(0xDC00 + n % 0x400, rest);
      assert high + low + rest == high + (low + rest);
      assert (high + (low + rest))[6..] == low + rest;
    }
  }

  /** Printing a value as JSON loses nothing: the text denotes it, so two values never share a text. */
  lemma {:induction false} DumpsDenotes(v: string)
    ensures ReadText(Escape(v)) == Some(v)
    ensures Dumps(v) == "\"" + Escape(v) + "\""
  {
    hide EscapeChar, ReadChar;
    if v != [] {
      var first, rest := EscapeChar(v[0]), Escape(v[1..]);
      CharRead(v[0], rest);
      assert (first + rest)[|first|..] == rest && v == [v[0]] + v[1..];
      DumpsDenotes(v[1..]);
    }
  }
}
