/** How single lines of TypeSpec are printed and read back. */
module TypeSpecLines {
  import opened Prelude
  import opened Text
  import opened TypeSpecWitness

  // ----- prefixes and spaces

  lemma {:induction false} SpanBack(id: string, rest: string, dotted: bool)
    requires forall i :: 0 <= i < |id| ==> IsIdentChar(id[i]) || (dotted && id[i] == '.')
    requires rest == [] || !(IsIdentChar(rest[0]) || (dotted && rest[0] == '.'))
    ensures Span(id + rest, dotted) == |id|
  {
    if id == [] {
      assert id + rest == rest;
    } else {
      assert (id + rest)[1..] == id[1..] + rest;
      SpanBack(id[1..], rest, dotted);
    }
  }

  lemma IdentBack(id: string, rest: string)
    requires IsIdent(id) && (rest == [] || !IsIdentChar(rest[0]))
    ensures IdentPrefix(id + rest, false) == id
    ensures (id + rest)[|id|..] == rest
  {
    SpanBack(id, rest, false);
    assert (id + rest)[..|id|] == id;
  }

  lemma AfterBack(prefix: string, rest: string)
    ensures After(prefix + rest, prefix) == Some(rest)
  {
    assert (prefix + rest)[..|prefix|] == prefix;
    assert (prefix + rest)[|prefix|..] == rest;
  }

  lemma IdentNotSpace(c: char)
    requires IsIdentChar(c)
    ensures !IsSpace(c)
  {}

  /** One leading blank, and two, are stripped. */
  lemma StripIndent(s: string)
    requires s != [] && !IsSpace(s[0])
    ensures StripLeft(s) == s && StripLeft(" " + s) == s && StripLeft("  " + s) == s
  {
    assert (" " + s)[1..] == s;
    assert ("  " + s)[1..] == " " + s;
  }

  // ----- enum members

  lemma IdentifierIdent(s: string)
    ensures IsIdent(TspIdentifier(s))
  {
    assert forall i :: 0 <= i < 6 ==> IsIdentChar("value_"[i]);
  }

  lemma {:induction false} BeforeBack(s: string, c: char, rest: string)
    requires Free(s, c)
    ensures Before(s + [c] + rest, c) == s
  {
    var all := s + [c] + rest;
    if s == [] {
    } else {
      assert all[1..] == s[1..] + [c] + rest;
      BeforeBack(s[1..], c, rest);
      assert s == [s[0]] + s[1..];
    }
  }

  ghost predicate AllPlain(s: string) {
    forall i :: 0 <= i < |s| ==> IsPlain(s[i])
  }

  /** Plain text is its own escape, and anything else gets longer. */
  lemma {:induction false} EscapePlain(s: string)
    ensures |Escape(s)| >= |s|
    ensures if AllPlain(s) then Escape(s) == s else |Escape(s)| > |s|
  {
    if s == [] {
    } else {
      EscapePlain(s[1..]);
      assert s == [s[0]] + s[1..];
      assert AllPlain(s) <==> IsPlain(s[0]) && AllPlain(s[1..]) by {
        if IsPlain(s[0]) && AllPlain(s[1..]) {
          forall i | 0 <= i < |s| ensures IsPlain(s[i]) {
            if i > 0 { assert s[i] == s[1..][i - 1]; }
          }
        }
        if AllPlain(s) {
          forall i | 0 <= i < |s[1..]| ensures IsPlain(s[1..][i]) {
            assert s[1..][i] == s[i + 1];
          }
        }
      }
    }
  }

  function MemberText(v: string): string {
    TspIdentifier(v) + (": " + Dumps(v) + ",")
  }

  lemma MemberOpens(id: string, quoted: string)
    requires IsIdent(id)
    ensures ParseMember(id + (": " + "\"" + quoted)) == ParseQuoted(quoted)
  {
    hide ParseQuoted;
    var tail := ": " + "\"" + quoted;
    IdentBack(id, tail);
    assert tail == ":" + (" " + "\"" + quoted);
    assert StripLeft(tail) == tail;
    AfterBack(":", " " + "\"" + quoted);
    assert " " + "\"" + quoted == " " + ("\"" + quoted);
    StripIndent("\"" + quoted);
    AfterBack("\"", quoted);
  }

  lemma MemberQuoted(v: string)
    ensures ParseMember(MemberText(v)) == ParseQuoted(Escape(v) + "\",")
  {
    hide ParseMember, ParseQuoted, Escape, TspIdentifier;
    IdentifierIdent(v);
    MemberOpens(TspIdentifier(v), Escape(v) + "\",");
    assert ": " + Dumps(v) + "," == ": " + "\"" + (Escape(v) + "\",");
  }

  /** Values that a printed member can be read from at all. */
  predicate Legible(v: string) {
    v != [] && Free(v, '"')
  }

  lemma {:induction false} BeforeStops(s: string, c: char, i: nat)
    requires i < |s| && s[i] == c
    ensures |Before(s, c)| <= i
    decreases i
  {
    if s[0] == c {
    } else {
      BeforeStops(s[1..], c, i - 1);
    }
  }

  lemma {:induction false} StripKeeps(s: string, c: char)
    requires c in s && !IsSpace(c)
    ensures c in StripLeft(s)
  {
    if !IsSpace(s[0]) {
    } else {
      assert s == [s[0]] + s[1..];
      StripKeeps(s[1..], c);
    }
  }

  /** Two quotes leave one behind the first, and that is no comma. */
  lemma TwoQuotes(s: string, i: nat, j: nat)
    requires i < j < |s| && s[i] == s[j] == '"'
    ensures ParseQuoted(s).None?
  {
    hide StripLeft, Before;
    BeforeStops(s, '"', i);
    var value := Before(s, '"');
    var tail := s[|value| + 1..];
    assert tail[j - |value| - 1] == '"';
    StripKeeps(tail, '"');
  }

  lemma OneQuote(e: string)
    requires Free(e, '"')
    ensures ParseQuoted(e + "\",") == if e == [] then None else Some(e)
  {
    var quoted := e + "\",";
    assert quoted == e + ['"'] + ",";
    BeforeBack(e, '"', ",");
    assert quoted[|e| + 1..] == ",";
  }

  // ----- what escaped text consists of

  /** Characters that escaping adds only where they were. */
  predicate Rare(x: char) {
    x == '"' || x == '}'
  }

  lemma HexFree(n: nat, x: char)
    requires Rare(x)
    ensures Hex(n) != x
  {}

  lemma UnicodeFree(n: nat, x: char)
    requires Rare(x)
    ensures Free(UnicodeEscape(n), x)
  {
    HexFree(n / 4096 % 16, x);
    HexFree(n / 256 % 16, x);
    HexFree(n / 16 % 16, x);
    HexFree(n % 16, x);
    hide Hex;
  }

  lemma EscapeCharFree(c: char, x: char)
    requires Rare(x) && c != x
    ensures Free(EscapeChar(c), x)
  {
    hide UnicodeEscape;
    UnicodeFree(c as int, x);
    if c as int >= 0x10000 {
      var n := c as int - 0x10000;
      UnicodeFree(0xD800 + n / 0x400, x);
      UnicodeFree(0xDC00 + n % 0x400, x);
    }
  }

  /** Escaped text holds a quote or a brace only if the value does. */
  lemma {:induction false} EscapeFree(v: string, x: char)
    requires Rare(x) && Free(v, x)
    ensures Free(Escape(v), x)
  {
    hide EscapeChar;
    if v == [] {
    } else {
      EscapeCharFree(v[0], x);
      EscapeFree(v[1..], x);
    }
  }

  lemma HexAscii(n: nat)
    ensures ' ' <= Hex(n) <= '~'
  {}

  lemma UnicodeAscii(n: nat)
    ensures forall c :: c in UnicodeEscape(n) ==> ' ' <= c <= '~'
  {
    HexAscii(n / 4096 % 16);
    HexAscii(n / 256 % 16);
    HexAscii(n / 16 % 16);
    HexAscii(n % 16);
    hide Hex;
  }

  lemma EscapeCharAscii(c: char)
    ensures forall x :: x in EscapeChar(c) ==> ' ' <= x <= '~'
  {
    hide UnicodeEscape;
    UnicodeAscii(c as int);
    if c as int >= 0x10000 {
      var n := c as int - 0x10000;
      UnicodeAscii(0xD800 + n / 0x400);
      UnicodeAscii(0xDC00 + n % 0x400);
    }
  }

  /** Escaped text is printable ASCII. */
  lemma {:induction false} EscapeAscii(v: string)
    ensures forall x :: x in Escape(v) ==> ' ' <= x <= '~'
  {
    hide EscapeChar;
    if v == [] {
    } else {
      EscapeCharAscii(v[0]);
      EscapeAscii(v[1..]);
    }
  }

  lemma {:induction false} EscapeKeepsQuote(v: string)
    requires '"' in v
    ensures '"' in Escape(v)
  {
    if v[0] == '"' {
      assert EscapeChar(v[0])[1] == '"';
    } else {
      hide EscapeChar;
      assert v == [v[0]] + v[1..];
      EscapeKeepsQuote(v[1..]);
    }
  }

  /** What the reader makes of a printed member: the escaped text, or nothing. */
  lemma MemberRead(v: string)
    ensures ParseMember(MemberText(v)) == if Legible(v) then Some(Escape(v)) else None
  {
    hide ParseMember, MemberText, ParseQuoted, EscapeChar;
    MemberQuoted(v);
    if Free(v, '"') {
      EscapeFree(v, '"');
      EscapePlain(v);
      OneQuote(Escape(v));
      assert v == [] ==> Escape(v) == [];
    } else {
      EscapeKeepsQuote(v);
      var e := Escape(v);
      var i :| 0 <= i < |e| && e[i] == '"';
      TwoQuotes(e + "\",", i, |e|);
    }
  }

  /** There is a value, and JSON shows it as it is. */
  ghost predicate Shown(v: string) {
    v != [] && AllPlain(v)
  }

  /** An enum value survives printing and reading exactly when JSON shows it as it is. */
  lemma MemberBackIff(v: string)
    ensures ParseMember(MemberText(v)) == Some(v) <==> Shown(v)
  {
    hide ParseMember, MemberText, EscapeChar;
    MemberRead(v);
    EscapePlain(v);
  }
}
