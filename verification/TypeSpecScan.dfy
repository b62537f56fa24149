/** Searching a text for declarations: where one starts, where none can, and what a search skips. */
module TypeSpecScan {
  import opened Prelude
  import opened Text
  import opened TypeSpecWitness
  import opened TypeSpecLines

  // ----- what a declaration looks like

  /** What may stand before the brace of a declaration. */
  predicate IsSoft(c: char) {
    IsIdentChar(c) || IsSpace(c)
  }

  /** No declaration runs across such a character. */
  predicate IsStopper(c: char) {
    !IsSoft(c) && c != '{'
  }

  lemma {:induction false} StripLeftSuffix(s: string)
    ensures var k := |s| - |StripLeft(s)|;
      StripLeft(s) == s[k..] && forall i :: 0 <= i < k ==> IsSpace(s[i])
  {
    if s == [] || !IsSpace(s[0]) {
    } else {
      StripLeftSuffix(s[1..]);
      var k := |s| - |StripLeft(s)|;
      forall i | 0 <= i < k ensures IsSpace(s[i]) {
        if i > 0 {
          assert s[i] == s[1..][i - 1];
        }
      }
    }
  }

  lemma {:induction false} StripLeftJoin(x: string, y: string)
    ensures StripLeft(x + y) == if StripLeft(x) == [] then StripLeft(y) else StripLeft(x) + y
  {
    if x == [] {
      assert x + y == y;
    } else {
      assert (x + y)[0] == x[0] && (x + y)[1..] == x[1..] + y;
      if IsSpace(x[0]) {
        StripLeftJoin(x[1..], y);
      }
    }
  }

  lemma {:induction false} SpanIdent(s: string)
    ensures forall i :: 0 <= i < Span(s, false) ==> IsIdentChar(s[i])
  {
    if s == [] || !IsIdentChar(s[0]) {
    } else {
      SpanIdent(s[1..]);
      forall i | 0 <= i < Span(s, false) ensures IsIdentChar(s[i]) {
        if i > 0 {
          assert s[i] == s[1..][i - 1];
        }
      }
    }
  }

  lemma {:induction false} SpanJoin(x: string, y: string)
    requires exists c :: c in x && !IsIdentChar(c)
    ensures Span(x + y, false) == Span(x, false) < |x|
  {
    assert (x + y)[0] == x[0] && (x + y)[1..] == x[1..] + y;
    if !IsIdentChar(x[0]) {
    } else {
      var c :| c in x && !IsIdentChar(c);
      assert x == [x[0]] + x[1..];
      assert c in x[1..];
      SpanJoin(x[1..], y);
    }
  }

  lemma PrefixIdent(s: string)
    ensures IdentPrefix(s, false) != [] ==> IsIdent(IdentPrefix(s, false))
  {
    SpanIdent(s);
  }

  /** `t` is what is left of `s` after something soft. */
  ghost predicate SoftBefore(s: string, t: string) {
    |t| <= |s| && t == s[|s| - |t|..] && forall i :: 0 <= i < |s| - |t| ==> IsSoft(s[i])
  }

  lemma SoftTrans(a: string, b: string, c: string)
    requires SoftBefore(a, b) && SoftBefore(b, c)
    ensures SoftBefore(a, c)
  {
    hide IsSoft;
    var n := |a| - |b|;
    forall i | 0 <= i < |a| - |c| ensures IsSoft(a[i]) {
      if i >= n {
        assert a[i] == b[i - n];
      }
    }
  }

  lemma SoftDrop(s: string, n: nat)
    requires n <= |s| && forall i :: 0 <= i < n ==> IsIdentChar(s[i])
    ensures SoftBefore(s, s[n..])
  {}

  lemma SoftStrip(s: string)
    ensures SoftBefore(s, StripLeft(s))
  {
    hide StripLeft;
    StripLeftSuffix(s);
  }

  lemma SoftWord(s: string, keyword: string)
    requires IsIdent(keyword) && AfterWord(s, keyword).Some?
    ensures SoftBefore(s, AfterWord(s, keyword).value)
  {
    hide StripLeft, SoftBefore;
    var words := s[|keyword|..];
    assert forall i :: 0 <= i < |keyword| ==> s[i] == keyword[i];
    SoftDrop(s, |keyword|);
    SoftStrip(words);
    SoftTrans(s, words, StripLeft(words));
  }

  lemma SoftName(s: string)
    requires NamedAt(s).Some?
    ensures SoftBefore(s, "{" + NamedAt(s).value.1)
  {
    hide StripLeft, SoftBefore, IdentPrefix;
    PrefixChars(s);
    var name := IdentPrefix(s, false);
    var tail := s[|name|..];
    assert forall i :: 0 <= i < |name| ==> s[i] == name[i];
    SoftDrop(s, |name|);
    SoftStrip(tail);
    SoftTrans(s, tail, StripLeft(tail));
    assert StripLeft(tail) == "{" + StripLeft(tail)[1..];
  }

  /** Everything before the brace of a declaration is soft; everything after it is what follows. */
  lemma OpenShape(s: string, keyword: string)
    requires IsIdent(keyword) && OpenAt(s, keyword).Some?
    ensures var after := OpenAt(s, keyword).value.1;
      var j := |s| - 1 - |after|;
      && 0 <= j < |s| && s[j] == '{' && s[j + 1..] == after
      && forall i :: 0 <= i < j ==> IsSoft(s[i])
  {
    hide AfterWord, NamedAt, IsIdent, IsSoft;
    var rest := AfterWord(s, keyword).value;
    var after := NamedAt(rest).value.1;
    SoftWord(s, keyword);
    SoftName(rest);
    SoftTrans(s, rest, "{" + after);
    var j := |s| - 1 - |after|;
    assert s[j..] == "{" + after;
    assert s[j] == s[j..][0] && s[j + 1..] == s[j..][1..];
  }

  lemma IdentChars(s: string)
    requires IsIdent(s)
    ensures s != [] && forall i :: 0 <= i < |s| ==> IsIdentChar(s[i])
  {}

  lemma PrefixChars(s: string)
    ensures var name := IdentPrefix(s, false);
      name <= s && forall i :: 0 <= i < |name| ==> IsIdentChar(name[i])
  {
    SpanIdent(s);
  }

  // ----- where nothing is declared

  lemma StopperNone(x: string, c: char, y: string, keyword: string)
    requires IsIdent(keyword) && Free(x, '{') && IsStopper(c)
    ensures OpenAt(x + [c] + y, keyword).None?
  {
    hide OpenAt, IsIdent;
    var s := x + [c] + y;
    assert s[|x|] == c && forall i :: 0 <= i < |x| ==> s[i] == x[i];
    if OpenAt(s, keyword).Some? {
      OpenShape(s, keyword);
    }
  }

  lemma NoBraceNone(s: string, keyword: string)
    requires IsIdent(keyword) && Free(s, '{')
    ensures OpenAt(s, keyword).None?
  {
    hide OpenAt, IsIdent;
    if OpenAt(s, keyword).Some? {
      OpenShape(s, keyword);
    }
  }

  lemma OtherStart(s: string, keyword: string)
    requires keyword != [] && (s == [] || s[0] != keyword[0])
    ensures OpenAt(s, keyword).None?
  {
    assert !(keyword <= s);
  }

  /** With a brace in it, a text decides whether a declaration starts it. */
  lemma OpenLocal(x: string, y: string, keyword: string)
    requires IsIdent(keyword) && '{' in x
    ensures OpenAt(x + y, keyword)
         == match OpenAt(x, keyword)
            case Some((name, after)) => Some((name, after + y))
            case None => None
  {
    hide NamedAt, AfterWord, IsIdent;
    WordLocal(x, y, keyword);
    match AfterWord(x, keyword)
    case Some(rest) => NamedLocal(rest, y);
    case None =>
  }

  lemma WordLocal(x: string, y: string, keyword: string)
    requires IsIdent(keyword) && '{' in x
    ensures match AfterWord(x, keyword)
      case Some(rest) => AfterWord(x + y, keyword) == Some(rest + y) && '{' in rest
      case None => AfterWord(x + y, keyword).None?
  {
    hide StripLeft, IsIdent;
    IdentChars(keyword);
    PrefixLocal(x, y, keyword);
    if keyword <= x {
      var words := x[|keyword|..];
      assert (x + y)[|keyword|..] == words + y;
      BraceLater(x, keyword);
      StripLeftJoin(words, y);
      BraceKept(words);
    }
  }

  lemma NamedLocal(x: string, y: string)
    requires '{' in x
    ensures NamedAt(x + y)
         == match NamedAt(x)
            case Some((name, after)) => Some((name, after + y))
            case None => None
  {
    hide StripLeft, IdentPrefix;
    NameLocal(x, y);
    PrefixChars(x);
    var name := IdentPrefix(x, false);
    var tail := x[|name|..];
    assert (x + y)[|name|..] == tail + y;
    BraceLater(x, name);
    StripLeftJoin(tail, y);
    BraceKept(tail);
    var open := StripLeft(tail);
    assert (open + y)[0] == open[0] && (open + y)[1..] == open[1..] + y;
  }

  lemma PrefixLocal(x: string, y: string, keyword: string)
    requires '{' in x && forall i :: 0 <= i < |keyword| ==> IsIdentChar(keyword[i])
    ensures keyword <= x + y <==> keyword <= x
  {
    var i :| 0 <= i < |x| && x[i] == '{';
    assert (x + y)[i] == '{' && forall k :: 0 <= k < |x| ==> (x + y)[k] == x[k];
    assert !IsIdentChar('{');
  }

  lemma BraceLater(x: string, p: string)
    requires '{' in x && p <= x && forall i :: 0 <= i < |p| ==> IsIdentChar(p[i])
    ensures '{' in x[|p|..]
  {
    var i :| 0 <= i < |x| && x[i] == '{';
    assert i >= |p|;
    assert x[|p|..][i - |p|] == '{';
  }

  lemma BraceKept(x: string)
    requires '{' in x
    ensures '{' in StripLeft(x)
  {
    StripKeeps(x, '{');
  }

  lemma NameLocal(x: string, y: string)
    requires '{' in x
    ensures IdentPrefix(x + y, false) == IdentPrefix(x, false)
    ensures forall i :: 0 <= i < |IdentPrefix(x, false)| ==> IsIdentChar(IdentPrefix(x, false)[i])
  {
    assert !IsIdentChar('{');
    SpanJoin(x, y);
    PrefixChars(x);
    assert (x + y)[..Span(x, false)] == x[..Span(x, false)];
  }

  // ----- words

  /** Before a blank, exactly one word is a keyword. */
  lemma FirstWord(u: string, t: string, keyword: string)
    requires IsIdent(keyword) && (forall i :: 0 <= i < |u| ==> IsIdentChar(u[i]))
    requires t != [] && IsSpace(t[0])
    ensures AfterWord(u + t, keyword) == if u == keyword then Some(StripLeft(t)) else None
  {
    hide StripLeft;
    var s := u + t;
    IdentNotSpaces(u);
    IdentNotSpaces(keyword);
    assert s[..|u|] == u && s[|u|] == t[0] && forall i :: 0 <= i < |u| ==> s[i] == u[i];
    if keyword <= s {
      assert s[..|keyword|] == keyword;
      assert |keyword| <= |u|;
      if |keyword| < |u| {
        assert s[|keyword|..][0] == u[|keyword|];
      } else {
        assert keyword == u;
        assert s[|u|..] == t;
      }
    }
  }

  lemma IdentNotSpaces(s: string)
    requires forall i :: 0 <= i < |s| ==> IsIdentChar(s[i])
    ensures forall i :: 0 <= i < |s| ==> !IsSpace(s[i])
  {
    forall i | 0 <= i < |s| ensures !IsSpace(s[i]) {
      IdentNotSpace(s[i]);
    }
  }

  lemma NamedBack(name: string, y: string)
    requires IsIdent(name)
    ensures NamedAt(name + " {" + y) == Some((name, y))
  {
    var tail := " {" + y;
    assert name + " {" + y == name + tail;
    IdentBack(name, tail);
    assert tail == " " + ("{" + y);
    StripIndent("{" + y);
    AfterBack("{", y);
  }

  lemma OwnOpen(keyword: string, name: string, y: string)
    requires IsIdent(keyword) && IsIdent(name)
    ensures OpenAt(keyword + " " + name + " {" + y, keyword) == Some((name, y))
  {
    hide NamedAt, IsIdent;
    var t := " " + (name + " {" + y);
    assert keyword + " " + name + " {" + y == keyword + t;
    IdentChars(keyword);
    FirstWord(keyword, t, keyword);
    IdentChars(name);
    IdentNotSpaces(name);
    StripIndent(name + " {" + y);
    NamedBack(name, y);
  }

  /** Two words before a brace are not a name before a brace. */
  lemma TwoWordsNotNamed(word: string, name: string, y: string)
    requires IsIdent(word) && IsIdent(name)
    ensures NamedAt(word + " " + name + y).None?
  {
    var tail := " " + (name + y);
    assert word + " " + name + y == word + tail;
    IdentBack(word, tail);
    IdentChars(name);
    IdentNotSpaces(name);
    StripIndent(name + y);
  }

  // ----- stretches of text in which no declaration starts

  /** No declaration starts in `x` when `rest` follows it. */
  ghost predicate Quiet(x: string, rest: string, inWord: bool, keyword: string, letters: Letters) {
    forall i :: 0 <= i < |x| && !InWord(x, i, inWord, letters) ==> OpenAt(x[i..] + rest, keyword).None?
  }

  lemma QuietJoin(x: string, y: string, rest: string, inWord: bool, keyword: string, letters: Letters)
    ensures Quiet(x + y, rest, inWord, keyword, letters) <==>
      Quiet(x, y + rest, inWord, keyword, letters)
      && Quiet(y, rest, InWord(x, |x|, inWord, letters), keyword, letters)
  {
    hide OpenAt, IsWord;
    var all, w := x + y, InWord(x, |x|, inWord, letters);
    forall i | 0 <= i < |x|
      ensures all[i..] + rest == x[i..] + (y + rest) && InWord(all, i, inWord, letters) == InWord(x, i, inWord, letters)
    {
      assert all[i..] == x[i..] + y;
    }
    forall i | 0 <= i < |y|
      ensures all[|x| + i..] == y[i..] && InWord(all, |x| + i, inWord, letters) == InWord(y, i, w, letters)
    {
    }
    if Quiet(all, rest, inWord, keyword, letters) {
      forall i | 0 <= i < |y| && !InWord(y, i, w, letters) ensures OpenAt(y[i..] + rest, keyword).None? {
        assert !InWord(all, |x| + i, inWord, letters);
      }
      forall i | 0 <= i < |x| && !InWord(x, i, inWord, letters) ensures OpenAt(x[i..] + (y + rest), keyword).None? {
        assert !InWord(all, i, inWord, letters);
      }
    } else {
      var i :| 0 <= i < |all| && !InWord(all, i, inWord, letters) && OpenAt(all[i..] + rest, keyword).Some?;
      if i < |x| {
        assert !InWord(x, i, inWord, letters);
      } else {
        assert !InWord(y, i - |x|, w, letters);
        assert all[|x| + (i - |x|)..] == y[i - |x|..];
      }
    }
  }

  /** A search goes over a quiet stretch. */
  lemma {:induction false} QuietSkip(x: string, rest: string, inWord: bool, keyword: string, letters: Letters)
    requires Quiet(x, rest, inWord, keyword, letters)
    ensures Blocks(x + rest, inWord, keyword, letters)
         == Blocks(rest, InWord(x, |x|, inWord, letters), keyword, letters)
    decreases |x|
  {
    hide OpenAt, IsWord;
    if x == [] {
      assert x + rest == rest;
    } else {
      var s := x + rest;
      assert x == [x[0]] + x[1..] && s[0] == x[0] && s[1..] == x[1..] + rest;
      assert x[0..] == x;
      QuietJoin([x[0]], x[1..], rest, inWord, keyword, letters);
      assert !inWord ==> OpenAt(s, keyword).None? by {
        assert !inWord ==> !InWord(x, 0, inWord, letters);
      }
      QuietSkip(x[1..], rest, IsWord(x[0], letters), keyword, letters);
    }
  }

  /** A stretch without a brace that ends where no declaration goes on. */
  lemma StopperQuiet(x: string, rest: string, inWord: bool, keyword: string, letters: Letters)
    requires IsIdent(keyword) && x != [] && Free(x, '{') && IsStopper(x[|x| - 1])
    ensures Quiet(x, rest, inWord, keyword, letters)
  {
    hide OpenAt, IsIdent, IsStopper, InWord;
    forall i | 0 <= i < |x| ensures OpenAt(x[i..] + rest, keyword).None? {
      var n := |x| - 1;
      assert x[i..] + rest == x[i..n] + [x[n]] + rest;
      StopperNone(x[i..n], x[n], rest, keyword);
    }
  }

  /** A stretch without a letter. */
  lemma DullQuiet(x: string, rest: string, inWord: bool, keyword: string, letters: Letters)
    requires IsIdent(keyword) && forall c :: c in x ==> !IsIdentChar(c)
    ensures Quiet(x, rest, inWord, keyword, letters)
  {
    hide OpenAt, InWord;
    forall i | 0 <= i < |x| ensures OpenAt(x[i..] + rest, keyword).None? {
      assert x[i] in x;
      OtherStart(x[i..] + rest, keyword);
    }
  }

  /** A text is as quiet on its own as before something that no declaration runs into. */
  lemma QuietAlone(x: string, u: string, c: char, z: string, inWord: bool, keyword: string, letters: Letters)
    requires IsIdent(keyword) && Free(u, '{') && IsStopper(c)
    ensures Quiet(x, u + [c] + z, inWord, keyword, letters) <==> Quiet(x, [], inWord, keyword, letters)
  {
    hide OpenAt, IsIdent, IsStopper, InWord;
    forall i | 0 <= i < |x|
      ensures OpenAt(x[i..] + (u + [c] + z), keyword).None? <==> OpenAt(x[i..] + [], keyword).None?
    {
      assert x[i..] + [] == x[i..];
      if '{' in x[i..] {
        OpenLocal(x[i..], u + [c] + z, keyword);
      } else {
        assert x[i..] + (u + [c] + z) == (x[i..] + u) + [c] + z;
        StopperNone(x[i..] + u, c, z, keyword);
        NoBraceNone(x[i..], keyword);
      }
    }
  }

  /** After words and a blank, a text that is no name before a brace completes no declaration. */
  lemma WordsNone(x: string, o: string, keyword: string)
    requires IsIdent(keyword) && x != [] && Free(x, '{') && IsSpace(x[|x| - 1])
    requires o != [] && IsIdentStart(o[0]) && NamedAt(o).None?
    ensures OpenAt(x + o, keyword).None?
  {
    hide NamedAt, StripLeft;
    var s := x + o;
    IdentNotSpaces(keyword);
    if keyword <= s && |keyword| < |s| {
      assert s[|x| - 1] == x[|x| - 1] && forall i :: 0 <= i < |keyword| ==> s[i] == keyword[i];
      assert |keyword| < |x|;
      var words := x[|keyword|..];
      assert s[|keyword|..] == words + o;
      StripLeftJoin(words, o);
      StripLeftSuffix(words);
      IdentNotSpace(o[0]);
      StripIndent(o);
      if StripLeft(words) != [] {
        var rest := StripLeft(words);
        assert rest[|rest| - 1] == x[|x| - 1];
        NamedNone(rest, o);
      }
    }
  }

  lemma SpaceNotIdent(c: char)
    requires IsSpace(c)
    ensures !IsIdentChar(c)
  {
    if IsIdentChar(c) {
      IdentNotSpace(c);
    }
  }

  lemma NamedNone(x: string, o: string)
    requires x != [] && Free(x, '{') && IsSpace(x[|x| - 1]) && o != [] && IsIdentStart(o[0])
    ensures NamedAt(x + o).None?
  {
    hide StripLeft, Span, IsSpace;
    SpaceNotIdent(x[|x| - 1]);
    assert x[|x| - 1] in x;
    SpanJoin(x, o);
    var n := Span(x, false);
    var tail := x[n..];
    assert (x + o)[..n] == x[..n] && (x + o)[n..] == tail + o;
    NoBraceNext(tail, o);
  }

  lemma NoBraceNext(tail: string, o: string)
    requires Free(tail, '{') && o != [] && IsIdentStart(o[0])
    ensures After(StripLeft(tail + o), "{").None?
  {
    hide StripLeft;
    StripLeftJoin(tail, o);
    StripLeftSuffix(tail);
    IdentNotSpace(o[0]);
    StripIndent(o);
    assert StripLeft(tail) != [] ==> StripLeft(tail)[0] in tail;
  }

  lemma WordsQuiet(x: string, o: string, inWord: bool, keyword: string, letters: Letters)
    requires IsIdent(keyword) && x != [] && Free(x, '{') && IsSpace(x[|x| - 1])
    requires o != [] && IsIdentStart(o[0]) && NamedAt(o).None?
    ensures Quiet(x, o, inWord, keyword, letters)
  {
    hide OpenAt, NamedAt, IsIdent, InWord, IsSpace;
    forall i | 0 <= i < |x| ensures OpenAt(x[i..] + o, keyword).None? {
      assert x[i..][|x[i..]| - 1] == x[|x| - 1];
      WordsNone(x[i..], o, keyword);
    }
  }

  /** The head of another kind of declaration. */
  lemma HeadQuiet(other: string, name: string, rest: string, inWord: bool, keyword: string, letters: Letters)
    requires IsIdent(keyword) && IsIdent(other) && IsIdent(name)
    requires forall i :: 0 <= i <= |other| ==> other[i..] != keyword
    ensures Quiet(other + " " + name + " {", rest, inWord, keyword, letters)
  {
    hide OpenAt, InWord;
    var x := other + " " + name + " {";
    forall i | 0 <= i < |x| ensures OpenAt(x[i..] + rest, keyword).None? {
      HeadNone(other, name, rest, keyword, i);
    }
  }

  lemma HeadNone(other: string, name: string, rest: string, keyword: string, i: nat)
    requires IsIdent(keyword) && IsIdent(other) && IsIdent(name)
    requires other[if i < |other| then i else |other|..] != keyword
    requires i < |other + " " + name + " {"|
    ensures OpenAt((other + " " + name + " {")[i..] + rest, keyword).None?
  {
    hide NamedAt, AfterWord;
    var x := other + " " + name + " {";
    var n := |other|;
    assert x[n] == ' ' && x[n + 1 + |name|] == ' ' && x[n + |name| + 2] == '{';
    if i < n {
      var u, t := other[i..], " " + name + " {" + rest;
      assert x[i..] + rest == u + t;
      FirstWord(u, t, keyword);
    } else if n < i <= n + |name| {
      var u := name[i - n - 1..];
      var t := " " + ("{" + rest);
      assert x[i..] + rest == u + t;
      FirstWord(u, t, keyword);
      StripIndent("{" + rest);
      BraceNotNamed(rest);
    } else {
      assert !IsIdentChar(x[i]);
      OtherStart(x[i..] + rest, keyword);
    }
  }

  lemma BraceNotNamed(rest: string)
    ensures NamedAt("{" + rest).None?
  {}
}
