/** Blocks in a text: how they are found, and what declarations in free text do to the search. */
module TypeSpecBlocks {
  import opened Prelude
  import opened Text
  import opened TypeSpecWitness
  import opened TypeSpecLines
  import opened TypeSpecScan

  // ----- blocks

  /** A whole block is found, with what its braces hold. */
  lemma BlockFound(keyword: string, name: string, body: string, rest: string, letters: Letters)
    requires IsIdent(keyword) && IsIdent(name) && Free(body, '}')
    ensures Blocks(keyword + " " + name + " {" + body + "}" + rest, false, keyword, letters)
         == [(name, body)] + Blocks(rest, false, keyword, letters)
  {
    hide OpenAt, IsIdent, IsWord;
    var after := body + "}" + rest;
    var s := keyword + " " + name + " {" + after;
    assert keyword + " " + name + " {" + body + "}" + rest == s;
    OwnOpen(keyword, name, after);
    assert after == body + ['}'] + rest;
    BeforeBack(body, '}', rest);
    assert after[|body|] == '}' && after[|body| + 1..] == rest;
    assert s != [];
  }

  lemma {:induction false} FoundLater(a: string, x: string, inWord: bool, keyword: string, letters: Letters)
    requires x != [] && BlockAt(x, keyword).Some? && !InWord(a, |a|, inWord, letters)
    ensures Blocks(a + x, inWord, keyword, letters) != []
    decreases |a|
  {
    hide BlockAt, IsWord;
    if a == [] {
      assert a + x == x;
    } else {
      assert (a + x)[0] == a[0] && (a + x)[1..] == a[1..] + x;
      FoundLater(a[1..], x, IsWord(a[0], letters), keyword, letters);
    }
  }

  lemma BeforeJoin(x: string, y: string, c: char)
    ensures Before(x + y, c) == if c in x then Before(x, c) else x + Before(y, c)
    decreases |x|
  {
    if x == [] {
      assert x + y == y;
    } else {
      assert (x + y)[0] == x[0] && (x + y)[1..] == x[1..] + y;
      assert x == [x[0]] + x[1..];
      BeforeJoin(x[1..], y, c);
    }
  }

  // ----- lines

  function Glue(lines: seq<string>): string {
    if lines == [] then [] else lines[0] + "\n" + Glue(lines[1..])
  }

  lemma {:induction false} GlueJoin(a: seq<string>, b: seq<string>)
    ensures Glue(a + b) == Glue(a) + Glue(b)
  {
    if a == [] {
      assert a + b == b;
    } else {
      assert (a + b)[0] == a[0] && (a + b)[1..] == a[1..] + b;
      GlueJoin(a[1..], b);
    }
  }

  lemma {:induction false} JoinGlue(lines: seq<string>)
    ensures Join(lines + [""], '\n') == Glue(lines)
  {
    if lines == [] {
      assert lines + [""] == [""];
    } else {
      var all := lines + [""];
      assert all[0] == lines[0] && all[1..] == lines[1..] + [""];
      JoinGlue(lines[1..]);
    }
  }

  ghost predicate Unbroken(s: string) {
    forall c :: c in s ==> !IsBreak(c)
  }

  lemma UnifiedJoin(x: string, y: string)
    ensures Unified(x + y) == Unified(x) + Unified(y)
  {}

  lemma UnifiedSame(x: string)
    requires Unbroken(x)
    ensures Unified(x) == x && Free(x, '\n')
  {
    assert IsBreak('\n');
    forall i | 0 <= i < |x| ensures !IsBreak(x[i]) {
      assert x[i] in x;
    }
  }

  lemma UnifiedBreak()
    ensures Unified("\n") == "\n"
  {}

  lemma {:induction false} UnifiedGlue(lines: seq<string>)
    requires forall l :: l in lines ==> Unbroken(l)
    ensures Unified(Glue(lines)) == Glue(lines)
  {
    hide Unified, Unbroken;
    if lines == [] {
      assert Unified([]) == [] by { UnifiedEmpty(); }
    } else {
      assert lines[0] in lines && forall l :: l in lines[1..] ==> l in lines;
      UnifiedGlue(lines[1..]);
      UnifiedJoin(lines[0] + "\n", Glue(lines[1..]));
      UnifiedJoin(lines[0], "\n");
      UnifiedSame(lines[0]);
      UnifiedBreak();
    }
  }

  lemma UnifiedEmpty()
    ensures Unified([]) == []
  {}

  /** The lines of glued lines are those lines, and a blank after them. */
  lemma GlueLines(lines: seq<string>)
    requires forall l :: l in lines ==> Unbroken(l)
    ensures LinesOf(Glue(lines)) == lines + [""]
  {
    hide Unified, Unbroken, Join, Split;
    UnifiedGlue(lines);
    JoinGlue(lines);
    forall l | l in lines + [""] ensures Free(l, '\n') {
      if l in lines {
        UnifiedSame(l);
      }
    }
    SplitJoin(lines + [""], '\n');
  }

  /** A line between two line feeds is one of the lines. */
  lemma LineIn(a: string, line: string, z: string)
    requires Unbroken(line)
    ensures line in LinesOf(a + "\n" + line + "\n" + z)
  {
    hide Unbroken, Split, Unified;
    var tail := line + "\n" + z;
    assert a + "\n" + line + "\n" + z == a + "\n" + tail;
    UnifiedJoin(a + "\n", tail);
    UnifiedJoin(a, "\n");
    UnifiedJoin(line + "\n", z);
    UnifiedJoin(line, "\n");
    UnifiedBreak();
    UnifiedSame(line);
    SplitJoined(Unified(a), Unified(tail), '\n');
    SplitAfter(line, '\n', Unified(z));
  }

  // ----- declarations where none was meant

  /** A declaration before the head of a block is a block of its own, or runs over that head. */
  lemma {:induction false} Spoiled(
    a: string, name: string, y: string, inWord: bool, keyword: string, letters: Letters)
    requires IsIdent(keyword) && IsIdent(name) && a != [] && a[|a| - 1] == '\n' && '}' in y
    requires var head := keyword + " " + name + " {"; !Quiet(a, head + "\n" + y, inWord, keyword, letters)
    ensures var head := keyword + " " + name + " {";
      var bs := Blocks(a + (head + "\n" + y), inWord, keyword, letters);
      bs != [] && (|bs| >= 2 || head in LinesOf(bs[0].1))
    decreases |a|
  {
    hide OpenAt, IsIdent, LinesOf, IsWord, Quiet, Blocks;
    var x := keyword + " " + name + " {" + "\n" + y;
    if !inWord && OpenAt(a + x, keyword).Some? {
      SpoiledStart(a, name, y, keyword, letters);
    } else {
      QuietRest(a, x, inWord, keyword, letters);
      Spoiled(a[1..], name, y, IsWord(a[0], letters), keyword, letters);
      SearchMoves(a, x, inWord, keyword, letters);
    }
  }

  lemma SearchMoves(a: string, x: string, inWord: bool, keyword: string, letters: Letters)
    requires a != [] && (inWord || OpenAt(a + x, keyword).None?)
    ensures Blocks(a + x, inWord, keyword, letters) == Blocks(a[1..] + x, IsWord(a[0], letters), keyword, letters)
  {
    hide OpenAt, IsWord;
    assert (a + x)[0] == a[0] && (a + x)[1..] == a[1..] + x;
  }

  lemma SpoiledStart(a: string, name: string, y: string, keyword: string, letters: Letters)
    requires IsIdent(keyword) && IsIdent(name) && a != [] && a[|a| - 1] == '\n' && '}' in y
    requires OpenAt(a + (keyword + " " + name + " {" + "\n" + y), keyword).Some?
    ensures var head := keyword + " " + name + " {";
      var bs := Blocks(a + (head + "\n" + y), false, keyword, letters);
      bs != [] && (|bs| >= 2 || head in LinesOf(bs[0].1))
  {
    hide OpenAt, IsIdent, LinesOf, Blocks, Before;
    var s := a + (keyword + " " + name + " {" + "\n" + y);
    OpenBefore(a, keyword, name, y);
    SpoiledHere(OpenAt(a, keyword).value.1, keyword, name, y, letters);
    FirstBlock(s, keyword, letters);
  }

  lemma FirstBlock(s: string, keyword: string, letters: Letters)
    requires OpenAt(s, keyword).Some? && '}' in OpenAt(s, keyword).value.1
    ensures var (name, after) := OpenAt(s, keyword).value;
      var body := Before(after, '}');
      Blocks(s, false, keyword, letters) == [(name, body)] + Blocks(after[|body| + 1..], false, keyword, letters)
  {
    hide OpenAt;
    assert s != [];
  }

  lemma HeadFound(keyword: string, name: string, y: string)
    requires IsIdent(keyword) && IsIdent(name) && '}' in y
    ensures var head := keyword + " " + name + " {"; head != [] && BlockAt(head + y, keyword).Some?
  {
    hide OpenAt, IsIdent;
    OwnOpen(keyword, name, y);
  }

  lemma QuietRest(a: string, x: string, inWord: bool, keyword: string, letters: Letters)
    requires a != [] && !Quiet(a, x, inWord, keyword, letters)
    requires inWord || OpenAt(a + x, keyword).None?
    ensures a[1..] != [] && !Quiet(a[1..], x, IsWord(a[0], letters), keyword, letters)
  {
    hide OpenAt, IsWord;
    var i :| 0 <= i < |a| && !InWord(a, i, inWord, letters) && OpenAt(a[i..] + x, keyword).Some?;
    assert a[0..] == a;
    assert i > 0;
    assert !InWord(a[1..], i - 1, IsWord(a[0], letters), letters);
    assert a[1..][i - 1..] == a[i..];
  }

  /** A declaration that starts before the head of a block has its brace there too. */
  lemma OpenBefore(a: string, keyword: string, name: string, y: string)
    requires IsIdent(keyword) && IsIdent(name) && a != [] && a[|a| - 1] == '\n'
    requires OpenAt(a + (keyword + " " + name + " {" + "\n" + y), keyword).Some?
    ensures var x := keyword + " " + name + " {" + "\n" + y;
      && OpenAt(a, keyword).Some?
      && var (n, after) := OpenAt(a, keyword).value;
         OpenAt(a + x, keyword) == Some((n, after + x)) && after != [] && after[|after| - 1] == '\n'
  {
    hide OpenAt;
    var x := keyword + " " + name + " {" + "\n" + y;
    assert x == keyword + " " + name + (" {" + "\n" + y);
    TwoWordsNotNamed(keyword, name, " {" + "\n" + y);
    assert x[0] == keyword[0];
    if '{' !in a {
      WordsNone(a, x, keyword);
      assert false;
    }
    OpenLocal(a, x, keyword);
    OpenShape(a, keyword);
  }

  lemma SpoiledHere(after: string, keyword: string, name: string, y: string, letters: Letters)
    requires IsIdent(keyword) && IsIdent(name) && after != [] && after[|after| - 1] == '\n' && '}' in y
    ensures var head := keyword + " " + name + " {";
      var all := after + (head + "\n" + y);
      var body := Before(all, '}');
      && '}' in all
      && (Blocks(all[|body| + 1..], false, keyword, letters) != [] || head in LinesOf(body))
  {
    hide IsIdent, LinesOf, BlockAt, IsBreak, Blocks, Before, Unbroken, Free;
    var head := keyword + " " + name + " {";
    var x := head + "\n" + y;
    HeadPlain(keyword, name);
    if '}' in after {
      HeadFound(keyword, name, "\n" + y);
      assert x == head + ("\n" + y);
      ClosesBefore(after, x, keyword, letters);
    } else {
      var a := after[..|after| - 1];
      assert after == a + "\n";
      RunsOver(a, head, y);
    }
  }

  lemma ClosesBefore(after: string, x: string, keyword: string, letters: Letters)
    requires '}' in after && after[|after| - 1] == '\n' && x != [] && BlockAt(x, keyword).Some?
    ensures Blocks((after + x)[|Before(after + x, '}')| + 1..], false, keyword, letters) != []
  {
    hide BlockAt, Blocks;
    BeforeJoin(after, x, '}');
    var n := |Before(after, '}')| + 1;
    hide Before;
    var tail := after[n..];
    assert (after + x)[n..] == tail + x;
    assert tail != [] ==> tail[|tail| - 1] == '\n';
    FoundLater(tail, x, false, keyword, letters);
  }

  lemma RunsOver(a: string, head: string, y: string)
    requires '}' !in a + "\n" && Free(head, '}') && Unbroken(head)
    ensures head in LinesOf(Before((a + "\n") + (head + "\n" + y), '}'))
  {
    hide *;
    NoneIn(head);
    BeforeOver(a + "\n", head + "\n", y);
    Regroup(a, "\n", head, "\n", Before(y, '}'));
    LineIn(a, head, Before(y, '}'));
  }

  lemma NoneIn(head: string)
    requires Free(head, '}')
    ensures '}' !in head + "\n"
  {}

  lemma BeforeOver(x: string, y: string, z: string)
    requires '}' !in x && '}' !in y
    ensures Before(x + (y + z), '}') == x + (y + Before(z, '}'))
  {
    hide *;
    BeforeJoin(x, y + z, '}');
    BeforeJoin(y, z, '}');
  }

  lemma Regroup(a: string, b: string, c: string, d: string, e: string)
    ensures (a + b) + ((c + d) + e) == a + b + c + d + e
  {}

  lemma HeadPlain(keyword: string, name: string)
    requires IsIdent(keyword) && IsIdent(name)
    ensures var head := keyword + " " + name + " {"; Unbroken(head) && Free(head, '}')
  {
    var head := keyword + " " + name + " {";
    forall c | c in head ensures !IsBreak(c) && c != '}' {
      assert c in keyword || c in name || c == ' ' || c == '{';
    }
  }

  // ----- free text that holds declarations

  /** The blocks of a text all of whose declarations are closed in it; nothing if one is left open. */
  function ClosedBlocks(t: string, inWord: bool, keyword: string, letters: Letters): Option<seq<(string, string)>>
    decreases |t|
  {
    if t == [] then Some([])
    else if !inWord && OpenAt(t, keyword).Some? then
      match BlockAt(t, keyword)
      case None => None
      case Some((name, body, rest)) =>
        (match ClosedBlocks(rest, false, keyword, letters)
         case Some(blocks) => Some([(name, body)] + blocks)
         case None => None)
    else ClosedBlocks(t[1..], IsWord(t[0], letters), keyword, letters)
  }

  /** Text that no declaration runs into, and that does not start one. */
  ghost predicate Separate(z: string) {
    |z| >= 2 && z[0] == '\n' && IsStopper(z[1])
  }

  lemma SeparateLocal(t: string, z: string, keyword: string)
    requires IsIdent(keyword) && Separate(z)
    ensures OpenAt(t + z, keyword)
         == match OpenAt(t, keyword)
            case Some((name, after)) => Some((name, after + z))
            case None => None
  {
    hide OpenAt, IsIdent;
    if '{' in t {
      OpenLocal(t, z, keyword);
    } else {
      assert t + z == (t + "\n") + [z[1]] + z[2..];
      StopperNone(t + "\n", z[1], z[2..], keyword);
      NoBraceNone(t, keyword);
    }
  }

  lemma SeparateStart(z: string, inWord: bool, keyword: string, letters: Letters)
    requires IsIdent(keyword) && Separate(z)
    ensures Blocks(z, inWord, keyword, letters) == Blocks(z, false, keyword, letters)
  {
    OtherStart(z, keyword);
  }

  lemma BlockLocal(t: string, z: string, keyword: string)
    requires IsIdent(keyword) && Separate(z) && BlockAt(t, keyword).Some?
    ensures var (name, body, rest) := BlockAt(t, keyword).value;
      BlockAt(t + z, keyword) == Some((name, body, rest + z))
  {
    hide OpenAt, IsIdent, Separate, Before;
    SeparateLocal(t, z, keyword);
    var after := OpenAt(t, keyword).value.1;
    BeforeJoin(after, z, '}');
    var n := |Before(after, '}')| + 1;
    assert (after + z)[n..] == after[n..] + z;
  }

  /** A search over closed declarations finds them and goes on behind the text. */
  lemma {:induction false} ClosedSkip(t: string, z: string, inWord: bool, keyword: string, letters: Letters)
    requires IsIdent(keyword) && Separate(z) && ClosedBlocks(t, inWord, keyword, letters).Some?
    ensures Blocks(t + z, inWord, keyword, letters)
         == ClosedBlocks(t, inWord, keyword, letters).value + Blocks(z, false, keyword, letters)
    decreases |t|
  {
    hide OpenAt, IsIdent, Separate, IsWord, BlockAt;
    if t == [] {
      assert t + z == z;
      SeparateStart(z, inWord, keyword, letters);
    } else if !inWord && OpenAt(t, keyword).Some? {
      BlockLocal(t, z, keyword);
      var (name, body, rest) := BlockAt(t, keyword).value;
      ClosedSkip(rest, z, false, keyword, letters);
      assert t + z != [];
    } else {
      assert (t + z)[0] == t[0] && (t + z)[1..] == t[1..] + z;
      SeparateLocal(t, z, keyword);
      NoOpenNoBlock(t + z, keyword);
      ClosedSkip(t[1..], z, IsWord(t[0], letters), keyword, letters);
    }
  }

  lemma NoOpenNoBlock(s: string, keyword: string)
    ensures OpenAt(s, keyword).None? ==> BlockAt(s, keyword).None?
  {}

  /** Text in which a head of a block stands on a line of its own before any closing brace. */
  ghost predicate Leads(z: string, p: string, head: string, q: string) {
    && z == p + "\n" + (head + "\n" + q) && Separate(z)
    && '}' !in p && Free(head, '}') && Unbroken(head) && '}' in q
  }

  /** A declaration left open runs over the next head. */
  lemma {:induction false} OpenRunsOver(
    t: string, z: string, p: string, head: string, q: string, inWord: bool, keyword: string, letters: Letters)
    requires IsIdent(keyword) && Leads(z, p, head, q) && ClosedBlocks(t, inWord, keyword, letters).None?
    ensures exists b :: b in Blocks(t + z, inWord, keyword, letters) && head in LinesOf(b.1)
    decreases |t|
  {
    hide OpenAt, IsIdent, Separate, Leads, IsWord, BlockAt, LinesOf;
    LeadsSeparate(z, p, head, q);
    if !inWord && OpenAt(t, keyword).Some? {
      if BlockAt(t, keyword).Some? {
        BlockLocal(t, z, keyword);
        var (name, body, rest) := BlockAt(t, keyword).value;
        OpenRunsOver(rest, z, p, head, q, false, keyword, letters);
        assert t + z != [];
        var b :| b in Blocks(rest + z, false, keyword, letters) && head in LinesOf(b.1);
        assert b in Blocks(t + z, inWord, keyword, letters);
      } else {
        OpenTakes(t, z, p, head, q, keyword);
        assert t + z != [];
        var (name, body, rest) := BlockAt(t + z, keyword).value;
        assert (name, body) in Blocks(t + z, inWord, keyword, letters);
      }
    } else {
      assert (t + z)[0] == t[0] && (t + z)[1..] == t[1..] + z;
      SeparateLocal(t, z, keyword);
      NoOpenNoBlock(t + z, keyword);
      OpenRunsOver(t[1..], z, p, head, q, IsWord(t[0], letters), keyword, letters);
    }
  }

  lemma LeadsSeparate(z: string, p: string, head: string, q: string)
    requires Leads(z, p, head, q)
    ensures Separate(z)
  {}

  lemma OpenTakes(t: string, z: string, p: string, head: string, q: string, keyword: string)
    requires IsIdent(keyword) && Leads(z, p, head, q)
    requires OpenAt(t, keyword).Some? && BlockAt(t, keyword).None?
    ensures BlockAt(t + z, keyword).Some? && head in LinesOf(BlockAt(t + z, keyword).value.1)
  {
    hide OpenAt, IsIdent, Separate, Unbroken, Free, LinesOf;
    SeparateLocal(t, z, keyword);
    var after := OpenAt(t, keyword).value.1;
    assert after + z == (after + p + "\n") + (head + "\n" + q);
    assert '}' !in after + p + "\n";
    RunsOver(after + p, head, q);
    assert '}' in z;
  }
}
