/** Keys as the metadata comments spell them, and what is read where a key is missing. */
module TypeSpecKeys {
  import opened Text
  import opened SchemaModel
  import opened TypeSpecWitness
  import opened TypeSpecLines
  import opened TypeSpecParsed
  import opened TypeSpecRoundTrip

  // ----- keys as text

  ghost predicate AllIdents(names: seq<string>) {
    forall n :: n in names ==> IsIdent(n)
  }

  ghost predicate NoSpace(s: string) {
    forall c :: c in s ==> !IsSpace(c)
  }

  lemma NoSpaceStrips(s: string)
    requires NoSpace(s)
    ensures Strip(s) == s && Strip(" " + s) == s
  {
    if s == [] {
      assert " " + s == " ";
      assert StripLeft(" ") == StripLeft("") == "";
    } else {
      assert s[0] in s && s[|s| - 1] in s;
      StripIndent(s);
      TrimmedStrip(s);
    }
  }

  lemma IdentNoSpace(s: string)
    requires IsIdent(s)
    ensures NoSpace(s)
  {
    forall c | c in s ensures !IsSpace(c) {
      var i :| 0 <= i < |s| && s[i] == c;
      IdentNotSpace(c);
    }
  }

  /** No line feed and no brace. */
  ghost predicate OneLine(s: string) {
    Free(s, '\n') && Free(s, '{') && Free(s, '}')
  }

  lemma KeyText(names: seq<string>)
    requires AllIdents(names)
    ensures NoSpace(Join(names, ',')) && Free(Join(names, ','), ';') && OneLine(Join(names, ','))
    ensures Join(names, ',') == [] <==> names == []
  {
    JoinChars(names, ',');
    forall c | c in Join(names, ',') ensures !IsSpace(c) && c != ';' && c != '\n' && c != '{' && c != '}' {
      if c != ',' {
        var p :| p in names && c in p;
        IdentNoSpace(p);
        IdentTrimmed(p);
      }
    }
    if names != [] {
      assert names[0] in names;
    }
  }

  lemma {:induction false} PiecesBack(names: seq<string>)
    requires AllIdents(names)
    ensures Pieces(names) == names
  {
    if names == [] {
    } else {
      assert names[0] in names && forall n :: n in names[1..] ==> n in names;
      IdentTrimmed(names[0]);
      PiecesBack(names[1..]);
      assert names == [names[0]] + names[1..];
    }
  }

  lemma KeyBack(names: seq<string>)
    requires AllIdents(names)
    ensures ParseKey(Join(names, ',')) == names
  {
    if names == [] {
      assert Split([], ',') == [[]];
      assert Pieces([[]]) == [];
    } else {
      forall p | p in names ensures Free(p, ',') {
        IdentTrimmed(p);
      }
      SplitJoin(names, ',');
      PiecesBack(names);
    }
  }

  function Texts(groups: seq<seq<string>>): seq<string> {
    seq(|groups|, i requires 0 <= i < |groups| => Join(groups[i], ','))
  }

  ghost predicate AllGroupsIdents(groups: seq<seq<string>>) {
    forall g :: g in groups ==> AllIdents(g)
  }

  function NonEmpty(groups: seq<seq<string>>): seq<seq<string>> {
    if groups == [] then []
    else (if groups[0] == [] then [] else [groups[0]]) + NonEmpty(groups[1..])
  }

  lemma {:induction false} GroupsBack(groups: seq<seq<string>>)
    requires AllGroupsIdents(groups)
    ensures ParseGroups(Texts(groups)) == NonEmpty(groups)
  {
    hide ParseKey, Join;
    if groups == [] {
    } else {
      var texts := Texts(groups);
      assert groups[0] in groups && forall g :: g in groups[1..] ==> g in groups;
      assert texts[1..] == Texts(groups[1..]);
      GroupsBack(groups[1..]);
      KeyText(groups[0]);
      NoSpaceStrips(texts[0]);
      KeyBack(groups[0]);
    }
  }

  lemma GroupsText(groups: seq<seq<string>>)
    requires AllGroupsIdents(groups)
    ensures NoSpace(JoinGroups(groups)) && OneLine(JoinGroups(groups))
    ensures forall t :: t in Texts(groups) ==> Free(t, ';')
  {
    hide Join;
    forall t | t in Texts(groups) ensures NoSpace(t) && Free(t, ';') && OneLine(t) {
      var i :| 0 <= i < |groups| && t == Join(groups[i], ',');
      assert groups[i] in groups;
      KeyText(groups[i]);
    }
    assert JoinGroups(groups) == Join(Texts(groups), ';');
    JoinChars(Texts(groups), ';');
  }

  /** Reading the printed groups drops the empty ones and keeps the rest. */
  lemma UniqueBack(groups: seq<seq<string>>)
    requires AllGroupsIdents(groups)
    ensures ParseGroups(Split(JoinGroups(groups), ';')) == NonEmpty(groups)
  {
    GroupsText(groups);
    if groups == [] {
      assert Texts(groups) == [];
      assert JoinGroups(groups) == [];
      assert Split([], ';') == [[]];
      assert ParseGroups([[]]) == ParseGroups([]) == [];
    } else {
      SplitJoin(Texts(groups), ';');
      assert JoinGroups(groups) == Join(Texts(groups), ';');
      GroupsBack(groups);
    }
  }

  lemma {:induction false} NonEmptyWhole(groups: seq<seq<string>>)
    ensures |NonEmpty(groups)| <= |groups|
    ensures |NonEmpty(groups)| == |groups| <==> forall g :: g in groups ==> g != []
    ensures (forall g :: g in groups ==> g != []) ==> NonEmpty(groups) == groups
    ensures forall g :: g in NonEmpty(groups) ==> g in groups
  {
    if groups == [] {
    } else {
      NonEmptyWhole(groups[1..]);
      assert groups == [groups[0]] + groups[1..];
      assert groups[0] in groups && forall g :: g in groups[1..] ==> g in groups;
    }
  }

  // ----- keys that are missing

  lemma KeysAreIdents(m: Model)
    requires Declared(m)
    ensures AllIdents(m.primaryKey) && AllGroupsIdents(m.unique)
  {
    forall n | n in FieldNames(m.fields) ensures IsIdent(n) {
      var f :| f in m.fields && f.name == n;
    }
  }

  /** Text that starts with a slash or holds a blank is no field name. */
  lemma SlashKeyUnknown(m: Model, text: string)
    requires Declared(m) && text != [] && text[0] == '/'
    ensures exists k :: k in ParseKey(text) && k !in FieldNames(m.fields)
  {
    hide IsIdent;
    var first := Split(text, ',')[0];
    assert first[0] == '/';
    KeepsFirst(first);
    var k := Strip(first);
    assert Pieces(Split(text, ','))[0] == k;
    assert k in ParseKey(text);
    NotAField(m, k);
  }

  lemma KeepsFirst(s: string)
    requires s != [] && !IsSpace(s[0])
    ensures Strip(s) != [] && Strip(s)[0] == s[0]
  {
    assert StripLeft(s) == s;
    StripRightSome(s);
  }

  lemma NotAField(m: Model, k: string)
    requires Declared(m) && (k == [] || k[0] == '/' || ' ' in k)
    ensures k !in FieldNames(m.fields)
  {
    forall f | f in m.fields ensures f.name != k {
      IdentTrimmed(f.name);
      assert f.name[0] in f.name;
    }
  }

  /** A declaration read as unique groups names no field. */
  lemma DeclarationKeyUnknown(m: Model, keyword: string, name: string)
    requires Declared(m) && IsIdent(keyword) && IsIdent(name)
    ensures var line := keyword + " " + name + " {";
      && Strip(line) == line && line != []
      && exists g, k :: g in ParseGroups(Split(line, ';')) && k in g && k !in FieldNames(m.fields)
  {
    var line := keyword + " " + name + " {";
    IdentTrimmed(keyword);
    IdentTrimmed(name);
    IdentNotSpace(keyword[0]);
    assert line[0] == keyword[0] && line[|line| - 1] == '{';
    TrimmedStrip(line);
    hide IsIdent, Strip;
    assert line[|keyword|] == ' ';
    SplitFree(line, ';');
    SplitFree(line, ',');
    assert Pieces([line]) == [line] + Pieces([]) == [line];
    assert ParseGroups([line]) == [ParseKey(line)] + ParseGroups([]) == [[line]];
    assert [line] in ParseGroups(Split(line, ';')) && line in [line];
    NotAField(m, line);
  }
}
