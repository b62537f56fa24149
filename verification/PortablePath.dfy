/**
 Relative paths: a path is portable exactly when it is its own normal form and does not start by
 going up. So the last of the checks, that normalizing changes nothing, never fails.
 */
module PortablePath {
  import opened Text
  import opened ManifestTargets

  // ----- normal form

  /** Components after normalizing: empty ones and `.` dropped, `..` taking back the one before it. */
  ghost function Normal(parts: seq<string>): (r: seq<string>)
    ensures |r| <= |parts| && forall i :: 0 <= i < |r| ==> r[i] in parts
  {
    if parts == [] then []
    else
      var done, part := Normal(parts[..|parts| - 1]), parts[|parts| - 1];
      if part == [] || part == "." then done
      else if part != ".." || done == [] || done[|done| - 1] == ".." then done + [part]
      else done[..|done| - 1]
  }

  /** Python's `posixpath.normpath` of a relative path. */
  ghost function NormPath(s: string): string {
    var parts := Normal(Split(s, '/'));
    if parts == [] then "." else Join(parts, '/')
  }

  ghost predicate Proper(part: string) {
    part != [] && part != "." && part != ".."
  }

  lemma {:induction false} ProperIsNormal(parts: seq<string>)
    requires forall p :: p in parts ==> Proper(p)
    ensures Normal(parts) == parts
  {
    if parts != [] {
      var n := |parts| - 1;
      ProperIsNormal(parts[..n]);
      assert Proper(parts[n]) && parts == parts[..n] + [parts[n]];
    }
  }

  /** What keeps its length is unchanged, and goes up only at its start. */
  lemma {:induction false} NormalIsProper(parts: seq<string>)
    requires |Normal(parts)| == |parts|
    ensures Normal(parts) == parts
    ensures forall i :: 0 <= i < |parts| ==> Proper(parts[i]) || (parts[i] == ".." && parts[0] == "..")
  {
    if parts != [] {
      var n := |parts| - 1;
      var init, part := parts[..n], parts[n];
      assert parts == init + [part];
      NormalIsProper(init);
      forall i | 0 <= i < |parts| ensures Proper(parts[i]) || (parts[i] == ".." && parts[0] == "..") {
        if i < n {
          assert parts[i] == init[i];
        }
      }
    }
  }

  lemma NormPathIff(s: string)
    requires s != "."
    ensures NormPath(s) == s <==> Normal(Split(s, '/')) == Split(s, '/')
  {
    hide Split, Join, Normal;
    var parts := Split(s, '/');
    JoinSplit(s, '/');
    if NormPath(s) == s {
      SplitParts(s, '/');
      SplitJoin(Normal(parts), '/');
    }
  }

  /** Portable: trimmed, short, of plain characters, relative, its own normal form and not starting with `..`. */
  lemma PortableIff(s: string, allowDot: bool)
    ensures IsPortable(s, allowDot) <==>
      && s != [] && Trimmed(s) && s[0] != '/' && Utf8Size(s) <= 512
      && (forall c :: c in s ==> c != '\\' && c != '\0')
      && NormPath(s) == s && Split(s, '/')[0] != ".." && (s == "." ==> allowDot)
  {
    hide Utf8Size, Trimmed, NormPath, Split, Normal;
    if s == "." {
      DotNormal();
    } else {
      NormPathIff(s);
      var parts := Split(s, '/');
      PartsIff(parts);
    }
  }

  lemma PartsIff(parts: seq<string>)
    requires parts != []
    ensures (forall p :: p in parts ==> p != [] && p != "." && p != "..")
      <==> Normal(parts) == parts && parts[0] != ".."
  {
    hide Normal;
    if forall p :: p in parts ==> Proper(p) {
      ProperIsNormal(parts);
      assert parts[0] in parts;
    }
    if Normal(parts) == parts && parts[0] != ".." {
      NormalIsProper(parts);
      forall p | p in parts ensures Proper(p) {
        var i :| 0 <= i < |parts| && parts[i] == p;
      }
    }
  }

  lemma DotNormal()
    ensures Split(".", '/') == ["."] && NormPath(".") == "."
  {
    SplitFree(".", '/');
    assert ["."][..0] == [] && ["."][0] == ".";
    assert Normal([]) == [] && Normal(["."]) == [];
  }
}
