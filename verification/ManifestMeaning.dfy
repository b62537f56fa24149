/** Which manifests are accepted, and what every name and path of an accepted one resolves to. */
module ManifestMeaning {
  import opened Prelude
  import opened Text
  import opened ManifestTargets

  // ----- what is accepted, and what resolves to what

  /** What the declarations of one target have to be. */
  ghost predicate TargetFits(t: Target) {
    && IsTargetName(t.name)
    && 0 < |t.roots| <= 64 && (forall r :: r in t.roots ==> IsPortable(r, true))
    && (forall i, j :: 0 <= i < j < |t.roots| ==> !Overlap(t.roots[i], t.roots[j]))
    && (t.stackConfig.Some? ==>
          IsPortable(t.stackConfig.value, false) && exists stem :: t.stackConfig.value == stem + ".json")
    && (t.propagateHeaders.Some? ==>
          var hs := t.propagateHeaders.value;
          0 < |hs| <= 32 && Distinct(hs) && forall h :: h in hs ==> IsHeaderName(h))
    && (t.stackConfig.Some? <==> t.middleware == Stack)
    && (t.propagateHeaders.Some? <==> t.middleware == PropagationOnly)
    && (t.middleware == Stack ==> t.role == Server)
  }

  /** What a manifest has to be, check by check. */
  ghost predicate Acceptable(m: Manifest) {
    && 0 < |m.targets| <= 64 && (forall t :: t in m.targets ==> TargetFits(t)) && NamesDistinct(m.targets)
    && (exists t :: t in m.targets && t.enabled)
    && (HasRole(m, Server) <==> m.repositoryMode != ClientOnly)
    && (HasRole(m, Client) <==> m.repositoryMode != ServerOnly)
    && (m.defaultTarget.Some? ==> exists t :: t in m.targets && t.enabled && t.name == m.defaultTarget.value)
    && (!m.allowOverlappingRoots ==> !SomeOverlap(m.targets))
  }

  ghost predicate HasRole(m: Manifest, role: Role) {
    exists t :: t in m.targets && t.enabled && t.role == role
  }

  /** Two enabled targets overlap. */
  ghost predicate SomeOverlap(targets: seq<Target>) {
    exists a, b :: a in targets && b in targets && a.enabled && b.enabled && a.name != b.name && TargetsOverlap(a, b)
  }

  lemma OverlapSelf(r: string)
    ensures Overlap(r, r)
  {}

  lemma JsonSuffix(s: string)
    ensures (exists stem :: s == stem + ".json") <==> |s| >= 5 && s[|s| - 5..] == ".json"
  {
    if |s| >= 5 && s[|s| - 5..] == ".json" {
      assert s == s[..|s| - 5] + ".json";
    }
    if exists stem :: s == stem + ".json" {
      var stem :| s == stem + ".json";
      assert s[|stem|..] == ".json";
    }
  }

  /** A target has no fault exactly when its declarations fit and its name is new. */
  lemma FaultlessIff(t: Target, names: set<string>)
    ensures TargetFault(t, names).None? <==> TargetFits(t) && t.name !in names
  {
    hide IsPortable, IsTargetName, Overlap, IsHeaderName;
    forall i, j | 0 <= i < j < |t.roots| && t.roots[i] == t.roots[j] ensures Overlap(t.roots[i], t.roots[j]) {
      OverlapSelf(t.roots[i]);
    }
    if t.stackConfig.Some? {
      JsonSuffix(t.stackConfig.value);
    }
  }

  lemma FaultlessAll(targets: seq<Target>)
    ensures FaultlessUpTo(targets, |targets|) <==>
      (forall t :: t in targets ==> TargetFits(t)) && NamesDistinct(targets)
  {
    hide TargetFault, TargetFits;
    forall j | 0 <= j < |targets|
      ensures TargetFault(targets[j], NamesOf(targets[..j])).None? <==>
        TargetFits(targets[j]) && forall i :: 0 <= i < j ==> targets[i].name != targets[j].name
    {
      FaultlessIff(targets[j], NamesOf(targets[..j]));
      NamesBefore(targets, j);
    }
    if FaultlessUpTo(targets, |targets|) {
      forall t | t in targets ensures TargetFits(t) {
        var j :| 0 <= j < |targets| && targets[j] == t;
        assert TargetFault(targets[j], NamesOf(targets[..j])).None?;
      }
      forall i, j | 0 <= i < j < |targets| ensures targets[i].name != targets[j].name {
        assert TargetFault(targets[j], NamesOf(targets[..j])).None?;
      }
    }
  }

  lemma NamesBefore(targets: seq<Target>, j: nat)
    requires j < |targets|
    ensures targets[j].name !in NamesOf(targets[..j]) <==> forall i :: 0 <= i < j ==> targets[i].name != targets[j].name
  {
    var before := targets[..j];
    if targets[j].name in NamesOf(before) {
      var t :| t in before && t.name == targets[j].name;
      var i :| 0 <= i < |before| && before[i] == t;
      assert targets[i].name == targets[j].name;
    }
    forall i | 0 <= i < j ensures targets[i].name in NamesOf(before) {
      assert before[i] in before;
    }
  }

  lemma {:induction false} EnabledDistinct(targets: seq<Target>)
    requires NamesDistinct(targets)
    ensures NamesDistinct(Enabled(targets))
  {
    if targets == [] {
    } else {
      var rest := targets[1..];
      assert forall i :: 0 <= i < |rest| ==> rest[i] == targets[i + 1];
      EnabledDistinct(rest);
      EnabledMember(rest);
      forall t | t in Enabled(rest) ensures t.name != targets[0].name {
        var i :| 0 <= i < |rest| && rest[i] == t;
      }
    }
  }

  lemma OverlapSymmetric(a: Target, b: Target)
    ensures TargetsOverlap(a, b) <==> TargetsOverlap(b, a)
  {
    if TargetsOverlap(a, b) {
      var r, q :| r in a.roots && q in b.roots && Overlap(r, q);
      assert Overlap(q, r);
    }
    if TargetsOverlap(b, a) {
      var r, q :| r in b.roots && q in a.roots && Overlap(r, q);
      assert Overlap(q, r);
    }
  }

  lemma OverlapAmong(targets: seq<Target>)
    requires NamesDistinct(targets)
    ensures AnyOverlap(Enabled(targets)) <==> SomeOverlap(targets)
  {
    hide TargetsOverlap, Enabled;
    var enabled := Enabled(targets);
    EnabledMember(targets);
    EnabledDistinct(targets);
    if AnyOverlap(enabled) {
      var i, j :| 0 <= i < j < |enabled| && TargetsOverlap(enabled[i], enabled[j]);
      assert enabled[i] in enabled && enabled[j] in enabled;
    }
    if SomeOverlap(targets) {
      var a, b :| a in targets && b in targets && a.enabled && b.enabled && a.name != b.name && TargetsOverlap(a, b);
      OverlapFound(enabled, a, b);
    }
  }

  lemma OverlapFound(enabled: seq<Target>, a: Target, b: Target)
    requires a in enabled && b in enabled && a != b && TargetsOverlap(a, b)
    ensures AnyOverlap(enabled)
  {
    hide TargetsOverlap;
    OverlapSymmetric(a, b);
    var i :| 0 <= i < |enabled| && enabled[i] == a;
    var j :| 0 <= j < |enabled| && enabled[j] == b;
    if i < j {
      assert TargetsOverlap(enabled[i], enabled[j]);
    } else {
      assert TargetsOverlap(enabled[j], enabled[i]);
    }
  }

  lemma DefaultAmong(targets: seq<Target>, default: Option<string>)
    requires NamesDistinct(targets)
    ensures DefaultOk(targets, default) <==>
      default.None? || exists t :: t in targets && t.enabled && t.name == default.value
  {
    if default.Some? && exists t :: t in targets && t.enabled && t.name == default.value {
      var t :| t in targets && t.enabled && t.name == default.value;
      var i :| 0 <= i < |targets| && targets[i] == t;
    }
  }

  lemma RolesAmong(m: Manifest)
    ensures RolesOk(m.repositoryMode, Enabled(m.targets)) <==>
      && (HasRole(m, Server) <==> m.repositoryMode != ClientOnly)
      && (HasRole(m, Client) <==> m.repositoryMode != ServerOnly)
  {
    EnabledMember(m.targets);
    var enabled := Enabled(m.targets);
    assert forall role :: (exists t :: t in enabled && t.role == role) <==> HasRole(m, role);
  }

  lemma SomeEnabled(targets: seq<Target>)
    ensures Enabled(targets) != [] <==> exists t :: t in targets && t.enabled
  {
    hide Enabled;
    EnabledMember(targets);
    if Enabled(targets) != [] {
      assert Enabled(targets)[0] in Enabled(targets);
    }
  }

  /** Accepted are exactly the manifests that are acceptable, check by check. */
  lemma AcceptedIff(m: Manifest)
    ensures Accepted(m) <==> Acceptable(m)
  {
    hide TargetFits, Enabled, RolesOk, DefaultOk, AnyOverlap, SomeOverlap, HasRole, IsTargetName, FaultlessUpTo;
    FaultlessAll(m.targets);
    SomeEnabled(m.targets);
    RolesAmong(m);
    if NamesDistinct(m.targets) {
      OverlapAmong(m.targets);
      DefaultAmong(m.targets, m.defaultTarget);
    }
    forall t | t in m.targets && TargetFits(t) ensures IsTargetName(t.name) {
      FitsName(t);
    }
  }

  lemma FitsName(t: Target)
    requires TargetFits(t)
    ensures IsTargetName(t.name)
  {}

  /** What the reported fault of a target says about it. */
  lemma FaultMeans(t: Target, names: set<string>)
    ensures match TargetFault(t, names)
      case None => true
      case Some(InvalidTargetName) => !IsTargetName(t.name)
      case Some(DuplicateTargetName) => t.name in names
      case Some(RootCount) => t.roots == [] || |t.roots| > 64
      case Some(InvalidRoot) => exists r :: r in t.roots && !IsPortable(r, true)
      case Some(DuplicateRoot) => !Distinct(t.roots)
      case Some(RedundantRoot) =>
        Distinct(t.roots) && exists i, j :: 0 <= i < j < |t.roots| && Overlap(t.roots[i], t.roots[j])
      case Some(InvalidStackConfig) =>
        t.stackConfig.Some?
        && !(IsPortable(t.stackConfig.value, false) && exists stem :: t.stackConfig.value == stem + ".json")
      case Some(InvalidHeaders) =>
        t.propagateHeaders.Some?
        && var hs := t.propagateHeaders.value;
           !(0 < |hs| <= 32 && Distinct(hs) && forall h :: h in hs ==> IsHeaderName(h))
      case Some(ModeMismatch) =>
        || !(t.stackConfig.Some? <==> t.middleware == Stack)
        || !(t.propagateHeaders.Some? <==> t.middleware == PropagationOnly)
        || (t.middleware == Stack && t.role != Server)
      case Some(_) => false
  {
    hide IsPortable, IsTargetName, Overlap, IsHeaderName;
    if t.stackConfig.Some? {
      JsonSuffix(t.stackConfig.value);
    }
  }

  // ----- resolution

  /** A root contains itself and what lies below it; the dot contains everything. */
  lemma ContainsIff(root: string, path: string)
    requires IsPortable(root, true) && IsPortable(path, true)
    ensures Contains(root, path) <==> root == "." || path == root || root + "/" <= path
  {
    if root == "." {
    } else {
      hide Split, IsPortable;
      DotHasNothing(root, path);
      PartsBelow(root, path);
    }
  }

  lemma PartsBelow(root: string, path: string)
    ensures Split(root, '/') <= Split(path, '/') <==> path == root || root + "/" <= path
  {
    hide Split, Join;
    var r, p := Split(root, '/'), Split(path, '/');
    JoinSplit(root, '/');
    JoinSplit(path, '/');
    if root + "/" <= path {
      var rest := path[|root| + 1..];
      assert path == root + ['/'] + rest;
      SplitJoined(root, rest, '/');
    }
    if r <= p && r != p {
      var rest := p[|r|..];
      assert p == r + rest;
      JoinAppend(r, rest, '/');
      assert path == root + "/" + Join(rest, '/');
    }
  }

  lemma DotHasNothing(root: string, path: string)
    requires root != "." && IsPortable(root, true)
    ensures path == "." ==> path != root && !(root + "/" <= path) && RootParts(path) == [] && RootParts(root) != []
  {
    if path == "." {
      assert |root + "/"| > 1;
    }
  }

  /** The target is enabled and holds the path, and no other enabled target does. */
  ghost predicate SoleHolder(m: Manifest, path: string, t: Target) {
    && t in m.targets && t.enabled && Holds(t, path)
    && forall u :: u in m.targets && u.enabled && Holds(u, path) ==> u == t
  }

  lemma {:induction false} HoldingMember(enabled: seq<Target>, path: string)
    ensures forall t :: t in Holding(enabled, path) <==> t in enabled && Holds(t, path)
  {
    hide Holds;
    if enabled == [] {
    } else {
      HoldingMember(enabled[1..], path);
      assert enabled == [enabled[0]] + enabled[1..];
    }
  }

  lemma HoldingOne(m: Manifest, path: string)
    requires Accepted(m)
    ensures var matches := Holding(Enabled(m.targets), path);
      && (|matches| == 1 <==> exists t :: SoleHolder(m, path, t))
      && (|matches| == 1 ==> SoleHolder(m, path, matches[0]))
      && (matches == [] <==> forall t :: t in m.targets && t.enabled ==> !Holds(t, path))
  {
    hide Accepted, Enabled, Holding, Holds;
    var enabled := Enabled(m.targets);
    var matches := Holding(enabled, path);
    AcceptedNames(m);
    EnabledMember(m.targets);
    EnabledDistinct(m.targets);
    HoldingMember(enabled, path);
    HoldingMany(enabled, path);
    SomeMember(matches);
    if |matches| == 1 {
      assert forall t :: t in matches <==> t == matches[0];
      assert SoleHolder(m, path, matches[0]);
    }
    if exists t :: SoleHolder(m, path, t) {
      var t :| SoleHolder(m, path, t);
      assert t in matches;
    }
  }

  lemma SomeMember<T>(s: seq<T>)
    ensures s != [] ==> exists x :: x in s
  {
    if s != [] {
      assert s[0] in s;
    }
  }

  /**
   For every accepted manifest, a path resolves to a target exactly when it is portable and that
   target alone, of the enabled ones, has a root containing it. It is not found exactly when no
   enabled target has one.
   */
  lemma PathResolvesIff(m: Manifest, path: string, t: Target)
    requires Accepted(m) && path != []
    ensures ResolveTarget(m, None, Some(path)) == Ok(t) <==> IsPortable(path, true) && SoleHolder(m, path, t)
    ensures ResolveTarget(m, None, Some(path)) == Err(NotFound) <==>
      IsPortable(path, true) && forall u :: u in m.targets && u.enabled ==> !Holds(u, path)
    ensures ResolveTarget(m, None, Some(path)) == Err(InvalidPath) <==> !IsPortable(path, true)
  {
    hide Accepted, Enabled, Holding, Holds, IsPortable;
    HoldingOne(m, path);
  }

  /** A name resolves to the enabled target of that name, and to nothing else. */
  lemma NameResolvesIff(m: Manifest, name: string, t: Target)
    requires Accepted(m) && name != []
    ensures ResolveTarget(m, Some(name), None) == Ok(t) <==> t in m.targets && t.enabled && t.name == name
    ensures ResolveTarget(m, Some(name), None).Err? <==> forall u :: u in m.targets && u.enabled ==> u.name != name
  {
    hide Accepted, Enabled, Named, IsTargetName;
    AcceptedNames(m);
    if exists u :: u in m.targets && u.enabled && u.name == name {
      var u :| u in m.targets && u.enabled && u.name == name;
      NameResolves(m, u);
    } else {
      forall u | u in m.targets ensures u.name != [] {
        NameNotEmpty(u.name);
      }
      NamedNoneEnabled(m.targets, if IsTargetName(name) then name else []);
    }
    if t in m.targets && t.enabled && t.name == name {
      NameResolves(m, t);
    }
  }

  lemma {:induction false} NamedMember(enabled: seq<Target>, name: string)
    ensures forall t :: t in Named(enabled, name) <==> t in enabled && t.name == name
  {
    if enabled == [] {
    } else {
      NamedMember(enabled[1..], name);
      assert enabled == [enabled[0]] + enabled[1..];
    }
  }

  lemma NamedNoneEnabled(targets: seq<Target>, name: string)
    requires forall t :: t in targets && t.enabled ==> t.name != name
    ensures Named(Enabled(targets), name) == []
  {
    hide Enabled, Named;
    EnabledMember(targets);
    NamedMember(Enabled(targets), name);
    SomeMember(Named(Enabled(targets), name));
  }

  lemma NameNotEmpty(s: string)
    requires IsTargetName(s)
    ensures s != []
  {}

  /** An empty argument counts as absent, both together are refused, and neither needs a default. */
  lemma ArgumentsMatter(m: Manifest, name: string, path: string)
    ensures ResolveTarget(m, Some([]), Some(path)) == ResolveTarget(m, None, Some(path))
    ensures ResolveTarget(m, Some(name), Some([])) == ResolveTarget(m, Some(name), None)
    ensures name != [] && path != [] ==> ResolveTarget(m, Some(name), Some(path)) == Err(NameOrPathOnly)
    ensures m.defaultTarget.None? ==> ResolveTarget(m, None, None) == Err(DefaultRequired)
  {}
}
