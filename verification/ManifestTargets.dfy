/**
 The manifest compiler's checks on targets and roots, and how a target is resolved from an
 accepted manifest. Values have already been checked to be of the right TOML types.
 */
module ManifestTargets {
  import opened Prelude
  import opened Text

  const MAX_TARGETS: nat := 64
  const MAX_ROOTS_PER_TARGET: nat := 64
  const MAX_PROPAGATED_HEADERS: nat := 32
  const MAX_PATH_BYTES: nat := 512

  datatype Role = Server | Client

  datatype Mode = Stack | PropagationOnly | Disabled

  datatype RepositoryMode = ServerOnly | ClientOnly | Hybrid

  datatype Target = Target(
    name: string, role: Role, roots: seq<string>, enabled: bool, middleware: Mode,
    stackConfig: Option<string>, propagateHeaders: Option<seq<string>>)

  datatype Manifest = Manifest(
    repositoryMode: RepositoryMode, allowOverlappingRoots: bool, targets: seq<Target>,
    defaultTarget: Option<string>)

  datatype ManifestError =
    | TargetCount | InvalidTargetName | DuplicateTargetName | RootCount | InvalidRoot | DuplicateRoot
    | RedundantRoot | InvalidStackConfig | InvalidHeaders | ModeMismatch | EnabledTargetRequired
    | RoleMismatch | DefaultNotEnabled | OverlappingTargetRoots

  // ----- names and paths

  predicate IsTargetName(s: string) {
    && 0 < |s| <= 63 && 'a' <= s[0] <= 'z'
    && forall i :: 0 <= i < |s| ==> 'a' <= s[i] <= 'z' || '0' <= s[i] <= '9' || s[i] == '-'
  }

  predicate IsHeaderName(s: string) {
    && s != []
    && forall i :: 0 <= i < |s| ==>
         || 'a' <= s[i] <= 'z' || '0' <= s[i] <= '9'
         || s[i] in {'!', '#', '$', '%', '&', '\'', '*', '+', '.', '^', '_', '`', '|', '~', '-'}
  }

  /** Bytes of a string in UTF-8. */
  function Utf8Size(s: string): nat {
    if s == [] then 0
    else
      var c := s[|s| - 1] as int;
      Utf8Size(s[..|s| - 1]) + if c < 0x80 then 1 else if c < 0x800 then 2 else if c < 0x10000 then 3 else 4
  }

  /** Relative, trimmed, with no empty, dot or dot-dot part; such a path is its own normal form. */
  predicate IsPortable(s: string, allowDot: bool) {
    && s != [] && Trimmed(s) && '\0' !in s && '\\' !in s && Utf8Size(s) <= MAX_PATH_BYTES && s[0] != '/'
    && (if s == "." then allowDot
        else forall p :: p in Split(s, '/') ==> p != [] && p != "." && p != "..")
  }

  function RootParts(s: string): seq<string> {
    if s == "." then [] else Split(s, '/')
  }

  /** One root lies inside the other. */
  predicate Overlap(a: string, b: string) {
    var left, right := RootParts(a), RootParts(b);
    var n := if |left| <= |right| then |left| else |right|;
    left[..n] == right[..n]
  }

  predicate Contains(root: string, path: string) {
    RootParts(root) <= RootParts(path)
  }

  /** Two roots that contain one path overlap. */
  lemma ContainingRootsOverlap(a: string, b: string, path: string)
    requires Contains(a, path) && Contains(b, path)
    ensures Overlap(a, b)
  {
    var left, right, whole := RootParts(a), RootParts(b), RootParts(path);
    var n := if |left| <= |right| then |left| else |right|;
    assert left[..n] == whole[..n] && right[..n] == whole[..n];
  }

  /** Of two overlapping roots, one is contained in both. */
  lemma OverlapContained(a: string, b: string)
    requires Overlap(a, b)
    ensures (Contains(a, b) && Contains(b, b)) || (Contains(a, a) && Contains(b, a))
  {
    var left, right := RootParts(a), RootParts(b);
    if |left| <= |right| {
      assert left[..|left|] == left;
    } else {
      assert right[..|right|] == right;
    }
  }

  // ----- one target

  predicate RootsDisjoint(roots: seq<string>) {
    forall i, j :: 0 <= i < j < |roots| ==> !Overlap(roots[i], roots[j])
  }

  predicate HeadersOk(headers: seq<string>) {
    && 0 < |headers| <= MAX_PROPAGATED_HEADERS
    && (forall h :: h in headers ==> IsHeaderName(h))
    && (forall i, j :: 0 <= i < j < |headers| ==> headers[i] != headers[j])
  }

  predicate StackConfigOk(path: string) {
    IsPortable(path, false) && |path| >= 5 && path[|path| - 5..] == ".json"
  }

  predicate ModeOk(t: Target) {
    match t.middleware
    case Stack => t.stackConfig.Some? && t.propagateHeaders.None? && t.role == Server
    case PropagationOnly => t.stackConfig.None? && t.propagateHeaders.Some?
    case Disabled => t.stackConfig.None? && t.propagateHeaders.None?
  }

  /** The first check a target fails, given the names before it. */
  function TargetFault(t: Target, names: set<string>): Option<ManifestError> {
    if !IsTargetName(t.name) then Some(InvalidTargetName)
    else if t.name in names then Some(DuplicateTargetName)
    else if !(0 < |t.roots| <= MAX_ROOTS_PER_TARGET) then Some(RootCount)
    else if exists r :: r in t.roots && !IsPortable(r, true) then Some(InvalidRoot)
    else if exists i, j :: 0 <= i < j < |t.roots| && t.roots[i] == t.roots[j] then Some(DuplicateRoot)
    else if !RootsDisjoint(t.roots) then Some(RedundantRoot)
    else if t.stackConfig.Some? && !StackConfigOk(t.stackConfig.value) then Some(InvalidStackConfig)
    else if t.propagateHeaders.Some? && !HeadersOk(t.propagateHeaders.value) then Some(InvalidHeaders)
    else if !ModeOk(t) then Some(ModeMismatch)
    else None
  }

  // ----- the whole manifest

  function Enabled(targets: seq<Target>): seq<Target> {
    if targets == [] then []
    else (if targets[0].enabled then [targets[0]] else []) + Enabled(targets[1..])
  }

  predicate RolesOk(mode: RepositoryMode, enabled: seq<Target>) {
    var server := exists t :: t in enabled && t.role == Server;
    var client := exists t :: t in enabled && t.role == Client;
    match mode
    case ServerOnly => server && !client
    case ClientOnly => client && !server
    case Hybrid => server && client
  }

  predicate DefaultOk(targets: seq<Target>, default: Option<string>) {
    default.None?
    || (exists i ::
          && 0 <= i < |targets| && targets[i].name == default.value && targets[i].enabled
          && forall j :: 0 <= j < i ==> targets[j].name != default.value)
  }

  predicate TargetsOverlap(a: Target, b: Target) {
    exists r, q :: r in a.roots && q in b.roots && Overlap(r, q)
  }

  predicate AnyOverlap(enabled: seq<Target>) {
    exists i, j :: 0 <= i < j < |enabled| && TargetsOverlap(enabled[i], enabled[j])
  }

  ghost function NamesOf(targets: seq<Target>): set<string> {
    set t | t in targets :: t.name
  }

  /** The checks after the targets have been read one by one. */
  function ManifestFault(m: Manifest): Option<ManifestError> {
    var enabled := Enabled(m.targets);
    if enabled == [] then Some(EnabledTargetRequired)
    else if !RolesOk(m.repositoryMode, enabled) then Some(RoleMismatch)
    else if !DefaultOk(m.targets, m.defaultTarget) then Some(DefaultNotEnabled)
    else if !m.allowOverlappingRoots && AnyOverlap(enabled) then Some(OverlappingTargetRoots)
    else None
  }

  /** No target before `i` has a fault. */
  ghost predicate FaultlessUpTo(targets: seq<Target>, i: nat) {
    i <= |targets| && forall j :: 0 <= j < i ==> TargetFault(targets[j], NamesOf(targets[..j])).None?
  }

  ghost predicate Accepted(m: Manifest) {
    && 0 < |m.targets| <= MAX_TARGETS
    && (m.defaultTarget.Some? ==> IsTargetName(m.defaultTarget.value))
    && FaultlessUpTo(m.targets, |m.targets|)
    && ManifestFault(m).None?
  }

  /** Accepts exactly the accepted manifests, unchanged, and reports the earliest fault of the rest. */
  method NormalizeManifest(m: Manifest) returns (r: Result<Manifest, ManifestError>)
    ensures Accepted(m) <==> r.Ok?
    ensures r.Ok? ==> r.value == m
    ensures m.defaultTarget.Some? && !IsTargetName(m.defaultTarget.value) ==> r == Err(InvalidTargetName)
    ensures (m.defaultTarget.Some? ==> IsTargetName(m.defaultTarget.value)) && !(0 < |m.targets| <= MAX_TARGETS) ==>
      r == Err(TargetCount)
    ensures r.Err? && 0 < |m.targets| <= MAX_TARGETS
              && (m.defaultTarget.Some? ==> IsTargetName(m.defaultTarget.value)) ==>
      if FaultlessUpTo(m.targets, |m.targets|) then ManifestFault(m) == Some(r.error)
      else exists i :: 0 <= i < |m.targets| && FaultlessUpTo(m.targets, i)
                       && TargetFault(m.targets[i], NamesOf(m.targets[..i])) == Some(r.error)
  {
    hide TargetFault, ManifestFault;
    if m.defaultTarget.Some? && !IsTargetName(m.defaultTarget.value) {
      return Err(InvalidTargetName);
    }
    if !(0 < |m.targets| <= MAX_TARGETS) {
      return Err(TargetCount);
    }
    var names: set<string> := {};
    assert m.targets[..0] == [];
    for i := 0 to |m.targets|
      invariant names == NamesOf(m.targets[..i])
      invariant FaultlessUpTo(m.targets, i)
    {
      var t := m.targets[i];
      var fault := TargetFault(t, names);
      if fault.Some? {
        return Err(fault.value);
      }
      NamesSnoc(m.targets, i);
      names := names + {t.name};
    }
    var fault := ManifestFault(m);
    if fault.Some? {
      return Err(fault.value);
    }
    return Ok(m);
  }

  lemma NamesSnoc(targets: seq<Target>, i: nat)
    requires i < |targets|
    ensures NamesOf(targets[..i + 1]) == NamesOf(targets[..i]) + {targets[i].name}
  {
    assert targets[..i + 1] == targets[..i] + [targets[i]];
    forall n ensures n in NamesOf(targets[..i + 1]) <==> n in NamesOf(targets[..i]) || n == targets[i].name {
      if n in NamesOf(targets[..i]) {
        var t :| t in targets[..i] && t.name == n;
        assert t in targets[..i + 1];
      }
      assert targets[i] in targets[..i + 1];
    }
  }

  // ----- resolution

  datatype ResolveError = NameOrPathOnly | NotFound | InvalidPath | Ambiguous | DefaultRequired

  /** Python treats an empty argument like an absent one. */
  predicate Given(arg: Option<string>) {
    arg.Some? && arg.value != []
  }

  function Named(enabled: seq<Target>, name: string): seq<Target> {
    if enabled == [] then []
    else (if enabled[0].name == name then [enabled[0]] else []) + Named(enabled[1..], name)
  }

  predicate Holds(t: Target, path: string) {
    exists r :: r in t.roots && Contains(r, path)
  }

  function Holding(enabled: seq<Target>, path: string): seq<Target> {
    if enabled == [] then []
    else (if Holds(enabled[0], path) then [enabled[0]] else []) + Holding(enabled[1..], path)
  }

  function ResolveName(m: Manifest, name: string): Result<Target, ResolveError> {
    var matches := Named(Enabled(m.targets), if IsTargetName(name) then name else []);
    if |matches| == 1 then Ok(matches[0]) else Err(NotFound)
  }

  function ResolveTarget(m: Manifest, name: Option<string>, path: Option<string>): Result<Target, ResolveError> {
    if Given(name) && Given(path) then Err(NameOrPathOnly)
    else if Given(name) then ResolveName(m, name.value)
    else if Given(path) then
      if !IsPortable(path.value, true) then Err(InvalidPath)
      else
        var matches := Holding(Enabled(m.targets), path.value);
        if matches == [] then Err(NotFound)
        else if |matches| == 1 then Ok(matches[0])
        else Err(Ambiguous)
    else if m.defaultTarget.Some? then ResolveName(m, m.defaultTarget.value)
    else Err(DefaultRequired)
  }

  lemma {:induction false} EnabledMember(targets: seq<Target>)
    ensures forall t :: t in Enabled(targets) <==> t in targets && t.enabled
  {
    if targets == [] {
    } else {
      EnabledMember(targets[1..]);
      assert targets == [targets[0]] + targets[1..];
    }
  }

  /** More than one match means two positions that match. */
  lemma {:induction false} HoldingMany(enabled: seq<Target>, path: string)
    ensures |Holding(enabled, path)| > 1 <==>
      exists i, j :: 0 <= i < j < |enabled| && Holds(enabled[i], path) && Holds(enabled[j], path)
    ensures |Holding(enabled, path)| > 0 <==> exists i :: 0 <= i < |enabled| && Holds(enabled[i], path)
  {
    hide Holds;
    if enabled == [] {
    } else {
      var rest := enabled[1..];
      HoldingMany(rest, path);
      assert forall i :: 0 <= i < |rest| ==> rest[i] == enabled[i + 1];
      if exists i :: 0 <= i < |rest| && Holds(rest[i], path) {
        var i :| 0 <= i < |rest| && Holds(rest[i], path);
        assert Holds(enabled[i + 1], path);
        if Holds(enabled[0], path) {
          assert 0 <= 0 < i + 1 < |enabled|;
        }
      }
      if exists i, j :: 0 <= i < j < |rest| && Holds(rest[i], path) && Holds(rest[j], path) {
        var i, j :| 0 <= i < j < |rest| && Holds(rest[i], path) && Holds(rest[j], path);
        assert Holds(enabled[i + 1], path) && Holds(enabled[j + 1], path);
      }
      forall i, j | 0 <= i < j < |enabled| && Holds(enabled[i], path) && Holds(enabled[j], path)
        ensures |Holding(enabled, path)| > 1
      {
        assert Holds(rest[j - 1], path);
        if i > 0 {
          assert Holds(rest[i - 1], path);
        }
      }
    }
  }

  lemma HoldersOverlap(a: Target, b: Target, path: string)
    requires Holds(a, path) && Holds(b, path)
    ensures TargetsOverlap(a, b)
  {
    var r :| r in a.roots && Contains(r, path);
    var q :| q in b.roots && Contains(q, path);
    ContainingRootsOverlap(r, q, path);
  }

  lemma OverlapHeld(a: Target, b: Target) returns (path: string)
    requires TargetsOverlap(a, b)
    ensures Holds(a, path) && Holds(b, path) && (path in a.roots || path in b.roots)
  {
    var r, q :| r in a.roots && q in b.roots && Overlap(r, q);
    OverlapContained(r, q);
    if Contains(r, q) && Contains(q, q) {
      path := q;
    } else {
      path := r;
    }
  }

  lemma AcceptedRoots(m: Manifest, t: Target, root: string)
    requires Accepted(m) && t in m.targets && root in t.roots
    ensures IsPortable(root, true) && root != []
  {
    var i :| 0 <= i < |m.targets| && m.targets[i] == t;
    assert TargetFault(m.targets[i], NamesOf(m.targets[..i])).None?;
  }

  lemma AmbiguousOverlaps(m: Manifest, path: string)
    requires ResolveTarget(m, None, Some(path)) == Err(Ambiguous)
    ensures AnyOverlap(Enabled(m.targets))
  {
    hide IsPortable, IsTargetName, Named, Enabled, TargetsOverlap, Holds;
    var enabled := Enabled(m.targets);
    HoldingMany(enabled, path);
    var i, j :| 0 <= i < j < |enabled| && Holds(enabled[i], path) && Holds(enabled[j], path);
    HoldersOverlap(enabled[i], enabled[j], path);
  }

  lemma OverlapAmbiguous(m: Manifest) returns (path: string)
    requires Accepted(m) && AnyOverlap(Enabled(m.targets))
    ensures ResolveTarget(m, None, Some(path)) == Err(Ambiguous)
  {
    hide IsPortable, IsTargetName, Named, Enabled, TargetsOverlap, Holds, Accepted, Holding;
    var enabled := Enabled(m.targets);
    EnabledMember(m.targets);
    var i, j :| 0 <= i < j < |enabled| && TargetsOverlap(enabled[i], enabled[j]);
    path := OverlapHeld(enabled[i], enabled[j]);
    assert enabled[i] in enabled && enabled[j] in enabled;
    AcceptedRoots(m, if path in enabled[i].roots then enabled[i] else enabled[j], path);
    HoldingMany(enabled, path);
  }

  /** In an accepted manifest some path is ambiguous exactly when two enabled targets overlap. */
  lemma AmbiguousIff(m: Manifest)
    requires Accepted(m)
    ensures (exists path :: ResolveTarget(m, None, Some(path)) == Err(Ambiguous)) <==>
      AnyOverlap(Enabled(m.targets))
  {
    hide Accepted, ResolveTarget, Enabled, AnyOverlap;
    if exists path :: ResolveTarget(m, None, Some(path)) == Err(Ambiguous) {
      var path :| ResolveTarget(m, None, Some(path)) == Err(Ambiguous);
      AmbiguousOverlaps(m, path);
    }
    if AnyOverlap(Enabled(m.targets)) {
      var path := OverlapAmbiguous(m);
    }
  }

  /** Without permission to overlap, no source path is ambiguous. */
  lemma NeverAmbiguous(m: Manifest, path: string)
    requires Accepted(m) && !m.allowOverlappingRoots
    ensures ResolveTarget(m, None, Some(path)) != Err(Ambiguous)
  {
    AmbiguousIff(m);
  }

  ghost predicate NamesDistinct(targets: seq<Target>) {
    forall i, j :: 0 <= i < j < |targets| ==> targets[i].name != targets[j].name
  }

  lemma AcceptedNames(m: Manifest)
    requires Accepted(m)
    ensures NamesDistinct(m.targets) && forall t :: t in m.targets ==> IsTargetName(t.name)
  {
    forall j | 0 <= j < |m.targets|
      ensures IsTargetName(m.targets[j].name)
      ensures forall i :: 0 <= i < j ==> m.targets[i].name != m.targets[j].name
    {
      assert TargetFault(m.targets[j], NamesOf(m.targets[..j])).None?;
      forall i | 0 <= i < j ensures m.targets[i].name != m.targets[j].name {
        assert m.targets[i] in m.targets[..j];
      }
    }
  }

  lemma {:induction false} NamedOnce(targets: seq<Target>, name: string, i: nat)
    requires NamesDistinct(targets) && i < |targets| && targets[i].name == name && targets[i].enabled
    ensures Named(Enabled(targets), name) == [targets[i]]
  {
    var rest := targets[1..];
    assert forall k :: 0 <= k < |rest| ==> rest[k] == targets[k + 1];
    if i == 0 {
      NamedNone(rest, name);
      assert Enabled(targets) == [targets[0]] + Enabled(rest);
    } else {
      NamedOnce(rest, name, i - 1);
      if targets[0].enabled {
        assert Enabled(targets)[1..] == Enabled(rest);
      } else {
        assert Enabled(targets) == Enabled(rest);
      }
    }
  }

  lemma {:induction false} NamedNone(targets: seq<Target>, name: string)
    requires forall t :: t in targets ==> t.name != name
    ensures Named(Enabled(targets), name) == []
  {
    if targets == [] {
    } else {
      assert targets[0] in targets;
      assert forall t :: t in targets[1..] ==> t in targets;
      NamedNone(targets[1..], name);
      if targets[0].enabled {
        assert Enabled(targets)[1..] == Enabled(targets[1..]);
      } else {
        assert Enabled(targets) == Enabled(targets[1..]);
      }
    }
  }

  /** Every enabled target of an accepted manifest resolves by its name, to itself. */
  lemma NameResolves(m: Manifest, t: Target)
    requires Accepted(m) && t in m.targets && t.enabled
    ensures ResolveTarget(m, Some(t.name), None) == Ok(t)
  {
    hide Accepted, Enabled, Named;
    AcceptedNames(m);
    var i :| 0 <= i < |m.targets| && m.targets[i] == t;
    NamedOnce(m.targets, t.name, i);
  }

  /** A declared default resolves, to the one enabled target of that name. */
  lemma DefaultResolves(m: Manifest)
    requires Accepted(m) && m.defaultTarget.Some?
    ensures var r := ResolveTarget(m, None, None);
      r.Ok? && r.value in m.targets && r.value.enabled && r.value.name == m.defaultTarget.value
      && forall t :: t in m.targets && t.name == m.defaultTarget.value ==> t == r.value
  {
    hide TargetFault, Enabled, Named;
    AcceptedNames(m);
    var i :| 0 <= i < |m.targets| && m.targets[i].name == m.defaultTarget.value && m.targets[i].enabled;
    NamedOnce(m.targets, m.defaultTarget.value, i);
  }
}
