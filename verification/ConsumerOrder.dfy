/**
 Validation of a middleware sequence against the policy its consumer wrote: shape of the policy,
 selection, uniqueness, first stage, ordering rules, and cycles among the active rules.
 */
module ConsumerOrder {
  import opened Prelude
  import opened OrderGraph
  import StringOrder

  datatype Severity = Error | Advisory

  datatype Rule = Rule(
    before: string, after: string, code: string, message: string, severity: Severity, requireBoth: bool)

  datatype Policy = Policy(
    required: seq<string>, forbidden: seq<string>, unique: seq<string>, first: Option<string>,
    rules: seq<Rule>)

  datatype Plan = Plan(stages: seq<string>, policy: Policy)

  datatype Issue =
    | BlankPolicyStage(stage: string)
    | InvalidRule
    | ContradictoryStage(stage: string)
    | RequiredMissing(stage: string)
    | ForbiddenPresent(stage: string)
    | UniqueDuplicated(stage: string)
    | FirstMismatch(stage: string)
    | RuleBroken(code: string, message: string, severity: Severity)
    | OrderCycle(involving: seq<string>)
    | BlankStage(stage: string)
    | PlanMismatch

  // ----- names and lists

  /** Rust's `char::is_whitespace`; unlike Python's notion it leaves out U+001C to U+001F. */
  predicate IsWhitespace(c: char) {
    || '\t' <= c <= '\r' || c == ' ' || c == '\U{85}' || c == '\U{A0}' || c == '\U{1680}'
    || '\U{2000}' <= c <= '\U{200A}' || c == '\U{2028}' || c == '\U{2029}' || c == '\U{202F}'
    || c == '\U{205F}' || c == '\U{3000}'
  }

  predicate Blank(s: string) {
    forall i :: 0 <= i < |s| ==> IsWhitespace(s[i])
  }

  /** Where a name occurs, in ascending order. */
  function Positions(names: seq<string>, name: string): seq<nat> {
    if names == [] then []
    else
      var n := |names| - 1;
      Positions(names[..n], name) + (if names[n] == name then [n] else [])
  }

  ghost predicate Ascending(s: seq<nat>) {
    forall i, j :: 0 <= i < j < |s| ==> s[i] < s[j]
  }

  lemma {:induction false} PositionsExact(names: seq<string>, name: string)
    ensures forall i :: i in Positions(names, name) <==> 0 <= i < |names| && names[i] == name
    ensures Ascending(Positions(names, name))
  {
    if names == [] {
    } else {
      var n := |names| - 1;
      var rest := names[..n];
      var p, q := Positions(names, name), Positions(rest, name);
      PositionsExact(rest, name);
      AscendingSnoc(q, n);
      assert p == q + (if names[n] == name then [n] else []);
      hide Positions, Ascending;
      forall i ensures i in p <==> 0 <= i < |names| && names[i] == name {
        assert i in q <==> 0 <= i < n && names[i] == name by {
          if 0 <= i < n { assert rest[i] == names[i]; }
        }
      }
      assert q + [] == q;
    }
  }

  lemma AscendingSnoc(s: seq<nat>, n: nat)
    requires Ascending(s) && forall i :: i in s ==> i < n
    ensures Ascending(s + [n])
  {
    assert forall i :: 0 <= i < |s| ==> s[i] in s;
  }

  /** The first and the last place of a name bound all its places. */
  lemma PositionsEnds(names: seq<string>, name: string)
    ensures Positions(names, name) == [] <==> name !in names
    ensures Positions(names, name) != [] ==>
      var p := Positions(names, name);
      var first, last := p[0], p[|p| - 1];
      && first <= last < |names| && names[first] == name && names[last] == name
      && forall i :: 0 <= i < |names| && names[i] == name ==> first <= i <= last
  {
    var p := Positions(names, name);
    PositionsExact(names, name);
    if p != [] {
      assert p[0] in p && p[|p| - 1] in p;
      forall i | 0 <= i < |names| && names[i] == name ensures p[0] <= i <= p[|p| - 1] {
        assert i in p;
        var k :| 0 <= k < |p| && p[k] == i;
      }
    }
  }

  // ----- the shape of a policy

  predicate ValidRule(r: Rule) {
    !Blank(r.before) && !Blank(r.after) && !Blank(r.code) && !Blank(r.message) && r.before != r.after
  }

  function Named(stages: seq<string>): set<string> {
    set s | s in stages && !Blank(s)
  }

  /** Stages both asked for and forbidden. */
  function Contradictions(p: Policy): set<string> {
    Named(p.required) * Named(p.forbidden)
    + (if p.first.Some? && !Blank(p.first.value) && p.first.value in Named(p.forbidden)
       then {p.first.value} else {})
  }

  function BlankSelector(stage: string): Option<Issue> {
    if Blank(stage) then Some(BlankPolicyStage(stage)) else None
  }

  function MalformedRule(r: Rule): Option<Issue> {
    if ValidRule(r) then None else Some(InvalidRule)
  }

  function FirstOf(p: Policy): seq<string> {
    if p.first.Some? then [p.first.value] else []
  }

  function ShapeIssues(p: Policy): seq<Issue> {
    FilterMap(p.required + p.forbidden + p.unique, BlankSelector)
    + FilterMap(FirstOf(p), BlankSelector)
    + FilterMap(p.rules, MalformedRule)
    + FilterMap(StringOrder.Sorted(Contradictions(p)), (s: string) => Some(ContradictoryStage(s)))
  }

  // ----- a sequence against a policy

  function RequiredIssue(names: seq<string>): string -> Option<Issue> {
    (s: string) => if !Blank(s) && s !in names then Some(RequiredMissing(s)) else None
  }

  function ForbiddenIssue(names: seq<string>): string -> Option<Issue> {
    (s: string) => if !Blank(s) && s in names then Some(ForbiddenPresent(s)) else None
  }

  function UniqueIssue(names: seq<string>): string -> Option<Issue> {
    (s: string) => if !Blank(s) && |Positions(names, s)| > 1 then Some(UniqueDuplicated(s)) else None
  }

  function FirstIssue(names: seq<string>): string -> Option<Issue> {
    (s: string) => if !Blank(s) && (names == [] || names[0] != s) then Some(FirstMismatch(s)) else None
  }

  /** The last `before` has to precede the first `after`. */
  function RuleIssue(names: seq<string>): Rule -> Option<Issue> {
    (r: Rule) =>
      if !ValidRule(r) then None
      else
        var before, after := Positions(names, r.before), Positions(names, r.after);
        if before != [] && after != [] then
          if before[|before| - 1] < after[0] then None else Some(RuleBroken(r.code, r.message, r.severity))
        else if r.requireBoth then Some(RuleBroken(r.code, r.message, r.severity))
        else None
  }

  predicate Active(names: seq<string>, r: Rule) {
    ValidRule(r) && r.before in names && r.after in names
  }

  /** One edge per valid rule whose two stages are present. */
  function ActiveEdges(names: seq<string>, p: Policy): Edges {
    set r | r in p.rules && Active(names, r) :: (r.before, r.after)
  }

  ghost function CycleIssues(names: seq<string>, p: Policy): seq<Issue> {
    var edges := ActiveEdges(names, p);
    if HasCycle(edges)
    then [OrderCycle(StringOrder.Sorted(set v | v in Nodes(edges) && BehindCycle(edges, v)))]
    else []
  }

  function SelectionIssues(names: seq<string>, p: Policy): seq<Issue> {
    FilterMap(p.required, RequiredIssue(names))
    + FilterMap(p.forbidden, ForbiddenIssue(names))
    + FilterMap(p.unique, UniqueIssue(names))
    + FilterMap(FirstOf(p), FirstIssue(names))
  }

  ghost function ConsumerIssues(names: seq<string>, p: Policy): seq<Issue> {
    ShapeIssues(p) + SelectionIssues(names, p) + FilterMap(p.rules, RuleIssue(names)) + CycleIssues(names, p)
  }

  /**
   Reports a cycle exactly when the active rules have one, naming the stages on a cycle or
   reachable from one.
   */
  method ActiveOrderCycleIssue(names: seq<string>, p: Policy) returns (issues: seq<Issue>)
    ensures issues == CycleIssues(names, p)
  {
    var edges := ActiveEdges(names, p);
    if edges == {} {
      NoEdgesNoCycle(edges);
      return [];
    }
    var visited, degree := Kahn(edges);
    if visited == |degree| {
      return [];
    }
    var candidates := set v | v in degree && degree[v] > 0;
    assert candidates == set v | v in Nodes(edges) && BehindCycle(edges, v);
    return [OrderCycle(StringOrder.Sorted(candidates))];
  }

  // ----- what the checks mean

  /** Every `before` precedes every `after`. */
  ghost predicate AllBefore(names: seq<string>, before: string, after: string) {
    forall i, j :: 0 <= i < |names| && 0 <= j < |names| && names[i] == before && names[j] == after ==> i < j
  }

  /** The last-before-first test is the pairwise one. */
  lemma PositionalCheckExact(names: seq<string>, r: Rule)
    requires ValidRule(r)
    ensures RuleIssue(names)(r).None? <==>
      AllBefore(names, r.before, r.after)
      && (r.requireBoth ==> r.before in names && r.after in names)
  {
    PositionsEnds(names, r.before);
    PositionsEnds(names, r.after);
  }

  lemma {:induction false} RankedPath(edges: Edges, rank: Node -> int, p: seq<Node>)
    requires IsPath(edges, p)
    requires forall i :: 0 <= i < |p| - 1 ==> rank(p[i]) < rank(p[i + 1])
    ensures |p| >= 2 ==> rank(p[0]) < rank(p[|p| - 1])
    decreases |p|
  {
    if |p| <= 2 {
    } else {
      RankedPath(edges, rank, p[..|p| - 1]);
    }
  }

  function FirstPosition(names: seq<string>): string -> int {
    (s: string) => var p := Positions(names, s); if p == [] then 0 else p[0]
  }

  lemma BackwardEdgeBreaksRule(names: seq<string>, r: Rule)
    requires Active(names, r)
    requires FirstPosition(names)(r.before) >= FirstPosition(names)(r.after)
    ensures RuleIssue(names)(r).Some?
  {
    PositionsEnds(names, r.before);
    PositionsEnds(names, r.after);
  }

  /** Every cycle of active rules runs through a rule that the positional check reports. */
  lemma CycleBreaksRule(names: seq<string>, p: Policy, c: seq<Node>) returns (r: Rule, i: nat)
    requires IsCycle(ActiveEdges(names, p), c)
    ensures r in p.rules && Active(names, r) && RuleIssue(names)(r).Some?
    ensures i + 1 < |c| && c[i] == r.before && c[i + 1] == r.after
  {
    hide RuleIssue, Active, FirstPosition;
    var edges, rank := ActiveEdges(names, p), FirstPosition(names);
    if forall i :: 0 <= i < |c| - 1 ==> rank(c[i]) < rank(c[i + 1]) {
      RankedPath(edges, rank, c);
      assert false;
    }
    i :| 0 <= i < |c| - 1 && rank(c[i]) >= rank(c[i + 1]);
    assert (c[i], c[i + 1]) in edges;
    r :| r in p.rules && Active(names, r) && (r.before, r.after) == (c[i], c[i + 1]);
    BackwardEdgeBreaksRule(names, r);
  }

  /** A cycle report never stands alone: some rule is reported too. */
  lemma CycleComesWithRule(names: seq<string>, p: Policy)
    requires CycleIssues(names, p) != []
    ensures exists r :: r in p.rules && Active(names, r)
                        && RuleBroken(r.code, r.message, r.severity) in ConsumerIssues(names, p)
  {
    hide ShapeIssues, SelectionIssues;
    var c :| IsCycle(ActiveEdges(names, p), c);
    var r, _ := CycleBreaksRule(names, p, c);
    FilterMapHas(p.rules, RuleIssue(names), r);
    var broken := RuleBroken(r.code, r.message, r.severity);
    assert broken in FilterMap(p.rules, RuleIssue(names));
    assert broken in ShapeIssues(p) + SelectionIssues(names, p) + FilterMap(p.rules, RuleIssue(names));
  }

  /** The declarative meaning of a policy. */
  ghost predicate Satisfies(names: seq<string>, p: Policy) {
    && (forall s :: s in p.required ==> !Blank(s) && s in names && s !in p.forbidden)
    && (forall s :: s in p.forbidden ==> !Blank(s) && s !in names)
    && (forall s :: s in p.unique ==>
          !Blank(s) && forall i, j :: 0 <= i < j < |names| && names[i] == s ==> names[j] != s)
    && (p.first.Some? ==> !Blank(p.first.value) && names != [] && names[0] == p.first.value)
    && (forall r :: r in p.rules ==>
          ValidRule(r) && AllBefore(names, r.before, r.after)
          && (r.requireBoth ==> r.before in names && r.after in names))
  }

  lemma ShapeExact(p: Policy)
    ensures ShapeIssues(p) == [] <==>
      && (forall s :: s in p.required || s in p.forbidden || s in p.unique ==> !Blank(s))
      && (p.first.Some? ==> !Blank(p.first.value) && p.first.value !in p.forbidden)
      && (forall r :: r in p.rules ==> ValidRule(r))
      && (forall s :: s in p.required ==> s !in p.forbidden)
  {
    hide Blank, FilterMap, Contradictions, ValidRule;
    FilterMapEmpty(p.required + p.forbidden + p.unique, BlankSelector);
    FilterMapEmpty(FirstOf(p), BlankSelector);
    FilterMapEmpty(p.rules, MalformedRule);
    ContradictionsExact(p);
    assert p.first.Some? ==> p.first.value in FirstOf(p);
    var selectors := p.required + p.forbidden + p.unique;
    assert forall s :: s in selectors <==> s in p.required || s in p.forbidden || s in p.unique;
  }

  lemma ContradictionsExact(p: Policy)
    ensures FilterMap(StringOrder.Sorted(Contradictions(p)), (s: string) => Some(ContradictoryStage(s))) == []
       <==> Contradictions(p) == {}
    ensures Contradictions(p) == {} <==>
      && (forall s :: s in p.required && !Blank(s) ==> s !in p.forbidden)
      && (p.first.Some? && !Blank(p.first.value) ==> p.first.value !in p.forbidden)
  {
    var sorted := StringOrder.Sorted(Contradictions(p));
    FilterMapEmpty(sorted, (s: string) => Some(ContradictoryStage(s)));
    if Contradictions(p) != {} {
      var s :| s in Contradictions(p);
      assert s in sorted;
    }
    forall s | s in p.required && !Blank(s) && s in p.forbidden ensures s in Contradictions(p) {
    }
  }

  lemma UniqueExact(names: seq<string>, s: string)
    ensures |Positions(names, s)| <= 1 <==>
      forall i, j :: 0 <= i < j < |names| && names[i] == s ==> names[j] != s
  {
    var p := Positions(names, s);
    PositionsExact(names, s);
    if |p| > 1 {
      assert p[0] in p && p[1] in p;
    } else {
      forall i, j | 0 <= i < j < |names| && names[i] == s ensures names[j] != s {
        assert i in p;
        assert names[j] == s ==> j in p;
      }
    }
  }

  lemma SelectionExact(names: seq<string>, p: Policy)
    ensures SelectionIssues(names, p) == [] <==>
      && (forall s :: s in p.required && !Blank(s) ==> s in names)
      && (forall s :: s in p.forbidden && !Blank(s) ==> s !in names)
      && (forall s :: s in p.unique && !Blank(s) ==> |Positions(names, s)| <= 1)
      && (p.first.Some? && !Blank(p.first.value) ==> names != [] && names[0] == p.first.value)
  {
    FilterMapEmpty(p.required, RequiredIssue(names));
    FilterMapEmpty(p.forbidden, ForbiddenIssue(names));
    FilterMapEmpty(p.unique, UniqueIssue(names));
    FilterMapEmpty(FirstOf(p), FirstIssue(names));
    assert p.first.Some? ==> p.first.value in FirstOf(p);
  }

  lemma RulesExact(names: seq<string>, p: Policy)
    requires forall r :: r in p.rules ==> ValidRule(r)
    ensures FilterMap(p.rules, RuleIssue(names)) == [] <==>
      forall r :: r in p.rules ==>
        AllBefore(names, r.before, r.after) && (r.requireBoth ==> r.before in names && r.after in names)
  {
    hide RuleIssue;
    FilterMapEmpty(p.rules, RuleIssue(names));
    forall r | r in p.rules
      ensures RuleIssue(names)(r).None? <==>
        AllBefore(names, r.before, r.after) && (r.requireBoth ==> r.before in names && r.after in names)
    {
      PositionalCheckExact(names, r);
    }
  }

  /** No issue is reported exactly when the sequence meets the policy. */
  lemma AcceptsIff(names: seq<string>, p: Policy)
    ensures ConsumerIssues(names, p) == [] <==> Satisfies(names, p)
  {
    hide ShapeIssues, SelectionIssues, RuleIssue, AllBefore, Positions, FilterMap, CycleIssues;
    ShapeExact(p);
    SelectionExact(names, p);
    forall s ensures |Positions(names, s)| <= 1 <==>
      forall i, j :: 0 <= i < j < |names| && names[i] == s ==> names[j] != s
    {
      UniqueExact(names, s);
    }
    if forall r :: r in p.rules ==> ValidRule(r) {
      RulesExact(names, p);
    }
    if CycleIssues(names, p) != [] {
      CycleComesWithRule(names, p);
      CycleRefutes(names, p);
    }
  }

  lemma CycleRefutes(names: seq<string>, p: Policy)
    requires CycleIssues(names, p) != []
    ensures !Satisfies(names, p)
  {
    var c :| IsCycle(ActiveEdges(names, p), c);
    var r, _ := CycleBreaksRule(names, p, c);
    PositionalCheckExact(names, r);
  }

  // ----- which issues are reported

  /** What each issue says about the sequence and the policy. */
  ghost predicate Reported(names: seq<string>, p: Policy, issue: Issue) {
    match issue
    case BlankPolicyStage(s) =>
      Blank(s) && (s in p.required || s in p.forbidden || s in p.unique || p.first == Some(s))
    case InvalidRule =>
      exists r :: r in p.rules
        && (Blank(r.before) || Blank(r.after) || Blank(r.code) || Blank(r.message) || r.before == r.after)
    case ContradictoryStage(s) => !Blank(s) && s in p.forbidden && (s in p.required || p.first == Some(s))
    case RequiredMissing(s) => !Blank(s) && s in p.required && s !in names
    case ForbiddenPresent(s) => !Blank(s) && s in p.forbidden && s in names
    case UniqueDuplicated(s) =>
      !Blank(s) && s in p.unique && exists i, j :: 0 <= i < j < |names| && names[i] == names[j] == s
    case FirstMismatch(s) => !Blank(s) && p.first == Some(s) && (names == [] || names[0] != s)
    case RuleBroken(code, message, severity) =>
      exists r :: r in p.rules && ValidRule(r) && r.code == code && r.message == message && r.severity == severity
                  && Breaks(names, r)
    case OrderCycle(involving) =>
      && HasCycle(ActiveEdges(names, p))
      && StringOrder.IsAscending(involving)
      && forall v :: v in involving <==> v in Nodes(ActiveEdges(names, p)) && BehindCycle(ActiveEdges(names, p), v)
    case BlankStage(_) => false
    case PlanMismatch => false
  }

  /** Some `after` stands before a `before`, or one that is needed is missing. */
  ghost predicate Breaks(names: seq<string>, r: Rule) {
    || (exists i, j :: 0 <= i <= j < |names| && names[i] == r.after && names[j] == r.before)
    || (r.requireBoth && (r.before !in names || r.after !in names))
  }

  lemma BreaksIff(names: seq<string>, r: Rule)
    requires ValidRule(r)
    ensures RuleIssue(names)(r).Some? <==> Breaks(names, r)
    ensures RuleIssue(names)(r).Some? ==> RuleIssue(names)(r).value == RuleBroken(r.code, r.message, r.severity)
  {
    PositionalCheckExact(names, r);
    assert AllBefore(names, r.before, r.after) <==>
      !(exists i, j :: 0 <= i <= j < |names| && names[i] == r.after && names[j] == r.before);
  }

  lemma ShapeMember(p: Policy, issue: Issue)
    ensures issue in ShapeIssues(p) <==>
      || (issue.BlankPolicyStage? && Blank(issue.stage)
          && (issue.stage in p.required || issue.stage in p.forbidden || issue.stage in p.unique
              || p.first == Some(issue.stage)))
      || (issue.InvalidRule? && exists r :: r in p.rules && !ValidRule(r))
      || (issue.ContradictoryStage? && issue.stage in Contradictions(p))
  {
    hide Blank, ValidRule, Contradictions, FilterMap;
    var selectors := p.required + p.forbidden + p.unique;
    FilterMapMember(selectors, BlankSelector, issue);
    FilterMapMember(FirstOf(p), BlankSelector, issue);
    FilterMapMember(p.rules, MalformedRule, issue);
    FilterMapMember(StringOrder.Sorted(Contradictions(p)), (s: string) => Some(ContradictoryStage(s)), issue);
    assert forall s :: s in selectors <==> s in p.required || s in p.forbidden || s in p.unique;
    assert forall s :: s in FirstOf(p) <==> p.first == Some(s);
    if issue.BlankPolicyStage? {
      assert BlankSelector(issue.stage) == Some(issue) <==> Blank(issue.stage);
    }
    if issue.InvalidRule? {
      assert forall r :: MalformedRule(r) == Some(issue) <==> !ValidRule(r);
    }
  }

  lemma SelectionMember(names: seq<string>, p: Policy, issue: Issue)
    ensures issue in SelectionIssues(names, p) <==>
      || (issue.RequiredMissing? && issue.stage in p.required && !Blank(issue.stage) && issue.stage !in names)
      || (issue.ForbiddenPresent? && issue.stage in p.forbidden && !Blank(issue.stage) && issue.stage in names)
      || (issue.UniqueDuplicated? && issue.stage in p.unique && !Blank(issue.stage)
          && |Positions(names, issue.stage)| > 1)
      || (issue.FirstMismatch? && p.first == Some(issue.stage) && !Blank(issue.stage)
          && (names == [] || names[0] != issue.stage))
  {
    hide Blank, Positions, FilterMap;
    FilterMapMember(p.required, RequiredIssue(names), issue);
    FilterMapMember(p.forbidden, ForbiddenIssue(names), issue);
    FilterMapMember(p.unique, UniqueIssue(names), issue);
    FilterMapMember(FirstOf(p), FirstIssue(names), issue);
    assert forall s :: s in FirstOf(p) <==> p.first == Some(s);
    if issue.RequiredMissing? || issue.ForbiddenPresent? || issue.UniqueDuplicated? || issue.FirstMismatch? {
      var s := issue.stage;
      assert RequiredIssue(names)(s) == Some(issue) <==> issue.RequiredMissing? && !Blank(s) && s !in names;
      assert ForbiddenIssue(names)(s) == Some(issue) <==> issue.ForbiddenPresent? && !Blank(s) && s in names;
      assert UniqueIssue(names)(s) == Some(issue) <==>
        issue.UniqueDuplicated? && !Blank(s) && |Positions(names, s)| > 1;
      assert FirstIssue(names)(s) == Some(issue) <==>
        issue.FirstMismatch? && !Blank(s) && (names == [] || names[0] != s);
    }
  }

  lemma RuleMember(names: seq<string>, p: Policy, issue: Issue)
    ensures issue in FilterMap(p.rules, RuleIssue(names)) <==> issue.RuleBroken? && Reported(names, p, issue)
  {
    hide Breaks, ValidRule, FilterMap;
    FilterMapMember(p.rules, RuleIssue(names), issue);
    forall r | r in p.rules
      ensures RuleIssue(names)(r) == Some(issue) <==>
        ValidRule(r) && Breaks(names, r) && issue == RuleBroken(r.code, r.message, r.severity)
    {
      if ValidRule(r) {
        BreaksIff(names, r);
      }
    }
  }

  lemma CycleMember(names: seq<string>, p: Policy, issue: Issue)
    ensures issue in CycleIssues(names, p) <==> issue.OrderCycle? && Reported(names, p, issue)
  {
    hide HasCycle, BehindCycle, ActiveEdges, Nodes;
    var edges := ActiveEdges(names, p);
    var behind := set v | v in Nodes(edges) && BehindCycle(edges, v);
    var sorted := StringOrder.Sorted(behind);
    if issue.OrderCycle? && Reported(names, p, issue) {
      StringOrder.OneListing(issue.involving, sorted);
    }
  }

  /** An issue is in the list exactly when what it says is so. */
  lemma IssueIff(names: seq<string>, p: Policy, issue: Issue)
    ensures issue in ConsumerIssues(names, p) <==> Reported(names, p, issue)
  {
    hide ShapeIssues, SelectionIssues, FilterMap, CycleIssues, Positions, Blank, HasCycle, BehindCycle, Breaks;
    ShapeMember(p, issue);
    SelectionMember(names, p, issue);
    RuleMember(names, p, issue);
    CycleMember(names, p, issue);
    if issue.UniqueDuplicated? {
      UniqueExact(names, issue.stage);
    }
  }

  /** The policy's issues in the order they are found; none exactly when the sequence meets the policy. */
  method ValidateConsumerMiddlewareOrder(names: seq<string>, p: Policy) returns (issues: seq<Issue>)
    ensures issues == ConsumerIssues(names, p)
    ensures issues == [] <==> Satisfies(names, p)
  {
    hide Satisfies, ShapeIssues, SelectionIssues, FilterMap;
    var cycle := ActiveOrderCycleIssue(names, p);
    issues := ShapeIssues(p) + SelectionIssues(names, p) + FilterMap(p.rules, RuleIssue(names)) + cycle;
    AcceptsIff(names, p);
  }

  // ----- declared and running plans

  function PlanShapeIssues(plan: Plan): seq<Issue> {
    FilterMap(plan.stages, (s: string) => if Blank(s) then Some(BlankStage(s)) else None)
  }

  lemma BlankStages(plan: Plan, x: Issue)
    ensures x in PlanShapeIssues(plan) <==> x.BlankStage? && Blank(x.stage) && x.stage in plan.stages
  {
    hide Blank;
    FilterMapMember(plan.stages, (s: string) => if Blank(s) then Some(BlankStage(s)) else None, x);
  }

  lemma BlankStagesNone(plan: Plan)
    ensures PlanShapeIssues(plan) == [] <==> forall s :: s in plan.stages ==> !Blank(s)
  {
    hide Blank;
    FilterMapEmpty(plan.stages, (s: string) => if Blank(s) then Some(BlankStage(s)) else None);
  }

  /** Drift, blank stages and the policy's issues of the running stages, and nothing else. */
  method ValidateRuntimeMiddlewarePlan(actual: seq<string>, plan: Plan) returns (issues: seq<Issue>)
    ensures issues == [] <==>
      && actual == plan.stages
      && (forall s :: s in plan.stages ==> !Blank(s))
      && Satisfies(plan.stages, plan.policy)
    ensures forall x :: x in issues <==>
      || Reported(actual, plan.policy, x)
      || (x.PlanMismatch? && actual != plan.stages)
      || (x.BlankStage? && Blank(x.stage) && x.stage in plan.stages)
  {
    hide Reported, Blank, Satisfies, PlanShapeIssues, ConsumerIssues;
    var drift := if actual != plan.stages then [PlanMismatch] else [];
    var policy := ValidateConsumerMiddlewareOrder(actual, plan.policy);
    issues := PlanShapeIssues(plan) + policy + drift;
    forall x ensures x in policy <==> Reported(actual, plan.policy, x) {
      IssueIff(actual, plan.policy, x);
    }
    forall x ensures x in PlanShapeIssues(plan) <==> x.BlankStage? && Blank(x.stage) && x.stage in plan.stages {
      BlankStages(plan, x);
    }
    BlankStagesNone(plan);
    assert drift != [] ==> issues[|issues| - 1] == PlanMismatch;
  }
}
