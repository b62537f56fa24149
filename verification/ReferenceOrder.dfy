/** The closed reference profiles: which stage sequences their validators accept. */
module ReferenceOrder {
  import opened Prelude

  datatype Stage =
    | PanicBoundary | Deadline | RequestId | TraceContext | TrustedProxy | TransportSecurity | PayloadLimit
    | AnonymousFloodGuard | Authentication | PrincipalRateLimit | Authorization | Idempotency | QuotaAdmission
    | Handler | ResponseCompression | SecurityHeaders | TelemetryFinalize

  const DEFAULT_ORDER: seq<Stage> := [
    PanicBoundary, Deadline, RequestId, TraceContext, TrustedProxy, TransportSecurity, PayloadLimit,
    AnonymousFloodGuard, Authentication, PrincipalRateLimit, Authorization, Idempotency,
    Handler, ResponseCompression, SecurityHeaders, TelemetryFinalize]

  const BILLABLE_ORDER: seq<Stage> := [
    PanicBoundary, Deadline, RequestId, TraceContext, TrustedProxy, TransportSecurity, PayloadLimit,
    AnonymousFloodGuard, Authentication, PrincipalRateLimit, Authorization, Idempotency, QuotaAdmission,
    Handler, ResponseCompression, SecurityHeaders, TelemetryFinalize]

  datatype OrderRule = OrderRule(first: Stage, second: Stage, code: string)

  const ORDER_RULES: seq<OrderRule> := [
    OrderRule(RequestId, TraceContext, "request-id-before-trace"),
    OrderRule(TraceContext, TrustedProxy, "trace-before-proxy-policy"),
    OrderRule(TrustedProxy, TransportSecurity, "proxy-before-transport-policy"),
    OrderRule(TrustedProxy, AnonymousFloodGuard, "trusted-proxy-before-anonymous-identity"),
    OrderRule(PayloadLimit, Authentication, "payload-limit-before-authentication"),
    OrderRule(AnonymousFloodGuard, Authentication, "anonymous-guard-before-authentication"),
    OrderRule(Authentication, PrincipalRateLimit, "authentication-before-principal-rate-limit"),
    OrderRule(PrincipalRateLimit, Authorization, "principal-rate-limit-before-authorization"),
    OrderRule(Authorization, Handler, "authorization-before-handler"),
    OrderRule(Handler, ResponseCompression, "handler-before-response-compression"),
    OrderRule(SecurityHeaders, TelemetryFinalize, "security-headers-before-telemetry-finalize")]

  const QUOTA_ORDER_RULES: seq<OrderRule> := [
    OrderRule(Authorization, Idempotency, "authorization-before-idempotency"),
    OrderRule(Idempotency, QuotaAdmission, "idempotency-before-quota-admission"),
    OrderRule(QuotaAdmission, Handler, "quota-admission-before-handler")]

  datatype Violation = Violation(code: string)

  // ----- the validators

  /** First position of a stage. */
  function Position(stages: seq<Stage>, x: Stage): Option<nat> {
    if stages == [] then None
    else if stages[0] == x then Some(0)
    else match Position(stages[1..], x) case Some(i) => Some(i + 1) case None => None
  }

  function RequireFirst(stages: seq<Stage>, expected: Stage, code: string): seq<Violation> {
    if stages == [] || stages[0] != expected then [Violation(code)] else []
  }

  function RequireBefore(stages: seq<Stage>): OrderRule -> Option<Violation> {
    (r: OrderRule) =>
      match (Position(stages, r.first), Position(stages, r.second))
      case (Some(left), Some(right)) => if left < right then None else Some(Violation(r.code))
      case _ => Some(Violation(r.code))
  }

  /** One violation per position whose stage occurred before. */
  function Duplicates(stages: seq<Stage>): seq<Violation> {
    if stages == [] then []
    else
      var n := |stages| - 1;
      Duplicates(stages[..n]) + (if stages[n] in stages[..n] then [Violation("duplicate-stage")] else [])
  }

  function MissingFrom(stages: seq<Stage>): Stage -> Option<Violation> {
    (s: Stage) => if s in stages then None else Some(Violation("missing-stage"))
  }

  /** Neighbours in a table, as rules. */
  function Windows(table: seq<Stage>): seq<OrderRule> {
    if |table| < 2 then []
    else [OrderRule(table[0], table[1], "reviewed-stage-order")] + Windows(table[1..])
  }

  function Validate(table: seq<Stage>, rules: seq<OrderRule>, stages: seq<Stage>): seq<Violation> {
    Duplicates(stages)
    + FilterMap(table, MissingFrom(stages))
    + RequireFirst(stages, PanicBoundary, "panic-boundary-must-be-first")
    + FilterMap(rules, RequireBefore(stages))
    + FilterMap(Windows(table), RequireBefore(stages))
  }

  function ValidateMiddlewareOrder(stages: seq<Stage>): seq<Violation> {
    Validate(DEFAULT_ORDER, ORDER_RULES, stages)
  }

  function ValidateBillableQuotaMiddlewareOrder(stages: seq<Stage>): seq<Violation> {
    Validate(BILLABLE_ORDER, ORDER_RULES + QUOTA_ORDER_RULES, stages)
  }

  // ----- positions

  lemma {:induction false} PositionExact(stages: seq<Stage>, x: Stage)
    ensures Position(stages, x).Some? <==> x in stages
    ensures Position(stages, x).Some? ==>
      var i := Position(stages, x).value; i < |stages| && stages[i] == x && x !in stages[..i]
  {
    if stages == [] || stages[0] == x {
    } else {
      PositionExact(stages[1..], x);
      assert stages == [stages[0]] + stages[1..];
      var p := Position(stages[1..], x);
      if p.Some? {
        assert stages[..p.value + 1] == [stages[0]] + stages[1..][..p.value];
      }
    }
  }

  /** `a` first occurs before `b` first occurs. */
  ghost predicate Before(stages: seq<Stage>, a: Stage, b: Stage) {
    Position(stages, a).Some? && Position(stages, b).Some? && Position(stages, a).value < Position(stages, b).value
  }

  lemma {:induction false} DuplicatesExact(stages: seq<Stage>)
    ensures Duplicates(stages) == [] <==> Distinct(stages)
  {
    if stages == [] {
    } else {
      var n := |stages| - 1;
      DuplicatesExact(stages[..n]);
      if Distinct(stages[..n]) && stages[n] !in stages[..n] {
        forall i, j | 0 <= i < j < |stages| ensures stages[i] != stages[j] {
          assert stages[i] == stages[..n][i];
        }
      }
      if Distinct(stages) {
        assert Distinct(stages[..n]);
      }
    }
  }

  ghost predicate Chained(stages: seq<Stage>, table: seq<Stage>) {
    forall i, j :: 0 <= i < j < |table| ==> Before(stages, table[i], table[j])
  }

  lemma PositionTail(stages: seq<Stage>, x: Stage)
    requires stages != [] && x != stages[0]
    ensures Position(stages, x).Some? <==> Position(stages[1..], x).Some?
    ensures Position(stages, x).Some? ==> Position(stages, x).value == Position(stages[1..], x).value + 1
  {}

  /** Keeping stages keeps their order. */
  lemma {:induction false} KeepChained(stages: seq<Stage>, kept: set<Stage>)
    requires Distinct(stages)
    ensures Chained(stages, Keep(stages, kept))
  {
    if stages == [] {
    } else {
      var rest, k := stages[1..], Keep(stages[1..], kept);
      KeepChained(rest, kept);
      KeepMember(rest, kept);
      assert stages[0] !in rest;
      forall x | x in k ensures Position(stages, x).Some? && Position(stages, x).value > 0 {
        PositionExact(stages, x);
      }
      forall a, b | a in k && b in k && Before(rest, a, b) ensures Before(stages, a, b) {
        PositionTail(stages, a);
        PositionTail(stages, b);
      }
    }
  }

  /** A duplicate-free sequence with the table's stages in the table's order restricts to the table. */
  lemma {:induction false} ChainedKeep(stages: seq<Stage>, table: seq<Stage>, kept: set<Stage>)
    requires Distinct(stages) && Distinct(table) && kept == Elements(table)
    requires Chained(stages, table) && forall x :: x in table ==> x in stages
    ensures Keep(stages, kept) == table
    decreases |stages|
  {
    assert table != [] ==> table[0] in stages;
    if stages == [] {
    } else {
      var rest := stages[1..];
      assert stages == [stages[0]] + rest && stages[0] !in rest;
      if stages[0] in kept {
        assert Position(stages, stages[0]) == Some(0);
        FirstOfTable(stages, table);
        var tail := table[1..];
        assert table == [table[0]] + tail && table[0] !in tail;
        forall i, j | 0 <= i < j < |tail| ensures Before(stages, tail[i], tail[j]) {
          assert Before(stages, table[i + 1], table[j + 1]);
        }
        ChainedTail(stages, tail);
        forall x | x in tail ensures x in table && x in rest {
          assert x in [table[0]] + tail;
          assert x in stages;
        }
        ChainedKeep(rest, tail, Elements(tail));
        KeepSame(rest, kept, Elements(tail));
      } else {
        ChainedTail(stages, table);
        ChainedKeep(rest, table, kept);
      }
    }
  }

  lemma FirstOfTable(stages: seq<Stage>, table: seq<Stage>)
    requires Chained(stages, table) && stages != [] && stages[0] in table
    ensures table[0] == stages[0]
  {
    var j :| 0 <= j < |table| && table[j] == stages[0];
    assert Position(stages, stages[0]) == Some(0);
    assert j > 0 ==> Before(stages, table[0], table[j]);
  }

  lemma ChainedTail(stages: seq<Stage>, table: seq<Stage>)
    requires stages != [] && stages[0] !in table
    requires forall i, j :: 0 <= i < j < |table| ==> Before(stages, table[i], table[j])
    ensures Chained(stages[1..], table)
  {
    forall i, j | 0 <= i < j < |table| ensures Before(stages[1..], table[i], table[j]) {
      PositionTail(stages, table[i]);
      PositionTail(stages, table[j]);
    }
  }

  lemma {:induction false} KeepSame(stages: seq<Stage>, a: set<Stage>, b: set<Stage>)
    requires forall x :: x in stages ==> (x in a <==> x in b)
    ensures Keep(stages, a) == Keep(stages, b)
  {
    if stages == [] {
    } else {
      assert forall x :: x in stages[1..] ==> x in stages;
      KeepSame(stages[1..], a, b);
    }
  }

  // ----- neighbours in order are all in order

  lemma {:induction false} WindowsChained(stages: seq<Stage>, table: seq<Stage>)
    ensures (forall r :: r in Windows(table) ==> Before(stages, r.first, r.second)) <==> Chained(stages, table)
  {
    if |table| < 2 {
    } else {
      var tail := table[1..];
      WindowsChained(stages, tail);
      if forall r :: r in Windows(table) ==> Before(stages, r.first, r.second) {
        assert Windows(table)[0] in Windows(table);
        assert forall r :: r in Windows(tail) ==> r in Windows(table);
        forall i, j | 0 <= i < j < |table| ensures Before(stages, table[i], table[j]) {
          if i > 0 {
            assert Before(stages, tail[i - 1], tail[j - 1]);
          } else if j > 1 {
            assert Before(stages, tail[0], tail[j - 1]);
          }
        }
      }
      if Chained(stages, table) {
        assert Before(stages, table[0], table[1]);
        forall i, j | 0 <= i < j < |tail| ensures Before(stages, tail[i], tail[j]) {
          assert Before(stages, table[i + 1], table[j + 1]);
        }
      }
    }
  }

  /** Every rule points forward in the table. */
  ghost predicate Follow(rules: seq<OrderRule>, table: seq<Stage>) {
    forall r :: r in rules ==> exists i, j :: 0 <= i < j < |table| && table[i] == r.first && table[j] == r.second
  }

  lemma RequireBeforeExact(stages: seq<Stage>, rules: seq<OrderRule>)
    ensures FilterMap(rules, RequireBefore(stages)) == [] <==>
      forall r :: r in rules ==> Before(stages, r.first, r.second)
  {
    FilterMapEmpty(rules, RequireBefore(stages));
  }

  /** For any duplicate-free table that its rules follow: what the validator accepts. */
  lemma ValidateIff(table: seq<Stage>, rules: seq<OrderRule>, stages: seq<Stage>)
    requires Distinct(table) && Follow(rules, table)
    ensures Validate(table, rules, stages) == [] <==>
      && Distinct(stages) && stages != [] && stages[0] == PanicBoundary
      && Keep(stages, Elements(table)) == table
  {
    hide Keep, Windows, RequireBefore, Duplicates;
    DuplicatesExact(stages);
    FilterMapEmpty(table, MissingFrom(stages));
    RequireBeforeExact(stages, rules);
    RequireBeforeExact(stages, Windows(table));
    WindowsChained(stages, table);
    KeepMember(stages, Elements(table));
    if Distinct(stages) {
      KeepChained(stages, Elements(table));
      if Chained(stages, table) && forall x :: x in table ==> x in stages {
        ChainedKeep(stages, table, Elements(table));
      }
      if Keep(stages, Elements(table)) == table {
        forall r | r in rules ensures Before(stages, r.first, r.second) {
          var i, j :| 0 <= i < j < |table| && table[i] == r.first && table[j] == r.second;
          assert Before(stages, table[i], table[j]);
        }
      }
    }
  }

  function Rank(s: Stage): nat {
    match s
    case PanicBoundary => 0 case Deadline => 1 case RequestId => 2 case TraceContext => 3 case TrustedProxy => 4
    case TransportSecurity => 5 case PayloadLimit => 6 case AnonymousFloodGuard => 7 case Authentication => 8
    case PrincipalRateLimit => 9 case Authorization => 10 case Idempotency => 11 case QuotaAdmission => 12
    case Handler => 13 case ResponseCompression => 14 case SecurityHeaders => 15 case TelemetryFinalize => 16
  }

  lemma BillableTable()
    ensures |BILLABLE_ORDER| == 17 && Distinct(BILLABLE_ORDER)
    ensures forall s: Stage :: Rank(s) < 17 && BILLABLE_ORDER[Rank(s)] == s
    ensures forall i :: 0 <= i < 17 ==> Rank(BILLABLE_ORDER[i]) == i
  {
    hide Rank;
    BillableRank(0);
    forall i | 0 <= i < 17 ensures Rank(BILLABLE_ORDER[i]) == i {
      BillableRank(i);
    }
    forall s: Stage ensures Rank(s) < 17 && BILLABLE_ORDER[Rank(s)] == s {
      BillablePlace(s);
    }
  }

  lemma BillablePlace(s: Stage)
    ensures |BILLABLE_ORDER| == 17 && Rank(s) < 17 && BILLABLE_ORDER[Rank(s)] == s
  {}

  lemma BillableRank(i: nat)
    requires i < 17
    ensures |BILLABLE_ORDER| == 17 && Rank(BILLABLE_ORDER[i]) == i
  {}

  lemma DefaultPlace(s: Stage)
    requires s != QuotaAdmission
    ensures |DEFAULT_ORDER| == 16 && DEFAULT_ORDER[if Rank(s) < 12 then Rank(s) else Rank(s) - 1] == s
  {}

  lemma DefaultRank(i: nat)
    requires i < 16
    ensures |DEFAULT_ORDER| == 16 && Rank(DEFAULT_ORDER[i]) == (if i < 12 then i else i + 1)
  {}

  lemma DefaultTable()
    ensures |DEFAULT_ORDER| == 16 && Distinct(DEFAULT_ORDER)
    ensures forall s: Stage :: s in DEFAULT_ORDER <==> s != QuotaAdmission
    ensures forall s: Stage :: s != QuotaAdmission ==>
      DEFAULT_ORDER[if Rank(s) < 12 then Rank(s) else Rank(s) - 1] == s
  {
    assert Rank(QuotaAdmission) == 12;
    hide Rank;
    DefaultRank(0);
    forall i | 0 <= i < 16 ensures Rank(DEFAULT_ORDER[i]) == (if i < 12 then i else i + 1) {
      DefaultRank(i);
    }
    forall s: Stage | s != QuotaAdmission
      ensures DEFAULT_ORDER[if Rank(s) < 12 then Rank(s) else Rank(s) - 1] == s && s in DEFAULT_ORDER
    {
      DefaultPlace(s);
    }
  }

  lemma RulesAscend(r: OrderRule)
    requires r in ORDER_RULES + QUOTA_ORDER_RULES
    ensures Rank(r.first) < Rank(r.second)
    ensures r in ORDER_RULES ==> r.first != QuotaAdmission && r.second != QuotaAdmission
  {
    hide Rank;
    if r in ORDER_RULES {
      var i :| 0 <= i < |ORDER_RULES| && ORDER_RULES[i] == r;
      OrderRuleAscends(i);
    } else {
      assert r in QUOTA_ORDER_RULES;
      var i :| 0 <= i < |QUOTA_ORDER_RULES| && QUOTA_ORDER_RULES[i] == r;
      QuotaRuleAscends(i);
    }
  }

  lemma OrderRuleAscends(i: nat)
    requires i < |ORDER_RULES|
    ensures var r := ORDER_RULES[i];
      Rank(r.first) < Rank(r.second) && r.first != QuotaAdmission && r.second != QuotaAdmission
  {}

  lemma QuotaRuleAscends(i: nat)
    requires i < |QUOTA_ORDER_RULES|
    ensures Rank(QUOTA_ORDER_RULES[i].first) < Rank(QUOTA_ORDER_RULES[i].second)
  {}

  lemma FollowBillable()
    ensures Follow(ORDER_RULES + QUOTA_ORDER_RULES, BILLABLE_ORDER)
  {
    BillableTable();
    forall r | r in ORDER_RULES + QUOTA_ORDER_RULES
      ensures exists i, j :: 0 <= i < j < |BILLABLE_ORDER| && BILLABLE_ORDER[i] == r.first && BILLABLE_ORDER[j] == r.second
    {
      RulesAscend(r);
      assert BILLABLE_ORDER[Rank(r.first)] == r.first && BILLABLE_ORDER[Rank(r.second)] == r.second;
    }
  }

  lemma FollowDefault()
    ensures Follow(ORDER_RULES, DEFAULT_ORDER)
  {
    DefaultTable();
    forall r | r in ORDER_RULES
      ensures exists i, j :: 0 <= i < j < |DEFAULT_ORDER| && DEFAULT_ORDER[i] == r.first && DEFAULT_ORDER[j] == r.second
    {
      assert r in ORDER_RULES + QUOTA_ORDER_RULES;
      RulesAscend(r);
      var i := if Rank(r.first) < 12 then Rank(r.first) else Rank(r.first) - 1;
      var j := if Rank(r.second) < 12 then Rank(r.second) else Rank(r.second) - 1;
      assert DEFAULT_ORDER[i] == r.first && DEFAULT_ORDER[j] == r.second && i < j;
    }
  }

  /** The billable validator accepts its table and nothing else. */
  lemma BillableAcceptsIff(stages: seq<Stage>)
    ensures ValidateBillableQuotaMiddlewareOrder(stages) == [] <==> stages == BILLABLE_ORDER
  {
    hide Validate, Follow, Keep, Rank;
    BillableTable();
    FollowBillable();
    ValidateIff(BILLABLE_ORDER, ORDER_RULES + QUOTA_ORDER_RULES, stages);
    forall s: Stage ensures s in Elements(BILLABLE_ORDER) {
      assert BILLABLE_ORDER[Rank(s)] in BILLABLE_ORDER;
    }
    KeepAll(stages, Elements(BILLABLE_ORDER));
  }

  /** The stages other than quota admission. */
  function WithoutQuota(stages: seq<Stage>): seq<Stage> {
    if stages == [] then []
    else (if stages[0] == QuotaAdmission then [] else [stages[0]]) + WithoutQuota(stages[1..])
  }

  lemma {:induction false} WithoutQuotaKeeps(stages: seq<Stage>)
    ensures WithoutQuota(stages) == Keep(stages, Elements(DEFAULT_ORDER))
  {
    DefaultTable();
    if stages == [] {
    } else {
      WithoutQuotaKeeps(stages[1..]);
    }
  }

  /**
   The default validator accepts the duplicate-free sequences that start with the panic boundary
   and are its table once quota admission, which it does not look for, is dropped.
   */
  lemma DefaultAcceptsIff(stages: seq<Stage>)
    ensures ValidateMiddlewareOrder(stages) == [] <==>
      && Distinct(stages) && stages != [] && stages[0] == PanicBoundary
      && WithoutQuota(stages) == DEFAULT_ORDER
  {
    hide Validate, Follow, Keep, WithoutQuota;
    DefaultTable();
    FollowDefault();
    ValidateIff(DEFAULT_ORDER, ORDER_RULES, stages);
    WithoutQuotaKeeps(stages);
  }

  lemma {:induction false} WithoutQuotaJoins(a: seq<Stage>, b: seq<Stage>)
    ensures WithoutQuota(a + b) == WithoutQuota(a) + WithoutQuota(b)
  {
    if a == [] {
      assert a + b == b;
    } else {
      assert (a + b)[1..] == a[1..] + b;
      WithoutQuotaJoins(a[1..], b);
    }
  }

  lemma {:induction false} WithoutQuotaSame(stages: seq<Stage>)
    requires QuotaAdmission !in stages
    ensures WithoutQuota(stages) == stages
  {
    if stages == [] {
    } else {
      WithoutQuotaSame(stages[1..]);
      assert stages == [stages[0]] + stages[1..];
    }
  }

  /** Quota admission is accepted at every place after the panic boundary, the last one included. */
  lemma QuotaAnywhere(before: seq<Stage>, after: seq<Stage>)
    requires before + after == DEFAULT_ORDER && before != []
    ensures ValidateMiddlewareOrder(before + [QuotaAdmission] + after) == []
  {
    hide ValidateMiddlewareOrder, WithoutQuota, Rank;
    DefaultTable();
    assert before[0] == (before + after)[0];
    QuotaDropped(before, after);
    InsertDistinct(before, QuotaAdmission, after);
    DefaultAcceptsIff(before + [QuotaAdmission] + after);
  }

  /** In particular at the very end, after the handler. */
  lemma QuotaLast()
    ensures ValidateMiddlewareOrder(DEFAULT_ORDER + [QuotaAdmission]) == []
  {
    hide ValidateMiddlewareOrder, Rank;
    assert DEFAULT_ORDER + [] == DEFAULT_ORDER;
    assert DEFAULT_ORDER + [QuotaAdmission] + [] == DEFAULT_ORDER + [QuotaAdmission];
    QuotaAnywhere(DEFAULT_ORDER, []);
  }

  lemma QuotaDropped(before: seq<Stage>, after: seq<Stage>)
    requires QuotaAdmission !in before + after
    ensures WithoutQuota(before + [QuotaAdmission] + after) == before + after
  {
    assert QuotaAdmission !in before && QuotaAdmission !in after;
    hide WithoutQuota;
    WithoutQuotaJoins(before + [QuotaAdmission], after);
    WithoutQuotaJoins(before, [QuotaAdmission]);
    WithoutQuotaSame(before);
    WithoutQuotaSame(after);
    QuotaAlone();
    assert before + [] == before;
  }

  lemma QuotaAlone()
    ensures WithoutQuota([QuotaAdmission]) == []
  {
    assert [QuotaAdmission][1..] == [];
  }

  lemma InsertDistinct(before: seq<Stage>, x: Stage, after: seq<Stage>)
    requires Distinct(before + after) && x !in before + after
    ensures Distinct(before + [x] + after)
  {
    var all, more := before + after, before + [x] + after;
    assert forall k :: 0 <= k < |more| && k != |before| ==> more[k] == all[if k < |before| then k else k - 1];
  }

  // ----- which violations are reported

  /** Both stages occur, and the first occurrence of `a` comes before any of `b`. */
  ghost predicate InOrder(stages: seq<Stage>, a: Stage, b: Stage) {
    b in stages && exists i :: 0 <= i < |stages| && stages[i] == a && b !in stages[..i + 1]
  }

  lemma InOrderIff(stages: seq<Stage>, r: OrderRule)
    ensures RequireBefore(stages)(r) == if InOrder(stages, r.first, r.second) then None else Some(Violation(r.code))
  {
    hide Position;
    PositionExact(stages, r.first);
    PositionExact(stages, r.second);
    var p, q := Position(stages, r.first), Position(stages, r.second);
    if p.Some? && q.Some? && p.value < q.value {
      var i := p.value;
      assert r.second !in stages[..i + 1] by {
        assert forall j :: 0 <= j < i + 1 ==> stages[..i + 1][j] == stages[..q.value][j];
      }
    }
    if InOrder(stages, r.first, r.second) {
      var i :| 0 <= i < |stages| && stages[i] == r.first && r.second !in stages[..i + 1];
      FirstBefore(stages, r.first, r.second, i);
    }
  }

  lemma FirstBefore(stages: seq<Stage>, a: Stage, b: Stage, i: nat)
    requires i < |stages| && stages[i] == a && b in stages && b !in stages[..i + 1]
    ensures Position(stages, a).Some? && Position(stages, b).Some?
    ensures Position(stages, a).value < Position(stages, b).value
  {
    PositionExact(stages, a);
    PositionExact(stages, b);
  }

  lemma {:induction false} WindowsMember(table: seq<Stage>, r: OrderRule)
    ensures r in Windows(table) <==>
      exists i :: 0 <= i < |table| - 1 && r == OrderRule(table[i], table[i + 1], "reviewed-stage-order")
  {
    if |table| < 2 {
    } else {
      var rest := table[1..];
      WindowsMember(rest, r);
      assert forall i :: 0 <= i < |rest| ==> rest[i] == table[i + 1];
      if r in Windows(rest) {
        var i :| 0 <= i < |rest| - 1 && r == OrderRule(rest[i], rest[i + 1], "reviewed-stage-order");
        assert r == OrderRule(table[i + 1], table[i + 1 + 1], "reviewed-stage-order");
      }
      if exists i :: 0 <= i < |table| - 1 && r == OrderRule(table[i], table[i + 1], "reviewed-stage-order") {
        var i :| 0 <= i < |table| - 1 && r == OrderRule(table[i], table[i + 1], "reviewed-stage-order");
        if i > 0 {
          assert r == OrderRule(rest[i - 1], rest[i - 1 + 1], "reviewed-stage-order");
        }
      }
    }
  }

  lemma {:induction false} DuplicatesAre(stages: seq<Stage>)
    ensures forall v :: v in Duplicates(stages) ==> v == Violation("duplicate-stage")
    ensures |Duplicates(stages)| <= |stages|
  {
    if stages == [] {
    } else {
      DuplicatesAre(stages[..|stages| - 1]);
    }
  }

  lemma RulesMember(rules: seq<OrderRule>, stages: seq<Stage>, v: Violation)
    ensures v in FilterMap(rules, RequireBefore(stages)) <==>
      exists r :: r in rules && r.code == v.code && !InOrder(stages, r.first, r.second)
  {
    hide InOrder, FilterMap, RequireBefore;
    FilterMapMember(rules, RequireBefore(stages), v);
    forall r ensures RequireBefore(stages)(r) == Some(v) <==> r.code == v.code && !InOrder(stages, r.first, r.second) {
      InOrderIff(stages, r);
    }
  }

  lemma DuplicatesMember(stages: seq<Stage>, v: Violation)
    ensures v in Duplicates(stages) <==> v.code == "duplicate-stage" && !Distinct(stages)
  {
    hide Duplicates, Distinct;
    DuplicatesExact(stages);
    DuplicatesAre(stages);
    if Duplicates(stages) != [] {
      assert Duplicates(stages)[0] in Duplicates(stages);
    }
  }

  lemma MissingMember(table: seq<Stage>, stages: seq<Stage>, v: Violation)
    ensures v in FilterMap(table, MissingFrom(stages)) <==>
      v.code == "missing-stage" && exists s :: s in table && s !in stages
  {
    hide FilterMap;
    FilterMapMember(table, MissingFrom(stages), v);
  }

  lemma WindowRules(table: seq<Stage>, stages: seq<Stage>, v: Violation)
    ensures v in FilterMap(Windows(table), RequireBefore(stages)) <==>
      v.code == "reviewed-stage-order" && exists i :: 0 <= i < |table| - 1 && !InOrder(stages, table[i], table[i + 1])
  {
    hide InOrder, FilterMap, RequireBefore, Windows;
    RulesMember(Windows(table), stages, v);
    if v in FilterMap(Windows(table), RequireBefore(stages)) {
      var r :| r in Windows(table) && r.code == v.code && !InOrder(stages, r.first, r.second);
      WindowsMember(table, r);
    }
    if exists i :: 0 <= i < |table| - 1 && !InOrder(stages, table[i], table[i + 1]) {
      var i :| 0 <= i < |table| - 1 && !InOrder(stages, table[i], table[i + 1]);
      WindowsMember(table, OrderRule(table[i], table[i + 1], "reviewed-stage-order"));
    }
  }

  /** A violation is reported exactly when what it says is so. */
  lemma ViolationIff(table: seq<Stage>, rules: seq<OrderRule>, stages: seq<Stage>, v: Violation)
    ensures v in Validate(table, rules, stages) <==>
      || (v.code == "duplicate-stage" && !Distinct(stages))
      || (v.code == "missing-stage" && exists s :: s in table && s !in stages)
      || (v.code == "panic-boundary-must-be-first" && (stages == [] || stages[0] != PanicBoundary))
      || (exists r :: r in rules && r.code == v.code && !InOrder(stages, r.first, r.second))
      || (v.code == "reviewed-stage-order"
          && exists i :: 0 <= i < |table| - 1 && !InOrder(stages, table[i], table[i + 1]))
  {
    hide Duplicates, FilterMap, InOrder, Windows, MissingFrom, RequireBefore, Distinct;
    DuplicatesMember(stages, v);
    MissingMember(table, stages, v);
    RulesMember(rules, stages, v);
    WindowRules(table, stages, v);
  }
}
