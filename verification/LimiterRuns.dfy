/** What callers of the limiter observe over whole runs. */
module LimiterRuns {
  import opened Prelude
  import opened LimiterSpec

  // ----- arithmetic

  lemma AccruedAdds(a: real, b: real, refill: real)
    ensures Accrued(a, refill) + Accrued(b, refill) == Accrued(a + b, refill)
  {
    assert (a + b) * refill == a * refill + b * refill;
  }

  lemma AccruedMonotone(a: real, b: real, refill: real)
    requires a <= b && refill >= 0.0
    ensures Accrued(a, refill) <= Accrued(b, refill)
  {
    assert (b - a) * refill >= 0.0;
    assert b * refill == a * refill + (b - a) * refill;
  }

  lemma AccruedZero(refill: real)
    ensures Accrued(0.0, refill) == 0.0
  {}

  lemma AccruedPositive(ms: real, refill: real)
    requires ms > 0.0 && refill > 0.0
    ensures Accrued(ms, refill) > 0.0
  {
    assert ms * refill > 0.0;
  }

  lemma CeilBounds(x: real)
    ensures x <= Ceil(x) as real < x + 1.0
  {}

  /** The reported wait is the least whole number of milliseconds that suffices. */
  lemma MillisecondsUntilExact(tokens: real, refill: real)
    requires refill > 0.0 && tokens > 0.0
    requires MillisecondsUntil(tokens, refill) < U64_MAX
    ensures var ms := MillisecondsUntil(tokens, refill);
      ms >= 1 && Accrued(ms as real, refill) >= tokens && Accrued(ms as real - 1.0, refill) < tokens
  {
    var x := tokens / refill * 1000.0;
    assert tokens / refill > 0.0;
    assert x > 0.0;
    CeilBounds(x);
    var ms := MillisecondsUntil(tokens, refill);
    assert ms == Ceil(x);
    assert Accrued(x, refill) == tokens by {
      assert tokens / refill * refill == tokens;
      assert x * refill == tokens / refill * refill * 1000.0;
    }
    AccruedMonotone(x, ms as real, refill);
    AccruedAdds(ms as real - 1.0, x - (ms as real - 1.0), refill);
    AccruedPositive(x - (ms as real - 1.0), refill);
  }

  // ----- admission over time

  ghost predicate SamePolicy(rs: seq<Request>, k: Key, capacity: nat, refill: real) {
    forall r :: r in rs && r.key == k ==> r.capacity == capacity && r.refill == refill
  }

  ghost predicate Allowed(o: Outcome) {
    o.Ok? && o.value.allowed
  }

  /** Total cost admitted for `k` over a run. */
  ghost function Admitted(b: Bounds, s: Lru, rs: seq<Request>, k: Key): nat
    decreases |rs|
  {
    if rs == [] then 0
    else
      (if rs[0].key == k && Allowed(Consume(b, s, rs[0]).0) then rs[0].cost else 0)
      + Admitted(b, Consume(b, s, rs[0]).1, rs[1..], k)
  }

  /** A request forgets `k`: it had a bucket and none is left when buckets are looked up. */
  ghost predicate Forgets(b: Bounds, s: Lru, r: Request, k: Key) {
    ValidBounds(b) && ValidRequest(r) && k in s.cells && k !in Prepared(b, s, r).cells
  }

  /** How often a run forgets `k`, by idling or by eviction. */
  ghost function Removals(b: Bounds, s: Lru, rs: seq<Request>, k: Key): nat
    decreases |rs|
  {
    if rs == [] then 0
    else (if Forgets(b, s, rs[0], k) then 1 else 0) + Removals(b, Consume(b, s, rs[0]).1, rs[1..], k)
  }

  lemma PreparedCells(b: Bounds, s: Lru, r: Request, k: Key)
    ensures k in Prepared(b, s, r).cells ==> k in s.cells && Prepared(b, s, r).cells[k] == s.cells[k]
  {}

  /** Requests on other keys leave the bucket of `k` alone or forget it. */
  lemma OtherKey(b: Bounds, s: Lru, r: Request, k: Key)
    requires r.key != k
    ensures var t := Consume(b, s, r).1;
      if Forgets(b, s, r, k) then k !in t.cells
      else (k in t.cells <==> k in s.cells) && (k in s.cells ==> t.cells[k] == s.cells[k])
  {
    PreparedCells(b, s, r, k);
  }

  /** Buckets hold no debt and were stored at or before `clock`. */
  ghost predicate Past(s: Lru, clock: real) {
    forall k :: k in s.cells ==> s.cells[k].tokens >= 0.0 && s.cells[k].seen <= clock
  }

  lemma PastStep(b: Bounds, s: Lru, r: Request, clock: real)
    requires Past(s, clock) && clock <= r.now
    ensures Past(s, r.now) && Past(Consume(b, s, r).1, r.now)
  {
    if ValidBounds(b) && ValidRequest(r) && r.key in s.cells {
      AccruedMonotone(0.0, Elapsed(s.cells[r.key].seen, r.now), r.refill);
    }
  }

  /** Tokens that `k` could spend at `clock`. */
  ghost function Stock(s: Lru, k: Key, clock: real, capacity: nat, refill: real): real {
    if k in s.cells then Refilled(s.cells[k], clock, capacity, refill) else capacity as real
  }

  lemma StockGrows(s: Lru, k: Key, clock: real, later: real, capacity: nat, refill: real)
    requires Past(s, clock) && clock <= later && refill > 0.0
    ensures 0.0 <= Stock(s, k, later, capacity, refill) <= capacity as real
    ensures Stock(s, k, later, capacity, refill)
         <= Stock(s, k, clock, capacity, refill) + Accrued(later - clock, refill)
  {
    AccruedMonotone(0.0, later - clock, refill);
    if k in s.cells {
      var seen := s.cells[k].seen;
      AccruedMonotone(0.0, later - seen, refill);
      AccruedAdds(clock - seen, later - clock, refill);
    }
  }

  /** What a request draws for `k` comes out of the stock, or out of a forgotten bucket. */
  lemma DrawStep(b: Bounds, s: Lru, r: Request, k: Key, capacity: nat, refill: real)
    requires Past(s, r.now) && refill > 0.0
    requires r.key == k ==> r.capacity == capacity && r.refill == refill
    ensures var (o, t) := Consume(b, s, r);
      (if r.key == k && Allowed(o) then r.cost else 0) as real + Stock(t, k, r.now, capacity, refill)
      <= Stock(s, k, r.now, capacity, refill) + (if Forgets(b, s, r, k) then capacity as real else 0.0)
  {
    StockGrows(s, k, r.now, r.now, capacity, refill);
    PreparedCells(b, s, r, k);
    if r.key != k {
      OtherKey(b, s, r, k);
    } else {
      assert Accrued(0.0, refill) == 0.0;
    }
  }

  /** Capacity handed out again by the removals of `k` over a run. */
  ghost function Renewed(b: Bounds, s: Lru, rs: seq<Request>, k: Key, capacity: nat): nat
    decreases |rs|
  {
    if rs == [] then 0
    else
      (if Forgets(b, s, rs[0], k) then capacity else 0)
      + Renewed(b, Consume(b, s, rs[0]).1, rs[1..], k, capacity)
  }

  ghost function Times(n: nat, capacity: nat): (p: nat)
    ensures p == n * capacity
  {
    if n == 0 then 0 else capacity + Times(n - 1, capacity)
  }

  lemma {:induction false} RenewedPerRemoval(
    b: Bounds, s: Lru, rs: seq<Request>, k: Key, capacity: nat)
    ensures Renewed(b, s, rs, k, capacity) == Times(Removals(b, s, rs, k), capacity)
    decreases |rs|
  {
    hide Consume, Forgets;
    if rs == [] {
    } else {
      RenewedPerRemoval(b, Consume(b, s, rs[0]).1, rs[1..], k, capacity);
    }
  }

  lemma {:induction false} DrawRun(
    b: Bounds, s: Lru, clock: real, rs: seq<Request>, k: Key, capacity: nat, refill: real)
    requires Past(s, clock) && Monotone(clock, rs) && refill > 0.0
    requires SamePolicy(rs, k, capacity, refill)
    ensures Admitted(b, s, rs, k) as real
         <= Stock(s, k, clock, capacity, refill) + Accrued(LastTime(clock, rs) - clock, refill)
            + Renewed(b, s, rs, k, capacity) as real
    decreases |rs|
  {
    StockGrows(s, k, clock, clock, capacity, refill);
    if rs == [] {
    } else {
      DrawRunStep(b, s, clock, rs, k, capacity, refill);
      DrawRun(b, Consume(b, s, rs[0]).1, rs[0].now, rs[1..], k, capacity, refill);
    }
  }

  lemma DrawRunStep(
    b: Bounds, s: Lru, clock: real, rs: seq<Request>, k: Key, capacity: nat, refill: real)
    requires Past(s, clock) && Monotone(clock, rs) && refill > 0.0 && rs != []
    requires SamePolicy(rs, k, capacity, refill)
    ensures var (o, t) := Consume(b, s, rs[0]);
      var end := LastTime(clock, rs);
      && Past(t, rs[0].now)
      && (if rs[0].key == k && Allowed(o) then rs[0].cost else 0) as real
         + Stock(t, k, rs[0].now, capacity, refill) + Accrued(end - rs[0].now, refill)
         <= Stock(s, k, clock, capacity, refill) + Accrued(end - clock, refill)
            + (if Forgets(b, s, rs[0], k) then capacity as real else 0.0)
  {
    var r := rs[0];
    var end := LastTime(clock, rs);
    PastStep(b, s, r, clock);
    DrawStep(b, s, r, k, capacity, refill);
    StockGrows(s, k, clock, r.now, capacity, refill);
    AccruedAdds(r.now - clock, end - r.now, refill);
  }

  /**
   In any window of any run, a key with a fixed capacity and refill is admitted at most one
   capacity per life of its bucket plus what flowed in during the window. A window that never
   forgets the key admits at most `capacity + refill * length`.
   */
  lemma AdmissionBound(
    b: Bounds, s: Lru, clock: real, rs: seq<Request>, k: Key, capacity: nat, refill: real)
    requires Past(s, clock) && Monotone(clock, rs) && rs != [] && refill > 0.0
    requires SamePolicy(rs, k, capacity, refill)
    ensures Admitted(b, s, rs, k) as real
         <= ((1 + Removals(b, s, rs, k)) * capacity) as real
            + Accrued(LastTime(clock, rs) - rs[0].now, refill)
  {
    hide Consume, Accrued, Stock;
    PastStep(b, s, rs[0], clock);
    StockGrows(s, k, rs[0].now, rs[0].now, capacity, refill);
    DrawRun(b, s, rs[0].now, rs, k, capacity, refill);
    RenewedPerRemoval(b, s, rs, k, capacity);
    assert Times(1 + Removals(b, s, rs, k), capacity) == capacity + Renewed(b, s, rs, k, capacity);
  }

  // ----- retry and reset hints

  ghost predicate AvoidsKey(rs: seq<Request>, k: Key) {
    forall r :: r in rs ==> r.key != k
  }

  /** Requests on other keys either leave the bucket of `k` as it was or remove it. */
  lemma {:induction false} UntouchedRun(b: Bounds, s: Lru, rs: seq<Request>, k: Key)
    requires AvoidsKey(rs, k)
    ensures var t := Final(b, s, rs);
      k in t.cells ==> k in s.cells && t.cells[k] == s.cells[k]
    decreases |rs|
  {
    if rs == [] {
    } else {
      OtherKey(b, s, rs[0], k);
      UntouchedRun(b, Consume(b, s, rs[0]).1, rs[1..], k);
    }
  }

  /**
   A denial at `r.now` reporting `wait`: whatever other keys do meanwhile, the same request is
   allowed from `r.now + wait` on; up to `r.now + wait - 1` it is allowed exactly when its bucket
   has been forgotten by then.
   */
  lemma RetryAfterExact(b: Bounds, s: Lru, r: Request, others: seq<Request>, later: real)
    requires ValidBounds(b) && ValidRequest(r)
    requires var o := Consume(b, s, r).0;
      !o.value.allowed && o.value.retryAfterMs.Some? && o.value.retryAfterMs.value < U64_MAX
    requires AvoidsKey(others, r.key) && r.now <= later
    ensures var (o, t) := Consume(b, s, r);
      var wait := o.value.retryAfterMs.value as real;
      var again := r.(now := later);
      var mid := Final(b, t, others);
      && (later >= r.now + wait ==> Allowed(Consume(b, mid, again).0))
      && (later <= r.now + wait - 1.0 ==>
            (Allowed(Consume(b, mid, again).0) <==> r.key !in Prepared(b, mid, again).cells))
  {
    var (o, t) := Consume(b, s, r);
    var left := t.cells[r.key].tokens;
    var wait := o.value.retryAfterMs.value;
    var again := r.(now := later);
    var mid := Final(b, t, others);
    UntouchedRun(b, t, others, r.key);
    PreparedCells(b, mid, again, r.key);
    MillisecondsUntilExact(r.cost as real - left, r.refill);
    if r.key in Prepared(b, mid, again).cells {
      if later >= r.now + wait as real {
        AccruedMonotone(wait as real, later - r.now, r.refill);
      }
      if later <= r.now + wait as real - 1.0 {
        AccruedMonotone(later - r.now, wait as real - 1.0, r.refill);
      }
    }
  }

  /** Every decision reports when its bucket, left alone, is full again: then and no sooner. */
  lemma ResetAfterExact(b: Bounds, s: Lru, r: Request, later: real)
    requires ValidBounds(b) && ValidRequest(r) && r.now <= later
    requires var o := Consume(b, s, r).0;
      o.value.resetAfterMs.Some? && o.value.resetAfterMs.value < U64_MAX
    ensures var (o, t) := Consume(b, s, r);
      var reset := o.value.resetAfterMs.value as real;
      var full := Refilled(t.cells[r.key], later, r.capacity, r.refill) == r.capacity as real;
      && (later >= r.now + reset ==> full)
      && (later <= r.now + reset - 1.0 ==> !full)
  {
    var (o, t) := Consume(b, s, r);
    var left := t.cells[r.key].tokens;
    var reset := o.value.resetAfterMs.value;
    assert left <= r.capacity as real;
    if left < r.capacity as real {
      MillisecondsUntilExact(r.capacity as real - left, r.refill);
      if later >= r.now + reset as real {
        AccruedMonotone(reset as real, later - r.now, r.refill);
      }
      if later <= r.now + reset as real - 1.0 {
        AccruedMonotone(later - r.now, reset as real - 1.0, r.refill);
      }
    } else {
      AccruedMonotone(0.0, later - r.now, r.refill);
    }
  }

  // ----- the list is the history

  lemma {:induction false} FinalSnoc(b: Bounds, s: Lru, rs: seq<Request>, r: Request)
    ensures Final(b, s, rs + [r]) == Consume(b, Final(b, s, rs), r).1
    decreases |rs|
  {
    if rs == [] {
      assert Final(b, s, [r]) == Final(b, Consume(b, s, r).1, []);
    } else {
      assert (rs + [r])[1..] == rs[1..] + [r];
      FinalSnoc(b, Consume(b, s, rs[0]).1, rs[1..], r);
    }
  }

  /** Position of the last well-formed request on `k`, or -1. */
  ghost function LastUse(rs: seq<Request>, k: Key): (i: int)
    ensures i < |rs|
  {
    if rs == [] then -1
    else if rs[|rs| - 1].key == k && ValidRequest(rs[|rs| - 1]) then |rs| - 1
    else LastUse(rs[..|rs| - 1], k)
  }

  ghost predicate Ranked(order: seq<Key>, rs: seq<Request>) {
    forall i, j :: 0 <= i < j < |order| ==> LastUse(rs, order[i]) < LastUse(rs, order[j])
  }

  lemma {:induction false} KeepRanked(order: seq<Key>, keys: set<Key>, rs: seq<Request>)
    requires Ranked(order, rs)
    ensures Ranked(Keep(order, keys), rs)
  {
    if order == [] {
    } else {
      KeepRanked(order[1..], keys, rs);
      KeepMember(order[1..], keys);
      assert forall k :: k in order[1..] ==> LastUse(rs, order[0]) < LastUse(rs, k);
    }
  }

  lemma PreparedRanked(b: Bounds, s: Lru, r: Request, rs: seq<Request>)
    requires Ranked(s.order, rs)
    ensures Ranked(Prepared(b, s, r).order, rs)
  {
    KeepRanked(s.order, Expire(s, r.now, b.ttl).cells.Keys, rs);
  }

  lemma LastUseSnoc(rs: seq<Request>, r: Request, k: Key)
    ensures LastUse(rs + [r], k)
         == if r.key == k && ValidRequest(r) then |rs| else LastUse(rs, k)
  {
    assert (rs + [r])[..|rs|] == rs;
  }

  /** In every run from the empty store the list is sorted by last use. */
  lemma {:induction false} OrderIsHistory(b: Bounds, rs: seq<Request>)
    ensures Ranked(Final(b, EMPTY, rs).order, rs)
    ensures !ValidBounds(b) ==> Final(b, EMPTY, rs) == EMPTY
  {
    if rs == [] {
    } else {
      var past, r := rs[..|rs| - 1], rs[|rs| - 1];
      assert rs == past + [r];
      var s := Final(b, EMPTY, past);
      OrderIsHistory(b, past);
      FinalSnoc(b, EMPTY, past, r);
      forall k ensures LastUse(rs, k) == if r.key == k && ValidRequest(r) then |past| else LastUse(past, k) {
        LastUseSnoc(past, r, k);
      }
      if ValidBounds(b) && ValidRequest(r) {
        var ready := Prepared(b, s, r);
        PreparedRanked(b, s, r, past);
        KeepRanked(ready.order, ready.cells.Keys - {r.key}, past);
        KeepMember(ready.order, ready.cells.Keys - {r.key});
        var kept := Keep(ready.order, ready.cells.Keys - {r.key});
        assert forall i :: 0 <= i < |kept| ==> kept[i] != r.key && LastUse(rs, kept[i]) < |past|;
        assert Final(b, EMPTY, rs).order == kept + [r.key];
      }
    }
  }

  /** In every run, a key evicted for room is the one used longest ago among those not idle. */
  lemma EvictsLeastRecentlyUsed(b: Bounds, rs: seq<Request>, r: Request, victim: Key, other: Key)
    requires ValidBounds(b)
    requires var awake := Expire(Final(b, EMPTY, rs), r.now, b.ttl);
      && victim in awake.cells && victim !in Prepared(b, Final(b, EMPTY, rs), r).cells
      && other in awake.cells && other != victim
    ensures LastUse(rs, victim) < LastUse(rs, other)
    ensures other in Prepared(b, Final(b, EMPTY, rs), r).cells
  {
    var s := Final(b, EMPTY, rs);
    var awake := Expire(s, r.now, b.ttl);
    OrderIsHistory(b, rs);
    KeepRanked(s.order, awake.cells.Keys, rs);
    RunKeepsBound(b, EMPTY, rs);
    ExpireWf(s, r.now, b.ttl);
    assert awake.order[0] == victim;
  }

  // ----- bursts

  ghost function RustDecisions(b: Bounds, s: Lru, rs: seq<Request>): seq<bool>
    decreases |rs|
  {
    if rs == [] then []
    else [Allowed(Consume(b, s, rs[0]).0)] + RustDecisions(b, Consume(b, s, rs[0]).1, rs[1..])
  }

  ghost predicate AllTrue(ds: seq<bool>) {
    forall i :: 0 <= i < |ds| ==> ds[i]
  }

  ghost function Copies(r: Request, n: nat): seq<Request> {
    if n == 0 then [] else [r] + Copies(r, n - 1)
  }

  lemma {:induction false} RustConcat(b: Bounds, s: Lru, xs: seq<Request>, ys: seq<Request>)
    ensures RustDecisions(b, s, xs + ys) == RustDecisions(b, s, xs) + RustDecisions(b, Final(b, s, xs), ys)
    decreases |xs|
  {
    hide Consume;
    if xs == [] {
      assert xs + ys == ys;
    } else {
      assert (xs + ys)[1..] == xs[1..] + ys;
      RustConcat(b, Consume(b, s, xs[0]).1, xs[1..], ys);
    }
  }

  lemma CopiesHead(r: Request, n: nat)
    requires n > 0
    ensures Copies(r, n)[0] == r && Copies(r, n)[1..] == Copies(r, n - 1)
  {}

  lemma UnitRequest(b: Bounds, s: Lru, r: Request)
    requires ValidBounds(b) && ValidRequest(r) && r.cost == 1
    ensures var x := Tokens(Prepared(b, s, r), r);
      var (o, t) := Consume(b, s, r);
      && (Allowed(o) <==> x >= 1.0)
      && r.key in t.cells && t.cells[r.key].seen == r.now
      && Tokens(Prepared(b, t, r), r) == if Allowed(o) then x - 1.0 else x
  {
    AccruedZero(r.refill);
  }

  /** A burst of `n` unit requests is allowed throughout exactly when the bucket holds `n` tokens. */
  lemma {:induction false} Burst(b: Bounds, s: Lru, r: Request, n: nat)
    requires ValidBounds(b) && ValidRequest(r) && r.cost == 1 && Tokens(Prepared(b, s, r), r) >= 0.0
    ensures AllTrue(RustDecisions(b, s, Copies(r, n))) <==> Tokens(Prepared(b, s, r), r) >= n as real
    ensures n > 0 ==> var t := Final(b, s, Copies(r, n)); r.key in t.cells && t.cells[r.key].seen == r.now
    decreases n
  {
    hide Tokens, Prepared, Consume;
    if n == 0 {
    } else {
      UnitRequest(b, s, r);
      CopiesHead(r, n);
      var (o, t) := Consume(b, s, r);
      var ds := RustDecisions(b, s, Copies(r, n));
      assert ds[0] == Allowed(o);
      assert ds[1..] == RustDecisions(b, t, Copies(r, n - 1));
      Burst(b, t, r, n - 1);
      assert AllTrue(ds) <==> ds[0] && AllTrue(ds[1..]) by {
        assert forall i :: 1 <= i < |ds| ==> ds[i] == ds[1..][i - 1];
        assert forall i :: 0 <= i < |ds[1..]| ==> ds[1..][i] == ds[i + 1];
      }
    }
  }

  /** The reported remainder is the number of unit requests that would still be allowed at once, up to 32 bits. */
  lemma RemainingIsBurst(b: Bounds, s: Lru, r: Request, n: nat)
    requires ValidBounds(b) && ValidRequest(r) && Past(s, r.now)
    ensures var (o, t) := Consume(b, s, r);
      && o.Ok? && o.value.remaining <= U32_MAX
      && (n <= U32_MAX ==> (AllTrue(RustDecisions(b, t, Copies(r.(cost := 1), n))) <==> n <= o.value.remaining))
  {
    var t := Consume(b, s, r).1;
    var unit := r.(cost := 1);
    PastStep(b, s, r, r.now);
    LeftOver(b, s, r);
    hide RustDecisions, Consume, Copies;
    Burst(b, t, unit, n);
  }

  lemma LeftOver(b: Bounds, s: Lru, r: Request)
    requires ValidBounds(b) && ValidRequest(r) && Past(s, r.now)
    ensures var (o, t) := Consume(b, s, r);
      var unit := r.(cost := 1);
      var left := Tokens(Prepared(b, t, unit), unit);
      && o.Ok? && 0.0 <= left <= r.capacity as real
      && o.value.remaining == if left.Floor <= U32_MAX then left.Floor else U32_MAX
  {
    AccruedZero(r.refill);
    PastStep(b, s, r, r.now);
  }
}
