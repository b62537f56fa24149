/**
 The simple limiter: one plain token bucket per key, a full scan for idle keys,
 and an explicit least-recently-used list. Time is in milliseconds and both time
 and tokens are exact reals.
 */
module LimiterSpec {
  import opened Prelude

  type Key = string

  datatype Bounds = Bounds(maxEntries: nat, ttl: real)

  datatype Request = Request(key: Key, capacity: nat, refill: real, cost: nat, now: real)

  datatype Decision = Decision(
    allowed: bool, remaining: nat, retryAfterMs: Option<nat>, resetAfterMs: Option<nat>)

  datatype LimiterError = CacheInvalid | RequestInvalid | CacheSaturated

  type Outcome = Result<Decision, LimiterError>

  /** The tokens left in a bucket when it was last used. */
  datatype Cell = Cell(tokens: real, seen: real)

  /** `order` lists the keys of `cells`, least recently used first. */
  datatype Lru = Lru(order: seq<Key>, cells: map<Key, Cell>)

  const EMPTY := Lru([], map[])

  // ----- arithmetic of one bucket

  function Min(a: real, b: real): real {
    if a <= b then a else b
  }

  function Ceil(x: real): int {
    -((-x).Floor)
  }

  /** `Instant::duration_since` saturates at zero. */
  function Elapsed(from: real, to: real): (e: real)
    ensures e >= 0.0
  {
    if from <= to then to - from else 0.0
  }

  /** Tokens that flow in during `ms` milliseconds at `refill` tokens per second. */
  function Accrued(ms: real, refill: real): real {
    ms * refill / 1000.0
  }

  function Refilled(c: Cell, now: real, capacity: nat, refill: real): real {
    Min(c.tokens + Accrued(Elapsed(c.seen, now), refill), capacity as real)
  }

  /** Whole milliseconds until `tokens` more tokens have flowed in, clamped to 64 bits. */
  function MillisecondsUntil(tokens: real, refill: real): nat
    requires refill > 0.0
  {
    if tokens <= 0.0 then 0
    else
      var ms := Ceil(tokens / refill * 1000.0);
      if ms < 1 then 1 else if ms > U64_MAX then U64_MAX else ms
  }

  function Remaining(tokens: real): nat {
    var f := tokens.Floor;
    if f < 0 then 0 else if f > U32_MAX then U32_MAX else f
  }

  /** Decide one request on a bucket already refilled to `tokens`. */
  function Charge(tokens: real, r: Request): (Decision, real)
    requires r.refill > 0.0
  {
    var cost := r.cost as real;
    var allowed := tokens >= cost;
    var left := if allowed then tokens - cost else tokens;
    var retry := if allowed then None else Some(MillisecondsUntil(cost - left, r.refill));
    (Decision(allowed, Remaining(left), retry,
              Some(MillisecondsUntil(r.capacity as real - left, r.refill))), left)
  }

  predicate ValidRequest(r: Request) {
    0 < r.capacity && 0 < r.cost <= r.capacity && r.refill > 0.0
  }

  predicate ValidBounds(b: Bounds) {
    b.maxEntries != 0 && b.ttl > 0.0
  }

  // ----- the store

  ghost predicate Wf(s: Lru) {
    Distinct(s.order) && forall k :: k in s.order <==> k in s.cells
  }

  /** Full scan: forget every key idle for at least `ttl`. */
  function Expire(s: Lru, now: real, ttl: real): Lru {
    var live := map k | k in s.cells && Elapsed(s.cells[k].seen, now) < ttl :: s.cells[k];
    Lru(Keep(s.order, live.Keys), live)
  }

  /** Exact LRU eviction of one key. */
  function DropOldest(s: Lru): Lru {
    if s.order == [] then s else Lru(s.order[1..], s.cells - {s.order[0]})
  }

  /** Make room for `key`. */
  function Admit(s: Lru, key: Key, maxEntries: nat): Lru {
    if key in s.cells || |s.order| < maxEntries then s else DropOldest(s)
  }

  /** What is left of the store when the bucket of `r.key` is looked up. */
  function Prepared(b: Bounds, s: Lru, r: Request): Lru {
    Admit(Expire(s, r.now, b.ttl), r.key, b.maxEntries)
  }

  /** A key without a bucket starts full. */
  function Tokens(s: Lru, r: Request): real {
    if r.key in s.cells then Refilled(s.cells[r.key], r.now, r.capacity, r.refill)
    else r.capacity as real
  }

  function Touch(s: Lru, key: Key, c: Cell): Lru {
    Lru(Keep(s.order, s.cells.Keys - {key}) + [key], s.cells[key := c])
  }

  function Consume(b: Bounds, s: Lru, r: Request): (Outcome, Lru) {
    if !ValidBounds(b) then (Err(CacheInvalid), s)
    else if !ValidRequest(r) then (Err(RequestInvalid), s)
    else
      var ready := Prepared(b, s, r);
      var (d, left) := Charge(Tokens(ready, r), r);
      (Ok(d), Touch(ready, r.key, Cell(left, r.now)))
  }

  // ----- runs

  ghost function Final(b: Bounds, s: Lru, rs: seq<Request>): Lru
    decreases |rs|
  {
    if rs == [] then s else Final(b, Consume(b, s, rs[0]).1, rs[1..])
  }

  ghost function Outcomes(b: Bounds, s: Lru, rs: seq<Request>): seq<Outcome>
    decreases |rs|
  {
    if rs == [] then []
    else [Consume(b, s, rs[0]).0] + Outcomes(b, Consume(b, s, rs[0]).1, rs[1..])
  }

  /** The clock never goes back, starting from `start`. */
  ghost predicate Monotone(start: real, rs: seq<Request>)
    decreases |rs|
  {
    rs == [] || (start <= rs[0].now && Monotone(rs[0].now, rs[1..]))
  }

  /** Time of the last request, or `start` when there is none. */
  ghost function LastTime(start: real, rs: seq<Request>): real
    decreases |rs|
  {
    if rs == [] then start else LastTime(rs[0].now, rs[1..])
  }

  // ----- what every operation keeps

  lemma ExpireWf(s: Lru, now: real, ttl: real)
    requires Wf(s)
    ensures Wf(Expire(s, now, ttl))
    ensures |Expire(s, now, ttl).order| <= |s.order|
  {
    var e := Expire(s, now, ttl);
    KeepDistinct(s.order, e.cells.Keys);
    KeepMember(s.order, e.cells.Keys);
    KeepLength(s.order, e.cells.Keys);
  }

  lemma DropOldestWf(s: Lru)
    requires Wf(s)
    ensures Wf(DropOldest(s))
    ensures s.order != [] ==> |DropOldest(s).order| == |s.order| - 1
  {
    if s.order != [] {
      assert s.order == [s.order[0]] + s.order[1..];
      assert forall k :: k in s.order[1..] <==> k in s.order && k != s.order[0];
    }
  }

  lemma {:induction false} KeepWithout(order: seq<Key>, key: Key, keys: set<Key>)
    requires Distinct(order) && forall k :: k in order ==> k in keys || k == key
    requires key !in keys
    ensures |Keep(order, keys)| == |order| - (if key in order then 1 else 0)
  {
    if order == [] {
    } else {
      KeepWithout(order[1..], key, keys);
      assert order == [order[0]] + order[1..];
    }
  }

  lemma TouchWf(s: Lru, key: Key, c: Cell)
    requires Wf(s)
    ensures Wf(Touch(s, key, c))
    ensures |Touch(s, key, c).order| == |s.order| + (if key in s.cells then 0 else 1)
  {
    var keys := s.cells.Keys - {key};
    KeepMember(s.order, keys);
    KeepDistinct(s.order, keys);
    KeepWithout(s.order, key, keys);
  }

  lemma PreparedWf(b: Bounds, s: Lru, r: Request)
    requires Wf(s) && |s.order| <= b.maxEntries && ValidBounds(b)
    ensures Wf(Prepared(b, s, r))
    ensures r.key in Prepared(b, s, r).cells || |Prepared(b, s, r).order| < b.maxEntries
    ensures |Prepared(b, s, r).order| <= b.maxEntries
  {
    ExpireWf(s, r.now, b.ttl);
    DropOldestWf(Expire(s, r.now, b.ttl));
  }

  /** One request keeps the list in step with the buckets and within the bound. */
  lemma ConsumeKeepsBound(b: Bounds, s: Lru, r: Request)
    requires Wf(s) && |s.order| <= b.maxEntries
    ensures Wf(Consume(b, s, r).1)
    ensures |Consume(b, s, r).1.order| <= b.maxEntries
    ensures |Consume(b, s, r).1.cells| <= b.maxEntries
  {
    var t := Consume(b, s, r).1;
    if ValidBounds(b) && ValidRequest(r) {
      var ready := Prepared(b, s, r);
      PreparedWf(b, s, r);
      TouchWf(ready, r.key, Cell(Charge(Tokens(ready, r), r).1, r.now));
    }
    DistinctSize(t.order);
    assert Elements(t.order) == t.cells.Keys;
  }

  /** Over every run from a store within the bound, the number of buckets stays within it. */
  lemma {:induction false} RunKeepsBound(b: Bounds, s: Lru, rs: seq<Request>)
    requires Wf(s) && |s.order| <= b.maxEntries
    ensures Wf(Final(b, s, rs)) && |Final(b, s, rs).order| <= b.maxEntries
    ensures |Final(b, s, rs).cells| <= b.maxEntries
    decreases |rs|
  {
    if rs == [] {
      DistinctSize(s.order);
      assert Elements(s.order) == s.cells.Keys;
    } else {
      ConsumeKeepsBound(b, s, rs[0]);
      RunKeepsBound(b, Consume(b, s, rs[0]).1, rs[1..]);
    }
  }
}
