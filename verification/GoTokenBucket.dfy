/**
 The Go limiter: the same bucket arithmetic, but it forgets a key only when a new key needs
 its place, first in first out. It is compared with the idle-expiring limiter.
 */
module GoTokenBucket {
  import opened Prelude
  import opened LimiterSpec
  import opened LimiterRuns

  /** `order` lists the keys of `cells` in order of arrival. */
  datatype Fifo = Fifo(order: seq<Key>, cells: map<Key, Cell>)

  const NOTHING := Fifo([], map[])

  ghost predicate Tidy(s: Fifo) {
    Distinct(s.order) && forall k :: k in s.order <==> k in s.cells
  }

  /** First in, first out: make a place for one more key. */
  function Room(maxEntries: nat, s: Fifo): Fifo {
    if |s.cells| >= maxEntries && s.order != []
    then Fifo(s.order[1..], s.cells - {s.order[0]}) else s
  }

  function Enter(s: Fifo, key: Key, c: Cell): Fifo {
    Fifo(s.order + [key], s.cells[key := c])
  }

  /** The store once `key` has a bucket: its old one or a full new one. */
  function Opened(maxEntries: nat, s: Fifo, key: Key, capacity: int, now: real): Fifo {
    if key in s.cells then s else Enter(Room(maxEntries, s), key, Cell(capacity as real, now))
  }

  function Allow(maxEntries: nat, s: Fifo, key: Key, capacity: int, refill: real, now: real): (bool, Fifo)
  {
    var open := Opened(maxEntries, s, key, capacity, now);
    var c := open.cells[key];
    var tokens := Min(c.tokens + Accrued(now - c.seen, refill), capacity as real);
    var allowed := tokens >= 1.0;
    (allowed, open.(cells := open.cells[key := Cell(if allowed then tokens - 1.0 else tokens, now)]))
  }

  lemma RoomTidy(maxEntries: nat, s: Fifo)
    requires Tidy(s)
    ensures Tidy(Room(maxEntries, s))
    ensures Room(maxEntries, s).cells.Keys <= s.cells.Keys
    ensures 0 < maxEntries && |s.cells| <= maxEntries ==> |Room(maxEntries, s).cells| < maxEntries
  {
    if s.order == [] {
      assert s.cells.Keys == {};
    } else {
      DropTidy(s);
    }
  }

  lemma DropTidy(s: Fifo)
    requires Tidy(s) && s.order != []
    ensures Tidy(Fifo(s.order[1..], s.cells - {s.order[0]}))
    ensures (s.cells - {s.order[0]}).Keys == s.cells.Keys - {s.order[0]}
    ensures |s.cells - {s.order[0]}| == |s.cells| - 1
  {
    var first := s.order[0];
    assert s.order == [first] + s.order[1..];
    assert (s.cells - {first}).Keys == s.cells.Keys - {first};
  }

  lemma EnterTidy(s: Fifo, key: Key, c: Cell)
    requires Tidy(s) && key !in s.cells
    ensures Tidy(Enter(s, key, c)) && |Enter(s, key, c).cells| == |s.cells| + 1
  {
    assert s.cells[key := c].Keys == s.cells.Keys + {key};
  }

  /** Opening a bucket keeps the list in step with the map and the map within the bound. */
  lemma OpenedTidy(maxEntries: nat, s: Fifo, key: Key, capacity: int, now: real)
    requires Tidy(s)
    ensures var t := Opened(maxEntries, s, key, capacity, now);
      && Tidy(t) && key in t.cells
      && (0 < maxEntries && |s.cells| <= maxEntries ==> |t.cells| <= maxEntries)
  {
    hide Tidy, Room;
    if key !in s.cells {
      RoomTidy(maxEntries, s);
      EnterTidy(Room(maxEntries, s), key, Cell(capacity as real, now));
    }
  }

  lemma UpdateTidy(s: Fifo, key: Key, c: Cell)
    requires Tidy(s) && key in s.cells
    ensures Tidy(s.(cells := s.cells[key := c])) && |s.cells[key := c]| == |s.cells|
  {
    assert s.cells[key := c].Keys == s.cells.Keys;
  }

  class MemoryTokenBucket {
    const maxEntries: nat
    var buckets: map<Key, Cell>
    var order: seq<Key>

    ghost predicate Valid()
      reads this
    {
      Tidy(View()) && (maxEntries > 0 ==> |buckets| <= maxEntries)
    }

    ghost function View(): Fifo
      reads this
    {
      Fifo(order, buckets)
    }

    constructor (maxEntries: nat)
      ensures Valid() && View() == NOTHING && this.maxEntries == maxEntries
    {
      this.maxEntries := maxEntries;
      buckets, order := map[], [];
    }

    /** A full map loses its oldest bucket, so that a place is free afterwards. */
    method MakeRoom()
      requires Valid()
      modifies this
      ensures Valid() && (maxEntries > 0 ==> |buckets| < maxEntries)
      ensures View() == Room(maxEntries, old(View()))
    {
      RoomTidy(maxEntries, View());
      if |buckets| >= maxEntries {
        if order != [] {
          buckets := buckets - {order[0]};
          order := order[1..];
        }
      }
    }

    method AllowLocked(key: Key, capacity: int, refill: real, now: real) returns (allowed: bool)
      requires Valid()
      modifies this
      ensures Valid()
      ensures (allowed, View()) == Allow(maxEntries, old(View()), key, capacity, refill, now)
    {
      hide Tidy, Accrued, Room;
      OpenedTidy(maxEntries, View(), key, capacity, now);
      if key !in buckets {
        MakeRoom();
        buckets := buckets[key := Cell(capacity as real, now)];
        order := order + [key];
      }
      assert View() == Opened(maxEntries, old(View()), key, capacity, now);
      var value := buckets[key];
      var tokens := value.tokens + Accrued(now - value.seen, refill);
      if tokens > capacity as real {
        tokens := capacity as real;
      }
      allowed := tokens >= 1.0;
      if allowed {
        tokens := tokens - 1.0;
      }
      UpdateTidy(View(), key, Cell(tokens, now));
      buckets := buckets[key := Cell(tokens, now)];
    }
  }

  // ----- both limiters on one run

  ghost function GoStep(maxEntries: nat, s: Fifo, r: Request): (bool, Fifo) {
    Allow(maxEntries, s, r.key, r.capacity, r.refill, r.now)
  }

  ghost function GoDecisions(maxEntries: nat, s: Fifo, rs: seq<Request>): seq<bool>
    decreases |rs|
  {
    if rs == [] then []
    else [GoStep(maxEntries, s, rs[0]).0] + GoDecisions(maxEntries, GoStep(maxEntries, s, rs[0]).1, rs[1..])
  }

  /** Unit requests under one policy, on at most the keys in `keys`. */
  ghost predicate Uniform(rs: seq<Request>, keys: set<Key>, capacity: nat, refill: real) {
    forall r :: r in rs ==> r.key in keys && r.capacity == capacity && r.refill == refill && r.cost == 1
  }

  /** The Go buckets hold what the expiring ones hold, and the extra ones are full by now. */
  ghost predicate Mirrors(
    few: map<Key, Cell>, all: map<Key, Cell>, clock: real, capacity: nat, refill: real)
  {
    && (forall k :: k in few ==> k in all && all[k] == few[k])
    && (forall k :: k in all ==> 0.0 <= all[k].tokens && all[k].seen <= clock)
    && (forall k :: k in all && k !in few ==>
          all[k].tokens + Accrued(clock - all[k].seen, refill) >= capacity as real)
  }

  ghost predicate Related(s: Lru, g: Fifo, clock: real, keys: set<Key>, capacity: nat, refill: real) {
    Wf(s) && Tidy(g) && g.cells.Keys <= keys && Mirrors(s.cells, g.cells, clock, capacity, refill)
  }

  /** Expiry may only forget buckets that would be full again. */
  lemma ExpireRelated(
    s: Lru, g: Fifo, clock: real, now: real, ttl: real, keys: set<Key>, capacity: nat, refill: real)
    requires Related(s, g, clock, keys, capacity, refill) && clock <= now && refill > 0.0
    requires Accrued(ttl, refill) >= capacity as real
    ensures Related(Expire(s, now, ttl), g, now, keys, capacity, refill)
  {
    ExpireWf(s, now, ttl);
    var e := Expire(s, now, ttl);
    forall k | k in g.cells && k !in e.cells
      ensures g.cells[k].tokens + Accrued(now - g.cells[k].seen, refill) >= capacity as real
    {
      var c := g.cells[k];
      if k in s.cells {
        AccruedMonotone(ttl, now - c.seen, refill);
      } else {
        AccruedMonotone(clock - c.seen, now - c.seen, refill);
      }
    }
  }

  lemma NoEviction(s: Lru, key: Key, keys: set<Key>, maxEntries: nat)
    requires Wf(s) && s.cells.Keys <= keys && key in keys && |keys| <= maxEntries
    ensures Admit(s, key, maxEntries) == s
  {
    if key !in s.cells {
      DistinctSize(s.order);
      assert Elements(s.order) == s.cells.Keys;
      SubsetSize(s.cells.Keys, keys);
    }
  }

  lemma NoGoEviction(g: Fifo, key: Key, keys: set<Key>, maxEntries: nat)
    requires Tidy(g) && g.cells.Keys <= keys && key in keys && |keys| <= maxEntries
    ensures Room(maxEntries, g) == g || key in g.cells
  {
    SubsetSize(g.cells.Keys, keys);
  }

  /** From related stores, one unit request is decided alike and leaves related stores. */
  lemma StepRelated(b: Bounds, maxEntries: nat, s: Lru, g: Fifo, clock: real, r: Request, keys: set<Key>)
    requires Related(s, g, clock, keys, r.capacity, r.refill) && clock <= r.now
    requires ValidBounds(b) && ValidRequest(r) && r.cost == 1 && r.key in keys
    requires |keys| <= b.maxEntries && |keys| <= maxEntries
    requires Accrued(b.ttl, r.refill) >= r.capacity as real
    ensures Allowed(Consume(b, s, r).0) == GoStep(maxEntries, g, r).0
    ensures Related(Consume(b, s, r).1, GoStep(maxEntries, g, r).1, r.now, keys, r.capacity, r.refill)
  {
    hide Expire, Admit, Opened, Related, Wf, Tidy, Touch;
    var e := Expire(s, r.now, b.ttl);
    ExpireRelated(s, g, clock, r.now, b.ttl, keys, r.capacity, r.refill);
    StepFromExpired(b, maxEntries, s, e, g, r, keys);
  }

  lemma StepFromExpired(b: Bounds, maxEntries: nat, s: Lru, e: Lru, g: Fifo, r: Request, keys: set<Key>)
    requires e == Expire(s, r.now, b.ttl)
    requires Related(e, g, r.now, keys, r.capacity, r.refill)
    requires ValidBounds(b) && ValidRequest(r) && r.cost == 1 && r.key in keys
    requires |keys| <= b.maxEntries && |keys| <= maxEntries
    ensures Allowed(Consume(b, s, r).0) == GoStep(maxEntries, g, r).0
    ensures Related(Consume(b, s, r).1, GoStep(maxEntries, g, r).1, r.now, keys, r.capacity, r.refill)
  {
    hide Expire, Wf, Tidy, Touch, Opened, MillisecondsUntil, Remaining, Tokens, Accrued;
    NoEviction(e, r.key, keys, b.maxEntries);
    assert Prepared(b, s, r) == e;
    SameTokens(maxEntries, e, g, r, keys);
    var left := Charge(Tokens(e, r), r).1;
    UseRelated(maxEntries, e, g, r, keys, left);
  }

  lemma UseMirrors(
    few: map<Key, Cell>, all: map<Key, Cell>, clock: real, capacity: nat, refill: real, key: Key, c: Cell)
    requires Mirrors(few, all, clock, capacity, refill) && c.tokens >= 0.0 && c.seen == clock
    ensures Mirrors(few[key := c], all[key := c], clock, capacity, refill)
  {
    hide Accrued;
  }

  lemma OpenedCells(maxEntries: nat, g: Fifo, r: Request, keys: set<Key>, c: Cell)
    requires Tidy(g) && g.cells.Keys <= keys && r.key in keys && |keys| <= maxEntries
    ensures Opened(maxEntries, g, r.key, r.capacity, r.now).cells[r.key := c] == g.cells[r.key := c]
  {
    NoGoEviction(g, r.key, keys, maxEntries);
  }

  /** Writing the same remainder on both sides keeps the stores related. */
  lemma UseRelated(maxEntries: nat, e: Lru, g: Fifo, r: Request, keys: set<Key>, left: real)
    requires Related(e, g, r.now, keys, r.capacity, r.refill) && left >= 0.0
    requires r.key in keys && |keys| <= maxEntries
    ensures var open := Opened(maxEntries, g, r.key, r.capacity, r.now);
      Related(Touch(e, r.key, Cell(left, r.now)), open.(cells := open.cells[r.key := Cell(left, r.now)]),
              r.now, keys, r.capacity, r.refill)
  {
    hide Wf, Tidy, Mirrors, Opened;
    var c := Cell(left, r.now);
    OpenedTidy(maxEntries, g, r.key, r.capacity, r.now);
    UpdateTidy(Opened(maxEntries, g, r.key, r.capacity, r.now), r.key, c);
    OpenedCells(maxEntries, g, r, keys, c);
    UseMirrors(e.cells, g.cells, r.now, r.capacity, r.refill, r.key, c);
    TouchWf(e, r.key, c);
  }

  ghost function GoTokens(maxEntries: nat, g: Fifo, r: Request): real {
    var c := Opened(maxEntries, g, r.key, r.capacity, r.now).cells[r.key];
    Min(c.tokens + Accrued(r.now - c.seen, r.refill), r.capacity as real)
  }

  lemma OpenedBucket(maxEntries: nat, g: Fifo, r: Request, keys: set<Key>)
    requires Tidy(g) && g.cells.Keys <= keys && r.key in keys && |keys| <= maxEntries
    ensures GoTokens(maxEntries, g, r)
         == if r.key in g.cells
            then Min(g.cells[r.key].tokens + Accrued(r.now - g.cells[r.key].seen, r.refill), r.capacity as real)
            else r.capacity as real
  {
    hide Accrued;
    NoGoEviction(g, r.key, keys, maxEntries);
    AccruedZero(r.refill);
  }

  lemma SameTokens(maxEntries: nat, e: Lru, g: Fifo, r: Request, keys: set<Key>)
    requires Related(e, g, r.now, keys, r.capacity, r.refill) && ValidRequest(r) && r.key in keys
    requires |keys| <= maxEntries
    ensures Tokens(e, r) == GoTokens(maxEntries, g, r) >= 0.0
  {
    hide Wf, Tidy, Accrued, GoTokens;
    OpenedBucket(maxEntries, g, r, keys);
    AccruedZero(r.refill);
    if r.key in g.cells {
      AccruedMonotone(0.0, r.now - g.cells[r.key].seen, r.refill);
    }
  }

  lemma {:induction false} RunRelated(
    b: Bounds, maxEntries: nat, s: Lru, g: Fifo, clock: real, rs: seq<Request>, keys: set<Key>,
    capacity: nat, refill: real)
    requires Related(s, g, clock, keys, capacity, refill) && Monotone(clock, rs)
    requires Uniform(rs, keys, capacity, refill) && capacity > 0 && refill > 0.0
    requires ValidBounds(b) && |keys| <= b.maxEntries && |keys| <= maxEntries
    requires Accrued(b.ttl, refill) >= capacity as real
    ensures RustDecisions(b, s, rs) == GoDecisions(maxEntries, g, rs)
    decreases |rs|
  {
    hide Related, Consume, Accrued, Allow;
    if rs == [] {
    } else {
      StepRelated(b, maxEntries, s, g, clock, rs[0], keys);
      RunRelated(b, maxEntries, Consume(b, s, rs[0]).1, GoStep(maxEntries, g, rs[0]).1, rs[0].now,
                 rs[1..], keys, capacity, refill);
    }
  }

  // ----- when the time to live is too short

  ghost function GoFinal(maxEntries: nat, g: Fifo, rs: seq<Request>): Fifo
    decreases |rs|
  {
    if rs == [] then g else GoFinal(maxEntries, GoStep(maxEntries, g, rs[0]).1, rs[1..])
  }

  lemma {:induction false} GoConcat(maxEntries: nat, g: Fifo, xs: seq<Request>, ys: seq<Request>)
    ensures GoDecisions(maxEntries, g, xs + ys)
         == GoDecisions(maxEntries, g, xs) + GoDecisions(maxEntries, GoFinal(maxEntries, g, xs), ys)
    decreases |xs|
  {
    hide GoStep;
    if xs == [] {
      assert xs + ys == ys;
    } else {
      assert (xs + ys)[1..] == xs[1..] + ys;
      GoConcat(maxEntries, GoStep(maxEntries, g, xs[0]).1, xs[1..], ys);
    }
  }

  lemma GoUnit(maxEntries: nat, g: Fifo, r: Request)
    ensures var (allowed, t) := GoStep(maxEntries, g, r);
      var x := GoTokens(maxEntries, g, r);
      && (allowed <==> x >= 1.0)
      && r.key in t.cells && t.cells[r.key] == Cell(if allowed then x - 1.0 else x, r.now)
      && GoTokens(maxEntries, t, r) == if allowed then x - 1.0 else x
  {
    AccruedZero(r.refill);
  }

  /** The Go limiter allows `n` unit requests at once only from a bucket that holds `n` tokens. */
  lemma {:induction false} GoBurst(maxEntries: nat, g: Fifo, r: Request, n: nat)
    requires GoTokens(maxEntries, g, r) >= 0.0
    ensures AllTrue(GoDecisions(maxEntries, g, Copies(r, n))) ==> GoTokens(maxEntries, g, r) >= n as real
    ensures GoTokens(maxEntries, g, r) >= n as real && n > 0 ==>
      var t := GoFinal(maxEntries, g, Copies(r, n));
      r.key in t.cells && t.cells[r.key] == Cell(GoTokens(maxEntries, g, r) - n as real, r.now)
    decreases n
  {
    hide GoTokens, GoStep;
    if n == 0 {
    } else {
      GoUnit(maxEntries, g, r);
      CopiesHead(r, n);
      var (allowed, t) := GoStep(maxEntries, g, r);
      var ds := GoDecisions(maxEntries, g, Copies(r, n));
      assert ds[0] == allowed;
      assert ds[1..] == GoDecisions(maxEntries, t, Copies(r, n - 1));
      if allowed {
        GoBurst(maxEntries, t, r, n - 1);
        assert AllTrue(ds) ==> AllTrue(ds[1..]);
      }
    }
  }

  /** Spend everything, wait out the time to live, spend everything again. */
  ghost function TwoBursts(capacity: nat, refill: real, ttl: real): seq<Request> {
    var r := Request("k", capacity, refill, 1, 0.0);
    Copies(r, capacity) + Copies(r.(now := ttl), capacity)
  }

  lemma RustServesBoth(b: Bounds, capacity: nat, refill: real)
    requires ValidBounds(b) && capacity > 0 && refill > 0.0
    ensures AllTrue(RustDecisions(b, EMPTY, TwoBursts(capacity, refill, b.ttl)))
  {
    var r := Request("k", capacity, refill, 1, 0.0);
    var again := r.(now := b.ttl);
    assert Prepared(b, EMPTY, r) == EMPTY;
    Burst(b, EMPTY, r, capacity);
    var t := Final(b, EMPTY, Copies(r, capacity));
    assert Tokens(Prepared(b, t, again), again) == capacity as real;
    Burst(b, t, again, capacity);
    RustConcat(b, EMPTY, Copies(r, capacity), Copies(again, capacity));
  }

  lemma GoRefusesSome(maxEntries: nat, capacity: nat, refill: real, ttl: real)
    requires capacity > 0 && refill > 0.0 && 0.0 <= Accrued(ttl, refill) < capacity as real
    ensures !AllTrue(GoDecisions(maxEntries, NOTHING, TwoBursts(capacity, refill, ttl)))
  {
    hide Accrued, GoDecisions;
    var r := Request("k", capacity, refill, 1, 0.0);
    var again := r.(now := ttl);
    AccruedZero(refill);
    assert GoTokens(maxEntries, NOTHING, r) == capacity as real;
    GoBurst(maxEntries, NOTHING, r, capacity);
    var t := GoFinal(maxEntries, NOTHING, Copies(r, capacity));
    assert t.cells["k"] == Cell(0.0, 0.0);
    assert GoTokens(maxEntries, t, again) == Accrued(ttl, refill);
    GoBurst(maxEntries, t, again, capacity);
    GoConcat(maxEntries, NOTHING, Copies(r, capacity), Copies(again, capacity));
    var first := GoDecisions(maxEntries, NOTHING, Copies(r, capacity));
    var second := GoDecisions(maxEntries, t, Copies(again, capacity));
    var i :| 0 <= i < |second| && !second[i];
    assert !(first + second)[|first| + i];
  }

  lemma {:induction false} CopiesUniform(r: Request, n: nat)
    ensures |Copies(r, n)| == n
    ensures forall x :: x in Copies(r, n) ==> x == r
  {
    if n == 0 {
    } else {
      CopiesUniform(r, n - 1);
    }
  }

  lemma {:induction false} CopiesMonotone(r: Request, n: nat, start: real, rest: seq<Request>)
    requires start <= r.now && Monotone(r.now, rest)
    ensures Monotone(start, Copies(r, n) + rest)
    decreases n
  {
    if n == 0 {
      assert Copies(r, n) + rest == rest;
    } else {
      CopiesHead(r, n);
      CopiesMonotone(r, n - 1, r.now, rest);
      assert (Copies(r, n) + rest)[1..] == Copies(r, n - 1) + rest;
    }
  }

  /** A run the two limiters are compared on: one policy, a clock that never goes back, few keys. */
  ghost predicate Comparable(
    rs: seq<Request>, keys: set<Key>, b: Bounds, maxEntries: nat, capacity: nat, refill: real)
  {
    && Uniform(rs, keys, capacity, refill) && Monotone(0.0, rs)
    && |keys| <= b.maxEntries && |keys| <= maxEntries
  }

  /**
   Forgetting idle keys is unobservable exactly when a bucket refills completely within the time
   to live: then, and only then, both limiters decide every comparable run alike.
   */
  lemma TtlUnobservableIff(b: Bounds, maxEntries: nat, capacity: nat, refill: real)
    requires ValidBounds(b) && maxEntries > 0 && capacity > 0 && refill > 0.0
    ensures Accrued(b.ttl, refill) >= capacity as real <==>
      (forall rs, keys :: Comparable(rs, keys, b, maxEntries, capacity, refill) ==>
         RustDecisions(b, EMPTY, rs) == GoDecisions(maxEntries, NOTHING, rs))
  {
    if Accrued(b.ttl, refill) >= capacity as real {
      forall rs, keys | Comparable(rs, keys, b, maxEntries, capacity, refill)
        ensures RustDecisions(b, EMPTY, rs) == GoDecisions(maxEntries, NOTHING, rs)
      {
        RunRelated(b, maxEntries, EMPTY, NOTHING, 0.0, rs, keys, capacity, refill);
      }
    } else {
      Distinguished(b, maxEntries, capacity, refill);
    }
  }

  lemma Distinguished(b: Bounds, maxEntries: nat, capacity: nat, refill: real)
    requires ValidBounds(b) && maxEntries > 0 && capacity > 0 && refill > 0.0
    requires Accrued(b.ttl, refill) < capacity as real
    ensures Comparable(TwoBursts(capacity, refill, b.ttl), {"k"}, b, maxEntries, capacity, refill)
    ensures RustDecisions(b, EMPTY, TwoBursts(capacity, refill, b.ttl))
         != GoDecisions(maxEntries, NOTHING, TwoBursts(capacity, refill, b.ttl))
  {
    hide Accrued, RustDecisions, GoDecisions;
    var r := Request("k", capacity, refill, 1, 0.0);
    var again := r.(now := b.ttl);
    CopiesUniform(r, capacity);
    CopiesUniform(again, capacity);
    CopiesMonotone(again, capacity, 0.0, []);
    assert Copies(again, capacity) + [] == Copies(again, capacity);
    CopiesMonotone(r, capacity, 0.0, Copies(again, capacity));
    assert 0.0 <= Accrued(b.ttl, refill) by {
      AccruedPositive(b.ttl, refill);
    }
    RustServesBoth(b, capacity, refill);
    GoRefusesSome(maxEntries, capacity, refill, b.ttl);
  }
}
