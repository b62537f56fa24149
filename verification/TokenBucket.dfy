/**
 The in-memory limiter as it is stored: a bucket map beside a queue of (key, generation)
 pairs. Using a key appends a new pair and leaves the old one behind; stale pairs are
 skipped when they reach the front.
 */
module TokenBucket {
  import opened Prelude
  import opened LimiterSpec

  datatype Bucket = Bucket(tokens: real, lastRefill: real, lastSeen: real, generation: nat)

  type Buckets = map<Key, Bucket>
  type Queue = seq<(Key, nat)>

  predicate IsLive(buckets: Buckets, e: (Key, nat)) {
    e.0 in buckets && buckets[e.0].generation == e.1
  }

  /** Keys of the pairs that are not stale, front first. */
  ghost function LiveKeys(queue: Queue, buckets: Buckets): seq<Key> {
    if queue == [] then []
    else (if IsLive(buckets, queue[0]) then [queue[0].0] else []) + LiveKeys(queue[1..], buckets)
  }

  ghost function Cells(buckets: Buckets): map<Key, Cell> {
    map k | k in buckets :: Cell(buckets[k].tokens, buckets[k].lastSeen)
  }

  ghost function Abs(queue: Queue, buckets: Buckets): Lru {
    Lru(LiveKeys(queue, buckets), Cells(buckets))
  }

  ghost predicate Increasing(queue: Queue) {
    forall i, j :: 0 <= i < j < |queue| ==> queue[i].1 < queue[j].1
  }

  /** Every live bucket is queued under its current generation. */
  ghost predicate Queued(queue: Queue, buckets: Buckets) {
    forall k :: k in buckets ==> (k, buckets[k].generation) in queue
  }

  /** Later generations were seen later, and never after `clock`. */
  ghost predicate Dated(buckets: Buckets, clock: real) {
    && (forall k :: k in buckets ==>
          buckets[k].lastRefill == buckets[k].lastSeen && buckets[k].lastSeen <= clock)
    && (forall k, l :: k in buckets && l in buckets && buckets[k].generation <= buckets[l].generation
          ==> buckets[k].lastSeen <= buckets[l].lastSeen)
  }

  ghost predicate Rep(queue: Queue, buckets: Buckets, clock: real) {
    Increasing(queue) && Queued(queue, buckets) && Dated(buckets, clock)
  }

  // ----- the live part of the queue

  lemma {:induction false} LiveMember(queue: Queue, buckets: Buckets)
    ensures forall k :: k in LiveKeys(queue, buckets) <==>
                        k in buckets && (k, buckets[k].generation) in queue
  {
    if queue == [] {
    } else {
      LiveMember(queue[1..], buckets);
      assert queue == [queue[0]] + queue[1..];
    }
  }

  lemma {:induction false} LiveDistinct(queue: Queue, buckets: Buckets)
    requires Increasing(queue)
    ensures Distinct(LiveKeys(queue, buckets))
  {
    if queue == [] {
    } else {
      LiveDistinct(queue[1..], buckets);
      LiveMember(queue[1..], buckets);
      assert queue[0] !in queue[1..];
    }
  }

  lemma {:induction false} LiveSnoc(queue: Queue, e: (Key, nat), buckets: Buckets)
    ensures LiveKeys(queue + [e], buckets)
         == LiveKeys(queue, buckets) + (if IsLive(buckets, e) then [e.0] else [])
  {
    if queue == [] {
      assert LiveKeys([e], buckets) == (if IsLive(buckets, e) then [e.0] else []) + LiveKeys([], buckets);
    } else {
      assert (queue + [e])[1..] == queue[1..] + [e];
      LiveSnoc(queue[1..], e, buckets);
    }
  }

  /** Buckets that agree on which queued pairs are live give restricted key lists. */
  lemma {:induction false} LiveRestrict(queue: Queue, buckets: Buckets, fewer: Buckets, keys: set<Key>)
    requires forall e :: e in queue ==> (IsLive(fewer, e) <==> IsLive(buckets, e) && e.0 in keys)
    ensures LiveKeys(queue, fewer) == Keep(LiveKeys(queue, buckets), keys)
  {
    if queue == [] {
    } else {
      var rest := queue[1..];
      assert forall e :: e in rest ==> e in queue;
      LiveRestrict(rest, buckets, fewer, keys);
      assert queue[0] in queue;
      if IsLive(buckets, queue[0]) {
        assert LiveKeys(queue, buckets)[1..] == LiveKeys(rest, buckets);
      } else {
        assert LiveKeys(queue, buckets) == LiveKeys(rest, buckets);
      }
    }
  }

  lemma AbsWf(queue: Queue, buckets: Buckets, clock: real)
    requires Rep(queue, buckets, clock)
    ensures Wf(Abs(queue, buckets))
    ensures |LiveKeys(queue, buckets)| == |buckets|
  {
    LiveMember(queue, buckets);
    LiveDistinct(queue, buckets);
    DistinctSize(LiveKeys(queue, buckets));
    assert Elements(LiveKeys(queue, buckets)) == buckets.Keys;
  }

  /** The current pair of a live bucket occurs exactly once. */
  lemma QueuedOnce(queue: Queue, buckets: Buckets, clock: real, k: Key)
    requires Rep(queue, buckets, clock) && k in buckets
    ensures multiset(queue)[(k, buckets[k].generation)] == 1
  {
    var e := (k, buckets[k].generation);
    var i :| 0 <= i < |queue| && queue[i] == e;
    OnlyPlace(queue, i);
  }

  lemma OnlyPlace(queue: Queue, i: nat)
    requires i < |queue| && forall j :: 0 <= j < |queue| && j != i ==> queue[j] != queue[i]
    ensures multiset(queue)[queue[i]] == 1
  {
    var e := queue[i];
    assert queue == queue[..i] + [e] + queue[i + 1..];
    assert e !in queue[..i] && e !in queue[i + 1..];
  }

  /** A stale pair at the front can be dropped. */
  lemma PopStale(queue: Queue, buckets: Buckets, clock: real)
    requires Rep(queue, buckets, clock) && queue != [] && !IsLive(buckets, queue[0])
    ensures Rep(queue[1..], buckets, clock)
    ensures Abs(queue[1..], buckets) == Abs(queue, buckets)
  {
    assert queue == [queue[0]] + queue[1..];
  }

  lemma PopLiveRep(queue: Queue, buckets: Buckets, clock: real)
    requires Rep(queue, buckets, clock) && queue != [] && IsLive(buckets, queue[0])
    ensures Rep(queue[1..], buckets - {queue[0].0}, clock)
  {
    hide Increasing, Queued, Dated;
    PopIncreasing(queue);
    PopQueued(queue, buckets);
    FewerDated(buckets, clock, queue[0].0);
  }

  lemma PopIncreasing(queue: Queue)
    requires Increasing(queue) && queue != []
    ensures Increasing(queue[1..])
  {}

  lemma PopQueued(queue: Queue, buckets: Buckets)
    requires Queued(queue, buckets) && queue != []
    ensures Queued(queue[1..], buckets - {queue[0].0})
  {
    var fewer := buckets - {queue[0].0};
    assert queue == [queue[0]] + queue[1..];
    forall k | k in fewer ensures (k, fewer[k].generation) in queue[1..] {
      assert (k, buckets[k].generation) in queue;
    }
  }

  lemma FewerDated(buckets: Buckets, clock: real, k: Key)
    requires Dated(buckets, clock)
    ensures Dated(buckets - {k}, clock)
  {}

  lemma PopLiveKeys(queue: Queue, buckets: Buckets, clock: real)
    requires Rep(queue, buckets, clock) && queue != [] && IsLive(buckets, queue[0])
    ensures LiveKeys(queue, buckets) == [queue[0].0] + LiveKeys(queue[1..], buckets - {queue[0].0})
  {
    var k, rest := queue[0].0, queue[1..];
    var fewer := buckets - {k};
    forall e | e in rest ensures IsLive(fewer, e) <==> IsLive(buckets, e) && e.0 in fewer.Keys {
    }
    LiveRestrict(rest, buckets, fewer, fewer.Keys);
    LiveMember(rest, buckets);
    assert forall e :: e in rest ==> e.1 > queue[0].1;
    KeepAll(LiveKeys(rest, buckets), fewer.Keys);
  }

  /** A live pair at the front is the least recently used key. */
  lemma PopLive(queue: Queue, buckets: Buckets, clock: real)
    requires Rep(queue, buckets, clock) && queue != [] && IsLive(buckets, queue[0])
    ensures Rep(queue[1..], buckets - {queue[0].0}, clock)
    ensures Abs(queue[1..], buckets - {queue[0].0}) == DropOldest(Abs(queue, buckets))
    ensures |buckets - {queue[0].0}| == |buckets| - 1
  {
    hide Rep;
    var k := queue[0].0;
    PopLiveRep(queue, buckets, clock);
    PopLiveKeys(queue, buckets, clock);
    assert Abs(queue[1..], buckets - {k}) == DropOldest(Abs(queue, buckets)) by {
      assert Cells(buckets - {k}) == Cells(buckets) - {k};
      assert LiveKeys(queue, buckets)[1..] == LiveKeys(queue[1..], buckets - {k});
    }
    assert |buckets - {k}| == |buckets| - 1 by {
      assert (buckets - {k}).Keys == buckets.Keys - {k};
    }
  }

  // ----- expiry

  /** Dropping an idle front key does not change what a full scan leaves. */
  lemma ExpireAfterPop(s: Lru, now: real, ttl: real)
    requires Wf(s) && s.order != [] && Elapsed(s.cells[s.order[0]].seen, now) >= ttl
    ensures Expire(DropOldest(s), now, ttl) == Expire(s, now, ttl)
  {
    var t := DropOldest(s);
    assert Expire(t, now, ttl).cells == Expire(s, now, ttl).cells;
  }

  /** An idle live pair at the front goes with its bucket. */
  lemma PopIdle(queue: Queue, buckets: Buckets, clock: real, now: real, ttl: real)
    requires Rep(queue, buckets, clock) && queue != [] && IsLive(buckets, queue[0])
    requires Elapsed(buckets[queue[0].0].lastSeen, now) >= ttl
    ensures Rep(queue[1..], buckets - {queue[0].0}, clock)
    ensures |buckets - {queue[0].0}| == |buckets| - 1
    ensures Expire(Abs(queue[1..], buckets - {queue[0].0}), now, ttl)
         == Expire(Abs(queue, buckets), now, ttl)
  {
    hide Rep, Expire, DropOldest;
    AbsWf(queue, buckets, clock);
    ExpireAfterPop(Abs(queue, buckets), now, ttl);
    PopLive(queue, buckets, clock);
  }

  /** If the front key is not idle then no key is. */
  lemma NothingIdle(queue: Queue, buckets: Buckets, clock: real, now: real, ttl: real)
    requires Rep(queue, buckets, clock) && clock <= now
    requires queue == [] || (IsLive(buckets, queue[0])
                             && Elapsed(buckets[queue[0].0].lastSeen, now) < ttl)
    ensures Expire(Abs(queue, buckets), now, ttl) == Abs(queue, buckets)
  {
    forall k | k in buckets ensures Elapsed(buckets[k].lastSeen, now) < ttl {
      FrontIsOldest(queue, buckets, clock, k);
    }
    AbsWf(queue, buckets, clock);
    hide Rep, Abs;
    ExpiresNothing(queue, buckets, now, ttl);
  }

  lemma FrontIsOldest(queue: Queue, buckets: Buckets, clock: real, k: Key)
    requires Rep(queue, buckets, clock) && k in buckets && queue != [] && IsLive(buckets, queue[0])
    ensures buckets[queue[0].0].lastSeen <= buckets[k].lastSeen <= clock
  {
    assert (k, buckets[k].generation) in queue;
    assert buckets[queue[0].0].generation <= buckets[k].generation;
  }

  lemma ExpiresNothing(queue: Queue, buckets: Buckets, now: real, ttl: real)
    requires Wf(Abs(queue, buckets))
    requires forall k :: k in buckets ==> Elapsed(buckets[k].lastSeen, now) < ttl
    ensures Expire(Abs(queue, buckets), now, ttl) == Abs(queue, buckets)
  {
    var s := Abs(queue, buckets);
    assert Expire(s, now, ttl).cells == s.cells;
    KeepAll(s.order, s.cells.Keys);
  }

  lemma EmptyQueue(buckets: Buckets, clock: real)
    requires Rep([], buckets, clock)
    ensures |buckets| == 0 && DropOldest(Abs([], buckets)) == Abs([], buckets)
  {
    assert buckets.Keys == {};
  }

  lemma AbsSize(queue: Queue, buckets: Buckets, clock: real)
    requires Rep(queue, buckets, clock)
    ensures |Abs(queue, buckets).order| == |buckets|
    ensures Abs(queue, buckets).cells.Keys == buckets.Keys
  {
    AbsWf(queue, buckets, clock);
  }

  lemma AdmitKnown(s: Lru, key: Key, maxEntries: nat)
    requires key in s.cells
    ensures Admit(s, key, maxEntries) == s
  {}

  lemma TokensOf(queue: Queue, buckets: Buckets, clock: real, r: Request)
    requires Rep(queue, buckets, clock) && clock <= r.now
    ensures r.key in buckets ==>
      Tokens(Abs(queue, buckets), r)
      == Min(buckets[r.key].tokens + Accrued(Elapsed(buckets[r.key].lastRefill, r.now), r.refill),
             r.capacity as real)
    ensures r.key !in buckets ==>
      Tokens(Abs(queue, buckets), r)
      == Min(r.capacity as real + Accrued(Elapsed(r.now, r.now), r.refill), r.capacity as real)
  {
    assert 0.0 * r.refill == 0.0;
  }

  // ----- use

  lemma UsedRep(queue: Queue, buckets: Buckets, clock: real, key: Key, b: Bucket)
    requires Rep(queue, buckets, clock) && clock <= b.lastSeen == b.lastRefill
    requires forall e :: e in queue ==> e.1 < b.generation
    ensures Rep(queue + [(key, b.generation)], buckets[key := b], b.lastSeen)
  {
    var next, q := buckets[key := b], queue + [(key, b.generation)];
    forall k | k in next ensures (k, next[k].generation) in q {
      if k == key {
        assert q[|queue|] == (key, b.generation);
      } else {
        assert (k, buckets[k].generation) in queue;
      }
    }
    assert forall k :: k in buckets ==> (k, buckets[k].generation) in queue;
  }

  /** Queueing a new generation of a key moves it to the recent end. */
  lemma UsedAbs(queue: Queue, buckets: Buckets, key: Key, b: Bucket)
    requires forall e :: e in queue ==> e.1 < b.generation
    ensures Abs(queue + [(key, b.generation)], buckets[key := b])
         == Touch(Abs(queue, buckets), key, Cell(b.tokens, b.lastSeen))
  {
    var next := buckets[key := b];
    LiveSnoc(queue, (key, b.generation), next);
    LiveRestrict(queue, buckets, next, buckets.Keys - {key});
    assert Cells(buckets).Keys == buckets.Keys;
    assert Cells(next) == Cells(buckets)[key := Cell(b.tokens, b.lastSeen)];
  }

  class InMemoryTokenBucket {
    const maxEntries: nat
    const ttl: real
    var buckets: Buckets
    var recency: Queue
    var nextGeneration: nat
    /** When the lock was last held. */
    ghost var clock: real

    ghost predicate Valid()
      reads this
    {
      && Rep(recency, buckets, clock)
      && (forall e :: e in recency ==> e.1 <= nextGeneration)
      && |buckets| <= maxEntries
    }

    ghost function View(): Lru
      reads this
    {
      Abs(recency, buckets)
    }

    ghost function Config(): Bounds {
      Bounds(maxEntries, ttl)
    }

    /** A limiter made at time `start`. */
    constructor WithBounds(maxEntries: nat, ttl: real, start: real)
      ensures Valid() && View() == EMPTY && Config() == Bounds(maxEntries, ttl)
      ensures nextGeneration == 0 && clock == start
    {
      this.maxEntries := maxEntries;
      this.ttl := ttl;
      buckets, recency, nextGeneration, clock := map[], [], 0, start;
    }

    /** Pops idle and stale pairs off the front; what is left is a full scan's result. */
    method PurgeExpired(now: real)
      requires Valid() && clock <= now
      modifies this`buckets, this`recency
      ensures Valid() && View() == Expire(old(View()), now, ttl)
    {
      hide Rep, Abs, Expire;
      while recency != []
        invariant Valid()
        invariant Expire(View(), now, ttl) == Expire(old(View()), now, ttl)
        decreases |recency|
      {
        var (key, generation) := recency[0];
        if key !in buckets || buckets[key].generation != generation {
          PopStale(recency, buckets, clock);
        } else if Elapsed(buckets[key].lastSeen, now) >= ttl {
          PopIdle(recency, buckets, clock, now, ttl);
          buckets := buckets - {key};
        } else {
          break;
        }
        recency := recency[1..];
      }
      NothingIdle(recency, buckets, clock, now, ttl);
    }

    /** Removes the least recently used key, if there is any. */
    method EvictOne() returns (evicted: bool)
      requires Valid()
      modifies this`buckets, this`recency
      ensures Valid() && View() == DropOldest(old(View()))
      ensures evicted <==> old(|buckets|) != 0
      ensures evicted ==> |buckets| == old(|buckets|) - 1
      ensures forall k :: k in buckets ==> k in old(buckets)
    {
      hide Rep, Abs, DropOldest;
      while recency != []
        invariant Valid() && View() == old(View()) && buckets == old(buckets)
        decreases |recency|
      {
        var (key, generation) := recency[0];
        if key in buckets && buckets[key].generation == generation {
          PopLive(recency, buckets, clock);
          recency := recency[1..];
          buckets := buckets - {key};
          return true;
        }
        PopStale(recency, buckets, clock);
        recency := recency[1..];
      }
      EmptyQueue(buckets, clock);
      return false;
    }

    /** Evicts until a new key fits. */
    method MakeRoom(key: Key) returns (fits: bool)
      requires Valid() && key !in buckets && maxEntries > 0
      modifies this`buckets, this`recency
      ensures Valid() && fits && key !in buckets && |buckets| < maxEntries
      ensures View() == Admit(old(View()), key, maxEntries)
    {
      hide Rep, Abs, DropOldest;
      AbsSize(recency, buckets, clock);
      while |buckets| >= maxEntries
        invariant Valid() && key !in buckets
        invariant |buckets| == maxEntries ==> View() == old(View())
        invariant |buckets| < maxEntries ==> View() == Admit(old(View()), key, maxEntries)
        decreases |buckets|
      {
        var evicted := EvictOne();
        if !evicted {
          return false;
        }
      }
      return true;
    }

    /** One request under the lock behaves as on the simple limiter; it is never saturated. */
    method ConsumeLocked(r: Request) returns (outcome: Outcome)
      requires Valid() && clock <= r.now
      requires nextGeneration < U64_MAX
      modifies this
      ensures Valid() && clock <= r.now && nextGeneration <= old(nextGeneration) + 1
      ensures (outcome, View()) == Consume(Config(), old(View()), r)
      ensures outcome != Err(CacheSaturated)
    {
      hide Rep, Abs, Expire, Admit, Charge, Tokens, Touch;
      if maxEntries == 0 || ttl <= 0.0 {
        return Err(CacheInvalid);
      }
      if r.capacity == 0 || r.cost == 0 || r.cost > r.capacity || r.refill <= 0.0 {
        return Err(RequestInvalid);
      }
      PurgeExpired(r.now);
      AbsSize(recency, buckets, clock);
      if r.key !in buckets {
        var fits := MakeRoom(r.key);
        if !fits {
          return Err(CacheSaturated);
        }
      } else {
        AdmitKnown(View(), r.key, maxEntries);
      }
      nextGeneration := (nextGeneration + 1) % (U64_MAX + 1);
      outcome := Draw(r);
    }

    /** Refills, charges and re-queues the bucket of one key. */
    method Draw(r: Request) returns (outcome: Outcome)
      requires Rep(recency, buckets, clock) && clock <= r.now && ValidRequest(r)
      requires forall e :: e in recency ==> e.1 < nextGeneration
      requires r.key in buckets || |buckets| < maxEntries
      requires |buckets| <= maxEntries
      modifies this`buckets, this`recency, this`clock
      ensures Valid() && clock == r.now
      ensures var (d, left) := Charge(Tokens(old(View()), r), r);
        outcome == Ok(d) && View() == Touch(old(View()), r.key, Cell(left, r.now))
    {
      hide Rep, Abs, MillisecondsUntil, Remaining, Tokens, Touch, Accrued;
      var generation := nextGeneration;
      var bucket := if r.key in buckets then buckets[r.key]
                    else Bucket(r.capacity as real, r.now, r.now, generation);
      var elapsed := Elapsed(bucket.lastRefill, r.now);
      var tokens := Min(bucket.tokens + Accrued(elapsed, r.refill), r.capacity as real);
      assert tokens == Tokens(View(), r) by {
        TokensOf(recency, buckets, clock, r);
      }
      var cost := r.cost as real;
      var allowed := tokens >= cost;
      if allowed {
        tokens := tokens - cost;
      }
      var retry := if allowed then None else Some(MillisecondsUntil(cost - tokens, r.refill));
      var reset := Some(MillisecondsUntil(r.capacity as real - tokens, r.refill));
      outcome := Ok(Decision(allowed, Remaining(tokens), retry, reset));
      Store(r.key, Bucket(tokens, r.now, r.now, generation));
    }

    /** Writes a bucket back under its new generation and queues it as most recent. */
    method Store(key: Key, bucket: Bucket)
      requires Rep(recency, buckets, clock) && clock <= bucket.lastSeen == bucket.lastRefill
      requires forall e :: e in recency ==> e.1 < nextGeneration
      requires bucket.generation == nextGeneration
      requires key in buckets || |buckets| < maxEntries
      requires |buckets| <= maxEntries
      modifies this`buckets, this`recency, this`clock
      ensures Valid() && clock == bucket.lastSeen
      ensures View() == Touch(old(View()), key, Cell(bucket.tokens, bucket.lastSeen))
    {
      hide Rep, Abs, Touch;
      UsedRep(recency, buckets, clock, key, bucket);
      UsedAbs(recency, buckets, key, bucket);
      assert buckets[key := bucket].Keys == buckets.Keys + {key};
      buckets := buckets[key := bucket];
      recency := recency + [(key, bucket.generation)];
      clock := bucket.lastSeen;
    }

    /** Any run of requests: outcome by outcome, the simple limiter's run. */
    method Serve(rs: seq<Request>) returns (outcomes: seq<Outcome>)
      requires Valid() && Monotone(clock, rs)
      requires nextGeneration + |rs| < U64_MAX
      modifies this
      ensures Valid() && clock <= LastTime(old(clock), rs)
      ensures nextGeneration <= old(nextGeneration) + |rs|
      ensures outcomes == Outcomes(Config(), old(View()), rs)
      ensures View() == Final(Config(), old(View()), rs)
    {
      hide Rep, Abs, Consume;
      outcomes := [];
      var i := 0;
      while i < |rs|
        invariant 0 <= i <= |rs|
        invariant Valid() && Monotone(clock, rs[i..])
        invariant nextGeneration <= old(nextGeneration) + i
        invariant LastTime(clock, rs[i..]) <= LastTime(old(clock), rs)
        invariant outcomes + Outcomes(Config(), View(), rs[i..]) == Outcomes(Config(), old(View()), rs)
        invariant Final(Config(), View(), rs[i..]) == Final(Config(), old(View()), rs)
      {
        assert rs[i..][1..] == rs[i + 1..];
        var o := ConsumeLocked(rs[i]);
        MonotoneEarlier(clock, rs[i].now, rs[i + 1..]);
        outcomes := outcomes + [o];
        i := i + 1;
      }
    }
  }

  /**
   Two batches on a new limiter: every outcome is that of the simple limiter on an empty store, and
   the second batch goes on where the first one left off.
   */
  method ServeNew(maxEntries: nat, ttl: real, start: real, first: seq<Request>, second: seq<Request>)
    returns (outcomes: seq<Outcome>)
    requires Monotone(start, first + second) && |first| + |second| < U64_MAX
    ensures outcomes == Outcomes(Bounds(maxEntries, ttl), EMPTY, first + second)
  {
    hide Consume;
    MonotoneParts(start, first, second);
    OutcomesAppend(Bounds(maxEntries, ttl), EMPTY, first, second);
    var limiter := new InMemoryTokenBucket.WithBounds(maxEntries, ttl, start);
    var early := limiter.Serve(first);
    MonotoneEarlier(limiter.clock, LastTime(start, first), second);
    var late := limiter.Serve(second);
    outcomes := early + late;
  }

  lemma {:induction false} MonotoneParts(clock: real, first: seq<Request>, second: seq<Request>)
    requires Monotone(clock, first + second)
    ensures Monotone(clock, first) && Monotone(LastTime(clock, first), second)
    decreases |first|
  {
    if first == [] {
      assert first + second == second;
    } else {
      assert (first + second)[1..] == first[1..] + second;
      MonotoneParts(first[0].now, first[1..], second);
    }
  }

  lemma {:induction false} OutcomesAppend(b: Bounds, s: Lru, first: seq<Request>, second: seq<Request>)
    ensures Outcomes(b, s, first + second) == Outcomes(b, s, first) + Outcomes(b, Final(b, s, first), second)
    decreases |first|
  {
    hide Consume;
    if first == [] {
      assert first + second == second;
    } else {
      assert (first + second)[1..] == first[1..] + second;
      OutcomesAppend(b, Consume(b, s, first[0]).1, first[1..], second);
    }
  }

  lemma MonotoneEarlier(a: real, b: real, rs: seq<Request>)
    requires a <= b && Monotone(b, rs)
    ensures Monotone(a, rs)
  {}
}
