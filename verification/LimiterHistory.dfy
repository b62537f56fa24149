/**
 The limiter's answers from the requests alone: which keys have a bucket, and which requests are
 allowed, said without naming how the limiter keeps or charges buckets.
 */
module LimiterHistory {
  import opened Prelude
  import opened LimiterSpec
  import opened LimiterRuns

  // ----- which keys have a bucket

  /** Time of the last well-formed request. */
  ghost function LatestTime(rs: seq<Request>): real {
    if rs == [] then 0.0
    else if ValidRequest(rs[|rs| - 1]) then rs[|rs| - 1].now
    else LatestTime(rs[..|rs| - 1])
  }

  /** Keys of the well-formed requests after position `i`. */
  ghost function Since(rs: seq<Request>, i: int): set<Key> {
    set j | 0 <= j < |rs| && i < j && ValidRequest(rs[j]) :: rs[j].key
  }

  /**
   The key was used less than the time to live before the latest request, and fewer than
   `maxEntries` other keys have been used since.
   */
  ghost predicate Remembered(b: Bounds, rs: seq<Request>, k: Key) {
    var i := LastUse(rs, k);
    && i >= 0
    && LatestTime(rs) - rs[i].now < b.ttl
    && |Since(rs, i)| < b.maxEntries
  }

  lemma {:induction false} LastUseIs(rs: seq<Request>, k: Key)
    ensures var i := LastUse(rs, k);
      && -1 <= i
      && (i >= 0 ==> rs[i].key == k && ValidRequest(rs[i]))
      && forall j :: i < j < |rs| && ValidRequest(rs[j]) ==> rs[j].key != k
  {
    if rs == [] {
    } else {
      LastUseIs(rs[..|rs| - 1], k);
    }
  }

  lemma SinceSnoc(rs: seq<Request>, r: Request, i: int)
    requires i < |rs|
    ensures Since(rs + [r], i) == if ValidRequest(r) then Since(rs, i) + {r.key} else Since(rs, i)
  {
    var all := rs + [r];
    assert all[|rs|] == r && forall j :: 0 <= j < |rs| ==> all[j] == rs[j];
    if ValidRequest(r) {
      assert r.key in Since(all, i);
    }
    forall k | k in Since(rs, i) ensures k in Since(all, i) {
      var j :| 0 <= j < |rs| && i < j && ValidRequest(rs[j]) && rs[j].key == k;
      assert all[j].key == k;
    }
  }

  lemma {:induction false} MonotoneAt(start: real, rs: seq<Request>, i: nat, j: nat)
    requires Monotone(start, rs) && i <= j < |rs|
    ensures start <= rs[i].now <= rs[j].now
    decreases |rs|
  {
    if j == 0 {
    } else if i == 0 {
      MonotoneAt(rs[0].now, rs[1..], 0, j - 1);
    } else {
      MonotoneAt(rs[0].now, rs[1..], i - 1, j - 1);
    }
  }

  lemma {:induction false} MonotonePrefix(start: real, rs: seq<Request>, r: Request)
    requires Monotone(start, rs + [r])
    ensures Monotone(start, rs)
    decreases |rs|
  {
    if rs == [] {
    } else {
      assert (rs + [r])[1..] == rs[1..] + [r];
      MonotonePrefix(rs[0].now, rs[1..], r);
    }
  }

  lemma {:induction false} LatestIs(start: real, rs: seq<Request>, i: nat)
    requires Monotone(start, rs) && i < |rs| && ValidRequest(rs[i])
    ensures rs[i].now <= LatestTime(rs)
  {
    var n := |rs| - 1;
    assert rs == rs[..n] + [rs[n]];
    MonotonePrefix(start, rs[..n], rs[n]);
    MonotoneAt(start, rs, i, n);
    if ValidRequest(rs[n]) {
    } else {
      LatestIs(start, rs[..n], i);
    }
  }

  lemma LatestEarlier(start: real, rs: seq<Request>, r: Request, i: nat)
    requires Monotone(start, rs + [r]) && i < |rs| && ValidRequest(rs[i])
    ensures rs[i].now <= LatestTime(rs) <= r.now
  {
    MonotonePrefix(start, rs, r);
    LatestIs(start, rs, i);
    LatestBefore(start, rs, r, i);
  }

  lemma {:induction false} LatestBefore(start: real, rs: seq<Request>, r: Request, i: nat)
    requires Monotone(start, rs + [r]) && i < |rs| && ValidRequest(rs[i])
    ensures LatestTime(rs) <= r.now
  {
    var n := |rs| - 1;
    var all := rs + [r];
    assert all[n] == rs[n] && all[n + 1] == r;
    MonotoneAt(start, all, n, n + 1);
    if ValidRequest(rs[n]) {
    } else {
      MonotonePrefix(start, rs, r);
      assert rs == rs[..n] + [rs[n]];
      LatestBefore(start, rs[..n], rs[n], i);
    }
  }

  /** The store holds exactly the remembered keys, each as of its last use. */
  ghost predicate Matches(b: Bounds, rs: seq<Request>) {
    var s := Final(b, EMPTY, rs);
    && (forall k :: k in s.cells <==> Remembered(b, rs, k))
    && (forall k :: k in s.cells ==> LastUse(rs, k) >= 0 && s.cells[k].seen == rs[LastUse(rs, k)].now)
  }

  /** What a request finds: the remembered keys that are not idle by then. */
  lemma AwakeIs(b: Bounds, start: real, past: seq<Request>, r: Request, k: Key)
    requires ValidBounds(b) && Monotone(start, past + [r]) && ValidRequest(r) && Matches(b, past)
    ensures var i := LastUse(past, k);
      k in Expire(Final(b, EMPTY, past), r.now, b.ttl).cells <==>
      i >= 0 && r.now - past[i].now < b.ttl && |Since(past, i)| < b.maxEntries
  {
    hide Final, Since, LastUse, LatestTime;
    var i := LastUse(past, k);
    LastUseIs(past, k);
    if i >= 0 {
      LatestEarlier(start, past, r, i);
    }
  }

  /** Whoever was used after a key that is still awake is awake too, and behind it in the list. */
  lemma LaterAwake(b: Bounds, start: real, past: seq<Request>, r: Request, k: Key, l: Key)
    requires ValidBounds(b) && Monotone(start, past + [r]) && ValidRequest(r) && Matches(b, past)
    requires var i := LastUse(past, k);
      i >= 0 && k in Expire(Final(b, EMPTY, past), r.now, b.ttl).cells && l in Since(past, i)
    ensures l in Expire(Final(b, EMPTY, past), r.now, b.ttl).cells && LastUse(past, k) < LastUse(past, l)
  {
    hide Final, LastUse, LatestTime, Expire, Matches;
    var i, j := LastUse(past, k), LastUse(past, l);
    LastUseIs(past, k);
    LastUseIs(past, l);
    AwakeIs(b, start, past, r, k);
    AwakeIs(b, start, past, r, l);
    var all := past + [r];
    assert all[i] == past[i] && all[j] == past[j];
    MonotoneAt(start, all, i, j);
    assert Since(past, j) <= Since(past, i);
    SubsetSize(Since(past, j), Since(past, i));
  }

  /** The awake part of the store: in the list once each, ranked by last use, within the bound. */
  lemma AwakeListed(b: Bounds, past: seq<Request>, r: Request)
    requires ValidBounds(b)
    ensures var awake := Expire(Final(b, EMPTY, past), r.now, b.ttl);
      && Ranked(awake.order, past) && (forall k :: k in awake.order <==> k in awake.cells)
      && |awake.order| == |awake.cells.Keys| <= b.maxEntries
  {
    hide Ranked, Consume, LastUse;
    var s := Final(b, EMPTY, past);
    var awake := Expire(s, r.now, b.ttl);
    OrderIsHistory(b, past);
    KeepRanked(s.order, awake.cells.Keys, past);
    RunKeepsBound(b, EMPTY, past);
    ExpireWf(s, r.now, b.ttl);
    DistinctSize(awake.order);
    assert Elements(awake.order) == awake.cells.Keys;
  }

  /** Everyone else in the list was used after its first key. */
  lemma FirstIsOldest(b: Bounds, past: seq<Request>, r: Request, k: Key)
    requires ValidBounds(b)
    requires var awake := Expire(Final(b, EMPTY, past), r.now, b.ttl); awake.order != [] && awake.order[0] == k
    ensures var awake := Expire(Final(b, EMPTY, past), r.now, b.ttl);
      awake.cells.Keys - {k} <= Since(past, LastUse(past, k))
  {
    hide Expire, LastUse, Consume, Final;
    var awake := Expire(Final(b, EMPTY, past), r.now, b.ttl);
    AwakeListed(b, past, r);
    LastUseIs(past, k);
    forall l | l in awake.cells && l != k ensures l in Since(past, LastUse(past, k)) {
      var p :| 0 <= p < |awake.order| && awake.order[p] == l;
      assert LastUse(past, awake.order[0]) < LastUse(past, awake.order[p]);
      LastUseIs(past, l);
    }
  }

  /** Whoever was used since, and the key itself, are all awake. */
  lemma SinceAwake(b: Bounds, start: real, past: seq<Request>, r: Request, k: Key)
    requires ValidBounds(b) && Monotone(start, past + [r]) && ValidRequest(r) && Matches(b, past)
    requires k in Expire(Final(b, EMPTY, past), r.now, b.ttl).cells
    ensures var i := LastUse(past, k);
      i >= 0 && k !in Since(past, i)
      && Since(past, i) + {k} <= Expire(Final(b, EMPTY, past), r.now, b.ttl).cells.Keys
  {
    hide Expire, LastUse, Final, Matches;
    AwakeIs(b, start, past, r, k);
    LastUseIs(past, k);
    forall l | l in Since(past, LastUse(past, k)) ensures l in Expire(Final(b, EMPTY, past), r.now, b.ttl).cells {
      LaterAwake(b, start, past, r, k, l);
    }
  }

  /** The oldest awake key makes room exactly when the list is full of keys used after it. */
  lemma EvictedIff(b: Bounds, start: real, past: seq<Request>, r: Request, k: Key)
    requires ValidBounds(b) && Monotone(start, past + [r]) && ValidRequest(r) && Matches(b, past) && k != r.key
    requires k in Expire(Final(b, EMPTY, past), r.now, b.ttl).cells
    ensures k in Prepared(b, Final(b, EMPTY, past), r).cells <==>
      |Since(past, LastUse(past, k)) + {r.key}| < b.maxEntries
  {
    hide Expire, LastUse, Final, Matches, Since, Ranked, ValidRequest, ValidBounds;
    var awake := Expire(Final(b, EMPTY, past), r.now, b.ttl);
    var since := Since(past, LastUse(past, k));
    AwakeListed(b, past, r);
    SinceAwake(b, start, past, r, k);
    SubsetSize(since + {k}, awake.cells.Keys);
    assert |since + {k}| == |since| + 1;
    if r.key in since {
      assert since + {r.key} == since;
    } else {
      assert |since + {r.key}| == |since| + 1;
      assert awake.order != [];
      if awake.order[0] == k {
        FirstIsOldest(b, past, r, k);
        SubsetSize(awake.cells.Keys - {k}, since);
      } else if |since| + 1 == b.maxEntries {
        NotFirst(b, start, past, r, k);
        assert false;
      }
    }
  }

  lemma NotFirst(b: Bounds, start: real, past: seq<Request>, r: Request, k: Key)
    requires ValidBounds(b) && Monotone(start, past + [r]) && ValidRequest(r) && Matches(b, past)
    requires var awake := Expire(Final(b, EMPTY, past), r.now, b.ttl);
      k in awake.cells && awake.order != [] && awake.order[0] != k
    ensures |Since(past, LastUse(past, k))| + 1 < b.maxEntries
  {
    hide Expire, LastUse, Final, Matches, Since;
    var awake := Expire(Final(b, EMPTY, past), r.now, b.ttl);
    var since := Since(past, LastUse(past, k));
    AwakeListed(b, past, r);
    SinceAwake(b, start, past, r, k);
    var first := awake.order[0];
    var p :| 0 <= p < |awake.order| && awake.order[p] == k;
    assert LastUse(past, awake.order[0]) < LastUse(past, awake.order[p]);
    if first in since {
      LaterAwake(b, start, past, r, k, first);
      assert false;
    }
    SubsetSize(since + {k} + {first}, awake.cells.Keys);
    assert |since + {k} + {first}| == |since| + 2;
  }

  lemma LatestSnoc(rs: seq<Request>, r: Request)
    ensures LatestTime(rs + [r]) == if ValidRequest(r) then r.now else LatestTime(rs)
  {
    assert (rs + [r])[..|rs|] == rs;
  }

  lemma MatchesSnoc(b: Bounds, start: real, past: seq<Request>, r: Request, k: Key)
    requires ValidBounds(b) && Monotone(start, past + [r]) && Matches(b, past)
    ensures var rs := past + [r];
      var s := Final(b, EMPTY, rs);
      && (k in s.cells <==> Remembered(b, rs, k))
      && (k in s.cells ==> LastUse(rs, k) >= 0 && s.cells[k].seen == rs[LastUse(rs, k)].now)
  {
    var s := Final(b, EMPTY, past);
    FinalSnoc(b, EMPTY, past, r);
    LatestSnoc(past, r);
    LastUseSnoc(past, r, k);
    LastUseIs(past, k);
    hide Final, LastUse, LatestTime, Since;
    if !ValidRequest(r) {
      SinceSnoc(past, r, LastUse(past, k));
    } else if k == r.key {
      assert Since(past + [r], |past|) == {} by {
        LastIsLast(past, r);
      }
    } else {
      SinceSnoc(past, r, LastUse(past, k));
      AwakeIs(b, start, past, r, k);
      if k in Expire(s, r.now, b.ttl).cells {
        EvictedIff(b, start, past, r, k);
      } else {
        SinceGrows(past, r, LastUse(past, k));
      }
    }
  }

  lemma LastIsLast(past: seq<Request>, r: Request)
    ensures Since(past + [r], |past|) == {}
  {}

  lemma SinceGrows(past: seq<Request>, r: Request, i: int)
    ensures |Since(past, i)| <= |Since(past, i) + {r.key}|
  {
    SubsetSize(Since(past, i), Since(past, i) + {r.key});
  }

  /**
   In every run from the empty store, the keys with a bucket are exactly those used less than the
   time to live before the latest request and with fewer than `maxEntries` other keys used since;
   their buckets are as of their last use.
   */
  lemma {:induction false} StoreIsHistory(b: Bounds, start: real, rs: seq<Request>)
    requires ValidBounds(b) && Monotone(start, rs)
    ensures Matches(b, rs)
  {
    if rs == [] {
    } else {
      var past, r := rs[..|rs| - 1], rs[|rs| - 1];
      assert rs == past + [r];
      MonotonePrefix(start, past, r);
      StoreIsHistory(b, start, past);
      hide Final, Remembered, LastUse;
      forall k
        ensures k in Final(b, EMPTY, rs).cells <==> Remembered(b, rs, k)
        ensures k in Final(b, EMPTY, rs).cells ==>
          LastUse(rs, k) >= 0 && Final(b, EMPTY, rs).cells[k].seen == rs[LastUse(rs, k)].now
      {
        MatchesSnoc(b, start, past, r, k);
      }
    }
  }

  /** A request finds the bucket of its key exactly when the key is remembered and not idle by then. */
  lemma FoundIff(b: Bounds, start: real, past: seq<Request>, r: Request)
    requires ValidBounds(b) && Monotone(start, past + [r]) && ValidRequest(r)
    ensures var i := LastUse(past, r.key);
      r.key in Prepared(b, Final(b, EMPTY, past), r).cells <==>
      i >= 0 && r.now - past[i].now < b.ttl && |Since(past, i)| < b.maxEntries
  {
    hide Matches, Final, Expire, LastUse, Since;
    MonotonePrefix(start, past, r);
    StoreIsHistory(b, start, past);
    AwakeIs(b, start, past, r, r.key);
  }

  // ----- which requests are allowed

  lemma {:induction false} FinalAppend(b: Bounds, s: Lru, xs: seq<Request>, ys: seq<Request>)
    ensures Final(b, s, xs + ys) == Final(b, Final(b, s, xs), ys)
    decreases |xs|
  {
    hide Consume;
    if xs == [] {
      assert xs + ys == ys;
    } else {
      assert (xs + ys)[1..] == xs[1..] + ys;
      FinalAppend(b, Consume(b, s, xs[0]).1, xs[1..], ys);
    }
  }

  /** The cost admitted for a key by its next request. */
  ghost function Paid(b: Bounds, s: Lru, r: Request, k: Key): nat {
    if r.key == k && Allowed(Consume(b, s, r).0) then r.cost else 0
  }

  lemma {:induction false} AdmittedSnoc(b: Bounds, s: Lru, xs: seq<Request>, r: Request, k: Key)
    ensures Admitted(b, s, xs + [r], k) == Admitted(b, s, xs, k) + Paid(b, Final(b, s, xs), r, k)
    decreases |xs|
  {
    hide Consume;
    if xs == [] {
      assert xs + [r] == [r] && [r][1..] == [];
    } else {
      assert (xs + [r])[1..] == xs[1..] + [r];
      AdmittedSnoc(b, Consume(b, s, xs[0]).1, xs[1..], r, k);
    }
  }

  lemma {:induction false} RemovalsSnoc(b: Bounds, s: Lru, xs: seq<Request>, r: Request, k: Key)
    ensures Removals(b, s, xs + [r], k)
         == Removals(b, s, xs, k) + (if Forgets(b, Final(b, s, xs), r, k) then 1 else 0)
    decreases |xs|
  {
    hide Consume, Forgets;
    if xs == [] {
      assert xs + [r] == [r] && [r][1..] == [];
    } else {
      assert (xs + [r])[1..] == xs[1..] + [r];
      RemovalsSnoc(b, Consume(b, s, xs[0]).1, xs[1..], r, k);
    }
  }

  /** The cost admitted for a key from the `i`-th request of a run on. */
  ghost function AdmittedSince(b: Bounds, s: Lru, rs: seq<Request>, k: Key, i: nat): nat
    requires i <= |rs|
  {
    Admitted(b, Final(b, s, rs[..i]), rs[i..], k)
  }

  lemma AdmittedSinceSnoc(b: Bounds, s: Lru, rs: seq<Request>, r: Request, k: Key, i: nat)
    requires i <= |rs|
    ensures AdmittedSince(b, s, rs + [r], k, i) == AdmittedSince(b, s, rs, k, i) + Paid(b, Final(b, s, rs), r, k)
  {
    hide Consume, Final, Admitted, Paid;
    var all := rs + [r];
    assert all[..i] == rs[..i] && all[i..] == rs[i..] + [r];
    AdmittedSnoc(b, Final(b, s, rs[..i]), rs[i..], r, k);
    FinalAppend(b, s, rs[..i], rs[i..]);
    assert rs[..i] + rs[i..] == rs;
  }

  lemma AdmittedNothing(b: Bounds, s: Lru, rs: seq<Request>, k: Key)
    ensures AdmittedSince(b, s, rs, k, |rs|) == 0
  {
    assert rs[|rs|..] == [];
  }

  /** The window from the `i`-th request to time `at` has room for `x` more tokens. */
  ghost predicate HasRoom(
    b: Bounds, s: Lru, rs: seq<Request>, k: Key, capacity: nat, refill: real, i: nat, at: real, x: real)
    requires i < |rs|
  {
    AdmittedSince(b, s, rs, k, i) as real + x <= capacity as real + Accrued(at - rs[i].now, refill)
  }

  /** Every window that starts with a well-formed request on the key has room. */
  ghost predicate EveryWindow(
    b: Bounds, s: Lru, rs: seq<Request>, k: Key, capacity: nat, refill: real, at: real, x: real)
  {
    forall i :: 0 <= i < |rs| && rs[i].key == k && ValidRequest(rs[i]) ==>
      HasRoom(b, s, rs, k, capacity, refill, i, at, x)
  }

  /** What one request on the key does to its stock, when its bucket is not forgotten. */
  lemma StockAfter(b: Bounds, s: Lru, r: Request, k: Key, capacity: nat, refill: real, at: real, x: real)
    requires ValidBounds(b) && ValidRequest(r) && r.key == k && r.capacity == capacity && r.refill == refill
    requires !Forgets(b, s, r, k) && r.now <= at
    ensures var paid := Paid(b, s, r, k) as real;
      x <= Stock(Consume(b, s, r).1, k, at, capacity, refill) <==>
      && x <= capacity as real
      && x - Accrued(at - r.now, refill) + paid <= Stock(s, k, r.now, capacity, refill)
    ensures Allowed(Consume(b, s, r).0) <==> r.cost as real <= Stock(s, k, r.now, capacity, refill)
  {
    hide Accrued, Expire, Admit, MillisecondsUntil;
    PreparedCells(b, s, r, k);
    assert Tokens(Prepared(b, s, r), r) == Stock(s, k, r.now, capacity, refill);
  }

  lemma StockUntouched(b: Bounds, s: Lru, r: Request, k: Key, capacity: nat, refill: real, at: real)
    requires ValidBounds(b) && !Forgets(b, s, r, k) && (r.key != k || !ValidRequest(r))
    ensures Stock(Consume(b, s, r).1, k, at, capacity, refill) == Stock(s, k, at, capacity, refill)
    ensures Paid(b, s, r, k) == 0
  {
    hide Accrued, Prepared, Charge;
    if r.key != k {
      OtherKey(b, s, r, k);
    }
  }

  lemma WindowsSnoc(
    b: Bounds, s: Lru, past: seq<Request>, r: Request, k: Key, capacity: nat, refill: real, at: real, x: real)
    requires r.now <= at
    ensures var paid := Paid(b, Final(b, s, past), r, k) as real;
      EveryWindow(b, s, past + [r], k, capacity, refill, at, x) <==>
      && EveryWindow(b, s, past, k, capacity, refill, r.now, x - Accrued(at - r.now, refill) + paid)
      && (r.key == k && ValidRequest(r) ==> x + paid <= capacity as real + Accrued(at - r.now, refill))
  {
    hide AdmittedSince, Accrued, Paid, Final, ValidRequest;
    var rs := past + [r];
    var paid := Paid(b, Final(b, s, past), r, k) as real;
    var y := x - Accrued(at - r.now, refill) + paid;
    forall i | 0 <= i < |past|
      ensures HasRoom(b, s, rs, k, capacity, refill, i, at, x) <==> HasRoom(b, s, past, k, capacity, refill, i, r.now, y)
    {
      AdmittedSinceSnoc(b, s, past, r, k, i);
      AccruedAdds(r.now - past[i].now, at - r.now, refill);
    }
    assert HasRoom(b, s, rs, k, capacity, refill, |past|, at, x) <==>
      x + paid <= capacity as real + Accrued(at - r.now, refill) by {
      AdmittedSinceSnoc(b, s, past, r, k, |past|);
      AdmittedNothing(b, s, past, k);
    }
    assert rs[|past|] == r && forall i :: 0 <= i < |past| ==> rs[i] == past[i];
    if EveryWindow(b, s, rs, k, capacity, refill, at, x) {
      forall i | 0 <= i < |past| && past[i].key == k && ValidRequest(past[i])
        ensures HasRoom(b, s, past, k, capacity, refill, i, r.now, y)
      {
        assert HasRoom(b, s, rs, k, capacity, refill, i, at, x);
      }
    }
  }

  lemma WindowsShift(
    b: Bounds, s: Lru, rs: seq<Request>, k: Key, capacity: nat, refill: real, at: real, later: real, x: real)
    ensures EveryWindow(b, s, rs, k, capacity, refill, later, x) <==>
      EveryWindow(b, s, rs, k, capacity, refill, at, x - Accrued(later - at, refill))
  {
    hide AdmittedSince, Accrued, ValidRequest;
    var y := x - Accrued(later - at, refill);
    forall i | 0 <= i < |rs|
      ensures HasRoom(b, s, rs, k, capacity, refill, i, later, x) <==> HasRoom(b, s, rs, k, capacity, refill, i, at, y)
    {
      AccruedAdds(at - rs[i].now, later - at, refill);
    }
  }

  lemma {:induction false} LastTimeSnoc(start: real, rs: seq<Request>, r: Request)
    ensures LastTime(start, rs + [r]) == r.now
    ensures Monotone(start, rs + [r]) ==> Monotone(start, rs) && LastTime(start, rs) <= r.now
    decreases |rs|
  {
    if rs == [] {
      assert rs + [r] == [r] && [r][1..] == [];
    } else {
      assert (rs + [r])[1..] == rs[1..] + [r];
      LastTimeSnoc(rs[0].now, rs[1..], r);
    }
  }

  /** A key can spend `x` tokens exactly when every window has room for them. */
  lemma {:induction false} StockIsWindows(
    b: Bounds, s: Lru, clock: real, rs: seq<Request>, k: Key, capacity: nat, refill: real, at: real, x: real)
    requires ValidBounds(b) && k !in s.cells && Monotone(clock, rs) && LastTime(clock, rs) <= at
    requires SamePolicy(rs, k, capacity, refill) && Removals(b, s, rs, k) == 0
    ensures x <= Stock(Final(b, s, rs), k, at, capacity, refill) <==>
      x <= capacity as real && EveryWindow(b, s, rs, k, capacity, refill, at, x)
  {
    hide Consume, Forgets, Accrued, ValidRequest, ValidBounds, EveryWindow, Stock, Paid;
    if rs == [] {
      NoWindows(b, s, k, capacity, refill, at, x);
    } else {
      var past, r := rs[..|rs| - 1], rs[|rs| - 1];
      assert rs == past + [r] && r in rs && forall q :: q in past ==> q in rs;
      LastTimeSnoc(clock, past, r);
      FinalSnoc(b, s, past, r);
      RemovalsSnoc(b, s, past, r, k);
      var mid := Final(b, s, past);
      var paid := Paid(b, mid, r, k) as real;
      var y := x - Accrued(at - r.now, refill) + paid;
      WindowsSnoc(b, s, past, r, k, capacity, refill, at, x);
      if r.key == k && ValidRequest(r) {
        StockIsWindows(b, s, clock, past, k, capacity, refill, r.now, y);
        StockAfter(b, mid, r, k, capacity, refill, at, x);
      } else {
        StockIsWindows(b, s, clock, past, k, capacity, refill, at, x);
        StockUntouched(b, mid, r, k, capacity, refill, at);
        WindowsShift(b, s, past, k, capacity, refill, r.now, at, x);
      }
    }
  }

  lemma NoWindows(b: Bounds, s: Lru, k: Key, capacity: nat, refill: real, at: real, x: real)
    requires k !in s.cells
    ensures EveryWindow(b, s, [], k, capacity, refill, at, x)
    ensures Stock(Final(b, s, []), k, at, capacity, refill) == capacity as real
  {}

  /**
   A request is allowed exactly when every window that ends with it and starts with an earlier
   request in the life of its bucket has room for it: the cost admitted in the window and its own
   stay within the capacity and what flowed in during the window.
   */
  lemma AllowedIffEveryWindow(b: Bounds, s: Lru, clock: real, rs: seq<Request>, r: Request)
    requires ValidBounds(b) && ValidRequest(r) && r.key !in s.cells && Monotone(clock, rs + [r])
    requires SamePolicy(rs, r.key, r.capacity, r.refill) && Removals(b, s, rs + [r], r.key) == 0
    ensures Allowed(Consume(b, Final(b, s, rs), r).0) <==>
      EveryWindow(b, s, rs, r.key, r.capacity, r.refill, r.now, r.cost as real)
  {
    hide Consume, Forgets, Accrued, ValidBounds, EveryWindow, Stock, Paid, Final, Removals;
    LastTimeSnoc(clock, rs, r);
    RemovalsSnoc(b, s, rs, r, r.key);
    StockIsWindows(b, s, clock, rs, r.key, r.capacity, r.refill, r.now, r.cost as real);
    StockAfter(b, Final(b, s, rs), r, r.key, r.capacity, r.refill, r.now, 0.0);
  }

  // ----- one request

  /** Errors say what is wrong and change nothing; the store is never saturated. */
  lemma RefusedIff(b: Bounds, s: Lru, r: Request)
    ensures var (o, t) := Consume(b, s, r);
      && (o == Err(CacheInvalid) <==> b.maxEntries == 0 || b.ttl <= 0.0)
      && (o == Err(RequestInvalid) <==>
            && b.maxEntries > 0 && b.ttl > 0.0
            && (r.capacity == 0 || r.cost == 0 || r.cost > r.capacity || r.refill <= 0.0))
      && o != Err(CacheSaturated) && (o.Err? ==> t == s)
  {}

  /** A denial says when to come back, an approval does not; both say when the bucket is full. */
  lemma HintsPresent(b: Bounds, s: Lru, r: Request)
    requires ValidBounds(b) && ValidRequest(r)
    ensures var o := Consume(b, s, r).0;
      o.Ok? && (o.value.allowed <==> o.value.retryAfterMs.None?) && o.value.resetAfterMs.Some?
  {
    hide Prepared, Tokens, MillisecondsUntil, Remaining;
  }

  lemma ChargedOnce(b: Bounds, s: Lru, r: Request)
    requires ValidBounds(b) && ValidRequest(r)
    ensures var x := Tokens(Prepared(b, s, r), r);
      var (o, t) := Consume(b, s, r);
      && (Allowed(o) <==> x >= r.cost as real)
      && r.key in t.cells && t.cells[r.key] == Cell(if Allowed(o) then x - r.cost as real else x, r.now)
  {
    hide Prepared, Tokens, MillisecondsUntil, Remaining;
  }

  lemma SameTokens(b: Bounds, s: Lru, r: Request)
    ensures Tokens(Prepared(b, s, r.(cost := 1)), r.(cost := 1)) == Tokens(Prepared(b, s, r), r)
  {}

  lemma {:induction false} UnitsLeave(b: Bounds, s: Lru, r: Request, n: nat)
    requires ValidBounds(b) && ValidRequest(r) && r.cost == 1 && n > 0
    requires Tokens(Prepared(b, s, r), r) >= n as real
    ensures var t := Final(b, s, Copies(r, n));
      r.key in t.cells && t.cells[r.key] == Cell(Tokens(Prepared(b, s, r), r) - n as real, r.now)
    decreases n
  {
    hide Tokens, Prepared, Consume;
    UnitRequest(b, s, r);
    ChargedOnce(b, s, r);
    CopiesHead(r, n);
    var t := Consume(b, s, r).1;
    assert Final(b, s, Copies(r, n)) == Final(b, t, Copies(r, n - 1));
    if n == 1 {
      assert Copies(r, 0) == [];
    } else {
      UnitsLeave(b, t, r, n - 1);
    }
  }

  /**
   A request of cost `n` is allowed exactly when `n` requests of cost one at that instant are, and
   leaves the bucket as they do; a denied one leaves every token where it was.
   */
  lemma CostIsUnits(b: Bounds, s: Lru, r: Request)
    requires ValidBounds(b) && ValidRequest(r) && Past(s, r.now)
    ensures var (o, t) := Consume(b, s, r);
      var units := Copies(r.(cost := 1), r.cost);
      var u := Final(b, s, units);
      && (Allowed(o) <==> AllTrue(RustDecisions(b, s, units)))
      && r.key in t.cells && r.key in u.cells && t.cells[r.key].seen == r.now
      && (Allowed(o) ==> t.cells[r.key] == u.cells[r.key])
      && (!Allowed(o) ==> t.cells[r.key].tokens == Tokens(Prepared(b, s, r), r))
  {
    hide Consume, Prepared, Tokens, RustDecisions, Final;
    var unit := r.(cost := 1);
    ChargedOnce(b, s, r);
    SameTokens(b, s, r);
    TokensPositive(b, s, r);
    Burst(b, s, unit, r.cost);
    if Allowed(Consume(b, s, r).0) {
      UnitsLeave(b, s, unit, r.cost);
    }
  }

  lemma TokensPositive(b: Bounds, s: Lru, r: Request)
    requires ValidRequest(r) && Past(s, r.now)
    ensures Tokens(Prepared(b, s, r), r) >= 0.0
  {
    PreparedCells(b, s, r, r.key);
    if r.key in s.cells {
      AccruedMonotone(0.0, Elapsed(s.cells[r.key].seen, r.now), r.refill);
    }
  }
}
