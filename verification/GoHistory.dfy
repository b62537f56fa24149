/** The Go limiter's answers from the requests: who loses its bucket, and which requests are allowed. */
module GoHistory {
  import opened LimiterSpec
  import opened LimiterRuns
  import opened GoTokenBucket

  lemma {:induction false} GoFinalSnoc(maxEntries: nat, g: Fifo, rs: seq<Request>, r: Request)
    ensures GoFinal(maxEntries, g, rs + [r]) == GoStep(maxEntries, GoFinal(maxEntries, g, rs), r).1
    decreases |rs|
  {
    hide GoStep;
    if rs == [] {
      assert rs + [r] == [r] && [r][1..] == [];
    } else {
      assert (rs + [r])[1..] == rs[1..] + [r];
      GoFinalSnoc(maxEntries, GoStep(maxEntries, g, rs[0]).1, rs[1..], r);
    }
  }

  // ----- first in, first out

  /** Position of the last request that found its key without a bucket, or -1. */
  ghost function Entered(maxEntries: nat, rs: seq<Request>, k: Key): (i: int)
    ensures -1 <= i < |rs|
  {
    if rs == [] then -1
    else
      var n := |rs| - 1;
      if rs[n].key == k && k !in GoFinal(maxEntries, NOTHING, rs[..n]).cells then n
      else Entered(maxEntries, rs[..n], k)
  }

  ghost predicate InOrder(maxEntries: nat, rs: seq<Request>, order: seq<Key>) {
    forall i, j :: 0 <= i < j < |order| ==> Entered(maxEntries, rs, order[i]) < Entered(maxEntries, rs, order[j])
  }

  lemma EnteredSnoc(maxEntries: nat, rs: seq<Request>, r: Request, k: Key)
    ensures Entered(maxEntries, rs + [r], k)
         == if r.key == k && k !in GoFinal(maxEntries, NOTHING, rs).cells then |rs| else Entered(maxEntries, rs, k)
  {
    assert (rs + [r])[..|rs|] == rs;
  }

  lemma StepKeepsTidy(maxEntries: nat, g: Fifo, r: Request)
    requires Tidy(g)
    ensures Tidy(GoStep(maxEntries, g, r).1)
  {
    hide Tidy, Opened;
    OpenedTidy(maxEntries, g, r.key, r.capacity, r.now);
    var open := Opened(maxEntries, g, r.key, r.capacity, r.now);
    UpdateTidy(open, r.key, GoStep(maxEntries, g, r).1.cells[r.key]);
  }

  lemma StepOrder(maxEntries: nat, g: Fifo, r: Request)
    ensures GoStep(maxEntries, g, r).1.order
         == if r.key in g.cells then g.order
            else (if |g.cells| >= maxEntries && g.order != [] then g.order[1..] else g.order) + [r.key]
  {}

  /** In every run the list is sorted by when its keys entered. */
  lemma {:induction false} OrderIsEntry(maxEntries: nat, rs: seq<Request>)
    ensures var g := GoFinal(maxEntries, NOTHING, rs); Tidy(g) && InOrder(maxEntries, rs, g.order)
  {
    hide GoStep, Tidy;
    if rs == [] {
      NothingTidy();
    } else {
      var past, r := rs[..|rs| - 1], rs[|rs| - 1];
      assert rs == past + [r];
      var g := GoFinal(maxEntries, NOTHING, past);
      OrderIsEntry(maxEntries, past);
      GoFinalSnoc(maxEntries, NOTHING, past, r);
      StepKeepsTidy(maxEntries, g, r);
      StepOrder(maxEntries, g, r);
      TidyKeys(g, r.key);
      hide InOrder, Entered;
      OrderGrows(maxEntries, past, r, g.order);
    }
  }

  lemma TidyKeys(g: Fifo, k: Key)
    requires Tidy(g)
    ensures k in g.order <==> k in g.cells
  {}

  lemma NothingTidy()
    ensures Tidy(NOTHING)
  {}

  lemma OrderGrows(maxEntries: nat, past: seq<Request>, r: Request, order: seq<Key>)
    requires var g := GoFinal(maxEntries, NOTHING, past); Tidy(g) && g.order == order && InOrder(maxEntries, past, order)
    ensures r.key in order ==> InOrder(maxEntries, past + [r], order)
    ensures r.key !in order ==>
      && InOrder(maxEntries, past + [r], order + [r.key])
      && (order != [] ==> InOrder(maxEntries, past + [r], order[1..] + [r.key]))
  {
    hide GoStep, Entered, GoFinal;
    forall k | k in order ensures Entered(maxEntries, past + [r], k) == Entered(maxEntries, past, k) {
      EnteredSnoc(maxEntries, past, r, k);
    }
    EnteredSnoc(maxEntries, past, r, r.key);
  }

  /** In every run, the key that loses its bucket for a new one is the one that entered first. */
  lemma EvictsFirstEntered(maxEntries: nat, rs: seq<Request>, r: Request, victim: Key, other: Key)
    requires var g := GoFinal(maxEntries, NOTHING, rs);
      && victim in g.cells && victim !in GoStep(maxEntries, g, r).1.cells
      && other in g.cells && other != victim
    ensures var g := GoFinal(maxEntries, NOTHING, rs);
      && Entered(maxEntries, rs, victim) < Entered(maxEntries, rs, other)
      && r.key !in g.cells && |g.cells| >= maxEntries && other in GoStep(maxEntries, g, r).1.cells
  {
    hide Entered, GoFinal;
    OrderIsEntry(maxEntries, rs);
    var g := GoFinal(maxEntries, NOTHING, rs);
    StepOrder(maxEntries, g, r);
    StepKeepsTidy(maxEntries, g, r);
    assert g.order[0] == victim;
    var j :| 0 <= j < |g.order| && g.order[j] == other;
  }

  // ----- which requests are allowed

  /** Tokens that `k` could spend at `at`; a key without a bucket gets a full one. */
  ghost function GoStock(g: Fifo, k: Key, at: real, capacity: nat, refill: real): real {
    if k in g.cells then Min(g.cells[k].tokens + Accrued(at - g.cells[k].seen, refill), capacity as real)
    else capacity as real
  }

  /** A request drops the bucket of `k` to make room. */
  ghost predicate GoForgets(maxEntries: nat, g: Fifo, r: Request, k: Key) {
    k in g.cells && k !in GoStep(maxEntries, g, r).1.cells
  }

  ghost function GoRemovals(maxEntries: nat, g: Fifo, rs: seq<Request>, k: Key): nat {
    if rs == [] then 0
    else
      var n := |rs| - 1;
      GoRemovals(maxEntries, g, rs[..n], k)
      + (if GoForgets(maxEntries, GoFinal(maxEntries, g, rs[..n]), rs[n], k) then 1 else 0)
  }

  /** How many of the requests on `k` from position `i` on were allowed. */
  ghost function GoAdmittedSince(maxEntries: nat, g: Fifo, rs: seq<Request>, k: Key, i: nat): nat {
    if |rs| <= i then 0
    else
      var n := |rs| - 1;
      GoAdmittedSince(maxEntries, g, rs[..n], k, i)
      + GoPaid(maxEntries, GoFinal(maxEntries, g, rs[..n]), rs[n], k)
  }

  ghost function GoPaid(maxEntries: nat, g: Fifo, r: Request, k: Key): nat {
    if r.key == k && GoStep(maxEntries, g, r).0 then 1 else 0
  }

  ghost predicate GoHasRoom(
    maxEntries: nat, g: Fifo, rs: seq<Request>, k: Key, capacity: nat, refill: real, i: nat, at: real, x: real)
    requires i < |rs|
  {
    GoAdmittedSince(maxEntries, g, rs, k, i) as real + x <= capacity as real + Accrued(at - rs[i].now, refill)
  }

  ghost predicate GoEveryWindow(
    maxEntries: nat, g: Fifo, rs: seq<Request>, k: Key, capacity: nat, refill: real, at: real, x: real)
  {
    forall i :: 0 <= i < |rs| && rs[i].key == k ==> GoHasRoom(maxEntries, g, rs, k, capacity, refill, i, at, x)
  }

  lemma GoStockAfter(maxEntries: nat, g: Fifo, r: Request, capacity: nat, refill: real, at: real, x: real)
    requires r.capacity == capacity && r.refill == refill
    ensures var paid := GoPaid(maxEntries, g, r, r.key) as real;
      x <= GoStock(GoStep(maxEntries, g, r).1, r.key, at, capacity, refill) <==>
      && x <= capacity as real
      && x - Accrued(at - r.now, refill) + paid <= GoStock(g, r.key, r.now, capacity, refill)
    ensures GoStep(maxEntries, g, r).0 <==> 1.0 <= GoStock(g, r.key, r.now, capacity, refill)
  {
    AccruedZero(refill);
    hide Accrued;
    assert r.key !in g.cells ==> GoTokens(maxEntries, g, r) == capacity as real;
    GoUnit(maxEntries, g, r);
  }

  lemma GoStockUntouched(maxEntries: nat, g: Fifo, r: Request, k: Key, capacity: nat, refill: real, at: real)
    requires r.key != k && !GoForgets(maxEntries, g, r, k)
    ensures GoStock(GoStep(maxEntries, g, r).1, k, at, capacity, refill) == GoStock(g, k, at, capacity, refill)
    ensures GoPaid(maxEntries, g, r, k) == 0
  {
    hide Accrued;
  }

  lemma GoAdmittedSnoc(maxEntries: nat, g: Fifo, past: seq<Request>, r: Request, k: Key, i: nat)
    requires i <= |past|
    ensures GoAdmittedSince(maxEntries, g, past + [r], k, i)
         == GoAdmittedSince(maxEntries, g, past, k, i) + GoPaid(maxEntries, GoFinal(maxEntries, g, past), r, k)
    ensures GoAdmittedSince(maxEntries, g, past, k, |past|) == 0
  {
    assert (past + [r])[..|past|] == past;
  }

  lemma GoWindowsSnoc(
    maxEntries: nat, g: Fifo, past: seq<Request>, r: Request, k: Key, capacity: nat, refill: real, at: real, x: real)
    ensures var paid := GoPaid(maxEntries, GoFinal(maxEntries, g, past), r, k) as real;
      GoEveryWindow(maxEntries, g, past + [r], k, capacity, refill, at, x) <==>
      && GoEveryWindow(maxEntries, g, past, k, capacity, refill, r.now, x - Accrued(at - r.now, refill) + paid)
      && (r.key == k ==> x + paid <= capacity as real + Accrued(at - r.now, refill))
  {
    hide GoAdmittedSince, Accrued, GoPaid, GoFinal;
    var rs := past + [r];
    var paid := GoPaid(maxEntries, GoFinal(maxEntries, g, past), r, k) as real;
    var y := x - Accrued(at - r.now, refill) + paid;
    forall i | 0 <= i < |past|
      ensures GoHasRoom(maxEntries, g, rs, k, capacity, refill, i, at, x)
        <==> GoHasRoom(maxEntries, g, past, k, capacity, refill, i, r.now, y)
    {
      GoAdmittedSnoc(maxEntries, g, past, r, k, i);
      AccruedAdds(r.now - past[i].now, at - r.now, refill);
    }
    assert GoHasRoom(maxEntries, g, rs, k, capacity, refill, |past|, at, x) <==>
      x + paid <= capacity as real + Accrued(at - r.now, refill) by {
      GoAdmittedSnoc(maxEntries, g, past, r, k, |past|);
    }
    assert rs[|past|] == r && forall i :: 0 <= i < |past| ==> rs[i] == past[i];
    if GoEveryWindow(maxEntries, g, rs, k, capacity, refill, at, x) {
      forall i | 0 <= i < |past| && past[i].key == k
        ensures GoHasRoom(maxEntries, g, past, k, capacity, refill, i, r.now, y)
      {
        assert GoHasRoom(maxEntries, g, rs, k, capacity, refill, i, at, x);
      }
    }
  }

  lemma GoWindowsShift(
    maxEntries: nat, g: Fifo, rs: seq<Request>, k: Key, capacity: nat, refill: real, at: real, later: real, x: real)
    ensures GoEveryWindow(maxEntries, g, rs, k, capacity, refill, later, x) <==>
      GoEveryWindow(maxEntries, g, rs, k, capacity, refill, at, x - Accrued(later - at, refill))
  {
    hide GoAdmittedSince, Accrued;
    var y := x - Accrued(later - at, refill);
    forall i | 0 <= i < |rs|
      ensures GoHasRoom(maxEntries, g, rs, k, capacity, refill, i, later, x)
        <==> GoHasRoom(maxEntries, g, rs, k, capacity, refill, i, at, y)
    {
      AccruedAdds(at - rs[i].now, later - at, refill);
    }
  }

  lemma {:induction false} GoStockIsWindows(
    maxEntries: nat, g: Fifo, rs: seq<Request>, k: Key, capacity: nat, refill: real, at: real, x: real)
    requires k !in g.cells && SamePolicy(rs, k, capacity, refill) && GoRemovals(maxEntries, g, rs, k) == 0
    ensures x <= GoStock(GoFinal(maxEntries, g, rs), k, at, capacity, refill) <==>
      x <= capacity as real && GoEveryWindow(maxEntries, g, rs, k, capacity, refill, at, x)
  {
    hide GoStep, GoForgets, Accrued, GoStock, GoPaid, GoEveryWindow;
    if rs == [] {
      GoNoWindows(maxEntries, g, k, capacity, refill, at, x);
    } else {
      var past, r := rs[..|rs| - 1], rs[|rs| - 1];
      assert rs == past + [r] && r in rs && forall q :: q in past ==> q in rs;
      GoFinalSnoc(maxEntries, g, past, r);
      var mid := GoFinal(maxEntries, g, past);
      var y := x - Accrued(at - r.now, refill) + GoPaid(maxEntries, mid, r, k) as real;
      GoWindowsSnoc(maxEntries, g, past, r, k, capacity, refill, at, x);
      if r.key == k {
        GoStockIsWindows(maxEntries, g, past, k, capacity, refill, r.now, y);
        GoStockAfter(maxEntries, mid, r, capacity, refill, at, x);
      } else {
        GoStockIsWindows(maxEntries, g, past, k, capacity, refill, at, x);
        GoStockUntouched(maxEntries, mid, r, k, capacity, refill, at);
        GoWindowsShift(maxEntries, g, past, k, capacity, refill, r.now, at, x);
      }
    }
  }

  lemma GoNoWindows(maxEntries: nat, g: Fifo, k: Key, capacity: nat, refill: real, at: real, x: real)
    requires k !in g.cells
    ensures GoEveryWindow(maxEntries, g, [], k, capacity, refill, at, x)
    ensures GoStock(GoFinal(maxEntries, g, []), k, at, capacity, refill) == capacity as real
  {}

  /**
   The Go limiter allows a request exactly when every window that ends with it and starts with an
   earlier request in the life of its bucket has room for one more, whatever the clock does.
   */
  lemma GoAllowedIffEveryWindow(maxEntries: nat, g: Fifo, rs: seq<Request>, r: Request)
    requires r.key !in g.cells && r.capacity > 0 && SamePolicy(rs, r.key, r.capacity, r.refill)
    requires GoRemovals(maxEntries, g, rs, r.key) == 0
    ensures GoStep(maxEntries, GoFinal(maxEntries, g, rs), r).0 <==>
      GoEveryWindow(maxEntries, g, rs, r.key, r.capacity, r.refill, r.now, 1.0)
  {
    hide GoStep, GoFinal, GoStock, GoEveryWindow, GoRemovals;
    GoStockIsWindows(maxEntries, g, rs, r.key, r.capacity, r.refill, r.now, 1.0);
    GoStockAfter(maxEntries, GoFinal(maxEntries, g, rs), r, r.capacity, r.refill, r.now, 0.0);
  }
}
