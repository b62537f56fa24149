/** The registry's answers from the calls alone: who still has its breaker, and what the counters say. */
module BreakerHistory {
  import opened Prelude
  import opened BreakerRegistry
  import StringOrder

  // ----- the history of calls

  /** Position of the last call on `k`, or -1. */
  ghost function LastCall(run: seq<Turn>, k: Key): (i: int)
    ensures -1 <= i < |run| && (i >= 0 ==> run[i].key == k)
    ensures forall j :: i < j < |run| ==> run[j].key != k
  {
    if run == [] then -1
    else if run[|run| - 1].key == k then |run| - 1
    else LastCall(run[..|run| - 1], k)
  }

  /** Keys called after position `i`. */
  ghost function CalledSince(run: seq<Turn>, i: int): set<Key> {
    set j | 0 <= j < |run| && i < j :: run[j].key
  }

  ghost function KeysOf(run: seq<Turn>): set<Key> {
    set j | 0 <= j < |run| :: run[j].key
  }

  /** Times do not go back. */
  ghost predicate Forward(run: seq<Turn>) {
    forall i, j :: 0 <= i < j < |run| ==> run[i].now <= run[j].now
  }

  /** No two calls at one instant, or never more keys than places: then the oldest key is unique. */
  ghost predicate Unambiguous(c: Config, run: seq<Turn>) {
    || (forall i, j :: 0 <= i < j < |run| ==> run[i].now < run[j].now)
    || |KeysOf(run)| <= c.maxEntries
  }

  /** A call at `now` finds the breaker of `k`: recently used, and not crowded out since. */
  ghost predicate Finds(c: Config, run: seq<Turn>, k: Key, now: real) {
    var i := LastCall(run, k);
    i >= 0 && now - run[i].now < c.idleTtl && |CalledSince(run, i)| < c.maxEntries
  }

  /** After the run `k` still has its breaker. */
  ghost predicate Holds(c: Config, run: seq<Turn>, k: Key) {
    run != [] && Finds(c, run, k, run[|run| - 1].now)
  }

  lemma LastCallSnoc(past: seq<Turn>, t: Turn, k: Key)
    ensures LastCall(past + [t], k) == if t.key == k then |past| else LastCall(past, k)
  {
    assert (past + [t])[..|past|] == past;
  }

  lemma SinceSnoc(past: seq<Turn>, t: Turn, i: int)
    requires i < |past|
    ensures CalledSince(past + [t], i) == CalledSince(past, i) + {t.key}
  {
    var run := past + [t];
    assert run[|past|] == t && forall j :: 0 <= j < |past| ==> run[j] == past[j];
    assert t.key in CalledSince(run, i);
    forall k | k in CalledSince(past, i) ensures k in CalledSince(run, i) {
      var j :| 0 <= j < |past| && i < j && past[j].key == k;
      assert run[j].key == k;
    }
  }

  lemma SincePrefix(past: seq<Turn>, t: Turn)
    ensures Forward(past + [t]) ==> Forward(past) && forall i :: 0 <= i < |past| ==> past[i].now <= t.now
    ensures CalledSince(past + [t], |past|) == {}
  {
    var run := past + [t];
    assert run[|past|] == t && forall j :: 0 <= j < |past| ==> run[j] == past[j];
    if Forward(run) {
      forall i | 0 <= i < |past| ensures past[i].now <= t.now {
        assert run[i].now <= run[|past|].now;
      }
      forall i, j | 0 <= i < j < |past| ensures past[i].now <= past[j].now {
        assert run[i].now <= run[j].now;
      }
    }
  }

  lemma UnambiguousPrefix(c: Config, past: seq<Turn>, t: Turn)
    requires Unambiguous(c, past + [t])
    ensures Unambiguous(c, past)
  {
    var run := past + [t];
    assert forall j :: 0 <= j < |past| ==> run[j] == past[j];
    if |KeysOf(run)| <= c.maxEntries {
      assert KeysOf(past) <= KeysOf(run);
      SubsetSize(KeysOf(past), KeysOf(run));
    } else {
      forall i, j | 0 <= i < j < |past| ensures past[i].now < past[j].now {
        assert run[i].now < run[j].now;
      }
    }
  }

  lemma {:induction false} RunSnoc(c: Config, s: Registry, past: seq<Turn>, t: Turn)
    requires IsRun(c, s, past + [t])
    ensures IsRun(c, s, past) && Step(c, Last(s, past), t.key, t.now, t.after, t.breaker)
    ensures Last(s, past + [t]) == t.after
    decreases |past|
  {
    hide Step;
    if past == [] {
      assert past + [t] == [t] && [t][1..] == [];
    } else {
      assert (past + [t])[1..] == past[1..] + [t];
      RunSnoc(c, past[0].after, past[1..], t);
    }
  }

  // ----- who has a breaker

  /** The registry holds exactly the keys that the calls say, each as of its last call. */
  ghost predicate Matches(c: Config, run: seq<Turn>) {
    var s := Last(NEW, run);
    && (forall k :: k in s.entries <==> Holds(c, run, k))
    && (forall k :: k in s.entries ==>
          && LastCall(run, k) >= 0
          && s.entries[k] == Entry(run[LastCall(run, k)].breaker, run[LastCall(run, k)].now))
  }

  lemma KeptIs(c: Config, past: seq<Turn>, now: real, k: Key)
    requires Matches(c, past) && forall i :: 0 <= i < |past| ==> past[i].now <= now
    requires Forward(past)
    ensures k in Retained(Last(NEW, past).entries, now, c.idleTtl) <==> Finds(c, past, k, now)
  {
    hide Last, CalledSince, LastCall;
    if past != [] {
      assert past[|past| - 1].now <= now;
      if LastCall(past, k) >= 0 {
        assert past[LastCall(past, k)].now <= past[|past| - 1].now;
      }
    }
  }

  lemma LaterKept(c: Config, past: seq<Turn>, now: real, k: Key, l: Key)
    requires Forward(past) && Finds(c, past, k, now) && l in CalledSince(past, LastCall(past, k))
    ensures Finds(c, past, l, now) && LastCall(past, k) < LastCall(past, l)
  {
    var i, j := LastCall(past, k), LastCall(past, l);
    assert i < j;
    assert past[i].now <= past[j].now;
    assert CalledSince(past, j) <= CalledSince(past, i);
    SubsetSize(CalledSince(past, j), CalledSince(past, i));
  }

  /** Whoever was called since, and the key itself, are all kept. */
  lemma SinceKept(c: Config, past: seq<Turn>, now: real, k: Key)
    requires Matches(c, past) && Forward(past) && forall i :: 0 <= i < |past| ==> past[i].now <= now
    requires Finds(c, past, k, now)
    ensures var since := CalledSince(past, LastCall(past, k));
      k !in since && since + {k} <= Retained(Last(NEW, past).entries, now, c.idleTtl).Keys
  {
    hide Matches, Retained, Last;
    KeptIs(c, past, now, k);
    forall l | l in CalledSince(past, LastCall(past, k)) ensures l in Retained(Last(NEW, past).entries, now, c.idleTtl) {
      LaterKept(c, past, now, k, l);
      KeptIs(c, past, now, l);
    }
  }

  /** Kept keys have been called before. */
  lemma KeptCalled(c: Config, past: seq<Turn>, now: real)
    requires Matches(c, past) && Forward(past) && forall i :: 0 <= i < |past| ==> past[i].now <= now
    ensures Retained(Last(NEW, past).entries, now, c.idleTtl).Keys <= KeysOf(past)
  {
    hide Matches, Retained, Last;
    forall l | l in Retained(Last(NEW, past).entries, now, c.idleTtl) ensures l in KeysOf(past) {
      KeptIs(c, past, now, l);
      assert past[LastCall(past, l)].key == l;
    }
  }

  /** Without ties, the victim is the kept key called longest ago. */
  lemma VictimIsOldest(c: Config, past: seq<Turn>, now: real, v: Key, l: Key)
    requires Matches(c, past) && forall i, j :: 0 <= i < j < |past| ==> past[i].now < past[j].now
    requires var kept := Retained(Last(NEW, past).entries, now, c.idleTtl);
      IsVictim(kept, v) && l in kept && l != v
    ensures LastCall(past, v) < LastCall(past, l)
  {
    hide Last, LastCall;
    var kept := Retained(Last(NEW, past).entries, now, c.idleTtl);
    assert Precedes(kept, v, l);
    var i, j := LastCall(past, v), LastCall(past, l);
    assert past[i].key == v && past[j].key == l;
  }

  lemma StrictPrefix(past: seq<Turn>, t: Turn)
    requires forall i, j :: 0 <= i < j < |past + [t]| ==> (past + [t])[i].now < (past + [t])[j].now
    ensures forall i, j :: 0 <= i < j < |past| ==> past[i].now < past[j].now
  {
    var run := past + [t];
    forall i, j | 0 <= i < j < |past| ensures past[i].now < past[j].now {
      assert run[i] == past[i] && run[j] == past[j] && run[i].now < run[j].now;
    }
  }

  /** With few keys there is always room. */
  lemma FewFit(c: Config, past: seq<Turn>, t: Turn)
    requires Matches(c, past) && Forward(past + [t]) && |KeysOf(past + [t])| <= c.maxEntries
    ensures var kept := Retained(Last(NEW, past).entries, t.now, c.idleTtl);
      t.key in kept || |kept| < c.maxEntries
  {
    hide Matches, Last, Retained;
    SincePrefix(past, t);
    KeptCalled(c, past, t.now);
    var kept, run := Retained(Last(NEW, past).entries, t.now, c.idleTtl), past + [t];
    assert run[|past|] == t && forall j :: 0 <= j < |past| ==> run[j] == past[j];
    if t.key !in kept {
      assert kept.Keys + {t.key} <= KeysOf(run);
      SubsetSize(kept.Keys + {t.key}, KeysOf(run));
    }
  }

  /** A key that is found makes room exactly when the places are full of keys called after it. */
  lemma EvictedIff(c: Config, past: seq<Turn>, t: Turn, k: Key)
    requires CheckConfig(c).None? && Balanced(c, Last(NEW, past)) && Matches(c, past)
    requires Forward(past + [t]) && Unambiguous(c, past + [t])
    requires Step(c, Last(NEW, past), t.key, t.now, t.after, t.breaker)
    requires k != t.key && Finds(c, past, k, t.now)
    ensures k in t.after.entries <==> |CalledSince(past, LastCall(past, k)) + {t.key}| < c.maxEntries
  {
    hide Matches, Last, CalledSince, LastCall, Owned, IsVictim, Retained;
    SincePrefix(past, t);
    var s := Last(NEW, past);
    var kept := Retained(s.entries, t.now, c.idleTtl);
    var since := CalledSince(past, LastCall(past, k));
    RetainedSmaller(s.entries, t.now, c.idleTtl);
    KeptIs(c, past, t.now, k);
    SinceKept(c, past, t.now, k);
    SubsetSize(since + {k}, kept.Keys);
    assert |since + {k}| == |since| + 1;
    if t.key in since {
      assert since + {t.key} == since && t.key in kept.Keys;
    } else {
      assert |since + {t.key}| == |since| + 1;
      if |KeysOf(past + [t])| <= c.maxEntries {
        FewFit(c, past, t);
        Crowded(c, past, t, k);
      } else {
        StrictPrefix(past, t);
        StrictEvicts(c, past, t, k);
      }
    }
  }

  /** With few keys a key is never crowded out. */
  lemma Crowded(c: Config, past: seq<Turn>, t: Turn, k: Key)
    requires |KeysOf(past + [t])| <= c.maxEntries && LastCall(past, k) >= 0 && k != t.key
    ensures |CalledSince(past, LastCall(past, k)) + {t.key}| < c.maxEntries
  {
    var run := past + [t];
    var since := CalledSince(past, LastCall(past, k)) + {t.key};
    assert run[|past|] == t && forall j :: 0 <= j < |past| ==> run[j] == past[j];
    assert run[LastCall(past, k)].key == k;
    assert since + {k} <= KeysOf(run);
    SubsetSize(since + {k}, KeysOf(run));
    assert |since + {k}| == |since| + 1;
  }

  lemma StrictEvicts(c: Config, past: seq<Turn>, t: Turn, k: Key)
    requires CheckConfig(c).None? && |Last(NEW, past).entries| <= c.maxEntries && Matches(c, past)
    requires Forward(past + [t]) && forall i, j :: 0 <= i < j < |past| ==> past[i].now < past[j].now
    requires Step(c, Last(NEW, past), t.key, t.now, t.after, t.breaker)
    requires k != t.key && Finds(c, past, k, t.now) && t.key !in CalledSince(past, LastCall(past, k))
    ensures k in t.after.entries <==> |CalledSince(past, LastCall(past, k))| + 1 < c.maxEntries
  {
    hide Matches, Last, LastCall, Finds, IsVictim, Retained, CalledSince;
    SincePrefix(past, t);
    var s := Last(NEW, past);
    var kept := Retained(s.entries, t.now, c.idleTtl);
    var since := CalledSince(past, LastCall(past, k));
    RetainedSmaller(s.entries, t.now, c.idleTtl);
    KeptIs(c, past, t.now, k);
    SinceKept(c, past, t.now, k);
    SubsetSize(since + {k}, kept.Keys);
    assert |since + {k}| == |since| + 1 && |kept.Keys| == |kept|;
    if t.key !in kept && |kept| >= c.maxEntries {
      var v :| IsVictim(kept, v)
        && t.after == Registry((kept - {v})[t.key := Entry(t.breaker, t.now)],
                               s.evictions + Dropped(s.entries, kept) + 1, s.created + 1);
      VictimPresent(kept, v);
      OthersSince(c, past, t.now, v);
      if v == k {
        SubsetSize(kept.Keys - {k}, since);
      } else {
        VictimIsOldest(c, past, t.now, v, k);
        NotSince(past, v, k);
        SubsetSize(since + {k} + {v}, kept.Keys);
        assert |since + {k} + {v}| == |since| + 2;
      }
    }
  }

  lemma NotSince(past: seq<Turn>, v: Key, k: Key)
    requires LastCall(past, v) < LastCall(past, k)
    ensures v !in CalledSince(past, LastCall(past, k))
  {}

  /** Everyone kept beside the victim was called after it. */
  lemma OthersSince(c: Config, past: seq<Turn>, now: real, v: Key)
    requires Matches(c, past) && forall i, j :: 0 <= i < j < |past| ==> past[i].now < past[j].now
    requires IsVictim(Retained(Last(NEW, past).entries, now, c.idleTtl), v)
    ensures Retained(Last(NEW, past).entries, now, c.idleTtl).Keys - {v} <= CalledSince(past, LastCall(past, v))
  {
    hide Matches, Last, IsVictim, Retained;
    var kept := Retained(Last(NEW, past).entries, now, c.idleTtl);
    forall l | l in kept && l != v ensures l in CalledSince(past, LastCall(past, v)) {
      VictimIsOldest(c, past, now, v, l);
      assert past[LastCall(past, l)].key == l;
    }
  }

  lemma MatchesSnoc(c: Config, past: seq<Turn>, t: Turn, k: Key)
    requires CheckConfig(c).None? && Balanced(c, Last(NEW, past)) && Matches(c, past)
    requires Forward(past + [t]) && Unambiguous(c, past + [t])
    requires Step(c, Last(NEW, past), t.key, t.now, t.after, t.breaker)
    ensures var run := past + [t];
      && (k in t.after.entries <==> Finds(c, run, k, t.now))
      && (k in t.after.entries ==>
            && LastCall(run, k) >= 0
            && t.after.entries[k] == Entry(run[LastCall(run, k)].breaker, run[LastCall(run, k)].now))
  {
    hide Last, CalledSince, LastCall, Owned, Step, Loses, Retained, Unambiguous;
    var run, s := past + [t], Last(NEW, past);
    assert run[|past|] == t && forall j :: 0 <= j < |past| ==> run[j] == past[j];
    SincePrefix(past, t);
    StepFrame(c, s, t.key, t.now, t.after, t.breaker, k);
    LastCallSnoc(past, t, k);
    if k == t.key {
    } else {
      SinceSnoc(past, t, LastCall(past, k));
      if Finds(c, past, k, t.now) {
        EvictedIff(c, past, t, k);
      } else {
        KeptIs(c, past, t.now, k);
        LostStays(c, s, t, k);
        SubsetSize(CalledSince(past, LastCall(past, k)), CalledSince(past, LastCall(past, k)) + {t.key});
      }
    }
  }

  lemma LostStays(c: Config, s: Registry, t: Turn, k: Key)
    requires Step(c, s, t.key, t.now, t.after, t.breaker) && k != t.key
    requires k !in Retained(s.entries, t.now, c.idleTtl)
    ensures k !in t.after.entries
  {
    hide Retained, IsVictim;
  }

  /**
   In every run with a clock that does not go back, without ties or with no more keys than places,
   the keys with a breaker are exactly those called less than the idle time ago with fewer than
   `maxEntries` other keys called since; each has the breaker its last call was given.
   */
  lemma {:induction false} RegistryIsHistory(c: Config, run: seq<Turn>)
    requires CheckConfig(c).None? && IsRun(c, NEW, run) && Forward(run) && Unambiguous(c, run)
    ensures Matches(c, run)
  {
    hide CheckConfig, Step, Balanced, Finds, LastCall, Forward, Unambiguous, Last, IsRun;
    if run == [] {
      NoCalls(c);
    } else {
      var past, t := run[..|run| - 1], run[|run| - 1];
      assert run == past + [t];
      RunSnoc(c, NEW, past, t);
      SincePrefix(past, t);
      UnambiguousPrefix(c, past, t);
      RegistryIsHistory(c, past);
      NewIsBalanced(c);
      Conservation(c, NEW, past);
      forall k
        ensures k in t.after.entries <==> Finds(c, run, k, t.now)
        ensures k in t.after.entries ==>
          && LastCall(run, k) >= 0
          && t.after.entries[k] == Entry(run[LastCall(run, k)].breaker, run[LastCall(run, k)].now)
      {
        MatchesSnoc(c, past, t, k);
      }
    }
  }

  lemma NoCalls(c: Config)
    ensures Matches(c, [])
  {}

  // ----- what a call gets

  /** The next call of a run. */
  ghost predicate Extends(c: Config, run: seq<Turn>, t: Turn) {
    CheckConfig(c).None? && IsRun(c, NEW, run + [t]) && Forward(run + [t]) && Unambiguous(c, run + [t])
  }

  /**
   A call gets the breaker of the key's last call exactly when that lies less than the idle time
   back and fewer than `maxEntries` other keys were called since; otherwise it gets one that no call
   has had, and the number of breakers made goes up by one.
   */
  lemma CallGets(c: Config, run: seq<Turn>, t: Turn)
    requires Extends(c, run, t)
    ensures IsRun(c, NEW, run)
    ensures var s := Last(NEW, run);
      if Finds(c, run, t.key, t.now)
      then LastCall(run, t.key) >= 0 && t.breaker == run[LastCall(run, t.key)].breaker && t.after.created == s.created
      else t.breaker == s.created && t.after.created == s.created + 1
    ensures forall i :: 0 <= i < |run| ==> run[i].breaker < Last(NEW, run).created
  {
    hide CheckConfig, Finds, LastCall, Matches;
    RunSnoc(c, NEW, run, t);
    SincePrefix(run, t);
    UnambiguousPrefix(c, run, t);
    RegistryIsHistory(c, run);
    KeptIs(c, run, t.now, t.key);
    BreakersOld(c, run);
    FoundBreaker(c, run, t);
  }

  lemma FoundBreaker(c: Config, run: seq<Turn>, t: Turn)
    requires Matches(c, run) && Step(c, Last(NEW, run), t.key, t.now, t.after, t.breaker)
    ensures var s := Last(NEW, run);
      if t.key in Retained(s.entries, t.now, c.idleTtl)
      then LastCall(run, t.key) >= 0 && t.breaker == run[LastCall(run, t.key)].breaker && t.after.created == s.created
      else t.breaker == s.created && t.after.created == s.created + 1
  {
    hide IsVictim, LastCall, Last, Holds;
  }

  lemma {:induction false} BreakersOld(c: Config, run: seq<Turn>)
    requires CheckConfig(c).None? && IsRun(c, NEW, run)
    ensures forall i :: 0 <= i < |run| ==> run[i].breaker < Last(NEW, run).created
  {
    if run == [] {
    } else {
      var past, t := run[..|run| - 1], run[|run| - 1];
      assert run == past + [t];
      RunSnoc(c, NEW, past, t);
      BreakersOld(c, past);
      NewIsBalanced(c);
      Conservation(c, NEW, past);
      hide IsRun, IsVictim, CheckConfig;
      assert forall i :: 0 <= i < |past| ==> run[i] == past[i];
      StepCreates(c, Last(NEW, past), t);
    }
  }

  lemma StepCreates(c: Config, s: Registry, t: Turn)
    requires Balanced(c, s) && Step(c, s, t.key, t.now, t.after, t.breaker)
    ensures s.created <= t.after.created && t.breaker < t.after.created
  {
    hide IsVictim;
  }

  /** How many calls of the run did not find a breaker. */
  ghost function Misses(c: Config, run: seq<Turn>): nat {
    if run == [] then 0
    else
      var past, t := run[..|run| - 1], run[|run| - 1];
      Misses(c, past) + (if Finds(c, past, t.key, t.now) then 0 else 1)
  }

  /** The counters: one breaker made for every miss, and every one not held any more counted as evicted. */
  lemma {:induction false} CountersExact(c: Config, run: seq<Turn>)
    requires CheckConfig(c).None? && IsRun(c, NEW, run) && Forward(run) && Unambiguous(c, run)
    ensures var s := Last(NEW, run);
      && s.created == Misses(c, run)
      && s.entries.Keys == (set k | k in KeysOf(run) && Holds(c, run, k))
      && s.evictions == Misses(c, run) - |set k | k in KeysOf(run) && Holds(c, run, k)|
  {
    hide CheckConfig, Step, Finds, Holds, LastCall, Forward, Unambiguous, IsRun, Owned, KeysOf, Matches;
    EntriesAre(c, run);
    NewIsBalanced(c);
    Conservation(c, NEW, run);
    if run == [] {
    } else {
      var past, t := run[..|run| - 1], run[|run| - 1];
      assert run == past + [t];
      CallGets(c, past, t);
      RunSnoc(c, NEW, past, t);
      SincePrefix(past, t);
      UnambiguousPrefix(c, past, t);
      CountersExact(c, past);
      hide Last;
    }
  }

  lemma EntriesAre(c: Config, run: seq<Turn>)
    requires CheckConfig(c).None? && IsRun(c, NEW, run) && Forward(run) && Unambiguous(c, run)
    ensures Last(NEW, run).entries.Keys == (set k | k in KeysOf(run) && Holds(c, run, k))
  {
    hide CheckConfig, IsRun, Holds, LastCall, Forward, Unambiguous, KeysOf, Last;
    RegistryIsHistory(c, run);
    forall k | Holds(c, run, k) ensures k in KeysOf(run) {
      HeldCalled(c, run, k);
    }
  }

  lemma HeldCalled(c: Config, run: seq<Turn>, k: Key)
    requires Holds(c, run, k)
    ensures k in KeysOf(run)
  {
    assert run[LastCall(run, k)].key == k;
  }

  /**
   A key called at one time and again less than the idle time later keeps its breaker, if the run
   has no more keys than there are places. Called again the idle time later or more, it gets a
   new one, and a breaker that was still there is counted as evicted.
   */
  lemma IdleDecides(c: Config, run: seq<Turn>, t: Turn)
    requires CheckConfig(c).None? && IsRun(c, NEW, run + [t]) && Forward(run + [t])
    requires |KeysOf(run + [t])| <= c.maxEntries && LastCall(run, t.key) >= 0
    ensures IsRun(c, NEW, run)
    ensures var idle := t.now - run[LastCall(run, t.key)].now;
      && (idle < c.idleTtl ==> t.breaker == run[LastCall(run, t.key)].breaker)
      && (idle >= c.idleTtl ==>
            && (forall i :: 0 <= i < |run| ==> run[i].breaker != t.breaker)
            && (Holds(c, run, t.key) ==> t.after.evictions > Last(NEW, run).evictions))
  {
    hide CheckConfig, LastCall;
    RunSnoc(c, NEW, run, t);
    CallGets(c, run, t);
    FewSince(run, t);
    if t.now - run[LastCall(run, t.key)].now >= c.idleTtl && Holds(c, run, t.key) {
      SincePrefix(run, t);
      UnambiguousPrefix(c, run, t);
      RegistryIsHistory(c, run);
      KeptIs(c, run, t.now, t.key);
      ExpiryCounted(c, Last(NEW, run), t);
    }
  }

  lemma FewSince(run: seq<Turn>, t: Turn)
    requires LastCall(run, t.key) >= 0
    ensures |CalledSince(run, LastCall(run, t.key))| < |KeysOf(run + [t])|
  {
    var all := run + [t];
    var since := CalledSince(run, LastCall(run, t.key));
    assert all[|run|] == t && forall j :: 0 <= j < |run| ==> all[j] == run[j];
    assert since + {t.key} <= KeysOf(all);
    SubsetSize(since + {t.key}, KeysOf(all));
    assert |since + {t.key}| == |since| + 1;
  }

  lemma ExpiryCounted(c: Config, s: Registry, t: Turn)
    requires Step(c, s, t.key, t.now, t.after, t.breaker)
    requires t.key in s.entries && t.key !in Retained(s.entries, t.now, c.idleTtl)
    ensures t.after.evictions > s.evictions
  {
    hide IsVictim;
    var kept := Retained(s.entries, t.now, c.idleTtl);
    assert kept.Keys <= s.entries.Keys - {t.key};
    SubsetSize(kept.Keys, s.entries.Keys - {t.key});
    assert |s.entries.Keys - {t.key}| == |s.entries| - 1;
  }

  /** A call whose time lies before the key's last use finds the key in use: it does not count as idle. */
  lemma ClockBehind(c: Config, s: Registry, t: Turn)
    requires CheckConfig(c).None? && Step(c, s, t.key, t.now, t.after, t.breaker)
    requires t.key in s.entries && t.now < s.entries[t.key].lastUsed
    ensures t.breaker == s.entries[t.key].breaker && t.after.created == s.created
  {
    hide IsVictim;
    assert t.key in Retained(s.entries, t.now, c.idleTtl);
  }

  /** Which configurations are refused, and as what. */
  lemma ConfigIff(c: Config)
    ensures CheckConfig(c).None? <==> 1 <= c.maxEntries <= 1024 && c.idleTtl > 0.0
    ensures CheckConfig(c) == Some(TtlInvalid) <==> 1 <= c.maxEntries <= 1024 && c.idleTtl <= 0.0
  {}

  /** Whoever is given up for room was used before every key that stays, or at the same time with a smaller key. */
  lemma CrowdedOut(c: Config, s: Registry, t: Turn, v: Key, k: Key)
    requires Step(c, s, t.key, t.now, t.after, t.breaker)
    requires v in Retained(s.entries, t.now, c.idleTtl) && v !in t.after.entries
    requires k in t.after.entries && k != t.key
    ensures k in s.entries && s.entries[v].lastUsed <= s.entries[k].lastUsed
    ensures s.entries[v].lastUsed == s.entries[k].lastUsed ==>
      || StringOrder.Less(v.dependency, k.dependency)
      || (v.dependency == k.dependency && StringOrder.Less(v.operation, k.operation))
  {
    hide StringOrder.Less;
    var kept := Retained(s.entries, t.now, c.idleTtl);
    var w :| IsVictim(kept, w) && t.after.entries == (kept - {w})[t.key := Entry(t.breaker, t.now)];
    assert w == v;
    assert Precedes(kept, v, k);
  }
}
