/**
 The bounded registry of circuit breakers. A call reads the clock before it waits for the lock,
 so the times seen under the lock may go back; nothing here assumes that they do not.
 */
module BreakerRegistry {
  import opened Prelude
  import StringOrder

  const MAX_BREAKER_REGISTRY_ENTRIES: nat := 1024

  datatype Key = Key(dependency: string, operation: string)

  /** Breakers are told apart by the order in which they were created. */
  datatype Entry = Entry(breaker: nat, lastUsed: real)

  type Entries = map<Key, Entry>

  datatype Config = Config(maxEntries: nat, idleTtl: real)

  datatype ConfigError = CapacityInvalid | TtlInvalid

  datatype Registry = Registry(entries: Entries, evictions: nat, created: nat)

  const NEW := Registry(map[], 0, 0)

  function CheckConfig(c: Config): Option<ConfigError> {
    if c.maxEntries == 0 || c.maxEntries > MAX_BREAKER_REGISTRY_ENTRIES then Some(CapacityInvalid)
    else if c.idleTtl <= 0.0 then Some(TtlInvalid)
    else None
  }

  // ----- the eviction order

  predicate KeyLess(a: Key, b: Key) {
    StringOrder.Less(a.dependency, b.dependency)
    || (a.dependency == b.dependency && StringOrder.Less(a.operation, b.operation))
  }

  /** Older first, then the smaller key. */
  predicate Precedes(entries: Entries, a: Key, b: Key)
    requires a in entries && b in entries
  {
    entries[a].lastUsed < entries[b].lastUsed
    || (entries[a].lastUsed == entries[b].lastUsed && KeyLess(a, b))
  }

  lemma KeyLessTotal(a: Key, b: Key)
    ensures KeyLess(a, b) || a == b || KeyLess(b, a)
    ensures !(KeyLess(a, b) && KeyLess(b, a))
  {
    StringOrder.Connected(a.dependency, b.dependency);
    StringOrder.Connected(a.operation, b.operation);
    NotBoth(a.dependency, b.dependency);
    NotBoth(a.operation, b.operation);
  }

  lemma NotBoth(a: string, b: string)
    ensures !(StringOrder.Less(a, b) && StringOrder.Less(b, a))
  {
    StringOrder.Irreflexive(a);
    if StringOrder.Less(a, b) && StringOrder.Less(b, a) {
      StringOrder.Transitive(a, b, a);
    }
  }

  lemma KeyLessTransitive(a: Key, b: Key, c: Key)
    requires KeyLess(a, b) && KeyLess(b, c)
    ensures KeyLess(a, c)
  {
    if StringOrder.Less(a.dependency, b.dependency) && StringOrder.Less(b.dependency, c.dependency) {
      StringOrder.Transitive(a.dependency, b.dependency, c.dependency);
    } else if a.dependency == b.dependency == c.dependency {
      StringOrder.Transitive(a.operation, b.operation, c.operation);
    }
  }

  lemma PrecedesTransitive(entries: Entries, a: Key, b: Key, c: Key)
    requires a in entries && b in entries && c in entries
    requires Precedes(entries, a, b) && Precedes(entries, b, c)
    ensures Precedes(entries, a, c)
  {
    if entries[a].lastUsed == entries[c].lastUsed {
      KeyLessTransitive(a, b, c);
    }
  }

  /** The minimum by last use and then by key. */
  ghost predicate IsVictim(entries: Entries, v: Key) {
    v in entries && forall k :: k in entries && k != v ==> Precedes(entries, v, k)
  }

  lemma VictimUnique(entries: Entries, v: Key, w: Key)
    requires IsVictim(entries, v) && IsVictim(entries, w)
    ensures v == w
  {
    KeyLessTotal(v, w);
  }

  method FindVictim(entries: Entries) returns (v: Key)
    requires entries != map[]
    ensures IsVictim(entries, v)
  {
    assert entries.Keys != {};
    var rest := entries.Keys;
    v :| v in rest;
    rest := rest - {v};
    while rest != {}
      invariant rest <= entries.Keys && v in entries && v !in rest
      invariant forall k :: k in entries && k != v && k !in rest ==> Precedes(entries, v, k)
      decreases rest
    {
      var k :| k in rest;
      rest := rest - {k};
      KeyLessTotal(k, v);
      if Precedes(entries, k, v) {
        forall x | x in entries && x != k && x !in rest ensures Precedes(entries, k, x) {
          if x != v {
            PrecedesTransitive(entries, k, v, x);
          }
        }
        v := k;
      }
    }
  }

  // ----- one call

  function Idle(e: Entry, now: real): real {
    if e.lastUsed <= now then now - e.lastUsed else 0.0
  }

  function Retained(entries: Entries, now: real, ttl: real): Entries {
    map k | k in entries && Idle(entries[k], now) < ttl :: entries[k]
  }

  function Dropped(before: Entries, kept: Entries): nat {
    if |kept| <= |before| then |before| - |kept| else 0
  }

  /** What one call does; `victim` is the key given up for room, if room was needed. */
  ghost predicate Step(c: Config, s: Registry, key: Key, now: real, t: Registry, breaker: nat) {
    var kept := Retained(s.entries, now, c.idleTtl);
    var evictions := s.evictions + Dropped(s.entries, kept);
    if key in kept then
      && breaker == kept[key].breaker
      && t == Registry(kept[key := Entry(breaker, now)], evictions, s.created)
    else if |kept| >= c.maxEntries && kept != map[] then
      && breaker == s.created
      && exists v :: IsVictim(kept, v)
           && t == Registry((kept - {v})[key := Entry(breaker, now)], evictions + 1, s.created + 1)
    else
      && breaker == s.created
      && t == Registry(kept[key := Entry(breaker, now)], evictions, s.created + 1)
  }

  lemma RetainedSmaller(entries: Entries, now: real, ttl: real)
    ensures |Retained(entries, now, ttl)| <= |entries|
  {
    SubsetSize(Retained(entries, now, ttl).Keys, entries.Keys);
  }

  class CircuitBreakerRegistry {
    const config: Config
    var entries: Entries
    var evictions: nat
    var created: nat

    ghost function View(): Registry
      reads this
    {
      Registry(entries, evictions, created)
    }

    constructor (config: Config)
      requires CheckConfig(config).None?
      ensures View() == NEW && this.config == config
    {
      this.config := config;
      entries, evictions, created := map[], 0, 0;
    }

    method GetOrInsert(key: Key, now: real) returns (breaker: nat)
      modifies this
      ensures Step(config, old(View()), key, now, View(), breaker)
    {
      var before := entries;
      RetainedSmaller(entries, now, config.idleTtl);
      entries := Retained(entries, now, config.idleTtl);
      var expired := Dropped(before, entries);
      if expired > 0 {
        evictions := evictions + expired;
      }
      if key in entries {
        breaker := entries[key].breaker;
        entries := entries[key := Entry(breaker, now)];
        return;
      }
      if |entries| >= config.maxEntries && entries != map[] {
        var victim := FindVictim(entries);
        entries := entries - {victim};
        evictions := evictions + 1;
      }
      breaker := created;
      created := created + 1;
      entries := entries[key := Entry(breaker, now)];
    }
  }

  // ----- every run

  /** Breakers are shared by nobody, within the bound, and all accounted for. */
  ghost predicate Balanced(c: Config, s: Registry) {
    && s.created == |s.entries| + s.evictions
    && |s.entries| <= c.maxEntries
    && Owned(s.entries, s.created)
  }

  /** No two keys share a breaker, and every breaker was created before. */
  ghost predicate Owned(entries: Entries, created: nat) {
    && (forall k :: k in entries ==> entries[k].breaker < created)
    && (forall k, l :: k in entries && l in entries && entries[k].breaker == entries[l].breaker ==> k == l)
  }

  /** `k` loses its breaker in this call: it idled too long, or it is the victim. */
  ghost predicate Loses(c: Config, s: Registry, key: Key, now: real, k: Key) {
    var kept := Retained(s.entries, now, c.idleTtl);
    && k in s.entries
    && (k !in kept || (key !in kept && |kept| >= c.maxEntries && IsVictim(kept, k)))
  }

  /** One step of a run: a call, with the state it leaves and the breaker it hands out. */
  datatype Turn = Turn(key: Key, now: real, after: Registry, breaker: nat)

  ghost predicate IsRun(c: Config, s: Registry, run: seq<Turn>)
    decreases |run|
  {
    run == [] || (Step(c, s, run[0].key, run[0].now, run[0].after, run[0].breaker)
                  && IsRun(c, run[0].after, run[1..]))
  }

  ghost function Last(s: Registry, run: seq<Turn>): Registry
    decreases |run|
  {
    if run == [] then s else Last(run[0].after, run[1..])
  }

  lemma InsertSize(entries: Entries, key: Key, e: Entry)
    ensures |entries[key := e]| == |entries| + (if key in entries then 0 else 1)
  {
    if key in entries {
      assert entries[key := e].Keys == entries.Keys;
    } else {
      assert entries[key := e].Keys == entries.Keys + {key};
    }
  }

  lemma RemoveSize(entries: Entries, v: Key)
    requires v in entries
    ensures |entries - {v}| == |entries| - 1
  {
    assert (entries - {v}).Keys == entries.Keys - {v};
  }

  lemma OwnedReuse(entries: Entries, created: nat, key: Key, now: real)
    requires Owned(entries, created) && key in entries
    ensures Owned(entries[key := Entry(entries[key].breaker, now)], created)
  {}

  lemma OwnedInsert(entries: Entries, created: nat, key: Key, now: real)
    requires Owned(entries, created)
    ensures Owned(entries[key := Entry(created, now)], created + 1)
  {}

  lemma OwnedFewer(entries: Entries, created: nat, fewer: Entries)
    requires Owned(entries, created)
    requires forall k :: k in fewer ==> k in entries && fewer[k] == entries[k]
    ensures Owned(fewer, created)
  {}

  lemma InsertBalanced(c: Config, entries: Entries, evictions: nat, created: nat, key: Key, now: real)
    requires Balanced(c, Registry(entries, evictions, created)) && |entries| < c.maxEntries
    requires key !in entries
    ensures Balanced(c, Registry(entries[key := Entry(created, now)], evictions, created + 1))
  {
    hide Owned;
    OwnedInsert(entries, created, key, now);
    InsertSize(entries, key, Entry(created, now));
  }

  lemma ReuseBalanced(c: Config, entries: Entries, evictions: nat, created: nat, key: Key, now: real)
    requires Balanced(c, Registry(entries, evictions, created)) && key in entries
    ensures Balanced(c, Registry(entries[key := Entry(entries[key].breaker, now)], evictions, created))
  {
    hide Owned;
    OwnedReuse(entries, created, key, now);
    InsertSize(entries, key, Entry(entries[key].breaker, now));
  }

  lemma ExpiryBalanced(c: Config, s: Registry, now: real)
    requires Balanced(c, s)
    ensures var kept := Retained(s.entries, now, c.idleTtl);
      Balanced(c, Registry(kept, s.evictions + Dropped(s.entries, kept), s.created))
  {
    hide Owned, Retained;
    RetainedSmaller(s.entries, now, c.idleTtl);
    RetainedSame(s.entries, now, c.idleTtl);
    OwnedFewer(s.entries, s.created, Retained(s.entries, now, c.idleTtl));
  }

  lemma EvictionBalanced(c: Config, entries: Entries, evictions: nat, created: nat, v: Key)
    requires Balanced(c, Registry(entries, evictions, created)) && v in entries
    ensures Balanced(c, Registry(entries - {v}, evictions + 1, created)) && |entries - {v}| < c.maxEntries
  {
    hide Owned;
    RemoveSize(entries, v);
    OwnedFewer(entries, created, entries - {v});
  }

  lemma ReplaceBalanced(
    c: Config, entries: Entries, evictions: nat, created: nat, v: Key, key: Key, now: real)
    requires Balanced(c, Registry(entries, evictions, created)) && IsVictim(entries, v) && key !in entries
    ensures Balanced(c, Registry((entries - {v})[key := Entry(created, now)], evictions + 1, created + 1))
  {
    hide Balanced, IsVictim;
    VictimPresent(entries, v);
    EvictionBalanced(c, entries, evictions, created, v);
    InsertBalanced(c, entries - {v}, evictions + 1, created, key, now);
  }

  lemma RoomLeft(c: Config, entries: Entries)
    requires CheckConfig(c).None? && (|entries| < c.maxEntries || entries == map[])
    ensures |entries| < c.maxEntries
  {
    if entries == map[] {
      assert |entries| == 0;
    }
  }

  /** One call keeps every breaker accounted for. */
  lemma StepBalanced(c: Config, s: Registry, key: Key, now: real, t: Registry, breaker: nat)
    requires CheckConfig(c).None? && Balanced(c, s) && Step(c, s, key, now, t, breaker)
    ensures Balanced(c, t)
  {
    hide IsVictim, Balanced, Retained, Dropped;
    var kept := Retained(s.entries, now, c.idleTtl);
    var evictions := s.evictions + Dropped(s.entries, kept);
    ExpiryBalanced(c, s, now);
    if key in kept {
      ReuseBalanced(c, kept, evictions, s.created, key, now);
    } else if |kept| >= c.maxEntries && kept != map[] {
      var v :| IsVictim(kept, v)
        && t == Registry((kept - {v})[key := Entry(breaker, now)], evictions + 1, s.created + 1);
      ReplaceBalanced(c, kept, evictions, s.created, v, key, now);
    } else {
      RoomLeft(c, kept);
      InsertBalanced(c, kept, evictions, s.created, key, now);
    }
  }

  lemma RetainedSame(entries: Entries, now: real, ttl: real)
    ensures var kept := Retained(entries, now, ttl);
      forall k :: k in kept ==> k in entries && kept[k] == entries[k]
  {}

  lemma VictimPresent(entries: Entries, v: Key)
    requires IsVictim(entries, v)
    ensures v in entries
  {}

  /** The caller's key ends up with the breaker handed out; other keys are untouched or gone. */
  lemma StepFrame(c: Config, s: Registry, key: Key, now: real, t: Registry, breaker: nat, k: Key)
    requires CheckConfig(c).None? && Step(c, s, key, now, t, breaker)
    ensures key in t.entries && t.entries[key] == Entry(breaker, now)
    ensures k in t.entries && k != key ==> k in s.entries && t.entries[k] == s.entries[k]
    ensures k in s.entries && !Loses(c, s, key, now, k) ==>
              k in t.entries && t.entries[k].breaker == s.entries[k].breaker
    ensures k in s.entries && k != key && Loses(c, s, key, now, k) ==> k !in t.entries
  {
    hide Precedes;
    var kept := Retained(s.entries, now, c.idleTtl);
    if key !in kept && |kept| >= c.maxEntries && kept != map[] {
      var v :| IsVictim(kept, v)
        && t == Registry((kept - {v})[key := Entry(breaker, now)], s.evictions + Dropped(s.entries, kept) + 1,
                         s.created + 1);
      if IsVictim(kept, k) {
        VictimUnique(kept, v, k);
      }
    }
  }

  /** Every run keeps every breaker accounted for, held by one key, and within the bound. */
  lemma {:induction false} Conservation(c: Config, s: Registry, run: seq<Turn>)
    requires CheckConfig(c).None? && Balanced(c, s) && IsRun(c, s, run)
    ensures Balanced(c, Last(s, run))
    decreases |run|
  {
    hide Step, Balanced;
    if run == [] {
    } else {
      StepBalanced(c, s, run[0].key, run[0].now, run[0].after, run[0].breaker);
      Conservation(c, run[0].after, run[1..]);
    }
  }

  lemma NewIsBalanced(c: Config)
    ensures Balanced(c, NEW)
  {}

  /**
   Over every run from a new registry, every breaker ever created is either still held by exactly
   one key or counted as evicted, and the registry stays within its bound.
   */
  lemma EveryRunConserves(c: Config, run: seq<Turn>)
    requires CheckConfig(c).None? && IsRun(c, NEW, run)
    ensures var s := Last(NEW, run);
      && s.created == |s.entries| + s.evictions
      && |s.entries| <= c.maxEntries
      && (forall k, l :: k in s.entries && l in s.entries && s.entries[k].breaker == s.entries[l].breaker ==> k == l)
  {
    NewIsBalanced(c);
    Conservation(c, NEW, run);
  }

  /** No call of the run takes `k`'s breaker away. */
  ghost predicate NeverLoses(c: Config, s: Registry, run: seq<Turn>, k: Key)
    decreases |run|
  {
    run == [] || (!Loses(c, s, run[0].key, run[0].now, k) && NeverLoses(c, run[0].after, run[1..], k))
  }

  /** Until it is expired or evicted, a key keeps its breaker, and every call on it hands that one out. */
  lemma {:induction false} KeepsBreaker(c: Config, s: Registry, run: seq<Turn>, k: Key)
    requires CheckConfig(c).None? && Balanced(c, s) && IsRun(c, s, run)
    requires k in s.entries && NeverLoses(c, s, run, k)
    ensures k in Last(s, run).entries && Last(s, run).entries[k].breaker == s.entries[k].breaker
    ensures forall i :: 0 <= i < |run| && run[i].key == k ==> run[i].breaker == s.entries[k].breaker
    decreases |run|
  {
    hide Step, Balanced, Loses;
    if run == [] {
    } else {
      StepBalanced(c, s, run[0].key, run[0].now, run[0].after, run[0].breaker);
      StepFrame(c, s, run[0].key, run[0].now, run[0].after, run[0].breaker, k);
      KeepsBreaker(c, run[0].after, run[1..], k);
      assert forall i :: 1 <= i < |run| ==> run[i] == run[1..][i - 1];
    }
  }

  /** A key that lost its breaker and comes back gets one that nobody had before. */
  lemma ReturnsFresh(c: Config, s: Registry, key: Key, now: real, t: Registry, breaker: nat)
    requires CheckConfig(c).None? && Balanced(c, s) && Step(c, s, key, now, t, breaker)
    requires key !in s.entries || Loses(c, s, key, now, key)
    ensures breaker == s.created && forall k :: k in s.entries ==> s.entries[k].breaker != breaker
  {
    hide Precedes;
  }
}
