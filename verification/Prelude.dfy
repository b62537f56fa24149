/** Small shared vocabulary: optional values, results, and duplicate-free sequences. */
module Prelude {

  const U32_MAX: nat := 0xFFFF_FFFF
  const U64_MAX: nat := 0xFFFF_FFFF_FFFF_FFFF

  datatype Option<+T> = None | Some(value: T)

  datatype Result<+T, +E> = Ok(value: T) | Err(error: E) {
    predicate IsFailure() {
      Err?
    }

    function PropagateFailure<U>(): Result<U, E>
      requires Err?
    {
      Err(error)
    }

    function Extract(): T
      requires Ok?
    {
      value
    }
  }

  /** No element occurs at two positions. */
  ghost predicate Distinct<T>(s: seq<T>) {
    forall i, j :: 0 <= i < j < |s| ==> s[i] != s[j]
  }

  ghost function Elements<T>(s: seq<T>): set<T> {
    set x | x in s
  }

  /** A duplicate-free sequence has as many positions as elements. */
  lemma {:induction false} DistinctSize<T>(s: seq<T>)
    requires Distinct(s)
    ensures |Elements(s)| == |s|
  {
    if s == [] {
    } else {
      var t, x := s[..|s| - 1], s[|s| - 1];
      DistinctSize(t);
      assert s == t + [x] && x !in t;
      assert Elements(s) == Elements(t) + {x};
    }
  }

  lemma SubsetSize<T>(a: set<T>, b: set<T>)
    requires a <= b
    ensures |a| <= |b|
    ensures |a| == |b| ==> a == b
  {
    assert b == a + (b - a);
  }

  function FilterMap<T, U>(s: seq<T>, f: T -> Option<U>): seq<U> {
    if s == [] then []
    else (match f(s[0]) case Some(u) => [u] case None => []) + FilterMap(s[1..], f)
  }

  lemma {:induction false} FilterMapEmpty<T, U>(s: seq<T>, f: T -> Option<U>)
    ensures FilterMap(s, f) == [] <==> forall x :: x in s ==> f(x).None?
  {
    if s == [] {
    } else {
      FilterMapEmpty(s[1..], f);
      assert s == [s[0]] + s[1..];
    }
  }

  lemma {:induction false} FilterMapHas<T, U>(s: seq<T>, f: T -> Option<U>, x: T)
    requires x in s && f(x).Some?
    ensures f(x).value in FilterMap(s, f)
  {
    if x == s[0] {
    } else {
      FilterMapHas(s[1..], f, x);
    }
  }

  lemma {:induction false} FilterMapMember<T, U>(s: seq<T>, f: T -> Option<U>, u: U)
    ensures u in FilterMap(s, f) <==> exists x :: x in s && f(x) == Some(u)
  {
    if s == [] {
    } else {
      FilterMapMember(s[1..], f, u);
      assert s == [s[0]] + s[1..];
    }
  }

  /** Order-preserving restriction of a list. */
  function Keep<T(==)>(s: seq<T>, kept: set<T>): seq<T> {
    if s == [] then [] else (if s[0] in kept then [s[0]] else []) + Keep(s[1..], kept)
  }

  lemma {:induction false} KeepMember<T>(s: seq<T>, kept: set<T>)
    ensures forall x :: x in Keep(s, kept) <==> x in s && x in kept
  {
    if s == [] {
    } else {
      KeepMember(s[1..], kept);
      assert s == [s[0]] + s[1..];
    }
  }

  lemma {:induction false} KeepDistinct<T>(s: seq<T>, kept: set<T>)
    requires Distinct(s)
    ensures Distinct(Keep(s, kept))
  {
    if s == [] {
    } else {
      KeepDistinct(s[1..], kept);
      KeepMember(s[1..], kept);
      assert s[0] !in s[1..];
    }
  }

  lemma {:induction false} KeepAll<T>(s: seq<T>, kept: set<T>)
    requires forall x :: x in s ==> x in kept
    ensures Keep(s, kept) == s
  {
    if s == [] {
    } else {
      KeepAll(s[1..], kept);
      assert s == [s[0]] + s[1..];
    }
  }

  lemma {:induction false} KeepLength<T>(s: seq<T>, kept: set<T>)
    ensures |Keep(s, kept)| <= |s|
  {
    if s == [] {
    } else {
      KeepLength(s[1..], kept);
    }
  }
}
