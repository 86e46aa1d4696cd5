/**
 * Ordered views of finite collections: the ascending key order in which a
 * `BTreeMap` is iterated, and the sort by a key that `sort_by` performs.
 */
module Ordered {

  /** `m` is the least element of `s`. */
  predicate IsLeast(m: nat, s: set<nat>) {
    m in s && forall x | x in s :: m <= x
  }

  /** A non-empty finite set of naturals has a least element. */
  lemma {:induction false} HasLeast(s: set<nat>)
    requires s != {}
    ensures exists m :: IsLeast(m, s)
    decreases |s|
  {
    var x :| x in s;
    if s == {x} {
      assert IsLeast(x, s);
    } else {
      HasLeast(s - {x});
      var y :| IsLeast(y, s - {x});
      var m := if x < y then x else y;
      forall z | z in s
        ensures m <= z
      {
        if z != x {
          assert z in s - {x};
        }
      }
      assert IsLeast(m, s);
    }
  }

  /** The least element of a non-empty set. */
  function Least(s: set<nat>): (m: nat)
    requires s != {}
    ensures m in s && forall x | x in s :: m <= x
  {
    HasLeast(s);
    var m :| IsLeast(m, s);
    m
  }

  predicate StrictlyIncreasing(xs: seq<nat>) {
    forall i, j | 0 <= i < j < |xs| :: xs[i] < xs[j]
  }

  /** The elements of a set in ascending order: the key order of a `BTreeMap`. */
  function SortedElems(s: set<nat>): (r: seq<nat>)
    ensures |r| == |s|
    decreases |s|
  {
    if s == {} then []
    else
      var m := Least(s);
      [m] + SortedElems(s - {m})
  }

  /** The ascending listing holds every element of the set and nothing else. */
  lemma {:induction false} SortedElemsMembers(s: set<nat>)
    ensures forall i | 0 <= i < |SortedElems(s)| :: SortedElems(s)[i] in s
    ensures forall x | x in s :: x in SortedElems(s)
    decreases |s|
  {
    if s != {} {
      var m := Least(s);
      SortedElemsMembers(s - {m});
      var rest := SortedElems(s - {m});
      assert SortedElems(s) == [m] + rest;
      forall x | x in s ensures x in SortedElems(s) {
        if x != m {
          assert x in rest;
        }
      }
    }
  }

  /** The ascending listing is strictly increasing. */
  lemma {:induction false} SortedElemsIncreasing(s: set<nat>)
    ensures StrictlyIncreasing(SortedElems(s))
    decreases |s|
  {
    if s != {} {
      var m := Least(s);
      SortedElemsIncreasing(s - {m});
      SortedElemsMembers(s - {m});
      var rest := SortedElems(s - {m});
      assert SortedElems(s) == [m] + rest;
      forall i | 0 <= i < |rest| ensures m < rest[i] {
        assert rest[i] in s - {m};
      }
    }
  }

  /** A strictly increasing listing of a set is its ascending order: there is only one. */
  lemma {:induction false} SortedElemsUnique(xs: seq<nat>, s: set<nat>)
    requires StrictlyIncreasing(xs)
    requires forall x :: x in xs <==> x in s
    ensures xs == SortedElems(s)
    decreases |xs|
  {
    if xs == [] {
      assert forall x :: x !in s;
    } else {
      assert xs[0] in s;
      var m := Least(s);
      HeadIsLeast(xs, s);
      TailListsRest(xs, s);
      SortedElemsUnique(xs[1..], s - {m});
    }
  }

  /** The head of an increasing listing of a set is the set's least element. */
  lemma HeadIsLeast(xs: seq<nat>, s: set<nat>)
    requires xs != [] && StrictlyIncreasing(xs)
    requires forall x :: x in xs <==> x in s
    ensures s != {} && xs[0] == Least(s)
  {
    assert xs[0] in s;
    var m := Least(s);
    var k :| 0 <= k < |xs| && xs[k] == m;
    assert xs[0] <= xs[k];
  }

  /** The tail of an increasing listing of a set lists the set without its head. */
  lemma TailListsRest(xs: seq<nat>, s: set<nat>)
    requires xs != [] && StrictlyIncreasing(xs)
    requires forall x :: x in xs <==> x in s
    ensures StrictlyIncreasing(xs[1..])
    ensures forall x :: x in xs[1..] <==> x in s - {xs[0]}
  {
    forall x ensures x in xs[1..] <==> x in s - {xs[0]} {
      if x in xs[1..] {
        var k :| 1 <= k < |xs| && xs[k] == x;
        assert xs[0] < xs[k];
      }
      if x in s - {xs[0]} {
        assert x in xs && x != xs[0];
      }
    }
  }

  // ------------------------------------------------------------------ sorting

  /** `xs` is in non-decreasing order of `key`. */
  predicate SortedBy<T>(xs: seq<T>, key: T -> int) {
    forall i, j | 0 <= i < j < |xs| :: key(xs[i]) <= key(xs[j])
  }

  /** `x` placed before the first element whose key is not below its own. */
  function Insert<T>(x: T, xs: seq<T>, key: T -> int): (r: seq<T>)
    ensures multiset(r) == multiset(xs) + multiset{x}
    ensures |r| == |xs| + 1
  {
    if xs == [] then [x]
    else if key(x) <= key(xs[0]) then [x] + xs
    else
      assert xs == [xs[0]] + xs[1..];
      [xs[0]] + Insert(x, xs[1..], key)
  }

  /** A lower bound on the keys of `x` and of `xs` bounds the keys after inserting. */
  lemma {:induction false} InsertLowerBound<T>(x: T, xs: seq<T>, key: T -> int, b: int)
    requires key(x) >= b
    requires forall i | 0 <= i < |xs| :: key(xs[i]) >= b
    ensures forall i | 0 <= i < |Insert(x, xs, key)| :: key(Insert(x, xs, key)[i]) >= b
    decreases |xs|
  {
    if xs != [] && key(x) > key(xs[0]) {
      InsertLowerBound(x, xs[1..], key, b);
    }
  }

  lemma {:induction false} InsertSorted<T>(x: T, xs: seq<T>, key: T -> int)
    requires SortedBy(xs, key)
    ensures SortedBy(Insert(x, xs, key), key)
    decreases |xs|
  {
    if xs != [] && key(x) > key(xs[0]) {
      var tail := xs[1..];
      InsertSorted(x, tail, key);
      InsertLowerBound(x, tail, key, key(xs[0]));
      var r := Insert(x, tail, key);
      assert Insert(x, xs, key) == [xs[0]] + r;
    }
  }

  /**
   * `sort_by` on `key(a).cmp(&key(b))`: an insertion sort that takes the
   * elements from the back.
   */
  function SortBy<T>(xs: seq<T>, key: T -> int): (r: seq<T>)
    ensures multiset(r) == multiset(xs)
    ensures |r| == |xs|
  {
    if xs == [] then []
    else
      assert xs == [xs[0]] + xs[1..];
      Insert(xs[0], SortBy(xs[1..], key), key)
  }

  /** The sort orders its input by `key`, and holds the same elements. */
  lemma {:induction false} SortBySorted<T>(xs: seq<T>, key: T -> int)
    ensures SortedBy(SortBy(xs, key), key)
    ensures forall x :: x in SortBy(xs, key) <==> x in xs
    decreases |xs|
  {
    var r := SortBy(xs, key);
    if xs != [] {
      SortBySorted(xs[1..], key);
      InsertSorted(xs[0], SortBy(xs[1..], key), key);
    }
    forall x ensures x in r <==> x in xs {
      assert x in r <==> x in multiset(r);
      assert x in xs <==> x in multiset(xs);
    }
  }

  /** The sum of `f` over the elements. */
  function SumBy<T>(xs: seq<T>, f: T -> nat): nat {
    if xs == [] then 0 else f(xs[0]) + SumBy(xs[1..], f)
  }

  /** Appending an element adds its measure. */
  lemma {:induction false} SumByAppend<T>(xs: seq<T>, x: T, f: T -> nat)
    ensures SumBy(xs + [x], f) == SumBy(xs, f) + f(x)
    decreases |xs|
  {
    if xs == [] {
      assert [x][1..] == [];
    } else {
      SumByAppend(xs[1..], x, f);
      assert (xs + [x])[1..] == xs[1..] + [x];
    }
  }

  lemma {:induction false} InsertSum<T>(x: T, xs: seq<T>, key: T -> int, f: T -> nat)
    ensures SumBy(Insert(x, xs, key), f) == f(x) + SumBy(xs, f)
    decreases |xs|
  {
    if xs != [] && key(x) > key(xs[0]) {
      InsertSum(x, xs[1..], key, f);
      assert ([xs[0]] + Insert(x, xs[1..], key))[1..] == Insert(x, xs[1..], key);
    }
  }

  /** Sorting leaves the sum of any measure unchanged. */
  lemma {:induction false} SortBySum<T>(xs: seq<T>, key: T -> int, f: T -> nat)
    ensures SumBy(SortBy(xs, key), f) == SumBy(xs, f)
    decreases |xs|
  {
    if xs != [] {
      SortBySum(xs[1..], key, f);
      InsertSum(xs[0], SortBy(xs[1..], key), key, f);
    }
  }

  /** No two elements agree on `f`. */
  predicate DistinctBy<T, K(==)>(xs: seq<T>, f: T -> K) {
    forall i, j | 0 <= i < j < |xs| :: f(xs[i]) != f(xs[j])
  }

  /** When neither `x` nor any element of `xs` has the measure `v`, no inserted element has it. */
  lemma {:induction false} InsertAvoids<T, K>(x: T, xs: seq<T>, key: T -> int, f: T -> K, v: K)
    requires f(x) != v
    requires forall i | 0 <= i < |xs| :: f(xs[i]) != v
    ensures forall i | 0 <= i < |Insert(x, xs, key)| :: f(Insert(x, xs, key)[i]) != v
    decreases |xs|
  {
    if xs != [] && key(x) > key(xs[0]) {
      InsertAvoids(x, xs[1..], key, f, v);
    }
  }

  lemma {:induction false} InsertDistinct<T, K>(x: T, xs: seq<T>, key: T -> int, f: T -> K)
    requires DistinctBy(xs, f)
    requires forall i | 0 <= i < |xs| :: f(xs[i]) != f(x)
    ensures DistinctBy(Insert(x, xs, key), f)
    decreases |xs|
  {
    if xs != [] && key(x) > key(xs[0]) {
      var tail := xs[1..];
      InsertDistinct(x, tail, key, f);
      InsertAvoids(x, tail, key, f, f(xs[0]));
      assert Insert(x, xs, key) == [xs[0]] + Insert(x, tail, key);
    }
  }

  /** Sorting keeps elements that differ on `f` apart. */
  lemma {:induction false} SortByDistinct<T, K>(xs: seq<T>, key: T -> int, f: T -> K)
    requires DistinctBy(xs, f)
    ensures DistinctBy(SortBy(xs, key), f)
    decreases |xs|
  {
    if xs != [] {
      var tail := xs[1..];
      assert DistinctBy(tail, f);
      SortByDistinct(tail, key, f);
      var r := SortBy(tail, key);
      forall i | 0 <= i < |r| ensures f(r[i]) != f(xs[0]) {
        assert r[i] in multiset(tail);
        var k :| 0 <= k < |tail| && tail[k] == r[i];
        assert xs[k + 1] == r[i];
      }
      InsertDistinct(xs[0], r, key, f);
    }
  }
  // ------------------------------------------------------------ uniqueness

  /** `Itertools::unique`: each element at its first occurrence, later repeats dropped. */
  function Unique<T(==)>(xs: seq<T>): (r: seq<T>)
    ensures |r| <= |xs|
  {
    if xs == [] then []
    else
      var u := Unique(xs[..|xs| - 1]);
      var x := xs[|xs| - 1];
      if x in u then u else u + [x]
  }

  /** `a` occurs in `xs` before any occurrence of `b`. */
  predicate SeenBefore<T(==)>(xs: seq<T>, a: T, b: T) {
    exists p | 0 <= p < |xs| :: xs[p] == a && forall q | 0 <= q <= p :: xs[q] != b
  }

  /** The unique elements are exactly the elements. */
  lemma {:induction false} UniqueMembers<T>(xs: seq<T>)
    ensures forall x | x in Unique(xs) :: x in xs
    ensures forall x | x in xs :: x in Unique(xs)
    decreases |xs|
  {
    if xs != [] {
      var init := xs[..|xs| - 1];
      UniqueMembers(init);
      assert xs == init + [xs[|xs| - 1]];
    }
  }

  /** No element is kept twice. */
  lemma {:induction false} UniqueDistinct<T>(xs: seq<T>)
    ensures forall i, j | 0 <= i < j < |Unique(xs)| :: Unique(xs)[i] != Unique(xs)[j]
    decreases |xs|
  {
    if xs != [] {
      UniqueDistinct(xs[..|xs| - 1]);
    }
  }

  /** Appending an element keeps what was seen before what. */
  lemma SeenBeforeExtend<T>(init: seq<T>, x: T, a: T, b: T)
    requires SeenBefore(init, a, b)
    ensures SeenBefore(init + [x], a, b)
  {
    var xs := init + [x];
    var p :| 0 <= p < |init| && init[p] == a && forall q | 0 <= q <= p :: init[q] != b;
    assert forall q | 0 <= q <= p :: xs[q] == init[q];
  }

  /** An element already present is seen before a new one appended. */
  lemma SeenBeforeNew<T>(init: seq<T>, x: T, a: T)
    requires a in init && x !in init
    ensures SeenBefore(init + [x], a, x)
  {
    var xs := init + [x];
    var p :| 0 <= p < |init| && init[p] == a;
    assert forall q | 0 <= q <= p :: xs[q] == init[q];
  }

  /** Earlier in the result means first seen earlier in the input. */
  lemma {:induction false} UniqueFirstSeen<T>(xs: seq<T>)
    ensures forall i, j | 0 <= i < j < |Unique(xs)| :: SeenBefore(xs, Unique(xs)[i], Unique(xs)[j])
    decreases |xs|
  {
    if xs != [] {
      var init := xs[..|xs| - 1];
      var x := xs[|xs| - 1];
      var u := Unique(init);
      assert xs == init + [x];
      UniqueFirstSeen(init);
      UniqueMembers(init);
      forall i, j | 0 <= i < j < |Unique(xs)| ensures SeenBefore(xs, Unique(xs)[i], Unique(xs)[j]) {
        var a, b := Unique(xs)[i], Unique(xs)[j];
        if j < |u| {
          assert a == u[i] && b == u[j];
          SeenBeforeExtend(init, x, a, b);
        } else {
          assert a == u[i];
          SeenBeforeNew(init, x, a);
        }
      }
    }
  }
}
