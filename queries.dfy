/** The two query operators the controller relies on, as functions on sequences:
    `Where` (Filter) and the stable `OrderBy`/`ThenBy`/`OrderByDescending` (SortBy). */
module Queries {

  /** `le` compares by a key: every two values are comparable and the comparison is transitive. */
  ghost predicate TotalPreorder<T(!new)>(le: (T, T) -> bool) {
    && (forall a: T, b: T :: le(a, b) || le(b, a))
    && (forall a: T, b: T, c: T :: le(a, b) && le(b, c) ==> le(a, c))
  }

  predicate Sorted<T>(xs: seq<T>, le: (T, T) -> bool) {
    forall i, j :: 0 <= i < j < |xs| ==> le(xs[i], xs[j])
  }

  /** The elements of `xs` satisfying `p`, in their original order. */
  function Filter<T(!new)>(xs: seq<T>, p: T -> bool): (r: seq<T>)
    ensures forall x :: x in r <==> x in xs && p(x)
    ensures |r| <= |xs|
  {
    if xs == [] then []
    else if p(xs[0]) then [xs[0]] + Filter(xs[1..], p)
    else Filter(xs[1..], p)
  }

  /** Filtering keeps every occurrence of a value that satisfies `p`, and none of one that
      does not. */
  lemma {:induction false} FilterCount<T(!new)>(xs: seq<T>, p: T -> bool, x: T)
    ensures multiset(Filter(xs, p))[x] == if p(x) then multiset(xs)[x] else 0
  {
    if xs != [] {
      assert xs == [xs[0]] + xs[1..];
      FilterCount(xs[1..], p, x);
    }
  }

  /** Filtering keeps the order: it distributes over concatenation. */
  lemma {:induction false} FilterConcat<T(!new)>(xs: seq<T>, ys: seq<T>, p: T -> bool)
    ensures Filter(xs + ys, p) == Filter(xs, p) + Filter(ys, p)
  {
    if xs == [] {
      assert xs + ys == ys;
    } else {
      var zs := xs + ys;
      assert zs[0] == xs[0] && zs[1..] == xs[1..] + ys;
      FilterConcat(xs[1..], ys, p);
      if p(xs[0]) {
        assert Filter(zs, p) == [xs[0]] + (Filter(xs[1..], p) + Filter(ys, p));
      }
    }
  }

  /** Places `x` in front of the first element it is not after; equal keys keep `x` first. */
  function Insert<T>(x: T, ys: seq<T>, le: (T, T) -> bool): (r: seq<T>)
    ensures multiset(r) == multiset(ys) + multiset{x}
  {
    if ys == [] || le(x, ys[0]) then [x] + ys
    else
      assert ys == [ys[0]] + ys[1..];
      [ys[0]] + Insert(x, ys[1..], le)
  }

  /** A stable sort: elements with equal keys keep their relative order, as LINQ's OrderBy does. */
  function SortBy<T>(xs: seq<T>, le: (T, T) -> bool): (r: seq<T>)
    ensures multiset(r) == multiset(xs)
  {
    if xs == [] then []
    else
      assert xs == [xs[0]] + xs[1..];
      Insert(xs[0], SortBy(xs[1..], le), le)
  }

  lemma {:induction false} InsertSorted<T(!new)>(x: T, ys: seq<T>, le: (T, T) -> bool)
    requires TotalPreorder(le) && Sorted(ys, le)
    ensures Sorted(Insert(x, ys, le), le)
  {
    if ys != [] && !le(x, ys[0]) {
      InsertSorted(x, ys[1..], le);
      var rest := Insert(x, ys[1..], le);
      assert le(ys[0], x);
      forall z | z in rest ensures le(ys[0], z) {
        assert z in multiset(rest);
        if z != x {
          assert z in ys[1..];
        }
      }
    }
  }

  lemma {:induction false} SortBySorted<T(!new)>(xs: seq<T>, le: (T, T) -> bool)
    requires TotalPreorder(le)
    ensures Sorted(SortBy(xs, le), le)
  {
    if xs != [] {
      SortBySorted(xs[1..], le);
      InsertSorted(xs[0], SortBy(xs[1..], le), le);
    }
  }

  /** Sorting what is already in order changes nothing. */
  lemma {:induction false} SortByFixpoint<T>(xs: seq<T>, le: (T, T) -> bool)
    requires Sorted(xs, le)
    ensures SortBy(xs, le) == xs
  {
    if xs != [] {
      SortByFixpoint(xs[1..], le);
      assert xs == [xs[0]] + xs[1..];
      if |xs| > 1 {
        assert le(xs[0], xs[1..][0]);
      }
    }
  }

  /** The values with the same key as `y`. */
  function SameKey<T>(le: (T, T) -> bool, y: T): T -> bool {
    x => le(x, y) && le(y, x)
  }

  /** Inserting `x` puts it in front of every value with its key and moves no other such
      value. */
  lemma {:induction false} InsertStable<T(!new)>(x: T, ys: seq<T>, le: (T, T) -> bool, y: T)
    requires TotalPreorder(le)
    ensures Filter(Insert(x, ys, le), SameKey(le, y)) ==
      if SameKey(le, y)(x) then [x] + Filter(ys, SameKey(le, y)) else Filter(ys, SameKey(le, y))
  {
    var p := SameKey(le, y);
    if ys == [] || le(x, ys[0]) {
      assert ([x] + ys)[1..] == ys;
    } else {
      var rest := Insert(x, ys[1..], le);
      InsertStable(x, ys[1..], le, y);
      assert ([ys[0]] + rest)[1..] == rest;
      assert p(x) ==> !p(ys[0]);
    }
  }

  /** The sort is stable: the values with any one key appear in the output in their input
      order. */
  lemma {:induction false} SortByStable<T(!new)>(xs: seq<T>, le: (T, T) -> bool, y: T)
    requires TotalPreorder(le)
    ensures Filter(SortBy(xs, le), SameKey(le, y)) == Filter(xs, SameKey(le, y))
  {
    if xs != [] {
      SortByStable(xs[1..], le, y);
      InsertStable(xs[0], SortBy(xs[1..], le), le, y);
    }
  }
}
