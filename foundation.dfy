/** An optional value: TypeScript's `T | undefined` for optional record fields and
    the result of `Array.prototype.find`. */
module Optional {

  datatype Option<T> = None | Some(value: T) {

    /** The value, or `default` when there is none (the `??` operator). */
    function GetOr(default: T): (r: T)
      ensures Some? ==> r == value
      ensures None? ==> r == default
    {
      match this
      case Some(v) => v
      case None => default
    }
  }
}

/** Sequence operations with the meaning of `Array.prototype.filter`, `reduce`
    (summation), `find` and `slice`. Recursion runs from the last element, so that a
    loop over a prefix `s[..i]` extends the specification one element at a time. */
module Seqs {
  import opened Optional

  function Filter<T(!new)>(s: seq<T>, p: T -> bool): (r: seq<T>)
    ensures |r| <= |s|
    ensures forall x :: x in r <==> x in s && p(x)
    ensures forall i :: 0 <= i < |r| ==> p(r[i])
    decreases |s|
  {
    if s == [] then []
    else
      var init := s[..|s| - 1];
      assert s == init + [s[|s| - 1]];
      Filter(init, p) + (if p(s[|s| - 1]) then [s[|s| - 1]] else [])
  }

  /** Filtering distributes over concatenation: it keeps the relative order. */
  lemma {:induction false} FilterConcat<T(!new)>(a: seq<T>, b: seq<T>, p: T -> bool)
    ensures Filter(a + b, p) == Filter(a, p) + Filter(b, p)
    decreases |b|
  {
    if b == [] {
      assert a + b == a;
    } else {
      var init := b[..|b| - 1];
      assert (a + b)[..|a + b| - 1] == a + init;
      FilterConcat(a, init, p);
    }
  }

  /** A filter that every element passes changes nothing. */
  lemma {:induction false} FilterKeepsAll<T(!new)>(s: seq<T>, p: T -> bool)
    requires forall i :: 0 <= i < |s| ==> p(s[i])
    ensures Filter(s, p) == s
    decreases |s|
  {
    if s != [] {
      FilterKeepsAll(s[..|s| - 1], p);
    }
  }

  /** An element that passes the filter is kept as often as it occurs. */
  lemma {:induction false} FilterMultiplicity<T(!new)>(s: seq<T>, p: T -> bool, x: T)
    requires p(x)
    ensures multiset(Filter(s, p))[x] == multiset(s)[x]
    decreases |s|
  {
    if s != [] {
      var init := s[..|s| - 1];
      assert s == init + [s[|s| - 1]];
      FilterMultiplicity(init, p, x);
    }
  }

  /** Filtering keeps a sub-multiset of the input. */
  lemma {:induction false} FilterSubMultiset<T(!new)>(s: seq<T>, p: T -> bool)
    ensures multiset(Filter(s, p)) <= multiset(s)
    decreases |s|
  {
    if s != [] {
      var init := s[..|s| - 1];
      assert s == init + [s[|s| - 1]];
      FilterSubMultiset(init, p);
    }
  }

  /** The images under `f` of the elements that satisfy `p`, in order: a loop
      that pushes `f(x)` for each such `x`. */
  function FilterMap<T, U>(s: seq<T>, p: T -> bool, f: T -> U): seq<U>
    decreases |s|
  {
    if s == [] then []
    else FilterMap(s[..|s| - 1], p, f) + (if p(s[|s| - 1]) then [f(s[|s| - 1])] else [])
  }

  /** `FilterMap` is `f` applied to each element of the filter. */
  lemma {:induction false} FilterMapSpec<T(!new), U>(s: seq<T>, p: T -> bool, f: T -> U)
    ensures |FilterMap(s, p, f)| == |Filter(s, p)|
    ensures forall i :: 0 <= i < |Filter(s, p)| ==> FilterMap(s, p, f)[i] == f(Filter(s, p)[i])
    decreases |s|
  {
    if s != [] {
      var init, last := s[..|s| - 1], s[|s| - 1];
      FilterMapSpec(init, p, f);
      assert s == init + [last];
      FilterConcat(init, [last], p);
      FilterSingleton(last, p);
      var kept0, kept := Filter(init, p), Filter(s, p);
      var images0, images := FilterMap(init, p, f), FilterMap(s, p, f);
      assert kept == kept0 + (if p(last) then [last] else []);
      assert images == images0 + (if p(last) then [f(last)] else []);
      forall i | 0 <= i < |kept| ensures images[i] == f(kept[i]) {
        if i < |kept0| {
          assert images[i] == images0[i] && kept[i] == kept0[i];
        }
      }
    }
  }

  /** Each element replaced by the sequence `f` gives for it, concatenated in order. */
  function FlatMap<T, U>(s: seq<T>, f: T -> seq<U>): seq<U>
    decreases |s|
  {
    if s == [] then [] else FlatMap(s[..|s| - 1], f) + f(s[|s| - 1])
  }

  lemma {:induction false} FlatMapConcat<T, U>(a: seq<T>, b: seq<T>, f: T -> seq<U>)
    ensures FlatMap(a + b, f) == FlatMap(a, f) + FlatMap(b, f)
    decreases |b|
  {
    if b == [] {
      assert a + b == a;
    } else {
      var init := b[..|b| - 1];
      assert (a + b)[..|a + b| - 1] == a + init;
      FlatMapConcat(a, init, f);
    }
  }

  lemma {:induction false} FlatMapMember<T, U>(s: seq<T>, f: T -> seq<U>, y: U)
    ensures y in FlatMap(s, f) <==> exists i :: 0 <= i < |s| && y in f(s[i])
    decreases |s|
  {
    if s != [] {
      var init := s[..|s| - 1];
      FlatMapMember(init, f, y);
      if exists i :: 0 <= i < |init| && y in f(init[i]) {
        var i :| 0 <= i < |init| && y in f(init[i]);
        assert s[i] == init[i];
      }
      if exists i :: 0 <= i < |s| && y in f(s[i]) {
        var i :| 0 <= i < |s| && y in f(s[i]);
        if i < |init| {
          assert s[i] == init[i];
        }
      }
    }
  }

  /** Each element contributes as many elements as `f` gives it. */
  lemma {:induction false} FlatMapLength<T, U>(s: seq<T>, f: T -> seq<U>)
    ensures |FlatMap(s, f)| == SumOf(s, x => |f(x)|)
    decreases |s|
  {
    if s != [] {
      FlatMapLength(s[..|s| - 1], f);
    }
  }

  lemma FlatMapSingleton<T, U>(x: T, f: T -> seq<U>)
    ensures FlatMap([x], f) == f(x)
  {
    assert [x][..0] == [];
  }

  /** Two filters in a row keep what their conjunction keeps. */
  lemma {:induction false} FilterFilter<T(!new)>(s: seq<T>, p: T -> bool, q: T -> bool, r: T -> bool)
    requires forall x :: r(x) == (p(x) && q(x))
    ensures Filter(Filter(s, p), q) == Filter(s, r)
    decreases |s|
  {
    if s != [] {
      var init := s[..|s| - 1];
      var x := s[|s| - 1];
      FilterFilter(init, p, q, r);
      var f := Filter(init, p);
      assert Filter(s, r) == Filter(init, r) + (if r(x) then [x] else []);
      if p(x) {
        assert Filter(s, p) == f + [x];
        FilterConcat(f, [x], q);
        FilterSingleton(x, q);
      } else {
        assert Filter(s, p) == f;
      }
    }
  }

  /** Filters with predicates that agree on every element keep the same elements. */
  lemma {:induction false} FilterSame<T(!new)>(s: seq<T>, p: T -> bool, q: T -> bool)
    requires forall x :: p(x) == q(x)
    ensures Filter(s, p) == Filter(s, q)
    decreases |s|
  {
    if s != [] {
      FilterSame(s[..|s| - 1], p, q);
    }
  }

  /** A filter that no element passes keeps nothing. */
  lemma {:induction false} FilterNone<T(!new)>(s: seq<T>, p: T -> bool)
    requires forall i :: 0 <= i < |s| ==> !p(s[i])
    ensures Filter(s, p) == []
    decreases |s|
  {
    if s != [] {
      FilterNone(s[..|s| - 1], p);
    }
  }

  lemma FilterSingleton<T(!new)>(x: T, p: T -> bool)
    ensures Filter([x], p) == if p(x) then [x] else []
  {
    assert [x][..0] == [];
  }

  /** `s.reduce((sum, x) => sum + f(x), 0)`. */
  function SumOf<T>(s: seq<T>, f: T -> int): int
    decreases |s|
  {
    if s == [] then 0 else SumOf(s[..|s| - 1], f) + f(s[|s| - 1])
  }

  lemma {:induction false} SumOfConcat<T>(a: seq<T>, b: seq<T>, f: T -> int)
    ensures SumOf(a + b, f) == SumOf(a, f) + SumOf(b, f)
    decreases |b|
  {
    if b == [] {
      assert a + b == a;
    } else {
      var init := b[..|b| - 1];
      assert (a + b)[..|a + b| - 1] == a + init;
      SumOfConcat(a, init, f);
    }
  }

  /** A sum of terms that are all negative or zero is negative or zero. */
  lemma {:induction false} SumOfNonPositive<T>(s: seq<T>, f: T -> int)
    requires forall i :: 0 <= i < |s| ==> f(s[i]) <= 0
    ensures SumOf(s, f) <= 0
    decreases |s|
  {
    if s != [] {
      SumOfNonPositive(s[..|s| - 1], f);
    }
  }

  /** A sum of terms that are all positive or zero is positive or zero. */
  lemma {:induction false} SumOfNonNegative<T>(s: seq<T>, f: T -> int)
    requires forall i :: 0 <= i < |s| ==> f(s[i]) >= 0
    ensures SumOf(s, f) >= 0
    decreases |s|
  {
    if s != [] {
      SumOfNonNegative(s[..|s| - 1], f);
    }
  }

  /** `s.find(p)`: the first element satisfying `p`. */
  function Find<T>(s: seq<T>, p: T -> bool): (r: Option<T>)
    ensures r.Some? <==> exists i :: 0 <= i < |s| && p(s[i])
    ensures r.Some? ==> r.value in s && p(r.value)
    ensures r.Some? ==> exists i :: 0 <= i < |s| && s[i] == r.value && forall j :: 0 <= j < i ==> !p(s[j])
    decreases |s|
  {
    if s == [] then None
    else if p(s[0]) then Some(s[0])
    else
      var r := Find(s[1..], p);
      assert r.Some? ==> r.value in s && exists i :: 1 <= i < |s| && s[i] == r.value && forall j :: 0 <= j < i ==> !p(s[j]) by {
        if r.Some? {
          var i :| 0 <= i < |s[1..]| && s[1..][i] == r.value && forall j :: 0 <= j < i ==> !p(s[1..][j]);
          assert s[i + 1] == r.value;
          forall j | 0 <= j < i + 1 ensures !p(s[j]) {
            if j > 0 { assert s[j] == s[1..][j - 1]; }
          }
        }
      }
      assert (exists i :: 0 <= i < |s| && p(s[i])) ==> exists i :: 0 <= i < |s[1..]| && p(s[1..][i]) by {
        if exists i :: 0 <= i < |s| && p(s[i]) {
          var i :| 0 <= i < |s| && p(s[i]);
          assert i > 0 && s[1..][i - 1] == s[i];
        }
      }
      r
  }

  /** `find` returns the first element that satisfies the predicate. */
  lemma {:induction false} FindFirst<T>(s: seq<T>, p: T -> bool, i: int)
    requires 0 <= i < |s| && p(s[i])
    requires forall j :: 0 <= j < i ==> !p(s[j])
    ensures Find(s, p) == Some(s[i])
    decreases i
  {
    if i > 0 {
      assert !p(s[0]);
      assert s[1..][i - 1] == s[i];
      assert forall j :: 0 <= j < i - 1 ==> s[1..][j] == s[j + 1];
      FindFirst(s[1..], p, i - 1);
    }
  }

  /** `s.slice(0, n)`. */
  function Take<T>(s: seq<T>, n: nat): (r: seq<T>)
    ensures |r| <= n && |r| <= |s|
    ensures |r| == if n < |s| then n else |s|
    ensures r == s[..|r|]
  {
    if n < |s| then s[..n] else s
  }
}

/** A stable sort with a comparator, as `Array.prototype.sort` (ECMAScript 2019 and
    later) performs it, both as an insertion sort on sequences and in place on an
    array. `le(a, b)` holds when the comparator does not put `b` before `a`. */
module Sorting {
  import opened Seqs

  ghost predicate IsTotalPreorder<T(!new)>(le: (T, T) -> bool) {
    && (forall a, b :: le(a, b) || le(b, a))
    && (forall a, b, c :: le(a, b) && le(b, c) ==> le(a, c))
  }

  predicate SortedBy<T>(s: seq<T>, le: (T, T) -> bool) {
    forall i, j :: 0 <= i < j < |s| ==> le(s[i], s[j])
  }

  /** Inserts `x` before the first element it does not follow. */
  function Insert<T>(x: T, s: seq<T>, le: (T, T) -> bool): seq<T> {
    if s == [] then [x]
    else if le(x, s[0]) then [x] + s
    else [s[0]] + Insert(x, s[1..], le)
  }

  lemma {:induction false} InsertMultiset<T>(x: T, s: seq<T>, le: (T, T) -> bool)
    ensures |Insert(x, s, le)| == |s| + 1
    ensures multiset(Insert(x, s, le)) == multiset(s) + multiset{x}
    decreases |s|
  {
    if s != [] && !le(x, s[0]) {
      InsertMultiset(x, s[1..], le);
      assert s == [s[0]] + s[1..];
    }
  }

  function SortBy<T>(s: seq<T>, le: (T, T) -> bool): (r: seq<T>)
    ensures |r| == |s|
    ensures multiset(r) == multiset(s)
  {
    if s == [] then []
    else
      assert s == [s[0]] + s[1..];
      InsertMultiset(s[0], SortBy(s[1..], le), le);
      Insert(s[0], SortBy(s[1..], le), le)
  }

  lemma {:induction false} InsertSorted<T(!new)>(x: T, s: seq<T>, le: (T, T) -> bool)
    requires IsTotalPreorder(le) && SortedBy(s, le)
    ensures SortedBy(Insert(x, s, le), le)
    decreases |s|
  {
    if s != [] && !le(x, s[0]) {
      InsertSorted(x, s[1..], le);
      InsertMultiset(x, s[1..], le);
      var t := Insert(x, s[1..], le);
      var r := [s[0]] + t;
      forall i, j | 0 <= i < j < |r| ensures le(r[i], r[j]) {
        if i == 0 {
          assert r[j] in multiset(t);
          assert r[j] in multiset(s[1..]) + multiset{x};
          if r[j] != x {
            assert r[j] in s[1..];
          }
        }
      }
    }
  }

  lemma {:induction false} SortBySorted<T(!new)>(s: seq<T>, le: (T, T) -> bool)
    requires IsTotalPreorder(le)
    ensures SortedBy(SortBy(s, le), le)
    decreases |s|
  {
    if s != [] {
      SortBySorted(s[1..], le);
      InsertSorted(s[0], SortBy(s[1..], le), le);
    }
  }

  /** Sorting a sequence that is already in order changes nothing. */
  lemma {:induction false} SortBySortedIsIdentity<T>(s: seq<T>, le: (T, T) -> bool)
    requires SortedBy(s, le)
    ensures SortBy(s, le) == s
    decreases |s|
  {
    if s != [] {
      SortBySortedIsIdentity(s[1..], le);
      assert s == [s[0]] + s[1..];
    }
  }

  /** Every element of a sorted sequence at or beyond `n` follows every element
      before `n`: taking a prefix takes the least elements. */
  lemma PrefixOfSortedIsLeast<T>(s: seq<T>, le: (T, T) -> bool, n: nat, x: T)
    requires SortedBy(s, le) && x in s && x !in s[..if n < |s| then n else |s|]
    ensures forall i :: 0 <= i < n && i < |s| ==> le(s[i], x)
  {
    var k :| 0 <= k < |s| && s[k] == x;
    var m := if n < |s| then n else |s|;
    assert forall j :: 0 <= j < m ==> s[..m][j] == s[j];
  }

  /** `s.sort(cmp).slice(0, n)`: at most `n` elements of `s`, in order; all of `s`
      when it is that short; and an element left out follows every one taken. */
  lemma SortedTake<T(!new)>(s: seq<T>, le: (T, T) -> bool, n: nat)
    requires IsTotalPreorder(le)
    ensures |Take(SortBy(s, le), n)| <= n
    ensures forall x :: x in Take(SortBy(s, le), n) ==> x in s
    ensures SortedBy(Take(SortBy(s, le), n), le)
    ensures |s| <= n ==> multiset(Take(SortBy(s, le), n)) == multiset(s)
    ensures forall x :: x in s && x !in Take(SortBy(s, le), n) ==>
      |Take(SortBy(s, le), n)| == n && forall i :: 0 <= i < n ==> le(Take(SortBy(s, le), n)[i], x)
  {
    var sorted := SortBy(s, le);
    var r := Take(sorted, n);
    SortBySorted(s, le);
    forall x | x in r ensures x in s {
      assert x in multiset(sorted);
    }
    forall x | x in s && x !in r ensures |r| == n && forall i :: 0 <= i < n ==> le(r[i], x) {
      assert x in multiset(sorted);
      PrefixOfSortedIsLeast(sorted, le, n, x);
    }
  }

  /** Filtering a sorted sequence keeps it sorted. */
  lemma {:induction false} FilterSorted<T(!new)>(s: seq<T>, p: T -> bool, le: (T, T) -> bool)
    requires SortedBy(s, le)
    ensures SortedBy(Filter(s, p), le)
    decreases |s|
  {
    if s != [] {
      var init := s[..|s| - 1];
      var x := s[|s| - 1];
      assert SortedBy(init, le) by {
        forall i, j | 0 <= i < j < |init| ensures le(init[i], init[j]) {
          assert init[i] == s[i] && init[j] == s[j];
        }
      }
      FilterSorted(init, p, le);
      var f := Filter(init, p);
      if p(x) {
        var r := f + [x];
        forall i, j | 0 <= i < j < |r| ensures le(r[i], r[j]) {
          if j == |f| {
            assert r[i] in init;
            var k :| 0 <= k < |init| && init[k] == r[i];
            assert s[k] == r[i];
          }
        }
      }
    }
  }

  /** The elements the comparator cannot tell apart from `e`. */
  function TiedWith<T>(le: (T, T) -> bool, e: T): T -> bool {
    x => le(x, e) && le(e, x)
  }

  /** Filtering `a + [x] + b` is filtering with `x` in front when `x` passes
      only if nothing in `a` does. */
  lemma FilterInserted<T(!new)>(a: seq<T>, x: T, b: seq<T>, p: T -> bool)
    requires p(x) ==> Filter(a, p) == []
    ensures Filter(a + [x] + b, p) == Filter([x], p) + Filter(a + b, p)
  {
    FilterConcat(a + [x], b, p);
    FilterConcat(a, [x], p);
    FilterConcat(a, b, p);
    FilterSingleton(x, p);
    SwapFront(Filter(a, p), Filter([x], p), Filter(b, p), Filter(a + [x] + b, p), Filter(a + b, p));
  }

  /** When `u` or `v` is empty, `u + v + w` is `v + (u + w)`. */
  lemma SwapFront<T>(u: seq<T>, v: seq<T>, w: seq<T>, l: seq<T>, r: seq<T>)
    requires u == [] || v == []
    requires l == u + v + w && r == u + w
    ensures l == v + r
  {
  }

  /** `Insert` splits `s` into the elements `x` strictly follows, which it
      passes over, and the rest, and puts `x` between the two. */
  lemma {:induction false} InsertSplit<T>(x: T, s: seq<T>, le: (T, T) -> bool) returns (u: seq<T>, w: seq<T>)
    ensures s == u + w && Insert(x, s, le) == u + [x] + w
    ensures forall i :: 0 <= i < |u| ==> !le(x, u[i])
    decreases |s|
  {
    if s == [] || le(x, s[0]) {
      u, w := [], s;
      EmptyFront(x, s, Insert(x, s, le));
    } else {
      var u', w' := InsertSplit(x, s[1..], le);
      u, w := [s[0]] + u', w';
      ConsSplit2(s[0], u', w', s, s[1..]);
      ConsSplit(s[0], u', [x], w', Insert(x, s, le), Insert(x, s[1..], le));
      ConsAllNotAfter(x, s[0], u', le);
    }
  }

  lemma ConsAllNotAfter<T>(x: T, h: T, u: seq<T>, le: (T, T) -> bool)
    requires !le(x, h)
    requires forall i :: 0 <= i < |u| ==> !le(x, u[i])
    ensures forall i :: 0 <= i < |[h] + u| ==> !le(x, ([h] + u)[i])
  {
    forall i | 0 <= i < |[h] + u| ensures !le(x, ([h] + u)[i]) {
      if i > 0 {
        assert ([h] + u)[i] == u[i - 1];
      }
    }
  }

  lemma EmptyFront<T>(x: T, s: seq<T>, l: seq<T>)
    requires l == [x] + s
    ensures s == [] + s && l == [] + [x] + s
  {
  }

  lemma ConsSplit2<T>(h: T, u: seq<T>, w: seq<T>, l: seq<T>, r: seq<T>)
    requires l == [h] + r && r == u + w
    ensures l == [h] + u + w
  {
  }

  lemma ConsSplit<T>(h: T, u: seq<T>, m: seq<T>, w: seq<T>, l: seq<T>, r: seq<T>)
    requires l == [h] + r && r == u + m + w
    ensures l == [h] + u + m + w
  {
  }

  /** Filtering after inserting `x` is filtering with `x` in front, when no
      element `x` strictly follows passes the filter together with `x`. */
  lemma InsertFilter<T(!new)>(x: T, s: seq<T>, le: (T, T) -> bool, p: T -> bool)
    requires p(x) ==> forall y :: !le(x, y) ==> !p(y)
    ensures Filter(Insert(x, s, le), p) == Filter([x], p) + Filter(s, p)
  {
    var u, w := InsertSplit(x, s, le);
    if p(x) {
      FilterNone(u, p);
    }
    FilterInsertedAt(u, x, w, p, s, Insert(x, s, le));
  }

  lemma FilterInsertedAt<T(!new)>(a: seq<T>, x: T, b: seq<T>, p: T -> bool, s: seq<T>, t: seq<T>)
    requires p(x) ==> Filter(a, p) == []
    requires s == a + b && t == a + [x] + b
    ensures Filter(t, p) == Filter([x], p) + Filter(s, p)
  {
    FilterInserted(a, x, b, p);
  }

  /** Inserting `x` puts it before every element tied with it, so among the
      elements of one tie class it comes first. */
  lemma InsertKeepsTies<T(!new)>(x: T, s: seq<T>, le: (T, T) -> bool, e: T)
    requires IsTotalPreorder(le)
    ensures Filter(Insert(x, s, le), TiedWith(le, e)) == Filter([x], TiedWith(le, e)) + Filter(s, TiedWith(le, e))
  {
    forall y | !le(x, y) && TiedWith(le, e)(x) ensures !TiedWith(le, e)(y) {
      TiedApart(x, y, le, e);
    }
    InsertFilter(x, s, le, TiedWith(le, e));
  }

  /** An element tied with `e` is not strictly after another one tied with it. */
  lemma TiedApart<T(!new)>(x: T, y: T, le: (T, T) -> bool, e: T)
    requires IsTotalPreorder(le) && !le(x, y)
    ensures !(TiedWith(le, e)(x) && TiedWith(le, e)(y))
  {
  }

  /** `SortBy` is stable: within each tie class the elements keep their order. */
  lemma {:induction false} SortByStable<T(!new)>(s: seq<T>, le: (T, T) -> bool, e: T)
    requires IsTotalPreorder(le)
    ensures Filter(SortBy(s, le), TiedWith(le, e)) == Filter(s, TiedWith(le, e))
    decreases |s|
  {
    if s != [] {
      SortByStable(s[1..], le, e);
      InsertKeepsTies(s[0], SortBy(s[1..], le), le, e);
      assert s == [s[0]] + s[1..];
      FilterConcat([s[0]], s[1..], TiedWith(le, e));
    }
  }

  /** `Insert` puts `x` right after the elements it strictly follows that
      start `t`, when the next one is one it does not follow. */
  lemma {:induction false} InsertAtPosition<T>(x: T, t: seq<T>, k: nat, le: (T, T) -> bool)
    requires k <= |t| && (k == |t| || le(x, t[k]))
    requires forall m :: 0 <= m < k ==> !le(x, t[m])
    ensures Insert(x, t, le) == t[..k] + [x] + t[k..]
    decreases k
  {
    if k == 0 {
      assert t[..k] == [] && t[k..] == t;
      EmptyFront(x, t, Insert(x, t, le));
    } else {
      var t' := t[1..];
      assert t'[k - 1..] == t[k..];
      if k - 1 < |t'| {
        assert t'[k - 1] == t[k];
      }
      forall m | 0 <= m < k - 1 ensures !le(x, t'[m]) {
        assert t'[m] == t[m + 1];
      }
      InsertAtPosition(x, t', k - 1, le);
      ConsSplit(t[0], t'[..k - 1], [x], t[k..], Insert(x, t, le), Insert(x, t', le));
      assert [t[0]] + t'[..k - 1] == t[..k];
    }
  }

  /** After the loop of `InsertFrom`: `x` sits at `j`, between the elements
      of `t` it moved past and the ones it did not, which is where `Insert`
      puts it. */
  lemma PlacedSlice<T>(c: seq<T>, i: nat, j: nat, t: seq<T>, x: T, le: (T, T) -> bool)
    requires i <= j < |c| && |c| == i + 1 + |t| && c[j] == x
    requires forall m :: i <= m < j ==> c[m] == t[m - i]
    requires forall m :: j < m < |c| ==> c[m] == t[m - i - 1]
    requires forall m :: 0 <= m < j - i ==> !le(x, t[m])
    requires j - i == |t| || le(x, t[j - i])
    ensures c[i..] == Insert(x, t, le)
  {
    InsertAtPosition(x, t, j - i, le);
    SliceAround(c, i, j, t, x);
  }

  lemma SliceAround<T>(c: seq<T>, i: nat, j: nat, t: seq<T>, x: T)
    requires i <= j < |c| && |c| == i + 1 + |t| && c[j] == x
    requires forall m :: i <= m < j ==> c[m] == t[m - i]
    requires forall m :: j < m < |c| ==> c[m] == t[m - i - 1]
    ensures c[i..] == t[..j - i] + [x] + t[j - i..]
  {
    var r := t[..j - i] + [x] + t[j - i..];
    forall m | 0 <= m < |r| ensures c[i..][m] == r[m] {
      if m < j - i {
        assert r[m] == t[m];
      } else if m > j - i {
        assert r[m] == t[m - 1];
      }
    }
  }

  /** `SortBy` of a suffix inserts its first element into `SortBy` of the rest. */
  lemma SortBySuffix<T>(s: seq<T>, i: nat, le: (T, T) -> bool)
    requires i < |s|
    ensures SortBy(s[i..], le) == Insert(s[i], SortBy(s[i + 1..], le), le)
  {
    assert s[i..][0] == s[i] && s[i..][1..] == s[i + 1..];
  }

  /** Moves `a[i]` right past the elements it strictly follows: the suffix
      from `i` becomes `Insert` of that element into the suffix after it. */
  method InsertFrom<T>(a: array<T>, i: nat, le: (T, T) -> bool)
    requires i < a.Length
    modifies a
    ensures a[..i] == old(a[..i])
    ensures a[i..] == Insert(old(a[i]), old(a[i + 1..]), le)
  {
    ghost var t := a[i + 1..];
    ghost var x := a[i];
    var j := i;
    while j + 1 < a.Length && !le(a[j], a[j + 1])
      invariant i <= j < a.Length
      invariant a[..i] == old(a[..i])
      invariant a[j] == x
      invariant forall m :: i <= m < j ==> a[m] == t[m - i]
      invariant forall m :: j < m < a.Length ==> a[m] == t[m - i - 1]
      invariant forall m :: 0 <= m < j - i ==> !le(x, t[m])
    {
      assert a[j + 1] == t[j - i];
      a[j], a[j + 1] := a[j + 1], a[j];
      j := j + 1;
    }
    if j + 1 < a.Length {
      assert le(x, t[j - i]);
    }
    PlacedSlice(a[..], i, j, t, x, le);
    assert a[i..] == a[..][i..];
  }

  /** Insertion sort in place, from the right: each element moves right past the
      elements it strictly follows, so it stays before the elements tied with it
      and the result is exactly `SortBy`. */
  method SortInPlace<T(!new)>(a: array<T>, le: (T, T) -> bool)
    requires IsTotalPreorder(le)
    modifies a
    ensures a[..] == SortBy(old(a[..]), le)
    ensures SortedBy(a[..], le)
    ensures multiset(a[..]) == old(multiset(a[..]))
    ensures forall e :: Filter(a[..], TiedWith(le, e)) == Filter(old(a[..]), TiedWith(le, e))
  {
    ghost var s := a[..];
    var i := a.Length;
    while i > 0
      invariant 0 <= i <= a.Length
      invariant a[..i] == s[..i]
      invariant a[i..] == SortBy(s[i..], le)
    {
      i := i - 1;
      assert a[i] == a[..i + 1][i] == s[..i + 1][i] == s[i];
      assert a[..i] == a[..i + 1][..i];
      InsertFrom(a, i, le);
      assert a[..i] == s[..i];
      SortBySuffix(s, i, le);
    }
    assert a[..] == a[0..];
    assert s == s[0..];
    SortByProperties(s, le);
  }

  /** What the source relies on `SortBy` for: it sorts, and keeps each tie
      class in its input order. */
  lemma SortByProperties<T(!new)>(s: seq<T>, le: (T, T) -> bool)
    requires IsTotalPreorder(le)
    ensures SortedBy(SortBy(s, le), le)
    ensures forall e :: Filter(SortBy(s, le), TiedWith(le, e)) == Filter(s, TiedWith(le, e))
  {
    SortBySorted(s, le);
    forall e ensures Filter(SortBy(s, le), TiedWith(le, e)) == Filter(s, TiedWith(le, e)) {
      SortByStable(s, le, e);
    }
  }
}

/** `Map` from ECMAScript: a dictionary that remembers the order in which its keys
    were first set. Represented as the list of its entries in that order. `Get` and
    `Set` carry no contract of their own; the lemmas below state what they do. */
module JsMap {
  import opened Optional

  type Entries<K, V> = seq<(K, V)>

  function Keys<K, V>(m: Entries<K, V>): (ks: seq<K>)
    ensures |ks| == |m|
    ensures forall i :: 0 <= i < |m| ==> ks[i] == m[i].0
  {
    seq(|m|, i requires 0 <= i < |m| => m[i].0)
  }

  predicate DistinctKeys<K(==), V>(m: Entries<K, V>) {
    forall i, j :: 0 <= i < j < |m| ==> m[i].0 != m[j].0
  }

  predicate HasKey<K(==), V>(m: Entries<K, V>, k: K) {
    exists i :: 0 <= i < |m| && m[i].0 == k
  }

  /** `m.get(k)`: the value of the first entry under `k`. */
  function Get<K(==), V>(m: Entries<K, V>, k: K): Option<V> {
    if m == [] then None
    else if m[0].0 == k then Some(m[0].1)
    else Get(m[1..], k)
  }

  /** `m.set(k, v)`: an existing key keeps its place, a new key goes last. */
  function Set<K(==), V>(m: Entries<K, V>, k: K, v: V): Entries<K, V> {
    if m == [] then [(k, v)]
    else if m[0].0 == k then [(k, v)] + m[1..]
    else [m[0]] + Set(m[1..], k, v)
  }

  lemma HasKeyTail<K, V>(m: Entries<K, V>, k: K)
    requires m != [] && m[0].0 != k
    ensures HasKey(m, k) <==> HasKey(m[1..], k)
  {
    if HasKey(m, k) {
      var i :| 0 <= i < |m| && m[i].0 == k;
      assert m[1..][i - 1] == m[i];
    }
    if HasKey(m[1..], k) {
      var i :| 0 <= i < |m[1..]| && m[1..][i].0 == k;
      assert m[i + 1] == m[1..][i];
    }
  }

  /** `get` finds a value exactly under a key that is present; the value is that of
      an entry under the key, and of the only one when keys are distinct. */
  lemma {:induction false} GetSpec<K, V>(m: Entries<K, V>, k: K)
    ensures Get(m, k).Some? <==> HasKey(m, k)
    ensures Get(m, k).Some? ==> exists i :: 0 <= i < |m| && m[i] == (k, Get(m, k).value)
    ensures DistinctKeys(m) ==> forall i :: 0 <= i < |m| && m[i].0 == k ==> Get(m, k) == Some(m[i].1)
    decreases |m|
  {
    if m != [] && m[0].0 == k {
      assert m[0] == (k, m[0].1);
    }
    if m != [] && m[0].0 != k {
      var t := m[1..];
      GetSpec(t, k);
      HasKeyTail(m, k);
      if Get(t, k).Some? {
        var i :| 0 <= i < |t| && t[i] == (k, Get(t, k).value);
        assert m[i + 1] == t[i];
      }
      if DistinctKeys(m) {
        assert DistinctKeys(t) by {
          forall i, j | 0 <= i < j < |t| ensures t[i].0 != t[j].0 {
            assert t[i] == m[i + 1] && t[j] == m[j + 1];
          }
        }
        forall i | 0 <= i < |m| && m[i].0 == k ensures Get(m, k) == Some(m[i].1) {
          assert i > 0 && t[i - 1] == m[i];
        }
      }
    }
  }

  /** `set` on a present key keeps the keys where they are. */
  lemma {:induction false} SetPresent<K, V>(m: Entries<K, V>, k: K, v: V)
    requires HasKey(m, k)
    ensures |Set(m, k, v)| == |m| && Keys(Set(m, k, v)) == Keys(m)
    decreases |m|
  {
    if m[0].0 != k {
      var t := m[1..];
      HasKeyTail(m, k);
      SetPresent(t, k, v);
      var rt := Set(t, k, v);
      assert Set(m, k, v) == [m[0]] + rt;
      assert Keys([m[0]] + rt) == [m[0].0] + Keys(rt);
      assert Keys(m) == [m[0].0] + Keys(t);
    }
  }

  /** `set` on a new key appends it. */
  lemma {:induction false} SetAbsent<K, V>(m: Entries<K, V>, k: K, v: V)
    requires !HasKey(m, k)
    ensures Set(m, k, v) == m + [(k, v)]
    decreases |m|
  {
    if m != [] {
      var t := m[1..];
      assert m[0].0 != k;
      HasKeyTail(m, k);
      SetAbsent(t, k, v);
      assert m == [m[0]] + t;
    }
  }

  /** `set` leaves every entry under another key in place. */
  lemma {:induction false} SetKeepsOthers<K, V>(m: Entries<K, V>, k: K, v: V)
    ensures |Set(m, k, v)| >= |m|
    ensures forall i :: 0 <= i < |m| && m[i].0 != k ==> Set(m, k, v)[i] == m[i]
    decreases |m|
  {
    if m != [] && m[0].0 != k {
      var t := m[1..];
      SetKeepsOthers(t, k, v);
      var r, rt := Set(m, k, v), Set(t, k, v);
      assert r == [m[0]] + rt;
      forall i | 0 <= i < |m| && m[i].0 != k ensures r[i] == m[i] {
        if i > 0 {
          assert r[i] == rt[i - 1] && m[i] == t[i - 1];
        }
      }
    }
  }

  /** After `set` the key is present. */
  lemma {:induction false} SetHasKey<K, V>(m: Entries<K, V>, k: K, v: V)
    ensures HasKey(Set(m, k, v), k)
    decreases |m|
  {
    var r := Set(m, k, v);
    if m == [] || m[0].0 == k {
      assert r[0].0 == k;
    } else {
      var rt := Set(m[1..], k, v);
      SetHasKey(m[1..], k, v);
      var j :| 0 <= j < |rt| && rt[j].0 == k;
      assert r[j + 1] == rt[j];
    }
  }

  /** `set` keeps every other entry in place, replaces the value of a present key
      and appends a new one. */
  lemma SetSpec<K, V>(m: Entries<K, V>, k: K, v: V)
    ensures HasKey(m, k) ==> |Set(m, k, v)| == |m| && Keys(Set(m, k, v)) == Keys(m)
    ensures !HasKey(m, k) ==> Set(m, k, v) == m + [(k, v)]
    ensures forall i :: 0 <= i < |m| && m[i].0 != k ==> Set(m, k, v)[i] == m[i]
    ensures HasKey(Set(m, k, v), k)
  {
    if HasKey(m, k) {
      SetPresent(m, k, v);
    } else {
      SetAbsent(m, k, v);
    }
    SetKeepsOthers(m, k, v);
    SetHasKey(m, k, v);
  }

  /** The keys of `Set(m, k, v)` are those of `m`, with `k` appended when new. */
  lemma SetKeys<K, V>(m: Entries<K, V>, k: K, v: V)
    ensures Keys(Set(m, k, v)) == if HasKey(m, k) then Keys(m) else Keys(m) + [k]
  {
    SetSpec(m, k, v);
    if !HasKey(m, k) {
      assert Keys(m + [(k, v)]) == Keys(m) + [k];
    }
  }

  lemma SetPreservesDistinct<K, V>(m: Entries<K, V>, k: K, v: V)
    requires DistinctKeys(m)
    ensures DistinctKeys(Set(m, k, v))
  {
    SetSpec(m, k, v);
    var r := Set(m, k, v);
    if HasKey(m, k) {
      forall i, j | 0 <= i < j < |r| ensures r[i].0 != r[j].0 {
        assert Keys(r)[i] == Keys(m)[i] && Keys(r)[j] == Keys(m)[j];
      }
    } else {
      forall i, j | 0 <= i < j < |r| ensures r[i].0 != r[j].0 {
        if j == |m| {
          assert r[i] == m[i];
        }
      }
    }
  }

  /** The value stored under `k` by `Set`: the first entry under `k` holds `v`. */
  lemma {:induction false} SetValue<K, V>(m: Entries<K, V>, k: K, v: V)
    ensures Get(Set(m, k, v), k) == Some(v)
    decreases |m|
  {
    if m != [] && m[0].0 != k {
      SetValue(m[1..], k, v);
      assert Set(m, k, v)[1..] == Set(m[1..], k, v);
    }
  }

  /** `Set` under one key leaves what `Get` finds under every other key. */
  lemma {:induction false} SetOther<K, V>(m: Entries<K, V>, k: K, v: V, k': K)
    requires k' != k
    ensures Get(Set(m, k, v), k') == Get(m, k')
    decreases |m|
  {
    if m == [] {
      assert Set(m, k, v)[1..] == [];
    } else if m[0].0 == k {
      assert Set(m, k, v)[1..] == m[1..];
    } else if m[0].0 != k' {
      SetOther(m[1..], k, v, k');
      assert Set(m, k, v)[1..] == Set(m[1..], k, v);
    }
  }

  /** The map laws: a `get` after a `set` sees the new value under that key and the
      old one under every other key. */
  lemma GetSet<K, V>(m: Entries<K, V>, k: K, v: V, k': K)
    ensures Get(Set(m, k, v), k') == if k' == k then Some(v) else Get(m, k')
  {
    if k' == k {
      SetValue(m, k, v);
    } else {
      SetOther(m, k, v, k');
    }
  }

  /** `m.set(k, (m.get(k) || 0) + 1)`. */
  function Increment<K(==)>(m: Entries<K, nat>, k: K): Entries<K, nat> {
    Set(m, k, Get(m, k).GetOr(0) + 1)
  }

  /** The counting map that increments each key of `ks` in turn. */
  function CountKeys<K(==)>(ks: seq<K>): Entries<K, nat>
    decreases |ks|
  {
    if ks == [] then [] else Increment(CountKeys(ks[..|ks| - 1]), ks[|ks| - 1])
  }

  /** Each key of `ks` once, at its first occurrence. */
  function FirstOccurrences<K(==)>(ks: seq<K>): (r: seq<K>)
    ensures forall i :: 0 <= i < |r| ==> r[i] in ks
    ensures forall i :: 0 <= i < |ks| ==> ks[i] in r
    decreases |ks|
  {
    if ks == [] then []
    else
      var init := ks[..|ks| - 1];
      var d := FirstOccurrences(init);
      assert forall i :: 0 <= i < |d| ==> d[i] in ks by {
        forall i | 0 <= i < |d| ensures d[i] in ks {
          var j :| 0 <= j < |init| && init[j] == d[i];
          assert ks[j] == init[j];
        }
      }
      assert forall i :: 0 <= i < |init| ==> ks[i] in d by {
        forall i | 0 <= i < |init| ensures ks[i] in d {
          assert ks[i] == init[i];
        }
      }
      if ks[|ks| - 1] in d then d else d + [ks[|ks| - 1]]
  }

  /** The counting map holds, under each key, the number of its occurrences, and
      nothing under a key that does not occur. */
  lemma {:induction false} CountKeysGet<K>(ks: seq<K>, k: K)
    ensures Get(CountKeys(ks), k) == if multiset(ks)[k] > 0 then Some(multiset(ks)[k]) else None
    decreases |ks|
  {
    if ks != [] {
      var init := ks[..|ks| - 1];
      var last := ks[|ks| - 1];
      var m := CountKeys(init);
      CountKeysGet(init, k);
      CountKeysGet(init, last);
      assert CountKeys(ks) == Increment(m, last);
      IncrementGet(m, last, k);
      assert ks == init + [last];
      assert multiset(ks) == multiset(init) + multiset{last};
    }
  }

  lemma {:induction false} CountKeysDistinct<K>(ks: seq<K>)
    ensures DistinctKeys(CountKeys(ks))
    decreases |ks|
  {
    if ks != [] {
      var m := CountKeys(ks[..|ks| - 1]);
      CountKeysDistinct(ks[..|ks| - 1]);
      var v: nat := Get(m, ks[|ks| - 1]).GetOr(0) + 1;
      SetPreservesDistinct(m, ks[|ks| - 1], v);
    }
  }

  /** The counting map lists its keys in the order of their first occurrence. */
  lemma {:induction false} CountKeysOrder<K>(ks: seq<K>)
    ensures Keys(CountKeys(ks)) == FirstOccurrences(ks)
    decreases |ks|
  {
    if ks != [] {
      var init := ks[..|ks| - 1];
      var last := ks[|ks| - 1];
      var m := CountKeys(init);
      CountKeysOrder(init);
      IncrementKeys(m, last);
      var d := FirstOccurrences(init);
      assert FirstOccurrences(ks) == if last in d then d else d + [last];
      assert CountKeys(ks) == Increment(m, last);
    }
  }

  /** Incrementing adds one under its key, starting from zero, and nothing else. */
  lemma IncrementGet<K>(m: Entries<K, nat>, k: K, k': K)
    ensures Get(Increment(m, k), k') == if k' == k then Some(Get(m, k).GetOr(0) + 1) else Get(m, k')
  {
    var v := Get(m, k).GetOr(0) + 1;
    assert Increment(m, k) == Set(m, k, v);
    GetSet(m, k, v, k');
  }

  /** Incrementing keeps the order of the keys and adds a new key last. */
  lemma IncrementKeys<K>(m: Entries<K, nat>, k: K)
    ensures Keys(Increment(m, k)) == if k in Keys(m) then Keys(m) else Keys(m) + [k]
  {
    SetKeys(m, k, Get(m, k).GetOr(0) + 1);
    HasKeyIffInKeys(m, k);
  }

  lemma HasKeyIffInKeys<K, V>(m: Entries<K, V>, k: K)
    ensures HasKey(m, k) <==> k in Keys(m)
  {
    if k in Keys(m) {
      var i :| 0 <= i < |Keys(m)| && Keys(m)[i] == k;
      assert m[i].0 == k;
    }
    if HasKey(m, k) {
      var i :| 0 <= i < |m| && m[i].0 == k;
      assert Keys(m)[i] == k;
    }
  }

  lemma FirstOccurrencesMember<K>(ks: seq<K>, k: K)
    ensures k in FirstOccurrences(ks) <==> k in ks
  {
    if k in ks {
      var i :| 0 <= i < |ks| && ks[i] == k;
    }
    if k in FirstOccurrences(ks) {
      var i :| 0 <= i < |FirstOccurrences(ks)| && FirstOccurrences(ks)[i] == k;
    }
  }

  /** The map that sets each key of `ks` in turn to `f` of that key. */
  function FromKeys<K(==), V>(ks: seq<K>, f: K -> V): Entries<K, V>
    decreases |ks|
  {
    if ks == [] then [] else Set(FromKeys(ks[..|ks| - 1], f), ks[|ks| - 1], f(ks[|ks| - 1]))
  }

  /** Under each key of `ks` the map holds `f` of that key; under no other key
      anything. */
  lemma {:induction false} FromKeysGet<K, V>(ks: seq<K>, f: K -> V, k: K)
    ensures Get(FromKeys(ks, f), k) == if k in ks then Some(f(k)) else None
    decreases |ks|
  {
    if ks != [] {
      var init := ks[..|ks| - 1];
      var last := ks[|ks| - 1];
      FromKeysGet(init, f, k);
      GetSet(FromKeys(init, f), last, f(last), k);
      assert ks == init + [last];
    }
  }

  lemma {:induction false} FromKeysDistinct<K, V>(ks: seq<K>, f: K -> V)
    ensures DistinctKeys(FromKeys(ks, f))
    decreases |ks|
  {
    if ks != [] {
      var last := ks[|ks| - 1];
      FromKeysDistinct(ks[..|ks| - 1], f);
      SetPreservesDistinct(FromKeys(ks[..|ks| - 1], f), last, f(last));
    }
  }

  /** The map lists its keys in the order in which they were first set. */
  lemma {:induction false} FromKeysOrder<K, V>(ks: seq<K>, f: K -> V)
    ensures Keys(FromKeys(ks, f)) == FirstOccurrences(ks)
    decreases |ks|
  {
    if ks != [] {
      var init := ks[..|ks| - 1];
      var last := ks[|ks| - 1];
      var m := FromKeys(init, f);
      FromKeysOrder(init, f);
      SetKeys(m, last, f(last));
      HasKeyIffInKeys(m, last);
      FirstOccurrencesMember(init, last);
    }
  }
}
