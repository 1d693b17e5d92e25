/** Sequence operations the program performs on Python lists. */
module Seqs {

  /** `list.remove(x)`: drops the first element equal to `x` (Python raises when there is none). */
  function RemoveFirst<T(==)>(s: seq<T>, x: T): (r: seq<T>)
    requires x in s
    ensures |r| == |s| - 1
    ensures multiset(r) == multiset(s) - multiset{x}
  {
    assert s == [s[0]] + s[1..];
    if s[0] == x then s[1..] else [s[0]] + RemoveFirst(s[1..], x)
  }

  /** Removing `x` from a list where its first occurrence follows `a` takes out exactly that one. */
  lemma {:induction false} RemoveFirstAfterAbsent<T>(a: seq<T>, x: T, b: seq<T>)
    requires x !in a
    ensures RemoveFirst(a + [x] + b, x) == a + b
  {
    if a != [] {
      var s, tail := a + [x] + b, a[1..] + [x] + b;
      assert s[0] == a[0] && s[0] != x;
      assert s[1..] == tail;
      RemoveFirstAfterAbsent(a[1..], x, b);
      assert RemoveFirst(s, x) == [a[0]] + (a[1..] + b);
      HeadSplit(a, b);
    }
  }

  lemma HeadSplit<T>(a: seq<T>, b: seq<T>)
    requires a != []
    ensures a + b == [a[0]] + (a[1..] + b)
  {
    assert a == [a[0]] + a[1..];
  }

  lemma PrefixSnoc<T>(s: seq<T>, k: nat)
    requires k < |s|
    ensures s[..k + 1] == s[..k] + [s[k]]
  {
  }

  lemma SuffixSplit<T>(a: seq<T>, s: seq<T>, k: nat)
    requires k < |s|
    ensures a + s[k..] == a + [s[k]] + s[k + 1..]
  {
    assert s[k..] == [s[k]] + s[k + 1..];
  }

  lemma PrefixThenRest<T>(s: seq<T>, a: seq<T>)
    requires |a| <= |s| && s[..|a|] == a
    ensures s == a + s[|a|..]
  {
    assert s == s[..|a|] + s[|a|..];
  }

  lemma ConcatParts<T>(a: seq<T>, b: seq<T>)
    ensures (a + b)[..|a|] == a && (a + b)[|a|..] == b
  {
  }

  /** `list.remove` keeps the order of the other elements: it cuts the list at the first occurrence. */
  lemma {:induction false} RemoveFirstSplits<T>(s: seq<T>, x: T)
    requires x in s
    ensures exists i :: 0 <= i < |s| && s[i] == x && x !in s[..i] && RemoveFirst(s, x) == s[..i] + s[i + 1..]
  {
    var i :| 0 <= i < |s| && s[i] == x && x !in s[..i] by {
      FirstIndex(s, x);
    }
    assert s == s[..i] + [x] + s[i + 1..];
    RemoveFirstAfterAbsent(s[..i], x, s[i + 1..]);
  }

  lemma {:induction false} FirstIndex<T>(s: seq<T>, x: T)
    requires x in s
    ensures exists i :: 0 <= i < |s| && s[i] == x && x !in s[..i]
  {
    if s[0] == x {
      assert x !in s[..0];
    } else {
      var tail := s[1..];
      assert x in tail by { assert s == [s[0]] + tail; }
      FirstIndex(tail, x);
      var i :| 0 <= i < |tail| && tail[i] == x && x !in tail[..i];
      assert s[i + 1] == x;
      assert s[..i + 1] == [s[0]] + tail[..i];
    }
  }

  /** The elements of a list are pairwise distinct. */
  predicate Distinct<T(==)>(s: seq<T>) {
    forall i, j :: 0 <= i < j < |s| ==> s[i] != s[j]
  }

  /** For a duplicate-free sequence, the index of each element. */
  ghost function Positions<T>(s: seq<T>): (m: map<T, nat>)
    requires Distinct(s)
    ensures forall k :: 0 <= k < |s| ==> s[k] in m && m[s[k]] == k
    ensures forall x :: x in s ==> x in m && m[x] < |s| && s[m[x]] == x
  {
    if s == [] then map[]
    else
      var n := |s| - 1;
      assert Distinct(s[..n]);
      var m := Positions(s[..n]);
      assert forall x :: x in s ==> x in s[..n] || x == s[n];
      m[s[n] := n]
  }

  /** Two duplicate-free sequences with no common element concatenate to a duplicate-free one. */
  lemma DistinctAppend<T>(a: seq<T>, b: seq<T>)
    requires Distinct(a) && Distinct(b) && forall x :: x in b ==> x !in a
    ensures Distinct(a + b)
  {
    forall i, j | 0 <= i < j < |a + b|
      ensures (a + b)[i] != (a + b)[j]
    {
      if i >= |a| {
        assert (a + b)[i] == b[i - |a|] && (a + b)[j] == b[j - |a|];
      } else if j >= |a| {
        assert (a + b)[i] == a[i] && (a + b)[j] == b[j - |a|] && b[j - |a|] in b;
      }
    }
  }

  /** `for x in xs: s.remove(x)`, which needs every element of `xs` to be present, counted with multiplicity. */
  function RemoveEach<T(==)>(s: seq<T>, xs: seq<T>): (r: seq<T>)
    requires multiset(xs) <= multiset(s)
    ensures multiset(r) == multiset(s) - multiset(xs)
    decreases |xs|
  {
    if xs == [] then s
    else
      assert xs == [xs[0]] + xs[1..];
      assert xs[0] in multiset(s);
      RemoveEach(RemoveFirst(s, xs[0]), xs[1..])
  }

  /** The loop `for x in xs: s.remove(x)`. */
  method RemoveAll<T(==)>(s: seq<T>, xs: seq<T>) returns (r: seq<T>)
    requires multiset(xs) <= multiset(s)
    ensures r == RemoveEach(s, xs)
  {
    r := s;
    for i := 0 to |xs|
      invariant multiset(xs[i..]) <= multiset(r)
      invariant RemoveEach(r, xs[i..]) == RemoveEach(s, xs)
    {
      RemoveEachStep(r, xs, i);
      r := RemoveFirst(r, xs[i]);
    }
    assert xs[|xs|..] == [];
  }

  /** One iteration of that loop. */
  lemma RemoveEachStep<T>(s: seq<T>, xs: seq<T>, i: nat)
    requires i < |xs| && multiset(xs[i..]) <= multiset(s)
    ensures xs[i] in s
    ensures multiset(xs[i + 1..]) <= multiset(RemoveFirst(s, xs[i]))
    ensures RemoveEach(RemoveFirst(s, xs[i]), xs[i + 1..]) == RemoveEach(s, xs[i..])
  {
    assert xs[i..] == [xs[i]] + xs[i + 1..];
    assert xs[i] in multiset(s);
  }

  /** The elements of `s`, in order, on which `f` yields `keep`. */
  function FilterBy<T>(s: seq<T>, f: T -> bool, keep: bool): (r: seq<T>)
    ensures |r| <= |s|
  {
    if s == [] then [] else FilterBy(s[..|s| - 1], f, keep) + (if f(s[|s| - 1]) == keep then [s[|s| - 1]] else [])
  }

  /** Filtering distributes over concatenation, so the filter keeps the input's order. */
  lemma {:induction false} FilterByConcat<T>(a: seq<T>, b: seq<T>, f: T -> bool, keep: bool)
    ensures FilterBy(a + b, f, keep) == FilterBy(a, f, keep) + FilterBy(b, f, keep)
    decreases |b|
  {
    if b != [] {
      var n := |b|;
      assert (a + b)[..|a + b| - 1] == a + b[..n - 1];
      FilterByConcat(a, b[..n - 1], f, keep);
    } else {
      assert a + b == a;
    }
  }

  lemma FilterByCons<T>(x: T, s: seq<T>, f: T -> bool, keep: bool)
    ensures FilterBy([x] + s, f, keep) == (if f(x) == keep then [x] else []) + FilterBy(s, f, keep)
  {
    FilterByConcat([x], s, f, keep);
    assert [x][..0] == [];
  }

  /** An element is kept exactly when it occurs in the input and `f` yields `keep` on it. */
  lemma {:induction false} FilterByMembership<T>(s: seq<T>, f: T -> bool, keep: bool, x: T)
    ensures x in FilterBy(s, f, keep) <==> x in s && f(x) == keep
    decreases |s|
  {
    if s != [] {
      var n := |s|;
      FilterByMembership(s[..n - 1], f, keep, x);
      assert s == s[..n - 1] + [s[n - 1]];
    }
  }

  /** Filters that agree on every element of the input select the same elements. */
  lemma {:induction false} FilterByAgree<T>(s: seq<T>, f: T -> bool, g: T -> bool, keep: bool)
    requires forall y :: y in s ==> f(y) == g(y)
    ensures FilterBy(s, f, keep) == FilterBy(s, g, keep)
    decreases |s|
  {
    if s != [] {
      FilterByAgree(s[..|s| - 1], f, g, keep);
    }
  }

  /** A filter that keeps every element is the identity. */
  lemma {:induction false} FilterByAll<T>(s: seq<T>, f: T -> bool, keep: bool)
    requires forall y :: y in s ==> f(y) == keep
    ensures FilterBy(s, f, keep) == s
    decreases |s|
  {
    if s != [] {
      var n := |s|;
      FilterByAll(s[..n - 1], f, keep);
      assert s == s[..n - 1] + [s[n - 1]];
    }
  }

  /** A filter that drops every element keeps nothing. */
  lemma {:induction false} FilterByNone<T>(s: seq<T>, f: T -> bool)
    requires forall y :: y in s ==> f(y)
    ensures FilterBy(s, f, false) == []
    decreases |s|
  {
    if s != [] {
      var n := |s|;
      assert s == s[..n - 1] + [s[n - 1]];
      FilterByNone(s[..n - 1], f);
    }
  }

  /** A filter of a list without duplicates has none either. */
  lemma {:induction false} FilterByDistinct<T>(s: seq<T>, f: T -> bool, keep: bool)
    requires Distinct(s)
    ensures Distinct(FilterBy(s, f, keep))
    decreases |s|
  {
    if s != [] {
      var n := |s|;
      var init, last := s[..n - 1], s[n - 1];
      assert Distinct(init) by {
        forall i, j | 0 <= i < j < |init| ensures init[i] != init[j] { assert init[i] == s[i] && init[j] == s[j]; }
      }
      FilterByDistinct(init, f, keep);
      assert last !in init by {
        forall i | 0 <= i < |init| ensures init[i] != last { assert init[i] == s[i]; }
      }
      FilterByMembership(init, f, keep, last);
      DistinctAppend(FilterBy(init, f, keep), if f(last) == keep then [last] else []);
    }
  }

  /**
   * In a list without duplicates, removing a kept element from what a filter keeps gives the
   * filter that also drops that element.
   */
  lemma FilterByRemoveOne<T>(s: seq<T>, f: T -> bool, g: T -> bool, x: T)
    requires Distinct(s) && x in s && !f(x) && g(x)
    requires forall y :: y in s && y != x ==> g(y) == f(y)
    ensures x in FilterBy(s, f, false)
    ensures RemoveFirst(FilterBy(s, f, false), x) == FilterBy(s, g, false)
  {
    var a, b := SplitAtUnique(s, x);
    FilterByRemoveAround(a, b, f, g, x);
  }

  lemma FilterByRemoveAround<T>(a: seq<T>, b: seq<T>, f: T -> bool, g: T -> bool, x: T)
    requires x !in a && x !in b && !f(x) && g(x)
    requires forall y :: y in a + [x] + b && y != x ==> g(y) == f(y)
    ensures x in FilterBy(a + [x] + b, f, false)
    ensures RemoveFirst(FilterBy(a + [x] + b, f, false), x) == FilterBy(a + [x] + b, g, false)
  {
    var s := a + [x] + b;
    var fa, fb, ga, gb := FilterBy(a, f, false), FilterBy(b, f, false), FilterBy(a, g, false), FilterBy(b, g, false);
    FilterByAround(a, x, b, f);
    assert FilterBy(s, f, false) == fa + [x] + fb;
    FilterByAround(a, x, b, g);
    assert FilterBy(s, g, false) == ga + gb;
    FilterByAgree(a, f, g, false);
    FilterByAgree(b, f, g, false);
    assert fa == ga && fb == gb;
    FilterByMembership(a, f, false, x);
    RemoveFirstAfterAbsent(fa, x, fb);
  }

  /** A list without duplicates splits around any of its elements into two parts without it. */
  lemma SplitAtUnique<T>(s: seq<T>, x: T) returns (a: seq<T>, b: seq<T>)
    requires Distinct(s) && x in s
    ensures s == a + [x] + b && x !in a && x !in b
  {
    var i :| 0 <= i < |s| && s[i] == x;
    a, b := s[..i], s[i + 1..];
    assert s == a + [x] + b;
    forall k | 0 <= k < |a| ensures a[k] != x { assert s[k] == a[k]; }
    forall k | 0 <= k < |b| ensures b[k] != x { assert s[i + 1 + k] == b[k]; }
  }

  lemma FilterByAround<T>(a: seq<T>, x: T, b: seq<T>, f: T -> bool)
    ensures FilterBy(a + [x] + b, f, false) == FilterBy(a, f, false) + (if f(x) then [] else [x]) + FilterBy(b, f, false)
  {
    FilterByConcat(a + [x], b, f, false);
    FilterByConcat(a, [x], f, false);
    assert [x][..0] == [];
  }

  /** The two filters split the input: each element goes to exactly one of them. */
  lemma {:induction false} FilterBySplits<T>(s: seq<T>, f: T -> bool)
    ensures multiset(FilterBy(s, f, true)) + multiset(FilterBy(s, f, false)) == multiset(s)
    decreases |s|
  {
    if s != [] {
      var n := |s|;
      FilterBySplits(s[..n - 1], f);
      assert s == s[..n - 1] + [s[n - 1]];
    }
  }

  /** Removing an element that is not among those removed leaves it in front. */
  lemma {:induction false} RemoveEachPastHead<T>(x: T, s: seq<T>, xs: seq<T>)
    requires x !in xs && multiset(xs) <= multiset(s)
    ensures multiset(xs) <= multiset([x] + s)
    ensures RemoveEach([x] + s, xs) == [x] + RemoveEach(s, xs)
    decreases |xs|
  {
    assert multiset([x] + s) == multiset{x} + multiset(s);
    if xs != [] {
      assert xs == [xs[0]] + xs[1..];
      assert xs[0] in multiset(s);
      assert RemoveFirst([x] + s, xs[0]) == [x] + RemoveFirst(s, xs[0]) by {
        assert ([x] + s)[1..] == s;
      }
      RemoveEachPastHead(x, RemoveFirst(s, xs[0]), xs[1..]);
    }
  }

  /**
   * Removing, one by one and first occurrence first, every element on which `f` holds leaves
   * exactly the elements on which it fails, in their original order. This holds even with
   * duplicates, because `f` gives equal elements the same verdict.
   */
  lemma {:induction false} RemoveSelectedLeavesRest<T>(s: seq<T>, f: T -> bool)
    ensures multiset(FilterBy(s, f, true)) <= multiset(s)
    ensures RemoveEach(s, FilterBy(s, f, true)) == FilterBy(s, f, false)
    decreases |s|
  {
    FilterBySplits(s, f);
    if s != [] {
      var x, rest := s[0], s[1..];
      assert s == [x] + rest;
      RemoveSelectedLeavesRest(rest, f);
      RemoveSelectedCons(x, rest, f);
    }
  }

  /** The step of that induction: the head is either removed first or kept in front. */
  lemma RemoveSelectedCons<T>(x: T, rest: seq<T>, f: T -> bool)
    requires multiset(FilterBy(rest, f, true)) <= multiset(rest)
    requires RemoveEach(rest, FilterBy(rest, f, true)) == FilterBy(rest, f, false)
    ensures multiset(FilterBy([x] + rest, f, true)) <= multiset([x] + rest)
    ensures RemoveEach([x] + rest, FilterBy([x] + rest, f, true)) == FilterBy([x] + rest, f, false)
  {
    var removed, kept := FilterBy(rest, f, true), FilterBy(rest, f, false);
    FilterByCons(x, rest, f, true);
    FilterByCons(x, rest, f, false);
    if f(x) {
      assert FilterBy([x] + rest, f, true) == [x] + removed;
      assert FilterBy([x] + rest, f, false) == kept;
      RemoveSelectedHead(x, rest, removed);
    } else {
      assert FilterBy([x] + rest, f, true) == removed;
      assert FilterBy([x] + rest, f, false) == [x] + kept;
      FilterByMembership(rest, f, true, x);
      RemoveEachPastHead(x, rest, removed);
    }
  }

  lemma RemoveSelectedHead<T>(x: T, rest: seq<T>, removed: seq<T>)
    requires multiset(removed) <= multiset(rest)
    ensures multiset([x] + removed) <= multiset([x] + rest)
    ensures RemoveEach([x] + rest, [x] + removed) == RemoveEach(rest, removed)
  {
    assert multiset([x] + rest) == multiset{x} + multiset(rest);
    assert multiset([x] + removed) == multiset{x} + multiset(removed);
    assert ([x] + removed)[0] == x && ([x] + removed)[1..] == removed;
    assert RemoveFirst([x] + rest, x) == rest;
  }
}
