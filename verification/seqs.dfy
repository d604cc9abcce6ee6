/** Sequence helpers shared by both views: `Array.prototype.filter` and the
    facts about it that the grouping and sorting proofs rely on. */
module Seqs {

  /** The elements of `s` that satisfy `p`, in their original order. */
  function Filter<T>(s: seq<T>, p: T -> bool): (r: seq<T>)
    ensures |r| <= |s|
    ensures forall x :: x in r ==> x in s && p(x)
    decreases |s|
  {
    if |s| == 0 then []
    else Filter(s[..|s| - 1], p) + (if p(s[|s| - 1]) then [s[|s| - 1]] else [])
  }

  /** The positions `0, 1, ..., n - 1`. */
  function Indices(n: nat): (r: seq<int>)
    ensures |r| == n
    ensures forall i :: 0 <= i < n ==> r[i] == i
  {
    seq(n, i => i)
  }

  /** `s.map(f)`. */
  function Map<T, U>(s: seq<T>, f: T -> U): (r: seq<U>)
    ensures |r| == |s|
    ensures forall i :: 0 <= i < |s| ==> r[i] == f(s[i])
  {
    seq(|s|, i requires 0 <= i < |s| => f(s[i]))
  }

  lemma MapConcat<T, U>(a: seq<T>, b: seq<T>, f: T -> U)
    ensures Map(a + b, f) == Map(a, f) + Map(b, f)
  {
  }

  /** Taking out the element at `i` takes one copy of it out of the multiset. */
  lemma RemoveAt<T>(b: seq<T>, i: int)
    requires 0 <= i < |b|
    ensures b == b[..i] + [b[i]] + b[i + 1..]
    ensures multiset(b[..i] + b[i + 1..]) == multiset(b) - multiset{b[i]}
  {
    assert b == b[..i] + [b[i]] + b[i + 1..];
    assert multiset(b[..i] + b[i + 1..]) == multiset(b[..i]) + multiset(b[i + 1..]);
  }

  /** Mapping the sequence with its element at `i` taken out takes one copy of that
      element's image out of the mapped multiset. */
  lemma MapRemoveAt<T, U>(b: seq<T>, i: int, f: T -> U)
    requires 0 <= i < |b|
    ensures multiset(Map(b, f)) == multiset(Map(b[..i] + b[i + 1..], f)) + multiset{f(b[i])}
  {
    var m := Map(b, f);
    assert Map(b[..i] + b[i + 1..], f) == m[..i] + m[i + 1..];
    RemoveAt(m, i);
    assert m[i] in multiset(m);
  }

  /** The last element of a non-empty sequence is one copy in its multiset. */
  lemma MultisetOfLast<T>(a: seq<T>)
    requires |a| > 0
    ensures multiset(a) == multiset(a[..|a| - 1]) + multiset{a[|a| - 1]}
  {
    assert a == a[..|a| - 1] + [a[|a| - 1]];
  }

  /** A position of an element of the multiset. */
  lemma PositionOf<T>(b: seq<T>, x: T) returns (i: int)
    requires x in multiset(b)
    ensures 0 <= i < |b| && b[i] == x
  {
    assert x in b;
    i :| 0 <= i < |b| && b[i] == x;
  }

  /** Taking the last element of `a` and a matching element of a rearrangement `b`
      out of both leaves rearrangements of each other. */
  lemma RemoveMatching<T>(a: seq<T>, b: seq<T>, i: int)
    requires multiset(a) == multiset(b) && |a| > 0
    requires 0 <= i < |b| && b[i] == a[|a| - 1]
    ensures multiset(a[..|a| - 1]) == multiset(b[..i] + b[i + 1..])
  {
    MultisetOfLast(a);
    RemoveAt(b, i);
  }

  /** Mapping a rearrangement of `a` gives a rearrangement of the mapped `a`. */
  lemma {:induction false} MapPermutation<T, U>(a: seq<T>, b: seq<T>, f: T -> U)
    requires multiset(a) == multiset(b)
    ensures multiset(Map(a, f)) == multiset(Map(b, f))
    decreases |a|
  {
    if |a| > 0 {
      var n := |a| - 1;
      var m := Map(a, f);
      var i := PositionOf(b, a[n]);
      var rest := b[..i] + b[i + 1..];
      RemoveMatching(a, b, i);
      MapPermutation(a[..n], rest, f);
      MapRemoveAt(b, i, f);
      assert m[..n] == Map(a[..n], f);
      MultisetOfLast(m);
    }
  }

  /** Filtering a concatenation filters each part. */
  lemma {:induction false} FilterConcat<T>(a: seq<T>, b: seq<T>, p: T -> bool)
    ensures Filter(a + b, p) == Filter(a, p) + Filter(b, p)
    decreases |b|
  {
    if |b| == 0 {
      assert a + b == a;
    } else {
      var n := |b| - 1;
      var last := if p(b[n]) then [b[n]] else [];
      assert (a + b)[..|a + b| - 1] == a + b[..n] && (a + b)[|a + b| - 1] == b[n];
      assert Filter(a + b, p) == Filter(a + b[..n], p) + last;
      assert Filter(b, p) == Filter(b[..n], p) + last;
      FilterConcat(a, b[..n], p);
    }
  }

  /** Putting the same element in front of two sequences keeps a relation between their filters. */
  lemma FilterInFront<T>(a: T, t: seq<T>, u: seq<T>, extra: seq<T>, p: T -> bool)
    requires Filter(t, p) == Filter(u, p) + extra
    ensures Filter([a] + t, p) == Filter([a] + u, p) + extra
  {
    var head := Filter([a], p);
    calc {
      Filter([a] + t, p);
      { FilterConcat([a], t, p); }
      head + Filter(t, p);
      head + (Filter(u, p) + extra);
      (head + Filter(u, p)) + extra;
      { FilterConcat([a], u, p); }
      Filter([a] + u, p) + extra;
    }
  }

  /** Filtering with two predicates that agree on every element of `s` gives the same result. */
  lemma {:induction false} FilterCongruence<T>(s: seq<T>, p: T -> bool, q: T -> bool)
    requires forall x :: x in s ==> p(x) == q(x)
    ensures Filter(s, p) == Filter(s, q)
    decreases |s|
  {
    if |s| > 0 {
      FilterCongruence(s[..|s| - 1], p, q);
    }
  }

  lemma {:induction false} FilterNone<T>(s: seq<T>, p: T -> bool)
    requires forall x :: x in s ==> !p(x)
    ensures Filter(s, p) == []
    decreases |s|
  {
    if |s| > 0 {
      FilterNone(s[..|s| - 1], p);
    }
  }

  lemma FilterSingleton<T>(x: T, p: T -> bool)
    ensures Filter([x], p) == if p(x) then [x] else []
  {
    assert [x][..0] == [];
  }

  /** Filtering twice keeps the elements that pass both tests. */
  lemma {:induction false} FilterFilter<T>(s: seq<T>, p: T -> bool, q: T -> bool, both: T -> bool)
    requires forall x :: x in s ==> both(x) == (p(x) && q(x))
    ensures Filter(Filter(s, p), q) == Filter(s, both)
    decreases |s|
  {
    if |s| > 0 {
      var n := |s| - 1;
      var x := s[n];
      var init := s[..n];
      forall y | y in init
        ensures both(y) == (p(y) && q(y))
      {
        assert y in s;
      }
      FilterFilter(init, p, q, both);
      assert both(x) == (p(x) && q(x));
      var fp := Filter(init, p);
      assert Filter(s, both) == Filter(init, both) + (if both(x) then [x] else []);
      if p(x) {
        assert Filter(s, p) == fp + [x];
        FilterConcat(fp, [x], q);
        FilterSingleton(x, q);
      } else {
        assert Filter(s, p) == fp;
      }
    }
  }

  /** Every element keeps its multiplicity when it passes the test, and vanishes otherwise. */
  lemma {:induction false} FilterMultiplicity<T>(s: seq<T>, p: T -> bool, x: T)
    ensures multiset(Filter(s, p))[x] == if p(x) then multiset(s)[x] else 0
    decreases |s|
  {
    if |s| > 0 {
      var n := |s| - 1;
      FilterMultiplicity(s[..n], p, x);
      assert s == s[..n] + [s[n]];
    }
  }

  /** The filter of an ascending sequence is ascending. */
  lemma {:induction false} FilterAscending(s: seq<int>, p: int -> bool)
    requires forall i, j :: 0 <= i < j < |s| ==> s[i] < s[j]
    ensures forall i, j :: 0 <= i < j < |Filter(s, p)| ==> Filter(s, p)[i] < Filter(s, p)[j]
    decreases |s|
  {
    if |s| > 0 {
      var n := |s| - 1;
      FilterAscending(s[..n], p);
      var r := Filter(s, p);
      var r0 := Filter(s[..n], p);
      forall i, j | 0 <= i < j < |r|
        ensures r[i] < r[j]
      {
        if j >= |r0| {
          assert r[j] == s[n];
          assert r[i] in s[..n];
        }
      }
    }
  }

  /** The positions of the elements of `s` that pass `p`, in ascending order. */
  function Positions<T>(s: seq<T>, p: T -> bool): seq<int> {
    Filter(Indices(|s|), i => 0 <= i < |s| && p(s[i]))
  }

  lemma PositionsStep<T>(s: seq<T>, p: T -> bool)
    requires |s| > 0
    ensures Positions(s, p) == Positions(s[..|s| - 1], p) + (if p(s[|s| - 1]) then [|s| - 1] else [])
  {
    var n := |s| - 1;
    var P := i => 0 <= i < |s| && p(s[i]);
    var P' := i => 0 <= i < n && p(s[..n][i]);
    assert Indices(|s|)[..n] == Indices(n);
    FilterCongruence(Indices(n), P, P');
  }

  /** Every position is in range, and a position is listed exactly when its element passes. */
  lemma PositionsExact<T>(s: seq<T>, p: T -> bool)
    ensures forall k :: 0 <= k < |Positions(s, p)| ==> 0 <= Positions(s, p)[k] < |s|
    ensures forall i :: 0 <= i < |s| ==> (p(s[i]) <==> i in Positions(s, p))
  {
    var P := i => 0 <= i < |s| && p(s[i]);
    var idx := Positions(s, p);
    forall k | 0 <= k < |idx|
      ensures 0 <= idx[k] < |s|
    {
      assert idx[k] in idx;
      assert P(idx[k]);
    }
    forall i | 0 <= i < |s|
      ensures p(s[i]) <==> i in idx
    {
      FilterMultiplicity(Indices(|s|), P, i);
      assert Indices(|s|)[i] == i;
      assert i in multiset(Indices(|s|));
    }
  }

  /** The `k`-th element kept by the filter is the element at the `k`-th passing position. */
  lemma {:induction false} PositionsPick<T>(s: seq<T>, p: T -> bool)
    ensures |Positions(s, p)| == |Filter(s, p)|
    ensures forall k :: 0 <= k < |Positions(s, p)| ==>
      0 <= Positions(s, p)[k] < |s| && Filter(s, p)[k] == s[Positions(s, p)[k]]
    decreases |s|
  {
    if |s| > 0 {
      PositionsPick(s[..|s| - 1], p);
      PositionsPickStep(s, p);
    } else {
      assert Positions(s, p) == [];
    }
  }

  lemma PositionsPickStep<T>(s: seq<T>, p: T -> bool)
    requires |s| > 0
    requires var s' := s[..|s| - 1];
      && |Positions(s', p)| == |Filter(s', p)|
      && forall k :: 0 <= k < |Positions(s', p)| ==>
           0 <= Positions(s', p)[k] < |s'| && Filter(s', p)[k] == s'[Positions(s', p)[k]]
    ensures |Positions(s, p)| == |Filter(s, p)|
    ensures forall k :: 0 <= k < |Positions(s, p)| ==>
      0 <= Positions(s, p)[k] < |s| && Filter(s, p)[k] == s[Positions(s, p)[k]]
  {
    var n := |s| - 1;
    PositionsStep(s, p);
    var idx := Positions(s, p);
    var idx' := Positions(s[..n], p);
    var f' := Filter(s[..n], p);
    assert Filter(s, p) == f' + (if p(s[n]) then [s[n]] else []);
    forall k | 0 <= k < |idx|
      ensures 0 <= idx[k] < |s| && Filter(s, p)[k] == s[idx[k]]
    {
      if k < |idx'| {
        assert idx[k] == idx'[k];
        assert Filter(s, p)[k] == f'[k] == s[..n][idx'[k]];
      } else {
        assert idx[k] == n && Filter(s, p)[k] == s[n];
      }
    }
  }

  /** `Positions(s, p)` lists exactly the passing positions, ascending, and picks out
      `Filter(s, p)`: the filter keeps exactly the passing elements and preserves
      their relative order. */
  lemma FilterIsStableSelection<T>(s: seq<T>, p: T -> bool)
    ensures var idx := Positions(s, p);
      && |idx| == |Filter(s, p)|
      && (forall k :: 0 <= k < |idx| ==> 0 <= idx[k] < |s| && Filter(s, p)[k] == s[idx[k]])
      && (forall k, l :: 0 <= k < l < |idx| ==> idx[k] < idx[l])
      && (forall i :: 0 <= i < |s| ==> (p(s[i]) <==> i in idx))
  {
    FilterAscending(Indices(|s|), i => 0 <= i < |s| && p(s[i]));
    PositionsExact(s, p);
    PositionsPick(s, p);
  }
}
