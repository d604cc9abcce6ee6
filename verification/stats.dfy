/** The numeric summaries both views take of their tables: `d3.mean`, `d3.min`,
    `d3.max` (all with an accessor) and level 1's one-decimal rounding
    `Math.round(x * 10) / 10`. Temperatures are mathematical reals. */
module Stats {
  import opened Options

  /** The sum of `f` over `s`, added up left to right. */
  function SumBy<T>(s: seq<T>, f: T -> real): real
    decreases |s|
  {
    if |s| == 0 then 0.0 else SumBy(s[..|s| - 1], f) + f(s[|s| - 1])
  }

  /** `d3.mean(s, f)`: the arithmetic mean of `f` over a non-empty `s`. */
  function MeanBy<T>(s: seq<T>, f: T -> real): real
    requires |s| > 0
  {
    SumBy(s, f) / |s| as real
  }

  lemma {:induction false} SumByConcat<T>(a: seq<T>, b: seq<T>, f: T -> real)
    ensures SumBy(a + b, f) == SumBy(a, f) + SumBy(b, f)
    decreases |b|
  {
    if |b| == 0 {
      assert a + b == a;
    } else {
      var n := |b| - 1;
      assert (a + b)[..|a + b| - 1] == a + b[..n];
      SumByConcat(a, b[..n], f);
    }
  }

  /** The sum does not depend on the order of the elements. */
  lemma {:induction false} SumByPermutation<T>(a: seq<T>, b: seq<T>, f: T -> real)
    requires multiset(a) == multiset(b)
    ensures SumBy(a, f) == SumBy(b, f)
    decreases |a|
  {
    if |a| > 0 {
      var n := |a| - 1;
      var x := a[n];
      assert x in multiset(b);
      var i :| 0 <= i < |b| && b[i] == x;
      var b' := b[..i] + b[i + 1..];
      assert b == b[..i] + [x] + b[i + 1..];
      assert a == a[..n] + [x];
      assert multiset(a) == multiset(a[..n]) + multiset{x};
      assert multiset(b) == multiset(b[..i]) + multiset{x} + multiset(b[i + 1..]);
      assert multiset(b') == multiset(b[..i]) + multiset(b[i + 1..]);
      assert multiset(a[..n]) == multiset(a) - multiset{x};
      assert multiset(b') == multiset(b) - multiset{x};
      SumByPermutation(a[..n], b', f);
      SumByConcat(b[..i] + [x], b[i + 1..], f);
      SumByConcat(b[..i], [x], f);
      SumByConcat(b[..i], b[i + 1..], f);
      assert SumBy([x], f) == f(x) by {
        assert [x][..0] == [];
      }
    }
  }

  /** The mean does not depend on the order of the elements. */
  lemma MeanByPermutation<T>(a: seq<T>, b: seq<T>, f: T -> real)
    requires |a| > 0 && multiset(a) == multiset(b)
    ensures |b| == |a| && MeanBy(a, f) == MeanBy(b, f)
  {
    assert |multiset(a)| == |multiset(b)|;
    SumByPermutation(a, b, f);
  }

  lemma {:induction false} SumByBounds<T>(s: seq<T>, f: T -> real, lo: real, hi: real)
    requires forall i :: 0 <= i < |s| ==> lo <= f(s[i]) <= hi
    ensures |s| as real * lo <= SumBy(s, f) <= |s| as real * hi
    decreases |s|
  {
    if |s| > 0 {
      var n := |s| - 1;
      SumByBounds(s[..n], f, lo, hi);
      assert SumBy(s, f) == SumBy(s[..n], f) + f(s[n]);
      assert |s| as real * lo == n as real * lo + lo;
      assert |s| as real * hi == n as real * hi + hi;
    }
  }

  /** A mean lies between any bounds of the values it averages. */
  lemma MeanByBounds<T>(s: seq<T>, f: T -> real, lo: real, hi: real)
    requires |s| > 0
    requires forall i :: 0 <= i < |s| ==> lo <= f(s[i]) <= hi
    ensures lo <= MeanBy(s, f) <= hi
  {
    SumByBounds(s, f, lo, hi);
    var n := |s| as real;
    assert n * lo <= SumBy(s, f) <= n * hi;
    assert MeanBy(s, f) * n == SumBy(s, f);
  }

  /** `d3.min(s, f)` on a non-empty `s`: the least value, attained by some element. */
  function MinBy<T>(s: seq<T>, f: T -> real): (m: real)
    requires |s| > 0
    ensures forall i :: 0 <= i < |s| ==> m <= f(s[i])
    ensures exists i :: 0 <= i < |s| && f(s[i]) == m
    decreases |s|
  {
    if |s| == 1 then f(s[0])
    else
      var m := MinBy(s[..|s| - 1], f);
      var x := f(s[|s| - 1]);
      if x < m then x else m
  }

  /** `d3.max(s, f)` on a non-empty `s`: the greatest value, attained by some element. */
  function MaxBy<T>(s: seq<T>, f: T -> real): (m: real)
    requires |s| > 0
    ensures forall i :: 0 <= i < |s| ==> f(s[i]) <= m
    ensures exists i :: 0 <= i < |s| && f(s[i]) == m
    decreases |s|
  {
    if |s| == 1 then f(s[0])
    else
      var m := MaxBy(s[..|s| - 1], f);
      var x := f(s[|s| - 1]);
      if x > m then x else m
  }

  /** The two ends `[lo, hi]` of a scale domain. */
  datatype Range = Range(lo: real, hi: real)

  /** `[d3.min(s, f), d3.max(s, f)]`: `None` stands for the `undefined` pair an empty
      table gives; otherwise every value lies in the range and both ends are attained. */
  function ValueRange<T>(s: seq<T>, f: T -> real): (r: Option<Range>)
    ensures r.None? <==> |s| == 0
    ensures r.Some? ==> r.value.lo <= r.value.hi
    ensures r.Some? ==> forall i :: 0 <= i < |s| ==> r.value.lo <= f(s[i]) <= r.value.hi
    ensures r.Some? ==> exists i :: 0 <= i < |s| && f(s[i]) == r.value.lo
    ensures r.Some? ==> exists i :: 0 <= i < |s| && f(s[i]) == r.value.hi
  {
    if |s| == 0 then None else Some(Range(MinBy(s, f), MaxBy(s, f)))
  }

  /** `Math.round(y)`: the nearest integer, halves rounded up (towards +infinity). */
  function Round(y: real): int {
    (y + 0.5).Floor
  }

  /** `Math.round(x * 10) / 10`: a multiple of 0.1 within 0.05 of `x`, halves going up. */
  function RoundToTenth(x: real): (r: real)
    ensures (r * 10.0).Floor as real == r * 10.0
    ensures x - 0.05 < r <= x + 0.05
  {
    Round(x * 10.0) as real / 10.0
  }
}
