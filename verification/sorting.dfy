/** `array.sort((a, b) => key(a) - key(b))` with a numeric key that may be NaN.
    The comparator puts `a` first exactly when both keys are numbers and
    `key(a) < key(b)`; JavaScript's sort is stable, so this is an insertion sort
    that places each row after every row not greater than it. */
module Sorting {
  import opened Seqs
  import opened JsNumbers

  /** The comparator's answer is negative. */
  predicate Before(a: JsNumber, b: JsNumber) {
    a.Int? && b.Int? && a.value < b.value
  }

  /** Every key is a number (no NaN day). */
  predicate AllNumbers<T>(s: seq<T>, key: T -> JsNumber) {
    forall i :: 0 <= i < |s| ==> key(s[i]).Int?
  }

  /** No row is strictly before an earlier one: ascending keys. */
  predicate SortedBy<T>(s: seq<T>, key: T -> JsNumber) {
    forall i, j :: 0 <= i < j < |s| ==> !Before(key(s[j]), key(s[i]))
  }

  /** The rows whose key is `k`. */
  function KeyIs<T>(k: JsNumber, key: T -> JsNumber): T -> bool {
    x => key(x) == k
  }

  function InsertSorted<T>(x: T, s: seq<T>, key: T -> JsNumber): (r: seq<T>)
    ensures multiset(r) == multiset(s) + multiset{x}
    decreases |s|
  {
    if |s| == 0 then [x]
    else if Before(key(x), key(s[0])) then [x] + s
    else
      var r := [s[0]] + InsertSorted(x, s[1..], key);
      assert s == [s[0]] + s[1..];
      r
  }

  /** The rows of `s` in ascending order of `key`, equal keys in input order. */
  function SortBy<T>(s: seq<T>, key: T -> JsNumber): (r: seq<T>)
    ensures multiset(r) == multiset(s)
    ensures |r| == |s|
    decreases |s|
  {
    if |s| == 0 then []
    else
      var r := InsertSorted(s[|s| - 1], SortBy(s[..|s| - 1], key), key);
      assert s == s[..|s| - 1] + [s[|s| - 1]];
      assert |multiset(r)| == |multiset(s)|;
      r
  }

  lemma ElementsOfInsert<T>(x: T, s: seq<T>, key: T -> JsNumber, y: T)
    requires y in InsertSorted(x, s, key)
    ensures y == x || y in s
  {
    assert y in multiset(InsertSorted(x, s, key));
  }

  lemma {:induction false} InsertKeepsSorted<T>(x: T, s: seq<T>, key: T -> JsNumber)
    requires AllNumbers(s, key) && key(x).Int?
    requires SortedBy(s, key)
    ensures AllNumbers(InsertSorted(x, s, key), key)
    ensures SortedBy(InsertSorted(x, s, key), key)
    decreases |s|
  {
    var r := InsertSorted(x, s, key);
    forall i | 0 <= i < |r|
      ensures key(r[i]).Int?
    {
      ElementsOfInsert(x, s, key, r[i]);
    }
    if |s| > 0 && !Before(key(x), key(s[0])) {
      InsertKeepsSorted(x, s[1..], key);
      var t := InsertSorted(x, s[1..], key);
      forall j | 0 < j < |r|
        ensures !Before(key(r[j]), key(r[0]))
      {
        assert r[j] in t;
        ElementsOfInsert(x, s[1..], key, r[j]);
      }
    }
  }

  lemma SortedNumbers<T>(s: seq<T>, key: T -> JsNumber)
    requires AllNumbers(s, key)
    ensures forall i :: 0 <= i < |SortBy(s, key)| ==> key(SortBy(s, key)[i]).Int?
  {
    var r := SortBy(s, key);
    forall i | 0 <= i < |r|
      ensures key(r[i]).Int?
    {
      assert r[i] in multiset(s);
    }
  }

  /** With numeric keys the result is in ascending order of key. */
  lemma {:induction false} SortBySorts<T>(s: seq<T>, key: T -> JsNumber)
    requires AllNumbers(s, key)
    ensures AllNumbers(SortBy(s, key), key)
    ensures forall i, j :: 0 <= i < j < |s| ==> key(SortBy(s, key)[i]).value <= key(SortBy(s, key)[j]).value
    decreases |s|
  {
    SortedNumbers(s, key);
    SortByIsSorted(s, key);
  }

  lemma SortByStep<T>(s: seq<T>, key: T -> JsNumber)
    requires |s| > 0
    ensures SortBy(s, key) == InsertSorted(s[|s| - 1], SortBy(s[..|s| - 1], key), key)
  {
  }

  lemma AllNumbersPrefix<T>(s: seq<T>, key: T -> JsNumber, n: nat)
    requires AllNumbers(s, key) && n <= |s|
    ensures AllNumbers(s[..n], key)
  {
    forall i | 0 <= i < n
      ensures key(s[..n][i]).Int?
    {
      assert s[..n][i] == s[i];
    }
  }

  lemma {:induction false} SortByIsSorted<T>(s: seq<T>, key: T -> JsNumber)
    requires AllNumbers(s, key)
    ensures SortedBy(SortBy(s, key), key)
    decreases |s|
  {
    if |s| > 0 {
      var n := |s| - 1;
      var init := s[..n];
      var t := SortBy(init, key);
      assert AllNumbers(init, key) by {
        AllNumbersPrefix(s, key, n);
      }
      assert SortedBy(t, key) && AllNumbers(t, key) by {
        SortByIsSorted(init, key);
        SortedNumbers(init, key);
      }
      assert SortedBy(InsertSorted(s[n], t, key), key) by {
        InsertKeepsSorted(s[n], t, key);
      }
      SortByStep(s, key);
      SortedBySame(SortBy(s, key), InsertSorted(s[n], t, key), key);
    }
  }

  lemma SortedBySame<T>(a: seq<T>, b: seq<T>, key: T -> JsNumber)
    requires a == b && SortedBy(b, key)
    ensures SortedBy(a, key)
  {
  }

  /** In a sorted sequence every row after the first has a key at least the first's. */
  lemma NoneBelowHead<T>(x: T, s: seq<T>, key: T -> JsNumber, k: JsNumber)
    requires |s| > 0 && SortedBy(s, key) && Before(key(x), key(s[0])) && key(x) == k
    ensures Filter(s, KeyIs(k, key)) == []
  {
    forall y | y in s
      ensures !KeyIs(k, key)(y)
    {
      var j :| 0 <= j < |s| && s[j] == y;
      assert !Before(key(s[j]), key(s[0]));
    }
    FilterNone(s, KeyIs(k, key));
  }

  lemma {:induction false} InsertKeepsEqualKeysInOrder<T>(x: T, s: seq<T>, key: T -> JsNumber, k: JsNumber)
    requires AllNumbers(s, key) && key(x).Int?
    requires SortedBy(s, key)
    ensures Filter(InsertSorted(x, s, key), KeyIs(k, key)) == Filter(s, KeyIs(k, key)) + Filter([x], KeyIs(k, key))
    decreases |s|
  {
    var p := KeyIs(k, key);
    if |s| == 0 {
      assert [x] == [] + [x];
    } else if Before(key(x), key(s[0])) {
      InsertAtFront(x, s, key, k);
    } else {
      InsertKeepsEqualKeysInOrder(x, s[1..], key, k);
      InsertFurther(x, s, key, k);
    }
  }

  lemma InsertAtFront<T>(x: T, s: seq<T>, key: T -> JsNumber, k: JsNumber)
    requires |s| > 0 && SortedBy(s, key) && Before(key(x), key(s[0]))
    ensures Filter(InsertSorted(x, s, key), KeyIs(k, key)) == Filter(s, KeyIs(k, key)) + Filter([x], KeyIs(k, key))
  {
    var p := KeyIs(k, key);
    InsertBeforeHead(x, s, key);
    FilterConcat([x], s, p);
    OneSideEmpty(x, s, key, k);
    SwapWhenOneEmpty(Filter([x], p), Filter(s, p));
  }

  /** Either `x` is not kept, or nothing of the sorted `s` after it is. */
  lemma OneSideEmpty<T>(x: T, s: seq<T>, key: T -> JsNumber, k: JsNumber)
    requires |s| > 0 && SortedBy(s, key) && Before(key(x), key(s[0]))
    ensures Filter([x], KeyIs(k, key)) == [] || Filter(s, KeyIs(k, key)) == []
  {
    FilterSingleton(x, KeyIs(k, key));
    if key(x) == k {
      NoneBelowHead(x, s, key, k);
    }
  }

  lemma SwapWhenOneEmpty<T>(a: seq<T>, b: seq<T>)
    requires a == [] || b == []
    ensures a + b == b + a
  {
    if a == [] {
      assert a + b == b == b + a;
    } else {
      assert a + b == a == b + a;
    }
  }

  lemma InsertBeforeHead<T>(x: T, s: seq<T>, key: T -> JsNumber)
    requires |s| > 0 && Before(key(x), key(s[0]))
    ensures InsertSorted(x, s, key) == [x] + s
  {
  }

  lemma InsertPastHead<T>(x: T, s: seq<T>, key: T -> JsNumber)
    requires |s| > 0 && !Before(key(x), key(s[0]))
    ensures InsertSorted(x, s, key) == [s[0]] + InsertSorted(x, s[1..], key)
    ensures [s[0]] + s[1..] == s
  {
  }

  lemma InsertFurther<T>(x: T, s: seq<T>, key: T -> JsNumber, k: JsNumber)
    requires |s| > 0 && !Before(key(x), key(s[0]))
    requires Filter(InsertSorted(x, s[1..], key), KeyIs(k, key)) == Filter(s[1..], KeyIs(k, key)) + Filter([x], KeyIs(k, key))
    ensures Filter(InsertSorted(x, s, key), KeyIs(k, key)) == Filter(s, KeyIs(k, key)) + Filter([x], KeyIs(k, key))
  {
    InsertPastHead(x, s, key);
    FilterInFront(s[0], InsertSorted(x, s[1..], key), s[1..], Filter([x], KeyIs(k, key)), KeyIs(k, key));
  }

  /** With numeric keys the sort is stable: the rows sharing any one key keep their
      input order. Together with the permutation and the order this fixes the result. */
  lemma {:induction false} SortByIsStable<T>(s: seq<T>, key: T -> JsNumber, k: JsNumber)
    requires AllNumbers(s, key)
    ensures Filter(SortBy(s, key), KeyIs(k, key)) == Filter(s, KeyIs(k, key))
    decreases |s|
  {
    if |s| > 0 {
      var n := |s| - 1;
      SortByIsStable(s[..n], key, k);
      SortByIsSorted(s[..n], key);
      SortedNumbers(s[..n], key);
      var r' := SortBy(s[..n], key);
      InsertKeepsEqualKeysInOrder(s[n], r', key, k);
      FilterSingleton(s[n], KeyIs(k, key));
    }
  }
}
