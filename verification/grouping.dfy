/** Find-or-append grouping: each row is pushed onto the first group whose key is
    `same` as the row's key, or opens a new group at the end. Level 1 writes this
    loop itself with `===` on its key; level 2 gets it from `d3.groups`, which keys
    by value. `same` is any partial equivalence, so keys need not match themselves
    (a NaN month never does under `===`). */
module Grouping {
  import opened Seqs

  datatype Group<K, T> = Group(key: K, items: seq<T>)

  /** `same` is symmetric and transitive. */
  ghost predicate PartialEquivalence<K(!new)>(same: (K, K) -> bool) {
    && (forall a, b :: same(a, b) ==> same(b, a))
    && (forall a, b, c :: same(a, b) && same(b, c) ==> same(a, c))
  }

  /** `groups.find(g => same(g.key, k))` as a position: the first group whose key is
      `same` as `k`, or -1 when there is none. */
  function FindGroup<K, T>(gs: seq<Group<K, T>>, k: K, same: (K, K) -> bool): (f: int)
    ensures -1 <= f < |gs|
    ensures 0 <= f ==> same(gs[f].key, k)
    ensures forall q :: 0 <= q < |gs| && (f < 0 || q < f) ==> !same(gs[q].key, k)
    decreases |gs|
  {
    if |gs| == 0 then -1
    else if same(gs[0].key, k) then 0
    else
      var f := FindGroup(gs[1..], k, same);
      if f < 0 then -1 else f + 1
  }

  /** Push `x` (whose key is `k`) onto its group, or open a new group for it. */
  function Insert<K, T>(gs: seq<Group<K, T>>, k: K, x: T, same: (K, K) -> bool): seq<Group<K, T>> {
    var f := FindGroup(gs, k, same);
    if 0 <= f then gs[f := Group(gs[f].key, gs[f].items + [x])]
    else gs + [Group(k, [x])]
  }

  /** Group the rows of `s` by `key`, visiting them in order. */
  function GroupBy<K, T>(s: seq<T>, key: T -> K, same: (K, K) -> bool): (gs: seq<Group<K, T>>)
    ensures |gs| <= |s|
    ensures |s| > 0 ==> |gs| > 0
    decreases |s|
  {
    if |s| == 0 then []
    else Insert(GroupBy(s[..|s| - 1], key, same), key(s[|s| - 1]), s[|s| - 1], same)
  }

  /** All the rows held by the groups, group after group. */
  function Flatten<K, T>(gs: seq<Group<K, T>>): seq<T>
    decreases |gs|
  {
    if |gs| == 0 then [] else gs[0].items + Flatten(gs[1..])
  }

  /** The rows whose key is `same` as `k`. */
  function KeyMatches<K, T>(k: K, key: T -> K, same: (K, K) -> bool): T -> bool {
    x => same(k, key(x))
  }

  /** Row `i` opens a group: no earlier row has a key `same` as its key. */
  ghost predicate Opens<K, T>(s: seq<T>, key: T -> K, same: (K, K) -> bool, i: int)
    requires 0 <= i < |s|
  {
    forall j :: 0 <= j < i ==> !same(key(s[j]), key(s[i]))
  }

  /** The positions of the rows that open a group, ascending. */
  ghost function Openers<K, T>(s: seq<T>, key: T -> K, same: (K, K) -> bool): seq<int> {
    Filter(Indices(|s|), i => 0 <= i < |s| && Opens(s, key, same, i))
  }

  /** The shape the grouping maintains: groups are non-empty, the first row of a group
      has the group's key, later rows match it, and no two groups have matching keys. */
  ghost predicate WellGrouped<K(!new), T>(gs: seq<Group<K, T>>, key: T -> K, same: (K, K) -> bool) {
    && (forall p :: 0 <= p < |gs| ==> |gs[p].items| > 0 && key(gs[p].items[0]) == gs[p].key)
    && (forall p, j :: 0 <= p < |gs| && 1 <= j < |gs[p].items| ==> same(gs[p].key, key(gs[p].items[j])))
    && (forall p, q :: 0 <= p < q < |gs| ==> !same(gs[p].key, gs[q].key))
  }

  lemma InsertWellGrouped<K(!new), T>(gs: seq<Group<K, T>>, k: K, x: T, key: T -> K, same: (K, K) -> bool)
    requires PartialEquivalence(same)
    requires WellGrouped(gs, key, same) && key(x) == k
    ensures WellGrouped(Insert(gs, k, x, same), key, same)
  {
    var f := FindGroup(gs, k, same);
    var r := Insert(gs, k, x, same);
    if 0 <= f {
      forall p, j | 0 <= p < |r| && 1 <= j < |r[p].items|
        ensures same(r[p].key, key(r[p].items[j]))
      {
        if p == f && j == |gs[f].items| {
          assert r[p].items[j] == x;
        } else {
          assert r[p].items[j] == gs[p].items[j];
        }
      }
    }
  }

  /** Grouping keeps the well-grouped shape. */
  lemma {:induction false} GroupByWellGrouped<K(!new), T>(s: seq<T>, key: T -> K, same: (K, K) -> bool)
    requires PartialEquivalence(same)
    ensures WellGrouped(GroupBy(s, key, same), key, same)
    decreases |s|
  {
    if |s| > 0 {
      var n := |s| - 1;
      GroupByWellGrouped(s[..n], key, same);
      InsertWellGrouped(GroupBy(s[..n], key, same), key(s[n]), s[n], key, same);
    }
  }

  lemma {:induction false} FlattenConcat<K, T>(a: seq<Group<K, T>>, b: seq<Group<K, T>>)
    ensures Flatten(a + b) == Flatten(a) + Flatten(b)
    decreases |a|
  {
    if |a| > 0 {
      assert (a + b)[1..] == a[1..] + b;
      FlattenConcat(a[1..], b);
    } else {
      assert a + b == b;
    }
  }

  /** The rows of the groups are those before group `f`, then group `f`'s, then the rest. */
  lemma FlattenAround<K, T>(gs: seq<Group<K, T>>, f: int)
    requires 0 <= f < |gs|
    ensures Flatten(gs) == Flatten(gs[..f]) + gs[f].items + Flatten(gs[f + 1..])
  {
    var c := gs[f..];
    assert c[0] == gs[f] && c[1..] == gs[f + 1..];
    assert Flatten(c) == gs[f].items + Flatten(gs[f + 1..]);
    assert gs == gs[..f] + c;
    FlattenConcat(gs[..f], c);
  }

  lemma InsertFlatten<K, T>(gs: seq<Group<K, T>>, k: K, x: T, same: (K, K) -> bool)
    ensures multiset(Flatten(Insert(gs, k, x, same))) == multiset(Flatten(gs)) + multiset{x}
  {
    var f := FindGroup(gs, k, same);
    var gs2 := Insert(gs, k, x, same);
    if 0 <= f {
      FlattenAround(gs, f);
      FlattenAround(gs2, f);
      assert gs2[..f] == gs[..f] && gs2[f + 1..] == gs[f + 1..];
      assert gs2[f].items == gs[f].items + [x];
      var before, after := Flatten(gs[..f]), Flatten(gs[f + 1..]);
      assert Flatten(gs2) == before + gs[f].items + [x] + after;
      calc {
        multiset(Flatten(gs2));
        multiset(before) + multiset(gs[f].items) + multiset{x} + multiset(after);
        multiset(Flatten(gs)) + multiset{x};
      }
    } else {
      FlattenConcat(gs, [Group(k, [x])]);
      assert Flatten([Group(k, [x])]) == [x];
    }
  }

  /** Every row lands in exactly one group: the groups hold the input rows, each as
      often as it occurs in the input. */
  lemma {:induction false} GroupByPartitions<K, T>(s: seq<T>, key: T -> K, same: (K, K) -> bool)
    ensures multiset(Flatten(GroupBy(s, key, same))) == multiset(s)
    ensures |Flatten(GroupBy(s, key, same))| == |s|
    decreases |s|
  {
    if |s| > 0 {
      var n := |s| - 1;
      GroupByPartitions(s[..n], key, same);
      InsertFlatten(GroupBy(s[..n], key, same), key(s[n]), s[n], same);
      assert s == s[..n] + [s[n]];
    }
    assert |multiset(Flatten(GroupBy(s, key, same)))| == |multiset(s)|;
  }

  /** A row matching `k` is preceded by (or is itself) an opener matching `k`. */
  lemma {:induction false} MatchingOpener<K(!new), T>(s: seq<T>, key: T -> K, same: (K, K) -> bool, j: int, k: K)
    returns (o: int)
    requires PartialEquivalence(same)
    requires 0 <= j < |s| && same(key(s[j]), k)
    ensures 0 <= o <= j && Opens(s, key, same, o) && same(key(s[o]), k)
    decreases j
  {
    if Opens(s, key, same, j) {
      o := j;
    } else {
      var j' :| 0 <= j' < j && same(key(s[j']), key(s[j]));
      o := MatchingOpener(s, key, same, j', k);
    }
  }

  lemma OpenersStep<K, T>(s: seq<T>, key: T -> K, same: (K, K) -> bool)
    requires |s| > 0
    ensures Openers(s, key, same)
         == Openers(s[..|s| - 1], key, same) + (if Opens(s, key, same, |s| - 1) then [|s| - 1] else [])
  {
    var n := |s| - 1;
    var P := i => 0 <= i < |s| && Opens(s, key, same, i);
    var P' := i => 0 <= i < n && Opens(s[..n], key, same, i);
    assert Indices(|s|)[..n] == Indices(n);
    forall i | i in Indices(n)
      ensures P(i) == P'(i)
    {
      assert 0 <= i < n;
      assert forall j :: 0 <= j <= i ==> s[..n][j] == s[j];
    }
    FilterCongruence(Indices(n), P, P');
  }

  /** Every opener position lies inside `s` and opens a group; positions are ascending. */
  lemma OpenersAreOpeners<K, T>(s: seq<T>, key: T -> K, same: (K, K) -> bool)
    ensures forall p :: 0 <= p < |Openers(s, key, same)| ==>
      0 <= Openers(s, key, same)[p] < |s| && Opens(s, key, same, Openers(s, key, same)[p])
    ensures forall i :: 0 <= i < |s| && Opens(s, key, same, i) ==> i in Openers(s, key, same)
    ensures forall p, q :: 0 <= p < q < |Openers(s, key, same)| ==> Openers(s, key, same)[p] < Openers(s, key, same)[q]
  {
    OpenersAscend(s, key, same);
    OpenersSound(s, key, same);
    OpenersComplete(s, key, same);
  }

  lemma OpenersAscend<K, T>(s: seq<T>, key: T -> K, same: (K, K) -> bool)
    ensures forall p, q :: 0 <= p < q < |Openers(s, key, same)| ==> Openers(s, key, same)[p] < Openers(s, key, same)[q]
  {
    FilterAscending(Indices(|s|), i => 0 <= i < |s| && Opens(s, key, same, i));
  }

  lemma OpenersSound<K, T>(s: seq<T>, key: T -> K, same: (K, K) -> bool)
    ensures forall p :: 0 <= p < |Openers(s, key, same)| ==>
      0 <= Openers(s, key, same)[p] < |s| && Opens(s, key, same, Openers(s, key, same)[p])
  {
    var P := i => 0 <= i < |s| && Opens(s, key, same, i);
    var o := Openers(s, key, same);
    forall p | 0 <= p < |o|
      ensures 0 <= o[p] < |s| && Opens(s, key, same, o[p])
    {
      assert o[p] in Filter(Indices(|s|), P);
      assert P(o[p]);
    }
  }

  lemma OpenersComplete<K, T>(s: seq<T>, key: T -> K, same: (K, K) -> bool)
    ensures forall i :: 0 <= i < |s| && Opens(s, key, same, i) ==> i in Openers(s, key, same)
  {
    var P := i => 0 <= i < |s| && Opens(s, key, same, i);
    forall i | 0 <= i < |s| && Opens(s, key, same, i)
      ensures i in Openers(s, key, same)
    {
      FilterMultiplicity(Indices(|s|), P, i);
      assert Indices(|s|)[i] == i;
    }
  }

  /** Group `p` starts with the `p`-th row that opens a group and has its key. */
  ghost predicate KeyedByOpeners<K, T>(s: seq<T>, key: T -> K, same: (K, K) -> bool) {
    && |GroupBy(s, key, same)| == |Openers(s, key, same)|
    && forall p :: 0 <= p < |GroupBy(s, key, same)| ==>
         && 0 <= Openers(s, key, same)[p] < |s| && GroupBy(s, key, same)[p].key == key(s[Openers(s, key, same)[p]])
         && |GroupBy(s, key, same)[p].items| > 0 && GroupBy(s, key, same)[p].items[0] == s[Openers(s, key, same)[p]]
  }

  /** Groups come in the order in which their keys first occur: group `p` is opened
      by the `p`-th row that matches no earlier row, and has that row's key. */
  lemma {:induction false} GroupByFirstOccurrence<K(!new), T>(s: seq<T>, key: T -> K, same: (K, K) -> bool)
    requires PartialEquivalence(same)
    ensures |GroupBy(s, key, same)| == |Openers(s, key, same)|
    ensures forall p :: 0 <= p < |GroupBy(s, key, same)| ==>
      && 0 <= Openers(s, key, same)[p] < |s| && GroupBy(s, key, same)[p].key == key(s[Openers(s, key, same)[p]])
      && |GroupBy(s, key, same)[p].items| > 0 && GroupBy(s, key, same)[p].items[0] == s[Openers(s, key, same)[p]]
    decreases |s|
  {
    if |s| > 0 {
      var n := |s| - 1;
      assert KeyedByOpeners(s, key, same) by {
        GroupByFirstOccurrence(s[..n], key, same);
        if 0 <= FindGroup(GroupBy(s[..n], key, same), key(s[n]), same) {
          JoinsGroupStep(s, key, same);
        } else {
          OpensGroupStep(s, key, same);
        }
      }
    } else {
      assert Openers(s, key, same) == [];
    }
  }

  /** A row whose key matches an existing group leaves the groups' keys and the
      openers as they were. */
  lemma JoinsGroupStep<K(!new), T>(s: seq<T>, key: T -> K, same: (K, K) -> bool)
    requires PartialEquivalence(same)
    requires |s| > 0 && KeyedByOpeners(s[..|s| - 1], key, same)
    requires 0 <= FindGroup(GroupBy(s[..|s| - 1], key, same), key(s[|s| - 1]), same)
    ensures KeyedByOpeners(s, key, same)
  {
    var n := |s| - 1;
    var s' := s[..n];
    var x := s[n];
    var gs' := GroupBy(s', key, same);
    var o' := Openers(s', key, same);
    var gs := GroupBy(s, key, same);
    GroupByStep(s, key, same);
    var f := FindGroup(gs', key(x), same);
    assert s'[o'[f]] == s[o'[f]];
    assert !Opens(s, key, same, n);
    OpenersStep(s, key, same);
    assert Openers(s, key, same) == o';
    forall p | 0 <= p < |gs|
      ensures 0 <= o'[p] < |s| && gs[p].key == key(s[o'[p]])
      ensures |gs[p].items| > 0 && gs[p].items[0] == s[o'[p]]
    {
      assert gs[p].key == gs'[p].key;
      assert gs[p].items[0] == gs'[p].items[0] by {
        if p == f {
          assert gs[p].items == gs'[p].items + [x];
        }
      }
      assert s'[o'[p]] == s[o'[p]];
    }
  }

  /** A row whose key matches no existing group opens the last group and is the last
      opener. */
  lemma OpensGroupStep<K(!new), T>(s: seq<T>, key: T -> K, same: (K, K) -> bool)
    requires PartialEquivalence(same)
    requires |s| > 0 && KeyedByOpeners(s[..|s| - 1], key, same)
    requires FindGroup(GroupBy(s[..|s| - 1], key, same), key(s[|s| - 1]), same) < 0
    ensures KeyedByOpeners(s, key, same)
  {
    var n := |s| - 1;
    var s' := s[..n];
    var x := s[n];
    var gs' := GroupBy(s', key, same);
    var o' := Openers(s', key, same);
    var gs := GroupBy(s, key, same);
    GroupByStep(s, key, same);
    forall j | 0 <= j < n
      ensures !same(key(s[j]), key(x))
    {
      if same(key(s[j]), key(x)) {
        assert s'[j] == s[j];
        MatchFindsGroup(s', key, same, j, key(x));
      }
    }
    assert Opens(s, key, same, n);
    OpenersStep(s, key, same);
    var o := Openers(s, key, same);
    assert o == o' + [n];
    forall p | 0 <= p < |gs|
      ensures 0 <= o[p] < |s| && gs[p].key == key(s[o[p]])
      ensures |gs[p].items| > 0 && gs[p].items[0] == s[o[p]]
    {
      if p < |gs'| {
        assert gs[p] == gs'[p] && o[p] == o'[p];
        assert s'[o'[p]] == s[o'[p]];
      }
    }
  }

  lemma GroupByStep<K, T>(s: seq<T>, key: T -> K, same: (K, K) -> bool)
    requires |s| > 0
    ensures GroupBy(s, key, same) == Insert(GroupBy(s[..|s| - 1], key, same), key(s[|s| - 1]), s[|s| - 1], same)
  {
  }

  /** Once the groups are keyed by the openers, a row matching `k` means some group
      matches `k`. */
  lemma MatchFindsGroup<K(!new), T>(s: seq<T>, key: T -> K, same: (K, K) -> bool, j: int, k: K)
    requires PartialEquivalence(same)
    requires |GroupBy(s, key, same)| == |Openers(s, key, same)|
    requires forall p :: 0 <= p < |GroupBy(s, key, same)| ==>
      0 <= Openers(s, key, same)[p] < |s| && GroupBy(s, key, same)[p].key == key(s[Openers(s, key, same)[p]])
    requires 0 <= j < |s| && same(key(s[j]), k)
    ensures FindGroup(GroupBy(s, key, same), k, same) >= 0
  {
    OpenersAreOpeners(s, key, same);
    var o := MatchingOpener(s, key, same, j, k);
    assert o in Openers(s, key, same);
    var p :| 0 <= p < |Openers(s, key, same)| && Openers(s, key, same)[p] == o;
    assert same(GroupBy(s, key, same)[p].key, k);
  }

  /** A group whose key matches itself holds exactly the rows with that key, in input
      order; a group whose key matches nothing (a NaN under `===`) holds its one row. */
  lemma {:induction false} GroupByContents<K(!new), T>(s: seq<T>, key: T -> K, same: (K, K) -> bool)
    requires PartialEquivalence(same)
    ensures forall p :: 0 <= p < |GroupBy(s, key, same)| && same(GroupBy(s, key, same)[p].key, GroupBy(s, key, same)[p].key) ==>
      GroupBy(s, key, same)[p].items == Filter(s, KeyMatches(GroupBy(s, key, same)[p].key, key, same))
    ensures forall p :: 0 <= p < |GroupBy(s, key, same)| && !same(GroupBy(s, key, same)[p].key, GroupBy(s, key, same)[p].key) ==>
      |GroupBy(s, key, same)[p].items| == 1
    decreases |s|
  {
    var gs := GroupBy(s, key, same);
    assert forall p :: 0 <= p < |gs| && !same(gs[p].key, gs[p].key) ==> |gs[p].items| == 1 by {
      GroupByWellGrouped(s, key, same);
      LoneKeyHoldsOneRow(gs, key, same);
    }
    if |s| > 0 {
      GroupByContents(s[..|s| - 1], key, same);
      assert PrefixContents(s, key, same);
      forall p | 0 <= p < |gs| && same(gs[p].key, gs[p].key)
        ensures gs[p].items == Filter(s, KeyMatches(gs[p].key, key, same))
      {
        ContentsStep(s, key, same, p);
      }
    }
  }

  /** The groups of `s` after its prefix has been grouped: a self-matching key's
      group is the filter of the prefix by that key. */
  ghost predicate PrefixContents<K, T>(s: seq<T>, key: T -> K, same: (K, K) -> bool)
    requires |s| > 0
  {
    var gs' := GroupBy(s[..|s| - 1], key, same);
    forall q :: 0 <= q < |gs'| && same(gs'[q].key, gs'[q].key) ==>
      gs'[q].items == Filter(s[..|s| - 1], KeyMatches(gs'[q].key, key, same))
  }

  /** One find-or-append step keeps a self-matching group equal to the filter of the
      rows by its key. */
  lemma ContentsStep<K(!new), T>(s: seq<T>, key: T -> K, same: (K, K) -> bool, p: int)
    requires PartialEquivalence(same) && |s| > 0 && PrefixContents(s, key, same)
    requires 0 <= p < |GroupBy(s, key, same)| && same(GroupBy(s, key, same)[p].key, GroupBy(s, key, same)[p].key)
    ensures GroupBy(s, key, same)[p].items == Filter(s, KeyMatches(GroupBy(s, key, same)[p].key, key, same))
  {
    var k := GroupBy(s, key, same)[p].key;
    var m := KeyMatches(k, key, same);
    var n := |s| - 1;
    assert Filter(s, m) == Filter(s[..n], m) + (if same(k, key(s[n])) then [s[n]] else []);
    if p < |GroupBy(s[..n], key, same)| {
      OldGroupStep(s, key, same, p);
    } else {
      NewGroupStep(s, key, same, p);
    }
  }

  /** An existing group gains the row exactly when the row matches its key. */
  lemma OldGroupStep<K(!new), T>(s: seq<T>, key: T -> K, same: (K, K) -> bool, p: int)
    requires PartialEquivalence(same) && |s| > 0 && PrefixContents(s, key, same)
    requires 0 <= p < |GroupBy(s[..|s| - 1], key, same)|
    requires same(GroupBy(s[..|s| - 1], key, same)[p].key, GroupBy(s[..|s| - 1], key, same)[p].key)
    ensures GroupBy(s, key, same)[p].key == GroupBy(s[..|s| - 1], key, same)[p].key
    ensures var k := GroupBy(s, key, same)[p].key;
      GroupBy(s, key, same)[p].items
        == GroupBy(s[..|s| - 1], key, same)[p].items + (if same(k, key(s[|s| - 1])) then [s[|s| - 1]] else [])
  {
    var n := |s| - 1;
    var x := s[n];
    var gs' := GroupBy(s[..n], key, same);
    var gs := GroupBy(s, key, same);
    GroupByStep(s, key, same);
    var f := FindGroup(gs', key(x), same);
    var k := gs'[p].key;
    if p == f {
      assert gs[p].items == gs'[p].items + [x];
    } else {
      assert gs[p] == gs'[p];
      assert !same(k, key(x)) by {
        if 0 <= f && p > f {
          GroupByWellGrouped(s[..n], key, same);
          assert same(gs'[f].key, key(x));
          assert !same(gs'[f].key, gs'[p].key);
        }
      }
    }
  }

  /** A new group holds the row alone, and no earlier row matches its key. */
  lemma NewGroupStep<K(!new), T>(s: seq<T>, key: T -> K, same: (K, K) -> bool, p: int)
    requires PartialEquivalence(same) && |s| > 0
    requires |GroupBy(s[..|s| - 1], key, same)| <= p < |GroupBy(s, key, same)|
    ensures GroupBy(s, key, same)[p] == Group(key(s[|s| - 1]), [s[|s| - 1]])
    ensures Filter(s[..|s| - 1], KeyMatches(key(s[|s| - 1]), key, same)) == []
  {
    var n := |s| - 1;
    GroupByStep(s, key, same);
    NoEarlierMatch(s, key, same, key(s[n]));
  }

  /** A group whose key matches nothing, not even itself, holds only its first row. */
  lemma LoneKeyHoldsOneRow<K(!new), T>(gs: seq<Group<K, T>>, key: T -> K, same: (K, K) -> bool)
    requires PartialEquivalence(same) && WellGrouped(gs, key, same)
    ensures forall p :: 0 <= p < |gs| && !same(gs[p].key, gs[p].key) ==> |gs[p].items| == 1
  {
    forall p | 0 <= p < |gs| && |gs[p].items| > 1
      ensures same(gs[p].key, gs[p].key)
    {
      assert same(gs[p].key, key(gs[p].items[1]));
    }
  }

  /** When the last row opens a new group, no earlier row matches its key. */
  lemma NoEarlierMatch<K(!new), T>(s: seq<T>, key: T -> K, same: (K, K) -> bool, k: K)
    requires PartialEquivalence(same)
    requires |s| > 0
    ensures FindGroup(GroupBy(s[..|s| - 1], key, same), k, same) < 0 ==>
      Filter(s[..|s| - 1], KeyMatches(k, key, same)) == []
  {
    var n := |s| - 1;
    var s' := s[..n];
    GroupByFirstOccurrence(s', key, same);
    forall j | 0 <= j < n
      ensures same(k, key(s'[j])) ==> FindGroup(GroupBy(s', key, same), k, same) >= 0
    {
      if same(k, key(s'[j])) {
        MatchFindsGroup(s', key, same, j, k);
      }
    }
    if FindGroup(GroupBy(s', key, same), k, same) < 0 {
      FilterNone(s', KeyMatches(k, key, same));
    }
  }
}
