/** The three comparators the explorer hands to `data.sort` (src/App.js,
    lines 94-105) and a stable sort by them. `Array.prototype.sort` is
    stable, so for a consistent comparator its result is the one a stable
    insertion sort produces; `InsertionSort` is that result and
    `SortInPlace` computes it on an array. */
module Sorting {
  import opened Catalog
  import opened Strings
  import opened Seqs

  /** `(a, b) => a.name.localeCompare(b.name)`, the rank-ascending
      comparator `a[key] - b[key]`, and the rank-descending one `b[key] - a[key]`. */
  datatype Comparator = ByName | Ascending(rank: RankType) | Descending(rank: RankType)

  function Compare(c: Comparator, a: Record, b: Record): (v: int)
  {
    match c
    case ByName => LocaleCompare(a.name, b.name)
    case Ascending(k) => Rank(a, k) - Rank(b, k)
    case Descending(k) => Rank(b, k) - Rank(a, k)
  }

  /** `a` may stay before `b`. */
  predicate Leq(c: Comparator, a: Record, b: Record)
  {
    Compare(c, a, b) <= 0
  }

  /** `a` must move after `b`. */
  predicate Greater(c: Comparator, a: Record, b: Record)
  {
    Compare(c, a, b) > 0
  }

  /** The records that compare equal to `p`. */
  function Tied(c: Comparator, p: Record): (keep: Record -> bool)
  {
    x => Compare(c, x, p) == 0
  }

  lemma CompareAntisymmetric(c: Comparator, a: Record, b: Record)
    ensures Compare(c, a, b) == -Compare(c, b, a)
  {
    if c == ByName {
      LocaleCompareAntisymmetric(a.name, b.name);
    }
  }

  /** Every comparator is a total preorder: any two records are ordered one way or the other ... */
  lemma LeqTotal(c: Comparator, a: Record, b: Record)
    ensures Leq(c, a, b) || Leq(c, b, a)
  {
    CompareAntisymmetric(c, a, b);
  }

  /** ... and the order is transitive. */
  lemma LeqTransitive(c: Comparator, a: Record, b: Record, d: Record)
    requires Leq(c, a, b) && Leq(c, b, d)
    ensures Leq(c, a, d)
  {
    if c == ByName {
      LocaleCompareTransitive(a.name, b.name, d.name);
    }
  }

  predicate SortedBy(s: seq<Record>, c: Comparator)
  {
    forall i, j :: 0 <= i < j < |s| ==> Leq(c, s[i], s[j])
  }

  /** Puts `x` after the last element of `t` that is not greater than it. */
  function InsertRight(x: Record, t: seq<Record>, c: Comparator): (r: seq<Record>)
  {
    if t == [] || !Greater(c, t[|t| - 1], x) then t + [x]
    else InsertRight(x, t[..|t| - 1], c) + [t[|t| - 1]]
  }

  /** The stable sort of `s` under `c`. */
  function InsertionSort(s: seq<Record>, c: Comparator): (r: seq<Record>)
  {
    if s == [] then [] else InsertRight(s[|s| - 1], InsertionSort(s[..|s| - 1], c), c)
  }

  lemma {:induction false} InsertRightMultiset(x: Record, t: seq<Record>, c: Comparator)
    ensures multiset(InsertRight(x, t, c)) == multiset(t) + multiset{x}
  {
    if t != [] && Greater(c, t[|t| - 1], x) {
      InsertRightMultiset(x, t[..|t| - 1], c);
      assert t == t[..|t| - 1] + [t[|t| - 1]];
    }
  }

  lemma {:induction false} InsertRightSorted(x: Record, t: seq<Record>, c: Comparator)
    requires SortedBy(t, c)
    ensures SortedBy(InsertRight(x, t, c), c)
  {
    if t == [] {
    } else if !Greater(c, t[|t| - 1], x) {
      var r := t + [x];
      forall i, j | 0 <= i < j < |r|
        ensures Leq(c, r[i], r[j])
      {
        if j == |t| && i < |t| - 1 {
          LeqTransitive(c, t[i], t[|t| - 1], x);
        }
      }
    } else {
      var init, last := t[..|t| - 1], t[|t| - 1];
      InsertRightSorted(x, init, c);
      InsertRightMultiset(x, init, c);
      CompareAntisymmetric(c, last, x);
      var u := InsertRight(x, init, c);
      var r := u + [last];
      forall i, j | 0 <= i < j < |r|
        ensures Leq(c, r[i], r[j])
      {
        if j == |u| {
          assert r[i] in multiset(init) + multiset{x};
          if r[i] != x {
            assert r[i] in init;
          }
        }
      }
    }
  }

  /** A record greater than `x` is not tied with anything `x` is tied with. */
  lemma GreaterNotTied(c: Comparator, y: Record, x: Record, p: Record)
    requires Greater(c, y, x) && Compare(c, x, p) == 0
    ensures Compare(c, y, p) != 0
  {
    if Compare(c, y, p) == 0 {
      CompareAntisymmetric(c, x, p);
      LeqTransitive(c, y, p, x);
    }
  }

  /** Inserting `x` appends it to the run of records tied with it and leaves every other run alone. */
  lemma {:induction false} InsertRightTies(x: Record, t: seq<Record>, c: Comparator, p: Record)
    ensures Filter(InsertRight(x, t, c), Tied(c, p)) == Filter(t, Tied(c, p)) + Filter([x], Tied(c, p))
  {
    var q := Tied(c, p);
    if t == [] || !Greater(c, t[|t| - 1], x) {
      FilterAppend(t, [x], q);
    } else {
      var init, last := t[..|t| - 1], t[|t| - 1];
      var u := InsertRight(x, init, c);
      assert Filter([x], q) == [] || Filter([last], q) == [] by {
        FilterSingleton(last, q);
        FilterSingleton(x, q);
        if q(x) {
          GreaterNotTied(c, last, x, p);
        }
      }
      calc {
        Filter(InsertRight(x, t, c), q);
        Filter(u + [last], q);
        { FilterAppend(u, [last], q); }
        Filter(u, q) + Filter([last], q);
        { InsertRightTies(x, init, c, p); }
        Filter(init, q) + Filter([x], q) + Filter([last], q);
        Filter(init, q) + Filter([last], q) + Filter([x], q);
        { assert t == init + [last]; FilterAppend(init, [last], q); }
        Filter(t, q) + Filter([x], q);
      }
    }
  }

  /** The sorted sequence is a permutation of the input. */
  lemma {:induction false} InsertionSortPermutation(s: seq<Record>, c: Comparator)
    ensures multiset(InsertionSort(s, c)) == multiset(s)
  {
    if s != [] {
      var init, last := s[..|s| - 1], s[|s| - 1];
      assert multiset(s) == multiset(init) + multiset{last} by {
        assert s == init + [last];
      }
      InsertionSortPermutation(init, c);
      InsertRightMultiset(last, InsertionSort(init, c), c);
    }
  }

  /** The sorted sequence is ordered by the comparator. */
  lemma {:induction false} InsertionSortSorted(s: seq<Record>, c: Comparator)
    ensures SortedBy(InsertionSort(s, c), c)
  {
    if s != [] {
      InsertionSortSorted(s[..|s| - 1], c);
      InsertRightSorted(s[|s| - 1], InsertionSort(s[..|s| - 1], c), c);
    }
  }

  /** Stability: records that compare equal keep their relative order. */
  lemma {:induction false} InsertionSortStable(s: seq<Record>, c: Comparator, p: Record)
    ensures Filter(InsertionSort(s, c), Tied(c, p)) == Filter(s, Tied(c, p))
  {
    if s != [] {
      var init, last := s[..|s| - 1], s[|s| - 1];
      InsertionSortStable(init, c, p);
      InsertRightTies(last, InsertionSort(init, c), c, p);
      assert s == init + [last];
      FilterAppend(init, [last], Tied(c, p));
    }
  }

  lemma SortedInit(s: seq<Record>, c: Comparator)
    requires s != [] && SortedBy(s, c)
    ensures SortedBy(s[..|s| - 1], c)
  {
  }

  /** An already sorted sequence is left as it is. */
  lemma {:induction false} InsertionSortOfSorted(s: seq<Record>, c: Comparator)
    requires SortedBy(s, c)
    ensures InsertionSort(s, c) == s
  {
    if s != [] {
      var init, last := s[..|s| - 1], s[|s| - 1];
      SortedInit(s, c);
      InsertionSortOfSorted(init, c);
      assert init == [] || !Greater(c, init[|init| - 1], last) by {
        if init != [] {
          assert Leq(c, s[|s| - 2], s[|s| - 1]);
        }
      }
      assert s == init + [last];
    }
  }

  /** Sorting twice gives the same order as sorting once. */
  lemma InsertionSortIdempotent(s: seq<Record>, c: Comparator)
    ensures InsertionSort(InsertionSort(s, c), c) == InsertionSort(s, c)
  {
    InsertionSortSorted(s, c);
    InsertionSortOfSorted(InsertionSort(s, c), c);
  }

  /** `x` lands right after position `j - 1` when nothing before `j` is
      greater than it and everything from `j` on is. */
  lemma {:induction false} InsertRightAt(x: Record, t: seq<Record>, j: nat, c: Comparator)
    requires j <= |t| && (j == 0 || !Greater(c, t[j - 1], x))
    requires forall k :: j <= k < |t| ==> Greater(c, t[k], x)
    ensures InsertRight(x, t, c) == t[..j] + [x] + t[j..]
    decreases |t| - j
  {
    if j < |t| {
      var init := t[..|t| - 1];
      InsertRightAt(x, init, j, c);
      assert init[..j] == t[..j];
      assert t[j..] == init[j..] + [t[|t| - 1]];
    }
  }

  /** Shifts `a[i]` left past the greater elements of the prefix `a[..i]`. */
  method InsertInPlace(a: array<Record>, i: nat, c: Comparator)
    requires i < a.Length
    modifies a
    ensures a[..i + 1] == InsertRight(old(a[i]), old(a[..i]), c)
    ensures a[i + 1..] == old(a[i + 1..])
  {
    ghost var sorted := a[..i];
    var x := a[i];
    var j := i;
    while j > 0 && Greater(c, a[j - 1], x)
      invariant 0 <= j <= i
      invariant a[..j] == sorted[..j]
      invariant a[j + 1..i + 1] == sorted[j..]
      invariant a[i + 1..] == old(a[i + 1..])
      invariant forall k :: j <= k < i ==> Greater(c, sorted[k], x)
    {
      a[j] := a[j - 1];
      j := j - 1;
    }
    a[j] := x;
    assert a[..i + 1] == sorted[..j] + [x] + sorted[j..];
    InsertRightAt(x, sorted, j, c);
  }

  /** Sorting one more element of a prefix inserts it into the sorted prefix. */
  lemma InsertionSortPrefix(s: seq<Record>, i: nat, c: Comparator)
    requires i < |s|
    ensures InsertionSort(s[..i + 1], c) == InsertRight(s[i], InsertionSort(s[..i], c), c)
  {
    assert s[..i + 1][..i] == s[..i];
  }

  /** Sorts `a` in place, stably: each element in turn is shifted left
      past the greater elements before it. */
  method SortInPlace(a: array<Record>, c: Comparator)
    modifies a
    ensures a[..] == InsertionSort(old(a[..]), c)
  {
    ghost var input := a[..];
    var i := 0;
    while i < a.Length
      invariant 0 <= i <= a.Length
      invariant a[..i] == InsertionSort(input[..i], c)
      invariant a[i..] == input[i..]
    {
      ghost var before := a[..];
      assert before[i] == input[i];
      InsertInPlace(a, i, c);
      InsertionSortPrefix(input, i, c);
      assert a[i + 1..] == input[i + 1..];
      i := i + 1;
    }
    assert input[..a.Length] == input;
  }
}
