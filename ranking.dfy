/** Ranking an aggregate table by its count column: `nlargest(n)`,
    `nsmallest(n)` and `sort_values(ascending=False).head(n)`.  All three are
    modelled as a stable sort followed by a prefix; among equal counts, rows
    keep their table order (that is, ascending key order). */
module Ranking {
  import opened Order
  import opened Records
  import opened Tally

  /** `s` is in non-decreasing order of weight `w`. */
  ghost predicate Ascending<T>(s: seq<T>, w: T -> int)
  {
    forall i, j :: 0 <= i < j < |s| ==> w(s[i]) <= w(s[j])
  }

  /** Insert `x` before the first element of at least its weight. */
  function Insert<T>(x: T, s: seq<T>, w: T -> int): seq<T>
  {
    if s == [] || w(x) <= w(s[0]) then [x] + s
    else [s[0]] + Insert(x, s[1..], w)
  }

  /** Stable insertion sort by weight. */
  function SortBy<T>(s: seq<T>, w: T -> int): seq<T>
  {
    if s == [] then [] else Insert(s[0], SortBy(s[1..], w), w)
  }

  /** The first `n` elements in weight order, or all of them if there are fewer. */
  function Rank<T>(s: seq<T>, w: T -> int, n: nat): seq<T>
  {
    var q := SortBy(s, w);
    if n < |q| then q[..n] else q
  }

  /** The weight that ranks rows by ascending count. */
  function Count<K>(row: (K, nat)): int
  {
    row.1
  }

  /** The weight that ranks rows by descending count. */
  function NegCount<K>(row: (K, nat)): int
  {
    -(row.1 as int)
  }

  /** `nlargest(n)`: the `n` rows with the largest counts, largest first. */
  function TopK<K>(t: Table<K>, n: nat): Table<K>
  {
    Rank(t, NegCount, n)
  }

  /** `nsmallest(n)`: the `n` rows with the smallest counts, smallest first. */
  function BottomK<K>(t: Table<K>, n: nat): Table<K>
  {
    Rank(t, Count, n)
  }

  /** Every element of `s` weighs at least `v`. */
  ghost predicate AtLeast<T>(s: seq<T>, w: T -> int, v: int)
  {
    forall i :: 0 <= i < |s| ==> v <= w(s[i])
  }

  lemma {:induction false} InsertAtLeast<T>(x: T, s: seq<T>, w: T -> int, v: int)
    requires AtLeast(s, w, v) && v <= w(x)
    ensures AtLeast(Insert(x, s, w), w, v)
  {
    if s != [] && w(s[0]) < w(x) {
      InsertAtLeast(x, s[1..], w, v);
      assert Insert(x, s, w) == [s[0]] + Insert(x, s[1..], w);
    }
  }

  lemma {:induction false} InsertPermutes<T>(x: T, s: seq<T>, w: T -> int)
    ensures multiset(Insert(x, s, w)) == multiset(s) + multiset{x}
  {
    if s != [] && w(s[0]) < w(x) {
      InsertPermutes(x, s[1..], w);
      assert s == [s[0]] + s[1..];
    }
  }

  lemma {:induction false} InsertSorted<T>(x: T, s: seq<T>, w: T -> int)
    requires Ascending(s, w)
    ensures Ascending(Insert(x, s, w), w)
  {
    if s != [] && w(s[0]) < w(x) {
      var tail := Insert(x, s[1..], w);
      InsertSorted(x, s[1..], w);
      InsertAtLeast(x, s[1..], w, w(s[0]));
      assert Insert(x, s, w) == [s[0]] + tail;
    }
  }

  /** Sorting yields a permutation of its input in non-decreasing weight order. */
  lemma {:induction false} SortBySpec<T>(s: seq<T>, w: T -> int)
    ensures Ascending(SortBy(s, w), w)
    ensures multiset(SortBy(s, w)) == multiset(s)
  {
    if s != [] {
      SortBySpec(s[1..], w);
      InsertSorted(s[0], SortBy(s[1..], w), w);
      InsertPermutes(s[0], SortBy(s[1..], w), w);
      assert s == [s[0]] + s[1..];
    }
  }

  /** Ranking keeps min(n, |s|) of the elements in weight order, and no
      element left out weighs less than an element kept. */
  lemma RankSpec<T>(s: seq<T>, w: T -> int, n: nat)
    ensures |Rank(s, w, n)| == if n < |s| then n else |s|
    ensures multiset(Rank(s, w, n)) <= multiset(s)
    ensures Ascending(Rank(s, w, n), w)
    ensures forall x, y :: x in s && x !in Rank(s, w, n) && y in Rank(s, w, n) ==> w(y) <= w(x)
  {
    var q := SortBy(s, w);
    var r := Rank(s, w, n);
    SortBySpec(s, w);
    assert |q| == |multiset(q)| == |s|;
    if n < |q| {
      assert q == r + q[n..];
    } else {
      assert q == r + [];
    }
    var rest := q[|r|..];
    assert q == r + rest;
    forall x, y | x in s && x !in r && y in r ensures w(y) <= w(x) {
      assert x in multiset(q);
      var i :| 0 <= i < |q| && q[i] == x;
      var j :| 0 <= j < |r| && r[j] == y;
      assert i >= |r|;
      assert q[j] == y;
    }
  }

  /** `nlargest(n)` keeps min(n, |t|) rows of the table, largest count first,
      and every row it drops has a count no larger than any row it keeps. */
  lemma TopKSpec<K>(t: Table<K>, n: nat)
    ensures |TopK(t, n)| == if n < |t| then n else |t|
    ensures multiset(TopK(t, n)) <= multiset(t)
    ensures forall i, j :: 0 <= i < j < |TopK(t, n)| ==> TopK(t, n)[i].1 >= TopK(t, n)[j].1
    ensures forall x, y :: x in t && x !in TopK(t, n) && y in TopK(t, n) ==> y.1 >= x.1
  {
    var r := TopK(t, n);
    RankSpec(t, NegCount, n);
    forall i, j | 0 <= i < j < |r| ensures r[i].1 >= r[j].1 {
      assert NegCount(r[i]) <= NegCount(r[j]);
    }
    forall x, y | x in t && x !in r && y in r ensures y.1 >= x.1 {
      assert NegCount(y) <= NegCount(x);
    }
  }

  /** `nsmallest(n)` keeps min(n, |t|) rows of the table, smallest count
      first, and every row it drops has a count no smaller than any row it keeps. */
  lemma BottomKSpec<K>(t: Table<K>, n: nat)
    ensures |BottomK(t, n)| == if n < |t| then n else |t|
    ensures multiset(BottomK(t, n)) <= multiset(t)
    ensures forall i, j :: 0 <= i < j < |BottomK(t, n)| ==> BottomK(t, n)[i].1 <= BottomK(t, n)[j].1
    ensures forall x, y :: x in t && x !in BottomK(t, n) && y in BottomK(t, n) ==> y.1 <= x.1
  {
    var r := BottomK(t, n);
    RankSpec(t, Count, n);
    forall i, j | 0 <= i < j < |r| ensures r[i].1 <= r[j].1 {
      assert Count(r[i]) <= Count(r[j]);
    }
    forall x, y | x in t && x !in r && y in r ensures y.1 <= x.1 {
      assert Count(y) <= Count(x);
    }
  }

  /** A key that occurs has a row in its group-by-size table holding its count. */
  lemma GroupRowOf<T, K(!new)>(rs: seq<T>, key: T -> K, less: (K, K) -> bool, k: K)
    requires StrictTotalOrder(less) && k in Present(rs, key)
    ensures exists i :: (0 <= i < |GroupSize(rs, key, less)| &&
      GroupSize(rs, key, less)[i] == (k, Occurrences(rs, key, k)))
  {
    var t := GroupSize(rs, key, less);
    GroupSizeSpec(rs, key, less);
    var x :| x in rs && key(x) == k;
    assert k in Keys(t);
    var i :| 0 <= i < |t| && t[i].0 == k;
  }

  /** Rows drawn from a group-by-size table are present keys with their counts. */
  lemma GroupRows<T, K(!new)>(rs: seq<T>, key: T -> K, less: (K, K) -> bool, sub: Table<K>)
    requires StrictTotalOrder(less)
    requires multiset(sub) <= multiset(GroupSize(rs, key, less))
    ensures forall row :: row in sub ==>
      row.0 in Present(rs, key) && row.1 == Occurrences(rs, key, row.0)
  {
    var t := GroupSize(rs, key, less);
    GroupSizeSpec(rs, key, less);
    forall row | row in sub
      ensures row.0 in Present(rs, key) && row.1 == Occurrences(rs, key, row.0)
    {
      assert row in multiset(sub);
      assert row in multiset(t);
      var i :| 0 <= i < |t| && t[i] == row;
      assert t[i].0 in Keys(t);
    }
  }

  /** A key-sorted table holds each row at most once. */
  lemma {:induction false} SortedRowOnce<K(!new)>(t: Table<K>, less: (K, K) -> bool, x: (K, nat))
    requires StrictTotalOrder(less) && Sorted(t, less)
    ensures multiset(t)[x] <= 1
  {
    if t != [] {
      var rest := t[1..];
      assert t == [t[0]] + rest;
      assert Sorted(rest, less) by {
        forall i, j | 0 <= i < j < |rest| ensures less(rest[i].0, rest[j].0) {
          assert rest[i] == t[i + 1] && rest[j] == t[j + 1];
        }
      }
      SortedRowOnce(rest, less, x);
      forall j | 0 <= j < |rest| ensures rest[j].0 != t[0].0 {
        assert less(t[0].0, t[j + 1].0);
      }
      assert t[0] !in rest;
    }
  }

  /** Two equal elements at distinct positions make a multiplicity of at least two. */
  lemma Twice<T>(s: seq<T>)
    ensures forall i, j :: 0 <= i < j < |s| && s[i] == s[j] ==> multiset(s)[s[i]] >= 2
  {
    forall i, j | 0 <= i < j < |s| && s[i] == s[j] ensures multiset(s)[s[i]] >= 2 {
      assert s == s[..j] + s[j..];
      assert s[i] in s[..j];
      assert s[j] in s[j..];
    }
  }

  /** Rows drawn from a group-by-size table have pairwise distinct keys. */
  lemma GroupRowsDistinct<T, K(!new)>(rs: seq<T>, key: T -> K, less: (K, K) -> bool, sub: Table<K>)
    requires StrictTotalOrder(less)
    requires multiset(sub) <= multiset(GroupSize(rs, key, less))
    ensures forall i, j :: 0 <= i < j < |sub| ==> sub[i].0 != sub[j].0
  {
    Twice(sub);
    var t := GroupSize(rs, key, less);
    GroupSizeSpec(rs, key, less);
    GroupRows(rs, key, less, sub);
    forall i, j | 0 <= i < j < |sub| ensures sub[i].0 != sub[j].0 {
      SortedRowOnce(t, less, sub[i]);
      assert multiset(sub)[sub[i]] <= 1;
      assert sub[i] != sub[j];
      assert sub[i] in sub && sub[j] in sub;
    }
  }

  /** A table has min(n, number of distinct keys) rows after ranking to n. */
  lemma RankedGroupsSize<T, K(!new)>(rs: seq<T>, key: T -> K, less: (K, K) -> bool, n: nat)
    requires StrictTotalOrder(less)
    ensures var present := Present(rs, key);
      && |TopK(GroupSize(rs, key, less), n)| == (if n < |present| then n else |present|)
      && |BottomK(GroupSize(rs, key, less), n)| == (if n < |present| then n else |present|)
  {
    GroupSizeSpec(rs, key, less);
    TopKSpec(GroupSize(rs, key, less), n);
    BottomKSpec(GroupSize(rs, key, less), n);
  }

  /** `nlargest(n)` on a group-by-size table: min(n, number of distinct keys)
      rows, largest count first, each row a distinct present key with its
      number of records, and no key left out has more records than a key kept. */
  lemma TopKOfGroups<T, K(!new)>(rs: seq<T>, key: T -> K, less: (K, K) -> bool, n: nat)
    requires StrictTotalOrder(less)
    ensures var top := TopK(GroupSize(rs, key, less), n); var present := Present(rs, key);
      && |top| == (if n < |present| then n else |present|)
      && (forall i, j :: 0 <= i < j < |top| ==> top[i].1 >= top[j].1)
      && (forall row :: row in top ==> row.0 in present && row.1 == Occurrences(rs, key, row.0))
      && (forall i, j :: 0 <= i < j < |top| ==> top[i].0 != top[j].0)
      && (forall k, row :: k in present && k !in Keys(top) && row in top ==> row.1 >= Occurrences(rs, key, k))
  {
    var t := GroupSize(rs, key, less);
    var top := TopK(t, n);
    RankedGroupsSize(rs, key, less, n);
    TopKSpec(t, n);
    GroupRows(rs, key, less, top);
    GroupRowsDistinct(rs, key, less, top);
    forall k, row | k in Present(rs, key) && k !in Keys(top) && row in top
      ensures row.1 >= Occurrences(rs, key, k)
    {
      GroupRowOf(rs, key, less, k);
      var i :| 0 <= i < |t| && t[i] == (k, Occurrences(rs, key, k));
    }
  }

  /** `nsmallest(n)` on a group-by-size table: min(n, number of distinct keys)
      rows, smallest count first, each row a distinct present key with its
      number of records, and no key left out has fewer records than a key kept. */
  lemma BottomKOfGroups<T, K(!new)>(rs: seq<T>, key: T -> K, less: (K, K) -> bool, n: nat)
    requires StrictTotalOrder(less)
    ensures var bottom := BottomK(GroupSize(rs, key, less), n); var present := Present(rs, key);
      && |bottom| == (if n < |present| then n else |present|)
      && (forall i, j :: 0 <= i < j < |bottom| ==> bottom[i].1 <= bottom[j].1)
      && (forall row :: row in bottom ==> row.0 in present && row.1 == Occurrences(rs, key, row.0))
      && (forall i, j :: 0 <= i < j < |bottom| ==> bottom[i].0 != bottom[j].0)
      && (forall k, row :: k in present && k !in Keys(bottom) && row in bottom ==> row.1 <= Occurrences(rs, key, k))
  {
    var t := GroupSize(rs, key, less);
    var bottom := BottomK(t, n);
    RankedGroupsSize(rs, key, less, n);
    BottomKSpec(t, n);
    GroupRows(rs, key, less, bottom);
    GroupRowsDistinct(rs, key, less, bottom);
    forall k, row | k in Present(rs, key) && k !in Keys(bottom) && row in bottom
      ensures row.1 <= Occurrences(rs, key, k)
    {
      GroupRowOf(rs, key, less, k);
      var i :| 0 <= i < |t| && t[i] == (k, Occurrences(rs, key, k));
    }
  }
}
