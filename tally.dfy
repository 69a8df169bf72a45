/** Group-by-and-count (`groupby(key).size().reset_index()`): a table with one
    row per distinct key value and the number of rows carrying it, the rows in
    ascending key order as the dataframe library's default `sort=True` gives. */
module Tally {
  import opened Order
  import opened Records

  /** An aggregate table: (key, count) rows. */
  type Table<K> = seq<(K, nat)>

  /** The key column of a table. */
  ghost function Keys<K>(t: Table<K>): set<K>
  {
    set i | 0 <= i < |t| :: t[i].0
  }

  /** Rows are in strictly ascending key order, so no key repeats. */
  ghost predicate Sorted<K>(t: Table<K>, less: (K, K) -> bool)
  {
    forall i, j :: 0 <= i < j < |t| ==> less(t[i].0, t[j].0)
  }

  /** No row has a zero count. */
  predicate Positive<K>(t: Table<K>)
  {
    forall i :: 0 <= i < |t| ==> t[i].1 >= 1
  }

  /** The count in the first row keyed `k`, or 0 when there is none. */
  function Lookup<K(==)>(t: Table<K>, k: K): nat
  {
    if t == [] then 0
    else if t[0].0 == k then t[0].1
    else Lookup(t[1..], k)
  }

  /** The sum of the count column. */
  function Total<K>(t: Table<K>): nat
  {
    if t == [] then 0 else t[0].1 + Total(t[1..])
  }

  /** The sum of the counts of the rows whose key satisfies `p`. */
  function SumWhere<K>(t: Table<K>, p: K -> bool): nat
  {
    if t == [] then 0
    else (if p(t[0].0) then t[0].1 else 0) + SumWhere(t[1..], p)
  }

  /** Account for one more row with key `k` in a key-sorted table: increment
      its row, or insert a row with count 1 at its place in key order. */
  function Bump<K(==)>(t: Table<K>, k: K, less: (K, K) -> bool): Table<K>
  {
    if t == [] then [(k, 1)]
    else if t[0].0 == k then [(k, t[0].1 + 1)] + t[1..]
    else if less(k, t[0].0) then [(k, 1)] + t
    else [t[0]] + Bump(t[1..], k, less)
  }

  /** The group-by-size table of a key column. */
  function CountBy<K(==)>(ks: seq<K>, less: (K, K) -> bool): Table<K>
  {
    if ks == [] then [] else Bump(CountBy(ks[1..], less), ks[0], less)
  }

  lemma KeysCons<K>(x: (K, nat), t: Table<K>)
    ensures Keys([x] + t) == {x.0} + Keys(t)
  {
    var u := [x] + t;
    forall k | k in Keys(u) ensures k in {x.0} + Keys(t) {
      var i :| 0 <= i < |u| && u[i].0 == k;
      if i > 0 {
        assert t[i - 1].0 == k;
      }
    }
    forall k | k in Keys(t) ensures k in Keys(u) {
      var i :| 0 <= i < |t| && t[i].0 == k;
      assert u[i + 1].0 == k;
    }
    assert u[0].0 == x.0;
  }

  lemma {:induction false} LookupAbsent<K>(t: Table<K>, k: K)
    requires k !in Keys(t)
    ensures Lookup(t, k) == 0
  {
    if t != [] {
      assert t[0].0 in Keys(t);
      KeysCons(t[0], t[1..]);
      assert t == [t[0]] + t[1..];
      LookupAbsent(t[1..], k);
    }
  }

  /** One more row keyed `k` adds `k` to the key column and nothing else. */
  lemma {:induction false} BumpKeys<K>(t: Table<K>, k: K, less: (K, K) -> bool)
    ensures Keys(Bump(t, k, less)) == Keys(t) + {k}
  {
    var b := Bump(t, k, less);
    if t == [] {
      KeysCons((k, 1), []);
      assert [(k, 1)] + [] == b;
    } else {
      KeysCons(t[0], t[1..]);
      assert t == [t[0]] + t[1..];
      if t[0].0 == k {
        KeysCons((k, t[0].1 + 1), t[1..]);
      } else if less(k, t[0].0) {
        KeysCons((k, 1), t);
      } else {
        BumpKeys(t[1..], k, less);
        KeysCons(t[0], Bump(t[1..], k, less));
      }
    }
  }

  /** In a key-sorted table every key after the first is above the first. */
  lemma SortedHead<K>(t: Table<K>, less: (K, K) -> bool, q: K)
    requires Sorted(t, less) && t != [] && q in Keys(t[1..])
    ensures less(t[0].0, q)
  {
  }

  /** `Bump` keeps the keys in strictly ascending order. */
  lemma {:induction false} BumpSorted<K(!new)>(t: Table<K>, k: K, less: (K, K) -> bool)
    requires StrictTotalOrder(less) && Sorted(t, less)
    ensures Sorted(Bump(t, k, less), less)
  {
    if t != [] && t[0].0 != k && !less(k, t[0].0) {
      var br := Bump(t[1..], k, less);
      var b := Bump(t, k, less);
      BumpSorted(t[1..], k, less);
      BumpKeys(t[1..], k, less);
      assert b == [t[0]] + br;
      forall j | 0 < j < |b| ensures less(b[0].0, b[j].0) {
        assert b[j].0 == br[j - 1].0;
        assert br[j - 1].0 in Keys(br);
        if br[j - 1].0 != k {
          SortedHead(t, less, br[j - 1].0);
        }
      }
    }
  }

  /** In a key-sorted table, a key below the first key is absent. */
  lemma BelowHeadAbsent<K(!new)>(t: Table<K>, k: K, less: (K, K) -> bool)
    requires StrictTotalOrder(less) && Sorted(t, less) && t != [] && less(k, t[0].0)
    ensures k !in Keys(t)
  {
  }

  /** `Bump` adds a row exactly when the key is new. */
  lemma {:induction false} BumpSize<K(!new)>(t: Table<K>, k: K, less: (K, K) -> bool)
    requires StrictTotalOrder(less) && Sorted(t, less)
    ensures |Bump(t, k, less)| == |t| + (if k in Keys(t) then 0 else 1)
  {
    if t != [] {
      KeysCons(t[0], t[1..]);
      assert t == [t[0]] + t[1..];
      if t[0].0 == k {
      } else if less(k, t[0].0) {
        BelowHeadAbsent(t, k, less);
      } else {
        BumpSize(t[1..], k, less);
      }
    }
  }

  /** `Bump` adds one to the count of `k` and leaves every other count alone. */
  lemma {:induction false} BumpLookup<K(!new)>(t: Table<K>, k: K, less: (K, K) -> bool, q: K)
    requires StrictTotalOrder(less) && Sorted(t, less)
    ensures Lookup(Bump(t, k, less), q) == Lookup(t, q) + (if q == k then 1 else 0)
  {
    var b := Bump(t, k, less);
    if t == [] {
      assert b[1..] == [];
    } else if t[0].0 == k {
      assert b[1..] == t[1..];
    } else if less(k, t[0].0) {
      assert b[1..] == t;
      BelowHeadAbsent(t, k, less);
      LookupAbsent(t, k);
    } else {
      BumpLookup(t[1..], k, less, q);
      assert b[1..] == Bump(t[1..], k, less);
    }
  }

  /** `Bump` adds one to the total and creates no zero row. */
  lemma {:induction false} BumpTotal<K>(t: Table<K>, k: K, less: (K, K) -> bool)
    ensures Total(Bump(t, k, less)) == Total(t) + 1
    ensures Positive(t) ==> Positive(Bump(t, k, less))
  {
    var b := Bump(t, k, less);
    if t == [] {
      assert b[1..] == [];
    } else if t[0].0 == k {
      assert b[1..] == t[1..];
    } else if less(k, t[0].0) {
      assert b[1..] == t;
    } else {
      BumpTotal(t[1..], k, less);
      assert b[1..] == Bump(t[1..], k, less);
    }
  }

  /** The group-by-size table is in ascending key order and has one row per
      distinct key value. */
  lemma {:induction false} CountByKeys<K(!new)>(ks: seq<K>, less: (K, K) -> bool)
    requires StrictTotalOrder(less)
    ensures Sorted(CountBy(ks, less), less)
    ensures Keys(CountBy(ks, less)) == set k | k in ks
    ensures |CountBy(ks, less)| == |set k | k in ks|
  {
    if ks != [] {
      var rest := ks[1..];
      assert ks == [ks[0]] + rest;
      var t := CountBy(rest, less);
      CountByKeys(rest, less);
      BumpKeys(t, ks[0], less);
      BumpSorted(t, ks[0], less);
      BumpSize(t, ks[0], less);
      assert (set k | k in ks) == (set k | k in rest) + {ks[0]};
    }
  }

  /** No row of the group-by-size table is zero, and its counts add up to the
      number of values grouped. */
  lemma {:induction false} CountByTotal<K(!new)>(ks: seq<K>, less: (K, K) -> bool)
    ensures Positive(CountBy(ks, less))
    ensures Total(CountBy(ks, less)) == |ks|
  {
    if ks != [] {
      CountByTotal(ks[1..], less);
      BumpTotal(CountBy(ks[1..], less), ks[0], less);
    }
  }

  /** Each key's count in the group-by-size table is its number of occurrences. */
  lemma {:induction false} CountByLookup<K(!new)>(ks: seq<K>, less: (K, K) -> bool)
    requires StrictTotalOrder(less)
    ensures forall k :: Lookup(CountBy(ks, less), k) == multiset(ks)[k]
  {
    if ks != [] {
      var rest := ks[1..];
      assert ks == [ks[0]] + rest;
      var t := CountBy(rest, less);
      CountByLookup(rest, less);
      CountByKeys(rest, less);
      forall q ensures Lookup(CountBy(ks, less), q) == multiset(ks)[q] {
        BumpLookup(t, ks[0], less, q);
      }
    }
  }

  /** The group-by-size table has, in ascending key order, one row per
      distinct key value, each with the number of times that value occurs;
      no row is zero and the counts add up to the number of rows grouped. */
  lemma CountBySpec<K(!new)>(ks: seq<K>, less: (K, K) -> bool)
    requires StrictTotalOrder(less)
    ensures Sorted(CountBy(ks, less), less)
    ensures Positive(CountBy(ks, less))
    ensures Keys(CountBy(ks, less)) == set k | k in ks
    ensures |CountBy(ks, less)| == |set k | k in ks|
    ensures Total(CountBy(ks, less)) == |ks|
    ensures forall k :: Lookup(CountBy(ks, less), k) == multiset(ks)[k]
  {
    CountByKeys(ks, less);
    CountByTotal(ks, less);
    CountByLookup(ks, less);
  }

  /** In a key-sorted table, each row's count is what `Lookup` finds for its key. */
  lemma {:induction false} LookupAt<K(!new)>(t: Table<K>, i: nat, less: (K, K) -> bool)
    requires StrictTotalOrder(less) && Sorted(t, less) && i < |t|
    ensures Lookup(t, t[i].0) == t[i].1
  {
    if i > 0 {
      assert less(t[0].0, t[i].0);
      LookupAt(t[1..], i - 1, less);
    }
  }

  /** Every row of the group-by-size table is (value, number of occurrences) of
      a value that occurs. */
  lemma CountByRows<K(!new)>(ks: seq<K>, less: (K, K) -> bool)
    requires StrictTotalOrder(less)
    ensures forall i :: 0 <= i < |CountBy(ks, less)| ==>
      CountBy(ks, less)[i].0 in ks && CountBy(ks, less)[i].1 == multiset(ks)[CountBy(ks, less)[i].0]
  {
    var t := CountBy(ks, less);
    CountBySpec(ks, less);
    forall i | 0 <= i < |t| ensures t[i].0 in ks && t[i].1 == multiset(ks)[t[i].0] {
      assert t[i].0 in Keys(t);
      LookupAt(t, i, less);
    }
  }

  /** Summing the rows whose key satisfies `p` counts the grouped values that
      satisfy `p`. */
  lemma {:induction false} CountBySumWhere<K>(ks: seq<K>, less: (K, K) -> bool, p: K -> bool)
    ensures SumWhere(CountBy(ks, less), p) == |Filter(ks, p)|
  {
    if ks != [] {
      CountBySumWhere(ks[1..], less, p);
      BumpSumWhere(CountBy(ks[1..], less), ks[0], less, p);
    }
  }

  lemma {:induction false} BumpSumWhere<K>(t: Table<K>, k: K, less: (K, K) -> bool, p: K -> bool)
    ensures SumWhere(Bump(t, k, less), p) == SumWhere(t, p) + (if p(k) then 1 else 0)
  {
    var b := Bump(t, k, less);
    if t == [] {
      assert b[1..] == [];
    } else if t[0].0 == k {
      assert b[1..] == t[1..];
    } else if less(k, t[0].0) {
      assert b[1..] == t;
    } else {
      BumpSumWhere(t[1..], k, less, p);
      assert b[1..] == Bump(t[1..], k, less);
    }
  }

  /** How many rows of `rs` have key value `k`. */
  ghost function Occurrences<T, K>(rs: seq<T>, key: T -> K, k: K): nat
  {
    multiset(Column(rs, key))[k]
  }

  /** The distinct key values present in a record set. */
  ghost function Present<T, K>(rs: seq<T>, key: T -> K): set<K>
  {
    set x | x in rs :: key(x)
  }

  /** `groupby(key).size().reset_index()` on a record set. */
  function GroupSize<T, K(==)>(rs: seq<T>, key: T -> K, less: (K, K) -> bool): Table<K>
  {
    CountBy(Column(rs, key), less)
  }

  /** The group-by-size table of a record set, in ascending key order, has one
      row per key value present, no zero row, each row holding the number of
      records with that key, and counts that sum to the number of records. */
  lemma GroupSizeSpec<T, K(!new)>(rs: seq<T>, key: T -> K, less: (K, K) -> bool)
    requires StrictTotalOrder(less)
    ensures Sorted(GroupSize(rs, key, less), less)
    ensures Positive(GroupSize(rs, key, less))
    ensures forall k :: k in Keys(GroupSize(rs, key, less)) <==> exists x :: x in rs && key(x) == k
    ensures |GroupSize(rs, key, less)| == |Present(rs, key)|
    ensures Total(GroupSize(rs, key, less)) == |rs|
    ensures forall i :: 0 <= i < |GroupSize(rs, key, less)| ==>
      GroupSize(rs, key, less)[i].1 == Occurrences(rs, key, GroupSize(rs, key, less)[i].0)
    ensures forall k :: Lookup(GroupSize(rs, key, less), k) == Occurrences(rs, key, k)
  {
    var ks := Column(rs, key);
    CountBySpec(ks, less);
    CountByRows(ks, less);
    ColumnValues(rs, key);
    forall k ensures k in ks <==> exists x :: x in rs && key(x) == k {
      ColumnMembership(rs, key, k);
    }
  }
}
