/** One row of the mortality dataset and the row-level operations the
    dashboard applies to it: boolean-mask selection and column projection. */
module Records {

  /** The attributes of a death record that the dashboard reads. */
  datatype Record = Record(
    year: int,
    department: string,
    municipality: string,
    manner: string,
    month: int,
    causeCode: string,
    causeDesc: string,
    ageGroup: int,
    sex: string)

  /** The rows of `s` that satisfy `p`, in their original order
      (a dataframe indexed by a boolean mask). */
  function Filter<T>(s: seq<T>, p: T -> bool): (r: seq<T>)
    ensures |r| <= |s|
    ensures forall i :: 0 <= i < |r| ==> r[i] in s && p(r[i])
    ensures forall i :: 0 <= i < |s| && p(s[i]) ==> s[i] in r
  {
    if s == [] then []
    else if p(s[0]) then [s[0]] + Filter(s[1..], p)
    else Filter(s[1..], p)
  }

  /** `a` is obtained from `b` by deleting some elements. */
  predicate IsSubsequence<T(==)>(a: seq<T>, b: seq<T>)
  {
    if a == [] then true
    else if b == [] then false
    else (a[0] == b[0] && IsSubsequence(a[1..], b[1..])) || IsSubsequence(a, b[1..])
  }

  /** The values of one column: `f` applied to every row, in row order. */
  function Column<T, U>(s: seq<T>, f: T -> U): (r: seq<U>)
    ensures |r| == |s|
    ensures forall i :: 0 <= i < |s| ==> r[i] == f(s[i])
  {
    if s == [] then [] else [f(s[0])] + Column(s[1..], f)
  }

  /** Selection keeps the relative order of the rows it keeps. */
  lemma {:induction false} FilterIsSubsequence<T>(s: seq<T>, p: T -> bool)
    ensures IsSubsequence(Filter(s, p), s)
  {
    if s != [] {
      FilterIsSubsequence(s[1..], p);
      if !p(s[0]) && Filter(s, p) != [] {
        assert Filter(s, p) == Filter(s[1..], p);
      }
    }
  }

  /** Selection keeps every copy of a matching row and no copy of any other. */
  lemma {:induction false} FilterMultiplicity<T>(s: seq<T>, p: T -> bool, x: T)
    ensures multiset(Filter(s, p))[x] == if p(x) then multiset(s)[x] else 0
  {
    if s != [] {
      FilterMultiplicity(s[1..], p, x);
      assert s == [s[0]] + s[1..];
    }
  }

  /** Selection is empty exactly when no row matches. */
  lemma FilterEmpty<T>(s: seq<T>, p: T -> bool)
    ensures Filter(s, p) == [] <==> forall x :: x in s ==> !p(x)
  {
  }

  /** A value occurs in a column exactly when some row maps to it. */
  lemma ColumnMembership<T, U>(s: seq<T>, f: T -> U, k: U)
    ensures k in Column(s, f) <==> exists x :: x in s && f(x) == k
  {
  }

  /** The distinct values of a column are the values some row maps to. */
  lemma ColumnValues<T, U>(s: seq<T>, f: T -> U)
    ensures (set k | k in Column(s, f)) == set x | x in s :: f(x)
  {
  }

  /** Selecting twice by the same mask selects nothing more. */
  lemma {:induction false} FilterIdempotent<T>(s: seq<T>, p: T -> bool)
    ensures Filter(Filter(s, p), p) == Filter(s, p)
  {
    if s != [] {
      FilterIdempotent(s[1..], p);
      if p(s[0]) {
        assert ([s[0]] + Filter(s[1..], p))[1..] == Filter(s[1..], p);
      }
    }
  }
}
