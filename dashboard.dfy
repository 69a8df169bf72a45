/** The mortality dashboard's data pipeline: the 2019 year filter and the
    seven tables its charts are drawn from. */
module Dashboard {
  import opened Order
  import opened Records
  import opened Tally
  import opened Ranking
  import opened AgeLabels

  const TargetYear := 2019
  const Homicide := "Homicidio"

  predicate InTargetYear(r: Record)
  {
    r.year == TargetYear
  }

  predicate IsHomicide(r: Record)
  {
    r.manner == Homicide
  }

  // The grouping columns.
  function DepartmentOf(r: Record): string { r.department }
  function MunicipalityOf(r: Record): string { r.municipality }
  function MonthOf(r: Record): int { r.month }
  function CauseOf(r: Record): (string, string) { (r.causeCode, r.causeDesc) }
  function AgeGroupOf(r: Record): int { r.ageGroup }
  function DepartmentSexOf(r: Record): (string, string) { (r.department, r.sex) }

  /** The records of the target year. */
  function Year2019(df: seq<Record>): seq<Record>
  {
    Filter(df, InTargetYear)
  }

  /** Deaths per department (the choropleth). */
  function DepartmentCounts(f: seq<Record>): Table<string>
  {
    GroupSize(f, DepartmentOf, StringLess)
  }

  /** Deaths per month (the line chart). */
  function MonthlyCounts(f: seq<Record>): Table<int>
  {
    GroupSize(f, MonthOf, IntLess)
  }

  /** The homicide records. */
  function Homicides(f: seq<Record>): seq<Record>
  {
    Filter(f, IsHomicide)
  }

  /** The five municipalities with the most homicides (the bar chart). */
  function HomicideTop5(f: seq<Record>): Table<string>
  {
    TopK(GroupSize(Homicides(f), MunicipalityOf, StringLess), 5)
  }

  /** Deaths per municipality. */
  function MunicipalityCounts(f: seq<Record>): Table<string>
  {
    GroupSize(f, MunicipalityOf, StringLess)
  }

  /** The ten municipalities with the fewest deaths (the donut chart). */
  function Bottom10(f: seq<Record>): Table<string>
  {
    BottomK(MunicipalityCounts(f), 10)
  }

  /** The ten most frequent (cause code, cause description) pairs (the table
      widget); sorting by descending total and keeping ten rows means the same
      as `nlargest(10)` up to the order among equal totals. */
  function TopCauses(f: seq<Record>): Table<(string, string)>
  {
    TopK(GroupSize(f, CauseOf, PairLess), 10)
  }

  /** Deaths per age-group code, each row labelled with its range (the histogram). */
  function AgeCounts(f: seq<Record>): seq<AgeRow>
  {
    LabelAges(GroupSize(f, AgeGroupOf, IntLess))
  }

  /** Deaths per (department, sex) pair (the stacked bars). */
  function SexByDepartment(f: seq<Record>): Table<(string, string)>
  {
    GroupSize(f, DepartmentSexOf, PairLess)
  }

  /** The seven tables handed to the charts. */
  datatype Tables = Tables(
    departments: Table<string>,
    monthly: Table<int>,
    homicideTop5: Table<string>,
    bottom10: Table<string>,
    causes: Table<(string, string)>,
    ages: seq<AgeRow>,
    sexByDepartment: Table<(string, string)>)

  /** The whole pipeline: filter the loaded records to 2019, then aggregate. */
  function Build(df: seq<Record>): (d: Tables)
    ensures Total(d.departments) == |Year2019(df)|
    ensures |d.homicideTop5| <= 5 && |d.bottom10| <= 10 && |d.causes| <= 10
  {
    var f := Year2019(df);
    StringLessIsStrictTotalOrder();
    PairLessIsStrictTotalOrder();
    GroupSizeSpec(f, DepartmentOf, StringLess);
    TopKSpec(GroupSize(Homicides(f), MunicipalityOf, StringLess), 5);
    BottomKSpec(MunicipalityCounts(f), 10);
    TopKSpec(GroupSize(f, CauseOf, PairLess), 10);
    Tables(DepartmentCounts(f), MonthlyCounts(f), HomicideTop5(f), Bottom10(f),
           TopCauses(f), AgeCounts(f), SexByDepartment(f))
  }

  /** The year filter keeps exactly the 2019 records, every copy of each, in
      their original order; it is empty exactly when no record is from 2019. */
  lemma Year2019Spec(df: seq<Record>)
    ensures forall r :: r in Year2019(df) <==> r in df && r.year == 2019
    ensures forall r :: multiset(Year2019(df))[r] == if r.year == 2019 then multiset(df)[r] else 0
    ensures IsSubsequence(Year2019(df), df)
    ensures Year2019(df) == [] <==> forall r :: r in df ==> r.year != 2019
  {
    FilterIsSubsequence(df, InTargetYear);
    FilterEmpty(df, InTargetYear);
    forall r ensures multiset(Year2019(df))[r] == if r.year == 2019 then multiset(df)[r] else 0 {
      FilterMultiplicity(df, InTargetYear, r);
    }
  }

  /** The department table: one row per department present, in ascending
      name order, each with its number of deaths, none zero, summing to the
      number of records. */
  lemma DepartmentCountsSpec(f: seq<Record>)
    ensures Sorted(DepartmentCounts(f), StringLess)
    ensures forall d :: d in Keys(DepartmentCounts(f)) <==> exists r :: r in f && r.department == d
    ensures |DepartmentCounts(f)| == |set r | r in f :: r.department|
    ensures Positive(DepartmentCounts(f))
    ensures Total(DepartmentCounts(f)) == |f|
    ensures forall d :: Lookup(DepartmentCounts(f), d) == Occurrences(f, DepartmentOf, d)
  {
    StringLessIsStrictTotalOrder();
    GroupSizeSpec(f, DepartmentOf, StringLess);
    assert (set r | r in f :: r.department) == Present(f, DepartmentOf);
  }

  /** The monthly table: one row per month present, in ascending month
      order, each with its number of deaths, none zero, summing to the number
      of records. */
  lemma MonthlyCountsSpec(f: seq<Record>)
    ensures Sorted(MonthlyCounts(f), IntLess)
    ensures forall m :: m in Keys(MonthlyCounts(f)) <==> exists r :: r in f && r.month == m
    ensures |MonthlyCounts(f)| == |set r | r in f :: r.month|
    ensures Positive(MonthlyCounts(f))
    ensures Total(MonthlyCounts(f)) == |f|
    ensures forall m :: Lookup(MonthlyCounts(f), m) == Occurrences(f, MonthOf, m)
  {
    IntLessIsStrictTotalOrder();
    GroupSizeSpec(f, MonthOf, IntLess);
    assert (set r | r in f :: r.month) == Present(f, MonthOf);
  }

  /** The homicide records are exactly the records whose manner of death is
      "Homicidio", and the homicide ranking depends on them alone. */
  lemma HomicidesSpec(f: seq<Record>)
    ensures forall r :: r in Homicides(f) <==> r in f && r.manner == "Homicidio"
    ensures HomicideTop5(f) == HomicideTop5(Homicides(f))
  {
    FilterIdempotent(f, IsHomicide);
  }

  /** The homicide ranking has min(5, number of municipalities with a
      homicide) rows, most homicides first, each a municipality with its
      number of homicides, and no municipality left out has more homicides
      than one kept. */
  lemma HomicideTop5Spec(f: seq<Record>)
    ensures var top := HomicideTop5(f); var present := set r | r in Homicides(f) :: r.municipality;
      && |top| == (if 5 < |present| then 5 else |present|)
      && (forall i, j :: 0 <= i < j < |top| ==> top[i].1 >= top[j].1)
      && (forall row :: row in top ==> row.0 in present && row.1 == Occurrences(Homicides(f), MunicipalityOf, row.0))
      && (forall i, j :: 0 <= i < j < |top| ==> top[i].0 != top[j].0)
      && (forall m, row :: m in present && m !in Keys(top) && row in top ==>
            row.1 >= Occurrences(Homicides(f), MunicipalityOf, m))
  {
    StringLessIsStrictTotalOrder();
    TopKOfGroups(Homicides(f), MunicipalityOf, StringLess, 5);
    assert (set r | r in Homicides(f) :: r.municipality) == Present(Homicides(f), MunicipalityOf);
  }

  /** The bottom-10 table has min(10, number of municipalities) rows, fewest
      deaths first, each a municipality with its number of deaths, and no
      municipality left out has fewer deaths than one kept. */
  lemma Bottom10Spec(f: seq<Record>)
    ensures var bottom := Bottom10(f); var present := set r | r in f :: r.municipality;
      && |bottom| == (if 10 < |present| then 10 else |present|)
      && (forall i, j :: 0 <= i < j < |bottom| ==> bottom[i].1 <= bottom[j].1)
      && (forall row :: row in bottom ==> row.0 in present && row.1 == Occurrences(f, MunicipalityOf, row.0))
      && (forall i, j :: 0 <= i < j < |bottom| ==> bottom[i].0 != bottom[j].0)
      && (forall m, row :: m in present && m !in Keys(bottom) && row in bottom ==>
            row.1 <= Occurrences(f, MunicipalityOf, m))
  {
    StringLessIsStrictTotalOrder();
    BottomKOfGroups(f, MunicipalityOf, StringLess, 10);
    assert (set r | r in f :: r.municipality) == Present(f, MunicipalityOf);
  }

  /** The causes table is keyed on the (code, description) pair; it has at
      most ten rows, each a pair that occurs with its number of deaths, in
      non-increasing order of total, and no pair left out has a larger total
      than a pair kept. */
  lemma TopCausesSpec(f: seq<Record>)
    ensures var top := TopCauses(f); var present := set r | r in f :: (r.causeCode, r.causeDesc);
      && |top| <= 10
      && |top| == (if 10 < |present| then 10 else |present|)
      && (forall i, j :: 0 <= i < j < |top| ==> top[i].1 >= top[j].1)
      && (forall row :: row in top ==> row.0 in present && row.1 == Occurrences(f, CauseOf, row.0))
      && (forall i, j :: 0 <= i < j < |top| ==> top[i].0 != top[j].0)
      && (forall c, row :: c in present && c !in Keys(top) && row in top ==>
            row.1 >= Occurrences(f, CauseOf, c))
  {
    PairLessIsStrictTotalOrder();
    TopKOfGroups(f, CauseOf, PairLess, 10);
    assert (set r | r in f :: (r.causeCode, r.causeDesc)) == Present(f, CauseOf);
  }

  /** A strictly increasing sequence of integers within [lo, hi] has at most
      hi - lo + 1 elements. */
  lemma {:induction false} IncreasingWithin(s: seq<int>, lo: int, hi: int)
    requires forall i, j :: 0 <= i < j < |s| ==> s[i] < s[j]
    requires forall i :: 0 <= i < |s| ==> lo <= s[i] <= hi
    ensures |s| <= if hi < lo then 0 else hi - lo + 1
  {
    if s != [] {
      IncreasingWithin(s[1..], s[0] + 1, hi);
    }
  }

  /** The age table: one row per age-group code present, in ascending code
      order, each with its number of deaths and the label the map gives its
      code, which is none exactly for codes outside 1..18. */
  lemma AgeCountsSpec(f: seq<Record>)
    ensures var a := AgeCounts(f);
      && |a| == |set r | r in f :: r.ageGroup|
      && (forall i, j :: 0 <= i < j < |a| ==> a[i].code < a[j].code)
      && (forall i :: 0 <= i < |a| ==>
            && a[i].deaths == Occurrences(f, AgeGroupOf, a[i].code)
            && a[i].deaths >= 1
            && a[i].ageRange == Get(AgeLabelMap(), a[i].code)
            && (a[i].ageRange.Some? <==> 1 <= a[i].code <= 18))
  {
    IntLessIsStrictTotalOrder();
    GroupSizeSpec(f, AgeGroupOf, IntLess);
    assert (set r | r in f :: r.ageGroup) == Present(f, AgeGroupOf);
  }

  /** When every record's code is in 1..18, the age table has at most 18 rows
      and every row is labelled. */
  lemma AgeCountsBounded(f: seq<Record>)
    requires forall r :: r in f ==> 1 <= r.ageGroup <= 18
    ensures |AgeCounts(f)| <= 18
    ensures forall i :: 0 <= i < |AgeCounts(f)| ==> AgeCounts(f)[i].ageRange.Some?
  {
    var t := GroupSize(f, AgeGroupOf, IntLess);
    IntLessIsStrictTotalOrder();
    GroupSizeSpec(f, AgeGroupOf, IntLess);
    var codes := Column(t, (row: (int, nat)) => row.0);
    forall i | 0 <= i < |codes| ensures 1 <= codes[i] <= 18 {
      assert t[i].0 in Keys(t);
    }
    IncreasingWithin(codes, 1, 18);
  }

  /** Rows of a (department, sex) table that belong to department `d`. */
  function InDepartment(d: string): ((string, string)) -> bool
  {
    (pair: (string, string)) => pair.0 == d
  }

  /** Counting (department, sex) keys of department `d` counts the department's records. */
  lemma {:induction false} DepartmentSexColumn(f: seq<Record>, d: string)
    ensures |Filter(Column(f, DepartmentSexOf), InDepartment(d))| == Occurrences(f, DepartmentOf, d)
  {
    if f != [] {
      DepartmentSexColumn(f[1..], d);
      assert Column(f, DepartmentSexOf)[1..] == Column(f[1..], DepartmentSexOf);
      assert Column(f, DepartmentOf) == [f[0].department] + Column(f[1..], DepartmentOf);
    }
  }

  /** The (department, sex) table: one row per pair present, in ascending
      (department, sex) order, each with its number of deaths, none zero; for
      every department, its rows add up to its count in the department table. */
  lemma SexByDepartmentSpec(f: seq<Record>)
    ensures Sorted(SexByDepartment(f), PairLess)
    ensures forall p :: Lookup(SexByDepartment(f), p) == Occurrences(f, DepartmentSexOf, p)
    ensures forall p :: p in Keys(SexByDepartment(f)) <==> exists r :: r in f && (r.department, r.sex) == p
    ensures |SexByDepartment(f)| == |set r | r in f :: (r.department, r.sex)|
    ensures Positive(SexByDepartment(f))
    ensures forall d :: SumWhere(SexByDepartment(f), InDepartment(d)) == Lookup(DepartmentCounts(f), d)
  {
    PairLessIsStrictTotalOrder();
    StringLessIsStrictTotalOrder();
    GroupSizeSpec(f, DepartmentSexOf, PairLess);
    GroupSizeSpec(f, DepartmentOf, StringLess);
    assert (set r | r in f :: (r.department, r.sex)) == Present(f, DepartmentSexOf);
    forall d ensures SumWhere(SexByDepartment(f), InDepartment(d)) == Lookup(DepartmentCounts(f), d) {
      CountBySumWhere(Column(f, DepartmentSexOf), PairLess, InDepartment(d));
      DepartmentSexColumn(f, d);
    }
  }

  /** Three 2019 records: two homicides in department A (municipalities X and
      Y, month 1) and an accident in department B (municipality X, month 2). */
  function Scenario(): seq<Record>
  {
    [Record(2019, "A", "X", "Homicidio", 1, "X95", "Agresion", 5, "M"),
     Record(2019, "A", "Y", "Homicidio", 1, "X95", "Agresion", 6, "F"),
     Record(2019, "B", "X", "Accidente", 2, "V89", "Transito", 5, "M")]
  }

  lemma ScenarioMonthly()
    ensures MonthlyCounts(Year2019(Scenario())) == [(1, 2), (2, 1)]
  {
    var df := Scenario();
    assert Year2019(df) == df;
    assert Column(df, MonthOf) == [1, 1, 2];
    assert CountBy([2], IntLess) == [(2, 1)];
    assert CountBy([1, 2], IntLess) == Bump([(2, 1)], 1, IntLess) == [(1, 1), (2, 1)];
    assert CountBy([1, 1, 2], IntLess) == Bump([(1, 1), (2, 1)], 1, IntLess);
  }

  lemma ScenarioDepartments()
    ensures DepartmentCounts(Year2019(Scenario())) == [("A", 2), ("B", 1)]
  {
    var df := Scenario();
    assert Year2019(df) == df;
    assert Column(df, DepartmentOf) == ["A", "A", "B"];
    assert StringLess("A", "B");
    assert CountBy(["B"], StringLess) == [("B", 1)];
    assert CountBy(["A", "B"], StringLess) == Bump([("B", 1)], "A", StringLess) == [("A", 1), ("B", 1)];
    assert CountBy(["A", "A", "B"], StringLess) == Bump([("A", 1), ("B", 1)], "A", StringLess);
  }

  /** X and Y tie with one homicide each; equal counts keep key order. */
  lemma ScenarioHomicides()
    ensures HomicideTop5(Year2019(Scenario())) == [("X", 1), ("Y", 1)]
  {
    var df := Scenario();
    assert Year2019(df) == df;
    assert Homicides(df) == df[..2];
    assert Column(df[..2], MunicipalityOf) == ["X", "Y"];
    assert StringLess("X", "Y");
    assert CountBy(["Y"], StringLess) == [("Y", 1)];
    var t := [("X", 1), ("Y", 1)];
    assert CountBy(["X", "Y"], StringLess) == Bump([("Y", 1)], "X", StringLess) == t;
    assert SortBy(t[1..], NegCount) == [("Y", 1)];
    assert SortBy(t, NegCount) == Insert(("X", 1), [("Y", 1)], NegCount) == t;
  }
}
