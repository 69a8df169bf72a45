# Colombian mortality dashboard, 2019: the aggregation pipeline

The dashboard reads a table of death records. It keeps the records of 2019 and
computes seven small tables from them, one per chart:

- deaths per department (choropleth);
- deaths per month (line chart);
- the five municipalities with the most homicides (bar chart);
- the ten municipalities with the fewest deaths (donut chart);
- the ten most frequent (cause code, cause description) pairs (table widget);
- deaths per five-year age group, labelled "0-4" … "80-84", "85+" (histogram);
- deaths per (department, sex) pair (stacked bars).

This project models that pipeline as pure Dafny functions and proves what each
table means. The modules are:

- `Records`: the `Record` datatype, selection by a boolean mask (`Filter`) and column projection (`Column`).
- `Order`: the orders the dataframe library sorts group keys by. Strings compare by code point, integers numerically, and pairs lexicographically.
- `Tally`: group-and-count (`groupby(key).size().reset_index()`), as `GroupSize` and `CountBy`. The result is a table of (key, count) rows in ascending key order. That is the library's default `sort=True`.
- `Ranking`: `nlargest(n)`, `nsmallest(n)` and `sort_values(ascending=False).head(n)`, as `TopK` and `BottomK`. Both are a stable sort by count followed by a prefix.
- `AgeLabels`: the code-to-label map and the labelling of the age table.
- `Dashboard`: the 2019 filter, the seven tables, `Build` (the whole pipeline) and the three-record scenario.

Tie-break: among rows with equal counts, the model keeps table order, which is
ascending key order. `nlargest`/`nsmallest` with their default `keep='first'`
prefer the earlier row the same way. `sort_values` uses a sort that is not
stable, so for the causes table only the properties that hold up to ties are
claimed: which counts are kept, their order, and that kept ≥ dropped.

## Model

| member | source | states |
|---|---|---|
| Dashboard.Year2019Spec | dash_app.py:32 | the 2019 selection holds exactly the records whose year is 2019, every copy of each, as a subsequence of the input; it is empty exactly when no record is from 2019 |
| Records.Filter | dash_app.py:32 | a mask selection is no longer than its input; every row it returns is an input row satisfying the mask, and every input row satisfying the mask is returned |
| Records.FilterIsSubsequence | dash_app.py:32 | selection keeps the relative order of the rows it keeps |
| Records.FilterMultiplicity | dash_app.py:32 | selection keeps every copy of a matching row and no copy of any other |
| Records.FilterEmpty | dash_app.py:32 | selection is empty exactly when no row matches |
| Records.FilterIdempotent | dash_app.py:69 | selecting twice by the same mask gives the same rows as selecting once |
| Records.Column | dash_app.py:41 | a projected column has one value per row, each the row's key |
| Records.ColumnValues | dash_app.py:41 | the distinct values of a column are exactly the keys of the rows |
| Order.StringLessIsStrictTotalOrder | dash_app.py:41 | code-point lexicographic string order is irreflexive, transitive and total, so grouped string keys sort uniquely |
| Order.PairLessIsStrictTotalOrder | dash_app.py:97 | lexicographic order on two-column keys is a strict total order |
| Order.IntLessIsStrictTotalOrder | dash_app.py:59 | numeric order on integer keys is a strict total order |
| Tally.BumpSorted | dash_app.py:41-42 | counting one more row keeps the table in strictly ascending key order |
| Tally.BumpLookup | dash_app.py:41-42 | counting one more row with key k adds one to k's count and changes no other count |
| Tally.BumpSize | dash_app.py:41-42 | counting one more row adds a table row exactly when its key is new |
| Tally.CountBySpec | dash_app.py:41-43 | the count table of a key column is sorted by key, has one row per distinct value and no zero row, its counts sum to the column length, and each key's count is its multiplicity in the column |
| Tally.CountByRows | dash_app.py:41-43 | every row of the count table is (a value that occurs, the number of times it occurs) |
| Tally.CountBySumWhere | dash_app.py:127-132 | summing the rows whose key satisfies a predicate counts the column values that satisfy it |
| Tally.GroupSizeSpec | dash_app.py:39-44 | a group-by-size table of records is sorted by key, has one row per key present, none zero, each holding its number of records, and its counts sum to the number of records |
| Ranking.SortBySpec | dash_app.py:100 | sorting yields a permutation of its input in non-decreasing weight order |
| Ranking.RankSpec | dash_app.py:100-101 | taking n after sorting keeps min(n, size) elements of the input in weight order, and no dropped element weighs less than a kept one |
| Ranking.TopKSpec | dash_app.py:75 | `nlargest(n)` keeps min(n, rows) rows of the table, largest count first, and every dropped row's count is at most every kept row's |
| Ranking.BottomKSpec | dash_app.py:86 | `nsmallest(n)` keeps min(n, rows) rows of the table, smallest count first, and every dropped row's count is at least every kept row's |
| Ranking.GroupRowsDistinct | dash_app.py:70-75 | rows drawn from a group-by-size table have pairwise distinct keys |
| Ranking.TopKOfGroups | dash_app.py:70-75 | `nlargest(n)` of a group-by-size table has min(n, distinct keys) rows, non-increasing; each row is a present key with its record count, no key appears twice, and no key left out has more records than a key kept |
| Ranking.BottomKOfGroups | dash_app.py:85-86 | `nsmallest(n)` of a group-by-size table has min(n, distinct keys) rows, non-decreasing; each row is a present key with its record count, no key appears twice, and no key left out has fewer records than a key kept |
| Dashboard.DepartmentCountsSpec | dash_app.py:39-44 | the department table has one row per department present in the 2019 records, in ascending name order, no zero row; its counts are the departments' record counts and sum to the number of records |
| Dashboard.MonthlyCountsSpec | dash_app.py:59 | the same for the month table, in ascending month order |
| Dashboard.HomicidesSpec | dash_app.py:69 | the homicide records are exactly those whose manner of death is "Homicidio", and the top-5 ranking depends on them alone |
| Dashboard.HomicideTop5Spec | dash_app.py:69-76 | the homicide ranking has min(5, municipalities with a homicide) rows, most homicides first; each row is a different such municipality with its homicide count, and no municipality left out has more homicides than one kept |
| Dashboard.Bottom10Spec | dash_app.py:85-86 | the bottom-10 table has min(10, municipalities) rows, fewest deaths first; each row is a different municipality with its death count, and no municipality left out has fewer deaths than one kept |
| Dashboard.TopCausesSpec | dash_app.py:95-102 | the causes table is keyed on (code, description); it has at most 10 rows, exactly min(10, pairs present), non-increasing by total; each row is a different pair that occurs, with its count, and no pair dropped has a larger total than a pair kept |
| AgeLabels.AgeLabelMap | dash_app.py:110-111 | the label map is defined on exactly the codes 1..18, and code 18 is "85+" |
| AgeLabels.NatToString | dash_app.py:110 | the decimal rendering of a number is a non-empty string of digits; it starts with '0' exactly when the number is 0, and it is one digit long exactly when the number is below 10 |
| AgeLabels.CanonicalIsRendering | dash_app.py:110 | a digit string without a leading zero is the rendering of its own value, so the rendering is the only such string for its number |
| AgeLabels.ParseNatToString | dash_app.py:110 | reading back a rendered number gives the number |
| AgeLabels.AgeLabelLowerBound | dash_app.py:110-111 | the number each label starts with is its bucket's lower end, (code - 1) * 5, written without leading zeros, for all 18 codes |
| AgeLabels.AgeLabelUpperBound | dash_app.py:110 | for codes 1..17, the lower end is followed by "-" and then the upper end, four years later, written without leading zeros; with the lower-bound row this fixes every label string |
| AgeLabels.AgeLabelsDistinct | dash_app.py:110-111 | distinct codes have distinct labels |
| AgeLabels.AgeLabelExamples | dash_app.py:110-111 | code 1 is "0-4", code 17 is "80-84", code 18 is "85+" |
| AgeLabels.LabelAges | dash_app.py:118 | labelling keeps the age table's rows, codes and counts, and gives each row the map's label for its code, or none |
| Dashboard.AgeCountsSpec | dash_app.py:110-118 | the age table has one row per code present, in ascending code order, each with its record count (at least 1) and the map's label for its code, which is absent exactly for codes outside 1..18 |
| Dashboard.AgeCountsBounded | dash_app.py:112-118 | when every code is in 1..18, the age table has at most 18 rows and every row is labelled |
| Dashboard.DepartmentSexColumn | dash_app.py:127-132 | the (department, sex) keys of department d are as many as the records of d |
| Dashboard.SexByDepartmentSpec | dash_app.py:127-132 | the (department, sex) table has one row per pair present, in ascending (department, sex) order, each with its record count, and no zero row; for every department, its rows add up to its count in the department table (dash_app.py:39-44) |
| Dashboard.Build | dash_app.py:32-132 | the pipeline's department counts sum to the number of 2019 records; the homicide ranking has at most 5 rows, the bottom-10 and causes tables at most 10 |
| Dashboard.ScenarioMonthly | dash_app.py:59 | on three 2019 records (two in month 1, one in month 2) the month table is [(1, 2), (2, 1)] |
| Dashboard.ScenarioDepartments | dash_app.py:39-44 | on the same records (two in A, one in B) the department table is [("A", 2), ("B", 1)] |
| Dashboard.ScenarioHomicides | dash_app.py:69-76 | on the same records (one homicide each in X and Y) the homicide ranking is [("X", 1), ("Y", 1)] |

## Left out

- Loading the Parquet dataset and the GeoJSON boundary file (dash_app.py:18-27): file I/O through foreign readers. The model starts from the loaded records as a `seq<Record>`.
- Building and styling the Plotly figures (dash_app.py:45-56, 60-66, 77-82, 87-92, 103-107, 119-124, 133-138): these are foreign library calls. This includes the choropleth's join of department names to the boundary features' `properties.NOMBRE_DPT`, which the plotting library performs.
- Creating the Dash app, exposing the WSGI server, composing the layout and running the development server (dash_app.py:12-13, 143-158): framework plumbing with nothing to compute.
- Dashboard.TopCausesSpec: does not fix the order among equal totals. `sort_values` uses a sort that is not stable, while the model's `TopK` keeps key order among ties.
- Ranking.TopKOfGroups, Ranking.BottomKOfGroups: they state the selection only up to ties. When several keys share the count at the cut-off, the model keeps the earliest in key order. `nlargest`/`nsmallest` with `keep='first'` do the same, but the model does not prove anything about which tied key is kept.
- Missing values: every record has every field. Dropping rows with a missing key, which `groupby` does by default, is not modelled. An age code with no label is modelled as `None`, standing for pandas' NaN.
- Re-running the pipeline on the same input gives the same tables. Every member is a mathematical function, so this holds by construction and has no lemma of its own.
- Counts are unbounded naturals; the 64-bit integers of the dataframe library never overflow at dataset sizes, so no wrap-around is modelled.
