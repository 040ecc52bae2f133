# MTN customer churn dashboard: a Dafny model of its data core

The churn dashboard reads a CSV export of MTN customers. It cleans the table in `load_data`,
computes four headline numbers in `get_metrics` and a per-month series of churned rows in
`get_monthly_churn`. The Streamlit page offers four sidebar filters (state, subscription plan,
device, churn status), keeps the rows that match them and shows the metrics of what is left.
It goes on to compute churned rows per plan and the churn status distribution for two charts.
As written, the page never gets that far: the metric card at dashboard.py:111 reads a key that
get_metrics does not return, so the script stops there with a KeyError. The model still covers
what lines 119-123 and 139 compute.

This project models that data path as pure functions over a table of records, and proves what
each step computes:

- `Strings`: Python's `str.strip()` with its full whitespace set, and string ordering by code
  point as used by `sorted()`.
- `Seqs`: boolean-mask row selection (`Filter`) and column sums.
- `Grouping`: pandas' `groupby(...).size()`, `reindex` and `dropna` over a column of optional
  keys, where missing keys form no group.
- `Backend`:
  - `load_data` on a table that has already been read. It strips the header, resolves each
    column the program reads, trims the churn status, and parses the purchase date with
    `%b-%y` and `errors="coerce"`.
  - `get_metrics` and `get_monthly_churn`.
- `Dashboard`: the option lists and defaults of the four multiselect widgets, the `isin` filter
  mask, `churn_by_plan` and `churn_distribution`.
- `WorkedExample`: a loaded two-customer table taken through the metrics and the monthly series.

How the model represents the data:

- A table cell that pandas would hold as NaN (or NaT) is `None`.
- Text cells are `Option<string>`.
- Revenue is `Option<int>` in cents.
- A parsed purchase date is a month and a year.
- A record picks its cells by field name. `IndexOf` and `ColumnIndex` therefore only decide
  whether a column resolves. The position they return selects no data in the model, so the
  "first column so named" half of `IndexOf` and the position bound of `PaddedHeaderResolves`
  constrain nothing else in the model.

## Model

| member | source | states |
|---|---|---|
| Strings.Trim | backend.py:9 | the stripped value has no whitespace at either end and is no longer than the input |
| Strings.TrimSplit | backend.py:9 | every string is a whitespace run, then its stripped value, then a whitespace run |
| Strings.TrimUnique | backend.py:6 | whitespace, then a text t with no whitespace at its ends, then whitespace, strips to exactly t |
| Strings.TrimIgnoresPadding | backend.py:9 | surrounding whitespace never changes the stripped value |
| Strings.TrimIdempotent | backend.py:9 | stripping twice equals stripping once |
| Strings.Less | dashboard.py:69 | Python's `<` on str: lexicographic by code point, a proper prefix before its extensions (the ordering facts are the three rows below) |
| Strings.LessIrreflexive | dashboard.py:69 | no string is less than itself |
| Strings.LessTransitive | dashboard.py:69 | the order is transitive |
| Strings.LessTotal | dashboard.py:69 | any two different strings are ordered one way or the other |
| Strings.SortedDistinct | dashboard.py:69 | sorted(set(xs)): strictly increasing, with exactly the elements of xs |
| Strings.SortedUnique | dashboard.py:69 | two strictly increasing lists with the same elements are equal, so sorted() has one possible result |
| Backend.StripHeader | backend.py:6 | the new header has one name per old name, each the stripped old name |
| Backend.IndexOf | backend.py:8 | df[name] resolves to the first column so named; it is None exactly when no column has the name |
| Backend.FirstMissing | backend.py:8-16 | the first column in read order that does not resolve; None exactly when every required column resolves |
| Backend.PaddedHeaderResolves | backend.py:6 | a header name padded with whitespace resolves to that column or an earlier one of the same name |
| Backend.ParseMonthYear | backend.py:8 | %b-%y with coercion: a date exactly when the cell is six characters (a month abbreviation in any ASCII case, a hyphen, two digits); the month is that abbreviation's month; the year follows the 68/69 century pivot |
| Backend.CenturyPivot | backend.py:8 | %y: the year ends in the two digits and lies between 1969 and 2068 |
| Backend.PivotRecoversYear | backend.py:8 | the %y pivot gives back every year from 1969 to 2068 from its last two digits |
| Backend.ParseFormatRoundTrip | backend.py:8 | every month and year from 1969 to 2068, written as "Jan-24", parses back to itself |
| Backend.ParseExamples | backend.py:8 | "Jan-24" is January 2024 and "dec-99" December 1999; "not-a-date" and "Jan-2024" become a missing date, not an error |
| Backend.Normalise | backend.py:8-9 | ID, state, plan, device and revenue are unchanged; the status is present exactly when it was, and then equals the stripped raw status (no whitespace at its ends); the date is present exactly when the cell parses, and then equals the parsed month and year |
| Backend.NormaliseAll | backend.py:8-9 | every row normalised, in order, none dropped |
| Backend.FirstMissingAppend | backend.py:8-16 | the first missing name of two lists read one after the other is the first of the first list, or else the first of the second |
| Backend.Load | backend.py:3-10 | loading succeeds exactly when every required column resolves and the status column holds text. A missing date or status column is reported first. A table with both and no status text fails at the strip, whatever else is missing. Any missing-column error names the first missing column in read order. On success each row is normalised and none is dropped |
| Backend.StatusCheckedBeforeLaterColumns | backend.py:9 | with the date and status columns present and no status text at all, loading fails at the status strip even when later columns are missing |
| Backend.ChurnedAfterLoad | backend.py:9 | after loading, a row is churned exactly when its raw status strips to "Yes" |
| Backend.PaddedYesIsChurned | backend.py:9 | a status of "Yes" with whitespace around it counts as churned |
| Backend.TrimCellIdempotent | backend.py:9 | normalising a status a second time changes nothing |
| Backend.ChurnRate | backend.py:15 | rate × customers = churned × 100 when there are customers, 0 when there are none, never negative |
| Backend.TotalCustomers | backend.py:13 | nunique: zero exactly when no row has an ID |
| Backend.ChurnedCustomers | backend.py:14 | at most the row count; zero exactly when no row's status is "Yes" |
| Backend.TotalRevenue | backend.py:16 | zero when every revenue is missing; non-negative when every present revenue is |
| Backend.GetMetrics | backend.py:12-23 | total customers is the number of distinct present IDs; churned is the number of "Yes" rows (at most the row count); the rate relation of ChurnRate holds between the two; revenue is the column sum |
| Backend.TotalCustomersAtMostRows | backend.py:13 | never more customers than rows |
| Backend.TotalCustomersAppend | backend.py:13 | a row with a missing or repeated ID adds no customer; a row with a new ID adds one |
| Backend.TotalCustomersOfUniqueIds | backend.py:13 | with every ID present and unique, customers equals rows |
| Backend.ChurnedCustomersAppend | backend.py:14 | a row adds one churned customer exactly when its status is "Yes" |
| Backend.TotalRevenueAppend | backend.py:16 | a row adds its revenue to the total; a missing revenue adds nothing |
| Backend.ChurnRateAtMostHundred | backend.py:15 | with unique present IDs the churn rate is between 0 and 100 |
| Backend.MetricsIgnoreRowOrder | backend.py:12-23 | the four metrics depend only on the multiset of rows, not on their order |
| Backend.EmptyTableMetrics | backend.py:15 | an empty table gives 0 customers, 0 churned, rate 0 and revenue 0 |
| Backend.MonthKey | backend.py:30 | strftime('%B'): present exactly when the date parsed, and then a month name |
| Backend.GetMonthlyChurn | backend.py:25-35 | at most twelve entries, each a month name with a count of at least 1 |
| Backend.MonthlyChurnWithoutChurn | backend.py:26-28 | with no churned row the series is empty |
| Backend.MonthlyChurnShape | backend.py:30-34 | the series' months are a subsequence of January to December, and every count is at least 1 |
| Backend.MonthlyChurnCounts | backend.py:26-34 | a month appears exactly when a churned customer bought in it, in any year; its count is the number of such rows |
| Backend.MonthlyChurnTotal | backend.py:26-34 | the counts add up to the churned rows whose purchase date parsed |
| Backend.MonthlyChurnIgnoresYear | backend.py:30 | changing only the years of purchase dates leaves the series unchanged, since months of all years are merged |
| Grouping.GroupSizes | dashboard.py:119-123 | groupby().size(): keys strictly increasing, a key present exactly when some row carries it, each size that key's row count and at least 1 |
| Grouping.GroupSizesTotal | dashboard.py:119-123 | the group sizes add up to the rows whose key is present |
| Grouping.LookupGroupSizes | backend.py:34 | looking up a key in a group-by result gives its row count, or nothing when no row carries it |
| Grouping.DropMissing | backend.py:34 | dropna(): never longer, and holds exactly the entries whose count is present |
| Grouping.SeriesCounts | backend.py:30-34 | after groupby, reindex by a list holding k and dropna, k is kept exactly when some row carries it, with that row count |
| Grouping.ReindexedEntries | backend.py:34 | reindexing groups of positive size and dropping missing entries leaves at most one entry per listed key, each listed and positive |
| Grouping.Reindex | backend.py:34 | reindex(order): one entry per key of order, each that key's group size or missing |
| Grouping.ReindexEntries | backend.py:34 | after reindex and dropna, the keys are a subsequence of order, a key is kept exactly when it is listed and has a group, and each size is that group's size |
| Grouping.ReindexTotal | backend.py:34 | after reindex and dropna, the sizes add up to the row counts of the listed keys; a listed key without rows adds nothing |
| Dashboard.OptionList | dashboard.py:67-89 | sorted(column.unique()) fails exactly when the column mixes text with missing values; otherwise the result has the column's values, sorted, without duplicates |
| Dashboard.CellsSortedUnique | dashboard.py:69 | two sorted option lists with the same values are equal |
| Dashboard.OptionListUnique | dashboard.py:67-89 | the option list is the only sorted list of the column's values |
| Dashboard.DefaultSelection | dashboard.py:67-89 | the defaults exist exactly when all four option lists do; each default equals its column's option list, and so holds exactly that column's values |
| Dashboard.Matches | dashboard.py:94-99 | the mask of one row: each of the four cells is among its selected values, with a missing cell matching a selected missing value (the facts are in the ApplyFilters rows) |
| Dashboard.ApplyFilters | dashboard.py:94-99 | every kept row matches all four selections; a matching row is kept as often as it occurs, any other row never |
| Dashboard.FilterPreservesOrder | dashboard.py:94-99 | the filtered table is a subsequence of the table |
| Dashboard.EmptySelectionFiltersEverything | dashboard.py:94-99 | a filter with nothing selected empties the table |
| Dashboard.DefaultSelectionKeepsEveryRow | dashboard.py:67-99 | with the default selections the filter keeps the whole table |
| Dashboard.ChurnByPlan | dashboard.py:119-123 | plans strictly increasing, each count at least 1 |
| Dashboard.ChurnByPlanCounts | dashboard.py:119-123 | one entry per plan that has churned rows, plans increasing, each count that plan's number of churned rows |
| Dashboard.ChurnByPlanTotal | dashboard.py:119-123 | the plan counts add up to the churned rows whose plan is present |
| Dashboard.ChurnDistribution | dashboard.py:139 | one entry per status that occurs, statuses strictly increasing, each count the number of status cells holding that status (so at least 1) |
| Dashboard.ChurnDistributionCounts | dashboard.py:139 | a status is present exactly when some row has it, with the count from the independent RowsWithStatus |
| Dashboard.ChurnDistributionTotal | dashboard.py:139 | the status counts add up to the rows whose status is present |
| WorkedExample.ExampleMetrics | backend.py:12-23 | the example's metrics are 2 customers, 1 churned, a 50% rate and 150.00 of revenue |
| WorkedExample.ExampleMonthlyChurn | backend.py:25-35 | the example's monthly series is one churned customer in January |

## Left out

- Reading the CSV file is not modelled. The model starts from the header names and the rows already split into cells.
  - Text columns arrive as text or missing.
  - Revenue arrives as an integer number of cents or missing.
  - The CSV reader's own type inference is not modelled.
- The model checks required columns when the table is loaded. The source raises a KeyError only when a column is first read.
  - Missing columns are reported in the source's order of first reads: purchase date, status, state, plan, device, ID, revenue.
- Backend.Load: a missing State, Plan, Device, ID or Revenue column is reported ahead of the TypeError that `sorted()` raises at dashboard.py:69-87. In the source that TypeError can come first, for example when the state options are unorderable and the ID column is missing. The model keeps option-list errors in `Dashboard.DefaultSelection`, separate from loading.
- Backend.GetMetrics: floating-point arithmetic and `round(..., 2)` are not modelled. The rate is an exact real and revenue is exact cents.
- Backend.ParseMonthYear: only ASCII case folding and ASCII digits are modelled. The model does not say how strptime treats other Unicode letters and digits.
- A header in which two names strip to the same name is resolved to the first such column. The source's handling of duplicate labels is not modelled.
- Dashboard.ChurnDistribution: value_counts orders its entries by decreasing count. The model keeps them in key order and proves the counts only.
- The page reads `metrics["average_tenure"]` (dashboard.py:111), which get_metrics never returns. The uncaught KeyError stops the script at that line on every run. Nothing after it is ever shown: the Total Revenue card, the plan chart, the distribution chart and the monthly chart. The model covers the computations of lines 119-123 and 139 as written, not the fact that the page never reaches them.
- Streamlit widgets, page layout and the matplotlib charts are presentation and are not modelled.
- app.py, churn_model.py and database.py are not part of this model.
