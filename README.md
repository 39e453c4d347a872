# Sales dashboard data pipeline

This project models the logic of `script.js` that sits under the DOM and
library calls of the sales dashboard. Once the page has loaded, that logic
works on an in-memory list of sales records and does four things:

- **Filter engine** (`filterData`). Four dropdowns (year, month, city,
  customer) select a conjunctive equality filter. An empty dropdown matches
  everything. The result is `data.filter(...)` and keeps the original order.
- **Dropdown options** (`populateFilters`, `populateDropdown`). Each
  dimension's distinct values are collected in first-occurrence order through
  `new Set(...)`. They are then sorted in place with `values.sort()`, which
  compares the values' string forms.
- **Metrics** (`updateMetrics`). The page shows total revenue, total sales
  quantity and average discount. An empty list gives an average of 0.
- **Chart grouping** (`renderChart`). `d3.group` buckets the records by year
  and then by month. Nested `forEach` loops push one `{year, month, revenue}`
  entry per pair of the year keys × distinct months.

Modules:

- `Records` holds the record type and `d3.sum`.
- `Filter`, `Options`, `Dropdown`, `Metrics` and `Chart` hold one part each.
- `ChartProperties` holds what the grouping promises.
- `Dashboard` holds the closure's `data` / `filteredData` state, the load
  callback and the change handler.

The pure parts are functions with lemmas. The parts the source writes
imperatively are methods proved against those functions:

- the nested push loops of the grouping, with loop invariants;
- the in-place sort of an array, with loop invariants;
- the reassigned closure variables, which are fields of class
  `Dashboard` updated by its methods.

Rows marked "helper" in the table below are proof steps (an unfolding, a
base case or an induction step) rather than behaviour of the page.

## Model
| member | source | states |
|---|---|---|
| Records.Sum | script.js:102-103 | d3.sum of one measure over the records, in order; 0 on no records |
| Records.SumAppend | script.js:102-103 | the sum over two lists one after the other is the sum of their sums |
| Records.SumBounds | script.js:102-104 | when every record's measure lies in [lo, hi], the sum lies between n·lo and n·hi |
| Filter.Admits | script.js:49-52 | one conjunct of the callback, `!choice` or `field == choice`: an unset dropdown admits every value, a set one only its own value |
| Filter.Matches | script.js:49-52 | a record passes when every set dropdown equals its field; an unset dropdown admits any value |
| Filter.FilterData | script.js:48-53 | the filtered list is an order-preserving subsequence of data |
| Filter.FilterDataExact | script.js:48-53 | each record occurs in the result exactly as often as in data if it matches, and not at all otherwise; x is in the result iff x is in data and matches |
| Filter.FilterSnoc | script.js:48-53 | helper, one unfolding of FilterData: filtering data + [r] is filtering data, then appending r exactly when r matches |
| Filter.FilterNoSelection | script.js:49-52 | with every dropdown empty, the result is the whole dataset |
| Filter.FilterThenFilter | script.js:48-53 | filtering by s, then by t, equals filtering once by any u that holds exactly where s and t both hold |
| Filter.FilterIdempotent | script.js:48-53 | filtering an already filtered result with the same selection returns it unchanged |
| Filter.FilterAbsentYear | script.js:49 | selecting a year no record has yields the empty list |
| Options.FirstIndex | script.js:18-21 | the index of the first occurrence of a value in a list |
| Options.Distinct | script.js:18-21 | `[...new Set(xs)]` holds exactly the values of xs |
| Options.DistinctHasNoDuplicates | script.js:18-21 | `[...new Set(xs)]` holds each value once |
| Options.DistinctKeepsFirstOccurrenceOrder | script.js:18-21 | the distinct values come in the order of their first occurrences in xs |
| Options.Years | script.js:18 | the mapped YEAR list holds exactly the years that occur in the data |
| Options.Months | script.js:19 | the mapped MONTH list holds exactly the months that occur in the data |
| Options.Cities | script.js:20 | the mapped City list holds exactly the cities that occur in the data |
| Options.Customers | script.js:21 | the mapped CustomerDescr list holds exactly the customer descriptions that occur in the data |
| Options.PopulateFilters | script.js:17-21 | each of the four option lists has no duplicates and holds exactly the values of its field that occur in the data |
| Dropdown.StrLe | script.js:31 | the default comparator of `sort()`: a prefix comes first, otherwise the first differing character decides |
| Dropdown.StrLeReflexive | script.js:31 | the string order of the default sort is reflexive |
| Dropdown.StrLeTotal | script.js:31 | any two strings are comparable |
| Dropdown.StrLeTransitive | script.js:31 | the string order is transitive |
| Dropdown.StrLeAntisymmetric | script.js:31 | two strings ordered both ways are equal |
| Dropdown.NatToString | script.js:31 | the string form of a natural is a non-empty run of decimal digits |
| Dropdown.NatToStringInjective | script.js:31 | different naturals have different string forms |
| Dropdown.IntToString | script.js:31 | `String(n)` of an integer below 1e21 in magnitude: a non-empty string that starts with '-' exactly when n is negative, followed by the decimal digits |
| Dropdown.IntToStringInjective | script.js:31 | different integers have different string forms, so sorting numbers by string form is a total order on them |
| Dropdown.MinByKey | script.js:31 | finds a position at or after `from` whose string form is least among the rest of the array |
| Dropdown.PopulateDropdown | script.js:29-31 | `values.sort()` leaves the array in ascending string order and a permutation of its old contents |
| Dropdown.SortedArrangementUnique | script.js:31 | two sorted permutations of the same values are equal when no two different values share a string form, so the result does not depend on the sort algorithm |
| Dropdown.ToArray | script.js:18-21 | the spread creates a fresh array holding the list's values |
| Dropdown.TenBeforeTwo | script.js:31 | in a sorted option list holding months 2 and 10, 10 comes first |
| Metrics.UpdateMetrics | script.js:101-104 | an empty list gives (0, 0, 0); otherwise the average discount times the count is the discount sum |
| Metrics.AverageDiscountWithin | script.js:104 | the average discount lies between the least and the greatest discount |
| Metrics.TotalsAdd | script.js:102-103 | the revenue and sales totals are additive over concatenated lists |
| Chart.Group | script.js:112 | `d3.group(data, d => d.YEAR, d => d.MONTH)` built by appending each record, in order, to the bucket of its year and month; the grouping is empty exactly when the data is |
| Chart.Bucket | script.js:119 | `groupedData.get(year).get(month)`, or `[]` in its place when undefined: the bucket of the pair, or the empty list when the month is missing |
| Chart.GroupKeys | script.js:112-113 | the year keys of the d3.group map are exactly the years that occur in the data |
| Chart.GroupBuckets | script.js:112-119 | an existing month bucket holds exactly the records of that year and month, in order; a missing bucket means there are none |
| Chart.BucketStep | script.js:112 | helper, induction step of GroupBuckets: adding one record to the grouping keeps every bucket equal to the filter for its year and month |
| Chart.YearsAreKeys | script.js:112-113 | every distinct year is a key of the grouping, so `groupedData.get(year)` is defined in the loop |
| Chart.BucketRevenue | script.js:119 | summing the bucket, or an empty list when the bucket is missing, gives the summed revenue of the records with that year and month |
| Chart.NoYearNoCell | script.js:119 | a year with no records has no records for any month |
| Chart.GroupedTableIsTable | script.js:116-122 | the cells read from the grouping equal the cells specified over the data |
| Chart.GroupedRowIsRow | script.js:118-121 | one year's cells read from the grouping equal that year's specified cells |
| Chart.RevenueByYearMonth | script.js:112-114 | years are the group keys and months the distinct MONTH values, both in first-occurrence order, and the pushed cells are Table(data, years, months): each pair's cell carries the summed revenue of the records with that year and month |
| Chart.PushCells | script.js:116-122 | the nested forEach loops push exactly the cells read from the grouping, years outer and months inner, with a missing bucket counting as empty |
| ChartProperties.CellsTotalAppend | script.js:116-122 | helper for TableTotalByYear: the total of concatenated cell lists is the sum of their totals |
| ChartProperties.RowShape | script.js:118-121 | one year's row has one cell per month, in month order, carrying that pair's revenue |
| ChartProperties.TableLength | script.js:116-122 | the list has (number of years) × (number of months) entries |
| ChartProperties.TableAt | script.js:116-122 | entry i × (number of months) + j is (years[i], months[j], revenue of that pair): year-major, month-minor order |
| ChartProperties.TableShape | script.js:116-122 | the length is (number of years) × (number of months) and every index holds its pair's cell in year-major order |
| ChartProperties.TableCoversPairsOnce | script.js:116-122 | every (year, month) of the cross product has a cell, including pairs that never co-occur; no pair appears twice |
| ChartProperties.TableCellsDistinct | script.js:116-122 | every cell's year is one of the years, and no two cells share a (year, month) |
| ChartProperties.AbsentPairHasNoRevenue | script.js:119 | a pair no record has gets revenue 0 |
| ChartProperties.SumByKeySnoc | script.js:119 | helper, induction step of SumByKeyPartitions: summing revenue per key over data + [r] adds r's revenue when its key is listed |
| ChartProperties.SumByKeyPartitions | script.js:119 | when every record's key is listed once, the per-key revenue sums add up to the total revenue |
| ChartProperties.SumByKeyOfNothing | script.js:119 | helper, base case of SumByKeyPartitions: per-key sums over no records add up to 0 |
| ChartProperties.RowTotal | script.js:118-121 | a year's cells add up to the per-month sums over that year's records |
| ChartProperties.TableTotalByYear | script.js:116-122 | when the months cover the data, the cells add up to the per-year sums |
| ChartProperties.TableTotal | script.js:116-122 | when years and months list every year and month once, the cells add up to the total revenue |
| ChartProperties.ChartTotalIsTotalRevenue | script.js:102-122 | the chart's entries add up to the total revenue that updateMetrics shows for the same records |
| Dashboard.Render | script.js:11-13 | one redraw shows the rows, the metrics and the grouping of a subset; the chart total equals the revenue metric |
| Dashboard.Dashboard.constructor | script.js:2-3 | data and filteredData start empty |
| Dashboard.Dashboard.Load | script.js:8-14 | stores the records and fills each dropdown with its field's distinct values, sorted by string form and a permutation of the Set's list; draws the whole dataset; leaves filteredData unchanged |
| Dashboard.Dashboard.FilterChanged | script.js:42-58 | filteredData becomes the filter of the whole data under the selection, stays a subsequence of data, and is drawn |
| Dashboard.RefilterIsStable | script.js:42-58 | filtering the shown subset again with the same selection draws the same view |
| Dashboard.ResetShowsEverything | script.js:9-58 | with every dropdown on the empty option, the handler draws exactly what the load drew |

## Left out

- The `fetch("data.json")` request and its promise chain (script.js:6-7). The parsed JSON is a parameter of `Dashboard.Load`, and a failed request is not modelled.
- All DOM access (script.js:30-38, 43-46, 106-108) is left out. Dropdown values arrive as a `Selection`, and a view is returned as a `View` value.
- DataTables (script.js:61-98). This is a third-party widget; `View.rows` holds the list that it is given.
- D3 scales, SVG layout, axes and legend (script.js:124-194). These are floating-point rendering inside a library. Two quirks there are not modelled:
  - The bar data at script.js:159 repeats each entry's revenue for every month.
  - `d3.max` of an empty list is `undefined` at script.js:146.
- `toFixed(2)` formatting (script.js:106, 108). Measures are integers in the record's smallest unit, and the average discount is an exact rational rather than a float.
- JavaScript's coercing `==` and d3's skipping of null/NaN values. Records are well typed, and a dropdown's text is converted to the field's type before comparison, so `==` becomes equality.
- Dropdown.PopulateDropdown: JavaScript compares UTF-16 code units, but Dafny's `char` is a Unicode scalar value. The two orders differ only for characters outside the Basic Multilingual Plane. The sort is a selection sort, not the engine's algorithm; `SortedArrangementUnique` shows that the result is the same whenever string forms are distinct, which `IntToStringInjective` gives for numbers.
- Map and Set iteration order is modelled by `Distinct`, which keeps first insertions in order. `d3.group` is modelled as nested maps whose key order is that of `Distinct(Years(data))`.
- A dropdown on its empty option (`""`, falsy at script.js:49-52) always becomes `None` in a `Selection`; `Some("")` for city or customer is not produced by any dropdown state, and `Matches` would treat it as an ordinary value.
- The `change` listener registration (script.js:38) is left out; `Dashboard.FilterChanged` is the handler itself.
