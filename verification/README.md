# Daily temperature heat maps: the aggregation core

Two d3 views draw a table of daily temperatures (`date`, `max_temperature`,
`min_temperature`) as a year × month heat map. Before anything is drawn, each view
turns the table into one record per (year, month):

- **Level 1** (`processData` in `level1.js`) splits each date on `-`. It keeps the
  year piece as text and reads the month with `parseInt`. Rows go into a list of
  entries by a find-or-append loop that compares keys with `===`. Each entry's daily
  maxima and minima are averaged, the means are rounded to one decimal, and the days
  are dropped.
- **Level 2** (`level2.js`) reads the year, month and day pieces with unary `+`. It
  keeps the rows of 2008 to 2017 and groups them with `d3.groups` by year and then by
  month. For each (year, month) it builds a cell with the unrounded means and the
  days sorted by day of month.
- Both views colour cells on the `[min, max]` of the chosen mean. Each draws a
  legend whose gradient has 11 stops at offsets `i / 10`, with values interpolated
  over that range. Level 2 also pads each cell's mini line chart by one degree.

The model is plain Dafny:

- `Table` holds the input rows.
- `Strings` and `JsNumbers` model `split`, `parseInt` and unary `+` on the date pieces.
  JavaScript numbers that come out of them are either `NaN` or an integer.
- `Grouping` is the find-or-append grouping used by both views. It is generic over
  the key comparison: `===` in level 1, SameValueZero in `d3.groups`.
- `Sorting` is a stable sort on a numeric key. `Stats` holds means, min/max ranges
  and one-decimal rounding. `Legend` builds the gradient stops.
- `Level1` and `Level2` put the pieces together the way the two files do.

Temperatures are mathematical reals.

Facts about the code that shape the model:

- The level 2 window is the constant range 2008 to 2017 (level2.js:24-25), and the
  model uses the same constants.
- Both views emit groups in the order their keys first occur, and this is proved: the
  year-month entries of the first view, and the years and the months within each year
  of the second.
- Level 1 keys an entry by the year piece as raw date text (level1.js:198), not by a
  number.
- `d3.min`/`d3.max` of an empty table give `undefined` (level1.js:111-113,
  level2.js:199-201). The model returns `None` for them.

## Model

| member | source | states |
|---|---|---|
| Level1.Entries | level1.js:196-217 | one entry per group of the find-or-append loop, and every entry has at least one day |
| Level1.ProcessData | level1.js:192-236 | one output record per entry, in the same order, with the entry's year and month |
| Level1.EveryRowInOneEntry | level1.js:196-217 | the entries' days are exactly the rows' `{max, min}` pairs with multiplicity, so the day counts sum to the number of rows |
| Level1.EntryKeysDistinct | level1.js:205-216 | no two entries have `===`-equal (year, month) keys |
| Level1.EntriesInFirstOccurrenceOrder | level1.js:205-216 | entry `p` has the key of the `p`-th row whose key matches no earlier row; those rows are in ascending position, and a row is one of them exactly when no earlier row has a matching key |
| Level1.EntryMeansOverItsRows | level1.js:219-225 | before rounding, an entry with a numeric month has as its means the means of exactly the rows with its key; an entry with a NaN month has one day |
| Level1.ProcessDataRoundsTheMeans | level1.js:219-229 | each reported mean of an entry with a numeric month is the rounded mean over exactly the rows with that key, a multiple of 0.1, and within 0.05 of the unrounded mean; an entry with a NaN month holds one day and reports the rounded temperatures of the row that opened it |
| Strings.SplitDate | level1.js:197-199 | splitting `year-month-rest` on `-`, with dash-free year and month, gives the year and the month first, then the pieces of the rest |
| Level1.KeyOfDate | level1.js:197-199 | a date `year-month-rest` with a decimal month is keyed by the year text and the month's numeric value |
| Level1.PaddedMonthSharesEntry | level1.js:197-206 | `year-0m-…` and `year-m-…` have `===`-equal keys, so they share an entry |
| Level1.MissingMonthIsNaN | level1.js:197-206 | a date with no month piece has a NaN month that matches no key, its own included |
| Level1.SameKeyIsPartialEquivalence | level1.js:205-206 | the `===` key comparison is symmetric and transitive |
| Level1.ColourDomain | level1.js:29-35 | undefined exactly when there are no months; otherwise it bounds every month's selected mean, and both ends are attained |
| Level1.LegendSpansColourDomain | level1.js:112-141 | the legend has stops exactly when there are months; its first and last stop values are attained by months, and every stop and every month's value lies between them |
| Legend.GradientStops | level1.js:134-141 | 11 stops from `(0, lo)` to `(1, hi)` in equal steps of 1/10 in offset and (hi - lo)/10 in value |
| Legend.StopsAscend | level1.js:134-141 | over an ordered range the stop values do not decrease and stay inside the range |
| Legend.StopsLieOnLegendAxis | level1.js:127-152 | reading a stop's value through the legend axis's linear scale gives back the stop's offset |
| Legend.LegendStops | level2.js:199-237 | stops exist exactly when the range does; they start at `lo`, end at `hi`, and lie inside an ordered range |
| Level2.FilteredData | level2.js:24-37 | every kept record has a numeric year from 2008 to 2017 |
| Level2.WrittenDateOfRecord | level2.js:29-32 | writing back the parsed year, month and day of a date made of three canonical decimals gives the date itself |
| Level2.ParseDecimalDate | level2.js:28-35 | a date of three decimal pieces gives a year, month and day equal to the pieces' values, in order |
| Level2.ParseWrittenDate | level2.js:29-32 | writing `y-m-d` in decimal and reading it back gives `y`, `m` and `d` |
| Level2.FilterKeepsWindowInOrder | level2.js:24-37 | the filter keeps exactly the rows whose year is in the window, and keeps them in input order |
| Level2.SameValueZeroIsPartialEquivalence | level2.js:40 | the `d3.groups` key comparison is symmetric and transitive |
| Level2.YearGroupContents | level2.js:40 | a year group holds exactly the filtered records of its year, in order |
| Level2.MonthGroupContents | level2.js:40-47 | inside a year group, a month group holds exactly the filtered records of that year and month |
| Level2.CellsOfYear | level2.js:45-61 | one cell per month group, carrying the year and the month group's key |
| Level2.CellDataBuiltFromMembers | level2.js:40-62 | every cell sorts and averages exactly the filtered records with its year and month |
| Level2.CellFromMembers | level2.js:51-59 | a cell's days are a permutation of its records; its means are the means over its days; with numeric days they are in ascending day order and the sort is stable |
| Level2.CellDataContents | level2.js:40-62 | for every cell of `cellData`: the days are a permutation of the window's records with its key; `avgMax`/`avgMin` are the means over them and over its days; with numeric days they are sorted and stable |
| Level2.CellsFromDistinct | level2.js:43-62 | the cells of distinct year groups never share a (year, month) key |
| Level2.CellKeysDistinct | level2.js:40-62 | no two cells of `cellData` share a (year, month) key |
| Level2.MembersHaveTheKey | level2.js:51-59 | a cell holds only records of its own year and month |
| Level2.EveryRecordInItsCell | level2.js:40-62 | the cells' days are exactly the filtered records with multiplicity; every record lies in a cell, and only in the cell of its year and month |
| Level2.CellsInsideWindow | level2.js:37-57 | every cell's year is a number from 2008 to 2017 |
| Level2.YearsInFirstOccurrenceOrder | level2.js:40-45 | the year groups follow the order in which each year first occurs among the filtered records |
| Level2.MonthsInFirstOccurrenceOrder | level2.js:40 | within a year, the month groups follow the order in which each month first occurs among that year's records |
| Level2.ColourDomain | level2.js:68-74 | undefined exactly when there are no cells; otherwise it bounds every cell's selected mean, and both ends are attained |
| Level2.LegendSpansColourDomain | level2.js:199-237 | the legend has stops exactly when there are cells; its first and last values are attained by cells, and every stop and every cell's value lies between them |
| Level2.MiniChartDomain | level2.js:113-118 | every day's minimum is at least `lower + 1` and every maximum at most `upper - 1`, both attained |
| Level2.MiniChartFitsBothLines | level2.js:113-118 | when no day's minimum exceeds its maximum, both lines lie inside the domain with a degree to spare, and the domain spans at least two degrees |
| Grouping.FindGroup | level1.js:205-206 | the index of the first group whose key matches, or -1 when none does |
| Grouping.GroupBy | level1.js:196-217 | no more groups than rows, and at least one when there is a row |
| Grouping.InsertWellGrouped | level1.js:205-216 | find-or-append keeps groups non-empty, their members matching, and their keys pairwise unmatched |
| Grouping.GroupByWellGrouped | level1.js:196-217 | the grouped rows are well grouped |
| Grouping.InsertFlatten | level1.js:208-216 | find-or-append adds the row to exactly one group |
| Grouping.GroupByPartitions | level1.js:196-217 | the groups together hold exactly the input rows with multiplicity |
| Grouping.GroupByFirstOccurrence | level1.js:208-216 | group `p` has the key of the `p`-th row whose key matches no earlier row |
| Grouping.GroupByContents | level1.js:205-216 | a group whose key matches itself holds exactly the rows with a matching key, in input order; any other group holds one row |
| Sorting.InsertSorted | level2.js:59 | inserting adds exactly the one element |
| Sorting.SortBy | level2.js:59 | the result is a permutation of the input |
| Sorting.SortBySorts | level2.js:59 | with numeric days, the days of the result ascend: every earlier day is at most every later one (the numeric-order corollary of the adjacent-pair order that each insertion keeps) |
| Sorting.SortByIsStable | level2.js:59 | records with equal days keep their input order |
| Stats.MeanByPermutation | level2.js:51-52 | the mean does not depend on the order of the values |
| Stats.MeanByBounds | level1.js:222-225 | a mean lies between any lower and upper bound of its values |
| Stats.MinBy | level2.js:115 | a lower bound of the values that is attained |
| Stats.MaxBy | level2.js:116 | an upper bound of the values that is attained |
| Stats.ValueRange | level2.js:69 | undefined exactly for no values; otherwise an ordered range holding every value, with both ends attained |
| Stats.RoundToTenth | level1.js:228-229 | a multiple of 0.1 within 0.05 of its argument (half-way cases round up) |
| JsNumbers.ParseIntOfDecimal | level1.js:199 | `parseInt` of decimal digits, alone or followed by a character that is neither a digit nor `x` or `X`, is the digits' value |
| JsNumbers.ToNumberOfDecimal | level2.js:30-32 | unary `+` of a decimal string is its value |
| JsNumbers.BlankPieceParses | level2.js:30-32 | a blank or whitespace-only piece reads as 0 under unary `+` but as NaN under `parseInt` |
| JsNumbers.TextAfterDigits | level1.js:199 | for any decimal digits followed by text starting with a character that cannot continue a number, `parseInt` gives the digits' value while unary `+` gives NaN |
| Strings.JoinSplit | level1.js:197 | joining the pieces of a split gives back the string |
| Strings.SplitJoin | level2.js:29 | splitting pieces joined by a separator they lack gives back the pieces |
| Seqs.FilterIsStableSelection | level2.js:37 | `filter` keeps exactly the passing elements, in their original order |

## Left out

- Loading the CSV with `d3.csv` is asynchronous I/O. The model starts from the rows as
  text dates and real temperatures.
- `parseFloat` and unary `+` on the temperature columns are not modelled, because
  temperatures enter as reals. NaN temperatures and how `d3.mean`/`d3.min`/`d3.max`
  skip them are left out.
- Unary `+` on a date piece reads, in the model, only an optional sign followed by
  decimal digits, or a `0x`/`0o`/`0b` literal; everything else is NaN. JavaScript also
  reads a decimal point, a fraction, an exponent and `Infinity`. Some of those give a
  fraction or an infinity, which an integer JsNumber cannot hold. Others give an
  integer that the model reads as NaN: `+"2010."` and `+"2010.0"` are 2010 and
  `+"2e3"` is 2000.
- Level2.FilteredData: a row whose year piece is one of those integer-valued forms
  (a trailing point, an all-zero fraction or an exponent, as in `2010.-01-05`) passes
  the year filter in JavaScript but is dropped by the model, whose year for it is NaN.
- Floating point is not modelled: means, `Math.round(x * 10) / 10` and the stop
  arithmetic use exact reals.
- The offset's percent string (`${offset * 100}%`) and the legend's `toFixed(1)`
  tick labels are string formatting and are left out.
- d3's colour interpolators, `scaleSequential`, `scaleBand`, `scaleLinear` and
  `line` are library calls. Only the numbers handed to them are modelled: domains,
  stop values and the mini chart's y-domain. The mini chart's fixed x-domain `[1, 31]`
  is a constant and has no statable logic.
- SVG and DOM construction, axes, tooltips, mouse handlers and the buttons that switch
  `currentView` are rendering and event wiring. The view switch appears only as the
  `Metric` argument.
- The years axis (`Array.from(new Set(...)).sort()`) only orders band positions and is
  not modelled.
- Sorting.SortBySorts: ascending order is proved only when every day is a number.
  With a NaN day the comparator `a.day - b.day` is inconsistent, and the order
  JavaScript's sort produces is implementation-defined.
- Sorting.SortByIsStable: proved only when every day is a number, for the same reason.
- Level2.CellFromMembers: sortedness and stability are claimed only when every day of
  the cell is a number, for the same reason.
- Level2.CellDataContents: sortedness and stability are claimed only when every day of
  the cell is a number, for the same reason.
- Level2.MiniChartDomain: requires a non-empty list of days, because every cell has
  at least one. On an empty list d3 would give `undefined - 1`, which is NaN.
- Level2.LegendSpansColourDomain: with no cells the legend is `None`, where
  level2.js:199-237 appends 11 stops with NaN values, for the reason given for
  Legend.LegendStops below.
- Legend.LegendStops: gives no stops when there is no data to take a range from. Both
  views still append 11 stops in that case; `d3.min`/`d3.max` give `undefined`, so
  every stop value is NaN and its colour is the scale's unknown colour. The model has
  no NaN reals and stands for that legend with `None`.
- Level1.LegendSpansColourDomain: with no months the legend is `None` for the same
  reason, not 11 stops with NaN values.
- `d3.mean` is modelled only on non-empty groups, because every group has at least
  one row. On an empty list it would give `undefined`.
