# Streamflow metrics

A Dafny model of the hydrologic metric computations in `program_10.py`. The
program reads a USGS daily-values discharge file and blanks negative
discharge as a gross error. It counts missing values, clips the record to a
study period, and computes scalar metrics for each period:
- Tqmean;
- the Richards-Baker flashiness index;
- the seven-day low flow;
- the number of days above three times the median.

It then averages the per-period metric tables, over all years and by calendar
month.

All of it is pure: every operation is a Dafny function, and its properties
are postconditions and lemmas.

- A period's discharge series is a `seq<Option<real>>`, where `None` stands
  for NaN. Exact `real` arithmetic stands for float64.
- `dropna` is `Series.Valid`, `isna().sum()` is `Series.MissingCount` and a
  skip-NaN `mean()` is `Series.MeanOfValid`.
- `median()` is `Order.Median`: the middle element of the insertion-sorted
  values, or the mean of the two middle elements.
- `rolling(window=7).mean().min()` is the smallest of the seven-value window
  means, `Metrics.LowestWindowFrom`. The windows run over the values left after
  dropping missing days, not over calendar days.
- A metric that pandas would make NaN returns `None`.

Modules:
- `Options`: the Option type.
- `Series`: missing values, dropna, sums, means and threshold counts.
- `Order`: sorting and the median.
- `Metrics`: the four period metrics.
- `Loading`: `ReadData` after parsing, and `ClipData`.
- `Averages`: `GetAnnualAverages` and `GetMonthlyAverages`.

Edge cases, as the code behaves:
- On a period with no valid values, `CalcExceed3TimesMedian` compares
  every value against a NaN median. No comparison holds, so it returns 0, not a
  missing value.
- `GetMonthlyAverages` groups by the calendar months that actually occur. It
  has one row per month present: at most twelve, and exactly twelve when
  every month occurs.
- The R-B index of a constant series with at least two valid values is 0 when
  that value is non-zero (a pathlength of 0 over a non-zero denominator). For
  an all-zero series, or one with a single valid value, the denominator is 0
  and the result is missing.
- Line 47 assigns NaN to the whole row, not just to the discharge. Agency,
  site and quality of a negative-discharge day become missing too.

## Model

| member | source | states |
|---|---|---|
| Series.MissingCount | program_10.py:50 | The missing count is at most the length, and is zero exactly when every entry is present |
| Series.Valid | program_10.py:84 | dropna keeps every present value and only present values; kept plus missing equals the length |
| Series.GapClosed | program_10.py:133 | Removing a missing entry between two stretches does not change the dropped-NaN series |
| Series.MeanOfValid | program_10.py:221 | The skip-NaN mean is None exactly when every entry is missing; otherwise it is the mean of the valid values and lies between their minimum and maximum |
| Series.MeanBounds | program_10.py:87 | The mean lies between the smallest and the largest value |
| Series.CountAbove | program_10.py:90-91 | The count of values strictly above t is at most the length; it is 0 exactly when no value exceeds t and the full length exactly when all do |
| Series.CountAboveAntitone | program_10.py:156 | Raising the threshold never raises the count above it |
| Series.NotAllAboveMean | program_10.py:87-90 | Not every value lies strictly above the mean |
| Order.Sort | program_10.py:156 | The median's sort yields a sorted permutation of the values |
| Order.Median | program_10.py:156 | The median lies between the smallest and the largest value |
| Order.MedianHalves | program_10.py:156 | At most half the values lie strictly above the median, and at most half strictly below |
| Metrics.NoneAboveMeanIffConstant | program_10.py:87-91 | No value exceeds the mean exactly when all values are equal |
| Metrics.CalcTqmean | program_10.py:84-91 | Tqmean is None exactly when no value is valid; otherwise it is the count of values above the mean over the number of valid values, lies in [0, 1), and is 0 exactly for a constant series |
| Metrics.PathLength | program_10.py:112 | The pathlength is non-negative and is 0 exactly for a constant series |
| Metrics.CalcRBindex | program_10.py:109-115 | The index is pathlength over the sum of the valid values after the first. It is None exactly when that sum is 0, so always for one valid value or none. A defined index is 0 exactly for a constant series, and non-negative for non-negative discharge |
| Metrics.TailSumZero | program_10.py:115 | For non-negative discharge the sum of the valid values after the first is 0 exactly when each of them is 0 |
| Metrics.RBindexMissing | program_10.py:112-115 | For non-negative discharge the index is None exactly when every valid value after the first is 0 |
| Metrics.RBindexOfConstant | program_10.py:112-115 | At least two valid values all equal to one positive value give index 0 |
| Metrics.LowestWindowFrom | program_10.py:136 | The result is one of the window means and is at most every window mean |
| Metrics.WindowMeanBounds | program_10.py:136 | Every seven-value window mean lies between the minimum and the maximum of the valid values |
| Metrics.Calc7Q | program_10.py:133-136 | 7Q is None exactly when fewer than seven values are valid. Otherwise it is the mean of some window of seven consecutive valid values, no window has a smaller mean, and it lies between the minimum and the maximum valid value |
| Metrics.Calc7QClosesGaps | program_10.py:133-136 | A missing day between two stretches does not change 7Q: the windows run over valid values |
| Metrics.AboveMedianAtMostHalf | program_10.py:156 | For any threshold at or above the median, at most half the values exceed it |
| Metrics.MedianNonNegative | program_10.py:153-156 | Non-negative discharge has a non-negative median |
| Metrics.CalcExceed3TimesMedian | program_10.py:153-156 | The count is the number of valid values above three times the median. It is at most the number of valid values, and 0 when none is valid. For non-negative discharge it is at most half of them |
| Metrics.MultiplierAntitone | program_10.py:156 | Over a non-negative base, a smaller multiplier gives a count at least as large (the count above 2 x median is at least the count above 3 x median) |
| Loading.BlankNegative | program_10.py:47 | Length and dates are kept; rows with non-negative or missing discharge are unchanged; a negative row has every column missing; no discharge is left negative |
| Loading.BlankNegativeMissing | program_10.py:47-50 | Blanking adds exactly the number of negative rows to the missing count |
| Loading.BlankNegativeIdempotent | program_10.py:47 | Blanking twice is blanking once |
| Loading.ReadData | program_10.py:44-52 | The loaded rows are the parsed rows with negative-discharge rows blanked (BlankNegative): as many rows as parsed, no negative discharge, and date order kept for date-ordered input. Its missing count is the number of missing discharges: those parsed as missing plus the negative ones |
| Loading.NegativeDayExample | program_10.py:47-50 | Discharges -1, 2, 3 load with one missing value and a skip-NaN mean of 2.5 |
| Loading.ClipRows | program_10.py:65 | Every clipped row is a row dated in the period and every such row is kept; date order is kept for date-ordered input |
| Loading.ClipRowsCounts | program_10.py:65 | Each row dated in the period occurs in the clip as many times as in the table; every other row does not occur |
| Loading.ClipRowsAppend | program_10.py:65 | Clipping a concatenation is the concatenation of the clipped parts, so the clip keeps the table's order and multiplicity |
| Loading.ClipKeepsAll | program_10.py:65 | Clipping keeps every row when every row lies in the period |
| Loading.ClipData | program_10.py:59-69 | The clipped table's rows are ClipRows of the table: the rows from start to end inclusive, with their multiplicity, in date order. Its missing count is recomputed on those rows, and no negative discharge appears |
| Loading.ClipToOwnRange | program_10.py:65-67 | Clipping a table to its own first and last date returns it with its missing count |
| Loading.ClipLoadedToOwnRange | program_10.py:47-67 | A loaded table clipped to its own date range is the loaded table, with the same missing count |
| Loading.ClipIdempotent | program_10.py:65-67 | Clipping twice to one period is clipping once |
| Averages.GetAnnualAverages | program_10.py:221 | One mean per column. Each is the skip-NaN mean of its column: None exactly when the column is all missing, otherwise between the column's minimum and maximum present value |
| Averages.AverageOfOneRow | program_10.py:221 | Averaging a one-row table gives back that row |
| Averages.AverageOfConstantColumn | program_10.py:221 | A non-empty column whose entries all equal x averages to x |
| Averages.RowsOfMonth | program_10.py:234-237 | Every group row is the values of a row of that month, and every row of that month is in the group. The group is rectangular, no larger than the table, and non-empty exactly when the month occurs |
| Averages.RowsOfMonthAppend | program_10.py:234-237 | Grouping a concatenation is the concatenation of the groups, so each row of the month enters its group once, in table order |
| Averages.MonthsFrom | program_10.py:234-237 | The group keys from a month on are months that occur, strictly increasing, at most one per month |
| Averages.MonthsFromCovers | program_10.py:234-237 | Every month that occurs is a group key |
| Averages.MonthsFromComplete | program_10.py:234-237 | When every month from m on occurs, there are 13 - m keys |
| Averages.GetMonthlyAverages | program_10.py:228-239 | At most twelve rows, in strictly increasing month order; each row holds the skip-NaN column means of the rows of its month |
| Averages.MonthlyAveragesKeys | program_10.py:234-237 | A month has a row exactly when it occurs in the data |
| Averages.MonthlyAveragesTwelve | program_10.py:234-237 | When every calendar month occurs there are exactly twelve rows |

## Left out

- Parsing the daily-values file is not modelled: `read_csv`, the `Eqp` sentinel and date parsing (program_10.py:41-44) are file I/O and library parsing. `ReadData` starts from the parsed rows, and a sentinel is already `None`.
- Loading.ClipData: requires the rows to be in ascending date order. Label slicing of a date index needs a sorted index for dates that do not occur, and the loader's input is a dated record in order.
- `GetAnnualStatistics` and `GetMonthlyStatistics` are not modelled: the water-year and calendar-month resampling, max, median, standard deviation, coefficient of variation and skew (program_10.py:164-210). These are pandas date arithmetic and floating-point library numerics. The averaging step takes their output tables as given.
- Averages.GetMonthlyAverages: a row's month is given as a field rather than derived from a date index, and the group keys come out in calendar-month order, as `groupby` sorts them.
- Metrics.CalcRBindex: a non-zero pathlength over a zero denominator gives inf in numpy; the model folds it into `None` with NaN.
- IEEE rounding, inf and NaN arithmetic beyond "missing" are not modelled: values are exact reals.
- The `site_no` copy from row 0 and the "Median  Flow" column-name mismatch (program_10.py:171-182) belong to the statistics tables, which are not modelled.
- The `__main__` driver (program_10.py:248-324) is not modelled: station dictionaries, printing and CSV/TSV output are I/O and orchestration.
