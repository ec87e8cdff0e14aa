# Taylor-rule pipeline: data shaping, sample construction and long-run coefficients

This project models the deterministic core of a pipeline that estimates a Taylor rule for the
Brazilian central bank. It covers three groups of operations.

- **Series normalisation, merge and deviation** (`src/processing.py`):
  - the Copom-eve selection of Focus survey rows;
  - the quarterly, daily, irregular-daily and annual to monthly conversions;
  - the left-fold merge of all series on the month;
  - the deviation of expected inflation from a month-weighted blend of this and next year's target.
- **Sample construction** (`src/estimation.py`): `TaylorRuleEstimator`. It holds a panel and changes it in place. It
  - selects the inflation-deviation source;
  - lags three regressors by `lag` rows;
  - drops incomplete rows;
  - filters a year range;
  - builds a regime dummy;
  - names the three nested model specifications.
- **Long-run rescaling** (`src/analytics.py`): `estructural_params`.

The pandas objects are modelled as follows.

- A `Table` is a value. It has column names and rows; each row has a `Key` and one `Cell` per column.
- A `Key` is a timestamp `Day`, or a monthly `Period` after `to_period('M')`.
- A `Cell` is `Missing` (NaN), `Text` or `Num` over exact reals.
- A `Frame` is a DataFrame object. It is a class whose `columns` and `rows` the pipeline's functions change in place.
- Operations that change their caller's frame are methods with `modifies` clauses. Each is proved against a specification function on tables.
- Pure computations are functions, with lemmas that state what the pipeline promises of them.

Modules:

- `Calendar`: Gregorian days and monthly periods.
- `Common`: Option/Result types and mask selection.
- `Frames`: tables, frames, column assignment and number parsing.
- `Series`: interpolate, ffill, shift and pct_change.
- `Resample`: month bins with asfreq, last and mean; date sort.
- `EveFilter`, `Normalize`, `AnnualTarget`, `Merge`, `Deviation`: the pipeline steps of `src/processing.py`.
- `Estimation`: `src/estimation.py`.
- `Analytics`: `src/analytics.py`.

## Behaviour worth noting

Each item below is something the code does where a reader might expect otherwise. The model follows the code.

- **Eve fallback.** One might expect later offsets to be retried per meeting. The code chooses one offset for all meetings together. Once any row sits one day before any meeting, no other offset is tried (`EveFilter.FallbackIsGlobal`). Offset 1 is tried twice. When nothing matches up to 7 days back, the result is empty and nothing is signalled.
- **Next year's target.** One might expect the target of the same calendar month of the next year. The code takes `groupby('mes').shift(-1)`, which is the next row *in the same calendar month*. That row is twelve rows on only for an unbroken monthly panel (`Deviation.TargetNextContiguous`).
- **Tolerance band.** One might expect the interval width to be forward-filled along with the target. The code forward-fills only the target. The band therefore exists only on rows that came from a yearly row (`AnnualTarget.AnnualBandOnlyJanuary`), and the monthly series ends at January of the last year (`AnnualTarget.AnnualSpan`).
- **alpha1 = 1.** One might expect an error here. The code divides without a guard. The model makes `alpha1 != 1` a precondition instead of inventing an error path.
- **Ownership of frames.** One might expect no stage to change a frame it did not produce. Several code paths change the caller's frame in place:
  - the resample functions relabel and parse the caller's columns;
  - `merge_datasets` rewrites every input's `Date`;
  - `filter_expected_inflation_dates` relabels the survey.

  The methods' `modifies` clauses and postconditions state this. `calculate_deviation_from_target` and the estimator's constructor do copy.
- **Shared column names.** One might expect two merged frames that share a value-column name to keep one copy. pandas keeps both, suffixed `_x`/`_y` (the model keeps both names unsuffixed; see "Left out"). A frame listed twice is never merged with itself: its second period conversion raises first (`Merge.Convertible`). A month repeated on the right repeats the left row (`Merge.LeftJoinRepeatsOnDuplicates`).
- **Empty results.** One might expect every empty input to raise. The code raises for an empty year range, an unknown source, a failing dummy window and an empty list of frames to merge (`reduce` with no initial value). Other empty inputs flow through as empty frames; for example, a survey with no row near any meeting gives an empty selection.
- **Extrapolation.** One might expect quarterly interpolation to leave a trailing gap alone. pandas fills it with the last value (`Series.InterpolateTrailingGap`). Inside the asfreq span such a gap arises when the last quarter's value is missing or does not parse, or when the last key is not on day 1.

## Model

| member | source | states |
|---|---|---|
| Calendar.PrevDay | src/processing.py:17 | the day before a day is earlier, and the next day after it is the day itself |
| Calendar.DaysBefore | src/processing.py:26 | moving back 0 days is the identity; moving back k > 0 days gives a strictly earlier day |
| Calendar.DaysBeforeThenAfter | src/processing.py:26 | going back k days and forward k days returns the starting day |
| Calendar.DaysBeforeStrict | src/processing.py:23-27 | a larger offset reaches a strictly earlier day, so distinct offsets select distinct eves |
| Calendar.PeriodFields | src/processing.py:179-180 | the period of (year, month) has that year and that calendar month |
| Calendar.MonthStart | src/processing.py:44 | the 'MS' timestamp of a period is day 1 of that period's year and month |
| Calendar.MonthEnd | src/processing.py:63 | the 'ME' timestamp of a period is the last day of that month |
| Calendar.MonthStartOfDay | src/processing.py:63 | every day lies between its month's start and end |
| Common.Keep | src/estimation.py:31 | mask selection keeps exactly the elements satisfying the mask, with their multiplicities, as a subsequence |
| Common.KeepAll | src/estimation.py:31 | a mask every element satisfies keeps the whole sequence |
| Common.KeepNone | src/estimation.py:31 | a mask no element satisfies keeps nothing |
| Common.KeepSkipsPrefix | src/estimation.py:31 | if the first n elements fail the mask, at most len - n are kept |
| Common.KeepKeep | src/estimation.py:31 | selecting twice equals selecting once with the conjunction |
| Common.KeepSplit | src/estimation.py:57 | two exclusive masks whose union is a third split the third's selection size |
| Frames.ToPeriod | src/processing.py:161 | `to_period('M')` on a timestamp gives a period in the same month |
| Frames.CalendarMonthOfKey | src/processing.py:180 | `.dt.month` lies in 1..12 |
| Frames.WithColumn | src/processing.py:179-183 | `df[name] = v` reads back v; keys and every other column are unchanged; a new name is appended last |
| Frames.Renamed | src/processing.py:19 | relabelling a column position changes that name only and no cell |
| Frames.MapColumnAt | src/processing.py:42 | a whole-column conversion changes exactly that column, cell by cell |
| Frames.ToNumeric | src/processing.py:42 | `to_numeric(errors='coerce')` leaves no text, keeps numbers and keeps missing cells missing |
| Frames.ReplaceChar | src/processing.py:61 | each occurrence of the character is replaced and no other character changes |
| Frames.CommaToDot | src/processing.py:61 | `.str.replace(',', '.')` rewrites text cells and gives NaN for non-text cells |
| Frames.ParseCommaDecimal | src/processing.py:61-62 | a comma-decimal cell parses to a number or to missing, never text |
| Frames.CommaDecimalExample | src/processing.py:61-62 | "13,75" parses to 13.75 |
| Frames.NotANumberExample | src/processing.py:62 | unparsable text such as "n/d" becomes missing |
| Series.Interpolate | src/processing.py:45 | linear interpolation keeps the column length |
| Series.InterpolateKeepsKnown | src/processing.py:45 | an existing number is never changed |
| Series.InterpolateBetween | src/processing.py:45 | strictly between consecutive numbers at a < b, position i gets v_a + (v_b - v_a)(i - a)/(b - a), by position not by time |
| Series.InterpolateLeadingGap | src/processing.py:45 | a gap before the first number stays missing |
| Series.InterpolateTrailingGap | src/processing.py:45 | a gap after the last number holds that number |
| Series.InterpolateNoGapAfterFirst | src/processing.py:45 | from the first number on, no cell is missing |
| Series.ForwardFill | src/processing.py:130 | forward fill keeps the column length |
| Series.ForwardFillCarries | src/processing.py:130 | a number is carried to every later cell up to the next number |
| Series.ForwardFillGaps | src/processing.py:130 | only gaps change; nothing before the first number is filled; a cell after a number is filled |
| Series.Shift | src/estimation.py:27-30 | `shift(lag)` puts row i - lag at row i, and rows with no source row are missing |
| Series.PctChange | src/processing.py:84 | pct_change keeps the column length |
| Series.PctChangeInverse | src/processing.py:84 | a present change p recovers the value as prev * (1 + p/100) from a non-zero predecessor |
| Series.PctChangeMissing | src/processing.py:84 | the change is missing exactly for the first row, a missing value, a missing predecessor or a zero predecessor |
| Resample.FirstMonth | src/processing.py:44 | the first bin is the month of the earliest key |
| Resample.LastMonth | src/processing.py:44 | the last bin is the month of the latest key |
| Resample.Months | src/processing.py:44 | the bins are every month from first to last, contiguous and in order, and every row falls in one |
| Resample.MonthInBins | src/processing.py:63 | each row's month is a bin, at position month - first month |
| Resample.AsFreq | src/processing.py:44 | `resample('MS').asfreq()` has one month-start row per bin and the same columns |
| Resample.AsFreqEnds | src/processing.py:44 | the bins run from the first key's month start to the last key's month start |
| Resample.AsFreqKeepsMonthStart | src/processing.py:44 | a row dated on day 1 reappears unchanged in its bin |
| Resample.AsFreqGap | src/processing.py:44 | a bin with no row on its first day holds only missing values |
| Resample.LastValid | src/processing.py:63 | it finds the chronologically last row of the month with a value, or reports that none has one |
| Resample.LastPerMonth | src/processing.py:63 | `resample('ME').last()` has one month-end row per bin and the same columns |
| Resample.LastPerMonthSpec | src/processing.py:63 | a month's cell is missing iff no row of the month has a value; otherwise it is the value of the month's chronologically last row that has one |
| Resample.LastPerMonthSorted | src/processing.py:63 | on date-ordered rows, a month's cell is the value of its latest row with a value |
| Resample.MeanPerMonth | src/processing.py:83 | `resample('ME').mean()` has one month-end row per bin and the same columns |
| Resample.MeanPerMonthSpec | src/processing.py:83 | a monthly mean is missing iff the month has no number, and otherwise lies within any bounds of the month's numbers |
| Resample.MeanIn | src/processing.py:83 | a bin's mean is a number or missing, and a number times the count of numbers in the bin is their sum |
| Resample.MeanInSpec | src/processing.py:83 | the same statement for one month and column, on the rows |
| Resample.MonthSumBounds | src/processing.py:83 | a sum of c numbers in [lo, hi] lies in [c * lo, c * hi] |
| Resample.MonthCountZero | src/processing.py:83 | the count of a month is 0 iff the month has no number |
| Resample.InsertByKey | src/processing.py:82 | inserting into date-ordered rows keeps them ordered and adds exactly that row |
| Resample.SortByKey | src/processing.py:82 | `sort_index()` gives date-ordered rows that are a permutation of the input |
| EveFilter.EveDates | src/processing.py:17 | each meeting date moved back k days, one per meeting |
| EveFilter.AtOffset | src/processing.py:21-27 | the selection at offset k is no longer than the input and holds only rows dated k days before some meeting |
| EveFilter.AtOffsetSpec | src/processing.py:21 | the selection at offset k is the boolean-mask selection of the rows dated k days before some meeting: exactly those rows, each as often as it occurs, in input order |
| EveFilter.SearchFrom | src/processing.py:23-27 | the search from offset k keeps no more rows than given, each on an eve at the offset the search settles on |
| EveFilter.EveSearch | src/processing.py:21-27 | the eve filter keeps no more rows than given, each on an eve at the offset the search settles on |
| EveFilter.SearchFromHit | src/processing.py:23-27 | the search returns the selection of the first offset with a match, after every earlier offset matched nothing, or nothing if no offset up to 7 matches |
| EveFilter.EveSearchSpec | src/processing.py:21-27 | the result is empty iff every offset 1..7 selects nothing; otherwise it is the selection of the smallest matching offset |
| EveFilter.EveSearchSelects | src/processing.py:21-27 | every kept row is an input row on an eve at some offset 1..7, and the kept rows keep input order |
| EveFilter.EveSearchOneDay | src/processing.py:17-21 | if any row sits one day before some meeting, the result is exactly the day-before rows |
| EveFilter.FallbackIsGlobal | src/processing.py:21-27 | once any meeting has a day-before row, a row not on a day-before eve is dropped even if it is near another meeting |
| EveFilter.EveExampleOneAndNine | src/processing.py:17-21 | rows one and nine days before a meeting: only the first is kept |
| EveFilter.EveExampleFiveDays | src/processing.py:23-27 | a lone row five days before a meeting is kept by the fallback |
| EveFilter.FilterExpectedInflationDates | src/processing.py:15-32 | the survey is relabelled in place with rows unchanged, and a new frame holds the eve selection |
| Normalize.NumericColumn | src/processing.py:42 | the converted column holds no text; keys and columns are unchanged |
| Normalize.RelabelAndParse | src/processing.py:58-62 | the first value column is relabelled and every cell parsed as a comma decimal; keys are unchanged |
| Normalize.QuarterlyToMonthly | src/processing.py:43-47 | month-start rows of the asfreq grid, the column linearly interpolated, the first value column relabelled |
| Normalize.QuarterlyKeepsKnown | src/processing.py:44-45 | a quarter dated on day 1 with a number keeps that number at its month |
| Normalize.QuarterlyBetween | src/processing.py:44-45 | a month between two known months lies on the line through them, counted in months |
| Normalize.InterpolateQuarterlyData | src/processing.py:36-50 | the caller's column is converted to numbers in place; the result is the interpolated monthly frame |
| Normalize.ResampleDailyToMonthly | src/processing.py:52-67 | the caller's frame is relabelled and parsed in place; the result holds each month's last present value |
| Normalize.DailyMonthEnd | src/processing.py:59-63 | with days in date order, a month's rate is the parsed rate of its latest day that parses |
| Normalize.DailyMonthMissing | src/processing.py:61-63 | a month none of whose days parses has a missing rate |
| Normalize.ExchangeMonthly | src/processing.py:83-84 | the monthly frame has one row per month and the variation column |
| Normalize.ExchangeColumns | src/processing.py:83-84 | `exchange_rate` holds the monthly means and `exchange_rate_var` their percentage change |
| Normalize.VariationAt | src/processing.py:84 | var[i] = (m[i]/m[i-1] - 1) * 100, missing for the first month, a missing mean or a zero predecessor |
| Normalize.MeansKept | src/processing.py:84 | adding the variation keeps the means column |
| Normalize.ProcessExchangeRateData | src/processing.py:69-89 | the caller's frame is relabelled, parsed and date-sorted in place (same rows); the result is the monthly means and variation |
| Normalize.ProcessInflation | src/processing.py:138-150 | the caller's frame is relabelled and parsed in place and is itself returned |
| AnnualTarget.RenameColumns | src/processing.py:121 | rename by name: each column named in the map takes the mapped name |
| AnnualTarget.RenameTargetColumns | src/processing.py:121 | distinct first two value columns become `inflation_target` and `interval_size` |
| AnnualTarget.NumericCells | src/processing.py:126-127 | cellwise `to_numeric(errors='coerce')` |
| AnnualTarget.Combine | src/processing.py:131-132 | target ± interval is present only where both are numbers |
| AnnualTarget.AnnualGrid | src/processing.py:124-127 | the asfreq grid with target and interval converted to numbers, other columns kept |
| AnnualTarget.WithBand | src/processing.py:130-132 | the target is forward-filled, the interval is not, and upper/lower are filled target ± interval |
| AnnualTarget.AnnualToMonthly | src/processing.py:124-132 | the monthly target frame is keyed like the asfreq grid |
| AnnualTarget.ResampleAnnualyToMonthly | src/processing.py:114-136 | the caller's columns are renamed in place; the result is the monthly target frame |
| AnnualTarget.AnnualBand | src/processing.py:131-132 | on each row the band is present iff target and interval are, and then equals target ± interval |
| AnnualTarget.NonJanuaryGap | src/processing.py:124 | with yearly rows on 1 January, a non-January bin is all missing |
| AnnualTarget.AnnualBandOnlyJanuary | src/processing.py:124-132 | months other than January have no interval and no band |
| AnnualTarget.AnnualSpan | src/processing.py:122-124 | the monthly frame has 12 rows per year plus one, from 1 January of the first year to 1 January of the last |
| AnnualTarget.GridSpan | src/processing.py:124 | the same span for any table keyed like the grid |
| AnnualTarget.YearEnds | src/processing.py:122 | the first and last bins are the Januaries of the first and last years |
| AnnualTarget.AnnualTargetCarried | src/processing.py:124-130 | every month of a year holds that year's target when it reads as a number |
| AnnualTarget.GridTargetCarried | src/processing.py:126-130 | the same on the grid before the band is added |
| AnnualTarget.GridJanuaryCell | src/processing.py:124 | the January bin of a row's year holds that row's target cell |
| AnnualTarget.GridGaps | src/processing.py:124 | the bins after a January, up to a given bin of the same year, are missing |
| AnnualTarget.GridDate | src/processing.py:124 | bin p is the first of month p % 12 + 1, p / 12 years after the first year |
| AnnualTarget.CarriedNumber | src/processing.py:126-130 | after conversion, forward fill carries a number across a run of missing cells |
| Merge.PeriodRows | src/processing.py:160-161 | every timestamp key becomes its monthly period; cells unchanged |
| Merge.PeriodRowsNotDated | src/processing.py:160-161 | a converted column holds timestamps again only when it is empty, so a second pass over a non-empty frame meets periods |
| Merge.Matches | src/processing.py:162 | the right rows matching a month are exactly those with that key |
| Merge.JoinOne | src/processing.py:162 | a left row always yields at least one output row |
| Merge.LeftJoin | src/processing.py:162 | the merged columns are the left's followed by the right's |
| Merge.JoinRowsKeepsLeft | src/processing.py:162 | a left merge drops no left row and invents no key |
| Merge.MatchesUnique | src/processing.py:162 | with unique right keys, a month has no match or exactly the right row holding it |
| Merge.MatchesNone | src/processing.py:162 | a month absent on the right has no match |
| Merge.JoinOneUnique | src/processing.py:162 | with unique right keys, a left row becomes exactly one row: its cells then the match's cells, or missing cells |
| Merge.JoinRowsLength | src/processing.py:162 | with unique right keys, the merge has as many rows as the left |
| Merge.JoinRowsAt | src/processing.py:162 | with unique right keys, row i of the merge is left row i followed by its lookup |
| Merge.JoinRowsUnique | src/processing.py:162 | with unique right keys, each left row yields one row: its cells then the match's cells |
| Merge.LeftJoinUnique | src/processing.py:162 | with unique right keys: same row count and key order as the left, left cells unchanged, matched right cells, missing cells when unmatched |
| Merge.LeftJoinRepeatsOnDuplicates | src/processing.py:162 | a month held by two right rows repeats the left row once per match |
| Merge.MergeAll | src/processing.py:162 | the left fold yields a well-formed table |
| Merge.MergeAllAnchored | src/processing.py:162 | with unique later keys, the panel has the first frame's rows, key order and leading cells, and every frame's columns in list order |
| Merge.ConvertOne | src/processing.py:160-161 | one pass converts one timestamp frame and keeps the loop's progress: frames met so far hold periods, a frame met twice was empty, frames not yet met are unchanged |
| Merge.StuckMeansNotConvertible | src/processing.py:160-161 | a pass that meets a column not all timestamps shows the loop cannot run through |
| Merge.ConvertToPeriods | src/processing.py:160-161 | the loop runs through iff every frame holds timestamps and a frame listed twice is empty; then every frame's keys become periods in place; otherwise it stops at the first frame whose column is not all timestamps, with the frames before it converted and the frames not yet met unchanged |
| Merge.FoldMerge | src/processing.py:162 | the loop builds a new frame equal to the left fold of the frames |
| Merge.MergeDatasets | src/processing.py:153-167 | it fails, naming the frame where `to_period` raised, exactly when the conversion loop cannot run through; otherwise the callers' frames are converted in place, the result is the left fold, and a single frame is returned as itself |
| Deviation.Years | src/processing.py:179 | `ano` holds each row's year |
| Deviation.Months | src/processing.py:180 | `mes` holds each row's calendar month |
| Deviation.WithCalendar | src/processing.py:179-180 | `ano` and `mes` are added; keys and every other column are kept |
| Deviation.NextSameMonth | src/processing.py:181 | the row found is the nearest later row in the same calendar month; finding none means no later row shares it |
| Deviation.NextSameMonthFrom | src/processing.py:181 | it finds the first later row with the same calendar month, or reports that none exists |
| Deviation.TargetNext | src/processing.py:181 | `inflation_target_next` has one cell per row |
| Deviation.TargetNextSpec | src/processing.py:181 | target_next[i] is the target of the nearest later row in row i's calendar month, and missing if there is none |
| Deviation.TargetNextContiguous | src/processing.py:181 | on an unbroken monthly panel, target_next[i] is the target twelve rows on, or missing in the last year |
| Deviation.Deviations | src/processing.py:182-183 | each row's deviation is the blend at that row's calendar month |
| Deviation.CalculateDeviation | src/processing.py:178-183 | on a copy: keys and unwritten columns are unchanged, and the five new columns hold year, month, next target and both deviations |
| Deviation.Blend | src/processing.py:182-183 | a deviation is present iff expectation, target and next target are all numbers, and is then the expectation minus ((12-m)/12 target + m/12 next target); otherwise it is missing |
| Deviation.BlendWeightedTarget | src/processing.py:182-183 | the deviation is expectation minus ((12-m)/12 target + m/12 next target) |
| Deviation.BlendSameTarget | src/processing.py:182 | with an unchanged target the deviation is e - t in every month |
| Deviation.BlendDecember | src/processing.py:182 | in December the deviation is e - target_next |
| Deviation.BlendJuneExample | src/processing.py:182 | June, 5.0, 4.0, 3.5 gives 1.25 |
| Deviation.DeviationAt | src/processing.py:182-183 | a row's deviation: present iff its operands are, then the weighted formula |
| Estimation.SourceOf | src/estimation.py:18-24 | 'market' reads the Focus deviation, 'bc' the central bank's, and any other source is refused |
| Estimation.WithSource | src/estimation.py:20-22 | `inf_dev` copies the chosen column; every other column is unchanged |
| Estimation.LagColumns | src/estimation.py:27-30 | the three lag columns are their regressors shifted by `lag`; every other column, `inf_dev` included, is unchanged |
| Estimation.LagPositional | src/estimation.py:27-30 | lagged row i is row i - lag, and the first `lag` rows are missing |
| Estimation.InfDevNotLagged | src/estimation.py:28 | `inf_dev` is not shifted |
| Estimation.DropIncomplete | src/estimation.py:31 | the kept rows are exactly those with the three lags and `inf_dev` present, each as often as it occurs, in order, unchanged |
| Estimation.Lagged | src/estimation.py:26-31 | the lagged sample still has the regressor columns |
| Estimation.LaggedSample | src/estimation.py:31 | the sample is exactly the complete lagged rows, as a subsequence, after the lag |
| Estimation.CompleteNeedsLag | src/estimation.py:31 | a row with a missing lagged output gap is dropped |
| Estimation.LaggedShrinks | src/estimation.py:27-31 | a lag of L drops at least the first L rows |
| Estimation.RepeatedLagShrinks | src/estimation.py:35-36 | a second estimation on the same estimator copies the source column again and lags the lagged sample: at least 2L rows fewer than the original, none when 2L exceeds its rows |
| Estimation.YearRange | src/estimation.py:57 | the kept rows are exactly those with start <= ano <= end, each as often as it occurs, in order |
| Estimation.YearSplitsRow | src/estimation.py:57 | a whole year lies in [a, c] iff in exactly one of [a, b] and [b+1, c] |
| Estimation.YearRangesPartition | src/estimation.py:57 | adjacent year ranges partition the rows of their union |
| Estimation.Dummies | src/estimation.py:94 | the dummy is 1 iff the month is inside the window, both ends included, else 0 |
| Estimation.AddDummy | src/estimation.py:86-97 | any bound that does not parse, or a non-period key, gives the dummy error; otherwise `dummy_var` holds the window indicator and keys and every other column are unchanged |
| Estimation.NaiveSpecs | src/estimation.py:39-45 | three specifications, all with response `selic_target` |
| Estimation.FinerSpecs | src/estimation.py:100-106 | three finer specifications |
| Estimation.SpecsNested | src/estimation.py:39-45 | II = I + output-gap lag, III = II + exchange lag, all with the rate lag and `inf_dev`; each finer spec adds exactly `dummy_var:inf_dev` |
| Estimation.RangeEstimation | src/estimation.py:57-70 | an empty year selection is the range error; otherwise models I-III on the selection |
| Estimation.FinerEstimation | src/estimation.py:81-107 | an empty selection gives the empty-range error; a non-empty one gives the dummy error exactly when the dummy step fails; otherwise the finer models on the selection with the dummy added and every other column as selected |
| Estimation.FinerDummy | src/estimation.py:94 | the finer sample's dummy is 1 exactly on the window's months |
| Estimation.TaylorRuleEstimator.constructor | src/estimation.py:10-16 | the estimator holds a copy of the panel, the source and the lag; by default the market source and a one-month lag |
| Estimation.TaylorRuleEstimator.SourceColumn | src/estimation.py:18-24 | `inf_dev` is set from the chosen source in place, or the source error with no change |
| Estimation.TaylorRuleEstimator.ApplyLag | src/estimation.py:26-31 | `data` becomes the lagged, listwise-deleted sample |
| Estimation.TaylorRuleEstimator.Prepare | src/estimation.py:35-36 | source selection then lagging, or the source error with `data` unchanged |
| Estimation.TaylorRuleEstimator.EstimateNaive | src/estimation.py:33-46 | `data` is prepared in place and models I-III are returned on it |
| Estimation.TaylorRuleEstimator.EstimateRange | src/estimation.py:48-70 | `data` is prepared in place, then the year-range estimation on it |
| Estimation.TaylorRuleEstimator.EstimateFiner | src/estimation.py:72-107 | `data` is prepared in place, then the finer estimation on it |
| Estimation.TaylorRuleEstimator.FitModels | src/estimation.py:109-113 | given models are used as they are; none given means `estimate_naive` |
| Analytics.CoefficientOr0 | src/analytics.py:16-17 | `params.get(name, 0)` |
| Analytics.StructuralParams | src/analytics.py:12-18 | alpha1 is the raw rate-lag coefficient; alpha2..4 times (1 - alpha1) give the raw coefficients; absent regressors give 0 |
| Analytics.StructuralRatios | src/analytics.py:15-17 | alpha3/alpha2 and alpha4/alpha2 equal the raw coefficient ratios |
| Analytics.ModelIResponses | src/analytics.py:16-17 | for model I's parameters, alpha3 and alpha4 are 0 |
| Analytics.StructuralExample | src/analytics.py:14-15 | alpha1 0.5 and raw 0.3 give alpha2 0.6 |

## Left out

- CSV writes (`load_data`), `print` calls and every file or network read: they are I/O.
- `hp_filter_output`, the OLS fits with HAC covariance, the Breusch–Godfrey test, `t_test` and the summary text: they are foreign numerical routines. Models are represented by their regressor lists only.
- Date parsing (`pd.to_datetime` with its formats, `dayfirst`, `errors='coerce'` giving NaT) is not modelled. Keys arrive already parsed, so rows with unparsable dates are not modelled.
- Estimation.AddDummy: `pd.Period('MM-YYYY')` parsing is represented by an already-parsed optional month per bound. The dtype guard at src/estimation.py:90 never fires; keys are compared as months.
- Floating point is modelled as exact reals, so IEEE rounding, inf and NaN are not modelled.
- Series.PctChange: a zero predecessor gives a missing change, where pandas gives ±inf.
- Analytics.StructuralParams: `alpha1 != 1` is a precondition, because the code divides unguarded and pandas would yield inf/NaN.
- Analytics.StructuralParams: the two coefficients it indexes must be present, because a missing one raises KeyError.
- Missing columns are preconditions rather than an error path. A column that is absent raises KeyError in pandas. This covers `Ready`, the `ano` column for the range methods, and the inputs of `CalculateDeviation`.
- AnnualTarget.ResampleAnnualyToMonthly: the first two value columns must have different names. With equal names both become `interval_size` and the following lookup raises KeyError.
- AnnualTarget.ResampleAnnualyToMonthly: keys must be unique timestamps, because a repeated year makes `resample('MS').asfreq()` raise ValueError (src/processing.py:124, outside the `try`). The model does not give that error path.
- AnnualTarget.ResampleAnnualyToMonthly: the `try`/`except` around the conversions is not modelled, because `errors='coerce'` does not raise.
- Normalize.InterpolateQuarterlyData: keys must be unique timestamps, because `asfreq` raises on a duplicated index.
- Normalize.ResampleDailyToMonthly: the `column` argument is not used by the code, and likewise not by the model.
- Merge.LeftJoin: clashing non-key column names are concatenated as they are. pandas suffixes them `_x`/`_y`.
- Merge.MergeDatasets: at least one frame is required, because `reduce` on an empty list raises.
- Merge.MergeDatasets: the dtype of an empty `Date` column is not tracked. An empty frame listed twice converts silently in the model; pandas raises on its second pass, because the column is already a period column.
- Frames.ToNumeric: only an optionally signed decimal (`12`, `-1.5`, `.5`, `3.`) parses. pandas `to_numeric` also accepts exponents (`1e3`), surrounding whitespace and `inf`/`nan`; the model makes such text missing.
- Frames.CommaToDot: a column holding no text at all (all numbers or all NaN) makes `.str.replace` raise AttributeError in pandas. The model gives it all missing cells. The columns it is applied to are read from CSV files as text.
- Deviation.Blend: a text operand raises TypeError in pandas; the model gives a missing deviation. `focus_expected_inflation` is not converted with `to_numeric`, so text there would raise.
- Series.ForwardFill: a text cell counts as a gap and is overwritten, where pandas carries any non-missing value. Its only caller fills a column already converted with `to_numeric`.
- Resample.SortByKey: the model states only that the result is date-ordered and a permutation. pandas' default sort is not stable, so the order of rows with equal dates is not modelled.
- Resample.MeanPerMonth: text cells are ignored by the mean. Only parsed columns are averaged in the pipeline.
- The fixed frame order of the merge at src/pipeline.py:236-244 is taken as the order of the `dfs` argument. The orchestration in src/pipeline.py is not part of this model.
