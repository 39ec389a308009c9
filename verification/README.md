# Hourly electricity generation forecasting, modelled in Dafny

The system ingests hourly German electricity generation data. It then trains
a gradient-boosted regressor on lag, rolling and calendar features and
forecasts the coming hours. Every forecast is compared with a seasonal-naive
baseline, which repeats the value seen one week earlier. This project models
the system's forecasting engine and the ingestion script that feeds it.

- **Hourly series** (`hourly.dfy`, module `Hourly`): what a series becomes
  after `asfreq("h")`.
  - It is a first hour plus a dense sequence of hourly slots.
  - A gap is an explicit missing slot.
  - Timestamps are integer hour offsets.
  - The module also holds the failures the scripts raise, as a `Result`.
- **Reductions** (`stats.dfy`, module `Stats`): the mean, the sample variance
  and the mean absolute error, on exact reals.
- **Features** (`features.dfy`, module `Features`), from
  `training/features.py`:
  - `make_supervised` (lag columns, rolling statistics over the hours before
    each row, `dropna`) becomes `MakeSupervised`.
  - `make_features_at`, which builds the single feature row for a future hour,
    becomes `MakeFeaturesAt`.
  - The lemmas state:
    - which hours the table keeps;
    - what each lag and rolling mean holds;
    - that the point builder never looks ahead;
    - when the two builders agree, and where they diverge.
- **Baseline** (`baselines.dfy`, module `Baselines`): `seasonal_naive_forecast`.
  - It looks up the value one season earlier for each hour.
  - It forward-fills the misses, then falls back to the last observed value.
  - The method with its loop is proved equal to the function `NaiveForecast`.
  - Lemmas state what every position of that function's result holds.
- **Recursive forecaster** (`forecast.dfy`, module `Forecasting`):
  `forecast_horizon`.
  - A `WorkingSeries` object is the working copy of the history.
  - Each prediction is written back into it (`SetNext`).
  - The loop in `ForecastHorizon` is proved equal to a rollout function. That
    function states:
    - prediction `k` is the model applied to the features of the history
      extended by predictions `0 .. k-1`;
    - the baseline column is the caller's own series' baseline.
- **Baseline evaluation** (`run_baseline.dfy`, module `RunBaseline`), from
  `training/run_baseline.py`:
  - the second copy of the baseline;
  - the 336-point guard;
  - the last-week split;
  - the holdout error.
- **Training** (`train_model.py`, module `TrainModel`, in `train_model.dfy`):
  - the holdout split of the supervised table;
  - fitting, with the regressor as the parameter `fit`;
  - the two holdout errors, `improvement_pct` and the metadata record;
  - how the baseline's hours line up with the holdout rows.
- **Ingestion** (`data_process.dfy`, module `DataProcess`), from
  `data_proccess.py`:
  - the German-format cell normalisation (strip, delete every `.`, turn `,`
    into `.`);
  - the "not available" markers and the coercing numeric conversion;
  - the choice of the `[MWh]` columns;
  - the per-row total;
  - the ordering by timestamp.
  - `main` is the class `Table`. Its methods replace or add columns in place.

Calendar encodings (sine and cosine of hour and weekday, the month) and the
square root in the standard deviation are floating-point library work. They
are the parameters `Features.Externals`. The fitted model is a function from
a feature row to a real.

### Behaviour worth knowing

- **Training on too few rows.** Training needs more than 168 supervised rows.
  - A gap-free series of exactly 336 hours yields 168 rows (hours 168 to 335).
  - That leaves the training part empty, and fitting on no rows raises
    (`training/train_model.py:27-31`).
  - `TrainModel.TrainingFailure` states this: failure at 168 rows or fewer.
- **Gaps and the holdout.** `training/train_model.py:35` compares the holdout
  rows with a baseline for the last 168 hours of the series. When the series
  has gaps, these can be different hours.
  - `TrainModel.HoldoutAligned` proves they line up when the last two weeks
    are observed.
  - `TrainModel.BaselineErrorAgrees` proves that, in that case, the training
    script's baseline error equals the evaluation script's.

## Model

| member | source | states |
|---|---|---|
| Hourly.Present | training/features.py:45-47 | the present values in order, as skip-NA reductions see them; empty exactly when nothing is present; all values when nothing is missing |
| Hourly.LastObservedIn | training/baselines.py:36 | `dropna().iloc[-1]`: missing exactly when no entry is present, otherwise a present entry with only missing entries after it |
| Hourly.LastObservedAt | training/baselines.py:36 | a present entry followed only by missing entries is the last observed value |
| Hourly.LastObservedSkipsMissing | training/baselines.py:34-36 | missing entries after a position do not change the last observed value |
| Hourly.Series.At | training/baselines.py:27 | `series.get(t, nan)` is present only for hours inside the index |
| Hourly.Series.Append | training/forecast.py:26 | `s.loc[ts] = v` at the next hour: the index grows by exactly that hour, which holds `v`, and every other hour keeps its value |
| Hourly.Series.Extend | training/forecast.py:22-26 | extending by `n` predictions keeps the first hour and moves the end by `n` hours |
| Hourly.Series.ExtendAt | training/forecast.py:22-26 | the extended series keeps every earlier hour and holds prediction `k` at the `k`-th new hour |
| Hourly.Series.ExtendAppend | training/forecast.py:26 | extending by one more prediction is appending it |
| Hourly.Series.SplitLast | training/run_baseline.py:29-30 | `iloc[:-n]` followed by `iloc[-n:]` is the whole series in order, and when it is longer than `n` the last `n` slots start at the hour where the rest ends |
| Hourly.Series.Before | training/features.py:45-47 | `s.loc[:ts - 1h]`: the same value at every hour before `ts`, nothing from `ts` on |
| Stats.MeanAbsoluteError | training/run_baseline.py:34 | `mean_absolute_error` is non-negative and zero exactly when the two sequences are equal |
| Features.DropColumn | training/train_model.py:23 | `drop(columns=[name])` keeps every other column and no column `name` |
| Features.FeatureColumnsAgree | training/features.py:41-51 | the supervised table's columns without `y` are the point builder's keys, in the same order |
| Features.WindowPresent | training/features.py:27-29 | a rolling window is complete exactly when all of its `n` hours are present |
| Features.KeptIff | training/features.py:32 | `dropna` keeps an hour exactly when it and the 168 hours before it are present |
| Features.Collect | training/features.py:32 | every collected row lies in the scanned range and is the sample kept for its hour |
| Features.CollectComplete | training/features.py:32 | every hour with a kept sample has a row |
| Features.CollectAscending | training/features.py:19 | the collected rows are in strictly ascending hour order |
| Features.SupervisedRow | training/features.py:19-32 | each table row holds its hour's target and pre-`dropna` features, lies inside the series and after its first 168 hours, with those 168 hours present |
| Features.SupervisedAscending | training/features.py:19 | the supervised table is in strictly ascending hour order |
| Features.SupervisedHours | training/features.py:32 | an hour has a row exactly when it is inside the series with itself and its 168 predecessors present |
| Features.SupervisedLags | training/features.py:23-25 | each row's `lag_k` is the series value exactly `k` hours earlier, for `k` in 1, 24, 168, and is present |
| Features.SupervisedRollingMeans | training/features.py:27-29 | each row's rolling means are the means of the 24 and 168 hours strictly before it, and its rolling std is that of the 24 hours before it |
| Features.MakeSupervised | training/features.py:15-32 | `make_supervised`; its rows are characterised by `Features.SupervisedRow`, `SupervisedHours`, `SupervisedLags`, `SupervisedRollingMeans` and `SupervisedAscending` |
| Features.RollingMean | training/features.py:27-28 | `shift(1).rolling(n).mean()`; `Features.WindowPresent` states when it is present and `Features.SupervisedRollingMeans` what it holds |
| Features.RollingStd | training/features.py:29 | `shift(1).rolling(24).std()`; `Features.SupervisedRollingMeans` states what it holds and `Features.StdSkipNaAgrees` how the point builder's std relates to it |
| Features.MeanSkipNa | training/features.py:45-46 | a skip-NA mean is missing only when no entry of the window is present |
| Features.StdSkipNaAgrees | training/features.py:29-47 | on a complete rolling window the skip-NA `std()` equals the table's rolling std, and it is missing only where the table's is too |
| Features.StdSkipNa | training/features.py:47 | `tail(24).std()` with NaN skipped; characterised by `Features.StdSkipNaAgrees` and `Features.FeatureParity` |
| Features.MakeFeaturesAt | training/features.py:34-52 | `make_features_at`; characterised by `Features.PointUsesOnlyThePast`, `PointDependsOnPrefix`, `FeatureParity` and `GapDivergence` |
| Features.PointUsesOnlyThePast | training/features.py:42-47 | the point row for `ts` is the same as when computed from the series cut just before `ts` |
| Features.PointDependsOnPrefix | training/features.py:39-47 | two histories that agree before `ts` give `ts` the same point row, lags and windows alike |
| Features.PointWindowAtEnd | training/features.py:45-47 | for the hour after the series, the point window is its last `n` slots |
| Features.WindowsAgreeAtEnd | training/features.py:45-46 | with the last `n` slots present, the table's rolling window at the appended hour and the point window hold the same values |
| Features.FeatureParity | training/features.py:42-51 | at `last + 1h` the lags and calendar fields always match the table's row for that hour; the 24-hour statistics match when the last 24 hours are present; the whole row matches when the last 168 are |
| Features.SupervisedRowAtNextHour | training/features.py:15-32 | with the last 168 hours present, appending a target at `last + 1h` makes the table end with a row whose features are the point builder's |
| Features.NextHourSample | training/features.py:32 | that appended hour is kept by `dropna`, with the point builder's features |
| Features.AppendedWeekObserved | training/features.py:32 | appending after 168 present hours gives a fully observed week at the new hour |
| Features.CollectLast | training/features.py:32 | a kept hour right after the scanned range ends the collected rows |
| Features.GapDivergence | training/features.py:45-47 | with a gap in (or fewer than) the last 24 hours but a value present, the point builder still averages while the table drops the row |
| Features.TableWindowGap | training/features.py:27 | without 24 present hours at the end, the table's 24-hour window at the appended hour has a gap |
| Forecasting.WorkingSeries.Copy | training/forecast.py:11 | the working copy starts as the caller's series |
| Forecasting.WorkingSeries.SetNext | training/forecast.py:26 | writing a prediction appends exactly one hour after the current end, keeping every earlier hour |
| Forecasting.Rollout | training/forecast.py:21-25 | a rollout of `n` steps has `n` values; what each value is, `Forecasting.RolloutStep` states |
| Forecasting.Predictions | training/forecast.py:21-25 | the forecaster makes exactly `n` predictions in `n` steps; what each is, `Forecasting.PredictionStep` states |
| Forecasting.PredictionsSnoc | training/forecast.py:22-26 | one more step appends the model's prediction over the history extended by the predictions so far |
| Forecasting.ForecastHorizon | training/forecast.py:6-34 | the predict-and-write-back loop and the baseline column give exactly the rollout frame `ForecastFrame` |
| Forecasting.FrameColumns | training/forecast.py:30-34 | the frame's `yhat` and `baseline` columns give back the predictions and the baseline it was built from |
| Forecasting.ForecastFrame | training/forecast.py:6-34 | `forecast_horizon` as a value; characterised by `Forecasting.ForecastShape`, `ForecastFailure`, `ForecastStep`, `ForecastCausal` and `ForecastBaseline` |
| Forecasting.RolloutPrefix | training/forecast.py:22-26 | a later step never changes an earlier prediction |
| Forecasting.RolloutStep | training/forecast.py:22-26 | value `k` is the step function of the values before it |
| Forecasting.ForecastShape | training/forecast.py:12-19 | the frame has `horizon` rows for the hours `last_ts + 1h .. last_ts + horizon * 1h` |
| Forecasting.ForecastFailure | training/forecast.py:12-28 | the forecast fails exactly for an empty history, or for a non-zero horizon over a history with no observed value |
| Forecasting.FrameYhats | training/forecast.py:30-34 | the frame's predictions are the rollout's first `horizon` predictions |
| Forecasting.PredictionStep | training/forecast.py:22-26 | prediction `k` is the model on the point features of the history extended by predictions `0 .. k-1` |
| Forecasting.ForecastStep | training/forecast.py:22-26 | the frame's `yhat` at step `k` is the model on the features built from the history plus exactly the earlier predictions |
| Forecasting.ForecastCausal | training/forecast.py:23-26 | the features at step `k` do not depend on the predictions of step `k` or later |
| Forecasting.ExtendPrefixAgree | training/forecast.py:26 | the history extended by all predictions agrees, before step `k`'s hour, with the history extended by the first `k` |
| Forecasting.ForecastBaseline | training/forecast.py:28 | the baseline column is `seasonal_naive_forecast` of the caller's series and does not depend on the model |
| Forecasting.ForecastFirstStepParity | training/forecast.py:23-24 | with the last 168 hours observed, the first prediction is the model on the row the supervised table would build at the next hour |
| Baselines.FFill | training/baselines.py:34 | `ffill` keeps the length; what each entry holds, `Baselines.FFillIsLatestPresent` states |
| Baselines.SeasonalNaiveForecast | training/baselines.py:5-38 | the lookup loop, forward fill and fallback compute exactly `NaiveForecast` |
| Baselines.FillNaComplete | training/baselines.py:35-36 | with nothing missing, `fillna` changes no value |
| Baselines.NaiveForecast | training/baselines.py:5-38 | `seasonal_naive_forecast` as a value; characterised by `Baselines.NaiveAt`, `NaiveShape`, `NaiveFailure` and `NaiveValuesObserved` |
| Baselines.FFillIsLatestPresent | training/baselines.py:34 | entry `j` of the forward fill is the latest present entry among the first `j + 1` |
| Baselines.NaiveAt | training/baselines.py:34-36 | position `j` holds the latest present reference up to `j`, or, when there is none, the history's last observed value |
| Baselines.NaiveShape | training/baselines.py:16-22 | the forecast has `horizon` values starting at `last_ts + 1h` |
| Baselines.NaiveFailure | training/baselines.py:16-36 | the baseline fails exactly for an empty history, or for a non-zero horizon over a history with no observed value |
| Baselines.NaivePresentReference | training/baselines.py:24-27 | a present reference is the prediction for its hour |
| Baselines.NaiveExactLookup | training/baselines.py:24-34 | with every reference present the forecast is exactly the historical lookup |
| Baselines.NaiveForwardFill | training/baselines.py:34 | a missing reference takes the latest earlier present reference |
| Baselines.NaiveBeforeFirstFound | training/baselines.py:35-36 | positions before the first present reference take the history's last observed value |
| Baselines.NaiveValuesObserved | training/baselines.py:27-36 | every predicted value is a value the history holds at some hour |
| Baselines.LatestReferenceHour | training/baselines.py:27 | the forward-filled value at `j` is held by the history at some hour |
| Baselines.LastObservedHour | training/baselines.py:36 | the fallback value is held by the history at some hour |
| Baselines.NaiveLongHorizon | training/baselines.py:26-34 | for `1 <= season < horizon`, every position from `season` on repeats position `season - 1` |
| Baselines.LatestAfterSeason | training/baselines.py:26-27 | references from position `season` on lie after the history and are missing |
| RunBaseline.SeasonalNaive | training/run_baseline.py:7-18 | the script's own baseline builds the same forecast as `seasonal_naive_forecast` |
| RunBaseline.TemporalSplit | training/run_baseline.py:26-30 | fewer than 336 points is refused; otherwise train followed by test is the series, the test week has 168 points and starts where train ends |
| RunBaseline.EvaluateBaseline | training/run_baseline.py:20-36 | `main` computes exactly `BaselineEvaluation` |
| RunBaseline.BaselineEvaluation | training/run_baseline.py:20-36 | the evaluation script as a value; characterised by `RunBaseline.EvaluationFailure` and `RunBaseline.EvaluationValue` |
| RunBaseline.EvaluationFailure | training/run_baseline.py:26-34 | the evaluation fails exactly for a short series, a training part with no observed value, or a test week with a gap |
| RunBaseline.ForecastStartsTestWeek | training/run_baseline.py:29-32 | the forecast starts at the test week's first hour and has one value per test point |
| RunBaseline.ReferencesInLastTrainingWeek | training/run_baseline.py:14 | every reference of the test-week forecast is a slot of the training part's last week |
| RunBaseline.NoGapForecastIsLastWeek | training/run_baseline.py:29-32 | with that week observed, the forecast is that week, hour for hour |
| RunBaseline.ZeroErrorIffWeekRepeats | training/run_baseline.py:34 | with the last two weeks observed, the baseline error is zero exactly when the test week repeats the week before it |
| RunBaseline.LastTwoWeeks | training/run_baseline.py:29-30 | the training part's last week and the test week are the series' last two weeks |
| RunBaseline.PresentSlice | training/run_baseline.py:29-30 | a slice of a fully observed series is fully observed |
| RunBaseline.EvaluationValue | training/run_baseline.py:32-35 | a successful evaluation reports the test week's hours and the error of the training part's forecast against the test targets |
| RunBaseline.UnwrapInjective | training/run_baseline.py:34 | two fully observed weeks agree exactly when their values do |
| TrainModel.HoldoutSplit | training/train_model.py:27-28 | the training part followed by the holdout is the table, and the holdout has 168 rows (all rows when there are no more) |
| TrainModel.SplitColumns | training/train_model.py:27-28 | the `y` column, the feature matrix and the index of the training part followed by the holdout are those of the whole table |
| TrainModel.Score | training/train_model.py:36-53 | the errors and metadata: failure exactly when the baseline reproduces every target; otherwise `mae_model` and `mae_baseline` are the mean absolute errors of the predictions and of the baseline against the holdout targets, the baseline error is positive, `improvement_pct` is computed from the two, and it is positive exactly when the model's error is smaller, zero exactly when the errors are equal, and at most 100 |
| TrainModel.TrainAndEvaluate | training/train_model.py:22-50 | `main` from the table on; characterised by `TrainModel.TrainingFailure`, `MetadataErrors`, `MetadataDates`, `SplitHours` and `MetadataFeatures` |
| TrainModel.MetadataErrors | training/train_model.py:33-50 | a successful run holds out 168 rows, and reports the error of the model fitted on the training rows and the error of the baseline built from the series without its last 168 hours, both against the holdout targets, a positive baseline error, and the improvement computed from the two |
| TrainModel.SupervisedIndex | training/train_model.py:22 | the table's hours ascend and lie in the series after its first 168 hours |
| TrainModel.MetadataDates | training/train_model.py:45-47 | a successful run held out exactly the last 168 rows, and `train_end`, `test_start` and `test_end` are the last training row's hour and the first and last holdout rows' hours |
| TrainModel.SplitHours | training/train_model.py:27-47 | in the ascending table, `train_end` is the greatest training hour, the holdout lies between `test_start` and `test_end`, and `train_end < test_start <= test_end` |
| TrainModel.AscendingUpTo | training/train_model.py:45-47 | in the ascending table a later row never has an earlier hour |
| TrainModel.MetadataFeatures | training/train_model.py:43-51 | `features` is the table's columns without `y`, the point builder's keys in order, and the version is "v1" |
| TrainModel.BaselineAvailable | training/train_model.py:35-37 | with more than 168 rows, the baseline on the shortened series cannot fail and has as many values as the holdout has targets |
| TrainModel.AscendingGap | training/train_model.py:27 | ascending hours grow by at least one per row |
| TrainModel.TrainingFailure | training/train_model.py:27-50 | the run fails exactly when at most 168 rows leave nothing to fit on, or when the baseline reproduces every holdout target |
| TrainModel.ImprovementSign | training/train_model.py:50 | for a positive baseline error, the improvement is positive exactly when the model's error is smaller, zero exactly when they are equal, and 100 at most, reached exactly by a model with no error |
| TrainModel.ImprovementPct | training/train_model.py:50 | `improvement_pct`; characterised by `TrainModel.ImprovementSign` |
| TrainModel.IncreasingToLast | training/train_model.py:27 | no hour of an increasing index exceeds its last |
| TrainModel.TailHours | training/train_model.py:27-28 | increasing hours that include the last `k` hours before an end end in exactly those hours |
| TrainModel.HoldoutHours | training/train_model.py:27-35 | with the last two weeks observed, the last 168 rows are the last 168 hours, hour for hour |
| TrainModel.LastTwoWeeksObserved | training/train_model.py:35 | the last two weeks of slots, read by hour, are present |
| TrainModel.HoldoutAligned | training/train_model.py:28-37 | with the last two weeks observed, the holdout rows are the baseline's 168 hours in order and their targets are the series' last week |
| TrainModel.UnwrapOf | training/train_model.py:36-37 | a fully observed week whose entries are the targets unwraps to them |
| TrainModel.BaselineErrorAgrees | training/train_model.py:35-37 | with the last two weeks observed, the training script's baseline error is the evaluation script's |
| DataProcess.StripLeft | data_proccess.py:23 | `lstrip()` leaves no leading whitespace and never grows the cell |
| DataProcess.StripRight | data_proccess.py:23 | `rstrip()` leaves no trailing whitespace and never grows the cell |
| DataProcess.Strip | data_proccess.py:23 | `strip()`; characterised by `DataProcess.StripOnlySpace` and `DataProcess.StripClean` |
| DataProcess.DeleteChar | data_proccess.py:28 | `replace(".", "")` leaves no `.` and removes exactly as many characters as there were points |
| DataProcess.Normalise | data_proccess.py:23-29 | the cell normalisation; characterised by `DataProcess.NormalisedSeparators`, `GermanNormalise`, `NormaliseComma` and `NoPointNormalise` |
| DataProcess.CellValue | data_proccess.py:23-32 | one cell's numeric value; characterised by `DataProcess.NormalisedCell`, `MarkersAreNotNumbers`, `GermanCell` and `DecimalCommaCell` |
| DataProcess.FracValue | data_proccess.py:32 | the digits after a decimal point are worth less than one |
| DataProcess.IndexOf | data_proccess.py:32 | the first position of the decimal point, or the length when there is none |
| DataProcess.ParseUnsigned | data_proccess.py:32 | an accepted unsigned decimal is well formed and not negative |
| DataProcess.ParseNumber | data_proccess.py:32 | an accepted number is a well-formed numeral |
| DataProcess.StripClean | data_proccess.py:23 | a cell without surrounding whitespace is unchanged by `strip()` |
| DataProcess.DeleteConcat | data_proccess.py:28 | deleting a character distributes over concatenation |
| DataProcess.PointDropped | data_proccess.py:28 | a point between two parts of a cell is dropped as if it had never been there |
| DataProcess.NormaliseComma | data_proccess.py:28-29 | digits, a decimal comma and digits normalise to the same digits around a point |
| DataProcess.NoPointNormalise | data_proccess.py:23-29 | a clean cell without a point only has its commas turned into points |
| DataProcess.CommaToPoint | data_proccess.py:29 | the one comma between two comma-free parts becomes a point |
| DataProcess.ReplaceConcat | data_proccess.py:29 | replacing a character distributes over concatenation |
| DataProcess.ParseUnsignedDecimal | data_proccess.py:32 | digits, a point and digits read as that numeral |
| DataProcess.IndexAfterDigits | data_proccess.py:32 | the point after a run of digits is found right after them |
| DataProcess.ParseDecimal | data_proccess.py:32 | digits, a point and digits parse as that unsigned numeral |
| DataProcess.ParseDigits | data_proccess.py:32 | digits alone parse as a whole number |
| DataProcess.NotMarker | data_proccess.py:30 | a string starting with a digit is none of the markers |
| DataProcess.DigitsConcat | data_proccess.py:32 | two runs of digits together are digits |
| DataProcess.GermanNormalise | data_proccess.py:23-29 | a German cell `<a>.<b>,<f>` normalises to `<a><b>.<f>` |
| DataProcess.GermanCell | data_proccess.py:23-32 | a German cell `<a>.<b>,<f>` reads as `<a><b>` plus the fraction `<f>` |
| DataProcess.PositiveValue | data_proccess.py:32 | an unsigned numeral is worth its whole digits plus its fraction |
| DataProcess.GermanParse | data_proccess.py:32 | the normalised German cell starts with a digit and parses as its numeral |
| DataProcess.NormalisedCell | data_proccess.py:30-32 | a cell that normalises to a numeral starting with a digit is read as that numeral's value |
| DataProcess.DigitsSnoc | data_proccess.py:32 | one more digit is worth ten times as much plus that digit |
| DataProcess.GermanThousands | data_proccess.py:28-32 | "1.234,5" becomes "1234.5" and reads as 1234.5 (with the helper lemmas `GermanSpelling` and `GermanDigits` for its pieces) |
| DataProcess.DotDecimalLosesPoint | data_proccess.py:28 | a point used as a decimal separator is deleted too: "12.5" becomes "125" and reads as 125 (with the helper lemmas `DotDropped` and `DigitsOf125`) |
| DataProcess.NormaliseDigits | data_proccess.py:23-29 | a cell of digits only comes through unchanged |
| DataProcess.ReplaceAbsent | data_proccess.py:29 | replacing a character that is not there changes nothing |
| DataProcess.DigitsFacts | data_proccess.py:23-29 | digits hold no separator and no whitespace |
| DataProcess.StripOnlySpace | data_proccess.py:23 | `strip()` keeps a slice of the cell with only whitespace before and after it |
| DataProcess.LeftOnlySpace | data_proccess.py:23 | `lstrip()` keeps a suffix and removes only whitespace |
| DataProcess.RightOnlySpace | data_proccess.py:23 | `rstrip()` keeps a prefix and removes only whitespace |
| DataProcess.DeleteKeepsOthers | data_proccess.py:28 | deleting the points leaves the count of every other character as it was |
| DataProcess.NoCount | data_proccess.py:28 | a character not in the cell occurs zero times |
| DataProcess.DeleteAbsent | data_proccess.py:28 | deleting a character that is not there changes nothing |
| DataProcess.NormalisedSeparators | data_proccess.py:28-29 | the normalised cell has no comma and as many points as the stripped cell had commas |
| DataProcess.CountReplace | data_proccess.py:29 | after turning commas into points, the points are the old points plus the old commas |
| DataProcess.MarkersAreNotNumbers | data_proccess.py:30-32 | no marker is a number, so mapping markers to missing agrees with the coercing conversion |
| DataProcess.NoLeadingDigit | data_proccess.py:32 | a string starting with neither a digit, a sign nor a point is no number |
| DataProcess.NatDigits | data_proccess.py:32 | a rendered whole number is a non-empty digit string |
| DataProcess.DigitsOfNat | data_proccess.py:32 | the digits of `n` read back as `n` |
| DataProcess.ParseNatDigits | data_proccess.py:32 | a rendered whole number, with or without a minus sign, parses back to itself |
| DataProcess.DecimalCommaCell | data_proccess.py:23-32 | a cell `<whole>,<digits>` reads as that decimal |
| DataProcess.IndexOfFirst | data_proccess.py:32 | the first position holding the point is the one found |
| DataProcess.ValueColumns | data_proccess.py:19 | the value columns are exactly the table's columns with "[MWh]" in their name |
| DataProcess.InfixIff | data_proccess.py:19 | `"[MWh]" in c` holds exactly when some suffix of `c` starts with it |
| DataProcess.InfixAt | data_proccess.py:19 | a found occurrence starts at some position |
| DataProcess.InfixFrom | data_proccess.py:19 | an occurrence at any position is found |
| DataProcess.UnitNamed | data_proccess.py:19 | any name with "[MWh]" in it is a value column |
| DataProcess.NoBracketNoUnit | data_proccess.py:19 | a name without `[` is not a value column |
| DataProcess.FixedColumnsAreNotValues | data_proccess.py:16-35 | neither "Start date", "timestamp" nor "value" is a value column |
| DataProcess.StartDateNotValue | data_proccess.py:16 | "Start date" is not a value column |
| DataProcess.TimestampNotValue | data_proccess.py:16 | "timestamp" is not a value column |
| DataProcess.TotalNotValue | data_proccess.py:35 | "value" is not a value column |
| DataProcess.ValueColumnsDistinct | data_proccess.py:19 | distinct column names give distinct value columns |
| DataProcess.Extended | data_proccess.py:16 | assigning a column adds its name, if new |
| DataProcess.ValueColumnsExtended | data_proccess.py:16-19 | adding a column that is not a value column leaves the value columns as they were |
| DataProcess.AppendOther | data_proccess.py:16-19 | a non-value name appended at the end adds no value column |
| DataProcess.PresentConcat | data_proccess.py:35 | dropping missing cells distributes over concatenation |
| DataProcess.MissingAddsNothing | data_proccess.py:35 | a missing cell contributes nothing to its row's total |
| DataProcess.AllMissingTotalsZero | data_proccess.py:35 | a row with every cell missing totals 0, not missing |
| DataProcess.FullRowTotal | data_proccess.py:35 | a fully observed row totals the plain sum of its values |
| DataProcess.RowTotal | data_proccess.py:35 | `sum(axis=1)` with NaN skipped; characterised by `DataProcess.MissingAddsNothing`, `AllMissingTotalsZero` and `FullRowTotal` |
| DataProcess.InsertByTime | data_proccess.py:37 | inserting adds one row; that it keeps the order and adds exactly that row, `DataProcess.InsertSorted` and `DataProcess.InsertPermutes` state |
| DataProcess.SortByTime | data_proccess.py:37 | sorting keeps the number of rows; that the result is ordered and a permutation, `DataProcess.SortByTimeSorted` and `DataProcess.SortByTimePermutes` state |
| DataProcess.InsertSorted | data_proccess.py:37 | inserting keeps a sorted table sorted |
| DataProcess.InsertPermutes | data_proccess.py:37 | inserting adds exactly the inserted row |
| DataProcess.InsertAfter | data_proccess.py:37 | inserting into rows no earlier than an hour keeps them no earlier than it |
| DataProcess.SortByTimeSorted | data_proccess.py:37 | the sorted rows are in timestamp order |
| DataProcess.SortByTimePermutes | data_proccess.py:37 | the sorted rows are exactly the given rows |
| DataProcess.Times | data_proccess.py:16 | one parsed hour per date cell; the hours themselves, `DataProcess.PipelineRows` states |
| DataProcess.Converted | data_proccess.py:22-32 | one converted value per cell; the values themselves, `DataProcess.PipelineRows` states |
| DataProcess.RowCells | data_proccess.py:35 | one cell per value column in a row; the cells themselves, `DataProcess.PipelineRows` states |
| DataProcess.Totals | data_proccess.py:35 | one total per row, never missing; the totals themselves, `DataProcess.PipelineRows` states |
| DataProcess.Rows | data_proccess.py:37 | one output row per table row; their contents, `DataProcess.PipelineRows` states |
| DataProcess.TableReadable | data_proccess.py:16-19 | a text table with a start date column has every value column and the dates as text |
| DataProcess.TextRow | data_proccess.py:22-32 | one converted cell per value column; the cells themselves, `DataProcess.PipelineRows` states |
| DataProcess.Expected | data_proccess.py:16-37 | one output row per input row; the rows themselves, `DataProcess.PipelineRows` and `DataProcess.Table.Process` state |
| DataProcess.ExpectedReadsOnlyValueColumns | data_proccess.py:19-35 | only the value columns and the start date feed the output |
| DataProcess.PipelineRows | data_proccess.py:16-35 | the hours and totals `main` computes step by step are the rows read straight from the text table |
| DataProcess.Table.constructor | data_proccess.py:8-13 | the table as read, every cell as text |
| DataProcess.Table.AddTimestamps | data_proccess.py:16 | adds `timestamp` parsed from "Start date" and changes nothing else; fails when that column is absent |
| DataProcess.Table.ConvertColumn | data_proccess.py:23-32 | replaces one column's cells by their converted values and changes nothing else |
| DataProcess.Table.ConvertValueColumns | data_proccess.py:19-32 | converts every value column and leaves every other column as it was |
| DataProcess.Table.AddTotal | data_proccess.py:35 | adds `value`, each row's total over the value columns |
| DataProcess.Table.Output | data_proccess.py:37 | the hour and total of every row, sorted by hour, as a permutation of the rows |
| DataProcess.Table.Process | data_proccess.py:8-39 | `main` fails exactly without a "Start date" column, and otherwise outputs, sorted by hour, exactly one row per input row with its parsed date and its total of converted value cells |

## Left out

- Files and printing: reading and writing CSV files, the joblib model dump,
  writing the JSON metadata, and every `print`. The tables and series arrive
  as values, and results are returned.
- Calendar features: `_time_features` (sine and cosine of hour and weekday,
  the month) is the uninterpreted function `Externals.calendar`.
- Standard deviation: the square root in `std()` is `Externals.sqrt`. The
  variance under it is modelled.
- Regressor: `HistGradientBoostingRegressor`'s fit and predict are the
  parameter `fit` and the resulting function. Its handling of missing
  features is not modelled.
- Floating point: all arithmetic is on exact reals, with no rounding and no
  NaN arithmetic beyond explicit missing values.
- Time: timestamps are integer hour offsets. UTC parsing, timezones and
  `date_range` are not modelled. Parsing a date is the total parameter
  `parseTime`, so an unparseable date does not fail.
- Input order and duplicates: `sort_index` on an already hourly series is not
  modelled; a series is given in hour order, gaps as missing slots.
  Duplicate timestamps, which make `asfreq` fail, are not modelled either.
- The web service: `app/main.py` and its horizon bound of 1 to 744 hours.
  `Forecasting.ForecastHorizon` accepts every horizon, so the bound is not
  needed.
- Reading the CSV:
  - `read_csv`'s `na_values` markers are applied at read time, so such a cell
    arrives as "nan".
  - Its type inference is not modelled: every cell arrives as the text a
    column of strings gives.
  - For a column that `read_csv` reads as floats, `astype(str)` renders
    "1234.0", which the point deletion turns into "12340". That case is not
    modelled.
- `to_numeric`: exponents, "inf" and the other spellings it also accepts are
  read as missing here. Only signed decimals are parsed.
- Training order: the model is dumped before the improvement is computed, so
  a zero baseline error leaves a model file behind. The model only reports
  the failure.
- Metadata constants: the metadata's `data_file` and `notes` fields are
  constants and are not in the record.
- DataProcess.Table.Output: promises a sorted permutation of the rows. It
  does not promise the tie order of `sort_values` (its default sort is not
  stable), because rows sharing a timestamp may be ordered differently by the
  model's insertion sort.
- DataProcess.Table.AddTimestamps: the missing-column failure is returned as
  `false` rather than raised. `Process` maps it to
  `MissingColumn("Start date")`.
