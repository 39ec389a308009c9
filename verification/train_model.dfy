/** The training script (training/train_model.py): the supervised table is split into
    training rows and the last week of rows, an opaque regressor is fitted on the
    training rows, and its holdout error is compared with the seasonal-naive baseline
    computed on the series without its last week. The regressor's fitting enters as
    the parameter `fit`; writing the model and the metadata file is not modelled. */
module TrainModel {
  import opened Hourly
  import opened Features
  import Stats
  import Baselines
  import RunBaseline

  /** The held-out rows, one week. */
  const HoldoutRows: nat := 168

  /** `HistGradientBoostingRegressor().fit(X, y)`: the fitted model as a function. */
  type Fit = (seq<FeatureRow>, seq<real>) -> (FeatureRow -> real)

  /** The metadata record; `data_file` and `notes` are constants of the script. */
  datatype Metadata = Metadata(
    modelVersion: string,
    trainEnd: int, testStart: int, testEnd: int,
    maeModel: real, maeBaseline: real, improvementPct: real,
    features: seq<string>)

  /** The `y` column. */
  function Targets(rows: seq<TableRow>): (ys: seq<real>)
    ensures |ys| == |rows|
    ensures forall i :: 0 <= i < |rows| ==> ys[i] == rows[i].y
  {
    seq(|rows|, i requires 0 <= i < |rows| => rows[i].y)
  }

  /** The feature matrix `X`, one row per table row. */
  function Inputs(rows: seq<TableRow>): (xs: seq<FeatureRow>)
    ensures |xs| == |rows|
    ensures forall i :: 0 <= i < |rows| ==> xs[i] == rows[i].x
  {
    seq(|rows|, i requires 0 <= i < |rows| => rows[i].x)
  }

  /** The table's index. */
  function Hours(rows: seq<TableRow>): (hs: seq<int>)
    ensures |hs| == |rows|
    ensures forall i :: 0 <= i < |rows| ==> hs[i] == rows[i].ts
  {
    seq(|rows|, i requires 0 <= i < |rows| => rows[i].ts)
  }

  /** `model.predict(X)`. */
  function PredictAll(model: FeatureRow -> real, xs: seq<FeatureRow>): (ys: seq<real>)
    ensures |ys| == |xs|
    ensures forall i :: 0 <= i < |xs| ==> ys[i] == model(xs[i])
  {
    seq(|xs|, i requires 0 <= i < |xs| => model(xs[i]))
  }

  /** `rows.iloc[:-168], rows.iloc[-168:]`: all but the last week, and the last week
      (everything, when there are no more than 168 rows). The two parts rebuild the
      table in order. */
  function HoldoutSplit(rows: seq<TableRow>): (r: (seq<TableRow>, seq<TableRow>))
    ensures r.0 + r.1 == rows
    ensures |r.1| == if |rows| <= HoldoutRows then |rows| else HoldoutRows
  {
    if |rows| <= HoldoutRows then ([], rows)
    else (rows[..|rows| - HoldoutRows], rows[|rows| - HoldoutRows..])
  }

  /** `(mae_base - mae_model) / mae_base * 100`. */
  function ImprovementPct(maeBase: real, maeModel: real): real
    requires maeBase != 0.0
  {
    (maeBase - maeModel) / maeBase * 100.0
  }

  /** `main` from the table on: fit on the training rows, predict the holdout, and
      forecast the holdout week with the baseline on the series without its last 168
      hours. Fitting on no rows fails. */
  function TrainAndEvaluate(series: Series, fit: Fit, ext: Externals): Result<Metadata>
  {
    var sup := MakeSupervised(series, ext);
    var (train, test) := HoldoutSplit(sup);
    if train == [] then Err(EmptyTrainingSet(|sup|))
    else
      var model := fit(Inputs(train), Targets(train));
      var short := series.DropLast(HoldoutRows);
      match Baselines.NaiveForecast(short, HoldoutRows, Baselines.DefaultSeasonHours)
      case Err(e) => Err(e)
      case Ok(b) =>
        Baselines.NaiveShape(short, HoldoutRows, Baselines.DefaultSeasonHours);
        Score(train, test, PredictAll(model, Inputs(test)), b.values)
  }

  /** The two holdout errors and the metadata. A baseline error of zero, which happens
      exactly when the baseline reproduces every target, leaves the improvement
      undefined; otherwise the improvement is positive exactly when the model's error
      is the smaller one, and never above 100. */
  function Score(train: seq<TableRow>, test: seq<TableRow>, yPred: seq<real>, baseline: seq<real>)
    : (r: Result<Metadata>)
    requires train != [] && test != []
    requires |yPred| == |test| && |baseline| == |test|
    ensures r.Err? <==> Targets(test) == baseline
    ensures r.Err? ==> r.failure == ZeroBaselineError
    ensures r.Ok? ==> r.value.maeBaseline > 0.0 && r.value.maeModel >= 0.0
    ensures r.Ok? ==> r.value.maeModel == Stats.MeanAbsoluteError(Targets(test), yPred) &&
                      r.value.maeBaseline == Stats.MeanAbsoluteError(Targets(test), baseline) &&
                      r.value.improvementPct == ImprovementPct(r.value.maeBaseline, r.value.maeModel)
    ensures r.Ok? ==> (r.value.improvementPct > 0.0 <==> r.value.maeModel < r.value.maeBaseline)
    ensures r.Ok? ==> (r.value.improvementPct == 0.0 <==> r.value.maeModel == r.value.maeBaseline)
    ensures r.Ok? ==> r.value.improvementPct <= 100.0
  {
    var maeModel := Stats.MeanAbsoluteError(Targets(test), yPred);
    var maeBase := Stats.MeanAbsoluteError(Targets(test), baseline);
    if maeBase == 0.0 then Err(ZeroBaselineError)
    else
      ImprovementSign(maeBase, maeModel);
      Ok(Metadata("v1", train[|train| - 1].ts, test[0].ts, test[|test| - 1].ts,
                  maeModel, maeBase, ImprovementPct(maeBase, maeModel),
                  DropColumn(TableColumns, "y")))
  }

  // ---------------------------------------------------------------------------
  // The split and the metadata
  // ---------------------------------------------------------------------------

  /** The supervised table with its hours in ascending order, each inside the series. */
  lemma {:induction false} SupervisedIndex(series: Series, ext: Externals)
    ensures var sup := MakeSupervised(series, ext);
            Ascending(sup) && forall i :: 0 <= i < |sup| ==> series.start + 168 <= sup[i].ts < series.End()
  {
    SupervisedAscending(series, ext);
    var sup := MakeSupervised(series, ext);
    forall i | 0 <= i < |sup| ensures series.start + 168 <= sup[i].ts < series.End() {
      SupervisedRow(series, ext, i);
    }
  }

  /** A training run that succeeds held out exactly the last 168 rows, trained on all
      earlier ones, and dated its metadata by the last training row and the first and
      last holdout rows. */
  lemma {:induction false} MetadataDates(series: Series, fit: Fit, ext: Externals, m: Metadata)
    requires TrainAndEvaluate(series, fit, ext) == Ok(m)
    ensures |MakeSupervised(series, ext)| > HoldoutRows
    ensures var split := HoldoutSplit(MakeSupervised(series, ext));
            var train, test := split.0, split.1;
            train != [] && |test| == HoldoutRows &&
            m.trainEnd == train[|train| - 1].ts && m.testStart == test[0].ts && m.testEnd == test[|test| - 1].ts
  {
    var sup := MakeSupervised(series, ext);
    var split := HoldoutSplit(sup);
    var train, test := split.0, split.1;
    assert |sup| > HoldoutRows;
    var model := fit(Inputs(train), Targets(train));
    var short := series.DropLast(HoldoutRows);
    var b := Baselines.NaiveForecast(short, HoldoutRows, Baselines.DefaultSeasonHours).value;
    Baselines.NaiveShape(short, HoldoutRows, Baselines.DefaultSeasonHours);
    var yPred := PredictAll(model, Inputs(test));
    assert TrainAndEvaluate(series, fit, ext) == Score(train, test, yPred, b.values);
  }

  /** A training run that succeeds reports the mean absolute errors of the model fitted on
      the training rows and of the baseline over the holdout targets, and the improvement
      computed from the two. */
  lemma {:induction false} MetadataErrors(series: Series, fit: Fit, ext: Externals, m: Metadata)
    requires TrainAndEvaluate(series, fit, ext) == Ok(m)
    ensures var split := HoldoutSplit(MakeSupervised(series, ext));
            var train, test := split.0, split.1;
            var model := fit(Inputs(train), Targets(train));
            var b := Baselines.NaiveForecast(series.DropLast(HoldoutRows), HoldoutRows, Baselines.DefaultSeasonHours);
            |test| == HoldoutRows && b.Ok? && |b.value.values| == HoldoutRows &&
            m.maeModel == Stats.MeanAbsoluteError(Targets(test), PredictAll(model, Inputs(test))) &&
            m.maeBaseline == Stats.MeanAbsoluteError(Targets(test), b.value.values) &&
            m.maeBaseline > 0.0 &&
            m.improvementPct == ImprovementPct(m.maeBaseline, m.maeModel)
  {
    var sup := MakeSupervised(series, ext);
    var split := HoldoutSplit(sup);
    var train, test := split.0, split.1;
    assert |sup| > HoldoutRows;
    var model := fit(Inputs(train), Targets(train));
    var short := series.DropLast(HoldoutRows);
    var b := Baselines.NaiveForecast(short, HoldoutRows, Baselines.DefaultSeasonHours).value;
    Baselines.NaiveShape(short, HoldoutRows, Baselines.DefaultSeasonHours);
    var yPred := PredictAll(model, Inputs(test));
    assert TrainAndEvaluate(series, fit, ext) == Score(train, test, yPred, b.values);
  }

  /** The `y` column, the feature matrix and the index split as the rows do: training
      part followed by holdout. */
  lemma {:induction false} SplitColumns(rows: seq<TableRow>)
    ensures var split := HoldoutSplit(rows);
            Targets(split.0) + Targets(split.1) == Targets(rows) &&
            Inputs(split.0) + Inputs(split.1) == Inputs(rows) &&
            Hours(split.0) + Hours(split.1) == Hours(rows)
  {
    var split := HoldoutSplit(rows);
    var a, b := split.0, split.1;
    assert a + b == rows;
    forall i | 0 <= i < |rows| ensures (Targets(a) + Targets(b))[i] == Targets(rows)[i] &&
                                      (Inputs(a) + Inputs(b))[i] == Inputs(rows)[i] &&
                                      (Hours(a) + Hours(b))[i] == Hours(rows)[i]
    {
      if i < |a| {
        assert rows[i] == a[i];
      } else {
        assert rows[i] == b[i - |a|];
      }
    }
  }

  /** In an ascending table, as the supervised table is, split into training rows and
      holdout, the last training row has the greatest training hour, the holdout's
      first and last rows its least and greatest, and the training rows all come
      first: with `MetadataDates`, `train_end` is the greatest training hour,
      `test_start` and `test_end` bracket the holdout, and
      `train_end < test_start <= test_end`. */
  lemma {:induction false} SplitHours(rows: seq<TableRow>)
    requires |rows| > HoldoutRows && Ascending(rows)
    ensures var train, test := HoldoutSplit(rows).0, HoldoutSplit(rows).1;
            train != [] && |test| == HoldoutRows &&
            (forall i :: 0 <= i < |train| ==> train[i].ts <= train[|train| - 1].ts) &&
            (forall i :: 0 <= i < |test| ==> test[0].ts <= test[i].ts <= test[|test| - 1].ts) &&
            train[|train| - 1].ts < test[0].ts
  {
    var train, test := HoldoutSplit(rows).0, HoldoutSplit(rows).1;
    var k, n := |train|, |rows|;
    forall i | 0 <= i < k ensures train[i].ts <= train[k - 1].ts {
      assert train[i] == rows[i] && train[k - 1] == rows[k - 1];
      AscendingUpTo(rows, i, k - 1);
    }
    forall i | 0 <= i < |test| ensures test[0].ts <= test[i].ts <= test[|test| - 1].ts {
      assert test[i] == rows[k + i] && test[0] == rows[k] && test[|test| - 1] == rows[n - 1];
      AscendingUpTo(rows, k, k + i);
      AscendingUpTo(rows, k + i, n - 1);
    }
    assert train[k - 1] == rows[k - 1] && test[0] == rows[k];
  }

  /** In an ascending table a later row never has an earlier hour. */
  lemma {:induction false} AscendingUpTo(rows: seq<TableRow>, i: nat, j: nat)
    requires Ascending(rows) && i <= j < |rows|
    ensures rows[i].ts <= rows[j].ts
  {
  }

  /** The `features` list is the table's columns without `y`, which are the point
      builder's keys in the same order. */
  lemma {:induction false} MetadataFeatures(series: Series, fit: Fit, ext: Externals)
    requires TrainAndEvaluate(series, fit, ext).Ok?
    ensures TrainAndEvaluate(series, fit, ext).value.features == PointColumns
    ensures TrainAndEvaluate(series, fit, ext).value.modelVersion == "v1"
  {
    FeatureColumnsAgree();
  }

  // ---------------------------------------------------------------------------
  // The baseline on the shortened series
  // ---------------------------------------------------------------------------

  /** With more than 168 rows in the table the baseline cannot fail: the first row's
      hour is observed and lies before the last 168 hours of the series. Its forecast
      has as many entries as the holdout has targets. */
  lemma {:induction false} BaselineAvailable(series: Series, ext: Externals)
    requires |MakeSupervised(series, ext)| > HoldoutRows
    ensures var b := Baselines.NaiveForecast(series.DropLast(HoldoutRows), HoldoutRows, Baselines.DefaultSeasonHours);
            b.Ok? && |b.value.values| == HoldoutRows
  {
    var sup := MakeSupervised(series, ext);
    var n := |sup|;
    SupervisedIndex(series, ext);
    SupervisedRow(series, ext, 0);
    var t := sup[0].ts;
    assert t < sup[n - 1].ts - 167 by {
      AscendingGap(sup, 0, n - 1);
    }
    var short := series.DropLast(HoldoutRows);
    assert short.values[t - series.start] == series.values[t - series.start];
    assert !NonePresent(short.values) by {
      assert short.values[t - series.start].Some?;
    }
    Baselines.NaiveFailure(short, HoldoutRows, Baselines.DefaultSeasonHours);
    Baselines.NaiveShape(short, HoldoutRows, Baselines.DefaultSeasonHours);
  }

  /** Strictly ascending hours grow by at least one per row. */
  lemma {:induction false} AscendingGap(rows: seq<TableRow>, i: nat, j: nat)
    requires Ascending(rows) && i <= j < |rows|
    ensures rows[j].ts - rows[i].ts >= j - i
  {
    if i < j {
      AscendingGap(rows, i, j - 1);
    }
  }

  /** The run fails exactly when the table has no row left to train on, or when the
      baseline reproduces every holdout target, so that its error is zero. */
  lemma {:induction false} TrainingFailure(series: Series, fit: Fit, ext: Externals)
    ensures var sup := MakeSupervised(series, ext);
            |sup| <= HoldoutRows ==> TrainAndEvaluate(series, fit, ext) == Err(EmptyTrainingSet(|sup|))
    ensures var sup := MakeSupervised(series, ext);
            |sup| > HoldoutRows ==>
              Baselines.NaiveForecast(series.DropLast(HoldoutRows), HoldoutRows, Baselines.DefaultSeasonHours).Ok?
    ensures var sup := MakeSupervised(series, ext);
            |sup| > HoldoutRows ==>
              var b := Baselines.NaiveForecast(series.DropLast(HoldoutRows), HoldoutRows, Baselines.DefaultSeasonHours).value;
              (TrainAndEvaluate(series, fit, ext).Err? <==> Targets(HoldoutSplit(sup).1) == b.values) &&
              (TrainAndEvaluate(series, fit, ext).Err? ==> TrainAndEvaluate(series, fit, ext) == Err(ZeroBaselineError))
  {
    var sup := MakeSupervised(series, ext);
    if |sup| > HoldoutRows {
      BaselineAvailable(series, ext);
    }
  }

  // ---------------------------------------------------------------------------
  // The improvement
  // ---------------------------------------------------------------------------

  /** For a positive baseline error the improvement is positive exactly when the model's
      error is smaller, zero exactly when the two are equal, and at most 100, reached
      only by a model with no error. */
  lemma {:induction false} ImprovementSign(maeBase: real, maeModel: real)
    requires maeBase > 0.0 && maeModel >= 0.0
    ensures ImprovementPct(maeBase, maeModel) > 0.0 <==> maeModel < maeBase
    ensures ImprovementPct(maeBase, maeModel) == 0.0 <==> maeModel == maeBase
    ensures ImprovementPct(maeBase, maeModel) <= 100.0
    ensures ImprovementPct(maeBase, maeModel) == 100.0 <==> maeModel == 0.0
  {
    var d := maeBase - maeModel;
    assert ImprovementPct(maeBase, maeModel) == d / maeBase * 100.0;
    assert d / maeBase > 0.0 <==> d > 0.0;
    assert d / maeBase == 0.0 <==> d == 0.0;
    assert d / maeBase <= 1.0 <==> d <= maeBase;
    assert d / maeBase == 1.0 <==> d == maeBase;
  }

  // ---------------------------------------------------------------------------
  // Alignment of the holdout rows with the baseline's hours
  // ---------------------------------------------------------------------------

  /** Strictly increasing hours. */
  predicate Increasing(hs: seq<int>)
  {
    forall i, j :: 0 <= i < j < |hs| ==> hs[i] < hs[j]
  }

  /** No hour exceeds the last one. */
  lemma {:induction false} IncreasingToLast(hs: seq<int>, i: nat)
    requires Increasing(hs) && i < |hs|
    ensures hs[i] <= hs[|hs| - 1]
  {
  }

  /** Strictly increasing hours, all before `e`, that include every one of the `k`
      hours before `e` end in exactly those `k` hours. */
  lemma {:induction false} TailHours(hs: seq<int>, e: int, k: nat)
    requires Increasing(hs)
    requires forall j :: 0 <= j < |hs| ==> hs[j] < e
    requires forall t :: e - k <= t < e ==> t in hs
    ensures |hs| >= k
    ensures forall j :: |hs| - k <= j < |hs| ==> hs[j] == e - |hs| + j
  {
    if k > 0 {
      var n := |hs|;
      assert e - 1 in hs;
      var i :| 0 <= i < n && hs[i] == e - 1;
      IncreasingToLast(hs, i);
      var init := hs[..n - 1];
      forall t | e - 1 - (k - 1) <= t < e - 1 ensures t in init {
        assert t in hs;
        var j :| 0 <= j < n && hs[j] == t;
        assert j != n - 1;
        assert init[j] == t;
      }
      forall j | 0 <= j < |init| ensures init[j] < e - 1 {
        assert init[j] == hs[j] && hs[j] < hs[n - 1];
      }
      TailHours(init, e - 1, k - 1);
      forall j | n - k <= j < n ensures hs[j] == e - n + j {
        if j < n - 1 {
          assert hs[j] == init[j];
        }
      }
    }
  }

  /** With the last two weeks of the series observed, the last 168 rows of the table
      are the last 168 hours, hour for hour, which are the hours the baseline forecasts. */
  lemma {:induction false} HoldoutHours(series: Series, ext: Externals)
    requires |series.values| >= RunBaseline.MinPoints
    requires AllPresent(series.values[|series.values| - RunBaseline.MinPoints..])
    ensures var sup := MakeSupervised(series, ext);
            |sup| >= HoldoutRows &&
            forall j :: |sup| - HoldoutRows <= j < |sup| ==> sup[j].ts == series.End() - |sup| + j
  {
    var sup := MakeSupervised(series, ext);
    var e := series.End();
    var hs := Hours(sup);
    LastTwoWeeksObserved(series);
    forall t | e - HoldoutRows <= t < e ensures t in hs {
      assert ObservedWeek(series, t);
      SupervisedHours(series, ext, t);
      var i :| 0 <= i < |sup| && sup[i].ts == t;
      assert hs[i] == t;
    }
    SupervisedIndex(series, ext);
    assert Increasing(hs);
    TailHours(hs, e, HoldoutRows);
  }

  /** The last two weeks of slots, read by hour. */
  lemma {:induction false} LastTwoWeeksObserved(series: Series)
    requires |series.values| >= RunBaseline.MinPoints
    requires AllPresent(series.values[|series.values| - RunBaseline.MinPoints..])
    ensures forall u :: series.End() - RunBaseline.MinPoints <= u < series.End() ==> series.At(u).Some?
  {
    var n := |series.values|;
    forall u | series.End() - RunBaseline.MinPoints <= u < series.End() ensures series.At(u).Some? {
      assert series.At(u) == series.values[n - RunBaseline.MinPoints..][u - series.End() + RunBaseline.MinPoints];
    }
  }

  /** With the last two weeks observed, the holdout rows stand for the last 168 hours in
      order and their targets are the series' last week. */
  lemma {:induction false} HoldoutAligned(series: Series, ext: Externals)
    requires |series.values| >= RunBaseline.MinPoints
    requires AllPresent(series.values[|series.values| - RunBaseline.MinPoints..])
    ensures var test := HoldoutSplit(MakeSupervised(series, ext)).1;
            var last := series.TakeLast(HoldoutRows).values;
            |test| == HoldoutRows && AllPresent(last) &&
            (forall i :: 0 <= i < HoldoutRows ==> test[i].ts == series.End() - HoldoutRows + i) &&
            Targets(test) == Unwrap(last)
  {
    var sup := MakeSupervised(series, ext);
    var e := series.End();
    HoldoutHours(series, ext);
    var test := HoldoutSplit(sup).1;
    var last := series.TakeLast(HoldoutRows).values;
    forall i | 0 <= i < HoldoutRows ensures last[i] == Some(test[i].y) && test[i].ts == e - HoldoutRows + i {
      var j := |sup| - HoldoutRows + i;
      assert test[i] == sup[j];
      SupervisedRow(series, ext, j);
      assert last[i] == series.At(e - HoldoutRows + i);
    }
    UnwrapOf(last, Targets(test));
  }

  /** A fully observed sequence whose entries are `ys` unwraps to `ys`. */
  lemma {:induction false} UnwrapOf(xs: seq<Option<real>>, ys: seq<real>)
    requires |xs| == |ys| && forall i :: 0 <= i < |xs| ==> xs[i] == Some(ys[i])
    ensures AllPresent(xs) && Unwrap(xs) == ys
  {
  }

  /** With the last two weeks observed, the baseline error the training script reports is
      the one the evaluation script reports for the same series. */
  lemma {:induction false} BaselineErrorAgrees(series: Series, fit: Fit, ext: Externals)
    requires |series.values| >= RunBaseline.MinPoints
    requires AllPresent(series.values[|series.values| - RunBaseline.MinPoints..])
    requires TrainAndEvaluate(series, fit, ext).Ok?
    ensures RunBaseline.BaselineEvaluation(series).Ok?
    ensures TrainAndEvaluate(series, fit, ext).value.maeBaseline == RunBaseline.BaselineEvaluation(series).value.mae
  {
    HoldoutAligned(series, ext);
    RunBaseline.LastTwoWeeks(series);
    RunBaseline.NoGapForecastIsLastWeek(series);
    RunBaseline.EvaluationValue(series);
    var sp := RunBaseline.TemporalSplit(series).value;
    assert sp.train == series.DropLast(HoldoutRows);
    assert sp.test.values == series.TakeLast(HoldoutRows).values;
  }
}
