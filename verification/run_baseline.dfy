/** The baseline evaluation script (training/run_baseline.py): the second copy of the
    seasonal-naive forecast, and `main`'s length guard, temporal split and holdout
    error. Reading the CSV and printing the result are not part of this model. */
module RunBaseline {
  import opened Hourly
  import Stats
  import Baselines

  /** Two weeks of hourly points, `24 * 14`. */
  const MinPoints: nat := 336

  /** The held-out test week. */
  const Holdout: nat := 168

  /** `seasonal_naive(series, horizon, season_hours)`: the script's own copy of the
      baseline, which builds the same forecast as `seasonal_naive_forecast`. */
  method SeasonalNaive(series: Series, horizon: nat, seasonHours: int) returns (r: Result<Baselines.Forecast>)
    ensures r == Baselines.NaiveForecast(series, horizon, seasonHours)
  {
    if series.values == [] {
      return Err(EmptySeries);
    }
    var lastTs := series.Last();
    var yhat: seq<Option<real>> := [];
    var j := 0;
    while j < horizon
      invariant 0 <= j <= horizon
      invariant yhat == Baselines.References(series, horizon, seasonHours)[..j]
    {
      var ts := lastTs + 1 + j;
      yhat := yhat + [series.At(ts - seasonHours)];
      j := j + 1;
    }
    assert yhat == Baselines.References(series, horizon, seasonHours);
    var filled := Baselines.FFill(yhat);
    if AllPresent(filled) {
      return Ok(Baselines.Forecast(lastTs + 1, Unwrap(filled)));
    }
    var last := LastObservedIn(series.values);
    if last.None? {
      return Err(NoObservedValue);
    }
    return Ok(Baselines.Forecast(lastTs + 1, Baselines.FillNa(filled, last.value)));
  }

  /** The training part and the held-out week. */
  datatype Split = Split(train: Series, test: Series)

  /** `main`'s guard and split: fewer than 336 points is refused; otherwise
      `series.iloc[:-168]` trains and `series.iloc[-168:]` is the test week. */
  function TemporalSplit(s: Series): (r: Result<Split>)
    ensures r.Err? <==> |s.values| < MinPoints
    ensures r.Err? ==> r.failure == TooFewPoints(|s.values|)
    ensures r.Ok? ==> r.value.train.values + r.value.test.values == s.values
    ensures r.Ok? ==> r.value.train.start == s.start && r.value.test.start == r.value.train.End()
    ensures r.Ok? ==> |r.value.test.values| == Holdout && |r.value.train.values| >= Holdout
  {
    if |s.values| < MinPoints then Err(TooFewPoints(|s.values|))
    else
      var train, test := s.DropLast(Holdout), s.TakeLast(Holdout);
      assert train.values + test.values == s.values;
      Ok(Split(train, test))
  }

  /** What `main` reports: the first and last hour of the test week and the
      baseline's mean absolute error over it. */
  datatype Evaluation = Evaluation(testStart: int, testEnd: int, mae: real)

  /** `main` as a value. The forecast of the training part fails when that part holds
      no observed value; the error metric rejects a test week with a missing target. */
  function BaselineEvaluation(s: Series): Result<Evaluation>
  {
    match TemporalSplit(s)
    case Err(e) => Err(e)
    case Ok(sp) =>
      match Baselines.NaiveForecast(sp.train, Holdout, Baselines.DefaultSeasonHours)
      case Err(e) => Err(e)
      case Ok(f) =>
        Baselines.NaiveShape(sp.train, Holdout, Baselines.DefaultSeasonHours);
        if !AllPresent(sp.test.values) then Err(MissingTarget)
        else Ok(Evaluation(sp.test.start, sp.test.Last(),
                           Stats.MeanAbsoluteError(Unwrap(sp.test.values), f.values)))
  }

  /** `main`: guard, split, the script's baseline on the training part, then the error. */
  method EvaluateBaseline(series: Series) returns (r: Result<Evaluation>)
    ensures r == BaselineEvaluation(series)
  {
    if |series.values| < 24 * 14 {
      return Err(TooFewPoints(|series.values|));
    }
    var train := series.DropLast(168);
    var test := series.TakeLast(168);
    var forecast := SeasonalNaive(train, 168, 168);
    if forecast.Err? {
      return Err(forecast.failure);
    }
    Baselines.NaiveShape(train, 168, 168);
    if !AllPresent(test.values) {
      return Err(MissingTarget);
    }
    var mae := Stats.MeanAbsoluteError(Unwrap(test.values), forecast.value.values);
    return Ok(Evaluation(test.start, test.Last(), mae));
  }

  // ---------------------------------------------------------------------------
  // What the evaluation promises
  // ---------------------------------------------------------------------------

  /** The evaluation fails on a short series, on a training part with no observed
      value, and on a test week with a gap, and on nothing else. */
  lemma {:induction false} EvaluationFailure(s: Series)
    ensures BaselineEvaluation(s).Err? <==>
            |s.values| < MinPoints ||
            NonePresent(s.values[..|s.values| - Holdout]) ||
            !AllPresent(s.values[|s.values| - Holdout..])
    ensures |s.values| < MinPoints ==> BaselineEvaluation(s) == Err(TooFewPoints(|s.values|))
    ensures |s.values| >= MinPoints && NonePresent(s.values[..|s.values| - Holdout]) ==>
            BaselineEvaluation(s) == Err(NoObservedValue)
  {
    if |s.values| >= MinPoints {
      var sp := TemporalSplit(s).value;
      assert sp.train.values == s.values[..|s.values| - Holdout];
      Baselines.NaiveFailure(sp.train, Holdout, Baselines.DefaultSeasonHours);
    }
  }

  /** The forecast starts at the hour after the training part, the test week's first hour. */
  lemma {:induction false} ForecastStartsTestWeek(s: Series)
    requires TemporalSplit(s).Ok?
    requires Baselines.NaiveForecast(TemporalSplit(s).value.train, Holdout, Baselines.DefaultSeasonHours).Ok?
    ensures var sp := TemporalSplit(s).value;
            var f := Baselines.NaiveForecast(sp.train, Holdout, Baselines.DefaultSeasonHours).value;
            f.first == sp.test.start && |f.values| == |sp.test.values|
  {
    var sp := TemporalSplit(s).value;
    Baselines.NaiveShape(sp.train, Holdout, Baselines.DefaultSeasonHours);
  }

  /** Every reference of the test-week forecast is a slot of the training part's last
      week: position `j` looks up the training slot `168` places before the end plus `j`. */
  lemma {:induction false} ReferencesInLastTrainingWeek(s: Series, j: nat)
    requires TemporalSplit(s).Ok? && j < Holdout
    ensures var train := TemporalSplit(s).value.train;
            Baselines.References(train, Holdout, Baselines.DefaultSeasonHours)[j] ==
            train.TakeLast(Holdout).values[j]
  {
    var train := TemporalSplit(s).value.train;
    var n := |train.values|;
    assert train.At(train.End() + j - 168) == train.values[n - 168 + j];
  }

  /** With the training part's last week fully observed the forecast is that week,
      hour for hour. */
  lemma {:induction false} NoGapForecastIsLastWeek(s: Series)
    requires TemporalSplit(s).Ok?
    requires AllPresent(TemporalSplit(s).value.train.TakeLast(Holdout).values)
    ensures var sp := TemporalSplit(s).value;
            Baselines.NaiveForecast(sp.train, Holdout, Baselines.DefaultSeasonHours) ==
            Ok(Baselines.Forecast(sp.test.start, Unwrap(sp.train.TakeLast(Holdout).values)))
  {
    var sp := TemporalSplit(s).value;
    var refs := Baselines.References(sp.train, Holdout, Baselines.DefaultSeasonHours);
    var week := sp.train.TakeLast(Holdout).values;
    forall j | 0 <= j < Holdout ensures refs[j] == week[j] {
      ReferencesInLastTrainingWeek(s, j);
    }
    assert refs == week;
    Baselines.NaiveExactLookup(sp.train, Holdout, Baselines.DefaultSeasonHours);
  }

  /** With no gap in the last two weeks, the baseline error is zero exactly when the
      test week repeats the week before it. */
  lemma {:induction false} ZeroErrorIffWeekRepeats(s: Series)
    requires |s.values| >= MinPoints
    requires AllPresent(s.values[|s.values| - MinPoints..])
    ensures BaselineEvaluation(s).Ok?
    ensures BaselineEvaluation(s).value.mae == 0.0 <==>
            s.values[|s.values| - MinPoints..|s.values| - Holdout] == s.values[|s.values| - Holdout..]
  {
    var sp := TemporalSplit(s).value;
    var week := sp.train.TakeLast(Holdout).values;
    LastTwoWeeks(s);
    NoGapForecastIsLastWeek(s);
    EvaluationValue(s);
    UnwrapInjective(sp.test.values, week);
  }

  /** The training part's last week and the test week are the last two weeks of the series. */
  lemma {:induction false} LastTwoWeeks(s: Series)
    requires |s.values| >= MinPoints
    requires AllPresent(s.values[|s.values| - MinPoints..])
    ensures var sp := TemporalSplit(s).value;
            var week := sp.train.TakeLast(Holdout).values;
            week == s.values[|s.values| - MinPoints..|s.values| - Holdout] &&
            sp.test.values == s.values[|s.values| - Holdout..] &&
            AllPresent(week) && AllPresent(sp.test.values)
  {
    var n := |s.values|;
    var sp := TemporalSplit(s).value;
    var last := s.values[n - MinPoints..];
    assert sp.train.TakeLast(Holdout).values == last[..Holdout];
    assert sp.test.values == last[Holdout..];
    PresentSlice(last, 0, Holdout);
    PresentSlice(last, Holdout, MinPoints);
  }

  /** A slice of a fully observed sequence is fully observed. */
  lemma {:induction false} PresentSlice(xs: seq<Option<real>>, i: nat, j: nat)
    requires i <= j <= |xs| && AllPresent(xs)
    ensures AllPresent(xs[i..j])
  {
    forall k | 0 <= k < j - i ensures xs[i..j][k].Some? {
      assert xs[i..j][k] == xs[i + k];
    }
  }

  /** A successful evaluation reports the test week's hours and the error of the
      training part's forecast against the test targets. */
  lemma {:induction false} EvaluationValue(s: Series)
    requires TemporalSplit(s).Ok?
    requires Baselines.NaiveForecast(TemporalSplit(s).value.train, Holdout, Baselines.DefaultSeasonHours).Ok?
    requires AllPresent(TemporalSplit(s).value.test.values)
    ensures var sp := TemporalSplit(s).value;
            var f := Baselines.NaiveForecast(sp.train, Holdout, Baselines.DefaultSeasonHours).value;
            |f.values| == Holdout &&
            BaselineEvaluation(s) ==
            Ok(Evaluation(sp.test.start, sp.test.Last(), Stats.MeanAbsoluteError(Unwrap(sp.test.values), f.values)))
  {
    var sp := TemporalSplit(s).value;
    Baselines.NaiveShape(sp.train, Holdout, Baselines.DefaultSeasonHours);
  }

  /** Two fully observed sequences agree exactly when their values do. */
  lemma {:induction false} UnwrapInjective(a: seq<Option<real>>, b: seq<Option<real>>)
    requires AllPresent(a) && AllPresent(b) && |a| == |b|
    ensures Unwrap(a) == Unwrap(b) <==> a == b
  {
    if Unwrap(a) == Unwrap(b) {
      forall i | 0 <= i < |a| ensures a[i] == b[i] {
        assert a[i] == Some(Unwrap(a)[i]) && b[i] == Some(Unwrap(b)[i]);
      }
    }
  }
}
