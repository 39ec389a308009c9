/** The recursive multi-step forecaster (training/forecast.py): each future hour gets
    the model's prediction from the point features of the history so far, and the
    prediction is written back into a working copy of the series so that later hours
    see it as a lag. The seasonal-naive baseline rides along as a second column. */
module Forecasting {
  import opened Hourly
  import opened Features
  import Baselines

  /** One row of the returned frame: `timestamp`, `yhat`, `baseline`. */
  datatype ForecastRow = ForecastRow(ts: int, yhat: real, baseline: real)

  /** The working copy `s` of the history, grown in place by each prediction. */
  class WorkingSeries {
    var start: int
    var values: seq<Option<real>>

    /** The series the working copy currently holds. */
    function Snapshot(): Series
      reads this
    {
      Series(start, values)
    }

    /** `series.sort_index().asfreq("h").copy()`: a fresh copy of a history. */
    constructor Copy(s: Series)
      ensures Snapshot() == s
    {
      start := s.start;
      values := s.values;
    }

    /** `s.loc[ts] = v` for `ts` one hour after the last index: the index grows by
        exactly that hour and every earlier hour keeps its value. */
    method SetNext(v: real)
      modifies this
      ensures Snapshot() == old(Snapshot()).Append(v)
      ensures Snapshot().End() == old(Snapshot().End()) + 1
    {
      values := values + [Some(v)];
    }
  }

  /** One step of the loop: the model applied to the point features of the next hour
      over the history `s` extended by the predictions `vs` made so far. */
  function NextPrediction(s: Series, model: FeatureRow -> real, ext: Externals): seq<real> -> real
  {
    (vs: seq<real>) => Step(s, model, ext, vs)
  }

  /** `model.predict(make_features_at(s, ts))` for the hour `ts` right after the
      history `s` extended by `vs`. */
  function Step(s: Series, model: FeatureRow -> real, ext: Externals, vs: seq<real>): real
  {
    var h := s.Extend(vs);
    model(MakeFeaturesAt(h, h.End(), ext))
  }

  /** The first `n` values of a rollout: value `k` is `next` of the `k` values before it. */
  function Rollout(next: seq<real> -> real, n: nat): (p: seq<real>)
    ensures |p| == n
  {
    if n == 0 then []
    else
      var prev := Rollout(next, n - 1);
      prev + [next(prev)]
  }

  /** The first `n` predictions of the recursive forecaster. */
  function Predictions(s: Series, model: FeatureRow -> real, n: nat, ext: Externals): (p: seq<real>)
    ensures |p| == n
  {
    Rollout(NextPrediction(s, model, ext), n)
  }

  /** One more prediction is one more step over the predictions so far. */
  lemma {:induction false} PredictionsSnoc(s: Series, model: FeatureRow -> real, n: nat, ext: Externals)
    ensures var ps := Predictions(s, model, n, ext);
            Predictions(s, model, n + 1, ext) == ps + [Step(s, model, ext, ps)]
  {
  }

  /** The frame's rows: hour `first + k` with its prediction and its baseline value. */
  function Frame(first: int, yhats: seq<real>, baseline: seq<real>): (rows: seq<ForecastRow>)
    requires |yhats| == |baseline|
    ensures |rows| == |yhats|
    ensures forall k :: 0 <= k < |rows| ==> rows[k] == ForecastRow(first + k, yhats[k], baseline[k])
  {
    seq(|yhats|, k requires 0 <= k < |yhats| == |baseline| => ForecastRow(first + k, yhats[k], baseline[k]))
  }

  /** `forecast_horizon(series, model, horizon)` as a value. An empty history has no
      last timestamp; the baseline column fails when it needs a fallback the history
      cannot give. */
  function ForecastFrame(series: Series, model: FeatureRow -> real, horizon: nat, ext: Externals)
    : Result<seq<ForecastRow>>
  {
    if series.values == [] then Err(EmptySeries)
    else match Baselines.NaiveForecast(series, horizon, Baselines.DefaultSeasonHours)
      case Err(e) => Err(e)
      case Ok(b) =>
        Baselines.NaiveShape(series, horizon, Baselines.DefaultSeasonHours);
        Ok(Frame(series.End(), Predictions(series, model, horizon, ext), b.values))
  }

  /** `forecast_horizon`: predict, write the prediction back, move to the next hour;
      then the baseline on the caller's series, which the method does not modify. */
  method ForecastHorizon(series: Series, model: FeatureRow -> real, horizon: nat, ext: Externals)
    returns (r: Result<seq<ForecastRow>>)
    ensures r == ForecastFrame(series, model, horizon, ext)
  {
    if series.values == [] {
      return Err(EmptySeries);
    }
    var s := new WorkingSeries.Copy(series);
    var first := series.End();
    var preds: seq<real> := [];
    var ts := first;
    while ts < first + horizon
      invariant first <= ts <= first + horizon
      invariant preds == Predictions(series, model, ts - first, ext)
      invariant s.Snapshot() == series.Extend(preds)
      invariant ts == s.Snapshot().End()
    {
      var x := MakeFeaturesAt(s.Snapshot(), ts, ext);
      var yhat := model(x);
      PredictionsSnoc(series, model, |preds|, ext);
      series.ExtendAppend(preds, yhat);
      preds := preds + [yhat];
      s.SetNext(yhat);
      ts := ts + 1;
    }
    var baseline := Baselines.SeasonalNaiveForecast(series, horizon, Baselines.DefaultSeasonHours);
    if baseline.Err? {
      return Err(baseline.failure);
    }
    Baselines.NaiveShape(series, horizon, Baselines.DefaultSeasonHours);
    return Ok(Frame(first, preds, baseline.value.values));
  }

  /** The predictions column of a frame. */
  function Yhats(rows: seq<ForecastRow>): (ys: seq<real>)
    ensures |ys| == |rows|
    ensures forall k :: 0 <= k < |rows| ==> ys[k] == rows[k].yhat
  {
    seq(|rows|, k requires 0 <= k < |rows| => rows[k].yhat)
  }

  /** The baseline column of a frame. */
  function BaselineColumn(rows: seq<ForecastRow>): (bs: seq<real>)
    ensures |bs| == |rows|
    ensures forall k :: 0 <= k < |rows| ==> bs[k] == rows[k].baseline
  {
    seq(|rows|, k requires 0 <= k < |rows| => rows[k].baseline)
  }

  /** The frame's two value columns give back the predictions and the baseline it was built from. */
  lemma {:induction false} FrameColumns(first: int, yhats: seq<real>, baseline: seq<real>)
    requires |yhats| == |baseline|
    ensures Yhats(Frame(first, yhats, baseline)) == yhats
    ensures BaselineColumn(Frame(first, yhats, baseline)) == baseline
  {
    var rows := Frame(first, yhats, baseline);
    assert Yhats(rows) == yhats;
    assert BaselineColumn(rows) == baseline;
  }

  /** A rollout of fewer steps is a prefix of a longer one: a later step never changes
      an earlier value. */
  lemma {:induction false} RolloutPrefix(next: seq<real> -> real, m: nat, n: nat)
    requires m <= n
    ensures Rollout(next, m) == Rollout(next, n)[..m]
  {
    if m < n {
      RolloutPrefix(next, m, n - 1);
      assert Rollout(next, n)[..n - 1] == Rollout(next, n - 1);
    }
  }

  /** Value `k` of a rollout is `next` of the values before it, read back from the rollout itself. */
  lemma {:induction false} RolloutStep(next: seq<real> -> real, n: nat, k: nat)
    requires k < n
    ensures Rollout(next, n)[k] == next(Rollout(next, n)[..k])
  {
    RolloutPrefix(next, k + 1, n);
    RolloutPrefix(next, k, n);
    assert Rollout(next, k + 1)[k] == Rollout(next, n)[k];
  }

  /** The frame has `horizon` rows for the hours `last_ts + 1h .. last_ts + horizon * 1h`. */
  lemma {:induction false} ForecastShape(series: Series, model: FeatureRow -> real, horizon: nat, ext: Externals)
    requires ForecastFrame(series, model, horizon, ext).Ok?
    ensures var rows := ForecastFrame(series, model, horizon, ext).value;
            |rows| == horizon && forall k :: 0 <= k < horizon ==> rows[k].ts == series.Last() + 1 + k
  {
  }

  /** The forecast fails exactly as its baseline column does: on an empty history, or
      with hours to forecast and no observed value in the history. */
  lemma {:induction false} ForecastFailure(series: Series, model: FeatureRow -> real, horizon: nat, ext: Externals)
    ensures ForecastFrame(series, model, horizon, ext).Err? <==>
            series.values == [] || (horizon >= 1 && NonePresent(series.values))
  {
    Baselines.NaiveFailure(series, horizon, Baselines.DefaultSeasonHours);
  }

  /** The frame's predictions are the first `horizon` predictions of the rollout. */
  lemma {:induction false} FrameYhats(series: Series, model: FeatureRow -> real, horizon: nat, ext: Externals)
    requires ForecastFrame(series, model, horizon, ext).Ok?
    ensures Yhats(ForecastFrame(series, model, horizon, ext).value) == Predictions(series, model, horizon, ext)
  {
  }

  /** Prediction `k` is one step over the history extended by the predictions before it. */
  lemma {:induction false} PredictionStep(s: Series, model: FeatureRow -> real, n: nat, ext: Externals, k: nat)
    requires k < n
    ensures var ps := Predictions(s, model, n, ext);
            ps[k] == Step(s, model, ext, ps[..k])
  {
    RolloutStep(NextPrediction(s, model, ext), n, k);
  }

  /** Step `k` is the model on the point features of hour `last_ts + (k + 1)h` over the
      history extended by exactly the predictions of steps `0 .. k - 1`. */
  lemma {:induction false} ForecastStep(series: Series, model: FeatureRow -> real, horizon: nat, ext: Externals, k: nat)
    requires ForecastFrame(series, model, horizon, ext).Ok? && k < horizon
    ensures var ys := Yhats(ForecastFrame(series, model, horizon, ext).value);
            ys[k] == Step(series, model, ext, ys[..k])
  {
    FrameYhats(series, model, horizon, ext);
    PredictionStep(series, model, horizon, ext, k);
  }

  /** No lookahead: the features at step `k` depend only on the first `k` values written
      back, whatever stands at the later hours. */
  lemma {:induction false} ForecastCausal(series: Series, vs: seq<real>, k: nat, ext: Externals)
    requires k <= |vs|
    ensures var h := series.Extend(vs[..k]);
            MakeFeaturesAt(series.Extend(vs), h.End(), ext) == MakeFeaturesAt(h, h.End(), ext)
  {
    var s1, s2 := series.Extend(vs), series.Extend(vs[..k]);
    ExtendPrefixAgree(series, vs, k);
    PointDependsOnPrefix(s1, s2, s2.End(), ext);
  }

  /** The history extended by `vs` and by its first `k` values agree before hour `End() + k`. */
  lemma {:induction false} ExtendPrefixAgree(series: Series, vs: seq<real>, k: nat)
    requires k <= |vs|
    ensures forall t :: t < series.Extend(vs[..k]).End() ==>
              series.Extend(vs).At(t) == series.Extend(vs[..k]).At(t)
  {
    var s1, s2 := series.Extend(vs), series.Extend(vs[..k]);
    forall t | t < s2.End() ensures s1.At(t) == s2.At(t) {
      if t >= series.End() {
        assert vs[..k][t - series.End()] == vs[t - series.End()];
      }
    }
  }

  /** The baseline column is the seasonal-naive forecast of the caller's series, so no
      prediction and no choice of model changes it. */
  lemma {:induction false} ForecastBaseline(series: Series, model1: FeatureRow -> real, model2: FeatureRow -> real,
                         horizon: nat, ext: Externals)
    requires ForecastFrame(series, model1, horizon, ext).Ok?
    ensures ForecastFrame(series, model2, horizon, ext).Ok?
    ensures Baselines.NaiveForecast(series, horizon, Baselines.DefaultSeasonHours).Ok?
    ensures BaselineColumn(ForecastFrame(series, model1, horizon, ext).value) ==
            BaselineColumn(ForecastFrame(series, model2, horizon, ext).value) ==
            Baselines.NaiveForecast(series, horizon, Baselines.DefaultSeasonHours).value.values
  {
  }

  /** With the last 168 hours observed, the first step's features are the row the
      supervised table would build at the next hour, whatever value that hour gets. */
  lemma {:induction false} ForecastFirstStepParity(series: Series, model: FeatureRow -> real, horizon: nat, ext: Externals, v: real)
    requires ForecastFrame(series, model, horizon, ext).Ok? && horizon >= 1
    requires |series.values| >= 168 && AllPresent(series.values[|series.values| - 168..])
    ensures ForecastFrame(series, model, horizon, ext).value[0].yhat ==
            model(TableFeaturesAt(series.Append(v), series.End(), ext))
  {
    ForecastStep(series, model, horizon, ext, 0);
    var ys := Yhats(ForecastFrame(series, model, horizon, ext).value);
    assert series.Extend(ys[..0]) == series by {
      assert Lift(ys[..0]) == [];
      assert series.values + [] == series.values;
    }
    FeatureParity(series, v, ext);
  }
}
