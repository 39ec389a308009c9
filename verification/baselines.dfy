/** The seasonal-naive baseline (training/baselines.py): every future hour takes the
    value one season earlier; misses are forward-filled inside the forecast and what
    is still missing falls back to the last observed value of the history. */
module Baselines {
  import opened Hourly

  /** A forecast indexed by `future_index`: `values[j]` belongs to hour `first + j`. */
  datatype Forecast = Forecast(first: int, values: seq<real>)

  const DefaultSeasonHours: int := 168

  /** The looked-up references: hour `End() + j` reads the value at `End() + j - season`,
      missing when that hour is outside the series or a gap (`series.get(ref_ts, nan)`). */
  function References(s: Series, horizon: nat, season: int): (refs: seq<Option<real>>)
    ensures |refs| == horizon
    ensures forall j :: 0 <= j < horizon ==> refs[j] == s.At(s.End() + j - season)
  {
    seq(horizon, j => s.At(s.End() + j - season))
  }

  /** `ffill()`: a missing entry takes the entry before it once that one is filled. */
  function FFill(xs: seq<Option<real>>): (r: seq<Option<real>>)
    ensures |r| == |xs|
  {
    if xs == [] then []
    else
      var prev := FFill(xs[..|xs| - 1]);
      var x := xs[|xs| - 1];
      prev + [if x.Some? || prev == [] then x else prev[|prev| - 1]]
  }

  /** `fillna(v)`: every entry still missing becomes `v`. */
  function FillNa(xs: seq<Option<real>>, v: real): (r: seq<real>)
    ensures |r| == |xs|
    ensures forall j :: 0 <= j < |xs| ==> r[j] == if xs[j].Some? then xs[j].value else v
  {
    seq(|xs|, j requires 0 <= j < |xs| => if xs[j].Some? then xs[j].value else v)
  }

  /** On a sequence with nothing missing `fillna` changes no value. */
  lemma {:induction false} FillNaComplete(xs: seq<Option<real>>, v: real)
    requires AllPresent(xs)
    ensures FillNa(xs, v) == Unwrap(xs)
  {
    var r, u := FillNa(xs, v), Unwrap(xs);
    forall j | 0 <= j < |xs| ensures r[j] == u[j] {
      assert xs[j] == Some(u[j]);
    }
  }

  /** `seasonal_naive_forecast(series, horizon, season_hours)` as a value. An empty
      history has no last timestamp, so building the future index fails; a forecast
      with a miss left after the forward fill needs an observed value to fall back on. */
  function NaiveForecast(s: Series, horizon: nat, season: int): Result<Forecast>
  {
    if s.values == [] then Err(EmptySeries)
    else
      var filled := FFill(References(s, horizon, season));
      if AllPresent(filled) then Ok(Forecast(s.End(), Unwrap(filled)))
      else match LastObservedIn(s.values)
        case None => Err(NoObservedValue)
        case Some(v) => Ok(Forecast(s.End(), FillNa(filled, v)))
  }

  /** `seasonal_naive_forecast`: the lookup loop, then the forward fill and the fallback. */
  method SeasonalNaiveForecast(series: Series, horizon: nat, seasonHours: int) returns (r: Result<Forecast>)
    ensures r == NaiveForecast(series, horizon, seasonHours)
  {
    if series.values == [] {
      return Err(EmptySeries);
    }
    var first := series.End();
    var preds: seq<Option<real>> := [];
    var ts := first;
    while ts < first + horizon
      invariant first <= ts <= first + horizon
      invariant preds == References(series, horizon, seasonHours)[..ts - first]
    {
      var refTs := ts - seasonHours;
      preds := preds + [series.At(refTs)];
      ts := ts + 1;
    }
    assert preds == References(series, horizon, seasonHours);
    var yhat := FFill(preds);
    if !AllPresent(yhat) {
      var last := LastObservedIn(series.values);
      if last.None? {
        return Err(NoObservedValue);
      }
      return Ok(Forecast(first, FillNa(yhat, last.value)));
    }
    return Ok(Forecast(first, Unwrap(yhat)));
  }

  // ---------------------------------------------------------------------------
  // The forward fill against its reference: the latest present entry so far
  // ---------------------------------------------------------------------------

  /** Entry `j` of the forward fill is the last present entry among `xs[0..j]`. */
  lemma {:induction false} FFillIsLatestPresent(xs: seq<Option<real>>, j: nat)
    requires j < |xs|
    ensures FFill(xs)[j] == LastObservedIn(xs[..j + 1])
  {
    var n := |xs|;
    var init := xs[..n - 1];
    var prev := FFill(init);
    assert FFill(xs) == prev + [if xs[n - 1].Some? || prev == [] then xs[n - 1] else prev[|prev| - 1]];
    if j < n - 1 {
      FFillIsLatestPresent(init, j);
      assert init[..j + 1] == xs[..j + 1];
    } else {
      assert xs[..j + 1] == xs;
      if xs[n - 1].None? && n > 1 {
        FFillIsLatestPresent(init, n - 2);
        assert init[..n - 1] == init;
        assert xs[..n - 1] == init;
      }
    }
  }

  /** The value the forecast holds at position `j`: the forward-filled reference, or
      the last observed value of the history when no earlier reference was present. */
  lemma {:induction false} NaiveAt(s: Series, horizon: nat, season: int, j: nat)
    requires NaiveForecast(s, horizon, season).Ok? && j < horizon
    ensures var latest := LastObservedIn(References(s, horizon, season)[..j + 1]);
            latest.Some? ==> NaiveForecast(s, horizon, season).value.values[j] == latest.value
    ensures var latest := LastObservedIn(References(s, horizon, season)[..j + 1]);
            latest.None? ==> LastObservedIn(s.values).Some? &&
                             NaiveForecast(s, horizon, season).value.values[j] == LastObservedIn(s.values).value
  {
    FFillIsLatestPresent(References(s, horizon, season), j);
  }

  // ---------------------------------------------------------------------------
  // What the baseline promises
  // ---------------------------------------------------------------------------

  /** The forecast covers the `horizon` hours `last_ts + 1h .. last_ts + horizon * 1h`. */
  lemma {:induction false} NaiveShape(s: Series, horizon: nat, season: int)
    requires NaiveForecast(s, horizon, season).Ok?
    ensures s.values != []
    ensures NaiveForecast(s, horizon, season).value.first == s.Last() + 1
    ensures |NaiveForecast(s, horizon, season).value.values| == horizon
  {
  }

  /** The baseline fails exactly when the history is empty, or when some hour is to
      be forecast and the history holds no observed value to fall back on. */
  lemma {:induction false} NaiveFailure(s: Series, horizon: nat, season: int)
    ensures NaiveForecast(s, horizon, season).Err? <==>
            s.values == [] || (horizon >= 1 && NonePresent(s.values))
    ensures s.values == [] ==> NaiveForecast(s, horizon, season) == Err(EmptySeries)
    ensures s.values != [] && NaiveForecast(s, horizon, season).Err? ==>
            NaiveForecast(s, horizon, season) == Err(NoObservedValue)
  {
    if s.values != [] && horizon >= 1 && NonePresent(s.values) {
      var refs := References(s, horizon, season);
      assert refs[0].None? by {
        assert refs[0] == s.At(s.End() - season);
      }
      FFillIsLatestPresent(refs, 0);
      assert refs[..1] == [refs[0]];
      assert FFill(refs)[0].None?;
    }
  }

  // In the lemmas below `References(s, horizon, season)[k]` is the value the history
  // holds at hour `s.End() + k - season`, as `References` ensures.

  /** A present reference is the prediction for its hour. */
  lemma {:induction false} NaivePresentReference(s: Series, horizon: nat, season: int, j: nat)
    requires NaiveForecast(s, horizon, season).Ok? && j < horizon
    requires s.At(s.End() + j - season).Some?
    ensures NaiveForecast(s, horizon, season).value.values[j] == s.At(s.End() + j - season).value
  {
    var refs := References(s, horizon, season);
    var upTo := refs[..j + 1];
    assert upTo[j] == refs[j] == s.At(s.End() + j - season);
    LastObservedAt(upTo, j);
    NaiveAt(s, horizon, season, j);
  }

  /** With every reference present the baseline is exactly the historical lookup. */
  lemma {:induction false} NaiveExactLookup(s: Series, horizon: nat, season: int)
    requires s.values != []
    requires AllPresent(References(s, horizon, season))
    ensures NaiveForecast(s, horizon, season) ==
            Ok(Forecast(s.End(), Unwrap(References(s, horizon, season))))
  {
    var refs := References(s, horizon, season);
    forall j | 0 <= j < horizon ensures FFill(refs)[j] == refs[j] {
      FFillIsLatestPresent(refs, j);
      LastObservedAt(refs[..j + 1], j);
    }
    assert FFill(refs) == refs;
  }

  /** Forward fill: when the reference at `i` is present and every later one up to `j`
      is missing, position `j` repeats the value found at `i`. */
  lemma {:induction false} NaiveForwardFill(s: Series, horizon: nat, season: int, i: nat, j: nat)
    requires NaiveForecast(s, horizon, season).Ok? && i <= j < horizon
    requires References(s, horizon, season)[i].Some?
    requires forall k :: i < k <= j ==> References(s, horizon, season)[k].None?
    ensures NaiveForecast(s, horizon, season).value.values[j] == References(s, horizon, season)[i].value
  {
    var w := References(s, horizon, season)[..j + 1];
    LastObservedAt(w, i);
    NaiveAt(s, horizon, season, j);
  }

  /** Before the first present reference every position takes the last observed value. */
  lemma {:induction false} NaiveBeforeFirstFound(s: Series, horizon: nat, season: int, j: nat)
    requires NaiveForecast(s, horizon, season).Ok? && j < horizon
    requires NonePresent(References(s, horizon, season)[..j + 1])
    ensures LastObservedIn(s.values).Some?
    ensures NaiveForecast(s, horizon, season).value.values[j] == LastObservedIn(s.values).value
  {
    NaiveAt(s, horizon, season, j);
  }

  /** Every predicted value is a value the history holds at some hour. */
  lemma {:induction false} NaiveValuesObserved(s: Series, horizon: nat, season: int, j: nat)
    requires NaiveForecast(s, horizon, season).Ok? && j < horizon
    ensures exists t :: s.At(t) == Some(NaiveForecast(s, horizon, season).value.values[j])
  {
    NaiveAt(s, horizon, season, j);
    var latest := LastObservedIn(References(s, horizon, season)[..j + 1]);
    var t;
    if latest.Some? {
      t := LatestReferenceHour(s, horizon, season, j);
    } else {
      t := LastObservedHour(s);
    }
    assert s.At(t) == Some(NaiveForecast(s, horizon, season).value.values[j]);
  }

  /** The hour whose value the forward fill carries to position `j`. */
  lemma {:induction false} LatestReferenceHour(s: Series, horizon: nat, season: int, j: nat) returns (t: int)
    requires j < horizon
    requires LastObservedIn(References(s, horizon, season)[..j + 1]).Some?
    ensures s.At(t) == LastObservedIn(References(s, horizon, season)[..j + 1])
  {
    var refs := References(s, horizon, season);
    var w := refs[..j + 1];
    var i :| 0 <= i < |w| && w[i] == LastObservedIn(w) && forall k :: i < k < |w| ==> w[k].None?;
    t := s.End() + i - season;
    assert w[i] == refs[i];
  }

  /** The hour of the history's last observed value. */
  lemma {:induction false} LastObservedHour(s: Series) returns (t: int)
    requires LastObservedIn(s.values).Some?
    ensures s.At(t) == LastObservedIn(s.values)
  {
    var i :| 0 <= i < |s.values| && s.values[i] == LastObservedIn(s.values) &&
             forall k :: i < k < |s.values| ==> s.values[k].None?;
    t := s.start + i;
  }

  /** Past the season every reference lies after the history, so for
      `1 <= season < horizon` every position from `season` on repeats position `season - 1`. */
  lemma {:induction false} NaiveLongHorizon(s: Series, horizon: nat, season: int, j: nat)
    requires NaiveForecast(s, horizon, season).Ok?
    requires 1 <= season <= j < horizon
    ensures NaiveForecast(s, horizon, season).value.values[j] ==
            NaiveForecast(s, horizon, season).value.values[season - 1]
  {
    var refs := References(s, horizon, season);
    var i: nat := season - 1;
    LatestAfterSeason(s, horizon, season, j);
    assert refs[..i + 1] == refs[..season];
    NaiveAt(s, horizon, season, j);
    NaiveAt(s, horizon, season, i);
  }

  /** References from position `season` on are missing, so the latest present one up to
      `j` is the latest up to `season - 1`. */
  lemma {:induction false} LatestAfterSeason(s: Series, horizon: nat, season: int, j: nat)
    requires 1 <= season <= j < horizon
    ensures LastObservedIn(References(s, horizon, season)[..j + 1]) ==
            LastObservedIn(References(s, horizon, season)[..season])
  {
    var refs := References(s, horizon, season);
    var w := refs[..j + 1];
    forall k | season <= k < |w| ensures w[k].None? {
      assert w[k] == s.At(s.End() + k - season);
    }
    LastObservedSkipsMissing(w, season);
    assert w[..season] == refs[..season];
  }
}
