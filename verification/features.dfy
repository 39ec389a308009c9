/** Feature engineering (training/features.py): the supervised table built for
    training and the single feature row built for one future hour at inference.
    The calendar encodings (sine and cosine of hour and weekday, the month) and
    the square root inside the standard deviation are floating-point library
    work; they enter as the uninterpreted functions of `Externals`. */
module Features {
  import opened Hourly
  import Stats

  /** `_time_features` for one timestamp. */
  datatype Calendar = Calendar(hourSin: real, hourCos: real, dowSin: real, dowCos: real, month: real)

  datatype Externals = Externals(calendar: int -> Calendar, sqrt: real -> real)

  /** One feature row, fields in the column order both builders use. */
  datatype FeatureRow = FeatureRow(
    lag1: Option<real>, lag24: Option<real>, lag168: Option<real>,
    rollMean24: Option<real>, rollMean168: Option<real>, rollStd24: Option<real>,
    calendar: Calendar)

  /** A row that survives `dropna`: every lag and rolling feature is present. */
  predicate Complete(f: FeatureRow)
  {
    f.lag1.Some? && f.lag24.Some? && f.lag168.Some? &&
    f.rollMean24.Some? && f.rollMean168.Some? && f.rollStd24.Some?
  }

  /** One row of the supervised table: its hour, the target `y` and the features. */
  datatype TableRow = TableRow(ts: int, y: real, x: FeatureRow)

  const TimeFeatureColumns: seq<string> := ["hour_sin", "hour_cos", "dow_sin", "dow_cos", "month"]

  /** Columns of `make_supervised`'s frame, in the order they are added. */
  const TableColumns: seq<string> :=
    ["y", "lag_1", "lag_24", "lag_168", "roll_mean_24", "roll_mean_168", "roll_std_24"] + TimeFeatureColumns

  /** Keys of `make_features_at`'s row, in the order they are inserted. */
  const PointColumns: seq<string> :=
    ["lag_1", "lag_24", "lag_168", "roll_mean_24", "roll_mean_168", "roll_std_24"] + TimeFeatureColumns

  /** `cols` without the column `name`, order kept: `frame.drop(columns=[name]).columns`. */
  function DropColumn(cols: seq<string>, name: string): (r: seq<string>)
    ensures name !in r
    ensures forall c :: c in r <==> c in cols && c != name
  {
    if cols == [] then []
    else (if cols[0] == name then [] else [cols[0]]) + DropColumn(cols[1..], name)
  }

  lemma {:induction false} DropAbsentColumn(cols: seq<string>, name: string)
    requires name !in cols
    ensures DropColumn(cols, name) == cols
  {
    if cols != [] {
      DropAbsentColumn(cols[1..], name);
    }
  }

  /** The table's feature columns are the point builder's keys, in the same order. */
  lemma {:induction false} FeatureColumnsAgree()
    ensures DropColumn(TableColumns, "y") == PointColumns
  {
    assert TableColumns == ["y"] + PointColumns;
    assert (["y"] + PointColumns)[1..] == PointColumns;
    DropAbsentColumn(PointColumns, "y");
  }

  // ---------------------------------------------------------------------------
  // The supervised table (make_supervised)
  // ---------------------------------------------------------------------------

  /** The `n` hours just before `t`, oldest first: what `shift(1).rolling(n)` sees at `t`. */
  function Window(s: Series, t: int, n: nat): (w: seq<Option<real>>)
    ensures |w| == n
    ensures forall j :: 0 <= j < n ==> w[j] == s.At(t - n + j)
  {
    seq(n, j => s.At(t - n + j))
  }

  /** `s.shift(1).rolling(n).mean()` at `t`: missing unless all `n` earlier hours are present. */
  function RollingMean(s: Series, t: int, n: nat): Option<real>
    requires n >= 1
  {
    var w := Window(s, t, n);
    if AllPresent(w) then Some(Stats.Mean(Unwrap(w))) else None
  }

  /** `s.shift(1).rolling(n).std()` at `t`. */
  function RollingStd(s: Series, t: int, n: nat, sqrt: real -> real): Option<real>
    requires n >= 2
  {
    var w := Window(s, t, n);
    if AllPresent(w) then Some(sqrt(Stats.SampleVariance(Unwrap(w)))) else None
  }

  /** The features of the table's row at hour `t`, before `dropna`. */
  function TableFeaturesAt(s: Series, t: int, ext: Externals): FeatureRow
  {
    FeatureRow(
      s.At(t - 1), s.At(t - 24), s.At(t - 168),
      RollingMean(s, t, 24), RollingMean(s, t, 168), RollingStd(s, t, 24, ext.sqrt),
      ext.calendar(t))
  }

  /** Hour `t` yields a row: its target and every feature are present. */
  predicate Kept(s: Series, t: int, ext: Externals)
  {
    s.At(t).Some? && Complete(TableFeaturesAt(s, t, ext))
  }

  /** The 169 hours `t - 168 .. t` are all present. */
  predicate ObservedWeek(s: Series, t: int)
  {
    forall u :: t - 168 <= u <= t ==> s.At(u).Some?
  }

  lemma {:induction false} WindowPresent(s: Series, t: int, n: nat)
    ensures AllPresent(Window(s, t, n)) <==> forall u :: t - n <= u < t ==> s.At(u).Some?
  {
    var w := Window(s, t, n);
    if AllPresent(w) {
      forall u | t - n <= u < t ensures s.At(u).Some? {
        assert w[u - t + n] == s.At(u);
      }
    }
  }

  /** A row survives `dropna` exactly when its own hour and the 168 before it are present. */
  lemma {:induction false} KeptIff(s: Series, t: int, ext: Externals)
    ensures Kept(s, t, ext) <==> ObservedWeek(s, t)
  {
    WindowPresent(s, t, 24);
    WindowPresent(s, t, 168);
  }

  /** The sample `make_supervised` keeps at hour `t`, if `dropna` keeps one. */
  function RowAt(s: Series, t: int, ext: Externals): Option<(real, FeatureRow)>
  {
    if Kept(s, t, ext) then Some((s.At(t).value, TableFeaturesAt(s, t, ext))) else None
  }

  /** `RowAt` as the function of the hour that `Collect` filters with. */
  function Sampler(s: Series, ext: Externals): int -> Option<(real, FeatureRow)>
  {
    t => RowAt(s, t, ext)
  }

  /** The rows `rowAt` keeps among the hours `first .. first + n - 1`, in hour order:
      `dropna` over the table's index. */
  function Collect(first: int, n: nat, rowAt: int -> Option<(real, FeatureRow)>): (rows: seq<TableRow>)
    ensures forall i :: 0 <= i < |rows| ==>
      first <= rows[i].ts < first + n && rowAt(rows[i].ts) == Some((rows[i].y, rows[i].x))
  {
    if n == 0 then []
    else
      var t := first + n - 1;
      Collect(first, n - 1, rowAt) + (match rowAt(t) case Some(p) => [TableRow(t, p.0, p.1)] case None => [])
  }

  /** Every hour `rowAt` keeps has its row. */
  lemma {:induction false} CollectComplete(first: int, n: nat, rowAt: int -> Option<(real, FeatureRow)>, t: int)
    requires first <= t < first + n && rowAt(t).Some?
    ensures exists i :: 0 <= i < |Collect(first, n, rowAt)| && Collect(first, n, rowAt)[i].ts == t
  {
    var prev := Collect(first, n - 1, rowAt);
    var rows := Collect(first, n, rowAt);
    if t < first + n - 1 {
      CollectComplete(first, n - 1, rowAt, t);
      var i :| 0 <= i < |prev| && prev[i].ts == t;
      assert rows[i] == prev[i];
    } else {
      assert rows[|prev|].ts == t;
    }
  }

  /** Strictly ascending hours, so also no hour twice. */
  predicate Ascending(rows: seq<TableRow>)
  {
    forall i, j :: 0 <= i < j < |rows| ==> rows[i].ts < rows[j].ts
  }

  /** The collected rows come in strictly ascending hour order. */
  lemma {:induction false} CollectAscending(first: int, n: nat, rowAt: int -> Option<(real, FeatureRow)>)
    ensures Ascending(Collect(first, n, rowAt))
  {
    if n > 0 {
      CollectAscending(first, n - 1, rowAt);
      var prev := Collect(first, n - 1, rowAt);
      var t := first + n - 1;
      var extra := match rowAt(t) case Some(p) => [TableRow(t, p.0, p.1)] case None => [];
      var rows := prev + extra;
      assert Collect(first, n, rowAt) == rows;
      forall i, j | 0 <= i < j < |rows| ensures rows[i].ts < rows[j].ts {
        if j < |prev| {
          assert rows[i] == prev[i] && rows[j] == prev[j];
        } else {
          assert rows[i] == prev[i] && rows[j] == extra[0];
        }
      }
    }
  }

  /** `make_supervised`: the rows of the hours whose target, lags and rolling
      statistics are all present. */
  function MakeSupervised(s: Series, ext: Externals): seq<TableRow>
  {
    Collect(s.start, |s.values|, Sampler(s, ext))
  }

  /** Each row holds the target and the pre-`dropna` features of its own hour, which
      lies inside the series, after its first 168 hours, with those 168 hours present. */
  lemma {:induction false} SupervisedRow(s: Series, ext: Externals, i: nat)
    requires i < |MakeSupervised(s, ext)|
    ensures var r := MakeSupervised(s, ext)[i];
      s.At(r.ts) == Some(r.y) && r.x == TableFeaturesAt(s, r.ts, ext) && Kept(s, r.ts, ext) &&
      ObservedWeek(s, r.ts) && s.start + 168 <= r.ts < s.End()
  {
    var r := MakeSupervised(s, ext)[i];
    assert Sampler(s, ext)(r.ts) == RowAt(s, r.ts, ext);
    KeptIff(s, r.ts, ext);
    assert s.At(r.ts - 168).Some?;
  }

  /** The table's rows are in strictly ascending hour order. */
  lemma {:induction false} SupervisedAscending(s: Series, ext: Externals)
    ensures Ascending(MakeSupervised(s, ext))
  {
    CollectAscending(s.start, |s.values|, Sampler(s, ext));
  }

  /** The table keeps exactly the hours whose own value and 168 predecessors are present. */
  lemma {:induction false} SupervisedHours(s: Series, ext: Externals, t: int)
    ensures (exists i :: 0 <= i < |MakeSupervised(s, ext)| && MakeSupervised(s, ext)[i].ts == t) <==>
            t < s.End() && ObservedWeek(s, t)
  {
    if t < s.End() && ObservedWeek(s, t) {
      KeptIff(s, t, ext);
      assert s.At(t).Some?;
      assert Sampler(s, ext)(t) == RowAt(s, t, ext);
      CollectComplete(s.start, |s.values|, Sampler(s, ext), t);
      var rows := Collect(s.start, |s.values|, Sampler(s, ext));
      assert rows == MakeSupervised(s, ext);
      var i :| 0 <= i < |rows| && rows[i].ts == t;
      assert MakeSupervised(s, ext)[i].ts == t;
    }
    if exists i :: 0 <= i < |MakeSupervised(s, ext)| && MakeSupervised(s, ext)[i].ts == t {
      var i :| 0 <= i < |MakeSupervised(s, ext)| && MakeSupervised(s, ext)[i].ts == t;
      SupervisedRow(s, ext, i);
    }
  }

  /** Each kept row's target is the series value at its hour and its lags are the
      series values exactly 1, 24 and 168 hours earlier, all present. */
  lemma {:induction false} SupervisedLags(s: Series, ext: Externals, i: nat)
    requires i < |MakeSupervised(s, ext)|
    ensures var r := MakeSupervised(s, ext)[i];
      s.At(r.ts) == Some(r.y) &&
      r.x.lag1 == s.At(r.ts - 1) && r.x.lag24 == s.At(r.ts - 24) && r.x.lag168 == s.At(r.ts - 168) &&
      r.x.lag1.Some? && r.x.lag24.Some? && r.x.lag168.Some?
  {
    SupervisedRow(s, ext, i);
  }

  /** Each kept row's rolling means are the means of the 24 and 168 hours strictly
      before its hour; the hour's own value is not in either window. */
  lemma {:induction false} SupervisedRollingMeans(s: Series, ext: Externals, i: nat)
    requires i < |MakeSupervised(s, ext)|
    ensures var r := MakeSupervised(s, ext)[i];
      AllPresent(Window(s, r.ts, 24)) && AllPresent(Window(s, r.ts, 168)) &&
      r.x.rollMean24 == Some(Stats.Mean(Unwrap(Window(s, r.ts, 24)))) &&
      r.x.rollMean168 == Some(Stats.Mean(Unwrap(Window(s, r.ts, 168)))) &&
      r.x.rollStd24 == Some(ext.sqrt(Stats.SampleVariance(Unwrap(Window(s, r.ts, 24)))))
  {
    SupervisedRow(s, ext, i);
  }

  // ---------------------------------------------------------------------------
  // The point builder (make_features_at)
  // ---------------------------------------------------------------------------

  /** `xs.tail(n)`: the last `n` entries, or all of them when there are fewer. */
  function Tail<T>(xs: seq<T>, n: nat): (r: seq<T>)
    ensures |r| == if |xs| <= n then |xs| else n
    ensures r == xs[|xs| - |r|..]
  {
    if |xs| <= n then xs else xs[|xs| - n..]
  }

  /** `s.loc[:ts - 1h].tail(n)`: the last `n` slots before `ts`, gaps included. */
  function PointWindow(s: Series, ts: int, n: nat): seq<Option<real>>
  {
    Tail(s.Before(ts).values, n)
  }

  /** `mean()` with NaN skipped: missing only when no entry is present. */
  function MeanSkipNa(xs: seq<Option<real>>): (r: Option<real>)
    ensures r.None? <==> NonePresent(xs)
  {
    var p := Present(xs);
    if |p| == 0 then None else Some(Stats.Mean(p))
  }

  /** `std()` with NaN skipped: missing when fewer than two entries are present. */
  function StdSkipNa(xs: seq<Option<real>>, sqrt: real -> real): Option<real>
  {
    var p := Present(xs);
    if |p| < 2 then None else Some(sqrt(Stats.SampleVariance(p)))
  }

  /** On the table's own rolling window, the skip-NA `std()` gives the table's rolling std
      whenever that window is complete, and is missing only where the table's is too. */
  lemma {:induction false} StdSkipNaAgrees(s: Series, t: int, n: nat, sqrt: real -> real)
    requires n >= 2
    ensures AllPresent(Window(s, t, n)) ==> StdSkipNa(Window(s, t, n), sqrt) == RollingStd(s, t, n, sqrt)
    ensures StdSkipNa(Window(s, t, n), sqrt).None? ==> RollingStd(s, t, n, sqrt).None?
  {
    var w := Window(s, t, n);
    if AllPresent(w) {
      assert Present(w) == Unwrap(w);
      assert |Present(w)| == n;
    }
  }

  /** `make_features_at(series, ts)`: one feature row for hour `ts` from the history seen so far.
      A lag that falls outside the series or on a gap is missing; nothing raises. */
  function MakeFeaturesAt(s: Series, ts: int, ext: Externals): (f: FeatureRow)
  {
    FeatureRow(
      s.At(ts - 1), s.At(ts - 24), s.At(ts - 168),
      MeanSkipNa(PointWindow(s, ts, 24)), MeanSkipNa(PointWindow(s, ts, 168)),
      StdSkipNa(PointWindow(s, ts, 24), ext.sqrt),
      ext.calendar(ts))
  }

  /** No lookahead: the row for `ts` is the same whatever the series holds at `ts` or later. */
  lemma {:induction false} PointUsesOnlyThePast(s: Series, ts: int, ext: Externals)
    ensures MakeFeaturesAt(s, ts, ext) == MakeFeaturesAt(s.Before(ts), ts, ext)
  {
    assert s.Before(ts).Before(ts) == s.Before(ts);
  }

  /** Two series that agree on every hour before `ts` give `ts` the same feature row. */
  lemma {:induction false} PointDependsOnPrefix(s1: Series, s2: Series, ts: int, ext: Externals)
    requires s1.start == s2.start
    requires s1.End() >= ts && s2.End() >= ts
    requires forall t :: t < ts ==> s1.At(t) == s2.At(t)
    ensures MakeFeaturesAt(s1, ts, ext) == MakeFeaturesAt(s2, ts, ext)
  {
    var k := ts - s1.start;
    if k > 0 {
      var p1, p2 := s1.values[..k], s2.values[..k];
      forall j | 0 <= j < k ensures p1[j] == p2[j] {
        assert s1.At(s1.start + j) == s2.At(s1.start + j);
      }
      assert p1 == p2;
      assert s1.Before(ts).values == p1;
      assert s2.Before(ts).values == p2;
    }
    assert s1.Before(ts).values == s2.Before(ts).values;
    assert s1.At(ts - 1) == s2.At(ts - 1);
    assert s1.At(ts - 24) == s2.At(ts - 24);
    assert s1.At(ts - 168) == s2.At(ts - 168);
  }

  // ---------------------------------------------------------------------------
  // Parity between the two builders
  // ---------------------------------------------------------------------------

  /** For the hour right after the series, the point window is the series' last `n` slots. */
  lemma {:induction false} PointWindowAtEnd(s: Series, n: nat)
    ensures PointWindow(s, s.End(), n) == Tail(s.values, n)
  {
  }

  /** When the last `n` slots are all present, the table's window at the appended hour
      holds exactly those values, and so does the point builder's. */
  lemma {:induction false} WindowsAgreeAtEnd(s: Series, v: real, n: nat)
    requires |s.values| >= n && AllPresent(s.values[|s.values| - n..])
    ensures AllPresent(Window(s.Append(v), s.End(), n))
    ensures Present(PointWindow(s, s.End(), n)) == Unwrap(Window(s.Append(v), s.End(), n))
  {
    var w := Window(s.Append(v), s.End(), n);
    var tail := s.values[|s.values| - n..];
    PointWindowAtEnd(s, n);
    forall j | 0 <= j < n ensures w[j] == tail[j] {
      assert w[j] == s.Append(v).values[|s.values| - n + j];
    }
    assert w == tail;
  }

  /** Training/inference parity at hour `ts = last + 1h`: the lags and calendar fields
      always agree with the row the table would build had `ts` been appended; the
      24-hour statistics agree once the last 24 hours are present, and the whole row
      agrees once the last 168 are. */
  lemma {:induction false} FeatureParity(s: Series, v: real, ext: Externals)
    ensures var table := TableFeaturesAt(s.Append(v), s.End(), ext);
            var point := MakeFeaturesAt(s, s.End(), ext);
            table.lag1 == point.lag1 && table.lag24 == point.lag24 &&
            table.lag168 == point.lag168 && table.calendar == point.calendar
    ensures |s.values| >= 24 && AllPresent(s.values[|s.values| - 24..]) ==>
            var table := TableFeaturesAt(s.Append(v), s.End(), ext);
            var point := MakeFeaturesAt(s, s.End(), ext);
            table.rollMean24 == point.rollMean24 && table.rollStd24 == point.rollStd24
    ensures |s.values| >= 168 && AllPresent(s.values[|s.values| - 168..]) ==>
            TableFeaturesAt(s.Append(v), s.End(), ext) == MakeFeaturesAt(s, s.End(), ext)
  {
    LagsAgreeAtEnd(s, v, ext);
    if |s.values| >= 24 && AllPresent(s.values[|s.values| - 24..]) {
      StatsAgreeAtEnd(s, v, 24, ext.sqrt);
    }
    if |s.values| >= 168 && AllPresent(s.values[|s.values| - 168..]) {
      RowAgreesAtEnd(s, v, ext);
    }
  }

  /** With the last 168 slots present, every field of the two rows agrees. */
  lemma {:induction false} RowAgreesAtEnd(s: Series, v: real, ext: Externals)
    requires |s.values| >= 168 && AllPresent(s.values[|s.values| - 168..])
    ensures TableFeaturesAt(s.Append(v), s.End(), ext) == MakeFeaturesAt(s, s.End(), ext)
  {
    LagsAgreeAtEnd(s, v, ext);
    assert s.values[|s.values| - 24..] == s.values[|s.values| - 168..][144..];
    StatsAgreeAtEnd(s, v, 24, ext.sqrt);
    StatsAgreeAtEnd(s, v, 168, ext.sqrt);
  }

  /** The lags and calendar fields of the table's row at the appended hour are read
      from hours before it, where the appended series is the original one. */
  lemma {:induction false} LagsAgreeAtEnd(s: Series, v: real, ext: Externals)
    ensures var table := TableFeaturesAt(s.Append(v), s.End(), ext);
            var point := MakeFeaturesAt(s, s.End(), ext);
            table.lag1 == point.lag1 && table.lag24 == point.lag24 &&
            table.lag168 == point.lag168 && table.calendar == point.calendar
  {
    var a := s.Append(v);
    assert a.At(s.End() - 1) == s.At(s.End() - 1);
    assert a.At(s.End() - 24) == s.At(s.End() - 24);
    assert a.At(s.End() - 168) == s.At(s.End() - 168);
  }

  /** With the last `n` slots present, the table's rolling mean and std at the appended
      hour are the point builder's skip-NA mean and std over the same hours. */
  lemma {:induction false} StatsAgreeAtEnd(s: Series, v: real, n: nat, sqrt: real -> real)
    requires n >= 2 && |s.values| >= n && AllPresent(s.values[|s.values| - n..])
    ensures RollingMean(s.Append(v), s.End(), n) == MeanSkipNa(PointWindow(s, s.End(), n))
    ensures RollingStd(s.Append(v), s.End(), n, sqrt) == StdSkipNa(PointWindow(s, s.End(), n), sqrt)
  {
    WindowsAgreeAtEnd(s, v, n);
    var p := Present(PointWindow(s, s.End(), n));
    assert p == Unwrap(Window(s.Append(v), s.End(), n));
    assert |p| == n;
  }

  /** With the last 168 hours present, appending a target `v` at `ts = last + 1h` makes the
      supervised table end with a row at `ts` whose features are `make_features_at`'s. */
  lemma {:induction false} SupervisedRowAtNextHour(s: Series, v: real, ext: Externals)
    requires |s.values| >= 168 && AllPresent(s.values[|s.values| - 168..])
    ensures var rows := MakeSupervised(s.Append(v), ext);
      |rows| > 0 && rows[|rows| - 1] == TableRow(s.End(), v, MakeFeaturesAt(s, s.End(), ext))
  {
    var s' := s.Append(v);
    NextHourSample(s, v, ext);
    assert Sampler(s', ext)(s.End()) == RowAt(s', s.End(), ext);
    CollectLast(s'.start, |s.values|, Sampler(s', ext));
  }

  /** The sample the table keeps at the appended hour is `v` with `make_features_at`'s row. */
  lemma {:induction false} NextHourSample(s: Series, v: real, ext: Externals)
    requires |s.values| >= 168 && AllPresent(s.values[|s.values| - 168..])
    ensures RowAt(s.Append(v), s.End(), ext) == Some((v, MakeFeaturesAt(s, s.End(), ext)))
  {
    AppendedWeekObserved(s, v);
    KeptIff(s.Append(v), s.End(), ext);
    FeatureParity(s, v, ext);
  }

  /** Appending a value after 168 present hours gives a fully observed week at the new hour. */
  lemma {:induction false} AppendedWeekObserved(s: Series, v: real)
    requires |s.values| >= 168 && AllPresent(s.values[|s.values| - 168..])
    ensures ObservedWeek(s.Append(v), s.End())
  {
    var s' := s.Append(v);
    var ts := s.End();
    forall u | ts - 168 <= u <= ts ensures s'.At(u).Some? {
      if u < ts {
        assert s'.At(u) == s.values[|s.values| - 168 + (u - ts + 168)];
      }
    }
  }

  /** A kept hour right after the first `n` ends the collected rows. */
  lemma {:induction false} CollectLast(first: int, n: nat, rowAt: int -> Option<(real, FeatureRow)>)
    requires rowAt(first + n).Some?
    ensures var rows := Collect(first, n + 1, rowAt);
      |rows| > 0 && rows[|rows| - 1] == TableRow(first + n, rowAt(first + n).value.0, rowAt(first + n).value.1)
  {
  }

  /** With a gap in the last 24 hours (or fewer than 24 of them) but some value present,
      the point builder still averages what it finds while the table drops the row. */
  lemma {:induction false} GapDivergence(s: Series, v: real, ext: Externals)
    requires !(|s.values| >= 24 && AllPresent(s.values[|s.values| - 24..]))
    requires !NonePresent(Tail(s.values, 24))
    ensures MakeFeaturesAt(s, s.End(), ext).rollMean24.Some?
    ensures TableFeaturesAt(s.Append(v), s.End(), ext).rollMean24 == None
    ensures !Kept(s.Append(v), s.End(), ext)
  {
    PointWindowAtEnd(s, 24);
    TableWindowGap(s, v);
  }

  /** Without 24 present hours at the end, the table's 24-hour window at the appended hour has a gap. */
  lemma {:induction false} TableWindowGap(s: Series, v: real)
    requires !(|s.values| >= 24 && AllPresent(s.values[|s.values| - 24..]))
    ensures !AllPresent(Window(s.Append(v), s.End(), 24))
  {
    var s' := s.Append(v);
    var w := Window(s', s.End(), 24);
    // a missing slot of the window: the first one, or the gap in the tail
    if |s.values| < 24 {
      assert w[0] == s'.At(s.End() - 24) == None;
    } else {
      var tail := s.values[|s.values| - 24..];
      var j :| 0 <= j < 24 && tail[j].None?;
      assert w[j] == s'.values[|s.values| - 24 + j] == tail[j];
    }
  }
}
