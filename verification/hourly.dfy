/** Hourly time series shared by every part of the forecasting engine.
    A series is what pandas holds after `asfreq("h")`: a dense run of hourly
    slots starting at hour `start` (an integer hour offset standing for a UTC
    timestamp), where a gap is an explicit missing slot, never a dropped one. */
module Hourly {

  datatype Option<T> = None | Some(value: T)

  /** The exceptions the engine raises, one constructor per cause. */
  datatype Failure =
    | EmptySeries              // the series has no timestamp, so `index.max()` is NaT
    | NoObservedValue          // `series.dropna().iloc[-1]` on a series with no value
    | TooFewPoints(length: nat)  // fewer hourly points than an evaluation needs
    | EmptyTrainingSet(rows: nat) // the supervised table leaves no row to fit on
    | MissingTarget            // a held-out target is missing, so the error metric rejects it
    | ZeroBaselineError        // the baseline error is zero, so the improvement divides by zero
    | MissingColumn(name: string) // a column the script reads is not in the input table

  datatype Result<T> = Ok(value: T) | Err(failure: Failure)

  predicate AllPresent(xs: seq<Option<real>>)
  {
    forall i :: 0 <= i < |xs| ==> xs[i].Some?
  }

  predicate NonePresent(xs: seq<Option<real>>)
  {
    forall i :: 0 <= i < |xs| ==> xs[i].None?
  }

  /** The values of a sequence with no missing entry. */
  function Unwrap(xs: seq<Option<real>>): (r: seq<real>)
    requires AllPresent(xs)
    ensures |r| == |xs|
    ensures forall i :: 0 <= i < |xs| ==> xs[i] == Some(r[i])
  {
    seq(|xs|, i requires 0 <= i < |xs| && AllPresent(xs) => xs[i].value)
  }

  /** Every value as a present entry. */
  function Lift(xs: seq<real>): (r: seq<Option<real>>)
    ensures |r| == |xs| && AllPresent(r)
    ensures forall i :: 0 <= i < |xs| ==> r[i] == Some(xs[i])
  {
    seq(|xs|, i requires 0 <= i < |xs| => Some(xs[i]))
  }

  /** The present values of `xs`, in order: what pandas' skip-NA reductions see. */
  function Present(xs: seq<Option<real>>): (r: seq<real>)
    ensures |r| <= |xs|
    ensures |r| == 0 <==> NonePresent(xs)
    ensures AllPresent(xs) ==> r == Unwrap(xs)
  {
    if xs == [] then []
    else
      var rest := Present(xs[1..]);
      assert forall i :: 1 <= i < |xs| ==> xs[i] == xs[1..][i - 1];
      assert AllPresent(xs) ==> AllPresent(xs[1..]) && Unwrap(xs) == [xs[0].value] + Unwrap(xs[1..]);
      if xs[0].Some? then [xs[0].value] + rest else rest
  }

  /** The last present value of `xs`, as `dropna().iloc[-1]` finds it. */
  function LastObservedIn(xs: seq<Option<real>>): (r: Option<real>)
    ensures r.None? <==> NonePresent(xs)
    ensures r.Some? ==> exists i :: 0 <= i < |xs| && xs[i] == r &&
                                    forall j :: i < j < |xs| ==> xs[j].None?
  {
    if xs == [] then None
    else if xs[|xs| - 1].Some? then xs[|xs| - 1]
    else
      var r := LastObservedIn(xs[..|xs| - 1]);
      assert forall j :: 0 <= j < |xs| - 1 ==> xs[..|xs| - 1][j] == xs[j];
      r
  }

  /** The last present value is the one at the position after which nothing is present. */
  lemma {:induction false} LastObservedAt(xs: seq<Option<real>>, i: nat)
    requires i < |xs| && xs[i].Some?
    requires forall j :: i < j < |xs| ==> xs[j].None?
    ensures LastObservedIn(xs) == xs[i]
  {
    var r := LastObservedIn(xs);
    assert !NonePresent(xs);
    var i' :| 0 <= i' < |xs| && xs[i'] == r && forall j :: i' < j < |xs| ==> xs[j].None?;
    assert i' == i by {
      // a later present entry, or one after i', would contradict the requires or the choice of i'
      assert xs[i'].Some? && xs[i].Some?;
    }
  }

  /** Missing entries after position `k` do not change the last present value. */
  lemma {:induction false} LastObservedSkipsMissing(xs: seq<Option<real>>, k: nat)
    requires k <= |xs|
    requires forall j :: k <= j < |xs| ==> xs[j].None?
    ensures LastObservedIn(xs) == LastObservedIn(xs[..k])
  {
    if k < |xs| {
      var init := xs[..|xs| - 1];
      assert init[..k] == xs[..k];
      LastObservedSkipsMissing(init, k);
    } else {
      assert xs[..k] == xs;
    }
  }

  /** A series after `asfreq("h")`: `values[i]` belongs to hour `start + i`. */
  datatype Series = Series(start: int, values: seq<Option<real>>) {

    /** The first hour after the series: `index.max() + 1h` for a non-empty series. */
    function End(): int
    {
      start + |values|
    }

    /** The timestamp of the last slot, `index.max()`. */
    function Last(): int
      requires values != []
    {
      start + |values| - 1
    }

    /** `series.get(t, nan)`: the value at hour `t`, missing outside the index. */
    function At(t: int): (v: Option<real>)
      ensures v.Some? ==> start <= t < End()
    {
      if start <= t < start + |values| then values[t - start] else None
    }

    /** `s.loc[End()] = v`: the series grown by one hour. */
    function Append(v: real): (r: Series)
      ensures r.start == start && r.End() == End() + 1
      ensures r.At(End()) == Some(v)
      ensures forall t :: t != End() ==> r.At(t) == At(t)
    {
      Series(start, values + [Some(v)])
    }

    /** The series grown by `vs`, one hour after another. */
    function Extend(vs: seq<real>): (r: Series)
      ensures r.start == start && r.End() == End() + |vs|
    {
      Series(start, values + Lift(vs))
    }

    /** The extended series keeps every earlier hour and holds `vs[k]` at `End() + k`. */
    lemma ExtendAt(vs: seq<real>)
      ensures forall t :: t < End() ==> Extend(vs).At(t) == At(t)
      ensures forall k :: 0 <= k < |vs| ==> Extend(vs).At(End() + k) == Some(vs[k])
    {
    }

    /** Extending by one more value is appending it. */
    lemma ExtendAppend(vs: seq<real>, v: real)
      ensures Extend(vs + [v]) == Extend(vs).Append(v)
    {
      assert Lift(vs + [v]) == Lift(vs) + [Some(v)];
    }

    /** `series.iloc[:-n]` for `n >= 1`: everything but the last `n` slots. */
    function DropLast(n: nat): (r: Series)
      requires n >= 1
      ensures r.start == start
      ensures |r.values| == if |values| <= n then 0 else |values| - n
      ensures r.values == values[..|r.values|]
    {
      if |values| <= n then Series(start, []) else Series(start, values[..|values| - n])
    }

    /** `series.iloc[-n:]` for `n >= 1`: the last `n` slots. */
    function TakeLast(n: nat): (r: Series)
      requires n >= 1
      ensures r.End() == End()
      ensures |r.values| == if |values| <= n then |values| else n
      ensures r.values == values[|values| - |r.values|..]
    {
      if |values| <= n then this else Series(start + |values| - n, values[|values| - n..])
    }

    /** `iloc[:-n]` and `iloc[-n:]` split the series: together they are its slots in
        order, and when it is longer than `n` the last `n` slots start where the rest ends. */
    lemma {:induction false} SplitLast(n: nat)
      requires n >= 1
      ensures DropLast(n).values + TakeLast(n).values == values
      ensures |values| > n ==> TakeLast(n).start == DropLast(n).End()
    {
      if |values| > n {
        assert values[..|values| - n] + values[|values| - n..] == values;
      }
    }

    /** The series cut just before hour `ts`: `s.loc[:ts - 1h]`. */
    function Before(ts: int): (r: Series)
      ensures r.start == start && r.End() <= End()
      ensures forall t :: t < ts ==> r.At(t) == At(t)
      ensures forall t :: t >= ts ==> r.At(t) == None
    {
      var k := ts - start;
      if k <= 0 then Series(start, [])
      else if k >= |values| then this
      else Series(start, values[..k])
    }
  }
}
