/** The numeric reductions the engine takes from its libraries, on exact reals:
    pandas' `mean` and `std` (sample standard deviation, one degree of freedom)
    and scikit-learn's `mean_absolute_error`. */
module Stats {

  function Sum(xs: seq<real>): real
  {
    if xs == [] then 0.0 else Sum(xs[..|xs| - 1]) + xs[|xs| - 1]
  }

  function Mean(xs: seq<real>): real
    requires |xs| > 0
  {
    Sum(xs) / |xs| as real
  }

  function SumSquaredDeviations(xs: seq<real>, centre: real): real
  {
    if xs == [] then 0.0
    else SumSquaredDeviations(xs[..|xs| - 1], centre) + (xs[|xs| - 1] - centre) * (xs[|xs| - 1] - centre)
  }

  /** Sample variance with one degree of freedom, the square of pandas' `std()`. */
  function SampleVariance(xs: seq<real>): real
    requires |xs| >= 2
  {
    SumSquaredDeviations(xs, Mean(xs)) / (|xs| - 1) as real
  }

  function Abs(x: real): real
  {
    if x < 0.0 then -x else x
  }

  function SumAbsDifferences(a: seq<real>, b: seq<real>): (r: real)
    requires |a| == |b|
    ensures r >= 0.0
    ensures r == 0.0 <==> a == b
  {
    if a == [] then 0.0
    else
      var n := |a| - 1;
      var rest := SumAbsDifferences(a[..n], b[..n]);
      assert a == a[..n] + [a[n]] && b == b[..n] + [b[n]];
      rest + Abs(a[n] - b[n])
  }

  /** `mean_absolute_error(a, b)`; it is zero exactly when the two agree everywhere. */
  function MeanAbsoluteError(a: seq<real>, b: seq<real>): (r: real)
    requires |a| == |b| && |a| > 0
    ensures r >= 0.0
    ensures r == 0.0 <==> a == b
  {
    SumAbsDifferences(a, b) / |a| as real
  }
}
