/** Descriptive statistics over a value series. Where the C++ code returns
    NaN (an empty series, mismatched lengths, too few values) the model
    returns None. */
module Statistics {
  import opened Common
  import opened Wrappers

  /** `std::accumulate(begin, end, 0.0)`: the sum, added left to right. */
  function Sum(s: seq<real>): real
  {
    if |s| == 0 then 0.0 else Sum(s[..|s| - 1]) + s[|s| - 1]
  }

  /** `calculate_average`: the mean, or None for an empty series. */
  function CalculateAverage(values: Vector): (r: Option<real>)
    ensures r.None? <==> |values| == 0
    ensures r.Some? ==> r.value * (|values| as real) == Sum(values)
  {
    if |values| == 0 then None else Some(Sum(values) / (|values| as real))
  }

  /** `*std::min_element`: scans left to right and replaces its candidate only
      by a strictly smaller element. */
  function MinElement(s: seq<real>): (m: real)
    requires |s| > 0
    ensures m in s
    ensures forall i :: 0 <= i < |s| ==> m <= s[i]
  {
    if |s| == 1 then s[0]
    else
      var m := MinElement(s[..|s| - 1]);
      if s[|s| - 1] < m then s[|s| - 1] else m
  }

  /** `*std::max_element`: scans left to right and replaces its candidate only
      by a strictly larger element. */
  function MaxElement(s: seq<real>): (m: real)
    requires |s| > 0
    ensures m in s
    ensures forall i :: 0 <= i < |s| ==> s[i] <= m
  {
    if |s| == 1 then s[0]
    else
      var m := MaxElement(s[..|s| - 1]);
      if m < s[|s| - 1] then s[|s| - 1] else m
  }

  /** `find_min`: an element no larger than any other, or None when empty. */
  function FindMin(values: Vector): (r: Option<real>)
    ensures r.None? <==> |values| == 0
    ensures r.Some? ==> r.value in values && forall i :: 0 <= i < |values| ==> r.value <= values[i]
  {
    if |values| == 0 then None else Some(MinElement(values))
  }

  /** `find_max`: an element no smaller than any other, or None when empty. */
  function FindMax(values: Vector): (r: Option<real>)
    ensures r.None? <==> |values| == 0
    ensures r.Some? ==> r.value in values && forall i :: 0 <= i < |values| ==> values[i] <= r.value
  {
    if |values| == 0 then None else Some(MaxElement(values))
  }

  lemma {:induction false} SumBounds(s: seq<real>, lo: real, hi: real)
    requires forall i :: 0 <= i < |s| ==> lo <= s[i] <= hi
    ensures (|s| as real) * lo <= Sum(s) <= (|s| as real) * hi
  {
    if |s| > 0 {
      var n := |s| as real;
      SumBounds(s[..|s| - 1], lo, hi);
      assert (n - 1.0) * lo + lo == n * lo;
      assert (n - 1.0) * hi + hi == n * hi;
    }
  }

  lemma MeanBound(n: real, lo: real, sum: real, hi: real)
    requires n > 0.0 && n * lo <= sum <= n * hi
    ensures lo <= sum / n <= hi
  {
    assert n * (sum / n) == sum;
  }

  /** The mean lies between the smallest and the largest value. */
  lemma AverageBetweenMinAndMax(values: Vector)
    requires |values| > 0
    ensures FindMin(values).value <= CalculateAverage(values).value <= FindMax(values).value
  {
    var lo, hi := MinElement(values), MaxElement(values);
    SumBounds(values, lo, hi);
    MeanBound(|values| as real, lo, Sum(values), hi);
  }

  lemma AverageExample()
    ensures CalculateAverage([10.0, 15.0, 20.0, 25.0, 30.0]) == Some(20.0)
  {
    var s := [10.0, 15.0, 20.0, 25.0, 30.0];
    assert s[..4] == [10.0, 15.0, 20.0, 25.0];
    assert s[..4][..3] == [10.0, 15.0, 20.0];
    assert s[..4][..3][..2] == [10.0, 15.0];
    assert s[..4][..3][..2][..1] == [10.0];
    assert Sum([10.0]) == 10.0;
    assert Sum([10.0, 15.0]) == 25.0;
    assert Sum([10.0, 15.0, 20.0]) == 45.0;
    assert Sum([10.0, 15.0, 20.0, 25.0]) == 70.0;
    assert Sum(s) == 100.0;
  }

  /** Σ (t[i] − p[i])², for series of equal length. */
  function SquaredErrorSum(t: seq<real>, p: seq<real>): real
    requires |t| == |p|
  {
    if |t| == 0 then 0.0
    else
      var d := t[|t| - 1] - p[|p| - 1];
      SquaredErrorSum(t[..|t| - 1], p[..|p| - 1]) + d * d
  }

  /** The mean squared error, None when the lengths differ or the series are empty. */
  function MeanSquaredError(yTrue: seq<real>, yPred: seq<real>): Option<real>
  {
    if |yTrue| != |yPred| || |yTrue| == 0 then None
    else Some(SquaredErrorSum(yTrue, yPred) / (|yTrue| as real))
  }

  /** `calculate_mse`: accumulates the squared differences in one pass. */
  method CalculateMse(yTrue: Vector, yPred: Vector) returns (r: Option<real>)
    ensures r == MeanSquaredError(yTrue, yPred)
  {
    if |yTrue| != |yPred| || |yTrue| == 0 {
      return None;
    }
    var mse := 0.0;
    for i := 0 to |yTrue|
      invariant mse == SquaredErrorSum(yTrue[..i], yPred[..i])
    {
      assert yTrue[..i + 1][..i] == yTrue[..i];
      assert yPred[..i + 1][..i] == yPred[..i];
      var d := yTrue[i] - yPred[i];
      mse := mse + d * d;
    }
    assert yTrue[..|yTrue|] == yTrue && yPred[..|yPred|] == yPred;
    r := Some(mse / (|yTrue| as real));
  }

  lemma {:induction false} SquaredErrorSumNonNegative(t: seq<real>, p: seq<real>)
    requires |t| == |p|
    ensures SquaredErrorSum(t, p) >= 0.0
  {
    if |t| > 0 {
      SquaredErrorSumNonNegative(t[..|t| - 1], p[..|p| - 1]);
      var d := t[|t| - 1] - p[|p| - 1];
      assert d * d >= 0.0;
    }
  }

  lemma {:induction false} SquaredErrorSumSelf(t: seq<real>)
    ensures SquaredErrorSum(t, t) == 0.0
  {
    if |t| > 0 {
      SquaredErrorSumSelf(t[..|t| - 1]);
    }
  }

  /** The error is never negative, and a perfect prediction has none. */
  lemma MseNonNegative(yTrue: seq<real>, yPred: seq<real>)
    ensures MeanSquaredError(yTrue, yPred).Some? ==> MeanSquaredError(yTrue, yPred).value >= 0.0
    ensures |yTrue| > 0 ==> MeanSquaredError(yTrue, yTrue) == Some(0.0)
  {
    if |yTrue| == |yPred| && |yTrue| > 0 {
      SquaredErrorSumNonNegative(yTrue, yPred);
    }
    SquaredErrorSumSelf(yTrue);
  }

  lemma MseExample()
    ensures MeanSquaredError([1.0, 2.0, 3.0, 4.0], [1.5, 2.5, 3.5, 4.5]) == Some(0.25)
    ensures MeanSquaredError([1.0, 2.0, 3.0], [1.5, 2.5]) == None
  {
    var t, p := [1.0, 2.0, 3.0, 4.0], [1.5, 2.5, 3.5, 4.5];
    assert t[..3] == [1.0, 2.0, 3.0] && p[..3] == [1.5, 2.5, 3.5];
    assert t[..3][..2] == [1.0, 2.0] && p[..3][..2] == [1.5, 2.5];
    assert t[..3][..2][..1] == [1.0] && p[..3][..2][..1] == [1.5];
    assert SquaredErrorSum([1.0], [1.5]) == 0.25;
    assert SquaredErrorSum([1.0, 2.0], [1.5, 2.5]) == 0.5;
    assert SquaredErrorSum([1.0, 2.0, 3.0], [1.5, 2.5, 3.5]) == 0.75;
    assert SquaredErrorSum(t, p) == 1.0;
  }

  /** Σ (v − mean)² over the series. */
  function SquaredDeviationSum(s: seq<real>, mean: real): real
  {
    if |s| == 0 then 0.0
    else
      var d := s[|s| - 1] - mean;
      SquaredDeviationSum(s[..|s| - 1], mean) + d * d
  }

  /** The population (divide by n) or sample (divide by n − 1) variance; None
      below two values. */
  function Variance(values: seq<real>, population: bool): Option<real>
  {
    if |values| < 2 then None
    else
      var n := |values| as real;
      var mean := Sum(values) / n;
      Some(SquaredDeviationSum(values, mean) / (if population then n else n - 1.0))
  }

  /** `calculate_variance` through `calculate_std_dev`: the guard, the mean and
      the accumulated squared deviations; `pow(sqrt(v), 2)` is v over reals.
      The C++ flag `population` defaults to false, so a call without it is
      the sample variance, `population == false` here. */
  method CalculateVariance(values: Vector, population: bool) returns (r: Option<real>)
    ensures r.None? <==> |values| < 2
    ensures r == Variance(values, population)
  {
    if |values| < 2 {
      return None;
    }
    var mean := CalculateAverage(values).value;
    var sqSumDiff := 0.0;
    for i := 0 to |values|
      invariant sqSumDiff == SquaredDeviationSum(values[..i], mean)
    {
      assert values[..i + 1][..i] == values[..i];
      var d := values[i] - mean;
      sqSumDiff := sqSumDiff + d * d;
    }
    assert values[..|values|] == values;
    var n := |values| as real;
    if population {
      r := Some(sqSumDiff / n);
    } else {
      r := Some(sqSumDiff / (n - 1.0));
    }
  }

  lemma {:induction false} SquaredDeviationSumNonNegative(s: seq<real>, mean: real)
    ensures SquaredDeviationSum(s, mean) >= 0.0
  {
    if |s| > 0 {
      SquaredDeviationSumNonNegative(s[..|s| - 1], mean);
      var d := s[|s| - 1] - mean;
      assert d * d >= 0.0;
    }
  }

  /** The variance is never negative. */
  lemma VarianceNonNegative(values: seq<real>, population: bool)
    requires |values| >= 2
    ensures Variance(values, population).value >= 0.0
  {
    var n := |values| as real;
    SquaredDeviationSumNonNegative(values, Sum(values) / n);
  }

  lemma VarianceExample()
    ensures Variance([2.0, 4.0, 4.0, 4.0, 5.0, 5.0, 7.0, 9.0], false) == Some(32.0 / 7.0)
    ensures Variance([1.0], false) == None
  {
    var s := [2.0, 4.0, 4.0, 4.0, 5.0, 5.0, 7.0, 9.0];
    assert s[..7] == [2.0, 4.0, 4.0, 4.0, 5.0, 5.0, 7.0];
    assert s[..7][..6] == [2.0, 4.0, 4.0, 4.0, 5.0, 5.0];
    assert s[..7][..6][..5] == [2.0, 4.0, 4.0, 4.0, 5.0];
    assert s[..7][..6][..5][..4] == [2.0, 4.0, 4.0, 4.0];
    assert s[..7][..6][..5][..4][..3] == [2.0, 4.0, 4.0];
    assert s[..7][..6][..5][..4][..3][..2] == [2.0, 4.0];
    assert s[..7][..6][..5][..4][..3][..2][..1] == [2.0];
    assert Sum([2.0]) == 2.0;
    assert Sum([2.0, 4.0]) == 6.0;
    assert Sum([2.0, 4.0, 4.0]) == 10.0;
    assert Sum([2.0, 4.0, 4.0, 4.0]) == 14.0;
    assert Sum([2.0, 4.0, 4.0, 4.0, 5.0]) == 19.0;
    assert Sum([2.0, 4.0, 4.0, 4.0, 5.0, 5.0]) == 24.0;
    assert Sum([2.0, 4.0, 4.0, 4.0, 5.0, 5.0, 7.0]) == 31.0;
    assert Sum(s) == 40.0;
    assert SquaredDeviationSum([2.0], 5.0) == 9.0;
    assert SquaredDeviationSum([2.0, 4.0], 5.0) == 10.0;
    assert SquaredDeviationSum([2.0, 4.0, 4.0], 5.0) == 11.0;
    assert SquaredDeviationSum([2.0, 4.0, 4.0, 4.0], 5.0) == 12.0;
    assert SquaredDeviationSum([2.0, 4.0, 4.0, 4.0, 5.0], 5.0) == 12.0;
    assert SquaredDeviationSum([2.0, 4.0, 4.0, 4.0, 5.0, 5.0], 5.0) == 12.0;
    assert SquaredDeviationSum([2.0, 4.0, 4.0, 4.0, 5.0, 5.0, 7.0], 5.0) == 16.0;
    assert SquaredDeviationSum(s, 5.0) == 32.0;
  }
}
