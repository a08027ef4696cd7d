/** How far the variance and the elements of a sample can be from its mean. */
module StatsBounds {
  import opened Basics
  import opened RealArith
  import opened Sums
  import opened Sorting
  import opened Stats
  import opened StatsSpread
  import opened StatsPercentiles

  lemma {:induction false} DevSumsToZero(v: seq<real>)
    requires v != []
    ensures Sum(Dev(v, MeanOf(v))) == 0.0
  {
    hide *;
    SumDev(v, MeanOf(v));
    MeanTimes(v);
  }

  // Deviations between -b and a.
  function Band(a: real, b: real, n: nat, sum: real): real {
    (a * b) * n as real + (a - b) * sum
  }

  lemma {:induction false} BandStep(a: real, b: real, n: nat, sum: real, x: real)
    requires -b <= x <= a
    ensures Band(a, b, n, sum) + Square(x) <= Band(a, b, n + 1, sum + x)
  {
    MulMonotone(0.0, a - x, x + b);
    assert (a - x) * (x + b) == a * b + (a - b) * x - Square(x);
    MulSucc(a * b, n);
    assert (a - b) * (sum + x) == (a - b) * sum + (a - b) * x;
  }

  lemma {:induction false} SquaresInBand(d: seq<real>, a: real, b: real)
    requires forall i :: 0 <= i < |d| ==> -b <= d[i] <= a
    ensures SumSquares(d) <= Band(a, b, |d|, Sum(d))
  {
    if d == [] {
    } else {
      var n := |d| - 1;
      SquaresInBand(d[..n], a, b);
      BandStep(a, b, n, Sum(d[..n]), d[n]);
    }
  }

  // variance <= (max - mean) (mean - min)
  lemma {:induction false} VarianceBetweenExtremes(v: seq<real>)
    requires Sorted(v) && v != []
    ensures PercentileFromSorted(v, 0).Some? && PercentileFromSorted(v, 100).Some?
    ensures var min, max := PercentileFromSorted(v, 0).value, PercentileFromSorted(v, 100).value;
      VarianceOf(v) <= (max - MeanOf(v)) * (MeanOf(v) - min)
  {
    hide *;
    ExtremePercentiles(v);
    var mean, n := MeanOf(v), |v| as real;
    var a, b := v[|v| - 1] - mean, mean - v[0];
    SortedEnds(v);
    SquaresInBand(Dev(v, mean), a, b);
    DevSumsToZero(v);
    BandOfZero(a, b, |v|);
    VarianceTimes(v);
    CancelNamed(VarianceOf(v), a * b, n, SumSquares(Dev(v, mean)), Band(a, b, |v|, 0.0));
  }

  lemma {:induction false} SortedEnds(v: seq<real>)
    requires Sorted(v)
    ensures forall i :: 0 <= i < |v| ==> v[0] <= v[i] <= v[|v| - 1]
  {
  }

  lemma {:induction false} BandOfZero(a: real, b: real, n: nat)
    ensures Band(a, b, n, 0.0) == (a * b) * n as real
  {
  }

  // No element is further from the mean than sqrt(n - 1) standard deviations.
  lemma {:induction false} ElementNearMean(v: seq<real>, k: nat)
    requires k < |v|
    ensures Square(v[k] - MeanOf(v)) <= (|v| - 1) as real * VarianceOf(v)
  {
    hide *;
    var d := Dev(v, MeanOf(v));
    var others := d[..k] + d[k + 1..];
    DevSumsToZero(v);
    SumWithout(d, k);
    CauchySchwarz(others);
    SquareOfNeg(d[k]);
    VarianceTimes(v);
    OutlierArith(Square(d[k]), SumSquares(d), VarianceOf(v), |v|);
  }

  lemma {:induction false} SquareOfNeg(x: real)
    ensures Square(0.0 - x) == Square(x)
  {
  }

  lemma {:induction false} OutlierArith(x: real, q: real, variance: real, n: nat)
    requires n > 0 && x <= (n - 1) as real * (q - x) && variance * n as real == q
    ensures x <= (n - 1) as real * variance
  {
    var k := (n - 1) as real;
    assert k * (q - x) == k * q - k * x;
    assert x * n as real == x + k * x by { MulSucc(x, n - 1); }
    assert k * q == (k * variance) * n as real;
    CancelFactor(x, k * variance, n as real);
  }

  lemma {:induction false} VarianceNonNegative(v: seq<real>)
    requires v != []
    ensures VarianceOf(v) >= 0.0
  {
    hide *;
    SumSquaresNonNegative(Dev(v, MeanOf(v)));
    VarianceTimes(v);
    CancelFactor(0.0, VarianceOf(v), |v| as real);
  }

  lemma {:induction false} OnlyZeroSquare(x: real)
    requires Square(x) <= 0.0
    ensures x == 0.0
  {
    if x != 0.0 { SquarePositive(x); }
  }

  lemma {:induction false} MeanBetweenExtremes(v: seq<real>)
    requires Sorted(v) && v != []
    ensures v[0] <= MeanOf(v) <= v[|v| - 1]
  {
    hide *;
    var low, high := Constant(v[0], |v|), Constant(v[|v| - 1], |v|);
    SortedEnds(v);
    AverageAtMost(low, v, 0.0);
    AverageAtMost(v, high, 0.0);
    AverageOfConstant(v[0], |v|);
    AverageOfConstant(v[|v| - 1], |v|);
    AtMostZero(low, v);
    AtMostZero(v, high);
  }

  lemma {:induction false} AtMostZero(s: seq<real>, t: seq<real>)
    requires |s| == |t| && forall i :: 0 <= i < |s| ==> s[i] <= t[i]
    ensures AtMostAbove(s, t, 0.0)
  {
  }

  function Constant(x: real, n: nat): (s: seq<real>)
    ensures |s| == n && forall i :: 0 <= i < n ==> s[i] == x
  {
    if n == 0 then [] else Constant(x, n - 1) + [x]
  }

  lemma {:induction false} SumOfConstant(x: real, n: nat)
    ensures Sum(Constant(x, n)) == x * n as real
  {
    if n == 0 {
    } else {
      SumOfConstant(x, n - 1);
      assert Constant(x, n)[..n - 1] == Constant(x, n - 1);
      MulSucc(x, n - 1);
    }
  }

  lemma {:induction false} AverageOfConstant(x: real, n: nat)
    requires n > 0
    ensures Average(Constant(x, n)) == Some(x)
  {
    SumOfConstant(x, n);
    Quotient(Sum(Constant(x, n)), n as real);
    CancelFactor(Sum(Constant(x, n)) / n as real, x, n as real);
    CancelFactor(x, Sum(Constant(x, n)) / n as real, n as real);
  }

  // The variance is zero exactly when the reported minimum and maximum are equal.
  lemma {:induction false} ZeroVarianceExactly(v: seq<real>)
    requires Sorted(v) && v != []
    ensures VarianceOf(v) == 0.0 <==> PercentileFromSorted(v, 0) == PercentileFromSorted(v, 100)
  {
    hide *;
    ExtremePercentiles(v);
    VarianceNonNegative(v);
    VarianceBetweenExtremes(v);
    MeanBetweenExtremes(v);
    ElementNearMean(v, 0);
    ElementNearMean(v, |v| - 1);
    if VarianceOf(v) == 0.0 {
      OnlyZeroSquare(v[0] - MeanOf(v));
      OnlyZeroSquare(v[|v| - 1] - MeanOf(v));
    }
  }

  // ---- The whole report ----------------------------------------------------------------

  lemma {:induction false} ReportFields(v: seq<real>, root: real)
    requires |v| >= 2
    ensures var r := StatsOfSorted(v, root);
      && r.mean == Some(MeanOf(v)) && r.std == Some(root)
      && r.min == PercentileFromSorted(v, 0) && r.max == PercentileFromSorted(v, 100)
      && r.median == PercentileFromSorted(v, 50) && r.percentile75 == PercentileFromSorted(v, 75)
      && r.percentile90 == PercentileFromSorted(v, 90) && r.percentile95 == PercentileFromSorted(v, 95)
      && r.percentile99 == PercentileFromSorted(v, 99)
      && r.skew == Skew(v, MeanOf(v), root) && r.kurtosis == Kurtosis(v, MeanOf(v), root)
  {
    hide PercentileFromSorted, Skew, Kurtosis;
  }

  // The figures that getStats reports for the sample s: the least and the greatest
  // element, the median, and percentiles in ascending order; a mean between the extremes
  // with a standard deviation that they bound; a skew within [-3, 3] that is three
  // times mean less median in standard deviations; and a kurtosis that is always the same.
  lemma {:induction false} ReportIsSound(s: seq<real>, root: real)
    requires |s| >= 2 && IsRoot(root, VarianceOf(Sort(s)))
    ensures var r := StatsOfSorted(Sort(s), root);
      && r.min.Some? && r.max.Some? && r.mean.Some?
      && r.min.value in s && r.max.value in s
      && (forall x :: x in s ==> r.min.value <= x <= r.max.value)
      && r.median == MedianSorted(Sort(s)) && r.median.Some?
      && r.percentile75.Some? && r.percentile90.Some? && r.percentile95.Some? && r.percentile99.Some?
      && r.min.value <= r.median.value <= r.percentile75.value <= r.percentile90.value
      && r.percentile90.value <= r.percentile95.value <= r.percentile99.value <= r.max.value
      && r.min.value <= r.mean.value <= r.max.value
      && r.std == Some(root)
      && Square(root) <= (r.max.value - r.mean.value) * (r.mean.value - r.min.value)
      && -root <= r.mean.value - r.median.value <= root
    ensures |s| >= 3 ==>
      var r := StatsOfSorted(Sort(s), root);
      && r.skew.Some?
      && (r.skew.value.Num? ==> -3.0 <= r.skew.value.value <= 3.0)
      && (r.skew.value.NaN? <==> r.min == r.max)
      && (r.skew.value.Num? ==> r.skew.value.value * root == 3.0 * (r.mean.value - r.median.value))
      && (r.skew.value.Num? ==>
            && (r.skew.value.value > 0.0 <==> r.mean.value > r.median.value)
            && (r.skew.value.value < 0.0 <==> r.mean.value < r.median.value))
      && r.kurtosis == Some(if r.min == r.max then NaN else Num(-3.0))
    ensures |s| == 2 ==> var r := StatsOfSorted(Sort(s), root); r.skew == None && r.kurtosis == None
  {
    hide *;
    var v := Sort(s);
    SortFacts(s);
    ReportFields(v, root);
    RootFacts(root, VarianceOf(v));
    ExtremePercentiles(v);
    MiddlePercentile(v);
    PercentileMonotone(v, 0, 50);
    PercentileMonotone(v, 50, 75);
    PercentileMonotone(v, 75, 90);
    PercentileMonotone(v, 90, 95);
    PercentileMonotone(v, 95, 99);
    PercentileMonotone(v, 99, 100);
    MeanBetweenExtremes(v);
    VarianceBetweenExtremes(v);
    MeanWithinStd(v, root);
    ZeroVarianceExactly(v);
    SkewExactly(v, MeanOf(v), root);
    Presence(v, MeanOf(v), root);
    if |s| >= 3 {
      SkewBounded(v, root);
      if root != 0.0 {
        SameSign(Skew(v, MeanOf(v), root).value.value, root, MeanOf(v) - MedianSorted(v).value);
      }
      KurtosisIsNeverRight(v, root);
    }
  }

  // At least `low` elements of s are no greater than the figure, at most `high` are less.
  ghost predicate RankedBetween(s: seq<real>, figure: Option<real>, low: int, high: int) {
    figure.Some? && CountAtMost(s, figure.value) >= low && CountBelow(s, figure.value) <= high
  }

  // Where the reported figures rank in the sample, in the order in which it was taken.
  lemma {:induction false} ReportRanks(s: seq<real>, root: real)
    requires |s| >= 2
    ensures var r, m := StatsOfSorted(Sort(s), root), |s| - 1;
      && RankedBetween(s, r.median, 50 * m / 100 + 1, (50 * m + 99) / 100)
      && RankedBetween(s, r.percentile75, 75 * m / 100 + 1, (75 * m + 99) / 100)
      && RankedBetween(s, r.percentile90, 90 * m / 100 + 1, (90 * m + 99) / 100)
      && RankedBetween(s, r.percentile95, 95 * m / 100 + 1, (95 * m + 99) / 100)
      && RankedBetween(s, r.percentile99, 99 * m / 100 + 1, (99 * m + 99) / 100)
  {
    hide StatsOfSorted, Sort, PercentileFromSorted, CountAtMost, CountBelow;
    ReportFields(Sort(s), root);
    PercentileRanks(s, 50);
    PercentileRanks(s, 75);
    PercentileRanks(s, 90);
    PercentileRanks(s, 95);
    PercentileRanks(s, 99);
  }

  // The reported percentiles, interpolated in the sorted sample.
  lemma {:induction false} ReportPercentiles(s: seq<real>, root: real)
    requires |s| >= 2
    ensures var r, v := StatsOfSorted(Sort(s), root), Sort(s);
      && r.min.Some? && IsPercentile(v, r.min.value, 0)
      && r.median.Some? && IsPercentile(v, r.median.value, 50)
      && r.percentile75.Some? && IsPercentile(v, r.percentile75.value, 75)
      && r.percentile90.Some? && IsPercentile(v, r.percentile90.value, 90)
      && r.percentile95.Some? && IsPercentile(v, r.percentile95.value, 95)
      && r.percentile99.Some? && IsPercentile(v, r.percentile99.value, 99)
      && r.max.Some? && IsPercentile(v, r.max.value, 100)
  {
    hide StatsOfSorted, Sort, PercentileFromSorted, IsPercentile;
    var v := Sort(s);
    ReportFields(v, root);
    PercentileExactly(v, 0);
    PercentileExactly(v, 50);
    PercentileExactly(v, 75);
    PercentileExactly(v, 90);
    PercentileExactly(v, 95);
    PercentileExactly(v, 99);
    PercentileExactly(v, 100);
  }

  lemma {:induction false} SortFacts(s: seq<real>)
    requires s != []
    ensures Sorted(Sort(s)) && Sort(s) != []
    ensures Sort(s)[0] in s && Sort(s)[|Sort(s)| - 1] in s
    ensures forall x :: x in s ==> Sort(s)[0] <= x <= Sort(s)[|Sort(s)| - 1]
  {
    hide Sort;
    var v := Sort(s);
    assert v[0] in multiset(v) && v[|v| - 1] in multiset(v);
    forall x | x in s ensures v[0] <= x <= v[|v| - 1] {
      assert x in multiset(v);
      var i :| 0 <= i < |v| && v[i] == x;
    }
  }

  lemma {:induction false} RootFacts(root: real, x: real)
    requires IsRoot(root, x)
    ensures root >= 0.0 && Square(root) == x && (root == 0.0 <==> x == 0.0)
  {
    if x == 0.0 { OnlyZeroSquare(root); }
  }
}
