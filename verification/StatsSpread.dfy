/**
 What the mean, variance, skew and kurtosis reported by getStats can and cannot be.
 `v` is the sample as getStats has sorted it; every sample has such an arrangement.
 */
module StatsSpread {
  import opened Basics
  import opened RealArith
  import opened Sums
  import opened Sorting
  import opened Stats

  // ---- The median minimises the sum of absolute deviations ---------------------------

  // The median of any non-empty sorted sequence.
  function Midpoint(v: seq<real>): real
    requires v != []
  {
    if |v| % 2 == 0 then (v[|v| / 2 - 1] + v[|v| / 2]) / 2.0 else v[|v| / 2]
  }

  // The sum of |x - c|.
  function Spread(v: seq<real>, c: real): real {
    if v == [] then 0.0 else Spread(v[..|v| - 1], c) + Abs(v[|v| - 1] - c)
  }

  lemma {:induction false} SpreadIsSumAbs(v: seq<real>, c: real)
    ensures Spread(v, c) == SumAbs(Dev(v, c))
  {
    if v == [] {
    } else {
      SpreadIsSumAbs(v[..|v| - 1], c);
      DevSnoc(v, c);
    }
  }

  lemma {:induction false} SpreadHead(v: seq<real>, c: real)
    requires v != []
    ensures Spread(v, c) == Abs(v[0] - c) + Spread(v[1..], c)
  {
    if |v| > 1 {
      SpreadHead(v[..|v| - 1], c);
      assert v[..|v| - 1][1..] == v[1..][..|v| - 2];
    }
  }

  lemma {:induction false} SpreadEnds(v: seq<real>, c: real)
    requires |v| >= 2
    ensures Spread(v, c) == Abs(v[0] - c) + Spread(v[1..|v| - 1], c) + Abs(v[|v| - 1] - c)
  {
    SpreadHead(v[..|v| - 1], c);
    assert v[..|v| - 1][1..] == v[1..|v| - 1];
  }

  lemma {:induction false} EndsStraddle(lo: real, hi: real, m: real, c: real)
    requires lo <= m <= hi
    ensures Abs(lo - m) + Abs(hi - m) <= Abs(lo - c) + Abs(hi - c)
  {
  }

  lemma {:induction false} MidpointInside(v: seq<real>)
    requires Sorted(v) && |v| >= 2
    ensures v[0] <= Midpoint(v) <= v[|v| - 1]
    ensures |v| > 2 ==> Midpoint(v[1..|v| - 1]) == Midpoint(v)
  {
  }

  lemma {:induction false} MedianMinimises(v: seq<real>, c: real)
    requires Sorted(v) && v != []
    ensures Spread(v, Midpoint(v)) <= Spread(v, c)
    decreases |v|
  {
    var m := Midpoint(v);
    if |v| == 1 {
      SpreadHead(v, m);
      SpreadHead(v, c);
    } else {
      SpreadEnds(v, c);
      SpreadEnds(v, m);
      MidpointInside(v);
      EndsStraddle(v[0], v[|v| - 1], m, c);
      if |v| > 2 {
        MedianMinimises(v[1..|v| - 1], c);
      }
    }
  }

  lemma {:induction false} SpreadBound(v: seq<real>, c: real)
    ensures Square(Spread(v, c)) <= |v| as real * SumSquares(Dev(v, c))
  {
    SpreadIsSumAbs(v, c);
    SumOfMagnitudes(Dev(v, c));
    CauchySchwarz(Magnitudes(Dev(v, c)));
  }

  lemma {:induction false} MeanMedianGap(v: seq<real>, mean: real)
    requires Sorted(v) && v != [] && mean * |v| as real == Sum(v)
    ensures -Spread(v, mean) <= (mean - Midpoint(v)) * |v| as real <= Spread(v, mean)
  {
    hide *;
    var med := Midpoint(v);
    SumDev(v, med);
    SumOfMagnitudes(Dev(v, med));
    SpreadIsSumAbs(v, med);
    MedianMinimises(v, mean);
    Distribute(mean, -med, |v| as real);
    NegProduct(med, |v| as real);
  }

  lemma {:induction false} SquareIsProduct(x: real)
    ensures Square(x) == x * x
  {
  }

  // The mean is within one standard deviation of the median.
  lemma {:induction false} MeanNearMedian(v: seq<real>, mean: real)
    requires Sorted(v) && v != [] && mean * |v| as real == Sum(v)
    ensures Square(mean - Midpoint(v)) * |v| as real <= SumSquares(Dev(v, mean))
  {
    hide *;
    var x, n := mean - Midpoint(v), |v| as real;
    MeanMedianGap(v, mean);
    SpreadBound(v, mean);
    SquareIsProduct(Spread(v, mean));
    SquareIsProduct(x);
    SquareMonotone(x * n, Spread(v, mean));
    ScaleSquare(x, n, SumSquares(Dev(v, mean)));
  }

  // ---- Mean and variance as getStats computes them -------------------------------------

  function MeanOf(v: seq<real>): (m: real)
    requires v != []
    ensures Average(v) == Some(m)
  {
    Average(v).value
  }

  function VarianceOf(v: seq<real>): (q: real)
    requires v != []
    ensures Variance(v, MeanOf(v)) == Some(q)
  {
    Variance(v, MeanOf(v)).value
  }

  lemma {:induction false} MeanTimes(v: seq<real>)
    requires v != []
    ensures MeanOf(v) * |v| as real == Sum(v)
  {
    Quotient(Sum(v), |v| as real);
  }

  lemma {:induction false} VarianceTimes(v: seq<real>)
    requires v != []
    ensures VarianceOf(v) * |v| as real == SumSquares(Dev(v, MeanOf(v)))
  {
    hide *;
    VarianceQuotient(v);
    Quotient(SumSquares(Dev(v, MeanOf(v))), |v| as real);
  }

  lemma {:induction false} VarianceQuotient(v: seq<real>)
    requires v != []
    ensures VarianceOf(v) == SumSquares(Dev(v, MeanOf(v))) / |v| as real
  {
  }

  lemma {:induction false} MedianIsMidpoint(v: seq<real>)
    requires |v| >= 2
    ensures MedianSorted(v) == Some(Midpoint(v))
  {
  }

  lemma {:induction false} MeanWithinStd(v: seq<real>, root: real)
    requires Sorted(v) && |v| >= 2 && root >= 0.0 && Square(root) == VarianceOf(v)
    ensures MedianSorted(v).Some?
    ensures -root <= MeanOf(v) - MedianSorted(v).value <= root
  {
    hide *;
    MedianIsMidpoint(v);
    MeanTimes(v);
    VarianceTimes(v);
    MeanNearMedian(v, MeanOf(v));
    CancelFactor(Square(MeanOf(v) - Midpoint(v)), VarianceOf(v), |v| as real);
    SquareIsProduct(root);
    SquareIsProduct(MeanOf(v) - Midpoint(v));
    RootMonotone(MeanOf(v) - Midpoint(v), root);
  }

  // Three times mean less median, in standard deviations; none for fewer than three.
  lemma {:induction false} SkewExactly(v: seq<real>, mean: real, root: real)
    ensures Skew(v, mean, root).None? <==> |v| < 3
    ensures |v| >= 3 && root == 0.0 ==> Skew(v, mean, root).value == NaN
    ensures |v| >= 3 && root != 0.0 ==>
      && Skew(v, mean, root).value.Num? && MedianSorted(v).Some?
      && Skew(v, mean, root).value.value * root == 3.0 * (mean - MedianSorted(v).value)
  {
    if |v| >= 3 && root != 0.0 {
      Quotient(3.0 * (mean - MedianSorted(v).value), root);
    }
  }

  // The skew is positive, negative or zero as mean less median is.
  lemma {:induction false} SameSign(k: real, root: real, x: real)
    requires root > 0.0 && k * root == 3.0 * x
    ensures (k > 0.0 <==> x > 0.0) && (k < 0.0 <==> x < 0.0)
  {
    if k > 0.0 { ProductPositive(k, root); }
    if k < 0.0 { ProductPositive(-k, root); NegProduct(k, root); }
  }

  // How many values each figure needs.
  lemma {:induction false} Presence(v: seq<real>, mean: real, std: real)
    ensures Average(v).None? <==> |v| == 0
    ensures Variance(v, mean).None? <==> |v| == 0
    ensures MedianSorted(v).None? <==> |v| < 2
    ensures Skew(v, mean, std).None? <==> |v| < 3
    ensures Kurtosis(v, mean, std).None? <==> |v| < 3
  {
  }

  // Pearson's skew lies in [-3, 3] and is a number unless the standard deviation is
  // zero; then it is 0.0 / 0.0.
  lemma {:induction false} SkewBounded(v: seq<real>, root: real)
    requires Sorted(v) && |v| >= 3 && IsRoot(root, VarianceOf(v))
    ensures Skew(v, MeanOf(v), root).Some?
    ensures match Skew(v, MeanOf(v), root).value
            case Num(k) =>
              && root != 0.0 && -3.0 <= k <= 3.0
              && MedianSorted(v).Some? && k * root == 3.0 * (MeanOf(v) - MedianSorted(v).value)
            case NaN => root == 0.0 && MedianSorted(v) == Some(MeanOf(v))
  {
    SkewExactly(v, MeanOf(v), root);
    MeanWithinStd(v, root);
    if root > 0.0 {
      QuotientBounds(3.0 * (MeanOf(v) - MedianSorted(v).value), root, 3.0);
    }
  }

  // ---- Kurtosis ------------------------------------------------------------------------

  function Standardised(v: seq<real>, mean: real, std: real): (z: seq<real>)
    requires std != 0.0
    ensures |z| == |v|
  {
    if v == [] then [] else Standardised(v[..|v| - 1], mean, std) + [(v[|v| - 1] - mean) / std]
  }

  lemma {:induction false} FourthPowersAreSquares(v: seq<real>, mean: real, std: real)
    requires std != 0.0
    ensures FourthPowers(v, mean, std) == SumSquares(Squares(Standardised(v, mean, std)))
  {
    if v == [] {
    } else {
      FourthPowersAreSquares(v[..|v| - 1], mean, std);
    }
  }

  lemma {:induction false} ScaleOne(d: real, std: real)
    requires std != 0.0
    ensures Square(d / std) * Square(std) == Square(d)
  {
    Quotient(d, std);
    Regroup4(d / std, std);
  }

  lemma {:induction false} Regroup4(z: real, r: real)
    ensures (z * z) * (r * r) == (z * r) * (z * r)
  {
  }

  lemma {:induction false} StandardisedSquares(v: seq<real>, mean: real, std: real)
    requires std != 0.0
    ensures SumSquares(Standardised(v, mean, std)) * Square(std) == SumSquares(Dev(v, mean))
  {
    if v == [] {
    } else {
      var n := |v| - 1;
      StandardisedSquares(v[..n], mean, std);
      DevSnoc(v, mean);
      ScaleOne(v[n] - mean, std);
      Distribute(SumSquares(Standardised(v[..n], mean, std)), Square((v[n] - mean) / std), Square(std));
    }
  }

  lemma {:induction false} StandardisedSum(v: seq<real>, root: real)
    requires v != [] && root != 0.0 && Square(root) == VarianceOf(v)
    ensures SumSquares(Standardised(v, MeanOf(v), root)) == |v| as real
  {
    hide *;
    StandardisedSquares(v, MeanOf(v), root);
    VarianceTimes(v);
    SquarePositive(root);
    CancelShared(SumSquares(Standardised(v, MeanOf(v), root)), |v| as real, Square(root), VarianceOf(v));
  }

  // The excess kurtosis that getKurtosis sets out to compute: the mean of the fourth
  // standardised powers, less 3.
  function IntendedKurtosis(v: seq<real>, root: real): real
    requires root != 0.0 && v != []
  {
    FourthPowers(v, MeanOf(v), root) / |v| as real - 3.0
  }

  lemma {:induction false} IntendedKurtosisBound(v: seq<real>, root: real)
    requires v != [] && root != 0.0 && IsRoot(root, VarianceOf(v))
    ensures IntendedKurtosis(v, root) >= -2.0
  {
    var z := Standardised(v, MeanOf(v), root);
    StandardisedSum(v, root);
    SumOfSquares(z);
    CauchySchwarz(Squares(z));
    FourthPowersAreSquares(v, MeanOf(v), root);
    CancelFactor(|v| as real, FourthPowers(v, MeanOf(v), root), |v| as real);
    QuotientAtLeast(FourthPowers(v, MeanOf(v), root), |v| as real, 1.0);
  }

  // Since 1 / size is zero, the code reports -3 for every sample that is not constant
  // and NaN for the others; what it sets out to compute is at least -2.
  lemma {:induction false} KurtosisIsNeverRight(v: seq<real>, root: real)
    requires |v| >= 3 && IsRoot(root, VarianceOf(v))
    ensures root == 0.0 ==> Kurtosis(v, MeanOf(v), root) == Some(NaN)
    ensures root != 0.0 ==>
      && Kurtosis(v, MeanOf(v), root) == Some(Num(-3.0))
      && IntendedKurtosis(v, root) >= -2.0
  {
    if root != 0.0 {
      IntendedKurtosisBound(v, root);
      TimesZero(FourthPowers(v, MeanOf(v), root));
      assert 1 / |v| == 0;
    }
  }

  lemma {:induction false} TimesZero(x: real)
    ensures 0.0 * x == 0.0
  {
  }

  // The bound is reached.
  lemma {:induction false} KurtosisBoundIsReached()
    ensures var v := [0.0, 0.0, 1.0, 1.0];
      VarianceOf(v) == 0.25 && IsRoot(0.5, VarianceOf(v)) && IntendedKurtosis(v, 0.5) == -2.0
  {
    hide Sum, SumSquares, FourthPowers, Dev;
    var v := [0.0, 0.0, 1.0, 1.0];
    FoldsOfFour(0.0, 0.0, 1.0, 1.0, 0.5, 0.5);
    assert MeanOf(v) == 0.5;
    assert Dev(v, 0.5) == [-0.5, -0.5, 0.5, 0.5];
    FoldsOfFour(-0.5, -0.5, 0.5, 0.5, 0.5, 0.5);
    VarianceQuotient(v);
  }

  lemma {:induction false} FoldSnoc(s: seq<real>, x: real, m: real, std: real)
    requires std != 0.0
    ensures Sum(s + [x]) == Sum(s) + x && SumSquares(s + [x]) == SumSquares(s) + Square(x)
    ensures FourthPowers(s + [x], m, std) == FourthPowers(s, m, std) + Square(Square((x - m) / std))
  {
    assert (s + [x])[..|s|] == s;
  }

  lemma {:induction false} FoldOfNothing(m: real, std: real)
    requires std != 0.0
    ensures Sum([]) == 0.0 && SumSquares([]) == 0.0 && FourthPowers([], m, std) == 0.0
  {
  }

  lemma {:induction false} FoldsOfFour(a: real, b: real, c: real, d: real, m: real, std: real)
    requires std != 0.0
    ensures Sum([a, b, c, d]) == a + b + c + d
    ensures SumSquares([a, b, c, d]) == Square(a) + Square(b) + Square(c) + Square(d)
    ensures FourthPowers([a, b, c, d], m, std) ==
            Square(Square((a - m) / std)) + Square(Square((b - m) / std))
            + Square(Square((c - m) / std)) + Square(Square((d - m) / std))
  {
    hide *;
    FoldOfNothing(m, std);
    FoldSnoc([], a, m, std);
    FoldSnoc([a], b, m, std);
    FoldSnoc([a, b], c, m, std);
    FoldSnoc([a, b, c], d, m, std);
    assert [] + [a] == [a] && [a] + [b] == [a, b] && [a, b] + [c] == [a, b, c] && [a, b, c] + [d] == [a, b, c, d];
  }
}
