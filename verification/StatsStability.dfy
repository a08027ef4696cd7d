/**
 A perturbation of the sample moves the standard deviation no further than itself, as it
 does the mean and the percentiles (StatsPercentiles.StatsAreStable).
 */
module StatsStability {
  import opened RealArith
  import opened Sums
  import opened Sorting
  import opened Stats
  import opened StatsSpread
  import opened StatsPercentiles

  function SumProducts(a: seq<real>, b: seq<real>): real
    requires |a| == |b|
  {
    if a == [] then 0.0
    else SumProducts(a[..|a| - 1], b[..|b| - 1]) + Times(a[|a| - 1], b[|b| - 1])
  }

  ghost predicate IsSumOf(u: seq<real>, a: seq<real>, b: seq<real>) {
    |u| == |a| == |b| && forall i :: 0 <= i < |u| ==> u[i] == a[i] + b[i]
  }

  lemma {:induction false} SquareOfSum(x: real, y: real)
    ensures Square(x + y) == Square(x) + 2.0 * Times(x, y) + Square(y)
  {
  }

  lemma {:induction false} SquaresOfSum(u: seq<real>, a: seq<real>, b: seq<real>)
    requires IsSumOf(u, a, b)
    ensures SumSquares(u) == SumSquares(a) + 2.0 * SumProducts(a, b) + SumSquares(b)
  {
    hide Square, Times;
    if u == [] {
    } else {
      var n := |u| - 1;
      SquaresOfSum(u[..n], a[..n], b[..n]);
      SquareOfSum(a[n], b[n]);
    }
  }

  // The sum of the squares of f a - g b.
  function Mixed(f: real, g: real, q: real, p: real, r: real): real {
    (f * f) * q - 2.0 * ((f * g) * p) + (g * g) * r
  }

  lemma {:induction false} MixedStep(f: real, g: real, q: real, p: real, r: real, x: real, y: real)
    ensures Mixed(f, g, q + Square(x), p + Times(x, y), r + Square(y)) >= Mixed(f, g, q, p, r)
  {
    var ff, fg, gg := f * f, f * g, g * g;
    assert ff * (q + x * x) == ff * q + ff * (x * x);
    assert fg * (p + x * y) == fg * p + fg * (x * y);
    assert gg * (r + y * y) == gg * r + gg * (y * y);
    SquareOfDifference(f * x, g * y);
    Reorder(f, x, f, x);
    Reorder(f, x, g, y);
    Reorder(g, y, g, y);
    SquareNonNegative(f * x - g * y);
  }

  lemma {:induction false} SquareOfDifference(x: real, y: real)
    ensures Square(x - y) == x * x - 2.0 * (x * y) + y * y
  {
  }

  lemma {:induction false} Reorder(a: real, b: real, c: real, d: real)
    ensures (a * b) * (c * d) == (a * c) * (b * d)
  {
  }

  lemma {:induction false} MixedNonNegative(f: real, g: real, a: seq<real>, b: seq<real>)
    requires |a| == |b|
    ensures Mixed(f, g, SumSquares(a), SumProducts(a, b), SumSquares(b)) >= 0.0
  {
    hide Square, Times, Mixed;
    if a == [] {
      MixedOfNothing(f, g);
    } else {
      var n := |a| - 1;
      MixedNonNegative(f, g, a[..n], b[..n]);
      MixedStep(f, g, SumSquares(a[..n]), SumProducts(a[..n], b[..n]), SumSquares(b[..n]), a[n], b[n]);
    }
  }

  lemma {:induction false} MixedOfNothing(f: real, g: real)
    ensures Mixed(f, g, 0.0, 0.0, 0.0) == 0.0
  {
  }

  lemma {:induction false} NoSquaresNoProducts(a: seq<real>, b: seq<real>)
    requires |a| == |b| && (SumSquares(a) <= 0.0 || SumSquares(b) <= 0.0)
    ensures SumProducts(a, b) == 0.0
  {
    hide Square;
    if a == [] {
    } else {
      var n := |a| - 1;
      SumSquaresNonNegative(a[..n]);
      SumSquaresNonNegative(b[..n]);
      SquareNonNegative(a[n]);
      SquareNonNegative(b[n]);
      NoSquaresNoProducts(a[..n], b[..n]);
      if a[n] != 0.0 && b[n] != 0.0 {
        SquarePositive(a[n]);
        SquarePositive(b[n]);
      } else {
        assert Times(a[n], b[n]) == 0.0;
      }
    }
  }

  // Cauchy-Schwarz for two sequences, with bounds in place of roots.
  lemma {:induction false} ProductsBound(a: seq<real>, b: seq<real>, n: real, r: real, e: real)
    requires |a| == |b| && n >= 0.0 && r >= 0.0 && e >= 0.0
    requires SumSquares(a) <= n * Square(r) && SumSquares(b) <= n * Square(e)
    ensures SumProducts(a, b) <= n * (r * e)
  {
    if r == 0.0 || e == 0.0 {
      NoSquaresNoProducts(a, b);
    } else {
      MixedNonNegative(e, r, a, b);
      MixedBound(SumSquares(a), SumProducts(a, b), SumSquares(b), n, r, e);
    }
  }

  lemma {:induction false} MixedBound(q: real, p: real, s: real, n: real, r: real, e: real)
    requires r > 0.0 && e > 0.0 && Mixed(e, r, q, p, s) >= 0.0
    requires q <= n * Square(r) && s <= n * Square(e)
    ensures p <= n * (r * e)
  {
    var k := r * e;
    ProductPositive(r, e);
    ScaledSquares(q, n, r, e);
    ScaledSquares(s, n, e, r);
    MixedAsProducts(e, r, q, p, s);
    CancelNamed(p, n * k, k, p * k, (n * k) * k);
  }

  lemma {:induction false} ScaledSquares(q: real, n: real, r: real, e: real)
    requires q <= n * Square(r)
    ensures (e * e) * q <= (n * (r * e)) * (r * e)
    ensures (e * e) * q <= (n * (e * r)) * (e * r)
  {
    SquareNonNegative(e);
    MulMonotone(q, n * (r * r), e * e);
    Reorder(r, e, r, e);
    Regroup4(e * e, n, r * r, r * e);
  }

  lemma {:induction false} MixedAsProducts(e: real, r: real, q: real, p: real, s: real)
    ensures Mixed(e, r, q, p, s) == (e * e) * q - 2.0 * (p * (r * e)) + (r * r) * s
  {
  }

  lemma {:induction false} Regroup4(a: real, n: real, b: real, k: real)
    requires a * b == k * k
    ensures (n * b) * a == (n * k) * k
  {
    assert (n * b) * a == n * (a * b);
    assert (n * k) * k == n * (k * k);
  }

  // ---- Two samples -----------------------------------------------------------------------

  function Difference(v: seq<real>, w: seq<real>): (x: seq<real>)
    requires |v| == |w|
    ensures |x| == |v| && forall i :: 0 <= i < |v| ==> x[i] == v[i] - w[i]
  {
    if v == [] then [] else Difference(v[..|v| - 1], w[..|w| - 1]) + [v[|v| - 1] - w[|w| - 1]]
  }

  lemma {:induction false} SumOfDifference(v: seq<real>, w: seq<real>)
    requires |v| == |w|
    ensures Sum(Difference(v, w)) == Sum(v) - Sum(w)
  {
    if v == [] {
    } else {
      SumOfDifference(v[..|v| - 1], w[..|w| - 1]);
    }
  }

  lemma {:induction false} SmallSquares(x: seq<real>, e: real)
    requires forall i :: 0 <= i < |x| ==> -e <= x[i] <= e
    ensures SumSquares(x) <= |x| as real * Square(e)
  {
    hide Square;
    if x == [] {
    } else {
      var n := |x| - 1;
      SmallSquares(x[..n], e);
      SquareIsProduct(x[n]);
      SquareIsProduct(e);
      SquareMonotone(x[n], e);
      MulSucc(Square(e), n);
    }
  }

  // Around its mean a sequence has no more squares than around zero.
  lemma {:induction false} SquaresAroundMean(x: seq<real>, m: real)
    requires m * |x| as real == Sum(x)
    ensures SumSquares(Dev(x, m)) <= SumSquares(x)
  {
    hide Dev, SumSquares, Sum, Square;
    SquaresOfDev(x, m);
    MeanSaves(SumSquares(x), Sum(x), |x|, m);
  }

  lemma {:induction false} MeanSaves(q: real, a: real, n: nat, m: real)
    requires m * n as real == a
    ensures AroundPoint(q, a, n, m) <= q
  {
    Regroup(m, n as real);
    SquareIsProduct(m);
    SquareNonNegative(m);
    MulMonotone(0.0, m * m, n as real);
    assert m * a == (m * m) * n as real;
  }

  // The deviations of v are those of w and those of the difference.
  lemma {:induction false} DeviationsAdd(v: seq<real>, w: seq<real>, a: real, b: real)
    requires |v| == |w|
    ensures IsSumOf(Dev(v, a), Dev(w, b), Dev(Difference(v, w), a - b))
  {
    hide Dev, Difference;
  }

  lemma {:induction false} MeanOfDifference(v: seq<real>, w: seq<real>)
    requires |v| == |w| > 0
    ensures (MeanOf(v) - MeanOf(w)) * |v| as real == Sum(Difference(v, w))
  {
    hide MeanOf, Sum;
    MeanTimes(v);
    MeanTimes(w);
    SumOfDifference(v, w);
    SubtractProducts(MeanOf(v), MeanOf(w), |v| as real);
  }

  lemma {:induction false} SubtractProducts(x: real, y: real, n: real)
    ensures (x - y) * n == x * n - y * n
  {
  }

  lemma {:induction false} RootArith(n: real, r: real, q: real, e: real, p: real, b: real)
    requires n > 0.0 && q + e >= 0.0
    requires Square(r) * n == Square(q) * n + 2.0 * p + b
    requires p <= n * (q * e) && b <= n * Square(e)
    ensures r <= q + e
  {
    SquareOfSum(q, e);
    assert Square(q + e) * n == Square(q) * n + 2.0 * (n * (q * e)) + n * Square(e);
    CancelFactor(Square(r), Square(q + e), n);
    RootMonotone(r, q + e);
  }

  // The triangle inequality for standard deviations.
  lemma {:induction false} RootAtMost(v: seq<real>, w: seq<real>, e: real, r: real, q: real)
    requires AllWithin(v, w, e) && v != []
    requires IsRoot(r, VarianceOf(v)) && IsRoot(q, VarianceOf(w))
    ensures r <= q + e
  {
    hide Square, Sum, SumSquares, SumProducts, Dev, Difference, MeanOf, VarianceOf;
    var n, x, m := |v| as real, Difference(v, w), MeanOf(v) - MeanOf(w);
    var a, b := Dev(w, MeanOf(w)), Dev(x, m);
    assert Within(v[0], w[0], e);
    forall i | 0 <= i < |x| ensures -e <= x[i] <= e {
      assert Within(v[i], w[i], e);
    }
    DeviationsAdd(v, w, MeanOf(v), MeanOf(w));
    MeanOfDifference(v, w);
    SquaresOfSum(Dev(v, MeanOf(v)), a, b);
    VarianceTimes(v);
    VarianceTimes(w);
    SmallSquares(x, e);
    SquaresAroundMean(x, m);
    ProductsBound(a, b, n, q, e);
    RootArith(n, r, q, e, SumProducts(a, b), SumSquares(b));
  }

  lemma {:induction false} WithinBothWays(v: seq<real>, w: seq<real>, e: real)
    requires AtMostAbove(v, w, e) && AtMostAbove(w, v, e)
    ensures AllWithin(v, w, e) && AllWithin(w, v, e)
  {
  }

  // Samples that agree within e, position by position before sorting, have standard
  // deviations that agree within e.
  lemma {:induction false} StdIsStable(s: seq<real>, t: seq<real>, e: real)
    requires AllWithin(s, t, e) && s != []
    ensures forall r, q :: IsRoot(r, VarianceOf(Sort(s))) && IsRoot(q, VarianceOf(Sort(t))) ==> Within(r, q, e)
  {
    hide VarianceOf, Sort, IsRoot;
    var v, w := Sort(s), Sort(t);
    SortStable(s, t, e);
    SortStable(t, s, e);
    WithinBothWays(v, w, e);
    forall r, q | IsRoot(r, VarianceOf(v)) && IsRoot(q, VarianceOf(w)) ensures Within(r, q, e) {
      RootAtMost(v, w, e, r, q);
      RootAtMost(w, v, e, q, r);
    }
  }
}
