/**
 The statistics of `utils.h`, over exact reals.  The square root is taken by the
 caller: where the source calls std::sqrt, the model is given the root.
 */
module Stats {
  import opened Basics
  import opened RealArith
  import opened Sums
  import opened Sorting

  // A double that may be the result of 0.0 / 0.0.
  datatype Double = Num(value: real) | NaN

  datatype Summary = Summary(
    mean: Option<real>,
    median: Option<real>,
    min: Option<real>,
    max: Option<real>,
    std: Option<real>,
    skew: Option<Double>,
    kurtosis: Option<Double>,
    percentile90: Option<real>,
    percentile95: Option<real>,
    percentile99: Option<real>,
    percentile75: Option<real>)

  ghost predicate IsRoot(root: real, x: real) {
    root >= 0.0 && Square(root) == x
  }

  function Average(v: seq<real>): Option<real> {
    if |v| == 0 then None else Some(Sum(v) / |v| as real)
  }

  function MedianSorted(v: seq<real>): Option<real> {
    var size := |v|;
    if size < 2 then None
    else if size % 2 == 0 then Some((v[size / 2 - 1] + v[size / 2]) / 2.0)
    else Some(v[size / 2])
  }

  function Interpolate(a: real, b: real, delta: real): real {
    a + delta * (b - a)
  }

  lemma {:induction false} PositionInRange(n: nat, percentile: int)
    requires n > 0 && 0 <= percentile <= 100
    ensures 0.0 <= (percentile as real / 100.0) * (n - 1) as real <= (n - 1) as real
  {
    var p, m := percentile as real / 100.0, (n - 1) as real;
    OrderedProducts(0.0, p, m, 0.0, p * m);
    OrderedProducts(p, 1.0, m, p * m, m);
  }

  // No percentile of a non-empty vector reads outside it.
  lemma {:induction false} IndexInRange(n: nat, percentile: int)
    requires n > 0 && 0 <= percentile <= 100
    ensures var index := (percentile as real / 100.0) * (n - 1) as real + 1.0;
      && 1 <= index.Floor <= n
      && (index != index.Floor as real ==> index.Floor < n)
  {
    PositionInRange(n, percentile);
    NextFloor((percentile as real / 100.0) * (n - 1) as real, n - 1);
  }

  lemma {:induction false} NextFloor(x: real, m: nat)
    requires 0.0 <= x <= m as real
    ensures 1 <= (x + 1.0).Floor <= m + 1
    ensures x + 1.0 != (x + 1.0).Floor as real ==> (x + 1.0).Floor < m + 1
  {
  }

  // The source indexes v whenever the percentile is in range, so v must not be empty then.
  function PercentileFromSorted(v: seq<real>, percentile: int): Option<real>
    requires |v| > 0 || percentile < 0 || percentile > 100
  {
    if percentile < 0 || percentile > 100 then None
    else
      var index := (percentile as real / 100.0) * (|v| - 1) as real + 1.0;
      IndexInRange(|v|, percentile);
      if index == index.Floor as real then Some(v[index.Floor - 1])
      else
        var i := index.Floor;
        var delta := index - i as real;
        Some(Interpolate(v[i - 1], v[i], delta))
  }

  function Variance(v: seq<real>, mean: real): Option<real> {
    if |v| == 0 then None else Some(SumSquares(Dev(v, mean)) / |v| as real)
  }

  // `root` is the square root of the variance around `mean`.
  function Std(v: seq<real>, mean: real, root: real): Option<real> {
    match Variance(v, mean)
    case Some(_) => Some(root)
    case None => None
  }

  // `root` is what std::sqrt yields for the variance of v.
  ghost predicate IsStd(v: seq<real>, root: real)
    requires v != []
  {
    IsRoot(root, Variance(v, Average(v).value).value)
  }

  // a / b for doubles, where a is zero whenever b is.
  function Divide(a: real, b: real): Double {
    if b == 0.0 then NaN else Num(a / b)
  }

  function Skew(v: seq<real>, mean: real, root: real): Option<Double> {
    if |v| < 3 then None
    else
      match Std(v, mean, root)
      case None => None
      case Some(std) =>
        match MedianSorted(v)
        case None => None
        case Some(median) => Some(Divide(3.0 * (mean - median), std))
  }

  // Sum of the fourth powers of the standardised deviations.
  function FourthPowers(v: seq<real>, mean: real, std: real): real
    requires std != 0.0
  {
    if v == [] then 0.0
    else FourthPowers(v[..|v| - 1], mean, std) + Square(Square((v[|v| - 1] - mean) / std))
  }

  // `1 / size` divides integers.  With a zero std the sum is infinite or not a number,
  // and zero times that is not a number.
  function Kurtosis(v: seq<real>, mean: real, std: real): Option<Double> {
    if |v| < 3 then None
    else if std == 0.0 then Some(NaN)
    else Some(Num((1 / |v|) as real * FourthPowers(v, mean, std) - 3.0))
  }

  // What getStats reports of a vector that it has sorted.
  function StatsOfSorted(v: seq<real>, root: real): Summary
    requires |v| >= 2
  {
    var mean := Average(v);
    var std := Std(v, mean.value, root);
    Summary(
      mean,
      PercentileFromSorted(v, 50),
      PercentileFromSorted(v, 0),
      PercentileFromSorted(v, 100),
      std,
      Skew(v, mean.value, root),
      Kurtosis(v, mean.value, std.value),
      PercentileFromSorted(v, 90),
      PercentileFromSorted(v, 95),
      PercentileFromSorted(v, 99),
      PercentileFromSorted(v, 75))
  }

  // std::sort
  method SortInPlace(vec: array<real>)
    modifies vec
    ensures vec[..] == Sort(old(vec[..]))
  {
    var sorted := Sort(vec[..]);
    forall i | 0 <= i < vec.Length {
      vec[i] := sorted[i];
    }
    assert vec[..] == sorted;
  }

  method GetMedian(vec: array<real>) returns (median: Option<real>)
    modifies vec
    ensures vec[..] == Sort(old(vec[..]))
    ensures median == MedianSorted(vec[..])
    ensures median.None? <==> vec.Length < 2
  {
    hide Sort;
    SortInPlace(vec);
    var size := vec.Length;
    if size < 2 { return None; }
    if size % 2 == 0 {
      return Some((vec[size / 2 - 1] + vec[size / 2]) / 2.0);
    } else {
      return Some(vec[size / 2]);
    }
  }

  method GetStats(vec: array<real>, root: real) returns (stat: Option<Summary>)
    requires vec.Length >= 2 ==> IsStd(Sort(vec[..]), root)
    modifies vec
    ensures vec.Length < 2 ==> stat == None && vec[..] == old(vec[..])
    ensures vec.Length >= 2 ==>
      && vec[..] == Sort(old(vec[..]))
      && stat == Some(StatsOfSorted(vec[..], root))
      && stat.value.std.Some? && IsStd(vec[..], stat.value.std.value)
  {
    if vec.Length < 2 { return None; }
    SortInPlace(vec);
    var v := vec[..];
    var mean := Average(v);
    var min := PercentileFromSorted(v, 0);
    var max := PercentileFromSorted(v, 100);
    var median := PercentileFromSorted(v, 50);
    var p75 := PercentileFromSorted(v, 75);
    var p90 := PercentileFromSorted(v, 90);
    var p95 := PercentileFromSorted(v, 95);
    var p99 := PercentileFromSorted(v, 99);
    var std := Std(v, mean.value, root);
    var skew := Skew(v, mean.value, root);
    var kurtosis := Kurtosis(v, mean.value, std.value);
    stat := Some(Summary(mean, median, min, max, std, skew, kurtosis, p90, p95, p99, p75));
  }
}
