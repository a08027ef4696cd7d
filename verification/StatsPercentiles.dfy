/**
 The interpolated percentiles of getStats: monotone, bounded by ranks, independent
 of the order of the sample, and no more sensitive than the sample itself.
 */
module StatsPercentiles {
  import opened Basics
  import opened RealArith
  import opened Sums
  import opened Sorting
  import opened Stats

  // ---- The curve that the percentiles are read from -----------------------------------

  // Linear interpolation of v at position x.
  function At(v: seq<real>, x: real): real
    requires v != [] && 0.0 <= x <= (|v| - 1) as real
  {
    var f := x.Floor;
    if x == f as real then v[f] else Interpolate(v[f], v[f + 1], x - f as real)
  }

  function Position(n: nat, percentile: int): (x: real)
    requires n > 0 && 0 <= percentile <= 100
    ensures 0.0 <= x <= (n - 1) as real
  {
    PositionInRange(n, percentile);
    (percentile as real / 100.0) * (n - 1) as real
  }

  lemma {:induction false} PercentileIsAt(v: seq<real>, percentile: int)
    requires v != [] && 0 <= percentile <= 100
    ensures PercentileFromSorted(v, percentile) == Some(At(v, Position(|v|, percentile)))
  {
    hide Interpolate;
    var x := Position(|v|, percentile);
    var index := x + 1.0;
    assert index.Floor == x.Floor + 1;
    assert index - index.Floor as real == x - x.Floor as real;
  }

  // Between two neighbours, from the one to the other.
  lemma {:induction false} Between(a: real, b: real, delta: real)
    requires a <= b && 0.0 <= delta <= 1.0
    ensures a <= Interpolate(a, b, delta) <= b
  {
    OrderedProducts(0.0, delta, b - a, 0.0, Interpolate(a, b, delta) - a);
    OrderedProducts(delta, 1.0, b - a, Interpolate(a, b, delta) - a, b - a);
  }

  lemma {:induction false} InterpolateMonotone(a: real, b: real, delta: real, delta': real)
    requires a <= b && delta <= delta'
    ensures Interpolate(a, b, delta) <= Interpolate(a, b, delta')
  {
    OrderedProducts(delta, delta', b - a, Interpolate(a, b, delta) - a, Interpolate(a, b, delta') - a);
  }

  // The curve lies between the elements at the neighbouring ranks.
  lemma {:induction false} AtBetween(v: seq<real>, x: real)
    requires Sorted(v) && v != [] && 0.0 <= x <= (|v| - 1) as real
    ensures v[x.Floor] <= At(v, x) <= v[Ceiling(x)]
    ensures x.Floor <= Ceiling(x) < |v|
  {
    hide Interpolate;
    var f := x.Floor;
    if x != f as real {
      Between(v[f], v[f + 1], x - f as real);
    }
  }

  function Ceiling(x: real): int {
    if x == x.Floor as real then x.Floor else x.Floor + 1
  }

  lemma {:induction false} AtMonotone(v: seq<real>, x: real, y: real)
    requires Sorted(v) && v != [] && 0.0 <= x <= y <= (|v| - 1) as real
    ensures At(v, x) <= At(v, y)
  {
    AtBetween(v, x);
    AtBetween(v, y);
    if x == y {
    } else if x.Floor == y.Floor {
      SameSegment(v, x.Floor, x, y);
    } else {
      assert Ceiling(x) <= y.Floor;
      assert v[Ceiling(x)] <= v[y.Floor];
    }
  }

  lemma {:induction false} SameSegment(v: seq<real>, f: int, x: real, y: real)
    requires Sorted(v) && 0 <= f && f + 1 < |v| && f as real <= x < y < (f + 1) as real
    ensures At(v, x) <= At(v, y)
  {
    hide Interpolate;
    assert x.Floor == f && y.Floor == f;
    if x == f as real {
      Between(v[f], v[f + 1], y - f as real);
    } else {
      InterpolateMonotone(v[f], v[f + 1], x - f as real, y - f as real);
    }
  }

  lemma {:induction false} PositionMonotone(n: nat, p: int, q: int)
    requires n > 0 && 0 <= p <= q <= 100
    ensures Position(n, p) <= Position(n, q)
  {
    OrderedProducts(p as real / 100.0, q as real / 100.0, (n - 1) as real, Position(n, p), Position(n, q));
  }

  // A greater percentile is never smaller in value.
  lemma {:induction false} PercentileMonotone(v: seq<real>, p: int, q: int)
    requires Sorted(v) && v != [] && 0 <= p <= q <= 100
    ensures PercentileFromSorted(v, p).Some? && PercentileFromSorted(v, q).Some?
    ensures PercentileFromSorted(v, p).value <= PercentileFromSorted(v, q).value
  {
    hide PercentileFromSorted, At, Position;
    PercentileIsAt(v, p);
    PercentileIsAt(v, q);
    PositionMonotone(|v|, p, q);
    AtMonotone(v, Position(|v|, p), Position(|v|, q));
  }

  // The extremes and the middle.
  lemma {:induction false} ExtremePercentiles(v: seq<real>)
    requires v != []
    ensures PercentileFromSorted(v, 0) == Some(v[0])
    ensures PercentileFromSorted(v, 100) == Some(v[|v| - 1])
  {
    PercentileIsAt(v, 0);
    PercentileIsAt(v, 100);
    assert Position(|v|, 0) == 0.0;
    assert Position(|v|, 100) == (|v| - 1) as real;
  }

  lemma {:induction false} Halfway(a: real, b: real)
    ensures Interpolate(a, b, 0.5) == (a + b) / 2.0
  {
  }

  // The 50th percentile is what getMedianSorted computes, odd size or even.
  lemma {:induction false} MiddlePercentile(v: seq<real>)
    requires |v| >= 2
    ensures PercentileFromSorted(v, 50) == MedianSorted(v)
  {
    hide Interpolate;
    PercentileIsAt(v, 50);
    var x, half := Position(|v|, 50), |v| / 2;
    assert x == (|v| - 1) as real / 2.0;
    if |v| % 2 == 0 {
      assert |v| == 2 * half;
      assert x == half as real - 0.5;
      assert x.Floor == half - 1;
      assert x - x.Floor as real == 0.5;
      Halfway(v[half - 1], v[half]);
    } else {
      assert |v| == 2 * half + 1;
      assert x == half as real;
    }
  }

  // ---- Ranks ----------------------------------------------------------------------------

  function CountAtMost(s: seq<real>, bound: real): nat {
    if s == [] then 0
    else CountAtMost(s[..|s| - 1], bound) + if s[|s| - 1] <= bound then 1 else 0
  }

  function CountBelow(s: seq<real>, bound: real): nat {
    if s == [] then 0
    else CountBelow(s[..|s| - 1], bound) + if s[|s| - 1] < bound then 1 else 0
  }

  lemma {:induction false} CountInsert(x: real, s: seq<real>, bound: real)
    requires Sorted(s)
    ensures CountAtMost(Insert(x, s), bound) == CountAtMost(s, bound) + if x <= bound then 1 else 0
    ensures CountBelow(Insert(x, s), bound) == CountBelow(s, bound) + if x < bound then 1 else 0
    decreases |s|
  {
    hide Insert;
    InsertStep(x, s);
    if s != [] && x < s[|s| - 1] {
      CountInsert(x, s[..|s| - 1], bound);
    }
  }

  // Sorting changes no count.
  lemma {:induction false} CountSort(s: seq<real>, bound: real)
    ensures CountAtMost(Sort(s), bound) == CountAtMost(s, bound)
    ensures CountBelow(Sort(s), bound) == CountBelow(s, bound)
    decreases |s|
  {
    if s == [] {
    } else {
      CountSort(s[..|s| - 1], bound);
      CountInsert(s[|s| - 1], Sort(s[..|s| - 1]), bound);
    }
  }

  lemma {:induction false} CountFirst(v: seq<real>, k: nat, bound: real)
    requires k <= |v| && forall i :: 0 <= i < k ==> v[i] <= bound
    ensures CountAtMost(v, bound) >= k
    decreases |v|
  {
    if v == [] {
    } else {
      CountFirst(v[..|v| - 1], if k < |v| then k else k - 1, bound);
    }
  }

  lemma {:induction false} CountLast(v: seq<real>, k: nat, bound: real)
    requires k <= |v| && forall i :: k <= i < |v| ==> bound <= v[i]
    ensures CountBelow(v, bound) <= k
    decreases |v|
  {
    if v == [] {
    } else {
      CountLast(v[..|v| - 1], if k < |v| then k else k - 1, bound);
    }
  }

  // Rank bounds on the sample s: more than p(n-1)/100 elements, rounded down, are at
  // most the percentile, and at most p(n-1)/100, rounded up, are below it.
  lemma {:induction false} PercentileRanks(s: seq<real>, p: int)
    requires s != [] && 0 <= p <= 100
    ensures PercentileFromSorted(Sort(s), p).Some?
    ensures var value := PercentileFromSorted(Sort(s), p).value;
      && CountAtMost(s, value) >= p * (|s| - 1) / 100 + 1
      && CountBelow(s, value) <= (p * (|s| - 1) + 99) / 100
  {
    hide PercentileFromSorted, At, Position, Sort, CountAtMost, CountBelow;
    var v := Sort(s);
    PercentileIsAt(v, p);
    var x := Position(|v|, p);
    AtBetween(v, x);
    var value := At(v, x);
    FloorAndCeiling(|v|, p);
    CountFirst(v, x.Floor + 1, value);
    CountLast(v, Ceiling(x), value);
    CountSort(s, value);
  }

  lemma {:induction false} FloorAndCeiling(n: nat, p: int)
    requires n > 0 && 0 <= p <= 100
    ensures Position(n, p).Floor == p * (n - 1) / 100
    ensures Ceiling(Position(n, p)) == (p * (n - 1) + 99) / 100
  {
    var k := p * (n - 1);
    ProductOfInts(p, n - 1);
    assert Position(n, p) == k as real / 100.0;
    HundredthFloor(k);
  }

  lemma {:induction false} ProductOfInts(p: int, m: int)
    ensures (p as real / 100.0) * m as real == (p * m) as real / 100.0
  {
    assert (p * m) as real == p as real * m as real;
  }

  lemma {:induction false} HundredthFloor(k: int)
    ensures (k as real / 100.0).Floor == k / 100
    ensures k as real / 100.0 == (k / 100) as real <==> k % 100 == 0
  {
    var q, r := k / 100, k % 100;
    assert k == 100 * q + r;
    assert k as real / 100.0 == q as real + r as real / 100.0;
  }

  // The percentile p of v, with p(n-1)/100 = f + r/100: the element at f, and r hundredths
  // of the way to the next.
  ghost predicate IsPercentile(v: seq<real>, value: real, p: int) {
    var k := p * (|v| - 1);
    var f, r := k / 100, k % 100;
    && 0 <= f < |v|
    && (r == 0 ==> value == v[f])
    && (r != 0 ==> f + 1 < |v| && 100.0 * (value - v[f]) == r as real * (v[f + 1] - v[f]))
  }

  lemma {:induction false} HundredthParts(a: real, b: real, r: int)
    ensures 100.0 * (Interpolate(a, b, r as real / 100.0) - a) == r as real * (b - a)
  {
  }

  lemma {:induction false} HundredthRest(k: int, x: real)
    requires k >= 0 && x == k as real / 100.0
    ensures x.Floor == k / 100
    ensures x - (k / 100) as real == (k % 100) as real / 100.0
    ensures x == (k / 100) as real <==> k % 100 == 0
  {
    HundredthFloor(k);
    assert k == 100 * (k / 100) + k % 100;
  }

  lemma {:induction false} PartOfRange(k: int, m: int)
    requires 0 <= k <= 100 * m
    ensures 0 <= k / 100 <= m && (k % 100 != 0 ==> k / 100 < m)
  {
  }

  lemma {:induction false} AtMostHundredTimes(p: int, m: int)
    requires 0 <= p <= 100 && m >= 0
    ensures 0 <= p * m <= 100 * m
  {
    assert (100 - p) * m >= 0;
  }

  lemma {:induction false} AtParts(v: seq<real>, x: real, k: int)
    requires v != [] && 0.0 <= x <= (|v| - 1) as real && k >= 0 && x == k as real / 100.0
    requires k / 100 < |v| && (k % 100 != 0 ==> k / 100 + 1 < |v|)
    ensures k % 100 == 0 ==> At(v, x) == v[k / 100]
    ensures k % 100 != 0 ==> At(v, x) == Interpolate(v[k / 100], v[k / 100 + 1], (k % 100) as real / 100.0)
  {
    hide Interpolate;
    HundredthRest(k, x);
  }

  // How far between two elements a percentile lies, for every percentage; there is none
  // exactly when the percentage is out of range.
  lemma {:induction false} PercentileExactly(v: seq<real>, p: int)
    requires v != []
    ensures PercentileFromSorted(v, p).Some? <==> 0 <= p <= 100
    ensures 0 <= p <= 100 ==> IsPercentile(v, PercentileFromSorted(v, p).value, p)
  {
    hide Interpolate, PercentileFromSorted, At;
    if 0 <= p <= 100 {
      var k, x := p * (|v| - 1), Position(|v|, p);
      PercentileIsAt(v, p);
      ProductOfInts(p, |v| - 1);
      AtMostHundredTimes(p, |v| - 1);
      PartOfRange(k, |v| - 1);
      AtParts(v, x, k);
      if k % 100 != 0 {
        HundredthParts(v[k / 100], v[k / 100 + 1], k % 100);
      }
    } else {
      NoPercentile(v, p);
    }
  }

  lemma {:induction false} NoPercentile(v: seq<real>, p: int)
    requires p < 0 || p > 100
    ensures PercentileFromSorted(v, p) == None
  {
  }

  // ---- Order and precision of the sample --------------------------------------------------

  // getStats does not see the order of the sample.
  lemma {:induction false} StatsIgnoreOrder(s: seq<real>, t: seq<real>, root: real)
    requires multiset(s) == multiset(t) && |s| >= 2
    ensures Sort(s) == Sort(t) && StatsOfSorted(Sort(s), root) == StatsOfSorted(Sort(t), root)
  {
    SortIgnoresOrder(s, t);
  }

  ghost predicate Within(a: real, b: real, e: real) {
    -e <= a - b <= e
  }

  ghost predicate AllWithin(s: seq<real>, t: seq<real>, e: real) {
    |s| == |t| && forall i :: 0 <= i < |s| ==> Within(s[i], t[i], e)
  }

  lemma {:induction false} AtAtMost(v: seq<real>, w: seq<real>, e: real, x: real)
    requires AtMostAbove(v, w, e) && v != [] && 0.0 <= x <= (|v| - 1) as real
    ensures At(v, x) <= At(w, x) + e
  {
    hide Interpolate;
    var f := x.Floor;
    if x != f as real {
      Blend(v[f], v[f + 1], w[f], w[f + 1], e, x - f as real);
    }
  }

  lemma {:induction false} Blend(a: real, b: real, c: real, d: real, e: real, delta: real)
    requires a <= c + e && b <= d + e && 0.0 <= delta <= 1.0
    ensures Interpolate(a, b, delta) <= Interpolate(c, d, delta) + e
  {
    var u, w := c + e - a, d + e - b;
    Mix(u, w, delta);
    OrderedProducts(0.0, 1.0 - delta, u, 0.0, (1.0 - delta) * u);
    OrderedProducts(0.0, delta, w, 0.0, delta * w);
    InterpolateDifference(a, b, c, d, e, delta);
  }

  lemma {:induction false} Mix(a: real, b: real, delta: real)
    ensures Interpolate(a, b, delta) == (1.0 - delta) * a + delta * b
  {
  }

  lemma {:induction false} InterpolateDifference(a: real, b: real, c: real, d: real, e: real, delta: real)
    ensures Interpolate(c + e - a, d + e - b, delta) ==
            Interpolate(c, d, delta) + e - Interpolate(a, b, delta)
  {
  }

  lemma {:induction false} AverageAtMost(v: seq<real>, w: seq<real>, e: real)
    requires AtMostAbove(v, w, e) && v != []
    ensures Average(v).value <= Average(w).value + e
  {
    SumAtMost(v, w, e);
    ShareOut(Sum(v), Sum(w), e, |v| as real);
  }

  lemma {:induction false} ShareOut(a: real, b: real, e: real, n: real)
    requires n > 0.0 && a <= b + e * n
    ensures a / n <= b / n + e
  {
    Quotient(b, n);
    Distribute(b / n, e, n);
    QuotientAtMost(a, n, b / n + e);
  }

  // Samples that agree within e, position by position before sorting, have means and
  // percentiles that agree within e.
  lemma {:induction false} StatsAreStable(s: seq<real>, t: seq<real>, e: real, p: int)
    requires AllWithin(s, t, e) && s != [] && 0 <= p <= 100
    ensures Average(Sort(s)).Some? && Average(Sort(t)).Some?
    ensures Within(Average(Sort(s)).value, Average(Sort(t)).value, e)
    ensures PercentileFromSorted(Sort(s), p).Some? && PercentileFromSorted(Sort(t), p).Some?
    ensures Within(PercentileFromSorted(Sort(s), p).value, PercentileFromSorted(Sort(t), p).value, e)
  {
    hide PercentileFromSorted, At, Average, Sort;
    SortStable(s, t, e);
    SortStable(t, s, e);
    var v, w := Sort(s), Sort(t);
    PercentileIsAt(v, p);
    PercentileIsAt(w, p);
    AtAtMost(v, w, e, Position(|v|, p));
    AtAtMost(w, v, e, Position(|v|, p));
    AverageSome(v);
    AverageSome(w);
    AverageAtMost(v, w, e);
    AverageAtMost(w, v, e);
  }

  lemma {:induction false} AverageSome(v: seq<real>)
    requires v != []
    ensures Average(v).Some?
  {
  }
}
