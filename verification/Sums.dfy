/**
 Sums of sequences of reals: the folds of the statistics code, and the
 inequalities about them that its results rest on.
 */
module Sums {
  import opened RealArith

  function Abs(x: real): real {
    if x < 0.0 then -x else x
  }

  // std::accumulate from zero, left to right.
  function Sum(s: seq<real>): real {
    if s == [] then 0.0 else Sum(s[..|s| - 1]) + s[|s| - 1]
  }

  function SumSquares(s: seq<real>): real {
    if s == [] then 0.0 else SumSquares(s[..|s| - 1]) + Square(s[|s| - 1])
  }

  function SumAbs(s: seq<real>): real {
    if s == [] then 0.0 else SumAbs(s[..|s| - 1]) + Abs(s[|s| - 1])
  }

  // Deviations from m.
  function Dev(s: seq<real>, m: real): (d: seq<real>)
    ensures |d| == |s| && forall i :: 0 <= i < |s| ==> d[i] == s[i] - m
  {
    if s == [] then [] else Dev(s[..|s| - 1], m) + [s[|s| - 1] - m]
  }

  function Squares(s: seq<real>): (q: seq<real>)
    ensures |q| == |s|
  {
    if s == [] then [] else Squares(s[..|s| - 1]) + [Square(s[|s| - 1])]
  }

  lemma {:induction false} SumOfSquares(s: seq<real>)
    ensures Sum(Squares(s)) == SumSquares(s)
  {
    if s == [] {
    } else {
      SumOfSquares(s[..|s| - 1]);
    }
  }

  lemma {:induction false} SumAtMost(s: seq<real>, t: seq<real>, e: real)
    requires |s| == |t| && forall i :: 0 <= i < |s| ==> s[i] <= t[i] + e
    ensures Sum(s) <= Sum(t) + e * |s| as real
  {
    if s == [] {
    } else {
      SumAtMost(s[..|s| - 1], t[..|s| - 1], e);
      MulSucc(e, |s| - 1);
    }
  }

  lemma {:induction false} MulSucc(m: real, n: nat)
    ensures m * (n + 1) as real == m * n as real + m
  {
  }

  lemma {:induction false} DevSnoc(s: seq<real>, m: real)
    requires s != []
    ensures Dev(s, m)[..|s| - 1] == Dev(s[..|s| - 1], m)
    ensures Sum(Dev(s, m)) == Sum(Dev(s[..|s| - 1], m)) + (s[|s| - 1] - m)
  {
  }

  lemma {:induction false} SumDev(s: seq<real>, m: real)
    ensures Sum(Dev(s, m)) == Sum(s) - m * |s| as real
  {
    hide Dev;
    if s == [] {
    } else {
      var n := |s| - 1;
      SumDev(s[..n], m);
      DevSnoc(s, m);
      LessOneMore(Sum(s[..n]), s[n], m, n);
    }
  }

  lemma {:induction false} LessOneMore(a: real, x: real, m: real, n: nat)
    ensures (a - m * n as real) + (x - m) == (a + x) - m * (n + 1) as real
  {
    MulSucc(m, n);
  }

  lemma {:induction false} SquareNonNegative(x: real)
    ensures Square(x) >= 0.0
  {
  }

  lemma {:induction false} SumSquaresNonNegative(s: seq<real>)
    ensures SumSquares(s) >= 0.0
  {
    if s == [] {
    } else {
      SumSquaresNonNegative(s[..|s| - 1]);
      SquareNonNegative(s[|s| - 1]);
    }
  }

  // The sum of squared deviations from m of n elements with sum a and squares q.
  function AroundPoint(q: real, a: real, n: nat, m: real): real {
    q - 2.0 * (m * a) + (m * m) * n as real
  }

  lemma {:induction false} AroundPointStep(q: real, a: real, n: nat, m: real, x: real)
    ensures AroundPoint(q + Square(x), a + x, n + 1, m) == AroundPoint(q, a, n, m) + Square(x - m)
  {
    MulSucc(m * m, n);
    assert m * (a + x) == m * a + m * x;
    assert Square(x - m) == Square(x) - 2.0 * (m * x) + m * m;
  }

  lemma {:induction false} SquaresOfDev(s: seq<real>, m: real)
    ensures SumSquares(Dev(s, m)) == AroundPoint(SumSquares(s), Sum(s), |s|, m)
  {
    if s == [] {
    } else {
      var n := |s| - 1;
      SquaresOfDev(s[..n], m);
      DevSnoc(s, m);
      AroundPointStep(SumSquares(s[..n]), Sum(s[..n]), n, m, s[n]);
    }
  }

  // Cauchy-Schwarz against the constant sequence.
  lemma {:induction false} CauchySchwarz(s: seq<real>)
    ensures Square(Sum(s)) <= |s| as real * SumSquares(s)
  {
    if s != [] {
      var m := Mean(Sum(s), |s|);
      AroundPointNonNegative(s, m);
      ScaleMean(Sum(s), SumSquares(s), |s|, m);
    }
  }

  lemma {:induction false} AroundPointNonNegative(s: seq<real>, m: real)
    ensures AroundPoint(SumSquares(s), Sum(s), |s|, m) >= 0.0
  {
    SumSquaresNonNegative(Dev(s, m));
    SquaresOfDev(s, m);
  }

  lemma {:induction false} Mean(a: real, n: nat) returns (m: real)
    requires n > 0
    ensures m * n as real == a
  {
    m := a / n as real;
  }

  lemma {:induction false} ScaleMean(a: real, q: real, n: nat, m: real)
    requires n > 0 && m * n as real == a && AroundPoint(q, a, n, m) >= 0.0
    ensures Square(a) <= n as real * q
  {
    Regroup(m, n as real);
    MulMonotone(m * a, q, n as real);
  }

  lemma {:induction false} Regroup(m: real, k: real)
    ensures m * (m * k) == (m * m) * k
    ensures (m * k) * (m * k) == (m * (m * k)) * k
  {
  }

  // Magnitudes: an upper bound of the sum, with the same squares.
  function Magnitudes(s: seq<real>): (q: seq<real>)
    ensures |q| == |s|
  {
    if s == [] then [] else Magnitudes(s[..|s| - 1]) + [Abs(s[|s| - 1])]
  }

  lemma {:induction false} SumOfMagnitudes(s: seq<real>)
    ensures Sum(Magnitudes(s)) == SumAbs(s) && SumSquares(Magnitudes(s)) == SumSquares(s)
    ensures -SumAbs(s) <= Sum(s) <= SumAbs(s)
  {
    if s == [] {
    } else {
      SumOfMagnitudes(s[..|s| - 1]);
      SquareOfAbs(s[|s| - 1]);
    }
  }

  lemma {:induction false} SquareOfAbs(x: real)
    ensures Square(Abs(x)) == Square(x)
  {
  }

  // Removing one element.
  lemma {:induction false} SumWithout(s: seq<real>, k: nat)
    requires k < |s|
    ensures var w := s[..k] + s[k + 1..];
      Sum(w) == Sum(s) - s[k] && SumSquares(w) == SumSquares(s) - Square(s[k])
  {
    if k == |s| - 1 {
      assert s[..k] + s[k + 1..] == s[..|s| - 1];
    } else {
      var n := |s| - 1;
      SumWithout(s[..n], k);
      assert (s[..k] + s[k + 1..])[..n - 1] == s[..n][..k] + s[..n][k + 1..];
    }
  }
}
