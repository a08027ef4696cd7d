/** Nonlinear facts about reals, each small enough for the solver on its own. */
module RealArith {

  function Square(x: real): real {
    x * x
  }

  lemma {:induction false} ProductPositive(x: real, y: real)
    requires x > 0.0 && y > 0.0
    ensures x * y > 0.0
  {
  }

  lemma {:induction false} MulMonotone(x: real, y: real, n: real)
    requires x <= y && n >= 0.0
    ensures x * n <= y * n
  {
  }

  // The products are passed by name, so that the caller need not multiply.
  lemma {:induction false} OrderedProducts(x: real, y: real, n: real, xn: real, yn: real)
    requires x <= y && n >= 0.0 && xn == x * n && yn == y * n
    ensures xn <= yn
  {
    MulMonotone(x, y, n);
  }

  lemma {:induction false} MulStrict(x: real, y: real, n: real)
    requires x < y && n > 0.0
    ensures x * n < y * n
  {
    ProductPositive(y - x, n);
    assert (y - x) * n == y * n - x * n;
  }

  lemma {:induction false} Distribute(x: real, y: real, n: real)
    ensures (x + y) * n == x * n + y * n
  {
  }

  lemma {:induction false} NegProduct(x: real, y: real)
    ensures (-x) * y == -(x * y)
  {
  }

  lemma {:induction false} CancelFactor(x: real, y: real, n: real)
    requires n > 0.0 && x * n <= y * n
    ensures x <= y
  {
    if y < x { MulStrict(y, x, n); }
  }

  lemma {:induction false} CancelNamed(x: real, y: real, n: real, xn: real, yn: real)
    requires n > 0.0 && xn == x * n && yn == y * n && xn <= yn
    ensures x <= y
  {
    CancelFactor(x, y, n);
  }

  lemma {:induction false} CancelEqual(x: real, y: real, n: real)
    requires n != 0.0 && x * n == y * n
    ensures x == y
  {
    assert (x - y) * n == 0.0;
  }

  lemma {:induction false} CancelShared(x: real, y: real, k: real, w: real)
    requires k == w && k != 0.0 && x * k == w * y
    ensures x == y
  {
    CancelEqual(x, y, k);
  }

  lemma {:induction false} DifferenceOfSquares(x: real, y: real)
    ensures (y - x) * (y + x) == y * y - x * x
  {
  }

  lemma {:induction false} SquareStrict(x: real, y: real)
    requires 0.0 <= x < y
    ensures x * x < y * y
  {
    ProductPositive(y - x, y + x);
    DifferenceOfSquares(x, y);
  }

  lemma {:induction false} SquareMonotone(x: real, y: real)
    requires -y <= x <= y
    ensures x * x <= y * y
  {
    if x == y || x == -y {
      assert x * x == y * y;
    } else if x >= 0.0 {
      SquareStrict(x, y);
    } else {
      SquareStrict(-x, y);
      NegSquare(x);
    }
  }

  lemma {:induction false} NegSquare(x: real)
    ensures (-x) * (-x) == x * x
  {
  }

  lemma {:induction false} RootMonotone(x: real, y: real)
    requires y >= 0.0 && x * x <= y * y
    ensures -y <= x <= y
  {
    NegSquare(x);
    if x > y {
      SquareStrict(y, x);
    } else if -x > y {
      SquareStrict(y, -x);
    }
  }

  // Stated without writing x * x > 0.0, which the solver rewrites to x != 0.0.
  lemma {:induction false} SquarePositive(x: real)
    requires x != 0.0
    ensures Square(x) > 0.0
  {
    var y := if x > 0.0 then x else -x;
    TimesPositive(y, y);
    assert Square(x) == Times(y, y);
  }

  function Times(x: real, y: real): real {
    x * y
  }

  lemma {:induction false} TimesPositive(x: real, y: real)
    requires x > 0.0 && y > 0.0
    ensures Times(x, y) > 0.0
  {
  }

  lemma {:induction false} ScaleSquare(x: real, n: real, q: real)
    requires n > 0.0 && (x * n) * (x * n) <= n * q
    ensures (x * x) * n <= q
  {
    assert (x * n) * (x * n) == ((x * x) * n) * n;
    CancelFactor((x * x) * n, q, n);
  }

  lemma {:induction false} Quotient(a: real, n: real)
    requires n != 0.0
    ensures (a / n) * n == a
  {
  }

  lemma {:induction false} QuotientBounds(x: real, r: real, b: real)
    requires r > 0.0 && -(b * r) <= x <= b * r
    ensures -b <= x / r <= b
  {
    Quotient(x, r);
    CancelFactor(x / r, b, r);
    assert (-b) * r == -(b * r);
    CancelFactor(-b, x / r, r);
  }

  lemma {:induction false} QuotientAtLeast(f: real, n: real, b: real)
    requires n > 0.0 && b * n <= f
    ensures b <= f / n
  {
    Quotient(f, n);
    CancelFactor(b, f / n, n);
  }

  lemma {:induction false} QuotientAtMost(f: real, n: real, b: real)
    requires n > 0.0 && f <= b * n
    ensures f / n <= b
  {
    Quotient(f, n);
    CancelFactor(f / n, b, n);
  }
}
