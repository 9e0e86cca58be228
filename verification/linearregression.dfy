/** LinearRegression.cs: the columns a least-squares fit sums over, and the
    closed-form coefficients of the line y = a + b x. */
module LinearRegression {
  import opened Outcomes
  import opened Samples
  import opened CentralMeasurements

  /** The five keys of the dictionary CreateRegressionDataSet returns. */
  function Keys(): set<string>
  {
    {"x", "y", "xx", "yy", "xy"}
  }

  /** CreateRegressionDataSet: "xx" and "yy" square every value of x and of y
      (`Select`); the loop fills "xy" with x[i] * y[i] for every index of x,
      so a y shorter than x fails on the List indexer. The inputs are stored
      unchanged under "x" and "y". */
  method CreateRegressionDataSet(xVariables: seq<real>, yVariables: seq<real>)
    returns (r: Result<map<string, seq<real>>>)
    ensures r.Err? <==> |yVariables| < |xVariables|
    ensures r.Err? ==> r.error == ArgumentOutOfRange
    ensures r.Ok? ==> r.value.Keys == Keys()
    ensures r.Ok? ==> r.value["x"] == xVariables && r.value["y"] == yVariables
    ensures r.Ok? ==> |r.value["xx"]| == |xVariables| && |r.value["yy"]| == |yVariables|
    ensures r.Ok? ==> forall i :: 0 <= i < |xVariables| ==> r.value["xx"][i] == Mul(xVariables[i], xVariables[i])
    ensures r.Ok? ==> forall i :: 0 <= i < |yVariables| ==> r.value["yy"][i] == Mul(yVariables[i], yVariables[i])
    ensures r.Ok? ==> |r.value["xy"]| == |xVariables|
    ensures r.Ok? ==> forall i :: 0 <= i < |xVariables| ==> r.value["xy"][i] == Mul(xVariables[i], yVariables[i])
  {
    var xx := Squares(xVariables);
    var yy := Squares(yVariables);
    var xy: seq<real> := [];
    var i := 0;
    while i < |xVariables|
      invariant 0 <= i <= |xVariables| && i <= |yVariables|
      invariant |xy| == i
      invariant forall j :: 0 <= j < i ==> xy[j] == Mul(xVariables[j], yVariables[j])
    {
      if i >= |yVariables| {
        return Err(ArgumentOutOfRange);
      }
      xy := xy + [Mul(xVariables[i], yVariables[i])];
      i := i + 1;
    }
    r := Ok(map["x" := xVariables, "y" := yVariables, "xx" := xx, "yy" := yy, "xy" := xy]);
  }

  /** The columns agree with the sample functions: "xx" is Squares(x) and "xy"
      is Products(x, y), so their totals are the ΣXX and ΣXY of the fit. */
  lemma ColumnsAreProducts(x: seq<real>, y: seq<real>, columns: map<string, seq<real>>)
    requires |x| <= |y| && columns.Keys == Keys()
    requires |columns["xx"]| == |x| && |columns["yy"]| == |y| && |columns["xy"]| == |x|
    requires forall i :: 0 <= i < |x| ==> columns["xx"][i] == Mul(x[i], x[i])
    requires forall i :: 0 <= i < |y| ==> columns["yy"][i] == Mul(y[i], y[i])
    requires forall i :: 0 <= i < |x| ==> columns["xy"][i] == Mul(x[i], y[i])
    ensures columns["xx"] == Squares(x) && columns["yy"] == Squares(y) && columns["xy"] == Products(x, y)
  {
  }

  /** n ΣXX - (ΣX)², the denominator of b; `Math.Pow(sumX, 2)` is exact here. */
  function Denominator(n: real, sumX: real, sumXX: real): real
  {
    Mul(n, sumXX) - Mul(sumX, sumX)
  }

  /** CalculateB: (n ΣXY - ΣX ΣY) / (n ΣXX - (ΣX)²). A zero denominator
      divides by zero and is excluded. The denominator of a sample whose x
      values vary is positive (DenominatorOfSample), and then the slope has
      the sign of n ΣXY - ΣX ΣY: rising, falling or flat with it. */
  function CalculateB(n: real, sumX: real, sumY: real, sumXX: real, sumXY: real): (b: real)
    requires Denominator(n, sumX, sumXX) != 0.0
    ensures Denominator(n, sumX, sumXX) > 0.0 ==> (b > 0.0 <==> Mul(n, sumXY) > Mul(sumX, sumY))
    ensures Denominator(n, sumX, sumXX) > 0.0 ==> (b < 0.0 <==> Mul(n, sumXY) < Mul(sumX, sumY))
  {
    if Denominator(n, sumX, sumXX) > 0.0 then
      QuotientSign(Mul(n, sumXY) - Mul(sumX, sumY), Denominator(n, sumX, sumXX));
      Div(Mul(n, sumXY) - Mul(sumX, sumY), Denominator(n, sumX, sumXX))
    else Div(Mul(n, sumXY) - Mul(sumX, sumY), Denominator(n, sumX, sumXX))
  }

  /** Dividing by a positive number keeps the sign. */
  lemma QuotientSign(a: real, d: real)
    requires d > 0.0
    ensures Div(a, d) > 0.0 <==> a > 0.0
    ensures Div(a, d) < 0.0 <==> a < 0.0
  {
    var q := a / d;
    assert q * d == a;
    if q > 0.0 {
      assert q * d > 0.0;
    } else if q < 0.0 {
      assert (-q) * d > 0.0;
    }
  }

  /** CalculateA: ΣY / n - b ΣX / n. The line passes through the point of
      means (ΣX / n, ΣY / n). A zero n divides by zero and is excluded. */
  function CalculateA(b: real, n: real, sumX: real, sumY: real): (a: real)
    requires n != 0.0
    ensures a + Mul(b, Div(sumX, n)) == Div(sumY, n)
  {
    Div(sumY, n) - Mul(b, Div(sumX, n))
  }

  /** The two normal equations of least squares,
        n a + b ΣX = ΣY   and   a ΣX + b ΣXX = ΣXY. */
  predicate NormalEquations(a: real, b: real, n: real, sumX: real, sumY: real, sumXX: real, sumXY: real)
  {
    Mul(n, a) + Mul(b, sumX) == sumY && Mul(a, sumX) + Mul(b, sumXX) == sumXY
  }

  /** The coefficients solve the normal equations, and nothing else does:
      b and a are the least-squares line. */
  lemma CoefficientsSolveNormalEquations(n: real, sumX: real, sumY: real, sumXX: real, sumXY: real, a': real, b': real)
    requires n != 0.0 && Denominator(n, sumX, sumXX) != 0.0
    ensures var b := CalculateB(n, sumX, sumY, sumXX, sumXY);
      NormalEquations(CalculateA(b, n, sumX, sumY), b, n, sumX, sumY, sumXX, sumXY)
    ensures var b := CalculateB(n, sumX, sumY, sumXX, sumXY);
      NormalEquations(a', b', n, sumX, sumY, sumXX, sumXY) ==> a' == CalculateA(b, n, sumX, sumY) && b' == b
  {
    var b := CalculateB(n, sumX, sumY, sumXX, sumXY);
    var a := CalculateA(b, n, sumX, sumY);
    SolveFirst(a, b, n, sumX, sumY);
    SolveSecond(a, b, n, sumX, sumY, sumXX, sumXY);
    if NormalEquations(a', b', n, sumX, sumY, sumXX, sumXY) {
      Unique(a', b', n, sumX, sumY, sumXX, sumXY);
    }
  }

  /** a = ΣY / n - b ΣX / n satisfies the first normal equation. */
  lemma SolveFirst(a: real, b: real, n: real, sumX: real, sumY: real)
    requires n != 0.0 && a + Mul(b, Div(sumX, n)) == Div(sumY, n)
    ensures Mul(n, a) + Mul(b, sumX) == sumY
  {
    assert n * (a + b * (sumX / n)) == n * (sumY / n);
  }

  /** With the first equation, b's definition gives the second. */
  lemma SolveSecond(a: real, b: real, n: real, sumX: real, sumY: real, sumXX: real, sumXY: real)
    requires n != 0.0 && Denominator(n, sumX, sumXX) != 0.0
    requires b == CalculateB(n, sumX, sumY, sumXX, sumXY)
    requires Mul(n, a) + Mul(b, sumX) == sumY
    ensures Mul(a, sumX) + Mul(b, sumXX) == sumXY
  {
    var d := Denominator(n, sumX, sumXX);
    QuotientTimes(Mul(n, sumXY) - Mul(sumX, sumY), d);
    Eliminated(a, b, n, sumX, sumY, sumXX);
    CancelFactor(n, Mul(a, sumX) + Mul(b, sumXX), sumXY);
  }

  /** n times the left side of the second equation, once n a is replaced
      by ΣY - b ΣX. */
  lemma Eliminated(a: real, b: real, n: real, sumX: real, sumY: real, sumXX: real)
    requires Mul(n, a) + Mul(b, sumX) == sumY
    ensures Mul(n, Mul(a, sumX) + Mul(b, sumXX)) == Mul(sumX, sumY) + Mul(b, Denominator(n, sumX, sumXX))
  {
    assert n * (a * sumX + b * sumXX) == (n * a) * sumX + b * (n * sumXX);
    assert (n * a) * sumX == (sumY - b * sumX) * sumX;
    assert (sumY - b * sumX) * sumX == sumX * sumY - b * (sumX * sumX);
  }

  lemma QuotientTimes(p: real, d: real)
    requires d != 0.0
    ensures Mul(Div(p, d), d) == p
  {
  }

  lemma CancelFactor(n: real, u: real, v: real)
    requires n != 0.0 && Mul(n, u) == Mul(n, v)
    ensures u == v
  {
    assert n * (u - v) == 0.0;
  }

  /** Any solution of the normal equations has b' = CalculateB and
      a' = CalculateA(b'). */
  lemma Unique(a': real, b': real, n: real, sumX: real, sumY: real, sumXX: real, sumXY: real)
    requires n != 0.0 && Denominator(n, sumX, sumXX) != 0.0
    requires NormalEquations(a', b', n, sumX, sumY, sumXX, sumXY)
    ensures b' == CalculateB(n, sumX, sumY, sumXX, sumXY)
    ensures a' == CalculateA(b', n, sumX, sumY)
  {
    Eliminated(a', b', n, sumX, sumY, sumXX);
    assert Mul(n, sumXY) - Mul(sumX, sumY) == Mul(b', Denominator(n, sumX, sumXX));
    Quotient(Mul(n, sumXY) - Mul(sumX, sumY), Denominator(n, sumX, sumXX), b');
    FirstSolved(a', b', n, sumX, sumY);
  }

  lemma Quotient(p: real, d: real, q: real)
    requires d != 0.0 && p == Mul(q, d)
    ensures Div(p, d) == q
  {
  }

  /** The first normal equation determines a from b. */
  lemma FirstSolved(a: real, b: real, n: real, sumX: real, sumY: real)
    requires n != 0.0 && Mul(n, a) + Mul(b, sumX) == sumY
    ensures a == Div(sumY, n) - Mul(b, Div(sumX, n))
  {
    assert sumY / n == (n * a + b * sumX) / n;
    assert (n * a + b * sumX) / n == a + b * (sumX / n);
  }

  /** Over a sample x of n values the denominator is n times the squared
      deviations from the mean: never negative, and zero exactly when all x
      are equal (or there are none), when b is undefined. */
  lemma DenominatorOfSample(x: seq<real>)
    ensures Denominator(|x| as real, Sum(x), Sum(Squares(x))) >= 0.0
    ensures Denominator(|x| as real, Sum(x), Sum(Squares(x))) == 0.0 <==> AllEqual(x)
  {
    if |x| > 0 {
      AboutTheMean(x);
      VarianceZero(x);
      assert CalculateMean(x) == Sum(x) / (|x| as real);
      ScaledDeviations(|x| as real, SquaredDeviations(x, Sum(x) / (|x| as real)));
    }
  }

  lemma ScaledDeviations(n: real, d: real)
    requires n > 0.0 && d >= 0.0
    ensures Mul(n, d) >= 0.0 && (Mul(n, d) == 0.0 <==> d == 0.0)
  {
  }

  /** Points on a line y = m x + c sum to m ΣX + n c. */
  lemma {:induction false} LineSum(x: seq<real>, y: seq<real>, m: real, c: real)
    requires |x| == |y|
    requires forall i :: 0 <= i < |x| ==> y[i] == Mul(m, x[i]) + c
    ensures Sum(y) == Mul(m, Sum(x)) + Mul(|x| as real, c)
    decreases |x|
  {
    if |x| > 0 {
      var k := |x| - 1;
      LineSum(x[..k], y[..k], m, c);
      LineSumStep(Sum(x[..k]), x[k], k as real, m, c);
    }
  }

  lemma LineSumStep(t: real, v: real, k: real, m: real, c: real)
    ensures Mul(m, t) + Mul(k, c) + (Mul(m, v) + c) == Mul(m, t + v) + Mul(k + 1.0, c)
  {
  }

  /** ... and their cross products with x sum to m ΣXX + c ΣX. */
  lemma {:induction false} LineCrossSum(x: seq<real>, y: seq<real>, m: real, c: real)
    requires |x| <= |y|
    requires forall i :: 0 <= i < |x| ==> y[i] == Mul(m, x[i]) + c
    ensures Sum(Products(x, y)) == Mul(m, Sum(Squares(x))) + Mul(c, Sum(x))
    decreases |x|
  {
    if |x| > 0 {
      var k := |x| - 1;
      LineCrossSum(x[..k], y, m, c);
      SumProductsStep(x, y);
      SumSquaresStep(x);
      LineCrossStep(Sum(Squares(x[..k])), Sum(x[..k]), x[k], m, c);
    }
  }

  lemma LineCrossStep(q: real, t: real, v: real, m: real, c: real)
    ensures Mul(m, q) + Mul(c, t) + Mul(v, Mul(m, v) + c) == Mul(m, q + Mul(v, v)) + Mul(c, t + v)
  {
    assert v * (m * v + c) == m * (v * v) + c * v;
  }

  /** On points of a line y = m x + c (with x not all equal) the fit recovers
      the line: b = m and a = c. */
  lemma ExactLine(x: seq<real>, y: seq<real>, m: real, c: real)
    requires |x| == |y| > 0
    requires forall i :: 0 <= i < |x| ==> y[i] == Mul(m, x[i]) + c
    requires Denominator(|x| as real, Sum(x), Sum(Squares(x))) != 0.0
    ensures var n := |x| as real;
      var b := CalculateB(n, Sum(x), Sum(y), Sum(Squares(x)), Sum(Products(x, y)));
      b == m && CalculateA(b, n, Sum(x), Sum(y)) == c
  {
    LineSum(x, y, m, c);
    LineCrossSum(x, y, m, c);
    LineAlgebra(|x| as real, Sum(x), Sum(Squares(x)), Sum(y), Sum(Products(x, y)), m, c);
  }

  lemma LineAlgebra(n: real, sumX: real, sumXX: real, sumY: real, sumXY: real, m: real, c: real)
    requires n != 0.0 && Denominator(n, sumX, sumXX) != 0.0
    requires sumY == Mul(m, sumX) + Mul(n, c) && sumXY == Mul(m, sumXX) + Mul(c, sumX)
    ensures CalculateB(n, sumX, sumY, sumXX, sumXY) == m
    ensures CalculateA(m, n, sumX, sumY) == c
  {
    LineNumerator(n, sumX, sumXX, sumY, sumXY, m, c);
    Quotient(Mul(n, sumXY) - Mul(sumX, sumY), Denominator(n, sumX, sumXX), m);
    FirstSolved(c, m, n, sumX, sumY);
  }

  lemma LineNumerator(n: real, sumX: real, sumXX: real, sumY: real, sumXY: real, m: real, c: real)
    requires sumY == Mul(m, sumX) + Mul(n, c) && sumXY == Mul(m, sumXX) + Mul(c, sumX)
    ensures Mul(n, sumXY) - Mul(sumX, sumY) == Mul(m, Denominator(n, sumX, sumXX))
  {
    assert n * (m * sumXX + c * sumX) == m * (n * sumXX) + n * c * sumX;
    assert sumX * (m * sumX + n * c) == m * (sumX * sumX) + n * c * sumX;
  }
}
