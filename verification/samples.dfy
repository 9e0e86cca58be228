/** Sums, extremes, interval counts and squared deviations of a sample: the
    LINQ aggregates (`Sum`, `Min`, `Max`, `Where(..).Count()`) the statistics
    code is built from. */
module Samples {
  import opened Text

  /** `Sum()`: the total, accumulated from the front. */
  function Sum(s: seq<real>): real
  {
    if |s| == 0 then 0.0 else Sum(s[..|s| - 1]) + s[|s| - 1]
  }

  /** The product `a * b`, with the sign rules stated once so that callers
      never have to reason about the multiplication itself. */
  function Mul(a: real, b: real): (r: real)
    ensures a > 0.0 && b > 0.0 ==> r > 0.0
    ensures a < 0.0 && b < 0.0 ==> r > 0.0
    ensures a == 0.0 || b == 0.0 ==> r == 0.0
  {
    a * b
  }

  /** The quotient `a / b`, named for the same reason as Mul. */
  function Div(a: real, b: real): real
    requires b != 0.0
  {
    a / b
  }

  /** Every value of the sample is the same. */
  predicate AllEqual(s: seq<real>)
  {
    forall i, j :: 0 <= i < |s| && 0 <= j < |s| ==> s[i] == s[j]
  }

  /** Element-wise products `a[i] * b[i]` over the indices of a. */
  function Products(a: seq<real>, b: seq<real>): (r: seq<real>)
    requires |a| <= |b|
    ensures |r| == |a|
  {
    seq(|a|, i requires 0 <= i < |a| => Mul(a[i], b[i]))
  }

  /** `Select(x => x * x)`. */
  function Squares(a: seq<real>): (r: seq<real>)
    ensures |r| == |a|
  {
    Products(a, a)
  }

  /** Squares commutes with taking a prefix. */
  lemma SquaresPrefix(s: seq<real>, n: nat)
    requires n < |s|
    ensures Squares(s)[..n] == Squares(s[..n])
    ensures Squares(s)[n] == Mul(s[n], s[n])
  {
    forall i | 0 <= i < n
      ensures Squares(s)[..n][i] == Squares(s[..n])[i]
    {
      assert s[..n][i] == s[i];
    }
  }

  /** Products commutes with taking a prefix of its first argument. */
  lemma SumProductsStep(a: seq<real>, b: seq<real>)
    requires 0 < |a| <= |b|
    ensures Sum(Products(a, b)) == Sum(Products(a[..|a| - 1], b)) + Mul(a[|a| - 1], b[|a| - 1])
  {
    var p := Products(a, b);
    assert p[..|a| - 1] == Products(a[..|a| - 1], b);
  }

  /** `Min()` of a non-empty sample. */
  function MinOf(s: seq<real>): (m: real)
    requires |s| > 0
    ensures m in s
    ensures forall x :: x in s ==> m <= x
    ensures forall i :: 0 <= i < |s| ==> m <= s[i]
  {
    if |s| == 1 then s[0]
    else
      var rest := MinOf(s[1..]);
      assert forall x :: x in s ==> x == s[0] || x in s[1..];
      if s[0] <= rest then s[0] else rest
  }

  /** `Max()` of a non-empty sample. */
  function MaxOf(s: seq<real>): (m: real)
    requires |s| > 0
    ensures m in s
    ensures forall x :: x in s ==> x <= m
    ensures forall i :: 0 <= i < |s| ==> s[i] <= m
  {
    if |s| == 1 then s[0]
    else
      var rest := MaxOf(s[1..]);
      assert forall x :: x in s ==> x == s[0] || x in s[1..];
      if s[0] >= rest then s[0] else rest
  }

  /** `Where(d => d >= lo && d <= hi)`: the values inside the closed interval, in order. */
  function Within(s: seq<real>, lo: real, hi: real): (r: seq<real>)
    ensures forall x :: multiset(r)[x] == if lo <= x <= hi then multiset(s)[x] else 0
  {
    if |s| == 0 then []
    else
      assert s == s[..|s| - 1] + [s[|s| - 1]];
      Within(s[..|s| - 1], lo, hi) + (if lo <= s[|s| - 1] <= hi then [s[|s| - 1]] else [])
  }

  /** `Where(d => d >= lo && d < hi).Count()`: how many values lie in [lo, hi). */
  function CountIn(s: seq<real>, lo: real, hi: real): (c: nat)
    ensures c <= |s|
  {
    if |s| == 0 then 0
    else CountIn(s[..|s| - 1], lo, hi) + (if lo <= s[|s| - 1] < hi then 1 else 0)
  }

  /** `Sum(x => Math.Pow(x - c, 2))`. */
  function SquaredDeviations(s: seq<real>, c: real): (r: real)
    ensures r >= 0.0
  {
    if |s| == 0 then 0.0
    else SquaredDeviations(s[..|s| - 1], c) + Mul(s[|s| - 1] - c, s[|s| - 1] - c)
  }

  // ----- sums -----

  lemma {:induction false} SumAppend(a: seq<real>, b: seq<real>)
    ensures Sum(a + b) == Sum(a) + Sum(b)
    decreases |b|
  {
    if |b| > 0 {
      assert (a + b)[..|a + b| - 1] == a + b[..|b| - 1];
      assert (a + b)[|a + b| - 1] == b[|b| - 1];
      assert Sum(a + b) == Sum((a + b)[..|a + b| - 1]) + (a + b)[|a + b| - 1];
      SumAppend(a, b[..|b| - 1]);
    } else {
      assert a + b == a;
    }
  }

  /** Every value within [lo, hi] puts the total within [n * lo, n * hi]. */
  lemma {:induction false} SumBounds(s: seq<real>, lo: real, hi: real)
    requires forall i :: 0 <= i < |s| ==> lo <= s[i] <= hi
    ensures Mul(|s| as real, lo) <= Sum(s) <= Mul(|s| as real, hi)
    decreases |s|
  {
    if |s| > 0 {
      SumBounds(s[..|s| - 1], lo, hi);
      assert Mul(|s| as real, lo) == Mul((|s| - 1) as real, lo) + lo;
      assert Mul(|s| as real, hi) == Mul((|s| - 1) as real, hi) + hi;
    }
  }

  /** A sample of one repeated value sums to n times it. */
  lemma ConstantSum(s: seq<real>, v: real)
    requires forall i :: 0 <= i < |s| ==> s[i] == v
    ensures Sum(s) == Mul(|s| as real, v)
  {
    SumBounds(s, v, v);
  }

  lemma SquaresAppend(a: seq<real>, b: seq<real>)
    ensures Squares(a + b) == Squares(a) + Squares(b)
  {
    assert forall i :: 0 <= i < |a| ==> (a + b)[i] == a[i];
    assert forall i :: |a| <= i < |a + b| ==> (a + b)[i] == b[i - |a|];
  }

  /** The sum of n copies of v, and of their squares. */
  lemma CopiesSums(v: real, n: nat)
    ensures Sum(Repeat(v, n)) == Mul(n as real, v)
    ensures Sum(Squares(Repeat(v, n))) == Mul(n as real, Mul(v, v))
  {
    ConstantSum(Repeat(v, n), v);
    ConstantSum(Squares(Repeat(v, n)), Mul(v, v));
  }

  // ----- interval counts -----

  /** Adjacent intervals [a, b) and [b, c) split [a, c). */
  lemma {:induction false} CountInSplit(s: seq<real>, a: real, b: real, c: real)
    requires a <= b <= c
    ensures CountIn(s, a, b) + CountIn(s, b, c) == CountIn(s, a, c)
    decreases |s|
  {
    if |s| > 0 {
      CountInSplit(s[..|s| - 1], a, b, c);
    }
  }

  /** A sample lying wholly inside [lo, hi) is counted in full. */
  lemma {:induction false} CountInAll(s: seq<real>, lo: real, hi: real)
    requires forall i :: 0 <= i < |s| ==> lo <= s[i] < hi
    ensures CountIn(s, lo, hi) == |s|
    decreases |s|
  {
    if |s| > 0 {
      CountInAll(s[..|s| - 1], lo, hi);
    }
  }

  /** An empty interval holds nothing. */
  lemma {:induction false} CountInEmpty(s: seq<real>, lo: real, hi: real)
    requires hi <= lo
    ensures CountIn(s, lo, hi) == 0
    decreases |s|
  {
    if |s| > 0 {
      CountInEmpty(s[..|s| - 1], lo, hi);
    }
  }

  // ----- squared deviations -----

  /** `ss - 2 c t + n c^2`: the expanded square for a sample with n values,
      total t and total of squares ss. */
  function Expanded(ss: real, t: real, n: real, c: real): real
  {
    ss - 2.0 * c * t + n * c * c
  }

  /** Expanding the square: sum (x - c)^2 == sum x^2 - 2c sum x + n c^2. */
  lemma {:induction false} SquaredDeviationsExpand(s: seq<real>, c: real)
    ensures SquaredDeviations(s, c) == Expanded(Sum(Squares(s)), Sum(s), |s| as real, c)
    decreases |s|
  {
    if |s| > 0 {
      SquaredDeviationsExpand(s[..|s| - 1], c);
      SumSquaresStep(s);
      ExpandStep(SquaredDeviations(s[..|s| - 1], c), Sum(Squares(s[..|s| - 1])), Sum(s[..|s| - 1]), (|s| - 1) as real,
                 s[|s| - 1], c, SquaredDeviations(s, c), Sum(Squares(s)), Sum(s), |s| as real);
    }
  }

  lemma SumSquaresStep(s: seq<real>)
    requires |s| > 0
    ensures Sum(Squares(s)) == Sum(Squares(s[..|s| - 1])) + Mul(s[|s| - 1], s[|s| - 1])
  {
    SquaresPrefix(s, |s| - 1);
  }

  /** One more value keeps the expansion: the inductive step of SquaredDeviationsExpand. */
  lemma ExpandStep(d: real, ss: real, t: real, n: real, x: real, c: real,
                   d': real, ss': real, t': real, n': real)
    requires d == Expanded(ss, t, n, c)
    requires d' == d + Mul(x - c, x - c) && ss' == ss + Mul(x, x) && t' == t + x && n' == n + 1.0
    ensures d' == Expanded(ss', t', n', c)
  {
    assert Mul(x - c, x - c) == Mul(x, x) - 2.0 * c * x + c * c;
    assert 2.0 * c * t' == 2.0 * c * t + 2.0 * c * x;
    assert n' * c * c == n * c * c + c * c;
  }

  /** The squared deviations vanish exactly when every value equals c. */
  lemma {:induction false} SquaredDeviationsZero(s: seq<real>, c: real)
    ensures SquaredDeviations(s, c) == 0.0 <==> forall i :: 0 <= i < |s| ==> s[i] == c
    decreases |s|
  {
    if |s| > 0 {
      SquaredDeviationsZero(s[..|s| - 1], c);
      if SquaredDeviations(s, c) == 0.0 {
        assert s[|s| - 1] - c == 0.0;
        forall i | 0 <= i < |s|
          ensures s[i] == c
        {
          if i < |s| - 1 { assert s[..|s| - 1][i] == s[i]; }
        }
      }
      if forall i :: 0 <= i < |s| ==> s[i] == c {
        var prefix := s[..|s| - 1];
        forall i | 0 <= i < |prefix|
          ensures prefix[i] == c
        {
          assert prefix[i] == s[i];
        }
      }
    }
  }

  /** About the mean the squared deviations are sum x^2 - (sum x)^2 / n, so
      n times them is n * sum x^2 - (sum x)^2. */
  lemma AboutTheMean(s: seq<real>)
    requires |s| > 0
    ensures Mul(|s| as real, SquaredDeviations(s, Sum(s) / (|s| as real)))
         == Mul(|s| as real, Sum(Squares(s))) - Mul(Sum(s), Sum(s))
  {
    SquaredDeviationsExpand(s, Sum(s) / (|s| as real));
    MeanAlgebra(|s| as real, Sum(s), Sum(Squares(s)), SquaredDeviations(s, Sum(s) / (|s| as real)),
                Sum(s) / (|s| as real));
  }

  lemma MeanAlgebra(n: real, t: real, ss: real, d: real, m: real)
    requires n > 0.0 && m == t / n
    requires d == Expanded(ss, t, n, m)
    ensures Mul(n, d) == Mul(n, ss) - Mul(t, t)
  {
    assert m * n == t;
    assert n * (n * m * m) == (m * n) * (m * n);
    assert n * (2.0 * m * t) == 2.0 * (m * n) * t;
  }
}
