/** CentralMeasurements.cs: mean, weighted mean, median, mode, range, the two
    variances, and the rank rule behind percentiles and quartiles. Each
    operation takes the sample as a sequence; the sorted copy the source makes
    with `OrderBy` is Ordering.SortAscending, so the input is never changed. */
module CentralMeasurements {
  import opened Outcomes
  import opened MathUtilities
  import opened Samples
  import opened Ordering

  // ----- mean and weighted mean -----

  /** CalculateMean: the total over the count. An empty sample gives 0 / 0 in
      the source, so it is excluded here. */
  function CalculateMean(data: seq<real>): (r: real)
    requires |data| > 0
    ensures MinOf(data) <= r <= MaxOf(data)
  {
    assert forall i :: 0 <= i < |data| ==> data[i] in data;
    SumBounds(data, MinOf(data), MaxOf(data));
    Average(Sum(data), |data| as real, MinOf(data), MaxOf(data));
    Sum(data) / (|data| as real)
  }

  /** A total between n * lo and n * hi, divided by n, lies between lo and hi. */
  lemma Average(t: real, n: real, lo: real, hi: real)
    requires n > 0.0 && Mul(n, lo) <= t <= Mul(n, hi)
    ensures lo <= Div(t, n) <= hi
  {
    var q := t / n;
    assert Mul(n, q) == t;
    if q < lo {
      ScaleStrict(n, q, lo);
    }
    if hi < q {
      ScaleStrict(n, hi, q);
    }
  }

  lemma ScaleStrict(n: real, a: real, b: real)
    requires n > 0.0 && a < b
    ensures Mul(n, a) < Mul(n, b)
  {
    assert n * b - n * a == n * (b - a);
  }

  /** The mean of a sample of one repeated value is that value. */
  lemma {:induction false} MeanOfConstant(data: seq<real>, v: real)
    requires |data| > 0 && forall i :: 0 <= i < |data| ==> data[i] == v
    ensures CalculateMean(data) == v
  {
    ConstantSum(data, v);
    MulCancel(|data| as real, v);
  }

  lemma MulCancel(n: real, v: real)
    requires n != 0.0
    ensures Div(Mul(n, v), n) == v
  {
  }

  /** The weighted mean the loop of CalculateWeightedMean computes: the sum of
      x[i] * w[i] over the indices of x, over the sum of all the weights. */
  function WeightedAverage(x: seq<real>, w: seq<real>): real
    requires |x| <= |w| && Sum(w) != 0.0
  {
    Div(Sum(Products(x, w)), Sum(w))
  }

  /** CalculateWeightedMean: the loop reads w[i] for every index i of x, so a
      weight sequence shorter than x fails on its first missing weight. A zero
      weight total would divide by zero and is excluded. */
  method CalculateWeightedMean(x: seq<real>, w: seq<real>) returns (r: Result<real>)
    requires |x| <= |w| ==> Sum(w) != 0.0
    ensures r.Err? <==> |w| < |x|
    ensures r.Err? ==> r.error == IndexOutOfRange
    ensures r.Ok? ==> r.value == WeightedAverage(x, w)
  {
    var numerator := 0.0;
    var i := 0;
    while i < |x|
      invariant 0 <= i <= |x| && i <= |w|
      invariant numerator == Sum(Products(x[..i], w))
    {
      if i >= |w| {
        return Err(IndexOutOfRange);
      }
      SumProductsStep(x[..i + 1], w);
      assert x[..i + 1][..i] == x[..i];
      numerator := numerator + x[i] * w[i];
      i := i + 1;
    }
    assert x[..i] == x;
    return Ok(numerator / Sum(w));
  }

  /** With equal non-zero weights the weighted mean is the plain mean. */
  lemma {:induction false} EqualWeights(x: seq<real>, w: seq<real>, c: real)
    requires |x| == |w| > 0 && c != 0.0
    requires forall i :: 0 <= i < |w| ==> w[i] == c
    ensures Sum(w) != 0.0
    ensures WeightedAverage(x, w) == CalculateMean(x)
  {
    ConstantSum(w, c);
    assert Sum(w) == Mul(|w| as real, c);
    ScaledSum(x, w, c);
    EqualWeightsAlgebra(Sum(x), |x| as real, c, Sum(Products(x, w)), Sum(w));
  }

  lemma EqualWeightsAlgebra(t: real, n: real, c: real, p: real, sw: real)
    requires n > 0.0 && c != 0.0 && p == Mul(c, t) && sw == Mul(n, c)
    ensures sw != 0.0 && Div(p, sw) == Div(t, n)
  {
    assert c * t == (c * n) * (t / n);
  }

  /** Multiplying by a constant weight scales the total. */
  lemma {:induction false} ScaledSum(x: seq<real>, w: seq<real>, c: real)
    requires |x| <= |w|
    requires forall i :: 0 <= i < |w| ==> w[i] == c
    ensures Sum(Products(x, w)) == Mul(c, Sum(x))
    decreases |x|
  {
    if |x| > 0 {
      ScaledSum(x[..|x| - 1], w, c);
      SumProductsStep(x, w);
      ScaleStep(c, Sum(x[..|x| - 1]), x[|x| - 1]);
    }
  }

  lemma ScaleStep(c: real, t: real, v: real)
    ensures Mul(c, t) + Mul(v, c) == Mul(c, t + v)
  {
  }

  /** With non-negative weights summing to a positive total, the weighted mean
      lies between the smallest and the largest value. */
  lemma {:induction false} WeightedBounds(x: seq<real>, w: seq<real>)
    requires |x| == |w| > 0 && Sum(w) > 0.0
    requires forall i :: 0 <= i < |w| ==> w[i] >= 0.0
    ensures MinOf(x) <= WeightedAverage(x, w) <= MaxOf(x)
  {
    assert w[..|x|] == w;
    WeightedSumBounds(x, w, MinOf(x), MaxOf(x));
    Average(Sum(Products(x, w)), Sum(w), MinOf(x), MaxOf(x));
  }

  /** sum lo * w[i] <= sum x[i] * w[i] <= sum hi * w[i], here over the first |x| weights. */
  lemma {:induction false} WeightedSumBounds(x: seq<real>, w: seq<real>, lo: real, hi: real)
    requires |x| <= |w|
    requires forall i :: 0 <= i < |x| ==> lo <= x[i] <= hi && w[i] >= 0.0
    ensures Mul(Sum(w[..|x|]), lo) <= Sum(Products(x, w)) <= Mul(Sum(w[..|x|]), hi)
    decreases |x|
  {
    if |x| > 0 {
      WeightedSumBounds(x[..|x| - 1], w, lo, hi);
      SumProductsStep(x, w);
      assert w[..|x|][..|x| - 1] == w[..|x| - 1];
      WeightedStep(Sum(w[..|x| - 1]), w[|x| - 1], x[|x| - 1], lo, hi);
    }
  }

  lemma WeightedStep(sw: real, wi: real, xi: real, lo: real, hi: real)
    requires wi >= 0.0 && lo <= xi <= hi
    ensures Mul(sw + wi, lo) == Mul(sw, lo) + Mul(lo, wi)
    ensures Mul(sw + wi, hi) == Mul(sw, hi) + Mul(hi, wi)
    ensures Mul(lo, wi) <= Mul(xi, wi) <= Mul(hi, wi)
  {
    assert Mul(xi - lo, wi) >= 0.0;
    assert Mul(hi - xi, wi) >= 0.0;
  }

  /** The first and last elements of a sorted non-empty sequence are its extremes. */
  lemma SortedEnds(s: seq<real>)
    requires |s| > 0 && Ascending(s)
    ensures MinOf(s) == s[0] && MaxOf(s) == s[|s| - 1]
  {
    AscendingBounds(s);
    assert MinOf(s) in s && MaxOf(s) in s;
  }

  /** Every element of a sorted sequence lies between its first and last. */
  lemma AscendingBounds(s: seq<real>)
    requires |s| > 0 && Ascending(s)
    ensures forall x :: x in s ==> s[0] <= x <= s[|s| - 1]
  {
    forall x | x in s
      ensures s[0] <= x <= s[|s| - 1]
    {
      var i :| 0 <= i < |s| && s[i] == x;
      if 0 < i {
        assert s[0] <= s[i];
      }
      if i < |s| - 1 {
        assert s[i] <= s[|s| - 1];
      }
    }
  }

  /** The sorted copy starts at the smallest value and ends at the largest:
      `OrderBy(x => x).First()` is the minimum and `.Last()` the maximum. */
  lemma SortedExtremes(data: seq<real>)
    requires |data| > 0
    ensures SortAscending(data)[0] == MinOf(data)
    ensures SortAscending(data)[|data| - 1] == MaxOf(data)
  {
    var sorted := SortAscending(data);
    SortedEnds(sorted);
    SortedMembers(data);
    assert MinOf(sorted) in data && MinOf(data) in sorted;
    assert MaxOf(sorted) in data && MaxOf(data) in sorted;
  }

  // ----- the rank rule: percentiles, quartiles and the median -----

  /** The location lk = p / 100 * n of the p-th percentile in a sample of n values. */
  function Location(percentile: real, n: nat): real
  {
    percentile / 100.0 * (n as real)
  }

  /** The rank rule of FindPercentile and the three quartile functions, on the
      sorted copy: a location lk that is not whole picks the element at
      ceiling(lk) - 1; a whole one averages the elements at lk - 1 and lk. An
      index outside the array fails. The source computes the ceiling as
      `(int)RoundUp(lk, 0)`; RoundUpIsCeiling shows that is Ceiling(lk). */
  function RankValue(sorted: seq<real>, lk: real): (r: Result<real>)
    ensures r.Ok? <==> 0.0 < lk < |sorted| as real
    ensures r.Err? ==> r.error == IndexOutOfRange
  {
    CeilingOfWhole(lk);
    var c := Ceiling(lk);
    if !IsInt(lk) then
      if 0 <= c - 1 < |sorted| then Ok(sorted[c - 1]) else Err(IndexOutOfRange)
    else if 0 <= c - 1 && c < |sorted| then Ok((sorted[c - 1] + sorted[c]) / 2.0)
    else Err(IndexOutOfRange)
  }

  /** `(int)RoundUp(lk, 0)` is the ceiling of lk. */
  lemma RoundUpIsCeiling(lk: real)
    ensures RoundUp(lk, 0).Ok? && Truncate(RoundUp(lk, 0).value) == Ceiling(lk)
  {
    WholeRounding(lk);
    TruncateWhole(Ceiling(lk));
  }

  lemma TruncateWhole(k: int)
    ensures Truncate(k as real) == k
  {
  }

  lemma CeilingOfWhole(lk: real)
    ensures IsInt(lk) ==> Ceiling(lk) as real == lk
    ensures !IsInt(lk) ==> Ceiling(lk) as real - 1.0 < lk < Ceiling(lk) as real
  {
    if IsInt(lk) {
      CeilingUnique(lk, lk.Floor);
    } else if lk == Ceiling(lk) as real {
      FloorUnique(lk, Ceiling(lk));
    }
  }

  /** The value the rank rule picks lies between the elements at ceiling(lk) - 1
      and at the upper neighbour (ceiling(lk) itself when lk is whole). */
  lemma RankBetween(sorted: seq<real>, lk: real)
    requires Ascending(sorted) && RankValue(sorted, lk).Ok?
    ensures 1 <= Ceiling(lk) <= |sorted|
    ensures sorted[Ceiling(lk) - 1] <= RankValue(sorted, lk).value
    ensures IsInt(lk) ==> Ceiling(lk) < |sorted| && RankValue(sorted, lk).value <= sorted[Ceiling(lk)]
    ensures !IsInt(lk) ==> RankValue(sorted, lk).value == sorted[Ceiling(lk) - 1]
  {
    CeilingOfWhole(lk);
  }

  /** A larger location never picks a smaller value. */
  lemma RankMonotone(sorted: seq<real>, lk1: real, lk2: real)
    requires Ascending(sorted) && lk1 <= lk2
    requires RankValue(sorted, lk1).Ok? && RankValue(sorted, lk2).Ok?
    ensures RankValue(sorted, lk1).value <= RankValue(sorted, lk2).value
  {
    RankBetween(sorted, lk1);
    RankBetween(sorted, lk2);
    CeilingOfWhole(lk1);
    CeilingOfWhole(lk2);
    var c1, c2 := Ceiling(lk1), Ceiling(lk2);
    if lk1 < lk2 {
      if IsInt(lk1) {
        assert c1 <= c2 - 1;
        if c1 < c2 - 1 {
          assert sorted[c1] <= sorted[c2 - 1];
        }
        assert RankValue(sorted, lk1).value <= sorted[c2 - 1];
      } else {
        assert c1 - 1 <= c2 - 1;
        if c1 < c2 {
          assert sorted[c1 - 1] <= sorted[c2 - 1];
        }
        assert RankValue(sorted, lk1).value <= sorted[c2 - 1];
      }
      assert sorted[c2 - 1] <= RankValue(sorted, lk2).value;
    }
  }

  /** The location is strictly inside (0, n) exactly when the sample is not
      empty and 0 < p < 100. */
  lemma LocationInside(percentile: real, n: nat)
    ensures 0.0 < Location(percentile, n) < n as real <==> n > 0 && 0.0 < percentile < 100.0
  {
    var q := percentile / 100.0;
    assert Location(percentile, n) == q * (n as real);
    assert 0.0 < q <==> 0.0 < percentile;
    assert q < 1.0 <==> percentile < 100.0;
    if n > 0 {
      ScaleOrder(q, n as real);
    } else {
      assert q * (n as real) == 0.0;
    }
  }

  lemma ScaleOrder(q: real, r: real)
    requires r > 0.0
    ensures 0.0 < q * r <==> 0.0 < q
    ensures q * r < r <==> q < 1.0
  {
    if q <= 0.0 {
      assert q * r <= 0.0;
    }
    if q >= 1.0 {
      assert q * r - r == (q - 1.0) * r;
    }
  }

  /** The location grows with p. */
  lemma LocationMonotone(p1: real, p2: real, n: nat)
    requires p1 <= p2
    ensures Location(p1, n) <= Location(p2, n)
  {
    assert (p2 / 100.0 - p1 / 100.0) * (n as real) >= 0.0;
  }

  /** FindPercentile: the rank rule at lk = p / 100 * n on the sorted copy. It
      fails unless the sample is non-empty and 0 < p < 100: p = 0 asks for
      the element at -1 and p = 100 for the element at n. */
  function FindPercentile(data: seq<real>, percentile: real): (r: Result<real>)
    ensures r.Ok? <==> |data| > 0 && 0.0 < percentile < 100.0
    ensures r.Err? ==> r.error == IndexOutOfRange
    ensures r.Ok? ==> MinOf(data) <= r.value <= MaxOf(data)
  {
    LocationInside(percentile, |data|);
    RankWithin(data, Location(percentile, |data|));
    RankValue(SortAscending(data), Location(percentile, |data|))
  }

  /** Whatever the rank rule picks from the sorted copy lies between the
      sample's minimum and maximum. */
  lemma RankWithin(data: seq<real>, lk: real)
    ensures RankValue(SortAscending(data), lk).Ok? ==>
              MinOf(data) <= RankValue(SortAscending(data), lk).value <= MaxOf(data)
  {
    var sorted := SortAscending(data);
    if RankValue(sorted, lk).Ok? {
      RankBetween(sorted, lk);
      SortedMembers(data);
      assert sorted[Ceiling(lk) - 1] in data;
      if IsInt(lk) {
        assert sorted[Ceiling(lk)] in data;
      }
    }
  }

  /** Percentiles are monotone in p. */
  lemma PercentileMonotone(data: seq<real>, p1: real, p2: real)
    requires |data| > 0 && 0.0 < p1 <= p2 < 100.0
    ensures FindPercentile(data, p1).value <= FindPercentile(data, p2).value
  {
    LocationMonotone(p1, p2, |data|);
    assert FindPercentile(data, p1).Ok? && FindPercentile(data, p2).Ok?;
    RankMonotone(SortAscending(data), Location(p1, |data|), Location(p2, |data|));
  }

  /** FindFirstQuartile: the rank rule at p = 25. */
  function FindFirstQuartile(data: seq<real>): (r: Result<real>)
    ensures r.Ok? <==> |data| > 0
    ensures r.Err? ==> r.error == IndexOutOfRange
    ensures r.Ok? ==> MinOf(data) <= r.value <= MaxOf(data)
  {
    FindPercentile(data, 25.0)
  }

  /** FindSecondQuartile: the rank rule at p = 50. */
  function FindSecondQuartile(data: seq<real>): (r: Result<real>)
    ensures r.Ok? <==> |data| > 0
    ensures r.Err? ==> r.error == IndexOutOfRange
    ensures r.Ok? ==> MinOf(data) <= r.value <= MaxOf(data)
  {
    FindPercentile(data, 50.0)
  }

  /** FindThirdQuartile: the rank rule at p = 75. */
  function FindThirdQuartile(data: seq<real>): (r: Result<real>)
    ensures r.Ok? <==> |data| > 0
    ensures r.Err? ==> r.error == IndexOutOfRange
    ensures r.Ok? ==> MinOf(data) <= r.value <= MaxOf(data)
  {
    FindPercentile(data, 75.0)
  }

  /** The ten values 1 to 10, in order. */
  function OneToTen(): (s: seq<real>)
    ensures |s| == 10 && Ascending(s)
  {
    seq(10, i => (i + 1) as real)
  }

  /** On 1 to 10 the location of Q1 is 2.5, not whole: Q1 is the third value. */
  lemma FirstQuartileOfOneToTen()
    ensures FindFirstQuartile(OneToTen()) == Ok(3.0)
  {
    var data := OneToTen();
    SortAscendingSorted(data);
    assert FindFirstQuartile(data) == RankValue(data, Location(25.0, 10));
    assert Location(25.0, 10) == 2.5;
    FloorUnique(2.5, 2);
    CeilingUnique(2.5, 3);
    assert !IsInt(2.5);
    assert RankValue(data, 2.5) == Ok(data[2]);
  }

  /** The location of Q2 is 5, whole: Q2 averages the fifth and sixth values. */
  lemma SecondQuartileOfOneToTen()
    ensures FindSecondQuartile(OneToTen()) == Ok(5.5)
  {
    var data := OneToTen();
    SortAscendingSorted(data);
    assert FindSecondQuartile(data) == RankValue(data, Location(50.0, 10));
    assert Location(50.0, 10) == 5.0;
    WholeIsInt(5);
    CeilingUnique(5.0, 5);
    assert RankValue(data, 5.0) == Ok((data[4] + data[5]) / 2.0);
  }

  /** The location of Q3 is 7.5: Q3 is the eighth value. */
  lemma ThirdQuartileOfOneToTen()
    ensures FindThirdQuartile(OneToTen()) == Ok(8.0)
  {
    var data := OneToTen();
    SortAscendingSorted(data);
    assert FindThirdQuartile(data) == RankValue(data, Location(75.0, 10));
    assert Location(75.0, 10) == 7.5;
    FloorUnique(7.5, 7);
    CeilingUnique(7.5, 8);
    assert !IsInt(7.5);
    assert RankValue(data, 7.5) == Ok(data[7]);
  }

  /** So the interquartile range of 1 to 10 is 5. */
  lemma RangeOfOneToTen()
    ensures CalculateInterQuartileRange(OneToTen()) == Ok(5.0)
  {
    FirstQuartileOfOneToTen();
    ThirdQuartileOfOneToTen();
  }

  /** The quartiles come in order. */
  lemma QuartilesOrdered(data: seq<real>)
    requires |data| > 0
    ensures FindFirstQuartile(data).value <= FindSecondQuartile(data).value <= FindThirdQuartile(data).value
  {
    PercentileMonotone(data, 25.0, 50.0);
    PercentileMonotone(data, 50.0, 75.0);
  }

  /** CalculateInterQuartileRange: Q3 - Q1, never negative. */
  function CalculateInterQuartileRange(data: seq<real>): (r: Result<real>)
    ensures r.Ok? <==> |data| > 0
    ensures r.Err? ==> r.error == IndexOutOfRange
    ensures r.Ok? ==> r.value >= 0.0
  {
    if |data| == 0 then FindThirdQuartile(data)
    else
      QuartilesOrdered(data);
      Ok(FindThirdQuartile(data).value - FindFirstQuartile(data).value)
  }

  /** CalculateMedian: the middle element of the sorted copy for an odd count,
      the mean of the two middle ones for an even count; an empty sample fails
      on the list index. */
  function CalculateMedian(data: seq<real>): (r: Result<real>)
    ensures r.Err? <==> |data| == 0
    ensures r.Err? ==> r.error == ArgumentOutOfRange
  {
    var values := SortAscending(data);
    var centerPoint := |data| / 2;
    if |data| % 2 == 0 then
      if centerPoint >= 1 then Ok((values[centerPoint] + values[centerPoint - 1]) / 2.0)
      else Err(ArgumentOutOfRange)
    else Ok(values[centerPoint])
  }

  /** The median and the second quartile agree on every non-empty sample. */
  lemma MedianIsSecondQuartile(data: seq<real>)
    requires |data| > 0
    ensures CalculateMedian(data) == FindSecondQuartile(data)
  {
    var n := |data|;
    var sorted := SortAscending(data);
    var lk := Location(50.0, n);
    assert FindSecondQuartile(data) == RankValue(sorted, lk);
    if n % 2 == 0 {
      HalfLocationEven(n);
      assert RankValue(sorted, lk) == Ok((sorted[n / 2 - 1] + sorted[n / 2]) / 2.0);
      assert CalculateMedian(data) == Ok((sorted[n / 2] + sorted[n / 2 - 1]) / 2.0);
    } else {
      HalfLocationOdd(n);
      assert RankValue(sorted, lk) == Ok(sorted[n / 2]);
      assert CalculateMedian(data) == Ok(sorted[n / 2]);
    }
  }

  /** For an even count the median location n / 2 is whole. */
  lemma HalfLocationEven(n: nat)
    requires n % 2 == 0
    ensures IsInt(Location(50.0, n)) && Ceiling(Location(50.0, n)) == n / 2
  {
    assert Location(50.0, n) == (n / 2) as real;
    WholeIsInt(n / 2);
    CeilingUnique(Location(50.0, n), n / 2);
  }

  /** For an odd count the median location n / 2 is not whole, and its ceiling is (n + 1) / 2. */
  lemma HalfLocationOdd(n: nat)
    requires n % 2 == 1
    ensures !IsInt(Location(50.0, n)) && Ceiling(Location(50.0, n)) == n / 2 + 1
  {
    assert Location(50.0, n) == (n / 2) as real + 0.5;
    CeilingUnique(Location(50.0, n), n / 2 + 1);
    FloorUnique(Location(50.0, n), n / 2);
  }

  // ----- mode -----

  /** One group of `GroupBy(x => x)`: a distinct value and how often it occurs. */
  datatype Group = Group(key: real, count: nat)

  /** The distinct values of a sample, in order of first occurrence (the order
      in which `GroupBy` yields its groups). */
  function Distinct(s: seq<real>): (d: seq<real>)
    ensures forall x :: x in d <==> x in s
    ensures forall i, j :: 0 <= i < j < |d| ==> d[i] != d[j]
  {
    if |s| == 0 then []
    else
      var prefix := Distinct(s[..|s| - 1]);
      assert s == s[..|s| - 1] + [s[|s| - 1]];
      if s[|s| - 1] in prefix then prefix else prefix + [s[|s| - 1]]
  }

  /** `data.GroupBy(x => x)`: one group per distinct value, with its count. */
  function GroupBy(data: seq<real>): (g: seq<Group>)
    ensures |g| == |Distinct(data)|
    ensures forall i :: 0 <= i < |g| ==> g[i].key == Distinct(data)[i] && g[i].count == multiset(data)[g[i].key]
  {
    seq(|Distinct(data)|, i requires 0 <= i < |Distinct(data)| => Group(Distinct(data)[i], multiset(data)[Distinct(data)[i]]))
  }

  /** The sort key `grp => grp.Count()`. */
  function CountKey(g: Group): int
  {
    g.count
  }

  /** v occurs in the sample more often than any other value. */
  predicate StrictMode(data: seq<real>, v: real)
  {
    v in data && forall w :: w in data && w != v ==> multiset(data)[w] < multiset(data)[v]
  }

  /** CalculateMode: the groups by descending count; the first two are
      compared. Fewer than two distinct values fail on `values[1]` (so does
      an empty sample on `values[0]`), and a tie for the top count is "no
      mode". Otherwise the result is the value that occurs most often. */
  function CalculateMode(data: seq<real>): (r: Result<real>)
    ensures r.Err? && r.error == ArgumentOutOfRange <==> |Distinct(data)| < 2
    ensures r.Ok? <==> |Distinct(data)| >= 2 && exists v :: StrictMode(data, v)
    ensures r.Ok? ==> StrictMode(data, r.value)
    ensures r.Err? && r.error == NoMode <==> |Distinct(data)| >= 2 && !exists v :: StrictMode(data, v)
  {
    ModeFromGroups(data);
    var values := SortDescendingBy(GroupBy(data), CountKey);
    if |values| < 2 then Err(ArgumentOutOfRange)
    else if values[0].count == values[1].count then Err(NoMode)
    else Ok(values[0].key)
  }

  /** In 1, 1, 2, 2 both values occur twice: the top two counts tie and there
      is no mode. */
  lemma ModeTie()
    ensures CalculateMode([1.0, 1.0, 2.0, 2.0]) == Err(NoMode)
  {
    var data := [1.0, 1.0, 2.0, 2.0];
    assert multiset(data)[1.0] == 2 && multiset(data)[2.0] == 2;
    var d := Distinct(data);
    assert 1.0 in data && 2.0 in data;
    var i :| 0 <= i < |d| && d[i] == 1.0;
    var j :| 0 <= j < |d| && d[j] == 2.0;
    assert i != j;
    forall v
      ensures !StrictMode(data, v)
    {
      if v == 1.0 {
        assert 2.0 != v && multiset(data)[2.0] == multiset(data)[v];
      } else {
        assert v in data ==> v == 2.0;
        assert 1.0 != v;
      }
    }
  }

  /** The link between the sorted groups and the sample: the first two counts
      differ exactly when the sample has a strict mode, and the first group
      then holds it. */
  lemma ModeFromGroups(data: seq<real>)
    ensures var values := SortDescendingBy(GroupBy(data), CountKey);
      |values| >= 2 ==>
        (values[0].count > values[1].count <==> exists v :: StrictMode(data, v)) &&
        (values[0].count > values[1].count ==> StrictMode(data, values[0].key))
  {
    if |GroupBy(data)| >= 2 {
      ModeFromSortedGroups(data);
    }
  }

  lemma ModeFromSortedGroups(data: seq<real>)
    requires |GroupBy(data)| >= 2
    ensures var values := SortDescendingBy(GroupBy(data), CountKey);
      (values[0].count > values[1].count <==> exists v :: StrictMode(data, v)) &&
      (values[0].count > values[1].count ==> StrictMode(data, values[0].key))
  {
    var g := GroupBy(data);
    var d := Distinct(data);
    TopOfDescending(g, CountKey);
    var values := SortDescendingBy(g, CountKey);
    forall i | UniqueTop(g, CountKey, i)
      ensures StrictMode(data, g[i].key)
    {
      forall w | w in data && w != g[i].key
        ensures multiset(data)[w] < multiset(data)[g[i].key]
      {
        var j :| 0 <= j < |d| && d[j] == w;
        assert CountKey(g[j]) < CountKey(g[i]);
      }
      assert d[i] in data;
    }
    forall v | StrictMode(data, v)
      ensures exists i :: UniqueTop(g, CountKey, i)
    {
      var i :| 0 <= i < |d| && d[i] == v;
      forall j | 0 <= j < |g| && j != i
        ensures CountKey(g[j]) < CountKey(g[i])
      {
        if j < i { assert d[j] != d[i]; } else { assert d[i] != d[j]; }
        assert d[j] in data;
      }
      assert UniqueTop(g, CountKey, i);
    }
    if values[0].count > values[1].count {
      var i :| UniqueTop(g, CountKey, i);
      assert values[0] == g[i];
    }
  }

  // ----- range and variances -----

  /** CalculateRange: `Max() - Min()`; both throw on an empty sample. */
  function CalculateRange(data: seq<real>): (r: Result<real>)
    ensures r.Err? <==> |data| == 0
    ensures r.Err? ==> r.error == InvalidOperation
    ensures r.Ok? ==> r.value >= 0.0 && (r.value == 0.0 <==> AllEqual(data))
  {
    if |data| == 0 then Err(InvalidOperation)
    else
      RangeZero(data);
      Ok(MaxOf(data) - MinOf(data))
  }

  /** The maximum equals the minimum exactly when all values are the same. */
  lemma RangeZero(data: seq<real>)
    requires |data| > 0
    ensures MaxOf(data) == MinOf(data) <==> AllEqual(data)
  {
    if AllEqual(data) {
      var a :| 0 <= a < |data| && data[a] == MaxOf(data);
      var b :| 0 <= b < |data| && data[b] == MinOf(data);
      assert data[a] == data[b];
    }
  }

  /** CalculateSampleVariance: the squared deviations from the mean over n - 1.
      With fewer than two values the source divides by zero. */
  function CalculateSampleVariance(data: seq<real>): (r: real)
    requires |data| >= 2
    ensures r >= 0.0
    ensures r == 0.0 <==> AllEqual(data)
  {
    VarianceZero(data);
    NonNegativeQuotient(SquaredDeviations(data, CalculateMean(data)), (|data| - 1) as real);
    SquaredDeviations(data, CalculateMean(data)) / ((|data| - 1) as real)
  }

  /** CalculatePopulationVariance: the squared deviations from the mean over n. */
  function CalculatePopulationVariance(data: seq<real>): (r: real)
    requires |data| > 0
    ensures r >= 0.0
    ensures r == 0.0 <==> AllEqual(data)
  {
    VarianceZero(data);
    NonNegativeQuotient(SquaredDeviations(data, CalculateMean(data)), |data| as real);
    SquaredDeviations(data, CalculateMean(data)) / (|data| as real)
  }

  lemma NonNegativeQuotient(t: real, n: real)
    requires t >= 0.0 && n > 0.0
    ensures Div(t, n) >= 0.0 && (Div(t, n) == 0.0 <==> t == 0.0)
  {
  }

  /** The squared deviations from the mean vanish exactly when all values are the same. */
  lemma VarianceZero(data: seq<real>)
    requires |data| > 0
    ensures SquaredDeviations(data, CalculateMean(data)) == 0.0 <==> AllEqual(data)
  {
    SquaredDeviationsZero(data, CalculateMean(data));
    if AllEqual(data) {
      assert forall i :: 0 <= i < |data| ==> data[i] == data[0];
      MeanOfConstant(data, data[0]);
    }
  }

  /** Both variances share one numerator: (n - 1) * sample == n * population. */
  lemma VariancesAgree(data: seq<real>)
    requires |data| >= 2
    ensures Mul((|data| - 1) as real, CalculateSampleVariance(data)) == Mul(|data| as real, CalculatePopulationVariance(data))
  {
    var d := SquaredDeviations(data, CalculateMean(data));
    MulDiv((|data| - 1) as real, d);
    MulDiv(|data| as real, d);
  }

  /** The shortcut form of a sample variance from the count n, the total t
      and the sum of squares s2: (s2 - t² / n) / (n - 1). */
  function ShortcutVariance(n: real, t: real, s2: real): real
    requires n > 1.0
  {
    Div(s2 - Div(Mul(t, t), n), n - 1.0)
  }

  /** The sample variance equals its shortcut form. */
  lemma SampleVarianceFormula(data: seq<real>)
    requires |data| >= 2
    ensures CalculateSampleVariance(data) == ShortcutVariance(|data| as real, Sum(data), Sum(Squares(data)))
  {
    SampleVarianceUnfold(data);
    DeviationsShortcut(data);
  }

  lemma SampleVarianceUnfold(data: seq<real>)
    requires |data| >= 2
    ensures CalculateSampleVariance(data) == SquaredDeviations(data, Sum(data) / (|data| as real)) / ((|data| - 1) as real)
  {
    assert CalculateMean(data) == Sum(data) / (|data| as real);
  }

  lemma DeviationsShortcut(data: seq<real>)
    requires |data| >= 2
    ensures SquaredDeviations(data, Sum(data) / (|data| as real)) / ((|data| - 1) as real)
         == ShortcutVariance(|data| as real, Sum(data), Sum(Squares(data)))
  {
    AboutTheMean(data);
    ShortcutAlgebra(|data| as real, (|data| - 1) as real,
                    SquaredDeviations(data, Sum(data) / (|data| as real)), Sum(data), Sum(Squares(data)));
  }

  lemma ShortcutAlgebra(n: real, k: real, d: real, t: real, s2: real)
    requires n > 1.0 && k == n - 1.0 && Mul(n, d) == Mul(n, s2) - Mul(t, t)
    ensures d / k == ShortcutVariance(n, t, s2)
  {
    assert n * d == n * s2 - t * t;
    assert d == s2 - (t * t) / n;
  }

  lemma MulDiv(n: real, t: real)
    requires n != 0.0
    ensures Mul(n, Div(t, n)) == t
  {
  }

  /** The population variance is the mean of the squares minus the square of the mean. */
  lemma PopulationVarianceFormula(data: seq<real>)
    requires |data| > 0
    ensures CalculatePopulationVariance(data)
         == Div(Sum(Squares(data)), |data| as real) - Mul(CalculateMean(data), CalculateMean(data))
  {
    SquaredDeviationsExpand(data, CalculateMean(data));
    MomentAlgebra(|data| as real, Sum(data), Sum(Squares(data)),
                  SquaredDeviations(data, CalculateMean(data)), CalculateMean(data));
  }

  lemma MomentAlgebra(n: real, t: real, ss: real, d: real, m: real)
    requires n > 0.0 && m == Div(t, n) && d == Expanded(ss, t, n, m)
    ensures Div(d, n) == Div(ss, n) - Mul(m, m)
  {
    assert m * n == t;
    assert d == ss - 2.0 * m * (m * n) + n * m * m;
    assert d == ss - n * (m * m);
  }
}
