/** BoxPlot.cs without the console: the outlier filter of
    PrintRangeDiscardOutliers, the segment arithmetic and the line string of
    PrintBoxPlot, the clamp DefaultSubtraction, and the label padding rule.
    The plot width, a mutable static field in the source, is a parameter. */
module BoxPlot {
  import opened Outcomes
  import opened MathUtilities
  import opened Samples
  import opened Ordering
  import opened CentralMeasurements
  import opened Text

  // ----- the outlier filter -----

  /** What PrintRangeDiscardOutliers computes before it prints. */
  datatype Limits = Limits(q1: real, q2: real, q3: real, iqr: real,
                           lower: real, upper: real,
                           retained: seq<real>, min: real, max: real, range: real)

  /** The quartiles, the acceptable limits Q1 - 1.5 IQR and Q3 + 1.5 IQR, the
      sorted values inside them, their extremes and the plotted range. The
      quartiles fail on an empty sample; for any other sample some value lies
      between Q1 and Q3, so the retained values are never empty and `Min()`
      cannot throw. */
  function DiscardOutliers(data: seq<real>): (r: Result<Limits>)
    ensures r.Err? <==> |data| == 0
    ensures r.Err? ==> r.error == IndexOutOfRange
    ensures r.Ok? ==> forall v :: v in r.value.retained <==> v in data && r.value.lower <= v <= r.value.upper
    ensures r.Ok? ==> multiset(r.value.retained) == multiset(Within(data, r.value.lower, r.value.upper))
    ensures r.Ok? ==> Ascending(r.value.retained)
    ensures r.Ok? ==> |r.value.retained| > 0
    ensures r.Ok? ==> r.value.min == r.value.retained[0] && r.value.max == r.value.retained[|r.value.retained| - 1]
    ensures r.Ok? ==> r.value.range == 4.0 * r.value.iqr && r.value.iqr >= 0.0
    ensures r.Ok? ==> r.value.lower <= r.value.q1 <= r.value.q2 <= r.value.q3 <= r.value.upper
    ensures r.Ok? ==> r.value.iqr == r.value.q3 - r.value.q1
    ensures r.Ok? ==> r.value.lower == r.value.q1 - 1.5 * r.value.iqr && r.value.upper == r.value.q3 + 1.5 * r.value.iqr
    ensures r.Ok? ==> r.value.min <= r.value.q1 && r.value.q3 <= r.value.max
  {
    if |data| == 0 then Err(IndexOutOfRange)
    else
      var q1 := FindFirstQuartile(data).value;
      var q2 := FindSecondQuartile(data).value;
      var q3 := FindThirdQuartile(data).value;
      var iqr := CalculateInterQuartileRange(data).value;
      var lower := q1 - 1.5 * iqr;
      var upper := q3 + 1.5 * iqr;
      var arr := SortAscending(Within(data, lower, upper));
      QuartilesOrdered(data);
      RetainedNotEmpty(data, lower, upper);
      RetainedMembers(data, lower, upper);
      SortedEnds(arr);
      LandmarksRetained(data, lower, upper);
      Ok(Limits(q1, q2, q3, iqr, lower, upper, arr, MinOf(arr), MaxOf(arr), upper - lower))
  }

  /** A value inside the limits is retained. */
  lemma RetainedMembers(data: seq<real>, lower: real, upper: real)
    ensures forall v :: v in SortAscending(Within(data, lower, upper)) <==> v in data && lower <= v <= upper
  {
    var w := Within(data, lower, upper);
    SortedMembers(w);
    forall v ensures v in w <==> v in data && lower <= v <= upper {
      assert v in w <==> multiset(w)[v] > 0;
      assert v in data <==> multiset(data)[v] > 0;
    }
  }

  /** Some value of a non-empty sample lies between Q1 and Q3, hence inside
      the limits. */
  lemma RetainedNotEmpty(data: seq<real>, lower: real, upper: real)
    requires |data| > 0
    requires lower <= FindFirstQuartile(data).value && FindThirdQuartile(data).value <= upper
    ensures |SortAscending(Within(data, lower, upper))| > 0
  {
    var v := QuartileWitness(data);
    assert multiset(Within(data, lower, upper))[v] == multiset(data)[v];
    assert v in multiset(data);
    assert |Within(data, lower, upper)| > 0;
  }

  /** A value of the sample lying between Q1 and Q3: the upper neighbour of
      Q1's rank, which is not past the lower neighbour of Q3's rank. */
  lemma QuartileWitness(data: seq<real>) returns (v: real)
    requires |data| > 0
    ensures v in data && FindFirstQuartile(data).value <= v <= FindThirdQuartile(data).value
  {
    var sorted := SortAscending(data);
    var n := |data|;
    var lk1, lk3 := Location(25.0, n), Location(75.0, n);
    assert lk1 < lk3;
    assert FindFirstQuartile(data) == RankValue(sorted, lk1);
    assert FindThirdQuartile(data) == RankValue(sorted, lk3);
    RankBetween(sorted, lk1);
    RankBetween(sorted, lk3);
    CeilingOfWhole(lk1);
    CeilingOfWhole(lk3);
    var hi1 := if IsInt(lk1) then Ceiling(lk1) else Ceiling(lk1) - 1;
    assert hi1 <= Ceiling(lk3) - 1;
    v := sorted[hi1];
    assert sorted[hi1] <= sorted[Ceiling(lk3) - 1];
    SortedMembers(data);
  }

  /** The retained values reach down to Q1 and up to Q3. */
  lemma LandmarksRetained(data: seq<real>, lower: real, upper: real)
    requires |data| > 0
    requires var q1, q3 := FindFirstQuartile(data).value, FindThirdQuartile(data).value;
      lower == q1 - 1.5 * (q3 - q1) && upper == q3 + 1.5 * (q3 - q1)
    ensures exists v :: v in SortAscending(Within(data, lower, upper)) && v <= FindFirstQuartile(data).value
    ensures exists v :: v in SortAscending(Within(data, lower, upper)) && FindThirdQuartile(data).value <= v
  {
    QuartilesOrdered(data);
    RetainedMembers(data, lower, upper);
    var lo := LowWitness(data);
    var hi := HighWitness(data);
    assert lo in SortAscending(Within(data, lower, upper));
    assert hi in SortAscending(Within(data, lower, upper));
  }

  /** A value of the sample at or below Q1 that the lower limit keeps. */
  lemma LowWitness(data: seq<real>) returns (v: real)
    requires |data| > 0
    ensures var q1, q3 := FindFirstQuartile(data).value, FindThirdQuartile(data).value;
      v in data && q1 - 1.5 * (q3 - q1) <= v <= q1
  {
    var sorted := SortAscending(data);
    var n := |data|;
    assert FindFirstQuartile(data) == RankValue(sorted, Location(25.0, n));
    assert FindThirdQuartile(data) == RankValue(sorted, Location(75.0, n));
    v := LowerRankWitness(sorted, Location(25.0, n), Location(75.0, n));
    SortedMembers(data);
  }

  /** A value of the sample at or above Q3 that the upper limit keeps. */
  lemma HighWitness(data: seq<real>) returns (v: real)
    requires |data| > 0
    ensures var q1, q3 := FindFirstQuartile(data).value, FindThirdQuartile(data).value;
      v in data && q3 <= v <= q3 + 1.5 * (q3 - q1)
  {
    var sorted := SortAscending(data);
    var n := |data|;
    assert FindFirstQuartile(data) == RankValue(sorted, Location(25.0, n));
    assert FindThirdQuartile(data) == RankValue(sorted, Location(75.0, n));
    v := UpperRankWitness(sorted, Location(25.0, n), Location(75.0, n));
    SortedMembers(data);
  }

  /** For ranks lk1 < lk3 with values q1 and q3, the element at
      ceiling(lk1) - 1 is at most q1 and at least q1 - 1.5 (q3 - q1): when
      lk1 is whole, q1 is the mean of that element and the next, and the next
      is at most q3. */
  lemma LowerRankWitness(sorted: seq<real>, lk1: real, lk3: real) returns (v: real)
    requires Ascending(sorted) && lk1 < lk3
    requires RankValue(sorted, lk1).Ok? && RankValue(sorted, lk3).Ok?
    ensures var q1, q3 := RankValue(sorted, lk1).value, RankValue(sorted, lk3).value;
      v in sorted && q1 - 1.5 * (q3 - q1) <= v <= q1
  {
    var q1, q3 := RankValue(sorted, lk1).value, RankValue(sorted, lk3).value;
    RankMonotone(sorted, lk1, lk3);
    RankBetween(sorted, lk1);
    RankBetween(sorted, lk3);
    CeilingOfWhole(lk1);
    CeilingOfWhole(lk3);
    var c1, c3 := Ceiling(lk1), Ceiling(lk3);
    v := sorted[c1 - 1];
    if IsInt(lk1) {
      assert c1 <= c3 - 1;
      assert sorted[c1] <= sorted[c3 - 1];
      assert q1 == (v + sorted[c1]) / 2.0;
      BelowMidpoint(v, sorted[c1], q1, q3);
    }
  }

  /** For ranks lk1 < lk3 with values q1 and q3, an element at least q3 and at
      most q3 + 1.5 (q3 - q1): q3 itself when lk3 is not whole, otherwise the
      element at lk3, since q3 is its mean with an element at least q1. */
  lemma UpperRankWitness(sorted: seq<real>, lk1: real, lk3: real) returns (v: real)
    requires Ascending(sorted) && lk1 < lk3
    requires RankValue(sorted, lk1).Ok? && RankValue(sorted, lk3).Ok?
    ensures var q1, q3 := RankValue(sorted, lk1).value, RankValue(sorted, lk3).value;
      v in sorted && q3 <= v <= q3 + 1.5 * (q3 - q1)
  {
    var q1, q3 := RankValue(sorted, lk1).value, RankValue(sorted, lk3).value;
    RankMonotone(sorted, lk1, lk3);
    RankBetween(sorted, lk1);
    RankBetween(sorted, lk3);
    CeilingOfWhole(lk1);
    CeilingOfWhole(lk3);
    var c1, c3 := Ceiling(lk1), Ceiling(lk3);
    if IsInt(lk3) {
      v := sorted[c3];
      var hi1 := if IsInt(lk1) then c1 else c1 - 1;
      assert hi1 <= c3 - 1;
      assert q1 <= sorted[hi1] <= sorted[c3 - 1];
      assert q3 == (sorted[c3 - 1] + v) / 2.0;
      AboveMidpoint(sorted[c3 - 1], v, q1, q3);
    } else {
      v := sorted[c3 - 1];
    }
  }

  /** The lower of two values averaging q1, the upper one being at most q3,
      lies within 1.5 (q3 - q1) of q1. */
  lemma BelowMidpoint(a: real, b: real, q1: real, q3: real)
    requires q1 == (a + b) / 2.0 && b <= q3 && q1 <= q3
    ensures q1 - 1.5 * (q3 - q1) <= a
  {
  }

  /** The upper of two values averaging q3, the lower one being at least q1,
      lies within 1.5 (q3 - q1) of q3. */
  lemma AboveMidpoint(a: real, b: real, q1: real, q3: real)
    requires q3 == (a + b) / 2.0 && q1 <= a && q1 <= q3
    ensures b <= q3 + 1.5 * (q3 - q1)
  {
  }

  // ----- the segments of the plot -----

  /** The six widths PrintBoxPlot draws, in plot order. */
  datatype Segments = Segments(startLength: int, innerStartRange: int, q1Length: int,
                               q2Length: int, innerEndRange: int, endLength: int)

  /** The width x is within one half of the exact share e. */
  predicate Near(x: int, e: real)
  {
    Abs(x as real - e) <= 0.5
  }

  /** One segment: the share (b - a) / outerRange of the plot width, rounded
      half to even by Math.Round. */
  function ScaledLength(a: real, b: real, outerRange: real, boxWidth: int): (r: int)
    requires outerRange != 0.0
    ensures Near(r, Mul(Div(b - a, outerRange), boxWidth as real))
  {
    RoundHalfEven((b - a) / outerRange * (boxWidth as real))
  }

  /** The segment arithmetic of PrintBoxPlot for the landmarks lower, min, Q1,
      Q2, Q3, max, upper. The source rounds the second width twice; a whole
      number rounds to itself, so once is the same. The fifth is rounded once
      by `Math.Round(x)`, which also rounds half to even. Each width is within
      one half of its exact share of the plot width. A zero outer range
      divides by zero and is excluded. */
  function PlotSegments(lowerLimit: real, upperLimit: real, min: real, max: real,
                        q1: real, q2: real, q3: real, boxWidth: int): (s: Segments)
    requires upperLimit != lowerLimit
    ensures var r := upperLimit - lowerLimit;
      var w := boxWidth as real;
      Near(s.startLength, Mul(Div(min - lowerLimit, r), w)) &&
      Near(s.innerStartRange, Mul(Div(q1 - min, r), w)) &&
      Near(s.q1Length, Mul(Div(q2 - q1, r), w)) &&
      Near(s.q2Length, Mul(Div(q3 - q2, r), w)) &&
      Near(s.innerEndRange, Mul(Div(max - q3, r), w)) &&
      Near(s.endLength, Mul(Div(upperLimit - max, r), w))
  {
    var outerRange := upperLimit - lowerLimit;
    Segments(ScaledLength(lowerLimit, min, outerRange, boxWidth),
             ScaledLength(min, q1, outerRange, boxWidth),
             ScaledLength(q1, q2, outerRange, boxWidth),
             ScaledLength(q2, q3, outerRange, boxWidth),
             ScaledLength(q3, max, outerRange, boxWidth),
             ScaledLength(max, upperLimit, outerRange, boxWidth))
  }

  /** `Math.Round` of a whole number is that number. */
  lemma RoundWhole(k: int)
    ensures RoundHalfEven(k as real) == k
  {
  }

  predicate NonNegative(s: Segments)
  {
    s.startLength >= 0 && s.innerStartRange >= 0 && s.q1Length >= 0 &&
    s.q2Length >= 0 && s.innerEndRange >= 0 && s.endLength >= 0
  }

  function Total(s: Segments): int
  {
    s.startLength + s.innerStartRange + s.q1Length + s.q2Length + s.innerEndRange + s.endLength
  }

  /** The six widths add up to the plot width up to the six roundings. */
  lemma SegmentsTotal(lowerLimit: real, upperLimit: real, min: real, max: real,
                      q1: real, q2: real, q3: real, boxWidth: int)
    requires upperLimit != lowerLimit
    ensures Abs(Total(PlotSegments(lowerLimit, upperLimit, min, max, q1, q2, q3, boxWidth)) as real - boxWidth as real) <= 3.0
  {
    var s := PlotSegments(lowerLimit, upperLimit, min, max, q1, q2, q3, boxWidth);
    var r := upperLimit - lowerLimit;
    var w := boxWidth as real;
    SharesAddUp(min - lowerLimit, q1 - min, q2 - q1, q3 - q2, max - q3, upperLimit - max, r, w);
    NearTotal(s, Mul(Div(min - lowerLimit, r), w), Mul(Div(q1 - min, r), w), Mul(Div(q2 - q1, r), w),
              Mul(Div(q3 - q2, r), w), Mul(Div(max - q3, r), w), Mul(Div(upperLimit - max, r), w), w);
  }

  /** Six widths, each within one half of its share, the shares adding up to
      w, add up to w within 3. */
  lemma NearTotal(s: Segments, e1: real, e2: real, e3: real, e4: real, e5: real, e6: real, w: real)
    requires Near(s.startLength, e1) && Near(s.innerStartRange, e2)
    requires Near(s.q1Length, e3) && Near(s.q2Length, e4)
    requires Near(s.innerEndRange, e5) && Near(s.endLength, e6)
    requires e1 + e2 + e3 + e4 + e5 + e6 == w
    ensures Abs(Total(s) as real - w) <= 3.0
  {
  }

  lemma SharesAddUp(d1: real, d2: real, d3: real, d4: real, d5: real, d6: real, r: real, w: real)
    requires r != 0.0 && d1 + d2 + d3 + d4 + d5 + d6 == r
    ensures Mul(Div(d1, r), w) + Mul(Div(d2, r), w) + Mul(Div(d3, r), w)
          + Mul(Div(d4, r), w) + Mul(Div(d5, r), w) + Mul(Div(d6, r), w) == w
  {
    assert d1 / r + d2 / r + d3 / r + d4 / r + d5 / r + d6 / r == r / r;
    assert (d1 / r) * w + (d2 / r) * w + (d3 / r) * w + (d4 / r) * w + (d5 / r) * w + (d6 / r) * w
        == (d1 / r + d2 / r + d3 / r + d4 / r + d5 / r + d6 / r) * w;
  }

  /** Landmarks in order give segments that are never negative. */
  lemma SegmentsNonNegative(lowerLimit: real, upperLimit: real, min: real, max: real,
                            q1: real, q2: real, q3: real, boxWidth: int)
    requires lowerLimit <= min <= q1 <= q2 <= q3 <= max <= upperLimit && lowerLimit < upperLimit
    requires boxWidth >= 0
    ensures var s := PlotSegments(lowerLimit, upperLimit, min, max, q1, q2, q3, boxWidth);
      s.startLength >= 0 && s.innerStartRange >= 0 && s.q1Length >= 0 &&
      s.q2Length >= 0 && s.innerEndRange >= 0 && s.endLength >= 0
  {
    var r := upperLimit - lowerLimit;
    ShareNonNegative(min - lowerLimit, r, boxWidth as real);
    ShareNonNegative(q1 - min, r, boxWidth as real);
    ShareNonNegative(q2 - q1, r, boxWidth as real);
    ShareNonNegative(q3 - q2, r, boxWidth as real);
    ShareNonNegative(max - q3, r, boxWidth as real);
    ShareNonNegative(upperLimit - max, r, boxWidth as real);
  }

  /** The plot PrintRangeDiscardOutliers draws: for a sample with a positive
      IQR, the landmarks it passes are in order, so every width is
      non-negative and the line is built without failing. */
  lemma DiscardedPlotDraws(data: seq<real>, boxWidth: int)
    requires |data| > 0 && DiscardOutliers(data).value.iqr > 0.0 && boxWidth >= 0
    ensures var l := DiscardOutliers(data).value;
      BoxPlotLine(PlotSegments(l.lower, l.upper, l.min, l.max, l.q1, l.q2, l.q3, boxWidth)).Ok?
  {
    var l := DiscardOutliers(data).value;
    assert l.min in l.retained && l.max in l.retained;
    SegmentsNonNegative(l.lower, l.upper, l.min, l.max, l.q1, l.q2, l.q3, boxWidth);
  }

  lemma ShareNonNegative(d: real, r: real, w: real)
    requires d >= 0.0 && r > 0.0 && w >= 0.0
    ensures Mul(Div(d, r), w) >= 0.0
  {
    assert Div(d, r) >= 0.0;
  }

  // ----- the line -----

  /** DefaultSubtraction: `num - subtrahend`, truncated, or 1 when that is
      negative. Note the jump: equal arguments give 0, not 1. */
  function DefaultSubtraction(num: real, subtrahend: real): (r: int)
    ensures r >= 0
    ensures num - subtrahend < 0.0 ==> r == 1
    ensures num - subtrahend >= 0.0 ==> r as real <= num - subtrahend < r as real + 1.0
  {
    if num - subtrahend < 0.0 then 1 else Truncate(num - subtrahend)
  }

  /** On whole numbers, DefaultSubtraction is the difference clamped to 1 from
      below, except that equal arguments give 0. */
  lemma DefaultSubtractionWhole(n: int, s: int)
    ensures DefaultSubtraction(n as real, s as real) == if n < s then 1 else n - s
    ensures DefaultSubtraction(n as real, n as real) == 0
  {
    TruncateWhole(n - s);
  }

  const FullBlock: char := '█'

  /** The line PrintBoxPlot builds: five spaces, then the gutter, whisker, box,
      box, whisker and gutter runs between five bars, and a newline. Only the
      second box run is not clamped, so a negative Q2 width throws. */
  function BoxPlotLine(s: Segments): (r: Result<string>)
    ensures r.Err? <==> s.q2Length < 0
    ensures r.Err? ==> r.error == ArgumentOutOfRange
    ensures r.Ok? ==> |r.value| == OutputLength(s)
    ensures r.Ok? ==> r.value[..5] == Repeat(' ', 5) && r.value[|r.value| - 1] == '\n'
  {
    if s.q2Length < 0 then Err(ArgumentOutOfRange)
    else
      Ok(Line(DefaultSubtraction(s.startLength as real, 2.0), DefaultSubtraction(s.innerStartRange as real, 1.0),
              DefaultSubtraction(s.q1Length as real, 1.0), s.q2Length,
              DefaultSubtraction(s.innerEndRange as real, 1.0), DefaultSubtraction(s.endLength as real, 1.0)))
  }

  /** The characters of the line for the six run lengths. */
  function Line(gutter: nat, whisker: nat, box: nat, box2: nat, whisker2: nat, gutter2: nat): (r: string)
    ensures |r| == 11 + gutter + whisker + box + box2 + whisker2 + gutter2
    ensures r[..5] == Repeat(' ', 5) && r[|r| - 1] == '\n'
  {
    var l := Repeat(' ', 5) + "|" + Repeat(' ', gutter) + "|"
             + Repeat('-', whisker) + Repeat(FullBlock, box) + "|"
             + Repeat(FullBlock, box2) + Repeat('-', whisker2) + "|"
             + Repeat(' ', gutter2) + "|\n";
    assert l[..5] == Repeat(' ', 5);
    l
  }

  /** `outputLength`: five spaces, five bars, a newline and the six runs.
      The clamps take off at most 2 + 1 + 1 + 1 + 1 from the widths, and on
      non-negative widths add at most one to each clamped run. */
  function OutputLength(s: Segments): (n: int)
    ensures Total(s) + 5 <= n
    ensures NonNegative(s) ==> n <= Total(s) + 16
  {
    DefaultSubtractionWhole(s.startLength, 2);
    DefaultSubtractionWhole(s.innerStartRange, 1);
    DefaultSubtractionWhole(s.q1Length, 1);
    DefaultSubtractionWhole(s.innerEndRange, 1);
    DefaultSubtractionWhole(s.endLength, 1);
    11 + DefaultSubtraction(s.startLength as real, 2.0) + DefaultSubtraction(s.innerStartRange as real, 1.0)
       + DefaultSubtraction(s.q1Length as real, 1.0) + s.q2Length
       + DefaultSubtraction(s.innerEndRange as real, 1.0) + DefaultSubtraction(s.endLength as real, 1.0)
  }

  /** The line holds exactly five bars, and its box and whisker characters
      number the box and whisker widths. */
  lemma BoxPlotLineShape(s: Segments)
    requires s.q2Length >= 0
    ensures var line := BoxPlotLine(s).value;
      Occurrences(line, '|') == 5 &&
      Occurrences(line, FullBlock) == DefaultSubtraction(s.q1Length as real, 1.0) + s.q2Length &&
      Occurrences(line, '-') == DefaultSubtraction(s.innerStartRange as real, 1.0)
                                + DefaultSubtraction(s.innerEndRange as real, 1.0)
  {
    LineCounts(DefaultSubtraction(s.startLength as real, 2.0), DefaultSubtraction(s.innerStartRange as real, 1.0),
               DefaultSubtraction(s.q1Length as real, 1.0), s.q2Length,
               DefaultSubtraction(s.innerEndRange as real, 1.0), DefaultSubtraction(s.endLength as real, 1.0));
  }

  /** The bars, blocks and dashes of a line, counted run by run. */
  lemma LineCounts(a: nat, b: nat, c: nat, q: nat, e: nat, f: nat)
    ensures Occurrences(Line(a, b, c, q, e, f), '|') == 5
    ensures Occurrences(Line(a, b, c, q, e, f), FullBlock) == c + q
    ensures Occurrences(Line(a, b, c, q, e, f), '-') == b + e
  {
    var bar, end := "|", "|\n";
    LiteralCounts();
    var l := Repeat(' ', 5);
    RepeatCounts(' ', 5);
    l := Append(l, bar);
    l := Append(l, Repeat(' ', a));
    RepeatCounts(' ', a);
    l := Append(l, bar);
    l := Append(l, Repeat('-', b));
    RepeatCounts('-', b);
    l := Append(l, Repeat(FullBlock, c));
    RepeatCounts(FullBlock, c);
    l := Append(l, bar);
    l := Append(l, Repeat(FullBlock, q));
    RepeatCounts(FullBlock, q);
    l := Append(l, Repeat('-', e));
    RepeatCounts('-', e);
    l := Append(l, bar);
    l := Append(l, Repeat(' ', f));
    RepeatCounts(' ', f);
    l := Append(l, end);
    assert l == Line(a, b, c, q, e, f);
  }

  /** Appending one part of the line: the three counted characters add up. */
  lemma Append(x: string, y: string) returns (z: string)
    ensures z == x + y
    ensures Occurrences(z, '|') == Occurrences(x, '|') + Occurrences(y, '|')
    ensures Occurrences(z, FullBlock) == Occurrences(x, FullBlock) + Occurrences(y, FullBlock)
    ensures Occurrences(z, '-') == Occurrences(x, '-') + Occurrences(y, '-')
  {
    z := x + y;
    OccurrencesAppend(x, y, '|');
    OccurrencesAppend(x, y, FullBlock);
    OccurrencesAppend(x, y, '-');
  }

  /** The counted characters in the two literal parts of the line. */
  lemma LiteralCounts()
    ensures Occurrences("|", '|') == 1 && Occurrences("|", FullBlock) == 0 && Occurrences("|", '-') == 0
    ensures Occurrences("|\n", '|') == 1 && Occurrences("|\n", FullBlock) == 0 && Occurrences("|\n", '-') == 0
  {
    assert "|"[..0] == "";
    assert "|\n"[..1] == "|";
  }

  lemma RepeatCounts(x: char, n: nat)
    ensures Occurrences(Repeat(x, n), '|') == (if x == '|' then n else 0)
    ensures Occurrences(Repeat(x, n), FullBlock) == (if x == FullBlock then n else 0)
    ensures Occurrences(Repeat(x, n), '-') == (if x == '-' then n else 0)
  {
    OccurrencesRepeat(x, n, '|');
    OccurrencesRepeat(x, n, FullBlock);
    OccurrencesRepeat(x, n, '-');
  }

  // ----- centring a label -----

  /** h is d / 2 truncated toward zero. */
  predicate HalvedTowardZero(d: int, h: int)
  {
    if d >= 0 then 0 <= d - 2 * h <= 1 else 0 <= 2 * h - d <= 1
  }

  /** h is d / 2 rounded up. */
  predicate HalvedUp(d: int, h: int)
  {
    0 <= 2 * h - d <= 1
  }

  /** CalculateSpaceLeft: half the spare room T - L. For an even-length label
      the half is truncated (`(int)RoundDown(x, 0)`); for an odd one C#'s
      integer division truncates toward zero. Either way it is the spare
      room halved toward zero. */
  function CalculateSpaceLeft(str: string, totalSpace: int): (h: int)
    ensures HalvedTowardZero(totalSpace - |str|, h)
  {
    if |str| % 2 == 0 then Truncate((totalSpace - |str|) as real / 2.0)
    else TruncatedDiv(totalSpace - |str|, 2)
  }

  /** CalculateSpaceRight: the same, but the half for an even-length label is
      rounded up (`(int)RoundUp(x, 0)`). */
  function CalculateSpaceRight(str: string, totalSpace: int): (h: int)
    ensures |str| % 2 == 0 ==> HalvedUp(totalSpace - |str|, h)
    ensures |str| % 2 == 1 ==> HalvedTowardZero(totalSpace - |str|, h)
  {
    if |str| % 2 == 0 then Ceiling((totalSpace - |str|) as real / 2.0)
    else TruncatedDiv(totalSpace - |str|, 2)
  }

  /** The source's `(int)RoundDown(x, 0)` and `(int)RoundUp(x, 0)` are
      Truncate(x) and Ceiling(x). */
  lemma WholeRoundingCasts(x: real)
    ensures RoundDown(x, 0).Ok? && Truncate(RoundDown(x, 0).value) == Truncate(x)
    ensures RoundUp(x, 0).Ok? && Truncate(RoundUp(x, 0).value) == Ceiling(x)
  {
    WholeRounding(x);
    TruncateWhole(Truncate(x));
    TruncateWhole(Ceiling(x));
  }

  /** A label that fits is centred: the right pad is the left one or one more,
      and the pads fill the field, except that an odd label in an even field
      leaves one column unused. */
  lemma PaddingCentres(str: string, totalSpace: int)
    requires |str| <= totalSpace
    ensures 0 <= CalculateSpaceLeft(str, totalSpace)
    ensures 0 <= CalculateSpaceRight(str, totalSpace) - CalculateSpaceLeft(str, totalSpace) <= 1
    ensures CalculateSpaceLeft(str, totalSpace) + |str| + CalculateSpaceRight(str, totalSpace)
            == totalSpace - (if |str| % 2 == 1 && totalSpace % 2 == 0 then 1 else 0)
  {
    var d := totalSpace - |str|;
    if |str| % 2 == 0 {
      HalfOf(d);
    }
  }

  /** Truncating and rounding up d / 2 for d >= 0. */
  lemma HalfOf(d: int)
    requires d >= 0
    ensures Truncate(d as real / 2.0) == d / 2
    ensures Ceiling(d as real / 2.0) == d - d / 2
  {
    CeilingUnique(d as real / 2.0, d - d / 2);
  }

  /** WhiteSpaceLeft: `new string(' ', CalculateSpaceLeft(str, totalSpace))`. */
  function WhiteSpaceLeft(str: string, totalSpace: int): (r: Result<string>)
    ensures r.Ok? <==> |str| <= totalSpace + 1
    ensures r.Ok? ==> r.value == Repeat(' ', CalculateSpaceLeft(str, totalSpace))
  {
    PadSign(str, totalSpace);
    NewString(' ', CalculateSpaceLeft(str, totalSpace))
  }

  /** WhiteSpaceRight: `new string(' ', CalculateSpaceRight(str, totalSpace))`. */
  function WhiteSpaceRight(str: string, totalSpace: int): (r: Result<string>)
    ensures r.Ok? <==> |str| <= totalSpace + 1
    ensures r.Ok? ==> r.value == Repeat(' ', CalculateSpaceRight(str, totalSpace))
  {
    PadSign(str, totalSpace);
    NewString(' ', CalculateSpaceRight(str, totalSpace))
  }

  /** Both pads are negative, and `new string` throws, exactly when the label
      is at least two longer than the field. */
  lemma PadSign(str: string, totalSpace: int)
    ensures CalculateSpaceLeft(str, totalSpace) >= 0 <==> |str| <= totalSpace + 1
    ensures CalculateSpaceRight(str, totalSpace) >= 0 <==> |str| <= totalSpace + 1
  {
    var d := totalSpace - |str|;
    if |str| % 2 == 0 {
      if d >= 0 {
        HalfOf(d);
      } else {
        CeilingUnique(d as real / 2.0, -((-d) / 2));
      }
    }
  }
}
