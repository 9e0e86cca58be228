# StatisticsLibrary, modelled in Dafny

This project models the computational core of StatisticsLibrary, a small C#
library for descriptive statistics. The model covers:

- **MathUtilities**: rounding toward zero (`RoundDown`) and upward
  (`RoundUp`) at a number of decimal places, rounding half away from zero
  (`Round`), decimal shifting, and the whole-number test.
- **CentralMeasurements**: the mean and the weighted mean, the median, the
  mode with its "no mode" failure, the range, and the sample and population
  variance. It also covers the rank rule behind `FindPercentile` and the three
  quartile functions, and the interquartile range.
- **BoxPlot**: the outlier filter of `PrintRangeDiscardOutliers`, the six
  segment widths and the text line of `PrintBoxPlot`, the clamp
  `DefaultSubtraction`, and the centring rule for labels.
- **FrequencyTable**: the group count `k` (both overloads), the group width,
  the group edges, and the table of frequencies, cumulative frequencies,
  midpoints, f·x and f·x². It also covers the grouped mean, mode, median and
  variance (the radicand of the grouped standard deviation) and the
  fixed-width row formatter.
- **LinearRegression**: the column dictionary built by
  `CreateRegressionDataSet`, and the least-squares coefficients `b` and `a`.

`double` is modelled as `real`. Exceptions become an `Err` value. Its kind is
named after the .NET exception that is thrown:

- `IndexOutOfRange`: an array index.
- `ArgumentOutOfRange`: a `List` index, `new string(c, n)` with a negative
  `n`, or `Substring`.
- `InvalidOperation`: `Min`, `Max`, `Last` or `First` on an empty sequence.
- `InvalidArgument`: an `ArgumentException`, including a duplicate dictionary
  key.
- `NoMode`: the library's own "no mode" exception.

`Math.Round(x)` rounds half to even (`MathUtilities.RoundHalfEven`).
`MidpointRounding.AwayFromZero` rounds half away from zero
(`MathUtilities.AwayFromZero`). C#'s integer `/` truncates toward zero
(`MathUtilities.TruncatedDiv`). `OrderBy` and `OrderByDescending` are
insertion sorts (module `Ordering`). Products and quotients that appear in
lemma statements go through `Samples.Mul` and `Samples.Div`, which are plain
`*` and `/`.

Imperative code keeps its form:

- `CalculateWeightedMean`, both `CreateGroups` overloads, `CreateTableData`,
  `PrintDataRow` and `CreateRegressionDataSet` are methods with loops.
- Each loop is proved against a specification function or predicate
  (`WeightedAverage`, `IsTable`, `DataRow`, the column equations).

Everything else is functions and lemmas.

Three behaviours of the code are worth stating up front:

- `FindPercentile` fails at percentile 0 and at percentile 100. The location
  is then `lk = 0` or `lk = n`, which is whole, and the code reads index -1
  or index n. `CentralMeasurements.FindPercentile` therefore succeeds exactly
  when `0 < percentile < 100`.
- `RoundDown` truncates toward zero, so for a negative `x` the result lies at
  or above `x`. `MathUtilities.RoundDown` states exactly that.
- `GroupMedian` takes the first group's own cumulative frequency as cfp when
  the median group is the first group; see "## Findings".

## Model

| member | source | states |
|---|---|---|
| MathUtilities.RoundDown | StatisticsLibrary/MathUtilities.cs:12-27 | Fails with InvalidArgument exactly when decimalPlaces is negative. Otherwise the result is a multiple of 10^-p, no farther from zero than num and less than one step of 10^-p closer to zero; it lies between 0 and num (truncation toward zero, so a negative num is rounded up). |
| MathUtilities.RoundUp | StatisticsLibrary/MathUtilities.cs:30-45 | Fails with InvalidArgument exactly when decimalPlaces is negative. Otherwise the result is the multiple of 10^-p with num <= r < num + 10^-p, i.e. the least such multiple not below num. |
| MathUtilities.WholeRounding | StatisticsLibrary/MathUtilities.cs:12-45 | With 0 decimal places RoundDown is truncation toward zero and RoundUp is the ceiling. |
| MathUtilities.RoundUpIdempotent | StatisticsLibrary/MathUtilities.cs:30-45 | Rounding up a value already rounded up at the same precision changes nothing. |
| MathUtilities.RoundDownIdempotent | StatisticsLibrary/MathUtilities.cs:12-27 | Rounding down a value already rounded down at the same precision changes nothing. |
| MathUtilities.Round | StatisticsLibrary/MathUtilities.cs:47-51 | The result is a multiple of 10^-p within half a step of num. It is exactly half a step away only when it is farther from zero than num, so midpoints round away from zero. |
| MathUtilities.RoundExamples | StatisticsLibrary/MathUtilities.cs:47-51 | Round(2.5, 0) = 3, Round(-2.5, 0) = -3, Round(2.4, 0) = 2, and over exact reals Round(1.005, 2) = 1.01. |
| MathUtilities.ShiftDecimalPlaces | StatisticsLibrary/MathUtilities.cs:53-57 | The result times 10^p is num again, so the shift undoes scaling by 10^p, for negative p too. |
| MathUtilities.UnitAtPrecision | StatisticsLibrary/MathUtilities.cs:30-57 | Adding one unit ShiftDecimalPlaces(1, p) before RoundUp at p adds exactly that unit to the result. |
| MathUtilities.IsIntRemainder | StatisticsLibrary/MathUtilities.cs:59 | IsInt(num) holds exactly when num minus its truncation toward zero (num % 1 in C#) is 0. |
| MathUtilities.RoundHalfEven | StatisticsLibrary/BoxPlot.cs:53-60 | Math.Round: the nearest integer, and on a tie the even one. |
| MathUtilities.TruncatedDiv | StatisticsLibrary/BoxPlot.cs:104 | C# integer division by a positive divisor: the quotient truncated toward zero, for either sign of the dividend. |
| Ordering.SortAscending | StatisticsLibrary/CentralMeasurements.cs:23 | OrderBy(x => x): the result is in ascending order and a permutation of the input. |
| Ordering.SortAscendingSorted | StatisticsLibrary/CentralMeasurements.cs:73 | A sample already in ascending order is its own sorted copy. |
| Ordering.SortDescendingBy | StatisticsLibrary/CentralMeasurements.cs:30 | OrderByDescending(key): the result is ordered by non-increasing key and is a permutation of the input. |
| Ordering.TopOfDescending | StatisticsLibrary/CentralMeasurements.cs:31 | After sorting by descending key, the first two keys differ exactly when one element has the unique largest key, and that element is then first. |
| CentralMeasurements.CalculateMean | StatisticsLibrary/CentralMeasurements.cs:12 | The mean of a non-empty sample lies between its minimum and maximum. |
| CentralMeasurements.MeanOfConstant | StatisticsLibrary/CentralMeasurements.cs:12 | The mean of a sample whose values are all v is v. |
| CentralMeasurements.CalculateWeightedMean | StatisticsLibrary/CentralMeasurements.cs:13-19 | Fails with IndexOutOfRange exactly when there are fewer weights than values. Otherwise the loop yields Σ x[i]·w[i] over the sum of all the weights. |
| CentralMeasurements.EqualWeights | StatisticsLibrary/CentralMeasurements.cs:13-19 | With equal non-zero weights the weighted mean is the plain mean. |
| CentralMeasurements.WeightedBounds | StatisticsLibrary/CentralMeasurements.cs:13-19 | With non-negative weights of positive total, the weighted mean lies between the minimum and the maximum value. |
| CentralMeasurements.SortedExtremes | StatisticsLibrary/CentralMeasurements.cs:73 | The sorted copy starts with the sample's minimum and ends with its maximum. |
| CentralMeasurements.RankValue | StatisticsLibrary/CentralMeasurements.cs:74-75 | The rank rule succeeds exactly when 0 < lk < n; otherwise it fails with IndexOutOfRange. |
| CentralMeasurements.RankBetween | StatisticsLibrary/CentralMeasurements.cs:74-75 | On sorted data, a location that is not whole picks element ceiling(lk) - 1. A whole location gives a value between elements lk - 1 and lk. |
| CentralMeasurements.RankMonotone | StatisticsLibrary/CentralMeasurements.cs:101-102 | On sorted data a later location never picks a smaller value. |
| CentralMeasurements.LocationInside | StatisticsLibrary/CentralMeasurements.cs:99 | The location p/100·n lies strictly inside (0, n) exactly when n > 0 and 0 < p < 100. |
| CentralMeasurements.FindPercentile | StatisticsLibrary/CentralMeasurements.cs:96-103 | Succeeds exactly when the sample is non-empty and 0 < p < 100; otherwise it fails with IndexOutOfRange. The percentile lies between the minimum and the maximum. |
| CentralMeasurements.PercentileMonotone | StatisticsLibrary/CentralMeasurements.cs:96-103 | A larger percentile is never smaller. |
| CentralMeasurements.FindFirstQuartile | StatisticsLibrary/CentralMeasurements.cs:69-76 | Succeeds exactly on a non-empty sample, with a value between the minimum and the maximum. |
| CentralMeasurements.FindSecondQuartile | StatisticsLibrary/CentralMeasurements.cs:78-85 | Succeeds exactly on a non-empty sample, with a value between the minimum and the maximum. |
| CentralMeasurements.FindThirdQuartile | StatisticsLibrary/CentralMeasurements.cs:87-94 | Succeeds exactly on a non-empty sample, with a value between the minimum and the maximum. |
| CentralMeasurements.QuartilesOrdered | StatisticsLibrary/CentralMeasurements.cs:69-94 | Q1 <= Q2 <= Q3 on every non-empty sample. |
| CentralMeasurements.OneToTen | StatisticsLibrary/CentralMeasurements.cs:73 | The sample 1, 2, ..., 10 has ten values in ascending order. |
| CentralMeasurements.FirstQuartileOfOneToTen | StatisticsLibrary/CentralMeasurements.cs:69-76 | On 1..10 the location 2.5 is not whole, so Q1 is the third value, 3. |
| CentralMeasurements.SecondQuartileOfOneToTen | StatisticsLibrary/CentralMeasurements.cs:78-85 | On 1..10 the location 5 is whole, so Q2 averages the fifth and sixth values: 5.5. |
| CentralMeasurements.ThirdQuartileOfOneToTen | StatisticsLibrary/CentralMeasurements.cs:87-94 | On 1..10 the location 7.5 is not whole, so Q3 is the eighth value, 8. |
| CentralMeasurements.RangeOfOneToTen | StatisticsLibrary/CentralMeasurements.cs:105 | The interquartile range of 1..10 is 5. |
| CentralMeasurements.CalculateInterQuartileRange | StatisticsLibrary/CentralMeasurements.cs:105 | Succeeds exactly on a non-empty sample and is never negative. |
| CentralMeasurements.CalculateMedian | StatisticsLibrary/CentralMeasurements.cs:21-26 | Fails with ArgumentOutOfRange exactly on the empty sample. |
| CentralMeasurements.MedianIsSecondQuartile | StatisticsLibrary/CentralMeasurements.cs:21-26 | On every non-empty sample the median equals the second quartile, for odd and even counts alike. |
| CentralMeasurements.Distinct | StatisticsLibrary/CentralMeasurements.cs:30 | GroupBy's keys: exactly the values of the sample, each once. |
| CentralMeasurements.GroupBy | StatisticsLibrary/CentralMeasurements.cs:30 | One group per distinct value, holding that value and the number of times it occurs. |
| CentralMeasurements.CalculateMode | StatisticsLibrary/CentralMeasurements.cs:28-32 | Fails with ArgumentOutOfRange exactly when there are fewer than two distinct values. Fails with NoMode exactly when there are two or more and no value occurs strictly more often than all others. Otherwise it returns that value. |
| CentralMeasurements.ModeFromGroups | StatisticsLibrary/CentralMeasurements.cs:30-31 | The first two sorted groups differ in count exactly when the sample has a strict mode, and the first group then holds it. |
| CentralMeasurements.ModeTie | StatisticsLibrary/CentralMeasurements.cs:28-32 | In 1, 1, 2, 2 the top two counts tie and the mode is NoMode. |
| CentralMeasurements.CalculateRange | StatisticsLibrary/CentralMeasurements.cs:34 | Fails with InvalidOperation exactly on the empty sample. Otherwise it is non-negative, and 0 exactly when all values are equal. |
| CentralMeasurements.RangeZero | StatisticsLibrary/CentralMeasurements.cs:34 | Maximum equals minimum exactly when all values are equal. |
| CentralMeasurements.CalculateSampleVariance | StatisticsLibrary/CentralMeasurements.cs:55-60 | Non-negative, and 0 exactly when all values are equal. |
| CentralMeasurements.CalculatePopulationVariance | StatisticsLibrary/CentralMeasurements.cs:62-67 | Non-negative, and 0 exactly when all values are equal. |
| CentralMeasurements.VarianceZero | StatisticsLibrary/CentralMeasurements.cs:58 | The sum of squared deviations from the mean is 0 exactly when all values are equal. |
| CentralMeasurements.VariancesAgree | StatisticsLibrary/CentralMeasurements.cs:55-67 | (n - 1) times the sample variance equals n times the population variance. |
| CentralMeasurements.SampleVarianceFormula | StatisticsLibrary/CentralMeasurements.cs:55-60 | The sample variance equals the shortcut (Σx² - (Σx)²/n) / (n - 1). |
| CentralMeasurements.PopulationVarianceFormula | StatisticsLibrary/CentralMeasurements.cs:62-67 | The population variance equals Σx²/n minus the squared mean. |
| Samples.Within | StatisticsLibrary/BoxPlot.cs:21 | The Where filter keeps, with their multiplicities, exactly the values in [lo, hi]. |
| Samples.CountInSplit | StatisticsLibrary/FrequencyTable.cs:74 | Counts over adjacent half-open intervals [a, b) and [b, c) add up to the count over [a, c). |
| Samples.CountInAll | StatisticsLibrary/FrequencyTable.cs:74 | A sample lying wholly inside [lo, hi) is counted in full. |
| BoxPlot.DiscardOutliers | StatisticsLibrary/BoxPlot.cs:16-24 | Fails exactly on the empty sample. Otherwise the retained values are exactly the sample's values within [Q1 - 1.5 IQR, Q3 + 1.5 IQR], with their multiplicities, in ascending order and never empty. min and max are their first and last, IQR = Q3 - Q1, the limits are Q1 - 1.5 IQR and Q3 + 1.5 IQR, the plotted range is 4·IQR, and lower <= min <= Q1 <= Q2 <= Q3 <= max <= upper. |
| BoxPlot.ScaledLength | StatisticsLibrary/BoxPlot.cs:53-60 | A segment width is within one half of its exact share (b - a)/outerRange · boxWidth. |
| BoxPlot.PlotSegments | StatisticsLibrary/BoxPlot.cs:52-60 | Each of the six widths is within one half of its exact share of boxWidth, the share being its landmark gap over the outer range. |
| BoxPlot.SegmentsTotal | StatisticsLibrary/BoxPlot.cs:52-60 | The six rounded widths add up to boxWidth within 3. |
| BoxPlot.SegmentsNonNegative | StatisticsLibrary/BoxPlot.cs:52-60 | For landmarks in order lower <= min <= Q1 <= Q2 <= Q3 <= max <= upper, every width is non-negative. |
| BoxPlot.DefaultSubtraction | StatisticsLibrary/BoxPlot.cs:68-71 | Never negative. It is 1 when num - subtrahend is negative, and otherwise num - subtrahend truncated. |
| BoxPlot.DefaultSubtractionWhole | StatisticsLibrary/BoxPlot.cs:68-71 | On whole numbers it is n - s, or 1 when n < s; so n - n gives 0. |
| BoxPlot.DiscardedPlotDraws | StatisticsLibrary/BoxPlot.cs:32 | For a sample with a positive IQR and boxWidth >= 0, the landmarks PrintRangeDiscardOutliers passes to PrintBoxPlot give a line without the ArgumentOutOfRange failure. |
| BoxPlot.BoxPlotLine | StatisticsLibrary/BoxPlot.cs:62-64 | Fails with ArgumentOutOfRange exactly when the unclamped Q2 width is negative. Otherwise the line has the length reported as outputLength, starts with five spaces and ends with a newline. |
| BoxPlot.Line | StatisticsLibrary/BoxPlot.cs:62-63 | The line is 11 characters of margin and bars plus the six runs, and starts with five spaces and ends with a newline. |
| BoxPlot.BoxPlotLineShape | StatisticsLibrary/BoxPlot.cs:62-63 | The line holds exactly five bars. Its block characters number the two box widths and its dashes the two whisker widths. |
| BoxPlot.OutputLength | StatisticsLibrary/BoxPlot.cs:62-64 | outputLength is at least the total of the six widths plus 5, and for non-negative widths at most that total plus 16. |
| BoxPlot.CalculateSpaceLeft | StatisticsLibrary/BoxPlot.cs:102-105 | The left pad is the spare room (field minus label) halved toward zero, for labels of either parity. |
| BoxPlot.CalculateSpaceRight | StatisticsLibrary/BoxPlot.cs:106-109 | The right pad is the spare room halved and rounded up for an even-length label, and halved toward zero for an odd-length one. |
| BoxPlot.PaddingCentres | StatisticsLibrary/BoxPlot.cs:102-109 | For a label that fits, the left pad is non-negative and the right pad equals it or exceeds it by one. The pads and the label fill the field, except that an odd label in an even field leaves one column. |
| BoxPlot.WholeRoundingCasts | StatisticsLibrary/BoxPlot.cs:104-108 | (int)RoundDown(x, 0) is x truncated and (int)RoundUp(x, 0) is the ceiling of x. |
| BoxPlot.PadSign | StatisticsLibrary/BoxPlot.cs:102-109 | Each pad is non-negative exactly when the label is at most one longer than the field. |
| BoxPlot.WhiteSpaceLeft | StatisticsLibrary/BoxPlot.cs:93-96 | Succeeds exactly when the label is at most one longer than the field, with CalculateSpaceLeft spaces. |
| BoxPlot.WhiteSpaceRight | StatisticsLibrary/BoxPlot.cs:97-100 | Succeeds exactly when the label is at most one longer than the field, with CalculateSpaceRight spaces. |
| FrequencyTable.HeaderWidthValue | StatisticsLibrary/FrequencyTable.cs:11-12 | headerWidth = ceiling((144 - 7) / 6) = 23. |
| FrequencyTable.Cell | StatisticsLibrary/FrequencyTable.cs:26-27 | A cell fails with ArgumentOutOfRange exactly when the label is longer than 24 characters. It starts with a bar, and a label of at most 23 characters gives exactly 24 characters. |
| FrequencyTable.CellCentres | StatisticsLibrary/FrequencyTable.cs:26-27 | A label of at most 23 characters sits between pads that fill 23 columns, the right pad equal to the left one or one longer. |
| FrequencyTable.Joined | StatisticsLibrary/FrequencyTable.cs:24-28 | The concatenated cells fail exactly when some label is too long. Labels of at most 23 characters give 24 characters per cell. |
| FrequencyTable.DataRow | StatisticsLibrary/FrequencyTable.cs:21-30 | The row fails when there are no cells (Substring(0, -1)) or a label is too long. Otherwise it starts and ends with a bar, and six labels of at most 23 characters give a row of 144 characters, the border's tableWidth. |
| FrequencyTable.PrintDataRow | StatisticsLibrary/FrequencyTable.cs:21-30 | The foreach loop builds exactly DataRow of its labels, including the failures. |
| FrequencyTable.CalculateK | StatisticsLibrary/FrequencyTable.cs:33 | k is 0 for no data, and otherwise the integer with k² - k < n <= k² + k. |
| FrequencyTable.NearestRoot | StatisticsLibrary/FrequencyTable.cs:33 | (k - 1/2)² < n < (k + 1/2)², so k is the rounded square root of n. |
| FrequencyTable.RootUnique | StatisticsLibrary/FrequencyTable.cs:33 | No other k satisfies the characterisation. |
| FrequencyTable.CalculateKFrom | StatisticsLibrary/FrequencyTable.cs:35-38 | Fails with InvalidOperation exactly on the empty sample. Otherwise k is within one half of (max - start)/width, and with a positive width the last edge start + k·width is at most half a width below the maximum. |
| FrequencyTable.CalculateWidth | StatisticsLibrary/FrequencyTable.cs:41 | Fails with InvalidArgument exactly when k = 0 or the decimal places are negative. Otherwise the width is a multiple of 10^-p with (max - min)/k <= width < (max - min)/k + 10^-p. |
| FrequencyTable.WidthCoversRange | StatisticsLibrary/FrequencyTable.cs:41 | k groups of the chosen width starting at min reach max. |
| FrequencyTable.MaximumOnLastEdge | StatisticsLibrary/FrequencyTable.cs:33-74 | For the sample [0, 2]: k = 1 and width 2, and the half-open group [0, 2) counts only one of the two values. |
| FrequencyTable.CreateGroupsFrom | StatisticsLibrary/FrequencyTable.cs:56-66 | k + 1 edges (none for negative k), the first being startingPoint and each one width past the previous. |
| FrequencyTable.CreateGroups | StatisticsLibrary/FrequencyTable.cs:44-54 | The same edges, starting from the smallest value, or from 0 for an empty sample. |
| FrequencyTable.EdgeAt | StatisticsLibrary/FrequencyTable.cs:48-52 | Edge i is the first edge plus i widths. |
| FrequencyTable.EdgesIncrease | StatisticsLibrary/FrequencyTable.cs:48-52 | With a positive width the edges strictly increase. |
| FrequencyTable.CreateTableData | StatisticsLibrary/FrequencyTable.cs:68-82 | Fails with InvalidArgument exactly when two groups have the same key. Otherwise each row i has the key from edge i to edge i+1 minus 10^-p, counts the values in [edge i, edge i+1), and has the midpoint of its key, f·x and f·x². The cumulative column is the running total. |
| FrequencyTable.IncreasingEdgesHaveNoDuplicate | StatisticsLibrary/FrequencyTable.cs:79 | Strictly increasing edges never repeat a key, so the table is built. |
| FrequencyTable.ZeroWidthDuplicates | StatisticsLibrary/FrequencyTable.cs:79 | Three or more equal edges (width 0) repeat a key, so the dictionary Add throws. |
| FrequencyTable.CumulativeMonotone | StatisticsLibrary/FrequencyTable.cs:76 | Cumulative frequencies never decrease. |
| FrequencyTable.CumulativeCounts | StatisticsLibrary/FrequencyTable.cs:71-76 | On ascending edges, the cumulative frequency of row i counts the values in [first edge, edge i+1). |
| FrequencyTable.TableCountsEverything | StatisticsLibrary/FrequencyTable.cs:71-76 | When every value lies between the first and the last edge, the last cumulative frequency is the sample size. |
| FrequencyTable.ExpandTotals | StatisticsLibrary/FrequencyTable.cs:77-78 | The table's total frequency, Σf·x and Σf·x² are the count, sum and sum of squares of the grouped sample (each midpoint repeated f times). |
| FrequencyTable.GroupMean | StatisticsLibrary/FrequencyTable.cs:84 | Fails with InvalidOperation exactly on the empty table. |
| FrequencyTable.GroupMeanIsMean | StatisticsLibrary/FrequencyTable.cs:84 | The grouped mean is the mean of the grouped sample. |
| FrequencyTable.GroupVariance | StatisticsLibrary/FrequencyTable.cs:109-114 | Fails with InvalidOperation exactly on the empty table. |
| FrequencyTable.GroupVarianceIsSampleVariance | StatisticsLibrary/FrequencyTable.cs:111-113 | The radicand of GroupStandardDeviation is the sample variance of the grouped sample, so it is never negative. |
| FrequencyTable.GroupMode | StatisticsLibrary/FrequencyTable.cs:86-90 | Fails with ArgumentOutOfRange exactly when there are fewer than two rows. Fails with NoMode exactly when there are two or more rows and no row has the unique highest frequency. Succeeds exactly when one row has the unique highest frequency, and then returns that row's midpoint. |
| FrequencyTable.FirstReaching | StatisticsLibrary/FrequencyTable.cs:96 | First(cf >= n/2): all earlier rows lie below half, and the row found reaches it. |
| FrequencyTable.MedianRow | StatisticsLibrary/FrequencyTable.cs:94-104 | For a non-empty table with a positive total, the median row exists and holds a value. The rows below n/2 are exactly those before it. |
| FrequencyTable.PrecedingCfp | StatisticsLibrary/FrequencyTable.cs:101-104 | The cumulative frequency before the median row is below n/2. |
| FrequencyTable.SourceCfp | StatisticsLibrary/FrequencyTable.cs:101-104 | The cfp the code uses is below n/2 exactly when the median row is not the first row. |
| FrequencyTable.CfpRules | StatisticsLibrary/FrequencyTable.cs:101-104 | The source's cfp equals the preceding group's cumulative frequency unless the median row is first. There it is that row's own cumulative frequency, which is not below n/2. |
| FrequencyTable.GroupMedian | StatisticsLibrary/FrequencyTable.cs:92-107 | Fails with InvalidOperation exactly on the empty table (as written, see Findings). |
| FrequencyTable.GroupMedianCorrected | StatisticsLibrary/FrequencyTable.cs:92-107 | Fails exactly on the empty table. Otherwise, with a positive group width, the estimate lies above the median group's lower edge. |
| FrequencyTable.MedianAboveLowerEdge | StatisticsLibrary/FrequencyTable.cs:106 | Any cfp below n/2 puts lm + ((n+1)/2 - cfp)/fm·width above lm. |
| FrequencyTable.MedianOffsetPositive | StatisticsLibrary/FrequencyTable.cs:106 | A cfp below n/2 and a positive fm and width give a positive offset into the group. |
| FrequencyTable.GroupMedianAgrees | StatisticsLibrary/FrequencyTable.cs:101-104 | When the median row is not the first, the code as written and the corrected rule agree. |
| FrequencyTable.GroupMedianFirstRowExample | StatisticsLibrary/FrequencyTable.cs:102-106 | One group [0, 9] holding 3 values: as written the median is -10/3, below the group; corrected it is 20/3. |
| LinearRegression.CreateRegressionDataSet | StatisticsLibrary/LinearRegression.cs:12-29 | Fails with ArgumentOutOfRange exactly when y is shorter than x. Otherwise the keys are exactly x, y, xx, yy and xy. x and y are the inputs unchanged, xx[i] = x[i]² and yy[i] = y[i]² over their own lengths, and xy[i] = x[i]·y[i] over the length of x. |
| LinearRegression.ColumnsAreProducts | StatisticsLibrary/LinearRegression.cs:14-19 | Those columns are the squares of x, the squares of y and the pairwise products. |
| LinearRegression.CalculateB | StatisticsLibrary/LinearRegression.cs:31-34 | With a positive denominator (x values that vary), b is positive exactly when n ΣXY > ΣX ΣY and negative exactly when n ΣXY < ΣX ΣY. |
| LinearRegression.CalculateA | StatisticsLibrary/LinearRegression.cs:36-39 | a + b·(ΣX/n) = ΣY/n: the line passes through the point of means. |
| LinearRegression.CoefficientsSolveNormalEquations | StatisticsLibrary/LinearRegression.cs:31-39 | b and a solve the least-squares normal equations n·a + b·ΣX = ΣY and a·ΣX + b·ΣXX = ΣXY, and no other pair does. |
| LinearRegression.DenominatorOfSample | StatisticsLibrary/LinearRegression.cs:33 | For a sample, n·ΣXX - (ΣX)² is never negative, and 0 exactly when all x are equal, where b is undefined. |
| LinearRegression.ExactLine | StatisticsLibrary/LinearRegression.cs:31-39 | If every y[i] = m·x[i] + c and the x are not all equal, then b = m and a = c. |

## Left out

- Console output is not modelled: `PrintBorder`, `PrintHeader`, both
  `CreateTable` overloads, the report lines of `PrintRangeDiscardOutliers`
  and `DisplayRegressionStatistics`. The strings the formatters build are
  modelled; writing them is not.
- `CreateTable` casts min and max to `int` before `CalculateWidth`
  (FrequencyTable.cs:119). This is not modelled, because `CreateTable`
  itself is not modelled.
- `PrintNumbers` is not modelled. Its suppression rule and its loop depend on
  `double.ToString()` lengths and on floating-point accumulation, neither of
  which has a counterpart over the reals.
- Square roots are not modelled: the standard deviations, `CalculateSK`, the
  CV functions, `CalculateVariance` and the `Math.Sqrt` of
  `GroupStandardDeviation`. Their radicands (the variances) are modelled
  instead, and `CalculateK` is characterised over integers.
- Floating point is not modelled: there is no NaN, no infinity, no
  representation error, and no `double.Epsilon` tolerance in `IsInt` (zero
  over the reals). The NaN/infinity checks of `RoundDown` and `RoundUp` have
  no counterpart. The exception is `CalculateWidth` with k = 0, where the
  quotient is not finite and `RoundUp` throws.
- Division by zero becomes a precondition instead of a NaN or infinite
  result, in these places:
  - `CalculateMean` of an empty sample;
  - a zero weight sum in `CalculateWeightedMean`;
  - fewer than two values for the sample variance;
  - a zero outer range in `PlotSegments`;
  - a zero width in `CalculateKFrom`;
  - a zero total frequency in `GroupMean` and `GroupMedian`;
  - a total below two in `GroupVariance`;
  - a zero `n` or denominator in `CalculateB` and `CalculateA`.
- `Math.Pow(x, 2)` is modelled as `x·x`.
- `ToString` and `double.Parse` of the table keys are not modelled. A row
  carries its two key bounds as numbers, and `GroupMode` returns the midpoint
  instead of its text.
- `boxWidth` is a mutable static field in the source. Here it is a parameter.
- `int` arithmetic is modelled as unbounded: there is no 32-bit overflow in
  casts, and `CalculateK` takes a `nat` length.
- Stability of `OrderBy` and `OrderByDescending` is not modelled. It cannot
  be observed: equal keys are equal values, and a tie at the top of the mode
  ordering fails anyway.
- ZTable is not part of this model. `ZTable.GetValueByZScore`, which the
  library's tests exercise, has no source among the modelled files.
- FrequencyTable.GroupMean, FrequencyTable.GroupVariance and
  FrequencyTable.GroupMedian: their own ensures state only the error case.
  What they compute is stated by GroupMeanIsMean,
  GroupVarianceIsSampleVariance and the median lemmas.

## Findings

| source | as written | input that shows it | evidently intended | confidence | as-written member | corrected member |
|---|---|---|---|---|---|---|
| StatisticsLibrary/FrequencyTable.cs:102-104 | When the median group is the first group, cfp is that group's own cumulative frequency, which is at least n/2, so the estimate can fall below the group's lower edge | a table with one group [0, 9] (width 10) holding 3 values, 0 decimal places: as written the median is 0 + (2 - 3)/3·10 = -10/3 | cfp = 0 for the first group, giving 0 + (2 - 0)/3·10 = 20/3, inside the group | not executed | FrequencyTable.GroupMedianFirstRowExample | FrequencyTable.GroupMedianCorrected |
