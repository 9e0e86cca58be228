/** FrequencyTable.cs without the console: the group count and width, the
    group edges, the table of frequencies, cumulative frequencies, midpoints
    and their products, the grouped mean, mode, median and variance, and the
    fixed-width row formatter.

    The source keeps the table in a `Dictionary<string, List<double>>` whose
    key is the text "lo - top" and whose value list is (f, cf, midpoint, fx,
    fx²); it relies on insertion order and re-parses the bounds from the key.
    Here a table is the sequence of its rows in insertion order, each row
    carrying the two bounds of its key as numbers. */
module FrequencyTable {
  import opened Outcomes
  import opened MathUtilities
  import opened Samples
  import opened Ordering
  import opened CentralMeasurements
  import opened Text

  // ----- the row formatter -----

  /** tableWidth: the length of the border line. */
  const TableWidth: int := 144

  /** headerWidth: the columns of one cell, ceiling((tableWidth - 7) / 6). */
  const HeaderWidth: int := Ceiling((TableWidth - 7) as real / 6.0)

  lemma HeaderWidthValue()
    ensures HeaderWidth == 23
  {
    CeilingUnique((TableWidth - 7) as real / 6.0, 23);
  }

  /** One cell of PrintDataRow: a bar, then the label between a left pad of
      (headerWidth - L) / 2 spaces (C# integer division) and a right pad one
      longer when L is even. A label of 25 characters or more makes the left
      count negative, and `new String(' ', n)` throws. */
  function Cell(str: string): (r: Result<string>)
    ensures r.Ok? <==> |str| <= HeaderWidth + 1
    ensures r.Err? ==> r.error == ArgumentOutOfRange
    ensures r.Ok? ==> |r.value| > |str| && r.value[0] == '|'
    ensures r.Ok? && |str| <= HeaderWidth ==> |r.value| == HeaderWidth + 1
  {
    HeaderWidthValue();
    var pad := TruncatedDiv(HeaderWidth - |str|, 2);
    var left := NewString(' ', pad);
    if left.Err? then Err(left.error)
    else Ok("|" + left.value + str + Repeat(' ', pad + (if |str| % 2 == 0 then 1 else 0)))
  }

  /** A label that fits the cell is centred in it: the pads fill the
      headerWidth columns and the right one is the left one or one more. */
  lemma CellCentres(str: string) returns (left: nat, right: nat)
    requires |str| <= HeaderWidth
    ensures Cell(str) == Ok("|" + Repeat(' ', left) + str + Repeat(' ', right))
    ensures left + |str| + right == HeaderWidth
    ensures left <= right <= left + 1
  {
    HeaderWidthValue();
    left := TruncatedDiv(HeaderWidth - |str|, 2);
    right := left + (if |str| % 2 == 0 then 1 else 0);
  }

  /** The cells of a row, concatenated in order; the first that does not fit
      fails. */
  function Joined(cells: seq<string>): (r: Result<string>)
    ensures r.Ok? <==> forall i :: 0 <= i < |cells| ==> |cells[i]| <= HeaderWidth + 1
    ensures r.Err? ==> r.error == ArgumentOutOfRange
    ensures r.Ok? ==> |r.value| >= |cells|
    ensures r.Ok? && |cells| > 0 ==> r.value[0] == '|'
    ensures r.Ok? && (forall i :: 0 <= i < |cells| ==> |cells[i]| <= HeaderWidth) ==>
              |r.value| == (HeaderWidth + 1) * |cells|
  {
    HeaderWidthValue();
    if |cells| == 0 then Ok("")
    else
      var prefix := Joined(cells[..|cells| - 1]);
      var cell := Cell(cells[|cells| - 1]);
      if prefix.Err? then prefix
      else if cell.Err? then cell
      else Ok(prefix.value + cell.value)
  }

  /** The row PrintDataRow writes: the cells with their last character
      replaced by a closing bar. No cells leave nothing to cut, and
      `Substring(0, -1)` throws. Six cells that fit make a row exactly as
      wide as the border. */
  function DataRow(cells: seq<string>): (r: Result<string>)
    ensures r.Ok? <==> |cells| > 0 && forall i :: 0 <= i < |cells| ==> |cells[i]| <= HeaderWidth + 1
    ensures r.Err? ==> r.error == ArgumentOutOfRange
    ensures r.Ok? ==> |r.value| > 0 && r.value[0] == '|' && r.value[|r.value| - 1] == '|'
    ensures r.Ok? && (forall i :: 0 <= i < |cells| ==> |cells[i]| <= HeaderWidth) ==>
              |r.value| == (HeaderWidth + 1) * |cells|
    ensures r.Ok? && |cells| == 6 && (forall i :: 0 <= i < |cells| ==> |cells[i]| <= HeaderWidth) ==>
              |r.value| == TableWidth
  {
    HeaderWidthValue();
    var joined := Joined(cells);
    if joined.Err? then joined
    else if |joined.value| == 0 then Err(ArgumentOutOfRange)
    else Ok(joined.value[..|joined.value| - 1] + "|")
  }

  /** PrintDataRow: appends one cell per label, then cuts the last character
      and closes the row with a bar. The row is returned instead of written. */
  method PrintDataRow(data: seq<string>) returns (r: Result<string>)
    ensures r == DataRow(data)
  {
    var output := "";
    for i := 0 to |data|
      invariant Joined(data[..i]) == Ok(output)
    {
      var str := data[i];
      var pad := TruncatedDiv(HeaderWidth - |str|, 2);
      var left := NewString(' ', pad);
      if left.Err? {
        JoinedFails(data, i);
        return Err(left.error);
      }
      var cell := "|" + left.value + str + Repeat(' ', pad + (if |str| % 2 == 0 then 1 else 0));
      JoinedStep(data, i, output, cell);
      output := output + cell;
    }
    assert data[..|data|] == data;
    if |output| == 0 {
      return Err(ArgumentOutOfRange);
    }
    r := Ok(output[..|output| - 1] + "|");
  }

  /** A label too long for its cell fails the whole row. */
  lemma JoinedFails(cells: seq<string>, i: int)
    requires 0 <= i < |cells| && TruncatedDiv(HeaderWidth - |cells[i]|, 2) < 0
    ensures Joined(cells) == Err(ArgumentOutOfRange)
  {
    HeaderWidthValue();
  }

  /** The loop of PrintDataRow appends the cell of label i. */
  lemma JoinedStep(cells: seq<string>, i: int, output: string, cell: string)
    requires 0 <= i < |cells| && Joined(cells[..i]) == Ok(output)
    requires var pad := TruncatedDiv(HeaderWidth - |cells[i]|, 2);
      pad >= 0 && cell == "|" + Repeat(' ', pad) + cells[i] + Repeat(' ', pad + (if |cells[i]| % 2 == 0 then 1 else 0))
    ensures Joined(cells[..i + 1]) == Ok(output + cell)
  {
    assert cells[..i + 1][..i] == cells[..i];
    assert Cell(cells[i]) == Ok(cell);
  }

  // ----- group count and width -----

  /** CalculateK(n) = (int)Math.Round(Math.Sqrt(n)), the integer nearest to
      the square root of n, characterised without square roots: k = 0 for
      n = 0, otherwise k² - k < n <= k² + k. No count lies half-way between
      two squares' roots, so the rounding mode never matters. */
  function CalculateK(dataLength: nat): (k: nat)
    ensures dataLength == 0 ==> k == 0
    ensures dataLength > 0 ==> k * k - k < dataLength <= k * k + k
  {
    if dataLength == 0 then 0
    else
      var j := CalculateK(dataLength - 1);
      if dataLength <= j * j + j then j else j + 1
  }

  /** CalculateK(n) is within one half of the square root of n, which is
      what rounding the root gives: (k - 1/2)² < n < (k + 1/2)², the left
      inequality holding only for k >= 1. */
  lemma NearestRoot(dataLength: nat)
    ensures var k := CalculateK(dataLength) as real;
      (k == 0.0 || Mul(k - 0.5, k - 0.5) < dataLength as real) && dataLength as real < Mul(k + 0.5, k + 0.5)
  {
    HalfSquares(CalculateK(dataLength));
  }

  /** (k ∓ 1/2)² = k² ∓ k + 1/4. */
  lemma HalfSquares(k: int)
    ensures Mul(k as real - 0.5, k as real - 0.5) == (k * k - k) as real + 0.25
    ensures Mul(k as real + 0.5, k as real + 0.5) == (k * k + k) as real + 0.25
  {
    var r := k as real;
    assert (k * k) as real == r * r;
  }

  /** Only one k satisfies the characterisation. */
  lemma RootUnique(dataLength: nat, k: nat)
    requires dataLength > 0 && k * k - k < dataLength <= k * k + k
    ensures k == CalculateK(dataLength)
  {
    var c := CalculateK(dataLength);
    if k < c {
      SquaresApart(k, c);
    } else if c < k {
      SquaresApart(c, k);
    }
  }

  /** Below b, a's upper bound a² + a is at most b's lower bound b² - b. */
  lemma {:induction false} SquaresApart(a: nat, b: nat)
    requires a < b
    ensures a * a + a <= b * b - b
    decreases b - a
  {
    if a + 1 < b {
      SquaresApart(a, b - 1);
      assert b * b == (b - 1) * (b - 1) + 2 * b - 1;
    } else {
      assert b * b == a * a + 2 * a + 1;
    }
  }

  /** The overload CalculateK(data, startingPoint, width): the largest value,
      taken as the last of the sorted copy, less the start, in widths,
      rounded half to even. `Last()` on an empty sample throws; a zero width
      divides by zero and is excluded. */
  function CalculateKFrom(data: seq<real>, startingPoint: real, width: real): (r: Result<int>)
    requires width != 0.0
    ensures r.Err? <==> |data| == 0
    ensures r.Err? ==> r.error == InvalidOperation
    ensures r.Ok? ==> Abs(r.value as real - Div(MaxOf(data) - startingPoint, width)) <= 0.5
    ensures r.Ok? && width > 0.0 ==> startingPoint + Mul(r.value as real, width) >= MaxOf(data) - width / 2.0
  {
    if |data| == 0 then Err(InvalidOperation)
    else
      var sorted := SortAscending(data);
      SortedExtremes(data);
      var top := sorted[|data| - 1];
      var k := RoundHalfEven((top - startingPoint) / width);
      NearestCount(k, top, MaxOf(data), startingPoint, width);
      Ok(k)
  }

  /** A count within one half of (top - start) / width is, scaled back by a
      positive width, at most half a width short of top. */
  lemma NearestCount(k: int, top: real, max: real, startingPoint: real, width: real)
    requires width != 0.0 && top == max && Abs(k as real - (top - startingPoint) / width) <= 0.5
    ensures Abs(k as real - Div(max - startingPoint, width)) <= 0.5
    ensures width > 0.0 ==> startingPoint + Mul(k as real, width) >= max - width / 2.0
  {
    var d := max - startingPoint;
    if width > 0.0 {
      assert k as real >= d / width - 0.5;
      assert (k as real) * width >= (d / width - 0.5) * width;
    }
  }

  /** CalculateWidth: RoundUp((max - min) / k, decimalPlaces). With k = 0 the
      quotient is infinite or NaN and RoundUp rejects it, as it rejects a
      negative number of decimals, with an ArgumentException. */
  function CalculateWidth(min: real, max: real, k: int, decimalPlaces: int): (r: Result<real>)
    ensures r.Err? <==> k == 0 || decimalPlaces < 0
    ensures r.Err? ==> r.error == InvalidArgument
    ensures r.Ok? ==> OnGrid(r.value, decimalPlaces)
    ensures r.Ok? ==> Div(max - min, k as real) <= r.value < Div(max - min, k as real) + 1.0 / Power(decimalPlaces)
  {
    if k == 0 then Err(InvalidArgument)
    else RoundUp((max - min) / (k as real), decimalPlaces)
  }

  /** k groups of the chosen width starting at min reach max: the last edge
      min + k * width is at least max. */
  lemma WidthCoversRange(min: real, max: real, k: int, decimalPlaces: int)
    requires k > 0 && decimalPlaces >= 0
    ensures min + Mul(k as real, CalculateWidth(min, max, k, decimalPlaces).value) >= max
  {
    var w := CalculateWidth(min, max, k, decimalPlaces).value;
    assert (k as real) * w >= (k as real) * ((max - min) / (k as real));
  }

  /** ...but the groups are half-open, so a maximum that lands exactly on the
      last edge is not counted: the sample [0, 2] gives one group, of width
      2, and the group [0, 2) holds only one of the two values. */
  lemma MaximumOnLastEdge()
    ensures CalculateK(2) == 1
    ensures CalculateWidth(0.0, 2.0, 1, 0) == Ok(2.0)
    ensures CountIn([0.0, 2.0], 0.0, 0.0 + 2.0) == 1
  {
    WholeRounding(2.0);
    assert [0.0, 2.0][..1] == [0.0];
    assert [0.0][..0] == [];
  }

  // ----- group edges -----

  /** The overload CreateGroups(k, width, startingPoint): k + 1 edges from the
      start, each one width past the previous (none when k is negative). */
  method CreateGroupsFrom(k: int, width: real, startingPoint: real) returns (groups: seq<real>)
    ensures |groups| == if k >= 0 then k + 1 else 0
    ensures |groups| > 0 ==> groups[0] == startingPoint
    ensures forall i :: 0 < i < |groups| ==> groups[i] == groups[i - 1] + width
  {
    var floor := startingPoint;
    groups := [];
    var i := 0;
    while i <= k
      invariant 0 <= i && (k >= 0 ==> i <= k + 1) && (k < 0 ==> i == 0) && |groups| == i
      invariant |groups| > 0 ==> groups[0] == startingPoint
      invariant forall j :: 0 < j < |groups| ==> groups[j] == groups[j - 1] + width
      invariant floor == if |groups| == 0 then startingPoint else groups[|groups| - 1] + width
    {
      groups := groups + [floor];
      floor := floor + width;
      i := i + 1;
    }
  }

  /** CreateGroups(data, k, width): the same edges from the smallest value,
      or from 0 for an empty sample (`FirstOrDefault`). */
  method CreateGroups(data: seq<real>, k: int, width: real) returns (groups: seq<real>)
    ensures |groups| == if k >= 0 then k + 1 else 0
    ensures |groups| > 0 ==> groups[0] == if |data| == 0 then 0.0 else MinOf(data)
    ensures forall i :: 0 < i < |groups| ==> groups[i] == groups[i - 1] + width
  {
    var sorted := SortAscending(data);
    var floor := if |sorted| == 0 then 0.0 else sorted[0];
    if |data| > 0 {
      SortedExtremes(data);
    }
    groups := CreateGroupsFrom(k, width, floor);
  }

  /** Edges one width apart: edge i is the first plus i widths. */
  lemma {:induction false} EdgeAt(groups: seq<real>, width: real, i: nat)
    requires forall j :: 0 < j < |groups| ==> groups[j] == groups[j - 1] + width
    requires i < |groups|
    ensures groups[i] == groups[0] + Mul(i as real, width)
  {
    if i > 0 {
      EdgeAt(groups, width, i - 1);
      assert Mul(i as real, width) == Mul((i - 1) as real, width) + width;
    }
  }

  /** With a positive width the edges strictly increase. */
  lemma {:induction false} EdgesIncrease(groups: seq<real>, width: real)
    requires forall j :: 0 < j < |groups| ==> groups[j] == groups[j - 1] + width
    requires width > 0.0
    ensures forall a, b :: 0 <= a < b < |groups| ==> groups[a] < groups[b]
  {
    forall a, b | 0 <= a < b < |groups|
      ensures groups[a] < groups[b]
    {
      EdgeAt(groups, width, a);
      EdgeAt(groups, width, b);
      assert Mul(b as real, width) - Mul(a as real, width) == Mul((b - a) as real, width);
    }
  }

  // ----- the table -----

  /** One entry of the table: the bounds of its key, then the frequency, the
      cumulative frequency, the midpoint, f·x and f·x². */
  datatype Row = Row(lo: real, top: real, frequency: nat, cumulative: nat,
                     midpoint: real, fx: real, fx2: real)

  /** Row i is built from the edges lo and hi: the key runs from lo to one
      unit 10^-decimalPlaces below hi, the frequency counts the values in
      [lo, hi), the midpoint is halfway between the key's bounds. */
  predicate RowOf(row: Row, data: seq<real>, lo: real, hi: real, unit: real)
  {
    row.lo == lo && row.top == hi - unit &&
    row.frequency == CountIn(data, lo, hi) &&
    row.midpoint == (lo + hi - unit) / 2.0 &&
    row.fx == Mul(row.frequency as real, row.midpoint) &&
    row.fx2 == Mul(row.fx, row.midpoint)
  }

  /** Each cumulative frequency is the previous one plus the row's frequency. */
  predicate CumulativeChain(rows: seq<Row>)
  {
    (|rows| > 0 ==> rows[0].cumulative == rows[0].frequency) &&
    forall i :: 0 < i < |rows| ==> rows[i].cumulative == rows[i - 1].cumulative + rows[i].frequency
  }

  /** The columns agree with each other: the running sum, and fx = f·x. */
  predicate Consistent(rows: seq<Row>)
  {
    CumulativeChain(rows) &&
    forall i :: 0 <= i < |rows| ==> rows[i].fx == Mul(rows[i].frequency as real, rows[i].midpoint)
  }

  /** rows is the table CreateTableData builds from data and the edges. */
  predicate IsTable(rows: seq<Row>, data: seq<real>, groups: seq<real>, decimalPlaces: int)
  {
    |rows| == (if |groups| > 0 then |groups| - 1 else 0) &&
    (forall i :: 0 <= i < |rows| ==>
       RowOf(rows[i], data, groups[i], groups[i + 1], ShiftDecimalPlaces(1.0, decimalPlaces))) &&
    Consistent(rows)
  }

  /** Two groups among the first n - 1 have the same key: the same lower edge
      and the same upper edge (so the same key text). */
  predicate DuplicateKeyBefore(groups: seq<real>, n: int)
  {
    exists a, b :: 0 <= a < b < n && b + 1 < |groups| && groups[a] == groups[b] && groups[a + 1] == groups[b + 1]
  }

  predicate DuplicateKey(groups: seq<real>)
  {
    DuplicateKeyBefore(groups, |groups| - 1)
  }

  /** `ContainsKey`: some row so far has the key from lo to top. */
  predicate HasKey(rows: seq<Row>, lo: real, top: real)
  {
    exists j :: 0 <= j < |rows| && rows[j].lo == lo && rows[j].top == top
  }

  /** CreateTableData: one row per pair of consecutive edges, in edge order,
      with the running cumulative frequency. `Dictionary.Add` throws on a key
      already present. */
  method CreateTableData(data: seq<real>, groupIntervals: seq<real>, decimalPlaces: int)
    returns (r: Result<seq<Row>>)
    ensures r.Err? <==> DuplicateKey(groupIntervals)
    ensures r.Err? ==> r.error == InvalidArgument
    ensures r.Ok? ==> IsTable(r.value, data, groupIntervals, decimalPlaces)
  {
    var unit := ShiftDecimalPlaces(1.0, decimalPlaces);
    var tableData: seq<Row> := [];
    var cumulativeFrequency: nat := 0;
    var i := 0;
    while i < |groupIntervals| - 1
      invariant 0 <= i <= if |groupIntervals| > 0 then |groupIntervals| - 1 else 0
      invariant TablePrefix(tableData, data, groupIntervals, unit, i)
      invariant cumulativeFrequency == if i == 0 then 0 else tableData[i - 1].cumulative
      invariant !DuplicateKeyBefore(groupIntervals, i)
    {
      var lo, hi := groupIntervals[i], groupIntervals[i + 1];
      if HasKey(tableData, lo, hi - unit) {
        KeyFound(tableData, data, groupIntervals, unit, i);
        return Err(InvalidArgument);
      }
      KeyFresh(tableData, data, groupIntervals, unit, i);
      var frequency := CountIn(data, lo, hi);
      var middlePoint := (lo + hi - unit) / 2.0;
      cumulativeFrequency := cumulativeFrequency + frequency;
      var fx := Mul(frequency as real, middlePoint);
      var fxsqrd := Mul(fx, middlePoint);
      var row := Row(lo, hi - unit, frequency, cumulativeFrequency, middlePoint, fx, fxsqrd);
      AppendRow(tableData, data, groupIntervals, unit, row);
      tableData := tableData + [row];
      i := i + 1;
    }
    r := Ok(tableData);
  }

  /** The first i rows of the table, as the loop of CreateTableData has them. */
  predicate TablePrefix(rows: seq<Row>, data: seq<real>, groups: seq<real>, unit: real, i: int)
  {
    |rows| == i && (i == 0 || i < |groups|) &&
    (forall j :: 0 <= j < i ==> RowOf(rows[j], data, groups[j], groups[j + 1], unit)) &&
    Consistent(rows)
  }

  lemma AppendRow(rows: seq<Row>, data: seq<real>, groups: seq<real>, unit: real, row: Row)
    requires TablePrefix(rows, data, groups, unit, |rows|) && |rows| + 1 < |groups|
    requires RowOf(row, data, groups[|rows|], groups[|rows| + 1], unit)
    requires row.cumulative == (if |rows| == 0 then 0 else rows[|rows| - 1].cumulative) + row.frequency
    ensures TablePrefix(rows + [row], data, groups, unit, |rows| + 1)
  {
    var next := rows + [row];
    assert forall j :: 0 <= j < |rows| ==> next[j] == rows[j];
  }

  /** A key already present comes from an earlier pair with the same edges. */
  lemma KeyFound(rows: seq<Row>, data: seq<real>, groups: seq<real>, unit: real, i: int)
    requires TablePrefix(rows, data, groups, unit, i) && i + 1 < |groups|
    requires HasKey(rows, groups[i], groups[i + 1] - unit)
    ensures DuplicateKey(groups)
  {
    var j :| 0 <= j < |rows| && rows[j].lo == groups[i] && rows[j].top == groups[i + 1] - unit;
    assert RowOf(rows[j], data, groups[j], groups[j + 1], unit);
    assert groups[j] == groups[i] && groups[j + 1] == groups[i + 1];
  }

  /** A fresh key extends the run without duplicates by one pair. */
  lemma KeyFresh(rows: seq<Row>, data: seq<real>, groups: seq<real>, unit: real, i: int)
    requires TablePrefix(rows, data, groups, unit, i) && i + 1 < |groups|
    requires !HasKey(rows, groups[i], groups[i + 1] - unit)
    requires !DuplicateKeyBefore(groups, i)
    ensures !DuplicateKeyBefore(groups, i + 1)
  {
    forall a | 0 <= a < i
      ensures !(groups[a] == groups[i] && groups[a + 1] == groups[i + 1])
    {
      assert RowOf(rows[a], data, groups[a], groups[a + 1], unit);
    }
  }

  /** Increasing edges never repeat a key, so the table is always built. */
  lemma IncreasingEdgesHaveNoDuplicate(groups: seq<real>)
    requires forall a, b :: 0 <= a < b < |groups| ==> groups[a] < groups[b]
    ensures !DuplicateKey(groups)
  {
  }

  /** A repeated edge pair is a duplicate key: a zero width with three or more
      edges. */
  lemma ZeroWidthDuplicates(groups: seq<real>)
    requires |groups| >= 3
    requires forall j :: 0 < j < |groups| ==> groups[j] == groups[j - 1]
    ensures DuplicateKey(groups)
  {
    assert groups[0] == groups[1] == groups[2];
  }

  /** Cumulative frequencies never decrease. */
  lemma {:induction false} CumulativeMonotone(rows: seq<Row>, i: int, j: int)
    requires CumulativeChain(rows) && 0 <= i <= j < |rows|
    ensures rows[i].cumulative <= rows[j].cumulative
    decreases j - i
  {
    if i < j {
      CumulativeMonotone(rows, i, j - 1);
    }
  }

  /** On edges in increasing order, the cumulative frequency of row i counts
      the values in [first edge, edge i + 1). */
  lemma {:induction false} CumulativeCounts(rows: seq<Row>, data: seq<real>, groups: seq<real>, decimalPlaces: int, i: nat)
    requires IsTable(rows, data, groups, decimalPlaces)
    requires Ascending(groups)
    requires i < |rows|
    ensures rows[i].cumulative == CountIn(data, groups[0], groups[i + 1])
  {
    if i == 0 {
      assert RowOf(rows[0], data, groups[0], groups[1], ShiftDecimalPlaces(1.0, decimalPlaces));
    } else {
      CumulativeCounts(rows, data, groups, decimalPlaces, i - 1);
      CountInSplit(data, groups[0], groups[i], groups[i + 1]);
    }
  }

  /** When every value lies between the first and the last edge, the last
      cumulative frequency is the size of the sample. */
  lemma TableCountsEverything(rows: seq<Row>, data: seq<real>, groups: seq<real>, decimalPlaces: int)
    requires IsTable(rows, data, groups, decimalPlaces)
    requires Ascending(groups) && |rows| > 0
    requires forall i :: 0 <= i < |data| ==> groups[0] <= data[i] < groups[|groups| - 1]
    ensures Last(rows).cumulative == |data|
  {
    CumulativeCounts(rows, data, groups, decimalPlaces, |rows| - 1);
    CountInAll(data, groups[0], groups[|groups| - 1]);
  }

  // ----- grouped statistics -----

  function Last(rows: seq<Row>): Row
    requires |rows| > 0
  {
    rows[|rows| - 1]
  }

  /** The last cumulative frequency: the number of values in the table. */
  function TotalFrequency(rows: seq<Row>): nat
  {
    if |rows| == 0 then 0 else Last(rows).cumulative
  }

  /** `tableData.Sum(entry => entry.Value[3])`: the sum of f·x. */
  function TotalFx(rows: seq<Row>): real
  {
    if |rows| == 0 then 0.0 else TotalFx(rows[..|rows| - 1]) + Last(rows).fx
  }

  /** `tableData.Sum(entry => entry.Value[0] * Math.Pow(entry.Value[2], 2))`. */
  function TotalFxSquared(rows: seq<Row>): real
  {
    if |rows| == 0 then 0.0
    else TotalFxSquared(rows[..|rows| - 1]) + Mul(Last(rows).frequency as real, Mul(Last(rows).midpoint, Last(rows).midpoint))
  }

  /** The grouped sample: each midpoint repeated as often as its frequency. */
  function Expand(rows: seq<Row>): seq<real>
  {
    if |rows| == 0 then [] else Expand(rows[..|rows| - 1]) + Repeat(Last(rows).midpoint, Last(rows).frequency)
  }

  /** The table's totals are the count, the sum and the sum of squares of the
      grouped sample. */
  lemma ExpandTotals(rows: seq<Row>)
    requires Consistent(rows)
    ensures |Expand(rows)| == TotalFrequency(rows)
    ensures Sum(Expand(rows)) == TotalFx(rows)
    ensures Sum(Squares(Expand(rows))) == TotalFxSquared(rows)
  {
    ExpandCount(rows);
    ExpandSum(rows);
    ExpandSumSquares(rows);
  }

  /** A prefix of a consistent table is consistent. */
  lemma ConsistentPrefix(rows: seq<Row>)
    requires Consistent(rows) && |rows| > 0
    ensures Consistent(rows[..|rows| - 1])
  {
    var prefix := rows[..|rows| - 1];
    assert forall i :: 0 <= i < |prefix| ==> prefix[i] == rows[i];
  }

  lemma {:induction false} ExpandCount(rows: seq<Row>)
    requires CumulativeChain(rows)
    ensures |Expand(rows)| == TotalFrequency(rows)
    decreases |rows|
  {
    if |rows| > 0 {
      var prefix := rows[..|rows| - 1];
      assert CumulativeChain(prefix) by {
        assert forall i :: 0 <= i < |prefix| ==> prefix[i] == rows[i];
      }
      ExpandCount(prefix);
    }
  }

  lemma {:induction false} ExpandSum(rows: seq<Row>)
    requires Consistent(rows)
    ensures Sum(Expand(rows)) == TotalFx(rows)
    decreases |rows|
  {
    if |rows| > 0 {
      var prefix := rows[..|rows| - 1];
      ConsistentPrefix(rows);
      ExpandSum(prefix);
      var last := Last(rows);
      SumAppend(Expand(prefix), Repeat(last.midpoint, last.frequency));
      CopiesSums(last.midpoint, last.frequency);
    }
  }

  lemma {:induction false} ExpandSumSquares(rows: seq<Row>)
    requires Consistent(rows)
    ensures Sum(Squares(Expand(rows))) == TotalFxSquared(rows)
    decreases |rows|
  {
    if |rows| > 0 {
      var prefix := rows[..|rows| - 1];
      ConsistentPrefix(rows);
      ExpandSumSquares(prefix);
      var last := Last(rows);
      var copies := Repeat(last.midpoint, last.frequency);
      SquaresAppend(Expand(prefix), copies);
      SumAppend(Squares(Expand(prefix)), Squares(copies));
      CopiesSums(last.midpoint, last.frequency);
    }
  }

  /** GroupMean: the sum of f·x over the last cumulative frequency. `Last()`
      on an empty table throws; a zero total divides by zero and is
      excluded. */
  function GroupMean(tableData: seq<Row>): (r: Result<real>)
    requires |tableData| > 0 ==> Last(tableData).cumulative > 0
    ensures r.Err? <==> |tableData| == 0
    ensures r.Err? ==> r.error == InvalidOperation
  {
    if |tableData| == 0 then Err(InvalidOperation)
    else Ok(TotalFx(tableData) / (Last(tableData).cumulative as real))
  }

  /** The grouped mean is the mean of the grouped sample, so it lies between
      the smallest and the largest midpoint holding a value. */
  lemma GroupMeanIsMean(tableData: seq<Row>)
    requires Consistent(tableData) && |tableData| > 0 && Last(tableData).cumulative > 0
    ensures |Expand(tableData)| > 0
    ensures GroupMean(tableData).value == CalculateMean(Expand(tableData))
  {
    ExpandTotals(tableData);
  }

  /** GroupStandardDeviation up to its square root: (Σf·x² - (Σf·x)² / n) / (n - 1)
      with n the last cumulative frequency. `Last()` on an empty table
      throws; n of 0 or 1 divides by zero and is excluded. */
  function GroupVariance(tableData: seq<Row>): (r: Result<real>)
    requires |tableData| > 0 ==> Last(tableData).cumulative >= 2
    ensures r.Err? <==> |tableData| == 0
    ensures r.Err? ==> r.error == InvalidOperation
  {
    if |tableData| == 0 then Err(InvalidOperation)
    else
      var n := Last(tableData).cumulative as real;
      Ok(ShortcutVariance(n, TotalFx(tableData), TotalFxSquared(tableData)))
  }

  /** The radicand is the sample variance of the grouped sample, so it is
      never negative and the square root is defined. */
  lemma GroupVarianceIsSampleVariance(tableData: seq<Row>)
    requires Consistent(tableData) && |tableData| > 0 && Last(tableData).cumulative >= 2
    ensures |Expand(tableData)| >= 2
    ensures GroupVariance(tableData).value == CalculateSampleVariance(Expand(tableData))
    ensures GroupVariance(tableData).value >= 0.0
  {
    ExpandTotals(tableData);
    SameRadicand(Expand(tableData), Last(tableData).cumulative as real, TotalFx(tableData), TotalFxSquared(tableData));
  }

  lemma SameRadicand(e: seq<real>, n: real, t: real, s2: real)
    requires |e| >= 2 && |e| as real == n && Sum(e) == t && Sum(Squares(e)) == s2
    ensures CalculateSampleVariance(e) == ShortcutVariance(n, t, s2)
  {
    SampleVarianceFormula(e);
  }

  /** The sort key `grp => grp.Value[0]`, the frequency. */
  function Frequency(row: Row): int
  {
    row.frequency
  }

  /** GroupMode: the rows by descending frequency; the first two are
      compared. Fewer than two rows fail on `values[1]` (an empty table on
      `values[0]`); a tie is "no mode". Otherwise the result is the midpoint of
      the row with the highest frequency (the source returns its text). */
  function GroupMode(tableData: seq<Row>): (r: Result<real>)
    ensures r.Err? && r.error == ArgumentOutOfRange <==> |tableData| < 2
    ensures r.Ok? <==> |tableData| >= 2 && exists i :: UniqueTop(tableData, Frequency, i)
    ensures r.Ok? ==> exists i :: UniqueTop(tableData, Frequency, i) && r.value == tableData[i].midpoint
    ensures r.Err? && r.error == NoMode <==> |tableData| >= 2 && !exists i :: UniqueTop(tableData, Frequency, i)
  {
    var values := SortDescendingBy(tableData, Frequency);
    if |values| < 2 then Err(ArgumentOutOfRange)
    else
      TopOfDescending(tableData, Frequency);
      if values[0].frequency == values[1].frequency then Err(NoMode)
      else
        var i :| UniqueTop(tableData, Frequency, i);
        Ok(values[0].midpoint)
  }

  // ----- grouped median -----

  /** `First(entry => entry.Value[1] >= median)`: the index of the first row
      whose cumulative frequency reaches half, or the length if none does. */
  function FirstReaching(rows: seq<Row>, half: real): (m: nat)
    ensures m <= |rows|
    ensures m < |rows| ==> rows[m].cumulative as real >= half
    ensures forall j :: 0 <= j < m ==> (rows[j].cumulative as real) < half
  {
    if |rows| == 0 then 0
    else if rows[0].cumulative as real >= half then 0
    else 1 + FirstReaching(rows[1..], half)
  }

  /** `Where(entry => entry.Value[1] < median).Count()`. */
  function CountBelow(rows: seq<Row>, half: real): nat
  {
    if |rows| == 0 then 0
    else CountBelow(rows[..|rows| - 1], half) + (if (Last(rows).cumulative as real) < half then 1 else 0)
  }

  /** `LastOrDefault(entry => entry.Value[1] < median)`: the index of the
      last row below half, or -1 if none is. */
  function LastBelow(rows: seq<Row>, half: real): (k: int)
    ensures -1 <= k < |rows|
    ensures k >= 0 ==> (rows[k].cumulative as real) < half
  {
    if |rows| == 0 then -1
    else if (Last(rows).cumulative as real) < half then |rows| - 1
    else LastBelow(rows[..|rows| - 1], half)
  }

  /** Half the last cumulative frequency: `median` in the source. */
  function Half(rows: seq<Row>): real
    requires |rows| > 0
  {
    (Last(rows).cumulative as real) / 2.0
  }

  /** With cumulative frequencies in a running sum, the rows below half are
      exactly those before the median row m: m of them, the last at m - 1.
      The median row holds at least one value. */
  lemma MedianRow(rows: seq<Row>)
    requires CumulativeChain(rows) && |rows| > 0 && Last(rows).cumulative > 0
    ensures var m := FirstReaching(rows, Half(rows));
      m < |rows| && rows[m].frequency > 0 &&
      CountBelow(rows, Half(rows)) == m && LastBelow(rows, Half(rows)) == m - 1
  {
    var half := Half(rows);
    var m := FirstReaching(rows, half);
    assert m < |rows|;
    forall j | m <= j < |rows|
      ensures (rows[j].cumulative as real) >= half
    {
      CumulativeMonotone(rows, m, j);
    }
    BelowPrefix(rows, half, m, |rows|);
    assert rows[..|rows|] == rows;
  }

  /** Below-half rows form a prefix of length m: counting and finding the last
      one over the first n rows. */
  lemma {:induction false} BelowPrefix(rows: seq<Row>, half: real, m: nat, n: nat)
    requires m <= n <= |rows|
    requires forall j :: 0 <= j < m ==> (rows[j].cumulative as real) < half
    requires forall j :: m <= j < |rows| ==> (rows[j].cumulative as real) >= half
    ensures CountBelow(rows[..n], half) == m && LastBelow(rows[..n], half) == m - 1
    decreases n
  {
    if n > m {
      assert rows[..n][..n - 1] == rows[..n - 1];
      BelowPrefix(rows, half, m, n - 1);
    } else if m > 0 {
      BelowPrefixAll(rows, half, n - 1);
    } else {
      assert rows[..n] == [];
    }
  }

  lemma {:induction false} BelowPrefixAll(rows: seq<Row>, half: real, n: nat)
    requires n < |rows|
    requires forall j :: 0 <= j <= n ==> (rows[j].cumulative as real) < half
    ensures CountBelow(rows[..n + 1], half) == n + 1 && LastBelow(rows[..n + 1], half) == n
    decreases n
  {
    assert rows[..n + 1][..n] == rows[..n];
    if n > 0 {
      BelowPrefixAll(rows, half, n - 1);
    } else {
      assert rows[..0] == [];
    }
  }

  /** The formula of GroupMedian for a given cfp: the median row m is the
      first whose cumulative frequency reaches n / 2; its width is re-derived
      from its key as top - lo + 10^-decimalPlaces; the result is
      lo + ((n + 1) / 2 - cfp) / f * width. */
  function MedianEstimate(tableData: seq<Row>, decimalPlaces: int, cfp: real): real
    requires CumulativeChain(tableData) && |tableData| > 0 && Last(tableData).cumulative > 0
  {
    MedianRow(tableData);
    var n := Last(tableData).cumulative as real;
    var m := FirstReaching(tableData, Half(tableData));
    var width := tableData[m].top - tableData[m].lo + ShiftDecimalPlaces(1.0, decimalPlaces);
    Interpolate(tableData[m].lo, n, cfp, tableData[m].frequency as real, width)
  }

  /** lo + ((n + 1) / 2 - cfp) / f * width. */
  function Interpolate(lo: real, n: real, cfp: real, f: real, width: real): real
    requires f != 0.0
  {
    lo + Mul(Div((n + 1.0) / 2.0 - cfp, f), width)
  }

  /** The source's cfp: the cumulative frequency of the last row below n / 2
      when there are at least two such rows, otherwise that of the first row. */
  function SourceCfp(tableData: seq<Row>): (cfp: nat)
    requires CumulativeChain(tableData) && |tableData| > 0 && Last(tableData).cumulative > 0
    ensures (cfp as real) < Half(tableData) <==> FirstReaching(tableData, Half(tableData)) > 0
  {
    MedianRow(tableData);
    if CountBelow(tableData, Half(tableData)) > 1 then tableData[LastBelow(tableData, Half(tableData))].cumulative
    else tableData[0].cumulative
  }

  /** The cumulative frequency before the median row, 0 when that row is the
      first. */
  function PrecedingCfp(tableData: seq<Row>): (cfp: nat)
    requires CumulativeChain(tableData) && |tableData| > 0 && Last(tableData).cumulative > 0
    ensures (cfp as real) < Half(tableData)
  {
    MedianRow(tableData);
    var m := FirstReaching(tableData, Half(tableData));
    if m == 0 then 0 else tableData[m - 1].cumulative
  }

  /** The two cfp rules differ only when the median row is the first; there
      the source takes the row's own cumulative frequency, which is not below
      n / 2. */
  lemma CfpRules(tableData: seq<Row>)
    requires CumulativeChain(tableData) && |tableData| > 0 && Last(tableData).cumulative > 0
    ensures FirstReaching(tableData, Half(tableData)) > 0 ==> SourceCfp(tableData) == PrecedingCfp(tableData)
    ensures FirstReaching(tableData, Half(tableData)) == 0 ==>
              SourceCfp(tableData) == tableData[0].cumulative && (SourceCfp(tableData) as real) >= Half(tableData)
  {
    MedianRow(tableData);
  }

  /** GroupMedian as written. When the median row is the first one it takes
      that row's own cumulative frequency for cfp instead of 0. An empty table
      fails in `Last()`; a zero total divides by zero and is excluded. */
  function GroupMedian(tableData: seq<Row>, decimalPlaces: int): (r: Result<real>)
    requires CumulativeChain(tableData)
    requires |tableData| > 0 ==> Last(tableData).cumulative > 0
    ensures r.Err? <==> |tableData| == 0
    ensures r.Err? ==> r.error == InvalidOperation
  {
    if |tableData| == 0 then Err(InvalidOperation)
    else Ok(MedianEstimate(tableData, decimalPlaces, SourceCfp(tableData) as real))
  }

  /** The grouped median with cfp the cumulative frequency before the median
      row. With a positive width the estimate lies above the row's lower
      edge. */
  function GroupMedianCorrected(tableData: seq<Row>, decimalPlaces: int): (r: Result<real>)
    requires CumulativeChain(tableData)
    requires |tableData| > 0 ==> Last(tableData).cumulative > 0
    ensures r.Err? <==> |tableData| == 0
    ensures r.Err? ==> r.error == InvalidOperation
    ensures r.Ok? ==> var m := FirstReaching(tableData, Half(tableData));
      m < |tableData| &&
      (tableData[m].top - tableData[m].lo + ShiftDecimalPlaces(1.0, decimalPlaces) > 0.0 ==> tableData[m].lo < r.value)
  {
    if |tableData| == 0 then Err(InvalidOperation)
    else
      MedianAboveLowerEdge(tableData, decimalPlaces, PrecedingCfp(tableData) as real);
      Ok(MedianEstimate(tableData, decimalPlaces, PrecedingCfp(tableData) as real))
  }

  /** A cfp below n / 2 puts the estimate above the median row's lower edge. */
  lemma MedianAboveLowerEdge(tableData: seq<Row>, decimalPlaces: int, cfp: real)
    requires CumulativeChain(tableData) && |tableData| > 0 && Last(tableData).cumulative > 0
    requires cfp < Half(tableData)
    ensures var m := FirstReaching(tableData, Half(tableData));
      m < |tableData| &&
      (tableData[m].top - tableData[m].lo + ShiftDecimalPlaces(1.0, decimalPlaces) > 0.0 ==>
         tableData[m].lo < MedianEstimate(tableData, decimalPlaces, cfp))
  {
    MedianRow(tableData);
    var m := FirstReaching(tableData, Half(tableData));
    var width := tableData[m].top - tableData[m].lo + ShiftDecimalPlaces(1.0, decimalPlaces);
    MedianOffsetPositive(tableData[m].lo, Last(tableData).cumulative as real, cfp, tableData[m].frequency as real, width);
  }

  /** cfp below half the total leaves a positive offset into the group. */
  lemma MedianOffsetPositive(lo: real, n: real, cfp: real, fm: real, width: real)
    requires cfp < n / 2.0 && fm > 0.0
    ensures width > 0.0 ==> lo < Interpolate(lo, n, cfp, fm, width)
  {
    if width > 0.0 {
      assert (n + 1.0) / 2.0 - cfp > 0.0;
      assert Div((n + 1.0) / 2.0 - cfp, fm) > 0.0;
    }
  }

  /** The two agree whenever the median row is not the first. */
  lemma GroupMedianAgrees(tableData: seq<Row>, decimalPlaces: int)
    requires CumulativeChain(tableData) && |tableData| > 0 && Last(tableData).cumulative > 0
    requires FirstReaching(tableData, Half(tableData)) > 0
    ensures GroupMedian(tableData, decimalPlaces) == GroupMedianCorrected(tableData, decimalPlaces)
  {
    CfpRules(tableData);
  }

  /** As written, a single group [0, 9] of width 10 holding three values
      gives the median -10/3, below the group's lower edge; the corrected rule
      gives 20/3, inside it. */
  lemma GroupMedianFirstRowExample()
    ensures var table := [Row(0.0, 9.0, 3, 3, 4.5, 13.5, 60.75)];
      GroupMedian(table, 0) == Ok(-10.0 / 3.0) &&
      GroupMedianCorrected(table, 0) == Ok(20.0 / 3.0)
  {
    var table := [Row(0.0, 9.0, 3, 3, 4.5, 13.5, 60.75)];
    assert Power(0) == 1.0;
    assert FirstReaching(table, 1.5) == 0;
    assert CountBelow(table, 1.5) == 0 by {
      assert table[..0] == [];
    }
  }
}
