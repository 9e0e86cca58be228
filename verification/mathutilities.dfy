/** The rounding helpers every other component uses (MathUtilities.cs),
    over exact real numbers. */
module MathUtilities {
  import opened Outcomes

  /** 10^p for a non-negative exponent. */
  function Pow10(p: nat): (r: nat)
    ensures r >= 1
  {
    if p == 0 then 1 else 10 * Pow10(p - 1)
  }

  /** Math.Pow(10, p) for any integer exponent: a negative one gives 1 / 10^-p. */
  function Power(p: int): (r: real)
    ensures r > 0.0
    ensures p < 0 ==> r * Pow10(-p) as real == 1.0
  {
    if p >= 0 then Pow10(p) as real else 1.0 / Pow10(-p) as real
  }

  function Abs(x: real): real { if x < 0.0 then -x else x }

  /** Math.Truncate: the integer part, rounding toward zero. */
  function Truncate(x: real): (t: int)
    ensures x >= 0.0 ==> 0 <= t && t as real <= x < t as real + 1.0
    ensures x < 0.0 ==> t <= 0 && t as real - 1.0 < x <= t as real
  {
    if x >= 0.0 then x.Floor else -((-x).Floor)
  }

  /** Math.Ceiling: the least integer not below x. */
  function Ceiling(x: real): (c: int)
    ensures c as real - 1.0 < x <= c as real
  {
    -((-x).Floor)
  }

  /** Math.Round(x) and Math.Round(x, 0): to the nearest integer, a tie going to the even neighbour. */
  function RoundHalfEven(x: real): (r: int)
    ensures Abs(r as real - x) <= 0.5
    ensures Abs(r as real - x) == 0.5 ==> r % 2 == 0
  {
    var f := x.Floor;
    var d := x - f as real;
    if d < 0.5 then f
    else if d > 0.5 then f + 1
    else if f % 2 == 0 then f else f + 1
  }

  /** Math.Round(y, MidpointRounding.AwayFromZero). */
  function AwayFromZero(y: real): (r: int)
    ensures Abs(r as real - y) <= 0.5
    ensures Abs(r as real - y) == 0.5 ==> Abs(r as real) > Abs(y)
  {
    if y >= 0.0 then (y + 0.5).Floor else -((-y + 0.5).Floor)
  }

  /** C#'s `/` on ints truncates toward zero (Dafny's `/` is Euclidean). */
  function TruncatedDiv(a: int, b: int): (q: int)
    requires b > 0
    ensures a >= 0 ==> 0 <= q && q * b <= a < q * b + b
    ensures a < 0 ==> q <= 0 && q * b - b < a <= q * b
  {
    if a >= 0 then EuclidBounds(a, b); a / b
    else EuclidBounds(-a, b); -((-a) / b)
  }

  lemma EuclidBounds(a: nat, b: int)
    requires b > 0
    ensures (a / b) * b <= a < (a / b) * b + b
  {
  }

  /** Whether num is a whole number (IsIntRemainder relates it to the remainder test). */
  predicate IsInt(num: real)
  {
    num == num.Floor as real
  }

  /** IsInt tests `Math.Abs(num % 1) <= double.Epsilon * 100`. `num % 1` on a double
      is what truncation toward zero leaves behind, and over the reals the
      tolerance is zero. */
  lemma IsIntRemainder(num: real)
    ensures IsInt(num) <==> num - Truncate(num) as real == 0.0
  {
    if IsInt(num) && num < 0.0 {
      FloorUnique(-num, -num.Floor);
    }
  }

  lemma WholeIsInt(k: int)
    ensures IsInt(k as real)
  {
    FloorUnique(k as real, k);
  }

  /** v is a whole number of units 1 / m. */
  predicate OnScale(v: real, m: real)
  {
    IsInt(v * m)
  }

  /** v is a whole number of units 10^-p, i.e. has at most p decimals. */
  predicate OnGrid(v: real, p: int)
  {
    OnScale(v, Power(p))
  }

  // ----- small facts of real arithmetic, stated once so that proofs can name them -----

  lemma FloorUnique(y: real, f: int)
    requires f as real <= y < f as real + 1.0
    ensures y.Floor == f
  {
  }

  lemma CeilingUnique(y: real, c: int)
    requires c as real - 1.0 < y <= c as real
    ensures Ceiling(y) == c
  {
    FloorUnique(-y, -c);
  }

  lemma DivCancel(a: real, m: real)
    requires m > 0.0
    ensures (a / m) * m == a
  {
  }

  lemma ScaleBack(v: real, m: real)
    requires m > 0.0
    ensures (v * m) / m == v
  {
  }

  /** Multiplying by a positive number keeps an ordering, both ways. */
  lemma Cancel(a: real, b: real, m: real)
    requires m > 0.0
    ensures a * m <= b * m <==> a <= b
    ensures a * m < b * m <==> a < b
  {
    if a > b { assert (a - b) * m > 0.0; }
    if a < b { assert (b - a) * m > 0.0; }
  }

  lemma DivAdd(a: real, b: real, m: real)
    requires m > 0.0
    ensures (a + b) / m == a / m + b / m
  {
  }

  lemma Distrib(a: real, b: real, m: real)
    ensures (a + b) * m == a * m + b * m
  {
  }

  lemma AbsMul(a: real, m: real)
    requires m > 0.0
    ensures Abs(a * m) == Abs(a) * m
  {
    Cancel(a, 0.0, m);
  }

  lemma AbsScale(a: real, b: real, m: real)
    requires m > 0.0
    ensures Abs(a * m) > Abs(b * m) <==> Abs(a) > Abs(b)
  {
    AbsMul(a, m);
    AbsMul(b, m);
    Cancel(Abs(b), Abs(a), m);
  }

  /** The solver does not always carry an equality between products into a
      function argument by itself; these lemmas do it by name. */
  lemma IsIntCongruence(a: real, b: real)
    requires a == b
    ensures IsInt(a) == IsInt(b)
  {
  }

  lemma CeilingCongruence(a: real, b: real)
    requires a == b
    ensures Ceiling(a) == Ceiling(b)
  {
  }

  lemma DivCongruence(a: real, b: real, m: real)
    requires m > 0.0 && a == b
    ensures a / m == b / m
  {
  }

  // ----- truncation and ceiling at scale m -----

  /** The arithmetic of RoundDown once its arguments are valid, at multiplier m. */
  function TruncateTo(num: real, m: real): real
    requires m > 0.0
  {
    Truncate(num * m) as real / m
  }

  /** The arithmetic of RoundUp once its arguments are valid, at multiplier m. */
  function CeilingTo(num: real, m: real): real
    requires m > 0.0
  {
    Ceiling(num * m) as real / m
  }

  lemma TruncateToBounds(num: real, m: real)
    requires m > 0.0
    ensures OnScale(TruncateTo(num, m), m)
    ensures Abs(TruncateTo(num, m)) <= Abs(num) < Abs(TruncateTo(num, m)) + 1.0 / m
    ensures num >= 0.0 ==> 0.0 <= TruncateTo(num, m) <= num
    ensures num < 0.0 ==> num <= TruncateTo(num, m) <= 0.0
  {
    var t := Truncate(num * m) as real;
    DivCancel(t, m);
    DivCancel(1.0, m);
    Cancel(0.0, num, m);
    Cancel(num, 0.0, m);
    if num >= 0.0 {
      TruncateNonNegative(num, m, t, TruncateTo(num, m));
    } else {
      TruncateNegative(num, m, t, TruncateTo(num, m));
    }
    TruncateToGrid(num, m);
  }

  lemma TruncateToGrid(num: real, m: real)
    requires m > 0.0
    ensures OnScale(TruncateTo(num, m), m)
  {
    DivCancel(Truncate(num * m) as real, m);
    WholeIsInt(Truncate(num * m));
    IsIntCongruence(TruncateTo(num, m) * m, Truncate(num * m) as real);
  }

  lemma TruncateNonNegative(num: real, m: real, t: real, v: real)
    requires m > 0.0 && v * m == t && (1.0 / m) * m == 1.0
    requires 0.0 <= t <= num * m < t + 1.0
    ensures 0.0 <= v <= num < v + 1.0 / m
  {
    Cancel(0.0, v, m);
    Cancel(v, num, m);
    Distrib(v, 1.0 / m, m);
    Cancel(num, v + 1.0 / m, m);
  }

  lemma TruncateNegative(num: real, m: real, t: real, v: real)
    requires m > 0.0 && v * m == t && (1.0 / m) * m == 1.0
    requires t - 1.0 < num * m <= t <= 0.0
    ensures v - 1.0 / m < num <= v <= 0.0
  {
    Cancel(v, 0.0, m);
    Cancel(num, v, m);
    Distrib(v, -(1.0 / m), m);
    Cancel(v - 1.0 / m, num, m);
  }

  lemma CeilingToBounds(num: real, m: real)
    requires m > 0.0
    ensures OnScale(CeilingTo(num, m), m)
    ensures num <= CeilingTo(num, m) < num + 1.0 / m
  {
    DivCancel(Ceiling(num * m) as real, m);
    DivCancel(1.0, m);
    Cancel(num, CeilingTo(num, m), m);
    Distrib(num, 1.0 / m, m);
    Cancel(CeilingTo(num, m), num + 1.0 / m, m);
    CeilingToGrid(num, m);
  }

  lemma CeilingToGrid(num: real, m: real)
    requires m > 0.0
    ensures OnScale(CeilingTo(num, m), m)
  {
    DivCancel(Ceiling(num * m) as real, m);
    WholeIsInt(Ceiling(num * m));
    IsIntCongruence(CeilingTo(num, m) * m, Ceiling(num * m) as real);
  }

  /** On the scale already, the ceiling changes nothing. */
  lemma CeilingToOnScale(v: real, m: real)
    requires m > 0.0 && OnScale(v, m)
    ensures CeilingTo(v, m) == v
  {
    var k := (v * m).Floor;
    CeilingUnique(v * m, k);
    DivCongruence(k as real, v * m, m);
    ScaleBack(v, m);
  }

  /** On the scale already, truncation changes nothing. */
  lemma TruncateToOnScale(v: real, m: real)
    requires m > 0.0 && OnScale(v, m)
    ensures TruncateTo(v, m) == v
  {
    var k := (v * m).Floor;
    IsIntRemainder(v * m);
    DivCongruence(k as real, v * m, m);
    ScaleBack(v, m);
  }

  /** Adding one unit 1 / m before the ceiling adds it after. */
  lemma CeilingShift(x: real, m: real, u: real)
    requires m > 0.0 && u * m == 1.0
    ensures CeilingTo(x + u, m) == CeilingTo(x, m) + u
  {
    Distrib(x, u, m);
    CeilingCongruence((x + u) * m, x * m + 1.0);
    CeilingUnique(x * m + 1.0, Ceiling(x * m) + 1);
    DivAdd(Ceiling(x * m) as real, 1.0, m);
    assert u == 1.0 / m;
  }

  // ----- the operations of MathUtilities.cs -----

  /** RoundDown: truncation toward zero at `decimalPlaces` decimals. */
  function RoundDown(num: real, decimalPlaces: int): (r: Result<real>)
    ensures r.Err? <==> decimalPlaces < 0
    ensures r.Err? ==> r.error == InvalidArgument
    ensures r.Ok? ==> OnGrid(r.value, decimalPlaces)
    ensures r.Ok? ==> Abs(r.value) <= Abs(num) < Abs(r.value) + 1.0 / Power(decimalPlaces)
    ensures r.Ok? && num >= 0.0 ==> 0.0 <= r.value <= num
    ensures r.Ok? && num < 0.0 ==> num <= r.value <= 0.0
  {
    if decimalPlaces < 0 then Err(InvalidArgument)
    else
      TruncateToBounds(num, Power(decimalPlaces));
      Ok(TruncateTo(num, Power(decimalPlaces)))
  }

  /** RoundUp: the ceiling at `decimalPlaces` decimals. */
  function RoundUp(num: real, decimalPlaces: int): (r: Result<real>)
    ensures r.Err? <==> decimalPlaces < 0
    ensures r.Err? ==> r.error == InvalidArgument
    ensures r.Ok? ==> OnGrid(r.value, decimalPlaces)
    ensures r.Ok? ==> num <= r.value < num + 1.0 / Power(decimalPlaces)
  {
    if decimalPlaces < 0 then Err(InvalidArgument)
    else
      CeilingToBounds(num, Power(decimalPlaces));
      Ok(CeilingTo(num, Power(decimalPlaces)))
  }

  /** At zero decimals, RoundDown is Math.Truncate and RoundUp is Math.Ceiling. */
  lemma WholeRounding(x: real)
    ensures RoundDown(x, 0) == Ok(Truncate(x) as real)
    ensures RoundUp(x, 0) == Ok(Ceiling(x) as real)
  {
    assert Power(0) == 1.0;
  }

  /** Rounding up a value already on the grid of 10^-p changes nothing. */
  lemma {:induction false} RoundUpIdempotent(x: real, p: int)
    requires p >= 0
    ensures RoundUp(RoundUp(x, p).value, p) == RoundUp(x, p)
  {
    CeilingToOnScale(RoundUp(x, p).value, Power(p));
  }

  /** Rounding down a value already on the grid of 10^-p changes nothing. */
  lemma {:induction false} RoundDownIdempotent(x: real, p: int)
    requires p >= 0
    ensures RoundDown(RoundDown(x, p).value, p) == RoundDown(x, p)
  {
    TruncateToOnScale(RoundDown(x, p).value, Power(p));
  }

  /** Round: to the nearest multiple of 10^-p, half away from zero; p is not validated. */
  function Round(num: real, decimalPlaces: int): (r: real)
    ensures OnGrid(r, decimalPlaces)
    ensures Abs(r - num) <= 0.5 / Power(decimalPlaces)
    ensures Abs(r - num) == 0.5 / Power(decimalPlaces) ==> Abs(r) > Abs(num)
  {
    var m := Power(decimalPlaces);
    var a := AwayFromZero(num * m);
    RoundAlgebra(num, m, a, a as real / m);
    a as real / m
  }

  /** The properties of Round, stated on r = a / m for a = AwayFromZero(num * m). */
  lemma RoundAlgebra(num: real, m: real, a: int, r: real)
    requires m > 0.0 && r == a as real / m
    requires Abs(a as real - num * m) <= 0.5
    requires Abs(a as real - num * m) == 0.5 ==> Abs(a as real) > Abs(num * m)
    ensures OnScale(r, m)
    ensures Abs(r - num) <= 0.5 / m
    ensures Abs(r - num) == 0.5 / m ==> Abs(r) > Abs(num)
  {
    DivCancel(a as real, m);
    WholeIsInt(a);
    IsIntCongruence(r * m, a as real);
    RoundDistance(num, m, a as real, r);
  }

  lemma RoundDistance(num: real, m: real, a: real, r: real)
    requires m > 0.0 && r * m == a
    requires Abs(a - num * m) <= 0.5
    requires Abs(a - num * m) == 0.5 ==> Abs(a) > Abs(num * m)
    ensures Abs(r - num) <= 0.5 / m
    ensures Abs(r - num) == 0.5 / m ==> Abs(r) > Abs(num)
  {
    ScaledDistance(num, m, a, r);
    DivCancel(0.5, m);
    Cancel(Abs(r - num), 0.5 / m, m);
    Cancel(0.5 / m, Abs(r - num), m);
    if Abs(r - num) == 0.5 / m {
      AbsCongruence(r * m, a);
      AbsScale(r, num, m);
    }
  }

  /** The distance to num scales with m. */
  lemma ScaledDistance(num: real, m: real, a: real, r: real)
    requires m > 0.0 && r * m == a
    ensures Abs(r - num) * m == Abs(a - num * m)
  {
    assert (r - num) * m == a - num * m by { Distrib(r, -num, m); }
    AbsMul(r - num, m);
    AbsCongruence((r - num) * m, a - num * m);
  }

  lemma AbsCongruence(a: real, b: real)
    requires a == b
    ensures Abs(a) == Abs(b)
  {
  }

  /** Half-way cases round away from zero in both directions. */
  lemma RoundExamples()
    ensures Round(2.5, 0) == 3.0
    ensures Round(-2.5, 0) == -3.0
    ensures Round(2.4, 0) == 2.0
    ensures Round(1.005, 2) == 1.01
  {
    FloorUnique(3.0, 3);
    FloorUnique(2.9, 2);
    FloorUnique(101.0, 101);
    assert Power(2) == 100.0;
  }

  /** ShiftDecimalPlaces: divide by 10^p; multiplying back recovers the input. */
  function ShiftDecimalPlaces(num: real, decimalPlaces: int): (r: real)
    ensures r * Power(decimalPlaces) == num
  {
    num / Power(decimalPlaces)
  }

  /** ShiftDecimalPlaces(1, p) is one unit at precision p: moving the input
      by it moves RoundUp's result by exactly it. */
  lemma {:induction false} UnitAtPrecision(p: nat, x: real)
    ensures RoundUp(x + ShiftDecimalPlaces(1.0, p), p).value == RoundUp(x, p).value + ShiftDecimalPlaces(1.0, p)
  {
    CeilingShift(x, Power(p), ShiftDecimalPlaces(1.0, p));
  }
}
