/**
  Exact decimal arithmetic. Amounts and rates are exact rationals (`real`);
  the one rounding mode the service uses, "half up" at a fixed number of
  decimal places, is defined here together with the property that
  characterises it.
 */
module Decimal {

  function Pow10(n: nat): (r: nat)
    ensures r >= 1
  {
    if n == 0 then 1 else 10 * Pow10(n - 1)
  }

  function Abs(x: real): real {
    if x < 0.0 then -x else x
  }

  predicate IsWhole(z: real) {
    z.Floor as real == z
  }

  /** `y` has at most `places` decimal places: `y * 10^places` is a whole number. */
  predicate HasScale(y: real, places: nat) {
    IsWhole(y * Pow10(places) as real)
  }

  /** Half-up rounding of an already scaled value to a whole number of units. */
  function RoundUnits(xs: real): int {
    if xs >= 0.0 then (xs + 0.5).Floor else -((-xs) + 0.5).Floor
  }

  /**
    Rounding to `places` decimal places with ties away from zero, as done by
    `setScale(places, HALF_UP)` and `divide(divisor, places, HALF_UP)`.
   */
  function RoundHalfUp(x: real, places: nat): real {
    RoundUnits(x * (Pow10(places) as real)) as real / (Pow10(places) as real)
  }

  /**
    `ys` is a half-up rounding of `xs` to whole units: it is whole, within half
    a unit of `xs`, and on an exact tie it is the candidate farther from zero.
   */
  ghost predicate IsHalfUpUnits(xs: real, ys: real) {
    && IsWhole(ys)
    && -0.5 <= ys - xs <= 0.5
    && (Abs(ys - xs) == 0.5 ==> Abs(ys) > Abs(xs))
  }

  /**
    Independent description of a half-up rounding of `x` to `places` places,
    stated on the values scaled by `10^places`.
   */
  ghost predicate IsHalfUpRounding(x: real, places: nat, y: real) {
    IsHalfUpUnits(x * (Pow10(places) as real), y * (Pow10(places) as real))
  }

  lemma WholeOfInt(n: int)
    ensures IsWhole(n as real)
  {
  }

  lemma FloorCharacterisation(z: real, k: int)
    requires z - 1.0 < k as real <= z
    ensures k == z.Floor
  {
  }

  lemma {:induction false} RoundUnitsIsHalfUp(xs: real)
    ensures IsHalfUpUnits(xs, RoundUnits(xs) as real)
  {
    WholeOfInt(RoundUnits(xs));
  }

  lemma {:induction false} HalfUpUnitsIsUnique(xs: real, ys: real)
    requires IsHalfUpUnits(xs, ys)
    ensures ys == RoundUnits(xs) as real
  {
    var k := ys.Floor;
    if xs >= 0.0 {
      FloorCharacterisation(xs + 0.5, k);
    } else {
      FloorCharacterisation(-xs + 0.5, -k);
    }
  }

  /** Scaling by a positive factor and back is exact. */
  lemma ScaleBack(k: real, s: real)
    requires s > 0.0
    ensures (k / s) * s == k
  {
  }

  /** `RoundHalfUp` meets the half-up description for every input. */
  lemma RoundHalfUpIsHalfUpRounding(x: real, places: nat)
    ensures IsHalfUpRounding(x, places, RoundHalfUp(x, places))
  {
    var k := RoundUnits(x * (Pow10(places) as real)) as real;
    RoundUnitsIsHalfUp(x * (Pow10(places) as real));
    assert RoundHalfUp(x, places) == k / (Pow10(places) as real);
    ScaleBack(k, Pow10(places) as real);
    assert RoundHalfUp(x, places) * (Pow10(places) as real) == k;
  }

  /** Any value meeting the half-up description is the one `RoundHalfUp` returns. */
  lemma HalfUpRoundingIsUnique(x: real, places: nat, y: real)
    requires IsHalfUpRounding(x, places, y)
    ensures y == RoundHalfUp(x, places)
  {
    var ys := y * (Pow10(places) as real);
    HalfUpUnitsIsUnique(x * (Pow10(places) as real), ys);
    var k := RoundUnits(x * (Pow10(places) as real)) as real;
    assert ys == k;
    DivideBack(y, Pow10(places) as real);
    assert RoundHalfUp(x, places) == k / (Pow10(places) as real);
  }

  /** Multiplying by a positive factor and dividing again is exact. */
  lemma DivideBack(y: real, s: real)
    requires s > 0.0
    ensures (y * s) / s == y
  {
  }

  /** A value that already has `places` places is left unchanged. */
  lemma RoundHalfUpExact(x: real, places: nat)
    requires HasScale(x, places)
    ensures RoundHalfUp(x, places) == x
  {
    assert IsHalfUpRounding(x, places, x);
    HalfUpRoundingIsUnique(x, places, x);
  }
}
