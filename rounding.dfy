/** Python's `round(x, 4)` on exact rationals (round half to even at the fourth
    decimal), and the two averaging helpers of the evaluation runner built on it. */
module Rounding {

  const Scale: real := 10000.0

  /** The integer nearest to `y`, ties to the even one. */
  function RoundHalfEven(y: real): (n: int)
    ensures -0.5 <= n as real - y <= 0.5
    ensures n as real - y == 0.5 || y - n as real == 0.5 ==> n % 2 == 0
  {
    var f := y.Floor;
    var frac := y - f as real;
    if frac < 0.5 then f
    else if frac > 0.5 then f + 1
    else if f % 2 == 0 then f else f + 1
  }

  /** `round(x, 4)`: a multiple of 1/10000 at most half a step from `x`. */
  function Round4(x: real): (r: real)
    ensures var n := RoundHalfEven(x * Scale); r == n as real / Scale
    ensures -0.00005 <= r - x <= 0.00005
  {
    RoundHalfEven(x * Scale) as real / Scale
  }

  /** A value already on the 1/10000 grid is left as it is. */
  lemma RoundExact(k: int)
    ensures Round4(k as real / Scale) == k as real / Scale
  {
    var y := (k as real / Scale) * Scale;
    assert y == k as real;
    var n := RoundHalfEven(y);
    assert n == k by {
      assert y.Floor == k;
    }
  }

  lemma RoundBounds(x: real)
    requires 0.0 <= x <= 1.0
    ensures 0.0 <= Round4(x) <= 1.0
  {
    var y := x * Scale;
    assert 0.0 <= y <= 10000.0;
    var n := RoundHalfEven(y);
    assert 0 <= y.Floor <= 10000;
    if y.Floor == 10000 {
      assert y == 10000.0;
    }
    assert 0 <= n <= 10000;
  }

  /** At most 0.9999 when `x` is less than 0.99995: rounding never turns a
      value more than half a step short of one into 1.0. */
  lemma RoundBelowOne(x: real)
    requires x * Scale < 9999.5
    ensures Round4(x) <= 0.9999
  {
    var y := x * Scale;
    var n := RoundHalfEven(y);
    assert y.Floor <= 9999;
    assert n <= 9999;
  }

  /** `_ratio`: 1.0 when the denominator is not positive. */
  function Ratio(numerator: int, denominator: int): real {
    if denominator <= 0 then 1.0 else Round4(numerator as real / denominator as real)
  }

  lemma RatioEmpty(numerator: int, denominator: int)
    requires denominator <= 0
    ensures Ratio(numerator, denominator) == 1.0
  {
  }

  lemma RatioBounds(numerator: int, denominator: int)
    requires 0 <= numerator <= denominator
    ensures 0.0 <= Ratio(numerator, denominator) <= 1.0
  {
    if denominator > 0 {
      QuotientBounds(numerator, denominator);
      RoundBounds(numerator as real / denominator as real);
    }
  }

  lemma RatioZero(denominator: int)
    requires denominator > 0
    ensures Ratio(0, denominator) == 0.0
  {
    assert 0 as real / denominator as real == 0 as real / Scale;
    RoundExact(0);
  }

  lemma QuotientBounds(numerator: int, denominator: int)
    requires 0 <= numerator <= denominator && 0 < denominator
    ensures 0.0 <= numerator as real / denominator as real <= 1.0
  {
  }

  /** With at most 19999 cases a ratio is 1.0 exactly when the count is
      complete, so the gates' comparisons with 1.0 mean "every case". */
  lemma RatioFull(numerator: int, denominator: int)
    requires 0 <= numerator <= denominator <= 19999
    ensures Ratio(numerator, denominator) == 1.0 <==> numerator == denominator
  {
    if denominator > 0 {
      if numerator == denominator {
        assert numerator as real / denominator as real == 1.0;
        RoundExact(10000);
      } else {
        StepShort(numerator, denominator);
        RoundBelowOne(numerator as real / denominator as real);
      }
    }
  }

  /** The bound of `RatioFull` is tight: 19999/20000 = 0.99995 rounds half-even to 1.0. */
  lemma RatioLimit()
    ensures Ratio(19999, 20000) == 1.0
  {
    var y := (19999 as real / 20000 as real) * Scale;
    assert y == 9999.5;
    assert y.Floor == 9999;
  }

  /** A count short of a denominator of at most 19999 stays more than half a
      rounding step below 1. */
  lemma StepShort(numerator: int, denominator: int)
    requires 0 <= numerator < denominator <= 19999
    ensures (numerator as real / denominator as real) * Scale < 9999.5
  {
    assert numerator * 20000 < 19999 * denominator;
    var d := denominator as real;
    var a := (numerator * 10000) as real;
    assert a < 9999.5 * d;
    assert (numerator as real / d) * Scale == a / d;
    DivBelow(a, d, 9999.5);
  }

  lemma DivBelow(a: real, d: real, c: real)
    requires d > 0.0 && a < c * d
    ensures a / d < c
  {
    var q := a / d;
    assert q * d == a;
    assert (q - c) * d == a - c * d;
  }

  function Sum(values: seq<real>): real {
    if values == [] then 0.0 else Sum(values[..|values| - 1]) + values[|values| - 1]
  }

  /** `_mean`: 1.0 for no values. */
  function Mean(values: seq<real>): real {
    if values == [] then 1.0 else Round4(Sum(values) / |values| as real)
  }

  lemma {:induction false} SumBounds(values: seq<real>)
    requires forall i | 0 <= i < |values| :: 0.0 <= values[i] <= 1.0
    ensures 0.0 <= Sum(values) <= |values| as real
  {
    if values != [] {
      SumBounds(values[..|values| - 1]);
    }
  }

  lemma MeanBounds(values: seq<real>)
    requires forall i | 0 <= i < |values| :: 0.0 <= values[i] <= 1.0
    ensures 0.0 <= Mean(values) <= 1.0
    ensures values == [] ==> Mean(values) == 1.0
  {
    if values != [] {
      SumBounds(values);
      var n := |values| as real;
      assert 0.0 <= Sum(values) / n <= 1.0 by {
        assert Sum(values) <= n;
      }
      RoundBounds(Sum(values) / n);
    }
  }
}
