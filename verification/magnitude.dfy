/** Magnitude classification of the rounded value: the digit-count part of
    `is_01_to_99`.

    The value is scaled to `|rounded| * 100` and floor-divided by 10 until it
    reaches zero; two, three or four passes mean the rounded magnitude lies
    in [0.1, 100) and can be shown in plain decimal form. Reals are exact
    here, so the scaling and each floor division are the mathematical ones.
 */
module Magnitude {

  function Abs(x: real): real {
    if x < 0.0 then -x else x
  }

  function Pow10(k: nat): (r: nat)
    ensures r >= 1
  {
    if k == 0 then 1 else 10 * Pow10(k - 1)
  }

  function Ceil(x: real): int {
    -((-x).Floor)
  }

  /** One pass of the loop: `num // 10` on a non-negative value. */
  function DropDigit(x: real): (y: real)
    requires x >= 0.0
    ensures 0.0 <= y && y == y.Floor as real
    ensures x > 0.0 ==> Ceil(y) < Ceil(x)
  {
    ((x / 10.0).Floor) as real
  }

  /** How many passes of `num = num // 10` run while `num > 0`. */
  function Passes(x: real): nat
    requires x >= 0.0
    decreases Ceil(x)
  {
    if x > 0.0 then 1 + Passes(DropDigit(x)) else 0
  }

  /** For integral values no pass is needed exactly at zero. */
  lemma PassesZero(y: real)
    requires y >= 0.0 && y == y.Floor as real
    ensures Passes(y) == 0 <==> y < 1.0
  {
  }

  /** Below an integer bound, a value and its floor agree. */
  lemma DropDigitBelow(x: real, n: int)
    requires x >= 0.0
    ensures DropDigit(x) < n as real <==> x < 10.0 * (n as real)
  {
    var z := x / 10.0;
    assert z.Floor as real <= z < z.Floor as real + 1.0;
    assert z.Floor < n <==> z < n as real;
  }

  /** The pass count of `x` is at most `k` exactly when `x < 10^k`: the
      count is the number of decimal digits of `floor(x)`, and 1 for a
      positive `x` below 1. */
  lemma {:induction false} PassesBelow(x: real, k: nat)
    requires x >= 0.0 && k >= 1
    ensures Passes(x) <= k <==> x < Pow10(k) as real
    decreases k
  {
    if x > 0.0 {
      var y := DropDigit(x);
      assert Passes(x) == 1 + Passes(y);
      if k == 1 {
        PassesZero(y);
        DropDigitBelow(x, 1);
      } else {
        PassesBelow(y, k - 1);
        var n := Pow10(k - 1);
        DropDigitBelow(x, n);
        assert Pow10(k) as real == 10.0 * (n as real);
      }
    }
  }

  /** Lines 147-152: the floor-divide-by-10 digit count of a non-negative value. */
  method CountDigits(x: real) returns (count: nat)
    requires x >= 0.0
    ensures count == 0 <==> x == 0.0
    ensures forall k: nat :: k >= 1 ==> (count <= k <==> x < Pow10(k) as real)
  {
    var num := x;
    count := 0;
    while num > 0.0
      invariant num >= 0.0
      invariant count + Passes(num) == Passes(x)
      decreases Ceil(num)
    {
      count := count + 1;
      num := DropDigit(num);
    }
    forall k: nat | k >= 1
      ensures count <= k <==> x < Pow10(k) as real
    {
      PassesBelow(x, k);
    }
  }

  /** The range shown without an exponent: `0.1 <= |r| < 100`. */
  predicate InDecimalRange(r: real) {
    0.1 <= Abs(r) < 100.0
  }

  /** `is_01_to_99`: `roundSig` stands for the exponential formatting,
      mantissa rounding and re-parsing of lines 139-143. The classification
      is decided on the rounded value, which is handed back unchanged. */
  method IsOneTenthToHundred(num: real, precision: nat, roundSig: (real, nat) -> real)
    returns (inRange: bool, rounded: real)
    ensures rounded == roundSig(num, precision)
    ensures inRange <==> InDecimalRange(rounded)
  {
    rounded := roundSig(num, precision);
    var scaled := Abs(rounded * 100.0);
    var count := CountDigits(scaled);
    assert scaled == Abs(rounded) * 100.0;
    assert count <= 1 <==> scaled < 10.0 by {
      assert Pow10(1) == 10;
    }
    assert count <= 4 <==> scaled < 10000.0 by {
      assert Pow10(4) == 10000;
    }
    inRange := count == 2 || count == 3 || count == 4;
  }

  /** The magnitude at which rounding tips a value over the upper bound:
      a rounded value of exactly 100 goes to scientific form. */
  lemma DecimalRangeBounds()
    ensures InDecimalRange(0.1) && InDecimalRange(-99.9)
    ensures !InDecimalRange(100.0) && !InDecimalRange(0.0) && !InDecimalRange(0.09)
  {
  }
}
