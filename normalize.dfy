/** Price and quantity helpers of the stop manager: rounding a stop price to
    cents, recognising fractional share quantities, the time-in-force rule the
    broker imposes on stop orders, and the whole-share quantity used for a
    trailing stop. Prices and quantities are exact rationals. */
module Normalize {
  import opened Types

  /** `x` has no fractional part. */
  predicate IsWhole(x: real)
  {
    x.Floor as real == x
  }

  function Abs(x: real): real
  {
    if x < 0.0 then -x else x
  }

  /** Conversion of a number to an integer by dropping its fractional part
      (towards zero), as `int(x)` does. */
  function Trunc(x: real): (r: int)
    ensures Abs(r as real) <= Abs(x) < Abs(r as real) + 1.0
    ensures 0.0 <= x ==> 0 <= r
    ensures x <= 0.0 ==> r <= 0
  {
    if x >= 0.0 then x.Floor else -((-x).Floor)
  }

  /** Dropping the fractional part leaves exactly the whole numbers unchanged. */
  lemma TruncExact(x: real)
    ensures Trunc(x) as real == x <==> IsWhole(x)
  {
    var t := Trunc(x);
    if t as real == x {
      assert (t as real).Floor == t;
    }
    if IsWhole(x) {
      var m := x.Floor;
      assert -x == (-m) as real;
      assert ((-m) as real).Floor == -m;
    }
  }

  /** A quantity is fractional when dropping its fractional part changes it. */
  function IsFractional(qty: real): (r: bool)
    ensures r <==> !IsWhole(qty)
  {
    TruncExact(qty);
    Trunc(qty) as real != qty
  }

  /** Stop orders for a fractional quantity must be DAY orders; whole
      quantities use GTC. */
  function TifForStop(qty: real): (r: TimeInForce)
    ensures r == Day <==> !IsWhole(qty)
    ensures r == Gtc <==> IsWhole(qty)
  {
    if IsFractional(qty) then Day else Gtc
  }

  /** The number of cents nearest to the amount `x`, ties away from zero. */
  function RoundCents(x: real): (k: int)
    ensures -0.5 <= k as real - x * 100.0 <= 0.5
    ensures k as real - x * 100.0 == 0.5 ==> x > 0.0
    ensures k as real - x * 100.0 == -0.5 ==> x < 0.0
  {
    if x >= 0.0 then (x * 100.0 + 0.5).Floor else -((-x) * 100.0 + 0.5).Floor
  }

  /** Rounding to two decimal places, ties away from zero (half-up on the
      magnitude). The result is a whole number of cents, at most half a cent
      from `x`, and a result exactly half a cent away lies further from zero
      than `x`. */
  function Round2(x: real): (r: real)
    ensures IsWhole(r * 100.0)
    ensures -0.005 <= r - x <= 0.005
    ensures r - x == 0.005 ==> x > 0.0
    ensures r - x == -0.005 ==> x < 0.0
  {
    var k := RoundCents(x);
    assert (k as real / 100.0) * 100.0 == k as real;
    k as real / 100.0
  }

  /** The contract of Round2 determines it: any whole number of cents that is
      within half a cent of `x`, and further from zero on a tie, is Round2(x). */
  lemma Round2Unique(x: real, c: real)
    requires IsWhole(c * 100.0)
    requires -0.005 <= c - x <= 0.005
    requires c - x == 0.005 ==> x > 0.0
    requires c - x == -0.005 ==> x < 0.0
    ensures c == Round2(x)
  {
    var r := Round2(x);
    var k, m := (r * 100.0).Floor, (c * 100.0).Floor;
    assert k as real == r * 100.0 && m as real == c * 100.0;
    assert -1.0 <= (k - m) as real <= 1.0;
    assert k == m;
  }

  /** Worked cases of the rounding rule. */
  lemma Round2Examples()
    ensures Round2(19.995) == 20.00
    ensures Round2(19.994) == 19.99
    ensures Round2(-19.995) == -20.00
    ensures Round2(90.0) == 90.00
  {
    Round2Unique(19.995, 20.00);
    Round2Unique(19.994, 19.99);
    Round2Unique(-19.995, -20.00);
    Round2Unique(90.0, 90.00);
  }

  /** The quantity of a trailing stop, which the broker accepts only for whole
      shares: a whole quantity is kept, a fractional one is rounded down, and
      when rounding down leaves no share there is no trailing order. */
  function TrailingQty(qty: real): (r: Option<real>)
    ensures !IsFractional(qty) ==> r == Some(qty)
    ensures r.Some? ==> IsWhole(r.value) && r.value <= qty < r.value + 1.0
    ensures r.None? <==> IsFractional(qty) && qty < 1.0
    ensures r.Some? && IsFractional(qty) ==> r.value >= 1.0 && r.value == qty.Floor as real
  {
    if IsFractional(qty) then
      var q := qty.Floor as real;
      if q <= 0.0 then None else Some(q)
    else Some(qty)
  }
}
