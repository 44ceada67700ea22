/**
 Decimal rounding as the TypeScript code does it, over exact reals:
 `Math.round(x * 10^d) / 10^d` and `Number(x.toFixed(d))`.
 */
module Rounding {

  // Math.round: the nearest integer, a tie going up.
  function RoundHalfUp(x: real): int {
    (x + 0.5).Floor
  }

  // Math.round(x * 100) / 100
  function RoundCents(x: real): real {
    RoundHalfUp(x * 100.0) as real / 100.0
  }

  // Math.round(x * 1e4) / 1e4
  function RoundBps(x: real): real {
    RoundHalfUp(x * 10000.0) as real / 10000.0
  }

  // Number(x.toFixed(2)): the nearest cent, a tie going away from zero.
  function ToFixed2(x: real): real {
    if x < 0.0 then -RoundCents(-x) else RoundCents(x)
  }

  // Number(x.toFixed(4))
  function ToFixed4(x: real): real {
    if x < 0.0 then -RoundBps(-x) else RoundBps(x)
  }

  function MaxReal(x: real, y: real): real {
    if x < y then y else x
  }

  function MinReal(x: real, y: real): real {
    if x <= y then x else y
  }

  function AbsReal(x: real): real {
    if x < 0.0 then -x else x
  }

  // Two numbers no further apart than e.
  predicate Near(x: real, y: real, e: real) {
    -e <= x - y <= e
  }

  // The nearest integer, a tie going up.
  lemma RoundsHalfUp(x: real)
    ensures RoundHalfUp(x) as real - 0.5 <= x < RoundHalfUp(x) as real + 0.5
  {
  }

  // Rounding to cents moves a value by at most half a cent, keeps the order of
  // values and gives a whole number of cents.
  lemma CentsError(x: real)
    ensures RoundCents(x) - 0.005 <= x < RoundCents(x) + 0.005 && Near(ToFixed2(x), x, 0.005)
    ensures (RoundCents(x) * 100.0).Floor as real == RoundCents(x) * 100.0
  {
    var n := RoundHalfUp(x * 100.0);
    assert RoundCents(x) * 100.0 == n as real;
  }

  lemma BpsError(x: real)
    ensures RoundBps(x) - 0.00005 <= x < RoundBps(x) + 0.00005 && Near(ToFixed4(x), x, 0.00005)
  {
  }

  // toFixed rounds a tie away from zero on both sides.
  lemma FixedIsOdd(x: real)
    requires x >= 0.0
    ensures ToFixed2(x) == RoundCents(x) && ToFixed2(-x) == -ToFixed2(x)
    ensures ToFixed4(x) == RoundBps(x) && ToFixed4(-x) == -ToFixed4(x)
  {
    assert RoundCents(0.0) == 0.0 && RoundBps(0.0) == 0.0;
  }

  lemma CentsMonotone(x: real, y: real)
    requires x <= y
    ensures RoundCents(x) <= RoundCents(y)
  {
    assert x * 100.0 + 0.5 <= y * 100.0 + 0.5;
    FloorMonotone(x * 100.0 + 0.5, y * 100.0 + 0.5);
  }

  lemma FloorMonotone(x: real, y: real)
    requires x <= y
    ensures x.Floor <= y.Floor
  {
    assert x.Floor as real <= y;
  }

  function Ceil(x: real): int {
    -(-x).Floor
  }

  // The least value that rounds to four decimals at or above a threshold: half a unit below the first
  // four-decimal number that is not below it.
  function BpsThreshold(threshold: real): real {
    Ceil(threshold * 10000.0) as real / 10000.0 - 0.00005
  }

  lemma BpsReaches(x: real, threshold: real)
    ensures RoundBps(x) >= threshold <==> x >= BpsThreshold(threshold)
  {
    var y, k := x * 10000.0 + 0.5, Ceil(threshold * 10000.0);
    assert RoundBps(x) >= threshold <==> y.Floor as real >= threshold * 10000.0;
    assert y.Floor as real >= threshold * 10000.0 <==> y.Floor >= k;
    assert y.Floor >= k <==> y >= k as real;
  }
}
