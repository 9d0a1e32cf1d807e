/** The one final rounding of every metric: round half to even of an exact rational. */
module Rounding {

  /** Values are rounded in millionths. */
  const MICROS := 1_000_000.0

  function RoundHalfEven(x: real): int {
    var q := x.Floor;
    var r := x - q as real;
    if r > 0.5 || (r == 0.5 && q % 2 == 1) then q + 1 else q
  }

  /** `y` is a nearest integer to `x`, the even one on a tie. */
  predicate NearestEven(x: real, y: int) {
    && -0.5 <= x - y as real <= 0.5
    && (x - y as real == 0.5 || x - y as real == -0.5 ==> y % 2 == 0)
  }

  /** Rounding is pinned down by what it promises. */
  lemma RoundsToNearestEven(x: real, y: int)
    ensures RoundHalfEven(x) == y <==> NearestEven(x, y)
  {
    var q := x.Floor;
    assert q as real <= x < q as real + 1.0;
    assert NearestEven(x, RoundHalfEven(x));
    if NearestEven(x, y) {
      var z := RoundHalfEven(x);
      assert -1.0 <= y as real - z as real <= 1.0;
      assert -1 <= y - z <= 1;
    }
  }

  lemma RoundIsMonotone(x: real, y: real)
    requires x <= y
    ensures RoundHalfEven(x) <= RoundHalfEven(y)
  {
    var a, b := RoundHalfEven(x), RoundHalfEven(y);
    RoundsToNearestEven(x, a);
    RoundsToNearestEven(y, b);
  }

  lemma RoundStaysInRange(x: real, low: int, high: int)
    requires low as real <= x <= high as real
    ensures low <= RoundHalfEven(x) <= high
  {
    RoundsToNearestEven(low as real, low);
    RoundsToNearestEven(high as real, high);
    RoundIsMonotone(low as real, x);
    RoundIsMonotone(x, high as real);
  }

  /** Values less than 1 apart round to integers at most 1 apart. */
  lemma CloseValuesRoundClose(x: real, y: real)
    requires x <= y < x + 1.0
    ensures RoundHalfEven(x) <= RoundHalfEven(y) <= RoundHalfEven(x) + 1
  {
    RoundIsMonotone(x, y);
    RoundIsMonotone(y, x + 1.0);
    var a := RoundHalfEven(x);
    RoundsToNearestEven(x, a);
    RoundsToNearestEven(x + 1.0, RoundHalfEven(x + 1.0));
    RoundsToNearestEven(y, RoundHalfEven(y));
  }
}
