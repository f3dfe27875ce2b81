/** The explicit roundings of the limiter: `%.3f` and `%.6f` printing and the ceiling. */
module Rounding {

  /** Nearest integer, ties to even, as decimal printing of a float does. */
  function RoundHalfEven(x: real): (r: int)
    ensures x - 0.5 <= r as real <= x + 0.5
    ensures x - r as real == 0.5 || r as real - x == 0.5 ==> r % 2 == 0
  {
    var f := x.Floor;
    var d := x - f as real;
    if d < 0.5 || (d == 0.5 && f % 2 == 0) then f else f + 1
  }

  function Ceil(x: real): (c: int)
    ensures c as real - 1.0 < x <= c as real
  {
    -((-x).Floor)
  }

  /** Printing never reorders: it is monotone, and it fixes the integers. */
  lemma RoundingIsMonotone(x: real, y: real)
    requires x <= y
    ensures RoundHalfEven(x) <= RoundHalfEven(y)
    ensures x.Floor as real == x ==> RoundHalfEven(x) == x.Floor
  {
  }

  lemma ScaleMonotone(factor: real, x: real, y: real)
    requires factor >= 0.0 && x <= y
    ensures factor * x <= factor * y
    ensures factor > 0.0 && x < y ==> factor * x < factor * y
  {
    if factor > 0.0 && x < y {
      assert factor * (y - x) > 0.0;
    }
  }
}
