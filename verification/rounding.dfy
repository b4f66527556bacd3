/** Python's built-in `round` on exact rational values.

    `round(x)` returns the nearest integer and resolves an exact tie towards the
    even neighbour; `round(x, 2)` does the same in units of one hundredth. The
    service applies both to floats; here they are applied to the exact rational
    the float approximates. */
module Rounding {

  /** `round(x)`: the integer nearest to `x`, ties going to the even integer. */
  function RoundHalfEven(x: real): (r: int)
    ensures -0.5 <= r as real - x <= 0.5
    ensures x - x.Floor as real == 0.5 ==> r % 2 == 0
  {
    var f := x.Floor;
    var d := x - f as real;
    if d < 0.5 then f
    else if d > 0.5 then f + 1
    else if f % 2 == 0 then f
    else f + 1
  }

  /** A value that is already an integer rounds to itself. */
  lemma RoundOfInteger(m: int)
    ensures RoundHalfEven(m as real) == m
  {
    var r := RoundHalfEven(m as real);
    assert -1 < r - m < 1;
  }

  /** The number of hundredths `round(x, 2)` keeps. */
  function Hundredths(x: real): (h: int)
    ensures -0.5 <= h as real - x * 100.0 <= 0.5
  {
    RoundHalfEven(x * 100.0)
  }

  /** `round(x, 2)`: the multiple of 0.01 nearest to `x`. */
  function RoundTo2(x: real): (r: real)
    ensures -0.005 <= r - x <= 0.005
    ensures r * 100.0 == Hundredths(x) as real
  {
    Hundredths(x) as real / 100.0
  }

  /** Rounding never leaves the percentage range: a value in [0, 100] rounds to
      a value in [0, 100]. */
  lemma RoundTo2InRange(x: real)
    requires 0.0 <= x <= 100.0
    ensures 0.0 <= RoundTo2(x) <= 100.0
  {
    var h := Hundredths(x);
    assert -0.5 < h as real && h as real < 10000.5;
    assert 0 <= h <= 10000;
  }

  /** A rounded value strictly above the threshold `t` hundredths comes from an
      unrounded value at least half a hundredth above it: rounding only produces
      multiples of 0.01, so the next one up is `t + 1` hundredths. */
  lemma RoundTo2Above(x: real, t: int)
    requires RoundTo2(x) > t as real / 100.0
    ensures x * 100.0 >= t as real + 0.5
  {
    var h := Hundredths(x);
    assert h as real > t as real;
    assert h >= t + 1;
  }
}
