/** Percentages as the analytics compute them: `(part / whole) * 100` on exact
    rationals, usually rounded to hundredths afterwards. */
module Ratio {
  import opened Rounding

  /** `(part / whole) * 100` */
  function Percent(part: real, whole: real): real
    requires whole != 0.0
  {
    part / whole * 100.0
  }

  /** A part of the whole is between 0 and 100 percent of it. */
  lemma PercentInRange(part: real, whole: real)
    requires whole > 0.0 && 0.0 <= part <= whole
    ensures 0.0 <= Percent(part, whole) <= 100.0
  {
    assert part / whole <= 1.0;
  }

  /** Percentages of the same whole add up like their parts. */
  lemma PercentAdd(a: real, b: real, whole: real)
    requires whole != 0.0
    ensures Percent(a, whole) + Percent(b, whole) == Percent(a + b, whole)
  {
  }

  lemma PercentOfWhole(whole: real)
    requires whole != 0.0
    ensures Percent(whole, whole) == 100.0
  {
  }

  /** A count of `c` out of 100 is exactly `c` percent, also after rounding. */
  lemma WholePercent(c: nat)
    ensures RoundTo2(Percent(c as real, 100.0)) == c as real
  {
    assert Percent(c as real, 100.0) * 100.0 == (100 * c) as real;
    RoundOfInteger(100 * c);
  }
}
