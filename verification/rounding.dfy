/** PHP's round() on exact rationals: every percentage the checks compare against a
    threshold is first rounded to two places, halves away from zero. Values are
    kept as integers counting hundredths. */
module Rounding {

  /** True when `q` is n/d rounded to the nearest integer with halves away from zero. */
  ghost predicate IsRounded(n: int, d: int, q: int)
    requires d > 0
  {
    if n >= 0 then -d <= 2 * (n - q * d) < d else -d < 2 * (n - q * d) <= d
  }

  /** n/d rounded to the nearest integer, halves away from zero. */
  function RoundDiv(n: int, d: int): (q: int)
    requires d > 0
    ensures IsRounded(n, d, q)
    ensures n >= 0 ==> q >= 0
    ensures n <= 0 ==> q <= 0
  {
    if n >= 0 then
      var q := (2 * n + d) / (2 * d);
      assert 2 * n + d == q * (2 * d) + (2 * n + d) % (2 * d);
      q
    else
      var p := (2 * -n + d) / (2 * d);
      assert 2 * -n + d == p * (2 * d) + (2 * -n + d) % (2 * d);
      -p
  }

  /** There is only one correctly rounded value, so RoundDiv is fully specified by IsRounded. */
  lemma RoundedIsUnique(n: int, d: int, q1: int, q2: int)
    requires d > 0
    requires IsRounded(n, d, q1) && IsRounded(n, d, q2)
    ensures q1 == q2
  {
    if q1 < q2 {
      MulMonotone(q1 + 1, q2, d);
    } else if q2 < q1 {
      MulMonotone(q2 + 1, q1, d);
    }
  }

  lemma MulMonotone(a: int, b: int, d: int)
    requires a <= b && d > 0
    ensures a * d <= b * d
  {
  }

  /** round(part / whole * 100, 2), counted in hundredths of a percent. */
  function Percent(part: int, whole: int): (h: int)
    requires whole > 0
    ensures IsRounded(part * 10000, whole, h)
  {
    RoundDiv(part * 10000, whole)
  }

  /** Comparing the rounded percentage against a threshold of `t` hundredths is the
      same as an exact comparison of the unrounded ratio against t - 1/2 hundredths.
      For the checks' 90% limits (t = 9000) this reads 20000 * part < 17999 * whole. */
  lemma PercentBelow(part: int, whole: int, t: int)
    requires whole > 0 && t >= 1
    ensures Percent(part, whole) < t <==> 20000 * part < (2 * t - 1) * whole
  {
    var n := part * 10000;
    var q := Percent(part, whole);
    if part >= 0 {
      if q < t {
        MulMonotone(q, t - 1, whole);
      } else {
        MulMonotone(t, q, whole);
      }
    } else {
      assert n < 0;
      if q >= 1 {
        MulMonotone(1, q, whole);
      }
    }
  }

  /** A real rounded to two places, in hundredths, halves away from zero. */
  function RoundReal(x: real): (h: int)
    ensures x >= 0.0 ==> h as real <= 100.0 * x + 0.5 < h as real + 1.0
    ensures x < 0.0 ==> h as real - 1.0 < 100.0 * x - 0.5 <= h as real
  {
    if x >= 0.0 then (100.0 * x + 0.5).Floor else -((-100.0 * x + 0.5).Floor)
  }
}
