/** Limit records and the slope-intercept interpolation of the CG envelope.
    The envelope is the quadrilateral in the (CG, weight) plane whose
    corners are (forward, weight) and (aft, weight) of a minimum and a
    maximum limit record. */
module Envelope {
  import opened Options

  /** A limit record; an unset field (a not-a-number in the original) is None. */
  datatype WeightAndBalanceLimit =
    Limit(weight: Option<real>, forwardLimit: Option<real>, aftLimit: Option<real>)

  /** A default-constructed limit: every field unset. */
  const DEFAULT_LIMIT: WeightAndBalanceLimit := Limit(None, None, None)

  predicate IsLimitComplete(l: WeightAndBalanceLimit) {
    l.weight.Some? && l.forwardLimit.Some? && l.aftLimit.Some?
  }

  lemma DefaultLimitIncomplete()
    ensures !IsLimitComplete(DEFAULT_LIMIT)
    ensures DEFAULT_LIMIT.weight.None? && DEFAULT_LIMIT.forwardLimit.None?
            && DEFAULT_LIMIT.aftLimit.None?
  {
  }

  /** The point on the line through (x1, y1) and (x2, y2) whose y is `weight`,
      with x a CG limit and y a weight. Equal x values (a vertical CG line)
      give x1 for every weight. Otherwise the slope (y2 - y1) / (x2 - x1) is
      inverted; when it is zero (equal weights) the original divides by zero,
      and an unset operand makes the result a not-a-number: both are None. */
  function SlopeInterceptLimit(weight: real, x1: Option<real>, y1: Option<real>,
                               x2: Option<real>, y2: Option<real>): (r: Option<real>)
    ensures x1.Some? && x2.Some? && x1.value == x2.value ==> r == x1
    ensures r.Some? ==> x1.Some? && x2.Some?
    ensures r.Some? && x1.value != x2.value ==>
      y1.Some? && y2.Some? && y1.value != y2.value
    ensures x1.Some? && x2.Some? && y1.Some? && y2.Some?
            && x1.value != x2.value && y1.value != y2.value ==>
      r.Some? &&
      (r.value - x1.value) * (y2.value - y1.value) == (weight - y1.value) * (x2.value - x1.value)
  {
    if x1.Some? && x2.Some? && x1.value == x2.value then
      x1
    else if x1.Some? && x2.Some? && y1.Some? && y2.Some? && y1.value != y2.value then
      var slope := (y2.value - y1.value) / (x2.value - x1.value);
      var intercept := y1.value - slope * x1.value;
      assert slope != 0.0;
      LineLemma(weight, x1.value, y1.value, x2.value, y2.value, slope, intercept);
      Some((weight - intercept) / slope)
    else
      None
  }

  lemma LineLemma(w: real, x1: real, y1: real, x2: real, y2: real, slope: real, intercept: real)
    requires x1 != x2 && slope == (y2 - y1) / (x2 - x1) && slope != 0.0
    requires intercept == y1 - slope * x1
    ensures ((w - intercept) / slope - x1) * (y2 - y1) == (w - y1) * (x2 - x1)
  {
    var r := (w - intercept) / slope;
    assert r * slope == w - intercept;
    assert (r - x1) * slope == w - y1;
    assert y2 - y1 == slope * (x2 - x1);
    calc {
      (r - x1) * (y2 - y1);
      (r - x1) * (slope * (x2 - x1));
      ((r - x1) * slope) * (x2 - x1);
      (w - y1) * (x2 - x1);
    }
  }

  /** Linear interpolation between a at weight ya and b at weight yb. */
  function Lerp(w: real, a: real, ya: real, b: real, yb: real): real
    requires ya != yb
  {
    a + (w - ya) * (b - a) / (yb - ya)
  }

  /** With both weights set and distinct, the interpolated limit is the
      two-point linear interpolation, whether or not the CG limits are equal. */
  lemma SlopeInterceptIsLerp(w: real, x1: real, y1: real, x2: real, y2: real)
    requires y1 != y2
    ensures SlopeInterceptLimit(w, Some(x1), Some(y1), Some(x2), Some(y2))
         == Some(Lerp(w, x1, y1, x2, y2))
  {
    var r := SlopeInterceptLimit(w, Some(x1), Some(y1), Some(x2), Some(y2));
    if x1 != x2 {
      var v := r.value;
      assert (v - x1) * (y2 - y1) == (w - y1) * (x2 - x1);
      assert v - x1 == (w - y1) * (x2 - x1) / (y2 - y1);
    }
  }

  /** The interpolated line passes through both limit records. */
  lemma SlopeInterceptEndpoints(x1: real, y1: real, x2: real, y2: real)
    requires y1 != y2
    ensures SlopeInterceptLimit(y1, Some(x1), Some(y1), Some(x2), Some(y2)) == Some(x1)
    ensures SlopeInterceptLimit(y2, Some(x1), Some(y1), Some(x2), Some(y2)) == Some(x2)
  {
    SlopeInterceptIsLerp(y1, x1, y1, x2, y2);
    SlopeInterceptIsLerp(y2, x1, y1, x2, y2);
    assert (y2 - y1) * (x2 - x1) / (y2 - y1) == x2 - x1;
  }

  /** Equal weights with different CG limits: the original divides by zero. */
  lemma SlopeInterceptFlatUndefined(w: real, x1: real, x2: real, y: real)
    requires x1 != x2
    ensures SlopeInterceptLimit(w, Some(x1), Some(y), Some(x2), Some(y)) == None
  {
  }
}
