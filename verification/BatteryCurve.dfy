/** The state-of-charge curve of battery_estimator.py: acceptance and interpolation. */
module BatteryCurve {
  import opened Numeric

  /** A curve point; the percentage is clamped to [0, 1] on entry. */
  datatype Point = Point(voltage: real, pct: real)

  /** A point as configured, before the voltage is known to be finite. */
  datatype RawPoint = RawPoint(voltage: Float, pct: real)

  function Clamp01(x: real): real {
    Max(0.0, Min(1.0, x))
  }

  const DEFAULT_CURVE := [Point(44.5, 0.0), Point(46.5, 0.15), Point(48.0, 0.35),
                          Point(50.0, 0.60), Point(52.0, 0.85), Point(53.5, 1.0)]

  /** The curves `_ensure_monotonic_curve` lets through, as points. */
  ghost predicate Accepted(curve: seq<Point>) {
    && |curve| >= 2
    && (forall i, j :: 0 <= i < j < |curve| ==> curve[i].voltage < curve[j].voltage && curve[i].pct <= curve[j].pct)
    && (forall i :: 0 <= i < |curve| ==> 0.0 <= curve[i].pct <= 1.0)
  }

  ghost predicate AllFinite(raw: seq<RawPoint>) {
    forall i :: 0 <= i < |raw| ==> raw[i].voltage.Finite?
  }

  function Clamped(raw: seq<RawPoint>): seq<Point> {
    seq(|raw|, i requires 0 <= i < |raw| =>
      Point(if raw[i].voltage.Finite? then raw[i].voltage.value else 0.0, Clamp01(raw[i].pct)))
  }

  /** `None` is the `ValueError`: raised exactly when a voltage is not finite or the clamped
      points are no accepted curve, although only neighbours are compared. */
  method EnsureMonotonicCurve(raw: seq<RawPoint>) returns (curve: Option<seq<Point>>)
    ensures curve.Some? <==> AllFinite(raw) && Accepted(Clamped(raw))
    ensures curve.Some? ==> curve.value == Clamped(raw)
  {
    var points := Clamped(raw);
    if |points| < 2 {
      return None;
    }
    var last: Option<Point> := None;
    for i := 0 to |points|
      invariant forall k :: 0 <= k < i ==> raw[k].voltage.Finite?
      invariant forall j, k :: 0 <= j < k < i ==>
                  points[j].voltage < points[k].voltage && points[j].pct <= points[k].pct
      invariant last == if i == 0 then None else Some(points[i - 1])
    {
      if raw[i].voltage.NonFinite? { return None; }
      if last.Some? && points[i].voltage <= last.value.voltage { return None; }
      if last.Some? && points[i].pct < last.value.pct { return None; }
      last := Some(points[i]);
    }
    return Some(points);
  }

  function Ratio(p: Point, q: Point, v: real): real {
    (v - p.voltage) / Max(EPSILON, q.voltage - p.voltage)
  }

  function Interpolate(p: Point, q: Point, v: real): real {
    Clamp01(p.pct + Ratio(p, q, v) * (q.pct - p.pct))
  }

  /** The first knot after the lowest one that is not below `v`. */
  function FirstKnotFrom(curve: seq<Point>, v: real, i: nat): (k: nat)
    requires 0 < i <= |curve| && forall j :: 0 < j < i ==> curve[j].voltage < v
    ensures i <= k <= |curve| && (k < |curve| ==> v <= curve[k].voltage)
    ensures forall j :: 0 < j < k ==> curve[j].voltage < v
    decreases |curve| - i
  {
    if i == |curve| || v <= curve[i].voltage then i else FirstKnotFrom(curve, v, i + 1)
  }

  /** The estimate for a finite voltage on an accepted curve. */
  function Soc(curve: seq<Point>, v: real): real
    requires |curve| >= 2
  {
    if v <= curve[0].voltage then 0.0
    else if v >= curve[|curve| - 1].voltage then 1.0
    else
      var k := FirstKnotFrom(curve, v, 1);
      if k == |curve| then 1.0 else Interpolate(curve[k - 1], curve[k], v)
  }

  /** `curve_points or DEFAULT`: an empty curve falls back to the default one; `None` is the
      `ValueError` of a refused curve. */
  method PiecewiseSocFromVoltage(v: Float, raw: seq<RawPoint>) returns (soc: Option<real>)
    ensures v.NonFinite? ==> soc == Some(0.0)
    ensures v.Finite? && raw == [] ==> soc == Some(Soc(DEFAULT_CURVE, v.value))
    ensures v.Finite? && raw != [] ==>
              soc == if AllFinite(raw) && Accepted(Clamped(raw)) then Some(Soc(Clamped(raw), v.value)) else None
  {
    if v.NonFinite? {
      return Some(0.0);
    }
    hide Accepted, Soc;
    var curve := DEFAULT_CURVE;
    if raw != [] {
      var accepted := EnsureMonotonicCurve(raw);
      if accepted.None? { return None; }
      curve := accepted.value;
      assert |curve| >= 2 by { AcceptedLength(curve); }
    }
    var estimate := Lookup(curve, v.value);
    return Some(estimate);
  }

  lemma AcceptedLength(curve: seq<Point>)
    requires Accepted(curve)
    ensures |curve| >= 2
  {
  }

  // The cut-offs and the loop over the segments.
  method Lookup(curve: seq<Point>, v: real) returns (soc: real)
    requires |curve| >= 2
    ensures soc == Soc(curve, v)
  {
    hide Interpolate;
    if v <= curve[0].voltage { return 0.0; }
    if v >= curve[|curve| - 1].voltage { return 1.0; }
    for k := 1 to |curve|
      invariant forall j :: 0 < j < k ==> curve[j].voltage < v
      invariant FirstKnotFrom(curve, v, 1) == FirstKnotFrom(curve, v, k)
    {
      if v <= curve[k].voltage {
        return Interpolate(curve[k - 1], curve[k], v);
      }
    }
    return 1.0;
  }

  // ---------------------------------------------------------------- properties

  lemma RatioTimesWidth(p: Point, q: Point, v: real)
    ensures Ratio(p, q, v) * Max(EPSILON, q.voltage - p.voltage) == v - p.voltage
  {
  }

  lemma RatioInUnit(p: Point, q: Point, v: real)
    requires p.voltage <= v <= q.voltage
    ensures 0.0 <= Ratio(p, q, v) <= 1.0
    ensures v == q.voltage && p.voltage < v ==> (Ratio(p, q, v) == 1.0 <==> q.voltage - p.voltage >= EPSILON)
  {
    RatioTimesWidth(p, q, v);
  }

  /** On a segment the estimate stays between the two percentages, even when the knots are closer
      than the epsilon and the slope is flattened. */
  lemma InterpolateBetween(p: Point, q: Point, v: real)
    requires 0.0 <= p.pct <= q.pct <= 1.0 && p.voltage < v <= q.voltage
    ensures p.pct <= Interpolate(p, q, v) == p.pct + Ratio(p, q, v) * (q.pct - p.pct) <= q.pct
  {
    RatioInUnit(p, q, v);
    var ratio := Ratio(p, q, v);
    hide Ratio;
    MulNonneg(ratio, q.pct - p.pct);
    MulMonotone(ratio, 1.0, q.pct - p.pct);
  }

  lemma RatioMonotone(p: Point, q: Point, v: real, w: real)
    requires v <= w
    ensures Ratio(p, q, v) <= Ratio(p, q, w)
  {
    RatioTimesWidth(p, q, v);
    RatioTimesWidth(p, q, w);
  }

  lemma ScaledMonotone(base: real, x: real, y: real, rise: real)
    requires x <= y && 0.0 <= rise
    ensures base + x * rise <= base + y * rise
  {
    MulMonotone(x, y, rise);
  }

  lemma ClampMonotone(x: real, y: real)
    requires x <= y
    ensures Clamp01(x) <= Clamp01(y)
  {
  }

  lemma InterpolateMonotone(p: Point, q: Point, v: real, w: real)
    requires p.pct <= q.pct && v <= w
    ensures Interpolate(p, q, v) <= Interpolate(p, q, w)
  {
    RatioMonotone(p, q, v, w);
    var rise := q.pct - p.pct;
    hide Ratio, Clamp01;
    ScaledMonotone(p.pct, Ratio(p, q, v), Ratio(p, q, w), rise);
    ClampMonotone(p.pct + Ratio(p, q, v) * rise, p.pct + Ratio(p, q, w) * rise);
  }

  /** Where an inner voltage lies, and between which percentages its estimate. */
  lemma SocBracket(curve: seq<Point>, v: real) returns (k: nat)
    requires Accepted(curve) && curve[0].voltage < v < curve[|curve| - 1].voltage
    ensures 0 < k < |curve| && curve[k - 1].voltage < v <= curve[k].voltage
    ensures Soc(curve, v) == Interpolate(curve[k - 1], curve[k], v)
    ensures curve[k - 1].pct <= Soc(curve, v) <= curve[k].pct
  {
    k := FirstKnotFrom(curve, v, 1);
    InterpolateBetween(curve[k - 1], curve[k], v);
  }

  /** On every accepted curve the estimate lies in [0, 1] and never falls as the voltage rises,
      across segments and both end cut-offs. */
  lemma SocMonotone(curve: seq<Point>, v: real, w: real)
    requires Accepted(curve) && v <= w
    ensures 0.0 <= Soc(curve, v) <= Soc(curve, w) <= 1.0
  {
    var low, high := curve[0].voltage, curve[|curve| - 1].voltage;
    if low < w < high {
      var k := SocBracket(curve, w);
      if low < v {
        var j := SocBracket(curve, v);
        if j == k {
          InterpolateMonotone(curve[k - 1], curve[k], v, w);
        } else {
          assert curve[j - 1].voltage < curve[k].voltage;
          assert j < k;
          assert curve[j].pct <= curve[k - 1].pct;
        }
      }
    } else if low < v < high {
      var j := SocBracket(curve, v);
    }
  }

  /** When the estimate at a knot is exactly the knot's own percentage: at the ends the cut-off
      must be the percentage, and inside the segment must be no narrower than the epsilon or flat. */
  predicate HitsKnot(curve: seq<Point>, k: nat)
    requires k < |curve|
  {
    if k == 0 then curve[0].pct == 0.0
    else if k == |curve| - 1 then curve[k].pct == 1.0
    else curve[k].voltage - curve[k - 1].voltage >= EPSILON || curve[k].pct == curve[k - 1].pct
  }

  lemma SegmentEnd(p: Point, q: Point)
    requires p.voltage < q.voltage && 0.0 <= p.pct <= q.pct <= 1.0
    ensures Interpolate(p, q, q.voltage) == q.pct <==> q.voltage - p.voltage >= EPSILON || q.pct == p.pct
  {
    InterpolateBetween(p, q, q.voltage);
    RatioInUnit(p, q, q.voltage);
    var ratio, rise := Ratio(p, q, q.voltage), q.pct - p.pct;
    hide Ratio;
    if ratio < 1.0 && rise > 0.0 {
      assert (1.0 - ratio) * rise > 0.0;
      assert ratio * rise < rise;
    } else if rise == 0.0 {
      assert ratio * rise == 0.0;
    }
  }

  lemma SocAtKnot(curve: seq<Point>, k: nat)
    requires Accepted(curve) && k < |curve|
    ensures Soc(curve, curve[k].voltage) == curve[k].pct <==> HitsKnot(curve, k)
  {
    hide Interpolate;
    if 0 < k < |curve| - 1 {
      var j := SocBracket(curve, curve[k].voltage);
      assert curve[j - 1].voltage < curve[k].voltage <= curve[j].voltage;
      assert j == k;
      SegmentEnd(curve[k - 1], curve[k]);
    }
  }

  /** The point lies on the straight line through two knots. */
  predicate OnLine(p: Point, q: Point, voltage: real, pct: real) {
    (pct - p.pct) * (q.voltage - p.voltage) == (voltage - p.voltage) * (q.pct - p.pct)
  }

  lemma InterpolateOnLine(p: Point, q: Point, v: real)
    requires 0.0 <= p.pct <= q.pct <= 1.0 && p.voltage < v <= q.voltage && q.voltage - p.voltage >= EPSILON
    ensures OnLine(p, q, v, Interpolate(p, q, v))
  {
    InterpolateBetween(p, q, v);
    RatioOfWide(p, q, v);
    hide Ratio, Interpolate;
    SlopeOf(Interpolate(p, q, v) - p.pct, Ratio(p, q, v), q.pct - p.pct, q.voltage - p.voltage, v - p.voltage);
  }

  lemma RatioOfWide(p: Point, q: Point, v: real)
    requires q.voltage - p.voltage >= EPSILON
    ensures Ratio(p, q, v) * (q.voltage - p.voltage) == v - p.voltage
  {
    var width, run := q.voltage - p.voltage, v - p.voltage;
    assert Ratio(p, q, v) == run / width;
    QuotientTimes(run, width);
  }

  lemma SlopeOf(gain: real, ratio: real, rise: real, width: real, run: real)
    requires gain == ratio * rise && ratio * width == run
    ensures gain * width == run * rise
  {
    assert gain * width == (ratio * rise) * width == (ratio * width) * rise;
  }

  /** Inside a segment no narrower than the epsilon the estimate is the straight line between its
      knots. */
  lemma SocLinear(curve: seq<Point>, k: nat, v: real)
    requires Accepted(curve) && 0 < k < |curve| && curve[k - 1].voltage < v <= curve[k].voltage
    requires v < curve[|curve| - 1].voltage && curve[k].voltage - curve[k - 1].voltage >= EPSILON
    ensures OnLine(curve[k - 1], curve[k], v, Soc(curve, v))
  {
    hide Soc, Interpolate, OnLine;
    assert curve[0].voltage <= curve[k - 1].voltage;
    var j := SocBracket(curve, v);
    assert j == k;
    InterpolateOnLine(curve[k - 1], curve[k], v);
  }

  lemma DefaultCurveAccepted()
    ensures Accepted(DEFAULT_CURVE)
  {
    var c := DEFAULT_CURVE;
    assert c[0].voltage == 44.5 && c[1].voltage == 46.5 && c[2].voltage == 48.0;
    assert c[3].voltage == 50.0 && c[4].voltage == 52.0 && c[5].voltage == 53.5;
  }

  /** The default curve is accepted and is hit at every one of its knots. */
  lemma DefaultCurveExact(k: nat)
    requires k < |DEFAULT_CURVE|
    ensures Accepted(DEFAULT_CURVE) && Soc(DEFAULT_CURVE, DEFAULT_CURVE[k].voltage) == DEFAULT_CURVE[k].pct
  {
    hide Soc;
    DefaultCurveAccepted();
    SocAtKnot(DEFAULT_CURVE, k);
  }
}
