/** The polyline resampler of geometry_quality.py: one pass over the segments serves all the
    arc-length targets. */
module PolylineResampler {
  import opened Numeric

  const SLACK := 0.000000000001

  datatype Point = Point(x: real, y: real)

  datatype RawPoint = RawPoint(x: Float, y: Float)

  /** `math.hypot`, of which the proofs need that it is the nonnegative root. */
  type Hypot = (real, real) -> real

  ghost predicate Nonnegative(hypot: Hypot) {
    forall x, y :: hypot(x, y) >= 0.0
  }

  ghost predicate Euclidean(hypot: Hypot) {
    Nonnegative(hypot) && forall x, y :: hypot(x, y) * hypot(x, y) == x * x + y * y
  }

  function Distance(hypot: Hypot, a: Point, b: Point): real {
    hypot(b.x - a.x, b.y - a.y)
  }

  /** The length of the first `k` segments. */
  function Along(hypot: Hypot, points: seq<Point>, k: nat): real
    requires k < |points|
  {
    if k == 0 then 0.0 else Along(hypot, points, k - 1) + Distance(hypot, points[k - 1], points[k])
  }

  function Length(hypot: Hypot, points: seq<Point>): real
    requires points != []
  {
    Along(hypot, points, |points| - 1)
  }

  method PolylineLength(hypot: Hypot, points: seq<Point>) returns (total: real)
    requires points != []
    ensures total == Length(hypot, points)
  {
    total := 0.0;
    for i := 1 to |points|
      invariant total == Along(hypot, points, i - 1)
    {
      total := total + Distance(hypot, points[i - 1], points[i]);
    }
  }

  // ---------------------------------------------------------------- targets

  function Ceil(x: real): int {
    -(-x).Floor
  }

  /** The sample positions: multiples of the spacing below the total, then the total. */
  function TargetAt(total: real, spacing: real, i: int): real
    requires spacing > 0.0
  {
    if i < Ceil(total / spacing) then i as real * spacing else total
  }

  function Targets(total: real, spacing: real): seq<real>
    requires spacing > 0.0
  {
    var n := Ceil(total / spacing);
    seq(if n >= 0 then n + 1 else 1, i => TargetAt(total, spacing, i))
  }

  lemma CeilAbove(k: int, q: real)
    ensures k < Ceil(q) <==> k as real < q
  {
  }

  lemma BelowCeil(k: int, total: real, spacing: real)
    requires total > 0.0 && spacing > 0.0
    ensures k < Ceil(total / spacing) <==> k as real * spacing < total
    ensures Ceil(total / spacing) >= 1
  {
    var q := total / spacing;
    assert q * spacing == total;
    CeilAbove(k, q);
    CeilAbove(0, q);
    hide Ceil;
    CompareScaled(k as real, q, spacing);
    CompareScaled(0.0, q, spacing);
  }

  lemma CompareScaled(x: real, y: real, k: real)
    requires 0.0 < k
    ensures x < y <==> x * k < y * k
  {
    if x < y {
      MulStrict(x, y, k);
    } else {
      MulMonotone(y, x, k);
    }
  }

  lemma TargetsIncrease(total: real, spacing: real, i: nat, j: nat)
    requires total > 0.0 && spacing > 0.0 && i <= j
    ensures 0.0 <= TargetAt(total, spacing, i) <= TargetAt(total, spacing, j) <= total
  {
    BelowCeil(i, total, spacing);
    BelowCeil(j, total, spacing);
    MulMonotone(0.0, i as real, spacing);
    MulMonotone(i as real, j as real, spacing);
  }

  method MakeTargets(total: real, spacing: real) returns (targets: seq<real>)
    requires total > 0.0 && spacing > 0.0
    ensures targets == Targets(total, spacing)
  {
    ghost var n := Ceil(total / spacing);
    targets := [0.0];
    var target := spacing;
    BelowCeil(0, total, spacing);
    while target < total
      invariant 1 <= |targets| <= n && target == |targets| as real * spacing
      invariant forall i :: 0 <= i < |targets| ==> targets[i] == TargetAt(total, spacing, i)
      decreases n - |targets|
    {
      BelowCeil(|targets|, total, spacing);
      targets := targets + [target];
      target := target + spacing;
    }
    BelowCeil(|targets|, total, spacing);
    targets := targets + [total];
  }

  // ---------------------------------------------------------------- samples

  /** The search for `target` moves on from segment `j`. */
  predicate Passes(hypot: Hypot, points: seq<Point>, target: real, j: nat) {
    j + 1 < |points| && Along(hypot, points, j + 1) < target - SLACK
  }

  /** Where a search for `target` that starts at segment `k` stops. */
  function Seek(hypot: Hypot, points: seq<Point>, target: real, k: nat): (r: nat)
    requires k < |points|
    ensures k <= r < |points| && !Passes(hypot, points, target, r)
    ensures forall j :: k <= j < r ==> Passes(hypot, points, target, j)
    decreases |points| - k
  {
    if Passes(hypot, points, target, k) then Seek(hypot, points, target, k + 1) else k
  }

  function Fraction(hypot: Hypot, points: seq<Point>, target: real, k: nat): real
    requires k + 1 < |points|
  {
    var length := Distance(hypot, points[k], points[k + 1]);
    if length != 0.0 then (target - Along(hypot, points, k)) / length else 0.0
  }

  function Lerp(a: Point, b: Point, f: real): Point {
    Point(a.x + f * (b.x - a.x), a.y + f * (b.y - a.y))
  }

  function SampleOn(hypot: Hypot, points: seq<Point>, target: real, k: nat): Point
    requires k < |points|
  {
    if k + 1 >= |points| then points[|points| - 1]
    else Lerp(points[k], points[k + 1], Fraction(hypot, points, target, k))
  }

  /** The naive sample: a search of its own from the first segment. */
  function Sample(hypot: Hypot, points: seq<Point>, target: real): Point
    requires points != []
  {
    SampleOn(hypot, points, target, Seek(hypot, points, target, 0))
  }

  ghost predicate AllFinite(raw: seq<RawPoint>) {
    forall i :: 0 <= i < |raw| ==> raw[i].x.Finite? && raw[i].y.Finite?
  }

  ghost predicate SamePoints(raw: seq<RawPoint>, points: seq<Point>) {
    |points| == |raw| && forall i :: 0 <= i < |raw| ==> raw[i] == RawPoint(Finite(points[i].x), Finite(points[i].y))
  }

  method FiniteXy(raw: seq<RawPoint>) returns (points: Option<seq<Point>>)
    ensures points.Some? <==> AllFinite(raw)
    ensures points.Some? ==> SamePoints(raw, points.value)
  {
    var result := [];
    for i := 0 to |raw|
      invariant SamePoints(raw[..i], result)
    {
      if raw[i].x.NonFinite? || raw[i].y.NonFinite? {
        return None;
      }
      result := result + [Point(raw[i].x.value, raw[i].y.value)];
    }
    assert raw[..|raw|] == raw;
    return Some(result);
  }

  lemma {:induction false} SeekSkips(hypot: Hypot, points: seq<Point>, target: real, j: nat, k: nat)
    requires j <= k < |points| && forall i :: j <= i < k ==> Passes(hypot, points, target, i)
    ensures Seek(hypot, points, target, j) == Seek(hypot, points, target, k)
    decreases k - j
  {
    if j < k {
      SeekSkips(hypot, points, target, j + 1, k);
    }
  }

  lemma EarlierPassesToo(hypot: Hypot, points: seq<Point>, target: real, next: real, k: nat)
    requires points != [] && target <= next && k == Seek(hypot, points, target, 0)
    ensures Seek(hypot, points, next, 0) == Seek(hypot, points, next, k)
  {
    assert forall j :: 0 <= j < k ==> Passes(hypot, points, target, j) && Passes(hypot, points, next, j);
    SeekSkips(hypot, points, next, 0, k);
  }

  /** One pass equals a separate search per target. `None` is the `ValueError`. */
  method ResamplePolyline(hypot: Hypot, raw: seq<RawPoint>, spacing: Float)
    returns (result: Option<seq<Point>>, ghost points: seq<Point>)
    requires Nonnegative(hypot)
    ensures result.None? <==> !AllFinite(raw) || spacing.NonFinite? || spacing.value <= 0.0
    ensures result.Some? ==> SamePoints(raw, points)
    ensures result.Some? && |points| < 2 ==> result.value == points
    ensures result.Some? && |points| >= 2 && Length(hypot, points) == 0.0 ==> result.value == [points[0]]
    ensures result.Some? && |points| >= 2 && Length(hypot, points) > 0.0 ==>
              var targets := Targets(Length(hypot, points), spacing.value);
              && |result.value| == |targets|
              && forall i :: 0 <= i < |targets| ==> result.value[i] == Sample(hypot, points, targets[i])
  {
    points := [];
    var finite := FiniteXy(raw);
    if finite.None? || spacing.NonFinite? || spacing.value <= 0.0 {
      return None, [];
    }
    points := finite.value;
    var pts := finite.value;
    if |pts| < 2 {
      return Some(pts), points;
    }
    var total := PolylineLength(hypot, pts);
    AlongMonotone(hypot, pts, 0, |pts| - 1);
    if total == 0.0 {
      return Some([pts[0]]), points;
    }
    var targets := MakeTargets(total, spacing.value);
    var samples := ResampleAt(hypot, pts, total, spacing.value, targets);
    return Some(samples), points;
  }

  method ResampleAt(hypot: Hypot, points: seq<Point>, ghost total: real, ghost spacing: real, targets: seq<real>)
    returns (result: seq<Point>)
    requires points != [] && total > 0.0 && spacing > 0.0 && targets == Targets(total, spacing)
    ensures |result| == |targets|
    ensures forall i :: 0 <= i < |targets| ==> result[i] == Sample(hypot, points, targets[i])
  {
    hide SampleOn, Along, Targets, Passes;
    result := [];
    var segment: nat, before := 0, 0.0;
    assert before == Along(hypot, points, segment) by { AlongUnfolds(hypot, points, 0); }
    for i := 0 to |targets|
      invariant segment < |points| && before == Along(hypot, points, segment) && |result| == i
      invariant segment == if i == 0 then 0 else Seek(hypot, points, targets[i - 1], 0)
      invariant forall j :: 0 <= j < i ==> result[j] == Sample(hypot, points, targets[j])
    {
      if i > 0 {
        TargetsOrdered(total, spacing, targets, i);
        EarlierPassesToo(hypot, points, targets[i - 1], targets[i], segment);
      }
      segment, before := Advance(hypot, points, targets[i], segment, before);
      var sample := TakeSample(hypot, points, targets[i], segment, before);
      result := result + [sample];
    }
  }

  lemma TargetsOrdered(total: real, spacing: real, targets: seq<real>, i: nat)
    requires total > 0.0 && spacing > 0.0 && targets == Targets(total, spacing) && 0 < i < |targets|
    ensures targets[i - 1] <= targets[i]
  {
    TargetsIncrease(total, spacing, i - 1, i);
  }

  lemma AlongUnfolds(hypot: Hypot, points: seq<Point>, k: nat)
    requires k < |points|
    ensures Along(hypot, points, 0) == 0.0
    ensures k + 1 < |points| ==>
              Along(hypot, points, k + 1) == Along(hypot, points, k) + Distance(hypot, points[k], points[k + 1])
  {
  }

  // The inner loop of the pass.
  method Advance(hypot: Hypot, points: seq<Point>, target: real, from: nat, travelled: real)
    returns (segment: nat, before: real)
    requires from < |points| && travelled == Along(hypot, points, from)
    ensures segment == Seek(hypot, points, target, from) && before == Along(hypot, points, segment)
  {
    segment, before := from, travelled;
    while segment + 1 < |points| && before + Distance(hypot, points[segment], points[segment + 1]) < target - SLACK
      invariant segment < |points| && before == Along(hypot, points, segment)
      invariant Seek(hypot, points, target, segment) == Seek(hypot, points, target, from)
      decreases |points| - segment
    {
      AlongUnfolds(hypot, points, segment);
      before := before + Distance(hypot, points[segment], points[segment + 1]);
      segment := segment + 1;
    }
  }

  method TakeSample(hypot: Hypot, points: seq<Point>, target: real, segment: nat, before: real) returns (sample: Point)
    requires segment < |points| && before == Along(hypot, points, segment)
    ensures sample == SampleOn(hypot, points, target, segment)
  {
    if segment + 1 >= |points| {
      return points[|points| - 1];
    }
    var length := Distance(hypot, points[segment], points[segment + 1]);
    var fraction := if length != 0.0 then (target - before) / length else 0.0;
    return Lerp(points[segment], points[segment + 1], fraction);
  }

  // ---------------------------------------------------------------- properties

  lemma {:induction false} AlongMonotone(hypot: Hypot, points: seq<Point>, j: nat, k: nat)
    requires Nonnegative(hypot) && j <= k < |points|
    ensures 0.0 <= Along(hypot, points, j) <= Along(hypot, points, k)
  {
    if j < k {
      AlongMonotone(hypot, points, j, k - 1);
    } else if k > 0 {
      AlongMonotone(hypot, points, k - 1, k - 1);
    }
  }

  /** Every target is found on a real segment: the fallback to the last point is never taken. The
      target lies at or after the segment's start and overshoots its end by at most the slack. */
  lemma TargetOnSegment(hypot: Hypot, points: seq<Point>, target: real)
    requires Nonnegative(hypot) && |points| >= 2 && 0.0 <= target <= Length(hypot, points)
    ensures var k := Seek(hypot, points, target, 0);
            && k + 1 < |points|
            && Along(hypot, points, k) <= target <= Along(hypot, points, k + 1) + SLACK
            && 0.0 <= Fraction(hypot, points, target, k)
            && Fraction(hypot, points, target, k) * Distance(hypot, points[k], points[k + 1])
               <= Distance(hypot, points[k], points[k + 1]) + SLACK
  {
    var k := Seek(hypot, points, target, 0);
    if k > 0 {
      assert Passes(hypot, points, target, k - 1);
    }
    var length := if k + 1 < |points| then Distance(hypot, points[k], points[k + 1]) else 0.0;
    if k + 1 < |points| && length != 0.0 {
      var rest := target - Along(hypot, points, k);
      assert rest / length * length == rest;
      MulCancel(0.0, rest / length, length);
    }
  }

  /** A polyline of positive length gives ceil(total / spacing) + 1 samples, the first of them its
      first point. */
  lemma SampleCount(total: real, spacing: real)
    requires total > 0.0 && spacing > 0.0
    ensures |Targets(total, spacing)| == Ceil(total / spacing) + 1 >= 2
    ensures Targets(total, spacing)[0] == 0.0
    ensures Targets(total, spacing)[|Targets(total, spacing)| - 1] == total
  {
    BelowCeil(0, total, spacing);
  }

  lemma StartsAtFirst(hypot: Hypot, points: seq<Point>)
    requires Nonnegative(hypot) && |points| >= 2
    ensures Sample(hypot, points, 0.0) == points[0]
  {
    AlongMonotone(hypot, points, 0, 1);
  }

  // ---------------------------------------------------------------- the last sample

  lemma SquareOrder(a: real, b: real)
    requires 0.0 <= b && a * a <= b * b
    ensures a <= b
  {
    if b < a {
      SquareStrict(b, a);
    }
  }

  lemma SquareStrict(b: real, a: real)
    requires 0.0 <= b < a
    ensures b * b < a * a
  {
    assert a * a - b * b == (a - b) * (a + b);
    MulStrict(0.0, a - b, a + b);
  }

  lemma SquareUnique(a: real, b: real)
    requires 0.0 <= a && 0.0 <= b && a * a == b * b
    ensures a == b
  {
    SquareOrder(a, b);
    SquareOrder(b, a);
  }

  lemma CauchySchwarz(x: real, y: real, u: real, v: real, p: real, q: real)
    requires 0.0 <= p && 0.0 <= q && p * p == x * x + y * y && q * q == u * u + v * v
    ensures x * u + y * v <= p * q
  {
    var dot, cross := x * u + y * v, x * v - y * u;
    assert dot * dot + cross * cross == (x * x + y * y) * (u * u + v * v);
    assert (p * q) * (p * q) == (p * p) * (q * q);
    assert cross * cross >= 0.0;
    MulNonneg(p, q);
    SquareOrder(dot, p * q);
  }

  lemma Triangle(hypot: Hypot, a: Point, b: Point, c: Point)
    requires Euclidean(hypot)
    ensures Distance(hypot, a, c) <= Distance(hypot, a, b) + Distance(hypot, b, c)
  {
    var x, y, u, v := b.x - a.x, b.y - a.y, c.x - b.x, c.y - b.y;
    var p, q, r := hypot(x, y), hypot(u, v), hypot(x + u, y + v);
    assert c.x - a.x == x + u && c.y - a.y == y + v;
    CauchySchwarz(x, y, u, v, p, q);
    assert r * r == (x + u) * (x + u) + (y + v) * (y + v);
    SumOfSquares(x, y, u, v, p, q, r);
  }

  lemma SumOfSquares(x: real, y: real, u: real, v: real, p: real, q: real, r: real)
    requires 0.0 <= p && 0.0 <= q && p * p == x * x + y * y && q * q == u * u + v * v
    requires x * u + y * v <= p * q && r * r == (x + u) * (x + u) + (y + v) * (y + v)
    ensures r <= p + q
  {
    assert (x + u) * (x + u) + (y + v) * (y + v) == (x * x + y * y) + (u * u + v * v) + 2.0 * (x * u + y * v);
    assert (p + q) * (p + q) == p * p + q * q + 2.0 * (p * q);
    SquareOrder(r, p + q);
  }

  /** How far a point on the line through `a` and `b` is from `b`. */
  lemma LerpDistance(hypot: Hypot, a: Point, b: Point, f: real)
    requires Euclidean(hypot)
    ensures Distance(hypot, Lerp(a, b, f), b) == Abs(f - 1.0) * Distance(hypot, a, b)
  {
    var x, y, g := b.x - a.x, b.y - a.y, 1.0 - f;
    var p := hypot(x, y);
    assert b.x - Lerp(a, b, f).x == g * x && b.y - Lerp(a, b, f).y == g * y;
    ScaledSquares(x, y, g, p, hypot(g * x, g * y));
  }

  lemma ScaledSquares(x: real, y: real, g: real, p: real, r: real)
    requires 0.0 <= p && 0.0 <= r && p * p == x * x + y * y && r * r == (g * x) * (g * x) + (g * y) * (g * y)
    ensures r == Abs(-g) * p
  {
    var k := Abs(-g);
    assert k * k == g * g;
    assert (g * x) * (g * x) + (g * y) * (g * y) == (g * g) * (x * x + y * y);
    assert (k * p) * (k * p) == (k * k) * (p * p);
    MulNonneg(k, p);
    SquareUnique(r, k * p);
  }

  lemma LerpFromStart(hypot: Hypot, a: Point, b: Point, f: real)
    requires Euclidean(hypot) && f >= 0.0
    ensures Distance(hypot, a, Lerp(a, b, f)) == f * Distance(hypot, a, b)
  {
    var x, y := b.x - a.x, b.y - a.y;
    assert Lerp(a, b, f).x - a.x == f * x && Lerp(a, b, f).y - a.y == f * y;
    ScaledSquares(x, y, f, hypot(x, y), hypot(f * x, f * y));
  }

  /** A sample sits on its segment's line, exactly as far past the segment's start as its target is
      past the start's arc length. */
  lemma SampleAtArcLength(hypot: Hypot, points: seq<Point>, target: real)
    requires Euclidean(hypot) && |points| >= 2 && 0.0 <= target <= Length(hypot, points)
    ensures var k := Seek(hypot, points, target, 0);
            && k + 1 < |points|
            && (Distance(hypot, points[k], points[k + 1]) != 0.0 ==>
                  Distance(hypot, points[k], Sample(hypot, points, target)) == target - Along(hypot, points, k))
  {
    TargetOnSegment(hypot, points, target);
    var k := Seek(hypot, points, target, 0);
    var d, rest := Distance(hypot, points[k], points[k + 1]), target - Along(hypot, points, k);
    LerpFromStart(hypot, points[k], points[k + 1], Fraction(hypot, points, target, k));
    if d != 0.0 {
      assert rest / d * d == rest;
    }
  }

  lemma {:induction false} ChordAtMostArc(hypot: Hypot, points: seq<Point>, j: nat, k: nat)
    requires Euclidean(hypot) && j <= k < |points|
    ensures Distance(hypot, points[j], points[k]) <= Along(hypot, points, k) - Along(hypot, points, j)
  {
    if j < k {
      ChordAtMostArc(hypot, points, j, k - 1);
      Triangle(hypot, points[j], points[k - 1], points[k]);
    } else {
      ZeroDistance(hypot, points[j]);
    }
  }

  lemma ZeroDistance(hypot: Hypot, a: Point)
    requires Euclidean(hypot)
    ensures Distance(hypot, a, a) == 0.0
  {
    SquareUnique(hypot(0.0, 0.0), 0.0);
  }

  /** The length of the segments behind the one that serves the last target. */
  function Tail(hypot: Hypot, points: seq<Point>): real
    requires |points| >= 2
  {
    var k := Seek(hypot, points, Length(hypot, points), 0);
    if k + 1 < |points| then Length(hypot, points) - Along(hypot, points, k + 1) else 0.0
  }

  /** How far the last sample is from the last point. */
  function EndGap(hypot: Hypot, points: seq<Point>): real
    requires |points| >= 2
  {
    Distance(hypot, Sample(hypot, points, Length(hypot, points)), points[|points| - 1])
  }

  /** The last sample lies within twice the slack of the last point: it may run over its segment's
      end by as much as the tail it skips. */
  lemma EndsNearLast(hypot: Hypot, points: seq<Point>)
    requires Euclidean(hypot) && |points| >= 2
    ensures EndGap(hypot, points) <= 2.0 * Tail(hypot, points) && 0.0 <= Tail(hypot, points) <= SLACK
  {
    var total, n := Length(hypot, points), |points| - 1;
    AlongMonotone(hypot, points, 0, n);
    TargetOnSegment(hypot, points, total);
    var k := Seek(hypot, points, total, 0);
    AlongMonotone(hypot, points, k + 1, n);
    hide Along, Fraction, Lerp;
    ChordAtMostArc(hypot, points, k + 1, n);
    OvershootDistance(hypot, points, k);
    Triangle(hypot, Sample(hypot, points, total), points[k + 1], points[n]);
  }

  lemma OvershootDistance(hypot: Hypot, points: seq<Point>, k: nat)
    requires Euclidean(hypot) && k + 1 < |points|
    requires Along(hypot, points, k + 1) <= Length(hypot, points)
    ensures Distance(hypot, SampleOn(hypot, points, Length(hypot, points), k), points[k + 1])
         <= Length(hypot, points) - Along(hypot, points, k + 1)
  {
    var a, b, f := points[k], points[k + 1], Fraction(hypot, points, Length(hypot, points), k);
    var d := Distance(hypot, a, b);
    LerpDistance(hypot, a, b, f);
    if d != 0.0 {
      var rest := Length(hypot, points) - Along(hypot, points, k);
      assert f * d == rest;
      assert (f - 1.0) * d == rest - d;
      MulCancel(0.0, f - 1.0, d);
    }
  }

  lemma WholeSegment(hypot: Hypot, points: seq<Point>, k: nat)
    requires k + 1 < |points| && Distance(hypot, points[k], points[k + 1]) > 0.0
    ensures SampleOn(hypot, points, Along(hypot, points, k + 1), k) == points[k + 1]
  {
    var d := Distance(hypot, points[k], points[k + 1]);
    AlongUnfolds(hypot, points, k);
    assert d / d == 1.0;
  }

  lemma LastSegmentServes(hypot: Hypot, points: seq<Point>)
    requires Nonnegative(hypot) && |points| >= 2
    requires Distance(hypot, points[|points| - 2], points[|points| - 1]) > SLACK
    ensures Seek(hypot, points, Length(hypot, points), 0) == |points| - 2
  {
    var total, n := Length(hypot, points), |points| - 1;
    var k := Seek(hypot, points, total, 0);
    AlongMonotone(hypot, points, 0, n);
    TargetOnSegment(hypot, points, total);
    AlongUnfolds(hypot, points, n - 1);
    hide Along, Fraction, Distance;
    if k < n - 1 {
      AlongMonotone(hypot, points, k + 1, n - 1);
    }
  }

  /** If the last segment is longer than the slack, the last sample is the last point exactly. */
  lemma EndsAtLast(hypot: Hypot, points: seq<Point>)
    requires Nonnegative(hypot) && |points| >= 2
    requires Distance(hypot, points[|points| - 2], points[|points| - 1]) > SLACK
    ensures Sample(hypot, points, Length(hypot, points)) == points[|points| - 1]
  {
    hide SampleOn, Seek, Along, Distance;
    LastSegmentServes(hypot, points);
    WholeSegment(hypot, points, |points| - 2);
  }

  /** A short last segment folded back leaves the sample twice its length away. */
  lemma FoldedBack(hypot: Hypot, r: real) returns (points: seq<Point>)
    requires Euclidean(hypot) && 0.0 <= r <= SLACK
    ensures |points| >= 2 && Tail(hypot, points) == r && EndGap(hypot, points) == 2.0 * r
  {
    points := [Point(0.0, 0.0), Point(1.0, 0.0), Point(1.0 - r, 0.0)];
    SquareUnique(hypot(1.0, 0.0), 1.0);
    SquareUnique(hypot(-r, 0.0), r);
    SquareUnique(hypot(-2.0 * r, 0.0), 2.0 * r);
    assert Along(hypot, points, 1) == 1.0;
    assert Along(hypot, points, 2) == 1.0 + r;
    assert Seek(hypot, points, 1.0 + r, 0) == 0;
    assert Sample(hypot, points, 1.0 + r) == Point(1.0 + r, 0.0);
  }

  /** The last sample is sure to lie within one slack of the last point exactly when the skipped
      tail is at most half the slack. */
  lemma EndGuarantee(hypot: Hypot, tail: real)
    requires Euclidean(hypot) && 0.0 <= tail <= SLACK
    ensures (forall points :: |points| >= 2 && Tail(hypot, points) == tail ==> EndGap(hypot, points) <= SLACK)
       <==> tail <= SLACK / 2.0
  {
    var folded := FoldedBack(hypot, tail);
    forall points: seq<Point> | |points| >= 2 && Tail(hypot, points) == tail
      ensures EndGap(hypot, points) <= 2.0 * tail
    {
      EndsNearLast(hypot, points);
    }
  }
}
