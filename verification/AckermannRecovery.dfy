/** The steering-angle recovery of sim_gazebo_backend.py, at the level of wheel tangents. */
module AckermannRecovery {
  import opened Numeric
  import opened ControlLogic

  /** `ZeroDivision` is Python's exception for a turning radius of zero. */
  datatype Recovered = NoAngle | Angle(value: real) | ZeroDivision

  predicate Present(joint: Option<Float>) {
    joint.Some? && joint.value.Finite?
  }

  /** The tangent of the centre angle on a circle of this radius. */
  function TangentAt(wheelbase: real, radius: real): real
    requires radius != 0.0
  {
    wheelbase / radius
  }

  function FromRadius(trig: Trig, wheelbase: real, radius: real): Recovered {
    if radius == 0.0 then ZeroDivision else Angle(trig.atan(TangentAt(wheelbase, radius)))
  }

  /** The harmonic mean of the wheel tangents. */
  function CentreFrom(l: real, r: real): real
    requires l + r != 0.0
  {
    2.0 * l * r / (l + r)
  }

  /** The centre angle from the steering joints that are present and finite. */
  function FromWheels(trig: Trig, left: Option<Float>, right: Option<Float>, wheelbase: real, track: real): Recovered {
    if !Present(left) && !Present(right) then NoAngle
    else if Present(left) && Present(right) then
      var l, r := left.value.value, right.value.value;
      var denom := trig.tan(l) + trig.tan(r);
      if Abs(denom) < EPSILON then Angle(0.5 * (l + r))
      else Angle(trig.atan(CentreFrom(trig.tan(l), trig.tan(r))))
    else if Abs(wheelbase) < EPSILON then Angle(if Present(left) then left.value.value else right.value.value)
    else
      var half := 0.5 * Abs(track);
      var tangent := trig.tan(if Present(left) then left.value.value else right.value.value);
      if Abs(tangent) < EPSILON then Angle(0.0)
      else FromRadius(trig, wheelbase, wheelbase / tangent + if Present(left) then half else -half)
  }

  function OdomTangent(wheelbase: real, yawRate: real, speed: real): real
    requires speed != 0.0
  {
    wheelbase * yawRate / speed
  }

  /** The centre angle from odometry, unless it is missing or too slow. */
  function FromOdom(trig: Trig, speed: Option<real>, yawRate: Option<real>, wheelbase: real,
                    minSpeed: real): Recovered {
    if speed.None? || yawRate.None? then NoAngle
    else if Abs(speed.value) < Max(0.0, minSpeed) then NoAngle
    else if Abs(wheelbase) < EPSILON then NoAngle
    else if speed.value == 0.0 then ZeroDivision
    else Angle(trig.atan(OdomTangent(wheelbase, yawRate.value, speed.value)))
  }

  /** The joints' angle, unless odometry contradicts it. `wrap` reduces a difference of angles to
      the shortest one. */
  function SelectPhysical(wrap: real -> real, joint: Recovered, odom: Recovered, maxDelta: real): Recovered {
    if joint.ZeroDivision? then joint
    else if odom.ZeroDivision? then odom
    else if joint.NoAngle? then odom
    else if odom.NoAngle? then joint
    else if Abs(wrap(odom.value - joint.value)) > Max(0.0, maxDelta) then odom
    else joint
  }

  // ---------------------------------------------------------------- properties

  /** Wheels on a common turning circle of radius `radius` about the vehicle's centre line. */
  ghost predicate OnCircle(trig: Trig, left: real, right: real, wheelbase: real, track: real, radius: real) {
    var half := 0.5 * Abs(track);
    && Abs(radius) > half && wheelbase != 0.0
    && trig.tan(left) == wheelbase / (radius - half) && trig.tan(right) == wheelbase / (radius + half)
  }

  lemma RadiusFromTangent(wheelbase: real, arm: real, tangent: real)
    requires wheelbase != 0.0 && arm != 0.0 && tangent == wheelbase / arm
    ensures tangent != 0.0 && wheelbase / tangent == arm
  {
    assert tangent * arm == wheelbase;
    if tangent != 0.0 {
      QuotientUnique(wheelbase, tangent, arm);
    }
  }

  /** The harmonic combination of the two tangents is the centre tangent. */
  lemma CentreTangent(wheelbase: real, half: real, radius: real, l: real, r: real)
    requires wheelbase != 0.0 && half >= 0.0 && Abs(radius) > half
    requires l == wheelbase / (radius - half) && r == wheelbase / (radius + half)
    ensures l + r != 0.0 && CentreFrom(l, r) == TangentAt(wheelbase, radius)
  {
    var a, b := radius - half, radius + half;
    assert l * a == wheelbase && r * b == wheelbase;
    RadiusFromTangent(wheelbase, a, l);
    RadiusFromTangent(wheelbase, b, r);
    Harmonic(wheelbase, a, b, l, r);
    var centre := wheelbase / radius;
    assert centre * radius == wheelbase;
    CentreProduct(wheelbase, a, b, l, r, radius, centre);
    QuotientUnique(2.0 * l * r, l + r, centre);
  }

  lemma Harmonic(wheelbase: real, a: real, b: real, l: real, r: real)
    requires l * a == wheelbase && r * b == wheelbase && wheelbase != 0.0 && a + b != 0.0
    ensures l + r != 0.0
  {
    assert l * r * (a + b) == wheelbase * (l + r) by {
      assert l * r * (a + b) == (l * a) * r + (r * b) * l;
    }
    assert l != 0.0 && r != 0.0;
    ProductNonzero(l, r);
    ProductNonzero(l * r, a + b);
  }

  lemma ProductNonzero(x: real, y: real)
    requires x != 0.0 && y != 0.0
    ensures x * y != 0.0
  {
  }

  lemma CentreProduct(wheelbase: real, a: real, b: real, l: real, r: real, radius: real, centre: real)
    requires l * a == wheelbase && r * b == wheelbase && centre * radius == wheelbase && wheelbase != 0.0
    requires a + b == 2.0 * radius && radius != 0.0
    ensures (l + r) * centre == 2.0 * l * r
  {
    var gap := (l + r) * centre - 2.0 * l * r;
    assert l * r * (a + b) == wheelbase * (l + r) by {
      assert l * r * (a + b) == (l * a) * r + (r * b) * l;
    }
    assert (l + r) * centre * radius == (l + r) * wheelbase;
    assert 2.0 * l * r * radius == l * r * (a + b);
    assert gap * radius == 0.0;
    if gap != 0.0 { ProductNonzero(gap, radius); }
  }

  lemma BothWheels(trig: Trig, left: real, right: real, wheelbase: real, track: real, radius: real)
    requires OnCircle(trig, left, right, wheelbase, track, radius) && Abs(trig.tan(left) + trig.tan(right)) >= EPSILON
    ensures FromWheels(trig, Some(Finite(left)), Some(Finite(right)), wheelbase, track)
         == Angle(trig.atan(TangentAt(wheelbase, radius)))
  {
    CentreTangent(wheelbase, 0.5 * Abs(track), radius, trig.tan(left), trig.tan(right));
    hide CentreFrom, TangentAt;
  }

  lemma LeftAlone(trig: Trig, left: real, right: Option<Float>, wheelbase: real, track: real, radius: real)
    requires !Present(right) && Abs(wheelbase) >= EPSILON && Abs(trig.tan(left)) >= EPSILON
    requires Abs(radius) > 0.5 * Abs(track)
    requires trig.tan(left) == wheelbase / (radius - 0.5 * Abs(track))
    ensures FromWheels(trig, Some(Finite(left)), right, wheelbase, track)
         == Angle(trig.atan(TangentAt(wheelbase, radius)))
  {
    RadiusFromTangent(wheelbase, radius - 0.5 * Abs(track), trig.tan(left));
    OneWheel(trig, Some(Finite(left)), right, wheelbase, track, radius, left);
  }

  lemma RightAlone(trig: Trig, left: Option<Float>, right: real, wheelbase: real, track: real, radius: real)
    requires !Present(left) && Abs(wheelbase) >= EPSILON && Abs(trig.tan(right)) >= EPSILON
    requires Abs(radius) > 0.5 * Abs(track)
    requires trig.tan(right) == wheelbase / (radius + 0.5 * Abs(track))
    ensures FromWheels(trig, left, Some(Finite(right)), wheelbase, track)
         == Angle(trig.atan(TangentAt(wheelbase, radius)))
  {
    RadiusFromTangent(wheelbase, radius + 0.5 * Abs(track), trig.tan(right));
    OneWheel(trig, left, Some(Finite(right)), wheelbase, track, radius, right);
  }

  lemma Odometry(trig: Trig, speed: real, wheelbase: real, radius: real, minSpeed: real)
    requires Abs(wheelbase) >= EPSILON && radius != 0.0 && speed != 0.0 && Abs(speed) >= Max(0.0, minSpeed)
    ensures FromOdom(trig, Some(speed), Some(speed / radius), wheelbase, minSpeed)
         == Angle(trig.atan(TangentAt(wheelbase, radius)))
  {
    hide OdomTangent, TangentAt;
    CurvatureOf(trig, wheelbase, speed, radius);
  }

  /** Away from the near-straight thresholds every branch recovers the same centre angle, the one
      with tangent wheelbase / radius: both wheels, either wheel alone, and odometry. */
  lemma BranchesAgree(trig: Trig, left: real, right: real, absent: Option<Float>, wheelbase: real, track: real,
                      radius: real, speed: real, minSpeed: real)
    requires OnCircle(trig, left, right, wheelbase, track, radius) && Abs(wheelbase) >= EPSILON && !Present(absent)
    requires Abs(trig.tan(left) + trig.tan(right)) >= EPSILON
    requires Abs(trig.tan(left)) >= EPSILON && Abs(trig.tan(right)) >= EPSILON
    requires speed != 0.0 && Abs(speed) >= Max(0.0, minSpeed)
    ensures var centre := trig.atan(TangentAt(wheelbase, radius));
            && FromWheels(trig, Some(Finite(left)), Some(Finite(right)), wheelbase, track) == Angle(centre)
            && FromWheels(trig, Some(Finite(left)), absent, wheelbase, track) == Angle(centre)
            && FromWheels(trig, absent, Some(Finite(right)), wheelbase, track) == Angle(centre)
            && FromOdom(trig, Some(speed), Some(speed / radius), wheelbase, minSpeed) == Angle(centre)
            && (trig.TanInvertsAtan() ==> trig.tan(centre) == TangentAt(wheelbase, radius))
  {
    BothWheels(trig, left, right, wheelbase, track, radius);
    LeftAlone(trig, left, absent, wheelbase, track, radius);
    RightAlone(trig, absent, right, wheelbase, track, radius);
    Odometry(trig, speed, wheelbase, radius, minSpeed);
    hide FromWheels, FromOdom, TangentAt;
  }

  lemma OneWheel(trig: Trig, left: Option<Float>, right: Option<Float>, wheelbase: real, track: real, radius: real,
                 angle: real)
    requires Present(left) != Present(right) && (if Present(left) then left else right) == Some(Finite(angle))
    requires Abs(wheelbase) >= EPSILON && Abs(trig.tan(angle)) >= EPSILON && radius != 0.0
    requires wheelbase / trig.tan(angle)
          == if Present(left) then radius - 0.5 * Abs(track) else radius + 0.5 * Abs(track)
    ensures FromWheels(trig, left, right, wheelbase, track) == Angle(trig.atan(TangentAt(wheelbase, radius)))
  {
    hide TangentAt;
    var half := 0.5 * Abs(track);
    assert wheelbase / trig.tan(angle) + (if Present(left) then half else -half) == radius;
  }

  lemma YawRateTangent(wheelbase: real, speed: real, radius: real)
    requires speed != 0.0 && radius != 0.0
    ensures OdomTangent(wheelbase, speed / radius, speed) == TangentAt(wheelbase, radius)
    ensures SteerTangent(wheelbase, speed / radius / speed) == TangentAt(wheelbase, radius)
  {
    var rate, centre := speed / radius, wheelbase / radius;
    assert rate * radius == speed && centre * radius == wheelbase;
    assert wheelbase * rate == centre * speed by {
      assert wheelbase * rate == centre * (rate * radius);
    }
    QuotientUnique(wheelbase * rate, speed, centre);
    assert rate / speed * speed == rate;
    assert (wheelbase * (rate / speed)) * speed == wheelbase * rate;
    assert wheelbase * (rate / speed) == wheelbase * rate / speed by {
      QuotientUnique(wheelbase * rate, speed, wheelbase * (rate / speed));
    }
  }

  /** The joints that are present are those of wheels on the circle, away from the near-straight
      thresholds. */
  ghost predicate JointsOnCircle(trig: Trig, left: Option<Float>, right: Option<Float>, wheelbase: real, track: real,
                                 radius: real) {
    var half := 0.5 * Abs(track);
    && (Present(left) || Present(right) ==> Abs(radius) > half) && Abs(wheelbase) >= EPSILON && radius != 0.0
    && (Present(left) ==> && trig.tan(left.value.value) == wheelbase / (radius - half)
                          && Abs(trig.tan(left.value.value)) >= EPSILON)
    && (Present(right) ==> && trig.tan(right.value.value) == wheelbase / (radius + half)
                           && Abs(trig.tan(right.value.value)) >= EPSILON)
    && (Present(left) && Present(right) ==>
          Abs(trig.tan(left.value.value) + trig.tan(right.value.value)) >= EPSILON)
  }

  lemma JointsRecover(trig: Trig, left: Option<Float>, right: Option<Float>, wheelbase: real, track: real, radius: real)
    requires JointsOnCircle(trig, left, right, wheelbase, track, radius)
    ensures FromWheels(trig, left, right, wheelbase, track)
         == if Present(left) || Present(right) then Angle(trig.atan(TangentAt(wheelbase, radius))) else NoAngle
  {
    hide TangentAt;
    if Present(left) && Present(right) {
      hide FromWheels;
      BothWheels(trig, left.value.value, right.value.value, wheelbase, track, radius);
    } else if Present(left) {
      hide FromWheels;
      LeftAlone(trig, left.value.value, right, wheelbase, track, radius);
    } else if Present(right) {
      hide FromWheels;
      RightAlone(trig, left, right.value.value, wheelbase, track, radius);
    }
  }

  /** Odometry has both readings, and fast enough ones. */
  predicate Usable(speed: Option<real>, yawRate: Option<real>, minSpeed: real) {
    speed.Some? && yawRate.Some? && Abs(speed.value) >= Max(0.0, minSpeed)
  }

  lemma OdometryRecovers(trig: Trig, speed: Option<real>, yawRate: Option<real>, wheelbase: real, radius: real,
                         minSpeed: real)
    requires Abs(wheelbase) >= EPSILON && radius != 0.0 && (speed == Some(0.0) ==> minSpeed > 0.0)
    requires speed.Some? && yawRate.Some? ==> yawRate.value == speed.value / radius
    ensures FromOdom(trig, speed, yawRate, wheelbase, minSpeed)
         == if Usable(speed, yawRate, minSpeed) then Angle(trig.atan(TangentAt(wheelbase, radius))) else NoAngle
  {
    hide TangentAt, OdomTangent;
    if Usable(speed, yawRate, minSpeed) {
      hide FromOdom;
      Odometry(trig, speed.value, wheelbase, radius, minSpeed);
    }
  }

  /** Whichever joints and odometry there are of one circle, and whatever the tolerance, selection
      yields the centre angle, unless neither source yields anything. */
  lemma SelectionAgrees(trig: Trig, wrap: real -> real, left: Option<Float>, right: Option<Float>,
                        speed: Option<real>, yawRate: Option<real>, wheelbase: real, track: real, radius: real,
                        minSpeed: real, maxDelta: real)
    requires wrap(0.0) == 0.0 && JointsOnCircle(trig, left, right, wheelbase, track, radius)
    requires speed.Some? && yawRate.Some? ==> radius != 0.0 && yawRate.value == speed.value / radius
    requires speed == Some(0.0) ==> minSpeed > 0.0
    ensures var joint := FromWheels(trig, left, right, wheelbase, track);
            var odom := FromOdom(trig, speed, yawRate, wheelbase, minSpeed);
            SelectPhysical(wrap, joint, odom, maxDelta)
            == if Present(left) || Present(right) || Usable(speed, yawRate, minSpeed)
               then Angle(trig.atan(TangentAt(wheelbase, radius))) else NoAngle
  {
    hide FromWheels, FromOdom, TangentAt;
    JointsRecover(trig, left, right, wheelbase, track, radius);
    OdometryRecovers(trig, speed, yawRate, wheelbase, radius, minSpeed);
  }

  /** For any two angles, agreeing or not: the selected one is one of them, never further than the
      tolerance from the odometry's, and the joints' whenever that is near enough. */
  lemma SelectionArbitrates(wrap: real -> real, joint: real, odom: real, maxDelta: real)
    requires wrap(0.0) == 0.0
    ensures var r := SelectPhysical(wrap, Angle(joint), Angle(odom), maxDelta);
            && (r == Angle(joint) || r == Angle(odom))
            && Abs(wrap(odom - r.value)) <= Max(0.0, maxDelta)
            && (Abs(wrap(odom - joint)) <= Max(0.0, maxDelta) ==> r == Angle(joint))
  {
  }

  /** The same of the angles recovered from any joints and odometry; with one source alone its angle is
      taken, and a turning radius of zero anywhere is Python's exception. */
  lemma RecoveryArbitrates(trig: Trig, wrap: real -> real, left: Option<Float>, right: Option<Float>,
                           speed: Option<real>, yawRate: Option<real>, wheelbase: real, track: real,
                           minSpeed: real, maxDelta: real)
    requires wrap(0.0) == 0.0
    ensures var joint := FromWheels(trig, left, right, wheelbase, track);
            var odom := FromOdom(trig, speed, yawRate, wheelbase, minSpeed);
            var r := SelectPhysical(wrap, joint, odom, maxDelta);
            && (r.ZeroDivision? <==> joint.ZeroDivision? || odom.ZeroDivision?)
            && (r.NoAngle? <==> joint.NoAngle? && odom.NoAngle?)
            && (r.Angle? ==> r == joint || r == odom)
            && (r.Angle? && odom.Angle? ==> Abs(wrap(odom.value - r.value)) <= Max(0.0, maxDelta))
            && (r.Angle? && joint.Angle? && odom.Angle? && Abs(wrap(odom.value - joint.value)) <= Max(0.0, maxDelta)
                ==> r == joint)
  {
    hide FromWheels, FromOdom;
  }

  /** The near-straight branches: two joints that cancel give straight ahead, exactly; one joint within
      the threshold likewise; and two within it together give their mean, between the two. */
  lemma NearStraight(trig: Trig, left: real, right: real, absent: Option<Float>, wheelbase: real, track: real)
    requires !Present(absent)
    ensures left == -right && trig.tan(left) == -trig.tan(right) ==>
              FromWheels(trig, Some(Finite(left)), Some(Finite(right)), wheelbase, track) == Angle(0.0)
    ensures Abs(trig.tan(left) + trig.tan(right)) < EPSILON ==>
              var r := FromWheels(trig, Some(Finite(left)), Some(Finite(right)), wheelbase, track);
              r.Angle? && r.value - left == right - r.value
    ensures Abs(wheelbase) >= EPSILON && Abs(trig.tan(left)) < EPSILON ==>
              && FromWheels(trig, Some(Finite(left)), absent, wheelbase, track) == Angle(0.0)
              && FromWheels(trig, absent, Some(Finite(left)), wheelbase, track) == Angle(0.0)
    ensures Abs(wheelbase) < EPSILON ==>
              && FromWheels(trig, Some(Finite(left)), absent, wheelbase, track) == Angle(left)
              && FromWheels(trig, absent, Some(Finite(left)), wheelbase, track) == Angle(left)
  {
  }

  /** Odometry says nothing exactly when a reading is missing, too slow, or the wheelbase is degenerate;
      any angle it gives turns at the yaw rate read, at the speed read. */
  lemma OdomSpeaksIff(trig: Trig, speed: Option<real>, yawRate: Option<real>, wheelbase: real, minSpeed: real)
    requires trig.TanInvertsAtan()
    ensures var r := FromOdom(trig, speed, yawRate, wheelbase, minSpeed);
            && (r.NoAngle? <==> speed.None? || yawRate.None? || Abs(speed.value) < minSpeed || Abs(wheelbase) < EPSILON)
            && (r.ZeroDivision? ==> speed == Some(0.0))
            && (r.Angle? ==> speed.value != 0.0 && trig.tan(r.value) * speed.value == wheelbase * yawRate.value)
  {
    if speed.Some? && yawRate.Some? && speed.value != 0.0 {
      QuotientTimes(wheelbase * yawRate.value, speed.value);
    }
  }

  function Mirrored(angle: Option<Float>): Option<Float> {
    if Present(angle) then Some(Finite(-angle.value.value)) else angle
  }

  function Opposite(recovered: Recovered): Recovered {
    if recovered.Angle? then Angle(-recovered.value) else recovered
  }

  lemma CentreMirror(l: real, r: real)
    requires l + r != 0.0
    ensures CentreFrom(-r, -l) == -CentreFrom(l, r)
  {
    var product, sum := 2.0 * l * r, l + r;
    assert 2.0 * -r * -l == product;
    var centre := product / sum;
    assert centre * sum == product;
    QuotientUnique(product, -sum, -centre);
  }

  lemma RadiusMirror(trig: Trig, wheelbase: real, radius: real)
    requires trig.AtanOdd()
    ensures FromRadius(trig, wheelbase, -radius) == Opposite(FromRadius(trig, wheelbase, radius))
  {
    if radius != 0.0 {
      var tangent := wheelbase / radius;
      assert tangent * radius == wheelbase;
      QuotientUnique(wheelbase, -radius, -tangent);
    }
  }

  lemma ArmMirror(wheelbase: real, tangent: real)
    requires tangent != 0.0
    ensures wheelbase / -tangent == -(wheelbase / tangent)
  {
    var arm := wheelbase / tangent;
    assert arm * tangent == wheelbase;
    QuotientUnique(wheelbase, -tangent, -arm);
  }

  ghost predicate Odd(trig: Trig) {
    trig.AtanOdd() && forall x :: trig.tan(-x) == -trig.tan(x)
  }

  lemma BothMirror(trig: Trig, left: real, right: real, wheelbase: real, track: real)
    requires Odd(trig)
    ensures FromWheels(trig, Some(Finite(-right)), Some(Finite(-left)), wheelbase, track)
         == Opposite(FromWheels(trig, Some(Finite(left)), Some(Finite(right)), wheelbase, track))
  {
    hide CentreFrom;
    var l, r := trig.tan(left), trig.tan(right);
    if Abs(l + r) >= EPSILON {
      CentreMirror(l, r);
    }
  }

  lemma OneMirror(trig: Trig, angle: real, absent: Option<Float>, other: Option<Float>, wheelbase: real, track: real)
    requires Odd(trig) && !Present(absent) && !Present(other)
    ensures FromWheels(trig, absent, Some(Finite(-angle)), wheelbase, track)
         == Opposite(FromWheels(trig, Some(Finite(angle)), other, wheelbase, track))
  {
    hide FromRadius;
    var half, tangent := 0.5 * Abs(track), trig.tan(angle);
    if Abs(wheelbase) >= EPSILON && Abs(tangent) >= EPSILON {
      ArmMirror(wheelbase, tangent);
      RadiusMirror(trig, wheelbase, wheelbase / tangent + half);
    }
  }

  /** Turning the other way, with the joints exchanged, recovers the opposite angle, whatever is present
      and on every branch. */
  lemma WheelsMirror(trig: Trig, left: Option<Float>, right: Option<Float>, wheelbase: real, track: real)
    requires Odd(trig)
    ensures FromWheels(trig, Mirrored(right), Mirrored(left), wheelbase, track)
         == Opposite(FromWheels(trig, left, right, wheelbase, track))
  {
    hide FromWheels, Odd;
    if Present(left) && Present(right) {
      BothMirror(trig, left.value.value, right.value.value, wheelbase, track);
    } else if Present(left) {
      OneMirror(trig, left.value.value, Mirrored(right), right, wheelbase, track);
    } else if Present(right) {
      OneMirror(trig, -right.value.value, left, Mirrored(left), wheelbase, track);
    } else {
      NothingRecovered(trig, left, right, wheelbase, track);
      NothingRecovered(trig, right, left, wheelbase, track);
    }
  }

  lemma NothingRecovered(trig: Trig, left: Option<Float>, right: Option<Float>, wheelbase: real, track: real)
    requires !Present(left) && !Present(right)
    ensures FromWheels(trig, left, right, wheelbase, track) == NoAngle
  {
  }

  lemma RequestedSteer(trig: Trig, limits: Limits, linear: real, angular: real, source: int)
    requires limits.wheelbase >= EPSILON && Abs(linear) > Max(EPSILON, limits.deadband)
    ensures AckermannSteer(trig, limits, linear, angular, source).requested
         == SteerFor(trig, limits.wheelbase, angular / linear)
  {
    hide SteerPct, EffectiveSteeringLimit, SteerFor;
    assert Max(EPSILON, Abs(limits.wheelbase)) == limits.wheelbase;
  }

  lemma CurvatureOf(trig: Trig, wheelbase: real, speed: real, radius: real)
    requires speed != 0.0 && radius != 0.0
    ensures SteerFor(trig, wheelbase, speed / radius / speed) == trig.atan(TangentAt(wheelbase, radius))
    ensures trig.atan(OdomTangent(wheelbase, speed / radius, speed)) == trig.atan(TangentAt(wheelbase, radius))
  {
    hide OdomTangent, SteerTangent, TangentAt;
    YawRateTangent(wheelbase, speed, radius);
  }

  /** The recovered angle is also the unsaturated steer that was commanded for the same speed and
      yaw rate. */
  lemma RecoversTheCommand(trig: Trig, limits: Limits, speed: real, radius: real, source: int)
    requires radius != 0.0 && limits.wheelbase >= EPSILON && Abs(speed) > Max(EPSILON, limits.deadband)
    ensures AckermannSteer(trig, limits, speed, speed / radius, source).requested
         == trig.atan(TangentAt(limits.wheelbase, radius))
    ensures FromOdom(trig, Some(speed), Some(speed / radius), limits.wheelbase, 0.0)
         == Angle(AckermannSteer(trig, limits, speed, speed / radius, source).requested)
  {
    hide AckermannSteer, SteerFor, OdomTangent, TangentAt;
    RequestedSteer(trig, limits, speed, speed / radius, source);
    CurvatureOf(trig, limits.wheelbase, speed, radius);
  }
}
