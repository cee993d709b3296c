/** The legacy velocity-command logic of control_logic.py: speed clamping, Ackermann steering
    and timeout arbitration. */
module ControlLogic {
  import opened Numeric

  const SOURCE_UNKNOWN := 0
  const SOURCE_AUTO := 1
  const SOURCE_MANUAL := 2
  const SOURCE_SAFETY := 3
  const VALID_SOURCES := {SOURCE_UNKNOWN, SOURCE_AUTO, SOURCE_MANUAL, SOURCE_SAFETY}

  /** The two library functions the steering law calls. Lemmas state what they need of them. */
  datatype Trig = Trig(atan: real -> real, tan: real -> real) {
    ghost predicate AtanOdd() {
      forall x :: atan(-x) == -atan(x)
    }
    ghost predicate TanInvertsAtan() {
      forall x :: tan(atan(x)) == x
    }
    /** `rightAngle` is where the principal branch of `atan` ends. */
    ghost predicate Principal(rightAngle: real) {
      && rightAngle > 0.0
      && (forall x :: -rightAngle < atan(x) < rightAngle)
      && (forall x :: -rightAngle < x < rightAngle ==> atan(tan(x)) == x)
    }
  }

  datatype Limits = Limits(
    maxSpeed: real, maxReverse: real, deadband: real, minEffective: real, wheelbase: real,
    steeringLimit: real, operationalLimit: Option<real>, manualLimit: Option<real>)

  datatype DesiredCommand = DesiredCommand(
    driveEnabled: bool, estop: bool, speed: real, steerPct: int, brakePct: int,
    requestedLinear: real, requestedAngular: real, referenceSpeed: real,
    requestedCurvature: real, appliedCurvature: real, requestedSteer: real, appliedSteer: real,
    steeringLimitUsed: real, commandSource: int, steerSaturated: bool, usedSpeedFallback: bool,
    speedLimited: bool, minSpeedEnforced: bool)

  datatype Steering = Steering(
    pct: int, referenceSpeed: real, requestedCurvature: real, appliedCurvature: real,
    requested: real, applied: real, saturated: bool, usedFallback: bool)

  /** A `DesiredCommand` whose diagnostic fields keep their defaults. */
  function Bare(driveEnabled: bool, estop: bool, speed: real, steerPct: int, brakePct: int): DesiredCommand {
    DesiredCommand(driveEnabled, estop, speed, steerPct, brakePct,
                   0.0, 0.0, 0.0, 0.0, 0.0, 0.0, 0.0, 0.0, SOURCE_UNKNOWN, false, false, false, false)
  }

  function SafeCommand(): DesiredCommand {
    Bare(false, false, 0.0, 0, 0)
  }

  function EffectiveSteeringLimit(limits: Limits, source: int): real {
    var limit := Max(EPSILON, Abs(limits.steeringLimit));
    var configured := if source == SOURCE_MANUAL then limits.manualLimit else limits.operationalLimit;
    match configured
    case None => limit
    case Some(c) => Min(limit, Max(EPSILON, Abs(c)))
  }

  function SteerPct(applied: real, limit: real): int
    requires limit > 0.0
  {
    ClampInt(Round(applied / limit * 100.0), -100, 100)
  }

  /** The angle a percentage of the limit stands for. */
  function AngleOf(pct: int, limit: real): real {
    pct as real / 100.0 * Abs(limit)
  }

  /** The angle that is the same share of `scale` as the steer is of `limit`. */
  function Rescaled(steer: real, limit: real, scale: real): real
    requires limit > 0.0
  {
    steer / limit * scale
  }

  function SteerTangent(wheelbase: real, curvature: real): real {
    wheelbase * curvature
  }

  /** The steer that follows a curvature. */
  function SteerFor(trig: Trig, wheelbase: real, curvature: real): real {
    trig.atan(SteerTangent(wheelbase, curvature))
  }

  function SteerToward(trig: Trig, wheelbase: real, limit: real, appliedLimit: real, reference: real,
                       angular: real, usedFallback: bool): Steering
    requires wheelbase > 0.0 && limit > 0.0 && reference != 0.0
  {
    var curvature := angular / reference;
    var requested := SteerFor(trig, wheelbase, curvature);
    var applied := Clamp(requested, -appliedLimit, appliedLimit);
    Steering(SteerPct(applied, limit), reference, curvature, trig.tan(applied) / wheelbase,
             requested, applied, Abs(requested - applied) > EPSILON, usedFallback)
  }

  function AckermannSteer(trig: Trig, limits: Limits, linear: real, angular: real, source: int): Steering {
    var wheelbase := Max(EPSILON, Abs(limits.wheelbase));
    var limit := Max(EPSILON, Abs(limits.steeringLimit));
    var deadband := Max(0.0, limits.deadband);
    var minEffective := Max(0.0, limits.minEffective);
    var slow := Abs(linear) <= Max(EPSILON, deadband);
    if slow && Abs(angular) <= EPSILON then
      Steering(0, 0.0, 0.0, 0.0, 0.0, 0.0, false, false)
    else
      SteerToward(trig, wheelbase, limit, EffectiveSteeringLimit(limits.(steeringLimit := limit), source),
                  if slow then Max(minEffective, 0.1) else linear, angular, slow)
  }

  function ClampSpeed(limits: Limits, linear: real): (real, bool) {
    var maxSpeed := Max(0.0, limits.maxSpeed);
    var maxReverse := Max(0.0, limits.maxReverse);
    var deadband := Max(0.0, limits.deadband);
    if linear > 0.0 then
      var requested := Clamp(linear, 0.0, maxSpeed);
      (if requested < deadband then 0.0 else requested, Abs(requested - linear) > EPSILON)
    else if linear < 0.0 then
      var reverse := Clamp(Abs(linear), 0.0, maxReverse);
      (if reverse < deadband then 0.0 else -reverse, Abs(reverse - Abs(linear)) > EPSILON)
    else
      (0.0, false)
  }

  function CommandFromCmdVel(trig: Trig, limits: Limits, linear: real, angular: real, brakePct: int,
                             invertSteer: bool, driveEnabled: bool, source: int): DesiredCommand {
    var (speed, speedLimited) := ClampSpeed(limits, linear);
    var steeringLimits := limits.(deadband := Max(0.0, limits.deadband),
                                  minEffective := Clamp(limits.minEffective, 0.0, Max(0.0, limits.maxSpeed)));
    var steering := AckermannSteer(trig, steeringLimits, linear, angular, source);
    var brake := ClampInt(brakePct, 0, 100);
    var estop := brake > 0;
    DesiredCommand(driveEnabled, estop,
                   if estop then 0.0 else speed,
                   if estop then 0 else if invertSteer then -steering.pct else steering.pct,
                   brake, linear, angular, steering.referenceSpeed, steering.requestedCurvature,
                   steering.appliedCurvature, steering.requested, steering.applied,
                   EffectiveSteeringLimit(limits, source), source, steering.saturated,
                   steering.usedFallback, speedLimited, false)
  }

  datatype Arbitration = Arbitration(command: DesiredCommand, isFresh: bool)

  function SelectEffective(now: real, command: DesiredCommand, stamp: real, timeout: real): Arbitration {
    if now - stamp <= Max(0.0, timeout) then Arbitration(command, true)
    else Arbitration(SafeCommand(), false)
  }

  // ---------------------------------------------------------------- properties

  /** Every command leaves within the configured speed limits, the percent range and the
      effective steering limit, whatever was asked for. */
  lemma CommandInRange(trig: Trig, limits: Limits, linear: real, angular: real, brakePct: int,
                       invertSteer: bool, driveEnabled: bool, source: int)
    ensures var c := CommandFromCmdVel(trig, limits, linear, angular, brakePct, invertSteer, driveEnabled, source);
            && -Max(0.0, limits.maxReverse) <= c.speed <= Max(0.0, limits.maxSpeed)
            && -100 <= c.steerPct <= 100 && 0 <= c.brakePct <= 100
            && Abs(c.appliedSteer) <= c.steeringLimitUsed <= Max(EPSILON, Abs(limits.steeringLimit))
            && (c.estop <==> brakePct > 0) && (c.estop ==> c.speed == 0.0 && c.steerPct == 0)
  {
  }

  /** The operational limit binds every source but manual, the manual limit that one, and the steering
      limit all of them; a limit that is not configured binds nobody. */
  lemma SourceLimitBinds(trig: Trig, limits: Limits, linear: real, angular: real, brakePct: int,
                         invertSteer: bool, driveEnabled: bool, source: int)
    ensures var c := CommandFromCmdVel(trig, limits, linear, angular, brakePct, invertSteer, driveEnabled, source);
            && Abs(c.appliedSteer) <= Max(EPSILON, Abs(limits.steeringLimit))
            && (source != SOURCE_MANUAL && limits.operationalLimit.Some? ==>
                  Abs(c.appliedSteer) <= Max(EPSILON, Abs(limits.operationalLimit.value)))
            && (source == SOURCE_MANUAL && limits.manualLimit.Some? ==>
                  Abs(c.appliedSteer) <= Max(EPSILON, Abs(limits.manualLimit.value)))
  {
    CommandInRange(trig, limits, linear, angular, brakePct, invertSteer, driveEnabled, source);
    var c := CommandFromCmdVel(trig, limits, linear, angular, brakePct, invertSteer, driveEnabled, source);
    assert c.steeringLimitUsed == EffectiveSteeringLimit(limits, source);
    hide CommandFromCmdVel;
  }

  /** These are the bounds on the steer of a source, and there is no tighter one. */
  predicate WithinSourceLimits(limits: Limits, source: int, angle: real) {
    && Abs(angle) <= Max(EPSILON, Abs(limits.steeringLimit))
    && (source != SOURCE_MANUAL && limits.operationalLimit.Some? ==>
          Abs(angle) <= Max(EPSILON, Abs(limits.operationalLimit.value)))
    && (source == SOURCE_MANUAL && limits.manualLimit.Some? ==>
          Abs(angle) <= Max(EPSILON, Abs(limits.manualLimit.value)))
  }

  /** Some message of the source has this steer applied. */
  ghost predicate CanSteer(trig: Trig, limits: Limits, source: int, angle: real) {
    exists linear, angular ::
      CommandFromCmdVel(trig, limits, linear, angular, 0, false, true, source).appliedSteer == angle
  }

  /** What a source can steer is exactly what its limits and the right angle leave. */
  lemma CanSteerIff(trig: Trig, rightAngle: real, limits: Limits, source: int, angle: real)
    requires trig.Principal(rightAngle)
    ensures CanSteer(trig, limits, source, angle)
       <==> WithinSourceLimits(limits, source, angle) && -rightAngle < angle < rightAngle
  {
    if WithinSourceLimits(limits, source, angle) && -rightAngle < angle < rightAngle {
      var linear := Max(EPSILON, limits.deadband) + 1.0;
      var angular := SteerWith(trig, rightAngle, limits, source, linear, angle);
    }
    if linear, angular :|
      CommandFromCmdVel(trig, limits, linear, angular, 0, false, true, source).appliedSteer == angle {
      SourceLimitBinds(trig, limits, linear, angular, 0, false, true, source);
      AppliedBelowRightAngle(trig, rightAngle, limits, linear, angular, source);
    }
  }

  lemma AppliedBelowRightAngle(trig: Trig, rightAngle: real, limits: Limits, linear: real, angular: real, source: int)
    requires trig.Principal(rightAngle)
    ensures var c := CommandFromCmdVel(trig, limits, linear, angular, 0, false, true, source);
            -rightAngle < c.appliedSteer < rightAngle
  {
    hide SteerPct, ClampSpeed;
  }

  /** The yaw rate that has `angle` applied at a speed above the deadband. */
  lemma SteerWith(trig: Trig, rightAngle: real, limits: Limits, source: int, linear: real, angle: real)
    returns (angular: real)
    requires trig.Principal(rightAngle) && linear > Max(EPSILON, limits.deadband)
    requires WithinSourceLimits(limits, source, angle) && -rightAngle < angle < rightAngle
    ensures CommandFromCmdVel(trig, limits, linear, angular, 0, false, true, source).appliedSteer == angle
  {
    var wheelbase := Max(EPSILON, Abs(limits.wheelbase));
    var curvature := trig.tan(angle) / wheelbase;
    angular := curvature * linear;
    QuotientUnique(angular, linear, curvature);
    assert SteerTangent(wheelbase, angular / linear) == trig.tan(angle);
    assert SteerFor(trig, wheelbase, angular / linear) == angle;
    hide SteerPct, ClampSpeed;
  }

  /** The limit a command reports is the tightest bound on the steer of its source. */
  lemma LimitUsedIsTight(trig: Trig, limits: Limits, linear: real, angular: real, brakePct: int,
                         invertSteer: bool, driveEnabled: bool, source: int, angle: real)
    ensures var c := CommandFromCmdVel(trig, limits, linear, angular, brakePct, invertSteer, driveEnabled, source);
            Abs(angle) <= c.steeringLimitUsed <==> WithinSourceLimits(limits, source, angle)
  {
  }

  /** Inversion negates the steering percentage and changes nothing else. */
  lemma InversionNegates(trig: Trig, limits: Limits, linear: real, angular: real, brakePct: int,
                         driveEnabled: bool, source: int)
    ensures var d := CommandFromCmdVel(trig, limits, linear, angular, brakePct, false, driveEnabled, source);
            CommandFromCmdVel(trig, limits, linear, angular, brakePct, true, driveEnabled, source)
              == d.(steerPct := -d.steerPct)
  {
  }

  /** What the diagnostic fields of a command report: the request, whether a speed limit or a steering
      limit changed it, and the reference speed, which is the requested one above the deadband and a
      fallback of at least 0.1 below it, used only if the vehicle is to turn at all. */
  lemma ReportMeans(trig: Trig, limits: Limits, linear: real, angular: real, brakePct: int,
                    invertSteer: bool, driveEnabled: bool, source: int)
    ensures var c := CommandFromCmdVel(trig, limits, linear, angular, brakePct, invertSteer, driveEnabled, source);
            var slow := Abs(linear) <= Max(EPSILON, limits.deadband);
            && c.requestedLinear == linear && c.requestedAngular == angular && c.commandSource == source
            && c.driveEnabled == driveEnabled && !c.minSpeedEnforced
            && (c.speedLimited <==>
                linear > Max(0.0, limits.maxSpeed) + EPSILON || -linear > Max(0.0, limits.maxReverse) + EPSILON)
            && (c.steerSaturated <==> Abs(c.requestedSteer - c.appliedSteer) > EPSILON)
            && (c.usedSpeedFallback <==> slow && Abs(angular) > EPSILON)
            && (!slow ==> c.referenceSpeed == linear)
            && (c.usedSpeedFallback ==>
                  && c.referenceSpeed >= 0.1 && c.referenceSpeed >= Min(limits.minEffective, limits.maxSpeed)
                  && (c.referenceSpeed == 0.1 || c.referenceSpeed == limits.minEffective
                      || c.referenceSpeed == limits.maxSpeed)
                  && c.referenceSpeed <= Max(0.1, Max(0.0, limits.maxSpeed))
                  && c.referenceSpeed <= Max(0.1, limits.minEffective))
            && (slow && Abs(angular) <= EPSILON ==>
                  && c.referenceSpeed == c.requestedCurvature == c.appliedCurvature == 0.0
                  && c.requestedSteer == c.appliedSteer == 0.0)
  {
    hide SteerPct, SteerFor, EffectiveSteeringLimit;
  }

  lemma SteeringCurvature(trig: Trig, limits: Limits, linear: real, angular: real, source: int)
    ensures var s := AckermannSteer(trig, limits, linear, angular, source);
            var wheelbase := Max(EPSILON, Abs(limits.wheelbase));
            s.referenceSpeed != 0.0 ==>
              && s.requestedCurvature == angular / s.referenceSpeed
              && s.requested == SteerFor(trig, wheelbase, s.requestedCurvature)
              && s.appliedCurvature == trig.tan(s.applied) / wheelbase
  {
    hide SteerPct, SteerFor, EffectiveSteeringLimit;
  }

  /** The curvatures a command reports are those of the request and of the steer it applies, and the steer
      it reports as requested is the one that follows the former. */
  lemma CurvatureReported(trig: Trig, limits: Limits, linear: real, angular: real, brakePct: int,
                          invertSteer: bool, driveEnabled: bool, source: int)
    ensures var c := CommandFromCmdVel(trig, limits, linear, angular, brakePct, invertSteer, driveEnabled, source);
            var wheelbase := Max(EPSILON, Abs(limits.wheelbase));
            c.referenceSpeed != 0.0 ==>
              && c.requestedCurvature * c.referenceSpeed == angular
              && c.requestedSteer == trig.atan(SteerTangent(wheelbase, c.requestedCurvature))
              && c.appliedCurvature * wheelbase == trig.tan(c.appliedSteer)
  {
    var steeringLimits := limits.(deadband := Max(0.0, limits.deadband),
                                  minEffective := Clamp(limits.minEffective, 0.0, Max(0.0, limits.maxSpeed)));
    SteeringCurvature(trig, steeringLimits, linear, angular, source);
    var s := AckermannSteer(trig, steeringLimits, linear, angular, source);
    hide AckermannSteer, ClampSpeed, EffectiveSteeringLimit;
    if s.referenceSpeed != 0.0 {
      QuotientTimes(angular, s.referenceSpeed);
      QuotientTimes(trig.tan(s.applied), Max(EPSILON, Abs(limits.wheelbase)));
    }
  }

  /** Faster requests never yield slower commands, across the deadband, the reverse branch
      and both saturations; a command never exceeds its request in magnitude or flips its sign. */
  lemma SpeedMonotone(limits: Limits, x: real, y: real)
    requires x <= y
    ensures ClampSpeed(limits, x).0 <= ClampSpeed(limits, y).0
    ensures Abs(ClampSpeed(limits, x).0) <= Abs(x) && 0.0 <= ClampSpeed(limits, x).0 * x
  {
  }

  /** A request is obeyed to the letter exactly when it is zero, or in the band between the deadband
      and the limit of its direction. */
  lemma SpeedExactIff(limits: Limits, linear: real)
    ensures ClampSpeed(limits, linear).0 == linear <==>
              || linear == 0.0
              || Max(0.0, limits.deadband) <= linear <= limits.maxSpeed
              || Max(0.0, limits.deadband) <= -linear <= limits.maxReverse
  {
  }

  lemma ScaledError(given: real, share: real, tolerance: real, scale: real)
    requires scale > 0.0 && -tolerance <= given - share <= tolerance
    ensures Near(given * scale, share * scale, tolerance * scale)
  {
    var error := given - share;
    assert error * scale == given * scale - share * scale by { MulDifference(given, share, scale); }
    assert error * scale <= tolerance * scale by { MulMonotone(error, tolerance, scale); }
    assert -(tolerance * scale) <= error * scale by {
      MulMonotone(-tolerance, error, scale);
      MulDifference(0.0, tolerance, scale);
    }
  }

  lemma ShareInUnit(steer: real, limit: real)
    requires limit > 0.0 && Abs(steer) <= limit
    ensures -1.0 <= steer / limit <= 1.0
  {
    var share := steer / limit;
    assert share * limit == steer;
    if share > 1.0 {
      MulStrict(1.0, share, limit);
    } else if share < -1.0 {
      MulStrict(share, -1.0, limit);
    }
  }

  lemma SharePct(steer: real, limit: real)
    requires limit > 0.0 && Abs(steer) <= limit
    ensures SteerPct(steer, limit) == Round(steer / limit * 100.0)
  {
    ShareInUnit(steer, limit);
    var x := steer / limit * 100.0;
    RoundMonotone(x, 100.0);
    RoundMonotone(-100.0, x);
    RoundExact(100);
    RoundExact(-100);
    hide Round;
  }

  lemma PctError(pct: int, share: real, scale: real)
    requires scale > 0.0 && -0.5 <= pct as real - share * 100.0 <= 0.5
    ensures Near(AngleOf(pct, scale), share * scale, scale / 200.0)
  {
    var given := pct as real / 100.0;
    assert AngleOf(pct, scale) == given * scale;
    hide AngleOf;
    ScaledError(given, share, 0.005, scale);
  }

  /** The percentage is the nearest one: of any scale it stands for an angle within half a percent
      of that scale from the share of the limit it came from. */
  lemma SteerPctNearest(steer: real, limit: real, scale: real)
    requires limit > 0.0 && Abs(steer) <= limit && scale > 0.0
    ensures Near(AngleOf(SteerPct(steer, limit), scale), Rescaled(steer, limit, scale), scale / 200.0)
  {
    var share := steer / limit;
    assert Rescaled(steer, limit, scale) == share * scale;
    hide *;
    SharePct(steer, limit);
    RoundNearest(share * 100.0);
    PctError(SteerPct(steer, limit), share, scale);
  }

  /** Steers less than a percent of the limit apart have percentages at most one apart. */
  lemma SteerPctNear(steer: real, other: real, limit: real)
    requires limit > 0.0 && Abs(steer) <= limit && Abs(other) <= limit && Abs(steer - other) < limit / 100.0
    ensures -1 <= SteerPct(steer, limit) - SteerPct(other, limit) <= 1
  {
    SharePct(steer, limit);
    SharePct(other, limit);
    ShareDifference(steer, other, limit);
    ShareDifference(other, steer, limit);
    var x, y := steer / limit * 100.0, other / limit * 100.0;
    hide SteerPct, Round;
    RoundNearest(x);
    RoundNearest(y);
  }

  lemma ShareDifference(steer: real, other: real, limit: real)
    requires limit > 0.0 && steer - other < limit / 100.0
    ensures steer / limit - other / limit < 0.01
  {
    var share, share' := steer / limit, other / limit;
    assert share * limit == steer && share' * limit == other;
    var gap := share - share';
    assert gap * limit == steer - other by { MulDifference(share, share', limit); }
    if gap >= 0.01 {
      MulMonotone(0.01, gap, limit);
    }
  }

  lemma PctNear(pct: int, other: int, scale: real)
    requires scale > 0.0 && -1 <= pct - other <= 1
    ensures Near(AngleOf(other, scale), AngleOf(pct, scale), scale / 100.0)
  {
    var x, y := other as real / 100.0, pct as real / 100.0;
    assert AngleOf(other, scale) == x * scale && AngleOf(pct, scale) == y * scale;
    hide AngleOf;
    ScaledError(x, y, 0.01, scale);
  }

  /** Unless the steer was clamped, the vehicle turns with the curvature that was asked for, which is
      the yaw rate over the reference speed. */
  lemma CurvatureRealised(trig: Trig, wheelbase: real, limit: real, appliedLimit: real, reference: real,
                          angular: real, usedFallback: bool)
    requires trig.TanInvertsAtan() && wheelbase > 0.0 && limit > 0.0 && reference != 0.0
    ensures var s := SteerToward(trig, wheelbase, limit, appliedLimit, reference, angular, usedFallback);
            s.applied == s.requested ==>
              s.appliedCurvature == s.requestedCurvature && s.appliedCurvature * reference == angular
  {
    var s := SteerToward(trig, wheelbase, limit, appliedLimit, reference, angular, usedFallback);
    var curvature := angular / reference;
    assert trig.tan(s.requested) == SteerTangent(wheelbase, curvature);
    QuotientUnique(SteerTangent(wheelbase, curvature), wheelbase, curvature);
    assert curvature * reference == angular;
  }

  lemma DivideNegated(x: real, y: real)
    requires y != 0.0
    ensures -x / y == -(x / y)
  {
  }

  lemma MulNegated(x: real, y: real)
    ensures x * -y == -(x * y)
  {
  }

  lemma SteerPctMirror(applied: real, limit: real)
    requires limit > 0.0
    ensures SteerPct(-applied, limit) == -SteerPct(applied, limit)
  {
    var ratio := applied / limit;
    DivideNegated(applied, limit);
    RoundOdd(ratio * 100.0);
  }

  lemma RequestMirror(trig: Trig, wheelbase: real, angular: real, reference: real)
    requires trig.AtanOdd() && reference != 0.0
    ensures SteerFor(trig, wheelbase, -angular / reference) == -SteerFor(trig, wheelbase, angular / reference)
  {
    DivideNegated(angular, reference);
    MulNegated(wheelbase, angular / reference);
  }

  lemma SteerTowardMirror(trig: Trig, wheelbase: real, limit: real, appliedLimit: real, reference: real,
                          angular: real, usedFallback: bool)
    requires trig.AtanOdd() && wheelbase > 0.0 && limit > 0.0 && reference != 0.0 && appliedLimit >= 0.0
    ensures var right := SteerToward(trig, wheelbase, limit, appliedLimit, reference, angular, usedFallback);
            var left := SteerToward(trig, wheelbase, limit, appliedLimit, reference, -angular, usedFallback);
            left.pct == -right.pct && left.applied == -right.applied && left.requested == -right.requested
  {
    RequestMirror(trig, wheelbase, angular, reference);
    SteerPctMirror(Clamp(SteerFor(trig, wheelbase, angular / reference), -appliedLimit, appliedLimit), limit);
  }

  /** Mirroring the yaw rate mirrors the steering exactly, rounding included. */
  lemma SteeringMirror(trig: Trig, limits: Limits, linear: real, angular: real, source: int)
    requires trig.AtanOdd()
    ensures var right := AckermannSteer(trig, limits, linear, angular, source);
            var left := AckermannSteer(trig, limits, linear, -angular, source);
            left.pct == -right.pct && left.applied == -right.applied && left.requested == -right.requested
  {
    var slow := Abs(linear) <= Max(EPSILON, Max(0.0, limits.deadband));
    if !(slow && Abs(angular) <= EPSILON) {
      var limit := Max(EPSILON, Abs(limits.steeringLimit));
      SteerTowardMirror(trig, Max(EPSILON, Abs(limits.wheelbase)), limit,
                        EffectiveSteeringLimit(limits.(steeringLimit := limit), source),
                        if slow then Max(Max(0.0, limits.minEffective), 0.1) else linear, angular, slow);
    }
  }
}
