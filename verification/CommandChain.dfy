/** The two routes from a `CmdVelFinal` message to the Gazebo backend: the controller server's
    legacy callback, and the adapter, wire and consumer of the canonical route. */
module CommandChain {
  import opened Numeric
  import opened ControlLogic
  import Legacy = LegacyVehicleCommand
  import Canonical = CanonicalConsumer

  /** The backend's `CommandState`. */
  datatype CommandState = CommandState(driveEnabled: bool, estop: bool, speed: real, steerPct: int, brakePct: int)

  /** The state after `safe_reset`. */
  const RESET := CommandState(false, false, 0.0, 0, 0)

  /** Applying a command calls the setters, which clamp. */
  function Apply(limits: Limits, cmd: DesiredCommand): CommandState {
    CommandState(cmd.driveEnabled, cmd.estop, Clamp(cmd.speed, -limits.maxReverse, limits.maxSpeed),
                 ClampInt(cmd.steerPct, -100, 100), ClampInt(cmd.brakePct, 0, 100))
  }

  /** The linear and angular fields Gazebo receives. */
  function Twist(state: CommandState, maxSteering: real, invertActuation: bool): (real, real) {
    if !state.driveEnabled || state.estop || state.brakePct > 0 then (0.0, 0.0)
    else
      var angle := AngleOf(state.steerPct, maxSteering);
      (state.speed, if invertActuation then -angle else angle)
  }

  datatype Config = Config(
    limits: Limits, invertSteer: bool, autoDriveEnabled: bool, autoTimeout: real, estopBrakePct: int,
    simMaxSteering: real, maxFutureSkew: real)
  {
    function Consumer(): Canonical.Config {
      Canonical.Config(limits.maxSpeed, limits.maxReverse, simMaxSteering, autoTimeout, maxFutureSkew)
    }
    /** What the controller makes of its parameters: at construction it replaces a smaller steering
        limit and a negative reverse speed. The forward speed it takes as it is. */
    predicate Normalised() {
      limits.steeringLimit >= EPSILON && limits.maxReverse >= 0.0
    }
  }

  datatype Source = Init | Auto | AutoTimeout | Estop | FromCanonical(reason: Canonical.Reason)

  datatype Controller = Controller(
    autoCmd: DesiredCommand, autoStamp: real, lastSource: Source, backend: CommandState)

  function LegacyCommand(trig: Trig, config: Config, msg: Legacy.CmdVelFinal): DesiredCommand
    requires msg.linear.Finite? && msg.angular.Finite?
  {
    CommandFromCmdVel(trig, config.limits, msg.linear.value, msg.angular.value, msg.brakePct,
                      config.invertSteer, config.autoDriveEnabled, msg.source)
  }

  function LegacyTick(config: Config, c: Controller, now: real): Controller {
    var result := SelectEffective(now, c.autoCmd, c.autoStamp, config.autoTimeout);
    if result.command.estop then
      var brake := MaxInt(result.command.brakePct, config.estopBrakePct);
      c.(lastSource := Estop, backend := Apply(config.limits, Bare(false, true, 0.0, 0, brake)))
    else
      c.(lastSource := if result.isFresh then Auto else AutoTimeout, backend := Apply(config.limits, result.command))
  }

  function SampleOf(msg: Legacy.VehicleCommand): Canonical.Sample {
    Canonical.Sample(msg.stampNs, msg.source, msg.driveEnabled, msg.emergencyStop, msg.brakeRatio, msg.speed,
                     msg.steeringAngle, msg.steeringVelocity, msg.acceleration, msg.jerk,
                     Finite(Legacy.DecodeDuration(msg.validFor)))
  }

  function CanonicalCallback(config: Config, c: Controller, e: Canonical.Effective, stamp: real): Controller
    requires config.simMaxSteering > 0.0
  {
    c.(autoCmd := Canonical.DesiredFromCanonical(e, config.simMaxSteering).value, autoStamp := stamp,
       lastSource := FromCanonical(e.reason))
  }

  function CanonicalTick(config: Config, c: Controller, e: Canonical.Effective): Controller
    requires config.simMaxSteering > 0.0
  {
    var cmd := Canonical.DesiredFromCanonical(e, config.simMaxSteering).value;
    c.(autoCmd := cmd, lastSource := FromCanonical(e.reason), backend := Apply(config.limits, cmd))
  }

  /** The command callbacks and the control tick of controller_server_node.py. The consumer is
      null in the legacy input mode. */
  class ControllerServer {
    const config: Config
    const consumer: Canonical.CanonicalCommandConsumer?
    var autoCmd: DesiredCommand
    var autoStamp: real
    var lastSource: Source
    var backend: CommandState

    function Now(): Controller
      reads this
    {
      Controller(autoCmd, autoStamp, lastSource, backend)
    }

    ghost predicate Valid() {
      consumer != null ==> config.Consumer().Valid() && consumer.config == config.Consumer()
    }

    constructor (config: Config, canonical: bool)
      requires canonical ==> config.Consumer().Valid()
      ensures Valid() && this.config == config && Now() == Controller(SafeCommand(), 0.0, Init, RESET)
      ensures if canonical then consumer != null && fresh(consumer) && consumer.Now() == Canonical.Initial()
              else consumer == null
    {
      this.config := config;
      autoCmd, autoStamp, lastSource, backend := SafeCommand(), 0.0, Init, RESET;
      if canonical {
        consumer := new Canonical.CanonicalCommandConsumer(config.Consumer());
      } else {
        consumer := null;
      }
    }

    method OnCmdVelFinal(trig: Trig, msg: Legacy.CmdVelFinal, now: real)
      requires msg.linear.Finite? && msg.angular.Finite?
      modifies this
      ensures Now() == old(Now()).(autoCmd := LegacyCommand(trig, config, msg), autoStamp := now)
    {
      autoCmd := CommandFromCmdVel(trig, config.limits, msg.linear.value, msg.angular.value, msg.brakePct,
                                   config.invertSteer, config.autoDriveEnabled, msg.source);
      autoStamp := now;
    }

    method OnCanonicalVehicleCommand(msg: Legacy.VehicleCommand, rosNow: int, ingestedAt: real, stampedAt: real)
      requires Valid() && consumer != null
      modifies this, consumer
      ensures consumer.Now()
           == Canonical.IngestStep(config.Consumer(), old(consumer.Now()), SampleOf(msg), rosNow, ingestedAt)
      ensures Now() == CanonicalCallback(config, old(Now()), consumer.effective, stampedAt)
    {
      var effective := consumer.Ingest(SampleOf(msg), rosNow, ingestedAt);
      autoCmd := Canonical.DesiredFromCanonical(effective, config.simMaxSteering).value;
      autoStamp := stampedAt;
      lastSource := FromCanonical(effective.reason);
    }

    method ControlTick(now: real)
      requires Valid()
      modifies this, consumer
      ensures consumer == null ==> Now() == LegacyTick(config, old(Now()), now)
      ensures consumer != null ==>
                && consumer.Now() == Canonical.TickStep(old(consumer.Now()), now)
                && Now() == CanonicalTick(config, old(Now()), consumer.effective)
    {
      if consumer != null {
        var effective := consumer.Tick(now);
        autoCmd := Canonical.DesiredFromCanonical(effective, config.simMaxSteering).value;
        backend := Apply(config.limits, autoCmd);
        lastSource := FromCanonical(effective.reason);
        return;
      }
      var result := SelectEffective(now, autoCmd, autoStamp, config.autoTimeout);
      var cmd := result.command;
      if cmd.estop {
        cmd := Bare(false, true, 0.0, 0, MaxInt(cmd.brakePct, config.estopBrakePct));
        lastSource := Estop;
      } else {
        lastSource := if result.isFresh then Auto else AutoTimeout;
      }
      backend := Apply(config.limits, cmd);
    }
  }

  /** What the source on show says after a legacy tick: an E-stop, a command within its timeout, or one
      past it, which drives nothing. */
  lemma LegacySourceMeans(config: Config, c: Controller, now: real)
    ensures var r, late := LegacyTick(config, c, now), now - c.autoStamp > Max(0.0, config.autoTimeout);
            && (r.lastSource == AutoTimeout <==> late)
            && (r.lastSource == Estop <==> !late && c.autoCmd.estop)
            && (r.lastSource == Auto <==> !late && !c.autoCmd.estop)
            && (late ==> !r.backend.driveEnabled && !r.backend.estop)
            && (r.lastSource == Estop ==> !r.backend.driveEnabled && r.backend.estop
                                          && r.backend.brakePct >= ClampInt(c.autoCmd.brakePct, 0, 100))
            && r.autoCmd == c.autoCmd && r.autoStamp == c.autoStamp
  {
  }

  /** A sample of the canonical route is noted with its reason and its time and reaches the backend only at
      the next tick, as the consumer then has it; that tick leaves the time alone. */
  lemma CanonicalSourceMeans(config: Config, c: Controller, e: Canonical.Effective, stamp: real,
                             later: Canonical.Effective)
    requires config.simMaxSteering > 0.0
    ensures var noted := CanonicalCallback(config, c, e, stamp);
            var ticked := CanonicalTick(config, noted, later);
            && noted.autoStamp == ticked.autoStamp == stamp && noted.backend == c.backend
            && noted.lastSource == FromCanonical(e.reason) && ticked.lastSource == FromCanonical(later.reason)
            && noted.autoCmd.speed == e.speed && noted.autoCmd.estop == e.emergencyStop
            && ticked.autoCmd.speed == later.speed && ticked.autoCmd.estop == later.emergencyStop
            && (later == e ==> ticked.autoCmd == noted.autoCmd)
            && ticked.backend.driveEnabled == later.driveEnabled && ticked.backend.estop == later.emergencyStop
            && ticked.backend.speed == Clamp(later.speed, -config.limits.maxReverse, config.limits.maxSpeed)
  {
  }

  /** The sample the consumer sees of a translated command: quantities narrowed, rates zero, the rest as
      it was sent. */
  lemma SampleSent(wire: Legacy.Wire, value: Legacy.VehicleCommandValue, stampNs: int)
    ensures var sample := SampleOf(Legacy.Publish(wire, value, stampNs));
            && sample.AllFinite() && sample.stampNs == stampNs && sample.source == value.source
            && sample.driveEnabled == value.driveEnabled && sample.emergencyStop == value.emergencyStop
            && sample.brakeRatio.value == wire.narrow(value.brakeRatio)
            && sample.speed.value == wire.narrow(value.speed)
            && sample.steeringAngle.value == wire.narrow(value.steeringAngle)
            && sample.steeringVelocity.value == sample.acceleration.value == sample.jerk.value == 0.0
            && Abs(sample.validFor.value - value.validFor) <= 0.5 / NANOS as real
  {
    Legacy.DurationRoundTrip(value.validFor);
  }

  // ---------------------------------------------------------------- the two routes

  /** Both routes run under one set of limits. */
  ghost predicate EqualLimits(adapter: Legacy.Config, config: Config) {
    && adapter.Valid() && config.Consumer().Valid()
    && config.limits == adapter.Limits() && config.autoDriveEnabled == adapter.driveEnabled
    && config.simMaxSteering == adapter.steeringLimit
  }

  /** The backend after the legacy callback at `stamp` and one control tick at `now`. */
  function LegacyRoute(trig: Trig, config: Config, c: Controller, msg: Legacy.CmdVelFinal, stamp: real,
                       now: real): CommandState
    requires msg.linear.Finite? && msg.angular.Finite?
  {
    LegacyTick(config, c.(autoCmd := LegacyCommand(trig, config, msg), autoStamp := stamp), now).backend
  }

  /** The adapter's message for `msg`, as the canonical callback reads it. */
  function AdapterSample(trig: Trig, wire: Legacy.Wire, adapter: Legacy.Config, msg: Legacy.CmdVelFinal,
                         stampNs: int): Canonical.Sample {
    SampleOf(Legacy.Publish(wire, Legacy.Translate(trig, adapter, msg), stampNs))
  }

  /** The backend after the sample is ingested at `received` and one control tick at `now`. */
  function CanonicalRoute(config: Config, c: Controller, s: Canonical.State, sample: Canonical.Sample,
                          rosNow: int, received: real, now: real): CommandState
    requires config.simMaxSteering > 0.0
  {
    var ingested := Canonical.IngestStep(config.Consumer(), s, sample, rosNow, received);
    CanonicalTick(config, c, Canonical.TickStep(ingested, now).effective).backend
  }

  /** The adapter's validity, as the consumer reads it from the wire. */
  function WireOf(adapter: Legacy.Config): real {
    Legacy.DecodeDuration(Legacy.EncodeDuration(adapter.validFor))
  }

  /** What the consumer asks of the clocks and of the wire duration. */
  ghost predicate FreshStamp(config: Config, validity: real, stampNs: int, rosNow: int, lastStamp: Option<int>) {
    && stampNs > 0 && (lastStamp.Some? ==> lastStamp.value < stampNs)
    && stampNs - rosNow <= Round(config.maxFutureSkew * NANOS as real)
    && validity > 0.0 && rosNow - stampNs <= Round(Min(validity, config.autoTimeout) * NANOS as real)
  }

  /** What the consumer asks of the quantities, as they come off the wire. */
  predicate Survives(wire: Legacy.Wire, config: Config, speed: real, angle: real) {
    && -config.limits.maxReverse <= wire.narrow(speed) <= config.limits.maxSpeed
    && Abs(wire.narrow(angle)) <= config.simMaxSteering
  }

  /** The adapter's validity reaches the consumer as a positive one iff it rounds to at least one
      nanosecond. */
  lemma WireValidityPositive(adapter: Legacy.Config)
    requires adapter.Valid()
    ensures WireOf(adapter) > 0.0 <==> adapter.validFor > 0.5 / NANOS as real
  {
    Legacy.DurationRoundTrip(adapter.validFor);
    var scaled := adapter.validFor * NANOS as real;
    assert scaled > 0.5 <==> adapter.validFor > 0.5 / NANOS as real;
    assert Round(scaled) > 0 <==> scaled > 0.5;
  }

  lemma TranslationInContract(trig: Trig, adapter: Legacy.Config, msg: Legacy.CmdVelFinal)
    ensures var value := Legacy.Translate(trig, adapter, msg);
            value.source in VALID_SOURCES && 0.0 <= value.brakeRatio <= 1.0 && value.validFor == adapter.validFor
  {
    if msg.linear.Finite? && msg.angular.Finite? {
      CommandInRange(trig, adapter.Limits(), msg.linear.value, msg.angular.value, msg.brakePct, false,
                     adapter.driveEnabled, msg.source);
      hide CommandFromCmdVel;
    }
  }

  /** Under any two configurations, the consumer accepts the translation of a legacy message, finite
      or not, exactly when the clocks are in order and the narrowed speed and angle are within its
      own bounds. */
  lemma TranslatedCommandAccepted(trig: Trig, wire: Legacy.Wire, adapter: Legacy.Config, config: Config,
                                  msg: Legacy.CmdVelFinal, stampNs: int, rosNow: int, lastStamp: Option<int>)
    requires wire.Rounds() && adapter.Valid() && config.Consumer().Valid()
    ensures var sample := AdapterSample(trig, wire, adapter, msg, stampNs);
            var value := Legacy.Translate(trig, adapter, msg);
            Canonical.InvalidReason(config.Consumer(), sample, rosNow, lastStamp).None?
            <==>
            && FreshStamp(config, WireOf(adapter), stampNs, rosNow, lastStamp)
            && Survives(wire, config, value.speed, value.steeringAngle)
  {
    TranslationInContract(trig, adapter, msg);
    Legacy.NarrowZero(wire);
    hide Legacy.Translate;
  }

  /** No command the adapter can produce is refused for its contents: acceptance is a matter of
      clocks alone. */
  ghost predicate ClocksDecide(trig: Trig, wire: Legacy.Wire, adapter: Legacy.Config, config: Config) {
    forall msg, stampNs, rosNow, lastStamp ::
      FreshStamp(config, WireOf(adapter), stampNs, rosNow, lastStamp) ==>
        var sample := AdapterSample(trig, wire, adapter, msg, stampNs);
        Canonical.InvalidReason(config.Consumer(), sample, rosNow, lastStamp).None?
  }

  /** Narrowing does not lift a speed limit that can be reached above itself. */
  predicate SpeedLimitSurvives(wire: Legacy.Wire, limit: real, deadband: real) {
    limit >= deadband ==> wire.narrow(limit) <= limit
  }

  /** Narrowing does not lift the furthest applied steer above the consumer's bound. A reach past a
      right angle is never reached. */
  ghost predicate SteerReachSurvives(wire: Legacy.Wire, rightAngle: real, reach: real, bound: real) {
    if reach < rightAngle then wire.narrow(reach) <= bound
    else forall angle :: 0.0 < angle < rightAngle ==> wire.narrow(angle) <= bound
  }

  ghost predicate SourceSurvives(wire: Legacy.Wire, rightAngle: real, adapter: Legacy.Config, source: int) {
    SteerReachSurvives(wire, rightAngle, EffectiveSteeringLimit(adapter.Limits(), source), adapter.steeringLimit)
  }

  /** The furthest speeds and steers the adapter can command survive the wire. */
  ghost predicate ExtremesSurvive(wire: Legacy.Wire, rightAngle: real, adapter: Legacy.Config) {
    && SpeedLimitSurvives(wire, adapter.maxSpeed, adapter.deadband)
    && SpeedLimitSurvives(wire, adapter.maxReverse, adapter.deadband)
    && (forall source :: source in VALID_SOURCES ==> SourceSurvives(wire, rightAngle, adapter, source))
  }

  /** How far a translated command goes. */
  lemma TranslationReach(trig: Trig, rightAngle: real, adapter: Legacy.Config, msg: Legacy.CmdVelFinal)
    requires adapter.Valid() && trig.Principal(rightAngle)
    ensures var value := Legacy.Translate(trig, adapter, msg);
            && (value.speed > 0.0 ==> adapter.deadband <= value.speed <= adapter.maxSpeed)
            && (value.speed < 0.0 ==> adapter.deadband <= -value.speed <= adapter.maxReverse)
            && (value.steeringAngle != 0.0 ==>
                  && msg.source in VALID_SOURCES && Abs(value.steeringAngle) < rightAngle
                  && Abs(value.steeringAngle) <= EffectiveSteeringLimit(adapter.Limits(), msg.source))
  {
    hide SteerPct, SteerFor;
    if msg.linear.Finite? && msg.angular.Finite? {
      var limits := adapter.Limits().(minEffective := Clamp(adapter.minEffective, 0.0, adapter.maxSpeed));
      AppliedReach(trig, rightAngle, limits, msg.linear.value, msg.angular.value, msg.source);
      hide AckermannSteer;
    }
  }

  lemma AppliedReach(trig: Trig, rightAngle: real, limits: Limits, linear: real, angular: real, source: int)
    requires trig.Principal(rightAngle)
    ensures var applied := AckermannSteer(trig, limits, linear, angular, source).applied;
            Abs(applied) < rightAngle && Abs(applied) <= EffectiveSteeringLimit(limits, source)
  {
    hide SteerPct;
  }

  lemma ReachSurvives(trig: Trig, wire: Legacy.Wire, rightAngle: real, adapter: Legacy.Config, config: Config,
                      msg: Legacy.CmdVelFinal)
    requires EqualLimits(adapter, config) && wire.Rounds() && trig.Principal(rightAngle)
    requires ExtremesSurvive(wire, rightAngle, adapter)
    ensures var value := Legacy.Translate(trig, adapter, msg);
            Survives(wire, config, value.speed, value.steeringAngle)
  {
    var value := Legacy.Translate(trig, adapter, msg);
    TranslationReach(trig, rightAngle, adapter, msg);
    Legacy.NarrowZero(wire);
    hide Legacy.Translate, EffectiveSteeringLimit;
    SpeedInBounds(wire, adapter, value.speed);
    if value.steeringAngle != 0.0 {
      AngleInBounds(wire, rightAngle, EffectiveSteeringLimit(adapter.Limits(), msg.source), adapter.steeringLimit,
                    value.steeringAngle);
    }
  }

  lemma SpeedInBounds(wire: Legacy.Wire, adapter: Legacy.Config, speed: real)
    requires wire.Rounds() && adapter.Valid()
    requires SpeedLimitSurvives(wire, adapter.maxSpeed, adapter.deadband)
    requires SpeedLimitSurvives(wire, adapter.maxReverse, adapter.deadband)
    requires speed > 0.0 ==> adapter.deadband <= speed <= adapter.maxSpeed
    requires speed < 0.0 ==> adapter.deadband <= -speed <= adapter.maxReverse
    ensures -adapter.maxReverse <= wire.narrow(speed) <= adapter.maxSpeed
  {
    Legacy.NarrowZero(wire);
    assert wire.narrow(-adapter.maxReverse) == -wire.narrow(adapter.maxReverse);
  }

  lemma AngleInBounds(wire: Legacy.Wire, rightAngle: real, reach: real, bound: real, angle: real)
    requires wire.Rounds() && SteerReachSurvives(wire, rightAngle, reach, bound)
    requires angle != 0.0 && Abs(angle) < rightAngle && Abs(angle) <= reach
    ensures Abs(wire.narrow(angle)) <= bound
  {
    Legacy.NarrowZero(wire);
    assert wire.narrow(-angle) == -wire.narrow(angle);
    assert 0.0 <= wire.narrow(Abs(angle)) <= bound;
  }

  /** Every steer below a right angle and within a source's limit is what some message asks for. */
  lemma SteerReached(trig: Trig, rightAngle: real, adapter: Legacy.Config, source: int, angle: real)
    returns (msg: Legacy.CmdVelFinal)
    requires adapter.Valid() && trig.Principal(rightAngle) && source in VALID_SOURCES
    requires 0.0 < angle < rightAngle && angle <= EffectiveSteeringLimit(adapter.Limits(), source)
    ensures msg.linear.Finite? && msg.angular.Finite? && msg.source == source && msg.brakePct == 0
    ensures Legacy.Translate(trig, adapter, msg).steeringAngle == angle
  {
    var wheelbase, linear := Max(EPSILON, adapter.wheelbase), Max(EPSILON, adapter.deadband) + 1.0;
    var curvature := trig.tan(angle) / wheelbase;
    var angular := curvature * linear;
    msg := Legacy.CmdVelFinal(Finite(linear), Finite(angular), 0, source);
    QuotientUnique(angular, linear, curvature);
    assert SteerTangent(wheelbase, angular / linear) == trig.tan(angle);
    assert SteerFor(trig, wheelbase, angular / linear) == angle;
    hide SteerPct, ClampSpeed;
  }

  /** A speed limit that can be reached is, by a message that asks for it. */
  lemma SpeedReached(trig: Trig, adapter: Legacy.Config, forward: bool) returns (msg: Legacy.CmdVelFinal)
    requires adapter.Valid() && (if forward then adapter.maxSpeed else adapter.maxReverse) >= adapter.deadband
    ensures msg.linear.Finite? && msg.angular.Finite? && msg.source in VALID_SOURCES && msg.brakePct == 0
    ensures Legacy.Translate(trig, adapter, msg).speed == if forward then adapter.maxSpeed else -adapter.maxReverse
  {
    var linear := if forward then adapter.maxSpeed else -adapter.maxReverse;
    msg := Legacy.CmdVelFinal(Finite(linear), Finite(0.0), 0, SOURCE_AUTO);
    hide AckermannSteer;
  }

  lemma SpeedLimitRefused(trig: Trig, wire: Legacy.Wire, adapter: Legacy.Config, config: Config, forward: bool)
    returns (msg: Legacy.CmdVelFinal)
    requires EqualLimits(adapter, config) && wire.Rounds()
    requires !SpeedLimitSurvives(wire, if forward then adapter.maxSpeed else adapter.maxReverse, adapter.deadband)
    ensures var value := Legacy.Translate(trig, adapter, msg);
            !Survives(wire, config, value.speed, value.steeringAngle)
  {
    msg := SpeedReached(trig, adapter, forward);
    hide Legacy.Translate;
    assert wire.narrow(-adapter.maxReverse) == -wire.narrow(adapter.maxReverse);
  }

  /** Full lock is refused whenever narrowing lifts the furthest steer of a source above the bound. */
  lemma FullLockRefused(trig: Trig, wire: Legacy.Wire, rightAngle: real, adapter: Legacy.Config, config: Config,
                        source: int) returns (msg: Legacy.CmdVelFinal)
    requires EqualLimits(adapter, config) && trig.Principal(rightAngle) && source in VALID_SOURCES
    requires !SourceSurvives(wire, rightAngle, adapter, source)
    ensures msg.linear.Finite? && msg.angular.Finite? && msg.source == source && msg.brakePct == 0
    ensures var value := Legacy.Translate(trig, adapter, msg);
            !Survives(wire, config, value.speed, value.steeringAngle)
  {
    var reach := EffectiveSteeringLimit(adapter.Limits(), source);
    var angle := reach;
    if reach >= rightAngle {
      angle :| 0.0 < angle < rightAngle && wire.narrow(angle) > adapter.steeringLimit;
    }
    msg := SteerReached(trig, rightAngle, adapter, source, angle);
    hide Legacy.Translate;
  }

  /** Under equal limits, acceptance is a matter of clocks alone exactly when the furthest speeds and
      steers survive the narrowing, or the validity is too short for the wire to carry at all. */
  lemma ClocksDecideIff(trig: Trig, wire: Legacy.Wire, rightAngle: real, adapter: Legacy.Config, config: Config)
    requires EqualLimits(adapter, config) && wire.Rounds() && trig.Principal(rightAngle)
    ensures ClocksDecide(trig, wire, adapter, config)
       <==> ExtremesSurvive(wire, rightAngle, adapter) || adapter.validFor <= 0.5 / NANOS as real
  {
    hide Canonical.InvalidReason, WireOf, AdapterSample, Legacy.Translate, ExtremesSurvive, FreshStamp, Survives;
    WireValidityPositive(adapter);
    if adapter.validFor <= 0.5 / NANOS as real {
      NothingFresh(config, WireOf(adapter));
    } else if ExtremesSurvive(wire, rightAngle, adapter) {
      forall msg, stampNs, rosNow, lastStamp | FreshStamp(config, WireOf(adapter), stampNs, rosNow, lastStamp)
        ensures var sample := AdapterSample(trig, wire, adapter, msg, stampNs);
                Canonical.InvalidReason(config.Consumer(), sample, rosNow, lastStamp).None?
      {
        ReachSurvives(trig, wire, rightAngle, adapter, config, msg);
        TranslatedCommandAccepted(trig, wire, adapter, config, msg, stampNs, rosNow, lastStamp);
      }
    } else {
      var msg := ExtremeRefused(trig, wire, rightAngle, adapter, config);
      PromptStampFresh(config, WireOf(adapter));
      TranslatedCommandAccepted(trig, wire, adapter, config, msg, 1, 1, None);
    }
  }

  lemma ExtremeRefused(trig: Trig, wire: Legacy.Wire, rightAngle: real, adapter: Legacy.Config, config: Config)
    returns (msg: Legacy.CmdVelFinal)
    requires EqualLimits(adapter, config) && wire.Rounds() && trig.Principal(rightAngle)
    requires !ExtremesSurvive(wire, rightAngle, adapter)
    ensures var value := Legacy.Translate(trig, adapter, msg);
            !Survives(wire, config, value.speed, value.steeringAngle)
  {
    hide Legacy.Translate, SourceSurvives, SpeedLimitSurvives, Survives;
    if !SpeedLimitSurvives(wire, adapter.maxSpeed, adapter.deadband) {
      msg := SpeedLimitRefused(trig, wire, adapter, config, true);
    } else if !SpeedLimitSurvives(wire, adapter.maxReverse, adapter.deadband) {
      msg := SpeedLimitRefused(trig, wire, adapter, config, false);
    } else {
      var source :| source in VALID_SOURCES && !SourceSurvives(wire, rightAngle, adapter, source);
      msg := FullLockRefused(trig, wire, rightAngle, adapter, config, source);
    }
  }

  lemma NothingFresh(config: Config, validity: real)
    requires validity <= 0.0
    ensures forall stampNs, rosNow, lastStamp :: !FreshStamp(config, validity, stampNs, rosNow, lastStamp)
  {
  }

  /** Below 1e-6 rad the steering law works with 1e-6 all the same, and the consumer with what it is
      given: such a limit is refused at full lock unless narrowing happens to bridge the gap. */
  lemma TinyLimitReach(trig: Trig, wire: Legacy.Wire, rightAngle: real, adapter: Legacy.Config, source: int)
    requires adapter.Valid() && adapter.steeringLimit < EPSILON < rightAngle
    ensures SourceSurvives(wire, rightAngle, adapter, source) <==> wire.narrow(EPSILON) <= adapter.steeringLimit
  {
  }

  /** The parameters both nodes are declared with. */
  const DEFAULT_ADAPTER := Legacy.Config(4.0, 1.3, 0.1, 0.75, 0.94, 0.5235987756, 0.3141592654, 0.5235987756, true, 0.7)

  /** float32 has 24 significant bits, so between a half and one it counts in units of 2^-24. */
  const UNITS := 16777216

  ghost predicate Binary32Below1(wire: Legacy.Wire) {
    forall x :: 0.5 <= x < 1.0 ==> wire.narrow(x) == Round(x * UNITS as real) as real / UNITS as real
  }

  /** The default parameters are among the failing ones: a manual command at full lock comes off the
      wire beyond the limit it was clamped to, and the consumer refuses it. */
  lemma DefaultFullLockRefused(trig: Trig, wire: Legacy.Wire, rightAngle: real, config: Config)
    returns (msg: Legacy.CmdVelFinal)
    requires EqualLimits(DEFAULT_ADAPTER, config) && Binary32Below1(wire)
    requires trig.Principal(rightAngle) && rightAngle > 1.0
    ensures msg.source == SOURCE_MANUAL && msg.linear.Finite? && msg.angular.Finite? && msg.brakePct == 0
    ensures var value := Legacy.Translate(trig, DEFAULT_ADAPTER, msg);
            !Survives(wire, config, value.speed, value.steeringAngle)
  {
    var limit := DEFAULT_ADAPTER.steeringLimit;
    assert EffectiveSteeringLimit(DEFAULT_ADAPTER.Limits(), SOURCE_MANUAL) == limit;
    assert wire.narrow(limit) == Round(limit * UNITS as real) as real / UNITS as real;
    assert Round(limit * UNITS as real) == 8784530;
    msg := FullLockRefused(trig, wire, rightAngle, DEFAULT_ADAPTER, config, SOURCE_MANUAL);
  }

  lemma PromptStampFresh(config: Config, wire: real)
    requires config.Consumer().Valid() && wire > 0.0
    ensures FreshStamp(config, wire, 1, 1, None)
  {
    RoundMonotone(0.0, config.maxFutureSkew * NANOS as real);
    RoundMonotone(0.0, Min(wire, config.autoTimeout) * NANOS as real);
  }

  /** What the legacy route makes of a fresh command. */
  function LegacyImage(config: Config, cmd: DesiredCommand): CommandState {
    if cmd.estop then
      CommandState(false, true, 0.0, 0, ClampInt(MaxInt(cmd.brakePct, config.estopBrakePct), 0, 100))
    else Apply(config.limits, cmd)
  }

  /** What the canonical route makes of a refused one. */
  const STOPPED := CommandState(false, true, 0.0, 0, 100)

  /** What the canonical route makes of a fresh command. */
  function CanonicalImage(wire: Legacy.Wire, config: Config, cmd: DesiredCommand): CommandState
    requires config.simMaxSteering > 0.0
  {
    if cmd.estop then STOPPED
    else if !Survives(wire, config, cmd.speed, cmd.appliedSteer) then STOPPED
    else if !cmd.driveEnabled then RESET
    else
      CommandState(true, false, wire.narrow(cmd.speed), SteerPct(wire.narrow(cmd.appliedSteer), config.simMaxSteering),
                   0)
  }

  /** The wire changes nothing in what a driving command asks of the backend. */
  predicate Unchanged(wire: Legacy.Wire, config: Config, cmd: DesiredCommand)
    requires config.simMaxSteering > 0.0
  {
    && Survives(wire, config, cmd.speed, cmd.appliedSteer) && wire.narrow(cmd.speed) == cmd.speed
    && SteerPct(wire.narrow(cmd.appliedSteer), config.simMaxSteering) == cmd.steerPct
  }

  /** The command asks for nothing. */
  predicate Idle(cmd: DesiredCommand) {
    cmd.speed == 0.0 && cmd.steerPct == 0
  }

  /** The command means the same to Gazebo whichever route it took. */
  predicate SameForGazebo(wire: Legacy.Wire, config: Config, cmd: DesiredCommand)
    requires config.simMaxSteering > 0.0
  {
    || cmd.estop || !cmd.driveEnabled || Unchanged(wire, config, cmd)
    || (!Survives(wire, config, cmd.speed, cmd.appliedSteer) && Idle(cmd))
  }

  lemma LegacyBackend(trig: Trig, config: Config, c: Controller, msg: Legacy.CmdVelFinal, stamp: real, now: real)
    requires config.limits.maxSpeed >= 0.0 && config.limits.maxReverse >= 0.0
    requires msg.linear.Finite? && msg.angular.Finite? && now - stamp <= Max(0.0, config.autoTimeout)
    ensures LegacyRoute(trig, config, c, msg, stamp, now) == LegacyImage(config, LegacyCommand(trig, config, msg))
  {
    hide CommandFromCmdVel;
  }

  /** What the controller's command keeps of its limits, and what the adapter makes of the same
      message. */
  lemma CommandFacts(trig: Trig, adapter: Legacy.Config, config: Config, msg: Legacy.CmdVelFinal)
    requires EqualLimits(adapter, config)
    requires msg.linear.Finite? && msg.angular.Finite? && msg.source in VALID_SOURCES
    ensures var cmd, value := LegacyCommand(trig, config, msg), Legacy.Translate(trig, adapter, msg);
            && -config.limits.maxReverse <= cmd.speed <= config.limits.maxSpeed && -100 <= cmd.steerPct <= 100
            && 0 <= cmd.brakePct <= 100 && (cmd.estop <==> cmd.brakePct > 0) && (cmd.estop ==> Idle(cmd))
            && value.source == msg.source && value.driveEnabled == cmd.driveEnabled && value.emergencyStop == cmd.estop
            && value.brakeRatio == cmd.brakePct as real / 100.0 && value.speed == cmd.speed
            && value.steeringAngle == (if cmd.estop then 0.0 else cmd.appliedSteer)
  {
    CommandInRange(trig, config.limits, msg.linear.value, msg.angular.value, msg.brakePct, config.invertSteer,
                   config.autoDriveEnabled, msg.source);
  }

  lemma TwistSees(s: CommandState, q: CommandState, maxSteering: real, invertActuation: bool)
    requires maxSteering > 0.0 && s.driveEnabled && !s.estop && s.brakePct == 0
    requires q.driveEnabled && !q.estop && q.brakePct == 0
    ensures Twist(s, maxSteering, invertActuation) == Twist(q, maxSteering, invertActuation) <==> s == q
  {
    if s.steerPct < q.steerPct {
      MulStrict(s.steerPct as real / 100.0, q.steerPct as real / 100.0, maxSteering);
    } else if q.steerPct < s.steerPct {
      MulStrict(q.steerPct as real / 100.0, s.steerPct as real / 100.0, maxSteering);
    }
  }

  /** A fresh sample of the adapter leaves the consumer with a command of this image, accepted or not. */
  lemma IngestedImage(trig: Trig, wire: Legacy.Wire, adapter: Legacy.Config, config: Config, s: Canonical.State,
                      msg: Legacy.CmdVelFinal, stampNs: int, rosNow: int, received: real)
    requires EqualLimits(adapter, config) && wire.Rounds()
    requires msg.linear.Finite? && msg.angular.Finite? && msg.source in VALID_SOURCES
    requires FreshStamp(config, WireOf(adapter), stampNs, rosNow, s.lastStamp)
    ensures var sample := AdapterSample(trig, wire, adapter, msg, stampNs);
            var r := Canonical.IngestStep(config.Consumer(), s, sample, rosNow, received);
            var cmd := LegacyCommand(trig, config, msg);
            && Apply(config.limits, Canonical.DesiredFromCanonical(r.effective, config.simMaxSteering).value)
            == CanonicalImage(wire, config, cmd)
            && if cmd.estop || Survives(wire, config, cmd.speed, cmd.appliedSteer)
               then r.lastStamp == Some(stampNs) && r.receivedAt == Some(received)
                    && r.validity == Min(WireOf(adapter), config.autoTimeout)
               else r.lastStamp == s.lastStamp && r.receivedAt == None && !r.effective.driveEnabled
  {
    CommandFacts(trig, adapter, config, msg);
    TranslatedCommandAccepted(trig, wire, adapter, config, msg, stampNs, rosNow, s.lastStamp);
    Legacy.NarrowZero(wire);
    ValiditySent(trig, adapter, msg);
    hide Legacy.Translate, LegacyCommand, Canonical.InvalidReason;
    assert SteerPct(0.0, config.simMaxSteering) == 0;
    hide SteerPct;
    var cmd := LegacyCommand(trig, config, msg);
    assert Abs(config.simMaxSteering) == config.simMaxSteering;
  }

  lemma ValiditySent(trig: Trig, adapter: Legacy.Config, msg: Legacy.CmdVelFinal)
    ensures Legacy.Translate(trig, adapter, msg).validFor == adapter.validFor
  {
  }

  /** The images mean the same to Gazebo exactly when the wire does not show. */
  lemma ImagesAgree(trig: Trig, wire: Legacy.Wire, adapter: Legacy.Config, config: Config, msg: Legacy.CmdVelFinal,
                    invertActuation: bool)
    requires EqualLimits(adapter, config)
    requires msg.linear.Finite? && msg.angular.Finite? && msg.source in VALID_SOURCES
    ensures var cmd := LegacyCommand(trig, config, msg);
            Twist(LegacyImage(config, cmd), config.simMaxSteering, invertActuation)
              == Twist(CanonicalImage(wire, config, cmd), config.simMaxSteering, invertActuation)
            <==> SameForGazebo(wire, config, cmd)
  {
    CommandFacts(trig, adapter, config, msg);
    var cmd := LegacyCommand(trig, config, msg);
    hide LegacyCommand, SteerPct, Twist;
    var legacy, canonical := LegacyImage(config, cmd), CanonicalImage(wire, config, cmd);
    if cmd.estop || !cmd.driveEnabled {
      Standing(legacy, config.simMaxSteering, invertActuation);
      Standing(canonical, config.simMaxSteering, invertActuation);
    } else {
      var still := CommandState(true, false, 0.0, 0, 0);
      TwistSees(legacy, still, config.simMaxSteering, invertActuation);
      StillTwist(config.simMaxSteering, invertActuation);
      if Survives(wire, config, cmd.speed, cmd.appliedSteer) {
        TwistSees(legacy, canonical, config.simMaxSteering, invertActuation);
      } else {
        Standing(canonical, config.simMaxSteering, invertActuation);
      }
    }
  }

  lemma Standing(state: CommandState, maxSteering: real, invertActuation: bool)
    requires !state.driveEnabled || state.estop || state.brakePct > 0
    ensures Twist(state, maxSteering, invertActuation) == (0.0, 0.0)
  {
  }

  /** Inverting the actuation turns the steering round and leaves the speed. */
  lemma TwistInversion(state: CommandState, maxSteering: real)
    ensures var (speed, angle) := Twist(state, maxSteering, false);
            Twist(state, maxSteering, true) == (speed, -angle)
  {
  }

  lemma StillTwist(maxSteering: real, invertActuation: bool)
    ensures Twist(CommandState(true, false, 0.0, 0, 0), maxSteering, invertActuation) == (0.0, 0.0)
  {
  }

  /** While both routes hold the command fresh, they mean the same to Gazebo exactly when it is a stop,
      or the wire changes neither its speed nor its steering percentage, or it asks for nothing and is
      refused; and the whole backend state is the same exactly when an E-stop brake comes out at
      least at 100, a driving command is unchanged, or a disabled one that asks for nothing is let
      through. Steer inversion, which only the legacy route has, counts as a changed percentage. */
  lemma RoutesAgree(trig: Trig, wire: Legacy.Wire, adapter: Legacy.Config, config: Config, c: Controller,
                    s: Canonical.State, msg: Legacy.CmdVelFinal, stampNs: int, rosNow: int,
                    stamp: real, received: real, now: real, invertActuation: bool)
    requires EqualLimits(adapter, config) && wire.Rounds()
    requires msg.linear.Finite? && msg.angular.Finite? && msg.source in VALID_SOURCES
    requires FreshStamp(config, WireOf(adapter), stampNs, rosNow, s.lastStamp)
    requires now - received <= Min(WireOf(adapter), config.autoTimeout)
    requires now - stamp <= config.autoTimeout
    ensures var legacy := LegacyRoute(trig, config, c, msg, stamp, now);
            var sample := AdapterSample(trig, wire, adapter, msg, stampNs);
            var canonical := CanonicalRoute(config, c, s, sample, rosNow, received, now);
            var cmd := LegacyCommand(trig, config, msg);
            && (Twist(legacy, config.simMaxSteering, invertActuation)
                == Twist(canonical, config.simMaxSteering, invertActuation)
                <==> SameForGazebo(wire, config, cmd))
            && (legacy == canonical
                <==> if cmd.estop then MaxInt(cmd.brakePct, config.estopBrakePct) >= 100
                     else if cmd.driveEnabled then Unchanged(wire, config, cmd)
                     else Survives(wire, config, cmd.speed, cmd.appliedSteer) && Idle(cmd))
  {
    var cmd := LegacyCommand(trig, config, msg);
    CommandFacts(trig, adapter, config, msg);
    LegacyBackend(trig, config, c, msg, stamp, now);
    IngestedImage(trig, wire, adapter, config, s, msg, stampNs, rosNow, received);
    ImagesAgree(trig, wire, adapter, config, msg, invertActuation);
    hide LegacyCommand, LegacyRoute, AdapterSample, SteerPct, Twist, Survives, Canonical.IngestStep,
         Canonical.DesiredFromCanonical;
  }

  /** A command that float32 represents, from a vehicle without steer inversion, is always unchanged. */
  lemma RepresentableUnchanged(trig: Trig, wire: Legacy.Wire, adapter: Legacy.Config, config: Config,
                               msg: Legacy.CmdVelFinal)
    requires EqualLimits(adapter, config) && config.Normalised() && !config.invertSteer && msg.brakePct <= 0
    requires msg.linear.Finite? && msg.angular.Finite? && msg.source in VALID_SOURCES
    requires var cmd := LegacyCommand(trig, config, msg);
             wire.narrow(cmd.speed) == cmd.speed && wire.narrow(cmd.appliedSteer) == cmd.appliedSteer
    ensures Unchanged(wire, config, LegacyCommand(trig, config, msg))
  {
    CommandFacts(trig, adapter, config, msg);
    CommandSteering(trig, config, msg);
    hide LegacyCommand, SteerPct;
  }

  /** Any other driving command that gets through is nearly unchanged: Gazebo's speed differs by what
      narrowing costs it, and its steering by one percent of the maximum at most. */
  lemma RoutesNear(trig: Trig, wire: Legacy.Wire, adapter: Legacy.Config, config: Config, msg: Legacy.CmdVelFinal)
    requires EqualLimits(adapter, config) && config.Normalised() && !config.invertSteer && msg.brakePct <= 0
    requires msg.linear.Finite? && msg.angular.Finite? && msg.source in VALID_SOURCES && config.autoDriveEnabled
    requires var cmd := LegacyCommand(trig, config, msg);
             && Survives(wire, config, cmd.speed, cmd.appliedSteer)
             && wire.Loss(cmd.appliedSteer) < config.simMaxSteering / 100.0
    ensures var cmd := LegacyCommand(trig, config, msg);
            var (speed, angle) := Twist(LegacyImage(config, cmd), config.simMaxSteering, false);
            var (speed', angle') := Twist(CanonicalImage(wire, config, cmd), config.simMaxSteering, false);
            && Abs(speed - speed') == wire.Loss(cmd.speed)
            && Near(angle', angle, config.simMaxSteering / 100.0)
  {
    var cmd, limit := LegacyCommand(trig, config, msg), config.simMaxSteering;
    CommandFacts(trig, adapter, config, msg);
    CommandSteering(trig, config, msg);
    hide LegacyCommand;
    SteerPctNear(cmd.appliedSteer, wire.narrow(cmd.appliedSteer), limit);
    var pct, pct' := cmd.steerPct, SteerPct(wire.narrow(cmd.appliedSteer), limit);
    PctNear(pct, pct', limit);
    hide SteerPct;
  }

  /** Gazebo is told the commanded speed, clamped once more, and the clamped steer as the same share of
      its maximum angle as of the steering limit, to within half a percent of that maximum. */
  lemma TwistFollowsCommand(trig: Trig, config: Config, c: Controller, msg: Legacy.CmdVelFinal, stamp: real, now: real)
    requires msg.linear.Finite? && msg.angular.Finite? && now - stamp <= config.autoTimeout
    requires config.autoDriveEnabled && !config.invertSteer && msg.brakePct <= 0
    requires config.Normalised() && config.simMaxSteering > 0.0
    ensures var cmd := LegacyCommand(trig, config, msg);
            var (speed, angle) := Twist(LegacyRoute(trig, config, c, msg, stamp, now), config.simMaxSteering, false);
            var scaled := Rescaled(cmd.appliedSteer, config.limits.steeringLimit, config.simMaxSteering);
            && speed == Clamp(cmd.speed, -config.limits.maxReverse, config.limits.maxSpeed)
            && Near(angle, scaled, config.simMaxSteering / 200.0)
  {
    var cmd := LegacyCommand(trig, config, msg);
    UnbrakedTwist(trig, config, c, msg, stamp, now);
    CommandSteering(trig, config, msg);
    hide *;
    SteerPctNearest(cmd.appliedSteer, config.limits.steeringLimit, config.simMaxSteering);
  }

  /** The commanded speed is what the backend stores. */
  ghost predicate SpeedObeyed(trig: Trig, config: Config) {
    forall msg: Legacy.CmdVelFinal | msg.linear.Finite? && msg.angular.Finite? ::
      var cmd := LegacyCommand(trig, config, msg);
      Apply(config.limits, cmd).speed == cmd.speed
  }

  /** The second clamp changes no command exactly when the forward limit, which nothing checks, is not
      negative, or there is no reverse either. */
  lemma SpeedObeyedIff(trig: Trig, config: Config)
    requires config.Normalised()
    ensures SpeedObeyed(trig, config) <==> config.limits.maxSpeed >= 0.0 || config.limits.maxReverse == 0.0
  {
    if config.limits.maxSpeed >= 0.0 || config.limits.maxReverse == 0.0 {
      forall msg: Legacy.CmdVelFinal | msg.linear.Finite? && msg.angular.Finite?
        ensures var cmd := LegacyCommand(trig, config, msg);
                Apply(config.limits, cmd).speed == cmd.speed
      {
        CommandInRange(trig, config.limits, msg.linear.value, msg.angular.value, msg.brakePct, config.invertSteer,
                       config.autoDriveEnabled, msg.source);
        hide CommandFromCmdVel;
      }
    } else {
      var msg := Legacy.CmdVelFinal(Finite(0.0), Finite(0.0), 0, SOURCE_AUTO);
      assert LegacyCommand(trig, config, msg).speed == 0.0;
      hide LegacyCommand;
    }
  }

  lemma UnbrakedTwist(trig: Trig, config: Config, c: Controller, msg: Legacy.CmdVelFinal, stamp: real, now: real)
    requires msg.linear.Finite? && msg.angular.Finite? && now - stamp <= config.autoTimeout
    requires config.autoDriveEnabled && msg.brakePct <= 0 && config.simMaxSteering > 0.0
    ensures var cmd := LegacyCommand(trig, config, msg);
            Twist(LegacyRoute(trig, config, c, msg, stamp, now), config.simMaxSteering, false)
              == (Clamp(cmd.speed, -config.limits.maxReverse, config.limits.maxSpeed),
                  AngleOf(cmd.steerPct, config.simMaxSteering))
  {
    CommandInRange(trig, config.limits, msg.linear.value, msg.angular.value, msg.brakePct, config.invertSteer,
                   config.autoDriveEnabled, msg.source);
    hide AckermannSteer, AngleOf, ClampSpeed;
  }

  lemma CommandSteering(trig: Trig, config: Config, msg: Legacy.CmdVelFinal)
    requires msg.linear.Finite? && msg.angular.Finite? && !config.invertSteer && msg.brakePct <= 0
    requires config.limits.steeringLimit >= EPSILON
    ensures var cmd := LegacyCommand(trig, config, msg);
            && cmd.steerPct == SteerPct(cmd.appliedSteer, config.limits.steeringLimit)
            && Abs(cmd.appliedSteer) <= config.limits.steeringLimit
  {
    var limits := config.limits.(deadband := Max(0.0, config.limits.deadband),
                                 minEffective := Clamp(config.limits.minEffective, 0.0,
                                                       Max(0.0, config.limits.maxSpeed)));
    SteeringIsNearest(trig, limits, msg.linear.value, msg.angular.value, msg.source);
    CommandInRange(trig, config.limits, msg.linear.value, msg.angular.value, msg.brakePct, false,
                   config.autoDriveEnabled, msg.source);
    hide AckermannSteer, SteerPct;
  }

  lemma SteeringIsNearest(trig: Trig, limits: Limits, linear: real, angular: real, source: int)
    requires limits.steeringLimit >= EPSILON
    ensures var s := AckermannSteer(trig, limits, linear, angular, source);
            s.pct == SteerPct(s.applied, limits.steeringLimit)
  {
    assert Max(EPSILON, Abs(limits.steeringLimit)) == limits.steeringLimit;
    assert SteerPct(0.0, limits.steeringLimit) == 0;
  }

  /** Once both routes have let the command expire, or the canonical one has refused it, Gazebo is
      told to stand still. */
  lemma ExpiredRoutesStandStill(trig: Trig, config: Config, c: Controller, s: Canonical.State, msg: Legacy.CmdVelFinal,
                                sample: Canonical.Sample, rosNow: int, stamp: real, received: real, now: real,
                                maxSteering: real, invertActuation: bool)
    requires config.simMaxSteering > 0.0 && msg.linear.Finite? && msg.angular.Finite?
    ensures now - stamp > Max(0.0, config.autoTimeout) ==>
              Twist(LegacyRoute(trig, config, c, msg, stamp, now), maxSteering, invertActuation) == (0.0, 0.0)
    ensures (Canonical.InvalidReason(config.Consumer(), sample, rosNow, s.lastStamp).Some?
             || now - received > config.autoTimeout) ==>
              Twist(CanonicalRoute(config, c, s, sample, rosNow, received, now), maxSteering, invertActuation)
                == (0.0, 0.0)
  {
  }

  /** A source outside the contract is where the routes part: the canonical one stops the vehicle
      whatever was asked, the legacy one never looks. */
  lemma InvalidSourceStopsCanonical(trig: Trig, wire: Legacy.Wire, adapter: Legacy.Config, config: Config,
                                    c: Controller, s: Canonical.State, msg: Legacy.CmdVelFinal, stampNs: int,
                                    rosNow: int, received: real, now: real, maxSteering: real, invertActuation: bool)
    requires config.simMaxSteering > 0.0 && msg.source !in VALID_SOURCES
    ensures var sample := AdapterSample(trig, wire, adapter, msg, stampNs);
            Twist(CanonicalRoute(config, c, s, sample, rosNow, received, now), maxSteering, invertActuation)
            == (0.0, 0.0)
    ensures msg.linear.Finite? && msg.angular.Finite? ==>
              LegacyRoute(trig, config, c, msg, received, now)
                == LegacyRoute(trig, config, c, msg.(source := SOURCE_UNKNOWN), received, now)
  {
  }
}
