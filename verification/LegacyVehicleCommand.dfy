/** The compatibility translation of legacy_vehicle_command.py and the message that
    legacy_vehicle_command_node.py publishes from it. */
module LegacyVehicleCommand {
  import opened Numeric
  import opened ControlLogic
  import opened Text

  datatype Config = Config(
    maxSpeed: real, maxReverse: real, deadband: real, minEffective: real, wheelbase: real,
    steeringLimit: real, operationalLimit: real, manualLimit: real, driveEnabled: bool, validFor: real)
  {
    /** The checks whose failure raises `ValueError` at construction. */
    predicate Valid() {
      && maxSpeed >= 0.0 && maxReverse >= 0.0 && deadband >= 0.0 && minEffective >= 0.0
      && wheelbase > 0.0 && steeringLimit > 0.0 && operationalLimit > 0.0 && manualLimit > 0.0
      && validFor > 0.0
    }

    function Limits(): ControlLogic.Limits {
      ControlLogic.Limits(maxSpeed, maxReverse, deadband, minEffective, wheelbase, steeringLimit,
                          Some(operationalLimit), Some(manualLimit))
    }
  }

  /** A `CmdVelFinal` message. */
  datatype CmdVelFinal = CmdVelFinal(linear: Float, angular: Float, brakePct: int, source: int)

  datatype VehicleCommandValue = VehicleCommandValue(
    source: int, driveEnabled: bool, emergencyStop: bool, brakeRatio: real, speed: real,
    steeringAngle: real, validFor: real, validInput: bool)

  function SafeInvalid(config: Config): VehicleCommandValue {
    VehicleCommandValue(SOURCE_SAFETY, false, true, 1.0, 0.0, 0.0, config.validFor, false)
  }

  function Translate(trig: Trig, config: Config, msg: CmdVelFinal): VehicleCommandValue {
    if msg.linear.NonFinite? || msg.angular.NonFinite? then SafeInvalid(config)
    else if msg.source !in VALID_SOURCES then SafeInvalid(config)
    else
      var desired := CommandFromCmdVel(trig, config.Limits(), msg.linear.value, msg.angular.value,
                                       msg.brakePct, false, config.driveEnabled, msg.source);
      VehicleCommandValue(msg.source, desired.driveEnabled, desired.estop,
                          desired.brakePct as real / 100.0, desired.speed,
                          if desired.estop then 0.0 else desired.appliedSteer, config.validFor, true)
  }

  /** A `VehicleCommand` message; the duration travels as seconds and nanoseconds. */
  datatype Duration = Duration(sec: int, nanosec: int)

  datatype VehicleCommand = VehicleCommand(
    stampNs: int, frameId: string, validFor: Duration, source: int, driveEnabled: bool,
    emergencyStop: bool, brakeRatio: Float, speed: Float, steeringAngle: Float,
    steeringVelocity: Float, acceleration: Float, jerk: Float)

  function EncodeDuration(seconds: real): Duration {
    var ns := Round(seconds * NANOS as real);
    Duration(ns / NANOS, ns % NANOS)
  }

  function DecodeDuration(d: Duration): real {
    d.sec as real + d.nanosec as real / NANOS as real
  }

  /** The frame the adapter publishes under; `None` is the `ValueError` for a blank parameter. */
  function AdapterFrame(parameter: string): Option<string> {
    var frame := Strip(parameter);
    if frame == [] then None else Some(frame)
  }

  /** How a command travels: under the adapter's frame, with its quantities narrowed to float32. */
  datatype Wire = Wire(narrow: real -> real, frameId: string) {
    /** The laws of rounding to the nearest float32 that the lemmas need. */
    ghost predicate Rounds() {
      && narrow(1.0) == 1.0
      && (forall x :: narrow(-x) == -narrow(x))
      && (forall x, y :: x <= y ==> narrow(x) <= narrow(y))
    }
    /** What narrowing costs a quantity. */
    function Loss(x: real): real {
      Abs(x - narrow(x))
    }
  }

  lemma NarrowZero(wire: Wire)
    requires wire.Rounds()
    ensures wire.narrow(0.0) == 0.0
  {
    assert wire.narrow(-0.0) == -wire.narrow(0.0);
  }

  function Publish(wire: Wire, value: VehicleCommandValue, stampNs: int): VehicleCommand {
    VehicleCommand(stampNs, wire.frameId, EncodeDuration(value.validFor), value.source, value.driveEnabled,
                   value.emergencyStop, Finite(wire.narrow(value.brakeRatio)), Finite(wire.narrow(value.speed)),
                   Finite(wire.narrow(value.steeringAngle)), Finite(0.0), Finite(0.0), Finite(0.0))
  }

  // ---------------------------------------------------------------- properties

  /** A message that is not finite, or of a source outside the contract, is translated to a full stop of
      the safety source; any other keeps its source. */
  lemma TranslationStopsInvalid(trig: Trig, config: Config, msg: CmdVelFinal)
    ensures var v := Translate(trig, config, msg);
            && v.validFor == config.validFor
            && (v.validInput <==> msg.linear.Finite? && msg.angular.Finite? && msg.source in VALID_SOURCES)
            && (v.validInput ==> v.source == msg.source && v.driveEnabled == config.driveEnabled)
            && (v.emergencyStop <==> !v.validInput || msg.brakePct > 0)
            && (!v.validInput ==> v.source == SOURCE_SAFETY && !v.driveEnabled && v.brakeRatio == 1.0)
            && (v.emergencyStop ==> v.speed == 0.0 && v.steeringAngle == 0.0)
  {
  }

  lemma SplitNanos(ns: int)
    ensures DecodeDuration(Duration(ns / NANOS, ns % NANOS)) == ns as real / NANOS as real
  {
    assert ns == ns / NANOS * NANOS + ns % NANOS;
  }

  /** The wire duration is a normalised one, reads back as the nearest whole nanosecond, and is
      within half a nanosecond of the duration that was sent. */
  lemma DurationRoundTrip(seconds: real)
    ensures var d := EncodeDuration(seconds);
            && 0 <= d.nanosec < NANOS
            && DecodeDuration(d) == Round(seconds * NANOS as real) as real / NANOS as real
            && Abs(DecodeDuration(d) - seconds) <= 0.5 / NANOS as real
  {
    var ns := Round(seconds * NANOS as real);
    SplitNanos(ns);
    RoundNearest(seconds * NANOS as real);
  }

  /** Whole nanoseconds survive the wire unchanged. */
  lemma WholeNanosSurvive(ns: int)
    ensures DecodeDuration(EncodeDuration(ns as real / NANOS as real)) == ns as real / NANOS as real
  {
    var seconds := ns as real / NANOS as real;
    assert seconds * NANOS as real == ns as real;
    RoundExact(ns);
    SplitNanos(ns);
  }
}
