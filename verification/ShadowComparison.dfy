/** The shadow comparison of vehicle_command_comparison.py and the pairing node of
    vehicle_command_comparison_node.py. */
module ShadowComparison {
  import opened Numeric
  import opened ControlLogic
  import opened LegacyVehicleCommand
  import opened Text

  datatype Observed = Observed(
    source: int, driveEnabled: bool, emergencyStop: bool, brakeRatio: Float, speed: Float,
    steeringAngle: Float, validFor: Float, frameId: string, stampNs: int)

  datatype Tolerances = Tolerances(
    speed: real, steeringAngle: real, brakeRatio: real, validFor: real, frameId: string)

  datatype Field = BrakeRatio | Speed | SteeringAngle | ValidFor

  datatype Reason =
    | FieldNonfinite(field: Field) | FieldMismatch(field: Field)
    | SourceMismatch | DriveEnabledMismatch | EmergencyStopMismatch | FrameIdMismatch | StampInvalid
    | LegacyQueueOverflow | ShadowQueueOverflow | ShadowMissing | LegacyMissing

  datatype Scalar = Scalar(field: Field, expected: real, observed: Float, tolerance: real)

  function Scalars(e: VehicleCommandValue, o: Observed, t: Tolerances): seq<Scalar> {
    [Scalar(BrakeRatio, e.brakeRatio, o.brakeRatio, t.brakeRatio),
     Scalar(Speed, e.speed, o.speed, t.speed),
     Scalar(SteeringAngle, e.steeringAngle, o.steeringAngle, t.steeringAngle),
     Scalar(ValidFor, e.validFor, o.validFor, t.validFor)]
  }

  function ReasonOf(x: Scalar): seq<Reason> {
    if x.observed.NonFinite? then [FieldNonfinite(x.field)]
    else if Abs(x.expected - x.observed.value) > x.tolerance then [FieldMismatch(x.field)]
    else []
  }

  function ScalarReasons(xs: seq<Scalar>): seq<Reason> {
    if xs == [] then [] else ScalarReasons(xs[..|xs| - 1]) + ReasonOf(xs[|xs| - 1])
  }

  function Noted(reasons: seq<Reason>, holds: bool, reason: Reason): seq<Reason> {
    if holds then reasons + [reason] else reasons
  }

  function Reasons(e: VehicleCommandValue, o: Observed, t: Tolerances): seq<Reason> {
    var scalars := ScalarReasons(Scalars(e, o, t));
    var source := Noted(scalars, e.source != o.source, SourceMismatch);
    var drive := Noted(source, e.driveEnabled != o.driveEnabled, DriveEnabledMismatch);
    var estop := Noted(drive, e.emergencyStop != o.emergencyStop, EmergencyStopMismatch);
    var frame := Noted(estop, o.frameId != t.frameId, FrameIdMismatch);
    Noted(frame, o.stampNs <= 0, StampInvalid)
  }

  method CompareScalars(scalars: seq<Scalar>) returns (reasons: seq<Reason>)
    ensures reasons == ScalarReasons(scalars)
  {
    reasons := [];
    for i := 0 to |scalars|
      invariant reasons == ScalarReasons(scalars[..i])
    {
      var x := scalars[i];
      assert scalars[..i + 1][..i] == scalars[..i];
      if x.observed.NonFinite? {
        reasons := reasons + [FieldNonfinite(x.field)];
      } else if Abs(x.expected - x.observed.value) > x.tolerance {
        reasons := reasons + [FieldMismatch(x.field)];
      }
    }
    assert scalars[..|scalars|] == scalars;
  }

  method CompareVehicleCommands(e: VehicleCommandValue, o: Observed, t: Tolerances) returns (reasons: seq<Reason>)
    ensures reasons == Reasons(e, o, t)
  {
    reasons := CompareScalars(Scalars(e, o, t));
    hide ScalarReasons, Scalars;
    if e.source != o.source { reasons := reasons + [SourceMismatch]; }
    if e.driveEnabled != o.driveEnabled { reasons := reasons + [DriveEnabledMismatch]; }
    if e.emergencyStop != o.emergencyStop { reasons := reasons + [EmergencyStopMismatch]; }
    if o.frameId != t.frameId { reasons := reasons + [FrameIdMismatch]; }
    if o.stampNs <= 0 { reasons := reasons + [StampInvalid]; }
  }

  predicate Within(expected: real, observed: Float, tolerance: real) {
    observed.Finite? && Abs(expected - observed.value) <= tolerance
  }

  lemma {:induction false} ScalarReasonsEmpty(xs: seq<Scalar>)
    ensures ScalarReasons(xs) == []
       <==> forall i :: 0 <= i < |xs| ==> Within(xs[i].expected, xs[i].observed, xs[i].tolerance)
  {
    if xs != [] {
      var n := |xs| - 1;
      ScalarReasonsEmpty(xs[..n]);
      assert forall i :: 0 <= i < n ==> xs[..n][i] == xs[i];
    }
  }

  /** No reason is given exactly when the discrete fields agree and every observed quantity is
      finite and within its tolerance. */
  lemma MatchesIffAgree(e: VehicleCommandValue, o: Observed, t: Tolerances)
    ensures Reasons(e, o, t) == [] <==>
              && e.source == o.source && e.driveEnabled == o.driveEnabled && e.emergencyStop == o.emergencyStop
              && o.frameId == t.frameId && o.stampNs > 0
              && Within(e.brakeRatio, o.brakeRatio, t.brakeRatio) && Within(e.speed, o.speed, t.speed)
              && Within(e.steeringAngle, o.steeringAngle, t.steeringAngle) && Within(e.validFor, o.validFor, t.validFor)
  {
    var xs := Scalars(e, o, t);
    ScalarReasonsEmpty(xs);
    assert Within(xs[0].expected, xs[0].observed, xs[0].tolerance) == Within(e.brakeRatio, o.brakeRatio, t.brakeRatio);
    assert Within(xs[1].expected, xs[1].observed, xs[1].tolerance) == Within(e.speed, o.speed, t.speed);
    assert Within(xs[2].expected, xs[2].observed, xs[2].tolerance)
        == Within(e.steeringAngle, o.steeringAngle, t.steeringAngle);
    assert Within(xs[3].expected, xs[3].observed, xs[3].tolerance) == Within(e.validFor, o.validFor, t.validFor);
  }

  function Expected(e: VehicleCommandValue, field: Field): real {
    match field
    case BrakeRatio => e.brakeRatio
    case Speed => e.speed
    case SteeringAngle => e.steeringAngle
    case ValidFor => e.validFor
  }

  function Seen(o: Observed, field: Field): Float {
    match field
    case BrakeRatio => o.brakeRatio
    case Speed => o.speed
    case SteeringAngle => o.steeringAngle
    case ValidFor => o.validFor
  }

  function Allowed(t: Tolerances, field: Field): real {
    match field
    case BrakeRatio => t.brakeRatio
    case Speed => t.speed
    case SteeringAngle => t.steeringAngle
    case ValidFor => t.validFor
  }

  /** The reason this quantity gives, if any. */
  predicate Gives(x: Scalar, reason: Reason) {
    if x.observed.NonFinite? then reason == FieldNonfinite(x.field)
    else Abs(x.expected - x.observed.value) > x.tolerance && reason == FieldMismatch(x.field)
  }

  lemma {:induction false} ScalarReasonsName(xs: seq<Scalar>, reason: Reason)
    ensures reason in ScalarReasons(xs) <==> exists i :: 0 <= i < |xs| && Gives(xs[i], reason)
  {
    hide Gives, ReasonOf;
    if xs != [] {
      var n := |xs| - 1;
      ScalarReasonsName(xs[..n], reason);
      GivesItsReason(xs[n], reason);
      assert forall i :: 0 <= i < n ==> xs[..n][i] == xs[i];
    }
  }

  lemma GivesItsReason(x: Scalar, reason: Reason)
    ensures reason in ReasonOf(x) <==> Gives(x, reason)
  {
  }

  lemma OneScalar(e: VehicleCommandValue, o: Observed, t: Tolerances, field: Field, reason: Reason)
    requires reason == FieldNonfinite(field) || reason == FieldMismatch(field)
    ensures reason in ScalarReasons(Scalars(e, o, t))
       <==> Gives(Scalar(field, Expected(e, field), Seen(o, field), Allowed(t, field)), reason)
  {
    var xs := Scalars(e, o, t);
    ScalarReasonsName(xs, reason);
    var k := match field case BrakeRatio => 0 case Speed => 1 case SteeringAngle => 2 case ValidFor => 3;
    assert xs[k] == Scalar(field, Expected(e, field), Seen(o, field), Allowed(t, field));
    assert forall i :: 0 <= i < |xs| && i != k ==> xs[i].field != field;
    hide ScalarReasons;
  }

  lemma NoOtherScalars(e: VehicleCommandValue, o: Observed, t: Tolerances, reason: Reason)
    requires !reason.FieldNonfinite? && !reason.FieldMismatch?
    ensures reason !in ScalarReasons(Scalars(e, o, t))
  {
    ScalarReasonsName(Scalars(e, o, t), reason);
    hide ScalarReasons, Scalars;
  }

  lemma NotedIn(reasons: seq<Reason>, holds: bool, noted: Reason, reason: Reason)
    ensures reason in Noted(reasons, holds, noted) <==> reason in reasons || (holds && reason == noted)
  {
  }

  /** The reasons in a comparison are those of the quantities, and those of the discrete fields that
      differ. */
  lemma ReasonIn(e: VehicleCommandValue, o: Observed, t: Tolerances, reason: Reason)
    ensures reason in Reasons(e, o, t) <==>
              || reason in ScalarReasons(Scalars(e, o, t))
              || (reason == SourceMismatch && e.source != o.source)
              || (reason == DriveEnabledMismatch && e.driveEnabled != o.driveEnabled)
              || (reason == EmergencyStopMismatch && e.emergencyStop != o.emergencyStop)
              || (reason == FrameIdMismatch && o.frameId != t.frameId)
              || (reason == StampInvalid && o.stampNs <= 0)
  {
    hide ScalarReasons, Scalars, Noted;
    var scalars := ScalarReasons(Scalars(e, o, t));
    var source := Noted(scalars, e.source != o.source, SourceMismatch);
    var drive := Noted(source, e.driveEnabled != o.driveEnabled, DriveEnabledMismatch);
    var estop := Noted(drive, e.emergencyStop != o.emergencyStop, EmergencyStopMismatch);
    var frame := Noted(estop, o.frameId != t.frameId, FrameIdMismatch);
    NotedIn(scalars, e.source != o.source, SourceMismatch, reason);
    NotedIn(source, e.driveEnabled != o.driveEnabled, DriveEnabledMismatch, reason);
    NotedIn(drive, e.emergencyStop != o.emergencyStop, EmergencyStopMismatch, reason);
    NotedIn(estop, o.frameId != t.frameId, FrameIdMismatch, reason);
    NotedIn(frame, o.stampNs <= 0, StampInvalid, reason);
  }

  /** Each reason given names a field, and exactly what is wrong with that field. */
  lemma ReasonsName(e: VehicleCommandValue, o: Observed, t: Tolerances, field: Field)
    ensures FieldNonfinite(field) in Reasons(e, o, t) <==> Seen(o, field).NonFinite?
    ensures FieldMismatch(field) in Reasons(e, o, t) <==>
              Seen(o, field).Finite? && Abs(Expected(e, field) - Seen(o, field).value) > Allowed(t, field)
    ensures SourceMismatch in Reasons(e, o, t) <==> e.source != o.source
    ensures DriveEnabledMismatch in Reasons(e, o, t) <==> e.driveEnabled != o.driveEnabled
    ensures EmergencyStopMismatch in Reasons(e, o, t) <==> e.emergencyStop != o.emergencyStop
    ensures FrameIdMismatch in Reasons(e, o, t) <==> o.frameId != t.frameId
    ensures StampInvalid in Reasons(e, o, t) <==> o.stampNs <= 0
  {
    ReasonIn(e, o, t, FieldNonfinite(field));
    ReasonIn(e, o, t, FieldMismatch(field));
    ReasonIn(e, o, t, SourceMismatch);
    ReasonIn(e, o, t, DriveEnabledMismatch);
    ReasonIn(e, o, t, EmergencyStopMismatch);
    ReasonIn(e, o, t, FrameIdMismatch);
    ReasonIn(e, o, t, StampInvalid);
    OneScalar(e, o, t, field, FieldNonfinite(field));
    OneScalar(e, o, t, field, FieldMismatch(field));
    NoOtherScalars(e, o, t, SourceMismatch);
    NoOtherScalars(e, o, t, DriveEnabledMismatch);
    NoOtherScalars(e, o, t, EmergencyStopMismatch);
    NoOtherScalars(e, o, t, FrameIdMismatch);
    NoOtherScalars(e, o, t, StampInvalid);
    hide ScalarReasons, Scalars, Reasons;
  }

  function Observe(msg: VehicleCommand): Observed {
    Observed(msg.source, msg.driveEnabled, msg.emergencyStop, msg.brakeRatio, msg.speed, msg.steeringAngle,
             Finite(DecodeDuration(msg.validFor)), msg.frameId, msg.stampNs)
  }

  predicate NonNegative(t: Tolerances) {
    t.speed >= 0.0 && t.steeringAngle >= 0.0 && t.brakeRatio >= 0.0 && t.validFor >= 0.0
  }

  /** What the wire costs a duration: the part of it below one nanosecond. */
  function RoundingOf(duration: real): real {
    Abs(duration - DecodeDuration(EncodeDuration(duration)))
  }

  /** The tolerances cover what narrowing costs the quantities of a value. */
  predicate CoversLoss(t: Tolerances, wire: Wire, value: VehicleCommandValue) {
    && wire.Loss(value.brakeRatio) <= t.brakeRatio && wire.Loss(value.speed) <= t.speed
    && wire.Loss(value.steeringAngle) <= t.steeringAngle
  }

  /** A value and its own published image match exactly when the stamp is positive, the frame is
      the expected one and the tolerances cover the narrowing of the quantities and the nanosecond
      rounding of the duration; for the latter half a nanosecond always does. */
  lemma ImageMatches(wire: Wire, value: VehicleCommandValue, stampNs: int, t: Tolerances)
    ensures Reasons(value, Observe(Publish(wire, value, stampNs)), t) == []
       <==> stampNs > 0 && wire.frameId == t.frameId && CoversLoss(t, wire, value)
            && RoundingOf(value.validFor) <= t.validFor
    ensures RoundingOf(value.validFor) <= 0.5 / NANOS as real
  {
    MatchesIffAgree(value, Observe(Publish(wire, value, stampNs)), t);
    DurationRoundTrip(value.validFor);
  }

  // ---------------------------------------------------------------- the node

  datatype Pending<T> = Pending(value: T, receivedAt: real)

  datatype Config = Config(tolerances: Tolerances, pairTimeout: real, depth: int)
  {
    /** The checks whose failure raises `ValueError` at construction. */
    predicate Valid() {
      NonNegative(tolerances) && pairTimeout > 0.0 && depth > 0
    }
  }

  /** The node's fields; `pairs` and `places` are history variables recording what was compared, and
      which sample of each stream that was. */
  datatype State = State(
    legacy: seq<Pending<VehicleCommandValue>>, shadow: seq<Pending<Observed>>,
    compared: nat, matched: nat, diverged: nat, legacyTimeouts: nat, shadowTimeouts: nat,
    legacyDropped: nat, shadowDropped: nat, lastReasons: seq<Reason>,
    pairs: seq<(VehicleCommandValue, Observed)>, places: seq<(nat, nat)>)
  {
    function LegacyLost(): nat {
      legacyDropped + legacyTimeouts
    }
    function ShadowLost(): nat {
      shadowDropped + shadowTimeouts
    }
    function Failures(): nat {
      diverged + legacyTimeouts + shadowTimeouts + legacyDropped + shadowDropped
    }
    predicate Lossless() {
      legacyTimeouts == shadowTimeouts == legacyDropped == shadowDropped == 0
    }
  }

  datatype Level = OK | WARN | ERROR

  function Status(s: State): Level {
    if s.Failures() != 0 then ERROR else if s.compared == 0 then WARN else OK
  }

  function Recorded(s: State, e: VehicleCommandValue, o: Observed, reasons: seq<Reason>): State {
    var counted := s.(compared := s.compared + 1, pairs := s.pairs + [(e, o)],
                      places := s.places + [(s.compared + s.LegacyLost(), s.compared + s.ShadowLost())]);
    if reasons == [] then counted.(matched := s.matched + 1)
    else counted.(diverged := s.diverged + 1, lastReasons := reasons)
  }

  function PairHeads(t: Tolerances, s: State): State
    requires s.legacy != [] && s.shadow != []
  {
    var e, o := s.legacy[0].value, s.shadow[0].value;
    Recorded(s.(legacy := s.legacy[1..], shadow := s.shadow[1..]), e, o, Reasons(e, o, t))
  }

  function PairAvailable(t: Tolerances, s: State): State
    decreases |s.legacy|
  {
    if s.legacy == [] || s.shadow == [] then s else PairAvailable(t, PairHeads(t, s))
  }

  function RoomForLegacy(c: Config, s: State): State {
    if |s.legacy| == c.depth && s.legacy != [] then
      s.(legacy := s.legacy[1..], legacyDropped := s.legacyDropped + 1, lastReasons := [LegacyQueueOverflow])
    else s
  }

  function OnLegacyStep(c: Config, s: State, value: VehicleCommandValue, now: real): State {
    var room := RoomForLegacy(c, s);
    PairAvailable(c.tolerances, room.(legacy := room.legacy + [Pending(value, now)]))
  }

  function RoomForShadow(c: Config, s: State): State {
    if |s.shadow| == c.depth && s.shadow != [] then
      s.(shadow := s.shadow[1..], shadowDropped := s.shadowDropped + 1, lastReasons := [ShadowQueueOverflow])
    else s
  }

  function OnShadowStep(c: Config, s: State, value: Observed, now: real): State {
    var room := RoomForShadow(c, s);
    PairAvailable(c.tolerances, room.(shadow := room.shadow + [Pending(value, now)]))
  }

  function LegacyExpired(s: State): State
    requires s.legacy != []
  {
    s.(legacy := s.legacy[1..], legacyTimeouts := s.legacyTimeouts + 1, lastReasons := [ShadowMissing])
  }

  function ExpireLegacy(c: Config, s: State, now: real): State
    decreases |s.legacy|
  {
    if s.legacy != [] && now - s.legacy[0].receivedAt > c.pairTimeout then ExpireLegacy(c, LegacyExpired(s), now) else s
  }

  function ShadowExpired(s: State): State
    requires s.shadow != []
  {
    s.(shadow := s.shadow[1..], shadowTimeouts := s.shadowTimeouts + 1, lastReasons := [LegacyMissing])
  }

  function ExpireShadow(c: Config, s: State, now: real): State
    decreases |s.shadow|
  {
    if s.shadow != [] && now - s.shadow[0].receivedAt > c.pairTimeout then ExpireShadow(c, ShadowExpired(s), now) else s
  }

  function TickStep(c: Config, s: State, now: real): State {
    ExpireShadow(c, ExpireLegacy(c, s, now), now)
  }

  class VehicleCommandComparisonNode {
    const config: Config
    const adapter: LegacyVehicleCommand.Config
    var legacy: seq<Pending<VehicleCommandValue>>
    var shadow: seq<Pending<Observed>>
    var compared: nat
    var matched: nat
    var diverged: nat
    var legacyTimeouts: nat
    var shadowTimeouts: nat
    var legacyDropped: nat
    var shadowDropped: nat
    var lastReasons: seq<Reason>
    ghost var pairs: seq<(VehicleCommandValue, Observed)>
    ghost var places: seq<(nat, nat)>

    ghost function Now(): State
      reads this
    {
      State(legacy, shadow, compared, matched, diverged, legacyTimeouts, shadowTimeouts,
            legacyDropped, shadowDropped, lastReasons, pairs, places)
    }

    constructor (config: Config, adapter: LegacyVehicleCommand.Config)
      requires config.Valid() && adapter.Valid()
      ensures this.config == config && this.adapter == adapter && Now() == Initial()
    {
      this.config, this.adapter := config, adapter;
      legacy, shadow := [], [];
      compared, matched, diverged := 0, 0, 0;
      legacyTimeouts, shadowTimeouts, legacyDropped, shadowDropped := 0, 0, 0, 0;
      lastReasons, pairs, places := [], [], [];
    }

    method OnLegacy(trig: Trig, msg: CmdVelFinal, now: real)
      modifies this
      ensures Now() == OnLegacyStep(config, old(Now()), Translate(trig, adapter, msg), now)
    {
      var value := Translate(trig, adapter, msg);
      if |legacy| == config.depth && |legacy| > 0 {
        legacy := legacy[1..];
        legacyDropped := legacyDropped + 1;
        lastReasons := [LegacyQueueOverflow];
      }
      legacy := legacy + [Pending(value, now)];
      ghost var room := RoomForLegacy(config, old(Now()));
      assert Now() == room.(legacy := room.legacy + [Pending(value, now)]);
      hide PairAvailable, RoomForLegacy;
      Pair();
    }

    method OnShadow(msg: VehicleCommand, now: real)
      modifies this
      ensures Now() == OnShadowStep(config, old(Now()), Observe(msg), now)
    {
      if |shadow| == config.depth && |shadow| > 0 {
        shadow := shadow[1..];
        shadowDropped := shadowDropped + 1;
        lastReasons := [ShadowQueueOverflow];
      }
      shadow := shadow + [Pending(Observe(msg), now)];
      ghost var room := RoomForShadow(config, old(Now()));
      assert Now() == room.(shadow := room.shadow + [Pending(Observe(msg), now)]);
      hide PairAvailable, RoomForShadow;
      Pair();
    }

    method Pair()
      modifies this
      ensures Now() == PairAvailable(config.tolerances, old(Now()))
    {
      while |legacy| > 0 && |shadow| > 0
        invariant PairAvailable(config.tolerances, Now()) == PairAvailable(config.tolerances, old(Now()))
        decreases |legacy|
      {
        CompareHeads();
      }
    }

    // The body of the pairing loop.
    method CompareHeads()
      requires legacy != [] && shadow != []
      modifies this
      ensures Now() == PairHeads(config.tolerances, old(Now()))
    {
      hide Reasons, Recorded;
      var e, o := legacy[0].value, shadow[0].value;
      legacy, shadow := legacy[1..], shadow[1..];
      var reasons := CompareVehicleCommands(e, o, config.tolerances);
      Record(e, o, reasons);
    }

    method Record(e: VehicleCommandValue, o: Observed, reasons: seq<Reason>)
      modifies this
      ensures Now() == Recorded(old(Now()), e, o, reasons)
    {
      places := places + [(compared + legacyDropped + legacyTimeouts, compared + shadowDropped + shadowTimeouts)];
      pairs := pairs + [(e, o)];
      compared := compared + 1;
      if |reasons| == 0 {
        matched := matched + 1;
      } else {
        diverged := diverged + 1;
        lastReasons := reasons;
      }
    }

    method Tick(now: real) returns (level: Level)
      modifies this
      ensures Now() == TickStep(config, old(Now()), now) && level == Status(Now())
    {
      hide Status;
      while |legacy| > 0 && now - legacy[0].receivedAt > config.pairTimeout
        invariant ExpireLegacy(config, Now(), now) == ExpireLegacy(config, old(Now()), now)
        decreases |legacy|
      {
        ExpireLegacyHead();
      }
      ghost var middle := ExpireLegacy(config, old(Now()), now);
      while |shadow| > 0 && now - shadow[0].receivedAt > config.pairTimeout
        invariant ExpireShadow(config, Now(), now) == ExpireShadow(config, middle, now)
        decreases |shadow|
      {
        ExpireShadowHead();
      }
      level := PublishDiagnostics();
    }

    // The bodies of the tick's two loops.
    method ExpireLegacyHead()
      requires legacy != []
      modifies this
      ensures Now() == LegacyExpired(old(Now()))
    {
      legacy := legacy[1..];
      legacyTimeouts := legacyTimeouts + 1;
      lastReasons := [ShadowMissing];
    }

    method ExpireShadowHead()
      requires shadow != []
      modifies this
      ensures Now() == ShadowExpired(old(Now()))
    {
      shadow := shadow[1..];
      shadowTimeouts := shadowTimeouts + 1;
      lastReasons := [LegacyMissing];
    }

    method PublishDiagnostics() returns (level: Level)
      ensures level == Status(Now())
      ensures level == ERROR <==> diverged > 0 || !Now().Lossless()
      ensures level == WARN <==> diverged == 0 && Now().Lossless() && compared == 0
    {
      var failures := diverged + legacyTimeouts + shadowTimeouts + legacyDropped + shadowDropped;
      if failures > 0 {
        level := ERROR;
      } else if compared == 0 {
        level := WARN;
      } else {
        level := OK;
      }
    }
  }

  // ---------------------------------------------------------------- runs

  function Initial(): State {
    State([], [], 0, 0, 0, 0, 0, 0, 0, [], [], [])
  }

  datatype Event =
    | Legacy(value: VehicleCommandValue, now: real)
    | Shadow(observed: Observed, now: real)
    | Tick(now: real)

  function Step(c: Config, s: State, e: Event): State {
    match e
    case Legacy(value, now) => OnLegacyStep(c, s, value, now)
    case Shadow(observed, now) => OnShadowStep(c, s, observed, now)
    case Tick(now) => TickStep(c, s, now)
  }

  function StateAt(c: Config, es: seq<Event>, n: nat): State
    requires n <= |es|
  {
    if n == 0 then Initial() else Step(c, StateAt(c, es, n - 1), es[n - 1])
  }

  function LegacyStream(es: seq<Event>, n: nat): seq<VehicleCommandValue>
    requires n <= |es|
  {
    if n == 0 then []
    else LegacyStream(es, n - 1) + LegacyOf(es[n - 1])
  }

  function ShadowStream(es: seq<Event>, n: nat): seq<Observed>
    requires n <= |es|
  {
    if n == 0 then []
    else ShadowStream(es, n - 1) + ShadowOf(es[n - 1])
  }

  function Values<T>(queue: seq<Pending<T>>): seq<T> {
    seq(|queue|, i requires 0 <= i < |queue| => queue[i].value)
  }

  /** What every reachable state satisfies, with the streams received so far. */
  ghost predicate Conserved(c: Config, s: State, legacy: seq<VehicleCommandValue>, shadow: seq<Observed>) {
    && |legacy| == s.compared + s.legacyDropped + s.legacyTimeouts + |s.legacy|
    && |shadow| == s.compared + s.shadowDropped + s.shadowTimeouts + |s.shadow|
    && s.compared == s.matched + s.diverged == |s.pairs|
    && |s.legacy| <= c.depth && |s.shadow| <= c.depth
    && Values(s.legacy) == legacy[|legacy| - |s.legacy|..]
    && Values(s.shadow) == shadow[|shadow| - |s.shadow|..]
  }

  /** The pairs so far are the streams zipped, if nothing was dropped or timed out. */
  ghost predicate Zipped(s: State, legacy: seq<VehicleCommandValue>, shadow: seq<Observed>) {
    s.Lossless() ==>
      && |s.pairs| <= |legacy| && |s.pairs| <= |shadow|
      && forall i :: 0 <= i < |s.pairs| ==> s.pairs[i] == (legacy[i], shadow[i])
  }

  /** The pairs are at increasing places of each stream, among its first `m` and `k` samples. */
  ghost predicate Selected(places: seq<(nat, nat)>, pairs: seq<(VehicleCommandValue, Observed)>, m: nat, k: nat,
                           legacy: seq<VehicleCommandValue>, shadow: seq<Observed>) {
    && |places| == |pairs| && m <= |legacy| && k <= |shadow|
    && (forall i :: 0 <= i < |places| ==>
          places[i].0 < m && places[i].1 < k && pairs[i] == (legacy[places[i].0], shadow[places[i].1]))
    && (forall i, j :: 0 <= i < j < |places| ==> places[i].0 < places[j].0 && places[i].1 < places[j].1)
  }

  /** The compared samples of each stream are an increasing selection of those that left its queue,
      of which the others were lost. */
  ghost predicate InOrder(s: State, legacy: seq<VehicleCommandValue>, shadow: seq<Observed>) {
    Selected(s.places, s.pairs, s.compared + s.LegacyLost(), s.compared + s.ShadowLost(), legacy, shadow)
  }

  /** The divergence counter counts the recorded pairs that do not match. */
  function Mismatches(t: Tolerances, pairs: seq<(VehicleCommandValue, Observed)>): nat {
    if pairs == [] then 0
    else Mismatches(t, pairs[..|pairs| - 1])
         + if Reasons(pairs[|pairs| - 1].0, pairs[|pairs| - 1].1, t) == [] then 0 else 1
  }

  ghost predicate Good(c: Config, s: State, legacy: seq<VehicleCommandValue>, shadow: seq<Observed>) {
    && Conserved(c, s, legacy, shadow) && InOrder(s, legacy, shadow) && Zipped(s, legacy, shadow)
    && s.diverged == Mismatches(c.tolerances, s.pairs)
  }

  lemma TailValues<T(!new)>(queue: seq<Pending<T>>, stream: seq<T>)
    requires queue != [] && |queue| <= |stream| && Values(queue) == stream[|stream| - |queue|..]
    ensures Values(queue[1..]) == stream[|stream| - |queue[1..]|..]
    ensures queue[0].value == stream[|stream| - |queue|]
  {
    assert Values(queue)[0] == queue[0].value;
    assert Values(queue[1..]) == Values(queue)[1..];
  }

  lemma PairHeadsConserves(c: Config, s: State, legacy: seq<VehicleCommandValue>, shadow: seq<Observed>)
    requires Conserved(c, s, legacy, shadow) && s.legacy != [] && s.shadow != []
    ensures Conserved(c, PairHeads(c.tolerances, s), legacy, shadow)
  {
    hide Reasons, Values;
    TailValues(s.legacy, legacy);
    TailValues(s.shadow, shadow);
  }

  lemma PairHeadsZips(c: Config, s: State, legacy: seq<VehicleCommandValue>, shadow: seq<Observed>)
    requires Conserved(c, s, legacy, shadow) && Zipped(s, legacy, shadow) && s.legacy != [] && s.shadow != []
    ensures Zipped(PairHeads(c.tolerances, s), legacy, shadow)
  {
    hide Reasons, Values;
    TailValues(s.legacy, legacy);
    TailValues(s.shadow, shadow);
  }

  lemma SelectedGrows(places: seq<(nat, nat)>, pairs: seq<(VehicleCommandValue, Observed)>, m: nat, k: nat,
                      legacy: seq<VehicleCommandValue>, shadow: seq<Observed>, m': nat, k': nat,
                      legacy': seq<VehicleCommandValue>, shadow': seq<Observed>)
    requires Selected(places, pairs, m, k, legacy, shadow) && legacy <= legacy' && shadow <= shadow'
    requires m <= m' <= |legacy'| && k <= k' <= |shadow'|
    ensures Selected(places, pairs, m', k', legacy', shadow')
  {
  }

  lemma SelectedExtends(places: seq<(nat, nat)>, pairs: seq<(VehicleCommandValue, Observed)>, m: nat, k: nat,
                        legacy: seq<VehicleCommandValue>, shadow: seq<Observed>)
    requires Selected(places, pairs, m, k, legacy, shadow) && m < |legacy| && k < |shadow|
    ensures Selected(places + [(m, k)], pairs + [(legacy[m], shadow[k])], m + 1, k + 1, legacy, shadow)
  {
  }

  lemma PairHeadsInOrder(c: Config, s: State, legacy: seq<VehicleCommandValue>, shadow: seq<Observed>)
    requires Conserved(c, s, legacy, shadow) && InOrder(s, legacy, shadow) && s.legacy != [] && s.shadow != []
    ensures InOrder(PairHeads(c.tolerances, s), legacy, shadow)
  {
    hide Reasons, Values, Selected;
    TailValues(s.legacy, legacy);
    TailValues(s.shadow, shadow);
    SelectedExtends(s.places, s.pairs, s.compared + s.LegacyLost(), s.compared + s.ShadowLost(), legacy, shadow);
  }

  lemma PairHeadsCounts(t: Tolerances, s: State)
    requires s.diverged == Mismatches(t, s.pairs) && s.legacy != [] && s.shadow != []
    ensures PairHeads(t, s).diverged == Mismatches(t, PairHeads(t, s).pairs)
  {
    hide Reasons;
    var r := PairHeads(t, s);
    assert r.pairs[..|r.pairs| - 1] == s.pairs;
  }

  lemma PairHeadsKeeps(c: Config, s: State, legacy: seq<VehicleCommandValue>, shadow: seq<Observed>)
    requires Good(c, s, legacy, shadow) && s.legacy != [] && s.shadow != []
    ensures Good(c, PairHeads(c.tolerances, s), legacy, shadow)
  {
    hide Conserved, InOrder, Zipped, Mismatches, PairHeads;
    PairHeadsConserves(c, s, legacy, shadow);
    PairHeadsInOrder(c, s, legacy, shadow);
    PairHeadsZips(c, s, legacy, shadow);
    PairHeadsCounts(c.tolerances, s);
  }

  lemma PairHeadsPops(t: Tolerances, s: State)
    requires s.legacy != [] && s.shadow != []
    ensures var r := PairHeads(t, s);
            r.legacy == s.legacy[1..] && r.shadow == s.shadow[1..] && s.Failures() <= r.Failures()
  {
    hide Reasons;
  }

  lemma {:induction false} PairAvailableKeeps(c: Config, s: State, legacy: seq<VehicleCommandValue>,
                                              shadow: seq<Observed>)
    requires Good(c, s, legacy, shadow)
    ensures var r := PairAvailable(c.tolerances, s);
            && Good(c, r, legacy, shadow) && (r.legacy == [] || r.shadow == [])
            && s.Failures() <= r.Failures()
    decreases |s.legacy|
  {
    hide PairHeads, Good;
    if s.legacy != [] && s.shadow != [] {
      PairHeadsPops(c.tolerances, s);
      PairHeadsKeeps(c, s, legacy, shadow);
      PairAvailableKeeps(c, PairHeads(c.tolerances, s), legacy, shadow);
    }
  }

  lemma ConservedBounds(c: Config, s: State, legacy: seq<VehicleCommandValue>, shadow: seq<Observed>)
    requires Conserved(c, s, legacy, shadow)
    ensures s.compared + s.LegacyLost() <= |legacy| && s.compared + s.ShadowLost() <= |shadow|
  {
    hide Values;
  }

  lemma AppendLegacyConserves(c: Config, s: State, legacy: seq<VehicleCommandValue>, shadow: seq<Observed>,
                              value: VehicleCommandValue, now: real)
    requires Conserved(c, s, legacy, shadow) && |s.legacy| < c.depth
    ensures Conserved(c, s.(legacy := s.legacy + [Pending(value, now)]), legacy + [value], shadow)
  {
    assert Values(s.legacy + [Pending(value, now)]) == Values(s.legacy) + [value];
  }

  lemma AppendLegacyKeeps(c: Config, s: State, legacy: seq<VehicleCommandValue>, shadow: seq<Observed>,
                          value: VehicleCommandValue, now: real)
    requires Good(c, s, legacy, shadow) && |s.legacy| < c.depth
    ensures Good(c, s.(legacy := s.legacy + [Pending(value, now)]), legacy + [value], shadow)
  {
    hide Mismatches, Conserved, Selected;
    AppendLegacyConserves(c, s, legacy, shadow, value, now);
    var m, k := s.compared + s.LegacyLost(), s.compared + s.ShadowLost();
    assert m <= |legacy| && k <= |shadow| by {
      ConservedBounds(c, s, legacy, shadow);
    }
    SelectedGrows(s.places, s.pairs, m, k, legacy, shadow, m, k, legacy + [value], shadow);
  }

  lemma AppendShadowConserves(c: Config, s: State, legacy: seq<VehicleCommandValue>, shadow: seq<Observed>,
                              value: Observed, now: real)
    requires Conserved(c, s, legacy, shadow) && |s.shadow| < c.depth
    ensures Conserved(c, s.(shadow := s.shadow + [Pending(value, now)]), legacy, shadow + [value])
  {
    assert Values(s.shadow + [Pending(value, now)]) == Values(s.shadow) + [value];
  }

  lemma AppendShadowKeeps(c: Config, s: State, legacy: seq<VehicleCommandValue>, shadow: seq<Observed>,
                          value: Observed, now: real)
    requires Good(c, s, legacy, shadow) && |s.shadow| < c.depth
    ensures Good(c, s.(shadow := s.shadow + [Pending(value, now)]), legacy, shadow + [value])
  {
    hide Mismatches, Conserved, Selected;
    AppendShadowConserves(c, s, legacy, shadow, value, now);
    var m, k := s.compared + s.LegacyLost(), s.compared + s.ShadowLost();
    assert m <= |legacy| && k <= |shadow| by {
      ConservedBounds(c, s, legacy, shadow);
    }
    SelectedGrows(s.places, s.pairs, m, k, legacy, shadow, m, k, legacy, shadow + [value]);
  }

  lemma LoseLegacyConserves(c: Config, s: State, legacy: seq<VehicleCommandValue>, shadow: seq<Observed>)
    requires Conserved(c, s, legacy, shadow) && s.legacy != []
    ensures Conserved(c, RoomForLegacy(c, s), legacy, shadow) && Conserved(c, LegacyExpired(s), legacy, shadow)
  {
    hide Values;
    TailValues(s.legacy, legacy);
  }

  lemma LoseLegacyInOrder(c: Config, s: State, legacy: seq<VehicleCommandValue>, shadow: seq<Observed>)
    requires Conserved(c, s, legacy, shadow) && InOrder(s, legacy, shadow) && s.legacy != []
    ensures InOrder(RoomForLegacy(c, s), legacy, shadow) && InOrder(LegacyExpired(s), legacy, shadow)
  {
    hide Values, Selected;
    var m, k := s.compared + s.LegacyLost(), s.compared + s.ShadowLost();
    SelectedGrows(s.places, s.pairs, m, k, legacy, shadow, m + 1, k, legacy, shadow);
  }

  lemma LoseLegacyKeeps(c: Config, s: State, legacy: seq<VehicleCommandValue>, shadow: seq<Observed>)
    requires Good(c, s, legacy, shadow)
    ensures Good(c, RoomForLegacy(c, s), legacy, shadow)
    ensures s.legacy != [] ==> Good(c, LegacyExpired(s), legacy, shadow)
  {
    hide Conserved, InOrder, Mismatches;
    if s.legacy != [] {
      LoseLegacyConserves(c, s, legacy, shadow);
      LoseLegacyInOrder(c, s, legacy, shadow);
    }
  }

  lemma LoseShadowConserves(c: Config, s: State, legacy: seq<VehicleCommandValue>, shadow: seq<Observed>)
    requires Conserved(c, s, legacy, shadow) && s.shadow != []
    ensures Conserved(c, RoomForShadow(c, s), legacy, shadow) && Conserved(c, ShadowExpired(s), legacy, shadow)
  {
    hide Values;
    TailValues(s.shadow, shadow);
  }

  lemma LoseShadowInOrder(c: Config, s: State, legacy: seq<VehicleCommandValue>, shadow: seq<Observed>)
    requires Conserved(c, s, legacy, shadow) && InOrder(s, legacy, shadow) && s.shadow != []
    ensures InOrder(RoomForShadow(c, s), legacy, shadow) && InOrder(ShadowExpired(s), legacy, shadow)
  {
    hide Values, Selected;
    var m, k := s.compared + s.LegacyLost(), s.compared + s.ShadowLost();
    SelectedGrows(s.places, s.pairs, m, k, legacy, shadow, m, k + 1, legacy, shadow);
  }

  lemma LoseShadowKeeps(c: Config, s: State, legacy: seq<VehicleCommandValue>, shadow: seq<Observed>)
    requires Good(c, s, legacy, shadow)
    ensures Good(c, RoomForShadow(c, s), legacy, shadow)
    ensures s.shadow != [] ==> Good(c, ShadowExpired(s), legacy, shadow)
  {
    hide Conserved, InOrder, Mismatches;
    if s.shadow != [] {
      LoseShadowConserves(c, s, legacy, shadow);
      LoseShadowInOrder(c, s, legacy, shadow);
    }
  }

  /** Every queued sample was received in order. */
  ghost predicate Ordered<T>(queue: seq<Pending<T>>) {
    forall i, j :: 0 <= i < j < |queue| ==> queue[i].receivedAt <= queue[j].receivedAt
  }

  ghost predicate Recent<T>(c: Config, queue: seq<Pending<T>>, now: real) {
    forall i :: 0 <= i < |queue| ==> now - queue[i].receivedAt <= c.pairTimeout
  }

  lemma {:induction false} ExpireLegacyKeeps(c: Config, s: State, now: real, legacy: seq<VehicleCommandValue>,
                                             shadow: seq<Observed>)
    requires Good(c, s, legacy, shadow)
    ensures Good(c, ExpireLegacy(c, s, now), legacy, shadow)
    decreases |s.legacy|
  {
    hide Good;
    if s.legacy != [] && now - s.legacy[0].receivedAt > c.pairTimeout {
      LoseLegacyKeeps(c, s, legacy, shadow);
      ExpireLegacyKeeps(c, LegacyExpired(s), now, legacy, shadow);
    }
  }

  lemma {:induction false} ExpireLegacyShape(c: Config, s: State, now: real)
    ensures var r := ExpireLegacy(c, s, now);
            && r.shadow == s.shadow && s.Failures() <= r.Failures()
            && |r.legacy| <= |s.legacy| && r.legacy == s.legacy[|s.legacy| - |r.legacy|..]
            && (Ordered(s.legacy) ==> Recent(c, r.legacy, now))
    decreases |s.legacy|
  {
    if s.legacy != [] && now - s.legacy[0].receivedAt > c.pairTimeout {
      ExpireLegacyShape(c, LegacyExpired(s), now);
    }
  }

  lemma {:induction false} ExpireShadowKeeps(c: Config, s: State, now: real, legacy: seq<VehicleCommandValue>,
                                             shadow: seq<Observed>)
    requires Good(c, s, legacy, shadow)
    ensures Good(c, ExpireShadow(c, s, now), legacy, shadow)
    decreases |s.shadow|
  {
    hide Good;
    if s.shadow != [] && now - s.shadow[0].receivedAt > c.pairTimeout {
      LoseShadowKeeps(c, s, legacy, shadow);
      ExpireShadowKeeps(c, ShadowExpired(s), now, legacy, shadow);
    }
  }

  lemma {:induction false} ExpireShadowShape(c: Config, s: State, now: real)
    ensures var r := ExpireShadow(c, s, now);
            && r.legacy == s.legacy && s.Failures() <= r.Failures()
            && |r.shadow| <= |s.shadow| && r.shadow == s.shadow[|s.shadow| - |r.shadow|..]
            && (Ordered(s.shadow) ==> Recent(c, r.shadow, now))
    decreases |s.shadow|
  {
    if s.shadow != [] && now - s.shadow[0].receivedAt > c.pairTimeout {
      ExpireShadowShape(c, ShadowExpired(s), now);
    }
  }

  lemma RoomMade(c: Config, s: State, legacy: seq<VehicleCommandValue>, shadow: seq<Observed>)
    requires c.Valid() && Good(c, s, legacy, shadow)
    ensures |RoomForLegacy(c, s).legacy| < c.depth && s.Failures() <= RoomForLegacy(c, s).Failures()
    ensures |RoomForShadow(c, s).shadow| < c.depth && s.Failures() <= RoomForShadow(c, s).Failures()
  {
    hide InOrder, Zipped, Mismatches, Values;
  }

  lemma OnLegacyKeeps(c: Config, s: State, value: VehicleCommandValue, now: real, legacy: seq<VehicleCommandValue>,
                      shadow: seq<Observed>)
    requires c.Valid() && Good(c, s, legacy, shadow)
    ensures var r := OnLegacyStep(c, s, value, now);
            && Good(c, r, legacy + [value], shadow) && (r.legacy == [] || r.shadow == [])
            && s.Failures() <= r.Failures()
  {
    hide Good, PairAvailable;
    var room := RoomForLegacy(c, s);
    LoseLegacyKeeps(c, s, legacy, shadow);
    RoomMade(c, s, legacy, shadow);
    AppendLegacyKeeps(c, room, legacy, shadow, value, now);
    PairAvailableKeeps(c, room.(legacy := room.legacy + [Pending(value, now)]), legacy + [value], shadow);
  }

  lemma OnShadowKeeps(c: Config, s: State, value: Observed, now: real, legacy: seq<VehicleCommandValue>,
                      shadow: seq<Observed>)
    requires c.Valid() && Good(c, s, legacy, shadow)
    ensures var r := OnShadowStep(c, s, value, now);
            && Good(c, r, legacy, shadow + [value]) && (r.legacy == [] || r.shadow == [])
            && s.Failures() <= r.Failures()
  {
    hide Good, PairAvailable;
    var room := RoomForShadow(c, s);
    LoseShadowKeeps(c, s, legacy, shadow);
    RoomMade(c, s, legacy, shadow);
    AppendShadowKeeps(c, room, legacy, shadow, value, now);
    PairAvailableKeeps(c, room.(shadow := room.shadow + [Pending(value, now)]), legacy, shadow + [value]);
  }

  function LegacyOf(e: Event): seq<VehicleCommandValue> {
    if e.Legacy? then [e.value] else []
  }

  function ShadowOf(e: Event): seq<Observed> {
    if e.Shadow? then [e.observed] else []
  }

  lemma StepKeeps(c: Config, s: State, e: Event, legacy: seq<VehicleCommandValue>, shadow: seq<Observed>)
    requires c.Valid() && Good(c, s, legacy, shadow) && (s.legacy == [] || s.shadow == [])
    ensures var r := Step(c, s, e);
            && Good(c, r, legacy + LegacyOf(e), shadow + ShadowOf(e))
            && (r.legacy == [] || r.shadow == []) && s.Failures() <= r.Failures()
  {
    assert legacy + [] == legacy && shadow + [] == shadow;
    match e
    case Legacy(value, now) => OnLegacyKeeps(c, s, value, now, legacy, shadow);
    case Shadow(observed, now) => OnShadowKeeps(c, s, observed, now, legacy, shadow);
    case Tick(now) =>
      var middle := ExpireLegacy(c, s, now);
      ExpireLegacyKeeps(c, s, now, legacy, shadow);
      ExpireLegacyShape(c, s, now);
      ExpireShadowKeeps(c, middle, now, legacy, shadow);
      ExpireShadowShape(c, middle, now);
  }

  lemma InitialConserved(c: Config)
    requires c.Valid()
    ensures Conserved(c, Initial(), [], [])
  {
    var s := Initial();
    assert Values(s.legacy) == [] && Values(s.shadow) == [];
  }

  lemma NothingSelected()
    ensures Selected([], [], 0, 0, [], [])
  {
  }

  lemma InitialGood(c: Config)
    requires c.Valid()
    ensures Good(c, Initial(), [], [])
  {
    hide Conserved, Selected, Mismatches;
    InitialConserved(c);
    NothingSelected();
    NoMismatches(c.tolerances);
  }

  lemma NoMismatches(t: Tolerances)
    ensures Mismatches(t, []) == 0
  {
    hide Reasons;
  }

  /** Conservation, in every reachable state: each stream's samples were compared, dropped or timed
      out, or are pending and its last; those compared are an increasing selection of it; every
      comparison matched or diverged; the recorded pairs are the streams zipped unless a sample was
      lost; one queue is always empty. */
  lemma {:induction false} Conservation(c: Config, es: seq<Event>, n: nat)
    requires c.Valid() && n <= |es|
    ensures var s := StateAt(c, es, n);
            Good(c, s, LegacyStream(es, n), ShadowStream(es, n)) && (s.legacy == [] || s.shadow == [])
  {
    hide Good, Step;
    if n == 0 {
      InitialGood(c);
    } else {
      Conservation(c, es, n - 1);
      StepKeeps(c, StateAt(c, es, n - 1), es[n - 1], LegacyStream(es, n - 1), ShadowStream(es, n - 1));
    }
  }

  /** A failure is for ever: once the status is ERROR no later event clears it. */
  lemma {:induction false} ErrorLatches(c: Config, es: seq<Event>, m: nat, n: nat)
    requires c.Valid() && m <= n <= |es|
    ensures StateAt(c, es, m).Failures() <= StateAt(c, es, n).Failures()
    ensures Status(StateAt(c, es, m)) == ERROR ==> Status(StateAt(c, es, n)) == ERROR
  {
    hide StateAt;
    if m < n {
      ErrorLatches(c, es, m, n - 1);
      FailuresGrow(c, es, n - 1);
    }
  }

  lemma FailuresGrow(c: Config, es: seq<Event>, n: nat)
    requires c.Valid() && n < |es|
    ensures StateAt(c, es, n).Failures() <= StateAt(c, es, n + 1).Failures()
  {
    hide Good, Step, State.Failures;
    Conservation(c, es, n);
    StepKeeps(c, StateAt(c, es, n), es[n], LegacyStream(es, n), ShadowStream(es, n));
  }

  /** The reason a loss leaves names one of the kind that has occurred. */
  predicate NamesALoss(s: State) {
    || (s.lastReasons == [LegacyQueueOverflow] && s.legacyDropped > 0)
    || (s.lastReasons == [ShadowQueueOverflow] && s.shadowDropped > 0)
    || (s.lastReasons == [ShadowMissing] && s.legacyTimeouts > 0)
    || (s.lastReasons == [LegacyMissing] && s.shadowTimeouts > 0)
  }

  /** The reasons on show are those of a recorded pair that diverged, or of a loss, and there are some as
      soon as there has been a failure. */
  ghost predicate Explained(t: Tolerances, s: State) {
    && (s.Failures() == 0 <==> s.lastReasons == [])
    && (s.lastReasons == [] || NamesALoss(s)
        || exists i :: 0 <= i < |s.pairs| && Reasons(s.pairs[i].0, s.pairs[i].1, t) == s.lastReasons)
  }

  lemma PairHeadsExplained(t: Tolerances, s: State)
    requires Explained(t, s) && s.legacy != [] && s.shadow != []
    ensures Explained(t, PairHeads(t, s))
  {
    hide Reasons;
    var r := PairHeads(t, s);
    assert r.pairs[|r.pairs| - 1] == (s.legacy[0].value, s.shadow[0].value);
    if i :| 0 <= i < |s.pairs| && Reasons(s.pairs[i].0, s.pairs[i].1, t) == s.lastReasons {
      assert r.pairs[i] == s.pairs[i];
    }
  }

  lemma {:induction false} PairAvailableExplained(t: Tolerances, s: State)
    requires Explained(t, s)
    ensures Explained(t, PairAvailable(t, s))
    decreases |s.legacy|
  {
    hide PairHeads, Explained;
    if s.legacy != [] && s.shadow != [] {
      PairHeadsPops(t, s);
      PairHeadsExplained(t, s);
      PairAvailableExplained(t, PairHeads(t, s));
    }
  }

  lemma LegacyExplained(c: Config, s: State, value: VehicleCommandValue, now: real)
    requires Explained(c.tolerances, s)
    ensures Explained(c.tolerances, OnLegacyStep(c, s, value, now))
  {
    hide Reasons, PairAvailable;
    var room := RoomForLegacy(c, s);
    PairAvailableExplained(c.tolerances, room.(legacy := room.legacy + [Pending(value, now)]));
  }

  lemma ShadowExplained(c: Config, s: State, value: Observed, now: real)
    requires Explained(c.tolerances, s)
    ensures Explained(c.tolerances, OnShadowStep(c, s, value, now))
  {
    hide Reasons, PairAvailable;
    var room := RoomForShadow(c, s);
    PairAvailableExplained(c.tolerances, room.(shadow := room.shadow + [Pending(value, now)]));
  }

  lemma TickExplained(c: Config, s: State, now: real)
    requires Explained(c.tolerances, s)
    ensures Explained(c.tolerances, TickStep(c, s, now))
  {
    TickTakesTheStale(c, s, now);
    hide Reasons, TickStep;
  }

  lemma {:induction false} ReasonsExplained(c: Config, es: seq<Event>, n: nat)
    requires n <= |es|
    ensures Explained(c.tolerances, StateAt(c, es, n))
  {
    hide OnLegacyStep, OnShadowStep, TickStep;
    if n > 0 {
      hide Explained;
      ReasonsExplained(c, es, n - 1);
      var s := StateAt(c, es, n - 1);
      match es[n - 1]
      case Legacy(value, now) => LegacyExplained(c, s, value, now);
      case Shadow(value, now) => ShadowExplained(c, s, value, now);
      case Tick(now) => TickExplained(c, s, now);
    }
  }

  // ---------------------------------------------------------------- pairing

  /** Without loss, whatever the interleaving, the compared pairs are the two streams zipped. */
  lemma LosslessRunsZip(c: Config, es: seq<Event>, n: nat)
    requires c.Valid() && n <= |es| && StateAt(c, es, n).Lossless()
    ensures var pairs, legacy, shadow := StateAt(c, es, n).pairs, LegacyStream(es, n), ShadowStream(es, n);
            && |pairs| == (if |legacy| <= |shadow| then |legacy| else |shadow|)
            && forall i :: 0 <= i < |pairs| ==> pairs[i] == (legacy[i], shadow[i])
  {
    Conservation(c, es, n);
  }

  /** The shadow stream is what the adapter publishes for the legacy stream, stamp by stamp. */
  ghost predicate IsAdapterImage(wire: Wire, legacy: seq<VehicleCommandValue>, shadow: seq<Observed>) {
    forall i :: 0 <= i < |legacy| && i < |shadow| ==>
      shadow[i] == Observe(Publish(wire, legacy[i], shadow[i].stampNs))
  }

  /** A sample that carries a usable stamp, and a value that the wire changes within tolerance. A
      simulated clock reads zero until its first message. */
  predicate Carried(wire: Wire, t: Tolerances, value: VehicleCommandValue, stampNs: int) {
    stampNs > 0 && wire.frameId == t.frameId && CoversLoss(t, wire, value) && RoundingOf(value.validFor) <= t.validFor
  }

  /** How many of the first `n` samples are not. */
  function Uncarried(wire: Wire, t: Tolerances, legacy: seq<VehicleCommandValue>, shadow: seq<Observed>,
                     n: nat): (count: nat)
    requires n <= |legacy| && n <= |shadow|
    ensures count == 0 <==> forall i :: 0 <= i < n ==> Carried(wire, t, legacy[i], shadow[i].stampNs)
    ensures (forall i :: 0 <= i < n ==> !Carried(wire, t, legacy[i], shadow[i].stampNs)) ==> count == n
  {
    if n == 0 then 0
    else
      Uncarried(wire, t, legacy, shadow, n - 1)
      + if Carried(wire, t, legacy[n - 1], shadow[n - 1].stampNs) then 0 else 1
  }

  lemma {:induction false} CountMismatches(wire: Wire, t: Tolerances, pairs: seq<(VehicleCommandValue, Observed)>,
                                           legacy: seq<VehicleCommandValue>, shadow: seq<Observed>)
    requires |pairs| <= |legacy| && |pairs| <= |shadow|
    requires forall i :: 0 <= i < |pairs| ==>
               (Reasons(pairs[i].0, pairs[i].1, t) == [] <==> Carried(wire, t, legacy[i], shadow[i].stampNs))
    ensures Mismatches(t, pairs) == Uncarried(wire, t, legacy, shadow, |pairs|)
  {
    hide Reasons, Carried;
    if pairs != [] {
      var n := |pairs| - 1;
      assert forall i :: 0 <= i < n ==> pairs[..n][i] == pairs[i];
      CountMismatches(wire, t, pairs[..n], legacy, shadow);
    }
  }

  /** Fed by the adapter, a lossless run diverges on exactly the samples that the wire does not carry
      within tolerance. */
  lemma AdapterStreamVerdict(c: Config, es: seq<Event>, n: nat, wire: Wire)
    requires c.Valid() && n <= |es| && StateAt(c, es, n).Lossless()
    requires IsAdapterImage(wire, LegacyStream(es, n), ShadowStream(es, n))
    ensures var s, legacy, shadow := StateAt(c, es, n), LegacyStream(es, n), ShadowStream(es, n);
            && s.compared <= |legacy| && s.compared <= |shadow|
            && s.diverged == Uncarried(wire, c.tolerances, legacy, shadow, s.compared)
  {
    hide Reasons, StateAt, Mismatches, Uncarried, Carried;
    var t, pairs := c.tolerances, StateAt(c, es, n).pairs;
    CountersCount(c, es, n);
    LosslessRunsZip(c, es, n);
    ImagePairs(wire, t, pairs, LegacyStream(es, n), ShadowStream(es, n));
    CountMismatches(wire, t, pairs, LegacyStream(es, n), ShadowStream(es, n));
  }

  lemma CountersCount(c: Config, es: seq<Event>, n: nat)
    requires c.Valid() && n <= |es|
    ensures var s := StateAt(c, es, n);
            && s.compared == |s.pairs| <= |LegacyStream(es, n)| && s.compared <= |ShadowStream(es, n)|
            && s.diverged == Mismatches(c.tolerances, s.pairs)
  {
    hide StateAt, Reasons;
    Conservation(c, es, n);
  }

  lemma ImagePairs(wire: Wire, t: Tolerances, pairs: seq<(VehicleCommandValue, Observed)>,
                   legacy: seq<VehicleCommandValue>, shadow: seq<Observed>)
    requires |pairs| <= |legacy| && |pairs| <= |shadow| && IsAdapterImage(wire, legacy, shadow)
    requires forall i :: 0 <= i < |pairs| ==> pairs[i] == (legacy[i], shadow[i])
    ensures forall i :: 0 <= i < |pairs| ==>
              (Reasons(pairs[i].0, pairs[i].1, t) == [] <==> Carried(wire, t, legacy[i], shadow[i].stampNs))
  {
    hide Reasons, RoundingOf, CoversLoss;
    forall i | 0 <= i < |pairs|
      ensures Reasons(pairs[i].0, pairs[i].1, t) == [] <==> Carried(wire, t, legacy[i], shadow[i].stampNs)
    {
      ImageMatches(wire, legacy[i], shadow[i].stampNs, t);
    }
  }

  lemma WireRounding(duration: real)
    ensures RoundingOf(duration) <= 0.5 / NANOS as real
  {
    DurationRoundTrip(duration);
  }

  /** The values of a stream of legacy messages under one configuration. */
  function Translated(trig: Trig, adapter: LegacyVehicleCommand.Config,
                      msgs: seq<CmdVelFinal>): seq<VehicleCommandValue> {
    seq(|msgs|, i requires 0 <= i < |msgs| => Translate(trig, adapter, msgs[i]))
  }

  /** The node and the adapter under the same parameters, for any messages, finite or not, and any
      lossless interleaving: they never disagree exactly when nothing was compared, or the frame
      parameter has no white space around it, which the adapter strips and the node does not, the
      tolerances cover the wire's rounding of the duration and its narrowing of every compared value,
      and every compared sample was stamped after the clock had started. */
  lemma SameConfigVerdict(c: Config, trig: Trig, wire: Wire, adapter: LegacyVehicleCommand.Config,
                          msgs: seq<CmdVelFinal>, es: seq<Event>, n: nat)
    requires c.Valid() && n <= |es| && StateAt(c, es, n).Lossless()
    requires AdapterFrame(c.tolerances.frameId) == Some(wire.frameId)
    requires LegacyStream(es, n) == Translated(trig, adapter, msgs)
    requires IsAdapterImage(wire, LegacyStream(es, n), ShadowStream(es, n))
    ensures var s, t, shadow := StateAt(c, es, n), c.tolerances, ShadowStream(es, n);
            && s.compared <= |msgs| && s.compared <= |shadow|
            && (s.diverged == 0 <==>
                || s.compared == 0
                || (&& !IsSpace(t.frameId[0]) && !IsSpace(t.frameId[|t.frameId| - 1])
                    && RoundingOf(adapter.validFor) <= t.validFor
                    && forall i :: 0 <= i < s.compared ==>
                         shadow[i].stampNs > 0 && CoversLoss(t, wire, Translate(trig, adapter, msgs[i]))))
    ensures RoundingOf(adapter.validFor) <= 0.5 / NANOS as real
  {
    hide StateAt, RoundingOf, IsAdapterImage, CoversLoss;
    StripUnchangedIff(c.tolerances.frameId);
    WireRounding(adapter.validFor);
    AdapterStreamVerdict(c, es, n, wire);
    TranslatedValidity(trig, adapter, msgs);
    hide Translate;
    assert forall i :: 0 <= i < |msgs| ==> LegacyStream(es, n)[i] == Translate(trig, adapter, msgs[i]);
  }

  lemma TranslatedValidity(trig: Trig, adapter: LegacyVehicleCommand.Config, msgs: seq<CmdVelFinal>)
    ensures forall i :: 0 <= i < |msgs| ==> Translate(trig, adapter, msgs[i]).validFor == adapter.validFor
  {
  }

  /** Narrowing moves nothing within `range` by more than `loss`. */
  ghost predicate LosesAtMost(wire: Wire, range: real, loss: real) {
    forall x :: -range <= x <= range ==> wire.Loss(x) <= loss
  }

  /** Tolerances of at least what narrowing can cost within the adapter's limits cover the loss of
      every message. */
  lemma TolerancesCover(trig: Trig, wire: Wire, adapter: LegacyVehicleCommand.Config, t: Tolerances, range: real,
                        loss: real, msg: CmdVelFinal)
    requires adapter.Valid() && LosesAtMost(wire, range, loss)
    requires range >= Max(1.0, Max(adapter.steeringLimit, Max(adapter.maxSpeed, adapter.maxReverse)))
    requires loss <= Min(t.brakeRatio, Min(t.speed, t.steeringAngle))
    ensures CoversLoss(t, wire, Translate(trig, adapter, msg))
  {
    if msg.linear.Finite? && msg.angular.Finite? {
      CommandInRange(trig, adapter.Limits(), msg.linear.value, msg.angular.value, msg.brakePct, false,
                     adapter.driveEnabled, msg.source);
      hide CommandFromCmdVel;
    }
  }

  // ---------------------------------------------------------------- loss

  /** The head of a queue, the oldest sample of it, is not older than the pair timeout. */
  predicate HeadRecent<T>(c: Config, queue: seq<Pending<T>>, now: real) {
    queue != [] ==> now - queue[0].receivedAt <= c.pairTimeout
  }

  lemma {:induction false} ExpireLegacyExact(c: Config, s: State, now: real)
    ensures var r := ExpireLegacy(c, s, now);
            var k := r.legacyTimeouts - s.legacyTimeouts;
            && 0 <= k <= |s.legacy| && r.legacy == s.legacy[k..] && HeadRecent(c, r.legacy, now)
            && (forall i :: 0 <= i < k ==> now - s.legacy[i].receivedAt > c.pairTimeout)
            && r == s.(legacy := r.legacy, legacyTimeouts := r.legacyTimeouts,
                       lastReasons := if k > 0 then [ShadowMissing] else s.lastReasons)
    decreases |s.legacy|
  {
    if s.legacy != [] && now - s.legacy[0].receivedAt > c.pairTimeout {
      var later := LegacyExpired(s);
      assert ExpireLegacy(c, s, now) == ExpireLegacy(c, later, now);
      ExpireLegacyExact(c, later, now);
      hide ExpireLegacy, HeadRecent;
      var k := ExpireLegacy(c, s, now).legacyTimeouts - s.legacyTimeouts;
      assert s.legacy[1..][k - 1..] == s.legacy[k..];
      forall i | 0 <= i < k ensures now - s.legacy[i].receivedAt > c.pairTimeout {
        if i > 0 { assert later.legacy[i - 1] == s.legacy[i]; }
      }
    }
  }

  lemma {:induction false} ExpireShadowExact(c: Config, s: State, now: real)
    ensures var r := ExpireShadow(c, s, now);
            var k := r.shadowTimeouts - s.shadowTimeouts;
            && 0 <= k <= |s.shadow| && r.shadow == s.shadow[k..] && HeadRecent(c, r.shadow, now)
            && (forall i :: 0 <= i < k ==> now - s.shadow[i].receivedAt > c.pairTimeout)
            && r == s.(shadow := r.shadow, shadowTimeouts := r.shadowTimeouts,
                       lastReasons := if k > 0 then [LegacyMissing] else s.lastReasons)
    decreases |s.shadow|
  {
    if s.shadow != [] && now - s.shadow[0].receivedAt > c.pairTimeout {
      var later := ShadowExpired(s);
      assert ExpireShadow(c, s, now) == ExpireShadow(c, later, now);
      ExpireShadowExact(c, later, now);
      hide ExpireShadow, HeadRecent;
      var k := ExpireShadow(c, s, now).shadowTimeouts - s.shadowTimeouts;
      assert s.shadow[1..][k - 1..] == s.shadow[k..];
      forall i | 0 <= i < k ensures now - s.shadow[i].receivedAt > c.pairTimeout {
        if i > 0 { assert later.shadow[i - 1] == s.shadow[i]; }
      }
    }
  }

  /** In any state, what a tick takes from each queue is its longest prefix older than the pair timeout,
      every sample of which it counts; the rest, and everything else, stays. */
  lemma TickTakesTheStale(c: Config, s: State, now: real)
    ensures var r := TickStep(c, s, now);
            var j, k := r.legacyTimeouts - s.legacyTimeouts, r.shadowTimeouts - s.shadowTimeouts;
            && 0 <= j <= |s.legacy| && r.legacy == s.legacy[j..] && HeadRecent(c, r.legacy, now)
            && (forall i :: 0 <= i < j ==> now - s.legacy[i].receivedAt > c.pairTimeout)
            && 0 <= k <= |s.shadow| && r.shadow == s.shadow[k..] && HeadRecent(c, r.shadow, now)
            && (forall i :: 0 <= i < k ==> now - s.shadow[i].receivedAt > c.pairTimeout)
            && r == s.(legacy := r.legacy, legacyTimeouts := r.legacyTimeouts,
                       shadow := r.shadow, shadowTimeouts := r.shadowTimeouts,
                       lastReasons := if k > 0 then [LegacyMissing] else if j > 0 then [ShadowMissing]
                                      else s.lastReasons)
  {
    ExpireLegacyExact(c, s, now);
    ExpireShadowExact(c, ExpireLegacy(c, s, now), now);
    hide ExpireLegacy, ExpireShadow;
  }

  /** A tick that finds only recent samples leaves the whole state alone. */
  lemma TickKeepsTheRecent(c: Config, s: State, now: real)
    requires Recent(c, s.legacy, now) && Recent(c, s.shadow, now)
    ensures TickStep(c, s, now) == s
  {
  }

  /** An event that costs a sample: an arrival that finds its own queue full, or a tick that finds a head
      older than the pair timeout. */
  predicate Loses(c: Config, s: State, e: Event) {
    match e
    case Legacy(_, _) => |s.legacy| >= c.depth
    case Shadow(_, _) => |s.shadow| >= c.depth
    case Tick(now) => !HeadRecent(c, s.legacy, now) || !HeadRecent(c, s.shadow, now)
  }

  lemma {:induction false} PairAvailableLosesNothing(t: Tolerances, s: State)
    ensures var r := PairAvailable(t, s);
            && r.legacyTimeouts == s.legacyTimeouts && r.shadowTimeouts == s.shadowTimeouts
            && r.legacyDropped == s.legacyDropped && r.shadowDropped == s.shadowDropped
    decreases |s.legacy|
  {
    hide Reasons;
    if s.legacy != [] && s.shadow != [] {
      PairAvailableLosesNothing(t, PairHeads(t, s));
    }
  }

  lemma StepLosesIff(c: Config, s: State, e: Event)
    requires c.Valid() && |s.legacy| <= c.depth && |s.shadow| <= c.depth
    ensures Step(c, s, e).Lossless() <==> s.Lossless() && !Loses(c, s, e)
  {
    hide PairAvailable, ExpireLegacy, ExpireShadow;
    match e
    case Legacy(value, now) =>
      var room := RoomForLegacy(c, s);
      PairAvailableLosesNothing(c.tolerances, room.(legacy := room.legacy + [Pending(value, now)]));
    case Shadow(value, now) =>
      var room := RoomForShadow(c, s);
      PairAvailableLosesNothing(c.tolerances, room.(shadow := room.shadow + [Pending(value, now)]));
    case Tick(now) =>
      TickTakesTheStale(c, s, now);
  }

  /** A run is lossless exactly when no arrival found its queue full and no tick found a sample that had
      waited longer than the pair timeout. */
  lemma {:induction false} LosslessIff(c: Config, es: seq<Event>, n: nat)
    requires c.Valid() && n <= |es|
    ensures StateAt(c, es, n).Lossless() <==> forall m :: 0 <= m < n ==> !Loses(c, StateAt(c, es, m), es[m])
  {
    hide Step, Loses;
    if n > 0 {
      hide State.Lossless;
      LosslessIff(c, es, n - 1);
      QueuesFit(c, es, n - 1);
      StepLosesIff(c, StateAt(c, es, n - 1), es[n - 1]);
    }
  }

  lemma QueuesFit(c: Config, es: seq<Event>, n: nat)
    requires c.Valid() && n <= |es|
    ensures |StateAt(c, es, n).legacy| <= c.depth && |StateAt(c, es, n).shadow| <= c.depth
  {
    Conservation(c, es, n);
    hide StateAt, InOrder, Zipped, Mismatches, Values;
  }

  // ---------------------------------------------------------------- expiry

  ghost predicate Suffix<T(!new)>(xs: seq<T>, ys: seq<T>) {
    |xs| <= |ys| && xs == ys[|ys| - |xs|..]
  }

  lemma {:induction false} PairAvailableShape(t: Tolerances, s: State)
    ensures var r := PairAvailable(t, s);
            Suffix(r.legacy, s.legacy) && Suffix(r.shadow, s.shadow)
    decreases |s.legacy|
  {
    hide PairHeads;
    if s.legacy != [] && s.shadow != [] {
      PairHeadsPops(t, s);
      PairAvailableShape(t, PairHeads(t, s));
    }
  }

  /** Every queued sample was received by `now`, in order. */
  ghost predicate Received<T>(queue: seq<Pending<T>>, now: real) {
    Ordered(queue) && forall i :: 0 <= i < |queue| ==> queue[i].receivedAt <= now
  }

  lemma SuffixReceived<T(!new)>(xs: seq<Pending<T>>, ys: seq<Pending<T>>, now: real)
    requires Suffix(xs, ys) && Received(ys, now)
    ensures Received(xs, now)
  {
    forall i | 0 <= i < |xs| ensures xs[i] == ys[|ys| - |xs| + i] {
    }
  }

  lemma AppendReceived<T>(queue: seq<Pending<T>>, before: real, value: T, now: real)
    requires Received(queue, before) && before <= now
    ensures Received(queue + [Pending(value, now)], now)
  {
  }

  lemma OnLegacyReceived(c: Config, s: State, value: VehicleCommandValue, now: real, before: real)
    requires Received(s.legacy, before) && Received(s.shadow, before) && before <= now
    ensures var r := OnLegacyStep(c, s, value, now);
            Received(r.legacy, now) && Received(r.shadow, now)
  {
    var room := RoomForLegacy(c, s).legacy;
    var full := RoomForLegacy(c, s).(legacy := room + [Pending(value, now)]);
    AppendReceived(room, before, value, now);
    PairAvailableShape(c.tolerances, full);
    SuffixReceived(PairAvailable(c.tolerances, full).legacy, full.legacy, now);
    SuffixReceived(PairAvailable(c.tolerances, full).shadow, full.shadow, now);
  }

  lemma OnShadowReceived(c: Config, s: State, value: Observed, now: real, before: real)
    requires Received(s.legacy, before) && Received(s.shadow, before) && before <= now
    ensures var r := OnShadowStep(c, s, value, now);
            Received(r.legacy, now) && Received(r.shadow, now)
  {
    var room := RoomForShadow(c, s).shadow;
    var full := RoomForShadow(c, s).(shadow := room + [Pending(value, now)]);
    AppendReceived(room, before, value, now);
    PairAvailableShape(c.tolerances, full);
    SuffixReceived(PairAvailable(c.tolerances, full).legacy, full.legacy, now);
    SuffixReceived(PairAvailable(c.tolerances, full).shadow, full.shadow, now);
  }

  lemma TickReceived(c: Config, s: State, now: real, before: real)
    requires Received(s.legacy, before) && Received(s.shadow, before) && before <= now
    ensures var r := TickStep(c, s, now);
            && Received(r.legacy, now) && Received(r.shadow, now)
            && Recent(c, r.legacy, now) && Recent(c, r.shadow, now)
  {
    ExpireLegacyShape(c, s, now);
    ExpireShadowShape(c, ExpireLegacy(c, s, now), now);
  }

  lemma StepReceived(c: Config, s: State, e: Event, before: real)
    requires Received(s.legacy, before) && Received(s.shadow, before) && before <= e.now
    ensures var r := Step(c, s, e);
            && Received(r.legacy, e.now) && Received(r.shadow, e.now)
            && (e.Tick? ==> Recent(c, r.legacy, e.now) && Recent(c, r.shadow, e.now))
  {
    hide OnLegacyStep, OnShadowStep, TickStep, Received, Recent;
    match e
    case Legacy(value, now) => OnLegacyReceived(c, s, value, now, before);
    case Shadow(value, now) => OnShadowReceived(c, s, value, now, before);
    case Tick(now) => TickReceived(c, s, now, before);
  }

  lemma {:induction false} QueuesReceived(c: Config, es: seq<Event>, n: nat)
    requires 0 < n <= |es| && forall i, j :: 0 <= i < j < |es| ==> es[i].now <= es[j].now
    ensures Received(StateAt(c, es, n).legacy, es[n - 1].now) && Received(StateAt(c, es, n).shadow, es[n - 1].now)
    ensures es[n - 1].Tick? ==>
              && Recent(c, StateAt(c, es, n).legacy, es[n - 1].now)
              && Recent(c, StateAt(c, es, n).shadow, es[n - 1].now)
  {
    if n == 1 {
      StepReceived(c, Initial(), es[0], es[0].now);
    } else {
      hide Step, Received;
      QueuesReceived(c, es, n - 1);
      StepReceived(c, StateAt(c, es, n - 1), es[n - 1], es[n - 2].now);
    }
  }

  /** After a tick, under a clock that never goes back, nothing pending is older than the pair
      timeout: looking at the heads alone was enough. */
  lemma NothingStaleAfterTick(c: Config, es: seq<Event>, n: nat)
    requires 0 < n <= |es| && es[n - 1].Tick? && forall i, j :: 0 <= i < j < |es| ==> es[i].now <= es[j].now
    ensures Recent(c, StateAt(c, es, n).legacy, es[n - 1].now) && Recent(c, StateAt(c, es, n).shadow, es[n - 1].now)
  {
    QueuesReceived(c, es, n);
  }
}
