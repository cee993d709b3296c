/** The canonical command consumer of canonical_command_consumer.py: stamp validation, a
    monotonic watchdog, and the translation to the backend's command. */
module CanonicalConsumer {
  import opened Numeric
  import opened ControlLogic

  datatype Config = Config(
    maxForward: real, maxReverse: real, maxSteering: real, maxValidFor: real, maxFutureSkew: real)
  {
    /** The checks whose failure raises `ValueError` at construction. */
    predicate Valid() {
      && maxForward >= 0.0 && maxReverse >= 0.0 && maxFutureSkew >= 0.0
      && maxSteering > 0.0 && maxValidFor > 0.0
    }
  }

  datatype Sample = Sample(
    stampNs: int, source: int, driveEnabled: bool, emergencyStop: bool, brakeRatio: Float,
    speed: Float, steeringAngle: Float, steeringVelocity: Float, acceleration: Float, jerk: Float,
    validFor: Float)
  {
    predicate AllFinite() {
      && brakeRatio.Finite? && speed.Finite? && steeringAngle.Finite? && steeringVelocity.Finite?
      && acceleration.Finite? && jerk.Finite? && validFor.Finite?
    }
  }

  datatype Reason =
    | NoCommand | NonfiniteCommand | InvalidSource | InvalidStamp | NonmonotonicStamp | FutureStamp
    | InvalidValidity | StaleOnArrival | InvalidBrakeRatio | SpeedOutOfRange | SteeringOutOfRange
    | EmergencyStop | DriveDisabled | ServiceBrake | Accepted | WatchdogTimeout

  datatype Effective = Effective(
    source: int, driveEnabled: bool, emergencyStop: bool, brakeRatio: real, speed: real,
    steeringAngle: real, valid: bool, reason: Reason)

  function Safe(reason: Reason): Effective {
    Effective(SOURCE_SAFETY, false, true, 1.0, 0.0, 0.0, false, reason)
  }

  /** The backend command for an effective command; `None` is the `ValueError` for a limit
      that is not positive. */
  function DesiredFromCanonical(e: Effective, steeringLimit: real): Option<DesiredCommand> {
    var limit := Abs(steeringLimit);
    if limit <= 0.0 then None
    else
      var steerPct := SteerPct(e.steeringAngle, limit);
      var brakePct := ClampInt(Round(e.brakeRatio * 100.0), 0, 100);
      Some(Bare(e.driveEnabled, e.emergencyStop, e.speed, steerPct, brakePct).(
           requestedLinear := e.speed, requestedSteer := e.steeringAngle, appliedSteer := e.steeringAngle,
           steeringLimitUsed := limit, commandSource := e.source))
  }

  datatype State = State(lastStamp: Option<int>, receivedAt: Option<real>, effective: Effective, validity: real)

  function Initial(): State {
    State(None, None, Safe(NoCommand), 0.0)
  }

  function InvalidReason(config: Config, sample: Sample, rosNow: int, lastStamp: Option<int>): Option<Reason> {
    if !sample.AllFinite() then Some(NonfiniteCommand)
    else if sample.source !in VALID_SOURCES then Some(InvalidSource)
    else if sample.stampNs <= 0 then Some(InvalidStamp)
    else if lastStamp.Some? && sample.stampNs <= lastStamp.value then Some(NonmonotonicStamp)
    else if sample.stampNs - rosNow > Round(config.maxFutureSkew * NANOS as real) then Some(FutureStamp)
    else if sample.validFor.value <= 0.0 then Some(InvalidValidity)
    else if rosNow - sample.stampNs > Round(Min(sample.validFor.value, config.maxValidFor) * NANOS as real)
    then Some(StaleOnArrival)
    else if !(0.0 <= sample.brakeRatio.value <= 1.0) then Some(InvalidBrakeRatio)
    else if !(-config.maxReverse <= sample.speed.value <= config.maxForward) then Some(SpeedOutOfRange)
    else if Abs(sample.steeringAngle.value) > config.maxSteering then Some(SteeringOutOfRange)
    else None
  }

  function Accept(sample: Sample): Effective
    requires sample.AllFinite()
  {
    var inhibited := sample.emergencyStop || !sample.driveEnabled;
    var braking := sample.brakeRatio.value > 0.0;
    Effective(sample.source, sample.driveEnabled && !sample.emergencyStop, sample.emergencyStop,
              if sample.emergencyStop then 1.0 else sample.brakeRatio.value,
              if inhibited || braking then 0.0 else sample.speed.value,
              if inhibited then 0.0 else sample.steeringAngle.value,
              true,
              if sample.emergencyStop then EmergencyStop else if !sample.driveEnabled then DriveDisabled
              else if braking then ServiceBrake else Accepted)
  }

  function IngestStep(config: Config, s: State, sample: Sample, rosNow: int, monoNow: real): State {
    match InvalidReason(config, sample, rosNow, s.lastStamp)
    case Some(reason) => s.(receivedAt := None, effective := Safe(reason))
    case None => State(Some(sample.stampNs), Some(monoNow), Accept(sample),
                       Min(sample.validFor.value, config.maxValidFor))
  }

  function TickStep(s: State, monoNow: real): State {
    if s.receivedAt.Some? && monoNow - s.receivedAt.value > s.validity
    then s.(receivedAt := None, effective := Safe(WatchdogTimeout))
    else s
  }

  class CanonicalCommandConsumer {
    const config: Config
    var lastStamp: Option<int>
    var receivedAt: Option<real>
    var effective: Effective
    var validity: real

    function Now(): State
      reads this
    {
      State(lastStamp, receivedAt, effective, validity)
    }

    constructor (config: Config)
      requires config.Valid()
      ensures this.config == config && Now() == Initial()
    {
      this.config := config;
      lastStamp, receivedAt, effective, validity := None, None, Safe(NoCommand), 0.0;
    }

    method Ingest(sample: Sample, rosNow: int, monoNow: real) returns (e: Effective)
      modifies this
      ensures Now() == IngestStep(config, old(Now()), sample, rosNow, monoNow) && e == effective
    {
      var reason := InvalidReason(config, sample, rosNow, lastStamp);
      if reason.Some? {
        receivedAt := None;
        effective := Safe(reason.value);
        return effective;
      }
      lastStamp := Some(sample.stampNs);
      receivedAt := Some(monoNow);
      validity := Min(sample.validFor.value, config.maxValidFor);
      effective := Accept(sample);
      return effective;
    }

    method Tick(monoNow: real) returns (e: Effective)
      modifies this
      ensures Now() == TickStep(old(Now()), monoNow) && e == effective
    {
      if receivedAt.None? {
        return effective;
      }
      if monoNow - receivedAt.value > validity {
        receivedAt := None;
        effective := Safe(WatchdogTimeout);
      }
      return effective;
    }
  }

  // ---------------------------------------------------------------- runs

  datatype Event =
    | Ingested(sample: Sample, rosNow: int, monoNow: real)
    | Ticked(monoNow: real)

  function Step(config: Config, s: State, e: Event): State {
    match e
    case Ingested(sample, rosNow, monoNow) => IngestStep(config, s, sample, rosNow, monoNow)
    case Ticked(monoNow) => TickStep(s, monoNow)
  }

  /** The state after the first `n` events. */
  function StateAt(config: Config, es: seq<Event>, n: nat): State
    requires n <= |es|
  {
    if n == 0 then Initial() else Step(config, StateAt(config, es, n - 1), es[n - 1])
  }

  /** The monotonic clock never goes back. */
  ghost predicate ClockNondecreasing(es: seq<Event>) {
    forall i, j :: 0 <= i < j < |es| ==> es[i].monoNow <= es[j].monoNow
  }

  // The history function looks at no state, only at three facts about the past: the greatest
  // accepted stamp, the last ingest, and the time of the latest tick.

  function AcceptedMax(config: Config, es: seq<Event>, n: nat): Option<int>
    requires n <= |es|
    decreases n, 1
  {
    if n == 0 then None
    else
      var before := AcceptedMax(config, es, n - 1);
      if !IsAccepted(config, es, n - 1) then before
      else
        var stamp := es[n - 1].sample.stampNs;
        Some(if before.Some? && before.value > stamp then before.value else stamp)
  }

  predicate IsAccepted(config: Config, es: seq<Event>, i: nat)
    requires i < |es|
    decreases i, 2
  {
    es[i].Ingested? && InvalidReason(config, es[i].sample, es[i].rosNow, AcceptedMax(config, es, i)).None?
  }

  /** The index of the last ingest among the first `n` events, or -1. */
  function LastIngest(es: seq<Event>, n: nat): (k: int)
    requires n <= |es|
    ensures -1 <= k < n && (k >= 0 ==> es[k].Ingested?)
    ensures forall i :: k < i < n ==> es[i].Ticked?
  {
    if n == 0 then -1 else if es[n - 1].Ingested? then n - 1 else LastIngest(es, n - 1)
  }

  function Validity(config: Config, sample: Sample): real
    requires sample.AllFinite()
  {
    Min(sample.validFor.value, config.maxValidFor)
  }

  /** A tick after the last ingest, itself accepted, came too late for it. */
  predicate Expired(config: Config, es: seq<Event>, n: nat, k: nat)
    requires k < n <= |es| && IsAccepted(config, es, k)
  {
    k + 1 < n && es[n - 1].monoNow - es[k].monoNow > Validity(config, es[k].sample)
  }

  function EffectiveFromHistory(config: Config, es: seq<Event>, n: nat): Effective
    requires n <= |es|
  {
    var k := LastIngest(es, n);
    if k < 0 then Safe(NoCommand)
    else if !IsAccepted(config, es, k) then
      Safe(InvalidReason(config, es[k].sample, es[k].rosNow, AcceptedMax(config, es, k)).value)
    else if Expired(config, es, n, k) then Safe(WatchdogTimeout)
    else Accept(es[k].sample)
  }

  function ReceivedFromHistory(config: Config, es: seq<Event>, n: nat): Option<real>
    requires n <= |es|
  {
    var k := LastIngest(es, n);
    if k < 0 || !IsAccepted(config, es, k) || Expired(config, es, n, k) then None else Some(es[k].monoNow)
  }

  /** The machine computes exactly the history function. */
  lemma {:induction false} MachineRefinesHistory(config: Config, es: seq<Event>, n: nat)
    requires ClockNondecreasing(es) && n <= |es|
    ensures StateAt(config, es, n).effective == EffectiveFromHistory(config, es, n)
    ensures StateAt(config, es, n).lastStamp == AcceptedMax(config, es, n)
    ensures StateAt(config, es, n).receivedAt == ReceivedFromHistory(config, es, n)
    ensures StateAt(config, es, n).receivedAt.Some? ==>
              StateAt(config, es, n).validity == Validity(config, es[LastIngest(es, n)].sample)
  {
    if n > 0 {
      MachineRefinesHistory(config, es, n - 1);
      var k := LastIngest(es, n - 1);
      if es[n - 1].Ticked? && k >= 0 && IsAccepted(config, es, k) && Expired(config, es, n - 1, k) {
        assert es[n - 2].monoNow <= es[n - 1].monoNow;
      }
    }
  }

  lemma {:induction false} AcceptedBoundsMax(config: Config, es: seq<Event>, i: nat, n: nat)
    requires i < n <= |es| && IsAccepted(config, es, i)
    ensures AcceptedMax(config, es, n).Some? && es[i].sample.stampNs <= AcceptedMax(config, es, n).value
  {
    if i < n - 1 {
      AcceptedBoundsMax(config, es, i, n - 1);
    }
  }

  /** Accepted stamps strictly increase, however many rejections and ticks lie between. */
  lemma AcceptedStampsIncrease(config: Config, es: seq<Event>, i: nat, j: nat)
    requires i < j < |es| && IsAccepted(config, es, i) && IsAccepted(config, es, j)
    ensures es[i].sample.stampNs < es[j].sample.stampNs
  {
    AcceptedBoundsMax(config, es, i, j);
  }

  lemma {:induction false} PrefixDecides(config: Config, xs: seq<Event>, ys: seq<Event>, n: nat)
    requires n <= |xs| && n <= |ys| && xs[..n] == ys[..n]
    ensures StateAt(config, xs, n) == StateAt(config, ys, n)
  {
    if n > 0 {
      assert xs[n - 1] == xs[..n][n - 1] == ys[..n][n - 1] == ys[n - 1];
      assert xs[..n - 1] == xs[..n][..n - 1] == ys[..n][..n - 1] == ys[..n - 1];
      PrefixDecides(config, xs, ys, n - 1);
    }
  }

  /** A tick followed by any later event leaves no trace in the whole state. */
  lemma {:induction false} EarlierTickIrrelevant(config: Config, before: seq<Event>, tick: Event, after: seq<Event>,
                                                 m: nat)
    requires tick.Ticked? && 0 < m <= |after| && tick.monoNow <= after[0].monoNow
    ensures StateAt(config, before + [tick] + after, |before| + 1 + m)
         == StateAt(config, before + after, |before| + m)
  {
    var long, short := before + [tick] + after, before + after;
    if m == 1 {
      PrefixDecides(config, long, short, |before|);
      assert long[|before|] == tick && long[|before| + 1] == after[0] == short[|before|];
    } else {
      EarlierTickIrrelevant(config, before, tick, after, m - 1);
      assert long[|before| + m] == after[m - 1] == short[|before| + m - 1];
    }
  }

  /** In every reachable state, clock or no clock, the effective command is in range, a source of the
      contract owns it, an E-stop brakes fully, and only an enabled and unbraked command moves. It is
      valid exactly while the watchdog runs. */
  lemma {:induction false} AlwaysInRange(config: Config, es: seq<Event>, n: nat)
    requires config.Valid() && n <= |es|
    ensures var s := StateAt(config, es, n);
            var e := s.effective;
            && e.source in VALID_SOURCES && (e.valid <==> s.receivedAt.Some?)
            && 0.0 <= e.brakeRatio <= 1.0 && (e.emergencyStop ==> e.brakeRatio == 1.0 && !e.driveEnabled)
            && -config.maxReverse <= e.speed <= config.maxForward && Abs(e.steeringAngle) <= config.maxSteering
            && (e.speed != 0.0 ==> e.driveEnabled && e.brakeRatio == 0.0)
            && (!e.driveEnabled ==> e.steeringAngle == 0.0)
  {
    if n > 0 {
      AlwaysInRange(config, es, n - 1);
    }
  }

  /** What may move the vehicle after a tick: an accepted sample, still the last one ingested,
      enabled, unbraked, in range, and received at most `maxValidFor` ago. */
  lemma MotionIsAuthorised(config: Config, es: seq<Event>)
    requires config.Valid() && ClockNondecreasing(es)
    requires es != [] && es[|es| - 1].Ticked?
    requires StateAt(config, es, |es|).effective.speed != 0.0
    ensures var e := StateAt(config, es, |es|).effective;
            var k := LastIngest(es, |es|);
            && k >= 0 && IsAccepted(config, es, k)
            && e.speed == es[k].sample.speed.value && e.steeringAngle == es[k].sample.steeringAngle.value
            && e.valid && e.driveEnabled && !e.emergencyStop && e.brakeRatio == 0.0
            && -config.maxReverse <= e.speed <= config.maxForward && Abs(e.steeringAngle) <= config.maxSteering
            && 0.0 <= es[|es| - 1].monoNow - es[k].monoNow <= config.maxValidFor
  {
    MachineRefinesHistory(config, es, |es|);
  }

  /** While the last ingest, an accepted one, has not expired, the effective command is the sample's,
      except that an E-stop brakes fully, that a command which is not driving steers straight, and that
      only one which is driving unbraked moves. */
  lemma UnexpiredIsKept(config: Config, es: seq<Event>, n: nat)
    requires ClockNondecreasing(es) && n <= |es|
    requires var k := LastIngest(es, n);
             && k >= 0 && IsAccepted(config, es, k)
             && (|| es[n - 1].monoNow - es[k].monoNow <= Min(es[k].sample.validFor.value, config.maxValidFor)
                 || n == k + 1)
    ensures var e, sample := StateAt(config, es, n).effective, es[LastIngest(es, n)].sample;
            var driving := sample.driveEnabled && !sample.emergencyStop;
            && e.valid && e.source == sample.source && e.emergencyStop == sample.emergencyStop
            && e.driveEnabled == driving
            && (if sample.emergencyStop then e.brakeRatio == 1.0 else Finite(e.brakeRatio) == sample.brakeRatio)
            && (if driving then Finite(e.steeringAngle) == sample.steeringAngle else e.steeringAngle == 0.0)
            && (if driving && sample.brakeRatio == Finite(0.0) then Finite(e.speed) == sample.speed else e.speed == 0.0)
            && (e.reason == EmergencyStop <==> sample.emergencyStop)
            && (e.reason == Accepted <==> driving && sample.brakeRatio == Finite(0.0))
            && (e.reason == DriveDisabled <==> !sample.driveEnabled && !sample.emergencyStop)
            && (e.reason == ServiceBrake <==> driving && sample.brakeRatio != Finite(0.0))
  {
    MachineRefinesHistory(config, es, n);
    hide StateAt, ClockNondecreasing;
  }

  /** At any other time it is a full stop. */
  lemma {:induction false} InvalidIsStopped(config: Config, es: seq<Event>, n: nat)
    requires n <= |es|
    ensures var e := StateAt(config, es, n).effective;
            !e.valid ==>
              && e.emergencyStop && !e.driveEnabled && e.brakeRatio == 1.0 && e.speed == 0.0
              && e.steeringAngle == 0.0 && e.source == SOURCE_SAFETY
  {
    if n > 0 {
      hide InvalidReason;
      InvalidIsStopped(config, es, n - 1);
    }
  }

  /** The backend gets speed and switches as they are, the brake as the nearest percent, and the
      percentage of the limit nearest to the steer. */
  lemma BackendNearest(e: Effective, steeringLimit: real)
    requires steeringLimit > 0.0 && 0.0 <= e.brakeRatio <= 1.0 && Abs(e.steeringAngle) <= steeringLimit
    ensures DesiredFromCanonical(e, steeringLimit).Some?
    ensures var d := DesiredFromCanonical(e, steeringLimit).value;
            && d.driveEnabled == e.driveEnabled && d.estop == e.emergencyStop && d.speed == e.speed
            && d.commandSource == e.source && Near(d.brakePct as real, e.brakeRatio * 100.0, 0.5)
            && Near(AngleOf(d.steerPct, steeringLimit), e.steeringAngle, steeringLimit / 200.0)
            && d.requestedLinear == e.speed && d.requestedSteer == d.appliedSteer == e.steeringAngle
            && d.steeringLimitUsed == steeringLimit
            && !d.steerSaturated && !d.usedSpeedFallback && !d.speedLimited && !d.minSpeedEnforced
            && d.requestedAngular == d.referenceSpeed == d.requestedCurvature == d.appliedCurvature == 0.0
  {
    var x := e.brakeRatio * 100.0;
    RoundNearest(x);
    RoundMonotone(0.0, x);
    RoundMonotone(x, 100.0);
    RoundExact(0);
    RoundExact(100);
    SteerPctNearest(e.steeringAngle, steeringLimit, steeringLimit);
    SameScale(e.steeringAngle, steeringLimit);
    hide SteerPct, AngleOf, Rescaled, Round;
  }

  lemma SameScale(steer: real, limit: real)
    requires limit > 0.0
    ensures Rescaled(steer, limit, limit) == steer
  {
    QuotientTimes(steer, limit);
  }

  /** An accepted sample that has not expired reaches the backend with its brake to the nearest percent,
      its steer to half a percent of the limit, and its speed. */
  lemma SampleReachesBackend(config: Config, es: seq<Event>, n: nat)
    requires config.Valid() && n <= |es|
    ensures DesiredFromCanonical(StateAt(config, es, n).effective, config.maxSteering).Some?
    ensures var e := StateAt(config, es, n).effective;
            var d := DesiredFromCanonical(e, config.maxSteering).value;
            && d.driveEnabled == e.driveEnabled && d.estop == e.emergencyStop && d.speed == e.speed
            && Near(d.brakePct as real, e.brakeRatio * 100.0, 0.5)
            && Near(AngleOf(d.steerPct, config.maxSteering), e.steeringAngle, config.maxSteering / 200.0)
  {
    AlwaysInRange(config, es, n);
    hide *;
    BackendNearest(StateAt(config, es, n).effective, config.maxSteering);
  }

  /** The refusals, in the order they are looked for. */
  const REFUSALS := [NonfiniteCommand, InvalidSource, InvalidStamp, NonmonotonicStamp, FutureStamp, InvalidValidity,
                     StaleOnArrival, InvalidBrakeRatio, SpeedOutOfRange, SteeringOutOfRange]

  /** What each of them objects to. */
  predicate Objects(reason: Reason, config: Config, sample: Sample, rosNow: int, lastStamp: Option<int>) {
    match reason
    case NonfiniteCommand => !sample.AllFinite()
    case InvalidSource => sample.source !in VALID_SOURCES
    case InvalidStamp => sample.stampNs <= 0
    case NonmonotonicStamp => lastStamp.Some? && sample.stampNs <= lastStamp.value
    case FutureStamp => sample.stampNs > rosNow + Round(config.maxFutureSkew * NANOS as real)
    case InvalidValidity => sample.validFor.Finite? && sample.validFor.value <= 0.0
    case StaleOnArrival =>
      sample.validFor.Finite?
      && rosNow > sample.stampNs + Round(Min(sample.validFor.value, config.maxValidFor) * NANOS as real)
    case InvalidBrakeRatio => sample.brakeRatio.Finite? && !(0.0 <= sample.brakeRatio.value <= 1.0)
    case SpeedOutOfRange =>
      sample.speed.Finite? && !(-config.maxReverse <= sample.speed.value <= config.maxForward)
    case SteeringOutOfRange => sample.steeringAngle.Finite? && Abs(sample.steeringAngle.value) > config.maxSteering
    case _ => false
  }

  /** A sample is refused for the first thing there is to object to, and accepted if there is nothing. */
  lemma RefusedForTheFirst(config: Config, sample: Sample, rosNow: int, lastStamp: Option<int>, k: nat)
    requires k <= |REFUSALS| && forall i :: 0 <= i < k ==> !Objects(REFUSALS[i], config, sample, rosNow, lastStamp)
    requires k < |REFUSALS| ==> Objects(REFUSALS[k], config, sample, rosNow, lastStamp)
    ensures InvalidReason(config, sample, rosNow, lastStamp) == if k < |REFUSALS| then Some(REFUSALS[k]) else None
  {
    hide Round;
    assert REFUSALS[0] == NonfiniteCommand && REFUSALS[1] == InvalidSource && REFUSALS[2] == InvalidStamp;
    assert REFUSALS[3] == NonmonotonicStamp && REFUSALS[4] == FutureStamp && REFUSALS[5] == InvalidValidity;
    assert REFUSALS[6] == StaleOnArrival && REFUSALS[7] == InvalidBrakeRatio && REFUSALS[8] == SpeedOutOfRange;
    assert REFUSALS[9] == SteeringOutOfRange;
  }
}
