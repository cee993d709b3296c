/** The two routes over whole runs: a legacy and a canonical controller that receive the same
    commands and tick at the same readings of the clock. */
module CommandRuns {
  import opened Numeric
  import opened ControlLogic
  import Legacy = LegacyVehicleCommand
  import Canonical = CanonicalConsumer
  import opened CommandChain

  datatype Event =
    | Commanded(msg: Legacy.CmdVelFinal, stampNs: int, rosNow: int, at: real)
    | Ticked(at: real)

  datatype Pair = Pair(legacy: Controller, canonical: Controller, consumer: Canonical.State)

  ghost predicate Runnable(wire: Legacy.Wire, adapter: Legacy.Config, config: Config, es: seq<Event>) {
    && EqualLimits(adapter, config) && wire.Rounds()
    && (forall i :: 0 <= i < |es| && es[i].Commanded? ==>
          es[i].msg.linear.Finite? && es[i].msg.angular.Finite? && es[i].msg.source in VALID_SOURCES)
  }

  function PairStep(trig: Trig, wire: Legacy.Wire, adapter: Legacy.Config, config: Config, p: Pair, e: Event): Pair
    requires config.simMaxSteering > 0.0
    requires e.Commanded? ==> e.msg.linear.Finite? && e.msg.angular.Finite?
  {
    match e
    case Commanded(msg, stampNs, rosNow, at) =>
      var sample := AdapterSample(trig, wire, adapter, msg, stampNs);
      var s := Canonical.IngestStep(config.Consumer(), p.consumer, sample, rosNow, at);
      Pair(p.legacy.(autoCmd := LegacyCommand(trig, config, msg), autoStamp := at),
           CanonicalCallback(config, p.canonical, s.effective, at), s)
    case Ticked(at) =>
      var s := Canonical.TickStep(p.consumer, at);
      Pair(LegacyTick(config, p.legacy, at), CanonicalTick(config, p.canonical, s.effective), s)
  }

  ghost function PairAt(trig: Trig, wire: Legacy.Wire, adapter: Legacy.Config, config: Config, es: seq<Event>,
                        n: nat): Pair
    requires Runnable(wire, adapter, config, es) && n <= |es|
  {
    if n == 0 then
      var start := Controller(SafeCommand(), 0.0, Init, RESET);
      Pair(start, start, Canonical.Initial())
    else
      PairStep(trig, wire, adapter, config, PairAt(trig, wire, adapter, config, es, n - 1), es[n - 1])
  }

  /** The clocks are in order and every command arrives fresh. */
  ghost predicate Punctual(adapter: Legacy.Config, config: Config, es: seq<Event>) {
    && (forall i, j :: 0 <= i < j < |es| ==> es[i].at <= es[j].at)
    && (forall i, j :: 0 <= i < j < |es| && es[i].Commanded? && es[j].Commanded? ==> es[i].stampNs < es[j].stampNs)
    && (forall i :: 0 <= i < |es| && es[i].Commanded? ==>
          FreshStamp(config, WireOf(adapter), es[i].stampNs, es[i].rosNow, None))
  }

  /** The index of the last command among the first `n` events, or -1. */
  function LastCommand(es: seq<Event>, n: nat): (k: int)
    requires n <= |es|
    ensures -1 <= k < n && (k >= 0 ==> es[k].Commanded?)
    ensures forall i :: k < i < n ==> es[i].Ticked?
  {
    if n == 0 then -1 else if es[n - 1].Commanded? then n - 1 else LastCommand(es, n - 1)
  }

  /** The consumer accepts the command, its clocks being in order. */
  predicate Accepted(trig: Trig, wire: Legacy.Wire, config: Config, msg: Legacy.CmdVelFinal)
    requires msg.linear.Finite? && msg.angular.Finite?
  {
    var cmd := LegacyCommand(trig, config, msg);
    cmd.estop || Survives(wire, config, cmd.speed, cmd.appliedSteer)
  }

  /** How the two sides correspond after `n` events. */
  ghost predicate Related(trig: Trig, wire: Legacy.Wire, adapter: Legacy.Config, config: Config, es: seq<Event>,
                          n: nat, p: Pair)
    requires Runnable(wire, adapter, config, es) && n <= |es|
  {
    var k, validity := LastCommand(es, n), Min(WireOf(adapter), config.autoTimeout);
    if k < 0 then
      p.legacy.autoCmd == SafeCommand() && p.consumer == Canonical.Initial()
    else
      && p.legacy.autoCmd == LegacyCommand(trig, config, es[k].msg) && p.legacy.autoStamp == es[k].at
      && (p.consumer.lastStamp.Some? ==> p.consumer.lastStamp.value <= es[k].stampNs)
      && if Accepted(trig, wire, config, es[k].msg) && es[n - 1].at - es[k].at <= validity then
           && p.consumer.receivedAt == Some(es[k].at) && p.consumer.validity == validity
           && BackendOf(config, p.consumer.effective)
           == CanonicalImage(wire, config, LegacyCommand(trig, config, es[k].msg))
         else p.consumer.receivedAt == None && !p.consumer.effective.driveEnabled
  }

  function BackendOf(config: Config, e: Canonical.Effective): CommandState
    requires config.simMaxSteering > 0.0
  {
    Apply(config.limits, Canonical.DesiredFromCanonical(e, config.simMaxSteering).value)
  }

  lemma CommandRelates(trig: Trig, wire: Legacy.Wire, adapter: Legacy.Config, config: Config, p: Pair, e: Event)
    requires EqualLimits(adapter, config) && wire.Rounds()
    requires e.Commanded? && e.msg.linear.Finite? && e.msg.angular.Finite? && e.msg.source in VALID_SOURCES
    requires FreshStamp(config, WireOf(adapter), e.stampNs, e.rosNow, p.consumer.lastStamp)
    ensures var r := PairStep(trig, wire, adapter, config, p, e);
            && r.legacy.autoCmd == LegacyCommand(trig, config, e.msg) && r.legacy.autoStamp == e.at
            && if Accepted(trig, wire, config, e.msg) then
                 && r.consumer.lastStamp == Some(e.stampNs) && r.consumer.receivedAt == Some(e.at)
                 && r.consumer.validity == Min(WireOf(adapter), config.autoTimeout)
                 && BackendOf(config, r.consumer.effective)
                 == CanonicalImage(wire, config, LegacyCommand(trig, config, e.msg))
               else
                 && r.consumer.lastStamp == p.consumer.lastStamp && r.consumer.receivedAt == None
                 && !r.consumer.effective.driveEnabled
  {
    IngestedImage(trig, wire, adapter, config, p.consumer, e.msg, e.stampNs, e.rosNow, e.at);
    hide AdapterSample, WireOf, Canonical.IngestStep, CanonicalCallback, LegacyCommand, CanonicalImage, Apply,
         Canonical.DesiredFromCanonical;
  }

  lemma TickRelates(trig: Trig, wire: Legacy.Wire, adapter: Legacy.Config, config: Config, p: Pair, at: real)
    requires config.simMaxSteering > 0.0
    ensures var r := PairStep(trig, wire, adapter, config, p, Ticked(at));
            && r.consumer == Canonical.TickStep(p.consumer, at)
            && r.legacy.autoCmd == p.legacy.autoCmd && r.legacy.autoStamp == p.legacy.autoStamp
            && r.legacy.backend == LegacyTick(config, p.legacy, at).backend
            && r.canonical.backend == BackendOf(config, r.consumer.effective)
  {
    hide Canonical.DesiredFromCanonical, Apply;
  }

  lemma {:induction false} PairRelated(trig: Trig, wire: Legacy.Wire, adapter: Legacy.Config, config: Config,
                                       es: seq<Event>, n: nat)
    requires Runnable(wire, adapter, config, es) && Punctual(adapter, config, es) && n <= |es|
    ensures Related(trig, wire, adapter, config, es, n, PairAt(trig, wire, adapter, config, es, n))
  {
    hide PairStep, LegacyCommand, Accepted, WireOf, BackendOf, CanonicalImage;
    if n > 0 {
      PairRelated(trig, wire, adapter, config, es, n - 1);
      var k, e, p := LastCommand(es, n - 1), es[n - 1], PairAt(trig, wire, adapter, config, es, n - 1);
      if e.Commanded? {
        assert k >= 0 ==> es[k].stampNs < e.stampNs;
        CommandRelates(trig, wire, adapter, config, p, e);
      } else {
        assert k >= 0 && n >= 2 ==> es[n - 2].at <= e.at;
        TickRelates(trig, wire, adapter, config, p, e.at);
      }
    }
  }

  lemma LegacyStands(config: Config, c: Controller, at: real, invertActuation: bool)
    requires c.autoCmd == SafeCommand() || at - c.autoStamp > Max(0.0, config.autoTimeout)
    ensures Twist(LegacyTick(config, c, at).backend, config.simMaxSteering, invertActuation) == (0.0, 0.0)
  {
  }

  lemma CanonicalStands(config: Config, e: Canonical.Effective, invertActuation: bool)
    requires config.simMaxSteering > 0.0 && !e.driveEnabled
    ensures Twist(BackendOf(config, e), config.simMaxSteering, invertActuation) == (0.0, 0.0)
  {
  }

  /** What Gazebo is told while the legacy controller holds `msg` fresh. */
  function LegacyTwist(trig: Trig, config: Config, msg: Legacy.CmdVelFinal, invertActuation: bool): (real, real)
    requires msg.linear.Finite? && msg.angular.Finite?
  {
    Twist(LegacyImage(config, LegacyCommand(trig, config, msg)), config.simMaxSteering, invertActuation)
  }

  /** What Gazebo is told while the canonical controller holds `msg` fresh. */
  function CanonicalTwist(trig: Trig, wire: Legacy.Wire, config: Config, msg: Legacy.CmdVelFinal,
                          invertActuation: bool): (real, real)
    requires msg.linear.Finite? && msg.angular.Finite? && config.simMaxSteering > 0.0
  {
    Twist(CanonicalImage(wire, config, LegacyCommand(trig, config, msg)), config.simMaxSteering, invertActuation)
  }

  /** In every punctual run, what each controller tells Gazebo after a control tick: the last command,
      for as long as that controller holds it fresh, and to stand still before and after. The legacy
      one holds it for its timeout, the canonical one for the shorter of that and the wire validity. */
  lemma TwistsAfterTick(trig: Trig, wire: Legacy.Wire, adapter: Legacy.Config, config: Config, es: seq<Event>,
                        n: nat, invertActuation: bool)
    requires Runnable(wire, adapter, config, es) && Punctual(adapter, config, es)
    requires 0 < n <= |es| && es[n - 1].Ticked?
    ensures var k, p := LastCommand(es, n), PairAt(trig, wire, adapter, config, es, n);
            var validity := Min(WireOf(adapter), config.autoTimeout);
            && Twist(p.legacy.backend, config.simMaxSteering, invertActuation)
            == (if k >= 0 && es[n - 1].at - es[k].at <= config.autoTimeout
                then LegacyTwist(trig, config, es[k].msg, invertActuation) else (0.0, 0.0))
            && Twist(p.canonical.backend, config.simMaxSteering, invertActuation)
            == (if k >= 0 && es[n - 1].at - es[k].at <= validity
                then CanonicalTwist(trig, wire, config, es[k].msg, invertActuation) else (0.0, 0.0))
  {
    PairRelated(trig, wire, adapter, config, es, n);
    PairRelated(trig, wire, adapter, config, es, n - 1);
    var k, at := LastCommand(es, n), es[n - 1].at;
    var before := PairAt(trig, wire, adapter, config, es, n - 1);
    var after := PairAt(trig, wire, adapter, config, es, n);
    hide PairStep, Twist, LegacyTick, LegacyCommand, CanonicalImage, LegacyImage, WireOf, BackendOf, Accepted;
    TickRelates(trig, wire, adapter, config, before, at);
    if k >= 0 && at - es[k].at <= config.autoTimeout {
      LegacyBackend(trig, config, before.legacy, es[k].msg, es[k].at, at);
    } else {
      LegacyStands(config, before.legacy, at, invertActuation);
    }
    var held := k >= 0 && at - es[k].at <= Min(WireOf(adapter), config.autoTimeout);
    if !held || !Accepted(trig, wire, config, es[k].msg) {
      CanonicalStands(config, after.consumer.effective, invertActuation);
      if k >= 0 {
        RefusedStands(trig, wire, config, es[k].msg, invertActuation);
      }
    }
  }

  lemma RefusedStands(trig: Trig, wire: Legacy.Wire, config: Config, msg: Legacy.CmdVelFinal, invertActuation: bool)
    requires msg.linear.Finite? && msg.angular.Finite? && config.simMaxSteering > 0.0
    ensures !Accepted(trig, wire, config, msg) ==>
              CanonicalTwist(trig, wire, config, msg, invertActuation) == (0.0, 0.0)
  {
    hide LegacyCommand;
  }

  /** The two controllers tell Gazebo the same after `n` events. */
  ghost predicate Alike(trig: Trig, wire: Legacy.Wire, adapter: Legacy.Config, config: Config, es: seq<Event>,
                        n: nat, invertActuation: bool)
    requires Runnable(wire, adapter, config, es) && n <= |es|
  {
    var p := PairAt(trig, wire, adapter, config, es, n);
    Twist(p.legacy.backend, config.simMaxSteering, invertActuation)
      == Twist(p.canonical.backend, config.simMaxSteering, invertActuation)
  }

  lemma LegacyTwistZero(trig: Trig, adapter: Legacy.Config, config: Config, msg: Legacy.CmdVelFinal,
                        invertActuation: bool)
    requires EqualLimits(adapter, config)
    requires msg.linear.Finite? && msg.angular.Finite? && msg.source in VALID_SOURCES
    ensures var cmd := LegacyCommand(trig, config, msg);
            LegacyTwist(trig, config, msg, invertActuation) == (0.0, 0.0)
            <==> cmd.estop || !cmd.driveEnabled || Idle(cmd)
  {
    CommandFacts(trig, adapter, config, msg);
    var cmd := LegacyCommand(trig, config, msg);
    hide LegacyCommand, Twist;
    var legacy := LegacyImage(config, cmd);
    if cmd.estop || !cmd.driveEnabled {
      Standing(legacy, config.simMaxSteering, invertActuation);
    } else {
      TwistSees(legacy, CommandState(true, false, 0.0, 0, 0), config.simMaxSteering, invertActuation);
      StillTwist(config.simMaxSteering, invertActuation);
    }
  }

  /** The exact condition, at any tick of any punctual run: the last command has expired for both or
      there is none, or both hold it fresh and it means the same on both routes, or the wire validity
      has ended before the timeout and it moves nothing. */
  lemma AlikeIff(trig: Trig, wire: Legacy.Wire, adapter: Legacy.Config, config: Config, es: seq<Event>,
                 n: nat, invertActuation: bool)
    requires Runnable(wire, adapter, config, es) && Punctual(adapter, config, es)
    requires 0 < n <= |es| && es[n - 1].Ticked?
    ensures Alike(trig, wire, adapter, config, es, n, invertActuation) <==>
              var k := LastCommand(es, n);
              k < 0 || es[n - 1].at - es[k].at > config.autoTimeout
              || (var cmd := LegacyCommand(trig, config, es[k].msg);
                  if es[n - 1].at - es[k].at <= WireOf(adapter) then SameForGazebo(wire, config, cmd)
                  else cmd.estop || !cmd.driveEnabled || Idle(cmd))
  {
    var k := LastCommand(es, n);
    TwistsAfterTick(trig, wire, adapter, config, es, n, invertActuation);
    hide PairAt, Twist, LegacyCommand, WireOf, CanonicalImage, LegacyImage, SameForGazebo, Punctual;
    if k >= 0 {
      ImagesAgree(trig, wire, adapter, config, es[k].msg, invertActuation);
      LegacyTwistZero(trig, adapter, config, es[k].msg, invertActuation);
      hide Idle;
    }
  }

  /** No command of the run is changed by the wire, or by the inversion only the legacy route has, in
      what it means to Gazebo. */
  ghost predicate Carried(trig: Trig, wire: Legacy.Wire, adapter: Legacy.Config, config: Config, es: seq<Event>)
    requires Runnable(wire, adapter, config, es)
  {
    forall i :: 0 <= i < |es| && es[i].Commanded? ==>
      SameForGazebo(wire, config, LegacyCommand(trig, config, es[i].msg))
  }

  /** Every punctual run of commands that the wire carries keeps the two controllers alike. */
  ghost predicate Lockstep(trig: Trig, wire: Legacy.Wire, adapter: Legacy.Config, config: Config) {
    forall es: seq<Event>, n: nat, invertActuation |
      && Runnable(wire, adapter, config, es) && Punctual(adapter, config, es)
      && Carried(trig, wire, adapter, config, es) && 0 < n <= |es| && es[n - 1].Ticked? ::
      Alike(trig, wire, adapter, config, es, n, invertActuation)
  }

  lemma ControllersInLockstep(trig: Trig, wire: Legacy.Wire, adapter: Legacy.Config, config: Config, es: seq<Event>,
                              n: nat, invertActuation: bool)
    requires Runnable(wire, adapter, config, es) && Punctual(adapter, config, es)
    requires Carried(trig, wire, adapter, config, es)
    requires WireOf(adapter) >= config.autoTimeout || WireOf(adapter) <= 0.0
    requires 0 < n <= |es| && es[n - 1].Ticked?
    ensures Alike(trig, wire, adapter, config, es, n, invertActuation)
  {
    hide Alike, WireOf, LegacyCommand, SameForGazebo;
    AlikeIff(trig, wire, adapter, config, es, n, invertActuation);
  }

  /** Some speed that float32 represents is obeyed to the letter. */
  ghost predicate CanMove(wire: Legacy.Wire, config: Config) {
    config.autoDriveEnabled && exists speed :: MovesAt(wire, config, speed)
  }

  predicate MovesAt(wire: Legacy.Wire, config: Config, speed: real) {
    speed != 0.0 && wire.narrow(speed) == speed && ClampSpeed(config.limits, speed).0 == speed
  }

  lemma MovingCommand(trig: Trig, wire: Legacy.Wire, adapter: Legacy.Config, config: Config)
    returns (msg: Legacy.CmdVelFinal)
    requires EqualLimits(adapter, config) && wire.Rounds() && trig.AtanOdd() && CanMove(wire, config)
    ensures msg.linear.Finite? && msg.angular.Finite? && msg.source in VALID_SOURCES
    ensures var cmd := LegacyCommand(trig, config, msg);
            SameForGazebo(wire, config, cmd) && cmd.driveEnabled && !cmd.estop && cmd.speed != 0.0
  {
    var speed :| MovesAt(wire, config, speed);
    msg := Legacy.CmdVelFinal(Finite(speed), Finite(0.0), 0, SOURCE_AUTO);
    Legacy.NarrowZero(wire);
    CommandFacts(trig, adapter, config, msg);
    var limits := config.limits.(deadband := Max(0.0, config.limits.deadband),
                                 minEffective := Clamp(config.limits.minEffective, 0.0,
                                                       Max(0.0, config.limits.maxSpeed)));
    StraightAhead(trig, limits, speed, SOURCE_AUTO);
    assert SteerPct(0.0, config.simMaxSteering) == 0;
    hide AckermannSteer, ClampSpeed, SteerPct;
  }

  lemma StraightAhead(trig: Trig, limits: Limits, speed: real, source: int)
    requires trig.AtanOdd() && speed != 0.0
    ensures var s := AckermannSteer(trig, limits, speed, 0.0, source);
            s.applied == 0.0 && s.pct == 0
  {
    var wheelbase := Max(EPSILON, Abs(limits.wheelbase));
    assert trig.atan(-0.0) == -trig.atan(0.0);
    QuotientUnique(0.0, speed, 0.0);
    assert SteerFor(trig, wheelbase, 0.0 / speed) == 0.0;
    var limit := Max(EPSILON, Abs(limits.steeringLimit));
    QuotientUnique(0.0, limit, 0.0);
    assert SteerPct(0.0, limit) == 0;
    hide SteerPct, SteerFor;
  }

  /** A run in which the wire validity ends between command and tick, and the timeout does not. */
  function CutShort(config: Config, msg: Legacy.CmdVelFinal): seq<Event> {
    [Commanded(msg, 1, 1, 0.0), Ticked(config.autoTimeout)]
  }

  lemma PartingRun(trig: Trig, wire: Legacy.Wire, adapter: Legacy.Config, config: Config) returns (es: seq<Event>)
    requires EqualLimits(adapter, config) && wire.Rounds() && trig.AtanOdd() && CanMove(wire, config)
    requires 0.0 < WireOf(adapter) < config.autoTimeout
    ensures Runnable(wire, adapter, config, es) && Punctual(adapter, config, es)
    ensures Carried(trig, wire, adapter, config, es) && |es| == 2 && es[1].Ticked?
    ensures !Alike(trig, wire, adapter, config, es, 2, false)
  {
    hide Alike, WireOf, FreshStamp, LegacyCommand, SameForGazebo, CanMove;
    var msg := MovingCommand(trig, wire, adapter, config);
    PromptStampFresh(config, WireOf(adapter));
    es := CutShort(config, msg);
    assert LastCommand(es, 1) == 0 == LastCommand(es, 2);
    AlikeIff(trig, wire, adapter, config, es, 2, false);
  }

  /** A vehicle that can move is driven alike by the two controllers in all punctual runs of commands
      that the wire carries exactly when the adapter's validity, as the wire carries it, is no shorter
      than the controller's timeout, or is lost on the wire altogether. */
  lemma LockstepIff(trig: Trig, wire: Legacy.Wire, adapter: Legacy.Config, config: Config)
    requires EqualLimits(adapter, config) && wire.Rounds() && trig.AtanOdd() && CanMove(wire, config)
    ensures Lockstep(trig, wire, adapter, config) <==> WireOf(adapter) >= config.autoTimeout || WireOf(adapter) <= 0.0
  {
    hide Alike, WireOf, Carried, CanMove, Punctual;
    if WireOf(adapter) >= config.autoTimeout || WireOf(adapter) <= 0.0 {
      forall es: seq<Event>, n: nat, invertActuation |
        && Runnable(wire, adapter, config, es) && Punctual(adapter, config, es)
        && Carried(trig, wire, adapter, config, es) && 0 < n <= |es| && es[n - 1].Ticked?
        ensures Alike(trig, wire, adapter, config, es, n, invertActuation)
      {
        ControllersInLockstep(trig, wire, adapter, config, es, n, invertActuation);
      }
    } else {
      var es := PartingRun(trig, wire, adapter, config);
    }
  }
}
