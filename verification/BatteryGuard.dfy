/** The mission guard of battery_estimator.py: a voltage hysteresis latch whose two edges need
    persistence. */
module BatteryGuard {
  import opened Numeric
  import BatteryCurve

  datatype Params = Params(returnVoltage: real, returnPersist: real, clearVoltage: real, clearPersist: real)
  {
    /** What the constructor makes of the configured values. */
    function Normalised(): Params {
      Params(returnVoltage, Max(0.0, returnPersist), Max(returnVoltage, clearVoltage), Max(0.0, clearPersist))
    }
    predicate Valid() {
      returnPersist >= 0.0 && clearPersist >= 0.0 && clearVoltage >= returnVoltage
    }
  }

  /** Normalising leaves the return voltage and every valid configuration alone, and lifts each other
      field just as far as it must. */
  lemma NormalisedMeans(p: Params)
    ensures p.Normalised().Valid() && p.Normalised().returnVoltage == p.returnVoltage
    ensures p.Normalised() == p <==> p.Valid()
    ensures p.Normalised().returnPersist == if p.returnPersist < 0.0 then 0.0 else p.returnPersist
    ensures p.Normalised().clearPersist == if p.clearPersist < 0.0 then 0.0 else p.clearPersist
    ensures p.Normalised().clearVoltage == if p.clearVoltage < p.returnVoltage then p.returnVoltage else p.clearVoltage
  {
  }

  /** A measured voltage is any float. Nothing compares with what is not a number. */
  datatype Voltage = Volts(value: real) | PlusInfinity | MinusInfinity | NotANumber {
    predicate AtMost(limit: real) {
      MinusInfinity? || (Volts? && value <= limit)
    }
    predicate AtLeast(limit: real) {
      PlusInfinity? || (Volts? && value >= limit)
    }
    /** Not above `other`; what is not a number is on a level with its like only. */
    predicate NoHigher(other: Voltage) {
      if NotANumber? || other.NotANumber? then this == other
      else MinusInfinity? || other.PlusInfinity? || (Volts? && other.Volts? && value <= other.value)
    }
  }

  datatype State = State(last: Option<real>, low: real, clear: real, latched: bool)

  function Initial(): State {
    State(None, 0.0, 0.0, false)
  }

  function BreakStep(s: State): State {
    State(None, 0.0, 0.0, s.latched)
  }

  function Elapsed(s: State, time: real): real {
    match s.last
    case None => 0.0
    case Some(last) => Max(0.0, time - last)
  }

  function UpdateStep(p: Params, s: State, voltage: Voltage, time: real, valid: bool): State {
    if !valid then BreakStep(s)
    else if !s.latched then
      var low := if voltage.AtMost(p.returnVoltage) then s.low + Elapsed(s, time) else 0.0;
      State(Some(time), low, 0.0, low >= p.returnPersist)
    else
      var clear := if voltage.AtLeast(p.clearVoltage) then s.clear + Elapsed(s, time) else 0.0;
      if clear >= p.clearPersist then State(Some(time), 0.0, 0.0, false)
      else State(Some(time), s.low, clear, true)
  }

  datatype Estimate = Estimate(
    voltage: Voltage, percentage: real, returnHome: bool, lowPersist: real, clearPersist: real)

  lemma EstimateMeans(curve: seq<BatteryCurve.Point>, voltage: Voltage)
    requires BatteryCurve.Accepted(curve)
    ensures voltage.Volts? ==>
              && 0.0 <= BatteryCurve.Soc(curve, voltage.value) <= 1.0
              && (forall v :: v <= voltage.value ==>
                    BatteryCurve.Soc(curve, v) <= BatteryCurve.Soc(curve, voltage.value))
              && (curve == BatteryCurve.DEFAULT_CURVE ==>
                    forall k :: 0 <= k < |curve| && curve[k].voltage == voltage.value ==>
                      BatteryCurve.Soc(curve, voltage.value) == curve[k].pct)
  {
    hide BatteryCurve.Soc;
    if voltage.Volts? {
      BatteryCurve.SocMonotone(curve, voltage.value, voltage.value);
      forall v | v <= voltage.value ensures BatteryCurve.Soc(curve, v) <= BatteryCurve.Soc(curve, voltage.value) {
        BatteryCurve.SocMonotone(curve, v, voltage.value);
      }
      if curve == BatteryCurve.DEFAULT_CURVE {
        forall k | 0 <= k < |curve| && curve[k].voltage == voltage.value
          ensures BatteryCurve.Soc(curve, voltage.value) == curve[k].pct
        {
          BatteryCurve.DefaultCurveExact(k);
        }
      }
    }
  }

  class BatteryEstimator {
    const params: Params
    const curve: seq<BatteryCurve.Point>
    var last: Option<real>
    var low: real
    var clear: real
    var latched: bool

    function Now(): State
      reads this
    {
      State(last, low, clear, latched)
    }

    constructor (params: Params, raw: seq<BatteryCurve.RawPoint>)
      requires raw == [] || (BatteryCurve.AllFinite(raw) && BatteryCurve.Accepted(BatteryCurve.Clamped(raw)))
      ensures this.params == params.Normalised() && this.params.Valid() && Now() == Initial()
      ensures curve == if raw == [] then BatteryCurve.DEFAULT_CURVE else BatteryCurve.Clamped(raw)
      ensures BatteryCurve.Accepted(curve)
    {
      BatteryCurve.DefaultCurveAccepted();
      this.params := params.Normalised();
      curve := if raw == [] then BatteryCurve.DEFAULT_CURVE else BatteryCurve.Clamped(raw);
      last, low, clear, latched := None, 0.0, 0.0, false;
    }

    method BreakContinuity()
      modifies this
      ensures Now() == BreakStep(old(Now()))
    {
      last, low, clear := None, 0.0, 0.0;
    }

    method Update(voltage: Voltage, time: real, valid: bool) returns (e: Estimate)
      requires BatteryCurve.Accepted(curve)
      modifies this
      ensures Now() == UpdateStep(params, old(Now()), voltage, time, valid)
      ensures e.voltage == voltage && e.returnHome == latched && e.lowPersist == low && e.clearPersist == clear
      ensures 0.0 <= e.percentage <= 1.0 && (!voltage.Volts? ==> e.percentage == 0.0)
      ensures voltage.Volts? ==> e.percentage == BatteryCurve.Soc(curve, voltage.value)
      ensures voltage.Volts? ==> forall v :: v <= voltage.value ==> BatteryCurve.Soc(curve, v) <= e.percentage
      ensures voltage.Volts? && curve == BatteryCurve.DEFAULT_CURVE ==>
                forall k :: 0 <= k < |curve| && curve[k].voltage == voltage.value ==> e.percentage == curve[k].pct
    {
      var dt := if last.None? then 0.0 else Max(0.0, time - last.value);
      if !valid {
        BreakContinuity();
      } else {
        if !latched {
          clear := 0.0;
          if voltage.AtMost(params.returnVoltage) {
            low := low + dt;
          } else {
            low := 0.0;
          }
          if low >= params.returnPersist {
            latched := true;
          }
        } else {
          if voltage.AtLeast(params.clearVoltage) {
            clear := clear + dt;
          } else {
            clear := 0.0;
          }
          if clear >= params.clearPersist {
            latched, low, clear := false, 0.0, 0.0;
          }
        }
        last := Some(time);
      }
      EstimateMeans(curve, voltage);
      var percentage := 0.0;
      if voltage.Volts? {
        percentage := BatteryCurve.Lookup(curve, voltage.value);
      }
      e := Estimate(voltage, percentage, latched, low, clear);
    }
  }

  // ---------------------------------------------------------------- runs

  datatype Event =
    | Sampled(voltage: Voltage, time: real, valid: bool)
    | Break

  function Step(p: Params, s: State, e: Event): State {
    match e
    case Sampled(voltage, time, valid) => UpdateStep(p, s, voltage, time, valid)
    case Break => BreakStep(s)
  }

  function StateAt(p: Params, es: seq<Event>, n: nat): State
    requires n <= |es|
  {
    if n == 0 then Initial() else Step(p, StateAt(p, es, n - 1), es[n - 1])
  }

  // ---------------------------------------------------------------- two runs

  /** The same times, validity flags and breaks, with voltages pointwise no higher in `lows`. */
  ghost predicate Paired(highs: seq<Event>, lows: seq<Event>) {
    && |highs| == |lows|
    && forall i :: 0 <= i < |highs| ==>
         if highs[i].Sampled? then
           && lows[i].Sampled? && lows[i].voltage.NoHigher(highs[i].voltage)
           && lows[i] == highs[i].(voltage := lows[i].voltage)
         else lows[i].Break?
  }

  /** How the two states stay related. */
  predicate Behind(high: State, low: State) {
    && high.last == low.last && 0.0 <= low.low && 0.0 <= high.clear
    && (high.latched ==> low.latched && low.clear <= high.clear)
    && (!low.latched ==> high.low <= low.low)
  }

  lemma {:induction false} RunsStayBehind(p: Params, highs: seq<Event>, lows: seq<Event>, n: nat)
    requires p.returnPersist > 0.0 && p.clearPersist > 0.0 && p.clearVoltage > p.returnVoltage
    requires Paired(highs, lows) && n <= |highs|
    ensures Behind(StateAt(p, highs, n), StateAt(p, lows, n))
  {
    if n > 0 {
      RunsStayBehind(p, highs, lows, n - 1);
    }
  }

  lemma {:induction false} TogglesAlike(p: Params, highs: seq<Event>, lows: seq<Event>, n: nat)
    requires p.returnPersist == 0.0 && p.clearPersist == 0.0 && Paired(highs, lows) && n <= |highs|
    ensures var h, l := StateAt(p, highs, n), StateAt(p, lows, n);
            && h.last == l.last && h.latched == l.latched
            && h.low >= 0.0 && l.low >= 0.0 && h.clear >= 0.0 && l.clear >= 0.0
  {
    if n > 0 {
      TogglesAlike(p, highs, lows, n - 1);
    }
  }

  /** Lower voltages never leave the vehicle less protected. */
  ghost predicate GuardMonotone(p: Params) {
    forall highs, lows :: Paired(highs, lows) && StateAt(p, highs, |highs|).latched ==> StateAt(p, lows, |lows|).latched
  }

  function Three(a: Event, b: Event, c: Event): seq<Event> {
    [a, b, c]
  }

  lemma RunThree(p: Params, a: Event, b: Event, c: Event)
    ensures StateAt(p, Three(a, b, c), 3) == Step(p, Step(p, Step(p, Initial(), a), b), c)
  {
    var es := Three(a, b, c);
    assert StateAt(p, es, 1) == Step(p, StateAt(p, es, 0), a);
    assert StateAt(p, es, 2) == Step(p, StateAt(p, es, 1), b);
  }

  /** Three samples on which a badly configured guard latches the higher run only. */
  lemma NotMonotone(p: Params) returns (highs: seq<Event>, lows: seq<Event>)
    requires p.Valid()
    requires !(p.returnPersist > 0.0 && p.clearPersist > 0.0 && p.clearVoltage > p.returnVoltage)
    requires !(p.returnPersist == 0.0 && p.clearPersist == 0.0)
    ensures Paired(highs, lows) && StateAt(p, highs, |highs|).latched && !StateAt(p, lows, |lows|).latched
  {
    var a, b, a', b', c;
    if p.returnPersist == 0.0 {
      var v := p.clearVoltage;
      a, b := Sampled(Volts(v), 0.0, true), Sampled(Volts(v), p.clearPersist, true);
      a', b' := a, Sampled(Volts(v - 1.0), p.clearPersist, true);
      c := Sampled(Volts(v), 2.0 * p.clearPersist, true);
    } else {
      var v := p.returnVoltage;
      a, b := Sampled(Volts(v + 1.0), 0.0, true), Sampled(Volts(v + 1.0), p.returnPersist, true);
      a', b' := Sampled(Volts(v), 0.0, true), Sampled(Volts(v), p.returnPersist, true);
      c := Sampled(Volts(v), p.returnPersist + Max(p.returnPersist, p.clearPersist), true);
    }
    highs, lows := Three(a, b, c), Three(a', b', c);
    RunThree(p, a, b, c);
    RunThree(p, a', b', c);
  }

  /** Two-run monotonicity holds for exactly these configurations: both persistences positive and
      a clear threshold strictly above the return one, or no persistence at all (when every valid
      sample toggles the latch, whatever its voltage). */
  lemma GuardMonotoneIff(p: Params)
    requires p.Valid()
    ensures GuardMonotone(p) <==>
              || (p.returnPersist > 0.0 && p.clearPersist > 0.0 && p.clearVoltage > p.returnVoltage)
              || (p.returnPersist == 0.0 && p.clearPersist == 0.0)
  {
    if p.returnPersist > 0.0 && p.clearPersist > 0.0 && p.clearVoltage > p.returnVoltage {
      forall highs, lows | Paired(highs, lows)
        ensures StateAt(p, highs, |highs|).latched ==> StateAt(p, lows, |lows|).latched
      {
        RunsStayBehind(p, highs, lows, |highs|);
      }
    } else if p.returnPersist == 0.0 && p.clearPersist == 0.0 {
      forall highs, lows | Paired(highs, lows)
        ensures StateAt(p, highs, |highs|).latched ==> StateAt(p, lows, |lows|).latched
      {
        TogglesAlike(p, highs, lows, |highs|);
      }
    } else {
      var highs, lows := NotMonotone(p);
    }
  }

  // ---------------------------------------------------------------- windows

  ghost predicate TimesNondecreasing(es: seq<Event>) {
    forall i, j :: 0 <= i < j < |es| && es[i].Sampled? && es[j].Sampled? ==> es[i].time <= es[j].time
  }

  predicate IsSample(e: Event) {
    e.Sampled? && e.valid
  }

  /** The first valid sample of a run or after a break has nothing before it to count from. */
  predicate StartsStretch(es: seq<Event>, i: nat)
    requires i < |es|
  {
    IsSample(es[i]) && (i == 0 || !IsSample(es[i - 1]))
  }

  predicate Latches(p: Params, es: seq<Event>, i: nat)
    requires i < |es|
  {
    !StateAt(p, es, i).latched && StateAt(p, es, i + 1).latched
  }

  predicate Unlatches(p: Params, es: seq<Event>, i: nat)
    requires i < |es|
  {
    StateAt(p, es, i).latched && !StateAt(p, es, i + 1).latched
  }

  /** Events after which the low time counts from zero. */
  predicate RestartsLow(p: Params, es: seq<Event>, i: nat)
    requires i < |es|
  {
    IsSample(es[i]) && (StartsStretch(es, i) || !es[i].voltage.AtMost(p.returnVoltage) || Unlatches(p, es, i))
  }

  /** Events after which the clear time counts from zero. */
  predicate RestartsClear(p: Params, es: seq<Event>, i: nat)
    requires i < |es|
  {
    IsSample(es[i]) && (StartsStretch(es, i) || !es[i].voltage.AtLeast(p.clearVoltage) || Latches(p, es, i))
  }

  lemma {:induction false} LastTime(p: Params, es: seq<Event>, n: nat)
    requires n <= |es|
    ensures StateAt(p, es, n).last == if n > 0 && IsSample(es[n - 1]) then Some(es[n - 1].time) else None
    ensures n == 0 || !IsSample(es[n - 1]) ==> StateAt(p, es, n).low == 0.0 && StateAt(p, es, n).clear == 0.0
  {
  }

  /** While unlatched, the low time is exactly the age of the last event that restarted it, and
      since then every event was a valid sample at or below the return voltage. */
  lemma {:induction false} LowWindow(p: Params, es: seq<Event>, n: nat) returns (a: nat)
    requires p.Valid() && TimesNondecreasing(es) && 0 < n <= |es|
    requires IsSample(es[n - 1]) && !StateAt(p, es, n).latched
    ensures a < n && RestartsLow(p, es, a) && StateAt(p, es, n).low == es[n - 1].time - es[a].time
    ensures forall i :: a < i < n ==>
              && IsSample(es[i]) && es[i].voltage.AtMost(p.returnVoltage)
              && !StateAt(p, es, i).latched && !RestartsLow(p, es, i)
  {
    LastTime(p, es, n - 1);
    if RestartsLow(p, es, n - 1) {
      a := n - 1;
    } else {
      assert es[n - 2].time <= es[n - 1].time;
      a := LowWindow(p, es, n - 1);
    }
  }

  /** While latched, the clear time is exactly the age of the last event that restarted it, and
      since then every event was a valid sample at or above the clear voltage. */
  lemma {:induction false} ClearWindow(p: Params, es: seq<Event>, n: nat) returns (a: nat)
    requires p.Valid() && TimesNondecreasing(es) && 0 < n <= |es|
    requires IsSample(es[n - 1]) && StateAt(p, es, n).latched
    ensures a < n && RestartsClear(p, es, a) && StateAt(p, es, n).clear == es[n - 1].time - es[a].time
    ensures forall i :: a < i < n ==>
              && IsSample(es[i]) && es[i].voltage.AtLeast(p.clearVoltage)
              && StateAt(p, es, i).latched && !RestartsClear(p, es, i)
  {
    LastTime(p, es, n - 1);
    if RestartsClear(p, es, n - 1) {
      a := n - 1;
    } else {
      assert es[n - 2].time <= es[n - 1].time;
      a := ClearWindow(p, es, n - 1);
    }
  }

  /** Every unlatch ends a stretch of valid samples at or above the clear voltage, at least the clear
      persistence long and all after any earlier latch. */
  lemma UnlatchEarned(p: Params, es: seq<Event>, j: nat) returns (a: nat)
    requires p.Valid() && TimesNondecreasing(es) && j < |es| && Unlatches(p, es, j)
    ensures a <= j && IsSample(es[a]) && IsSample(es[j]) && es[j].time - es[a].time >= p.clearPersist
    ensures forall k :: a < k <= j ==> IsSample(es[k]) && es[k].voltage.AtLeast(p.clearVoltage)
    ensures forall i :: 0 <= i < j && Latches(p, es, i) ==>
              i <= a && IsSample(es[i]) && es[j].time - es[i].time >= p.clearPersist
  {
    LastTime(p, es, j);
    if p.clearPersist == 0.0 {
      a := j;
    } else {
      assert IsSample(es[j - 1]) && es[j - 1].time <= es[j].time;
      a := ClearWindow(p, es, j);
    }
    forall i | 0 <= i < j && Latches(p, es, i)
      ensures i <= a && IsSample(es[i]) && es[j].time - es[i].time >= p.clearPersist
    {
      assert RestartsClear(p, es, i);
      assert es[i].time <= es[j].time && (i < a ==> es[i].time <= es[a].time);
    }
  }

  /** Every latch, the first one included, ends a stretch of valid samples at or below the return
      voltage, at least the return persistence long and all after any earlier unlatch. */
  lemma LatchEarned(p: Params, es: seq<Event>, j: nat) returns (a: nat)
    requires p.Valid() && TimesNondecreasing(es) && j < |es| && Latches(p, es, j)
    ensures a <= j && IsSample(es[a]) && IsSample(es[j]) && es[j].time - es[a].time >= p.returnPersist
    ensures forall k :: a < k <= j ==> IsSample(es[k]) && es[k].voltage.AtMost(p.returnVoltage)
    ensures forall i :: 0 <= i < j && Unlatches(p, es, i) ==>
              i <= a && IsSample(es[i]) && es[j].time - es[i].time >= p.returnPersist
  {
    LastTime(p, es, j);
    if p.returnPersist == 0.0 {
      a := j;
    } else {
      assert IsSample(es[j - 1]) && es[j - 1].time <= es[j].time;
      a := LowWindow(p, es, j);
    }
    forall i | 0 <= i < j && Unlatches(p, es, i)
      ensures i <= a && IsSample(es[i]) && es[j].time - es[i].time >= p.returnPersist
    {
      assert RestartsLow(p, es, i);
      assert es[i].time <= es[j].time && (i < a ==> es[i].time <= es[a].time);
    }
  }

  /** While the latch holds without a break, the low time that earned it stays on record. */
  lemma {:induction false} EvidenceKept(p: Params, es: seq<Event>, i: nat, n: nat)
    requires i < n <= |es| && Latches(p, es, i)
    requires forall j :: i < j < n ==> IsSample(es[j]) && !Unlatches(p, es, j)
    ensures StateAt(p, es, n).latched && StateAt(p, es, n).low == StateAt(p, es, i + 1).low >= p.returnPersist
  {
    if i + 1 < n {
      EvidenceKept(p, es, i, n - 1);
    }
  }

  /** From `a` to `j` nothing but valid samples at or below the return voltage. */
  ghost predicate LowStretch(p: Params, es: seq<Event>, a: nat, j: nat)
    requires a <= j < |es|
  {
    forall i :: a <= i <= j ==> IsSample(es[i]) && es[i].voltage.AtMost(p.returnVoltage)
  }

  lemma {:induction false} LowStretchCounts(p: Params, es: seq<Event>, a: nat, j: nat)
    requires p.Valid() && p.clearPersist > 0.0 && p.clearVoltage > p.returnVoltage
    requires TimesNondecreasing(es) && a <= j < |es| && LowStretch(p, es, a, j)
    ensures var s := StateAt(p, es, j + 1);
            s.last == Some(es[j].time) && (s.latched || es[j].time - es[a].time <= s.low < p.returnPersist)
  {
    if a < j {
      LowStretchCounts(p, es, a, j - 1);
      assert es[j - 1].time <= es[j].time;
    } else {
      LowNonneg(p, es, j);
    }
  }

  lemma {:induction false} LowNonneg(p: Params, es: seq<Event>, n: nat)
    requires n <= |es|
    ensures StateAt(p, es, n).low >= 0.0
  {
    if n > 0 {
      LowNonneg(p, es, n - 1);
    }
  }

  /** A battery that stays low for the return persistence always ends up guarded. */
  ghost predicate GuardProtects(p: Params) {
    forall es: seq<Event>, a: nat, j: nat ::
      TimesNondecreasing(es) && a <= j < |es| && LowStretch(p, es, a, j) && es[j].time - es[a].time >= p.returnPersist
      ==> StateAt(p, es, j + 1).latched
  }

  lemma NotProtected(p: Params) returns (es: seq<Event>, j: nat)
    requires p.Valid() && (p.clearPersist == 0.0 || p.clearVoltage == p.returnVoltage)
    ensures TimesNondecreasing(es) && j < |es| && LowStretch(p, es, 0, j)
    ensures es[j].time - es[0].time >= p.returnPersist && !StateAt(p, es, j + 1).latched
  {
    var v := p.returnVoltage;
    var a, b := Sampled(Volts(v), 0.0, true), Sampled(Volts(v), p.returnPersist, true);
    var c := Sampled(Volts(v), p.returnPersist + p.clearPersist, true);
    es, j := Three(a, b, c), if p.returnPersist == 0.0 && p.clearPersist == 0.0 then 1 else 2;
    RunThree(p, a, b, c);
    assert StateAt(p, es, 1) == Step(p, Initial(), a);
    assert StateAt(p, es, 2) == Step(p, StateAt(p, es, 1), b);
  }

  /** The guard protects exactly when latching is not undone by the same low samples: the clear
      persistence is positive and the clear voltage above the return voltage. */
  lemma GuardProtectsIff(p: Params)
    requires p.Valid()
    ensures GuardProtects(p) <==> p.clearPersist > 0.0 && p.clearVoltage > p.returnVoltage
  {
    if p.clearPersist > 0.0 && p.clearVoltage > p.returnVoltage {
      forall es: seq<Event>, a: nat, j: nat |
        TimesNondecreasing(es) && a <= j < |es| && LowStretch(p, es, a, j) && es[j].time - es[a].time >= p.returnPersist
        ensures StateAt(p, es, j + 1).latched
      {
        LowStretchCounts(p, es, a, j);
      }
    } else {
      var es, j := NotProtected(p);
      assert LowStretch(p, es, 0, j);
    }
  }

  // ---------------------------------------------------------------- re-feeding

  predicate Refed(p: Params, s: State, voltage: Voltage, time: real, valid: bool) {
    var once := UpdateStep(p, s, voltage, time, valid);
    UpdateStep(p, once, voltage, time, valid) == once
  }

  /** In every reachable state, feeding a sample again leaves the whole state as it was. */
  ghost predicate RefeedHarmless(p: Params) {
    forall es, voltage, time, valid :: Refed(p, StateAt(p, es, |es|), voltage, time, valid)
  }

  lemma RefeedToggles(p: Params) returns (es: seq<Event>, voltage: Voltage, time: real)
    requires p.Valid() && (p.returnPersist == 0.0 || p.clearPersist == 0.0)
    ensures !Refed(p, StateAt(p, es, |es|), voltage, time, true)
  {
    voltage := Volts(if p.returnPersist == 0.0 then p.clearVoltage else p.returnVoltage);
    if p.returnPersist == 0.0 && p.clearPersist == 0.0 {
      es, time := [], 0.0;
    } else {
      es, time := [Sampled(voltage, 0.0, true)], p.returnPersist + p.clearPersist;
      assert StateAt(p, es, 1) == Step(p, StateAt(p, es, 0), es[0]);
    }
  }

  /** The telemetry timer feeds the last sample again and again; that is harmless exactly when
      both persistences are positive. */
  lemma RefeedHarmlessIff(p: Params)
    requires p.Valid()
    ensures RefeedHarmless(p) <==> p.returnPersist > 0.0 && p.clearPersist > 0.0
  {
    if p.returnPersist == 0.0 || p.clearPersist == 0.0 {
      var es, voltage, time := RefeedToggles(p);
    }
  }
}
