/** The antenna-to-base diagnostic of heading_gps_lever_diagnostic.py: a stream join of GPS
    positions with the interpolated local yaw. */
module LeverDiagnostic {
  import opened Numeric

  const HISTORY_MAX := 600
  const PENDING_MAX := 100
  const MAX_GAP := 0.2
  const LEVER_X := 0.66
  const LEVER_Y := 0.20

  /** The library functions used; `wrap` is atan2(sin x, cos x). */
  datatype Trig = Trig(cos: real -> real, sin: real -> real, wrap: real -> real)

  datatype Local = Local(stamp: real, yaw: real)

  datatype Gps = Gps(stamp: real, x: real, y: real, baseFrame: bool)

  /** The two messages published for one GPS position. */
  datatype Output = Output(reference: Gps, base: Gps)

  function Compensate(trig: Trig, x: real, y: real, yaw: real): (real, real) {
    (x - trig.cos(yaw) * LEVER_X + trig.sin(yaw) * LEVER_Y,
     y - trig.sin(yaw) * LEVER_X - trig.cos(yaw) * LEVER_Y)
  }

  ghost predicate StrictlyOrdered(history: seq<Local>) {
    forall i, j :: 0 <= i < j < |history| ==> history[i].stamp < history[j].stamp
  }

  /** `bisect_left` on the stamps. */
  function BisectLeft(history: seq<Local>, t: real): (i: nat)
    ensures i <= |history| && (forall j :: 0 <= j < i ==> history[j].stamp < t)
    ensures i < |history| ==> t <= history[i].stamp
  {
    BisectFrom(history, t, 0)
  }

  function BisectFrom(history: seq<Local>, t: real, k: nat): (i: nat)
    requires k <= |history| && forall j :: 0 <= j < k ==> history[j].stamp < t
    ensures k <= i <= |history| && (forall j :: 0 <= j < i ==> history[j].stamp < t)
    ensures i < |history| ==> t <= history[i].stamp
    decreases |history| - k
  {
    if k == |history| || t <= history[k].stamp then k else BisectFrom(history, t, k + 1)
  }

  function Yaw(trig: Trig, a: Local, b: Local, t: real): real
    requires a.stamp < b.stamp
  {
    a.yaw + trig.wrap(b.yaw - a.yaw) * (t - a.stamp) / (b.stamp - a.stamp)
  }

  /** What one popped GPS message publishes, if anything. */
  function Measure(trig: Trig, history: seq<Local>, msg: Gps): Option<Output>
    requires history != [] && msg.stamp <= history[|history| - 1].stamp
  {
    var i := BisectLeft(history, msg.stamp);
    if i == 0 || i >= |history| || history[i].stamp - history[i - 1].stamp > MAX_GAP then None
    else
      var yaw := Yaw(trig, history[i - 1], history[i], msg.stamp);
      var (x, y) := Compensate(trig, msg.x, msg.y, yaw);
      Some(Output(msg, msg.(x := x, y := y)))
  }

  datatype State = State(history: seq<Local>, pending: seq<Gps>, published: seq<Output>)

  function Emit(o: Option<Output>): seq<Output> {
    match o
    case None => []
    case Some(output) => [output]
  }

  /** The state after the message at the head has been measured. */
  function Popped(trig: Trig, s: State): State
    requires s.history != [] && s.pending != [] && s.pending[0].stamp <= s.history[|s.history| - 1].stamp
  {
    s.(pending := s.pending[1..], published := s.published + Emit(Measure(trig, s.history, s.pending[0])))
  }

  function Flush(trig: Trig, s: State): State
    decreases |s.pending|
  {
    if |s.history| < 2 || s.pending == [] || s.pending[0].stamp > s.history[|s.history| - 1].stamp then s
    else Flush(trig, Popped(trig, s))
  }

  /** Appending to a deque of bounded length drops its oldest element when full. */
  function Bounded<T>(queue: seq<T>, x: T, max: nat): seq<T>
    requires max > 0
  {
    if |queue| >= max then queue[|queue| - max + 1..] + [x] else queue + [x]
  }

  function OnLocalStep(trig: Trig, s: State, local: Local): State {
    if s.history != [] && local.stamp <= s.history[|s.history| - 1].stamp then s
    else Flush(trig, s.(history := Bounded(s.history, local, HISTORY_MAX)))
  }

  /** A message already in the base frame raises `ValueError` and changes nothing. */
  function OnGpsStep(trig: Trig, s: State, msg: Gps): State {
    if msg.baseFrame then s
    else Flush(trig, s.(pending := Bounded(s.pending, msg, PENDING_MAX)))
  }

  class Diagnostic {
    var history: seq<Local>
    var pending: seq<Gps>
    var published: seq<Output>

    function Now(): State
      reads this
    {
      State(history, pending, published)
    }

    constructor ()
      ensures Now() == State([], [], [])
    {
      history, pending, published := [], [], [];
    }

    method OnLocal(trig: Trig, local: Local)
      modifies this
      ensures Now() == OnLocalStep(trig, old(Now()), local)
    {
      if |history| > 0 && local.stamp <= history[|history| - 1].stamp {
        return;
      }
      history := Bounded(history, local, HISTORY_MAX);
      FlushPending(trig);
    }

    method OnGps(trig: Trig, msg: Gps) returns (refused: bool)
      modifies this
      ensures Now() == OnGpsStep(trig, old(Now()), msg) && refused == msg.baseFrame
    {
      if msg.baseFrame {
        return true;
      }
      pending := Bounded(pending, msg, PENDING_MAX);
      FlushPending(trig);
      return false;
    }

    method FlushPending(trig: Trig)
      modifies this
      ensures Now() == Flush(trig, old(Now()))
    {
      if |history| < 2 {
        return;
      }
      while |pending| > 0
        invariant history == old(history) && Flush(trig, Now()) == Flush(trig, old(Now()))
        decreases |pending|
      {
        var msg := pending[0];
        if msg.stamp > history[|history| - 1].stamp {
          break;
        }
        pending := pending[1..];
        published := published + Emit(Measure(trig, history, msg));
      }
    }
  }

  // ---------------------------------------------------------------- one batch pass

  /** The longest prefix of the messages no newer than the last local stamp. */
  ghost predicate IsReadyCount(history: seq<Local>, gps: seq<Gps>, k: nat) {
    && k <= |gps|
    && if |history| < 2 then k == 0
       else
         && (forall j :: 0 <= j < k ==> gps[j].stamp <= history[|history| - 1].stamp)
         && (k < |gps| ==> gps[k].stamp > history[|history| - 1].stamp)
  }

  function PublishAll(trig: Trig, history: seq<Local>, gps: seq<Gps>): seq<Output>
    requires history != [] || gps == []
    requires forall j :: 0 <= j < |gps| ==> gps[j].stamp <= history[|history| - 1].stamp
  {
    if gps == [] then []
    else PublishAll(trig, history, gps[..|gps| - 1]) + Emit(Measure(trig, history, gps[|gps| - 1]))
  }

  /** What the bounded history keeps of the local samples so far. */
  function Kept(locals: seq<Local>): seq<Local> {
    if |locals| > HISTORY_MAX then locals[|locals| - HISTORY_MAX..] else locals
  }

  /** The state after one pass over complete streams. */
  ghost predicate IsBatch(trig: Trig, s: State, locals: seq<Local>, gps: seq<Gps>, k: nat) {
    && IsReadyCount(locals, gps, k)
    && s.history == Kept(locals) && s.pending == gps[k..]
    && s.published == PublishAll(trig, locals, gps[..k])
  }

  // ---------------------------------------------------------------- interleavings

  datatype Event =
    | LocalArrived(local: Local)
    | GpsArrived(msg: Gps)

  function Step(trig: Trig, s: State, e: Event): State {
    match e
    case LocalArrived(local) => OnLocalStep(trig, s, local)
    case GpsArrived(msg) => OnGpsStep(trig, s, msg)
  }

  function StateAt(trig: Trig, es: seq<Event>, n: nat): State
    requires n <= |es|
  {
    if n == 0 then State([], [], []) else Step(trig, StateAt(trig, es, n - 1), es[n - 1])
  }

  /** The local stream without the samples that do not advance it. */
  function Locals(es: seq<Event>, n: nat): seq<Local>
    requires n <= |es|
  {
    if n == 0 then []
    else AcceptLocal(Locals(es, n - 1), es[n - 1])
  }

  function AcceptLocal(history: seq<Local>, e: Event): seq<Local> {
    if e.LocalArrived? && (history == [] || history[|history| - 1].stamp < e.local.stamp) then history + [e.local]
    else history
  }

  function AcceptGps(gps: seq<Gps>, e: Event): seq<Gps> {
    if e.GpsArrived? && !e.msg.baseFrame then gps + [e.msg] else gps
  }

  /** The GPS stream without the refused messages. */
  function GpsStream(es: seq<Event>, n: nat): seq<Gps>
    requires n <= |es|
  {
    if n == 0 then []
    else AcceptGps(GpsStream(es, n - 1), es[n - 1])
  }

  /** No position is pushed out of the pending queue. */
  ghost predicate PendingFits(trig: Trig, es: seq<Event>, n: nat)
    requires n <= |es|
  {
    forall m :: 0 <= m < n && es[m].GpsArrived? && !es[m].msg.baseFrame ==>
      |StateAt(trig, es, m).pending| < PENDING_MAX
  }

  /** Nothing has been pushed out of the history, or the message is newer than all that was. */
  predicate Covered(locals: seq<Local>, msg: Gps) {
    |locals| <= HISTORY_MAX || Kept(locals)[0].stamp < msg.stamp
  }

  /** Whatever a flush pops is covered. */
  predicate PopsCovered(locals: seq<Local>, pending: seq<Gps>) {
    |locals| >= 2 && pending != [] && pending[0].stamp <= locals[|locals| - 1].stamp ==>
      Covered(locals, pending[0]) && PopsCovered(locals, pending[1..])
  }

  /** Every position, when it is popped, is still covered by the bounded history. */
  ghost predicate InTime(trig: Trig, es: seq<Event>, n: nat)
    requires n <= |es|
  {
    forall m :: 0 <= m < n ==> PopsCovered(Locals(es, m + 1), AcceptGps(StateAt(trig, es, m).pending, es[m]))
  }

  lemma {:induction false} LocalsOrdered(es: seq<Event>, n: nat)
    requires n <= |es|
    ensures StrictlyOrdered(Locals(es, n))
  {
    if n > 0 {
      LocalsOrdered(es, n - 1);
    }
  }

  lemma BisectUnique(history: seq<Local>, t: real, i: nat)
    requires StrictlyOrdered(history) && i <= |history|
    requires (forall j :: 0 <= j < i ==> history[j].stamp < t) && (i < |history| ==> t <= history[i].stamp)
    ensures BisectLeft(history, t) == i
  {
  }

  /** Later local samples do not change what an already covered message publishes. */
  lemma MeasureStable(trig: Trig, history: seq<Local>, next: Local, msg: Gps)
    requires history != [] && StrictlyOrdered(history + [next]) && msg.stamp <= history[|history| - 1].stamp
    ensures (history + [next])[|history|].stamp >= msg.stamp
    ensures Measure(trig, history + [next], msg) == Measure(trig, history, msg)
  {
    var i := BisectLeft(history, msg.stamp);
    assert StrictlyOrdered(history) by {
      assert forall j :: 0 <= j < |history| ==> (history + [next])[j] == history[j];
    }
    BisectUnique(history + [next], msg.stamp, i);
    assert (history + [next])[|history| - 1].stamp < (history + [next])[|history|].stamp;
  }

  lemma {:induction false} PublishAllStable(trig: Trig, history: seq<Local>, next: Local, gps: seq<Gps>)
    requires history != [] && StrictlyOrdered(history + [next])
    requires forall j :: 0 <= j < |gps| ==> gps[j].stamp <= history[|history| - 1].stamp
    ensures forall j :: 0 <= j < |gps| ==> gps[j].stamp <= next.stamp
    ensures PublishAll(trig, history + [next], gps) == PublishAll(trig, history, gps)
  {
    hide Measure;
    assert (history + [next])[|history| - 1].stamp < (history + [next])[|history|].stamp;
    if gps != [] {
      var n := |gps| - 1;
      PublishAllStable(trig, history, next, gps[..n]);
      MeasureStable(trig, history, next, gps[n]);
    }
  }

  lemma KeptEnds(locals: seq<Local>)
    requires StrictlyOrdered(locals)
    ensures StrictlyOrdered(Kept(locals)) && (|Kept(locals)| < 2 <==> |locals| < 2)
    ensures locals != [] ==> Kept(locals) != [] && Kept(locals)[|Kept(locals)| - 1] == locals[|locals| - 1]
  {
  }

  lemma KeptAppend(locals: seq<Local>, local: Local)
    ensures Bounded(Kept(locals), local, HISTORY_MAX) == Kept(locals + [local])
  {
  }

  /** What the bound costs: a covered message is measured as if nothing had been pushed out, and any
      other is lost. */
  lemma BoundedMeasure(trig: Trig, locals: seq<Local>, msg: Gps)
    requires locals != [] && StrictlyOrdered(locals) && msg.stamp <= locals[|locals| - 1].stamp
    ensures Kept(locals) != [] && msg.stamp <= Kept(locals)[|Kept(locals)| - 1].stamp
    ensures Measure(trig, Kept(locals), msg) == if Covered(locals, msg) then Measure(trig, locals, msg) else None
  {
    hide Yaw, Compensate;
    KeptEnds(locals);
    if |locals| > HISTORY_MAX {
      var history, d := Kept(locals), |locals| - HISTORY_MAX;
      if Covered(locals, msg) {
        var i := BisectLeft(locals, msg.stamp);
        assert i > d;
        BisectUnique(history, msg.stamp, i - d);
      } else {
        BisectUnique(history, msg.stamp, 0);
      }
    }
  }

  lemma PopKeepsBatch(trig: Trig, s: State, locals: seq<Local>, gps: seq<Gps>, k: nat)
    requires StrictlyOrdered(locals) && locals != [] && s.history == Kept(locals)
    requires k < |gps| && s.pending == gps[k..] && Covered(locals, gps[k])
    requires forall j :: 0 <= j <= k ==> gps[j].stamp <= locals[|locals| - 1].stamp
    requires s.published == PublishAll(trig, locals, gps[..k])
    ensures s.history != [] && s.pending[0].stamp <= s.history[|s.history| - 1].stamp
    ensures var r := Popped(trig, s);
            && r.history == Kept(locals) && r.pending == gps[k + 1..]
            && r.published == PublishAll(trig, locals, gps[..k + 1])
  {
    hide Measure, Kept, Covered;
    KeptEnds(locals);
    BoundedMeasure(trig, locals, gps[k]);
    assert gps[..k + 1][..k] == gps[..k];
  }

  /** Flushing from anywhere inside the ready prefix ends at its end. */
  lemma {:induction false} FlushCompletes(trig: Trig, s: State, locals: seq<Local>, gps: seq<Gps>, k: nat)
    returns (m: nat)
    requires StrictlyOrdered(locals) && |locals| >= 2 && s.history == Kept(locals)
    requires k <= |gps| && s.pending == gps[k..] && PopsCovered(locals, s.pending)
    requires forall j :: 0 <= j < k ==> gps[j].stamp <= locals[|locals| - 1].stamp
    requires s.published == PublishAll(trig, locals, gps[..k])
    ensures IsBatch(trig, Flush(trig, s), locals, gps, m)
    decreases |gps| - k
  {
    hide Measure, Covered, Kept, Popped, PublishAll;
    KeptEnds(locals);
    m := k;
    if k < |gps| && gps[k].stamp <= locals[|locals| - 1].stamp {
      PopKeepsBatch(trig, s, locals, gps, k);
      m := FlushCompletes(trig, Popped(trig, s), locals, gps, k + 1);
    }
  }

  lemma LocalKeepsBatch(trig: Trig, s: State, local: Local, locals: seq<Local>, gps: seq<Gps>, k: nat)
    returns (m: nat)
    requires IsBatch(trig, s, locals, gps, k) && StrictlyOrdered(locals + [local])
    requires PopsCovered(locals + [local], s.pending)
    ensures IsBatch(trig, OnLocalStep(trig, s, local), locals + [local], gps, m)
  {
    hide Kept, PopsCovered;
    var grown := locals + [local];
    assert StrictlyOrdered(locals) by {
      assert forall j :: 0 <= j < |locals| ==> grown[j] == locals[j];
    }
    KeptEnds(locals);
    KeptEnds(grown);
    KeptAppend(locals, local);
    if locals == [] {
      m := 0;
    } else {
      assert grown[|locals| - 1].stamp < grown[|locals|].stamp;
      if |locals| >= 2 {
        PublishAllStable(trig, locals, local, gps[..k]);
      }
      m := FlushCompletes(trig, s.(history := Kept(grown)), grown, gps, k);
    }
  }

  lemma GpsKeepsBatch(trig: Trig, s: State, msg: Gps, locals: seq<Local>, gps: seq<Gps>, k: nat) returns (m: nat)
    requires IsBatch(trig, s, locals, gps, k) && StrictlyOrdered(locals) && |s.pending| < PENDING_MAX
    requires !msg.baseFrame && PopsCovered(locals, s.pending + [msg])
    ensures IsBatch(trig, OnGpsStep(trig, s, msg), locals, gps + [msg], m)
  {
    hide Kept, PopsCovered;
    KeptEnds(locals);
    assert (gps + [msg])[k..] == gps[k..] + [msg] && (gps + [msg])[..k] == gps[..k];
    if |locals| < 2 {
      m := 0;
    } else {
      m := FlushCompletes(trig, s.(pending := s.pending + [msg]), locals, gps + [msg], k);
    }
  }

  lemma StaleLocalIgnored(trig: Trig, s: State, local: Local, locals: seq<Local>)
    requires s.history == Kept(locals) && StrictlyOrdered(locals)
    requires locals != [] && local.stamp <= locals[|locals| - 1].stamp
    ensures OnLocalStep(trig, s, local) == s
  {
    hide Kept;
    KeptEnds(locals);
  }

  lemma StepKeepsBatch(trig: Trig, s: State, e: Event, locals: seq<Local>, gps: seq<Gps>, k: nat) returns (m: nat)
    requires IsBatch(trig, s, locals, gps, k) && StrictlyOrdered(locals) && StrictlyOrdered(AcceptLocal(locals, e))
    requires e.GpsArrived? && !e.msg.baseFrame ==> |s.pending| < PENDING_MAX
    requires PopsCovered(AcceptLocal(locals, e), AcceptGps(s.pending, e))
    ensures IsBatch(trig, Step(trig, s, e), AcceptLocal(locals, e), AcceptGps(gps, e), m)
  {
    hide StrictlyOrdered, PopsCovered, Flush, PublishAll, Kept, Bounded;
    m := k;
    match e
    case LocalArrived(local) =>
      if locals == [] || locals[|locals| - 1].stamp < local.stamp {
        m := LocalKeepsBatch(trig, s, local, locals, gps, k);
      } else {
        StaleLocalIgnored(trig, s, local, locals);
      }
    case GpsArrived(msg) =>
      if !msg.baseFrame {
        m := GpsKeepsBatch(trig, s, msg, locals, gps, k);
      }
  }

  /** If no position is pushed out and each is popped while the history still covers it, every
      interleaving publishes exactly what one batch pass over the two complete streams would, and
      leaves exactly the rest pending, however much of the local stream the history has dropped. */
  lemma {:induction false} JoinIsBatch(trig: Trig, es: seq<Event>, n: nat) returns (k: nat)
    requires n <= |es| && PendingFits(trig, es, n) && InTime(trig, es, n)
    ensures IsBatch(trig, StateAt(trig, es, n), Locals(es, n), GpsStream(es, n), k)
  {
    if n == 0 {
      k := 0;
    } else {
      hide Step, PublishAll, PopsCovered;
      k := JoinIsBatch(trig, es, n - 1);
      LocalsOrdered(es, n - 1);
      LocalsOrdered(es, n);
      hide IsBatch, StrictlyOrdered;
      assert es[n - 1].GpsArrived? && !es[n - 1].msg.baseFrame ==> |StateAt(trig, es, n - 1).pending| < PENDING_MAX;
      assert PopsCovered(Locals(es, n - 1 + 1), AcceptGps(StateAt(trig, es, n - 1).pending, es[n - 1]));
      k := StepKeepsBatch(trig, StateAt(trig, es, n - 1), es[n - 1], Locals(es, n - 1), GpsStream(es, n - 1), k);
    }
  }

  lemma {:induction false} LocalsGrow(es: seq<Event>, m: nat, n: nat)
    requires m <= n <= |es|
    ensures |Locals(es, m)| <= |Locals(es, n)|
  {
    if m < n {
      LocalsGrow(es, m, n - 1);
    }
  }

  lemma {:induction false} ShortCovers(locals: seq<Local>, pending: seq<Gps>)
    requires |locals| <= HISTORY_MAX
    ensures PopsCovered(locals, pending)
  {
    if pending != [] {
      ShortCovers(locals, pending[1..]);
    }
  }

  /** A run whose local samples fit the history is in time. */
  lemma FittingIsInTime(trig: Trig, es: seq<Event>, n: nat)
    requires n <= |es| && |Locals(es, n)| <= HISTORY_MAX
    ensures InTime(trig, es, n)
  {
    hide PopsCovered, StateAt, Locals, AcceptGps;
    forall m | 0 <= m < n
      ensures PopsCovered(Locals(es, m + 1), AcceptGps(StateAt(trig, es, m).pending, es[m]))
    {
      LocalsGrow(es, m + 1, n);
      ShortCovers(Locals(es, m + 1), AcceptGps(StateAt(trig, es, m).pending, es[m]));
    }
  }

  lemma ReadyCountUnique(history: seq<Local>, gps: seq<Gps>, j: nat, k: nat)
    requires IsReadyCount(history, gps, j) && IsReadyCount(history, gps, k)
    ensures j == k
  {
  }

  /** Two interleavings of the same streams end in the same state. */
  lemma ScheduleIndependent(trig: Trig, xs: seq<Event>, ys: seq<Event>)
    requires PendingFits(trig, xs, |xs|) && InTime(trig, xs, |xs|)
    requires PendingFits(trig, ys, |ys|) && InTime(trig, ys, |ys|)
    requires Locals(xs, |xs|) == Locals(ys, |ys|) && GpsStream(xs, |xs|) == GpsStream(ys, |ys|)
    ensures StateAt(trig, xs, |xs|) == StateAt(trig, ys, |ys|)
  {
    hide StateAt, Locals, GpsStream, InTime, PendingFits;
    var j := JoinIsBatch(trig, xs, |xs|);
    var k := JoinIsBatch(trig, ys, |ys|);
    ReadyCountUnique(Locals(xs, |xs|), GpsStream(xs, |xs|), j, k);
  }

  // ---------------------------------------------------------------- what is waiting

  /** Nothing that waits could have been measured by now. */
  ghost predicate Unmeasurable(s: State) {
    |s.history| < 2 || s.pending == [] || s.pending[0].stamp > s.history[|s.history| - 1].stamp
  }

  /** The history is what a deque of its length keeps of the local stream, and what waits is a tail of the
      positions, no longer than its deque. */
  ghost predicate Newest(s: State, locals: seq<Local>, gps: seq<Gps>) {
    && s.history == Kept(locals) && |s.pending| <= PENDING_MAX
    && |s.pending| <= |gps| && s.pending == gps[|gps| - |s.pending|..]
  }

  lemma {:induction false} FlushKeepsNewest(trig: Trig, s: State, locals: seq<Local>, gps: seq<Gps>)
    requires Newest(s, locals, gps)
    ensures Newest(Flush(trig, s), locals, gps) && Unmeasurable(Flush(trig, s))
    decreases |s.pending|
  {
    hide Kept;
    if !Unmeasurable(s) {
      FlushKeepsNewest(trig, Popped(trig, s), locals, gps);
    }
  }

  lemma StepKeepsNewest(trig: Trig, s: State, e: Event, locals: seq<Local>, gps: seq<Gps>)
    requires Newest(s, locals, gps) && Unmeasurable(s) && StrictlyOrdered(locals)
    ensures Newest(Step(trig, s, e), AcceptLocal(locals, e), AcceptGps(gps, e)) && Unmeasurable(Step(trig, s, e))
  {
    hide Flush, Bounded;
    KeptEnds(locals);
    match e
    case LocalArrived(local) =>
      if locals == [] || locals[|locals| - 1].stamp < local.stamp {
        KeptAppend(locals, local);
        FlushKeepsNewest(trig, s.(history := Kept(locals + [local])), locals + [local], gps);
      } else {
        StaleLocalIgnored(trig, s, local, locals);
      }
    case GpsArrived(msg) =>
      if !msg.baseFrame {
        BoundedPending(s.pending, msg, gps);
        FlushKeepsNewest(trig, s.(pending := Bounded(s.pending, msg, PENDING_MAX)), locals, gps + [msg]);
      }
  }

  lemma BoundedPending(pending: seq<Gps>, msg: Gps, gps: seq<Gps>)
    requires |pending| <= PENDING_MAX && |pending| <= |gps| && pending == gps[|gps| - |pending|..]
    ensures var r, all := Bounded(pending, msg, PENDING_MAX), gps + [msg];
            |r| <= PENDING_MAX && |r| <= |all| && r == all[|all| - |r|..]
  {
  }

  /** In every run, overflowing or not, the history holds the newest local samples and what waits is a tail
      of the positions, each within its bound, whose first no local sample has reached yet. */
  lemma {:induction false} QueuesHoldTheNewest(trig: Trig, es: seq<Event>, n: nat)
    requires n <= |es|
    ensures Newest(StateAt(trig, es, n), Locals(es, n), GpsStream(es, n)) && Unmeasurable(StateAt(trig, es, n))
  {
    hide Step;
    if n > 0 {
      hide Newest, Unmeasurable;
      QueuesHoldTheNewest(trig, es, n - 1);
      LocalsOrdered(es, n - 1);
      StepKeepsNewest(trig, StateAt(trig, es, n - 1), es[n - 1], Locals(es, n - 1), GpsStream(es, n - 1));
    }
  }

  /** A position pushes another one out only if a full queue is waiting, and then the oldest of it. */
  lemma OverflowTakesTheOldest(trig: Trig, es: seq<Event>, n: nat, msg: Gps)
    requires n <= |es| && !msg.baseFrame
    ensures var s := StateAt(trig, es, n);
            var waiting := if |s.pending| == PENDING_MAX then s.pending[1..] else s.pending;
            OnGpsStep(trig, s, msg) == Flush(trig, s.(pending := waiting + [msg]))
  {
    QueuesHoldTheNewest(trig, es, n);
    hide StateAt, Flush, Kept, Locals, GpsStream;
  }

  // ---------------------------------------------------------------- interpolation

  /** `a` and `b` are neighbours in the history that bracket `t` closely enough. */
  ghost predicate Brackets(history: seq<Local>, i: nat, t: real) {
    && 0 < i < |history| && history[i - 1].stamp < t <= history[i].stamp
    && history[i].stamp - history[i - 1].stamp <= 0.2
  }

  /** How far `t` lies between the two stamps. */
  function Weight(a: Local, b: Local, t: real): real
    requires a.stamp < b.stamp
  {
    (t - a.stamp) / (b.stamp - a.stamp)
  }

  lemma WeightInUnit(a: Local, b: Local, t: real)
    requires a.stamp < t <= b.stamp
    ensures 0.0 < Weight(a, b, t) <= 1.0 && Weight(a, b, t) * (b.stamp - a.stamp) == t - a.stamp
  {
    FractionInUnit(t - a.stamp, b.stamp - a.stamp);
  }

  function WeightedYaw(trig: Trig, a: Local, b: Local, weight: real): real {
    a.yaw + weight * trig.wrap(b.yaw - a.yaw)
  }

  lemma YawIsWeighted(trig: Trig, a: Local, b: Local, t: real)
    requires a.stamp < t <= b.stamp
    ensures Yaw(trig, a, b, t) == WeightedYaw(trig, a, b, Weight(a, b, t))
  {
    var gap, weight, turn := b.stamp - a.stamp, Weight(a, b, t), trig.wrap(b.yaw - a.yaw);
    WeightInUnit(a, b, t);
    assert turn * (t - a.stamp) == (weight * turn) * gap;
  }

  /** Inside a bracket the yaw is interpolated, never extrapolated: its weight is in (0, 1]. */
  lemma MeasuredInBracket(trig: Trig, history: seq<Local>, msg: Gps, i: nat)
    requires StrictlyOrdered(history) && Brackets(history, i, msg.stamp)
    requires msg.stamp <= history[|history| - 1].stamp
    ensures 0.0 < Weight(history[i - 1], history[i], msg.stamp) <= 1.0
    ensures var a, b := history[i - 1], history[i];
            var base := Compensate(trig, msg.x, msg.y, WeightedYaw(trig, a, b, Weight(a, b, msg.stamp)));
            Measure(trig, history, msg) == Some(Output(msg, msg.(x := base.0, y := base.1)))
  {
    hide Weight, Yaw, WeightedYaw, Compensate;
    BisectUnique(history, msg.stamp, i);
    WeightInUnit(history[i - 1], history[i], msg.stamp);
    YawIsWeighted(trig, history[i - 1], history[i], msg.stamp);
  }

  /** A message is kept exactly when a close enough bracket exists. */
  lemma MeasuredIffBracketed(trig: Trig, history: seq<Local>, msg: Gps)
    requires history != [] && StrictlyOrdered(history) && msg.stamp <= history[|history| - 1].stamp
    ensures Measure(trig, history, msg).Some? <==> exists i: nat :: Brackets(history, i, msg.stamp)
  {
    if Measure(trig, history, msg).Some? {
      assert Brackets(history, BisectLeft(history, msg.stamp), msg.stamp);
    }
    if i: nat :| Brackets(history, i, msg.stamp) {
      MeasuredInBracket(trig, history, msg, i);
    }
  }

  /** A vector in the base frame, seen from the map frame. */
  function Rotated(trig: Trig, yaw: real, x: real, y: real): (real, real) {
    (trig.cos(yaw) * x - trig.sin(yaw) * y, trig.sin(yaw) * x + trig.cos(yaw) * y)
  }

  /** `o` is the answer to `msg`: with the yaw interpolated in a close bracket of the whole local
      stream, the published base and the rotated lever arm put the antenna where it was measured. */
  ghost predicate Answers(trig: Trig, locals: seq<Local>, msg: Gps, o: Output) {
    && o.reference == msg && o.base == msg.(x := o.base.x, y := o.base.y)
    && exists i: nat :: Brackets(locals, i, msg.stamp) && PutsAntenna(trig, locals[i - 1], locals[i], msg, o.base)
  }

  predicate PutsAntenna(trig: Trig, a: Local, b: Local, msg: Gps, base: Gps)
    requires a.stamp < b.stamp
  {
    var lever := Rotated(trig, WeightedYaw(trig, a, b, Weight(a, b, msg.stamp)), LEVER_X, LEVER_Y);
    base.x + lever.0 == msg.x && base.y + lever.1 == msg.y
  }

  lemma MeasureAnswers(trig: Trig, locals: seq<Local>, msg: Gps)
    requires locals != [] && StrictlyOrdered(locals) && msg.stamp <= locals[|locals| - 1].stamp
    requires Measure(trig, locals, msg).Some?
    ensures Answers(trig, locals, msg, Measure(trig, locals, msg).value)
  {
    hide Weight, WeightedYaw;
    MeasuredIffBracketed(trig, locals, msg);
    var i: nat :| Brackets(locals, i, msg.stamp);
    MeasuredInBracket(trig, locals, msg, i);
    hide Measure;
    assert PutsAntenna(trig, locals[i - 1], locals[i], msg, Measure(trig, locals, msg).value.base);
  }

  lemma {:induction false} PublishAllAnswers(trig: Trig, locals: seq<Local>, gps: seq<Gps>, o: Output) returns (j: nat)
    requires locals != [] && StrictlyOrdered(locals)
    requires forall i :: 0 <= i < |gps| ==> gps[i].stamp <= locals[|locals| - 1].stamp
    requires o in PublishAll(trig, locals, gps)
    ensures j < |gps| && Answers(trig, locals, gps[j], o)
  {
    hide Measure, Answers;
    var n := |gps| - 1;
    if o in PublishAll(trig, locals, gps[..n]) {
      j := PublishAllAnswers(trig, locals, gps[..n], o);
    } else {
      j := n;
      MeasureAnswers(trig, locals, gps[n]);
    }
  }

  /** Everything a run publishes answers one of the positions it was sent. */
  lemma PublishedAnswers(trig: Trig, es: seq<Event>, n: nat, o: Output) returns (j: nat)
    requires n <= |es| && PendingFits(trig, es, n) && InTime(trig, es, n)
    requires o in StateAt(trig, es, n).published
    ensures j < |GpsStream(es, n)| && Answers(trig, Locals(es, n), GpsStream(es, n)[j], o)
  {
    hide Answers, StateAt, Locals, GpsStream, InTime, PendingFits;
    var k := JoinIsBatch(trig, es, n);
    LocalsOrdered(es, n);
    j := PublishAllAnswers(trig, Locals(es, n), GpsStream(es, n)[..k], o);
  }

  /** Compensation moves a position by exactly the lever arm, whatever the yaw. */
  lemma LeverLengthKept(trig: Trig, x: real, y: real, yaw: real)
    requires trig.cos(yaw) * trig.cos(yaw) + trig.sin(yaw) * trig.sin(yaw) == 1.0
    ensures var (u, v) := Compensate(trig, x, y, yaw);
            (x - u) * (x - u) + (y - v) * (y - v) == LEVER_X * LEVER_X + LEVER_Y * LEVER_Y
  {
    var c, s := trig.cos(yaw), trig.sin(yaw);
    var dx, dy := c * LEVER_X - s * LEVER_Y, s * LEVER_X + c * LEVER_Y;
    assert dx * dx == c * c * (LEVER_X * LEVER_X) - 2.0 * (c * s) * (LEVER_X * LEVER_Y) + s * s * (LEVER_Y * LEVER_Y);
    assert dy * dy == s * s * (LEVER_X * LEVER_X) + 2.0 * (c * s) * (LEVER_X * LEVER_Y) + c * c * (LEVER_Y * LEVER_Y);
    assert s * s == 1.0 - c * c;
  }

  /** Seen along the yaw, the antenna is 0.66 ahead and 0.20 to the left of the compensated position. */
  lemma LeverPointsAhead(trig: Trig, x: real, y: real, yaw: real)
    requires trig.cos(yaw) * trig.cos(yaw) + trig.sin(yaw) * trig.sin(yaw) == 1.0
    ensures var (u, v) := Compensate(trig, x, y, yaw);
            && trig.cos(yaw) * (x - u) + trig.sin(yaw) * (y - v) == 0.66
            && trig.cos(yaw) * (y - v) - trig.sin(yaw) * (x - u) == 0.20
  {
    var c, s := trig.cos(yaw), trig.sin(yaw);
    assert c * (c * 0.66 - s * 0.20) + s * (s * 0.66 + c * 0.20) == (c * c + s * s) * 0.66;
    assert c * (s * 0.66 + c * 0.20) - s * (c * 0.66 - s * 0.20) == (c * c + s * s) * 0.20;
  }
}
