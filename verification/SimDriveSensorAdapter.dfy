/** The node of sim_drive_sensor_adapter.py: two deadline queues, cleared when simulation time
    goes back. */
module SimDriveSensorAdapter {
  import opened Numeric
  import opened DeadlineHeap
  import opened SimTimeQueue

  /** A processed measurement and the delay drawn for it; the drawn noise may be negative. */
  datatype Draw = Draw(message: Measurement, delay: real)

  function ScheduleTime(stamp: real, delay: real): real {
    stamp + Max(0.0, delay)
  }

  function RolledBack(last: Option<real>, clock: real): bool {
    last.Some? && clock < last.value
  }

  ghost function Observe(q: Queue, last: Option<real>, clock: real): Queue {
    if RolledBack(last, clock) then q.(pending := {}) else q
  }

  ghost function PushDraw(maxSize: nat, q: Queue, draw: Option<Draw>): Queue {
    match draw
    case None => q
    case Some(d) => PushStep(maxSize, q, ScheduleTime(d.message.stamp, d.delay), d.message)
  }

  class SimDriveSensorAdapterNode {
    const odom: SimTimeQueue
    const joint: SimTimeQueue
    var lastClock: Option<real>

    ghost predicate Valid()
      reads this, odom, joint, odom.items, joint.items
    {
      odom != joint && odom.items != joint.items && odom.Valid() && joint.Valid()
    }

    constructor (maxPending: nat)
      requires maxPending > 0
      ensures Valid() && fresh(odom) && fresh(joint) && fresh(odom.items) && fresh(joint.items)
      ensures odom.maxSize == joint.maxSize == maxPending && lastClock == None
      ensures odom.Now() == joint.Now() == Queue({}, 0)
    {
      odom := new SimTimeQueue(maxPending);
      joint := new SimTimeQueue(maxPending);
      lastClock := None;
    }

    method ObserveClock(clock: real)
      requires Valid()
      modifies this, odom, joint
      ensures Valid() && lastClock == Some(clock)
      ensures odom.Now() == Observe(old(odom.Now()), old(lastClock), clock)
      ensures joint.Now() == Observe(old(joint.Now()), old(lastClock), clock)
    {
      if lastClock.Some? && clock < lastClock.value {
        odom.Clear();
        joint.Clear();
      }
      lastClock := Some(clock);
    }

    /** `draw` is absent when the processor refused or dropped the message. */
    method OnOdom(clock: real, draw: Option<Draw>)
      requires Valid()
      modifies this, odom, joint, odom.items
      ensures Valid() && lastClock == Some(clock)
      ensures odom.Now() == PushDraw(odom.maxSize, Observe(old(odom.Now()), old(lastClock), clock), draw)
      ensures joint.Now() == Observe(old(joint.Now()), old(lastClock), clock)
    {
      ObserveClock(clock);
      if draw.Some? {
        odom.Push(ScheduleTime(draw.value.message.stamp, draw.value.delay), draw.value.message);
      }
    }

    method OnJointStates(clock: real, draw: Option<Draw>)
      requires Valid()
      modifies this, odom, joint, joint.items
      ensures Valid() && lastClock == Some(clock)
      ensures joint.Now() == PushDraw(joint.maxSize, Observe(old(joint.Now()), old(lastClock), clock), draw)
      ensures odom.Now() == Observe(old(odom.Now()), old(lastClock), clock)
    {
      ObserveClock(clock);
      if draw.Some? {
        joint.Push(ScheduleTime(draw.value.message.stamp, draw.value.delay), draw.value.message);
      }
    }

    method ReleaseReady(clock: Float) returns (odometry: seq<Item>, joints: seq<Item>)
      requires Valid()
      modifies this, odom, joint, odom.items, joint.items
      ensures Valid()
      ensures if clock.NonFinite? || clock.value < 0.0 then
                && odometry == joints == [] && lastClock == old(lastClock)
                && odom.Now() == old(odom.Now()) && joint.Now() == old(joint.Now())
              else
                var q := Observe(old(odom.Now()), old(lastClock), clock.value);
                var r := Observe(old(joint.Now()), old(lastClock), clock.value);
                && lastClock == Some(clock.value)
                && odom.Now() == PopStep(q, clock.value) && odometry == Ready(q.pending, clock.value)
                && joint.Now() == PopStep(r, clock.value) && joints == Ready(r.pending, clock.value)
    {
      odometry, joints := [], [];
      if clock.NonFinite? || clock.value < 0.0 {
        return;
      }
      ObserveClock(clock.value);
      odometry := odom.PopReady(clock.value);
      joints := joint.PopReady(clock.value);
    }
  }

  // ---------------------------------------------------------------- runs

  datatype Delivery = Delivery(item: Item, at: real)

  /** One queue with the fate of everything ever pushed to it. */
  datatype Ledger = Ledger(
    queue: Queue, pushed: set<Item>, delivered: seq<Delivery>, evicted: set<Item>, cleared: set<Item>)

  ghost function LedgerObserve(l: Ledger, last: Option<real>, clock: real): Ledger {
    l.(queue := Observe(l.queue, last, clock),
       cleared := l.cleared + if RolledBack(last, clock) then l.queue.pending else {})
  }

  ghost function LedgerPush(maxSize: nat, l: Ledger, draw: Option<Draw>): Ledger {
    match draw
    case None => l
    case Some(d) =>
      var item := Item(ScheduleTime(d.message.stamp, d.delay), l.queue.sequence, d.message);
      l.(queue := PushDraw(maxSize, l.queue, draw), pushed := l.pushed + {item},
         evicted := l.evicted + Evict(maxSize, l.queue.pending + {item}))
  }

  ghost function Deliveries(items: seq<Item>, at: real): seq<Delivery> {
    seq(|items|, i requires 0 <= i < |items| => Delivery(items[i], at))
  }

  ghost function LedgerRelease(l: Ledger, now: real): Ledger {
    l.(queue := PopStep(l.queue, now), delivered := l.delivered + Deliveries(Ready(l.queue.pending, now), now))
  }

  datatype Event =
    | Odom(clock: real, draw: Option<Draw>)
    | Joint(clock: real, draw: Option<Draw>)
    | Release(now: Float)

  datatype State = State(odom: Ledger, joint: Ledger, lastClock: Option<real>)

  ghost function Step(maxSize: nat, s: State, e: Event): State {
    match e
    case Odom(clock, draw) =>
      State(LedgerPush(maxSize, LedgerObserve(s.odom, s.lastClock, clock), draw),
            LedgerObserve(s.joint, s.lastClock, clock), Some(clock))
    case Joint(clock, draw) =>
      State(LedgerObserve(s.odom, s.lastClock, clock),
            LedgerPush(maxSize, LedgerObserve(s.joint, s.lastClock, clock), draw), Some(clock))
    case Release(now) =>
      if now.NonFinite? || now.value < 0.0 then s
      else State(LedgerRelease(LedgerObserve(s.odom, s.lastClock, now.value), now.value),
                 LedgerRelease(LedgerObserve(s.joint, s.lastClock, now.value), now.value), Some(now.value))
  }

  function EmptyLedger(): Ledger {
    Ledger(Queue({}, 0), {}, [], {}, {})
  }

  ghost function StateAt(maxSize: nat, es: seq<Event>, n: nat): State
    requires n <= |es|
  {
    if n == 0 then State(EmptyLedger(), EmptyLedger(), None)
    else Step(maxSize, StateAt(maxSize, es, n - 1), es[n - 1])
  }

  ghost function Delivered(ds: seq<Delivery>): set<Item> {
    set d | d in ds :: d.item
  }

  /** `all` is split into four disjoint parts. */
  ghost predicate Parts(all: set<Item>, a: set<Item>, b: set<Item>, c: set<Item>, d: set<Item>) {
    all == a + b + c + d && a !! b !! c !! d
  }

  ghost predicate DistinctItems(ds: seq<Delivery>) {
    forall i, j :: 0 <= i < j < |ds| ==> ds[i].item != ds[j].item
  }

  /** Everything pushed met exactly one fate. */
  ghost predicate Partitioned(l: Ledger) {
    Parts(l.pushed, Delivered(l.delivered), l.evicted, l.cleared, l.queue.pending) && DistinctItems(l.delivered)
  }

  /** Nothing is delivered before its deadline, nor before its own stamp. */
  ghost predicate Punctual(l: Ledger) {
    && (forall d :: d in l.delivered ==> d.item.release <= d.at)
    && (forall x :: x in l.pushed ==> x.message.stamp <= x.release)
  }

  ghost predicate Good(maxSize: nat, l: Ledger) {
    && Partitioned(l) && Punctual(l) && Sequenced(l.pushed, l.queue.sequence)
    && |l.pushed| == l.queue.sequence && |l.queue.pending| <= maxSize
  }

  lemma PartsClear(all: set<Item>, a: set<Item>, b: set<Item>, c: set<Item>, d: set<Item>)
    requires Parts(all, a, b, c, d)
    ensures Parts(all, a, b, c + d, {})
  {
  }

  lemma PartsPush(all: set<Item>, a: set<Item>, b: set<Item>, c: set<Item>, d: set<Item>, x: Item, out: set<Item>)
    requires Parts(all, a, b, c, d) && x !in all && out <= d + {x}
    ensures Parts(all + {x}, a, b + out, c, d + {x} - out)
  {
    assert x !in a && x !in b && x !in c && x !in d;
  }

  lemma PartsRelease(all: set<Item>, a: set<Item>, b: set<Item>, c: set<Item>, d: set<Item>, due: set<Item>)
    requires Parts(all, a, b, c, d) && due <= d
    ensures Parts(all, a + due, b, c, d - due)
  {
  }

  lemma ObserveKeeps(maxSize: nat, l: Ledger, last: Option<real>, clock: real)
    requires Good(maxSize, l)
    ensures Good(maxSize, LedgerObserve(l, last, clock))
  {
    hide Parts, DistinctItems, Sequenced, Punctual, Delivered;
    PartsClear(l.pushed, Delivered(l.delivered), l.evicted, l.cleared, l.queue.pending);
    assert l.cleared + {} == l.cleared;
    assert Punctual(LedgerObserve(l, last, clock)) by { SamePunctual(l, LedgerObserve(l, last, clock)); }
  }

  lemma SamePunctual(l: Ledger, m: Ledger)
    requires Punctual(l) && l.pushed == m.pushed && l.delivered == m.delivered
    ensures Punctual(m)
  {
  }

  lemma EvictFits(maxSize: nat, pending: set<Item>, x: Item)
    requires |pending| <= maxSize
    ensures Evict(maxSize, pending + {x}) <= pending + {x} && |pending + {x} - Evict(maxSize, pending + {x})| <= maxSize
  {
  }

  lemma FreshItem(pushed: set<Item>, x: Item)
    requires Sequenced(pushed, x.sequence)
    ensures x !in pushed && Sequenced(pushed + {x}, x.sequence + 1) && |pushed + {x}| == |pushed| + 1
  {
  }

  lemma PushIsPunctual(l: Ledger, m: Ledger, x: Item)
    requires Punctual(l) && m.delivered == l.delivered && m.pushed == l.pushed + {x} && x.message.stamp <= x.release
    ensures Punctual(m)
  {
  }

  lemma PushKeeps(maxSize: nat, l: Ledger, draw: Option<Draw>)
    requires Good(maxSize, l)
    ensures Good(maxSize, LedgerPush(maxSize, l, draw))
  {
    hide Parts, DistinctItems, Sequenced, Delivered, Evict, Punctual;
    if draw.Some? {
      var d := draw.value;
      var item := Item(ScheduleTime(d.message.stamp, d.delay), l.queue.sequence, d.message);
      var pending := l.queue.pending;
      FreshItem(l.pushed, item);
      EvictFits(maxSize, pending, item);
      PartsPush(l.pushed, Delivered(l.delivered), l.evicted, l.cleared, pending, item,
                Evict(maxSize, pending + {item}));
      PushIsPunctual(l, LedgerPush(maxSize, l, draw), item);
    }
  }

  lemma DeliveredAppend(ds: seq<Delivery>, items: seq<Item>, now: real)
    ensures Delivered(ds + Deliveries(items, now)) == Delivered(ds) + Elements(items)
  {
    var es := Deliveries(items, now);
    forall x | x in Elements(items) ensures x in Delivered(ds + es) {
      var i :| 0 <= i < |items| && items[i] == x;
      assert es[i] == Delivery(x, now) && es[i] in ds + es;
    }
    forall x | x in Delivered(ds) ensures x in Delivered(ds + es) {
      var d :| d in ds && d.item == x;
      assert d in ds + es;
    }
  }

  lemma ReleaseStaysDistinct(ds: seq<Delivery>, ready: seq<Item>, now: real)
    requires DistinctItems(ds) && Increasing(ready) && Delivered(ds) !! Elements(ready)
    ensures DistinctItems(ds + Deliveries(ready, now))
  {
    var after := ds + Deliveries(ready, now);
    forall i, j | 0 <= i < j < |after| ensures after[i].item != after[j].item {
      if i < |ds| && |ds| <= j {
        assert ds[i] in ds && ready[j - |ds|] in ready;
        assert ds[i].item in Delivered(ds) && ready[j - |ds|] in Elements(ready);
      } else if |ds| <= i {
        assert Less(ready[i - |ds|], ready[j - |ds|]);
      }
    }
  }

  lemma ReleaseIsPunctual(l: Ledger, ready: seq<Item>, now: real)
    requires Punctual(l) && forall x :: x in ready ==> x.release <= now
    ensures Punctual(l.(delivered := l.delivered + Deliveries(ready, now)))
  {
    var ds := Deliveries(ready, now);
    forall d | d in l.delivered + ds ensures d.item.release <= d.at {
      if d !in l.delivered {
        var i :| 0 <= i < |ds| && ds[i] == d;
        assert d.item == ready[i];
      }
    }
  }

  lemma NotDueFits(s: set<Item>, now: real)
    ensures |NotDue(s, now)| <= |s| && Due(s, now) <= s
  {
    assert |s| == |NotDue(s, now)| + |s - NotDue(s, now)|;
  }

  lemma PartShapes(l: Ledger)
    requires Partitioned(l)
    ensures l.queue.pending <= l.pushed && Delivered(l.delivered) !! l.queue.pending
  {
  }

  lemma SequencedSubset(s: set<Item>, t: set<Item>, next: nat)
    requires s <= t && Sequenced(t, next)
    ensures Sequenced(s, next)
  {
  }

  lemma ReleaseKeeps(maxSize: nat, l: Ledger, now: real)
    requires Good(maxSize, l)
    ensures Good(maxSize, LedgerRelease(l, now))
  {
    hide Parts, DistinctItems, Sequenced, Delivered, Ready, Increasing, Punctual, Deliveries;
    var pending := l.queue.pending;
    var ready := Ready(pending, now);
    PartShapes(l);
    SequencedSubset(pending, l.pushed, l.queue.sequence);
    ReadyIsDue(pending, l.queue.sequence, now);
    NotDueFits(pending, now);
    DeliveredAppend(l.delivered, ready, now);
    PartsRelease(l.pushed, Delivered(l.delivered), l.evicted, l.cleared, pending, Due(pending, now));
    ReleaseStaysDistinct(l.delivered, ready, now);
    assert forall x :: x in ready ==> x in Elements(ready);
    ReleaseIsPunctual(l, ready, now);
    SamePunctual(l.(delivered := l.delivered + Deliveries(ready, now)), LedgerRelease(l, now));
  }

  lemma EmptyIsGood(maxSize: nat)
    ensures Good(maxSize, EmptyLedger())
  {
    assert Delivered([]) == {};
  }

  /** In every run each pushed measurement is, exactly once, delivered, evicted, cleared or still
      pending, and none is delivered before its deadline or its own stamp. */
  lemma {:induction false} ExactlyOneFate(maxSize: nat, es: seq<Event>, n: nat)
    requires n <= |es|
    ensures Good(maxSize, StateAt(maxSize, es, n).odom) && Good(maxSize, StateAt(maxSize, es, n).joint)
  {
    hide Good, LedgerObserve, LedgerPush, LedgerRelease;
    if n == 0 {
      EmptyIsGood(maxSize);
    } else {
      ExactlyOneFate(maxSize, es, n - 1);
      var s := StateAt(maxSize, es, n - 1);
      match es[n - 1]
      case Odom(clock, draw) =>
        ObserveKeeps(maxSize, s.odom, s.lastClock, clock);
        ObserveKeeps(maxSize, s.joint, s.lastClock, clock);
        PushKeeps(maxSize, LedgerObserve(s.odom, s.lastClock, clock), draw);
      case Joint(clock, draw) =>
        ObserveKeeps(maxSize, s.odom, s.lastClock, clock);
        ObserveKeeps(maxSize, s.joint, s.lastClock, clock);
        PushKeeps(maxSize, LedgerObserve(s.joint, s.lastClock, clock), draw);
      case Release(now) =>
        if now.Finite? && now.value >= 0.0 {
          ObserveKeeps(maxSize, s.odom, s.lastClock, now.value);
          ObserveKeeps(maxSize, s.joint, s.lastClock, now.value);
          ReleaseKeeps(maxSize, LedgerObserve(s.odom, s.lastClock, now.value), now.value);
          ReleaseKeeps(maxSize, LedgerObserve(s.joint, s.lastClock, now.value), now.value);
        }
    }
  }

  /** The clock reading an event observes, if it observes any. */
  function ClockOf(e: Event): Option<real> {
    match e
    case Odom(clock, _) => Some(clock)
    case Joint(clock, _) => Some(clock)
    case Release(now) => if now.Finite? && now.value >= 0.0 then Some(now.value) else None
  }

  /** Only a clock that goes back clears anything. */
  lemma {:induction false} SteadyClockClearsNothing(maxSize: nat, es: seq<Event>, n: nat)
    requires n <= |es|
    requires forall i, j :: 0 <= i < j < |es| && ClockOf(es[i]).Some? && ClockOf(es[j]).Some? ==>
               ClockOf(es[i]).value <= ClockOf(es[j]).value
    ensures var s := StateAt(maxSize, es, n);
            && s.odom.cleared == {} && s.joint.cleared == {}
            && (s.lastClock.Some? ==> exists i :: 0 <= i < n && ClockOf(es[i]) == s.lastClock)
  {
    if n > 0 {
      SteadyClockClearsNothing(maxSize, es, n - 1);
      assert ClockOf(es[n - 1]).Some? ==> StateAt(maxSize, es, n).lastClock == ClockOf(es[n - 1]);
    }
  }

  /** The latest reading of the clock among the first `n` events. */
  function LastReading(es: seq<Event>, n: nat): Option<real>
    requires n <= |es|
  {
    if n == 0 then None else if ClockOf(es[n - 1]).Some? then ClockOf(es[n - 1]) else LastReading(es, n - 1)
  }

  lemma {:induction false} LastClockIs(maxSize: nat, es: seq<Event>, n: nat)
    requires n <= |es|
    ensures StateAt(maxSize, es, n).lastClock == LastReading(es, n)
  {
    hide LedgerObserve, LedgerPush, LedgerRelease;
    if n > 0 {
      LastClockIs(maxSize, es, n - 1);
    }
  }

  /** The event finds the clock behind its latest reading. */
  predicate GoesBack(es: seq<Event>, n: nat)
    requires n < |es|
  {
    var last, clock := LastReading(es, n), ClockOf(es[n]);
    last.Some? && clock.Some? && clock.value < last.value
  }

  /** What a clock that goes back does to a queue, and only that: everything pending is cleared and
      nothing delivered, so that nothing from before is left. */
  ghost predicate ClearedIff(before: Ledger, after: Ledger, goesBack: bool) {
    if goesBack then
      && after.cleared == before.cleared + before.queue.pending && after.delivered == before.delivered
      && after.queue.pending <= after.pushed - before.pushed
    else after.cleared == before.cleared
  }

  lemma LedgerClearedIff(maxSize: nat, l: Ledger, last: Option<real>, clock: real, draw: Option<Draw>)
    requires Good(maxSize, l)
    ensures var seen, back := LedgerObserve(l, last, clock), last.Some? && clock < last.value;
            && ClearedIff(l, seen, back) && ClearedIff(l, LedgerPush(maxSize, seen, draw), back)
            && ClearedIff(l, LedgerRelease(seen, clock), back)
  {
    hide Partitioned, Punctual, Evict;
    var seen := LedgerObserve(l, last, clock);
    if last.Some? && clock < last.value {
      assert Ready(seen.queue.pending, clock) == [];
      if draw.Some? {
        var d := draw.value;
        FreshItem(l.pushed, Item(ScheduleTime(d.message.stamp, d.delay), l.queue.sequence, d.message));
      }
    }
  }

  /** Going back clears both queues, and nothing else ever clears one. */
  lemma RollbackClears(maxSize: nat, es: seq<Event>, n: nat)
    requires n < |es|
    ensures var before, after := StateAt(maxSize, es, n), StateAt(maxSize, es, n + 1);
            && ClearedIff(before.odom, after.odom, GoesBack(es, n))
            && ClearedIff(before.joint, after.joint, GoesBack(es, n))
  {
    hide Good, LedgerObserve, LedgerPush, LedgerRelease, ClearedIff;
    var s := StateAt(maxSize, es, n);
    ExactlyOneFate(maxSize, es, n);
    LastClockIs(maxSize, es, n);
    match es[n]
    case Odom(clock, draw) =>
      LedgerClearedIff(maxSize, s.odom, s.lastClock, clock, draw);
      LedgerClearedIff(maxSize, s.joint, s.lastClock, clock, draw);
    case Joint(clock, draw) =>
      LedgerClearedIff(maxSize, s.odom, s.lastClock, clock, draw);
      LedgerClearedIff(maxSize, s.joint, s.lastClock, clock, draw);
    case Release(now) =>
      if ClockOf(es[n]).Some? {
        LedgerClearedIff(maxSize, s.odom, s.lastClock, now.value, None);
        LedgerClearedIff(maxSize, s.joint, s.lastClock, now.value, None);
      } else {
        Untouched(s.odom);
        Untouched(s.joint);
      }
  }

  lemma Untouched(l: Ledger)
    ensures ClearedIff(l, l, false)
  {
  }

  function DrawOf(e: Event, odom: bool): seq<Draw> {
    match e
    case Odom(_, draw) => if odom && draw.Some? then [draw.value] else []
    case Joint(_, draw) => if !odom && draw.Some? then [draw.value] else []
    case Release(_) => []
  }

  /** The draws that reached the odometry queue, or the joint queue, in order. */
  function Draws(es: seq<Event>, n: nat, odom: bool): seq<Draw>
    requires n <= |es|
  {
    if n == 0 then [] else Draws(es, n - 1, odom) + DrawOf(es[n - 1], odom)
  }

  /** The queue's items are the draws, numbered in order, and due at the stamp, put off by the delay if
      that is positive. */
  ghost predicate AsDrawn(l: Ledger, draws: seq<Draw>) {
    && l.queue.sequence == |draws|
    && forall x :: x in l.pushed ==>
         && x.sequence < |draws| && x.message == draws[x.sequence].message
         && x.release == x.message.stamp + if draws[x.sequence].delay > 0.0 then draws[x.sequence].delay else 0.0
  }

  lemma LedgerAsDrawn(maxSize: nat, l: Ledger, last: Option<real>, clock: real, draw: Option<Draw>, draws: seq<Draw>)
    requires AsDrawn(l, draws)
    ensures var seen := LedgerObserve(l, last, clock);
            && AsDrawn(seen, draws + []) && AsDrawn(LedgerRelease(seen, clock), draws + [])
            && AsDrawn(LedgerPush(maxSize, seen, draw), draws + if draw.Some? then [draw.value] else [])
  {
    assert draws + [] == draws;
    hide Ready, Evict, NotDue, Deliveries;
  }

  lemma {:induction false} PushedAsDrawn(maxSize: nat, es: seq<Event>, n: nat)
    requires n <= |es|
    ensures AsDrawn(StateAt(maxSize, es, n).odom, Draws(es, n, true))
    ensures AsDrawn(StateAt(maxSize, es, n).joint, Draws(es, n, false))
  {
    hide LedgerObserve, LedgerPush, LedgerRelease;
    if n > 0 {
      hide AsDrawn;
      PushedAsDrawn(maxSize, es, n - 1);
      var s, odoms, joints := StateAt(maxSize, es, n - 1), Draws(es, n - 1, true), Draws(es, n - 1, false);
      match es[n - 1]
      case Odom(clock, draw) =>
        LedgerAsDrawn(maxSize, s.odom, s.lastClock, clock, draw, odoms);
        LedgerAsDrawn(maxSize, s.joint, s.lastClock, clock, None, joints);
      case Joint(clock, draw) =>
        LedgerAsDrawn(maxSize, s.odom, s.lastClock, clock, None, odoms);
        LedgerAsDrawn(maxSize, s.joint, s.lastClock, clock, draw, joints);
      case Release(now) =>
        assert odoms + [] == odoms && joints + [] == joints;
        if ClockOf(es[n - 1]).Some? {
          LedgerAsDrawn(maxSize, s.odom, s.lastClock, now.value, None, odoms);
          LedgerAsDrawn(maxSize, s.joint, s.lastClock, now.value, None, joints);
        }
    }
  }

  /** Whatever a queue delivers is one of its draws, no earlier than the stamp, nor than the stamp and the
      delay together. */
  ghost predicate DeliversDraws(l: Ledger, draws: seq<Draw>) {
    forall d :: d in l.delivered ==>
      && d.item.sequence < |draws| && d.item.message == draws[d.item.sequence].message
      && d.at >= d.item.message.stamp && d.at >= d.item.message.stamp + draws[d.item.sequence].delay
  }

  /** Nothing due at the reading is left. */
  ghost predicate NothingDueAt(l: Ledger, now: real) {
    forall x :: x in l.queue.pending ==> x.release > now
  }

  lemma DeliveredWerePushed(l: Ledger)
    requires Partitioned(l)
    ensures forall d :: d in l.delivered ==> d.item in l.pushed
  {
    hide DistinctItems;
    forall d | d in l.delivered ensures d.item in l.pushed {
      assert d.item in Delivered(l.delivered);
    }
  }

  lemma LedgerDelivers(maxSize: nat, l: Ledger, draws: seq<Draw>)
    requires Good(maxSize, l) && AsDrawn(l, draws)
    ensures DeliversDraws(l, draws)
  {
    hide Sequenced, Partitioned;
    DeliveredWerePushed(l);
  }

  /** In every run each delivery is of a draw, after its delay; and after each usable release nothing that
      is due is left, so that it is also not later than that. */
  lemma DeliveriesKeepTime(maxSize: nat, es: seq<Event>, n: nat)
    requires n <= |es|
    ensures var s := StateAt(maxSize, es, n);
            && DeliversDraws(s.odom, Draws(es, n, true)) && DeliversDraws(s.joint, Draws(es, n, false))
            && (n > 0 && es[n - 1].Release? && ClockOf(es[n - 1]).Some? ==>
                  && NothingDueAt(s.odom, es[n - 1].now.value) && NothingDueAt(s.joint, es[n - 1].now.value))
  {
    hide Good, AsDrawn, DeliversDraws, LedgerObserve, LedgerPush, Deliveries, Ready;
    ExactlyOneFate(maxSize, es, n);
    PushedAsDrawn(maxSize, es, n);
    LedgerDelivers(maxSize, StateAt(maxSize, es, n).odom, Draws(es, n, true));
    LedgerDelivers(maxSize, StateAt(maxSize, es, n).joint, Draws(es, n, false));
  }
}
