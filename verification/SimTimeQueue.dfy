/** The bounded deadline queue of sim_drive_sensor_adapter.py. */
module SimTimeQueue {
  import opened DeadlineHeap

  // ---------------------------------------------------------------- sets of items

  /** No two items share a sequence number. */
  ghost predicate Sequenced(s: set<Item>, next: nat) {
    && (forall a, b :: a in s && b in s && a.sequence == b.sequence ==> a == b)
    && (forall a :: a in s ==> a.sequence < next)
  }

  ghost predicate IsLeast(x: Item, s: set<Item>) {
    x in s && forall y :: y in s ==> !Less(y, x)
  }

  lemma {:induction false} LeastExists(s: set<Item>)
    requires s != {}
    ensures exists x :: IsLeast(x, s)
  {
    var y :| y in s;
    if s == {y} {
      assert IsLeast(y, s);
    } else {
      LeastExists(s - {y});
      var x :| IsLeast(x, s - {y});
      assert forall z :: z in s ==> z == y || z in s - {y};
      if Less(y, x) {
        forall z | z in s ensures !Less(z, y) {
          if z != y { NotLessTransitive(y, x, z); }
        }
        assert IsLeast(y, s);
      } else {
        assert IsLeast(x, s);
      }
    }
  }

  ghost function Least(s: set<Item>): (x: Item)
    requires s != {}
    ensures IsLeast(x, s)
  {
    LeastExists(s);
    var x :| IsLeast(x, s);
    x
  }

  ghost predicate Distinct(s: seq<Item>) {
    forall i, j :: 0 <= i < j < |s| ==> s[i] != s[j]
  }

  lemma MultiplicityGrows(init: seq<Item>, last: Item)
    requires forall x :: x in multiset(init) ==> multiset(init)[x] == 1
    ensures last !in init <==> forall x :: x in multiset(init + [last]) ==> multiset(init + [last])[x] == 1
  {
    if last in init {
      assert multiset(init + [last])[last] == 2;
    }
  }

  lemma {:induction false} DistinctMultiplicity(s: seq<Item>)
    ensures Distinct(s) <==> forall x :: x in multiset(s) ==> multiset(s)[x] == 1
    ensures Distinct(s) ==> |Elements(s)| == |s|
  {
    if s != [] {
      var init, last := s[..|s| - 1], s[|s| - 1];
      assert s == init + [last];
      DistinctMultiplicity(init);
      assert Elements(s) == Elements(init) + {last};
      if Distinct(init) {
        MultiplicityGrows(init, last);
        assert Distinct(s) <==> last !in init;
      } else {
        var x :| x in multiset(init) && multiset(init)[x] != 1;
        assert multiset(s)[x] > 1;
      }
    }
  }

  ghost function Elements(s: seq<Item>): set<Item> {
    set x | x in s
  }

  // ---------------------------------------------------------------- the queue

  /** What the queue means: its pending items and the next sequence number. */
  datatype Queue = Queue(pending: set<Item>, sequence: nat)

  ghost function Evict(maxSize: nat, all: set<Item>): set<Item> {
    if |all| > maxSize then {Least(all)} else {}
  }

  ghost function PushStep(maxSize: nat, q: Queue, release: real, message: Measurement): Queue {
    var all := q.pending + {Item(release, q.sequence, message)};
    Queue(all - Evict(maxSize, all), q.sequence + 1)
  }

  /** The due items, in order. */
  ghost function Ready(s: set<Item>, now: real): seq<Item>
    decreases |s|
  {
    if s == {} || Least(s).release > now then [] else [Least(s)] + Ready(s - {Least(s)}, now)
  }

  ghost function Due(s: set<Item>, now: real): set<Item> {
    set x | x in s && x.release <= now
  }

  ghost function NotDue(s: set<Item>, now: real): set<Item> {
    s - Due(s, now)
  }

  ghost function PopStep(q: Queue, now: real): Queue {
    q.(pending := NotDue(q.pending, now))
  }

  lemma LeastUnique(x: Item, s: set<Item>, next: nat)
    requires IsLeast(x, s) && Sequenced(s, next)
    ensures x == Least(s)
  {
    var y := Least(s);
    assert !Less(x, y) && !Less(y, x);
  }

  lemma Pushed(s: seq<Item>, t: seq<Item>, x: Item)
    requires Distinct(s) && Sequenced(Elements(s), x.sequence) && multiset(t) == multiset(s) + multiset{x}
    ensures Distinct(t) && Elements(t) == Elements(s) + {x} && |Elements(t)| == |t|
    ensures Sequenced(Elements(t), x.sequence + 1)
  {
    DistinctMultiplicity(s);
    DistinctMultiplicity(t);
    assert forall y :: y in Elements(t) <==> y in multiset(t);
    assert forall y :: y in Elements(s) <==> y in multiset(s);
    assert x !in Elements(s);
  }

  lemma Popped(s: seq<Item>, t: seq<Item>, x: Item, next: nat)
    requires Distinct(s) && Sequenced(Elements(s), next) && multiset(t) + multiset{x} == multiset(s)
    requires forall y :: y in multiset(s) ==> !Less(y, x)
    ensures Distinct(t) && x in Elements(s) && Elements(t) == Elements(s) - {x}
    ensures Sequenced(Elements(t), next) && x == Least(Elements(s))
  {
    DistinctMultiplicity(s);
    DistinctMultiplicity(t);
    assert forall y :: y in Elements(t) <==> y in multiset(t);
    assert forall y :: y in Elements(s) <==> y in multiset(s);
    LeastUnique(x, Elements(s), next);
  }

  lemma ReadyUnfolds(s: set<Item>, now: real)
    requires s != {} && Least(s).release <= now
    ensures Ready(s, now) == [Least(s)] + Ready(s - {Least(s)}, now)
    ensures NotDue(s, now) == NotDue(s - {Least(s)}, now)
  {
  }

  lemma NothingDue(h: seq<Item>, next: nat, now: real)
    requires Heap(h) && Sequenced(Elements(h), next) && (h == [] || h[0].release > now)
    ensures Ready(Elements(h), now) == [] && NotDue(Elements(h), now) == Elements(h)
  {
    if h != [] {
      forall y | y in Elements(h) ensures !Less(y, h[0]) {
        var k :| 0 <= k < |h| && h[k] == y;
        RootIsLeast(h, k);
      }
      LeastUnique(h[0], Elements(h), next);
    }
  }

  class SimTimeQueue {
    const maxSize: nat
    const items: array<Item>
    var count: nat
    var sequence: nat

    ghost predicate Valid()
      reads this, items
    {
      && 0 < maxSize && items.Length == maxSize + 1 && count <= maxSize
      && Heap(items[..count]) && Distinct(items[..count]) && Sequenced(Elements(items[..count]), sequence)
    }

    ghost function Now(): Queue
      requires count <= items.Length
      reads this, items
    {
      Queue(Elements(items[..count]), sequence)
    }

    constructor (maxSize: nat)
      requires maxSize > 0
      ensures Valid() && this.maxSize == maxSize && fresh(items) && Now() == Queue({}, 0)
    {
      this.maxSize := maxSize;
      items := new Item[maxSize + 1](_ => Item(0.0, 0, Measurement(0.0, 0)));
      count, sequence := 0, 0;
    }

    method Clear()
      requires Valid()
      modifies this
      ensures Valid() && Now() == Queue({}, old(Now()).sequence)
    {
      count := 0;
    }

    method Push(release: real, message: Measurement)
      requires Valid()
      modifies this, items
      ensures Valid() && Now() == PushStep(maxSize, old(Now()), release, message)
    {
      hide Heap, Less, Distinct, Sequenced, Elements;
      ghost var before := Elements(items[..count]);
      ghost var contents := items[..count];
      var item := Item(release, sequence, message);
      HeapPush(items, count, item);
      count, sequence := count + 1, sequence + 1;
      Pushed(contents, items[..count], item);
      ghost var all := Elements(items[..count]);
      assert all == before + {item};
      if count > maxSize {
        ghost var full := items[..count];
        var least := HeapPop(items, count);
        count := count - 1;
        Popped(full, items[..count], least, sequence);
        assert all - {least} == all - Evict(maxSize, all);
      }
    }

    // The earliest item, which is the one at the root.
    method Pop() returns (least: Item)
      requires Valid() && count > 0
      modifies this, items
      ensures Valid() && sequence == old(sequence) && count == old(count) - 1
      ensures least == old(items[0]) && old(Now().pending) != {} && least == Least(old(Now().pending))
      ensures Now().pending == old(Now().pending) - {least}
    {
      hide Heap, Less, Distinct, Sequenced;
      ghost var full := items[..count];
      assert full[0] in Elements(full);
      least := HeapPop(items, count);
      count := count - 1;
      Popped(full, items[..count], least, sequence);
    }

    method PopReady(now: real) returns (ready: seq<Item>)
      requires Valid()
      modifies this, items
      ensures Valid() && Now() == PopStep(old(Now()), now) && ready == Ready(old(Now()).pending, now)
    {
      hide Heap, Less, Distinct, Sequenced, Ready, NotDue;
      ready := [];
      ghost var start := Elements(items[..count]);
      while count > 0 && items[0].release <= now
        invariant Valid() && sequence == old(sequence)
        invariant Ready(start, now) == ready + Ready(Elements(items[..count]), now)
        invariant NotDue(start, now) == NotDue(Elements(items[..count]), now)
        decreases count
      {
        ghost var full := Elements(items[..count]);
        var least := Pop();
        ReadyUnfolds(full, now);
        assert ready + ([least] + Ready(full - {least}, now)) == (ready + [least]) + Ready(full - {least}, now);
        ready := ready + [least];
      }
      NothingDue(items[..count], sequence, now);
    }
  }

  // ---------------------------------------------------------------- what is released

  ghost predicate Increasing(xs: seq<Item>) {
    forall i, j :: 0 <= i < j < |xs| ==> Less(xs[i], xs[j])
  }

  lemma StrictlyAboveLeast(s: set<Item>, next: nat, x: Item)
    requires x in s && Sequenced(s, next) && x != Least(s)
    ensures Less(Least(s), x)
  {
  }

  lemma NoneDue(s: set<Item>, next: nat, now: real)
    requires Sequenced(s, next) && s != {} && Least(s).release > now
    ensures Due(s, now) == {}
  {
    forall y | y in s ensures y.release > now {
      assert !Less(y, Least(s));
    }
  }

  /** A release hands out all the due items and only those, each once, in deadline order. */
  lemma {:induction false} ReadyIsDue(s: set<Item>, next: nat, now: real)
    requires Sequenced(s, next)
    ensures Elements(Ready(s, now)) == Due(s, now) && Increasing(Ready(s, now))
    decreases |s|
  {
    hide Less;
    if s != {} && Least(s).release <= now {
      var x := Least(s);
      var rest := s - {x};
      ReadyIsDue(rest, next, now);
      forall y | y in Ready(rest, now) ensures Less(x, y) {
        assert y in Elements(Ready(rest, now));
        StrictlyAboveLeast(s, next, y);
      }
      assert forall y :: y in Elements(Ready(s, now)) <==> y == x || y in Elements(Ready(rest, now));
    } else if s != {} {
      NoneDue(s, next, now);
    }
  }

  // ---------------------------------------------------------------- what is kept

  ghost predicate IsTop(kept: set<Item>, all: set<Item>, m: nat) {
    && kept <= all && |kept| == (if |all| <= m then |all| else m)
    && Below(all - kept, kept)
  }

  ghost predicate Below(low: set<Item>, high: set<Item>) {
    forall a, b :: a in low && b in high ==> Less(a, b)
  }

  /** The items a sequence of pushes creates, numbered from `first`. */
  function Items(first: nat, pushes: seq<(real, Measurement)>): set<Item> {
    if pushes == [] then {}
    else
      var n := |pushes| - 1;
      Items(first, pushes[..n]) + {Item(pushes[n].0, first + n, pushes[n].1)}
  }

  ghost function PushAll(maxSize: nat, q: Queue, pushes: seq<(real, Measurement)>): Queue {
    if pushes == [] then q
    else
      var before := PushAll(maxSize, q, pushes[..|pushes| - 1]);
      PushStep(maxSize, before, pushes[|pushes| - 1].0, pushes[|pushes| - 1].1)
  }

  lemma EqualWhenFull(kept: set<Item>, all: set<Item>)
    requires kept <= all && |kept| == |all|
    ensures kept == all
  {
    assert all == kept + (all - kept);
    assert |all| == |kept| + |all - kept|;
  }

  lemma EvictionKeepsOrder(kept: set<Item>, all: set<Item>, m: nat, x: Item)
    requires IsTop(kept, all, m) && Sequenced(all, x.sequence)
    ensures var rest := kept + {x} - {Least(kept + {x})};
            Below(all + {x} - rest, rest)
  {
    var grown := kept + {x};
    assert Sequenced(grown, x.sequence + 1);
    var y := Least(grown);
    forall a, b | a in all + {x} - (grown - {y}) && b in grown - {y} ensures Less(a, b) {
      StrictlyAboveLeast(grown, x.sequence + 1, b);
      if a != y && b == x {
        assert a in all - kept && y in kept && Less(a, y);
      }
    }
  }

  lemma SequencedGrows(all: set<Item>, x: Item)
    requires Sequenced(all, x.sequence)
    ensures x !in all && Sequenced(all + {x}, x.sequence + 1)
  {
  }

  lemma TopAfterPush(kept: set<Item>, all: set<Item>, m: nat, x: Item)
    requires IsTop(kept, all, m) && Sequenced(all, x.sequence)
    ensures IsTop(kept + {x} - Evict(m, kept + {x}), all + {x}, m)
    ensures Sequenced(all + {x}, x.sequence + 1)
  {
    SequencedGrows(all, x);
    var grown := kept + {x};
    var rest := grown - {Least(grown)};
    assert |grown| == |kept| + 1 && |all + {x}| == |all| + 1 && |rest| == |kept|;
    if |all| < m {
      EqualWhenFull(kept, all);
      assert grown - {} == all + {x} == grown;
    } else {
      EvictionKeepsOrder(kept, all, m, x);
      hide Below, Sequenced, Less;
    }
  }

  lemma PushAllUnfolds(maxSize: nat, q: Queue, pushes: seq<(real, Measurement)>, before: Queue, x: Item)
    requires pushes != [] && before == PushAll(maxSize, q, pushes[..|pushes| - 1])
    requires x == Item(pushes[|pushes| - 1].0, before.sequence, pushes[|pushes| - 1].1)
    ensures PushAll(maxSize, q, pushes)
         == Queue(before.pending + {x} - Evict(maxSize, before.pending + {x}), x.sequence + 1)
  {
    hide Evict;
  }

  lemma AllUnfolds(q: Queue, pushes: seq<(real, Measurement)>, x: Item)
    requires pushes != [] && x == Item(pushes[|pushes| - 1].0, q.sequence + |pushes| - 1, pushes[|pushes| - 1].1)
    ensures q.pending + Items(q.sequence, pushes) == q.pending + Items(q.sequence, pushes[..|pushes| - 1]) + {x}
  {
  }

  lemma NothingPushed(maxSize: nat, q: Queue)
    requires |q.pending| <= maxSize
    ensures PushAll(maxSize, q, []) == q && q.pending + Items(q.sequence, []) == q.pending
    ensures IsTop(q.pending, q.pending, maxSize)
  {
  }

  /** After any pushes the queue holds exactly the `maxSize` greatest of the items it held and
      was given, or all of them if they fit. */
  lemma {:induction false} PushesKeepTop(maxSize: nat, q: Queue, pushes: seq<(real, Measurement)>)
    requires Sequenced(q.pending, q.sequence) && |q.pending| <= maxSize
    ensures var r := PushAll(maxSize, q, pushes);
            && IsTop(r.pending, q.pending + Items(q.sequence, pushes), maxSize)
            && r.sequence == q.sequence + |pushes| && Sequenced(q.pending + Items(q.sequence, pushes), r.sequence)
  {
    hide *;
    if pushes == [] {
      NothingPushed(maxSize, q);
    } else {
      var n := |pushes| - 1;
      var before := PushAll(maxSize, q, pushes[..n]);
      var x := Item(pushes[n].0, q.sequence + n, pushes[n].1);
      PushesKeepTop(maxSize, q, pushes[..n]);
      TopAfterPush(before.pending, q.pending + Items(q.sequence, pushes[..n]), maxSize, x);
      PushAllUnfolds(maxSize, q, pushes, before, x);
      AllUnfolds(q, pushes, x);
    }
  }

  lemma OutsideBelow(kept: set<Item>, all: set<Item>, m: nat, a: Item, b: Item)
    requires IsTop(kept, all, m) && a in all && a !in kept && b in kept
    ensures Less(a, b)
  {
    assert a in all - kept;
  }

  /** There is only one such set. */
  lemma TopUnique(x: set<Item>, y: set<Item>, all: set<Item>, m: nat)
    requires IsTop(x, all, m) && IsTop(y, all, m)
    ensures x == y
  {
    if x <= y {
      EqualWhenFull(x, y);
    } else if y <= x {
      EqualWhenFull(y, x);
    } else {
      var a :| a in x && a !in y;
      var b :| b in y && b !in x;
      OutsideBelow(y, all, m, a, b);
      OutsideBelow(x, all, m, b, a);
    }
  }
}
