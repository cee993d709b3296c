/** The deadline heap under the queue of sim_drive_sensor_adapter.py: a binary min-heap in an
    array, ordered by release time and then by arrival. */
module DeadlineHeap {
  datatype Measurement = Measurement(stamp: real, payload: int)

  /** A queued measurement. Sequence numbers are never reused, so no two items are equal. */
  datatype Item = Item(release: real, sequence: nat, message: Measurement)

  predicate Less(a: Item, b: Item) {
    a.release < b.release || (a.release == b.release && a.sequence < b.sequence)
  }

  /** `k` is a child of `p` in the heap's tree. */
  predicate Edge(p: int, k: int) {
    0 <= p && (k == 2 * p + 1 || k == 2 * p + 2)
  }

  ghost predicate Heap(h: seq<Item>) {
    forall p, k :: Edge(p, k) && k < |h| ==> !Less(h[k], h[p])
  }

  /** Grandparents are in order with grandchildren, across `i`. */
  ghost predicate Bridged(h: seq<Item>, i: int) {
    forall p, k :: Edge(p, i) && Edge(i, k) && k < |h| ==> !Less(h[k], h[p])
  }

  /** A heap but for the edge above `i`. */
  ghost predicate HeapButAbove(h: seq<Item>, i: int) {
    (forall p, k :: Edge(p, k) && k < |h| && k != i ==> !Less(h[k], h[p])) && Bridged(h, i)
  }

  /** A heap but for the edges below `i`. */
  ghost predicate HeapButBelow(h: seq<Item>, i: int) {
    (forall p, k :: Edge(p, k) && k < |h| && p != i ==> !Less(h[k], h[p])) && Bridged(h, i)
  }

  lemma NotLessTransitive(a: Item, b: Item, c: Item)
    requires !Less(b, a) && !Less(c, b)
    ensures !Less(c, a)
  {
  }

  function Swap(h: seq<Item>, i: nat, j: nat): (g: seq<Item>)
    requires i < |h| && j < |h|
    ensures |g| == |h| && g[i] == h[j] && g[j] == h[i]
    ensures forall k :: 0 <= k < |h| && k != i && k != j ==> g[k] == h[k]
  {
    h[i := h[j]][j := h[i]]
  }

  lemma SwapPermutes(h: seq<Item>, i: nat, j: nat)
    requires i < |h| && j < |h|
    ensures multiset(Swap(h, i, j)) == multiset(h)
  {
  }

  lemma RaiseKeeps(h: seq<Item>, p: nat, i: nat)
    requires Edge(p, i) && i < |h| && HeapButAbove(h, i) && Less(h[i], h[p])
    ensures HeapButAbove(Swap(h, i, p), p)
  {
    hide Less;
    var g := Swap(h, i, p);
    assert !Less(h[p], h[i]) by { LessAsymmetric(h[i], h[p]); }
    forall q, k | Edge(q, k) && k < |g| && k != p ensures !Less(g[k], g[q]) {
      if q == p && k != i {
        NotLessTransitive(h[i], h[p], h[k]);
      } else if q == i {
        assert Edge(p, i) && Edge(i, k);
      }
    }
    forall q, k | Edge(q, p) && Edge(p, k) && k < |g| ensures !Less(g[k], g[q]) {
      assert !Less(h[p], h[q]);
      if k != i {
        NotLessTransitive(h[q], h[p], h[k]);
      }
    }
  }

  lemma LessAsymmetric(a: Item, b: Item)
    requires Less(a, b)
    ensures !Less(b, a)
  {
  }

  lemma RaiseDone(h: seq<Item>, i: nat)
    requires i < |h| && HeapButAbove(h, i)
    requires forall p :: Edge(p, i) ==> !Less(h[i], h[p])
    ensures Heap(h)
  {
    hide Less;
  }

  /** The smaller child of `i`. */
  function SmallerChild(h: seq<Item>, i: nat): (c: nat)
    requires 2 * i + 1 < |h|
    ensures Edge(i, c) && c < |h|
    ensures forall k :: Edge(i, k) && k < |h| ==> !Less(h[k], h[c])
  {
    if 2 * i + 2 < |h| && Less(h[2 * i + 2], h[2 * i + 1]) then 2 * i + 2 else 2 * i + 1
  }

  lemma LowerKeeps(h: seq<Item>, i: nat, c: nat)
    requires i < |h| && 2 * i + 1 < |h| && c == SmallerChild(h, i) && HeapButBelow(h, i) && Less(h[c], h[i])
    ensures HeapButBelow(Swap(h, i, c), c)
  {
    hide Less, SmallerChild;
    var g := Swap(h, i, c);
    assert !Less(h[i], h[c]) by { LessAsymmetric(h[c], h[i]); }
    forall q, k | Edge(q, k) && k < |g| && q != c ensures !Less(g[k], g[q]) {
      if k == i {
        assert Edge(q, i) && Edge(i, c);
      }
    }
    forall q, k | Edge(q, c) && Edge(c, k) && k < |g| ensures !Less(g[k], g[q]) {
      assert q == i;
    }
  }

  lemma LowerDone(h: seq<Item>, i: nat)
    requires i < |h| && HeapButBelow(h, i) && (2 * i + 1 < |h| ==> !Less(h[SmallerChild(h, i)], h[i]))
    ensures Heap(h)
  {
    hide Less;
    forall p, k | Edge(p, k) && k < |h| ensures !Less(h[k], h[p]) {
      if p == i {
        NotLessTransitive(h[i], h[SmallerChild(h, i)], h[k]);
      }
    }
  }

  lemma {:induction false} RootIsLeast(h: seq<Item>, k: nat)
    requires Heap(h) && k < |h|
    ensures !Less(h[k], h[0])
  {
    if k > 0 {
      var p := (k - 1) / 2;
      assert Edge(p, k);
      RootIsLeast(h, p);
      NotLessTransitive(h[0], h[p], h[k]);
    }
  }

  method Exchange(a: array<Item>, n: nat, i: nat, j: nat)
    requires i < n && j < n && n <= a.Length
    modifies a
    ensures a[..n] == Swap(old(a[..n]), i, j) && a[n..] == old(a[n..])
    ensures multiset(a[..n]) == old(multiset(a[..n]))
  {
    SwapPermutes(a[..n], i, j);
    a[i], a[j] := a[j], a[i];
  }

  /** Moves the item at `start` towards the root. */
  method SiftUp(a: array<Item>, n: nat, start: nat)
    requires start < n <= a.Length && HeapButAbove(a[..n], start)
    modifies a
    ensures Heap(a[..n]) && multiset(a[..n]) == old(multiset(a[..n])) && a[n..] == old(a[n..])
  {
    hide Heap, HeapButAbove, Less;
    var i: nat := start;
    while i > 0
      invariant i < n && HeapButAbove(a[..n], i)
      invariant multiset(a[..n]) == old(multiset(a[..n])) && a[n..] == old(a[n..])
    {
      var p := (i - 1) / 2;
      if !Less(a[i], a[p]) {
        RaiseDone(a[..n], i);
        return;
      }
      RaiseKeeps(a[..n], p, i);
      Exchange(a, n, i, p);
      i := p;
    }
    RaiseDone(a[..n], i);
  }

  /** Moves the item at the root towards the leaves. */
  method SiftDown(a: array<Item>, n: nat)
    requires 0 < n <= a.Length && HeapButBelow(a[..n], 0)
    modifies a
    ensures Heap(a[..n]) && multiset(a[..n]) == old(multiset(a[..n])) && a[n..] == old(a[n..])
  {
    hide Heap, HeapButBelow, Less;
    var i: nat := 0;
    while 2 * i + 1 < n
      invariant i < n && HeapButBelow(a[..n], i)
      invariant multiset(a[..n]) == old(multiset(a[..n])) && a[n..] == old(a[n..])
      decreases n - i
    {
      var c := 2 * i + 1;
      if c + 1 < n && Less(a[c + 1], a[c]) {
        c := c + 1;
      }
      assert c == SmallerChild(a[..n], i);
      if !Less(a[c], a[i]) {
        LowerDone(a[..n], i);
        return;
      }
      LowerKeeps(a[..n], i, c);
      Exchange(a, n, i, c);
      i := c;
    }
    LowerDone(a[..n], i);
  }

  /** heappush on the first `n` slots. */
  method HeapPush(a: array<Item>, n: nat, x: Item)
    requires n < a.Length && Heap(a[..n])
    modifies a
    ensures Heap(a[..n + 1]) && multiset(a[..n + 1]) == old(multiset(a[..n])) + multiset{x}
  {
    hide Less;
    a[n] := x;
    assert a[..n + 1] == old(a[..n]) + [x];
    assert HeapButAbove(a[..n + 1], n);
    SiftUp(a, n + 1, n);
  }

  lemma RootReplaced(h: seq<Item>, x: Item)
    requires h != [] && Heap(h)
    ensures HeapButBelow(h[0 := x], 0)
  {
    hide Less;
  }

  lemma PrefixHeap(h: seq<Item>, n: nat)
    requires n <= |h| && Heap(h)
    ensures Heap(h[..n])
  {
    hide Less;
  }

  lemma RootRemoved(h: seq<Item>)
    requires |h| > 1
    ensures multiset(h[..|h| - 1][0 := h[|h| - 1]]) + multiset{h[0]} == multiset(h)
  {
    var n := |h| - 1;
    assert h == [h[0]] + h[1..n] + [h[n]];
    assert h[..n][0 := h[n]] == [h[n]] + h[1..n];
  }

  /** heappop on the first `n` slots. */
  method HeapPop(a: array<Item>, n: nat) returns (x: Item)
    requires 0 < n <= a.Length && Heap(a[..n])
    modifies a
    ensures Heap(a[..n - 1]) && multiset(a[..n - 1]) + multiset{x} == old(multiset(a[..n]))
    ensures x == old(a[0]) && forall y :: y in old(multiset(a[..n])) ==> !Less(y, x)
  {
    hide Less, Heap, HeapButBelow;
    ghost var h := a[..n];
    x := a[0];
    forall y | y in multiset(h) ensures !Less(y, x) {
      var k :| 0 <= k < n && h[k] == y;
      RootIsLeast(h, k);
    }
    var last := a[n - 1];
    PrefixHeap(h, n - 1);
    assert h[..n - 1] == a[..n - 1];
    if n > 1 {
      RootRemoved(h);
      RootReplaced(h[..n - 1], last);
      a[0] := last;
      assert a[..n - 1] == h[..n - 1][0 := last];
      SiftDown(a, n - 1);
    } else {
      assert h == [x] && a[..n - 1] == [];
    }
  }
}
