/** How evenly the domain allocator goes round its pools, over all runs of its steps. */
module DomainFairness {
  import opened Numeric
  import opened DomainAllocator

  /** Consecutive attempts from the same pool, by whichever trials, go round its domains in order. */
  ghost predicate RoundRobin(probes: seq<Probe>) {
    && (forall i :: 0 <= i < |probes| ==> probes[i].pool.Valid() && probes[i].pool.Has(probes[i].domain))
    && forall i :: 0 <= i < |probes| - 1 && probes[i + 1].pool == probes[i].pool ==>
         probes[i + 1].domain == probes[i].pool.Next(probes[i].domain)
  }

  /** What the next attempt from `probe`'s pool would be on, were one to start now. */
  ghost predicate Resumes(s: State, probe: Probe) {
    probe.pool.Valid() && probe.pool.StartOf(s.file) == probe.pool.Next(probe.domain)
  }

  /** Where the last attempt stands with respect to the state file, by the phase of the trial
      inside the allocator lock. */
  ghost predicate CursorAgrees(s: State) {
    var t := if s.allocator.Some? then s.Of(s.allocator.value) else Idle;
    && (t.Scanning? ==> t.start == t.pool.StartOf(s.file))
    && (s.probes == [] ==> !t.Selected? && (t.Scanning? ==> t.offset == 0))
    && (s.probes != [] ==>
          var last := s.probes[|s.probes| - 1];
          if t.Scanning? && t.offset > 0 then
            t.pool.Valid() && last.pool == t.pool && last.domain == t.pool.Candidate(t.start, t.offset - 1)
          else if t.Selected? then last.pool == t.pool && last.domain == t.domain
          else Resumes(s, last))
  }

  ghost predicate FairState(s: State) {
    LocksAgree(s) && RoundRobin(s.probes) && CursorAgrees(s)
  }

  lemma FairKeptByTry(s: State, p: Pid)
    requires FairState(s)
    ensures RoundRobin(Step(s, TryNext(p)).probes) && CursorAgrees(Step(s, TryNext(p)))
  {
    var t := s.Of(p);
    if t.Scanning? && t.offset < t.pool.Count() {
      NextCandidate(t.pool, t.start, t.offset);
      if t.offset > 0 {
        NextCandidate(t.pool, t.start, t.offset - 1);
      }
      hide Pool.Candidate, Pool.Next, Pool.StartOf, HoldersAgree;
      assert s.allocator == Some(p);
    }
  }

  lemma FairKeptByWrite(s: State, p: Pid)
    requires FairState(s)
    ensures CursorAgrees(Step(s, WriteFile(p)))
  {
    var t := s.Of(p);
    hide HoldersAgree, RoundRobin;
    if t.Selected? {
      NextCandidate(t.pool, t.domain, 0);
      NextCandidate(t.pool, t.domain, 1);
      hide Pool.Candidate, Pool.Next;
      assert s.allocator == Some(p);
    }
  }

  lemma FairKeptByUnlock(s: State, p: Pid)
    requires FairState(s)
    ensures CursorAgrees(Step(s, UnlockAllocator(p)))
  {
    var t := s.Of(p);
    hide HoldersAgree;
    if t.Scanning? && t.offset == t.pool.Count() {
      NextCandidate(t.pool, t.start, t.offset - 1);
      NextCandidate(t.pool, t.start, 0);
      hide Pool.Candidate, Pool.Next, Pool.StartOf;
      assert s.allocator == Some(p);
    }
  }

  lemma FairKeptByOther(s: State, a: Action)
    requires FairState(s) && (a.Request? || a.LockAllocator? || a.ReadFile? || a.Release?)
    ensures CursorAgrees(Step(s, a))
  {
    hide Pool.Candidate, Pool.Next, Pool.StartOf, HoldersAgree, RoundRobin;
  }

  lemma ProbesKept(s: State, a: Action)
    requires !a.TryNext?
    ensures Step(s, a).probes == s.probes
  {
  }

  lemma FairKept(s: State, a: Action)
    requires FairState(s)
    ensures FairState(Step(s, a))
  {
    LocksAgreeKept(s, a);
    if !a.TryNext? { ProbesKept(s, a); }
    hide Step, LocksAgree, CursorAgrees, RoundRobin;
    match a
    case TryNext(p) => FairKeptByTry(s, p);
    case WriteFile(p) => FairKeptByWrite(s, p);
    case UnlockAllocator(p) => FairKeptByUnlock(s, p);
    case _ => FairKeptByOther(s, a);
  }

  lemma {:induction false} AlwaysFair(file: Option<int>, es: seq<Action>, n: nat)
    requires n <= |es|
    ensures FairState(StateAt(file, es, n))
  {
    hide Step;
    if n > 0 {
      hide FairState;
      AlwaysFair(file, es, n - 1);
      FairKept(StateAt(file, es, n - 1), es[n - 1]);
    }
  }

  lemma {:induction false} RoundRobinAdvances(probes: seq<Probe>, i: nat, m: nat)
    requires RoundRobin(probes) && i + m < |probes|
    requires forall j :: i <= j <= i + m ==> probes[j].pool == probes[i].pool
    ensures probes[i + m].domain == probes[i].pool.Candidate(probes[i].domain, m)
  {
    var pool, d := probes[i].pool, probes[i].domain;
    NextCandidate(pool, d, m);
    if m > 0 {
      RoundRobinAdvances(probes, i, m - 1);
      NextCandidate(pool, d, m - 1);
      assert probes[i + m - 1 + 1].pool == probes[i + m - 1].pool;
    }
  }

  /** Fairness: between two attempts on the same domain, in particular two allocations of it,
      every other domain of the pool was tried, and so either allocated or found held, provided
      only that pool was scanned in between. */
  lemma RoundRobinFair(file: Option<int>, es: seq<Action>, n: nat, i: nat, j: nat, d: int) returns (k: nat)
    requires n <= |es|
    requires var probes := StateAt(file, es, n).probes;
             && i < j < |probes| && probes[i].domain == probes[j].domain && probes[i].pool.Has(d)
             && forall m :: i <= m <= j ==> probes[m].pool == probes[i].pool
    ensures i <= k < j && k < |StateAt(file, es, n).probes| && StateAt(file, es, n).probes[k].domain == d
  {
    var probes := StateAt(file, es, n).probes;
    var pool, start := probes[i].pool, probes[i].domain;
    AlwaysFair(file, es, n);
    RoundRobinAdvances(probes, i, j - i);
    if j - i < pool.Count() {
      ScanVisitsOnce(pool, start, start, j - i);
    }
    var offset := OffsetOf(pool, start, d);
    ScanVisitsOnce(pool, start, d, offset);
    k := i + offset;
    RoundRobinAdvances(probes, i, offset);
  }

  // ---------------------------------------------------------------- which pools are fair

  /** A trial that runs alone from request to release. */
  function Solo(p: Pid, pool: Pool): seq<Action> {
    [Request(p, pool), LockAllocator(p), ReadFile(p), TryNext(p), WriteFile(p), UnlockAllocator(p), Release(p)]
  }

  ghost function Run(s: State, es: seq<Action>): State
    decreases |es|
  {
    if es == [] then s else Run(Step(s, es[0]), es[1..])
  }

  lemma {:induction false} RunIsStateAt(file: Option<int>, done: seq<Action>, es: seq<Action>)
    ensures Run(StateAt(file, done + es, |done|), es) == StateAt(file, done + es, |done| + |es|)
    decreases |es|
  {
    hide Step;
    if es != [] {
      assert done + es == (done + [es[0]]) + es[1..];
      RunIsStateAt(file, done + [es[0]], es[1..]);
    }
  }

  lemma {:induction false} RunAppend(s: State, xs: seq<Action>, ys: seq<Action>)
    ensures Run(s, xs + ys) == Run(Run(s, xs), ys)
    decreases |xs|
  {
    hide Step;
    if xs == [] {
      assert xs + ys == ys;
    } else {
      assert (xs + ys)[1..] == xs[1..] + ys;
      RunAppend(Step(s, xs[0]), xs[1..], ys);
    }
  }

  lemma SoloLocks(s: State, p: Pid, pool: Pool)
    requires pool.Valid() && s.Of(p).Idle? && s.allocator.None? && s.locks == map[]
    ensures Step(Step(Step(s, Request(p, pool)), LockAllocator(p)), ReadFile(p))
         == State(s.trials[p := Scanning(pool, pool.StartOf(s.file), 0)], Some(p), map[], s.file, s.probes)
  {
    hide Pool.StartOf;
    var s1 := Step(s, Request(p, pool));
    assert s1 == State(s.trials[p := Waiting(pool)], None, map[], s.file, s.probes);
    var s2 := Step(s1, LockAllocator(p));
    assert s2 == State(s.trials[p := Reading(pool)], Some(p), map[], s.file, s.probes);
  }

  lemma SoloSelects(trials: map<Pid, Trial>, p: Pid, pool: Pool, start: int, file: Option<int>, probes: seq<Probe>)
    requires pool.Valid() && pool.Has(start)
    ensures var scanning := State(trials[p := Scanning(pool, start, 0)], Some(p), map[], file, probes);
              Step(Step(scanning, TryNext(p)), WriteFile(p))
                == State(trials[p := Recorded(pool, start)], Some(p), map[start := p], Some(pool.Next(start)),
                         probes + [Probe(p, pool, start, false)])
  {
    NextCandidate(pool, start, 0);
    hide Pool.Candidate, Pool.Next;
    var s1 := Step(State(trials[p := Scanning(pool, start, 0)], Some(p), map[], file, probes), TryNext(p));
    assert s1
        == State(trials[p := Selected(pool, start)], Some(p), map[start := p], file,
                 probes + [Probe(p, pool, start, false)]);
  }

  lemma SoloReleases(trials: map<Pid, Trial>, p: Pid, pool: Pool, start: int, file: Option<int>, probes: seq<Probe>)
    ensures var held := State(trials[p := Recorded(pool, start)], Some(p), map[start := p], file, probes);
            Step(Step(held, UnlockAllocator(p)), Release(p)) == State(trials[p := Finished], None, map[], file, probes)
  {
    var held := State(trials[p := Recorded(pool, start)], Some(p), map[start := p], file, probes);
    var s1 := Step(held, UnlockAllocator(p));
    assert s1 == State(trials[p := Live(pool, start)], None, map[start := p], file, probes);
    assert map[start := p] - {start} == map[];
  }

  /** Alone and with nothing locked, a trial takes the first domain of the scan, leaves the cursor
      behind it and everything else as it was. */
  lemma SoloTrial(s: State, p: Pid, pool: Pool)
    requires pool.Valid() && s.Of(p).Idle? && s.allocator.None? && s.locks == map[]
    ensures var start := pool.StartOf(s.file);
              Run(s, Solo(p, pool))
                == State(s.trials[p := Finished], None, map[], Some(pool.Next(start)),
                         s.probes + [Probe(p, pool, start, false)])
  {
    hide Run, Step, Pool.Next, Pool.StartOf;
    var start := pool.StartOf(s.file);
    StartInPool(pool, s.file);
    SoloLocks(s, p, pool);
    SoloSelects(s.trials, p, pool, start, s.file, s.probes);
    SoloReleases(s.trials, p, pool, start, Some(pool.Next(start)), s.probes + [Probe(p, pool, start, false)]);
    RunSeven(s, Solo(p, pool));
  }

  lemma StartInPool(pool: Pool, file: Option<int>)
    requires pool.Valid()
    ensures pool.Has(pool.StartOf(file))
  {
  }

  lemma RunOne(s: State, es: seq<Action>)
    requires es != []
    ensures Run(s, es) == Run(Step(s, es[0]), es[1..])
  {
  }

  lemma RunSeven(s: State, es: seq<Action>)
    requires |es| == 7
    ensures Run(s, es)
         == Step(Step(Step(Step(Step(Step(Step(s, es[0]), es[1]), es[2]), es[3]), es[4]), es[5]), es[6])
  {
    hide Step;
    var s1 := Step(s, es[0]);
    var s2 := Step(s1, es[1]);
    var s3 := Step(s2, es[2]);
    var s4 := Step(s3, es[3]);
    var s5 := Step(s4, es[4]);
    var s6 := Step(s5, es[5]);
    RunOne(s, es);
    RunOne(s1, es[1..]);
    RunOne(s2, es[1..][1..]);
    RunOne(s3, es[1..][1..][1..]);
    RunOne(s4, es[1..][1..][1..][1..]);
    RunOne(s5, es[1..][1..][1..][1..][1..]);
    RunOne(s6, es[1..][1..][1..][1..][1..][1..]);
    assert es[1..][1..][1..][1..][1..][1..][1..] == [];
  }

  /** No trial is under way, and those from `p` on have not started. */
  ghost predicate Quiet(s: State, p: Pid) {
    s.allocator.None? && s.locks == map[] && forall q: Pid :: q >= p ==> s.Of(q).Idle?
  }

  lemma SoloStaysQuiet(s: State, p: Pid, pool: Pool)
    requires pool.Valid() && Quiet(s, p)
    ensures var r := Run(s, Solo(p, pool));
            && Quiet(r, p + 1) && r.file == Some(pool.Next(pool.StartOf(s.file)))
            && r.probes == s.probes + [Probe(p, pool, pool.StartOf(s.file), false)]
  {
    hide Run, Solo, Pool.Next, Pool.StartOf;
    assert s.Of(p).Idle?;
    SoloTrial(s, p, pool);
    assert forall q: Pid :: q > p ==> Run(s, Solo(p, pool)).Of(q) == s.Of(q);
  }

  /** `m` trials of one pool, one after the other. */
  function Solos(p: Pid, pool: Pool, m: nat): seq<Action> {
    if m == 0 then [] else Solos(p, pool, m - 1) + Solo(p + m - 1, pool)
  }

  /** The attempts since `before` are on domains of `pool`. */
  ghost predicate OnlyAdds(before: seq<Probe>, after: seq<Probe>, pool: Pool) {
    before <= after && forall i :: |before| <= i < |after| ==> pool.Has(after[i].domain)
  }

  lemma {:induction false} SolosAdvance(s: State, p: Pid, pool: Pool, c: int, m: nat)
    requires pool.Valid() && pool.Has(c) && Quiet(s, p) && s.file == Some(c)
    ensures var r := Run(s, Solos(p, pool, m));
            && Quiet(r, p + m) && r.file == Some(pool.Candidate(c, m)) && OnlyAdds(s.probes, r.probes, pool)
  {
    hide Solo, Quiet, Pool.Candidate, Pool.Next;
    NextCandidate(pool, c, 0);
    if m > 0 {
      SolosAdvance(s, p, pool, c, m - 1);
      NextCandidate(pool, c, m - 1);
      RunAppend(s, Solos(p, pool, m - 1), Solo(p + m - 1, pool));
      SoloStaysQuiet(Run(s, Solos(p, pool, m - 1)), p + m - 1, pool);
    }
  }

  /** Any two attempts of one pool on one domain have an attempt on each domain of that pool, by
      whichever pool, from the first on and before the second. */
  ghost predicate Fair(probes: seq<Probe>) {
    forall i, j, d ::
      0 <= i < j < |probes| && probes[i].pool == probes[j].pool && probes[i].domain == probes[j].domain
      && probes[i].pool.Has(d) ==>
        TriedBetween(probes, i, j, d)
  }

  ghost predicate TriedBetween(probes: seq<Probe>, i: int, j: int, d: int)
    requires 0 <= i < j < |probes|
  {
    exists k :: i <= k < j && probes[k].domain == d
  }

  ghost predicate RequestsFrom(es: seq<Action>, pools: set<Pool>) {
    forall i :: 0 <= i < |es| && es[i].Request? ==> es[i].pool in pools
  }

  /** Every run of trials over these pools is fair, whatever the state file held. */
  ghost predicate FairOver(pools: set<Pool>) {
    forall file, es :: RequestsFrom(es, pools) ==> Fair(StateAt(file, es, |es|).probes)
  }

  /** The pools among which `valid` ones are all the same, or are all single domains. */
  ghost predicate OneCycle(pools: set<Pool>) {
    || (forall p, q :: p in pools && q in pools && p.Valid() && q.Valid() ==> p == q)
    || (forall p :: p in pools && p.Valid() ==> p.Count() == 1)
  }

  /** A trial that may still scan does so over a requested pool. */
  predicate Uses(t: Trial, pools: set<Pool>) {
    t.Waiting? || t.Reading? || t.Scanning? ==> t.pool in pools && t.pool.Valid()
  }

  ghost predicate StaysIn(s: State, pools: set<Pool>) {
    && (forall p | p in s.trials :: Uses(s.trials[p], pools))
    && (forall i :: 0 <= i < |s.probes| ==>
          s.probes[i].pool in pools && s.probes[i].pool.Valid() && s.probes[i].pool.Has(s.probes[i].domain))
  }

  lemma StaysInKept(s: State, a: Action, pools: set<Pool>)
    requires StaysIn(s, pools) && LocksAgree(s) && (a.Request? ==> a.pool in pools)
    ensures StaysIn(Step(s, a), pools)
  {
    var t := s.Of(a.p);
    if t.Scanning? {
      NextCandidate(t.pool, t.start, t.offset);
    }
    hide Pool.Candidate, Pool.Next, Pool.StartOf, AllocatorAgrees, HoldersAgree;
  }

  lemma {:induction false} AlwaysStaysIn(file: Option<int>, es: seq<Action>, n: nat, pools: set<Pool>)
    requires n <= |es| && RequestsFrom(es, pools)
    ensures StaysIn(StateAt(file, es, n), pools)
  {
    hide Step;
    if n > 0 {
      hide StaysIn, LocksAgree;
      AlwaysStaysIn(file, es, n - 1, pools);
      LocksAlwaysAgree(file, es, n - 1);
      StaysInKept(StateAt(file, es, n - 1), es[n - 1], pools);
    }
  }

  lemma OneCycleFair(pools: set<Pool>, file: Option<int>, es: seq<Action>)
    requires OneCycle(pools) && RequestsFrom(es, pools)
    ensures Fair(StateAt(file, es, |es|).probes)
  {
    var probes := StateAt(file, es, |es|).probes;
    AlwaysStaysIn(file, es, |es|, pools);
    hide StateAt;
    forall i, j, d |
      && 0 <= i < j < |probes| && probes[i].pool == probes[j].pool && probes[i].domain == probes[j].domain
      && probes[i].pool.Has(d) ensures TriedBetween(probes, i, j, d)
    {
      if probes[i].pool.Count() == 1 {
        assert probes[i].domain == d;
      } else {
        var k := RoundRobinFair(file, es, |es|, i, j, d);
      }
    }
  }

  /** `pool`'s first and last, the others' in between. */
  function Sandwich(pool: Pool, other: Pool, m: nat): seq<Action> {
    ((Solo(0, pool) + Solo(1, other)) + Solos(2, other, m)) + Solo(m + 2, pool)
  }

  lemma RunSandwich(s: State, pool: Pool, other: Pool, m: nat)
    ensures Run(s, Sandwich(pool, other, m))
         == Run(Run(Run(Run(s, Solo(0, pool)), Solo(1, other)), Solos(2, other, m)), Solo(m + 2, pool))
  {
    hide Run, Solo, Solos;
    var first, second, rest, last := Solo(0, pool), Solo(1, other), Solos(2, other, m), Solo(m + 2, pool);
    RunAppend(s, (first + second) + rest, last);
    RunAppend(s, first + second, rest);
    RunAppend(s, first, second);
  }

  lemma SkipsDomain(probes: seq<Probe>, first: Probe, second: Probe, last: Probe, other: Pool, d: int)
    requires first.pool == last.pool && first.domain == last.domain != d && first.pool.Has(d)
    requires !other.Has(d) && other.Has(second.domain) && OnlyAdds([first, second], probes, other)
    ensures !Fair(probes + [last])
  {
    var all := probes + [last];
    assert all[0] == probes[0] == [first, second][0] && all[1] == probes[1] == [first, second][1];
    assert !TriedBetween(all, 0, |probes|, d);
  }

  lemma StartAtCursor(pool: Pool, x: int)
    requires pool.Has(x)
    ensures pool.StartOf(Some(x)) == x
  {
  }

  lemma NextInPool(pool: Pool, d: int)
    requires pool.Valid() && pool.Has(d)
    ensures pool.Has(pool.Next(d))
  {
    NextCandidate(pool, d, 0);
    NextCandidate(pool, d, 1);
  }

  lemma SandwichProbes(s: State, pool: Pool, other: Pool, x: int, m: nat) returns (c: int, middle: seq<Probe>)
    requires pool.Valid() && other.Valid() && pool.Has(x) && Quiet(s, 0) && s.file == Some(x)
    requires pool.StartOf(Some(other.Candidate(other.Next(other.StartOf(Some(pool.Next(x)))), m))) == x
    ensures other.Has(c)
    ensures OnlyAdds((s.probes + [Probe(0, pool, x, false)]) + [Probe(1, other, c, false)], middle, other)
    ensures Run(s, Sandwich(pool, other, m)).probes == middle + [Probe(m + 2, pool, x, false)]
  {
    hide *;
    c := other.StartOf(Some(pool.Next(x)));
    StartAtCursor(pool, x);
    StartInPool(other, Some(pool.Next(x)));
    NextInPool(other, c);
    RunSandwich(s, pool, other, m);
    var s1 := Run(s, Solo(0, pool));
    var s2 := Run(s1, Solo(1, other));
    var s3 := Run(s2, Solos(2, other, m));
    middle := s3.probes;
    SoloStaysQuiet(s, 0, pool);
    SoloStaysQuiet(s1, 1, other);
    SolosAdvance(s2, 2, other, other.Next(c), m);
    SoloStaysQuiet(s3, m + 2, pool);
  }

  /** In the sandwich `pool` tries `x` twice and `d` not at all. */
  lemma SandwichUnfair(s: State, pool: Pool, other: Pool, x: int, d: int, m: nat)
    requires pool.Valid() && other.Valid() && pool.Has(x) && pool.Has(d) && d != x && !other.Has(d)
    requires pool.StartOf(Some(other.Candidate(other.Next(other.StartOf(Some(pool.Next(x)))), m))) == x
    requires Quiet(s, 0) && s.file == Some(x) && s.probes == []
    ensures !Fair(Run(s, Sandwich(pool, other, m)).probes)
  {
    hide *;
    var c, middle := SandwichProbes(s, pool, other, x, m);
    var first, second, last := Probe(0, pool, x, false), Probe(1, other, c, false), Probe(m + 2, pool, x, false);
    assert ([] + [first]) + [second] == [first, second];
    SkipsDomain(middle, first, second, last, other, d);
  }

  lemma SandwichRequests(pool: Pool, other: Pool, m: nat)
    ensures RequestsFrom(Sandwich(pool, other, m), {pool, other})
  {
    SolosRequest(2, other, m);
    hide Solos;
  }

  lemma RunFromStart(file: Option<int>, es: seq<Action>)
    ensures StateAt(file, es, |es|) == Run(State(map[], None, map[], file, []), es)
  {
    hide Run, Step;
    RunIsStateAt(file, [], es);
    assert [] + es == es;
  }

  lemma {:induction false} SolosRequest(p: Pid, pool: Pool, m: nat)
    ensures RequestsFrom(Solos(p, pool, m), {pool})
  {
    if m > 0 {
      SolosRequest(p, pool, m - 1);
    }
  }

  lemma OverlapTurnsBack(p: Pool, q: Pool, x: int) returns (pool: Pool, other: Pool, d: int, m: nat)
    requires p.Valid() && q.Valid() && p != q && p.Has(x) && q.Has(x)
    ensures {pool, other} == {p, q} && pool.Has(d) && !other.Has(d)
    ensures pool.StartOf(Some(other.Candidate(other.Next(other.StartOf(Some(pool.Next(x)))), m))) == x
  {
    pool, other := p, q;
    if q.min <= p.min && p.max <= q.max {
      pool, other := q, p;
    }
    d := if pool.min < other.min then pool.min else pool.max;
    var c := other.StartOf(Some(pool.Next(x)));
    NextCandidate(other, c, 0);
    NextCandidate(other, c, 1);
    hide Pool.Candidate, Pool.Next;
    m := OffsetOf(other, other.Next(c), x);
    ScanVisitsOnce(other, other.Next(c), x, m);
  }

  lemma DisjointTurnsBack(p: Pool, q: Pool)
    requires p.Valid() && q.Valid() && (p.max < q.min || q.max < p.min)
    ensures p.StartOf(Some(q.Candidate(q.Next(q.StartOf(Some(p.Next(p.min)))), 0))) == p.min
  {
    var c := q.StartOf(Some(p.Next(p.min)));
    NextCandidate(q, c, 0);
    NextCandidate(q, c, 1);
    NextCandidate(q, q.Next(c), 0);
  }

  /** Two different pools, the first with more than one domain, have an unfair run: the file is
      shared by all pools, so the trials of one pool turn the cursor of the other back. */
  lemma MixedPoolsUnfair(p: Pool, q: Pool) returns (file: Option<int>, es: seq<Action>)
    requires p.Valid() && q.Valid() && p != q && p.Count() > 1
    ensures RequestsFrom(es, {p, q}) && !Fair(StateAt(file, es, |es|).probes)
  {
    hide Run, Sandwich, StateAt, Fair, Pool.Candidate, Pool.Next, Pool.StartOf;
    var pool, other, d, m := p, q, p.min + 1, 0;
    var x := if p.min >= q.min then p.min else q.min;
    if p.Has(x) && q.Has(x) {
      pool, other, d, m := OverlapTurnsBack(p, q, x);
    } else {
      x := p.min;
      DisjointTurnsBack(p, q);
    }
    file, es := Some(x), Sandwich(pool, other, m);
    SandwichRequests(pool, other, m);
    RunFromStart(file, es);
    SandwichUnfair(State(map[], None, map[], file, []), pool, other, x, d, m);
  }

  /** The exact condition for fairness: a set of pools is served fairly in every run exactly when
      its valid pools are one and the same, or have one domain each. */
  lemma RoundRobinFairIff(pools: set<Pool>)
    ensures FairOver(pools) <==> OneCycle(pools)
  {
    if OneCycle(pools) {
      forall file, es | RequestsFrom(es, pools) ensures Fair(StateAt(file, es, |es|).probes) {
        OneCycleFair(pools, file, es);
      }
    } else {
      var p :| p in pools && p.Valid() && p.Count() != 1;
      var a, b :| a in pools && b in pools && a.Valid() && b.Valid() && a != b;
      var q := if a == p then b else a;
      var file, es := MixedPoolsUnfair(p, q);
      hide StateAt, Fair;
      assert RequestsFrom(es, pools);
    }
  }

  // ---------------------------------------------------------------- a trial that nobody disturbs

  function Enters(p: Pid, pool: Pool): seq<Action> {
    [Request(p, pool), LockAllocator(p), ReadFile(p)]
  }

  function Takes(p: Pid): seq<Action> {
    [TryNext(p), WriteFile(p), UnlockAllocator(p)]
  }

  function Tries(p: Pid, m: nat): seq<Action> {
    if m == 0 then [] else [TryNext(p)] + Tries(p, m - 1)
  }

  /** The attempts on `m` held domains, from an offset on. */
  function HeldProbes(p: Pid, pool: Pool, start: int, offset: nat, m: nat): seq<Probe>
    requires pool.Valid()
    decreases m
  {
    if m == 0 then []
    else [Probe(p, pool, pool.Candidate(start, offset), true)] + HeldProbes(p, pool, start, offset + 1, m - 1)
  }

  /** The state while `p` scans. */
  function ScanState(s: State, p: Pid, pool: Pool, start: int, offset: nat, probes: seq<Probe>): State {
    State(s.trials[p := Scanning(pool, start, offset)], Some(p), s.locks, s.file, probes)
  }

  lemma EntersScan(s: State, p: Pid, pool: Pool)
    requires pool.Valid() && s.Of(p).Idle? && s.allocator.None?
    ensures Run(s, Enters(p, pool))
         == ScanState(s, p, pool, pool.StartOf(s.file), 0, s.probes)
  {
    var s1 := Step(s, Request(p, pool));
    assert s1 == State(s.trials[p := Waiting(pool)], None, s.locks, s.file, s.probes);
    var s2 := Step(s1, LockAllocator(p));
    assert s2 == State(s.trials[p := Reading(pool)], Some(p), s.locks, s.file, s.probes);
    var s3 := Step(s2, ReadFile(p));
    assert s3 == ScanState(s, p, pool, pool.StartOf(s.file), 0, s.probes);
    var es := Enters(p, pool);
    hide Step, ScanState;
    RunOne(s, es);
    RunOne(s1, es[1..]);
    RunOne(s2, es[1..][1..]);
    assert es[1..][1..][1..] == [];
  }

  lemma TryHeld(s: State, p: Pid, pool: Pool, start: int, offset: nat, probes: seq<Probe>)
    requires pool.Valid() && offset < pool.Count() && pool.Candidate(start, offset) in s.locks
    ensures Step(ScanState(s, p, pool, start, offset, probes), TryNext(p))
         == ScanState(s, p, pool, start, offset + 1, probes + [Probe(p, pool, pool.Candidate(start, offset), true)])
  {
    hide Pool.Candidate;
  }

  lemma {:induction false} ScanSkips(s: State, p: Pid, pool: Pool, start: int, offset: nat, m: nat, probes: seq<Probe>)
    requires pool.Valid() && offset + m <= pool.Count()
    requires forall j: nat :: offset <= j < offset + m ==> pool.Candidate(start, j) in s.locks
    ensures Run(ScanState(s, p, pool, start, offset, probes), Tries(p, m))
         == ScanState(s, p, pool, start, offset + m, probes + HeldProbes(p, pool, start, offset, m))
    decreases m
  {
    hide Step, ScanState, Pool.Candidate;
    if m == 0 {
      assert probes + [] == probes;
    } else {
      var first := Probe(p, pool, pool.Candidate(start, offset), true);
      TryHeld(s, p, pool, start, offset, probes);
      ScanSkips(s, p, pool, start, offset + 1, m - 1, probes + [first]);
      assert (probes + [first]) + HeldProbes(p, pool, start, offset + 1, m - 1)
          == probes + HeldProbes(p, pool, start, offset, m);
      assert Tries(p, m)[1..] == Tries(p, m - 1);
    }
  }

  lemma ScansThrough(s: State, p: Pid, pool: Pool, start: int, m: nat, last: seq<Action>)
    requires pool.Valid() && s.Of(p).Idle? && s.allocator.None? && m <= pool.Count() && start == pool.StartOf(s.file)
    requires forall j: nat :: j < m ==> pool.Candidate(start, j) in s.locks
    ensures Run(s, (Enters(p, pool) + Tries(p, m)) + last)
         == Run(ScanState(s, p, pool, start, m, s.probes + HeldProbes(p, pool, start, 0, m)), last)
  {
    hide *;
    RunAppend(s, Enters(p, pool) + Tries(p, m), last);
    RunAppend(s, Enters(p, pool), Tries(p, m));
    EntersScan(s, p, pool);
    ScanSkips(s, p, pool, start, 0, m, s.probes);
  }

  lemma Gains(s: State, p: Pid, pool: Pool, start: int, offset: nat, probes: seq<Probe>)
    requires pool.Valid() && offset < pool.Count() && pool.Candidate(start, offset) !in s.locks
    ensures var d := pool.Candidate(start, offset);
            Run(ScanState(s, p, pool, start, offset, probes), Takes(p))
              == State(s.trials[p := Live(pool, d)], None, s.locks[d := p], Some(pool.Next(d)),
                       probes + [Probe(p, pool, d, false)])
  {
    hide Pool.Candidate, Pool.Next;
    var d := pool.Candidate(start, offset);
    var tried := probes + [Probe(p, pool, d, false)];
    var s0 := ScanState(s, p, pool, start, offset, probes);
    var s1 := Step(s0, TryNext(p));
    assert s1 == State(s.trials[p := Selected(pool, d)], Some(p), s.locks[d := p], s.file, tried);
    var s2 := Step(s1, WriteFile(p));
    assert s2 == State(s.trials[p := Recorded(pool, d)], Some(p), s.locks[d := p], Some(pool.Next(d)), tried);
    var s3 := Step(s2, UnlockAllocator(p));
    assert s3 == State(s.trials[p := Live(pool, d)], None, s.locks[d := p], Some(pool.Next(d)), tried);
    var es := Takes(p);
    hide Step, ScanState;
    RunOne(s0, es);
    RunOne(s1, es[1..]);
    RunOne(s2, es[1..][1..]);
    assert es[1..][1..][1..] == [];
  }

  /** Undisturbed, a trial passes over the held domains and takes the first free one of the scan, whatever
      the others hold; it leaves the cursor behind that domain and the allocator lock free. */
  lemma TakesFirstFree(s: State, p: Pid, pool: Pool, m: nat)
    requires pool.Valid() && s.Of(p).Idle? && s.allocator.None? && m < pool.Count()
    requires var start := pool.StartOf(s.file);
             && (forall j: nat :: j < m ==> pool.Candidate(start, j) in s.locks)
             && pool.Candidate(start, m) !in s.locks
    ensures var start := pool.StartOf(s.file);
            var d := pool.Candidate(start, m);
            Run(s, (Enters(p, pool) + Tries(p, m)) + Takes(p))
              == State(s.trials[p := Live(pool, d)], None, s.locks[d := p], Some(pool.Next(d)),
                       (s.probes + HeldProbes(p, pool, start, 0, m)) + [Probe(p, pool, d, false)])
  {
    hide Run, ScanState, Enters, Takes, Tries, HeldProbes, Pool.Candidate, Pool.Next, Pool.StartOf;
    var start := pool.StartOf(s.file);
    ScansThrough(s, p, pool, start, m, Takes(p));
    Gains(s, p, pool, start, m, s.probes + HeldProbes(p, pool, start, 0, m));
  }

  lemma GivesUp(s: State, p: Pid, pool: Pool, start: int, probes: seq<Probe>)
    requires pool.Valid()
    ensures Run(ScanState(s, p, pool, start, pool.Count(), probes), [UnlockAllocator(p)])
         == State(s.trials[p := Failed(pool)], None, s.locks, s.file, probes)
  {
    var scanned := ScanState(s, p, pool, start, pool.Count(), probes);
    assert Step(scanned, UnlockAllocator(p)) == State(s.trials[p := Failed(pool)], None, s.locks, s.file, probes);
    hide Step, ScanState;
    RunOne(scanned, [UnlockAllocator(p)]);
    assert [UnlockAllocator(p)][1..] == [];
  }

  lemma AllHeld(s: State, pool: Pool, start: int)
    requires pool.Valid() && pool.Has(start) && forall d :: pool.Has(d) ==> d in s.locks
    ensures forall j: nat :: j < pool.Count() ==> pool.Candidate(start, j) in s.locks
  {
    forall j: nat | j < pool.Count() ensures pool.Candidate(start, j) in s.locks {
      NextCandidate(pool, start, j);
    }
  }

  /** Undisturbed, with every domain of its pool held, a trial tries each of them once, fails, frees the
      allocator lock, and leaves the locks and the file as they were. */
  lemma FailsWhenExhausted(s: State, p: Pid, pool: Pool)
    requires pool.Valid() && s.Of(p).Idle? && s.allocator.None? && forall d :: pool.Has(d) ==> d in s.locks
    ensures var n := pool.Count();
            Run(s, (Enters(p, pool) + Tries(p, n)) + [UnlockAllocator(p)])
              == State(s.trials[p := Failed(pool)], None, s.locks, s.file,
                       s.probes + HeldProbes(p, pool, pool.StartOf(s.file), 0, n))
  {
    var n, start := pool.Count(), pool.StartOf(s.file);
    StartInPool(pool, s.file);
    AllHeld(s, pool, start);
    hide *;
    ScansThrough(s, p, pool, start, n, [UnlockAllocator(p)]);
    GivesUp(s, p, pool, start, s.probes + HeldProbes(p, pool, start, 0, n));
  }
}
