/** The evaluation domain allocator of isolation.py, as the interleaved steps of any number of
    trials over the allocator lock, the domain locks and the next-domain file. Domain locks are
    taken only under the allocator lock but released without it. */
module DomainAllocator {
  import opened Numeric

  type Pid = nat

  datatype Pool = Pool(min: int, max: int) {
    /** The check whose failure raises `ValueError` before any lock is touched. */
    predicate Valid() {
      1 <= min <= max <= 232
    }
    predicate Has(d: int) {
      min <= d <= max
    }
    function Count(): int {
      max - min + 1
    }
    function Candidate(start: int, offset: int): int
      requires Valid()
    {
      min + (start - min + offset) % Count()
    }
    function Next(d: int): int
      requires Valid()
    {
      min + (d - min + 1) % Count()
    }
    /** Where a scan starts, given what the state file holds: `None` when it is missing or does
        not parse. */
    function StartOf(file: Option<int>): int {
      if file.Some? && Has(file.value) then file.value else min
    }
  }

  datatype Trial =
    | Idle
    | Rejected
    | Waiting(pool: Pool)
    | Reading(pool: Pool)
    | Scanning(pool: Pool, start: int, offset: nat)
    | Selected(pool: Pool, domain: int)
    | Recorded(pool: Pool, domain: int)
    | Live(pool: Pool, domain: int)
    | Failed(pool: Pool)
    | Finished
  {
    /** Inside the allocator lock. */
    predicate Allocating() {
      Reading? || Scanning? || Selected? || Recorded?
    }
    predicate Holding() {
      Selected? || Recorded? || Live?
    }
  }

  /** One non-blocking attempt on a domain lock. */
  datatype Probe = Probe(pid: Pid, pool: Pool, domain: int, held: bool)

  /** `probes` is a history variable. */
  datatype State = State(
    trials: map<Pid, Trial>, allocator: Option<Pid>, locks: map<int, Pid>, file: Option<int>, probes: seq<Probe>)
  {
    function Of(p: Pid): Trial {
      if p in trials then trials[p] else Idle
    }
    function Set(p: Pid, t: Trial): State {
      this.(trials := trials[p := t])
    }
  }

  datatype Action =
    | Request(p: Pid, pool: Pool)
    | LockAllocator(p: Pid)
    | ReadFile(p: Pid)
    | TryNext(p: Pid)
    | WriteFile(p: Pid)
    | UnlockAllocator(p: Pid)
    | Release(p: Pid)

  /** An action that is not enabled leaves the state alone, so a sequence of actions is any
      interleaving whatever. */
  function Step(s: State, a: Action): State {
    var t := s.Of(a.p);
    match a
    case Request(p, pool) =>
      if t.Idle? then s.Set(p, if pool.Valid() then Waiting(pool) else Rejected) else s
    case LockAllocator(p) =>
      if t.Waiting? && s.allocator.None? then s.Set(p, Reading(t.pool)).(allocator := Some(p)) else s
    case ReadFile(p) =>
      if t.Reading? then s.Set(p, Scanning(t.pool, t.pool.StartOf(s.file), 0)) else s
    case TryNext(p) =>
      if t.Scanning? && t.pool.Valid() && t.offset < t.pool.Count() then
        var candidate := t.pool.Candidate(t.start, t.offset);
        var probed := s.(probes := s.probes + [Probe(p, t.pool, candidate, candidate in s.locks)]);
        if candidate in s.locks then probed.Set(p, Scanning(t.pool, t.start, t.offset + 1))
        else probed.Set(p, Selected(t.pool, candidate)).(locks := s.locks[candidate := p])
      else s
    case WriteFile(p) =>
      if t.Selected? && t.pool.Valid() then
        s.Set(p, Recorded(t.pool, t.domain)).(file := Some(t.pool.Next(t.domain)))
      else s
    case UnlockAllocator(p) =>
      if t.Recorded? then s.Set(p, Live(t.pool, t.domain)).(allocator := None)
      else if t.Scanning? && t.offset >= t.pool.Count() then s.Set(p, Failed(t.pool)).(allocator := None)
      else s
    case Release(p) =>
      if t.Live? then s.Set(p, Finished).(locks := s.locks - {t.domain}) else s
  }

  /** The state after the first `n` actions, from any initial content of the state file. */
  function StateAt(file: Option<int>, es: seq<Action>, n: nat): State
    requires n <= |es|
  {
    if n == 0 then State(map[], None, map[], file, []) else Step(StateAt(file, es, n - 1), es[n - 1])
  }

  // ---------------------------------------------------------------- the scan order

  lemma ModOnce(x: int, n: int)
    requires 0 <= x < 2 * n
    ensures x % n == if x < n then x else x - n
  {
    if x < n {
      DivisionUnique(x, n, 0, x);
    } else {
      DivisionUnique(x, n, 1, x - n);
    }
  }

  lemma ModStep(x: int, n: int)
    requires n > 0 && x >= 0
    ensures (x % n + 1) % n == (x + 1) % n
  {
    var q, r := x / n, x % n;
    assert x == q * n + r;
    ModOnce(r + 1, n);
    if r + 1 < n {
      DivisionUnique(x + 1, n, q, r + 1);
    } else {
      assert x + 1 == (q + 1) * n;
      DivisionUnique(x + 1, n, q + 1, 0);
    }
  }

  lemma DivisionUnique(x: int, n: int, q: int, r: int)
    requires n > 0 && x == q * n + r && 0 <= r < n
    ensures x % n == r
  {
    var d := x / n - q;
    assert x == x / n * n + x % n;
    assert d * n == r - x % n;
    if d != 0 {
      MultipleIsFar(d, n);
    }
  }

  lemma MultipleIsFar(d: int, n: int)
    requires n > 0 && d != 0
    ensures d * n >= n || d * n <= -n
  {
  }

  lemma NextCandidate(pool: Pool, start: int, offset: nat)
    requires pool.Valid() && pool.Has(start)
    ensures pool.Has(pool.Candidate(start, offset))
    ensures pool.Next(pool.Candidate(start, offset)) == pool.Candidate(start, offset + 1)
    ensures pool.Candidate(start, 0) == start && pool.Candidate(start, pool.Count()) == start
  {
    var n := pool.Count();
    ModStep(start - pool.min + offset, n);
    ModOnce(start - pool.min, n);
    ModOnce(start - pool.min + n, n);
  }

  /** The offset at which a scan from `start` meets `d`. */
  function OffsetOf(pool: Pool, start: int, d: int): int {
    if d >= start then d - start else d - start + pool.Count()
  }

  /** A full scan visits every domain of the pool exactly once. */
  lemma ScanVisitsOnce(pool: Pool, start: int, d: int, offset: int)
    requires pool.Valid() && pool.Has(start) && pool.Has(d) && 0 <= offset < pool.Count()
    ensures 0 <= OffsetOf(pool, start, d) < pool.Count()
    ensures pool.Candidate(start, offset) == d <==> offset == OffsetOf(pool, start, d)
  {
    ModOnce(start - pool.min + offset, pool.Count());
    ModOnce(start - pool.min + OffsetOf(pool, start, d), pool.Count());
  }

  // ---------------------------------------------------------------- what every step keeps

  /** Exactly the trial that has the allocator lock is inside the allocating section. */
  ghost predicate AllocatorAgrees(s: State) {
    && (forall p | p in s.trials :: s.trials[p].Allocating() <==> s.allocator == Some(p))
    && (s.allocator.Some? ==> s.allocator.value in s.trials)
  }

  /** The domain locks are exactly those of the trials that hold a domain. */
  ghost predicate HoldersAgree(s: State) {
    && (forall p | p in s.trials && s.trials[p].Holding() ::
          s.trials[p].domain in s.locks && s.locks[s.trials[p].domain] == p)
    && (forall d | d in s.locks ::
          s.locks[d] in s.trials && s.trials[s.locks[d]].Holding() && s.trials[s.locks[d]].domain == d)
  }

  predicate InPool(t: Trial) {
    match t
    case Idle => true
    case Rejected => true
    case Finished => true
    case Scanning(pool, start, offset) => pool.Valid() && pool.Has(start) && offset <= pool.Count()
    case Selected(pool, domain) => pool.Valid() && pool.Has(domain)
    case Recorded(pool, domain) => pool.Valid() && pool.Has(domain)
    case Live(pool, domain) => pool.Valid() && pool.Has(domain)
    case _ => t.pool.Valid()
  }

  ghost predicate PoolsAgree(s: State) {
    forall p | p in s.trials :: InPool(s.trials[p])
  }

  ghost predicate LocksAgree(s: State) {
    AllocatorAgrees(s) && HoldersAgree(s) && PoolsAgree(s)
  }

  lemma AllocatorAgreesKept(s: State, a: Action)
    requires AllocatorAgrees(s)
    ensures AllocatorAgrees(Step(s, a))
  {
    hide Pool.Candidate, Pool.Next;
  }

  lemma HoldersAgreeKept(s: State, a: Action)
    requires HoldersAgree(s)
    ensures HoldersAgree(Step(s, a))
  {
    hide Pool.Candidate, Pool.Next;
  }

  lemma PoolsAgreeKept(s: State, a: Action)
    requires PoolsAgree(s)
    ensures PoolsAgree(Step(s, a))
  {
    var t := s.Of(a.p);
    if a.TryNext? && t.Scanning? {
      NextCandidate(t.pool, t.start, t.offset);
    }
    hide Pool.Candidate, Pool.Next;
  }

  lemma LocksAgreeKept(s: State, a: Action)
    requires LocksAgree(s)
    ensures LocksAgree(Step(s, a))
  {
    hide Step, AllocatorAgrees, HoldersAgree, PoolsAgree;
    AllocatorAgreesKept(s, a);
    HoldersAgreeKept(s, a);
    PoolsAgreeKept(s, a);
  }

  lemma {:induction false} LocksAlwaysAgree(file: Option<int>, es: seq<Action>, n: nat)
    requires n <= |es|
    ensures LocksAgree(StateAt(file, es, n))
  {
    hide Step;
    if n > 0 {
      hide LocksAgree;
      LocksAlwaysAgree(file, es, n - 1);
      LocksAgreeKept(StateAt(file, es, n - 1), es[n - 1]);
    }
  }

  /** In every run, whatever the pools, no two trials ever hold the same domain, and each holds
      one of its own pool. */
  lemma NoSharedDomain(file: Option<int>, es: seq<Action>, n: nat, p: Pid, q: Pid)
    requires n <= |es| && p != q
    requires StateAt(file, es, n).Of(p).Holding() && StateAt(file, es, n).Of(q).Holding()
    ensures StateAt(file, es, n).Of(p).domain != StateAt(file, es, n).Of(q).domain
    ensures var t := StateAt(file, es, n).Of(p); t.pool.Valid() && t.pool.Has(t.domain) && 1 <= t.domain <= 232
  {
    LocksAlwaysAgree(file, es, n);
  }

  /** A request is let in exactly when its pool is a non-empty subset of 1..232; any other touches no lock. */
  lemma LetInIff(s: State, p: Pid, pool: Pool)
    requires s.Of(p).Idle?
    ensures var r := Step(s, Request(p, pool));
            && (r.Of(p).Waiting? <==>
                  (exists d :: pool.Has(d)) && forall d :: pool.Has(d) ==> 1 <= d <= 232)
            && (!r.Of(p).Waiting? ==> r.Of(p).Rejected?)
            && r == s.Set(p, r.Of(p)) && (r.Of(p).Waiting? ==> r.Of(p).pool == pool)
  {
    if pool.min <= pool.max {
      assert pool.Has(pool.min) && pool.Has(pool.max);
    }
  }

  // ---------------------------------------------------------------- failure

  /** What an unfinished scan has established about the moment `k` its trial took the allocator
      lock: nothing has been locked since, and every domain tried so far was locked then. */
  ghost predicate ScanWitness(file: Option<int>, es: seq<Action>, n: nat, p: Pid, k: nat)
    requires k < n <= |es|
  {
    var past, now := StateAt(file, es, k), StateAt(file, es, n);
    var t := now.Of(p);
    && es[k] == LockAllocator(p) && past.Of(p).Waiting? && past.allocator.None?
    && (t.Reading? || t.Scanning?) && t.pool == past.Of(p).pool && t.pool.Valid()
    && now.locks.Keys <= past.locks.Keys
    && (t.Scanning? ==> t.pool.Has(t.start) && t.offset <= t.pool.Count()
                        && forall j :: 0 <= j < t.offset ==> t.pool.Candidate(t.start, j) in past.locks)
  }

  /** While `p` scans, the others only release; it starts its scan, or passes over a locked candidate. */
  lemma ScanGoesOn(s: State, a: Action, p: Pid)
    requires AllocatorAgrees(s) && s.allocator == Some(p)
    requires var t := Step(s, a).Of(p); t.Reading? || t.Scanning?
    ensures Step(s, a).locks.Keys <= s.locks.Keys
    ensures var t, r := s.Of(p), Step(s, a).Of(p);
            || r == t
            || (t.Reading? && r == Scanning(t.pool, t.pool.StartOf(s.file), 0))
            || (t.Scanning? && r == Scanning(t.pool, t.start, t.offset + 1) && t.pool.Valid()
                && t.offset < t.pool.Count() && t.pool.Candidate(t.start, t.offset) in s.locks)
  {
    if a.p != p {
      assert !s.Of(a.p).Allocating();
    }
    hide Pool.Candidate, Pool.Next, Pool.StartOf;
  }

  lemma ScanWitnessKept(file: Option<int>, es: seq<Action>, n: nat, p: Pid, k: nat)
    requires k < n < |es| && ScanWitness(file, es, n, p, k) && LocksAgree(StateAt(file, es, n))
    requires var t := StateAt(file, es, n + 1).Of(p); t.Reading? || t.Scanning?
    ensures ScanWitness(file, es, n + 1, p, k)
  {
    ScanGoesOn(StateAt(file, es, n), es[n], p);
    hide Step, Pool.Candidate, HoldersAgree, PoolsAgree;
  }

  lemma ScanBegins(file: Option<int>, es: seq<Action>, n: nat, p: Pid)
    requires n < |es| && LocksAgree(StateAt(file, es, n))
    requires var t := StateAt(file, es, n).Of(p); !t.Reading? && !t.Scanning?
    requires var t := StateAt(file, es, n + 1).Of(p); t.Reading? || t.Scanning?
    ensures ScanWitness(file, es, n + 1, p, n)
  {
    hide Pool.Candidate, Pool.Next;
  }

  lemma InitiallyIdle(file: Option<int>, es: seq<Action>, p: Pid)
    ensures StateAt(file, es, 0).Of(p).Idle?
  {
  }

  lemma {:induction false} ScanStarted(file: Option<int>, es: seq<Action>, n: nat, p: Pid) returns (k: nat)
    requires n <= |es|
    requires var t := StateAt(file, es, n).Of(p); t.Reading? || t.Scanning?
    ensures k < n && ScanWitness(file, es, n, p, k)
  {
    hide Step, LocksAgree, ScanWitness;
    InitiallyIdle(file, es, p);
    LocksAlwaysAgree(file, es, n - 1);
    var t := StateAt(file, es, n - 1).Of(p);
    if t.Reading? || t.Scanning? {
      k := ScanStarted(file, es, n - 1, p);
      ScanWitnessKept(file, es, n - 1, p, k);
    } else {
      k := n - 1;
      ScanBegins(file, es, k, p);
    }
  }

  lemma ExhaustedScan(file: Option<int>, es: seq<Action>, n: nat, p: Pid, k: nat)
    requires k < n < |es| && ScanWitness(file, es, n, p, k) && StateAt(file, es, n + 1).Of(p).Failed?
    ensures var pool := StateAt(file, es, n + 1).Of(p).pool;
            && StateAt(file, es, k).Of(p) == Waiting(pool)
            && forall d :: pool.Has(d) ==> d in StateAt(file, es, k).locks
  {
    hide Pool.Candidate;
    var t := StateAt(file, es, n).Of(p);
    assert t.Scanning? && t.offset == t.pool.Count();
    forall d | t.pool.Has(d) ensures d in StateAt(file, es, k).locks {
      ScanVisitsOnce(t.pool, t.start, d, OffsetOf(t.pool, t.start, d));
    }
  }

  lemma FailsFromScan(s: State, a: Action, p: Pid)
    requires Step(s, a).Of(p).Failed? && !s.Of(p).Failed?
    ensures s.Of(p).Scanning?
  {
    hide Pool.Candidate, Pool.Next;
  }

  lemma FailedStays(s: State, a: Action, p: Pid)
    requires s.Of(p).Failed?
    ensures Step(s, a).Of(p) == s.Of(p)
  {
    hide Pool.Candidate, Pool.Next;
  }

  lemma LockTaken(s: State, p: Pid)
    requires s.Of(p).Waiting? && s.allocator.None?
    ensures Step(s, LockAllocator(p)).Of(p).Reading?
  {
  }

  /** An allocation fails only if every domain of its pool was held at once, namely when it took
      the allocator lock: releases during the scan cannot be what made it fail. */
  lemma {:induction false} FailureMeansExhausted(file: Option<int>, es: seq<Action>, n: nat, p: Pid) returns (k: nat)
    requires n <= |es| && StateAt(file, es, n).Of(p).Failed?
    ensures k < n && es[k] == LockAllocator(p)
    ensures StateAt(file, es, k).Of(p)
         == Waiting(StateAt(file, es, n).Of(p).pool) && StateAt(file, es, k).allocator.None?
    ensures StateAt(file, es, k + 1).Of(p).Reading?
    ensures forall d :: StateAt(file, es, n).Of(p).pool.Has(d) ==> d in StateAt(file, es, k).locks
  {
    hide Step;
    InitiallyIdle(file, es, p);
    var before := StateAt(file, es, n - 1);
    if before.Of(p).Failed? {
      FailedStays(before, es[n - 1], p);
      k := FailureMeansExhausted(file, es, n - 1, p);
    } else {
      FailsFromScan(before, es[n - 1], p);
      k := ScanStarted(file, es, n - 1, p);
      ExhaustedScan(file, es, n - 1, p, k);
      LockTaken(StateAt(file, es, k), p);
    }
  }
}
