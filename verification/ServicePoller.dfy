/** The rate-limited service poller of smoke_runtime.py: at most one request in flight. */
module ServicePoller {
  import opened Numeric

  /** What the poll finds in the pending future. */
  datatype Outcome = Pending | Answered | Empty | Raised

  datatype Config = Config(interval: real, responseTimeout: real)

  /** The poller's fields; `failed` and `sends` are history variables counting the answers that
      were empty or raised, and recording when each request was sent. */
  datatype State = State(
    inFlight: bool, sentAt: real, nextRequestAt: real, sent: nat, responses: nat, timeouts: nat,
    failed: nat, sends: seq<real>)

  function Initial(): State {
    State(false, 0.0, 0.0, 0, 0, 0, 0, [])
  }

  function PollStep(c: Config, s: State, now: real, outcome: Outcome, ready: bool): State {
    if s.inFlight then
      if !outcome.Pending? then
        s.(inFlight := false, nextRequestAt := now + c.interval,
           responses := s.responses + if outcome.Answered? then 1 else 0,
           failed := s.failed + if outcome.Answered? then 0 else 1)
      else if now - s.sentAt >= c.responseTimeout then
        s.(inFlight := false, nextRequestAt := now + c.interval, timeouts := s.timeouts + 1)
      else s
    else if now >= s.nextRequestAt && ready then
      s.(inFlight := true, sentAt := now, sent := s.sent + 1, sends := s.sends + [now])
    else s
  }

  class AsyncServicePoller {
    const config: Config
    var inFlight: bool
    var sentAt: real
    var nextRequestAt: real
    var sent: nat
    var responses: nat
    var timeouts: nat
    ghost var failed: nat
    ghost var sends: seq<real>

    ghost function Now(): State
      reads this
    {
      State(inFlight, sentAt, nextRequestAt, sent, responses, timeouts, failed, sends)
    }

    constructor (config: Config)
      ensures this.config == config && Now() == Initial()
    {
      this.config := config;
      inFlight, sentAt, nextRequestAt, sent, responses, timeouts := false, 0.0, 0.0, 0, 0, 0;
      failed, sends := 0, [];
    }

    method Poll(now: real, outcome: Outcome, ready: bool)
      modifies this
      ensures Now() == PollStep(config, old(Now()), now, outcome, ready)
    {
      if inFlight {
        if outcome != Pending {
          if outcome == Answered {
            responses := responses + 1;
          } else {
            failed := failed + 1;
          }
          inFlight := false;
          nextRequestAt := now + config.interval;
        } else if now - sentAt >= config.responseTimeout {
          inFlight := false;
          timeouts := timeouts + 1;
          nextRequestAt := now + config.interval;
        }
        return;
      }
      if now >= nextRequestAt && ready {
        inFlight, sentAt, sent := true, now, sent + 1;
        sends := sends + [now];
      }
    }
  }

  // ---------------------------------------------------------------- runs

  datatype Event = Event(now: real, outcome: Outcome, ready: bool)

  function StateAt(c: Config, es: seq<Event>, n: nat): State
    requires n <= |es|
  {
    if n == 0 then Initial()
    else PollStep(c, StateAt(c, es, n - 1), es[n - 1].now, es[n - 1].outcome, es[n - 1].ready)
  }

  ghost predicate ClockNondecreasing(es: seq<Event>) {
    forall i, j :: 0 <= i < j < |es| ==> es[i].now <= es[j].now
  }

  ghost predicate Spaced(c: Config, sends: seq<real>) {
    forall i :: 0 <= i < |sends| - 1 ==> sends[i + 1] - sends[i] >= c.interval
  }

  lemma {:induction false} CountsAddUp(c: Config, es: seq<Event>, n: nat)
    requires n <= |es|
    ensures var s := StateAt(c, es, n);
            s.sent == s.responses + s.timeouts + s.failed + (if s.inFlight then 1 else 0) == |s.sends|
  {
    if n > 0 {
      CountsAddUp(c, es, n - 1);
    }
  }

  lemma {:induction false} SendsSpaced(c: Config, es: seq<Event>, n: nat)
    requires c.interval >= 0.0 && ClockNondecreasing(es) && n <= |es|
    ensures var s := StateAt(c, es, n);
            && Spaced(c, s.sends)
            && (s.sends != [] && s.inFlight ==> s.sends[|s.sends| - 1] == s.sentAt)
            && (s.sends != [] ==> n > 0 && s.sends[|s.sends| - 1] <= es[n - 1].now)
            && (s.sends != [] && !s.inFlight ==> s.sends[|s.sends| - 1] + c.interval <= s.nextRequestAt)
  {
    if n > 0 {
      SendsSpaced(c, es, n - 1);
      CountsAddUp(c, es, n - 1);
    }
  }

  /** Every request sent was answered, timed out, failed or is the one in flight; sends are at
      least the interval apart. */
  lemma PollerInvariant(c: Config, es: seq<Event>, n: nat)
    requires c.interval >= 0.0 && ClockNondecreasing(es) && n <= |es|
    ensures var s := StateAt(c, es, n);
            && s.sent == s.responses + s.timeouts + s.failed + (if s.inFlight then 1 else 0) == |s.sends|
            && Spaced(c, s.sends)
            && (s.sends != [] && s.inFlight ==> s.sends[|s.sends| - 1] == s.sentAt)
            && (s.sends != [] ==> n > 0 && s.sends[|s.sends| - 1] <= es[n - 1].now)
            && (s.sends != [] && !s.inFlight ==> s.sends[|s.sends| - 1] + c.interval <= s.nextRequestAt)
  {
    hide StateAt, Spaced;
    CountsAddUp(c, es, n);
    SendsSpaced(c, es, n);
  }

  lemma {:induction false} SpreadOut(c: Config, sends: seq<real>, i: nat, j: nat)
    requires Spaced(c, sends) && i <= j < |sends|
    ensures sends[j] - sends[i] >= (j - i) as real * c.interval
  {
    if i < j {
      SpreadOut(c, sends, i, j - 1);
      assert sends[j - 1 + 1] - sends[j - 1] >= c.interval;
    }
  }

  /** No span of time sees more requests than its length allows: `j - i + 1` sends within `span`
      are at most one plus the number of whole intervals in it. */
  lemma RateLimited(c: Config, es: seq<Event>, n: nat, i: nat, j: nat, span: real)
    requires c.interval > 0.0 && ClockNondecreasing(es) && n <= |es|
    requires i <= j < |StateAt(c, es, n).sends|
    requires StateAt(c, es, n).sends[j] - StateAt(c, es, n).sends[i] <= span
    ensures j - i + 1 <= 1 + WholeSteps(span, c.interval)
  {
    hide StateAt, Spaced, WholeSteps;
    PollerInvariant(c, es, n);
    SpreadOut(c, StateAt(c, es, n).sends, i, j);
    StepsFit(j - i, c.interval, span);
  }

  /** A request sent at event `k` is out of flight after the first later poll at or past its
      timeout, whatever the service does. */
  lemma {:induction false} LeavesFlight(c: Config, es: seq<Event>, k: nat, n: nat) returns (m: nat)
    requires ClockNondecreasing(es) && k < n < |es|
    requires !StateAt(c, es, k).inFlight && StateAt(c, es, k + 1).inFlight
    requires es[n].now - es[k].now >= c.responseTimeout
    ensures k < m <= n && StateAt(c, es, m).inFlight && !StateAt(c, es, m + 1).inFlight
    ensures forall i :: k < i <= m ==> StateAt(c, es, i).inFlight && StateAt(c, es, i).sentAt == es[k].now
  {
    m := k + 1;
    while m < n && StateAt(c, es, m + 1).inFlight
      invariant k < m <= n
      invariant forall i :: k < i <= m ==> StateAt(c, es, i).inFlight && StateAt(c, es, i).sentAt == es[k].now
    {
      m := m + 1;
    }
  }

  /** The request in flight ends at event `m`. */
  predicate Completes(c: Config, es: seq<Event>, m: nat)
    requires m < |es|
  {
    StateAt(c, es, m).inFlight && !StateAt(c, es, m + 1).inFlight
  }

  /** The last completion among the first `n` events, or -1. */
  function LastCompletion(c: Config, es: seq<Event>, n: nat): (m: int)
    requires n <= |es|
    ensures -1 <= m < n && (m >= 0 ==> Completes(c, es, m))
    ensures forall i: nat :: m < i < n ==> !Completes(c, es, i)
  {
    if n == 0 then -1 else if Completes(c, es, n - 1) then n - 1 else LastCompletion(c, es, n - 1)
  }

  lemma {:induction false} WaitsAfterCompletion(c: Config, es: seq<Event>, n: nat)
    requires n <= |es|
    ensures var m := LastCompletion(c, es, n);
            StateAt(c, es, n).nextRequestAt == if m < 0 then 0.0 else es[m].now + c.interval
  {
    if n > 0 {
      WaitsAfterCompletion(c, es, n - 1);
    }
  }

  /** A poll sends exactly when the service is ready, nothing is in flight, and the interval since the
      last completion, or the epoch, has passed. */
  lemma SendsIff(c: Config, es: seq<Event>, n: nat)
    requires n < |es|
    ensures var s, r, m := StateAt(c, es, n), StateAt(c, es, n + 1), LastCompletion(c, es, n);
            var due := if m < 0 then 0.0 else es[m].now + c.interval;
            var sends := es[n].ready && !s.inFlight && es[n].now >= due;
            r.sent == s.sent + (if sends then 1 else 0) && r.sends == s.sends + if sends then [es[n].now] else []
  {
    WaitsAfterCompletion(c, es, n);
  }

  /** What a poll counts, when it ends a request: an answer, an empty or raised one, or a timeout. */
  lemma CountsTheEnd(c: Config, es: seq<Event>, n: nat)
    requires n < |es|
    ensures var s, r, e := StateAt(c, es, n), StateAt(c, es, n + 1), es[n];
            && r.responses == s.responses + (if s.inFlight && e.outcome.Answered? then 1 else 0)
            && r.failed == s.failed + (if s.inFlight && (e.outcome.Empty? || e.outcome.Raised?) then 1 else 0)
            && r.timeouts == s.timeouts
                             + (if Completes(c, es, n) && e.outcome.Pending? then 1 else 0)
            && (s.inFlight && e.outcome.Pending? ==>
                  (Completes(c, es, n) <==> e.now - s.sentAt >= c.responseTimeout))
            && (s.inFlight && !e.outcome.Pending? ==> Completes(c, es, n))
  {
  }
}
