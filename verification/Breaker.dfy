/** What the retry loop and the circuit breaker guarantee: accounting in every reachable state,
  * and a bound on the load an unavailable server sees. */
module Breaker {
  import opened Arithmetic
  import opened Wrappers
  import opened Types
  import opened PolicyCalls
  import Backoff

  // The attempt that ends a call: every earlier one is retried.
  function LastAttempt(cfg: Config, call: Call, attempt: nat): (k: nat)
    requires 1 <= attempt <= cfg.maxAttempts == |call.attempts|
    ensures attempt <= k <= cfg.maxAttempts
    ensures !WillRetry(cfg, call.attempts[k - 1].outcome, k)
    ensures forall i {:trigger call.attempts[i]} :: attempt - 1 <= i < k - 1 ==>
      WillRetry(cfg, call.attempts[i].outcome, i + 1)
    decreases cfg.maxAttempts - attempt
  {
    if WillRetry(cfg, call.attempts[attempt - 1].outcome, attempt) then LastAttempt(cfg, call, attempt + 1) else attempt
  }

  // How the last attempt of a call that starts at `attempt` ends it, the retries being counted.
  function LastConcludes(cfg: Config, s: Client, call: Call, attempt: nat): Evaluation
    requires 1 <= attempt <= cfg.maxAttempts == |call.attempts|
  {
    var k := LastAttempt(cfg, call, attempt);
    Conclude(cfg, s.(retries := s.retries + (k - attempt)), call.attempts[k - 1])
  }

  lemma LastConcludesSkipsRetry(cfg: Config, s: Client, call: Call, attempt: nat)
    requires 1 <= attempt < cfg.maxAttempts == |call.attempts|
    requires WillRetry(cfg, call.attempts[attempt - 1].outcome, attempt)
    ensures LastConcludes(cfg, s, call, attempt) == LastConcludes(cfg, s.(retries := s.retries + 1), call, attempt + 1)
  {
    var k, s1 := LastAttempt(cfg, call, attempt), s.(retries := s.retries + 1);
    assert s1.(retries := s1.retries + (k - (attempt + 1))) == s.(retries := s.retries + (k - attempt));
  }

  // What is left of a call is its last attempt; the retries before it only count.
  lemma {:induction false} CallEndsWithLastAttempt(cfg: Config, s: Client, call: Call, attempt: nat)
    requires 1 <= attempt <= cfg.maxAttempts == |call.attempts|
    ensures var e := FromAttempt(cfg, s, call, attempt);
      e == LastConcludes(cfg, s, call, attempt).(sent := e.sent, slept := e.slept)
    decreases cfg.maxAttempts - attempt
  {
    if WillRetry(cfg, call.attempts[attempt - 1].outcome, attempt) {
      LastConcludesSkipsRetry(cfg, s, call, attempt);
      CallEndsWithLastAttempt(cfg, s.(retries := s.retries + 1), call, attempt + 1);
    } else {
      assert s.(retries := s.retries + 0) == s;
    }
  }

  // The outcomes that are worth another attempt.
  predicate Transient(outcome: Outcome) {
    outcome == TimedOut || outcome == Status(ServiceUnavailable) || outcome == Status(DeadlineExceeded)
  }

  // Attempt k ends the call: all before it were transient failures, and it is not or is the last.
  ghost predicate Ends(cfg: Config, call: Call, k: nat) {
    && k < |call.attempts| && (k + 1 == cfg.maxAttempts || !Transient(call.attempts[k].outcome))
    && forall i :: 0 <= i < k ==> Transient(call.attempts[i].outcome)
  }

  lemma LastAttemptEnds(cfg: Config, call: Call)
    requires cfg.Valid() && cfg.maxAttempts == |call.attempts|
    ensures Ends(cfg, call, LastAttempt(cfg, call, 1) - 1)
  {
    var k := LastAttempt(cfg, call, 1) - 1;
    forall i | 0 <= i < k ensures Transient(call.attempts[i].outcome) {
      assert WillRetry(cfg, call.attempts[i].outcome, i + 1);
    }
  }

  lemma OneAttemptEnds(cfg: Config, call: Call, j: nat, k: nat)
    requires Ends(cfg, call, j) && Ends(cfg, call, k) && cfg.maxAttempts == |call.attempts|
    ensures j == k
  {}

  // The result in the caller's terms: an open breaker and bad request ids come first; then the
  // first outcome that is not transient decides, or the last one.
  lemma ResultExactly(cfg: Config, s: Client, call: Call, k: nat)
    requires cfg.Valid() && cfg.maxAttempts == |call.attempts| && Ends(cfg, call, k)
    ensures var result := Evaluate(cfg, s, call).result;
      if s.openUntil.Some? && call.startedAt < s.openUntil.value then result == Err(CircuitOpen)
      else if !call.metadataOk then result == Err(InvalidMetadata)
      else
        match call.attempts[k].outcome
        case Reply(r) => result == Ok(r)
        case Status(code) => result == Err(ServiceStatus(code))
        case TimedOut => result == Err(CallTimedOut)
  {
    CallEndsWithLastAttempt(cfg, PassBreaker(s.(requests := s.requests + 1)), call, 1);
    LastAttemptEnds(cfg, call);
    OneAttemptEnds(cfg, call, k, LastAttempt(cfg, call, 1) - 1);
  }

  // One RPC per attempt ..
  lemma {:induction false} CallSendsOncePerAttempt(cfg: Config, s: Client, call: Call, attempt: nat)
    requires 1 <= attempt <= cfg.maxAttempts == |call.attempts|
    ensures |FromAttempt(cfg, s, call, attempt).sent| == LastAttempt(cfg, call, attempt) - attempt + 1
    decreases cfg.maxAttempts - attempt
  {
    if WillRetry(cfg, call.attempts[attempt - 1].outcome, attempt) {
      CallSendsOncePerAttempt(cfg, s.(retries := s.retries + 1), call, attempt + 1);
    }
  }

  // .. at that attempt's instant.
  lemma {:induction false} CallSendsPerAttempt(cfg: Config, s: Client, call: Call, attempt: nat)
    requires 1 <= attempt <= cfg.maxAttempts == |call.attempts|
    ensures var sent := FromAttempt(cfg, s, call, attempt).sent;
      && |sent| == LastAttempt(cfg, call, attempt) - attempt + 1
      && forall i :: 0 <= i < |sent| ==> sent[i] == call.attempts[attempt - 1 + i].sentAt
    decreases cfg.maxAttempts - attempt
  {
    CallSendsOncePerAttempt(cfg, s, call, attempt);
    if WillRetry(cfg, call.attempts[attempt - 1].outcome, attempt) {
      var s1 := s.(retries := s.retries + 1);
      assert FromAttempt(cfg, s, call, attempt).sent
          == [call.attempts[attempt - 1].sentAt] + FromAttempt(cfg, s1, call, attempt + 1).sent;
      CallSendsPerAttempt(cfg, s1, call, attempt + 1);
    }
  }

  // The time slept is the backoff of the retried attempts.
  lemma {:induction false} CallSleeps(cfg: Config, s: Client, call: Call, attempt: nat)
    requires 1 <= attempt <= cfg.maxAttempts == |call.attempts|
    ensures Backoff.TotalDelay(attempt - 1, cfg.initialBackoff, cfg.maxBackoff)
            + FromAttempt(cfg, s, call, attempt).slept
         == Backoff.TotalDelay(LastAttempt(cfg, call, attempt) - 1, cfg.initialBackoff, cfg.maxBackoff)
    decreases cfg.maxAttempts - attempt
  {
    if WillRetry(cfg, call.attempts[attempt - 1].outcome, attempt) {
      var s1, delay := s.(retries := s.retries + 1), Backoff.Delay(attempt, cfg.initialBackoff, cfg.maxBackoff);
      assert FromAttempt(cfg, s, call, attempt).slept == delay + FromAttempt(cfg, s1, call, attempt + 1).slept;
      CallSleeps(cfg, s1, call, attempt + 1);
      assert LastAttempt(cfg, call, attempt) == LastAttempt(cfg, call, attempt + 1);
    } else {
      assert LastAttempt(cfg, call, attempt) == attempt && FromAttempt(cfg, s, call, attempt).slept == 0;
    }
  }

  // A call that sent k RPCs slept for at most k-1 delays: at most the maximum each, and at most
  // a geometric sum of the initial delay.
  lemma SleepIsBounded(cfg: Config, s: Client, call: Call)
    requires cfg.Valid() && cfg.maxAttempts == |call.attempts|
    ensures var e := Evaluate(cfg, s, call);
      && |e.sent| <= cfg.maxAttempts
      && (|e.sent| == 0 ==> e.slept == 0)
      && (|e.sent| >= 1 ==> e.slept <= (|e.sent| - 1) * cfg.maxBackoff)
      && (|e.sent| >= 1 ==> e.slept <= cfg.initialBackoff * (Pow2(|e.sent| - 1) - 1))
  {
    var s2 := PassBreaker(s.(requests := s.requests + 1));
    CallSendsOncePerAttempt(cfg, s2, call, 1);
    CallSleeps(cfg, s2, call, 1);
    Backoff.TotalDelayBound(LastAttempt(cfg, call, 1), cfg.initialBackoff, cfg.maxBackoff);
  }

  // How often a list of assigned deadlines goes from closed to open.
  function Openings(previous: Option<nat>, values: seq<Option<nat>>): nat
    decreases |values|
  {
    if values == [] then 0
    else (if previous.None? && values[0].Some? then 1 else 0) + Openings(values[0], values[1..])
  }

  lemma OpeningsAfterClearing(previous: Option<nat>, values: seq<Option<nat>>)
    ensures Openings(previous, [None] + values) == Openings(None, values)
    ensures Openings(previous, [None]) == 0
  {
    assert ([None] + values)[1..] == values;
    assert values == [] ==> [None] + values == [None];
  }

  // What an observer of the calls counts.
  datatype Totals = Totals(
    calls: nat, rpcs: nat, callsWithRpc: nat, breakerRejections: nat, metadataRejections: nat,
    failedSinceSuccess: nat, openings: nat)

  const NOTHING := Totals(0, 0, 0, 0, 0, 0, 0)

  function Observe(t: Totals, before: Client, e: Evaluation): Totals {
    Totals(
      t.calls + 1,
      t.rpcs + |e.sent|,
      t.callsWithRpc + (if e.sent == [] then 0 else 1),
      t.breakerRejections + (if e.result == Err(CircuitOpen) then 1 else 0),
      t.metadataRejections + (if e.result == Err(InvalidMetadata) then 1 else 0),
      if e.result.Ok? then 0 else if e.sent == [] then t.failedSinceSuccess else t.failedSinceSuccess + 1,
      t.openings + Openings(before.openUntil, e.breaker))
  }

  ghost predicate Accounted(cfg: Config, s: Client, t: Totals) {
    && (s.openUntil.Some? ==> s.failures >= cfg.threshold)
    && s.failures == (if t.failedSinceSuccess <= U32_MAX then t.failedSinceSuccess else U32_MAX)
    && s.gauge == (if s.openUntil.Some? then 1 else 0)
    && s.opens == t.openings
    && s.retries + t.callsWithRpc == t.rpcs
    && s.requests == t.calls
    && s.requests == s.latencies + t.breakerRejections + t.metadataRejections
  }

  // What ends a call keeps the accounts, the retries before it having been counted.
  lemma ConcludeKeepsAccounts(cfg: Config, s: Client, t: Totals, call: Call, sent: seq<nat>, slept: nat)
    requires cfg.Valid() && cfg.maxAttempts == |call.attempts| && s.openUntil.None? && Accounted(cfg, s, t)
    requires |sent| == LastAttempt(cfg, call, 1)
    ensures var e := LastConcludes(cfg, s.(requests := s.requests + 1), call, 1).(sent := sent, slept := slept);
      Accounted(cfg, e.client, Observe(t, s, e))
  {
    var e := LastConcludes(cfg, s.(requests := s.requests + 1), call, 1);
    assert e.client.opens == t.openings + Openings(None, e.breaker);
  }

  // The attempts of a call, once the breaker has let it through with nothing assigned yet.
  lemma AttemptsKeepAccounts(cfg: Config, s: Client, t: Totals, call: Call)
    requires cfg.Valid() && cfg.maxAttempts == |call.attempts|
    requires s.openUntil.None? && Accounted(cfg, s, t)
    ensures var e := FromAttempt(cfg, s.(requests := s.requests + 1), call, 1);
      Accounted(cfg, e.client, Observe(t, s, e))
  {
    var s1 := s.(requests := s.requests + 1);
    var e := FromAttempt(cfg, s1, call, 1);
    CallEndsWithLastAttempt(cfg, s1, call, 1);
    CallSendsOncePerAttempt(cfg, s1, call, 1);
    ConcludeKeepsAccounts(cfg, s, t, call, e.sent, e.slept);
  }

  // Letting a call through clears a deadline, which opens nothing.
  lemma PassingKeepsAccounts(cfg: Config, s: Client, t: Totals, e: Evaluation)
    requires cfg.Valid() && Accounted(cfg, s, t)
    ensures Accounted(cfg, PassBreaker(s), t)
    ensures Observe(t, PassBreaker(s), e) == Observe(t, s, e.(breaker := Cleared(s) + e.breaker))
  {
    OpeningsAfterClearing(s.openUntil, e.breaker);
    assert [] + e.breaker == e.breaker;
  }

  lemma EvaluateKeepsAccounts(cfg: Config, s: Client, t: Totals, call: Call)
    requires cfg.Valid() && cfg.maxAttempts == |call.attempts| && Accounted(cfg, s, t)
    ensures var e := Evaluate(cfg, s, call);
      Accounted(cfg, e.client, Observe(t, s, e))
  {
    var passed := PassBreaker(s);
    OpeningsAfterClearing(s.openUntil, []);
    if !IsOpen(s, call.startedAt) && call.metadataOk {
      var rest := FromAttempt(cfg, passed.(requests := s.requests + 1), call, 1);
      PassingKeepsAccounts(cfg, s, t, rest);
      AttemptsKeepAccounts(cfg, passed, t, call);
      assert Evaluate(cfg, s, call) == rest.(breaker := Cleared(s) + rest.breaker);
    }
  }

  // A run of calls from a given client.
  function Run(cfg: Config, s: Client, t: Totals, calls: seq<Call>): (Client, Totals)
    requires cfg.Valid() && forall i :: 0 <= i < |calls| ==> cfg.maxAttempts == |calls[i].attempts|
    decreases |calls|
  {
    if calls == [] then (s, t)
    else
      var e := Evaluate(cfg, s, calls[0]);
      Run(cfg, e.client, Observe(t, s, e), calls[1..])
  }

  lemma {:induction false} RunKeepsAccounts(cfg: Config, s: Client, t: Totals, calls: seq<Call>)
    requires cfg.Valid() && Accounted(cfg, s, t)
    requires forall i :: 0 <= i < |calls| ==> cfg.maxAttempts == |calls[i].attempts|
    ensures var (s', t') := Run(cfg, s, t, calls); Accounted(cfg, s', t')
    decreases |calls|
  {
    if calls != [] {
      var e := Evaluate(cfg, s, calls[0]);
      EvaluateKeepsAccounts(cfg, s, t, calls[0]);
      RunKeepsAccounts(cfg, e.client, Observe(t, s, e), calls[1..]);
    }
  }

  // In every state a connected client can reach the accounts are right.
  lemma ReachableClientsAreAccounted(cfg: Config, calls: seq<Call>)
    requires cfg.Valid()
    requires forall i :: 0 <= i < |calls| ==> cfg.maxAttempts == |calls[i].attempts|
    ensures var (s, t) := Run(cfg, FRESH, NOTHING, calls); Accounted(cfg, s, t)
  {
    RunKeepsAccounts(cfg, FRESH, NOTHING, calls);
  }

  lemma {:induction false} AttemptsFollowEachOther(cfg: Config, call: Call, k: nat)
    requires Ticking(cfg, call) && 1 <= k <= |call.attempts|
    ensures forall i :: 0 <= i < k ==> call.attempts[i].sentAt <= call.attempts[k - 1].doneAt
  {
    if k > 1 {
      AttemptsFollowEachOther(cfg, call, k - 1);
    }
  }

  // Every RPC of a call lies between its start and its end.
  lemma CallTakesTime(cfg: Config, s: Client, call: Call)
    requires cfg.Valid() && Ticking(cfg, call)
    ensures var e := Evaluate(cfg, s, call);
      && call.startedAt <= e.endedAt
      && forall i :: 0 <= i < |e.sent| ==> call.startedAt <= e.sent[i] <= e.endedAt
  {
    var s2 := PassBreaker(s.(requests := s.requests + 1));
    CallEndsWithLastAttempt(cfg, s2, call, 1);
    CallSendsPerAttempt(cfg, s2, call, 1);
    AttemptsFollowEachOther(cfg, call, LastAttempt(cfg, call, 1));
  }

  // No RPC is sent before the deadline.
  lemma NothingIsSentBeforeDeadline(cfg: Config, s: Client, call: Call)
    requires cfg.Valid() && Ticking(cfg, call) && s.openUntil.Some?
    ensures forall i :: 0 <= i < |Evaluate(cfg, s, call).sent| ==> Evaluate(cfg, s, call).sent[i] >= s.openUntil.value
  {
    CallTakesTime(cfg, s, call);
  }

  // What a call that sends RPCs but gets no reply does to the breaker.
  lemma FailedCallMarks(cfg: Config, s: Client, call: Call)
    requires cfg.Valid() && |call.attempts| == cfg.maxAttempts
    requires var e := Evaluate(cfg, s, call); e.sent != [] && e.result.Err?
    ensures var e := Evaluate(cfg, s, call);
      && 1 <= |e.sent| <= cfg.maxAttempts
      && e.client.failures == NextFailures(s)
      && e.client.openUntil == if Trips(cfg, s) then Some(e.endedAt + cfg.cooldown) else None
  {
    var s2 := PassBreaker(s.(requests := s.requests + 1));
    CallEndsWithLastAttempt(cfg, s2, call, 1);
    CallSendsOncePerAttempt(cfg, s2, call, 1);
  }
}
