/** The policy client of llmd: retries with backoff behind a circuit breaker. What one
  * `evaluate` does to the client, as a function of the clock and of the server's answers. */
module PolicyCalls {
  import opened Wrappers
  import opened Types
  import Backoff

  const U32_MAX: nat := 0xFFFF_FFFF

  datatype Config = Config(
    maxAttempts: nat, initialBackoff: nat, maxBackoff: nat, threshold: nat, cooldown: nat)
  {
    // What `connect_with_config` establishes from any configuration.
    predicate Valid() {
      maxAttempts >= 1 && 1 <= threshold <= U32_MAX
    }
  }

  // The fields of one client that change, and the counters only this client updates.
  datatype Client = Client(
    failures: nat, openUntil: Option<nat>,
    requests: nat, retries: nat, latencies: nat, opens: nat, gauge: nat)

  const FRESH := Client(0, None, 0, 0, 0, 0, 0)

  // One RPC: when it is sent, what comes of it, and when the client continues.
  datatype Outcome = Reply(response: Response) | Status(code: Code) | TimedOut
  datatype Attempt = Attempt(sentAt: nat, outcome: Outcome, doneAt: nat)

  // One call of `evaluate`: the instant of the breaker check, whether the request ids are valid
  // metadata, and what the server would do to each attempt.
  datatype Call = Call(startedAt: nat, metadataOk: bool, attempts: seq<Attempt>)

  // What one call leaves behind: its result, the instants of the RPCs it sent, the time it slept,
  // the values `circuit_open_until` was assigned, and the instant it ended.
  datatype Evaluation = Evaluation(
    client: Client, result: Result<Response, Unavailable>,
    sent: seq<nat>, slept: nat, breaker: seq<Option<nat>>, endedAt: nat)

  predicate IsRetryable(code: Code) {
    code == ServiceUnavailable || code == DeadlineExceeded
  }

  function MarkSuccess(s: Client): Client {
    s.(failures := 0, openUntil := None, gauge := 0)
  }

  function NextFailures(s: Client): nat {
    if s.failures < U32_MAX then s.failures + 1 else U32_MAX
  }

  // Whether one more failure assigns a deadline.
  predicate Trips(cfg: Config, s: Client) {
    NextFailures(s) >= cfg.threshold
  }

  function MarkFailure(cfg: Config, s: Client, now: nat): Client {
    if Trips(cfg, s) then
      s.(failures := NextFailures(s), openUntil := Some(now + cfg.cooldown), gauge := 1, opens := s.opens + 1)
    else
      s.(failures := NextFailures(s))
  }

  predicate IsOpen(s: Client, now: nat) {
    s.openUntil.Some? && now < s.openUntil.value
  }

  // The breaker check when it lets the call through.
  function PassBreaker(s: Client): Client {
    if s.openUntil.Some? then s.(openUntil := None, gauge := 0) else s
  }

  // What the check assigns to `circuit_open_until`.
  function Cleared(s: Client): seq<Option<nat>> {
    if s.openUntil.Some? then [None] else []
  }

  function WillRetry(cfg: Config, outcome: Outcome, attempt: nat): bool {
    attempt < cfg.maxAttempts && (outcome.TimedOut? || (outcome.Status? && IsRetryable(outcome.code)))
  }

  // The call ends with a failed attempt.
  function Fail(cfg: Config, s: Client, a: Attempt, error: Unavailable): Evaluation {
    var t := MarkFailure(cfg, s, a.doneAt).(latencies := s.latencies + 1);
    Evaluation(t, Err(error), [a.sentAt], 0, if Trips(cfg, s) then [Some(a.doneAt + cfg.cooldown)] else [], a.doneAt)
  }

  // The call ends with this attempt.
  function Conclude(cfg: Config, s: Client, a: Attempt): Evaluation {
    match a.outcome
    case Reply(response) =>
      Evaluation(MarkSuccess(s).(latencies := s.latencies + 1), Ok(response), [a.sentAt], 0, [None], a.doneAt)
    case Status(code) => Fail(cfg, s, a, ServiceStatus(code))
    case TimedOut => Fail(cfg, s, a, CallTimedOut)
  }

  // Attempts `attempt`, `attempt`+1, .. of a call.
  function FromAttempt(cfg: Config, s: Client, call: Call, attempt: nat): Evaluation
    requires 1 <= attempt <= cfg.maxAttempts == |call.attempts|
    decreases cfg.maxAttempts - attempt
  {
    var a := call.attempts[attempt - 1];
    if WillRetry(cfg, a.outcome, attempt) then
      var rest := FromAttempt(cfg, s.(retries := s.retries + 1), call, attempt + 1);
      rest.(sent := [a.sentAt] + rest.sent,
            slept := Backoff.Delay(attempt, cfg.initialBackoff, cfg.maxBackoff) + rest.slept)
    else Conclude(cfg, s, a)
  }

  // A call of which the first RPCs and delays are already behind it.
  function After(sent: seq<nat>, slept: nat, rest: Evaluation): Evaluation {
    rest.(sent := sent + rest.sent, slept := slept + rest.slept)
  }

  lemma RetryIsAccumulated(cfg: Config, s: Client, call: Call, attempt: nat, sent: seq<nat>, slept: nat)
    requires 1 <= attempt < cfg.maxAttempts == |call.attempts|
    requires WillRetry(cfg, call.attempts[attempt - 1].outcome, attempt)
    ensures After(sent, slept, FromAttempt(cfg, s, call, attempt))
         == After(sent + [call.attempts[attempt - 1].sentAt],
                  slept + Backoff.Delay(attempt, cfg.initialBackoff, cfg.maxBackoff),
                  FromAttempt(cfg, s.(retries := s.retries + 1), call, attempt + 1))
  {
    var rest := FromAttempt(cfg, s.(retries := s.retries + 1), call, attempt + 1);
    var first := [call.attempts[attempt - 1].sentAt];
    assert sent + (first + rest.sent) == (sent + first) + rest.sent;
  }

  function Evaluate(cfg: Config, s: Client, call: Call): Evaluation
    requires cfg.Valid() && cfg.maxAttempts == |call.attempts|
  {
    var s1 := s.(requests := s.requests + 1);
    if IsOpen(s, call.startedAt) then
      Evaluation(s1.(gauge := 1), Err(CircuitOpen), [], 0, [], call.startedAt)
    else
      var s2 := PassBreaker(s1);
      if !call.metadataOk then
        Evaluation(s2, Err(InvalidMetadata), [], 0, Cleared(s), call.startedAt)
      else
        var e := FromAttempt(cfg, s2, call, 1);
        e.(breaker := Cleared(s) + e.breaker)
  }

  // The clock never goes back, and a retry waits at least for the backoff delay.
  predicate Ticking(cfg: Config, call: Call) {
    && |call.attempts| == cfg.maxAttempts
    && (forall i :: 0 <= i < |call.attempts| ==> call.startedAt <= call.attempts[i].sentAt <= call.attempts[i].doneAt)
    && (forall i :: 0 < i < |call.attempts| ==>
          call.attempts[i - 1].doneAt + Backoff.Delay(i, cfg.initialBackoff, cfg.maxBackoff) <= call.attempts[i].sentAt)
  }
}
