/** The policy client as an object: the breaker check, the retry loop and the two marks update
  * its fields in place and compute exactly the functions of PolicyCalls. */
module PolicyClients {
  import opened Wrappers
  import opened Types
  import opened PolicyCalls
  import Backoff

  class GrpcPolicyDecisionClient {
    const config: Config
    var consecutiveFailures: nat
    var circuitOpenUntil: Option<nat>
    var requests: nat
    var retries: nat
    var latencies: nat
    var breakerOpens: nat
    var breakerGauge: nat
    // Every value assigned to `circuitOpenUntil` since the connection, in order.
    ghost var deadlines: seq<Option<nat>>

    ghost function State(): Client
      reads this
    {
      Client(consecutiveFailures, circuitOpenUntil, requests, retries, latencies, breakerOpens, breakerGauge)
    }

    constructor Connect(config: Config)
      requires config.threshold <= U32_MAX
      ensures this.config == config.(
                maxAttempts := if config.maxAttempts < 1 then 1 else config.maxAttempts,
                threshold := if config.threshold < 1 then 1 else config.threshold)
      ensures this.config.Valid() && State() == FRESH && deadlines == []
    {
      this.config := config.(
        maxAttempts := if config.maxAttempts < 1 then 1 else config.maxAttempts,
        threshold := if config.threshold < 1 then 1 else config.threshold);
      consecutiveFailures, circuitOpenUntil := 0, None;
      requests, retries, latencies, breakerOpens, breakerGauge := 0, 0, 0, 0, 0;
      deadlines := [];
    }

    method FailIfCircuitOpen(now: nat) returns (rejected: bool)
      modifies this`circuitOpenUntil, this`breakerGauge, this`deadlines
      ensures rejected == IsOpen(old(State()), now)
      ensures State() == if rejected then old(State()).(gauge := 1) else PassBreaker(old(State()))
      ensures deadlines == old(deadlines) + if !rejected && old(circuitOpenUntil).Some? then [None] else []
    {
      if circuitOpenUntil.Some? {
        if now < circuitOpenUntil.value {
          breakerGauge := 1;
          return true;
        }
        circuitOpenUntil := None;
        deadlines := deadlines + [None];
        breakerGauge := 0;
      }
      rejected := false;
    }

    method MarkSuccess()
      modifies this`consecutiveFailures, this`circuitOpenUntil, this`breakerGauge, this`deadlines
      ensures State() == PolicyCalls.MarkSuccess(old(State())) && deadlines == old(deadlines) + [None]
    {
      consecutiveFailures := 0;
      circuitOpenUntil := None;
      deadlines := deadlines + [None];
      breakerGauge := 0;
    }

    method MarkFailure(now: nat)
      modifies this`consecutiveFailures, this`circuitOpenUntil, this`breakerGauge, this`breakerOpens, this`deadlines
      ensures State() == PolicyCalls.MarkFailure(config, old(State()), now)
      ensures deadlines == old(deadlines) + if Trips(config, old(State())) then [Some(now + config.cooldown)] else []
    {
      consecutiveFailures := if consecutiveFailures < U32_MAX then consecutiveFailures + 1 else U32_MAX;
      if consecutiveFailures >= config.threshold {
        circuitOpenUntil := Some(now + config.cooldown);
        deadlines := deadlines + [circuitOpenUntil];
        breakerGauge := 1;
        breakerOpens := breakerOpens + 1;
      }
    }

    // What the client does with the outcome of one attempt: end the call, or count a retry.
    method Handle(a: Attempt, attempt: nat) returns (done: bool, result: Result<Response, Unavailable>)
      modifies this
      ensures done == !WillRetry(config, a.outcome, attempt)
      ensures !done ==> State() == old(State()).(retries := old(retries) + 1) && deadlines == old(deadlines)
      ensures done ==>
        var e := Conclude(config, old(State()), a);
        State() == e.client && result == e.result && deadlines == old(deadlines) + e.breaker
    {
      done, result := true, Err(CallTimedOut);
      match a.outcome {
        case Reply(response) =>
          MarkSuccess();
          latencies := latencies + 1;
          result := Ok(response);
        case Status(code) =>
          if IsRetryable(code) && attempt < config.maxAttempts {
            retries := retries + 1;
            done := false;
          } else {
            result := Fail(a, ServiceStatus(code));
          }
        case TimedOut =>
          if attempt < config.maxAttempts {
            retries := retries + 1;
            done := false;
          } else {
            result := Fail(a, CallTimedOut);
          }
      }
    }

    // Marks the end of a failed call.
    method Fail(a: Attempt, error: Unavailable) returns (result: Result<Response, Unavailable>)
      modifies this
      ensures var e := PolicyCalls.Fail(config, old(State()), a, error);
        State() == e.client && result == e.result && deadlines == old(deadlines) + e.breaker
    {
      MarkFailure(a.doneAt);
      latencies := latencies + 1;
      result := Err(error);
    }

    // One policy call.
    method Evaluate(call: Call) returns (result: Result<Response, Unavailable>, sent: seq<nat>, slept: nat)
      requires config.Valid() && config.maxAttempts == |call.attempts|
      modifies this
      ensures var e := PolicyCalls.Evaluate(config, old(State()), call);
        State() == e.client && result == e.result && sent == e.sent && slept == e.slept
        && deadlines == old(deadlines) + e.breaker
      ensures old(circuitOpenUntil).Some? && call.startedAt < old(circuitOpenUntil.value) ==>
        && result == Err(CircuitOpen) && sent == [] && slept == 0 && breakerGauge == 1
        && circuitOpenUntil == old(circuitOpenUntil) && deadlines == old(deadlines)
        && consecutiveFailures == old(consecutiveFailures)
      ensures old(circuitOpenUntil).None? || call.startedAt >= old(circuitOpenUntil.value) ==>
        (sent != [] <==> call.metadataOk)
    {
      requests := requests + 1;
      var rejected := FailIfCircuitOpen(call.startedAt);
      if rejected {
        return Err(CircuitOpen), [], 0;
      }
      result, sent, slept := RunAttempts(call);
    }

    // The retry loop. It returns from within: nothing is reachable after it.
    method RunAttempts(call: Call) returns (result: Result<Response, Unavailable>, sent: seq<nat>, slept: nat)
      requires config.Valid() && config.maxAttempts == |call.attempts|
      modifies this
      ensures call.metadataOk ==>
        var e := FromAttempt(config, old(State()), call, 1);
        State() == e.client && result == e.result && sent == e.sent && slept == e.slept
        && deadlines == old(deadlines) + e.breaker
      ensures !call.metadataOk ==>
        State() == old(State()) && deadlines == old(deadlines)
        && result == Err(InvalidMetadata) && sent == [] && slept == 0
    {
      sent, slept := [], 0;
      var attempt := 1;
      ghost var whole := FromAttempt(config, State(), call, 1);
      assert whole.sent == [] + whole.sent;
      while attempt <= config.maxAttempts
        invariant 1 <= attempt <= config.maxAttempts
        invariant attempt == 1 ==> State() == old(State()) && sent == [] && slept == 0
        invariant deadlines == old(deadlines)
        invariant attempt > 1 ==> call.metadataOk
        invariant whole == After(sent, slept, FromAttempt(config, State(), call, attempt))
      {
        if !call.metadataOk {
          return Err(InvalidMetadata), sent, slept;
        }
        ghost var s := State();
        var a := call.attempts[attempt - 1];
        var done;
        done, result := Handle(a, attempt);
        if done {
          sent := sent + [a.sentAt];
          return;
        }
        assert State() == s.(retries := s.retries + 1);
        RetryIsAccumulated(config, s, call, attempt, sent, slept);
        var delay := Backoff.Delay(attempt, config.initialBackoff, config.maxBackoff);
        assert whole == After(sent + [a.sentAt], slept + delay, FromAttempt(config, State(), call, attempt + 1));
        sent := sent + [a.sentAt];
        slept := slept + delay;
        attempt := attempt + 1;
      }
      assert false;
    }
  }
}
