/** What one policy call leaves behind, field by field, and how a client gets back to a server it
  * had given up on. */
module CallOutcome {
  import opened Wrappers
  import opened Types
  import opened PolicyCalls
  import opened Breaker
  import Backoff

  // The breaker rejects a call that starts before the deadline.
  predicate Rejected(s: Client, call: Call) {
    s.openUntil.Some? && call.startedAt < s.openUntil.value
  }

  function FailuresAfter(s: Client): nat {
    if s.failures >= 0xFFFF_FFFF then 0xFFFF_FFFF else s.failures + 1
  }

  // A rejected call is counted and shows on the gauge; the deadline, the failures and the other
  // counters stay, no RPC is sent and nothing is slept.
  lemma RejectedCallLeaves(cfg: Config, s: Client, call: Call)
    requires cfg.Valid() && cfg.maxAttempts == |call.attempts| && Rejected(s, call)
    ensures Evaluate(cfg, s, call) == Evaluation(
      Client(s.failures, s.openUntil, s.requests + 1, s.retries, s.latencies, s.opens, 1),
      Err(CircuitOpen), [], 0, [], call.startedAt)
  {}

  // A call that is let through with bad request ids only clears the deadline.
  lemma BadRequestIdsLeave(cfg: Config, s: Client, call: Call)
    requires cfg.Valid() && cfg.maxAttempts == |call.attempts| && !Rejected(s, call) && !call.metadataOk
    ensures var e := Evaluate(cfg, s, call);
      && e.client == Client(s.failures, None, s.requests + 1, s.retries, s.latencies, s.opens,
                            if s.openUntil.Some? then 0 else s.gauge)
      && e.result == Err(InvalidMetadata) && e.sent == [] && e.slept == 0 && e.endedAt == call.startedAt
  {}

  // The attempt that ends a call, on the client as it then is.
  lemma ConclusionLeaves(cfg: Config, s: Client, a: Attempt)
    ensures var e := Conclude(cfg, s, a);
      var f := FailuresAfter(s);
      && e.endedAt == a.doneAt
      && e.client ==
           if a.outcome.Reply? then Client(0, None, s.requests, s.retries, s.latencies + 1, s.opens, 0)
           else if f >= cfg.threshold then
             Client(f, Some(a.doneAt + cfg.cooldown), s.requests, s.retries, s.latencies + 1, s.opens + 1, 1)
           else Client(f, s.openUntil, s.requests, s.retries, s.latencies + 1, s.opens, s.gauge)
  {}

  lemma CallIsConcluded(cfg: Config, s: Client, call: Call, k: nat)
    requires cfg.Valid() && cfg.maxAttempts == |call.attempts| && Ends(cfg, call, k)
    requires !Rejected(s, call) && call.metadataOk
    ensures var s1 := PassBreaker(s.(requests := s.requests + 1));
      var c := Conclude(cfg, s1.(retries := s1.retries + k), call.attempts[k]);
      Evaluate(cfg, s, call).client == c.client && Evaluate(cfg, s, call).endedAt == c.endedAt
  {
    CallEndsWithLastAttempt(cfg, PassBreaker(s.(requests := s.requests + 1)), call, 1);
    LastAttemptEnds(cfg, call);
    OneAttemptEnds(cfg, call, k, LastAttempt(cfg, call, 1) - 1);
  }

  // A call that is let through ends with its attempt k. Whatever that is, k retries, one latency
  // and k+1 RPCs are counted; a reply clears the breaker, and a failure is counted and from the
  // threshold on assigns the deadline.
  lemma SentCallLeaves(cfg: Config, s: Client, call: Call, k: nat)
    requires cfg.Valid() && cfg.maxAttempts == |call.attempts| && Ends(cfg, call, k)
    requires !Rejected(s, call) && call.metadataOk
    ensures var e := Evaluate(cfg, s, call);
      var f := FailuresAfter(s);
      && e.endedAt == call.attempts[k].doneAt
      && e.client ==
           if call.attempts[k].outcome.Reply? then
             Client(0, None, s.requests + 1, s.retries + k, s.latencies + 1, s.opens, 0)
           else if f >= cfg.threshold then
             Client(f, Some(call.attempts[k].doneAt + cfg.cooldown),
                    s.requests + 1, s.retries + k, s.latencies + 1, s.opens + 1, 1)
           else
             Client(f, None, s.requests + 1, s.retries + k, s.latencies + 1, s.opens,
                    if s.openUntil.Some? then 0 else s.gauge)
  {
    var s1 := PassBreaker(s.(requests := s.requests + 1));
    CallIsConcluded(cfg, s, call, k);
    ConclusionLeaves(cfg, s1.(retries := s1.retries + k), call.attempts[k]);
  }

  lemma SentCallSends(cfg: Config, s: Client, call: Call, k: nat)
    requires cfg.Valid() && cfg.maxAttempts == |call.attempts| && Ends(cfg, call, k)
    requires !Rejected(s, call) && call.metadataOk
    ensures var sent := Evaluate(cfg, s, call).sent;
      |sent| == k + 1 && forall i :: 0 <= i <= k ==> sent[i] == call.attempts[i].sentAt
  {
    CallSendsPerAttempt(cfg, PassBreaker(s.(requests := s.requests + 1)), call, 1);
    LastAttemptEnds(cfg, call);
    OneAttemptEnds(cfg, call, k, LastAttempt(cfg, call, 1) - 1);
  }

  // It sleeps after each of the k attempts that were retried.
  lemma SentCallSleeps(cfg: Config, s: Client, call: Call, k: nat)
    requires cfg.Valid() && cfg.maxAttempts == |call.attempts| && Ends(cfg, call, k)
    requires !Rejected(s, call) && call.metadataOk
    ensures Evaluate(cfg, s, call).slept == Backoff.TotalDelay(k, cfg.initialBackoff, cfg.maxBackoff)
  {
    CallSleeps(cfg, PassBreaker(s.(requests := s.requests + 1)), call, 1);
    LastAttemptEnds(cfg, call);
    OneAttemptEnds(cfg, call, k, LastAttempt(cfg, call, 1) - 1);
  }

  // Over any run of rejected calls the deadline and the failures stay as they were; only the
  // requests and the gauge change.
  lemma {:induction false} RejectedRunLeaves(cfg: Config, s: Client, t: Totals, calls: seq<Call>)
    requires cfg.Valid() && calls != []
    requires forall i :: 0 <= i < |calls| ==> cfg.maxAttempts == |calls[i].attempts| && Rejected(s, calls[i])
    ensures Run(cfg, s, t, calls).0
         == Client(s.failures, s.openUntil, s.requests + |calls|, s.retries, s.latencies, s.opens, 1)
    decreases |calls|
  {
    RejectedCallLeaves(cfg, s, calls[0]);
    if |calls| > 1 {
      var e := Evaluate(cfg, s, calls[0]);
      RejectedRunLeaves(cfg, e.client, Observe(t, s, e), calls[1..]);
    }
  }

  // Recovery: however often a client was rejected meanwhile, the first call at or after the
  // deadline, if its request ids are valid, sends an RPC.
  lemma FirstCallAfterDeadlineIsSent(cfg: Config, s: Client, t: Totals, rejected: seq<Call>, call: Call)
    requires cfg.Valid() && s.openUntil.Some?
    requires forall i :: 0 <= i < |rejected| ==>
      cfg.maxAttempts == |rejected[i].attempts| && rejected[i].startedAt < s.openUntil.value
    requires cfg.maxAttempts == |call.attempts| && call.startedAt >= s.openUntil.value && call.metadataOk
    ensures var s' := Run(cfg, s, t, rejected).0;
      && s'.openUntil == s.openUntil && s'.failures == s.failures
      && Evaluate(cfg, s', call).sent != [] && Evaluate(cfg, s', call).sent[0] == call.attempts[0].sentAt
  {
    if rejected != [] {
      RejectedRunLeaves(cfg, s, t, rejected);
    }
    LastAttemptEnds(cfg, call);
    SentCallSends(cfg, Run(cfg, s, t, rejected).0, call, LastAttempt(cfg, call, 1) - 1);
  }

  // So the deadline in force is the one the last failed call assigned: it ended one cooldown
  // before, and every call since was rejected.
  lemma DeadlineIsOfLastFailure(cfg: Config, s: Client, t: Totals, failed: Call, k: nat, since: seq<Call>)
    requires cfg.Valid() && cfg.maxAttempts == |failed.attempts| && Ends(cfg, failed, k)
    requires !Rejected(s, failed) && failed.metadataOk && !failed.attempts[k].outcome.Reply?
    requires FailuresAfter(s) >= cfg.threshold
    requires forall i :: 0 <= i < |since| ==>
      cfg.maxAttempts == |since[i].attempts| && since[i].startedAt < failed.attempts[k].doneAt + cfg.cooldown
    ensures Run(cfg, s, t, [failed] + since).0.openUntil == Some(failed.attempts[k].doneAt + cfg.cooldown)
  {
    var e := Evaluate(cfg, s, failed);
    SentCallLeaves(cfg, s, failed, k);
    assert ([failed] + since)[1..] == since;
    if since != [] {
      RejectedRunLeaves(cfg, e.client, Observe(t, s, e), since);
    }
  }
}
