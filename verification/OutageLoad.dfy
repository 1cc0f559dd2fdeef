/** How many RPCs an unavailable policy server receives from one client: the failure count
  * survives the cooldown, so after the threshold each cooldown admits one more call. */
module OutageLoad {
  import opened Wrappers
  import opened PolicyCalls
  import opened Breaker
  import opened Arithmetic

  // A run of calls on one clock in which no call gets a reply.
  ghost predicate Outage(cfg: Config, s: Client, now: nat, calls: seq<Call>)
    requires cfg.Valid()
    decreases |calls|
  {
    calls == [] ||
    (&& Ticking(cfg, calls[0]) && now <= calls[0].startedAt
     && var e := Evaluate(cfg, s, calls[0]);
        e.result.Err? && Outage(cfg, e.client, e.endedAt, calls[1..]))
  }

  function SentBy(sent: seq<nat>, horizon: nat): nat {
    if sent == [] then 0 else (if sent[0] <= horizon then 1 else 0) + SentBy(sent[1..], horizon)
  }

  // The RPCs the server receives up to and including the instant `horizon`.
  ghost function Load(cfg: Config, s: Client, now: nat, calls: seq<Call>, horizon: nat): nat
    requires cfg.Valid() && Outage(cfg, s, now, calls)
    decreases |calls|
  {
    if calls == [] then 0
    else
      var e := Evaluate(cfg, s, calls[0]);
      SentBy(e.sent, horizon) + Load(cfg, e.client, e.endedAt, calls[1..], horizon)
  }

  lemma {:induction false} SentByIsBounded(sent: seq<nat>, horizon: nat)
    ensures SentBy(sent, horizon) <= |sent|
    ensures (forall i :: 0 <= i < |sent| ==> sent[i] > horizon) ==> SentBy(sent, horizon) == 0
  {
    if sent != [] {
      SentByIsBounded(sent[1..], horizon);
    }
  }

  // The instant from which the breaker lets a call through.
  function ReadyAt(s: Client, now: nat): nat {
    if s.openUntil.Some? && s.openUntil.value > now then s.openUntil.value else now
  }

  // How many more calls can send RPCs up to the horizon: those left below the threshold, at
  // least one, and one for each whole cooldown that remains.
  function Allowance(cfg: Config, s: Client, now: nat, horizon: nat): nat
    requires cfg.cooldown > 0
  {
    var ready := ReadyAt(s, now);
    if ready > horizon then 0
    else (if s.failures < cfg.threshold then cfg.threshold - s.failures else 1) + (horizon - ready) / cfg.cooldown
  }

  // A call without RPCs earns nothing.
  lemma IdleCallKeepsAllowance(cfg: Config, s: Client, now: nat, call: Call, horizon: nat)
    requires cfg.Valid() && cfg.cooldown > 0 && Ticking(cfg, call) && now <= call.startedAt
    requires Evaluate(cfg, s, call).sent == []
    ensures var e := Evaluate(cfg, s, call);
      Allowance(cfg, e.client, e.endedAt, horizon) <= Allowance(cfg, s, now, horizon)
  {
    var e := Evaluate(cfg, s, call);
    CallSendsPerAttempt(cfg, PassBreaker(s.(requests := s.requests + 1)), call, 1);
    assert ReadyAt(e.client, e.endedAt) >= ReadyAt(s, now) && e.client.failures == s.failures;
    if ReadyAt(e.client, e.endedAt) <= horizon {
      DivisionGrows(horizon - ReadyAt(e.client, e.endedAt), horizon - ReadyAt(s, now), cfg.cooldown);
    }
  }

  // Marking a failure costs one: it either gets closer to the threshold or starts a cooldown.
  lemma MarkingCostsOne(cfg: Config, s: Client, now: nat, t: Client, endedAt: nat, horizon: nat)
    requires cfg.Valid() && cfg.cooldown > 0 && ReadyAt(s, now) <= endedAt && ReadyAt(s, now) <= horizon
    requires t.failures == NextFailures(s)
    requires t.openUntil == if Trips(cfg, s) then Some(endedAt + cfg.cooldown) else None
    ensures Allowance(cfg, t, endedAt, horizon) + 1 <= Allowance(cfg, s, now, horizon)
  {
    var ready, next, c := ReadyAt(s, now), ReadyAt(t, endedAt), cfg.cooldown;
    if next <= horizon {
      if Trips(cfg, s) {
        DivisionGrows(horizon - next + c, horizon - ready, c);
        DivisionByWholeStep(horizon - next, c);
      } else {
        DivisionGrows(horizon - next, horizon - ready, c);
      }
    }
  }

  lemma FailedCallCostsOne(cfg: Config, s: Client, now: nat, call: Call, horizon: nat)
    requires cfg.Valid() && cfg.cooldown > 0 && Ticking(cfg, call) && now <= call.startedAt <= horizon
    requires var e := Evaluate(cfg, s, call); e.sent != [] && e.result.Err?
    ensures var e := Evaluate(cfg, s, call);
      Allowance(cfg, e.client, e.endedAt, horizon) + 1 <= Allowance(cfg, s, now, horizon)
  {
    var e := Evaluate(cfg, s, call);
    FailedCallMarks(cfg, s, call);
    CallTakesTime(cfg, s, call);
    assert ReadyAt(s, now) <= call.startedAt <= e.endedAt;
    MarkingCostsOne(cfg, s, now, e.client, e.endedAt, horizon);
  }

  // What one call of an outage sends is paid for by the allowance it uses up.
  lemma CallIsPaidFor(cfg: Config, s: Client, now: nat, call: Call, horizon: nat)
    requires cfg.Valid() && cfg.cooldown > 0 && Ticking(cfg, call) && now <= call.startedAt
    requires Evaluate(cfg, s, call).result.Err?
    ensures var e := Evaluate(cfg, s, call);
      SentBy(e.sent, horizon) + cfg.maxAttempts * Allowance(cfg, e.client, e.endedAt, horizon)
      <= cfg.maxAttempts * Allowance(cfg, s, now, horizon)
  {
    var e := Evaluate(cfg, s, call);
    var before, after := Allowance(cfg, s, now, horizon), Allowance(cfg, e.client, e.endedAt, horizon);
    SentByIsBounded(e.sent, horizon);
    CallTakesTime(cfg, s, call);
    MultiplesGrow(cfg.maxAttempts, after, before);
    if e.sent == [] {
      IdleCallKeepsAllowance(cfg, s, now, call, horizon);
    } else if call.startedAt > horizon {
      assert after == 0;
    } else {
      FailedCallMarks(cfg, s, call);
      FailedCallCostsOne(cfg, s, now, call, horizon);
    }
  }

  lemma {:induction false} LoadWithinAllowance(cfg: Config, s: Client, now: nat, calls: seq<Call>, horizon: nat)
    requires cfg.Valid() && cfg.cooldown > 0 && Outage(cfg, s, now, calls)
    ensures Load(cfg, s, now, calls, horizon) <= cfg.maxAttempts * Allowance(cfg, s, now, horizon)
    decreases |calls|
  {
    if calls != [] {
      var e := Evaluate(cfg, s, calls[0]);
      LoadWithinAllowance(cfg, e.client, e.endedAt, calls[1..], horizon);
      CallIsPaidFor(cfg, s, now, calls[0], horizon);
    }
  }

  // From a fresh client, while no call gets a reply, the server receives at most `maxAttempts`
  // RPCs for each of the first `threshold` calls and for each whole cooldown that has passed.
  lemma OutageLoadIsBounded(cfg: Config, connectedAt: nat, calls: seq<Call>, duration: nat)
    requires cfg.Valid() && cfg.cooldown > 0 && Outage(cfg, FRESH, connectedAt, calls)
    ensures Load(cfg, FRESH, connectedAt, calls, connectedAt + duration)
         <= cfg.maxAttempts * (cfg.threshold + duration / cfg.cooldown)
  {
    LoadWithinAllowance(cfg, FRESH, connectedAt, calls, connectedAt + duration);
  }
}
