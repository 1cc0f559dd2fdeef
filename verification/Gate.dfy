/** From a decision to an executed action: the two wire mappings, and the gate that runs the
  * executor only on an allow and records every outcome but an executor error. */
module Gate {
  import opened Wrappers
  import opened Types
  import Engine
  import PolicyCalls
  import Breaker

  // grpc.rs, the server's half.
  function MapDecisionFields(d: Engine.Decision): Response {
    var effect := if d.effect == Allow then "allow" else "deny";
    match d.reason
    case MatchedAllow(id) => Response(effect, "allowed by matching rule", id)
    case MatchedDeny(id) => Response(effect, "denied by matching rule", id)
    case NoMatch => Response(effect, "denied by default because no matching rule was found", "")
  }

  // The client's half: anything but `allow` denies.
  function MapGrpcDecision(request: ActionRequest, r: Response): DecisionRecord {
    DecisionRecord(
      request.version,
      if r.effect == "allow" then Allow else Deny,
      r.reason,
      if r.ruleId == "" then None else Some(r.ruleId))
  }

  // Whatever the service writes as effect, only the text `allow` allows; an empty rule id is none.
  lemma OnlyAllowAllows(request: ActionRequest, r: Response)
    ensures var seen := MapGrpcDecision(request, r);
      && (seen.effect == Allow <==> r.effect == "allow")
      && (seen.ruleId == None <==> r.ruleId == "") && (seen.ruleId.Some? ==> seen.ruleId.value == r.ruleId)
      && seen.reason == r.reason && seen.version == request.version
  {}

  // Across the wire the effect survives, and the rule id is missing exactly when no rule matched
  // or the deciding rule's id is empty; a rule id that arrives names a rule with that effect that
  // matches the request.
  lemma WireKeepsDecision(request: ActionRequest, rules: seq<Engine.Rule>, asked: Engine.Request, d: Engine.Decision)
    requires Engine.Decides(rules, asked, d)
    ensures var seen := MapGrpcDecision(request, MapDecisionFields(d));
      && seen.effect == d.effect && seen.version == request.version
      && (d.reason.MatchedAllow? ==> seen.reason == "allowed by matching rule")
      && (d.reason.MatchedDeny? ==> seen.reason == "denied by matching rule")
      && (d.reason.NoMatch? ==> seen.reason == "denied by default because no matching rule was found")
      && (seen.ruleId == None <==> d.reason.NoMatch? || d.reason.ruleId == "")
      && (seen.ruleId.Some? ==>
            exists rule :: rule in rules && rule.id == seen.ruleId.value && Engine.Hits(rule, asked, seen.effect))
      && ((forall rule :: rule in rules ==> rule.id != "") ==>
            (seen.ruleId == None <==> Engine.NoneFits(rules, asked, Allow) && Engine.NoneFits(rules, asked, Deny)))
  {
    Engine.FirstFitsExactly(rules, asked, Allow);
    Engine.FirstFitsExactly(rules, asked, Deny);
    if !d.reason.NoMatch? {
      var effect := if d.reason.MatchedDeny? then Deny else Allow;
      var i: nat :| Engine.IsFirst(rules, asked, effect, i) && rules[i].id == d.reason.ruleId;
      assert rules[i] in rules;
    }
  }

  // What the gate has done so far.
  datatype Ledger = Ledger(audit: seq<AuditEvent>, allows: nat, denies: nat, executed: seq<ActionRequest>)

  const BLANK := Ledger([], 0, 0, [])

  datatype ActionError = ActionDenied(message: string) | ExecutorFailed(error: string)

  // One action: what the client answered, what the executor would answer, and the time.
  datatype Action = Action(
    request: ActionRequest, policy: Result<DecisionRecord, string>,
    execution: Result<ActionResult, string>, now: nat)

  function BuildAuditEvent(
    request: ActionRequest, decision: DecisionRecord, outcome: ActionStatus, now: nat): AuditEvent
  {
    AuditEvent(request.version, request.requestId, request.correlationId, now,
               request.subject, request.action, request.resource, decision, outcome)
  }

  // The decision the gate acts on: an unavailable policy denies.
  function Verdict(a: Action): DecisionRecord {
    match a.policy
    case Ok(decision) => decision
    case Err(error) =>
      DecisionRecord(a.request.version, Deny, "policy unavailable: " + error + "; request denied", None)
  }

  function Process(l: Ledger, a: Action): (Ledger, Result<ActionResult, ActionError>) {
    var decision := Verdict(a);
    if decision.effect == Deny then
      (l.(audit := l.audit + [BuildAuditEvent(a.request, decision, Denied, a.now)], denies := l.denies + 1),
       Err(ActionDenied(decision.reason)))
    else
      var ran := l.(executed := l.executed + [a.request]);
      match a.execution
      case Err(error) => (ran, Err(ExecutorFailed(error)))
      case Ok(result) =>
        (ran.(audit := ran.audit + [BuildAuditEvent(a.request, decision, result.status, a.now)],
              allows := ran.allows + 1),
         Ok(result))
  }

  // What the caller is told, from the policy's answer and the executor's: an unavailable policy and
  // a deny are refusals with their reason; under an allow it is what the executor answered.
  predicate AnswersCaller(a: Action, result: Result<ActionResult, ActionError>) {
    match a.policy
    case Err(error) => result == Err(ActionDenied("policy unavailable: " + error + "; request denied"))
    case Ok(decision) =>
      match decision.effect
      case Deny => result == Err(ActionDenied(decision.reason))
      case Allow =>
        match a.execution
        case Ok(answer) => result == Ok(answer)
        case Err(error) => result == Err(ExecutorFailed(error))
  }

  lemma ResultExactly(l: Ledger, a: Action)
    ensures AnswersCaller(a, Process(l, a).1)
    ensures Process(l, a).1.Ok? <==> a.policy.Ok? && a.policy.value.effect == Allow && a.execution.Ok?
  {}

  // The gate as it is run: effects in order on counters, executor and audit sink.
  class ActionGate {
    var audit: seq<AuditEvent>
    var allows: nat
    var denies: nat
    var executed: seq<ActionRequest>

    ghost function State(): Ledger
      reads this
    {
      Ledger(audit, allows, denies, executed)
    }

    constructor ()
      ensures State() == BLANK
    {
      audit, allows, denies, executed := [], 0, 0, [];
    }

    method ProcessAction(a: Action) returns (result: Result<ActionResult, ActionError>)
      modifies this
      ensures (State(), result) == Process(old(State()), a)
      ensures AnswersCaller(a, result)
    {
      var record;
      match a.policy {
        case Ok(decision) =>
          record := decision;
        case Err(error) =>
          var message := "policy unavailable: " + error + "; request denied";
          var refused := DecisionRecord(a.request.version, Deny, message, None);
          audit := audit + [BuildAuditEvent(a.request, refused, Denied, a.now)];
          denies := denies + 1;
          return Err(ActionDenied(message));
      }
      if record.effect == Deny {
        audit := audit + [BuildAuditEvent(a.request, record, Denied, a.now)];
        denies := denies + 1;
        return Err(ActionDenied(record.reason));
      }
      executed := executed + [a.request];
      if a.execution.Err? {
        return Err(ExecutorFailed(a.execution.error));
      }
      allows := allows + 1;
      audit := audit + [BuildAuditEvent(a.request, record, a.execution.value.status, a.now)];
      result := Ok(a.execution.value);
    }
  }

  function Run(l: Ledger, actions: seq<Action>): Ledger {
    if actions == [] then l
    else
      var n := |actions| - 1;
      Process(Run(l, actions[..n]), actions[n]).0
  }

  // What the callers of a run are told.
  function Results(actions: seq<Action>): (results: seq<Result<ActionResult, ActionError>>)
    ensures |results| == |actions|
  {
    if actions == [] then []
    else
      var n := |actions| - 1;
      Results(actions[..n]) + [Process(Run(BLANK, actions[..n]), actions[n]).1]
  }

  function Executions(results: seq<Result<ActionResult, ActionError>>): nat {
    if results == [] then 0
    else
      var n := |results| - 1;
      Executions(results[..n]) + if results[n].Ok? then 1 else 0
  }

  function Refusals(results: seq<Result<ActionResult, ActionError>>): nat {
    if results == [] then 0
    else
      var n := |results| - 1;
      Refusals(results[..n]) + if results[n].Err? && results[n].error.ActionDenied? then 1 else 0
  }

  // The counters count what the callers were told.
  lemma {:induction false} CountersMatchResults(actions: seq<Action>)
    ensures Executions(Results(actions)) == Run(BLANK, actions).allows
    ensures Refusals(Results(actions)) == Run(BLANK, actions).denies
    ensures forall i :: 0 <= i < |actions| ==> AnswersCaller(actions[i], Results(actions)[i])
  {
    if actions != [] {
      var n := |actions| - 1;
      CountersMatchResults(actions[..n]);
      assert Results(actions)[..n] == Results(actions[..n]);
      forall i | 0 <= i < n ensures AnswersCaller(actions[i], Results(actions)[i]) {
        assert actions[i] == actions[..n][i] && Results(actions)[i] == Results(actions[..n])[i];
      }
    }
  }

  predicate ExecutorErrs(a: Action) {
    Verdict(a).effect == Allow && a.execution.Err?
  }

  function ExecutorErrors(actions: seq<Action>): nat {
    if actions == [] then 0
    else
      var n := |actions| - 1;
      ExecutorErrors(actions[..n]) + if ExecutorErrs(actions[n]) then 1 else 0
  }

  // Every action is audited and counted once, except those the executor fails on; the executor ran
  // once for each allow and each of its errors.
  lemma {:induction false} EveryOutcomeIsRecorded(actions: seq<Action>)
    ensures var l := Run(BLANK, actions);
      && |l.audit| == l.allows + l.denies
      && l.allows + l.denies + ExecutorErrors(actions) == |actions|
      && |l.executed| == l.allows + ExecutorErrors(actions)
  {
    if actions != [] {
      EveryOutcomeIsRecorded(actions[..|actions| - 1]);
    }
  }

  predicate IsAllowed(a: Action) {
    a.policy.Ok? && a.policy.value.effect == Allow
  }

  lemma ExecutesOneMore(actions: seq<Action>)
    requires actions != []
    ensures var n := |actions| - 1;
      Run(BLANK, actions).executed
      == Run(BLANK, actions[..n]).executed + if IsAllowed(actions[n]) then [actions[n].request] else []
  {}

  // The executor is given exactly the requests the policy allowed, once each and in order.
  lemma {:induction false} ExecutionsAreTheAllowed(actions: seq<Action>) returns (source: seq<nat>)
    ensures var executed := Run(BLANK, actions).executed;
      && |source| == |executed|
      && (forall i :: 0 <= i < |source| ==> source[i] < |actions| && executed[i] == actions[source[i]].request)
      && (forall i, j :: 0 <= i < j < |source| ==> source[i] < source[j])
      && (forall k :: 0 <= k < |actions| ==> (k in source <==> IsAllowed(actions[k])))
  {
    source := [];
    if actions != [] {
      var n := |actions| - 1;
      source := ExecutionsAreTheAllowed(actions[..n]);
      ExecutesOneMore(actions);
      assert forall k :: 0 <= k < n ==> actions[..n][k] == actions[k];
      if IsAllowed(actions[n]) {
        source := source + [n];
      }
    }
  }

  // Whether what the executor answers to an action under an allow is that it was denied.
  predicate ExecutorDenies(a: Action) {
    Verdict(a).effect == Allow && a.execution.Ok? && a.execution.value.status == Denied
  }

  // An event's outcome is Denied under every deny decision; under an allow decision it is Denied
  // in some event of the run if and only if some executor answered so.
  lemma {:induction false} AuditedDecisionsMatchOutcomes(actions: seq<Action>)
    ensures forall e :: e in Run(BLANK, actions).audit && e.decision.effect == Deny ==> e.outcome == Denied
    ensures (forall e :: e in Run(BLANK, actions).audit ==> (e.decision.effect == Deny <==> e.outcome == Denied))
       <==> forall i :: 0 <= i < |actions| ==> !ExecutorDenies(actions[i])
  {
    if actions != [] {
      var n := |actions| - 1;
      var before, after := Run(BLANK, actions[..n]).audit, Run(BLANK, actions).audit;
      AuditedDecisionsMatchOutcomes(actions[..n]);
      assert before <= after && forall e :: e in before ==> e in after;
      if ExecutorDenies(actions[n]) {
        var e := after[|after| - 1];
        assert e in after && e.decision.effect == Allow && e.outcome == Denied;
      }
      if exists i :: 0 <= i < n && ExecutorDenies(actions[..n][i]) {
        var e :| e in before && !(e.decision.effect == Deny <==> e.outcome == Denied);
        assert e in after;
        var i :| 0 <= i < n && ExecutorDenies(actions[..n][i]);
        assert actions[i] == actions[..n][i];
      }
    }
  }

  // The event tells what was asked, what was decided and what came of it.
  predicate Describes(e: AuditEvent, a: Action) {
    && e.requestId == a.request.requestId && e.correlationId == a.request.correlationId
    && e.version == a.request.version
    && e.subject == a.request.subject && e.action == a.request.action && e.resource == a.request.resource
    && e.timestamp == a.now && e.decision == Verdict(a)
    && match Verdict(a).effect
       case Deny => e.outcome == Denied
       case Allow => a.execution.Ok? && e.outcome == a.execution.value.status
  }

  // The caller and the audit log are told the same: the status of what was executed, or the
  // reason of the refusal.
  predicate TellsAlike(e: AuditEvent, result: Result<ActionResult, ActionError>) {
    match result
    case Ok(answer) => e.decision.effect == Allow && e.outcome == answer.status
    case Err(ActionDenied(message)) => e.decision.effect == Deny && e.outcome == Denied && e.decision.reason == message
    case Err(ExecutorFailed(_)) => false
  }

  // The i-th audit event describes an action of the run and tells what its caller was told; later
  // events describe later actions.
  lemma {:induction false} EventsDescribeActions(actions: seq<Action>) returns (source: seq<nat>)
    ensures var audit := Run(BLANK, actions).audit;
      && |source| == |audit|
      && (forall i :: 0 <= i < |source| ==> source[i] < |actions| && Describes(audit[i], actions[source[i]]))
      && (forall i, j :: 0 <= i < j < |source| ==> source[i] < source[j])
      && (forall i :: 0 <= i < |source| ==> TellsAlike(audit[i], Results(actions)[source[i]]))
  {
    source := [];
    if actions != [] {
      var n := |actions| - 1;
      source := EventsDescribeActions(actions[..n]);
      assert Results(actions)[..n] == Results(actions[..n]);
      if !ExecutorErrs(actions[n]) {
        source := source + [n];
      }
    }
  }

  ghost predicate IsAnswer(rules: seq<Engine.Rule>, asked: Engine.Request, response: Response) {
    exists d :: Engine.Decides(rules, asked, d) && response == MapDecisionFields(d)
  }

  // The policy service answers every attempt that gets an answer by the rules.
  ghost predicate AnswersBy(rules: seq<Engine.Rule>, request: ActionRequest, call: PolicyCalls.Call) {
    var asked := Engine.Request(request.subject, request.action, request.resource);
    forall i :: 0 <= i < |call.attempts| && call.attempts[i].outcome.Reply? ==>
      IsAnswer(rules, asked, call.attempts[i].outcome.response)
  }

  // A reply the client returns is the answer to one of its attempts.
  lemma ReplyComesFromAnAttempt(cfg: PolicyCalls.Config, s: PolicyCalls.Client, call: PolicyCalls.Call)
    requires cfg.Valid() && cfg.maxAttempts == |call.attempts| && PolicyCalls.Evaluate(cfg, s, call).result.Ok?
    ensures var r := PolicyCalls.Evaluate(cfg, s, call).result.value;
      exists i :: 0 <= i < |call.attempts| && call.attempts[i].outcome == PolicyCalls.Reply(r)
  {
    var s2 := PolicyCalls.PassBreaker(s.(requests := s.requests + 1));
    Breaker.CallEndsWithLastAttempt(cfg, s2, call, 1);
    var k := Breaker.LastAttempt(cfg, call, 1);
    assert call.attempts[k - 1].outcome == PolicyCalls.Reply(PolicyCalls.Evaluate(cfg, s, call).result.value);
  }

  // End to end: the executor runs on a request exactly when the client obtains a reply and the
  // policy has a matching allow and no matching deny.
  lemma ExecutorRunsExactly(
    cfg: PolicyCalls.Config, s: PolicyCalls.Client, call: PolicyCalls.Call, rules: seq<Engine.Rule>,
    l: Ledger, a: Action)
    requires cfg.Valid() && cfg.maxAttempts == |call.attempts| && AnswersBy(rules, a.request, call)
    requires match PolicyCalls.Evaluate(cfg, s, call).result
      case Ok(response) => a.policy == Ok(MapGrpcDecision(a.request, response))
      case Err(_) => a.policy.Err?
    ensures var asked := Engine.Request(a.request.subject, a.request.action, a.request.resource);
      Process(l, a).0.executed == l.executed + [a.request]
      <==> PolicyCalls.Evaluate(cfg, s, call).result.Ok?
           && !Engine.NoneFits(rules, asked, Allow) && Engine.NoneFits(rules, asked, Deny)
  {
    var asked := Engine.Request(a.request.subject, a.request.action, a.request.resource);
    assert |l.executed + [a.request]| != |l.executed|;
    if PolicyCalls.Evaluate(cfg, s, call).result.Ok? {
      ReplyComesFromAnAttempt(cfg, s, call);
      var reply := PolicyCalls.Evaluate(cfg, s, call).result.value;
      var d :| Engine.Decides(rules, asked, d) && reply == MapDecisionFields(d);
      WireKeepsDecision(a.request, rules, asked, d);
      Engine.DecisionAnswers(rules, asked, d);
    }
  }
}
