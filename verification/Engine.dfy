/** The policy engine: one pass over the rules that remembers the first matching allow and the
  * first matching deny, and the deny-overrides decision it stands for. */
module Engine {
  import opened Wrappers
  import opened Types
  import opened Subject

  datatype Rule = Rule(id: string, effect: Effect, subject: string, actions: seq<string>, resources: seq<string>)

  datatype Request = Request(subject: string, action: string, resource: string)

  datatype Reason = MatchedAllow(ruleId: string) | MatchedDeny(ruleId: string) | NoMatch

  datatype Decision = Decision(effect: Effect, reason: Reason)

  predicate AnyPatternMatches(patterns: seq<string>, value: string) {
    exists i :: 0 <= i < |patterns| && MatchesPattern(patterns[i], value)
  }

  predicate Matches(rule: Rule, request: Request) {
    && SubjectMatches(rule.subject, request.subject)
    && AnyPatternMatches(rule.actions, request.action)
    && AnyPatternMatches(rule.resources, request.resource)
  }

  predicate Hits(rule: Rule, request: Request, effect: Effect) {
    rule.effect == effect && Matches(rule, request)
  }

  // The rule at i is the first with this effect that matches.
  ghost predicate IsFirst(rules: seq<Rule>, request: Request, effect: Effect, i: nat) {
    && i < |rules| && Hits(rules[i], request, effect)
    && forall j :: 0 <= j < i ==> !Hits(rules[j], request, effect)
  }

  ghost predicate Has(rules: seq<Rule>, request: Request, effect: Effect) {
    exists rule :: rule in rules && Hits(rule, request, effect)
  }

  // Deny overrides allow, the first rule of the deciding effect is named, and without a match the
  // answer is deny.
  ghost predicate Decides(rules: seq<Rule>, request: Request, d: Decision) {
    match d.reason
    case MatchedDeny(id) => d.effect == Deny && exists i: nat :: IsFirst(rules, request, Deny, i) && rules[i].id == id
    case MatchedAllow(id) =>
      && d.effect == Allow && !Has(rules, request, Deny)
      && exists i: nat :: IsFirst(rules, request, Allow, i) && rules[i].id == id
    case NoMatch => d.effect == Deny && !Has(rules, request, Deny) && !Has(rules, request, Allow)
  }

  // ---- what a decision means, from the texts of the rules alone ----

  // Subject, actions and resources all have to fit.
  ghost predicate RuleFits(rule: Rule, request: Request) {
    && SubjectFits(rule.subject, request.subject)
    && (exists i :: 0 <= i < |rule.actions| && PatternFits(rule.actions[i], request.action))
    && (exists i :: 0 <= i < |rule.resources| && PatternFits(rule.resources[i], request.resource))
  }

  // The rule at i is the first with this effect that fits.
  ghost predicate FitsFirst(rules: seq<Rule>, request: Request, effect: Effect, i: nat) {
    && i < |rules| && rules[i].effect == effect && RuleFits(rules[i], request)
    && forall j :: 0 <= j < i && rules[j].effect == effect ==> !RuleFits(rules[j], request)
  }

  ghost predicate NoneFits(rules: seq<Rule>, request: Request, effect: Effect) {
    forall i :: 0 <= i < |rules| && rules[i].effect == effect ==> !RuleFits(rules[i], request)
  }

  // Some deny fits: deny, naming the first. Else some allow fits: allow, naming the first. Else deny.
  ghost predicate Answers(rules: seq<Rule>, request: Request, d: Decision) {
    && (d.effect == Allow <==> !NoneFits(rules, request, Allow) && NoneFits(rules, request, Deny))
    && (d.reason == NoMatch <==> NoneFits(rules, request, Allow) && NoneFits(rules, request, Deny))
    && (forall i: nat :: FitsFirst(rules, request, Deny, i) ==> d.reason == MatchedDeny(rules[i].id))
    && (forall i: nat :: FitsFirst(rules, request, Allow, i) && NoneFits(rules, request, Deny) ==>
          d.reason == MatchedAllow(rules[i].id))
  }

  lemma FitsExactly(rule: Rule, request: Request)
    ensures Matches(rule, request) <==> RuleFits(rule, request)
  {
    SubjectFitsExactly(rule.subject, request.subject);
    forall i | 0 <= i < |rule.actions|
      ensures MatchesPattern(rule.actions[i], request.action) <==> PatternFits(rule.actions[i], request.action)
    {
      PatternFitsExactly(rule.actions[i], request.action);
    }
    forall i | 0 <= i < |rule.resources|
      ensures MatchesPattern(rule.resources[i], request.resource) <==> PatternFits(rule.resources[i], request.resource)
    {
      PatternFitsExactly(rule.resources[i], request.resource);
    }
  }

  lemma FirstFitsExactly(rules: seq<Rule>, request: Request, effect: Effect)
    ensures forall i: nat :: FitsFirst(rules, request, effect, i) <==> IsFirst(rules, request, effect, i)
    ensures NoneFits(rules, request, effect) <==> !Has(rules, request, effect)
  {
    forall i | 0 <= i < |rules|
      ensures Hits(rules[i], request, effect) <==> rules[i].effect == effect && RuleFits(rules[i], request)
    {
      FitsExactly(rules[i], request);
    }
    if Has(rules, request, effect) {
      var rule :| rule in rules && Hits(rule, request, effect);
      var i :| 0 <= i < |rules| && rules[i] == rule;
      assert rules[i].effect == effect && RuleFits(rules[i], request);
    }
    if !NoneFits(rules, request, effect) {
      var i :| 0 <= i < |rules| && rules[i].effect == effect && RuleFits(rules[i], request);
      assert rules[i] in rules;
    }
  }

  lemma DecisionAnswers(rules: seq<Rule>, request: Request, d: Decision)
    requires Decides(rules, request, d)
    ensures Answers(rules, request, d)
  {
    FirstFitsExactly(rules, request, Deny);
    FirstFitsExactly(rules, request, Allow);
    AllowedExactly(rules, request, d);
    forall i: nat, effect | IsFirst(rules, request, effect, i) ensures Has(rules, request, effect) {
      assert rules[i] in rules;
    }
  }

  // A rule that does not fit, be it for its subject, its actions or its resources, never matters.
  lemma RuleThatMissesIsIgnored(a: seq<Rule>, rule: Rule, b: seq<Rule>, request: Request, d: Decision)
    requires !RuleFits(rule, request) && Decides(a + [rule] + b, request, d)
    ensures Decides(a + b, request, d)
  {
    var with, without := a + [rule] + b, a + b;
    FitsExactly(rule, request);
    forall effect ensures Has(with, request, effect) <==> Has(without, request, effect) {
      HasWithoutMiss(a, rule, b, request, effect);
    }
    forall effect, i: nat | IsFirst(with, request, effect, i)
      ensures IsFirst(without, request, effect, if i < |a| then i else i - 1)
      ensures with[i] == without[if i < |a| then i else i - 1]
    {
      FirstWithoutMiss(a, rule, b, request, effect, i);
    }
  }

  lemma HasWithoutMiss(a: seq<Rule>, rule: Rule, b: seq<Rule>, request: Request, effect: Effect)
    requires !Matches(rule, request)
    ensures Has(a + [rule] + b, request, effect) <==> Has(a + b, request, effect)
  {
    assert forall r :: r in a + [rule] + b <==> r == rule || r in a + b;
  }

  lemma FirstWithoutMiss(a: seq<Rule>, rule: Rule, b: seq<Rule>, request: Request, effect: Effect, i: nat)
    requires !Matches(rule, request) && IsFirst(a + [rule] + b, request, effect, i)
    ensures i != |a|
    ensures var k := if i < |a| then i else i - 1;
      IsFirst(a + b, request, effect, k) && (a + [rule] + b)[i] == (a + b)[k]
  {
    var with, without := a + [rule] + b, a + b;
    assert with[|a|] == rule;
    assert forall j :: 0 <= j < |a| ==> without[j] == with[j];
    assert forall j :: |a| <= j < |without| ==> without[j] == with[j + 1];
  }

  // The first rule of an effect among the first n rules, if there is one.
  ghost predicate Remembers(rules: seq<Rule>, request: Request, effect: Effect, n: nat, first: Option<Rule>) {
    match first
    case None => forall j :: 0 <= j < n && j < |rules| ==> !Hits(rules[j], request, effect)
    case Some(rule) => exists i: nat :: i < n && IsFirst(rules, request, effect, i) && rules[i] == rule
  }

  // The next rule is remembered if it is the first of its effect that matches.
  lemma RemembersOneMore(rules: seq<Rule>, request: Request, effect: Effect, n: nat, first: Option<Rule>)
    requires n < |rules| && Remembers(rules, request, effect, n, first)
    ensures Remembers(rules, request, effect, n + 1,
      if first.None? && Hits(rules[n], request, effect) then Some(rules[n]) else first)
  {
    if first.None? && Hits(rules[n], request, effect) {
      assert IsFirst(rules, request, effect, n);
    }
  }

  method EvaluatePolicy(rules: seq<Rule>, request: Request) returns (d: Decision)
    ensures Decides(rules, request, d)
    ensures Answers(rules, request, d)
  {
    var firstAllow: Option<Rule> := None;
    var firstDeny: Option<Rule> := None;
    for n := 0 to |rules|
      invariant Remembers(rules, request, Allow, n, firstAllow)
      invariant Remembers(rules, request, Deny, n, firstDeny)
    {
      RemembersOneMore(rules, request, Allow, n, firstAllow);
      RemembersOneMore(rules, request, Deny, n, firstDeny);
      var rule := rules[n];
      if Matches(rule, request) {
        match rule.effect
        case Allow =>
          if firstAllow.None? {
            firstAllow := Some(rule);
          }
        case Deny =>
          if firstDeny.None? {
            firstDeny := Some(rule);
          }
      }
    }
    if firstDeny.Some? {
      d := Decision(Deny, MatchedDeny(firstDeny.value.id));
    } else if firstAllow.Some? {
      d := Decision(Allow, MatchedAllow(firstAllow.value.id));
    } else {
      d := Decision(Deny, NoMatch);
    }
    DecisionAnswers(rules, request, d);
  }

  // The decision is determined by the rules and the request.
  lemma DecisionIsUnique(rules: seq<Rule>, request: Request, d1: Decision, d2: Decision)
    requires Decides(rules, request, d1) && Decides(rules, request, d2)
    ensures d1 == d2
  {
    forall i: nat, effect | IsFirst(rules, request, effect, i) ensures Has(rules, request, effect) {
      assert rules[i] in rules;
    }
  }

  // What is allowed is exactly what some rule allows and no rule denies.
  lemma AllowedExactly(rules: seq<Rule>, request: Request, d: Decision)
    requires Decides(rules, request, d)
    ensures d.effect == Allow <==> Has(rules, request, Allow) && !Has(rules, request, Deny)
  {
    forall i: nat, effect | IsFirst(rules, request, effect, i) ensures Has(rules, request, effect) {
      assert rules[i] in rules;
    }
  }

  // The order of the rules does not matter to the effect.
  lemma EffectIgnoresOrder(rules1: seq<Rule>, rules2: seq<Rule>, request: Request, d1: Decision, d2: Decision)
    requires multiset(rules1) == multiset(rules2)
    requires Decides(rules1, request, d1) && Decides(rules2, request, d2)
    ensures d1.effect == d2.effect
  {
    forall rule ensures rule in rules1 <==> rule in rules2 {
      assert rule in rules1 <==> rule in multiset(rules1);
      assert rule in rules2 <==> rule in multiset(rules2);
    }
    AllowedExactly(rules1, request, d1);
    AllowedExactly(rules2, request, d2);
  }

  // How the decisions of two rule lists combine: a deny of either wins, the first list's before the
  // second's; then an allow in the same order.
  function Combine(d1: Decision, d2: Decision): Decision {
    if d1.reason.MatchedDeny? then d1
    else if d2.reason.MatchedDeny? then d2
    else if d1.reason.MatchedAllow? then d1 else d2
  }

  lemma HasInConcat(a: seq<Rule>, b: seq<Rule>, request: Request, effect: Effect)
    ensures Has(a + b, request, effect) <==> Has(a, request, effect) || Has(b, request, effect)
  {}

  lemma FirstInConcat(a: seq<Rule>, b: seq<Rule>, request: Request, effect: Effect, i: nat)
    ensures IsFirst(a, request, effect, i) ==> IsFirst(a + b, request, effect, i)
    ensures !Has(a, request, effect) && IsFirst(b, request, effect, i) ==> IsFirst(a + b, request, effect, |a| + i)
  {
    if !Has(a, request, effect) && IsFirst(b, request, effect, i) {
      forall j | 0 <= j < |a| + i ensures !Hits((a + b)[j], request, effect) {
        if j < |a| { assert a[j] in a; }
      }
    }
  }

  // Deciding over two lists one after the other combines their decisions.
  lemma DecisionsCompose(a: seq<Rule>, b: seq<Rule>, request: Request, d1: Decision, d2: Decision)
    requires Decides(a, request, d1) && Decides(b, request, d2)
    ensures Decides(a + b, request, Combine(d1, d2))
  {
    HasInConcat(a, b, request, Allow);
    HasInConcat(a, b, request, Deny);
    AllowedExactly(a, request, d1);
    AllowedExactly(b, request, d2);
    var d := Combine(d1, d2);
    var effect := if d.reason.MatchedDeny? then Deny else Allow;
    if !d.reason.NoMatch? {
      if d == d1 {
        var i: nat :| IsFirst(a, request, effect, i) && a[i].id == d.reason.ruleId;
        FirstInConcat(a, b, request, effect, i);
        assert (a + b)[i].id == d.reason.ruleId;
      } else {
        var i: nat :| IsFirst(b, request, effect, i) && b[i].id == d.reason.ruleId;
        FirstInConcat(a, b, request, effect, i);
        NoMatchMeansNone(a, request, effect, d1);
        assert (a + b)[|a| + i].id == d.reason.ruleId;
      }
    }
  }

  // A decision that does not name a rule of an effect found none, except that a deny hides allows.
  lemma NoMatchMeansNone(rules: seq<Rule>, request: Request, effect: Effect, d: Decision)
    requires Decides(rules, request, d) && !d.reason.MatchedDeny?
    requires effect == Allow ==> d.reason.NoMatch?
    ensures !Has(rules, request, effect)
  {}
}
