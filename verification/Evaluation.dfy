/** Which rule decides a request: the engine's answer stated without its loop and without the sort. */
module Evaluation {
  import opened Sorting
  import opened Text
  import opened Ir
  import opened Engine
  import opened Determinism

  // ----- the order of rules and providers -----

  /** Smaller positions come first, and equal positions in the order of their ids. */
  ghost predicate Precedes(a: PolicyRule, b: PolicyRule) {
    a.position < b.position || (a.position == b.position && Lexicographic(a.id, b.id))
  }

  lemma RuleLeIsPrecedes(a: PolicyRule, b: PolicyRule)
    ensures RuleLe(a, b) <==> Precedes(a, b)
  {
    StringLeIsLexicographic(a.id, b.id);
    hide StringLe, Lexicographic;
  }

  /** Rules are evaluated in the order of their positions. */
  lemma RulesInOrder(rules: seq<PolicyRule>, i: nat, j: nat)
    requires i < j < |SortRules(rules)|
    ensures var a, b := SortRules(rules)[i], SortRules(rules)[j];
            a.position <= b.position && (a.position == b.position ==> Lexicographic(a.id, b.id))
  {
    SortRulesSorted(rules);
    hide SortRules, RuleLe;
    RuleLeIsPrecedes(SortRules(rules)[i], SortRules(rules)[j]);
  }

  /** Providers are asked in the order of their priorities. */
  lemma ProvidersInOrder(providers: seq<Provider>, i: nat, j: nat)
    requires i < j < |SortProviders(providers)|
    ensures var a, b := SortProviders(providers)[i], SortProviders(providers)[j];
            a.priority <= b.priority && (a.priority == b.priority ==> Lexicographic(a.key, b.key))
  {
    var a, b := SortProviders(providers)[i], SortProviders(providers)[j];
    ProviderLeIsTotal();
    SortSorts(providers, ProviderLe);
    assert ProviderLe(a, b);
    StringLeIsLexicographic(a.key, b.key);
    hide StringLe, Lexicographic, SortProviders;
  }

  // ----- the deciding rule -----

  /** The rule is switched on and every condition of it holds. */
  predicate Applies(rule: PolicyRule, request: Request, authenticationDisabled: bool) {
    && rule.enabled
    && MatchesSource(rule.source, request.sourceIp)
    && MatchesIdentity(rule.identity, request.identity, authenticationDisabled)
    && MatchesDestination(rule.destination, request.host, request.port)
    && MatchesSchedule(rule.schedule, request.at)
  }

  lemma MatchesIsApplies(rule: PolicyRule, request: Request, authenticationDisabled: bool)
    ensures RuleMatches(rule, request, authenticationDisabled) <==> Applies(rule, request, authenticationDisabled)
  {
    hide MatchesSource, MatchesIdentity, MatchesDestination, MatchesSchedule;
  }

  function Verdict(action: Action): Decision { match action case Allow => Permit case Deny => Refuse }

  /** Among the rules that apply, whatever their listing, the one with the least position decides; when none
      applies the default does. Only a request without credentials where they are required is challenged. */
  lemma LeastPositionDecides(ir: ConfigurationIr, mode: AuthMode, request: Request)
    ensures var e, disabled := EvaluateAs(ir, mode, request), mode == Disabled;
            if mode == Required && !request.identity.authenticated then e.decision == Challenge && e.matchedRule == None
            else match e.matchedRule
              case Some(rule) =>
                && rule in ir.rules && Applies(rule, request, disabled) && e.decision == Verdict(rule.action)
                && (forall other :: other in ir.rules && Applies(other, request, disabled) && other != rule
                      ==> Precedes(rule, other))
              case None =>
                && e.decision == Verdict(ir.defaultAccess)
                && (forall other :: other in ir.rules ==> !Applies(other, request, disabled))
  {
    var rules, disabled := SortRules(ir.rules), mode == Disabled;
    SortRulesMultiset(ir.rules);
    SortRulesSorted(ir.rules);
    forall rule ensures RuleMatches(rule, request, disabled) <==> Applies(rule, request, disabled) {
      MatchesIsApplies(rule, request, disabled);
    }
    hide RuleMatches, Applies, SortRules, RuleLe, TraceOf, FirstMatch;
    var i := FirstMatch(rules, request, disabled);
    forall other | other in ir.rules && Applies(other, request, disabled)
      ensures i < |rules| && (other != rules[i] ==> Precedes(rules[i], other))
    {
      var k :| 0 <= k < |rules| && rules[k] == other;
      assert i <= k;
      if i < k { RuleLeIsPrecedes(rules[i], other); }
    }
  }

  /** The trace looks at the rules in order up to the one that decides, and names for each of the others the
      first of its conditions that fails. */
  lemma TraceExplains(ir: ConfigurationIr, mode: AuthMode, request: Request, k: nat)
    requires k < |EvaluateAs(ir, mode, request).trace|
    ensures var e := EvaluateAs(ir, mode, request);
            var disabled := mode == Disabled;
            k < |SortRules(ir.rules)| &&
            var rule, entry := SortRules(ir.rules)[k], e.trace[k];
            && entry.ruleId == rule.id
            && (entry.matched <==> k == |e.trace| - 1 && e.matchedRule == Some(rule))
            && (entry.matched <==> entry.failedOn == None)
            && (e.matchedRule == None ==> |e.trace| == |SortRules(ir.rules)|)
            && (entry.failedOn == Some(DisabledRule) <==> !rule.enabled)
            && (entry.failedOn == Some(SourcePart) ==> !MatchesSource(rule.source, request.sourceIp))
            && (entry.failedOn == Some(IdentityPart) ==>
                  MatchesSource(rule.source, request.sourceIp)
                    && !MatchesIdentity(rule.identity, request.identity, disabled))
            && (entry.failedOn == Some(DestinationPart) ==>
                  MatchesIdentity(rule.identity, request.identity, disabled)
                  && !MatchesDestination(rule.destination, request.host, request.port))
            && (entry.failedOn == Some(SchedulePart) ==>
                  MatchesDestination(rule.destination, request.host, request.port)
                    && !MatchesSchedule(rule.schedule, request.at))
  {
    hide MatchesSource, MatchesIdentity, MatchesDestination, MatchesSchedule, SortRules;
  }
}
