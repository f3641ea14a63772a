/** What a proxy identity may reach (packages/shared/src/policy/accessProfile.ts): the profile lists
    the rules whose identity condition the identity meets, and evaluating only those decides like the
    whole rule list. */
module AccessProfile {
  import opened Text
  import opened Ir
  import opened Engine
  import opened Determinism
  import opened Sorting
  import Evaluation

  datatype Note = FirstMatchDecides | NetworkLimited | DefaultAllows | DefaultBlocks | NotIdentified

  datatype Profile = Profile(mode: AuthMode, defaultAccess: Action, entries: seq<PolicyRule>, notApplicable: nat,
                          notes: seq<Note>)

  predicate Applies(rule: PolicyRule, identity: RequestIdentity, disabled: bool) {
    rule.enabled && MatchesIdentity(rule.identity, identity, disabled)
  }

  /** The rules listed for the identity, in evaluation order. */
  function Listed(rules: seq<PolicyRule>, identity: RequestIdentity, disabled: bool): (r: seq<PolicyRule>)
    ensures forall rule :: rule in r <==> rule in rules && Applies(rule, identity, disabled)
    ensures |r| <= |rules|
  {
    if rules == [] then []
    else
      var init, last := Listed(rules[..|rules| - 1], identity, disabled), rules[|rules| - 1];
      if Applies(last, identity, disabled) then init + [last] else init
  }

  lemma NothingListed(identity: RequestIdentity, disabled: bool)
    ensures Listed([], identity, disabled) == []
  {
  }

  lemma ListedStep(rules: seq<PolicyRule>, i: nat, identity: RequestIdentity, disabled: bool)
    requires i < |rules|
    ensures Listed(rules[..i + 1], identity, disabled)
         == Listed(rules[..i], identity, disabled) + if Applies(rules[i], identity, disabled) then [rules[i]] else []
  {
    hide Applies;
    assert rules[..i + 1][..i] == rules[..i];
  }

  function NotesOf(ir: ConfigurationIr, entries: seq<PolicyRule>): seq<Note> {
    [FirstMatchDecides]
    + (if exists e :: e in entries && !e.source.AnySource? then [NetworkLimited] else [])
    + [if ir.defaultAccess == Allow then DefaultAllows else DefaultBlocks]
    + (if ir.authentication.mode == Disabled then [NotIdentified] else [])
  }

  method BuildNotes(ir: ConfigurationIr, entries: seq<PolicyRule>) returns (notes: seq<Note>)
    ensures notes == NotesOf(ir, entries)
  {
    notes := [FirstMatchDecides];
    if exists e :: e in entries && !e.source.AnySource? { notes := notes + [NetworkLimited]; }
    notes := notes + [if ir.defaultAccess == Allow then DefaultAllows else DefaultBlocks];
    if ir.authentication.mode == Disabled { notes := notes + [NotIdentified]; }
  }

  lemma SortKeepsLength(rules: seq<PolicyRule>)
    ensures |SortRules(rules)| == |rules|
  {
    SortRulesMultiset(rules);
    hide SortRules;
    assert |SortRules(rules)| == |multiset(SortRules(rules))| == |multiset(rules)| == |rules|;
  }

  method BuildAccessProfile(ir: ConfigurationIr, identity: RequestIdentity) returns (profile: Profile)
    ensures profile.mode == ir.authentication.mode && profile.defaultAccess == ir.defaultAccess
    ensures profile.entries == Listed(SortRules(ir.rules), identity, ir.authentication.mode == Disabled)
    ensures |profile.entries| + profile.notApplicable == |ir.rules|
    ensures profile.notes == NotesOf(ir, profile.entries)
  {
    hide MatchesIdentity, SortRules, NotesOf, Listed;
    var authenticationDisabled := ir.authentication.mode == Disabled;
    var entries: seq<PolicyRule>, notApplicable: nat := [], 0;
    var rules := SortRules(ir.rules);
    NothingListed(identity, authenticationDisabled);
    for i := 0 to |rules|
      invariant entries == Listed(rules[..i], identity, authenticationDisabled)
      invariant |entries| + notApplicable == i
    {
      ListedStep(rules, i, identity, authenticationDisabled);
      if !rules[i].enabled {
        notApplicable := notApplicable + 1;
        continue;
      }
      if !MatchesIdentity(rules[i].identity, identity, authenticationDisabled) {
        notApplicable := notApplicable + 1;
        continue;
      }
      entries := entries + [rules[i]];
    }
    assert rules[..|rules|] == rules;
    SortKeepsLength(ir.rules);
    var notes := BuildNotes(ir, entries);
    profile := Profile(ir.authentication.mode, ir.defaultAccess, entries, notApplicable, notes);
  }

  // ----- the listed rules decide like all rules -----

  lemma MatchingRulesApply(rule: PolicyRule, request: Request, disabled: bool)
    ensures RuleMatches(rule, request, disabled) ==> Applies(rule, request.identity, disabled)
  {
    hide MatchesSource, MatchesIdentity, MatchesDestination, MatchesSchedule;
  }

  lemma FirstMatchSnoc(rules: seq<PolicyRule>, rule: PolicyRule, request: Request, disabled: bool)
    ensures var i := FirstMatch(rules, request, disabled);
            FirstMatch(rules + [rule], request, disabled)
            == if i < |rules| then i else if RuleMatches(rule, request, disabled) then |rules| else |rules| + 1
  {
    hide RuleMatches;
    var all := rules + [rule];
    var i, j := FirstMatch(rules, request, disabled), FirstMatch(all, request, disabled);
    assert forall k :: 0 <= k < |rules| ==> all[k] == rules[k];
    assert all[|rules|] == rule;
  }

  /** The rule the engine picks, if it picks one. */
  function Picked(rules: seq<PolicyRule>, request: Request, disabled: bool): Option<PolicyRule> {
    var i := FirstMatch(rules, request, disabled);
    if i < |rules| then Some(rules[i]) else None
  }

  lemma {:induction false} ListedRulesPickTheSame(rules: seq<PolicyRule>, request: Request, disabled: bool)
    ensures Picked(Listed(rules, request.identity, disabled), request, disabled) == Picked(rules, request, disabled)
  {
    hide RuleMatches, Applies, FirstMatch;
    if rules != [] {
      var init, last := rules[..|rules| - 1], rules[|rules| - 1];
      var listed := Listed(init, request.identity, disabled);
      ListedRulesPickTheSame(init, request, disabled);
      MatchingRulesApply(last, request, disabled);
      FirstMatchSnoc(init, last, request, disabled);
      FirstMatchSnoc(listed, last, request, disabled);
      assert rules == init + [last];
    }
  }

  /** For every identity, evaluating only the listed rules picks the same rule and gives the same
      decision, from every source, for every destination and at every time. */
  lemma ListedRulesDecideTheSame(ir: ConfigurationIr, request: Request)
    ensures var mode := ir.authentication.mode; var disabled := mode == Disabled;
            var listed := Listed(SortRules(ir.rules), request.identity, disabled);
            && EvaluateSorted(listed, ir.defaultAccess, mode, request).decision == Evaluate(ir, request).decision
            && EvaluateSorted(listed, ir.defaultAccess, mode, request).matchedRule == Evaluate(ir, request).matchedRule
  {
    hide SortRules, RuleMatches, Listed, TraceOf;
    ListedRulesPickTheSame(SortRules(ir.rules), request, ir.authentication.mode == Disabled);
  }

  lemma {:induction false} ListedStaySorted(rules: seq<PolicyRule>, identity: RequestIdentity, disabled: bool)
    requires SortedBy(rules, RuleLe)
    ensures SortedBy(Listed(rules, identity, disabled), RuleLe)
  {
    hide RuleLe, Applies;
    if rules != [] {
      var init, last := rules[..|rules| - 1], rules[|rules| - 1];
      ListedStaySorted(init, identity, disabled);
      var listed := Listed(init, identity, disabled);
      forall i | 0 <= i < |listed| ensures RuleLe(listed[i], last) {
        assert listed[i] in init;
        var k :| 0 <= k < |init| && init[k] == listed[i];
        assert RuleLe(rules[k], rules[|rules| - 1]);
      }
    }
  }

  lemma SortedRulesStay(rules: seq<PolicyRule>)
    requires SortedBy(rules, RuleLe)
    ensures SortRules(rules) == rules
  {
    SortedIsFixed(rules, RuleLe);
  }

  /** A configuration that holds only the listed rules is evaluated like the full one. */
  lemma ListedRulesSuffice(ir: ConfigurationIr, request: Request)
    ensures var only := ir.(rules := Listed(SortRules(ir.rules), request.identity, ir.authentication.mode == Disabled));
            && Evaluate(only, request).decision == Evaluate(ir, request).decision
            && Evaluate(only, request).matchedRule == Evaluate(ir, request).matchedRule
  {
    hide SortRules, RuleMatches, Listed, TraceOf;
    var disabled := ir.authentication.mode == Disabled;
    SortRulesSorted(ir.rules);
    ListedStaySorted(SortRules(ir.rules), request.identity, disabled);
    SortedRulesStay(Listed(SortRules(ir.rules), request.identity, disabled));
    ListedRulesDecideTheSame(ir, request);
  }

  /** A rule that is not listed never decides for the identity. */
  lemma UnlistedRuleNeverDecides(ir: ConfigurationIr, request: Request, rule: PolicyRule)
    requires rule !in Listed(SortRules(ir.rules), request.identity, ir.authentication.mode == Disabled)
    ensures Evaluate(ir, request).matchedRule != Some(rule)
  {
    hide SortRules, Listed, RuleMatches;
    var rules, disabled := SortRules(ir.rules), ir.authentication.mode == Disabled;
    var i := FirstMatch(rules, request, disabled);
    if i < |rules| { MatchingRulesApply(rules[i], request, disabled); }
  }

  // ----- which rules are listed -----

  function WithoutLimits(rule: PolicyRule): PolicyRule {
    rule.(source := AnySource, destination := AnyDestination, schedule := Always)
  }

  lemma NothingElseLimits(rule: PolicyRule, request: Request, disabled: bool)
    ensures Evaluation.Applies(WithoutLimits(rule), request, disabled) <==> Applies(rule, request.identity, disabled)
  {
    hide MatchesIdentity;
  }

  /** A rule is listed exactly when, without its conditions on source, destination and time, it would apply to
      the requests of the identity. */
  lemma ListedExactly(ir: ConfigurationIr, rule: PolicyRule, request: Request)
    ensures rule in Listed(SortRules(ir.rules), request.identity, ir.authentication.mode == Disabled)
       <==> rule in ir.rules
            && Evaluation.Applies(WithoutLimits(rule), request, ir.authentication.mode == Disabled)
  {
    SortRulesMultiset(ir.rules);
    hide SortRules, Applies, Evaluation.Applies, WithoutLimits;
    NothingElseLimits(rule, request, ir.authentication.mode == Disabled);
    assert rule in multiset(SortRules(ir.rules)) <==> rule in multiset(ir.rules);
  }

  /** The listed rules come in the order in which they are evaluated. */
  lemma ListedInOrder(ir: ConfigurationIr, identity: RequestIdentity, i: nat, j: nat)
    requires i < j < |Listed(SortRules(ir.rules), identity, ir.authentication.mode == Disabled)|
    ensures var listed := Listed(SortRules(ir.rules), identity, ir.authentication.mode == Disabled);
            Evaluation.Precedes(listed[i], listed[j])
  {
    var disabled := ir.authentication.mode == Disabled;
    SortRulesSorted(ir.rules);
    ListedStaySorted(SortRules(ir.rules), identity, disabled);
    hide SortRules, Listed, RuleLe, Evaluation.Precedes;
    var listed := Listed(SortRules(ir.rules), identity, disabled);
    Evaluation.RuleLeIsPrecedes(listed[i], listed[j]);
  }
}
