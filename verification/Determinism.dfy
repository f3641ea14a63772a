/** The order in which rules and providers are listed changes neither the decisions of the engine
    nor the compiled configuration. */
module Determinism {
  import opened Sorting
  import opened Text
  import opened Ir
  import opened Engine
  import opened Names
  import opened Squid
  import opened Compiler
  import opened CompilerTests

  // ----- rules -----

  lemma RuleLeLaws(a: PolicyRule, b: PolicyRule, c: PolicyRule)
    ensures RuleLe(a, b) || RuleLe(b, a)
    ensures RuleLe(a, b) && RuleLe(b, c) ==> RuleLe(a, c)
    ensures RuleLe(a, b) && RuleLe(b, a) ==> a.id == b.id
  {
    StringLeTotal(a.id, b.id);
    if StringLe(a.id, b.id) && StringLe(b.id, c.id) { StringLeTransitive(a.id, b.id, c.id); }
    if StringLe(a.id, b.id) && StringLe(b.id, a.id) { StringLeAntisymmetric(a.id, b.id); }
  }

  lemma RuleLeIsTotal()
    ensures TotalPreorder(RuleLe)
  {
    hide RuleLe;
    forall a, b, c ensures (RuleLe(a, b) || RuleLe(b, a)) && (RuleLe(a, b) && RuleLe(b, c) ==> RuleLe(a, c)) {
      RuleLeLaws(a, b, c);
    }
  }

  lemma SortRulesSorted(rules: seq<PolicyRule>)
    ensures SortedBy(SortRules(rules), RuleLe)
  {
    RuleLeIsTotal();
    SortSorts(rules, RuleLe);
  }

  /** Rules that share a position and an id are one and the same rule. */
  predicate TiesAreEqual(rules: seq<PolicyRule>) {
    forall i, j :: 0 <= i < |rules| && 0 <= j < |rules|
           && rules[i].position == rules[j].position && rules[i].id == rules[j].id
      ==> rules[i] == rules[j]
  }

  lemma TiesAreEqualIs(rules: seq<PolicyRule>)
    ensures TiesAreEqual(rules) <==> AntisymmetricOn(rules, RuleLe)
  {
    forall a, b | a in rules && b in rules
      ensures RuleLe(a, b) && RuleLe(b, a) <==> a.position == b.position && a.id == b.id
    {
      hide StringLe;
      RuleLeLaws(a, b, a);
    }
    hide RuleLe;
    if !TiesAreEqual(rules) {
      var i, j :| 0 <= i < |rules| && 0 <= j < |rules| && rules[i].position == rules[j].position
                  && rules[i].id == rules[j].id && rules[i] != rules[j];
      assert rules[i] in rules && rules[j] in rules;
    }
  }

  /** Listing the rules in another order leaves the evaluation order alone, in every other order, exactly
      when no two different rules share a position and an id. */
  lemma RuleOrderIsCanonicalExactly(rules: seq<PolicyRule>)
    ensures TiesAreEqual(rules)
       <==> (forall other :: multiset(other) == multiset(rules) ==> SortRules(other) == SortRules(rules))
  {
    RuleLeIsTotal();
    TiesAreEqualIs(rules);
    if TiesAreEqual(rules) {
      forall other | multiset(other) == multiset(rules) ensures SortRules(other) == SortRules(rules) {
        ListingsSortAlike(rules, other, RuleLe);
      }
    } else {
      var other := SomeListingSortsApart(rules, RuleLe);
      assert SortRules(other) != SortRules(rules);
    }
  }

  // ----- providers -----

  lemma ProviderLeLaws(a: Provider, b: Provider, c: Provider)
    ensures ProviderLe(a, b) || ProviderLe(b, a)
    ensures ProviderLe(a, b) && ProviderLe(b, c) ==> ProviderLe(a, c)
    ensures ProviderLe(a, b) && ProviderLe(b, a) ==> a.key == b.key
  {
    StringLeTotal(a.key, b.key);
    if StringLe(a.key, b.key) && StringLe(b.key, c.key) { StringLeTransitive(a.key, b.key, c.key); }
    if StringLe(a.key, b.key) && StringLe(b.key, a.key) { StringLeAntisymmetric(a.key, b.key); }
  }

  lemma ProviderLeIsTotal()
    ensures TotalPreorder(ProviderLe)
  {
    hide ProviderLe;
    forall a, b, c
      ensures (ProviderLe(a, b) || ProviderLe(b, a)) && (ProviderLe(a, b) && ProviderLe(b, c) ==> ProviderLe(a, c))
    {
      ProviderLeLaws(a, b, c);
    }
  }

  /** Providers that share a priority and a key are one and the same provider. */
  predicate ProviderTiesAreEqual(providers: seq<Provider>) {
    forall i, j :: 0 <= i < |providers| && 0 <= j < |providers|
      && providers[i].priority == providers[j].priority && providers[i].key == providers[j].key
      ==> providers[i] == providers[j]
  }

  lemma ProviderTiesAreEqualIs(providers: seq<Provider>)
    ensures ProviderTiesAreEqual(providers) <==> AntisymmetricOn(providers, ProviderLe)
  {
    forall a, b | a in providers && b in providers
      ensures ProviderLe(a, b) && ProviderLe(b, a) <==> a.priority == b.priority && a.key == b.key
    {
      hide StringLe;
      ProviderLeLaws(a, b, a);
    }
    hide ProviderLe;
    if !ProviderTiesAreEqual(providers) {
      var i, j :| 0 <= i < |providers| && 0 <= j < |providers| && providers[i].priority == providers[j].priority
                  && providers[i].key == providers[j].key && providers[i] != providers[j];
      assert providers[i] in providers && providers[j] in providers;
    }
  }

  lemma ProviderOrderIsCanonicalExactly(providers: seq<Provider>)
    ensures ProviderTiesAreEqual(providers)
       <==> (forall other :: multiset(other) == multiset(providers) ==>
               SortProviders(other) == SortProviders(providers))
  {
    ProviderLeIsTotal();
    ProviderTiesAreEqualIs(providers);
    if ProviderTiesAreEqual(providers) {
      forall other | multiset(other) == multiset(providers) ensures SortProviders(other) == SortProviders(providers) {
        ListingsSortAlike(providers, other, ProviderLe);
      }
    } else {
      var other := SomeListingSortsApart(providers, ProviderLe);
      assert SortProviders(other) != SortProviders(providers);
    }
  }

  // ----- the compiler and the engine -----

  lemma {:induction false} RuleGroupsSeeMembersOnly(a: AuthenticationIr, b: AuthenticationIr,
                          providers: seq<Provider>, st: GroupState, ruleId: string, refs: seq<GroupRef>)
    requires a.localGroupMembers == b.localGroupMembers
    ensures RuleGroups(a, providers, st, ruleId, refs) == RuleGroups(b, providers, st, ruleId, refs)
  {
    if refs != [] { RuleGroupsSeeMembersOnly(a, b, providers, st, ruleId, refs[..|refs| - 1]); }
  }

  lemma {:induction false} GroupRulesSeeMembersOnly(a: AuthenticationIr, b: AuthenticationIr,
                          providers: seq<Provider>, used: set<string>, rules: seq<PolicyRule>)
    requires a.localGroupMembers == b.localGroupMembers
    ensures GroupRules(a, providers, used, rules) == GroupRules(b, providers, used, rules)
  {
    hide RuleGroups, ExpandGroupRefs;
    if rules != [] {
      var init, rule := rules[..|rules| - 1], rules[|rules| - 1];
      GroupRulesSeeMembersOnly(a, b, providers, used, init);
      if rule.identity.Group? {
        RuleGroupsSeeMembersOnly(a, b, providers, GroupRules(a, providers, used, init), rule.id,
                                 ExpandGroupRefs(rule.identity.groups));
      }
    }
  }

  /** The same configuration with its rules and providers listed in another order. */
  ghost predicate Reordered(a: ConfigurationIr, b: ConfigurationIr) {
    && multiset(a.rules) == multiset(b.rules)
    && multiset(a.authentication.providers) == multiset(b.authentication.providers)
    && b == a.(rules := b.rules, authentication := a.authentication.(providers := b.authentication.providers))
  }

  lemma PhasesIgnoreOrder(a: ConfigurationIr, b: ConfigurationIr)
    requires Reordered(a, b) && SortRules(a.rules) == SortRules(b.rules)
    requires SortProviders(a.authentication.providers) == SortProviders(b.authentication.providers)
    ensures RunPhases(a) == RunPhases(b) && AuthEnabled(a) == AuthEnabled(b) && EffectiveMode(a) == EffectiveMode(b)
  {
    assert AuthEnabled(a) == AuthEnabled(b);
    hide SortRules, SortProviders, GroupRules, NetRules, UserRules, DestRules, ListenerSteps, AuthEnabled;
    var rules, providers := SortRules(a.rules), SortProviders(a.authentication.providers);
    GroupRulesSeeMembersOnly(a.authentication, b.authentication, providers, NetRules({}, rules).st.used,
                             if AuthEnabled(a) then rules else []);
  }

  /** Neither the decisions nor the compiled configuration depend on the order of rules and providers. */
  lemma OrderDoesNotMatter(a: ConfigurationIr, b: ConfigurationIr)
    requires Reordered(a, b) && TiesAreEqual(a.rules) && ProviderTiesAreEqual(a.authentication.providers)
    ensures Compile(a) == Compile(b)
    ensures forall request :: Evaluate(a, request) == Evaluate(b, request)
  {
    RuleOrderIsCanonicalExactly(a.rules);
    ProviderOrderIsCanonicalExactly(a.authentication.providers);
    PhasesIgnoreOrder(a, b);
    assert ContextOf(a, RunPhases(a)) == ContextOf(b, RunPhases(b));
    hide SortRules, SortProviders, RunPhases, RuleSteps, AuthEnabled, EffectiveMode, EvaluateSorted, ContextOf,
         TiesAreEqual, ProviderTiesAreEqual, AuthWarnings, AuthLines;
    assert Definitions(a, RunPhases(a)) == Definitions(b, RunPhases(b));
    hide Definitions;
    forall request ensures Evaluate(a, request) == Evaluate(b, request) {}
  }
}
