/** Exactly when the compiler gives each warning about listeners, providers, users and identity conditions, and
    which helper program it configures, in terms of the listeners and providers alone. */
module SetupWarnings {
  import opened Text
  import opened Ir
  import opened Names
  import opened Squid
  import opened Compiler
  import opened CompilerNames
  import opened CompilerDefinitions
  import opened DefinitionOrder
  import opened SilentDivergence
  import OpenProxy
  import SecurityFindings

  /** Some listener that is switched on asks who the client is. */
  predicate SomebodyIsAsked(ir: ConfigurationIr) {
    exists l :: l in ir.listeners && l.enabled && l.authentication != Disabled
  }

  /** Listeners are switched on, and each of them requires an identity. */
  predicate EverybodyMustAnswer(ir: ConfigurationIr) {
    SomebodyIsAsked(ir) && forall l :: l in ir.listeners && l.enabled ==> l.authentication == Required
  }

  lemma ModeExactly(ir: ConfigurationIr)
    ensures AuthEnabled(ir) <==> SomebodyIsAsked(ir)
    ensures EffectiveMode(ir) == if !SomebodyIsAsked(ir) then Disabled
                                 else if EverybodyMustAnswer(ir) then Required else Optional
  {
    hide ActiveListeners;
  }

  // ----- identity conditions -----

  /** What the identity condition of a rule is warned about, from the listeners alone. */
  predicate IdentityCalledFor(ir: ConfigurationIr, rule: PolicyRule, code: WarningCode) {
    match code
    case IdentityRuleWithoutAuth => !SomebodyIsAsked(ir) && rule.identity.NeedsIdentity()
    case UnauthenticatedRuleInRequiredMode => EverybodyMustAnswer(ir) && rule.identity.Unauthenticated?
    case UnauthenticatedWidened =>
      SomebodyIsAsked(ir) && !EverybodyMustAnswer(ir) && rule.identity.Unauthenticated?
    case _ => false
  }

  const IDENTITY_CODES: set<WarningCode> :=
    {IdentityRuleWithoutAuth, UnauthenticatedRuleInRequiredMode, UnauthenticatedWidened}

  lemma IdentityWarningsAre(ir: ConfigurationIr, rule: PolicyRule, w: Warning)
    requires w.code in IDENTITY_CODES
    ensures w in IdentityWarnings(rule, EffectiveMode(ir))
       <==> w.ruleId == Some(rule.id) && IdentityCalledFor(ir, rule, w.code)
  {
    ModeExactly(ir);
    assert EverybodyMustAnswer(ir) ==> SomebodyIsAsked(ir);
    hide EffectiveMode, SomebodyIsAsked, EverybodyMustAnswer, AuthEnabled;
  }

  lemma RulesAreWarned(ir: ConfigurationIr, w: Warning)
    requires w.code in IDENTITY_CODES
    ensures var rules, c := SortRules(ir.rules), ContextOf(ir, RunPhases(ir));
            w in Compile(ir).warnings <==> exists i :: 0 <= i < |rules| && RuleWarns(rules, i, c, w)
  {
    hide Compile, RunPhases, ContextOf, SortRules, RuleSteps, RuleWarns;
    WarningsByPhase(ir);
    RuleStepsWarn(SortRules(ir.rules), ContextOf(ir, RunPhases(ir)));
  }

  lemma RuleWarnsExactly(ir: ConfigurationIr, i: nat, w: Warning)
    requires i < |SortRules(ir.rules)| && w.code in IDENTITY_CODES
    ensures RuleWarns(SortRules(ir.rules), i, ContextOf(ir, RunPhases(ir)), w)
       <==> WarnedFor(ir, SortRules(ir.rules)[i], w)
  {
    assert ContextOf(ir, RunPhases(ir)).mode == EffectiveMode(ir);
    IdentityWarningsAre(ir, SortRules(ir.rules)[i], w);
    hide RunPhases, ContextOf, SortRules, IdentityWarnings, IdentityCalledFor, EffectiveMode, SawBefore;
  }

  /** The rule is switched on and calls for the warning. */
  predicate WarnedFor(ir: ConfigurationIr, rule: PolicyRule, w: Warning) {
    rule.enabled && w.ruleId == Some(rule.id) && IdentityCalledFor(ir, rule, w.code)
  }

  /** A warning about an identity condition is given exactly when a rule that is switched on calls for it. */
  lemma IdentityWarningsExactly(ir: ConfigurationIr, w: Warning)
    requires w.code in IDENTITY_CODES
    ensures w in Compile(ir).warnings <==> exists rule :: rule in ir.rules && WarnedFor(ir, rule, w)
  {
    hide Compile, RunPhases, ContextOf, SortRules, RuleWarns, WarnedFor;
    SortRulesMultiset(ir.rules);
    RulesAreWarned(ir, w);
    var rules := SortRules(ir.rules);
    forall i: nat | i < |rules|
      ensures RuleWarns(rules, i, ContextOf(ir, RunPhases(ir)), w) == WarnedFor(ir, rules[i], w)
    {
      RuleWarnsExactly(ir, i, w);
    }
    if rule :| rule in ir.rules && WarnedFor(ir, rule, w) {
      assert rule in rules;
      var i: nat :| i < |rules| && rules[i] == rule;
      assert RuleWarns(rules, i, ContextOf(ir, RunPhases(ir)), w);
    }
    forall i: nat | i < |rules| ensures rules[i] in ir.rules { assert rules[i] in rules; }
  }

  /** The compiler warns of a missing authentication exactly for the ids of the rules that the security findings
      call unreachable. */
  lemma WarningsAgreeWithFindings(ir: ConfigurationIr, id: string)
    ensures Warning(IdentityRuleWithoutAuth, Some(id)) in Compile(ir).warnings
       <==> exists rule: PolicyRule ::
              rule.id == id && SecurityFindings.Names(ir, OpenProxy.UnreachableIdentityRule, rule)
  {
    IdentityWarningsExactly(ir, Warning(IdentityRuleWithoutAuth, Some(id)));
    assert SecurityFindings.NobodyIsAsked(ir) <==> !SomebodyIsAsked(ir);
    hide Compile, SecurityFindings.Names, SomebodyIsAsked,
         SecurityFindings.NobodyIsAsked, SecurityFindings.HoldsForNobody;
    forall rule ensures SecurityFindings.Names(ir, OpenProxy.UnreachableIdentityRule, rule)
       <==> rule in ir.rules && rule.enabled && !SomebodyIsAsked(ir) && rule.identity.NeedsIdentity()
    {
      SecurityFindings.UnreachableExactly(ir, rule);
      SecurityFindings.NeedsIdentityExactly(rule);
    }
  }

  // ----- listeners, providers and users -----

  /** What the whole configuration is warned about. */
  predicate SetupCalledFor(ir: ConfigurationIr, w: Warning) {
    match w.code
    case NoListener => w.ruleId == None && forall l :: l in ir.listeners ==> !l.enabled
    case ProvidersIgnored => w.ruleId == None && !SomebodyIsAsked(ir) && ir.authentication.providers != []
    case NoProvider => w.ruleId == None && SomebodyIsAsked(ir) && ir.authentication.providers == []
    case MultiProviderHelper => w.ruleId == None && SomebodyIsAsked(ir) && |ir.authentication.providers| > 1
    case EmptyUserList =>
      SomebodyIsAsked(ir) && exists rule :: rule in ir.rules && NamesNobody(rule) && w.ruleId == Some(rule.id)
    case _ => false
  }

  const SETUP_CODES: set<WarningCode> := {NoListener, ProvidersIgnored, NoProvider, MultiProviderHelper, EmptyUserList}

  lemma SortKeepsProviders(providers: seq<Provider>)
    ensures |SortProviders(providers)| == |providers|
  {
    SortProvidersMultiset(providers);
    hide SortProviders;
    assert |SortProviders(providers)| == |multiset(SortProviders(providers))| == |multiset(providers)| == |providers|;
  }

  lemma AuthWarningsAre(ir: ConfigurationIr, w: Warning)
    ensures w in AuthWarnings(AuthEnabled(ir), SortProviders(ir.authentication.providers))
       <==> w.code in {ProvidersIgnored, NoProvider, MultiProviderHelper} && SetupCalledFor(ir, w)
  {
    ModeExactly(ir);
    SortKeepsProviders(ir.authentication.providers);
    hide AuthEnabled, SomebodyIsAsked, SortProviders;
  }

  lemma OwnWarningsAre(ir: ConfigurationIr, w: Warning)
    ensures w in OwnWarnings(ir) <==> w.code == NoListener && SetupCalledFor(ir, w)
  {
    if ActiveListeners(ir.listeners) != [] { assert ActiveListeners(ir.listeners)[0] in ActiveListeners(ir.listeners); }
    hide SomebodyIsAsked;
  }

  lemma UserWarningsAre(ir: ConfigurationIr, w: Warning)
    ensures w in RunPhases(ir).users.warnings <==> w.code == EmptyUserList && SetupCalledFor(ir, w)
  {
    PhaseInputs(ir);
    ModeExactly(ir);
    SortRulesMultiset(ir.rules);
    hide RunPhases, UserRules, SortRules, AuthEnabled, SomebodyIsAsked, NamesNobody;
    var rules := SortRules(ir.rules);
    UserRulesWarn(RunPhases(ir).groups.used, if AuthEnabled(ir) then rules else []);
    assert forall rule :: rule in rules <==> rule in ir.rules;
  }

  lemma GroupWarningsAreOther(ir: ConfigurationIr)
    ensures OnlyGroupCodes(RunPhases(ir).groups.warnings)
  {
    PhaseInputs(ir);
    hide RunPhases, GroupRules, SortRules, SortProviders, AuthEnabled, OnlyGroupCodes;
    GroupRulesWarn(ir.authentication, SortProviders(ir.authentication.providers), RunPhases(ir).nets.st.used,
                   if AuthEnabled(ir) then SortRules(ir.rules) else []);
  }

  lemma AmongSetup(a: seq<Warning>, nets: seq<Warning>, groups: seq<Warning>, users: seq<Warning>, dests: seq<Warning>,
                   own: seq<Warning>, rules: seq<Warning>, w: Warning)
    requires OnlyPlaceCodes(nets) && OnlyPlaceCodes(dests) && OnlyRuleCodes(rules) && OnlyGroupCodes(groups)
    requires w.code in SETUP_CODES
    ensures w in a + nets + groups + users + dests + own + rules <==> w in a || w in users || w in own
  {
    var all := a + nets + groups + users + dests + own + rules;
    assert w in all <==> w in a || w in nets || w in groups || w in users || w in dests || w in own || w in rules;
  }

  /** The warnings about listeners, providers and user lists are exactly those the configuration calls for. */
  lemma SetupWarningsExactly(ir: ConfigurationIr, w: Warning)
    requires w.code in SETUP_CODES
    ensures w in Compile(ir).warnings <==> SetupCalledFor(ir, w)
  {
    hide RunPhases, Compile, ContextOf, RuleSteps, SortRules, SortProviders, AuthEnabled, AuthWarnings, OwnWarnings,
         OnlyRuleCodes, OnlyPlaceCodes, OnlyGroupCodes, SetupCodes, SetupCalledFor;
    var p, providers := RunPhases(ir), SortProviders(ir.authentication.providers);
    WarningsSplit(ir);
    OtherPhases(ir);
    PlacePhasesCodes(ir);
    GroupWarningsAreOther(ir);
    AmongSetup(AuthWarnings(AuthEnabled(ir), providers), p.nets.st.warnings, p.groups.warnings, p.users.warnings,
               p.dests.warnings, OwnWarnings(ir), RuleSteps(SortRules(ir.rules), ContextOf(ir, p)).warnings, w);
    AuthWarningsAre(ir, w);
    OwnWarningsAre(ir, w);
    UserWarningsAre(ir, w);
  }

  // ----- groups -----

  /** A rule asks for a group. */
  datatype Mention = Mention(ruleId: string, ref: GroupRef)

  function MentionsOf(ruleId: string, refs: seq<GroupRef>): (r: seq<Mention>)
    ensures |r| == |refs| && forall i :: 0 <= i < |r| ==> r[i] == Mention(ruleId, refs[i])
  {
    seq(|refs|, i requires 0 <= i < |refs| => Mention(ruleId, refs[i]))
  }

  /** The concrete groups the rules ask for, in the order of the rules. */
  function Mentions(rules: seq<PolicyRule>): seq<Mention> {
    if rules == [] then []
    else
      var rule := rules[|rules| - 1];
      Mentions(rules[..|rules| - 1])
      + if rule.identity.Group? then MentionsOf(rule.id, ExpandGroupRefs(rule.identity.groups)) else []
  }

  function MentionSteps(auth: AuthenticationIr, providers: seq<Provider>, st: GroupState,
                        mentions: seq<Mention>): GroupState {
    if mentions == [] then st
    else
      var last := mentions[|mentions| - 1];
      GroupStep(auth, providers, MentionSteps(auth, providers, st, mentions[..|mentions| - 1]), last.ruleId, last.ref)
  }

  lemma {:induction false} StepsAppend(auth: AuthenticationIr, providers: seq<Provider>, st: GroupState,
                                       a: seq<Mention>, b: seq<Mention>)
    ensures MentionSteps(auth, providers, st, a + b)
         == MentionSteps(auth, providers, MentionSteps(auth, providers, st, a), b)
  {
    hide GroupStep;
    if b == [] {
      assert a + b == a;
    } else {
      assert (a + b)[..|a + b| - 1] == a + b[..|b| - 1];
      StepsAppend(auth, providers, st, a, b[..|b| - 1]);
    }
  }

  lemma {:induction false} RuleGroupsAreSteps(auth: AuthenticationIr, providers: seq<Provider>, st: GroupState,
                                              ruleId: string, refs: seq<GroupRef>)
    ensures RuleGroups(auth, providers, st, ruleId, refs) == MentionSteps(auth, providers, st, MentionsOf(ruleId, refs))
  {
    hide GroupStep;
    if refs != [] {
      var init := refs[..|refs| - 1];
      RuleGroupsAreSteps(auth, providers, st, ruleId, init);
      assert MentionsOf(ruleId, refs)[..|refs| - 1] == MentionsOf(ruleId, init);
    }
  }

  lemma {:induction false} GroupRulesAreSteps(auth: AuthenticationIr, providers: seq<Provider>, used: set<string>,
                                              rules: seq<PolicyRule>)
    ensures GroupRules(auth, providers, used, rules)
         == MentionSteps(auth, providers, GroupState(used, map[], [], {}, []), Mentions(rules))
  {
    hide RuleGroups, GroupStep, ExpandGroupRefs;
    if rules != [] {
      var start, init, rule := GroupState(used, map[], [], {}, []), rules[..|rules| - 1], rules[|rules| - 1];
      GroupRulesAreSteps(auth, providers, used, init);
      if rule.identity.Group? {
        var refs := ExpandGroupRefs(rule.identity.groups);
        StepsAppend(auth, providers, start, Mentions(init), MentionsOf(rule.id, refs));
        RuleGroupsAreSteps(auth, providers, GroupRules(auth, providers, used, init), rule.id, refs);
      } else {
        assert Mentions(rules) == Mentions(init);
      }
    }
  }

  /** No earlier rule asks for a group with the same key. */
  predicate FirstMention(mentions: seq<Mention>, k: nat)
    requires k < |mentions|
  {
    forall i :: 0 <= i < k ==> AclKey(mentions[i].ref) != AclKey(mentions[k].ref)
  }

  /** A local group that no member has, or a group of a provider that is not an LDAP one. */
  predicate GroupCalledFor(auth: AuthenticationIr, providers: seq<Provider>, m: Mention, w: Warning) {
    w.ruleId == Some(m.ruleId) &&
    if m.ref.source == Local then
      w.code == EmptyGroup && (m.ref.name in auth.localGroupMembers ==>
                                 forall user :: user in auth.localGroupMembers[m.ref.name] ==> user == "")
    else w.code == UnknownExternalGroupProvider && LdapProvider(providers, m.ref.providerKey) == None
  }

  lemma GroupStepWarnsExactly(auth: AuthenticationIr, providers: seq<Provider>, st: GroupState, m: Mention)
    ensures var next := GroupStep(auth, providers, st, m.ruleId, m.ref);
            && next.acl.Keys == st.acl.Keys + {AclKey(m.ref)}
            && forall w :: w in next.warnings <==>
                 w in st.warnings || (AclKey(m.ref) !in st.acl && GroupCalledFor(auth, providers, m, w))
  {
    NoMembers(auth, m.ref.name);
    hide TakeName, Slug, AclKey, LdapProvider, MembersOf, TypeName;
  }

  lemma NoMembers(auth: AuthenticationIr, name: string)
    ensures MembersOf(auth, name) == []
       <==> name in auth.localGroupMembers ==> forall user :: user in auth.localGroupMembers[name] ==> user == ""
  {
    var members := MembersOf(auth, name);
    if members != [] { assert members[0] in members; }
  }

  lemma {:induction false} MentionsWarn(auth: AuthenticationIr, providers: seq<Provider>, used: set<string>,
                                        mentions: seq<Mention>)
    ensures var st := MentionSteps(auth, providers, GroupState(used, map[], [], {}, []), mentions);
            && st.acl.Keys == (set m | m in mentions :: AclKey(m.ref))
            && forall w :: w in st.warnings <==>
                 exists k: nat :: k < |mentions| && FirstMention(mentions, k)
                   && GroupCalledFor(auth, providers, mentions[k], w)
  {
    hide GroupStep, GroupCalledFor, AclKey;
    if mentions != [] {
      var n := |mentions| - 1;
      var init, last, start := mentions[..n], mentions[n], GroupState(used, map[], [], {}, []);
      MentionsWarn(auth, providers, used, init);
      var st := MentionSteps(auth, providers, start, init);
      GroupStepWarnsExactly(auth, providers, st, last);
      assert forall m :: m in mentions <==> m in init || m == last;
      assert FirstMention(mentions, n) <==> AclKey(last.ref) !in st.acl;
      forall k: nat | k < n ensures FirstMention(mentions, k) == FirstMention(init, k) {}
    }
  }

  /** The warnings about groups are given exactly for the first rule that asks for a group nobody can hold. */
  lemma GroupWarningsExactly(ir: ConfigurationIr, w: Warning)
    requires w.code == EmptyGroup || w.code == UnknownExternalGroupProvider
    ensures var mentions := Mentions(SortRules(ir.rules));
            w in Compile(ir).warnings <==> SomebodyIsAsked(ir) && exists k: nat ::
              k < |mentions| && FirstMention(mentions, k)
              && GroupCalledFor(ir.authentication, SortProviders(ir.authentication.providers), mentions[k], w)
  {
    hide RunPhases, Compile, ContextOf, RuleSteps, SortRules, SortProviders, AuthEnabled, AuthWarnings, OwnWarnings,
         OnlyRuleCodes, OnlyPlaceCodes, SetupCodes, SetupCalledFor, GroupRules, Mentions, MentionSteps, FirstMention,
         GroupCalledFor, SomebodyIsAsked, EffectiveMode;
    var p, providers := RunPhases(ir), SortProviders(ir.authentication.providers);
    WarningsSplit(ir);
    OtherPhases(ir);
    PlacePhasesCodes(ir);
    PhaseInputs(ir);
    ModeExactly(ir);
    AuthWarningsAre(ir, w);
    OwnWarningsAre(ir, w);
    UserWarningsAre(ir, w);
    AmongGroups(AuthWarnings(AuthEnabled(ir), providers), p.nets.st.warnings, p.groups.warnings, p.users.warnings,
                p.dests.warnings, OwnWarnings(ir), RuleSteps(SortRules(ir.rules), ContextOf(ir, p)).warnings, w);
    var rules := if AuthEnabled(ir) then SortRules(ir.rules) else [];
    GroupRulesAreSteps(ir.authentication, providers, p.nets.st.used, rules);
    MentionsWarn(ir.authentication, providers, p.nets.st.used, Mentions(rules));
    NoMentions();
  }

  lemma NoMentions()
    ensures Mentions([]) == []
  {
  }

  lemma AmongGroups(a: seq<Warning>, nets: seq<Warning>, groups: seq<Warning>, users: seq<Warning>, dests: seq<Warning>,
                    own: seq<Warning>, rules: seq<Warning>, w: Warning)
    requires OnlyPlaceCodes(nets) && OnlyPlaceCodes(dests) && OnlyRuleCodes(rules)
    requires w !in a && w !in users && w !in own
    requires w.code == EmptyGroup || w.code == UnknownExternalGroupProvider
    ensures w in a + nets + groups + users + dests + own + rules <==> w in groups
  {
    var all := a + nets + groups + users + dests + own + rules;
    assert w in all <==> w in a || w in nets || w in groups || w in users || w in dests || w in own || w in rules;
  }

  // ----- the helper program -----

  lemma ProgramLines(ir: ConfigurationIr, d: Directive)
    requires d.AuthProgram?
    ensures d in Compile(ir).squidConf
       <==> d in AuthLines(AuthEnabled(ir), SortProviders(ir.authentication.providers))
  {
    var p := RunPhases(ir);
    PhaseInputs(ir);
    ConfAround(ir);
    BaselineIsOther();
    BodyIsAccess(ir);
    PortLineShape(ir);
    hide RunPhases, Compile, NetRules, GroupRules, UserRules,
         DestRules, ListenerSteps, SortRules, SortProviders, AuthEnabled,
         ConfBody, ConfHead, PortLines, BASELINE, BASELINE_ACCESS, AuthLines;
    var rules, providers := SortRules(ir.rules), SortProviders(ir.authentication.providers);
    NetLinesShape({}, rules);
    GroupLinesShape(ir.authentication, providers, p.nets.st.used, if AuthEnabled(ir) then rules else []);
    UserLinesShape(p.groups.used, if AuthEnabled(ir) then rules else []);
    DestLinesShape(p.users.used, rules);
    ListenerShapes(p.dests.used, ir.listeners);
  }

  lemma ProgramLineIs(enabled: bool, providers: seq<Provider>, keys: seq<string>)
    ensures AuthProgram(keys) in AuthLines(enabled, providers)
       <==> enabled && providers != [] && |keys| == |providers|
            && forall i :: 0 <= i < |keys| ==> keys[i] == providers[i].key
  {
    assert keys == ProviderKeys(providers)
      <==> |keys| == |providers| && forall i :: 0 <= i < |keys| ==> keys[i] == providers[i].key;
  }

  /** One helper program is configured exactly when somebody is asked and there are providers, and it asks all of
      them in the order of their priorities. */
  lemma ProgramExactly(ir: ConfigurationIr, keys: seq<string>)
    ensures AuthProgram(keys) in Compile(ir).squidConf
       <==> SomebodyIsAsked(ir) && ir.authentication.providers != []
            && |keys| == |SortProviders(ir.authentication.providers)|
            && forall i :: 0 <= i < |keys| ==> keys[i] == SortProviders(ir.authentication.providers)[i].key
  {
    ModeExactly(ir);
    ProgramLines(ir, AuthProgram(keys));
    var providers := ir.authentication.providers;
    ProgramLineIs(AuthEnabled(ir), SortProviders(providers), keys);
    SortKeepsProviders(providers);
    hide Compile, SortProviders, AuthEnabled, SomebodyIsAsked, AuthLines;
  }
}
