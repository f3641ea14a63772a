/** The compiled file against the engine, for each kind of listener and client. */
module ListenerTheorems {
  import opened Text
  import opened Ir
  import opened Engine
  import opened Names
  import opened Squid
  import opened Compiler
  import opened CompilerNames
  import opened CompilerDefinitions
  import opened DefinitionOrder
  import opened DefinedNames
  import opened CompilerTests
  import opened SquidReading
  import opened CompiledRules
  import opened CompilerCorrect
  import opened Faithful

  /** The conditions under which each part of a rule means the same to Squid and to the engine. */
  predicate FaithfulRule(rule: PolicyRule) {
    && SourceFaithful(rule.source)
    && DestinationFaithful(rule.destination)
    && (rule.schedule.Window? ==> rule.schedule.startMinutes <= rule.schedule.endMinutes)
    && ScheduleFaithful(rule.schedule)
    && (rule.identity.User? ==> AnyProvider(rule.identity.users))
  }

  ghost predicate FaithfulIr(ir: ConfigurationIr) {
    && CoherentIr(ir)
    && forall rule :: rule in ir.rules && rule.enabled ==> FaithfulRule(rule)
  }

  /** Baseline lines and the source guard of the listener come before any policy decision. */
  function Screened(l: Listener, r: ProxyRequest, decision: Decision): Decision {
    if BaselineDecision(r).Some? then BaselineDecision(r).value
    else if !AdmitsSource(l, r.request.sourceIp) then Refuse
    else decision
  }

  function RulesDecision(ir: ConfigurationIr, authenticates: bool, request: Request): Decision {
    ReadRules(ir, SortRules(ir.rules), authenticates, request).GetOr(d => d, DecisionOf(ir.defaultAccess))
  }

  lemma GuardIsScreen(l: Listener, request: Request)
    ensures GuardDecision(l, request)
         == if !AdmitsSource(l, request.sourceIp) then Some(Refuse)
            else if l.authentication == Required && !request.identity.authenticated then Some(Challenge) else None
  {
    hide AdmitsSource;
  }

  lemma CompiledScreens(ir: ConfigurationIr, l: Listener, r: ProxyRequest)
    requires CoherentIr(ir) && ArrivesOn(ir, l, r)
    ensures Decide(Compile(ir).squidConf, r)
         == Some(Screened(l, r, if l.authentication == Required && !r.request.identity.authenticated then Challenge
                                else RulesDecision(ir, Authenticates(l), r.request)))
  {
    hide Decide, Compile, BaselineDecision, AdmitsSource, ReadRules, CoherentIr, ArrivesOn, SortRules;
    CompiledDecides(ir, l, r);
    GuardIsScreen(l, r.request);
    assert RulesDecision(ir, Authenticates(l), r.request)
        == ReadRules(ir, SortRules(ir.rules), Authenticates(l), r.request).GetOr(d => d, DecisionOf(ir.defaultAccess));
    hide GuardDecision, RulesDecision, Authenticates;
  }

  predicate PartsMatch(rule: PolicyRule, request: Request) {
    && rule.enabled
    && MatchesSource(rule.source, request.sourceIp)
    && MatchesDestination(rule.destination, request.host, request.port)
    && MatchesSchedule(rule.schedule, request.at)
  }

  lemma PartsAgree(rule: PolicyRule, request: Request)
    requires FaithfulRule(rule) && ValidMoment(request.at)
    ensures ReadsSource(rule.source, request.sourceIp) <==> MatchesSource(rule.source, request.sourceIp)
    ensures ReadsDestination(rule.destination, request.host, request.port)
       <==> MatchesDestination(rule.destination, request.host, request.port)
    ensures ReadsSchedule(rule.schedule, request.at) <==> MatchesSchedule(rule.schedule, request.at)
  {
    hide ReadsSource, MatchesSource, ReadsDestination, MatchesDestination, ReadsSchedule, MatchesSchedule,
         SourceFaithful, DestinationFaithful, ScheduleFaithful;
    SourceAgreesExactly(rule.source);
    DestinationAgreesExactly(rule.destination);
    ScheduleAgreesExactly(rule.schedule);
  }

  lemma RuleMatchesIs(rule: PolicyRule, request: Request, disabled: bool)
    ensures RuleMatches(rule, request, disabled)
       <==> PartsMatch(rule, request) && MatchesIdentity(rule.identity, request.identity, disabled)
  {
    hide MatchesSource, MatchesDestination, MatchesSchedule, MatchesIdentity;
  }

  // ----- listeners without authentication -----

  lemma DisabledRule(ir: ConfigurationIr, rule: PolicyRule, request: Request)
    requires (rule.enabled ==> FaithfulRule(rule)) && ValidMoment(request.at) && EffectiveMode(ir) != Required
    ensures RuleOutcome(ir, rule, false, request) == if RuleMatches(rule, request, true) then Matched else Unmatched
  {
    if rule.enabled { PartsAgree(rule, request); }
    RuleMatchesIs(rule, request, true);
    hide ReadsSource, MatchesSource, ReadsDestination, MatchesDestination, ReadsSchedule, MatchesSchedule,
         FaithfulRule, EffectiveMode, RuleMatches;
  }

  lemma SortedRulesAreFaithful(ir: ConfigurationIr)
    requires FaithfulIr(ir)
    ensures forall rule :: rule in SortRules(ir.rules) && rule.enabled ==> FaithfulRule(rule)
  {
    SortRulesMultiset(ir.rules);
  }

  lemma DisabledRules(ir: ConfigurationIr, request: Request)
    requires FaithfulIr(ir) && EffectiveMode(ir) != Required && ValidMoment(request.at)
    ensures RulesDecision(ir, false, request) == EvaluateAs(ir, Disabled, request).decision
  {
    SortedRulesAreFaithful(ir);
    hide FaithfulRule, FaithfulIr, RuleOutcome, RuleMatches, SortRules, EffectiveMode;
    var rules := SortRules(ir.rules);
    forall i | 0 <= i < |rules|
      ensures RuleOutcome(ir, rules[i], false, request)
           == if RuleMatches(rules[i], request, true) then Matched else Unmatched
    {
      DisabledRule(ir, rules[i], request);
    }
    assert FirstDeciding(ir, rules, false, request) == FirstMatch(rules, request, true);
  }

  /** On a listener without authentication the compiled file decides as the engine does with
      authentication disabled, whatever the other listeners demand. */
  lemma DisabledListenerDecides(ir: ConfigurationIr, l: Listener, r: ProxyRequest)
    requires FaithfulIr(ir) && ArrivesOn(ir, l, r) && l.authentication == Disabled && ValidMoment(r.request.at)
    ensures Decide(Compile(ir).squidConf, r) == Some(Screened(l, r, EvaluateAs(ir, Disabled, r.request).decision))
  {
    hide ArrivesOn, Compile, Decide;
    ArrivalIsOnPort(ir, l, r);
    assert EffectiveMode(ir) != Required;
    hide Decide, Compile, Screened, EffectiveMode, RulesDecision, EvaluateAs;
    CompiledScreens(ir, l, r);
    DisabledRules(ir, r.request);
  }

  // ----- authenticated clients -----

  /** With some listener not demanding credentials, the condition "unauthenticated" is dropped. */
  function Widen(rule: PolicyRule): PolicyRule {
    if rule.identity.Unauthenticated? then rule.(identity := AnyIdentity) else rule
  }

  function WidenAll(rules: seq<PolicyRule>): (r: seq<PolicyRule>)
    ensures |r| == |rules|
  {
    seq(|rules|, i requires 0 <= i < |rules| => Widen(rules[i]))
  }

  function RulesAsCompiled(ir: ConfigurationIr): seq<PolicyRule> {
    if EffectiveMode(ir) == Optional then WidenAll(SortRules(ir.rules)) else SortRules(ir.rules)
  }

  lemma ReadsIdentityIs(ir: ConfigurationIr, rule: PolicyRule, request: Request)
    requires rule.enabled ==> FaithfulRule(rule)
    requires CoherentIdentity(ir, request.identity) && rule in SortRules(ir.rules)
    requires rule.enabled && rule.identity.NeedsIdentity() && AuthEnabled(ir) && request.identity.authenticated
    ensures (!Omitted(ir, rule.identity) && ReadsIdentity(ir.authentication, rule.identity, request.identity))
       <==> MatchesIdentity(rule.identity, request.identity, false)
  {
    hide CoherentIdentity, SortProviders, SortRules, ExpandGroupRefs, MatchesUsername, MatchesUser;
    match rule.identity
    case Authenticated =>
    case User(users) =>
      UsersAgree(users, request.identity);
      NobodyIsMember(request.identity.username);
    case Group(groups) =>
      var refs := ExpandGroupRefs(groups);
      forall g | g in refs
        ensures (exists h :: h in request.identity.groups && GroupKey(h) == GroupKey(g))
           <==> ReadsGroup(ir.authentication, g, request.identity)
        ensures ReadsGroup(ir.authentication, g, request.identity) ==>
                  !DeadGroup(ir.authentication, SortProviders(ir.authentication.providers), g)
      {
        assert g in GroupsOf(SortRules(ir.rules));
        HeldIffRead(ir, request.identity, g);
      }
      hide ReadsGroup, DeadGroup, GroupKey;
      HoldsKeyIs(request.identity, refs);
  }

  lemma HoldsKeyIs(identity: RequestIdentity, refs: seq<GroupRef>)
    ensures HoldsKey(identity, KeysOf(refs))
       <==> exists g, h :: g in refs && h in identity.groups && GroupKey(h) == GroupKey(g)
  {
    hide GroupKey;
  }

  lemma AuthenticatedRule(ir: ConfigurationIr, rule: PolicyRule, request: Request)
    requires rule.enabled ==> FaithfulRule(rule)
    requires CoherentIdentity(ir, request.identity) && rule in SortRules(ir.rules)
    requires AuthEnabled(ir) && request.identity.authenticated && ValidMoment(request.at)
    ensures RuleOutcome(ir, rule, true, request)
         == if RuleMatches(if EffectiveMode(ir) == Optional then Widen(rule) else rule, request, false) then Matched
            else Unmatched
  {
    if rule.enabled { PartsAgree(rule, request); }
    if rule.enabled && rule.identity.NeedsIdentity() { ReadsIdentityIs(ir, rule, request); }
    RuleMatchesIs(rule, request, false);
    RuleMatchesIs(Widen(rule), request, false);
    assert EffectiveMode(ir) != Disabled;
    hide ReadsSource, MatchesSource, ReadsDestination, MatchesDestination, ReadsSchedule, MatchesSchedule,
         FaithfulRule, EffectiveMode, RuleMatches, CoherentIdentity, SortRules, AuthEnabled, ReadsIdentity;
  }

  lemma AuthenticatedRules(ir: ConfigurationIr, mode: AuthMode, request: Request)
    requires FaithfulIr(ir) && AuthEnabled(ir) && mode != Disabled && ValidMoment(request.at)
    requires request.identity.authenticated && CoherentIdentity(ir, request.identity)
    ensures RulesDecision(ir, true, request)
         == EvaluateSorted(RulesAsCompiled(ir), ir.defaultAccess, mode, request).decision
  {
    SortedRulesAreFaithful(ir);
    hide FaithfulRule, RuleOutcome, RuleMatches, SortRules, EffectiveMode, CoherentIdentity,
         CoherentIr, AuthEnabled;
    var rules, wide := SortRules(ir.rules), RulesAsCompiled(ir);
    forall i | 0 <= i < |rules|
      ensures RuleOutcome(ir, rules[i], true, request)
           == if RuleMatches(wide[i], request, false) then Matched else Unmatched
      ensures wide[i].action == rules[i].action
    {
      AuthenticatedRule(ir, rules[i], request);
    }
    assert FirstDeciding(ir, rules, true, request) == FirstMatch(wide, request, false);
  }

  /** For an authenticated client on a listener that can authenticate, the compiled file decides as
      the engine does on the rules with "unauthenticated" dropped (mixed listeners) or as they
      stand (every listener requires credentials). */
  lemma AuthenticatedClientDecides(ir: ConfigurationIr, l: Listener, r: ProxyRequest)
    requires FaithfulIr(ir) && ArrivesOn(ir, l, r) && Authenticates(l) && ValidMoment(r.request.at)
    requires r.request.identity.authenticated && CoherentIdentity(ir, r.request.identity)
    ensures Decide(Compile(ir).squidConf, r)
         == Some(Screened(l, r,
                          EvaluateSorted(RulesAsCompiled(ir), ir.defaultAccess, l.authentication, r.request).decision))
  {
    hide ArrivesOn, Compile, Decide;
    ArrivalIsOnPort(ir, l, r);
    assert AuthEnabled(ir);
    hide Decide, Compile, Screened, RulesDecision, EvaluateSorted, RulesAsCompiled, AuthEnabled, CoherentIdentity,
         CoherentIr;
    CompiledScreens(ir, l, r);
    AuthenticatedRules(ir, l.authentication, r.request);
  }

  // ----- when dropping the condition matters -----

  /** The first rule the engine does not take because the client is authenticated, although
      everything else about it matches. */
  ghost predicate WidenedInto(rules: seq<PolicyRule>, request: Request, i: int) {
    && 0 <= i < |rules|
    && rules[i].identity.Unauthenticated? && PartsMatch(rules[i], request)
    && forall k :: 0 <= k < i ==> !RuleMatches(Widen(rules[k]), request, false)
  }

  lemma WidenedMatches(rule: PolicyRule, request: Request)
    requires request.identity.authenticated
    ensures RuleMatches(Widen(rule), request, false)
       <==> RuleMatches(rule, request, false) || (rule.identity.Unauthenticated? && PartsMatch(rule, request))
    ensures rule.identity.Unauthenticated? ==> !RuleMatches(rule, request, false)
  {
    RuleMatchesIs(rule, request, false);
    RuleMatchesIs(Widen(rule), request, false);
    hide MatchesSource, MatchesDestination, MatchesSchedule, RuleMatches;
  }

  /** Dropping the condition changes the decision for an authenticated client exactly when the first
      rule it newly reaches decides otherwise than the engine. */
  lemma WideningMattersExactly(rules: seq<PolicyRule>, defaultAccess: Action, mode: AuthMode, request: Request)
    requires request.identity.authenticated && mode != Disabled
    ensures var engine := EvaluateSorted(rules, defaultAccess, mode, request).decision;
            EvaluateSorted(WidenAll(rules), defaultAccess, mode, request).decision != engine
            <==> exists i :: WidenedInto(rules, request, i) && DecisionOf(rules[i].action) != engine
  {
    hide RuleMatches, PartsMatch;
    forall k | 0 <= k < |rules|
      ensures RuleMatches(WidenAll(rules)[k], request, false)
         <==> RuleMatches(rules[k], request, false)
              || (rules[k].identity.Unauthenticated? && PartsMatch(rules[k], request))
      ensures rules[k].identity.Unauthenticated? ==> !RuleMatches(rules[k], request, false)
      ensures WidenAll(rules)[k] == Widen(rules[k]) && Widen(rules[k]).action == rules[k].action
    {
      WidenedMatches(rules[k], request);
    }
    var w, e := FirstMatch(WidenAll(rules), request, false), FirstMatch(rules, request, false);
    assert w <= e;
    if w < |rules| && rules[w].identity.Unauthenticated? {
      assert WidenedInto(rules, request, w) by {
        forall k | 0 <= k < w ensures !RuleMatches(Widen(rules[k]), request, false) {
          assert !RuleMatches(WidenAll(rules)[k], request, false);
        }
      }
      forall i | WidenedInto(rules, request, i) ensures i == w {
        assert RuleMatches(WidenAll(rules)[i], request, false);
        assert !(i > w) by { assert RuleMatches(WidenAll(rules)[w], request, false); }
      }
    } else {
      assert w == e;
      forall i ensures !WidenedInto(rules, request, i) {
        if 0 <= i < |rules| && rules[i].identity.Unauthenticated? && PartsMatch(rules[i], request) {
          assert RuleMatches(WidenAll(rules)[i], request, false) && RuleMatches(WidenAll(rules)[w], request, false);
          assert w < i;
        }
      }
    }
  }

  /** The widened rule that is reached first decides. */
  lemma WidenedRuleDecides(rules: seq<PolicyRule>, i: nat, defaultAccess: Action, mode: AuthMode, request: Request)
    requires request.identity.authenticated && mode != Disabled && WidenedInto(rules, request, i)
    ensures EvaluateSorted(WidenAll(rules), defaultAccess, mode, request).decision == DecisionOf(rules[i].action)
  {
    var widened := WidenAll(rules);
    forall k | 0 <= k < |rules| ensures widened[k] == Widen(rules[k]) && Widen(rules[k]).action == rules[k].action {}
    WidenedMatches(rules[i], request);
    hide RuleMatches, PartsMatch, WidenAll, Widen;
    assert FirstMatch(widened, request, false) == i;
  }

  // ----- anonymous clients -----

  /** An anonymous client on a listener that requires credentials is challenged, on both sides. */
  lemma RequiredAnonymousIsChallenged(ir: ConfigurationIr, l: Listener, r: ProxyRequest)
    requires CoherentIr(ir) && ArrivesOn(ir, l, r) && l.authentication == Required && !r.request.identity.authenticated
    ensures Decide(Compile(ir).squidConf, r) == Some(Screened(l, r, Challenge))
    ensures EvaluateAs(ir, Required, r.request).decision == Challenge
  {
    hide ArrivesOn, Compile, Decide;
    ArrivalIsOnPort(ir, l, r);
    hide Decide, Compile, Screened, RulesDecision, CoherentIr, ArrivesOn;
    CompiledScreens(ir, l, r);
  }

  /** The rule makes Squid ask for credentials: it demands an identity, can be satisfied at all, and
      its source matches. Its destination and schedule come too late to prevent the question. */
  predicate Prompts(ir: ConfigurationIr, rule: PolicyRule, request: Request) {
    rule.enabled && rule.identity.NeedsIdentity()
      && !Omitted(ir, rule.identity) && MatchesSource(rule.source, request.sourceIp)
  }

  lemma AnonymousRule(ir: ConfigurationIr, rule: PolicyRule, request: Request)
    requires (rule.enabled ==> FaithfulRule(rule)) && ValidMoment(request.at)
    requires EffectiveMode(ir) == Optional && !request.identity.authenticated
    ensures RuleOutcome(ir, rule, true, request)
         == if Prompts(ir, rule, request) then Challenged
            else if RuleMatches(rule, request, false) then Matched else Unmatched
    ensures Prompts(ir, rule, request) ==> !RuleMatches(rule, request, false)
  {
    if rule.enabled { PartsAgree(rule, request); }
    RuleMatchesIs(rule, request, false);
    hide ReadsSource, MatchesSource, ReadsDestination, MatchesDestination, ReadsSchedule, MatchesSchedule,
         FaithfulRule, EffectiveMode, RuleMatches;
  }

  /** Some rule prompts before the rule the engine picks, or at all when it picks none. */
  predicate PromptsFirst(ir: ConfigurationIr, request: Request) {
    var rules := SortRules(ir.rules);
    exists k :: 0 <= k < FirstMatch(rules, request, false) && Prompts(ir, rules[k], request)
  }

  lemma AnonymousRules(ir: ConfigurationIr, request: Request)
    requires FaithfulIr(ir) && EffectiveMode(ir) == Optional && ValidMoment(request.at)
    requires !request.identity.authenticated
    ensures RulesDecision(ir, true, request)
         == if PromptsFirst(ir, request) then Challenge else EvaluateAs(ir, Optional, request).decision
  {
    SortedRulesAreFaithful(ir);
    hide FaithfulRule, RuleOutcome, RuleMatches, SortRules, EffectiveMode, CoherentIr, Prompts;
    var rules := SortRules(ir.rules);
    forall i | 0 <= i < |rules|
      ensures RuleOutcome(ir, rules[i], true, request)
           == if Prompts(ir, rules[i], request) then Challenged
              else if RuleMatches(rules[i], request, false) then Matched else Unmatched
      ensures Prompts(ir, rules[i], request) ==> !RuleMatches(rules[i], request, false)
    {
      AnonymousRule(ir, rules[i], request);
    }
    var i, j := FirstDeciding(ir, rules, true, request), FirstMatch(rules, request, false);
    assert i <= j;
    if i < |rules| && Prompts(ir, rules[i], request) {
      assert i < j;
      assert PromptsFirst(ir, request);
    } else {
      assert i == j;
      assert !PromptsFirst(ir, request);
    }
  }

  /** An anonymous client on an OPTIONAL listener is challenged exactly when some rule prompts first,
      and otherwise gets the engine's decision, which is never a challenge. */
  lemma OptionalAnonymousDecides(ir: ConfigurationIr, l: Listener, r: ProxyRequest)
    requires FaithfulIr(ir) && ArrivesOn(ir, l, r) && l.authentication == Optional && ValidMoment(r.request.at)
    requires !r.request.identity.authenticated
    ensures Decide(Compile(ir).squidConf, r)
         == Some(Screened(l, r, if PromptsFirst(ir, r.request) then Challenge
                                else EvaluateAs(ir, Optional, r.request).decision))
    ensures EvaluateAs(ir, Optional, r.request).decision != Challenge
  {
    hide ArrivesOn, Compile, Decide;
    ArrivalIsOnPort(ir, l, r);
    assert EffectiveMode(ir) == Optional;
    assert EvaluateAs(ir, Optional, r.request).decision != Challenge;
    hide Decide, Compile, Screened, EffectiveMode, RulesDecision, EvaluateAs, PromptsFirst;
    CompiledScreens(ir, l, r);
    AnonymousRules(ir, r.request);
  }
}
