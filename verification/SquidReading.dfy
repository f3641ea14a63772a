/** What Squid makes of each compiled rule, said in terms of the rule itself, and the proof that
    interpreting the compiled lines gives exactly that. */
module SquidReading {
  import opened Text
  import opened Ir
  import opened IpText
  import opened IpRanges
  import opened Engine
  import opened Names
  import opened Squid
  import opened Compiler
  import opened CompilerNames
  import opened CompilerDefinitions
  import opened DefinitionOrder
  import opened CompilerTests

  // ----- evaluating a list of positive names -----

  function EvalNames(conf: seq<Directive>, names: seq<string>, r: ProxyRequest): Outcome {
    EvalTerms(conf, PositiveTerms(names), r)
  }

  lemma EvalNamesCons(conf: seq<Directive>, names: seq<string>, r: ProxyRequest)
    requires names != []
    ensures EvalNames(conf, names, r)
         == if AclNeedsCredentials(conf, names[0]) && !r.request.identity.authenticated then Challenged
            else if !AclHolds(conf, names[0], r) then Unmatched
            else EvalNames(conf, names[1..], r)
  {
    assert PositiveTerms(names)[1..] == PositiveTerms(names[1..]);
  }

  lemma {:induction false} EvalNamesAppend(conf: seq<Directive>, a: seq<string>, b: seq<string>, r: ProxyRequest)
    ensures EvalNames(conf, a + b, r) == if EvalNames(conf, a, r) == Matched then EvalNames(conf, b, r)
                                         else EvalNames(conf, a, r)
  {
    if a == [] {
      assert a + b == b;
    } else {
      assert (a + b)[1..] == a[1..] + b;
      EvalNamesCons(conf, a + b, r);
      EvalNamesCons(conf, a, r);
      EvalNamesAppend(conf, a[1..], b, r);
    }
  }

  lemma {:induction false} MatchedEach(conf: seq<Directive>, names: seq<string>, r: ProxyRequest, n: string)
    requires EvalNames(conf, names, r) == Matched && n in names
    ensures EvalNames(conf, [n], r) == Matched
  {
    EvalNamesCons(conf, names, r);
    EvalNamesCons(conf, [n], r);
    if n != names[0] { MatchedEach(conf, names[1..], r, n); }
  }

  /** Dropping repeated names does not change what a line means, nor whether it challenges. */
  lemma {:induction false} EvalDedupe(conf: seq<Directive>, names: seq<string>, r: ProxyRequest)
    ensures EvalNames(conf, Dedupe(names), r) == EvalNames(conf, names, r)
  {
    if names != [] {
      var init, last := names[..|names| - 1], names[|names| - 1];
      EvalDedupe(conf, init, r);
      assert names == init + [last];
      EvalNamesAppend(conf, init, [last], r);
      EvalNamesAppend(conf, Dedupe(init), [last], r);
      if last in Dedupe(init) && EvalNames(conf, Dedupe(init), r) == Matched {
        MatchedEach(conf, Dedupe(init), r, last);
      }
    }
  }

  function OutcomeDecision(verb: Action, outcome: Outcome): Option<Decision> {
    match outcome
    case Matched => Some(DecisionOf(verb))
    case Challenged => Some(Challenge)
    case Unmatched => None
  }

  lemma AccessLineDecides(conf: seq<Directive>, verb: Action, names: seq<string>, r: ProxyRequest)
    ensures LineDecision(conf, AccessLine(verb, names), r) == OutcomeDecision(verb, EvalNames(conf, names, r))
  {
    EvalDedupe(conf, names, r);
    if Dedupe(names) == [] {
      assert names == [] by { assert forall v :: v in names ==> v in Dedupe(names); }
      assert EvalTerms(conf, [Term(false, ALL)], r) == Matched by { assert [Term(false, ALL)][1..] == []; }
    }
  }

  // ----- tests behind names -----

  predicate TestsHold(conf: seq<Directive>, tests: seq<AclTest>, r: ProxyRequest) {
    forall t :: t in tests ==> TestHolds(conf, t, r)
  }

  predicate NoCredentials(tests: seq<AclTest>) { forall t :: t in tests ==> !t.NeedsCredentials() }

  lemma {:induction false} EvalPlain(conf: seq<Directive>, names: seq<string>, tests: seq<AclTest>, r: ProxyRequest)
    requires DenotesAll(conf, names, tests) && NoCredentials(tests)
    ensures EvalNames(conf, names, r) == if TestsHold(conf, tests, r) then Matched else Unmatched
  {
    hide Denotes, TestHolds;
    if names != [] {
      EvalNamesCons(conf, names, r);
      DenotesMeans(conf, names[0], tests[0], r);
      assert tests[0] in tests;
      assert forall t :: t in tests <==> t == tests[0] || t in tests[1..];
      EvalPlain(conf, names[1..], tests[1..], r);
    }
  }

  lemma EvalOne(conf: seq<Directive>, name: string, test: AclTest, r: ProxyRequest)
    requires Denotes(conf, name, test)
    ensures EvalNames(conf, [name], r)
         == if test.NeedsCredentials() && !r.request.identity.authenticated then Challenged
            else if TestHolds(conf, test, r) then Matched else Unmatched
  {
    DenotesMeans(conf, name, test, r);
    EvalNamesCons(conf, [name], r);
    assert [name][1..] == [];
  }

  // ----- the reading of a rule -----

  /** Every network of the source must contain the address: Squid conjoins the terms of a line. */
  predicate ReadsSource(matcher: SourceMatcher, sourceIp: string) {
    matcher.AnySource? ||
    forall n :: n in matcher.networks && NonBlank(n.cidrs) != [] ==>
      ParseIp(sourceIp).Some? && IpInAnyCidr(ParseIp(sourceIp).value, NonBlank(n.cidrs))
  }

  predicate HostHolds(host: Option<string>) { host.Some? && host.value != "" }

  /** Each kind of destination entry that is present must match: domains, networks and ports. */
  predicate ReadsDestination(matcher: DestinationMatcher, host: Option<string>, port: Option<int>) {
    match matcher
    case AnyDestination => true
    case Specific(domains, cidrs, ports) =>
      && (NonBlank(domains) != [] ==> HostHolds(host) && MatchesDomain(host.value, NonBlank(domains)))
      && (NonBlank(cidrs) != [] ==> HostHolds(host) && HostInCidrs(host.value, NonBlank(cidrs)))
      && (ports != [] ==> port.Some? && port.value in ports)
  }

  predicate ReadsSchedule(matcher: ScheduleMatcher, at: Moment) {
    match matcher
    case Always => true
    case Window(days, start, end) =>
      MatchesSchedule(Window(WrittenDays(days), ClampMinutes(start), ClampMinutes(end)), at)
  }

  predicate HoldsProviderGroup(providerKey: string, group: string, identity: RequestIdentity) {
    exists held :: held in identity.groups && held.source == External
      && held.name == group && held.providerKey == Some(providerKey)
  }

  predicate ReadsGroup(auth: AuthenticationIr, ref: GroupRef, identity: RequestIdentity) {
    !DeadGroup(auth, SortProviders(auth.providers), ref) &&
    if ref.source == Local then MatchesUsername(MembersOf(auth, ref.name), identity.username)
    else HoldsProviderGroup(LdapProvider(SortProviders(auth.providers), ref.providerKey).value.key, ref.name, identity)
  }

  predicate ReadsIdentity(auth: AuthenticationIr, matcher: IdentityMatcher, identity: RequestIdentity) {
    match matcher
    case User(users) => MatchesUsername(NonEmpty(Usernames(users)), identity.username)
    case Group(groups) => exists g :: g in ExpandGroupRefs(groups) && ReadsGroup(auth, g, identity)
    case _ => true
  }

  /** Rules that are left out because their identity condition can never match. */
  predicate Omitted(ir: ConfigurationIr, matcher: IdentityMatcher) {
    match matcher
    case AnyIdentity => false
    case Unauthenticated => EffectiveMode(ir) == Required
    case Authenticated => EffectiveMode(ir) == Disabled
    case User(users) => EffectiveMode(ir) == Disabled || NonEmpty(Usernames(users)) == []
    case Group(groups) =>
      EffectiveMode(ir) == Disabled ||
      forall g :: g in ExpandGroupRefs(groups) ==>
               DeadGroup(ir.authentication, SortProviders(ir.authentication.providers), g)
  }

  /** What Squid does with a rule for a request: an identity condition is reached only on listeners
      that can authenticate and after the source, and then challenges an anonymous client. */
  function RuleOutcome(ir: ConfigurationIr, rule: PolicyRule, authenticates: bool, request: Request): Outcome {
    if !rule.enabled || Omitted(ir, rule.identity) then Unmatched
    else if rule.identity.NeedsIdentity() && !authenticates then Unmatched
    else if !ReadsSource(rule.source, request.sourceIp) then Unmatched
    else if rule.identity.NeedsIdentity() && !request.identity.authenticated then Challenged
    else if rule.identity.NeedsIdentity() && !ReadsIdentity(ir.authentication, rule.identity, request.identity) then
      Unmatched
    else if !ReadsDestination(rule.destination, request.host, request.port) then Unmatched
    else if !ReadsSchedule(rule.schedule, request.at) then Unmatched
    else Matched
  }

  // ----- the names of a rule stand for its tests -----

  lemma TestsAppend(conf: seq<Directive>, a: seq<AclTest>, b: seq<AclTest>, r: ProxyRequest)
    ensures TestsHold(conf, a + b, r) <==> TestsHold(conf, a, r) && TestsHold(conf, b, r)
    ensures NoCredentials(a + b) <==> NoCredentials(a) && NoCredentials(b)
  {
    hide TestHolds;
    assert forall t :: t in a + b <==> t in a || t in b;
  }

  lemma OneTest(conf: seq<Directive>, t: AclTest, r: ProxyRequest)
    ensures TestsHold(conf, [t], r) <==> TestHolds(conf, t, r)
    ensures NoCredentials([t]) <==> !t.NeedsCredentials()
  {
    hide TestHolds;
    assert t in [t];
  }

  lemma NoTests(conf: seq<Directive>, r: ProxyRequest)
    ensures TestsHold(conf, [], r) && NoCredentials([])
  {
  }

  /** A network without entries drops out; any other demands the address. */
  predicate AdmitsNetwork(n: Network, sourceIp: string) {
    NonBlank(n.cidrs) != [] ==> ParseIp(sourceIp).Some? && IpInAnyCidr(ParseIp(sourceIp).value, NonBlank(n.cidrs))
  }

  lemma LastNetwork(conf: seq<Directive>, n: Network, r: ProxyRequest)
    ensures var last := if NonBlank(n.cidrs) == [] then [] else [Src(NonBlank(n.cidrs))];
            (TestsHold(conf, last, r) <==> AdmitsNetwork(n, r.request.sourceIp)) && NoCredentials(last)
  {
    OneTest(conf, Src(NonBlank(n.cidrs)), r);
    NoTests(conf, r);
    hide NonBlank, ParseIp, IpInAnyCidr, TestsHold, NoCredentials;
  }

  lemma {:induction false} NetTestsHold(conf: seq<Directive>, networks: seq<Network>, r: ProxyRequest)
    ensures TestsHold(conf, NetTests(networks), r) <==> ReadsSource(Networks(networks), r.request.sourceIp)
    ensures NoCredentials(NetTests(networks))
  {
    assert ReadsSource(Networks(networks), r.request.sourceIp)
       <==> forall n :: n in networks ==> AdmitsNetwork(n, r.request.sourceIp) by {
      hide NonBlank, ParseIp, IpInAnyCidr;
    }
    NetTestsAdmit(conf, networks, r);
  }

  lemma {:induction false} NetTestsAdmit(conf: seq<Directive>, networks: seq<Network>, r: ProxyRequest)
    ensures TestsHold(conf, NetTests(networks), r)
       <==> forall n :: n in networks ==> AdmitsNetwork(n, r.request.sourceIp)
    ensures NoCredentials(NetTests(networks))
  {
    hide TestsHold, NoCredentials, AdmitsNetwork, NonBlank;
    if networks == [] {
      NoTests(conf, r);
    } else {
      var n := |networks| - 1;
      NetTestsAdmit(conf, networks[..n], r);
      LastNetwork(conf, networks[n], r);
      TestsAppend(conf, NetTests(networks[..n]),
                  if NonBlank(networks[n].cidrs) == [] then [] else [Src(NonBlank(networks[n].cidrs))], r);
      assert forall m :: m in networks <==> m in networks[..n] || m == networks[n];
    }
  }

  function RestTests(rule: PolicyRule): seq<AclTest> {
    DestTests(rule.destination) + if rule.schedule.Window? then [TimeTest(rule)] else []
  }

  lemma MaybeTest(conf: seq<Directive>, present: bool, t: AclTest, r: ProxyRequest)
    ensures TestsHold(conf, if present then [t] else [], r) <==> (present ==> TestHolds(conf, t, r))
    ensures NoCredentials(if present then [t] else []) <==> (present ==> !t.NeedsCredentials())
  {
    OneTest(conf, t, r);
    NoTests(conf, r);
    hide TestHolds, TestsHold, NoCredentials;
  }

  lemma HostTestsMean(conf: seq<Directive>, domains: seq<string>, cidrs: seq<string>, ports: seq<int>, r: ProxyRequest)
    ensures TestHolds(conf, DstDomain(domains), r)
       <==> HostHolds(r.request.host) && MatchesDomain(r.request.host.value, domains)
    ensures TestHolds(conf, Dst(cidrs), r) <==> HostHolds(r.request.host) && HostInCidrs(r.request.host.value, cidrs)
    ensures TestHolds(conf, Port(ports), r) <==> r.request.port.Some? && r.request.port.value in ports
  {
    hide MatchesDomain, HostInCidrs;
  }

  lemma SpecificTestsHold(conf: seq<Directive>, domains: seq<string>, cidrs: seq<string>, ports: seq<int>,
                          r: ProxyRequest)
    ensures var tests :=
              (if domains != [] then [DstDomain(domains)] else []) + (if cidrs != [] then [Dst(cidrs)] else [])
                         + (if ports != [] then [Port(ports)] else []);
            && NoCredentials(tests)
            && (TestsHold(conf, tests, r) <==>
                 && (domains != [] ==> HostHolds(r.request.host) && MatchesDomain(r.request.host.value, domains))
                 && (cidrs != [] ==> HostHolds(r.request.host) && HostInCidrs(r.request.host.value, cidrs))
                 && (ports != [] ==> r.request.port.Some? && r.request.port.value in ports))
  {
    HostTestsMean(conf, domains, cidrs, ports, r);
    hide MatchesDomain, HostInCidrs, TestsHold, TestHolds, NoCredentials, HostHolds;
    var d := if domains != [] then [DstDomain(domains)] else [];
    var c := if cidrs != [] then [Dst(cidrs)] else [];
    var p := if ports != [] then [Port(ports)] else [];
    MaybeTest(conf, domains != [], DstDomain(domains), r);
    MaybeTest(conf, cidrs != [], Dst(cidrs), r);
    MaybeTest(conf, ports != [], Port(ports), r);
    TestsAppend(conf, d + c, p, r);
    TestsAppend(conf, d, c, r);
  }

  lemma DestTestsHold(conf: seq<Directive>, destination: DestinationMatcher, r: ProxyRequest)
    ensures TestsHold(conf, DestTests(destination), r)
       <==> ReadsDestination(destination, r.request.host, r.request.port)
    ensures NoCredentials(DestTests(destination))
  {
    match destination {
      case AnyDestination =>
      case Specific(domains, cidrs, ports) =>
        hide NonBlank, MatchesDomain, HostInCidrs, TestsHold, TestHolds, NoCredentials, HostHolds;
        SpecificTestsHold(conf, NonBlank(domains), NonBlank(cidrs), ports, r);
    }
  }

  lemma RestTestsHold(conf: seq<Directive>, rule: PolicyRule, r: ProxyRequest)
    ensures TestsHold(conf, RestTests(rule), r)
       <==> ReadsDestination(rule.destination, r.request.host, r.request.port)
            && ReadsSchedule(rule.schedule, r.request.at)
    ensures NoCredentials(RestTests(rule))
  {
    hide TestsHold, NoCredentials, DestTests, MatchesSchedule, ReadsDestination;
    var s := if rule.schedule.Window? then [TimeTest(rule)] else [];
    DestTestsHold(conf, rule.destination, r);
    TestsAppend(conf, DestTests(rule.destination), s, r);
    if rule.schedule.Window? { OneTest(conf, TimeTest(rule), r); } else { NoTests(conf, r); }
  }

  lemma SubLines(ir: ConfigurationIr)
    ensures var p := RunPhases(ir);
            forall d :: (d in p.nets.st.lines || d in p.groups.lines
                         || d in p.users.lines || d in p.dests.destinationLines
                         || d in p.dests.scheduleLines || d in p.listeners.out) ==> d in AllocatedLines(p)
  {
  }

  lemma AllDenote(ir: ConfigurationIr, lines: seq<Directive>, names: seq<string>, tests: seq<AclTest>)
    requires NamesTests(lines, names, tests) && forall d :: d in lines ==> d in AllocatedLines(RunPhases(ir))
    ensures DenotesAll(Compile(ir).squidConf, names, tests)
  {
    hide RunPhases, Compile, AllocatedLines, Denotes;
    forall k | 0 <= k < |names| ensures Denotes(Compile(ir).squidConf, names[k], tests[k]) {
      AllocatedDenotes(ir, names[k], tests[k]);
    }
  }

  function NetNames(rule: PolicyRule, c: RuleContext): seq<string> {
    if rule.id in c.networks then c.networks[rule.id] else []
  }

  function SourceTests(rule: PolicyRule): seq<AclTest> {
    if rule.source.Networks? then NetTests(rule.source.networks) else []
  }

  lemma NetNamesDenote(ir: ConfigurationIr, rule: PolicyRule)
    requires CoherentIr(ir) && rule in SortRules(ir.rules)
    ensures DenotesAll(Compile(ir).squidConf, NetNames(rule, ContextOf(ir, RunPhases(ir))), SourceTests(rule))
  {
    PhaseInputs(ir);
    SubLines(ir);
    hide RunPhases, Compile, AllocatedLines, NetRules, NetTests;
    var p, rules := RunPhases(ir), SortRules(ir.rules);
    NetRulesTests({}, rules, NetworksOf(rules));
    assert NetRuleTests(p.nets, rule);
    AllDenote(ir, p.nets.st.lines, NetNames(rule, ContextOf(ir, p)), SourceTests(rule));
  }

  lemma DenotesAppend(conf: seq<Directive>, a: seq<string>, s: seq<AclTest>, b: seq<string>, t: seq<AclTest>)
    requires DenotesAll(conf, a, s) && DenotesAll(conf, b, t)
    ensures DenotesAll(conf, a + b, s + t)
  {
    hide Denotes;
  }

  lemma DestNamesTests(ir: ConfigurationIr, rule: PolicyRule)
    requires CoherentIr(ir) && rule in SortRules(ir.rules)
    ensures DestRuleTests(RunPhases(ir).dests, rule)
  {
    PhaseInputs(ir);
    hide RunPhases, Compile, DestRules, DestRuleTests, SortRules;
    DestRulesTests(RunPhases(ir).users.used, SortRules(ir.rules));
  }

  lemma RestNamesDenote(ir: ConfigurationIr, rule: PolicyRule)
    requires CoherentIr(ir) && rule in SortRules(ir.rules)
    ensures DenotesAll(Compile(ir).squidConf, RestTerms(rule, ContextOf(ir, RunPhases(ir))), RestTests(rule))
  {
    SubLines(ir);
    DestNamesTests(ir, rule);
    hide RunPhases, Compile, AllocatedLines, DestTests, CoherentIr, SortRules, NamesTests, DenotesAll;
    var conf, d := Compile(ir).squidConf, RunPhases(ir).dests;
    var names := if rule.schedule.Window? then [d.schedules[rule.id]] else [];
    var tests := if rule.schedule.Window? then [TimeTest(rule)] else [];
    AllDenote(ir, d.destinationLines, d.destinations[rule.id], DestTests(rule.destination));
    if rule.schedule.Window? { AllDenote(ir, d.scheduleLines, names, tests); } else { NothingDenotes(conf); }
    DenotesAppend(conf, d.destinations[rule.id], DestTests(rule.destination), names, tests);
    assert RestTerms(rule, ContextOf(ir, RunPhases(ir))) == d.destinations[rule.id] + names;
  }

  lemma NothingDenotes(conf: seq<Directive>)
    ensures DenotesAll(conf, [], [])
  {
  }

  lemma UserNameDenotes(ir: ConfigurationIr, rule: PolicyRule)
    requires CoherentIr(ir) && rule in SortRules(ir.rules) && rule.identity.User? && AuthEnabled(ir)
    ensures var c, usernames := ContextOf(ir, RunPhases(ir)), NonEmpty(Usernames(rule.identity.users));
            (rule.id in c.users <==> usernames != []) &&
            (usernames != [] ==> Denotes(Compile(ir).squidConf, c.users[rule.id], ProxyAuthUsers(usernames)))
  {
    PhaseInputs(ir);
    SubLines(ir);
    hide RunPhases, Compile, AllocatedLines, UserRules, Denotes;
    var p, rules := RunPhases(ir), SortRules(ir.rules);
    UserRulesTests(p.groups.used, rules);
    assert UserRuleTests(p.users, rule);
    if rule.id in p.users.byRule {
      AllocatedDenotes(ir, p.users.byRule[rule.id], ProxyAuthUsers(NonEmpty(Usernames(rule.identity.users))));
    }
  }

  lemma AuthenticatedBefore(ir: ConfigurationIr)
    requires AuthEnabled(ir) && ir.authentication.providers != []
    ensures var d := Acl(AUTHENTICATED_ACL, ProxyAuthRequired);
            d in BeforeAllocated(ir) && forall e ::
              e in BeforeAllocated(ir) && e.Acl? && e.name == AUTHENTICATED_ACL ==> e == d
  {
    SortProvidersMultiset(ir.authentication.providers);
    assert ir.authentication.providers[0] in SortProviders(ir.authentication.providers);
    hide AuthEnabled, SortProviders, BASELINE, BASELINE_ACCESS;
    BaselineIsOther();
    var d := Acl(AUTHENTICATED_ACL, ProxyAuthRequired);
    assert AuthLines(AuthEnabled(ir), SortProviders(ir.authentication.providers))[1] == d;
  }

  lemma AuthenticatedDenotes(ir: ConfigurationIr)
    requires AuthEnabled(ir) && ir.authentication.providers != []
    ensures Denotes(Compile(ir).squidConf, AUTHENTICATED_ACL, ProxyAuthRequired)
  {
    hide RunPhases, Compile, AllocatedLines, BeforeAllocated, PortLines, ConfBody, FIXED_NAMES, AuthEnabled;
    AuthenticatedBefore(ir);
    ConfAround(ir);
    FixedAround(ir);
    PhasesAllocate(ir);
    forall e | e in AllocatedLines(RunPhases(ir)) && e.Acl? ensures e.name != AUTHENTICATED_ACL {
      AllocatedIsNotFixed(e.name);
      NameIsNotPorts(e.name);
    }
  }

  // ----- groups -----

  lemma GroupRefDenotes(ir: ConfigurationIr, ref: GroupRef)
    requires CoherentIr(ir) && AuthEnabled(ir) && ref in GroupsOf(SortRules(ir.rules))
    ensures var c, providers := ContextOf(ir, RunPhases(ir)), SortProviders(ir.authentication.providers);
            && AclKey(ref) in c.groups
            && (DeadGroup(ir.authentication, providers, ref) <==> c.groups[AclKey(ref)] == "")
            && (!DeadGroup(ir.authentication, providers, ref) ==>
                  Denotes(Compile(ir).squidConf, c.groups[AclKey(ref)], GroupTest(ir.authentication, providers, ref)))
  {
    PhaseInputs(ir);
    SubLines(ir);
    hide RunPhases, Compile, AllocatedLines, GroupRules, Denotes, DeadGroup, GroupTest, AclKey, TypesAreDeclared;
    var p, rules, providers := RunPhases(ir), SortRules(ir.rules), SortProviders(ir.authentication.providers);
    GroupRulesTests(ir.authentication, providers, p.nets.st.used, rules, GroupsOf(rules));
    assert GroupTests(ir.authentication, providers, p.groups, ref);
    if !DeadGroup(ir.authentication, providers, ref) {
      AllocatedDenotes(ir, p.groups.acl[AclKey(ref)], GroupTest(ir.authentication, providers, ref));
    }
  }

  ghost predicate NoTypes(lines: seq<Directive>) { forall d :: d in lines ==> !d.ExternalAclType? }

  lemma ConfMembers(ir: ConfigurationIr)
    ensures var p := RunPhases(ir);
            forall d :: d in Compile(ir).squidConf <==>
              (d in BeforeAllocated(ir) || d in p.nets.st.lines || d in p.groups.lines || d in p.users.lines
               || d in p.dests.destinationLines + p.dests.scheduleLines
                 || d in p.listeners.out || d in PortLines(ir) + ConfBody(ir))
  {
    ConfAround(ir);
    hide RunPhases, ConfBody, PortLines, Compile, BeforeAllocated;
  }

  lemma BeforeHasNoTypes(ir: ConfigurationIr)
    ensures NoTypes(BeforeAllocated(ir))
  {
    BaselineIsOther();
    hide BASELINE, BASELINE_ACCESS, AuthEnabled, SortProviders;
  }

  lemma BodyHasNoTypes(ir: ConfigurationIr)
    ensures NoTypes(PortLines(ir) + ConfBody(ir))
  {
    BodyIsAccess(ir);
    PortLineShape(ir);
    hide PortLines, ConfBody;
  }

  lemma OtherLinesHaveNoTypes(ir: ConfigurationIr)
    ensures var p := RunPhases(ir);
            && NoTypes(BeforeAllocated(ir)) && NoTypes(p.nets.st.lines) && NoTypes(p.users.lines)
            && NoTypes(p.dests.destinationLines + p.dests.scheduleLines) && NoTypes(p.listeners.out)
            && NoTypes(PortLines(ir) + ConfBody(ir))
  {
    BeforeHasNoTypes(ir);
    BodyHasNoTypes(ir);
    PhaseInputs(ir);
    var p, rules := RunPhases(ir), SortRules(ir.rules);
    hide RunPhases, BeforeAllocated, ConfBody, PortLines, NetRules, UserRules, DestRules, ListenerSteps, AuthEnabled,
         SortProviders, SortRules;
    NetLinesShape({}, rules);
    UserLinesShape(p.groups.used, if AuthEnabled(ir) then rules else []);
    DestRulesAllocate(p.users.used, rules);
    ListenerLinesShape(p.dests.used, ir.listeners);
  }

  lemma TypeLines(ir: ConfigurationIr)
    ensures forall t, k ::
              (ExternalAclType(t, k) in Compile(ir).squidConf <==> ExternalAclType(t, k) in RunPhases(ir).groups.lines)
  {
    ConfMembers(ir);
    OtherLinesHaveNoTypes(ir);
    hide RunPhases, ConfBody, PortLines, Compile, BeforeAllocated;
  }

  lemma {:induction false} ListenerLinesShape(used: set<string>, listeners: seq<Listener>)
    ensures forall d :: d in ListenerSteps(used, listeners).out ==> !d.ExternalAclType?
  {
    if listeners != [] { ListenerLinesShape(used, listeners[..|listeners| - 1]); }
  }

  lemma TypeIsOneProvider(ir: ConfigurationIr, key: string, group: string)
    requires CoherentIr(ir) && AuthEnabled(ir)
    requires LdapProvider(SortProviders(ir.authentication.providers), Some(key)).Some?
    requires exists n :: Acl(n, ExternalGroup(TypeName(key), group)) in RunPhases(ir).groups.lines
    ensures forall k :: ExternalAclType(TypeName(key), k) in Compile(ir).squidConf <==> k == key
  {
    PhaseInputs(ir);
    TypeLines(ir);
    SortProvidersMultiset(ir.authentication.providers);
    hide RunPhases, Compile, AuthEnabled, GroupRules, SortProviders, GroupTests, Slug;
    var p, rules, providers := RunPhases(ir), SortRules(ir.rules), SortProviders(ir.authentication.providers);
    GroupRulesTests(ir.authentication, providers, p.nets.st.used, rules, GroupsOf(rules));
    assert TypesAreDeclared(providers, p.groups);
    var n :| Acl(n, ExternalGroup(TypeName(key), group)) in p.groups.lines;
    var k0 :| ExternalAclType(TypeName(key), k0) in p.groups.lines;
    forall k | ExternalAclType(TypeName(key), k) in p.groups.lines ensures k == key {
      TypeNameSlug(key, k);
    }
  }

  lemma TypeNameSlug(a: string, b: string)
    requires TypeName(a) == TypeName(b)
    ensures Slug(a) == Slug(b)
  {
    assert TypeName(a)[|"scp_ldapgrp_"|..] == Slug(a);
    assert TypeName(b)[|"scp_ldapgrp_"|..] == Slug(b);
  }
}
