/** Which divergences between the compiled file and the engine the compiler reports: an unfaithful
    source or destination that draws no warning has exactly one shape. */
module SilentDivergence {
  import opened Text
  import opened Bits
  import opened Ir
  import opened IpText
  import opened IpRoundTrip
  import opened IpRanges
  import opened Names
  import opened Squid
  import opened Compiler
  import opened CompilerDefinitions
  import opened CompilerTests
  import opened Engine
  import opened CompiledRules
  import opened CompilerCorrect
  import opened SquidReading
  import opened Faithful
  import opened ListenerTheorems

  // ----- which warnings each phase gives -----

  predicate WarnsOfNetwork(rule: PolicyRule) {
    rule.source.Networks? && exists n :: n in rule.source.networks && !IsLive(n)
  }

  lemma NetworkStepWarns(st: NetState, acls: seq<string>, ruleId: string, network: Network)
    ensures NetworkStep(st, acls, ruleId, network).0.warnings
         == st.warnings + if IsLive(network) then [] else [Warning(EmptyNetwork, Some(ruleId))]
  {
    hide TakeName;
  }

  lemma {:induction false} RuleNetworksWarn(st: NetState, ruleId: string, networks: seq<Network>)
    ensures forall w :: (w in RuleNetworks(st, ruleId, networks).0.warnings <==>
              (w in st.warnings || (w == Warning(EmptyNetwork, Some(ruleId))
                                    && exists n :: n in networks && !IsLive(n))))
  {
    hide NetworkStep, IsLive;
    if networks != [] {
      var n := |networks| - 1;
      RuleNetworksWarn(st, ruleId, networks[..n]);
      var (s, acls) := RuleNetworks(st, ruleId, networks[..n]);
      NetworkStepWarns(s, acls, ruleId, networks[n]);
      assert forall k :: k in networks <==> k in networks[..n] || k == networks[n];
    }
  }

  lemma {:induction false} NetRulesWarn(used: set<string>, rules: seq<PolicyRule>)
    ensures forall w :: (w in NetRules(used, rules).st.warnings <==>
              (exists rule :: rule in rules && WarnsOfNetwork(rule) && w == Warning(EmptyNetwork, Some(rule.id))))
  {
    hide RuleNetworks, IsLive;
    if rules != [] {
      var n := |rules| - 1;
      NetRulesWarn(used, rules[..n]);
      if rules[n].source.Networks? {
        RuleNetworksWarn(NetRules(used, rules[..n]).st, rules[n].id, rules[n].source.networks);
      }
      assert forall k :: k in rules <==> k in rules[..n] || k == rules[n];
    }
  }

  /** The warnings about the destination of one rule. */
  function DestWarnings(rule: PolicyRule): set<WarningCode> {
    match rule.destination
    case AnyDestination => {}
    case Specific(domains, cidrs, ports) =>
      (if NonBlank(domains) != [] && NonBlank(cidrs) != [] then {DestinationDomainAndNetwork} else {})
      + (if NonBlank(domains) == [] && NonBlank(cidrs) == [] && ports == [] then {EmptyDestination} else {})
  }

  lemma AddDestinationWarns(st: DestState, acls: seq<string>, base: string, test: AclTest, present: bool)
    ensures var (s, a) := AddDestination(st, acls, base, test, present);
            s.warnings == st.warnings && (a == [] <==> acls == [] && !present)
  {
  }

  lemma DestRuleWarns(st: DestState, rule: PolicyRule)
    ensures forall w :: (w in DestRule(st, rule).warnings <==>
              (w in st.warnings || (w.ruleId == Some(rule.id) && w.code in DestWarnings(rule))))
  {
    hide AddDestination, NonBlank, TakeName;
    match rule.destination
    case AnyDestination =>
    case Specific(domains, cidrs, ports) =>
      var base := DestBase(rule);
      AddDestinationWarns(st, [], base + "_dom", DstDomain(NonBlank(domains)), NonBlank(domains) != []);
      var (s1, a1) := AddDestination(st, [], base + "_dom", DstDomain(NonBlank(domains)), NonBlank(domains) != []);
      AddDestinationWarns(s1, a1, base + "_net", Dst(NonBlank(cidrs)), NonBlank(cidrs) != []);
      var (s2, a2) := AddDestination(s1, a1, base + "_net", Dst(NonBlank(cidrs)), NonBlank(cidrs) != []);
      AddDestinationWarns(s2, a2, base + "_port", Port(ports), ports != []);
  }

  lemma {:induction false} DestRulesWarn(used: set<string>, rules: seq<PolicyRule>)
    ensures forall w :: (w in DestRules(used, rules).warnings <==>
              (exists rule :: rule in rules && w.ruleId == Some(rule.id) && w.code in DestWarnings(rule)))
  {
    hide DestRule, DestWarnings;
    if rules != [] {
      var n := |rules| - 1;
      DestRulesWarn(used, rules[..n]);
      DestRuleWarns(DestRules(used, rules[..n]), rules[n]);
      assert forall k :: k in rules <==> k in rules[..n] || k == rules[n];
    }
  }

  /** Codes that speak of a source or destination. */
  const PLACE_CODES: set<WarningCode> := {EmptyNetwork, DestinationDomainAndNetwork, EmptyDestination}

  /** Codes that speak of the identity condition of a rule. */
  const RULE_CODES: set<WarningCode> :=
    {IdentityRuleWithoutAuth, UnauthenticatedRuleInRequiredMode, UnauthenticatedWidened, OptionalModeRuleOrder}

  /** Warnings of the phases that set up authentication, groups, users and listeners. */
  predicate SetupCodes(warnings: seq<Warning>) {
    forall w :: w in warnings ==> w.code !in PLACE_CODES && w.code !in RULE_CODES
  }

  predicate OnlyGroupCodes(warnings: seq<Warning>) {
    forall w :: w in warnings ==> w.code == EmptyGroup || w.code == UnknownExternalGroupProvider
  }

  lemma GroupStepWarns(auth: AuthenticationIr, providers: seq<Provider>, st: GroupState, ruleId: string, ref: GroupRef)
    requires OnlyGroupCodes(st.warnings)
    ensures OnlyGroupCodes(GroupStep(auth, providers, st, ruleId, ref).warnings)
  {
    hide TakeName, Slug, AclKey, LdapProvider, MembersOf, TypeName;
  }

  lemma {:induction false} RuleGroupsWarn(auth: AuthenticationIr, providers: seq<Provider>, st: GroupState,
                          ruleId: string, refs: seq<GroupRef>)
    requires OnlyGroupCodes(st.warnings)
    ensures OnlyGroupCodes(RuleGroups(auth, providers, st, ruleId, refs).warnings)
  {
    hide GroupStep, OnlyGroupCodes;
    if refs != [] {
      var n := |refs| - 1;
      RuleGroupsWarn(auth, providers, st, ruleId, refs[..n]);
      GroupStepWarns(auth, providers, RuleGroups(auth, providers, st, ruleId, refs[..n]), ruleId, refs[n]);
    }
  }

  lemma {:induction false} GroupRulesWarn(auth: AuthenticationIr, providers: seq<Provider>, used: set<string>,
                          rules: seq<PolicyRule>)
    ensures OnlyGroupCodes(GroupRules(auth, providers, used, rules).warnings)
  {
    hide RuleGroups, ExpandGroupRefs;
    if rules != [] {
      var n := |rules| - 1;
      GroupRulesWarn(auth, providers, used, rules[..n]);
      if rules[n].identity.Group? {
        RuleGroupsWarn(auth, providers, GroupRules(auth, providers, used, rules[..n]), rules[n].id,
                       ExpandGroupRefs(rules[n].identity.groups));
      }
    }
  }

  /** The rule names users, all with empty names. */
  predicate NamesNobody(rule: PolicyRule) {
    rule.identity.User? && forall u :: u in rule.identity.users ==> u.username == ""
  }

  lemma NobodyNamed(users: seq<UserRef>)
    ensures NonEmpty(Usernames(users)) == [] <==> forall u :: u in users ==> u.username == ""
  {
    var names := Usernames(users);
    forall u | u in users && u.username != "" ensures NonEmpty(names) != [] {
      var i :| 0 <= i < |users| && users[i] == u;
      assert names[i] in names && names[i] in NonEmpty(names);
    }
    if NonEmpty(names) != [] {
      var n := NonEmpty(names)[0];
      assert n in NonEmpty(names) && n in names && n != "";
      var i :| 0 <= i < |names| && names[i] == n;
      assert users[i] in users && users[i].username != "";
    }
  }

  lemma {:induction false} UserRulesWarn(used: set<string>, rules: seq<PolicyRule>)
    ensures forall w :: (w in UserRules(used, rules).warnings <==>
              (exists rule :: rule in rules && NamesNobody(rule) && w == Warning(EmptyUserList, Some(rule.id))))
  {
    hide NonEmpty, Usernames, TakeName;
    if rules != [] {
      var n := |rules| - 1;
      UserRulesWarn(used, rules[..n]);
      if rules[n].identity.User? { NobodyNamed(rules[n].identity.users); }
      assert forall k :: k in rules <==> k in rules[..n] || k == rules[n];
    }
  }

  lemma SetupWarningsCodes(groups: seq<Warning>, users: seq<Warning>)
    requires OnlyGroupCodes(groups) && forall w :: w in users ==> w.code == EmptyUserList
    ensures SetupCodes(groups) && SetupCodes(users)
  {
  }

  lemma AuthSetupCodes(enabled: bool, providers: seq<Provider>)
    ensures SetupCodes(AuthWarnings(enabled, providers))
  {
  }

  /** An earlier rule that is compiled demands an identity. */
  predicate SawBefore(rules: seq<PolicyRule>, i: nat, c: RuleContext)
    requires i <= |rules|
  {
    exists k :: 0 <= k < i && rules[k].enabled && IdentityTerms(rules[k], c).Some? && rules[k].identity.NeedsIdentity()
  }

  /** What the i-th rule is warned about. */
  predicate RuleWarns(rules: seq<PolicyRule>, i: nat, c: RuleContext, w: Warning)
    requires i < |rules|
  {
    && rules[i].enabled
    && (w in IdentityWarnings(rules[i], c.mode)
        || (w == Warning(OptionalModeRuleOrder, Some(rules[i].id)) && c.mode == Optional
            && rules[i].identity.Unauthenticated? && SawBefore(rules, i, c)))
  }

  lemma RuleStepWarns(st: RuleState, rule: PolicyRule, c: RuleContext)
    ensures RuleStep(st, rule, c).sawAuthenticated
       <==> st.sawAuthenticated || (rule.enabled && IdentityTerms(rule, c).Some? && rule.identity.NeedsIdentity())
    ensures forall w :: (w in RuleStep(st, rule, c).warnings <==>
              (w in st.warnings || (rule.enabled
               && (w in IdentityWarnings(rule, c.mode)
                   || (w == Warning(OptionalModeRuleOrder, Some(rule.id)) && c.mode == Optional
                       && rule.identity.Unauthenticated? && st.sawAuthenticated)))))
  {
    hide RuleLines, GroupAcls, ExpandGroupRefs;
  }

  lemma SawIsPrefix(rules: seq<PolicyRule>, i: nat, c: RuleContext)
    requires i < |rules|
    ensures SawBefore(rules[..|rules| - 1], i, c) == SawBefore(rules, i, c)
  {
    assert forall k :: 0 <= k < i ==> rules[..|rules| - 1][k] == rules[k];
  }

  lemma {:induction false} RuleStepsWarn(rules: seq<PolicyRule>, c: RuleContext)
    ensures RuleSteps(rules, c).sawAuthenticated <==> SawBefore(rules, |rules|, c)
    ensures forall w :: (w in RuleSteps(rules, c).warnings
                         <==> (exists i :: 0 <= i < |rules| && RuleWarns(rules, i, c, w)))
  {
    hide IdentityTerms, RuleStep, IdentityWarnings;
    if rules != [] {
      var n := |rules| - 1;
      var init := rules[..n];
      RuleStepsWarn(init, c);
      RuleStepWarns(RuleSteps(init, c), rules[n], c);
      SawIsPrefix(rules, n, c);
      hide SawBefore;
      assert SawBefore(rules, n + 1, c)
        <==> SawBefore(rules, n, c)
             || (rules[n].enabled && IdentityTerms(rules[n], c).Some? && rules[n].identity.NeedsIdentity()) by {
        SawGrows(rules, n, c);
      }
      forall w ensures w in RuleSteps(rules, c).warnings
         <==> exists i :: 0 <= i < |rules| && RuleWarns(rules, i, c, w) {
        forall i | 0 <= i < n ensures RuleWarns(init, i, c, w) == RuleWarns(rules, i, c, w) {
          SawIsPrefix(rules, i, c);
        }
        assert w in RuleSteps(init, c).warnings <==> exists i :: 0 <= i < n && RuleWarns(init, i, c, w);
        assert w in RuleSteps(rules, c).warnings <==> w in RuleSteps(init, c).warnings || RuleWarns(rules, n, c, w);
      }
    }
  }

  lemma SawGrows(rules: seq<PolicyRule>, n: nat, c: RuleContext)
    requires n < |rules|
    ensures SawBefore(rules, n + 1, c)
       <==> SawBefore(rules, n, c)
            || (rules[n].enabled && IdentityTerms(rules[n], c).Some? && rules[n].identity.NeedsIdentity())
  {
    hide IdentityTerms;
  }

  predicate OnlyRuleCodes(warnings: seq<Warning>) { forall w :: w in warnings ==> w.code in RULE_CODES }

  lemma RuleStepsCodes(rules: seq<PolicyRule>, c: RuleContext)
    ensures OnlyRuleCodes(RuleSteps(rules, c).warnings)
  {
    RuleStepsWarn(rules, c);
    hide RuleSteps, SawBefore, IdentityTerms;
  }

  function OwnWarnings(ir: ConfigurationIr): seq<Warning> {
    if ActiveListeners(ir.listeners) == [] then [Warning(NoListener, None)] else []
  }

  lemma WarningsSplit(ir: ConfigurationIr)
    ensures var p := RunPhases(ir);
            Compile(ir).warnings == AuthWarnings(AuthEnabled(ir), SortProviders(ir.authentication.providers))
              + p.nets.st.warnings + p.groups.warnings + p.users.warnings + p.dests.warnings
              + OwnWarnings(ir) + RuleSteps(SortRules(ir.rules), ContextOf(ir, p)).warnings
  {
    hide RunPhases, AuthEnabled, SortRules, SortProviders, RuleSteps, ContextOf, AuthWarnings, ActiveListeners;
  }

  lemma OtherPhases(ir: ConfigurationIr)
    ensures var p := RunPhases(ir);
            && SetupCodes(p.groups.warnings) && SetupCodes(p.users.warnings) && SetupCodes(OwnWarnings(ir))
            && OnlyRuleCodes(RuleSteps(SortRules(ir.rules), ContextOf(ir, p)).warnings)
  {
    PhaseInputs(ir);
    hide RunPhases, ContextOf, GroupRules, UserRules, RuleSteps, SortRules, SortProviders, AuthEnabled, SetupCodes,
         OnlyRuleCodes, OnlyGroupCodes, NamesNobody;
    var p, rules, providers := RunPhases(ir), SortRules(ir.rules), SortProviders(ir.authentication.providers);
    GroupRulesWarn(ir.authentication, providers, p.nets.st.used, if AuthEnabled(ir) then rules else []);
    UserRulesWarn(p.groups.used, if AuthEnabled(ir) then rules else []);
    SetupWarningsCodes(p.groups.warnings, p.users.warnings);
    RuleStepsCodes(rules, ContextOf(ir, p));
    OwnSetupCodes(ir);
  }

  lemma OwnSetupCodes(ir: ConfigurationIr)
    ensures SetupCodes(OwnWarnings(ir))
  {
  }

  /** The warning is about the place condition of the rule and called for by it. */
  ghost predicate CalledFor(w: Warning, rule: PolicyRule) {
    w.ruleId == Some(rule.id) && if w.code == EmptyNetwork then WarnsOfNetwork(rule) else w.code in DestWarnings(rule)
  }

  lemma PlacePhases(ir: ConfigurationIr)
    ensures forall w: Warning | w.code in PLACE_CODES ::
              (w in RunPhases(ir).nets.st.warnings || w in RunPhases(ir).dests.warnings
               <==> exists rule :: rule in ir.rules && CalledFor(w, rule))
  {
    PhaseInputs(ir);
    hide RunPhases, NetRules, DestRules, SortRules, WarnsOfNetwork;
    SortRulesMultiset(ir.rules);
    NetRulesWarn({}, SortRules(ir.rules));
    DestRulesWarn(RunPhases(ir).users.used, SortRules(ir.rules));
    assert forall rule :: EmptyNetwork !in DestWarnings(rule);
    hide DestWarnings;
  }

  predicate OnlyPlaceCodes(warnings: seq<Warning>) { forall w :: w in warnings ==> w.code in PLACE_CODES }

  lemma PlacePhasesCodes(ir: ConfigurationIr)
    ensures OnlyPlaceCodes(RunPhases(ir).nets.st.warnings) && OnlyPlaceCodes(RunPhases(ir).dests.warnings)
  {
    PhaseInputs(ir);
    hide RunPhases, NetRules, DestRules, SortRules, WarnsOfNetwork;
    NetRulesWarn({}, SortRules(ir.rules));
    DestRulesWarn(RunPhases(ir).users.used, SortRules(ir.rules));
    assert forall rule :: DestWarnings(rule) <= PLACE_CODES;
    hide DestWarnings;
  }

  /** The warnings about sources and destinations come from those phases alone, the warnings about
      identity conditions from the access rules alone. */
  lemma WarningsByPhase(ir: ConfigurationIr)
    ensures forall w: Warning | w.code in PLACE_CODES ::
              (w in Compile(ir).warnings <==> w in RunPhases(ir).nets.st.warnings || w in RunPhases(ir).dests.warnings)
    ensures forall w: Warning | w.code in RULE_CODES ::
              (w in Compile(ir).warnings
               <==> w in RuleSteps(SortRules(ir.rules), ContextOf(ir, RunPhases(ir))).warnings)
  {
    hide RunPhases, Compile, ContextOf, RuleSteps, SortRules, SortProviders, AuthEnabled, AuthWarnings, OwnWarnings,
         SetupCodes, OnlyRuleCodes, OnlyPlaceCodes;
    var p, providers := RunPhases(ir), SortProviders(ir.authentication.providers);
    WarningsSplit(ir);
    OtherPhases(ir);
    PlacePhasesCodes(ir);
    AuthSetupCodes(AuthEnabled(ir), providers);
    SeparateCodes(AuthWarnings(AuthEnabled(ir), providers), p.nets.st.warnings, p.groups.warnings, p.users.warnings,
                  p.dests.warnings, OwnWarnings(ir), RuleSteps(SortRules(ir.rules), ContextOf(ir, p)).warnings);
  }

  lemma SeparateCodes(a: seq<Warning>, nets: seq<Warning>, b: seq<Warning>, c: seq<Warning>, dests: seq<Warning>,
                      d: seq<Warning>, rules: seq<Warning>)
    requires SetupCodes(a) && SetupCodes(b) && SetupCodes(c) && SetupCodes(d)
    requires OnlyPlaceCodes(nets) && OnlyPlaceCodes(dests) && OnlyRuleCodes(rules)
    ensures forall w: Warning | w.code in PLACE_CODES ::
              w in a + nets + b + c + dests + d + rules <==> w in nets || w in dests
    ensures forall w: Warning | w.code in RULE_CODES :: w in a + nets + b + c + dests + d + rules <==> w in rules
  {
    var all := a + nets + b + c + dests + d + rules;
    assert forall w :: w in all <==> w in a || w in nets || w in b || w in c || w in dests || w in d || w in rules;
  }

  /** The warnings of the whole compilation that speak of sources and destinations. */
  lemma PlaceWarnings(ir: ConfigurationIr)
    ensures forall w: Warning | w.code in PLACE_CODES ::
              (w in Compile(ir).warnings <==> exists rule :: rule in ir.rules && CalledFor(w, rule))
  {
    hide RunPhases, Compile, ContextOf, RuleSteps, SortRules, CalledFor;
    WarningsByPhase(ir);
    PlacePhases(ir);
  }

  // ----- what no warning reports -----

  predicate Warned(ir: ConfigurationIr, rule: PolicyRule, code: WarningCode) {
    Warning(code, Some(rule.id)) in Compile(ir).warnings
  }

  lemma RuleIsItsId(rules: seq<PolicyRule>, rule: PolicyRule)
    requires DistinctIds(rules) && rule in rules
    ensures forall k :: k in rules && k.id == rule.id ==> k == rule
  {
    var i :| 0 <= i < |rules| && rules[i] == rule;
    forall k | k in rules && k.id == rule.id ensures k == rule {
      var j :| 0 <= j < |rules| && rules[j] == k;
    }
  }

  lemma WarnedIs(ir: ConfigurationIr, rule: PolicyRule, code: WarningCode)
    requires DistinctIds(ir.rules) && rule in ir.rules && code in PLACE_CODES
    ensures Warned(ir, rule, code)
       <==> if code == EmptyNetwork then WarnsOfNetwork(rule) else code in DestWarnings(rule)
  {
    hide Compile, WarnsOfNetwork, DestWarnings;
    PlaceWarnings(ir);
    RuleIsItsId(ir.rules, rule);
    assert Warning(code, Some(rule.id)).ruleId == Some(rule.id);
  }

  /** A source is compiled unfaithfully without a word exactly when all its networks have entries
      and two of them cover different addresses, or when it names no network at all. */
  lemma SilentSourceExactly(ir: ConfigurationIr, rule: PolicyRule)
    requires DistinctIds(ir.rules) && rule in ir.rules
    ensures !SourceFaithful(rule.source) && !Warned(ir, rule, EmptyNetwork)
       <==> rule.source.Networks? && (forall n :: n in rule.source.networks ==> IsLive(n))
            && (rule.source.networks == [] || exists m, n ::
                  m in rule.source.networks && n in rule.source.networks && !SameOnEdges(m.cidrs, n.cidrs))
  {
    hide Compile, IsLive, SameOnEdges;
    WarnedIs(ir, rule, EmptyNetwork);
    if rule.source.Networks? && rule.source.networks != [] { assert rule.source.networks[0] in rule.source.networks; }
  }

  /** The warning about both kinds of host entries is given exactly when both kinds have an entry,
      and that is always unfaithful. */
  lemma BothKindsWarnedExactly(ir: ConfigurationIr, rule: PolicyRule)
    requires DistinctIds(ir.rules) && rule in ir.rules
    ensures Warned(ir, rule, DestinationDomainAndNetwork) <==> BothKinds(rule.destination)
    ensures Warned(ir, rule, DestinationDomainAndNetwork)
            ==> exists host, port ::
                  MatchesDestination(rule.destination, host, port) && !ReadsDestination(rule.destination, host, port)
  {
    hide Compile, NonBlank, MatchesDestination, ReadsDestination;
    WarnedIs(ir, rule, DestinationDomainAndNetwork);
    if BothKinds(rule.destination) { BothKindsDisagree(rule.destination); }
  }

  /** A destination is compiled unfaithfully without a word exactly when its host entries are all
      blank and its port list is not: the engine then matches no host, Squid every host. */
  lemma SilentDestinationExactly(ir: ConfigurationIr, rule: PolicyRule)
    requires DistinctIds(ir.rules) && rule in ir.rules
    ensures !DestinationFaithful(rule.destination)
            && !Warned(ir, rule, DestinationDomainAndNetwork) && !Warned(ir, rule, EmptyDestination)
       <==> rule.destination.Specific? && rule.destination.ports != []
            && NonBlank(rule.destination.domains) == [] && NonBlank(rule.destination.cidrs) == []
            && (rule.destination.domains != [] || rule.destination.cidrs != [])
  {
    hide Compile, NonBlank;
    WarnedIs(ir, rule, DestinationDomainAndNetwork);
    WarnedIs(ir, rule, EmptyDestination);
  }

  // ----- two private networks -----

  lemma OwnBase(v: nat, prefix: nat)
    requires v < Pow2(32) && prefix <= 32 && v % Pow2(32 - prefix) == 0
    ensures Block(IpAddress(V4, v), prefix).base == v && Block(IpAddress(V4, v), prefix).prefix == prefix
    ensures var c := Block(IpAddress(V4, v), prefix); ValidCidr(c) && c.family == V4 && c.bits == 32
  {
    BlockIsValid(IpAddress(V4, v), prefix);
    hide FormatIp, And;
    MaskRoundsDown(v, prefix, 32);
  }

  lemma SizeIs(c: Cidr)
    requires c.prefix <= c.bits
    ensures CidrSize(c) == Pow2(c.bits - c.prefix)
  {
    hide Pow2;
  }

  /** The single entry covers exactly the interval that starts at its address. */
  lemma CoversItsInterval(text: string, v: nat, prefix: nat, a: nat)
    requires v < Pow2(32) && prefix <= 32 && ParseCidr(text) == Some(Block(IpAddress(V4, v), prefix))
    requires v % Pow2(32 - prefix) == 0
    requires a < Pow2(32)
    ensures IpInAnyCidr(IpAddress(V4, a), [text]) <==> v <= a < v + Pow2(32 - prefix)
  {
    hide ParseCidr, Block, CidrContains, Pow2, FormatIp, ValidCidr, CidrSize;
    OwnBase(v, prefix);
    SizeIs(ParseCidr(text).value);
    ContainsIsInterval(ParseCidr(text).value, IpAddress(V4, a));
    assert forall t :: t in [text] <==> t == text;
  }

  /** Naming the two usual private networks in one rule is compiled unfaithfully. */
  lemma TwoPrivateNetworksAreUnfaithful(office: Network, lab: Network)
    requires office.cidrs == ["10.0.0.0/8"] && lab.cidrs == ["192.168.0.0/16"]
    ensures !SourceFaithful(Networks([office, lab])) && IsLive(office) && IsLive(lab)
  {
    var a, b := 0x0A000000, 0xC0A80000;
    Pow2Values();
    PrivateEntriesAreLive();
    hide Pow2, ParseCidr, IpInAnyCidr, Block, Decimal, SameOnEdges, NonBlank;
    assert "10.0" + ".0.0" + "/" + "8" == "10.0.0.0/8" && "192.168" + ".0.0" + "/" + "16" == "192.168.0.0/16";
    TwoHeads();
    DottedBlock("10.0", 10, 0, "8", 8);
    DottedBlock("192.168", 192, 168, "16", 16);
    CoversItsInterval("10.0.0.0/8", a, 8, a);
    CoversItsInterval("192.168.0.0/16", b, 16, a);
    DifferAt(office, lab, IpAddress(V4, a));
    assert office in [office, lab] && lab in [office, lab];
  }

  lemma OneEntry(text: string)
    requires text != "" && forall c :: c in text ==> !IsBlankChar(c)
    ensures NonBlank([text]) != []
  {
    TrimNothing(text);
    assert [text][0] == text;
  }

  lemma PrivateEntriesAreLive()
    ensures NonBlank(["10.0.0.0/8"]) != [] && NonBlank(["192.168.0.0/16"]) != []
  {
    hide NonBlank;
    OneEntry("10.0.0.0/8");
    OneEntry("192.168.0.0/16");
  }

  lemma TwoHeads()
    ensures "10.0" == Decimal(10) + "." + Decimal(0) && "192.168" == Decimal(192) + "." + Decimal(168)
    ensures IsShortDecimal("8") && ValueOf("8", 10) == 8 && IsShortDecimal("16") && ValueOf("16", 10) == 16
  {
  }

  lemma DifferAt(m: Network, n: Network, a: IpAddress)
    requires ValidAddress(a) && IpInAnyCidr(a, m.cidrs) != IpInAnyCidr(a, n.cidrs)
    ensures !SameOnEdges(m.cidrs, n.cidrs)
  {
    hide SameOnEdges;
    SameOnEdgesIs(m.cidrs, n.cidrs);
  }

  // ----- identity conditions -----

  lemma RuleWarned(ir: ConfigurationIr, i: nat, w: Warning)
    requires i < |SortRules(ir.rules)| && w.code in RULE_CODES
    requires RuleWarns(SortRules(ir.rules), i, ContextOf(ir, RunPhases(ir)), w)
    ensures w in Compile(ir).warnings
  {
    hide RunPhases, Compile, ContextOf, RuleSteps, SortRules, RuleWarns;
    WarningsByPhase(ir);
    RuleStepsWarn(SortRules(ir.rules), ContextOf(ir, RunPhases(ir)));
  }

  /** Dropping the condition "unauthenticated" is never silent: when it changes the decision for an
      authenticated client, the rule that decided instead was reported for having lost its condition. */
  lemma WideningIsReported(ir: ConfigurationIr, l: Listener, r: ProxyRequest)
    requires FaithfulIr(ir) && ArrivesOn(ir, l, r) && Authenticates(l) && ValidMoment(r.request.at)
    requires r.request.identity.authenticated && CoherentIdentity(ir, r.request.identity)
    requires Decide(Compile(ir).squidConf, r)
          != Some(Screened(l, r, EvaluateAs(ir, l.authentication, r.request).decision))
    ensures exists i ::
              WidenedInto(SortRules(ir.rules), r.request, i)
              && var rule := SortRules(ir.rules)[i];
                 rule in ir.rules && Warned(ir, rule, UnauthenticatedWidened)
                 && Decide(Compile(ir).squidConf, r) == Some(Screened(l, r, DecisionOf(rule.action)))
  {
    hide ArrivesOn, Compile, Decide;
    ArrivalIsOnPort(ir, l, r);
    AuthenticatedClientDecides(ir, l, r);
    hide Decide, Compile, Screened, CoherentIdentity, FaithfulIr, ArrivesOn, EvaluateSorted, SortRules, PartsMatch,
         RunPhases, AuthEnabled;
    var rules := SortRules(ir.rules);
    assert RulesAsCompiled(ir) != rules && EffectiveMode(ir) == Optional;
    hide EffectiveMode, Warned;
    WideningMattersExactly(rules, ir.defaultAccess, l.authentication, r.request);
    var i :| WidenedInto(rules, r.request, i)
        && DecisionOf(rules[i].action) != EvaluateSorted(rules, ir.defaultAccess, l.authentication, r.request).decision;
    WidenedRuleDecides(rules, i, ir.defaultAccess, l.authentication, r.request);
    WidenedRuleWarned(ir, r.request, i);
  }

  lemma WidenedRuleWarned(ir: ConfigurationIr, request: Request, i: int)
    requires EffectiveMode(ir) == Optional && WidenedInto(SortRules(ir.rules), request, i)
    ensures var rule := SortRules(ir.rules)[i];
            rule in ir.rules && rule.identity.Unauthenticated? && Warned(ir, rule, UnauthenticatedWidened)
  {
    SortRulesMultiset(ir.rules);
    hide SortRules, PartsMatch, RunPhases, Compile, EffectiveMode, SawBefore;
    var rule := SortRules(ir.rules)[i];
    assert rule in SortRules(ir.rules);
    PartsNeedEnabled(rule, request);
    assert ContextOf(ir, RunPhases(ir)).mode == Optional;
    RuleWarned(ir, i, Warning(UnauthenticatedWidened, Some(rule.id)));
  }

  lemma PartsNeedEnabled(rule: PolicyRule, request: Request)
    requires PartsMatch(rule, request)
    ensures rule.enabled
  {
  }

  lemma PromptIsSeen(ir: ConfigurationIr, k: nat, i: nat, r: ProxyRequest)
    requires CoherentIr(ir) && AuthEnabled(ir) && k < i <= |SortRules(ir.rules)|
    requires Prompts(ir, SortRules(ir.rules)[k], r.request)
    ensures SawBefore(SortRules(ir.rules), i, ContextOf(ir, RunPhases(ir)))
  {
    hide RunPhases, ContextOf, CoherentIr, AuthEnabled, SortRules, IdentityTerms, Omitted, MatchesSource;
    var rules := SortRules(ir.rules);
    assert rules[k] in rules;
    IdentityNames(ir, rules[k], r);
    assert NamesOf(ir, rules[k]) == IdentityTerms(rules[k], ContextOf(ir, RunPhases(ir)));
  }

  /** The warning about rule order is complete: an anonymous client on an OPTIONAL listener whose rule
      for unauthenticated clients drew no such warning gets the decision of that rule, unprompted. */
  lemma QuietOrderNeverPrompts(ir: ConfigurationIr, l: Listener, r: ProxyRequest)
    requires FaithfulIr(ir) && ArrivesOn(ir, l, r) && l.authentication == Optional && ValidMoment(r.request.at)
    requires !r.request.identity.authenticated
    requires var matched := EvaluateAs(ir, Optional, r.request).matchedRule;
             matched.Some? && matched.value.identity.Unauthenticated?
               && !Warned(ir, matched.value, OptionalModeRuleOrder)
    ensures Decide(Compile(ir).squidConf, r) == Some(Screened(l, r, EvaluateAs(ir, Optional, r.request).decision))
  {
    hide ArrivesOn, Compile, Decide;
    ArrivalIsOnPort(ir, l, r);
    OptionalAnonymousDecides(ir, l, r);
    assert AuthEnabled(ir) && EffectiveMode(ir) == Optional && CoherentIr(ir);
    hide Decide, Compile, Screened, FaithfulIr, ArrivesOn, SortRules, RunPhases, RuleMatches, CoherentIr, AuthEnabled,
         Prompts, EffectiveMode, TraceOf;
    var rules := SortRules(ir.rules);
    var i := FirstMatch(rules, r.request, false);
    assert EvaluateAs(ir, Optional, r.request).matchedRule == Some(rules[i]);
    hide EvaluateAs, FirstMatch;
    if k :| 0 <= k < i && Prompts(ir, rules[k], r.request) { PromptIsWarned(ir, k, i, r); }
  }

  lemma PromptIsWarned(ir: ConfigurationIr, k: nat, i: nat, r: ProxyRequest)
    requires CoherentIr(ir) && AuthEnabled(ir) && EffectiveMode(ir) == Optional && k < i < |SortRules(ir.rules)|
    requires Prompts(ir, SortRules(ir.rules)[k], r.request)
    requires var rule := SortRules(ir.rules)[i]; rule.identity.Unauthenticated? && RuleMatches(rule, r.request, false)
    ensures Warned(ir, SortRules(ir.rules)[i], OptionalModeRuleOrder)
  {
    var rules := SortRules(ir.rules);
    MatchNeedsEnabled(rules[i], r.request);
    hide Compile, SortRules, RunPhases, RuleMatches, CoherentIr, AuthEnabled, Prompts, SawBefore, EffectiveMode;
    PromptIsSeen(ir, k, i, r);
    assert RuleWarns(rules, i, ContextOf(ir, RunPhases(ir)), Warning(OptionalModeRuleOrder, Some(rules[i].id)));
    RuleWarned(ir, i, Warning(OptionalModeRuleOrder, Some(rules[i].id)));
  }

  lemma MatchNeedsEnabled(rule: PolicyRule, request: Request)
    requires RuleMatches(rule, request, false)
    ensures rule.enabled
  {
  }
}
