/** A client on a listener without authentication is never asked for credentials: this needs
    nothing but port names that tell the listeners apart. */
module GuestListeners {
  import opened Text
  import opened Ir
  import opened Engine
  import opened Names
  import opened Squid
  import opened Compiler
  import opened CompilerNames
  import opened CompilerDefinitions
  import opened DefinedNames
  import opened DefinitionOrder
  import opened CompilerTests
  import opened SquidReading
  import opened CompiledRules
  import opened CompilerCorrect

  ghost predicate Harmless(lines: seq<Directive>) { forall d :: d in lines ==> d.Acl? && !d.test.NeedsCredentials() }

  lemma {:induction false} RuleNetworksHarmless(st: NetState, ruleId: string, networks: seq<Network>)
    requires Harmless(st.lines)
    ensures Harmless(RuleNetworks(st, ruleId, networks).0.lines)
  {
    if networks != [] { RuleNetworksHarmless(st, ruleId, networks[..|networks| - 1]); }
  }

  lemma {:induction false} NetRulesHarmless(used: set<string>, rules: seq<PolicyRule>)
    ensures Harmless(NetRules(used, rules).st.lines)
  {
    if rules != [] {
      var n := |rules| - 1;
      NetRulesHarmless(used, rules[..n]);
      if rules[n].source.Networks? {
        RuleNetworksHarmless(NetRules(used, rules[..n]).st, rules[n].id, rules[n].source.networks);
      }
    }
  }

  lemma {:induction false} DestRulesHarmless(used: set<string>, rules: seq<PolicyRule>)
    ensures Harmless(DestRules(used, rules).destinationLines) && Harmless(DestRules(used, rules).scheduleLines)
  {
    hide TakeName, NonBlank;
    if rules != [] {
      DestRulesHarmless(used, rules[..|rules| - 1]);
      DestRuleHarmless(DestRules(used, rules[..|rules| - 1]), rules[|rules| - 1]);
    }
  }

  lemma AddDestinationHarmless(st: DestState, acls: seq<string>, base: string, test: AclTest, present: bool)
    requires Harmless(st.destinationLines) && !test.NeedsCredentials()
    ensures Harmless(AddDestination(st, acls, base, test, present).0.destinationLines)
    ensures AddDestination(st, acls, base, test, present).0.scheduleLines == st.scheduleLines
  {
  }

  lemma DestRuleHarmless(st: DestState, rule: PolicyRule)
    requires Harmless(st.destinationLines) && Harmless(st.scheduleLines)
    ensures Harmless(DestRule(st, rule).destinationLines) && Harmless(DestRule(st, rule).scheduleLines)
  {
    hide AddDestination, NonBlank, TakeName;
    match rule.destination
    case AnyDestination =>
    case Specific(domains, cidrs, ports) =>
      var base := DestBase(rule);
      AddDestinationHarmless(st, [], base + "_dom", DstDomain(NonBlank(domains)), NonBlank(domains) != []);
      var (s1, a1) := AddDestination(st, [], base + "_dom", DstDomain(NonBlank(domains)), NonBlank(domains) != []);
      AddDestinationHarmless(s1, a1, base + "_net", Dst(NonBlank(cidrs)), NonBlank(cidrs) != []);
      var (s2, a2) := AddDestination(s1, a1, base + "_net", Dst(NonBlank(cidrs)), NonBlank(cidrs) != []);
      AddDestinationHarmless(s2, a2, base + "_port", Port(ports), ports != []);
  }

  /** A name defined on a harmless line is defined nowhere else, so it never challenges. */
  lemma HarmlessName(ir: ConfigurationIr, lines: seq<Directive>, name: string)
    requires Harmless(lines) && HasAcl(lines, name) && forall d :: d in lines ==> d in AllocatedLines(RunPhases(ir))
    ensures !AclNeedsCredentials(Compile(ir).squidConf, name)
  {
    hide RunPhases, Compile, AllocatedLines, AclNeedsCredentials, AclHolds;
    var d :| d in lines && d.Acl? && d.name == name;
    AllocatedDenotes(ir, name, d.test);
    AclOf(Compile(ir).squidConf, name, d.test);
  }

  lemma AclOf(conf: seq<Directive>, name: string, test: AclTest)
    requires Denotes(conf, name, test)
    ensures AclNeedsCredentials(conf, name) == test.NeedsCredentials()
  {
    assert Acl(name, test) in conf;
  }

  predicate QuietNames(conf: seq<Directive>, names: seq<string>) {
    forall n :: n in names ==> !AclNeedsCredentials(conf, n)
  }

  lemma {:induction false} QuietNeverChallenge(conf: seq<Directive>, names: seq<string>, r: ProxyRequest)
    requires QuietNames(conf, names)
    ensures EvalNames(conf, names, r) != Challenged
  {
    hide AclNeedsCredentials, AclHolds;
    if names != [] {
      EvalNamesCons(conf, names, r);
      QuietNeverChallenge(conf, names[1..], r);
    }
  }

  lemma NetNamesQuiet(ir: ConfigurationIr, rule: PolicyRule)
    ensures QuietNames(Compile(ir).squidConf, NetNames(rule, ContextOf(ir, RunPhases(ir))))
  {
    PhaseInputs(ir);
    SubLines(ir);
    hide RunPhases, Compile, AllocatedLines, NetRules, SortRules, AclNeedsCredentials, HasAcl;
    var p, rules := RunPhases(ir), SortRules(ir.rules);
    NetRulesHarmless({}, rules);
    NetRulesDefine({}, rules);
    forall n | n in NetNames(rule, ContextOf(ir, p)) ensures !AclNeedsCredentials(Compile(ir).squidConf, n) {
      HarmlessName(ir, p.nets.st.lines, n);
    }
  }

  lemma RestTermsQuiet(ir: ConfigurationIr, rule: PolicyRule)
    ensures QuietNames(Compile(ir).squidConf, RestTerms(rule, ContextOf(ir, RunPhases(ir))))
  {
    PhaseInputs(ir);
    SubLines(ir);
    hide RunPhases, Compile, AllocatedLines, DestRules, SortRules, AclNeedsCredentials, HasAcl;
    var p, rules := RunPhases(ir), SortRules(ir.rules);
    DestRulesHarmless(p.users.used, rules);
    DestRulesDefine(p.users.used, rules);
    forall n | n in RestTerms(rule, ContextOf(ir, p)) ensures !AclNeedsCredentials(Compile(ir).squidConf, n) {
      if rule.id in p.dests.destinations && n in p.dests.destinations[rule.id] {
        HarmlessName(ir, p.dests.destinationLines, n);
      } else {
        HarmlessName(ir, p.dests.scheduleLines, n);
      }
    }
  }

  predicate NeverAsks(conf: seq<Directive>, lines: seq<Directive>, r: ProxyRequest) {
    forall d :: d in lines ==> LineDecision(conf, d, r) != Some(Challenge)
  }

  lemma {:induction false} NeverAsksDecides(conf: seq<Directive>, lines: seq<Directive>, r: ProxyRequest)
    requires NeverAsks(conf, lines, r)
    ensures DecideLines(conf, lines, r) != Some(Challenge)
  {
    hide LineDecision;
    if lines != [] { NeverAsksDecides(conf, lines[1..], r); }
  }

  lemma ChallengeIsOutcome(verb: Action, outcome: Outcome)
    ensures OutcomeDecision(verb, outcome) == Some(Challenge) <==> outcome == Challenged
  {
  }

  /** A line whose first name is the port guard stops there on a listener that cannot authenticate. */
  lemma GuardedLineNeverAsks(ir: ConfigurationIr, verb: Action, rest: seq<string>, l: Listener, r: ProxyRequest)
    requires OnPortOf(ir, l, r) && !Authenticates(l) && Guarded(ir, RunPhases(ir).listeners)
    ensures LineDecision(Compile(ir).squidConf, AccessLine(verb, [AUTH_PORTS_ACL] + rest), r) != Some(Challenge)
  {
    hide RunPhases, Compile, LineDecision, EvalNames, OnPortOf, Guarded, AccessLine;
    var conf := Compile(ir).squidConf;
    EvalGuard(ir, l, r);
    EvalNamesAppend(conf, [AUTH_PORTS_ACL], rest, r);
    AccessLineDecides(conf, verb, [AUTH_PORTS_ACL] + rest, r);
  }

  lemma MixedListenersAreGuarded(ir: ConfigurationIr, l: Listener)
    requires AuthEnabled(ir) && l in ActiveListeners(ir.listeners) && !Authenticates(l)
    ensures Guarded(ir, RunPhases(ir).listeners)
  {
    AuthPortLines(ir);
    hide RunPhases;
  }

  /** Every line of an identity rule starts with its source terms, and the rest follows. */
  lemma IdentityRuleNeverAsks(ir: ConfigurationIr, rule: PolicyRule, head: seq<string>, names: seq<string>,
                          rest: seq<string>, l: Listener, r: ProxyRequest)
    requires OnPortOf(ir, l, r) && !Authenticates(l) && Guarded(ir, RunPhases(ir).listeners)
    ensures NeverAsks(Compile(ir).squidConf, AccessLines(rule, [AUTH_PORTS_ACL] + head, names, rest), r)
  {
    hide RunPhases, Compile, LineDecision, OnPortOf, AccessLine, Guarded, Authenticates;
    var conf, guard := Compile(ir).squidConf, [AUTH_PORTS_ACL];
    forall d | d in AccessLines(rule, guard + head, names, rest) ensures LineDecision(conf, d, r) != Some(Challenge) {
      var middle;
      if rule.identity.Group? && |names| > 1 {
        var i :| 0 <= i < |names| && d == AccessLine(rule.action, guard + head + [names[i]] + rest);
        middle := [names[i]];
      } else {
        middle := names;
      }
      assert guard + head + middle + rest == guard + (head + middle + rest);
      GuardedLineNeverAsks(ir, rule.action, head + middle + rest, l, r);
    }
  }

  lemma QuietLineNeverAsks(conf: seq<Directive>, verb: Action, names: seq<string>, r: ProxyRequest)
    requires QuietNames(conf, names)
    ensures LineDecision(conf, AccessLine(verb, names), r) != Some(Challenge)
  {
    hide LineDecision, AccessLine, QuietNames, EvalNames;
    QuietNeverChallenge(conf, names, r);
    AccessLineDecides(conf, verb, names, r);
    ChallengeIsOutcome(verb, EvalNames(conf, names, r));
  }

  lemma PlainRuleNeverAsks(ir: ConfigurationIr, rule: PolicyRule, r: ProxyRequest)
    requires !rule.identity.NeedsIdentity()
    ensures NeverAsks(Compile(ir).squidConf, RuleLines(rule, ContextOf(ir, RunPhases(ir))), r)
  {
    hide RunPhases, Compile, LineDecision, AccessLine, ContextOf, NetNames, RestTerms, AclNeedsCredentials;
    var conf, c := Compile(ir).squidConf, ContextOf(ir, RunPhases(ir));
    NetNamesQuiet(ir, rule);
    RestTermsQuiet(ir, rule);
    SourceTermsAre(rule, c);
    assert SourceTerms(rule, c) == NetNames(rule, c);
    hide SourceTerms;
    QuietLineNeverAsks(conf, rule.action, NetNames(rule, c) + [] + RestTerms(rule, c), r);
  }

  lemma SourceTermsAre(rule: PolicyRule, c: RuleContext)
    ensures SourceTerms(rule, c)
         == (if rule.identity.NeedsIdentity() && c.guarded then [AUTH_PORTS_ACL] else []) + NetNames(rule, c)
  {
  }

  lemma ContextModes(ir: ConfigurationIr)
    ensures var c := ContextOf(ir, RunPhases(ir));
            c.mode == EffectiveMode(ir) && c.guarded == Guarded(ir, RunPhases(ir).listeners)
  {
    hide RunPhases;
  }

  lemma RuleNeverAsks(ir: ConfigurationIr, rule: PolicyRule, l: Listener, r: ProxyRequest)
    requires OnPortOf(ir, l, r) && !Authenticates(l)
    ensures NeverAsks(Compile(ir).squidConf, RuleLines(rule, ContextOf(ir, RunPhases(ir))), r)
  {
    hide RunPhases, Compile, LineDecision, AuthEnabled, ContextOf, AccessLines, SourceTerms, RestTerms, Guarded,
         NetNames, NeverAsks;
    var conf, c := Compile(ir).squidConf, ContextOf(ir, RunPhases(ir));
    ContextModes(ir);
    if !rule.identity.NeedsIdentity() {
      PlainRuleNeverAsks(ir, rule, r);
    } else if rule.enabled && IdentityTerms(rule, c).Some? {
      assert AuthEnabled(ir);
      MixedListenersAreGuarded(ir, l);
      SourceTermsAre(rule, c);
      IdentityRuleNeverAsks(ir, rule, NetNames(rule, c), IdentityTerms(rule, c).value, RestTerms(rule, c), l, r);
    } else {
      assert RuleLines(rule, c) == [];
      NoLinesNeverAsk(conf, r);
    }
  }

  lemma NoLinesNeverAsk(conf: seq<Directive>, r: ProxyRequest)
    ensures NeverAsks(conf, [], r)
  {
  }

  lemma {:induction false} GuardsNeverAsk(ir: ConfigurationIr, used: set<string>, listeners: seq<Listener>,
                          l: Listener, r: ProxyRequest)
    requires OnPortOf(ir, l, r) && !Authenticates(l) && (forall k :: k in listeners ==> k in ir.listeners)
    requires forall d :: d in ListenerSteps(used, listeners).out ==> d in AllocatedLines(RunPhases(ir))
    ensures NeverAsks(Compile(ir).squidConf, ListenerSteps(used, listeners).guards, r)
  {
    hide RunPhases, Compile, AllocatedLines, ListenerStep, ListenerGuards, LineDecision, PortName, NeverAsks;
    if listeners == [] {
      NoLinesNeverAsk(Compile(ir).squidConf, r);
    } else {
      var n := |listeners| - 1;
      var st, k := ListenerSteps(used, listeners[..n]), listeners[n];
      ListenerStepGuards(st, k);
      GuardsNeverAsk(ir, used, listeners[..n], l, r);
      if k.enabled {
        ListenerNeverAsks(ir, st, k, l, r);
        NeverAsksAppend(Compile(ir).squidConf, st.guards, ListenerGuards(st.used, k), r);
      } else {
        assert st.guards + [] == st.guards;
      }
    }
  }

  lemma SourceGuardNeverAsks(conf: seq<Directive>, k: Listener, acl: string, src: string, r: ProxyRequest)
    requires Denotes(conf, acl, MyPortName(PortName(k)))
    requires (SourceCidrs(k) != [] ==> Denotes(conf, src, Src(SourceCidrs(k))))
    ensures NeverAsks(conf, SourceGuard(k, acl, src), r)
  {
    hide PortName, SourceCidrs, Denotes, LineDecision, TestHolds;
    if SourceCidrs(k) != [] { TwoTerms(conf, acl, MyPortName(PortName(k)), src, Src(SourceCidrs(k)), r); }
  }

  lemma AuthGuardNeverAsks(conf: seq<Directive>, k: Listener, acl: string, r: ProxyRequest)
    requires Denotes(conf, acl, MyPortName(PortName(k))) && (k.authentication == Required ==> PortName(k) != r.portName)
    ensures NeverAsks(conf, AuthGuard(k, acl), r)
  {
    hide PortName, Denotes, LineDecision;
    if k.authentication == Required { PortMisses(conf, acl, PortName(k), Term(true, AUTHENTICATED_ACL), r); }
  }

  lemma NeverAsksAppend(conf: seq<Directive>, a: seq<Directive>, b: seq<Directive>, r: ProxyRequest)
    requires NeverAsks(conf, a, r) && NeverAsks(conf, b, r)
    ensures NeverAsks(conf, a + b, r)
  {
    hide LineDecision;
  }

  lemma ListenerNeverAsks(ir: ConfigurationIr, st: ListenerState, k: Listener, l: Listener, r: ProxyRequest)
    requires OnPortOf(ir, l, r) && !Authenticates(l) && k in ir.listeners && k.enabled
    requires forall d :: d in ListenerStep(st, k).out ==> d in AllocatedLines(RunPhases(ir))
    ensures NeverAsks(Compile(ir).squidConf, ListenerGuards(st.used, k), r)
  {
    ListenerStepGuards(st, k);
    assert k in ActiveListeners(ir.listeners);
    assert k.authentication == Required ==> PortName(k) != r.portName;
    hide RunPhases, Compile, AllocatedLines, ListenerStep, NeverAsks, PortName, TakeName, SourceCidrs, SourceGuard,
         AuthGuard, Denotes;
    var conf, acl := Compile(ir).squidConf, TakeName(st.used, "scp_lp_" + PortName(k));
    var src := TakeName(st.used + {acl}, "scp_lpsrc_" + PortName(k));
    AllocatedDenotes(ir, acl, MyPortName(PortName(k)));
    if SourceCidrs(k) != [] { AllocatedDenotes(ir, src, Src(SourceCidrs(k))); }
    SourceGuardNeverAsks(conf, k, acl, src, r);
    AuthGuardNeverAsks(conf, k, acl, r);
    NeverAsksAppend(conf, SourceGuard(k, acl, src), AuthGuard(k, acl), r);
  }

  lemma PortMisses(conf: seq<Directive>, acl: string, port: string, t: Term, r: ProxyRequest)
    requires Denotes(conf, acl, MyPortName(port)) && port != r.portName
    ensures LineDecision(conf, HttpAccess(Deny, [Term(false, acl), t]), r) == None
  {
    TwoTermLine(conf, Deny, Term(false, acl), t, r);
    DenotesMeans(conf, acl, MyPortName(port), r);
    hide AclHolds, AclNeedsCredentials, LineDecision;
  }

  lemma {:induction false} RulesNeverAsk(ir: ConfigurationIr, rules: seq<PolicyRule>, l: Listener, r: ProxyRequest)
    requires OnPortOf(ir, l, r) && !Authenticates(l)
    ensures NeverAsks(Compile(ir).squidConf, RuleSteps(rules, ContextOf(ir, RunPhases(ir))).out, r)
  {
    hide RunPhases, Compile, ContextOf, LineDecision, OnPortOf, RuleLines;
    if rules != [] {
      var n, c := |rules| - 1, ContextOf(ir, RunPhases(ir));
      RulesNeverAsk(ir, rules[..n], l, r);
      RuleNeverAsks(ir, rules[n], l, r);
      RuleStepOut(RuleSteps(rules[..n], c), rules[n], c);
    }
  }

  lemma BodyNeverAsks(ir: ConfigurationIr, l: Listener, r: ProxyRequest)
    requires OnPortOf(ir, l, r) && !Authenticates(l)
    ensures DecideLines(Compile(ir).squidConf, ConfBody(ir), r) != Some(Challenge)
  {
    PhaseInputs(ir);
    SubLines(ir);
    hide RunPhases, Compile, AllocatedLines, ListenerSteps, BaselineDecision, Definitions, DecideLines, OnPortOf,
         RuleSteps, ContextOf, BASELINE_ACCESS;
    var conf, p := Compile(ir).squidConf, RunPhases(ir);
    var g, rules, last := p.listeners.guards,
        RuleSteps(SortRules(ir.rules), ContextOf(ir, p)).out, [DefaultLine(ir.defaultAccess)];
    GuardsNeverAsk(ir, p.dests.used, ir.listeners, l, r);
    NeverAsksDecides(conf, g, r);
    RulesNeverAsk(ir, SortRules(ir.rules), l, r);
    NeverAsksDecides(conf, rules, r);
    DefaultDecides(conf, ir.defaultAccess, r);
    DecideAppend(conf, g + rules, last, r);
    DecideAppend(conf, g, rules, r);
  }

  /** No client of a listener without authentication is ever challenged. */
  lemma GuestsAreNeverChallenged(ir: ConfigurationIr, l: Listener, r: ProxyRequest)
    requires ArrivesOn(ir, l, r) && l.authentication == Disabled
    ensures Decide(Compile(ir).squidConf, r) != Some(Challenge)
  {
    hide Compile, ConfHead, ConfBody, DecideLines, ArrivesOn, OnPortOf;
    ArrivalIsOnPort(ir, l, r);
    ConfSplits(ir);
    HeadNeverAsks(ir, r);
    BodyNeverAsks(ir, l, r);
    DecideAppend(Compile(ir).squidConf, ConfHead(ir), ConfBody(ir), r);
  }

  lemma HeadNeverAsks(ir: ConfigurationIr, r: ProxyRequest)
    ensures DecideLines(Compile(ir).squidConf, ConfHead(ir), r) != Some(Challenge)
  {
    BaselineAcls(ir);
    NoAccessInDefinitions(ir);
    hide RunPhases, Compile, Definitions, BaselineDecision, BASELINE_ACCESS, DecideLines;
    var conf, d := Compile(ir).squidConf, Definitions(ir, RunPhases(ir));
    var a := [Generated(ir.generatedAt)] + BASELINE;
    NothingToDecide(conf, a, r);
    hide BASELINE;
    BaselineDecides(conf, r);
    BaselineIsNoChallenge(r);
    NothingToDecide(conf, d, r);
    DecideAppend(conf, a, BASELINE_ACCESS, r);
    DecideAppend(conf, a + BASELINE_ACCESS, d, r);
  }

  lemma BaselineIsNoChallenge(r: ProxyRequest)
    ensures BaselineDecision(r) != Some(Challenge)
  {
  }
}
