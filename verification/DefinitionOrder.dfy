/** The compiled configuration defines every ACL name before an access line uses it, exactly unless
    some listener or rule demands credentials while no provider is enabled. */
module DefinitionOrder {
  import opened Text
  import opened Ir
  import opened Names
  import opened Squid
  import opened Compiler
  import opened CompilerNames
  import opened CompilerDefinitions
  import opened DefinedNames

  /** Some active listener requires credentials, or some enabled rule asks for an authenticated client. */
  predicate DemandsCredentials(ir: ConfigurationIr) {
    || (exists l :: l in ActiveListeners(ir.listeners) && l.authentication == Required)
    || (exists r :: r in ir.rules && r.enabled && r.identity.Authenticated?)
  }

  lemma HasInMore(a: seq<Directive>, b: seq<Directive>)
    requires forall d :: d in a ==> d in b
    ensures forall n :: HasAcl(a, n) ==> HasAcl(b, n)
  {
  }

  lemma ContextIsDefined(ir: ConfigurationIr)
    ensures var p := RunPhases(ir);
            ContextHas(AllocatedLines(p), ContextOf(ir, p)) && GuardsHave(AllocatedLines(p), p.listeners.guards)
  {
    PhaseInputs(ir);
    hide RunPhases, NetRules, GroupRules, UserRules, DestRules, ListenerSteps, SortRules, SortProviders, HasAcl;
    var p := RunPhases(ir);
    var rules, providers := SortRules(ir.rules), SortProviders(ir.authentication.providers);
    var authRules := if AuthEnabled(ir) then rules else [];
    var all := AllocatedLines(p);
    NetRulesDefine({}, rules);
    HasInMore(p.nets.st.lines, all);
    GroupRulesDefine(ir.authentication, providers, p.nets.st.used, authRules);
    HasInMore(p.groups.lines, all);
    UserRulesDefine(p.groups.used, authRules);
    HasInMore(p.users.lines, all);
    DestRulesDefine(p.users.used, rules);
    HasInMore(p.dests.destinationLines, all);
    HasInMore(p.dests.scheduleLines, all);
    ListenerStepsDefine(p.dests.used, ir.listeners);
    HasInMore(p.listeners.out, all);
  }

  // ----- which guards and rules use scp_authenticated -----

  predicate Uses(lines: seq<Directive>, name: string) {
    exists d, t :: d in lines && d.HttpAccess? && t in d.terms && t.name == name
  }

  lemma UsesAppend(a: seq<Directive>, b: seq<Directive>, name: string)
    ensures Uses(a + b, name) <==> Uses(a, name) || Uses(b, name)
  {
    assert forall d :: d in a + b <==> d in a || d in b;
  }

  lemma AuthenticatedIsNotAllocated(name: string)
    requires IsAllocatedName(name)
    ensures name != AUTHENTICATED_ACL
  {
    AllocatedIsNotFixed(name);
  }

  lemma ListenerStepUses(st: ListenerState, l: Listener)
    ensures var s := ListenerStep(st, l);
            Uses(s.guards, AUTHENTICATED_ACL)
            <==> Uses(st.guards, AUTHENTICATED_ACL) || (l.enabled && l.authentication == Required)
  {
    if l.enabled {
      var port := PortName(l);
      var acl := TakeName(st.used, "scp_lp_" + port);
      var src := TakeName(st.used + {acl}, "scp_lpsrc_" + port);
      TakenName(st.used, "scp_lp_" + port);
      TakenName(st.used + {acl}, "scp_lpsrc_" + port);
      AuthenticatedIsNotAllocated(acl);
      AuthenticatedIsNotAllocated(src);
      var g1 := HttpAccess(Deny, [Term(false, acl), Term(true, src)]);
      var g2 := HttpAccess(Deny, [Term(false, acl), Term(true, AUTHENTICATED_ACL)]);
      assert !Uses([g1], AUTHENTICATED_ACL);
      assert Uses([g2], AUTHENTICATED_ACL) by { assert g2 in [g2] && Term(true, AUTHENTICATED_ACL) in g2.terms; }
      UsesAppend(st.guards, [g1], AUTHENTICATED_ACL);
      UsesAppend(st.guards, [g2], AUTHENTICATED_ACL);
      UsesAppend(st.guards + [g1], [g2], AUTHENTICATED_ACL);
    }
  }

  lemma {:induction false} GuardsUse(used: set<string>, listeners: seq<Listener>)
    ensures Uses(ListenerSteps(used, listeners).guards, AUTHENTICATED_ACL)
       <==> exists l :: l in listeners && l.enabled && l.authentication == Required
  {
    if listeners != [] {
      var n := |listeners| - 1;
      GuardsUse(used, listeners[..n]);
      ListenerStepUses(ListenerSteps(used, listeners[..n]), listeners[n]);
      assert forall l :: l in listeners <==> l in listeners[..n] || l == listeners[n];
    }
  }

  lemma AuthenticatedRuleUses(rule: PolicyRule, c: RuleContext)
    requires UsesAuthenticated(rule, c)
    ensures Uses(RuleLines(rule, c), AUTHENTICATED_ACL)
  {
    var names := SourceTerms(rule, c) + [AUTHENTICATED_ACL] + RestTerms(rule, c);
    var line := AccessLine(rule.action, names);
    assert RuleLines(rule, c) == [line];
    assert AUTHENTICATED_ACL in Dedupe(names);
    var i :| 0 <= i < |Dedupe(names)| && Dedupe(names)[i] == AUTHENTICATED_ACL;
    assert line.terms[i] == Term(false, AUTHENTICATED_ACL);
    assert line in RuleLines(rule, c) && Term(false, AUTHENTICATED_ACL) in line.terms;
  }

  /** With credentials demanded but no provider, scp_authenticated is used and never defined. */
  lemma UndefinedUse(ir: ConfigurationIr)
    requires AuthEnabled(ir) && ir.authentication.providers == [] && DemandsCredentials(ir)
    ensures Uses(Compile(ir).squidConf, AUTHENTICATED_ACL)
    ensures !HasAcl(Compile(ir).squidConf, AUTHENTICATED_ACL)
  {
    PhaseInputs(ir);
    hide RunPhases;
    var p := RunPhases(ir);
    var c, rules := ContextOf(ir, p), SortRules(ir.rules);
    assert Uses(ConfBody(ir), AUTHENTICATED_ACL) by {
      UsesAppend(p.listeners.guards, RuleSteps(rules, c).out, AUTHENTICATED_ACL);
      UsesAppend(p.listeners.guards + RuleSteps(rules, c).out, [DefaultLine(ir.defaultAccess)], AUTHENTICATED_ACL);
      if exists l :: l in ActiveListeners(ir.listeners) && l.authentication == Required {
        GuardsUse(p.dests.used, ir.listeners);
      } else {
        var r :| r in ir.rules && r.enabled && r.identity.Authenticated?;
        SortRulesMultiset(ir.rules);
        AuthenticatedRuleUses(r, c);
        RuleLinesAppear(rules, c, r);
      }
    }
    ConfSplits(ir);
    UsesAppend(ConfHead(ir), ConfBody(ir), AUTHENTICATED_ACL);
    NeverDefined(ir);
  }

  lemma NoSuchAcl(lines: seq<Directive>, name: string)
    requires forall d :: d in lines && d.Acl? ==> d.name != name
    ensures !HasAcl(lines, name)
  {
  }

  lemma NeverDefined(ir: ConfigurationIr)
    requires ir.authentication.providers == []
    ensures !HasAcl(Compile(ir).squidConf, AUTHENTICATED_ACL)
  {
    hide RunPhases, ConfBody, PortLines, Compile, AllocatedLines, FIXED_NAMES;
    var lines := AllocatedLines(RunPhases(ir));
    ConfAround(ir);
    FixedAround(ir);
    PhasesAllocate(ir);
    assert SortProviders(ir.authentication.providers) == [];
    hide SortProviders, HasAcl, AuthEnabled, BASELINE, BASELINE_ACCESS;
    assert !HasAcl(lines, AUTHENTICATED_ACL) by {
      forall d | d in lines && d.Acl? ensures d.name != AUTHENTICATED_ACL { AuthenticatedIsNotAllocated(d.name); }
      NoSuchAcl(lines, AUTHENTICATED_ACL);
    }
    BaselineIsOther();
    NoSuchAcl(BeforeAllocated(ir), AUTHENTICATED_ACL);
    NoSuchAcl(PortLines(ir) + ConfBody(ir), AUTHENTICATED_ACL);
    HasAclLonger(BeforeAllocated(ir), lines, AUTHENTICATED_ACL);
    HasAclLonger(BeforeAllocated(ir) + lines, PortLines(ir) + ConfBody(ir), AUTHENTICATED_ACL);
  }

  // ----- the positive half -----

  lemma GuardedPortsAreDefined(ir: ConfigurationIr)
    requires Guarded(ir, RunPhases(ir).listeners)
    ensures HasAcl(ConfHead(ir), AUTH_PORTS_ACL)
  {
    ConfAround(ir);
    PortLineShape(ir);
    var ports := PortLines(ir);
    assert ports == RunPhases(ir).listeners.authPorts;
    hide RunPhases, PortLines, BeforeAllocated, AllocatedLines, ConfHead;
    assert ports[0] in ports;
    HasAclLonger(BeforeAllocated(ir) + AllocatedLines(RunPhases(ir)), ports, AUTH_PORTS_ACL);
  }

  lemma AuthenticatedIsDefined(ir: ConfigurationIr)
    requires AuthEnabled(ir) && ir.authentication.providers != []
    ensures HasAcl(ConfHead(ir), AUTHENTICATED_ACL)
  {
    SortProvidersMultiset(ir.authentication.providers);
    assert ir.authentication.providers[0] in SortProviders(ir.authentication.providers);
    assert Acl(AUTHENTICATED_ACL, ProxyAuthRequired) in ConfHead(ir);
  }

  lemma GuardTermIsDefined(ir: ConfigurationIr, d: Directive, t: Term)
    requires !(AuthEnabled(ir) && ir.authentication.providers == [] && DemandsCredentials(ir))
    requires d in RunPhases(ir).listeners.guards && d.HttpAccess? && t in d.terms
    ensures DefinedIn(ConfHead(ir), t.name)
  {
    PhaseInputs(ir);
    ContextIsDefined(ir);
    ConfAround(ir);
    if AuthEnabled(ir) && ir.authentication.providers != [] { AuthenticatedIsDefined(ir); }
    var p := RunPhases(ir);
    hide RunPhases, AllocatedLines, ConfHead, BeforeAllocated, PortLines, ContextHas, RuleLines, RuleSteps, Guarded;
    HasInMore(AllocatedLines(p), ConfHead(ir));
    if t.name == AUTHENTICATED_ACL {
      GuardsUse(p.dests.used, ir.listeners);
      assert Uses(p.listeners.guards, AUTHENTICATED_ACL);
      var l :| l in ir.listeners && l.enabled && l.authentication == Required;
      assert l in ActiveListeners(ir.listeners);
    }
  }

  lemma RuleTermIsDefined(ir: ConfigurationIr, d: Directive, t: Term)
    requires !(AuthEnabled(ir) && ir.authentication.providers == [] && DemandsCredentials(ir))
    requires d in RuleSteps(SortRules(ir.rules), ContextOf(ir, RunPhases(ir))).out && d.HttpAccess? && t in d.terms
    ensures DefinedIn(ConfHead(ir), t.name)
  {
    PhaseInputs(ir);
    ContextIsDefined(ir);
    ConfAround(ir);
    var p := RunPhases(ir);
    var lines := AllocatedLines(p);
    if Guarded(ir, p.listeners) { GuardedPortsAreDefined(ir); }
    if AuthEnabled(ir) && ir.authentication.providers != [] { AuthenticatedIsDefined(ir); }
    hide RunPhases, AllocatedLines, ConfHead, BeforeAllocated, PortLines, ContextHas, RuleLines, RuleSteps, Guarded,
         SortRules;
    HasInMore(lines, ConfHead(ir));
    RuleStepNames(SortRules(ir.rules), ContextOf(ir, p), d);
    var rule :| rule in SortRules(ir.rules) && d in RuleLines(rule, ContextOf(ir, p));
    RuleLineNames(rule, ContextOf(ir, p), lines, d, t);
    SortRulesMultiset(ir.rules);
  }

  lemma BodyTermIsDefined(ir: ConfigurationIr, d: Directive, t: Term)
    requires !(AuthEnabled(ir) && ir.authentication.providers == [] && DemandsCredentials(ir))
    requires d in ConfBody(ir) && d.HttpAccess? && t in d.terms
    ensures DefinedIn(ConfHead(ir), t.name)
  {
    hide RunPhases, ConfHead, RuleSteps, SortRules, DefinedIn, DemandsCredentials, AuthEnabled, ContextOf;
    if d in RunPhases(ir).listeners.guards {
      GuardTermIsDefined(ir, d, t);
    } else if d in RuleSteps(SortRules(ir.rules), ContextOf(ir, RunPhases(ir))).out {
      RuleTermIsDefined(ir, d, t);
    } else {
      LastTermIsDefined(ir, d, t);
    }
  }

  lemma LastTermIsDefined(ir: ConfigurationIr, d: Directive, t: Term)
    requires d == DefaultLine(ir.defaultAccess) && t in d.terms
    ensures DefinedIn(ConfHead(ir), t.name)
  {
    hide ConfHead;
  }

  lemma HeadSplits(ir: ConfigurationIr)
    ensures ConfHead(ir)
         == ([Generated(ir.generatedAt)] + BASELINE) + (BASELINE_ACCESS + Definitions(ir, RunPhases(ir)))
    ensures |BASELINE| == 12
    ensures forall d :: d in [Generated(ir.generatedAt)] + BASELINE ==> !d.HttpAccess?
  {
    hide Definitions, RunPhases;
  }

  lemma BaselineDefines(front: seq<Directive>, more: seq<Directive>, d: Directive, t: Term)
    requires front != [] && BASELINE <= front[1..] && d in BASELINE_ACCESS && t in d.terms
    ensures DefinedIn(front + more, t.name)
  {
    var i, j, k := Acl("Safe_ports", Port([80])), Acl("SSL_ports", Port([443])), Acl("CONNECT", MethodConnect);
    assert BASELINE[1] == i && BASELINE[0] == j && BASELINE[11] == k;
    var all := front + more;
    assert all[1] == j && all[2] == i && all[12] == k;
  }

  lemma HeadIsInOrder(ir: ConfigurationIr, i: nat, t: Term)
    requires i < |ConfHead(ir)| && ConfHead(ir)[i].HttpAccess? && t in ConfHead(ir)[i].terms
    ensures DefinedIn(ConfHead(ir)[..i], t.name)
  {
    HeadSplits(ir);
    NoAccessInDefinitions(ir);
    hide Definitions, RunPhases, ConfHead, BASELINE, BASELINE_ACCESS, DefinedIn;
    var head, front := ConfHead(ir), [Generated(ir.generatedAt)] + BASELINE;
    assert forall k :: 0 <= k < 13 ==> head[k] == front[k] && front[k] in front;
    assert i >= 13;
    var rest := BASELINE_ACCESS + Definitions(ir, RunPhases(ir));
    assert head[i] == rest[i - 13] && rest[i - 13] in rest;
    assert head[..i] == front + rest[..i - 13];
    assert front[1..] == BASELINE;
    BaselineDefines(front, rest[..i - 13], head[i], t);
  }

  lemma NoAccessInDefinitions(ir: ConfigurationIr)
    ensures forall d :: d in Definitions(ir, RunPhases(ir)) ==> !d.HttpAccess?
  {
    var p := RunPhases(ir);
    PhaseInputs(ir);
    hide RunPhases, NetRules, GroupRules, UserRules, DestRules, ListenerSteps, SortRules, SortProviders, AuthEnabled,
         Allocates, DestAllocates;
    ListenerShapes(p.dests.used, ir.listeners);
    var rules, providers := SortRules(ir.rules), SortProviders(ir.authentication.providers);
    NetLinesShape({}, rules);
    GroupLinesShape(ir.authentication, providers, p.nets.st.used, if AuthEnabled(ir) then rules else []);
    UserLinesShape(p.groups.used, if AuthEnabled(ir) then rules else []);
    DestLinesShape(p.users.used, rules);
  }

  lemma DestLinesShape(used: set<string>, rules: seq<PolicyRule>)
    ensures forall d :: d in DestRules(used, rules).destinationLines || d in DestRules(used, rules).scheduleLines ==>
              d.Acl?
  {
    hide DestRules;
    DestRulesAllocate(used, rules);
  }

  lemma {:induction false} RuleNetworkLines(st: NetState, ruleId: string, networks: seq<Network>)
    requires forall d :: d in st.lines ==> d.Acl?
    ensures forall d :: d in RuleNetworks(st, ruleId, networks).0.lines ==> d.Acl?
  {
    if networks != [] { RuleNetworkLines(st, ruleId, networks[..|networks| - 1]); }
  }

  lemma {:induction false} NetLinesShape(used: set<string>, rules: seq<PolicyRule>)
    ensures forall d :: d in NetRules(used, rules).st.lines ==> d.Acl?
  {
    if rules != [] {
      var n := |rules| - 1;
      NetLinesShape(used, rules[..n]);
      if rules[n].source.Networks? {
        RuleNetworkLines(NetRules(used, rules[..n]).st, rules[n].id, rules[n].source.networks);
      }
    }
  }

  lemma {:induction false} RuleGroupLines(auth: AuthenticationIr, providers: seq<Provider>, st: GroupState,
                          ruleId: string, refs: seq<GroupRef>)
    requires forall d :: d in st.lines ==> d.Acl? || d.ExternalAclType?
    ensures forall d :: d in RuleGroups(auth, providers, st, ruleId, refs).lines ==> d.Acl? || d.ExternalAclType?
  {
    if refs != [] { RuleGroupLines(auth, providers, st, ruleId, refs[..|refs| - 1]); }
  }

  lemma {:induction false} GroupLinesShape(auth: AuthenticationIr, providers: seq<Provider>, used: set<string>,
                          rules: seq<PolicyRule>)
    ensures forall d :: d in GroupRules(auth, providers, used, rules).lines ==> d.Acl? || d.ExternalAclType?
  {
    if rules != [] {
      var n := |rules| - 1;
      GroupLinesShape(auth, providers, used, rules[..n]);
      if rules[n].identity.Group? {
        RuleGroupLines(auth, providers, GroupRules(auth, providers, used, rules[..n]), rules[n].id,
                       ExpandGroupRefs(rules[n].identity.groups));
      }
    }
  }

  lemma {:induction false} UserLinesShape(used: set<string>, rules: seq<PolicyRule>)
    ensures forall d :: d in UserRules(used, rules).lines ==> d.Acl?
  {
    if rules != [] { UserLinesShape(used, rules[..|rules| - 1]); }
  }

  /** Every ACL name is defined before it is used, exactly unless credentials are demanded without
      any enabled provider to check them. */
  lemma DefinedBeforeUseExactly(ir: ConfigurationIr)
    ensures DefinedBeforeUse(Compile(ir).squidConf)
       <==> !(AuthEnabled(ir) && ir.authentication.providers == [] && DemandsCredentials(ir))
  {
    hide ConfHead, ConfBody, Compile, RunPhases;
    var conf, head, body := Compile(ir).squidConf, ConfHead(ir), ConfBody(ir);
    ConfSplits(ir);
    if AuthEnabled(ir) && ir.authentication.providers == [] && DemandsCredentials(ir) {
      UndefinedUse(ir);
      var d, t :| d in conf && d.HttpAccess? && t in d.terms && t.name == AUTHENTICATED_ACL;
      var i :| 0 <= i < |conf| && conf[i] == d;
      assert !DefinedIn(conf[..i], t.name);
    } else {
      forall i, t | 0 <= i < |conf| && conf[i].HttpAccess? && t in conf[i].terms ensures DefinedIn(conf[..i], t.name) {
        if i < |head| {
          HeadIsInOrder(ir, i, t);
          assert conf[..i] == head[..i];
        } else {
          assert conf[i] in body;
          BodyTermIsDefined(ir, conf[i], t);
          assert conf[..i] == head + body[..i - |head|];
        }
      }
    }
  }
}
