/** Interpreting the access lines compiled from a rule gives the reading of the rule, on every
    active listener of a coherent configuration whose port names are distinct. */
module CompiledRules {
  import opened Text
  import opened Ir
  import opened Engine
  import opened Names
  import opened Squid
  import opened Compiler
  import opened CompilerNames
  import opened CompilerDefinitions
  import opened CompilerTests
  import opened DefinitionOrder
  import opened ListenerPorts
  import opened SquidReading

  predicate DistinctPorts(ir: ConfigurationIr) {
    forall k, l | k in ActiveListeners(ir.listeners) && l in ActiveListeners(ir.listeners) ::
      PortName(k) == PortName(l) ==> k == l
  }

  /** The request came in on the http_port line of the compiled file that is in the place of the active
      listener l among those lines, and carries the port name written there. */
  ghost predicate ArrivesOn(ir: ConfigurationIr, l: Listener, r: ProxyRequest) {
    var ports, active := HttpPorts(Compile(ir).squidConf), ActiveListeners(ir.listeners);
    && DistinctPorts(ir)
    && exists i :: 0 <= i < |ports| && i < |active| && active[i] == l && ports[i].portName == r.portName
  }

  /** The port name of the request is the one asked for by the ACL of the listener. */
  predicate OnPortOf(ir: ConfigurationIr, l: Listener, r: ProxyRequest) {
    l in ActiveListeners(ir.listeners) && DistinctPorts(ir) && r.portName == PortName(l)
  }

  lemma ArrivalIsOnPort(ir: ConfigurationIr, l: Listener, r: ProxyRequest)
    requires ArrivesOn(ir, l, r)
    ensures OnPortOf(ir, l, r)
  {
    HttpPortsExactly(ir);
    hide Compile, HttpPorts;
  }

  /** No two active listeners are bound to one address and port. */
  predicate DistinctBinds(ir: ConfigurationIr) {
    forall k, l | k in ActiveListeners(ir.listeners) && l in ActiveListeners(ir.listeners) ::
      k.address == l.address && k.port == l.port ==> k == l
  }

  /** Where binds are distinct, the line for the address and port of the listener tells where a request arrived. */
  lemma BindTellsListener(ir: ConfigurationIr, l: Listener, r: ProxyRequest)
    requires DistinctPorts(ir) && DistinctBinds(ir) && l in ActiveListeners(ir.listeners)
    requires HttpPort(r.portName, l.address, l.port) in Compile(ir).squidConf
    ensures ArrivesOn(ir, l, r)
  {
    HttpPortsExactly(ir);
    PortsAreLines(Compile(ir).squidConf);
    hide Compile, HttpPorts;
    var ports := HttpPorts(Compile(ir).squidConf);
    var i :| 0 <= i < |ports| && ports[i] == HttpPort(r.portName, l.address, l.port);
    assert ActiveListeners(ir.listeners)[i] in ActiveListeners(ir.listeners);
  }

  predicate Authenticates(l: Listener) { l.authentication != Disabled }

  // ----- the port guard -----

  function PortLine(l: Listener): Directive { Acl(AUTH_PORTS_ACL, MyPortName(PortName(l))) }

  function PortLinesOf(active: seq<Listener>): seq<Directive> {
    if active == [] then []
    else
      var last := active[|active| - 1];
      PortLinesOf(active[..|active| - 1]) + if Authenticates(last) then [PortLine(last)] else []
  }

  lemma ListenerStepPorts(st: ListenerState, l: Listener)
    ensures ListenerStep(st, l).authPorts == st.authPorts + if l.enabled && Authenticates(l) then [PortLine(l)] else []
  {
  }

  lemma PortLinesSnoc(active: seq<Listener>, l: Listener)
    ensures PortLinesOf(active + [l]) == PortLinesOf(active) + if Authenticates(l) then [PortLine(l)] else []
  {
    assert (active + [l])[..|active|] == active;
  }

  lemma {:induction false} AuthPortsAre(used: set<string>, listeners: seq<Listener>)
    ensures ListenerSteps(used, listeners).authPorts == PortLinesOf(ActiveListeners(listeners))
  {
    hide PortLine, PortLinesOf, ActiveListeners, ListenerStep;
    if listeners == [] {
      assert ListenerSteps(used, []).authPorts == [] == PortLinesOf(ActiveListeners([])) by { NoPortLines(); }
    } else {
      var init, l := listeners[..|listeners| - 1], listeners[|listeners| - 1];
      AuthPortsAre(used, init);
      ListenerStepPorts(ListenerSteps(used, init), l);
      ActiveSnoc(init, l);
      assert listeners == init + [l];
      PortLinesSnoc(ActiveListeners(init), l);
      assert ActiveListeners(init) + [] == ActiveListeners(init);
    }
  }

  lemma NoPortLines()
    ensures PortLinesOf(ActiveListeners([])) == []
  {
  }

  /** There is one port line per active authenticating listener. */
  lemma {:induction false} PortLinesCount(active: seq<Listener>)
    ensures var ports := PortLinesOf(active);
            && |ports| <= |active|
            && (|ports| == |active| <==> forall l :: l in active ==> Authenticates(l))
            && (|ports| > 0 <==> exists l :: l in active && Authenticates(l))
            && (forall d :: d in ports <==> exists l :: l in active && Authenticates(l) && d == PortLine(l))
  {
    hide PortLine;
    if active != [] {
      var init, l := active[..|active| - 1], active[|active| - 1];
      PortLinesCount(init);
      assert forall k :: k in active <==> k in init || k == l;
      if Authenticates(l) { assert PortLinesOf(active) == PortLinesOf(init) + [PortLine(l)]; }
    }
  }

  lemma AuthPortLines(ir: ConfigurationIr)
    ensures var ports, active := RunPhases(ir).listeners.authPorts, ActiveListeners(ir.listeners);
            && |ports| <= |active|
            && (|ports| == |active| <==> forall l :: l in active ==> Authenticates(l))
            && (|ports| > 0 <==> exists l :: l in active && Authenticates(l))
            && (forall d :: d in ports <==> exists l :: l in active && Authenticates(l) && d == PortLine(l))
  {
    PhaseInputs(ir);
    hide RunPhases, ListenerSteps, PortLinesOf, ActiveListeners, PortLine;
    AuthPortsAre(RunPhases(ir).dests.used, ir.listeners);
    PortLinesCount(ActiveListeners(ir.listeners));
  }

  lemma PortLinesMeaning(ir: ConfigurationIr, r: ProxyRequest)
    requires Guarded(ir, RunPhases(ir).listeners)
    ensures var conf := Compile(ir).squidConf;
            && (AclHolds(conf, AUTH_PORTS_ACL, r)
                <==> exists l :: l in ActiveListeners(ir.listeners) && Authenticates(l) && PortName(l) == r.portName)
            && !AclNeedsCredentials(conf, AUTH_PORTS_ACL)
  {
    PortAcls(ir);
    AuthPortLines(ir);
    assert PortLines(ir) == RunPhases(ir).listeners.authPorts;
    hide RunPhases, Compile, ListenerSteps, PortLines, Guarded, PortName;
    PortAclMeaning(Compile(ir).squidConf, RunPhases(ir).listeners.authPorts, ActiveListeners(ir.listeners), r);
  }

  lemma PortAclMeaning(conf: seq<Directive>, ports: seq<Directive>, active: seq<Listener>, r: ProxyRequest)
    requires forall d :: d in conf && d.Acl? && d.name == AUTH_PORTS_ACL <==> d in ports
    requires forall d :: d in ports <==> exists l :: l in active && Authenticates(l) && d == PortLine(l)
    ensures AclHolds(conf, AUTH_PORTS_ACL, r)
       <==> exists l :: l in active && Authenticates(l) && PortName(l) == r.portName
    ensures !AclNeedsCredentials(conf, AUTH_PORTS_ACL)
  {
    hide PortName;
    if l :| l in active && Authenticates(l) && PortName(l) == r.portName {
      assert PortLine(l) in ports;
    }
  }

  /** The only lines that define scp_auth_ports are the port lines. */
  lemma PortAcls(ir: ConfigurationIr)
    ensures forall d :: d in Compile(ir).squidConf && d.Acl? && d.name == AUTH_PORTS_ACL <==> d in PortLines(ir)
  {
    ConfAround(ir);
    BodyIsAccess(ir);
    PortLineShape(ir);
    PhasesAllocate(ir);
    BeforeHasNoPorts(ir);
    hide RunPhases, Compile, AllocatedLines, BeforeAllocated, PortLines, ConfBody, FIXED_NAMES;
    forall e | e in AllocatedLines(RunPhases(ir)) && e.Acl? ensures e.name != AUTH_PORTS_ACL {
      AllocatedIsNotFixed(e.name);
      NameIsNotPorts(e.name);
    }
  }

  lemma BeforeHasNoPorts(ir: ConfigurationIr)
    ensures forall d :: d in BeforeAllocated(ir) && d.Acl? ==> d.name != AUTH_PORTS_ACL
  {
  }

  // ----- source, identity and rest terms -----

  lemma EvalGuard(ir: ConfigurationIr, l: Listener, r: ProxyRequest)
    requires OnPortOf(ir, l, r) && Guarded(ir, RunPhases(ir).listeners)
    ensures EvalNames(Compile(ir).squidConf, [AUTH_PORTS_ACL], r) == if Authenticates(l) then Matched else Unmatched
  {
    PortLinesMeaning(ir, r);
    hide RunPhases, Compile, AclHolds, AclNeedsCredentials;
    EvalNamesCons(Compile(ir).squidConf, [AUTH_PORTS_ACL], r);
    assert [AUTH_PORTS_ACL][1..] == [];
  }

  lemma UnguardedAuthenticates(ir: ConfigurationIr, l: Listener)
    requires AuthEnabled(ir) && !Guarded(ir, RunPhases(ir).listeners) && l in ActiveListeners(ir.listeners)
    ensures Authenticates(l)
  {
    AuthPortLines(ir);
    hide RunPhases;
  }

  lemma SourceTermsEval(ir: ConfigurationIr, rule: PolicyRule, l: Listener, r: ProxyRequest)
    requires CoherentIr(ir) && rule in SortRules(ir.rules) && OnPortOf(ir, l, r)
    requires rule.identity.NeedsIdentity() ==> AuthEnabled(ir)
    ensures EvalNames(Compile(ir).squidConf, SourceTerms(rule, ContextOf(ir, RunPhases(ir))), r)
         == if (rule.identity.NeedsIdentity() && !Authenticates(l))
            || !ReadsSource(rule.source, r.request.sourceIp) then Unmatched else Matched
  {
    hide RunPhases, Compile, ReadsSource, Guarded, OnPortOf, CoherentIr, DenotesAll, Authenticates, AuthEnabled;
    var conf, c := Compile(ir).squidConf, ContextOf(ir, RunPhases(ir));
    var guard := if rule.identity.NeedsIdentity() && c.guarded then [AUTH_PORTS_ACL] else [];
    NetNamesDenote(ir, rule);
    if rule.source.Networks? {
      NetTestsHold(conf, rule.source.networks, r);
    } else {
      AnySourceReads(rule.source, r.request.sourceIp);
    }
    EvalPlain(conf, NetNames(rule, c), SourceTests(rule), r);
    EvalNamesAppend(conf, guard, NetNames(rule, c), r);
    if rule.identity.NeedsIdentity() {
      if c.guarded {
        EvalGuard(ir, l, r);
      } else {
        ArrivedActive(ir, l, r);
        UnguardedAuthenticates(ir, l);
      }
    }
  }

  lemma ArrivedActive(ir: ConfigurationIr, l: Listener, r: ProxyRequest)
    requires OnPortOf(ir, l, r)
    ensures l in ActiveListeners(ir.listeners)
  {
  }

  lemma AnySourceReads(source: SourceMatcher, ip: string)
    requires source.AnySource?
    ensures ReadsSource(source, ip)
  {
  }

  lemma RestTermsEval(ir: ConfigurationIr, rule: PolicyRule, r: ProxyRequest)
    requires CoherentIr(ir) && rule in SortRules(ir.rules)
    ensures EvalNames(Compile(ir).squidConf, RestTerms(rule, ContextOf(ir, RunPhases(ir))), r)
         == if ReadsDestination(rule.destination, r.request.host, r.request.port)
            && ReadsSchedule(rule.schedule, r.request.at)
            then Matched else Unmatched
  {
    hide RunPhases, Compile, ReadsDestination, ReadsSchedule, CoherentIr, DenotesAll, RestTerms, RestTests, ContextOf;
    RestNamesDenote(ir, rule);
    RestTestsHold(Compile(ir).squidConf, rule, r);
    EvalPlain(Compile(ir).squidConf, RestTerms(rule, ContextOf(ir, RunPhases(ir))), RestTests(rule), r);
  }

  // ----- one group -----

  lemma GroupTypeIsOneProvider(ir: ConfigurationIr, ref: GroupRef)
    requires CoherentIr(ir) && AuthEnabled(ir) && ref in GroupsOf(SortRules(ir.rules)) && ref.source != Local
    requires !DeadGroup(ir.authentication, SortProviders(ir.authentication.providers), ref)
    ensures var key := LdapProvider(SortProviders(ir.authentication.providers), ref.providerKey).value.key;
            forall k :: ExternalAclType(TypeName(key), k) in Compile(ir).squidConf <==> k == key
  {
    PhaseInputs(ir);
    hide RunPhases, Compile, GroupRules, AuthEnabled, SortProviders, SortRules, GroupsOf, AclKey, TypeName,
         TypesAreDeclared;
    var p, rules, providers := RunPhases(ir), SortRules(ir.rules), SortProviders(ir.authentication.providers);
    var key := LdapProvider(providers, ref.providerKey).value.key;
    assert LdapProvider(providers, Some(key)).Some? && Some(key) == ref.providerKey;
    GroupRulesTests(ir.authentication, providers, p.nets.st.used, rules, GroupsOf(rules));
    assert GroupTests(ir.authentication, providers, p.groups, ref);
    assert Acl(p.groups.acl[AclKey(ref)], ExternalGroup(TypeName(key), ref.name)) in p.groups.lines;
    TypeIsOneProvider(ir, key, ref.name);
  }

  lemma OneProviderGroup(conf: seq<Directive>, key: string, group: string, identity: RequestIdentity)
    requires forall k :: ExternalAclType(TypeName(key), k) in conf <==> k == key
    ensures HoldsGroup(conf, TypeName(key), group, identity) <==> HoldsProviderGroup(key, group, identity)
  {
    hide TypeName;
  }

  lemma GroupTestMeaning(ir: ConfigurationIr, ref: GroupRef, r: ProxyRequest)
    requires CoherentIr(ir) && AuthEnabled(ir) && ref in GroupsOf(SortRules(ir.rules))
    requires !DeadGroup(ir.authentication, SortProviders(ir.authentication.providers), ref)
    requires r.request.identity.authenticated
    ensures TestHolds(Compile(ir).squidConf,
                      GroupTest(ir.authentication, SortProviders(ir.authentication.providers), ref), r)
       <==> ReadsGroup(ir.authentication, ref, r.request.identity)
  {
    hide RunPhases, Compile, AuthEnabled, SortProviders, SortRules, GroupsOf, TypeName, CoherentIr, HoldsGroup,
         HoldsProviderGroup;
    if ref.source != Local {
      GroupTypeIsOneProvider(ir, ref);
      var key := LdapProvider(SortProviders(ir.authentication.providers), ref.providerKey).value.key;
      OneProviderGroup(Compile(ir).squidConf, key, ref.name, r.request.identity);
    }
  }

  lemma GroupNameEval(ir: ConfigurationIr, ref: GroupRef, r: ProxyRequest)
    requires CoherentIr(ir) && AuthEnabled(ir) && ref in GroupsOf(SortRules(ir.rules))
    requires !DeadGroup(ir.authentication, SortProviders(ir.authentication.providers), ref)
    ensures AclKey(ref) in ContextOf(ir, RunPhases(ir)).groups
    ensures EvalNames(Compile(ir).squidConf, [ContextOf(ir, RunPhases(ir)).groups[AclKey(ref)]], r)
         == if !r.request.identity.authenticated then Challenged
            else if ReadsGroup(ir.authentication, ref, r.request.identity) then Matched else Unmatched
  {
    hide RunPhases, Compile, AuthEnabled, SortProviders, SortRules, GroupsOf, Denotes, TestHolds, CoherentIr,
         ReadsGroup, DeadGroup, AclKey;
    var conf, c := Compile(ir).squidConf, ContextOf(ir, RunPhases(ir));
    GroupRefDenotes(ir, ref);
    EvalOne(conf, c.groups[AclKey(ref)],
            GroupTest(ir.authentication, SortProviders(ir.authentication.providers), ref), r);
    if r.request.identity.authenticated { GroupTestMeaning(ir, ref, r); }
  }

  // ----- the fan-out of a group rule -----

  /** Names that all need credentials: without credentials each challenges, and with them the
      disjunction of the lines is the disjunction of the names. */
  predicate SomeMatches(conf: seq<Directive>, names: seq<string>, r: ProxyRequest) {
    exists n :: n in names && EvalNames(conf, [n], r) == Matched
  }

  predicate FanNames(conf: seq<Directive>, names: seq<string>, r: ProxyRequest) {
    forall n :: n in names ==> (EvalNames(conf, [n], r) == Challenged <==> !r.request.identity.authenticated)
  }

  function FanOutcome(source: Outcome, authenticated: bool, some: bool, rest: Outcome): Outcome {
    if source != Matched then source
    else if !authenticated then Challenged
    else if !some then Unmatched
    else rest
  }

  lemma LineOfThree(conf: seq<Directive>, verb: Action, source: seq<string>, name: string, rest: seq<string>,
                    r: ProxyRequest)
    requires EvalNames(conf, source, r) != Challenged && EvalNames(conf, rest, r) != Challenged
    requires EvalNames(conf, [name], r) == Challenged <==> !r.request.identity.authenticated
    ensures LineDecision(conf, AccessLine(verb, source + [name] + rest), r)
         == OutcomeDecision(verb, FanOutcome(EvalNames(conf, source, r), r.request.identity.authenticated,
                                             EvalNames(conf, [name], r) == Matched, EvalNames(conf, rest, r)))
  {
    AccessLineDecides(conf, verb, source + [name] + rest, r);
    EvalNamesAppend(conf, source + [name], rest, r);
    EvalNamesAppend(conf, source, [name], r);
  }

  function FanLines(verb: Action, source: seq<string>, names: seq<string>, rest: seq<string>): seq<Directive> {
    seq(|names|, i requires 0 <= i < |names| => AccessLine(verb, source + [names[i]] + rest))
  }

  lemma {:induction false} FanDecides(conf: seq<Directive>, verb: Action, source: seq<string>, names: seq<string>,
                          rest: seq<string>, r: ProxyRequest)
    requires names != [] && FanNames(conf, names, r)
    requires EvalNames(conf, source, r) != Challenged && EvalNames(conf, rest, r) != Challenged
    ensures DecideLines(conf, FanLines(verb, source, names, rest), r)
         == OutcomeDecision(verb, FanOutcome(EvalNames(conf, source, r), r.request.identity.authenticated,
                                             SomeMatches(conf, names, r), EvalNames(conf, rest, r)))
  {
    hide EvalNames, AccessLine;
    var lines := FanLines(verb, source, names, rest);
    assert lines[0] == AccessLine(verb, source + [names[0]] + rest);
    LineOfThree(conf, verb, source, names[0], rest, r);
    assert lines[1..] == FanLines(verb, source, names[1..], rest);
    assert forall n :: n in names <==> n == names[0] || n in names[1..];
    if |names| > 1 { FanDecides(conf, verb, source, names[1..], rest, r); }
  }

  lemma {:induction false} GroupAclsAre(refs: seq<GroupRef>, groups: map<string, string>)
    ensures forall n :: n in GroupAcls(refs, groups) <==> exists g ::
              g in refs && AclKey(g) in groups && groups[AclKey(g)] == n && n != ""
  {
    if refs != [] {
      GroupAclsAre(refs[1..], groups);
      assert forall g :: g in refs <==> g == refs[0] || g in refs[1..];
    }
  }

  lemma GroupRuleNames(ir: ConfigurationIr, rule: PolicyRule, r: ProxyRequest)
    requires CoherentIr(ir) && AuthEnabled(ir) && rule in SortRules(ir.rules) && rule.identity.Group?
    ensures var refs, conf := ExpandGroupRefs(rule.identity.groups), Compile(ir).squidConf;
            var names := GroupAcls(refs, ContextOf(ir, RunPhases(ir)).groups);
            && (names == [] <==> forall g :: g in refs ==>
                  DeadGroup(ir.authentication, SortProviders(ir.authentication.providers), g))
            && FanNames(conf, names, r)
            && (r.request.identity.authenticated ==>
                  (SomeMatches(conf, names, r)
                   <==> ReadsIdentity(ir.authentication, rule.identity, r.request.identity)))
  {
    hide RunPhases, Compile, AuthEnabled, SortProviders, SortRules, CoherentIr, DeadGroup, AclKey, EvalNames,
         GroupAcls, ExpandGroupRefs;
    var refs, conf, c := ExpandGroupRefs(rule.identity.groups), Compile(ir).squidConf, ContextOf(ir, RunPhases(ir));
    var providers := SortProviders(ir.authentication.providers);
    var names := GroupAcls(refs, c.groups);
    GroupAclsAre(refs, c.groups);
    forall g | g in refs
      ensures g in GroupsOf(SortRules(ir.rules)) && AclKey(g) in c.groups
      ensures DeadGroup(ir.authentication, providers, g) <==> c.groups[AclKey(g)] == ""
      ensures ReadsGroup(ir.authentication, g, r.request.identity) ==> !DeadGroup(ir.authentication, providers, g)
      ensures !DeadGroup(ir.authentication, providers, g) ==> c.groups[AclKey(g)] in names
      ensures !DeadGroup(ir.authentication, providers, g) ==>
        (EvalNames(conf, [c.groups[AclKey(g)]], r)
         == if !r.request.identity.authenticated then Challenged
            else if ReadsGroup(ir.authentication, g, r.request.identity) then Matched else Unmatched)
    {
      GroupRefDenotes(ir, g);
      if !DeadGroup(ir.authentication, providers, g) { GroupNameEval(ir, g, r); }
    }
    assert names == [] <==> forall g :: g in refs ==> DeadGroup(ir.authentication, providers, g) by {
      if names != [] {
        assert names[0] in names;
      }
    }
  }
}
