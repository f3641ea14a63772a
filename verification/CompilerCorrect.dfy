/** The compiled configuration, interpreted, decides as the reading of the rules says: baseline
    lines, then the guards of the listener, then the first rule whose outcome decides, then the
    default. */
module CompilerCorrect {
  import opened Text
  import opened Ir
  import opened IpText
  import opened IpRanges
  import opened Engine
  import opened Names
  import opened Squid
  import opened Compiler
  import opened CompilerNames
  import opened CompilerDefinitions
  import opened CompilerTests
  import opened DefinitionOrder
  import opened DefinedNames
  import opened SquidReading
  import opened CompiledRules

  // ----- short lines -----

  lemma DecideOne(conf: seq<Directive>, d: Directive, r: ProxyRequest)
    ensures DecideLines(conf, [d], r) == LineDecision(conf, d, r)
  {
    hide LineDecision;
    assert [d][1..] == [];
  }

  lemma DecideCons(conf: seq<Directive>, d: Directive, rest: seq<Directive>, r: ProxyRequest)
    ensures DecideLines(conf, [d] + rest, r)
         == if LineDecision(conf, d, r).Some? then LineDecision(conf, d, r) else DecideLines(conf, rest, r)
  {
    hide LineDecision;
    assert ([d] + rest)[1..] == rest;
  }

  function TermOutcome(conf: seq<Directive>, t: Term, r: ProxyRequest): Outcome {
    if AclNeedsCredentials(conf, t.name) && !r.request.identity.authenticated then Challenged
    else if AclHolds(conf, t.name, r) == t.negated then Unmatched else Matched
  }

  lemma OneTerm(conf: seq<Directive>, verb: Action, t: Term, r: ProxyRequest)
    ensures LineDecision(conf, HttpAccess(verb, [t]), r) == OutcomeDecision(verb, TermOutcome(conf, t, r))
  {
    hide AclHolds, AclNeedsCredentials;
    assert [t][1..] == [] && EvalTerms(conf, [], r) == Matched;
    assert EvalTerms(conf, [t], r) == TermOutcome(conf, t, r);
  }

  lemma TwoTermLine(conf: seq<Directive>, verb: Action, t: Term, u: Term, r: ProxyRequest)
    ensures LineDecision(conf, HttpAccess(verb, [t, u]), r)
         == OutcomeDecision(verb, if TermOutcome(conf, t, r) == Matched then TermOutcome(conf, u, r)
                                  else TermOutcome(conf, t, r))
  {
    hide AclHolds, AclNeedsCredentials;
    assert [t, u][1..] == [u] && [u][1..] == [] && EvalTerms(conf, [], r) == Matched;
    assert EvalTerms(conf, [u], r) == TermOutcome(conf, u, r);
    assert EvalTerms(conf, [t, u], r) == if TermOutcome(conf, t, r) == Matched then EvalTerms(conf, [u], r)
                                         else TermOutcome(conf, t, r);
  }

  // ----- one rule -----

  function NamesOf(ir: ConfigurationIr, rule: PolicyRule): Option<seq<string>> {
    IdentityTerms(rule, ContextOf(ir, RunPhases(ir)))
  }

  lemma SingleName(conf: seq<Directive>, n: string, r: ProxyRequest)
    ensures SomeMatches(conf, [n], r) <==> EvalNames(conf, [n], r) == Matched
    ensures FanNames(conf, [n], r) <==> (EvalNames(conf, [n], r) == Challenged <==> !r.request.identity.authenticated)
  {
    assert n in [n];
    assert forall m :: m in [n] <==> m == n;
  }

  lemma IdentityNames(ir: ConfigurationIr, rule: PolicyRule, r: ProxyRequest)
    requires CoherentIr(ir) && AuthEnabled(ir) && rule in SortRules(ir.rules) && rule.identity.NeedsIdentity()
    ensures NamesOf(ir, rule).None? <==> Omitted(ir, rule.identity)
    ensures NamesOf(ir, rule).Some? ==>
      var names, conf := NamesOf(ir, rule).value, Compile(ir).squidConf;
      && names != [] && FanNames(conf, names, r)
      && (r.request.identity.authenticated ==>
            (SomeMatches(conf, names, r) <==> ReadsIdentity(ir.authentication, rule.identity, r.request.identity)))
  {
    hide RunPhases, Compile, AuthEnabled, SortProviders, SortRules, DeadGroup, EvalNames, FanNames, SomeMatches,
         GroupAcls, ExpandGroupRefs, Denotes, ReadsGroup;
    var conf, c := Compile(ir).squidConf, ContextOf(ir, RunPhases(ir));
    match rule.identity
    case Authenticated =>
      AuthenticatedDenotes(ir);
      EvalOne(conf, AUTHENTICATED_ACL, ProxyAuthRequired, r);
      SingleName(conf, AUTHENTICATED_ACL, r);
    case User(users) =>
      var usernames := NonEmpty(Usernames(users));
      UserNameDenotes(ir, rule);
      if usernames != [] {
        EvalOne(conf, c.users[rule.id], ProxyAuthUsers(usernames), r);
        SingleName(conf, c.users[rule.id], r);
      }
    case Group(groups) =>
      GroupRuleNames(ir, rule, r);
  }

  lemma RuleLinesAreFan(rule: PolicyRule, c: RuleContext, names: seq<string>)
    requires rule.enabled && rule.identity.NeedsIdentity() && IdentityTerms(rule, c) == Some(names) && names != []
    ensures RuleLines(rule, c) == FanLines(rule.action, SourceTerms(rule, c), names, RestTerms(rule, c))
  {
    hide SourceTerms, RestTerms, AccessLine;
    if |names| == 1 { assert names == [names[0]]; }
  }

  lemma IdentityRuleDecides(ir: ConfigurationIr, rule: PolicyRule, l: Listener, r: ProxyRequest)
    requires CoherentIr(ir) && rule in SortRules(ir.rules) && OnPortOf(ir, l, r)
    requires rule.enabled && rule.identity.NeedsIdentity() && AuthEnabled(ir)
    ensures DecideLines(Compile(ir).squidConf, RuleLines(rule, ContextOf(ir, RunPhases(ir))), r)
         == OutcomeDecision(rule.action, RuleOutcome(ir, rule, Authenticates(l), r.request))
  {
    hide RunPhases, Compile, AuthEnabled, SortRules, EvalNames, FanNames, SomeMatches, ReadsIdentity, ReadsSource,
         ReadsDestination, ReadsSchedule;
    hide ContextOf, CoherentIr, OnPortOf, IdentityTerms, Omitted, SourceTerms, RestTerms, Authenticates, RuleLines;
    var conf, c := Compile(ir).squidConf, ContextOf(ir, RunPhases(ir));
    IdentityNames(ir, rule, r);
    SourceTermsEval(ir, rule, l, r);
    RestTermsEval(ir, rule, r);
    if NamesOf(ir, rule).Some? {
      var names := NamesOf(ir, rule).value;
      RuleLinesAreFan(rule, c, names);
      FanDecides(conf, rule.action, SourceTerms(rule, c), names, RestTerms(rule, c), r);
    } else {
      OmittedHasNoLines(rule, c);
    }
  }

  lemma OmittedHasNoLines(rule: PolicyRule, c: RuleContext)
    requires IdentityTerms(rule, c).None?
    ensures RuleLines(rule, c) == []
  {
  }

  lemma PlainRuleDecides(ir: ConfigurationIr, rule: PolicyRule, l: Listener, r: ProxyRequest)
    requires CoherentIr(ir) && rule in SortRules(ir.rules) && OnPortOf(ir, l, r)
    requires rule.enabled && !rule.identity.NeedsIdentity()
    ensures DecideLines(Compile(ir).squidConf, RuleLines(rule, ContextOf(ir, RunPhases(ir))), r)
         == OutcomeDecision(rule.action, RuleOutcome(ir, rule, Authenticates(l), r.request))
  {
    hide RunPhases, Compile, AuthEnabled, SortRules, EvalNames, ReadsSource, ReadsDestination, ReadsSchedule;
    hide CoherentIr, OnPortOf, SourceTerms, RestTerms, AccessLine;
    var conf, c := Compile(ir).squidConf, ContextOf(ir, RunPhases(ir));
    SourceTermsEval(ir, rule, l, r);
    RestTermsEval(ir, rule, r);
    if !Omitted(ir, rule.identity) {
      var names := SourceTerms(rule, c) + RestTerms(rule, c);
      assert SourceTerms(rule, c) + [] + RestTerms(rule, c) == names;
      assert RuleLines(rule, c) == [AccessLine(rule.action, names)];
      AccessLineDecides(conf, rule.action, names, r);
      EvalNamesAppend(conf, SourceTerms(rule, c), RestTerms(rule, c), r);
      assert [AccessLine(rule.action, names)][1..] == [];
    }
  }

  /** The lines of a rule decide exactly as the reading of the rule says. */
  lemma RuleDecides(ir: ConfigurationIr, rule: PolicyRule, l: Listener, r: ProxyRequest)
    requires CoherentIr(ir) && rule in SortRules(ir.rules) && OnPortOf(ir, l, r)
    ensures DecideLines(Compile(ir).squidConf, RuleLines(rule, ContextOf(ir, RunPhases(ir))), r)
         == OutcomeDecision(rule.action, RuleOutcome(ir, rule, Authenticates(l), r.request))
  {
    hide RunPhases, Compile, AuthEnabled, SortRules, CoherentIr, OnPortOf;
    if !rule.enabled {
    } else if !rule.identity.NeedsIdentity() {
      PlainRuleDecides(ir, rule, l, r);
    } else if AuthEnabled(ir) {
      IdentityRuleDecides(ir, rule, l, r);
    } else {
      assert EffectiveMode(ir) == Disabled && Omitted(ir, rule.identity);
      assert IdentityTerms(rule, ContextOf(ir, RunPhases(ir))).None?;
    }
  }

  // ----- all rules -----

  /** The first rule whose outcome is not Unmatched, or |rules|. */
  function FirstDeciding(ir: ConfigurationIr, rules: seq<PolicyRule>, authenticates: bool, request: Request): (i: nat)
    ensures i <= |rules|
    ensures i < |rules| ==> RuleOutcome(ir, rules[i], authenticates, request) != Unmatched
    ensures forall k :: 0 <= k < i ==> RuleOutcome(ir, rules[k], authenticates, request) == Unmatched
  {
    if rules == [] then 0
    else if RuleOutcome(ir, rules[0], authenticates, request) != Unmatched then 0
    else 1 + FirstDeciding(ir, rules[1..], authenticates, request)
  }

  function ReadRules(ir: ConfigurationIr, rules: seq<PolicyRule>, authenticates: bool,
                     request: Request): Option<Decision> {
    var i := FirstDeciding(ir, rules, authenticates, request);
    if i == |rules| then None else OutcomeDecision(rules[i].action, RuleOutcome(ir, rules[i], authenticates, request))
  }

  lemma FirstDecidingSnoc(ir: ConfigurationIr, init: seq<PolicyRule>, rule: PolicyRule, authenticates: bool,
                          request: Request)
    ensures ReadRules(ir, init + [rule], authenticates, request)
         == if ReadRules(ir, init, authenticates, request).Some? then ReadRules(ir, init, authenticates, request)
            else OutcomeDecision(rule.action, RuleOutcome(ir, rule, authenticates, request))
  {
    hide RuleOutcome;
    var rules := init + [rule];
    var i, j := FirstDeciding(ir, init, authenticates, request), FirstDeciding(ir, rules, authenticates, request);
    assert forall k :: 0 <= k < |init| ==> init[k] == rules[k];
    assert rules[|init|] == rule;
  }

  lemma {:induction false} RulesDecide(ir: ConfigurationIr, rules: seq<PolicyRule>, l: Listener, r: ProxyRequest)
    requires CoherentIr(ir) && OnPortOf(ir, l, r) && forall rule :: rule in rules ==> rule in SortRules(ir.rules)
    ensures DecideLines(Compile(ir).squidConf, RuleSteps(rules, ContextOf(ir, RunPhases(ir))).out, r)
         == ReadRules(ir, rules, Authenticates(l), r.request)
  {
    hide RunPhases, Compile, SortRules, CoherentIr, OnPortOf, RuleOutcome, RuleLines, ContextOf, RuleStep,
         Authenticates;
    if rules != [] {
      var n, c, conf := |rules| - 1, ContextOf(ir, RunPhases(ir)), Compile(ir).squidConf;
      var init := rules[..n];
      RulesDecide(ir, init, l, r);
      hide DecideLines, ReadRules;
      RuleDecides(ir, rules[n], l, r);
      RuleStepOut(RuleSteps(init, c), rules[n], c);
      DecideAppend(conf, RuleSteps(init, c).out, RuleLines(rules[n], c), r);
      FirstDecidingSnoc(ir, init, rules[n], Authenticates(l), r.request);
      assert rules == init + [rules[n]];
    }
  }

  lemma RuleStepOut(st: RuleState, rule: PolicyRule, c: RuleContext)
    ensures RuleStep(st, rule, c).out == st.out + RuleLines(rule, c)
  {
  }

  // ----- the guards of the listener -----

  /** The sources a listener admits; none listed means every source. */
  predicate AdmitsSource(l: Listener, sourceIp: string) {
    SourceCidrs(l) == [] || (ParseIp(sourceIp).Some? && IpInAnyCidr(ParseIp(sourceIp).value, SourceCidrs(l)))
  }

  function GuardDecision(l: Listener, request: Request): Option<Decision> {
    if !AdmitsSource(l, request.sourceIp) then Some(Refuse)
    else if l.authentication == Required && !request.identity.authenticated then Some(Challenge)
    else None
  }

  lemma TwoTerms(conf: seq<Directive>, port: string, portTest: AclTest, name: string, test: AclTest, r: ProxyRequest)
    requires Denotes(conf, port, portTest) && !portTest.NeedsCredentials() && Denotes(conf, name, test)
    ensures LineDecision(conf, HttpAccess(Deny, [Term(false, port), Term(true, name)]), r)
         == if !TestHolds(conf, portTest, r) then None
            else if test.NeedsCredentials() && !r.request.identity.authenticated then Some(Challenge)
            else if TestHolds(conf, test, r) then None else Some(Refuse)
  {
    DenotesMeans(conf, port, portTest, r);
    DenotesMeans(conf, name, test, r);
    hide AclHolds, AclNeedsCredentials, TestHolds, Denotes, LineDecision;
    TwoTermLine(conf, Deny, Term(false, port), Term(true, name), r);
  }

  function SourceGuard(l: Listener, acl: string, src: string): seq<Directive> {
    if SourceCidrs(l) == [] then [] else [HttpAccess(Deny, [Term(false, acl), Term(true, src)])]
  }

  function AuthGuard(l: Listener, acl: string): seq<Directive> {
    if l.authentication == Required then [HttpAccess(Deny, [Term(false, acl), Term(true, AUTHENTICATED_ACL)])] else []
  }

  lemma SourceGuardDecides(conf: seq<Directive>, l: Listener, acl: string, src: string, r: ProxyRequest)
    requires Denotes(conf, acl, MyPortName(PortName(l)))
    requires (SourceCidrs(l) != [] ==> Denotes(conf, src, Src(SourceCidrs(l))))
    ensures DecideLines(conf, SourceGuard(l, acl, src), r)
         == if PortName(l) == r.portName && !AdmitsSource(l, r.request.sourceIp) then Some(Refuse) else None
  {
    hide PortName, SourceCidrs, Denotes, LineDecision, ParseIp, IpInAnyCidr;
    if SourceCidrs(l) != [] {
      DecideOne(conf, HttpAccess(Deny, [Term(false, acl), Term(true, src)]), r);
      TwoTerms(conf, acl, MyPortName(PortName(l)), src, Src(SourceCidrs(l)), r);
    }
  }

  lemma AuthGuardDecides(conf: seq<Directive>, l: Listener, acl: string, r: ProxyRequest)
    requires Denotes(conf, acl, MyPortName(PortName(l)))
    requires l.authentication == Required ==> Denotes(conf, AUTHENTICATED_ACL, ProxyAuthRequired)
    ensures DecideLines(conf, AuthGuard(l, acl), r)
         == if PortName(l) == r.portName && l.authentication == Required
            && !r.request.identity.authenticated then Some(Challenge) else None
  {
    hide PortName, Denotes, LineDecision;
    if l.authentication == Required {
      DecideOne(conf, HttpAccess(Deny, [Term(false, acl), Term(true, AUTHENTICATED_ACL)]), r);
      TwoTerms(conf, acl, MyPortName(PortName(l)), AUTHENTICATED_ACL, ProxyAuthRequired, r);
    }
  }

  /** The guards a listener contributes. */
  function ListenerGuards(used: set<string>, l: Listener): seq<Directive> {
    var acl := TakeName(used, "scp_lp_" + PortName(l));
    SourceGuard(l, acl, TakeName(used + {acl}, "scp_lpsrc_" + PortName(l))) + AuthGuard(l, acl)
  }

  lemma ListenerStepGuards(st: ListenerState, l: Listener)
    ensures ListenerStep(st, l).guards == st.guards + if l.enabled then ListenerGuards(st.used, l) else []
    ensures st.out <= ListenerStep(st, l).out
    ensures l.enabled ==>
      var acl := TakeName(st.used, "scp_lp_" + PortName(l));
      Acl(acl, MyPortName(PortName(l))) in ListenerStep(st, l).out
    ensures l.enabled && SourceCidrs(l) != [] ==>
      var acl := TakeName(st.used, "scp_lp_" + PortName(l));
      Acl(TakeName(st.used + {acl}, "scp_lpsrc_" + PortName(l)), Src(SourceCidrs(l))) in ListenerStep(st, l).out
  {
    hide TakeName, PortName, SourceCidrs;
  }

  lemma ListenerGuardsDecide(conf: seq<Directive>, used: set<string>, l: Listener, r: ProxyRequest)
    requires var acl := TakeName(used, "scp_lp_" + PortName(l));
             && Denotes(conf, acl, MyPortName(PortName(l)))
             && (SourceCidrs(l) != [] ==>
                   Denotes(conf, TakeName(used + {acl}, "scp_lpsrc_" + PortName(l)), Src(SourceCidrs(l))))
    requires l.authentication == Required ==> Denotes(conf, AUTHENTICATED_ACL, ProxyAuthRequired)
    ensures DecideLines(conf, ListenerGuards(used, l), r)
       == if PortName(l) == r.portName then GuardDecision(l, r.request) else None
  {
    hide TakeName, PortName, SourceCidrs, Denotes, DecideLines, AdmitsSource, SourceGuard, AuthGuard;
    var acl := TakeName(used, "scp_lp_" + PortName(l));
    var src := TakeName(used + {acl}, "scp_lpsrc_" + PortName(l));
    SourceGuardDecides(conf, l, acl, src, r);
    AuthGuardDecides(conf, l, acl, r);
    DecideAppend(conf, SourceGuard(l, acl, src), AuthGuard(l, acl), r);
  }

  lemma {:induction false} GuardsDecide(ir: ConfigurationIr, used: set<string>, listeners: seq<Listener>, l: Listener,
                          r: ProxyRequest)
    requires CoherentIr(ir) && OnPortOf(ir, l, r) && (forall k :: k in listeners ==> k in ir.listeners)
    requires forall d :: d in ListenerSteps(used, listeners).out ==> d in AllocatedLines(RunPhases(ir))
    ensures DecideLines(Compile(ir).squidConf, ListenerSteps(used, listeners).guards, r)
         == if l in listeners then GuardDecision(l, r.request) else None
  {
    hide RunPhases, Compile, AllocatedLines, Denotes, ListenerStep, ListenerGuards, GuardDecision, PortName;
    if listeners != [] {
      var n, conf := |listeners| - 1, Compile(ir).squidConf;
      var init, k, st := listeners[..n], listeners[n], ListenerSteps(used, listeners[..n]);
      ListenerStepGuards(st, k);
      GuardsDecide(ir, used, init, l, r);
      DecideAppend(conf, st.guards, ListenerGuards(st.used, k), r);
      assert forall m :: m in listeners <==> m in init || m == k;
      if k.enabled {
        var acl := TakeName(st.used, "scp_lp_" + PortName(k));
        AllocatedDenotes(ir, acl, MyPortName(PortName(k)));
        if SourceCidrs(k) != [] {
          AllocatedDenotes(ir, TakeName(st.used + {acl}, "scp_lpsrc_" + PortName(k)), Src(SourceCidrs(k)));
        }
        assert k in ActiveListeners(ir.listeners);
        if k.authentication == Required {
          assert AuthEnabled(ir);
          AuthenticatedDenotes(ir);
        }
        ListenerGuardsDecide(conf, st.used, k, r);
        assert PortName(k) == r.portName <==> k == l;
      } else {
        assert st.guards + [] == st.guards;
      }
    }
  }

  // ----- the baseline -----

  predicate SafePort(port: Option<int>) {
    port.Some? && (port.value in [80, 21, 443, 70, 210, 280, 488, 591, 777] || 1025 <= port.value <= 65535)
  }

  function BaselineDecision(r: ProxyRequest): Option<Decision> {
    if !SafePort(r.request.port) then Some(Refuse)
    else if r.connect && r.request.port != Some(443) then Some(Refuse)
    else if r.manager then Some(if r.localhost then Permit else Refuse)
    else None
  }

  predicate IsBaselineName(name: string) { name == "SSL_ports" || name == "Safe_ports" || name == "CONNECT" }

  lemma BaselineAcls(ir: ConfigurationIr)
    ensures forall d :: d in Compile(ir).squidConf && d.Acl? && IsBaselineName(d.name) <==> d in BASELINE
  {
    ConfAround(ir);
    FixedAround(ir);
    PhasesAllocate(ir);
    BaselineBefore(ir);
    hide RunPhases, Compile, AllocatedLines, BeforeAllocated, PortLines, ConfBody, BASELINE;
    forall d | d in AllocatedLines(RunPhases(ir)) && d.Acl?
      ensures !IsBaselineName(d.name) { AllocatedIsNotFixed(d.name); }
  }

  lemma BaselineNamed()
    ensures forall d :: d in BASELINE ==> d.Acl? && IsBaselineName(d.name)
    ensures !IsBaselineName(AUTHENTICATED_ACL)
  {
    assert AUTHENTICATED_ACL[0] == 's' && "SSL_ports"[0] == 'S' && "Safe_ports"[0] == 'S' && "CONNECT"[0] == 'C';
  }

  lemma BaselineBefore(ir: ConfigurationIr)
    ensures forall d :: d in BeforeAllocated(ir) && d.Acl? && IsBaselineName(d.name) <==> d in BASELINE
  {
    BaselineNamed();
    BaselineIsOther();
    var auth := AuthLines(AuthEnabled(ir), SortProviders(ir.authentication.providers));
    assert forall d :: d in auth && d.Acl? ==> d.name == AUTHENTICATED_ACL;
    hide BASELINE, BASELINE_ACCESS, AuthLines, SortProviders, AuthEnabled, IsBaselineName;
  }

  lemma NameMeaning(conf: seq<Directive>, name: string, defs: seq<Directive>, r: ProxyRequest)
    requires name !in BUILT_IN
    requires forall d :: d in conf && d.Acl? && d.name == name <==> d in defs
    requires forall d :: d in defs ==> d.Acl? && !d.test.NeedsCredentials()
    ensures AclHolds(conf, name, r) <==> exists d :: d in defs && TestHolds(conf, d.test, r)
    ensures !AclNeedsCredentials(conf, name)
  {
    hide TestHolds;
  }

  const SAFE_PORTS: seq<Directive> := BASELINE[1..11]

  /** What the i-th Safe_ports line says about a port. */
  predicate SafeLine(i: nat, port: int)
    requires i < 10
  {
    if i == 5 then 1025 <= port <= 65535 else port == [80, 21, 443, 70, 210, 0, 280, 488, 591, 777][i]
  }

  lemma SafeLineMeaning(conf: seq<Directive>, i: nat, r: ProxyRequest)
    requires i < 10
    ensures SAFE_PORTS[i] == BASELINE[i + 1] && SAFE_PORTS[i].Acl? && SAFE_PORTS[i].name == "Safe_ports"
    ensures !SAFE_PORTS[i].test.NeedsCredentials()
    ensures TestHolds(conf, SAFE_PORTS[i].test, r) <==> r.request.port.Some? && SafeLine(i, r.request.port.value)
  {
    assert SAFE_PORTS[i] == BASELINE[i + 1];
  }

  lemma SafePortsMeaning(conf: seq<Directive>, r: ProxyRequest)
    ensures forall d :: d in SAFE_PORTS ==> d.Acl? && !d.test.NeedsCredentials()
    ensures (exists d :: d in SAFE_PORTS && TestHolds(conf, d.test, r)) <==> SafePort(r.request.port)
  {
    hide TestHolds, SAFE_PORTS;
    var s := SAFE_PORTS;
    assert |s| == 10 by { SafePortsCount(); }
    forall i | 0 <= i < 10
      ensures s[i].Acl? && !s[i].test.NeedsCredentials()
      ensures (TestHolds(conf, s[i].test, r) <==> r.request.port.Some? && SafeLine(i, r.request.port.value))
    {
      SafeLineMeaning(conf, i, r);
    }
    if SafePort(r.request.port) {
      var p := r.request.port.value;
      var i := if p == 80 then 0 else if p == 21 then 1 else if p == 443 then 2
               else if p == 70 then 3 else if p == 210 then 4
               else if p == 280 then 6 else if p == 488 then 7 else if p == 591 then 8 else if p == 777 then 9 else 5;
      assert SafeLine(i, p) && s[i] in s;
    }
  }

  lemma SafePortsCount()
    ensures |SAFE_PORTS| == 10
  {
  }

  lemma BaselineNames()
    ensures forall d :: d in BASELINE && d.Acl? && d.name == "Safe_ports" <==> d in SAFE_PORTS
    ensures forall d :: d in BASELINE && d.Acl? && d.name == "SSL_ports" <==> d in [Acl("SSL_ports", Port([443]))]
    ensures forall d :: d in BASELINE && d.Acl? && d.name == "CONNECT" <==> d in [Acl("CONNECT", MethodConnect)]
  {
    var ssl, connect, safe := "SSL_ports", "CONNECT", "Safe_ports";
    assert safe[1] == 'a' && ssl[1] == 'S' && connect[0] == 'C' && safe[0] == 'S' && ssl[0] == 'S';
    assert BASELINE == [Acl(ssl, Port([443]))] + SAFE_PORTS + [Acl(connect, MethodConnect)];
    assert forall d :: d in SAFE_PORTS ==> d.Acl? && d.name == safe;
    hide BASELINE, SAFE_PORTS;
  }

  lemma BaselineNotBuiltIn()
    ensures "Safe_ports" !in BUILT_IN && "SSL_ports" !in BUILT_IN && "CONNECT" !in BUILT_IN
  {
    assert "Safe_ports"[0] == 'S' && "SSL_ports"[0] == 'S' && "CONNECT"[0] == 'C';
  }

  lemma SafeNameMeaning(conf: seq<Directive>, r: ProxyRequest)
    requires forall d :: d in conf && d.Acl? && IsBaselineName(d.name) <==> d in BASELINE
    ensures AclHolds(conf, "Safe_ports", r) <==> SafePort(r.request.port)
    ensures !AclNeedsCredentials(conf, "Safe_ports")
  {
    BaselineNames();
    BaselineNotBuiltIn();
    hide AclHolds, AclNeedsCredentials, BASELINE, SAFE_PORTS, BUILT_IN, SafePort;
    SafePortsMeaning(conf, r);
    NameMeaning(conf, "Safe_ports", SAFE_PORTS, r);
  }

  lemma SslNameMeaning(conf: seq<Directive>, r: ProxyRequest)
    requires forall d :: d in conf && d.Acl? && IsBaselineName(d.name) <==> d in BASELINE
    ensures AclHolds(conf, "SSL_ports", r) <==> r.request.port == Some(443)
    ensures !AclNeedsCredentials(conf, "SSL_ports")
  {
    BaselineNames();
    BaselineNotBuiltIn();
    hide AclHolds, AclNeedsCredentials, BASELINE, SAFE_PORTS, BUILT_IN;
    var ssl := Acl("SSL_ports", Port([443]));
    NameMeaning(conf, "SSL_ports", [ssl], r);
    assert ssl in [ssl];
  }

  lemma ConnectNameMeaning(conf: seq<Directive>, r: ProxyRequest)
    requires forall d :: d in conf && d.Acl? && IsBaselineName(d.name) <==> d in BASELINE
    ensures AclHolds(conf, "CONNECT", r) <==> r.connect
    ensures !AclNeedsCredentials(conf, "CONNECT")
  {
    BaselineNames();
    BaselineNotBuiltIn();
    hide AclHolds, AclNeedsCredentials, BASELINE, SAFE_PORTS, BUILT_IN;
    var connect := Acl("CONNECT", MethodConnect);
    NameMeaning(conf, "CONNECT", [connect], r);
    assert connect in [connect];
  }

  lemma BaselineMeaning(conf: seq<Directive>, r: ProxyRequest)
    requires forall d :: d in conf && d.Acl? && IsBaselineName(d.name) <==> d in BASELINE
    ensures AclHolds(conf, "Safe_ports", r) <==> SafePort(r.request.port)
    ensures AclHolds(conf, "SSL_ports", r) <==> r.request.port == Some(443)
    ensures AclHolds(conf, "CONNECT", r) <==> r.connect
    ensures forall n :: IsBaselineName(n) ==> !AclNeedsCredentials(conf, n)
  {
    hide AclHolds, AclNeedsCredentials, BASELINE, SafePort;
    SafeNameMeaning(conf, r);
    SslNameMeaning(conf, r);
    ConnectNameMeaning(conf, r);
  }

  lemma SafeLineDecides(conf: seq<Directive>, r: ProxyRequest)
    requires forall d :: d in conf && d.Acl? && IsBaselineName(d.name) <==> d in BASELINE
    ensures LineDecision(conf, BASELINE_ACCESS[0], r) == if SafePort(r.request.port) then None else Some(Refuse)
  {
    BaselineMeaning(conf, r);
    assert IsBaselineName("Safe_ports");
    OneTerm(conf, Deny, Term(true, "Safe_ports"), r);
    hide AclHolds, AclNeedsCredentials, SafePort, BASELINE, IsBaselineName, LineDecision;
  }

  lemma ConnectLineDecides(conf: seq<Directive>, r: ProxyRequest)
    requires forall d :: d in conf && d.Acl? && IsBaselineName(d.name) <==> d in BASELINE
    ensures LineDecision(conf, BASELINE_ACCESS[1], r)
         == if r.connect && r.request.port != Some(443) then Some(Refuse) else None
  {
    BaselineMeaning(conf, r);
    assert IsBaselineName("SSL_ports") && IsBaselineName("CONNECT");
    TwoTermLine(conf, Deny, Term(false, "CONNECT"), Term(true, "SSL_ports"), r);
    hide AclHolds, AclNeedsCredentials, SafePort, BASELINE, IsBaselineName, LineDecision;
  }

  lemma ManagerLinesDecide(conf: seq<Directive>, r: ProxyRequest)
    ensures LineDecision(conf, BASELINE_ACCESS[2], r) == if r.localhost && r.manager then Some(Permit) else None
    ensures LineDecision(conf, BASELINE_ACCESS[3], r) == if r.manager then Some(Refuse) else None
  {
    BuiltIns(conf, r);
    TwoTermLine(conf, Allow, Term(false, LOCALHOST), Term(false, MANAGER), r);
    OneTerm(conf, Deny, Term(false, MANAGER), r);
    hide AclHolds, AclNeedsCredentials, LineDecision;
  }

  lemma FourLines()
    ensures |BASELINE_ACCESS| == 4
    ensures BASELINE_ACCESS
         == [BASELINE_ACCESS[0]] + ([BASELINE_ACCESS[1]] + ([BASELINE_ACCESS[2]] + [BASELINE_ACCESS[3]]))
  {
  }

  lemma FourLinesDecide(conf: seq<Directive>, a: Directive, b: Directive, c: Directive, d: Directive, r: ProxyRequest)
    ensures DecideLines(conf, [a] + ([b] + ([c] + [d])), r)
         == if LineDecision(conf, a, r).Some? then LineDecision(conf, a, r)
            else if LineDecision(conf, b, r).Some? then LineDecision(conf, b, r)
            else if LineDecision(conf, c, r).Some? then LineDecision(conf, c, r)
            else LineDecision(conf, d, r)
  {
    hide LineDecision, DecideLines;
    DecideOne(conf, d, r);
    DecideCons(conf, c, [d], r);
    DecideCons(conf, b, [c] + [d], r);
    DecideCons(conf, a, [b] + ([c] + [d]), r);
  }

  lemma BaselineDecides(conf: seq<Directive>, r: ProxyRequest)
    requires forall d :: d in conf && d.Acl? && IsBaselineName(d.name) <==> d in BASELINE
    ensures DecideLines(conf, BASELINE_ACCESS, r) == BaselineDecision(r)
  {
    SafeLineDecides(conf, r);
    ConnectLineDecides(conf, r);
    ManagerLinesDecide(conf, r);
    FourLines();
    hide BASELINE, BASELINE_ACCESS, SafePort, LineDecision, DecideLines;
    FourLinesDecide(conf, BASELINE_ACCESS[0], BASELINE_ACCESS[1], BASELINE_ACCESS[2], BASELINE_ACCESS[3], r);
  }

  lemma BuiltIns(conf: seq<Directive>, r: ProxyRequest)
    ensures AclHolds(conf, MANAGER, r) <==> r.manager
    ensures AclHolds(conf, LOCALHOST, r) <==> r.localhost
    ensures !AclNeedsCredentials(conf, MANAGER) && !AclNeedsCredentials(conf, LOCALHOST)
  {
  }

  // ----- the whole configuration -----

  /** What the configuration decides about a request that arrived on listener l. */
  function ReadConfiguration(ir: ConfigurationIr, l: Listener, r: ProxyRequest): Decision {
    if BaselineDecision(r).Some? then BaselineDecision(r).value
    else if GuardDecision(l, r.request).Some? then GuardDecision(l, r.request).value
    else ReadRules(ir, SortRules(ir.rules), Authenticates(l), r.request).GetOr(d => d, DecisionOf(ir.defaultAccess))
  }

  /** Neither the header nor the ACL definitions decide anything, and the baseline lines come first. */
  lemma HeadDecides(ir: ConfigurationIr, r: ProxyRequest)
    ensures var conf := Compile(ir).squidConf;
            && DecideLines(conf, [Generated(ir.generatedAt)] + BASELINE, r) == None
            && DecideLines(conf, BASELINE_ACCESS, r) == BaselineDecision(r)
            && DecideLines(conf, Definitions(ir, RunPhases(ir)), r) == None
  {
    hide RunPhases, Compile, BaselineDecision, Definitions, BASELINE_ACCESS, DecideLines;
    var conf := Compile(ir).squidConf;
    BaselineIsOther();
    hide BASELINE;
    assert forall d :: d in [Generated(ir.generatedAt)] + BASELINE ==> !d.HttpAccess?;
    NothingToDecide(conf, [Generated(ir.generatedAt)] + BASELINE, r);
    BaselineAcls(ir);
    BaselineDecides(conf, r);
    NoAccessInDefinitions(ir);
    NothingToDecide(conf, Definitions(ir, RunPhases(ir)), r);
  }

  lemma PartsDecide(ir: ConfigurationIr, l: Listener, r: ProxyRequest)
    requires CoherentIr(ir) && OnPortOf(ir, l, r)
    ensures var conf, p := Compile(ir).squidConf, RunPhases(ir);
            && DecideLines(conf, [Generated(ir.generatedAt)] + BASELINE, r) == None
            && DecideLines(conf, BASELINE_ACCESS, r) == BaselineDecision(r)
            && DecideLines(conf, Definitions(ir, p), r) == None
            && DecideLines(conf, p.listeners.guards, r) == GuardDecision(l, r.request)
            && DecideLines(conf, [DefaultLine(ir.defaultAccess)], r) == Some(DecisionOf(ir.defaultAccess))
  {
    PhaseInputs(ir);
    SubLines(ir);
    assert l in ir.listeners;
    hide RunPhases, Compile, AllocatedLines, ListenerSteps, BaselineDecision, GuardDecision, Definitions,
         BASELINE_ACCESS, BASELINE, DecideLines, CoherentIr, OnPortOf;
    HeadDecides(ir, r);
    GuardsDecide(ir, RunPhases(ir).dests.used, ir.listeners, l, r);
    DefaultDecides(Compile(ir).squidConf, ir.defaultAccess, r);
  }

  lemma DefaultDecides(conf: seq<Directive>, verb: Action, r: ProxyRequest)
    ensures DecideLines(conf, [DefaultLine(verb)], r) == Some(DecisionOf(verb))
  {
    DecideOne(conf, DefaultLine(verb), r);
    OneTerm(conf, verb, Term(false, ALL), r);
    hide LineDecision, DecideLines;
  }

  /** The compiled file decides every request on an active listener, exactly as the reading says. */
  lemma CompiledDecides(ir: ConfigurationIr, l: Listener, r: ProxyRequest)
    requires CoherentIr(ir) && ArrivesOn(ir, l, r)
    ensures Decide(Compile(ir).squidConf, r) == Some(ReadConfiguration(ir, l, r))
  {
    hide RunPhases, Compile, BaselineDecision, GuardDecision, Definitions, BASELINE_ACCESS, BASELINE, DecideLines,
         ReadRules, CoherentIr, ArrivesOn, OnPortOf, RuleSteps, ContextOf, Authenticates;
    var conf, p := Compile(ir).squidConf, RunPhases(ir);
    var a, b, d, g := [Generated(ir.generatedAt)] + BASELINE, BASELINE_ACCESS, Definitions(ir, p), p.listeners.guards;
    var rules, last := RuleSteps(SortRules(ir.rules), ContextOf(ir, p)).out, [DefaultLine(ir.defaultAccess)];
    ConfSplits(ir);
    ArrivalIsOnPort(ir, l, r);
    PartsDecide(ir, l, r);
    RulesDecide(ir, SortRules(ir.rules), l, r);
    assert conf == a + b + d + (g + rules + last);
    DecideAppend(conf, a, b, r);
    DecideAppend(conf, a + b, d, r);
    DecideAppend(conf, a + b + d, g + rules + last, r);
    DecideAppend(conf, g, rules, r);
    DecideAppend(conf, g + rules, last, r);
  }
}
