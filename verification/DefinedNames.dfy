/** Which ACL names the access lines use, and that each is defined before its first use. */
module DefinedNames {
  import opened Text
  import opened Ir
  import opened Names
  import opened Squid
  import opened Compiler
  import opened CompilerNames
  import opened CompilerDefinitions

  ghost predicate AllHave(lines: seq<Directive>, names: seq<string>) {
    forall n :: n in names ==> HasAcl(lines, n)
  }

  ghost predicate ValuesHave(lines: seq<Directive>, names: map<string, string>) {
    forall k :: k in names ==> HasAcl(lines, names[k])
  }

  ghost predicate ListsHave(lines: seq<Directive>, names: map<string, seq<string>>) {
    forall k :: k in names ==> AllHave(lines, names[k])
  }

  lemma HasMore(a: seq<Directive>, b: seq<Directive>)
    requires a <= b
    ensures forall n :: HasAcl(a, n) ==> HasAcl(b, n)
  {
    forall n | HasAcl(a, n) ensures HasAcl(b, n) {
      HasAclLonger(a, b[|a|..], n);
      assert a + b[|a|..] == b;
    }
  }

  lemma HasLast(lines: seq<Directive>, name: string, test: AclTest)
    ensures HasAcl(lines + [Acl(name, test)], name)
  {
    assert Acl(name, test) in lines + [Acl(name, test)];
  }

  // ----- the maps the phases build only hold defined names -----

  lemma {:induction false} RuleNetworksDefine(st: NetState, ruleId: string, networks: seq<Network>)
    requires ValuesHave(st.lines, st.emitted)
    ensures var (s, acls) := RuleNetworks(st, ruleId, networks);
            st.lines <= s.lines && ValuesHave(s.lines, s.emitted) && AllHave(s.lines, acls)
  {
    if networks != [] {
      var n := |networks| - 1;
      RuleNetworksDefine(st, ruleId, networks[..n]);
      var (s, acls) := RuleNetworks(st, ruleId, networks[..n]);
      var (t, more) := NetworkStep(s, acls, ruleId, networks[n]);
      HasMore(s.lines, t.lines);
      HasLast(s.lines, TakeName(s.used, "scp_net_" + Slug(networks[n].name)), Src(NonBlank(networks[n].cidrs)));
    }
  }

  lemma {:induction false} NetRulesDefine(used: set<string>, rules: seq<PolicyRule>)
    ensures var r := NetRules(used, rules); ValuesHave(r.st.lines, r.st.emitted) && ListsHave(r.st.lines, r.byRule)
  {
    if rules != [] {
      var rule := rules[|rules| - 1];
      NetRulesDefine(used, rules[..|rules| - 1]);
      var r := NetRules(used, rules[..|rules| - 1]);
      if rule.source.Networks? {
        RuleNetworksDefine(r.st, rule.id, rule.source.networks);
        HasMore(r.st.lines, RuleNetworks(r.st, rule.id, rule.source.networks).0.lines);
      }
    }
  }

  ghost predicate LiveHave(lines: seq<Directive>, names: map<string, string>) {
    forall k :: k in names && names[k] != "" ==> HasAcl(lines, names[k])
  }

  lemma GroupStepDefines(auth: AuthenticationIr, providers: seq<Provider>, st: GroupState, ruleId: string,
                         ref: GroupRef)
    requires LiveHave(st.lines, st.acl)
    ensures var s := GroupStep(auth, providers, st, ruleId, ref); LiveHave(s.lines, s.acl)
  {
    var s := GroupStep(auth, providers, st, ruleId, ref);
    HasMore(st.lines, s.lines);
    if AclKey(ref) !in st.acl && s.acl[AclKey(ref)] != "" {
      assert s.lines[|s.lines| - 1] in s.lines;
      assert HasAcl(s.lines, s.acl[AclKey(ref)]);
    }
  }

  lemma {:induction false} RuleGroupsDefine(auth: AuthenticationIr, providers: seq<Provider>, st: GroupState,
                          ruleId: string, refs: seq<GroupRef>)
    requires LiveHave(st.lines, st.acl)
    ensures var s := RuleGroups(auth, providers, st, ruleId, refs); LiveHave(s.lines, s.acl)
  {
    if refs != [] {
      var n := |refs| - 1;
      RuleGroupsDefine(auth, providers, st, ruleId, refs[..n]);
      GroupStepDefines(auth, providers, RuleGroups(auth, providers, st, ruleId, refs[..n]), ruleId, refs[n]);
    }
  }

  lemma {:induction false} GroupRulesDefine(auth: AuthenticationIr, providers: seq<Provider>, used: set<string>,
                          rules: seq<PolicyRule>)
    ensures var s := GroupRules(auth, providers, used, rules); LiveHave(s.lines, s.acl)
  {
    if rules != [] {
      var n := |rules| - 1;
      GroupRulesDefine(auth, providers, used, rules[..n]);
      if rules[n].identity.Group? {
        RuleGroupsDefine(auth, providers, GroupRules(auth, providers, used, rules[..n]), rules[n].id,
                         ExpandGroupRefs(rules[n].identity.groups));
      }
    }
  }

  lemma {:induction false} UserRulesDefine(used: set<string>, rules: seq<PolicyRule>)
    ensures var s := UserRules(used, rules); ValuesHave(s.lines, s.byRule)
  {
    if rules != [] {
      var n := |rules| - 1;
      UserRulesDefine(used, rules[..n]);
      var st, rule := UserRules(used, rules[..n]), rules[n];
      HasMore(st.lines, UserRules(used, rules).lines);
      if rule.identity.User? {
        HasLast(st.lines, TakeName(st.used, "scp_user_r" + DecimalInt(rule.position)),
                ProxyAuthUsers(NonEmpty(Usernames(rule.identity.users))));
      }
    }
  }

  lemma AddDestinationDefines(st: DestState, acls: seq<string>, base: string, test: AclTest, present: bool)
    requires AllHave(st.destinationLines, acls)
    ensures var (s, more) := AddDestination(st, acls, base, test, present);
            && st.destinationLines <= s.destinationLines
            && s.scheduleLines == st.scheduleLines && s.destinations == st.destinations && s.schedules == st.schedules
            && AllHave(s.destinationLines, more)
  {
    var s := AddDestination(st, acls, base, test, present).0;
    HasMore(st.destinationLines, s.destinationLines);
    HasLast(st.destinationLines, TakeName(st.used, base), test);
  }

  lemma RuleDestinationDefines(st: DestState, rule: PolicyRule)
    ensures var (s, acls) := RuleDestination(st, rule);
            && st.destinationLines <= s.destinationLines
            && s.scheduleLines == st.scheduleLines && s.destinations == st.destinations && s.schedules == st.schedules
            && AllHave(s.destinationLines, acls)
  {
    hide AddDestination, AllHave;
    assert AllHave(st.destinationLines, []) by { NothingIsHad(st.destinationLines); }
    match rule.destination
    case AnyDestination =>
    case Specific(domains, cidrs, ports) =>
      var base := DestBase(rule);
      AddDestinationDefines(st, [], base + "_dom", DstDomain(NonBlank(domains)), NonBlank(domains) != []);
      var (s1, a1) := AddDestination(st, [], base + "_dom", DstDomain(NonBlank(domains)), NonBlank(domains) != []);
      AddDestinationDefines(s1, a1, base + "_net", Dst(NonBlank(cidrs)), NonBlank(cidrs) != []);
      var (s2, a2) := AddDestination(s1, a1, base + "_net", Dst(NonBlank(cidrs)), NonBlank(cidrs) != []);
      AddDestinationDefines(s2, a2, base + "_port", Port(ports), ports != []);
  }

  lemma NothingIsHad(lines: seq<Directive>)
    ensures AllHave(lines, [])
  {
  }

  lemma {:induction false} DestRulesDefine(used: set<string>, rules: seq<PolicyRule>)
    ensures var s := DestRules(used, rules);
            ListsHave(s.destinationLines, s.destinations) && ValuesHave(s.scheduleLines, s.schedules)
  {
    if rules != [] {
      var n := |rules| - 1;
      DestRulesDefine(used, rules[..n]);
      var st, rule, s' := DestRules(used, rules[..n]), rules[n], DestRules(used, rules);
      RuleDestinationDefines(st, rule);
      hide RuleDestination;
      var (s, acls) := RuleDestination(st, rule);
      HasMore(st.destinationLines, s.destinationLines);
      HasMore(st.scheduleLines, s'.scheduleLines);
      if rule.schedule.Window? {
        HasLast(st.scheduleLines, TakeName(s.used, "scp_time_r" + DecimalInt(rule.position)),
                Time(rule.schedule.days, ClampMinutes(rule.schedule.startMinutes),
                     ClampMinutes(rule.schedule.endMinutes)));
      }
    }
  }

  ghost predicate GuardsHave(out: seq<Directive>, guards: seq<Directive>) {
    forall g, t :: g in guards && g.HttpAccess? && t in g.terms ==> t.name == AUTHENTICATED_ACL || HasAcl(out, t.name)
  }

  lemma {:induction false} ListenerStepsDefine(used: set<string>, listeners: seq<Listener>)
    ensures var s := ListenerSteps(used, listeners); GuardsHave(s.out, s.guards)
  {
    if listeners != [] {
      var n := |listeners| - 1;
      ListenerStepsDefine(used, listeners[..n]);
      var st, l, s := ListenerSteps(used, listeners[..n]), listeners[n], ListenerSteps(used, listeners);
      HasMore(st.out, s.out);
      if l.enabled {
        var acl := TakeName(st.used, "scp_lp_" + PortName(l));
        assert Acl(acl, MyPortName(PortName(l))) in s.out;
        if SourceCidrs(l) != [] {
          assert Acl(TakeName(st.used + {acl}, "scp_lpsrc_" + PortName(l)), Src(SourceCidrs(l))) in s.out;
        }
      }
    }
  }

  // ----- the names on the access lines of a rule -----

  lemma AccessLineTerms(verb: Action, names: seq<string>, t: Term)
    requires t in AccessLine(verb, names).terms
    ensures t.name in names || t.name == ALL
  {
  }

  lemma AccessLinesTerms(rule: PolicyRule, source: seq<string>, identity: seq<string>, rest: seq<string>,
                         d: Directive, t: Term)
    requires d in AccessLines(rule, source, identity, rest) && d.HttpAccess? && t in d.terms
    ensures t.name in source || t.name in identity || t.name in rest || t.name == ALL
  {
    if rule.identity.Group? && |identity| > 1 {
      var i :| 0 <= i < |identity| && d == AccessLine(rule.action, source + [identity[i]] + rest);
      AccessLineTerms(rule.action, source + [identity[i]] + rest, t);
    } else {
      AccessLineTerms(rule.action, source + identity + rest, t);
    }
  }

  lemma {:induction false} GroupAclsAreLive(refs: seq<GroupRef>, groups: map<string, string>)
    ensures forall n :: n in GroupAcls(refs, groups) ==> n != "" && exists k :: k in groups && groups[k] == n
  {
    if refs != [] {
      GroupAclsAreLive(refs[1..], groups);
      assert AclKey(refs[0]) in groups ==> groups[AclKey(refs[0])] == groups[AclKey(refs[0])];
    }
  }

  /** Every allocated line a rule may refer to is among the given lines. */
  ghost predicate ContextHas(lines: seq<Directive>, c: RuleContext) {
    && ListsHave(lines, c.networks) && LiveHave(lines, c.groups) && ValuesHave(lines, c.users)
    && ListsHave(lines, c.destinations) && ValuesHave(lines, c.schedules)
  }

  predicate UsesAuthenticated(rule: PolicyRule, c: RuleContext) {
    rule.enabled && rule.identity.Authenticated? && c.mode != Disabled
  }

  lemma RuleLineNames(rule: PolicyRule, c: RuleContext, lines: seq<Directive>, d: Directive, t: Term)
    requires ContextHas(lines, c)
    requires d in RuleLines(rule, c) && d.HttpAccess? && t in d.terms
    ensures t.name == ALL || HasAcl(lines, t.name) || (t.name == AUTH_PORTS_ACL && c.guarded)
         || (t.name == AUTHENTICATED_ACL && UsesAuthenticated(rule, c))
  {
    var identity := IdentityTerms(rule, c).value;
    AccessLinesTerms(rule, SourceTerms(rule, c), identity, RestTerms(rule, c), d, t);
    if rule.identity.Group? { GroupAclsAreLive(ExpandGroupRefs(rule.identity.groups), c.groups); }
  }

  lemma {:induction false} RuleStepNames(rules: seq<PolicyRule>, c: RuleContext, d: Directive)
    requires d in RuleSteps(rules, c).out
    ensures exists rule :: rule in rules && d in RuleLines(rule, c)
  {
    if rules != [] {
      var n := |rules| - 1;
      if d in RuleSteps(rules[..n], c).out {
        RuleStepNames(rules[..n], c, d);
      } else {
        assert rules[n] in rules && d in RuleLines(rules[n], c);
      }
    }
  }

  lemma {:induction false} RuleLinesAppear(rules: seq<PolicyRule>, c: RuleContext, rule: PolicyRule)
    requires rule in rules
    ensures forall d :: d in RuleLines(rule, c) ==> d in RuleSteps(rules, c).out
  {
    var n := |rules| - 1;
    if rule != rules[n] { RuleLinesAppear(rules[..n], c, rule); }
  }
}
