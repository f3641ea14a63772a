/** The naming discipline of the compiler: every allocated ACL name is new, has one definition, and
    never meets a fixed name; and every name an access line uses is defined before it, except when
    identities are demanded while no provider is enabled. */
module CompilerNames {
  import opened Text
  import opened Ir
  import opened Names
  import opened Squid
  import opened Compiler

  const FIXED_NAMES: set<string> :=
    BUILT_IN + {"SSL_ports", "Safe_ports", "CONNECT", AUTHENTICATED_ACL, AUTH_PORTS_ACL}

  /** Allocated names start with scp_ followed by something other than an a. */
  predicate IsAllocatedName(name: string) {
    |name| > 4 && name[..4] == "scp_" && name[4] != 'a'
  }

  lemma AllocatedIsNotFixed(name: string)
    requires IsAllocatedName(name)
    ensures name !in FIXED_NAMES
  {
    assert AUTHENTICATED_ACL[4] == 'a' && AUTH_PORTS_ACL[4] == 'a';
    assert "SSL_ports"[..4] != "scp_" by { assert "SSL_ports"[..4][0] == 'S'; }
    assert "Safe_ports"[..4] != "scp_" by { assert "Safe_ports"[..4][0] == 'S'; }
    assert "CONNECT"[..4] != "scp_" by { assert "CONNECT"[..4][0] == 'C'; }
    assert LOCALHOST[..4] != "scp_" by { assert LOCALHOST[..4][0] == 'l'; }
    assert MANAGER[..4] != "scp_" by { assert MANAGER[..4][0] == 'm'; }
  }

  ghost predicate HasAcl(lines: seq<Directive>, name: string) {
    exists d :: d in lines && d.Acl? && d.name == name
  }

  /** Going from u0 to u1, the lines define exactly the new names, each once. */
  ghost predicate Allocates(u0: set<string>, u1: set<string>, lines: seq<Directive>) {
    && u0 <= u1
    && (forall n :: n in u1 - u0 ==> IsAllocatedName(n) && HasAcl(lines, n))
    && (forall i :: 0 <= i < |lines| && lines[i].Acl? ==> lines[i].name in u1 - u0)
    && (forall i, j :: 0 <= i < j < |lines| && lines[i].Acl? && lines[j].Acl? ==> lines[i].name != lines[j].name)
  }

  lemma AllocatesAcl(u0: set<string>, u1: set<string>, lines: seq<Directive>, name: string, test: AclTest)
    requires Allocates(u0, u1, lines) && name !in u1 && IsAllocatedName(name)
    ensures Allocates(u0, u1 + {name}, lines + [Acl(name, test)])
  {
    var more := lines + [Acl(name, test)];
    assert Acl(name, test) in more;
    forall n | n in u1 + {name} - u0 ensures HasAcl(more, n) {
      if n != name { HasAclLonger(lines, [Acl(name, test)], n); }
    }
  }

  lemma HasAclLonger(a: seq<Directive>, b: seq<Directive>, name: string)
    ensures HasAcl(a, name) || HasAcl(b, name) <==> HasAcl(a + b, name)
  {
    assert forall d :: d in a + b <==> d in a || d in b;
  }

  lemma AllocatesOther(u0: set<string>, u1: set<string>, lines: seq<Directive>, d: Directive)
    requires Allocates(u0, u1, lines) && !d.Acl?
    ensures Allocates(u0, u1, lines + [d])
  {
    forall n | n in u1 - u0 ensures HasAcl(lines + [d], n) { HasAclLonger(lines, [d], n); }
  }

  lemma AllocatesConcat(u0: set<string>, u1: set<string>, u2: set<string>, a: seq<Directive>, b: seq<Directive>)
    requires Allocates(u0, u1, a) && Allocates(u1, u2, b)
    ensures Allocates(u0, u2, a + b)
  {
    forall n | n in u2 - u0 ensures HasAcl(a + b, n) { HasAclLonger(a, b, n); }
  }

  lemma TakenName(used: set<string>, base: string)
    requires IsAllocatedName(base)
    ensures TakeName(used, base) !in used && IsAllocatedName(TakeName(used, base))
    ensures TakeName(used, base) != ""
  {
    var name := TakeName(used, base);
    assert base <= name;
    assert name[..4] == base[..4];
  }

  // ----- each phase allocates -----

  lemma {:induction false} RuleNetworksAllocate(u0: set<string>, st: NetState, ruleId: string, networks: seq<Network>)
    requires Allocates(u0, st.used, st.lines)
    ensures var s := RuleNetworks(st, ruleId, networks).0; Allocates(u0, s.used, s.lines)
  {
    if networks != [] {
      var n := |networks| - 1;
      RuleNetworksAllocate(u0, st, ruleId, networks[..n]);
      var (s, acls) := RuleNetworks(st, ruleId, networks[..n]);
      var cidrs := NonBlank(networks[n].cidrs);
      if cidrs != [] && networks[n].id !in s.emitted {
        var base := "scp_net_" + Slug(networks[n].name);
        TakenName(s.used, base);
        AllocatesAcl(u0, s.used, s.lines, TakeName(s.used, base), Src(cidrs));
      }
    }
  }

  lemma {:induction false} NetRulesAllocate(used: set<string>, rules: seq<PolicyRule>)
    ensures var s := NetRules(used, rules).st; Allocates(used, s.used, s.lines)
  {
    if rules != [] {
      var rule := rules[|rules| - 1];
      NetRulesAllocate(used, rules[..|rules| - 1]);
      if rule.source.Networks? {
        RuleNetworksAllocate(used, NetRules(used, rules[..|rules| - 1]).st, rule.id, rule.source.networks);
      }
    }
  }

  lemma GroupStepAllocates(auth: AuthenticationIr, providers: seq<Provider>, u0: set<string>, st: GroupState,
                          ruleId: string, ref: GroupRef)
    requires Allocates(u0, st.used, st.lines)
    ensures var s := GroupStep(auth, providers, st, ruleId, ref); Allocates(u0, s.used, s.lines)
  {
    if AclKey(ref) in st.acl {
    } else if ref.source == Local {
      var base := "scp_grp_local_" + Slug(ref.name);
      TakenName(st.used, base);
      AllocatesAcl(u0, st.used, st.lines, TakeName(st.used, base), ProxyAuthUsers(MembersOf(auth, ref.name)));
    } else {
      var provider := LdapProvider(providers, ref.providerKey);
      if provider.Some? {
        var typeName := TypeName(provider.value.key);
        var typed := st.lines + if typeName in st.types then [] else [ExternalAclType(typeName, provider.value.key)];
        assert Allocates(u0, st.used, typed);
        var base := "scp_grp_" + Slug(provider.value.key) + "_" + Slug(ref.name);
        TakenName(st.used, base);
        AllocatesAcl(u0, st.used, typed, TakeName(st.used, base), ExternalGroup(typeName, ref.name));
      }
    }
  }

  lemma {:induction false} RuleGroupsAllocate(auth: AuthenticationIr, providers: seq<Provider>, u0: set<string>,
                          st: GroupState, ruleId: string, refs: seq<GroupRef>)
    requires Allocates(u0, st.used, st.lines)
    ensures var s := RuleGroups(auth, providers, st, ruleId, refs); Allocates(u0, s.used, s.lines)
  {
    if refs != [] {
      var n := |refs| - 1;
      RuleGroupsAllocate(auth, providers, u0, st, ruleId, refs[..n]);
      GroupStepAllocates(auth, providers, u0, RuleGroups(auth, providers, st, ruleId, refs[..n]), ruleId, refs[n]);
    }
  }

  lemma {:induction false} GroupRulesAllocate(auth: AuthenticationIr, providers: seq<Provider>, used: set<string>,
                          rules: seq<PolicyRule>)
    ensures var s := GroupRules(auth, providers, used, rules); Allocates(used, s.used, s.lines)
  {
    if rules != [] {
      var n := |rules| - 1;
      GroupRulesAllocate(auth, providers, used, rules[..n]);
      if rules[n].identity.Group? {
        RuleGroupsAllocate(auth, providers, used, GroupRules(auth, providers, used, rules[..n]), rules[n].id,
                           ExpandGroupRefs(rules[n].identity.groups));
      }
    }
  }

  lemma {:induction false} UserRulesAllocate(used: set<string>, rules: seq<PolicyRule>)
    ensures var s := UserRules(used, rules); Allocates(used, s.used, s.lines)
  {
    if rules != [] {
      var n := |rules| - 1;
      UserRulesAllocate(used, rules[..n]);
      var st, rule := UserRules(used, rules[..n]), rules[n];
      if rule.identity.User? {
        var base := "scp_user_r" + DecimalInt(rule.position);
        TakenName(st.used, base);
        AllocatesAcl(used, st.used, st.lines, TakeName(st.used, base),
                     ProxyAuthUsers(NonEmpty(Usernames(rule.identity.users))));
      }
    }
  }

  /** Destination and schedule lines share the allocator, so they are distinct together. */
  ghost predicate DestAllocates(u0: set<string>, st: DestState) {
    && u0 <= st.used
    && (forall n :: n in st.used - u0 ==> IsAllocatedName(n) && HasAcl(st.destinationLines + st.scheduleLines, n))
    && (forall d :: d in st.destinationLines || d in st.scheduleLines ==> d.Acl? && d.name in st.used - u0)
    && (forall i, j :: 0 <= i < j < |st.destinationLines| ==>
          st.destinationLines[i].name != st.destinationLines[j].name)
    && (forall i, j :: 0 <= i < j < |st.scheduleLines| ==> st.scheduleLines[i].name != st.scheduleLines[j].name)
    && (forall i, j :: 0 <= i < |st.destinationLines| && 0 <= j < |st.scheduleLines|
          ==> st.destinationLines[i].name != st.scheduleLines[j].name)
  }

  lemma AddDestinationAllocates(u0: set<string>, st: DestState, acls: seq<string>, base: string, test: AclTest,
                          present: bool)
    requires DestAllocates(u0, st) && IsAllocatedName(base)
    ensures DestAllocates(u0, AddDestination(st, acls, base, test, present).0)
  {
    TakenName(st.used, base);
    if present {
      var s, added := AddDestination(st, acls, base, test, present).0, Acl(TakeName(st.used, base), test);
      assert added in s.destinationLines;
      assert forall d :: d in s.destinationLines <==> d in st.destinationLines || d == added;
      forall n | n in s.used - u0 ensures HasAcl(s.destinationLines + s.scheduleLines, n) {
        HasAclLonger(s.destinationLines, s.scheduleLines, n);
        if n != added.name { HasAclLonger(st.destinationLines, st.scheduleLines, n); }
      }
    }
  }

  lemma DestinationAllocates(u0: set<string>, st: DestState, rule: PolicyRule)
    requires DestAllocates(u0, st)
    ensures DestAllocates(u0, RuleDestination(st, rule).0)
  {
    hide DestAllocates, NonBlank, AddDestination;
    match rule.destination {
      case AnyDestination =>
      case Specific(domains, cidrs, ports) =>
        var base, s := DestBase(rule), RuleDestination(st, rule).0;
        AddDestinationAllocates(u0, st, [], base + "_dom", DstDomain(NonBlank(domains)), NonBlank(domains) != []);
        var (s1, a1) := AddDestination(st, [], base + "_dom", DstDomain(NonBlank(domains)), NonBlank(domains) != []);
        AddDestinationAllocates(u0, s1, a1, base + "_net", Dst(NonBlank(cidrs)), NonBlank(cidrs) != []);
        var (s2, a2) := AddDestination(s1, a1, base + "_net", Dst(NonBlank(cidrs)), NonBlank(cidrs) != []);
        AddDestinationAllocates(u0, s2, a2, base + "_port", Port(ports), ports != []);
        SameLines(u0, AddDestination(s2, a2, base + "_port", Port(ports), ports != []).0, s);
    }
  }

  lemma DestRuleAllocates(u0: set<string>, st: DestState, rule: PolicyRule)
    requires DestAllocates(u0, st)
    ensures DestAllocates(u0, DestRule(st, rule))
  {
    hide DestAllocates, RuleDestination, TakeName;
    var (s, acls) := RuleDestination(st, rule);
    DestinationAllocates(u0, st, rule);
    var d := s.(destinations := s.destinations[rule.id := acls]);
    SameLines(u0, s, d);
    if rule.schedule.Window? {
      var base := "scp_time_r" + DecimalInt(rule.position);
      TakenName(d.used, base);
      ScheduleAllocates(u0, d, TakeName(d.used, base),
                        Time(rule.schedule.days, ClampMinutes(rule.schedule.startMinutes),
                             ClampMinutes(rule.schedule.endMinutes)),
                        DestRule(st, rule).schedules);
    }
  }

  lemma SameLines(u0: set<string>, a: DestState, b: DestState)
    requires DestAllocates(u0, a)
    requires b.used == a.used && b.destinationLines == a.destinationLines && b.scheduleLines == a.scheduleLines
    ensures DestAllocates(u0, b)
  {
  }

  lemma ScheduleAllocates(u0: set<string>, d: DestState, name: string, test: AclTest, schedules: map<string, string>)
    requires DestAllocates(u0, d) && name !in d.used && IsAllocatedName(name)
    ensures DestAllocates(u0, d.(used := d.used + {name},
                                 schedules := schedules, scheduleLines := d.scheduleLines + [Acl(name, test)]))
  {
    var more := d.scheduleLines + [Acl(name, test)];
    assert Acl(name, test) in more;
    assert forall x :: x in more <==> x in d.scheduleLines || x == Acl(name, test);
    forall n | n in d.used + {name} - u0 ensures HasAcl(d.destinationLines + more, n) {
      HasAclLonger(d.destinationLines, more, n);
      if n != name { HasAclLonger(d.destinationLines, d.scheduleLines, n); }
    }
  }

  lemma {:induction false} DestRulesAllocate(used: set<string>, rules: seq<PolicyRule>)
    ensures var s := DestRules(used, rules);
            DestAllocates(used, s) && Allocates(used, s.used, s.destinationLines + s.scheduleLines)
  {
    if rules != [] {
      DestRulesAllocate(used, rules[..|rules| - 1]);
      DestRuleAllocates(used, DestRules(used, rules[..|rules| - 1]), rules[|rules| - 1]);
    }
  }

  lemma ListenerStepAllocates(u0: set<string>, st: ListenerState, l: Listener)
    requires Allocates(u0, st.used, st.out)
    ensures var s := ListenerStep(st, l); Allocates(u0, s.used, s.out)
  {
    if l.enabled {
      var port := PortName(l);
      var base, srcBase := "scp_lp_" + port, "scp_lpsrc_" + port;
      TakenName(st.used, base);
      var acl := TakeName(st.used, base);
      AllocatesOther(u0, st.used, st.out, HttpPort(port, l.address, l.port));
      AllocatesAcl(u0, st.used, st.out + [HttpPort(port, l.address, l.port)], acl, MyPortName(port));
      var out := st.out + [HttpPort(port, l.address, l.port), Acl(acl, MyPortName(port))];
      assert out == st.out + [HttpPort(port, l.address, l.port)] + [Acl(acl, MyPortName(port))];
      TakenName(st.used + {acl}, srcBase);
      AllocatesAcl(u0, st.used + {acl}, out, TakeName(st.used + {acl}, srcBase), Src(SourceCidrs(l)));
    }
  }

  lemma {:induction false} ListenerStepsAllocate(used: set<string>, listeners: seq<Listener>)
    ensures var s := ListenerSteps(used, listeners); Allocates(used, s.used, s.out)
  {
    if listeners != [] {
      ListenerStepsAllocate(used, listeners[..|listeners| - 1]);
      ListenerStepAllocates(used, ListenerSteps(used, listeners[..|listeners| - 1]), listeners[|listeners| - 1]);
    }
  }

  // ----- the whole configuration -----

  /** The lines whose names come from the allocator. */
  function AllocatedLines(p: Phases): seq<Directive> {
    p.nets.st.lines + p.groups.lines + p.users.lines
      + (p.dests.destinationLines + p.dests.scheduleLines) + p.listeners.out
  }

  lemma PhasesAllocate(ir: ConfigurationIr)
    ensures var p := RunPhases(ir); Allocates({}, p.listeners.used, AllocatedLines(p))
  {
    hide Allocates, NetRules, GroupRules, UserRules, DestRules, ListenerSteps, SortRules, SortProviders;
    var p := RunPhases(ir);
    var rules, providers := SortRules(ir.rules), SortProviders(ir.authentication.providers);
    var authRules := if AuthEnabled(ir) then rules else [];
    NetRulesAllocate({}, rules);
    GroupRulesAllocate(ir.authentication, providers, p.nets.st.used, authRules);
    UserRulesAllocate(p.groups.used, authRules);
    DestRulesAllocate(p.users.used, rules);
    ListenerStepsAllocate(p.dests.used, ir.listeners);
    AllocatesConcat({}, p.nets.st.used, p.groups.used, p.nets.st.lines, p.groups.lines);
    AllocatesConcat({}, p.groups.used, p.users.used, p.nets.st.lines + p.groups.lines, p.users.lines);
    AllocatesConcat({}, p.users.used, p.dests.used, p.nets.st.lines + p.groups.lines + p.users.lines,
                    p.dests.destinationLines + p.dests.scheduleLines);
    AllocatesConcat({}, p.dests.used, p.listeners.used,
                    p.nets.st.lines + p.groups.lines + p.users.lines
                      + (p.dests.destinationLines + p.dests.scheduleLines),
                    p.listeners.out);
  }
}
