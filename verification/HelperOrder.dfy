/** Squid reads its file from top to bottom: an ACL that asks for credentials needs the helper program above it, and
    an external group ACL needs its helper type above it. */
module HelperOrder {
  import opened Text
  import opened Ir
  import opened Names
  import opened Squid
  import opened Compiler
  import opened CompilerNames
  import opened CompilerDefinitions
  import SetupWarnings

  predicate AsksForCredentials(d: Directive) { d.Acl? && d.test.NeedsCredentials() }

  predicate NamesAType(d: Directive) { d.Acl? && d.test.ExternalGroup? }

  // ----- what each phase writes -----

  predicate AsksNobody(lines: seq<Directive>) {
    forall d :: d in lines ==> !AsksForCredentials(d) && !NamesAType(d) && !d.AuthProgram?
  }

  lemma {:induction false} RuleNetworksAskNobody(st: NetState, ruleId: string, networks: seq<Network>)
    requires AsksNobody(st.lines)
    ensures AsksNobody(RuleNetworks(st, ruleId, networks).0.lines)
  {
    if networks != [] { RuleNetworksAskNobody(st, ruleId, networks[..|networks| - 1]); }
  }

  lemma {:induction false} NetRulesAskNobody(used: set<string>, rules: seq<PolicyRule>)
    ensures AsksNobody(NetRules(used, rules).st.lines)
  {
    hide RuleNetworks;
    if rules != [] {
      var n := |rules| - 1;
      NetRulesAskNobody(used, rules[..n]);
      if rules[n].source.Networks? {
        RuleNetworksAskNobody(NetRules(used, rules[..n]).st, rules[n].id, rules[n].source.networks);
      }
    }
  }

  lemma {:induction false} UserRulesNameNoType(used: set<string>, rules: seq<PolicyRule>)
    ensures forall d :: d in UserRules(used, rules).lines ==> d.Acl? && d.test.ProxyAuthUsers?
  {
    hide TakeName, NonEmpty, Usernames;
    if rules != [] { UserRulesNameNoType(used, rules[..|rules| - 1]); }
  }

  lemma AddDestinationAsksNobody(st: DestState, acls: seq<string>, base: string, test: AclTest, present: bool)
    requires AsksNobody(st.destinationLines) && !test.NeedsCredentials()
    ensures AsksNobody(AddDestination(st, acls, base, test, present).0.destinationLines)
    ensures AddDestination(st, acls, base, test, present).0.scheduleLines == st.scheduleLines
  {
    hide TakeName;
  }

  lemma DestRuleAsksNobody(st: DestState, rule: PolicyRule)
    requires AsksNobody(st.destinationLines) && AsksNobody(st.scheduleLines)
    ensures AsksNobody(DestRule(st, rule).destinationLines) && AsksNobody(DestRule(st, rule).scheduleLines)
  {
    hide TakeName, NonBlank, AddDestination, ClampMinutes;
    if rule.destination.Specific? {
      var domains, cidrs, ports := rule.destination.domains, rule.destination.cidrs, rule.destination.ports;
      AddDestinationAsksNobody(st, [], DestBase(rule) + "_dom", DstDomain(NonBlank(domains)), NonBlank(domains) != []);
      var (s1, a1) :=
        AddDestination(st, [], DestBase(rule) + "_dom", DstDomain(NonBlank(domains)), NonBlank(domains) != []);
      AddDestinationAsksNobody(s1, a1, DestBase(rule) + "_net", Dst(NonBlank(cidrs)), NonBlank(cidrs) != []);
      var (s2, a2) := AddDestination(s1, a1, DestBase(rule) + "_net", Dst(NonBlank(cidrs)), NonBlank(cidrs) != []);
      AddDestinationAsksNobody(s2, a2, DestBase(rule) + "_port", Port(ports), ports != []);
    }
  }

  lemma {:induction false} DestRulesAskNobody(used: set<string>, rules: seq<PolicyRule>)
    ensures AsksNobody(DestRules(used, rules).destinationLines) && AsksNobody(DestRules(used, rules).scheduleLines)
  {
    hide DestRule, AsksNobody;
    if rules == [] {
      NobodyAsked();
    } else {
      DestRulesAskNobody(used, rules[..|rules| - 1]);
      DestRuleAsksNobody(DestRules(used, rules[..|rules| - 1]), rules[|rules| - 1]);
    }
  }

  lemma NobodyAsked()
    ensures AsksNobody([])
  {
  }

  lemma {:induction false} ListenerStepsAskNobody(used: set<string>, listeners: seq<Listener>)
    ensures AsksNobody(ListenerSteps(used, listeners).out) && AsksNobody(ListenerSteps(used, listeners).authPorts)
  {
    hide TakeName, Slug, SourceCidrs;
    if listeners != [] { ListenerStepsAskNobody(used, listeners[..|listeners| - 1]); }
  }

  // ----- helper types come before the groups that name them -----

  ghost predicate TypedAt(lines: seq<Directive>, j: nat)
    requires j < |lines|
  {
    NamesAType(lines[j]) ==> exists i: nat :: i < j && IsType(lines[i], lines[j].test.typeName)
  }

  predicate IsType(d: Directive, typeName: string) { d.ExternalAclType? && d.typeName == typeName }

  /** Every external group names a helper type of an earlier line. */
  ghost predicate Typed(lines: seq<Directive>) { forall j: nat :: j < |lines| ==> TypedAt(lines, j) }

  lemma TypedSnoc(lines: seq<Directive>, d: Directive)
    requires Typed(lines) && (NamesAType(d) ==> exists t :: t in lines && IsType(t, d.test.typeName))
    ensures Typed(lines + [d])
  {
    var all := lines + [d];
    hide IsType;
    forall j: nat | j < |all| ensures TypedAt(all, j) {
      if j < |lines| {
        assert all[j] == lines[j] && TypedAt(lines, j);
        if NamesAType(all[j]) {
          var i: nat :| i < j && IsType(lines[i], lines[j].test.typeName);
          assert all[i] == lines[i];
        }
      } else if NamesAType(d) {
        var t :| t in lines && IsType(t, d.test.typeName);
        var i: nat :| i < |lines| && lines[i] == t;
        assert all[i] == t;
      }
    }
  }

  lemma {:induction false} TypedAppend(lines: seq<Directive>, more: seq<Directive>)
    requires Typed(lines) && forall d :: d in more ==> !NamesAType(d)
    ensures Typed(lines + more)
  {
    hide Typed;
    if more == [] {
      assert lines + more == lines;
    } else {
      var init, last := more[..|more| - 1], more[|more| - 1];
      TypedAppend(lines, init);
      TypedSnoc(lines + init, last);
      assert lines + more == lines + init + [last];
    }
  }

  lemma TypedBehind(before: seq<Directive>, lines: seq<Directive>)
    requires Typed(lines) && forall d :: d in before ==> !NamesAType(d)
    ensures Typed(before + lines)
  {
    var all := before + lines;
    hide IsType;
    forall j: nat | j < |all| ensures TypedAt(all, j) {
      if j < |before| {
        assert all[j] in before;
      } else {
        assert all[j] == lines[j - |before|] && TypedAt(lines, j - |before|);
        if NamesAType(all[j]) {
          var i: nat :| i < j - |before| && IsType(lines[i], lines[j - |before|].test.typeName);
          assert all[|before| + i] == lines[i];
        }
      }
    }
  }

  /** The types remembered are those written. */
  ghost predicate Remembers(st: GroupState) {
    Typed(st.lines) && forall t :: t in st.types ==> exists d :: d in st.lines && IsType(d, t)
  }

  lemma GroupStepIsTyped(auth: AuthenticationIr, providers: seq<Provider>, st: GroupState, ruleId: string,
                         ref: GroupRef)
    requires Remembers(st)
    ensures Remembers(GroupStep(auth, providers, st, ruleId, ref))
  {
    hide Typed, TakeName, Slug, MembersOf, AclKey, TypeName;
    var next := GroupStep(auth, providers, st, ruleId, ref);
    if next.lines != st.lines {
      var acl := next.lines[|next.lines| - 1];
      var before := next.lines[..|next.lines| - 1];
      if ref.source == Local {
        assert before == st.lines;
      } else {
        var provider := LdapProvider(providers, ref.providerKey).value;
        var t := TypeName(provider.key);
        if t in st.types {
          assert before == st.lines;
        } else {
          assert before == st.lines + [ExternalAclType(t, provider.key)];
          TypedSnoc(st.lines, ExternalAclType(t, provider.key));
          assert before[|st.lines|] in before && IsType(before[|st.lines|], t);
        }
      }
      TypedSnoc(before, acl);
      assert next.lines == before + [acl];
    }
  }

  lemma {:induction false} RuleGroupsAreTyped(auth: AuthenticationIr, providers: seq<Provider>, st: GroupState,
                                              ruleId: string, refs: seq<GroupRef>)
    requires Remembers(st)
    ensures Remembers(RuleGroups(auth, providers, st, ruleId, refs))
  {
    hide GroupStep, Remembers;
    if refs != [] {
      var init := refs[..|refs| - 1];
      RuleGroupsAreTyped(auth, providers, st, ruleId, init);
      GroupStepIsTyped(auth, providers, RuleGroups(auth, providers, st, ruleId, init), ruleId, refs[|refs| - 1]);
    }
  }

  lemma {:induction false} GroupRulesAreTyped(auth: AuthenticationIr, providers: seq<Provider>, used: set<string>,
                                              rules: seq<PolicyRule>)
    ensures Remembers(GroupRules(auth, providers, used, rules))
  {
    hide RuleGroups, ExpandGroupRefs;
    if rules != [] {
      var init, rule := rules[..|rules| - 1], rules[|rules| - 1];
      GroupRulesAreTyped(auth, providers, used, init);
      hide Remembers;
      if rule.identity.Group? {
        RuleGroupsAreTyped(auth, providers, GroupRules(auth, providers, used, init), rule.id,
                           ExpandGroupRefs(rule.identity.groups));
      }
    }
  }

  // ----- the whole file -----

  lemma BaselineIsPlain()
    ensures forall d :: d in BASELINE ==> d.Acl? && (d.test.Port? || d.test.PortRange? || d.test.MethodConnect?)
  {
  }

  lemma BaselineAsksNobody(ir: ConfigurationIr)
    ensures AsksNobody([Generated(ir.generatedAt)] + BASELINE + BASELINE_ACCESS)
  {
    BaselineIsPlain();
    BaselineIsOther();
    hide BASELINE, BASELINE_ACCESS;
  }

  /** The lines around those of users and groups. */
  lemma OthersAskNobody(ir: ConfigurationIr)
    ensures var p := RunPhases(ir);
            && AsksNobody(p.nets.st.lines) && AsksNobody(p.dests.destinationLines) && AsksNobody(p.dests.scheduleLines)
            && AsksNobody(p.listeners.out) && AsksNobody(PortLines(ir)) && AsksNobody(ConfBody(ir))
            && (forall d :: d in p.users.lines ==> d.Acl? && d.test.ProxyAuthUsers?)
            && Typed(p.groups.lines)
            && (!AuthEnabled(ir) ==> p.groups.lines == [] && p.users.lines == [])
  {
    PhaseInputs(ir);
    BodyIsAccess(ir);
    PortLineShape(ir);
    var p := RunPhases(ir);
    var rules, providers := SortRules(ir.rules), SortProviders(ir.authentication.providers);
    var authRules := if AuthEnabled(ir) then rules else [];
    assert !AuthEnabled(ir) ==> p.groups.lines == [] && p.users.lines == [];
    hide RunPhases, NetRules, GroupRules, UserRules, DestRules, ListenerSteps, SortRules, SortProviders, AuthEnabled,
         ConfBody, PortLines;
    NetRulesAskNobody({}, rules);
    GroupRulesAreTyped(ir.authentication, providers, p.nets.st.used, authRules);
    UserRulesNameNoType(p.groups.used, authRules);
    DestRulesAskNobody(p.users.used, rules);
    ListenerStepsAskNobody(p.dests.used, ir.listeners);
  }

  lemma FileIs(ir: ConfigurationIr)
    ensures var p := RunPhases(ir);
            var auth := AuthLines(AuthEnabled(ir), SortProviders(ir.authentication.providers));
            var pre := [Generated(ir.generatedAt)] + BASELINE + BASELINE_ACCESS;
            Compile(ir).squidConf
            == pre + auth + p.nets.st.lines + p.groups.lines
               + (p.users.lines + p.dests.destinationLines + p.dests.scheduleLines + p.listeners.out
                  + PortLines(ir) + ConfBody(ir))
  {
    ConfAround(ir);
    hide RunPhases, Compile, ConfBody, ConfHead, PortLines,
         BASELINE, BASELINE_ACCESS, AuthLines, AuthEnabled, SortProviders;
  }

  /** In every compiled file each external group ACL stands below the helper type it names. */
  lemma TypesComeFirst(ir: ConfigurationIr)
    ensures Typed(Compile(ir).squidConf)
  {
    hide RunPhases, Compile, ConfBody, PortLines, BASELINE, BASELINE_ACCESS, AuthEnabled, SortProviders, Typed;
    FileIs(ir);
    OthersAskNobody(ir);
    BaselineAsksNobody(ir);
    var p := RunPhases(ir);
    var auth := AuthLines(AuthEnabled(ir), SortProviders(ir.authentication.providers));
    var before := [Generated(ir.generatedAt)] + BASELINE + BASELINE_ACCESS + auth + p.nets.st.lines;
    var after := p.users.lines + p.dests.destinationLines + p.dests.scheduleLines + p.listeners.out
                 + PortLines(ir) + ConfBody(ir);
    assert forall d :: d in auth ==> !NamesAType(d);
    hide AuthLines;
    TypedBehind(before, p.groups.lines);
    TypedAppend(before + p.groups.lines, after);
  }

  /** Every ACL that asks for credentials stands below a helper program. */
  ghost predicate Backed(conf: seq<Directive>) {
    forall j: nat :: j < |conf| && AsksForCredentials(conf[j]) ==> exists i: nat :: i < j && conf[i].AuthProgram?
  }

  lemma BackedFrom(pre: seq<Directive>, program: Directive, post: seq<Directive>)
    requires AsksNobody(pre) && program.AuthProgram?
    ensures Backed(pre + [program] + post)
  {
    var conf := pre + [program] + post;
    assert conf[|pre|] == program;
    forall j: nat | j < |pre| ensures !AsksForCredentials(conf[j]) { assert conf[j] == pre[j]; }
    forall j: nat | j < |conf| && AsksForCredentials(conf[j]) ensures exists i: nat :: i < j && conf[i].AuthProgram? {
      assert |pre| < j;
    }
  }

  lemma NobodyAsksWithoutAuth(ir: ConfigurationIr)
    requires !AuthEnabled(ir)
    ensures forall d :: d in Compile(ir).squidConf ==> !AsksForCredentials(d)
  {
    FileIs(ir);
    OthersAskNobody(ir);
    BaselineAsksNobody(ir);
    assert AuthLines(AuthEnabled(ir), SortProviders(ir.authentication.providers)) == [];
    hide RunPhases, Compile, ConfBody, PortLines, BASELINE, BASELINE_ACCESS, AuthEnabled, SortProviders, AuthLines;
  }

  lemma BackedWithProviders(ir: ConfigurationIr)
    requires AuthEnabled(ir) && ir.authentication.providers != []
    ensures Backed(Compile(ir).squidConf)
  {
    FileIs(ir);
    BaselineAsksNobody(ir);
    SetupWarnings.SortKeepsProviders(ir.authentication.providers);
    var p := RunPhases(ir);
    var pre := [Generated(ir.generatedAt)] + BASELINE + BASELINE_ACCESS;
    var auth := AuthLines(AuthEnabled(ir), SortProviders(ir.authentication.providers));
    var rest := p.nets.st.lines + p.groups.lines
                + (p.users.lines + p.dests.destinationLines + p.dests.scheduleLines + p.listeners.out
                   + PortLines(ir) + ConfBody(ir));
    hide RunPhases, Compile, ConfBody, PortLines, BASELINE,
         BASELINE_ACCESS, AuthEnabled, SortProviders, Backed, ProviderKeys;
    assert auth == [auth[0]] + auth[1..];
    assert Compile(ir).squidConf == pre + [auth[0]] + (auth[1..] + rest);
    BackedFrom(pre, auth[0], auth[1..] + rest);
  }

  /** Every ACL that asks for credentials has the helper program above it, exactly if there are providers or no such
      ACL is written. */
  lemma BackedExactly(ir: ConfigurationIr)
    ensures Backed(Compile(ir).squidConf)
       <==> ir.authentication.providers != [] || forall d :: d in Compile(ir).squidConf ==> !AsksForCredentials(d)
  {
    if !AuthEnabled(ir) {
      NobodyAsksWithoutAuth(ir);
    } else if ir.authentication.providers != [] {
      BackedWithProviders(ir);
    } else {
      forall d | d in Compile(ir).squidConf ensures !d.AuthProgram? {
        if d.AuthProgram? { SetupWarnings.ProgramExactly(ir, d.providers); }
      }
      hide Compile, AuthEnabled, AsksForCredentials;
      var conf := Compile(ir).squidConf;
      if Backed(conf) {
        forall d | d in conf ensures !AsksForCredentials(d) {
          var j: nat :| j < |conf| && conf[j] == d;
        }
      }
    }
  }
}
