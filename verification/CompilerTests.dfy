/** Which test each name on a compiled access line stands for, for intermediate representations
    whose rule ids are distinct and whose networks, groups and providers are coherent. */
module CompilerTests {
  import opened Text
  import opened Ir
  import opened Names
  import opened Squid
  import opened Compiler
  import opened CompilerNames
  import opened CompilerDefinitions
  import opened GroupKeys

  // ----- what a well-formed representation is -----

  predicate DistinctIds(rules: seq<PolicyRule>) {
    forall i, j :: 0 <= i < j < |rules| ==> rules[i].id != rules[j].id
  }

  function NetworksOf(rules: seq<PolicyRule>): (r: seq<Network>)
    ensures forall n :: n in r <==> exists rule :: rule in rules && rule.source.Networks? && n in rule.source.networks
  {
    if rules == [] then []
    else (if rules[0].source.Networks? then rules[0].source.networks else []) + NetworksOf(rules[1..])
  }

  /** The same network id always carries the same addresses. */
  predicate CoherentNetworks(networks: seq<Network>) {
    forall m, n :: m in networks && n in networks && m.id == n.id ==> m.cidrs == n.cidrs
  }

  function GroupsOf(rules: seq<PolicyRule>): (r: seq<GroupRef>)
    ensures forall g :: g in r <==> exists rule ::
              rule in rules && rule.identity.Group? && g in ExpandGroupRefs(rule.identity.groups)
  {
    if rules == [] then []
    else (if rules[0].identity.Group? then ExpandGroupRefs(rules[0].identity.groups) else []) + GroupsOf(rules[1..])
  }

  function RefKeys(groups: seq<GroupRef>): set<string> {
    set g | g in groups && g.providerKey.Some? :: g.providerKey.value
  }

  /** The provider keys of the groups in use tell the groups apart in the compiler's table of ACLs. */
  predicate SeparableGroups(groups: seq<GroupRef>) {
    SeparableKeys(RefKeys(groups)) && forall g :: g in groups ==> g.source != Logical
  }

  /** Distinct LDAP providers have distinct slugs. */
  predicate DistinctProviders(providers: seq<Provider>) {
    forall p, q | p in providers && q in providers && p.helper == Ldap && q.helper == Ldap ::
      Slug(p.key) == Slug(q.key) ==> p.key == q.key
  }

  predicate CoherentIr(ir: ConfigurationIr) {
    && DistinctIds(SortRules(ir.rules))
    && CoherentNetworks(NetworksOf(SortRules(ir.rules)))
    && SeparableGroups(GroupsOf(SortRules(ir.rules)))
    && DistinctProviders(ir.authentication.providers)
    && (AuthEnabled(ir) ==> ir.authentication.providers != [])
  }

  // ----- names and tests side by side -----

  ghost predicate NamesTests(lines: seq<Directive>, names: seq<string>, tests: seq<AclTest>) {
    |names| == |tests| && forall k :: 0 <= k < |names| ==> Acl(names[k], tests[k]) in lines
  }

  ghost predicate DenotesAll(conf: seq<Directive>, names: seq<string>, tests: seq<AclTest>) {
    |names| == |tests| && forall k :: 0 <= k < |names| ==> Denotes(conf, names[k], tests[k])
  }

  lemma NamesTestsSnoc(lines: seq<Directive>, more: seq<Directive>, names: seq<string>, tests: seq<AclTest>,
                       name: string, test: AclTest)
    requires NamesTests(lines, names, tests) && lines <= more && Acl(name, test) in more
    ensures NamesTests(more, names + [name], tests + [test])
  {
  }

  lemma NamesTestsLonger(lines: seq<Directive>, more: seq<Directive>, names: seq<string>, tests: seq<AclTest>)
    requires NamesTests(lines, names, tests) && lines <= more
    ensures NamesTests(more, names, tests)
  {
  }

  // ----- source networks -----

  /** One src test per network that has a nonblank entry. */
  function NetTests(networks: seq<Network>): seq<AclTest> {
    if networks == [] then []
    else
      var n := |networks| - 1;
      NetTests(networks[..n]) + if NonBlank(networks[n].cidrs) == [] then [] else [Src(NonBlank(networks[n].cidrs))]
  }

  ghost predicate EmittedTests(lines: seq<Directive>, emitted: map<string, string>, all: seq<Network>) {
    forall n :: n in all && n.id in emitted ==> Acl(emitted[n.id], Src(NonBlank(n.cidrs))) in lines
  }

  lemma {:induction false} RuleNetworksTests(st: NetState, ruleId: string, networks: seq<Network>, all: seq<Network>)
    requires CoherentNetworks(all) && (forall n :: n in networks ==> n in all)
    requires EmittedTests(st.lines, st.emitted, all)
    ensures var (s, acls) := RuleNetworks(st, ruleId, networks);
            st.lines <= s.lines && EmittedTests(s.lines, s.emitted, all)
              && NamesTests(s.lines, acls, NetTests(networks))
  {
    if networks != [] {
      var n := |networks| - 1;
      RuleNetworksTests(st, ruleId, networks[..n], all);
      var (s, acls) := RuleNetworks(st, ruleId, networks[..n]);
      var cidrs := NonBlank(networks[n].cidrs);
      if cidrs != [] {
        if networks[n].id in s.emitted {
          NamesTestsSnoc(s.lines, s.lines, acls, NetTests(networks[..n]), s.emitted[networks[n].id], Src(cidrs));
        } else {
          var name := TakeName(s.used, "scp_net_" + Slug(networks[n].name));
          NamesTestsSnoc(s.lines, s.lines + [Acl(name, Src(cidrs))], acls, NetTests(networks[..n]), name, Src(cidrs));
        }
      }
    }
  }

  predicate HasId(rules: seq<PolicyRule>, id: string) { exists r :: r in rules && r.id == id }

  lemma LastIsNew(rules: seq<PolicyRule>)
    requires rules != [] && DistinctIds(rules)
    ensures DistinctIds(rules[..|rules| - 1]) && !HasId(rules[..|rules| - 1], rules[|rules| - 1].id)
    ensures forall r :: r in rules <==> r in rules[..|rules| - 1] || r == rules[|rules| - 1]
  {
  }

  ghost predicate NetRuleTests(r: NetResult, rule: PolicyRule) {
    if rule.source.Networks? then rule.id in r.byRule
      && NamesTests(r.st.lines, r.byRule[rule.id], NetTests(rule.source.networks))
    else rule.id !in r.byRule
  }

  lemma {:induction false} NetRulesTests(used: set<string>, rules: seq<PolicyRule>, all: seq<Network>)
    requires DistinctIds(rules) && CoherentNetworks(all) && (forall n :: n in NetworksOf(rules) ==> n in all)
    ensures var r := NetRules(used, rules);
            && EmittedTests(r.st.lines, r.st.emitted, all)
            && (forall id :: id in r.byRule ==> HasId(rules, id))
            && (forall rule :: rule in rules ==> NetRuleTests(r, rule))
  {
    if rules != [] {
      var n := |rules| - 1;
      var init, rule := rules[..n], rules[n];
      LastIsNew(rules);
      forall m | m in NetworksOf(init) ensures m in all {
        assert m in NetworksOf(rules);
      }
      NetRulesTests(used, init, all);
      var r, r' := NetRules(used, init), NetRules(used, rules);
      if rule.source.Networks? {
        forall m | m in rule.source.networks ensures m in all { assert rule in rules && m in NetworksOf(rules); }
        RuleNetworksTests(r.st, rule.id, rule.source.networks, all);
      }
      forall x | x in rules ensures NetRuleTests(r', x) {
        if x in init {
          assert NetRuleTests(r, x) && x.id != rule.id;
          if x.source.Networks? {
            NamesTestsLonger(r.st.lines, r'.st.lines, r.byRule[x.id], NetTests(x.source.networks));
          }
        }
      }
      forall id | id in r'.byRule ensures HasId(rules, id) {
        if id == rule.id { assert rule in rules; } else { assert HasId(init, id); }
      }
    }
  }

  // ----- identity groups -----

  /** Nothing can satisfy the group: no members, or no enabled LDAP provider to ask. */
  predicate DeadGroup(auth: AuthenticationIr, providers: seq<Provider>, ref: GroupRef) {
    if ref.source == Local then MembersOf(auth, ref.name) == [] else LdapProvider(providers, ref.providerKey).None?
  }

  function GroupTest(auth: AuthenticationIr, providers: seq<Provider>, ref: GroupRef): AclTest
    requires !DeadGroup(auth, providers, ref)
  {
    if ref.source == Local then ProxyAuthUsers(MembersOf(auth, ref.name))
    else ExternalGroup(TypeName(LdapProvider(providers, ref.providerKey).value.key), ref.name)
  }

  ghost predicate GroupTests(auth: AuthenticationIr, providers: seq<Provider>, st: GroupState, ref: GroupRef) {
    var key := AclKey(ref);
    key in st.acl &&
    if DeadGroup(auth, providers, ref) then st.acl[key] == ""
    else st.acl[key] != "" && Acl(st.acl[key], GroupTest(auth, providers, ref)) in st.lines
  }

  /** The group lines declare exactly the external types of the LDAP providers they refer to. */
  ghost predicate TypesAreDeclared(providers: seq<Provider>, st: GroupState) {
    && (forall t, k :: ExternalAclType(t, k) in st.lines ==>
          t == TypeName(k) && t in st.types && LdapProvider(providers, Some(k)).Some?)
    && (forall t :: t in st.types ==> exists k :: ExternalAclType(t, k) in st.lines)
    && (forall n, t, g :: Acl(n, ExternalGroup(t, g)) in st.lines ==> t in st.types)
  }

  ghost predicate GroupInvariant(auth: AuthenticationIr, providers: seq<Provider>, st: GroupState, all: seq<GroupRef>) {
    && TypesAreDeclared(providers, st)
    && (forall g :: g in all && AclKey(g) in st.acl ==> GroupTests(auth, providers, st, g))
  }

  lemma GroupStepTypes(auth: AuthenticationIr, providers: seq<Provider>, st: GroupState, ruleId: string, ref: GroupRef)
    requires TypesAreDeclared(providers, st)
    ensures TypesAreDeclared(providers, GroupStep(auth, providers, st, ruleId, ref))
  {
    hide AclKey, TypeName, MembersOf, Slug, TakeName;
    var s := GroupStep(auth, providers, st, ruleId, ref);
    var provider := LdapProvider(providers, ref.providerKey);
    if AclKey(ref) !in st.acl && ref.source != Local && provider.Some? {
      var t := TypeName(provider.value.key);
      var d := ExternalAclType(t, provider.value.key);
      forall u | u in s.types ensures exists k :: ExternalAclType(u, k) in s.lines {
        if u in st.types {
          var k :| ExternalAclType(u, k) in st.lines;
          assert ExternalAclType(u, k) in s.lines;
        } else {
          assert d in s.lines;
        }
      }
    } else {
      forall u | u in s.types ensures exists k :: ExternalAclType(u, k) in s.lines {
        var k :| ExternalAclType(u, k) in st.lines;
        assert ExternalAclType(u, k) in s.lines;
      }
    }
  }

  lemma NewGroupIsTested(auth: AuthenticationIr, providers: seq<Provider>, st: GroupState, ruleId: string,
                         ref: GroupRef)
    requires AclKey(ref) !in st.acl && ref.source != Logical
    ensures GroupTests(auth, providers, GroupStep(auth, providers, st, ruleId, ref), ref)
  {
    hide AclKey, MembersOf, Slug, TakeName;
    var s := GroupStep(auth, providers, st, ruleId, ref);
    if !DeadGroup(auth, providers, ref) {
      var base := if ref.source == Local then "scp_grp_local_" + Slug(ref.name)
                  else "scp_grp_" + Slug(LdapProvider(providers, ref.providerKey).value.key) + "_" + Slug(ref.name);
      TakenName(st.used, base);
      assert s.lines[|s.lines| - 1] == Acl(s.acl[AclKey(ref)], GroupTest(auth, providers, ref));
    }
  }

  lemma GroupStepFrame(auth: AuthenticationIr, providers: seq<Provider>, st: GroupState, ruleId: string, ref: GroupRef)
    ensures var s := GroupStep(auth, providers, st, ruleId, ref);
            && st.lines <= s.lines && AclKey(ref) in s.acl
            && (forall k :: k in st.acl ==> k in s.acl && s.acl[k] == st.acl[k])
            && (forall k :: k in s.acl ==> k in st.acl || k == AclKey(ref))
  {
    hide AclKey, MembersOf, Slug, TakeName;
  }

  lemma GroupStepTests(auth: AuthenticationIr, providers: seq<Provider>, st: GroupState, ruleId: string,
                       ref: GroupRef, all: seq<GroupRef>)
    requires SeparableGroups(all) && ref in all && GroupInvariant(auth, providers, st, all)
    ensures var s := GroupStep(auth, providers, st, ruleId, ref);
            GroupInvariant(auth, providers, s, all) && AclKey(ref) in s.acl && st.lines <= s.lines
    ensures forall g :: AclKey(g) in st.acl ==> AclKey(g) in GroupStep(auth, providers, st, ruleId, ref).acl
  {
    GroupStepTypes(auth, providers, st, ruleId, ref);
    GroupStepFrame(auth, providers, st, ruleId, ref);
    if AclKey(ref) !in st.acl { NewGroupIsTested(auth, providers, st, ruleId, ref); }
    hide TypesAreDeclared, GroupStep, AclKey, DeadGroup, GroupTest;
    var s := GroupStep(auth, providers, st, ruleId, ref);
    forall g | g in all && AclKey(g) in s.acl ensures GroupTests(auth, providers, s, g) {
      if AclKey(g) in st.acl {
        assert GroupTests(auth, providers, st, g);
      } else {
        SeparableKeysDetermine(RefKeys(all), g, ref);
        SameGroupTests(auth, providers, s, ref, g);
      }
    }
  }

  lemma SameGroupTests(auth: AuthenticationIr, providers: seq<Provider>, s: GroupState, a: GroupRef, b: GroupRef)
    requires AclKey(a) == AclKey(b) && a.source == b.source && a.name == b.name && a.providerKey == b.providerKey
    requires GroupTests(auth, providers, s, a)
    ensures GroupTests(auth, providers, s, b)
  {
  }

  lemma {:induction false} RuleGroupsTests(auth: AuthenticationIr, providers: seq<Provider>, st: GroupState,
                          ruleId: string, refs: seq<GroupRef>, all: seq<GroupRef>)
    requires SeparableGroups(all) && (forall g :: g in refs ==> g in all) && GroupInvariant(auth, providers, st, all)
    ensures var s := RuleGroups(auth, providers, st, ruleId, refs);
            && GroupInvariant(auth, providers, s, all)
            && (forall g :: g in refs || AclKey(g) in st.acl ==> AclKey(g) in s.acl)
  {
    hide GroupInvariant, GroupStep, AclKey;
    if refs != [] {
      var n := |refs| - 1;
      RuleGroupsTests(auth, providers, st, ruleId, refs[..n], all);
      GroupStepTests(auth, providers, RuleGroups(auth, providers, st, ruleId, refs[..n]), ruleId, refs[n], all);
      assert forall g :: g in refs <==> g in refs[..n] || g == refs[n];
    }
  }

  lemma {:induction false} GroupRulesTests(auth: AuthenticationIr, providers: seq<Provider>, used: set<string>,
                          rules: seq<PolicyRule>, all: seq<GroupRef>)
    requires SeparableGroups(all) && (forall g :: g in GroupsOf(rules) ==> g in all)
    ensures var s := GroupRules(auth, providers, used, rules);
            && GroupInvariant(auth, providers, s, all)
            && (forall g :: g in GroupsOf(rules) ==> AclKey(g) in s.acl)
  {
    hide AclKey, GroupTests;
    if rules != [] {
      var n := |rules| - 1;
      var init, rule := rules[..n], rules[n];
      forall g | g in GroupsOf(init) ensures g in all {
        assert g in GroupsOf(rules);
      }
      GroupRulesTests(auth, providers, used, init, all);
      if rule.identity.Group? {
        forall g | g in ExpandGroupRefs(rule.identity.groups)
          ensures g in all { assert rule in rules && g in GroupsOf(rules); }
        RuleGroupsTests(auth, providers, GroupRules(auth, providers, used, init), rule.id,
                        ExpandGroupRefs(rule.identity.groups), all);
      }
      forall g | g in GroupsOf(rules) ensures AclKey(g) in GroupRules(auth, providers, used, rules).acl {
        var r :| r in rules && r.identity.Group? && g in ExpandGroupRefs(r.identity.groups);
        if r != rule { assert r in init && g in GroupsOf(init); }
      }
    }
  }

  // ----- named users -----

  ghost predicate UserRuleTests(st: UserState, rule: PolicyRule) {
    if rule.identity.User? && NonEmpty(Usernames(rule.identity.users)) != []
    then
      && rule.id in st.byRule
      && Acl(st.byRule[rule.id], ProxyAuthUsers(NonEmpty(Usernames(rule.identity.users)))) in st.lines
    else rule.id !in st.byRule
  }

  lemma {:induction false} UserRulesTests(used: set<string>, rules: seq<PolicyRule>)
    requires DistinctIds(rules)
    ensures var s := UserRules(used, rules);
            && (forall id :: id in s.byRule ==> HasId(rules, id))
            && (forall rule :: rule in rules ==> UserRuleTests(s, rule))
  {
    if rules != [] {
      var n := |rules| - 1;
      var init, rule := rules[..n], rules[n];
      LastIsNew(rules);
      UserRulesTests(used, init);
      var s, s' := UserRules(used, init), UserRules(used, rules);
      forall x | x in rules ensures UserRuleTests(s', x) {
        if x in init { assert UserRuleTests(s, x) && x.id != rule.id; }
      }
      forall id | id in s'.byRule ensures HasId(rules, id) {
        if id == rule.id { assert rule in rules; } else { assert HasId(init, id); }
      }
    }
  }

  // ----- destinations and schedules -----

  function DestTests(destination: DestinationMatcher): seq<AclTest> {
    match destination
    case AnyDestination => []
    case Specific(domains, cidrs, ports) =>
      (if NonBlank(domains) != [] then [DstDomain(NonBlank(domains))] else [])
      + (if NonBlank(cidrs) != [] then [Dst(NonBlank(cidrs))] else [])
      + (if ports != [] then [Port(ports)] else [])
  }

  lemma AddDestinationTests(st: DestState, acls: seq<string>, tests: seq<AclTest>, base: string, test: AclTest,
                          present: bool)
    requires NamesTests(st.destinationLines, acls, tests)
    ensures var (s, more) := AddDestination(st, acls, base, test, present);
            && st.destinationLines <= s.destinationLines
            && s == st.(used := s.used, destinationLines := s.destinationLines)
            && NamesTests(s.destinationLines, more, tests + if present then [test] else [])
  {
    if present {
      var s := AddDestination(st, acls, base, test, present).0;
      NamesTestsSnoc(st.destinationLines, s.destinationLines, acls, tests, TakeName(st.used, base), test);
    } else {
      assert tests + [] == tests;
    }
  }

  lemma RuleDestinationTests(st: DestState, rule: PolicyRule)
    ensures var (s, acls) := RuleDestination(st, rule);
            && st.destinationLines <= s.destinationLines
            && s == st.(used := s.used, destinationLines := s.destinationLines, warnings := s.warnings)
            && NamesTests(s.destinationLines, acls, DestTests(rule.destination))
  {
    hide AddDestination, NonBlank;
    assert NamesTests(st.destinationLines, [], []);
    match rule.destination
    case AnyDestination =>
    case Specific(domains, cidrs, ports) =>
      hide NamesTests;
      var base := DestBase(rule);
      var t1, t2, t3 := DstDomain(NonBlank(domains)), Dst(NonBlank(cidrs)), Port(ports);
      var b1, b2, b3 := NonBlank(domains) != [], NonBlank(cidrs) != [], ports != [];
      AddDestinationTests(st, [], [], base + "_dom", t1, b1);
      var (s1, a1) := AddDestination(st, [], base + "_dom", t1, b1);
      var e1 := if b1 then [t1] else [];
      assert [] + e1 == e1;
      AddDestinationTests(s1, a1, e1, base + "_net", t2, b2);
      var (s2, a2) := AddDestination(s1, a1, base + "_net", t2, b2);
      AddDestinationTests(s2, a2, e1 + if b2 then [t2] else [], base + "_port", t3, b3);
  }

  function TimeTest(rule: PolicyRule): AclTest
    requires rule.schedule.Window?
  {
    Time(rule.schedule.days, ClampMinutes(rule.schedule.startMinutes), ClampMinutes(rule.schedule.endMinutes))
  }

  ghost predicate DestRuleTests(st: DestState, rule: PolicyRule) {
    && rule.id in st.destinations
    && NamesTests(st.destinationLines, st.destinations[rule.id], DestTests(rule.destination))
    && (if rule.schedule.Window? then rule.id in st.schedules
        && Acl(st.schedules[rule.id], TimeTest(rule)) in st.scheduleLines
        else rule.id !in st.schedules)
  }

  lemma {:induction false} DestRulesTests(used: set<string>, rules: seq<PolicyRule>)
    requires DistinctIds(rules)
    ensures var s := DestRules(used, rules);
            && (forall id :: id in s.schedules ==> HasId(rules, id))
            && (forall rule :: rule in rules ==> DestRuleTests(s, rule))
  {
    if rules != [] {
      var n := |rules| - 1;
      var init, rule := rules[..n], rules[n];
      LastIsNew(rules);
      DestRulesTests(used, init);
      var st, s := DestRules(used, init), DestRules(used, rules);
      RuleDestinationTests(st, rule);
      hide RuleDestination, DestTests;
      forall x | x in rules ensures DestRuleTests(s, x) {
        if x in init {
          assert DestRuleTests(st, x) && x.id != rule.id;
          NamesTestsLonger(st.destinationLines, s.destinationLines, st.destinations[x.id], DestTests(x.destination));
        }
      }
      forall id | id in s.schedules ensures HasId(rules, id) {
        if id == rule.id { assert rule in rules; } else { assert HasId(init, id); }
      }
    }
  }
}
