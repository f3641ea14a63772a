/** The configuration compiler of packages/shared/src/squid/compiler.ts, from the intermediate
    representation to the syntax tree of Squid.dfy. Each phase has a function that folds over a
    prefix of its input, and a method that runs the phase as the compiler does, pushing lines and
    updating maps in a loop, and is proved to compute that function. */
module Compiler {
  import opened Text
  import opened Ir
  import opened Names
  import opened Squid

  const AUTH_PORTS_ACL := "scp_auth_ports"
  const AUTHENTICATED_ACL := "scp_authenticated"

  datatype WarningCode =
    | ProvidersIgnored
    | NoProvider
    | MultiProviderHelper
    | EmptyNetwork
    | EmptyGroup
    | UnknownExternalGroupProvider
    | EmptyUserList
    | DestinationDomainAndNetwork
    | EmptyDestination
    | NoListener
    | IdentityRuleWithoutAuth
    | UnauthenticatedRuleInRequiredMode
    | UnauthenticatedWidened
    | OptionalModeRuleOrder

  datatype Warning = Warning(code: WarningCode, ruleId: Option<string>)

  // ----- helpers -----

  function NonBlank(entries: seq<string>): (r: seq<string>)
    ensures forall e :: e in r <==> e in entries && !IsBlank(e)
  {
    if entries == [] then []
    else (if IsBlank(entries[0]) then [] else [entries[0]]) + NonBlank(entries[1..])
  }

  function NonEmpty(entries: seq<string>): (r: seq<string>)
    ensures forall e :: e in r <==> e in entries && e != ""
  {
    if entries == [] then []
    else (if entries[0] == "" then [] else [entries[0]]) + NonEmpty(entries[1..])
  }

  function Usernames(users: seq<UserRef>): (r: seq<string>)
    ensures |r| == |users|
  {
    seq(|users|, i requires 0 <= i < |users| => users[i].username)
  }

  function AllCidrs(networks: seq<Network>): (r: seq<string>)
    ensures forall c :: c in r <==> exists n :: n in networks && c in n.cidrs
  {
    if networks == [] then [] else networks[0].cidrs + AllCidrs(networks[1..])
  }

  /** Keeps the first occurrence of every value. */
  function Dedupe(values: seq<string>): (r: seq<string>)
    ensures forall v :: v in r <==> v in values
    ensures forall i, j :: 0 <= i < j < |r| ==> r[i] != r[j]
  {
    if values == [] then []
    else
      var init, last := Dedupe(values[..|values| - 1]), values[|values| - 1];
      if last in init then init else init + [last]
  }

  function ActiveListeners(listeners: seq<Listener>): (r: seq<Listener>)
    ensures forall l :: l in r <==> l in listeners && l.enabled
  {
    if listeners == [] then []
    else (if listeners[0].enabled then [listeners[0]] else []) + ActiveListeners(listeners[1..])
  }

  predicate AuthEnabled(ir: ConfigurationIr) {
    exists l :: l in ActiveListeners(ir.listeners) && l.authentication != Disabled
  }

  /** What the rule compiler assumes about identities, derived from the active listeners. */
  function EffectiveMode(ir: ConfigurationIr): AuthMode {
    if !AuthEnabled(ir) then Disabled
    else if forall l :: l in ActiveListeners(ir.listeners) ==> l.authentication == Required then Required
    else Optional
  }

  // ----- source networks -----

  datatype NetState = NetState(used: set<string>, emitted: map<string, string>, lines: seq<Directive>,
                          warnings: seq<Warning>)

  function NetworkStep(st: NetState, acls: seq<string>, ruleId: string, network: Network): (NetState, seq<string>) {
    var cidrs := NonBlank(network.cidrs);
    if cidrs == [] then (st.(warnings := st.warnings + [Warning(EmptyNetwork, Some(ruleId))]), acls)
    else if network.id in st.emitted then (st, acls + [st.emitted[network.id]])
    else
      var name := TakeName(st.used, "scp_net_" + Slug(network.name));
      (NetState(st.used + {name}, st.emitted[network.id := name], st.lines + [Acl(name, Src(cidrs))], st.warnings),
       acls + [name])
  }

  function RuleNetworks(st: NetState, ruleId: string, networks: seq<Network>): (NetState, seq<string>) {
    if networks == [] then (st, [])
    else
      var n := |networks| - 1;
      var (s, acls) := RuleNetworks(st, ruleId, networks[..n]);
      NetworkStep(s, acls, ruleId, networks[n])
  }

  datatype NetResult = NetResult(st: NetState, byRule: map<string, seq<string>>)

  function NetRule(r: NetResult, rule: PolicyRule): NetResult {
    match rule.source
    case AnySource => r
    case Networks(networks) =>
      var (s, acls) := RuleNetworks(r.st, rule.id, networks);
      NetResult(s, r.byRule[rule.id := acls])
  }

  function NetRules(used: set<string>, rules: seq<PolicyRule>): NetResult {
    if rules == [] then NetResult(NetState(used, map[], [], []), map[])
    else NetRule(NetRules(used, rules[..|rules| - 1]), rules[|rules| - 1])
  }

  method CompileRuleNetworks(names: NameAllocator, ruleId: string, networks: seq<Network>,
                             emitted0: map<string, string>, lines0: seq<Directive>, warnings0: seq<Warning>)
    returns (acls: seq<string>, emitted: map<string, string>, lines: seq<Directive>, warnings: seq<Warning>)
    modifies names
    ensures (NetState(names.used, emitted, lines, warnings), acls)
         == RuleNetworks(NetState(old(names.used), emitted0, lines0, warnings0), ruleId, networks)
  {
    acls, emitted, lines, warnings := [], emitted0, lines0, warnings0;
    for i := 0 to |networks|
      invariant (NetState(names.used, emitted, lines, warnings), acls)
             == RuleNetworks(NetState(old(names.used), emitted0, lines0, warnings0), ruleId, networks[..i])
    {
      assert networks[..i + 1][..i] == networks[..i];
      var network := networks[i];
      var cidrs := NonBlank(network.cidrs);
      if |cidrs| == 0 {
        warnings := warnings + [Warning(EmptyNetwork, Some(ruleId))];
        continue;
      }
      var aclName;
      if network.id in emitted {
        aclName := emitted[network.id];
      } else {
        aclName := names.Take("scp_net_" + Slug(network.name));
        emitted := emitted[network.id := aclName];
        lines := lines + [Acl(aclName, Src(cidrs))];
      }
      acls := acls + [aclName];
    }
    assert networks[..|networks|] == networks;
  }

  method CompileNetworks(names: NameAllocator, rules: seq<PolicyRule>)
    returns (byRule: map<string, seq<string>>, emitted: map<string, string>, lines: seq<Directive>,
             warnings: seq<Warning>)
    modifies names
    ensures NetResult(NetState(names.used, emitted, lines, warnings), byRule) == NetRules(old(names.used), rules)
  {
    byRule, emitted, lines, warnings := map[], map[], [], [];
    for i := 0 to |rules|
      invariant NetResult(NetState(names.used, emitted, lines, warnings), byRule)
           == NetRules(old(names.used), rules[..i])
    {
      assert rules[..i + 1][..i] == rules[..i];
      if rules[i].source == AnySource { continue; }
      var acls;
      acls, emitted, lines, warnings :=
        CompileRuleNetworks(names, rules[i].id, rules[i].source.networks, emitted, lines, warnings);
      byRule := byRule[rules[i].id := acls];
    }
    assert rules[..|rules|] == rules;
  }

  // ----- identity groups -----

  function SourceText(source: GroupSource): string {
    match source
    case Local => "LOCAL"
    case External => "EXTERNAL"
    case Logical => "LOGICAL"
  }

  function AclKey(ref: GroupRef): string {
    SourceText(ref.source) + ":" + ref.providerKey.GetOr(k => k, "") + ":" + ref.name
  }

  function FindProvider(providers: seq<Provider>, key: Option<string>): (r: Option<Provider>)
    ensures r.Some? ==> r.value in providers && Some(r.value.key) == key
    ensures r.None? ==> forall p :: p in providers ==> Some(p.key) != key
  {
    if providers == [] then None
    else if Some(providers[0].key) == key then Some(providers[0])
    else FindProvider(providers[1..], key)
  }

  function LdapProvider(providers: seq<Provider>, key: Option<string>): Option<Provider> {
    var p := FindProvider(providers, key);
    if p.Some? && p.value.helper == Ldap then p else None
  }

  function TypeName(providerKey: string): string { "scp_ldapgrp_" + Slug(providerKey) }

  function MembersOf(auth: AuthenticationIr, group: string): seq<string> {
    if group in auth.localGroupMembers then NonEmpty(auth.localGroupMembers[group]) else []
  }

  datatype GroupState = GroupState(
    used: set<string>, acl: map<string, string>, lines: seq<Directive>, types: set<string>, warnings: seq<Warning>)

  function GroupStep(auth: AuthenticationIr, providers: seq<Provider>, st: GroupState, ruleId: string,
                     ref: GroupRef): GroupState {
    var key := AclKey(ref);
    if key in st.acl then st
    else if ref.source == Local then
      var members := MembersOf(auth, ref.name);
      if members == [] then
        st.(acl := st.acl[key := ""], warnings := st.warnings + [Warning(EmptyGroup, Some(ruleId))])
      else
        var name := TakeName(st.used, "scp_grp_local_" + Slug(ref.name));
        st.(used := st.used + {name}, acl := st.acl[key := name],
            lines := st.lines + [Acl(name, ProxyAuthUsers(members))])
    else
      match LdapProvider(providers, ref.providerKey)
      case None =>
        st.(acl := st.acl[key := ""], warnings := st.warnings + [Warning(UnknownExternalGroupProvider, Some(ruleId))])
      case Some(provider) =>
        var typeName := TypeName(provider.key);
        var typeLines := if typeName in st.types then [] else [ExternalAclType(typeName, provider.key)];
        var name := TakeName(st.used, "scp_grp_" + Slug(provider.key) + "_" + Slug(ref.name));
        GroupState(st.used + {name}, st.acl[key := name],
                   st.lines + typeLines + [Acl(name, ExternalGroup(typeName, ref.name))],
                   st.types + {typeName}, st.warnings)
  }

  function RuleGroups(auth: AuthenticationIr, providers: seq<Provider>, st: GroupState, ruleId: string,
                      refs: seq<GroupRef>): GroupState {
    if refs == [] then st
    else GroupStep(auth, providers,
                   RuleGroups(auth, providers, st, ruleId, refs[..|refs| - 1]), ruleId, refs[|refs| - 1])
  }

  function GroupRules(auth: AuthenticationIr, providers: seq<Provider>, used: set<string>,
                      rules: seq<PolicyRule>): GroupState {
    if rules == [] then GroupState(used, map[], [], {}, [])
    else
      var st, rule := GroupRules(auth, providers, used, rules[..|rules| - 1]), rules[|rules| - 1];
      if rule.identity.Group? then RuleGroups(auth, providers, st, rule.id, ExpandGroupRefs(rule.identity.groups))
      else st
  }

  method CompileGroup(auth: AuthenticationIr, providers: seq<Provider>, names: NameAllocator, ruleId: string,
                      ref: GroupRef,
                      acl0: map<string, string>, lines0: seq<Directive>, types0: set<string>, warnings0: seq<Warning>)
    returns (acl: map<string, string>, lines: seq<Directive>, types: set<string>, warnings: seq<Warning>)
    modifies names
    ensures GroupState(names.used, acl, lines, types, warnings)
         == GroupStep(auth, providers, GroupState(old(names.used), acl0, lines0, types0, warnings0), ruleId, ref)
  {
    acl, lines, types, warnings := acl0, lines0, types0, warnings0;
    var key := AclKey(ref);
    if key in acl { return; }
    if ref.source == Local {
      var members := MembersOf(auth, ref.name);
      if |members| == 0 {
        warnings := warnings + [Warning(EmptyGroup, Some(ruleId))];
        acl := acl[key := ""];
        return;
      }
      var aclName := names.Take("scp_grp_local_" + Slug(ref.name));
      acl := acl[key := aclName];
      lines := lines + [Acl(aclName, ProxyAuthUsers(members))];
    } else {
      var provider := FindProvider(providers, ref.providerKey);
      if provider.None? || provider.value.helper != Ldap {
        warnings := warnings + [Warning(UnknownExternalGroupProvider, Some(ruleId))];
        acl := acl[key := ""];
        return;
      }
      var typeName := TypeName(provider.value.key);
      if typeName !in types {
        types := types + {typeName};
        lines := lines + [ExternalAclType(typeName, provider.value.key)];
      }
      var aclName := names.Take("scp_grp_" + Slug(provider.value.key) + "_" + Slug(ref.name));
      acl := acl[key := aclName];
      lines := lines + [Acl(aclName, ExternalGroup(typeName, ref.name))];
    }
  }

  method CompileGroups(auth: AuthenticationIr, providers: seq<Provider>, names: NameAllocator, rules: seq<PolicyRule>)
    returns (acl: map<string, string>, lines: seq<Directive>, types: set<string>, warnings: seq<Warning>)
    modifies names
    ensures GroupState(names.used, acl, lines, types, warnings) == GroupRules(auth, providers, old(names.used), rules)
  {
    hide GroupStep, ExpandGroupRefs;
    acl, lines, types, warnings := map[], [], {}, [];
    for i := 0 to |rules|
      invariant GroupState(names.used, acl, lines, types, warnings)
           == GroupRules(auth, providers, old(names.used), rules[..i])
    {
      assert rules[..i + 1][..i] == rules[..i];
      if !rules[i].identity.Group? { continue; }
      ghost var before := GroupState(names.used, acl, lines, types, warnings);
      var refs := ExpandAll(rules[i].identity.groups);
      for j := 0 to |refs|
        invariant GroupState(names.used, acl, lines, types, warnings)
               == RuleGroups(auth, providers, before, rules[i].id, refs[..j])
      {
        assert refs[..j + 1][..j] == refs[..j];
        acl, lines, types, warnings :=
          CompileGroup(auth, providers, names, rules[i].id, refs[j], acl, lines, types, warnings);
      }
      assert refs[..|refs|] == refs;
    }
    assert rules[..|rules|] == rules;
  }

  // ----- named users -----

  datatype UserState = UserState(used: set<string>, byRule: map<string, string>, lines: seq<Directive>,
                          warnings: seq<Warning>)

  function UserRule(st: UserState, rule: PolicyRule): UserState {
    if !rule.identity.User? then st
    else
      var usernames := NonEmpty(Usernames(rule.identity.users));
      if usernames == [] then st.(warnings := st.warnings + [Warning(EmptyUserList, Some(rule.id))])
      else
        var name := TakeName(st.used, "scp_user_r" + DecimalInt(rule.position));
        UserState(st.used + {name}, st.byRule[rule.id := name],
                  st.lines + [Acl(name, ProxyAuthUsers(usernames))], st.warnings)
  }

  function UserRules(used: set<string>, rules: seq<PolicyRule>): UserState {
    if rules == [] then UserState(used, map[], [], [])
    else UserRule(UserRules(used, rules[..|rules| - 1]), rules[|rules| - 1])
  }

  method CompileUsers(names: NameAllocator, rules: seq<PolicyRule>)
    returns (byRule: map<string, string>, lines: seq<Directive>, warnings: seq<Warning>)
    modifies names
    ensures UserState(names.used, byRule, lines, warnings) == UserRules(old(names.used), rules)
  {
    byRule, lines, warnings := map[], [], [];
    for i := 0 to |rules|
      invariant UserState(names.used, byRule, lines, warnings) == UserRules(old(names.used), rules[..i])
    {
      assert rules[..i + 1][..i] == rules[..i];
      var rule := rules[i];
      if !rule.identity.User? { continue; }
      var usernames := NonEmpty(Usernames(rule.identity.users));
      if |usernames| == 0 {
        warnings := warnings + [Warning(EmptyUserList, Some(rule.id))];
        continue;
      }
      var aclName := names.Take("scp_user_r" + DecimalInt(rule.position));
      byRule := byRule[rule.id := aclName];
      lines := lines + [Acl(aclName, ProxyAuthUsers(usernames))];
    }
    assert rules[..|rules|] == rules;
  }

  // ----- destinations and schedules -----

  function ClampMinutes(minutes: int): int {
    if minutes < 0 then 0 else if minutes > 24 * 60 then 24 * 60 else minutes
  }

  datatype DestState = DestState(
    used: set<string>,
    destinations: map<string, seq<string>>,
    schedules: map<string, string>,
    destinationLines: seq<Directive>,
    scheduleLines: seq<Directive>,
    warnings: seq<Warning>)

  /** Allocates one destination ACL for a nonempty entry list. */
  function AddDestination(st: DestState, acls: seq<string>, base: string, test: AclTest,
                          present: bool): (DestState, seq<string>) {
    if !present then (st, acls)
    else
      var name := TakeName(st.used, base);
      (st.(used := st.used + {name}, destinationLines := st.destinationLines + [Acl(name, test)]), acls + [name])
  }

  function DestBase(rule: PolicyRule): string { "scp_dst_r" + DecimalInt(rule.position) }

  function RuleDestination(st: DestState, rule: PolicyRule): (DestState, seq<string>) {
    match rule.destination
    case AnyDestination => (st, [])
    case Specific(domains, cidrs, ports) =>
      var (s1, a1) := AddDestination(st, [], DestBase(rule) + "_dom",
                                     DstDomain(NonBlank(domains)), NonBlank(domains) != []);
      var (s2, a2) := AddDestination(s1, a1, DestBase(rule) + "_net", Dst(NonBlank(cidrs)), NonBlank(cidrs) != []);
      var (s3, a3) := AddDestination(s2, a2, DestBase(rule) + "_port", Port(ports), ports != []);
      var w1 := if NonBlank(domains) != [] && NonBlank(cidrs) != []
                then s3.warnings + [Warning(DestinationDomainAndNetwork, Some(rule.id))] else s3.warnings;
      var w2 := if a3 == [] then w1 + [Warning(EmptyDestination, Some(rule.id))] else w1;
      (s3.(warnings := w2), a3)
  }

  function DestRule(st: DestState, rule: PolicyRule): DestState {
    var (s, acls) := RuleDestination(st, rule);
    var d := s.(destinations := s.destinations[rule.id := acls]);
    match rule.schedule
    case Always => d
    case Window(days, start, end) =>
      var name := TakeName(d.used, "scp_time_r" + DecimalInt(rule.position));
      d.(used := d.used + {name}, schedules := d.schedules[rule.id := name],
         scheduleLines := d.scheduleLines + [Acl(name, Time(days, ClampMinutes(start), ClampMinutes(end)))])
  }

  function DestRules(used: set<string>, rules: seq<PolicyRule>): DestState {
    if rules == [] then DestState(used, map[], map[], [], [], [])
    else DestRule(DestRules(used, rules[..|rules| - 1]), rules[|rules| - 1])
  }

  method CompileDestination(names: NameAllocator, rule: PolicyRule, lines0: seq<Directive>, warnings0: seq<Warning>,
                          ghost st: DestState)
    returns (acls: seq<string>, lines: seq<Directive>, warnings: seq<Warning>)
    requires st.used == names.used && st.destinationLines == lines0 && st.warnings == warnings0
    modifies names
    ensures RuleDestination(st, rule)
         == (st.(used := names.used, destinationLines := lines, warnings := warnings), acls)
  {
    acls, lines, warnings := [], lines0, warnings0;
    if rule.destination == AnyDestination { return; }
    var domains := NonBlank(rule.destination.domains);
    var cidrs := NonBlank(rule.destination.cidrs);
    var ports := rule.destination.ports;
    if |domains| > 0 {
      var aclName := names.Take(DestBase(rule) + "_dom");
      lines, acls := lines + [Acl(aclName, DstDomain(domains))], acls + [aclName];
    }
    if |cidrs| > 0 {
      var aclName := names.Take(DestBase(rule) + "_net");
      lines, acls := lines + [Acl(aclName, Dst(cidrs))], acls + [aclName];
    }
    if |ports| > 0 {
      var aclName := names.Take(DestBase(rule) + "_port");
      lines, acls := lines + [Acl(aclName, Port(ports))], acls + [aclName];
    }
    if |domains| > 0 && |cidrs| > 0 {
      warnings := warnings + [Warning(DestinationDomainAndNetwork, Some(rule.id))];
    }
    if |acls| == 0 {
      warnings := warnings + [Warning(EmptyDestination, Some(rule.id))];
    }
  }

  method CompileDestinations(names: NameAllocator, rules: seq<PolicyRule>)
    returns (destinations: map<string, seq<string>>, schedules: map<string, string>,
             destinationLines: seq<Directive>, scheduleLines: seq<Directive>, warnings: seq<Warning>)
    modifies names
    ensures DestState(names.used, destinations, schedules, destinationLines, scheduleLines, warnings)
         == DestRules(old(names.used), rules)
  {
    destinations, schedules, destinationLines, scheduleLines, warnings := map[], map[], [], [], [];
    for i := 0 to |rules|
      invariant DestState(names.used, destinations, schedules, destinationLines, scheduleLines, warnings)
             == DestRules(old(names.used), rules[..i])
    {
      assert rules[..i + 1][..i] == rules[..i];
      var rule := rules[i];
      ghost var st := DestState(names.used, destinations, schedules, destinationLines, scheduleLines, warnings);
      var acls;
      acls, destinationLines, warnings := CompileDestination(names, rule, destinationLines, warnings, st);
      destinations := destinations[rule.id := acls];
      if rule.schedule.Window? {
        var aclName := names.Take("scp_time_r" + DecimalInt(rule.position));
        scheduleLines := scheduleLines
          + [Acl(aclName, Time(rule.schedule.days,
                               ClampMinutes(rule.schedule.startMinutes), ClampMinutes(rule.schedule.endMinutes)))];
        schedules := schedules[rule.id := aclName];
      }
    }
    assert rules[..|rules|] == rules;
  }

  // ----- listeners -----

  datatype ListenerState = ListenerState(used: set<string>, out: seq<Directive>, authPorts: seq<Directive>,
                          guards: seq<Directive>)

  function PortName(l: Listener): string { Slug(if l.key != "" then l.key else l.name) }

  function SourceCidrs(l: Listener): seq<string> { NonEmpty(AllCidrs(l.sourceNetworks)) }

  function ListenerStep(st: ListenerState, l: Listener): ListenerState {
    if !l.enabled then st
    else
      var port := PortName(l);
      var acl := TakeName(st.used, "scp_lp_" + port);
      var s1 := st.(used := st.used + {acl},
                    out := st.out + [HttpPort(port, l.address, l.port), Acl(acl, MyPortName(port))]);
      var cidrs := SourceCidrs(l);
      var s2 :=
        if cidrs == [] then s1
        else
          var srcAcl := TakeName(s1.used, "scp_lpsrc_" + port);
          s1.(used := s1.used + {srcAcl}, out := s1.out + [Acl(srcAcl, Src(cidrs))],
              guards := s1.guards + [HttpAccess(Deny, [Term(false, acl), Term(true, srcAcl)])]);
      var s3 := if l.authentication == Disabled then s2
                else s2.(authPorts := s2.authPorts + [Acl(AUTH_PORTS_ACL, MyPortName(port))]);
      if l.authentication == Required
      then s3.(guards := s3.guards + [HttpAccess(Deny, [Term(false, acl), Term(true, AUTHENTICATED_ACL)])])
      else s3
  }

  function ListenerSteps(used: set<string>, listeners: seq<Listener>): ListenerState {
    if listeners == [] then ListenerState(used, [], [], [])
    else ListenerStep(ListenerSteps(used, listeners[..|listeners| - 1]), listeners[|listeners| - 1])
  }

  method CompileListeners(names: NameAllocator, listeners: seq<Listener>)
    returns (out: seq<Directive>, authPorts: seq<Directive>, guards: seq<Directive>)
    modifies names
    ensures ListenerState(names.used, out, authPorts, guards) == ListenerSteps(old(names.used), listeners)
  {
    out, authPorts, guards := [], [], [];
    for i := 0 to |listeners|
      invariant ListenerState(names.used, out, authPorts, guards) == ListenerSteps(old(names.used), listeners[..i])
    {
      assert listeners[..i + 1][..i] == listeners[..i];
      var l := listeners[i];
      if !l.enabled { continue; }
      var portName := PortName(l);
      var aclName := names.Take("scp_lp_" + portName);
      out := out + [HttpPort(portName, l.address, l.port), Acl(aclName, MyPortName(portName))];
      var cidrs := SourceCidrs(l);
      if |cidrs| > 0 {
        var srcAcl := names.Take("scp_lpsrc_" + portName);
        out := out + [Acl(srcAcl, Src(cidrs))];
        guards := guards + [HttpAccess(Deny, [Term(false, aclName), Term(true, srcAcl)])];
      }
      if l.authentication != Disabled {
        authPorts := authPorts + [Acl(AUTH_PORTS_ACL, MyPortName(portName))];
      }
      if l.authentication == Required {
        guards := guards + [HttpAccess(Deny, [Term(false, aclName), Term(true, AUTHENTICATED_ACL)])];
      }
    }
    assert listeners[..|listeners|] == listeners;
  }

  // ----- access rules -----

  datatype RuleContext = RuleContext(
    mode: AuthMode,
    guarded: bool,
    networks: map<string, seq<string>>,
    groups: map<string, string>,
    users: map<string, string>,
    destinations: map<string, seq<string>>,
    schedules: map<string, string>)

  function GroupAcls(refs: seq<GroupRef>, groups: map<string, string>): seq<string> {
    if refs == [] then []
    else
      var key := AclKey(refs[0]);
      (if key in groups && groups[key] != "" then [groups[key]] else []) + GroupAcls(refs[1..], groups)
  }

  /** The identity terms of a rule, or None when its identity condition can never match. */
  function IdentityTerms(rule: PolicyRule, c: RuleContext): Option<seq<string>> {
    match rule.identity
    case AnyIdentity => Some([])
    case Authenticated => if c.mode == Disabled then None else Some([AUTHENTICATED_ACL])
    case Unauthenticated => if c.mode == Required then None else Some([])
    case User(_) => if c.mode == Disabled || rule.id !in c.users then None else Some([c.users[rule.id]])
    case Group(groups) =>
      var acls := GroupAcls(ExpandGroupRefs(groups), c.groups);
      if c.mode == Disabled || acls == [] then None else Some(acls)
  }

  function IdentityWarnings(rule: PolicyRule, mode: AuthMode): seq<Warning> {
    if rule.identity.NeedsIdentity() && mode == Disabled then [Warning(IdentityRuleWithoutAuth, Some(rule.id))]
    else if rule.identity.Unauthenticated? && mode == Required then
      [Warning(UnauthenticatedRuleInRequiredMode, Some(rule.id))]
    else if rule.identity.Unauthenticated? && mode == Optional then [Warning(UnauthenticatedWidened, Some(rule.id))]
    else []
  }

  function PositiveTerms(names: seq<string>): (r: seq<Term>)
    ensures |r| == |names|
  {
    seq(|names|, i requires 0 <= i < |names| => Term(false, names[i]))
  }

  function AccessLine(verb: Action, names: seq<string>): Directive {
    var terms := Dedupe(names);
    HttpAccess(verb, if |terms| > 0 then PositiveTerms(terms) else [Term(false, ALL)])
  }

  /** Several groups are a disjunction, which becomes one line per group. */
  function AccessLines(rule: PolicyRule, source: seq<string>, identity: seq<string>,
                       rest: seq<string>): seq<Directive> {
    if rule.identity.Group? && |identity| > 1 then
      seq(|identity|, i requires 0 <= i < |identity| => AccessLine(rule.action, source + [identity[i]] + rest))
    else [AccessLine(rule.action, source + identity + rest)]
  }

  function SourceTerms(rule: PolicyRule, c: RuleContext): seq<string> {
    (if rule.identity.NeedsIdentity() && c.guarded then [AUTH_PORTS_ACL] else [])
    + (if rule.id in c.networks then c.networks[rule.id] else [])
  }

  function RestTerms(rule: PolicyRule, c: RuleContext): seq<string> {
    (if rule.id in c.destinations then c.destinations[rule.id] else [])
    + (if rule.id in c.schedules then [c.schedules[rule.id]] else [])
  }

  function RuleLines(rule: PolicyRule, c: RuleContext): seq<Directive> {
    if !rule.enabled then []
    else
      match IdentityTerms(rule, c)
      case None => []
      case Some(identity) => AccessLines(rule, SourceTerms(rule, c), identity, RestTerms(rule, c))
  }

  datatype RuleState = RuleState(out: seq<Directive>, warnings: seq<Warning>, sawAuthenticated: bool)

  function RuleStep(st: RuleState, rule: PolicyRule, c: RuleContext): RuleState {
    if !rule.enabled then st
    else
      var s := st.(warnings := st.warnings + IdentityWarnings(rule, c.mode));
      if IdentityTerms(rule, c).None? then s
      else
        var order :=
          if c.mode == Optional && rule.identity.Unauthenticated? && st.sawAuthenticated
          then [Warning(OptionalModeRuleOrder, Some(rule.id))] else [];
        RuleState(s.out + RuleLines(rule, c), s.warnings + order, st.sawAuthenticated || rule.identity.NeedsIdentity())
  }

  function RuleSteps(rules: seq<PolicyRule>, c: RuleContext): RuleState {
    if rules == [] then RuleState([], [], false)
    else RuleStep(RuleSteps(rules[..|rules| - 1], c), rules[|rules| - 1], c)
  }

  method CompileRules(rules: seq<PolicyRule>, c: RuleContext) returns (out: seq<Directive>, warnings: seq<Warning>)
    ensures out == RuleSteps(rules, c).out && warnings == RuleSteps(rules, c).warnings
  {
    var sawAuthenticated := false;
    out, warnings := [], [];
    for i := 0 to |rules|
      invariant RuleState(out, warnings, sawAuthenticated) == RuleSteps(rules[..i], c)
    {
      assert rules[..i + 1][..i] == rules[..i];
      var rule := rules[i];
      if !rule.enabled { continue; }
      warnings := warnings + IdentityWarnings(rule, c.mode);
      var identityTerms := IdentityTerms(rule, c);
      if identityTerms.None? { continue; }
      if c.mode == Optional && rule.identity.Unauthenticated? && sawAuthenticated {
        warnings := warnings + [Warning(OptionalModeRuleOrder, Some(rule.id))];
      }
      if rule.identity.NeedsIdentity() { sawAuthenticated := true; }
      out := out + AccessLines(rule, SourceTerms(rule, c), identityTerms.value, RestTerms(rule, c));
    }
    assert rules[..|rules|] == rules;
  }

  // ----- the whole configuration -----

  const BASELINE: seq<Directive> := [
    Acl("SSL_ports", Port([443])),
    Acl("Safe_ports", Port([80])),
    Acl("Safe_ports", Port([21])),
    Acl("Safe_ports", Port([443])),
    Acl("Safe_ports", Port([70])),
    Acl("Safe_ports", Port([210])),
    Acl("Safe_ports", PortRange(1025, 65535)),
    Acl("Safe_ports", Port([280])),
    Acl("Safe_ports", Port([488])),
    Acl("Safe_ports", Port([591])),
    Acl("Safe_ports", Port([777])),
    Acl("CONNECT", MethodConnect)]

  const BASELINE_ACCESS: seq<Directive> := [
    HttpAccess(Deny, [Term(true, "Safe_ports")]),
    HttpAccess(Deny, [Term(false, "CONNECT"), Term(true, "SSL_ports")]),
    HttpAccess(Allow, [Term(false, LOCALHOST), Term(false, MANAGER)]),
    HttpAccess(Deny, [Term(false, MANAGER)])]

  function ProviderKeys(providers: seq<Provider>): seq<string> {
    seq(|providers|, i requires 0 <= i < |providers| => providers[i].key)
  }

  function AuthLines(enabled: bool, providers: seq<Provider>): seq<Directive> {
    if !enabled || providers == [] then []
    else [AuthProgram(ProviderKeys(providers)), Acl(AUTHENTICATED_ACL, ProxyAuthRequired)]
  }

  function AuthWarnings(enabled: bool, providers: seq<Provider>): seq<Warning> {
    if !enabled then if providers == [] then [] else [Warning(ProvidersIgnored, None)]
    else if providers == [] then [Warning(NoProvider, None)]
    else if |providers| > 1 then [Warning(MultiProviderHelper, None)]
    else []
  }

  datatype Phases = Phases(nets: NetResult, groups: GroupState, users: UserState, dests: DestState,
                          listeners: ListenerState)

  /** The phases in order, each starting from the names its predecessor left in use. */
  function RunPhases(ir: ConfigurationIr): Phases {
    var rules, providers := SortRules(ir.rules), SortProviders(ir.authentication.providers);
    var nets := NetRules({}, rules);
    var groups := GroupRules(ir.authentication, providers, nets.st.used, if AuthEnabled(ir) then rules else []);
    var users := UserRules(groups.used, if AuthEnabled(ir) then rules else []);
    var dests := DestRules(users.used, rules);
    Phases(nets, groups, users, dests, ListenerSteps(dests.used, ir.listeners))
  }

  predicate Guarded(ir: ConfigurationIr, listeners: ListenerState) {
    0 < |listeners.authPorts| < |ActiveListeners(ir.listeners)|
  }

  function ContextOf(ir: ConfigurationIr, p: Phases): RuleContext {
    RuleContext(EffectiveMode(ir), Guarded(ir, p.listeners), p.nets.byRule, p.groups.acl, p.users.byRule,
                p.dests.destinations, p.dests.schedules)
  }

  datatype Compiled = Compiled(squidConf: seq<Directive>, warnings: seq<Warning>)

  /** The ACL definitions of the configuration, in the order of the file. */
  function Definitions(ir: ConfigurationIr, p: Phases): seq<Directive> {
    AuthLines(AuthEnabled(ir), SortProviders(ir.authentication.providers))
    + p.nets.st.lines + p.groups.lines + p.users.lines + p.dests.destinationLines + p.dests.scheduleLines
    + p.listeners.out + (if Guarded(ir, p.listeners) then p.listeners.authPorts else [])
  }

  function DefaultLine(defaultAccess: Action): Directive { HttpAccess(defaultAccess, [Term(false, ALL)]) }

  function Compile(ir: ConfigurationIr): Compiled {
    var p := RunPhases(ir);
    var rules := RuleSteps(SortRules(ir.rules), ContextOf(ir, p));
    Compiled(
      [Generated(ir.generatedAt)] + BASELINE + BASELINE_ACCESS + Definitions(ir, p)
      + p.listeners.guards + rules.out + [DefaultLine(ir.defaultAccess)],
      AuthWarnings(AuthEnabled(ir), SortProviders(ir.authentication.providers))
      + p.nets.st.warnings + p.groups.warnings + p.users.warnings + p.dests.warnings
      + (if ActiveListeners(ir.listeners) == [] then [Warning(NoListener, None)] else []) + rules.warnings)
  }

  method CompileConfiguration(ir: ConfigurationIr) returns (compiled: Compiled)
    ensures compiled == Compile(ir)
  {
    var names := new NameAllocator();
    var active := ActiveListeners(ir.listeners);
    var authEnabled := AuthEnabled(ir);
    var providers := SortProviders(ir.authentication.providers);
    var rules := SortRules(ir.rules);
    var out := [Generated(ir.generatedAt)] + BASELINE + BASELINE_ACCESS;
    var warnings := AuthWarnings(authEnabled, providers);
    var defs := AuthLines(authEnabled, providers);

    var networks, emitted, netLines, netWarnings := CompileNetworks(names, rules);
    defs, warnings := defs + netLines, warnings + netWarnings;

    var groupAcl, groupLines, types, groupWarnings :=
      CompileGroups(ir.authentication, providers, names, if authEnabled then rules else []);
    defs, warnings := defs + groupLines, warnings + groupWarnings;

    var userAcl, userLines, userWarnings := CompileUsers(names, if authEnabled then rules else []);
    defs, warnings := defs + userLines, warnings + userWarnings;

    var destinations, schedules, destinationLines, scheduleLines, destWarnings := CompileDestinations(names, rules);
    defs, warnings := defs + destinationLines + scheduleLines, warnings + destWarnings;

    var listenerOut, authPorts, guards := CompileListeners(names, ir.listeners);
    warnings := warnings + if |active| == 0 then [Warning(NoListener, None)] else [];
    var guarded := 0 < |authPorts| < |active|;
    defs := defs + listenerOut + if guarded then authPorts else [];

    var c := RuleContext(EffectiveMode(ir), guarded, networks, groupAcl, userAcl, destinations, schedules);
    var ruleLines, ruleWarnings := CompileRules(rules, c);
    compiled := Compiled(out + defs + guards + ruleLines + [DefaultLine(ir.defaultAccess)], warnings + ruleWarnings);
  }
}
