/** When Squid's reading of a rule is the engine's: the exact conditions on sources, destinations
    and group keys, and the decisions of the compiled file against the engine, listener by
    listener. */
module Faithful {
  import opened Text
  import opened Bits
  import opened Ir
  import opened IpText
  import opened IpRoundTrip
  import opened IpRanges
  import opened Engine
  import opened Names
  import opened Squid
  import opened Compiler
  import opened CompilerTests
  import opened GroupKeys
  import opened SquidReading
  import opened CompiledRules
  import opened CompilerCorrect

  // ----- sources: the engine takes any network, Squid demands all -----

  predicate IsLive(n: Network) { NonBlank(n.cidrs) != [] }

  ghost predicate ValidAddress(a: IpAddress) { a.value < Pow2(BitsOf(a.family)) }

  ghost predicate SameCoverage(m: seq<string>, n: seq<string>) {
    forall a: IpAddress :: ValidAddress(a) ==> (IpInAnyCidr(a, m) <==> IpInAnyCidr(a, n))
  }

  /** The first address of the block an entry denotes, and the first address after it. */
  function EdgesOf(text: string): set<IpAddress> {
    match ParseCidr(text)
    case None => {}
    case Some(c) =>
      {IpAddress(c.family, c.base)}
      + if c.base + CidrSize(c) < Pow2(BitsOf(c.family)) then {IpAddress(c.family, c.base + CidrSize(c))} else {}
  }

  function Edges(cidrs: seq<string>): set<IpAddress> { set text, e | text in cidrs && e in EdgesOf(text) :: e }

  /** The two lists agree on the finitely many addresses where one of their blocks begins or has ended. */
  predicate SameOnEdges(m: seq<string>, n: seq<string>) {
    forall e :: e in Edges(m) + Edges(n) ==> (IpInAnyCidr(e, m) <==> IpInAnyCidr(e, n))
  }

  lemma EdgesAreValid(text: string)
    ensures forall e :: e in EdgesOf(text) ==> ValidAddress(e)
  {
    if ParseCidr(text).Some? { ParsedCidrIsValid(text); }
    hide ParseCidr, CidrSize, Pow2;
  }

  lemma ValidBlockEndsAtEdges(c: Cidr, a: IpAddress)
    requires ValidCidr(c) && ValidAddress(a) && a.value > 0
    requires a.family == c.family ==> a.value != c.base && a.value != c.base + CidrSize(c)
    ensures CidrContains(c, a) <==> CidrContains(c, a.(value := a.value - 1))
  {
    var before := a.(value := a.value - 1);
    hide CidrContains, Pow2, ValidCidr, CidrSize;
    ContainsIsInterval(c, a);
    ContainsIsInterval(c, before);
  }

  lemma NotAtAnEdge(text: string, a: IpAddress)
    requires ParseCidr(text).Some? && ValidAddress(a) && a !in EdgesOf(text)
    ensures var c := ParseCidr(text).value;
            a.family == c.family ==> a.value != c.base && a.value != c.base + CidrSize(c)
  {
    hide ParseCidr, Pow2, CidrSize;
    var c := ParseCidr(text).value;
    if a.family == c.family { assert a == IpAddress(c.family, a.value); }
  }

  lemma BlockEndsAtEdges(text: string, a: IpAddress)
    requires ParseCidr(text).Some? && ValidAddress(a) && a !in EdgesOf(text)
    ensures var c := ParseCidr(text).value;
            CidrContains(c, a) <==> a.value > 0 && CidrContains(c, a.(value := a.value - 1))
  {
    ParsedCidrIsValid(text);
    NotAtAnEdge(text, a);
    hide ParseCidr, CidrContains, Pow2, CidrSize, EdgesOf, ValidCidr;
    var c := ParseCidr(text).value;
    if a.value > 0 {
      ValidBlockEndsAtEdges(c, a);
    } else {
      ContainsIsInterval(c, a);
      assert c.base >= 0;
    }
  }

  lemma CoverageEndsAtEdges(cidrs: seq<string>, a: IpAddress)
    requires ValidAddress(a) && a !in Edges(cidrs)
    ensures IpInAnyCidr(a, cidrs) <==> a.value > 0 && IpInAnyCidr(a.(value := a.value - 1), cidrs)
  {
    hide ParseCidr, CidrContains, EdgesOf, ValidAddress;
    forall text | text in cidrs && ParseCidr(text).Some?
      ensures var c := ParseCidr(text).value;
              CidrContains(c, a) <==> a.value > 0 && CidrContains(c, a.(value := a.value - 1))
    {
      BlockEndsAtEdges(text, a);
    }
  }

  lemma {:induction false} SameFromEdges(m: seq<string>, n: seq<string>, a: IpAddress)
    requires SameOnEdges(m, n) && ValidAddress(a)
    ensures IpInAnyCidr(a, m) <==> IpInAnyCidr(a, n)
    decreases a.value
  {
    hide Edges, IpInAnyCidr;
    if a !in Edges(m) + Edges(n) {
      CoverageEndsAtEdges(m, a);
      CoverageEndsAtEdges(n, a);
      if a.value > 0 { SameFromEdges(m, n, a.(value := a.value - 1)); }
    }
  }

  /** Agreeing on those addresses is covering the same addresses out of all 2^32 and 2^128. */
  lemma SameOnEdgesIs(m: seq<string>, n: seq<string>)
    ensures SameOnEdges(m, n) <==> SameCoverage(m, n)
  {
    hide EdgesOf, ValidAddress, IpInAnyCidr;
    if SameOnEdges(m, n) {
      forall a: IpAddress | ValidAddress(a) ensures IpInAnyCidr(a, m) <==> IpInAnyCidr(a, n) { SameFromEdges(m, n, a); }
    }
    forall text ensures forall e :: e in EdgesOf(text) ==> ValidAddress(e) { EdgesAreValid(text); }
  }

  /** Some network has an entry, and the networks with entries agree on the edges of their blocks.
      One network with an entry is the usual case. */
  predicate SourceFaithful(matcher: SourceMatcher) {
    matcher.AnySource? ||
    ((exists n :: n in matcher.networks && IsLive(n)) &&
     forall m, n :: m in matcher.networks && n in matcher.networks && IsLive(m) && IsLive(n)
       ==> SameOnEdges(m.cidrs, n.cidrs))
  }

  lemma BlankEntriesMatchNothing(a: IpAddress, cidrs: seq<string>)
    ensures IpInAnyCidr(a, NonBlank(cidrs)) <==> IpInAnyCidr(a, cidrs)
  {
    hide CidrContains;
    forall text | text in cidrs && IsBlank(text) ensures ParseCidr(text).None? {}
    hide ParseCidr, IsBlank;
  }

  lemma ParsedAddress(sourceIp: string)
    requires ParseIp(sourceIp).Some?
    ensures ValidAddress(ParseIp(sourceIp).value)
  {
    ParsedIpFits(sourceIp);
  }

  lemma ReadsSourceIs(matcher: SourceMatcher, sourceIp: string)
    requires matcher.Networks?
    ensures ReadsSource(matcher, sourceIp)
       <==> forall n :: n in matcher.networks && IsLive(n) ==>
              ParseIp(sourceIp).Some? && IpInAnyCidr(ParseIp(sourceIp).value, n.cidrs)
    ensures MatchesSource(matcher, sourceIp)
       <==> ParseIp(sourceIp).Some? && exists n ::
              n in matcher.networks && IsLive(n) && IpInAnyCidr(ParseIp(sourceIp).value, n.cidrs)
  {
    hide ParseIp, NonBlank, IpInAnyCidr;
    if ParseIp(sourceIp).Some? {
      var a := ParseIp(sourceIp).value;
      forall n | n in matcher.networks
        ensures IpInAnyCidr(a, NonBlank(n.cidrs)) <==> IpInAnyCidr(a, n.cidrs)
        ensures IpInAnyCidr(a, n.cidrs) ==> IsLive(n)
      {
        BlankEntriesMatchNothing(a, n.cidrs);
        NothingMatches(a);
      }
    }
  }

  lemma NothingMatches(a: IpAddress)
    ensures !IpInAnyCidr(a, [])
  {
  }

  /** The compiled source means the engine's source for every address, exactly when it is faithful. */
  lemma SourceAgreesExactly(matcher: SourceMatcher)
    ensures (forall ip :: ReadsSource(matcher, ip) <==> MatchesSource(matcher, ip)) <==> SourceFaithful(matcher)
  {
    hide ParseIp, NonBlank, IpInAnyCidr, ReadsSource, MatchesSource, ValidAddress, IsLive, Edges;
    if matcher.AnySource? {
      forall ip ensures ReadsSource(matcher, ip) <==> MatchesSource(matcher, ip) { AnySourceAgrees(matcher, ip); }
    } else if SourceFaithful(matcher) {
      forall m, n | m in matcher.networks && n in matcher.networks && IsLive(m) && IsLive(n)
        ensures SameCoverage(m.cidrs, n.cidrs)
      {
        SameOnEdgesIs(m.cidrs, n.cidrs);
      }
      forall ip ensures ReadsSource(matcher, ip) <==> MatchesSource(matcher, ip) {
        ReadsSourceIs(matcher, ip);
        if ParseIp(ip).Some? { ParsedAddress(ip); }
      }
    } else {
      SourceDisagrees(matcher);
    }
  }

  lemma AnySourceAgrees(matcher: SourceMatcher, ip: string)
    requires matcher.AnySource?
    ensures ReadsSource(matcher, ip) && MatchesSource(matcher, ip)
  {
  }

  lemma SourceDisagrees(matcher: SourceMatcher)
    requires !SourceFaithful(matcher)
    ensures exists ip :: ReadsSource(matcher, ip) != MatchesSource(matcher, ip)
  {
    hide ParseIp, NonBlank, IpInAnyCidr, ReadsSource, MatchesSource, FormatIp, IsLive, SameOnEdges;
    if !exists n :: n in matcher.networks && IsLive(n) {
      var ip := "";
      ReadsSourceIs(matcher, ip);
      assert ReadsSource(matcher, ip) && !MatchesSource(matcher, ip);
    } else {
      var m, n :| m in matcher.networks && n in matcher.networks && IsLive(m) && IsLive(n)
                  && !SameOnEdges(m.cidrs, n.cidrs);
      SameOnEdgesIs(m.cidrs, n.cidrs);
      var a: IpAddress :| ValidAddress(a) && IpInAnyCidr(a, m.cidrs) != IpInAnyCidr(a, n.cidrs);
      var ip := FormatIp(a.family, a.value);
      FormattedIp(a.family, a.value);
      ReadsSourceIs(matcher, ip);
      assert !ReadsSource(matcher, ip) && MatchesSource(matcher, ip);
    }
  }

  /** With no entry at all, the rule the engine never matches applies to every client. */
  lemma EmptySourceMatchesEveryone(networks: seq<Network>, ip: string)
    requires forall n :: n in networks ==> !IsLive(n)
    ensures ReadsSource(Networks(networks), ip) && !MatchesSource(Networks(networks), ip)
  {
    ReadsSourceIs(Networks(networks), ip);
  }

  // ----- destinations: the engine takes either kind, Squid demands both -----

  /** The rule names domains and networks: what the compiler warns about. */
  predicate BothKinds(matcher: DestinationMatcher) {
    matcher.Specific? && NonBlank(matcher.domains) != [] && NonBlank(matcher.cidrs) != []
  }

  /** Host entries of one kind only, or no entries at all. */
  predicate DestinationFaithful(matcher: DestinationMatcher) {
    match matcher
    case AnyDestination => true
    case Specific(domains, cidrs, ports) =>
      !BothKinds(matcher) && (NonBlank(domains) == [] && NonBlank(cidrs) == [] ==> domains == [] && cidrs == [])
  }

  lemma BlankDomainsMatchNothing(host: string, domains: seq<string>)
    ensures MatchesDomain(host, NonBlank(domains)) <==> MatchesDomain(host, domains)
    ensures NonBlank(domains) == [] ==> !MatchesDomain(host, domains)
  {
    var target := DropTrailingDot(Lower(host));
    forall raw | raw in domains && IsBlank(raw) ensures !MatchesEntry(target, raw) {}
    hide MatchesEntry, IsBlank;
    if raw :| raw in domains && MatchesEntry(target, raw) {
      assert raw in NonBlank(domains);
    }
  }

  lemma BlankHostCidrs(host: string, cidrs: seq<string>)
    ensures HostInCidrs(host, NonBlank(cidrs)) <==> HostInCidrs(host, cidrs)
    ensures NonBlank(cidrs) == [] ==> !HostInCidrs(host, cidrs)
  {
    hide ParseIp, IpInAnyCidr, NonBlank;
    if ParseIp(host).Some? {
      BlankEntriesMatchNothing(ParseIp(host).value, cidrs);
      NothingMatches(ParseIp(host).value);
    }
  }

  predicate PortHolds(ports: seq<int>, port: Option<int>) { ports == [] || (port.Some? && port.value in ports) }

  lemma DestinationSides(domains: seq<string>, cidrs: seq<string>, ports: seq<int>, host: Option<string>,
                         port: Option<int>)
    ensures ReadsDestination(Specific(domains, cidrs, ports), host, port)
       <==> PortHolds(ports, port)
            && (NonBlank(domains) != [] ==> HostHolds(host) && MatchesDomain(host.value, domains))
            && (NonBlank(cidrs) != [] ==> HostHolds(host) && HostInCidrs(host.value, cidrs))
    ensures MatchesDestination(Specific(domains, cidrs, ports), host, port)
       <==> PortHolds(ports, port)
            && ((domains == [] && cidrs == [])
                || (HostHolds(host) && (MatchesDomain(host.value, domains) || HostInCidrs(host.value, cidrs))))
    ensures HostHolds(host) && NonBlank(domains) == [] ==> !MatchesDomain(host.value, domains)
    ensures HostHolds(host) && NonBlank(cidrs) == [] ==> !HostInCidrs(host.value, cidrs)
  {
    hide MatchesDomain, HostInCidrs, NonBlank;
    if HostHolds(host) {
      BlankDomainsMatchNothing(host.value, domains);
      BlankHostCidrs(host.value, cidrs);
    }
  }

  // A host that an entry of the domain list matches and that is no address: the entry with a dot behind it.

  lemma {:induction false} TrimStartKeepsEnd(s: string, c: char)
    requires !IsBlankChar(c)
    ensures TrimStart(s + [c]) == TrimStart(s) + [c]
  {
    if s != "" && IsBlankChar(s[0]) {
      assert (s + [c])[1..] == s[1..] + [c];
      TrimStartKeepsEnd(s[1..], c);
    }
  }

  lemma {:induction false} EmptyOctet(parts: seq<string>, value: nat)
    requires "" in parts
    ensures FoldOctets(parts, value).None?
  {
    hide ShiftLeft, Or;
    if OctetOf(parts[0]).Some? { EmptyOctet(parts[1..], Or(ShiftLeft(value, 8), OctetOf(parts[0]).value)); }
  }

  lemma EndsInEmptyPart(s: string)
    ensures "" in Split(s + ".", '.')
  {
    SplitAppend(s, "", '.');
    assert s + ['.'] + "" == s + "." && Split("", '.')[0] == "";
  }

  lemma {:induction false} LastPieceEnds(s: string, c: char)
    requires s != "" && s[|s| - 1] == c && c != ':'
    ensures var last := Split(s, ':')[|Split(s, ':')| - 1]; c in last
    decreases |s|
  {
    var i := IndexOf(s, ':');
    if i < |s| { LastPieceEnds(s[i + 1..], c); }
  }

  lemma DottedEndIsNoGroup(text: string, groups: seq<string>)
    requires text != "" && text[|text| - 1] == '.' && |Split(text, ':')| <= |groups|
    requires groups[|groups| - |Split(text, ':')|..] == Split(text, ':')
    ensures !AllHextets(groups)
  {
    LastPieceEnds(text, '.');
    var pieces := Split(text, ':');
    hide Split;
    assert groups[|groups| - 1] == pieces[|pieces| - 1];
    assert '.' in groups[|groups| - 1] && groups[|groups| - 1] in groups;
  }

  lemma DottedEndHasNoGroups(text: string)
    requires text != "" && text[|text| - 1] == '.'
    ensures FullGroups(text).None?
  {
    var double := FirstDouble(text);
    hide Split, Zeros, FirstDouble, LastDouble, AllHextets;
    if double == |text| {
      var groups := Split(text, ':');
      assert groups + [] == groups;
      DottedEndIsNoGroup(text, groups);
    } else {
      var groups := Pieces(text[..double]) + Split(text[double + 2..], ':');
      DottedEndIsNoGroup(text[double + 2..], groups);
    }
  }

  lemma DottedEndIsNoTail(text: string)
    requires text != "" && text[|text| - 1] == '.' && ':' in text
    ensures ExpandIpv4Tail(text) == Some(text)
  {
    var tail := text[LastIndexOf(text, ':') + 1..];
    assert tail == tail[..|tail| - 1] + ".";
    EndsInEmptyPart(tail[..|tail| - 1]);
    hide Split, Ipv4Value;
    assert !IsShortDecimal("");
  }

  lemma DottedEndIsNoIp(s: string)
    ensures ParseIp(s + ".").None?
  {
    TrimStartKeepsEnd(s, '.');
    var text := Trim(s + ".");
    assert text == TrimStart(s) + ".";
    hide FullGroups, Split, Trim;
    if ':' in text {
      DottedEndIsNoTail(text);
      DottedEndHasNoGroups(text);
    } else {
      EndsInEmptyPart(TrimStart(s));
      EmptyOctet(Split(text, '.'), 0);
    }
  }

  lemma EntryMatchesItself(raw: string)
    requires !IsBlank(raw)
    ensures MatchesEntry(DropTrailingDot(Lower(Lower(Trim(raw)) + ".")), raw)
  {
    var entry := Lower(Trim(raw));
    assert Lower(entry + ".") == entry + ".";
    assert DropTrailingDot(entry + ".") == entry;
  }

  /** With entries of both kinds some host is matched by the engine and not by Squid. */
  lemma BothKindsDisagree(matcher: DestinationMatcher)
    requires BothKinds(matcher)
    ensures exists host, port :: MatchesDestination(matcher, host, port) && !ReadsDestination(matcher, host, port)
  {
    hide ReadsDestination, MatchesDestination, MatchesEntry, Trim, ParseIp;
    var raw := NonBlank(matcher.domains)[0];
    assert raw in NonBlank(matcher.domains);
    hide NonBlank, IsBlank;
    var host := Lower(Trim(raw)) + ".";
    var port := if matcher.ports == [] then None else Some(matcher.ports[0]);
    EntryMatchesItself(raw);
    DottedEndIsNoIp(Lower(Trim(raw)));
    DestinationSides(matcher.domains, matcher.cidrs, matcher.ports, Some(host), port);
    assert MatchesDestination(matcher, Some(host), port) && !ReadsDestination(matcher, Some(host), port);
  }

  /** The compiled destination means the engine's for every host and port, exactly when it is faithful. */
  lemma DestinationAgreesExactly(matcher: DestinationMatcher)
    ensures (forall host, port :: ReadsDestination(matcher, host, port) <==> MatchesDestination(matcher, host, port))
       <==> DestinationFaithful(matcher)
  {
    hide MatchesDomain, HostInCidrs, ReadsDestination, MatchesDestination;
    match matcher
    case AnyDestination => AnyDestinationAgrees();
    case Specific(domains, cidrs, ports) =>
      forall host, port | DestinationFaithful(matcher)
        ensures ReadsDestination(matcher, host, port) <==> MatchesDestination(matcher, host, port)
      {
        DestinationSides(domains, cidrs, ports, host, port);
        NonBlankNothing(domains);
        NonBlankNothing(cidrs);
      }
      if BothKinds(matcher) {
        BothKindsDisagree(matcher);
      } else if !DestinationFaithful(matcher) {
        var port := if ports == [] then None else Some(ports[0]);
        DestinationSides(domains, cidrs, ports, None, port);
        assert ReadsDestination(matcher, None, port) != MatchesDestination(matcher, None, port);
      }
  }

  lemma NonBlankNothing(entries: seq<string>)
    ensures NonBlank(entries) != [] ==> entries != []
  {
  }

  lemma AnyDestinationAgrees()
    ensures forall host, port ::
              ReadsDestination(AnyDestination, host, port) && MatchesDestination(AnyDestination, host, port)
  {
  }

  // ----- schedules -----

  predicate ValidMoment(at: Moment) { at.day < 7 && at.hours < 24 && at.minutes < 60 }

  /** The window names a day, or is empty once its bounds are clamped to the day. */
  predicate ScheduleFaithful(matcher: ScheduleMatcher) {
    matcher.Window? ==> matcher.days != [] || ClampMinutes(matcher.startMinutes) == ClampMinutes(matcher.endMinutes)
  }

  /** For windows that start before they end the compiled window means the engine's at every moment
      exactly when it is faithful: clamping changes nothing, and a missing day list everything. */
  lemma ScheduleAgreesExactly(matcher: ScheduleMatcher)
    requires matcher.Window? ==> matcher.startMinutes <= matcher.endMinutes
    ensures (forall at :: ValidMoment(at) ==> (ReadsSchedule(matcher, at) <==> MatchesSchedule(matcher, at)))
       <==> ScheduleFaithful(matcher)
  {
    if matcher.Window? && matcher.days == [] {
      var start := ClampMinutes(matcher.startMinutes);
      if start < ClampMinutes(matcher.endMinutes) {
        var at := Moment(0, start / 60, start % 60);
        assert ValidMoment(at) && ReadsSchedule(matcher, at) && !MatchesSchedule(matcher, at);
      }
    }
  }

  // ----- identities -----

  predicate KeysApart(a: Option<string>, b: Option<string>) {
    a.Some? && b.Some? && Upper(a.value) == Upper(b.value) ==> a == b
  }

  /** The provider keys of the external groups among the references. */
  function ExternalKeys(groups: seq<GroupRef>): set<string> {
    set g | g in groups && g.source == External && g.providerKey.Some? :: g.providerKey.value
  }

  /** The groups a client holds agree with the local memberships and the enabled LDAP providers, and
      group keys tell them and the groups of the rules apart. */
  ghost predicate CoherentIdentity(ir: ConfigurationIr, identity: RequestIdentity) {
    var providers, asked := SortProviders(ir.authentication.providers), GroupsOf(SortRules(ir.rules));
    && TellableKeys(ExternalKeys(asked + identity.groups))
    && (forall h :: h in identity.groups ==>
          h.source != Logical && (h.source == External ==> LdapProvider(providers, h.providerKey).Some?))
    && (forall name :: (exists h :: h in identity.groups && h.source == Local && h.name == name)
          <==> MatchesUsername(MembersOf(ir.authentication, name), identity.username))
    && (forall g, h :: g in asked && h in identity.groups ==> KeysApart(g.providerKey, h.providerKey))
  }

  lemma {:induction false} AskedGroupsAreConcrete(rules: seq<PolicyRule>)
    ensures forall g :: g in GroupsOf(rules) ==> g.source != Logical
  {
    forall g | g in GroupsOf(rules) ensures g.source != Logical {
      var rule :| rule in rules && rule.identity.Group? && g in ExpandGroupRefs(rule.identity.groups);
      ExpansionIsTheGroupsBelow(rule.identity.groups);
    }
  }

  lemma HeldIffRead(ir: ConfigurationIr, identity: RequestIdentity, g: GroupRef)
    requires CoherentIdentity(ir, identity) && g in GroupsOf(SortRules(ir.rules))
    ensures (exists h :: h in identity.groups && GroupKey(h) == GroupKey(g))
       <==> ReadsGroup(ir.authentication, g, identity)
  {
    AskedGroupsAreConcrete(SortRules(ir.rules));
    hide SortRules, SortProviders, GroupsOf, Upper, TellableKeys, MatchesUsername;
    var providers, asked := SortProviders(ir.authentication.providers), GroupsOf(SortRules(ir.rules));
    if h :| h in identity.groups && GroupKey(h) == GroupKey(g) {
      TellableKeysDetermine(ExternalKeys(asked + identity.groups), h, g);
      if g.source == Local {
        NobodyIsMember(identity.username);
      } else {
        assert KeysApart(g.providerKey, h.providerKey);
        assert h.providerKey == g.providerKey;
      }
    }
    if ReadsGroup(ir.authentication, g, identity) {
      if g.source == Local {
        var h :| h in identity.groups && h.source == Local && h.name == g.name;
        assert GroupKey(h) == GroupKey(g);
      } else {
        var key := LdapProvider(providers, g.providerKey).value.key;
        var h :| h in identity.groups && h.source == External && h.name == g.name && h.providerKey == Some(key);
        assert GroupKey(h) == GroupKey(g);
      }
    }
  }

  lemma NobodyIsMember(username: Option<string>)
    ensures !MatchesUsername([], username)
  {
  }

  predicate AnyProvider(users: seq<UserRef>) { forall u :: u in users ==> u.providerKey == None }

  lemma UsersAgree(users: seq<UserRef>, identity: RequestIdentity)
    requires AnyProvider(users)
    ensures MatchesUser(users, identity) <==> MatchesUsername(NonEmpty(Usernames(users)), identity.username)
  {
    hide Lower;
    if MatchesUser(users, identity) {
      var u :| u in users && Lower(u.username) == Lower(identity.username.value);
      var i :| 0 <= i < |users| && users[i] == u;
      assert Usernames(users)[i] == u.username && u.username in Usernames(users);
      assert |Lower(u.username)| == |u.username| && |Lower(identity.username.value)| == |identity.username.value|;
      assert u.username != "";
      assert u.username in NonEmpty(Usernames(users));
    }
    if MatchesUsername(NonEmpty(Usernames(users)), identity.username) {
      var n :| n in NonEmpty(Usernames(users)) && Lower(n) == Lower(identity.username.value);
      var i :| 0 <= i < |users| && Usernames(users)[i] == n;
      assert users[i] in users;
    }
  }
}
