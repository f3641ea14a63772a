/** Detection of accidental open proxies (packages/shared/src/policy/openProxy.ts), and what the
    absence of a finding means for the engine. Findings carry their code, severity and the rules
    they name; their wording is not modelled. */
module OpenProxy {
  import opened Text
  import opened Bits
  import opened Ir
  import opened Sorting
  import opened IpText
  import opened IpRoundTrip
  import opened IpRanges
  import opened Engine
  import opened Faithful

  datatype Severity = Critical | Caution | Info

  datatype Code = OpenProxyFound | AnonymousAccess | UnreachableIdentityRule | NoEnabledProvider

  datatype Finding = Finding(code: Code, severity: Severity, rules: seq<PolicyRule>)

  predicate Unprotected(l: Listener) { l.enabled && l.authentication == Disabled }

  predicate Protected(l: Listener) { l.enabled && l.authentication != Disabled }

  /** Not bound to a loopback or private address. */
  predicate WidelyReachable(l: Listener) {
    l.enabled &&
    match ParseIp(l.address)
    case None => true
    case Some(address) =>
      address.value == 0 || ParseCidr(l.address).None? || !IsPrivateCidr(ParseCidr(l.address).value)
  }

  predicate AnonymousAllow(rule: PolicyRule) {
    rule.enabled && rule.action == Allow && (rule.identity.AnyIdentity? || rule.identity.Unauthenticated?)
  }

  /** The rule lets an anonymous client reach anything. */
  predicate AnonymousAllowAnything(rule: PolicyRule) {
    && AnonymousAllow(rule)
    && rule.destination.AnyDestination?
    && rule.schedule.Always?
  }

  predicate WideCidr(c: Cidr)
    requires c.prefix <= c.bits
  {
    IsUnspecifiedRange(c) || !IsPrivateCidr(c) || CidrSize(c) > ShiftLeft(1, 24)
  }

  predicate WideEntries(cidrs: seq<string>) {
    exists text :: text in cidrs && ParseCidr(text).Some? && WideCidr(ParseCidr(text).value)
  }

  predicate WideSource(rule: PolicyRule) {
    rule.source.AnySource? || exists n :: n in rule.source.networks && WideEntries(n.cidrs)
  }

  function EntryTexts(name: string, cidrs: seq<string>): seq<string> {
    if cidrs == [] then []
    else
      var c := ParseCidr(cidrs[|cidrs| - 1]);
      EntryTexts(name, cidrs[..|cidrs| - 1]) + if c.Some? then [name + " (" + c.value.text + ")"] else []
  }

  function SourceTexts(networks: seq<Network>): seq<string> {
    if networks == [] then []
    else
      var last := networks[|networks| - 1];
      SourceTexts(networks[..|networks| - 1]) + EntryTexts(last.name, last.cidrs)
  }

  /** Lists the parts of the source and tells whether one of them is wide. */
  method WidestSource(rule: PolicyRule) returns (parts: seq<string>, wide: bool)
    ensures wide == WideSource(rule)
    ensures parts == if rule.source.AnySource? then ["any source address"] else SourceTexts(rule.source.networks)
  {
    hide ParseCidr, WideCidr;
    if rule.source.AnySource? { return ["any source address"], true; }
    wide, parts := false, [];
    var networks := rule.source.networks;
    for i := 0 to |networks|
      invariant wide <==> exists k :: 0 <= k < i && WideEntries(networks[k].cidrs)
      invariant parts == SourceTexts(networks[..i])
    {
      assert networks[..i + 1][..i] == networks[..i];
      var cidrs := networks[i].cidrs;
      ghost var before, had := parts, wide;
      for j := 0 to |cidrs|
        invariant wide <==> had || WideEntries(cidrs[..j])
        invariant parts == before + EntryTexts(networks[i].name, cidrs[..j])
      {
        assert cidrs[..j + 1][..j] == cidrs[..j];
        assert forall t :: t in cidrs[..j + 1] <==> t in cidrs[..j] || t == cidrs[j];
        var c := ParseCidr(cidrs[j]);
        if c.None? { continue; }
        parts := parts + [networks[i].name + " (" + c.value.text + ")"];
        if WideCidr(c.value) { wide := true; }
      }
      assert cidrs[..|cidrs|] == cidrs;
    }
    assert networks[..|networks|] == networks;
  }

  function RulesWith(rules: seq<PolicyRule>, p: PolicyRule -> bool): (r: seq<PolicyRule>)
    ensures forall rule :: rule in r <==> rule in rules && p(rule)
  {
    if rules == [] then []
    else RulesWith(rules[..|rules| - 1], p) + if p(rules[|rules| - 1]) then [rules[|rules| - 1]] else []
  }

  function AnonymousFindings(ir: ConfigurationIr): seq<Finding> {
    var anonymousRules := RulesWith(ir.rules, AnonymousAllowAnything);
    var openRules := RulesWith(anonymousRules, WideSource);
    if !exists l :: l in ir.listeners && Unprotected(l) then []
    else if ir.defaultAccess == Allow || openRules != [] then
      [Finding(OpenProxyFound,
               if exists l :: l in ir.listeners && Unprotected(l) && WidelyReachable(l) then Critical else Caution,
               openRules)]
    else if anonymousRules != [] then [Finding(AnonymousAccess, Info, anonymousRules)]
    else []
  }

  predicate DeadWithoutIdentity(rule: PolicyRule) { rule.enabled && rule.identity.NeedsIdentity() }

  function IdentityFindings(ir: ConfigurationIr): seq<Finding> {
    var deadRules := RulesWith(ir.rules, DeadWithoutIdentity);
    if exists l :: l in ir.listeners && Protected(l) then
      if ir.authentication.providers == [] then [Finding(NoEnabledProvider, Critical, [])] else []
    else if deadRules != [] then [Finding(UnreachableIdentityRule, Caution, deadRules)]
    else []
  }

  function Findings(ir: ConfigurationIr): seq<Finding> { AnonymousFindings(ir) + IdentityFindings(ir) }

  method KeepWide(rules: seq<PolicyRule>) returns (open: seq<PolicyRule>)
    ensures open == RulesWith(rules, WideSource)
  {
    hide WideSource;
    open := [];
    for i := 0 to |rules|
      invariant open == RulesWith(rules[..i], WideSource)
    {
      assert rules[..i + 1][..i] == rules[..i];
      var parts, wide := WidestSource(rules[i]);
      if wide { open := open + [rules[i]]; }
    }
    assert rules[..|rules|] == rules;
  }

  method DetectAnonymousAccess(ir: ConfigurationIr) returns (findings: seq<Finding>)
    ensures findings == AnonymousFindings(ir)
  {
    hide WideSource, WidelyReachable, AnonymousAllowAnything, Unprotected;
    findings := [];
    if exists l :: l in ir.listeners && Unprotected(l) {
      var anonymousRules := RulesWith(ir.rules, AnonymousAllowAnything);
      var openRules := KeepWide(anonymousRules);
      if ir.defaultAccess == Allow || |openRules| > 0 {
        var reachable := exists l :: l in ir.listeners && Unprotected(l) && WidelyReachable(l);
        findings := findings + [Finding(OpenProxyFound, if reachable then Critical else Caution, openRules)];
      } else if |anonymousRules| > 0 {
        findings := findings + [Finding(AnonymousAccess, Info, anonymousRules)];
      }
    }
  }

  method DetectSecurityFindings(ir: ConfigurationIr) returns (findings: seq<Finding>)
    ensures findings == Findings(ir)
  {
    hide AnonymousFindings, Protected, DeadWithoutIdentity;
    findings := DetectAnonymousAccess(ir);
    var needsProviders := exists l :: l in ir.listeners && Protected(l);
    if !needsProviders {
      var deadRules := RulesWith(ir.rules, DeadWithoutIdentity);
      if |deadRules| > 0 { findings := findings + [Finding(UnreachableIdentityRule, Caution, deadRules)]; }
    }
    if needsProviders && |ir.authentication.providers| == 0 {
      findings := findings + [Finding(NoEnabledProvider, Critical, [])];
    }
  }

  predicate HasOpenProxyFinding(findings: seq<Finding>) { exists f :: f in findings && f.code == OpenProxyFound }

  // ----- what counts as wide -----

  lemma PrivatePrefix(c: Cidr)
    requires IsPrivateCidr(c)
    ensures c.prefix >= WidestPrivate(c.family)
  {
    PrivateBlocks();
    hide ParseCidr, And, MaskFor;
  }

  lemma SizeAbove(c: Cidr)
    requires c.prefix <= c.bits
    ensures CidrSize(c) > ShiftLeft(1, 24) <==> c.bits - c.prefix > 24
  {
    assert CidrSize(c) == Pow2(c.bits - c.prefix) && ShiftLeft(1, 24) == Pow2(24);
    hide Pow2;
    if c.bits - c.prefix > 24 { Pow2StrictlyMonotonic(24, c.bits - c.prefix); }
    if c.bits - c.prefix < 24 { Pow2StrictlyMonotonic(c.bits - c.prefix, 24); }
  }

  /** A block is wide exactly when it is not private, or is an IPv6 block of more than 2^24 addresses:
      the size test, meant for public blocks, is reached by private ones only. */
  lemma WideExactly(c: Cidr)
    requires ValidCidr(c)
    ensures WideCidr(c) <==> !IsPrivateCidr(c) || (c.family == V6 && c.prefix < 104)
  {
    SizeAbove(c);
    hide FormatIp, IsPrivateCidr, CidrSize, ShiftLeft, Pow2;
    if IsPrivateCidr(c) { PrivatePrefix(c); }
  }

  // ----- soundness -----

  /** The address lies in no listed private block. */
  predicate PublicAddress(a: IpAddress) {
    forall text :: text in PrivateTexts(a.family) && ParseCidr(text).Some? ==> !CidrContains(ParseCidr(text).value, a)
  }

  lemma PrivateBlockHoldsNoPublicAddress(c: Cidr, a: IpAddress)
    requires ValidCidr(c) && ValidAddress(a) && PublicAddress(a) && IsPrivateCidr(c)
    ensures !CidrContains(c, a)
  {
    hide ParseCidr, CidrContains, FormatIp, IsPrivateCidr;
    PrivateMeansInsideOneBlock(c);
    var text :| text in PrivateTexts(c.family) && ParseCidr(text).Some? && Covers(ParseCidr(text).value, c);
    ParsedCidrIsValid(text);
    ContainsIsInterval(c, a);
    ContainsIsInterval(ParseCidr(text).value, a);
  }

  lemma NarrowSourceHoldsNoPublicAddress(rule: PolicyRule, ip: string)
    requires !WideSource(rule) && ParseIp(ip).Some? && PublicAddress(ParseIp(ip).value)
    ensures !MatchesSource(rule.source, ip)
  {
    hide ParseCidr, ParseIp, CidrContains, PublicAddress, IsPrivateCidr;
    var a := ParseIp(ip).value;
    ParsedAddress(ip);
    forall n, text | n in rule.source.networks && text in n.cidrs && ParseCidr(text).Some?
      ensures !CidrContains(ParseCidr(text).value, a)
    {
      assert !WideEntries(n.cidrs);
      ParsedCidrIsValid(text);
      PrivateBlockHoldsNoPublicAddress(ParseCidr(text).value, a);
    }
  }

  /** Some rule lets anonymous clients of a wide source reach anything. */
  predicate HasOpenRule(ir: ConfigurationIr) {
    exists rule :: rule in ir.rules && AnonymousAllowAnything(rule) && WideSource(rule)
  }

  /** The finding is reported exactly when some listener is unprotected and either the default or
      some rule lets anonymous clients through. */
  lemma ReportedExactly(ir: ConfigurationIr)
    ensures HasOpenProxyFinding(Findings(ir))
       <==> (exists l :: l in ir.listeners && Unprotected(l)) && (ir.defaultAccess == Allow || HasOpenRule(ir))
  {
    hide AnonymousAllowAnything, WideSource, WidelyReachable, Unprotected;
    assert forall f :: f in IdentityFindings(ir) ==> f.code != OpenProxyFound;
    hide IdentityFindings;
    assert forall f :: f in Findings(ir) <==> f in AnonymousFindings(ir) || f in IdentityFindings(ir);
    var openRules := RulesWith(RulesWith(ir.rules, AnonymousAllowAnything), WideSource);
    assert HasOpenRule(ir) <==> openRules != [] by {
      if openRules != [] { assert openRules[0] in openRules; }
    }
    var found := AnonymousFindings(ir);
    if (exists l :: l in ir.listeners && Unprotected(l)) && (ir.defaultAccess == Allow || openRules != []) {
      assert found[0] in found;
    }
  }

  lemma AnonymousMatch(rule: PolicyRule, request: Request)
    requires RuleMatches(rule, request, true) && rule.action == Allow
    ensures AnonymousAllowAnything(rule) || rule.destination.Specific? || rule.schedule.Window?
    ensures MatchesSource(rule.source, request.sourceIp)
  {
    hide MatchesSource, MatchesDestination, MatchesSchedule;
  }

  /** With no open proxy finding, whatever a client at a public address is permitted on a listener
      without authentication is permitted by a rule that limits destinations or times. */
  lemma NoFindingMeansNoOpenProxy(ir: ConfigurationIr, request: Request)
    requires !HasOpenProxyFinding(Findings(ir)) && (exists l :: l in ir.listeners && Unprotected(l))
    requires ParseIp(request.sourceIp).Some? && PublicAddress(ParseIp(request.sourceIp).value)
    ensures EvaluateAs(ir, Disabled, request).decision == Permit ==>
              var matched := EvaluateAs(ir, Disabled, request).matchedRule;
              matched.Some? && matched.value in ir.rules && matched.value.action == Allow
              && (matched.value.destination.Specific? || matched.value.schedule.Window?)
  {
    hide Findings, WideSource, ParseIp, PublicAddress, RuleMatches, SortRules, AnonymousAllowAnything, MatchesSource,
         HasOpenProxyFinding;
    ReportedExactly(ir);
    SortRulesMultiset(ir.rules);
    var rules := SortRules(ir.rules);
    var i := FirstMatch(rules, request, true);
    if i < |rules| && rules[i].action == Allow {
      AnonymousMatch(rules[i], request);
      if !WideSource(rules[i]) { NarrowSourceHoldsNoPublicAddress(rules[i], request.sourceIp); }
    }
  }

  // ----- what the finding misses -----

  const MAX_PORT := 65535

  /** The rule's destination and schedule hold for every host, every port and every moment. */
  ghost predicate Unlimited(rule: PolicyRule) {
    forall host, port, at :: host != "" && 1 <= port <= MAX_PORT && ValidMoment(at) ==>
      MatchesDestination(rule.destination, Some(host), Some(port)) && MatchesSchedule(rule.schedule, at)
  }

  predicate AllPorts(ports: seq<int>) { ports == [] || forall p :: 1 <= p <= MAX_PORT ==> p in ports }

  predicate WholeWeek(days: seq<Weekday>, start: int, end: int) {
    && (forall d: Weekday :: d in days)
    && if start <= end then start <= 0 && end >= 24 * 60 else start <= 0 || end >= 24 * 60
  }

  predicate WritesNoLimit(rule: PolicyRule) {
    && (rule.destination.Specific? ==>
          rule.destination.domains == [] && rule.destination.cidrs == [] && AllPorts(rule.destination.ports))
    && (rule.schedule.Window? ==> WholeWeek(rule.schedule.days, rule.schedule.startMinutes, rule.schedule.endMinutes))
  }

  function DayIndex(d: Weekday): (i: nat)
    ensures i < 7 && WEEKDAY_BY_INDEX[i] == d
  {
    match d case Sun => 0 case Mon => 1 case Tue => 2 case Wed => 3 case Thu => 4 case Fri => 5 case Sat => 6
  }

  function At(day: nat, minutes: nat): Moment { Moment(day, minutes / 60, minutes % 60) }

  /** A moment the window leaves out, when it leaves one out. */
  lemma WindowGap(days: seq<Weekday>, start: int, end: int) returns (at: Moment)
    requires !WholeWeek(days, start, end)
    ensures ValidMoment(at) && !MatchesSchedule(Window(days, start, end), at)
  {
    if d: Weekday :| d !in days {
      at := At(DayIndex(d), 0);
    } else if start <= end {
      at := At(0, if start > 0 then 0 else 24 * 60 - 1);
    } else {
      at := At(0, if end < 0 then 0 else end);
    }
  }

  lemma WholeWeekIsAlways(days: seq<Weekday>, start: int, end: int)
    ensures WholeWeek(days, start, end)
       <==> forall at :: ValidMoment(at) ==> MatchesSchedule(Window(days, start, end), at)
  {
    if !WholeWeek(days, start, end) { var at := WindowGap(days, start, end); }
  }

  function LongestEntry(domains: seq<string>): (n: nat)
    ensures forall e :: e in domains ==> |Lower(Trim(e))| <= n
  {
    if domains == [] then 0
    else
      var n := LongestEntry(domains[1..]);
      if |Lower(Trim(domains[0]))| > n then |Lower(Trim(domains[0]))| else n
  }

  /** A name without dots that is longer than every entry. */
  function LongName(domains: seq<string>): (host: string)
    ensures host != ""
  {
    seq(LongestEntry(domains) + 1, _ => 'a')
  }

  lemma LongerMatchesNoEntry(host: string, raw: string)
    requires |host| > |Lower(Trim(raw))| && forall i :: 0 <= i < |host| ==> host[i] == 'a'
    ensures !MatchesEntry(host, raw)
  {
    hide Lower, Trim;
    var entry := Lower(Trim(raw));
    if entry != "" { assert host[|host| - |entry|..][0] == 'a'; }
  }

  lemma LettersAreNoAddress(host: string)
    requires host != "" && forall i :: 0 <= i < |host| ==> host[i] == 'a'
    ensures ParseIp(host).None? && DropTrailingDot(Lower(host)) == host
  {
    TrimNothing(host);
    assert IndexOf(host, '.') == |host| && Split(host, '.') == [host];
    hide Trim, Split, IndexOf, FoldOctets;
  }

  lemma LongNameMatchesNothing(domains: seq<string>, cidrs: seq<string>)
    ensures !MatchesDomain(LongName(domains), domains) && !HostInCidrs(LongName(domains), cidrs)
  {
    var host := LongName(domains);
    LettersAreNoAddress(host);
    hide ParseIp, DropTrailingDot, Lower, Trim, MatchesEntry;
    forall raw | raw in domains ensures !MatchesEntry(host, raw) { LongerMatchesNoEntry(host, raw); }
  }

  lemma NoListsAreAnyDestination(domains: seq<string>, cidrs: seq<string>, ports: seq<int>)
    ensures domains == [] && cidrs == [] && AllPorts(ports)
       <==> forall host, port :: host != "" && 1 <= port <= MAX_PORT
              ==> MatchesDestination(Specific(domains, cidrs, ports), Some(host), Some(port))
  {
    hide MatchesDomain, HostInCidrs;
    var d, host := Specific(domains, cidrs, ports), LongName(domains);
    LongNameMatchesNothing(domains, cidrs);
    if domains != [] || cidrs != [] {
      assert !MatchesDestination(d, Some(host), Some(1));
    } else if !AllPorts(ports) {
      var port :| 1 <= port <= MAX_PORT && port !in ports;
      assert !MatchesDestination(d, Some(host), Some(port));
    }
  }

  /** A rule that holds for every host, port and moment writes no limit, or writes it as a specific
      destination without hosts and with no or all ports, or as a window that spans the whole week. */
  lemma UnlimitedExactly(rule: PolicyRule)
    ensures Unlimited(rule) <==> WritesNoLimit(rule)
  {
    hide MatchesDestination, MatchesSchedule, WholeWeek, AllPorts;
    var noon := Moment(1, 12, 0);
    assert ValidMoment(noon);
    match rule.destination {
      case AnyDestination => AnywhereMatches();
      case Specific(domains, cidrs, ports) => NoListsAreAnyDestination(domains, cidrs, ports);
    }
    match rule.schedule {
      case Always => AlwaysMatches();
      case Window(days, start, end) => WholeWeekIsAlways(days, start, end);
    }
    if Unlimited(rule) {
      forall host, port | host != "" && 1 <= port <= MAX_PORT
        ensures MatchesDestination(rule.destination, Some(host), Some(port))
      {
        assert MatchesDestination(rule.destination, Some(host), Some(port)) && MatchesSchedule(rule.schedule, noon);
      }
      forall at | ValidMoment(at) ensures MatchesSchedule(rule.schedule, at) {
        assert MatchesDestination(rule.destination, Some("a"), Some(1)) && MatchesSchedule(rule.schedule, at);
      }
    }
  }

  lemma AnywhereMatches()
    ensures forall host, port :: MatchesDestination(AnyDestination, host, port)
  {
  }

  lemma AlwaysMatches()
    ensures forall at :: MatchesSchedule(Always, at)
  {
  }

  /** An enabled rule lets anonymous clients of a wide source reach every host and port at every time. */
  ghost predicate OpensTheProxy(rule: PolicyRule) { AnonymousAllow(rule) && WideSource(rule) && Unlimited(rule) }

  /** The finding is missing although some rule opens the proxy to anonymous clients exactly when no
      other rule or default draws it and such a rule writes "anywhere" or "always" as a list or a window. */
  lemma EscapesExactly(ir: ConfigurationIr)
    requires exists l :: l in ir.listeners && Unprotected(l)
    ensures !HasOpenProxyFinding(Findings(ir)) && (exists rule :: rule in ir.rules && OpensTheProxy(rule))
       <==> ir.defaultAccess == Deny && !HasOpenRule(ir)
            && exists rule :: rule in ir.rules && AnonymousAllow(rule) && WideSource(rule) && WritesNoLimit(rule)
                              && (rule.destination.Specific? || rule.schedule.Window?)
  {
    hide Findings, HasOpenProxyFinding, WideSource, Unlimited, WritesNoLimit, Unprotected;
    ReportedExactly(ir);
    forall rule ensures Unlimited(rule) <==> WritesNoLimit(rule) { UnlimitedExactly(rule); }
    if rule :| rule in ir.rules && OpensTheProxy(rule) && !HasOpenRule(ir) {
      assert WritesNoLimit(rule) && (rule.destination.Specific? || rule.schedule.Window?);
    }
    if rule :| rule in ir.rules && AnonymousAllow(rule) && WideSource(rule) && WritesNoLimit(rule) {
      assert OpensTheProxy(rule);
    }
  }

  /** A single rule with a specific destination whose host lists are empty and whose port list is empty
      or full opens the proxy to everyone at every time, and no finding says so. */
  lemma EmptySpecificEscapes(ir: ConfigurationIr, rule: PolicyRule, host: string, port: int, request: Request)
    requires ir.rules == [rule] && ir.defaultAccess == Deny && rule.enabled && rule.action == Allow
    requires rule.source == AnySource && rule.identity == AnyIdentity && rule.schedule == Always
    requires rule.destination.Specific? && WritesNoLimit(rule)
    requires request.host == Some(host) && request.port == Some(port) && host != "" && 1 <= port <= MAX_PORT
    ensures !HasOpenProxyFinding(Findings(ir)) && EvaluateAs(ir, Disabled, request).decision == Permit
  {
    ReportedExactly(ir);
    hide Findings, HasOpenProxyFinding;
    assert forall k :: k in [rule] <==> k == rule;
    SortedIsFixed([rule], RuleLe);
    assert SortRules([rule]) == [rule];
    NoListsAreAnyDestination([], [], rule.destination.ports);
    hide MatchesDestination, AllPorts;
    assert FailedOn(rule, request, true) == None;
  }
}
