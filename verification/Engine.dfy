/** The policy evaluation engine of packages/shared/src/policy/engine.ts. */
module Engine {
  import opened Text
  import opened IpText
  import opened IpRanges
  import opened Ir

  datatype Decision = Permit | Refuse | Challenge

  datatype RequestIdentity = RequestIdentity(
    authenticated: bool,
    username: Option<string>,
    providerKey: Option<string>,
    groups: seq<GroupRef>)

  /** Local time at the proxy: day index with 0 for Sunday, hours and minutes. */
  datatype Moment = Moment(day: nat, hours: nat, minutes: nat)

  datatype Request = Request(
    sourceIp: string,
    identity: RequestIdentity,
    host: Option<string>,
    port: Option<int>,
    at: Moment)

  // ----- component matchers -----

  predicate MatchesNetworks(networks: seq<Network>, sourceIp: string) {
    match ParseIp(sourceIp)
    case None => false
    case Some(address) => exists n :: n in networks && IpInAnyCidr(address, n.cidrs)
  }

  predicate MatchesSource(matcher: SourceMatcher, sourceIp: string) {
    matcher.AnySource? || MatchesNetworks(matcher.networks, sourceIp)
  }

  predicate MatchesUsername(usernames: seq<string>, username: Option<string>) {
    username.Some? && username.value != "" &&
    exists u :: u in usernames && Lower(u) == Lower(username.value)
  }

  predicate MatchesUser(users: seq<UserRef>, identity: RequestIdentity) {
    identity.username.Some? && identity.username.value != "" &&
    exists u :: u in users && Lower(u.username) == Lower(identity.username.value) &&
                (u.providerKey == None || u.providerKey == identity.providerKey)
  }

  predicate HoldsKey(identity: RequestIdentity, keys: set<string>) {
    exists held :: held in identity.groups && GroupKey(held) in keys
  }

  function KeysOf(refs: seq<GroupRef>): set<string> { set g | g in refs :: GroupKey(g) }

  predicate MatchesIdentity(matcher: IdentityMatcher, identity: RequestIdentity, authenticationDisabled: bool) {
    var authenticated := !authenticationDisabled && identity.authenticated;
    match matcher
    case AnyIdentity => true
    case Authenticated => authenticated
    case Unauthenticated => !authenticated
    case User(users) => authenticated && MatchesUser(users, identity)
    case Group(groups) => authenticated && HoldsKey(identity, KeysOf(ExpandGroupRefs(groups)))
  }

  function DropTrailingDot(host: string): string {
    if host != "" && host[|host| - 1] == '.' then host[..|host| - 1] else host
  }

  predicate EndsWith(s: string, suffix: string) {
    |suffix| <= |s| && s[|s| - |suffix|..] == suffix
  }

  /** A leading dot also matches subdomains. */
  predicate MatchesEntry(target: string, raw: string) {
    var entry := Lower(Trim(raw));
    entry != "" &&
    if entry[0] == '.' then target == entry[1..] || EndsWith(target, entry) else target == entry
  }

  predicate MatchesDomain(host: string, domains: seq<string>) {
    exists raw :: raw in domains && MatchesEntry(DropTrailingDot(Lower(host)), raw)
  }

  predicate HostInCidrs(host: string, cidrs: seq<string>) {
    var address := ParseIp(host);
    address.Some? && IpInAnyCidr(address.value, cidrs)
  }

  predicate MatchesDestination(matcher: DestinationMatcher, host: Option<string>, port: Option<int>) {
    match matcher
    case AnyDestination => true
    case Specific(domains, cidrs, ports) =>
      (|ports| > 0 ==> port.Some? && port.value in ports) &&
      if |domains| == 0 && |cidrs| == 0 then true
      else if host.None? || host.value == "" then false
      else MatchesDomain(host.value, domains) || HostInCidrs(host.value, cidrs)
  }

  const WEEKDAY_BY_INDEX: seq<Weekday> := [Sun, Mon, Tue, Wed, Thu, Fri, Sat]

  predicate MatchesSchedule(matcher: ScheduleMatcher, at: Moment) {
    match matcher
    case Always => true
    case Window(days, startMinutes, endMinutes) =>
      var minutes := at.hours * 60 + at.minutes;
      at.day < 7 && WEEKDAY_BY_INDEX[at.day] in days &&
      if startMinutes <= endMinutes then startMinutes <= minutes < endMinutes
      else minutes >= startMinutes || minutes < endMinutes
  }

  // ----- evaluation -----

  datatype Component = DisabledRule | SourcePart | IdentityPart | DestinationPart | SchedulePart

  datatype TraceEntry = TraceEntry(ruleId: string, matched: bool, failedOn: Option<Component>)

  datatype EvaluationResult = EvaluationResult(decision: Decision, matchedRule: Option<PolicyRule>,
                          trace: seq<TraceEntry>)

  function DecisionOf(action: Action): Decision { if action == Allow then Permit else Refuse }

  /** The first component that rejects the rule, if any does. */
  function FailedOn(rule: PolicyRule, request: Request, authenticationDisabled: bool): Option<Component> {
    if !rule.enabled then Some(DisabledRule)
    else if !MatchesSource(rule.source, request.sourceIp) then Some(SourcePart)
    else if !MatchesIdentity(rule.identity, request.identity, authenticationDisabled) then Some(IdentityPart)
    else if !MatchesDestination(rule.destination, request.host, request.port) then Some(DestinationPart)
    else if !MatchesSchedule(rule.schedule, request.at) then Some(SchedulePart)
    else None
  }

  function EvaluateRule(rule: PolicyRule, request: Request, authenticationDisabled: bool): TraceEntry {
    var failed := FailedOn(rule, request, authenticationDisabled);
    TraceEntry(rule.id, failed.None?, failed)
  }

  predicate RuleMatches(rule: PolicyRule, request: Request, authenticationDisabled: bool) {
    FailedOn(rule, request, authenticationDisabled).None?
  }

  /** Index of the first rule that matches, or |rules|. */
  function FirstMatch(rules: seq<PolicyRule>, request: Request, authenticationDisabled: bool): (i: nat)
    ensures i <= |rules|
    ensures i < |rules| ==> RuleMatches(rules[i], request, authenticationDisabled)
    ensures forall k :: 0 <= k < i ==> !RuleMatches(rules[k], request, authenticationDisabled)
  {
    if rules == [] then 0
    else if RuleMatches(rules[0], request, authenticationDisabled) then 0
    else 1 + FirstMatch(rules[1..], request, authenticationDisabled)
  }

  function TraceOf(rules: seq<PolicyRule>, request: Request, authenticationDisabled: bool): seq<TraceEntry> {
    seq(|rules|, k requires 0 <= k < |rules| => EvaluateRule(rules[k], request, authenticationDisabled))
  }

  function EvaluateSorted(rules: seq<PolicyRule>, defaultAccess: Action, mode: AuthMode,
                          request: Request): EvaluationResult {
    if mode == Required && !request.identity.authenticated then EvaluationResult(Challenge, None, [])
    else
      var i := FirstMatch(rules, request, mode == Disabled);
      if i < |rules| then
        EvaluationResult(DecisionOf(rules[i].action),
                         Some(rules[i]), TraceOf(rules[..i + 1], request, mode == Disabled))
      else EvaluationResult(DecisionOf(defaultAccess), None, TraceOf(rules, request, mode == Disabled))
  }

  function EvaluateAs(ir: ConfigurationIr, mode: AuthMode, request: Request): EvaluationResult {
    EvaluateSorted(SortRules(ir.rules), ir.defaultAccess, mode, request)
  }

  function Evaluate(ir: ConfigurationIr, request: Request): EvaluationResult {
    EvaluateAs(ir, ir.authentication.mode, request)
  }

  method EvaluateRequest(ir: ConfigurationIr, request: Request) returns (result: EvaluationResult)
    ensures result == Evaluate(ir, request)
  {
    hide FailedOn, SortRules;
    var mode := ir.authentication.mode;
    var authenticationDisabled := mode == Disabled;
    var trace: seq<TraceEntry> := [];
    if mode == Required && !request.identity.authenticated {
      return EvaluationResult(Challenge, None, trace);
    }
    var rules := SortRules(ir.rules);
    for i := 0 to |rules|
      invariant trace == TraceOf(rules[..i], request, authenticationDisabled)
      invariant forall k :: 0 <= k < i ==> !RuleMatches(rules[k], request, authenticationDisabled)
    {
      var entry := EvaluateRule(rules[i], request, authenticationDisabled);
      trace := trace + [entry];
      if entry.matched {
        return EvaluationResult(DecisionOf(rules[i].action), Some(rules[i]), trace);
      }
    }
    assert rules[..|rules|] == rules;
    return EvaluationResult(DecisionOf(ir.defaultAccess), None, trace);
  }
}
