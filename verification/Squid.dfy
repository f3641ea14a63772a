/** The access control part of a Squid configuration as a syntax tree, and its meaning: the first
    matching http_access line wins, terms on a line are conjoined from left to right, repeated acl
    lines of one name are a disjunction, and reaching an ACL backed by proxy authentication without
    credentials challenges the client, even when the term is negated. */
module Squid {
  import opened Text
  import opened Ir
  import opened IpText
  import opened IpRanges
  import opened Engine

  datatype AclTest =
    | Src(cidrs: seq<string>)
    | DstDomain(domains: seq<string>)
    | Dst(cidrs: seq<string>)
    | Port(ports: seq<int>)
    | PortRange(low: int, high: int)
    | MethodConnect
    | Time(days: seq<Weekday>, startMinutes: int, endMinutes: int)
    | MyPortName(portName: string)
    | ProxyAuthRequired
    | ProxyAuthUsers(users: seq<string>)
    | ExternalGroup(typeName: string, group: string)
  {
    predicate NeedsCredentials() { ProxyAuthRequired? || ProxyAuthUsers? || ExternalGroup? }
  }

  datatype Term = Term(negated: bool, name: string)

  datatype Directive =
    | Generated(at: string)
    | AuthProgram(providers: seq<string>)
    | ExternalAclType(typeName: string, providerKey: string)
    | HttpPort(portName: string, address: string, port: int)
    | Acl(name: string, test: AclTest)
    | HttpAccess(verb: Action, terms: seq<Term>)

  const ALL := "all"
  const LOCALHOST := "localhost"
  const MANAGER := "manager"
  const BUILT_IN: set<string> := {ALL, LOCALHOST, MANAGER}

  /** A request as it reaches the proxy: the policy request, the port it arrived on, and what the
      baseline lines ask about it. */
  datatype ProxyRequest = ProxyRequest(
    request: Request,
    portName: string,
    connect: bool,
    localhost: bool,
    manager: bool)

  predicate HoldsGroup(conf: seq<Directive>, typeName: string, group: string, identity: RequestIdentity) {
    exists held :: held in identity.groups && held.source == External && held.name == group &&
                   held.providerKey.Some? && ExternalAclType(typeName, held.providerKey.value) in conf
  }

  /** A time acl without day letters holds on every day. */
  function WrittenDays(days: seq<Weekday>): seq<Weekday> { if days == [] then WEEKDAY_BY_INDEX else days }

  predicate TestHolds(conf: seq<Directive>, test: AclTest, r: ProxyRequest) {
    match test
    case Src(cidrs) => ParseIp(r.request.sourceIp).Some? && IpInAnyCidr(ParseIp(r.request.sourceIp).value, cidrs)
    case DstDomain(domains) =>
      r.request.host.Some? && r.request.host.value != "" && MatchesDomain(r.request.host.value, domains)
    case Dst(cidrs) => r.request.host.Some? && r.request.host.value != "" && HostInCidrs(r.request.host.value, cidrs)
    case Port(ports) => r.request.port.Some? && r.request.port.value in ports
    case PortRange(low, high) => r.request.port.Some? && low <= r.request.port.value <= high
    case MethodConnect => r.connect
    case Time(days, start, end) => MatchesSchedule(Window(WrittenDays(days), start, end), r.request.at)
    case MyPortName(portName) => r.portName == portName
    case ProxyAuthRequired => r.request.identity.authenticated
    case ProxyAuthUsers(users) =>
      r.request.identity.authenticated && MatchesUsername(users, r.request.identity.username)
    case ExternalGroup(typeName, group) =>
      r.request.identity.authenticated && HoldsGroup(conf, typeName, group, r.request.identity)
  }

  predicate AclHolds(conf: seq<Directive>, name: string, r: ProxyRequest) {
    if name == ALL then true
    else if name == LOCALHOST then r.localhost
    else if name == MANAGER then r.manager
    else exists d :: d in conf && d.Acl? && d.name == name && TestHolds(conf, d.test, r)
  }

  predicate AclNeedsCredentials(conf: seq<Directive>, name: string) {
    name !in BUILT_IN && exists d :: d in conf && d.Acl? && d.name == name && d.test.NeedsCredentials()
  }

  datatype Outcome = Matched | Unmatched | Challenged

  function EvalTerms(conf: seq<Directive>, terms: seq<Term>, r: ProxyRequest): Outcome {
    if terms == [] then Matched
    else if AclNeedsCredentials(conf, terms[0].name) && !r.request.identity.authenticated then Challenged
    else if AclHolds(conf, terms[0].name, r) == terms[0].negated then Unmatched
    else EvalTerms(conf, terms[1..], r)
  }

  function LineDecision(conf: seq<Directive>, line: Directive, r: ProxyRequest): Option<Decision> {
    if line.HttpAccess? then
      match EvalTerms(conf, line.terms, r)
      case Matched => Some(DecisionOf(line.verb))
      case Challenged => Some(Challenge)
      case Unmatched => None
    else None
  }

  /** The decision of the first line that decides. */
  function DecideLines(conf: seq<Directive>, lines: seq<Directive>, r: ProxyRequest): Option<Decision> {
    if lines == [] then None
    else
      var d := LineDecision(conf, lines[0], r);
      if d.Some? then d else DecideLines(conf, lines[1..], r)
  }

  function Decide(conf: seq<Directive>, r: ProxyRequest): Option<Decision> { DecideLines(conf, conf, r) }

  lemma {:induction false} DecideAppend(conf: seq<Directive>, a: seq<Directive>, b: seq<Directive>, r: ProxyRequest)
    ensures DecideLines(conf, a + b, r)
         == if DecideLines(conf, a, r).Some? then DecideLines(conf, a, r) else DecideLines(conf, b, r)
  {
    if a == [] {
      assert a + b == b;
    } else {
      assert (a + b)[1..] == a[1..] + b;
      DecideAppend(conf, a[1..], b, r);
    }
  }

  lemma {:induction false} NothingToDecide(conf: seq<Directive>, lines: seq<Directive>, r: ProxyRequest)
    requires forall d :: d in lines ==> LineDecision(conf, d, r) == None
    ensures DecideLines(conf, lines, r) == None
  {
    if lines != [] { NothingToDecide(conf, lines[1..], r); }
  }

  // ----- names -----

  predicate DefinedIn(lines: seq<Directive>, name: string) {
    name in BUILT_IN || exists d :: d in lines && d.Acl? && d.name == name
  }

  /** Every name used on an access line is built in or defined on an earlier line. */
  ghost predicate DefinedBeforeUse(conf: seq<Directive>) {
    forall i, t :: 0 <= i < |conf| && conf[i].HttpAccess? && t in conf[i].terms ==> DefinedIn(conf[..i], t.name)
  }

  /** The name has exactly this definition. */
  ghost predicate Denotes(conf: seq<Directive>, name: string, test: AclTest) {
    && name !in BUILT_IN
    && Acl(name, test) in conf
    && forall d :: d in conf && d.Acl? && d.name == name ==> d.test == test
  }

  lemma DenotesMeans(conf: seq<Directive>, name: string, test: AclTest, r: ProxyRequest)
    requires Denotes(conf, name, test)
    ensures AclHolds(conf, name, r) == TestHolds(conf, test, r)
    ensures AclNeedsCredentials(conf, name) == test.NeedsCredentials()
  {
    var d := Acl(name, test);
    assert d in conf && d.Acl? && d.name == name;
  }
}
