/** When each security finding of packages/shared/src/policy/openProxy.ts is given and which rules it names,
    in terms of the listeners, rules and providers, and what that means for the engine and for the
    compiled configuration. */
module SecurityFindings {
  import opened Text
  import opened Bits
  import opened Ir
  import opened IpText
  import opened IpRoundTrip
  import opened IpForms
  import opened IpRanges
  import opened Engine
  import opened OpenProxy
  import Compiler
  import DefinitionOrder
  import Evaluation
  import Squid

  predicate Has(ir: ConfigurationIr, code: Code) { exists f :: f in Findings(ir) && f.code == code }

  /** Some finding of the code names the rule. */
  predicate Names(ir: ConfigurationIr, code: Code, rule: PolicyRule) {
    exists f :: f in Findings(ir) && f.code == code && rule in f.rules
  }

  /** Every listener that is switched on answers without asking who the client is. */
  predicate NobodyIsAsked(ir: ConfigurationIr) {
    forall l :: l in ir.listeners && l.enabled ==> l.authentication == Disabled
  }

  lemma FindingsOf(ir: ConfigurationIr, f: Finding)
    ensures f in Findings(ir) <==> f in AnonymousFindings(ir) || f in IdentityFindings(ir)
    ensures f in AnonymousFindings(ir) ==> f.code == OpenProxyFound || f.code == AnonymousAccess
    ensures f in IdentityFindings(ir) ==> f.code == NoEnabledProvider || f.code == UnreachableIdentityRule
  {
  }

  // ----- rules that need an identity nobody has -----

  /** Whoever the client claims to be, its identity does not satisfy the rule when nobody is asked. */
  ghost predicate HoldsForNobody(rule: PolicyRule) {
    forall identity :: !MatchesIdentity(rule.identity, identity, true)
  }

  lemma NeedsIdentityExactly(rule: PolicyRule)
    ensures rule.identity.NeedsIdentity() <==> HoldsForNobody(rule)
  {
    var nobody := RequestIdentity(false, None, None, []);
    if HoldsForNobody(rule) { assert !MatchesIdentity(rule.identity, nobody, true); }
    hide MatchesUser, HoldsKey;
  }

  lemma IdentityFindingIs(ir: ConfigurationIr, f: Finding)
    ensures f in IdentityFindings(ir) && f.code == UnreachableIdentityRule
       <==> NobodyIsAsked(ir) && f.rules != []
            && f == Finding(UnreachableIdentityRule, Caution, RulesWith(ir.rules, DeadWithoutIdentity))
  {
    var deadRules := RulesWith(ir.rules, DeadWithoutIdentity);
    assert NobodyIsAsked(ir) <==> !exists l :: l in ir.listeners && Protected(l);
    hide DeadWithoutIdentity, RulesWith, Protected;
  }

  /** A rule is named as unreachable exactly when it is switched on, no listener that is switched on asks for
      an identity, and without one the rule holds for nobody. */
  lemma UnreachableExactly(ir: ConfigurationIr, rule: PolicyRule)
    ensures Names(ir, UnreachableIdentityRule, rule)
       <==> rule in ir.rules && rule.enabled && NobodyIsAsked(ir) && HoldsForNobody(rule)
  {
    NeedsIdentityExactly(rule);
    var deadRules := RulesWith(ir.rules, DeadWithoutIdentity);
    assert rule in deadRules <==> rule in ir.rules && rule.enabled && rule.identity.NeedsIdentity();
    forall f ensures f in Findings(ir) && f.code == UnreachableIdentityRule
                <==> NobodyIsAsked(ir) && f.rules != [] && f == Finding(UnreachableIdentityRule, Caution, deadRules)
    {
      FindingsOf(ir, f);
      IdentityFindingIs(ir, f);
    }
    hide Findings, RulesWith, HoldsForNobody, NobodyIsAsked;
    if rule in deadRules && NobodyIsAsked(ir) {
      assert Finding(UnreachableIdentityRule, Caution, deadRules) in Findings(ir);
    }
  }

  /** No request on any listener is decided by a rule that is named as unreachable. */
  lemma UnreachableNeverDecides(ir: ConfigurationIr, rule: PolicyRule, listener: Listener, request: Request)
    requires Names(ir, UnreachableIdentityRule, rule) && listener in ir.listeners && listener.enabled
    ensures EvaluateAs(ir, listener.authentication, request).matchedRule != Some(rule)
  {
    UnreachableExactly(ir, rule);
    Evaluation.LeastPositionDecides(ir, listener.authentication, request);
    hide Names, EvaluateAs, MatchesIdentity, MatchesSource, MatchesDestination, MatchesSchedule;
  }

  // ----- credentials nobody can check -----

  /** The missing provider is reported exactly when some listener asks for an identity and none is configured. */
  lemma NoProviderExactly(ir: ConfigurationIr)
    ensures Has(ir, NoEnabledProvider)
       <==> !NobodyIsAsked(ir) && ir.authentication.providers == []
  {
    assert NobodyIsAsked(ir) <==> !exists l :: l in ir.listeners && Protected(l);
    forall f ensures f in Findings(ir) && f.code == NoEnabledProvider
                <==> !NobodyIsAsked(ir) && ir.authentication.providers == []
                     && f == Finding(NoEnabledProvider, Critical, [])
    {
      FindingsOf(ir, f);
      hide AnonymousFindings, RulesWith, Protected, NobodyIsAsked;
    }
    hide Findings, NobodyIsAsked;
    if !NobodyIsAsked(ir) && ir.authentication.providers == [] {
      assert Finding(NoEnabledProvider, Critical, []) in Findings(ir);
    }
  }

  /** A configuration without that finding never uses an ACL it does not define; with it, it does so exactly
      when a listener or a rule demands credentials. */
  lemma NoProviderMeansUndefined(ir: ConfigurationIr)
    ensures !Squid.DefinedBeforeUse(Compiler.Compile(ir).squidConf)
       <==> Has(ir, NoEnabledProvider) && DefinitionOrder.DemandsCredentials(ir)
  {
    NoProviderExactly(ir);
    DefinitionOrder.DefinedBeforeUseExactly(ir);
    assert Compiler.AuthEnabled(ir) <==> !NobodyIsAsked(ir);
    hide Has, NobodyIsAsked, Compiler.AuthEnabled, DefinitionOrder.DemandsCredentials, Squid.DefinedBeforeUse;
  }

  // ----- clients without an identity -----

  /** The address stands for no private range: it is no address at all, the unspecified one, or outside of
      every private range of its family. */
  predicate BeyondPrivate(address: string) {
    match ParseIp(address)
    case None => true
    case Some(a) =>
      a.value == 0 || forall range :: range in PrivateRanges(a.family) ==>
        !(range.first <= a.value < range.first + range.size)
  }

  lemma WidelyReachableExactly(l: Listener)
    ensures WidelyReachable(l) <==> l.enabled && BeyondPrivate(l.address)
  {
    if ParseIp(l.address).Some? {
      var a := ParseIp(l.address).value;
      var c := Block(a, BitsOf(a.family));
      BareAddressIsItsBlock(l.address);
      ParsedCidrIsValid(l.address);
      assert CidrSize(c) == 1 by { assert Pow2(0) == 1; }
      hide ParseIp, ParseCidr, ValidCidr, IsPrivateCidr, PrivateRanges, CidrSize;
      PrivateExactly(c);
      forall range ensures InsideRange(c, range) <==> range.first <= a.value < range.first + range.size {}
    }
  }

  /** The rule allows, writes no limit on destination or time, and its identity condition holds for everyone when
      nobody is asked. */
  ghost predicate PlainlyOpen(rule: PolicyRule) {
    && rule == rule.(enabled := true, action := Allow, destination := AnyDestination, schedule := Always)
    && forall identity :: MatchesIdentity(rule.identity, identity, true)
  }

  lemma PlainlyOpenExactly(rule: PolicyRule)
    ensures AnonymousAllowAnything(rule) <==> PlainlyOpen(rule)
  {
    var nobody := RequestIdentity(false, None, None, []);
    if PlainlyOpen(rule) { assert MatchesIdentity(rule.identity, nobody, true); }
    hide MatchesUser, HoldsKey;
  }

  /** The block reaches beyond every private range, or is an IPv6 block of more than 2^24 addresses. */
  predicate Beyond(c: Cidr)
    requires c.prefix <= c.bits
  {
    (c.family == V6 && c.prefix < 104) || forall range :: range in PrivateRanges(c.family) ==> !InsideRange(c, range)
  }

  /** A source is wide exactly when it is any source or some entry of it reaches beyond the private ranges. */
  lemma WideSourceExactly(rule: PolicyRule)
    ensures WideSource(rule) <==> rule.source.AnySource? || exists n, text ::
              n in rule.source.networks && text in n.cidrs && ParseCidr(text).Some? && Beyond(ParseCidr(text).value)
  {
    forall text | ParseCidr(text).Some? ensures WideCidr(ParseCidr(text).value) <==> Beyond(ParseCidr(text).value) {
      ParsedCidrIsValid(text);
      WideExactly(ParseCidr(text).value);
      PrivateExactly(ParseCidr(text).value);
      hide ParseCidr, PrivateRanges, IsPrivateCidr, WideCidr, InsideRange, ValidCidr;
    }
    hide ParseCidr, WideCidr, Beyond;
  }

  /** The rules the open proxy finding names, and when it is critical: some listener without authentication
      can be reached from beyond the private ranges. */
  lemma OpenProxyNamesExactly(ir: ConfigurationIr, f: Finding)
    requires f in Findings(ir) && f.code == OpenProxyFound
    ensures forall rule :: rule in f.rules <==> rule in ir.rules && PlainlyOpen(rule) && WideSource(rule)
    ensures f.severity == Critical
       <==> exists l :: l in ir.listeners && l.enabled && l.authentication == Disabled && BeyondPrivate(l.address)
    ensures f.severity == Critical || f.severity == Caution
  {
    FindingsOf(ir, f);
    forall rule ensures AnonymousAllowAnything(rule) <==> PlainlyOpen(rule) { PlainlyOpenExactly(rule); }
    hide PlainlyOpen;
    forall l ensures WidelyReachable(l) <==> l.enabled && BeyondPrivate(l.address) { WidelyReachableExactly(l); }
    hide IdentityFindings, Findings, AnonymousAllowAnything, WideSource, WidelyReachable, BeyondPrivate;
  }

  /** Anonymous access is reported, with the rules that give it, exactly when some listener asks nobody, the
      default denies, and there are such rules but all of their sources are narrow. */
  lemma AnonymousAccessExactly(ir: ConfigurationIr, rule: PolicyRule)
    ensures Names(ir, AnonymousAccess, rule)
       <==> rule in ir.rules && PlainlyOpen(rule) && ir.defaultAccess == Deny
            && (exists l :: l in ir.listeners && l.enabled && l.authentication == Disabled)
            && (forall other :: other in ir.rules && PlainlyOpen(other) ==> !WideSource(other))
  {
    forall other ensures AnonymousAllowAnything(other) <==> PlainlyOpen(other) { PlainlyOpenExactly(other); }
    hide PlainlyOpen;
    var anonymousRules := RulesWith(ir.rules, AnonymousAllowAnything);
    var openRules := RulesWith(anonymousRules, WideSource);
    assert openRules == [] <==>
      forall other :: other in ir.rules && AnonymousAllowAnything(other) ==> !WideSource(other) by {
      if openRules != [] { assert openRules[0] in openRules; }
    }
    var open := exists l :: l in ir.listeners && l.enabled && l.authentication == Disabled;
    assert open <==> exists l :: l in ir.listeners && Unprotected(l);
    forall f ensures f in Findings(ir) && f.code == AnonymousAccess
                <==> open && ir.defaultAccess == Deny && openRules == [] && f.rules != []
                     && f == Finding(AnonymousAccess, Info, anonymousRules)
    {
      FindingsOf(ir, f);
      hide IdentityFindings, Findings, AnonymousAllowAnything, WideSource, WidelyReachable, Unprotected, RulesWith;
    }
    hide Findings, AnonymousAllowAnything, WideSource;
    if rule in anonymousRules && open && ir.defaultAccess == Deny && openRules == [] {
      assert Finding(AnonymousAccess, Info, anonymousRules) in Findings(ir);
    }
  }
}
