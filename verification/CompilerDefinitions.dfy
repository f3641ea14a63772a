/** Where the ACLs of a compiled configuration are defined: each allocated name exactly once, and
    every name before its first use, with the one exception stated exactly. */
module CompilerDefinitions {
  import opened Text
  import opened Ir
  import opened Names
  import opened Squid
  import opened Compiler
  import opened CompilerNames

  // ----- shapes of the remaining parts -----

  lemma {:induction false} ListenerShapes(used: set<string>, listeners: seq<Listener>)
    ensures var s := ListenerSteps(used, listeners);
            && (forall d :: d in s.guards ==> d.HttpAccess?)
            && (forall d :: d in s.authPorts ==> d.Acl? && d.name == AUTH_PORTS_ACL && d.test.MyPortName?)
            && (forall d :: d in s.out ==> d.HttpPort? || d.Acl?)
  {
    if listeners != [] { ListenerShapes(used, listeners[..|listeners| - 1]); }
  }

  lemma {:induction false} RuleShapes(rules: seq<PolicyRule>, c: RuleContext)
    ensures forall d :: d in RuleSteps(rules, c).out ==> d.HttpAccess?
  {
    if rules != [] { RuleShapes(rules[..|rules| - 1], c); }
  }

  function ConfBody(ir: ConfigurationIr): seq<Directive> {
    var p := RunPhases(ir);
    p.listeners.guards + RuleSteps(SortRules(ir.rules), ContextOf(ir, p)).out + [DefaultLine(ir.defaultAccess)]
  }

  function ConfHead(ir: ConfigurationIr): seq<Directive> {
    [Generated(ir.generatedAt)] + BASELINE + BASELINE_ACCESS + Definitions(ir, RunPhases(ir))
  }

  lemma ConfSplits(ir: ConfigurationIr)
    ensures Compile(ir).squidConf == ConfHead(ir) + ConfBody(ir)
  {
    hide RunPhases, RuleSteps, Definitions, ContextOf;
    var p := RunPhases(ir);
    var a, g := ConfHead(ir), p.listeners.guards;
    var r, d := RuleSteps(SortRules(ir.rules), ContextOf(ir, p)).out, [DefaultLine(ir.defaultAccess)];
    assert a + g + r + d == a + (g + r + d);
  }

  lemma BodyIsAccess(ir: ConfigurationIr)
    ensures forall d :: d in ConfBody(ir) ==> d.HttpAccess?
  {
    var p := RunPhases(ir);
    hide RunPhases, RuleSteps, ListenerSteps, ContextOf;
    assert forall d :: d in p.listeners.guards ==> d.HttpAccess? by {
      PhaseInputs(ir);
      ListenerShapes(p.dests.used, ir.listeners);
    }
    RuleShapes(SortRules(ir.rules), ContextOf(ir, p));
  }

  lemma PhaseInputs(ir: ConfigurationIr)
    ensures var p := RunPhases(ir);
            var rules, providers := SortRules(ir.rules), SortProviders(ir.authentication.providers);
            var authRules := if AuthEnabled(ir) then rules else [];
            && p.nets == NetRules({}, rules)
            && p.groups == GroupRules(ir.authentication, providers, p.nets.st.used, authRules)
            && p.users == UserRules(p.groups.used, authRules)
            && p.dests == DestRules(p.users.used, rules)
            && p.listeners == ListenerSteps(p.dests.used, ir.listeners)
  {
  }

  // ----- every allocated name has exactly one definition -----

  function BeforeAllocated(ir: ConfigurationIr): seq<Directive> {
    [Generated(ir.generatedAt)] + BASELINE + BASELINE_ACCESS
    + AuthLines(AuthEnabled(ir), SortProviders(ir.authentication.providers))
  }

  function PortLines(ir: ConfigurationIr): seq<Directive> {
    var p := RunPhases(ir);
    if Guarded(ir, p.listeners) then p.listeners.authPorts else []
  }

  lemma BaselineIsOther()
    ensures forall e :: e in BASELINE ==> e.Acl? && e.name != AUTHENTICATED_ACL
    ensures forall e :: e in BASELINE_ACCESS ==> e.HttpAccess?
  {
    assert AUTHENTICATED_ACL[1] == 'c' && "SSL_ports"[1] == 'S' && "Safe_ports"[1] == 'a' && "CONNECT"[1] == 'O';
  }

  lemma ConfAround(ir: ConfigurationIr)
    ensures Compile(ir).squidConf
         == BeforeAllocated(ir) + AllocatedLines(RunPhases(ir)) + (PortLines(ir) + ConfBody(ir))
    ensures ConfHead(ir) == BeforeAllocated(ir) + AllocatedLines(RunPhases(ir)) + PortLines(ir)
  {
    ConfSplits(ir);
    hide RunPhases, ConfBody, BASELINE, BASELINE_ACCESS, AuthLines, Guarded, Compile, AuthEnabled, SortProviders;
    var p := RunPhases(ir);
    var a := p.nets.st.lines + p.groups.lines + p.users.lines;
    var d, t := p.dests.destinationLines, p.dests.scheduleLines;
    assert a + (d + t) == a + d + t;
    var pre := [Generated(ir.generatedAt)] + BASELINE + BASELINE_ACCESS;
    var auth := AuthLines(AuthEnabled(ir), SortProviders(ir.authentication.providers));
    assert Definitions(ir, p) == auth + AllocatedLines(p) + PortLines(ir);
    assert pre + (auth + AllocatedLines(p) + PortLines(ir)) == (pre + auth) + AllocatedLines(p) + PortLines(ir);
    assert ConfHead(ir) == pre + Definitions(ir, p);
    assert ConfHead(ir) + ConfBody(ir) == BeforeAllocated(ir) + AllocatedLines(p) + (PortLines(ir) + ConfBody(ir));
  }

  lemma FixedAround(ir: ConfigurationIr)
    ensures forall d :: d in BeforeAllocated(ir) && d.Acl? ==> d.name in FIXED_NAMES
    ensures forall d :: d in PortLines(ir) + ConfBody(ir) && d.Acl? ==> d.name == AUTH_PORTS_ACL
  {
    BodyIsAccess(ir);
    PortLineShape(ir);
    hide RunPhases, ConfBody, PortLines;
  }

  lemma PortLineShape(ir: ConfigurationIr)
    ensures forall d :: d in PortLines(ir) ==> d.Acl? && d.name == AUTH_PORTS_ACL && d.test.MyPortName?
  {
    var p := RunPhases(ir);
    PhaseInputs(ir);
    ListenerShapes(p.dests.used, ir.listeners);
    hide RunPhases, ListenerSteps;
  }

  predicate DefinesAt(conf: seq<Directive>, i: nat, name: string) {
    i < |conf| && conf[i].Acl? && conf[i].name == name
  }

  lemma UniqueInTheMiddle(pre: seq<Directive>, mid: seq<Directive>, post: seq<Directive>, i: nat, name: string)
    requires i < |mid| && mid[i].Acl? && mid[i].name == name
    requires forall i, j :: 0 <= i < j < |mid| && mid[i].Acl? && mid[j].Acl? ==> mid[i].name != mid[j].name
    requires forall d :: (d in pre || d in post) && d.Acl? ==> d.name != name
    ensures var conf := pre + mid + post;
            conf[|pre| + i] == mid[i] && forall j: nat :: DefinesAt(conf, j, name) <==> j == |pre| + i
  {
    var conf := pre + mid + post;
    forall j: nat | j != |pre| + i ensures !DefinesAt(conf, j, name) {
      if j < |pre| {
        assert conf[j] in pre;
      } else if |pre| + |mid| <= j < |conf| {
        assert conf[j] in post;
      }
    }
  }

  /** Every allocated name has exactly one definition in the file, and is none of the fixed names. */
  lemma AllocatedOnce(ir: ConfigurationIr, name: string) returns (at: nat)
    requires name in RunPhases(ir).listeners.used
    ensures name !in FIXED_NAMES
    ensures forall j: nat :: DefinesAt(Compile(ir).squidConf, j, name) <==> j == at
  {
    hide RunPhases, ConfBody, BeforeAllocated, PortLines, Compile, AllocatedLines, FIXED_NAMES;
    var lines := AllocatedLines(RunPhases(ir));
    PhasesAllocate(ir);
    ConfAround(ir);
    FixedAround(ir);
    AllocatedIsNotFixed(name);
    NameIsNotPorts(name);
    assert HasAcl(lines, name);
    var i :| 0 <= i < |lines| && lines[i].Acl? && lines[i].name == name;
    UniqueInTheMiddle(BeforeAllocated(ir), lines, PortLines(ir) + ConfBody(ir), i, name);
    at := |BeforeAllocated(ir)| + i;
  }

  lemma NameIsNotPorts(name: string)
    requires name !in FIXED_NAMES
    ensures name != AUTH_PORTS_ACL && name != AUTHENTICATED_ACL && name !in BUILT_IN
  {
  }

  lemma AllocatedDenotes(ir: ConfigurationIr, name: string, test: AclTest)
    requires Acl(name, test) in AllocatedLines(RunPhases(ir))
    ensures Denotes(Compile(ir).squidConf, name, test)
  {
    hide RunPhases, ConfBody, BeforeAllocated, PortLines, Compile, AllocatedLines, FIXED_NAMES, BUILT_IN;
    var conf, lines := Compile(ir).squidConf, AllocatedLines(RunPhases(ir));
    PhasesAllocate(ir);
    ConfAround(ir);
    FixedAround(ir);
    AllocatedIsNotFixed(name);
    NameIsNotPorts(name);
    var i :| 0 <= i < |lines| && lines[i] == Acl(name, test);
    UniqueInTheMiddle(BeforeAllocated(ir), lines, PortLines(ir) + ConfBody(ir), i, name);
    forall d | d in conf && d.Acl? && d.name == name ensures d.test == test {
      var j :| 0 <= j < |conf| && conf[j] == d;
      assert DefinesAt(conf, j, name);
    }
  }
}
