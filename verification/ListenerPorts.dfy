/** The http_port lines of a compiled configuration: one per active listener, bound and named as the
    listener says. */
module ListenerPorts {
  import opened Text
  import opened Ir
  import opened Names
  import opened Squid
  import opened Compiler
  import opened CompilerNames
  import opened CompilerDefinitions
  import opened DefinitionOrder

  /** The http_port lines, in the order of the file. */
  function HttpPorts(conf: seq<Directive>): (r: seq<Directive>)
    ensures forall d :: d in r ==> d.HttpPort?
  {
    if conf == [] then [] else (if conf[0].HttpPort? then [conf[0]] else []) + HttpPorts(conf[1..])
  }

  lemma {:induction false} PortsAreLines(conf: seq<Directive>)
    ensures forall d :: d in HttpPorts(conf) <==> d in conf && d.HttpPort?
  {
    if conf != [] {
      PortsAreLines(conf[1..]);
      assert forall d :: d in conf <==> d == conf[0] || d in conf[1..];
    }
  }

  lemma {:induction false} PortsAppend(a: seq<Directive>, b: seq<Directive>)
    ensures HttpPorts(a + b) == HttpPorts(a) + HttpPorts(b)
  {
    if a == [] {
      assert a + b == b;
    } else {
      assert (a + b)[1..] == a[1..] + b;
      PortsAppend(a[1..], b);
    }
  }

  lemma {:induction false} NoPorts(lines: seq<Directive>)
    requires forall d :: d in lines ==> !d.HttpPort?
    ensures HttpPorts(lines) == []
  {
    if lines != [] { NoPorts(lines[1..]); }
  }

  lemma {:induction false} ActiveSnoc(listeners: seq<Listener>, l: Listener)
    ensures ActiveListeners(listeners + [l]) == ActiveListeners(listeners) + if l.enabled then [l] else []
  {
    if listeners == [] {
      assert [] + [l] == [l] && [l][1..] == [];
    } else {
      assert (listeners + [l])[1..] == listeners[1..] + [l];
      ActiveSnoc(listeners[1..], l);
    }
  }

  /** The line is bound to the address and port of the listener, and named after its key or else its name. */
  predicate BindsTo(d: Directive, l: Listener) {
    d == HttpPort(Slug(if l.key == "" then l.name else l.key), l.address, l.port)
  }

  predicate BindTo(ports: seq<Directive>, active: seq<Listener>) {
    |ports| == |active| && forall i :: 0 <= i < |active| ==> BindsTo(ports[i], active[i])
  }

  lemma StepPorts(st: ListenerState, l: Listener)
    ensures var ports, before := HttpPorts(ListenerStep(st, l).out), HttpPorts(st.out);
            if l.enabled then |ports| == |before| + 1 && ports[..|before|] == before && BindsTo(ports[|before|], l)
            else ports == before
  {
    hide TakeName, Slug, SourceCidrs;
    if l.enabled {
      var acl := TakeName(st.used, "scp_lp_" + PortName(l));
      var first: seq<Directive> := [HttpPort(PortName(l), l.address, l.port)];
      var rest: seq<Directive> := [Acl(acl, MyPortName(PortName(l)))]
        + if SourceCidrs(l) == [] then []
          else [Acl(TakeName(st.used + {acl}, "scp_lpsrc_" + PortName(l)), Src(SourceCidrs(l)))];
      assert ListenerStep(st, l).out == st.out + (first + rest);
      PortsAppend(st.out, first + rest);
      PortsAppend(first, rest);
      NoPorts(rest);
      assert first[1..] == [] && HttpPorts(first) == first;
    }
  }

  lemma {:induction false} StepsPorts(used: set<string>, listeners: seq<Listener>)
    ensures BindTo(HttpPorts(ListenerSteps(used, listeners).out), ActiveListeners(listeners))
  {
    hide ListenerStep, HttpPorts, BindsTo;
    if listeners == [] {
      NoPorts([]);
    } else {
      var init, l := listeners[..|listeners| - 1], listeners[|listeners| - 1];
      StepsPorts(used, init);
      ActiveSnoc(init, l);
      assert init + [l] == listeners;
      StepPorts(ListenerSteps(used, init), l);
    }
  }

  lemma OtherPartsHaveNoPorts(ir: ConfigurationIr)
    ensures HttpPorts(BeforeAllocated(ir)) == [] && HttpPorts(PortLines(ir) + ConfBody(ir)) == []
    ensures var p := RunPhases(ir);
            HttpPorts(p.nets.st.lines + p.groups.lines + p.users.lines
                      + (p.dests.destinationLines + p.dests.scheduleLines)) == []
  {
    var p := RunPhases(ir);
    PhaseInputs(ir);
    BaselineIsOther();
    BodyIsAccess(ir);
    PortLineShape(ir);
    hide RunPhases, NetRules, GroupRules, UserRules, DestRules, ListenerSteps, SortRules, SortProviders, AuthEnabled,
         ConfBody, PortLines, BASELINE, BASELINE_ACCESS, ProviderKeys;
    var rules, providers := SortRules(ir.rules), SortProviders(ir.authentication.providers);
    NetLinesShape({}, rules);
    GroupLinesShape(ir.authentication, providers, p.nets.st.used, if AuthEnabled(ir) then rules else []);
    UserLinesShape(p.groups.used, if AuthEnabled(ir) then rules else []);
    DestLinesShape(p.users.used, rules);
    NoPorts(BeforeAllocated(ir));
    NoPorts(PortLines(ir) + ConfBody(ir));
    NoPorts(p.nets.st.lines + p.groups.lines + p.users.lines + (p.dests.destinationLines + p.dests.scheduleLines));
  }

  lemma PortsOfFile(ir: ConfigurationIr)
    ensures HttpPorts(Compile(ir).squidConf) == HttpPorts(RunPhases(ir).listeners.out)
  {
    var p := RunPhases(ir);
    ConfAround(ir);
    OtherPartsHaveNoPorts(ir);
    hide RunPhases, Compile, HttpPorts, BeforeAllocated, PortLines, ConfBody, ConfHead;
    var lines := p.nets.st.lines + p.groups.lines + p.users.lines + (p.dests.destinationLines + p.dests.scheduleLines);
    assert AllocatedLines(p) == lines + p.listeners.out;
    hide AllocatedLines;
    PortsAppend(lines, p.listeners.out);
    PortsAppend(BeforeAllocated(ir), AllocatedLines(p));
    PortsAppend(BeforeAllocated(ir) + AllocatedLines(p), PortLines(ir) + ConfBody(ir));
  }

  /** The compiled file opens exactly one port per active listener, in their order, bound to its address and
      port and named as its port ACL asks. */
  lemma HttpPortsExactly(ir: ConfigurationIr)
    ensures var ports, active := HttpPorts(Compile(ir).squidConf), ActiveListeners(ir.listeners);
            && |ports| == |active|
            && forall i :: 0 <= i < |active| ==>
                 ports[i] == HttpPort(Slug(if active[i].key == "" then active[i].name else active[i].key),
                                      active[i].address, active[i].port)
                 && ports[i].portName == PortName(active[i])
  {
    PhaseInputs(ir);
    PortsOfFile(ir);
    hide RunPhases, Compile, HttpPorts, ListenerSteps, Slug;
    StepsPorts(RunPhases(ir).dests.used, ir.listeners);
  }
}
