/** The configuration intermediate representation of packages/shared/src/policy/ir.ts. */
module Ir {
  import opened Sorting
  import opened Text

  datatype Action = Allow | Deny

  datatype AuthMode = Disabled | Optional | Required

  datatype GroupSource = Local | External | Logical

  datatype UserRef = UserRef(providerKey: Option<string>, username: string)

  datatype GroupRef = GroupRef(source: GroupSource, name: string, providerKey: Option<string>, expandsTo: seq<GroupRef>)

  datatype IdentityMatcher =
    | AnyIdentity
    | Authenticated
    | Unauthenticated
    | User(users: seq<UserRef>)
    | Group(groups: seq<GroupRef>)
  {
    predicate NeedsIdentity() { Authenticated? || User? || Group? }
  }

  datatype Network = Network(id: string, name: string, cidrs: seq<string>)

  datatype SourceMatcher = AnySource | Networks(networks: seq<Network>)

  datatype DestinationMatcher =
    | AnyDestination
    | Specific(domains: seq<string>, cidrs: seq<string>, ports: seq<int>)

  datatype Weekday = Mon | Tue | Wed | Thu | Fri | Sat | Sun

  datatype ScheduleMatcher = Always | Window(days: seq<Weekday>, startMinutes: int, endMinutes: int)

  datatype PolicyRule = PolicyRule(
    id: string,
    position: int,
    name: string,
    enabled: bool,
    action: Action,
    source: SourceMatcher,
    identity: IdentityMatcher,
    destination: DestinationMatcher,
    schedule: ScheduleMatcher)

  datatype Listener = Listener(
    id: string,
    name: string,
    key: string,
    address: string,
    port: int,
    enabled: bool,
    authentication: AuthMode,
    sourceNetworks: seq<Network>)

  datatype Helper = Ncsa | Ldap

  datatype Provider = Provider(key: string, name: string, priority: int, helper: Helper)

  datatype AuthenticationIr = AuthenticationIr(
    mode: AuthMode,
    providers: seq<Provider>,
    localGroupMembers: map<string, seq<string>>)

  datatype ConfigurationIr = ConfigurationIr(
    generatedAt: string,
    authentication: AuthenticationIr,
    defaultAccess: Action,
    listeners: seq<Listener>,
    rules: seq<PolicyRule>)

  // ----- group references -----

  function GroupPrefix(ref: GroupRef): string {
    match ref.source
    case Local => "LOCAL"
    case Logical => "LOGICAL"
    case External => Upper(ref.providerKey.GetOr(k => k, "EXTERNAL"))
  }

  /** Canonical key used to compare group references across sources. */
  function GroupKey(ref: GroupRef): string { GroupPrefix(ref) + ":" + ref.name }

  const MAX_GROUP_DEPTH: nat := 8

  datatype Expansion = Expansion(out: seq<GroupRef>, seen: set<string>)

  function VisitRef(ref: GroupRef, depth: nat, e: Expansion): Expansion
    decreases ref, 1
  {
    if depth > MAX_GROUP_DEPTH then e
    else if ref.source == Logical then VisitRefs(ref.expandsTo, depth + 1, e)
    else if GroupKey(ref) in e.seen then e
    else Expansion(e.out + [ref], e.seen + {GroupKey(ref)})
  }

  function VisitRefs(refs: seq<GroupRef>, depth: nat, e: Expansion): Expansion
    decreases refs, 0
  {
    if refs == [] then e
    else VisitRefs(refs[1..], depth, VisitRef(refs[0], depth, e))
  }

  /** Flattens logical groups into the concrete groups they contain. */
  function ExpandGroupRefs(refs: seq<GroupRef>): seq<GroupRef> {
    VisitRefs(refs, 0, Expansion([], {})).out
  }

  /** The accumulating visitor behind the expansion: it appends to out and adds to seen. */
  class GroupExpander {
    var out: seq<GroupRef>
    var seen: set<string>

    constructor ()
      ensures out == [] && seen == {}
    {
      out, seen := [], {};
    }

    method Visit(ref: GroupRef, depth: nat)
      modifies this
      ensures Expansion(out, seen) == VisitRef(ref, depth, old(Expansion(out, seen)))
      decreases ref
    {
      if depth > MAX_GROUP_DEPTH { return; }
      if ref.source == Logical {
        for i := 0 to |ref.expandsTo|
          invariant VisitRefs(ref.expandsTo[i..], depth + 1, Expansion(out, seen))
                 == VisitRefs(ref.expandsTo, depth + 1, old(Expansion(out, seen)))
        {
          assert ref.expandsTo[i..][0] == ref.expandsTo[i] && ref.expandsTo[i..][1..] == ref.expandsTo[i + 1..];
          Visit(ref.expandsTo[i], depth + 1);
        }
        return;
      }
      var key := GroupKey(ref);
      if key in seen { return; }
      seen := seen + {key};
      out := out + [ref];
    }
  }

  method ExpandAll(refs: seq<GroupRef>) returns (out: seq<GroupRef>)
    ensures out == ExpandGroupRefs(refs)
  {
    var expander := new GroupExpander();
    for i := 0 to |refs|
      invariant VisitRefs(refs[i..], 0, Expansion(expander.out, expander.seen)) == VisitRefs(refs, 0, Expansion([], {}))
    {
      assert refs[i..][0] == refs[i] && refs[i..][1..] == refs[i + 1..];
      expander.Visit(refs[i], 0);
    }
    return expander.out;
  }

  /** g is a concrete group below ref, with the visitor entering ref at the given depth. */
  ghost predicate Below(ref: GroupRef, depth: nat, g: GroupRef)
    decreases ref
  {
    depth <= 8 &&
    if ref.source == Logical then exists child :: child in ref.expandsTo && Below(child, depth + 1, g)
    else ref == g
  }

  ghost predicate BelowAny(refs: seq<GroupRef>, depth: nat, g: GroupRef) {
    exists ref :: ref in refs && Below(ref, depth, g)
  }

  ghost predicate Tidy(e: Expansion) {
    && (forall key :: key in e.seen <==> exists g :: g in e.out && GroupKey(g) == key)
    && (forall i, j :: 0 <= i < j < |e.out| ==> GroupKey(e.out[i]) != GroupKey(e.out[j]))
    && (forall g :: g in e.out ==> g.source != Logical)
  }

  /** What one visit adds: the keys of the concrete groups below, and only groups from there. */
  ghost predicate Grows(e: Expansion, e': Expansion, below: GroupRef -> bool) {
    && Tidy(e')
    && e.out <= e'.out
    && e.seen <= e'.seen
    && (forall g :: g in e'.out ==> g in e.out || below(g))
    && (forall g :: below(g) ==> GroupKey(g) in e'.seen)
  }

  lemma AddingStaysTidy(e: Expansion, ref: GroupRef)
    requires Tidy(e) && ref.source != Logical && GroupKey(ref) !in e.seen
    ensures Tidy(Expansion(e.out + [ref], e.seen + {GroupKey(ref)}))
  {
    hide GroupKey;
    var e' := Expansion(e.out + [ref], e.seen + {GroupKey(ref)});
    assert ref in e'.out;
    forall key ensures key in e'.seen <==> exists g :: g in e'.out && GroupKey(g) == key {
      if key in e.seen {
        var g :| g in e.out && GroupKey(g) == key;
        assert g in e'.out;
      }
    }
  }

  lemma {:induction false} VisitRefGrows(ref: GroupRef, depth: nat, e: Expansion)
    requires Tidy(e)
    ensures Grows(e, VisitRef(ref, depth, e), g => Below(ref, depth, g))
    decreases ref, 1
  {
    hide Tidy;
    if depth <= MAX_GROUP_DEPTH {
      if ref.source == Logical {
        VisitRefsGrows(ref.expandsTo, depth + 1, e);
      } else if GroupKey(ref) !in e.seen {
        AddingStaysTidy(e, ref);
      }
    }
  }

  lemma {:induction false} VisitRefsGrows(refs: seq<GroupRef>, depth: nat, e: Expansion)
    requires Tidy(e)
    ensures Grows(e, VisitRefs(refs, depth, e), g => BelowAny(refs, depth, g))
    decreases refs, 0
  {
    if refs != [] {
      var e1 := VisitRef(refs[0], depth, e);
      VisitRefGrows(refs[0], depth, e);
      VisitRefsGrows(refs[1..], depth, e1);
      var e2 := VisitRefs(refs, depth, e);
      assert forall ref :: ref in refs <==> ref == refs[0] || ref in refs[1..];
      forall g | g in e2.out ensures g in e.out || BelowAny(refs, depth, g) {
        if g !in e.out {
          assert Below(refs[0], depth, g) || BelowAny(refs[1..], depth, g);
        }
      }
    }
  }

  /** The expansion holds each concrete group below the references once, up to its key. */
  lemma ExpansionIsTheGroupsBelow(refs: seq<GroupRef>)
    ensures var out := ExpandGroupRefs(refs);
            && (forall g :: g in out ==> BelowAny(refs, 0, g) && g.source != Logical)
            && (forall g :: BelowAny(refs, 0, g) ==> exists h :: h in out && GroupKey(h) == GroupKey(g))
            && (forall i, j :: 0 <= i < j < |out| ==> GroupKey(out[i]) != GroupKey(out[j]))
  {
    var e := VisitRefs(refs, 0, Expansion([], {}));
    VisitRefsGrows(refs, 0, Expansion([], {}));
    assert forall g :: (g => BelowAny(refs, 0, g))(g) <==> BelowAny(refs, 0, g);
    forall g | BelowAny(refs, 0, g) ensures exists h :: h in e.out && GroupKey(h) == GroupKey(g) {
      assert (g => BelowAny(refs, 0, g))(g);
      assert GroupKey(g) in e.seen;
    }
  }

  // ----- rule order -----

  predicate RuleLe(a: PolicyRule, b: PolicyRule) {
    a.position < b.position || (a.position == b.position && StringLe(a.id, b.id))
  }

  /** The order in which rules are evaluated: by position, then by id. */
  function SortRules(rules: seq<PolicyRule>): seq<PolicyRule> { Sort(rules, RuleLe) }

  predicate ProviderLe(a: Provider, b: Provider) {
    a.priority < b.priority || (a.priority == b.priority && StringLe(a.key, b.key))
  }

  function SortProviders(providers: seq<Provider>): seq<Provider> { Sort(providers, ProviderLe) }

  lemma SortRulesMultiset(rules: seq<PolicyRule>)
    ensures multiset(SortRules(rules)) == multiset(rules)
    ensures forall r :: r in SortRules(rules) <==> r in rules
  {
    SortMultiset(rules, RuleLe);
  }

  lemma SortProvidersMultiset(providers: seq<Provider>)
    ensures multiset(SortProviders(providers)) == multiset(providers)
    ensures forall p :: p in SortProviders(providers) <==> p in providers
  {
    SortMultiset(providers, ProviderLe);
  }
}
