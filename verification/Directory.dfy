/** Resolving stored rules into the intermediate representation (apps/api/src/services/configuration.ts):
    identity groups over a possibly cyclic graph of logical groups, users, and source networks. */
module Directory {
  import opened Text
  import opened Ir
  import opened IpText
  import opened IpRanges
  import opened Compiler
  import opened CompilerCorrect
  import opened Engine
  import opened GroupKeys

  datatype GroupRow = GroupRow(name: string, source: GroupSource, providerKey: Option<string>)

  /** The stored groups by id, and the members of the logical ones. */
  datatype Groups = Groups(rows: map<string, GroupRow>, members: map<string, seq<string>>)

  function MembersOf(g: Groups, id: string): seq<string> { if id in g.members then g.members[id] else [] }

  const MAX_LOGICAL: nat := 5

  function ToGroupRef(g: Groups, id: string, depth: nat): Option<GroupRef>
    requires depth <= MAX_LOGICAL
    decreases MAX_LOGICAL - depth, 1
  {
    if id !in g.rows then None
    else
      var row := g.rows[id];
      if row.source == Logical then
        if depth > MAX_LOGICAL - 1 then None
        else Some(GroupRef(Logical, row.name, None, ToGroupRefs(g, MembersOf(g, id), depth + 1)))
      else Some(GroupRef(row.source, row.name, row.providerKey, []))
  }

  /** The references of those ids that have one. */
  function ToGroupRefs(g: Groups, ids: seq<string>, depth: nat): seq<GroupRef>
    requires depth <= MAX_LOGICAL
    decreases MAX_LOGICAL - depth, 2, |ids|
  {
    if ids == [] then []
    else
      var init, last := ToGroupRefs(g, ids[..|ids| - 1], depth), ToGroupRef(g, ids[|ids| - 1], depth);
      if last.Some? then init + [last.value] else init
  }

  // ----- reachability -----

  /** A path of members from one group to a concrete one: all groups but the last are logical. */
  ghost predicate IsPath(g: Groups, path: seq<string>, from: string, to: string) {
    && path != [] && path[0] == from && path[|path| - 1] == to
    && (forall i :: 0 <= i < |path| ==> path[i] in g.rows)
    && (forall i :: 0 <= i < |path| - 1 ==> g.rows[path[i]].source == Logical && path[i + 1] in MembersOf(g, path[i]))
    && g.rows[to].source != Logical
  }

  /** Some path leads there through at most n logical groups. */
  ghost predicate Reaches(g: Groups, from: string, to: string, n: nat) {
    exists path :: IsPath(g, path, from, to) && |path| <= n + 1
  }

  /** Reachability one step at a time. */
  ghost predicate StepsTo(g: Groups, from: string, to: string, n: nat) {
    from in g.rows &&
    if g.rows[from].source == Logical then n > 0
      && exists child :: child in MembersOf(g, from) && Reaches(g, child, to, n - 1)
    else from == to
  }

  lemma PathStep(g: Groups, from: string, to: string, n: nat)
    ensures Reaches(g, from, to, n) <==> StepsTo(g, from, to, n)
  {
    if Reaches(g, from, to, n) {
      var path :| IsPath(g, path, from, to) && |path| <= n + 1;
      if |path| > 1 {
        assert path[1] in MembersOf(g, path[0]);
        assert IsPath(g, path[1..], path[1], to);
        assert Reaches(g, path[1], to, n - 1);
      }
    }
    if from in g.rows {
      if g.rows[from].source != Logical {
        if from == to { assert IsPath(g, [from], from, to); }
      } else if n > 0 && exists child :: child in MembersOf(g, from) && Reaches(g, child, to, n - 1) {
        var child :| child in MembersOf(g, from) && Reaches(g, child, to, n - 1);
        var rest :| IsPath(g, rest, child, to) && |rest| <= n;
        assert IsPath(g, [from] + rest, from, to);
      }
    }
  }

  /** The reference to a concrete group. */
  function Concrete(g: Groups, id: string): GroupRef
    requires id in g.rows
  {
    GroupRef(g.rows[id].source, g.rows[id].name, g.rows[id].providerKey, [])
  }

  ghost predicate ReachesRef(g: Groups, from: string, n: nat, ref: GroupRef) {
    exists to :: to in g.rows && Reaches(g, from, to, n) && ref == Concrete(g, to)
  }

  lemma {:induction false} RefHoldsReachable(g: Groups, id: string, depth: nat, ref: GroupRef)
    requires depth <= MAX_LOGICAL
    ensures ToGroupRef(g, id, depth).None? ==> !ReachesRef(g, id, MAX_LOGICAL - depth, ref)
    ensures ToGroupRef(g, id, depth).Some? ==>
              (Below(ToGroupRef(g, id, depth).value, depth, ref) <==> ReachesRef(g, id, MAX_LOGICAL - depth, ref))
    decreases MAX_LOGICAL - depth, 1
  {
    hide Reaches;
    var n := MAX_LOGICAL - depth;
    forall to ensures Reaches(g, id, to, n) <==> StepsTo(g, id, to, n) { PathStep(g, id, to, n); }
    if id in g.rows && g.rows[id].source == Logical && depth < MAX_LOGICAL {
      RefsHoldReachable(g, MembersOf(g, id), depth + 1, ref);
    }
  }

  lemma {:induction false} RefsHoldReachable(g: Groups, ids: seq<string>, depth: nat, ref: GroupRef)
    requires depth <= MAX_LOGICAL
    ensures BelowAny(ToGroupRefs(g, ids, depth), depth, ref)
       <==> exists id :: id in ids && ReachesRef(g, id, MAX_LOGICAL - depth, ref)
    decreases MAX_LOGICAL - depth, 2, |ids|
  {
    hide ReachesRef, Below;
    if ids != [] {
      var init, last := ids[..|ids| - 1], ids[|ids| - 1];
      RefsHoldReachable(g, init, depth, ref);
      RefHoldsReachable(g, last, depth, ref);
      var refs, before, here := ToGroupRefs(g, ids, depth), ToGroupRefs(g, init, depth), ToGroupRef(g, last, depth);
      assert BelowAny(refs, depth, ref)
         <==> BelowAny(before, depth, ref) || (here.Some? && Below(here.value, depth, ref)) by {
        assert forall r :: r in refs <==> r in before || (here.Some? && r == here.value);
      }
      hide BelowAny;
      var n := MAX_LOGICAL - depth;
      assert BelowAny(before, depth, ref) <==> exists id :: id in init && ReachesRef(g, id, n, ref);
      assert (here.Some? && Below(here.value, depth, ref)) <==> ReachesRef(g, last, n, ref);
      assert last in ids && forall id :: id in init ==> id in ids;
      if exists id :: id in ids && ReachesRef(g, id, n, ref) {
        var id :| id in ids && ReachesRef(g, id, n, ref);
        assert id in init || id == last;
        assert BelowAny(refs, depth, ref);
      }
    }
  }

  // ----- the identity condition -----

  /** Resolves the groups of a rule, noting those that no longer exist. */
  method ResolveGroups(g: Groups, ids: seq<string>) returns (groups: seq<GroupRef>, missing: nat)
    ensures groups == ToGroupRefs(g, ids, 0)
    ensures |groups| + missing == |ids|
  {
    groups, missing := [], 0;
    for i := 0 to |ids|
      invariant groups == ToGroupRefs(g, ids[..i], 0) && |groups| + missing == i
    {
      assert ids[..i + 1][..i] == ids[..i];
      var ref := ToGroupRef(g, ids[i], 0);
      if ref.None? {
        missing := missing + 1;
        continue;
      }
      groups := groups + [ref.value];
    }
    assert ids[..|ids|] == ids;
  }

  /** The client holds a group reachable from one of the listed ones through at most five logical groups. */
  ghost predicate HoldsReachable(g: Groups, ids: seq<string>, identity: RequestIdentity) {
    exists id, to, held :: id in ids && to in g.rows && Reaches(g, id, to, 5)
                           && held in identity.groups && GroupKey(held) == GroupKey(Concrete(g, to))
  }

  /** For every group graph, cyclic ones included, the group condition holds exactly for the
      authenticated clients that hold a concrete group reachable through at most five logical groups. */
  lemma GroupConditionExactly(g: Groups, ids: seq<string>, identity: RequestIdentity, disabled: bool)
    ensures MatchesIdentity(Group(ToGroupRefs(g, ids, 0)), identity, disabled)
       <==> !disabled && identity.authenticated && HoldsReachable(g, ids, identity)
  {
    hide Reaches, GroupKey, ToGroupRefs, ExpandGroupRefs, BelowAny;
    var refs := ToGroupRefs(g, ids, 0);
    ExpansionIsTheGroupsBelow(refs);
    var out := ExpandGroupRefs(refs);
    if HoldsKey(identity, KeysOf(out)) {
      var held :| held in identity.groups && GroupKey(held) in KeysOf(out);
      var ref :| ref in out && GroupKey(ref) == GroupKey(held);
      RefsHoldReachable(g, ids, 0, ref);
      var id :| id in ids && ReachesRef(g, id, MAX_LOGICAL, ref);
    }
    if HoldsReachable(g, ids, identity) {
      var id, to, held :| id in ids && to in g.rows && Reaches(g, id, to, MAX_LOGICAL)
                          && held in identity.groups && GroupKey(held) == GroupKey(Concrete(g, to));
      assert ReachesRef(g, id, MAX_LOGICAL, Concrete(g, to));
      RefsHoldReachable(g, ids, 0, Concrete(g, to));
      var h :| h in out && GroupKey(h) == GroupKey(Concrete(g, to));
      assert GroupKey(held) in KeysOf(out);
    }
  }

  /** The flattened list names every reachable concrete group once: references that group keys can
      tell apart occur at most once, and nothing unreachable occurs. */
  lemma FlattenedWithoutDuplicates(g: Groups, ids: seq<string>)
    ensures var out := ExpandGroupRefs(ToGroupRefs(g, ids, 0));
            && (forall i, j :: 0 <= i < j < |out| ==> out[i] != out[j])
            && (forall ref :: ref in out ==> exists id :: id in ids && ReachesRef(g, id, MAX_LOGICAL, ref))
  {
    hide GroupKey, ToGroupRefs, ExpandGroupRefs, BelowAny, ReachesRef;
    ExpansionIsTheGroupsBelow(ToGroupRefs(g, ids, 0));
    forall ref | ref in ExpandGroupRefs(ToGroupRefs(g, ids, 0))
      ensures exists id :: id in ids && ReachesRef(g, id, MAX_LOGICAL, ref) {
      RefsHoldReachable(g, ids, 0, ref);
    }
  }

  lemma KeyIsMembership(keys: set<string>, held: GroupRef, ref: GroupRef)
    requires TellableKeys(keys) && Over(keys, ref) && Over(keys, held)
    ensures GroupKey(held) == GroupKey(ref) <==> SameGroup(held, ref)
  {
    hide GroupKey, SameGroup, Over, TellableKeys;
    GroupKeyDeterminesExactly(keys);
  }

  /** The client holds the very group that is reachable: the same source, name and, up to case, provider. */
  ghost predicate HoldsSameReachable(g: Groups, ids: seq<string>, identity: RequestIdentity) {
    exists id, to, held :: id in ids && to in g.rows && Reaches(g, id, to, 5)
                           && held in identity.groups && SameGroup(held, Concrete(g, to))
  }

  lemma ReachedIsConcrete(g: Groups, from: string, to: string)
    requires Reaches(g, from, to, MAX_LOGICAL)
    ensures to in g.rows && g.rows[to].source != Logical
  {
  }

  lemma SameReachable(g: Groups, ids: seq<string>, keys: set<string>, identity: RequestIdentity)
    requires TellableKeys(keys) && forall held :: held in identity.groups ==> Over(keys, held)
    requires forall to :: to in g.rows && g.rows[to].source != Logical ==> Over(keys, Concrete(g, to))
    ensures HoldsReachable(g, ids, identity) <==> HoldsSameReachable(g, ids, identity)
  {
    hide Reaches, GroupKey, SameGroup, Over, TellableKeys, Concrete;
    if HoldsReachable(g, ids, identity) {
      var id, to, held :| id in ids && to in g.rows && Reaches(g, id, to, MAX_LOGICAL)
                          && held in identity.groups && GroupKey(held) == GroupKey(Concrete(g, to));
      ReachedIsConcrete(g, id, to);
      KeyIsMembership(keys, held, Concrete(g, to));
    }
    if HoldsSameReachable(g, ids, identity) {
      var id, to, held :| id in ids && to in g.rows && Reaches(g, id, to, MAX_LOGICAL)
                          && held in identity.groups && SameGroup(held, Concrete(g, to));
      ReachedIsConcrete(g, id, to);
      KeyIsMembership(keys, held, Concrete(g, to));
    }
  }

  /** Where the provider keys in use are tellable, the condition holds exactly for the authenticated
      clients that hold the very group that is reachable, not just its key. */
  lemma HoldsTheGroupItself(g: Groups, ids: seq<string>, keys: set<string>, identity: RequestIdentity, disabled: bool)
    requires TellableKeys(keys) && forall held :: held in identity.groups ==> Over(keys, held)
    requires forall to :: to in g.rows && g.rows[to].source != Logical ==> Over(keys, Concrete(g, to))
    ensures MatchesIdentity(Group(ToGroupRefs(g, ids, 0)), identity, disabled)
       <==> !disabled && identity.authenticated && HoldsSameReachable(g, ids, identity)
  {
    GroupConditionExactly(g, ids, identity, disabled);
    SameReachable(g, ids, keys, identity);
    hide HoldsReachable, HoldsSameReachable, MatchesIdentity, ToGroupRefs, TellableKeys, Over;
  }

  // ----- users and networks -----

  /** The users that exist and have a name, in the order in which the rule lists them. */
  function ResolvedUsers(users: map<string, string>, ids: seq<string>): (r: seq<UserRef>)
    ensures |r| <= |ids|
    ensures forall u :: u in r <==>
              (u.providerKey == None && exists id :: id in ids && id in users && users[id] == u.username != "")
  {
    if ids == [] then []
    else
      var last := ids[|ids| - 1];
      ResolvedUsers(users, ids[..|ids| - 1])
      + if last in users && users[last] != "" then [UserRef(None, users[last])] else []
  }

  method ResolveUsers(users: map<string, string>, ids: seq<string>) returns (refs: seq<UserRef>, missing: nat)
    ensures refs == ResolvedUsers(users, ids) && missing == |ids| - |refs|
  {
    refs, missing := [], 0;
    for i := 0 to |ids|
      invariant refs == ResolvedUsers(users, ids[..i]) && missing == i - |refs|
    {
      assert ids[..i + 1][..i] == ids[..i];
      if ids[i] !in users || users[ids[i]] == "" {
        missing := missing + 1;
        continue;
      }
      refs := refs + [UserRef(None, users[ids[i]])];
    }
    assert ids[..|ids|] == ids;
  }

  type NetworkTable = map<string, Network>

  function Existing(table: NetworkTable, ids: seq<string>): (r: seq<Network>)
    ensures forall n :: n in r <==> exists id :: id in ids && id in table && table[id] == n
  {
    if ids == [] then []
    else Existing(table, ids[..|ids| - 1]) + if ids[|ids| - 1] in table then [table[ids[|ids| - 1]]] else []
  }

  function ResolvedSource(table: NetworkTable, ids: seq<string>): SourceMatcher {
    if Existing(table, ids) == [] then AnySource else Networks(Existing(table, ids))
  }

  method ResolveSource(table: NetworkTable, ids: seq<string>) returns (source: SourceMatcher, missing: nat)
    ensures source == ResolvedSource(table, ids)
    ensures missing == |ids| - |Existing(table, ids)|
  {
    var networks: seq<Network> := [];
    missing := 0;
    for i := 0 to |ids|
      invariant networks == Existing(table, ids[..i]) && missing == i - |networks|
    {
      assert ids[..i + 1][..i] == ids[..i];
      if ids[i] !in table {
        missing := missing + 1;
        continue;
      }
      networks := networks + [table[ids[i]]];
    }
    assert ids[..|ids|] == ids;
    source := if |networks| > 0 then Networks(networks) else AnySource;
  }

  /** A rule limited to networks keeps its limit exactly as long as one of them exists: when the last
      one is deleted the rule applies to clients everywhere. */
  lemma LimitIsKeptExactly(table: NetworkTable, ids: seq<string>)
    ensures (forall ip ::
              (MatchesSource(ResolvedSource(table, ids), ip) <==> MatchesSource(Networks(Existing(table, ids)), ip)))
       <==> exists id :: id in ids && id in table
  {
    hide MatchesNetworks;
    var networks := Existing(table, ids);
    if networks != [] { assert networks[0] in networks; }
    if id :| id in ids && id in table { assert table[id] in networks; }
    if networks == [] {
      NoNetworkMatchesNothing("");
      assert MatchesSource(ResolvedSource(table, ids), "") != MatchesSource(Networks(networks), "");
    }
  }

  lemma NoNetworkMatchesNothing(ip: string)
    ensures !MatchesSource(Networks([]), ip)
  {
  }

  // ----- listeners -----

  lemma {:induction false} AnyOfAllCidrs(a: IpAddress, networks: seq<Network>)
    ensures IpInAnyCidr(a, AllCidrs(networks)) <==> exists n :: n in networks && IpInAnyCidr(a, n.cidrs)
  {
    hide ParseCidr, CidrContains;
    if networks != [] {
      AnyOfAllCidrs(a, networks[1..]);
      assert forall n :: n in networks <==> n == networks[0] || n in networks[1..];
      assert AllCidrs(networks) == networks[0].cidrs + AllCidrs(networks[1..]);
    }
  }

  lemma EmptyEntriesMatchNothing(a: IpAddress, cidrs: seq<string>)
    ensures IpInAnyCidr(a, NonEmpty(cidrs)) <==> IpInAnyCidr(a, cidrs)
  {
    assert ParseCidr("").None?;
    hide ParseCidr, CidrContains;
  }

  lemma GuardAdmits(l: Listener, ip: string)
    requires SourceCidrs(l) != []
    ensures AdmitsSource(l, ip) <==> MatchesNetworks(l.sourceNetworks, ip)
  {
    hide ParseIp, IpInAnyCidr, NonEmpty, AllCidrs;
    if ParseIp(ip).Some? {
      EmptyEntriesMatchNothing(ParseIp(ip).value, AllCidrs(l.sourceNetworks));
      AnyOfAllCidrs(ParseIp(ip).value, l.sourceNetworks);
    }
  }

  predicate HasEntry(n: Network) { exists text :: text in n.cidrs && text != "" }

  lemma SomeEntry(networks: seq<Network>)
    ensures NonEmpty(AllCidrs(networks)) != [] <==> exists n :: n in networks && HasEntry(n)
  {
    CidrsOfNetworks(networks);
    var cidrs := NonEmpty(AllCidrs(networks));
    hide AllCidrs, NonEmpty;
    if cidrs != [] { assert cidrs[0] in cidrs; }
    if n :| n in networks && HasEntry(n) {
      var text :| text in n.cidrs && text != "";
      assert text in cidrs;
    }
  }

  lemma {:induction false} CidrsOfNetworks(networks: seq<Network>)
    ensures forall text :: text in AllCidrs(networks) <==> exists n :: n in networks && text in n.cidrs
  {
    if networks != [] {
      CidrsOfNetworks(networks[1..]);
      assert forall n :: n in networks <==> n == networks[0] || n in networks[1..];
    }
  }

  /** A listener limited to networks admits exactly their addresses as long as one of them exists and has
      an entry; otherwise its guard is gone and it admits every source. */
  lemma ListenerLimitIsKeptExactly(table: NetworkTable, ids: seq<string>, l: Listener)
    requires l.sourceNetworks == Existing(table, ids)
    ensures (forall ip :: AdmitsSource(l, ip) <==> MatchesNetworks(Existing(table, ids), ip))
       <==> exists id :: id in ids && id in table && HasEntry(table[id])
    ensures (exists id :: id in ids && id in table && HasEntry(table[id])) || forall ip :: AdmitsSource(l, ip)
  {
    SomeEntry(l.sourceNetworks);
    assert SourceCidrs(l) == NonEmpty(AllCidrs(l.sourceNetworks));
    hide NonEmpty, AllCidrs, HasEntry, SourceCidrs, MatchesNetworks;
    if SourceCidrs(l) != [] {
      forall ip ensures AdmitsSource(l, ip) <==> MatchesNetworks(l.sourceNetworks, ip) { GuardAdmits(l, ip); }
    } else {
      NoAddressNoNetwork(l.sourceNetworks);
      assert AdmitsSource(l, "") && !MatchesNetworks(l.sourceNetworks, "");
    }
  }

  lemma NoAddressNoNetwork(networks: seq<Network>)
    ensures !MatchesNetworks(networks, "")
  {
    assert ParseIp("").None?;
  }
}
