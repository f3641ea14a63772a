/** What the keys of group references tell: groupKey, by which the engine compares groups, and the
    key under which the compiler remembers the ACL of a group. */
module GroupKeys {
  import opened Text
  import opened Ir
  import opened Engine
  import opened Compiler

  /** A concrete reference whose provider key, if it has one, is among the given ones. */
  predicate Over(keys: set<string>, ref: GroupRef) {
    ref.source != Logical && (ref.source == External && ref.providerKey.Some? ==> ref.providerKey.value in keys)
  }

  /** Same source and name, and for external groups the same provider up to its case. */
  predicate SameGroup(a: GroupRef, b: GroupRef) {
    && a.source == b.source
    && a.name == b.name
    && (a.source == External ==>
          && (a.providerKey.Some? <==> b.providerKey.Some?)
          && (a.providerKey.Some? ==> Upper(a.providerKey.value) == Upper(b.providerKey.value)))
  }

  function Prefixes(keys: set<string>): set<string> { {"LOCAL", "EXTERNAL"} + set k | k in keys :: Upper(k) }

  /** No prefix begins another one up to a colon. */
  predicate Apart(prefixes: set<string>) { forall p, q :: p in prefixes && q in prefixes ==> !(p + ":" <= q) }

  /** No provider key reads LOCAL or EXTERNAL in capitals, and no prefix begins another one up to a colon. */
  predicate TellableKeys(keys: set<string>) {
    && (forall k :: k in keys ==> Upper(k) != "LOCAL" && Upper(k) != "EXTERNAL")
    && Apart(Prefixes(keys))
  }

  lemma ShorterBegins(p: string, x: string, q: string, y: string)
    requires p + ":" + x == q + ":" + y
    ensures |p| < |q| ==> p + ":" <= q
    ensures |p| == |q| ==> p == q && x == y
  {
    var s, t := p + ":" + x, q + ":" + y;
    if |p| < |q| {
      assert s[..|p| + 1] == p + ":" && t[..|p| + 1] == q[..|p| + 1];
    } else if |p| == |q| {
      assert s[..|p|] == p && t[..|q|] == q && s[|p| + 1..] == x && t[|q| + 1..] == y;
    }
  }

  lemma ApartMeans(p: string, x: string, q: string, y: string)
    requires !(p + ":" <= q) && !(q + ":" <= p) && p + ":" + x == q + ":" + y
    ensures p == q && x == y
  {
    ShorterBegins(p, x, q, y);
    ShorterBegins(q, y, p, x);
  }

  lemma PrefixIsAmong(keys: set<string>, ref: GroupRef)
    requires Over(keys, ref)
    ensures GroupPrefix(ref) in Prefixes(keys)
  {
    assert Upper("EXTERNAL") == "EXTERNAL";
    hide Upper;
  }

  lemma TellableKeysDetermine(keys: set<string>, a: GroupRef, b: GroupRef)
    requires TellableKeys(keys) && Over(keys, a) && Over(keys, b) && GroupKey(a) == GroupKey(b)
    ensures SameGroup(a, b)
  {
    PrefixIsAmong(keys, a);
    PrefixIsAmong(keys, b);
    assert Upper("EXTERNAL") == "EXTERNAL" != "LOCAL";
    hide Upper, Prefixes;
    ApartMeans(GroupPrefix(a), a.name, GroupPrefix(b), b.name);
  }

  lemma RefOf(keys: set<string>, prefix: string, name: string) returns (ref: GroupRef)
    requires prefix in Prefixes(keys)
    ensures Over(keys, ref) && ref.name == name && GroupPrefix(ref) == prefix
  {
    assert Upper("EXTERNAL") == "EXTERNAL";
    hide Upper;
    if prefix == "LOCAL" {
      ref := GroupRef(Local, name, None, []);
    } else if prefix == "EXTERNAL" {
      ref := GroupRef(External, name, None, []);
    } else {
      var k :| k in keys && Upper(k) == prefix;
      ref := GroupRef(External, name, Some(k), []);
    }
  }

  lemma BeginningsCollide(keys: set<string>, p: string, q: string) returns (a: GroupRef, b: GroupRef)
    requires p in Prefixes(keys) && q in Prefixes(keys) && p + ":" <= q
    ensures Over(keys, a) && Over(keys, b) && GroupKey(a) == GroupKey(b) && a.name != b.name
  {
    hide Prefixes, Over, GroupPrefix;
    var rest := q[|p| + 1..];
    a := RefOf(keys, p, rest + ":staff");
    b := RefOf(keys, q, "staff");
    assert q == p + ":" + rest;
    assert p + ":" + (rest + ":staff") == q + ":" + "staff";
    assert |a.name| != |b.name|;
  }

  lemma SomeKeysCollide(keys: set<string>) returns (a: GroupRef, b: GroupRef)
    requires !TellableKeys(keys)
    ensures Over(keys, a) && Over(keys, b) && GroupKey(a) == GroupKey(b) && !SameGroup(a, b)
  {
    if k :| k in keys && Upper(k) == "LOCAL" {
      a, b := GroupRef(External, "staff", Some(k), []), GroupRef(Local, "staff", None, []);
    } else if k :| k in keys && Upper(k) == "EXTERNAL" {
      a, b := GroupRef(External, "staff", Some(k), []), GroupRef(External, "staff", None, []);
      assert Upper("EXTERNAL") == "EXTERNAL";
    } else {
      hide Upper, Prefixes, Over, GroupKey;
      var p, q :| p in Prefixes(keys) && q in Prefixes(keys) && p + ":" <= q;
      a, b := BeginningsCollide(keys, p, q);
    }
  }

  lemma SameGroupSameKey(a: GroupRef, b: GroupRef)
    requires SameGroup(a, b) && a.source != Logical
    ensures GroupKey(a) == GroupKey(b)
  {
  }

  /** Over a set of provider keys the group key determines the group exactly when the keys are tellable. */
  lemma GroupKeyDeterminesExactly(keys: set<string>)
    ensures (forall a, b :: Over(keys, a) && Over(keys, b) ==> (GroupKey(a) == GroupKey(b) <==> SameGroup(a, b)))
       <==> TellableKeys(keys)
  {
    hide GroupKey, SameGroup, Over;
    if TellableKeys(keys) {
      forall a, b | Over(keys, a) && Over(keys, b) ensures GroupKey(a) == GroupKey(b) <==> SameGroup(a, b) {
        if GroupKey(a) == GroupKey(b) { TellableKeysDetermine(keys, a, b); }
        if SameGroup(a, b) { OverIsConcrete(keys, a); SameGroupSameKey(a, b); }
      }
    } else {
      var a, b := SomeKeysCollide(keys);
    }
  }

  lemma OverIsConcrete(keys: set<string>, ref: GroupRef)
    requires Over(keys, ref)
    ensures ref.source != Logical
  {
  }

  // ----- what a collision does to a rule -----

  lemma HoldingOne(a: GroupRef, b: GroupRef, identity: RequestIdentity)
    requires identity.authenticated && identity.groups == [a] && b.source != Logical
    ensures MatchesIdentity(Group([b]), identity, false) <==> GroupKey(a) == GroupKey(b)
  {
    hide GroupKey;
    assert [b][1..] == [] && ExpandGroupRefs([b]) == VisitRefs([], 0, VisitRef(b, 0, Expansion([], {}))).out == [b];
    assert a in identity.groups && b in [b];
  }

  /** The client of exactly one group meets the condition of exactly that group, for all groups over a
      set of provider keys, exactly when the keys are tellable; otherwise a member of one group is
      treated as a member of another. */
  lemma GroupConditionDeterminesExactly(keys: set<string>)
    ensures (forall a, b, identity: RequestIdentity ::
              Over(keys, a) && Over(keys, b) && identity.authenticated && identity.groups == [a]
              ==> (MatchesIdentity(Group([b]), identity, false) <==> SameGroup(a, b)))
       <==> TellableKeys(keys)
  {
    GroupKeyDeterminesExactly(keys);
    forall a, b, identity: RequestIdentity
      | Over(keys, a) && Over(keys, b) && identity.authenticated && identity.groups == [a]
      ensures MatchesIdentity(Group([b]), identity, false) <==> GroupKey(a) == GroupKey(b)
    {
      OverIsConcrete(keys, b);
      HoldingOne(a, b, identity);
    }
    hide GroupKey, SameGroup, Over, TellableKeys, MatchesIdentity;
    if !TellableKeys(keys) {
      var a, b := SomeKeysCollide(keys);
      var identity := RequestIdentity(true, None, None, [a]);
      assert MatchesIdentity(Group([b]), identity, false) && !SameGroup(a, b);
    }
  }

  /** A member of the group staff of a provider "local" meets a rule for the local group staff. */
  lemma LocalProviderCollides(name: string, identity: RequestIdentity)
    requires identity.authenticated && identity.groups == [GroupRef(External, name, Some("local"), [])]
    ensures MatchesIdentity(Group([GroupRef(Local, name, None, [])]), identity, false)
  {
    assert Upper("local") == "LOCAL";
    HoldingOne(identity.groups[0], GroupRef(Local, name, None, []), identity);
  }

  // ----- the compiler's key -----

  predicate AclOver(keys: set<string>, ref: GroupRef) {
    ref.source != Logical && (ref.providerKey.Some? ==> ref.providerKey.value in keys)
  }

  predicate SameRef(a: GroupRef, b: GroupRef) {
    a.source == b.source && a.name == b.name && a.providerKey == b.providerKey
  }

  /** No provider key is empty, begins with a colon, or begins another one up to a colon. */
  predicate SeparableKeys(keys: set<string>) { "" !in keys && Apart(keys + {""}) }

  function KeyText(ref: GroupRef): string { ref.providerKey.GetOr(k => k, "") }

  lemma BeginningHasColon(p: string, q: string)
    ensures p + ":" <= q ==> ':' in q
  {
    if p + ":" <= q { assert q[|p|] == (p + ":")[|p|] == ':'; }
  }

  lemma SameSource(a: GroupRef, b: GroupRef)
    requires a.source != Logical && b.source != Logical && AclKey(a) == AclKey(b)
    ensures a.source == b.source && KeyText(a) + ":" + a.name == KeyText(b) + ":" + b.name
  {
    var s, t := SourceText(a.source), SourceText(b.source);
    var x, y := KeyText(a) + ":" + a.name, KeyText(b) + ":" + b.name;
    assert AclKey(a) == s + ":" + x && AclKey(b) == t + ":" + y;
    BeginningHasColon(s, t);
    BeginningHasColon(t, s);
    ApartMeans(s, x, t, y);
  }

  lemma SeparableKeysDetermine(keys: set<string>, a: GroupRef, b: GroupRef)
    requires SeparableKeys(keys) && AclOver(keys, a) && AclOver(keys, b) && AclKey(a) == AclKey(b)
    ensures SameRef(a, b)
  {
    hide AclKey;
    SameSource(a, b);
    ApartMeans(KeyText(a), a.name, KeyText(b), b.name);
  }

  lemma SomeAclKeysCollide(keys: set<string>) returns (a: GroupRef, b: GroupRef)
    requires !SeparableKeys(keys)
    ensures AclOver(keys, a) && AclOver(keys, b) && AclKey(a) == AclKey(b) && !SameRef(a, b)
  {
    if "" in keys {
      a, b := GroupRef(External, "staff", Some(""), []), GroupRef(External, "staff", None, []);
    } else {
      var p, q :| p in keys + {""} && q in keys + {""} && p + ":" <= q;
      var rest := q[|p| + 1..];
      a := GroupRef(External, rest + ":staff", if p in keys then Some(p) else None, []);
      b := GroupRef(External, "staff", Some(q), []);
      assert q == p + ":" + rest;
      assert "EXTERNAL" + ":" + p + ":" + (rest + ":staff") == "EXTERNAL" + ":" + q + ":" + "staff";
      assert |a.name| != |b.name|;
    }
  }

  /** Over a set of provider keys, two groups share an ACL only when they are the same group, exactly
      when the keys are separable. */
  lemma AclKeyDeterminesExactly(keys: set<string>)
    ensures (forall a, b :: AclOver(keys, a) && AclOver(keys, b) ==> (AclKey(a) == AclKey(b) <==> SameRef(a, b)))
       <==> SeparableKeys(keys)
  {
    forall a, b | SameRef(a, b) ensures AclKey(a) == AclKey(b) {}
    hide AclKey, SameRef, AclOver;
    if SeparableKeys(keys) {
      forall a, b | AclOver(keys, a) && AclOver(keys, b) && AclKey(a) == AclKey(b) ensures SameRef(a, b) {
        SeparableKeysDetermine(keys, a, b);
      }
    } else {
      var a, b := SomeAclKeysCollide(keys);
    }
  }
}
