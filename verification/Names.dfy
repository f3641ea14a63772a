/** ACL names: the slug and the allocator of packages/shared/src/squid/compiler.ts. */
module Names {
  import opened Text

  predicate IsSlugChar(c: char) { 'a' <= c <= 'z' || '0' <= c <= '9' }

  function DropRun(s: string): (r: string)
    ensures |r| <= |s|
  {
    if s != "" && !IsSlugChar(s[0]) then DropRun(s[1..]) else s
  }

  /** Every run of other characters becomes one underscore. */
  function Collapse(s: string): string
    decreases |s|
  {
    if s == "" then ""
    else if IsSlugChar(s[0]) then [s[0]] + Collapse(s[1..])
    else "_" + Collapse(DropRun(s[1..]))
  }

  function StripStart(s: string): (r: string)
    ensures |r| <= |s|
  {
    if s != "" && s[0] == '_' then StripStart(s[1..]) else s
  }

  function StripEnd(s: string): (r: string)
    ensures |r| <= |s|
  {
    if s != "" && s[|s| - 1] == '_' then StripEnd(s[..|s| - 1]) else s
  }

  /** ACL names must be free of whitespace. */
  function Slug(input: string): string {
    var base := StripEnd(StripStart(Collapse(Lower(input))));
    if base == "" then "x" else base
  }

  // ----- the allocator -----

  function Candidate(base: string, counter: nat): string { base + "_" + Decimal(counter) }

  /** The numbered candidates tried before the counter. */
  function Tried(base: string, counter: nat): set<string> {
    set k: nat | 2 <= k < counter :: Candidate(base, k)
  }

  lemma CandidateInjective(base: string, a: nat, b: nat)
    requires Candidate(base, a) == Candidate(base, b)
    ensures a == b
  {
    assert Candidate(base, a)[|base| + 1..] == Decimal(a);
    assert Candidate(base, b)[|base| + 1..] == Decimal(b);
    NumeralInjective(a, b, 10);
  }

  /** A used candidate has not been tried yet, so trying it leaves fewer used names. */
  lemma TryingShrinks(used: set<string>, base: string, counter: nat)
    requires counter >= 2 && Candidate(base, counter) in used
    ensures |used - Tried(base, counter + 1)| < |used - Tried(base, counter)|
  {
    var c := Candidate(base, counter);
    assert c !in Tried(base, counter) by {
      if c in Tried(base, counter) {
        var k: nat :| 2 <= k < counter && Candidate(base, k) == c;
        CandidateInjective(base, k, counter);
      }
    }
    assert c in Tried(base, counter + 1);
    assert Tried(base, counter) <= Tried(base, counter + 1);
    assert used - Tried(base, counter + 1) <= (used - Tried(base, counter)) - {c};
    SubsetSize(used - Tried(base, counter + 1), (used - Tried(base, counter)) - {c});
  }

  lemma {:induction false} SubsetSize<T>(a: set<T>, b: set<T>)
    requires a <= b
    ensures |a| <= |b|
  {
    if a != {} {
      var x :| x in a;
      SubsetSize(a - {x}, b - {x});
    }
  }

  /** Every candidate from the counter up to k is used. */
  ghost predicate IsFirstFree(used: set<string>, base: string, counter: nat, k: nat) {
    k >= counter && Candidate(base, k) !in used
    && forall i: nat :: counter <= i < k ==> Candidate(base, i) in used
  }

  /** The first numbered candidate from the counter on that is not used. */
  function NextFree(used: set<string>, base: string, counter: nat): (name: string)
    requires counter >= 2
    ensures name !in used
    ensures exists k: nat :: IsFirstFree(used, base, counter, k) && name == Candidate(base, k)
    decreases |used - Tried(base, counter)|
  {
    if Candidate(base, counter) in used then
      TryingShrinks(used, base, counter);
      var name := NextFree(used, base, counter + 1);
      OneEarlier(used, base, counter, name);
      name
    else
      assert IsFirstFree(used, base, counter, counter);
      Candidate(base, counter)
  }

  lemma OneEarlier(used: set<string>, base: string, counter: nat, name: string)
    requires Candidate(base, counter) in used
    requires exists k: nat :: IsFirstFree(used, base, counter + 1, k) && name == Candidate(base, k)
    ensures exists k: nat :: IsFirstFree(used, base, counter, k) && name == Candidate(base, k)
  {
    hide Candidate;
    var k: nat :| IsFirstFree(used, base, counter + 1, k) && name == Candidate(base, k);
    assert IsFirstFree(used, base, counter, k);
  }

  function TakeName(used: set<string>, base: string): (name: string)
    ensures name !in used
    ensures base <= name
  {
    if base in used then NextFree(used, base, 2) else base
  }

  /** A free name is taken as it is; otherwise the taken name is the first free one of base_2, base_3 and so on. */
  lemma TakenExactly(used: set<string>, base: string)
    ensures base !in used ==> TakeName(used, base) == base
    ensures base in used ==>
              exists k: nat :: IsFirstFree(used, base, 2, k) && TakeName(used, base) == base + "_" + Decimal(k)
  {
    if base in used {
      var name := NextFree(used, base, 2);
      var k: nat :| IsFirstFree(used, base, 2, k) && name == Candidate(base, k);
      assert TakeName(used, base) == base + "_" + Decimal(k);
    }
    hide Decimal;
  }

  class NameAllocator {
    var used: set<string>

    constructor ()
      ensures used == {}
    {
      used := {};
    }

    /** Terminates because the used set is finite and the candidates are all different. */
    method Take(base: string) returns (candidate: string)
      modifies this
      ensures candidate == TakeName(old(used), base)
      ensures used == old(used) + {candidate}
    {
      candidate := base;
      var counter := 2;
      while candidate in used
        invariant counter >= 2 && used == old(used)
        invariant counter == 2 ==> candidate == base
        invariant counter > 2 ==> candidate == Candidate(base, counter - 1)
        invariant counter > 2 ==> base in used
        invariant if candidate in used then NextFree(used, base, counter) == TakeName(used, base)
                  else candidate == TakeName(used, base)
        decreases candidate in used, |used - Tried(base, counter)|
      {
        ghost var before := counter;
        candidate := Candidate(base, counter);
        counter := counter + 1;
        if candidate in used { TryingShrinks(used, base, before); }
      }
      used := used + {candidate};
    }
  }
}
