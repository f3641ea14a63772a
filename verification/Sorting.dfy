/** Sorting with a comparison, stable like the array sort of the program's runtime. */
module Sorting {

  ghost predicate TotalPreorder<T(!new)>(le: (T, T) -> bool) {
    && (forall a, b :: le(a, b) || le(b, a))
    && (forall a, b, c :: le(a, b) && le(b, c) ==> le(a, c))
  }

  ghost predicate SortedBy<T>(s: seq<T>, le: (T, T) -> bool) {
    forall i, j :: 0 <= i < j < |s| ==> le(s[i], s[j])
  }

  /** Elements of s that the order cannot tell apart are equal. */
  ghost predicate AntisymmetricOn<T>(s: seq<T>, le: (T, T) -> bool) {
    forall a, b :: a in s && b in s && le(a, b) && le(b, a) ==> a == b
  }

  function Insert<T>(x: T, sorted: seq<T>, le: (T, T) -> bool): seq<T> {
    if sorted == [] then [x]
    else if le(x, sorted[0]) then [x] + sorted
    else [sorted[0]] + Insert(x, sorted[1..], le)
  }

  /** The elements are inserted from the last to the first, so that equal ones keep their order. */
  function Sort<T>(xs: seq<T>, le: (T, T) -> bool): seq<T> {
    if xs == [] then [] else Insert(xs[0], Sort(xs[1..], le), le)
  }

  lemma {:induction false} InsertMultiset<T>(x: T, sorted: seq<T>, le: (T, T) -> bool)
    ensures multiset(Insert(x, sorted, le)) == multiset{x} + multiset(sorted)
  {
    if sorted != [] {
      assert sorted == [sorted[0]] + sorted[1..];
      if !le(x, sorted[0]) { InsertMultiset(x, sorted[1..], le); }
    }
  }

  lemma {:induction false} SortMultiset<T>(xs: seq<T>, le: (T, T) -> bool)
    ensures multiset(Sort(xs, le)) == multiset(xs)
    ensures forall x :: x in Sort(xs, le) <==> x in xs
  {
    if xs != [] {
      SortMultiset(xs[1..], le);
      InsertMultiset(xs[0], Sort(xs[1..], le), le);
      assert xs == [xs[0]] + xs[1..];
    }
    assert forall x :: x in Sort(xs, le) <==> x in multiset(Sort(xs, le));
    assert forall x :: x in xs <==> x in multiset(xs);
  }

  lemma {:induction false} InsertSorted<T(!new)>(x: T, sorted: seq<T>, le: (T, T) -> bool)
    requires TotalPreorder(le) && SortedBy(sorted, le)
    ensures SortedBy(Insert(x, sorted, le), le)
  {
    if sorted != [] && !le(x, sorted[0]) {
      var rest := Insert(x, sorted[1..], le);
      InsertSorted(x, sorted[1..], le);
      InsertMultiset(x, sorted[1..], le);
      forall y | y in rest ensures le(sorted[0], y) {
        assert y in multiset(rest);
        assert y == x || y in sorted[1..];
      }
    }
  }

  lemma {:induction false} SortSorts<T(!new)>(xs: seq<T>, le: (T, T) -> bool)
    requires TotalPreorder(le)
    ensures SortedBy(Sort(xs, le), le)
  {
    hide TotalPreorder, Insert;
    if xs != [] {
      SortSorts(xs[1..], le);
      InsertSorted(xs[0], Sort(xs[1..], le), le);
    }
  }

  lemma {:induction false} SortedIsFixed<T>(xs: seq<T>, le: (T, T) -> bool)
    requires SortedBy(xs, le)
    ensures Sort(xs, le) == xs
  {
    if xs != [] {
      SortedIsFixed(xs[1..], le);
      assert xs == [xs[0]] + xs[1..];
    }
  }

  // ----- a sorted arrangement is unique -----

  lemma HeadsAgree<T>(s: seq<T>, t: seq<T>, le: (T, T) -> bool)
    requires s != [] && multiset(s) == multiset(t) && SortedBy(s, le) && SortedBy(t, le) && AntisymmetricOn(s, le)
    ensures t != [] && s[0] == t[0]
  {
    assert s[0] in multiset(t);
    assert t[0] in multiset(s);
    var i :| 0 <= i < |t| && t[i] == s[0];
    var j :| 0 <= j < |s| && s[j] == t[0];
    assert (i == 0 || le(t[0], s[0])) && (j == 0 || le(s[0], t[0]));
  }

  lemma TailOf<T>(s: seq<T>, le: (T, T) -> bool)
    requires s != [] && SortedBy(s, le)
    ensures SortedBy(s[1..], le) && (AntisymmetricOn(s, le) ==> AntisymmetricOn(s[1..], le))
    ensures multiset(s[1..]) == multiset(s) - multiset{s[0]} && s == [s[0]] + s[1..]
  {
    assert s == [s[0]] + s[1..];
    assert forall x :: x in s[1..] ==> x in s;
  }

  lemma {:induction false} SortedIsUnique<T>(s: seq<T>, t: seq<T>, le: (T, T) -> bool)
    requires multiset(s) == multiset(t) && SortedBy(s, le) && SortedBy(t, le) && AntisymmetricOn(s, le)
    ensures s == t
  {
    hide SortedBy, AntisymmetricOn;
    assert |s| == |multiset(s)| == |multiset(t)| == |t|;
    if s != [] {
      HeadsAgree(s, t, le);
      TailOf(s, le);
      TailOf(t, le);
      SortedIsUnique(s[1..], t[1..], le);
    }
  }

  // ----- when the listing order does not matter -----

  /** The first element of s that is not smaller than x. */
  function FirstNotBelow<T>(s: seq<T>, x: T, le: (T, T) -> bool): seq<T> {
    if s == [] then [] else if le(x, s[0]) then [s[0]] else FirstNotBelow(s[1..], x, le)
  }

  lemma {:induction false} InsertedComesFirst<T(!new)>(x: T, sorted: seq<T>, le: (T, T) -> bool)
    requires TotalPreorder(le)
    ensures FirstNotBelow(Insert(x, sorted, le), x, le) == [x]
  {
    if sorted != [] && !le(x, sorted[0]) { InsertedComesFirst(x, sorted[1..], le); }
  }

  lemma {:induction false} TiedSeeTheSame<T(!new)>(s: seq<T>, a: T, b: T, le: (T, T) -> bool)
    requires TotalPreorder(le) && le(a, b) && le(b, a)
    ensures FirstNotBelow(s, a, le) == FirstNotBelow(s, b, le)
  {
    if s != [] { TiedSeeTheSame(s[1..], a, b, le); }
  }

  /** Two different elements the order cannot tell apart keep the order in which they are listed. */
  lemma TiedKeepTheirOrder<T(!new)>(a: T, b: T, rest: seq<T>, le: (T, T) -> bool)
    requires TotalPreorder(le) && le(a, b) && le(b, a) && a != b
    ensures multiset([a, b] + rest) == multiset([b, a] + rest)
    ensures Sort([a, b] + rest, le) != Sort([b, a] + rest, le)
  {
    hide Insert, FirstNotBelow, TotalPreorder;
    var s, t := [a, b] + rest, [b, a] + rest;
    assert multiset(s) == multiset{a, b} + multiset(rest) == multiset(t);
    assert s == [a] + ([b] + rest) && t == [b] + ([a] + rest);
    assert s[1..] == [b] + rest && t[1..] == [a] + rest;
    InsertedComesFirst(a, Sort(s[1..], le), le);
    InsertedComesFirst(b, Sort(t[1..], le), le);
    TiedSeeTheSame(Sort(t, le), a, b, le);
  }

  lemma {:induction false} Without<T>(xs: seq<T>, a: T) returns (rest: seq<T>)
    requires a in xs
    ensures multiset(xs) == multiset{a} + multiset(rest)
  {
    assert xs == [xs[0]] + xs[1..];
    if xs[0] == a {
      rest := xs[1..];
    } else {
      var others := Without(xs[1..], a);
      rest := [xs[0]] + others;
    }
  }

  lemma TwoInFront<T>(xs: seq<T>, a: T, b: T) returns (rest: seq<T>)
    requires a in xs && b in xs && a != b
    ensures multiset([a, b] + rest) == multiset(xs)
  {
    var others := Without(xs, a);
    assert b in multiset(xs) && b in multiset(others);
    rest := Without(others, b);
    assert [a, b] + rest == [a] + ([b] + rest);
  }

  /** Two listings of the same elements sort alike when the order tells the elements apart. */
  lemma ListingsSortAlike<T(!new)>(xs: seq<T>, ys: seq<T>, le: (T, T) -> bool)
    requires TotalPreorder(le) && AntisymmetricOn(xs, le) && multiset(ys) == multiset(xs)
    ensures Sort(ys, le) == Sort(xs, le)
  {
    hide TotalPreorder, Sort;
    SortSorts(xs, le);
    SortMultiset(xs, le);
    SortSorts(ys, le);
    SortMultiset(ys, le);
    SortedIsUnique(Sort(xs, le), Sort(ys, le), le);
  }

  /** And when it does not, some listing sorts differently. */
  lemma SomeListingSortsApart<T(!new)>(xs: seq<T>, le: (T, T) -> bool) returns (ys: seq<T>)
    requires TotalPreorder(le) && !AntisymmetricOn(xs, le)
    ensures multiset(ys) == multiset(xs) && Sort(ys, le) != Sort(xs, le)
  {
    hide TotalPreorder, Sort;
    var a, b :| a in xs && b in xs && le(a, b) && le(b, a) && a != b;
    var rest := TwoInFront(xs, a, b);
    TiedKeepTheirOrder(a, b, rest, le);
    ys := if Sort([a, b] + rest, le) != Sort(xs, le) then [a, b] + rest else [b, a] + rest;
  }
}
