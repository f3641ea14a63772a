/** What the slug of a text is: its words, joined by underscores. Two texts share a slug exactly when
    they have the same words. */
module Slugs {
  import opened Text
  import opened Names

  /** Length of the run of slug characters at the front. */
  function RunLength(s: string): (n: nat)
    ensures n <= |s|
    ensures forall k :: 0 <= k < n ==> IsSlugChar(s[k])
    ensures n < |s| ==> !IsSlugChar(s[n])
  {
    if s == "" || !IsSlugChar(s[0]) then 0 else 1 + RunLength(s[1..])
  }

  lemma {:induction false} DropRunIs(s: string)
    ensures DropRun(s) != "" ==> IsSlugChar(DropRun(s)[0])
    ensures s != "" && !IsSlugChar(s[0]) ==> DropRun(s) == DropRun(s[1..])
  {
    if s != "" && !IsSlugChar(s[0]) { DropRunIs(s[1..]); }
  }

  predicate IsWord(w: string) { w != "" && forall c :: c in w ==> IsSlugChar(c) }

  /** The maximal runs of slug characters. */
  function Words(s: string): (words: seq<string>)
    ensures forall w :: w in words ==> IsWord(w)
    decreases |s|
  {
    DropRunIs(s);
    var r := DropRun(s);
    if r == "" then [] else
      var n := RunLength(r);
      assert n > 0;
      [r[..n]] + Words(r[n..])
  }

  predicate StartsBlank(s: string) { s != "" && !IsSlugChar(s[0]) }

  predicate EndsBlank(s: string) { s != "" && !IsSlugChar(s[|s| - 1]) }

  lemma {:induction false} CollapseWord(w: string, rest: string)
    requires (forall c :: c in w ==> IsSlugChar(c))
    ensures Collapse(w + rest) == w + Collapse(rest)
  {
    if w == "" {
      assert w + rest == rest;
    } else {
      assert w[0] in w && (w + rest)[1..] == w[1..] + rest;
      CollapseWord(w[1..], rest);
      assert w == [w[0]] + w[1..];
    }
  }

  lemma CollapseBlank(s: string)
    requires StartsBlank(s)
    ensures Collapse(s) == "_" + Collapse(DropRun(s))
  {
    DropRunIs(s);
  }

  lemma {:induction false} DropRunSuffix(s: string)
    ensures |DropRun(s)| <= |s| && DropRun(s) == s[|s| - |DropRun(s)|..]
    ensures DropRun(s) != "" ==> EndsBlank(DropRun(s)) == EndsBlank(s)
    ensures DropRun(s) == "" && s != "" ==> EndsBlank(s)
  {
    if StartsBlank(s) { DropRunSuffix(s[1..]); }
  }

  function Bar(present: bool): string { if present then "_" else "" }

  /** What collapsing should give: the words joined by underscores, with one underscore for blanks at
      either end. */
  function Barred(s: string): string {
    if Words(s) == [] then Bar(s != "") else if StartsBlank(s) then "_" + Core(s) else Core(s)
  }

  function Core(s: string): string { Join(Words(s), '_') + Bar(EndsBlank(s)) }

  lemma WordsCons(w: string, rest: string)
    requires IsWord(w) && (rest == "" || StartsBlank(rest))
    ensures Words(w + rest) == [w] + Words(rest)
  {
    var r := w + rest;
    assert w[0] in w && r[0] == w[0];
    assert DropRun(r) == r;
    assert forall k :: 0 <= k < |w| ==> r[k] in w;
    assert rest != "" ==> r[|w|] == rest[0];
    assert RunLength(r) == |w|;
    assert r[..|w|] == w && r[|w|..] == rest;
  }

  lemma WordEnds(w: string, rest: string)
    requires IsWord(w)
    ensures !StartsBlank(w + rest) && EndsBlank(w + rest) == EndsBlank(rest)
  {
    var r := w + rest;
    assert w[0] in w && w[|w| - 1] in w && r[0] == w[0];
    if rest == "" { assert r == w; } else { assert r[|r| - 1] == rest[|rest| - 1]; }
  }

  /** A word in front of a collapsed text. */
  lemma BarredCons(w: string, rest: string)
    requires IsWord(w) && (rest == "" || StartsBlank(rest))
    ensures Barred(w + rest) == w + Barred(rest)
  {
    WordsCons(w, rest);
    WordEnds(w, rest);
    EmptyHasNoWords();
    if Words(rest) == [] && rest != "" { BlankEnd(rest); }
    JoinWord(w);
    hide Words, EndsBlank, StartsBlank, IsWord, Join;
    if Words(rest) != [] {
      var j, e := Join(Words(rest), '_'), Bar(EndsBlank(rest));
      JoinCons(w, Words(rest), '_');
      Regroup(w, j, e);
      assert Core(w + rest) == (w + ['_'] + j) + e;
    }
  }

  lemma Regroup(w: string, j: string, e: string)
    ensures (w + ['_'] + j) + e == w + ("_" + (j + e))
  {
  }

  lemma JoinWord(w: string)
    ensures Join([w], '_') == w
  {
  }

  lemma EmptyHasNoWords()
    ensures Words("") == []
  {
  }

  lemma SameWords(s: string)
    ensures Words(s) == Words(DropRun(s))
    ensures DropRun(s) != "" ==> !StartsBlank(DropRun(s)) && EndsBlank(DropRun(s)) == EndsBlank(s) && Words(s) != []
    ensures DropRun(s) == "" ==> Words(s) == []
  {
    DropRunIs(s);
    DropRunSuffix(s);
    var r := DropRun(s);
    assert DropRun(r) == r;
  }

  lemma BarredBlank(s: string)
    requires StartsBlank(s)
    ensures Barred(s) == "_" + Barred(DropRun(s))
  {
    SameWords(s);
    hide Words, DropRun, Join, EndsBlank;
  }

  lemma FirstWord(r: string) returns (w: string, rest: string)
    requires r != "" && IsSlugChar(r[0])
    ensures r == w + rest && IsWord(w) && (rest == "" || StartsBlank(rest))
  {
    var n := RunLength(r);
    w, rest := r[..n], r[n..];
  }

  /** Collapsing gives the words joined by underscores. */
  lemma {:induction false} CollapseIsWords(s: string)
    ensures Collapse(s) == Barred(s)
    decreases |s|
  {
    hide Collapse, DropRun, Barred, IsWord, IsSlugChar;
    if s == "" {
      NothingCollapses();
    } else if StartsBlank(s) {
      CollapseBlank(s);
      BarredBlank(s);
      DropRunShrinks(s);
      CollapseIsWords(DropRun(s));
    } else {
      var w, rest := FirstWord(s);
      WordChars(w);
      CollapseWord(w, rest);
      CollapseIsWords(rest);
      BarredCons(w, rest);
    }
  }

  lemma WordChars(w: string)
    requires IsWord(w)
    ensures w != "" && forall c :: c in w ==> IsSlugChar(c)
  {
  }

  lemma DropRunShrinks(s: string)
    requires StartsBlank(s)
    ensures |DropRun(s)| < |s|
  {
  }

  lemma NothingCollapses()
    ensures Collapse("") == "" && Barred("") == ""
  {
  }

  /** A text without words ends in a blank, if it is not empty. */
  lemma BlankEnd(s: string)
    requires s != "" && Words(s) == []
    ensures EndsBlank(s)
  {
    DropRunSuffix(s);
  }

  lemma {:induction false} JoinedEnds(words: seq<string>)
    requires words != [] && forall w :: w in words ==> IsWord(w)
    ensures var j := Join(words, '_'); j != "" && IsSlugChar(j[0]) && IsSlugChar(j[|j| - 1])
  {
    var w := words[0];
    assert w in words && w[0] in w && w[|w| - 1] in w;
    assert forall v :: v in words[1..] ==> v in words;
    if |words| > 1 { JoinedEnds(words[1..]); }
  }

  lemma StripFront(t: string, before: bool)
    requires t != "" && t[0] != '_'
    ensures StripStart(Bar(before) + t) == t
  {
    var s := Bar(before) + t;
    assert StripStart(t) == t;
    if before { assert s[0] == '_' && s[1..] == t; } else { assert s == t; }
  }

  lemma StripBack(j: string, after: bool)
    requires j != "" && j[|j| - 1] != '_'
    ensures StripEnd(j + Bar(after)) == j
  {
    var t := j + Bar(after);
    assert StripEnd(j) == j;
    if after { assert t[|t| - 1] == '_' && t[..|t| - 1] == j; } else { assert t == j; }
  }

  lemma StripBars(j: string, before: bool, after: bool)
    requires j != "" && j[0] != '_' && j[|j| - 1] != '_'
    ensures StripEnd(StripStart(Bar(before) + (j + Bar(after)))) == j
  {
    hide StripStart, StripEnd, Bar;
    StripFront(j + Bar(after), before);
    StripBack(j, after);
  }

  /** The slug is the lower case words joined by underscores, or "x" when there are none. */
  lemma SlugIsWords(input: string)
    ensures Slug(input) == if Words(Lower(input)) == [] then "x" else Join(Words(Lower(input)), '_')
  {
    var s := Lower(input);
    CollapseIsWords(s);
    hide Collapse, Words, Join, StripStart, StripEnd;
    if Words(s) == [] {
      NothingStripped(s != "");
    } else {
      JoinedEnds(Words(s));
      StripBars(Join(Words(s), '_'), StartsBlank(s), EndsBlank(s));
      assert Barred(s) == Bar(StartsBlank(s)) + Core(s);
    }
  }

  lemma NothingStripped(present: bool)
    ensures StripEnd(StripStart(Bar(present))) == ""
  {
    assert "_"[1..] == "";
  }

  /** The words a slug stands for; a text without words counts as the word "x". */
  function SlugWords(input: string): seq<string> { if Words(Lower(input)) == [] then ["x"] else Words(Lower(input)) }

  /** Two texts share a slug exactly when they have the same words. */
  lemma SlugsAgreeExactly(a: string, b: string)
    ensures Slug(a) == Slug(b) <==> SlugWords(a) == SlugWords(b)
  {
    hide Words, Slug;
    SlugOf(a);
    SlugOf(b);
    hide SlugWords;
    SplitJoin(SlugWords(a), '_');
    SplitJoin(SlugWords(b), '_');
  }

  lemma SlugOf(a: string)
    ensures SlugWords(a) != [] && (forall w :: w in SlugWords(a) ==> '_' !in w) && Slug(a) == Join(SlugWords(a), '_')
  {
    SlugIsWords(a);
    hide Words, Slug;
    assert Join(["x"], '_') == "x";
  }

  /** A slug has only lower case letters, digits and inner underscores: no blank and no quote. */
  lemma SlugIsClean(input: string)
    ensures Slug(input) != "" && (forall c :: c in Slug(input) ==> IsSlugChar(c) || c == '_')
    ensures Slug(input)[0] != '_' && Slug(input)[|Slug(input)| - 1] != '_'
  {
    hide Words, Slug;
    SlugOf(input);
    WordsAreClean(input);
    JoinedEnds(SlugWords(input));
    JoinedChars(SlugWords(input));
  }

  lemma WordsAreClean(input: string)
    ensures forall w :: w in SlugWords(input) ==> IsWord(w)
  {
    hide Words;
    assert IsWord("x");
  }

  lemma {:induction false} JoinedChars(words: seq<string>)
    requires forall w :: w in words ==> IsWord(w)
    ensures forall c :: c in Join(words, '_') ==> IsSlugChar(c) || c == '_'
  {
    if words != [] {
      assert words[0] in words;
      assert forall v :: v in words[1..] ==> v in words;
      if |words| > 1 { JoinedChars(words[1..]); }
    }
  }
}
