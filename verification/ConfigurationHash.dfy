/** The text of a compiled configuration and the hash over it (apps/api/src/security/agentAuth.ts):
    the compile time in the header does not reach the hash, and everything written to a node does.
    How the other lines are rendered, and the digest itself, are parameters. */
module ConfigurationHash {
  import opened Sorting
  import opened Text
  import opened Ir
  import opened Squid
  import opened Compiler

  // ----- the text of a configuration -----

  const HEADER := "# Generated:  "

  /** Newlines at the end of s, continuing a run of n newlines. */
  function RunAfter(s: string, n: nat): nat {
    if s == "" then n else RunAfter(s[1..], if s[0] == '\n' then n + 1 else 0)
  }

  /** Shortens every run of three or more newlines to two, after a run of n newlines. */
  function Squeeze(s: string, n: nat): string {
    if s == "" then ""
    else if s[0] != '\n' then [s[0]] + Squeeze(s[1..], 0)
    else (if n < 2 then "\n" else "") + Squeeze(s[1..], n + 1)
  }

  lemma {:induction false} SqueezeAppend(a: string, b: string, n: nat)
    ensures Squeeze(a + b, n) == Squeeze(a, n) + Squeeze(b, RunAfter(a, n))
  {
    if a == "" {
      assert a + b == b;
    } else {
      assert (a + b)[1..] == a[1..] + b;
      SqueezeAppend(a[1..], b, if a[0] == '\n' then n + 1 else 0);
    }
  }

  lemma {:induction false} SqueezeLine(line: string, n: nat)
    requires line != "" && '\n' !in line
    ensures Squeeze(line, n) == line && RunAfter(line, n) == 0
  {
    assert line == [line[0]] + line[1..] && line[0] in line;
    if line[1..] == "" {
      assert Squeeze("", 0) == "" && RunAfter("", 0) == 0;
    } else {
      SqueezeLine(line[1..], 0);
    }
  }

  /** No three newlines in a row, n newlines standing before the text. */
  predicate NoLongRun(s: string, n: nat) {
    if s == "" then true else if s[0] == '\n' then n < 2 && NoLongRun(s[1..], n + 1) else NoLongRun(s[1..], 0)
  }

  function Visible(s: string): string {
    if s == "" then "" else (if s[0] == '\n' then "" else [s[0]]) + Visible(s[1..])
  }

  /** Squeezing takes out nothing but newlines that follow two others, and all of those. */
  lemma {:induction false} SqueezeExactly(s: string, n: nat)
    ensures Visible(Squeeze(s, n)) == Visible(s) && NoLongRun(Squeeze(s, n), if n < 2 then n else 2)
    ensures NoLongRun(s, n) ==> Squeeze(s, n) == s
  {
    if s != "" {
      var newline := s[0] == '\n';
      var rest := Squeeze(s[1..], if newline then n + 1 else 0);
      SqueezeExactly(s[1..], if newline then n + 1 else 0);
      assert s == [s[0]] + s[1..] && ([s[0]] + rest)[1..] == rest;
      assert Squeeze(s, n) == if newline && n >= 2 then "" + rest else [s[0]] + rest;
      assert "" + rest == rest;
    }
  }

  function Rendered(directives: seq<Directive>, render: Directive -> seq<string>): seq<string> {
    if directives == [] then [] else render(directives[0]) + Rendered(directives[1..], render)
  }

  /** The lines of the file: the preamble, the header with the compile time, a comment sign, and the rest. */
  function ConfLines(preamble: string, conf: seq<Directive>, render: Directive -> seq<string>): seq<string>
    requires conf != [] && conf[0].Generated?
  {
    [preamble, HEADER + conf[0].at, "#"] + Rendered(conf[1..], render)
  }

  function ConfText(preamble: string, conf: seq<Directive>, render: Directive -> seq<string>): string
    requires conf != [] && conf[0].Generated?
  {
    Squeeze(Join(ConfLines(preamble, conf, render), '\n'), 0) + "\n"
  }

  // ----- stripping the compile time -----

  /** A hash sign, blanks, then "Generated:". */
  predicate IsGeneratedLine(line: string) {
    line != "" && line[0] == '#' && StartsWith(TrimStart(line[1..]), "Generated:")
  }

  function KeptLines(lines: seq<string>): seq<string> {
    if lines == [] then [] else (if IsGeneratedLine(lines[0]) then [] else [lines[0]]) + KeptLines(lines[1..])
  }

  function StripVolatileHeader(text: string): string { Join(KeptLines(Split(text, '\n')), '\n') }

  lemma {:induction false} KeptAppend(a: seq<string>, b: seq<string>)
    ensures KeptLines(a + b) == KeptLines(a) + KeptLines(b)
  {
    hide IsGeneratedLine;
    if a == [] {
      assert a + b == b;
    } else {
      assert (a + b)[1..] == a[1..] + b;
      KeptAppend(a[1..], b);
    }
  }

  // What is stripped, said without the test: the lines that read "#", blanks, "Generated:" and anything.

  ghost predicate HeaderText(line: string) {
    exists blanks: string, rest: string :: AllBlank(blanks) && line == "#" + blanks + "Generated:" + rest
  }

  /** The text consists of other lines only. */
  ghost predicate HeaderFree(text: string) { forall line :: line in Split(text, '\n') ==> !HeaderText(line) }

  ghost function OtherLines(lines: seq<string>): seq<string> {
    if lines == [] then [] else (if HeaderText(lines[0]) then [] else [lines[0]]) + OtherLines(lines[1..])
  }

  /** The text with its header lines taken out. */
  ghost function WithoutHeader(text: string): string { Join(OtherLines(Split(text, '\n')), '\n') }

  lemma {:induction false} TrimBlanks(blanks: string, rest: string)
    requires AllBlank(blanks) && rest != "" && !IsBlankChar(rest[0])
    ensures TrimStart(blanks + rest) == rest
  {
    if blanks == "" {
      assert blanks + rest == rest;
    } else {
      assert blanks[0] in blanks && (blanks + rest)[1..] == blanks[1..] + rest;
      TrimBlanks(blanks[1..], rest);
    }
  }

  lemma GeneratedLineExactly(line: string)
    ensures IsGeneratedLine(line) <==> HeaderText(line)
  {
    if IsGeneratedLine(line) {
      var blanks := TrimStartExactly(line[1..]);
      var rest := TrimStart(line[1..])[|"Generated:"|..];
      assert TrimStart(line[1..]) == "Generated:" + rest;
      assert line == "#" + line[1..] == "#" + blanks + "Generated:" + rest;
    }
    if HeaderText(line) {
      var blanks, rest :| AllBlank(blanks) && line == "#" + blanks + "Generated:" + rest;
      assert line[1..] == blanks + ("Generated:" + rest);
      TrimBlanks(blanks, "Generated:" + rest);
    }
  }

  lemma {:induction false} KeptAreOther(lines: seq<string>)
    ensures KeptLines(lines) == OtherLines(lines)
  {
    hide IsGeneratedLine, HeaderText;
    if lines != [] {
      GeneratedLineExactly(lines[0]);
      KeptAreOther(lines[1..]);
    }
  }

  /** Exactly the header lines are stripped, from every text. */
  lemma StripsTheHeader(text: string)
    ensures StripVolatileHeader(text) == WithoutHeader(text)
  {
    KeptAreOther(Split(text, '\n'));
  }

  lemma {:induction false} AllOther(lines: seq<string>)
    requires forall line :: line in lines ==> !HeaderText(line)
    ensures KeptLines(lines) == lines
  {
    hide IsGeneratedLine, HeaderText;
    if lines != [] {
      GeneratedLineExactly(lines[0]);
      AllOther(lines[1..]);
      assert lines == [lines[0]] + lines[1..];
    }
  }

  /** A text without header lines is kept as it is. */
  lemma NothingElseIsStripped(text: string)
    requires HeaderFree(text)
    ensures StripVolatileHeader(text) == text
  {
    hide Split, HeaderText;
    AllOther(Split(text, '\n'));
    JoinSplit(text, '\n');
  }

  /** A header line between two texts without one is all that is taken out. */
  lemma OneHeaderIsStripped(before: string, line: string, after: string)
    requires HeaderText(line) && '\n' !in line && HeaderFree(before) && HeaderFree(after)
    ensures StripVolatileHeader(before + "\n" + line + "\n" + after) == before + "\n" + after
  {
    hide KeptLines, Split, HeaderText;
    var b, a := Split(before, '\n'), Split(after, '\n');
    GeneratedLineExactly(line);
    OneLine(line);
    SplitAppend(before + ['\n'] + line, after, '\n');
    SplitAppend(before, line, '\n');
    assert before + ['\n'] + line + ['\n'] + after == before + "\n" + line + "\n" + after;
    KeptAppend(b + [line], a);
    KeptAppend(b, [line]);
    AllOther(b);
    AllOther(a);
    assert b + [] + a == b + a;
    JoinAppend(b, a, '\n');
    JoinSplit(before, '\n');
    JoinSplit(after, '\n');
  }

  lemma OneLine(line: string)
    requires '\n' !in line
    ensures Split(line, '\n') == [line] && (IsGeneratedLine(line) ==> KeptLines([line]) == [])
  {
    hide IsGeneratedLine, IndexOf;
    IndexOfAppend(line, "", '\n');
    assert [line][1..] == [];
  }

  lemma HeaderIsGenerated(at: string)
    ensures IsGeneratedLine(HEADER + at)
  {
    var rest := (HEADER + at)[1..];
    assert rest == " Generated:  " + at;
    assert TrimStart(rest) == TrimStart(rest[1..]) == rest[1..];
    assert rest[1..] == "Generated:" + "  " + at;
  }

  /** Two texts that differ in the header line alone are the same without it. */
  lemma HeaderIsStripped(before: string, at: string, at': string, after: string)
    requires '\n' !in at && '\n' !in at'
    ensures StripVolatileHeader(before + "\n" + (HEADER + at) + "\n" + after)
         == StripVolatileHeader(before + "\n" + (HEADER + at') + "\n" + after)
  {
    HeaderSplits(before, at, after);
    HeaderSplits(before, at', after);
  }

  lemma HeaderSplits(before: string, at: string, after: string)
    requires '\n' !in at
    ensures KeptLines(Split(before + "\n" + (HEADER + at) + "\n" + after, '\n'))
         == KeptLines(Split(before, '\n')) + KeptLines(Split(after, '\n'))
  {
    hide KeptLines, Split;
    var line := HEADER + at;
    HeaderLine(at);
    SplitAppend(before + ['\n'] + line, after, '\n');
    SplitAppend(before, line, '\n');
    KeptAppend(Split(before, '\n') + [line], Split(after, '\n'));
    KeptAppend(Split(before, '\n'), [line]);
  }

  lemma HeaderLine(at: string)
    requires '\n' !in at
    ensures Split(HEADER + at, '\n') == [HEADER + at] && KeptLines([HEADER + at]) == []
  {
    hide IsGeneratedLine;
    HeaderIsGenerated(at);
    OneLine(HEADER + at);
  }

  /** Squeezing keeps the last newline, unless all that is left was a run already long enough. */
  lemma {:induction false} SqueezeKeepsLastNewline(s: string, n: nat)
    ensures var r := Squeeze(s + "\n", n); if r == "" then n >= 2 else r[|r| - 1] == '\n'
  {
    if s == "" {
      assert s + "\n" == "\n" && "\n"[1..] == "" && Squeeze("", n + 1) == "";
    } else {
      assert (s + "\n")[1..] == s[1..] + "\n";
      SqueezeKeepsLastNewline(s[1..], if s[0] == '\n' then n + 1 else 0);
    }
  }

  function RestText(conf: seq<Directive>, render: Directive -> seq<string>): string
    requires conf != []
  {
    Join(["#"] + Rendered(conf[1..], render), '\n')
  }

  lemma JoinedAroundHeader(preamble: string, conf: seq<Directive>, render: Directive -> seq<string>)
    requires conf != [] && conf[0].Generated?
    ensures Join(ConfLines(preamble, conf, render), '\n')
         == (preamble + "\n") + ((HEADER + conf[0].at) + ("\n" + RestText(conf, render)))
  {
    hide Rendered, Join;
    var line, rest := HEADER + conf[0].at, ["#"] + Rendered(conf[1..], render);
    assert ConfLines(preamble, conf, render) == [preamble] + ([line] + rest);
    JoinCons(preamble, [line] + rest, '\n');
    JoinCons(line, rest, '\n');
  }

  lemma SqueezedAroundLine(preamble: string, line: string, rest: string) returns (before: string, after: string)
    requires line != "" && '\n' !in line
    ensures before + "\n" == Squeeze(preamble + "\n", 0) && "\n" + after == Squeeze("\n" + rest, 0)
    ensures Squeeze((preamble + "\n") + (line + ("\n" + rest)), 0) == before + "\n" + line + "\n" + after
  {
    var head, tail := preamble + "\n", "\n" + rest;
    SqueezeAppend(head, line + tail, 0);
    SqueezeAppend(line, tail, RunAfter(head, 0));
    SqueezeLine(line, RunAfter(head, 0));
    SqueezeKeepsLastNewline(preamble, 0);
    assert Squeeze(tail, 0)[0] == '\n';
    hide Squeeze, RunAfter;
    var h, t := Squeeze(head, 0), Squeeze(tail, 0);
    before, after := h[..|h| - 1], t[1..];
    assert h == before + "\n" && t == "\n" + after;
  }

  lemma TextAroundHeader(preamble: string, conf: seq<Directive>, render: Directive -> seq<string>)
    returns (before: string, after: string)
    requires conf != [] && conf[0].Generated? && '\n' !in conf[0].at
    ensures before + "\n" == Squeeze(preamble + "\n", 0) && "\n" + after == Squeeze("\n" + RestText(conf, render), 0)
    ensures ConfText(preamble, conf, render) == before + "\n" + (HEADER + conf[0].at) + "\n" + (after + "\n")
  {
    hide Join, ConfLines, Squeeze, RestText;
    JoinedAroundHeader(preamble, conf, render);
    before, after := SqueezedAroundLine(preamble, HEADER + conf[0].at, RestText(conf, render));
  }

  /** Two compilations of one policy differ in nothing but the line that is stripped. */
  lemma CompileTimeIsStripped(ir: ConfigurationIr, later: string, preamble: string, render: Directive -> seq<string>)
    requires '\n' !in ir.generatedAt && '\n' !in later
    ensures StripVolatileHeader(ConfText(preamble, Compile(ir).squidConf, render))
         == StripVolatileHeader(ConfText(preamble, Compile(ir.(generatedAt := later)).squidConf, render))
  {
    var again := ir.(generatedAt := later);
    CompileTimeIsTheHeader(ir, later);
    hide Compile, StripVolatileHeader, ConfText, Squeeze;
    var before, after := TextAroundHeader(preamble, Compile(ir).squidConf, render);
    var before', after' := TextAroundHeader(preamble, Compile(again).squidConf, render);
    assert before == before' by { assert (before + "\n")[..|before|] == (before' + "\n")[..|before'|]; }
    assert RestText(Compile(ir).squidConf, render) == RestText(Compile(again).squidConf, render);
    assert after == after' by { assert ("\n" + after)[1..] == ("\n" + after')[1..]; }
    HeaderIsStripped(before, ir.generatedAt, later, after + "\n");
  }

  lemma PhasesIgnoreTime(ir: ConfigurationIr, later: string)
    ensures var again := ir.(generatedAt := later);
            RunPhases(ir) == RunPhases(again)
              && AuthEnabled(ir) == AuthEnabled(again) && EffectiveMode(ir) == EffectiveMode(again)
  {
    var again := ir.(generatedAt := later);
    assert AuthEnabled(ir) == AuthEnabled(again);
    hide SortRules, SortProviders, GroupRules, NetRules, UserRules, DestRules, ListenerSteps, AuthEnabled;
  }

  lemma CompileTimeIsTheHeader(ir: ConfigurationIr, later: string)
    ensures var conf, conf' := Compile(ir).squidConf, Compile(ir.(generatedAt := later)).squidConf;
            conf != [] && conf' != [] && conf[0] == Generated(ir.generatedAt)
              && conf'[0] == Generated(later) && conf[1..] == conf'[1..]
  {
    PhasesIgnoreTime(ir, later);
    hide RunPhases, AuthEnabled, EffectiveMode, SortRules, SortProviders, RuleSteps, AuthLines, AuthWarnings;
    var again, p := ir.(generatedAt := later), RunPhases(ir);
    assert ContextOf(ir, p) == ContextOf(again, p) && Definitions(ir, p) == Definitions(again, p);
    hide Definitions, ContextOf, BASELINE, BASELINE_ACCESS;
    AfterHeader(ir);
    AfterHeader(again);
  }

  lemma AfterHeader(ir: ConfigurationIr)
    ensures var conf, p := Compile(ir).squidConf, RunPhases(ir);
            && conf != [] && conf[0] == Generated(ir.generatedAt)
            && conf[1..] == BASELINE + BASELINE_ACCESS + Definitions(ir, p) + p.listeners.guards
                            + RuleSteps(SortRules(ir.rules), ContextOf(ir, p)).out + [DefaultLine(ir.defaultAccess)]
  {
    hide RunPhases, AuthEnabled, EffectiveMode, SortRules, SortProviders, RuleSteps, Definitions, ContextOf, BASELINE,
         BASELINE_ACCESS, DefaultLine;
    var conf, p := Compile(ir).squidConf, RunPhases(ir);
    assert conf == [Generated(ir.generatedAt)] + (BASELINE + BASELINE_ACCESS + Definitions(ir, p) + p.listeners.guards
                   + RuleSteps(SortRules(ir.rules), ContextOf(ir, p)).out + [DefaultLine(ir.defaultAccess)]);
  }

  // ----- the hash -----

  datatype Artefact = Artefact(path: string, content: string, mode: string, owner: string, group: string)

  predicate ArtefactLe(a: Artefact, b: Artefact) { StringLe(a.path, b.path) }

  function SortArtefacts(artefacts: seq<Artefact>): seq<Artefact> { Sort(artefacts, ArtefactLe) }

  const NUL: char := '\0'

  function ArtefactText(a: Artefact): string {
    [NUL] + a.path + [NUL] + a.mode + [NUL] + a.owner + ":" + a.group + [NUL] + a.content
  }

  function ArtefactTexts(artefacts: seq<Artefact>): string {
    if artefacts == [] then ""
    else ArtefactTexts(artefacts[..|artefacts| - 1]) + ArtefactText(artefacts[|artefacts| - 1])
  }

  function HashInput(conf: string, artefacts: seq<Artefact>): string {
    StripVolatileHeader(conf) + ArtefactTexts(SortArtefacts(artefacts))
  }

  method HashConfiguration(conf: string, artefacts: seq<Artefact>, digest: string -> string) returns (hash: string)
    ensures hash == digest(HashInput(conf, artefacts))
  {
    hide SortArtefacts;
    var fed := StripVolatileHeader(conf);
    var sorted := SortArtefacts(artefacts);
    for i := 0 to |sorted|
      invariant fed == StripVolatileHeader(conf) + ArtefactTexts(sorted[..i])
    {
      assert sorted[..i + 1][..i] == sorted[..i];
      fed := fed + ArtefactText(sorted[i]);
    }
    assert sorted[..|sorted|] == sorted;
    return digest(fed);
  }

  // ----- what the hash depends on -----

  /** Files that share a path are one and the same file. */
  predicate PathsTellApart(artefacts: seq<Artefact>) {
    forall i, j :: 0 <= i < |artefacts| && 0 <= j < |artefacts| && artefacts[i].path == artefacts[j].path
      ==> artefacts[i] == artefacts[j]
  }

  lemma ArtefactLeIsTotal()
    ensures TotalPreorder(ArtefactLe)
  {
    hide StringLe;
    forall a, b, c
      ensures (ArtefactLe(a, b) || ArtefactLe(b, a)) && (ArtefactLe(a, b) && ArtefactLe(b, c) ==> ArtefactLe(a, c))
    {
      StringLeTotal(a.path, b.path);
      if ArtefactLe(a, b) && ArtefactLe(b, c) { StringLeTransitive(a.path, b.path, c.path); }
    }
  }

  lemma SortArtefactsSorts(artefacts: seq<Artefact>)
    ensures SortedBy(SortArtefacts(artefacts), ArtefactLe) && multiset(SortArtefacts(artefacts)) == multiset(artefacts)
  {
    ArtefactLeIsTotal();
    SortSorts(artefacts, ArtefactLe);
    SortMultiset(artefacts, ArtefactLe);
  }

  lemma PathsTellApartIs(artefacts: seq<Artefact>)
    ensures PathsTellApart(artefacts) <==> AntisymmetricOn(artefacts, ArtefactLe)
  {
    hide StringLe;
    forall a, b | a in artefacts && b in artefacts ensures ArtefactLe(a, b) && ArtefactLe(b, a) <==> a.path == b.path {
      StringLeTotal(a.path, b.path);
      if ArtefactLe(a, b) && ArtefactLe(b, a) { StringLeAntisymmetric(a.path, b.path); }
    }
    hide ArtefactLe;
    if !PathsTellApart(artefacts) {
      var i, j :| 0 <= i < |artefacts| && 0 <= j < |artefacts| && artefacts[i].path == artefacts[j].path
                  && artefacts[i] != artefacts[j];
      assert artefacts[i] in artefacts && artefacts[j] in artefacts;
    }
  }

  /** Files reach the digest in one order however they are listed exactly when paths tell them apart. */
  lemma FileOrderIsCanonicalExactly(artefacts: seq<Artefact>)
    ensures PathsTellApart(artefacts)
       <==> (forall other :: multiset(other) == multiset(artefacts) ==>
               SortArtefacts(other) == SortArtefacts(artefacts))
  {
    ArtefactLeIsTotal();
    PathsTellApartIs(artefacts);
    if PathsTellApart(artefacts) {
      forall other | multiset(other) == multiset(artefacts) ensures SortArtefacts(other) == SortArtefacts(artefacts) {
        ListingsSortAlike(artefacts, other, ArtefactLe);
      }
    } else {
      var other := SomeListingSortsApart(artefacts, ArtefactLe);
      assert SortArtefacts(other) != SortArtefacts(artefacts);
    }
  }

  lemma SameFilesSameOrder(a: seq<Artefact>, b: seq<Artefact>)
    requires PathsTellApart(a)
    ensures SortArtefacts(a) == SortArtefacts(b) <==> multiset(a) == multiset(b)
  {
    hide SortArtefacts, PathsTellApart;
    FileOrderIsCanonicalExactly(a);
    SortArtefactsSorts(a);
    SortArtefactsSorts(b);
  }

  /** Texts in which the separators of the hash input cannot be mistaken. */
  predicate PlainArtefact(a: Artefact) {
    NUL !in a.path && NUL !in a.mode && NUL !in a.owner && ':' !in a.owner && NUL !in a.group && NUL !in a.content
  }

  function Fields(a: Artefact): seq<string> { [a.path, a.mode, a.owner + ":" + a.group, a.content] }

  function AllFields(artefacts: seq<Artefact>): seq<string> {
    if artefacts == [] then [] else AllFields(artefacts[..|artefacts| - 1]) + Fields(artefacts[|artefacts| - 1])
  }

  lemma {:induction false} JoinSnoc(parts: seq<string>, p: string, sep: char)
    requires parts != []
    ensures Join(parts + [p], sep) == Join(parts, sep) + [sep] + p
  {
    if |parts| == 1 {
      JoinCons(parts[0], [p], sep);
      assert parts + [p] == [parts[0]] + [p];
    } else {
      JoinSnoc(parts[1..], p, sep);
      assert parts + [p] == [parts[0]] + (parts[1..] + [p]);
      JoinCons(parts[0], parts[1..] + [p], sep);
    }
  }

  lemma JoinFields(parts: seq<string>, a: Artefact)
    requires parts != []
    ensures Join(parts + Fields(a), NUL) == Join(parts, NUL) + ArtefactText(a)
  {
    hide Join;
    var owner := a.owner + ":" + a.group;
    JoinSnoc(parts, a.path, NUL);
    JoinSnoc(parts + [a.path], a.mode, NUL);
    JoinSnoc(parts + [a.path] + [a.mode], owner, NUL);
    JoinSnoc(parts + [a.path] + [a.mode] + [owner], a.content, NUL);
    assert parts + Fields(a) == parts + [a.path] + [a.mode] + [owner] + [a.content];
  }

  lemma JoinOne(s: string)
    ensures Join([s], NUL) == s
  {
  }

  /** The hash input is the fields of all files joined by zero characters. */
  lemma {:induction false} InputIsJoined(conf: string, artefacts: seq<Artefact>)
    ensures conf + ArtefactTexts(artefacts) == Join([conf] + AllFields(artefacts), NUL)
  {
    hide ArtefactText, Fields, Join;
    if artefacts == [] {
      JoinOne(conf);
      assert [conf] + [] == [conf] && conf + "" == conf;
    } else {
      var init, last := artefacts[..|artefacts| - 1], artefacts[|artefacts| - 1];
      InputIsJoined(conf, init);
      JoinFields([conf] + AllFields(init), last);
      assert [conf] + AllFields(artefacts) == [conf] + AllFields(init) + Fields(last);
    }
  }

  lemma {:induction false} FieldsArePlain(artefacts: seq<Artefact>)
    requires forall a :: a in artefacts ==> PlainArtefact(a)
    ensures forall f :: f in AllFields(artefacts) ==> NUL !in f
    ensures |AllFields(artefacts)| == 4 * |artefacts|
  {
    hide PlainArtefact, Fields;
    if artefacts != [] {
      var n := |artefacts| - 1;
      FieldsArePlain(artefacts[..n]);
      PlainFields(artefacts[n]);
      assert artefacts[n] in artefacts;
    }
  }

  lemma PlainFields(a: Artefact)
    ensures |Fields(a)| == 4
    ensures PlainArtefact(a) ==> forall f :: f in Fields(a) ==> NUL !in f
  {
  }

  lemma OneFile(a: Artefact, b: Artefact)
    requires PlainArtefact(a) && PlainArtefact(b) && Fields(a) == Fields(b)
    ensures a == b
  {
    var fa, fb := Fields(a), Fields(b);
    assert fa[0] == fb[0] && fa[1] == fb[1] && fa[2] == fb[2] && fa[3] == fb[3];
    var o := a.owner + ":" + a.group;
    assert a.owner + [':'] + a.group == o && b.owner + [':'] + b.group == o;
    IndexOfAppend(a.owner, a.group, ':');
    IndexOfAppend(b.owner, b.group, ':');
    assert a.group == o[|a.owner| + 1..] && b.group == o[|b.owner| + 1..];
    assert a.owner == o[..|a.owner|] && b.owner == o[..|b.owner|];
  }

  lemma {:induction false} FieldsDetermine(a: seq<Artefact>, b: seq<Artefact>)
    requires forall x :: x in a ==> PlainArtefact(x)
    requires forall x :: x in b ==> PlainArtefact(x)
    requires AllFields(a) == AllFields(b)
    ensures a == b
  {
    hide PlainArtefact;
    FieldsArePlain(a);
    FieldsArePlain(b);
    if a != [] {
      var n := |a| - 1;
      var x, y := AllFields(a[..n]), AllFields(b[..n]);
      FieldsArePlain(a[..n]);
      FieldsArePlain(b[..n]);
      assert x == AllFields(a)[..|x|] == AllFields(b)[..|y|] == y;
      assert Fields(a[n]) == AllFields(a)[|x|..] == AllFields(b)[|y|..] == Fields(b[n]);
      hide Fields;
      OneFile(a[n], b[n]);
      FieldsDetermine(a[..n], b[..n]);
      assert a == a[..n] + [a[n]] && b == b[..n] + [b[n]];
    }
  }

  /** For texts without zero characters the hash input determines the configuration, up to its
      header line, and the set of files; and conversely. */
  lemma HashInputDetermines(conf: string, a: seq<Artefact>, conf': string, b: seq<Artefact>)
    requires NUL !in StripVolatileHeader(conf) && NUL !in StripVolatileHeader(conf')
    requires PathsTellApart(a) && (forall x :: x in a ==> PlainArtefact(x)) && (forall x :: x in b ==> PlainArtefact(x))
    ensures HashInput(conf, a) == HashInput(conf', b)
       <==> StripVolatileHeader(conf) == StripVolatileHeader(conf') && multiset(a) == multiset(b)
  {
    hide StripVolatileHeader, SortArtefacts, PlainArtefact, ArtefactTexts, Join;
    SameFilesSameOrder(a, b);
    SortArtefactsSorts(a);
    SortArtefactsSorts(b);
    var s, t := SortArtefacts(a), SortArtefacts(b);
    forall x | x in s ensures PlainArtefact(x) { assert x in multiset(a); }
    forall x | x in t ensures PlainArtefact(x) { assert x in multiset(b); }
    var c, c' := StripVolatileHeader(conf), StripVolatileHeader(conf');
    if c + ArtefactTexts(s) == c' + ArtefactTexts(t) {
      InputIsJoined(c, s);
      InputIsJoined(c', t);
      FieldsArePlain(s);
      FieldsArePlain(t);
      hide AllFields;
      SplitJoin([c] + AllFields(s), NUL);
      SplitJoin([c'] + AllFields(t), NUL);
      assert ([c] + AllFields(s))[0] == ([c'] + AllFields(t))[0];
      assert AllFields(s) == ([c] + AllFields(s))[1..] == ([c'] + AllFields(t))[1..] == AllFields(t);
      FieldsDetermine(s, t);
    }
  }

  /** With a digest that does not collide on the two inputs, hashes agree exactly when the nodes
      would hold the same files and, once the header lines are taken out, the same configuration. */
  lemma HashShowsDrift(conf: string, a: seq<Artefact>, conf': string, b: seq<Artefact>, digest: string -> string)
    requires NUL !in WithoutHeader(conf) && NUL !in WithoutHeader(conf')
    requires PathsTellApart(a) && (forall x :: x in a ==> PlainArtefact(x)) && (forall x :: x in b ==> PlainArtefact(x))
    requires digest(HashInput(conf, a)) == digest(HashInput(conf', b)) ==> HashInput(conf, a) == HashInput(conf', b)
    ensures digest(HashInput(conf, a)) == digest(HashInput(conf', b))
       <==> WithoutHeader(conf) == WithoutHeader(conf') && multiset(a) == multiset(b)
  {
    StripsTheHeader(conf);
    StripsTheHeader(conf');
    hide HashInput, StripVolatileHeader, WithoutHeader;
    HashInputDetermines(conf, a, conf', b);
  }

  /** The part of a compiled file after its header, as it is written. */
  function WrittenRest(conf: seq<Directive>, render: Directive -> seq<string>): string
    requires conf != []
  {
    Squeeze("\n" + RestText(conf, render), 0)
  }

  lemma LastPartIsFree(before: string, after: string)
    requires HeaderFree(before + "\n" + after)
    ensures HeaderFree(before) && HeaderFree(after)
  {
    hide Split, HeaderText;
    SplitAppend(before, after, '\n');
    assert before + ['\n'] + after == before + "\n" + after;
  }

  lemma EmptyLineIsFree(text: string)
    requires HeaderFree(text)
    ensures HeaderFree(text + "\n")
  {
    hide HeaderText;
    SplitAppend(text, "", '\n');
    assert text + ['\n'] + "" == text + "\n" && Split("", '\n') == [""];
    hide Split;
    NoHeaderInEmptyLine();
  }

  lemma NoHeaderInEmptyLine()
    ensures !HeaderText("")
  {
  }

  lemma StrippedFile(preamble: string, conf: seq<Directive>, render: Directive -> seq<string>)
    requires conf != [] && conf[0].Generated? && '\n' !in conf[0].at
    requires HeaderFree(Squeeze(preamble + "\n", 0)) && HeaderFree(WrittenRest(conf, render))
    ensures StripVolatileHeader(ConfText(preamble, conf, render))
         == Squeeze(preamble + "\n", 0) + WrittenRest(conf, render)[1..] + "\n"
    ensures WrittenRest(conf, render) != "" && WrittenRest(conf, render)[0] == '\n'
  {
    hide StripVolatileHeader, ConfText, Squeeze, RestText, HeaderFree, HeaderText;
    var before, after := TextAroundHeader(preamble, conf, render);
    var line := HEADER + conf[0].at;
    assert before + "\n" + "" == before + "\n";
    LastPartIsFree(before, "");
    assert "" + "\n" + after == "\n" + after;
    LastPartIsFree("", after);
    EmptyLineIsFree(after);
    HeaderIsGenerated(conf[0].at);
    GeneratedLineExactly(line);
    assert '\n' !in HEADER;
    OneHeaderIsStripped(before, line, after + "\n");
  }

  /** No header lines and no zero characters. */
  ghost predicate Plain(text: string) { HeaderFree(text) && NUL !in text }

  /** Two compiled files with the same preamble have the same hash input exactly when the same files go with
      them and everything after the header line is written alike: no change of a policy goes unseen. */
  lemma PolicyChangesShow(ir: ConfigurationIr, a: seq<Artefact>, other: ConfigurationIr, b: seq<Artefact>,
                          preamble: string, render: Directive -> seq<string>)
    requires '\n' !in ir.generatedAt && '\n' !in other.generatedAt && Plain(Squeeze(preamble + "\n", 0))
    requires Plain(WrittenRest(Compile(ir).squidConf, render)) && Plain(WrittenRest(Compile(other).squidConf, render))
    requires PathsTellApart(a) && (forall x :: x in a ==> PlainArtefact(x)) && (forall x :: x in b ==> PlainArtefact(x))
    ensures var conf, conf' := Compile(ir).squidConf, Compile(other).squidConf;
            HashInput(ConfText(preamble, conf, render), a) == HashInput(ConfText(preamble, conf', render), b)
            <==> WrittenRest(conf, render) == WrittenRest(conf', render) && multiset(a) == multiset(b)
  {
    CompileTimeIsTheHeader(ir, ir.generatedAt);
    CompileTimeIsTheHeader(other, other.generatedAt);
    var conf, conf' := Compile(ir).squidConf, Compile(other).squidConf;
    assert conf[0].at == ir.generatedAt && conf'[0].at == other.generatedAt;
    hide Compile, ConfText, StripVolatileHeader, HashInput, Squeeze, RestText, WrittenRest, HeaderFree;
    StrippedFile(preamble, conf, render);
    StrippedFile(preamble, conf', render);
    HashInputDetermines(ConfText(preamble, conf, render), a, ConfText(preamble, conf', render), b);
    var head, r, r' := Squeeze(preamble + "\n", 0), WrittenRest(conf, render), WrittenRest(conf', render);
    if head + r[1..] + "\n" == head + r'[1..] + "\n" {
      SameMiddle(head, r[1..], r'[1..]);
      assert r == "\n" + r[1..] && r' == "\n" + r'[1..];
    }
  }

  lemma SameMiddle(head: string, x: string, y: string)
    requires head + x + "\n" == head + y + "\n"
    ensures x == y
  {
    assert (head + x + "\n")[|head|..][..|x|] == x && (head + y + "\n")[|head|..][..|y|] == y;
  }

  lemma SwallowsArtefact(x: Artefact, y: Artefact)
    ensures ArtefactText(x.(content := x.content + ArtefactText(y))) == ArtefactText(x) + ArtefactText(y)
  {
    var start := [NUL] + x.path + [NUL] + x.mode + [NUL] + x.owner + ":" + x.group + [NUL];
    assert start + (x.content + ArtefactText(y)) == (start + x.content) + ArtefactText(y);
  }

  lemma OneText(x: Artefact)
    ensures ArtefactTexts([x]) == ArtefactText(x) && SortArtefacts([x]) == [x]
  {
    hide ArtefactText;
    assert [x][..0] == [] && [x][1..] == [];
    assert Sort([x], ArtefactLe) == Insert(x, Sort([], ArtefactLe), ArtefactLe);
    assert ArtefactTexts([x]) == "" + ArtefactText(x);
  }

  /** With zero characters in a file a set of two files and a single file share a hash input. */
  lemma ZeroCharactersConfuse(conf: string, x: Artefact, y: Artefact)
    requires StringLe(x.path, y.path)
    ensures HashInput(conf, [x, y]) == HashInput(conf, [x.(content := x.content + ArtefactText(y))])
  {
    hide StripVolatileHeader, ArtefactText, StringLe;
    var both := x.(content := x.content + ArtefactText(y));
    SwallowsArtefact(x, y);
    OneText(x);
    OneText(y);
    OneText(both);
    assert [x, y][1..] == [y] && [x, y][..1] == [x];
    assert Sort([x, y], ArtefactLe) == Insert(x, Sort([y], ArtefactLe), ArtefactLe) == [x] + [y] == [x, y];
    assert ArtefactTexts([x, y]) == ArtefactTexts([x]) + ArtefactText(y);
  }

  /** The hash of a policy does not depend on when it was compiled or on the order of the files. */
  lemma HashIsStable(ir: ConfigurationIr, later: string, preamble: string, render: Directive -> seq<string>,
                     a: seq<Artefact>, b: seq<Artefact>)
    requires '\n' !in ir.generatedAt && '\n' !in later
    requires PathsTellApart(a) && multiset(a) == multiset(b)
    ensures HashInput(ConfText(preamble, Compile(ir).squidConf, render), a)
         == HashInput(ConfText(preamble, Compile(ir.(generatedAt := later)).squidConf, render), b)
  {
    hide StripVolatileHeader, SortArtefacts, ConfText, Compile;
    CompileTimeIsStripped(ir, later, preamble, render);
    SameFilesSameOrder(a, b);
  }
}
