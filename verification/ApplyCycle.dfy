/** The apply cycle of the node agent (apps/agent/src/index.ts, applyBundle and the poll loop): a
    bundle is staged, validated, made live and loaded by Squid, and its hash remembered. */
module ApplyCycle {
  import opened Text
  import opened ConfigurationHash

  datatype Bundle = Bundle(conf: string, artefacts: seq<Artefact>)

  /** The hash the control plane sends along with a bundle. */
  function HashOf(b: Bundle, digest: string -> string): string { digest(HashInput(b.conf, b.artefacts)) }

  /** What happens to one application: how many files could be written, the staged configuration
      being the first, whether it parses, and whether writing the live file, starting or
      reconfiguring Squid, and writing the state file succeed. */
  datatype Fate = Fate(filesWritten: nat, parses: bool, liveWritten: bool, squidTakesIt: bool, stateWritten: bool)

  datatype ApplyResult = Applied | Failed | ValidationFailed | Unchanged | Threw

  type Files = map<string, Artefact>

  /** The agent and its node. live is the bundle whose configuration is at the live path, squid the
      one whose configuration the running Squid has loaded; validated are the configurations that
      have parsed so far. */
  datatype NodeState = NodeState(
    appliedHash: Option<string>,
    storedHash: Option<string>,
    files: Files,
    live: Option<Bundle>,
    squid: Option<Bundle>,
    validated: set<string>)

  function WriteFiles(files: Files, artefacts: seq<Artefact>): Files {
    if artefacts == [] then files
    else
      var last := artefacts[|artefacts| - 1];
      WriteFiles(files, artefacts[..|artefacts| - 1])[last.path := last]
  }

  function Apply(st: NodeState, b: Bundle, fate: Fate, digest: string -> string): (NodeState, ApplyResult) {
    var n := |b.artefacts|;
    if st.appliedHash == Some(HashOf(b, digest)) && st.squid.Some? then (st, Unchanged)
    else if fate.filesWritten == 0 then (st, Failed)
    else if fate.filesWritten <= n then (st.(files := WriteFiles(st.files, b.artefacts[..fate.filesWritten - 1])),
                                         Failed)
    else
      var staged := st.(files := WriteFiles(st.files, b.artefacts));
      if !fate.parses then (staged, ValidationFailed)
      else
        var valid := staged.(validated := st.validated + {b.conf});
        if !fate.liveWritten then (valid, Threw)
        else if !fate.squidTakesIt then (valid.(live := Some(b)), Failed)
        else
          var hash := Some(HashOf(b, digest));
          (NodeState(hash, if fate.stateWritten then hash else st.storedHash, valid.files, Some(b), Some(b),
                     valid.validated),
           if fate.stateWritten then Applied else Threw)
  }

  class NodeAgent {
    const digest: string -> string
    var appliedHash: Option<string>
    var storedHash: Option<string>
    var files: Files
    var live: Option<Bundle>
    var squid: Option<Bundle>
    var validated: set<string>

    constructor (digest: string -> string)
      ensures this.digest == digest && State() == NodeState(None, None, map[], None, None, {})
    {
      this.digest := digest;
      appliedHash, storedHash, files, live, squid, validated := None, None, map[], None, None, {};
    }

    function State(): NodeState
      reads this
    {
      NodeState(appliedHash, storedHash, files, live, squid, validated)
    }

    method WriteArtefacts(artefacts: seq<Artefact>, filesWritten: nat) returns (written: bool)
      modifies this`files
      ensures written == (filesWritten > |artefacts|)
      ensures filesWritten == 0 ==> files == old(files)
      ensures filesWritten > 0 ==>
                files == WriteFiles(old(files), if written then artefacts else artefacts[..filesWritten - 1])
    {
      if filesWritten == 0 { return false; }
      for i := 0 to |artefacts|
        invariant i < filesWritten
        invariant files == WriteFiles(old(files), artefacts[..i])
      {
        assert artefacts[..i + 1][..i] == artefacts[..i];
        if i + 1 == filesWritten { return false; }
        files := files[artefacts[i].path := artefacts[i]];
      }
      assert artefacts[..|artefacts|] == artefacts;
      return true;
    }

    method ApplyBundle(b: Bundle, fate: Fate) returns (result: ApplyResult)
      modifies this
      ensures (State(), result) == Apply(old(State()), b, fate, digest)
    {
      hide HashOf;
      if appliedHash == Some(HashOf(b, digest)) && squid.Some? { return Unchanged; }
      var written := WriteArtefacts(b.artefacts, fate.filesWritten);
      if !written { return Failed; }
      if !fate.parses { return ValidationFailed; }
      validated := validated + {b.conf};
      if !fate.liveWritten { return Threw; }
      live := Some(b);
      if !fate.squidTakesIt { return Failed; }
      squid := live;
      appliedHash := Some(HashOf(b, digest));
      if !fate.stateWritten { return Threw; }
      storedHash := appliedHash;
      return Applied;
    }
  }

  // ----- runs -----

  /** StateSaved is the log shipper writing the state file, which holds the remembered hash as well. */
  datatype Event = Poll(bundle: Bundle, fate: Fate) | StateSaved | SquidExits | AgentRestarts | Reenrols

  function Step(st: NodeState, e: Event, digest: string -> string): NodeState {
    match e
    case Poll(bundle, fate) => Apply(st, bundle, fate, digest).0
    case StateSaved => st.(storedHash := st.appliedHash)
    case SquidExits => st.(squid := None)
    case AgentRestarts => st.(appliedHash := st.storedHash, squid := None)
    case Reenrols => st.(appliedHash := None, storedHash := None)
  }

  function RunOf(events: seq<Event>, digest: string -> string): NodeState {
    if events == [] then NodeState(None, None, map[], None, None, {})
    else Step(RunOf(events[..|events| - 1], digest), events[|events| - 1], digest)
  }

  ghost predicate Sound(st: NodeState, digest: string -> string) {
    && (st.live.Some? ==> st.live.value.conf in st.validated)
    && (st.squid.Some? ==> st.squid.value.conf in st.validated)
    && (st.squid.Some? && st.appliedHash.Some? ==> st.appliedHash.value == HashOf(st.squid.value, digest))
  }

  /** Over every run only validated configurations become live or are loaded, and while Squid runs
      the remembered hash is the hash of what it loaded. */
  lemma {:induction false} RunsAreSound(events: seq<Event>, digest: string -> string)
    ensures Sound(RunOf(events, digest), digest)
  {
    hide HashOf, WriteFiles;
    if events != [] { RunsAreSound(events[..|events| - 1], digest); }
  }

  /** UNCHANGED means that the configuration Squid has loaded is the offered one up to its header
      line, and was loaded from a bundle with the offered files. */
  lemma UnchangedMeansOffered(events: seq<Event>, b: Bundle, fate: Fate, digest: string -> string)
    requires var st := RunOf(events, digest);
             Apply(st, b, fate, digest).1 == Unchanged
             && st.squid.Some? && PlainBundle(b) && PlainBundle(st.squid.value)
             && NoCollision(b, st.squid.value, digest)
    ensures var loaded := RunOf(events, digest).squid.value;
            WithoutHeader(loaded.conf) == WithoutHeader(b.conf)
              && multiset(loaded.artefacts) == multiset(b.artefacts)
  {
    hide StripVolatileHeader, WithoutHeader, HashInput, RunOf, PlainArtefact, PathsTellApart, WriteFiles;
    RunsAreSound(events, digest);
    var loaded := RunOf(events, digest).squid.value;
    StripsTheHeader(b.conf);
    StripsTheHeader(loaded.conf);
    HashInputDetermines(b.conf, b.artefacts, loaded.conf, loaded.artefacts);
  }

  ghost predicate PlainBundle(b: Bundle) {
    && NUL !in WithoutHeader(b.conf)
    && PathsTellApart(b.artefacts)
    && forall a :: a in b.artefacts ==> PlainArtefact(a)
  }

  ghost predicate NoCollision(a: Bundle, b: Bundle, digest: string -> string) {
    HashOf(a, digest) == HashOf(b, digest) ==> HashInput(a.conf, a.artefacts) == HashInput(b.conf, b.artefacts)
  }

  /** UNCHANGED is reported exactly when Squid runs and the hash of what it loaded is the offered one,
      as long as the agent still remembers a hash. */
  lemma UnchangedExactly(events: seq<Event>, b: Bundle, fate: Fate, digest: string -> string)
    requires RunOf(events, digest).appliedHash.Some?
    ensures var st := RunOf(events, digest);
            Apply(st, b, fate, digest).1 == Unchanged
            <==> st.squid.Some? && HashOf(st.squid.value, digest) == HashOf(b, digest)
  {
    hide HashOf, RunOf, WriteFiles;
    RunsAreSound(events, digest);
  }

  /** A bundle that fails validation, or any application that ends before the live file is written,
      leaves the live file, the running Squid and the remembered hash alone. */
  lemma RejectedBundleChangesNothingLive(st: NodeState, b: Bundle, fate: Fate, digest: string -> string)
    ensures var (next, result) := Apply(st, b, fate, digest);
            (result == ValidationFailed || !fate.parses || !fate.liveWritten ==>
               && next.live == st.live && next.squid == st.squid
               && next.appliedHash == st.appliedHash && next.storedHash == st.storedHash)
            && (result != Unchanged && result != Applied && next.squid != st.squid ==>
                  next.squid == Some(b) && !fate.stateWritten)
  {
    hide HashOf, WriteFiles;
  }

  // ----- the live file -----

  /** The application gets as far as writing the live file. */
  predicate WritesLive(st: NodeState, b: Bundle, fate: Fate, digest: string -> string) {
    && !(st.appliedHash == Some(HashOf(b, digest)) && st.squid.Some?)
    && fate.filesWritten > |b.artefacts| && fate.parses && fate.liveWritten
  }

  /** The answer is a matter of the fate alone once the bundle is not already applied: an application that
      writes the live file is Applied only if Squid takes it and the state is stored, and Failed if Squid
      does not take it. */
  lemma AnswerExactly(st: NodeState, b: Bundle, fate: Fate, digest: string -> string)
    ensures var result, written := Apply(st, b, fate, digest).1, fate.filesWritten > |b.artefacts|;
            var already := st.squid.Some? && st.appliedHash == Some(HashOf(b, digest));
            && (result == Unchanged <==> already)
            && (result == ValidationFailed <==> !already && written && !fate.parses)
            && (result == Failed <==>
                  !already && (!written || (fate.parses && fate.liveWritten && !fate.squidTakesIt)))
            && (result == Threw <==>
                  !already && written && fate.parses
                  && (!fate.liveWritten || (fate.squidTakesIt && !fate.stateWritten)))
            && (result == Applied <==>
                  !already && written && fate.parses && fate.liveWritten && fate.squidTakesIt && fate.stateWritten)
  {
    hide HashOf, WriteFiles;
  }

  /** What each application leaves behind, field by field. */
  lemma LeavesExactly(st: NodeState, b: Bundle, fate: Fate, digest: string -> string)
    ensures var next := Apply(st, b, fate, digest).0;
            var live := WritesLive(st, b, fate, digest);
            var taken, hash := live && fate.squidTakesIt, Some(HashOf(b, digest));
            && next.live == (if live then Some(b) else st.live)
            && next.squid == (if taken then Some(b) else st.squid)
            && next.appliedHash == (if taken then hash else st.appliedHash)
            && next.storedHash == (if taken && fate.stateWritten then hash else st.storedHash)
  {
    hide HashOf, WriteFiles;
  }

  /** APPLIED is the truth: Squid has loaded the bundle, it is live, and both copies of the hash are its own. */
  lemma AppliedMeansApplied(st: NodeState, b: Bundle, fate: Fate, digest: string -> string)
    requires Apply(st, b, fate, digest).1 == Applied
    ensures var next := Apply(st, b, fate, digest).0;
            next.squid == next.live == Some(b) && next.appliedHash == next.storedHash == Some(HashOf(b, digest))
  {
    hide HashOf, WriteFiles;
  }

  /** The bundle was offered and Squid took it at some time of the run. */
  ghost predicate WasTaken(events: seq<Event>, hash: string, digest: string -> string) {
    exists e :: e in events && e.Poll? && e.fate.squidTakesIt && HashOf(e.bundle, digest) == hash
  }

  lemma TakenStays(events: seq<Event>, e: Event, hash: string, digest: string -> string)
    requires WasTaken(events, hash, digest)
    ensures WasTaken(events + [e], hash, digest)
  {
    hide HashOf;
    var d :| d in events && d.Poll? && d.fate.squidTakesIt && HashOf(d.bundle, digest) == hash;
    assert d in events + [e];
  }

  /** Over every run, restarts included, the hashes in memory and in the state file are those of bundles
      Squid has taken. */
  lemma {:induction false} HashesWereTaken(events: seq<Event>, digest: string -> string)
    ensures var st := RunOf(events, digest);
            && (st.appliedHash.Some? ==> WasTaken(events, st.appliedHash.value, digest))
            && (st.storedHash.Some? ==> WasTaken(events, st.storedHash.value, digest))
  {
    hide HashOf, WriteFiles, WasTaken;
    if events != [] {
      var init, e := events[..|events| - 1], events[|events| - 1];
      var st := RunOf(init, digest);
      assert events == init + [e];
      HashesWereTaken(init, digest);
      if st.appliedHash.Some? { TakenStays(init, e, st.appliedHash.value, digest); }
      if st.storedHash.Some? { TakenStays(init, e, st.storedHash.value, digest); }
      if e.Poll? {
        LeavesExactly(st, e.bundle, e.fate, digest);
        NowTaken(events, e, digest);
      }
    }
  }

  lemma NowTaken(events: seq<Event>, e: Event, digest: string -> string)
    requires e in events && e.Poll?
    ensures e.fate.squidTakesIt ==> WasTaken(events, HashOf(e.bundle, digest), digest)
  {
    hide HashOf;
  }

  /** After Squid has exited, the agent has restarted or the node has enrolled again, no offer is UNCHANGED. */
  lemma StartsAfresh(st: NodeState, e: Event, b: Bundle, fate: Fate, digest: string -> string)
    requires e.SquidExits? || e.AgentRestarts? || e.Reenrols?
    ensures Apply(Step(st, e, digest), b, fate, digest).1 != Unchanged
    ensures Step(st, e, digest).live == st.live && Step(st, e, digest).files == st.files
  {
    hide HashOf, WriteFiles;
  }

  /** The last application that wrote the live file wrote another bundle than the one Squid had loaded,
      and Squid did not take it. */
  ghost predicate Behind(events: seq<Event>, digest: string -> string) {
    if events == [] then false
    else
      var init, e := events[..|events| - 1], events[|events| - 1];
      var st := RunOf(init, digest);
      if e.Poll? && WritesLive(st, e.bundle, e.fate, digest) then !e.fate.squidTakesIt && st.squid != Some(e.bundle)
      else Behind(init, digest)
  }

  /** Over every run, while Squid runs the live file is that of the bundle it has loaded exactly when
      Squid is not behind. */
  lemma {:induction false} LiveIsLoadedExactly(events: seq<Event>, digest: string -> string)
    ensures var st := RunOf(events, digest); st.squid.Some? ==> (st.live == st.squid <==> !Behind(events, digest))
  {
    hide HashOf, WriteFiles;
    if events != [] { LiveIsLoadedExactly(events[..|events| - 1], digest); }
  }

  lemma RefusedStep(st: NodeState, e: Event, bad: Bundle, good: Bundle, digest: string -> string)
    requires st.live == Some(bad) && st.squid == Some(good) && st.appliedHash == Some(HashOf(good, digest))
    requires e.StateSaved? || (e.Poll? && e.bundle == good)
    ensures var next := Step(st, e, digest);
            next.live == st.live && next.squid == st.squid && next.appliedHash == st.appliedHash
  {
    hide HashOf, WriteFiles;
  }

  /** After a failed reconfigure the loaded bundle is answered UNCHANGED however often it is offered, so
      the live file stays that of the refused bundle, until Squid exits: the next application of the
      loaded bundle that gets that far writes it back. */
  lemma {:induction false} FailedReconfigureLeavesLiveFile(before: seq<Event>, bad: Bundle, fate: Fate,
                          again: seq<Event>, last: Fate, digest: string -> string)
    requires var st := RunOf(before, digest);
             st.squid.Some? && st.appliedHash.Some? && WritesLive(st, bad, fate, digest) && !fate.squidTakesIt
    requires forall e :: e in again ==> e.StateSaved? || (e.Poll? && e.bundle == RunOf(before, digest).squid.value)
    ensures var good, st := RunOf(before, digest).squid.value, RunOf(before + [Poll(bad, fate)] + again, digest);
            && st.live == Some(bad) && st.squid == Some(good) && bad != good
            && st.appliedHash == Some(HashOf(good, digest)) && Apply(st, good, last, digest) == (st, Unchanged)
            && var down := Step(st, SquidExits, digest);
               WritesLive(down, good, last, digest) ==> Step(down, Poll(good, last), digest).live == Some(good)
  {
    var events, good := before + [Poll(bad, fate)] + again, RunOf(before, digest).squid.value;
    var init, e := events[..|events| - 1], events[|events| - 1];
    if again == [] {
      assert init == before && e == Poll(bad, fate);
      RunsAreSound(before, digest);
    } else {
      assert init == before + [Poll(bad, fate)] + again[..|again| - 1] && e == again[|again| - 1];
      FailedReconfigureLeavesLiveFile(before, bad, fate, again[..|again| - 1], last, digest);
      RefusedStep(RunOf(init, digest), e, bad, good, digest);
    }
    hide HashOf, WriteFiles;
  }

  // ----- the other files -----

  /** Every artefact of the bundle is on the node as the bundle has it. */
  ghost predicate Holds(files: Files, artefacts: seq<Artefact>) {
    forall a :: a in artefacts ==> a.path in files && files[a.path] == a
  }

  lemma {:induction false} WrittenFiles(files: Files, artefacts: seq<Artefact>)
    requires PathsTellApart(artefacts)
    ensures Holds(WriteFiles(files, artefacts), artefacts)
    ensures forall path | (forall a :: a in artefacts ==> a.path != path) ::
              (path in WriteFiles(files, artefacts) <==> path in files)
              && (path in files ==> WriteFiles(files, artefacts)[path] == files[path])
  {
    if artefacts != [] {
      var n := |artefacts| - 1;
      var init, last := artefacts[..n], artefacts[n];
      WrittenFiles(files, init);
      forall a | a in init ensures a.path == last.path ==> a == last {
        var i :| 0 <= i < n && artefacts[i] == a;
      }
      assert forall a :: a in artefacts <==> a in init || a == last;
    }
  }

  /** The two lists disagree about no path. */
  ghost predicate AgreeOnPaths(a: seq<Artefact>, b: seq<Artefact>) {
    forall x, y :: x in a && y in b && x.path == y.path ==> x == y
  }

  /** After the files of another bundle were written, the node still holds the first bundle's files
      exactly when the two bundles disagree about no path. */
  lemma OverwrittenExactly(files: Files, mine: seq<Artefact>, theirs: seq<Artefact>)
    requires Holds(files, mine) && PathsTellApart(theirs)
    ensures Holds(WriteFiles(files, theirs), mine) <==> AgreeOnPaths(mine, theirs)
  {
    WrittenFiles(files, theirs);
    hide WriteFiles;
    var after := WriteFiles(files, theirs);
    if Holds(after, mine) {
      forall x, y | x in mine && y in theirs && x.path == y.path
        ensures x == y { assert after[x.path] == x && after[y.path] == y; }
    }
    if AgreeOnPaths(mine, theirs) {
      forall x | x in mine ensures x.path in after && after[x.path] == x {
        if y :| y in theirs && y.path == x.path { assert after[y.path] == y; }
      }
    }
  }

  /** The files on the node are those of the bundle that was applied last. */
  ghost predicate Clean(st: NodeState) { st.squid.Some? ==> Holds(st.files, st.squid.value.artefacts) }

  /** No application was cut short after it began to write files. */
  ghost predicate NoneCutShort(events: seq<Event>) {
    forall e :: e in events && e.Poll? ==>
      && PathsTellApart(e.bundle.artefacts) && e.fate.filesWritten > |e.bundle.artefacts|
      && e.fate.parses && e.fate.liveWritten && e.fate.squidTakesIt
  }

  /** While no application is cut short, UNCHANGED also means that the offered files are on the node. */
  lemma {:induction false} FilesAreThoseApplied(events: seq<Event>, digest: string -> string)
    requires NoneCutShort(events)
    ensures Clean(RunOf(events, digest))
  {
    hide HashOf, PathsTellApart, WriteFiles, Holds;
    if events != [] {
      var before, e := RunOf(events[..|events| - 1], digest), events[|events| - 1];
      FilesAreThoseApplied(events[..|events| - 1], digest);
      assert e in events;
      if e.Poll? { WrittenFiles(before.files, e.bundle.artefacts); }
    }
  }

  /** But files are written before the configuration is validated: after a rejected bundle that
      disagrees with the applied one about a path, offering the applied one again is answered
      UNCHANGED although its files are not on the node. */
  lemma RejectedBundleLeavesItsFiles(good: Bundle, bad: Bundle, fate: Fate, again: Fate, digest: string -> string)
    requires HashOf(good, digest) != HashOf(bad, digest) && PathsTellApart(good.artefacts)
    requires PathsTellApart(bad.artefacts)
    requires fate.filesWritten > |bad.artefacts| && !fate.parses
    ensures var fine := Fate(|good.artefacts| + 1, true, true, true, true);
            var st := RunOf([Poll(good, fine), Poll(bad, fate)], digest);
            && Apply(st, good, again, digest).1 == Unchanged
            && st.squid == Some(good) && st.appliedHash == Some(HashOf(good, digest))
            && (Holds(st.files, good.artefacts) <==> AgreeOnPaths(good.artefacts, bad.artefacts))
  {
    hide HashOf, PathsTellApart, WriteFiles, Holds, AgreeOnPaths;
    var fine := Fate(|good.artefacts| + 1, true, true, true, true);
    var events := [Poll(good, fine), Poll(bad, fate)];
    assert events[..1] == [Poll(good, fine)] && [Poll(good, fine)][..0] == [];
    var first := RunOf([Poll(good, fine)], digest);
    assert RunOf([], digest) == NodeState(None, None, map[], None, None, {});
    assert first == Apply(RunOf([], digest), good, fine, digest).0;
    WrittenFiles(map[], good.artefacts);
    assert Holds(first.files, good.artefacts) && first.squid == Some(good);
    OverwrittenExactly(first.files, good.artefacts, bad.artefacts);
    assert RunOf(events, digest) == Apply(first, bad, fate, digest).0;
  }
}
