/** What log shipping delivers over whole runs: offsets stay at line boundaries, every non-blank line
    before the offset was delivered in order, exactly once when nothing fails, and a cycle advances
    exactly when its window holds a line end. */
module LogDelivery {
  import opened Text
  import opened Utf8
  import opened LogShipper

  // ----- the lines of a file -----

  function FirstNewlineByte(bytes: seq<Byte>): (i: nat)
    ensures i <= |bytes|
    ensures i < |bytes| ==> bytes[i] == NEWLINE_BYTE
    ensures forall k :: 0 <= k < i ==> bytes[k] != NEWLINE_BYTE
  {
    if bytes == [] || bytes[0] == NEWLINE_BYTE then 0 else 1 + FirstNewlineByte(bytes[1..])
  }

  /** The lines that have been ended by a newline, decoded one by one. */
  function CompleteLines(bytes: seq<Byte>): seq<Line>
    decreases |bytes|
  {
    var i := FirstNewlineByte(bytes);
    if i == |bytes| then [] else [Decode(bytes[..i])] + CompleteLines(bytes[i + 1..])
  }

  /** The lines worth delivering. */
  function LinesOf(bytes: seq<Byte>): seq<Line> { KeepLines(CompleteLines(bytes)) }

  ghost predicate Boundary(file: seq<Byte>, offset: nat) {
    offset <= |file| && (offset == 0 || file[offset - 1] == NEWLINE_BYTE)
  }

  lemma {:induction false} KeepAppend(a: seq<Line>, b: seq<Line>)
    ensures KeepLines(a + b) == KeepLines(a) + KeepLines(b)
  {
    hide IsBlankLine;
    if a == [] {
      assert a + b == b;
    } else {
      assert (a + b)[1..] == a[1..] + b;
      KeepAppend(a[1..], b);
    }
  }

  lemma FirstNewlineIs(a: seq<Byte>, b: seq<Byte>)
    requires NEWLINE_BYTE !in a
    ensures FirstNewlineByte(a + [NEWLINE_BYTE] + b) == |a|
  {
    var s := a + [NEWLINE_BYTE] + b;
    assert s[|a|] == NEWLINE_BYTE;
    assert forall k :: 0 <= k < |a| ==> s[k] == a[k];
  }

  lemma CompleteCons(head: seq<Byte>, rest: seq<Byte>)
    requires NEWLINE_BYTE !in head
    ensures CompleteLines(head + [NEWLINE_BYTE] + rest) == [Decode(head)] + CompleteLines(rest)
  {
    hide Decode;
    var s := head + [NEWLINE_BYTE] + rest;
    FirstNewlineIs(head, rest);
    assert s[..|head|] == head && s[|head| + 1..] == rest;
  }

  lemma FirstLine(a: seq<Byte>) returns (head: seq<Byte>, rest: seq<Byte>)
    requires a != [] && Boundary(a, |a|)
    ensures a == head + [NEWLINE_BYTE] + rest && NEWLINE_BYTE !in head && Boundary(rest, |rest|) && |rest| < |a|
  {
    var i := FirstNewlineByte(a);
    head, rest := a[..i], a[i + 1..];
  }

  lemma {:induction false} CompleteAppend(a: seq<Byte>, b: seq<Byte>)
    requires Boundary(a, |a|)
    ensures CompleteLines(a + b) == CompleteLines(a) + CompleteLines(b)
    decreases |a|
  {
    hide Decode, CompleteLines, Boundary, FirstNewlineByte;
    if a == [] {
      assert a + b == b;
      NoCompleteLines();
    } else {
      var head, rest := FirstLine(a);
      calc {
        CompleteLines(a + b);
        { assert a + b == head + [NEWLINE_BYTE] + (rest + b); }
        CompleteLines(head + [NEWLINE_BYTE] + (rest + b));
        { CompleteCons(head, rest + b); }
        [Decode(head)] + CompleteLines(rest + b);
        { CompleteAppend(rest, b); }
        [Decode(head)] + (CompleteLines(rest) + CompleteLines(b));
        [Decode(head)] + CompleteLines(rest) + CompleteLines(b);
        { CompleteCons(head, rest); }
        CompleteLines(a) + CompleteLines(b);
      }
    }
  }

  lemma NoCompleteLines()
    ensures CompleteLines([]) == []
  {
  }

  lemma LinesAppend(a: seq<Byte>, b: seq<Byte>)
    requires Boundary(a, |a|)
    ensures LinesOf(a + b) == LinesOf(a) + LinesOf(b)
  {
    CompleteAppend(a, b);
    KeepAppend(CompleteLines(a), CompleteLines(b));
  }

  lemma FirstNewlineText(a: seq<CodePoint>, b: seq<CodePoint>)
    requires NEWLINE !in a
    ensures FirstNewline(a) == |a| && FirstNewline(a + [NEWLINE] + b) == |a|
  {
    var s := a + [NEWLINE] + b;
    assert s[|a|] == NEWLINE;
    assert forall k :: 0 <= k < |a| ==> s[k] == a[k];
  }

  /** Splitting the decoded text gives the lines of the bytes, whatever the bytes. */
  lemma {:induction false} SplitIsCompleteLines(x: seq<Byte>)
    ensures SplitLines(Decode(x)) == CompleteLines(x + [NEWLINE_BYTE])
    decreases |x|
  {
    hide Decode;
    var i := FirstNewlineByte(x);
    var a := x[..i];
    assert NEWLINE_BYTE !in a;
    NoNewlineDecoded(a);
    if i == |x| {
      assert a == x && x + [NEWLINE_BYTE] == x + [NEWLINE_BYTE] + [];
      FirstNewlineText(Decode(x), []);
      CompleteCons(x, []);
      NoCompleteLines();
    } else {
      var b := x[i + 1..];
      assert x == a + [NEWLINE_BYTE] + b;
      DecodeSplitsAtNewline(a, b);
      FirstNewlineText(Decode(a), Decode(b));
      assert Decode(x)[..|Decode(a)|] == Decode(a) && Decode(x)[|Decode(a)| + 1..] == Decode(b);
      assert x + [NEWLINE_BYTE] == a + [NEWLINE_BYTE] + (b + [NEWLINE_BYTE]);
      CompleteCons(a, b + [NEWLINE_BYTE]);
      SplitIsCompleteLines(b);
    }
  }

  // ----- what a cycle has ready -----

  function LastNewlineByte(bytes: seq<Byte>): (i: int)
    ensures -1 <= i < |bytes|
    ensures i >= 0 ==> bytes[i] == NEWLINE_BYTE
    ensures forall k :: i < k < |bytes| ==> bytes[k] != NEWLINE_BYTE
  {
    if bytes == [] then -1
    else if bytes[|bytes| - 1] == NEWLINE_BYTE then |bytes| - 1
    else LastNewlineByte(bytes[..|bytes| - 1])
  }

  lemma {:induction false} LastNewlineText(a: seq<CodePoint>, b: seq<CodePoint>)
    requires NEWLINE !in b
    ensures LastNewline(a + [NEWLINE] + b) == |a|
  {
    var s := a + [NEWLINE] + b;
    if b == [] {
      assert s == a + [NEWLINE];
    } else {
      var n := |b| - 1;
      assert b[n] in b && s[|s| - 1] == b[n];
      assert s[..|s| - 1] == a + [NEWLINE] + b[..n];
      LastNewlineText(a, b[..n]);
    }
  }

  lemma LastLineOfWindow(w: seq<Byte>, p: nat)
    requires p < |w| && w[p] == NEWLINE_BYTE && NEWLINE_BYTE !in w[p + 1..]
    ensures LastNewline(Decode(w)) == |Decode(w[..p])| <= |Decode(w)|
    ensures Decode(w)[..|Decode(w[..p])|] == Decode(w[..p])
    ensures SplitLines(Decode(w[..p])) == CompleteLines(w[..p + 1])
  {
    hide Decode, SplitLines, CompleteLines;
    var a, b := w[..p], w[p + 1..];
    assert w == a + [NEWLINE_BYTE] + b;
    DecodeSplitsAtNewline(a, b);
    NoNewlineDecoded(b);
    LastNewlineText(Decode(a), Decode(b));
    hide LastNewline;
    SplitIsCompleteLines(a);
    assert w[..p + 1] == a + [NEWLINE_BYTE];
  }

  /** A cycle has something to ship exactly when its window holds a line end. The lines are those of
      the window up to its last line end; the offset moves there, or further when decoding replaced
      pieces shorter than the replacement character. */
  lemma ReadyIs(file: seq<Byte>, offset: nat) returns (p: int)
    ensures var start := StartOf(file, offset); var w := Window(file, start);
            && -1 <= p < |w|
            && (p >= 0 <==> NEWLINE_BYTE in w)
            && (Ready(file, offset).Some? <==> p >= 0)
            && (p >= 0 ==> w[p] == NEWLINE_BYTE && NEWLINE_BYTE !in w[p + 1..]
                           && Ready(file, offset)
                              == Some(Batch(LinesOf(w[..p + 1]), start + |Encode(Decode(w[..p]))| + 1)))
  {
    hide Decode, Encode, Window, KeepLines, SplitLines, CompleteLines, LastNewline;
    var w := Window(file, StartOf(file, offset));
    p := LastNewlineByte(w);
    if p >= 0 {
      assert NEWLINE_BYTE in w;
      LastLineOfWindow(w, p);
    } else {
      NoNewlineDecoded(w);
    }
  }

  /** Every line that has been ended decodes to text of its own length. */
  ghost predicate ExactLines(file: seq<Byte>) {
    forall p :: 0 <= p < |file| && file[p] == NEWLINE_BYTE ==> Exact(file[..p])
  }

  /** A file of valid text has exact lines, even when its last character is still being written. */
  lemma ValidFileIsExact(text: seq<CodePoint>, file: seq<Byte>)
    requires (forall c :: c in text ==> IsScalar(c)) && file <= Encode(text)
    ensures ExactLines(file)
  {
    hide Encode, Exact, IsScalar;
    forall p | 0 <= p < |file| && file[p] == NEWLINE_BYTE ensures Exact(file[..p]) {
      BeforeNewlineIsExact(text, p);
      assert file[..p] == Encode(text)[..p];
    }
  }

  lemma ExactFromBoundary(file: seq<Byte>, start: nat, p: nat)
    requires Boundary(file, start) && start <= p < |file| && file[p] == NEWLINE_BYTE && Exact(file[..p])
    ensures Exact(file[start..p])
  {
    hide Exact;
    if start > 0 {
      assert file[..p] == file[..start - 1] + [NEWLINE_BYTE] + file[start..p];
      ExactAroundNewline(file[..start - 1], file[start..p]);
    } else {
      assert file[0..p] == file[..p];
    }
  }

  /** From a line boundary of an exact file a cycle moves to the last line end of its window. */
  lemma ReadyFromBoundary(file: seq<Byte>, offset: nat)
    requires Boundary(file, offset) && ExactLines(file)
    ensures Ready(file, offset).Some? <==> NEWLINE_BYTE in Window(file, offset)
    ensures Ready(file, offset).Some? ==>
              var next := Ready(file, offset).value.next;
              offset < next <= offset + MAX_READ_BYTES && Boundary(file, next)
              && Ready(file, offset).value.lines == LinesOf(file[offset..next])
  {
    hide Decode, Encode, LinesOf, Ready;
    var p := ReadyIs(file, offset);
    var w := Window(file, offset);
    if p >= 0 {
      assert w[..p] == file[offset..offset + p] && w[..p + 1] == file[offset..offset + p + 1];
      ExactFromBoundary(file, offset, offset + p);
    }
  }

  // ----- delivery in order -----

  /** The lines occur in the log in this order, at the given places. */
  ghost predicate OccursAt<T(!new)>(lines: seq<T>, log: seq<T>, at: seq<nat>) {
    && |at| == |lines|
    && (forall i, j :: 0 <= i < j < |at| ==> at[i] < at[j])
    && (forall i :: 0 <= i < |at| ==> at[i] < |log| && log[at[i]] == lines[i])
  }

  ghost predicate InOrderIn<T(!new)>(lines: seq<T>, log: seq<T>) { exists at :: OccursAt(lines, log, at) }

  lemma NothingIsInOrder<T(!new)>(log: seq<T>)
    ensures InOrderIn([], log)
  {
    assert OccursAt([], log, []);
  }

  lemma LogGrows<T(!new)>(lines: seq<T>, log: seq<T>, more: seq<T>)
    requires InOrderIn(lines, log)
    ensures InOrderIn(lines, log + more)
  {
    var at :| OccursAt(lines, log, at);
    assert OccursAt(lines, log + more, at);
  }

  lemma BothGrow<T(!new)>(lines: seq<T>, log: seq<T>, more: seq<T>)
    requires InOrderIn(lines, log)
    ensures InOrderIn(lines + more, log + more)
  {
    var at :| OccursAt(lines, log, at);
    var there := at + seq(|more|, i => |log| + i);
    assert OccursAt(lines + more, log + more, there);
  }

  // ----- runs -----

  /** StateSaved is the apply cycle writing the state file, which holds the offset as well. */
  datatype Event = Append(bytes: seq<Byte>) | Cycle(fate: Fate) | StateSaved | Restart | Reenrol

  function Step(st: LogState, e: Event): LogState {
    match e
    case Append(bytes) => st.(file := st.file + bytes)
    case Cycle(fate) => Shipped(st, fate)
    case StateSaved => st.(disk := st.memory)
    case Restart => st.(memory := st.disk)
    case Reenrol => st.(memory := 0, disk := 0)
  }

  function RunOf(events: seq<Event>): LogState {
    if events == [] then LogState([], 0, 0, []) else Step(RunOf(events[..|events| - 1]), events[|events| - 1])
  }

  ghost predicate Delivered(st: LogState, offset: nat) {
    Boundary(st.file, offset) && InOrderIn(LinesOf(st.file[..offset]), st.delivered)
  }

  lemma StartIsDelivered(st: LogState)
    ensures Delivered(st, 0)
  {
    assert st.file[..0] == [] && LinesOf([]) == [];
    NothingIsInOrder(st.delivered);
  }

  lemma {:induction false} ExactPrefix(file: seq<Byte>, more: seq<Byte>)
    requires ExactLines(file + more)
    ensures ExactLines(file)
  {
    hide Exact;
    forall p | 0 <= p < |file| && file[p] == NEWLINE_BYTE ensures Exact(file[..p]) {
      assert (file + more)[..p] == file[..p] && (file + more)[p] == NEWLINE_BYTE;
    }
  }

  lemma CycleDelivers(st: LogState, fate: Fate)
    requires ExactLines(st.file) && Delivered(st, st.memory) && Delivered(st, st.disk)
    ensures Delivered(Shipped(st, fate), Shipped(st, fate).memory)
    ensures Delivered(Shipped(st, fate), Shipped(st, fate).disk)
  {
    hide LinesOf, Ready, InOrderIn, Reached, ExactLines;
    ReadyFromBoundary(st.file, st.memory);
    var before := LinesOf(st.file[..st.memory]);
    if Ready(st.file, st.memory).Some? {
      var batch := Ready(st.file, st.memory).value;
      if Fails(fate, batch.lines) {
        LogGrows(before, st.delivered, batch.lines[..Reached(fate, batch.lines)]);
        LogGrows(LinesOf(st.file[..st.disk]), st.delivered, batch.lines[..Reached(fate, batch.lines)]);
      } else {
        assert st.file[..batch.next] == st.file[..st.memory] + st.file[st.memory..batch.next];
        LinesAppend(st.file[..st.memory], st.file[st.memory..batch.next]);
        BothGrow(before, st.delivered, batch.lines);
        LogGrows(LinesOf(st.file[..st.disk]), st.delivered, batch.lines);
      }
    }
  }

  lemma AppendKeepsDelivered(st: LogState, bytes: seq<Byte>, offset: nat)
    requires Delivered(st, offset)
    ensures Delivered(st.(file := st.file + bytes), offset)
  {
    assert (st.file + bytes)[..offset] == st.file[..offset];
  }

  /** Over every run on an append-only file with exact lines, with requests and state writes failing
      at will, restarts and re-enrolments, both offsets are line boundaries and every non-blank line
      before them has been delivered, in order. */
  lemma {:induction false} DeliveredAtLeastOnce(events: seq<Event>)
    requires ExactLines(RunOf(events).file)
    ensures var st := RunOf(events); Delivered(st, st.memory) && Delivered(st, st.disk)
  {
    hide Delivered, Shipped, ExactLines;
    if events == [] {
      StartIsDelivered(RunOf(events));
    } else {
      var before, e := RunOf(events[..|events| - 1]), events[|events| - 1];
      FileGrows(before, e);
      assert ExactLines(before.file);
      DeliveredAtLeastOnce(events[..|events| - 1]);
      match e {
        case Append(bytes) =>
          AppendKeepsDelivered(before, bytes, before.memory);
          AppendKeepsDelivered(before, bytes, before.disk);
        case Cycle(fate) => CycleDelivers(before, fate);
        case StateSaved => SameDelivered(before, before.(disk := before.memory), before.memory);
        case Restart => SameDelivered(before, before.(memory := before.disk), before.disk);
        case Reenrol => StartIsDelivered(RunOf(events));
      }
    }
  }

  lemma SameDelivered(a: LogState, b: LogState, offset: nat)
    requires a.file == b.file && a.delivered == b.delivered && Delivered(a, offset)
    ensures Delivered(b, offset)
  {
  }

  lemma FileGrows(before: LogState, e: Event)
    ensures before.file <= Step(before, e).file
    ensures ExactLines(Step(before, e).file) ==> ExactLines(before.file)
  {
    hide ExactLines, Ready;
    var after := Step(before, e).file;
    assert after == before.file + after[|before.file|..];
    if ExactLines(after) { ExactPrefix(before.file, after[|before.file|..]); }
  }

  /** No failure, no re-enrolment. */
  ghost predicate Smooth(events: seq<Event>) {
    forall e :: e in events ==> !e.Reenrol? && (e.Cycle? ==> e.fate.failAt == None && e.fate.stateWritten)
  }

  /** Without failures and re-enrolment every non-blank line before the offset is delivered exactly
      once, restarts included. */
  lemma {:induction false} DeliveredExactlyOnce(events: seq<Event>)
    requires ExactLines(RunOf(events).file) && Smooth(events)
    ensures var st := RunOf(events);
            && st.memory == st.disk && Boundary(st.file, st.memory)
            && st.delivered == LinesOf(st.file[..st.memory])
  {
    hide LinesOf, ExactLines, Ready;
    if events == [] {
      NoLines();
    } else {
      var before, e := RunOf(events[..|events| - 1]), events[|events| - 1];
      FileGrows(before, e);
      DeliveredExactlyOnce(events[..|events| - 1]);
      var st := RunOf(events);
      if e.Cycle? {
        ReadyFromBoundary(before.file, before.memory);
        if Ready(before.file, before.memory).Some? {
          var next := Ready(before.file, before.memory).value.next;
          assert before.file[..next] == before.file[..before.memory] + before.file[before.memory..next];
          LinesAppend(before.file[..before.memory], before.file[before.memory..next]);
        }
      } else {
        assert st.file[..st.memory] == before.file[..before.memory];
      }
    }
  }

  lemma NoLines()
    ensures LinesOf([]) == []
  {
  }

  // ----- progress -----

  /** A cycle without failures advances exactly when its window holds a line end. */
  lemma AdvancesExactly(st: LogState, fate: Fate)
    requires Boundary(st.file, st.memory) && ExactLines(st.file) && fate.failAt == None
    ensures Shipped(st, fate).memory > st.memory <==> NEWLINE_BYTE in Window(st.file, st.memory)
  {
    hide Ready, ExactLines, Window;
    ReadyFromBoundary(st.file, st.memory);
  }

  /** A line starts at o and is ended by the newline at p. */
  ghost predicate LineAt(file: seq<Byte>, o: nat, p: nat) {
    Boundary(file, o) && o <= p < |file| && file[p] == NEWLINE_BYTE && NEWLINE_BYTE !in file[o..p]
  }

  /** Every ended line from the offset on fits the read window, newline included. */
  ghost predicate LinesFit(file: seq<Byte>, from: nat) {
    forall o: nat, p: nat :: LineAt(file, o, p) && from <= o ==> p + 1 - o <= MAX_READ_BYTES
  }

  lemma NextLine(file: seq<Byte>, o: nat) returns (p: nat)
    requires Boundary(file, o) && NEWLINE_BYTE in file[o..]
    ensures LineAt(file, o, p)
  {
    var i := FirstNewlineByte(file[o..]);
    p := o + i;
    assert file[o..p] == file[o..][..i];
    assert forall k :: 0 <= k < |file[o..p]| ==> file[o..p][k] == file[o..][k];
  }

  /** From there on a successful cycle advances exactly when an ended line waits. */
  lemma FittingLinesAdvance(st: LogState, fate: Fate, from: nat)
    requires Boundary(st.file, st.memory) && ExactLines(st.file) && fate.failAt == None
    requires from <= st.memory && LinesFit(st.file, from)
    ensures Shipped(st, fate).memory > st.memory <==> NEWLINE_BYTE in st.file[st.memory..]
  {
    hide ExactLines, Shipped;
    AdvancesExactly(st, fate);
    var w := Window(st.file, st.memory);
    if NEWLINE_BYTE in st.file[st.memory..] {
      var p := NextLine(st.file, st.memory);
      assert w[p - st.memory] == NEWLINE_BYTE;
    } else {
      assert forall i :: 0 <= i < |w| ==> w[i] == st.file[st.memory..][i];
    }
  }

  const SUCCESS: Fate := Fate(None, false, true)

  function Cycles(st: LogState, n: nat): LogState { if n == 0 then st else Shipped(Cycles(st, n - 1), SUCCESS) }

  lemma MoreLines(file: seq<Byte>, from: nat, middle: nat, to: nat)
    requires Boundary(file, from) && Boundary(file, middle) && from <= middle <= to <= |file|
    ensures LinesOf(file[from..to]) == LinesOf(file[from..middle]) + LinesOf(file[middle..to])
  {
    hide LinesOf;
    assert file[from..to] == file[from..middle] + file[middle..to];
    assert middle > from ==> file[from..middle][middle - from - 1] == NEWLINE_BYTE;
    LinesAppend(file[from..middle], file[middle..to]);
  }

  /** Successful cycles deliver exactly the lines they pass. */
  lemma {:induction false} CyclesDeliver(st: LogState, n: nat)
    requires Boundary(st.file, st.memory) && ExactLines(st.file)
    ensures var after := Cycles(st, n);
            && after.file == st.file && Boundary(st.file, after.memory) && st.memory <= after.memory
            && after.delivered == st.delivered + LinesOf(st.file[st.memory..after.memory])
  {
    hide ExactLines, Ready, LinesOf;
    if n == 0 {
      assert st.file[st.memory..st.memory] == [];
      NoLines();
    } else {
      CyclesDeliver(st, n - 1);
      var before := Cycles(st, n - 1);
      ReadyFromBoundary(before.file, before.memory);
      if Ready(before.file, before.memory).Some? {
        MoreLines(st.file, st.memory, before.memory, Ready(before.file, before.memory).value.next);
      }
    }
  }

  lemma {:induction false} CyclesCatchUp(st: LogState, n: nat)
    requires Boundary(st.file, st.memory) && ExactLines(st.file) && LinesFit(st.file, st.memory)
    ensures var m := Cycles(st, n).memory; m <= |st.file| && (NEWLINE_BYTE in st.file[m..] ==> m >= st.memory + n)
  {
    hide ExactLines, LinesFit, Shipped, LinesOf;
    CyclesDeliver(st, n);
    if n > 0 {
      CyclesCatchUp(st, n - 1);
      CyclesDeliver(st, n - 1);
      var before, after := Cycles(st, n - 1), Cycles(st, n);
      FittingLinesAdvance(before, SUCCESS, st.memory);
      NeverBack(before);
      if NEWLINE_BYTE in st.file[after.memory..] {
        assert st.file[after.memory..] == st.file[before.memory..][after.memory - before.memory..];
      }
    }
  }

  lemma NeverBack(st: LogState)
    requires Boundary(st.file, st.memory) && ExactLines(st.file)
    ensures Shipped(st, SUCCESS).memory >= st.memory
  {
    hide ExactLines, Ready;
    ReadyFromBoundary(st.file, st.memory);
  }

  /** A line that does not fit is never passed. */
  lemma {:induction false} NeverPast(st: LogState, n: nat, o: nat, p: nat)
    requires Boundary(st.file, st.memory) && ExactLines(st.file)
    requires LineAt(st.file, o, p) && st.memory <= o && p + 1 - o > MAX_READ_BYTES
    ensures Cycles(st, n).memory <= o
  {
    hide ExactLines, Ready, LinesOf;
    if n > 0 {
      NeverPast(st, n - 1, o, p);
      CyclesDeliver(st, n - 1);
      var before := Cycles(st, n - 1);
      ReadyFromBoundary(before.file, before.memory);
    }
  }

  lemma {:induction false} UnendedHasNoLines(bytes: seq<Byte>)
    requires NEWLINE_BYTE !in bytes
    ensures LinesOf(bytes) == []
  {
    assert FirstNewlineByte(bytes) == |bytes|;
  }

  /** After n successful cycles every ended line of the file is behind the offset, and those that were not
      when the cycles began have been delivered, in order and once. */
  ghost predicate CaughtUp(st: LogState, n: nat) {
    var after := Cycles(st, n);
    && st.memory <= |st.file| && after.memory <= |st.file|
    && NEWLINE_BYTE !in st.file[after.memory..]
    && after.delivered == st.delivered + LinesOf(st.file[st.memory..])
  }

  /** From a line boundary of a file with exact lines, some number of successful cycles ships every line
      that has been ended, exactly when every such line fits the read window. */
  lemma EverythingIsShippedExactly(st: LogState)
    requires Boundary(st.file, st.memory) && ExactLines(st.file)
    ensures (exists n :: CaughtUp(st, n)) <==> LinesFit(st.file, st.memory)
  {
    hide ExactLines, LinesOf, Cycles;
    if LinesFit(st.file, st.memory) {
      var n := |st.file| + 1;
      CyclesDeliver(st, n);
      CyclesCatchUp(st, n);
      var after := Cycles(st, n);
      MoreLines(st.file, st.memory, after.memory, |st.file|);
      assert st.file[after.memory..|st.file|] == st.file[after.memory..]
             && st.file[st.memory..|st.file|] == st.file[st.memory..];
      UnendedHasNoLines(st.file[after.memory..]);
      assert CaughtUp(st, n);
    } else {
      var o: nat, p: nat :| LineAt(st.file, o, p) && st.memory <= o && p + 1 - o > MAX_READ_BYTES;
      forall n ensures !CaughtUp(st, n) {
        NeverPast(st, n, o, p);
        CyclesDeliver(st, n);
        var m := Cycles(st, n).memory;
        assert m <= |st.file| ==> st.file[m..][p - m] == NEWLINE_BYTE;
      }
    }
  }

  // ----- what goes wrong -----

  /** The window is full and holds no line end. */
  ghost predicate Stuck(st: LogState) {
    st.memory == st.disk && st.memory + MAX_READ_BYTES <= |st.file|
    && NEWLINE_BYTE !in st.file[st.memory..st.memory + MAX_READ_BYTES]
  }

  function RunFrom(st: LogState, events: seq<Event>): LogState {
    if events == [] then st else Step(RunFrom(st, events[..|events| - 1]), events[|events| - 1])
  }

  lemma StuckCycle(st: LogState, fate: Fate)
    requires Stuck(st)
    ensures Shipped(st, fate) == st
  {
    hide Ready, Decode, Encode, LinesOf;
    var p := ReadyIs(st.file, st.memory);
    assert Window(st.file, st.memory) == st.file[st.memory..st.memory + MAX_READ_BYTES];
  }

  lemma StuckAppend(st: LogState, bytes: seq<Byte>)
    requires Stuck(st)
    ensures Stuck(st.(file := st.file + bytes))
  {
    assert (st.file + bytes)[st.memory..st.memory + MAX_READ_BYTES] == st.file[st.memory..st.memory + MAX_READ_BYTES];
  }

  /** A line longer than the window stops shipping for good: whatever is appended, however often the
      agent tries or restarts, nothing is delivered any more. */
  lemma {:induction false} LongLineSticks(st: LogState, events: seq<Event>)
    requires Stuck(st) && forall e :: e in events ==> !e.Reenrol?
    ensures var after := RunFrom(st, events);
            Stuck(after) && after.memory == st.memory && after.delivered == st.delivered
  {
    hide Shipped;
    if events != [] {
      var before, e := RunFrom(st, events[..|events| - 1]), events[|events| - 1];
      LongLineSticks(st, events[..|events| - 1]);
      assert e in events;
      match e {
        case Cycle(fate) => StuckCycle(before, fate);
        case Append(bytes) => StuckAppend(before, bytes);
        case StateSaved =>
        case Restart =>
        case Reenrol =>
      }
    }
  }

  /** The offset after a successful cycle is the line end exactly when the bytes shipped have no
      ill-formed piece of fewer than three bytes, and beyond it otherwise. */
  lemma OffsetIsBoundaryExactly(file: seq<Byte>, offset: nat) returns (p: int)
    requires Ready(file, offset).Some?
    ensures var start := StartOf(file, offset);
            && 0 <= p < |Window(file, start)| && Window(file, start)[p] == NEWLINE_BYTE
            && NEWLINE_BYTE !in Window(file, start)[p + 1..]
            && Ready(file, offset).value.next >= start + p + 1
            && (Ready(file, offset).value.next == start + p + 1 <==> !HasShortPiece(Window(file, start)[..p]))
  {
    hide Ready, Decode, Encode, HasShortPiece, Window;
    p := ReadyIs(file, offset);
    ExactExactly(Window(file, StartOf(file, offset))[..p]);
  }

  /** One stray byte is enough: the offset lands beyond the end of the file, which the next cycle
      takes for a rotation, so it ships the same lines again. */
  lemma StrayByteShipsTwice(fate: Fate)
    requires fate.failAt == None
    ensures var file := [0xFF, NEWLINE_BYTE, 0x61, NEWLINE_BYTE];
            var once := Shipped(LogState(file, 0, 0, []), fate);
            once.delivered == [[REPLACEMENT], [0x61]]
              && Shipped(once, fate).delivered == once.delivered + once.delivered
  {
    var file := [0xFF, NEWLINE_BYTE, 0x61, NEWLINE_BYTE];
    assert Window(file, 0) == file;
    var text := Decode(file);
    DecodeStray();
    assert text[..3] == [REPLACEMENT, NEWLINE, 0x61];
    EncodeStray();
    SplitStray();
    assert Ready(file, 0) == Some(Batch([[REPLACEMENT], [0x61]], 6));
    assert Ready(file, 6) == Ready(file, 0);
  }

  lemma DecodeStray()
    ensures Decode([0xFF, NEWLINE_BYTE, 0x61, NEWLINE_BYTE]) == [REPLACEMENT, NEWLINE, 0x61, NEWLINE]
    ensures LastNewline([REPLACEMENT, NEWLINE, 0x61, NEWLINE]) == 3
  {
    DecodeSplitsAtNewline([0xFF], [0x61, NEWLINE_BYTE]);
    DecodeSplitsAtNewline([0x61], []);
    assert [0xFF] + [NEWLINE_BYTE] + [0x61, NEWLINE_BYTE] == [0xFF, NEWLINE_BYTE, 0x61, NEWLINE_BYTE];
    assert [0x61] + [NEWLINE_BYTE] + [] == [0x61, NEWLINE_BYTE];
    assert Decode([0xFF]) == [REPLACEMENT] && Decode([0x61]) == [0x61] && Decode([]) == [];
  }

  lemma EncodeStray()
    ensures |Encode([REPLACEMENT, NEWLINE, 0x61])| == 5
  {
    EncodeAppend([REPLACEMENT], [NEWLINE, 0x61]);
    EncodeAppend([NEWLINE], [0x61]);
    assert [REPLACEMENT] + [NEWLINE, 0x61] == [REPLACEMENT, NEWLINE, 0x61] && [NEWLINE] + [0x61] == [NEWLINE, 0x61];
    assert [REPLACEMENT][1..] == [] && [NEWLINE][1..] == [] && [0x61][1..] == [];
  }

  lemma SplitStray()
    ensures KeepLines(SplitLines([REPLACEMENT, NEWLINE, 0x61])) == [[REPLACEMENT], [0x61]]
  {
    SplitStrayText();
    KeepStray();
    hide SplitLines, KeepLines;
  }

  lemma SplitStrayText()
    ensures SplitLines([REPLACEMENT, NEWLINE, 0x61]) == [[REPLACEMENT], [0x61]]
  {
    var text := [REPLACEMENT, NEWLINE, 0x61];
    assert FirstNewline(text) == 1 && text[..1] == [REPLACEMENT] && text[2..] == [0x61];
    assert FirstNewline([0x61]) == 1 && SplitLines([0x61]) == [[0x61]];
    hide FirstNewline;
    assert SplitLines(text) == [[REPLACEMENT]] + [[0x61]];
  }

  lemma KeepStray()
    ensures KeepLines([[REPLACEMENT], [0x61]]) == [[REPLACEMENT], [0x61]]
  {
    var first: Line, second: Line := [REPLACEMENT], [0x61];
    assert first[0] in first && second[0] in second;
    assert !IsBlankLine(first) && !IsBlankLine(second);
    hide IsBlankLine;
    assert [second][1..] == [] && [first, second][1..] == [second];
    assert KeepLines([second]) == [second] + KeepLines([]) == [second];
    assert KeepLines([first, second]) == [first] + KeepLines([second]);
  }
}
