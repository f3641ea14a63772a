/** Which lines reach the server, stated without the agent's own splitting and filtering: the visible lines as
    they were written, again after a failure, and from the start after a rotation. */
module ShippedLines {
  import opened Text
  import opened Utf8
  import opened LogShipper
  import opened LogDelivery

  // ----- the lines worth delivering -----

  predicate Visible(line: Line) { exists c :: c in line && !IsWhite(c) }

  function Count<T(==)>(items: seq<T>, x: T): nat {
    if items == [] then 0 else (if items[0] == x then 1 else 0) + Count(items[1..], x)
  }

  /** Visible lines are kept as often as they occur, the others not at all. */
  lemma {:induction false} KeptExactly(lines: seq<Line>, line: Line)
    ensures Count(KeepLines(lines), line) == if Visible(line) then Count(lines, line) else 0
  {
    if lines != [] {
      KeptExactly(lines[1..], line);
      assert IsBlankLine(lines[0]) <==> !Visible(lines[0]);
      hide IsBlankLine, Visible;
      if IsBlankLine(lines[0]) {
        assert KeepLines(lines) == KeepLines(lines[1..]);
      } else {
        assert KeepLines(lines)[1..] == KeepLines(lines[1..]);
      }
    }
  }

  lemma OneMore(kept: seq<Line>, lines: seq<Line>, first: Line, keep: bool)
    requires InOrderIn(kept, lines)
    ensures InOrderIn((if keep then [first] else []) + kept, [first] + lines)
  {
    var at :| OccursAt(kept, lines, at);
    var moved := (if keep then [0] else []) + seq(|at|, i requires 0 <= i < |at| => at[i] + 1);
    assert OccursAt((if keep then [first] else []) + kept, [first] + lines, moved);
  }

  /** Kept lines stay in their order. */
  lemma {:induction false} KeptInOrder(lines: seq<Line>)
    ensures InOrderIn(KeepLines(lines), lines)
  {
    hide IsBlankLine, InOrderIn;
    if lines == [] {
      NothingIsInOrder(lines);
    } else {
      KeptInOrder(lines[1..]);
      OneMore(KeepLines(lines[1..]), lines[1..], lines[0], !IsBlankLine(lines[0]));
      assert [lines[0]] + lines[1..] == lines;
    }
  }

  // ----- the lines of a written file -----

  /** Text without line ends that can be encoded. */
  predicate Plain(line: Line) { forall c :: c in line ==> IsScalar(c) && c != NEWLINE }

  predicate AllPlain(lines: seq<Line>) { forall line :: line in lines ==> Plain(line) }

  /** Each line, encoded, with its line end. */
  function WrittenFile(lines: seq<Line>): seq<Byte> {
    if lines == [] then [] else Encode(lines[0]) + [NEWLINE_BYTE] + WrittenFile(lines[1..])
  }

  function TextOf(lines: seq<Line>): seq<CodePoint> {
    if lines == [] then [] else lines[0] + [NEWLINE] + TextOf(lines[1..])
  }

  lemma {:induction false} WrittenIsEncoded(lines: seq<Line>)
    requires AllPlain(lines)
    ensures WrittenFile(lines) == Encode(TextOf(lines)) && forall c :: c in TextOf(lines) ==> IsScalar(c)
  {
    hide IsScalar;
    if lines != [] {
      WrittenIsEncoded(lines[1..]);
      assert lines[0] in lines;
      NewlineIsOneByte();
      hide Encode, TextOf;
      EncodeAppend(lines[0] + [NEWLINE], TextOf(lines[1..]));
      EncodeAppend(lines[0], [NEWLINE]);
      TextStep(lines);
    } else {
      EmptyText();
    }
  }

  lemma EmptyText()
    ensures TextOf([]) == [] && Encode([]) == []
  {
  }

  lemma TextStep(lines: seq<Line>)
    requires lines != []
    ensures TextOf(lines) == lines[0] + [NEWLINE] + TextOf(lines[1..])
  {
  }

  lemma NewlineIsOneByte()
    ensures Encode([NEWLINE]) == [NEWLINE_BYTE] && IsScalar(NEWLINE)
  {
    assert [NEWLINE][1..] == [];
  }

  lemma {:induction false} EncodedHasNoNewline(line: Line)
    requires Plain(line)
    ensures NEWLINE_BYTE !in Encode(line)
  {
    hide EncodeOne, IsScalar;
    if line != [] {
      assert line[0] in line;
      OneCodePointPerNewline(line[0]);
      EncodedHasNoNewline(line[1..]);
    }
  }

  /** The agent finds the lines of a file as they were written, and the file has exact lines. */
  lemma {:induction false} WrittenIsRead(lines: seq<Line>)
    requires AllPlain(lines)
    ensures CompleteLines(WrittenFile(lines)) == lines && ExactLines(WrittenFile(lines))
  {
    WrittenIsEncoded(lines);
    ValidFileIsExact(TextOf(lines), WrittenFile(lines));
    hide Encode, Decode, ExactLines, TextOf, IsScalar, CompleteLines;
    if lines == [] {
      NoCompleteLines();
    } else {
      assert lines[0] in lines;
      WrittenIsRead(lines[1..]);
      EncodedHasNoNewline(lines[0]);
      CompleteCons(Encode(lines[0]), WrittenFile(lines[1..]));
      DecodeEncode(lines[0]);
    }
  }

  lemma {:induction false} WrittenEnds(lines: seq<Line>)
    ensures Boundary(WrittenFile(lines), |WrittenFile(lines)|)
  {
    hide Encode;
    if lines != [] { WrittenEnds(lines[1..]); }
  }

  // ----- all of them arrive -----

  lemma ShiftedLine(head: seq<Byte>, rest: seq<Byte>, o: nat, p: nat)
    requires NEWLINE_BYTE !in head
    ensures var file := head + [NEWLINE_BYTE] + rest;
            LineAt(file, o, p) <==> (o == 0 && p == |head|)
                                    || (o > |head| && p > |head| && LineAt(rest, o - |head| - 1, p - |head| - 1))
  {
    var file := head + [NEWLINE_BYTE] + rest;
    var n := |head| + 1;
    assert file[|head|] == NEWLINE_BYTE && file[..|head|] == head && file[0..|head|] == head;
    assert forall i :: 0 <= i < |head| ==> file[i] == head[i];
    assert forall i :: 0 <= i < |rest| ==> file[i + n] == rest[i];
    if o <= |head| < p < |file| { assert file[o..p][|head| - o] == NEWLINE_BYTE; }
    if n <= o <= p <= |file| { assert file[o..p] == rest[o - n..p - n]; }
  }

  predicate AllShort(lines: seq<Line>) { forall line :: line in lines ==> |Encode(line)| + 1 <= 524288 }

  /** The ended lines of a written file fit the read window exactly when each of them is short. */
  lemma {:induction false} LinesFitExactly(lines: seq<Line>)
    requires AllPlain(lines)
    ensures LinesFit(WrittenFile(lines), 0) <==> AllShort(lines)
  {
    if lines == [] {
      assert WrittenFile(lines) == [];
    } else {
      assert lines[0] in lines && forall line :: line in lines <==> line == lines[0] || line in lines[1..];
      LinesFitExactly(lines[1..]);
      EncodedHasNoNewline(lines[0]);
      hide Encode, LineAt, Plain;
      var head, rest := Encode(lines[0]), WrittenFile(lines[1..]);
      var file, n := WrittenFile(lines), |head| + 1;
      forall o: nat, p: nat
        ensures LineAt(file, o, p) <==> (o == 0 && p == |head|) || (o >= n && p >= n && LineAt(rest, o - n, p - n))
      {
        ShiftedLine(head, rest, o, p);
      }
      if LinesFit(file, 0) {
        assert LineAt(file, 0, |head|);
        forall o: nat, p: nat | LineAt(rest, o, p) ensures p + 1 - o <= MAX_READ_BYTES {
          assert LineAt(file, o + n, p + n);
        }
      }
    }
  }

  /** Successful cycles ship a file as it was written exactly when each of its lines, with its line end, fits the
      read window: the visible lines arrive, in order and once. */
  lemma WrittenLinesArriveExactly(lines: seq<Line>)
    requires AllPlain(lines)
    ensures AllShort(lines) <==> exists n :: CaughtUp(LogState(WrittenFile(lines), 0, 0, []), n)
    ensures forall n :: CaughtUp(LogState(WrittenFile(lines), 0, 0, []), n)
                        ==> Cycles(LogState(WrittenFile(lines), 0, 0, []), n).delivered == KeepLines(lines)
  {
    var file := WrittenFile(lines);
    var st := LogState(file, 0, 0, []);
    WrittenIsRead(lines);
    LinesFitExactly(lines);
    assert file[0..] == file && Boundary(file, 0);
    hide Cycles, AllShort, LinesFit, ExactLines, WrittenFile, CompleteLines, Boundary;
    EverythingIsShippedExactly(st);
  }

  /** Whatever the cycles, appends and restarts, a run without failures that has reached the end of a written file
      has delivered exactly its visible lines. */
  lemma SmoothRunsDeliverTheFile(events: seq<Event>, lines: seq<Line>)
    requires AllPlain(lines) && Smooth(events)
    requires RunOf(events).file == WrittenFile(lines) && RunOf(events).memory == |WrittenFile(lines)|
    ensures RunOf(events).delivered == KeepLines(lines)
  {
    WrittenIsRead(lines);
    hide RunOf, Smooth, ExactLines, WrittenFile, CompleteLines;
    DeliveredExactlyOnce(events);
    assert WrittenFile(lines)[..|WrittenFile(lines)|] == WrittenFile(lines);
  }

  // ----- failures -----

  /** A failed cycle leaves both offsets; full requests before the failing one arrived, and the failing one itself
      if the server took it all the same. The next successful cycle ships the whole batch again. */
  lemma RetryShipsTheBatchAgain(st: LogState, fate: Fate, retry: Fate, k: nat)
    requires Ready(st.file, st.memory).Some? && fate.failAt == Some(k) && retry.failAt == None
    requires k * 500 < |Ready(st.file, st.memory).value.lines|
    ensures var lines, failed := Ready(st.file, st.memory).value.lines, Shipped(st, fate);
            && failed.memory == st.memory && failed.disk == st.disk
            && (!fate.landed ==> failed.delivered == st.delivered + lines[..k * 500])
            && (fate.landed && (k + 1) * 500 <= |lines| ==> failed.delivered == st.delivered + lines[..(k + 1) * 500])
            && (fate.landed && (k + 1) * 500 > |lines| ==> failed.delivered == st.delivered + lines)
            && Shipped(failed, retry).delivered == failed.delivered + lines
            && Shipped(failed, retry).memory == Shipped(st, retry).memory > 0
  {
    hide Ready;
    var lines := Ready(st.file, st.memory).value.lines;
    assert lines[..|lines|] == lines;
    MovesPastLineEnd(st.file, st.memory);
  }

  lemma MovesPastLineEnd(file: seq<Byte>, offset: nat)
    requires Ready(file, offset).Some?
    ensures Ready(file, offset).value.next > 0
  {
    hide Decode, Encode, KeepLines, SplitLines, Window;
  }

  // ----- rotation -----

  lemma SmallerStartsOver(file: seq<Byte>, offset: nat)
    requires |file| < offset
    ensures Ready(file, offset) == Ready(file, 0)
  {
    hide Decode, Encode, KeepLines, SplitLines, Window, LastNewline;
  }

  /** When the file became shorter than the offset, the cycles ship the new file from its start. */
  lemma {:induction false} RotationStartsOver(st: LogState, n: nat)
    requires |st.file| < st.memory
    ensures Cycles(st, n).file == st.file && Cycles(st, n).delivered == Cycles(st.(memory := 0), n).delivered
    ensures Cycles(st, n).memory == Cycles(st.(memory := 0), n).memory
            || (Cycles(st, n).memory == st.memory && Cycles(st.(memory := 0), n).memory == 0)
    ensures Cycles(st.(memory := 0), n).file == st.file
  {
    hide Ready;
    if n > 0 {
      RotationStartsOver(st, n - 1);
      SmallerStartsOver(st.file, st.memory);
    }
  }

  lemma {:induction false} LongerIsEnough<T>(a: seq<T>, b: seq<T>, c: seq<T>)
    requires a != []
    ensures c + b != c + (a + b)
  {
    assert |c + (a + b)| == |c| + |a| + |b|;
  }

  /** When the new file is already at least as long as the offset, and the offset is a line end of it, the lines
      before the offset are never shipped: all lines of the new file arrive exactly when those were all blank. */
  lemma RotationIsMissedExactly(st: LogState, n: nat)
    requires Boundary(st.file, st.memory) && ExactLines(st.file)
    ensures var after := Cycles(st, n);
            && after.memory <= |st.file|
            && (after.delivered == st.delivered + LinesOf(st.file[..after.memory])
                <==> LinesOf(st.file[..st.memory]) == [])
  {
    hide LinesOf, ExactLines, Cycles;
    CyclesDeliver(st, n);
    var m := Cycles(st, n).memory;
    MoreLines(st.file, 0, st.memory, m);
    assert st.file[0..m] == st.file[..m] && st.file[0..st.memory] == st.file[..st.memory];
    var skipped, shipped := LinesOf(st.file[..st.memory]), LinesOf(st.file[st.memory..m]);
    if skipped != [] { LongerIsEnough(skipped, shipped, st.delivered); } else { assert [] + shipped == shipped; }
  }
}
