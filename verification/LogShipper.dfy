/** Shipping of access log lines by the node agent (apps/agent/src/index.ts, shipLogs): a byte offset
    into a growing file, a bounded read window, requests of bounded size that may fail, and an
    offset that is kept in memory and in the state file. */
module LogShipper {
  import opened Text
  import opened Utf8

  const MAX_READ_BYTES: nat := 512 * 1024
  const MAX_LINES_PER_REQUEST: nat := 500

  type Line = seq<CodePoint>

  function Min(a: nat, b: nat): nat { if a < b then a else b }

  // ----- text -----

  predicate IsWhite(c: CodePoint) {
    c in {9, 10, 11, 12, 13, 32, 0xA0, 0x1680, 0x2028, 0x2029, 0x202F, 0x205F, 0x3000, 0xFEFF} || 0x2000 <= c <= 0x200A
  }

  predicate IsBlankLine(line: Line) { forall c :: c in line ==> IsWhite(c) }

  function FirstNewline(text: seq<CodePoint>): (i: nat)
    ensures i <= |text|
    ensures i < |text| ==> text[i] == NEWLINE
    ensures forall k :: 0 <= k < i ==> text[k] != NEWLINE
  {
    if text == [] || text[0] == NEWLINE then 0 else 1 + FirstNewline(text[1..])
  }

  function LastNewline(text: seq<CodePoint>): (i: int)
    ensures -1 <= i < |text|
    ensures i >= 0 ==> text[i] == NEWLINE
    ensures forall k :: i < k < |text| ==> text[k] != NEWLINE
  {
    if text == [] then -1
    else if text[|text| - 1] == NEWLINE then |text| - 1
    else LastNewline(text[..|text| - 1])
  }

  function SplitLines(text: seq<CodePoint>): seq<Line>
    decreases |text|
  {
    var i := FirstNewline(text);
    if i == |text| then [text] else [text[..i]] + SplitLines(text[i + 1..])
  }

  function KeepLines(lines: seq<Line>): seq<Line> {
    if lines == [] then [] else (if IsBlankLine(lines[0]) then [] else [lines[0]]) + KeepLines(lines[1..])
  }

  // ----- one cycle -----

  /** What happens to a cycle: the request that fails, whether the server took it all the same, and
      whether the state file could be written. */
  datatype Fate = Fate(failAt: Option<nat>, landed: bool, stateWritten: bool)

  datatype Batch = Batch(lines: seq<Line>, next: nat)

  /** A file shorter than the offset was rotated. */
  function StartOf(file: seq<Byte>, offset: nat): (start: nat)
    ensures start <= |file|
  {
    if |file| < offset then 0 else offset
  }

  function Window(file: seq<Byte>, start: nat): seq<Byte>
    requires start <= |file|
  {
    file[start..start + Min(|file| - start, MAX_READ_BYTES)]
  }

  /** The lines a cycle would ship and the offset it would move to. */
  function Ready(file: seq<Byte>, offset: nat): Option<Batch> {
    var start := StartOf(file, offset);
    var text := Decode(Window(file, start));
    var last := LastNewline(text);
    if last == -1 then None
    else Some(Batch(KeepLines(SplitLines(text[..last])), start + |Encode(text[..last])| + 1))
  }

  datatype LogState = LogState(file: seq<Byte>, memory: nat, disk: nat, delivered: seq<Line>)

  predicate Fails(fate: Fate, lines: seq<Line>) {
    fate.failAt.Some? && fate.failAt.value * MAX_LINES_PER_REQUEST < |lines|
  }

  /** How many lines reach the server when a request fails. */
  function Reached(fate: Fate, lines: seq<Line>): (n: nat)
    requires Fails(fate, lines)
    ensures n <= |lines|
  {
    var sent := fate.failAt.value * MAX_LINES_PER_REQUEST;
    if fate.landed then Min(|lines|, sent + MAX_LINES_PER_REQUEST) else sent
  }

  function Shipped(st: LogState, fate: Fate): LogState {
    match Ready(st.file, st.memory)
    case None => st
    case Some(batch) =>
      if Fails(fate, batch.lines) then st.(delivered := st.delivered + batch.lines[..Reached(fate, batch.lines)])
      else LogState(st.file, batch.next, if fate.stateWritten then batch.next else st.disk, st.delivered + batch.lines)
  }

  /** The failing request is one of those already made. */
  predicate Passed(fate: Fate, index: nat, lines: seq<Line>) {
    fate.failAt.Some? && fate.failAt.value < index && fate.failAt.value * MAX_LINES_PER_REQUEST < |lines|
  }

  class LogAgent {
    var memory: nat
    var disk: nat
    var delivered: seq<Line>

    /** The offset starts at what the state file holds. */
    constructor (stored: nat)
      ensures memory == disk == stored && delivered == []
    {
      memory, disk, delivered := stored, stored, [];
    }

    method ShipLogs(file: seq<Byte>, fate: Fate)
      modifies this
      ensures LogState(file, memory, disk, delivered)
           == Shipped(LogState(file, old(memory), old(disk), old(delivered)), fate)
    {
      hide Decode, Encode, KeepLines, SplitLines, LastNewline;
      var offset := memory;
      if |file| < offset { offset := 0; }
      if |file| == offset { EmptyWindow(file, offset); return; }
      var length := Min(|file| - offset, MAX_READ_BYTES);
      var text := Decode(file[offset..offset + length]);
      var last := LastNewline(text);
      if last == -1 { return; }
      var complete := text[..last];
      var lines := KeepLines(SplitLines(complete));
      var index := 0;
      while index * MAX_LINES_PER_REQUEST < |lines|
        invariant !Passed(fate, index, lines)
        invariant delivered == old(delivered) + lines[..Min(|lines|, index * MAX_LINES_PER_REQUEST)]
        invariant memory == old(memory) && disk == old(disk)
        decreases |lines| - index * MAX_LINES_PER_REQUEST
      {
        var from := index * MAX_LINES_PER_REQUEST;
        var to := Min(|lines|, from + MAX_LINES_PER_REQUEST);
        var chunk := lines[from..to];
        assert lines[..from] + chunk == lines[..to];
        if fate.failAt == Some(index) {
          if fate.landed { delivered := delivered + chunk; }
          assert Fails(fate, lines);
          return;
        }
        delivered := delivered + chunk;
        index := index + 1;
      }
      assert !Fails(fate, lines);
      assert lines[..|lines|] == lines;
      memory := offset + |Encode(complete)| + 1;
      if fate.stateWritten { disk := memory; }
    }
  }

  lemma EmptyWindow(file: seq<Byte>, offset: nat)
    requires StartOf(file, offset) == |file|
    ensures Ready(file, offset) == None
  {
    assert Window(file, |file|) == [];
  }
}
