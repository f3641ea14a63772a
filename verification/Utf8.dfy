/** UTF-8 as the agent's runtime decodes and encodes it: text is a sequence of code points, and
    every ill-formed piece of the input (a maximal subpart of one to three bytes) becomes one
    replacement character. */
module Utf8 {

  newtype Byte = b: int | 0 <= b < 256

  type CodePoint = c: int | 0 <= c < 0x110000

  const REPLACEMENT: CodePoint := 0xFFFD
  const NEWLINE_BYTE: Byte := 10
  const NEWLINE: CodePoint := 10

  /** Code points that text can contain: surrogates cannot be encoded. */
  predicate IsScalar(c: CodePoint) { !(0xD800 <= c < 0xE000) }

  function EncodeOne(c: CodePoint): (r: seq<Byte>)
    ensures 1 <= |r| <= 4
  {
    if c < 0x80 then [c as Byte]
    else if c < 0x800 then [(0xC0 + c / 0x40) as Byte, (0x80 + c % 0x40) as Byte]
    else if c < 0x10000 then
      [(0xE0 + c / 0x1000) as Byte, (0x80 + c / 0x40 % 0x40) as Byte, (0x80 + c % 0x40) as Byte]
    else
      [(0xF0 + c / 0x40000) as Byte, (0x80 + c / 0x1000 % 0x40) as Byte,
       (0x80 + c / 0x40 % 0x40) as Byte, (0x80 + c % 0x40) as Byte]
  }

  function Encode(text: seq<CodePoint>): seq<Byte> {
    if text == [] then [] else EncodeOne(text[0]) + Encode(text[1..])
  }

  /** Length of the sequence a lead byte announces, or 0 for a byte that leads none. */
  function Announced(lead: Byte): nat {
    if lead < 0x80 then 1
    else if 0xC2 <= lead < 0xE0 then 2
    else if 0xE0 <= lead < 0xF0 then 3
    else if 0xF0 <= lead < 0xF5 then 4
    else 0
  }

  predicate IsContinuation(b: Byte) { 0x80 <= b < 0xC0 }

  /** The second byte excludes overlong forms, surrogates and values beyond the last plane. */
  predicate IsSecond(lead: Byte, b: Byte) {
    && IsContinuation(b)
    && (lead == 0xE0 ==> b >= 0xA0)
    && (lead == 0xED ==> b < 0xA0)
    && (lead == 0xF0 ==> b >= 0x90)
    && (lead == 0xF4 ==> b < 0x90)
  }

  /** How many bytes at the front fit together, starting with a lead byte. */
  function Fitting(bytes: seq<Byte>): (n: nat)
    requires bytes != []
    ensures n <= |bytes| && n <= Announced(bytes[0])
    ensures Announced(bytes[0]) > 0 ==> n >= 1
  {
    var want := Announced(bytes[0]);
    if want <= 1 then want
    else if |bytes| < 2 || !IsSecond(bytes[0], bytes[1]) then 1
    else if want == 2 then 2
    else if |bytes| < 3 || !IsContinuation(bytes[2]) then 2
    else if want == 3 then 3
    else if |bytes| < 4 || !IsContinuation(bytes[3]) then 3
    else 4
  }

  function Low(b: Byte): int { b as int - 0x80 }

  datatype Piece = Piece(point: CodePoint, length: nat)

  /** The first code point of the input and the bytes it takes. */
  function DecodeOne(bytes: seq<Byte>): (p: Piece)
    requires bytes != []
    ensures 1 <= p.length <= |bytes| && p.length <= 4
  {
    var n, lead := Fitting(bytes), bytes[0] as int;
    if n == 0 then Piece(REPLACEMENT, 1)
    else if n < Announced(bytes[0]) then Piece(REPLACEMENT, n)
    else if n == 1 then Piece(lead, 1)
    else if n == 2 then Piece((lead - 0xC0) * 0x40 + Low(bytes[1]), 2)
    else if n == 3 then Piece((lead - 0xE0) * 0x1000 + Low(bytes[1]) * 0x40 + Low(bytes[2]), 3)
    else Piece((lead - 0xF0) * 0x40000 + Low(bytes[1]) * 0x1000 + Low(bytes[2]) * 0x40 + Low(bytes[3]), 4)
  }

  function Decode(bytes: seq<Byte>): seq<CodePoint>
    decreases |bytes|
  {
    if bytes == [] then [] else
      var p := DecodeOne(bytes);
      [p.point] + Decode(bytes[p.length..])
  }

  // ----- decoding undoes encoding -----

  lemma DigitsBelow(c: int)
    requires 0 <= c < 0x110000
    ensures c / 0x40 == (c / 0x1000) * 0x40 + c / 0x40 % 0x40
    ensures c / 0x1000 == (c / 0x40000) * 0x40 + c / 0x1000 % 0x40
    ensures c == (c / 0x40) * 0x40 + c % 0x40
  {
    assert c / 0x40 / 0x40 == c / 0x1000;
    assert c / 0x1000 / 0x40 == c / 0x40000;
  }

  lemma FittingEncoded(c: CodePoint, rest: seq<Byte>)
    requires IsScalar(c)
    ensures Fitting(EncodeOne(c) + rest) == |EncodeOne(c)| == Announced((EncodeOne(c) + rest)[0])
  {
    var e := EncodeOne(c);
    assert forall i :: 0 <= i < |e| ==> (e + rest)[i] == e[i];
    DigitsBelow(c);
  }

  lemma DecodeEncodedOne(c: CodePoint, rest: seq<Byte>)
    requires IsScalar(c)
    ensures DecodeOne(EncodeOne(c) + rest) == Piece(c, |EncodeOne(c)|)
  {
    var e := EncodeOne(c);
    assert forall i :: 0 <= i < |e| ==> (e + rest)[i] == e[i];
    FittingEncoded(c, rest);
    DigitsBelow(c);
    hide Fitting;
  }

  // ----- ill-formed bytes -----

  /** The first n bytes begin the encoding of some code point. */
  ghost predicate BeginsCharacter(bytes: seq<Byte>, n: nat)
    requires n <= |bytes|
  {
    exists c :: IsScalar(c) && bytes[..n] <= EncodeOne(c)
  }

  /** A code point whose encoding begins with the bytes that fit: the missing ones are the least that may follow. */
  function Completed(bytes: seq<Byte>): int
    requires bytes != [] && Fitting(bytes) > 0
  {
    var n, lead := Fitting(bytes), bytes[0] as int;
    var second := if n > 1 then Low(bytes[1]) else if lead == 0xE0 then 0x20 else if lead == 0xF0 then 0x10 else 0;
    var third := if n > 2 then Low(bytes[2]) else 0;
    if lead < 0x80 then lead
    else if lead < 0xE0 then (lead - 0xC0) * 0x40 + second
    else if lead < 0xF0 then (lead - 0xE0) * 0x1000 + second * 0x40 + third
    else (lead - 0xF0) * 0x40000 + second * 0x1000 + third * 0x40 + if n > 3 then Low(bytes[3]) else 0
  }

  lemma DigitsOf(a: int, b: int, c: int, d: int)
    requires 0 <= b < 0x40 && 0 <= c < 0x40 && 0 <= d < 0x40
    ensures var v := a * 0x40000 + b * 0x1000 + c * 0x40 + d;
            v / 0x40000 == a && v / 0x1000 % 0x40 == b && v / 0x40 % 0x40 == c && v % 0x40 == d
  {
    assert (a * 0x40000 + b * 0x1000 + c * 0x40 + d) / 0x40 == a * 0x1000 + b * 0x40 + c;
    assert (a * 0x40000 + b * 0x1000 + c * 0x40 + d) / 0x1000 == a * 0x40 + b;
  }

  lemma CompletedTwo(bytes: seq<Byte>)
    requires bytes != [] && Fitting(bytes) > 0 && Announced(bytes[0]) <= 2
    ensures 0 <= Completed(bytes) < 0x110000 && IsScalar(Completed(bytes))
    ensures bytes[..Fitting(bytes)] <= EncodeOne(Completed(bytes))
  {
    var n, e := Fitting(bytes), EncodeOne(Completed(bytes));
    assert forall i :: 0 <= i < n ==> e[i] == bytes[i];
  }

  lemma CompletedThree(bytes: seq<Byte>)
    requires bytes != [] && Announced(bytes[0]) == 3
    ensures 0 <= Completed(bytes) < 0x110000 && IsScalar(Completed(bytes))
    ensures bytes[..Fitting(bytes)] <= EncodeOne(Completed(bytes))
  {
    var n, lead := Fitting(bytes), bytes[0] as int;
    var second := if n > 1 then Low(bytes[1]) else if lead == 0xE0 then 0x20 else 0;
    var third := if n > 2 then Low(bytes[2]) else 0;
    var c := (lead - 0xE0) * 0x1000 + second * 0x40 + third;
    assert 0 <= second < 0x40 && 0 <= third < 0x40
           && (lead == 0xE0 ==> second >= 0x20) && (lead == 0xED ==> second < 0x20);
    assert Completed(bytes) == c;
    DigitsOf(0, lead - 0xE0, second, third);
    hide Fitting, Completed;
    assert 0x800 <= c < 0x10000 && IsScalar(c);
    assert c / 0x1000 == lead - 0xE0;
    var e := EncodeOne(c);
    assert e[0] == bytes[0] && e[1] as int == 0x80 + second && e[2] as int == 0x80 + third;
    assert forall i :: 0 <= i < n ==> e[i] == bytes[i];
  }

  lemma CompletedFour(bytes: seq<Byte>)
    requires bytes != [] && Announced(bytes[0]) == 4
    ensures 0 <= Completed(bytes) < 0x110000 && IsScalar(Completed(bytes))
    ensures bytes[..Fitting(bytes)] <= EncodeOne(Completed(bytes))
  {
    var n, lead := Fitting(bytes), bytes[0] as int;
    var second := if n > 1 then Low(bytes[1]) else if lead == 0xF0 then 0x10 else 0;
    var third := if n > 2 then Low(bytes[2]) else 0;
    var fourth := if n > 3 then Low(bytes[3]) else 0;
    var c := (lead - 0xF0) * 0x40000 + second * 0x1000 + third * 0x40 + fourth;
    assert 0 <= second < 0x40 && 0 <= third < 0x40 && 0 <= fourth < 0x40;
    assert (lead == 0xF0 ==> second >= 0x10) && (lead == 0xF4 ==> second < 0x10);
    assert Completed(bytes) == c;
    DigitsOf(lead - 0xF0, second, third, fourth);
    hide Fitting, Completed;
    assert 0x10000 <= c < 0x110000;
    var e := EncodeOne(c);
    assert e[0] == bytes[0] && e[1] as int == 0x80 + second
           && e[2] as int == 0x80 + third && e[3] as int == 0x80 + fourth;
    assert forall i :: 0 <= i < n ==> e[i] == bytes[i];
  }

  lemma CompletedBegins(bytes: seq<Byte>)
    requires bytes != [] && Fitting(bytes) > 0
    ensures 0 <= Completed(bytes) < 0x110000 && IsScalar(Completed(bytes))
    ensures bytes[..Fitting(bytes)] <= EncodeOne(Completed(bytes))
  {
    var announced := Announced(bytes[0]);
    assert announced <= 4;
    hide Fitting, Completed, EncodeOne, Announced;
    if announced <= 2 {
      CompletedTwo(bytes);
    } else if announced == 3 {
      CompletedThree(bytes);
    } else {
      CompletedFour(bytes);
    }
  }

  lemma NothingLongerBegins(bytes: seq<Byte>, k: nat, c: CodePoint)
    requires bytes != [] && Fitting(bytes) < k <= |bytes| && IsScalar(c)
    ensures !(bytes[..k] <= EncodeOne(c))
  {
    var e := EncodeOne(c);
    FittingEncoded(c, []);
    assert e + [] == e;
    if bytes[..k] <= e {
      assert forall i :: 0 <= i < k ==> bytes[i] == bytes[..k][i] == e[i];
      hide EncodeOne;
      assert false;
    }
  }

  /** Ill-formed bytes are replaced as the Unicode Standard asks for (section 3.9, maximal subparts): one replacement
      character for the longest run that begins a character without completing it, and one for any other byte. */
  lemma ReplacesMaximalSubparts(bytes: seq<Byte>)
    requires bytes != []
    ensures forall k: nat :: 1 <= k <= |bytes| && BeginsCharacter(bytes, k) ==> k <= DecodeOne(bytes).length
    ensures BeginsCharacter(bytes, DecodeOne(bytes).length)
            || (DecodeOne(bytes) == Piece(REPLACEMENT, 1) && !BeginsCharacter(bytes, 1))
    ensures (exists c :: IsScalar(c) && bytes[..DecodeOne(bytes).length] == EncodeOne(c))
            || DecodeOne(bytes).point == REPLACEMENT
  {
    var n := Fitting(bytes);
    forall k: nat | n < k <= |bytes| ensures !BeginsCharacter(bytes, k) {
      forall c | IsScalar(c) ensures !(bytes[..k] <= EncodeOne(c)) { NothingLongerBegins(bytes, k, c); }
    }
    if n > 0 { CompletedBegins(bytes); }
    hide EncodeOne, IsScalar;
    if n > 0 {
      assert BeginsCharacter(bytes, n);
      if n == Announced(bytes[0]) { assert bytes[..n] == EncodeOne(Completed(bytes)) by { CompletedIsWhole(bytes); } }
    }
  }

  lemma CompletedIsWhole(bytes: seq<Byte>)
    requires bytes != [] && Fitting(bytes) == Announced(bytes[0]) > 0
    ensures 0 <= Completed(bytes) < 0x110000 && bytes[..Fitting(bytes)] == EncodeOne(Completed(bytes))
  {
    CompletedBegins(bytes);
    assert |EncodeOne(Completed(bytes))| == Announced(bytes[0]);
  }

  /** Decoding undoes encoding, for every text without surrogates. */
  lemma {:induction false} DecodeEncode(text: seq<CodePoint>)
    requires forall c :: c in text ==> IsScalar(c)
    ensures Decode(Encode(text)) == text
  {
    hide EncodeOne, DecodeOne;
    if text != [] {
      var e, rest := EncodeOne(text[0]), Encode(text[1..]);
      DecodeEncodedOne(text[0], rest);
      assert (e + rest)[|e|..] == rest;
      DecodeEncode(text[1..]);
    }
  }

  lemma PieceIsScalar(bytes: seq<Byte>)
    requires bytes != []
    ensures IsScalar(DecodeOne(bytes).point)
  {
  }

  /** Decoded text has no surrogates. */
  lemma {:induction false} DecodedIsScalar(bytes: seq<Byte>)
    ensures forall c :: c in Decode(bytes) ==> IsScalar(c)
    decreases |bytes|
  {
    hide DecodeOne, IsScalar;
    if bytes != [] {
      PieceIsScalar(bytes);
      DecodedIsScalar(bytes[DecodeOne(bytes).length..]);
    }
  }

  // ----- newlines -----

  /** Only the newline byte decodes to a newline. */
  lemma PieceOfNewline(bytes: seq<Byte>)
    requires bytes != []
    ensures DecodeOne(bytes).point == NEWLINE <==> bytes[0] == NEWLINE_BYTE
    ensures bytes[0] == NEWLINE_BYTE ==> DecodeOne(bytes).length == 1
    ensures forall i :: 1 <= i < DecodeOne(bytes).length ==> bytes[i] != NEWLINE_BYTE
  {
  }

  /** A newline ends every sequence before it, complete or not. */
  lemma FittingBeforeNewline(a: seq<Byte>, b: seq<Byte>)
    requires a != []
    ensures Fitting(a + [NEWLINE_BYTE] + b) == Fitting(a)
  {
    var s := a + [NEWLINE_BYTE] + b;
    assert forall i :: 0 <= i < |a| ==> s[i] == a[i];
    assert s[|a|] == NEWLINE_BYTE && !IsContinuation(NEWLINE_BYTE);
  }

  lemma PieceBeforeNewline(a: seq<Byte>, b: seq<Byte>)
    requires a != []
    ensures DecodeOne(a + [NEWLINE_BYTE] + b) == DecodeOne(a)
  {
    FittingBeforeNewline(a, b);
    assert forall i :: 0 <= i < |a| ==> (a + [NEWLINE_BYTE] + b)[i] == a[i];
    hide Fitting;
  }

  /** Whatever the bytes around it, a newline byte splits the decoded text. */
  lemma {:induction false} DecodeSplitsAtNewline(a: seq<Byte>, b: seq<Byte>)
    ensures Decode(a + [NEWLINE_BYTE] + b) == Decode(a) + [NEWLINE] + Decode(b)
    decreases |a|
  {
    hide DecodeOne;
    var s := a + [NEWLINE_BYTE] + b;
    if a == [] {
      assert s == [NEWLINE_BYTE] + b && s[1..] == b;
      PieceOfNewline(s);
    } else {
      PieceBeforeNewline(a, b);
      var n := DecodeOne(a).length;
      assert s[n..] == a[n..] + [NEWLINE_BYTE] + b;
      DecodeSplitsAtNewline(a[n..], b);
    }
  }

  lemma {:induction false} NoNewlineDecoded(bytes: seq<Byte>)
    ensures NEWLINE in Decode(bytes) <==> NEWLINE_BYTE in bytes
    decreases |bytes|
  {
    hide DecodeOne;
    if bytes != [] {
      PieceOfNewline(bytes);
      var n := DecodeOne(bytes).length;
      assert bytes == bytes[..n] + bytes[n..];
      NoNewlineDecoded(bytes[n..]);
    }
  }

  // ----- how far the length of the text is from the length of the input -----

  /** Encoding the decoded text gives as many bytes as were read. */
  predicate Exact(bytes: seq<Byte>) { |Encode(Decode(bytes))| == |bytes| }

  /** The input has an ill-formed piece of fewer than three bytes. */
  predicate HasShortPiece(bytes: seq<Byte>)
    decreases |bytes|
  {
    bytes != [] &&
    var p := DecodeOne(bytes);
    (p.point == REPLACEMENT && p.length < 3) || HasShortPiece(bytes[p.length..])
  }

  lemma PieceLength(bytes: seq<Byte>)
    requires bytes != []
    ensures var p := DecodeOne(bytes);
            && |EncodeOne(p.point)| >= p.length
            && (|EncodeOne(p.point)| > p.length <==> p.point == REPLACEMENT && p.length < 3)
  {
  }

  /** The lengths agree exactly when no ill-formed piece is shorter than the replacement character. */
  lemma {:induction false} ExactExactly(bytes: seq<Byte>)
    ensures |Encode(Decode(bytes))| >= |bytes|
    ensures Exact(bytes) <==> !HasShortPiece(bytes)
    decreases |bytes|
  {
    hide DecodeOne, EncodeOne;
    if bytes != [] {
      var p := DecodeOne(bytes);
      PieceLength(bytes);
      ExactExactly(bytes[p.length..]);
      var rest := Decode(bytes[p.length..]);
      assert Decode(bytes)[1..] == rest;
    }
  }

  lemma {:induction false} EncodeAppend(a: seq<CodePoint>, b: seq<CodePoint>)
    ensures Encode(a + b) == Encode(a) + Encode(b)
  {
    hide EncodeOne;
    if a == [] {
      assert a + b == b;
    } else {
      assert (a + b)[1..] == a[1..] + b;
      EncodeAppend(a[1..], b);
    }
  }

  /** Two pieces around a newline are exact together exactly when each is. */
  lemma ExactAroundNewline(a: seq<Byte>, b: seq<Byte>)
    ensures Exact(a + [NEWLINE_BYTE] + b) <==> Exact(a) && Exact(b)
  {
    DecodeSplitsAtNewline(a, b);
    EncodeAppend(Decode(a) + [NEWLINE], Decode(b));
    EncodeAppend(Decode(a), [NEWLINE]);
    ExactExactly(a);
    ExactExactly(b);
    assert [NEWLINE][1..] == [];
    assert |Encode([NEWLINE])| == 1;
  }

  lemma ValidIsExact(text: seq<CodePoint>)
    requires forall c :: c in text ==> IsScalar(c)
    ensures Exact(Encode(text))
  {
    DecodeEncode(text);
  }

  lemma OneCodePointPerNewline(c: CodePoint)
    ensures c == NEWLINE ==> EncodeOne(c) == [NEWLINE_BYTE]
    ensures c != NEWLINE ==> NEWLINE_BYTE !in EncodeOne(c)
  {
  }

  lemma {:induction false} BeforeNewlineIsEncoded(text: seq<CodePoint>, p: nat) returns (head: seq<CodePoint>)
    requires (forall c :: c in text ==> IsScalar(c)) && p < |Encode(text)| && Encode(text)[p] == NEWLINE_BYTE
    ensures (forall c :: c in head ==> IsScalar(c)) && Encode(text)[..p] == Encode(head)
  {
    hide EncodeOne, IsScalar;
    var e, rest := EncodeOne(text[0]), Encode(text[1..]);
    OneCodePointPerNewline(text[0]);
    if p == 0 {
      head := [];
    } else {
      assert text[0] != NEWLINE ==> forall i :: 0 <= i < |e| ==> e[i] != NEWLINE_BYTE;
      assert p >= |e|;
      assert rest[p - |e|] == NEWLINE_BYTE;
      var tail := BeforeNewlineIsEncoded(text[1..], p - |e|);
      head := [text[0]] + tail;
      assert head[1..] == tail;
      assert Encode(text)[..p] == e + rest[..p - |e|];
    }
  }

  /** In encoded text, what precedes a newline byte is exact. */
  lemma BeforeNewlineIsExact(text: seq<CodePoint>, p: nat)
    requires (forall c :: c in text ==> IsScalar(c)) && p < |Encode(text)| && Encode(text)[p] == NEWLINE_BYTE
    ensures Exact(Encode(text)[..p])
  {
    hide Encode, IsScalar, Exact;
    var head := BeforeNewlineIsEncoded(text, p);
    ValidIsExact(head);
  }
}
