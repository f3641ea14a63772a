/** The base64 variant of crypt(3) and the permuted encoding of digests
    (packages/shared/src/crypt/b64.ts and the tables beside it). */
module CryptEncoding {
  import opened Text
  import opened Bits
  import opened Utf8

  const CRYPT_ALPHABET: string := "./" + "0123456789" + "ABCDEFGHIJKLMNOPQRSTUVWXYZ" + "abcdefghijklmnopqrstuvwxyz"

  /** The symbol for a value of six bits. */
  function Symbol(v: nat): (c: char)
    requires v < 64
    ensures SymbolValue(c) == v
  {
    if v == 0 then '.' else if v == 1 then '/'
    else if v < 12 then '0' + (v - 2) as char
    else if v < 38 then 'A' + (v - 12) as char
    else 'a' + (v - 38) as char
  }

  function SymbolValue(c: char): int {
    if c == '.' then 0 else if c == '/' then 1
    else if '0' <= c <= '9' then (c - '0') as int + 2
    else if 'A' <= c <= 'Z' then (c - 'A') as int + 12
    else if 'a' <= c <= 'z' then (c - 'a') as int + 38
    else -1
  }

  predicate IsSymbol(c: char) { SymbolValue(c) >= 0 }

  lemma AlphabetIs(v: nat)
    requires v < 64
    ensures |CRYPT_ALPHABET| == 64 && CRYPT_ALPHABET[v] == Symbol(v)
  {
    var digits, upper, lower := "0123456789", "ABCDEFGHIJKLMNOPQRSTUVWXYZ", "abcdefghijklmnopqrstuvwxyz";
    if v < 12 {
      assert CRYPT_ALPHABET[v] == (("./" + digits))[v];
    } else if v < 38 {
      assert CRYPT_ALPHABET[v] == upper[v - 12];
    } else {
      assert CRYPT_ALPHABET[v] == lower[v - 38];
    }
  }

  // ----- 24 bits -----

  /** The low 6 * count bits of the value, six at a time from the least significant. */
  function Symbols(value: nat, count: nat): (s: string)
    ensures |s| == count
    ensures forall c :: c in s ==> IsSymbol(c)
    decreases count
  {
    if count == 0 then "" else [Symbol(value % 64)] + Symbols(value / 64, count - 1)
  }

  function Pack(b2: Byte, b1: Byte, b0: Byte): nat { b2 as nat * 0x10000 + b1 as nat * 0x100 + b0 as nat }

  lemma PackIsOr(b2: Byte, b1: Byte, b0: Byte)
    ensures Or(Or(ShiftLeft(And(b2 as nat, 0xff), 16), ShiftLeft(And(b1 as nat, 0xff), 8)), And(b0 as nat, 0xff))
         == Pack(b2, b1, b0)
  {
    hide And, Or, Pow2;
    Pow2Values();
    ByteMask(b2);
    ByteMask(b1);
    ByteMask(b0);
    OrDisjoint(b2 as nat, b1 as nat * 0x100, 16);
    var high := b2 as nat * 0x100 + b1 as nat;
    assert ShiftLeft(high, 8) == ShiftLeft(b2 as nat, 16) + ShiftLeft(b1 as nat, 8);
    OrDisjoint(high, b0 as nat, 8);
  }

  lemma ByteMask(b: Byte)
    ensures And(b as nat, 0xff) == b as nat
  {
    hide And, Pow2;
    Pow2Values();
    AndLowMask(b as nat, 8);
  }

  method B64From24Bit(b2: Byte, b1: Byte, b0: Byte, count: nat) returns (out: string)
    ensures out == Symbols(Pack(b2, b1, b0), count)
  {
    PackIsOr(b2, b1, b0);
    Pow2Values();
    hide And, Or, ShiftLeft, Pow2;
    var value := Or(Or(ShiftLeft(And(b2 as nat, 0xff), 16), ShiftLeft(And(b1 as nat, 0xff), 8)), And(b0 as nat, 0xff));
    out := "";
    for i := 0 to count
      invariant out + Symbols(value, count - i) == Symbols(Pack(b2, b1, b0), count)
    {
      AndLowMask(value, 6);
      AlphabetIs(value % 64);
      ghost var rest := Symbols(value / 64, count - i - 1);
      assert out + ([Symbol(value % 64)] + rest) == (out + [Symbol(value % 64)]) + rest;
      out := out + [CRYPT_ALPHABET[And(value, 0x3f)]];
      value := ShiftRight(value, 6);
    }
  }

  lemma SixBitsOn(value: nat, k: nat)
    requires k > 0
    ensures value / 64 / Pow2(6 * (k - 1)) == value / Pow2(6 * k)
  {
    assert Pow2(6) == 64 by { Pow2Values(); }
    hide Pow2;
    Pow2Add(6, 6 * (k - 1));
    DivDiv(value, 64, Pow2(6 * (k - 1)));
  }

  lemma NextSymbol(value: nat, count: nat, k: nat)
    requires 0 < k < count
    ensures Symbols(value, count)[k] == Symbols(value / 64, count - 1)[k - 1]
  {
    hide Symbol;
  }

  /** Symbol k stands for the six bits from bit 6 * k on. */
  lemma {:induction false} SymbolsArePositional(value: nat, count: nat, k: nat)
    requires k < count
    ensures SymbolValue(Symbols(value, count)[k]) == value / Pow2(6 * k) % 64
  {
    if k == 0 {
      FirstSymbol(value, count);
    } else {
      hide Pow2, Symbols, SymbolValue;
      SymbolsArePositional(value / 64, count - 1, k - 1);
      NextSymbol(value, count, k);
      SixBitsOn(value, k);
    }
  }

  lemma FirstSymbol(value: nat, count: nat)
    requires count > 0
    ensures SymbolValue(Symbols(value, count)[0]) == value / Pow2(0) % 64
  {
    hide SymbolValue;
  }

  lemma QuotientFits(v: nat, count: nat)
    requires count > 0 && v < Pow2(6 * count)
    ensures v / 64 < Pow2(6 * (count - 1))
  {
    hide Pow2;
    Pow2Values();
    Pow2Add(6, 6 * (count - 1));
    assert 6 + 6 * (count - 1) == 6 * count;
  }

  /** Symbols determine the bits they stand for. */
  lemma {:induction false} SymbolsInjective(v: nat, w: nat, count: nat)
    requires Symbols(v, count) == Symbols(w, count) && v < Pow2(6 * count) && w < Pow2(6 * count)
    ensures v == w
  {
    hide Pow2;
    if count == 0 {
      assert Pow2(0) == 1 by { PowerOfNothing(); }
    } else {
      var s, t := Symbols(v, count), Symbols(w, count);
      assert s[0] == Symbol(v % 64) && t[0] == Symbol(w % 64);
      assert v % 64 == w % 64;
      assert s[1..] == Symbols(v / 64, count - 1) && t[1..] == Symbols(w / 64, count - 1);
      QuotientFits(v, count);
      QuotientFits(w, count);
      SymbolsInjective(v / 64, w / 64, count - 1);
      assert v == v / 64 * 64 + v % 64 && w == w / 64 * 64 + w % 64;
    }
  }

  lemma PowerOfNothing()
    ensures Pow2(0) == 1
  {
  }

  lemma PackInjective(b2: Byte, b1: Byte, b0: Byte, c2: Byte, c1: Byte, c0: Byte)
    requires Pack(b2, b1, b0) == Pack(c2, c1, c0)
    ensures b2 == c2 && b1 == c1 && b0 == c0
  {
  }

  // ----- digests -----

  datatype Triple = Triple(i2: nat, i1: nat, i0: nat)

  datatype Layout = Layout(triples: seq<Triple>, tailIndex: nat, tailCount: nat)

  const SHA512_LAYOUT := Layout([
    Triple(0, 21, 42), Triple(22, 43, 1), Triple(44, 2, 23), Triple(3, 24, 45), Triple(25, 46, 4), Triple(47, 5, 26),
    Triple(6, 27, 48), Triple(28, 49, 7), Triple(50, 8, 29), Triple(9, 30, 51), Triple(31, 52, 10), Triple(53, 11, 32),
    Triple(12, 33, 54), Triple(34, 55, 13), Triple(56, 14, 35),
    Triple(15, 36, 57), Triple(37, 58, 16), Triple(59, 17, 38),
    Triple(18, 39, 60), Triple(40, 61, 19), Triple(62, 20, 41)], 63, 2)

  const MD5_LAYOUT := Layout([
    Triple(0, 6, 12), Triple(1, 7, 13), Triple(2, 8, 14), Triple(3, 9, 15), Triple(4, 10, 5)], 11, 2)

  /** A missing byte counts as zero. */
  function ByteAt(digest: seq<Byte>, i: nat): Byte { if i < |digest| then digest[i] else 0 }

  function TripleText(digest: seq<Byte>, t: Triple): (s: string)
    ensures |s| == 4 && forall c :: c in s ==> IsSymbol(c)
  {
    Symbols(Pack(ByteAt(digest, t.i2), ByteAt(digest, t.i1), ByteAt(digest, t.i0)), 4)
  }

  function TripleTexts(digest: seq<Byte>, triples: seq<Triple>): (s: string)
    ensures |s| == 4 * |triples| && forall c :: c in s ==> IsSymbol(c)
  {
    if triples == [] then ""
    else TripleTexts(digest, triples[..|triples| - 1]) + TripleText(digest, triples[|triples| - 1])
  }

  function EncodedDigest(digest: seq<Byte>, layout: Layout): (s: string)
    ensures forall c :: c in s ==> IsSymbol(c)
  {
    TripleTexts(digest, layout.triples) + Symbols(Pack(0, 0, ByteAt(digest, layout.tailIndex)), layout.tailCount)
  }

  method EncodeDigest(digest: seq<Byte>, layout: Layout) returns (out: string)
    ensures out == EncodedDigest(digest, layout)
  {
    out := "";
    var triples := layout.triples;
    for i := 0 to |triples|
      invariant out == TripleTexts(digest, triples[..i])
    {
      assert triples[..i + 1][..i] == triples[..i];
      var t := triples[i];
      var text := B64From24Bit(ByteAt(digest, t.i2), ByteAt(digest, t.i1), ByteAt(digest, t.i0), 4);
      out := out + text;
    }
    assert triples[..|triples|] == triples;
    var tail := B64From24Bit(0, 0, ByteAt(digest, layout.tailIndex), layout.tailCount);
    out := out + tail;
  }

  /** Row r of the SHA-512 table holds the bytes r, r + 21 and r + 42, rotated by one from row to row. */
  predicate RotatesColumn(r: nat) {
    && r < |SHA512_LAYOUT.triples|
    && SHA512_LAYOUT.triples[r] == Triple(r + 21 * (r % 3), r + 21 * ((r + 1) % 3), r + 21 * ((r + 2) % 3))
  }

  lemma FirstRows(r: nat)
    requires 0 <= r < 7
    ensures RotatesColumn(r)
  {
  }

  lemma MiddleRows(r: nat)
    requires 7 <= r < 14
    ensures RotatesColumn(r)
  {
  }

  lemma LastRows(r: nat)
    requires 14 <= r < 21
    ensures RotatesColumn(r)
  {
  }

  lemma Sha512Table(r: nat)
    requires r < 21
    ensures |SHA512_LAYOUT.triples| == 21 && SHA512_LAYOUT.tailIndex == 63 && SHA512_LAYOUT.tailCount == 2
    ensures RotatesColumn(r)
  {
    hide RotatesColumn;
    if r < 7 { FirstRows(r); } else if r < 14 { MiddleRows(r); } else { LastRows(r); }
  }

  /** Row r of the MD5 table starts at byte r and steps on by 6; byte 16 is byte 5, and byte 11 comes last. */
  lemma Md5Table(r: nat)
    requires r < 5
    ensures |MD5_LAYOUT.triples| == 5 && MD5_LAYOUT.tailIndex == 11
    ensures MD5_LAYOUT.triples[r] == Triple(r, r + 6, if r == 4 then 5 else r + 12)
  {
  }

  predicate Uses(t: Triple, i: nat) { t.i2 == i || t.i1 == i || t.i0 == i }

  predicate Placed(layout: Layout, i: nat) { i == layout.tailIndex || exists t :: t in layout.triples && Uses(t, i) }

  /** Every byte of a digest of the given size has its place. */
  ghost predicate CoversAll(layout: Layout, size: nat) {
    layout.tailCount == 2 && forall i: nat :: i < size ==> Placed(layout, i)
  }

  lemma Sha512Covers()
    ensures CoversAll(SHA512_LAYOUT, 64)
  {
    Sha512Table(0);
    hide SHA512_LAYOUT;
    forall i: nat | i < 64 ensures Placed(SHA512_LAYOUT, i) {
      var r := i % 21;
      Sha512Table(r);
      assert i == r || i == r + 21 || i == r + 42 || i == 63;
      assert Uses(SHA512_LAYOUT.triples[r], r) && Uses(SHA512_LAYOUT.triples[r], r + 21)
             && Uses(SHA512_LAYOUT.triples[r], r + 42);
      assert SHA512_LAYOUT.triples[r] in SHA512_LAYOUT.triples;
    }
  }

  lemma Md5Covers()
    ensures CoversAll(MD5_LAYOUT, 16)
  {
    var t := MD5_LAYOUT.triples;
    forall i: nat | i < 16 && i != 11 ensures Placed(MD5_LAYOUT, i) {
      var row := if i < 5 then i else if i == 5 then 4 else if i < 11 then i - 6 else i - 12;
      assert Uses(t[row], i) && t[row] in t;
    }
    assert Placed(MD5_LAYOUT, 11);
  }

  lemma TripleTextInjective(d: seq<Byte>, e: seq<Byte>, t: Triple)
    requires TripleText(d, t) == TripleText(e, t)
    ensures forall i | Uses(t, i) :: ByteAt(d, i) == ByteAt(e, i)
  {
    Pow2Values();
    hide Symbols, Pow2;
    SymbolsInjective(Pack(ByteAt(d, t.i2), ByteAt(d, t.i1), ByteAt(d, t.i0)),
                     Pack(ByteAt(e, t.i2), ByteAt(e, t.i1), ByteAt(e, t.i0)), 4);
    PackInjective(ByteAt(d, t.i2), ByteAt(d, t.i1), ByteAt(d, t.i0), ByteAt(e, t.i2), ByteAt(e, t.i1), ByteAt(e, t.i0));
  }

  lemma {:induction false} TripleTextsInjective(d: seq<Byte>, e: seq<Byte>, triples: seq<Triple>)
    requires TripleTexts(d, triples) == TripleTexts(e, triples)
    ensures forall t, i | t in triples && Uses(t, i) :: ByteAt(d, i) == ByteAt(e, i)
  {
    hide TripleText, ByteAt;
    if triples != [] {
      var n := |triples| - 1;
      var x, y := TripleTexts(d, triples), TripleTexts(e, triples);
      assert x[..4 * n] == TripleTexts(d, triples[..n]) && x[4 * n..] == TripleText(d, triples[n]);
      assert y[..4 * n] == TripleTexts(e, triples[..n]) && y[4 * n..] == TripleText(e, triples[n]);
      TripleTextsInjective(d, e, triples[..n]);
      TripleTextInjective(d, e, triples[n]);
      assert forall t :: t in triples <==> t in triples[..n] || t == triples[n];
    }
  }

  /** With a layout that has a place for every byte, digests of the size are determined by their text. */
  lemma EncodedDigestInjective(d: seq<Byte>, e: seq<Byte>, layout: Layout, size: nat)
    requires |d| == |e| == size && CoversAll(layout, size)
    requires EncodedDigest(d, layout) == EncodedDigest(e, layout)
    ensures d == e
  {
    var n := 4 * |layout.triples|;
    var x, y := EncodedDigest(d, layout), EncodedDigest(e, layout);
    var v, w := Pack(0, 0, ByteAt(d, layout.tailIndex)), Pack(0, 0, ByteAt(e, layout.tailIndex));
    assert x[..n] == TripleTexts(d, layout.triples) && x[n..] == Symbols(v, 2);
    assert y[..n] == TripleTexts(e, layout.triples) && y[n..] == Symbols(w, 2);
    TripleTextsInjective(d, e, layout.triples);
    TailInjective(v, w);
    hide EncodedDigest, TripleTexts, Symbols, Uses;
    SameBytes(d, e, layout, size);
  }

  lemma SameBytes(d: seq<Byte>, e: seq<Byte>, layout: Layout, size: nat)
    requires |d| == |e| == size && CoversAll(layout, size)
    requires forall t, i | t in layout.triples && Uses(t, i) :: ByteAt(d, i) == ByteAt(e, i)
    requires ByteAt(d, layout.tailIndex) == ByteAt(e, layout.tailIndex)
    ensures d == e
  {
    hide Uses;
    forall i: nat | i < size ensures d[i] == e[i] {
      assert Placed(layout, i);
      assert ByteAt(d, i) == ByteAt(e, i);
    }
  }

  lemma TailInjective(v: nat, w: nat)
    requires Symbols(v, 2) == Symbols(w, 2) && v < 256 && w < 256
    ensures v == w
  {
    Pow2Values();
    Pow2Monotonic(8, 12);
    SymbolsInjective(v, w, 2);
  }

  /** Both tables are injective on digests of their size. */
  lemma DigestTablesAreInjective(d: seq<Byte>, e: seq<Byte>)
    ensures |d| == |e| == 64 && EncodedDigest(d, SHA512_LAYOUT) == EncodedDigest(e, SHA512_LAYOUT) ==> d == e
    ensures |d| == |e| == 16 && EncodedDigest(d, MD5_LAYOUT) == EncodedDigest(e, MD5_LAYOUT) ==> d == e
  {
    hide EncodedDigest;
    Sha512Covers();
    Md5Covers();
    hide CoversAll;
    if |d| == |e| == 64 && EncodedDigest(d, SHA512_LAYOUT) == EncodedDigest(e, SHA512_LAYOUT) {
      EncodedDigestInjective(d, e, SHA512_LAYOUT, 64);
    }
    if |d| == |e| == 16 && EncodedDigest(d, MD5_LAYOUT) == EncodedDigest(e, MD5_LAYOUT) {
      EncodedDigestInjective(d, e, MD5_LAYOUT, 16);
    }
  }

  // ----- repetition -----

  /** The source over and over, cut at the given length. */
  function Cycled(source: seq<Byte>, length: nat): (r: seq<Byte>)
    requires source != []
    ensures |r| == length
  {
    seq(length, i requires 0 <= i < length => source[i % |source|])
  }

  method CopyInto(source: seq<Byte>, out: array<Byte>, offset: nat, count: nat)
    requires count <= |source| && offset + count <= out.Length
    modifies out
    ensures forall k :: 0 <= k < out.Length ==> out[k] == if offset <= k < offset + count then source[k - offset]
                                                          else old(out[k])
  {
    for j := 0 to count
      invariant forall k :: 0 <= k < out.Length ==> out[k] == if offset <= k < offset + j then source[k - offset]
                                                              else old(out[k])
    {
      out[offset + j] := source[j];
    }
  }

  method RepeatTo(source: seq<Byte>, length: int) returns (out: array<Byte>)
    requires source != []
    ensures fresh(out) && out[..] == Cycled(source, if length < 0 then 0 else length)
  {
    if length <= 0 {
      out := new Byte[0];
      return;
    }
    out := new Byte[length](_ => 0);
    var offset := 0;
    while offset < length
      invariant offset % |source| == 0 && 0 <= offset
      invariant forall k :: 0 <= k < length && k < offset ==> out[k] == source[k % |source|]
      decreases length - offset
    {
      var count := if |source| < length - offset then |source| else length - offset;
      CopyInto(source, out, offset, count);
      forall k | offset <= k < offset + count ensures out[k] == source[k % |source|] {
        SameRemainder(offset, k - offset, |source|);
      }
      SameRemainder(offset, |source|, |source|);
      offset := offset + |source|;
    }
  }

  lemma SameRemainder(offset: int, k: int, n: int)
    requires n > 0 && offset >= 0 && offset % n == 0 && 0 <= k <= n
    ensures k < n ==> (offset + k) % n == k
    ensures k == n ==> (offset + k) % n == 0
  {
    var q := offset / n;
    assert offset == n * q + offset % n;
    if k < n {
      DivModUnique(offset + k, n, q, k);
    } else {
      assert offset + k == n * (q + 1);
      DivModUnique(offset + k, n, q + 1, 0);
    }
  }

  // ----- salts -----

  function SaltOf(bytes: seq<Byte>): (s: string)
    ensures |s| == |bytes|
    ensures forall c :: c in s ==> IsSymbol(c)
  {
    seq(|bytes|, i requires 0 <= i < |bytes| => Symbol(bytes[i] as int % 64))
  }

  method GenerateCryptSalt(length: nat, bytes: seq<Byte>) returns (salt: string)
    ensures salt == SaltOf(seq(length, i requires 0 <= i < length => ByteAt(bytes, i)))
  {
    salt := "";
    for i := 0 to length
      invariant salt == SaltOf(seq(i, k requires 0 <= k < i => ByteAt(bytes, k)))
    {
      var v := ByteAt(bytes, i) as int % 64;
      AlphabetIs(v);
      salt := salt + [CRYPT_ALPHABET[v]];
    }
  }

  predicate Gives(b: Byte, v: nat)
    requires v < 64
  {
    SaltOf([b]) == [Symbol(v)]
  }

  /** Each symbol stands for exactly four byte values, so uniform bytes give uniform symbols. */
  lemma SaltIsUnbiased(v: nat)
    requires v < 64
    ensures forall b: Byte ::
              (Gives(b, v) <==> b as int == v || b as int == v + 64 || b as int == v + 128 || b as int == v + 192)
  {
    forall b: Byte ensures Gives(b, v) <==> b as int % 64 == v {
      assert SaltOf([b]) == [Symbol(b as int % 64)];
      assert SymbolValue(Symbol(b as int % 64)) == b as int % 64 && SymbolValue(Symbol(v)) == v;
      if Gives(b, v) { assert [Symbol(b as int % 64)][0] == [Symbol(v)][0]; }
    }
  }
}
