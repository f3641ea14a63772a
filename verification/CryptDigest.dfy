/** The digest computations of SHA-512 and MD5 based crypt(3) (packages/shared/src/crypt/sha512crypt.ts
    and md5crypt.ts) over an abstract digest function. */
module CryptDigest {
  import opened Utf8
  import opened CryptEncoding

  type Digest64 = d: seq<Byte> | |d| == 64 witness seq(64, _ => 0 as Byte)

  type Digest16 = d: seq<Byte> | |d| == 16 witness seq(16, _ => 0 as Byte)

  /** What a hash object has been fed. */
  function Concat(parts: seq<seq<Byte>>): seq<Byte> {
    if parts == [] then [] else Concat(parts[..|parts| - 1]) + parts[|parts| - 1]
  }

  lemma ConcatSnoc(parts: seq<seq<Byte>>, part: seq<Byte>)
    ensures Concat(parts + [part]) == Concat(parts) + part
  {
    assert (parts + [part])[..|parts|] == parts;
  }

  function Times(part: seq<Byte>, n: nat): seq<Byte> { if n == 0 then [] else Times(part, n - 1) + part }

  /** One part for every binary digit of n, from the lowest. */
  function BitParts(n: nat, one: seq<Byte>, zero: seq<Byte>): seq<Byte> {
    if n == 0 then [] else (if n % 2 != 0 then one else zero) + BitParts(n / 2, one, zero)
  }

  /** What round i digests: the running digest c and the sequences p and s in changing order. */
  function RoundInput(i: nat, c: seq<Byte>, p: seq<Byte>, s: seq<Byte>): seq<Byte> {
    (if i % 2 != 0 then p else c) + (if i % 3 != 0 then s else [])
      + (if i % 7 != 0 then p else []) + (if i % 2 != 0 then c else p)
  }

  // ----- what a round and the bits are -----

  /** Rounds with an even number put the digest first and p last, odd ones the other way around; between them
      go s unless the number is a multiple of three, and p unless it is one of seven. */
  lemma RoundInputExactly(i: nat, half: nat, odd: nat, third: nat, past3: nat, seventh: nat, past7: nat,
                          c: seq<Byte>, p: seq<Byte>, s: seq<Byte>)
    requires i == 2 * half + odd == 3 * third + past3 == 7 * seventh + past7 && odd < 2 && past3 < 3 && past7 < 7
    ensures var salt, key := if past3 == 0 then [] else s, if past7 == 0 then [] else p;
            RoundInput(i, c, p, s) == if odd == 0 then c + salt + key + p else p + salt + key + c
  {
    assert i % 2 == odd && i % 3 == past3 && i % 7 == past7;
  }

  /** The number written with these binary digits, the lowest one first. */
  function Written(bits: seq<bool>): nat {
    if bits == [] then 0 else (if bits[0] then 1 else 0) + 2 * Written(bits[1..])
  }

  function Chosen(bits: seq<bool>, one: seq<Byte>, zero: seq<Byte>): seq<Byte> {
    if bits == [] then [] else (if bits[0] then one else zero) + Chosen(bits[1..], one, zero)
  }

  /** The parts are those of the binary digits of the number, without leading zeros, from the lowest digit on. */
  lemma {:induction false} BitPartsExactly(n: nat, one: seq<Byte>, zero: seq<Byte>) returns (bits: seq<bool>)
    ensures BitParts(n, one, zero) == Chosen(bits, one, zero) && Written(bits) == n
    ensures bits != [] ==> bits[|bits| - 1]
  {
    if n == 0 {
      bits := [];
    } else {
      var rest := BitPartsExactly(n / 2, one, zero);
      bits := [n % 2 != 0] + rest;
      assert bits[1..] == rest;
    }
  }

  lemma {:induction false} TimesLength(part: seq<Byte>, n: nat, k: nat)
    requires k < n
    ensures |Times(part, n)| == n * |part| && k * |part| + |part| <= n * |part|
    ensures Times(part, n)[k * |part|..k * |part| + |part|] == part
  {
    TimesSize(part, n - 1);
    assert n * |part| == (n - 1) * |part| + |part|;
    if k < n - 1 {
      TimesLength(part, n - 1, k);
      assert Times(part, n)[..(n - 1) * |part|] == Times(part, n - 1);
      var at := k * |part|;
      assert Times(part, n)[at..at + |part|] == Times(part, n - 1)[at..at + |part|];
    }
  }

  lemma {:induction false} TimesSize(part: seq<Byte>, n: nat)
    ensures |Times(part, n)| == n * |part|
  {
    if n > 0 {
      TimesSize(part, n - 1);
      assert n * |part| == (n - 1) * |part| + |part|;
    }
  }

  // ----- the parts both formats share -----

  lemma CycledGrows(b: seq<Byte>, done: nat, more: nat)
    requires b != [] && done % |b| == 0 && more <= |b|
    ensures Cycled(b, done) + b[..more] == Cycled(b, done + more)
  {
    forall i | done <= i < done + more ensures i % |b| == i - done { SameRemainder(done, i - done, |b|); }
  }

  /** The digest repeated to the length of the key, then a part for each bit of that length. */
  method KeyedParts(head: seq<seq<Byte>>, b: seq<Byte>, keyLen: nat, one: seq<Byte>, zero: seq<Byte>)
    returns (parts: seq<seq<Byte>>)
    requires b != []
    ensures Concat(parts) == Concat(head) + Cycled(b, keyLen) + BitParts(keyLen, one, zero)
  {
    parts := head;
    var remaining: nat := keyLen;
    assert Concat(head) + Cycled(b, 0) == Concat(head);
    while remaining > |b|
      invariant remaining <= keyLen && (keyLen - remaining) % |b| == 0
      invariant Concat(parts) == Concat(head) + Cycled(b, keyLen - remaining)
    {
      CycledGrows(b, keyLen - remaining, |b|);
      SameRemainder(keyLen - remaining, |b|, |b|);
      ConcatSnoc(parts, b);
      assert b[..|b|] == b;
      assert Concat(head) + (Cycled(b, keyLen - remaining) + b) == Concat(head) + Cycled(b, keyLen - remaining) + b;
      parts := parts + [b];
      remaining := remaining - |b|;
    }
    CycledGrows(b, keyLen - remaining, remaining);
    ConcatSnoc(parts, b[..remaining]);
    assert Concat(head) + (Cycled(b, keyLen - remaining) + b[..remaining])
        == Concat(head) + Cycled(b, keyLen - remaining) + b[..remaining];
    parts := parts + [b[..remaining]];
    parts := PushBits(parts, keyLen, one, zero);
  }

  lemma BitPartsStep(n: nat, one: seq<Byte>, zero: seq<Byte>, fed: seq<Byte>)
    requires n > 0
    ensures var part := if n % 2 != 0 then one else zero;
            fed + BitParts(n, one, zero) == fed + part + BitParts(n / 2, one, zero)
  {
    var part := if n % 2 != 0 then one else zero;
    assert fed + (part + BitParts(n / 2, one, zero)) == fed + part + BitParts(n / 2, one, zero);
  }

  method PushBits(head: seq<seq<Byte>>, n: nat, one: seq<Byte>, zero: seq<Byte>) returns (parts: seq<seq<Byte>>)
    ensures Concat(parts) == Concat(head) + BitParts(n, one, zero)
  {
    hide Concat;
    parts := head;
    var bits := n;
    while bits > 0
      invariant bits >= 0 && Concat(parts) + BitParts(bits, one, zero) == Concat(head) + BitParts(n, one, zero)
      decreases bits
    {
      var part := if bits % 2 != 0 then one else zero;
      ConcatSnoc(parts, part);
      BitPartsStep(bits, one, zero, Concat(parts));
      parts := parts + [part];
      bits := bits / 2;
    }
  }

  method PushTimes(part: seq<Byte>, n: nat) returns (parts: seq<seq<Byte>>)
    ensures Concat(parts) == Times(part, n)
  {
    parts := [];
    for i := 0 to n
      invariant Concat(parts) == Times(part, i)
    {
      ConcatSnoc(parts, part);
      parts := parts + [part];
    }
  }

  method RoundParts(i: nat, c: seq<Byte>, p: seq<Byte>, s: seq<Byte>) returns (parts: seq<seq<Byte>>)
    ensures Concat(parts) == RoundInput(i, c, p, s)
  {
    hide Concat;
    var first, last := if i % 2 != 0 then p else c, if i % 2 != 0 then c else p;
    parts := [first];
    assert Concat(parts) == first by {
      ConcatSnoc([], first);
      NothingFed();
      assert [] + [first] == [first] && [] + first == first;
    }
    if i % 3 != 0 {
      ConcatSnoc(parts, s);
      parts := parts + [s];
    }
    if i % 7 != 0 {
      ConcatSnoc(parts, p);
      parts := parts + [p];
    }
    ConcatSnoc(parts, last);
    parts := parts + [last];
    assert first + [] + last == first + last && first + [] + p == first + p && first + s + [] == first + s;
  }

  lemma NothingFed()
    ensures Concat([]) == []
  {
  }

  // ----- SHA-512 -----

  function Sha512Rounds(c: Digest64, p: seq<Byte>, s: seq<Byte>, n: nat, sha512: seq<Byte> -> Digest64): Digest64 {
    if n == 0 then c
    else sha512(RoundInput(n - 1, Sha512Rounds(c, p, s, n - 1, sha512), p, s))
  }

  /** The final digest of a key and a salt after the given number of rounds. */
  function Sha512Final(key: seq<Byte>, salt: seq<Byte>, rounds: nat, sha512: seq<Byte> -> Digest64): Digest64 {
    var b := sha512(key + salt + key);
    var a := sha512(key + salt + Cycled(b, |key|) + BitParts(|key|, b, key));
    var p := Cycled(sha512(Times(key, |key|)), |key|);
    var s := Cycled(sha512(Times(salt, 16 + a[0] as nat)), |salt|);
    Sha512Rounds(a, p, s, rounds, sha512)
  }

  lemma TwoParts(x: seq<Byte>, y: seq<Byte>)
    ensures Concat([x, y]) == x + y
  {
    assert [x, y][..1] == [x] && [x][..0] == [];
    assert Concat([x]) == [] + x == x;
  }

  method ComputeSha512(key: seq<Byte>, salt: seq<Byte>, rounds: nat, sha512: seq<Byte> -> Digest64)
    returns (c: Digest64)
    ensures c == Sha512Final(key, salt, rounds, sha512)
  {
    hide Concat, Times, BitParts, RoundInput, Cycled;
    var keyLen, saltLen := |key|, |salt|;
    var b := sha512(key + salt + key);
    var aParts := KeyedParts([key, salt], b, keyLen, b, key);
    TwoParts(key, salt);
    var a := sha512(Concat(aParts));
    var dpParts := PushTimes(key, keyLen);
    var pBytes := RepeatTo(sha512(Concat(dpParts)), keyLen);
    var p := pBytes[..];
    var dsParts := PushTimes(salt, 16 + a[0] as nat);
    var sBytes := RepeatTo(sha512(Concat(dsParts)), saltLen);
    var s := sBytes[..];
    c := a;
    for i := 0 to rounds
      invariant c == Sha512Rounds(a, p, s, i, sha512)
    {
      var parts := RoundParts(i, c, p, s);
      c := sha512(Concat(parts));
    }
  }

  // ----- MD5 -----

  const MD5_ROUNDS: nat := 1000

  function Md5Rounds(a: Digest16, key: seq<Byte>, salt: seq<Byte>, n: nat, md5: seq<Byte> -> Digest16): Digest16 {
    if n == 0 then a
    else md5(RoundInput(n - 1, Md5Rounds(a, key, salt, n - 1, md5), key, salt))
  }

  /** The first byte of the key, if it has one. */
  function FirstByte(key: seq<Byte>): (first: seq<Byte>)
    ensures first <= key && |first| <= 1 && (first == [] <==> key == [])
  {
    if key == [] then [] else key[..1]
  }

  function Md5Final(key: seq<Byte>, prefix: seq<Byte>, salt: seq<Byte>, md5: seq<Byte> -> Digest16): Digest16 {
    var b := md5(key + salt + key);
    var a := md5(key + prefix + salt + Cycled(b, |key|) + BitParts(|key|, [0], FirstByte(key)));
    Md5Rounds(a, key, salt, MD5_ROUNDS, md5)
  }

  lemma ThreeParts(x: seq<Byte>, y: seq<Byte>, z: seq<Byte>)
    ensures Concat([x, y, z]) == x + y + z
  {
    TwoParts(x, y);
    assert [x, y, z][..2] == [x, y];
  }

  method ComputeMd5(key: seq<Byte>, prefix: seq<Byte>, salt: seq<Byte>, md5: seq<Byte> -> Digest16)
    returns (a: Digest16)
    ensures a == Md5Final(key, prefix, salt, md5)
  {
    hide Concat, BitParts, RoundInput, Cycled;
    var b := md5(key + salt + key);
    var parts := KeyedParts([key, prefix, salt], b, |key|, [0], FirstByte(key));
    ThreeParts(key, prefix, salt);
    a := md5(Concat(parts));
    ghost var start := a;
    for i := 0 to MD5_ROUNDS
      invariant a == Md5Rounds(start, key, salt, i, md5)
    {
      var round := RoundParts(i, a, key, salt);
      a := md5(Concat(round));
    }
  }
}
