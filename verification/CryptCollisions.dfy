/** A proxy password hash accepts no other password unless the digest function collides on what the two
    computations feed it. */
module CryptCollisions {
  import opened Text
  import opened Utf8
  import opened CryptEncoding
  import opened CryptDigest
  import opened CryptVerify
  import opened CryptTheorems

  lemma SameStart(x: seq<Byte>, y: seq<Byte>, u: seq<Byte>, v: seq<Byte>)
    requires x + u == y + v && |x| == |y|
    ensures x == y && u == v
  {
    assert x == (x + u)[..|x|] && y == (y + v)[..|y|];
    assert u == (x + u)[|x|..] && v == (y + v)[|y|..];
  }

  lemma SameEnd(u: seq<Byte>, v: seq<Byte>, x: seq<Byte>, y: seq<Byte>)
    requires u + x == v + y && |x| == |y|
    ensures x == y && u == v
  {
    assert |u| == |v|;
    SameStart(u, v, x, y);
  }

  /** What a round digests determines both the running digest and the password part. */
  lemma RoundInputDetermines(i: nat, c: seq<Byte>, p: seq<Byte>, s: seq<Byte>, c': seq<Byte>, p': seq<Byte>,
                             s': seq<Byte>)
    requires RoundInput(i, c, p, s) == RoundInput(i, c', p', s') && |c| == |c'| && |s| == |s'|
    ensures c == c' && p == p'
  {
    var salt, salt' := if i % 3 != 0 then s else [], if i % 3 != 0 then s' else [];
    var key, key' := if i % 7 != 0 then p else [], if i % 7 != 0 then p' else [];
    var first, first' := if i % 2 != 0 then p else c, if i % 2 != 0 then p' else c';
    var last, last' := if i % 2 != 0 then c else p, if i % 2 != 0 then c' else p';
    assert RoundInput(i, c, p, s) == first + salt + key + last;
    assert RoundInput(i, c', p', s') == first' + salt' + key' + last';
    hide RoundInput;
    assert |p| == |p'|;
    SameEnd(first + salt + key, first' + salt' + key', last, last');
    SameStart(first + salt, first' + salt', key, key');
    SameStart(first, first', salt, salt');
  }

  // ----- SHA-512 -----

  function RoundFeeds(a: Digest64, p: seq<Byte>, s: seq<Byte>, i: nat, sha512: seq<Byte> -> Digest64): seq<Byte> {
    RoundInput(i, Sha512Rounds(a, p, s, i, sha512), p, s)
  }

  /** Two inputs with the same digest are the same. */
  predicate Apart<D(==)>(x: seq<Byte>, y: seq<Byte>, digest: seq<Byte> -> D) { digest(x) == digest(y) ==> x == y }

  /** No round of one computation collides with the same round of the other. */
  predicate RoundsApart(a: Digest64, p: seq<Byte>, s: seq<Byte>, a': Digest64, p': seq<Byte>, s': seq<Byte>, n: nat,
                        sha512: seq<Byte> -> Digest64) {
    forall i: nat :: i < n ==> Apart(RoundFeeds(a, p, s, i, sha512), RoundFeeds(a', p', s', i, sha512), sha512)
  }

  lemma {:induction false} RoundsDetermine(a: Digest64, p: seq<Byte>, s: seq<Byte>, a': Digest64, p': seq<Byte>,
                                           s': seq<Byte>, n: nat, sha512: seq<Byte> -> Digest64)
    requires n > 0 && |s| == |s'| && RoundsApart(a, p, s, a', p', s', n, sha512)
    requires Sha512Rounds(a, p, s, n, sha512) == Sha512Rounds(a', p', s', n, sha512)
    ensures a == a' && p == p'
  {
    hide RoundInput;
    var c, c' := Sha512Rounds(a, p, s, n - 1, sha512), Sha512Rounds(a', p', s', n - 1, sha512);
    assert Apart(RoundFeeds(a, p, s, n - 1, sha512), RoundFeeds(a', p', s', n - 1, sha512), sha512);
    RoundInputDetermines(n - 1, c, p, s, c', p', s');
    if n > 1 { RoundsDetermine(a, p, s, a', p', s', n - 1, sha512); }
  }

  /** What the first digest of the computation is fed. */
  function StartFeed(key: seq<Byte>, salt: seq<Byte>, sha512: seq<Byte> -> Digest64): seq<Byte> {
    key + salt + Cycled(sha512(key + salt + key), |key|) + BitParts(|key|, sha512(key + salt + key), key)
  }

  function PasswordPart(key: seq<Byte>, sha512: seq<Byte> -> Digest64): (p: seq<Byte>)
    ensures |p| == |key|
  {
    Cycled(sha512(Times(key, |key|)), |key|)
  }

  function SaltPiece(salt: seq<Byte>, a: Digest64, sha512: seq<Byte> -> Digest64): (s: seq<Byte>)
    ensures |s| == |salt|
  {
    Cycled(sha512(Times(salt, 16 + a[0] as nat)), |salt|)
  }

  /** No digest of one key's computation collides with its counterpart in the other's. */
  predicate NoCollision(key: seq<Byte>, other: seq<Byte>, salt: seq<Byte>, rounds: nat, sha512: seq<Byte> -> Digest64) {
    var x, y := StartFeed(key, salt, sha512), StartFeed(other, salt, sha512);
    && Apart(x, y, sha512)
    && RoundsApart(sha512(x), PasswordPart(key, sha512), SaltPiece(salt, sha512(x), sha512),
                   sha512(y), PasswordPart(other, sha512), SaltPiece(salt, sha512(y), sha512), rounds, sha512)
  }

  lemma FinalIs(key: seq<Byte>, salt: seq<Byte>, rounds: nat, sha512: seq<Byte> -> Digest64)
    ensures var a := sha512(StartFeed(key, salt, sha512));
            Sha512Final(key, salt, rounds, sha512)
            == Sha512Rounds(a, PasswordPart(key, sha512), SaltPiece(salt, a, sha512), rounds, sha512)
  {
    hide Cycled, Times, BitParts, Sha512Rounds;
  }

  /** Without a collision the final digest determines the key. */
  lemma FinalDetermines(key: seq<Byte>, other: seq<Byte>, salt: seq<Byte>, rounds: nat, sha512: seq<Byte> -> Digest64)
    requires rounds > 0 && NoCollision(key, other, salt, rounds, sha512)
    requires Sha512Final(key, salt, rounds, sha512) == Sha512Final(other, salt, rounds, sha512)
    ensures key == other
  {
    hide Sha512Final, Sha512Rounds, PasswordPart, SaltPiece, StartFeed, RoundsApart;
    FinalIs(key, salt, rounds, sha512);
    FinalIs(other, salt, rounds, sha512);
    var x, y := StartFeed(key, salt, sha512), StartFeed(other, salt, sha512);
    RoundsDetermine(sha512(x), PasswordPart(key, sha512), SaltPiece(salt, sha512(x), sha512),
                    sha512(y), PasswordPart(other, sha512), SaltPiece(salt, sha512(y), sha512), rounds, sha512);
    assert |key| == |other|;
    StartsWithKey(key, salt, sha512);
    StartsWithKey(other, salt, sha512);
  }

  lemma StartsWithKey(key: seq<Byte>, salt: seq<Byte>, sha512: seq<Byte> -> Digest64)
    ensures key <= StartFeed(key, salt, sha512)
  {
    hide Cycled, BitParts;
  }

  /** A SHA-512 hash verifies exactly the password it was made from, as long as the digest function does not
      collide on the inputs of the two computations. */
  lemma OnlyOwnPasswordVerifies(p: string, q: string, salt: string, rounds: Option<int>, sha512: seq<Byte> -> Digest64,
                                md5: seq<Byte> -> Digest16)
    requires IsSalt(salt, SHA512_MAX_SALT)
    requires NoCollision(Bytes(q), Bytes(p), Bytes(salt), RoundsOf(rounds), sha512)
    ensures Verifies(q, Sha512Hash(p, salt, rounds, sha512), sha512, md5) <==> p == q
  {
    Sha512VerifiesExactly(p, q, salt, rounds, sha512, md5);
    SaltIsKept(salt, SHA512_MAX_SALT);
    hide Verifies, Sha512Hash, Sha512Final, NoCollision, Encode;
    if Verifies(q, Sha512Hash(p, salt, rounds, sha512), sha512, md5) {
      FinalDetermines(Bytes(q), Bytes(p), Bytes(salt), RoundsOf(rounds), sha512);
      BytesInjective(p, q);
    }
  }

  // ----- MD5 -----

  function Md5Feeds(a: Digest16, key: seq<Byte>, salt: seq<Byte>, i: nat, md5: seq<Byte> -> Digest16): seq<Byte> {
    RoundInput(i, Md5Rounds(a, key, salt, i, md5), key, salt)
  }

  function Md5Start(key: seq<Byte>, prefix: seq<Byte>, salt: seq<Byte>, md5: seq<Byte> -> Digest16): Digest16 {
    md5(key + prefix + salt + Cycled(md5(key + salt + key), |key|) + BitParts(|key|, [0], FirstByte(key)))
  }

  /** The last round of one computation does not collide with the last round of the other. */
  predicate NoMd5Collision(key: seq<Byte>, other: seq<Byte>, prefix: seq<Byte>, salt: seq<Byte>,
                           md5: seq<Byte> -> Digest16) {
    Apart(Md5Feeds(Md5Start(key, prefix, salt, md5), key, salt, 999, md5),
          Md5Feeds(Md5Start(other, prefix, salt, md5), other, salt, 999, md5), md5)
  }

  lemma Md5FinalIs(key: seq<Byte>, prefix: seq<Byte>, salt: seq<Byte>, md5: seq<Byte> -> Digest16)
    ensures Md5Final(key, prefix, salt, md5)
         == md5(Md5Feeds(Md5Start(key, prefix, salt, md5), key, salt, 999, md5))
  {
    hide Cycled, BitParts, RoundInput;
    assert MD5_ROUNDS == 1000;
  }

  /** An MD5 hash verifies exactly the password it was made from, as long as the digest function does not collide
      on the inputs of the last rounds. */
  lemma OnlyOwnPasswordVerifiesMd5(p: string, q: string, salt: string, sha512: seq<Byte> -> Digest64,
                                   md5: seq<Byte> -> Digest16)
    requires IsSalt(salt, MD5_MAX_SALT)
    requires NoMd5Collision(Bytes(q), Bytes(p), Bytes(MD5_PREFIX), Bytes(salt), md5)
    ensures Verifies(q, Md5Hash(p, salt, md5), sha512, md5) <==> p == q
  {
    Md5VerifiesExactly(p, q, salt, sha512, md5);
    SaltIsKept(salt, MD5_MAX_SALT);
    var k, o, prefix, s := Bytes(q), Bytes(p), Bytes(MD5_PREFIX), Bytes(salt);
    Md5FinalIs(k, prefix, s, md5);
    Md5FinalIs(o, prefix, s, md5);
    hide Verifies, Md5Hash, Md5Final, Encode, RoundInput, Md5Rounds, Md5Start;
    if Verifies(q, Md5Hash(p, salt, md5), sha512, md5) {
      RoundInputDetermines(999, Md5Rounds(Md5Start(k, prefix, s, md5), k, s, 999, md5), k, s,
                           Md5Rounds(Md5Start(o, prefix, s, md5), o, s, 999, md5), o, s);
      BytesInjective(p, q);
    }
  }
}
