/** When a proxy password verifies: exactly when the final digests agree, and never against a stored
    hash that writes the default or an unclamped round count. */
module CryptTheorems {
  import opened Text
  import opened Utf8
  import opened CryptEncoding
  import opened CryptDigest
  import opened CryptVerify

  // ----- salts -----

  lemma SaltIsKept(salt: string, limit: nat)
    requires IsSalt(salt, limit)
    ensures Clip(Bytes(salt), limit) == Bytes(salt) && FromBytes(Clip(Bytes(salt), limit)) == salt
  {
    hide Encode, Decode;
    SaltLength(salt);
    TextRoundTrip(salt);
  }

  lemma SymbolsArePlain(s: string)
    requires forall c :: c in s ==> IsSymbol(c)
    ensures '$' !in s && '=' !in s
  {
  }

  lemma CompareIsEqual(a: string, b: string)
    ensures ConstantTimeEquals(a, b) <==> a == b
  {
    hide Encode;
    if Bytes(a) == Bytes(b) { BytesInjective(a, b); }
  }

  // ----- the pieces of a hash between dollar signs -----

  function RoundsPiece(rounds: nat): string { ROUNDS_MARK + Decimal(rounds) }

  lemma RoundsPieceIsPlain(rounds: nat)
    ensures '$' !in RoundsPiece(rounds)
  {
    hide Numeral;
    assert forall c :: c in Decimal(rounds) ==> IsDigit(c);
    assert '$' !in ROUNDS_MARK;
  }

  lemma SplitThree(a: string, b: string, c: string)
    requires '$' !in a && '$' !in b && '$' !in c
    ensures Split(a + "$" + b + "$" + c, '$') == [a, b, c]
  {
    hide Split;
    OnePiece(a);
    OnePiece(b);
    OnePiece(c);
    SplitAppend(a + ['$'] + b, c, '$');
    SplitAppend(a, b, '$');
    assert a + "$" + b + "$" + c == a + ['$'] + b + ['$'] + c;
  }

  lemma OnePiece(s: string)
    requires '$' !in s
    ensures Split(s, '$') == [s]
  {
    IndexOfAppend(s, "", '$');
  }

  lemma PrefixPieces(rest: string, kind: string)
    requires '$' !in kind
    ensures Split("$" + kind + "$" + rest, '$') == ["", kind] + Split(rest, '$')
  {
    hide Split;
    OnePiece("");
    OnePiece(kind);
    SplitAppend("" + ['$'] + kind, rest, '$');
    SplitAppend("", kind, '$');
    assert "$" + kind + "$" + rest == "" + ['$'] + kind + ['$'] + rest;
    assert [""] + [kind] == ["", kind];
  }

  /** A computed hash splits into the pieces it was built from. */
  lemma Sha512Pieces(password: string, salt: string, rounds: Option<int>, sha512: seq<Byte> -> Digest64)
    requires IsSalt(salt, SHA512_MAX_SALT)
    ensures var text := EncodedDigest(Sha512DigestOf(password, salt, RoundsOf(rounds), sha512), SHA512_LAYOUT);
            Split(Sha512Hash(password, salt, rounds, sha512), '$')
            == if Explicit(rounds) then ["", "6", RoundsPiece(RoundsOf(rounds)), salt, text] else ["", "6", salt, text]
  {
    hide EncodedDigest, Encode, Decode, Sha512DigestOf, FromBytes, Numeral, Split, IsSymbol;
    SaltIsKept(salt, SHA512_MAX_SALT);
    var text := EncodedDigest(Sha512DigestOf(password, salt, RoundsOf(rounds), sha512), SHA512_LAYOUT);
    SymbolsArePlain(salt);
    SymbolsArePlain(text);
    var tail := salt + "$" + text;
    OnePiece(salt);
    OnePiece(text);
    SplitAppend(salt, text, '$');
    assert salt + ['$'] + text == tail;
    if Explicit(rounds) {
      var piece := RoundsPiece(RoundsOf(rounds));
      RoundsPieceIsPlain(RoundsOf(rounds));
      OnePiece(piece);
      SplitAppend(piece, tail, '$');
      PrefixPieces(piece + ['$'] + tail, "6");
      assert Sha512Hash(password, salt, rounds, sha512) == "$" + "6" + "$" + (piece + ['$'] + tail);
      assert ["", "6"] + ([piece] + ([salt] + [text])) == ["", "6", piece, salt, text];
    } else {
      PrefixPieces(tail, "6");
      assert Sha512Hash(password, salt, rounds, sha512) == "$" + "6" + "$" + tail;
      assert ["", "6"] + ([salt] + [text]) == ["", "6", salt, text];
    }
  }

  // ----- parsing what was computed -----

  lemma SaltPartOf(salt: string, text: string, rounds: nat, explicitRounds: bool)
    requires '$' !in salt
    ensures SaltPart(salt + "$" + text, rounds, explicitRounds) == Some(Parsed(rounds, explicitRounds, salt))
  {
    IndexOfAppend(salt, text, '$');
    hide IndexOf;
    var body := salt + "$" + text;
    assert body == salt + ['$'] + text && body[..|salt|] == salt && |salt| < |body|;
  }

  lemma NoRoundsMark(salt: string, text: string)
    requires '=' !in salt && '=' !in text
    ensures !StartsWith(salt + "$" + text, ROUNDS_MARK)
  {
    var body := salt + "$" + text;
    if |body| >= 7 {
      assert ROUNDS_MARK[6] == '=';
      assert body[..7][6] == body[6];
      assert body[6] != '=' by {
        if 6 < |salt| { assert body[6] == salt[6]; } else if 6 > |salt| { assert body[6] == text[6 - |salt| - 1]; }
      }
    }
  }

  lemma ParseDefault(salt: string, text: string)
    requires (forall c :: c in salt ==> IsSymbol(c)) && (forall c :: c in text ==> IsSymbol(c))
    ensures ParseSha512Hash(SHA512_PREFIX + salt + "$" + text) == Some(Parsed(5000, false, salt))
  {
    hide IsSymbol, IndexOf, SaltPart;
    SymbolsArePlain(salt);
    SymbolsArePlain(text);
    var body, hash := salt + "$" + text, SHA512_PREFIX + salt + "$" + text;
    assert hash == SHA512_PREFIX + body && hash[..3] == SHA512_PREFIX && hash[3..] == body;
    NoRoundsMark(salt, text);
    SaltPartOf(salt, text, 5000, false);
  }

  lemma ParseExplicit(count: string, salt: string, text: string)
    requires '$' !in count && ParseCount(count).Some? && '$' !in salt
    ensures ParseSha512Hash(SHA512_PREFIX + ROUNDS_MARK + count + "$" + salt + "$" + text)
         == Some(Parsed(ClampRounds(ParseCount(count).value), true, salt))
  {
    hide SaltPart, ParseCount, IndexOf;
    var tail, piece := salt + "$" + text, ROUNDS_MARK + count;
    var body, hash := piece + ['$'] + tail, SHA512_PREFIX + ROUNDS_MARK + count + "$" + salt + "$" + text;
    assert hash == SHA512_PREFIX + body && hash[..3] == SHA512_PREFIX && hash[3..] == body;
    assert '$' !in ROUNDS_MARK;
    IndexOfAppend(piece, tail, '$');
    assert body[..7] == ROUNDS_MARK && body[7..|piece|] == count && body[|piece| + 1..] == tail;
    SaltPartOf(salt, text, ClampRounds(ParseCount(count).value), true);
  }

  lemma DecimalParses(n: nat)
    ensures ParseCount(Decimal(n)) == Some(n) && '$' !in Decimal(n)
  {
    ValueOfNumeral(n, 10);
    RoundsPieceIsPlain(n);
    assert AllDigits(Decimal(n));
    assert forall c :: c in Decimal(n) ==> c in RoundsPiece(n);
  }

  // ----- verification against a computed hash -----

  lemma HashesEqualExactly(p: string, q: string, salt: string, rounds: Option<int>, sha512: seq<Byte> -> Digest64)
    requires IsSalt(salt, SHA512_MAX_SALT)
    ensures Sha512Hash(q, salt, rounds, sha512) == Sha512Hash(p, salt, rounds, sha512)
       <==> Sha512DigestOf(q, salt, RoundsOf(rounds), sha512) == Sha512DigestOf(p, salt, RoundsOf(rounds), sha512)
  {
    Sha512Pieces(p, salt, rounds, sha512);
    Sha512Pieces(q, salt, rounds, sha512);
    var d, e := Sha512DigestOf(q, salt, RoundsOf(rounds), sha512), Sha512DigestOf(p, salt, RoundsOf(rounds), sha512);
    DigestTablesAreInjective(d, e);
    hide Split, EncodedDigest, Sha512DigestOf, RoundsPiece, FromBytes, Encode;
    if Sha512Hash(q, salt, rounds, sha512) == Sha512Hash(p, salt, rounds, sha512) {
      var pieces := Split(Sha512Hash(q, salt, rounds, sha512), '$');
      assert pieces[|pieces| - 1] == EncodedDigest(d, SHA512_LAYOUT) == EncodedDigest(e, SHA512_LAYOUT);
    }
  }

  lemma ParsedBack(p: string, salt: string, rounds: Option<int>, sha512: seq<Byte> -> Digest64)
    requires IsSalt(salt, SHA512_MAX_SALT)
    ensures var stored := Sha512Hash(p, salt, rounds, sha512);
            && stored != "" && StartsWith(stored, SHA512_PREFIX)
            && ParseSha512Hash(stored) == Some(Parsed(RoundsOf(rounds), Explicit(rounds), salt))
  {
    hide EncodedDigest, Encode, Decode, Sha512DigestOf, FromBytes, Numeral, ParseSha512Hash, ParseCount;
    SaltIsKept(salt, SHA512_MAX_SALT);
    var text := EncodedDigest(Sha512DigestOf(p, salt, RoundsOf(rounds), sha512), SHA512_LAYOUT);
    var stored := Sha512Hash(p, salt, rounds, sha512);
    assert stored[..3] == SHA512_PREFIX;
    if Explicit(rounds) {
      DecimalParses(RoundsOf(rounds));
      SymbolsArePlain(salt);
      ParseExplicit(Decimal(RoundsOf(rounds)), salt, text);
      assert stored == SHA512_PREFIX + ROUNDS_MARK + Decimal(RoundsOf(rounds)) + "$" + salt + "$" + text;
    } else {
      ParseDefault(salt, text);
      assert stored == SHA512_PREFIX + salt + "$" + text;
    }
  }

  /** For every password, every salt over the alphabet within the limit and every integer round
      count, a password is accepted against the hash of another exactly when the final digests agree. */
  lemma Sha512VerifiesExactly(p: string, q: string, salt: string, rounds: Option<int>, sha512: seq<Byte> -> Digest64,
                          md5: seq<Byte> -> Digest16)
    requires IsSalt(salt, SHA512_MAX_SALT)
    ensures Verifies(q, Sha512Hash(p, salt, rounds, sha512), sha512, md5)
       <==> Sha512DigestOf(q, salt, RoundsOf(rounds), sha512) == Sha512DigestOf(p, salt, RoundsOf(rounds), sha512)
  {
    ParsedBack(p, salt, rounds, sha512);
    var stored := Sha512Hash(p, salt, rounds, sha512);
    var again := if Explicit(rounds) then Some(RoundsOf(rounds)) else None;
    assert Explicit(again) == Explicit(rounds) && RoundsOf(again) == RoundsOf(rounds);
    SameRounds(q, salt, again, rounds, sha512);
    HashesEqualExactly(p, q, salt, rounds, sha512);
    hide Sha512Hash, ParseSha512Hash, Sha512DigestOf, ConstantTimeEquals;
    CompareIsEqual(Sha512Hash(q, salt, rounds, sha512), stored);
  }

  lemma SameRounds(p: string, salt: string, a: Option<int>, b: Option<int>, sha512: seq<Byte> -> Digest64)
    requires Explicit(a) == Explicit(b) && RoundsOf(a) == RoundsOf(b)
    ensures Sha512Hash(p, salt, a, sha512) == Sha512Hash(p, salt, b, sha512)
  {
    hide Sha512DigestOf, EncodedDigest, FromBytes, Encode;
  }

  // ----- MD5 -----

  lemma Md5Pieces(p: string, salt: string, md5: seq<Byte> -> Digest16)
    requires IsSalt(salt, MD5_MAX_SALT)
    ensures var stored := Md5Hash(p, salt, md5); var text := EncodedDigest(Md5DigestOf(p, salt, md5), MD5_LAYOUT);
            && stored != "" && StartsWith(stored, MD5_PREFIX) && !StartsWith(stored, SHA512_PREFIX)
            && ParseMd5Hash(stored) == Some(salt)
            && stored == MD5_PREFIX + salt + "$" + text
  {
    hide EncodedDigest, Encode, Decode, Md5DigestOf, FromBytes, IndexOf;
    SaltIsKept(salt, MD5_MAX_SALT);
    SymbolsArePlain(salt);
    var text := EncodedDigest(Md5DigestOf(p, salt, md5), MD5_LAYOUT);
    var stored := Md5Hash(p, salt, md5);
    var body := salt + ['$'] + text;
    assert stored == MD5_PREFIX + body && stored[..3] == MD5_PREFIX && stored[3..] == body;
    assert stored[1] == '1' && SHA512_PREFIX[1] == '6' && stored[..3][1] == stored[1];
    IndexOfAppend(salt, text, '$');
    assert body[..|salt|] == salt;
  }

  lemma Md5VerifiesExactly(p: string, q: string, salt: string, sha512: seq<Byte> -> Digest64,
                          md5: seq<Byte> -> Digest16)
    requires IsSalt(salt, MD5_MAX_SALT)
    ensures Verifies(q, Md5Hash(p, salt, md5), sha512, md5) <==> Md5DigestOf(q, salt, md5) == Md5DigestOf(p, salt, md5)
  {
    Md5Pieces(p, salt, md5);
    Md5Pieces(q, salt, md5);
    var d, e := Md5DigestOf(q, salt, md5), Md5DigestOf(p, salt, md5);
    DigestTablesAreInjective(d, e);
    hide Md5Hash, ParseMd5Hash, EncodedDigest, Md5DigestOf, ConstantTimeEquals;
    CompareIsEqual(Md5Hash(q, salt, md5), Md5Hash(p, salt, md5));
    var head := MD5_PREFIX + salt + "$";
    if Md5Hash(q, salt, md5) == Md5Hash(p, salt, md5) {
      assert EncodedDigest(d, MD5_LAYOUT) == (head + EncodedDigest(d, MD5_LAYOUT))[|head|..]
          == (head + EncodedDigest(e, MD5_LAYOUT))[|head|..] == EncodedDigest(e, MD5_LAYOUT);
    }
  }

  /** A hashed password verifies, in either format and with every salt. */
  lemma OwnPasswordVerifies(p: string, salt: string, rounds: Option<int>, sha512: seq<Byte> -> Digest64,
                          md5: seq<Byte> -> Digest16)
    ensures IsSalt(salt, SHA512_MAX_SALT) ==> Verifies(p, Sha512Hash(p, salt, rounds, sha512), sha512, md5)
    ensures IsSalt(salt, MD5_MAX_SALT) ==> Verifies(p, Md5Hash(p, salt, md5), sha512, md5)
  {
    hide Verifies, Sha512Hash, Md5Hash, Sha512DigestOf, Md5DigestOf, IsSalt;
    if IsSalt(salt, SHA512_MAX_SALT) { Sha512VerifiesExactly(p, p, salt, rounds, sha512, md5); }
    if IsSalt(salt, MD5_MAX_SALT) { Md5VerifiesExactly(p, p, salt, sha512, md5); }
  }

  lemma SaltAppend(salt: string, more: string, limit: nat)
    requires IsSalt(salt, limit) && |salt| == limit
    ensures Clip(Bytes(salt + more), limit) == Bytes(salt)
  {
    SaltLength(salt);
    assert Points(salt + more) == Points(salt) + Points(more);
    EncodeAppend(Points(salt), Points(more));
    hide Encode;
  }

  /** What follows a salt of the full length changes nothing. */
  lemma LongSaltsAreCut(p: string, salt: string, more: string, rounds: Option<int>, sha512: seq<Byte> -> Digest64,
                        md5: seq<Byte> -> Digest16)
    requires forall c :: c in salt ==> IsSymbol(c)
    ensures |salt| == 16 ==> Sha512Hash(p, salt + more, rounds, sha512) == Sha512Hash(p, salt, rounds, sha512)
    ensures |salt| == 8 ==> Md5Hash(p, salt + more, md5) == Md5Hash(p, salt, md5)
  {
    hide Sha512Final, Md5Final, Encode, EncodedDigest, FromBytes;
    if |salt| == 16 {
      SaltAppend(salt, more, 16);
      SaltIsKept(salt, 16);
    }
    if |salt| == 8 {
      SaltAppend(salt, more, 8);
      SaltIsKept(salt, 8);
    }
  }

  // ----- round counts in stored hashes -----

  /** A stored hash that writes its round count, with the right digest for the password. */
  function StoredWithCount(p: string, count: string, salt: string, sha512: seq<Byte> -> Digest64): string
    requires ParseCount(count).Some?
  {
    SHA512_PREFIX + ROUNDS_MARK + count + "$" + salt + "$"
    + EncodedDigest(Sha512DigestOf(p, salt, ClampRounds(ParseCount(count).value), sha512), SHA512_LAYOUT)
  }

  lemma StoredPieces(p: string, count: string, salt: string, sha512: seq<Byte> -> Digest64)
    requires '$' !in count && ParseCount(count).Some? && IsSalt(salt, SHA512_MAX_SALT)
    ensures Split(StoredWithCount(p, count, salt, sha512), '$')
         == ["", "6", ROUNDS_MARK + count, salt,
             EncodedDigest(Sha512DigestOf(p, salt, ClampRounds(ParseCount(count).value), sha512), SHA512_LAYOUT)]
  {
    hide EncodedDigest, Sha512DigestOf, Split, ParseCount, IsSymbol;
    var text := EncodedDigest(Sha512DigestOf(p, salt, ClampRounds(ParseCount(count).value), sha512), SHA512_LAYOUT);
    SymbolsArePlain(salt);
    SymbolsArePlain(text);
    var piece := ROUNDS_MARK + count;
    assert '$' !in ROUNDS_MARK;
    SplitThree(piece, salt, text);
    PrefixPieces(piece + "$" + salt + "$" + text, "6");
    assert StoredWithCount(p, count, salt, sha512) == "$" + "6" + "$" + (piece + "$" + salt + "$" + text);
    assert ["", "6"] + [piece, salt, text] == ["", "6", piece, salt, text];
  }

  /** A stored hash with a written round count and the right digest is accepted exactly when the
      count is written in the canonical way, lies within the bounds and is not the default. */
  lemma WrittenCountVerifiesExactly(p: string, count: string, salt: string, sha512: seq<Byte> -> Digest64,
                          md5: seq<Byte> -> Digest16)
    requires '$' !in count && ParseCount(count).Some? && IsSalt(salt, SHA512_MAX_SALT)
    ensures var v := ParseCount(count).value;
            Verifies(p, StoredWithCount(p, count, salt, sha512), sha512, md5)
            <==> v != SHA512_DEFAULT_ROUNDS && count == Decimal(ClampRounds(v))
  {
    var v := ParseCount(count).value;
    VerifiesByComparing(p, count, salt, sha512, md5);
    hide Verifies, StoredWithCount, Sha512Hash, ParseCount, Numeral;
    if Sha512Hash(p, salt, Some(ClampRounds(v)), sha512) == StoredWithCount(p, count, salt, sha512) {
      SameTextSameCount(p, count, salt, sha512);
    }
    if v != SHA512_DEFAULT_ROUNDS && count == Decimal(ClampRounds(v)) { CanonicalIsComputed(p, v, salt, sha512); }
  }

  lemma VerifiesByComparing(p: string, count: string, salt: string, sha512: seq<Byte> -> Digest64,
                          md5: seq<Byte> -> Digest16)
    requires '$' !in count && ParseCount(count).Some? && IsSalt(salt, SHA512_MAX_SALT)
    ensures Verifies(p, StoredWithCount(p, count, salt, sha512), sha512, md5)
       <==> Sha512Hash(p, salt, Some(ClampRounds(ParseCount(count).value)), sha512)
            == StoredWithCount(p, count, salt, sha512)
  {
    hide EncodedDigest, Sha512DigestOf, ParseCount, Sha512Hash, ConstantTimeEquals, ParseSha512Hash;
    var v, stored := ParseCount(count).value, StoredWithCount(p, count, salt, sha512);
    SymbolsArePlain(salt);
    ParseExplicit(count, salt, EncodedDigest(Sha512DigestOf(p, salt, ClampRounds(v), sha512), SHA512_LAYOUT));
    assert stored[..3] == SHA512_PREFIX;
    CompareIsEqual(Sha512Hash(p, salt, Some(ClampRounds(v)), sha512), stored);
  }

  lemma SameTextSameCount(p: string, count: string, salt: string, sha512: seq<Byte> -> Digest64)
    requires '$' !in count && ParseCount(count).Some? && IsSalt(salt, SHA512_MAX_SALT)
    requires Sha512Hash(p, salt, Some(ClampRounds(ParseCount(count).value)), sha512)
         == StoredWithCount(p, count, salt, sha512)
    ensures ParseCount(count).value != SHA512_DEFAULT_ROUNDS && count == Decimal(ClampRounds(ParseCount(count).value))
  {
    hide EncodedDigest, Sha512DigestOf, ParseCount, Sha512Hash, StoredWithCount, Split, Numeral;
    var v, pieces := ParseCount(count).value, Split(StoredWithCount(p, count, salt, sha512), '$');
    StoredPieces(p, count, salt, sha512);
    Sha512Pieces(p, salt, Some(ClampRounds(v)), sha512);
    assert |pieces| == 5;
    assert Explicit(Some(ClampRounds(v)));
    assert pieces[2] == ROUNDS_MARK + count == RoundsPiece(ClampRounds(v));
    assert count == pieces[2][7..] == Decimal(ClampRounds(v));
  }

  lemma CanonicalIsComputed(p: string, v: int, salt: string, sha512: seq<Byte> -> Digest64)
    requires v != SHA512_DEFAULT_ROUNDS && IsSalt(salt, SHA512_MAX_SALT)
    requires ParseCount(Decimal(ClampRounds(v))) == Some(v)
    ensures Sha512Hash(p, salt, Some(ClampRounds(v)), sha512)
         == StoredWithCount(p, Decimal(ClampRounds(v)), salt, sha512)
  {
    hide EncodedDigest, Sha512DigestOf, ParseCount, FromBytes, Numeral, IsSalt;
    SaltIsKept(salt, SHA512_MAX_SALT);
  }

  /** The default count, written out, is never accepted: the hash is computed without it. */
  lemma WrittenDefaultNeverVerifies(p: string, salt: string, sha512: seq<Byte> -> Digest64, md5: seq<Byte> -> Digest16)
    requires IsSalt(salt, SHA512_MAX_SALT)
    ensures ParseCount("5000") == Some(5000) && !Verifies(p, StoredWithCount(p, "5000", salt, sha512), sha512, md5)
  {
    DecimalParses(5000);
    FiveThousand();
    hide Verifies, StoredWithCount, ParseCount, Numeral;
    WrittenCountVerifiesExactly(p, "5000", salt, sha512, md5);
  }

  lemma FiveThousand()
    ensures Decimal(5000) == "5000"
  {
    assert Numeral(5, 10) == "5" && Numeral(50, 10) == "50" && Numeral(500, 10) == "500";
  }
}
