/** Proxy password hashes as text: building, parsing and verifying crypt(3) strings
    (packages/shared/src/crypt/sha512crypt.ts, md5crypt.ts and index.ts). The digest functions are
    parameters. */
module CryptVerify {
  import opened Text
  import opened Utf8
  import opened CryptEncoding
  import opened CryptDigest

  // ----- text and bytes -----

  function Points(s: string): (r: seq<CodePoint>)
    ensures |r| == |s|
    ensures forall c :: c in r ==> IsScalar(c)
  {
    seq(|s|, i requires 0 <= i < |s| => s[i] as int as CodePoint)
  }

  function Bytes(s: string): seq<Byte> { Encode(Points(s)) }

  function FromBytes(bytes: seq<Byte>): string {
    DecodedIsScalar(bytes);
    var text := Decode(bytes);
    seq(|text|, i requires 0 <= i < |text| => assert text[i] in text; text[i] as int as char)
  }

  /** The bytes of a text determine it. */
  lemma BytesInjective(a: string, b: string)
    requires Bytes(a) == Bytes(b)
    ensures a == b
  {
    DecodeEncode(Points(a));
    DecodeEncode(Points(b));
    hide Encode, Decode;
    assert Points(a) == Points(b);
    forall i | 0 <= i < |a| ensures a[i] == b[i] { assert Points(a)[i] == Points(b)[i]; }
  }

  lemma TextRoundTrip(s: string)
    ensures FromBytes(Bytes(s)) == s
  {
    DecodeEncode(Points(s));
    hide Encode, Decode;
  }

  lemma {:induction false} PlainLength(points: seq<CodePoint>)
    requires forall i :: 0 <= i < |points| ==> points[i] < 0x80
    ensures |Encode(points)| == |points|
  {
    if points != [] { PlainLength(points[1..]); }
  }

  predicate IsSalt(s: string, limit: nat) { |s| <= limit && forall c :: c in s ==> IsSymbol(c) }

  lemma SaltLength(s: string)
    requires forall c :: c in s ==> IsSymbol(c)
    ensures |Bytes(s)| == |s|
  {
    forall i | 0 <= i < |s| ensures Points(s)[i] < 0x80 { assert s[i] in s; }
    PlainLength(Points(s));
  }

  function Clip(bytes: seq<Byte>, limit: nat): seq<Byte> { if |bytes| <= limit then bytes else bytes[..limit] }

  // ----- hashes as text -----

  const SHA512_PREFIX := "$6$"
  const MD5_PREFIX := "$1$"
  const ROUNDS_MARK := "rounds="
  const SHA512_DEFAULT_ROUNDS := 5000
  const SHA512_MAX_SALT: nat := 16
  const MD5_MAX_SALT: nat := 8

  function ClampRounds(rounds: int): (r: nat)
    ensures 1000 <= r <= 999_999_999
    ensures r == SHA512_DEFAULT_ROUNDS <==> rounds == SHA512_DEFAULT_ROUNDS
  {
    if rounds < 1000 then 1000 else if rounds > 999_999_999 then 999_999_999 else rounds
  }

  function Distance(a: int, b: int): nat { if a < b then b - a else a - b }

  /** No count within the bounds is nearer. */
  lemma ClampIsNearest(rounds: int, other: nat)
    requires 1000 <= other <= 999_999_999
    ensures Distance(rounds, ClampRounds(rounds)) <= Distance(rounds, other)
    ensures Distance(rounds, ClampRounds(rounds)) == Distance(rounds, other) ==> ClampRounds(rounds) == other
  {
  }

  function RoundsOf(rounds: Option<int>): nat { ClampRounds(rounds.GetOr(r => r, SHA512_DEFAULT_ROUNDS)) }

  predicate Explicit(rounds: Option<int>) { rounds.Some? && rounds.value != SHA512_DEFAULT_ROUNDS }

  function Sha512Head(rounds: Option<int>): string {
    if Explicit(rounds) then SHA512_PREFIX + ROUNDS_MARK + Decimal(RoundsOf(rounds)) + "$" else SHA512_PREFIX
  }

  function Sha512DigestOf(password: string, salt: string, rounds: nat, sha512: seq<Byte> -> Digest64): Digest64 {
    Sha512Final(Bytes(password), Clip(Bytes(salt), SHA512_MAX_SALT), rounds, sha512)
  }

  function Sha512Hash(password: string, salt: string, rounds: Option<int>, sha512: seq<Byte> -> Digest64): string {
    Sha512Head(rounds) + FromBytes(Clip(Bytes(salt), SHA512_MAX_SALT)) + "$"
    + EncodedDigest(Sha512DigestOf(password, salt, RoundsOf(rounds), sha512), SHA512_LAYOUT)
  }

  method Sha512Crypt(password: string, salt: string, rounds: Option<int>, sha512: seq<Byte> -> Digest64)
    returns (hash: string)
    ensures hash == Sha512Hash(password, salt, rounds, sha512)
  {
    hide Sha512Final, EncodedDigest, FromBytes, Encode;
    var saltBytes := Clip(Bytes(salt), SHA512_MAX_SALT);
    var c := ComputeSha512(Bytes(password), saltBytes, RoundsOf(rounds), sha512);
    var encoded := EncodeDigest(c, SHA512_LAYOUT);
    hash := Sha512Head(rounds) + FromBytes(saltBytes) + "$" + encoded;
  }

  function Md5DigestOf(password: string, salt: string, md5: seq<Byte> -> Digest16): Digest16 {
    Md5Final(Bytes(password), Bytes(MD5_PREFIX), Clip(Bytes(salt), MD5_MAX_SALT), md5)
  }

  function Md5Hash(password: string, salt: string, md5: seq<Byte> -> Digest16): string {
    MD5_PREFIX + FromBytes(Clip(Bytes(salt), MD5_MAX_SALT)) + "$"
      + EncodedDigest(Md5DigestOf(password, salt, md5), MD5_LAYOUT)
  }

  method Md5Crypt(password: string, salt: string, md5: seq<Byte> -> Digest16) returns (hash: string)
    ensures hash == Md5Hash(password, salt, md5)
  {
    hide Md5Final, EncodedDigest, FromBytes, Encode;
    var saltBytes := Clip(Bytes(salt), MD5_MAX_SALT);
    var a := ComputeMd5(Bytes(password), Bytes(MD5_PREFIX), saltBytes, md5);
    var encoded := EncodeDigest(a, MD5_LAYOUT);
    hash := MD5_PREFIX + FromBytes(saltBytes) + "$" + encoded;
  }

  // ----- parsing -----

  predicate AllDigits(s: string) { forall c :: c in s ==> IsDigit(c) }

  /** A round count: decimal digits with an optional sign; no text at all counts as zero. */
  function ParseCount(s: string): Option<int> {
    if s == "" then Some(0)
    else if AllDigits(s) then Some(ValueOf(s, 10))
    else if s[0] == '-' && |s| > 1 && AllDigits(s[1..]) then Some(-(ValueOf(s[1..], 10) as int))
    else if s[0] == '+' && |s| > 1 && AllDigits(s[1..]) then Some(ValueOf(s[1..], 10))
    else None
  }

  datatype Parsed = Parsed(rounds: nat, explicitRounds: bool, salt: string)

  function SaltPart(body: string, rounds: nat, explicitRounds: bool): Option<Parsed> {
    var end := IndexOf(body, '$');
    if end == |body| then None else Some(Parsed(rounds, explicitRounds, body[..end]))
  }

  function ParseSha512Hash(hash: string): Option<Parsed> {
    if !StartsWith(hash, SHA512_PREFIX) then None
    else
      var body := hash[|SHA512_PREFIX|..];
      if !StartsWith(body, ROUNDS_MARK) then SaltPart(body, SHA512_DEFAULT_ROUNDS, false)
      else
        var end := IndexOf(body, '$');
        if end == |body| then None
        else if end < |ROUNDS_MARK| || ParseCount(body[|ROUNDS_MARK|..end]).None? then None
        else SaltPart(body[end + 1..], ClampRounds(ParseCount(body[|ROUNDS_MARK|..end]).value), true)
  }

  function ParseMd5Hash(hash: string): Option<string> {
    if !StartsWith(hash, MD5_PREFIX) then None
    else
      var body := hash[|MD5_PREFIX|..];
      var end := IndexOf(body, '$');
      if end == |body| then None else Some(body[..end])
  }

  // ----- verification -----

  predicate ConstantTimeEquals(a: string, b: string) { Bytes(a) == Bytes(b) }

  predicate Verifies(password: string, stored: string, sha512: seq<Byte> -> Digest64, md5: seq<Byte> -> Digest16) {
    if stored == "" then false
    else if StartsWith(stored, SHA512_PREFIX) then
      match ParseSha512Hash(stored)
      case None => false
      case Some(parsed) =>
        var rounds := if parsed.explicitRounds then Some(parsed.rounds) else None;
        ConstantTimeEquals(Sha512Hash(password, parsed.salt, rounds, sha512), stored)
    else if StartsWith(stored, MD5_PREFIX) then
      match ParseMd5Hash(stored)
      case None => false
      case Some(salt) => ConstantTimeEquals(Md5Hash(password, salt, md5), stored)
    else false
  }

  method VerifyProxyPassword(password: string, stored: string, sha512: seq<Byte> -> Digest64,
                          md5: seq<Byte> -> Digest16) returns (accepted: bool)
    ensures accepted == Verifies(password, stored, sha512, md5)
  {
    hide Sha512Hash, Md5Hash, ParseSha512Hash, ParseMd5Hash, Encode;
    if |stored| == 0 { return false; }
    var computed: string;
    if StartsWith(stored, SHA512_PREFIX) {
      var parsed := ParseSha512Hash(stored);
      if parsed.None? { return false; }
      var rounds := if parsed.value.explicitRounds then Some(parsed.value.rounds) else None;
      computed := Sha512Crypt(password, parsed.value.salt, rounds, sha512);
    } else if StartsWith(stored, MD5_PREFIX) {
      var salt := ParseMd5Hash(stored);
      if salt.None? { return false; }
      computed := Md5Crypt(password, salt.value, md5);
    } else {
      return false;
    }
    return ConstantTimeEquals(computed, stored);
  }

  datatype Format = Sha512Format | Md5Format

  function FormatOf(stored: string): Option<Format> {
    if StartsWith(stored, SHA512_PREFIX) then Some(Sha512Format)
    else if StartsWith(stored, MD5_PREFIX) then Some(Md5Format)
    else None
  }

  /** A computed hash shows its format, and only a hash that shows one is ever accepted. */
  lemma FormatIsKept(password: string, salt: string, rounds: Option<int>, sha512: seq<Byte> -> Digest64,
                     md5: seq<Byte> -> Digest16)
    ensures FormatOf(Sha512Hash(password, salt, rounds, sha512)) == Some(Sha512Format)
    ensures FormatOf(Md5Hash(password, salt, md5)) == Some(Md5Format)
    ensures forall stored :: Verifies(password, stored, sha512, md5) ==> FormatOf(stored).Some?
  {
    hide Encode, EncodedDigest, FromBytes, Decimal, ConstantTimeEquals, ParseSha512Hash, ParseMd5Hash;
    var a, b := Sha512Hash(password, salt, rounds, sha512), Md5Hash(password, salt, md5);
    assert a[..3] == SHA512_PREFIX && b[..3] == MD5_PREFIX;
    assert SHA512_PREFIX[1] != MD5_PREFIX[1] && b[1] == MD5_PREFIX[1];
    hide Sha512Hash, Md5Hash;
  }

  method HashProxyPassword(password: string, format: Format, random: seq<Byte>, sha512: seq<Byte> -> Digest64,
                          md5: seq<Byte> -> Digest16)
    returns (hash: string)
    ensures var length := if format == Md5Format then MD5_MAX_SALT else SHA512_MAX_SALT;
            exists salt :: IsSalt(salt, length) && |salt| == length
              && hash == if format == Md5Format then Md5Hash(password, salt, md5)
                         else Sha512Hash(password, salt, None, sha512)
    ensures FormatOf(hash) == Some(format)
  {
    hide Sha512Hash, Md5Hash;
    var salt := GenerateCryptSalt(if format == Md5Format then MD5_MAX_SALT else SHA512_MAX_SALT, random);
    FormatIsKept(password, salt, None, sha512, md5);
    if format == Md5Format {
      assert IsSalt(salt, MD5_MAX_SALT);
      hash := Md5Crypt(password, salt, md5);
    } else {
      assert IsSalt(salt, SHA512_MAX_SALT);
      hash := Sha512Crypt(password, salt, None, sha512);
    }
  }
}
