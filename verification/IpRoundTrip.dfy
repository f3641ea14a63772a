/** Printing and parsing addresses undo each other: IPv6 texts, the CIDR normal form, and the
    uniqueness of the dotted IPv4 form. */
module IpRoundTrip {
  import opened Text
  import opened Bits
  import opened IpText

  // ----- the printed hextets -----

  lemma HextetIs(v: nat, i: nat)
    ensures HextetText(v, i) == Numeral(v / Pow2(i * 16) % 0x10000, 16)
  {
    Pow2Values();
    ShiftMask(v, i * 16, 16);
  }

  lemma HexIsHextet(n: nat)
    requires n < 0x10000
    ensures IsHextet(Numeral(n, 16)) && ValueOf(Numeral(n, 16), 16) == n
  {
    ValueOfNumeral(n, 16);
    NumeralLength(n, 4);
  }

  lemma {:induction false} NumeralLength(n: nat, k: nat)
    requires k >= 1 && n < Pow16(k)
    ensures |Numeral(n, 16)| <= k
    decreases k
  {
    if n >= 16 { NumeralLength(n / 16, k - 1); }
  }

  function Pow16(k: nat): nat { if k == 0 then 1 else 16 * Pow16(k - 1) }

  lemma HextetsAreClean(v: nat)
    ensures forall k :: 0 <= k < 8 ==> IsHextet(Hextets(v)[k])
    ensures AllHextets(Hextets(v))
  {
    forall k | 0 <= k < 8 ensures IsHextet(Hextets(v)[k]) {
      HextetIs(v, 7 - k);
      HexIsHextet(v / Pow2((7 - k) * 16) % 0x10000);
    }
  }

  // ----- reading the eight groups back -----

  lemma SplitHextet(v: nat, i: nat)
    ensures v / Pow2(i * 16) == v / Pow2((i + 1) * 16) * 0x10000 + v / Pow2(i * 16) % 0x10000
  {
    var q := v / Pow2(i * 16);
    Pow2Add(i * 16, 16);
    Pow2Values();
    assert (i + 1) * 16 == i * 16 + 16;
    DivDiv(v, Pow2(i * 16), 0x10000);
    assert q == q / 0x10000 * 0x10000 + q % 0x10000;
  }

  lemma FoldOne(groups: seq<string>, k: nat, value: nat, next: nat)
    requires k < |groups| && AllHextets(groups) && IsHextet(groups[k])
    requires ValueOf(groups[k], 16) < 0x10000 && next == value * 0x10000 + ValueOf(groups[k], 16)
    ensures FoldHextets(groups[k..], value) == FoldHextets(groups[k + 1..], next)
  {
    Pow2Values();
    OrDisjoint(value, ValueOf(groups[k], 16), 16);
    assert groups[k..][0] == groups[k] && groups[k..][1..] == groups[k + 1..];
  }

  lemma HextetStep(v: nat, k: nat)
    requires k < 8
    ensures IsHextet(Hextets(v)[k]) && ValueOf(Hextets(v)[k], 16) < 0x10000
    ensures ShiftRight(v, (7 - k) * 16) == ShiftRight(v, (8 - k) * 16) * 0x10000 + ValueOf(Hextets(v)[k], 16)
  {
    SplitHextet(v, 7 - k);
    HextetIs(v, 7 - k);
    HexIsHextet(v / Pow2((7 - k) * 16) % 0x10000);
  }

  lemma {:induction false} FoldFromGroup(v: nat, k: nat)
    requires k <= 8
    requires AllHextets(Hextets(v))
    ensures FoldHextets(Hextets(v)[k..], ShiftRight(v, (8 - k) * 16)) == v
    decreases 8 - k
  {
    var g := Hextets(v);
    if k == 8 {
      assert g[8..] == [] && Pow2(0) == 1;
      hide Hextets, AllHextets;
    } else {
      hide FoldHextets, ShiftRight, Hextets, IsHextet;
      var above, here := ShiftRight(v, (8 - k) * 16), ShiftRight(v, (7 - k) * 16);
      HextetStep(v, k);
      calc {
        FoldHextets(g[k..], above);
        { FoldOne(g, k, above, here); }
        FoldHextets(g[k + 1..], here);
        { FoldFromGroup(v, k + 1); }
        v;
      }
    }
  }

  lemma FoldGroups(v: nat)
    requires v < Pow2(128) && AllHextets(Hextets(v))
    ensures FoldHextets(Hextets(v), 0) == v
  {
    hide FoldHextets, Hextets;
    FoldFromGroup(v, 0);
    Small(v, Pow2(128));
    assert Hextets(v)[0..] == Hextets(v);
  }

  // ----- the text around "::" -----

  /** No two colons touch, and neither end is a colon. */
  ghost predicate CleanJoin(s: string) {
    && (forall i: nat :: !DoubleColonAt(s, i))
    && (s != "" ==> s[0] != ':' && s[|s| - 1] != ':')
  }

  lemma {:induction false} JoinIsClean(groups: seq<string>)
    requires AllHextets(groups)
    ensures CleanJoin(Join(groups, ':'))
    ensures forall c :: c in Join(groups, ':') ==> c == ':' || IsHexDigit(c)
    ensures groups != [] ==> Join(groups, ':') != ""
    ensures |groups| >= 2 ==> ':' in Join(groups, ':')
  {
    if groups != [] {
      var g, rest := groups[0], groups[1..];
      assert IsHextet(g) && g[0] in g && g[|g| - 1] in g;
      assert forall k :: 0 <= k < |g| ==> g[k] in g;
      if |groups| > 1 {
        JoinIsClean(rest);
        var s, r := Join(groups, ':'), Join(rest, ':');
        assert s == g + [':'] + r;
        assert s[|g|] == ':';
        forall i: nat ensures !DoubleColonAt(s, i) {
          if i + 1 < |s| && i > |g| {
            assert s[i] == r[i - |g| - 1] && s[i + 1] == r[i - |g|];
            assert !DoubleColonAt(r, i - |g| - 1);
          }
        }
      }
    }
  }

  lemma CleanHasNoDouble(s: string)
    requires CleanJoin(s)
    ensures FirstDouble(s) == |s| == LastDouble(s, |s|)
  {
  }

  lemma DoubleIsFound(h: string, t: string)
    requires CleanJoin(h) && CleanJoin(t)
    ensures FirstDouble(h + "::" + t) == |h| == LastDouble(h + "::" + t, |h + "::" + t|)
  {
    var s := h + "::" + t;
    assert DoubleColonAt(s, |h|);
    forall k: nat | k != |h| ensures !DoubleColonAt(s, k) {
      if k < |h| {
        assert k + 1 < |h| ==> s[k] == h[k] && s[k + 1] == h[k + 1] && !DoubleColonAt(h, k);
      } else if k > |h| + 1 {
        var j := k - |h| - 2;
        assert j + 1 < |t| ==> s[k] == t[j] && s[k + 1] == t[j + 1] && !DoubleColonAt(t, j);
      }
    }
  }

  lemma NotDotted(s: string)
    requires '.' !in s
    ensures ExpandIpv4Tail(s) == Some(s)
  {
    var colon := LastIndexOf(s, ':');
    if colon < |s| {
      var tail := s[colon + 1..];
      assert forall c :: c in tail ==> c in s;
      IndexOfAppend(tail, "", '.');
      assert Split(tail, '.') == [tail];
    }
  }

  lemma PiecesOfJoin(groups: seq<string>)
    requires AllHextets(groups)
    ensures Pieces(Join(groups, ':')) == groups
  {
    JoinIsClean(groups);
    if groups != [] {
      forall g | g in groups ensures ':' !in g { assert IsHextet(g); }
      SplitJoin(groups, ':');
    }
  }

  lemma FullGroupsPlain(groups: seq<string>)
    requires |groups| == 8 && AllHextets(groups)
    ensures FullGroups(Join(groups, ':')) == Some(groups)
  {
    var s := Join(groups, ':');
    JoinIsClean(groups);
    CleanHasNoDouble(s);
    PiecesOfJoin(groups);
    assert groups + [] == groups;
    assert groups + Zeros(0) + [] == groups;
  }

  lemma FullGroupsCompressed(groups: seq<string>, start: nat, length: nat)
    requires |groups| == 8 && AllHextets(groups) && IsZeroRun(groups, start, length)
    ensures FullGroups(Join(groups[..start], ':') + "::" + Join(groups[start + length..], ':')) == Some(groups)
  {
    var head, tail := groups[..start], groups[start + length..];
    var h, t := Join(head, ':'), Join(tail, ':');
    assert AllHextets(head) && AllHextets(tail) && AllHextets(head + tail) by {
      forall g | g in head + tail ensures IsHextet(g) { assert g in groups; }
    }
    calc {
      FullGroups(h + "::" + t);
      {
        JoinIsClean(head); JoinIsClean(tail);
        DoubleIsFound(h, t);
        PiecesOfJoin(head); PiecesOfJoin(tail);
        FullGroupsAround(h, t, head, tail);
      }
      Some(head + Zeros(8 - |head + tail|) + tail);
      { assert head + Zeros(length) + tail == groups; }
      Some(groups);
    }
  }

  lemma FullGroupsAround(h: string, t: string, head: seq<string>, tail: seq<string>)
    requires Pieces(h) == head && Pieces(t) == tail && AllHextets(head + tail) && |head + tail| <= 8
    requires FirstDouble(h + "::" + t) == |h| == LastDouble(h + "::" + t, |h + "::" + t|)
    ensures FullGroups(h + "::" + t) == Some(head + Zeros(8 - |head + tail|) + tail)
  {
    var s := h + "::" + t;
    assert s[..|h|] == h && s[|h| + 2..] == t;
  }

  lemma Ipv6TextShape(v: nat)
    ensures FullGroups(Ipv6Text(v)) == Some(Hextets(v))
    ensures forall c :: c in Ipv6Text(v) ==> c == ':' || IsHexDigit(c)
    ensures ':' in Ipv6Text(v)
  {
    var groups := Hextets(v);
    var s := ScanOf(groups);
    HextetsAreClean(v);
    ScanFindsLeftmostLongest(groups);
    if s.bestLength < 2 {
      FullGroupsPlain(groups);
      JoinIsClean(groups);
    } else {
      FullGroupsCompressed(groups, s.bestStart, s.bestLength);
      var head, tail := groups[..s.bestStart], groups[s.bestStart + s.bestLength..];
      forall g | g in head || g in tail ensures IsHextet(g) { assert g in groups; }
      JoinIsClean(head); JoinIsClean(tail);
      assert (Join(head, ':') + "::" + Join(tail, ':'))[|Join(head, ':')|] == ':';
    }
  }

  /** Parsing undoes printing, for every 128-bit value. */
  lemma Ipv6RoundTrip(v: nat)
    requires v < Pow2(128)
    ensures Ipv6Value(Ipv6Text(v)) == Some(v)
  {
    hide Ipv6Text, FullGroups, ExpandIpv4Tail, FoldHextets, Hextets;
    var text := Ipv6Text(v);
    Ipv6TextShape(v);
    NotDotted(text);
    HextetsAreClean(v);
    FoldGroups(v);
  }

  // ----- bounds -----

  lemma {:induction false} HexValueBound(s: string)
    requires forall c :: c in s ==> IsHexDigit(c)
    ensures ValueOf(s, 16) < Pow16(|s|)
  {
    if s != "" {
      assert s[|s| - 1] in s;
      HexValueBound(s[..|s| - 1]);
    }
  }

  lemma HextetBound(g: string)
    requires IsHextet(g)
    ensures ValueOf(g, 16) < 0x10000
  {
    HexValueBound(g);
    assert Pow16(1) == 16 && Pow16(2) == 256 && Pow16(3) == 4096 && Pow16(4) == 0x10000;
  }

  lemma {:induction false} FoldHextetsBound(groups: seq<string>, value: nat, n: nat)
    requires AllHextets(groups) && value < Pow2(n)
    ensures FoldHextets(groups, value) < Pow2(n + 16 * |groups|)
    decreases |groups|
  {
    if groups != [] {
      assert IsHextet(groups[0]);
      var low := ValueOf(groups[0], 16);
      HextetBound(groups[0]);
      Pow2Values();
      Pow2Add(n, 16);
      OrDisjoint(value, low, 16);
      FoldHextetsBound(groups[1..], Or(ShiftLeft(value, 16), low), n + 16);
      assert n + 16 + 16 * |groups[1..]| == n + 16 * |groups|;
    }
  }

  lemma ParsedIpFits(input: string)
    requires ParseIp(input).Some?
    ensures var a := ParseIp(input).value; a.value < Pow2(BitsOf(a.family))
  {
    var text := Trim(input);
    if ':' in text {
      var expanded := ExpandIpv4Tail(text).value;
      FullGroupsAreHextets(expanded);
      FoldHextetsBound(FullGroups(expanded).value, 0, 0);
    } else {
      Ipv4Bound(text);
    }
  }

  // ----- the normal form of a block -----

  lemma {:induction false} JoinChars(parts: seq<string>, sep: char, c: char)
    requires c in Join(parts, sep)
    ensures c == sep || exists p :: p in parts && c in p
  {
    if |parts| == 1 {
      assert parts[0] in parts;
    } else if |parts| > 1 {
      if c in Join(parts[1..], sep) {
        JoinChars(parts[1..], sep, c);
      } else {
        assert c == sep || c in parts[0];
      }
    }
  }

  lemma Ipv4TextChars(v: nat, c: char)
    requires c in FormatIpv4(v)
    ensures c == '.' || IsDigit(c)
  {
    JoinChars([OctetText(v, 24), OctetText(v, 16), OctetText(v, 8), OctetText(v, 0)], '.', c);
  }

  lemma PlainTextParses(text: string)
    requires text != "" && forall c :: c in text ==> c == '.' || IsDigit(c)
    ensures ParseIp(text) == Ipv4Value(text).GetOr(v => Some(IpAddress(V4, v)), None)
  {
    hide Ipv4Value, Ipv6Value, Trim;
    assert ':' !in text;
    TrimNothing(text);
  }

  lemma FormattedV4(v: nat)
    requires v < Pow2(32)
    ensures forall c :: c in FormatIpv4(v) ==> c == '.' || IsDigit(c)
    ensures ParseIp(FormatIpv4(v)) == Some(IpAddress(V4, v))
  {
    var text := FormatIpv4(v);
    assert text != "";
    hide Ipv4Value, FormatIpv4, ParseIp, Pow2;
    forall c | c in text ensures c == '.' || IsDigit(c) { Ipv4TextChars(v, c); }
    PlainTextParses(text);
    Ipv4RoundTrip(v);
  }

  lemma FormattedV6(v: nat)
    requires v < Pow2(128)
    ensures forall c :: c in Ipv6Text(v) ==> c == ':' || IsHexDigit(c)
    ensures ParseIp(Ipv6Text(v)) == Some(IpAddress(V6, v))
  {
    hide Ipv6Value, Ipv6Text, FullGroups;
    Ipv6TextShape(v);
    Ipv6RoundTrip(v);
    TrimNothing(Ipv6Text(v));
  }

  lemma FormattedIp(family: Family, v: nat)
    requires v < Pow2(BitsOf(family))
    ensures forall c :: c in FormatIp(family, v) ==> c == '.' || c == ':' || IsHexDigit(c)
    ensures ParseIp(FormatIp(family, v)) == Some(IpAddress(family, v))
  {
    hide ParseIp, Ipv6Text, FormatIpv4;
    if family == V4 { FormattedV4(v); } else { FormattedV6(v); }
  }

  ghost predicate ValidCidr(c: Cidr) {
    && c.bits == BitsOf(c.family)
    && c.prefix <= c.bits
    && c.base < Pow2(c.bits)
    && c.base % Pow2(c.bits - c.prefix) == 0
    && c.text == FormatIp(c.family, c.base) + "/" + Decimal(c.prefix)
  }

  lemma BlockIsValid(address: IpAddress, prefix: nat)
    requires prefix <= BitsOf(address.family) && address.value < Pow2(BitsOf(address.family))
    ensures ValidCidr(Block(address, prefix))
    ensures Block(address, prefix).base == address.value - address.value % Pow2(BitsOf(address.family) - prefix)
  {
    MaskRoundsDown(address.value, prefix, BitsOf(address.family));
    RoundDown(address.value, Pow2(BitsOf(address.family) - prefix));
  }

  /** Whatever parseCidr accepts is a block of its family with its host bits cleared. */
  lemma ParsedCidrIsValid(input: string)
    requires ParseCidr(input).Some?
    ensures ValidCidr(ParseCidr(input).value)
  {
    var text := Trim(input);
    var slash := LastIndexOf(text, '/');
    ParsedIpFits(text[..slash]);
    var address := ParseIp(text[..slash]).value;
    BlockIsValid(address, ParseCidr(input).value.prefix);
  }

  lemma SlashIsFound(a: string, n: string)
    requires '/' !in n
    ensures LastIndexOf(a + "/" + n, '/') == |a|
  {
    var s := a + "/" + n;
    assert s[|a|] == '/' && '/' in s;
    var i := LastIndexOf(s, '/');
    assert i >= |a|;
  }

  lemma ParseSlashed(a: string, address: IpAddress, n: string)
    requires ParseIp(a) == Some(address) && IsShortDecimal(n) && ValueOf(n, 10) <= BitsOf(address.family)
    requires forall c :: c in a ==> !IsBlankChar(c)
    ensures ParseCidr(a + "/" + n) == Some(Block(address, ValueOf(n, 10)))
  {
    hide ParseIp, ValueOf, Block;
    var s := a + "/" + n;
    assert Trim(s) == s by {
      forall c | c in s ensures !IsBlankChar(c) { assert c in a || c == '/' || c in n; }
      TrimNothing(s);
    }
    SlashIsFound(a, n);
    assert s[..|a|] == a && s[|a| + 1..] == n;
    hide Trim, LastIndexOf;
  }

  lemma BlockOfBase(c: Cidr)
    requires ValidCidr(c)
    ensures Block(IpAddress(c.family, c.base), c.prefix) == c
  {
    hide FormatIp, Decimal, And, MaskFor, Pow2;
    MaskRoundsDown(c.base, c.prefix, c.bits);
    RoundDown(c.base, Pow2(c.bits - c.prefix));
  }

  lemma ParseBlockText(family: Family, base: nat, prefix: nat)
    requires base < Pow2(BitsOf(family)) && prefix <= BitsOf(family)
    ensures ParseCidr(FormatIp(family, base) + "/" + Decimal(prefix)) == Some(Block(IpAddress(family, base), prefix))
  {
    hide ParseCidr, ParseIp, FormatIp, Decimal, MaskFor;
    FormattedIp(family, base);
    DecimalIsShort(prefix);
    ParseSlashed(FormatIp(family, base), IpAddress(family, base), Decimal(prefix));
  }

  /** The text of a block is its normal form: parsing it gives the block back. */
  lemma NormalFormRoundTrip(c: Cidr)
    requires ValidCidr(c)
    ensures ParseCidr(c.text) == Some(c)
  {
    ParseBlockText(c.family, c.base, c.prefix);
    BlockOfBase(c);
  }

  lemma ParseCidrNormalises(input: string)
    requires ParseCidr(input).Some?
    ensures ParseCidr(ParseCidr(input).value.text) == ParseCidr(input)
  {
    ParsedCidrIsValid(input);
    NormalFormRoundTrip(ParseCidr(input).value);
  }

  // ----- the dotted form is unique -----

  lemma {:induction false} NumeralOfValue(s: string)
    requires s != "" && (forall c :: c in s ==> IsDigit(c))
    requires |s| > 1 ==> s[0] != '0'
    ensures Decimal(ValueOf(s, 10)) == s
    ensures s[0] != '0' ==> ValueOf(s, 10) > 0
    decreases |s|
  {
    var init, last := s[..|s| - 1], s[|s| - 1];
    assert s == init + [last] && last in s;
    ValueOfSnoc(init, last, 10);
    assert DigitChar(DigitValue(last)) == last;
    if |s| > 1 {
      NumeralOfValue(init);
      var v := ValueOf(init, 10);
      assert ValueOf(s, 10) == v * 10 + DigitValue(last) >= 10;
      assert (v * 10 + DigitValue(last)) / 10 == v && (v * 10 + DigitValue(last)) % 10 == DigitValue(last);
    }
  }

  lemma OctetIsDecimal(part: string)
    requires OctetOf(part).Some?
    ensures part == Decimal(OctetOf(part).value)
  {
    NumeralOfValue(part);
  }

  lemma FoldHead(parts: seq<string>, value: nat)
    requires parts != [] && FoldOctets(parts, value).Some?
    ensures OctetOf(parts[0]).Some?
    ensures FoldOctets(parts[1..], Or(ShiftLeft(value, 8), OctetOf(parts[0]).value)).Some?
  {
  }

  lemma OctetsAreParsed(parts: seq<string>)
    requires |parts| == 4 && FoldOctets(parts, 0).Some?
    ensures forall k :: 0 <= k < 4 ==> OctetOf(parts[k]).Some?
  {
    FoldHead(parts, 0);
    var p1, x := parts[1..], Or(ShiftLeft(0, 8), OctetOf(parts[0]).value);
    FoldHead(p1, x);
    var p2, y := p1[1..], Or(ShiftLeft(x, 8), OctetOf(p1[0]).value);
    FoldHead(p2, y);
    var p3, z := p2[1..], Or(ShiftLeft(y, 8), OctetOf(p2[0]).value);
    FoldHead(p3, z);
  }

  lemma DottedParts(input: string) returns (a: nat, b: nat, c: nat, d: nat)
    requires Ipv4Value(input).Some?
    ensures a < 256 && b < 256 && c < 256 && d < 256
    ensures input == Join([Decimal(a), Decimal(b), Decimal(c), Decimal(d)], '.')
  {
    var parts := Split(input, '.');
    OctetsAreParsed(parts);
    a, b := OctetOf(parts[0]).value, OctetOf(parts[1]).value;
    c, d := OctetOf(parts[2]).value, OctetOf(parts[3]).value;
    OctetIsDecimal(parts[0]); OctetIsDecimal(parts[1]); OctetIsDecimal(parts[2]); OctetIsDecimal(parts[3]);
    assert parts == [Decimal(a), Decimal(b), Decimal(c), Decimal(d)];
    JoinSplit(input, '.');
  }

  /** Printing undoes parsing: an IPv4 value has exactly one accepted text. */
  lemma Ipv4TextIsUnique(input: string)
    requires Ipv4Value(input).Some?
    ensures FormatIpv4(Ipv4Value(input).value) == input
  {
    Ipv4Bound(input);
    var a, b, c, d := DottedParts(input);
    var v := Ipv4Value(input).value;
    FoldFour(a, b, c, d, ((a * 256 + b) * 256 + c) * 256 + d);
    var a', b', c', d' := FormatIs(v);
    SameOctets(a, b, c, d, a', b', c', d');
  }

  lemma SameOctets(a: nat, b: nat, c: nat, d: nat, a': nat, b': nat, c': nat, d': nat)
    requires b < 256 && c < 256 && d < 256 && b' < 256 && c' < 256 && d' < 256
    requires ((a * 256 + b) * 256 + c) * 256 + d == ((a' * 256 + b') * 256 + c') * 256 + d'
    ensures a == a' && b == b' && c == c' && d == d'
  {
  }
}
