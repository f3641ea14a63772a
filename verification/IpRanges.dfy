/** Containment of addresses in blocks: the mask comparison means the interval, and a block is
    private exactly when its whole interval lies in a listed private block. */
module IpRanges {
  import opened Text
  import opened Bits
  import opened IpText
  import opened IpRoundTrip

  predicate CidrContains(c: Cidr, a: IpAddress)
    requires c.prefix <= c.bits
  {
    c.family == a.family && And(a.value, MaskFor(c.prefix, c.bits)) == c.base
  }

  predicate IpInAnyCidr(a: IpAddress, cidrs: seq<string>) {
    exists text :: text in cidrs && ParseCidr(text).Some? && CidrContains(ParseCidr(text).value, a)
  }

  method FindInCidrs(a: IpAddress, cidrs: seq<string>) returns (found: bool)
    ensures found == IpInAnyCidr(a, cidrs)
  {
    hide ParseCidr;
    for i := 0 to |cidrs|
      invariant forall k :: 0 <= k < i && ParseCidr(cidrs[k]).Some? ==> !CidrContains(ParseCidr(cidrs[k]).value, a)
    {
      var cidr := ParseCidr(cidrs[i]);
      if cidr.Some? && CidrContains(cidr.value, a) {
        assert cidrs[i] in cidrs;
        return true;
      }
    }
    return false;
  }

  predicate IsUnspecifiedRange(c: Cidr) { c.prefix == 0 }

  /** Number of addresses covered. */
  function CidrSize(c: Cidr): nat
    requires c.prefix <= c.bits
  {
    ShiftLeft(1, c.bits - c.prefix)
  }

  const PRIVATE_V4: seq<string> :=
    ["10.0.0.0/8", "172.16.0.0/12", "192.168.0.0/16", "127.0.0.0/8", "169.254.0.0/16", "100.64.0.0/10"]

  const PRIVATE_V6: seq<string> := ["fc00::/7", "fe80::/10", "::1/128"]

  function PrivateTexts(family: Family): seq<string> { if family == V4 then PRIVATE_V4 else PRIVATE_V6 }

  predicate FitsBlock(c: Cidr, block: Cidr)
    requires block.prefix <= block.bits
  {
    c.prefix >= block.prefix && And(c.base, MaskFor(block.prefix, block.bits)) == block.base
  }

  predicate IsPrivateCidr(c: Cidr) {
    exists text :: text in PrivateTexts(c.family) && ParseCidr(text).Some? && FitsBlock(c, ParseCidr(text).value)
  }

  method CheckPrivate(c: Cidr) returns (found: bool)
    ensures found == IsPrivateCidr(c)
  {
    hide ParseCidr;
    var candidates := if c.family == V4 then PRIVATE_V4 else PRIVATE_V6;
    for i := 0 to |candidates|
      invariant forall k :: 0 <= k < i && ParseCidr(candidates[k]).Some? ==>
                  !FitsBlock(c, ParseCidr(candidates[k]).value)
    {
      var block := ParseCidr(candidates[i]);
      if block.None? || c.prefix < block.value.prefix { continue; }
      if And(c.base, MaskFor(block.value.prefix, block.value.bits)) == block.value.base {
        assert candidates[i] in PrivateTexts(c.family);
        return true;
      }
    }
    return false;
  }

  // ----- what the mask comparisons mean -----

  ghost predicate InRange(c: Cidr, v: int)
    requires c.prefix <= c.bits
  {
    c.base <= v < c.base + CidrSize(c)
  }

  lemma AlignedMultiple(base: nat, v: nat, m: nat)
    requires m > 0 && base % m == 0
    ensures v - v % m == base <==> base <= v < base + m
  {
    var q, p := base / m, v / m;
    assert base == m * q && v == m * p + v % m;
    if base <= v < base + m {
      DivModUnique(v, m, q, v - base);
    }
  }

  /** A block contains an address exactly when the address lies in its interval. */
  lemma ContainsIsInterval(c: Cidr, a: IpAddress)
    requires ValidCidr(c) && a.value < Pow2(BitsOf(a.family))
    ensures CidrContains(c, a) <==> c.family == a.family && InRange(c, a.value)
  {
    if c.family == a.family {
      MaskRoundsDown(a.value, c.prefix, c.bits);
      AlignedMultiple(c.base, a.value, Pow2(c.bits - c.prefix));
    }
  }

  lemma Regroup(small: nat, k: nat, p: nat, r: nat)
    ensures small * (k * p + r) == small * k * p + small * r
  {
    assert small * (k * p + r) == small * (k * p) + small * r;
    assert small * (k * p) == small * k * p;
  }

  lemma MultiplesOf(base: nat, small: nat, big: nat, k: nat)
    requires small > 0 && k > 0 && big == small * k && base % small == 0
    ensures base % big + small <= big
  {
    var q := base / small;
    var p, r := q / k, q % k;
    assert base == small * q && q == k * p + r;
    Regroup(small, k, p, r);
    MulMono(small, r + 1, k);
    assert small * (r + 1) == small * r + small;
    DivModUnique(base, big, p, small * r);
  }

  /** A block fits another exactly when its whole interval does. */
  lemma FitsIsIntervalInclusion(c: Cidr, block: Cidr)
    requires ValidCidr(c) && ValidCidr(block) && c.family == block.family
    ensures FitsBlock(c, block) <==>
            block.base <= c.base && c.base + CidrSize(c) <= block.base + CidrSize(block)
  {
    hide FormatIp, MaskFor, And;
    var small, big := Pow2(c.bits - c.prefix), Pow2(block.bits - block.prefix);
    MaskRoundsDown(c.base, block.prefix, block.bits);
    AlignedMultiple(block.base, c.base, big);
    if c.prefix >= block.prefix {
      var k := c.prefix - block.prefix;
      assert block.bits - block.prefix == (c.bits - c.prefix) + k;
      Pow2Add(c.bits - c.prefix, k);
      MultiplesOf(c.base, small, big, Pow2(k));
    } else {
      Pow2StrictlyMonotonic(block.bits - block.prefix, c.bits - c.prefix);
    }
  }

  ghost predicate Covers(block: Cidr, c: Cidr)
    requires c.prefix <= c.bits && block.prefix <= block.bits
  {
    c.family == block.family && forall v :: InRange(c, v) ==> InRange(block, v)
  }

  lemma CoversIsIntervalInclusion(block: Cidr, c: Cidr)
    requires ValidCidr(c) && ValidCidr(block) && c.family == block.family
    ensures Covers(block, c) <==> block.base <= c.base && c.base + CidrSize(c) <= block.base + CidrSize(block)
  {
    assert CidrSize(c) >= 1 && CidrSize(block) >= 1;
    if Covers(block, c) {
      assert InRange(c, c.base) && InRange(c, c.base + CidrSize(c) - 1);
    }
  }

  // ----- the listed blocks -----

  lemma DottedBlock(text: string, a: nat, b: nat, prefix: string, n: nat)
    requires a < 256 && b < 256 && text == Decimal(a) + "." + Decimal(b)
    requires IsShortDecimal(prefix) && ValueOf(prefix, 10) == n <= 32
    ensures ParseCidr(text + ".0.0" + "/" + prefix)
         == Some(Block(IpAddress(V4, (a * 256 + b) * 0x10000), n))
  {
    var full := text + ".0.0";
    assert full == Join([Decimal(a), Decimal(b), Decimal(0), Decimal(0)], '.') by { JoinFour(Decimal(a), Decimal(b)); }
    DecimalIsShort(a); DecimalIsShort(b);
    forall c | c in full ensures c == '.' || IsDigit(c) {}
    TrimNothing(full);
    FoldFour(a, b, 0, 0, (a * 256 + b) * 0x10000);
    ParseSlashed(full, IpAddress(V4, (a * 256 + b) * 0x10000), prefix);
  }

  lemma JoinFour(a: string, b: string)
    ensures Join([a, b, Decimal(0), Decimal(0)], '.') == a + "." + b + ".0.0"
  {
    var z := Decimal(0);
    assert z == "0";
    assert [a, b, z, z] == [a] + ([b] + ([z] + [z]));
    JoinCons(z, [z], '.');
    JoinCons(b, [z] + [z], '.');
    JoinCons(a, [b] + ([z] + [z]), '.');
  }

  lemma FoldOneZero(tail: seq<string>, value: nat)
    requires AllHextets(tail)
    ensures AllHextets(["0"] + tail) && FoldHextets(["0"] + tail, value) == FoldHextets(tail, ShiftLeft(value, 16))
  {
    var g := ["0"] + tail;
    ZeroHextet();
    assert g[0] == "0" && g[1..] == tail;
    hide Or, ShiftLeft, IsHextet, Pow2;
    Pow2Values();
    OrDisjoint(value, 0, 16);
  }

  lemma ZeroHextet()
    ensures IsHextet("0") && ValueOf("0", 16) == 0
  {
  }

  lemma MulAssociates(x: nat, y: nat, z: nat)
    ensures x * y * z == x * (y * z)
  {
  }

  lemma ShiftAdd(value: nat, a: nat, b: nat)
    ensures ShiftLeft(ShiftLeft(value, a), b) == ShiftLeft(value, a + b)
  {
    hide Pow2;
    Pow2Add(a, b);
    MulAssociates(value, Pow2(a), Pow2(b));
  }

  lemma {:induction false} FoldZeros(k: nat, rest: seq<string>, value: nat)
    requires AllHextets(rest) && AllHextets(Zeros(k) + rest)
    ensures FoldHextets(Zeros(k) + rest, value) == FoldHextets(rest, ShiftLeft(value, 16 * k))
    decreases k
  {
    if k == 0 {
      assert Zeros(0) + rest == rest && ShiftLeft(value, 0) == value;
    } else {
      var tail := Zeros(k - 1) + rest;
      assert Zeros(k) + rest == ["0"] + tail;
      hide IsHextet, FoldHextets, ShiftLeft;
      forall h | h in tail ensures IsHextet(h) { assert h in Zeros(k) + rest; }
      FoldOneZero(tail, value);
      FoldZeros(k - 1, rest, ShiftLeft(value, 16));
      ShiftAdd(value, 16, 16 * (k - 1));
    }
  }

  lemma HextetPieces(g: string)
    requires IsHextet(g)
    ensures Pieces(g) == [g] && CleanJoin(g) && ':' !in g && '.' !in g
    ensures forall c :: c in g ==> !IsBlankChar(c)
  {
    assert forall k :: 0 <= k < |g| ==> g[k] in g;
    IndexOfAppend(g, "", ':');
  }

  lemma ColonText(text: string, groups: seq<string>)
    requires FullGroups(text) == Some(groups) && AllHextets(groups) && ':' in text
    requires forall c :: c in text ==> c == ':' || IsHexDigit(c)
    ensures ParseIp(text) == Some(IpAddress(V6, FoldHextets(groups, 0)))
  {
    TrimNothing(text);
    NotDotted(text);
  }

  lemma LeadingGroups(g: string)
    requires IsHextet(g)
    ensures FullGroups(g + "::") == Some([g] + Zeros(7)) && ':' in g + "::"
  {
    HextetPieces(g);
    DoubleIsFound(g, "");
    FullGroupsAround(g, "", [g], []);
    hide Pieces, FullGroups, Zeros;
    assert g + "::" + "" == g + "::" && (g + "::")[|g|] == ':';
    assert [g] + Zeros(7) + [] == [g] + Zeros(7);
  }

  lemma LeadingValue(g: string)
    requires IsHextet(g)
    ensures AllHextets([g] + Zeros(7)) && FoldHextets([g] + Zeros(7), 0) == ShiftLeft(ValueOf(g, 16), 112)
  {
    var groups := [g] + (Zeros(7) + []);
    assert IsHextet("0") && groups == [g] + Zeros(7) && groups[1..] == Zeros(7) + [];
    hide Zeros;
    Pow2Values();
    HextetBound(g);
    OrDisjoint(0, ValueOf(g, 16), 16);
    FoldZeros(7, [], ValueOf(g, 16));
  }

  /** "g::" puts g in the top sixteen bits; "::g" puts it in the low ones. */
  lemma LeadingHextet(g: string)
    requires IsHextet(g)
    ensures ParseIp(g + "::") == Some(IpAddress(V6, ShiftLeft(ValueOf(g, 16), 112)))
  {
    hide FullGroups, Zeros, ParseIp, FoldHextets, ShiftLeft;
    LeadingGroups(g);
    LeadingValue(g);
    ColonText(g + "::", [g] + Zeros(7));
  }

  lemma TrailingGroups(g: string)
    requires IsHextet(g)
    ensures FullGroups("::" + g) == Some(Zeros(7) + [g]) && ':' in "::" + g
  {
    HextetPieces(g);
    DoubleIsFound("", g);
    FullGroupsAround("", g, [], [g]);
    hide Pieces, FullGroups, Zeros;
    assert "" + "::" + g == "::" + g && ("::" + g)[0] == ':';
    assert [] + Zeros(7) + [g] == Zeros(7) + [g];
  }

  lemma TrailingValue(g: string)
    requires IsHextet(g)
    ensures AllHextets(Zeros(7) + [g]) && FoldHextets(Zeros(7) + [g], 0) == ValueOf(g, 16)
  {
    assert IsHextet("0");
    assert [g][1..] == [];
    Pow2Values();
    HextetBound(g);
    FoldZeros(7, [g], 0);
    OrDisjoint(0, ValueOf(g, 16), 16);
    assert FoldHextets([g], 0) == ValueOf(g, 16);
    hide FoldHextets;
  }

  lemma TrailingHextet(g: string)
    requires IsHextet(g)
    ensures ParseIp("::" + g) == Some(IpAddress(V6, ValueOf(g, 16)))
  {
    hide FullGroups, Zeros, ParseIp, FoldHextets;
    TrailingGroups(g);
    TrailingValue(g);
    ColonText("::" + g, Zeros(7) + [g]);
  }

  /** No listed block has a shorter prefix. */
  function WidestPrivate(family: Family): nat { if family == V4 then 8 else 7 }

  /** The addresses from first on, size of them. */
  datatype AddressRange = AddressRange(first: nat, size: nat)

  /** The private ranges of each family, in the order of their texts: 10/8, 172.16/12, 192.168/16, loopback,
      link-local and shared addresses; unique local and link-local addresses and the loopback address. */
  function PrivateRanges(family: Family): seq<AddressRange> {
    if family == V4 then
      [AddressRange(10 * 0x1000000, Pow2(24)), AddressRange(172 * 0x1000000 + 16 * 0x10000, Pow2(20)),
       AddressRange(192 * 0x1000000 + 168 * 0x10000, Pow2(16)), AddressRange(127 * 0x1000000, Pow2(24)),
       AddressRange(169 * 0x1000000 + 254 * 0x10000, Pow2(16)), AddressRange(100 * 0x1000000 + 64 * 0x10000, Pow2(22))]
    else
      [AddressRange(0xfc00 * Pow2(112), Pow2(121)), AddressRange(0xfe80 * Pow2(112), Pow2(118)), AddressRange(1, 1)]
  }

  predicate IsRange(c: Cidr, range: AddressRange)
    requires c.prefix <= c.bits
  {
    c.base == range.first && CidrSize(c) == range.size
  }

  predicate Listed(texts: seq<string>, k: nat, family: Family)
    requires k < |texts| && k < |PrivateRanges(family)|
  {
    && ParseCidr(texts[k]).Some? && ParseCidr(texts[k]).value.family == family
    && ParseCidr(texts[k]).value.prefix >= WidestPrivate(family)
    && IsRange(ParseCidr(texts[k]).value, PrivateRanges(family)[k])
  }

  lemma AlignedBlock(family: Family, first: nat, n: nat)
    requires n <= BitsOf(family) && first < Pow2(BitsOf(family)) && first % Pow2(BitsOf(family) - n) == 0
    ensures var c := Block(IpAddress(family, first), n);
            c.prefix <= c.bits && IsRange(c, AddressRange(first, Pow2(BitsOf(family) - n)))
  {
    BlockIsValid(IpAddress(family, first), n);
    hide FormatIp, And, MaskFor, Pow2;
    assert CidrSize(Block(IpAddress(family, first), n)) == 1 * Pow2(BitsOf(family) - n);
  }

  lemma ListedV4(k: nat, head: string, a: nat, b: nat, prefix: string, n: nat)
    requires k < 6 && a < 256 && b < 256 && head == Decimal(a) + "." + Decimal(b)
    requires IsShortDecimal(prefix) && ValueOf(prefix, 10) == n && 8 <= n <= 32
    requires PRIVATE_V4[k] == head + ".0.0" + "/" + prefix
    requires PrivateRanges(V4)[k] == AddressRange((a * 256 + b) * 0x10000, Pow2(32 - n))
    requires (a * 256 + b) * 0x10000 % Pow2(32 - n) == 0 && (a * 256 + b) * 0x10000 < Pow2(32)
    ensures Listed(PRIVATE_V4, k, V4)
  {
    hide Pow2, ParseCidr, IsRange, PrivateRanges, Decimal;
    DottedBlock(head, a, b, prefix, n);
    AlignedBlock(V4, (a * 256 + b) * 0x10000, n);
  }

  lemma ListedV6(k: nat, address: string, first: nat, prefix: string)
    requires k < 3 && ParseIp(address) == Some(IpAddress(V6, first))
    requires forall c :: c in address ==> !IsBlankChar(c)
    requires IsShortDecimal(prefix) && 7 <= ValueOf(prefix, 10) <= 128
    requires PRIVATE_V6[k] == address + "/" + prefix
    requires first < Pow2(128) && first % Pow2(128 - ValueOf(prefix, 10)) == 0
    requires PrivateRanges(V6)[k] == AddressRange(first, Pow2(128 - ValueOf(prefix, 10)))
    ensures Listed(PRIVATE_V6, k, V6)
  {
    hide Pow2, ParseCidr, IsRange, PrivateRanges, ParseIp;
    ParseSlashed(address, IpAddress(V6, first), prefix);
    AlignedBlock(V6, first, ValueOf(prefix, 10));
  }

  lemma BlockSizes()
    ensures Pow2(32) == 0x1_0000_0000 && Pow2(24) == 0x100_0000 && Pow2(22) == 0x40_0000 && Pow2(20) == 0x10_0000
    ensures Pow2(16) == 0x1_0000
  {
    Pow2Values();
    assert Pow2(4) == 16;
    hide Pow2;
    Pow2Add(16, 4);
    Pow2Add(16, 6);
  }

  lemma FirstRanges()
    ensures PrivateRanges(V4)[0] == AddressRange((10 * 256 + 0) * 0x10000, Pow2(24))
    ensures PrivateRanges(V4)[1] == AddressRange((172 * 256 + 16) * 0x10000, Pow2(20))
    ensures PrivateRanges(V4)[2] == AddressRange((192 * 256 + 168) * 0x10000, Pow2(16))
    ensures PrivateRanges(V4)[3] == AddressRange((127 * 256 + 0) * 0x10000, Pow2(24))
    ensures PrivateRanges(V4)[4] == AddressRange((169 * 256 + 254) * 0x10000, Pow2(16))
    ensures PrivateRanges(V4)[5] == AddressRange((100 * 256 + 64) * 0x10000, Pow2(22))
  {
    hide Pow2;
  }

  lemma PrivateV4BlocksLow()
    ensures forall k :: 0 <= k < 2 ==> Listed(PRIVATE_V4, k, V4)
  {
    BlockSizes();
    hide Listed, Pow2, PrivateRanges;
    FirstRanges();
    ListedV4(0, "10.0", 10, 0, "8", 8);
    ListedV4(1, "172.16", 172, 16, "12", 12);
  }

  lemma PrivateV4BlocksMiddle()
    ensures forall k :: 2 <= k < 4 ==> Listed(PRIVATE_V4, k, V4)
  {
    BlockSizes();
    hide Listed, Pow2, PrivateRanges;
    FirstRanges();
    ListedV4(2, "192.168", 192, 168, "16", 16);
    ListedV4(3, "127.0", 127, 0, "8", 8);
  }

  lemma PrivateV4BlocksHigh()
    ensures forall k :: 4 <= k < 6 ==> Listed(PRIVATE_V4, k, V4)
  {
    BlockSizes();
    hide Listed, Pow2, PrivateRanges;
    FirstRanges();
    ListedV4(4, "169.254", 169, 254, "16", 16);
    ListedV4(5, "100.64", 100, 64, "10", 10);
  }

  lemma PrivateV6Texts()
    ensures PRIVATE_V6[0] == "fc00" + "::" + "/" + "7"
            && PRIVATE_V6[1] == "fe80" + "::" + "/" + "10" && PRIVATE_V6[2] == "::" + "1" + "/" + "128"
    ensures IsHextet("fc00") && IsHextet("fe80") && IsHextet("1")
  {
  }

  lemma PrivateV6Prefixes()
    ensures IsShortDecimal("7") && ValueOf("7", 10) == 7 && IsShortDecimal("10") && ValueOf("10", 10) == 10
    ensures IsShortDecimal("128") && ValueOf("128", 10) == 128
  {
    assert "128"[..2] == "12" && "12"[..1] == "1";
  }

  lemma ProductMod(q: nat, m: nat)
    requires m > 0
    ensures q * m % m == 0
  {
    DivModUnique(q * m, m, q, 0);
  }

  lemma ProductOf(h: nat, q: nat, small: nat, unit: nat, full: nat)
    requires h == q * small && full == small * unit && full > 0
    ensures h * unit % full == 0
  {
    MulAssociates(q, small, unit);
    ProductMod(q, full);
  }

  lemma ProductBelow(h: nat, limit: nat, unit: nat)
    requires h < limit && unit > 0
    ensures h * unit < limit * unit
  {
    MulMono(unit, h + 1, limit);
  }

  /** A number shifted left by low bits is a multiple of every 2^n that divides it with the shift. */
  lemma AlignedShift(h: nat, q: nat, low: nat, n: nat, top: nat)
    requires low <= n && low <= top && h == q * Pow2(n - low) && h < Pow2(top - low)
    ensures h * Pow2(low) % Pow2(n) == 0 && h * Pow2(low) < Pow2(top)
  {
    hide Pow2;
    Pow2Add(n - low, low);
    Pow2Add(top - low, low);
    ProductOf(h, q, Pow2(n - low), Pow2(low), Pow2(n));
    ProductBelow(h, Pow2(top - low), Pow2(low));
  }

  lemma V6Alignment()
    ensures 0xfc00 * Pow2(112) % Pow2(121) == 0 && 0xfc00 * Pow2(112) < Pow2(128)
    ensures 0xfe80 * Pow2(112) % Pow2(118) == 0 && 0xfe80 * Pow2(112) < Pow2(128)
    ensures Pow2(0) == 1 && 1 < Pow2(128)
  {
    assert Pow2(0) == 1 && Pow2(9) == 512 && Pow2(6) == 64;
    Pow2Values();
    hide Pow2;
    AlignedShift(0xfc00, 126, 112, 121, 128);
    AlignedShift(0xfe80, 1018, 112, 118, 128);
    Pow2StrictlyMonotonic(0, 128);
  }

  lemma HextetValues()
    ensures ValueOf("fc00", 16) == 0xfc00 && ValueOf("fe80", 16) == 0xfe80 && ValueOf("1", 16) == 1
  {
    assert "fc00"[..3] == "fc0" && "fc0"[..2] == "fc" && "fc"[..1] == "f" && "f"[..0] == "";
    assert "fe80"[..3] == "fe8" && "fe8"[..2] == "fe" && "fe"[..1] == "f" && "1"[..0] == "";
  }

  lemma PrivateV6Blocks()
    ensures forall k :: 0 <= k < 3 ==> Listed(PRIVATE_V6, k, V6)
  {
    PrivateV6Texts();
    PrivateV6Prefixes();
    HextetValues();
    V6Alignment();
    hide Listed, ParseIp, IsHextet, ValueOf, PRIVATE_V6, Pow2;
    LeadingHextet("fc00");
    ListedV6(0, "fc00" + "::", 0xfc00 * Pow2(112), "7");
    LeadingHextet("fe80");
    ListedV6(1, "fe80" + "::", 0xfe80 * Pow2(112), "10");
    TrailingHextet("1");
    ListedV6(2, "::" + "1", 1, "128");
  }

  /** Every listed private block parses, so none of them is skipped. */
  lemma PrivateBlocks()
    ensures forall family, text :: text in PrivateTexts(family) ==>
              ParseCidr(text).Some? && ParseCidr(text).value.family == family
              && ParseCidr(text).value.prefix >= WidestPrivate(family)
  {
    hide ParseCidr;
    PrivateV4BlocksLow();
    PrivateV4BlocksMiddle();
    PrivateV4BlocksHigh();
    PrivateV6Blocks();
    forall family, text | text in PrivateTexts(family)
      ensures ParseCidr(text).Some? && ParseCidr(text).value.family == family
      ensures ParseCidr(text).value.prefix >= WidestPrivate(family)
    {
      var k :| 0 <= k < |PrivateTexts(family)| && PrivateTexts(family)[k] == text;
      assert Listed(PrivateTexts(family), k, family);
    }
  }

  /** A block is private exactly when every address of it lies in one listed private block. */
  lemma PrivateMeansInsideOneBlock(c: Cidr)
    requires ValidCidr(c)
    ensures IsPrivateCidr(c) <==>
            exists text :: text in PrivateTexts(c.family) && ParseCidr(text).Some? && Covers(ParseCidr(text).value, c)
  {
    hide ParseCidr, And, MaskFor, FormatIp, Covers;
    PrivateBlocks();
    forall text | text in PrivateTexts(c.family) && ParseCidr(text).Some? && ParseCidr(text).value.family == c.family
      ensures FitsBlock(c, ParseCidr(text).value) <==> Covers(ParseCidr(text).value, c)
    {
      ParsedCidrIsValid(text);
      FitsIsIntervalInclusion(c, ParseCidr(text).value);
      CoversIsIntervalInclusion(ParseCidr(text).value, c);
    }
  }

  lemma ListedBlocks(family: Family, k: nat)
    requires k < |PrivateTexts(family)|
    ensures |PrivateTexts(family)| == |PrivateRanges(family)| && Listed(PrivateTexts(family), k, family)
  {
    hide Listed;
    PrivateV4BlocksLow();
    PrivateV4BlocksMiddle();
    PrivateV4BlocksHigh();
    PrivateV6Blocks();
  }

  lemma ListedIsRange(c: Cidr, k: nat)
    requires ValidCidr(c) && k < |PrivateTexts(c.family)|
    ensures |PrivateTexts(c.family)| == |PrivateRanges(c.family)|
    ensures var text, range := PrivateTexts(c.family)[k], PrivateRanges(c.family)[k];
            ParseCidr(text).Some? && ParseCidr(text).value.family == c.family
            && (Covers(ParseCidr(text).value, c)
                <==> range.first <= c.base && c.base + CidrSize(c) <= range.first + range.size)
  {
    ListedBlocks(c.family, k);
    hide ParseCidr, FormatIp, Covers, PrivateTexts, PrivateRanges, CidrSize, ValidCidr;
    var text := PrivateTexts(c.family)[k];
    ParsedCidrIsValid(text);
    CoversIsIntervalInclusion(ParseCidr(text).value, c);
  }

  predicate InsideRange(c: Cidr, range: AddressRange)
    requires c.prefix <= c.bits
  {
    range.first <= c.base && c.base + CidrSize(c) <= range.first + range.size
  }

  ghost predicate InText(c: Cidr, text: string)
    requires c.prefix <= c.bits
  {
    ParseCidr(text).Some? && Covers(ParseCidr(text).value, c)
  }

  ghost predicate CoveredBy(c: Cidr, k: nat)
    requires c.prefix <= c.bits && k < |PrivateTexts(c.family)|
  {
    InText(c, PrivateTexts(c.family)[k])
  }

  lemma PrivateIsInText(c: Cidr)
    requires ValidCidr(c)
    ensures IsPrivateCidr(c) <==> exists text :: text in PrivateTexts(c.family) && InText(c, text)
  {
    PrivateMeansInsideOneBlock(c);
    hide ParseCidr, Covers, PrivateTexts, IsPrivateCidr, ValidCidr;
  }

  lemma PrivateIsCovered(c: Cidr)
    requires ValidCidr(c)
    ensures IsPrivateCidr(c) <==> exists k: nat :: k < |PrivateTexts(c.family)| && CoveredBy(c, k)
  {
    PrivateIsInText(c);
    hide InText, PrivateTexts, IsPrivateCidr, ValidCidr;
    var texts := PrivateTexts(c.family);
    if text :| text in texts && InText(c, text) {
      var k: nat :| k < |texts| && texts[k] == text;
      assert CoveredBy(c, k);
    }
  }

  /** A block is private exactly when it lies inside one of the nine private ranges. */
  lemma PrivateExactly(c: Cidr)
    requires ValidCidr(c)
    ensures IsPrivateCidr(c) <==> exists range :: range in PrivateRanges(c.family) && InsideRange(c, range)
  {
    PrivateIsCovered(c);
    var texts, ranges := PrivateTexts(c.family), PrivateRanges(c.family);
    forall k: nat | k < |texts| ensures |texts| == |ranges| && (CoveredBy(c, k) <==> InsideRange(c, ranges[k])) {
      ListedIsRange(c, k);
      hide ParseCidr, Covers, PrivateTexts, PrivateRanges, ValidCidr;
    }
    assert |texts| == |ranges| by { ListedIsRange(c, 0); }
    hide PrivateTexts, PrivateRanges, InsideRange, IsPrivateCidr, ValidCidr, CoveredBy;
    if range :| range in ranges && InsideRange(c, range) {
      var k: nat :| k < |ranges| && ranges[k] == range;
      assert CoveredBy(c, k);
    }
    if k: nat :| k < |texts| && CoveredBy(c, k) { assert ranges[k] in ranges; }
  }
}
