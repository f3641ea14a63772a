/** IP addresses and CIDR blocks as text: the IPv4 and IPv6 parsers and printers of
    packages/shared/src/net/ip.ts, and the proofs that each pair undoes the other. */
module IpText {
  import opened Text
  import opened Bits

  datatype Family = V4 | V6

  datatype IpAddress = IpAddress(family: Family, value: nat)

  datatype Cidr = Cidr(family: Family, base: nat, prefix: nat, bits: nat, text: string)

  function BitsOf(family: Family): nat { if family == V4 then 32 else 128 }

  function MaskFor(prefix: nat, bits: nat): nat
    requires prefix <= bits
  {
    if prefix == 0 then 0
    else Xor(ShiftLeft(1, bits) - 1, ShiftLeft(1, bits - prefix) - 1)
  }

  /** Masking clears exactly the host bits. */
  lemma MaskRoundsDown(v: nat, prefix: nat, bits: nat)
    requires prefix <= bits && v < Pow2(bits)
    ensures And(v, MaskFor(prefix, bits)) == v - v % Pow2(bits - prefix)
  {
    hide And, Xor;
    if prefix == 0 {
      hide Pow2;
      Small(v, Pow2(bits));
      AndZero(v);
    } else {
      hide Pow2;
      calc {
        And(v, MaskFor(prefix, bits));
        { XorLowMasks(bits, bits - prefix); }
        And(v, Pow2(bits) - Pow2(bits - prefix));
        { AndHighMask(v, bits, bits - prefix); }
        v - v % Pow2(bits - prefix);
      }
    }
  }

  // ----- IPv4 -----

  predicate IsShortDecimal(s: string) {
    1 <= |s| <= 3 && forall c :: c in s ==> IsDigit(c)
  }

  function OctetOf(part: string): (r: Option<nat>)
    ensures r.Some? ==> r.value < 256
  {
    if !IsShortDecimal(part) then None
    else if ValueOf(part, 10) > 255 then None
    else if |part| > 1 && part[0] == '0' then None
    else Some(ValueOf(part, 10))
  }

  function FoldOctets(parts: seq<string>, value: nat): Option<nat> {
    if parts == [] then Some(value)
    else
      match OctetOf(parts[0])
      case None => None
      case Some(octet) => FoldOctets(parts[1..], Or(ShiftLeft(value, 8), octet))
  }

  /** The number an IPv4 text denotes. */
  function Ipv4Value(input: string): Option<nat> {
    var parts := Split(input, '.');
    if |parts| != 4 then None else FoldOctets(parts, 0)
  }

  method ParseIpv4(input: string) returns (r: Option<nat>)
    ensures r == Ipv4Value(input)
  {
    var parts := Split(input, '.');
    if |parts| != 4 { return None; }
    var value := 0;
    for i := 0 to |parts|
      invariant FoldOctets(parts[i..], value) == Ipv4Value(input)
    {
      var part := parts[i];
      assert parts[i..][0] == part && parts[i..][1..] == parts[i + 1..];
      if !IsShortDecimal(part) { return None; }
      var octet := ValueOf(part, 10);
      if octet > 255 { return None; }
      if |part| > 1 && part[0] == '0' { return None; }
      value := Or(ShiftLeft(value, 8), octet);
    }
    return Some(value);
  }

  function OctetText(v: nat, shift: nat): string { Decimal(And(ShiftRight(v, shift), 0xff)) }

  function FormatIpv4(v: nat): string {
    Join([OctetText(v, 24), OctetText(v, 16), OctetText(v, 8), OctetText(v, 0)], '.')
  }

  lemma DecimalIsShort(n: nat)
    requires n < 1000
    ensures IsShortDecimal(Decimal(n)) && ValueOf(Decimal(n), 10) == n
    ensures |Decimal(n)| > 1 ==> Decimal(n)[0] != '0'
  {
    ValueOfNumeral(n, 10);
    assert n < 10 ==> |Numeral(n, 10)| == 1;
    assert n < 100 ==> |Numeral(n, 10)| <= 2;
    var m := n / 10;
    assert m < 100 && m / 10 < 10 && |Numeral(m / 10, 10)| == 1;
    assert |Numeral(m, 10)| <= 2;
  }

  lemma OctetRoundTrip(n: nat)
    requires n < 256
    ensures OctetOf(Decimal(n)) == Some(n) && '.' !in Decimal(n)
  {
    DecimalIsShort(n);
  }

  lemma FoldDecimal(n: nat, rest: seq<string>, value: nat, next: nat)
    requires n < 256 && next == value * 256 + n
    ensures FoldOctets([Decimal(n)] + rest, value) == FoldOctets(rest, next)
  {
    OctetRoundTrip(n);
    Pow2Values();
    OrDisjoint(value, n, 8);
    assert ([Decimal(n)] + rest)[1..] == rest;
  }

  lemma FoldFour(a: nat, b: nat, c: nat, d: nat, v: nat)
    requires a < 256 && b < 256 && c < 256 && d < 256
    requires v == ((a * 256 + b) * 256 + c) * 256 + d
    ensures Ipv4Value(Join([Decimal(a), Decimal(b), Decimal(c), Decimal(d)], '.')) == Some(v)
  {
    var parts := [Decimal(a), Decimal(b), Decimal(c), Decimal(d)];
    OctetRoundTrip(a); OctetRoundTrip(b); OctetRoundTrip(c); OctetRoundTrip(d);
    SplitJoin(parts, '.');
    FoldParts(parts, a, b, c, d, v);
  }

  lemma FoldParts(parts: seq<string>, a: nat, b: nat, c: nat, d: nat, v: nat)
    requires a < 256 && b < 256 && c < 256 && d < 256
    requires v == ((a * 256 + b) * 256 + c) * 256 + d
    requires parts == [Decimal(a), Decimal(b), Decimal(c), Decimal(d)]
    ensures FoldOctets(parts, 0) == Some(v)
  {
    var p3 := [Decimal(d)] + [];
    var p2 := [Decimal(c)] + p3;
    var p1 := [Decimal(b)] + p2;
    assert parts == [Decimal(a)] + p1;
    var x := a * 256 + b;
    var y := x * 256 + c;
    calc {
      FoldOctets(parts, 0);
      { FoldDecimal(a, p1, 0, a); }
      FoldOctets(p1, a);
      { FoldDecimal(b, p2, a, x); }
      FoldOctets(p2, x);
      { FoldDecimal(c, p3, x, y); }
      FoldOctets(p3, y);
      { FoldDecimal(d, [], y, v); }
      FoldOctets([], v);
    }
  }

  lemma OctetIs(v: nat, shift: nat)
    ensures OctetText(v, shift) == Decimal(v / Pow2(shift) % 256)
  {
    Pow2Values();
    ShiftMask(v, shift, 8);
  }

  /** Parsing undoes printing, for every 32-bit value. */
  lemma Ipv4RoundTrip(v: nat)
    requires v < Pow2(32)
    ensures Ipv4Value(FormatIpv4(v)) == Some(v)
  {
    var a, b, c, d := FormatIs(v);
    FoldFour(a, b, c, d, v);
  }

  lemma FormatIs(v: nat) returns (a: nat, b: nat, c: nat, d: nat)
    requires v < Pow2(32)
    ensures a < 256 && b < 256 && c < 256 && d < 256
    ensures v == ((a * 256 + b) * 256 + c) * 256 + d
    ensures FormatIpv4(v) == Join([Decimal(a), Decimal(b), Decimal(c), Decimal(d)], '.')
  {
    a, b, c, d := v / 256 / 256 / 256, v / 256 / 256 % 256, v / 256 % 256, v % 256;
    NestedQuotients(v);
    assert OctetText(v, 24) == Decimal(a) by { OctetIs(v, 24); Small(a, 256); }
    assert OctetText(v, 16) == Decimal(b) by { OctetIs(v, 16); }
    assert OctetText(v, 8) == Decimal(c) by { OctetIs(v, 8); }
    assert OctetText(v, 0) == Decimal(d) by { OctetIs(v, 0); }
  }

  lemma NestedQuotients(v: nat)
    requires v < Pow2(32)
    ensures v / Pow2(0) == v && v / Pow2(8) == v / 256
    ensures v / Pow2(16) == v / 256 / 256 && v / Pow2(24) == v / 256 / 256 / 256
    ensures v / 256 / 256 / 256 < 256
    ensures v == ((v / 256 / 256 / 256 * 256 + v / 256 / 256 % 256) * 256 + v / 256 % 256) * 256 + v % 256
  {
    Pow2Values();
  }

  lemma ShiftedBelow(value: nat, octet: nat, n: nat)
    requires value < Pow2(n) && octet < 256
    ensures ShiftLeft(value, 8) + octet < Pow2(n + 8)
  {
    Pow2Values();
    Pow2Add(n, 8);
  }

  lemma {:induction false} FoldOctetsBound(parts: seq<string>, value: nat, n: nat)
    requires value < Pow2(n) && FoldOctets(parts, value).Some?
    ensures FoldOctets(parts, value).value < Pow2(n + 8 * |parts|)
    decreases |parts|
  {
    hide Or, ShiftLeft, OctetOf;
    if parts != [] {
      var octet := OctetOf(parts[0]).value;
      Pow2Values();
      Pow2Add(n, 8);
      OrDisjoint(value, octet, 8);
      ShiftedBelow(value, octet, n);
      FoldOctetsBound(parts[1..], Or(ShiftLeft(value, 8), octet), n + 8);
      assert n + 8 + 8 * |parts[1..]| == n + 8 * |parts|;
    }
  }

  lemma Ipv4Bound(input: string)
    requires Ipv4Value(input).Some?
    ensures Ipv4Value(input).value < Pow2(32)
  {
    hide FoldOctets, Split;
    FoldOctetsBound(Split(input, '.'), 0, 0);
  }

  // ----- IPv6 -----

  predicate DoubleColonAt(s: string, i: nat) { i + 1 < |s| && s[i] == ':' && s[i + 1] == ':' }

  /** Index of the first "::", or |s|. */
  function FirstDouble(s: string, from: nat := 0): (i: nat)
    requires from <= |s|
    ensures from <= i <= |s|
    ensures i < |s| ==> DoubleColonAt(s, i)
    ensures forall k :: from <= k < i ==> !DoubleColonAt(s, k)
    decreases |s| - from
  {
    if from == |s| || DoubleColonAt(s, from) then from else FirstDouble(s, from + 1)
  }

  /** Index of the last "::" that starts before upTo, or |s|. */
  function LastDouble(s: string, upTo: nat): (i: nat)
    requires upTo <= |s|
    ensures i <= |s|
    ensures i < |s| ==> i < upTo && DoubleColonAt(s, i) && forall k :: i < k < upTo ==> !DoubleColonAt(s, k)
    ensures i == |s| ==> forall k :: 0 <= k < upTo ==> !DoubleColonAt(s, k)
  {
    if upTo == 0 then |s|
    else if DoubleColonAt(s, upTo - 1) then upTo - 1
    else LastDouble(s, upTo - 1)
  }

  predicate IsHextet(s: string) {
    1 <= |s| <= 4 && forall c :: c in s ==> IsHexDigit(c)
  }

  predicate LooksLikeIpv4(s: string) {
    var parts := Split(s, '.');
    |parts| == 4 && forall p :: p in parts ==> IsShortDecimal(p)
  }

  /** Replaces a dotted IPv4 tail by two hextets. */
  function ExpandIpv4Tail(text: string): Option<string> {
    var colon := LastIndexOf(text, ':');
    if colon < |text| && LooksLikeIpv4(text[colon + 1..]) then
      match Ipv4Value(text[colon + 1..])
      case None => None
      case Some(v4) =>
        var high := And(ShiftRight(v4, 16), 0xffff);
        var low := And(v4, 0xffff);
        Some(text[..colon] + ":" + Numeral(high, 16) + ":" + Numeral(low, 16))
    else Some(text)
  }

  function Pieces(text: string): seq<string> { if text == "" then [] else Split(text, ':') }

  function Zeros(n: nat): (z: seq<string>)
    ensures |z| == n
  {
    seq(n, _ => "0")
  }

  predicate AllHextets(groups: seq<string>) { forall g :: g in groups ==> IsHextet(g) }

  /** The eight groups an IPv6 text denotes once "::" is filled in. */
  function FullGroups(text: string): Option<seq<string>> {
    var double := FirstDouble(text);
    if double != LastDouble(text, |text|) then None
    else
      var head := if double == |text| then Split(text, ':') else Pieces(text[..double]);
      var tail := if double == |text| then [] else Pieces(text[double + 2..]);
      var groups := head + tail;
      if |groups| > 8 then None
      else if double == |text| && |groups| != 8 then None
      else if !AllHextets(groups) then None
      else Some(head + Zeros(8 - |groups|) + tail)
  }

  function FoldHextets(groups: seq<string>, value: nat): nat
    requires AllHextets(groups)
  {
    if groups == [] then value
    else
      assert IsHextet(groups[0]);
      FoldHextets(groups[1..], Or(ShiftLeft(value, 16), ValueOf(groups[0], 16)))
  }

  lemma FullGroupsAreHextets(text: string)
    requires FullGroups(text).Some?
    ensures |FullGroups(text).value| == 8
    ensures AllHextets(FullGroups(text).value)
  {
    assert IsHextet("0");
    var double := FirstDouble(text);
    var head := if double == |text| then Split(text, ':') else Pieces(text[..double]);
    var tail := if double == |text| then [] else Pieces(text[double + 2..]);
    assert forall g :: g in head + tail ==> IsHextet(g);
    forall g | g in FullGroups(text).value ensures IsHextet(g) {
      assert g in head + tail || g in Zeros(8 - |head + tail|);
    }
  }

  /** The number an IPv6 text denotes. */
  function Ipv6Value(input: string): Option<nat> {
    match ExpandIpv4Tail(input)
    case None => None
    case Some(text) =>
      match FullGroups(text)
      case None => None
      case Some(groups) =>
        FullGroupsAreHextets(text);
        Some(FoldHextets(groups, 0))
  }

  method ParseIpv6(input: string) returns (r: Option<nat>)
    ensures r == Ipv6Value(input)
  {
    var text := ExpandIpv4Tail(input);
    if text.None? { return None; }
    var full := FindGroups(text.value);
    if full.None? { return None; }
    FullGroupsAreHextets(text.value);
    var value := CombineHextets(full.value);
    return Some(value);
  }

  method FindGroups(text: string) returns (full: Option<seq<string>>)
    ensures full == FullGroups(text)
  {
    hide FirstDouble, LastDouble, Split, Pieces, AllHextets;
    var double := FirstDouble(text);
    if double != LastDouble(text, |text|) { return None; }
    var head, tail := Split(text, ':'), [];
    if double != |text| {
      head, tail := Pieces(text[..double]), Pieces(text[double + 2..]);
    }
    var groups := head + tail;
    if |groups| > 8 { return None; }
    if double == |text| && |groups| != 8 { return None; }
    var clean := CheckHextets(groups);
    if !clean { return None; }
    return Some(head + Zeros(8 - |groups|) + tail);
  }

  method CheckHextets(groups: seq<string>) returns (ok: bool)
    ensures ok == AllHextets(groups)
  {
    for i := 0 to |groups|
      invariant forall k :: 0 <= k < i ==> IsHextet(groups[k])
    {
      if !IsHextet(groups[i]) {
        assert groups[i] in groups;
        return false;
      }
    }
    return true;
  }

  method CombineHextets(full: seq<string>) returns (value: nat)
    requires AllHextets(full)
    ensures value == FoldHextets(full, 0)
  {
    value := 0;
    for i := 0 to |full|
      invariant FoldHextets(full[i..], value) == FoldHextets(full, 0)
    {
      assert IsHextet(full[i]) && full[i..][0] == full[i] && full[i..][1..] == full[i + 1..];
      value := Or(ShiftLeft(value, 16), ValueOf(full[i], 16));
    }
  }

  function HextetText(v: nat, i: nat): string { Numeral(And(ShiftRight(v, i * 16), 0xffff), 16) }

  function Hextets(v: nat): (groups: seq<string>)
    ensures |groups| == 8
  {
    seq(8, k requires 0 <= k < 8 => HextetText(v, 7 - k))
  }

  /** State of the scan for the longest run of zero groups. */
  datatype Scan = Scan(bestStart: int, bestLength: nat, start: int, length: nat)

  function ScanStep(s: Scan, i: nat, group: string): Scan {
    if group == "0" then
      var start := if s.start == -1 then i else s.start;
      var length := s.length + 1;
      if length > s.bestLength then Scan(start, length, start, length)
      else s.(start := start, length := length)
    else s.(start := -1, length := 0)
  }

  function ScanOf(groups: seq<string>): Scan {
    if groups == [] then Scan(-1, 0, -1, 0)
    else ScanStep(ScanOf(groups[..|groups| - 1]), |groups| - 1, groups[|groups| - 1])
  }

  predicate IsZeroRun(groups: seq<string>, start: int, length: int) {
    0 <= start && 0 < length && start + length <= |groups| &&
    forall k :: start <= k < start + length ==> groups[k] == "0"
  }

  /** What RFC 5952, section 4.2, asks for: the longest run, and the leftmost of those. */
  ghost predicate LeftmostLongest(groups: seq<string>, start: int, length: int) {
    && (length == 0 ==> start == -1)
    && (length > 0 ==> IsZeroRun(groups, start, length))
    && forall s, n :: IsZeroRun(groups, s, n) ==> n < length || (n == length && start <= s)
  }

  /** The best run so far is the leftmost longest, and the current run is the one that ends the groups. */
  ghost predicate Scanned(groups: seq<string>, s: Scan) {
    && LeftmostLongest(groups, s.bestStart, s.bestLength)
    && s.length <= |groups|
    && s.start == (if s.length == 0 then -1 else |groups| - s.length)
    && (s.length > 0 ==> IsZeroRun(groups, s.start, s.length))
    && (s.length < |groups| ==> groups[|groups| - s.length - 1] != "0")
  }

  lemma RunsOfMore(init: seq<string>, group: string, t: int, m: int)
    ensures t + m <= |init| ==> (IsZeroRun(init + [group], t, m) <==> IsZeroRun(init, t, m))
  {
    var groups := init + [group];
    assert groups[|init|] == group && forall k :: 0 <= k < |init| ==> groups[k] == init[k];
  }

  lemma CurrentRunIsLongest(groups: seq<string>, length: nat, t: int, m: int)
    requires length < |groups| ==> groups[|groups| - length - 1] != "0"
    requires IsZeroRun(groups, t, m) && t + m == |groups|
    ensures m <= length
  {
  }

  lemma ScanStepKeeps(init: seq<string>, group: string, p: Scan)
    requires Scanned(init, p)
    ensures Scanned(init + [group], ScanStep(p, |init|, group))
  {
    var groups, s := init + [group], ScanStep(p, |init|, group);
    assert groups[|init|] == group && forall k :: 0 <= k < |init| ==> groups[k] == init[k];
    forall t, m ensures t + m <= |init| ==> (IsZeroRun(groups, t, m) <==> IsZeroRun(init, t, m)) {
      RunsOfMore(init, group, t, m);
    }
    assert s.length > 0 ==> IsZeroRun(groups, s.start, s.length);
    forall t, m | IsZeroRun(groups, t, m) && t + m == |groups| ensures m <= s.length && group == "0" {
      CurrentRunIsLongest(groups, s.length, t, m);
    }
    hide IsZeroRun;
  }

  lemma {:induction false} ScanFindsLeftmostLongest(groups: seq<string>)
    ensures Scanned(groups, ScanOf(groups))
  {
    if groups != [] {
      var init := groups[..|groups| - 1];
      ScanFindsLeftmostLongest(init);
      ScanStepKeeps(init, groups[|groups| - 1], ScanOf(init));
      assert groups == init + [groups[|groups| - 1]];
    }
  }

  function Ipv6Text(v: nat): string {
    var groups := Hextets(v);
    var s := ScanOf(groups);
    ScanFindsLeftmostLongest(groups);
    if s.bestLength < 2 then Join(groups, ':')
    else Join(groups[..s.bestStart], ':') + "::" + Join(groups[s.bestStart + s.bestLength..], ':')
  }

  method FormatIpv6(v: nat) returns (text: string)
    ensures text == Ipv6Text(v)
  {
    var groups: seq<string> := [];
    for i := 8 downto 0
      invariant groups == Hextets(v)[..8 - i]
    {
      groups := groups + [Numeral(And(ShiftRight(v, i * 16), 0xffff), 16)];
    }
    var bestStart, bestLength, start, length := -1, 0, -1, 0;
    for i := 0 to |groups|
      invariant Scan(bestStart, bestLength, start, length) == ScanOf(groups[..i])
    {
      assert groups[..i + 1][..i] == groups[..i];
      if groups[i] == "0" {
        if start == -1 { start := i; }
        length := length + 1;
        if length > bestLength { bestStart, bestLength := start, length; }
      } else {
        start, length := -1, 0;
      }
    }
    assert groups[..|groups|] == groups == Hextets(v);
    ScanFindsLeftmostLongest(groups);
    if bestLength < 2 { return Join(groups, ':'); }
    return Join(groups[..bestStart], ':') + "::" + Join(groups[bestStart + bestLength..], ':');
  }

  // ----- addresses and blocks -----

  function ParseIp(input: string): Option<IpAddress> {
    var text := Trim(input);
    if text == "" then None
    else if ':' in text then Ipv6Value(text).GetOr(v => Some(IpAddress(V6, v)), None)
    else Ipv4Value(text).GetOr(v => Some(IpAddress(V4, v)), None)
  }

  function FormatIp(family: Family, value: nat): string {
    if family == V4 then FormatIpv4(value) else Ipv6Text(value)
  }

  /** "10.0.0.0/8", "2001:db8::/32" or a bare address, which stands for the full prefix. */
  function ParseCidr(input: string): (r: Option<Cidr>)
    ensures r.Some? ==> r.value.prefix <= r.value.bits
  {
    var text := Trim(input);
    if text == "" then None
    else
      var slash := LastIndexOf(text, '/');
      match ParseIp(text[..slash])
      case None => None
      case Some(address) =>
        var bits := BitsOf(address.family);
        if slash == |text| then Some(Block(address, bits))
        else if !IsShortDecimal(text[slash + 1..]) then None
        else
          var prefix := ValueOf(text[slash + 1..], 10);
          if prefix > bits then None else Some(Block(address, prefix))
  }

  function Block(address: IpAddress, prefix: nat): Cidr
    requires prefix <= BitsOf(address.family)
  {
    var bits := BitsOf(address.family);
    var base := And(address.value, MaskFor(prefix, bits));
    Cidr(address.family, base, prefix, bits, FormatIp(address.family, base) + "/" + Decimal(prefix))
  }
}
