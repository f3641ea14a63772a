/** Which texts are IPv6 addresses and what they denote, stated without the parser's scan. */
module IpForms {
  import opened Text
  import opened Bits
  import opened IpText
  import opened IpRoundTrip

  // ----- the groups of a text -----

  /** Eight groups written out, or fewer with "::" for the zero groups left out. */
  ghost predicate Writes(text: string, groups: seq<string>) {
    |groups| == 8 && AllHextets(groups)
    && (text == Join(groups, ':')
        || exists head, tail :: WritesAround(text, groups, head, tail))
  }

  ghost predicate WritesAround(text: string, groups: seq<string>, head: seq<string>, tail: seq<string>) {
    && |head| + |tail| <= 8
    && groups == head + Zeros(8 - |head| - |tail|) + tail
    && text == Join(head, ':') + "::" + Join(tail, ':')
  }

  lemma PiecesJoin(text: string)
    ensures Join(Pieces(text), ':') == text
  {
    if text != "" { JoinSplit(text, ':'); }
  }

  lemma PartsAreHextets(head: seq<string>, tail: seq<string>, groups: seq<string>)
    requires |head| + |tail| <= 8 && groups == head + Zeros(8 - |head| - |tail|) + tail && AllHextets(groups)
    ensures AllHextets(head) && AllHextets(tail) && AllHextets(head + tail)
  {
    forall g | g in head || g in tail ensures IsHextet(g) { assert g in groups; }
    hide IsHextet;
  }

  lemma WrittenIsRead(text: string, groups: seq<string>)
    requires Writes(text, groups)
    ensures FullGroups(text) == Some(groups)
  {
    hide FullGroups, IsHextet, Pieces, Zeros;
    if text == Join(groups, ':') {
      FullGroupsPlain(groups);
    } else {
      var head, tail :| WritesAround(text, groups, head, tail);
      PartsAreHextets(head, tail, groups);
      JoinIsClean(head);
      JoinIsClean(tail);
      DoubleIsFound(Join(head, ':'), Join(tail, ':'));
      PiecesOfJoin(head);
      PiecesOfJoin(tail);
      FullGroupsAround(Join(head, ':'), Join(tail, ':'), head, tail);
      assert |head + tail| == |head| + |tail|;
    }
  }

  lemma ReadIsWritten(text: string)
    requires FullGroups(text).Some?
    ensures Writes(text, FullGroups(text).value)
  {
    FullGroupsAreHextets(text);
    var groups, double := FullGroups(text).value, FirstDouble(text);
    hide IsHextet, AllHextets;
    if double == |text| {
      JoinSplit(text, ':');
      var all := Split(text, ':');
      assert all + Zeros(0) + [] == all && all + [] == all;
    } else {
      var head, tail := Pieces(text[..double]), Pieces(text[double + 2..]);
      PiecesJoin(text[..double]);
      PiecesJoin(text[double + 2..]);
      hide Pieces, FullGroups, Join;
      assert text == text[..double] + "::" + text[double + 2..];
      assert WritesAround(text, groups, head, tail);
    }
  }

  /** Exactly the texts that write eight groups, with or without "::", are read, and as those groups. */
  lemma GroupsExactly(text: string, groups: seq<string>)
    ensures FullGroups(text) == Some(groups) <==> Writes(text, groups)
  {
    hide FullGroups, Writes;
    if Writes(text, groups) { WrittenIsRead(text, groups); }
    if FullGroups(text) == Some(groups) { ReadIsWritten(text); }
  }

  // ----- the value of the groups -----

  /** The groups as digits of base 65536. */
  function Positional(groups: seq<string>): nat
    requires AllHextets(groups)
  {
    if groups == [] then 0
    else
      assert IsHextet(groups[|groups| - 1]);
      Positional(groups[..|groups| - 1]) * 0x10000 + ValueOf(groups[|groups| - 1], 16)
  }

  lemma {:induction false} FoldSnoc(groups: seq<string>, last: string, value: nat)
    requires AllHextets(groups) && IsHextet(last) && AllHextets(groups + [last])
    ensures FoldHextets(groups + [last], value) == FoldHextets(groups, value) * 0x10000 + ValueOf(last, 16)
  {
    hide Or, ShiftLeft, ValueOf;
    assert IsHextet(last);
    var all := groups + [last];
    if groups == [] {
      HextetBound(last);
      assert all[0] == last && all[1..] == [];
      ShiftedSum(value, ValueOf(last, 16));
    } else {
      assert all[0] == groups[0] && all[1..] == groups[1..] + [last];
      forall g | g in groups[1..] ensures IsHextet(g) { assert g in groups; }
      assert IsHextet(groups[0]);
      FoldSnoc(groups[1..], last, Or(ShiftLeft(value, 16), ValueOf(groups[0], 16)));
    }
  }

  lemma ShiftedSum(value: nat, low: nat)
    requires low < 0x10000
    ensures Or(ShiftLeft(value, 16), low) == value * 0x10000 + low
  {
    Pow2Values();
    OrDisjoint(value, low, 16);
  }

  lemma {:induction false} FoldIsPositional(groups: seq<string>)
    requires AllHextets(groups)
    ensures FoldHextets(groups, 0) == Positional(groups)
  {
    hide IsHextet, ValueOf;
    if groups != [] {
      var init, last := groups[..|groups| - 1], groups[|groups| - 1];
      assert init + [last] == groups && last in groups;
      forall g | g in init ensures IsHextet(g) { assert g in groups; }
      FoldIsPositional(init);
      FoldSnoc(init, last, 0);
    }
  }

  /** A text without a dotted part is an IPv6 address exactly when it writes eight groups, and denotes the
      number they are the digits of. */
  lemma Ipv6Exactly(text: string, v: nat)
    requires '.' !in text
    ensures Ipv6Value(text) == Some(v)
       <==> exists groups :: Writes(text, groups) && AllHextets(groups) && Positional(groups) == v
  {
    NotDotted(text);
    hide FullGroups, Writes, AllHextets, ExpandIpv4Tail, Positional, FoldHextets;
    if FullGroups(text).Some? {
      FullGroupsAreHextets(text);
      GroupsExactly(text, FullGroups(text).value);
      FoldIsPositional(FullGroups(text).value);
    }
    forall groups | Writes(text, groups) ensures FullGroups(text) == Some(groups) { GroupsExactly(text, groups); }
  }

  // ----- a dotted part -----

  lemma LastColon(p: string, q: string)
    requires ':' !in q
    ensures LastIndexOf(p + ":" + q, ':') == |p|
    decreases |q|
  {
    var s := p + ":" + q;
    if q != "" {
      assert s[..|s| - 1] == p + ":" + q[..|q| - 1] && s[|s| - 1] == q[|q| - 1];
      assert q[|q| - 1] in q;
      LastColon(p, q[..|q| - 1]);
    } else {
      assert s[|s| - 1] == ':';
    }
  }

  lemma ExpandDotted(front: string, dotted: string, v4: nat)
    requires ':' !in dotted && LooksLikeIpv4(dotted) && Ipv4Value(dotted) == Some(v4) && v4 < Pow2(32)
    ensures ExpandIpv4Tail(front + ":" + dotted)
         == Some(front + ":" + Numeral(v4 / 0x10000, 16) + ":" + Numeral(v4 % 0x10000, 16))
  {
    hide Ipv4Value, LooksLikeIpv4, Numeral, And, ShiftRight, Pow2;
    var text := front + ":" + dotted;
    HalvesAre(v4);
    LastColon(front, dotted);
    assert text[..|front|] == front && text[|front| + 1..] == dotted;
  }

  lemma ExpandPlain(front: string, low: string)
    requires forall c :: c in low ==> IsHexDigit(c)
    ensures ExpandIpv4Tail(front + ":" + low) == Some(front + ":" + low)
  {
    hide Ipv4Value, LooksLikeIpv4;
    LastColon(front, low);
    assert (front + ":" + low)[|front| + 1..] == low;
    NoDots(low);
  }

  /** A dotted part at the end stands for two groups, the high and the low half of its value. */
  lemma DottedPartExactly(front: string, v4: nat)
    requires v4 < Pow2(32)
    ensures Ipv6Value(front + ":" + FormatIpv4(v4))
         == Ipv6Value(front + ":" + Numeral(v4 / 0x10000, 16) + ":" + Numeral(v4 % 0x10000, 16))
  {
    hide FormatIpv4, Ipv4Value, FullGroups, FoldHextets, Pow2, LooksLikeIpv4, ParseIp, ExpandIpv4Tail;
    FormattedV4(v4);
    Ipv4RoundTrip(v4);
    LooksDotted(v4);
    ExpandDotted(front, FormatIpv4(v4), v4);
    ExpandPlain(front + ":" + Numeral(v4 / 0x10000, 16), Numeral(v4 % 0x10000, 16));
  }

  lemma NoDots(s: string)
    requires forall c :: c in s ==> IsHexDigit(c)
    ensures !LooksLikeIpv4(s)
  {
    IndexOfAppend(s, "", '.');
    assert Split(s, '.') == [s];
    hide Split;
  }

  lemma HalvesAre(v4: nat)
    requires v4 < Pow2(32)
    ensures And(ShiftRight(v4, 16), 0xffff) == v4 / 0x10000 && And(v4, 0xffff) == v4 % 0x10000
  {
    Pow2Values();
    hide And, Pow2;
    AndLowMask(v4 / 0x10000, 16);
    AndLowMask(v4, 16);
    Small(v4 / 0x10000, 0x10000);
  }

  lemma LooksDotted(v4: nat)
    requires v4 < Pow2(32)
    ensures LooksLikeIpv4(FormatIpv4(v4))
  {
    Ipv4RoundTrip(v4);
    AcceptedLooksDotted(FormatIpv4(v4));
  }

  lemma {:induction false} OctetsAreShort(parts: seq<string>, value: nat)
    requires FoldOctets(parts, value).Some?
    ensures forall p :: p in parts ==> IsShortDecimal(p)
  {
    hide IsShortDecimal, ShiftLeft, Or;
    if parts != [] {
      OctetsAreShort(parts[1..], Or(ShiftLeft(value, 8), OctetOf(parts[0]).value));
      assert forall p :: p in parts <==> p == parts[0] || p in parts[1..];
    }
  }

  lemma AcceptedLooksDotted(text: string)
    requires Ipv4Value(text).Some?
    ensures LooksLikeIpv4(text)
  {
    OctetsAreShort(Split(text, '.'), 0);
    hide FoldOctets, Split;
  }

  // ----- capital digits, and the shortest form -----

  lemma {:induction false} CapitalsDoNotMatter(s: string)
    requires forall c :: c in s ==> IsHexDigit(c)
    ensures forall c :: c in Upper(s) ==> IsHexDigit(c)
    ensures ValueOf(Upper(s), 16) == ValueOf(s, 16)
  {
    forall c | c in Upper(s) ensures IsHexDigit(c) {
      var i :| 0 <= i < |s| && Upper(s)[i] == c;
      assert s[i] in s;
    }
    if s != "" {
      var n := |s| - 1;
      assert s[n] in s;
      assert Upper(s)[..n] == Upper(s[..n]);
      CapitalsDoNotMatter(s[..n]);
    }
  }

  lemma LongRunExactly(groups: seq<string>)
    ensures ScanOf(groups).bestLength >= 2 <==> exists t, m :: IsZeroRun(groups, t, m) && m >= 2
  {
    ScanFindsLeftmostLongest(groups);
    hide ScanOf, IsZeroRun;
  }

  lemma DoubleExactly(v: nat)
    ensures ScanOf(Hextets(v)).bestLength >= 2 <==> exists i: nat :: DoubleColonAt(Ipv6Text(v), i)
  {
    var groups := Hextets(v);
    var s := ScanOf(groups);
    HextetsAreClean(v);
    ScanFindsLeftmostLongest(groups);
    hide Hextets, ScanOf, IsHextet, Join;
    if s.bestLength < 2 {
      JoinIsClean(groups);
      assert Ipv6Text(v) == Join(groups, ':');
    } else {
      var h, t := Join(groups[..s.bestStart], ':'), Join(groups[s.bestStart + s.bestLength..], ':');
      assert Ipv6Text(v) == h + "::" + t;
      hide Ipv6Text;
      assert DoubleColonAt(h + "::" + t, |h|);
    }
  }

  /** "::" is written exactly when two or more groups in a row are zero. */
  lemma CompressedExactly(v: nat)
    ensures (exists i: nat :: DoubleColonAt(Ipv6Text(v), i)) <==> exists t, m :: IsZeroRun(Hextets(v), t, m) && m >= 2
  {
    hide Hextets, ScanOf, IsZeroRun, Ipv6Text, DoubleColonAt;
    LongRunExactly(Hextets(v));
    DoubleExactly(v);
  }

  // ----- a bare address is its own block -----

  lemma ReadCharacters(text: string, c: char)
    requires FullGroups(text).Some? && c in text
    ensures c == ':' || IsHexDigit(c)
  {
    ReadIsWritten(text);
    var groups := FullGroups(text).value;
    hide FullGroups, Join, Zeros;
    if text == Join(groups, ':') {
      JoinChars(groups, ':', c);
    } else {
      var head, tail :| WritesAround(text, groups, head, tail);
      PartsAreHextets(head, tail, groups);
      if c in Join(head, ':') { JoinChars(head, ':', c); }
      if c in Join(tail, ':') { JoinChars(tail, ':', c); }
    }
  }

  lemma DottedCharacters(text: string, c: char)
    requires Ipv4Value(text).Some? && c in text
    ensures c == '.' || IsDigit(c)
  {
    hide Ipv4Value, FormatIpv4;
    Ipv4TextIsUnique(text);
    Ipv4TextChars(Ipv4Value(text).value, c);
  }

  lemma ColonCharacters(text: string, c: char)
    requires Ipv6Value(text).Some? && c in text
    ensures c == ':' || c == '.' || IsHexDigit(c)
  {
    hide FullGroups, Ipv4Value, LooksLikeIpv4, Numeral;
    var colon, full := LastIndexOf(text, ':'), ExpandIpv4Tail(text).value;
    if full == text {
      ReadCharacters(text, c);
    } else {
      assert text == text[..colon] + text[colon..colon + 1] + text[colon + 1..];
      if c in text[colon + 1..] {
        DottedCharacters(text[colon + 1..], c);
      } else if c in text[..colon] {
        ReadCharacters(full, c);
      }
    }
  }

  lemma TrimTwice(s: string)
    ensures Trim(Trim(s)) == Trim(s)
  {
    var before, after := TrimExactly(s);
  }

  lemma AddressHasNoSlash(text: string)
    requires ParseIp(text).Some? && Trim(text) == text
    ensures '/' !in text
  {
    hide Ipv6Value, Ipv4Value, Trim;
    if '/' in text {
      if ':' in text { ColonCharacters(text, '/'); } else { DottedCharacters(text, '/'); }
    }
  }

  /** An address without a prefix is read as the block that holds it alone. */
  lemma BareAddressIsItsBlock(input: string)
    requires ParseIp(input).Some?
    ensures var a := ParseIp(input).value;
            ParseCidr(input) == Some(Block(a, BitsOf(a.family))) && Block(a, BitsOf(a.family)).base == a.value
  {
    var text, a := Trim(input), ParseIp(input).value;
    TrimTwice(input);
    ParsedIpFits(input);
    BlockIsValid(a, BitsOf(a.family));
    assert Pow2(0) == 1;
    hide Ipv6Value, Ipv4Value, Trim, Pow2, And, MaskFor;
    AddressHasNoSlash(text);
    assert LastIndexOf(text, '/') == |text| && text[..|text|] == text;
  }

  lemma SlashedText(a: string, n: string)
    requires '/' !in n && forall c :: c in a || c in n ==> !IsBlankChar(c)
    ensures var s := a + "/" + n;
            s != "" && Trim(s) == s && LastIndexOf(s, '/') == |a| && s[..|a|] == a && s[|a| + 1..] == n
  {
    var s := a + "/" + n;
    forall c | c in s ensures !IsBlankChar(c) { assert c in a || c == '/' || c in n; }
    TrimNothing(s);
    SlashIsFound(a, n);
  }

  lemma PrefixOfBlock(address: IpAddress, prefix: nat)
    requires prefix <= BitsOf(address.family)
    ensures Block(address, prefix).prefix == prefix
  {
    hide And, MaskFor, FormatIp;
  }

  /** Behind an address, exactly the decimal texts of one to three digits up to the width of its family are read as a
      prefix length. */
  lemma PrefixTextsExactly(a: string, n: string)
    requires ParseIp(a).Some? && '/' !in n && forall c :: c in a || c in n ==> !IsBlankChar(c)
    ensures var bits := BitsOf(ParseIp(a).value.family);
            ParseCidr(a + "/" + n).Some?
            <==> 1 <= |n| <= 3 && (forall c :: c in n ==> '0' <= c <= '9') && ValueOf(n, 10) <= bits
    ensures ParseCidr(a + "/" + n).Some? ==> ParseCidr(a + "/" + n).value.prefix == ValueOf(n, 10)
  {
    hide ParseIp, Trim, ValueOf, LastIndexOf, Block;
    SlashedText(a, n);
    assert IsShortDecimal(n) <==> 1 <= |n| <= 3 && forall c :: c in n ==> '0' <= c <= '9';
    hide IsShortDecimal;
    if IsShortDecimal(n) && ValueOf(n, 10) <= BitsOf(ParseIp(a).value.family) {
      PrefixOfBlock(ParseIp(a).value, ValueOf(n, 10));
    }
  }
}
