/** Strings the way the program uses them: split and join on a separator, decimal and
    hexadecimal numerals, ASCII case folding, trimming, and a total order for sorting. */
module Text {

  datatype Option<+T> = None | Some(value: T) {
    function GetOr<U>(f: T -> U, default: U): U {
      match this
      case Some(v) => f(v)
      case None => default
    }
  }

  // ----- join and split -----

  function Join(parts: seq<string>, sep: char): string {
    if parts == [] then ""
    else if |parts| == 1 then parts[0]
    else parts[0] + [sep] + Join(parts[1..], sep)
  }

  /** Index of the first occurrence of c at or after from, or |s|. */
  function IndexOf(s: string, c: char, from: nat := 0): (i: nat)
    requires from <= |s|
    ensures from <= i <= |s|
    ensures i < |s| ==> s[i] == c
    ensures forall k :: from <= k < i ==> s[k] != c
    decreases |s| - from
  {
    if from == |s| || s[from] == c then from else IndexOf(s, c, from + 1)
  }

  /** Index of the last occurrence of c, or |s| when there is none. */
  function LastIndexOf(s: string, c: char): (i: nat)
    ensures i <= |s|
    ensures i < |s| ==> s[i] == c && forall k :: i < k < |s| ==> s[k] != c
    ensures i == |s| ==> c !in s
  {
    if s == "" then 0
    else if s[|s| - 1] == c then |s| - 1
    else
      var i := LastIndexOf(s[..|s| - 1], c);
      if i == |s| - 1 then |s| else i
  }

  function Split(s: string, sep: char): (parts: seq<string>)
    ensures |parts| >= 1
    ensures forall p :: p in parts ==> sep !in p
    decreases |s|
  {
    var i := IndexOf(s, sep);
    if i == |s| then [s] else [s[..i]] + Split(s[i + 1..], sep)
  }

  predicate StartsWith(s: string, prefix: string) { |prefix| <= |s| && s[..|prefix|] == prefix }

  lemma IndexOfAppend(p: string, rest: string, c: char)
    requires c !in p
    ensures IndexOf(p, c) == |p|
    ensures IndexOf(p + [c] + rest, c) == |p|
  {
    var s := p + [c] + rest;
    assert s[|p|] == c;
    assert forall k :: 0 <= k < |p| ==> s[k] == p[k] && s[k] in p;
    if IndexOf(p, c) < |p| {
      assert false;
    }
  }

  /** Splitting undoes joining, for pieces that do not contain the separator. */
  lemma {:induction false} SplitJoin(parts: seq<string>, sep: char)
    requires |parts| >= 1
    requires forall p :: p in parts ==> sep !in p
    ensures Split(Join(parts, sep), sep) == parts
  {
    hide IndexOf;
    assert parts[0] in parts;
    if |parts| == 1 {
      IndexOfAppend(parts[0], "", sep);
    } else {
      var rest := Join(parts[1..], sep);
      var s := parts[0] + [sep] + rest;
      IndexOfAppend(parts[0], rest, sep);
      assert s[..|parts[0]|] == parts[0] && s[|parts[0]| + 1..] == rest;
      SplitJoin(parts[1..], sep);
      assert parts == [parts[0]] + parts[1..];
    }
  }

  /** Joining undoes splitting, for every string. */
  lemma {:induction false} JoinSplit(s: string, sep: char)
    ensures Join(Split(s, sep), sep) == s
    decreases |s|
  {
    var i := IndexOf(s, sep);
    if i < |s| {
      var rest := Split(s[i + 1..], sep);
      JoinSplit(s[i + 1..], sep);
      assert ([s[..i]] + rest)[1..] == rest;
      assert s == s[..i] + [sep] + s[i + 1..];
    }
  }

  lemma {:induction false} JoinCons(p: string, parts: seq<string>, sep: char)
    requires |parts| >= 1
    ensures Join([p] + parts, sep) == p + [sep] + Join(parts, sep)
  {
    assert ([p] + parts)[1..] == parts;
  }

  lemma {:induction false} JoinAppend(a: seq<string>, b: seq<string>, sep: char)
    requires a != [] && b != []
    ensures Join(a + b, sep) == Join(a, sep) + [sep] + Join(b, sep)
  {
    if |a| == 1 {
      assert a + b == [a[0]] + b;
      JoinCons(a[0], b, sep);
    } else {
      assert a + b == [a[0]] + (a[1..] + b) && a == [a[0]] + a[1..];
      JoinAppend(a[1..], b, sep);
      JoinCons(a[0], a[1..] + b, sep);
      JoinCons(a[0], a[1..], sep);
    }
  }

  lemma {:induction false} SplitAppend(a: string, b: string, sep: char)
    ensures Split(a + [sep] + b, sep) == Split(a, sep) + Split(b, sep)
    decreases |a|
  {
    var s := a + [sep] + b;
    var i := IndexOf(a, sep);
    if i == |a| {
      assert sep !in a;
      IndexOfAppend(a, b, sep);
      assert s[..|a|] == a && s[|a| + 1..] == b;
    } else {
      assert a == a[..i] + [sep] + a[i + 1..];
      assert s == a[..i] + [sep] + (a[i + 1..] + [sep] + b);
      IndexOfAppend(a[..i], a[i + 1..] + [sep] + b, sep);
      assert s[..i] == a[..i] && s[i + 1..] == a[i + 1..] + [sep] + b;
      SplitAppend(a[i + 1..], b, sep);
      assert [a[..i]] + (Split(a[i + 1..], sep) + Split(b, sep)) == [a[..i]] + Split(a[i + 1..], sep) + Split(b, sep);
    }
  }

  // ----- numerals -----

  predicate IsDigit(c: char) { '0' <= c <= '9' }

  predicate IsHexDigit(c: char) { IsDigit(c) || 'a' <= c <= 'f' || 'A' <= c <= 'F' }

  function DigitValue(c: char): nat
    requires IsHexDigit(c)
  {
    if IsDigit(c) then (c - '0') as nat
    else if 'a' <= c <= 'f' then (c - 'a') as nat + 10
    else (c - 'A') as nat + 10
  }

  function DigitChar(d: nat): (c: char)
    requires d < 16
    ensures IsHexDigit(c) && DigitValue(c) == d
    ensures d < 10 ==> IsDigit(c)
    ensures d == 0 <==> c == '0'
  {
    if d < 10 then '0' + d as char else 'a' + (d - 10) as char
  }

  lemma QuotientShrinks(n: nat, base: nat)
    requires 2 <= base <= n
    ensures 0 < n / base < n && n % base < base
  {
  }

  /** The numeral of n in the given base, without leading zeros. */
  function Numeral(n: nat, base: nat): (s: string)
    requires 2 <= base <= 16
    ensures |s| >= 1
    ensures forall c :: c in s ==> IsHexDigit(c) && (base <= 10 ==> IsDigit(c))
    ensures |s| > 1 ==> s[0] != '0'
    ensures s == "0" <==> n == 0
    decreases n
  {
    if n < base then [DigitChar(n)]
    else
      QuotientShrinks(n, base);
      Numeral(n / base, base) + [DigitChar(n % base)]
  }

  function ValueOf(s: string, base: nat): nat
    requires forall c :: c in s ==> IsHexDigit(c)
  {
    if s == "" then 0
    else
      assert s[|s| - 1] in s;
      ValueOf(s[..|s| - 1], base) * base + DigitValue(s[|s| - 1])
  }

  /** Reading a numeral back gives the number it was printed from. */
  lemma {:induction false} ValueOfNumeral(n: nat, base: nat)
    requires base == 10 || base == 16
    ensures ValueOf(Numeral(n, base), base) == n
    decreases n
  {
    if n < base {
      ValueOfSnoc("", DigitChar(n), base);
      assert Numeral(n, base) == "" + [DigitChar(n)];
    } else {
      ValueOfNumeral(n / base, base);
      ValueOfSnoc(Numeral(n / base, base), DigitChar(n % base), base);
      if base == 10 {
        assert n / 10 * 10 + n % 10 == n;
      } else {
        assert n / 16 * 16 + n % 16 == n;
      }
    }
  }

  lemma ValueOfSnoc(s: string, c: char, base: nat)
    requires IsHexDigit(c) && forall c :: c in s ==> IsHexDigit(c)
    ensures ValueOf(s + [c], base) == ValueOf(s, base) * base + DigitValue(c)
  {
    assert (s + [c])[..|s|] == s;
  }

  lemma NumeralInjective(a: nat, b: nat, base: nat)
    requires base == 10 || base == 16
    requires Numeral(a, base) == Numeral(b, base)
    ensures a == b
  {
    ValueOfNumeral(a, base);
    ValueOfNumeral(b, base);
  }

  function Decimal(n: nat): string { Numeral(n, 10) }

  function DecimalInt(n: int): string { if n < 0 then "-" + Decimal(-n) else Decimal(n) }

  // ----- case and blanks (ASCII) -----

  function LowerChar(c: char): char {
    if 'A' <= c <= 'Z' then c - 'A' + 'a' else c
  }

  function UpperChar(c: char): char {
    if 'a' <= c <= 'z' then c - 'a' + 'A' else c
  }

  function Lower(s: string): (r: string)
    ensures |r| == |s|
  {
    seq(|s|, i requires 0 <= i < |s| => LowerChar(s[i]))
  }

  function Upper(s: string): (r: string)
    ensures |r| == |s|
  {
    seq(|s|, i requires 0 <= i < |s| => UpperChar(s[i]))
  }

  /** Folding maps the letters to their other case, in the order of the alphabet, and nothing else. */
  lemma FoldingTables()
    ensures Lower("ABCDEFGHIJKLMNOPQRSTUVWXYZ") == "abcdefghijklmnopqrstuvwxyz"
    ensures Upper("abcdefghijklmnopqrstuvwxyz") == "ABCDEFGHIJKLMNOPQRSTUVWXYZ"
    ensures forall c: char :: c !in "ABCDEFGHIJKLMNOPQRSTUVWXYZ" ==> Lower([c]) == [c]
    ensures forall c: char :: c !in "abcdefghijklmnopqrstuvwxyz" ==> Upper([c]) == [c]
  {
    var capitals, letters := "ABCDEFGHIJKLMNOPQRSTUVWXYZ", "abcdefghijklmnopqrstuvwxyz";
    forall c: char | 'A' <= c <= 'Z' ensures c in capitals { assert capitals[c as int - 'A' as int] == c; }
    forall c: char | 'a' <= c <= 'z' ensures c in letters { assert letters[c as int - 'a' as int] == c; }
  }

  predicate IsBlankChar(c: char) {
    c == ' ' || c == '\t' || c == '\n' || c == '\r'
  }

  function TrimStart(s: string): (r: string)
    ensures |r| <= |s|
  {
    if s != "" && IsBlankChar(s[0]) then TrimStart(s[1..]) else s
  }

  function TrimEnd(s: string): (r: string)
    ensures |r| <= |s|
  {
    if s != "" && IsBlankChar(s[|s| - 1]) then TrimEnd(s[..|s| - 1]) else s
  }

  function Trim(s: string): string { TrimEnd(TrimStart(s)) }

  lemma TrimNothing(s: string)
    requires forall c :: c in s ==> !IsBlankChar(c)
    ensures Trim(s) == s
  {
    if s != "" {
      assert s[0] in s && s[|s| - 1] in s;
    }
  }

  predicate AllBlank(s: string) { forall c :: c in s ==> IsBlankChar(c) }

  lemma {:induction false} TrimStartExactly(s: string) returns (blanks: string)
    ensures AllBlank(blanks) && s == blanks + TrimStart(s) && (TrimStart(s) != "" ==> !IsBlankChar(TrimStart(s)[0]))
  {
    if s != "" && IsBlankChar(s[0]) {
      var more := TrimStartExactly(s[1..]);
      blanks := [s[0]] + more;
    } else {
      blanks := "";
    }
  }

  lemma {:induction false} TrimEndExactly(s: string) returns (blanks: string)
    ensures AllBlank(blanks) && s == TrimEnd(s) + blanks
    ensures TrimEnd(s) != "" ==> !IsBlankChar(TrimEnd(s)[|TrimEnd(s)| - 1])
  {
    if s != "" && IsBlankChar(s[|s| - 1]) {
      var more := TrimEndExactly(s[..|s| - 1]);
      blanks := more + [s[|s| - 1]];
    } else {
      blanks := "";
    }
  }

  /** Trimming takes the blanks off both ends, and all of them. */
  lemma TrimExactly(s: string) returns (before: string, after: string)
    ensures AllBlank(before) && AllBlank(after) && s == before + Trim(s) + after
    ensures Trim(s) != "" ==> !IsBlankChar(Trim(s)[0]) && !IsBlankChar(Trim(s)[|Trim(s)| - 1])
  {
    before := TrimStartExactly(s);
    after := TrimEndExactly(TrimStart(s));
    hide TrimStart, TrimEnd;
    assert Trim(s) != "" ==> Trim(s)[0] == TrimStart(s)[0];
  }

  predicate IsBlank(s: string) { Trim(s) == "" }

  // ----- a total order, for sorting -----

  predicate StringLe(a: string, b: string) {
    if a == "" then true
    else if b == "" then false
    else a[0] < b[0] || (a[0] == b[0] && StringLe(a[1..], b[1..]))
  }

  lemma {:induction false} StringLeTotal(a: string, b: string)
    ensures StringLe(a, b) || StringLe(b, a)
  {
    if a != "" && b != "" { StringLeTotal(a[1..], b[1..]); }
  }

  lemma {:induction false} StringLeAntisymmetric(a: string, b: string)
    requires StringLe(a, b) && StringLe(b, a)
    ensures a == b
  {
    if a != "" && b != "" {
      StringLeAntisymmetric(a[1..], b[1..]);
      assert a == [a[0]] + a[1..] && b == [b[0]] + b[1..];
    }
  }

  lemma {:induction false} StringLeTransitive(a: string, b: string, c: string)
    requires StringLe(a, b) && StringLe(b, c)
    ensures StringLe(a, c)
  {
    if a != "" && b != "" && c != "" && a[0] == b[0] == c[0] {
      StringLeTransitive(a[1..], b[1..], c[1..]);
    }
  }

  /** The order of a dictionary: a prefix comes first, and otherwise the first difference decides. */
  ghost predicate Lexicographic(a: string, b: string) {
    a <= b || exists k :: 0 <= k < |a| && k < |b| && a[..k] == b[..k] && a[k] < b[k]
  }

  lemma {:induction false} StringLeIsLexicographic(a: string, b: string)
    ensures StringLe(a, b) <==> Lexicographic(a, b)
  {
    if a != "" && b != "" {
      var x, y := a[1..], b[1..];
      assert a == [a[0]] + x && b == [b[0]] + y;
      if a[0] == b[0] {
        StringLeIsLexicographic(x, y);
        assert a <= b <==> x <= y;
        if k :| 0 <= k < |x| && k < |y| && x[..k] == y[..k] && x[k] < y[k] {
          assert a[..k + 1] == [a[0]] + x[..k] && b[..k + 1] == [b[0]] + y[..k];
        }
        if k :| 0 <= k < |a| && k < |b| && a[..k] == b[..k] && a[k] < b[k] {
          assert k > 0 && x[..k - 1] == a[..k][1..] && y[..k - 1] == b[..k][1..];
          assert x[k - 1] < y[k - 1];
        }
      } else {
        FirstDifference(a, b);
      }
    }
  }

  lemma FirstDifference(a: string, b: string)
    requires a != "" && b != "" && a[0] != b[0]
    ensures Lexicographic(a, b) <==> a[0] < b[0]
  {
    if a[0] < b[0] { assert a[..0] == b[..0]; }
    if k :| 0 <= k < |a| && k < |b| && a[..k] == b[..k] && a[k] < b[k] {
      assert k > 0 ==> a[..k][0] == b[..k][0];
    }
  }
}
