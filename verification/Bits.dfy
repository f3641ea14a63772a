/** Bitwise operations on naturals, defined bit by bit, and what masking and shifting mean
    arithmetically. */
module Bits {

  function Pow2(n: nat): (p: nat)
    ensures p >= 1
  {
    if n == 0 then 1 else 2 * Pow2(n - 1)
  }

  function And(x: nat, y: nat): nat {
    if x == 0 || y == 0 then 0
    else (if x % 2 == 1 && y % 2 == 1 then 1 else 0) + 2 * And(x / 2, y / 2)
  }

  function Or(x: nat, y: nat): nat
    decreases x + y
  {
    if x == 0 then y
    else if y == 0 then x
    else (if x % 2 == 1 || y % 2 == 1 then 1 else 0) + 2 * Or(x / 2, y / 2)
  }

  function Xor(x: nat, y: nat): nat
    decreases x + y
  {
    if x == 0 then y
    else if y == 0 then x
    else (if x % 2 != y % 2 then 1 else 0) + 2 * Xor(x / 2, y / 2)
  }

  function ShiftLeft(x: nat, n: nat): nat { x * Pow2(n) }

  lemma QuotientIsNat(x: nat, m: nat)
    requires m > 0
    ensures x / m >= 0
  {
  }

  function ShiftRight(x: nat, n: nat): nat {
    QuotientIsNat(x, Pow2(n));
    x / Pow2(n)
  }

  // ----- powers of two -----

  lemma {:induction false} Pow2Add(a: nat, b: nat)
    ensures Pow2(a + b) == Pow2(a) * Pow2(b)
  {
    if a > 0 { Pow2Add(a - 1, b); }
  }

  lemma {:induction false} Pow2Monotonic(a: nat, b: nat)
    requires a <= b
    ensures Pow2(a) <= Pow2(b)
    decreases b
  {
    if a < b { Pow2Monotonic(a, b - 1); }
  }

  lemma Pow2StrictlyMonotonic(a: nat, b: nat)
    requires a < b
    ensures Pow2(a) < Pow2(b)
  {
    Pow2Monotonic(a + 1, b);
  }

  lemma Pow2Values()
    ensures Pow2(6) == 64 && Pow2(8) == 256 && Pow2(16) == 0x10000 && Pow2(24) == 0x100_0000
    ensures Pow2(32) == 0x1_0000_0000
  {
    assert Pow2(4) == 16;
    Pow2Add(4, 2);
    Pow2Add(4, 4);
    Pow2Add(8, 8);
    Pow2Add(16, 8);
    Pow2Add(16, 16);
  }

  // ----- division by powers of two, one bit at a time -----

  lemma DivHalves(x: nat, m: nat)
    requires m > 0
    ensures x / (2 * m) == (x / 2) / m
    ensures x % (2 * m) == 2 * ((x / 2) % m) + x % 2
  {
    var h := x / 2;
    var q, r := h / m, h % m;
    assert h == m * q + r;
    assert x == (2 * m) * q + (2 * r + x % 2);
    DivModUnique(x, 2 * m, q, 2 * r + x % 2);
  }

  lemma DivModUnique(x: nat, m: nat, q: nat, r: nat)
    requires r < m && x == m * q + r
    ensures x / m == q && x % m == r
  {
    var q', r' := x / m, x % m;
    assert x == m * q' + r';
    if q' > q {
      assert m * q' >= m * (q + 1) by { MulMono(m, q + 1, q'); }
    } else if q' < q {
      assert m * q >= m * (q' + 1) by { MulMono(m, q' + 1, q); }
    }
  }

  lemma MulMono(m: nat, a: nat, b: nat)
    requires a <= b
    ensures m * a <= m * b
  {
  }

  /** A low mask takes a remainder. */
  lemma AndOddMask(v: nat, mask: nat)
    ensures And(v, 2 * mask + 1) == v % 2 + 2 * And(v / 2, mask)
  {
    assert (2 * mask + 1) % 2 == 1 && (2 * mask + 1) / 2 == mask;
    AndUnfold(v, 2 * mask + 1);
    hide And;
  }

  lemma {:induction false} AndLowMask(v: nat, n: nat)
    ensures And(v, Pow2(n) - 1) == v % Pow2(n)
    decreases n
  {
    hide And;
    if n == 0 {
      AndZero(v);
    } else {
      assert Pow2(n) == 2 * Pow2(n - 1);
      hide Pow2;
      AndOddMask(v, Pow2(n - 1) - 1);
      AndLowMask(v / 2, n - 1);
      DivHalves(v, Pow2(n - 1));
    }
  }

  lemma AndZero(x: nat)
    ensures And(x, 0) == 0
  {
  }

  lemma AndUnfold(x: nat, y: nat)
    ensures And(x, y) == (if x % 2 == 1 && y % 2 == 1 then 1 else 0) + 2 * And(x / 2, y / 2)
  {
  }

  /** Xor of two low masks leaves the bits between them. */
  lemma {:induction false} XorLowMasks(w: nat, h: nat)
    requires h <= w
    ensures Xor(Pow2(w) - 1, Pow2(h) - 1) == Pow2(w) - Pow2(h)
    decreases h
  {
    if h > 0 {
      XorLowMasks(w - 1, h - 1);
      assert (Pow2(w) - 1) % 2 == 1 && (Pow2(w) - 1) / 2 == Pow2(w - 1) - 1;
      assert (Pow2(h) - 1) % 2 == 1 && (Pow2(h) - 1) / 2 == Pow2(h - 1) - 1;
    }
  }

  /** A high mask rounds down to a multiple of 2^h. */
  lemma {:induction false} AndHighMask(v: nat, w: nat, h: nat)
    requires h <= w && v < Pow2(w)
    ensures Pow2(w) >= Pow2(h)
    ensures And(v, Pow2(w) - Pow2(h)) == v - v % Pow2(h)
    decreases w
  {
    hide And;
    Pow2Monotonic(h, w);
    if h == 0 {
      AndLowMask(v, w);
      Small(v, Pow2(w));
    } else {
      var half, mask := v / 2, Pow2(w - 1) - Pow2(h - 1);
      assert Pow2(w) - Pow2(h) == 2 * mask;
      calc {
        And(v, 2 * mask);
        { AndUnfold(v, 2 * mask); }
        2 * And(half, mask);
        { AndHighMask(half, w - 1, h - 1); }
        2 * (half - half % Pow2(h - 1));
        { DivHalves(v, Pow2(h - 1)); }
        v - v % Pow2(h);
      }
    }
  }

  lemma Small(v: nat, m: nat)
    requires v < m
    ensures v % m == v && v / m == 0
  {
  }

  /** Or of a shifted value and a value that fits below it is their sum. */
  lemma {:induction false} OrDisjoint(x: nat, y: nat, n: nat)
    requires y < Pow2(n)
    ensures Or(ShiftLeft(x, n), y) == ShiftLeft(x, n) + y
    decreases n
  {
    hide Or;
    if n == 0 {
      OrZero(ShiftLeft(x, 0));
    } else {
      var half := ShiftLeft(x, n - 1);
      assert ShiftLeft(x, n) == 2 * half;
      calc {
        Or(2 * half, y);
        { OrUnfold(2 * half, y); }
        y % 2 + 2 * Or(half, y / 2);
        { OrDisjoint(x, y / 2, n - 1); }
        y % 2 + 2 * (half + y / 2);
        2 * half + y;
      }
    }
  }

  lemma OrZero(x: nat)
    ensures Or(x, 0) == x
  {
  }

  lemma OrUnfold(x: nat, y: nat)
    ensures Or(x, y) == (if x % 2 == 1 || y % 2 == 1 then 1 else 0) + 2 * Or(x / 2, y / 2)
  {
  }

  /** The n low bits of a quotient by 2^k, taken by shift and mask. */
  lemma ShiftMask(v: nat, k: nat, n: nat)
    ensures And(ShiftRight(v, k), Pow2(n) - 1) == v / Pow2(k) % Pow2(n)
  {
    AndLowMask(ShiftRight(v, k), n);
  }

  lemma RoundDown(v: nat, m: nat)
    requires m > 0
    ensures 0 <= v - v % m <= v
    ensures (v - v % m) % m == 0
    ensures v % m == 0 ==> v - v % m == v
  {
    assert v == m * (v / m) + v % m;
    MulMono(m, 0, v / m);
    DivModUnique(v - v % m, m, v / m, 0);
  }

  lemma DivDiv(v: nat, a: nat, b: nat)
    requires a > 0 && b > 0
    ensures a * b > 0
    ensures v / (a * b) == v / a / b
  {
    QuotientIsNat(v, a);
    var q := v / a;
    QuotientIsNat(q, b);
    Recompose(a, b, q / b, q % b, v % a, q, v);
    DivModUnique(v, a * b, q / b, a * (q % b) + v % a);
  }

  lemma Recompose(a: nat, b: nat, p: nat, r: nat, s: nat, q: nat, v: nat)
    requires v == a * q + s && q == b * p + r && s < a && r < b
    ensures v == (a * b) * p + (a * r + s)
    ensures 0 <= a * r + s < a * b
  {
    assert a * (b * p + r) == a * (b * p) + a * r;
    assert a * (b * p) == (a * b) * p;
    assert a * (r + 1) == a * r + a;
    MulMono(a, r + 1, b);
    MulMono(a, 0, r);
  }
}
