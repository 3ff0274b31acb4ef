/** Unbounded bit arithmetic on naturals: powers of two, bitwise AND and OR
    defined one binary digit at a time, and the division/remainder facts
    that connect them to ordinary arithmetic. */
module Bits {

  /** 2 to the power n. */
  function Pow2(n: nat): (r: nat)
    ensures r >= 1
  {
    if n == 0 then 1 else 2 * Pow2(n - 1)
  }

  /** Bitwise AND: the lowest digit of the result is set iff both lowest
      digits are set, and the rest is the AND of the halves. */
  function And(x: nat, y: nat): nat
    decreases x + y
  {
    if x == 0 || y == 0 then 0
    else 2 * And(x / 2, y / 2) + (if x % 2 == 1 && y % 2 == 1 then 1 else 0)
  }

  /** Bitwise OR, digit by digit like `And`. */
  function Or(x: nat, y: nat): nat
    decreases x + y
  {
    if x == 0 && y == 0 then 0
    else 2 * Or(x / 2, y / 2) + (if x % 2 == 1 || y % 2 == 1 then 1 else 0)
  }

  /** Quotient and remainder are determined by the division equation. */
  lemma DivModUnique(x: int, d: int, q: int, r: int)
    requires d > 0 && 0 <= r < d && x == d * q + r
    ensures x / d == q && x % d == r
  {
    var q0, r0 := x / d, x % d;
    assert d * (q - q0) == r0 - r;
    if q > q0 {
      MulAtLeast(d, q - q0);
    } else if q < q0 {
      MulAtLeast(d, q0 - q);
    }
  }

  lemma MulAtLeast(d: int, k: int)
    requires d > 0 && k >= 1
    ensures d * k >= d
  {
  }

  /** a < b scales to a * p < b * p for positive p. */
  lemma MulLess(a: int, b: int, p: int)
    requires a < b && p > 0
    ensures a * p < b * p
  {
    MulAtLeast(p, b - a);
    assert b * p - a * p == p * (b - a);
  }

  /** A two-digit numeral in a mixed radix stays below the product of its
      radixes: 0 <= x < b and 0 <= y < d give 0 <= x * d + y < b * d. */
  lemma MixedRadixBound(x: int, y: int, b: int, d: int)
    requires 0 <= x < b && 0 <= y < d
    ensures 0 <= x * d + y < b * d
  {
    MulLess(x, b, d);
    assert (x + 1) * d <= b * d by {
      if x + 1 < b { MulLess(x + 1, b, d); }
    }
  }

  lemma MulNonNegative(a: int, b: int)
    requires 0 <= a && 0 <= b
    ensures 0 <= a * b
  {
  }

  /** The digits of a two-digit mixed-radix numeral: dividing by the lower
      radix recovers the upper digit and the remainder is the lower one. */
  lemma NumeralDigits(x: int, d: int, hi: int, lo: int)
    requires d > 0 && 0 <= lo < d && x == hi * d + lo
    ensures x / d == hi && x % d == lo
  {
    DivModUnique(x, d, hi, lo);
  }

  lemma MulAssoc(x: int, y: int, z: int)
    ensures x * (y * z) == (x * y) * z
  {
  }

  lemma Twice(x: int, y: int)
    ensures 2 * (x * y) == (2 * x) * y
  {
  }

  lemma {:induction false} Pow2Add(a: nat, b: nat)
    ensures Pow2(a + b) == Pow2(a) * Pow2(b)
  {
    if a != 0 {
      Pow2Add(a - 1, b);
      Twice(Pow2(a - 1), Pow2(b));
    }
  }

  /** Squaring a known power of two. */
  lemma Pow2Double(a: nat, v: nat)
    requires Pow2(a) == v
    ensures Pow2(a + a) == v * v
  {
    Pow2Add(a, a);
  }

  lemma {:induction false} Pow2Monotone(a: nat, b: nat)
    requires a <= b
    ensures Pow2(a) <= Pow2(b)
  {
    if a < b {
      Pow2Monotone(a, b - 1);
    }
  }

  /** Any multiple of d leaves remainder 0. */
  lemma MultipleMod(z: int, d: int)
    requires d > 0
    ensures (z * d) % d == 0 && (z * d) / d == z
  {
    DivModUnique(z * d, d, z, 0);
  }

  /** Adding a value below p to a multiple of p leaves that value as remainder. */
  lemma AddBelowMultiple(a: int, m: int, p: int)
    requires p > 0 && a % p == 0 && 0 <= m < p
    ensures (a + m) % p == m
  {
    var q := a / p;
    assert a == p * q + a % p;
    DivModUnique(a + m, p, q, m);
  }

  /** Reducing modulo a multiple w of p and then modulo p is reducing modulo p. */
  lemma ModOfMultiple(x: int, p: int, q: int, w: int)
    requires p > 0 && q > 0 && w == p * q
    ensures (x % w) % p == x % p
  {
    var a, r := x / w, x % w;
    var b, r' := r / p, r % p;
    assert x == w * a + r;
    assert r == p * b + r';
    assert x == p * (q * a + b) + r';
    DivModUnique(x, p, q * a + b, r');
  }

  /** Halving steps through the digits: the remainder modulo 2p is twice the
      remainder of the half modulo p plus the lowest digit. */
  lemma HalveMod(x: nat, p: nat)
    requires p >= 1
    ensures x % (2 * p) == 2 * ((x / 2) % p) + x % 2
    ensures x / (2 * p) == (x / 2) / p
  {
    var q := x / 2;
    var a, b := q / p, q % p;
    assert x == (2 * p) * a + (2 * b + x % 2);
    DivModUnique(x, 2 * p, a, 2 * b + x % 2);
  }

  lemma OddHalf(p: int)
    requires p >= 1
    ensures (2 * p - 1) / 2 == p - 1 && (2 * p - 1) % 2 == 1
  {
    DivModUnique(2 * p - 1, 2, p - 1, 1);
  }

  /** AND with the all-ones pattern of width k keeps exactly the low k digits. */
  lemma {:induction false} AndLowMask(x: nat, k: nat)
    ensures And(x, Pow2(k) - 1) == x % Pow2(k)
  {
    if k != 0 && x != 0 {
      AndLowMask(x / 2, k - 1);
      AndOddMask(x, Pow2(k - 1));
    }
  }

  /** One digit of `AndLowMask`: if AND with p - 1 keeps the half modulo p,
      AND with 2p - 1 keeps the whole modulo 2p. */
  lemma AndOddMask(x: nat, p: nat)
    requires p >= 1 && x != 0 && And(x / 2, p - 1) == (x / 2) % p
    ensures And(x, 2 * p - 1) == x % (2 * p)
  {
    OddHalf(p);
    HalveMod(x, p);
  }

  lemma {:induction false} OrZero(x: nat)
    ensures Or(x, 0) == x
  {
    if x != 0 {
      OrZero(x / 2);
    }
  }

  /** OR of a multiple of 2^k with a value below 2^k is their sum: the two
      operands occupy disjoint digits. */
  lemma {:induction false} OrDisjoint(a: nat, c: nat, k: nat)
    requires a % Pow2(k) == 0 && c < Pow2(k)
    ensures Or(a, c) == a + c
  {
    if k == 0 {
      OrZero(a);
    } else if a != 0 || c != 0 {
      var p := Pow2(k - 1);
      HalveMod(a, p);
      OrDisjoint(a / 2, c / 2, k - 1);
    }
  }

  /** OR of two multiples of 2^k is a multiple of 2^k. */
  lemma {:induction false} OrMultiple(a: nat, b: nat, k: nat)
    requires a % Pow2(k) == 0 && b % Pow2(k) == 0
    ensures Or(a, b) % Pow2(k) == 0
  {
    if k != 0 && (a != 0 || b != 0) {
      var p := Pow2(k - 1);
      HalveMod(a, p);
      HalveMod(b, p);
      OrMultiple(a / 2, b / 2, k - 1);
      var o := Or(a, b);
      assert o == 2 * Or(a / 2, b / 2);
      assert o / 2 == Or(a / 2, b / 2) && o % 2 == 0;
      HalveMod(o, p);
    }
  }

  /** OR never sets a digit at or above width k that neither operand has. */
  lemma {:induction false} OrBound(a: nat, b: nat, k: nat)
    requires a < Pow2(k) && b < Pow2(k)
    ensures Or(a, b) < Pow2(k)
  {
    if k != 0 && (a != 0 || b != 0) {
      OrBound(a / 2, b / 2, k - 1);
    }
  }
}
