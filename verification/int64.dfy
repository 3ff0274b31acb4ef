/** Rust's `i64` as an unbounded integer in [-2^63, 2^63), with the
    operators of the worker (`&`, `|`, `!`, `<<`) defined on its
    two's-complement bit pattern. */
module Int64 {
  import opened Bits

  /** 2^64, the number of 64-bit patterns. */
  const WORD: nat := 0x1_0000_0000_0000_0000
  /** 2^63, the first value past `i64::MAX`. */
  const HALF: nat := 0x8000_0000_0000_0000

  lemma WordIsPow2()
    ensures Pow2(64) == WORD && Pow2(63) == HALF
  {
    Pow2Double(1, 2);
    Pow2Double(2, 4);
    Pow2Double(4, 16);
    Pow2Double(8, 0x100);
    Pow2Double(16, 0x1_0000);
    Pow2Double(32, 0x1_0000_0000);
    assert Pow2(64) == 2 * Pow2(63);
  }

  /** The powers of two the worker's default widths need. */
  lemma KnownPowers()
    ensures Pow2(7) == 0x80 && Pow2(16) == 0x1_0000 && Pow2(40) == 0x100_0000_0000
  {
    Pow2Double(1, 2);
    Pow2Double(2, 4);
    Pow2Double(4, 16);
    Pow2Double(8, 0x100);
    Pow2Add(32, 8);
    Pow2Double(16, 0x1_0000);
    assert Pow2(8) == 2 * Pow2(7);
  }

  predicate IsI64(x: int) {
    -(HALF as int) <= x < HALF
  }

  /** The two's-complement bit pattern of `x`, read as an unsigned number
      (Rust's `x as u64`). */
  function Unsigned(x: int): (w: nat)
    ensures w < WORD
    ensures 0 <= x < WORD ==> w == x
  {
    x % WORD
  }

  /** The `i64` whose bit pattern is the low 64 bits of `w` (Rust's `as i64`). */
  function Signed(w: int): (x: int)
    ensures IsI64(x)
    ensures Unsigned(x) == w % WORD
    ensures 0 <= w < HALF ==> x == w
  {
    var u := w % WORD;
    if u < HALF then u else u - WORD
  }

  lemma UnsignedOfSigned(w: int)
    requires 0 <= w < WORD
    ensures Unsigned(Signed(w)) == w
  {
  }

  /** `a & b` on `i64`. */
  function BitAnd(a: int, b: int): int {
    Signed(And(Unsigned(a), Unsigned(b)))
  }

  /** `a | b` on `i64`. */
  function BitOr(a: int, b: int): int {
    Signed(Or(Unsigned(a), Unsigned(b)))
  }

  /** `!a` on `i64`: every one of the 64 bits flipped. */
  function BitNot(a: int): int {
    Signed(WORD - 1 - Unsigned(a))
  }

  /** `a << s` on `i64`: bits shifted out at the top are lost; Rust rejects
      shift amounts outside 0..63. */
  function Shl(a: int, s: int): int
    requires 0 <= s < 64
  {
    Signed(Unsigned(a) * Pow2(s))
  }

  lemma Pow2BelowHalf(b: int)
    requires 0 <= b < 64
    ensures Pow2(b) <= HALF
  {
    WordIsPow2();
    Pow2Monotone(b, 63);
  }

  /** `x & (2^b - 1)` is the Euclidean remainder of `x` by 2^b, for every
      `x` including negative ones. */
  lemma AndMaskIsMod(x: int, b: int)
    requires 0 <= b < 64
    ensures BitAnd(x, Pow2(b) - 1) == x % Pow2(b)
  {
    var p, r := Pow2(b), Pow2(64 - b);
    Pow2BelowHalf(b);
    assert p * r == WORD by {
      WordIsPow2();
      Pow2Add(b, 64 - b);
    }
    var u := Unsigned(x);
    assert Unsigned(p - 1) == p - 1;
    var a := And(u, p - 1);
    assert a == x % p by {
      AndLowMask(u, b);
      assert u == x % WORD;
      ModOfMultiple(x, p, r, WORD);
    }
    assert BitAnd(x, p - 1) == Signed(a);
  }

  /** Shifting a non-negative value whose result stays below 2^63 is
      multiplication by a power of two. */
  lemma ShlExact(x: int, s: int)
    requires 0 <= s < 64 && 0 <= x && x * Pow2(s) < HALF
    ensures Shl(x, s) == x * Pow2(s)
  {
    var p := Pow2(s);
    if x > 0 {
      MulAtLeast(x, p);
    }
    assert Unsigned(x) == x;
  }

  /** The bit pattern of `x << s` has its low `s` bits clear. */
  lemma ShlLowBitsClear(x: int, s: int, k: int)
    requires 0 <= k <= s < 64
    ensures Unsigned(Shl(x, s)) % Pow2(k) == 0
  {
    var p, r := Pow2(k), Pow2(64 - k);
    var z := Unsigned(x) * Pow2(s - k);
    var y := Unsigned(x) * Pow2(s);
    assert y == z * p by {
      Pow2Add(s - k, k);
      MulAssoc(Unsigned(x), Pow2(s - k), p);
    }
    MultipleMod(z, p);
    assert p * r == WORD by {
      WordIsPow2();
      Pow2Add(k, 64 - k);
    }
    ModOfMultiple(y, p, r, WORD);
    assert Unsigned(Shl(x, s)) == y % WORD;
  }

  /** `|` of non-negative values in disjoint bit ranges is addition. */
  lemma OrExact(a: int, c: int, k: nat)
    requires 0 <= a && 0 <= c < Pow2(k) && a % Pow2(k) == 0 && a + c < HALF
    ensures BitOr(a, c) == a + c
  {
    OrDisjoint(a, c, k);
  }
}
