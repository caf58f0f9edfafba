/** Bit operations on natural numbers, defined bit by bit, and the arithmetic
    they amount to.  The byte codecs are written with these operations, so that
    their masks and shifts read as they do in the program. */
module Bits {
  type byte = b: int | 0 <= b < 256

  const TWO64: int := 0x1_0000_0000_0000_0000

  function Pow2(n: nat): (r: int)
    ensures 0 < r
  {
    if n == 0 then 1 else 2 * Pow2(n - 1)
  }

  /** `x << n` on an unbounded word. */
  function Shl(x: nat, n: nat): (r: int)
    ensures 0 <= r
    decreases n
  {
    if n == 0 then x else 2 * Shl(x, n - 1)
  }

  /** `x >> n`, keeping the sign. */
  function Shr(x: int, n: nat): (r: int)
    ensures 0 <= x ==> 0 <= r
    decreases n
  {
    if n == 0 then x else Shr(x / 2, n - 1)
  }

  /** The n low bits of x, in two's complement when x is negative. */
  function Low(x: int, n: nat): nat
    decreases n
  {
    if n == 0 then 0 else 2 * Low(x / 2, n - 1) + x % 2
  }

  function And(x: nat, y: nat): nat {
    if x == 0 || y == 0 then 0
    else 2 * And(x / 2, y / 2) + (if x % 2 == 1 && y % 2 == 1 then 1 else 0)
  }

  function Or(x: nat, y: nat): nat
    decreases x + y
  {
    if x == 0 then y else if y == 0 then x
    else 2 * Or(x / 2, y / 2) + (if x % 2 == 1 || y % 2 == 1 then 1 else 0)
  }

  function Xor(x: nat, y: nat): nat
    decreases x + y
  {
    if x == 0 then y else if y == 0 then x
    else 2 * Xor(x / 2, y / 2) + (if x % 2 != y % 2 then 1 else 0)
  }

  /** The two's complement 64-bit word that holds the signed integer `v`. */
  function Word(v: int): (r: nat)
    ensures r < TWO64
  {
    v % TWO64
  }

  /** The signed integer held by a 64-bit word. */
  function Signed(w: nat): int {
    if w < TWO64 / 2 then w else w - TWO64
  }

  lemma Pow2Values()
    ensures Pow2(7) == 0x80 && Pow2(8) == 0x100 && Pow2(16) == 0x1_0000 && Pow2(24) == 0x100_0000
    ensures Pow2(28) == 0x1000_0000 && Pow2(32) == 0x1_0000_0000 && Pow2(40) == 0x100_0000_0000
    ensures Pow2(48) == 0x1_0000_0000_0000 && Pow2(56) == 0x100_0000_0000_0000
    ensures Pow2(63) == 0x8000_0000_0000_0000 && Pow2(64) == TWO64
  {
  }

  lemma {:induction false} Pow2Mono(a: nat, b: nat)
    requires a <= b
    ensures Pow2(a) <= Pow2(b)
    decreases b
  {
    if a < b {
      Pow2Mono(a, b - 1);
    }
  }

  lemma Pow2Word(n: nat)
    requires n == 63 || n == 64
    ensures Pow2(n) == if n == 64 then TWO64 else TWO64 / 2
  {
    Pow2Values();
  }

  /** Shifts compose. */
  lemma {:induction false} ShlAdd(x: nat, a: nat, b: nat)
    ensures Shl(Shl(x, a), b) == Shl(x, a + b)
    decreases b
  {
    if b > 0 {
      ShlAdd(x, a, b - 1);
    }
  }

  lemma {:induction false} ShlSum(x: nat, y: nat, n: nat)
    ensures Shl(x, n) + Shl(y, n) == Shl(x + y, n)
    decreases n
  {
    if n > 0 {
      ShlSum(x, y, n - 1);
    }
  }

  /** A number below 2^a, shifted by b, stays below 2^(a+b). */
  lemma {:induction false} ShlBound(x: nat, a: nat, b: nat)
    requires x < Pow2(a)
    ensures Shl(x, b) + Pow2(b) <= Pow2(a + b)
    decreases b
  {
    if b > 0 {
      ShlBound(x, a, b - 1);
    }
  }

  /** A shift past the word leaves nothing in the word. */
  lemma ShlWord(x: nat, n: nat)
    requires 64 <= n
    ensures Shl(x, n) % TWO64 == 0
  {
    hide Shl, Pow2;
    ShlAdd(x, n - 64, 64);
    ShlMul(Shl(x, n - 64), 64);
    Pow2Word(64);
    MultipleOfWord(Shl(x, n - 64));
  }

  lemma MultipleOfWord(y: nat)
    ensures y * TWO64 % TWO64 == 0
  {
  }

  lemma MulTwice(x: int, m: int)
    ensures 2 * (x * m) == x * (2 * m)
  {
  }

  lemma {:induction false} ShlMul(x: nat, n: nat)
    ensures Shl(x, n) == x * Pow2(n)
    decreases n
  {
    if n > 0 {
      ShlMul(x, n - 1);
      MulTwice(x, Pow2(n - 1));
    }
  }

  lemma {:induction false} LowSmall(x: nat, n: nat)
    requires x < Pow2(n)
    ensures Low(x, n) == x
    decreases n
  {
    if n > 0 {
      LowSmall(x / 2, n - 1);
    }
  }

  lemma {:induction false} LowBound(x: int, n: nat)
    ensures Low(x, n) < Pow2(n)
    decreases n
  {
    if n > 0 {
      LowBound(x / 2, n - 1);
    }
  }

  lemma MulAtLeast(e: nat, d: nat)
    requires 1 <= e
    ensures d <= e * d
  {
  }

  lemma NoSmallMultiple(e: int, d: nat, t: int)
    requires e * d == t && t < d && -t < d
    ensures e == 0
  {
    if e > 0 {
      MulAtLeast(e, d);
    } else if e < 0 {
      assert -e * d == -t;
      MulAtLeast(-e, d);
    }
  }

  lemma QuotientIs(x: int, d: nat, q: int, r: nat)
    requires r < d && x == q * d + r
    ensures x / d == q && x % d == r
  {
    var e := x / d - q;
    assert x == (x / d) * d + x % d;
    assert e * d == r - x % d;
    NoSmallMultiple(e, d, r - x % d);
  }

  lemma HalfMod(x: int, m: nat)
    requires 0 < m
    ensures 2 * (x / 2 % m) + x % 2 == x % (2 * m)
  {
    var q, r := x / 2 / m, x / 2 % m;
    assert x == 2 * (q * m + r) + x % 2;
    MulTwice(q, m);
    QuotientIs(x, 2 * m, q, 2 * r + x % 2);
  }

  /** The n low bits are the remainder. */
  lemma {:induction false} LowMod(x: int, n: nat)
    ensures Low(x, n) == x % Pow2(n)
    decreases n
  {
    if n > 0 {
      LowMod(x / 2, n - 1);
      HalfMod(x, Pow2(n - 1));
    }
  }

  /** Masking with n low ones keeps the n low bits. */
  lemma {:induction false} AndLow(x: nat, n: nat)
    ensures And(x, Pow2(n) - 1) == Low(x, n)
    decreases n
  {
    if n > 0 {
      AndLow(x / 2, n - 1);
      var m := Pow2(n - 1);
      assert (2 * m - 1) / 2 == m - 1 && (2 * m - 1) % 2 == 1;
      if x == 0 {
        LowSmall(0, n);
      }
    }
  }

  /** A mask whose n low bits are zero ignores the n low bits of its operand. */
  lemma {:induction false} AndShift(x: nat, y: nat, n: nat)
    ensures And(x, Shl(y, n)) == Shl(And(Shr(x, n), y), n)
    decreases n
  {
    if n > 0 {
      AndShift(x / 2, y, n - 1);
      var z := Shl(y, n - 1);
      assert 2 * z / 2 == z && 2 * z % 2 == 0;
      assert And(x, 2 * z) == 2 * And(x / 2, z);
    }
  }

  /** Setting bits that are all clear is addition. */
  lemma {:induction false} OrDisjoint(v: nat, b: nat, n: nat)
    requires v < Pow2(n)
    ensures Or(v, Shl(b, n)) == v + Shl(b, n)
    ensures Or(Shl(b, n), v) == v + Shl(b, n)
    decreases n
  {
    if n > 0 {
      OrDisjoint(v / 2, b, n - 1);
      var z := Shl(b, n - 1);
      assert 2 * z / 2 == z && 2 * z % 2 == 0;
    }
  }

  /** Exclusive-or with n low ones complements n bits. */
  lemma {:induction false} XorOnes(x: nat, n: nat)
    requires x < Pow2(n)
    ensures Xor(x, Pow2(n) - 1) == Pow2(n) - 1 - x
    decreases n
  {
    if n > 0 {
      XorOnes(x / 2, n - 1);
      var m := Pow2(n - 1);
      assert (2 * m - 1) / 2 == m - 1 && (2 * m - 1) % 2 == 1;
    }
  }

  /** The mask that keeps the bits of a byte from bit n up. */
  lemma HighMask(b: byte, n: nat)
    requires n <= 8
    requires Shr(b, n) < Pow2(8 - n)
    ensures And(b, Shl(Pow2(8 - n) - 1, n)) == Shl(Shr(b, n), n)
  {
    AndShift(b, Pow2(8 - n) - 1, n);
    AndLow(Shr(b, n), 8 - n);
    LowSmall(Shr(b, n), 8 - n);
  }

  lemma ByteShr(b: nat)
    ensures Shr(b, 4) == b / 16 && Shr(b, 5) == b / 32 && Shr(b, 6) == b / 64 && Shr(b, 7) == b / 128
  {
  }

  /** A number is its high part, shifted back, and its low part. */
  lemma {:induction false} LowShr(x: nat, n: nat)
    ensures x == Shl(Shr(x, n), n) + Low(x, n)
    decreases n
  {
    if n > 0 {
      LowShr(x / 2, n - 1);
    }
  }

  /** The tag masks, as arithmetic. */
  lemma TagMasks(b: byte)
    ensures And(b, 0x80) == b / 128 * 128 && And(b, 0xC0) == b / 64 * 64
    ensures And(b, 0xE0) == b / 32 * 32 && And(b, 0xF0) == b / 16 * 16
  {
    hide And, Shr;
    ByteShr(b);
    assert And(b, 0x80) == b / 128 * 128 by { HighMask(b, 7); }
    assert And(b, 0xC0) == b / 64 * 64 by { HighMask(b, 6); }
    assert And(b, 0xE0) == b / 32 * 32 by { HighMask(b, 5); }
    assert And(b, 0xF0) == b / 16 * 16 by { HighMask(b, 4); }
  }

  /** The mask that keeps the n low bits. */
  lemma LowMask(b: nat, n: nat)
    ensures And(b, Pow2(n) - 1) == b - Shl(Shr(b, n), n)
  {
    AndLow(b, n);
    LowShr(b, n);
  }

  /** The payload masks, as arithmetic. */
  lemma PayloadMasks(b: byte)
    ensures And(b, 0x7F) == b % 128 && And(b, 0x3F) == b % 64 && And(b, 0x1F) == b % 32
    ensures And(b, 0x0F) == b % 16 && And(b, 0xFF) == b
  {
    hide And, Low, Shr;
    ByteShr(b);
    assert And(b, 0x7F) == b % 128 by { LowMask(b, 7); }
    assert And(b, 0x3F) == b % 64 by { LowMask(b, 6); }
    assert And(b, 0x1F) == b % 32 by { LowMask(b, 5); }
    assert And(b, 0x0F) == b % 16 by { LowMask(b, 4); }
    assert And(b, 0xFF) == b by { AndLow(b, 8); LowSmall(b, 8); }
  }
}
