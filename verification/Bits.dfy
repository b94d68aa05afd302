/** Bytes, powers of two, and the bitwise operators of C on unsigned values. */
module Bits {

  type byte = b: int | 0 <= b < 256

  const TWO_TO_THE_32: nat := 0x1_0000_0000

  function Pow2(n: nat): (p: nat)
    ensures p > 0
  {
    if n == 0 then 1 else 2 * Pow2(n - 1)
  }

  /** The bit of weight 2^i. */
  function Bit(x: nat, i: nat): nat {
    if i == 0 then x % 2 else Bit(x / 2, i - 1)
  }

  /** `x >> n`. */
  function Shr(x: nat, n: nat): nat {
    if n == 0 then x else Shr(x / 2, n - 1)
  }

  /** `x << n`, in a type wide enough to hold it. */
  function Shl(x: nat, n: nat): nat {
    if n == 0 then x else 2 * Shl(x, n - 1)
  }

  /** The low `n` bits of `x`. */
  function Low(x: nat, n: nat): nat {
    if n == 0 then 0 else x % 2 + 2 * Low(x / 2, n - 1)
  }

  // ----- bitwise operators, one bit at a time

  function And(x: nat, y: nat): nat
    decreases x
  {
    if x == 0 then 0 else (if x % 2 == 1 && y % 2 == 1 then 1 else 0) + 2 * And(x / 2, y / 2)
  }

  function Or(x: nat, y: nat): nat
    decreases x + y
  {
    if x == 0 then y
    else if y == 0 then x
    else (if x % 2 == 1 || y % 2 == 1 then 1 else 0) + 2 * Or(x / 2, y / 2)
  }

  function Xor(x: nat, y: nat): nat
    decreases x + y
  {
    if x == 0 then y
    else if y == 0 then x
    else (if x % 2 == y % 2 then 0 else 1) + 2 * Xor(x / 2, y / 2)
  }

  // ----- products, where the solver needs a hint

  lemma MulMonotone(m: nat, a: int, b: int)
    requires a <= b
    ensures m * a <= m * b
  {
  }

  lemma MulDistrib(x: int, y: int, m: int)
    ensures (x + y) * m == x * m + y * m
  {
  }

  lemma MulTwice(x: int, m: int)
    ensures x * (2 * m) == (2 * x) * m
  {
  }

  lemma MulCancel(x: nat, y: nat, m: nat)
    requires m > 0 && x * m <= y * m
    ensures x <= y
  {
    if x > y {
      MulMonotone(m, y + 1, x);
      assert false;
    }
  }

  // ----- powers of two and shifts

  lemma {:induction false} Pow2Add(a: nat, b: nat)
    ensures Pow2(a + b) == Pow2(a) * Pow2(b)
  {
    if a > 0 {
      Pow2Add(a - 1, b);
      var p, q := Pow2(a - 1), Pow2(b);
      MulDistrib(p, p, q);
    }
  }

  lemma Pow2Values()
    ensures Pow2(8) == 0x100 && Pow2(9) == 0x200 && Pow2(15) == 0x8000
    ensures Pow2(16) == 0x1_0000 && Pow2(32) == TWO_TO_THE_32
  {
    assert Pow2(4) == 0x10;
    assert Pow2(8) == 0x100;
    assert Pow2(12) == 0x1000;
    assert Pow2(16) == 0x1_0000;
    assert Pow2(20) == 0x10_0000;
    assert Pow2(24) == 0x100_0000;
    assert Pow2(28) == 0x1000_0000;
    assert Pow2(32) == TWO_TO_THE_32;
  }

  lemma SmallPowers()
    ensures Pow2(0) == 1 && Pow2(1) == 2 && Pow2(2) == 4 && Pow2(3) == 8 && Pow2(4) == 16 && Pow2(5) == 32
    ensures Pow2(6) == 64 && Pow2(7) == 128 && Pow2(8) == 256 && Pow2(9) == 512 && Pow2(10) == 1024
    ensures Pow2(11) == 2048 && Pow2(12) == 4096 && Pow2(13) == 8192
  {
  }

  lemma {:induction false} Pow2Monotone(a: nat, b: nat)
    requires a <= b
    ensures Pow2(a) <= Pow2(b)
  {
    if a < b {
      Pow2Monotone(a, b - 1);
    }
  }

  /** A shift left is a product. */
  lemma {:induction false} ShlIsProduct(x: nat, n: nat)
    ensures Shl(x, n) == x * Pow2(n)
  {
    if n > 0 { ShlIsProduct(x, n - 1); }
  }

  lemma {:induction false} ShlAdd(x: nat, a: nat, b: nat)
    ensures Shl(x, a + b) == Shl(Shl(x, a), b)
  {
    if b > 0 { ShlAdd(x, a, b - 1); }
  }

  /** A shift left distributes over a sum. */
  lemma {:induction false} ShlSum(x: nat, y: nat, n: nat)
    ensures Shl(x + y, n) == Shl(x, n) + Shl(y, n)
  {
    if n > 0 { ShlSum(x, y, n - 1); }
  }

  lemma {:induction false} ShrAdd(x: nat, a: nat, b: nat)
    ensures Shr(Shr(x, a), b) == Shr(x, a + b)
  {
    if a > 0 { ShrAdd(x / 2, a - 1, b); }
  }

  /** Any value is its low bits and the rest. */
  lemma {:induction false} LowAndRest(x: nat, n: nat)
    ensures x == Low(x, n) + Shl(Shr(x, n), n)
    ensures Low(x, n) < Pow2(n)
  {
    if n > 0 { LowAndRest(x / 2, n - 1); }
  }

  /** Placing `high` above `n` bits of `low` keeps both readable. */
  lemma {:induction false} Placed(low: nat, high: nat, n: nat)
    requires low < Pow2(n)
    ensures Low(low + Shl(high, n), n) == low
    ensures Shr(low + Shl(high, n), n) == high
  {
    if n > 0 {
      assert (low + Shl(high, n)) / 2 == low / 2 + Shl(high, n - 1);
      Placed(low / 2, high, n - 1);
    }
  }

  lemma LowSmall(x: nat, n: nat)
    requires x < Pow2(n)
    ensures Low(x, n) == x && Shr(x, n) == 0
  {
    ShlZero(n);
    Placed(x, 0, n);
  }

  lemma {:induction false} ShlZero(n: nat)
    ensures Shl(0, n) == 0
  {
    if n > 0 { ShlZero(n - 1); }
  }

  /** Reading the low part of a placed value. */
  lemma {:induction false} PlacedPart(low: nat, high: nat, m: nat, n: nat)
    requires n <= m
    ensures Low(low + Shl(high, m), n) == Low(low, n)
    ensures Shr(low + Shl(high, m), n) == Shr(low, n) + Shl(high, m - n)
  {
    if n > 0 {
      assert (low + Shl(high, m)) / 2 == low / 2 + Shl(high, m - 1);
      PlacedPart(low / 2, high, m - 1, n - 1);
    }
  }

  lemma {:induction false} PlacedBound(low: nat, high: nat, m: nat, n: nat)
    requires low < Pow2(m) && high < Pow2(n)
    ensures low + Shl(high, m) < Pow2(m + n)
  {
    if m > 0 { PlacedBound(low / 2, high, m - 1, n); }
  }

  lemma {:induction false} ShrBound(x: nat, m: nat, n: nat)
    requires n <= m && x < Pow2(m)
    ensures Shr(x, n) < Pow2(m - n)
  {
    if n > 0 { ShrBound(x / 2, m - 1, n - 1); }
  }

  lemma {:induction false} ShrAtLeast(x: nat, n: nat, b: nat)
    requires x >= Shl(b, n)
    ensures Shr(x, n) >= b
  {
    if n > 0 { ShrAtLeast(x / 2, n - 1, b); }
  }

  lemma {:induction false} ShlLess(x: nat, y: nat, n: nat)
    ensures Shl(x, n) < Shl(y, n) <==> x < y
  {
    if n > 0 { ShlLess(x, y, n - 1); }
  }

  // ----- the operators agree with arithmetic where the operands allow it

  /** Setting bits that are clear is adding them. */
  lemma {:induction false} OrDisjoint(low: nat, high: nat, n: nat)
    requires low < Pow2(n)
    ensures Or(low, Shl(high, n)) == low + Shl(high, n)
  {
    if n > 0 && low > 0 {
      OrDisjoint(low / 2, high, n - 1);
    }
  }

  lemma {:induction false} AndMask(x: nat, n: nat)
    ensures And(x, Pow2(n) - 1) == Low(x, n)
  {
    if n == 0 {
      AndZero(x);
    } else if x == 0 {
      LowSmall(0, n);
    } else {
      AndMask(x / 2, n - 1);
      AndOdd(x, Pow2(n - 1));
    }
  }

  lemma AndOdd(x: nat, m: nat)
    requires m > 0
    ensures And(x, 2 * m - 1) == x % 2 + 2 * And(x / 2, m - 1)
  {
    assert (2 * m - 1) % 2 == 1 && (2 * m - 1) / 2 == m - 1;
  }

  lemma {:induction false} AndZero(x: nat)
    ensures And(x, 0) == 0
  {
    if x > 0 { AndZero(x / 2); }
  }

  lemma {:induction false} AndBound(x: nat, y: nat)
    ensures And(x, y) <= y
  {
    if x > 0 { AndBound(x / 2, y / 2); }
  }

  lemma {:induction false} OrBound(x: nat, y: nat)
    ensures Or(x, y) <= x + y
  {
    if x > 0 && y > 0 { OrBound(x / 2, y / 2); }
  }

  lemma {:induction false} BitZero(i: nat)
    ensures Bit(0, i) == 0
  {
    if i > 0 { BitZero(i - 1); }
  }

  lemma {:induction false} BitAnd(x: nat, y: nat, i: nat)
    ensures Bit(And(x, y), i) == if Bit(x, i) == 1 && Bit(y, i) == 1 then 1 else 0
  {
    if x == 0 {
      BitZero(i);
    } else if i > 0 {
      BitAnd(x / 2, y / 2, i - 1);
    }
  }

  lemma {:induction false} BitOr(x: nat, y: nat, i: nat)
    ensures Bit(Or(x, y), i) == if Bit(x, i) == 1 || Bit(y, i) == 1 then 1 else 0
  {
    if x == 0 || y == 0 {
      BitZero(i);
      BitRange(x + y, i);
    } else if i > 0 {
      BitOr(x / 2, y / 2, i - 1);
    }
  }

  lemma {:induction false} BitRange(x: nat, i: nat)
    ensures Bit(x, i) <= 1
  {
    if i > 0 { BitRange(x / 2, i - 1); }
  }

  lemma {:induction false} BitShr(x: nat, n: nat, i: nat)
    ensures Bit(Shr(x, n), i) == Bit(x, n + i)
  {
    if n > 0 { BitShr(x / 2, n - 1, i); }
  }

  lemma {:induction false} BitShl(x: nat, n: nat, i: nat)
    ensures Bit(Shl(x, n), i) == if i < n then 0 else Bit(x, i - n)
  {
    if n > 0 && i > 0 {
      BitShl(x, n - 1, i - 1);
    }
  }

  lemma {:induction false} BitLow(x: nat, n: nat, i: nat)
    requires i < n
    ensures Bit(Low(x, n), i) == Bit(x, i)
  {
    if i > 0 { BitLow(x / 2, n - 1, i - 1); }
  }

  /** Numbers below 2^n with the same n bits are the same number. */
  lemma {:induction false} SameBits(x: nat, y: nat, n: nat)
    requires x < Pow2(n) && y < Pow2(n)
    requires forall i :: 0 <= i < n ==> Bit(x, i) == Bit(y, i)
    ensures x == y
  {
    if n > 0 {
      assert Bit(x, 0) == Bit(y, 0);
      forall i | 0 <= i < n - 1 ensures Bit(x / 2, i) == Bit(y / 2, i) {
        assert Bit(x, i + 1) == Bit(y, i + 1);
      }
      SameBits(x / 2, y / 2, n - 1);
    }
  }

  // ----- little-endian byte strings

  /** The bytes as one number, the first byte in the lowest eight bits. */
  function LE(s: seq<byte>): nat {
    if |s| == 0 then 0 else s[0] + Shl(LE(s[1..]), 8)
  }

  lemma {:induction false} LEAppend(s: seq<byte>, t: seq<byte>)
    ensures LE(s + t) == LE(s) + Shl(LE(t), 8 * |s|)
  {
    if |s| == 0 {
      assert s + t == t;
    } else {
      assert (s + t)[1..] == s[1..] + t;
      LEAppend(s[1..], t);
      ShlSum(LE(s[1..]), Shl(LE(t), 8 * |s[1..]|), 8);
      ShlAdd(LE(t), 8 * |s[1..]|, 8);
    }
  }

  /** Byte `i` of some input, or 0 past its end. */
  function ByteAt(input: seq<byte>, i: nat): byte {
    if i < |input| then input[i] else 0
  }
}
