/** `a * b / c` in 32-bit arithmetic. */
module AxbDivC {
  import opened Words
  import opened Bits

  function Sign(x: int): int {
    if x < 0 then -1 else 1
  }

  /** Division as C has it, towards zero. */
  function Quotient(x: int, y: int): (q: int)
    requires y != 0
  {
    Sign(x) * Sign(y) * (Abs(x) / Abs(y))
  }

  /** The quotient is the whole number of times the divisor goes into `x`; the rest has the sign of `x`. */
  lemma QuotientRest(x: int, y: int)
    requires y != 0
    ensures var r := x - Quotient(x, y) * y; Abs(r) < Abs(y) && (r == 0 || Sign(r) == Sign(x))
  {
    var q := Abs(x) / Abs(y);
    var rest := Abs(x) - q * Abs(y);
    DivRest(Abs(x), Abs(y));
    SignProduct(Sign(x), Sign(y), q, y, Abs(y));
    assert x - Quotient(x, y) * y == Sign(x) * rest;
  }

  lemma DivRest(x: nat, y: nat)
    requires y > 0
    ensures 0 <= x - (x / y) * y < y
  {
    assert x == (x / y) * y + x % y;
  }

  lemma SignProduct(s: int, t: int, q: int, y: int, m: int)
    requires (t == 1 && y == m) || (t == -1 && y == -m)
    ensures (s * t * q) * y == s * (q * m)
  {
    if t == 1 {
      assert (s * t * q) * y == (s * q) * m;
    } else {
      assert (s * t * q) == -(s * q);
      assert -(s * q) * -m == (s * q) * m;
    }
    assert (s * q) * m == s * (q * m);
  }

  lemma MulBound(d: int, y: nat)
    ensures d >= 1 ==> d * y >= y
    ensures d <= -1 ==> d * y <= -(y as int)
  {
  }

  /** If dividing the wrapped product by `b` gives back `a`, the product did not wrap. */
  lemma ProductCheck(a: int, b: int)
    requires b != 0 && IsInt(a) && IsInt(b)
    ensures Quotient(Wrap(a * b), b) == a <==> IsInt(a * b)
  {
    var p := Wrap(a * b);
    hide Quotient, Wrap;
    QuotientRest(p, b);
    if IsInt(a * b) {
      var q := Quotient(p, b);
      assert (a - q) * b == p - q * b by { MulDistrib(a, -q, b); }
      AbsProduct(a - q, b);
      MulBound(Abs(a - q), Abs(b));
    }
  }

  lemma AbsProduct(x: int, y: int)
    ensures Abs(x * y) == Abs(x) * Abs(y)
  {
  }

  // ----- the scaled branch, on magnitudes

  /** `x << n` in a 32-bit unsigned register. */
  function Shift32(x: nat, n: nat): nat {
    Shl(x, n) % 0x1_0000_0000
  }

  /** Shifting left and back gives the same value exactly when nothing is shifted out. */
  lemma ShiftBack(x: nat, n: nat)
    requires n <= 32
    ensures Shr(Shift32(x, n), n) == x <==> Shl(x, n) < 0x1_0000_0000
  {
    hide Shl, Shr, Pow2, Low;
    Pow2Values();
    if Shl(x, n) < 0x1_0000_0000 {
      Placed(0, x, n);
    } else {
      ShrBound(Shift32(x, n), 32, n);
      Pow2Add(32 - n, n);
      ShlIsProduct(Pow2(32 - n), n);
      ShlLess(x, Pow2(32 - n), n);
    }
  }

  lemma ShiftRange(a: nat)
    requires 0 < a < 0x8000_0000
    ensures Shl(a, 1) < 0x1_0000_0000 <= Shl(a, 32)
  {
    Pow2Values();
    ShlIsProduct(a, 32);
    MulMonotone(Pow2(32), 1, a);
  }

  /** The largest shift, below 32, that loses nothing. */
  method LargestShift(a: nat) returns (left: nat)
    requires 0 < a < 0x8000_0000
    ensures 1 <= left <= 31 && Shl(a, left) < 0x1_0000_0000 <= Shl(a, left + 1)
  {
    left := 31;
    ShiftRange(a);
    ShiftBack(a, left);
    while Shr(Shift32(a, left), left) != a
      invariant 1 <= left <= 31 && 0x1_0000_0000 <= Shl(a, left + 1)
      invariant Shr(Shift32(a, left), left) == a <==> Shl(a, left) < 0x1_0000_0000
      decreases left
    {
      left := left - 1;
      ShiftBack(a, left);
    }
  }

  /** The smallest shift that brings `b` down to `c`. */
  method SmallestShift(b: nat, c: nat) returns (right: nat)
    requires b < 0x8000_0000
    ensures Shr(b, right) <= c && (right > 0 ==> Shr(b, right - 1) > c)
  {
    right := 0;
    while Shr(b, right) > c
      invariant right <= 31 && (right > 0 ==> Shr(b, right - 1) > c)
      decreases 31 - right
    {
      Pow2Values();
      if right == 31 {
        assert Pow2(31) == 0x8000_0000 by { assert Pow2(32) == 2 * Pow2(31); }
        LowSmall(b, 31);
      }
      right := right + 1;
    }
  }

  lemma Cancel(x: nat, y: nat, m: nat)
    requires m > 0 && x * m < y * m
    ensures x < y
  {
    if x >= y {
      MulMonotone(m, y, x);
    }
  }

  /** With `q` the quotient of `x` by `c` and `b` below `(c + 1) * r`, the product is at most twice `x * r`. */
  lemma ProductBound(q: nat, c: nat, x: nat, r: nat, b: nat)
    requires c > 0 && q * c <= x && b <= (c + 1) * r
    ensures q * b <= 2 * (x * r)
  {
    MulMonotone(q, b, (c + 1) * r);
    assert q * ((c + 1) * r) == (q * c) * r + q * r;
    MulMonotone(r, q * c, x);
    MulMonotone(q, 1, c);
    MulMonotone(r, q, x);
  }

  /** From the rounding of both steps to the error of the result. */
  lemma ResultBound(a: nat, b: nat, c: nat, s: nat, q: nat, r: nat)
    requires b > 0 && c > 0 && s > 0
    requires q * c <= a * s < q * c + c && r * s <= q * b < r * s + s
    ensures r * c <= a * b && (a * b) * s < ((r + 1) * c) * s + b * c
  {
    ResultAtMost(a, b, c, s, q, r);
    ResultShort(a, b, c, s, q, r);
  }

  lemma ResultAtMost(a: nat, b: nat, c: nat, s: nat, q: nat, r: nat)
    requires s > 0 && q * c <= a * s && r * s <= q * b
    ensures r * c <= a * b
  {
    MulMonotone(c, r * s, q * b);
    MulMonotone(b, q * c, a * s);
    Regroup(c, r, s);
    Regroup(c, q, b);
    Regroup(b, q, c);
    Regroup(b, a, s);
    assert (c * q) * b == (b * q) * c;
    MulCancel(c * r, b * a, s);
  }

  lemma ResultShort(a: nat, b: nat, c: nat, s: nat, q: nat, r: nat)
    requires b > 0 && a * s < q * c + c && q * b < r * s + s
    ensures (a * b) * s < ((r + 1) * c) * s + b * c
  {
    StrictProduct(b, a * s, q * c + c);
    Regroup(b, a, s);
    assert b * (q * c + c) == c * (q * b) + b * c;
    MulMonotone(c, q * b, r * s + s);
    MulDistrib(r, 1, s);
    Regroup(c, r + 1, s);
  }

  lemma Regroup(x: int, y: int, z: int)
    ensures x * (y * z) == (x * y) * z && x * y == y * x
  {
  }

  lemma StrictProduct(b: nat, x: int, y: int)
    requires b > 0 && x < y
    ensures b * x < b * y
  {
    MulMonotone(b, x + 1, y);
    assert b * (x + 1) == b * x + b;
  }

  datatype Branch = Zero | Exact | Saturated | Scaled(shift: nat)

  lemma LeftRight(a: nat, left: nat, right: nat, shift: nat)
    requires shift + right == left
    ensures Shl(a, shift) * Pow2(right) == Shl(a, left)
  {
    ShlAdd(a, shift, right);
    ShlIsProduct(Shl(a, shift), right);
  }

  lemma BelowShift(b: nat, c: nat, right: nat)
    requires Shr(b, right) <= c
    ensures b <= (c + 1) * Pow2(right)
  {
    ShiftedDown(b, right);
    MulMonotone(Pow2(right), Shr(b, right) + 1, c + 1);
    MulDistrib(Shr(b, right), 1, Pow2(right));
  }

  /** Why the product of the scaled quotient and `b` fits a 32-bit register. */
  lemma ScaledProductFits(a: nat, b: nat, c: nat, left: nat, right: nat, q: nat)
    requires c > 0 && right <= left && Shl(a, left) < 0x8000_0000 && Shr(b, right) <= c
    requires q * c <= Shl(a, left - right)
    ensures q * b < 0x1_0000_0000
  {
    BelowShift(b, c, right);
    ProductBound(q, c, Shl(a, left - right), Pow2(right), b);
    LeftRight(a, left, right, left - right);
  }

  /** When no shift is left over, the exact quotient is large. */
  lemma SaturatedIsLarge(a: nat, b: nat, c: nat, left: nat, right: nat)
    requires left < right && Shl(a, left + 2) >= 0x1_0000_0000 && Shr(b, right - 1) > c
    ensures a * b > 0x4000_0000 * c
  {
    ShrAdd(b, left, right - 1 - left);
    ShrAtMost(Shr(b, left), right - 1 - left);
    ShiftedDown(b, left);
    ShlIsProduct(a, left + 2);
    LargeProduct(a, b, c, Shr(b, left), Pow2(left));
  }

  lemma LargeProduct(a: nat, b: nat, c: nat, d: nat, p: nat)
    requires a * (2 * (2 * p)) >= 0x1_0000_0000 && d * p <= b && c < d
    ensures a * b > 0x4000_0000 * c
  {
    assert a * (2 * (2 * p)) == 4 * (a * p);
    MulMonotone(a, d * p, b);
    assert a * (d * p) == d * (a * p);
    MulMonotone(d, 0x4000_0000, a * p);
  }

  lemma {:induction false} ShrAtMost(x: nat, n: nat)
    ensures Shr(x, n) <= x
  {
    if n > 0 {
      ShrAtMost(x / 2, n - 1);
    }
  }

  lemma ShiftedDown(x: nat, n: nat)
    ensures Shr(x, n) * Pow2(n) <= x < Shr(x, n) * Pow2(n) + Pow2(n)
  {
    LowAndRest(x, n);
    ShlIsProduct(Shr(x, n), n);
  }

  function Smaller(x: nat, y: nat): nat {
    if x < y then x else y
  }

  function Larger(x: nat, y: nat): nat {
    if x < y then y else x
  }

  /** `r` is at most the exact quotient of `a * b` by `c`, and short of it by less than one and the smaller factor
      over the scale. */
  ghost predicate Approximates(r: nat, a: nat, b: nat, c: nat, shift: nat) {
    && r * c <= a * b
    && (a * b) * Pow2(shift) < ((r + 1) * c) * Pow2(shift) + Smaller(a, b) * c
  }

  lemma ScaledFits(a: nat, left: nat, shift: nat)
    requires shift <= left && Shl(a, left + 1) < 0x1_0000_0000
    ensures Shift32(a, shift) == Shl(a, shift) && Shl(a, left) < 0x8000_0000
  {
    LeftRight(a, left, left - shift, shift);
    MulMonotone(Shl(a, shift), 1, Pow2(left - shift));
  }

  /** The scaled product, before it is shifted back. */
  function ScaledProduct(a: nat, b: nat, c: nat, shift: nat): nat
    requires c > 0
  {
    Shift32(a, shift) / c * b
  }

  /** The scaled computation, given the two shifts. */
  lemma ScaledResult(a: nat, b: nat, c: nat, left: nat, right: nat, shift: nat)
    requires 0 < b <= a && 0 < c && shift + right == left && Shl(a, left + 1) < 0x1_0000_0000 && Shr(b, right) <= c
    ensures ScaledProduct(a, b, c, shift) < 0x1_0000_0000
    ensures Approximates(Shr(ScaledProduct(a, b, c, shift), shift), a, b, c, shift)
  {
    hide Shl, Shr, Pow2, Shift32, Approximates;
    ScaledFits(a, left, shift);
    var q := Shl(a, shift) / c;
    DivRest(Shl(a, shift), c);
    ScaledProductFits(a, b, c, left, right, q);
    QuotientBound(a, b, c, shift, q);
  }

  lemma QuotientBound(a: nat, b: nat, c: nat, shift: nat, q: nat)
    requires 0 < b <= a && 0 < c && q * c <= Shl(a, shift) < q * c + c
    ensures Approximates(Shr(q * b, shift), a, b, c, shift)
  {
    ShiftedDown(q * b, shift);
    ShlIsProduct(a, shift);
    ResultBound(a, b, c, Pow2(shift), q, Shr(q * b, shift));
  }

  /** `left` is the room to shift `x` within 31 bits. */
  ghost predicate IsRoom(x: nat, left: nat) {
    Shl(x, left + 1) < 0x1_0000_0000 <= Shl(x, left + 2)
  }

  /** `right` is how far `y` must be shifted to come down to `c`. */
  ghost predicate IsDrop(y: nat, c: nat, right: nat) {
    Shr(y, right) <= c && (right > 0 ==> Shr(y, right - 1) > c)
  }

  /** Which branch is taken, and with what scale. */
  ghost predicate Chosen(how: Branch, a: nat, b: nat, c: nat) {
    exists left: nat, right: nat ::
      && IsRoom(Larger(a, b), left) && IsDrop(Smaller(a, b), c, right)
      && how == if right > left then Saturated else Scaled(left - right)
  }

  /** What is promised of the result for magnitudes. */
  ghost predicate Computed(r: nat, how: Branch, a: nat, b: nat, c: nat) {
    && Chosen(how, a, b, c)
    && match how
       case Saturated => r == 0x7FFF_FFFF && a * b > 0x4000_0000 * c
       case Scaled(shift) => Approximates(r, a, b, c, shift)
       case _ => false
  }

  lemma Swapped(r: nat, how: Branch, a: nat, b: nat, c: nat)
    requires Computed(r, how, a, b, c)
    ensures Computed(r, how, b, a, c)
  {
    Regroup(a, b, 1);
    assert Larger(a, b) == Larger(b, a) && Smaller(a, b) == Smaller(b, a);
  }

  lemma Saturates(a: nat, b: nat, c: nat, left: nat, right: nat)
    requires a >= b && IsRoom(a, left) && IsDrop(b, c, right) && right > left
    ensures Computed(0x7FFF_FFFF, Saturated, a, b, c)
  {
    SaturatedIsLarge(a, b, c, left, right);
    assert IsRoom(Larger(a, b), left) && IsDrop(Smaller(a, b), c, right);
  }

  lemma Scales(a: nat, b: nat, c: nat, left: nat, right: nat, shift: nat)
    requires 0 < b <= a && 0 < c && IsRoom(a, left) && IsDrop(b, c, right) && shift + right == left
    ensures ScaledProduct(a, b, c, shift) < 0x1_0000_0000
    ensures Computed(Shr(ScaledProduct(a, b, c, shift), shift), Scaled(shift), a, b, c)
  {
    ScaledResult(a, b, c, left, right, shift);
    assert IsRoom(Larger(a, b), left) && IsDrop(Smaller(a, b), c, right);
  }

  method OrderedDivide(a: nat, b: nat, c: nat) returns (r: nat, ghost how: Branch)
    requires 0 < b <= a < 0x8000_0000 && 0 < c < 0x8000_0000
    ensures Computed(r, how, a, b, c)
  {
    hide Computed, ScaledProduct, Pow2;
    var left := LargestShift(a);
    left := left - 1;
    var right := SmallestShift(b, c);
    if right > left {
      Saturates(a, b, c, left, right);
      r, how := 0x7FFF_FFFF, Saturated;
    } else {
      var shift := left - right;
      Scales(a, b, c, left, right, shift);
      var product := ScaledProduct(a, b, c, shift) % 0x1_0000_0000;
      r, how := Shr(product, shift), Scaled(shift);
    }
  }

  /** The branch for products that do not fit, on magnitudes. */
  method ScaledDivide(a: nat, b: nat, c: nat) returns (r: nat, ghost how: Branch)
    requires 0 < a < 0x8000_0000 && 0 < b < 0x8000_0000 && 0 < c < 0x8000_0000
    ensures Computed(r, how, a, b, c)
  {
    var x, y := a, b;
    if y > x {
      x, y := y, x;
    }
    r, how := OrderedDivide(x, y, c);
    if b > a {
      Swapped(r, how, x, y, c);
    }
  }

  /** The sign of the result. */
  function Signs(a: int, b: int, c: int): (s: int)
    ensures s == 1 || s == -1
  {
    if (a < 0) == (b < 0) then Sign(c) else -Sign(c)
  }

  lemma SignedResult(m: nat, how: Branch, a: nat, b: nat, c: nat, sign: int)
    requires c > 0 && Computed(m, how, a, b, c) && (how.Scaled? ==> a * b < 0x8000_0000 * c)
    requires (sign == 1 || sign == -1)
    ensures Wrap(Wrap(m) * sign) == m * sign && Abs(m * sign) == m
  {
    if how.Scaled? {
      Cancel(m, 0x8000_0000, c);
    }
  }

  lemma QuotientInRange(p: int, c: int)
    requires IsInt(p) && c != 0
    ensures IsInt(Quotient(p, c)) <==> !(p == -0x8000_0000 && c == -1)
  {
    var q := Abs(p) / Abs(c);
    DivRest(Abs(p), Abs(c));
    if Abs(c) >= 2 {
      MulMonotone(q, 2, Abs(c));
    }
    SignTimes(Sign(p), Sign(c), q);
  }

  lemma SignTimes(s: int, t: int, q: int)
    requires (s == 1 || s == -1) && (t == 1 || t == -1)
    ensures s * t * q == if s == t then q else -q
  {
  }

  /** What is promised of the result where the product does not fit: a magnitude `m` as computed, with the right sign,
      unless it is too large for the register. */
  ghost predicate Approximate(r: int, a: int, b: int, c: int) {
    exists m: nat, how: Branch ::
      && Computed(m, how, Abs(a), Abs(b), Abs(c)) && r == Wrap(Wrap(m) * Signs(a, b, c))
      && (how.Saturated? || Abs(a) * Abs(b) < 0x8000_0000 * Abs(c) ==> r == m * Signs(a, b, c))
  }

  /** The computation never negates -2^31, which has no negative in C: it returns before it negates, or has no
      such argument. */
  predicate Negatable(a: int, b: int, c: int) {
    || a == 0 || b == 0 || (c != 0 && IsInt(a * b))
    || (Abs(a) < 0x8000_0000 && Abs(b) < 0x8000_0000 && Abs(c) < 0x8000_0000)
  }

  /** `a * b / c`, exactly where the product fits, and approximately, from scaled magnitudes, where it does not. */
  method AxbDivC(a: int, b: int, c: int) returns (r: int)
    requires IsInt(a) && IsInt(b) && IsInt(c) && Negatable(a, b, c)
    ensures a == 0 || b == 0 ==> r == 0
    ensures a != 0 && b != 0 && c == 0 ==> r == 0x7FFF_FFFF * Signs(a, b, c)
    ensures a != 0 && b != 0 && c != 0 && IsInt(a * b) ==>
      (r == Quotient(a * b, c) <==> !(a * b == -0x8000_0000 && c == -1))
    ensures a != 0 && b != 0 && c != 0 && !IsInt(a * b) ==> Approximate(r, a, b, c)
  {
    if a == 0 || b == 0 {
      return 0;
    }
    ProductCheck(a, b);
    if Quotient(Wrap(a * b), b) == a && c != 0 {
      QuotientInRange(a * b, c);
      return Wrap(Quotient(Wrap(a * b), c));
    }
    r := BySigns(a, b, c);
  }

  /** The rest of the computation, once the product is known not to fit. */
  method BySigns(a: int, b: int, c: int) returns (r: int)
    requires 0 < Abs(a) < 0x8000_0000 && 0 < Abs(b) < 0x8000_0000 && Abs(c) < 0x8000_0000
    ensures c == 0 ==> r == 0x7FFF_FFFF * Signs(a, b, c)
    ensures c != 0 ==> Approximate(r, a, b, c)
  {
    var sign := 1;
    var x, y, z := a, b, c;
    if x < 0 {
      sign, x := -1, -x;
    }
    if y < 0 {
      sign, y := -sign, -y;
    }
    if z < 0 {
      sign, z := -sign, -z;
    }
    assert sign == Signs(a, b, c) && x == Abs(a) && y == Abs(b) && z == Abs(c);
    if z == 0 {
      return 0x7FFF_FFFF * sign;
    }
    var m;
    ghost var how;
    m, how := ScaledDivide(x, y, z);
    if how.Saturated? || x * y < 0x8000_0000 * z {
      SignedResult(m, how, x, y, z, sign);
    }
    r := Wrap(Wrap(m) * sign);
  }

  /** The one case in which the exact branch is wrong, at an input: the quotient is 2^31, which no int holds. */
  method ExactBranchFails() returns (r: int)
    ensures Quotient(-65536 * 32768, -1) == 0x8000_0000 && r != Quotient(-65536 * 32768, -1)
  {
    r := AxbDivC(-65536, 32768, -1);
  }
}
