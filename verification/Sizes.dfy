/** Tests of size computations for overflow of an int, made before memory is asked for. */
module Sizes {
  import opened Words
  import opened Bits

  predicate AddSizesValid(a: nat, b: nat) {
    a <= INT_MAX - b
  }

  predicate Mul2SizesValid(a: nat, b: nat) {
    b == 0 || a <= INT_MAX / b
  }

  predicate Mad3SizesValid(a: nat, b: nat, c: nat, add: nat) {
    Mul2SizesValid(a, b) && Mul2SizesValid(a * b, c) && AddSizesValid(a * b * c, add)
  }

  /** A number is at most a quotient exactly when its product with the divisor is at most the dividend. */
  lemma AtMostQuotient(a: nat, m: nat, d: nat)
    requires d > 0
    ensures a <= m / d <==> a * d <= m
  {
    var q := m / d;
    assert q * d <= m < (q + 1) * d;
    if a <= q {
      MulMonotone(d, a, q);
    } else {
      MulMonotone(d, q + 1, a);
    }
  }

  lemma Mul2SizesFit(a: nat, b: nat)
    ensures Mul2SizesValid(a, b) <==> a * b <= INT_MAX
  {
    if b != 0 {
      AtMostQuotient(a, INT_MAX, b);
    }
  }

  /** The three tests together accept exactly the sums that fit, unless the last factor is 0. */
  lemma Mad3SizesFit(a: nat, b: nat, c: nat, add: nat)
    requires 0 < c
    ensures Mad3SizesValid(a, b, c, add) <==> a * b * c + add <= INT_MAX
  {
    Mul2SizesFit(a, b);
    Mul2SizesFit(a * b, c);
    MulMonotone(a * b, 1, c);
  }
}
