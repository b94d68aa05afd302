/** Reversing the order of bits: the writer's loop and the reader's mask network. */
module BitReversal {
  import opened Bits

  /** The low `n` bits of `v`, the first one taken becoming the most significant:
      the order in which RFC 1951 section 3.1.1 packs Huffman codes. */
  function Rev(v: nat, n: nat): nat {
    if n == 0 then 0 else 2 * Rev(v, n - 1) + Bit(v, n - 1)
  }

  lemma {:induction false} RevBound(v: nat, n: nat)
    ensures Rev(v, n) < Pow2(n)
  {
    if n > 0 {
      RevBound(v, n - 1);
      BitRange(v, n - 1);
    }
  }

  /** The writer's loop: shift the result left, take the lowest bit, drop it. */
  method ZlibBitrev(code: nat, codebits: nat) returns (res: nat)
    ensures res == Rev(code, codebits)
  {
    res := 0;
    var c: nat, k: nat := code, codebits;
    while k > 0
      invariant k <= codebits
      invariant c == Shr(code, codebits - k)
      invariant res == Rev(code, codebits - k)
    {
      BitShr(code, codebits - k, 0);
      OrDisjoint(c % 2, res, 1);
      ShrAdd(code, codebits - k, 1);
      res := Or(c % 2, Shl(res, 1));
      c := Shr(c, 1);
      k := k - 1;
    }
  }

  lemma {:induction false} RevFirst(v: nat, n: nat)
    requires n > 0
    ensures Rev(v, n) == Shl(v % 2, n - 1) + Rev(v / 2, n - 1)
  {
    if n > 1 {
      RevFirst(v, n - 1);
    }
  }

  /** The low bits, one more at the top. */
  lemma {:induction false} LowTopBit(x: nat, n: nat)
    ensures Low(x, n + 1) == Low(x, n) + Shl(Bit(x, n), n)
  {
    if n > 0 { LowTopBit(x / 2, n - 1); }
  }

  /** Reversing twice gives the low bits back. */
  lemma {:induction false} RevTwice(c: nat, n: nat)
    ensures Rev(Rev(c, n), n) == Low(c, n)
  {
    if n > 0 {
      BitRange(c, n - 1);
      RevFirst(Rev(c, n), n);
      RevTwice(c, n - 1);
      LowTopBit(c, n - 1);
    }
  }

  /** Only the low `n` bits matter. */
  lemma {:induction false} RevLow(v: nat, m: nat, n: nat)
    requires n <= m
    ensures Rev(Low(v, m), n) == Rev(v, n)
  {
    if n > 0 {
      RevLow(v, m, n - 1);
      BitLow(v, m, n - 1);
    }
  }

  /** Equal reversals mean equal low bits. */
  lemma RevInjective(x: nat, y: nat, n: nat)
    requires Rev(x, n) == Rev(y, n)
    ensures Low(x, n) == Low(y, n)
  {
    RevTwice(x, n);
    RevTwice(y, n);
  }

  /** Shortening the window drops the bits taken last. */
  lemma {:induction false} RevPrefix(v: nat, s: nat, n: nat)
    requires s <= n
    ensures Shr(Rev(v, n), n - s) == Rev(v, s)
  {
    if s < n {
      BitRange(v, n - 1);
      RevPrefix(v, s, n - 1);
    }
  }

  lemma {:induction false} BitRev(v: nat, n: nat, i: nat)
    requires i < n
    ensures Bit(Rev(v, n), i) == Bit(v, n - 1 - i)
  {
    BitRange(v, n - 1);
    if i > 0 {
      BitRev(v, n - 1, i - 1);
    }
  }

  // ----- the reader's 16-bit network

  /** One stage: exchange the groups of `sh` bits selected by `hi` and `lo`. */
  function SwapGroups(n: nat, hi: nat, lo: nat, sh: nat): nat {
    Or(Shr(And(n, hi), sh), Shl(And(n, lo), sh))
  }

  function BitReverse16(n: nat): nat {
    var n1 := SwapGroups(n, 0xAAAA, 0x5555, 1);
    var n2 := SwapGroups(n1, 0xCCCC, 0x3333, 2);
    var n4 := SwapGroups(n2, 0xF0F0, 0x0F0F, 4);
    SwapGroups(n4, 0xFF00, 0x00FF, 8)
  }

  /** Which bits a stage moves where. */
  lemma SwapGroupsBit(n: nat, hi: nat, lo: nat, sh: nat, i: nat)
    ensures Bit(SwapGroups(n, hi, lo, sh), i)
         == if (Bit(n, i + sh) == 1 && Bit(hi, i + sh) == 1)
            || (i >= sh && Bit(n, i - sh) == 1 && Bit(lo, i - sh) == 1) then 1 else 0
  {
    var down, up := Shr(And(n, hi), sh), Shl(And(n, lo), sh);
    BitOr(down, up, i);
    BitShr(And(n, hi), sh, i);
    BitAnd(n, hi, sh + i);
    BitShl(And(n, lo), sh, i);
    if i >= sh { BitAnd(n, lo, i - sh); }
  }

  /** A stage at bit `i`, knowing what its masks select on either side. */
  lemma SwapGroupsAt(n: nat, hi: nat, lo: nat, sh: nat, i: nat, up: bool)
    requires Bit(hi, i + sh) == if up then 1 else 0
    requires i >= sh ==> Bit(lo, i - sh) == if up then 0 else 1
    requires !up ==> i >= sh
    ensures Bit(SwapGroups(n, hi, lo, sh), i) == Bit(n, if up then i + sh else i - sh)
  {
    SwapGroupsBit(n, hi, lo, sh, i);
    BitRange(n, if up then i + sh else i - sh);
  }

  /** `n` ones. */
  lemma {:induction false} OnesBit(n: nat, i: nat)
    ensures Bit(Pow2(n) - 1, i) == if i < n then 1 else 0
  {
    if n == 0 {
      BitZero(i);
    } else if i > 0 {
      assert (Pow2(n) - 1) / 2 == Pow2(n - 1) - 1;
      OnesBit(n - 1, i - 1);
    }
  }

  /** A pattern of `w` bits, twice. */
  lemma {:induction false} TwiceBit(low: nat, high: nat, w: nat, i: nat)
    requires low < Pow2(w)
    ensures Bit(low + Shl(high, w), i) == if i < w then Bit(low, i) else Bit(high, i - w)
  {
    if w > 0 && i > 0 {
      assert (low + Shl(high, w)) / 2 == low / 2 + Shl(high, w - 1);
      TwiceBit(low / 2, high, w - 1, i - 1);
    }
  }

  /** The bits of a pattern of `w` bits, written twice. */
  lemma RepeatedBit(x: nat, low: nat, w: nat, i: nat)
    requires low < Pow2(w) && x == low + Shl(low, w)
    ensures Bit(x, i) == Bit(low, if i < w then i else i - w)
  {
    TwiceBit(low, low, w, i);
  }

  lemma Ones(i: nat)
    ensures Bit(0x1, i) == (if i < 1 then 1 else 0) && Bit(0x3, i) == (if i < 2 then 1 else 0)
    ensures Bit(0xF, i) == if i < 4 then 1 else 0
  {
    OnesBit(1, i);
    OnesBit(2, i);
    OnesBit(4, i);
  }

  lemma Bits5(i: nat)
    ensures Bit(0x5, i) == if i < 4 && i % 2 == 0 then 1 else 0
  {
    RepeatedBit(0x5, 0x1, 2, i);
    Ones(if i < 2 then i else i - 2);
  }

  lemma Bits55(i: nat)
    ensures Bit(0x55, i) == if i < 8 && i % 2 == 0 then 1 else 0
  {
    RepeatedBit(0x55, 0x5, 4, i);
    Bits5(if i < 4 then i else i - 4);
  }

  lemma MaskBits1(i: nat)
    ensures Bit(0x5555, i) == if i < 16 && i % 2 == 0 then 1 else 0
  {
    RepeatedBit(0x5555, 0x55, 8, i);
    Bits55(if i < 8 then i else i - 8);
  }

  lemma Bits33(i: nat)
    ensures Bit(0x33, i) == if i < 8 && i / 2 % 2 == 0 then 1 else 0
  {
    RepeatedBit(0x33, 0x3, 4, i);
    Ones(if i < 4 then i else i - 4);
  }

  lemma MaskBits2(i: nat)
    ensures Bit(0x3333, i) == if i < 16 && i / 2 % 2 == 0 then 1 else 0
  {
    RepeatedBit(0x3333, 0x33, 8, i);
    Bits33(if i < 8 then i else i - 8);
  }

  lemma MaskBits4(i: nat)
    ensures Bit(0x0F0F, i) == if i < 16 && i / 4 % 2 == 0 then 1 else 0
  {
    RepeatedBit(0x0F0F, 0xF, 8, i);
    Ones(if i < 8 then i else i - 8);
  }

  /** Where the exchanges of groups of 1, 2, 4 and 8 find bit `i`, the last exchange first. */
  function Source8(i: nat): nat {
    if i < 8 then i + 8 else i - 8
  }

  function Source4(i: nat): nat {
    if i / 4 % 2 == 0 then i + 4 else i - 4
  }

  function Source2(i: nat): nat {
    if i / 2 % 2 == 0 then i + 2 else i - 2
  }

  function Source1(i: nat): nat {
    if i % 2 == 0 then i + 1 else i - 1
  }

  lemma SwapBy1(n: nat, i: nat)
    requires i < 16
    ensures Bit(SwapGroups(n, 0xAAAA, 0x5555, 1), i) == Bit(n, Source1(i))
  {
    assert 0xAAAA == Shl(0x5555, 1);
    BitShl(0x5555, 1, i + 1);
    MaskBits1(i);
    if i >= 1 { MaskBits1(i - 1); }
    SwapGroupsAt(n, 0xAAAA, 0x5555, 1, i, i % 2 == 0);
  }

  lemma SwapBy2(n: nat, i: nat)
    requires i < 16
    ensures Bit(SwapGroups(n, 0xCCCC, 0x3333, 2), i) == Bit(n, Source2(i))
  {
    assert 0xCCCC == Shl(0x3333, 2);
    BitShl(0x3333, 2, i + 2);
    MaskBits2(i);
    if i >= 2 { MaskBits2(i - 2); }
    SwapGroupsAt(n, 0xCCCC, 0x3333, 2, i, i / 2 % 2 == 0);
  }

  lemma SwapBy4(n: nat, i: nat)
    requires i < 16
    ensures Bit(SwapGroups(n, 0xF0F0, 0x0F0F, 4), i) == Bit(n, Source4(i))
  {
    assert 0xF0F0 == Shl(0x0F0F, 4);
    BitShl(0x0F0F, 4, i + 4);
    MaskBits4(i);
    if i >= 4 { MaskBits4(i - 4); }
    SwapGroupsAt(n, 0xF0F0, 0x0F0F, 4, i, i / 4 % 2 == 0);
  }

  lemma SwapBy8(n: nat, i: nat)
    requires i < 16
    ensures Bit(SwapGroups(n, 0xFF00, 0x00FF, 8), i) == Bit(n, Source8(i))
  {
    assert 0xFF00 == Shl(0x00FF, 8);
    BitShl(0x00FF, 8, i + 8);
    OnesBit(8, i);
    if i >= 8 { OnesBit(8, i - 8); }
    SwapGroupsAt(n, 0xFF00, 0x00FF, 8, i, i < 8);
  }

  lemma SourcesReverse(i: nat)
    requires i < 16
    ensures Source8(i) < 16 && Source4(Source8(i)) < 16 && Source2(Source4(Source8(i))) < 16
    ensures Source1(Source2(Source4(Source8(i)))) == 15 - i
  {
  }

  /** Four rounds of exchanging groups of 1, 2, 4 and 8 bits reverse sixteen of them. */
  lemma NetworkReverses(n: nat, i: nat)
    requires i < 16
    ensures Bit(BitReverse16(n), i) == Bit(n, 15 - i)
  {
    hide Bit, SwapGroups, Source1, Source2, Source4, Source8;
    var n1 := SwapGroups(n, 0xAAAA, 0x5555, 1);
    var n2 := SwapGroups(n1, 0xCCCC, 0x3333, 2);
    var n4 := SwapGroups(n2, 0xF0F0, 0x0F0F, 4);
    SourcesReverse(i);
    var p := Source8(i);
    var q := Source4(p);
    var r := Source2(q);
    SwapBy8(n4, i);
    SwapBy4(n2, p);
    SwapBy2(n1, q);
    SwapBy1(n, r);
  }

  /** The mask network reverses the low 16 bits. */
  lemma BitReverse16IsRev(n: nat)
    ensures BitReverse16(n) == Rev(n, 16)
  {
    hide Bit, BitReverse16, Rev;
    forall i | 0 <= i < 16 ensures Bit(BitReverse16(n), i) == Bit(Rev(n, 16), i) {
      NetworkReverses(n, i);
      BitRev(n, 16, i);
    }
    RevBound(n, 16);
    NetworkBound(n);
    SameBits(BitReverse16(n), Rev(n, 16), 16);
  }

  lemma NetworkBound(n: nat)
    ensures BitReverse16(n) < Pow2(16)
  {
    var n4 := SwapGroups(SwapGroups(SwapGroups(n, 0xAAAA, 0x5555, 1), 0xCCCC, 0x3333, 2), 0xF0F0, 0x0F0F, 4);
    AndBound(n4, 0xFF00);
    AndBound(n4, 0x00FF);
    LastStageBound(And(n4, 0xFF00), And(n4, 0x00FF));
  }

  lemma LastStageBound(up: nat, down: nat)
    requires up <= 0xFF00 && down <= 0x00FF
    ensures Or(Shr(up, 8), Shl(down, 8)) < Pow2(16)
  {
    LowAndRest(up, 8);
    ShlIsProduct(Shr(up, 8), 8);
    ShlIsProduct(down, 8);
    assert Pow2(8) == 256 && Pow2(16) == 65536;
    OrBound(Shr(up, 8), Shl(down, 8));
  }

  /** Reverses `bits` bits by reversing 16 and shifting the rest away. */
  method BitReverse(v: nat, bits: nat) returns (r: nat)
    requires bits <= 16
    ensures r == Rev(v, bits)
  {
    BitReverse16IsRev(v);
    RevPrefix(v, bits, 16);
    r := Shr(BitReverse16(v), 16 - bits);
  }
}
