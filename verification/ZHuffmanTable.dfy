/** The reader's Huffman tables: built from code lengths, then indexed by the next input bits. */
module ZHuffmanTable {
  import opened Bits
  import opened BitReversal
  import opened Huffman

  const FAST_BITS: nat := 9
  const FAST_SIZE: nat := 512
  const MAX_SYMBOLS: nat := 288

  /** Symbol `i` has a short code and that code starts the stream `v`. */
  ghost predicate FastMatch(lens: seq<nat>, i: nat, v: nat)
    requires i < |lens|
  {
    lens[i] <= FAST_BITS && Matches(lens, i, v)
  }

  /** `entry` packs the length and the number of the symbol below `n` that a window `j` of bits decodes to. */
  ghost predicate FastEntry(lens: seq<nat>, n: nat, j: nat, entry: nat)
    requires n <= |lens|
  {
    && (forall i :: 0 <= i < n && FastMatch(lens, i, j) ==> entry == lens[i] * 512 + i)
    && (entry != 0 ==> entry % 512 < n && FastMatch(lens, entry % 512, j) && entry / 512 == lens[entry % 512])
  }

  /** Every window maps to the symbol below `n` whose short code it starts with. */
  ghost predicate FastTable(lens: seq<nat>, n: nat, table: seq<nat>)
    requires n <= |lens|
  {
    |table| == FAST_SIZE && forall j :: 0 <= j < FAST_SIZE ==> FastEntry(lens, n, j, table[j])
  }

  /** The symbols below `n` are stored in code order. */
  ghost predicate SymbolTable(lens: seq<nat>, n: nat, size: seq<nat>, value: seq<nat>)
    requires n <= |lens|
  {
    && |size| == MAX_SYMBOLS && |value| == MAX_SYMBOLS
    && forall i {:trigger lens[i]} :: 0 <= i < n && lens[i] > 0 ==>
         Slot(lens, i) < MAX_SYMBOLS && value[Slot(lens, i)] == i && size[Slot(lens, i)] == lens[i]
  }

  class ZHuffman {
    const fast: array<nat>
    const firstcode: array<nat>
    const maxcode: array<nat>
    const firstsymbol: array<nat>
    const size: array<nat>
    const value: array<nat>

    ghost const Repr: set<object>

    ghost predicate Shape() {
      && fast.Length == FAST_SIZE && firstcode.Length == 16 && maxcode.Length == 17
      && firstsymbol.Length == 16 && size.Length == MAX_SYMBOLS && value.Length == MAX_SYMBOLS
      && {fast, firstcode, maxcode, firstsymbol, size, value} <= Repr
    }

    /** The six arrays do not overlap. */
    ghost predicate Separate() {
      && fast != firstcode && fast != maxcode && fast != firstsymbol && fast != size && fast != value
      && firstcode != maxcode && firstcode != firstsymbol && firstcode != size && firstcode != value
      && maxcode != firstsymbol && maxcode != size && maxcode != value
      && firstsymbol != size && firstsymbol != value && size != value
    }

    constructor ()
      ensures Shape() && Separate() && fresh(Repr)
    {
      fast := new nat[FAST_SIZE];
      firstcode := new nat[16];
      maxcode := new nat[17];
      firstsymbol := new nat[16];
      size := new nat[MAX_SYMBOLS];
      value := new nat[MAX_SYMBOLS];
      Repr := {fast, firstcode, maxcode, firstsymbol, size, value};
    }

    /** The per-length tables hold the canonical code ranges for lengths up to `n`. */
    ghost predicate Ranges(lens: seq<nat>, n: nat)
      requires Shape() && n <= MAX_BITS
      reads firstcode, maxcode, firstsymbol
    {
      && (forall s {:trigger firstcode[s]} :: 1 <= s <= n ==> firstcode[s] == First(lens, s))
      && (forall s {:trigger maxcode[s]} :: 1 <= s <= n ==> maxcode[s] == Shl(End(lens, s), 16 - s))
      && (forall s {:trigger firstsymbol[s]} :: 1 <= s <= n ==> firstsymbol[s] == Shorter(lens, s))
    }

    /** The tables decode exactly the canonical code of `lens`. */
    ghost predicate Decodes(lens: seq<nat>)
      requires Shape()
      reads Repr
    {
      && IsSizeList(lens) && Fits(lens)
      && Ranges(lens, MAX_BITS) && maxcode[16] == 0x1_0000
      && SymbolTable(lens, |lens|, size[..], value[..]) && FastTable(lens, |lens|, fast[..])
    }

    /** Builds the tables, or reports that the lengths leave too little room for the codes. */
    method Build(lens: seq<nat>) returns (ok: bool)
      requires Shape() && Separate() && IsSizeList(lens)
      modifies Repr
      ensures ok <==> Fits(lens)
      ensures ok ==> Decodes(lens)
    {
      var sizes := CountSizes(lens);
      forall j | 0 <= j < FAST_SIZE { fast[j] := 0; }
      var roomy := CheckSizes(lens, sizes);
      if !roomy {
        return false;
      }
      var nextCode := new nat[16](_ => 0);
      var fits := FillRanges(lens, sizes, nextCode);
      if !fits {
        return false;
      }
      maxcode[16] := 0x1_0000;
      FillSymbols(lens, nextCode);
      return true;
    }

    method CountSizes(lens: seq<nat>) returns (sizes: array<nat>)
      requires IsSizeList(lens)
      ensures fresh(sizes) && sizes.Length == 17 && sizes[0] == 0
      ensures forall s :: 1 <= s <= 16 ==> sizes[s] == Count(lens, s)
    {
      sizes := new nat[17](_ => 0);
      for i := 0 to |lens|
        invariant forall s :: 0 <= s <= 16 ==> sizes[s] == CountIn(lens, i, s)
      {
        sizes[lens[i]] := sizes[lens[i]] + 1;
      }
      sizes[0] := 0;
    }

    /** A length with more than 2^length symbols cannot fit. */
    method CheckSizes(lens: seq<nat>, sizes: array<nat>) returns (ok: bool)
      requires sizes.Length == 17
      requires forall s :: 1 <= s <= 16 ==> sizes[s] == Count(lens, s)
      ensures !ok ==> !Fits(lens)
    {
      for i := 1 to 16 {
        if sizes[i] > Pow2(i) {
          assert End(lens, i) > Pow2(i);
          return false;
        }
      }
      return true;
    }

    /** Walks the lengths, giving each its first code; `nextCode` is left at the first codes. */
    method FillRanges(lens: seq<nat>, sizes: array<nat>, nextCode: array<nat>) returns (ok: bool)
      requires Shape() && Separate() && sizes !in Repr && sizes.Length == 17
      requires nextCode !in Repr && nextCode != sizes && nextCode.Length == 16
      requires forall s :: 1 <= s <= 16 ==> sizes[s] == Count(lens, s)
      modifies firstcode, maxcode, firstsymbol, nextCode
      ensures ok <==> Fits(lens)
      ensures ok ==> Ranges(lens, MAX_BITS)
      ensures ok ==> forall s {:trigger nextCode[s]} :: 1 <= s <= MAX_BITS ==> nextCode[s] == First(lens, s)
    {
      hide First, End, Shorter, Count, Shl, Pow2, FitsBelow, Fits;
      RangesStart(lens);
      var code, k := 0, 0;
      for i := 1 to 16
        invariant code == First(lens, i) && k == Shorter(lens, i)
        invariant FitsBelow(lens, i)
        invariant Ranges(lens, i - 1)
        invariant forall s {:trigger nextCode[s]} :: 1 <= s < i ==> nextCode[s] == First(lens, s)
      {
        RangesNext(lens, i);
        nextCode[i] := code;
        firstcode[i] := code;
        firstsymbol[i] := k;
        code := code + sizes[i];
        if sizes[i] > 0 {
          if code - 1 >= Pow2(i) {
            FitsNot(lens, i);
            return false;
          }
        }
        FitsNext(lens, i);
        maxcode[i] := Shl(code, 16 - i);
        code := 2 * code;
        k := k + sizes[i];
      }
      assert Fits(lens) by { FitsAll(lens); }
      return true;
    }

    /** Gives the symbols their codes in turn, and enters each short code under every window it starts. */
    method FillSymbols(lens: seq<nat>, nextCode: array<nat>)
      requires Shape() && Separate() && IsSizeList(lens) && Fits(lens) && Ranges(lens, MAX_BITS)
      requires nextCode !in Repr && nextCode.Length == 16
      requires forall s {:trigger nextCode[s]} :: 1 <= s <= MAX_BITS ==> nextCode[s] == First(lens, s)
      requires forall j :: 0 <= j < FAST_SIZE ==> fast[j] == 0
      modifies fast, size, value, nextCode
      ensures SymbolTable(lens, |lens|, size[..], value[..]) && FastTable(lens, |lens|, fast[..])
    {
      hide First, Shorter, Fits, Pow2, SymbolTable, FastTable, Ranges;
      NothingFilled(lens, size[..], value[..], fast[..]);
      for i := 0 to |lens|
        invariant forall s {:trigger nextCode[s]} :: 1 <= s <= MAX_BITS ==>
          nextCode[s] == First(lens, s) + CountIn(lens, i, s)
        invariant SymbolTable(lens, i, size[..], value[..]) && FastTable(lens, i, fast[..])
      {
        var s := lens[i];
        if s != 0 {
          FillSymbol(lens, i, nextCode[s]);
          nextCode[s] := nextCode[s] + 1;
        } else {
          NothingToFill(lens, i, size[..], value[..], fast[..]);
        }
      }
    }

    /** Enters symbol `i` with its code. */
    method FillSymbol(lens: seq<nat>, i: nat, code: nat)
      requires Shape() && Separate() && IsSizeList(lens) && Fits(lens) && Ranges(lens, MAX_BITS)
      requires i < |lens| && lens[i] != 0 && code == Code(lens, i)
      requires SymbolTable(lens, i, size[..], value[..]) && FastTable(lens, i, fast[..])
      modifies fast, size, value
      ensures SymbolTable(lens, i + 1, size[..], value[..]) && FastTable(lens, i + 1, fast[..])
    {
      hide First, Shorter, Fits, Pow2, CountIn;
      var s := lens[i];
      SlotBound(lens, i);
      var c := code - firstcode[s] + firstsymbol[s];
      assert c == Slot(lens, i);
      ghost var sizeBefore, valueBefore, fastBefore := size[..], value[..], fast[..];
      size[c] := s;
      value[c] := i;
      SymbolTableStep(lens, i, sizeBefore, valueBefore);
      CodeBound(lens, i);
      if s <= FAST_BITS {
        FillFast(code, s, i);
      }
      FastTableStep(lens, i, fastBefore, fast[..]);
    }

    method FillFast(code: nat, s: nat, i: nat)
      requires Shape() && Separate() && 0 < s <= FAST_BITS && code < Pow2(s) && i < 512
      modifies fast
      ensures forall x :: 0 <= x < FAST_SIZE ==>
                fast[x] == if Rev(x, s) == code then s * 512 + i else old(fast[x])
    {
      hide Rev;
      var fastv := Or(i, Shl(s, 9));
      OrDisjoint(i, s, 9);
      ShlIsProduct(s, 9);
      var j := BitReverse(code, s);
      FirstWindow(code, s);
      while j < FAST_SIZE
        invariant Rev(j, s) == code
        invariant forall x :: 0 <= x < FAST_SIZE ==>
                    fast[x] == if x < j && Rev(x, s) == code then fastv else old(fast[x])
        decreases FAST_SIZE - j
      {
        fast[j] := fastv;
        NextWindow(j, s);
        j := j + Pow2(s);
      }
    }
  }

  lemma RangesStart(lens: seq<nat>)
    ensures First(lens, 1) == 0 && Shorter(lens, 1) == 0 && FitsBelow(lens, 1)
  {
  }

  /** From the codes of length `s` to those one longer. */
  lemma RangesNext(lens: seq<nat>, s: nat)
    requires s >= 1
    ensures End(lens, s) == First(lens, s) + Count(lens, s) && First(lens, s + 1) == 2 * End(lens, s)
    ensures Shorter(lens, s + 1) == Shorter(lens, s) + Count(lens, s)
  {
  }

  lemma FitsNot(lens: seq<nat>, s: nat)
    requires 1 <= s <= MAX_BITS && End(lens, s) > Pow2(s)
    ensures !Fits(lens)
  {
  }

  lemma FitsAll(lens: seq<nat>)
    requires FitsBelow(lens, 16)
    ensures Fits(lens)
  {
  }

  /** An unused length never overflows, so only used lengths need the check. */
  lemma FitsNext(lens: seq<nat>, s: nat)
    requires s >= 1 && FitsBelow(lens, s)
    requires Count(lens, s) == 0 || End(lens, s) <= Pow2(s)
    ensures FitsBelow(lens, s + 1)
  {
    if s > 1 {
      assert End(lens, s - 1) <= Pow2(s - 1);
    }
    assert End(lens, s) <= Pow2(s);
  }

  lemma NothingFilled(lens: seq<nat>, size: seq<nat>, value: seq<nat>, fast: seq<nat>)
    requires |size| == |value| == MAX_SYMBOLS && |fast| == FAST_SIZE && forall j :: 0 <= j < FAST_SIZE ==> fast[j] == 0
    ensures SymbolTable(lens, 0, size, value) && FastTable(lens, 0, fast)
  {
  }

  /** A symbol of length 0 has no code. */
  lemma NothingToFill(lens: seq<nat>, i: nat, size: seq<nat>, value: seq<nat>, fast: seq<nat>)
    requires i < |lens| && lens[i] == 0 && SymbolTable(lens, i, size, value) && FastTable(lens, i, fast)
    ensures SymbolTable(lens, i + 1, size, value) && FastTable(lens, i + 1, fast)
  {
    hide First, Shorter, CountIn;
  }

  lemma SymbolTableStep(lens: seq<nat>, i: nat, size: seq<nat>, value: seq<nat>)
    requires |lens| <= MAX_SYMBOLS && i < |lens| && lens[i] > 0
    requires SymbolTable(lens, i, size, value)
    ensures Slot(lens, i) < MAX_SYMBOLS
    ensures SymbolTable(lens, i + 1, size[Slot(lens, i) := lens[i]], value[Slot(lens, i) := i])
  {
    SlotBound(lens, i);
    forall k | 0 <= k < i && lens[k] > 0 ensures Slot(lens, k) != Slot(lens, i) {
      SlotInjective(lens, k, i);
    }
  }

  lemma FastTableStep(lens: seq<nat>, i: nat, before: seq<nat>, after: seq<nat>)
    requires IsSizeList(lens) && Fits(lens) && i < |lens| && lens[i] > 0
    requires FastTable(lens, i, before) && |after| == FAST_SIZE
    requires forall x :: 0 <= x < FAST_SIZE ==>
               after[x] == (if lens[i] <= FAST_BITS && Rev(x, lens[i]) == Code(lens, i)
                            then lens[i] * 512 + i else before[x])
    ensures FastTable(lens, i + 1, after)
  {
    forall j | 0 <= j < FAST_SIZE ensures FastEntry(lens, i + 1, j, after[j]) {
      EntryStep(lens, i, j, before[j], after[j]);
    }
  }

  /** The smallest window that starts with a code is the reversed code. */
  lemma FirstWindow(code: nat, s: nat)
    requires code < Pow2(s)
    ensures Rev(Rev(code, s), s) == code
    ensures forall x :: 0 <= x < Rev(code, s) ==> Rev(x, s) != code
  {
    var j := Rev(code, s);
    RevTwice(code, s);
    RevBound(code, s);
    LowSmall(code, s);
    LowSmall(j, s);
    forall x | 0 <= x < j ensures Rev(x, s) != code {
      LowSmall(x, s);
      if Rev(x, s) == code {
        RevInjective(x, j, s);
        assert false;
      }
    }
  }

  /** The next one is 2^s further on. */
  lemma NextWindow(j: nat, s: nat)
    ensures Rev(j + Pow2(s), s) == Rev(j, s)
    ensures forall x :: j < x < j + Pow2(s) ==> Rev(x, s) != Rev(j, s)
  {
    LowRepeats(j, s);
    RevLow(j, s, s);
    RevLow(j + Pow2(s), s, s);
    forall x | j < x < j + Pow2(s) ensures Rev(x, s) != Rev(j, s) {
      if Rev(x, s) == Rev(j, s) {
        RevInjective(x, j, s);
        LowUnique(x, j, s);
      }
    }
  }

  lemma {:induction false} LowRepeats(j: nat, s: nat)
    ensures Low(j + Pow2(s), s) == Low(j, s)
  {
    if s > 0 {
      assert (j + Pow2(s)) / 2 == j / 2 + Pow2(s - 1);
      LowRepeats(j / 2, s - 1);
    }
  }

  lemma {:induction false} LowUnique(x: nat, j: nat, s: nat)
    requires j <= x < j + Pow2(s) && Low(x, s) == Low(j, s)
    ensures x == j
  {
    if s > 0 { LowUnique(x / 2, j / 2, s - 1); }
  }

  lemma EntryStep(lens: seq<nat>, i: nat, j: nat, before: nat, after: nat)
    requires IsSizeList(lens) && Fits(lens) && i < |lens| && lens[i] > 0
    requires FastEntry(lens, i, j, before)
    requires after == if lens[i] <= FAST_BITS && Rev(j, lens[i]) == Code(lens, i)
                      then lens[i] * 512 + i else before
    ensures FastEntry(lens, i + 1, j, after)
  {
    assert (lens[i] * 512 + i) % 512 == i && (lens[i] * 512 + i) / 512 == lens[i];
    forall k | 0 <= k < i + 1 && FastMatch(lens, k, j) ensures after == lens[k] * 512 + k {
      if FastMatch(lens, i, j) {
        MatchUnique(lens, k, i, j);
      }
    }
  }
}
