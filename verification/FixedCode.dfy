/** The fixed Huffman code, and tokens in it. */
module FixedCode {
  import opened Wrappers
  import opened Bits
  import opened Huffman
  import opened Deflate
  import opened TokenCode

  // ----- the fixed code lengths give the codes of RFC 1951 section 3.2.6

  function FixedCount(n: nat, s: nat): nat {
    if s == 7 then (if n <= 256 then 0 else if n <= 280 then n - 256 else 24)
    else if s == 8 then (if n <= 144 then n else if n <= 280 then 144 else n - 136)
    else if s == 9 then (if n <= 144 then 0 else if n <= 256 then n - 144 else 112)
    else 0
  }

  lemma {:induction false} FixedCountIs(n: nat, s: nat)
    requires n <= 288
    ensures CountIn(FixedLengths(), n, s) == FixedCount(n, s)
  {
    if n > 0 { FixedCountIs(n - 1, s); }
  }

  lemma FixedFirst(s: nat)
    requires 1 <= s <= 9
    ensures First(FixedLengths(), s) == if s == 8 then 48 else if s == 9 then 400 else 0
  {
    if s > 1 {
      FixedFirst(s - 1);
      FixedCountIs(288, s - 1);
    }
  }

  lemma {:induction false} FixedFirstLong(s: nat)
    requires 10 <= s
    ensures First(FixedLengths(), s) == Pow2(s)
  {
    if s == 10 {
      FixedFirst(9);
      FixedCountIs(288, 9);
      Pow2Values();
    } else {
      FixedFirstLong(s - 1);
      FixedCountIs(288, s - 1);
    }
  }

  lemma FixedLengthsFit()
    ensures Fits(FixedLengths())
  {
    forall s {:trigger End(FixedLengths(), s)} | 1 <= s <= MAX_BITS ensures End(FixedLengths(), s) <= Pow2(s) {
      FixedCountIs(288, s);
      Pow2Values();
      if s < 10 {
        FixedFirst(s);
        assert Pow2(7) == 128;
      } else {
        FixedFirstLong(s);
      }
    }
  }

  lemma FixedCodeIs(i: nat)
    requires i < 288
    ensures Code(FixedLengths(), i) ==
              if i <= 143 then 0x30 + i else if i <= 255 then 0x190 + i - 144
              else if i <= 279 then i - 256 else 0xc0 + i - 280
  {
    FixedFirst(FixedLength(i));
    FixedCountIs(i, FixedLength(i));
  }

  lemma {:induction false} FixedDistanceCount(n: nat, s: nat)
    requires n <= 32
    ensures CountIn(FixedDistances(), n, s) == if s == 5 then n else 0
  {
    if n > 0 { FixedDistanceCount(n - 1, s); }
  }

  lemma {:induction false} FixedDistanceFirst(s: nat)
    requires 1 <= s
    ensures First(FixedDistances(), s) == if s <= 5 then 0 else Pow2(s)
  {
    if s > 1 {
      FixedDistanceFirst(s - 1);
      FixedDistanceCount(32, s - 1);
      assert Pow2(6) == 64;
    }
  }

  lemma FixedDistancesFit()
    ensures Fits(FixedDistances())
  {
    forall s {:trigger End(FixedDistances(), s)} | 1 <= s <= MAX_BITS ensures End(FixedDistances(), s) <= Pow2(s) {
      FixedDistanceFirst(s);
      FixedDistanceCount(32, s);
      assert Pow2(5) == 32;
    }
  }

  lemma FixedDistanceCodeIs(d: nat)
    requires d < 32
    ensures Code(FixedDistances(), d) == d
  {
    FixedDistanceFirst(5);
    FixedDistanceCount(d, 5);
  }

  // ----- tokens in the fixed code

  lemma FixedCodes()
    ensures AreCodes(FixedLengths(), FixedDistances())
  {
    FixedLengthsFit();
    FixedDistancesFit();
  }

  ghost function FixedFields(c: Coded): seq<Field>
    requires c.Valid()
  {
    c.Fields(FixedLengths(), FixedDistances())
  }

  lemma AllInFixed(cs: seq<Coded>)
    requires AllValid(cs)
    ensures AllIn(FixedLengths(), FixedDistances(), cs)
  {
    assert forall c: Coded :: c.Valid() ==> c.In(FixedLengths(), FixedDistances());
  }

  ghost function AllFields(cs: seq<Coded>): seq<Field>
    requires AllValid(cs)
  {
    AllInFixed(cs);
    AllFieldsIn(FixedLengths(), FixedDistances(), cs)
  }

  lemma AllFieldsSnoc(cs: seq<Coded>, c: Coded)
    requires AllValid(cs) && c.Valid()
    ensures AllValid(cs + [c]) && AllFields(cs + [c]) == AllFields(cs) + FixedFields(c)
  {
    AllInFixed(cs);
    AllFieldsInSnoc(FixedLengths(), FixedDistances(), cs, c);
  }

  /** A fixed-code block of encoded tokens decodes to exactly what they stand for. */
  lemma BlockOfFixed(cs: seq<Coded>, tail: seq<Field>, out: seq<byte>, room: Room, fuel: nat)
    requires AllValid(cs) && Expandable(out, Tokens(cs)) && fuel > |cs| && room.Holds(|out|)
    ensures var v := Pack(AllFields(cs) + ([SymbolField(FixedLengths(), END_OF_BLOCK)] + tail));
            Block(FixedLengths(), FixedDistances(), v, out, room, fuel) ==
              if room.Holds(|Expand(out, Tokens(cs))|) then Done(Expand(out, Tokens(cs)), Pack(tail))
              else room.Refusal()
  {
    hide Pack, Block, Expand, Expandable, AllFieldsIn;
    AllInFixed(cs);
    FixedCodes();
    Assoc(AllFields(cs), [SymbolField(FixedLengths(), END_OF_BLOCK)], tail);
    BlockOfFields(FixedLengths(), FixedDistances(), cs, tail, out, room, fuel);
  }
}
