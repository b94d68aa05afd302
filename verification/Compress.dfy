/** The zlib writer: LZ77 with lazy matching over hash chains, in the fixed Huffman code. */
module Compress {
  import opened Wrappers
  import opened Bits
  import opened BitReversal
  import opened Huffman
  import opened Deflate
  import opened TokenCode
  import opened FixedCode
  import Adler

  const ZHASH: nat := 16384

  const LENGTHC: seq<nat> := [
    3, 4, 5, 6, 7, 8, 9, 10, 11, 13, 15, 17, 19, 23, 27, 31, 35, 43, 51, 59,
    67, 83, 99, 115, 131, 163, 195, 227, 258, 259]

  const LENGTHEB: seq<nat> := [
    0, 0, 0, 0, 0, 0, 0, 0, 1, 1, 1, 1, 2, 2, 2, 2, 3, 3, 3, 3, 4, 4, 4, 4, 5, 5, 5, 5, 0]

  const DISTC: seq<nat> := [
    1, 2, 3, 4, 5, 7, 9, 13, 17, 25, 33, 49, 65, 97, 129, 193, 257, 385, 513, 769,
    1025, 1537, 2049, 3073, 4097, 6145, 8193, 12289, 16385, 24577, 32768]

  const DISTEB: seq<nat> := [
    0, 0, 0, 0, 1, 1, 2, 2, 3, 3, 4, 4, 5, 5, 6, 6, 7, 7, 8, 8, 9, 9, 10, 10, 11, 11, 12, 12, 13, 13]

  // ----- the output: bytes and a partly filled bit buffer

  class BitWriter {
    var out: seq<byte>
    var bitbuf: nat
    var bitcount: nat

    /** Everything written after the two header bytes. */
    ghost var fields: seq<Field>

    /** The bytes after the header and the buffered bits hold exactly the fields written. */
    ghost predicate Holds()
      reads this
    {
      && |out| >= 2 && bitbuf < Pow2(bitcount)
      && LE(out[2..]) + Shl(bitbuf, 8 * (|out| - 2)) == Pack(fields)
      && 8 * (|out| - 2) + bitcount == Width(fields)
    }

    ghost predicate Valid()
      reads this
    {
      Holds() && bitcount < 8
    }

    constructor ()
      ensures Valid() && fields == [] && out == [0x78, 0x5e]
    {
      out := [0x78, 0x5e];
      bitbuf, bitcount := 0, 0;
      fields := [];
    }

    /** Moves whole bytes from the bit buffer to the output. */
    method Flush()
      requires Holds()
      modifies this`out, this`bitbuf, this`bitcount
      ensures Valid() && out[..2] == old(out[..2]) && bitcount == old(bitcount) % 8
    {
      hide LE, Pack, Width, Shl, Pow2;
      while bitcount >= 8
        invariant Holds() && out[..2] == old(out[..2]) && bitcount % 8 == old(bitcount) % 8
      {
        PushByte();
      }
    }

    method PushByte()
      requires Holds() && bitcount >= 8
      modifies this`out, this`bitbuf, this`bitcount
      ensures Holds() && out[..2] == old(out[..2]) && bitcount == old(bitcount) - 8
    {
      FlushByte(out[2..], bitbuf, bitcount);
      var b := Low(bitbuf, 8);
      assert (out + [b])[2..] == out[2..] + [b] && (out + [b])[..2] == out[..2];
      out := out + [b];
      bitbuf := Shr(bitbuf, 8);
      bitcount := bitcount - 8;
    }

    /** Writes the low `codebits` bits of `code`, lowest first. */
    method Add(code: nat, codebits: nat)
      requires Valid() && code < Pow2(codebits) && codebits <= 16
      modifies this
      ensures Valid() && fields == old(fields) + [Field(code, codebits)] && out[..2] == old(out[..2])
      ensures bitcount == (old(bitcount) + codebits) % 8
    {
      hide Or, Shl, Pow2, LE, Pack, Width;
      AddField(out[2..], bitbuf, bitcount, code, codebits, fields);
      bitbuf := Or(bitbuf, Shl(code, bitcount));
      assert bitbuf < TWO_TO_THE_32;  // the shift never leaves the 32-bit word
      bitcount := bitcount + codebits;
      fields := fields + [Field(code, codebits)];
      Flush();
    }

    /** Writes a Huffman code, most significant bit first. */
    method HuffA(code: nat, codebits: nat)
      requires Valid() && codebits <= 16
      modifies this
      ensures Valid() && fields == old(fields) + [Field(Rev(code, codebits), codebits)] && out[..2] == old(out[..2])
    {
      var r := ZlibBitrev(code, codebits);
      RevBound(code, codebits);
      Add(r, codebits);
    }

    /** Writes literal, end-of-block or length symbol `n` in the fixed code. */
    method Huff(n: nat)
      requires Valid() && n < 288
      modifies this
      ensures Valid() && fields == old(fields) + [SymbolField(FixedLengths(), n)] && out[..2] == old(out[..2])
    {
      var code, codebits := FixedSymbol(n);
      HuffA(code, codebits);
    }

    /** Writes extra bits if there are any. */
    method Extra(value: nat, width: nat)
      requires Valid() && value < Pow2(width) && width <= 16
      modifies this
      ensures Valid() && fields == old(fields) + ExtraField(value, width) && out[..2] == old(out[..2])
    {
      if width != 0 {
        Add(value, width);
      }
    }

    /** Writes a match length: its symbol and extra bits. */
    method WriteLength(best: nat) returns (z: nat)
      requires Valid() && 3 <= best <= 258
      modifies this
      ensures Valid() && IsLengthCode(z, best) && out[..2] == old(out[..2])
      ensures fields
           == old(fields) + [SymbolField(FixedLengths(), 257 + z)] + ExtraField(best - LengthBase(z), LengthExtra(z))
    {
      hide LengthBase, LengthExtra, SymbolField, FixedLengths, Pow2, BitWriter.Valid;
      var base, width;
      z, base, width := FindLengthCode(best);
      Huff(z + 257);
      Extra(best - base, width);
    }

    /** Writes a match distance: its five-bit code and extra bits. */
    method WriteDistance(d: nat) returns (k: nat)
      requires Valid() && 1 <= d <= 32767
      modifies this
      ensures Valid() && IsDistCode(k, d) && out[..2] == old(out[..2])
      ensures fields == old(fields) + [SymbolField(FixedDistances(), k)] + ExtraField(d - DistBase(k), DistExtra(k))
    {
      var base, width;
      k, base, width := FindDistCode(d);
      FixedDistanceCodeIs(k);
      HuffA(k, 5);
      Extra(d - base, width);
    }

    /** Writes a length/distance pair; `c` records the codes used. */
    method WriteMatch(best: nat, d: nat) returns (ghost c: Coded)
      requires Valid() && 3 <= best <= 258 && 1 <= d <= 32767
      modifies this
      ensures Valid() && c.Valid() && c.Token() == Match(best, d)
      ensures fields == old(fields) + FixedFields(c) && out[..2] == old(out[..2])
    {
      hide LE, Pack, Width, IsLengthCode, IsDistCode, LengthBase, LengthExtra, DistBase, DistExtra, FixedFields;
      hide SymbolField, ExtraField, FixedLengths, FixedDistances, BitWriter.Valid;
      ghost var before := fields;
      var z := WriteLength(best);
      var k := WriteDistance(d);
      c := CodedMatch(best, d, z, k);
      MatchFields(before, c);
    }

    /** Pads with zero bits to a byte boundary. */
    method Pad() returns (ghost zeros: seq<Field>)
      requires Valid()
      modifies this
      ensures Valid() && bitcount == 0 && fields == old(fields) + zeros && out[..2] == old(out[..2])
      ensures Pack(zeros) == 0
    {
      zeros := [];
      while bitcount != 0
        invariant Valid() && fields == old(fields) + zeros && out[..2] == old(out[..2]) && Pack(zeros) == 0
        decreases if bitcount == 0 then 0 else 8 - bitcount
      {
        PadZero(zeros);
        Add(0, 1);
        zeros := zeros + [Field(0, 1)];
      }
    }
  }

  /** Moving the lowest byte of the bit buffer to the output keeps what is written. */
  lemma FlushByte(bytes: seq<byte>, bitbuf: nat, bitcount: nat)
    requires bitcount >= 8 && bitbuf < Pow2(bitcount)
    ensures Low(bitbuf, 8) < 256 && Shr(bitbuf, 8) < Pow2(bitcount - 8)
    ensures LE(bytes + [Low(bitbuf, 8)]) + Shl(Shr(bitbuf, 8), 8 * (|bytes| + 1))
         == LE(bytes) + Shl(bitbuf, 8 * |bytes|)
  {
    var low, high := Low(bitbuf, 8), Shr(bitbuf, 8);
    LowAndRest(bitbuf, 8);
    SmallPowers();
    ShrBound(bitbuf, bitcount, 8);
    LEAppend(bytes, [low]);
    ShlZero(8);
    assert LE([low]) == low;
    ShlSum(low, Shl(high, 8), 8 * |bytes|);
    ShlAdd(high, 8, 8 * |bytes|);
  }

  /** Placing a field above the buffered bits appends it to what is written. */
  lemma AddField(bytes: seq<byte>, bitbuf: nat, bitcount: nat, code: nat, codebits: nat, fields: seq<Field>)
    requires bitbuf < Pow2(bitcount) && bitcount < 8 && code < Pow2(codebits) && codebits <= 16
    requires LE(bytes) + Shl(bitbuf, 8 * |bytes|) == Pack(fields) && 8 * |bytes| + bitcount == Width(fields)
    ensures var b := Or(bitbuf, Shl(code, bitcount));
            && b < Pow2(bitcount + codebits) <= TWO_TO_THE_32
            && LE(bytes) + Shl(b, 8 * |bytes|) == Pack(fields + [Field(code, codebits)])
            && 8 * |bytes| + bitcount + codebits == Width(fields + [Field(code, codebits)])
  {
    hide Or, Shl, Pow2, LE, Pack, Width;
    OrDisjoint(bitbuf, code, bitcount);
    PlacedBound(bitbuf, code, bitcount, codebits);
    Pow2Monotone(bitcount + codebits, 32);
    Pow2Values();
    PackAppend(fields, [Field(code, codebits)]);
    OneField(Field(code, codebits));
    ShlSum(bitbuf, Shl(code, bitcount), 8 * |bytes|);
    ShlAdd(code, bitcount, 8 * |bytes|);
  }

  lemma OneField(f: Field)
    ensures Pack([f]) == f.value && Width([f]) == f.width
  {
    ShlZero(f.width);
    assert [f][1..] == [];
  }

  lemma FieldsAre(c: Coded)
    requires c.CodedMatch? && c.Valid()
    ensures FixedFields(c)
         == [SymbolField(FixedLengths(), 257 + c.z)]
            + (ExtraField(c.length - LengthBase(c.z), LengthExtra(c.z))
               + [SymbolField(FixedDistances(), c.d)] + ExtraField(c.distance - DistBase(c.d), DistExtra(c.d)))
  {
    hide SymbolField, ExtraField, LengthBase, LengthExtra, DistBase, DistExtra, FixedLengths, FixedDistances;
  }

  lemma MatchFields(before: seq<Field>, c: Coded)
    requires c.CodedMatch? && c.Valid()
    ensures before + [SymbolField(FixedLengths(), 257 + c.z)] + ExtraField(c.length - LengthBase(c.z), LengthExtra(c.z))
            + [SymbolField(FixedDistances(), c.d)] + ExtraField(c.distance - DistBase(c.d), DistExtra(c.d))
         == before + FixedFields(c)
  {
    var s1 := [SymbolField(FixedLengths(), 257 + c.z)];
    var e1 := ExtraField(c.length - LengthBase(c.z), LengthExtra(c.z));
    var s2 := [SymbolField(FixedDistances(), c.d)];
    var e2 := ExtraField(c.distance - DistBase(c.d), DistExtra(c.d));
    hide SymbolField, ExtraField, LengthBase, LengthExtra, DistBase, DistExtra, FixedLengths, FixedDistances;
    hide FixedFields, IsLengthCode, IsDistCode, Pow2;
    FieldsAre(c);
    Reassociate5(before, s1, e1, s2, e2);
  }

  lemma Reassociate5<T>(a: seq<T>, b: seq<T>, c: seq<T>, d: seq<T>, e: seq<T>)
    ensures a + b + c + d + e == a + (b + (c + d + e))
  {
  }

  lemma PadZero(zeros: seq<Field>)
    requires Pack(zeros) == 0
    ensures Pack(zeros + [Field(0, 1)]) == 0
  {
    PackAppend(zeros, [Field(0, 1)]);
    OneField(Field(0, 1));
    ShlZero(Width(zeros));
  }

  // ----- the code tables

  lemma LengthTables(j: nat)
    requires j <= 28
    ensures LENGTHC[j] == LengthBase(j) && LENGTHEB[j] == LengthExtra(j)
  {
    LengthBaseTable(j);
    LengthExtraTable(j);
  }

  lemma LengthExtraTable(j: nat)
    requires j <= 28
    ensures LENGTHEB[j] == LengthExtra(j)
  {
  }

  lemma LengthTableStep(j: nat)
    requires j < 27
    ensures LENGTHC[j + 1] == LENGTHC[j] + Pow2(LengthExtra(j))
  {
    SmallPowers();
  }

  lemma {:induction false} LengthBaseTable(j: nat)
    requires j <= 28
    ensures LENGTHC[j] == LengthBase(j)
  {
    if 0 < j < 28 {
      LengthTableStep(j - 1);
      LengthBaseTable(j - 1);
    }
  }

  lemma DistTables(k: nat)
    requires k <= 29
    ensures DISTC[k] == DistBase(k) && DISTEB[k] == DistExtra(k)
  {
    DistBaseTable(k);
    DistExtraTable(k);
  }

  lemma DistExtraTable(k: nat)
    requires k <= 29
    ensures DISTEB[k] == DistExtra(k)
  {
  }

  lemma DistTableStep(k: nat)
    requires k < 29
    ensures DISTC[k + 1] == DISTC[k] + Pow2(DistExtra(k))
  {
    SmallPowers();
  }

  lemma {:induction false} DistBaseTable(k: nat)
    requires k <= 29
    ensures DISTC[k] == DistBase(k)
  {
    if k > 0 {
      DistTableStep(k - 1);
      DistBaseTable(k - 1);
    }
  }

  /** The writer's four ranges of the fixed code. */
  method FixedSymbol(n: nat) returns (code: nat, codebits: nat)
    requires n < 288
    ensures code == Code(FixedLengths(), n) && codebits == FixedLengths()[n] <= 9
  {
    FixedCodeIs(n);
    if n <= 143 {
      code, codebits := 0x30 + n, 8;
    } else if n <= 255 {
      code, codebits := 0x190 + n - 144, 9;
    } else if n <= 279 {
      code, codebits := 0 + n - 256, 7;
    } else {
      code, codebits := 0xc0 + n - 280, 8;
    }
  }

  method LengthPlace(best: nat) returns (j: nat)
    requires 3 <= best <= 258
    ensures j <= 28 && LENGTHC[j] <= best < LENGTHC[j + 1]
  {
    j := 0;
    while best > LENGTHC[j + 1] - 1
      invariant j <= 28 && LENGTHC[j] <= best
      decreases 29 - j
    {
      j := j + 1;
    }
  }

  /** What a length code reaches. */
  lemma LengthReach(j: nat)
    requires j <= 28
    ensures LENGTHC[j + 1] <= LENGTHC[j] + Pow2(LengthExtra(j)) && LengthExtra(j) <= 5
  {
    SmallPowers();
    if j < 27 { LengthTableStep(j); }
  }

  /** The length code whose range holds `best`. */
  method FindLengthCode(best: nat) returns (j: nat, base: nat, width: nat)
    requires 3 <= best <= 258
    ensures IsLengthCode(j, best) && base == LengthBase(j) && width == LengthExtra(j) <= 5
  {
    hide LengthBase, LengthExtra, Pow2;
    j := LengthPlace(best);
    LengthTables(j);
    LengthReach(j);
    base, width := LENGTHC[j], LENGTHEB[j];
  }

  /** The distance code whose range holds `d`. */
  method FindDistCode(d: nat) returns (j: nat, base: nat, width: nat)
    requires 1 <= d <= 32767
    ensures IsDistCode(j, d) && base == DistBase(j) && width == DistExtra(j) <= 13
  {
    j := 0;
    while d > DISTC[j + 1] - 1
      invariant j <= 29 && DISTC[j] <= d
      decreases 30 - j
    {
      j := j + 1;
    }
    DistTables(j);
    SmallPowers();
    if j < 29 { DistTableStep(j); }
    base, width := DISTC[j], DISTEB[j];
  }

  // ----- finding matches

  /** The writer's hash of three bytes, on 32-bit words. It only picks candidates. */
  function ZHash(a: byte, b: byte, c: byte): nat {
    var h0 := a + Shl(b, 8) + Shl(c, 16);
    var h1 := Xor(h0, Shl(h0, 3) % TWO_TO_THE_32);
    var h2 := (h1 + Shr(h1, 5)) % TWO_TO_THE_32;
    var h3 := Xor(h2, Shl(h2, 4) % TWO_TO_THE_32);
    var h4 := (h3 + Shr(h3, 17)) % TWO_TO_THE_32;
    var h5 := Xor(h4, Shl(h4, 25) % TWO_TO_THE_32);
    (h5 + Shr(h5, 6)) % TWO_TO_THE_32
  }

  /** The chain for the three bytes at `i`. */
  method ChainAt(data: seq<byte>, i: nat) returns (h: nat)
    requires i + 2 < |data|
    ensures h < ZHASH
  {
    var hash := ZHash(data[i], data[i + 1], data[i + 2]);
    AndBound(hash, ZHASH - 1);
    h := And(hash, ZHASH - 1);
  }

  /** `n` bytes from `p` are the same as from `q`. */
  ghost predicate Same(data: seq<byte>, p: nat, q: nat, n: nat)
  {
    p + n <= |data| && q + n <= |data| && data[p..p + n] == data[q..q + n]
  }

  /** How many bytes agree from two positions on, at most 258. */
  method CountM(data: seq<byte>, p: nat, q: nat, limit: nat) returns (n: nat)
    requires p <= q && q + limit <= |data|
    ensures n <= limit && n <= 258 && Same(data, p, q, n)
    ensures q + limit == |data| && n < 258 ==> !Same(data, p, q, n + 1)
  {
    n := 0;
    while n < limit && n < 258
      invariant n <= limit && n <= 258 && Same(data, p, q, n)
    {
      if data[p + n] != data[q + n] {
        assert data[p..p + n + 1][n] != data[q..q + n + 1][n];
        break;
      }
      assert data[p..p + n + 1] == data[p..p + n] + [data[p + n]];
      assert data[q..q + n + 1] == data[q..q + n] + [data[q + n]];
      n := n + 1;
    }
  }

  lemma SameShorter(data: seq<byte>, p: nat, q: nat, n: nat, m: nat)
    requires Same(data, p, q, n) && m <= n
    ensures Same(data, p, q, m)
  {
    assert data[p..p + m] == data[p..p + n][..m];
    assert data[q..q + m] == data[q..q + n][..m];
  }

  /** Every recorded position is before `i`. */
  ghost predicate Before(chain: seq<nat>, i: nat) {
    forall k :: 0 <= k < |chain| ==> chain[k] < i
  }

  /** A copy of `best` bytes from `loc` produces the data at `i`, from within the window. */
  ghost predicate IsMatch(data: seq<byte>, i: nat, best: nat, loc: nat) {
    3 <= best <= 258 && loc < i && i - loc <= 32767 && Same(data, loc, i, best)
  }

  /** No candidate in the window agrees with the data at `i` on more than `best` bytes. */
  ghost predicate NoneLonger(data: seq<byte>, hlist: seq<nat>, n: nat, i: nat, best: nat)
    requires n <= |hlist|
  {
    forall k :: 0 <= k < n && hlist[k] > i - 32768 ==> !Same(data, hlist[k], i, best + 1)
  }

  lemma NoneLongerStill(data: seq<byte>, hlist: seq<nat>, n: nat, i: nat, best: nat, better: nat)
    requires n <= |hlist| && best <= better && NoneLonger(data, hlist, n, i, best)
    ensures NoneLonger(data, hlist, n, i, better)
  {
    forall k | 0 <= k < n && hlist[k] > i - 32768 ensures !Same(data, hlist[k], i, better + 1) {
      if Same(data, hlist[k], i, better + 1) {
        SameShorter(data, hlist[k], i, better + 1, best + 1);
      }
    }
  }

  /** The last of the longest matches of at least three bytes among the candidates in the window; -1 if none.
      Lengths are counted up to 258. */
  method FindMatch(data: seq<byte>, hlist: seq<nat>, i: nat) returns (best: nat, bestloc: int)
    requires i < |data| && Before(hlist, i)
    ensures bestloc >= 0 ==>
      IsMatch(data, i, best, bestloc) && (best < 258 ==> NoneLonger(data, hlist, |hlist|, i, best))
    ensures bestloc < 0 ==> best == 3 && NoneLonger(data, hlist, |hlist|, i, 2)
  {
    hide Same;
    best, bestloc := 3, -1;
    for j := 0 to |hlist|
      invariant bestloc >= 0 ==> IsMatch(data, i, best, bestloc) && (best < 258 ==> NoneLonger(data, hlist, j, i, best))
      invariant bestloc < 0 ==> best == 3 && NoneLonger(data, hlist, j, i, 2)
    {
      if hlist[j] > i - 32768 {
        var d := CountM(data, hlist[j], i, |data| - i);
        ghost var limit := if bestloc >= 0 then best else 2;
        if d < 258 && Same(data, hlist[j], i, limit + 1) && d <= limit {
          SameShorter(data, hlist[j], i, limit + 1, d + 1);
        }
        if d >= best {
          if d < 258 {
            NoneLongerStill(data, hlist, j, i, limit, d);
          }
          best, bestloc := d, hlist[j];
        }
      }
    }
  }

  /** Whether some candidate matches more than `best` bytes at `i`. */
  method BetterAt(data: seq<byte>, hlist: seq<nat>, i: nat, best: nat) returns (better: bool)
    requires i < |data| && Before(hlist, i) && best <= 258
    ensures best < 258 ==> (better <==> !NoneLonger(data, hlist, |hlist|, i, best))
    ensures best == 258 ==> !better
  {
    better := false;
    for j := 0 to |hlist|
      invariant best < 258 ==> NoneLonger(data, hlist, j, i, best)
    {
      if hlist[j] > i - 32768 {
        var e := CountM(data, hlist[j], i, |data| - i);
        if e > best {
          SameShorter(data, hlist[j], i, e, best + 1);
          return true;
        }
        if best < 258 && Same(data, hlist[j], i, best + 1) {
          SameShorter(data, hlist[j], i, best + 1, e + 1);
        }
      }
    }
  }

  /** Copying a match byte by byte yields the data, even where the copy overlaps itself. */
  lemma {:induction false} CopyIsData(data: seq<byte>, p: nat, i: nat, n: nat)
    requires p < i && Same(data, p, i, n)
    ensures Copied(data[..i], n, i - p) == data[..i + n]
    decreases n
  {
    if n > 0 {
      var s, t := data[p..p + n], data[i..i + n];
      assert s[0] == data[p] && t[0] == data[i] == data[..i + 1][i];
      assert s[1..] == data[p + 1..p + n] && t[1..] == data[i + 1..i + n];
      assert data[..i] + [data[i]] == data[..i + 1];
      CopyIsData(data, p + 1, i + 1, n - 1);
    }
  }

  // ----- the compressor

  /** `cs` are valid coded tokens that stand for the first `i` bytes. */
  ghost predicate Encodes(cs: seq<Coded>, data: seq<byte>, i: nat) {
    && i <= |data| && |cs| <= i && AllValid(cs)
    && Expandable([], Tokens(cs)) && Expand([], Tokens(cs)) == data[..i]
  }

  lemma EncodesLiteral(cs: seq<Coded>, data: seq<byte>, i: nat)
    requires Encodes(cs, data, i) && i < |data|
    ensures Encodes(cs + [CodedLiteral(data[i])], data, i + 1)
    ensures AllFields(cs + [CodedLiteral(data[i])]) == AllFields(cs) + [SymbolField(FixedLengths(), data[i])]
  {
    var c := CodedLiteral(data[i]);
    AllFieldsSnoc(cs, c);
    TokensSnoc(cs, c);
    ExpandSnoc([], Tokens(cs), c.Token());
    assert data[..i] + [data[i]] == data[..i + 1];
  }

  lemma EncodesMatch(cs: seq<Coded>, data: seq<byte>, i: nat, best: nat, loc: nat, c: Coded)
    requires Encodes(cs, data, i) && IsMatch(data, i, best, loc)
    requires c.Valid() && c.Token() == Match(best, i - loc)
    ensures Encodes(cs + [c], data, i + best)
    ensures AllFields(cs + [c]) == AllFields(cs) + FixedFields(c)
  {
    AllFieldsSnoc(cs, c);
    TokensSnoc(cs, c);
    ExpandSnoc([], Tokens(cs), c.Token());
    CopyIsData(data, loc, i, best);
  }

  /** The deflate block: last-block flag, fixed-code type, the tokens, end of block. */
  ghost function StreamFields(cs: seq<Coded>): seq<Field>
    requires AllValid(cs)
  {
    [Field(1, 1), Field(1, 2)] + AllFields(cs) + [SymbolField(FixedLengths(), END_OF_BLOCK)]
  }

  /** A zlib stream for `data`: header, one block for the tokens `cs` padded with `zeros`, checksum. */
  ghost predicate IsZlib(out: seq<byte>, cs: seq<Coded>, zeros: seq<Field>, data: seq<byte>) {
    && |out| >= 6 && out[..2] == [0x78, 0x5e]
    && Encodes(cs, data, |data|) && Pack(zeros) == 0
    && LE(out[2..|out| - 4]) == Pack(StreamFields(cs) + zeros)
    && 8 * (|out| - 6) == Width(StreamFields(cs) + zeros)
    && out[|out| - 4..] == Adler.Bytes(data)
  }

  ghost predicate AllBefore(table: seq<seq<nat>>, i: nat) {
    forall h :: 0 <= h < |table| ==> Before(table[h], i)
  }

  /** Looks for a match at `i`, records `i` in its chain (dropping the older half of a full one),
      and gives the match up if the next byte has a longer one. */
  method Search(data: seq<byte>, table: array<seq<nat>>, i: nat, quality: nat) returns (best: nat, bestloc: int)
    requires i + 3 < |data| && table.Length == ZHASH && AllBefore(table[..], i)
    modifies table
    ensures AllBefore(table[..], i + 1)
    ensures bestloc >= 0 ==> IsMatch(data, i, best, bestloc)
  {
    var h := ChainAt(data, i);
    assert Before(table[..][h], i);
    best, bestloc := FindMatch(data, table[h], i);
    if |table[h]| == 2 * quality {
      table[h] := table[h][quality..];
    }
    table[h] := table[h] + [i];
    assert AllBefore(table[..], i + 1);
    if bestloc >= 0 {
      h := ChainAt(data, i + 1);
      assert Before(table[..][h], i + 1);
      var better := BetterAt(data, table[h], i + 1, best);
      if better {
        bestloc := -1;
      }
    }
  }

  /** Writes byte `i` as a literal. */
  method WriteLiteral(w: BitWriter, data: seq<byte>, i: nat, ghost cs: seq<Coded>, ghost start: seq<Field>)
    returns (ghost cs': seq<Coded>)
    requires w.Valid() && i < |data| && Encodes(cs, data, i) && w.fields == start + AllFields(cs)
    modifies w
    ensures w.Valid() && w.out[..2] == old(w.out[..2])
    ensures Encodes(cs', data, i + 1) && w.fields == start + AllFields(cs')
  {
    EncodesLiteral(cs, data, i);
    cs' := cs + [CodedLiteral(data[i])];
    Assoc(start, AllFields(cs), [SymbolField(FixedLengths(), data[i])]);
    w.Huff(data[i]);
  }

  /** Writes the match or the literal chosen for position `i`. */
  method WriteToken(w: BitWriter, data: seq<byte>, i: nat, best: nat, bestloc: int, ghost cs: seq<Coded>,
        ghost start: seq<Field>)
    returns (next: nat, ghost cs': seq<Coded>)
    requires w.Valid() && i < |data| && Encodes(cs, data, i) && w.fields == start + AllFields(cs)
    requires bestloc >= 0 ==> IsMatch(data, i, best, bestloc)
    modifies w
    ensures w.Valid() && w.out[..2] == old(w.out[..2]) && i < next
    ensures Encodes(cs', data, next) && w.fields == start + AllFields(cs')
  {
    if bestloc >= 0 {
      ghost var c := w.WriteMatch(best, i - bestloc);
      EncodesMatch(cs, data, i, best, bestloc, c);
      Assoc(start, AllFields(cs), FixedFields(c));
      cs' := cs + [c];
      next := i + best;
    } else {
      cs' := WriteLiteral(w, data, i, cs, start);
      next := i + 1;
    }
  }

  /** The main loop, then the last bytes as literals. */
  method CompressBytes(w: BitWriter, data: seq<byte>, quality: nat, ghost start: seq<Field>)
    returns (ghost cs: seq<Coded>)
    requires w.Valid() && w.fields == start
    modifies w
    ensures w.Valid() && w.out[..2] == old(w.out[..2])
    ensures Encodes(cs, data, |data|) && w.fields == start + AllFields(cs)
  {
    var table := new seq<nat>[ZHASH](_ => []);
    cs := [];
    var i: nat := 0;
    while i < |data| - 3
      invariant w.Valid() && w.out[..2] == old(w.out[..2])
      invariant Encodes(cs, data, i) && w.fields == start + AllFields(cs)
      invariant fresh(table) && table.Length == ZHASH && AllBefore(table[..], i)
    {
      var best, bestloc := Search(data, table, i, quality);
      ghost var before := i;
      i, cs := WriteToken(w, data, i, best, bestloc, cs, start);
      BeforeLater(table[..], before + 1, i);
    }
    while i < |data|
      invariant w.Valid() && w.out[..2] == old(w.out[..2])
      invariant Encodes(cs, data, i) && w.fields == start + AllFields(cs)
    {
      cs := WriteLiteral(w, data, i, cs, start);
      i := i + 1;
    }
  }

  lemma BeforeLater(table: seq<seq<nat>>, i: nat, j: nat)
    requires AllBefore(table, i) && i <= j
    ensures AllBefore(table, j)
  {
    forall h | 0 <= h < |table| ensures Before(table[h], j) {
      assert Before(table[h], i);
    }
  }

  lemma Assemble(out: seq<byte>, fields: seq<Field>, cs: seq<Coded>, zeros: seq<Field>, data: seq<byte>)
    requires |out| >= 2 && out[..2] == [0x78, 0x5e]
    requires Encodes(cs, data, |data|) && Pack(zeros) == 0
    requires fields == [Field(1, 1), Field(1, 2)] + AllFields(cs) + [SymbolField(FixedLengths(), END_OF_BLOCK)] + zeros
    requires LE(out[2..]) == Pack(fields) && 8 * (|out| - 2) == Width(fields)
    ensures IsZlib(out + Adler.Bytes(data), cs, zeros, data)
  {
    var all := out + Adler.Bytes(data);
    assert all[..2] == out[..2];
    assert all[2..|all| - 4] == out[2..];
    assert all[|all| - 4..] == Adler.Bytes(data);
    assert fields == StreamFields(cs) + zeros;
  }

  /** Compresses `data`; `cs` and `zeros` record the tokens and padding written. */
  method ZlibCompress(data: seq<byte>, quality: int)
    returns (out: seq<byte>, ghost cs: seq<Coded>, ghost zeros: seq<Field>)
    ensures IsZlib(out, cs, zeros, data)
  {
    var q: nat := if quality < 5 then 5 else quality;
    var w := new BitWriter();
    StartBlock(w);
    cs := CompressBytes(w, data, q, w.fields);
    zeros := FinishBlock(w);
    var adler := Adler.Adler32(data);
    out := w.out + adler;
    Assemble(w.out, w.fields, cs, zeros, data);
  }

  method StartBlock(w: BitWriter)
    requires w.Valid() && w.fields == []
    modifies w
    ensures w.Valid() && w.out[..2] == old(w.out[..2]) && w.fields == [Field(1, 1), Field(1, 2)]
  {
    SmallPowers();
    w.Add(1, 1);
    w.Add(1, 2);
  }

  /** End of block, then zeros up to a whole byte. */
  method FinishBlock(w: BitWriter) returns (ghost zeros: seq<Field>)
    requires w.Valid()
    modifies w
    ensures |w.out| >= 2 && w.out[..2] == old(w.out[..2]) && Pack(zeros) == 0
    ensures w.fields == old(w.fields) + [SymbolField(FixedLengths(), END_OF_BLOCK)] + zeros
    ensures LE(w.out[2..]) == Pack(w.fields) && 8 * (|w.out| - 2) == Width(w.fields)
  {
    hide LE, Pack, Width;
    w.Huff(END_OF_BLOCK);
    zeros := w.Pad();
    ShlZero(8 * (|w.out| - 2));
  }
}
