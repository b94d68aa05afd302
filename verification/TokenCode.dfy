/** Tokens as bit fields, in any pair of Huffman codes: what a writer must emit for the reader's `Deflate.Block` to give
    the tokens back. */
module TokenCode {
  import opened Wrappers
  import opened Bits
  import opened BitReversal
  import opened Huffman
  import opened Deflate

  // ----- bit fields

  /** `width` bits holding `value`, lowest bit first. */
  datatype Field = Field(value: nat, width: nat)

  ghost predicate IsField(f: Field) {
    f.value < Pow2(f.width)
  }

  function Pack(fields: seq<Field>): nat {
    if |fields| == 0 then 0 else fields[0].value + Shl(Pack(fields[1..]), fields[0].width)
  }

  function Width(fields: seq<Field>): nat {
    if |fields| == 0 then 0 else fields[0].width + Width(fields[1..])
  }

  lemma {:induction false} PackAppend(f: seq<Field>, g: seq<Field>)
    ensures Pack(f + g) == Pack(f) + Shl(Pack(g), Width(f))
    ensures Width(f + g) == Width(f) + Width(g)
  {
    if |f| == 0 {
      assert f + g == g;
    } else {
      assert (f + g)[1..] == f[1..] + g;
      PackAppend(f[1..], g);
      ShlSum(Pack(f[1..]), Shl(Pack(g), Width(f[1..])), f[0].width);
      ShlAdd(Pack(g), Width(f[1..]), f[0].width);
    }
  }

  /** The first field is read back exactly, leaving the others. */
  lemma PackFirst(f: Field, rest: seq<Field>)
    requires IsField(f)
    ensures Low(Pack([f] + rest), f.width) == f.value
    ensures Shr(Pack([f] + rest), f.width) == Pack(rest)
  {
    assert ([f] + rest)[1..] == rest;
    Placed(f.value, Pack(rest), f.width);
  }

  ghost predicate AreFields(fields: seq<Field>) {
    forall i :: 0 <= i < |fields| ==> IsField(fields[i])
  }

  lemma {:induction false} PackBound(fields: seq<Field>)
    requires AreFields(fields)
    ensures Pack(fields) < Pow2(Width(fields))
  {
    hide Pow2, Shl;
    if |fields| == 0 {
      SmallPowers();
    } else {
      PackBound(fields[1..]);
      PlacedBound(fields[0].value, Pack(fields[1..]), fields[0].width, Width(fields[1..]));
    }
  }

  // ----- symbols and tokens as fields

  /** A symbol's code goes out most significant bit first, so reversed as a field. */
  function SymbolField(lens: seq<nat>, i: nat): Field
    requires i < |lens|
  {
    Field(Rev(Code(lens, i), lens[i]), lens[i])
  }

  lemma ReadSymbolField(lens: seq<nat>, i: nat, rest: seq<Field>)
    requires IsSizeList(lens) && Fits(lens) && i < |lens| && lens[i] > 0
    ensures ReadSymbol(lens, Pack([SymbolField(lens, i)] + rest)) == Symbol(i, Pack(rest))
  {
    var f, v := SymbolField(lens, i), Pack([SymbolField(lens, i)] + rest);
    RevBound(Code(lens, i), lens[i]);
    PackFirst(f, rest);
    CodeBound(lens, i);
    RevLow(v, lens[i], lens[i]);
    RevTwice(Code(lens, i), lens[i]);
    LowSmall(Code(lens, i), lens[i]);
    ReadSymbolIs(lens, i, v);
  }

  lemma SymbolIsField(lens: seq<nat>, i: nat)
    requires i < |lens|
    ensures IsField(SymbolField(lens, i))
  {
    RevBound(Code(lens, i), lens[i]);
  }

  /** Extra bits are written only when there are any. */
  function ExtraField(value: nat, width: nat): seq<Field> {
    if width == 0 then [] else [Field(value, width)]
  }

  lemma ReadExtraField(value: nat, width: nat, rest: seq<Field>)
    requires value < Pow2(width)
    ensures Low(Pack(ExtraField(value, width) + rest), width) == value
    ensures Shr(Pack(ExtraField(value, width) + rest), width) == Pack(rest)
  {
    if width > 0 {
      PackFirst(Field(value, width), rest);
    } else {
      assert ExtraField(value, width) + rest == rest;
    }
  }

  /** `z` is the code for `length`: the length is within the extra bits' reach of the code's base. */
  predicate IsLengthCode(z: nat, length: nat) {
    z <= 28 && LengthBase(z) <= length < LengthBase(z) + Pow2(LengthExtra(z))
  }

  predicate IsDistCode(d: nat, distance: nat) {
    d <= 29 && DistBase(d) <= distance < DistBase(d) + Pow2(DistExtra(d))
  }

  /** A token together with the codes chosen for it. */
  datatype Coded = CodedLiteral(value: byte) | CodedMatch(length: nat, distance: nat, z: nat, d: nat) {
    function Token(): Token {
      match this
      case CodedLiteral(b) => Literal(b)
      case CodedMatch(length, distance, _, _) => Match(length, distance)
    }

    predicate Valid() {
      CodedMatch? ==> IsLengthCode(z, length) && IsDistCode(d, distance)
    }

    /** Its symbols have codes. */
    predicate In(lens: seq<nat>, dlens: seq<nat>) {
      match this
      case CodedLiteral(b) => b < |lens| && lens[b] > 0
      case CodedMatch(_, _, z, d) => 257 + z < |lens| && lens[257 + z] > 0 && d < |dlens| && dlens[d] > 0
    }

    ghost function Fields(lens: seq<nat>, dlens: seq<nat>): seq<Field>
      requires Valid() && In(lens, dlens)
    {
      match this
      case CodedLiteral(b) => [SymbolField(lens, b)]
      case CodedMatch(_, _, z, _) => [SymbolField(lens, 257 + z)] + PairFields(dlens)
    }

    /** What follows the length symbol. */
    ghost function PairFields(dlens: seq<nat>): seq<Field>
      requires CodedMatch? && Valid() && d < |dlens|
    {
      ExtraField(length - LengthBase(z), LengthExtra(z))
      + [SymbolField(dlens, d)] + ExtraField(distance - DistBase(d), DistExtra(d))
    }
  }

  /** Lengths of codes for literals and lengths, and for distances. */
  ghost predicate AreCodes(lens: seq<nat>, dlens: seq<nat>) {
    IsSizeList(lens) && Fits(lens) && IsSizeList(dlens) && Fits(dlens) && |dlens| <= 32
  }

  lemma TokenIsFields(lens: seq<nat>, dlens: seq<nat>, c: Coded)
    requires c.Valid() && c.In(lens, dlens)
    ensures AreFields(c.Fields(lens, dlens))
  {
    hide SymbolField, Pow2, LengthBase, LengthExtra, DistBase, DistExtra;
    match c
    case CodedLiteral(b) => SymbolIsField(lens, b);
    case CodedMatch(_, _, z, d) =>
      SymbolIsField(lens, 257 + z);
      SymbolIsField(dlens, d);
  }

  /** The reader recovers a token from its fields, and takes exactly their bits. */
  lemma ReadTokenFields(lens: seq<nat>, dlens: seq<nat>, c: Coded, rest: seq<Field>)
    requires AreCodes(lens, dlens) && c.Valid() && c.In(lens, dlens)
    ensures ReadToken(lens, dlens, Pack(c.Fields(lens, dlens) + rest)) == Next(c.Token(), Pack(rest))
    ensures TokenBits(lens, dlens, Pack(c.Fields(lens, dlens) + rest)) == Width(c.Fields(lens, dlens))
  {
    match c
    case CodedLiteral(b) =>
      ReadSymbolField(lens, b, rest);
      OneWidth(SymbolField(lens, b));
    case CodedMatch(_, _, _, _) =>
      ReadMatchFields(lens, dlens, c, rest);
  }

  lemma OneWidth(f: Field)
    ensures Width([f]) == f.width
  {
    assert [f][1..] == [];
  }

  lemma ReadMatchFields(lens: seq<nat>, dlens: seq<nat>, c: Coded, rest: seq<Field>)
    requires AreCodes(lens, dlens) && c.CodedMatch? && c.Valid() && c.In(lens, dlens)
    ensures ReadToken(lens, dlens, Pack(c.Fields(lens, dlens) + rest)) == Next(c.Token(), Pack(rest))
    ensures TokenBits(lens, dlens, Pack(c.Fields(lens, dlens) + rest)) == Width(c.Fields(lens, dlens))
  {
    hide Pack, Width, ReadMatch, PairBits, SymbolField, Fits, Coded.PairFields, ReadSymbol, Pow2;
    var f, more := SymbolField(lens, 257 + c.z), c.PairFields(dlens) + rest;
    assert c.Fields(lens, dlens) + rest == [f] + more;
    ReadSymbolField(lens, 257 + c.z, more);
    ReadPairFields(dlens, c, rest);
    SymbolWidth(lens, 257 + c.z);
    OneWidth(f);
    PackAppend([f], c.PairFields(dlens));
  }

  lemma SymbolWidth(lens: seq<nat>, i: nat)
    requires i < |lens|
    ensures SymbolField(lens, i).width == lens[i]
  {
  }

  lemma ReadPairFields(dlens: seq<nat>, c: Coded, rest: seq<Field>)
    requires IsSizeList(dlens) && Fits(dlens) && |dlens| <= 32
    requires c.CodedMatch? && c.Valid() && c.d < |dlens| && dlens[c.d] > 0
    ensures ReadMatch(257 + c.z, Pack(c.PairFields(dlens) + rest), dlens) == Next(c.Token(), Pack(rest))
    ensures PairBits(257 + c.z, Pack(c.PairFields(dlens) + rest), dlens) == Width(c.PairFields(dlens))
  {
    hide ExtraField, SymbolField, Pack, LengthBase, LengthExtra, DistBase, DistExtra, Fits, Low, Shr;
    hide ReadMatch, ReadSymbol, Pow2, PairBits, Width;
    var e1 := ExtraField(c.length - LengthBase(c.z), LengthExtra(c.z));
    var f2 := [SymbolField(dlens, c.d)];
    var e2 := ExtraField(c.distance - DistBase(c.d), DistExtra(c.d));
    ReadExtraField(c.length - LengthBase(c.z), LengthExtra(c.z), f2 + (e2 + rest));
    ReadSymbolField(dlens, c.d, e2 + rest);
    ReadExtraField(c.distance - DistBase(c.d), DistExtra(c.d), rest);
    MatchIs(dlens, c, Pack(e1 + (f2 + (e2 + rest))), Pack(e2 + rest), Pack(rest));
    PairRegroup(dlens, c, rest);
    PairWidth(dlens, c);
  }

  lemma PairRegroup(dlens: seq<nat>, c: Coded, rest: seq<Field>)
    requires c.CodedMatch? && c.Valid() && c.d < |dlens|
    ensures c.PairFields(dlens) + rest
         == ExtraField(c.length - LengthBase(c.z), LengthExtra(c.z))
            + ([SymbolField(dlens, c.d)] + (ExtraField(c.distance - DistBase(c.d), DistExtra(c.d)) + rest))
  {
    hide ExtraField, SymbolField, LengthBase, LengthExtra, DistBase, DistExtra;
  }

  lemma ExtraWidth(value: nat, width: nat)
    ensures Width(ExtraField(value, width)) == width
  {
    if width > 0 {
      OneWidth(Field(value, width));
    }
  }

  lemma PairWidth(dlens: seq<nat>, c: Coded)
    requires c.CodedMatch? && c.Valid() && c.d < |dlens|
    ensures Width(c.PairFields(dlens)) == LengthExtra(c.z) + dlens[c.d] + DistExtra(c.d)
  {
    hide ExtraField, Width, Pack, LengthBase, LengthExtra, DistBase, DistExtra, Pow2;
    var e1 := ExtraField(c.length - LengthBase(c.z), LengthExtra(c.z));
    var f2 := [SymbolField(dlens, c.d)];
    var e2 := ExtraField(c.distance - DistBase(c.d), DistExtra(c.d));
    ExtraWidth(c.length - LengthBase(c.z), LengthExtra(c.z));
    ExtraWidth(c.distance - DistBase(c.d), DistExtra(c.d));
    OneWidth(SymbolField(dlens, c.d));
    PackAppend(e1, f2);
    PackAppend(e1 + f2, e2);
  }

  /** The pair read, from its three parts. */
  lemma MatchIs(dlens: seq<nat>, c: Coded, v: nat, w: nat, rest: nat)
    requires |dlens| <= 32 && c.CodedMatch? && c.Valid() && c.d < |dlens|
    requires Low(v, LengthExtra(c.z)) == c.length - LengthBase(c.z)
    requires ReadSymbol(dlens, Shr(v, LengthExtra(c.z))) == Symbol(c.d, w)
    requires Low(w, DistExtra(c.d)) == c.distance - DistBase(c.d) && Shr(w, DistExtra(c.d)) == rest
    ensures ReadMatch(257 + c.z, v, dlens) == Next(c.Token(), rest)
    ensures PairBits(257 + c.z, v, dlens) == LengthExtra(c.z) + dlens[c.d] + DistExtra(c.d)
  {
    hide LengthBase, LengthExtra, DistBase, DistExtra, Low, Shr, ReadSymbol, Pow2;
  }

  lemma ReadEndOfBlock(lens: seq<nat>, dlens: seq<nat>, rest: seq<Field>)
    requires AreCodes(lens, dlens) && END_OF_BLOCK < |lens| && lens[END_OF_BLOCK] > 0
    ensures ReadToken(lens, dlens, Pack([SymbolField(lens, END_OF_BLOCK)] + rest)) == Stop(Pack(rest))
    ensures TokenBits(lens, dlens, Pack([SymbolField(lens, END_OF_BLOCK)] + rest)) == lens[END_OF_BLOCK]
  {
    hide Pack, SymbolField, ReadSymbol, Fits;
    ReadSymbolField(lens, END_OF_BLOCK, rest);
  }

  // ----- sequences of tokens

  ghost predicate AllValid(cs: seq<Coded>) {
    forall i :: 0 <= i < |cs| ==> cs[i].Valid()
  }

  /** All have codes, and so has the end of a block. */
  ghost predicate AllIn(lens: seq<nat>, dlens: seq<nat>, cs: seq<Coded>) {
    && END_OF_BLOCK < |lens| && lens[END_OF_BLOCK] > 0
    && forall i :: 0 <= i < |cs| ==> cs[i].In(lens, dlens)
  }

  function Tokens(cs: seq<Coded>): (ts: seq<Token>)
    ensures |ts| == |cs|
  {
    if |cs| == 0 then [] else [cs[0].Token()] + Tokens(cs[1..])
  }

  ghost function AllFieldsIn(lens: seq<nat>, dlens: seq<nat>, cs: seq<Coded>): seq<Field>
    requires AllValid(cs) && AllIn(lens, dlens, cs)
  {
    if |cs| == 0 then [] else cs[0].Fields(lens, dlens) + AllFieldsIn(lens, dlens, cs[1..])
  }

  lemma {:induction false} AllFieldsInSnoc(lens: seq<nat>, dlens: seq<nat>, cs: seq<Coded>, c: Coded)
    requires AllValid(cs) && AllIn(lens, dlens, cs) && c.Valid() && c.In(lens, dlens)
    ensures AllValid(cs + [c]) && AllIn(lens, dlens, cs + [c])
    ensures AllFieldsIn(lens, dlens, cs + [c]) == AllFieldsIn(lens, dlens, cs) + c.Fields(lens, dlens)
  {
    hide Coded.Fields;
    if |cs| == 0 {
      assert cs + [c] == [c];
      assert AllFieldsIn(lens, dlens, [c]) == c.Fields(lens, dlens) + AllFieldsIn(lens, dlens, []);
    } else {
      assert (cs + [c])[1..] == cs[1..] + [c];
      AllFieldsInSnoc(lens, dlens, cs[1..], c);
      Assoc(cs[0].Fields(lens, dlens), AllFieldsIn(lens, dlens, cs[1..]), c.Fields(lens, dlens));
    }
  }

  lemma {:induction false} TokensSnoc(cs: seq<Coded>, c: Coded)
    ensures Tokens(cs + [c]) == Tokens(cs) + [c.Token()]
  {
    if |cs| == 0 {
      assert cs + [c] == [c];
    } else {
      assert (cs + [c])[1..] == cs[1..] + [c];
      TokensSnoc(cs[1..], c);
    }
  }

  /** Appending a token extends the output by what the token stands for. */
  lemma {:induction false} ExpandSnoc(out: seq<byte>, ts: seq<Token>, t: Token)
    requires Expandable(out, ts)
    requires t.Match? ==> 0 < t.distance <= |Expand(out, ts)|
    ensures Expandable(out, ts + [t]) && Expand(out, ts + [t]) == Extend(Expand(out, ts), t)
    decreases |ts|
  {
    if |ts| == 0 {
      assert ts + [t] == [t] && [t][1..] == [];
    } else {
      assert (ts + [t])[1..] == ts[1..] + [t];
      ExpandSnoc(Extend(out, ts[0]), ts[1..], t);
    }
  }

  lemma {:induction false} ExpandGrows(out: seq<byte>, ts: seq<Token>)
    requires Expandable(out, ts)
    ensures |Expand(out, ts)| >= |out|
    decreases |ts|
  {
    if |ts| > 0 { ExpandGrows(Extend(out, ts[0]), ts[1..]); }
  }

  // ----- a block of tokens

  /** The tokens, then the end of the block. */
  ghost function BlockFields(lens: seq<nat>, dlens: seq<nat>, cs: seq<Coded>): seq<Field>
    requires AllValid(cs) && AllIn(lens, dlens, cs)
  {
    AllFieldsIn(lens, dlens, cs) + [SymbolField(lens, END_OF_BLOCK)]
  }

  lemma {:induction false} AllAreFields(lens: seq<nat>, dlens: seq<nat>, cs: seq<Coded>)
    requires AllValid(cs) && AllIn(lens, dlens, cs)
    ensures AreFields(AllFieldsIn(lens, dlens, cs))
  {
    hide Coded.Fields;
    if cs != [] {
      TokenIsFields(lens, dlens, cs[0]);
      AllAreFields(lens, dlens, cs[1..]);
    }
  }

  lemma BlockIsFields(lens: seq<nat>, dlens: seq<nat>, cs: seq<Coded>)
    requires AllValid(cs) && AllIn(lens, dlens, cs)
    ensures AreFields(BlockFields(lens, dlens, cs))
  {
    hide SymbolField, AllFieldsIn;
    AllAreFields(lens, dlens, cs);
    SymbolIsField(lens, END_OF_BLOCK);
  }

  /** Decoding the fields of a block starts with its first token. */
  lemma FirstOfFields(lens: seq<nat>, dlens: seq<nat>, cs: seq<Coded>, tail: seq<Field>)
    requires AreCodes(lens, dlens) && AllValid(cs) && AllIn(lens, dlens, cs) && |cs| > 0
    ensures ReadToken(lens, dlens, Pack(BlockFields(lens, dlens, cs) + tail))
         == Next(cs[0].Token(), Pack(BlockFields(lens, dlens, cs[1..]) + tail))
    ensures TokenBits(lens, dlens, Pack(BlockFields(lens, dlens, cs) + tail)) == Width(cs[0].Fields(lens, dlens))
    ensures Width(BlockFields(lens, dlens, cs))
         == Width(cs[0].Fields(lens, dlens)) + Width(BlockFields(lens, dlens, cs[1..]))
  {
    hide Pack, Width, SymbolField, Coded.Fields, ReadToken, TokenBits, Fits;
    var first, more := cs[0].Fields(lens, dlens), AllFieldsIn(lens, dlens, cs[1..]);
    var end := [SymbolField(lens, END_OF_BLOCK)];
    assert BlockFields(lens, dlens, cs) == first + BlockFields(lens, dlens, cs[1..]) by {
      Assoc(first, more, end);
    }
    Assoc(first, BlockFields(lens, dlens, cs[1..]), tail);
    ReadTokenFields(lens, dlens, cs[0], BlockFields(lens, dlens, cs[1..]) + tail);
    PackAppend(first, BlockFields(lens, dlens, cs[1..]));
  }

  lemma LastOfFields(lens: seq<nat>, dlens: seq<nat>, tail: seq<Field>)
    requires AreCodes(lens, dlens) && AllIn(lens, dlens, [])
    ensures ReadToken(lens, dlens, Pack(BlockFields(lens, dlens, []) + tail)) == Stop(Pack(tail))
    ensures TokenBits(lens, dlens, Pack(BlockFields(lens, dlens, []) + tail)) == Width(BlockFields(lens, dlens, []))
  {
    hide Pack, SymbolField, ReadToken, TokenBits, Fits;
    assert BlockFields(lens, dlens, []) == [SymbolField(lens, END_OF_BLOCK)];
    ReadEndOfBlock(lens, dlens, tail);
    OneWidth(SymbolField(lens, END_OF_BLOCK));
    SymbolWidth(lens, END_OF_BLOCK);
  }

  /** A block of encoded tokens decodes to exactly what they stand for, and takes exactly its bits, unless its bytes
      find no room. */
  lemma {:induction false} BlockOfFields(lens: seq<nat>, dlens: seq<nat>, cs: seq<Coded>, tail: seq<Field>,
        out: seq<byte>, room: Room, fuel: nat)
    requires AreCodes(lens, dlens) && AllValid(cs) && AllIn(lens, dlens, cs) && Expandable(out, Tokens(cs))
    requires fuel > |cs| && room.Holds(|out|)
    ensures Block(lens, dlens, Pack(BlockFields(lens, dlens, cs) + tail), out, room, fuel) ==
              if room.Holds(|Expand(out, Tokens(cs))|) then Done(Expand(out, Tokens(cs)), Pack(tail))
              else room.Refusal()
    ensures BlockBits(lens, dlens, Pack(BlockFields(lens, dlens, cs) + tail), fuel)
         == Width(BlockFields(lens, dlens, cs))
    decreases |cs|
  {
    hide Pack, Width, BlockFields, ReadToken, TokenBits, Extend, Fits;
    if |cs| == 0 {
      LastOfFields(lens, dlens, tail);
      assert cs == [];
    } else {
      var t := cs[0].Token();
      FirstOfFields(lens, dlens, cs, tail);
      assert Tokens(cs)[0] == t && Tokens(cs)[1..] == Tokens(cs[1..]);
      ExtendLength(out, t);
      ExpandGrows(Extend(out, t), Tokens(cs[1..]));
      BlockBitsOfFields(lens, dlens, cs[1..], tail, fuel - 1);
      if room.Holds(|out| + TokenLength(t)) {
        BlockOfFields(lens, dlens, cs[1..], tail, Extend(out, t), room, fuel - 1);
      }
    }
  }

  lemma {:induction false} BlockBitsOfFields(lens: seq<nat>, dlens: seq<nat>, cs: seq<Coded>, tail: seq<Field>,
        fuel: nat)
    requires AreCodes(lens, dlens) && AllValid(cs) && AllIn(lens, dlens, cs) && fuel > |cs|
    ensures BlockBits(lens, dlens, Pack(BlockFields(lens, dlens, cs) + tail), fuel)
         == Width(BlockFields(lens, dlens, cs))
    decreases |cs|
  {
    hide Pack, Width, BlockFields, ReadToken, TokenBits, Fits;
    if |cs| == 0 {
      LastOfFields(lens, dlens, tail);
      assert cs == [];
    } else {
      FirstOfFields(lens, dlens, cs, tail);
      BlockBitsOfFields(lens, dlens, cs[1..], tail, fuel - 1);
    }
  }

  lemma ExtendLength(out: seq<byte>, t: Token)
    requires t.Match? ==> 0 < t.distance <= |out|
    ensures |Extend(out, t)| == |out| + TokenLength(t)
  {
  }
}
