/** The meaning of a Huffman-coded DEFLATE block, RFC 1951 sections 3.2.3 to 3.2.6,
    on the bit stream taken as one number: the next bit is the lowest, and zeros follow the input. */
module Deflate {
  import opened Words
  import opened Bits
  import opened Huffman

  /** Extra bits of length code 257 + z. */
  function LengthExtra(z: nat): nat {
    if z < 8 || z >= 28 then 0 else z / 4 - 1
  }

  /** First length of length code 257 + z: each code takes up where the one before ends, except
      that 258 has a code of its own, and codes 286 and 287 denote no length. */
  function LengthBase(z: nat): nat {
    if z > 28 then 0 else if z == 28 then 258 else if z == 0 then 3 else LengthBase(z - 1) + Pow2(LengthExtra(z - 1))
  }

  /** Extra bits of distance code d. */
  function DistExtra(d: nat): nat {
    if d < 4 || d >= 30 then 0 else d / 2 - 1
  }

  /** First distance of distance code d; codes 30 and 31 denote no distance. */
  function DistBase(d: nat): nat {
    if d >= 30 then 0 else if d == 0 then 1 else DistBase(d - 1) + Pow2(DistExtra(d - 1))
  }

  const END_OF_BLOCK: nat := 256

  /** The fixed code lengths of RFC 1951 section 3.2.6. */
  function FixedLength(i: nat): nat {
    if i <= 143 then 8 else if i <= 255 then 9 else if i <= 279 then 7 else 8
  }

  ghost predicate IsFixedLengths(lens: seq<nat>) {
    |lens| == 288 && forall i :: 0 <= i < 288 ==> lens[i] == FixedLength(i)
  }

  ghost predicate IsFixedDistances(lens: seq<nat>) {
    |lens| == 32 && forall i :: 0 <= i < 32 ==> lens[i] == 5
  }

  lemma FixedTablesExist()
    ensures exists lens :: IsFixedLengths(lens)
    ensures exists lens :: IsFixedDistances(lens)
  {
    assert IsFixedLengths(seq(288, i requires 0 <= i => FixedLength(i)));
    assert IsFixedDistances(seq(32, i => 5));
  }

  ghost function FixedLengths(): (lens: seq<nat>)
    ensures IsFixedLengths(lens)
  {
    FixedTablesExist();
    var lens :| IsFixedLengths(lens);
    lens
  }

  ghost function FixedDistances(): (lens: seq<nat>)
    ensures IsFixedDistances(lens)
  {
    FixedTablesExist();
    var lens :| IsFixedDistances(lens);
    lens
  }

  // ----- symbols and numbers read from the stream

  datatype Read = Symbol(symbol: nat, rest: nat) | NoSymbol

  /** The symbol whose code starts the stream. */
  ghost function ReadSymbol(lens: seq<nat>, v: nat): (r: Read)
    ensures r.Symbol? ==> r.symbol < |lens| && Matches(lens, r.symbol, v) && r.rest == Shr(v, lens[r.symbol])
    ensures r.NoSymbol? <==> !SomeMatch(lens, v)
  {
    if SomeMatch(lens, v) then
      var i: nat :| i < |lens| && Matches(lens, i, v);
      Symbol(i, Shr(v, lens[i]))
    else
      NoSymbol
  }

  lemma ReadSymbolIs(lens: seq<nat>, i: nat, v: nat)
    requires i < |lens| && Matches(lens, i, v)
    ensures ReadSymbol(lens, v) == Symbol(i, Shr(v, lens[i]))
  {
    MatchUnique(lens, i, ReadSymbol(lens, v).symbol, v);
  }

  // ----- tokens

  datatype Token = Literal(value: byte) | Match(length: nat, distance: nat)

  /** `length` more bytes, each one `distance` back: the copy may overlap what it writes. */
  function Copied(out: seq<byte>, length: nat, distance: nat): (r: seq<byte>)
    requires 0 < distance <= |out|
    ensures |r| == |out| + length
    decreases length
  {
    if length == 0 then out else Copied(out + [out[|out| - distance]], length - 1, distance)
  }

  /** Every token copies from what was already produced. */
  predicate Expandable(out: seq<byte>, tokens: seq<Token>)
    decreases |tokens|
  {
    |tokens| > 0 ==>
      && (tokens[0].Match? ==> 0 < tokens[0].distance <= |out|)
      && Expandable(Extend(out, tokens[0]), tokens[1..])
  }

  function Extend(out: seq<byte>, t: Token): seq<byte>
    requires t.Match? ==> 0 < t.distance <= |out|
  {
    match t
    case Literal(b) => out + [b]
    case Match(length, distance) => Copied(out, length, distance)
  }

  function Expand(out: seq<byte>, tokens: seq<Token>): (r: seq<byte>)
    requires Expandable(out, tokens)
    decreases |tokens|
  {
    if |tokens| == 0 then out else Expand(Extend(out, tokens[0]), tokens[1..])
  }

  // ----- a block

  /** `Unspecified` is a copy from distance 0, which distance codes 30 and 31 denote:
      the reader then repeats whatever its buffer holds there. `Overflow` is output that the reader would need a
      buffer of more than `INT_MAX` bytes for. */
  datatype Outcome = Done(out: seq<byte>, rest: nat) | Corrupt | Overflow | Unspecified | OutOfFuel

  /** The room for output: that of a fixed buffer, or all that a growing one can come to. */
  datatype Room = Limited(bytes: nat) | Growing(bytes: nat) {
    predicate Holds(n: nat) {
      n <= bytes
    }

    /** What comes of output without room. */
    function Refusal(): Outcome {
      if Limited? then Corrupt else Overflow
    }
  }

  /** What a buffer of `limit` bytes can come to by doubling while its size is an int. */
  function Capacity(limit: nat): (r: nat)
    ensures limit <= r && (limit <= INT_MAX ==> r <= INT_MAX)
    decreases INT_MAX - limit
  {
    if 0 < limit && 2 * limit <= INT_MAX then Capacity(2 * limit) else limit
  }

  /** A size is within the capacity if and only if some number of doublings reaches it and stays an int. */
  lemma {:induction false} CapacityIff(limit: nat, n: nat)
    requires 0 < limit <= INT_MAX
    ensures n <= Capacity(limit) <==> exists k: nat :: n <= limit * Pow2(k) <= INT_MAX
    decreases INT_MAX - limit
  {
    if 2 * limit <= INT_MAX {
      CapacityIff(2 * limit, n);
      if k: nat :| n <= 2 * limit * Pow2(k) <= INT_MAX {
        DoubledOnceMore(limit, k);
        assert n <= limit * Pow2(k + 1) <= INT_MAX;
      }
      if k: nat :| n <= limit * Pow2(k) <= INT_MAX {
        if k == 0 {
          assert n <= 2 * limit * Pow2(0) <= INT_MAX;
        } else {
          DoubledOnceMore(limit, k - 1);
          assert n <= 2 * limit * Pow2(k - 1) <= INT_MAX;
        }
      }
    } else {
      if n <= limit {
        assert n <= limit * Pow2(0) <= INT_MAX;
      }
      if k: nat :| n <= limit * Pow2(k) <= INT_MAX {
        if k > 0 {
          DoubledOnceMore(limit, k - 1);
          MulMonotone(2 * limit, 1, Pow2(k - 1));
        }
      }
    }
  }

  lemma DoubledOnceMore(limit: nat, k: nat)
    ensures 2 * limit * Pow2(k) == limit * Pow2(k + 1)
  {
  }

  function TokenLength(t: Token): nat {
    if t.Match? then t.length else 1
  }

  /** The token reaches back no further than the output goes. */
  predicate Reaches(t: Token, produced: nat) {
    t.Match? ==> t.distance <= produced
  }

  /** And there is room for its bytes. */
  predicate Admits(t: Token, produced: nat, room: Room) {
    Reaches(t, produced) && room.Holds(produced + TokenLength(t))
  }

  predicate Copies(t: Token) {
    t.Match? ==> t.distance > 0
  }

  datatype Step = Next(token: Token, rest: nat) | Stop(rest: nat) | Bad

  /** The length/distance pair a length symbol starts. */
  ghost function ReadMatch(symbol: nat, v: nat, dlens: seq<nat>): (s: Step)
    requires END_OF_BLOCK < symbol < 288 && |dlens| <= 32
    ensures s.Next? ==> s.token.Match?
  {
    var z := symbol - 257;
    var d := ReadSymbol(dlens, Shr(v, LengthExtra(z)));
    if d.NoSymbol? then Bad
    else Next(Match(LengthBase(z) + Low(v, LengthExtra(z)), DistBase(d.symbol) + Low(d.rest, DistExtra(d.symbol))),
              Shr(d.rest, DistExtra(d.symbol)))
  }

  /** The next token, the end of the block, or an error. */
  ghost function ReadToken(lens: seq<nat>, dlens: seq<nat>, v: nat): (s: Step)
    requires |lens| <= 288 && |dlens| <= 32
  {
    var r := ReadSymbol(lens, v);
    if r.NoSymbol? then Bad
    else if r.symbol < 256 then Next(Literal(r.symbol), r.rest)
    else if r.symbol == END_OF_BLOCK then Stop(r.rest)
    else ReadMatch(r.symbol, r.rest, dlens)
  }

  /** Decoding until the end-of-block symbol, for at most `fuel` symbols. */
  ghost function Block(lens: seq<nat>, dlens: seq<nat>, v: nat, out: seq<byte>, room: Room, fuel: nat): Outcome
    requires |lens| <= 288 && |dlens| <= 32
    decreases fuel
  {
    if fuel == 0 then OutOfFuel
    else
      match ReadToken(lens, dlens, v)
      case Bad => Corrupt
      case Stop(rest) => Done(out, rest)
      case Next(t, rest) =>
        if !Reaches(t, |out|) then Corrupt
        else if !Admits(t, |out|, room) then room.Refusal()
        else if Copies(t) then Block(lens, dlens, rest, Extend(out, t), room, fuel - 1)
        else if TokenLength(t) == 0 then Block(lens, dlens, rest, out, room, fuel - 1)
        else Unspecified
  }

  /** How many bits a symbol, a token, and a block take. */
  ghost function SymbolBits(lens: seq<nat>, v: nat): nat {
    match ReadSymbol(lens, v)
    case NoSymbol => 0
    case Symbol(i, _) => lens[i]
  }

  ghost function TokenBits(lens: seq<nat>, dlens: seq<nat>, v: nat): nat
    requires |lens| <= 288 && |dlens| <= 32
  {
    SymbolBits(lens, v) +
    match ReadSymbol(lens, v)
    case NoSymbol => 0
    case Symbol(s, rest) => if s <= END_OF_BLOCK then 0 else PairBits(s, rest, dlens)
  }

  ghost function PairBits(symbol: nat, v: nat, dlens: seq<nat>): nat
    requires END_OF_BLOCK < symbol < 288 && |dlens| <= 32
  {
    var extra := LengthExtra(symbol - 257);
    match ReadSymbol(dlens, Shr(v, extra))
    case NoSymbol => 0
    case Symbol(d, _) => extra + dlens[d] + DistExtra(d)
  }

  ghost function BlockBits(lens: seq<nat>, dlens: seq<nat>, v: nat, fuel: nat): nat
    requires |lens| <= 288 && |dlens| <= 32
    decreases fuel
  {
    if fuel == 0 then 0
    else
      match ReadToken(lens, dlens, v)
      case Bad => 0
      case Stop(_) => TokenBits(lens, dlens, v)
      case Next(_, rest) => TokenBits(lens, dlens, v) + BlockBits(lens, dlens, rest, fuel - 1)
  }

  // ----- code lengths sent with a block (RFC 1951 section 3.2.7)

  type LengthSymbol = c: nat | c < 19

  /** The order in which the lengths of the code for code lengths stand. */
  const LENGTH_ORDER: seq<LengthSymbol> := [16, 17, 18, 0, 8, 7, 9, 6, 10, 5, 11, 4, 12, 3, 13, 2, 14, 1, 15]

  function LengthPlace(i: nat): LengthSymbol
    requires i < 19
  {
    LENGTH_ORDER[i]
  }

  /** Three bits each for the first `n` symbols in that order, 0 for the others. */
  function CodeLengthSizes(v: nat, n: nat): (sizes: seq<nat>)
    requires n <= 19
    ensures |sizes| == 19 && forall i :: 0 <= i < 19 ==> sizes[i] < 8
  {
    if n == 0 then seq(19, _ => 0) else
      LowAndRest(Shr(v, 3 * (n - 1)), 3);
      SmallPowers();
      CodeLengthSizes(v, n - 1)[LengthPlace(n - 1) := Low(Shr(v, 3 * (n - 1)), 3)]
  }

  datatype Lengths = Lengths(lens: seq<nat>, rest: nat) | BadLengths

  function RepeatBits(c: nat): nat {
    if c == 16 then 2 else if c == 17 then 3 else 7
  }

  function RepeatBase(c: nat): nat {
    if c == 18 then 11 else 3
  }

  /** Equal lengths in a row, or an error. */
  datatype Run = Run(count: nat, fill: nat, rest: nat) | BadRun

  /** Symbols up to 15 are lengths, 16 repeats the last one (-1 if there is none), 17 and 18 stand for runs of zeros. */
  ghost function ReadRun(cl: seq<nat>, v: nat, room: nat, last: int): (r: Run)
    requires |cl| == 19 && 0 < room && last <= MAX_BITS
    ensures r.Run? ==> 1 <= r.count <= room && r.fill <= MAX_BITS
  {
    match ReadSymbol(cl, v)
    case NoSymbol => BadRun
    case Symbol(c, rest) =>
      if c < 16 then Run(1, c, rest)
      else
        var n := Low(rest, RepeatBits(c)) + RepeatBase(c);
        if (c == 16 && last < 0) || room < n then BadRun
        else Run(n, if c == 16 then last else 0, Shr(rest, RepeatBits(c)))
  }

  function LastOf(got: seq<nat>): int {
    if got == [] then -1 else got[|got| - 1]
  }

  /** Lengths after those in `got`, `total` in all. */
  ghost function ReadLengths(cl: seq<nat>, v: nat, total: nat, got: seq<nat>): (r: Lengths)
    requires |cl| == 19 && |got| <= total && forall i :: 0 <= i < |got| ==> got[i] <= MAX_BITS
    ensures r.Lengths? ==> |r.lens| == total && forall i :: 0 <= i < total ==> r.lens[i] <= MAX_BITS
    decreases total - |got|
  {
    if |got| == total then Lengths(got, v) else
      match ReadRun(cl, v, total - |got|, LastOf(got))
      case BadRun => BadLengths
      case Run(n, fill, rest) => ReadLengths(cl, rest, total, got + seq(n, _ => fill))
  }

  ghost function RunBits(cl: seq<nat>, v: nat): nat
    requires |cl| == 19
  {
    match ReadSymbol(cl, v)
    case NoSymbol => 0
    case Symbol(c, _) => cl[c] + if c < 16 then 0 else RepeatBits(c)
  }

  ghost function LengthsBits(cl: seq<nat>, v: nat, total: nat, got: seq<nat>): nat
    requires |cl| == 19 && |got| <= total && forall i :: 0 <= i < |got| ==> got[i] <= MAX_BITS
    decreases total - |got|
  {
    if |got| == total then 0 else
      match ReadRun(cl, v, total - |got|, LastOf(got))
      case BadRun => 0
      case Run(n, fill, rest) => RunBits(cl, v) + LengthsBits(cl, rest, total, got + seq(n, _ => fill))
  }

  datatype Codes = Codes(lens: seq<nat>, dlens: seq<nat>, rest: nat) | BadCodes

  /** `total` code lengths, after the lengths of `n` symbols of the code they are written in. */
  ghost function SentLengths(v: nat, n: nat, total: nat): (r: Lengths)
    requires n <= 19
    ensures r.Lengths? ==> |r.lens| == total && forall i :: 0 <= i < total ==> r.lens[i] <= MAX_BITS
  {
    if Fits(CodeLengthSizes(v, n)) then ReadLengths(CodeLengthSizes(v, n), Shr(v, 3 * n), total, []) else BadLengths
  }

  /** The code lengths for literals and lengths, and for distances, that start a dynamic block. */
  ghost function DynamicCodes(v: nat): (t: Codes)
    ensures t.Codes? ==> IsSizeList(t.lens) && Fits(t.lens) && IsSizeList(t.dlens) && Fits(t.dlens) && |t.dlens| <= 32
  {
    DynamicBounds(v);
    var hlit := Low(v, 5) + 257;
    var hdist := Low(Shr(v, 5), 5) + 1;
    var hclen := Low(Shr(Shr(v, 5), 5), 4) + 4;
    match SentLengths(Shr(Shr(Shr(v, 5), 5), 4), hclen, hlit + hdist)
    case BadLengths => BadCodes
    case Lengths(all, rest) =>
      if Fits(all[..hlit]) && Fits(all[hlit..]) then Codes(all[..hlit], all[hlit..], rest) else BadCodes
  }

  ghost function SentBits(v: nat, n: nat, total: nat): nat
    requires n <= 19
  {
    3 * n + if Fits(CodeLengthSizes(v, n)) then LengthsBits(CodeLengthSizes(v, n), Shr(v, 3 * n), total, []) else 0
  }

  ghost function DynamicBits(v: nat): nat {
    DynamicBounds(v);
    var hlit := Low(v, 5) + 257;
    var hdist := Low(Shr(v, 5), 5) + 1;
    var hclen := Low(Shr(Shr(v, 5), 5), 4) + 4;
    14 + SentBits(Shr(Shr(Shr(v, 5), 5), 4), hclen, hlit + hdist)
  }

  lemma DynamicBounds(v: nat)
    ensures Low(v, 5) < 32 && Low(Shr(v, 5), 5) < 32 && Low(Shr(Shr(v, 5), 5), 4) < 16
  {
    LowAndRest(v, 5);
    LowAndRest(Shr(v, 5), 5);
    LowAndRest(Shr(Shr(v, 5), 5), 4);
    SmallPowers();
  }

  // ----- a stream of blocks

  /** One block header: the last-block flag, then the two-bit type. */
  ghost function BlockType(v: nat): nat {
    Low(Shr(v, 1), 2)
  }

  /** The tables a block type calls for, before the symbols of the block. */
  ghost function BlockCodes(kind: nat, v: nat): (t: Codes)
    ensures t.Codes? ==> IsSizeList(t.lens) && Fits(t.lens) && IsSizeList(t.dlens) && Fits(t.dlens) && |t.dlens| <= 32
  {
    if kind == 1 then
      if Fits(FixedLengths()) && Fits(FixedDistances()) then Codes(FixedLengths(), FixedDistances(), v) else BadCodes
    else if kind == 2 then DynamicCodes(v)
    else BadCodes
  }

  ghost function CodesBits(kind: nat, v: nat): nat {
    if kind == 2 then DynamicBits(v) else 0
  }

  /** `n` bytes of the stream. */
  function Bytes(v: nat, n: nat): (bs: seq<byte>)
    ensures |bs| == n
    decreases n
  {
    if n == 0 then [] else
      LowAndRest(v, 8);
      SmallPowers();
      [Low(v, 8)] + Bytes(Shr(v, 8), n - 1)
  }

  datatype Piece = Piece(bytes: seq<byte>, rest: nat) | BadPiece

  /** A stored block, with `left` bits to the end of the input (RFC 1951 section 3.2.4): the rest of the byte is
      skipped, then a length, its complement, and the bytes. */
  ghost function Stored(v: nat, left: int): Piece {
    var w := Shr(v, left % 8);
    var len := Low(w, 16);
    if Low(Shr(w, 16), 16) != 65535 - len || 8 * len > StoredStart(left) then BadPiece
    else Piece(Bytes(Shr(w, 32), len), Shr(Shr(w, 32), 8 * len))
  }

  /** The bits left where the bytes of a stored block start. */
  ghost function StoredStart(left: int): int {
    left - left % 8 - 32
  }

  /** One block, after its three header bits. */
  ghost function OneBlock(kind: nat, v: nat, left: int, out: seq<byte>, room: Room, fuel: nat): Outcome {
    if kind == 0 then
      match Stored(v, left)
      case BadPiece => Corrupt
      case Piece(bytes, rest) => if room.Holds(|out| + |bytes|) then Done(out + bytes, rest) else room.Refusal()
    else
      match BlockCodes(kind, v)
      case BadCodes => Corrupt
      case Codes(lens, dlens, rest) => Block(lens, dlens, rest, out, room, fuel)
  }

  /** The bits left after it. */
  ghost function LeftAfter(kind: nat, v: nat, left: int, fuel: nat): int {
    if kind == 0 then
      match Stored(v, left)
      case BadPiece => left
      case Piece(bytes, _) => StoredStart(left) - 8 * |bytes|
    else
      match BlockCodes(kind, v)
      case BadCodes => left
      case Codes(lens, dlens, rest) => left - CodesBits(kind, v) - BlockBits(lens, dlens, rest, fuel)
  }

  /** Blocks until one is marked last. */
  ghost function Blocks(v: nat, left: int, out: seq<byte>, room: Room, fuel: nat): Outcome
    decreases fuel
  {
    if fuel == 0 then OutOfFuel
    else
      var w := Shr(Shr(v, 1), 2);
      var b := OneBlock(BlockType(v), w, left - 3, out, room, fuel);
      if b.Done? && Low(v, 1) == 0 then
        Blocks(b.rest, LeftAfter(BlockType(v), w, left - 3, fuel), b.out, room, fuel - 1)
      else b
  }

  /** RFC 1950 section 2.2: the check bits, no preset dictionary, and method 8. */
  predicate HeaderOk(cmf: byte, flg: byte) {
    (cmf * 256 + flg) % 31 == 0 && And(flg, 32) == 0 && And(cmf, 15) == 8
  }

  /** Reading a zlib stream, with or without its two header bytes. */
  ghost function Zlib(input: seq<byte>, parseHeader: bool, room: Room, fuel: nat): Outcome {
    if !parseHeader then Blocks(LE(input), 8 * |input|, [], room, fuel)
    else if !HeaderOk(ByteAt(input, 0), ByteAt(input, 1)) then Corrupt
    else Blocks(if |input| <= 2 then 0 else LE(input[2..]), 8 * (|input| - 2), [], room, fuel)
  }

  // ----- the bound on the number of steps

  /** A block that ends within `f` symbols ends the same way, with the same bits, under any larger bound. */
  lemma {:induction false} BlockMore(lens: seq<nat>, dlens: seq<nat>, v: nat, out: seq<byte>, room: Room,
        f: nat, g: nat)
    requires |lens| <= 288 && |dlens| <= 32 && f <= g && Block(lens, dlens, v, out, room, f) != OutOfFuel
    ensures Block(lens, dlens, v, out, room, g) == Block(lens, dlens, v, out, room, f)
    ensures Block(lens, dlens, v, out, room, f).Done? ==> BlockBits(lens, dlens, v, g) == BlockBits(lens, dlens, v, f)
    decreases f
  {
    hide ReadToken, TokenBits, Extend;
    match ReadToken(lens, dlens, v)
    case Bad =>
    case Stop(_) =>
    case Next(t, rest) =>
      if Admits(t, |out|, room) {
        if Copies(t) {
          BlockMore(lens, dlens, rest, Extend(out, t), room, f - 1, g - 1);
        } else if TokenLength(t) == 0 {
          BlockMore(lens, dlens, rest, out, room, f - 1, g - 1);
        }
      }
  }

  lemma OneBlockMore(kind: nat, v: nat, left: int, out: seq<byte>, room: Room, f: nat, g: nat)
    requires f <= g && OneBlock(kind, v, left, out, room, f) != OutOfFuel
    ensures OneBlock(kind, v, left, out, room, g) == OneBlock(kind, v, left, out, room, f)
    ensures OneBlock(kind, v, left, out, room, f).Done? ==> LeftAfter(kind, v, left, g) == LeftAfter(kind, v, left, f)
  {
    hide Block, BlockBits, BlockCodes, Stored;
    if kind != 0 && BlockCodes(kind, v).Codes? {
      var Codes(lens, dlens, rest) := BlockCodes(kind, v);
      BlockMore(lens, dlens, rest, out, room, f, g);
    }
  }

  lemma {:induction false} BlocksMore(v: nat, left: int, out: seq<byte>, room: Room, f: nat, g: nat)
    requires f <= g && Blocks(v, left, out, room, f) != OutOfFuel
    ensures Blocks(v, left, out, room, g) == Blocks(v, left, out, room, f)
    decreases f
  {
    hide OneBlock, LeftAfter, BlockType;
    var w := Shr(Shr(v, 1), 2);
    OneBlockMore(BlockType(v), w, left - 3, out, room, f, g);
    var b := OneBlock(BlockType(v), w, left - 3, out, room, f);
    if b.Done? && Low(v, 1) == 0 {
      BlocksMore(b.rest, LeftAfter(BlockType(v), w, left - 3, f), b.out, room, f - 1, g - 1);
    }
  }

  /** What a stream comes to within some number of steps, it comes to for any larger number. */
  lemma ZlibMore(input: seq<byte>, parseHeader: bool, room: Room, f: nat, g: nat)
    requires f <= g && Zlib(input, parseHeader, room, f) != OutOfFuel
    ensures Zlib(input, parseHeader, room, g) == Zlib(input, parseHeader, room, f)
  {
    hide Blocks, HeaderOk, LE;
    if !parseHeader {
      BlocksMore(LE(input), 8 * |input|, [], room, f, g);
    } else if HeaderOk(ByteAt(input, 0), ByteAt(input, 1)) {
      BlocksMore(if |input| <= 2 then 0 else LE(input[2..]), 8 * (|input| - 2), [], room, f, g);
    }
  }
}
