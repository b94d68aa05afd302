/** The zlib reader: a 32-bit bit buffer over a byte buffer, and an output buffer that may grow. */
module Inflate {
  import opened Words
  import opened Bits
  import opened BitReversal
  import opened Huffman
  import opened ZHuffmanTable
  import opened Deflate

  const ZLENGTH_BASE: seq<nat> := [
    3, 4, 5, 6, 7, 8, 9, 10, 11, 13,
    15, 17, 19, 23, 27, 31, 35, 43, 51, 59,
    67, 83, 99, 115, 131, 163, 195, 227, 258, 0, 0]

  const ZLENGTH_EXTRA: seq<nat> := [
    0, 0, 0, 0, 0, 0, 0, 0, 1, 1, 1, 1, 2, 2, 2, 2, 3, 3, 3, 3, 4, 4, 4, 4, 5, 5, 5, 5, 0, 0, 0]

  const ZDIST_BASE: seq<nat> := [
    1, 2, 3, 4, 5, 7, 9, 13, 17, 25, 33, 49, 65, 97, 129, 193,
    257, 385, 513, 769, 1025, 1537, 2049, 3073, 4097, 6145, 8193, 12289, 16385, 24577, 0, 0]

  const ZDIST_EXTRA: seq<nat> := [
    0, 0, 0, 0, 1, 1, 2, 2, 3, 3, 4, 4, 5, 5, 6, 6, 7, 7, 8, 8, 9, 9, 10, 10, 11, 11, 12, 12, 13, 13, 0, 0]

  /** The reader's tables are those of the format. */
  method LengthEntry(z: nat) returns (base: nat, extra: nat)
    requires z < 31
    ensures base == LengthBase(z) && extra == LengthExtra(z) <= 13
  {
    base, extra := ZLENGTH_BASE[z], ZLENGTH_EXTRA[z];
    LengthTable(z);
    LengthExtraTable(z);
  }

  method DistEntry(d: nat) returns (base: nat, extra: nat)
    requires d < 32
    ensures base == DistBase(d) && extra == DistExtra(d) <= 13
  {
    base, extra := ZDIST_BASE[d], ZDIST_EXTRA[d];
    DistTable(d);
    DistExtraTable(d);
  }

  /** `Failed` is the source's 0. `Overflowed` is a buffer size that is no int any more, which C gives no meaning;
      `Exhausted` is the model's own bound on the number of symbols and blocks. */
  datatype Status = Succeeded | Failed | Overflowed | Exhausted

  datatype Kind = Decoded | BlockEnd | BadCode | NoRoom

  /** The room in a buffer of `length` bytes. */
  function RoomOf(expandable: bool, length: nat): Room {
    if expandable then Growing(Capacity(length)) else Limited(length)
  }

  /** The output after a token; unspecified when it copies from distance 0. */
  ghost predicate Written(before: seq<byte>, t: Token, after: seq<byte>)
    requires t.Match? ==> t.distance <= |before|
  {
    && (Copies(t) ==> after == Extend(before, t))
    && (TokenLength(t) == 0 ==> after == before)
  }

  /** An appended token takes the block one symbol further. */
  lemma BlockNext(lens: seq<nat>, dlens: seq<nat>, v: nat, out: seq<byte>, room: Room, fuel: nat,
        t: Token, rest: nat, out': seq<byte>)
    requires |lens| <= 288 && |dlens| <= 32 && fuel > 0
    requires ReadToken(lens, dlens, v) == Next(t, rest) && Admits(t, |out|, room) && Written(out, t, out')
    ensures var b := Block(lens, dlens, v, out, room, fuel);
            b == Unspecified || b == Block(lens, dlens, rest, out', room, fuel - 1)
  {
  }

  /** What ends a block. */
  lemma BlockEnds(lens: seq<nat>, dlens: seq<nat>, v: nat, out: seq<byte>, room: Room, fuel: nat)
    requires |lens| <= 288 && |dlens| <= 32 && fuel > 0
    ensures var b := Block(lens, dlens, v, out, room, fuel);
            match ReadToken(lens, dlens, v)
            case Bad => b == Corrupt
            case Stop(rest) => b == Done(out, rest)
            case Next(t, _) =>
              !Admits(t, |out|, room) ==> b == if Reaches(t, |out|) then room.Refusal() else Corrupt
  {
  }

  lemma NoSymbols(lens: seq<nat>, dlens: seq<nat>, v: nat, out: seq<byte>, room: Room)
    requires |lens| <= 288 && |dlens| <= 32
    ensures Block(lens, dlens, v, out, room, 0) == OutOfFuel
  {
  }

  lemma NoFuel(v: nat, left: int, out: seq<byte>, room: Room)
    ensures Blocks(v, left, out, room, 0) == OutOfFuel
  {
  }

  class ZBuf {
    const input: seq<byte>
    var pos: nat
    var numBits: nat
    var codeBuffer: nat

    var buf: array<byte>
    var zout: nat
    const expandable: bool

    /** All the room there is, however far the buffer has grown. */
    ghost const room: Room

    const zLength: ZHuffman
    const zDistance: ZHuffman

    /** How many bytes were read past the end, as zeros. */
    ghost var virtual: nat

    ghost predicate Valid()
      reads this
    {
      Sound() && Bounded()
    }

    ghost predicate Sound()
      reads this
    {
      pos <= |input| && numBits <= 32 && codeBuffer < Pow2(numBits) && Housed()
    }

    /** The output buffer and the tables. */
    ghost predicate Housed()
      reads this`buf, this`zout
    {
      && zout <= buf.Length && (expandable ==> buf.Length > 0) && room == RoomOf(expandable, buf.Length)
      && zLength.Shape() && zDistance.Shape()
      && this !in zLength.Repr + zDistance.Repr && buf !in zLength.Repr + zDistance.Repr
    }

    /** Both tables are built. */
    ghost predicate Tables(lens: seq<nat>, dlens: seq<nat>)
      requires zLength.Shape() && zDistance.Shape()
      reads zLength.Repr + zDistance.Repr
    {
      zLength.Decodes(lens) && zDistance.Decodes(dlens) && |dlens| <= 32
    }

    /** The bits of the input not yet consumed; fewer than none once zeros past its end were. */
    ghost function Left(): int
      reads this`pos, this`numBits, this`virtual
    {
      8 * (|input| - pos - virtual) + numBits
    }

    /** No bits are set past the end of the input. */
    ghost predicate Bounded()
      requires pos <= |input|
      reads this`pos, this`numBits, this`codeBuffer, this`virtual
    {
      Ahead() < Pow2(if Left() < 0 then 0 else Left()) && (virtual > 0 ==> pos == |input|)
    }

    /** The bits not yet consumed, as one number. */
    ghost function Ahead(): nat
      reads this`pos, this`numBits, this`codeBuffer
      requires pos <= |input|
    {
      codeBuffer + Shl(LE(input[pos..]), numBits)
    }

    ghost function Contents(): seq<byte>
      reads this, buf
      requires zout <= buf.Length
    {
      buf[..zout]
    }

    /** The reader's state and status are what the format prescribes. */
    ghost predicate Reports(goal: Outcome, st: Status)
      requires Valid()
      reads this, buf
    {
      match goal
      case Done(out, rest) => st == Succeeded && Contents() == out && Ahead() == rest
      case Corrupt => st == Failed
      case Overflow => st == Overflowed
      case OutOfFuel => st == Exhausted
      case Unspecified => true
    }

    /** What is reported of output without room. */
    function Refused(): Status {
      if expandable then Overflowed else Failed
    }

    constructor (input: seq<byte>, obuf: array<byte>, expandable: bool)
      requires expandable ==> obuf.Length > 0
      ensures Valid() && this.input == input && this.expandable == expandable
      ensures pos == 0 && numBits == 0 && codeBuffer == 0 && virtual == 0 && buf == obuf && zout == 0
      ensures room == RoomOf(expandable, obuf.Length)
      ensures TablesApart() && fresh(zLength.Repr) && fresh(zDistance.Repr)
    {
      this.input, this.pos := input, 0;
      this.numBits, this.codeBuffer := 0, 0;
      this.buf, this.zout := obuf, 0;
      this.expandable, this.room := expandable, RoomOf(expandable, obuf.Length);
      var t := new ZHuffman();
      var d := new ZHuffman();
      this.zLength, this.zDistance := t, d;
      this.virtual := 0;
      new;
      LEBound(input[0..]);
    }

    /** The next input byte, or 0 past the end. */
    method ZGet8() returns (b: byte)
      requires Sound() && (virtual > 0 ==> pos == |input|)
      modifies this`pos, this`virtual
      ensures Sound() && (virtual > 0 ==> pos == |input|) && Left() == old(Left()) - 8
      ensures b + Shl(LE(input[pos..]), 8) == old(LE(input[pos..]))
      ensures b == ByteAt(input, old(pos)) && pos == if old(pos) < |input| then old(pos) + 1 else old(pos)
    {
      if pos >= |input| {
        ShlZero(8);
        virtual := virtual + 1;
        return 0;
      }
      b := input[pos];
      pos := pos + 1;
      assert input[old(pos)..][1..] == input[pos..];
    }

    /** Refills the bit buffer a byte at a time, past 24 bits. */
    method FillBits()
      requires Valid() && numBits <= 24
      modifies this`pos, this`numBits, this`codeBuffer, this`virtual
      ensures Valid() && numBits > 24
      ensures Ahead() == old(Ahead()) && Left() == old(Left())
    {
      FillByte();
      while numBits <= 24
        invariant Valid() && Ahead() == old(Ahead()) && Left() == old(Left())
        decreases 24 - numBits
      {
        FillByte();
      }
    }

    method FillByte()
      requires Valid() && numBits <= 24
      modifies this`pos, this`numBits, this`codeBuffer, this`virtual
      ensures Valid() && numBits == old(numBits) + 8
      ensures Ahead() == old(Ahead()) && Left() == old(Left())
    {
      hide Or, LE, Housed;
      var b := ZGet8();
      BufferByte(codeBuffer, b, LE(input[pos..]), numBits);
      codeBuffer := Or(codeBuffer, Shl(b, numBits));
      numBits := numBits + 8;
      assert codeBuffer < TWO_TO_THE_32;  // the shift never leaves the 32-bit word
    }

    /** Drops `n` bits. */
    method Consume(n: nat)
      requires Valid() && n <= numBits
      modifies this`numBits, this`codeBuffer
      ensures Valid() && numBits == old(numBits) - n
      ensures Ahead() == Shr(old(Ahead()), n) && Left() == old(Left()) - n
    {
      hide Housed, LE, Pow2, Shr, Shl, Low;
      ShrWithin(Ahead(), Left(), n);
      PlacedPart(codeBuffer, LE(input[pos..]), numBits, n);
      ShrBound(codeBuffer, numBits, n);
      codeBuffer := Shr(codeBuffer, n);
      numBits := numBits - n;
    }

    /** The next `n` bits as a number, lowest bit first. */
    method ZReceive(n: nat) returns (k: nat)
      requires Valid() && n <= 24
      modifies this`pos, this`numBits, this`codeBuffer, this`virtual
      ensures Valid()
      ensures k == Low(old(Ahead()), n)
      ensures Ahead() == Shr(old(Ahead()), n) && Left() == old(Left()) - n
    {
      hide Low, Shr, Shl, And, LE, Housed;
      if numBits < n {
        FillBits();
      }
      BufferedLow(codeBuffer, LE(input[pos..]), numBits, n);
      k := And(codeBuffer, Pow2(n) - 1);
      Consume(n);
    }

    /** The symbol whose code comes next: by the fast table if the code is short. */
    method HuffmanDecode(z: ZHuffman, ghost lens: seq<nat>) returns (symbol: int)
      requires Valid() && z.Shape() && z.Decodes(lens)
      modifies this`pos, this`numBits, this`codeBuffer, this`virtual
      ensures Valid()
      ensures symbol < 0 ==> ReadSymbol(lens, old(Ahead())) == NoSymbol
      ensures symbol >= 0 ==> ReadSymbol(lens, old(Ahead())) == Symbol(symbol, Ahead())
      ensures symbol >= 0 ==> Left() == old(Left()) - SymbolBits(lens, old(Ahead()))
    {
      hide Bounded, FastEntry, LE;
      if numBits < 16 {
        FillBits();
      }
      var window := And(codeBuffer, Pow2(FAST_BITS) - 1);
      ghost var v := Ahead();
      FastWindow(codeBuffer, LE(input[pos..]), numBits, window);
      var b := z.fast[window];
      FastLookup(lens, window, v, b);
      if b != 0 {
        Consume(b / 512);
        return b % 512;
      }
      symbol := HuffmanDecodeSlowpath(z, lens);
    }

    /** The symbol whose code comes next, when no code of up to 9 bits does. */
    method HuffmanDecodeSlowpath(z: ZHuffman, ghost lens: seq<nat>) returns (symbol: int)
      requires Valid() && numBits >= 16 && z.Shape() && z.Decodes(lens)
      requires forall i :: 0 <= i < |lens| ==> !FastMatch(lens, i, Ahead())
      modifies this`numBits, this`codeBuffer
      ensures Valid()
      ensures symbol < 0 ==> ReadSymbol(lens, old(Ahead())) == NoSymbol
      ensures symbol >= 0 ==> ReadSymbol(lens, old(Ahead())) == Symbol(symbol, Ahead())
      ensures symbol >= 0 ==> Left() == old(Left()) - SymbolBits(lens, old(Ahead()))
    {
      ghost var v := Ahead();
      BufferedBits(codeBuffer, LE(input[pos..]), numBits, 16);
      var k := BitReverse(codeBuffer, 16);
      var s := CodeLength(z, k, lens, v);
      if s == 16 {
        return -1;
      }
      symbol := SymbolAt(z, k, s, lens, v);
      Consume(s);
    }

    /** The symbol in code order that a code of `s` bits at the front of the window denotes. */
    static method SymbolAt(z: ZHuffman, k: nat, s: nat, ghost lens: seq<nat>, ghost v: nat) returns (symbol: nat)
      requires z.Shape() && z.Decodes(lens) && k == Rev(v, 16)
      requires 0 < s < 16 && First(lens, s) <= Rev(v, s) < End(lens, s)
      ensures ReadSymbol(lens, v) == Symbol(symbol, Shr(v, s)) && SymbolBits(lens, v) == s
    {
      ghost var i := InRangeMatches(lens, s, v);
      RevPrefix(v, s, 16);
      var b := Shr(k, 16 - s) - z.firstcode[s] + z.firstsymbol[s];
      assert b == Slot(lens, i) && lens[i] == s;
      assert z.size[b] == s && z.value[b] == i;
      ReadSymbolIs(lens, i, v);
      symbol := z.value[b];
    }

    /** The first length past 9 whose codes reach beyond the next 16 bits `k`, or 16 if there is none. */
    static method CodeLength(z: ZHuffman, k: nat, ghost lens: seq<nat>, ghost v: nat) returns (s: nat)
      requires z.Shape() && z.Decodes(lens) && k == Rev(v, 16)
      requires forall i :: 0 <= i < |lens| ==> !FastMatch(lens, i, v)
      ensures FAST_BITS < s <= 16
      ensures s < 16 ==> First(lens, s) <= Rev(v, s) < End(lens, s)
      ensures s == 16 ==> !SomeMatch(lens, v)
    {
      hide Rev, End, First, Shl, FastMatch, SomeMatch, Pow2;
      PastShortCodes(lens, v);
      RevBound(v, 16);
      Pow2Values();
      s := FAST_BITS + 1;
      while k >= z.maxcode[s]
        invariant FAST_BITS < s <= 16
        invariant forall t {:trigger Rev(v, t)} :: FAST_BITS <= t < s ==> Rev(v, t) >= End(lens, t)
        decreases 16 - s
      {
        BelowMaxcode(lens, v, s);
        s := s + 1;
      }
      if s == 16 {
        NoCode(lens, v);
      } else {
        BelowMaxcode(lens, v, s);
        NextFirst(lens, s - 1, v);
      }
    }

    /** Makes room for `n` more bytes by doubling the output buffer; fails if it is of a fixed size, or would have to
        grow past an int. */
    method ZExpand(z: nat, n: nat) returns (ok: bool)
      requires Valid() && z <= buf.Length < z + n
      modifies this`zout, this`buf
      ensures ok == room.Holds(z + n) && zout == z && Valid()
      ensures ok ==> fresh(buf) && z + n <= buf.Length && buf[..z] == old(buf[..z])
      ensures !ok ==> buf == old(buf)
    {
      hide Bounded, Pow2, ZHuffman.Shape;
      zout := z;
      if !expandable {
        return false;
      }
      var limit := buf.Length;
      while z + n > limit
        invariant limit >= buf.Length && Capacity(limit) == Capacity(buf.Length)
        decreases z + n - limit
      {
        if limit > INT_MAX / 2 {
          return false;
        }
        limit := limit * 2;
      }
      var q := new byte[limit];
      forall i | 0 <= i < buf.Length { q[i] := buf[i]; }
      buf := q;
      return true;
    }

    /** Whether `z` more bytes is within the output buffer, growing it if that is allowed. */
    method Reserve(z: nat, n: nat) returns (ok: bool)
      requires Valid() && z <= buf.Length
      modifies this`zout, this`buf
      ensures ok <==> room.Holds(z + n)
      ensures Valid() && z <= buf.Length && buf[..z] == old(buf[..z])
      ensures buf == old(buf) || (expandable && fresh(buf))
      ensures ok ==> z + n <= buf.Length
    {
      if z + n > buf.Length {
        ok := ZExpand(z, n);
      } else {
        ok := true;
      }
    }

    /** Copies `length` bytes from `distance` back, in order, so that a short distance repeats; from distance 0 the
        bytes are those the buffer held already. */
    static method CopyMatch(a: array<byte>, z: nat, length: nat, distance: nat)
      requires distance <= z && z + length <= a.Length
      modifies a
      ensures Written(old(a[..z]), Match(length, distance), a[..z + length])
      ensures distance == 0 ==> a[..] == old(a[..])
    {
      if distance == 1 {
        CopyRun(a, z, length);
      } else {
        CopyBytes(a, z, length, distance);
      }
    }

    /** A run of one byte. */
    static method CopyRun(a: array<byte>, z: nat, length: nat)
      requires 1 <= z && z + length <= a.Length
      modifies a
      ensures a[..z + length] == Copied(old(a[..z]), length, 1)
    {
      var v := a[z - 1];
      for k := 0 to length
        invariant a[z + k - 1] == v
        invariant Copied(old(a[..z]), length, 1) == Copied(a[..z + k], length - k, 1)
      {
        a[z + k] := v;
        assert a[..z + k + 1] == a[..z + k] + [v];
      }
    }

    static method CopyBytes(a: array<byte>, z: nat, length: nat, distance: nat)
      requires distance <= z && z + length <= a.Length
      modifies a
      ensures distance > 0 ==> a[..z + length] == Copied(old(a[..z]), length, distance)
      ensures length == 0 ==> a[..z] == old(a[..z])
      ensures distance == 0 ==> a[..] == old(a[..])
    {
      for k := 0 to length
        invariant k == 0 ==> a[..z] == old(a[..z])
        invariant distance == 0 ==> a[..] == old(a[..])
        invariant distance > 0 ==> Copied(old(a[..z]), length, distance) == Copied(a[..z + k], length - k, distance)
      {
        ghost var before := a[..z + k];
        a[z + k] := a[z - distance + k];
        assert a[..z + k + 1] == before + [a[z + k]];
      }
    }

    /** Decodes one symbol, and the pair it starts if it is a length. */
    method NextToken(ghost lens: seq<nat>, ghost dlens: seq<nat>) returns (kind: Kind, t: Token)
      requires Valid() && Tables(lens, dlens)
      modifies this`pos, this`numBits, this`codeBuffer, this`virtual
      ensures Valid()
      ensures ReadToken(lens, dlens, old(Ahead())) ==
                match kind
                case BlockEnd => Stop(Ahead())
                case Decoded => Next(t, Ahead())
                case _ => Bad
      ensures kind != NoRoom
      ensures kind != BadCode ==> Left() == old(Left()) - TokenBits(lens, dlens, old(Ahead()))
    {
      t := Literal(0);
      var symbol := HuffmanDecode(zLength, lens);
      if symbol < 0 {
        kind := BadCode;
      } else if symbol < 256 {
        kind, t := Decoded, Literal(symbol);
      } else if symbol == END_OF_BLOCK {
        kind := BlockEnd;
      } else {
        var ok, length, distance := ReadPair(symbol, dlens);
        kind := if ok then Decoded else BadCode;
        t := Match(length, distance);
      }
    }

    /** Appends what a token stands for, if it reaches no further back than the output and there is room. */
    method Emit(z: nat, t: Token, ghost lens: seq<nat>, ghost dlens: seq<nat>) returns (kind: Kind)
      requires Valid() && Tables(lens, dlens) && z <= buf.Length
      modifies this`zout, this`buf, buf
      ensures Valid() && Tables(lens, dlens) && (buf == old(buf) || (expandable && fresh(buf))) && z <= buf.Length
      ensures kind == if Admits(t, z, room) then Decoded else if Reaches(t, z) then NoRoom else BadCode
      ensures kind == Decoded ==> z + TokenLength(t) <= buf.Length
      ensures kind == Decoded ==> Written(old(buf[..z]), t, buf[..z + TokenLength(t)])
    {
      hide Bounded, Pow2, Ahead, Capacity, ZHuffman.Shape, ZHuffman.Decodes;
      kind := NoRoom;
      match t
      case Literal(b) =>
        var ok := Reserve(z, 1);
        if ok {
          buf[z] := b;
          kind := Decoded;
        }
      case Match(length, distance) =>
        if z < distance {
          return BadCode;
        }
        var ok := Reserve(z, length);
        if ok {
          CopyMatch(buf, z, length, distance);
          kind := Decoded;
        }
    }

    /** One round of the decoding loop, with `n` rounds allowed. */
    method DecodeSymbol(z: nat, ghost lens: seq<nat>, ghost dlens: seq<nat>, ghost n: nat)
      returns (kind: Kind, z': nat)
      requires Valid() && Tables(lens, dlens) && z <= buf.Length && n > 0
      modifies this, buf
      ensures Valid() && Tables(lens, dlens) && (buf == old(buf) || (expandable && fresh(buf))) && z <= z' <= buf.Length
      ensures var b := Block(lens, dlens, old(Ahead()), old(buf[..z]), room, n);
              match kind
              case Decoded => b == Unspecified || b == Block(lens, dlens, Ahead(), buf[..z'], room, n - 1)
              case BlockEnd => b == Done(buf[..z'], Ahead())
              case BadCode => b == Corrupt
              case NoRoom => b == room.Refusal()
      ensures kind == Decoded ==>
        Left() - BlockBits(lens, dlens, Ahead(), n - 1) == old(Left()) - BlockBits(lens, dlens, old(Ahead()), n)
      ensures kind == BlockEnd ==> Left() == old(Left()) - BlockBits(lens, dlens, old(Ahead()), n)
    {
      hide Ahead, Bounded, Block, Written, ReadToken, TokenBits, Left, Pow2, Capacity, ZHuffman.Shape;
      ghost var v, out := Ahead(), buf[..z];
      BlockEnds(lens, dlens, v, out, room, n);
      var t;
      kind, t := NextToken(lens, dlens);
      z' := z;
      if kind == Decoded {
        ghost var rest := Ahead();
        kind := Emit(z, t, lens, dlens);
        if kind == Decoded {
          z' := z + TokenLength(t);
          BlockNext(lens, dlens, v, out, room, n, t, rest, buf[..z']);
        }
      }
    }

    /** Decodes symbols until the end of the block. */
    method ParseHuffmanBlock(ghost lens: seq<nat>, ghost dlens: seq<nat>, fuel: nat) returns (st: Status)
      requires Valid() && Tables(lens, dlens)
      modifies this, buf
      ensures Valid() && (buf == old(buf) || (expandable && fresh(buf)))
      ensures Reports(Block(lens, dlens, old(Ahead()), old(Contents()), room, fuel), st)
      ensures st == Succeeded ==> Left() == old(Left()) - BlockBits(lens, dlens, old(Ahead()), fuel)
    {
      hide Block, Bounded, BlockBits, Ahead, Left, Pow2, Capacity, ZHuffman.Shape;
      var z: nat := zout;
      ghost var goal := Block(lens, dlens, Ahead(), Contents(), room, fuel);
      st := Exhausted;
      var n := fuel;
      while n > 0
        invariant Valid() && z <= buf.Length && (buf == old(buf) || (expandable && fresh(buf)))
        invariant Tables(lens, dlens)
        invariant goal == Unspecified || Block(lens, dlens, Ahead(), buf[..z], room, n) == goal
        invariant Left() - BlockBits(lens, dlens, Ahead(), n)
               == old(Left()) - BlockBits(lens, dlens, old(Ahead()), fuel)
      {
        var kind;
        kind, z := DecodeSymbol(z, lens, dlens, n);
        if kind != Decoded {
          st := Finish(kind, z);
          break;
        }
        n := n - 1;
      }
      NoSymbols(lens, dlens, Ahead(), buf[..z], room);
    }

    /** Leaves the decoding loop. */
    method Finish(kind: Kind, z: nat) returns (st: Status)
      requires Valid() && z <= buf.Length && kind != Decoded
      modifies this`zout
      ensures Valid() && Left() == old(Left())
      ensures match kind
              case BlockEnd => st == Succeeded && zout == z
              case NoRoom => st == Refused()
              case _ => st == Failed
    {
      st := Failed;
      if kind == BlockEnd {
        zout := z;
        st := Succeeded;
      } else if kind == NoRoom {
        st := Refused();
      }
    }

    /** Reads the rest of a length/distance pair. */
    method ReadPair(symbol: nat, ghost dlens: seq<nat>) returns (ok: bool, length: nat, distance: nat)
      requires Valid() && zDistance.Decodes(dlens) && |dlens| <= 32
      requires END_OF_BLOCK < symbol < 288
      modifies this`pos, this`numBits, this`codeBuffer, this`virtual
      ensures Valid()
      ensures ReadMatch(symbol, old(Ahead()), dlens) == if ok then Next(Match(length, distance), Ahead()) else Bad
      ensures ok ==> Left() == old(Left()) - PairBits(symbol, old(Ahead()), dlens)
    {
      hide Ahead, Bounded, Low, Shr, ReadSymbol, LengthBase, DistBase, LengthExtra, DistExtra, Left, Pow2;
      hide ZHuffman.Shape, ZHuffman.Decodes;
      var base, extra := LengthEntry(symbol - 257);
      length := ReceiveExtra(base, extra);
      var d := HuffmanDecode(zDistance, dlens);
      if d < 0 {
        return false, length, 0;
      }
      base, extra := DistEntry(d);
      distance := ReceiveExtra(base, extra);
      ok := true;
    }

    /** A table base plus its extra bits, if it has any. */
    method ReceiveExtra(base: nat, extra: nat) returns (r: nat)
      requires Valid() && extra <= 13
      modifies this`pos, this`numBits, this`codeBuffer, this`virtual
      ensures Valid() && r == base + Low(old(Ahead()), extra) && Ahead() == Shr(old(Ahead()), extra)
      ensures Left() == old(Left()) - extra
    {
      r := base;
      if extra != 0 {
        var e := ZReceive(extra);
        r := r + e;
      }
    }

    method ReadHeader() returns (cmf: byte, flg: byte)
      requires Sound() && pos == 0 && virtual == 0 && numBits == 0 && codeBuffer == 0
      modifies this`pos, this`virtual
      ensures Valid() && cmf == ByteAt(input, 0) && flg == ByteAt(input, 1)
      ensures LE(input[pos..]) == if |input| <= 2 then 0 else LE(input[2..])
      ensures Left() == 8 * (|input| - 2)
    {
      hide Housed;
      cmf := ZGet8();
      flg := ZGet8();
      LEBound(input[pos..]);
    }

    /** Checks the two header bytes. */
    method ParseZlibHeader() returns (ok: bool)
      requires Sound() && pos == 0 && virtual == 0 && numBits == 0 && codeBuffer == 0
      modifies this`pos, this`virtual
      ensures Valid() && ok == HeaderOk(ByteAt(input, 0), ByteAt(input, 1))
      ensures LE(input[pos..]) == if |input| <= 2 then 0 else LE(input[2..])
      ensures Left() == 8 * (|input| - 2)
    {
      hide Housed, And, LE, Bounded, Left;
      var cmf, flg := ReadHeader();
      var cm: nat := And(cmf, 15);
      if (cmf as int * 256 + flg) % 31 != 0 {
        return false;
      }
      if And(flg, 32) != 0 {
        return false;
      }
      if cm != 8 {
        return false;
      }
      return true;
    }

    /** Builds the tables of the fixed code. */
    method BuildFixed() returns (ok: bool)
      requires Valid() && TablesApart()
      modifies zLength.Repr, zDistance.Repr
      ensures ok <==> Huffman.Fits(FixedLengths()) && Huffman.Fits(FixedDistances())
      ensures ok ==> Tables(FixedLengths(), FixedDistances())
    {
      var defaultLength := seq(288, i requires 0 <= i => FixedLength(i));
      var defaultDistance := seq(32, i => 5);
      assert defaultLength == FixedLengths() && defaultDistance == FixedDistances();
      ok := BuildPair(defaultLength, defaultDistance);
    }

    /** The tables are separate objects, as the two struct members are. */
    ghost predicate TablesApart() {
      && zLength.Shape() && zLength.Separate() && zDistance.Shape() && zDistance.Separate()
      && zLength.Repr !! zDistance.Repr
    }

    /** The lengths of the code for code lengths. */
    method ReadCodeLengthSizes(n: nat) returns (sizes: seq<nat>)
      requires Valid() && n <= 19
      modifies this`pos, this`numBits, this`codeBuffer, this`virtual
      ensures Valid() && sizes == CodeLengthSizes(old(Ahead()), n) && Ahead() == Shr(old(Ahead()), 3 * n)
      ensures Left() == old(Left()) - 3 * n
    {
      hide LengthPlace, Bounded, Low, Ahead, Shr, Left, CodeLengthSizes;
      ghost var v := Ahead();
      var a := new nat[19](_ => 0);
      SizesStart(v, a[..]);
      for i := 0 to n
        invariant Valid() && a[..] == CodeLengthSizes(v, i) && Ahead() == Shr(v, 3 * i) && Left() == old(Left()) - 3 * i
      {
        var s := ZReceive(3);
        ShrAdd(v, 3 * i, 3);
        SizesNext(v, i);
        a[LengthPlace(i)] := s;
      }
      sizes := a[..];
    }

    /** Code lengths by the code for code lengths. */
    method ReadCodeLengths(z: ZHuffman, ghost cl: seq<nat>, total: nat) returns (ok: bool, lencodes: array<nat>)
      requires Valid() && z.Shape() && z.Decodes(cl) && |cl| == 19 && total <= 320 && this !in z.Repr
      modifies this`pos, this`numBits, this`codeBuffer, this`virtual
      ensures Valid() && fresh(lencodes) && lencodes.Length == 455
      ensures match ReadLengths(cl, old(Ahead()), total, [])
              case BadLengths => !ok
              case Lengths(lens, rest) =>
                && ok && lencodes[..total] == lens && Ahead() == rest
                && Left() == old(Left()) - LengthsBits(cl, old(Ahead()), total, [])
    {
      hide ReadRun, Bounded, Ahead, RunBits, Left, Low, Shr, ReadLengths, LengthsBits, ZHuffman.Decodes;
      lencodes := new nat[455];
      ghost var goal := ReadLengths(cl, Ahead(), total, []);
      var n: nat := 0;
      ok := true;
      assert lencodes[..0] == [];
      while n < total
        invariant Valid() && n <= total && z.Decodes(cl) && AllLengths(lencodes[..n])
        invariant ReadLengths(cl, Ahead(), total, lencodes[..n]) == goal
        invariant Left() - LengthsBits(cl, Ahead(), total, lencodes[..n])
               == old(Left()) - LengthsBits(cl, old(Ahead()), total, [])
      {
        ok, n := AddRun(z, cl, total, lencodes, n);
        if !ok {
          return;
        }
      }
      LengthsDone(cl, Ahead(), lencodes[..n]);
    }

    /** One more run of code lengths after the first `n`. */
    method AddRun(z: ZHuffman, ghost cl: seq<nat>, total: nat, lencodes: array<nat>, n: nat) returns (ok: bool, m: nat)
      requires Valid() && z.Shape() && z.Decodes(cl) && |cl| == 19 && this !in z.Repr
      requires n < total <= lencodes.Length && AllLengths(lencodes[..n])
      requires lencodes !in z.Repr && lencodes !in zLength.Repr + zDistance.Repr
      modifies this`pos, this`numBits, this`codeBuffer, this`virtual, lencodes
      ensures Valid() && (!ok ==> ReadLengths(cl, old(Ahead()), total, old(lencodes[..n])) == BadLengths)
      ensures ok ==> n < m <= total && AllLengths(lencodes[..m])
      ensures ok ==>
        ReadLengths(cl, Ahead(), total, lencodes[..m]) == ReadLengths(cl, old(Ahead()), total, old(lencodes[..n]))
      ensures ok ==>
        Left() - LengthsBits(cl, Ahead(), total, lencodes[..m])
        == old(Left()) - LengthsBits(cl, old(Ahead()), total, old(lencodes[..n]))
    {
      hide ReadRun, Bounded, Ahead, RunBits, Left, Low, Shr, ReadLengths, LengthsBits, ZHuffman.Decodes, Pow2;
      hide ZHuffman.Shape, Housed;
      LengthsNext(cl, Ahead(), total, lencodes[..n]);
      var count, fill;
      ok, count, fill := NextRun(z, cl, total - n, if n == 0 then -1 else lencodes[n - 1]);
      m := n;
      if ok {
        FillLengths(lencodes, n, count, fill);
        m := n + count;
      }
    }

    /** One symbol of the code for code lengths, and the lengths it stands for. */
    method NextRun(z: ZHuffman, ghost cl: seq<nat>, room: nat, last: int) returns (ok: bool, count: nat, fill: nat)
      requires Valid() && z.Shape() && z.Decodes(cl) && |cl| == 19 && 0 < room && last <= MAX_BITS
      modifies this`pos, this`numBits, this`codeBuffer, this`virtual
      ensures Valid()
      ensures match ReadRun(cl, old(Ahead()), room, last)
              case BadRun => !ok
              case Run(n, f, rest) =>
                && ok && count == n && fill == f && Ahead() == rest
                && Left() == old(Left()) - RunBits(cl, old(Ahead()))
    {
      hide Low, Bounded, Shr, Ahead, RepeatBits, RepeatBase;
      ok, count, fill := false, 1, 0;
      var c := HuffmanDecode(z, cl);
      if c < 0 {
        return;
      }
      if c < 16 {
        return true, 1, c;
      }
      count := ReadRepeat(c);
      if c == 16 {
        if last < 0 {
          return;
        }
        fill := last;
      }
      ok := count <= room;
    }

    static method FillLengths(a: array<nat>, n: nat, count: nat, fill: nat)
      requires n + count <= a.Length
      modifies a
      ensures a[..n + count] == old(a[..n]) + seq(count, _ => fill)
      ensures AllLengths(old(a[..n])) && fill <= MAX_BITS ==> AllLengths(a[..n + count])
    {
      for k := 0 to count
        invariant forall i :: 0 <= i < n + k ==> a[i] == if i < n then old(a[i]) else fill
      {
        a[n + k] := fill;
      }
    }

    /** How often a length repeats. */
    method ReadRepeat(c: nat) returns (count: nat)
      requires Valid() && 16 <= c < 19
      modifies this`pos, this`numBits, this`codeBuffer, this`virtual
      ensures Valid() && count == Low(old(Ahead()), RepeatBits(c)) + RepeatBase(c)
      ensures Ahead() == Shr(old(Ahead()), RepeatBits(c)) && Left() == old(Left()) - RepeatBits(c)
    {
      if c == 16 {
        count := ZReceive(2);
        count := count + 3;
      } else if c == 17 {
        count := ZReceive(3);
        count := count + 3;
      } else {
        count := ZReceive(7);
        count := count + 11;
      }
    }

    /** Builds the tables of a dynamic block. */
    method ComputeHuffmanCodes() returns (ok: bool, ghost lens: seq<nat>, ghost dlens: seq<nat>)
      requires Valid() && TablesApart()
      modifies this`pos, this`numBits, this`codeBuffer, this`virtual, zLength.Repr, zDistance.Repr
      ensures Valid()
      ensures match DynamicCodes(old(Ahead()))
              case BadCodes => !ok
              case Codes(l, d, rest) =>
                && ok && lens == l && dlens == d && Tables(lens, dlens)
                && Ahead() == rest && Left() == old(Left()) - DynamicBits(old(Ahead()))
    {
      hide SentLengths, Bounded, SentBits, Ahead, Left, Low, Shr, Huffman.Fits, Pow2, Capacity;
      DynamicBounds(Ahead());
      ok, lens, dlens := false, [], [];
      var hlit, hdist, hclen := ReadCounts();
      var read, lencodes := ReadSentLengths(hclen, hlit + hdist);
      if !read {
        return;
      }
      lens, dlens := lencodes[..hlit], lencodes[hlit..hlit + hdist];
      SliceParts(lencodes[..hlit + hdist], lencodes[..], hlit, hlit + hdist);
      ok := BuildPair(lencodes[..hlit], lencodes[hlit..hlit + hdist]);
    }

    /** How many code lengths of either kind a dynamic block sends, and how many of the code that they are sent in. */
    method ReadCounts() returns (hlit: nat, hdist: nat, hclen: nat)
      requires Valid()
      modifies this`pos, this`numBits, this`codeBuffer, this`virtual
      ensures Valid() && Left() == old(Left()) - 14
      ensures hlit == Low(old(Ahead()), 5) + 257 && hdist == Low(Shr(old(Ahead()), 5), 5) + 1
      ensures hclen == Low(Shr(Shr(old(Ahead()), 5), 5), 4) + 4
      ensures Ahead() == Shr(Shr(Shr(old(Ahead()), 5), 5), 4)
    {
      hide Bounded, Ahead, Left, Low, Shr;
      hlit := ZReceive(5);
      hlit := hlit + 257;
      hdist := ZReceive(5);
      hdist := hdist + 1;
      hclen := ZReceive(4);
      hclen := hclen + 4;
    }

    /** Code lengths, by a code whose own lengths come first. */
    method ReadSentLengths(n: nat, total: nat) returns (ok: bool, lencodes: array<nat>)
      requires Valid() && n <= 19 && total <= 320
      modifies this`pos, this`numBits, this`codeBuffer, this`virtual
      ensures Valid() && fresh(lencodes) && lencodes.Length == 455
      ensures match SentLengths(old(Ahead()), n, total)
              case BadLengths => !ok
              case Lengths(lens, rest) =>
                && ok && lencodes[..total] == lens && Ahead() == rest
                && Left() == old(Left()) - SentBits(old(Ahead()), n, total)
    {
      hide ReadLengths, Bounded, LengthsBits, CodeLengthSizes, Ahead, Left, Low, Shr, Huffman.Fits, Housed;
      var codelengthSizes := ReadCodeLengthSizes(n);
      var zCodelength := new ZHuffman();
      ok := zCodelength.Build(codelengthSizes);
      if ok {
        ok, lencodes := ReadCodeLengths(zCodelength, codelengthSizes, total);
      } else {
        lencodes := new nat[455];
      }
    }

    /** Builds both tables. */
    method BuildPair(lens: seq<nat>, dlens: seq<nat>) returns (ok: bool)
      requires Valid() && TablesApart() && IsSizeList(lens) && IsSizeList(dlens) && |dlens| <= 32
      modifies zLength.Repr, zDistance.Repr
      ensures ok <==> Huffman.Fits(lens) && Huffman.Fits(dlens)
      ensures ok ==> Tables(lens, dlens)
    {
      ok := zLength.Build(lens);
      if ok {
        ok := zDistance.Build(dlens);
      }
    }

    /** Reads a whole stream. */
    method ParseZlib(parseHeader: bool, fuel: nat) returns (st: Status)
      requires Valid() && TablesApart()
      requires pos == 0 && virtual == 0 && numBits == 0 && codeBuffer == 0 && zout == 0
      modifies this, buf, zLength.Repr, zDistance.Repr
      ensures Valid() && (buf == old(buf) || (expandable && fresh(buf)))
      ensures Reports(Zlib(input, parseHeader, room, fuel), st)
    {
      hide Blocks, HeaderOk, LE;
      if parseHeader {
        var ok := ParseZlibHeader();
        if !ok {
          return Failed;
        }
      } else {
        WholeInput(input);
      }
      numBits, codeBuffer := 0, 0;
      st := ParseBlocks(fuel);
    }

    /** Reads blocks until the last one. */
    method ParseBlocks(fuel: nat) returns (st: Status)
      requires Valid() && TablesApart() && zout == 0
      modifies this, buf, zLength.Repr, zDistance.Repr
      ensures Valid() && (buf == old(buf) || (expandable && fresh(buf)))
      ensures Reports(Blocks(old(Ahead()), old(Left()), [], room, fuel), st)
    {
      hide Blocks, Bounded, Ahead;
      ghost var goal := Blocks(Ahead(), Left(), Contents(), room, fuel);
      assert Contents() == [];
      st := Exhausted;
      var n := fuel;
      var final := 0;
      while n > 0 && final == 0
        invariant Valid() && (buf == old(buf) || (expandable && fresh(buf)))
        invariant final == 0 ==>
          st == Exhausted && (goal == Unspecified || Blocks(Ahead(), Left(), Contents(), room, n) == goal)
        invariant final != 0 ==> Reports(goal, st)
      {
        st, final := ParseBlock(n);
        n := n - 1;
      }
      NoFuel(Ahead(), Left(), Contents(), room);
    }

    /** Reads one block; `last` tells whether reading stops after it. */
    method ParseBlock(n: nat) returns (st: Status, last: nat)
      requires Valid() && TablesApart() && n > 0
      modifies this, buf, zLength.Repr, zDistance.Repr
      ensures Valid() && (buf == old(buf) || (expandable && fresh(buf)))
      ensures var b := Blocks(old(Ahead()), old(Left()), old(Contents()), room, n);
              if last == 0 then
                && st == Exhausted
                && (b == Unspecified || b == Blocks(Ahead(), Left(), Contents(), room, n - 1))
              else Reports(b, st)
    {
      hide Ahead, Bounded, Left, Low, Shr, OneBlock, LeftAfter;
      last := 1;
      var final := ZReceive(1);
      var blockType := ZReceive(2);
      st := ParseBody(blockType, n);
      if st == Succeeded && final == 0 {
        return Exhausted, 0;
      }
    }

    /** A block after its three header bits; there is no type 3. */
    method ParseBody(blockType: nat, n: nat) returns (st: Status)
      requires Valid() && TablesApart()
      modifies this, buf, zLength.Repr, zDistance.Repr
      ensures Valid() && (buf == old(buf) || (expandable && fresh(buf)))
      ensures Reports(OneBlock(blockType, old(Ahead()), old(Left()), old(Contents()), room, n), st)
      ensures st == Succeeded ==> Left() == LeftAfter(blockType, old(Ahead()), old(Left()), n)
    {
      hide Ahead, Bounded, Left, Low, Shr, Block, BlockBits, BlockCodes, CodesBits, Stored;
      if blockType == 0 {
        st := ParseUncompressedBlock();
      } else {
        var ok;
        ghost var lens, dlens;
        ok, lens, dlens := ReadTables(blockType);
        st := Failed;
        if ok {
          st := ParseHuffmanBlock(lens, dlens, n);
        }
      }
    }

    /** Copies the bytes of a stored block. */
    method ParseUncompressedBlock() returns (st: Status)
      requires Valid()
      modifies this`pos, this`numBits, this`codeBuffer, this`virtual, this`zout, this`buf, buf
      ensures Valid() && (buf == old(buf) || (expandable && fresh(buf)))
      ensures match Stored(old(Ahead()), old(Left()))
              case BadPiece => st == Failed
              case Piece(bytes, rest) =>
                && st == (if room.Holds(|old(Contents())| + |bytes|) then Succeeded else Refused())
                && (st == Succeeded ==> Contents() == old(Contents()) + bytes && Ahead() == rest
                                        && Left() == StoredStart(old(Left())) - 8 * |bytes|)
    {
      hide Ahead, Low, Shr, Bounded, Bytes;
      Align();
      var len, nlen := StoredHeader();
      XorOnes(len);
      if nlen != Xor(len, 65535) {
        return Failed;
      }
      if pos + len > |input| {
        return Failed;
      }
      var ok := CopyStored(len);
      st := if ok then Succeeded else Refused();
    }

    /** Skips the rest of a byte. */
    method Align()
      requires Valid()
      modifies this`pos, this`numBits, this`codeBuffer, this`virtual
      ensures Valid() && numBits % 8 == 0
      ensures Ahead() == Shr(old(Ahead()), old(Left()) % 8) && Left() == old(Left()) - old(Left()) % 8
    {
      hide Ahead, Low, Shr, Bounded, Pow2, Housed, Left;
      ShrNothing(Ahead());
      PartOfByte();
      if numBits % 8 != 0 {
        var discard := ZReceive(numBits % 8);
      }
      PartOfByte();
    }

    lemma PartOfByte()
      ensures Left() % 8 == numBits % 8
    {
    }

    /** The four bytes before a stored block: what the bit buffer holds of them, then bytes of the input. */
    method StoredHeader() returns (len: nat, nlen: nat)
      requires Valid() && numBits % 8 == 0
      modifies this`pos, this`numBits, this`codeBuffer, this`virtual
      ensures Valid() && numBits == 0 && codeBuffer == 0
      ensures len == Low(old(Ahead()), 16) < 65536 && nlen == Low(Shr(old(Ahead()), 16), 16)
      ensures Ahead() == Shr(old(Ahead()), 32) && Left() == old(Left()) - 32
      ensures virtual > 0 ==> nlen < 256 && pos == |input|
    {
      hide Ahead, Low, Shr, Pow2;
      ghost var v := Ahead();
      ShortHeader(v, Left());
      var header := new byte[4];
      var k := DrainBuffer(header);
      FillHeader(header, k, v);
      len := header[1] as int * 256 + header[0];
      nlen := header[3] as int * 256 + header[2];
      FourBytes(v, header[..]);
    }

    /** The bytes in the bit buffer. */
    method DrainBuffer(header: array<byte>) returns (k: nat)
      requires Valid() && numBits % 8 == 0 && header.Length == 4
      modifies this`numBits, this`codeBuffer, header
      ensures Valid() && numBits == 0 && codeBuffer == 0 && k <= 4
      ensures Ahead() == Shr(old(Ahead()), 8 * k) && Left() == old(Left()) - 8 * k
      ensures forall i :: 0 <= i < k ==> header[i] == Low(Shr(old(Ahead()), 8 * i), 8)
    {
      hide Ahead, Low, Shr, Left, Bounded, Pow2;
      ghost var v := Ahead();
      k := 0;
      ShrNothing(v);
      while numBits > 0
        invariant Valid() && numBits % 8 == 0 && 8 * k + numBits <= 32
        invariant Ahead() == Shr(v, 8 * k) && Left() == old(Left()) - 8 * k
        invariant forall i :: 0 <= i < k ==> header[i] == Low(Shr(v, 8 * i), 8)
        decreases numBits
      {
        var b := DrainByte();
        header[k] := b;
        ShrAdd(v, 8 * k, 8);
        k := k + 1;
      }
      SmallPowers();
    }

    method DrainByte() returns (b: byte)
      requires Valid() && numBits >= 8
      modifies this`numBits, this`codeBuffer
      ensures Valid() && numBits == old(numBits) - 8
      ensures b == Low(old(Ahead()), 8) && Ahead() == Shr(old(Ahead()), 8) && Left() == old(Left()) - 8
    {
      hide Low, And, Shr, LE, Shl, Bounded, Housed;
      Pow2Values();
      BufferedLow(codeBuffer, LE(input[pos..]), numBits, 8);
      LowAndRest(Ahead(), 8);
      b := And(codeBuffer, 255);
      Consume(8);
    }

    /** The other bytes of a header, from the input. */
    method FillHeader(header: array<byte>, start: nat, ghost v: nat)
      requires Valid() && numBits == 0 && codeBuffer == 0 && header.Length == 4 && start <= 4
      requires Ahead() == Shr(v, 8 * start) && forall i :: 0 <= i < start ==> header[i] == Low(Shr(v, 8 * i), 8)
      modifies this`pos, this`virtual, header
      ensures Valid() && Ahead() == Shr(v, 32) && Left() == old(Left()) - 8 * (4 - start)
      ensures forall i :: 0 <= i < 4 ==> header[i] == Low(Shr(v, 8 * i), 8)
    {
      hide Low, Shr, Pow2, Ahead, Left;
      for k := start to 4
        invariant Valid() && Ahead() == Shr(v, 8 * k) && Left() == old(Left()) - 8 * (k - start)
        invariant forall i :: 0 <= i < k ==> header[i] == Low(Shr(v, 8 * i), 8)
      {
        var b := NextByte();
        ShrAdd(v, 8 * k, 8);
        header[k] := b;
      }
    }

    /** With an empty bit buffer, the next byte of the stream is that of the input. */
    method NextByte() returns (b: byte)
      requires Valid() && numBits == 0 && codeBuffer == 0
      modifies this`pos, this`virtual
      ensures Valid() && b == Low(old(Ahead()), 8) && Ahead() == Shr(old(Ahead()), 8) && Left() == old(Left()) - 8
    {
      hide Low, Shr, LE, Pow2;
      b := ZGet8();
      SmallPowers();
      Placed(b, LE(input[pos..]), 8);
      LEBound(input[pos..]);
    }

    /** Copies `len` bytes of the input. */
    method CopyStored(len: nat) returns (ok: bool)
      requires Valid() && numBits == 0 && codeBuffer == 0 && virtual == 0 && pos + len <= |input|
      modifies this`pos, this`zout, this`buf, buf
      ensures Valid() && (buf == old(buf) || (expandable && fresh(buf)))
      ensures ok == room.Holds(|old(Contents())| + len)
      ensures ok ==> Contents() == old(Contents()) + Bytes(old(Ahead()), len)
      ensures ok ==> Ahead() == Shr(old(Ahead()), 8 * len) && Left() == old(Left()) - 8 * len
    {
      hide LE, Shr, Bytes, Pow2, Capacity, ZHuffman.Shape, Bounded, Ahead;
      var z := zout;
      ok := Reserve(z, len);
      if ok {
        CopyBack(buf, z, input, pos, len);
        zout := z + len;
        SkipStored(len);
      }
    }

    /** Moves past `len` bytes of the input. */
    method SkipStored(len: nat)
      requires Valid() && numBits == 0 && codeBuffer == 0 && virtual == 0 && pos + len <= |input|
      modifies this`pos
      ensures Valid() && pos == old(pos) + len
      ensures input[old(pos)..pos] == Bytes(old(Ahead()), len)
      ensures Ahead() == Shr(old(Ahead()), 8 * len) && Left() == old(Left()) - 8 * len
    {
      hide LE, Shr, Bytes, Pow2;
      BytesOf(input[pos..], len);
      SliceInside(input, pos, len);
      pos := pos + len;
      LEBound(input[pos..]);
    }

    static method CopyBack(a: array<byte>, z: nat, s: seq<byte>, p: nat, len: nat)
      requires z + len <= a.Length && p + len <= |s|
      modifies a
      ensures a[..z + len] == old(a[..z]) + s[p..p + len]
    {
      for k := 0 to len
        invariant forall i :: 0 <= i < z + k ==> a[i] == if i < z then old(a[i]) else s[p + i - z]
      {
        a[z + k] := s[p + k];
      }
    }

    /** The tables of a block that is not stored; there is no type 3. */
    method ReadTables(blockType: nat) returns (ok: bool, ghost lens: seq<nat>, ghost dlens: seq<nat>)
      requires Valid() && TablesApart() && blockType != 0
      modifies this`pos, this`numBits, this`codeBuffer, this`virtual, zLength.Repr, zDistance.Repr
      ensures Valid()
      ensures match BlockCodes(blockType, old(Ahead()))
              case BadCodes => !ok
              case Codes(l, d, rest) =>
                && ok && lens == l && dlens == d && Tables(lens, dlens)
                && Ahead() == rest && Left() == old(Left()) - CodesBits(blockType, old(Ahead()))
    {
      hide Ahead, Bounded, Left, DynamicCodes, DynamicBits;
      ok, lens, dlens := false, [], [];
      if blockType == 1 {
        ok := BuildFixed();
        lens, dlens := FixedLengths(), FixedDistances();
      } else if blockType == 2 {
        ok, lens, dlens := ComputeHuffmanCodes();
      }
    }
  }

  lemma LengthsDone(cl: seq<nat>, v: nat, got: seq<nat>)
    requires |cl| == 19 && AllLengths(got)
    ensures ReadLengths(cl, v, |got|, got) == Lengths(got, v) && LengthsBits(cl, v, |got|, got) == 0
  {
  }

  /** One more run of code lengths, or none. */
  lemma LengthsNext(cl: seq<nat>, v: nat, total: nat, got: seq<nat>)
    requires |cl| == 19 && |got| < total && AllLengths(got)
    ensures match ReadRun(cl, v, total - |got|, if got == [] then -1 else got[|got| - 1])
            case BadRun => ReadLengths(cl, v, total, got) == BadLengths
            case Run(n, fill, rest) =>
              var more := got + seq(n, _ => fill);
              && ReadLengths(cl, v, total, got) == ReadLengths(cl, rest, total, more)
              && LengthsBits(cl, v, total, got) == RunBits(cl, v) + LengthsBits(cl, rest, total, more)
  {
    hide ReadRun, RunBits;
  }

  lemma SizesStart(v: nat, s: seq<nat>)
    requires |s| == 19 && forall i :: 0 <= i < 19 ==> s[i] == 0
    ensures s == CodeLengthSizes(v, 0) && v == Shr(v, 0)
  {
  }

  lemma SizesNext(v: nat, i: nat)
    requires i < 19
    ensures CodeLengthSizes(v, i + 1) == CodeLengthSizes(v, i)[LengthPlace(i) := Low(Shr(v, 3 * i), 3)]
  {
  }

  lemma SliceParts<T>(part: seq<T>, whole: seq<T>, m: nat, n: nat)
    requires m <= n <= |whole| && part == whole[..n]
    ensures part[..m] == whole[..m] && part[m..] == whole[m..n]
  {
  }

  ghost predicate AllLengths(s: seq<nat>) {
    forall i :: 0 <= i < |s| ==> s[i] <= MAX_BITS
  }

  lemma ShrWithin(v: nat, left: int, n: nat)
    requires v < Pow2(if left < 0 then 0 else left)
    ensures Shr(v, n) < Pow2(if left - n < 0 then 0 else left - n)
  {
    if n <= left {
      ShrBound(v, left, n);
    } else {
      Pow2Monotone(if left < 0 then 0 else left, n);
      ShrBound(v, n, n);
    }
  }

  lemma {:induction false} LEBound(s: seq<byte>)
    ensures LE(s) < Pow2(8 * |s|)
  {
    if s != [] {
      LEBound(s[1..]);
      SmallPowers();
      PlacedBound(s[0], LE(s[1..]), 8, 8 * |s[1..]|);
    }
  }

  lemma {:induction false} LowConcat(x: nat, m: nat, n: nat)
    ensures Low(x, m + n) == Low(x, m) + Shl(Low(Shr(x, m), n), m)
  {
    if m > 0 {
      LowConcat(x / 2, m - 1, n);
    }
  }

  lemma TwoBytes(v: nat)
    ensures Low(v, 16) == Low(v, 8) + 256 * Low(Shr(v, 8), 8) < 65536
  {
    hide Low, Shr, Shl, Pow2;
    LowConcat(v, 8, 8);
    ShlIsProduct(Low(Shr(v, 8), 8), 8);
    LowAndRest(v, 16);
    Pow2Values();
  }

  lemma FourBytes(v: nat, h: seq<byte>)
    requires |h| == 4 && forall i :: 0 <= i < 4 ==> h[i] == Low(Shr(v, 8 * i), 8)
    ensures h[1] as int * 256 + h[0] == Low(v, 16) < 65536 && h[3] as int * 256 + h[2] == Low(Shr(v, 16), 16)
  {
    hide Low, Shr;
    TwoBytes(v);
    TwoBytes(Shr(v, 16));
    ShrAdd(v, 16, 8);
    ShrNothing(v);
    assert h[0] == Low(Shr(v, 8 * 0), 8) && h[1] == Low(Shr(v, 8 * 1), 8);
    assert h[2] == Low(Shr(v, 8 * 2), 8) && h[3] == Low(Shr(v, 8 * 3), 8);
  }

  /** A header cut short has a small second number. */
  lemma ShortHeader(v: nat, left: int)
    requires v < Pow2(if left < 0 then 0 else left)
    ensures left <= 24 ==> Low(Shr(v, 16), 16) < 256
  {
    Pow2Values();
    if left <= 24 {
      Pow2Monotone(if left < 0 then 0 else left, 24);
      ShrBound(v, 24, 16);
      LowSmall(Shr(v, 16), 16);
    }
  }

  /** The bytes a stream starts with, and the stream after them. */
  lemma {:induction false} BytesOf(s: seq<byte>, n: nat)
    requires n <= |s|
    ensures Bytes(LE(s), n) == s[..n] && Shr(LE(s), 8 * n) == LE(s[n..])
  {
    hide Low, Shr, Shl, LE, Bytes;
    if n == 0 {
      NoBytes(s);
    } else {
      FirstByte(s);
      BytesStep(LE(s), n);
      BytesOf(s[1..], n - 1);
      ShrAdd(LE(s), 8, 8 * (n - 1));
      assert s[1..][n - 1..] == s[n..];
      assert s[..n] == [s[0]] + s[1..][..n - 1];
    }
  }

  lemma NoBytes(s: seq<byte>)
    ensures Bytes(LE(s), 0) == s[..0] && Shr(LE(s), 8 * 0) == LE(s[0..])
  {
    assert s[0..] == s;
  }

  lemma BytesStep(v: nat, n: nat)
    requires 0 < n
    ensures Bytes(v, n) == [Low(v, 8)] + Bytes(Shr(v, 8), n - 1)
  {
  }

  lemma SliceInside<T>(s: seq<T>, p: nat, n: nat)
    requires p + n <= |s|
    ensures s[p..][..n] == s[p..p + n] && s[p..][n..] == s[p + n..]
  {
  }

  lemma FirstByte(s: seq<byte>)
    requires s != []
    ensures Low(LE(s), 8) == s[0] && Shr(LE(s), 8) == LE(s[1..])
  {
    SmallPowers();
    Placed(s[0], LE(s[1..]), 8);
  }

  lemma ShrNothing(v: nat)
    ensures Shr(v, 0) == v
  {
  }

  lemma {:induction false} XorOnesBits(x: nat, n: nat)
    requires x < Pow2(n)
    ensures Xor(x, Pow2(n) - 1) == Pow2(n) - 1 - x
  {
    if n > 0 {
      XorOnesBits(x / 2, n - 1);
    }
  }

  /** The complement of sixteen bits. */
  lemma XorOnes(x: nat)
    ensures x < 65536 ==> Xor(x, 65535) == 65535 - x
  {
    Pow2Values();
    if x < 65536 {
      XorOnesBits(x, 16);
    }
  }

  lemma WholeInput(s: seq<byte>)
    ensures s[0..] == s
  {
  }

  lemma LengthTableStep(z: nat)
    requires 0 < z < 28
    ensures ZLENGTH_BASE[z] == ZLENGTH_BASE[z - 1] + Pow2(LengthExtra(z - 1))
  {
    SmallPowers();
  }

  lemma {:induction false} LengthTable(z: nat)
    requires z < 31
    ensures ZLENGTH_BASE[z] == LengthBase(z)
  {
    if 0 < z < 28 {
      LengthTableStep(z);
      LengthTable(z - 1);
    }
  }

  lemma LengthExtraTable(z: nat)
    requires z < 31
    ensures ZLENGTH_EXTRA[z] == LengthExtra(z)
  {
  }

  lemma DistTableStep(d: nat)
    requires 0 < d < 30
    ensures ZDIST_BASE[d] == ZDIST_BASE[d - 1] + Pow2(DistExtra(d - 1))
  {
    SmallPowers();
  }

  lemma {:induction false} DistTable(d: nat)
    requires d < 32
    ensures ZDIST_BASE[d] == DistBase(d)
  {
    if 0 < d < 30 {
      DistTableStep(d);
      DistTable(d - 1);
    }
  }

  lemma DistExtraTable(d: nat)
    requires d < 32
    ensures ZDIST_EXTRA[d] == DistExtra(d)
  {
  }

  // ----- the window at the front of the bit buffer

  /** Placing a byte above the buffered bits keeps the stream and stays within the word. */
  lemma BufferByte(codeBuffer: nat, b: byte, more: nat, numBits: nat)
    requires codeBuffer < Pow2(numBits) && numBits <= 24
    ensures Or(codeBuffer, Shl(b, numBits)) + Shl(more, numBits + 8) == codeBuffer + Shl(b + Shl(more, 8), numBits)
    ensures Or(codeBuffer, Shl(b, numBits)) < Pow2(numBits + 8) <= TWO_TO_THE_32
  {
    hide Or, Shl, Pow2;
    Pow2Values();
    SmallPowers();
    OrDisjoint(codeBuffer, b, numBits);
    PlacedBound(codeBuffer, b, numBits, 8);
    Pow2Monotone(numBits + 8, 32);
    ShlSum(b, Shl(more, 8), numBits);
    ShlAdd(more, 8, numBits);
  }

  /** The first bits of the buffer read the same as the whole stream. */
  lemma BufferedBits(codeBuffer: nat, more: nat, numBits: nat, n: nat)
    requires n <= numBits
    ensures Rev(codeBuffer, n) == Rev(codeBuffer + Shl(more, numBits), n)
  {
    PlacedPart(codeBuffer, more, numBits, n);
    RevLow(codeBuffer, n, n);
    RevLow(codeBuffer + Shl(more, numBits), n, n);
  }

  lemma BufferedLow(codeBuffer: nat, more: nat, numBits: nat, n: nat)
    requires n <= numBits
    ensures And(codeBuffer, Pow2(n) - 1) == Low(codeBuffer + Shl(more, numBits), n)
  {
    AndMask(codeBuffer, n);
    PlacedPart(codeBuffer, more, numBits, n);
  }

  lemma FastWindow(codeBuffer: nat, more: nat, numBits: nat, window: nat)
    requires numBits >= 16 && window == And(codeBuffer, Pow2(FAST_BITS) - 1)
    ensures window < FAST_SIZE && SameStart(window, codeBuffer + Shl(more, numBits))
  {
    AndMask(codeBuffer, FAST_BITS);
    LowAndRest(codeBuffer, FAST_BITS);
    Pow2Values();
    forall s {:trigger Rev(window, s)} | 0 <= s <= FAST_BITS
      ensures Rev(window, s) == Rev(codeBuffer + Shl(more, numBits), s)
    {
      RevLow(codeBuffer, FAST_BITS, s);
      BufferedBits(codeBuffer, more, numBits, s);
    }
  }

  /** A window of short-code bits agrees with the stream. */
  ghost predicate SameStart(window: nat, v: nat) {
    forall s {:trigger Rev(window, s)} :: 0 <= s <= FAST_BITS ==> Rev(window, s) == Rev(v, s)
  }

  /** What a fast-table entry says about the stream. */
  lemma FastLookup(lens: seq<nat>, window: nat, v: nat, b: nat)
    requires FastEntry(lens, |lens|, window, b)
    requires SameStart(window, v)
    ensures b != 0 ==>
      b / 512 <= FAST_BITS && ReadSymbol(lens, v) == Symbol(b % 512, Shr(v, b / 512)) && SymbolBits(lens, v) == b / 512
    ensures b == 0 ==> forall i :: 0 <= i < |lens| ==> !FastMatch(lens, i, v)
  {
    if b != 0 {
      assert Rev(window, lens[b % 512]) == Rev(v, lens[b % 512]);
      ReadSymbolIs(lens, b % 512, v);
    } else {
      forall i | 0 <= i < |lens| ensures !FastMatch(lens, i, v) {
        assert lens[i] <= FAST_BITS ==> Rev(window, lens[i]) == Rev(v, lens[i]);
        assert !FastMatch(lens, i, window);
      }
    }
  }

  /** A 16-bit value reaches `maxcode[s]` exactly when its first `s` bits are past the codes of length `s`. */
  lemma BelowMaxcode(lens: seq<nat>, v: nat, s: nat)
    requires 1 <= s <= MAX_BITS
    ensures Rev(v, 16) >= Shl(End(lens, s), 16 - s) <==> Rev(v, s) >= End(lens, s)
  {
    RevPrefix(v, s, 16);
    LowAndRest(Rev(v, 16), 16 - s);
    if Rev(v, 16) >= Shl(End(lens, s), 16 - s) {
      ShrAtLeast(Rev(v, 16), 16 - s, End(lens, s));
    } else {
      ShlLess(Rev(v, s), End(lens, s), 16 - s);
    }
  }

  lemma PastShortCodes(lens: seq<nat>, v: nat)
    requires forall i :: 0 <= i < |lens| ==> !FastMatch(lens, i, v)
    ensures Rev(v, FAST_BITS) >= End(lens, FAST_BITS)
  {
    if Rev(v, FAST_BITS) < End(lens, FAST_BITS) {
      var i := BelowEndMatches(lens, FAST_BITS, v);
      assert FastMatch(lens, i, v);
    }
  }

  lemma NoCode(lens: seq<nat>, v: nat)
    requires IsSizeList(lens)
    requires forall i :: 0 <= i < |lens| ==> !FastMatch(lens, i, v)
    requires forall t {:trigger Rev(v, t)} :: FAST_BITS <= t <= MAX_BITS ==> Rev(v, t) >= End(lens, t)
    ensures !SomeMatch(lens, v)
  {
    forall i | 0 <= i < |lens| ensures !Matches(lens, i, v) {
      if lens[i] > FAST_BITS {
        RankBelowCount(lens, i);
        assert Rev(v, lens[i]) >= End(lens, lens[i]);
      } else {
        assert !FastMatch(lens, i, v);
      }
    }
  }

  /** Decodes into a buffer that grows from `initialSize` bytes, as far as its doubled size stays an int. */
  method ZlibDecodeMalloc(buffer: seq<byte>, initialSize: nat, fuel: nat) returns (st: Status, out: seq<byte>)
    requires initialSize > 0
    ensures match Zlib(buffer, true, Growing(Capacity(initialSize)), fuel)
            case Done(bytes, _) => st == Succeeded && out == bytes
            case Corrupt => st == Failed
            case Overflow => st == Overflowed
            case OutOfFuel => st == Exhausted
            case Unspecified => true
  {
    var p := new byte[initialSize];
    var a := new ZBuf(buffer, p, true);
    st := a.ParseZlib(true, fuel);
    out := a.buf[..a.zout];
  }

  /** Decodes into a buffer of a fixed size. */
  method ZlibDecodeBuffer(obuffer: array<byte>, ibuffer: seq<byte>, fuel: nat) returns (st: Status, length: nat)
    modifies obuffer
    ensures match Zlib(ibuffer, true, Limited(obuffer.Length), fuel)
            case Done(bytes, _) => st == Succeeded && length == |bytes| <= obuffer.Length && obuffer[..length] == bytes
            case Corrupt => st == Failed
            case Overflow => st == Overflowed
            case OutOfFuel => st == Exhausted
            case Unspecified => true
  {
    var a := new ZBuf(ibuffer, obuffer, false);
    st := a.ParseZlib(true, fuel);
    length := a.zout;
  }
}
