/** Whole streams of blocks of all three kinds, as any writer may send them, and what the reader makes of them. */
module StreamCode {
  import opened Wrappers
  import opened Bits
  import opened Huffman
  import opened Deflate
  import opened TokenCode
  import opened FixedCode
  import opened DynamicCode
  import opened Inflate
  import opened ZlibRoundTrip

  // ----- bytes as they are

  function ByteFields(bytes: seq<byte>): seq<Field> {
    if bytes == [] then [] else [Field(bytes[0], 8)] + ByteFields(bytes[1..])
  }

  lemma {:induction false} ReadByteFields(bytes: seq<byte>, rest: seq<Field>)
    ensures Deflate.Bytes(Pack(ByteFields(bytes) + rest), |bytes|) == bytes
    ensures Shr(Pack(ByteFields(bytes) + rest), 8 * |bytes|) == Pack(rest)
    ensures Width(ByteFields(bytes)) == 8 * |bytes|
  {
    hide Pack, Low, Shr, Deflate.Bytes;
    if bytes == [] {
      assert ByteFields(bytes) + rest == rest;
      NoneRead(Pack(rest));
    } else {
      SmallPowers();
      var f, more := Field(bytes[0], 8), ByteFields(bytes[1..]);
      assert ByteFields(bytes) + rest == [f] + (more + rest);
      PackFirst(f, more + rest);
      ReadByteFields(bytes[1..], rest);
      OneRead(Pack(ByteFields(bytes) + rest), |bytes|);
      PackAppend([f], more);
      OneWidth(f);
      assert bytes == [bytes[0]] + bytes[1..];
    }
  }

  lemma NoneRead(v: nat)
    ensures Deflate.Bytes(v, 0) == [] && Shr(v, 8 * 0) == v
  {
  }

  lemma OneRead(v: nat, n: nat)
    requires n > 0 && Low(v, 8) < 256
    ensures Deflate.Bytes(v, n) == [Low(v, 8) as byte] + Deflate.Bytes(Shr(v, 8), n - 1)
    ensures Shr(v, 8 * n) == Shr(Shr(v, 8), 8 * (n - 1))
  {
    ShrAdd(v, 8, 8 * (n - 1));
  }

  // ----- a stored block

  /** Whatever fills the byte that the header ends in, the number of bytes and its complement, and the bytes. */
  function StoredFields(bytes: seq<byte>, pad: nat, left: nat): seq<Field>
    requires |bytes| < 0x1_0000
  {
    [Field(pad, left % 8)] + ([Field(|bytes|, 16)] + ([Field(0xFFFF - |bytes|, 16)] + ByteFields(bytes)))
  }

  /** With `left` bits to the end of the input, so at any bit position, a stored block is read as its bytes. */
  lemma ReadStored(bytes: seq<byte>, pad: nat, left: nat, rest: seq<Field>)
    requires |bytes| < 0x1_0000 && pad < Pow2(left % 8) && Width(StoredFields(bytes, pad, left)) <= left
    ensures Deflate.Stored(Pack(StoredFields(bytes, pad, left) + rest), left) == Piece(bytes, Pack(rest))
    ensures Width(StoredFields(bytes, pad, left)) == left % 8 + 32 + 8 * |bytes|
  {
    hide Pack, Low, Shr, Deflate.Bytes, Pow2, ByteFields;
    StoredWidth(bytes, pad, left);
    Pow2Values();
    var skip, len, nlen := Field(pad, left % 8), Field(|bytes|, 16), Field(0xFFFF - |bytes|, 16);
    var more := ByteFields(bytes) + rest;
    StoredRegroup(skip, len, nlen, ByteFields(bytes), rest);
    PackFirst(skip, [len] + ([nlen] + more));
    PackFirst(len, [nlen] + more);
    PackFirst(nlen, more);
    ShrAdd(Pack([len] + ([nlen] + more)), 16, 16);
    ReadByteFields(bytes, rest);
  }

  lemma StoredRegroup(a: Field, b: Field, c: Field, d: seq<Field>, e: seq<Field>)
    ensures [a] + ([b] + ([c] + d)) + e == [a] + ([b] + ([c] + (d + e)))
  {
  }

  lemma StoredWidth(bytes: seq<byte>, pad: nat, left: nat)
    requires |bytes| < 0x1_0000
    ensures Width(StoredFields(bytes, pad, left)) == left % 8 + 32 + 8 * |bytes|
  {
    hide Width, Pack, ByteFields;
    var skip, len, nlen := Field(pad, left % 8), Field(|bytes|, 16), Field(0xFFFF - |bytes|, 16);
    ReadByteFields(bytes, []);
    PackAppend([nlen], ByteFields(bytes));
    PackAppend([len], [nlen] + ByteFields(bytes));
    PackAppend([skip], [len] + ([nlen] + ByteFields(bytes)));
    OneWidth(skip);
    OneWidth(len);
    OneWidth(nlen);
  }

  // ----- blocks of all kinds

  datatype SentBlock =
    | StoredBlock(bytes: seq<byte>, pad: nat)
    | FixedBlock(cs: seq<Coded>)
    | DynamicBlock(plan: Plan, cs: seq<Coded>)
  {
    function Kind(): nat {
      match this
      case StoredBlock(_, _) => 0
      case FixedBlock(_) => 1
      case DynamicBlock(_, _) => 2
    }

    /** It can follow `out`, with `left` bits from the end of its header on. */
    ghost predicate Fits(out: seq<byte>, left: nat) {
      match this
      case StoredBlock(bytes, pad) => |bytes| < 0x1_0000 && pad < Pow2(left % 8)
      case FixedBlock(cs) => AllValid(cs) && Expandable(out, Tokens(cs))
      case DynamicBlock(plan, cs) =>
        plan.Valid() && AllValid(cs) && AllIn(plan.lens, plan.dlens, cs) && Expandable(out, Tokens(cs))
    }

    /** The output, and what the block adds to it. */
    ghost function After(out: seq<byte>, left: nat): seq<byte>
      requires Fits(out, left)
    {
      match this
      case StoredBlock(bytes, _) => out + bytes
      case FixedBlock(cs) => Expand(out, Tokens(cs))
      case DynamicBlock(_, cs) => Expand(out, Tokens(cs))
    }

    ghost function Fields(out: seq<byte>, left: nat): seq<Field>
      requires Fits(out, left)
    {
      match this
      case StoredBlock(bytes, pad) => StoredFields(bytes, pad, left)
      case FixedBlock(cs) =>
        AllInFixed(cs);
        BlockFields(FixedLengths(), FixedDistances(), cs)
      case DynamicBlock(plan, cs) => plan.Fields() + BlockFields(plan.lens, plan.dlens, cs)
    }

    /** How many symbols, and one more. */
    function Effort(): nat {
      match this
      case StoredBlock(_, _) => 1
      case FixedBlock(cs) => |cs| + 1
      case DynamicBlock(_, cs) => |cs| + 1
    }
  }

  /** What one block is read as. */
  ghost predicate IsReadAs(b: SentBlock, v: nat, left: nat, out: seq<byte>, rest: nat, room: Room, fuel: nat)
    requires b.Fits(out, left)
  {
    && OneBlock(b.Kind(), v, left, out, room, fuel)
       == (if room.Holds(|b.After(out, left)|) then Done(b.After(out, left), rest) else room.Refusal())
    && LeftAfter(b.Kind(), v, left, fuel) == left - Width(b.Fields(out, left))
  }

  lemma ReadStoredBlock(b: SentBlock, out: seq<byte>, left: nat, tail: seq<Field>, room: Room, fuel: nat)
    requires b.StoredBlock? && b.Fits(out, left) && Width(b.Fields(out, left)) <= left
    ensures IsReadAs(b, Pack(b.Fields(out, left) + tail), left, out, Pack(tail), room, fuel)
  {
    hide Pack, Width, Deflate.Stored, StoredFields, Pow2;
    ReadStored(b.bytes, b.pad, left, tail);
  }

  lemma ReadFixedBlock(b: SentBlock, out: seq<byte>, left: nat, tail: seq<Field>, room: Room, fuel: nat)
    requires b.FixedBlock? && b.Fits(out, left) && room.Holds(|out|) && fuel >= b.Effort()
    ensures IsReadAs(b, Pack(b.Fields(out, left) + tail), left, out, Pack(tail), room, fuel)
  {
    hide Pack, Width, Block, BlockBits, BlockFields, Expand, Expandable, Huffman.Fits;
    AllInFixed(b.cs);
    FixedCodes();
    BlockOfFields(FixedLengths(), FixedDistances(), b.cs, tail, out, room, fuel);
  }

  lemma ReadDynamicBlock(b: SentBlock, out: seq<byte>, left: nat, tail: seq<Field>, room: Room, fuel: nat)
    requires b.DynamicBlock? && b.Fits(out, left) && room.Holds(|out|) && fuel >= b.Effort()
    ensures IsReadAs(b, Pack(b.Fields(out, left) + tail), left, out, Pack(tail), room, fuel)
  {
    hide Pack, Width, Block, BlockBits, BlockFields, Expand, Expandable, Huffman.Fits, DynamicCodes, DynamicBits;
    hide Plan.Fields, PlaceOf, AllSent, Meaningful, Meaning;
    var block := BlockFields(b.plan.lens, b.plan.dlens, b.cs);
    Assoc(b.plan.Fields(), block, tail);
    ReadPlan(b.plan, block + tail);
    BlockOfFields(b.plan.lens, b.plan.dlens, b.cs, tail, out, room, fuel);
    PackAppend(b.plan.Fields(), block);
  }

  lemma ReadBlock(b: SentBlock, out: seq<byte>, left: nat, tail: seq<Field>, room: Room, fuel: nat)
    requires b.Fits(out, left) && Width(b.Fields(out, left)) <= left && room.Holds(|out|) && fuel >= b.Effort()
    ensures IsReadAs(b, Pack(b.Fields(out, left) + tail), left, out, Pack(tail), room, fuel)
  {
    match b
    case StoredBlock(_, _) => ReadStoredBlock(b, out, left, tail, room, fuel);
    case FixedBlock(_) => ReadFixedBlock(b, out, left, tail, room, fuel);
    case DynamicBlock(_, _) => ReadDynamicBlock(b, out, left, tail, room, fuel);
  }

  // ----- streams of blocks

  /** With `left` bits from its header on, the block can follow `out`, and the input has all its bits. */
  ghost predicate Begins(b: SentBlock, out: seq<byte>, left: int) {
    left >= 3 && b.Fits(out, left - 3) && Width(b.Fields(out, left - 3)) <= left - 3
  }

  ghost function Next(b: SentBlock, out: seq<byte>, left: int): seq<byte>
    requires Begins(b, out, left)
  {
    b.After(out, left - 3)
  }

  ghost function Body(b: SentBlock, out: seq<byte>, left: int): seq<Field>
    requires Begins(b, out, left)
  {
    b.Fields(out, left - 3)
  }

  /** The bits left after it. */
  ghost function Rest(b: SentBlock, out: seq<byte>, left: int): int
    requires Begins(b, out, left)
  {
    left - 3 - Width(Body(b, out, left))
  }

  /** Each block can follow those before it, and the input has all their bits. */
  ghost predicate Sendable(bs: seq<SentBlock>, out: seq<byte>, left: int)
    decreases |bs|
  {
    bs == [] || (Begins(bs[0], out, left) && Sendable(bs[1..], Next(bs[0], out, left), Rest(bs[0], out, left)))
  }

  /** What they come to. */
  ghost function Sum(bs: seq<SentBlock>, out: seq<byte>, left: int): seq<byte>
    requires Sendable(bs, out, left)
    decreases |bs|
  {
    if bs == [] then out else Sum(bs[1..], Next(bs[0], out, left), Rest(bs[0], out, left))
  }

  /** Every block after its three header bits, with the last one marked. */
  ghost function StreamFields(bs: seq<SentBlock>, out: seq<byte>, left: int): seq<Field>
    requires Sendable(bs, out, left)
    decreases |bs|
  {
    if bs == [] then []
    else
      [Field(if |bs| == 1 then 1 else 0, 1)] + ([Field(bs[0].Kind(), 2)] + (Body(bs[0], out, left)
      + StreamFields(bs[1..], Next(bs[0], out, left), Rest(bs[0], out, left))))
  }

  function Efforts(bs: seq<SentBlock>): nat {
    if bs == [] then 0 else bs[0].Effort() + Efforts(bs[1..])
  }

  lemma ReadHead(last: nat, kind: nat, body: seq<Field>)
    requires last < 2 && kind < 3
    ensures var v := Pack([Field(last, 1)] + ([Field(kind, 2)] + body));
            Low(v, 1) == last && BlockType(v) == kind && Shr(Shr(v, 1), 2) == Pack(body)
  {
    hide Pack, Low, Shr;
    SmallPowers();
    PackFirst(Field(last, 1), [Field(kind, 2)] + body);
    PackFirst(Field(kind, 2), body);
  }

  lemma AfterGrows(b: SentBlock, out: seq<byte>, left: nat)
    requires b.Fits(out, left)
    ensures |out| <= |b.After(out, left)|
  {
    hide Expand, Expandable;
    match b
    case StoredBlock(_, _) =>
    case FixedBlock(cs) => ExpandGrows(out, Tokens(cs));
    case DynamicBlock(_, cs) => ExpandGrows(out, Tokens(cs));
  }

  lemma {:induction false} SumGrows(bs: seq<SentBlock>, out: seq<byte>, left: int)
    requires Sendable(bs, out, left)
    ensures |out| <= |Sum(bs, out, left)|
    decreases |bs|
  {
    hide SentBlock.Fits, SentBlock.After, SentBlock.Fields, Width;
    if bs != [] {
      AfterGrows(bs[0], out, left - 3);
      SumGrows(bs[1..], Next(bs[0], out, left), Rest(bs[0], out, left));
    }
  }

  /** Any blocks, one after the other, are read as the bytes they come to, unless these find no room. */
  lemma {:induction false} ReadStream(bs: seq<SentBlock>, out: seq<byte>, left: int, tail: seq<Field>, room: Room,
        fuel: nat)
    requires bs != [] && Sendable(bs, out, left) && room.Holds(|out|) && fuel >= Efforts(bs)
    ensures Blocks(Pack(StreamFields(bs, out, left) + tail), left, out, room, fuel)
         == if room.Holds(|Sum(bs, out, left)|) then Done(Sum(bs, out, left), Pack(tail)) else room.Refusal()
    decreases |bs|
  {
    hide Pack, Width, Low, Shr, OneBlock, LeftAfter, BlockType;
    hide SentBlock.Fits, SentBlock.After, SentBlock.Fields;
    var b := bs[0];
    var body, after, next := Body(b, out, left), Next(b, out, left), Rest(b, out, left);
    var more := StreamFields(bs[1..], after, next) + tail;
    StreamRegroup(Field(if |bs| == 1 then 1 else 0, 1), Field(b.Kind(), 2), body, StreamFields(bs[1..], after, next),
                  tail);
    ReadHead(if |bs| == 1 then 1 else 0, b.Kind(), body + more);
    ReadBlock(b, out, left - 3, more, room, fuel);
    AfterGrows(b, out, left - 3);
    SumGrows(bs[1..], after, next);
    if |bs| == 1 {
      assert bs[1..] == [];
      assert StreamFields(bs[1..], after, next) + tail == tail;
    } else if room.Holds(|after|) {
      ReadStream(bs[1..], after, next, tail, room, fuel - 1);
    }
  }

  lemma StreamRegroup(a: Field, b: Field, c: seq<Field>, d: seq<Field>, e: seq<Field>)
    ensures [a] + ([b] + (c + d)) + e == [a] + ([b] + (c + (d + e)))
  {
  }

  /** The input is a zlib stream of these blocks, with anything after them. */
  ghost predicate IsStream(input: seq<byte>, bs: seq<SentBlock>, tail: seq<Field>) {
    && bs != [] && |input| >= 2 && HeaderOk(input[0], input[1]) && Sendable(bs, [], 8 * (|input| - 2))
    && LE(input[2..]) == Pack(StreamFields(bs, [], 8 * (|input| - 2)) + tail)
  }

  ghost function Meaning(input: seq<byte>, bs: seq<SentBlock>): seq<byte>
    requires |input| >= 2 && Sendable(bs, [], 8 * (|input| - 2))
  {
    Sum(bs, [], 8 * (|input| - 2))
  }

  /** The format gives a stream of any blocks the meaning of these blocks. */
  lemma StreamMeans(input: seq<byte>, bs: seq<SentBlock>, tail: seq<Field>, room: Room, fuel: nat)
    requires IsStream(input, bs, tail) && fuel >= Efforts(bs)
    ensures Zlib(input, true, room, fuel)
         == if room.Holds(|Meaning(input, bs)|) then Done(Meaning(input, bs), Pack(tail)) else room.Refusal()
  {
    hide Pack, Blocks, HeaderOk, LE, Sendable, StreamFields, Sum;
    SendableBits(bs, [], 8 * (|input| - 2));
    ReadStream(bs, [], 8 * (|input| - 2), tail, room, fuel);
  }

  lemma SendableBits(bs: seq<SentBlock>, out: seq<byte>, left: int)
    requires bs != [] && Sendable(bs, out, left)
    ensures left >= 3
  {
  }

  // ----- every sequence of blocks is that of some stream

  lemma {:induction false} BytesAreFields(bytes: seq<byte>)
    ensures AreFields(ByteFields(bytes))
  {
    if bytes != [] {
      SmallPowers();
      BytesAreFields(bytes[1..]);
    }
  }

  lemma BodyIsFields(b: SentBlock, out: seq<byte>, left: nat)
    requires b.Fits(out, left)
    ensures AreFields(b.Fields(out, left))
  {
    hide ByteFields, BlockFields, Plan.Fields, Expandable, Huffman.Fits, Meaningful, DynamicCode.Meaning, PlaceOf, Pow2;
    match b
    case StoredBlock(bytes, _) =>
      Pow2Values();
      BytesAreFields(bytes);
    case FixedBlock(cs) =>
      AllInFixed(cs);
      BlockIsFields(FixedLengths(), FixedDistances(), cs);
    case DynamicBlock(plan, cs) =>
      PlanIsFields(plan);
      BlockIsFields(plan.lens, plan.dlens, cs);
  }

  lemma {:induction false} StreamIsFields(bs: seq<SentBlock>, out: seq<byte>, left: int)
    requires Sendable(bs, out, left)
    ensures AreFields(StreamFields(bs, out, left)) && (bs != [] ==> Width(StreamFields(bs, out, left)) <= left)
    ensures bs == [] ==> Width(StreamFields(bs, out, left)) == 0
    decreases |bs|
  {
    hide Pack, Width, SentBlock.Fits, SentBlock.After, SentBlock.Fields, AreFields;
    if bs == [] {
      NoFields();
    } else {
      var b := bs[0];
      var last, kind := Field(if |bs| == 1 then 1 else 0, 1), Field(b.Kind(), 2);
      var body, more := Body(b, out, left), StreamFields(bs[1..], Next(b, out, left), Rest(b, out, left));
      BodyIsFields(b, out, left - 3);
      StreamIsFields(bs[1..], Next(b, out, left), Rest(b, out, left));
      HeadIsFields(last, kind, body, more);
    }
  }

  lemma NoFields()
    ensures AreFields([]) && Width([]) == 0
  {
  }

  lemma HeadIsFields(last: Field, kind: Field, body: seq<Field>, more: seq<Field>)
    requires last.width == 1 && last.value < 2 && kind.width == 2 && kind.value < 3
    requires AreFields(body) && AreFields(more)
    ensures var fs := [last] + ([kind] + (body + more));
            AreFields(fs) && Width(fs) == 3 + Width(body) + Width(more)
  {
    hide Pack, Width;
    SmallPowers();
    PackAppend([last], [kind] + (body + more));
    PackAppend([kind], body + more);
    PackAppend(body, more);
    OneWidth(last);
    OneWidth(kind);
  }

  lemma {:induction false} BytesHold(v: nat, n: nat)
    requires v < Pow2(8 * n)
    ensures LE(Deflate.Bytes(v, n)) == v
    decreases n
  {
    hide Low, Shr, Shl;
    if n == 0 {
      assert Deflate.Bytes(v, 0) == [];
      SmallPowers();
    } else {
      SmallPowers();
      LowAndRest(v, 8);
      ShrBound(v, 8 * n, 8);
      BytesHold(Shr(v, 8), n - 1);
      var bs := Deflate.Bytes(v, n);
      assert bs[0] == Low(v, 8) && bs[1..] == Deflate.Bytes(Shr(v, 8), n - 1);
    }
  }

  /** Blocks that can be sent in `n` bytes are those of some stream. */
  lemma StreamExists(bs: seq<SentBlock>, n: nat) returns (input: seq<byte>)
    requires bs != [] && Sendable(bs, [], 8 * n)
    ensures IsStream(input, bs, [])
  {
    hide Pack, Width, Pow2, StreamFields, Sendable, LE, Deflate.Bytes, HeaderOk;
    var fields := StreamFields(bs, [], 8 * n);
    StreamIsFields(bs, [], 8 * n);
    PackBound(fields);
    Pow2Monotone(Width(fields), 8 * n);
    BytesHold(Pack(fields), n);
    HeaderAccepted();
    input := [0x78, 0x5e] + Deflate.Bytes(Pack(fields), n);
    assert input[2..] == Deflate.Bytes(Pack(fields), n);
    assert fields + [] == fields;
  }

  /** Decompressing a stream of any blocks, by whatever writer, returns the bytes these blocks stand for, if the buffer
      can grow to their number. */
  method DecodeStream(input: seq<byte>, initialSize: nat, fuel: nat, ghost bs: seq<SentBlock>, ghost tail: seq<Field>)
    returns (st: Status, result: seq<byte>)
    requires initialSize > 0 && IsStream(input, bs, tail) && fuel >= Efforts(bs)
    ensures if |Meaning(input, bs)| <= Capacity(initialSize) then st == Succeeded && result == Meaning(input, bs)
            else st == Overflowed
  {
    hide Capacity, IsStream, Meaning;
    StreamMeans(input, bs, tail, Growing(Capacity(initialSize)), fuel);
    st, result := ZlibDecodeMalloc(input, initialSize, fuel);
  }
}
