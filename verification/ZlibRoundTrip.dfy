/** The writer and the reader undo each other. */
module ZlibRoundTrip {
  import opened Bits
  import opened Deflate
  import opened TokenCode
  import opened FixedCode
  import opened Compress
  import opened Inflate

  /** The fields of a stream, with the checksum as one last field. */
  lemma StreamIsPacked(out: seq<byte>, cs: seq<Coded>, zeros: seq<Field>, data: seq<byte>) returns (tail: seq<Field>)
    requires IsZlib(out, cs, zeros, data)
    ensures LE(out[2..]) == Pack([Field(1, 1)] + ([Field(1, 2)]
              + (AllFields(cs) + ([SymbolField(FixedLengths(), END_OF_BLOCK)] + tail))))
  {
    hide LE, Pack, AllFields, FixedLengths, Shl;
    var fs, body, adler := StreamFields(cs) + zeros, out[2..|out| - 4], out[|out| - 4..];
    var f := Field(LE(adler), 32);
    assert out[2..] == body + adler;
    LEAppend(body, adler);
    PackAppend(fs, [f]);
    OneField(f);
    tail := zeros + [f];
    var eob := [SymbolField(FixedLengths(), END_OF_BLOCK)];
    Regroup(Field(1, 1), Field(1, 2), AllFields(cs), eob, zeros, [f]);
  }

  lemma Regroup<T>(a: T, b: T, c: seq<T>, d: seq<T>, e: seq<T>, f: seq<T>)
    ensures [a, b] + c + d + e + f == [a] + ([b] + (c + (d + (e + f))))
  {
    assert c + d + e + f == c + (d + (e + f));
    assert [a, b] + c + d + e + f == [a, b] + (c + d + e + f);
    assert [a, b] == [a] + [b];
  }

  /** Reading a block header written as two fields. */
  lemma ReadBlockHeader(rest: seq<Field>)
    ensures var v := Pack([Field(1, 1)] + ([Field(1, 2)] + rest));
            Low(v, 1) == 1 && BlockType(v) == 1 && Shr(Shr(v, 1), 2) == Pack(rest)
  {
    SmallPowers();
    PackFirst(Field(1, 1), [Field(1, 2)] + rest);
    PackFirst(Field(1, 2), rest);
  }

  lemma AndHalves(x: nat, y: nat)
    requires x > 0 && (x % 2 == 0 || y % 2 == 0)
    ensures And(x, y) == 2 * And(x / 2, y / 2)
  {
  }

  lemma HeaderAccepted()
    ensures HeaderOk(0x78, 0x5e)
  {
    hide And;
    AndHalves(0x5e, 32);
    AndHalves(47, 16);
    AndHalves(23, 8);
    AndHalves(11, 4);
    AndHalves(5, 2);
    AndHalves(2, 1);
    AndZero(1);
    AndHalves(0x78, 15);
    AndHalves(60, 7);
    AndHalves(30, 3);
    AndMask(15, 1);
    assert Pow2(1) == 2 && Low(15, 1) == 1;
  }

  /** What the format makes of a written stream: the data, if there is room for it, and a refusal if not. */
  lemma StreamMeansData(out: seq<byte>, cs: seq<Coded>, zeros: seq<Field>, data: seq<byte>, room: Room, fuel: nat)
    requires IsZlib(out, cs, zeros, data) && fuel > |data|
    ensures var o := Zlib(out, true, room, fuel);
            if room.Holds(|data|) then o.Done? && o.out == data else o == room.Refusal()
  {
    var tail := StreamIsPacked(out, cs, zeros, data);
    var v := LE(out[2..]);
    var rest := AllFields(cs) + ([SymbolField(FixedLengths(), END_OF_BLOCK)] + tail);
    ReadBlockHeader(rest);
    HeaderAccepted();
    assert out[0] == out[..2][0] == 0x78 && out[1] == out[..2][1] == 0x5e;
    FixedLengthsFit();
    FixedDistancesFit();
    BlockOfFixed(cs, tail, [], room, fuel);
    assert data[..|data|] == data;
    assert Zlib(out, true, room, fuel) == Blocks(v, 8 * (|out| - 2), [], room, fuel);
  }

  /** Decompressing what was compressed returns the data, for every data, quality and initial buffer size, as long as
      the doubled buffer size stays an int; see `Deflate.CapacityIff` for when that is. */
  method RoundTrip(data: seq<byte>, quality: int, initialSize: nat, fuel: nat) returns (st: Status, result: seq<byte>)
    requires initialSize > 0 && fuel > |data|
    ensures if |data| <= Capacity(initialSize) then st == Succeeded && result == data else st == Overflowed
  {
    hide Capacity;
    var out;
    ghost var cs, zeros;
    out, cs, zeros := ZlibCompress(data, quality);
    StreamMeansData(out, cs, zeros, data, Growing(Capacity(initialSize)), fuel);
    st, result := ZlibDecodeMalloc(out, initialSize, fuel);
  }

  /** From 16384 bytes, the usual start, doubling comes to 2^30 bytes and no further. */
  lemma UsualCapacity()
    ensures Capacity(16384) == 0x4000_0000
  {
    assert Capacity(0x10_0000) == Capacity(0x200_0000);
    assert Capacity(0x200_0000) == Capacity(0x4000_0000) by {
      assert Capacity(0x200_0000) == Capacity(0x800_0000);
    }
    assert Capacity(16384) == Capacity(0x10_0000);
  }

  /** One byte more does not come back from there. */
  method LongIsLost(quality: int) returns (st: Status, result: seq<byte>)
    ensures st == Overflowed
  {
    hide Capacity;
    UsualCapacity();
    var data: seq<byte> := seq(0x4000_0001, _ => 0);
    st, result := RoundTrip(data, quality, 16384, 0x4000_0002);
  }

  /** Into a buffer of a fixed size, decompressing succeeds exactly when the data fits. */
  method RoundTripBuffer(data: seq<byte>, quality: int, obuffer: array<byte>, fuel: nat)
    returns (st: Status, length: nat)
    requires fuel > |data|
    modifies obuffer
    ensures st == Succeeded <==> |data| <= obuffer.Length
    ensures st == Succeeded ==> length == |data| && obuffer[..length] == data
  {
    var out;
    ghost var cs, zeros;
    out, cs, zeros := ZlibCompress(data, quality);
    StreamMeansData(out, cs, zeros, data, Limited(obuffer.Length), fuel);
    st, length := ZlibDecodeBuffer(obuffer, out, fuel);
  }
}
