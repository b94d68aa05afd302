/** Bits in bytes: the buffers of writer and reader, and the zero byte stuffed after 0xff
    (ITU-T T.81, section F.1.2.3). */
module JpegStream {
  import opened Wrappers
  import opened Bits
  import opened JpegCode

  // ----- shifts as operations on bit strings

  function Zeros(n: nat): (z: BitString)
    ensures |z| == n && forall i :: 0 <= i < n ==> !z[i]
  {
    seq(n, _ => false)
  }

  lemma {:induction false} MsbSplit(v: nat, n: nat, m: nat)
    ensures Msb(v, n + m) == Msb(Shr(v, m), n) + Msb(v, m)
  {
    if m > 0 {
      MsbSplit(v / 2, n, m - 1);
      assert Msb(v, n + m) == Msb(Shr(v / 2, m - 1), n) + (Msb(v / 2, m - 1) + [v % 2 == 1]);
    }
  }

  lemma {:induction false} MsbShifted(v: nat, n: nat, m: nat)
    ensures Msb(Shl(v, m), n + m) == Msb(v, n) + Zeros(m)
  {
    if m > 0 {
      MsbShifted(v, n, m - 1);
      assert Shl(v, m) / 2 == Shl(v, m - 1);
      assert Zeros(m) == Zeros(m - 1) + [false];
    } else {
      assert Msb(v, n) + Zeros(0) == Msb(v, n);
    }
  }

  /** Only the low `n` bits count. */
  lemma {:induction false} MsbLow(v: nat, n: nat)
    ensures Msb(Low(v, n), n) == Msb(v, n)
  {
    if n > 0 {
      MsbLow(v / 2, n - 1);
    }
  }

  /** A buffer of `w` bits shifted by `n`. */
  lemma BufferShifted(v: nat, w: nat, n: nat)
    requires n <= w
    ensures Msb(Low(Shl(v, n), w), w) == Msb(v, w)[n..] + Zeros(n)
    ensures Msb(Shr(v, w - n), n) == Msb(v, w)[..n]
  {
    MsbLow(Shl(v, n), w);
    MsbShifted(v, w - n, n);
    MsbSplit(v, n, w - n);
  }

  /** The top `n` bits as a number. */
  lemma TopBits(v: nat, w: nat, n: nat)
    requires n <= w && v < Pow2(w)
    ensures Num(Msb(v, w)[..n]) == Shr(v, w - n)
  {
    MsbSplit(v, n, w - n);
    ShrBound(v, w, w - n);
    NumMsb(Shr(v, w - n), n);
  }

  lemma {:induction false} LowShifted(x: nat, n: nat, w: nat)
    requires n <= w
    ensures Low(Shl(x, n), w) == Shl(Low(x, w - n), n)
  {
    if n > 0 {
      assert Shl(x, n) / 2 == Shl(x, n - 1);
      LowShifted(x, n - 1, w - 1);
    }
  }

  /** `x` rotated left by `n` in 32 bits. */
  function Lrot(x: nat, n: nat): nat
    requires n <= 32
  {
    Or(Low(Shl(x, n), 32), Shr(x, 32 - n))
  }

  /** A rotation brings the top bits down; masked off, they leave a shift. */
  lemma LrotParts(x: nat, n: nat)
    requires n <= 32 && x < Pow2(32)
    ensures Low(Lrot(x, n), n) == Shr(x, 32 - n) && Lrot(x, n) - Low(Lrot(x, n), n) == Low(Shl(x, n), 32)
  {
    hide Or, Low, Shr, Shl, Pow2;
    LowShifted(x, n, 32);
    ShrBound(x, 32, 32 - n);
    OrSwap(Low(Shl(x, n), 32), Shr(x, 32 - n));
    OrDisjoint(Shr(x, 32 - n), Low(x, 32 - n), n);
    Placed(Shr(x, 32 - n), Low(x, 32 - n), n);
  }

  predicate ZeroTail(b: BitString, n: nat) {
    forall i :: n <= i < |b| ==> !b[i]
  }

  lemma EmptyBuffer(w: nat)
    ensures ZeroTail(Msb(0, w), 0)
  {
    ShlZero(w);
    MsbShifted(0, 0, w);
  }

  /** New bits set below the first `used` bits of a buffer. */
  lemma BufferFilled(v: nat, w: nat, used: nat, x: nat, n: nat)
    requires used + n <= w && ZeroTail(Msb(v, w), used) && x < Pow2(n)
    ensures Msb(Or(v, Shl(x, w - used - n)), w) == Msb(v, w)[..used] + Msb(x, n) + Zeros(w - used - n)
    ensures v < Pow2(w) ==> Or(v, Shl(x, w - used - n)) < Pow2(w)
  {
    hide Or, Low, Shr, Shl, Pow2, Msb, Num, ZeroTail;
    var free := w - used;
    var rest := free - n;
    MsbSplit(v, used, free);
    TailIsZero(v, w, used);
    LowAndRest(v, free);
    ShlIsProduct(x, rest);
    ShlIsProduct(Pow2(n), rest);
    Pow2Add(n, rest);
    MulStrict(x, Pow2(n), Pow2(rest));
    OrDisjoint(Shl(x, rest), Shr(v, free), free);
    OrSwap(v, Shl(x, rest));
    var r := Shl(x, rest) + Shl(Shr(v, free), free);
    Placed(Shl(x, rest), Shr(v, free), free);
    MsbSplit(r, used, free);
    MsbLow(r, free);
    if v < Pow2(w) {
      ShrBound(v, w, free);
      PlacedBound(Shl(x, rest), Shr(v, free), free, used);
    }
    MsbShifted(x, n, rest);
    assert Msb(v, w)[..used] + (Msb(x, n) + Zeros(rest)) == Msb(v, w)[..used] + Msb(x, n) + Zeros(rest);
  }

  /** The bits in use after new ones were set. */
  lemma BufferGrown(v: nat, w: nat, used: nat, x: nat, n: nat)
    requires used + n <= w && ZeroTail(Msb(v, w), used) && x < Pow2(n) && v < Pow2(w)
    ensures var next := Or(v, Shl(x, w - used - n));
            && next < Pow2(w) && Msb(next, w)[..used + n] == Msb(v, w)[..used] + Msb(x, n)
            && ZeroTail(Msb(next, w), used + n)
  {
    hide Or, Shl, Pow2, Msb;
    BufferFilled(v, w, used, x, n);
  }

  lemma MulStrict(a: nat, b: nat, m: nat)
    requires a < b && 0 < m
    ensures a * m < b * m
  {
    MulMonotone(m, a + 1, b);
    MulDistrib(a, 1, m);
  }

  lemma {:induction false} OrSwap(x: nat, y: nat)
    ensures Or(x, y) == Or(y, x)
    decreases x + y
  {
    if x != 0 && y != 0 {
      OrSwap(x / 2, y / 2);
    }
  }

  lemma TailIsZero(v: nat, w: nat, used: nat)
    requires used <= w && ZeroTail(Msb(v, w), used)
    ensures Low(v, w - used) == 0
  {
    var free := w - used;
    MsbSplit(v, used, free);
    var tail := Msb(v, free);
    assert tail == Zeros(free) by {
      forall i | 0 <= i < free ensures !tail[i] {
        assert Msb(v, w)[used + i] == tail[i];
      }
    }
    LowAndRest(v, free);
    MsbLow(v, free);
    NumMsb(Low(v, free), free);
    NumZeros(free);
  }

  lemma {:induction false} NumZeros(n: nat)
    ensures Num(Zeros(n)) == 0
  {
    if n > 0 {
      NumZeros(n - 1);
      assert Zeros(n)[..n - 1] == Zeros(n - 1);
    }
  }

  // ----- bytes

  function ByteBits(bs: seq<byte>): BitString {
    if bs == [] then [] else Msb(bs[0], 8) + ByteBits(bs[1..])
  }

  lemma {:induction false} ByteBitsAppend(a: seq<byte>, b: seq<byte>)
    ensures ByteBits(a + b) == ByteBits(a) + ByteBits(b)
  {
    if a == [] {
      assert a + b == b;
    } else {
      assert (a + b)[1..] == a[1..] + b;
      ByteBitsAppend(a[1..], b);
      assert Msb(a[0], 8) + (ByteBits(a[1..]) + ByteBits(b)) == Msb(a[0], 8) + ByteBits(a[1..]) + ByteBits(b);
    }
  }

  /** A zero follows every 0xff. */
  function Stuffed(raw: seq<byte>): seq<byte> {
    if raw == [] then [] else Stuffed(raw[..|raw| - 1]) + StuffedByte(raw[|raw| - 1])
  }

  function StuffedByte(c: byte): seq<byte> {
    if c == 255 then [255, 0] else [c]
  }

  /** The first place from `pos` on that is not a fill byte. */
  function PastFill(data: seq<byte>, pos: nat): (q: nat)
    ensures q >= pos
    decreases |data| - pos
  {
    if ByteAt(data, pos) == 255 then PastFill(data, pos + 1) else pos
  }

  /** The bytes from `pos` up to the next marker, each zero after 0xff left out. */
  function Unstuffed(data: seq<byte>, pos: nat): seq<byte>
    decreases |data| - pos
  {
    if pos >= |data| then []
    else if data[pos] != 255 then [data[pos]] + Unstuffed(data, pos + 1)
    else
      var q := PastFill(data, pos + 1);
      if ByteAt(data, q) != 0 then [] else [255] + Unstuffed(data, q + 1)
  }

  lemma FirstStuffed(data: seq<byte>, pos: nat, c: byte, more: seq<byte>, after: seq<byte>)
    requires pos <= |data| && data[pos..] == StuffedByte(c) + more + after
    ensures pos + |StuffedByte(c)| <= |data| && data[pos + |StuffedByte(c)|..] == more + after
    ensures data[pos] == c && (c == 255 ==> data[pos + 1] == 0)
  {
    assert data[pos] == data[pos..][0];
    if c == 255 {
      assert data[pos + 1] == data[pos..][1];
    }
    assert data[pos + |StuffedByte(c)|..] == data[pos..][|StuffedByte(c)|..];
  }

  /** Stuffed bytes before a marker come back. */
  lemma NothingUnstuffed(data: seq<byte>, pos: nat, marker: byte, tail: seq<byte>)
    requires pos <= |data| && data[pos..] == [255, marker] + tail && 0 < marker < 255
    ensures Unstuffed(data, pos) == []
  {
    assert data[pos] == data[pos..][0] && data[pos + 1] == data[pos..][1];
  }

  lemma FirstUnstuffed(data: seq<byte>, pos: nat, c: byte)
    requires pos + |StuffedByte(c)| <= |data| && data[pos] == c && (c == 255 ==> data[pos + 1] == 0)
    ensures Unstuffed(data, pos) == [c] + Unstuffed(data, pos + |StuffedByte(c)|)
  {
  }

  lemma {:induction false} UnstuffedStuffed(data: seq<byte>, pos: nat, raw: seq<byte>, marker: byte, tail: seq<byte>)
    requires pos <= |data| && data[pos..] == Stuffed(raw) + ([255, marker] + tail) && 0 < marker < 255
    ensures Unstuffed(data, pos) == raw
    decreases |raw|
  {
    if raw == [] {
      assert data[pos..] == [255, marker] + tail;
      NothingUnstuffed(data, pos, marker, tail);
    } else {
      hide Stuffed, StuffedByte, Unstuffed;
      StuffedFront(raw);
      FirstStuffed(data, pos, raw[0], Stuffed(raw[1..]), [255, marker] + tail);
      FirstUnstuffed(data, pos, raw[0]);
      UnstuffedStuffed(data, pos + |StuffedByte(raw[0])|, raw[1..], marker, tail);
      assert raw == [raw[0]] + raw[1..];
    }
  }

  lemma StuffedBack(raw: seq<byte>)
    requires raw != []
    ensures Stuffed(raw) == Stuffed(raw[..|raw| - 1]) + StuffedByte(raw[|raw| - 1])
  {
  }

  lemma {:induction false} StuffedFront(raw: seq<byte>)
    requires raw != []
    ensures Stuffed(raw) == StuffedByte(raw[0]) + Stuffed(raw[1..])
  {
    hide StuffedByte;
    var n := |raw| - 1;
    if n == 0 {
      assert raw[..0] == [] && raw[1..] == [];
    } else {
      hide Stuffed;
      StuffedFront(raw[..n]);
      StuffedBack(raw);
      StuffedBack(raw[1..]);
      assert raw[..n][1..] == raw[1..][..n - 1];
      Assoc(StuffedByte(raw[0]), Stuffed(raw[1..][..n - 1]), StuffedByte(raw[n]));
    }
  }
}
