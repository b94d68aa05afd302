/** Writing the 64 coefficients of a block as run lengths, sizes and additional bits. */
module JpegEncode {
  import opened Words
  import opened Wrappers
  import opened Bits
  import opened JpegCode
  import opened JpegStream

  function Word(c: Code, s: nat): BitString {
    if s < |c| then c[s] else []
  }

  predicate ShortWords(c: Code) {
    forall s :: 0 <= s < |c| ==> |c[s]| <= 16
  }

  lemma WordShort(c: Code, s: nat)
    requires ShortWords(c)
    ensures |Word(c, s)| <= 16
  {
  }

  lemma SizeFits(v: int)
    requires Abs(v) < 65536
    ensures Size(Abs(v)) <= 16
  {
    Pow2Values();
    SizeAtMost(Abs(v), 16);
  }

  // ----- what a block becomes (ITU-T T.81, sections F.1.2.1 and F.1.2.2)

  function DcBits(dc: Code, diff: int): BitString {
    if diff == 0 then Word(dc, 0) else Word(dc, Size(Abs(diff))) + Msb(Additional(diff), Size(Abs(diff)))
  }

  /** Markers for sixteen zeros each. */
  function Markers(ac: Code, n: nat): BitString {
    if n == 0 then [] else Markers(ac, n - 1) + Word(ac, 0xf0)
  }

  /** A nonzero coefficient after `run` zeros. */
  function AfterRun(ac: Code, run: nat, v: int): BitString {
    Markers(ac, run / 16) + (Word(ac, run % 16 * 16 + Size(Abs(v))) + Msb(Additional(v), Size(Abs(v))))
  }

  /** From number `k` on, magnitudes below `bound`. */
  predicate Within(s: seq<int>, k: nat, bound: nat) {
    forall i :: k <= i < |s| ==> Abs(s[i]) < bound
  }

  predicate ZeroFrom(du: seq<int>, k: nat) {
    forall i :: k <= i < |du| ==> du[i] == 0
  }

  /** Coefficients from number `k` on, when `run` zeros stand before it; trailing zeros are an end marker. */
  function AcBits(ac: Code, du: seq<int>, k: nat, run: nat): BitString
    requires k <= |du|
    decreases |du| - k
  {
    if ZeroFrom(du, k) then (if run == 0 && k == |du| then [] else Word(ac, 0))
    else if du[k] == 0 then AcBits(ac, du, k + 1, run + 1)
    else AfterRun(ac, run, du[k]) + AcBits(ac, du, k + 1, 0)
  }

  /** The matrix in scan order. */
  function Scanned(q: seq<int>): (du: seq<int>)
    requires |q| == 64
    ensures |du| == 64
  {
    seq(64, k requires 0 <= k < 64 => q[Dezigzag(k)])
  }

  lemma ScannedWithin(q: seq<int>, bound: nat)
    requires |q| == 64 && Within(q, 1, bound)
    ensures Within(Scanned(q), 1, bound)
  {
    assert Zigzag(0) == 0;
    hide Zigzag, Dezigzag;
    forall k | 1 <= k < 64 ensures Abs(Scanned(q)[k]) < bound {
      ScanInverse(k);
    }
  }

  lemma ScannedAt(q: seq<int>, z: nat)
    requires |q| == 64 && z < 64
    ensures Scanned(q)[Zigzag(z)] == q[z]
  {
    ScanInverse(z);
  }

  // ----- the writer

  /** Bytes written, and up to seven bits that wait at the top of a buffer of 24. */
  class BitWriter {
    var out: seq<byte>
    var bitBuf: nat
    var bitCnt: nat

    /** The bytes without their stuffing. */
    ghost var raw: seq<byte>

    ghost predicate Sound()
      reads this
    {
      && out == Stuffed(raw) && bitBuf < Pow2(24)
      && bitCnt < 24 && ZeroTail(Msb(bitBuf, 24), bitCnt)
    }

    ghost predicate Valid()
      reads this
    {
      Sound() && bitCnt < 8
    }

    /** All bits written so far. */
    ghost function Written(): BitString
      requires Sound()
      reads this
    {
      ByteBits(raw) + Msb(bitBuf, 24)[..bitCnt]
    }

    constructor ()
      ensures Valid() && Written() == []
    {
      out, bitBuf, bitCnt, raw := [], 0, 0, [];
      new;
      EmptyBuffer(24);
    }

    method WriteBits(value: nat, n: nat)
      requires Valid() && n <= 16 && value < Pow2(n)
      modifies this
      ensures Valid() && Written() == old(Written()) + Msb(value, n)
    {
      hide Stuffed, ByteBits, Msb, Or, Shl, Pow2;
      BufferGrown(bitBuf, 24, bitCnt, value, n);
      Assoc(ByteBits(raw), Msb(bitBuf, 24)[..bitCnt], Msb(value, n));
      bitCnt := bitCnt + n;
      bitBuf := Or(bitBuf, Shl(value, 24 - bitCnt));
      while bitCnt >= 8
        invariant Sound() && Written() == old(Written()) + Msb(value, n)
      {
        PutByte();
      }
    }

    /** The top byte of the buffer, and a zero after 0xff. Bits of the buffer above its 24 are never looked at. */
    method PutByte()
      requires Sound() && bitCnt >= 8
      modifies this
      ensures Sound() && Written() == old(Written()) && bitCnt == old(bitCnt) - 8
    {
      hide Msb, Shl, Low, Shr, ByteBits, Stuffed, Pow2, ZeroTail;
      var c := Low(Shr(bitBuf, 16), 8);
      TopByte(bitBuf, bitCnt);
      StuffedMore(raw, c);
      ByteBitsAppend(raw, [c]);
      BitsOfByte(c);
      out := out + [c];
      if c == 255 {
        out := out + [0];
      }
      TakeSplit(Msb(bitBuf, 24), 8, bitCnt);
      Assoc(ByteBits(raw), Msb(c, 8), Msb(bitBuf, 24)[8..bitCnt]);
      raw := raw + [c];
      bitBuf := Low(Shl(bitBuf, 8), 24);
      bitCnt := bitCnt - 8;
    }

    method WriteWord(c: Code, s: nat)
      requires Valid() && |Word(c, s)| <= 16
      modifies this
      ensures Valid() && Written() == old(Written()) + Word(c, s)
    {
      NumBound(Word(c, s));
      MsbNum(Word(c, s));
      WriteBits(Num(Word(c, s)), |Word(c, s)|);
    }
  }

  lemma TakeSplit<T>(b: seq<T>, m: nat, n: nat)
    requires m <= n <= |b|
    ensures b[..n] == b[..m] + b[m..n]
  {
  }

  lemma BitsOfByte(b: byte)
    ensures ByteBits([b]) == Msb(b, 8)
  {
  }

  /** The top byte of a buffer of 24 bits, and what remains. */
  lemma TopByte(v: nat, used: nat)
    requires v < Pow2(24) && 8 <= used <= 24 && ZeroTail(Msb(v, 24), used)
    ensures var c := Low(Shr(v, 16), 8);
            c < 256 && Msb(c, 8) == Msb(v, 24)[..8]
    ensures var next := Low(Shl(v, 8), 24);
            next < Pow2(24) && Msb(next, 24)[..used - 8] == Msb(v, 24)[8..used] && ZeroTail(Msb(next, 24), used - 8)
  {
    BufferShifted(v, 24, 8);
    MsbLow(Shr(v, 16), 8);
    LowAndRest(Shr(v, 16), 8);
    LowAndRest(Shl(v, 8), 24);
    Pow2Values();
  }

  lemma StuffedMore(raw: seq<byte>, c: byte)
    ensures Stuffed(raw + [c]) == Stuffed(raw) + StuffedByte(c)
  {
    assert (raw + [c])[..|raw|] == raw;
  }

  /** The quantised matrix in scan order, filled place by place. */
  method Scan(q: seq<int>) returns (du: array<int>)
    requires |q| == 64
    ensures fresh(du) && du[..] == Scanned(q)
  {
    hide Zigzag, Dezigzag;
    du := new int[64](_ => 0);
    for z := 0 to 64
      invariant forall y :: 0 <= y < z ==> du[Zigzag(y)] == q[y]
    {
      ghost var was := du[..];
      du[Zigzag(z)] := q[z];
      forall y | 0 <= y < z ensures du[Zigzag(y)] == q[y] {
        ScanInverse(y);
        ScanInverse(z);
        assert was[Zigzag(y)] == q[y];
      }
    }
    forall k | 0 <= k < 64 ensures du[k] == Scanned(q)[k] {
      ScanInverse(k);
      assert du[Zigzag(Dezigzag(k))] == q[Dezigzag(k)];
    }
  }

  method WriteDifference(w: BitWriter, dc: Code, diff: int)
    requires w.Valid() && ShortWords(dc) && Abs(diff) < 65536
    modifies w
    ensures w.Valid() && w.Written() == old(w.Written()) + DcBits(dc, diff)
  {
    hide Word, Msb, Size, Additional, ShortWords;
    if diff == 0 {
      WordShort(dc, 0);
      w.WriteWord(dc, 0);
    } else {
      var bits, n := CalcBits(diff);
      SizeFits(diff);
      WordShort(dc, n);
      w.WriteWord(dc, n);
      w.WriteBits(bits, n);
      Assoc(old(w.Written()), Word(dc, n), Msb(bits, n));
    }
  }

  method WriteAfterRun(w: BitWriter, ac: Code, run: nat, v: int)
    requires w.Valid() && ShortWords(ac) && Abs(v) < 65536
    modifies w
    ensures w.Valid() && w.Written() == old(w.Written()) + AfterRun(ac, run, v)
  {
    hide Word, Msb, Size, Additional, ShortWords;
    WordShort(ac, 0xf0);
    var zeros := run;
    if zeros >= 16 {
      for marker := 0 to zeros / 16
        invariant w.Valid() && w.Written() == old(w.Written()) + Markers(ac, marker)
      {
        w.WriteWord(ac, 0xf0);
        Assoc(old(w.Written()), Markers(ac, marker), Word(ac, 0xf0));
      }
      zeros := zeros % 16;
    }
    assert w.Written() == old(w.Written()) + Markers(ac, run / 16);
    var bits, n := CalcBits(v);
    SizeFits(v);
    WordShort(ac, zeros * 16 + n);
    w.WriteWord(ac, zeros * 16 + n);
    w.WriteBits(bits, n);
    Assoc(old(w.Written()) + Markers(ac, run / 16), Word(ac, zeros * 16 + n), Msb(bits, n));
    Assoc(old(w.Written()), Markers(ac, run / 16), Word(ac, zeros * 16 + n) + Msb(bits, n));
  }

  /** The number of the last nonzero coefficient, or 0. */
  method LastNonzero(du: array<int>) returns (last: nat)
    requires du.Length == 64
    ensures last < 64 && ZeroFrom(du[..], last + 1) && (last > 0 ==> du[last] != 0)
  {
    last := 63;
    while last > 0 && du[last] == 0
      invariant last < 64 && ZeroFrom(du[..], last + 1)
    {
      last := last - 1;
    }
  }

  /** When only zeros are left, an end marker is, if anything. */
  lemma AcEnd(ac: Code, du: seq<int>, k: nat)
    requires |du| == 64 && k <= 64 && ZeroFrom(du, k)
    ensures AcBits(ac, du, k, 0) == if k == 64 then [] else Word(ac, 0)
    ensures k == 1 ==> AcBits(ac, du, 1, 0) == Word(ac, 0)
  {
  }

  lemma AcNext(ac: Code, du: seq<int>, k: nat, run: nat)
    requires k < |du| && du[k] != 0
    ensures AcBits(ac, du, k, run) == AfterRun(ac, run, du[k]) + AcBits(ac, du, k + 1, 0)
  {
  }

  // ----- blocks coded by hand

  /** A difference of -3: its magnitude has two bits, and the bits of a negative value are inverted. */
  lemma KnownDifference(dc: Code)
    ensures DcBits(dc, -3) == Word(dc, 2) + [false, false]
  {
    BitsOfTwo();
  }

  lemma BitsOfTwo()
    ensures Size(2) == 2 && Size(3) == 2 && Size(1) == 1 && Pow2(2) == 4
    ensures Msb(0, 2) == [false, false] && Msb(1, 2) == [false, true] && Msb(1, 1) == [true]
  {
  }

  /** The coefficients 1, 0 and -2, then none: a run of no zeros and a size of one bit, a run of one and a size of two,
      and the end marker. */
  lemma KnownBlock(ac: Code, du: seq<int>)
    requires |du| == 64 && du[1] == 1 && du[2] == 0 && du[3] == -2 && ZeroFrom(du, 4)
    ensures AcBits(ac, du, 1, 0)
         == (Word(ac, 0x01) + [true]) + ((Word(ac, 0x12) + [false, true]) + Word(ac, 0x00))
  {
    hide AfterRun, Word, AcBits;
    AcNext(ac, du, 1, 0);
    AcSkip(ac, du, 2, 0);
    AcNext(ac, du, 3, 1);
    AcEnd(ac, du, 4);
    KnownRuns(ac);
  }

  lemma KnownRuns(ac: Code)
    ensures AfterRun(ac, 0, 1) == Word(ac, 0x01) + [true] && AfterRun(ac, 1, -2) == Word(ac, 0x12) + [false, true]
    ensures AfterRun(ac, 17, 1) == Word(ac, 0xf0) + (Word(ac, 0x11) + [true])
  {
    hide Word;
    BitsOfTwo();
    assert Markers(ac, 0) == [] && Markers(ac, 1) == Markers(ac, 0) + Word(ac, 0xf0);
  }

  lemma AcSkip(ac: Code, du: seq<int>, k: nat, run: nat)
    requires k < |du| && du[k] == 0 && !ZeroFrom(du, k)
    ensures AcBits(ac, du, k, run) == AcBits(ac, du, k + 1, run + 1)
  {
  }

  /** Seventeen zeros before a coefficient, `n` of them still to come, at any place: a marker for sixteen, and a run of
      one. */
  lemma {:induction false} KnownRun(ac: Code, du: seq<int>, k: nat, n: nat)
    requires |du| == 64 && k + n < 64 && n <= 17 && du[k + n] == 1 && forall i :: k <= i < k + n ==> du[i] == 0
    ensures AcBits(ac, du, k, 17 - n) == (Word(ac, 0xf0) + (Word(ac, 0x11) + [true])) + AcBits(ac, du, k + n + 1, 0)
    decreases n
  {
    hide AfterRun, Word, AcBits;
    if n == 0 {
      AcNext(ac, du, k, 17);
      KnownRuns(ac);
    } else {
      AcSkip(ac, du, k, 17 - n);
      KnownRun(ac, du, k + 1, n - 1);
    }
  }

  /** Where the run of zeros from `start` ends. */
  method RunEnd(ghost ac: Code, du: array<int>, start: nat, last: nat) returns (i: nat)
    requires du.Length == 64 && 1 <= start <= last < 64 && du[last] != 0
    ensures start <= i <= last && du[i] != 0 && AcBits(ac, du[..], start, 0) == AcBits(ac, du[..], i, i - start)
  {
    hide AfterRun, Word;
    i := start;
    while du[i] == 0 && i <= last
      invariant start <= i <= last && AcBits(ac, du[..], start, 0) == AcBits(ac, du[..], i, i - start)
    {
      i := i + 1;
    }
  }

  /** Coefficients 1 to 63: runs up to the last nonzero one, then an end marker unless it is number 63. */
  method WriteAc(w: BitWriter, ac: Code, du: array<int>)
    requires w.Valid() && ShortWords(ac) && du.Length == 64 && Within(du[..], 1, 65536)
    modifies w
    ensures w.Valid() && w.Written() == old(w.Written()) + AcBits(ac, du[..], 1, 0)
  {
    hide AfterRun, Word, ShortWords, AcBits, ZeroFrom;
    WordShort(ac, 0);
    ghost var s := du[..];
    var last := LastNonzero(du);
    AcEnd(ac, s, last + 1);
    if last == 0 {
      w.WriteWord(ac, 0);
      return;
    }
    var i := 1;
    while i <= last
      invariant w.Valid() && 1 <= i <= last + 1
      invariant old(w.Written()) + AcBits(ac, s, 1, 0) == w.Written() + AcBits(ac, s, i, 0)
    {
      var start := i;
      i := RunEnd(ac, du, i, last);
      ghost var before := w.Written();
      AcNext(ac, s, i, i - start);
      WriteAfterRun(w, ac, i - start, du[i]);
      Assoc(before, AfterRun(ac, i - start, s[i]), AcBits(ac, s, i + 1, 0));
      i := i + 1;
    }
    if last != 63 {
      w.WriteWord(ac, 0);
    }
  }

  /** One block; the first coefficient is the next block's prediction. */
  method ProcessDU(w: BitWriter, q: seq<int>, pred: int, dc: Code, ac: Code) returns (first: int)
    requires w.Valid() && ShortWords(dc) && ShortWords(ac)
    requires |q| == 64 && Abs(q[0] - pred) < 65536 && Within(q, 1, 65536)
    modifies w
    ensures w.Valid() && w.Written() == old(w.Written()) + DcBits(dc, q[0] - pred) + AcBits(ac, Scanned(q), 1, 0)
    ensures first == q[0]
  {
    hide DcBits, AcBits;
    var du := Scan(q);
    assert du[0] == q[0] by {
      assert Dezigzag(0) == 0;
      assert du[..][0] == q[0];
    }
    WriteDifference(w, dc, du[0] - pred);
    ScannedWithin(q, 65536);
    WriteAc(w, ac, du);
    first := du[0];
  }
}
