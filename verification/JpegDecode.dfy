/** Decoding the 64 coefficients of a block, with a table for short codes and small values. */
module JpegDecode {
  import opened Words
  import opened Wrappers
  import opened Bits
  import opened JpegCode
  import opened JpegStream
  import opened JpegHuffman

  // ----- the table

  /** The entry for the next nine bits: value, run and length where the word of a symbol and its value fit in them,
      else 0. */
  function FastEntry(ac: Book, i: nat): (r: int) {
    match Find(ac, Msb(i, FAST_BITS), 0)
    case None => 0
    case Some(k) => PackedEntry(i, ac[k].symbol / 16, ac[k].symbol % 16, |ac[k].word|)
  }

  function PackedEntry(i: nat, run: nat, magbits: nat, len: nat): int {
    if magbits != 0 && len + magbits <= FAST_BITS then
      var k := Shr(Low(Shl(i, len), FAST_BITS), FAST_BITS - magbits);
      var v := if k < Pow2(magbits - 1) then k - Pow2(magbits) + 1 else k;
      if -128 <= v <= 127 then v * 256 + run * 16 + len + magbits else 0
    else 0
  }

  method BuildFastAc(h: HuffmanTable) returns (table: array<int>)
    requires h.Valid()
    ensures fresh(table) && HoldsEntries(table, h.Book())
  {
    hide FastEntry, TablesHold;
    table := new int[512];
    for i := 0 to 512
      invariant h.Valid() && forall j :: 0 <= j < i ==> table[j] == FastEntry(h.Book(), j)
    {
      var entry := BuildEntry(h, i);
      table[i] := entry;
    }
  }

  method BuildEntry(h: HuffmanTable, i: nat) returns (entry: int)
    requires h.Valid() && i < 512
    ensures entry == FastEntry(h.Book(), i)
  {
    hide Find, Msb, Low, Shl, Shr, Pow2, FastHolds, EndsHold, Start, WordOf, Sizes;
    SizesOrdered(h.words);
    FastIsFind(Sizes(h.words, 16), h.values[..], h.fast[..], i);
    var fast := h.fast[i];
    entry := 0;
    if fast < NOT_FAST {
      assert h.size[..Upto(h.words, 16)][fast] == h.size[fast];
      var rs: nat := h.values[fast];
      var run := rs / 16 % 16;
      var magbits := rs % 16;
      var len := h.size[fast];
      if magbits != 0 && len + magbits <= FAST_BITS {
        var k: int := Shr(Low(Shl(i, len), FAST_BITS), FAST_BITS - magbits);
        var m := Pow2(magbits - 1);
        if k < m {
          k := k - Pow2(magbits) + 1;
        }
        if -128 <= k <= 127 {
          entry := k * 256 + run * 16 + (len + magbits);
        }
      }
    }
  }

  /** Shifting the nine bits, masking and shifting back leaves those between the word and the rest. */
  lemma EntryValue(w: BitString, len: nat, mag: nat)
    requires |w| == FAST_BITS && 0 < mag && len + mag <= FAST_BITS
    ensures Shr(Low(Shl(Num(w), len), FAST_BITS), FAST_BITS - mag) == Num(w[len..len + mag])
    ensures w[len] <==> Num(w[len..len + mag]) >= Pow2(mag - 1)
  {
    hide Num, Msb, Low, Shr, Shl, Pow2;
    var shifted := Low(Shl(Num(w), len), FAST_BITS);
    MsbNum(w);
    BufferShifted(Num(w), FAST_BITS, len);
    LowAndRest(Shl(Num(w), len), FAST_BITS);
    TopBits(shifted, FAST_BITS, mag);
    assert (w[len..] + Zeros(len))[..mag] == w[len..len + mag];
    FirstBit(w[len..len + mag]);
  }

  lemma WindowMiddle(bs: BitString, len: nat, mag: nat)
    requires len + mag <= FAST_BITS
    ensures Window(bs, FAST_BITS)[len..len + mag] == Window(Dropped(bs, len), mag)
    ensures Dropped(Dropped(bs, len), mag) == Dropped(bs, len + mag)
  {
  }

  /** A symbol whose word and value fit in nine bits, with a value of one byte. */
  predicate IsShort(ac: Book, bs: BitString) {
    match HuffDecode(ac, bs)
    case None => false
    case Some(Entry(word, rs)) =>
      rs % 16 != 0 && |word| + rs % 16 <= FAST_BITS && -128 <= Extended(Dropped(bs, |word|), rs % 16) <= 127
  }

  /** Nine bits tell the words that have no more. */
  lemma FastFind(ac: Book, bs: BitString)
    requires IsBook(ac)
    ensures match Find(ac, Window(bs, FAST_BITS), 0)
            case None => HuffDecode(ac, bs).None? || |HuffDecode(ac, bs).value.word| > FAST_BITS
            case Some(k) => HuffDecode(ac, bs) == Some(ac[k]) && |ac[k].word| <= FAST_BITS
  {
    var w := Window(bs, FAST_BITS);
    WindowSplit(bs, FAST_BITS, 16);
    assert w <= Window(bs, 16);
    var fast, slow := Find(ac, w, 0), HuffDecode(ac, bs);
    if fast.Some? {
      HuffDecodeIs(ac, bs, ac[fast.value]);
    } else if slow.Some? && |slow.value.word| <= FAST_BITS {
      PrefixesComparable(slow.value.word, w, Window(bs, 16));
    }
  }

  lemma Unpacked(v: int, run: nat, len: nat)
    requires run < 16 && 0 < len < 16
    ensures var r := v * 256 + run * 16 + len; r != 0 && r / 16 % 16 == run && r % 16 == len && r / 256 == v
  {
    var high := v * 16 + run;
    var r := high * 16 + len;
    assert r / 16 == high && r % 16 == len;
    assert high % 16 == run;
    assert r / 256 == v;
  }

  lemma EntryOfSymbol(bs: BitString, run: nat, mag: nat, len: nat)
    requires run < 16 && 0 < mag && len + mag <= FAST_BITS
    ensures var v := Extended(Dropped(bs, len), mag);
            PackedEntry(Num(Window(bs, FAST_BITS)), run, mag, len)
            == if -128 <= v <= 127 then v * 256 + run * 16 + (len + mag) else 0
  {
    hide Num, Low, Shr, Shl, Window, Dropped;
    EntryValue(Window(bs, FAST_BITS), len, mag);
    WindowMiddle(bs, len, mag);
  }

  /** An entry is nonzero exactly for short symbols, and then says what the ordinary path would find. */
  lemma FastIffShort(ac: Book, bs: BitString)
    requires IsBook(ac)
    ensures FastEntry(ac, Num(Window(bs, FAST_BITS))) != 0 <==> IsShort(ac, bs)
    ensures IsShort(ac, bs) ==>
      var Entry(word, rs) := HuffDecode(ac, bs).value;
      var r := FastEntry(ac, Num(Window(bs, FAST_BITS)));
      && r / 16 % 16 == rs / 16 && r % 16 == |word| + rs % 16
      && r / 256 == Extended(Dropped(bs, |word|), rs % 16)
      && Dropped(bs, r % 16) == Dropped(Dropped(bs, |word|), rs % 16)
  {
    hide Num, Msb, Find, HuffDecode, PackedEntry, Extended, Dropped;
    MsbNum(Window(bs, FAST_BITS));
    FastFind(ac, bs);
    match HuffDecode(ac, bs) {
      case None =>
      case Some(Entry(word, rs)) =>
        var len, mag := |word|, rs % 16;
        if mag != 0 && len + mag <= FAST_BITS {
          EntryOfSymbol(bs, rs / 16, mag, len);
          Unpacked(Extended(Dropped(bs, len), mag), rs / 16, len + mag);
          WindowMiddle(bs, len, mag);
        } else {
          LongSymbol(Num(Window(bs, FAST_BITS)), rs / 16, mag, len);
        }
    }
  }

  lemma LongSymbol(i: nat, run: nat, mag: nat, len: nat)
    requires mag == 0 || len + mag > FAST_BITS
    ensures PackedEntry(i, run, mag, len) == 0
  {
  }

  // ----- blocks

  type Matrix = m: seq<int> | |m| == 64 witness seq(64, _ => 0)

  datatype Done = Done(data: Matrix, rest: BitString)

  /** Coefficients from number `k` on, by symbols and values alone. */
  function AcRead(ac: Book, dequant: seq<nat>, k: nat, data: Matrix, bs: BitString): Option<Done>
    requires |dequant| == 64
    decreases if k < 64 then 64 - k else 0
  {
    if k >= 64 then Some(Done(data, bs)) else
      match HuffDecode(ac, bs)
      case None => None
      case Some(Entry(word, rs)) =>
        var after := Dropped(bs, |word|);
        var s, r := rs % 16, rs / 16;
        if s == 0 then
          if rs != 0xf0 then Some(Done(data, after)) else AcRead(ac, dequant, k + 16, data, after)
        else
          var zig := Dezigzag(k + r);
          AcRead(ac, dequant, k + r + 1, data[zig := Short(Extended(after, s) * dequant[zig])], Dropped(after, s))
  }

  /** The difference of the first coefficient from the last block's. */
  function DcRead(dc: Book, bs: BitString): Option<(int, BitString)> {
    match HuffDecode(dc, bs)
    case None => None
    case Some(Entry(word, t)) =>
      var after := Dropped(bs, |word|);
      Some(if t == 0 then (0, after) else (Extended(after, t), Dropped(after, t)))
  }

  function DcOnly(v: int): (m: Matrix)
    ensures forall z :: 0 <= z < 64 ==> m[z] == if z == 0 then v else 0
  {
    seq(64, z => if z == 0 then v else 0)
  }

  /** The matrix and the prediction a block leaves. */
  function BlockRead(dc: Book, ac: Book, dequant: seq<nat>, pred: int, bs: BitString): Option<(Done, int)>
    requires |dequant| == 64
  {
    match DcRead(dc, bs)
    case None => None
    case Some((diff, rest)) =>
      match AcRead(ac, dequant, 1, DcOnly(Short((pred + diff) * dequant[0])), rest)
      case None => None
      case Some(done) => Some((done, pred + diff))
  }

  /** Differences have at most fifteen bits: no more can be read at once. */
  ghost predicate SmallSymbols(dc: Book) {
    forall k :: 0 <= k < |dc| ==> dc[k].symbol < 16
  }

  /** What a search in the tables says of the bits to be read. */
  lemma NextFound(h: HuffmanTable, bs: BitString, k: int, n: nat)
    requires h.Valid() && Num(Window(bs, 16)) < 0x1_0000
    requires match Searched(h.fast[..], h.size[..], h.maxcode[..], h.delta[..], Num(Window(bs, 16)))
             case None => n == 17
             case Some((place, length)) => k == place && n == length
    ensures n <= 17
    ensures n == 17 ==> HuffDecode(h.Book(), bs) == None
    ensures n < 17 ==> 0 <= k < 256 && HuffDecode(h.Book(), bs).Some?
    ensures n < 17 ==>
      n == |HuffDecode(h.Book(), bs).value.word| && h.values[k] == HuffDecode(h.Book(), bs).value.symbol
  {
    hide Num, Window, HuffDecode, Start, Sizes, WordOf, Slow, FastHolds, EndsHold, Begins;
    var sizes := Sizes(h.words, 16);
    SizesOrdered(h.words);
    SearchFinds(h.words, h.fast[..], h.size[..], h.maxcode[..], h.delta[..], Num(Window(bs, 16)));
    SearchDecodes(sizes, h.values[..], bs,
      Searched(h.fast[..], h.size[..], h.maxcode[..], h.delta[..], Num(Window(bs, 16))));
  }

  method ClearBut(data: array<int>, first: int)
    requires data.Length == 64
    modifies data
    ensures data[..] == DcOnly(first)
  {
    Clear(data);
    data[0] := first;
  }

  method Clear(data: array<int>)
    modifies data
    ensures forall z :: 0 <= z < data.Length ==> data[z] == 0
  {
    for z := 0 to data.Length
      invariant forall y :: 0 <= y < z ==> data[y] == 0
    {
      data[z] := 0;
    }
  }

  lemma AcUnfold(ac: Book, dequant: seq<nat>, k: nat, data: Matrix, bs: BitString)
    requires |dequant| == 64 && k < 64
    ensures HuffDecode(ac, bs) == None ==> AcRead(ac, dequant, k, data, bs) == None
    ensures HuffDecode(ac, bs).Some? ==>
      var Entry(word, rs) := HuffDecode(ac, bs).value;
      var after := Dropped(bs, |word|);
      AcRead(ac, dequant, k, data, bs) ==
        if rs == 0xf0 then AcRead(ac, dequant, k + 16, data, after)
        else if rs % 16 == 0 then Some(Done(data, after))
        else
          var zig := Dezigzag(k + rs / 16);
          AcRead(ac, dequant, k + rs / 16 + 1, data[zig := Short(Extended(after, rs % 16) * dequant[zig])],
              Dropped(after, rs % 16))
  {
    hide Find, HuffDecode, Extended, Dropped, Window, Short;
  }

  /** One coefficient by the table. */
  lemma AcShort(ac: Book, dequant: seq<nat>, k: nat, data: Matrix, bs: BitString)
    requires IsBook(ac) && |dequant| == 64 && k < 64 && FastEntry(ac, Num(Window(bs, FAST_BITS))) != 0
    ensures var r := FastEntry(ac, Num(Window(bs, FAST_BITS)));
            var zig := Dezigzag(k + r / 16 % 16);
            AcRead(ac, dequant, k, data, bs)
            == AcRead(ac, dequant, k + r / 16 % 16 + 1, data[zig := Short(r / 256 * dequant[zig])], Dropped(bs, r % 16))
  {
    hide AcRead, FastEntry, Num, Find, HuffDecode, Extended, Dropped, Window, IsBook, Short, Dezigzag, Msb;
    FastIffShort(ac, bs);
    AcUnfold(ac, dequant, k, data, bs);
  }

  // ----- the decoder

  ghost predicate HoldsEntries(fac: array<int>, ac: Book)
    reads fac
  {
    fac.Length == 512 && forall i :: 0 <= i < 512 ==> fac[i] == FastEntry(ac, i)
  }

  /** The entropy-coded data, its next 32 bits in a buffer, and the predictions. */
  class Decoder {
    const input: seq<byte>
    var pos: nat
    var codeBuffer: nat
    var codeBits: int
    var marker: byte
    var nomore: bool
    var dcPred: seq<int>

    /** How many bits of the buffer come from the data, and whether no more will. */
    ghost var held: nat
    ghost var ended: bool

    ghost predicate Valid()
      reads this
    {
      && codeBuffer < Pow2(32) && held <= 32 && ZeroTail(Msb(codeBuffer, 32), held)
      && (!ended ==> codeBits == held && !nomore)
      && (ended && !nomore ==> pos >= |input|)
      && |dcPred| == 4
    }

    /** The bits still to be read: those in the buffer, then those of the bytes up to the next marker. */
    ghost function Code(): BitString
      requires Valid()
      reads this
    {
      Msb(codeBuffer, 32)[..held] + if ended then [] else ByteBits(Unstuffed(input, pos))
    }

    /** Enough bits for a look at `n` of them, or no more to come. */
    ghost predicate Holds(n: nat)
      reads this
    {
      codeBits >= n || ended
    }

    constructor (bytes: seq<byte>)
      ensures Valid() && Code() == ByteBits(Unstuffed(bytes, 0)) && dcPred == [0, 0, 0, 0]
    {
      input := bytes;
      pos, codeBuffer, codeBits, marker, nomore, dcPred := 0, 0, 0, 255, false, [0, 0, 0, 0];
      held, ended := 0, false;
      new;
      EmptyBuffer(32);
    }

    /** One byte into the buffer, past fill bytes and a stuffed zero; or a marker, after which zeros follow. */
    method GrowByte() returns (stop: bool)
      requires Valid() && codeBits <= 24
      modifies this
      ensures Valid() && Code() == old(Code()) && dcPred == old(dcPred)
      ensures stop ==> ended && !old(ended) && codeBits == old(codeBits)
      ensures !stop ==> codeBits == old(codeBits) + 8
      ensures old(ended) ==> ended
    {
      hide Unstuffed, ByteBits, Msb, Or, Shl, ZeroTail, PastFill, Pow2;
      var b: byte := 0;
      stop := false;
      NoBits();
      SmallPowers();
      if !nomore {
        ghost var start := pos;
        b := NextByte();
        if nomore {
          ended := true;
          stop := true;
          return;
        }
        if start < |input| {
          BitsOfByte(b, Unstuffed(input, pos));
          Assoc(Msb(codeBuffer, 32)[..held], Msb(b, 8), ByteBits(Unstuffed(input, pos)));
          BufferGrown(codeBuffer, 32, held, b, 8);
          held := held + 8;
        } else {
          ended := true;
        }
      }
      OrNothing(codeBuffer, 24 - codeBits);
      codeBuffer := Or(codeBuffer, Shl(b, 24 - codeBits));
      codeBits := codeBits + 8;
    }

    /** The next byte of the data, or the marker found in its place. */
    method NextByte() returns (b: byte)
      requires !nomore
      modifies `pos, `marker, `nomore
      ensures nomore ==> old(pos) < |input| && Unstuffed(input, old(pos)) == []
      ensures !nomore && old(pos) < |input| ==> Unstuffed(input, old(pos)) == [b] + Unstuffed(input, pos)
      ensures !nomore && old(pos) >= |input| ==> b == 0 && pos > old(pos) && Unstuffed(input, old(pos)) == []
    {
      UnstuffedStep(input, pos);
      hide Unstuffed;
      b := ByteAt(input, pos);
      pos := pos + 1;
      if b == 255 {
        ghost var q := PastFill(input, pos);
        var c := ByteAt(input, pos);
        pos := pos + 1;
        while c == 255
          invariant pos > 0 && c == ByteAt(input, pos - 1) && PastFill(input, pos - 1) == q && !nomore
          decreases |input| + 1 - pos
        {
          c := ByteAt(input, pos);
          pos := pos + 1;
        }
        if c != 0 {
          marker := c;
          nomore := true;
        }
      }
    }

    /** Bytes into the buffer until more than 24 bits are there, or a marker is found. */
    method GrowBuffer()
      requires Valid() && codeBits <= 24
      modifies this
      ensures Valid() && Code() == old(Code()) && dcPred == old(dcPred)
      ensures codeBits > 24 || (ended && !old(ended))
      ensures old(ended) ==> ended
      ensures codeBits >= old(codeBits)
    {
      hide Code, Valid;
      var stop := GrowByte();
      while codeBits <= 24 && !stop
        invariant Valid() && Code() == old(Code()) && dcPred == old(dcPred) && codeBits >= old(codeBits)
        invariant (stop ==> ended && !old(ended)) && (old(ended) ==> ended)
        decreases if stop then 0 else 33 - codeBits
      {
        stop := GrowByte();
      }
    }

    /** The top of the buffer is the next bits of the data, zeros past their end. */
    lemma Peek(n: nat)
      requires Valid() && Holds(n) && n <= 32
      ensures Msb(codeBuffer, 32)[..n] == Window(Code(), n) && Shr(codeBuffer, 32 - n) == Num(Window(Code(), n))
    {
      hide Shr, Msb, Num, Unstuffed, ByteBits;
      TopBits(codeBuffer, 32, n);
      assert Msb(codeBuffer, 32)[..n] == Window(Code(), n);
    }

    /** `n` bits shifted out of the buffer. */
    method Skip(n: nat)
      requires Valid() && Holds(n) && n <= 32
      modifies this
      ensures Valid() && Code() == Dropped(old(Code()), n) && dcPred == old(dcPred) && nomore == old(nomore)
      ensures ended == old(ended)
    {
      SetBuffer(Low(Shl(codeBuffer, n), 32), n);
    }

    method SetBuffer(buffer: nat, n: nat)
      requires Valid() && Holds(n) && n <= 32 && buffer == Low(Shl(codeBuffer, n), 32)
      modifies this
      ensures Valid() && Code() == Dropped(old(Code()), n) && dcPred == old(dcPred) && nomore == old(nomore)
      ensures ended == old(ended)
    {
      hide Msb, Unstuffed, ByteBits, Low, Shl, Shr, ZeroTail, Dropped, Pow2, Zeros;
      AfterShift(codeBuffer, n);
      ShiftKeeps(Msb(codeBuffer, 32), held, n, if ended then [] else ByteBits(Unstuffed(input, pos)));
      codeBuffer := buffer;
      codeBits := codeBits - n;
      held := if held >= n then held - n else 0;
    }

    /** -1 stands for a word that is in no table. */
    method NextSymbol(h: HuffmanTable) returns (t: int)
      requires Valid() && Holds(16) && h.Valid() && this !in h.Repr
      modifies this
      ensures match HuffDecode(h.Book(), old(Code()))
              case None => t == -1
              case Some(e) =>
                && t == e.symbol && Valid() && dcPred == old(dcPred)
                && Code() == Dropped(old(Code()), |e.word|)
    {
      hide Code, Valid, Find, TablesHold, HuffDecode, Window;
      if codeBits < 16 {
        GrowBuffer();
      }
      Peek(16);
      WindowNumber(Code());
      var k, n := h.Search(Shr(codeBuffer, 16));
      NextFound(h, Code(), k, n);
      if n == 17 {
        codeBits := codeBits - 16;
        return -1;
      }
      if n > codeBits {
        return -1;
      }
      Skip(n);
      t := h.values[k];
    }

    /** A value of `n` bits, by a rotation of the buffer. */
    method ExtendReceive(n: nat) returns (v: int)
      requires Valid() && 0 < n < 16
      modifies this
      ensures v == Extended(old(Code()), n) && Valid() && Code() == Dropped(old(Code()), n) && dcPred == old(dcPred)
    {
      hide Code, Valid, Msb, Num, Low, Shl, Shr, Window;
      if codeBits < n {
        GrowBuffer();
      }
      Peek(n);
      FirstBit(Window(Code(), n));
      var negative := codeBuffer < 0x8000_0000;
      SignBit(n);
      LrotParts(codeBuffer, n);
      var k := Lrot(codeBuffer, n);
      SetBuffer(k - Low(k, n), n);
      k := Low(k, n);
      v := k + if negative then 1 - Pow2(n) else 0;
    }

    lemma SignBit(n: nat)
      requires Valid() && Holds(n) && 0 < n <= 32
      ensures codeBuffer < Pow2(32) && (codeBuffer < 0x8000_0000 <==> !Window(Code(), n)[0])
    {
      hide Shr, Num, Unstuffed, ByteBits;
      assert Window(Code(), n)[0] == Msb(codeBuffer, 32)[0] by {
        Peek(n);
      }
      TopBit(codeBuffer);
    }

    method ReadDifference(h: HuffmanTable) returns (ok: bool, diff: int)
      requires Valid() && Holds(16) && h.Valid() && this !in h.Repr && SmallSymbols(h.Book())
      modifies this
      ensures match DcRead(h.Book(), old(Code()))
              case None => !ok
              case Some((d, rest)) => ok && diff == d && Valid() && Code() == rest && dcPred == old(dcPred)
    {
      hide Code, Valid, HuffmanTable.Valid, HuffmanTable.Book;
      var t := NextSymbol(h);
      ok, diff := t >= 0, 0;
      if t > 0 {
        diff := ExtendReceive(t);
      }
    }

    /** One coefficient by its table entry. */
    method FastStep(data: array<int>, r: int, dequant: seq<nat>, k: nat, ghost ac: Book) returns (next: nat)
      requires Valid() && Holds(16) && data.Length == 64 && |dequant| == 64 && IsBook(ac) && k < 64
      requires r != 0 && r == FastEntry(ac, Num(Window(Code(), FAST_BITS)))
      modifies this, data
      ensures Valid() && dcPred == old(dcPred) && k < next
      ensures AcRead(ac, dequant, next, data[..], Code()) == AcRead(ac, dequant, k, old(data[..]), old(Code()))
    {
      hide Code, Valid, AcRead, FastEntry, Num, Window, IsBook, Short, Dropped;
      AcShort(ac, dequant, k, data[..], Code());
      next := k + r / 16 % 16;
      var s := r % 16;
      Skip(s);
      var zig := Dezigzag(next);
      next := next + 1;
      data[zig] := Short(r / 256 * dequant[zig]);
    }

    /** One symbol and its value; the block is `done` at its end marker. */
    method OrdinaryStep(data: array<int>, h: HuffmanTable, dequant: seq<nat>, k: nat)
      returns (ok: bool, done: bool, next: nat)
      requires Valid() && Holds(16) && h.Valid() && {this, data} !! h.Repr && data.Length == 64 && |dequant| == 64
      requires k < 64
      modifies this, data
      ensures !ok ==> AcRead(h.Book(), dequant, k, old(data[..]), old(Code())) == None
      ensures ok ==> Valid() && dcPred == old(dcPred)
      ensures ok && done ==>
        AcRead(h.Book(), dequant, k, old(data[..]), old(Code())) == Some(Done(data[..], Code()))
      ensures ok && !done ==> k < next
      ensures ok && !done ==>
        AcRead(h.Book(), dequant, next, data[..], Code()) == AcRead(h.Book(), dequant, k, old(data[..]), old(Code()))
    {
      hide Code, Valid, AcRead, Find, HuffDecode, Extended, Dropped, Window, Short;
      hide HuffmanTable.Valid, HuffmanTable.Book, Dezigzag, Num, Msb, Holds;
      AcUnfold(h.Book(), dequant, k, data[..], Code());
      ok, done, next := true, false, k;
      var rs := NextSymbol(h);
      if rs < 0 {
        ok := false;
        return;
      }
      var s, run := rs % 16, rs / 16;
      if s == 0 {
        if rs != 0xf0 {
          done := true;
          return;
        }
        next := k + 16;
      } else {
        next := k + run;
        var zig := Dezigzag(next);
        next := next + 1;
        var v := ExtendReceive(s);
        data[zig] := Short(v * dequant[zig]);
      }
    }

    /** One coefficient, by its table entry if it has one. */
    method AcStep(data: array<int>, h: HuffmanTable, fac: array<int>, dequant: seq<nat>, k: nat)
      returns (ok: bool, done: bool, next: nat)
      requires Valid() && h.Valid() && {this, data} !! h.Repr && data.Length == 64 && |dequant| == 64 && k < 64
      requires HoldsEntries(fac, h.Book())
      modifies this, data
      ensures !ok ==> AcRead(h.Book(), dequant, k, old(data[..]), old(Code())) == None
      ensures ok ==> Valid() && dcPred == old(dcPred)
      ensures ok && done ==>
        AcRead(h.Book(), dequant, k, old(data[..]), old(Code())) == Some(Done(data[..], Code()))
      ensures ok && !done ==> k < next
      ensures ok && !done ==>
        AcRead(h.Book(), dequant, next, data[..], Code()) == AcRead(h.Book(), dequant, k, old(data[..]), old(Code()))
    {
      hide AcRead, HoldsEntries, FastEntry, Num, Window, IsBook, Code, Valid, HuffmanTable.Valid, HuffmanTable.Book;
      if codeBits < 16 {
        GrowBuffer();
      }
      Peek(FAST_BITS);
      WindowIndex(Code());
      EntryHeld(fac, h.Book(), Shr(codeBuffer, 32 - FAST_BITS));
      var r := fac[Shr(codeBuffer, 32 - FAST_BITS)];
      if r != 0 {
        next := FastStep(data, r, dequant, k, h.Book());
        ok, done := true, false;
      } else {
        ok, done, next := OrdinaryStep(data, h, dequant, k);
      }
    }

    method DecodeAc(data: array<int>, h: HuffmanTable, fac: array<int>, dequant: seq<nat>) returns (ok: bool)
      requires Valid() && data.Length == 64 && |dequant| == 64
      requires h.Valid() && {this, data} !! h.Repr && HoldsEntries(fac, h.Book()) && data != fac
      modifies this, data
      ensures match AcRead(h.Book(), dequant, 1, old(data[..]), old(Code()))
              case None => !ok
              case Some(done) => ok && data[..] == done.data && Valid() && Code() == done.rest && dcPred == old(dcPred)
    {
      hide HoldsEntries, Code, Valid, HuffmanTable.Valid, HuffmanTable.Book;
      ghost var ac := h.Book();
      var k: nat := 1;
      var done := false;
      AcReadEnd(ac, dequant);
      hide AcRead;
      while k < 64
        invariant Valid() && dcPred == old(dcPred) && h.Valid() && h.Book() == ac && HoldsEntries(fac, ac)
        invariant AcRead(ac, dequant, k, data[..], Code()) == AcRead(ac, dequant, 1, old(data[..]), old(Code()))
        decreases if k < 64 then 64 - k else 0
      {
        ok, done, k := AcStep(data, h, fac, dequant, k);
        if !ok || done {
          return;
        }
      }
      ok := true;
    }

    /** The first coefficient of a block of component `b`, from the one of the block before; all others are cleared. */
    method ReadFirst(data: array<int>, b: nat, h: HuffmanTable, dequant: seq<nat>) returns (ok: bool)
      requires Valid() && b < 4 && data.Length == 64 && |dequant| == 64
      requires h.Valid() && {this, data} !! h.Repr && SmallSymbols(h.Book())
      modifies this, data
      ensures match DcRead(h.Book(), old(Code()))
              case None => !ok
              case Some((diff, rest)) =>
                var pred := old(dcPred)[b] + diff;
                && ok && Valid() && Code() == rest && dcPred == old(dcPred)[b := pred]
                && data[..] == DcOnly(Short(pred * dequant[0]))
    {
      hide DcRead, Code, HuffmanTable.Valid, HuffmanTable.Book, SmallSymbols, Short, DcOnly;
      if codeBits < 16 {
        GrowBuffer();
      }
      var diff;
      ok, diff := ReadDifference(h);
      if !ok {
        return;
      }
      SetPrediction(b, dcPred[b] + diff);
      ClearBut(data, Short(dcPred[b] * dequant[0]));
    }

    /** A block of component `b`: the fast table and the ordinary path together read what symbols and values alone
        give. */
    method DecodeBlock(data: array<int>, b: nat, hdc: HuffmanTable, hac: HuffmanTable, fac: array<int>,
          dequant: seq<nat>)
      returns (ok: bool)
      requires Valid() && b < 4 && data.Length == 64 && |dequant| == 64
      requires hdc.Valid() && {this, data} !! hdc.Repr && SmallSymbols(hdc.Book())
      requires hac.Valid() && {this, data} !! hac.Repr && HoldsEntries(fac, hac.Book()) && data != fac
      modifies this, data
      ensures match BlockRead(hdc.Book(), hac.Book(), dequant, old(dcPred)[b], old(Code()))
              case None => !ok
              case Some((done, pred)) =>
                ok && data[..] == done.data && Valid() && Code() == done.rest && dcPred == old(dcPred)[b := pred]
    {
      hide AcRead, DcRead, HoldsEntries, Code, HuffmanTable.Valid, HuffmanTable.Book, SmallSymbols, Short, DcOnly;
      ok := ReadFirst(data, b, hdc, dequant);
      if ok {
        ok := DecodeAc(data, hac, fac, dequant);
      }
    }

    method SetPrediction(b: nat, v: int)
      requires Valid() && b < 4
      modifies `dcPred
      ensures Valid() && Code() == old(Code()) && dcPred == old(dcPred)[b := v]
    {
      dcPred := dcPred[b := v];
    }
  }

  lemma TopBit(v: nat)
    requires v < Pow2(32)
    ensures Msb(v, 32)[0] <==> v >= 0x8000_0000
  {
    NumMsb(v, 32);
    FirstBit(Msb(v, 32));
    Pow2Values();
    Pow2Add(16, 15);
  }

  lemma AfterShift(v: nat, n: nat)
    requires n <= 32
    ensures var next := Low(Shl(v, n), 32); next < Pow2(32) && Msb(next, 32) == Msb(v, 32)[n..] + Zeros(n)
  {
    BufferShifted(v, 32, n);
    LowAndRest(Shl(v, n), 32);
  }

  /** Bits shifted out of a buffer are dropped from the bits to be read. */
  lemma ShiftKeeps(b: BitString, held: nat, n: nat, unread: BitString)
    requires held <= |b| && n <= |b| && ZeroTail(b, held) && (held >= n || unread == [])
    ensures var left := if held >= n then held - n else 0;
            (b[n..] + Zeros(n))[..left] + unread == Dropped(b[..held] + unread, n) && ZeroTail(b[n..] + Zeros(n), left)
  {
  }

  lemma OrNothing(x: nat, n: nat)
    ensures Or(x, Shl(0, n)) == x
  {
    ShlZero(n);
  }

  lemma NoBits()
    ensures ByteBits([]) == []
  {
  }

  lemma BitsOfByte(b: byte, rest: seq<byte>)
    ensures ByteBits([b] + rest) == Msb(b, 8) + ByteBits(rest)
  {
  }

  lemma UnstuffedStep(data: seq<byte>, pos: nat)
    ensures pos >= |data| ==> Unstuffed(data, pos) == []
    ensures pos < |data| && data[pos] != 255 ==> Unstuffed(data, pos) == [data[pos]] + Unstuffed(data, pos + 1)
    ensures pos < |data| && data[pos] == 255 ==>
      var q := PastFill(data, pos + 1);
      Unstuffed(data, pos) == if ByteAt(data, q) != 0 then [] else [255] + Unstuffed(data, q + 1)
  {
  }

  lemma AcReadEnd(ac: Book, dequant: seq<nat>)
    requires |dequant| == 64
    ensures forall k: nat, data: Matrix, bs ::
      k >= 64 ==> AcRead(ac, dequant, k, data, bs) == Some(Done(data, bs))
  {
  }

  lemma EntryHeld(fac: array<int>, ac: Book, i: nat)
    requires HoldsEntries(fac, ac) && i < 512
    ensures fac.Length == 512 && fac[i] == FastEntry(ac, i)
  {
  }

  lemma WindowNumber(bs: BitString)
    ensures Num(Window(bs, 16)) < 0x1_0000
  {
    NumBound(Window(bs, 16));
    Pow2Values();
  }

  lemma WindowIndex(bs: BitString)
    ensures Num(Window(bs, FAST_BITS)) < 512
  {
    NumBound(Window(bs, FAST_BITS));
    Pow2Values();
  }
}
