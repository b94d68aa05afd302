/** A block written and read back. */
module JpegRoundTrip {
  import opened Words
  import opened Wrappers
  import opened Bits
  import opened JpegCode
  import opened JpegHuffman
  import opened JpegStream
  import opened JpegDecode
  import opened JpegEncode

  /** The reader has the writer's words; differences of up to eleven bits, and all runs before values of up to ten bits,
      have words. */
  ghost predicate Baseline(dc: Code, ac: Code, dcBook: Book, acBook: Book) {
    && IsBook(dcBook) && IsBook(acBook) && SmallSymbols(dcBook) && Agree(dc, dcBook) && Agree(ac, acBook)
    && (forall s :: 0 <= s <= 11 ==> Defines(dc, s))
    && Defines(ac, 0) && Defines(ac, 0xf0)
    && forall rs :: 0 <= rs < 256 && 1 <= rs % 16 <= 10 ==> Defines(ac, rs)
  }

  /** Words that the reader has are short enough for the writer. */
  lemma AgreeShort(c: Code, b: Book)
    requires IsBook(b) && Agree(c, b)
    ensures ShortWords(c)
  {
    forall s | 0 <= s < |c| ensures |c[s]| <= 16 {
      if c[s] != [] {
        assert Defines(c, s);
      }
    }
  }

  /** The matrix when the first `k` coefficients of the scan are in place. */
  function Filled(du: seq<int>, dequant: seq<nat>, k: nat): (m: Matrix)
    requires |du| == 64 && |dequant| == 64
    ensures forall z :: 0 <= z < 64 ==> m[z] == if Zigzag(z) < k then Short(du[Zigzag(z)] * dequant[z]) else 0
  {
    seq(64, z requires 0 <= z < 64 => if Zigzag(z) < k then Short(du[Zigzag(z)] * dequant[z]) else 0)
  }

  lemma FilledNext(du: seq<int>, dequant: seq<nat>, k: nat)
    requires |du| == 64 && |dequant| == 64 && k < 64
    ensures var zig := Dezigzag(k);
            Filled(du, dequant, k + 1) == Filled(du, dequant, k)[zig := Short(du[k] * dequant[zig])]
  {
    hide Zigzag, Dezigzag, Short;
    var zig := Dezigzag(k);
    var next := Filled(du, dequant, k)[zig := Short(du[k] * dequant[zig])];
    ScanInverse(k);
    forall z | 0 <= z < 64 ensures Filled(du, dequant, k + 1)[z] == next[z] {
      ScanInverse(z);
    }
  }

  lemma FilledZero(du: seq<int>, dequant: seq<nat>, k: nat, n: nat)
    requires |du| == 64 && |dequant| == 64 && k <= n && forall i :: k <= i < n && i < 64 ==> du[i] == 0
    ensures Filled(du, dequant, n) == Filled(du, dequant, k)
  {
    hide Zigzag;
    forall z | 0 <= z < 64 ensures Filled(du, dequant, n)[z] == Filled(du, dequant, k)[z] {
      assert k <= Zigzag(z) < n ==> du[Zigzag(z)] == 0;
    }
  }

  // ----- reading what was written

  lemma WordNext(c: Code, b: Book, s: byte, rest: BitString)
    requires IsBook(b) && Agree(c, b) && Defines(c, s)
    ensures HuffDecode(b, Word(c, s) + rest) == Some(Entry(c[s], s)) && Dropped(Word(c, s) + rest, |c[s]|) == rest
  {
    hide HuffDecode, IsBook, Dropped;
    WordRead(b, Entry(c[s], s), rest);
  }

  /** Each marker passes sixteen coefficients. */
  lemma {:induction false} MarkersRead(ac: Code, b: Book, dequant: seq<nat>, k: nat, n: nat, data: Matrix,
        rest: BitString)
    requires IsBook(b) && Agree(ac, b) && Defines(ac, 0xf0) && |dequant| == 64 && k + 16 * n < 64
    ensures AcRead(b, dequant, k, data, Markers(ac, n) + rest) == AcRead(b, dequant, k + 16 * n, data, rest)
  {
    hide AcRead, HuffDecode, Dropped, Word, IsBook;
    if n == 0 {
      assert Markers(ac, n) + rest == rest;
    } else {
      var mark := Word(ac, 0xf0);
      Assoc(Markers(ac, n - 1), mark, rest);
      MarkersRead(ac, b, dequant, k, n - 1, data, mark + rest);
      WordNext(ac, b, 0xf0, rest);
      AcUnfold(b, dequant, k + 16 * (n - 1), data, mark + rest);
    }
  }

  /** A coefficient after a run goes to its place. */
  lemma AfterRunRead(ac: Code, b: Book, dequant: seq<nat>, k: nat, run: nat, v: int, data: Matrix, rest: BitString)
    requires IsBook(b) && Agree(ac, b) && Defines(ac, 0xf0) && |dequant| == 64 && run <= k < 64 && v != 0
    requires Size(Abs(v)) <= 10 && Defines(ac, run % 16 * 16 + Size(Abs(v)))
    ensures var zig := Dezigzag(k);
            AcRead(b, dequant, k - run, data, AfterRun(ac, run, v) + rest)
            == AcRead(b, dequant, k + 1, data[zig := Short(v * dequant[zig])], rest)
  {
    hide AcRead, HuffDecode, Dropped, Word, IsBook, Markers, Msb, Size, Additional, Extended, Short, Dezigzag;
    var n := Size(Abs(v));
    var rs := run % 16 * 16 + n;
    assert rs % 16 == n && rs / 16 == run % 16;
    var word, bits := Word(ac, rs), Msb(Additional(v), n);
    Assoc(Markers(ac, run / 16), word + bits, rest);
    Assoc(word, bits, rest);
    MarkersRead(ac, b, dequant, k - run, run / 16, data, word + (bits + rest));
    WordNext(ac, b, rs, bits + rest);
    ExtendedAdditional(v, rest);
    AcUnfold(b, dequant, k - run % 16, data, word + (bits + rest));
  }

  lemma EndRead(ac: Code, b: Book, dequant: seq<nat>, k: nat, data: Matrix, rest: BitString)
    requires IsBook(b) && Agree(ac, b) && Defines(ac, 0) && |dequant| == 64 && k < 64
    ensures AcRead(b, dequant, k, data, Word(ac, 0) + rest) == Some(Done(data, rest))
  {
    hide AcRead, HuffDecode, Dropped, Word, IsBook;
    WordNext(ac, b, 0, rest);
    AcUnfold(b, dequant, k, data, Word(ac, 0) + rest);
  }

  lemma {:induction false} AcBitsRead(dc: Code, ac: Code, db: Book, b: Book, dequant: seq<nat>, du: seq<int>, k: nat,
        run: nat, rest: BitString)
    requires Baseline(dc, ac, db, b) && |du| == 64 && |dequant| == 64 && run <= k <= 64 && Within(du, k, 1024)
    ensures AcRead(b, dequant, k - run, Filled(du, dequant, k), AcBits(ac, du, k, run) + rest)
         == Some(Done(Filled(du, dequant, 64), rest))
    decreases 64 - k
  {
    hide AcRead, Word, AfterRun, Filled, IsBook;
    if ZeroFrom(du, k) {
      FilledZero(du, dequant, k, 64);
      if run == 0 && k == 64 {
        AcReadEnd(b, dequant);
        assert [] + rest == rest;
      } else {
        EndRead(ac, b, dequant, k - run, Filled(du, dequant, k), rest);
      }
    } else if du[k] == 0 {
      FilledZero(du, dequant, k, k + 1);
      AcBitsRead(dc, ac, db, b, dequant, du, k + 1, run + 1, rest);
    } else {
      CoefficientFits(dc, ac, db, b, run, du[k]);
      AfterRunRead(ac, b, dequant, k, run, du[k], Filled(du, dequant, k), AcBits(ac, du, k + 1, 0) + rest);
      Assoc(AfterRun(ac, run, du[k]), AcBits(ac, du, k + 1, 0), rest);
      FilledNext(du, dequant, k);
      AcBitsRead(dc, ac, db, b, dequant, du, k + 1, 0, rest);
    }
  }

  lemma CoefficientFits(dc: Code, ac: Code, db: Book, b: Book, run: nat, v: int)
    requires Baseline(dc, ac, db, b) && -1024 < v < 1024
    ensures Size(Abs(v)) <= 10 && Defines(ac, run % 16 * 16 + Size(Abs(v)))
  {
    hide IsBook, Size, Defines;
    Pow2Values();
    SizeAtMost(Abs(v), 10);
    SymbolParts(run % 16, Size(Abs(v)));
  }

  lemma SymbolParts(run: nat, size: nat)
    requires run < 16 && size <= 10
    ensures run * 16 + size < 256 && (run * 16 + size) % 16 == size
  {
  }

  lemma DcBitsRead(dc: Code, ac: Code, db: Book, b: Book, diff: int, rest: BitString)
    requires Baseline(dc, ac, db, b) && -2048 < diff < 2048
    ensures DcRead(db, DcBits(dc, diff) + rest) == Some((diff, rest))
  {
    hide HuffDecode, Dropped, Word, IsBook, Msb, Size, Additional, Extended;
    if diff == 0 {
      WordNext(dc, db, 0, rest);
    } else {
      Pow2Values();
      SizeAtMost(Abs(diff), 11);
      var n := Size(Abs(diff));
      var bits := Msb(Additional(diff), n);
      Assoc(Word(dc, n), bits, rest);
      WordNext(dc, db, n, bits + rest);
      ExtendedAdditional(diff, rest);
    }
  }

  /** Every coefficient of the block comes back, scaled, in its place in the matrix, and the prediction with it. */
  lemma BlockRestored(dc: Code, ac: Code, db: Book, b: Book, dequant: seq<nat>, q: seq<int>, pred: int, rest: BitString)
    requires Baseline(dc, ac, db, b) && |dequant| == 64 && |q| == 64
    requires -2048 < q[0] - pred < 2048 && Within(q, 1, 1024)
    ensures BlockRead(db, b, dequant, pred, DcBits(dc, q[0] - pred) + AcBits(ac, Scanned(q), 1, 0) + rest)
         == Some((Done(Scaled(q, dequant), rest), q[0]))
  {
    hide AcRead, DcRead, DcBits, AcBits, Filled, IsBook, Short;
    var du := Scanned(q);
    var acs := AcBits(ac, du, 1, 0);
    Assoc(DcBits(dc, q[0] - pred), acs, rest);
    DcBitsRead(dc, ac, db, b, q[0] - pred, acs + rest);
    FirstFilled(q, dequant);
    ScannedWithin(q, 1024);
    AcBitsRead(dc, ac, db, b, dequant, du, 1, 0, rest);
    AllFilled(q, dequant);
  }

  function Scaled(q: seq<int>, dequant: seq<nat>): (m: Matrix)
    requires |q| == 64 && |dequant| == 64
    ensures forall z :: 0 <= z < 64 ==> m[z] == Short(q[z] * dequant[z])
  {
    seq(64, z requires 0 <= z < 64 => Short(q[z] * dequant[z]))
  }

  lemma FirstFilled(q: seq<int>, dequant: seq<nat>)
    requires |q| == 64 && |dequant| == 64
    ensures Filled(Scanned(q), dequant, 1) == DcOnly(Short(q[0] * dequant[0]))
  {
    hide Short;
    assert Zigzag(0) == 0 && Dezigzag(0) == 0;
    hide Zigzag, Dezigzag;
    assert Scanned(q)[0] == q[0];
    hide Scanned, Filled, DcOnly;
    forall z | 0 <= z < 64 ensures Filled(Scanned(q), dequant, 1)[z] == DcOnly(Short(q[0] * dequant[0]))[z] {
      ScanInverse(z);
    }
  }

  lemma AllFilled(q: seq<int>, dequant: seq<nat>)
    requires |q| == 64 && |dequant| == 64
    ensures Filled(Scanned(q), dequant, 64) == Scaled(q, dequant)
  {
    hide Short, Zigzag;
    forall z | 0 <= z < 64 ensures Filled(Scanned(q), dequant, 64)[z] == Scaled(q, dequant)[z] {
      ScannedAt(q, z);
    }
  }

  /** With steps of one, values that fit the word tables come back as they were. */
  lemma UnitScaled(q: seq<int>)
    requires |q| == 64 && Within(q, 1, 1024) && -32768 <= q[0] < 32768
    ensures Scaled(q, seq(64, _ => 1)) == q
  {
    forall z | 0 <= z < 64 ensures Scaled(q, seq(64, _ => 1))[z] == q[z] {
      assert q[z] * 1 == q[z];
    }
  }

  // ----- a scan

  /** The writer's words, the headers it sends for them, and the steps of the quantisation. */
  datatype Tables = Tables(dc: Code, ac: Code, dcHeader: Header, acHeader: Header, dequant: seq<nat>)

  /** A quantised block of component `b`. */
  datatype Part = Part(b: nat, q: seq<int>)

  ghost predicate GoodTables(t: Tables) {
    && Sendable(t.dcHeader) && Sendable(t.acHeader) && |t.dequant| == 64
    && Baseline(t.dc, t.ac, HeaderBook(t.dcHeader), HeaderBook(t.acHeader))
  }

  ghost predicate AllTables(ts: seq<Tables>) {
    |ts| == 4 && forall b :: 0 <= b < 4 ==> GoodTables(ts[b])
  }

  /** Blocks of 64 values within the word tables, each first value close to that of the component's block before. */
  predicate ScanFits(parts: seq<Part>, preds: seq<int>)
    requires |preds| == 4
  {
    parts == [] || (
      var p := parts[0];
      && p.b < 4 && |p.q| == 64 && -2048 < p.q[0] - preds[p.b] < 2048 && Within(p.q, 1, 1024)
      && ScanFits(parts[1..], preds[p.b := p.q[0]]))
  }

  ghost function PartBits(t: Tables, q: seq<int>, pred: int): BitString
    requires |q| == 64
  {
    DcBits(t.dc, q[0] - pred) + AcBits(t.ac, Scanned(q), 1, 0)
  }

  ghost function ScanBits(ts: seq<Tables>, parts: seq<Part>, preds: seq<int>): BitString
    requires |ts| == 4 && |preds| == 4 && ScanFits(parts, preds)
  {
    if parts == [] then [] else
      var p := parts[0];
      PartBits(ts[p.b], p.q, preds[p.b]) + ScanBits(ts, parts[1..], preds[p.b := p.q[0]])
  }

  method WritePart(w: BitWriter, t: Tables, q: seq<int>, pred: int)
    requires w.Valid() && GoodTables(t)
    requires |q| == 64 && -2048 < q[0] - pred < 2048 && Within(q, 1, 1024)
    modifies w
    ensures w.Valid() && w.Written() == old(w.Written()) + PartBits(t, q, pred)
  {
    hide DcBits, AcBits, ShortWords, IsBook, SmallSymbols, Agree;
    AgreeShort(t.dc, HeaderBook(t.dcHeader));
    AgreeShort(t.ac, HeaderBook(t.acHeader));
    var first := ProcessDU(w, q, pred, t.dc, t.ac);
    Assoc(old(w.Written()), DcBits(t.dc, q[0] - pred), AcBits(t.ac, Scanned(q), 1, 0));
  }

  /** Seven ones to fill the last byte, then the end marker. */
  method EndScan(w: BitWriter, ghost code: BitString) returns (out: seq<byte>, ghost fill: BitString)
    requires w.Valid() && w.Written() == code
    modifies w
    ensures ByteBits(Unstuffed(out, 0)) == code + fill
  {
    w.WriteBits(0x7f, 7);
    ghost var bits := ByteBits(w.raw);
    assert bits <= w.Written() && |bits| >= |code|;
    fill := bits[|code|..];
    Overlap(w.Written(), code, bits);
    out := w.out + [0xff, 0xd9];
    assert out[0..] == Stuffed(w.raw) + ([255, 0xd9] + []);
    UnstuffedStuffed(out, 0, w.raw, 0xd9, []);
  }

  lemma Overlap(all: BitString, code: BitString, bits: BitString)
    requires code <= all && bits <= all && |code| <= |bits|
    ensures bits == code + bits[|code|..]
  {
    assert bits == all[..|bits|] && code == all[..|code|];
  }

  /** The blocks of a scan, one after the other. */
  method WriteScan(ts: seq<Tables>, parts: seq<Part>) returns (out: seq<byte>, ghost fill: BitString)
    requires AllTables(ts) && ScanFits(parts, [0, 0, 0, 0])
    ensures ByteBits(Unstuffed(out, 0)) == ScanBits(ts, parts, [0, 0, 0, 0]) + fill
  {
    hide PartBits, Within, GoodTables;
    ghost var goal := ScanBits(ts, parts, [0, 0, 0, 0]);
    var w := new BitWriter();
    var preds := [0, 0, 0, 0];
    var i := 0;
    assert parts[0..] == parts && [] + goal == goal;
    while i < |parts|
      invariant 0 <= i <= |parts| && w.Valid() && fresh(w) && |preds| == 4 && ScanFits(parts[i..], preds)
      invariant goal == w.Written() + ScanBits(ts, parts[i..], preds)
    {
      var p := parts[i];
      ghost var before, bits := w.Written(), PartBits(ts[p.b], p.q, preds[p.b]);
      assert parts[i..][1..] == parts[i + 1..];
      WritePart(w, ts[p.b], p.q, preds[p.b]);
      Assoc(before, bits, ScanBits(ts, parts[i + 1..], preds[p.b := p.q[0]]));
      preds := preds[p.b := p.q[0]];
      i := i + 1;
    }
    assert w.Written() + [] == w.Written();
    out, fill := EndScan(w, goal);
  }

  /** The matrices of a scan whose blocks belong to the components `bs`. */
  ghost function ScanRead(ts: seq<Tables>, bs: seq<nat>, preds: seq<int>, code: BitString): Option<seq<Matrix>>
    requires AllTables(ts) && |preds| == 4 && forall i :: 0 <= i < |bs| ==> bs[i] < 4
    decreases |bs|
  {
    if bs == [] then Some([]) else
      var b := bs[0];
      match PartRead(ts[b], preds[b], code)
      case None => None
      case Some((done, pred)) => With(done.data, ScanRead(ts, bs[1..], preds[b := pred], done.rest))
  }

  /** The first block, and then the others. */
  lemma FirstRead(ts: seq<Tables>, bs: seq<nat>, preds: seq<int>, code: BitString)
    requires AllTables(ts) && |preds| == 4 && bs != [] && forall i :: 0 <= i < |bs| ==> bs[i] < 4
    ensures ScanRead(ts, [], preds, code) == Some([])
    ensures match PartRead(ts[bs[0]], preds[bs[0]], code)
            case None => ScanRead(ts, bs, preds, code) == None
            case Some((done, pred)) =>
              ScanRead(ts, bs, preds, code) == With(done.data, ScanRead(ts, bs[1..], preds[bs[0] := pred], done.rest))
  {
    hide PartRead, GoodTables;
  }

  function With(m: Matrix, more: Option<seq<Matrix>>): Option<seq<Matrix>> {
    match more
    case None => None
    case Some(ms) => Some([m] + ms)
  }

  ghost function PartRead(t: Tables, pred: int, code: BitString): Option<(Done, int)>
    requires GoodTables(t)
  {
    BlockRead(HeaderBook(t.dcHeader), HeaderBook(t.acHeader), t.dequant, pred, code)
  }

  /** The reader's tables of a component. */
  datatype Readers = Readers(hdc: HuffmanTable, hac: HuffmanTable, fac: array<int>)

  ghost predicate Serves(r: Readers, t: Tables)
    reads r.hdc, r.hdc.Repr, r.hac, r.hac.Repr, r.fac
  {
    && GoodTables(t) && r.hdc.Valid() && r.hdc.Book() == HeaderBook(t.dcHeader)
    && r.hac.Valid() && r.hac.Book() == HeaderBook(t.acHeader) && HoldsEntries(r.fac, r.hac.Book())
  }

  method BuildReaders(t: Tables) returns (r: Readers)
    requires GoodTables(t)
    ensures Serves(r, t) && fresh(r.hdc) && fresh(r.hdc.Repr) && fresh(r.hac) && fresh(r.hac.Repr) && fresh(r.fac)
  {
    hide HuffmanTable.Valid, HuffmanTable.Book, HuffmanTable.Built, HoldsEntries, Baseline, Room, Tellable, Sizes, Upto;
    var okDc, hdc := BuildTable(t.dcHeader);
    var okAc, hac := BuildTable(t.acHeader);
    var fac := BuildFastAc(hac);
    r := Readers(hdc, hac, fac);
  }

  method BuildTables(ts: seq<Tables>) returns (rs: seq<Readers>)
    requires AllTables(ts)
    ensures |rs| == 4 && forall b :: 0 <= b < 4 ==> Serves(rs[b], ts[b])
    ensures forall b :: 0 <= b < 4 ==> fresh(rs[b].hdc.Repr) && fresh(rs[b].hac.Repr) && fresh(rs[b].fac)
  {
    hide GoodTables, Serves;
    var r0 := BuildReaders(ts[0]);
    var r1 := BuildReaders(ts[1]);
    var r2 := BuildReaders(ts[2]);
    var r3 := BuildReaders(ts[3]);
    rs := [r0, r1, r2, r3];
  }

  /** What is still to be read completes what was read. */
  predicate Continues(goal: Option<seq<Matrix>>, out: seq<Matrix>, rest: Option<seq<Matrix>>) {
    match rest
    case None => goal == None
    case Some(more) => goal == Some(out + more)
  }

  lemma NothingRead(goal: Option<seq<Matrix>>)
    ensures Continues(goal, [], goal)
  {
    if goal.Some? {
      assert [] + goal.value == goal.value;
    }
  }

  lemma NoneRead(goal: Option<seq<Matrix>>, out: seq<Matrix>)
    requires Continues(goal, out, None)
    ensures goal == None
  {
  }

  lemma AllRead(goal: Option<seq<Matrix>>, ts: seq<Tables>, out: seq<Matrix>, preds: seq<int>, code: BitString)
    requires AllTables(ts) && |preds| == 4 && Continues(goal, out, ScanRead(ts, [], preds, code))
    ensures goal == Some(out)
  {
    assert out + [] == out;
  }

  lemma OneRead(goal: Option<seq<Matrix>>, out: seq<Matrix>, m: Matrix, rest: Option<seq<Matrix>>)
    requires Continues(goal, out, With(m, rest))
    ensures Continues(goal, out + [m], rest)
  {
    if rest.Some? {
      Assoc(out, [m], rest.value);
    }
  }

  /** Neither the decoder nor the matrix is part of the tables. */
  ghost predicate Aside(r: Readers, d: Decoder, data: array<int>) {
    data != r.fac && {d, data} !! r.hdc.Repr && {d, data} !! r.hac.Repr
  }

  method ReadPart(d: Decoder, data: array<int>, b: nat, r: Readers, t: Tables) returns (ok: bool)
    requires d.Valid() && b < 4 && data.Length == 64 && Serves(r, t) && Aside(r, d, data)
    modifies d, data
    ensures Serves(r, t)
    ensures match PartRead(t, old(d.dcPred)[b], old(d.Code()))
            case None => !ok
            case Some((done, pred)) =>
              ok && data[..] == done.data && d.Valid() && d.Code() == done.rest && d.dcPred == old(d.dcPred)[b := pred]
  {
    hide HoldsEntries, BlockRead, IsBook, SmallSymbols, HuffmanTable.Valid, HuffmanTable.Book, Sendable;
    ok := d.DecodeBlock(data, b, r.hdc, r.hac, r.fac, t.dequant);
  }

  method ReadScan(bytes: seq<byte>, ts: seq<Tables>, bs: seq<nat>) returns (ok: bool, out: seq<Matrix>)
    requires AllTables(ts) && forall i :: 0 <= i < |bs| ==> bs[i] < 4
    ensures match ScanRead(ts, bs, [0, 0, 0, 0], ByteBits(Unstuffed(bytes, 0)))
            case None => !ok
            case Some(ms) => ok && out == ms
  {
    hide Unstuffed, ByteBits, PartRead, GoodTables, Serves, ScanRead, Continues, With, Decoder.Valid, Decoder.Code;
    var rs := BuildTables(ts);
    var data := new int[64];
    var d := new Decoder(bytes);
    ghost var goal := ScanRead(ts, bs, d.dcPred, d.Code());
    out := [];
    var i := 0;
    assert bs[0..] == bs;
    NothingRead(goal);
    while i < |bs|
      invariant 0 <= i <= |bs| && d.Valid() && |d.dcPred| == 4 && fresh(d) && fresh(data)
      invariant forall b :: 0 <= b < 4 ==> Serves(rs[b], ts[b]) && Aside(rs[b], d, data)
      invariant Continues(goal, out, ScanRead(ts, bs[i..], d.dcPred, d.Code()))
    {
      var b := bs[i];
      assert bs[i..][1..] == bs[i + 1..];
      FirstRead(ts, bs[i..], d.dcPred, d.Code());
      ok := ReadPart(d, data, b, rs[b], ts[b]);
      if !ok {
        NoneRead(goal, out);
        return;
      }
      OneRead(goal, out, data[..], ScanRead(ts, bs[i + 1..], d.dcPred, d.Code()));
      out := out + [data[..]];
      i := i + 1;
    }
    AllRead(goal, ts, out, d.dcPred, d.Code());
    ok := true;
  }

  // ----- the round trip

  predicate Shaped(parts: seq<Part>) {
    forall i :: 0 <= i < |parts| ==> parts[i].b < 4 && |parts[i].q| == 64
  }

  lemma {:induction false} FitsShaped(parts: seq<Part>, preds: seq<int>)
    requires |preds| == 4 && ScanFits(parts, preds)
    ensures Shaped(parts)
    decreases |parts|
  {
    hide Within;
    if parts != [] {
      FitsShaped(parts[1..], preds[parts[0].b := parts[0].q[0]]);
      assert forall i :: 1 <= i < |parts| ==> parts[i] == parts[1..][i - 1];
    }
  }

  function Components(parts: seq<Part>): (bs: seq<nat>)
    ensures |bs| == |parts| && forall i :: 0 <= i < |bs| ==> bs[i] == parts[i].b
  {
    if parts == [] then [] else [parts[0].b] + Components(parts[1..])
  }

  /** The matrices of the blocks, scaled. */
  function ScaledParts(ts: seq<Tables>, parts: seq<Part>): (ms: seq<Matrix>)
    requires |ts| == 4 && (forall b :: 0 <= b < 4 ==> |ts[b].dequant| == 64) && Shaped(parts)
    ensures |ms| == |parts| && forall i :: 0 <= i < |ms| ==> ms[i] == Scaled(parts[i].q, ts[parts[i].b].dequant)
  {
    seq(|parts|, i requires 0 <= i < |parts| => Scaled(parts[i].q, ts[parts[i].b].dequant))
  }

  lemma ScaledFirst(ts: seq<Tables>, parts: seq<Part>)
    requires |ts| == 4 && (forall b :: 0 <= b < 4 ==> |ts[b].dequant| == 64) && Shaped(parts) && parts != []
    ensures Shaped(parts[1..])
    ensures ScaledParts(ts, parts) == [Scaled(parts[0].q, ts[parts[0].b].dequant)] + ScaledParts(ts, parts[1..])
  {
    hide Scaled;
  }

  lemma {:induction false} ScanRestored(ts: seq<Tables>, parts: seq<Part>, preds: seq<int>, rest: BitString)
    requires AllTables(ts) && |preds| == 4 && ScanFits(parts, preds) && Shaped(parts)
    ensures ScanRead(ts, Components(parts), preds, ScanBits(ts, parts, preds) + rest) == Some(ScaledParts(ts, parts))
    decreases |parts|
  {
    hide GoodTables, Within, Scaled, PartRead, PartBits, ScaledParts;
    TablesSized(ts);
    if parts == [] {
      assert ScaledParts(ts, parts) == [];
    } else {
      var p := parts[0];
      var preds' := preds[p.b := p.q[0]];
      var after := ScanBits(ts, parts[1..], preds') + rest;
      ScaledFirst(ts, parts);
      ScanRestored(ts, parts[1..], preds', rest);
      Assoc(PartBits(ts[p.b], p.q, preds[p.b]), ScanBits(ts, parts[1..], preds'), rest);
      PartRestored(ts[p.b], p.q, preds[p.b], after);
      FirstRead(ts, Components(parts), preds, PartBits(ts[p.b], p.q, preds[p.b]) + after);
    }
  }

  lemma PartRestored(t: Tables, q: seq<int>, pred: int, rest: BitString)
    requires GoodTables(t) && |q| == 64 && -2048 < q[0] - pred < 2048 && Within(q, 1, 1024)
    ensures PartRead(t, pred, PartBits(t, q, pred) + rest) == Some((Done(Scaled(q, t.dequant), rest), q[0]))
  {
    hide Baseline, Within, Scaled, BlockRead, DcBits, AcBits, Sendable;
    BlockRestored(t.dc, t.ac, HeaderBook(t.dcHeader), HeaderBook(t.acHeader), t.dequant, q, pred, rest);
  }

  lemma TablesSized(ts: seq<Tables>)
    requires AllTables(ts)
    ensures forall b :: 0 <= b < 4 ==> |ts[b].dequant| == 64
  {
    forall b | 0 <= b < 4 ensures |ts[b].dequant| == 64 {
      assert GoodTables(ts[b]);
    }
  }

  /** Every block of a scan comes back through bytes, stuffing, fast tables and predictions. */
  method WriteAndReadScan(ts: seq<Tables>, parts: seq<Part>) returns (ok: bool, out: seq<Matrix>)
    requires AllTables(ts) && ScanFits(parts, [0, 0, 0, 0])
    ensures Shaped(parts) && ok && out == ScaledParts(ts, parts)
  {
    hide ScanBits, ScanRead, ScanFits, ScaledParts, Unstuffed, ByteBits, AllTables;
    TablesSized(ts);
    FitsShaped(parts, [0, 0, 0, 0]);
    var bytes;
    ghost var fill;
    bytes, fill := WriteScan(ts, parts);
    ScanRestored(ts, parts, [0, 0, 0, 0], fill);
    ok, out := ReadScan(bytes, ts, Components(parts));
  }
}
