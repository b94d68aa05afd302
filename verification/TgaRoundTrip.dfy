/** A picture written as TGA and loaded again. */
module TgaRoundTrip {
  import opened Words
  import opened Wrappers
  import opened Bits
  import opened Tga
  import opened TgaReader

  // ----- packets

  lemma {:induction false} AllStoredFront(ps: seq<Pixel>)
    requires ps != []
    ensures AllStored(ps) == Stored(ps[0]) + AllStored(ps[1..])
  {
    hide Stored;
    var n := |ps| - 1;
    if n == 0 {
      assert ps[..0] == [] && ps[1..] == [];
    } else {
      AllStoredFront(ps[..n]);
      assert ps[..n][1..] == ps[1..][..n - 1];
      Assoc(Stored(ps[0]), AllStored(ps[1..][..n - 1]), Stored(ps[n]));
    }
  }

  lemma PixelInPlace(data: seq<byte>, pos: nat, p: Pixel, after: seq<byte>)
    requires pos <= |data| && data[pos..] == Stored(p) + after
    ensures PixelAt(data, pos, |p|) == Stored(p) && pos + |p| <= |data| && data[pos + |p|..] == after
  {
    hide Stored;
    Slices(data, pos, Stored(p), after);
    forall k | 0 <= k < |p| ensures PixelAt(data, pos, |p|)[k] == Stored(p)[k] {
      assert data[pos + k] == Stored(p)[k];
      assert PixelAt(data, pos, |p|)[k] == ByteAt(data, pos + k);
    }
  }

  lemma Slices<T>(data: seq<T>, pos: nat, a: seq<T>, b: seq<T>)
    requires pos <= |data| && data[pos..] == a + b
    ensures pos + |a| <= |data| && data[pos + |a|..] == b && forall k :: 0 <= k < |a| ==> data[pos + k] == a[k]
  {
    assert |data| - pos == |a| + |b|;
    forall k | 0 <= k < |a| ensures data[pos + k] == a[k] {
      assert data[pos..][k] == (a + b)[k];
    }
    forall k | 0 <= k < |b| ensures data[pos + |a|..][k] == b[k] {
      assert data[pos..][|a| + k] == (a + b)[|a| + k];
    }
  }

  lemma StoredPixelsFront(ps: seq<Pixel>)
    requires ps != []
    ensures StoredPixels(ps) == [Stored(ps[0])] + StoredPixels(ps[1..])
  {
    hide Stored;
  }

  lemma StoredPixelsAppend(ps: seq<Pixel>, qs: seq<Pixel>)
    ensures StoredPixels(ps + qs) == StoredPixels(ps) + StoredPixels(qs)
  {
    hide Stored;
  }

  lemma RawPixelsFront(data: seq<byte>, pos: nat, n: nat, comp: nat)
    ensures RawPixels(data, pos, 0, comp) == []
    ensures 0 < n ==>
      RawPixels(data, pos, n, comp) == [PixelAt(data, pos, comp)] + RawPixels(data, pos + comp, n - 1, comp)
  {
  }

  lemma {:induction false} RawStored(data: seq<byte>, pos: nat, ps: seq<Pixel>, comp: nat, after: seq<byte>)
    requires pos <= |data| && AllSized(ps, comp) && data[pos..] == AllStored(ps) + after
    ensures RawPixels(data, pos, |ps|, comp) == StoredPixels(ps)
    ensures 0 <= |ps| * comp && pos + |ps| * comp <= |data| && data[pos + |ps| * comp..] == after
    decreases |ps|
  {
    hide Stored, PixelAt, RawPixels, AllStored, StoredPixels;
    if ps == [] {
      NoneStored(data, pos, ps, comp, after);
    } else {
      FirstStored(data, pos, ps, comp, after);
      RawStored(data, pos + comp, ps[1..], comp, after);
      RawPixelsFront(data, pos, |ps|, comp);
      StoredPixelsFront(ps);
      MulDistrib(|ps| - 1, 1, comp);
    }
  }

  lemma NoneStored(data: seq<byte>, pos: nat, ps: seq<Pixel>, comp: nat, after: seq<byte>)
    requires pos <= |data| && ps == [] && data[pos..] == AllStored(ps) + after
    ensures RawPixels(data, pos, |ps|, comp) == StoredPixels(ps) && |ps| * comp == 0 && data[pos..] == after
  {
  }

  lemma FirstStored(data: seq<byte>, pos: nat, ps: seq<Pixel>, comp: nat, after: seq<byte>)
    requires pos <= |data| && ps != [] && AllSized(ps, comp) && data[pos..] == AllStored(ps) + after
    ensures PixelAt(data, pos, comp) == Stored(ps[0])
    ensures pos + comp <= |data| && data[pos + comp..] == AllStored(ps[1..]) + after
  {
    hide Stored, PixelAt, AllStored;
    AllStoredFront(ps);
    Assoc(Stored(ps[0]), AllStored(ps[1..]), after);
    PixelInPlace(data, pos, ps[0], AllStored(ps[1..]) + after);
  }

  /** The first byte of a packet, then what it holds. */
  lemma CommandRead(data: seq<byte>, pos: nat, cmd: byte, body: seq<byte>, after: seq<byte>)
    requires pos <= |data| && data[pos..] == [cmd] + body + after
    ensures ByteAt(data, pos) == cmd && pos + 1 <= |data| && data[pos + 1..] == body + after
  {
    Assoc([cmd], body, after);
    Slices(data, pos, [cmd], body + after);
  }

  lemma RawRead(data: seq<byte>, pos: nat, ps: seq<Pixel>, comp: nat, after: seq<byte>, n: nat) returns (next: nat)
    requires pos <= |data| && 1 <= |ps| <= 128 && AllSized(ps, comp) && |ps| <= n
    requires data[pos..] == [|ps| - 1] + AllStored(ps) + after
    ensures next <= |data| && data[next..] == after
    ensures Decoded(data, pos, n, comp) == StoredPixels(ps) + Decoded(data, next, n - |ps|, comp)
  {
    hide Stored, PixelAt, AllStored, RawPixels, StoredPixels, ByteAt, Decoded;
    CommandRead(data, pos, |ps| - 1, AllStored(ps), after);
    RawStored(data, pos + 1, ps, comp, after);
    DecodedPacket(data, pos, n, comp);
    next := pos + 1 + |ps| * comp;
  }

  lemma RunRead(data: seq<byte>, pos: nat, p: Pixel, m: nat, after: seq<byte>, n: nat) returns (next: nat)
    requires pos <= |data| && 1 <= m <= 128 && m <= n
    requires data[pos..] == [m + 127] + Stored(p) + after
    ensures next <= |data| && data[next..] == after
    ensures Decoded(data, pos, n, |p|) == Repeated(Stored(p), m) + Decoded(data, next, n - m, |p|)
  {
    hide Stored, PixelAt, ByteAt, Decoded, Repeated;
    CommandRead(data, pos, m + 127, Stored(p), after);
    PixelInPlace(data, pos + 1, p, after);
    DecodedPacket(data, pos, n, |p|);
    next := pos + 1 + |p|;
  }

  lemma StoredRun(p: Pixel, m: nat)
    ensures StoredPixels(Repeated(p, m)) == Repeated(Stored(p), m)
  {
    hide Stored;
  }

  /** One packet read back, then the rest. */
  lemma PacketRead(data: seq<byte>, pos: nat, k: Packet, comp: nat, after: seq<byte>, n: nat) returns (next: nat)
    requires pos <= |data| && Fits(k, comp) && data[pos..] == Encoded(k) + after && |Pixels(k)| <= n
    ensures next <= |data| && data[next..] == after
    ensures Decoded(data, pos, n, comp) == StoredPixels(Pixels(k)) + Decoded(data, next, n - |Pixels(k)|, comp)
  {
    hide Stored, AllStored, Decoded;
    match k {
      case Raw(ps) =>
        next := RawRead(data, pos, ps, comp, after, n);
      case Run(p, m) =>
        assert |p| == comp by {
          assert Pixels(k)[0] == p;
        }
        next := RunRead(data, pos, p, m, after, n);
        StoredRun(p, m);
    }
  }

  lemma {:induction false} StreamDecoded(data: seq<byte>, pos: nat, ks: seq<Packet>, comp: nat)
    requires pos <= |data| && AllFit(ks, comp) && data[pos..] == Stream(ks)
    ensures Decoded(data, pos, |Expanded(ks)|, comp) == StoredPixels(Expanded(ks))
    decreases |ks|
  {
    if ks != [] {
      hide Encoded, Pixels, Decoded, Fits, StoredPixels;
      var next := PacketRead(data, pos, ks[0], comp, Stream(ks[1..]), |Expanded(ks)|);
      StreamDecoded(data, next, ks[1..], comp);
      StoredPixelsAppend(Pixels(ks[0]), Expanded(ks[1..]));
    }
  }

  // ----- rows

  /** Row `k` of the rows from the bottom up. */
  lemma {:induction false} FromBottomRow(p: Picture, j: nat, k: nat)
    requires p.Valid() && j <= p.height && k < p.height - j
    ensures RowAt(p.FromBottom(j), p.width, p.height - j, k) == p.Row(p.height - 1 - k)
    decreases p.height - j
  {
    var rest := p.FromBottom(j + 1);
    var n := p.height - j - 1;
    MulDistrib(n, 1, p.width);
    if k < n {
      FromBottomRow(p, j + 1, k);
      RowInside(p.width, n, k);
    }
    RowOfSum(rest, p.Row(j), p.width, n, k);
  }

  lemma RowOfSum(a: seq<Pixel>, b: seq<Pixel>, width: nat, n: nat, k: nat)
    requires |a| == width * n && |b| == width && |a + b| == width * (n + 1) && k <= n
    ensures RowAt(a + b, width, n + 1, k) == if k < n then RowAt(a, width, n, k) else b
  {
    if k < n {
      RowInside(width, n, k);
    }
  }

  lemma SplitRow(a: seq<Pixel>, m: nat, width: nat)
    requires m + width <= |a|
    ensures a[..m + width] == a[..m] + a[m..m + width]
  {
  }

  ghost predicate SameRows(a: seq<Pixel>, b: seq<Pixel>, width: nat, height: nat)
    requires |a| == |b| == width * height
  {
    forall r :: 0 <= r < height ==> RowAt(a, width, height, r) == RowAt(b, width, height, r)
  }

  lemma EqualRow(a: seq<Pixel>, b: seq<Pixel>, width: nat, height: nat, r: nat)
    requires |a| == |b| == width * height && r < height && SameRows(a, b, width, height)
    ensures 0 <= width * r && width * r + width <= |a|
    ensures a[width * r..width * r + width] == b[width * r..width * r + width]
  {
    assert RowAt(a, width, height, r) == RowAt(b, width, height, r);
  }

  /** Pictures with equal rows are equal. */
  lemma {:induction false} RowsDetermine(a: seq<Pixel>, b: seq<Pixel>, width: nat, height: nat, j: nat)
    requires |a| == |b| == width * height && j <= height && SameRows(a, b, width, height)
    ensures 0 <= width * j <= |a| && a[..width * j] == b[..width * j]
  {
    hide SameRows;
    if j == 0 {
      assert width * 0 == 0;
    } else {
      RowsDetermine(a, b, width, height, j - 1);
      EqualRow(a, b, width, height, j - 1);
      MulDistrib(j - 1, 1, width);
      SplitRow(a, width * (j - 1), width);
      SplitRow(b, width * (j - 1), width);
    }
  }

  lemma StoredPixelsTwice(ps: seq<Pixel>)
    ensures StoredPixels(StoredPixels(ps)) == ps
  {
    forall k | 0 <= k < |ps| ensures StoredPixels(StoredPixels(ps))[k] == ps[k] {
      StoredTwice(ps[k]);
    }
  }

  // ----- the round trip

  /** A mirror image of the rows from the bottom up is the picture. */
  lemma MirrorRestores(p: Picture, pixels: seq<Pixel>)
    requires p.Valid() && |pixels| == |p.pixels|
    requires AllMirrored(pixels, p.FromBottom(0), p.width, p.height, p.height)
    ensures pixels == p.pixels
  {
    forall r | 0 <= r < p.height ensures RowAt(pixels, p.width, p.height, r) == RowAt(p.pixels, p.width, p.height, r) {
      assert Mirrored(pixels, p.FromBottom(0), p.width, p.height, p.height, r);
      FromBottomRow(p, 0, p.height - 1 - r);
    }
    RowsDetermine(pixels, p.pixels, p.width, p.height, p.height);
    assert pixels[..|pixels|] == pixels && p.pixels[..|pixels|] == p.pixels;
  }

  /** What the header says, read back. */
  lemma HeaderRead(data: seq<byte>, width: nat, height: nat, comp: nat, after: seq<byte>)
    requires 1 <= comp <= 4 && data == Header(width, height, comp) + after
    ensures ByteAt(data, 0) == 0 == ByteAt(data, 1) && ByteAt(data, 2) == (if comp < 3 then 11 else 10)
    ensures Get16(data, 12) == width % 65536 && Get16(data, 14) == height % 65536
    ensures GetComp(ByteAt(data, 16), comp < 3) == (comp, false) && ByteAt(data, 17) / 32 % 2 == 0
    ensures data[18..] == after
  {
    assert forall i :: 0 <= i < 18 ==> data[i] == Header(width, height, comp)[i];
  }

  lemma PacketsShow(p: Picture, data: seq<byte>, ks: seq<Packet>, q: Picture)
    requires p.Valid() && AllFit(ks, p.comp) && Expanded(ks) == p.FromBottom(0)
    requires 18 <= |data| && data[18..] == Stream(ks)
    requires (q.width, q.height, q.comp) == (p.width, p.height, p.comp) && Shows(q, data, 18, true)
    ensures q == p
  {
    hide Stream, Expanded, Decoded, AllMirrored, StoredPixels, Fits;
    StreamDecoded(data, 18, ks, p.comp);
    StoredPixelsTwice(p.FromBottom(0));
    MirrorRestores(p, q.pixels);
  }

  /** The picture comes back, pixel for pixel, exactly when it has pixels, its sides fit sixteen bits and its size is
      one the loader takes. */
  method WriteAndLoad(p: Picture) returns (r: Outcome)
    requires p.Valid()
    ensures r == Loaded(p) <==>
      1 <= p.width < 65536 && 1 <= p.height < 65536 && p.width * p.height * p.comp <= INT_MAX
    ensures r == UnknownType <==> p.width % 65536 == 0 || p.height % 65536 == 0
    ensures p.width < 65536 && p.height < 65536 ==> r == Loaded(p) || r == TooLarge || r == UnknownType
  {
    hide Stream, Expanded, Shows, Header, ByteAt, Get16, GetComp;
    var data;
    ghost var ks;
    data, ks := WriteTga(p);
    HeaderRead(data, p.width, p.height, p.comp, Stream(ks));
    HeaderPasses(data, p.width, p.height, p.comp);
    r := Load(data);
    if p.width < 65536 && p.height < 65536 && r.Loaded? {
      PacketsShow(p, data, ks, r.picture);
    }
  }

  /** What the test makes of a header so read. */
  lemma HeaderPasses(data: seq<byte>, width: nat, height: nat, comp: nat)
    requires 1 <= comp <= 4 && ByteAt(data, 1) == 0 && ByteAt(data, 2) == (if comp < 3 then 11 else 10)
    requires Get16(data, 12) == width % 65536 && Get16(data, 14) == height % 65536
    requires GetComp(ByteAt(data, 16), comp < 3) == (comp, false)
    ensures TgaTest(data) <==> width % 65536 != 0 && height % 65536 != 0
  {
    hide ByteAt, Get16;
  }

  /** Ways to lose a picture, at inputs: a side that does not fit the header, and sides that do while the size is not
      one the loader takes. */
  method WideIsLost() returns (p: Picture, r: Outcome)
    ensures p.Valid() && p.width == 65536 && p.height == 1 && r == UnknownType
  {
    p := Picture(65536, 1, 1, seq(65536, _ => [0]));
    r := WriteAndLoad(p);
  }

  method LargeIsRefused() returns (p: Picture, r: Outcome)
    ensures p.Valid() && p.width == p.height == 32768 && r == TooLarge
  {
    p := Picture(32768, 32768, 2, seq(0x4000_0000, _ => [0, 0]));
    r := WriteAndLoad(p);
  }
}
