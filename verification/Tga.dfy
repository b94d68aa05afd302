/** The run-length form of TGA pictures: packets of pixels, bottom row first, blue before red. */
module Tga {
  import opened Wrappers
  import opened Bits

  type Pixel = seq<byte>

  /** The bytes of a pixel as they stand in the file: colours reversed, alpha last. */
  function Stored(p: Pixel): (q: Pixel)
    ensures |q| == |p|
  {
    if |p| < 3 then p else [p[2], p[1], p[0]] + p[3..]
  }

  lemma StoredTwice(p: Pixel)
    ensures Stored(Stored(p)) == p
  {
  }

  /** Pixels that differ, or one pixel repeated. */
  datatype Packet = Raw(pixels: seq<Pixel>) | Run(pixel: Pixel, count: nat)

  function Repeated(p: Pixel, n: nat): seq<Pixel> {
    seq(n, _ => p)
  }

  function Pixels(k: Packet): seq<Pixel> {
    match k
    case Raw(ps) => ps
    case Run(p, n) => Repeated(p, n)
  }

  function AllStored(ps: seq<Pixel>): seq<byte> {
    if ps == [] then [] else AllStored(ps[..|ps| - 1]) + Stored(ps[|ps| - 1])
  }

  /** A packet has from 1 to 128 pixels of `comp` bytes. */
  predicate Fits(k: Packet, comp: nat) {
    1 <= |Pixels(k)| <= 128 && forall i :: 0 <= i < |Pixels(k)| ==> |Pixels(k)[i]| == comp
  }

  /** The packet in the file: the count less one, with the top bit for a run, then the pixels it holds. */
  function Encoded(k: Packet): seq<byte> {
    match k
    case Raw(ps) => [(|ps| + 255) % 256] + AllStored(ps)
    case Run(p, n) => [(n + 127) % 256] + Stored(p)
  }

  ghost predicate AllFit(ks: seq<Packet>, comp: nat) {
    forall i :: 0 <= i < |ks| ==> Fits(ks[i], comp)
  }

  function Expanded(ks: seq<Packet>): seq<Pixel> {
    if ks == [] then [] else Pixels(ks[0]) + Expanded(ks[1..])
  }

  function Stream(ks: seq<Packet>): seq<byte> {
    if ks == [] then [] else Encoded(ks[0]) + Stream(ks[1..])
  }

  lemma StreamFront(ks: seq<Packet>)
    requires ks != []
    ensures Stream(ks) == Encoded(ks[0]) + Stream(ks[1..]) && Expanded(ks) == Pixels(ks[0]) + Expanded(ks[1..])
  {
  }

  lemma {:induction false} StreamMore(ks: seq<Packet>, more: seq<Packet>)
    ensures Stream(ks + more) == Stream(ks) + Stream(more) && Expanded(ks + more) == Expanded(ks) + Expanded(more)
  {
    if ks == [] {
      assert ks + more == more;
    } else {
      hide Stream, Expanded;
      assert (ks + more)[1..] == ks[1..] + more;
      StreamMore(ks[1..], more);
      StreamFront(ks);
      StreamFront(ks + more);
      Assoc(Encoded(ks[0]), Stream(ks[1..]), Stream(more));
      Assoc(Pixels(ks[0]), Expanded(ks[1..]), Expanded(more));
    }
  }

  lemma StreamOne(k: Packet)
    ensures Stream([k]) == Encoded(k) && Expanded([k]) == Pixels(k)
  {
    assert [k][1..] == [];
  }

  // ----- writing

  /** One pixel: colours in reverse, then alpha if there is one. */
  method WritePixel(comp: nat, hasAlpha: bool, d: Pixel) returns (out: seq<byte>)
    requires 1 <= comp <= 4 && |d| == comp && hasAlpha == (comp == 2 || comp == 4)
    ensures out == Stored(d)
  {
    if comp <= 2 {
      out := [d[0]];
    } else {
      out := [d[2], d[1], d[0]];
    }
    if hasAlpha {
      out := out + [d[comp - 1]];
    }
  }

  /** How far the packet that begins at `i` reaches. A scan for differing pixels compares pixels two apart. */
  method ScanPacket(row: seq<Pixel>, i: nat) returns (len: nat, diff: bool)
    requires i < |row|
    ensures 1 <= len <= 128 && i + len <= |row|
    ensures !diff <==> i + 1 < |row| && row[i] == row[i + 1]
    ensures !diff ==>
      (forall k :: i <= k < i + len ==> row[k] == row[i]) && (len == 128 || i + len == |row| || row[i + len] != row[i])
    ensures diff ==> forall k :: i <= k < i + len - 2 ==> row[k] != row[k + 2]
  {
    len, diff := 1, true;
    if i < |row| - 1 {
      len := len + 1;
      diff := row[i] != row[i + 1];
      if diff {
        len := ScanDiffering(row, i);
      } else {
        len := ScanEqual(row, i);
      }
    }
  }

  method ScanDiffering(row: seq<Pixel>, i: nat) returns (len: nat)
    requires i + 1 < |row|
    ensures 1 <= len <= 128 && i + len <= |row| && forall k :: i <= k < i + len - 2 ==> row[k] != row[k + 2]
    ensures len == 128 || i + len == |row| || (i + len + 1 < |row| && row[i + len - 1] == row[i + len + 1])
  {
    len := 2;
    var prev := i;
    var k := i + 2;
    while k < |row| && len < 128
      invariant 2 <= len <= 128 && k == i + len == prev + 2 <= |row|
      invariant forall k :: i <= k < i + len - 2 ==> row[k] != row[k + 2]
    {
      if row[prev] != row[k] {
        prev := prev + 1;
        len := len + 1;
      } else {
        len := len - 1;
        break;
      }
      k := k + 1;
    }
  }

  method ScanEqual(row: seq<Pixel>, i: nat) returns (len: nat)
    requires i + 1 < |row| && row[i] == row[i + 1]
    ensures 1 <= len <= 128 && i + len <= |row| && forall k :: i <= k < i + len ==> row[k] == row[i]
    ensures len == 128 || i + len == |row| || row[i + len] != row[i]
  {
    len := 2;
    var k := i + 2;
    while k < |row| && len < 128
      invariant 2 <= len <= 128 && k == i + len <= |row| && forall k :: i <= k < i + len ==> row[k] == row[i]
    {
      if row[i] == row[k] {
        len := len + 1;
      } else {
        break;
      }
      k := k + 1;
    }
  }

  predicate AllSized(row: seq<Pixel>, comp: nat) {
    forall i :: 0 <= i < |row| ==> |row[i]| == comp
  }

  /** The packet written for `len` pixels from `i` on. */
  function PacketOf(row: seq<Pixel>, i: nat, len: nat, diff: bool): Packet
    requires 1 <= len && i + len <= |row|
  {
    if diff then Raw(row[i..i + len]) else Run(row[i], len)
  }

  lemma PacketCovers(row: seq<Pixel>, i: nat, len: nat, diff: bool, comp: nat)
    requires AllSized(row, comp) && 1 <= len <= 128 && i + len <= |row|
    requires !diff ==> forall k :: i <= k < i + len ==> row[k] == row[i]
    ensures Pixels(PacketOf(row, i, len, diff)) == row[i..i + len] && Fits(PacketOf(row, i, len, diff), comp)
  {
    if !diff {
      assert Repeated(row[i], len) == row[i..i + len];
    }
  }

  method WritePacket(row: seq<Pixel>, i: nat, len: nat, diff: bool, comp: nat) returns (out: seq<byte>)
    requires 1 <= comp <= 4 && AllSized(row, comp) && 1 <= len <= 128 && i + len <= |row|
    ensures out == Encoded(PacketOf(row, i, len, diff))
  {
    hide Stored, AllStored;
    var hasAlpha := comp == 2 || comp == 4;
    if diff {
      var pixels := WriteRaw(row[i..i + len], comp, hasAlpha);
      out := [len - 1] + pixels;
    } else {
      var b := WritePixel(comp, hasAlpha, row[i]);
      out := [len + 127] + b;
    }
  }

  method WriteRaw(ps: seq<Pixel>, comp: nat, hasAlpha: bool) returns (out: seq<byte>)
    requires 1 <= comp <= 4 && AllSized(ps, comp) && hasAlpha == (comp == 2 || comp == 4)
    ensures out == AllStored(ps)
  {
    hide Stored;
    out := [];
    for k := 0 to |ps|
      invariant out == AllStored(ps[..k])
    {
      var b := WritePixel(comp, hasAlpha, ps[k]);
      assert ps[..k + 1][..k] == ps[..k];
      out := out + b;
    }
    assert ps[..|ps|] == ps;
  }

  /** A row as packets that cover it exactly, whatever the scan found. */
  method WriteRow(row: seq<Pixel>, comp: nat) returns (out: seq<byte>, ghost ks: seq<Packet>)
    requires 1 <= comp <= 4 && AllSized(row, comp)
    ensures AllFit(ks, comp) && out == Stream(ks) && Expanded(ks) == row
  {
    hide Stream, Expanded, Pixels, Encoded, PacketOf, Fits;
    out, ks := [], [];
    NoPackets();
    var i := 0;
    while i < |row|
      invariant i <= |row| && AllFit(ks, comp) && out == Stream(ks) && Expanded(ks) == row[..i]
      decreases |row| - i
    {
      var len, diff := ScanPacket(row, i);
      var b := WritePacket(row, i, len, diff, comp);
      ghost var k := PacketOf(row, i, len, diff);
      PacketCovers(row, i, len, diff, comp);
      StreamMore(ks, [k]);
      StreamOne(k);
      assert row[..i] + row[i..i + len] == row[..i + len];
      out, ks := out + b, ks + [k];
      i := i + len;
    }
    assert row[..|row|] == row;
  }

  lemma NoPackets()
    ensures Stream([]) == [] && Expanded([]) == []
  {
  }

  // ----- whole pictures

  lemma RowInside(width: nat, height: nat, j: nat)
    requires j < height
    ensures 0 <= width * j && width * j + width <= width * height
  {
    MulDistrib(j, 1, width);
    MulMonotone(width, j + 1, height);
  }

  function RowAt(ps: seq<Pixel>, width: nat, height: nat, j: nat): (r: seq<Pixel>)
    requires j < height && |ps| == width * height
    ensures |r| == width && width * j + width <= |ps|
  {
    RowInside(width, height, j);
    ps[width * j..width * j + width]
  }

  /** Rows of `width` pixels of `comp` bytes, the top row first. */
  datatype Picture = Picture(width: nat, height: nat, comp: nat, pixels: seq<Pixel>) {
    ghost predicate Valid() {
      1 <= comp <= 4 && |pixels| == width * height && AllSized(pixels, comp)
    }

    function Row(j: nat): (r: seq<Pixel>)
      requires j < height && |pixels| == width * height
    {
      RowAt(pixels, width, height, j)
    }

    /** The rows from the bottom one up to row `j`, which comes last. */
    function FromBottom(j: nat): (ps: seq<Pixel>)
      requires j <= height && |pixels| == width * height
      ensures |ps| == width * (height - j)
      decreases height - j
    {
      if j == height then [] else
        MulDistrib(height - j - 1, 1, width);
        FromBottom(j + 1) + Row(j)
    }
  }

  /** The eighteen bytes before the pixels. */
  function Header(width: nat, height: nat, comp: nat): (h: seq<byte>)
    requires 1 <= comp <= 4
    ensures |h| == 18
  {
    [0, 0, if comp < 3 then 11 else 10, 0, 0, 0, 0, 0, 0, 0, 0, 0]
    + [width % 256, width / 256 % 256, height % 256, height / 256 % 256, comp * 8, if comp % 2 == 0 then 8 else 0]
  }

  method WriteHeader(width: nat, height: nat, comp: nat) returns (out: seq<byte>)
    requires 1 <= comp <= 4
    ensures out == Header(width, height, comp)
  {
    var hasAlpha := if comp == 2 || comp == 4 then 1 else 0;
    var colorBytes := if hasAlpha == 1 then comp - 1 else comp;
    var format := if colorBytes < 2 then 3 else 2;
    out := [0, 0, format + 8, 0, 0, 0, 0, 0, 0, 0, 0, 0]
      + [width % 256, width / 256 % 256, height % 256, height / 256 % 256, (colorBytes + hasAlpha) * 8, hasAlpha * 8];
  }

  /** The header, then packets that hold the rows from the bottom up. */
  method WriteTga(p: Picture) returns (out: seq<byte>, ghost ks: seq<Packet>)
    requires p.Valid()
    ensures AllFit(ks, p.comp) && out == Header(p.width, p.height, p.comp) + Stream(ks)
    ensures Expanded(ks) == p.FromBottom(0)
  {
    hide Stream, Expanded, Fits, Header;
    var header := WriteHeader(p.width, p.height, p.comp);
    out, ks := header, [];
    NoPackets();
    var j: nat := p.height;
    while j > 0
      invariant j <= p.height && AllFit(ks, p.comp)
      invariant out == header + Stream(ks) && Expanded(ks) == p.FromBottom(j)
    {
      j := j - 1;
      var b;
      ghost var more;
      b, more := WriteRow(p.Row(j), p.comp);
      StreamMore(ks, more);
      Assoc(header, Stream(ks), Stream(more));
      out, ks := out + b, ks + more;
    }
  }

  /** The file of one pixel without alpha, byte by byte: a run-length true-colour picture of twenty-four bits, one
      packet of one pixel, of either kind, and blue, green and red. */
  method OnePixelFile(r: byte, g: byte, b: byte) returns (file: seq<byte>)
    ensures |file| == 22
    ensures file[..18] == [0, 0, 10, 0, 0, 0, 0, 0, 0, 0, 0, 0, 1, 0, 1, 0, 24, 0]
    ensures file[18] == 0 || file[18] == 128
    ensures file[19..] == [b, g, r]
  {
    hide Stream, Expanded;
    var p := Picture(1, 1, 3, [[r, g, b]]);
    ghost var ks;
    file, ks := WriteTga(p);
    assert p.FromBottom(1) == [] && p.FromBottom(0) == [] + p.Row(0);
    assert p.FromBottom(0) == [[r, g, b]];
    OnlyPacket(ks, [r, g, b]);
    assert file[..18] == Header(1, 1, 3);
  }

  lemma {:induction false} PacketsHold(ks: seq<Packet>, comp: nat)
    requires AllFit(ks, comp)
    ensures |Expanded(ks)| >= |ks|
  {
    if ks != [] {
      hide Fits, Pixels;
      PacketsHold(ks[1..], comp);
      assert |Pixels(ks[0])| >= 1 by {
        FitsSome(ks[0], comp);
      }
    }
  }

  lemma FitsSome(k: Packet, comp: nat)
    requires Fits(k, comp)
    ensures |Pixels(k)| >= 1
  {
  }

  /** Packets that hold a single pixel. */
  lemma OnlyPacket(ks: seq<Packet>, p: Pixel)
    requires AllFit(ks, |p|) && Expanded(ks) == [p]
    ensures Stream(ks) == [0] + Stored(p) || Stream(ks) == [128] + Stored(p)
  {
    hide Stream, Expanded;
    PacketsHold(ks, |p|);
    NoPackets();
    assert ks == [ks[0]];
    StreamOne(ks[0]);
    match ks[0]
    case Raw(ps) =>
      assert ps == [p] && ps[..0] == [];
      assert AllStored(ps) == Stored(p);
    case Run(q, n) =>
      assert n == 1 && q == [p][0];
  }
}
