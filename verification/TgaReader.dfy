/** Loading run-length coded TGA pictures. */
module TgaReader {
  import opened Words
  import opened Wrappers
  import opened Bits
  import opened Sizes
  import opened Tga

  datatype Outcome = Loaded(picture: Picture) | UnknownType | BadFormat | TooLarge | OutsideModel

  // ----- bytes and pixels of the file; a read past the end gives 0

  function Get16(data: seq<byte>, pos: nat): nat {
    ByteAt(data, pos) + 256 * ByteAt(data, pos + 1)
  }

  function PixelAt(data: seq<byte>, pos: nat, comp: nat): Pixel {
    seq<byte>(comp, j requires 0 <= j < comp => ByteAt(data, pos + j))
  }

  method ReadPixel(data: seq<byte>, pos: nat, comp: nat) returns (p: Pixel)
    ensures p == PixelAt(data, pos, comp) && |p| == comp
  {
    p := [];
    for j := 0 to comp
      invariant p == PixelAt(data, pos, comp)[..j]
    {
      p := p + [ByteAt(data, pos + j)];
    }
  }

  // ----- packets, one at a time

  function Min(a: nat, b: nat): nat {
    if a < b then a else b
  }

  /** `n` pixels that stand one after the other. */
  function RawPixels(data: seq<byte>, pos: nat, n: nat, comp: nat): (ps: seq<Pixel>)
    ensures |ps| == n
    decreases n
  {
    if n == 0 then [] else [PixelAt(data, pos, comp)] + RawPixels(data, pos + comp, n - 1, comp)
  }

  /** The first `n` pixels of the packets from `pos` on. */
  function Decoded(data: seq<byte>, pos: nat, n: nat, comp: nat): (ps: seq<Pixel>)
    ensures |ps| == n
    decreases n
  {
    if n == 0 then [] else
      var m := Min(1 + ByteAt(data, pos) % 128, n);
      if ByteAt(data, pos) >= 128
      then Repeated(PixelAt(data, pos + 1, comp), m) + Decoded(data, pos + 1 + comp, n - m, comp)
      else RawPixels(data, pos + 1, m, comp) + Decoded(data, pos + 1 + m * comp, n - m, comp)
  }

  /** The next `n` pixels when the packet at hand has `count` more: the pixel it repeats, or those from `pos` on. */
  function Coming(data: seq<byte>, pos: nat, n: nat, comp: nat, count: nat, repeating: bool, pixel: Pixel)
    : (ps: seq<Pixel>)
    ensures |ps| == n
  {
    var m := Min(count, n);
    if repeating then Repeated(pixel, m) + Decoded(data, pos, n - m, comp)
    else RawPixels(data, pos, m, comp) + Decoded(data, pos + m * comp, n - m, comp)
  }

  lemma DecodedPacket(data: seq<byte>, pos: nat, n: nat, comp: nat)
    requires ByteAt(data, pos) % 128 < n
    ensures var m := 1 + ByteAt(data, pos) % 128;
            Decoded(data, pos, n, comp) == if ByteAt(data, pos) >= 128
              then Repeated(PixelAt(data, pos + 1, comp), m) + Decoded(data, pos + 1 + comp, n - m, comp)
              else RawPixels(data, pos + 1, m, comp) + Decoded(data, pos + 1 + m * comp, n - m, comp)
  {
    hide PixelAt, ByteAt, RawPixels, Repeated;
  }

  /** Past its first byte a packet of raw pixels stands at `pos + 1`, and a run at the end of its pixel. */
  lemma PacketOpened(data: seq<byte>, pos: nat, n: nat, comp: nat)
    requires 0 < n
    ensures var count := 1 + ByteAt(data, pos) % 128;
            var p := PixelAt(data, pos + 1, comp);
            Decoded(data, pos, n, comp) == if ByteAt(data, pos) >= 128
              then Coming(data, pos + 1 + comp, n, comp, count, true, p)
              else Coming(data, pos + 1, n, comp, count, false, p)
  {
    hide PixelAt, ByteAt, RawPixels, Repeated;
  }

  lemma PacketBegins(data: seq<byte>, pos: nat, n: nat, comp: nat, repeating: bool, pixel: Pixel)
    requires 0 < n
    ensures var cmd := ByteAt(data, pos);
            var p := PixelAt(data, pos + 1, comp);
            Coming(data, pos, n, comp, 0, repeating, pixel)
            == [p] + Coming(data, pos + 1 + comp, n - 1, comp, cmd % 128, cmd >= 128, p)
  {
    hide Decoded, Coming, PixelAt, ByteAt, RawPixels, Repeated;
    var count := 1 + ByteAt(data, pos) % 128;
    var p := PixelAt(data, pos + 1, comp);
    NothingRead(data, pos, n, comp, repeating, pixel);
    PacketOpened(data, pos, n, comp);
    if ByteAt(data, pos) >= 128 {
      RunNext(data, pos + 1 + comp, n, comp, count, p);
    } else {
      RawNext(data, pos + 1, n, comp, count, p);
    }
  }

  lemma RepeatedNext(p: Pixel, m: nat)
    requires 0 < m
    ensures Repeated(p, m) == [p] + Repeated(p, m - 1)
  {
  }

  /** One pixel less of a packet of raw pixels. */
  lemma RawNext(data: seq<byte>, pos: nat, n: nat, comp: nat, count: nat, pixel: Pixel)
    requires 0 < n && 0 < count
    ensures Coming(data, pos, n, comp, count, false, pixel)
         == [PixelAt(data, pos, comp)]
            + Coming(data, pos + comp, n - 1, comp, count - 1, false, PixelAt(data, pos, comp))
  {
    hide Decoded, PixelAt;
    var m := Min(count, n);
    MulDistrib(m - 1, 1, comp);
    Assoc([PixelAt(data, pos, comp)], RawPixels(data, pos + comp, m - 1, comp),
      Decoded(data, pos + m * comp, n - m, comp));
  }

  lemma RunNext(data: seq<byte>, pos: nat, n: nat, comp: nat, count: nat, pixel: Pixel)
    requires 0 < n && 0 < count
    ensures Coming(data, pos, n, comp, count, true, pixel)
         == [pixel] + Coming(data, pos, n - 1, comp, count - 1, true, pixel)
  {
    hide Decoded;
    var m := Min(count, n);
    RepeatedNext(pixel, m);
    Assoc([pixel], Repeated(pixel, m - 1), Decoded(data, pos, n - m, comp));
  }

  /** One step: the next pixel, of a new packet if the last one is used up. */
  method NextPixel(data: seq<byte>, pos: nat, ghost n: nat, comp: nat, count: nat, repeating: bool, pixel: Pixel)
    returns (pos': nat, count': nat, repeating': bool, pixel': Pixel)
    requires 0 < n && (0 < count ==> |pixel| == comp)
    ensures |pixel'| == comp
    ensures Coming(data, pos, n, comp, count, repeating, pixel)
         == [pixel'] + Coming(data, pos', n - 1, comp, count', repeating', pixel')
  {
    hide Decoded, Coming, PixelAt, ByteAt;
    pos', count', repeating', pixel' := pos, count, repeating, pixel;
    var readNext := false;
    if count == 0 {
      PacketBegins(data, pos, n, comp, repeating, pixel);
      var cmd := ByteAt(data, pos);
      pos' := pos + 1;
      count' := 1 + cmd % 128;
      repeating' := cmd >= 128;
      readNext := true;
    } else if !repeating {
      RawNext(data, pos, n, comp, count, pixel);
      readNext := true;
    } else {
      RunNext(data, pos, n, comp, count, pixel);
    }
    if readNext {
      pixel' := ReadPixel(data, pos', comp);
      pos' := pos' + comp;
    }
    count' := count' - 1;
  }

  /** The loading loop: one pixel a step, with a packet's count, kind and pixel carried along. */
  method ReadPixels(data: seq<byte>, start: nat, n: nat, comp: nat) returns (a: array<Pixel>)
    ensures a.Length == n && fresh(a) && a[..] == Decoded(data, start, n, comp) && AllSized(a[..], comp)
  {
    hide Decoded, Coming, PixelAt, ByteAt;
    a := new Pixel[n](_ => []);
    var pos, count, repeating, pixel := start, 0, false, [];
    NothingRead(data, pos, n, comp, repeating, pixel);
    for i := 0 to n
      invariant 0 <= pos && 0 <= count && (0 < count ==> |pixel| == comp) && AllSized(a[..i], comp)
      invariant Decoded(data, start, n, comp) == a[..i] + Coming(data, pos, n - i, comp, count, repeating, pixel)
    {
      ghost var was := a[..i];
      pos, count, repeating, pixel := NextPixel(data, pos, n - i, comp, count, repeating, pixel);
      a[i] := pixel;
      assert a[..i + 1] == was + [pixel];
      Assoc(was, [pixel], Coming(data, pos, n - i - 1, comp, count, repeating, pixel));
    }
    NothingLeft(data, pos, comp, count, repeating, pixel);
    assert a[..n] == a[..];
  }

  lemma NothingRead(data: seq<byte>, pos: nat, n: nat, comp: nat, repeating: bool, pixel: Pixel)
    ensures Coming(data, pos, n, comp, 0, repeating, pixel) == Decoded(data, pos, n, comp)
  {
    assert 0 * comp == 0;
  }

  lemma NothingLeft(data: seq<byte>, pos: nat, comp: nat, count: nat, repeating: bool, pixel: Pixel)
    ensures Coming(data, pos, 0, comp, count, repeating, pixel) == []
  {
  }

  // ----- rows in place

  predicate Apart(p: nat, q: nat, width: nat) {
    p == q || p + width <= q || q + width <= p
  }

  /** Where the element at `k` comes from when `n` elements from `p` on and from `q` on change places. */
  function SwapIndex(p: nat, q: nat, n: nat, k: nat): nat {
    if p <= k < p + n then q + k - p else if q <= k < q + n then p + k - q else k
  }

  ghost predicate Swapped(now: seq<Pixel>, was: seq<Pixel>, p: nat, q: nat, n: nat)
    requires |now| == |was| && p + n <= |was| && q + n <= |was|
  {
    forall k :: 0 <= k < |now| ==> now[k] == was[SwapIndex(p, q, n, k)]
  }

  lemma NothingSwapped(was: seq<Pixel>, p: nat, q: nat)
    requires p <= |was| && q <= |was|
    ensures Swapped(was, was, p, q, 0)
  {
  }

  method SwapRows(a: array<Pixel>, p: nat, q: nat, width: nat)
    requires p + width <= a.Length && q + width <= a.Length && Apart(p, q, width)
    modifies a
    ensures Swapped(a[..], old(a[..]), p, q, width)
  {
    hide Swapped;
    NothingSwapped(a[..], p, q);
    for i := 0 to width
      invariant Swapped(a[..], old(a[..]), p, q, i)
    {
      ghost var now := a[..];
      a[p + i], a[q + i] := a[q + i], a[p + i];
      SwapOneMore(a[..], now, old(a[..]), p, q, i, width);
    }
  }

  lemma SwapOneMore(next: seq<Pixel>, now: seq<Pixel>, was: seq<Pixel>, p: nat, q: nat, i: nat, width: nat)
    requires |now| == |was| && p + width <= |was| && q + width <= |was| && Apart(p, q, width) && i < width
    requires next == now[p + i := now[q + i]][q + i := now[p + i]] && Swapped(now, was, p, q, i)
    ensures Swapped(next, was, p, q, i + 1)
  {
  }

  /** Row `r` of `now` is row `r` of `was`, or its mirror image when it is one of the `done` outermost rows on a
      side. */
  ghost predicate Mirrored(now: seq<Pixel>, was: seq<Pixel>, width: nat, height: nat, done: nat, r: nat)
    requires |now| == width * height && |was| == width * height && r < height
  {
    RowAt(now, width, height, r) == RowAt(was, width, height,
        if r < done || r >= height - done then height - 1 - r else r)
  }

  ghost predicate AllMirrored(now: seq<Pixel>, was: seq<Pixel>, width: nat, height: nat, done: nat)
    requires |now| == width * height && |was| == width * height
  {
    forall r :: 0 <= r < height ==> Mirrored(now, was, width, height, done, r)
  }

  lemma RowsApart(width: nat, height: nat, i: nat, j: nat)
    requires i < height && j < height
    ensures Apart(width * i, width * j, width) && width * i + width <= width * height
    ensures width * j + width <= width * height
  {
    RowInside(width, height, i);
    RowInside(width, height, j);
    if i < j {
      RowInside(width, j, i);
    } else if j < i {
      RowInside(width, i, j);
    }
  }

  /** The rows `j` from the top and from the bottom change places. */
  lemma RowSwapped(next: seq<Pixel>, now: seq<Pixel>, width: nat, height: nat, j: nat, r: nat)
    requires |next| == |now| == width * height && r < height && j < height
    requires 0 <= width * j && 0 <= width * (height - 1 - j)
    requires width * j + width <= |now| && width * (height - 1 - j) + width <= |now|
    requires Swapped(next, now, width * j, width * (height - 1 - j), width)
    ensures RowAt(next, width, height, r)
         == RowAt(now, width, height, if r == j then height - 1 - j else if r == height - 1 - j then j else r)
  {
    hide Swapped, Apart, RowAt;
    var i := height - 1 - j;
    var p, q, k := width * j, width * i, width * r;
    RowsApart(width, height, j, r);
    RowsApart(width, height, i, r);
    SameRow(width, j, r);
    SameRow(width, i, r);
    RowMoves(next, now, p, q, width, k, r == j, r == i);
    RowIsSlice(next, width, height, r, k);
    if r == j {
      RowIsSlice(now, width, height, i, q);
    } else if r == i {
      RowIsSlice(now, width, height, j, p);
    } else {
      RowIsSlice(now, width, height, r, k);
    }
  }

  lemma RowIsSlice(s: seq<Pixel>, width: nat, height: nat, r: nat, k: nat)
    requires |s| == width * height && r < height && k == width * r && k + width <= |s|
    ensures RowAt(s, width, height, r) == s[k..k + width] && (width == 0 ==> RowAt(s, width, height, r) == [])
  {
  }

  lemma MirrorStep(next: seq<Pixel>, now: seq<Pixel>, was: seq<Pixel>, width: nat, height: nat, j: nat, r: nat)
    requires |next| == |now| == |was| == width * height && r < height && j * 2 < height
    requires Mirrored(now, was, width, height, j, r) && Mirrored(now, was, width, height, j, height - 1 - r)
    requires 0 <= width * j && 0 <= width * (height - 1 - j)
    requires width * j + width <= |was| && width * (height - 1 - j) + width <= |was|
    requires Swapped(next, now, width * j, width * (height - 1 - j), width)
    ensures Mirrored(next, was, width, height, j + 1, r)
  {
    hide Swapped, RowAt;
    RowSwapped(next, now, width, height, j, r);
  }

  lemma MirrorMore(next: seq<Pixel>, now: seq<Pixel>, was: seq<Pixel>, width: nat, height: nat, j: nat)
    requires |next| == |now| == |was| == width * height && j * 2 < height && AllMirrored(now, was, width, height, j)
    requires 0 <= width * j && 0 <= width * (height - 1 - j)
    requires width * j + width <= |was| && width * (height - 1 - j) + width <= |was|
    requires Swapped(next, now, width * j, width * (height - 1 - j), width)
    ensures AllMirrored(next, was, width, height, j + 1)
  {
    hide Swapped;
    var done := j + 1;
    forall r | 0 <= r < height ensures Mirrored(next, was, width, height, done, r) {
      MirrorStep(next, now, was, width, height, j, r);
    }
  }

  lemma SameRow(width: nat, i: nat, j: nat)
    ensures 0 < width && width * i == width * j ==> i == j
  {
    if i < j {
      RowInside(width, j, i);
    } else if j < i {
      RowInside(width, i, j);
    }
  }

  /** What a swap makes of a row that is one of the two, or apart from both. */
  lemma RowMoves(next: seq<Pixel>, now: seq<Pixel>, p: nat, q: nat, n: nat, k: nat, isP: bool, isQ: bool)
    requires |next| == |now| && p + n <= |now| && q + n <= |now| && k + n <= |now| && Swapped(next, now, p, q, n)
    requires Apart(p, k, n) && Apart(q, k, n)
    requires (isP ==> k == p) && (isQ ==> k == q) && (n > 0 ==> (k == p ==> isP) && (k == q ==> isQ))
    ensures next[k..k + n] == if isP then now[q..q + n] else if isQ then now[p..p + n] else now[k..k + n]
  {
  }

  lemma SwapKeepsSize(next: seq<Pixel>, now: seq<Pixel>, p: nat, q: nat, n: nat, comp: nat)
    requires |next| == |now| && p + n <= |now| && q + n <= |now| && Swapped(next, now, p, q, n) && AllSized(now, comp)
    ensures AllSized(next, comp)
  {
  }

  method InvertRows(a: array<Pixel>, width: nat, height: nat, ghost comp: nat)
    requires a.Length == width * height && AllSized(a[..], comp)
    modifies a
    ensures AllSized(a[..], comp) && AllMirrored(a[..], old(a[..]), width, height, height)
  {
    hide Mirrored, Swapped;
    ghost var was := a[..];
    var j := 0;
    Unmirrored(was, width, height);
    while j * 2 < height
      invariant 0 <= j && j * 2 <= height + 1
      invariant AllMirrored(a[..], was, width, height, j) && AllSized(a[..], comp)
    {
      ghost var now := a[..];
      RowsApart(width, height, j, height - 1 - j);
      SwapRows(a, width * j, width * (height - 1 - j), width);
      MirrorMore(a[..], now, was, width, height, j);
      SwapKeepsSize(a[..], now, width * j, width * (height - 1 - j), width, comp);
      j := j + 1;
    }
    MirrorDone(a[..], was, width, height, j);
  }

  lemma Unmirrored(was: seq<Pixel>, width: nat, height: nat)
    requires |was| == width * height
    ensures AllMirrored(was, was, width, height, 0)
  {
  }

  lemma MirrorDone(now: seq<Pixel>, was: seq<Pixel>, width: nat, height: nat, done: nat)
    requires |now| == |was| == width * height && done * 2 >= height
    requires AllMirrored(now, was, width, height, done)
    ensures AllMirrored(now, was, width, height, height)
  {
    forall r | 0 <= r < height ensures Mirrored(now, was, width, height, height, r) {
      assert Mirrored(now, was, width, height, done, r);
    }
  }

  function StoredPixels(ps: seq<Pixel>): (qs: seq<Pixel>)
    ensures |qs| == |ps| && forall k :: 0 <= k < |ps| ==> qs[k] == Stored(ps[k])
  {
    seq(|ps|, k requires 0 <= k < |ps| => Stored(ps[k]))
  }

  /** The first and third byte of every pixel change places. */
  method SwapColours(a: array<Pixel>, comp: nat)
    requires AllSized(a[..], comp)
    modifies a
    ensures a[..] == StoredPixels(old(a[..])) && AllSized(a[..], comp)
  {
    if comp >= 3 {
      for i := 0 to a.Length
        invariant forall k :: 0 <= k < a.Length ==> a[k] == if k < i then Stored(old(a[k])) else old(a[k])
      {
        a[i] := [a[i][2], a[i][1], a[i][0]] + a[i][3..];
      }
    }
  }

  lemma MirrorStored(now: seq<Pixel>, was: seq<Pixel>, width: nat, height: nat)
    requires |now| == |was| == width * height && AllMirrored(now, was, width, height, height)
    ensures AllMirrored(StoredPixels(now), StoredPixels(was), width, height, height)
  {
    forall r | 0 <= r < height ensures Mirrored(StoredPixels(now), StoredPixels(was), width, height, height, r) {
      assert Mirrored(now, was, width, height, height, r);
      RowStored(now, width, height, r);
      RowStored(was, width, height, height - 1 - r);
    }
  }

  lemma RowStored(ps: seq<Pixel>, width: nat, height: nat, j: nat)
    requires |ps| == width * height && j < height
    ensures RowAt(StoredPixels(ps), width, height, j) == StoredPixels(RowAt(ps, width, height, j))
  {
  }

  // ----- the whole file

  /** Bytes of a pixel, 0 for none, and whether five bits stand for a colour. */
  function GetComp(bits: nat, isGrey: bool): (nat, bool) {
    if bits == 8 then (1, false)
    else if bits == 16 && isGrey then (2, false)
    else if bits == 16 || bits == 15 then (3, true)
    else if bits == 24 then (3, false)
    else if bits == 32 then (4, false)
    else (0, false)
  }

  /** Every pixel of the picture, from the packets and the flags of the file. */
  ghost predicate Shows(p: Picture, data: seq<byte>, start: nat, inverted: bool) {
    && p.Valid()
    && var stored := StoredPixels(Decoded(data, start, p.width * p.height, p.comp));
       if inverted then AllMirrored(p.pixels, stored, p.width, p.height, p.height) else p.pixels == stored
  }

  /** What becomes of a file: run-length coded pictures of 1 to 4 plain components are loaded, their rows bottom up
      unless bit 5 of the header's last byte is set. */
  ghost predicate IsLoadOf(data: seq<byte>, r: Outcome) {
    var type8 := ByteAt(data, 2) >= 8;
    var grey := ByteAt(data, 2) == if type8 then 11 else 3;
    var comp := if ByteAt(data, 1) != 0 then GetComp(ByteAt(data, 7), false) else GetComp(ByteAt(data, 16), grey);
    var w := Get16(data, 12);
    var h := Get16(data, 14);
    match r
    case UnknownType => false
    case BadFormat => comp.0 == 0
    case TooLarge => comp.0 != 0 && w * h * comp.0 > INT_MAX
    case OutsideModel => comp.0 != 0 && w * h * comp.0 <= INT_MAX && (ByteAt(data, 1) != 0 || !type8 || comp.1)
    case Loaded(p) =>
      && w * h * comp.0 <= INT_MAX && ByteAt(data, 1) == 0 && type8 && !comp.1
      && (p.width, p.height, p.comp) == (w, h, comp.0)
      && Shows(p, data, 18 + ByteAt(data, 0), ByteAt(data, 17) / 32 % 2 == 0)
  }

  method LoadTga(data: seq<byte>) returns (r: Outcome)
    ensures IsLoadOf(data, r)
  {
    hide Decoded, AllMirrored, StoredPixels, ByteAt;
    var offset: nat := ByteAt(data, 0);
    var indexed := ByteAt(data, 1);
    var imageType: int := ByteAt(data, 2);
    var paletteBits := ByteAt(data, 7);
    var width, height := Get16(data, 12), Get16(data, 14);
    var bits := ByteAt(data, 16);
    var inverted: int := 1 - ByteAt(data, 17) / 32 % 2;
    var isRle := false;
    if imageType >= 8 {
      imageType := imageType - 8;
      isRle := true;
    }
    var (comp, rgb16) := if indexed != 0 then GetComp(paletteBits, false) else GetComp(bits, imageType == 3);
    if comp == 0 {
      return BadFormat;
    }
    Mad3SizesFit(width, height, comp, 0);
    if !Mad3SizesValid(width, height, comp, 0) {
      return TooLarge;
    }
    if indexed != 0 || !isRle || rgb16 {
      return OutsideModel;
    }
    var a := ReadPixels(data, 18 + offset, width * height, comp);
    ghost var pixels := a[..];
    if inverted == 1 {
      InvertRows(a, width, height, comp);
      MirrorStored(a[..], pixels, width, height);
    }
    SwapColours(a, comp);
    r := Loaded(Picture(width, height, comp, a[..]));
  }

  // ----- the test before loading

  predicate IsPixelSize(bits: nat) {
    bits == 8 || bits == 15 || bits == 16 || bits == 24 || bits == 32
  }

  /** Whether the header can be that of a TGA file. */
  predicate TgaTest(data: seq<byte>) {
    var indexed := ByteAt(data, 1);
    var imageType := ByteAt(data, 2);
    var bits := ByteAt(data, 16);
    && indexed <= 1
    && (if indexed == 1 then (imageType == 1 || imageType == 9) && IsPixelSize(ByteAt(data, 7))
        else imageType == 2 || imageType == 3 || imageType == 10 || imageType == 11)
    && Get16(data, 12) >= 1 && Get16(data, 14) >= 1
    && (indexed == 1 ==> bits == 8 || bits == 16) && IsPixelSize(bits)
  }

  /** Loads a file that passes the test; pictures without pixels do not, and no file that does is of a format without
      components. */
  method Load(data: seq<byte>) returns (r: Outcome)
    ensures if TgaTest(data) then IsLoadOf(data, r) && r != BadFormat else r == UnknownType
  {
    hide Shows, ByteAt, Get16;
    if TgaTest(data) {
      r := LoadTga(data);
    } else {
      r := UnknownType;
    }
  }
}
