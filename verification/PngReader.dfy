/** Undoing the line filters of a decompressed 8-bit image, with an opaque alpha added on request. */
module PngReader {
  import opened Words
  import opened Wrappers
  import opened Bits
  import opened Sizes
  import opened PngFilter

  const FIRST_ROW_FILTER: seq<nat> := [0, 1, 0, 5, 6]

  /** The filter used on a row: the first row's do not look at the row above. */
  function Used(filter: nat, first: bool): (t: nat)
    requires filter < 5
    ensures t < 7 && (first ==> t != 2 && t != 3 && t != 4) && (!first ==> t == filter)
  {
    if first then FIRST_ROW_FILTER[filter] else filter
  }

  function UndoFirst(t: nat, r: int, up: int): byte
    requires t < 7
  {
    match t
    case 2 => Byte(r + up)
    case 3 => Byte(r + up / 2)
    case 4 => Byte(r + Paeth(0, up, 0))
    case _ => Byte(r)
  }

  function UndoNext(t: nat, r: int, left: int, up: int, corner: int): byte
    requires t < 7
  {
    match t
    case 0 => Byte(r)
    case 1 => Byte(r + left)
    case 2 => Byte(r + up)
    case 3 => Byte(r + (up + left) / 2)
    case 4 => Byte(r + Paeth(left, up, corner))
    case 5 => Byte(r + left / 2)
    case _ => Byte(r + Paeth(left, 0, 0))
  }

  predicate LooksUp(t: nat) {
    t == 2 || t == 3 || t == 4
  }

  lemma UndoFirstIs(filter: nat, first: bool, prev: Row, line: Row, n: nat, done: Row, up: int)
    requires filter < 5 && |done| < |line| && |done| < n && (first ==> prev == [])
    requires LooksUp(Used(filter, first)) ==> up == At(prev, |done|)
    ensures UndoFirst(Used(filter, first), line[|done|], up) == Restored(filter, prev, line, n, done)
  {
  }

  lemma UndoNextIs(filter: nat, first: bool, prev: Row, line: Row, n: nat, done: Row, left: int, up: int, corner: int)
    requires filter < 5 && 0 < n <= |done| < |line| && (first ==> prev == []) && left == done[|done| - n]
    requires LooksUp(Used(filter, first)) ==> up == At(prev, |done|) && corner == At(prev, |done| - n)
    ensures UndoNext(Used(filter, first), line[|done|], left, up, corner) == Restored(filter, prev, line, n, done)
  {
  }

  /** The length of `r` bytes of pixels of `n` bytes, when full pixels take `m`. */
  function WideLength(r: nat, n: nat, m: nat): nat
    requires 0 < n
  {
    if r < n then r else m + WideLength(r - n, n, m)
  }

  /** The bytes of `row` with, after every full pixel of `n` bytes, an opaque alpha if `m` is one more. */
  function Widened(row: Row, n: nat, m: nat): (w: Row)
    requires 0 < n && (m == n || m == n + 1)
    ensures |w| == WideLength(|row|, n, m)
  {
    if |row| < n then row
    else row[..n] + (if m == n then [] else [255]) + Widened(row[n..], n, m)
  }

  lemma {:induction false} WidenedSame(row: Row, n: nat)
    requires 0 < n
    ensures Widened(row, n, n) == row
    decreases |row|
  {
    if |row| >= n {
      WidenedSame(row[n..], n);
    }
  }

  lemma {:induction false} WideLengthOf(x: nat, n: nat, m: nat)
    requires 0 < n
    ensures WideLength(x * n, n, m) == x * m
  {
    if x > 0 {
      MulDistrib(x - 1, 1, n);
      MulDistrib(x - 1, 1, m);
      MulMonotone(n, 1, x);
      WideLengthOf(x - 1, n, m);
    }
  }

  /** One byte more, and alpha if it ends a pixel. */
  lemma {:induction false} WidenedMore(row: Row, b: byte, n: nat, k: nat)
    requires k < n && Partial(|row|, n, k)
    ensures Widened(row + [b], n, n + 1) == Widened(row, n, n + 1) + (if k + 1 == n then [b, 255] else [b])
    decreases |row|
  {
    if |row| >= n {
      assert (row + [b])[n..] == row[n..] + [b] && (row + [b])[..n] == row[..n];
      WidenedMore(row[n..], b, n, k);
    } else if k + 1 == n {
      assert (row + [b])[..n] == row + [b] && (row + [b])[n..] == [];
    }
  }

  /** `r` bytes are full pixels of `n` bytes, and `k` more. */
  predicate Partial(r: nat, n: nat, k: nat)
    requires 0 < n
  {
    if r < n then r == k else Partial(r - n, n, k)
  }

  lemma {:induction false} PartialNext(r: nat, n: nat, k: nat)
    requires k < n && Partial(r, n, k)
    ensures Partial(r + 1, n, if k + 1 == n then 0 else k + 1)
  {
    if r >= n {
      PartialNext(r - n, n, k);
    }
  }

  /** A byte of a row stands where as many bytes before it end. */
  lemma {:induction false} WidenedAt(row: Row, n: nat, m: nat, r: nat)
    requires 0 < n && (m == n || m == n + 1) && r < |row|
    ensures WideLength(r, n, m) < |Widened(row, n, m)| && Widened(row, n, m)[WideLength(r, n, m)] == row[r]
    decreases |row|
  {
    WidenedFront(row, n, m);
    if r >= n {
      hide Widened;
      WidenedAt(row[n..], n, m, r - n);
    }
  }

  /** The first pixel, as it is widened, and the others. */
  lemma WidenedFront(row: Row, n: nat, m: nat)
    requires 0 < n && (m == n || m == n + 1)
    ensures |row| >= n ==> |Widened(row, n, m)| == m + |Widened(row[n..], n, m)|
    ensures |row| >= n ==> Widened(row, n, m)[..n] == row[..n] && Widened(row, n, m)[m..] == Widened(row[n..], n, m)
    ensures |row| < n ==> Widened(row, n, m) == row
  {
  }

  /** The pixel at `c` of `w` is that at `r` of `row`, with an opaque alpha. */
  ghost predicate PixelIs(w: Row, c: nat, row: Row, r: nat, n: nat) {
    c + n < |w| && r + n <= |row| && w[c..c + n] == row[r..r + n] && w[c + n] == 255
  }

  /** Pixel `p` of a widened row. */
  lemma {:induction false} WidenedPixel(row: Row, n: nat, p: nat)
    requires 0 < n && p * n + n <= |row|
    ensures PixelIs(Widened(row, n, n + 1), p * (n + 1), row, p * n, n)
    decreases p
  {
    hide Widened, PixelIs;
    PixelPlaces(n, p);
    FirstWidened(row, n);
    if p > 0 {
      WidenedPixel(row[n..], n, p - 1);
      PixelAfter(Widened(row, n, n + 1), row, n, (p - 1) * (n + 1), (p - 1) * n);
    }
  }

  lemma PixelPlaces(n: nat, p: nat)
    requires 0 < n
    ensures p == 0 ==> p * (n + 1) == 0 && p * n == 0
    ensures p > 0 ==> 0 <= (p - 1) * n && 0 <= (p - 1) * (n + 1)
    ensures p > 0 ==> p * n == (p - 1) * n + n && p * (n + 1) == (p - 1) * (n + 1) + (n + 1)
    ensures p * n + n >= n
  {
    MulMonotone(n, 0, p);
    if p > 0 {
      MulDistrib(p - 1, 1, n);
      MulDistrib(p - 1, 1, n + 1);
      MulMonotone(n, 0, p - 1);
      MulMonotone(n + 1, 0, p - 1);
    }
  }

  /** A pixel of what follows the first one. */
  lemma PixelAfter(w: Row, row: Row, n: nat, c: nat, r: nat)
    requires |w| >= n + 1 && |row| >= n && PixelIs(w[n + 1..], c, row[n..], r, n)
    ensures PixelIs(w, c + (n + 1), row, r + n, n)
  {
    assert w[n + 1..][c..c + n] == w[c + (n + 1)..c + (n + 1) + n];
    assert row[n..][r..r + n] == row[r + n..r + n + n];
  }

  lemma FirstWidened(row: Row, n: nat)
    requires 0 < n <= |row|
    ensures |Widened(row, n, n + 1)| == n + 1 + |Widened(row[n..], n, n + 1)|
    ensures Widened(row, n, n + 1)[..n] == row[..n] && Widened(row, n, n + 1)[n] == 255
    ensures Widened(row, n, n + 1)[n + 1..] == Widened(row[n..], n, n + 1)
    ensures PixelIs(Widened(row, n, n + 1), 0, row, 0, n)
  {
  }

  /** Row `j` of the picture begins with `w`. */
  ghost predicate RowIs(out: array2<byte>, j: nat, w: Row)
    reads out
  {
    j < out.Length0 && |w| <= out.Length1 && forall k :: 0 <= k < |w| ==> out[j, k] == w[k]
  }

  /** Rows before `j` of the picture are untouched. */
  twostate predicate SameBefore(out: array2<byte>, j: nat)
    reads out
  {
    forall i, k :: 0 <= i < j && i < out.Length0 && 0 <= k < out.Length1 ==> out[i, k] == old(out[i, k])
  }

  /** The row being undone, and the one above. */
  ghost predicate Undoing(out: array2<byte>, j: nat, n: nat, filter: nat, line: Row, prev: Row, k: nat)
    reads out
  {
    && j < out.Length0 && 0 < n <= |line| == out.Length1 && k <= |line| && filter < 5
    && (if j == 0 then prev == [] else |prev| == |line| && RowIs(out, j - 1, prev))
    && RowIs(out, j, Unfiltered(filter, prev, line, n, k))
  }

  /** Setting byte `k` of row `j`. */
  method Put(out: array2<byte>, j: nat, k: nat, b: byte, ghost done: Row)
    requires j < out.Length0 && k < out.Length1 && |done| == k && RowIs(out, j, done)
    modifies out
    ensures RowIs(out, j, done + [b]) && SameBefore(out, j)
  {
    out[j, k] := b;
  }

  method UndoFirstByte(line: Row, filter: nat, out: array2<byte>, j: nat, n: nat, ghost prev: Row, k: nat)
    requires Undoing(out, j, n, filter, line, prev, k) && k < n
    modifies out
    ensures Undoing(out, j, n, filter, line, prev, k + 1) && SameBefore(out, j)
  {
    var t := Used(filter, j == 0);
    ghost var done := Unfiltered(filter, prev, line, n, k);
    var up := if LooksUp(t) then out[j - 1, k] else 0;
    UndoFirstIs(filter, j == 0, prev, line, n, done, up);
    Put(out, j, k, UndoFirst(t, line[k], up), done);
  }

  method UndoNextByte(line: Row, filter: nat, out: array2<byte>, j: nat, n: nat, ghost prev: Row, k: nat)
    requires Undoing(out, j, n, filter, line, prev, k) && n <= k < |line|
    modifies out
    ensures Undoing(out, j, n, filter, line, prev, k + 1) && SameBefore(out, j)
  {
    var t := Used(filter, j == 0);
    ghost var done := Unfiltered(filter, prev, line, n, k);
    var left := out[j, k - n];
    var up := if LooksUp(t) then out[j - 1, k] else 0;
    var corner := if LooksUp(t) then out[j - 1, k - n] else 0;
    UndoNextIs(filter, j == 0, prev, line, n, done, left, up, corner);
    Put(out, j, k, UndoNext(t, line[k], left, up, corner), done);
  }

  /** Undoing the filter of one row, when pixels keep their size. */
  method UndoRow(line: Row, filter: nat, out: array2<byte>, j: nat, n: nat, ghost prev: Row)
    requires filter < 5 && j < out.Length0 && 0 < n <= |line| == out.Length1
    requires if j == 0 then prev == [] else |prev| == |line| && RowIs(out, j - 1, prev)
    modifies out
    ensures RowIs(out, j, Unfiltered(filter, prev, line, n, |line|)) && SameBefore(out, j)
  {
    hide RowIs, Unfiltered;
    StartRow(out, j, filter, line, prev, n);
    for k := 0 to n
      invariant Undoing(out, j, n, filter, line, prev, k) && SameBefore(out, j)
    {
      UndoFirstByte(line, filter, out, j, n, prev, k);
    }
    for k := n to |line|
      invariant Undoing(out, j, n, filter, line, prev, k) && SameBefore(out, j)
    {
      UndoNextByte(line, filter, out, j, n, prev, k);
    }
  }

  lemma StartRow(out: array2<byte>, j: nat, filter: nat, line: Row, prev: Row, n: nat)
    requires j < out.Length0 && filter < 5
    ensures RowIs(out, j, Unfiltered(filter, prev, line, n, 0))
  {
  }

  // ----- rows with alpha added

  /** The row above the one being undone. */
  ghost predicate Above(out: array2<byte>, j: nat, n: nat, line: Row, prev: Row)
    requires 0 < n
    reads out
  {
    if j == 0 then prev == [] else |prev| == |line| && RowIs(out, j - 1, Widened(prev, n, n + 1))
  }

  ghost predicate UndoingWide(out: array2<byte>, j: nat, n: nat, filter: nat, line: Row, prev: Row, r: nat)
    reads out
  {
    && j < out.Length0 && 0 < n && r <= |line| && filter < 5 && WideLength(|line|, n, n + 1) == out.Length1
    && Above(out, j, n, line, prev)
    && RowIs(out, j, Widened(Unfiltered(filter, prev, line, n, r), n, n + 1))
  }

  /** What stands to the left, above, and above to the left of the next byte. */
  lemma Neighbours(out: array2<byte>, j: nat, n: nat, filter: nat, line: Row, prev: Row, r: nat)
    requires UndoingWide(out, j, n, filter, line, prev, r) && r < |line|
    ensures var c := WideLength(r, n, n + 1);
            && c < out.Length1 && (r >= n ==> c >= n + 1)
            && (r >= n ==> out[j, c - n - 1] == Unfiltered(filter, prev, line, n, r)[r - n])
            && (j > 0 ==> out[j - 1, c] == prev[r])
            && (j > 0 && r >= n ==> out[j - 1, c - n - 1] == prev[r - n])
  {
    hide Unfiltered, Widened;
    var done := Unfiltered(filter, prev, line, n, r);
    WidenedAt(line, n, n + 1, r);
    if r >= n {
      WidenedAt(done, n, n + 1, r - n);
    }
    if j > 0 {
      WidenedAt(prev, n, n + 1, r);
      if r >= n {
        WidenedAt(prev, n, n + 1, r - n);
      }
    }
  }

  /** Byte `k` of the pixel at `cur`, the `r`th of the row. */
  method UndoWideByte(line: Row, filter: nat, out: array2<byte>, j: nat, n: nat, ghost prev: Row, r: nat, cur: nat,
        k: nat)
    requires UndoingWide(out, j, n, filter, line, prev, r) && r < |line|
    requires k < n && Partial(r, n, k) && cur + k == WideLength(r, n, n + 1)
    modifies out
    ensures SameBefore(out, j) && Filled(out, j, n, filter, line, prev, r)
  {
    var t := Used(filter, j == 0);
    ghost var done := Unfiltered(filter, prev, line, n, r);
    Neighbours(out, j, n, filter, line, prev, r);
    var up := if LooksUp(t) then out[j - 1, cur + k] else 0;
    if r < n {
      UndoFirstIs(filter, j == 0, prev, line, n, done, up);
      Put(out, j, cur + k, UndoFirst(t, line[r], up), Widened(done, n, n + 1));
    } else {
      var left := out[j, cur + k - n - 1];
      var corner := if LooksUp(t) then out[j - 1, cur + k - n - 1] else 0;
      UndoNextIs(filter, j == 0, prev, line, n, done, left, up, corner);
      Put(out, j, cur + k, UndoNext(t, line[r], left, up, corner), Widened(done, n, n + 1));
    }
  }

  /** Byte `r` is written, but nothing after it. */
  ghost predicate Filled(out: array2<byte>, j: nat, n: nat, filter: nat, line: Row, prev: Row, r: nat)
    reads out
  {
    && j < out.Length0 && 0 < n && r < |line| && filter < 5 && WideLength(|line|, n, n + 1) == out.Length1
    && Above(out, j, n, line, prev)
    && var done := Unfiltered(filter, prev, line, n, r);
       RowIs(out, j, Widened(done, n, n + 1) + [Restored(filter, prev, line, n, done)])
  }

  lemma {:induction false} WideLengthNext(r: nat, n: nat, k: nat)
    requires k < n && Partial(r, n, k)
    ensures WideLength(r + 1, n, n + 1) == WideLength(r, n, n + 1) + (if k + 1 == n then 2 else 1)
  {
    if r >= n {
      WideLengthNext(r - n, n, k);
    }
  }

  /** After one more byte, not the last of its pixel. */
  lemma ByteDone(out: array2<byte>, j: nat, n: nat, filter: nat, line: Row, prev: Row, r: nat, k: nat)
    requires Filled(out, j, n, filter, line, prev, r) && k + 1 < n && Partial(r, n, k)
    ensures UndoingWide(out, j, n, filter, line, prev, r + 1) && Partial(r + 1, n, k + 1)
    ensures WideLength(r + 1, n, n + 1) == WideLength(r, n, n + 1) + 1
  {
    var done := Unfiltered(filter, prev, line, n, r);
    WidenedMore(done, Restored(filter, prev, line, n, done), n, k);
    PartialNext(r, n, k);
    WideLengthNext(r, n, k);
  }

  /** Alpha after the last byte of a pixel. */
  method PutAlpha(out: array2<byte>, j: nat, n: nat, ghost filter: nat, ghost line: Row, ghost prev: Row,
        ghost r: nat, at: nat)
    requires Filled(out, j, n, filter, line, prev, r) && Partial(r, n, n - 1) && at == WideLength(r, n, n + 1) + 1
    modifies out
    ensures UndoingWide(out, j, n, filter, line, prev, r + 1) && Partial(r + 1, n, 0) && SameBefore(out, j)
    ensures at + 1 == WideLength(r + 1, n, n + 1)
  {
    ghost var done := Unfiltered(filter, prev, line, n, r);
    ghost var b := Restored(filter, prev, line, n, done);
    RoomForAlpha(r, |line|, n);
    WidenedMore(done, b, n, n - 1);
    PartialNext(r, n, n - 1);
    WideLengthNext(r, n, n - 1);
    Put(out, j, at, 255, Widened(done, n, n + 1) + [b]);
    assert Widened(done, n, n + 1) + [b] + [255] == Widened(done, n, n + 1) + [b, 255];
  }

  lemma {:induction false} RoomForAlpha(r: nat, total: nat, n: nat)
    requires 0 < n && Partial(r, n, n - 1) && r < total
    ensures WideLength(r, n, n + 1) + 2 <= WideLength(total, n, n + 1)
  {
    if r >= n {
      RoomForAlpha(r - n, total - n, n);
    }
  }

  /** One pixel: its bytes, then its alpha. */
  method UndoWidePixel(line: Row, filter: nat, out: array2<byte>, j: nat, n: nat, ghost prev: Row, r: nat, cur: nat)
    requires UndoingWide(out, j, n, filter, line, prev, r) && r + n <= |line|
    requires Partial(r, n, 0) && cur == WideLength(r, n, n + 1)
    modifies out
    ensures UndoingWide(out, j, n, filter, line, prev, r + n) && Partial(r + n, n, 0) && SameBefore(out, j)
    ensures cur + n + 1 == WideLength(r + n, n, n + 1)
  {
    hide RowIs, Unfiltered, Widened, WideLength, Partial, Above, Filled;
    for k := 0 to n
      invariant SameBefore(out, j)
      invariant k < n ==> UndoingWide(out, j, n, filter, line, prev, r + k) && Partial(r + k, n, k)
      invariant k < n ==> cur + k == WideLength(r + k, n, n + 1)
      invariant k == n ==> Filled(out, j, n, filter, line, prev, r + n - 1) && Partial(r + n - 1, n, n - 1)
      invariant k == n ==> cur + n - 1 == WideLength(r + n - 1, n, n + 1)
    {
      UndoWideByte(line, filter, out, j, n, prev, r + k, cur, k);
      if k + 1 < n {
        ByteDone(out, j, n, filter, line, prev, r + k, k);
      }
    }
    PutAlpha(out, j, n, filter, line, prev, r + n - 1, cur + n);
  }

  /** Undoing the filter of one row, adding an opaque alpha to each of its `x` pixels. */
  method UndoWideRow(line: Row, filter: nat, out: array2<byte>, j: nat, n: nat, x: nat, ghost prev: Row)
    requires filter < 5 && j < out.Length0 && 0 < n && 0 < x && |line| == x * n && out.Length1 == x * (n + 1)
    requires Above(out, j, n, line, prev)
    modifies out
    ensures RowIs(out, j, Widened(Unfiltered(filter, prev, line, n, |line|), n, n + 1)) && SameBefore(out, j)
  {
    hide Unfiltered, Widened;
    WideLengthOf(x, n, n + 1);
    var r, cur := 0, 0;
    var i := x;
    while i >= 1
      invariant i <= x && UndoingWide(out, j, n, filter, line, prev, r) && Partial(r, n, 0) && SameBefore(out, j)
      invariant cur == WideLength(r, n, n + 1) && |line| - r == i * n
    {
      MulDistrib(i - 1, 1, n);
      UndoWidePixel(line, filter, out, j, n, prev, r, cur);
      r, cur, i := r + n, cur + n + 1, i - 1;
    }
  }

  // ----- whole images

  /** Too few bytes for the rows, and reading them fails. */
  lemma {:induction false} ShortFails(raw: seq<byte>, length: nat, prev: Row, n: nat, y: nat)
    requires |raw| < y * (length + 1)
    ensures ReadRows(raw, length, prev, n, y).None?
    decreases y
  {
    if |raw| >= length + 1 && raw[0] <= 4 {
      MulDistrib(y - 1, 1, length + 1);
      ShortFails(raw[1 + length..], length, Unfiltered(raw[0], prev, raw[1..1 + length], n, length), n, y - 1);
    }
  }

  /** Undoing the filter of a row in either form. */
  method UndoAnyRow(line: Row, filter: nat, out: array2<byte>, j: nat, n: nat, outN: nat, x: nat, ghost prev: Row)
    requires filter < 5 && j < out.Length0 && 0 < n && 0 < x && |line| == x * n && out.Length1 == x * outN
    requires outN == n || outN == n + 1
    requires if j == 0 then prev == [] else |prev| == |line| && RowIs(out, j - 1, Widened(prev, n, outN))
    modifies out
    ensures RowIs(out, j, Widened(Unfiltered(filter, prev, line, n, |line|), n, outN)) && SameBefore(out, j)
  {
    hide RowIs;
    MulMonotone(n, 1, x);
    if outN == n {
      WidenedSame(prev, n);
      WidenedSame(Unfiltered(filter, prev, line, n, |line|), n);
      UndoRow(line, filter, out, j, n, prev);
    } else {
      UndoWideRow(line, filter, out, j, n, x, prev);
    }
  }

  lemma StillRows(out: array2<byte>, got: seq<Row>, j: nat, n: nat, outN: nat, row: Row)
    requires 0 < n && (outN == n || outN == n + 1) && |got| == j
    requires RowIs(out, j, Widened(row, n, outN)) && forall i :: 0 <= i < j ==> RowIs(out, i, Widened(got[i], n, outN))
    ensures forall i :: 0 <= i < j + 1 ==> RowIs(out, i, Widened((got + [row])[i], n, outN))
  {
    hide RowIs, Widened;
  }

  /** One row: fails on an unknown filter type. */
  method ReadRow(raw: seq<byte>, p: nat, length: nat, out: array2<byte>, j: nat, n: nat, outN: nat, x: nat,
        ghost got: seq<Row>)
    returns (ok: bool)
    requires p + length + 1 <= |raw| && j < out.Length0 && 0 < n && 0 < x && length == x * n && out.Length1 == x * outN
    requires (outN == n || outN == n + 1) && |got| == j && forall i :: 0 <= i < j ==> |got[i]| == length
    requires forall i :: 0 <= i < j ==> RowIs(out, i, Widened(got[i], n, outN))
    modifies out
    ensures ok == (raw[p] <= 4)
    ensures ok ==> RowIs(out, j, Widened(RowAt(raw, p, length, n, Last(got)), n, outN))
    ensures forall i :: 0 <= i < j ==> RowIs(out, i, Widened(got[i], n, outN))
  {
    hide Widened, Unfiltered;
    var filter := raw[p];
    ok := filter <= 4;
    if ok {
      UndoAnyRow(raw[p + 1..p + 1 + length], filter, out, j, n, outN, x, Last(got));
    }
  }

  ghost function Last(got: seq<Row>): Row {
    if got == [] then [] else got[|got| - 1]
  }

  ghost function RowAt(raw: seq<byte>, p: nat, length: nat, n: nat, prev: Row): (row: Row)
    requires p + length + 1 <= |raw| && raw[p] <= 4
    ensures |row| == length
  {
    Unfiltered(raw[p], prev, raw[p + 1..p + 1 + length], n, length)
  }

  /** Reading continues with the rows got so far. */
  ghost predicate Continues(raw: seq<byte>, length: nat, n: nat, y: nat, p: nat, got: seq<Row>)
    requires p <= |raw| && |got| <= y
  {
    var rest := ReadRows(raw[p..], length, Last(got), n, y - |got|);
    ReadRows(raw, length, [], n, y) == if rest.None? then None else Some(got + rest.value)
  }

  lemma ContinuesFirst(raw: seq<byte>, length: nat, n: nat, y: nat)
    ensures Continues(raw, length, n, y, 0, [])
  {
    assert raw[0..] == raw;
    var rows := ReadRows(raw, length, [], n, y);
    assert rows.Some? ==> [] + rows.value == rows.value;
  }

  lemma ContinuesLast(raw: seq<byte>, length: nat, n: nat, y: nat, p: nat, got: seq<Row>)
    requires p <= |raw| && |got| == y && Continues(raw, length, n, y, p, got)
    ensures ReadRows(raw, length, [], n, y) == Some(got)
  {
    assert got + [] == got;
  }

  /** The next row, and what follows it. */
  lemma RowsFrom(raw: seq<byte>, length: nat, prev: Row, n: nat, y: nat, p: nat)
    requires p + length + 1 <= |raw| && y > 0
    ensures raw[p] > 4 ==> ReadRows(raw[p..], length, prev, n, y).None?
    ensures raw[p] <= 4 ==>
              var row := RowAt(raw, p, length, n, prev);
              var rest := ReadRows(raw[p + length + 1..], length, row, n, y - 1);
              ReadRows(raw[p..], length, prev, n, y) == if rest.None? then None else Some([row] + rest.value)
  {
    hide Unfiltered;
    assert raw[p..][0] == raw[p] && raw[p..][1..1 + length] == raw[p + 1..p + 1 + length];
    assert raw[p..][1 + length..] == raw[p + length + 1..];
  }

  lemma ContinuesNext(raw: seq<byte>, length: nat, n: nat, y: nat, p: nat, got: seq<Row>)
    requires p + length + 1 <= |raw| && |got| < y && Continues(raw, length, n, y, p, got)
    ensures if raw[p] <= 4 then
              Continues(raw, length, n, y, p + length + 1, got + [RowAt(raw, p, length, n, Last(got))])
            else ReadRows(raw, length, [], n, y).None?
  {
    hide ReadRows, Unfiltered;
    RowsFrom(raw, length, Last(got), n, y - |got|, p);
    if raw[p] <= 4 {
      var row := RowAt(raw, p, length, n, Last(got));
      var rest := ReadRows(raw[p + length + 1..], length, row, n, y - |got| - 1);
      if rest.Some? {
        assert got + ([row] + rest.value) == (got + [row]) + rest.value;
      }
    }
  }

  ghost predicate Holds(out: array2<byte>, rows: seq<Row>, n: nat, outN: nat)
    requires 0 < n && (outN == n || outN == n + 1)
    reads out
  {
    forall i :: 0 <= i < |rows| ==> RowIs(out, i, Widened(rows[i], n, outN))
  }

  /** What has been read of a picture. */
  ghost predicate ReadSoFar(raw: seq<byte>, out: array2<byte>, x: nat, n: nat, outN: nat, y: nat, p: nat, j: nat,
        got: seq<Row>)
    reads out
  {
    && 0 < n && 0 < x && (outN == n || outN == n + 1) && out.Length0 == y && out.Length1 == x * outN
    && p <= |raw| && |got| == j <= y && (forall i :: 0 <= i < j ==> |got[i]| == x * n)
    && Continues(raw, x * n, n, y, p, got) && Holds(out, got, n, outN)
  }

  method NextRow(raw: seq<byte>, p: nat, length: nat, out: array2<byte>, j: nat, n: nat, outN: nat, x: nat, y: nat,
        ghost got: seq<Row>)
    returns (ok: bool, ghost more: seq<Row>)
    requires length == x * n && ReadSoFar(raw, out, x, n, outN, y, p, j, got) && j < y && p + length + 1 <= |raw|
    modifies out
    ensures if ok then ReadSoFar(raw, out, x, n, outN, y, p + length + 1, j + 1, more)
            else ReadRows(raw, length, [], n, y).None?
  {
    hide ReadRows, Widened, RowIs, Continues, Unfiltered;
    more := got;
    ContinuesNext(raw, length, n, y, p, got);
    ok := ReadRow(raw, p, length, out, j, n, outN, x, got);
    if ok {
      ghost var row := RowAt(raw, p, length, n, Last(got));
      StillRows(out, got, j, n, outN, row);
      more := got + [row];
    }
  }

  // ----- sizes

  const MAX_SIDE: nat := 0x100_0000
  const MAX_SAMPLES: nat := 0x4000_0000

  /** What the header's reader accepts of a picture of `n` components a pixel. */
  predicate HeaderAccepts(x: nat, y: nat, n: nat)
    requires 0 < n
  {
    x <= MAX_SIDE && y <= MAX_SIDE && x != 0 && y != 0 && !(MAX_SAMPLES / x / n < y)
  }

  lemma HeaderIff(x: nat, y: nat, n: nat)
    requires 0 < n
    ensures HeaderAccepts(x, y, n) <==> 0 < x <= MAX_SIDE && 0 < y <= MAX_SIDE && y * n * x <= MAX_SAMPLES
  {
    if x != 0 {
      AtMostQuotient(y, MAX_SAMPLES / x, n);
      AtMostQuotient(y * n, MAX_SAMPLES, x);
    }
  }

  /** The picture, and the bits of a line, fit an int. */
  ghost predicate SizesFit(x: nat, y: nat, n: nat, outN: nat) {
    x * y * outN <= INT_MAX && n * x * 8 + 7 <= INT_MAX
  }

  /** Past the header, the one size refused is 2^30 grey pixels to which alpha is to be added. */
  lemma SizesFitIff(x: nat, y: nat, n: nat, outN: nat)
    requires 1 <= n <= 4 && (outN == n || outN == n + 1) && HeaderAccepts(x, y, n)
    ensures SizesFit(x, y, n, outN) <==> !(n == 1 && outN == 2 && x * y == MAX_SAMPLES)
  {
    HeaderIff(x, y, n);
    MulMonotone(x, n, 4);
    Regroup(x, y, n);
    MulDistrib(n, 1, x * y);
    MulMonotone(x * y, if n == 1 then 1 else 2, n);
  }

  lemma Regroup(x: nat, y: nat, n: nat)
    ensures y * n * x == x * y * n == n * (x * y)
  {
  }

  /** Such a picture. */
  lemma GreyWithAlphaRefused()
    ensures HeaderAccepts(32768, 32768, 1) && !SizesFit(32768, 32768, 1, 2)
  {
    HeaderIff(32768, 32768, 1);
    SizesFitIff(32768, 32768, 1, 2);
  }

  /** The picture of `x` by `y` pixels in `raw`; fails exactly when a size does not fit, there are too few bytes or a
      filter type is unknown. */
  method CreatePngImageRaw(raw: seq<byte>, n: nat, outN: nat, x: nat, y: nat) returns (ok: bool, out: array2<byte>)
    requires 0 < n && 0 < x && (outN == n || outN == n + 1)
    ensures ok <==> SizesFit(x, y, n, outN) && ReadRows(raw, x * n, [], n, y).Some?
    ensures x * y * outN <= INT_MAX ==> out.Length0 == y && out.Length1 == x * outN
    ensures ok ==>
      |ReadRows(raw, x * n, [], n, y).value| == y && Holds(out, ReadRows(raw, x * n, [], n, y).value, n, outN)
  {
    hide ReadRows, Holds, Mad3SizesValid;
    Mad3SizesFit(x, y, outN, 0);
    if !Mad3SizesValid(x, y, outN, 0) {
      out := new byte[0, 0];
      return false, out;
    }
    out := new byte[y, x * outN]((_, _) => 0);
    Mad3SizesFit(n, x, 8, 7);
    if !Mad3SizesValid(n, x, 8, 7) {
      return false, out;
    }
    ok := UndoRows(raw, n, outN, x, y, out);
  }

  /** All rows, if there are bytes enough for them. */
  method UndoRows(raw: seq<byte>, n: nat, outN: nat, x: nat, y: nat, out: array2<byte>) returns (ok: bool)
    requires 0 < n && 0 < x && (outN == n || outN == n + 1) && out.Length0 == y && out.Length1 == x * outN
    modifies out
    ensures ok <==> ReadRows(raw, x * n, [], n, y).Some?
    ensures ok ==>
      |ReadRows(raw, x * n, [], n, y).value| == y && Holds(out, ReadRows(raw, x * n, [], n, y).value, n, outN)
  {
    hide ReadRows, Widened, RowIs, Continues, Unfiltered;
    var length := x * n;
    var rowBytes := length + 1;
    if |raw| < y * rowBytes {
      ShortFails(raw, length, [], n, y);
      return false;
    }
    ghost var got: seq<Row> := [];
    var p := 0;
    ok := true;
    var j := 0;
    ContinuesFirst(raw, length, n, y);
    while j < y && ok
      invariant j <= y && p == j * rowBytes <= |raw|
      invariant if ok then ReadSoFar(raw, out, x, n, outN, y, p, j, got) else ReadRows(raw, length, [], n, y).None?
      decreases y - j
    {
      MulDistrib(j, 1, rowBytes);
      MulMonotone(rowBytes, j + 1, y);
      ok, got := NextRow(raw, p, length, out, j, n, outN, x, y, got);
      p := p + rowBytes;
      j := j + 1;
    }
    if ok {
      ContinuesLast(raw, length, n, y, p, got);
    }
  }
}
