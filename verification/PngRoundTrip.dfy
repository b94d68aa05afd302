/** A picture filtered and compressed, then decompressed and unfiltered. */
module PngRoundTrip {
  import opened Wrappers
  import opened Bits
  import opened Deflate
  import opened PngFilter
  import PngWriter
  import PngReader
  import ZlibRoundTrip

  /** What the decoder makes of the lines of a picture. */
  lemma PictureRestored(m: PngWriter.Image, n: nat, x: nat, filters: seq<nat>)
    requires m.Valid() && 0 < n && m.length == x * n && |filters| == m.height
    requires forall i :: 0 <= i < |filters| ==> filters[i] < 5
    ensures ReadRows(Lines(filters, PngWriter.RowsOf(m, m.height), [], n), x * n, [], n, m.height)
         == Some(PngWriter.RowsOf(m, m.height))
  {
    var rows := PngWriter.RowsOf(m, m.height);
    ImageRestored(filters, rows, [], n, x * n, []);
    assert Lines(filters, rows, [], n) + [] == Lines(filters, rows, [], n);
  }

  lemma HasRows(n: nat, x: nat, y: nat)
    requires 0 < n && PngReader.HeaderAccepts(x, y, n)
    ensures y * (x * n + 1) > 0
  {
    MulMonotone(y, 1, x * n + 1);
  }

  /** The reader's guess at the size of the data: the bytes of a line for one component, for all components and rows,
      and a filter type for each row. */
  method RawLength(n: nat, x: nat, y: nat) returns (rawLen: nat)
    ensures rawLen == y * (x * n + 1)
  {
    var bpl := (x * 8 + 7) / 8;
    rawLen := bpl * y * n + y;
    PngReader.Regroup(x, y, n);
    MulDistrib(x * n, 1, y);
  }

  /** Compresses the lines, and reads them as the header directs. */
  method ReadLines(filt: seq<byte>, n: nat, outN: nat, x: nat, y: nat, level: int, fuel: nat)
    returns (ok: bool, out: array2<byte>)
    requires 0 < n && 0 < x && (outN == n || outN == n + 1)
    requires |filt| == y * (x * n + 1) && fuel > |filt| && ReadRows(filt, x * n, [], n, y).Some?
    ensures ok <==> PngReader.HeaderAccepts(x, y, n) && PngReader.SizesFit(x, y, n, outN)
    ensures ok ==> out.Length0 == y && out.Length1 == x * outN
    ensures ok ==> |ReadRows(filt, x * n, [], n, y).value| == y
    ensures ok ==> PngReader.Holds(out, ReadRows(filt, x * n, [], n, y).value, n, outN)
  {
    hide ReadRows, PngReader.Holds, Capacity, PngReader.HeaderAccepts;
    if !PngReader.HeaderAccepts(x, y, n) {
      out := new byte[0, 0];
      return false, out;
    }
    HasRows(n, x, y);
    var rawLen := RawLength(n, x, y);
    var status, raw := ZlibRoundTrip.RoundTrip(filt, level, rawLen, fuel);
    ok, out := PngReader.CreatePngImageRaw(raw, n, outN, x, y);
  }

  lemma {:induction false} LinesLength(filters: seq<nat>, rows: seq<Row>, prev: Row, n: nat, length: nat)
    requires |filters| == |rows| && (forall i :: 0 <= i < |filters| ==> filters[i] < 5)
    requires forall j :: 0 <= j < |rows| ==> |rows[j]| == length
    ensures |Lines(filters, rows, prev, n)| == |rows| * (length + 1)
    decreases |rows|
  {
    if rows != [] {
      LinesLength(filters[1..], rows[1..], rows[0], n, length);
      MulDistrib(|rows| - 1, 1, length + 1);
    }
  }

  /** Every pixel comes back, in the order rows were written, for every filter setting and compression level; alpha is
      opaque where the reader adds it. The picture is refused exactly when the reader's header or size tests fail; the
      buffer it is decompressed into starts with the size that the header calls for. */
  method WriteAndRead(m: PngWriter.Image, n: nat, x: nat, outN: nat, forceFilter: int, level: int, fuel: nat)
    returns (ok: bool, out: array2<byte>)
    requires m.Valid() && 0 < n && 0 < x && m.length == x * n && (outN == n || outN == n + 1)
    requires fuel > m.height * (m.length + 1)
    ensures ok <==> PngReader.HeaderAccepts(x, m.height, n) && PngReader.SizesFit(x, m.height, n, outN)
    ensures ok ==> out.Length0 == m.height && out.Length1 == x * outN
    ensures ok ==>
      forall y :: 0 <= y < m.height ==> PngReader.RowIs(out, y, PngReader.Widened(m.RowOf(y), n, outN))
  {
    hide ReadRows, Lines, PngReader.RowIs, PngReader.Widened, PngReader.HeaderAccepts, PngReader.SizesFit;
    MulMonotone(n, 1, x);
    var filt;
    ghost var filters;
    filt, filters := PngWriter.FilterImage(m, n, forceFilter);
    PictureRestored(m, n, x, filters);
    LinesLength(filters, PngWriter.RowsOf(m, m.height), [], n, m.length);
    ok, out := ReadLines(filt, n, outN, x, m.height, level, fuel);
  }
}
