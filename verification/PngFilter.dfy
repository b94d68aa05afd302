/** The five line filters of PNG (section 6 of RFC 2083) and their undoing, first rows and added alpha included. */
module PngFilter {
  import opened Words
  import opened Wrappers
  import opened Bits

  type Row = seq<byte>

  /** The neighbour nearest to `a + b - c`. */
  function Paeth(a: int, b: int, c: int): int {
    var p := a + b - c;
    var pa, pb, pc := Abs(p - a), Abs(p - b), Abs(p - c);
    if pa <= pb && pa <= pc then a else if pb <= pc then b else c
  }

  /** Which of the three is chosen: none is nearer to `a + b - c`, and of equally near ones the first in that order. */
  lemma PaethNearest(a: int, b: int, c: int)
    ensures var p, r := a + b - c, Paeth(a, b, c);
            && (r == a || r == b || r == c)
            && Abs(p - r) <= Abs(p - a) && Abs(p - r) <= Abs(p - b) && Abs(p - r) <= Abs(p - c)
            && (Abs(p - a) == Abs(p - r) ==> r == a)
            && (Abs(p - b) == Abs(p - r) < Abs(p - a) ==> r == b)
  {
  }

  function Byte(x: int): byte {
    x % 256
  }

  // ----- the filters, on whole rows; the row before the first is empty, and all its pixels count as zero

  function At(row: Row, i: int): int {
    if 0 <= i < |row| then row[i] else 0
  }

  function Predicted(filter: nat, left: int, up: int, corner: int): int
    requires filter < 5
  {
    match filter
    case 0 => 0
    case 1 => left
    case 2 => up
    case 3 => (left + up) / 2
    case _ => Paeth(left, up, corner)
  }

  function Residue(filter: nat, prev: Row, row: Row, n: nat, i: nat): byte
    requires filter < 5 && i < |row|
  {
    Byte(row[i] - Predicted(filter, At(row, i - n), At(prev, i), At(prev, i - n)))
  }

  /** When nothing is left of a byte: it is the one to its left, the one above, the mean of the two, rounded down, or
      the neighbour nearest to the plane through them. */
  lemma ResidueZero(filter: nat, prev: Row, row: Row, n: nat, i: nat)
    requires filter < 5 && i < |row|
    ensures var x: int, left: int, up: int, corner: int := row[i], At(row, i - n), At(prev, i), At(prev, i - n);
            Residue(filter, prev, row, n, i) == 0 <==>
              match filter
              case 0 => x == 0
              case 1 => x == left
              case 2 => x == up
              case 3 => 2 * x == left + up || 2 * x + 1 == left + up
              case _ => x == Paeth(left, up, corner)
  {
    PredictedIsByte(filter, At(row, i - n), At(prev, i), At(prev, i - n));
    ByteZero(row[i], Predicted(filter, At(row, i - n), At(prev, i), At(prev, i - n)));
  }

  lemma PredictedIsByte(filter: nat, left: int, up: int, corner: int)
    requires filter < 5 && 0 <= left < 256 && 0 <= up < 256 && 0 <= corner < 256
    ensures 0 <= Predicted(filter, left, up, corner) < 256
  {
  }

  lemma ByteZero(x: byte, p: int)
    requires 0 <= p < 256
    ensures Byte(x - p) == 0 <==> x == p
  {
  }

  /** Between two values of a byte, with the same neighbours, the residue changes as the byte does. */
  lemma ResidueFollows(filter: nat, prev: Row, row: Row, n: nat, i: nat, b: byte)
    requires filter < 5 && n > 0 && i < |row|
    ensures Residue(filter, prev, row[i := b], n, i) == Byte(Residue(filter, prev, row, n, i) + b - row[i])
  {
    hide Predicted, Byte;
    assert At(row[i := b], i - n) == At(row, i - n);
    ByteFollows(row[i], b, Predicted(filter, At(row, i - n), At(prev, i), At(prev, i - n)));
  }

  lemma ByteFollows(x: byte, y: byte, p: int)
    ensures Byte(y - p) == Byte(Byte(x - p) + y - x)
  {
  }

  function Filtered(filter: nat, prev: Row, row: Row, n: nat): (line: Row)
    requires filter < 5
    ensures |line| == |row| && forall i :: 0 <= i < |row| ==> line[i] == Residue(filter, prev, row, n, i)
  {
    seq(|row|, i requires 0 <= i < |row| => Residue(filter, prev, row, n, i))
  }

  function Restored(filter: nat, prev: Row, line: Row, n: nat, done: Row): byte
    requires filter < 5 && |done| < |line|
  {
    var i := |done|;
    Byte(line[i] + Predicted(filter, At(done, i - n), At(prev, i), At(prev, i - n)))
  }

  /** The first `k` bytes of the row of which `line` is what the filter left. */
  function Unfiltered(filter: nat, prev: Row, line: Row, n: nat, k: nat): (row: Row)
    requires filter < 5 && k <= |line|
    ensures |row| == k
  {
    if k == 0 then [] else
      var done := Unfiltered(filter, prev, line, n, k - 1);
      done + [Restored(filter, prev, line, n, done)]
  }

  /** Undoing a filter restores the row. */
  lemma {:induction false} RowRestored(filter: nat, prev: Row, row: Row, n: nat, k: nat)
    requires filter < 5 && n > 0 && k <= |row|
    ensures Unfiltered(filter, prev, Filtered(filter, prev, row, n), n, k) == row[..k]
  {
    if k > 0 {
      hide Filtered, Restored;
      RowRestored(filter, prev, row, n, k - 1);
      ByteRestored(filter, prev, row, n, k - 1);
      assert row[..k] == row[..k - 1] + [row[k - 1]];
    }
  }

  /** Undoing a filter at one byte, with those before it restored. */
  lemma ByteRestored(filter: nat, prev: Row, row: Row, n: nat, i: nat)
    requires filter < 5 && n > 0 && i < |row|
    ensures Restored(filter, prev, Filtered(filter, prev, row, n), n, row[..i]) == row[i]
  {
    hide Predicted, At, Byte;
    SameLeft(row, i, n);
    ByteBack(row[i], Predicted(filter, At(row, i - n), At(prev, i), At(prev, i - n)));
  }

  lemma SameLeft(row: Row, i: nat, n: nat)
    requires n > 0 && i <= |row|
    ensures At(row[..i], i - n) == At(row, i - n)
  {
  }

  /** Adding modulo 256 undoes subtracting. */
  lemma ByteBack(x: byte, p: int)
    ensures Byte(Byte(x - p) + p) == x
  {
  }

  // ----- whole images

  /** Each row as its filter type and what the filter left. */
  function Lines(filters: seq<nat>, rows: seq<Row>, prev: Row, n: nat): seq<byte>
    requires |filters| == |rows| && forall i :: 0 <= i < |filters| ==> filters[i] < 5
    decreases |rows|
  {
    if rows == [] then []
    else [filters[0] as byte] + Filtered(filters[0], prev, rows[0], n) + Lines(filters[1..], rows[1..], rows[0], n)
  }

  /** `y` rows of `length` bytes from a decompressed image; fails on a missing row or an unknown filter type. */
  function ReadRows(raw: seq<byte>, length: nat, prev: Row, n: nat, y: nat): Option<seq<Row>> {
    if y == 0 then Some([])
    else if |raw| < length + 1 || raw[0] > 4 then None
    else
      var row := Unfiltered(raw[0], prev, raw[1..1 + length], n, length);
      var rest := ReadRows(raw[1 + length..], length, row, n, y - 1);
      if rest.None? then None else Some([row] + rest.value)
  }

  /** Reading the lines of an image gives back its rows, whichever filters were chosen. */
  lemma {:induction false} ImageRestored(filters: seq<nat>, rows: seq<Row>, prev: Row, n: nat, length: nat,
        extra: seq<byte>)
    requires |filters| == |rows| && (forall i :: 0 <= i < |filters| ==> filters[i] < 5) && n > 0
    requires forall j :: 0 <= j < |rows| ==> |rows[j]| == length
    ensures ReadRows(Lines(filters, rows, prev, n) + extra, length, prev, n, |rows|) == Some(rows)
    decreases |rows|
  {
    if rows != [] {
      hide Filtered, Unfiltered;
      var line := Filtered(filters[0], prev, rows[0], n);
      var lines := Lines(filters[1..], rows[1..], rows[0], n);
      LineSplit(filters[0] as byte, line, lines, extra);
      RowRestored(filters[0], prev, rows[0], n, length);
      assert rows[0][..length] == rows[0] && [rows[0]] + rows[1..] == rows;
      ImageRestored(filters[1..], rows[1..], rows[0], n, length, extra);
    }
  }

  lemma LineSplit(f: byte, line: Row, lines: seq<byte>, extra: seq<byte>)
    ensures var raw := [f] + line + lines + extra;
            |raw| >= |line| + 1 && raw[0] == f && raw[1..1 + |line|] == line && raw[1 + |line|..] == lines + extra
  {
  }
}
