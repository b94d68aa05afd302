/** Filtering the rows of an image in memory, each by the filter that seems best. */
module PngWriter {
  import opened Words
  import opened Bits
  import opened PngFilter

  /** The pixels of an image: rows of `length` bytes, `stride` apart. */
  datatype Image = Image(pixels: seq<byte>, stride: nat, length: nat, height: nat, flip: bool) {
    ghost predicate Valid() {
      height > 0 ==> stride * (height - 1) + length <= |pixels|
    }

    /** Where row `y` begins, counting in the order rows are written. */
    function Start(y: nat): nat
      requires y < height
    {
      stride * (if flip then height - 1 - y else y)
    }

    lemma StartInside(y: nat)
      requires Valid() && y < height
      ensures Start(y) + length <= |pixels|
    {
      MulMonotone(stride, if flip then height - 1 - y else y, height - 1);
    }

    lemma StartBefore(y: nat)
      requires 0 < y < height
      ensures Start(y) - (if flip then -(stride as int) else stride) == Start(y - 1)
    {
      MulDistrib(if flip then height - 1 - y else y - 1, 1, stride);
    }

    ghost function RowOf(y: nat): (row: Row)
      requires Valid() && y < height
      ensures |row| == length
    {
      StartInside(y);
      pixels[Start(y)..Start(y) + length]
    }

    /** The row before, which for the first is none. */
    ghost function Before(y: nat): Row
      requires Valid() && y < height
    {
      if y == 0 then [] else RowOf(y - 1)
    }
  }

  /** The pixel bytes of a row, and that flipping writes the same rows in the opposite order. */
  lemma FlipReverses(m: Image, y: nat, k: nat)
    requires m.Valid() && y < m.height && k < m.length
    ensures m.stride * y + k < |m.pixels|
    ensures m.(flip := false).RowOf(y)[k] == m.pixels[m.stride * y + k]
    ensures m.(flip := true).RowOf(m.height - 1 - y) == m.(flip := false).RowOf(y)
  {
    m.(flip := false).StartInside(y);
  }

  /** The residue of a first pixel: there is nothing to its left. Types 5 and 6 are for first rows. */
  function FirstResidue(t: nat, z: int, up: int): byte
    requires t < 7
  {
    match t
    case 2 => Byte(z - up)
    case 3 => Byte(z - up / 2)
    case 4 => Byte(z - Paeth(0, up, 0))
    case _ => Byte(z)
  }

  function NextResidue(t: nat, z: int, left: int, up: int, corner: int): byte
    requires t < 7
  {
    match t
    case 0 => Byte(z)
    case 1 => Byte(z - left)
    case 2 => Byte(z - up)
    case 3 => Byte(z - (left + up) / 2)
    case 4 => Byte(z - Paeth(left, up, corner))
    case 5 => Byte(z - left / 2)
    case _ => Byte(z - Paeth(left, 0, 0))
  }

  const MAPPING: seq<nat> := [0, 1, 2, 3, 4]
  const FIRSTMAP: seq<nat> := [0, 1, 0, 5, 6]

  function Mapped(filter: nat, first: bool): (t: nat)
    requires filter < 5
    ensures t < 7 && (first ==> t != 2 && t != 3 && t != 4) && (!first ==> t == filter)
  {
    if first then FIRSTMAP[filter] else MAPPING[filter]
  }

  lemma FirstPixel(filter: nat, first: bool, z: int, up: int)
    requires filter < 5
    ensures FirstResidue(Mapped(filter, first), z, up) == Byte(z - Predicted(filter, 0, if first then 0 else up, 0))
  {
  }

  lemma NextPixel(filter: nat, first: bool, z: int, left: int, up: int, corner: int)
    requires filter < 5
    ensures NextResidue(Mapped(filter, first), z, left, up, corner)
         == Byte(z - Predicted(filter, left, if first then 0 else up, if first then 0 else corner))
  {
  }

  /** Does the filter look at the row above? */
  predicate LooksUp(t: nat) {
    t == 2 || t == 3 || t == 4
  }

  /** The part of the line before `i` is filtered. */
  ghost predicate FilteredTo(m: Image, y: nat, n: nat, filter: nat, line: seq<byte>, i: nat)
    requires m.Valid() && y < m.height && filter < 5 && i <= |line| == m.length
  {
    forall k :: 0 <= k < i ==> line[k] == Residue(filter, m.Before(y), m.RowOf(y), n, k)
  }

  /** Pixel byte `i` of row `y`, and what is above it. */
  lemma Pixels(m: Image, y: nat, z: int, above: int, i: nat)
    requires m.Valid() && y < m.height && i < m.length && z == m.Start(y) && (y > 0 ==> above == m.Start(y - 1))
    ensures 0 <= z + i < |m.pixels| && m.pixels[z + i] == m.RowOf(y)[i]
    ensures y > 0 ==> 0 <= above + i < |m.pixels| && m.pixels[above + i] == m.Before(y)[i]
  {
    m.StartInside(y);
    if y > 0 {
      m.StartInside(y - 1);
    }
  }

  lemma FirstResidueIs(m: Image, y: nat, n: nat, filter: nat, i: nat, up: int)
    requires m.Valid() && y < m.height && filter < 5 && i < m.length && i < n
    requires LooksUp(Mapped(filter, y == 0)) ==> up == At(m.Before(y), i)
    ensures FirstResidue(Mapped(filter, y == 0), m.RowOf(y)[i], up) == Residue(filter, m.Before(y), m.RowOf(y), n, i)
  {
    FirstPixel(filter, y == 0, m.RowOf(y)[i], At(m.Before(y), i));
  }

  lemma NextResidueIs(m: Image, y: nat, n: nat, filter: nat, i: nat, left: int, up: int, corner: int)
    requires m.Valid() && y < m.height && filter < 5 && n <= i < m.length && left == m.RowOf(y)[i - n]
    requires LooksUp(Mapped(filter, y == 0)) ==> up == At(m.Before(y), i) && corner == At(m.Before(y), i - n)
    ensures NextResidue(Mapped(filter, y == 0), m.RowOf(y)[i], left, up, corner)
         == Residue(filter, m.Before(y), m.RowOf(y), n, i)
  {
    NextPixel(filter, y == 0, m.RowOf(y)[i], left, At(m.Before(y), i), At(m.Before(y), i - n));
  }

  method FilterFirst(m: Image, y: nat, n: nat, ghost filter: nat, t: nat, z: int, above: int, line: array<byte>)
    requires m.Valid() && y < m.height && 0 < n <= m.length == line.Length && filter < 5 && t == Mapped(filter, y == 0)
    requires z == m.Start(y) && (y > 0 ==> above == m.Start(y - 1))
    modifies line
    ensures FilteredTo(m, y, n, filter, line[..], n)
  {
    for i := 0 to n
      invariant FilteredTo(m, y, n, filter, line[..], i)
    {
      Pixels(m, y, z, above, i);
      var up := if LooksUp(t) then m.pixels[above + i] else 0;
      FirstResidueIs(m, y, n, filter, i, up);
      line[i] := FirstResidue(t, m.pixels[z + i], up);
    }
  }

  method FilterNext(m: Image, y: nat, n: nat, ghost filter: nat, t: nat, z: int, above: int, line: array<byte>)
    requires m.Valid() && y < m.height && 0 < n <= m.length == line.Length && filter < 5 && t == Mapped(filter, y == 0)
    requires z == m.Start(y) && (y > 0 ==> above == m.Start(y - 1)) && FilteredTo(m, y, n, filter, line[..], n)
    modifies line
    ensures FilteredTo(m, y, n, filter, line[..], m.length)
  {
    for i := n to m.length
      invariant FilteredTo(m, y, n, filter, line[..], i)
    {
      Pixels(m, y, z, above, i);
      Pixels(m, y, z, above, i - n);
      var up := if LooksUp(t) then m.pixels[above + i] else 0;
      var corner := if LooksUp(t) then m.pixels[above + i - n] else 0;
      NextResidueIs(m, y, n, filter, i, m.pixels[z + i - n], up, corner);
      line[i] := NextResidue(t, m.pixels[z + i], m.pixels[z + i - n], up, corner);
    }
  }

  /** Filtering row `y` into the line buffer; `n` bytes make a pixel. */
  method EncodePngLine(m: Image, y: nat, n: nat, filter: nat, line: array<byte>)
    requires m.Valid() && y < m.height && 0 < n <= m.length == line.Length && filter < 5
    modifies line
    ensures line[..] == Filtered(filter, m.Before(y), m.RowOf(y), n)
  {
    var t := Mapped(filter, y == 0);
    var z: int := m.Start(y);
    var above := z - (if m.flip then -(m.stride as int) else m.stride);
    if y > 0 {
      m.StartBefore(y);
    }
    FilterFirst(m, y, n, filter, t, z, above, line);
    FilterNext(m, y, n, filter, t, z, above, line);
  }

  // ----- choosing a filter

  function Signed(b: byte): int {
    if b < 128 then b else b - 256
  }

  /** The sum of the magnitudes of a line, as signed bytes. */
  function Estimate(line: seq<byte>): nat {
    if line == [] then 0 else Estimate(line[..|line| - 1]) + Abs(Signed(line[|line| - 1]))
  }

  method EstimateLine(line: array<byte>) returns (est: nat)
    ensures est == Estimate(line[..])
  {
    est := 0;
    for i := 0 to line.Length
      invariant est == Estimate(line[..i])
    {
      assert line[..i + 1][..i] == line[..i];
      est := est + Abs(Signed(line[i]));
    }
    assert line[..line.Length] == line[..];
  }

  ghost function Cost(m: Image, y: nat, n: nat, filter: nat): nat
    requires m.Valid() && y < m.height && filter < 5
  {
    Estimate(Filtered(filter, m.Before(y), m.RowOf(y), n))
  }

  method TryFilter(m: Image, y: nat, n: nat, filter: nat, line: array<byte>) returns (est: nat)
    requires m.Valid() && y < m.height && 0 < n <= m.length == line.Length && filter < 5
    modifies line
    ensures est == Cost(m, y, n, filter)
  {
    EncodePngLine(m, y, n, filter, line);
    est := EstimateLine(line);
  }

  const NO_ESTIMATE: nat := 0x7fff_ffff

  /** Among the first `k` filters, `best` is the first with the least cost, provided there is one below the limit. */
  ghost predicate IsBest(m: Image, y: nat, n: nat, k: nat, best: nat, cost: nat)
    requires m.Valid() && y < m.height && k <= 5
  {
    && best < 5 && cost <= NO_ESTIMATE && (cost < NO_ESTIMATE ==> best < k && cost == Cost(m, y, n, best))
    && (cost == NO_ESTIMATE ==> best == 0)
    && forall f :: 0 <= f < k && Cost(m, y, n, f) < NO_ESTIMATE ==>
         cost <= Cost(m, y, n, f) && (f < best ==> cost < Cost(m, y, n, f))
  }

  method BestFilter(m: Image, y: nat, n: nat, line: array<byte>) returns (best: nat)
    requires m.Valid() && y < m.height && 0 < n <= m.length == line.Length
    modifies line
    ensures best < 5 && IsBest(m, y, n, 5, best, Smaller(Cost(m, y, n, best), NO_ESTIMATE))
  {
    hide Cost;
    var cost := NO_ESTIMATE;
    best := 0;
    for f := 0 to 5
      invariant IsBest(m, y, n, f, best, cost)
    {
      var est := TryFilter(m, y, n, f, line);
      if est < cost {
        cost := est;
        best := f;
      }
    }
  }

  function Smaller(x: nat, y: nat): nat {
    if x < y then x else y
  }

  /** The filter a line gets: the one forced, or the first whose estimate is least. */
  method ChooseFilter(m: Image, y: nat, n: nat, force: int, line: array<byte>) returns (filter: nat)
    requires m.Valid() && y < m.height && 0 < n <= m.length == line.Length && force < 5
    modifies line
    ensures filter < 5 && line[..] == Filtered(filter, m.Before(y), m.RowOf(y), n)
    ensures if force >= 0 then filter == force
            else IsBest(m, y, n, 5, filter, Smaller(Cost(m, y, n, filter), NO_ESTIMATE))
  {
    if force > -1 {
      filter := force;
    } else {
      filter := BestFilter(m, y, n, line);
    }
    EncodePngLine(m, y, n, filter, line);
  }

  ghost function RowsOf(m: Image, y: nat): (rows: seq<Row>)
    requires m.Valid() && y <= m.height
    ensures |rows| == y && forall j :: 0 <= j < y ==> rows[j] == m.RowOf(j)
  {
    seq(y, j requires 0 <= j < y && m.Valid() && y <= m.height => m.RowOf(j))
  }

  lemma {:induction false} LinesMore(filters: seq<nat>, rows: seq<Row>, prev: Row, n: nat, f: nat, row: Row)
    requires |filters| == |rows| && (forall i :: 0 <= i < |filters| ==> filters[i] < 5) && f < 5
    ensures Lines(filters + [f], rows + [row], prev, n)
         == Lines(filters, rows, prev, n)
            + ([f as byte] + Filtered(f, if rows == [] then prev else rows[|rows| - 1], row, n))
    decreases |rows|
  {
    if rows == [] {
      assert (rows + [row])[1..] == [] && (filters + [f])[1..] == [];
    } else {
      assert (rows + [row])[1..] == rows[1..] + [row] && (filters + [f])[1..] == filters[1..] + [f];
      LinesMore(filters[1..], rows[1..], rows[0], n, f, row);
      hide Lines, Filtered;
      var a := [filters[0] as byte] + Filtered(filters[0], prev, rows[0], n);
      var b := Lines(filters[1..], rows[1..], rows[0], n);
      var c := [f as byte] + Filtered(f, rows[|rows| - 1], row, n);
      assert a + (b + c) == (a + b) + c;
    }
  }

  lemma NoLines(rows: seq<Row>, n: nat)
    requires rows == []
    ensures Lines([], rows, [], n) == []
  {
  }

  ghost predicate LinesOf(m: Image, n: nat, j: nat, filters: seq<nat>, filt: seq<byte>) {
    && m.Valid() && j <= m.height && |filters| == j && (forall i :: 0 <= i < j ==> filters[i] < 5)
    && filt == Lines(filters, RowsOf(m, j), [], n)
  }

  method AddLine(m: Image, j: nat, n: nat, force: int, line: array<byte>, filt: seq<byte>, ghost filters: seq<nat>)
    returns (more: seq<byte>, ghost chosen: seq<nat>)
    requires j < m.height && LinesOf(m, n, j, filters, filt) && 0 < n <= m.length == line.Length && force < 5
    modifies line
    ensures LinesOf(m, n, j + 1, chosen, more)
  {
    hide Lines, Filtered, IsBest;
    var filter := ChooseFilter(m, j, n, force, line);
    assert RowsOf(m, j + 1) == RowsOf(m, j) + [m.RowOf(j)];
    LinesMore(filters, RowsOf(m, j), [], n, filter, m.RowOf(j));
    more := filt + ([filter as byte] + line[..]);
    chosen := filters + [filter];
  }

  /** All lines of an image, each after its filter type. A force of five or more counts as none. */
  method FilterImage(m: Image, n: nat, forcePngFilter: int) returns (filt: seq<byte>, ghost filters: seq<nat>)
    requires m.Valid() && 0 < n <= m.length
    ensures |filters| == m.height && forall i :: 0 <= i < |filters| ==> filters[i] < 5
    ensures filt == Lines(filters, RowsOf(m, m.height), [], n)
  {
    hide Lines;
    var force := if forcePngFilter >= 5 then -1 else forcePngFilter;
    var line := new byte[m.length](_ => 0);
    filt, filters := [], [];
    NoLines(RowsOf(m, 0), n);
    for j := 0 to m.height
      invariant LinesOf(m, n, j, filters, filt)
    {
      filt, filters := AddLine(m, j, n, force, line, filt, filters);
    }
  }
}
