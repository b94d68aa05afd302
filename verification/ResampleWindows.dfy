/** The windows the resizer computes meet the conditions its loops rely on; rounding of floats is left aside. */
module ResampleWindows {
  import opened Resample

  datatype Filter = Trapezoid | Triangle | Cubic | CatmullRom | Mitchell

  /** How far the kernel reaches; `scale` is at most one. */
  function Support(f: Filter, scale: real): real {
    match f
    case Trapezoid => 0.5 + scale / 2.0
    case Triangle => 1.0
    case _ => 2.0
  }

  function Ceiling(x: real): int {
    -(-x).Floor
  }

  function PixelWidth(f: Filter, scale: real): int
    requires scale > 0.0
  {
    if scale > 1.0 then Ceiling(Support(f, 1.0 / scale) * 2.0) else Ceiling(Support(f, scale) * 2.0 / scale)
  }

  function Entries(f: Filter, scale: real): int
    requires scale > 0.0
  {
    PixelWidth(f, scale) + 1
  }

  function Margin(f: Filter, scale: real): int
    requires scale > 0.0
  {
    PixelWidth(f, scale) / 2
  }

  // The sample ranges: enlarging asks which inputs reach an output row, shrinking which outputs an input reaches.

  function UpFirst(y: int, radius: real, scale: real, shift: real): int
    requires scale > 0.0
  {
    ((y as real + 0.5 - radius + shift) / scale + 0.5).Floor
  }

  function UpLast(y: int, radius: real, scale: real, shift: real): int
    requires scale > 0.0
  {
    ((y as real + 0.5 + radius + shift) / scale - 0.5).Floor
  }

  function DownFirst(y: int, radius: real, scale: real, shift: real): int {
    ((y as real + 0.5 - radius) * scale - shift + 0.5).Floor
  }

  function DownLast(y: int, radius: real, scale: real, shift: real): int {
    ((y as real + 0.5 + radius) * scale - shift - 0.5).Floor
  }

  // ----- what the sample ranges are: the rows whose centres the kernel reaches

  /** Enlarging: the inputs of an output row are those whose centres lie within the support of the place that the centre
      of the row has in the input. */
  lemma UpReach(y: int, k: int, support: real, scale: real, shift: real)
    requires scale > 0.0
    ensures var centre := (y as real + 0.5 + shift) / scale;
            UpFirst(y, support * scale, scale, shift) <= k <= UpLast(y, support * scale, scale, shift)
            <==> centre - support < k as real + 0.5 <= centre + support
  {
    var c, r := y as real + 0.5 + shift, support * scale;
    QuotientOfSum(c, support, r, scale);
    QuotientOfSum(c, -support, -r, scale);
    assert y as real + 0.5 - r + shift == c + -r && y as real + 0.5 + r + shift == c + r;
    FloorReach(c / scale - support + 0.5, k);
    FloorReach(c / scale + support - 0.5, k + 1);
  }

  lemma QuotientOfSum(c: real, s: real, t: real, scale: real)
    requires scale > 0.0 && t == s * scale
    ensures (c + t) / scale == c / scale + s
  {
    var q := c / scale;
    assert q * scale == c;
    assert (q + s) * scale == c + t;
  }

  lemma FloorReach(x: real, k: int)
    ensures x.Floor <= k <==> x < k as real + 1.0
    ensures x.Floor >= k - 1 <==> x >= k as real - 1.0
  {
  }

  /** Shrinking: the outputs an input row reaches are those whose centres lie within the support of the place that its
      own centre has in the output. */
  lemma DownReach(y: int, k: int, support: real, scale: real, shift: real)
    requires scale > 0.0
    ensures var centre := (y as real + 0.5) * scale - shift;
            DownFirst(y, support / scale, scale, shift) <= k <= DownLast(y, support / scale, scale, shift)
            <==> centre - support < k as real + 0.5 <= centre + support
  {
    DownEnds(y, support, scale, shift);
  }

  lemma FloorMonotone(a: real, b: real)
    requires a <= b
    ensures a.Floor <= b.Floor
  {
  }

  lemma DivideMonotone(a: real, b: real, c: real)
    requires a <= b && c > 0.0
    ensures a / c <= b / c
  {
    assert (b - a) / c >= 0.0;
    assert b / c == a / c + (b - a) / c;
  }

  lemma MultiplyMonotone(a: real, b: real, c: real)
    requires a <= b && c >= 0.0
    ensures a * c <= b * c
  {
    assert (b - a) * c >= 0.0;
  }

  /** Enlarging: the ends of the window before rounding are twice the support apart. */
  lemma UpWidth(y: int, support: real, scale: real, shift: real)
    requires scale > 0.0 && 2.0 * support >= 1.0
    ensures var r := support * scale;
            UpFirst(y, r, scale, shift) <= UpLast(y, r, scale, shift)
            && (UpLast(y, r, scale, shift) - UpFirst(y, r, scale, shift)) as real < 2.0 * support
  {
    var c := y as real + 0.5 + shift;
    var r := support * scale;
    assert (c - r) / scale == c / scale - support;
    assert (c + r) / scale == c / scale + support;
    assert y as real + 0.5 - r + shift == c - r && y as real + 0.5 + r + shift == c + r;
  }

  lemma UpMonotone(y: int, z: int, radius: real, scale: real, shift: real)
    requires y <= z && scale > 0.0
    ensures UpFirst(y, radius, scale, shift) <= UpFirst(z, radius, scale, shift)
    ensures UpLast(y, radius, scale, shift) <= UpLast(z, radius, scale, shift)
  {
    DivideMonotone(y as real + 0.5 - radius + shift, z as real + 0.5 - radius + shift, scale);
    DivideMonotone(y as real + 0.5 + radius + shift, z as real + 0.5 + radius + shift, scale);
  }

  lemma DownEnds(y: int, support: real, scale: real, shift: real)
    requires scale > 0.0
    ensures var c := (y as real + 0.5) * scale - shift;
            DownFirst(y, support / scale, scale, shift) == (c - support + 0.5).Floor
            && DownLast(y, support / scale, scale, shift) == (c + support - 0.5).Floor
  {
    var r := support / scale;
    assert r * scale == support;
    assert (y as real + 0.5 - r) * scale == (y as real + 0.5) * scale - r * scale;
    assert (y as real + 0.5 + r) * scale == (y as real + 0.5) * scale + r * scale;
  }

  /** Shrinking: a window is narrower than twice the support, and the next one starts no later than just after it. */
  lemma DownWidth(y: int, support: real, scale: real, shift: real)
    requires scale > 0.0 && 2.0 * support >= 1.0 && 2.0 * support >= scale
    ensures var r := support / scale;
            DownFirst(y, r, scale, shift) <= DownLast(y, r, scale, shift)
            && (DownLast(y, r, scale, shift) - DownFirst(y, r, scale, shift)) as real < 2.0 * support
            && DownFirst(y + 1, r, scale, shift) <= DownLast(y, r, scale, shift) + 1
  {
    DownEnds(y, support, scale, shift);
    DownEnds(y + 1, support, scale, shift);
    assert ((y + 1) as real + 0.5) * scale == (y as real + 0.5) * scale + scale;
    FloorMonotone((y as real + 0.5) * scale - shift + scale - support + 0.5,
        (y as real + 0.5) * scale - shift + support - 0.5 + 1.0);
  }

  lemma DownMonotone(y: int, z: int, radius: real, scale: real, shift: real)
    requires y <= z && scale > 0.0
    ensures DownFirst(y, radius, scale, shift) <= DownFirst(z, radius, scale, shift)
    ensures DownLast(y, radius, scale, shift) <= DownLast(z, radius, scale, shift)
  {
    MultiplyMonotone(y as real + 0.5 - radius, z as real + 0.5 - radius, scale);
    MultiplyMonotone(y as real + 0.5 + radius, z as real + 0.5 + radius, scale);
  }

  lemma SupportEnough(f: Filter, scale: real)
    requires 0.0 < scale <= 1.0
    ensures 2.0 * Support(f, scale) >= 1.0 && 2.0 * Support(f, scale) >= scale
  {
  }

  lemma CeilingAbove(x: real)
    ensures x <= Ceiling(x) as real < x + 1.0
  {
  }

  function UpRadius(f: Filter, scale: real): real
    requires scale > 0.0
  {
    Support(f, 1.0 / scale) * scale
  }

  function DownRadius(f: Filter, scale: real): real
    requires scale > 0.0
  {
    Support(f, scale) / scale
  }

  lemma UpFits(y: int, f: Filter, scale: real, shift: real)
    requires scale > 1.0
    ensures var r := UpRadius(f, scale);
            UpFirst(y, r, scale, shift) <= UpLast(y, r, scale, shift) < UpFirst(y, r, scale, shift) + Entries(f, scale)
  {
    var s := Support(f, 1.0 / scale);
    SupportEnough(f, 1.0 / scale);
    CeilingAbove(s * 2.0);
    UpWidth(y, s, scale, shift);
  }

  /** The windows for enlarging are as `Resample` wants them, for every filter, scale and shift. */
  lemma UpscaleWindows(p: Plan, f: Filter, scale: real, shift: real, rows: nat)
    requires scale > 1.0
    requires forall y :: 0 <= y < rows ==>
               && p.first(y) == UpFirst(y, UpRadius(f, scale), scale, shift) <= p.n0(y)
               && p.n1(y) <= p.last(y) == UpLast(y, UpRadius(f, scale), scale, shift)
    ensures Windows(p, 0, rows, Entries(f, scale))
  {
    forall y | 0 <= y < rows ensures p.first(y) <= p.last(y) < p.first(y) + Entries(f, scale) {
      UpFits(y, f, scale, shift);
    }
    forall y, z | 0 <= y <= z < rows ensures p.first(y) <= p.first(z) && p.last(y) <= p.last(z) {
      UpMonotone(y, z, UpRadius(f, scale), scale, shift);
    }
  }

  lemma MarginReach(support: real, scale: real, width: int, m: int)
    requires 0.0 < scale && support * 2.0 / scale <= width as real <= 2.0 * m as real + 1.0
    ensures 2.0 * support <= 2.0 * (m as real * scale) + scale
  {
    var q := support * 2.0 / scale;
    assert q * scale == 2.0 * support;
    MultiplyMonotone(q, 2.0 * m as real + 1.0, scale);
    assert (2.0 * m as real + 1.0) * scale == 2.0 * (m as real * scale) + scale;
  }

  lemma FirstEnd(support: real, scale: real, shift: real, m: int)
    requires 0.0 < scale <= 1.0 && scale <= 2.0 * support <= 2.0 * (m as real * scale) + scale && shift >= 0.0
    ensures DownFirst(-m, support / scale, scale, shift) <= 0
  {
    DownEnds(-m, support, scale, shift);
    assert ((-m) as real + 0.5) * scale == -(m as real * scale) + 0.5 * scale;
  }

  lemma LastEnd(support: real, scale: real, shift: real, m: int, inputs: nat, rows: nat)
    requires 0.0 < scale <= 1.0 && scale <= 2.0 * support <= 2.0 * (m as real * scale) + scale
    requires rows as real + shift <= inputs as real * scale
    ensures rows <= DownLast(inputs + m - 1, support / scale, scale, shift) + 1
  {
    DownEnds(inputs + m - 1, support, scale, shift);
    assert ((inputs + m - 1) as real + 0.5) * scale == inputs as real * scale + m as real * scale - 0.5 * scale;
    FloorMonotone(rows as real - 1.0, rows as real + m as real * scale - 0.5 * scale + support - 0.5);
  }

  lemma DownFits(y: int, f: Filter, scale: real, shift: real)
    requires 0.0 < scale <= 1.0
    ensures var r := DownRadius(f, scale);
            var first, last := DownFirst(y, r, scale, shift), DownLast(y, r, scale, shift);
            first <= last < first + Entries(f, scale) && DownFirst(y + 1, r, scale, shift) <= last + 1
  {
    var s := Support(f, scale);
    SupportEnough(f, scale);
    CeilingAbove(s * 2.0 / scale);
    DivideByLess(s * 2.0, scale);
    DownWidth(y, s, scale, shift);
  }

  lemma DivideByLess(a: real, scale: real)
    requires 0.0 < scale <= 1.0 && a >= 0.0
    ensures a <= a / scale
  {
    var q := a / scale;
    assert q * scale == a;
    assert q >= 0.0;
    MultiplyMonotone(scale, 1.0, q);
  }

  /** The margins are wide enough for the windows to cover the output. */
  lemma MarginCovers(f: Filter, scale: real, shift: real, inputs: nat, rows: nat)
    requires 0.0 < scale <= 1.0 && shift >= 0.0 && rows as real + shift <= inputs as real * scale
    ensures Margin(f, scale) >= 0 && DownFirst(-Margin(f, scale), DownRadius(f, scale), scale, shift) <= 0
    ensures rows <= DownLast(inputs + Margin(f, scale) - 1, DownRadius(f, scale), scale, shift) + 1
  {
    var s, m := Support(f, scale), Margin(f, scale);
    SupportEnough(f, scale);
    CeilingAbove(s * 2.0 / scale);
    DivideByLess(s * 2.0, scale);
    MarginReach(s, scale, PixelWidth(f, scale), m);
    FirstEnd(s, scale, shift, m);
    LastEnd(s, scale, shift, m, inputs, rows);
  }

  /** The steps from `lo` up to `hi` have the windows of filter `f`, and contributors inside them. */
  ghost predicate ShrinksBy(p: Plan, f: Filter, scale: real, shift: real, lo: int, hi: int)
    requires scale > 0.0
  {
    forall y :: lo <= y < hi ==>
      && p.first(y) == DownFirst(y, DownRadius(f, scale), scale, shift) <= p.n0(y)
      && p.n1(y) <= p.last(y) == DownLast(y, DownRadius(f, scale), scale, shift)
  }

  lemma ShrinkWindows(p: Plan, f: Filter, scale: real, shift: real, lo: int, hi: int)
    requires 0.0 < scale <= 1.0 && ShrinksBy(p, f, scale, shift, lo, hi)
    ensures Windows(p, lo, hi, Entries(f, scale))
  {
    forall y | lo <= y < hi ensures p.first(y) <= p.last(y) < p.first(y) + Entries(f, scale) {
      DownFits(y, f, scale, shift);
    }
    forall y, z | lo <= y <= z < hi ensures p.first(y) <= p.first(z) && p.last(y) <= p.last(z) {
      DownMonotone(y, z, DownRadius(f, scale), scale, shift);
    }
  }

  /** The windows for shrinking a picture, or a region of it, are as `Resample` wants them, for every filter. */
  lemma ShrinkCovers(p: Plan, f: Filter, scale: real, shift: real, inputs: nat, rows: nat)
    requires 0.0 < scale <= 1.0 && rows > 0 && shift >= 0.0 && rows as real + shift <= inputs as real * scale
    requires ShrinksBy(p, f, scale, shift, -Margin(f, scale), inputs + Margin(f, scale))
    ensures Covers(p, -Margin(f, scale), inputs + Margin(f, scale), rows)
  {
    var lo, hi := -Margin(f, scale), inputs + Margin(f, scale);
    MarginCovers(f, scale, shift, inputs, rows);
    forall y, z | lo <= y < hi - 1 && z == y + 1 ensures p.first(z) <= p.last(y) + 1 {
      DownFits(y, f, scale, shift);
    }
  }

  /** The scale and shift for the part of a picture between the fractions `t0` and `t1` of its height. */
  function RegionScale(inputs: nat, rows: nat, t0: real, t1: real): real
    requires inputs > 0 && t0 < t1
  {
    rows as real / inputs as real / (t1 - t0)
  }

  function RegionShift(rows: nat, t0: real, t1: real): real
    requires t0 < t1
  {
    t0 * rows as real / (t1 - t0)
  }

  /** Whatever part is chosen, its rows lie within the picture, as `Shrink` demands; below the whole there is a rest. */
  lemma RegionFits(inputs: nat, rows: nat, t0: real, t1: real)
    requires inputs > 0 && rows > 0 && 0.0 <= t0 < t1 <= 1.0
    ensures var scale, shift := RegionScale(inputs, rows, t0, t1), RegionShift(rows, t0, t1);
            && scale > 0.0 && shift >= 0.0 && rows as real + shift <= inputs as real * scale
            && (rows as real + shift == inputs as real * scale <==> t1 == 1.0)
  {
    var d, r, n := t1 - t0, rows as real, inputs as real;
    var a, b := r / n, r / d;
    assert a * n == r && b * d == r;
    assert RegionScale(inputs, rows, t0, t1) * d == a;
    var scale, shift := RegionScale(inputs, rows, t0, t1), RegionShift(rows, t0, t1);
    assert shift == t0 * b;
    Scaled(n, scale, d, r);
    assert n * scale == b;
    assert r + shift == t1 * b;
    assert b > 0.0;
    MultiplyMonotone(t1, 1.0, b);
  }

  lemma Scaled(n: real, scale: real, d: real, r: real)
    requires d > 0.0 && n > 0.0 && scale * d == r / n
    ensures n * scale == r / d
  {
    var q := r / n;
    assert q * n == r;
    assert n * scale * d == q * n;
  }

  lemma EntriesPositive(f: Filter, scale: real)
    requires scale > 0.0
    ensures Entries(f, scale) > 0
  {
    if scale > 1.0 {
      SupportEnough(f, 1.0 / scale);
      CeilingAbove(Support(f, 1.0 / scale) * 2.0);
    } else {
      SupportEnough(f, scale);
      CeilingAbove(Support(f, scale) * 2.0 / scale);
      DivideByLess(Support(f, scale) * 2.0, scale);
    }
  }

  /** Enlarging with the resizer's own windows and ring. */
  method Enlarge(p: Plan, f: Filter, scale: real, shift: real, rows: nat) returns (encoded: seq<Encoded>)
    requires Decodes(p) && scale > 1.0
    requires forall y :: 0 <= y < rows ==>
               && p.first(y) == UpFirst(y, UpRadius(f, scale), scale, shift) <= p.n0(y)
               && p.n1(y) <= p.last(y) == UpLast(y, UpRadius(f, scale), scale, shift)
    ensures |encoded| == rows && forall y :: 0 <= y < rows ==> encoded[y] == Encoded(y, UpRow(p, y))
  {
    EntriesPositive(f, scale);
    UpscaleWindows(p, f, scale, shift, rows);
    var resizer := new Resizer(p, Entries(f, scale));
    resizer.BufferLoopUpsample(rows);
    encoded := resizer.encoded;
  }

  method ShrinkThrough(p: Plan, entries: nat, lo: int, hi: int, rows: nat) returns (encoded: seq<Encoded>)
    requires Decodes(p) && entries > 0 && rows > 0 && Windows(p, lo, hi, entries) && Covers(p, lo, hi, rows)
    ensures |encoded| == rows && Finished(p, encoded, lo, hi)
  {
    var resizer := new Resizer(p, entries);
    resizer.BufferLoopDownsample(lo, hi, rows);
    encoded := resizer.encoded;
  }

  lemma ShrinkReady(p: Plan, f: Filter, scale: real, shift: real, inputs: nat, rows: nat,
        lo: int, hi: int, entries: int)
    requires 0.0 < scale <= 1.0 && rows > 0 && shift >= 0.0 && rows as real + shift <= inputs as real * scale
    requires lo == -Margin(f, scale) && hi == inputs + Margin(f, scale) && entries == Entries(f, scale)
    requires ShrinksBy(p, f, scale, shift, lo, hi)
    ensures entries > 0 && Windows(p, lo, hi, entries) && Covers(p, lo, hi, rows)
  {
    EntriesPositive(f, scale);
    ShrinkWindows(p, f, scale, shift, lo, hi);
    ShrinkCovers(p, f, scale, shift, inputs, rows);
  }

  /** Shrinking a picture, or a region of it, with the resizer's own windows, margins and ring. */
  method Shrink(p: Plan, f: Filter, scale: real, shift: real, inputs: nat, rows: nat)
    returns (encoded: seq<Encoded>)
    requires Decodes(p) && 0.0 < scale <= 1.0 && rows > 0 && shift >= 0.0
    requires rows as real + shift <= inputs as real * scale
    requires ShrinksBy(p, f, scale, shift, -Margin(f, scale), inputs + Margin(f, scale))
    ensures |encoded| == rows && Finished(p, encoded, -Margin(f, scale), inputs + Margin(f, scale))
  {
    hide Windows, Covers, Decodes, ShrinksBy, Finished, Support, PixelWidth;
    var lo, hi, entries := -Margin(f, scale), inputs + Margin(f, scale), Entries(f, scale);
    ShrinkReady(p, f, scale, shift, inputs, rows, lo, hi, entries);
    encoded := ShrinkThrough(p, entries, lo, hi, rows);
  }
}
