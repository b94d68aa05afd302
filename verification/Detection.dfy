/** From scored boxes to results: sorting, greedy non-maximum suppression per class, and the final selection. */
module Detection {

  function Min(x: real, y: real): real {
    if x < y then x else y
  }

  function Max(x: real, y: real): real {
    if x < y then y else x
  }

  /** The length two stretches have in common, ends included. */
  function Common(min0: real, max0: real, min1: real, max1: real): real {
    Max(0.0, Min(max0, max1) - Max(min0, min1) + 1.0)
  }

  function Area(xmin: real, ymin: real, xmax: real, ymax: real): real {
    (xmax - xmin + 1.0) * (ymax - ymin + 1.0)
  }

  /** The common part `i` of two areas, as a share of all they cover. */
  function Share(i: real, area0: real, area1: real): real {
    var u := area0 + area1 - i;
    if u <= 0.0 then 0.0 else i / u
  }

  function CalculateOverlap(xmin0: real, ymin0: real, xmax0: real, ymax0: real,
                            xmin1: real, ymin1: real, xmax1: real, ymax1: real): (r: real)
  {
    var w := Common(xmin0, xmax0, xmin1, xmax1);
    var h := Common(ymin0, ymax0, ymin1, ymax1);
    Share(w * h, Area(xmin0, ymin0, xmax0, ymax0), Area(xmin1, ymin1, xmax1, ymax1))
  }

  lemma OverlapSymmetric(xmin0: real, ymin0: real, xmax0: real, ymax0: real,
                         xmin1: real, ymin1: real, xmax1: real, ymax1: real)
    ensures CalculateOverlap(xmin0, ymin0, xmax0, ymax0, xmin1, ymin1, xmax1, ymax1)
         == CalculateOverlap(xmin1, ymin1, xmax1, ymax1, xmin0, ymin0, xmax0, ymax0)
  {
    assert Common(xmin0, xmax0, xmin1, xmax1) == Common(xmin1, xmax1, xmin0, xmax0);
    assert Common(ymin0, ymax0, ymin1, ymax1) == Common(ymin1, ymax1, ymin0, ymax0);
  }

  /** A box with sides covers itself. */
  lemma OverlapSelf(xmin: real, ymin: real, xmax: real, ymax: real)
    requires xmin <= xmax && ymin <= ymax
    ensures CalculateOverlap(xmin, ymin, xmax, ymax, xmin, ymin, xmax, ymax) == 1.0
  {
    var a := Area(xmin, ymin, xmax, ymax);
    ProductMonotone(1.0, xmax - xmin + 1.0, 1.0, ymax - ymin + 1.0);
    assert Common(xmin, xmax, xmin, xmax) * Common(ymin, ymax, ymin, ymax) == a;
    WholeShare(a);
  }

  lemma WholeShare(a: real)
    requires 0.0 < a
    ensures Share(a, a, a) == 1.0
  {
  }

  /** Boxes a pixel or more apart do not overlap. */
  lemma OverlapApart(xmin0: real, ymin0: real, xmax0: real, ymax0: real,
                     xmin1: real, ymin1: real, xmax1: real, ymax1: real)
    requires xmin1 - xmax0 >= 1.0 || xmin0 - xmax1 >= 1.0 || ymin1 - ymax0 >= 1.0 || ymin0 - ymax1 >= 1.0
    ensures CalculateOverlap(xmin0, ymin0, xmax0, ymax0, xmin1, ymin1, xmax1, ymax1) == 0.0
  {
    var w, h := Common(xmin0, xmax0, xmin1, xmax1), Common(ymin0, ymax0, ymin1, ymax1);
    assert w == 0.0 || h == 0.0;
    assert w * h == 0.0;
    NoShare(Area(xmin0, ymin0, xmax0, ymax0), Area(xmin1, ymin1, xmax1, ymax1));
  }

  lemma NoShare(a: real, b: real)
    ensures Share(0.0, a, b) == 0.0
  {
  }

  // ----- the overlap counts pixels

  /** The pixels of a box, ends included. */
  function Pixels(x0: int, y0: int, x1: int, y1: int): set<(int, int)> {
    set x, y | x0 <= x <= x1 && y0 <= y <= y1 :: (x, y)
  }

  /** Those of one row. */
  function RowPixels(x0: int, x1: int, y: int): set<(int, int)> {
    set x | x0 <= x <= x1 :: (x, y)
  }

  function Length(a: int, b: int): nat {
    if a <= b then b - a + 1 else 0
  }

  lemma {:induction false} RowPixelsCount(x0: int, x1: int, y: int)
    ensures |RowPixels(x0, x1, y)| == Length(x0, x1)
    decreases x1 - x0
  {
    if x0 <= x1 {
      RowPixelsCount(x0, x1 - 1, y);
      assert RowPixels(x0, x1, y) == RowPixels(x0, x1 - 1, y) + {(x1, y)};
    } else {
      assert RowPixels(x0, x1, y) == {};
    }
  }

  lemma {:induction false} PixelsCount(x0: int, y0: int, x1: int, y1: int)
    ensures |Pixels(x0, y0, x1, y1)| == Length(x0, x1) * Length(y0, y1)
    decreases y1 - y0
  {
    if y0 <= y1 {
      hide Pixels, RowPixels, Length;
      PixelsCount(x0, y0, x1, y1 - 1);
      RowPixelsCount(x0, x1, y1);
      PixelsMore(x0, y0, x1, y1);
      LengthMore(Length(x0, x1), y0, y1);
    } else {
      hide Pixels;
      NoPixels(x0, y0, x1, y1);
    }
  }

  lemma NoPixels(x0: int, y0: int, x1: int, y1: int)
    requires y1 < y0
    ensures |Pixels(x0, y0, x1, y1)| == 0 && Length(y0, y1) == 0
  {
    assert Pixels(x0, y0, x1, y1) == {};
  }

  lemma LengthMore(w: nat, a: int, b: int)
    requires a <= b
    ensures w * Length(a, b) == w * Length(a, b - 1) + w
  {
    var n := Length(a, b - 1);
    assert Length(a, b) == n + 1 && w * (n + 1) == w * n + w;
  }

  lemma PixelsMore(x0: int, y0: int, x1: int, y1: int)
    requires y0 <= y1
    ensures Pixels(x0, y0, x1, y1) == Pixels(x0, y0, x1, y1 - 1) + RowPixels(x0, x1, y1)
    ensures Pixels(x0, y0, x1, y1 - 1) !! RowPixels(x0, x1, y1)
  {
  }

  function Later(a: int, b: int): int {
    if a < b then b else a
  }

  function Earlier(a: int, b: int): int {
    if a < b then a else b
  }

  lemma PixelsInBoth(x0: int, y0: int, x1: int, y1: int, u0: int, v0: int, u1: int, v1: int)
    ensures Pixels(x0, y0, x1, y1) * Pixels(u0, v0, u1, v1)
         == Pixels(Later(x0, u0), Later(y0, v0), Earlier(x1, u1), Earlier(y1, v1))
  {
  }

  lemma CommonIsLength(a0: int, a1: int, b0: int, b1: int)
    ensures Common(a0 as real, a1 as real, b0 as real, b1 as real) == Length(Later(a0, b0), Earlier(a1, b1)) as real
  {
  }

  lemma AreaIsCount(x0: int, y0: int, x1: int, y1: int)
    requires x0 <= x1 && y0 <= y1
    ensures Area(x0 as real, y0 as real, x1 as real, y1 as real) == |Pixels(x0, y0, x1, y1)| as real
  {
    PixelsCount(x0, y0, x1, y1);
    ProductAsReal(Length(x0, x1), Length(y0, y1));
  }

  lemma ProductAsReal(a: nat, b: nat)
    ensures a as real * b as real == (a * b) as real
  {
  }

  lemma ShareOfUnion(i: nat, a: nat, b: nat, u: nat)
    requires u == a + b - i && u > 0
    ensures Share(i as real, a as real, b as real) * u as real == i as real
  {
    var q := i as real / u as real;
    assert q * u as real == i as real;
  }

  lemma UnionCount<T>(a: set<T>, b: set<T>)
    ensures |a + b| == |a| + |b| - |a * b|
  {
  }

  lemma UnionSome<T>(a: set<T>, b: set<T>, x: T)
    requires x in a
    ensures |a + b| > 0
  {
    assert x in a + b;
  }

  lemma OverlapIsShare(x0: int, y0: int, x1: int, y1: int, u0: int, v0: int, u1: int, v1: int)
    requires x0 <= x1 && y0 <= y1 && u0 <= u1 && v0 <= v1
    ensures CalculateOverlap(x0 as real, y0 as real, x1 as real, y1 as real,
                             u0 as real, v0 as real, u1 as real, v1 as real)
         == Share(|Pixels(x0, y0, x1, y1) * Pixels(u0, v0, u1, v1)| as real,
                  |Pixels(x0, y0, x1, y1)| as real, |Pixels(u0, v0, u1, v1)| as real)
  {
    hide Pixels, Common, Area, Share, Length, Later, Earlier;
    PixelsInBoth(x0, y0, x1, y1, u0, v0, u1, v1);
    PixelsCount(Later(x0, u0), Later(y0, v0), Earlier(x1, u1), Earlier(y1, v1));
    CommonIsLength(x0, x1, u0, u1);
    CommonIsLength(y0, y1, v0, v1);
    ProductAsReal(Length(Later(x0, u0), Earlier(x1, u1)), Length(Later(y0, v0), Earlier(y1, v1)));
    AreaIsCount(x0, y0, x1, y1);
    AreaIsCount(u0, v0, u1, v1);
  }

  /** For boxes with integer corners, the overlap is the number of pixels in both over the number in either. */
  lemma OverlapCounts(x0: int, y0: int, x1: int, y1: int, u0: int, v0: int, u1: int, v1: int)
    requires x0 <= x1 && y0 <= y1 && u0 <= u1 && v0 <= v1
    ensures var a, b := Pixels(x0, y0, x1, y1), Pixels(u0, v0, u1, v1);
            CalculateOverlap(x0 as real, y0 as real, x1 as real, y1 as real,
                             u0 as real, v0 as real, u1 as real, v1 as real) * |a + b| as real == |a * b| as real
  {
    hide Pixels, Share, CalculateOverlap;
    var a, b := Pixels(x0, y0, x1, y1), Pixels(u0, v0, u1, v1);
    OverlapIsShare(x0, y0, x1, y1, u0, v0, u1, v1);
    SomePixel(x0, y0, x1, y1);
    UnionCount(a, b);
    UnionSome(a, b, (x0, y0));
    ShareOfUnion(|a * b|, |a|, |b|, |a + b|);
  }

  lemma SomePixel(x0: int, y0: int, x1: int, y1: int)
    requires x0 <= x1 && y0 <= y1
    ensures (x0, y0) in Pixels(x0, y0, x1, y1)
  {
  }

  lemma ProductMonotone(a: real, b: real, c: real, d: real)
    requires 0.0 <= a <= b && 0.0 <= c <= d
    ensures 0.0 <= a * c <= b * d
  {
    assert a * c <= b * c && b * c <= b * d;
  }

  lemma CommonArea(xmin0: real, ymin0: real, xmax0: real, ymax0: real,
                   xmin1: real, ymin1: real, xmax1: real, ymax1: real)
    requires xmin0 <= xmax0 && ymin0 <= ymax0
    ensures 0.0 <= Common(xmin0, xmax0, xmin1, xmax1) * Common(ymin0, ymax0, ymin1, ymax1)
    ensures Common(xmin0, xmax0, xmin1, xmax1) * Common(ymin0, ymax0, ymin1, ymax1) <= Area(xmin0, ymin0, xmax0, ymax0)
    ensures 1.0 <= Area(xmin0, ymin0, xmax0, ymax0)
  {
    ProductMonotone(Common(xmin0, xmax0, xmin1, xmax1), xmax0 - xmin0 + 1.0,
                    Common(ymin0, ymax0, ymin1, ymax1), ymax0 - ymin0 + 1.0);
    ProductMonotone(1.0, xmax0 - xmin0 + 1.0, 1.0, ymax0 - ymin0 + 1.0);
  }

  lemma Proportion(i: real, a: real, b: real)
    requires 0.0 <= i <= a && i <= b && 1.0 <= a
    ensures 0.0 <= Share(i, a, b) <= 1.0
  {
    Quotient(i, a + b - i);
  }

  lemma Quotient(i: real, u: real)
    requires 0.0 <= i <= u && 0.0 < u
    ensures 0.0 <= i / u <= 1.0
  {
    var q := i / u;
    assert q * u == i;
    Scaled(0.0, q, u);
    Scaled(q, 1.0, u);
  }

  lemma Scaled(x: real, y: real, u: real)
    requires 0.0 < u
    ensures x <= y <==> x * u <= y * u
  {
    var d := y - x;
    assert d * u == y * u - x * u;
    Sign(d, u);
  }

  lemma Sign(d: real, u: real)
    requires 0.0 < u
    ensures d >= 0.0 ==> d * u >= 0.0
    ensures d < 0.0 ==> d * u < 0.0
  {
  }

  /** The overlap of boxes with sides is a proportion. */
  lemma OverlapRange(xmin0: real, ymin0: real, xmax0: real, ymax0: real,
                     xmin1: real, ymin1: real, xmax1: real, ymax1: real)
    requires xmin0 <= xmax0 && ymin0 <= ymax0 && xmin1 <= xmax1 && ymin1 <= ymax1
    ensures 0.0 <= CalculateOverlap(xmin0, ymin0, xmax0, ymax0, xmin1, ymin1, xmax1, ymax1) <= 1.0
  {
    CommonArea(xmin0, ymin0, xmax0, ymax0, xmin1, ymin1, xmax1, ymax1);
    CommonArea(xmin1, ymin1, xmax1, ymax1, xmin0, ymin0, xmax0, ymax0);
    assert Common(xmin0, xmax0, xmin1, xmax1) == Common(xmin1, xmax1, xmin0, xmax0);
    assert Common(ymin0, ymax0, ymin1, ymax1) == Common(ymin1, ymax1, ymin0, ymax0);
    Proportion(Common(xmin0, xmax0, xmin1, xmax1) * Common(ymin0, ymax0, ymin1, ymax1),
               Area(xmin0, ymin0, xmax0, ymax0), Area(xmin1, ymin1, xmax1, ymax1));
  }

  /** Boxes as position and size, four numbers each, with the classes of the boxes. */
  datatype Boxes = Boxes(locations: seq<real>, classIds: seq<int>) {
    predicate Valid() {
      |locations| == 4 * |classIds|
    }

    predicate Names(n: int) {
      0 <= n < |classIds|
    }

    function Overlap(n: int, m: int): real
      requires Valid() && Names(n) && Names(m)
    {
      CalculateOverlap(locations[n * 4 + 0], locations[n * 4 + 1],
                       locations[n * 4 + 0] + locations[n * 4 + 2], locations[n * 4 + 1] + locations[n * 4 + 3],
                       locations[m * 4 + 0], locations[m * 4 + 1],
                       locations[m * 4 + 0] + locations[m * 4 + 2], locations[m * 4 + 1] + locations[m * 4 + 3])
    }

    lemma Symmetric(n: int, m: int)
      requires Valid() && Names(n) && Names(m)
      ensures Overlap(n, m) == Overlap(m, n)
    {
      OverlapSymmetric(locations[n * 4 + 0], locations[n * 4 + 1],
                       locations[n * 4 + 0] + locations[n * 4 + 2], locations[n * 4 + 1] + locations[n * 4 + 3],
                       locations[m * 4 + 0], locations[m * 4 + 1],
                       locations[m * 4 + 0] + locations[m * 4 + 2], locations[m * 4 + 1] + locations[m * 4 + 3]);
    }
  }

  const REMOVED: int := -1

  /** Entries name boxes, or are removed. */
  ghost predicate IsOrder(b: Boxes, order: seq<int>) {
    b.Valid() && forall j :: 0 <= j < |order| ==> order[j] == REMOVED || b.Names(order[j])
  }

  predicate OfClass(b: Boxes, n: int, c: int) {
    b.Names(n) && b.classIds[n] == c
  }

  /** The greedy rule: an entry of class `c` survives if no earlier survivor of the class overlaps it too much. */
  ghost predicate Survives(b: Boxes, order: seq<int>, c: int, threshold: real, j: nat)
    requires IsOrder(b, order) && j < |order|
    decreases j
  {
    OfClass(b, order[j], c) && !Suppressed(b, order, c, threshold, j, j)
  }

  /** A survivor before `i` overlaps entry `j` too much. */
  ghost predicate Suppressed(b: Boxes, order: seq<int>, c: int, threshold: real, i: nat, j: nat)
    requires IsOrder(b, order) && i <= j < |order| && OfClass(b, order[j], c)
    decreases i, 0
  {
    exists k :: 0 <= k < i && Survives(b, order, c, threshold, k) && b.Overlap(order[k], order[j]) > threshold
  }

  /** The order after the entries before `i` have done their work. */
  ghost predicate DoneBefore(b: Boxes, was: seq<int>, now: seq<int>, c: int, threshold: real, i: nat)
    requires IsOrder(b, was)
  {
    |now| == |was| && forall j :: 0 <= j < |was| ==>
      now[j] == if OfClass(b, was[j], c) && Suppressed(b, was, c, threshold, if i < j then i else j, j) then REMOVED
                else was[j]
  }

  /** The entries after `i` that overlap box `n` too much are removed. */
  ghost predicate ClearedAfter(b: Boxes, was: seq<int>, now: seq<int>, c: int, threshold: real, i: nat, n: int,
        end: nat)
    requires IsOrder(b, was) && b.Names(n)
  {
    |now| == |was| && forall j :: 0 <= j < |was| ==>
      now[j] == if i < j < end && OfClass(b, was[j], c) && b.Overlap(n, was[j]) > threshold then REMOVED else was[j]
  }

  lemma SurvivorClears(b: Boxes, was: seq<int>, mid: seq<int>, now: seq<int>, c: int, threshold: real, i: nat)
    requires IsOrder(b, was) && IsOrder(b, mid) && DoneBefore(b, was, mid, c, threshold, i) && i < |was|
    requires OfClass(b, mid[i], c) && ClearedAfter(b, mid, now, c, threshold, i, mid[i], |was|)
    ensures DoneBefore(b, was, now, c, threshold, i + 1)
  {
    assert Survives(b, was, c, threshold, i);
    forall j | 0 <= j < |was| && OfClass(b, was[j], c) && i < j
      ensures Suppressed(b, was, c, threshold, i + 1, j) <==>
                Suppressed(b, was, c, threshold, i, j) || b.Overlap(was[i], was[j]) > threshold
    {
    }
  }

  /** An entry of another class, or removed, is no survivor. */
  lemma NoSurvivor(b: Boxes, was: seq<int>, now: seq<int>, c: int, threshold: real, i: nat)
    requires IsOrder(b, was) && DoneBefore(b, was, now, c, threshold, i) && i < |was| && !OfClass(b, now[i], c)
    ensures !Survives(b, was, c, threshold, i)
  {
  }

  lemma SameSuppressed(b: Boxes, was: seq<int>, c: int, threshold: real, i: nat, j: nat)
    requires IsOrder(b, was) && i < j < |was| && OfClass(b, was[j], c) && !Survives(b, was, c, threshold, i)
    ensures Suppressed(b, was, c, threshold, i + 1, j) <==> Suppressed(b, was, c, threshold, i, j)
  {
    hide IsOrder, OfClass, Survives, Boxes.Overlap;
  }

  lemma OthersPass(b: Boxes, was: seq<int>, now: seq<int>, c: int, threshold: real, i: nat)
    requires IsOrder(b, was) && DoneBefore(b, was, now, c, threshold, i) && i < |was| && !OfClass(b, now[i], c)
    ensures DoneBefore(b, was, now, c, threshold, i + 1)
  {
    hide IsOrder, OfClass, Survives, Suppressed;
    NoSurvivor(b, was, now, c, threshold, i);
    forall j | 0 <= j < |was| && OfClass(b, was[j], c) && i < j
      ensures Suppressed(b, was, c, threshold, i + 1, j) <==> Suppressed(b, was, c, threshold, i, j)
    {
      SameSuppressed(b, was, c, threshold, i, j);
    }
  }

  method ClearAfter(b: Boxes, order: array<int>, c: int, threshold: real, i: nat, n: int)
    requires IsOrder(b, order[..]) && i < order.Length && b.Names(n)
    modifies order
    ensures ClearedAfter(b, old(order[..]), order[..], c, threshold, i, n, order.Length)
  {
    for j := i + 1 to order.Length
      invariant ClearedAfter(b, old(order[..]), order[..], c, threshold, i, n, j)
    {
      assert order[..][j] == old(order[..])[j];
      var m := order[j];
      if m == REMOVED || b.classIds[m] != c {
      } else if b.Overlap(n, m) > threshold {
        order[j] := REMOVED;
      }
    }
  }

  /** Suppression for one class: its entries that do not survive are removed, nothing else changes. */
  method Nms(b: Boxes, order: array<int>, c: int, threshold: real)
    requires IsOrder(b, order[..])
    modifies order
    ensures Suppression(b, old(order[..]), order[..], c, threshold)
  {
    ghost var was := order[..];
    for i := 0 to order.Length
      invariant DoneBefore(b, was, order[..], c, threshold, i)
    {
      ghost var mid := order[..];
      var n := order[i];
      if n == REMOVED || b.classIds[n] != c {
        OthersPass(b, was, mid, c, threshold, i);
      } else {
        ClearAfter(b, order, c, threshold, i, n);
        SurvivorClears(b, was, mid, order[..], c, threshold, i);
      }
    }
  }

  ghost predicate Suppression(b: Boxes, was: seq<int>, now: seq<int>, c: int, threshold: real)
    requires IsOrder(b, was)
  {
    |now| == |was| && forall j :: 0 <= j < |was| ==>
      now[j] == if OfClass(b, was[j], c) && !Survives(b, was, c, threshold, j) then REMOVED else was[j]
  }

  // ----- all classes

  /** An entry survives in its own class. */
  ghost predicate SurvivesAll(b: Boxes, order: seq<int>, threshold: real, j: nat)
    requires IsOrder(b, order) && j < |order|
  {
    b.Names(order[j]) && Survives(b, order, b.classIds[order[j]], threshold, j)
  }

  /** Removing entries of other classes does not matter to a class. */
  lemma {:induction false} OtherClasses(b: Boxes, was: seq<int>, now: seq<int>, c: int, threshold: real, j: nat)
    requires IsOrder(b, was) && IsOrder(b, now) && |now| == |was| && j < |was|
    requires forall k :: 0 <= k < |was| ==>
               (OfClass(b, was[k], c) || OfClass(b, now[k], c) ==> now[k] == was[k])
    ensures Survives(b, was, c, threshold, j) <==> Survives(b, now, c, threshold, j)
  {
    forall k | 0 <= k < j ensures Survives(b, was, c, threshold, k) <==> Survives(b, now, c, threshold, k) {
      OtherClasses(b, was, now, c, threshold, k);
    }
    if OfClass(b, was[j], c) {
      assert now[j] == was[j];
      if Suppressed(b, was, c, threshold, j, j) {
        var k :| 0 <= k < j && Survives(b, was, c, threshold, k) && b.Overlap(was[k], was[j]) > threshold;
        assert now[k] == was[k] && Survives(b, now, c, threshold, k);
      }
      if Suppressed(b, now, c, threshold, j, j) {
        var k :| 0 <= k < j && Survives(b, now, c, threshold, k) && b.Overlap(now[k], now[j]) > threshold;
        assert now[k] == was[k] && Survives(b, was, c, threshold, k);
      }
    }
  }

  /** The classes in `done` have been dealt with. */
  ghost predicate DoneClasses(b: Boxes, was: seq<int>, now: seq<int>, threshold: real, done: set<int>)
    requires IsOrder(b, was)
  {
    |now| == |was| && forall j :: 0 <= j < |was| ==>
      now[j] == if b.Names(was[j]) && b.classIds[was[j]] in done && !SurvivesAll(b, was, threshold, j) then REMOVED
                else was[j]
  }

  lemma NextClass(b: Boxes, was: seq<int>, mid: seq<int>, now: seq<int>, threshold: real, done: set<int>, c: int)
    requires IsOrder(b, was) && DoneClasses(b, was, mid, threshold, done) && c !in done
    requires IsOrder(b, mid) && Suppression(b, mid, now, c, threshold)
    ensures DoneClasses(b, was, now, threshold, done + {c})
  {
    forall j | 0 <= j < |was|
      ensures OfClass(b, was[j], c) ==> (Survives(b, was, c, threshold, j) <==> Survives(b, mid, c, threshold, j))
    {
      OtherClasses(b, was, mid, c, threshold, j);
    }
  }

  lemma SomeElement(s: set<int>)
    requires s != {}
    ensures exists c :: c in s
  {
    assert (forall c :: c !in s) ==> s == {};
  }

  /** One pass for each class, in whatever order the classes come. */
  method NmsAll(b: Boxes, order: array<int>, threshold: real)
    requires IsOrder(b, order[..])
    modifies order
    ensures DoneClasses(b, old(order[..]), order[..], threshold, set c | c in b.classIds)
  {
    ghost var was := order[..];
    var classSet := set c | c in b.classIds;
    ghost var done: set<int> := {};
    while classSet != {}
      invariant classSet !! done && classSet + done == set c | c in b.classIds
      invariant DoneClasses(b, was, order[..], threshold, done)
      decreases classSet
    {
      SomeElement(classSet);
      var c :| c in classSet;
      ghost var mid := order[..];
      Nms(b, order, c, threshold);
      NextClass(b, was, mid, order[..], threshold, done, c);
      classSet, done := classSet - {c}, done + {c};
    }
    assert done == set c | c in b.classIds;
  }

  /** Among the entries left, no two of a class overlap too much. */
  lemma SurvivorsApart(b: Boxes, was: seq<int>, now: seq<int>, threshold: real, i: nat, j: nat)
    requires IsOrder(b, was) && DoneClasses(b, was, now, threshold, set c | c in b.classIds) && i < |was| && j < |was|
    requires i != j
    requires now[i] != REMOVED && now[j] != REMOVED && b.classIds[was[i]] == b.classIds[was[j]]
    ensures now[i] == was[i] && now[j] == was[j] && b.Overlap(now[i], now[j]) <= threshold
  {
    b.Symmetric(was[i], was[j]);
    var c := b.classIds[was[i]];
    var first, last := if i < j then i else j, if i < j then j else i;
    assert c in b.classIds;
    assert !Suppressed(b, was, c, threshold, last, last);
    assert Survives(b, was, c, threshold, first);
  }

  /** Whatever was removed overlaps too much with an entry before it that is left, of the same class. */
  lemma RemovedForReason(b: Boxes, was: seq<int>, now: seq<int>, threshold: real, j: nat) returns (k: nat)
    requires IsOrder(b, was) && DoneClasses(b, was, now, threshold, set c | c in b.classIds) && j < |was|
    requires was[j] != REMOVED && now[j] == REMOVED
    ensures k < j && now[k] == was[k] != REMOVED && b.classIds[was[k]] == b.classIds[was[j]]
    ensures b.Overlap(was[k], was[j]) > threshold
  {
    var c := b.classIds[was[j]];
    assert c in b.classIds && Suppressed(b, was, c, threshold, j, j);
    k :| 0 <= k < j && Survives(b, was, c, threshold, k) && b.Overlap(was[k], was[j]) > threshold;
    assert SurvivesAll(b, was, threshold, k);
  }
}
