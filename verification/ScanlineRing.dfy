/** The circular cache of scanlines: a queue of consecutive scanlines kept in a fixed block of rows. */
module ScanlineRing {
  type Scanline = seq<real>

  lemma ModUnique(a: int, n: nat, q: int, r: int)
    requires 0 <= r < n && a == q * n + r
    ensures a % n == r
  {
    var d := a / n - q;
    assert d * n == r - a % n;
    AtLeastOnce(d, n);
  }

  lemma AtLeastOnce(d: int, n: nat)
    ensures d >= 1 ==> d * n >= n
    ensures d <= -1 ==> d * n <= -(n as int)
  {
    assert d >= 1 ==> (d - 1) * n >= 0;
    assert d <= -1 ==> (-1 - d) * n >= 0;
  }

  /** Where the scanline `offset` places after the first is kept. */
  function Slot(begin: nat, offset: nat, entries: nat): (index: nat)
    requires begin < entries && offset < entries
    ensures index < entries
  {
    if begin + offset < entries then begin + offset else begin + offset - entries
  }

  lemma SlotIsRemainder(begin: nat, offset: nat, entries: nat)
    requires begin < entries && offset < entries
    ensures Slot(begin, offset, entries) == (begin + offset) % entries
  {
    var wrapped := begin + offset >= entries;
    ModUnique(begin + offset, entries, if wrapped then 1 else 0,
        if wrapped then begin + offset - entries else begin + offset);
  }

  lemma SlotInjective(begin: nat, i: nat, j: nat, entries: nat)
    requires begin < entries && i < entries && j < entries
    ensures Slot(begin, i, entries) == Slot(begin, j, entries) <==> i == j
  {
  }

  lemma SlotNext(begin: nat, offset: nat, entries: nat)
    requires begin < entries && offset + 1 < entries
    ensures Slot(Slot(begin, 1, entries), offset, entries) == Slot(begin, offset + 1, entries)
  {
  }

  function Zeros(length: nat): Scanline {
    seq(length, _ => 0.0)
  }

  /** `v` plus `coefficient` times `w`. */
  function Added(v: Scanline, w: Scanline, coefficient: real): (r: Scanline)
    requires |v| == |w|
    ensures |r| == |v| && forall x :: 0 <= x < |v| ==> r[x] == v[x] + w[x] * coefficient
  {
    seq(|v|, x requires 0 <= x < |v| => v[x] + w[x] * coefficient)
  }

  lemma AddedToZeros(v: Scanline)
    ensures Added(Zeros(|v|), v, 1.0) == v
  {
  }

  class Ring {
    const entries: nat
    const length: nat
    const buffer: array2<real>
    var beginIndex: int
    var firstScanline: int
    var lastScanline: int

    ghost predicate Valid()
      reads this
    {
      && buffer.Length0 == entries && buffer.Length1 == length
      && beginIndex < entries && entries > 0
      && (beginIndex >= 0 ==> 0 <= lastScanline - firstScanline < entries)
    }

    function Row(i: nat): (r: Scanline)
      requires i < buffer.Length0
      reads buffer
      ensures |r| == buffer.Length1 && forall x :: 0 <= x < buffer.Length1 ==> r[x] == buffer[i, x]
    {
      seq(buffer.Length1, x requires 0 <= x < buffer.Length1 reads buffer => buffer[i, x])
    }

    ghost function Count(): (n: nat)
      requires Valid()
      reads this
      ensures n <= entries
    {
      if beginIndex < 0 then 0 else lastScanline - firstScanline + 1
    }

    ghost function RowAt(k: int): (r: Scanline)
      requires Valid() && beginIndex >= 0 && firstScanline <= k <= lastScanline
      reads this, buffer
      ensures |r| == length
    {
      Row(Slot(beginIndex, k - firstScanline, entries))
    }

    /** The scanlines kept, oldest first. */
    ghost function Live(): (q: seq<Scanline>)
      requires Valid()
      reads this, buffer
      ensures |q| == Count() && forall j :: 0 <= j < |q| ==> q[j] == RowAt(firstScanline + j)
    {
      var begin, n := beginIndex, Count();
      seq(n, j requires 0 <= j < n reads buffer => Row(Slot(begin, j, entries)))
    }

    constructor (entries: nat, length: nat)
      requires entries > 0
      ensures Valid() && this.entries == entries && this.length == length && fresh(buffer)
      ensures beginIndex == -1 && Live() == []
    {
      this.entries, this.length := entries, length;
      buffer := new real[entries, length]((_, _) => 0.0);
      beginIndex, firstScanline, lastScanline := -1, 0, 0;
    }

    method ClearRow(index: nat)
      requires Valid() && index < entries
      modifies buffer
      ensures Row(index) == Zeros(length)
      ensures forall i :: 0 <= i < entries && i != index ==> Row(i) == old(Row(i))
    {
      for x := 0 to length
        invariant forall z :: 0 <= z < x ==> buffer[index, z] == 0.0
        invariant forall i, z :: 0 <= i < entries && i != index && 0 <= z < length ==> buffer[i, z] == old(buffer[i, z])
      {
        buffer[index, x] := 0.0;
      }
    }

    /** The source asserts that there is room, so that no scanline in use is overwritten. */
    method AddEmpty(n: int) returns (index: nat)
      requires Valid() && (beginIndex >= 0 ==> n == lastScanline + 1 && Count() < entries)
      modifies this, buffer
      ensures Valid() && Live() == old(Live()) + [Zeros(length)] && beginIndex >= 0
      ensures lastScanline == n && firstScanline == if old(beginIndex) < 0 then n else old(firstScanline)
      ensures index == Slot(beginIndex, n - firstScanline, entries)
    {
      lastScanline := n;
      if beginIndex < 0 {
        index, beginIndex := 0, 0;
        firstScanline := n;
      } else {
        index := (beginIndex + (lastScanline - firstScanline)) % entries;
        SlotIsRemainder(beginIndex, lastScanline - firstScanline, entries);
        assert index != beginIndex;
      }
      ClearRow(index);
      assert forall j :: 0 <= j < Count() - 1 ==> Slot(beginIndex, j, entries) != index;
    }

    method IndexOf(k: int) returns (index: nat)
      requires Valid() && beginIndex >= 0 && firstScanline <= k <= lastScanline
      ensures index == Slot(beginIndex, k - firstScanline, entries)
    {
      SlotIsRemainder(beginIndex, k - firstScanline, entries);
      index := (beginIndex + (k - firstScanline)) % entries;
    }

    /** Giving up the oldest scanline; the ring resets when that was the only one. */
    method DropFirst() returns (emptied: bool)
      requires Valid() && beginIndex >= 0
      modifies this
      ensures Valid() && Live() == old(Live())[1..]
      ensures emptied == (old(firstScanline) == old(lastScanline)) && emptied == (beginIndex < 0)
      ensures !emptied ==> firstScanline == old(firstScanline) + 1 && lastScanline == old(lastScanline)
    {
      emptied := firstScanline == lastScanline;
      if emptied {
        beginIndex, firstScanline, lastScanline := -1, 0, 0;
      } else {
        firstScanline := firstScanline + 1;
        SlotIsRemainder(beginIndex, 1, entries);
        beginIndex := (beginIndex + 1) % entries;
        forall j | 0 <= j < Count() ensures Slot(beginIndex, j, entries) == Slot(old(beginIndex), j + 1, entries) {
          SlotNext(old(beginIndex), j, entries);
        }
      }
    }

    /** Adding into the row at `index`, pixel by pixel. */
    method AddInto(index: nat, w: Scanline, coefficient: real)
      requires Valid() && index < entries && |w| == length
      modifies buffer
      ensures Row(index) == Added(old(Row(index)), w, coefficient)
      ensures forall i :: 0 <= i < entries && i != index ==> Row(i) == old(Row(i))
    {
      for x := 0 to length
        invariant forall z :: 0 <= z < x ==> buffer[index, z] == old(buffer[index, z]) + w[z] * coefficient
        invariant forall z :: x <= z < length ==> buffer[index, z] == old(buffer[index, z])
        invariant forall i, z :: 0 <= i < entries && i != index && 0 <= z < length ==> buffer[i, z] == old(buffer[i, z])
      {
        buffer[index, x] := buffer[index, x] + w[x] * coefficient;
      }
      ghost var was := old(Row(index));
      assert forall x :: 0 <= x < length ==> Row(index)[x] == was[x] + w[x] * coefficient;
      assert Row(index) == Added(was, w, coefficient);
    }

    method AddToScanline(k: int, w: Scanline, coefficient: real)
      requires Valid() && beginIndex >= 0 && firstScanline <= k <= lastScanline && |w| == length
      modifies buffer
      ensures Live() == old(Live())[k - firstScanline := Added(old(RowAt(k)), w, coefficient)]
    {
      var index := IndexOf(k);
      AddInto(index, w, coefficient);
      forall j | 0 <= j < Count() && j != k - firstScanline ensures Live()[j] == old(Live())[j] {
        SlotInjective(beginIndex, j, k - firstScanline, entries);
      }
    }
  }
}
