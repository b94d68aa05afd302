/** Sorting scores, highest first, in place, with the box indices kept alongside. */
module QuickSort {
  type Pair = (real, int)

  ghost function Pairs(scores: array<real>, indices: array<int>): (s: seq<Pair>)
    requires scores.Length == indices.Length
    reads scores, indices
    ensures |s| == scores.Length && forall i :: 0 <= i < |s| ==> s[i] == (scores[i], indices[i])
  {
    seq(scores.Length, i requires 0 <= i < scores.Length reads scores, indices => (scores[i], indices[i]))
  }

  /** From `left` up to but not including `end`, scores do not increase. */
  ghost predicate Descending(s: seq<Pair>, left: nat, end: nat)
    requires left <= end <= |s|
  {
    forall i, j :: left <= i < j < end ==> s[i].0 >= s[j].0
  }

  /** `t` is `s` with its pairs from `left` up to `end` in some order. */
  ghost predicate Rearranged(s: seq<Pair>, t: seq<Pair>, left: nat, end: nat)
    requires left <= end <= |s|
  {
    |t| == |s| && t[..left] == s[..left] && t[end..] == s[end..] && multiset(t[left..end]) == multiset(s[left..end])
  }

  lemma RearrangedMore(s: seq<Pair>, t: seq<Pair>, left: nat, l: nat, e: nat, end: nat)
    requires left <= l <= e <= end <= |s| && Rearranged(s, t, l, e)
    ensures Rearranged(s, t, left, end)
  {
    assert t[..left] == t[..l][..left] && s[..left] == s[..l][..left];
    assert t[end..] == t[e..][end - e..] && s[end..] == s[e..][end - e..];
    assert t[left..l] == t[..l][left..] && s[left..l] == s[..l][left..];
    assert t[e..end] == t[e..][..end - e] && s[e..end] == s[e..][..end - e];
    ThreeSlices(s, left, l, e, end);
    ThreeSlices(t, left, l, e, end);
  }

  lemma ThreeSlices(s: seq<Pair>, left: nat, l: nat, e: nat, end: nat)
    requires left <= l <= e <= end <= |s|
    ensures s[left..end] == s[left..l] + s[l..e] + s[e..end]
  {
  }

  lemma RearrangedTwice(s: seq<Pair>, t: seq<Pair>, u: seq<Pair>, left: nat, end: nat)
    requires left <= end <= |s| && Rearranged(s, t, left, end) && Rearranged(t, u, left, end)
    ensures Rearranged(s, u, left, end)
  {
  }

  /** What holds of all pairs in a range holds after rearranging it. */
  lemma RearrangedAtLeast(s: seq<Pair>, t: seq<Pair>, left: nat, end: nat, key: real)
    requires left <= end <= |s| && Rearranged(s, t, left, end)
    ensures (forall k :: left <= k < end ==> s[k].0 >= key) ==> forall k :: left <= k < end ==> t[k].0 >= key
    ensures (forall k :: left <= k < end ==> s[k].0 <= key) ==> forall k :: left <= k < end ==> t[k].0 <= key
  {
    forall k | left <= k < end ensures exists j :: left <= j < end && s[j] == t[k] {
      assert t[left..end][k - left] in multiset(t[left..end]);
      assert t[k] in s[left..end];
      var j :| 0 <= j < end - left && s[left..end][j] == t[k];
      assert s[left + j] == t[k];
    }
  }

  /** With the pivot held aside, copying the pair at `from` over the hole at `to` moves the hole. */
  lemma {:induction false} HoleMoves(s: seq<Pair>, to: nat, from: nat, pivot: Pair)
    requires to < |s| && from < |s|
    ensures multiset(s[to := s[from]][from := pivot]) == multiset(s[to := pivot])
  {
    if to != from {
      var a, b := s[to := pivot], s[to := s[from]][from := pivot];
      assert b == a[to := a[from]][from := a[to]];
      SwapKeeps(a, to, from);
    } else {
      assert s[to := s[from]][from := pivot] == s[to := pivot];
    }
  }

  lemma SwapKeeps(a: seq<Pair>, i: nat, j: nat)
    requires i < |a| && j < |a|
    ensures multiset(a[i := a[j]][j := a[i]]) == multiset(a)
  {
  }

  lemma MoveHole(s: seq<Pair>, t: seq<Pair>, left: nat, end: nat, to: nat, from: nat, pivot: Pair)
    requires left <= to < end <= |s| && left <= from < end && |t| == |s| && Rearranged(s, t[to := pivot], left, end)
    ensures Rearranged(s, t[to := t[from]][from := pivot], left, end)
  {
    var a, c := t[to := pivot], t[to := t[from]];
    var m := t[left..end];
    HoleMoves(m, to - left, from - left, pivot);
    SliceUpdate(t, left, end, to, pivot);
    SliceUpdate(t, left, end, to, t[from]);
    SliceUpdate(c, left, end, from, pivot);
    assert m[from - left] == t[from];
  }

  /** A range of a sequence in which one place inside it is changed. */
  lemma SliceUpdate(t: seq<Pair>, left: nat, end: nat, i: nat, x: Pair)
    requires left <= i < end <= |t|
    ensures t[i := x][left..end] == t[left..end][i - left := x]
    ensures t[i := x][..left] == t[..left] && t[i := x][end..] == t[end..]
  {
  }

  /** The loop of the partition: the place `hole` is free for `pivot`, pairs before `low` score at least as much,
      pairs after `high` at most. */
  ghost predicate Partitioning(s: seq<Pair>, t: seq<Pair>, left: nat, end: nat, low: int, high: int, hole: int,
        pivot: Pair)
    requires left <= end <= |s|
  {
    && |t| == |s| && left <= low <= high < end && (hole == low || hole == high)
    && Rearranged(s, t[hole := pivot], left, end)
    && (forall k :: left <= k < low ==> t[k].0 >= pivot.0)
    && (forall k :: high < k < end ==> t[k].0 <= pivot.0)
  }

  /** One copy of the pair at `from` to `to`. */
  method Copy(scores: array<real>, indices: array<int>, to: int, from: int)
    requires scores.Length == indices.Length && 0 <= to < scores.Length && 0 <= from < scores.Length
    modifies scores, indices
    ensures Pairs(scores, indices) == old(Pairs(scores, indices))[to := old(Pairs(scores, indices)[from])]
  {
    scores[to] := scores[from];
    indices[to] := indices[from];
  }

  /** Down from `high` to a pair that scores more than the pivot. */
  method ScanDown(scores: array<real>, key: real, low: int, start: int) returns (high: int)
    requires 0 <= low <= start < scores.Length
    ensures low <= high <= start && forall k :: high < k <= start ==> scores[k] <= key
    ensures low < high ==> scores[high] > key
  {
    high := start;
    while low < high && scores[high] <= key
      invariant low <= high <= start && forall k :: high < k <= start ==> scores[k] <= key
    {
      high := high - 1;
    }
  }

  /** Up from `low` to a pair that scores less than the pivot. */
  method ScanUp(scores: array<real>, key: real, start: int, high: int) returns (low: int)
    requires 0 <= start <= high < scores.Length
    ensures start <= low <= high && forall k :: start <= k < low ==> scores[k] >= key
    ensures low < high ==> scores[low] < key
  {
    low := start;
    while low < high && scores[low] >= key
      invariant start <= low <= high && forall k :: start <= k < low ==> scores[k] >= key
    {
      low := low + 1;
    }
  }

  /** A low-scoring place is filled from the right. */
  method FillLow(scores: array<real>, indices: array<int>, ghost s: seq<Pair>, ghost left: nat, ghost end: nat,
        low: int, high: int, key: real, ghost pivot: Pair)
    returns (high': int)
    requires scores.Length == indices.Length && left <= end <= scores.Length == |s| && low < high && key == pivot.0
    requires Partitioning(s, Pairs(scores, indices), left, end, low, high, low, pivot)
    modifies scores, indices
    ensures Partitioning(s, Pairs(scores, indices), left, end, low, high', high', pivot)
    ensures high' <= high && if low < high' then scores[low] > key else high' < high
  {
    hide Rearranged;
    high' := ScanDown(scores, key, low, high);
    MoveHole(s, Pairs(scores, indices), left, end, low, high', pivot);
    Copy(scores, indices, low, high');
  }

  /** A high-scoring place is filled from the left. */
  method FillHigh(scores: array<real>, indices: array<int>, ghost s: seq<Pair>, ghost left: nat, ghost end: nat,
        low: int, high: int, key: real, ghost pivot: Pair)
    returns (low': int)
    requires scores.Length == indices.Length && left <= end <= scores.Length == |s| && key == pivot.0
    requires Partitioning(s, Pairs(scores, indices), left, end, low, high, high, pivot)
    modifies scores, indices
    ensures Partitioning(s, Pairs(scores, indices), left, end, low', high, low', pivot)
    ensures low <= low' && (low < high && old(scores[low]) > key ==> low < low')
  {
    hide Rearranged;
    low' := ScanUp(scores, key, low, high);
    MoveHole(s, Pairs(scores, indices), left, end, high, low', pivot);
    Copy(scores, indices, high, low');
  }

  method Place(scores: array<real>, indices: array<int>, at: int, key: real, keyIndex: int)
    requires scores.Length == indices.Length && 0 <= at < scores.Length
    modifies scores, indices
    ensures Pairs(scores, indices) == old(Pairs(scores, indices))[at := (key, keyIndex)]
  {
    scores[at] := key;
    indices[at] := keyIndex;
  }

  /** The pivot is in place at `low`. */
  ghost predicate Split(s: seq<Pair>, left: nat, low: int, end: nat)
    requires end <= |s|
  {
    && left <= low < end
    && (forall k :: left <= k < low ==> s[k].0 >= s[low].0)
    && (forall k :: low < k < end ==> s[k].0 <= s[low].0)
  }

  lemma PlacedSplits(s: seq<Pair>, t: seq<Pair>, left: nat, end: nat, low: int, pivot: Pair)
    requires left <= end <= |s| && Partitioning(s, t, left, end, low, low, low, pivot)
    ensures Rearranged(s, t[low := pivot], left, end) && Split(t[low := pivot], left, low, end)
  {
  }

  /** Narrowing the range until its ends meet. */
  method Narrow(scores: array<real>, indices: array<int>, ghost s: seq<Pair>, left: nat, right: nat, key: real,
        ghost pivot: Pair)
    returns (low: int)
    requires scores.Length == indices.Length == |s| && left < right < |s| && key == pivot.0
    requires Partitioning(s, Pairs(scores, indices), left, right + 1, left, right, left, pivot)
    modifies scores, indices
    ensures Partitioning(s, Pairs(scores, indices), left, right + 1, low, low, low, pivot)
  {
    hide Pairs, Rearranged;
    low := left;
    var high: int := right;
    while low < high
      invariant Partitioning(s, Pairs(scores, indices), left, right + 1, low, high, low, pivot)
      decreases high - low
    {
      high := FillLow(scores, indices, s, left, right + 1, low, high, key, pivot);
      low := FillHigh(scores, indices, s, left, right + 1, low, high, key, pivot);
    }
  }

  lemma StartPartition(s: seq<Pair>, left: nat, right: nat)
    requires left < right < |s|
    ensures Partitioning(s, s, left, right + 1, left, right, left, s[left])
  {
    assert s[left := s[left]] == s;
  }

  method Partition(scores: array<real>, left: nat, right: nat, indices: array<int>) returns (low: int)
    requires scores.Length == indices.Length && left < right < scores.Length
    modifies scores, indices
    ensures Rearranged(old(Pairs(scores, indices)), Pairs(scores, indices), left, right + 1)
    ensures Split(Pairs(scores, indices), left, low, right + 1)
  {
    ghost var s := Pairs(scores, indices);
    var key, keyIndex := scores[left], indices[left];
    StartPartition(s, left, right);
    low := Narrow(scores, indices, s, left, right, key, s[left]);
    PlacedSplits(s, Pairs(scores, indices), left, right + 1, low, s[left]);
    Place(scores, indices, low, key, keyIndex);
  }

  /** The pieces on both sides of the pivot sorted, all is sorted. */
  lemma Sorted(s: seq<Pair>, left: nat, low: nat, end: nat)
    requires left <= low < end <= |s| && Descending(s, left, low) && Descending(s, low + 1, end)
    requires Split(s, left, low, end)
    ensures Descending(s, left, end)
  {
  }

  /** Scores end up highest first, each still beside its index, and nothing outside the range is touched. */
  method QuickSortIndiceInverse(scores: array<real>, left: nat, right: int, indices: array<int>)
    requires scores.Length == indices.Length && left <= right + 1 <= scores.Length
    modifies scores, indices
    ensures Rearranged(old(Pairs(scores, indices)), Pairs(scores, indices), left, right + 1)
    ensures Descending(Pairs(scores, indices), left, right + 1)
    decreases right - left + 1
  {
    if left < right {
      ghost var s := Pairs(scores, indices);
      var low := Partition(scores, left, right, indices);
      ghost var t := Pairs(scores, indices);
      QuickSortIndiceInverse(scores, left, low - 1, indices);
      ghost var u := Pairs(scores, indices);
      QuickSortIndiceInverse(scores, low + 1, right, indices);
      SortedBoth(s, t, u, Pairs(scores, indices), left, low, right + 1);
    }
  }

  lemma SortedLeft(s: seq<Pair>, t: seq<Pair>, u: seq<Pair>, left: nat, low: nat, end: nat)
    requires left <= low < end <= |s| && Rearranged(s, t, left, end) && Rearranged(t, u, left, low)
    requires Split(t, left, low, end)
    ensures Rearranged(s, u, left, end) && Split(u, left, low, end)
  {
    RearrangedMore(t, u, left, left, low, end);
    RearrangedTwice(s, t, u, left, end);
    RearrangedAtLeast(t, u, left, low, t[low].0);
    assert forall k :: low <= k < end ==> u[k] == u[low..][k - low] == t[low..][k - low] == t[k];
  }

  lemma SortedRight(s: seq<Pair>, u: seq<Pair>, v: seq<Pair>, left: nat, low: nat, end: nat)
    requires left <= low < end <= |s| && Rearranged(s, u, left, end) && Rearranged(u, v, low + 1, end)
    requires Split(u, left, low, end) && Descending(u, left, low) && Descending(v, low + 1, end)
    ensures Rearranged(s, v, left, end) && Descending(v, left, end)
  {
    RearrangedMore(u, v, left, low + 1, end, end);
    RearrangedTwice(s, u, v, left, end);
    RearrangedAtLeast(u, v, low + 1, end, u[low].0);
    assert forall k :: left <= k <= low ==> v[k] == v[..low + 1][k] == u[..low + 1][k] == u[k];
    Sorted(v, left, low, end);
  }

  /** Partitioned and then sorted on both sides. */
  lemma SortedBoth(s: seq<Pair>, t: seq<Pair>, u: seq<Pair>, v: seq<Pair>, left: nat, low: int, end: nat)
    requires left <= end <= |s| && Rearranged(s, t, left, end) && Split(t, left, low, end)
    requires Rearranged(t, u, left, low) && Descending(u, left, low)
    requires Rearranged(u, v, low + 1, end) && Descending(v, low + 1, end)
    ensures Rearranged(s, v, left, end) && Descending(v, left, end)
  {
    SortedLeft(s, t, u, left, low, end);
    SortedRight(s, u, v, left, low, end);
  }
}
