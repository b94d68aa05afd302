/** Vertical resampling through the ring, both ways, against the plain sums over all scanlines. */
module Resample {
  import opened Wrappers
  import opened ScanlineRing

  /** What the rest of the resizer supplies: for each step of the loop its window of scanlines, its contributors
      and their coefficients, and the horizontally resampled input scanlines. */
  datatype Plan = Plan(length: nat, first: int -> int, last: int -> int, n0: int -> int, n1: int -> int,
                       coefficient: (int, int) -> real, decoded: int -> Scanline)

  /** An output row written, with the pixels it was encoded from. */
  datatype Encoded = Encoded(row: int, pixels: Scanline)

  ghost predicate Decodes(p: Plan) {
    forall k :: |p.decoded(k)| == p.length
  }

  /** Each window fits the ring and holds its contributors; windows only move forward. */
  ghost predicate Windows(p: Plan, lo: int, hi: int, entries: nat) {
    && (forall y :: lo <= y < hi ==> p.first(y) <= p.n0(y) && p.n1(y) <= p.last(y))
    && (forall y :: lo <= y < hi ==> p.first(y) <= p.last(y) < p.first(y) + entries)
    && (forall y, z :: lo <= y <= z < hi ==> p.first(y) <= p.first(z) && p.last(y) <= p.last(z))
  }

  /** Windows leave no output row out. */
  ghost predicate Covers(p: Plan, lo: int, hi: int, rows: nat) {
    && lo < hi && p.first(lo) <= 0 && rows <= p.last(hi - 1) + 1
    && forall y, z {:trigger p.last(y), p.first(z)} :: lo <= y < hi - 1 && z == y + 1 ==> p.first(z) <= p.last(y) + 1
  }

  /** What the conditions on the windows say at step `y`. */
  ghost predicate StepFacts(p: Plan, lo: int, y: int, hi: int, entries: nat) {
    && p.first(y) <= p.n0(y) && p.n1(y) <= p.last(y) && p.first(y) <= p.last(y) < p.first(y) + entries
    && (if y == lo then p.first(y) <= 0
        else p.first(y - 1) <= p.first(y) <= p.last(y - 1) + 1 && p.last(y - 1) <= p.last(y))
    && forall z :: y <= z < hi ==> p.first(y) <= p.first(z) <= p.n0(z)
  }

  lemma StepFactsHold(p: Plan, lo: int, y: int, hi: int, rows: nat, entries: nat)
    requires Windows(p, lo, hi, entries) && Covers(p, lo, hi, rows) && lo <= y < hi
    ensures StepFacts(p, lo, y, hi, entries)
  {
    if y > lo {
      assert p.first(y - 1) <= p.first(y) && p.last(y - 1) <= p.last(y);
    }
  }

  // ----- the plain sums

  /** Enlarging: output row `y` at pixel `x`, from contributors before `k`. */
  ghost function UpSum(p: Plan, y: int, k: int, x: nat): real
    requires Decodes(p) && x < p.length
    decreases k - p.n0(y)
  {
    if k <= p.n0(y) then 0.0
    else UpSum(p, y, k - 1, x) + p.decoded(k - 1)[x] * p.coefficient(y, k - 1 - p.n0(y))
  }

  ghost function UpPartial(p: Plan, y: int, k: int): (r: Scanline)
    requires Decodes(p)
    ensures |r| == p.length && forall x :: 0 <= x < p.length ==> r[x] == UpSum(p, y, k, x)
  {
    seq(p.length, x requires 0 <= x < p.length && Decodes(p) => UpSum(p, y, k, x))
  }

  ghost function UpRow(p: Plan, y: int): (r: Scanline)
    requires Decodes(p)
  {
    UpPartial(p, y, p.n1(y) + 1)
  }

  lemma UpMore(p: Plan, y: int, k: int)
    requires Decodes(p) && p.n0(y) <= k
    ensures UpPartial(p, y, k + 1) == Added(UpPartial(p, y, k), p.decoded(k), p.coefficient(y, k - p.n0(y)))
  {
    var r := Added(UpPartial(p, y, k), p.decoded(k), p.coefficient(y, k - p.n0(y)));
    assert forall x :: 0 <= x < p.length ==> UpPartial(p, y, k + 1)[x] == r[x];
  }

  lemma UpNothing(p: Plan, y: int, k: int)
    requires Decodes(p) && k <= p.n0(y)
    ensures UpPartial(p, y, k) == Zeros(p.length)
  {
  }

  /** Shrinking: what input scanline `y` adds to output row `r` at pixel `x`. */
  ghost function Contribution(p: Plan, r: int, y: int, x: nat): real
    requires Decodes(p) && x < p.length
  {
    if p.n0(y) <= r <= p.n1(y) then p.decoded(y)[x] * p.coefficient(y, r - p.n0(y)) else 0.0
  }

  ghost function DownSum(p: Plan, r: int, lo: int, y: int, x: nat): real
    requires Decodes(p) && x < p.length
    decreases y - lo
  {
    if y <= lo then 0.0 else DownSum(p, r, lo, y - 1, x) + Contribution(p, r, y - 1, x)
  }

  /** Output row `r` from the input scanlines from `lo` up to `y`. */
  ghost function DownRow(p: Plan, r: int, lo: int, y: int): (v: Scanline)
    requires Decodes(p)
    ensures |v| == p.length && forall x :: 0 <= x < p.length ==> v[x] == DownSum(p, r, lo, y, x)
  {
    seq(p.length, x requires 0 <= x < p.length && Decodes(p) => DownSum(p, r, lo, y, x))
  }

  // ----- what the sums answer to one scanline

  /** `d` has the scanlines of `p`, except perhaps scanline `j`. */
  ghost predicate DiffersAt(p: Plan, d: int -> Scanline, j: int) {
    Decodes(p) && Decodes(p.(decoded := d)) && forall k :: k != j ==> d(k) == p.decoded(k)
  }

  lemma {:induction false} UpSumResponds(p: Plan, d: int -> Scanline, y: int, j: int, k: int, x: nat)
    requires DiffersAt(p, d, j) && x < p.length
    ensures UpSum(p.(decoded := d), y, k, x) - UpSum(p, y, k, x) ==
              if p.n0(y) <= j < k then (d(j)[x] - p.decoded(j)[x]) * p.coefficient(y, j - p.n0(y)) else 0.0
    decreases k - p.n0(y)
  {
    if k > p.n0(y) {
      UpSumResponds(p, d, y, j, k - 1, x);
      if j == k - 1 {
        ProductOfDifference(d(j)[x], p.decoded(j)[x], p.coefficient(y, j - p.n0(y)));
      }
    }
  }

  lemma ProductOfDifference(a: real, b: real, c: real)
    ensures (a - b) * c == a * c - b * c
  {
  }

  /** Enlarging: a change of one scanline reaches row `y` exactly if the scanline is a contributor, from the first to
      the last, and then by its own coefficient. */
  lemma UpResponds(p: Plan, d: int -> Scanline, y: int, j: int, x: nat)
    requires DiffersAt(p, d, j) && x < p.length
    ensures UpRow(p.(decoded := d), y)[x] - UpRow(p, y)[x] ==
              if p.n0(y) <= j <= p.n1(y) then (d(j)[x] - p.decoded(j)[x]) * p.coefficient(y, j - p.n0(y)) else 0.0
  {
    UpSumResponds(p, d, y, j, p.n1(y) + 1, x);
  }

  lemma {:induction false} UpSumBlank(p: Plan, y: int, k: int, x: nat)
    requires Decodes(p) && x < p.length && forall i :: p.decoded(i) == Zeros(p.length)
    ensures UpSum(p, y, k, x) == 0.0
    decreases k - p.n0(y)
  {
    if k > p.n0(y) {
      UpSumBlank(p, y, k - 1, x);
    }
  }

  /** So from a single scanline that is not blank, each row has exactly the share of its contributor. */
  lemma UpImpulse(p: Plan, y: int, j: int, x: nat)
    requires Decodes(p) && x < p.length && forall k :: k != j ==> p.decoded(k) == Zeros(p.length)
    ensures UpRow(p, y)[x] ==
              if p.n0(y) <= j <= p.n1(y) then p.decoded(j)[x] * p.coefficient(y, j - p.n0(y)) else 0.0
  {
    var blank := p.(decoded := k => Zeros(p.length));
    UpSumBlank(blank, y, p.n1(y) + 1, x);
    UpResponds(blank, p.decoded, y, j, x);
    assert blank.(decoded := p.decoded) == p;
  }

  lemma {:induction false} DownSumResponds(p: Plan, d: int -> Scanline, r: int, lo: int, y: int, j: int, x: nat)
    requires DiffersAt(p, d, j) && x < p.length
    ensures DownSum(p.(decoded := d), r, lo, y, x) - DownSum(p, r, lo, y, x) ==
              if lo <= j < y && p.n0(j) <= r <= p.n1(j)
              then (d(j)[x] - p.decoded(j)[x]) * p.coefficient(j, r - p.n0(j)) else 0.0
    decreases y - lo
  {
    if y > lo {
      DownSumResponds(p, d, r, lo, y - 1, j, x);
      if j == y - 1 {
        ProductOfDifference(d(j)[x], p.decoded(j)[x], p.coefficient(j, r - p.n0(j)));
      }
    }
  }

  /** Shrinking: a change of scanline `j` reaches exactly the rows it contributes to, by its coefficient for each. */
  lemma DownResponds(p: Plan, d: int -> Scanline, r: int, lo: int, hi: int, j: int, x: nat)
    requires DiffersAt(p, d, j) && x < p.length
    ensures DownRow(p.(decoded := d), r, lo, hi)[x] - DownRow(p, r, lo, hi)[x] ==
              if lo <= j < hi && p.n0(j) <= r <= p.n1(j)
              then (d(j)[x] - p.decoded(j)[x]) * p.coefficient(j, r - p.n0(j)) else 0.0
  {
    DownSumResponds(p, d, r, lo, hi, j, x);
  }

  lemma {:induction false} DownSumBlank(p: Plan, r: int, lo: int, y: int, x: nat)
    requires Decodes(p) && x < p.length && forall i :: p.decoded(i) == Zeros(p.length)
    ensures DownSum(p, r, lo, y, x) == 0.0
    decreases y - lo
  {
    if y > lo {
      DownSumBlank(p, r, lo, y - 1, x);
    }
  }

  lemma DownImpulse(p: Plan, r: int, lo: int, hi: int, j: int, x: nat)
    requires Decodes(p) && x < p.length && forall k :: k != j ==> p.decoded(k) == Zeros(p.length)
    ensures DownRow(p, r, lo, hi)[x] ==
              if lo <= j < hi && p.n0(j) <= r <= p.n1(j)
              then p.decoded(j)[x] * p.coefficient(j, r - p.n0(j)) else 0.0
  {
    var blank := p.(decoded := k => Zeros(p.length));
    DownSumBlank(blank, r, lo, hi, x);
    DownResponds(blank, p.decoded, r, lo, hi, j, x);
    assert blank.(decoded := p.decoded) == p;
  }

  ghost function Window(p: Plan, first: int, n: nat): (q: seq<Scanline>)
    ensures |q| == n
  {
    seq(n, j => p.decoded(first + j))
  }

  function Latest(a: int, b: int): int {
    if a < b then b else a
  }

  /** How many of `n` scanlines, the oldest being `first`, come before `need`. */
  function Dropped(n: nat, first: int, need: int): (d: nat)
    ensures d <= n
  {
    if need <= first then 0 else if need - first >= n then n else need - first
  }

  lemma WindowDrop(p: Plan, first: int, n: nat, d: nat)
    requires d <= n
    ensures Window(p, first, n)[d..] == Window(p, first + d, n - d)
  {
  }

  ghost predicate Increasing(s: seq<int>) {
    forall i, j :: 0 <= i < j < |s| ==> s[i] < s[j]
  }

  lemma IncreasingSnoc(s: seq<int>, n: int)
    requires Increasing(s) && forall k :: k in s ==> k < n
    ensures Increasing(s + [n])
  {
    assert forall i :: 0 <= i < |s| ==> s[i] in s;
  }

  // ----- what the ring holds while shrinking

  function Clamp(k: int, rows: nat): nat {
    if k < 0 then 0 else if k > rows then rows else k
  }

  /** The rows encoded when the scanlines `q`, the oldest being `first`, are given up. */
  ghost function Emitted(q: seq<Scanline>, first: int, rows: nat): seq<Encoded> {
    if q == [] then []
    else
      var m := |q| - 1;
      Emitted(q[..m], first, rows) + if 0 <= first + m < rows then [Encoded(first + m, q[m])] else []
  }

  /** What the ring holds for output row `k`. */
  ghost function HeldIn(q: seq<Scanline>, first: int, k: int, length: nat): Scanline {
    if first <= k < first + |q| then q[k - first] else Zeros(length)
  }

  /** Rows not yet encoded hold all that the input scanlines before `y` gave them. */
  ghost predicate Pending(p: Plan, q: seq<Scanline>, first: int, e: nat, rows: nat, lo: int, y: int)
    requires Decodes(p)
  {
    forall k :: e <= k < rows ==> HeldIn(q, first, k, p.length) == DownRow(p, k, lo, y)
  }

  /** Rows are encoded in order, each with the sum over all input scanlines. */
  ghost predicate Finished(p: Plan, encoded: seq<Encoded>, lo: int, hi: int)
    requires Decodes(p)
  {
    forall k :: 0 <= k < |encoded| ==> encoded[k] == Encoded(k, DownRow(p, k, lo, hi))
  }

  lemma PendingAt(p: Plan, q: seq<Scanline>, first: int, e: nat, rows: nat, lo: int, y: int, k: int)
    requires Decodes(p) && Pending(p, q, first, e, rows, lo, y) && first <= k < first + |q| && e <= k < rows
    ensures q[k - first] == DownRow(p, k, lo, y)
  {
    assert HeldIn(q, first, k, p.length) == DownRow(p, k, lo, y);
  }

  lemma PendingEmpty(p: Plan, first: int, first': int, e: nat, rows: nat, lo: int, y: int)
    requires Decodes(p) && Pending(p, [], first, e, rows, lo, y)
    ensures Pending(p, [], first', e, rows, lo, y)
  {
    forall k | e <= k < rows ensures HeldIn([], first', k, p.length) == DownRow(p, k, lo, y) {
      assert HeldIn([], first, k, p.length) == DownRow(p, k, lo, y);
    }
  }

  lemma StartPending(p: Plan, q: seq<Scanline>, first: int, rows: nat, lo: int)
    requires Decodes(p) && q == []
    ensures Pending(p, q, first, 0, rows, lo, lo)
  {
  }

  /** Scanlines whose windows start after row `k` add nothing to it. */
  lemma {:induction false} Settled(p: Plan, k: int, lo: int, y: int, hi: int)
    requires Decodes(p) && lo <= y <= hi && forall z :: y <= z < hi ==> p.first(z) <= p.n0(z) && k < p.first(z)
    ensures DownRow(p, k, lo, hi) == DownRow(p, k, lo, y)
    decreases hi - y
  {
    if y < hi {
      Settled(p, k, lo, y, hi - 1);
    }
  }

  /** A scanline whose window misses the output adds nothing to it. */
  lemma SkippedStep(p: Plan, q: seq<Scanline>, first: int, e: nat, rows: nat, lo: int, y: int)
    requires Decodes(p) && lo <= y && p.first(y) <= p.n0(y) && p.n1(y) <= p.last(y)
    requires p.last(y) < 0 || p.first(y) >= rows
    requires Pending(p, q, first, e, rows, lo, y)
    ensures Pending(p, q, first, e, rows, lo, y + 1)
  {
    forall k | e <= k < rows ensures DownRow(p, k, lo, y + 1) == DownRow(p, k, lo, y) {
    }
  }

  /** Giving up scanlines that are settled finishes their rows. */
  lemma {:induction false} EmitFinished(p: Plan, encoded: seq<Encoded>, q: seq<Scanline>, first: int, rows: nat,
        lo: int, y: int, hi: int)
    requires Decodes(p) && Finished(p, encoded, lo, hi) && (q != [] ==> |encoded| == Clamp(first, rows))
    requires forall k :: 0 <= k < rows && first <= k < first + |q| ==>
               q[k - first] == DownRow(p, k, lo, y) == DownRow(p, k, lo, hi)
    ensures Finished(p, encoded + Emitted(q, first, rows), lo, hi)
    ensures q != [] ==> |encoded + Emitted(q, first, rows)| == Clamp(first + |q|, rows)
    decreases |q|
  {
    hide DownRow;
    if q == [] {
      assert encoded + [] == encoded;
    } else {
      hide Emitted, Finished;
      var m := |q| - 1;
      assert forall j :: 0 <= j < m ==> q[..m][j] == q[j];
      EmitFinished(p, encoded, q[..m], first, rows, lo, y, hi);
      EmittedLast(q, first, rows);
      if m == 0 {
        EmittedNone(first, rows);
        assert encoded + [] == encoded && q[..m] == [];
      }
      if 0 <= first + m < rows {
        var last := Encoded(first + m, q[m]);
        Assoc(encoded, Emitted(q[..m], first, rows), [last]);
        assert q[first + m - first] == q[m];
        FinishedMore(p, encoded + Emitted(q[..m], first, rows), last, lo, hi);
      } else {
        assert Emitted(q[..m], first, rows) + [] == Emitted(q[..m], first, rows);
      }
    }
  }

  lemma EmittedNone(first: int, rows: nat)
    ensures Emitted([], first, rows) == []
  {
  }

  lemma EmittedLast(q: seq<Scanline>, first: int, rows: nat)
    requires q != []
    ensures var m := |q| - 1;
            Emitted(q, first, rows)
            == Emitted(q[..m], first, rows) + if 0 <= first + m < rows then [Encoded(first + m, q[m])] else []
  {
  }

  lemma FinishedMore(p: Plan, encoded: seq<Encoded>, e: Encoded, lo: int, hi: int)
    requires Decodes(p) && Finished(p, encoded, lo, hi) && e == Encoded(|encoded|, DownRow(p, |encoded|, lo, hi))
    ensures Finished(p, encoded + [e], lo, hi)
  {
    hide DownRow;
  }

  /** What remains after giving up `d` scanlines is still pending. */
  lemma PendingDrop(p: Plan, q: seq<Scanline>, first: int, d: nat, e: nat, e': nat, rows: nat, lo: int, y: int)
    requires Decodes(p) && d <= |q| && Pending(p, q, first, e, rows, lo, y)
    requires e <= e' && (q == [] || e' == Clamp(first + d, rows))
    ensures Pending(p, q[d..], first + d, e', rows, lo, y)
  {
    forall k | e' <= k < rows ensures HeldIn(q[d..], first + d, k, p.length) == DownRow(p, k, lo, y) {
      assert HeldIn(q, first, k, p.length) == DownRow(p, k, lo, y);
    }
  }

  /** New rows start from zero, and so far nothing was due to them. */
  lemma PendingGrow(p: Plan, q: seq<Scanline>, first: int, e: nat, rows: nat, lo: int, y: int)
    requires Decodes(p) && Pending(p, q, first, e, rows, lo, y)
    ensures Pending(p, q + [Zeros(p.length)], first, e, rows, lo, y)
  {
    forall k | e <= k < rows ensures HeldIn(q + [Zeros(p.length)], first, k, p.length) == DownRow(p, k, lo, y) {
      assert HeldIn(q, first, k, p.length) == DownRow(p, k, lo, y);
    }
  }

  ghost function SpreadOne(p: Plan, v: Scanline, row: int, y: int, k: int): Scanline
    requires Decodes(p) && |v| == p.length
  {
    if p.n0(y) <= row < k then Added(v, p.decoded(y), p.coefficient(y, row - p.n0(y))) else v
  }

  /** The ring's rows after scanline `y` has been spread over those from `n0` up to `k`. */
  ghost predicate Spread(p: Plan, was: seq<Scanline>, q: seq<Scanline>, first: int, y: int, k: int)
    requires Decodes(p)
  {
    && |q| == |was| && (forall j :: 0 <= j < |q| ==> |was[j]| == p.length)
    && forall j :: 0 <= j < |q| ==> q[j] == SpreadOne(p, was[j], first + j, y, k)
  }

  lemma SpreadNone(p: Plan, was: seq<Scanline>, first: int, y: int)
    requires Decodes(p) && forall j :: 0 <= j < |was| ==> |was[j]| == p.length
    ensures Spread(p, was, was, first, y, p.n0(y))
  {
  }

  lemma SpreadBefore(p: Plan, was: seq<Scanline>, q: seq<Scanline>, first: int, y: int, k: int)
    requires Decodes(p) && k <= p.n0(y) && Spread(p, was, q, first, y, p.n0(y))
    ensures Spread(p, was, q, first, y, k)
  {
  }

  lemma SpreadMore(p: Plan, was: seq<Scanline>, q: seq<Scanline>, q': seq<Scanline>, first: int, y: int, k: int)
    requires Decodes(p) && Spread(p, was, q, first, y, k) && first <= k < first + |q| && p.n0(y) <= k
    requires |q[k - first]| == p.length
    requires q' == q[k - first := Added(q[k - first], p.decoded(y), p.coefficient(y, k - p.n0(y)))]
    ensures Spread(p, was, q', first, y, k + 1)
  {
  }

  lemma PendingSpread(p: Plan, was: seq<Scanline>, q: seq<Scanline>, first: int, e: nat, rows: nat, lo: int, y: int)
    requires Decodes(p) && lo <= y && Pending(p, was, first, e, rows, lo, y)
    requires Spread(p, was, q, first, y, p.n1(y) + 1) && first <= p.n0(y) && p.n1(y) < first + |q|
    ensures Pending(p, q, first, e, rows, lo, y + 1)
  {
    forall k | e <= k < rows ensures HeldIn(q, first, k, p.length) == DownRow(p, k, lo, y + 1) {
      var before := HeldIn(was, first, k, p.length);
      assert before == DownRow(p, k, lo, y);
      var after := HeldIn(q, first, k, p.length);
      if first <= k < first + |q| {
        var j := k - first;
        assert after == q[j] && before == was[j];
      }
      assert forall x :: 0 <= x < p.length ==> after[x] == before[x] + Contribution(p, k, y, x);
      assert forall x :: 0 <= x < p.length ==> after[x] == DownRow(p, k, lo, y + 1)[x];
    }
  }

  /** Giving up the oldest `d` rows, which no later window reaches. */
  lemma GiveUp(p: Plan, encoded: seq<Encoded>, q: seq<Scanline>, first: int, d: nat, rows: nat, lo: int, y: int,
        hi: int)
    requires Decodes(p) && lo <= y <= hi && d <= |q| && Finished(p, encoded, lo, hi)
    requires q != [] ==> |encoded| == Clamp(first, rows)
    requires d > 0 ==> forall z :: y <= z < hi ==> first + d <= p.first(z) <= p.n0(z)
    requires Pending(p, q, first, |encoded|, rows, lo, y)
    ensures var encoded' := encoded + Emitted(q[..d], first, rows);
            && Finished(p, encoded', lo, hi) && (q != [] ==> |encoded'| == Clamp(first + d, rows))
            && Pending(p, q[d..], first + d, |encoded'|, rows, lo, y)
  {
    forall k | 0 <= k < rows && first <= k < first + d
      ensures q[..d][k - first] == DownRow(p, k, lo, y) == DownRow(p, k, lo, hi)
    {
      PendingAt(p, q, first, |encoded|, rows, lo, y, k);
      Settled(p, k, lo, y, hi);
    }
    EmitFinished(p, encoded, q[..d], first, rows, lo, y, hi);
    PendingDrop(p, q, first, d, |encoded|, |encoded + Emitted(q[..d], first, rows)|, rows, lo, y);
  }

  /** The state after emptying, from the state before. */
  lemma AfterEmptying(p: Plan, encoded: seq<Encoded>, encoded': seq<Encoded>, q: seq<Scanline>, q': seq<Scanline>,
        first: int, first': int, need: int, rows: nat, lo: int, y: int, hi: int)
    requires Decodes(p) && lo <= y <= hi && Finished(p, encoded, lo, hi)
    requires q != [] && |encoded| == Clamp(first, rows) && Pending(p, q, first, |encoded|, rows, lo, y)
    requires forall z :: y <= z < hi ==> need <= p.first(z) <= p.n0(z)
    requires var d := Dropped(|q|, first, need);
             q' == q[d..] && (q' != [] ==> first' == first + d) && encoded' == encoded + Emitted(q[..d], first, rows)
    ensures Finished(p, encoded', lo, hi) && Pending(p, q', first', |encoded'|, rows, lo, y)
    ensures |encoded'| == Clamp(if q' == [] then first + |q| else first', rows)
  {
    var d := Dropped(|q|, first, need);
    GiveUp(p, encoded, q, first, d, rows, lo, y, hi);
    if q' == [] {
      PendingEmpty(p, first + d, first', |encoded'|, rows, lo, y);
    }
  }

  class Resizer {
    const plan: Plan
    const ring: Ring
    const work: array<real>
    var encoded: seq<Encoded>
    ghost var decodings: seq<int>

    ghost predicate Valid()
      reads this, ring
    {
      && Decodes(plan) && ring.Valid() && ring.length == plan.length && work.Length == plan.length
    }

    constructor (plan: Plan, entries: nat)
      requires Decodes(plan) && entries > 0
      ensures Valid() && this.plan == plan && ring.entries == entries && ring.beginIndex == -1
      ensures encoded == [] && decodings == [] && fresh(ring) && fresh(ring.buffer) && fresh(work)
    {
      this.plan := plan;
      ring := new Ring(entries, plan.length);
      work := new real[plan.length](_ => 0.0);
      encoded, decodings := [], [];
    }

    method DecodeAndResample(n: int)
      requires Valid() && (ring.beginIndex >= 0 ==> n == ring.lastScanline + 1 && ring.Count() < ring.entries)
      modifies ring, ring.buffer, `decodings
      ensures Valid() && ring.Live() == old(ring.Live()) + [plan.decoded(n)] && ring.beginIndex >= 0
      ensures ring.lastScanline == n
      ensures ring.firstScanline == if old(ring.beginIndex) < 0 then n else old(ring.firstScanline)
      ensures decodings == old(decodings) + [n]
    {
      var index := ring.AddEmpty(n);
      ghost var q := ring.Live();
      ring.AddInto(index, plan.decoded(n), 1.0);
      decodings := decodings + [n];
      AddedToZeros(plan.decoded(n));
      forall j | 0 <= j < |q| - 1 ensures ring.Live()[j] == q[j] {
        SlotInjective(ring.beginIndex, j, |q| - 1, ring.entries);
      }
      assert ring.Live()[|q| - 1] == ring.Row(index) && q[|q| - 1] == Zeros(plan.length);
    }

    /** Getting rid of scanlines before `need`. */
    method DropBefore(need: int)
      requires Valid()
      modifies ring
      ensures Valid() && ring.Live() == old(ring.Live())[old(Dropped(ring.Count(), ring.firstScanline, need))..]
      ensures ring.beginIndex >= 0 <==> ring.Count() > 0
      ensures ring.beginIndex >= 0 ==>
                && ring.lastScanline == old(ring.lastScanline)
                && ring.firstScanline == Latest(old(ring.firstScanline), need)
    {
      hide Ring.Live;
      if ring.beginIndex >= 0 {
        while need > ring.firstScanline
          invariant Valid() && ring.beginIndex >= 0 && ring.lastScanline == old(ring.lastScanline)
          invariant old(ring.firstScanline) <= ring.firstScanline <= Latest(old(ring.firstScanline), need)
          invariant ring.Live() == old(ring.Live())[ring.firstScanline - old(ring.firstScanline)..]
          decreases ring.lastScanline - ring.firstScanline
        {
          var emptied := ring.DropFirst();
          if emptied {
            break;
          }
        }
      }
    }

    /** Bringing the window of step `y` into the ring. */
    method LoadWindow(y: int)
      requires Valid() && ring.beginIndex >= 0 && ring.firstScanline == plan.first(y)
      requires ring.lastScanline <= plan.last(y) < plan.first(y) + ring.entries
      requires ring.Live() == Window(plan, plan.first(y), ring.Count())
      requires Increasing(decodings) && forall k :: k in decodings ==> k <= ring.lastScanline
      modifies ring, ring.buffer, `decodings
      ensures Valid() && ring.beginIndex >= 0 && ring.firstScanline == plan.first(y)
      ensures ring.lastScanline == plan.last(y)
      ensures ring.Live() == Window(plan, plan.first(y), ring.Count())
      ensures Increasing(decodings) && forall k :: k in decodings ==> k <= ring.lastScanline
    {
      while plan.last(y) > ring.lastScanline
        invariant Valid() && ring.beginIndex >= 0 && ring.firstScanline == plan.first(y)
        invariant ring.lastScanline <= plan.last(y)
        invariant ring.Live() == Window(plan, plan.first(y), ring.Count())
        invariant Increasing(decodings) && forall k :: k in decodings ==> k <= ring.lastScanline
        decreases plan.last(y) - ring.lastScanline
      {
        IncreasingSnoc(decodings, ring.lastScanline + 1);
        DecodeAndResample(ring.lastScanline + 1);
      }
    }

    method ClearWork()
      modifies work
      ensures work[..] == Zeros(work.Length)
    {
      for x := 0 to work.Length
        invariant forall z :: 0 <= z < x ==> work[z] == 0.0
      {
        work[x] := 0.0;
      }
    }

    method AddContributor(y: int, k: int)
      requires Valid() && ring.beginIndex >= 0 && ring.firstScanline <= k <= ring.lastScanline
      requires ring.Live() == Window(plan, ring.firstScanline, ring.Count())
      requires plan.n0(y) <= k && work[..] == UpPartial(plan, y, k)
      modifies work
      ensures work[..] == UpPartial(plan, y, k + 1)
    {
      hide UpPartial, Slot;
      var index := ring.IndexOf(k);
      assert ring.Live()[k - ring.firstScanline] == ring.Row(index);
      AddScaled(index, plan.coefficient(y, k - plan.n0(y)));
      UpMore(plan, y, k);
    }

    method SumWindow(y: int)
      requires Valid() && ring.beginIndex >= 0 && ring.firstScanline <= plan.n0(y) && plan.n1(y) <= ring.lastScanline
      requires ring.Live() == Window(plan, ring.firstScanline, ring.Count())
      modifies work
      ensures work[..] == UpRow(plan, y)
    {
      ClearWork();
      var k := plan.n0(y);
      UpNothing(plan, y, k);
      while k <= plan.n1(y)
        invariant plan.n0(y) <= k && (k == plan.n0(y) || k <= plan.n1(y) + 1)
        invariant work[..] == UpPartial(plan, y, k)
      {
        AddContributor(y, k);
        k := k + 1;
      }
      if plan.n1(y) + 1 < plan.n0(y) {
        UpNothing(plan, y, plan.n1(y) + 1);
      }
    }

    /** One output row from the window in the ring. */
    method VerticalUpsample(y: int)
      requires Valid() && ring.beginIndex >= 0
      requires ring.firstScanline <= plan.n0(y) && plan.n1(y) <= ring.lastScanline
      requires ring.Live() == Window(plan, ring.firstScanline, ring.Count())
      modifies work, `encoded
      ensures encoded == old(encoded) + [Encoded(y, UpRow(plan, y))]
    {
      SumWindow(y);
      encoded := encoded + [Encoded(y, work[..])];
    }

    method AddScaled(index: nat, coefficient: real)
      requires Valid() && index < ring.entries
      modifies work
      ensures work[..] == Added(old(work[..]), ring.Row(index), coefficient)
    {
      for x := 0 to work.Length
        invariant forall z :: 0 <= z < x ==> work[z] == old(work[z]) + ring.Row(index)[z] * coefficient
        invariant forall z :: x <= z < work.Length ==> work[z] == old(work[z])
      {
        work[x] := work[x] + ring.buffer[index, x] * coefficient;
      }
    }

    /** The ring holds the window of step `y`, and nothing past it has been decoded. */
    ghost predicate Holds(y: int)
      reads this, ring, ring.buffer
    {
      && Valid() && ring.beginIndex >= 0 && ring.firstScanline == plan.first(y) && ring.lastScanline == plan.last(y)
      && ring.Live() == Window(plan, plan.first(y), ring.Count())
      && Increasing(decodings) && forall k :: k in decodings ==> k <= plan.last(y)
    }

    method NextWindow(y: nat)
      requires if y == 0 then Valid() && ring.beginIndex < 0 && decodings == [] else Holds(y - 1)
      requires plan.first(y) <= plan.last(y) < plan.first(y) + ring.entries
      requires y > 0 ==> plan.first(y - 1) <= plan.first(y) && plan.last(y - 1) <= plan.last(y)
      modifies ring, ring.buffer, `decodings
      ensures Holds(y)
    {
      hide Ring.Live, Increasing;
      ghost var n := ring.Count();
      DropBefore(plan.first(y));
      if y > 0 {
        WindowDrop(plan, plan.first(y - 1), n, Dropped(n, plan.first(y - 1), plan.first(y)));
      }
      if ring.beginIndex < 0 {
        IncreasingSnoc(decodings, plan.first(y));
        DecodeAndResample(plan.first(y));
      }
      LoadWindow(y);
    }

    /** Enlarging: every output row is the plain weighted sum of the scanlines that contribute to it, and no scanline
        is decoded twice. */
    method BufferLoopUpsample(rows: nat)
      requires Valid() && ring.beginIndex < 0 && encoded == [] && decodings == []
      requires Windows(plan, 0, rows, ring.entries)
      modifies this, ring, ring.buffer, work
      ensures |encoded| == rows && forall y :: 0 <= y < rows ==> encoded[y] == Encoded(y, UpRow(plan, y))
      ensures Increasing(decodings)
    {
      for y := 0 to rows
        invariant if y == 0 then Valid() && ring.beginIndex < 0 && decodings == [] else Holds(y - 1)
        invariant |encoded| == y && forall z :: 0 <= z < y ==> encoded[z] == Encoded(z, UpRow(plan, z))
      {
        NextWindow(y);
        VerticalUpsample(y);
      }
    }

    /** Encoding the oldest row, if it is one of the output, and giving it up. */
    method EmitFirst(ghost was: seq<Encoded>, ghost q: seq<Scanline>, ghost f: int, rows: nat) returns (emptied: bool)
      requires Valid() && ring.beginIndex >= 0 && f <= ring.firstScanline && |q| == ring.lastScanline - f + 1
      requires ring.Live() == q[ring.firstScanline - f..]
      requires encoded == was + Emitted(q[..ring.firstScanline - f], f, rows)
      modifies ring, `encoded
      ensures Valid() && emptied == (ring.beginIndex < 0)
      ensures emptied == (old(ring.firstScanline) == old(ring.lastScanline))
      ensures !emptied ==>
        ring.firstScanline == old(ring.firstScanline) + 1 && ring.lastScanline == old(ring.lastScanline)
      ensures !emptied ==> ring.Live() == q[ring.firstScanline - f..]
      ensures encoded == was + Emitted(q[..old(ring.firstScanline) - f + 1], f, rows)
    {
      ghost var m := ring.firstScanline - f;
      assert ring.Live()[0] == q[m] == ring.RowAt(ring.firstScanline);
      if 0 <= ring.firstScanline < rows {
        encoded := encoded + [Encoded(ring.firstScanline, ring.Row(ring.beginIndex))];
      }
      assert q[..m + 1][..m] == q[..m];
      emptied := ring.DropFirst();
    }

    /** Encoding and giving up the rows before `need`. */
    method EmptyRing(need: int, rows: nat)
      requires Valid()
      modifies ring, `encoded
      ensures Valid()
      ensures var d := old(Dropped(ring.Count(), ring.firstScanline, need));
              && ring.Live() == old(ring.Live())[d..]
              && encoded == old(encoded) + Emitted(old(ring.Live())[..d], old(ring.firstScanline), rows)
      ensures ring.beginIndex >= 0 <==> ring.Count() > 0
      ensures ring.beginIndex >= 0 ==>
                && ring.lastScanline == old(ring.lastScanline)
                && ring.firstScanline == Latest(old(ring.firstScanline), need)
    {
      if ring.beginIndex >= 0 {
        ghost var was, q, f := encoded, ring.Live(), ring.firstScanline;
        ghost var d := 0;
        var emptied := false;
        while !emptied && need > ring.firstScanline
          invariant Valid() && emptied == (ring.beginIndex < 0) && |q| == old(ring.lastScanline) - f + 1
          invariant 0 <= d <= |q| && encoded == was + Emitted(q[..d], f, rows)
          invariant emptied ==> need > old(ring.lastScanline) && d == |q|
          invariant !emptied ==> ring.lastScanline == old(ring.lastScanline) && ring.firstScanline == f + d
          invariant !emptied ==> f + d <= Latest(f, need) && ring.Live() == q[d..]
          decreases !emptied, ring.lastScanline - ring.firstScanline
        {
          emptied := EmitFirst(was, q, f, rows);
          d := d + 1;
        }
      }
    }

    /** The horizontally resampled scanline goes to the work buffer, cleared first. */
    method DecodeToWork(n: int)
      requires Valid()
      modifies work, `decodings
      ensures work[..] == plan.decoded(n) && decodings == old(decodings) + [n]
    {
      ClearWork();
      for x := 0 to work.Length
        invariant forall z :: 0 <= z < x ==> work[z] == plan.decoded(n)[z]
        invariant forall z :: x <= z < work.Length ==> work[z] == 0.0
        invariant decodings == old(decodings)
      {
        work[x] := work[x] + plan.decoded(n)[x];
      }
      decodings := decodings + [n];
    }

    /** The share of row `k`. */
    method SpreadRow(y: int, k: int, ghost was: seq<Scanline>)
      requires Valid() && ring.beginIndex >= 0 && work[..] == plan.decoded(y)
      requires plan.n0(y) <= k <= plan.n1(y) && ring.firstScanline <= k <= ring.lastScanline
      requires |was| == ring.Count() && Spread(plan, was, ring.Live(), ring.firstScanline, y, k)
      modifies ring.buffer
      ensures Valid() && Spread(plan, was, ring.Live(), ring.firstScanline, y, k + 1)
    {
      hide Spread;
      ghost var q := ring.Live();
      assert ring.RowAt(k) == q[k - ring.firstScanline];
      ring.AddToScanline(k, work[..], plan.coefficient(y, k - plan.n0(y)));
      SpreadMore(plan, was, q, ring.Live(), ring.firstScanline, y, k);
    }

    /** Spreading the scanline in the work buffer over the rows it contributes to. */
    method VerticalDownsample(y: int)
      requires Valid() && ring.beginIndex >= 0 && work[..] == plan.decoded(y)
      requires ring.firstScanline <= plan.n0(y) && plan.n1(y) <= ring.lastScanline
      modifies ring.buffer
      ensures Spread(plan, old(ring.Live()), ring.Live(), ring.firstScanline, y, plan.n1(y) + 1)
    {
      hide Spread;
      ghost var was := ring.Live();
      var k := plan.n0(y);
      SpreadNone(plan, was, ring.firstScanline, y);
      while k <= plan.n1(y)
        invariant plan.n0(y) <= k && (k == plan.n0(y) || k <= plan.n1(y) + 1)
        invariant Valid() && work[..] == plan.decoded(y)
        invariant Spread(plan, was, ring.Live(), ring.firstScanline, y, k)
      {
        SpreadRow(y, k, was);
        k := k + 1;
      }
      if plan.n1(y) < plan.n0(y) {
        SpreadBefore(plan, was, ring.Live(), ring.firstScanline, y, plan.n1(y) + 1);
      }
    }

    /** Empty rows up to the end of the window of step `y`. */
    method AddRows(y: int, ghost rows: nat, ghost lo: int)
      requires Valid() && ring.lastScanline <= plan.last(y) < plan.first(y) + ring.entries
      requires ring.beginIndex >= 0 && ring.firstScanline == plan.first(y)
      requires Pending(plan, ring.Live(), ring.firstScanline, |encoded|, rows, lo, y)
      modifies ring, ring.buffer
      ensures Valid() && ring.beginIndex >= 0
      ensures ring.firstScanline == plan.first(y) && ring.lastScanline == plan.last(y)
      ensures Pending(plan, ring.Live(), ring.firstScanline, |encoded|, rows, lo, y)
    {
      while plan.last(y) > ring.lastScanline
        invariant Valid() && ring.beginIndex >= 0
        invariant ring.firstScanline == plan.first(y) && ring.lastScanline <= plan.last(y)
        invariant Pending(plan, ring.Live(), ring.firstScanline, |encoded|, rows, lo, y)
        decreases plan.last(y) - ring.lastScanline
      {
        PendingGrow(plan, ring.Live(), ring.firstScanline, |encoded|, rows, lo, y);
        var _ := ring.AddEmpty(ring.lastScanline + 1);
      }
    }

    /** How the ring stands before step `y`: it has not been used, or it holds the window of the step before, or
        the windows have run past the output. */
    ghost predicate Standing(lo: int, y: int, rows: nat)
      reads this, ring
    {
      if ring.beginIndex < 0 then encoded == [] && (y == lo || plan.last(y - 1) < 0)
      else
        && y > lo && |encoded| == Clamp(ring.firstScanline, rows)
        && ((ring.firstScanline == plan.first(y - 1) && 0 <= ring.lastScanline == plan.last(y - 1))
            || (plan.first(y - 1) >= rows && ring.lastScanline >= rows - 1))
    }

    ghost predicate Between(lo: int, y: int, hi: int, rows: nat)
      reads this, ring, ring.buffer
    {
      && Valid() && Standing(lo, y, rows) && Finished(plan, encoded, lo, hi)
      && (ring.beginIndex >= 0 <==> ring.Count() > 0)
      && Pending(plan, ring.Live(), ring.firstScanline, |encoded|, rows, lo, y)
    }

    /** Giving up rows before `need` finishes them, when no later window reaches back to them. */
    method EmptyBefore(need: int, rows: nat, ghost lo: int, ghost y: int, ghost hi: int)
      requires Valid() && lo <= y <= hi && Finished(plan, encoded, lo, hi)
      requires ring.beginIndex >= 0 && |encoded| == Clamp(ring.firstScanline, rows)
      requires forall z :: y <= z < hi ==> need <= plan.first(z) <= plan.n0(z)
      requires Pending(plan, ring.Live(), ring.firstScanline, |encoded|, rows, lo, y)
      modifies ring, `encoded
      ensures Valid() && Finished(plan, encoded, lo, hi)
      ensures Pending(plan, ring.Live(), ring.firstScanline, |encoded|, rows, lo, y)
      ensures if ring.beginIndex < 0
              then need > old(ring.lastScanline) && |encoded| == Clamp(old(ring.lastScanline) + 1, rows)
              else ring.lastScanline == old(ring.lastScanline) && |encoded| == Clamp(ring.firstScanline, rows)
                   && ring.firstScanline == Latest(old(ring.firstScanline), need)
    {
      ghost var q, f, was := ring.Live(), ring.firstScanline, encoded;
      EmptyRing(need, rows);
      AfterEmptying(plan, was, encoded, q, ring.Live(), f, ring.firstScanline, need, rows, lo, y, hi);
    }

    /** Finishing the rows before the window of step `y`, decoding its scanline, and making sure the ring has
        the first row of the window. */
    method EnterWindow(ghost lo: int, y: int, ghost hi: int, rows: nat)
      requires lo <= y < hi && Between(lo, y, hi, rows) && StepFacts(plan, lo, y, hi, ring.entries)
      requires plan.last(y) >= 0 && plan.first(y) < rows
      modifies this, ring, ring.buffer, work
      ensures Valid() && ring.beginIndex >= 0 && ring.firstScanline == plan.first(y)
      ensures ring.lastScanline <= plan.last(y)
      ensures work[..] == plan.decoded(y)
      ensures Finished(plan, encoded, lo, hi) && |encoded| == Clamp(plan.first(y), rows)
      ensures Pending(plan, ring.Live(), ring.firstScanline, |encoded|, rows, lo, y)
    {
      if ring.beginIndex >= 0 {
        EmptyBefore(plan.first(y), rows, lo, y, hi);
      }
      DecodeToWork(y);
      if ring.beginIndex < 0 {
        PendingGrow(plan, ring.Live(), plan.first(y), |encoded|, rows, lo, y);
        var _ := ring.AddEmpty(plan.first(y));
      }
    }

    /** What the facts of a step say of its window. */
    lemma WindowOf(lo: int, y: int, hi: int)
      requires StepFacts(plan, lo, y, hi, ring.entries)
      ensures plan.first(y) <= plan.n0(y) && plan.n1(y) <= plan.last(y) < plan.first(y) + ring.entries
    {
    }

    /** The ring has the window of step `y`, and gets its scanline's share. */
    method SpreadStep(y: int, ghost rows: nat, ghost lo: int)
      requires Valid() && ring.beginIndex >= 0 && work[..] == plan.decoded(y) && lo <= y
      requires ring.firstScanline == plan.first(y) <= plan.n0(y) && plan.n1(y) <= plan.last(y) == ring.lastScanline
      requires Pending(plan, ring.Live(), ring.firstScanline, |encoded|, rows, lo, y)
      modifies ring.buffer
      ensures Valid() && Pending(plan, ring.Live(), ring.firstScanline, |encoded|, rows, lo, y + 1)
    {
      hide Spread, Pending;
      ghost var q := ring.Live();
      VerticalDownsample(y);
      PendingSpread(plan, q, ring.Live(), ring.firstScanline, |encoded|, rows, lo, y);
    }

    /** One input scanline whose window meets the output. */
    method DownsampleStep(ghost lo: int, y: int, ghost hi: int, rows: nat)
      requires lo <= y < hi && Between(lo, y, hi, rows) && StepFacts(plan, lo, y, hi, ring.entries)
      requires plan.last(y) >= 0 && plan.first(y) < rows
      modifies this, ring, ring.buffer, work
      ensures Between(lo, y + 1, hi, rows)
    {
      hide Finished, Spread, Pending, Clamp, StepFacts;
      WindowOf(lo, y, hi);
      EnterWindow(lo, y, hi, rows);
      AddRows(y, rows, lo);
      SpreadStep(y, rows, lo);
    }

    /** An input scanline whose window misses the output may be skipped. */
    lemma Skip(lo: int, y: int, hi: int, rows: nat)
      requires rows > 0 && lo <= y < hi && Between(lo, y, hi, rows) && StepFacts(plan, lo, y, hi, ring.entries)
      requires plan.last(y) < 0 || plan.first(y) >= rows
      ensures Between(lo, y + 1, hi, rows)
    {
      SkippedStep(plan, ring.Live(), ring.firstScanline, |encoded|, rows, lo, y);
    }

    method DownsampleOrSkip(ghost lo: int, y: int, ghost hi: int, rows: nat)
      requires rows > 0 && lo <= y < hi && Between(lo, y, hi, rows) && StepFacts(plan, lo, y, hi, ring.entries)
      modifies this, ring, ring.buffer, work
      ensures Between(lo, y + 1, hi, rows)
    {
      if plan.last(y) < 0 || plan.first(y) >= rows {
        Skip(lo, y, hi, rows);
      } else {
        DownsampleStep(lo, y, hi, rows);
      }
    }

    /** The rows left at the end. */
    method FlushRows(ghost lo: int, ghost hi: int, rows: nat)
      requires rows > 0 && lo < hi && Between(lo, hi, hi, rows) && rows <= plan.last(hi - 1) + 1
      modifies this, ring
      ensures |encoded| == rows && Finished(plan, encoded, lo, hi)
    {
      EmptyBefore(rows, rows, lo, hi, hi);
    }

    lemma StartBetween(lo: int, hi: int, rows: nat)
      requires Valid() && ring.beginIndex < 0 && encoded == []
      ensures Between(lo, lo, hi, rows)
    {
      StartPending(plan, ring.Live(), ring.firstScanline, rows, lo);
    }

    method DownsampleLoop(lo: int, hi: int, rows: nat)
      requires Valid() && ring.beginIndex < 0 && encoded == [] && rows > 0 && lo < hi && rows <= plan.last(hi - 1) + 1
      requires forall y :: lo <= y < hi ==> StepFacts(plan, lo, y, hi, ring.entries)
      modifies this, ring, ring.buffer, work
      ensures |encoded| == rows && Finished(plan, encoded, lo, hi)
    {
      hide StepFacts, Finished, Between;
      StartBetween(lo, hi, rows);
      for y := lo to hi
        invariant Between(lo, y, hi, rows)
      {
        DownsampleOrSkip(lo, y, hi, rows);
      }
      FlushRows(lo, hi, rows);
    }

    /** Shrinking: the output rows are encoded exactly once each, in order, and each is the plain weighted sum over
        all input scanlines, margins included. */
    method BufferLoopDownsample(lo: int, hi: int, rows: nat)
      requires Valid() && ring.beginIndex < 0 && encoded == [] && rows > 0
      requires Windows(plan, lo, hi, ring.entries) && Covers(plan, lo, hi, rows)
      modifies this, ring, ring.buffer, work
      ensures |encoded| == rows && Finished(plan, encoded, lo, hi)
    {
      forall y | lo <= y < hi ensures StepFacts(plan, lo, y, hi, ring.entries) {
        StepFactsHold(plan, lo, y, hi, rows, ring.entries);
      }
      DownsampleLoop(lo, hi, rows);
    }
  }
}
