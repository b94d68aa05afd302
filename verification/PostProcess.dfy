/** The detections reported for one picture, from the scored boxes. */
module PostProcess {
  import opened QuickSort
  import opened Detection

  const OBJ_NUMB_MAX_SIZE: nat := 200
  const NMS_THRESHOLD: real := 0.45
  const CONF_THRESHOLD: real := 0.25

  datatype Result = Result(left: int, top: int, right: int, bottom: int, prop: real, classIndex: int)

  /** Conversion to an integer, towards zero. */
  function Truncated(x: real): int {
    if x >= 0.0 then x.Floor else -((-x).Floor)
  }

  function ResultOf(b: Boxes, n: int, score: real): Result
    requires b.Valid() && b.Names(n)
  {
    var x1, y1 := b.locations[n * 4 + 0], b.locations[n * 4 + 1];
    Result(Truncated(x1), Truncated(y1), Truncated(x1 + b.locations[n * 4 + 2]), Truncated(y1 + b.locations[n * 4 + 3]),
           score, b.classIds[n])
  }

  // ----- the sorted pairs are the boxes with their scores, each once

  function Scored(scores: seq<real>): (s: seq<Pair>)
    ensures |s| == |scores| && forall i :: 0 <= i < |s| ==> s[i] == (scores[i], i)
  {
    seq(|scores|, i requires 0 <= i < |scores| => (scores[i], i))
  }

  lemma {:induction false} Multiplicity(s: seq<Pair>, i: nat, j: nat)
    requires i < j < |s| && s[i] == s[j]
    ensures multiset(s)[s[i]] >= 2
  {
    assert s == s[..j] + s[j..];
    assert s[..j][i] in multiset(s[..j]) && s[j..][0] in multiset(s[j..]);
  }

  lemma {:induction false} OnceEach(s: seq<Pair>, x: Pair)
    requires forall i, j :: 0 <= i < j < |s| ==> s[i] != s[j]
    ensures multiset(s)[x] <= 1
  {
    if s != [] {
      var m := |s| - 1;
      OnceEach(s[..m], x);
      assert s == s[..m] + [s[m]];
      if x == s[m] {
        assert x !in s[..m];
      }
    }
  }

  /** What sorting leaves: every entry has the score of the box it names, and every box is named once. */
  lemma SortedPairs(scores: seq<real>, s: seq<Pair>)
    requires multiset(s) == multiset(Scored(scores))
    ensures forall i :: 0 <= i < |s| ==> 0 <= s[i].1 < |scores| && s[i].0 == scores[s[i].1]
    ensures forall i, j :: 0 <= i < j < |s| ==> s[i].1 != s[j].1
    ensures forall n :: 0 <= n < |scores| ==> (scores[n], n) in s
  {
    var t := Scored(scores);
    forall i | 0 <= i < |s| ensures 0 <= s[i].1 < |scores| && s[i].0 == scores[s[i].1] {
      assert s[i] in multiset(t);
      assert s[i] in t;
    }
    forall i, j | 0 <= i < j < |s| ensures s[i].1 != s[j].1 {
      if s[i].1 == s[j].1 {
        Multiplicity(s, i, j);
        OnceEach(t, s[i]);
      }
    }
    forall n | 0 <= n < |scores| ensures (scores[n], n) in s {
      assert t[n] in multiset(t);
    }
  }

  // ----- the selection

  predicate Eligible(order: seq<int>, scores: seq<real>, i: nat)
    requires i < |order| == |scores|
  {
    order[i] != REMOVED && scores[i] >= CONF_THRESHOLD
  }

  /** The places before `n` that may be reported, in order. */
  function Places(order: seq<int>, scores: seq<real>, n: nat): (p: seq<nat>)
    requires n <= |order| == |scores|
    ensures |p| <= n && forall k :: 0 <= k < |p| ==> p[k] < n && Eligible(order, scores, p[k])
    ensures forall k, l :: 0 <= k < l < |p| ==> p[k] < p[l]
    ensures forall i :: 0 <= i < n && Eligible(order, scores, i) ==> i in p
  {
    if n == 0 then [] else
      var q := Places(order, scores, n - 1);
      if Eligible(order, scores, n - 1) then q + [n - 1] else q
  }

  function AtMost(p: seq<nat>, n: nat): (q: seq<nat>)
    ensures q <= p && |q| <= n && (|q| < n ==> q == p)
  {
    if |p| <= n then p else p[..n]
  }

  ghost predicate Reports(b: Boxes, order: seq<int>, scores: seq<real>, results: seq<Result>, places: seq<nat>)
    requires IsOrder(b, order) && |order| == |scores|
  {
    |results| == |places| && forall k :: 0 <= k < |places| ==>
      && places[k] < |order| && b.Names(order[places[k]])
      && results[k] == ResultOf(b, order[places[k]], scores[places[k]])
  }

  /** The results so far, from the places before `i`. */
  ghost predicate SelectedTo(b: Boxes, order: seq<int>, scores: seq<real>, results: seq<Result>, i: nat)
    requires IsOrder(b, order) && |order| == |scores| && i <= |order|
  {
    Reports(b, order, scores, results, AtMost(Places(order, scores, i), OBJ_NUMB_MAX_SIZE))
  }

  lemma NoneSelected(b: Boxes, order: seq<int>, scores: seq<real>)
    requires IsOrder(b, order) && |order| == |scores|
    ensures SelectedTo(b, order, scores, [], 0)
  {
  }

  lemma SelectedIs(b: Boxes, order: seq<int>, scores: seq<real>, results: seq<Result>, i: nat)
    requires IsOrder(b, order) && |order| == |scores| && i <= |order| && SelectedTo(b, order, scores, results, i)
    ensures Reports(b, order, scores, results, AtMost(Places(order, scores, i), OBJ_NUMB_MAX_SIZE))
  {
  }

  lemma SkipPlace(b: Boxes, order: seq<int>, scores: seq<real>, results: seq<Result>, i: nat)
    requires IsOrder(b, order) && |order| == |scores| && i < |order| && SelectedTo(b, order, scores, results, i)
    requires !Eligible(order, scores, i) || |results| == OBJ_NUMB_MAX_SIZE
    ensures SelectedTo(b, order, scores, results, i + 1)
  {
    hide Eligible, Reports;
    assert |results| == |AtMost(Places(order, scores, i), OBJ_NUMB_MAX_SIZE)| by {
      ReportsEach(b, order, scores, results, AtMost(Places(order, scores, i), OBJ_NUMB_MAX_SIZE));
    }
    if Eligible(order, scores, i) {
      assert Places(order, scores, i + 1)[..OBJ_NUMB_MAX_SIZE] == Places(order, scores, i)[..OBJ_NUMB_MAX_SIZE];
    }
  }

  lemma ReportsEach(b: Boxes, order: seq<int>, scores: seq<real>, results: seq<Result>, places: seq<nat>)
    requires IsOrder(b, order) && |order| == |scores| && Reports(b, order, scores, results, places)
    ensures |results| == |places|
  {
  }

  lemma TakePlace(b: Boxes, order: seq<int>, scores: seq<real>, results: seq<Result>, i: nat)
    requires IsOrder(b, order) && |order| == |scores| && i < |order| && SelectedTo(b, order, scores, results, i)
    requires Eligible(order, scores, i) && |results| < OBJ_NUMB_MAX_SIZE
    ensures b.Valid() && b.Names(order[i])
    ensures SelectedTo(b, order, scores, results + [ResultOf(b, order[i], scores[i])], i + 1)
  {
    hide ResultOf;
    assert Places(order, scores, i + 1) == Places(order, scores, i) + [i];
  }

  /** The first 200 eligible entries, in order. */
  method Select(b: Boxes, order: array<int>, scores: array<real>, results: array<Result>) returns (count: nat)
    requires order.Length == scores.Length && results.Length == OBJ_NUMB_MAX_SIZE && IsOrder(b, order[..])
    modifies results
    ensures count <= results.Length
    ensures Reports(b, order[..], scores[..], results[..count],
                    AtMost(Places(order[..], scores[..], order.Length), OBJ_NUMB_MAX_SIZE))
  {
    hide Reports, Places, AtMost, ResultOf, SelectedTo, IsOrder;
    count := 0;
    NoneSelected(b, order[..], scores[..]);
    for i := 0 to order.Length
      invariant count <= results.Length
      invariant SelectedTo(b, order[..], scores[..], results[..count], i)
    {
      if order[i] == REMOVED || scores[i] < CONF_THRESHOLD || count >= OBJ_NUMB_MAX_SIZE {
        SkipPlace(b, order[..], scores[..], results[..count], i);
        continue;
      }
      TakePlace(b, order[..], scores[..], results[..count], i);
      var n := order[i];
      ghost var was := results[..count];
      results[count] := ResultOf(b, n, scores[i]);
      count := count + 1;
      assert results[..count] == was + [ResultOf(b, n, scores[i])];
    }
    SelectedIs(b, order[..], scores[..], results[..count], order.Length);
  }

  // ----- what is reported

  /** `kept` names the boxes reported, highest score first. */
  ghost predicate Reported(b: Boxes, scores: seq<real>, results: seq<Result>, kept: seq<int>)
    requires b.Valid() && |scores| == |b.classIds|
  {
    && |kept| == |results| <= OBJ_NUMB_MAX_SIZE
    && (forall i :: 0 <= i < |kept| ==> b.Names(kept[i]))
    && (forall i :: 0 <= i < |kept| ==>
          results[i] == ResultOf(b, kept[i], scores[kept[i]]) && results[i].prop >= CONF_THRESHOLD)
    && (forall i, j :: 0 <= i < j < |kept| ==> kept[i] != kept[j] && results[i].prop >= results[j].prop)
  }

  predicate SameClass(b: Boxes, n: int, m: int) {
    b.Names(n) && b.Names(m) && b.classIds[n] == b.classIds[m]
  }

  /** No two reported boxes of a class overlap too much. */
  ghost predicate Apart(b: Boxes, kept: seq<int>)
    requires b.Valid()
  {
    forall i, j :: 0 <= i < j < |kept| && SameClass(b, kept[i], kept[j]) ==>
      b.Overlap(kept[i], kept[j]) <= NMS_THRESHOLD
  }

  /** A reported box of the same class, scoring at least as much, overlaps box `n` too much. */
  ghost predicate Covered(b: Boxes, scores: seq<real>, kept: seq<int>, n: int)
    requires b.Valid() && |scores| == |b.classIds|
  {
    exists m :: m in kept && SameClass(b, m, n) && b.Overlap(m, n) > NMS_THRESHOLD && scores[m] >= scores[n]
  }

  /** Unless there was no room left, every box that scores enough is reported or covered by one that is. */
  ghost predicate Complete(b: Boxes, scores: seq<real>, kept: seq<int>)
    requires b.Valid() && |scores| == |b.classIds|
  {
    |kept| < OBJ_NUMB_MAX_SIZE ==>
      forall n :: 0 <= n < |scores| && scores[n] >= CONF_THRESHOLD && n !in kept ==> Covered(b, scores, kept, n)
  }

  /** The run from scored boxes: sorted into `s`, of which `now` are the indices left by suppression. */
  ghost predicate Processed(b: Boxes, scores: seq<real>, s: seq<Pair>, was: seq<int>, now: seq<int>, sorted: seq<real>)
  {
    && b.Valid() && |scores| == |b.classIds| == |s| == |was| == |sorted|
    && multiset(s) == multiset(Scored(scores)) && Descending(s, 0, |s|)
    && (forall i :: 0 <= i < |s| ==> s[i] == (sorted[i], was[i]))
    && IsOrder(b, was) && DoneClasses(b, was, now, NMS_THRESHOLD, set c | c in b.classIds)
  }

  ghost function Kept(was: seq<int>, places: seq<nat>): (k: seq<int>)
    requires forall i :: 0 <= i < |places| ==> places[i] < |was|
  {
    seq(|places|, i requires 0 <= i < |places| => was[places[i]])
  }

  lemma InKept(was: seq<int>, places: seq<nat>, k: nat)
    requires (forall i :: 0 <= i < |places| ==> places[i] < |was|) && k < |was|
    ensures k in places ==> was[k] in Kept(was, places)
  {
    if k in places {
      var i :| 0 <= i < |places| && places[i] == k;
      assert Kept(was, places)[i] == was[k];
    }
  }

  /** The places taken are eligible, ascending, and all of them when there is room. */
  ghost predicate Taken(now: seq<int>, sorted: seq<real>, places: seq<nat>)
    requires |now| == |sorted|
  {
    && |places| <= OBJ_NUMB_MAX_SIZE
    && (forall i :: 0 <= i < |places| ==> places[i] < |now| && Eligible(now, sorted, places[i]))
    && (forall i, j :: 0 <= i < j < |places| ==> places[i] < places[j])
    && (|places| < OBJ_NUMB_MAX_SIZE ==> forall k :: 0 <= k < |now| && Eligible(now, sorted, k) ==> k in places)
  }

  lemma ReportedRight(b: Boxes, scores: seq<real>, s: seq<Pair>, was: seq<int>, now: seq<int>, sorted: seq<real>,
        results: seq<Result>, places: seq<nat>)
    requires Processed(b, scores, s, was, now, sorted) && IsOrder(b, now) && Taken(now, sorted, places)
    requires Reports(b, now, sorted, results, places)
    ensures Reported(b, scores, results, Kept(was, places))
  {
    SortedPairs(scores, s);
    forall i | 0 <= i < |places|
      ensures now[places[i]] == was[places[i]] && s[places[i]] == (sorted[places[i]], was[places[i]])
    {
    }
  }

  lemma KeptApart(b: Boxes, scores: seq<real>, s: seq<Pair>, was: seq<int>, now: seq<int>, sorted: seq<real>,
        places: seq<nat>)
    requires Processed(b, scores, s, was, now, sorted) && Taken(now, sorted, places)
    ensures Apart(b, Kept(was, places))
  {
    var kept := Kept(was, places);
    forall i, j | 0 <= i < j < |kept| && SameClass(b, kept[i], kept[j])
      ensures b.Overlap(kept[i], kept[j]) <= NMS_THRESHOLD
    {
      SurvivorsApart(b, was, now, NMS_THRESHOLD, places[i], places[j]);
    }
  }

  lemma OthersCovered(b: Boxes, scores: seq<real>, s: seq<Pair>, was: seq<int>, now: seq<int>, sorted: seq<real>,
        places: seq<nat>, n: nat)
    requires Processed(b, scores, s, was, now, sorted) && Taken(now, sorted, places) && |places| < OBJ_NUMB_MAX_SIZE
    requires n < |scores| && scores[n] >= CONF_THRESHOLD && n !in Kept(was, places)
    ensures Covered(b, scores, Kept(was, places), n)
  {
    SortedPairs(scores, s);
    var j :| 0 <= j < |s| && s[j] == (scores[n], n);
    InKept(was, places, j);
    assert s[j] == (sorted[j], was[j]);
    var k := RemovedForReason(b, was, now, NMS_THRESHOLD, j);
    assert s[k] == (sorted[k], was[k]) && s[k].0 >= s[j].0;
    InKept(was, places, k);
    assert SameClass(b, was[k], n);
  }

  lemma ReportsAreGood(b: Boxes, scores: seq<real>, s: seq<Pair>, was: seq<int>, now: seq<int>, sorted: seq<real>,
        results: seq<Result>, places: seq<nat>)
    requires Processed(b, scores, s, was, now, sorted) && IsOrder(b, now)
    requires places == AtMost(Places(now, sorted, |now|), OBJ_NUMB_MAX_SIZE) && Reports(b, now, sorted, results, places)
    ensures Taken(now, sorted, places)
    ensures Reported(b, scores, results, Kept(was, places)) && Apart(b, Kept(was, places))
    ensures Complete(b, scores, Kept(was, places))
  {
    assert forall i :: 0 <= i < |places| ==> places[i] == Places(now, sorted, |now|)[i];
    ReportedRight(b, scores, s, was, now, sorted, results, places);
    KeptApart(b, scores, s, was, now, sorted, places);
    if |places| < OBJ_NUMB_MAX_SIZE {
      forall n | 0 <= n < |scores| && scores[n] >= CONF_THRESHOLD && n !in Kept(was, places)
        ensures Covered(b, scores, Kept(was, places), n)
      {
        OthersCovered(b, scores, s, was, now, sorted, places, n);
      }
    }
  }

  /** Sorting, suppression and selection together. `validCount` boxes scored enough to get this far. */
  method PostProcess(b: Boxes, boxesScore: array<real>, results: array<Result>)
    returns (count: nat, ghost kept: seq<int>)
    requires b.Valid() && boxesScore.Length == |b.classIds| && results.Length == OBJ_NUMB_MAX_SIZE
    modifies boxesScore, results
    ensures count <= results.Length && Reported(b, old(boxesScore[..]), results[..count], kept)
    ensures Apart(b, kept) && Complete(b, old(boxesScore[..]), kept)
  {
    ghost var scores := boxesScore[..];
    var validCount := boxesScore.Length;
    if validCount == 0 {
      return 0, [];
    }
    var indexArray := new int[validCount](i => i);
    assert Pairs(boxesScore, indexArray) == Scored(scores);
    QuickSortIndiceInverse(boxesScore, 0, validCount - 1, indexArray);
    ghost var s, was := Pairs(boxesScore, indexArray), indexArray[..];
    WholeRearranged(Scored(scores), s);
    SortedPairs(scores, s);
    assert forall i :: 0 <= i < validCount ==> s[i] == (boxesScore[i], indexArray[i]);
    NmsAll(b, indexArray, NMS_THRESHOLD);
    count := Select(b, indexArray, boxesScore, results);
    ghost var places := AtMost(Places(indexArray[..], boxesScore[..], validCount), OBJ_NUMB_MAX_SIZE);
    ReportsAreGood(b, scores, s, was, indexArray[..], boxesScore[..], results[..count], places);
    kept := Kept(was, places);
  }

  /** Two reported boxes of a class are never in the same place with the same sides. */
  lemma NoTwins(b: Boxes, kept: seq<int>, i: nat, j: nat)
    requires b.Valid() && i < j < |kept| && SameClass(b, kept[i], kept[j]) && Apart(b, kept)
    requires b.locations[kept[i] * 4 + 2] >= 0.0 && b.locations[kept[i] * 4 + 3] >= 0.0
    ensures !SamePlace(b, kept[i], kept[j])
  {
    hide CalculateOverlap;
    var n, m := kept[i], kept[j];
    if SamePlace(b, n, m) {
      assert CornerAt(b, n, 0) == CornerAt(b, m, 0) && CornerAt(b, n, 1) == CornerAt(b, m, 1);
      assert CornerAt(b, n, 2) == CornerAt(b, m, 2) && CornerAt(b, n, 3) == CornerAt(b, m, 3);
    }
    OverlapSelf(b.locations[n * 4], b.locations[n * 4 + 1], b.locations[n * 4] + b.locations[n * 4 + 2],
                b.locations[n * 4 + 1] + b.locations[n * 4 + 3]);
  }

  ghost predicate SamePlace(b: Boxes, n: int, m: int)
    requires b.Valid() && b.Names(n) && b.Names(m)
  {
    forall c :: 0 <= c < 4 ==> CornerAt(b, n, c) == CornerAt(b, m, c)
  }

  function CornerAt(b: Boxes, n: int, c: nat): real
    requires b.Valid() && b.Names(n) && c < 4
  {
    b.locations[n * 4 + c]
  }

  lemma WholeRearranged(s: seq<Pair>, t: seq<Pair>)
    requires Rearranged(s, t, 0, |s|)
    ensures multiset(t) == multiset(s)
  {
    assert s[0..|s|] == s && t[0..|s|] == t;
  }
}
