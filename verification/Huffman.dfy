/** Canonical Huffman codes from code lengths, RFC 1951 section 3.2.2. */
module Huffman {
  import opened Bits
  import opened BitReversal

  const MAX_BITS: nat := 15

  /** Code lengths as the reader receives them: at most 288 symbols, at most 15 bits each, 0 for unused. */
  ghost predicate IsSizeList(lens: seq<nat>) {
    |lens| <= 288 && forall i :: 0 <= i < |lens| ==> lens[i] <= MAX_BITS
  }

  /** How many of the first `n` symbols have code length `s`. */
  function CountIn(lens: seq<nat>, n: nat, s: nat): nat
    requires n <= |lens|
  {
    if n == 0 then 0 else CountIn(lens, n - 1, s) + if lens[n - 1] == s then 1 else 0
  }

  function Count(lens: seq<nat>, s: nat): nat {
    CountIn(lens, |lens|, s)
  }

  /** The first code of length `s`. */
  function First(lens: seq<nat>, s: nat): nat {
    if s <= 1 then 0 else 2 * (First(lens, s - 1) + Count(lens, s - 1))
  }

  /** One past the last code of length `s`. */
  function End(lens: seq<nat>, s: nat): nat {
    First(lens, s) + Count(lens, s)
  }

  /** How many of the first `n` symbols have codes shorter than `s`. */
  function ShorterIn(lens: seq<nat>, n: nat, s: nat): nat
    requires n <= |lens|
  {
    if s <= 1 then 0 else ShorterIn(lens, n, s - 1) + CountIn(lens, n, s - 1)
  }

  function Shorter(lens: seq<nat>, s: nat): nat {
    ShorterIn(lens, |lens|, s)
  }

  /** The position of symbol `i` in code order. */
  function Slot(lens: seq<nat>, i: nat): nat
    requires i < |lens|
  {
    Shorter(lens, lens[i]) + CountIn(lens, i, lens[i])
  }

  function Code(lens: seq<nat>, i: nat): nat
    requires i < |lens|
  {
    First(lens, lens[i]) + CountIn(lens, i, lens[i])
  }

  /** Every length below `n` has room for its codes. */
  ghost predicate FitsBelow(lens: seq<nat>, n: nat) {
    forall s {:trigger End(lens, s)} :: 1 <= s < n ==> End(lens, s) <= Pow2(s)
  }

  ghost predicate Fits(lens: seq<nat>) {
    FitsBelow(lens, MAX_BITS + 1)
  }

  /** The code of symbol `i`, most significant bit first, is a prefix of the bit stream `v`. */
  predicate Matches(lens: seq<nat>, i: nat, v: nat)
    requires i < |lens|
  {
    lens[i] > 0 && Rev(v, lens[i]) == Code(lens, i)
  }

  ghost predicate SomeMatch(lens: seq<nat>, v: nat) {
    exists i :: 0 <= i < |lens| && Matches(lens, i, v)
  }

  // ----- counting

  lemma {:induction false} CountGrows(lens: seq<nat>, m: nat, n: nat, s: nat)
    requires m <= n <= |lens|
    ensures CountIn(lens, m, s) <= CountIn(lens, n, s)
    ensures CountIn(lens, n, s) <= n
  {
    if m < n {
      CountGrows(lens, m, n - 1, s);
    } else if 0 < n {
      CountGrows(lens, n - 1, n - 1, s);
    }
  }

  lemma RankBelowCount(lens: seq<nat>, i: nat)
    requires i < |lens|
    ensures CountIn(lens, i, lens[i]) < Count(lens, lens[i])
  {
    CountGrows(lens, i + 1, |lens|, lens[i]);
  }

  /** The `c`-th symbol of length `s`. */
  lemma {:induction false} NthSymbol(lens: seq<nat>, n: nat, s: nat, c: nat) returns (i: nat)
    requires n <= |lens| && c < CountIn(lens, n, s)
    ensures i < n && lens[i] == s && CountIn(lens, i, s) == c
  {
    if c < CountIn(lens, n - 1, s) {
      i := NthSymbol(lens, n - 1, s, c);
    } else {
      i := n - 1;
    }
  }

  // ----- positions in code order

  lemma {:induction false} ShorterStep(lens: seq<nat>, n: nat, s: nat)
    requires 0 < n <= |lens|
    ensures ShorterIn(lens, n, s) == ShorterIn(lens, n - 1, s) + if 0 < lens[n - 1] < s then 1 else 0
  {
    if s > 1 { ShorterStep(lens, n, s - 1); }
  }

  lemma {:induction false} ShorterBound(lens: seq<nat>, n: nat, s: nat)
    requires n <= |lens|
    ensures ShorterIn(lens, n, s) <= n
  {
    if n > 0 {
      ShorterStep(lens, n, s);
      ShorterBound(lens, n - 1, s);
    } else if s > 1 {
      ShorterBound(lens, 0, s - 1);
    }
  }

  lemma {:induction false} ShorterMonotone(lens: seq<nat>, s: nat, t: nat)
    requires s <= t
    ensures Shorter(lens, s) <= Shorter(lens, t)
  {
    if s < t { ShorterMonotone(lens, s, t - 1); }
  }

  lemma SlotBound(lens: seq<nat>, i: nat)
    requires i < |lens| && lens[i] > 0
    ensures Slot(lens, i) < Shorter(lens, lens[i] + 1) <= |lens|
  {
    RankBelowCount(lens, i);
    ShorterBound(lens, |lens|, lens[i] + 1);
  }

  /** No two symbols share a position. */
  lemma SlotInjective(lens: seq<nat>, i: nat, j: nat)
    requires i < j < |lens| && lens[i] > 0 && lens[j] > 0
    ensures Slot(lens, i) != Slot(lens, j)
  {
    SlotBound(lens, i);
    SlotBound(lens, j);
    if lens[i] == lens[j] {
      CountGrows(lens, i + 1, j, lens[i]);
    } else if lens[i] < lens[j] {
      ShorterMonotone(lens, lens[i] + 1, lens[j]);
    } else {
      ShorterMonotone(lens, lens[j] + 1, lens[i]);
    }
  }

  // ----- the codes are prefix free

  /** Codes longer than `s` start after all codes of length `s`. */
  lemma {:induction false} FirstAfterEnd(lens: seq<nat>, s: nat, t: nat)
    requires 1 <= s < t
    ensures First(lens, t) >= Shl(End(lens, s), t - s)
  {
    if s + 1 < t {
      FirstAfterEnd(lens, s, t - 1);
    }
  }

  /** No code is a prefix of another symbol's code: dropping the extra low bits of the
      longer one never gives the shorter one. */
  lemma PrefixFree(lens: seq<nat>, i: nat, j: nat)
    requires i < |lens| && j < |lens| && i != j
    requires 0 < lens[i] <= lens[j]
    ensures Shr(Code(lens, j), lens[j] - lens[i]) != Code(lens, i)
  {
    RankBelowCount(lens, i);
    var d := lens[j] - lens[i];
    if d == 0 {
      if i < j {
        CountGrows(lens, i + 1, j, lens[i]);
      } else {
        CountGrows(lens, j + 1, i, lens[i]);
      }
    } else {
      FirstAfterEnd(lens, lens[i], lens[j]);
      ShrAtLeast(Code(lens, j), d, End(lens, lens[i]));
    }
  }

  /** At most one symbol's code starts the stream. */
  lemma MatchUnique(lens: seq<nat>, i: nat, j: nat, v: nat)
    requires i < |lens| && j < |lens| && Matches(lens, i, v) && Matches(lens, j, v)
    ensures i == j
  {
    if i != j {
      if lens[i] <= lens[j] {
        RevPrefix(v, lens[i], lens[j]);
        PrefixFree(lens, i, j);
      } else {
        RevPrefix(v, lens[j], lens[i]);
        PrefixFree(lens, j, i);
      }
    }
  }

  // ----- codes of length at most `s` cover exactly the values below End(s)

  lemma CodeBound(lens: seq<nat>, i: nat)
    requires Fits(lens) && i < |lens| && 0 < lens[i] <= MAX_BITS
    ensures Code(lens, i) < Pow2(lens[i])
  {
    RankBelowCount(lens, i);
    assert End(lens, lens[i]) <= Pow2(lens[i]);
  }

  /** A value in the range of length `s` is the code of a symbol of that length. */
  lemma InRangeMatches(lens: seq<nat>, s: nat, v: nat) returns (i: nat)
    requires s > 0
    requires First(lens, s) <= Rev(v, s) < End(lens, s)
    ensures i < |lens| && lens[i] == s && Matches(lens, i, v)
    ensures CountIn(lens, i, s) == Rev(v, s) - First(lens, s)
  {
    i := NthSymbol(lens, |lens|, s, Rev(v, s) - First(lens, s));
  }

  /** A value at or past the end of one length is at or past the first code of the next. */
  lemma NextFirst(lens: seq<nat>, s: nat, v: nat)
    requires s > 0 && Rev(v, s) >= End(lens, s)
    ensures Rev(v, s + 1) >= First(lens, s + 1)
  {
  }

  lemma {:induction false} BelowEndMatches(lens: seq<nat>, s: nat, v: nat) returns (i: nat)
    requires s > 0 && Rev(v, s) < End(lens, s)
    ensures i < |lens| && 0 < lens[i] <= s && Matches(lens, i, v)
  {
    if s > 1 && Rev(v, s - 1) < End(lens, s - 1) {
      i := BelowEndMatches(lens, s - 1, v);
    } else {
      i := InRangeMatches(lens, s, v);
    }
  }

  // ----- acceptance is Kraft's inequality

  /** The sum over all symbols of 2^(15 - length), the codes' share of the 2^15 longest words. */
  function KraftSum(lens: seq<nat>, n: nat): nat
    requires n <= |lens|
  {
    if n == 0 then 0
    else KraftSum(lens, n - 1) + if 0 < lens[n - 1] <= MAX_BITS then Pow2(MAX_BITS - lens[n - 1]) else 0
  }

  /** The same sum, by length, over lengths up to `s`. */
  function KraftByLength(lens: seq<nat>, n: nat, s: nat): nat
    requires n <= |lens| && s <= MAX_BITS
  {
    if s == 0 then 0 else KraftByLength(lens, n, s - 1) + CountIn(lens, n, s) * Pow2(MAX_BITS - s)
  }

  lemma {:induction false} KraftByLengthIsEnd(lens: seq<nat>, s: nat)
    requires 1 <= s <= MAX_BITS
    ensures KraftByLength(lens, |lens|, s) == End(lens, s) * Pow2(MAX_BITS - s)
  {
    var m := Pow2(MAX_BITS - s);
    if s == 1 {
      assert KraftByLength(lens, |lens|, 0) == 0;
    } else {
      KraftByLengthIsEnd(lens, s - 1);
      MulTwice(End(lens, s - 1), m);
      MulDistrib(First(lens, s), Count(lens, s), m);
    }
  }

  lemma {:induction false} KraftByLengthGrows(lens: seq<nat>, n: nat, s: nat, t: nat)
    requires n <= |lens| && s <= t <= MAX_BITS
    ensures KraftByLength(lens, n, s) <= KraftByLength(lens, n, t)
  {
    hide CountIn, Pow2;
    if s < t { KraftByLengthGrows(lens, n, s, t - 1); }
  }

  lemma {:induction false} KraftByLengthStep(lens: seq<nat>, n: nat, s: nat)
    requires 0 < n <= |lens| && s <= MAX_BITS
    ensures KraftByLength(lens, n, s) == KraftByLength(lens, n - 1, s)
         + if 0 < lens[n - 1] <= s then Pow2(MAX_BITS - lens[n - 1]) else 0
  {
    if s > 0 {
      KraftByLengthStep(lens, n, s - 1);
      MulDistrib(CountIn(lens, n - 1, s), 1, Pow2(MAX_BITS - s));
    }
  }

  lemma {:induction false} KraftEmpty(lens: seq<nat>, s: nat)
    requires s <= MAX_BITS
    ensures KraftByLength(lens, 0, s) == 0
  {
    if s > 0 { KraftEmpty(lens, s - 1); }
  }

  lemma {:induction false} KraftSumsAgree(lens: seq<nat>, n: nat)
    requires n <= |lens|
    ensures KraftSum(lens, n) == KraftByLength(lens, n, MAX_BITS)
  {
    if n == 0 {
      KraftEmpty(lens, MAX_BITS);
    } else {
      KraftSumsAgree(lens, n - 1);
      KraftByLengthStep(lens, n, MAX_BITS);
    }
  }

  /** The lengths fit exactly when Kraft's inequality holds: a prefix code with them exists. */
  lemma FitsIffKraft(lens: seq<nat>)
    ensures Fits(lens) <==> KraftSum(lens, |lens|) <= Pow2(MAX_BITS)
  {
    KraftSumsAgree(lens, |lens|);
    KraftByLengthIsEnd(lens, MAX_BITS);
    assert Pow2(0) == 1;
    if KraftSum(lens, |lens|) <= Pow2(MAX_BITS) {
      forall s | 1 <= s <= MAX_BITS ensures End(lens, s) <= Pow2(s) {
        KraftByLengthIsEnd(lens, s);
        KraftByLengthGrows(lens, |lens|, s, MAX_BITS);
        Pow2Add(s, MAX_BITS - s);
        MulCancel(End(lens, s), Pow2(s), Pow2(MAX_BITS - s));
      }
    }
  }
}
