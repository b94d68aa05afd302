/** What a writer may send as the code lengths of a dynamic block, RFC 1951 section 3.2.7, in the format's own terms,
    and that the reader's `Deflate.DynamicCodes` gives the lengths back. */
module DynamicCode {
  import opened Wrappers
  import opened Bits
  import opened BitReversal
  import opened Huffman
  import opened Deflate
  import opened TokenCode

  // ----- runs of code lengths

  /** A length, the last length again 3 to 6 times, or 3 to 10 or 11 to 138 zeros. */
  datatype Sent = Once(length: nat) | Again(times: nat) | Zeros(times: nat) | ManyZeros(times: nat) {
    predicate Valid() {
      match this
      case Once(length) => length <= 15
      case Again(times) => 3 <= times <= 6
      case Zeros(times) => 3 <= times <= 10
      case ManyZeros(times) => 11 <= times <= 138
    }

    function Symbol(): nat {
      match this
      case Once(length) => length
      case Again(_) => 16
      case Zeros(_) => 17
      case ManyZeros(_) => 18
    }

    function Extra(): seq<Field> {
      match this
      case Once(_) => []
      case Again(times) => [Field(if times < 3 then 0 else times - 3, 2)]
      case Zeros(times) => [Field(if times < 3 then 0 else times - 3, 3)]
      case ManyZeros(times) => [Field(if times < 11 then 0 else times - 11, 7)]
    }

    /** There is a last length to repeat. */
    predicate Follows(got: seq<nat>) {
      Again? ==> got != []
    }

    /** The lengths got so far, and those it stands for. */
    function After(got: seq<nat>): seq<nat>
      requires Follows(got)
    {
      match this
      case Once(length) => got + [length]
      case Again(times) => got + seq(times, _ => got[|got| - 1])
      case Zeros(times) => got + seq(times, _ => 0)
      case ManyZeros(times) => got + seq(times, _ => 0)
    }

    ghost function Fields(cl: seq<nat>): seq<Field>
      requires Valid() && |cl| == 19
    {
      [SymbolField(cl, Symbol())] + Extra()
    }
  }

  /** All follow, in turn. */
  predicate Meaningful(got: seq<nat>, runs: seq<Sent>)
    decreases |runs|
  {
    runs == [] || (runs[0].Valid() && runs[0].Follows(got) && Meaningful(runs[0].After(got), runs[1..]))
  }

  function Meaning(got: seq<nat>, runs: seq<Sent>): seq<nat>
    requires Meaningful(got, runs)
    decreases |runs|
  {
    if runs == [] then got else Meaning(runs[0].After(got), runs[1..])
  }

  ghost predicate AllLengths(s: seq<nat>) {
    forall i :: 0 <= i < |s| ==> s[i] <= MAX_BITS
  }

  lemma AfterLengths(r: Sent, got: seq<nat>)
    requires r.Valid() && r.Follows(got) && AllLengths(got)
    ensures AllLengths(r.After(got)) && |r.After(got)| > |got|
  {
  }

  lemma {:induction false} MeaningGrows(got: seq<nat>, runs: seq<Sent>)
    requires Meaningful(got, runs)
    ensures |got| <= |Meaning(got, runs)|
    decreases |runs|
  {
    if runs != [] {
      MeaningGrows(runs[0].After(got), runs[1..]);
    }
  }

  /** The reader reads a run as what it stands for. */
  lemma ReadSent(cl: seq<nat>, r: Sent, got: seq<nat>, total: nat, rest: seq<Field>)
    requires IsSizeList(cl) && Fits(cl) && |cl| == 19 && AllLengths(got) && r.Valid() && r.Follows(got)
    requires cl[r.Symbol()] > 0 && |r.After(got)| <= total
    ensures var v := Pack(r.Fields(cl) + rest);
            match ReadRun(cl, v, total - |got|, LastOf(got))
            case BadRun => false
            case Run(n, fill, more) => got + seq(n, _ => fill) == r.After(got) && more == Pack(rest)
    ensures RunBits(cl, Pack(r.Fields(cl) + rest)) == Width(r.Fields(cl))
  {
    hide Pack, Width, SymbolField, Fits, ReadSymbol, Low, Shr, Pow2;
    var f := SymbolField(cl, r.Symbol());
    assert r.Fields(cl) + rest == [f] + (r.Extra() + rest);
    ReadSymbolField(cl, r.Symbol(), r.Extra() + rest);
    SentWidth(cl, r);
    SmallPowers();
    if !r.Once? {
      assert r.Extra() == [r.Extra()[0]];
      PackFirst(r.Extra()[0], rest);
    } else {
      assert r.Extra() + rest == rest;
    }
  }

  lemma SentWidth(cl: seq<nat>, r: Sent)
    requires |cl| == 19 && r.Valid()
    ensures Width(r.Fields(cl)) == cl[r.Symbol()] + if r.Symbol() < 16 then 0 else RepeatBits(r.Symbol())
  {
    hide Pack, Width;
    var f := SymbolField(cl, r.Symbol());
    PackAppend([f], r.Extra());
    OneWidth(f);
    if r.Once? {
      NoWidth();
    } else {
      assert r.Extra() == [r.Extra()[0]];
      OneWidth(r.Extra()[0]);
    }
  }

  lemma NoWidth()
    ensures Width([]) == 0
  {
  }

  /** The symbols used have codes. */
  ghost predicate AllSent(cl: seq<nat>, runs: seq<Sent>)
    requires |cl| == 19
  {
    forall i :: 0 <= i < |runs| ==> runs[i].Valid() && cl[runs[i].Symbol()] > 0
  }

  ghost function SentFields(cl: seq<nat>, runs: seq<Sent>): seq<Field>
    requires |cl| == 19 && AllSent(cl, runs)
  {
    if runs == [] then [] else runs[0].Fields(cl) + SentFields(cl, runs[1..])
  }

  /** The reader reads all runs as the lengths they stand for, and takes exactly their bits. */
  lemma {:induction false} ReadAllSent(cl: seq<nat>, runs: seq<Sent>, got: seq<nat>, total: nat, rest: seq<Field>)
    requires IsSizeList(cl) && Fits(cl) && |cl| == 19 && AllLengths(got) && AllSent(cl, runs)
    requires Meaningful(got, runs) && |Meaning(got, runs)| == total && |got| <= total
    ensures ReadLengths(cl, Pack(SentFields(cl, runs) + rest), total, got) == Lengths(Meaning(got, runs), Pack(rest))
    ensures LengthsBits(cl, Pack(SentFields(cl, runs) + rest), total, got) == Width(SentFields(cl, runs))
    decreases |runs|
  {
    hide Pack, Width, Fits, ReadRun, RunBits, Sent.Fields, Sent.After;
    if runs == [] {
      assert SentFields(cl, runs) + rest == rest;
      NoWidth();
    } else {
      var r := runs[0];
      var more := SentFields(cl, runs[1..]);
      AfterLengths(r, got);
      MeaningGrows(r.After(got), runs[1..]);
      Assoc(r.Fields(cl), more, rest);
      ReadSent(cl, r, got, total, more + rest);
      ReadAllSent(cl, runs[1..], r.After(got), total, rest);
      PackAppend(r.Fields(cl), more);
    }
  }

  // ----- the lengths of the code for code lengths

  /** The symbols in the order in which their lengths are sent: the three kinds of runs, zero, and outwards from 8. */
  function SentSymbol(i: nat): nat
    requires i < 19
  {
    if i < 3 then 16 + i else if i == 3 then 0 else if i % 2 == 0 then 8 + (i - 4) / 2 else 7 - (i - 5) / 2
  }

  /** Where symbol `c` stands in that order. */
  function PlaceOf(c: nat): nat
    requires c < 19
  {
    if c >= 16 then c - 16 else if c == 0 then 3 else if c >= 8 then 4 + 2 * (c - 8) else 5 + 2 * (7 - c)
  }

  lemma OrderIs(i: nat)
    requires i < 19
    ensures LengthPlace(i) == SentSymbol(i)
  {
  }

  lemma OrderInverse(c: nat)
    requires c < 19
    ensures PlaceOf(c) < 19 && SentSymbol(PlaceOf(c)) == c && SentSymbol(c) < 19 && PlaceOf(SentSymbol(c)) == c
  {
  }

  function SizeFields(sizes: seq<nat>, n: nat): seq<Field>
    requires |sizes| == 19 && n <= 19
  {
    if n == 0 then [] else
      OrderInverse(n - 1);
      SizeFields(sizes, n - 1) + [Field(sizes[SentSymbol(n - 1)], 3)]
  }

  lemma {:induction false} SizesWidth(sizes: seq<nat>, n: nat)
    requires |sizes| == 19 && n <= 19
    ensures Width(SizeFields(sizes, n)) == 3 * n
  {
    hide Pack, SentSymbol;
    if n > 0 {
      SizesWidth(sizes, n - 1);
      OrderInverse(n - 1);
      var f := Field(sizes[SentSymbol(n - 1)], 3);
      PackAppend(SizeFields(sizes, n - 1), [f]);
      OneWidth(f);
    }
  }

  /** The first `n` sizes in that order, 0 for the others. */
  ghost predicate FirstSizes(sizes: seq<nat>, n: nat, got: seq<nat>) {
    |sizes| == |got| == 19 && forall c: nat :: c < 19 ==> got[c] == if PlaceOf(c) < n then sizes[c] else 0
  }

  lemma {:induction false} ReadSizes(sizes: seq<nat>, n: nat, rest: seq<Field>)
    requires |sizes| == 19 && n <= 19 && forall c :: 0 <= c < 19 ==> sizes[c] < 8
    ensures var v := Pack(SizeFields(sizes, n) + rest);
            FirstSizes(sizes, n, CodeLengthSizes(v, n)) && Shr(v, 3 * n) == Pack(rest)
  {
    hide Pack, Low, Shr, LengthPlace, SentSymbol, PlaceOf, Pow2;
    if n == 0 {
      assert SizeFields(sizes, n) + rest == rest;
      ShrZero(Pack(rest));
    } else {
      OrderInverse(n - 1);
      OrderIs(n - 1);
      SmallPowers();
      var f := Field(sizes[SentSymbol(n - 1)], 3);
      var v := Pack(SizeFields(sizes, n) + rest);
      Assoc(SizeFields(sizes, n - 1), [f], rest);
      ReadSizes(sizes, n - 1, [f] + rest);
      PackFirst(f, rest);
      ShrAdd(v, 3 * (n - 1), 3);
      forall c: nat | c < 19
        ensures CodeLengthSizes(v, n)[c] == if PlaceOf(c) < n then sizes[c] else 0
      {
        OrderInverse(c);
      }
    }
  }

  lemma ShrZero(v: nat)
    ensures Shr(v, 0) == v
  {
  }

  // ----- the head of a dynamic block

  /** Codes for a dynamic block, and how their lengths are sent: by a code whose own lengths are `sizes`, of which the
      first `n` are sent, as `runs`. */
  datatype Plan = Plan(lens: seq<nat>, dlens: seq<nat>, sizes: seq<nat>, n: nat, runs: seq<Sent>) {
    ghost predicate Valid() {
      && 257 <= |lens| <= 288 && 1 <= |dlens| <= 32 && AreCodes(lens, dlens)
      && |sizes| == 19 && (forall c :: 0 <= c < 19 ==> sizes[c] < 8) && Fits(sizes)
      && 4 <= n <= 19 && (forall c: nat :: c < 19 && PlaceOf(c) >= n ==> sizes[c] == 0)
      && AllSent(sizes, runs) && Meaningful([], runs) && Meaning([], runs) == lens + dlens
    }

    ghost function Counts(): seq<Field>
      requires Valid()
    {
      [Field(|lens| - 257, 5), Field(|dlens| - 1, 5), Field(n - 4, 4)]
    }

    ghost function Fields(): seq<Field>
      requires Valid()
    {
      Counts() + (SizeFields(sizes, n) + SentFields(sizes, runs))
    }
  }

  lemma ReadCounts(p: Plan, rest: seq<Field>)
    requires p.Valid()
    ensures var v := Pack(p.Counts() + rest);
            Low(v, 5) == |p.lens| - 257 && Low(Shr(v, 5), 5) == |p.dlens| - 1 && Low(Shr(Shr(v, 5), 5), 4) == p.n - 4
            && Shr(Shr(Shr(v, 5), 5), 4) == Pack(rest)
    ensures Width(p.Counts()) == 14
  {
    hide Low, Shr, Pack, Fits, Meaningful, Meaning, PlaceOf, AllSent;
    var a, b, c := Field(|p.lens| - 257, 5), Field(|p.dlens| - 1, 5), Field(p.n - 4, 4);
    SmallPowers();
    assert [a, b, c] + rest == [a] + ([b] + ([c] + rest));
    PackFirst(a, [b] + ([c] + rest));
    PackFirst(b, [c] + rest);
    PackFirst(c, rest);
    assert [a, b, c] == [a] + [b] + [c];
    PackAppend([a] + [b], [c]);
    PackAppend([a], [b]);
    OneWidth(a);
    OneWidth(b);
    OneWidth(c);
  }

  /** The sizes, and then all lengths. */
  lemma ReadSentLengths(p: Plan, rest: seq<Field>)
    requires p.Valid()
    ensures var v := Pack(SizeFields(p.sizes, p.n) + (SentFields(p.sizes, p.runs) + rest));
            && SentLengths(v, p.n, |p.lens| + |p.dlens|) == Lengths(p.lens + p.dlens, Pack(rest))
            && SentBits(v, p.n, |p.lens| + |p.dlens|) == 3 * p.n + Width(SentFields(p.sizes, p.runs))
  {
    hide Pack, Width, Low, Shr, Fits, CodeLengthSizes, ReadLengths, LengthsBits, PlaceOf, Meaningful, Meaning;
    var more := SentFields(p.sizes, p.runs) + rest;
    var v := Pack(SizeFields(p.sizes, p.n) + more);
    ReadSizes(p.sizes, p.n, more);
    SameSizes(p.sizes, p.n, CodeLengthSizes(v, p.n));
    ReadAllSent(p.sizes, p.runs, [], |p.lens| + |p.dlens|, rest);
  }

  lemma SameSizes(sizes: seq<nat>, n: nat, got: seq<nat>)
    requires FirstSizes(sizes, n, got) && forall c: nat :: c < 19 && PlaceOf(c) >= n ==> sizes[c] == 0
    ensures got == sizes
  {
    hide PlaceOf;
    assert forall c: nat :: c < 19 ==> got[c] == sizes[c];
  }

  /** The reader gets back exactly the two lists of code lengths, and takes exactly the bits they were sent in. */
  lemma ReadPlan(p: Plan, rest: seq<Field>)
    requires p.Valid()
    ensures DynamicCodes(Pack(p.Fields() + rest)) == Codes(p.lens, p.dlens, Pack(rest))
    ensures DynamicBits(Pack(p.Fields() + rest)) == Width(p.Fields())
  {
    hide Pack, Width, Low, Shr, Fits, SizeFields, SentFields, SentLengths, SentBits, Plan.Counts;
    hide Meaningful, Meaning, AllSent, PlaceOf;
    var sizes, sent := SizeFields(p.sizes, p.n), SentFields(p.sizes, p.runs);
    var v := Pack(p.Fields() + rest);
    Assoc(p.Counts(), sizes + sent, rest);
    Assoc(sizes, sent, rest);
    ReadCounts(p, sizes + (sent + rest));
    ReadSentLengths(p, rest);
    PackAppend(p.Counts(), sizes + sent);
    PackAppend(sizes, sent);
    SizesWidth(p.sizes, p.n);
    PlanParts(p);
  }

  lemma PlanParts(p: Plan)
    requires p.Valid()
    ensures 257 <= |p.lens| <= 288 && 1 <= |p.dlens| <= 32 && 4 <= p.n <= 19
    ensures Fits(p.lens) && Fits(p.dlens)
    ensures (p.lens + p.dlens)[..|p.lens|] == p.lens && (p.lens + p.dlens)[|p.lens|..] == p.dlens
  {
    hide Fits, Meaningful, Meaning, PlaceOf;
  }

  lemma {:induction false} SentAreFields(cl: seq<nat>, runs: seq<Sent>)
    requires |cl| == 19 && AllSent(cl, runs)
    ensures AreFields(SentFields(cl, runs))
  {
    hide SymbolField;
    if runs != [] {
      SmallPowers();
      SymbolIsField(cl, runs[0].Symbol());
      SentAreFields(cl, runs[1..]);
    }
  }

  lemma {:induction false} SizesAreFields(sizes: seq<nat>, n: nat)
    requires |sizes| == 19 && n <= 19 && forall c :: 0 <= c < 19 ==> sizes[c] < 8
    ensures AreFields(SizeFields(sizes, n))
  {
    hide SentSymbol;
    if n > 0 {
      OrderInverse(n - 1);
      SmallPowers();
      SizesAreFields(sizes, n - 1);
    }
  }

  lemma PlanIsFields(p: Plan)
    requires p.Valid()
    ensures AreFields(p.Fields())
  {
    hide Huffman.Fits, Meaningful, Meaning, PlaceOf, SizeFields, SentFields;
    SmallPowers();
    SizesAreFields(p.sizes, p.n);
    SentAreFields(p.sizes, p.runs);
  }

  // ----- all codes can be sent

  function Plainly(lengths: seq<nat>): seq<Sent> {
    if lengths == [] then [] else [Once(lengths[0])] + Plainly(lengths[1..])
  }

  lemma {:induction false} PlainlyMeans(got: seq<nat>, lengths: seq<nat>)
    requires AllLengths(lengths)
    ensures Meaningful(got, Plainly(lengths)) && Meaning(got, Plainly(lengths)) == got + lengths
    ensures forall i :: 0 <= i < |Plainly(lengths)| ==> Plainly(lengths)[i].Valid()
    decreases |lengths|
  {
    if lengths == [] {
      assert got + lengths == got;
    } else {
      PlainlyMeans(got + [lengths[0]], lengths[1..]);
      var runs := Plainly(lengths);
      assert runs[0] == Once(lengths[0]) && runs[1..] == Plainly(lengths[1..]);
      assert runs[0].After(got) == got + [lengths[0]];
      hide Plainly, Sent.After;
      assert got + [lengths[0]] + lengths[1..] == got + lengths;
    }
  }

  lemma {:induction false} FivesCount(sizes: seq<nat>, n: nat, s: nat)
    requires n <= |sizes| && forall c :: 0 <= c < |sizes| ==> sizes[c] == 5
    ensures CountIn(sizes, n, s) == if s == 5 then n else 0
  {
    if n > 0 {
      FivesCount(sizes, n - 1, s);
    }
  }

  lemma {:induction false} FivesFirst(sizes: seq<nat>, s: nat)
    requires |sizes| == 19 && 1 <= s && forall c :: 0 <= c < 19 ==> sizes[c] == 5
    ensures First(sizes, s) <= (if s <= 5 then 0 else 19 * Pow2(s - 5))
    ensures s <= 5 ==> First(sizes, s) == 0
  {
    if s > 1 {
      FivesFirst(sizes, s - 1);
      FivesCount(sizes, 19, s - 1);
    }
  }

  lemma FivesFit(sizes: seq<nat>)
    requires |sizes| == 19 && forall c :: 0 <= c < 19 ==> sizes[c] == 5
    ensures Fits(sizes)
  {
    forall s {:trigger End(sizes, s)} | 1 <= s <= MAX_BITS ensures End(sizes, s) <= Pow2(s) {
      FivesFirst(sizes, s);
      FivesCount(sizes, 19, s);
      SmallPowers();
      if s > 5 {
        Pow2Add(5, s - 5);
      }
    }
  }

  /** Every pair of codes that a dynamic block may have can be sent. */
  lemma CanBeSent(lens: seq<nat>, dlens: seq<nat>) returns (p: Plan)
    requires 257 <= |lens| <= 288 && 1 <= |dlens| <= 32 && AreCodes(lens, dlens)
    ensures p.Valid() && p.lens == lens && p.dlens == dlens
  {
    hide Fits, Meaningful, Meaning, PlaceOf, Plainly;
    var sizes: seq<nat> := seq(19, _ => 5);
    FivesFit(sizes);
    PlainlyMeans([], lens + dlens);
    assert [] + (lens + dlens) == lens + dlens;
    forall c: nat | c < 19 ensures PlaceOf(c) < 19 {
      OrderInverse(c);
    }
    p := Plan(lens, dlens, sizes, 19, Plainly(lens + dlens));
  }
}
