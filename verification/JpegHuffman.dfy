/** The reader's Huffman tables: words from the counts in the header, and finding the word that comes next
    (ITU-T T.81, sections C.2 and F.2.2.3). */
module JpegHuffman {
  import opened Wrappers
  import opened Bits
  import opened JpegCode
  import opened JpegStream

  const FAST_BITS: nat := 9
  const FAST_SIZE: nat := 512
  const NOT_FAST: nat := 255

  // ----- the words, as intervals of the numbers of sixteen bits

  /** How many words there are of each length from 1 to 16; a table has room for 256. */
  predicate IsCounts(count: seq<nat>) {
    |count| == 16 && Upto(count, 16) <= 256
  }

  /** How many words have at most `n` bits. */
  function Upto(count: seq<nat>, n: nat): nat
    requires n <= |count|
  {
    if n == 0 then 0 else Upto(count, n - 1) + count[n - 1]
  }

  /** Their lengths, in order. */
  function Sizes(count: seq<nat>, n: nat): (s: seq<nat>)
    requires n <= |count|
    ensures |s| == Upto(count, n)
  {
    if n == 0 then [] else Sizes(count, n - 1) + seq(count[n - 1], _ => n)
  }

  /** Lengths from 1 to 16, none below the one before. */
  ghost predicate Ordered(sizes: seq<nat>) {
    && (forall k :: 0 <= k < |sizes| ==> 1 <= sizes[k] <= 16)
    && forall j, k :: 0 <= j < k < |sizes| ==> sizes[j] <= sizes[k]
  }

  /** The first number of sixteen bits that begins with word `k`; each word takes up those that begin with it, and
      the next begins after them. */
  function Start(sizes: seq<nat>, k: nat): nat
    requires k <= |sizes|
  {
    if k == 0 then 0 else Start(sizes, k - 1) + Pow2(if sizes[k - 1] <= 16 then 16 - sizes[k - 1] else 0)
  }

  /** There is room for all words. */
  predicate Room(sizes: seq<nat>) {
    Start(sizes, |sizes|) <= 0x1_0000
  }

  /** Word `k` as a number of its length. */
  function CodeAt(sizes: seq<nat>, k: nat): nat
    requires k < |sizes|
  {
    Shr(Start(sizes, k), if sizes[k] <= 16 then 16 - sizes[k] else 0)
  }

  /** `top` begins with word `k`. */
  predicate Begins(sizes: seq<nat>, k: nat, top: nat)
    requires k < |sizes|
  {
    Start(sizes, k) <= top < Start(sizes, k + 1)
  }

  // ----- lengths

  lemma {:induction false} UptoGrows(count: seq<nat>, i: nat, n: nat)
    requires i <= n <= |count|
    ensures Upto(count, i) <= Upto(count, n)
    decreases n
  {
    if i < n {
      UptoGrows(count, i, n - 1);
    }
  }

  lemma {:induction false} SizeIs(count: seq<nat>, n: nat, k: nat)
    requires n <= |count| && k < Upto(count, n)
    ensures var s := Sizes(count, n)[k]; 1 <= s <= n && Upto(count, s - 1) <= k < Upto(count, s)
  {
    if k < Upto(count, n - 1) {
      SizeIs(count, n - 1, k);
    }
  }

  /** A word among those of `s` bits has that length. */
  lemma SizeAt(count: seq<nat>, s: nat, k: nat)
    requires |count| == 16 && 1 <= s <= 16 && Upto(count, s - 1) <= k < Upto(count, s)
    ensures k < Upto(count, 16) && Sizes(count, 16)[k] == s
  {
    UptoGrows(count, s, 16);
    SizeIs(count, 16, k);
    var t := Sizes(count, 16)[k];
    if t < s {
      UptoGrows(count, t, s - 1);
    } else if s < t {
      UptoGrows(count, s, t - 1);
    }
  }

  lemma SizesOrdered(count: seq<nat>)
    requires |count| == 16
    ensures Ordered(Sizes(count, 16))
  {
    hide Sizes, Upto;
    var s := Sizes(count, 16);
    forall k | 0 <= k < |s| ensures 1 <= s[k] <= 16 {
      SizeIs(count, 16, k);
    }
    forall j, k | 0 <= j < k < |s| ensures s[j] <= s[k] {
      SizeIs(count, 16, j);
      SizeIs(count, 16, k);
      if s[k] < s[j] {
        UptoGrows(count, s[k], s[j] - 1);
      }
    }
  }

  // ----- intervals

  lemma StartNext(sizes: seq<nat>, k: nat)
    requires Ordered(sizes) && k < |sizes|
    ensures Start(sizes, k + 1) == Start(sizes, k) + Pow2(16 - sizes[k])
  {
  }

  lemma {:induction false} StartGrows(sizes: seq<nat>, j: nat, k: nat)
    requires j <= k <= |sizes|
    ensures Start(sizes, j) <= Start(sizes, k)
    ensures j < k ==> Start(sizes, j) < Start(sizes, k)
    decreases k
  {
    if j < k {
      StartGrows(sizes, j, k - 1);
    }
  }

  /** The intervals follow each other without gaps: a number below the end of the first `n` is in exactly one. */
  lemma {:induction false} InOne(sizes: seq<nat>, n: nat, top: nat) returns (k: nat)
    requires n <= |sizes| && top < Start(sizes, n)
    ensures k < n && Begins(sizes, k, top)
  {
    if Start(sizes, n - 1) <= top {
      k := n - 1;
    } else {
      k := InOne(sizes, n - 1, top);
    }
  }

  lemma OnlyOne(sizes: seq<nat>, j: nat, k: nat, top: nat)
    requires j < |sizes| && k < |sizes| && Begins(sizes, j, top) && Begins(sizes, k, top)
    ensures j == k
  {
    if j < k {
      StartGrows(sizes, j + 1, k);
    } else if k < j {
      StartGrows(sizes, k + 1, j);
    }
  }

  // ----- words begin at multiples of their room

  ghost predicate Multiple(x: nat, m: nat) {
    Low(x, m) == 0
  }

  lemma {:induction false} MultipleAdd(x: nat, m: nat, p: nat)
    requires Multiple(x, m) && m <= p
    ensures Multiple(x + Pow2(p), m) && Shr(x + Pow2(p), m) == Shr(x, m) + Pow2(p - m)
  {
    if m > 0 {
      assert (x + Pow2(p)) / 2 == x / 2 + Pow2(p - 1);
      MultipleAdd(x / 2, m - 1, p - 1);
    }
  }

  lemma {:induction false} MultipleLess(x: nat, m: nat, n: nat)
    requires Multiple(x, m) && n <= m
    ensures Multiple(x, n)
  {
    if n > 0 {
      MultipleLess(x / 2, m - 1, n - 1);
    }
  }

  /** Below the next multiple, a shift gives the same. */
  lemma {:induction false} SameMultiple(x: nat, y: nat, m: nat)
    requires Multiple(x, m)
    ensures Shr(y, m) == Shr(x, m) <==> x <= y < x + Pow2(m)
  {
    if m > 0 {
      assert x / 2 <= y / 2 < x / 2 + Pow2(m - 1) <==> x <= y < x + Pow2(m);
      SameMultiple(x / 2, y / 2, m - 1);
    }
  }

  lemma {:induction false} MultipleIs(x: nat, m: nat)
    requires Multiple(x, m)
    ensures x == Shl(Shr(x, m), m)
  {
    LowAndRest(x, m);
  }

  lemma {:induction false} StartMultiple(sizes: seq<nat>, k: nat, s: nat)
    requires Ordered(sizes) && k <= |sizes| && s <= 16 && (k > 0 ==> sizes[k - 1] <= s)
    ensures Multiple(Start(sizes, k), 16 - s)
  {
    if k == 0 {
      LowSmall(0, 16 - s);
    } else {
      StartMultiple(sizes, k - 1, s);
      MultipleAdd(Start(sizes, k - 1), 16 - s, 16 - sizes[k - 1]);
    }
  }

  /** A number begins with word `k` exactly when its top bits are that word's number. */
  lemma BeginsIff(sizes: seq<nat>, k: nat, top: nat)
    requires Ordered(sizes) && k < |sizes|
    ensures Begins(sizes, k, top) <==> Shr(top, 16 - sizes[k]) == CodeAt(sizes, k)
  {
    StartBefore(sizes, k, sizes[k]);
    SameMultiple(Start(sizes, k), top, 16 - sizes[k]);
  }

  lemma StartBefore(sizes: seq<nat>, k: nat, s: nat)
    requires Ordered(sizes) && k < |sizes| && sizes[k] <= s <= 16
    ensures Multiple(Start(sizes, k), 16 - s)
  {
    StartMultiple(sizes, k, s);
  }

  // ----- the words as bits

  function WordOf(sizes: seq<nat>, k: nat): (w: BitString)
    requires k < |sizes|
    ensures |w| == sizes[k]
  {
    Msb(CodeAt(sizes, k), sizes[k])
  }

  /** The words with their symbols. */
  function BookOf(sizes: seq<nat>, values: seq<byte>): (b: Book)
    requires |sizes| <= |values|
    ensures |b| == |sizes|
  {
    seq(|sizes|, k requires 0 <= k < |sizes| => Entry(WordOf(sizes, k), values[k]))
  }

  lemma CodeFits(sizes: seq<nat>, k: nat)
    requires Ordered(sizes) && Room(sizes) && k < |sizes|
    ensures CodeAt(sizes, k) < Pow2(sizes[k])
  {
    Pow2Values();
    StartGrows(sizes, k, |sizes|);
    ShrBound(Start(sizes, k), 16, 16 - sizes[k]);
  }

  /** A word comes next exactly when the next sixteen bits, as a number, lie in its interval. */
  lemma WordNextIff(sizes: seq<nat>, k: nat, w: BitString)
    requires Ordered(sizes) && Room(sizes) && k < |sizes| && |w| == 16
    ensures WordOf(sizes, k) <= w <==> Begins(sizes, k, Num(w))
  {
    hide Msb, Num, Start, Shr, CodeAt, Begins;
    var n := sizes[k];
    NumBound(w);
    MsbNum(w);
    TopBits(Num(w), 16, n);
    CodeFits(sizes, k);
    NumMsb(CodeAt(sizes, k), n);
    MsbNum(w[..n]);
    BeginsIff(sizes, k, Num(w));
    assert WordOf(sizes, k) <= w <==> WordOf(sizes, k) == w[..n];
  }

  /** The same with fewer bits, for a word that has no more. */
  lemma ShortWordIff(sizes: seq<nat>, k: nat, w: BitString)
    requires Ordered(sizes) && Room(sizes) && k < |sizes| && |w| == FAST_BITS
    ensures WordOf(sizes, k) <= w <==> sizes[k] <= FAST_BITS && Begins(sizes, k, 128 * Num(w))
  {
    hide Msb, Num, Start, Shr, CodeAt, Begins;
    var z := w + Zeros(7);
    assert z[..FAST_BITS] == w;
    NumZeros(w);
    WordNextIff(sizes, k, z);
    if sizes[k] <= FAST_BITS {
      assert z[..sizes[k]] == w[..sizes[k]];
    }
  }

  lemma NumZeros(w: BitString)
    ensures Num(w + Zeros(7)) == 128 * Num(w)
  {
    NumConcat(w, Zeros(7));
    ShlIsProduct(Num(w), 7);
    Pow2Values();
    SmallPowers();
    NumOfZeros(7);
  }

  lemma {:induction false} NumOfZeros(n: nat)
    ensures Num(Zeros(n)) == 0
  {
    if n > 0 {
      NumOfZeros(n - 1);
      assert Zeros(n)[..n - 1] == Zeros(n - 1);
    }
  }

  /** The words of a header form a prefix code. */
  lemma WordsArePrefixFree(sizes: seq<nat>, values: seq<byte>)
    requires Ordered(sizes) && Room(sizes) && |sizes| <= |values|
    ensures IsBook(BookOf(sizes, values))
  {
    hide Start, WordOf, Begins;
    var b := BookOf(sizes, values);
    forall j, k | 0 <= j < |b| && 0 <= k < |b| && b[j].word <= b[k].word ensures j == k {
      var w := b[k].word + Zeros(16 - sizes[k]);
      assert b[j].word <= w && b[k].word <= w;
      WordNextIff(sizes, j, w);
      WordNextIff(sizes, k, w);
      OnlyOne(sizes, j, k, Num(w));
    }
  }

  // ----- what the tables hold

  /** The fast table: the word of at most nine bits that begins the nine bits `x`, if there is one. */
  ghost predicate FastHolds(sizes: seq<nat>, n: nat, fast: seq<nat>)
    requires n <= |sizes| && |fast| == FAST_SIZE
  {
    && (forall k, x {:trigger Begins(sizes, k, 128 * x)} ::
          0 <= k < n && 0 <= x < FAST_SIZE && sizes[k] <= FAST_BITS && Begins(sizes, k, 128 * x) ==> fast[x] == k)
    && forall x :: 0 <= x < FAST_SIZE ==>
         fast[x] == NOT_FAST || (fast[x] < n && sizes[fast[x]] <= FAST_BITS && Begins(sizes, fast[x], 128 * x))
  }

  /** For each length, the end of the words of at most that many bits, and what to add to a word's number to get its
      place in the list. */
  ghost predicate EndsHold(count: seq<nat>, n: nat, maxcode: seq<nat>, delta: seq<int>)
    requires IsCounts(count) && n <= 16 && |maxcode| == 18 && |delta| == 17
  {
    && (forall j {:trigger maxcode[j]} :: 1 <= j <= n ==> maxcode[j] == EndOf(count, j))
    && forall j {:trigger delta[j]} :: 1 <= j <= n ==> delta[j] == Upto(count, j - 1) - Shr(EndOf(count, j - 1), 16 - j)
  }

  /** Where the words of at most `n` bits end. */
  function EndOf(count: seq<nat>, n: nat): nat
    requires IsCounts(count) && n <= 16
  {
    UptoGrows(count, n, 16);
    Start(Sizes(count, 16), Upto(count, n))
  }

  /** The place in the list of the word that begins `top`, and its length, as the tables have it. */
  function Searched(fast: seq<nat>, size: seq<nat>, maxcode: seq<nat>, delta: seq<int>, top: nat): Option<(int, nat)>
    requires |fast| == FAST_SIZE && |size| == 257 && |maxcode| == 18 && |delta| == 17 && top < 0x1_0000
  {
    var k := fast[top / 128];
    if k < NOT_FAST then Some((k, size[k])) else Slow(maxcode, delta, top, FAST_BITS + 1)
  }

  /** The search by length, from `n` bits on. */
  function Slow(maxcode: seq<nat>, delta: seq<int>, top: nat, n: nat): Option<(int, nat)>
    requires |maxcode| == 18 && |delta| == 17 && 1 <= n
    decreases 17 - n
  {
    if n >= 17 then None
    else if top < maxcode[n] then Some((Shr(top, 16 - n) + delta[n], n))
    else Slow(maxcode, delta, top, n + 1)
  }

  /** The table of words by nine bits marks with 255 that there is none, so it must not hold word 255. */
  predicate Tellable(sizes: seq<nat>) {
    |sizes| == 256 ==> sizes[255] > FAST_BITS
  }

  // ----- why the search finds the word

  /** Words of `n` bits have consecutive numbers. */
  lemma {:induction false} Consecutive(count: seq<nat>, n: nat, k: nat)
    requires IsCounts(count) && 1 <= n <= 16 && Upto(count, n - 1) <= k <= Upto(count, n) <= Upto(count, 16)
    ensures var start := Start(Sizes(count, 16), k);
            Multiple(start, 16 - n) && Shr(start, 16 - n) == Shr(EndOf(count, n - 1), 16 - n) + (k - Upto(count, n - 1))
    decreases k
  {
    hide Sizes, Start, Shr, Multiple;
    var sizes := Sizes(count, 16);
    SizesOrdered(count);
    if k == Upto(count, n - 1) {
      ShorterBefore(count, n);
      StartMultiple(sizes, k, n);
    } else {
      Consecutive(count, n, k - 1);
      SizeAt(count, n, k - 1);
      StartNext(sizes, k - 1);
      MultipleAdd(Start(sizes, k - 1), 16 - n, 16 - n);
    }
  }

  /** Words before those of `n` bits are shorter. */
  lemma ShorterBefore(count: seq<nat>, n: nat)
    requires IsCounts(count) && 1 <= n <= 16 && Upto(count, n - 1) <= Upto(count, 16)
    ensures var k := Upto(count, n - 1); k > 0 ==> Sizes(count, 16)[k - 1] < n
  {
    hide Sizes, Upto;
    var k := Upto(count, n - 1);
    if k > 0 {
      SizeIs(count, 16, k - 1);
      var s := Sizes(count, 16)[k - 1];
      if s >= n {
        UptoGrows(count, n - 1, s - 1);
      }
    }
  }

  /** The search by length, from the first length whose words end after `top`. */
  lemma {:induction false} SlowFinds(count: seq<nat>, maxcode: seq<nat>, delta: seq<int>, top: nat, n: nat)
    requires IsCounts(count) && |maxcode| == 18 && |delta| == 17 && EndsHold(count, 16, maxcode, delta)
    requires 1 <= n <= 17 && EndOf(count, n - 1) <= top
    ensures match Slow(maxcode, delta, top, n)
            case None => EndOf(count, 16) <= top
            case Some((k, s)) =>
              0 <= k < Upto(count, 16) && s == Sizes(count, 16)[k] && Begins(Sizes(count, 16), k, top)
    decreases 17 - n
  {
    hide Sizes, Start, Shr, Multiple, Upto;
    if n <= 16 {
      assert maxcode[n] == EndOf(count, n);
      if top < maxcode[n] {
        var k := InLength(count, n, top);
        assert delta[n] == Upto(count, n - 1) - Shr(EndOf(count, n - 1), 16 - n);
      } else {
        SlowFinds(count, maxcode, delta, top, n + 1);
      }
    }
  }

  /** The word that begins `top`, by its number among those of `n` bits. */
  lemma InLength(count: seq<nat>, n: nat, top: nat) returns (k: nat)
    requires IsCounts(count) && 1 <= n <= 16 && EndOf(count, n - 1) <= top < EndOf(count, n)
    ensures k < Upto(count, 16) && Sizes(count, 16)[k] == n && Begins(Sizes(count, 16), k, top)
    ensures k == Upto(count, n - 1) + Shr(top, 16 - n) - Shr(EndOf(count, n - 1), 16 - n)
  {
    hide Sizes, Start, Shr, Multiple, Upto;
    var sizes := Sizes(count, 16);
    SizesOrdered(count);
    UptoGrows(count, n - 1, n);
    UptoGrows(count, n, 16);
    k := InOne(sizes, Upto(count, n), top);
    if k < Upto(count, n - 1) {
      StartGrows(sizes, k + 1, Upto(count, n - 1));
    }
    SizeAt(count, n, k);
    Consecutive(count, n, k);
    BeginsIff(sizes, k, top);
  }

  /** Nine bits are enough to tell words of at most nine bits. */
  lemma BeginsByNine(sizes: seq<nat>, k: nat, top: nat)
    requires Ordered(sizes) && k < |sizes| && sizes[k] <= FAST_BITS
    ensures Begins(sizes, k, 128 * (top / 128)) <==> Begins(sizes, k, top)
  {
    hide Start, Shr, Begins;
    var m := 16 - sizes[k];
    BeginsIff(sizes, k, top);
    BeginsIff(sizes, k, 128 * (top / 128));
    ShrAdd(top, 7, m - 7);
    ShrAdd(128 * (top / 128), 7, m - 7);
    ShrSeven(top);
    ShrSeven(128 * (top / 128));
  }

  lemma ShrSeven(x: nat)
    ensures Shr(x, 7) == x / 128
  {
    hide Low, Shr, Shl;
    LowAndRest(x, 7);
    ShlIsProduct(Shr(x, 7), 7);
    SmallPowers();
  }

  /** If there is no word of at most nine bits, the search by length may begin at ten. */
  lemma NoShortWord(count: seq<nat>, fast: seq<nat>, top: nat)
    requires IsCounts(count) && |fast| == FAST_SIZE && FastHolds(Sizes(count, 16), Upto(count, 16), fast)
    requires top < 0x1_0000 && fast[top / 128] == NOT_FAST && Tellable(Sizes(count, 16))
    ensures EndOf(count, FAST_BITS) <= top
  {
    hide Sizes, Start, Upto, FastHolds;
    var sizes := Sizes(count, 16);
    if top < EndOf(count, FAST_BITS) {
      UptoGrows(count, FAST_BITS, 16);
      SizesOrdered(count);
      var k := InOne(sizes, Upto(count, FAST_BITS), top);
      SizeIs(count, 16, k);
      ShorterBefore(count, FAST_BITS + 1);
      BeginsByNine(sizes, k, top);
      FastFinds(sizes, fast, k, top / 128);
    }
  }

  lemma FastFinds(sizes: seq<nat>, fast: seq<nat>, k: nat, x: nat)
    requires |fast| == FAST_SIZE && FastHolds(sizes, |sizes|, fast)
    requires k < |sizes| && x < FAST_SIZE && sizes[k] <= FAST_BITS && Begins(sizes, k, 128 * x)
    ensures fast[x] == k
  {
  }

  /** What the tables are of: the words of `count`, all of them. */
  ghost predicate TablesHold(count: seq<nat>, fast: seq<nat>, size: seq<nat>, maxcode: seq<nat>, delta: seq<int>) {
    && IsCounts(count) && Room(Sizes(count, 16))
    && |fast| == FAST_SIZE && |size| == 257 && |maxcode| == 18 && |delta| == 17
    && size[..Upto(count, 16)] == Sizes(count, 16)
    && FastHolds(Sizes(count, 16), Upto(count, 16), fast)
    && EndsHold(count, 16, maxcode, delta) && maxcode[17] == 0xffff_ffff
  }

  /** The right answer of a search: the word that begins `top` and its length, or none if there is no such word. */
  predicate IsWordOf(sizes: seq<nat>, top: nat, r: Option<(int, nat)>) {
    match r
    case None => Start(sizes, |sizes|) <= top
    case Some((k, n)) => 0 <= k < |sizes| && n == sizes[k] && Begins(sizes, k, top)
  }

  lemma SearchFinds(count: seq<nat>, fast: seq<nat>, size: seq<nat>, maxcode: seq<nat>, delta: seq<int>, top: nat)
    requires TablesHold(count, fast, size, maxcode, delta) && Tellable(Sizes(count, 16)) && top < 0x1_0000
    ensures IsWordOf(Sizes(count, 16), top, Searched(fast, size, maxcode, delta, top))
  {
    hide Sizes, Upto, Start, Slow;
    var sizes, k := Sizes(count, 16), fast[top / 128];
    SizesOrdered(count);
    if k < NOT_FAST {
      assert size[..Upto(count, 16)][k] == size[k];
      BeginsByNine(sizes, k, top);
    } else {
      NoShortWord(count, fast, top);
      SlowFinds(count, maxcode, delta, top, FAST_BITS + 1);
    }
  }

  lemma {:induction false} SlowIsLong(maxcode: seq<nat>, delta: seq<int>, top: nat, n: nat)
    requires |maxcode| == 18 && |delta| == 17 && 1 <= n
    ensures match Slow(maxcode, delta, top, n) case None => true case Some((_, s)) => s >= n
    decreases 17 - n
  {
    hide Shr;
    if n < 17 {
      SlowIsLong(maxcode, delta, top, n + 1);
    }
  }

  /** The word that the fast table cannot tell from none is not found. */
  lemma SearchMisses(count: seq<nat>, fast: seq<nat>, size: seq<nat>, maxcode: seq<nat>, delta: seq<int>)
    requires TablesHold(count, fast, size, maxcode, delta) && !Tellable(Sizes(count, 16))
    ensures var sizes := Sizes(count, 16);
            |sizes| == 256 && Start(sizes, 255) < 0x1_0000
            && !IsWordOf(sizes, Start(sizes, 255), Searched(fast, size, maxcode, delta, Start(sizes, 255)))
  {
    hide Sizes, Upto, Slow;
    var sizes := Sizes(count, 16);
    SizesOrdered(count);
    var top := Start(sizes, 255);
    StartGrows(sizes, 255, 256);
    hide Start;
    BeginsByNine(sizes, 255, top);
    FastFinds(sizes, fast, 255, top / 128);
    SlowIsLong(maxcode, delta, top, FAST_BITS + 1);
    match Searched(fast, size, maxcode, delta, top)
    case None =>
    case Some((k, n)) =>
      if 0 <= k < |sizes| && Begins(sizes, k, top) {
        OnlyOne(sizes, k, 255, top);
      }
  }

  /** A search finds every word exactly when the tables do not hold 256 words of at most nine bits. */
  lemma SearchIff(count: seq<nat>, fast: seq<nat>, size: seq<nat>, maxcode: seq<nat>, delta: seq<int>)
    requires TablesHold(count, fast, size, maxcode, delta)
    ensures (forall top: nat :: top < 0x1_0000 ==>
               IsWordOf(Sizes(count, 16), top, Searched(fast, size, maxcode, delta, top)))
         <==> Tellable(Sizes(count, 16))
  {
    hide Sizes, Upto, Start, Slow, Searched, IsWordOf, FastHolds, EndsHold;
    if Tellable(Sizes(count, 16)) {
      forall top: nat | top < 0x1_0000
        ensures IsWordOf(Sizes(count, 16), top, Searched(fast, size, maxcode, delta, top))
      {
        SearchFinds(count, fast, size, maxcode, delta, top);
      }
    } else {
      SearchMisses(count, fast, size, maxcode, delta);
    }
  }

  /** A header that meets the failing side: 255 words of eight bits and one of nine. */
  const FULL_COUNT: seq<nat> := [0, 0, 0, 0, 0, 0, 0, 255, 1, 0, 0, 0, 0, 0, 0, 0]

  lemma FullUpto()
    ensures Upto(FULL_COUNT, 7) == 0 && Upto(FULL_COUNT, 8) == 255
    ensures Upto(FULL_COUNT, 9) == 256 == Upto(FULL_COUNT, 16)
  {
    assert Upto(FULL_COUNT, 3) == 0;
    assert Upto(FULL_COUNT, 7) == 0;
    assert Upto(FULL_COUNT, 9) == 256;
    assert Upto(FULL_COUNT, 12) == 256;
  }

  lemma {:induction false} FullStart(k: nat)
    requires k <= 255 <= |Sizes(FULL_COUNT, 16)|
    ensures Start(Sizes(FULL_COUNT, 16), k) == 256 * k
  {
    hide Sizes, Upto;
    if k > 0 {
      FullStart(k - 1);
      FullUpto();
      SizeAt(FULL_COUNT, 8, k - 1);
      SmallPowers();
    }
  }

  /** Its counts are bytes, there is room for its words, and its last word is that of eight ones and a zero. */
  lemma FullTable()
    ensures |FULL_COUNT| == 16 && forall i :: 0 <= i < 16 ==> FULL_COUNT[i] < 256
    ensures var sizes := Sizes(FULL_COUNT, 16);
            && IsCounts(FULL_COUNT) && Room(sizes) && !Tellable(sizes)
            && |sizes| == 256 && Start(sizes, 255) == 0xff00 && IsWordOf(sizes, 0xff00, Some((255, 9)))
  {
    hide Sizes, Upto;
    FullUpto();
    FullStart(255);
    SizeAt(FULL_COUNT, 9, 255);
    SmallPowers();
  }

  // ----- building the tables

  ghost predicate CodesHold(sizes: seq<nat>, n: nat, code: seq<nat>)
    requires n <= |sizes| && n <= |code|
  {
    forall k :: 0 <= k < n ==> code[k] == CodeAt(sizes, k) % 0x1_0000
  }

  lemma {:induction false} HalfShift(x: nat, m: nat)
    requires m > 0 && Multiple(x, m)
    ensures Shr(x, m - 1) == 2 * Shr(x, m)
  {
    if m > 1 {
      HalfShift(x / 2, m - 1);
    }
  }

  /** A word's number leaves its bits exactly when its interval passes the end. */
  lemma PastEnd(x: nat, j: nat)
    requires j <= 16 && Multiple(x, 16 - j)
    ensures Shr(x, 16 - j) > Pow2(j) <==> x > 0x1_0000
  {
    hide Shl, Shr, Pow2;
    MultipleIs(x, 16 - j);
    ShlIsProduct(Pow2(j), 16 - j);
    Pow2Add(j, 16 - j);
    Pow2Values();
    ShlLess(Pow2(j), Shr(x, 16 - j), 16 - j);
  }

  lemma EndGrows(count: seq<nat>, i: nat, j: nat)
    requires IsCounts(count) && i <= j <= 16
    ensures EndOf(count, i) <= EndOf(count, j)
  {
    hide Sizes, Start;
    UptoGrows(count, i, j);
    UptoGrows(count, j, 16);
    StartGrows(Sizes(count, 16), Upto(count, i), Upto(count, j));
  }

  /** After the words of `j` bits have got their numbers. */
  lemma LengthDone(count: seq<nat>, j: nat, c: nat)
    requires IsCounts(count) && 1 <= j <= 16
    requires c == Shr(EndOf(count, j - 1), 16 - j) + count[j - 1]
    ensures c == Shr(EndOf(count, j), 16 - j) && Shl(c, 16 - j) == EndOf(count, j)
    ensures j < 16 ==> 2 * c == Shr(EndOf(count, j), 16 - (j + 1))
    ensures c > Pow2(j) <==> EndOf(count, j) > 0x1_0000
  {
    hide Sizes, Start, Shr, Shl, Multiple, Pow2;
    UptoGrows(count, j, 16);
    Consecutive(count, j, Upto(count, j));
    MultipleIs(EndOf(count, j), 16 - j);
    PastEnd(EndOf(count, j), j);
    if j < 16 {
      HalfShift(EndOf(count, j), 16 - j);
    }
  }

  lemma EndStart(count: seq<nat>)
    requires IsCounts(count)
    ensures EndOf(count, 0) == 0 == Shr(EndOf(count, 0), 15)
  {
    Pow2Values();
    LowSmall(0, 15);
  }

  /** Word `k` of the table, while those of `j` bits get their numbers. */
  lemma WordNumber(count: seq<nat>, j: nat, k: nat, size: nat)
    requires IsCounts(count) && 1 <= j <= 16 && Upto(count, j - 1) <= k <= Upto(count, j)
    requires k <= Upto(count, 16)
    requires size == if k < Upto(count, 16) then Sizes(count, 16)[k] else 0
    ensures size == j <==> k < Upto(count, j)
    ensures size == j ==> CodeAt(Sizes(count, 16), k) == Shr(EndOf(count, j - 1), 16 - j) + (k - Upto(count, j - 1))
  {
    hide Sizes, Start, Shr, Multiple, Upto;
    UptoGrows(count, j, 16);
    if k < Upto(count, j) {
      SizeAt(count, j, k);
      Consecutive(count, j, k);
    } else if k < Upto(count, 16) {
      SizeIs(count, 16, k);
    }
  }

  /** The nine-bit numbers that begin with a word of at most nine bits. */
  lemma FastInterval(sizes: seq<nat>, i: nat, c: nat, m: nat)
    requires Ordered(sizes) && Room(sizes) && i < |sizes| && sizes[i] <= FAST_BITS
    requires c == Shl(CodeAt(sizes, i), FAST_BITS - sizes[i]) && m == Pow2(FAST_BITS - sizes[i])
    ensures c + m <= FAST_SIZE
    ensures forall x: nat {:trigger Begins(sizes, i, 128 * x)} :: Begins(sizes, i, 128 * x) <==> c <= x < c + m
  {
    hide Start, Shl, Shr, Pow2, Multiple;
    var s := sizes[i];
    StartBefore(sizes, i, s);
    MultipleIs(Start(sizes, i), 16 - s);
    ShlAdd(CodeAt(sizes, i), FAST_BITS - s, 7);
    ShlIsProduct(c, 7);
    Pow2Add(FAST_BITS - s, 7);
    SmallPowers();
    StartNext(sizes, i);
    StartGrows(sizes, i + 1, |sizes|);
    assert Start(sizes, i) == 128 * c && Start(sizes, i + 1) == 128 * (c + m);
  }

  lemma FastMore(sizes: seq<nat>, i: nat, before: seq<nat>, after: seq<nat>, c: nat, m: nat)
    requires i < |sizes| && |before| == |after| == FAST_SIZE && sizes[i] <= FAST_BITS && FastHolds(sizes, i, before)
    requires forall x: nat {:trigger Begins(sizes, i, 128 * x)} :: Begins(sizes, i, 128 * x) <==> c <= x < c + m
    requires forall x :: 0 <= x < FAST_SIZE ==> after[x] == if c <= x < c + m then i else before[x]
    ensures FastHolds(sizes, i + 1, after)
  {
    hide Begins;
    forall k, x {:trigger Begins(sizes, k, 128 * x)}
      | 0 <= k < i + 1 && 0 <= x < FAST_SIZE && sizes[k] <= FAST_BITS && Begins(sizes, k, 128 * x)
      ensures after[x] == k
    {
      if Begins(sizes, i, 128 * x) {
        OnlyOne(sizes, k, i, 128 * x);
      }
    }
    forall x | 0 <= x < FAST_SIZE && after[x] != NOT_FAST
      ensures after[x] < i + 1 && sizes[after[x]] <= FAST_BITS && Begins(sizes, after[x], 128 * x)
    {
      if c <= x < c + m {
        assert Begins(sizes, i, 128 * x);
      }
    }
  }

  lemma FastSkip(sizes: seq<nat>, i: nat, fast: seq<nat>)
    requires i < |sizes| && |fast| == FAST_SIZE && sizes[i] > FAST_BITS && FastHolds(sizes, i, fast)
    ensures FastHolds(sizes, i + 1, fast)
  {
    hide Begins;
  }

  class HuffmanTable {
    const fast: array<nat>
    const code: array<nat>
    const values: array<byte>
    const size: array<nat>
    const maxcode: array<nat>
    const delta: array<int>
    ghost const Repr: set<object>
    ghost var words: seq<nat>

    ghost predicate Shape() {
      && fast.Length == FAST_SIZE && code.Length == 256 && values.Length == 256 && size.Length == 257
      && maxcode.Length == 18 && delta.Length == 17
      && Repr == {fast, code, values as object, size, maxcode, delta}
    }

    ghost predicate Separate() {
      && fast != code && fast != size && fast != maxcode && code != size && code != maxcode && size != maxcode
      && values as object !in {fast as object, code, size, maxcode, delta}
    }

    /** The tables are those of the words of the header. */
    ghost predicate Built()
      reads this, Repr
    {
      Shape() && TablesHold(words, fast[..], size[..], maxcode[..], delta[..])
    }

    ghost predicate Valid()
      reads this, Repr
    {
      Built() && Tellable(Sizes(words, 16))
    }

    /** The words and the symbols they stand for. */
    ghost function Book(): (b: Book)
      requires Valid()
      reads this, Repr
      ensures IsBook(b)
    {
      SizesOrdered(words);
      WordsArePrefixFree(Sizes(words, 16), values[..]);
      BookOf(Sizes(words, 16), values[..])
    }

    constructor ()
      ensures Shape() && Separate() && fresh(Repr)
    {
      fast := new nat[FAST_SIZE];
      code := new nat[256];
      var symbols := new byte[256];
      values := symbols;
      size := new nat[257];
      maxcode := new nat[18];
      delta := new int[17];
      Repr := {fast, code, symbols as object, size, maxcode, delta};
    }

    /** Builds the tables for these counts, or reports that there is no room for so many words. */
    method Build(count: seq<nat>) returns (ok: bool)
      requires Shape() && Separate() && IsCounts(count)
      modifies this`words, fast, code, size, maxcode, delta
      ensures ok <==> Room(Sizes(count, 16))
      ensures words == count && (ok ==> Built())
    {
      hide EndsHold, FastHolds;
      words := count;
      var n := FillSizes(count);
      ok := FillCodes(count, n);
      if ok {
        FillFast(count, n);
      }
    }

    /** The symbols, as the header lists them. */
    method FillValues(symbols: seq<byte>)
      requires Separate() && Built() && |symbols| <= 256
      modifies values
      ensures Built() && values[..|symbols|] == symbols
    {
      hide TablesHold;
      for i := 0 to |symbols|
        invariant Built() && values[..i] == symbols[..i]
      {
        values[i] := symbols[i];
      }
    }

    /** The place and the length of the word that begins the sixteen bits `top`; length 17 if there is none. */
    method Search(top: nat) returns (k: int, n: nat)
      requires Built() && top < 0x1_0000
      ensures match Searched(fast[..], size[..], maxcode[..], delta[..], top)
              case None => n == 17
              case Some((place, length)) => k == place && n == length && (n <= 16 || fast[top / 128] < NOT_FAST)
    {
      k := fast[top / 128];
      if k < NOT_FAST {
        n := size[k];
        return;
      }
      n := FAST_BITS + 1;
      while top >= maxcode[n]
        invariant FAST_BITS < n <= 17
        invariant Slow(maxcode[..], delta[..], top, n) == Slow(maxcode[..], delta[..], top, FAST_BITS + 1)
        decreases 17 - n
      {
        n := n + 1;
      }
      if n < 17 {
        k := Shr(top, 16 - n) + delta[n];
      }
    }

    /** The length of every word, and a zero after the last. */
    method FillSizes(count: seq<nat>) returns (k: nat)
      requires Shape() && IsCounts(count)
      modifies size
      ensures k == Upto(count, 16) && size[..k] == Sizes(count, 16) && size[k] == 0
    {
      k := 0;
      for i := 0 to 16
        invariant k == Upto(count, i) <= 256 && size[..k] == Sizes(count, i)
      {
        UptoGrows(count, i + 1, 16);
        for j := 0 to count[i]
          invariant k == Upto(count, i) + j && size[..k] == Sizes(count, i) + seq(j, _ => i + 1)
        {
          size[k] := i + 1;
          k := k + 1;
          assert size[..k] == size[..k - 1] + [i + 1];
        }
      }
      size[k] := 0;
    }

    /** Numbers the words of `j` bits. */
    method NumberWords(count: seq<nat>, j: nat, k0: nat, c0: nat) returns (k: nat, c: nat)
      requires Shape() && Separate() && IsCounts(count) && 1 <= j <= 16 && k0 == Upto(count, j - 1)
      requires size[..Upto(count, 16)] == Sizes(count, 16) && size[Upto(count, 16)] == 0
      requires c0 == Shr(EndOf(count, j - 1), 16 - j) && k0 <= Upto(count, 16)
      requires CodesHold(Sizes(count, 16), k0, code[..])
      modifies code
      ensures k == Upto(count, j) <= Upto(count, 16) && c == c0 + count[j - 1]
      ensures CodesHold(Sizes(count, 16), k, code[..])
    {
      hide Sizes, Shr, Start, CodeAt;
      UptoGrows(count, j, 16);
      k, c := k0, c0;
      assert size[..Upto(count, 16)] == Sizes(count, 16);
      WordNumber(count, j, k, size[k]);
      while size[k] == j
        invariant k0 <= k <= Upto(count, j) && c == c0 + (k - k0) && CodesHold(Sizes(count, 16), k, code[..])
        invariant size[k] == j <==> k < Upto(count, j)
        decreases Upto(count, j) - k
      {
        WordNumber(count, j, k, size[k]);
        code[k] := c % 0x1_0000;
        c := c + 1;
        k := k + 1;
        WordNumber(count, j, k, size[k]);
      }
    }

    /** Numbers all words, length by length, and marks where those of each length end. */
    method FillCodes(count: seq<nat>, n: nat) returns (ok: bool)
      requires Shape() && Separate() && IsCounts(count) && n == Upto(count, 16)
      requires size[..n] == Sizes(count, 16) && size[n] == 0
      modifies code, maxcode, delta
      ensures ok <==> Room(Sizes(count, 16))
      ensures ok ==> EndsHold(count, 16, maxcode[..], delta[..]) && maxcode[17] == 0xffff_ffff
      ensures ok ==> CodesHold(Sizes(count, 16), n, code[..])
    {
      hide Sizes, Shr, Shl, Start, CodeAt, Pow2, CodesHold;
      var k, c := 0, 0;
      EndStart(count);
      NoCodes(Sizes(count, 16), code[..]);
      for j := 1 to 17
        invariant k == Upto(count, j - 1) <= n && (j <= 16 ==> c == Shr(EndOf(count, j - 1), 16 - j))
        invariant EndOf(count, j - 1) <= 0x1_0000 && CodesHold(Sizes(count, 16), k, code[..])
        invariant EndsHold(count, j - 1, maxcode[..], delta[..])
      {
        delta[j] := k - c;
        LengthDone(count, j, c + count[j - 1]);
        var more := size[k] == j;
        WordNumber(count, j, k, size[k]);
        k, c := NumberWords(count, j, k, c);
        if more {
          if c - 1 >= Pow2(j) {
            EndGrows(count, j, 16);
            return false;
          }
        }
        maxcode[j] := Shl(c, 16 - j);
        c := 2 * c;
      }
      maxcode[17] := 0xffff_ffff;
      ok := true;
    }

    /** Enters each word of at most nine bits under all nine-bit numbers it begins. */
    method FillFast(count: seq<nat>, n: nat)
      requires Shape() && Separate() && IsCounts(count) && n == Upto(count, 16) && size[..n] == Sizes(count, 16)
      requires Room(Sizes(count, 16)) && CodesHold(Sizes(count, 16), n, code[..])
      modifies fast
      ensures FastHolds(Sizes(count, 16), n, fast[..])
    {
      hide Sizes, CodeAt, Start, Shl, Pow2, FastHolds;
      SizesOrdered(count);
      forall x | 0 <= x < FAST_SIZE { fast[x] := NOT_FAST; }
      NoFast(Sizes(count, 16), fast[..]);
      for i := 0 to n
        invariant FastHolds(Sizes(count, 16), i, fast[..])
      {
        var s := size[i];
        assert s == Sizes(count, 16)[i];
        if s <= FAST_BITS {
          EnterFast(Sizes(count, 16), i, s, code[i]);
        } else {
          FastSkip(Sizes(count, 16), i, fast[..]);
        }
      }
    }

    method EnterFast(ghost sizes: seq<nat>, i: nat, s: nat, number: nat)
      requires Shape() && Ordered(sizes) && Room(sizes) && i < |sizes| && s == sizes[i] <= FAST_BITS
      requires number == CodeAt(sizes, i) % 0x1_0000 && FastHolds(sizes, i, fast[..])
      modifies fast
      ensures FastHolds(sizes, i + 1, fast[..])
    {
      hide CodeAt, Start, Shl, Pow2, FastHolds, Begins;
      CodeFits(sizes, i);
      SmallPowers();
      ghost var before := fast[..];
      var c := Shl(number, FAST_BITS - s);
      var m := Pow2(FAST_BITS - s);
      FastInterval(sizes, i, c, m);
      for j := 0 to m
        invariant forall x :: 0 <= x < FAST_SIZE ==> fast[x] == if c <= x < c + j then i else before[x]
      {
        fast[c + j] := i;
      }
      FastMore(sizes, i, before, fast[..], c, m);
    }
  }

  /** An entry of the fast table is the word that begins its nine bits. */
  lemma FastIsFind(sizes: seq<nat>, values: seq<byte>, fast: seq<nat>, x: nat)
    requires Ordered(sizes) && Room(sizes) && Tellable(sizes) && |sizes| <= |values| && |sizes| <= 256
    requires |fast| == FAST_SIZE && FastHolds(sizes, |sizes|, fast) && x < FAST_SIZE
    ensures match Find(BookOf(sizes, values), Msb(x, FAST_BITS), 0)
            case None => fast[x] == NOT_FAST
            case Some(k) => fast[x] == k < NOT_FAST
  {
    hide Start, Begins, Msb, Num, WordOf, FastHolds;
    var b, w := BookOf(sizes, values), Msb(x, FAST_BITS);
    SmallPowers();
    NumMsb(x, FAST_BITS);
    WordsArePrefixFree(sizes, values);
    FastBegins(sizes, fast, x);
    match Find(b, w, 0) {
      case None =>
        if fast[x] != NOT_FAST {
          assert b[fast[x]].word == WordOf(sizes, fast[x]);
          ShortWordIff(sizes, fast[x], w);
        }
      case Some(k) =>
        ShortWordIff(sizes, k, w);
        FastFinds(sizes, fast, k, x);
    }
  }

  lemma FastBegins(sizes: seq<nat>, fast: seq<nat>, x: nat)
    requires |fast| == FAST_SIZE && FastHolds(sizes, |sizes|, fast) && x < FAST_SIZE
    ensures fast[x] == NOT_FAST || (fast[x] < |sizes| && sizes[fast[x]] <= FAST_BITS && Begins(sizes, fast[x], 128 * x))
  {
  }

  /** A search among the next sixteen bits finds the entry that decoding finds. */
  lemma SearchDecodes(sizes: seq<nat>, values: seq<byte>, bs: BitString, r: Option<(int, nat)>)
    requires Ordered(sizes) && Room(sizes) && |sizes| <= |values| && IsWordOf(sizes, Num(Window(bs, 16)), r)
    ensures match r
            case None => HuffDecode(BookOf(sizes, values), bs) == None
            case Some((k, n)) =>
              && 0 <= k < |sizes| && n == sizes[k]
              && HuffDecode(BookOf(sizes, values), bs) == Some(Entry(WordOf(sizes, k), values[k]))
  {
    hide Start, Begins, Msb, Num, WordOf, Window;
    var b, w := BookOf(sizes, values), Window(bs, 16);
    WordsArePrefixFree(sizes, values);
    match r {
      case None =>
        var found := Find(b, w, 0);
        if found.Some? {
          WordNextIff(sizes, found.value, w);
          BeforeEnd(sizes, found.value, Num(w));
        }
      case Some((k, n)) =>
        WordNextIff(sizes, k, w);
        FindIs(b, w, k);
    }
  }

  lemma BeforeEnd(sizes: seq<nat>, k: nat, top: nat)
    requires k < |sizes| && Begins(sizes, k, top)
    ensures top < Start(sizes, |sizes|)
  {
    StartGrows(sizes, k + 1, |sizes|);
  }

  lemma NoCodes(sizes: seq<nat>, code: seq<nat>)
    ensures CodesHold(sizes, 0, code)
  {
  }

  lemma NoFast(sizes: seq<nat>, fast: seq<nat>)
    requires |fast| == FAST_SIZE && forall x :: 0 <= x < FAST_SIZE ==> fast[x] == NOT_FAST
    ensures FastHolds(sizes, 0, fast)
  {
  }

  // ----- tables from a header

  /** What a header says of a table. */
  datatype Header = Header(count: seq<nat>, values: seq<byte>)

  /** Room for all words, a symbol for each, and not 256 words of at most nine bits. */
  ghost predicate Sendable(h: Header) {
    IsCounts(h.count) && |h.values| == Upto(h.count, 16) && Room(Sizes(h.count, 16)) && Tellable(Sizes(h.count, 16))
  }

  ghost function HeaderBook(h: Header): (b: Book)
    requires Sendable(h)
    ensures IsBook(b)
  {
    SizesOrdered(h.count);
    WordsArePrefixFree(Sizes(h.count, 16), h.values);
    BookOf(Sizes(h.count, 16), h.values)
  }

  /** The tables a header stands for, unless there is no room for its words; all can be told from none, and the tables
      decode them, exactly when the header is one that can be sent. */
  method BuildTable(header: Header) returns (ok: bool, h: HuffmanTable)
    requires IsCounts(header.count) && |header.values| == Upto(header.count, 16)
    ensures fresh(h) && fresh(h.Repr) && h.words == header.count && (ok <==> Room(Sizes(header.count, 16)))
    ensures ok ==> h.Built() && h.values[..|header.values|] == header.values
    ensures ok ==> (h.Valid() <==> Sendable(header))
    ensures ok && Sendable(header) ==> h.Book() == HeaderBook(header)
  {
    hide TablesHold, Room, Tellable, WordOf;
    h := new HuffmanTable();
    ok := h.Build(header.count);
    if ok {
      h.FillValues(header.values);
      if Sendable(header) {
        SameBook(Sizes(header.count, 16), header.values, h.values[..]);
      }
    }
  }

  /** At a header that cannot be sent, the reader finds another place or length for the last word. */
  method LastWordIsMissed() returns (k: int, n: nat)
    ensures IsWordOf(Sizes(FULL_COUNT, 16), 0xff00, Some((255, 9)))
    ensures (k, n) != (255, 9)
  {
    hide TablesHold, Room, Tellable, IsWordOf, Searched;
    FullTable();
    var h := new HuffmanTable();
    var ok := h.Build(FULL_COUNT);
    k, n := h.Search(0xff00);
    SearchMisses(FULL_COUNT, h.fast[..], h.size[..], h.maxcode[..], h.delta[..]);
  }

  lemma SameBook(sizes: seq<nat>, values: seq<byte>, more: seq<byte>)
    requires |sizes| == |values| && values <= more
    ensures BookOf(sizes, more) == BookOf(sizes, values)
  {
    hide WordOf;
  }
}
