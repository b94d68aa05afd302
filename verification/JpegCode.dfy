/** Bits in the order JPEG reads them, code words, and magnitudes of coefficients (ITU-T T.81, section F.1.2). */
module JpegCode {
  import opened Words
  import opened Wrappers
  import opened Bits

  /** Bits of the entropy-coded data, the first to be read first. */
  type BitString = seq<bool>

  // ----- numbers as bits, the most significant first

  function Msb(v: nat, n: nat): (bs: BitString)
    ensures |bs| == n
  {
    if n == 0 then [] else Msb(v / 2, n - 1) + [v % 2 == 1]
  }

  function Num(bs: BitString): (v: nat) {
    if bs == [] then 0 else 2 * Num(bs[..|bs| - 1]) + if bs[|bs| - 1] then 1 else 0
  }

  lemma {:induction false} NumMsb(v: nat, n: nat)
    requires v < Pow2(n)
    ensures Num(Msb(v, n)) == v
  {
    if n > 0 {
      NumMsb(v / 2, n - 1);
      assert Msb(v, n)[..n - 1] == Msb(v / 2, n - 1);
    }
  }

  lemma {:induction false} NumBound(bs: BitString)
    ensures Num(bs) < Pow2(|bs|)
  {
    if bs != [] { NumBound(bs[..|bs| - 1]); }
  }

  lemma {:induction false} MsbNum(bs: BitString)
    ensures Msb(Num(bs), |bs|) == bs
  {
    if bs != [] {
      MsbNum(bs[..|bs| - 1]);
      assert bs == bs[..|bs| - 1] + [bs[|bs| - 1]];
    }
  }

  lemma {:induction false} NumConcat(a: BitString, b: BitString)
    ensures Num(a + b) == Shl(Num(a), |b|) + Num(b)
  {
    if b == [] {
      assert a + b == a;
    } else {
      var n := |b| - 1;
      assert (a + b)[..|a + b| - 1] == a + b[..n];
      NumConcat(a, b[..n]);
    }
  }

  /** The first bit tells the upper half of the range from the lower. */
  lemma FirstBit(bs: BitString)
    requires bs != []
    ensures bs[0] <==> Num(bs) >= Pow2(|bs| - 1)
  {
    var n := |bs| - 1;
    assert bs == [bs[0]] + bs[1..];
    NumConcat([bs[0]], bs[1..]);
    NumBound(bs[1..]);
    ShlIsProduct(Num([bs[0]]), n);
    assert [bs[0]][..0] == [];
  }

  // ----- the unread bits; zeros are read past their end

  function Window(bs: BitString, n: nat): (w: BitString)
    ensures |w| == n && forall i :: 0 <= i < n ==> w[i] == (i < |bs| && bs[i])
  {
    seq(n, i requires 0 <= i < n => i < |bs| && bs[i])
  }

  function Dropped(bs: BitString, n: nat): BitString {
    if n <= |bs| then bs[n..] else []
  }

  lemma WindowOfSum(a: BitString, b: BitString)
    ensures Window(a + b, |a|) == a && Dropped(a + b, |a|) == b
  {
  }

  lemma WindowSplit(bs: BitString, m: nat, n: nat)
    requires m <= n
    ensures Window(bs, n)[..m] == Window(bs, m) && Window(bs, n)[m..] == Window(Dropped(bs, m), n - m)
  {
  }

  // ----- code words

  /** The writer's table: the word of each symbol of a byte, empty where a symbol has none. */
  type Code = c: seq<BitString> | |c| <= 256

  predicate Defines(c: Code, s: nat) {
    s < |c| && c[s] != []
  }

  /** The reader's words in their order, each with the symbol it stands for. */
  datatype Entry = Entry(word: BitString, symbol: byte)

  type Book = seq<Entry>

  /** Words of at most sixteen bits, none the beginning of another. */
  ghost predicate IsBook(b: Book) {
    && (forall k :: 0 <= k < |b| ==> 1 <= |b[k].word| <= 16)
    && forall j, k :: 0 <= j < |b| && 0 <= k < |b| && b[j].word <= b[k].word ==> j == k
  }

  /** The words the writer uses are those the reader has for the symbols. */
  ghost predicate Agree(c: Code, b: Book) {
    forall s: byte :: Defines(c, s) ==> Entry(c[s], s) in b
  }

  /** The first entry from number `k` on whose word begins `w`. */
  function Find(b: Book, w: BitString, k: nat): (r: Option<nat>)
    requires k <= |b|
    ensures r.Some? ==> k <= r.value < |b| && b[r.value].word <= w
    ensures r.None? ==> forall j :: k <= j < |b| ==> !(b[j].word <= w)
    decreases |b| - k
  {
    if k == |b| then None
    else if b[k].word <= w then Some(k)
    else Find(b, w, k + 1)
  }

  /** The entry whose word comes next. */
  function HuffDecode(b: Book, bs: BitString): (r: Option<Entry>)
    ensures r.Some? ==> r.value in b && r.value.word <= Window(bs, 16)
  {
    match Find(b, Window(bs, 16), 0)
    case None => None
    case Some(k) => Some(b[k])
  }

  lemma PrefixesComparable<T>(a: seq<T>, b: seq<T>, w: seq<T>)
    requires a <= w && b <= w && |a| <= |b|
    ensures a <= b
  {
    assert a == w[..|a|] && b == w[..|b|];
  }

  lemma OneWord(b: Book, w: BitString, j: nat, k: nat)
    requires IsBook(b) && j < |b| && k < |b| && b[j].word <= w && b[k].word <= w
    ensures j == k
  {
    if |b[j].word| <= |b[k].word| {
      PrefixesComparable(b[j].word, b[k].word, w);
    } else {
      PrefixesComparable(b[k].word, b[j].word, w);
    }
  }

  /** At most one word comes next. */
  lemma FindIs(b: Book, w: BitString, k: nat)
    requires IsBook(b) && k < |b|
    ensures Find(b, w, 0) == Some(k) <==> b[k].word <= w
  {
    if b[k].word <= w {
      OneWord(b, w, k, Find(b, w, 0).value);
    }
  }

  /** Decoding finds the entry whose word is a prefix of the bits, and nothing else. */
  lemma HuffDecodeIs(b: Book, bs: BitString, e: Entry)
    requires IsBook(b) && e in b
    ensures HuffDecode(b, bs) == Some(e) <==> e.word <= Window(bs, 16)
  {
    var k :| 0 <= k < |b| && b[k] == e;
    FindIs(b, Window(bs, 16), k);
  }

  /** A written word is read back. */
  lemma WordRead(b: Book, e: Entry, rest: BitString)
    requires IsBook(b) && e in b
    ensures HuffDecode(b, e.word + rest) == Some(e) && Dropped(e.word + rest, |e.word|) == rest
  {
    var n := |e.word|;
    WindowOfSum(e.word, rest);
    WindowSplit(e.word + rest, n, 16);
    assert e.word <= Window(e.word + rest, 16);
    HuffDecodeIs(b, e.word + rest, e);
  }

  // ----- magnitudes

  /** The number of bits of a magnitude, at least one. */
  function Size(v: nat): (n: nat)
    ensures n >= 1 && v < Pow2(n) && (v > 0 ==> v >= Pow2(n - 1))
  {
    if v < 2 then 1 else 1 + Size(v / 2)
  }

  lemma {:induction false} SizeAtMost(v: nat, n: nat)
    requires 1 <= n && v < Pow2(n)
    ensures Size(v) <= n
  {
    if v >= 2 {
      SizeAtMost(v / 2, n - 1);
    }
  }

  /** The additional bits of a nonzero coefficient: the value itself, or one less than it, modulo 2^n. */
  function Additional(v: int): (bits: nat)
    ensures bits < Pow2(Size(Abs(v)))
  {
    if v < 0 then v - 1 + Pow2(Size(-v)) else v
  }

  /** Values of `n` bits, the lower half of them negative. */
  function Extended(bs: BitString, n: nat): int {
    var k := Num(Window(bs, n));
    if n > 0 && Window(bs, n)[0] then k else k - (Pow2(n) - 1)
  }

  /** Extension undoes the coding of a magnitude. */
  lemma ExtendedAdditional(v: int, rest: BitString)
    requires v != 0
    ensures var n := Size(Abs(v));
            var bits := Msb(Additional(v), n);
            Extended(bits + rest, n) == v && Dropped(bits + rest, n) == rest
  {
    hide Msb, Num, Window, Dropped;
    var n := Size(Abs(v));
    var bits := Msb(Additional(v), n);
    WindowOfSum(bits, rest);
    NumMsb(Additional(v), n);
    FirstBit(bits);
    assert Pow2(n) == 2 * Pow2(n - 1);
  }

  /** The coding of a magnitude, with a loop over its bits and a mask of that many ones. */
  method CalcBits(v: int) returns (bits: nat, n: nat)
    ensures n == Size(Abs(v)) && bits == Additional(v)
  {
    var tmp: nat := if v < 0 then -v else v;
    var low := if v < 0 then v - 1 else v;
    n := 1;
    while tmp / 2 > 0
      invariant n >= 1 && Size(Abs(v)) == n - 1 + Size(tmp)
    {
      tmp := tmp / 2;
      n := n + 1;
    }
    bits := low % Pow2(n);
    Masked(low, Pow2(n));
  }

  lemma Masked(x: int, m: nat)
    requires 0 <= x + m && x < m
    ensures x % m == if x < 0 then x + m else x
  {
    var q: int := x / m;
    assert x == q * m + x % m;
    if q > 0 {
      MulMonotone(m, 1, q);
    } else if q < -1 {
      MulMonotone(m, q, -2);
    }
  }

  // ----- scan order

  type Place = z: nat | z < 64

  type PlaceRow = r: seq<Place> | |r| == 8 witness [0, 0, 0, 0, 0, 0, 0, 0]

  /** Where the coefficients stand in the matrix, counted row by row. */
  const DEZIGZAG: seq<PlaceRow> := [
    [0, 1, 8, 16, 9, 2, 3, 10],
    [17, 24, 32, 25, 18, 11, 4, 5],
    [12, 19, 26, 33, 40, 48, 41, 34],
    [27, 20, 13, 6, 7, 14, 21, 28],
    [35, 42, 49, 56, 57, 50, 43, 36],
    [29, 22, 15, 23, 30, 37, 44, 51],
    [58, 59, 52, 45, 38, 31, 39, 46],
    [53, 60, 61, 54, 47, 55, 62, 63]]

  /** A run past the end, in corrupt data, stays at the last place. */
  function Dezigzag(k: nat): Place
    requires k < 79
  {
    if k < 64 then DEZIGZAG[k / 8][k % 8] else 63
  }

  // ----- the scan as a walk through the matrix

  /** The next place of a walk along the diagonals: up and to the right on an even one, down and to the left on an odd
      one, and along the border from each to the next. */
  function Onward(z: nat): nat
    requires z < 63
  {
    var row, column := z / 8, z % 8;
    if (row + column) % 2 == 0 then
      if column == 7 then z + 8 else if row == 0 then z + 1 else z - 7
    else
      if row == 7 then z + 1 else if column == 0 then z + 8 else z + 7
  }

  predicate Walks(k: nat, n: nat)
    requires k + n < 64
    decreases n
  {
    n == 0 || (Dezigzag(k) < 63 && Dezigzag(k + 1) == Onward(Dezigzag(k)) && Walks(k + 1, n - 1))
  }

  lemma Walk0() ensures Walks(0, 5) {}
  lemma Walk5() ensures Walks(5, 5) {}
  lemma Walk10() ensures Walks(10, 5) {}
  lemma Walk15() ensures Walks(15, 5) {}
  lemma Walk20() ensures Walks(20, 5) {}
  lemma Walk25() ensures Walks(25, 5) {}
  lemma Walk30() ensures Walks(30, 5) {}
  lemma Walk35() ensures Walks(35, 5) {}
  lemma Walk40() ensures Walks(40, 5) {}
  lemma Walk45() ensures Walks(45, 5) {}
  lemma Walk50() ensures Walks(50, 5) {}
  lemma Walk55() ensures Walks(55, 5) {}
  lemma Walk60() ensures Walks(60, 3) {}

  lemma {:induction false} WalksAt(k: nat, n: nat, i: nat)
    requires k + n < 64 && k <= i < k + n && Walks(k, n)
    ensures Dezigzag(i) < 63 && Dezigzag(i + 1) == Onward(Dezigzag(i))
    decreases n
  {
    hide Dezigzag, Onward;
    if k < i {
      WalksAt(k + 1, n - 1, i);
    }
  }

  /** The scan is that walk, from the first place on. */
  lemma ScanWalks(k: nat)
    requires k < 63
    ensures Dezigzag(0) == 0 && Dezigzag(k) < 63 && Dezigzag(k + 1) == Onward(Dezigzag(k))
  {
    assert Dezigzag(0) == 0;
    hide Dezigzag, Onward, Walks;
    if k < 5 {
      Walk0();
      WalksAt(0, 5, k);
    } else if k < 10 {
      Walk5();
      WalksAt(5, 5, k);
    } else if k < 15 {
      Walk10();
      WalksAt(10, 5, k);
    } else if k < 20 {
      Walk15();
      WalksAt(15, 5, k);
    } else if k < 25 {
      Walk20();
      WalksAt(20, 5, k);
    } else if k < 30 {
      Walk25();
      WalksAt(25, 5, k);
    } else if k < 35 {
      Walk30();
      WalksAt(30, 5, k);
    } else if k < 40 {
      Walk35();
      WalksAt(35, 5, k);
    } else if k < 45 {
      Walk40();
      WalksAt(40, 5, k);
    } else if k < 50 {
      Walk45();
      WalksAt(45, 5, k);
    } else if k < 55 {
      Walk50();
      WalksAt(50, 5, k);
    } else if k < 60 {
      Walk55();
      WalksAt(55, 5, k);
    } else {
      Walk60();
      WalksAt(60, 3, k);
    }
  }

  /** What that says of frequencies: they never fall back by a diagonal, even diagonals are walked upwards and odd ones
      downwards, and the step to the next diagonal is along the border. */
  lemma ScanByDiagonals(k: nat)
    requires k < 63
    ensures var r, c, r', c' := Dezigzag(k) / 8, Dezigzag(k) % 8, Dezigzag(k + 1) / 8, Dezigzag(k + 1) % 8;
            && (r' + c' == r + c || r' + c' == r + c + 1)
            && (r' + c' == r + c ==> r' == if (r + c) % 2 == 0 then r - 1 else r + 1)
            && (r' + c' == r + c + 1 ==> (r == r' && (r == 0 || r == 7)) || (c == c' && (c == 0 || c == 7)))
    ensures Dezigzag(0) == 0 && Dezigzag(1) == 1
  {
    hide Dezigzag;
    ScanWalks(0);
    ScanWalks(k);
  }

  /** The number each place of the matrix has in the scan. */
  const ZIGZAG: seq<PlaceRow> := [
    [0, 1, 5, 6, 14, 15, 27, 28],
    [2, 4, 7, 13, 16, 26, 29, 42],
    [3, 8, 12, 17, 25, 30, 41, 43],
    [9, 11, 18, 24, 31, 40, 44, 53],
    [10, 19, 23, 32, 39, 45, 52, 54],
    [20, 22, 33, 38, 46, 51, 55, 60],
    [21, 34, 37, 47, 50, 56, 59, 61],
    [35, 36, 48, 49, 57, 58, 62, 63]]

  function Zigzag(z: nat): Place
    requires z < 64
  {
    ZIGZAG[z / 8][z % 8]
  }

  /** The first `n` entries of row `r` of either table lead back through the other. */
  predicate RowUndone(r: nat, n: nat)
    requires r < 8 && n <= 8
  {
    n == 0 || (Dezigzag(Zigzag(8 * r + n - 1)) == 8 * r + n - 1 && Zigzag(Dezigzag(8 * r + n - 1)) == 8 * r + n - 1
               && RowUndone(r, n - 1))
  }

  lemma Row0() ensures RowUndone(0, 8) {}
  lemma Row1() ensures RowUndone(1, 8) {}
  lemma Row2() ensures RowUndone(2, 8) {}
  lemma Row3() ensures RowUndone(3, 8) {}
  lemma Row4() ensures RowUndone(4, 8) {}
  lemma Row5() ensures RowUndone(5, 8) {}
  lemma Row6() ensures RowUndone(6, 8) {}
  lemma Row7() ensures RowUndone(7, 8) {}

  lemma {:induction false} RowUndoneAt(r: nat, n: nat, c: nat)
    requires r < 8 && c < n <= 8 && RowUndone(r, n)
    ensures Dezigzag(Zigzag(8 * r + c)) == 8 * r + c && Zigzag(Dezigzag(8 * r + c)) == 8 * r + c
  {
    hide Zigzag, Dezigzag;
    if c < n - 1 {
      RowUndoneAt(r, n - 1, c);
    }
  }

  /** The scan tables of writer and reader undo each other. */
  lemma ScanInverse(z: nat)
    requires z < 64
    ensures Dezigzag(Zigzag(z)) == z && Zigzag(Dezigzag(z)) == z
  {
    hide Zigzag, Dezigzag, RowUndone;
    Row0(); Row1(); Row2(); Row3();
    Row4(); Row5(); Row6(); Row7();
    RowUndoneAt(z / 8, 8, z % 8);
  }
}
