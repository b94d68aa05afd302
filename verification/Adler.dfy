/** The Adler-32 checksum, RFC 1950 section 8.2, and the writer's blocked computation of it. */
module Adler {
  import opened Bits

  const ADLER_BASE: nat := 65521
  const ADLER_BLOCK: nat := 5552

  /** One plus the sum of the bytes. */
  function Sum1(data: seq<byte>): nat {
    if |data| == 0 then 1 else Sum1(data[..|data| - 1]) + data[|data| - 1]
  }

  /** The sum of all the running values of `Sum1` after each byte. */
  function Sum2(data: seq<byte>): nat {
    if |data| == 0 then 0 else Sum2(data[..|data| - 1]) + Sum1(data)
  }

  function Bytes(data: seq<byte>): (b: seq<byte>)
    ensures |b| == 4
  {
    var s1, s2 := Sum1(data) % ADLER_BASE, Sum2(data) % ADLER_BASE;
    [s2 / 256, s2 % 256, s1 / 256, s1 % 256]
  }

  /** A checksum known from elsewhere: that of "Wikipedia". */
  lemma KnownChecksum()
    ensures Bytes([0x57, 0x69, 0x6b, 0x69, 0x70, 0x65, 0x64, 0x69, 0x61]) == [0x11, 0xe6, 0x03, 0x98]
  {
    hide Sum1, Sum2;
    var d: seq<byte> := [0x57, 0x69, 0x6b, 0x69, 0x70, 0x65, 0x64, 0x69, 0x61];
    assert d[..9] == d;
    SumsStart(d);
    SumsStep(d, 0);
    SumsStep(d, 1);
    SumsStep(d, 2);
    SumsStep(d, 3);
    SumsStep(d, 4);
    SumsStep(d, 5);
    SumsStep(d, 6);
    SumsStep(d, 7);
    SumsStep(d, 8);
    assert Sum1(d) == 920 && Sum2(d) == 4582;
  }

  /** The largest values a block of `i` bytes can reach from reduced sums; for a whole block they still
      fit 32 bits. */
  predicate Bounded(s1: nat, s2: nat, i: nat) {
    s1 <= 65520 + 255 * i && s2 <= 65520 + 65520 * i + 255 * (i * (i + 1) / 2)
  }

  lemma BlockFits(s1: nat, s2: nat, i: nat)
    requires Bounded(s1, s2, i) && i <= ADLER_BLOCK
    ensures s1 < TWO_TO_THE_32 && s2 < TWO_TO_THE_32
  {
    MulMonotone(i, i + 1, ADLER_BLOCK + 1);
    MulMonotone(ADLER_BLOCK + 1, i, ADLER_BLOCK);
  }

  lemma BoundedStart(s1: nat, s2: nat)
    requires s1 < ADLER_BASE && s2 < ADLER_BASE
    ensures Bounded(s1, s2, 0)
  {
  }

  lemma Triangle(i: nat)
    ensures (i + 1) * (i + 1 + 1) / 2 == i * (i + 1) / 2 + (i + 1)
  {
    assert (i + 1) * (i + 2) == i * (i + 1) + 2 * (i + 1);
  }

  lemma BoundedStep(s1: nat, s2: nat, i: nat, b: byte)
    requires Bounded(s1, s2, i)
    ensures Bounded(s1 + b, s2 + (s1 + b), i + 1)
  {
    Triangle(i);
  }

  lemma SumsStart(data: seq<byte>)
    ensures Sum1(data[..0]) == 1 && Sum2(data[..0]) == 0
  {
  }

  lemma SumsStep(data: seq<byte>, k: nat)
    requires k < |data|
    ensures Sum1(data[..k + 1]) == Sum1(data[..k]) + data[k]
    ensures Sum2(data[..k + 1]) == Sum2(data[..k]) + Sum1(data[..k + 1])
  {
    assert data[..k + 1][..k] == data[..k];
  }

  lemma ModStep(s: nat, t: nat, d: nat)
    requires s % ADLER_BASE == t % ADLER_BASE
    ensures (s + d) % ADLER_BASE == (t + d) % ADLER_BASE
  {
  }

  /** The checksum of the data, reducing the two sums once a block. The first block is the remainder of
      the length, and may be empty. */
  method Adler32(data: seq<byte>) returns (bytes: seq<byte>)
    ensures bytes == Bytes(data)
  {
    hide Sum1, Sum2;
    SumsStart(data);
    var s1: nat, s2: nat := 1, 0;
    var blocklen: nat := |data| % ADLER_BLOCK;
    var j: nat := 0;
    while j < |data|
      invariant j <= |data| && (|data| - j) % ADLER_BLOCK == blocklen % ADLER_BLOCK
      invariant blocklen <= ADLER_BLOCK && (j < |data| ==> blocklen <= |data| - j)
      invariant s1 < ADLER_BASE && s2 < ADLER_BASE
      invariant s1 == Sum1(data[..j]) % ADLER_BASE && s2 == Sum2(data[..j]) % ADLER_BASE
      decreases |data| - j, if blocklen == 0 then 1 else 0
    {
      s1, s2 := SumBlock(data, j, blocklen, s1, s2);
      s1 := s1 % ADLER_BASE;
      s2 := s2 % ADLER_BASE;
      j := j + blocklen;
      blocklen := ADLER_BLOCK;
    }
    assert data[..j] == data;
    bytes := [s2 / 256, s2 % 256, s1 / 256, s1 % 256];
  }

  /** Sums one block without reducing; neither sum leaves 32 bits. */
  method SumBlock(data: seq<byte>, j: nat, blocklen: nat, s1In: nat, s2In: nat) returns (s1: nat, s2: nat)
    requires j + blocklen <= |data| && blocklen <= ADLER_BLOCK && s1In < ADLER_BASE && s2In < ADLER_BASE
    requires s1In == Sum1(data[..j]) % ADLER_BASE && s2In == Sum2(data[..j]) % ADLER_BASE
    ensures s1 < TWO_TO_THE_32 && s2 < TWO_TO_THE_32
    ensures s1 % ADLER_BASE == Sum1(data[..j + blocklen]) % ADLER_BASE
    ensures s2 % ADLER_BASE == Sum2(data[..j + blocklen]) % ADLER_BASE
  {
    hide Bounded, Sum1, Sum2;
    s1, s2 := s1In, s2In;
    BoundedStart(s1, s2);
    for i := 0 to blocklen
      invariant Bounded(s1, s2, i)
      invariant s1 % ADLER_BASE == Sum1(data[..j + i]) % ADLER_BASE
      invariant s2 % ADLER_BASE == Sum2(data[..j + i]) % ADLER_BASE
    {
      SumsStep(data, j + i);
      BoundedStep(s1, s2, i, data[j + i]);
      BlockFits(s1 + data[j + i], s2 + (s1 + data[j + i]), i + 1);
      ModStep(s1, Sum1(data[..j + i]), data[j + i]);
      s1 := s1 + data[j + i];
      ModStep(s2, Sum2(data[..j + i]), s1);
      ModStep(s1, Sum1(data[..j + i + 1]), Sum2(data[..j + i]));
      s2 := s2 + s1;
      assert s1 < TWO_TO_THE_32 && s2 < TWO_TO_THE_32;
    }
    BlockFits(s1, s2, blocklen);
  }
}
