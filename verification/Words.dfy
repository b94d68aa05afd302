/** Signed integers of 16 and 32 bits, as C keeps them. */
module Words {
  const INT_MAX: nat := 0x7FFF_FFFF

  predicate IsInt(x: int) {
    -0x8000_0000 <= x < 0x8000_0000
  }

  /** What a 32-bit signed register keeps of `x`. */
  function Wrap(x: int): (r: int)
    ensures IsInt(r) && (IsInt(x) ==> r == x) && exists k :: r == x + k * 0x1_0000_0000
  {
    var m := x % 0x1_0000_0000;
    assert m == x + -(x / 0x1_0000_0000) * 0x1_0000_0000;
    if m < 0x8000_0000 then m
    else
      assert m - 0x1_0000_0000 == x + (-(x / 0x1_0000_0000) - 1) * 0x1_0000_0000;
      m - 0x1_0000_0000
  }

  /** What a signed 16-bit field keeps of `x`. */
  function Short(x: int): (r: int)
    ensures -0x8000 <= x < 0x8000 ==> r == x
    ensures 0x8000 <= x < 0x10000 ==> r == x - 0x10000
  {
    if x % 0x10000 < 0x8000 then x % 0x10000 else x % 0x10000 - 0x10000
  }

  function Abs(x: int): nat {
    if x < 0 then -x else x
  }
}
