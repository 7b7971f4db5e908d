/** C#'s `int`: 32-bit two's complement, with unchecked (wrapping) arithmetic. */
module Int32 {

  const MIN: int := -0x8000_0000
  const MAX: int := 0x7fff_ffff

  predicate IsInt32(x: int)
  {
    MIN <= x <= MAX
  }

  /**
   * The value an unchecked `int` operation yields for the exact result `x`: `x` shifted by a multiple of
   * 2^32 into the 32-bit range. A sum or difference of two `int`s is off by at most one such shift.
   */
  function Wrap(x: int): (r: int)
    ensures IsInt32(r)
    ensures IsInt32(x) ==> r == x
    ensures MAX < x <= 0xffff_ffff ==> r == x - 0x1_0000_0000 && r < 0
    ensures -0x1_0000_0000 <= x < MIN ==> r == x + 0x1_0000_0000 && r >= 0
  {
    if MIN <= x <= MAX then x
    else if MAX < x <= 0xffff_ffff then x - 0x1_0000_0000
    else if -0x1_0000_0000 <= x < MIN then x + 0x1_0000_0000
    else (x - MIN) % 0x1_0000_0000 + MIN
  }

  /** The wrapped value differs from the exact one by a multiple of 2^32, and is the only `int` that does. */
  lemma WrapCongruent(x: int, y: int)
    ensures (Wrap(x) - x) % 0x1_0000_0000 == 0
    ensures IsInt32(y) && (y - x) % 0x1_0000_0000 == 0 ==> y == Wrap(x)
  {
  }
}
