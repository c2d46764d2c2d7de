/** Java's 32-bit `int` and the index arithmetic the search relies on. */
module JavaInt {

  /** A Java `int`: a signed two's-complement 32-bit integer. */
  newtype Int32 = x: int | -0x8000_0000 <= x < 0x8000_0000

  /** The largest length a Java array can have (its indices are `int`s). */
  const MaxArrayLength: int := 0x7FFF_FFFF

  /** Java `int` addition: the mathematical sum reduced into the 32-bit range. */
  function Add(x: Int32, y: Int32): (r: Int32)
    ensures (r as int - (x as int + y as int)) % 0x1_0000_0000 == 0
    ensures -0x8000_0000 <= x as int + y as int < 0x8000_0000 ==> r as int == x as int + y as int
  {
    var s := x as int + y as int;
    if s >= 0x8000_0000 then (s - 0x1_0000_0000) as Int32
    else if s < -0x8000_0000 then (s + 0x1_0000_0000) as Int32
    else s as Int32
  }

  /** Java `x >>> 1`: the bit pattern of `x` read as unsigned, halved. */
  function UnsignedShiftRight1(x: Int32): (r: Int32)
    ensures 0 <= r
    ensures 0 <= x ==> r as int == x as int / 2
    ensures x < 0 ==> r as int == (x as int + 0x1_0000_0000) / 2
  {
    ((x as int % 0x1_0000_0000) / 2) as Int32
  }

  /**
   * The probe index `(low + high) >>> 1` of a binary search. Even when the
   * 32-bit sum wraps to a negative number, the unsigned shift gives the
   * true midpoint, so it always lies within the closed range.
   */
  function Mid(low: int, high: int): (m: int)
    requires 0 <= low <= high < 0x8000_0000
    ensures low <= m <= high
    ensures m == (low + high) / 2
  {
    UnsignedShiftRight1(Add(low as Int32, high as Int32)) as int
  }
}
