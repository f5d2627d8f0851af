/** Go's int64, with its bounds written out. */
module Int64 {

  const MAX: int := 0x7FFF_FFFF_FFFF_FFFF
  const MIN: int := -0x8000_0000_0000_0000

  type int64 = x: int | MIN <= x <= MAX

  /** The nearest value of [0, MAX]. */
  function Clamp(x: int): (r: int64)
    ensures 0 <= r
  {
    if x < 0 then 0 else if x > MAX then MAX else x
  }
}
