/** Go's fixed-width machine integers as the downloader uses them. */
module Machine {

  const TWO_63: int := 0x8000_0000_0000_0000
  const TWO_64: int := 0x1_0000_0000_0000_0000

  /** Go's `int64` (and `int`, which is 64 bits wide on the platforms the tool targets). */
  newtype int64 = x: int | -TWO_63 <= x < TWO_63

  /** Go's `byte`. */
  newtype byte = x: int | 0 <= x < 256

  /** Go's `a + b` on int64: two's-complement addition that wraps around on overflow. */
  function AddWrap64(a: int64, b: int64): (r: int64)
    ensures (r as int - (a as int + b as int)) % TWO_64 == 0
    ensures -TWO_63 <= a as int + b as int < TWO_63 ==> r as int == a as int + b as int
  {
    var s := a as int + b as int;
    if s >= TWO_63 then (s - TWO_64) as int64
    else if s < -TWO_63 then (s + TWO_64) as int64
    else s as int64
  }
}
