/** Signed 32-bit integers, as used by the reference counter of a pooled service. */
module Int32 {

  const Modulus: int := 0x1_0000_0000

  newtype int32 = x: int | -0x8000_0000 <= x < 0x8000_0000

  /** True when `x` fits in 32 signed bits. */
  predicate InRange(x: int) {
    -0x8000_0000 <= x < 0x8000_0000
  }

  /** Two's complement addition, as performed by `atomic.AddInt32`: the sum wraps around
      instead of overflowing. */
  function AddInt32(a: int32, b: int32): (r: int32)
    ensures (r as int - (a as int + b as int)) % Modulus == 0
    ensures InRange(a as int + b as int) ==> r as int == a as int + b as int
  {
    var s := a as int + b as int;
    if s >= 0x8000_0000 then (s - Modulus) as int32
    else if s < -0x8000_0000 then (s + Modulus) as int32
    else s as int32
  }
}
