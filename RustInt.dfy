/** Rust's fixed-width integers, and the casts and operators on them that the
    wall-clock code relies on, written out over Dafny's unbounded `int`. */
module RustInt {

  const U8_LIMIT: int := 0x100
  const U32_LIMIT: int := 0x1_0000_0000

  type u8 = x: int | 0 <= x < 0x100
  type u32 = x: int | 0 <= x < 0x1_0000_0000
  type i64 = x: int | -0x8000_0000_0000_0000 <= x < 0x8000_0000_0000_0000

  /** `x as u8` on an unsigned value: keeps the low eight bits. */
  function AsU8(x: nat): (r: u8)
    ensures x < U8_LIMIT ==> r == x
    ensures (x - r) % U8_LIMIT == 0
  {
    x % U8_LIMIT
  }

  /** `x as u32` from a signed value, and the result of u32 arithmetic that
      wraps (two's complement: keeps the low 32 bits). */
  function WrapU32(x: int): (r: u32)
    ensures 0 <= x < U32_LIMIT ==> r == x
    ensures (x - r) % U32_LIMIT == 0
  {
    x % U32_LIMIT
  }

  /** Rust's `/` on signed integers with a positive divisor: the quotient is
      truncated toward zero (Dafny's `/` is Euclidean). */
  function TruncDiv(a: int, b: int): (q: int)
    requires b > 0
    ensures 0 <= a ==> 0 <= a - q * b < b
    ensures a < 0 ==> -b < a - q * b <= 0
  {
    if a >= 0 then a / b else -((-a) / b)
  }

  /** Rust's `%` on signed integers with a positive divisor: the remainder
      takes the sign of the dividend. */
  function TruncRem(a: int, b: int): (r: int)
    requires b > 0
    ensures a == TruncDiv(a, b) * b + r
    ensures 0 <= a ==> 0 <= r < b
    ensures a < 0 ==> -b < r <= 0
  {
    a - TruncDiv(a, b) * b
  }
}
