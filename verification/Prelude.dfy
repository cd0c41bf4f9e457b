/** Small value types and the Rust integer operators the other modules share. */
module Prelude {

  datatype Option<+T> = None | Some(value: T)

  /** Rust's `/` on signed integers: truncation toward zero. */
  function TruncDiv(a: int, b: int): int
    requires b > 0
  {
    if a >= 0 then a / b else -((-a) / b)
  }

  /** Rust's `%` on signed integers: the remainder takes the sign of the dividend. */
  function TruncRem(a: int, b: int): int
    requires b > 0
  {
    a - b * TruncDiv(a, b)
  }

  const TWO_63 := 0x8000_0000_0000_0000
  const TWO_64 := 0x1_0000_0000_0000_0000

  /** A `u64`. */
  type U64 = n: nat | n < TWO_64 witness 0

  /** Rust's `as i64` on a `u64`: wraps to negative values from 2^63 on. */
  function AsI64(n: U64): int { if n < TWO_63 then n else n - TWO_64 }

  /** Rust's `as u64` on an `i64`. */
  function AsU64(n: int): U64
    requires -TWO_63 <= n < TWO_63
  {
    if n >= 0 then n else n + TWO_64
  }
}
