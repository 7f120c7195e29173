/** The fixed-width Rust integers the library touches (`i32`, `i64`, `u64`),
    written out over unbounded `int`, together with the operations whose
    behaviour depends on the width: truncating division, checked
    multiplication and the two-complement `as` casts. */
module Numeric {
  import opened Wrappers

  const I32_MIN: int := -0x8000_0000
  const I32_MAX: int := 0x7FFF_FFFF
  const I64_MIN: int := -0x8000_0000_0000_0000
  const I64_MAX: int := 0x7FFF_FFFF_FFFF_FFFF
  /** 2^64, the modulus of `u64` and of every cast between `i64` and `u64`. */
  const U64_MODULUS: int := 0x1_0000_0000_0000_0000

  /** Nanoseconds per second, shared by chrono and `std::time`. */
  const NANOS_PER_SEC: int := 1_000_000_000

  type i32 = x: int | I32_MIN <= x <= I32_MAX
  type i64 = x: int | I64_MIN <= x <= I64_MAX
  type u64 = x: int | 0 <= x < U64_MODULUS

  predicate InI64(x: int) { I64_MIN <= x <= I64_MAX }

  /** Rust's `/` on signed integers: the quotient is rounded toward zero, so
      the remainder takes the sign of the dividend (Dafny's own `/` is
      Euclidean and differs for a negative dividend). */
  function TruncDiv(a: int, b: int): (q: int)
    requires b > 0
    ensures a >= 0 ==> 0 <= a - q * b < b
    ensures a < 0 ==> -b < a - q * b <= 0
    ensures a >= 0 ==> q >= 0
    ensures a < 0 ==> q <= 0
  {
    if a >= 0 then
      EuclideanSplit(a, b);
      a / b
    else
      EuclideanSplit(-a, b);
      -((-a) / b)
  }

  lemma EuclideanSplit(a: nat, b: int)
    requires b > 0
    ensures 0 <= a - (a / b) * b < b
    ensures a / b >= 0
  {
    assert a == b * (a / b) + a % b;
  }

  /** Two's-complement reduction of an integer to `i64`: the value of its
      low 64 bits, which is congruent to it modulo 2^64. */
  function Wrap(x: int): (r: i64)
    ensures (x - r) % U64_MODULUS == 0
  {
    (x - I64_MIN) % U64_MODULUS + I64_MIN
  }

  /** `a.checked_mul(b)` on `i64`, which is `overflowing_mul` (the wrapped
      product and whether it differs from the true one) with the overflow
      turned into `None`. It is `None` exactly when the product leaves the
      `i64` range. */
  function CheckedMul(a: i64, b: i64): (r: Option<i64>)
    ensures r.Some? <==> InI64(a * b)
    ensures r.Some? ==> r.value == a * b
  {
    var w := Wrap(a * b);
    if w == a * b then Some(w) else None
  }

  /** `x as i64` for a `u64`: values above `i64::MAX` wrap to negatives. */
  function U64AsI64(x: u64): (r: i64)
    ensures r == x || r == x - U64_MODULUS
  {
    if x <= I64_MAX then x else x - U64_MODULUS
  }

  /** `x as u64` for an `i64` (also the sign-extending `i32 as u64`):
      negatives wrap to values at or above 2^63. */
  function I64AsU64(x: i64): (r: u64)
    ensures r == x || r == x + U64_MODULUS
  {
    if x >= 0 then x else x + U64_MODULUS
  }

  /** The two casts are mutually inverse: the bit pattern survives the round trip. */
  lemma CastsInverse(x: u64, y: i64)
    ensures I64AsU64(U64AsI64(x)) == x
    ensures U64AsI64(I64AsU64(y)) == y
  {
  }
}
