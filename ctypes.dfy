/**
 * Fixed-width C integers of the LP64 target the harness is built for:
 * `int` is 32 bits wide; `long`, `long long` and `time_t` are 64 bits wide.
 * Signed overflow is written out as two's-complement wrap-around, which is
 * what the overflow check in `timespec_add_safe` relies on.
 */
module CTypes {

  const INT32_MIN: int := -0x8000_0000
  const INT32_MAX: int := 0x7fff_ffff
  const INT64_MIN: int := -0x8000_0000_0000_0000
  const INT64_MAX: int := 0x7fff_ffff_ffff_ffff
  const TWO_64: int := 0x1_0000_0000_0000_0000
  const TWO_32: int := 0x1_0000_0000

  type Int32 = x: int | INT32_MIN <= x <= INT32_MAX
  type Int64 = x: int | INT64_MIN <= x <= INT64_MAX

  predicate InInt64(x: int) {
    INT64_MIN <= x <= INT64_MAX
  }

  predicate InInt32(x: int) {
    INT32_MIN <= x <= INT32_MAX
  }

  /** The 32-bit two's-complement value that `x` is converted to, as a
      `long` narrowed to an `int` is on the target: the value modulo 2^32. */
  function Wrap32(x: int): (r: Int32)
    ensures InInt32(x) ==> r == x
    ensures (x - r) % TWO_32 == 0
  {
    var m := x % TWO_32;
    if m <= INT32_MAX then m else m - TWO_32
  }

  /** The 64-bit two's-complement value that `x` wraps to. */
  function Wrap64(x: int): (r: Int64)
    ensures InInt64(x) ==> r == x
  {
    var m := x % TWO_64;
    if m <= INT64_MAX then m else m - TWO_64
  }

  /** Wrap-around depends only on the residue modulo 2^64. */
  lemma WrapCongruent(a: int, b: int)
    requires (a - b) % TWO_64 == 0
    ensures Wrap64(a) == Wrap64(b)
  {
    var q := (a - b) / TWO_64;
    assert a == b + q * TWO_64;
    assert a % TWO_64 == b % TWO_64;
  }

  /** A non-negative value below 2^64 wraps at most once. */
  lemma WrapOnce(x: int)
    requires 0 <= x < TWO_64
    ensures Wrap64(x) == if x <= INT64_MAX then x else x - TWO_64
  {
  }

  /** Wrapping an intermediate result and then adding gives the same value
      as adding first and wrapping once. */
  lemma WrapShift(x: int, d: int)
    ensures Wrap64(Wrap64(x) + d) == Wrap64(x + d)
  {
    WrapCongruent(Wrap64(x) + d, x + d);
  }
}
