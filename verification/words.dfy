/**
 Fixed-width machine integers of the Rust source, modelled over Dafny's
 unbounded `int`. Counters are `usize` (64 bits on the targets the library
 supports), gauges are stored as `u64` bit patterns, and samples carry `i64`.
 Every wrap-around and every truncating `as` cast is written out here.
 */
module Words {

  const TWO_63: int := 0x8000_0000_0000_0000
  const TWO_64: int := 0x1_0000_0000_0000_0000

  /** `u64`, and `usize` on a 64-bit target. */
  type U64 = x: int | 0 <= x < TWO_64

  /** `i64`. */
  type I64 = x: int | -TWO_63 <= x < TWO_63

  /** Addition as `AtomicUsize::fetch_add` performs it: wraps modulo 2^64. */
  function WrappingAdd(a: U64, b: U64): (r: U64)
    ensures a + b < TWO_64 ==> r == a + b
    ensures a + b >= TWO_64 ==> r == a + b - TWO_64
  {
    (a + b) % TWO_64
  }

  /** `x as u64` (or `as usize`) from a wider unsigned integer: keeps the low 64 bits. */
  function TruncateToU64(x: nat): (r: U64)
    ensures x < TWO_64 ==> r == x
    ensures (x - r) % TWO_64 == 0
  {
    x % TWO_64
  }

  /** `v as i64` for a `u64`/`usize`: the same bits read in two's complement. */
  function ReinterpretAsI64(v: U64): (r: I64)
    ensures 0 <= r <==> v < TWO_63
    ensures r == v || r == v - TWO_64
  {
    if v < TWO_63 then v else v - TWO_64
  }
}
