/** The fixed-width integer types of the Win32 records, as ranges of `int`. */
module Ints {
  type byte = x: int | 0 <= x < 0x100
  type u16 = x: int | 0 <= x < 0x1_0000
  type u32 = x: int | 0 <= x < 0x1_0000_0000
  type i64 = x: int | -0x8000_0000_0000_0000 <= x < 0x8000_0000_0000_0000
  type u64 = x: int | 0 <= x < 0x1_0000_0000_0000_0000

  /** A string of code units holds no NUL. */
  predicate NulFree(s: seq<int>) {
    forall i :: 0 <= i < |s| ==> s[i] != 0
  }

  /**
   * Rust's `as u64` on an `i64`: two's-complement reinterpretation, i.e. the
   * one `u64` congruent to `x` modulo 2^64.
   */
  function I64AsU64(x: i64): (r: u64)
    ensures r % 0x1_0000_0000_0000_0000 == x % 0x1_0000_0000_0000_0000
  {
    if x >= 0 then x else x + 0x1_0000_0000_0000_0000
  }

  /** No other `u64` is congruent to `x`: the cast is the reinterpretation. */
  lemma I64AsU64Unique(x: i64, r: u64)
    requires r % 0x1_0000_0000_0000_0000 == x % 0x1_0000_0000_0000_0000
    ensures r == I64AsU64(x)
  {
    assert r % 0x1_0000_0000_0000_0000 == r;
    assert I64AsU64(x) % 0x1_0000_0000_0000_0000 == I64AsU64(x);
  }
}
