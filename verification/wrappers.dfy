/** The optional value used throughout the model, for Rust's `Option`. */
module Wrappers {
  datatype Option<+T> = None | Some(value: T)

  function Min(a: int, b: int): (m: int)
    ensures m <= a && m <= b && (m == a || m == b)
  {
    if a <= b then a else b
  }

  /** The range of Rust's `u64`: counters wrap around at 2^64. */
  const U64: nat := 0x1_0000_0000_0000_0000

  /** `wrapping_add(1)` (or `fetch_add(1)` plus one) on a `u64`: the successor modulo 2^64. */
  function WrappingInc(x: nat): (r: nat)
    requires x < U64
    ensures r < U64 && r == (x + 1) % U64
  {
    if x + 1 == U64 then 0 else x + 1
  }

  /** Advancing a counter always gives a different value. */
  lemma WrappingIncMoves(x: nat)
    requires x < U64
    ensures WrappingInc(x) != x
  {
  }

  /** After `j` increments from `k`, fewer than 2^64 of them, the counter is `k + j` modulo 2^64 and differs from `k` unless `j == 0`. */
  lemma WrappingIncAfter(k: nat, j: nat)
    requires k < U64 && j + 1 < U64
    ensures (k + j) % U64 < U64
    ensures WrappingInc((k + j) % U64) == (k + j + 1) % U64
    ensures (k + j + 1) % U64 != k
  {
  }
}
