/** Datatypes and 64-bit arithmetic shared by every component. */
module Prelude {

  datatype Option<+T> = None | Some(value: T)

  type byte = b: int | 0 <= b < 256

  const MAX_U64: nat := 0xFFFF_FFFF_FFFF_FFFF
  const TWO_63: int := 0x8000_0000_0000_0000
  const TWO_64: int := 0x1_0000_0000_0000_0000

  type int64 = n: int | -TWO_63 <= n < TWO_63

  /** `u64::saturating_add`. */
  function SaturatingAdd(a: nat, b: nat): nat {
    if a + b <= MAX_U64 then a + b else MAX_U64
  }

  /** The `i64` that `n` becomes when an operation wraps around. */
  function Wrap(n: int): (r: int64)
    ensures -TWO_63 <= n < TWO_63 ==> r == n
  {
    (n + TWO_63) % TWO_64 - TWO_63
  }

  /** An `i64` read as the `u64` with the same bits. */
  function Unsigned(n: int64): (r: nat)
    ensures r < TWO_64
  {
    if n < 0 then n + TWO_64 else n
  }

  /** Wrapping adds a multiple of 2^64. */
  lemma WrapCongruent(n: int) returns (k: int)
    ensures Wrap(n) == n + k * TWO_64
  {
    k := -((n + TWO_63) / TWO_64);
    assert n + TWO_63 == (n + TWO_63) / TWO_64 * TWO_64 + (n + TWO_63) % TWO_64;
  }

  /** Wrapping forgets multiples of 2^64. */
  lemma WrapShift(n: int, k: int)
    ensures Wrap(n + k * TWO_64) == Wrap(n)
  {
    var a, q := n + TWO_63, (n + TWO_63) / TWO_64;
    var r := a % TWO_64;
    assert a + k * TWO_64 == (q + k) * TWO_64 + r;
    ModUnique(a + k * TWO_64, TWO_64, q + k, r);
  }

  lemma ModUnique(a: int, m: int, q: int, r: int)
    requires 0 < m && a == q * m + r && 0 <= r < m
    ensures a % m == r && a / m == q
  {
    var q', r' := a / m, a % m;
    assert a == q' * m + r' && 0 <= r' < m;
    assert (q - q') * m == r' - r;
    MultipleBelow(q - q', m);
  }

  lemma MultipleBelow(k: int, m: int)
    requires 0 < m && -m < k * m < m
    ensures k == 0
  {
  }
}
