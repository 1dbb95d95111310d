/**
 * Go's fixed-width integers as bounded mathematical integers. Where the Go
 * operators wrap around or truncate, that is written out here.
 */
module Ints {

  const U32_LIMIT: int := 0x1_0000_0000
  const U64_LIMIT: int := 0x1_0000_0000_0000_0000
  const I64_MIN: int := -0x8000_0000_0000_0000
  const I64_MAX: int := 0x7FFF_FFFF_FFFF_FFFF

  type u16 = n: int | 0 <= n < 0x1_0000
  type u32 = n: int | 0 <= n < 0x1_0000_0000
  type u64 = n: int | 0 <= n < 0x1_0000_0000_0000_0000
  type i64 = n: int | -0x8000_0000_0000_0000 <= n < 0x8000_0000_0000_0000

  /** uint32 addition: the sum modulo 2^32. */
  function AddU32(a: u32, b: u32): (r: u32)
    ensures a + b < U32_LIMIT ==> r == a + b
    ensures a + b >= U32_LIMIT ==> r == a + b - U32_LIMIT
  {
    (a + b) % U32_LIMIT
  }

  /** uint32 multiplication: the product modulo 2^32. */
  function MulU32(a: u32, b: u32): (r: u32)
    ensures a * b < U32_LIMIT ==> r == a * b
    ensures r == (a * b) % U32_LIMIT
  {
    var p := a * b;
    ModOfSmall(p, U32_LIMIT);
    p % U32_LIMIT
  }

  /** uint64 addition: the sum modulo 2^64. */
  function AddU64(a: u64, b: u64): (r: u64)
    ensures a + b < U64_LIMIT ==> r == a + b
    ensures a + b >= U64_LIMIT ==> r == a + b - U64_LIMIT
  {
    ModOfSmall(a + b, U64_LIMIT);
    (a + b) % U64_LIMIT
  }

  /** uint64 `v << 16`: the bits shifted past bit 63 are lost. */
  function Shl16U64(v: u64): (r: u64)
    ensures v < 0x1_0000_0000_0000 ==> r == v * 0x1_0000
    ensures r == (v % 0x1_0000_0000_0000) * 0x1_0000
  {
    ModOfSmall(v * 0x1_0000, U64_LIMIT);
    (v * 0x1_0000) % U64_LIMIT
  }

  lemma ModOfSmall(p: int, m: int)
    requires m > 0
    ensures 0 <= p < m ==> p % m == p
  {
  }

  /** int64 arithmetic: a mathematical result brought back into [-2^63, 2^63). */
  function WrapI64(v: int): (r: i64)
    ensures I64_MIN <= v <= I64_MAX ==> r == v
    ensures (v - r) % U64_LIMIT == 0
  {
    var m := v % U64_LIMIT;
    if m <= I64_MAX then m else m - U64_LIMIT
  }

  function Abs(a: int): nat
  {
    if a < 0 then -a else a
  }

  /**
   * Go's integer division, which truncates toward zero: the magnitude is the
   * quotient of the magnitudes, the sign is the product of the signs (Dafny's
   * `/` is Euclidean and rounds a negative quotient down instead).
   */
  function Quo(a: int, b: int): (q: int)
    requires b != 0
    ensures Abs(q) == Abs(a) / Abs(b)
    ensures q != 0 ==> (q < 0 <==> (a < 0) != (b < 0))
  {
    var m: int := NatDiv(Abs(a), Abs(b));
    if (a < 0) == (b < 0) then m else -m
  }

  /** Euclidean division of naturals, which is natural. */
  function NatDiv(n: nat, d: nat): (m: nat)
    requires d > 0
    ensures m == n / d
  {
    n / d
  }

  /** Multiplication by a natural number is monotone. */
  lemma MulMonotone(a: int, b: int, c: nat)
    requires a <= b
    ensures a * c <= b * c
  {
  }
}
