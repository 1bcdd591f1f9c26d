/** Machine integer ranges. */
module Machine {
  const I64_MAX: int := 0x7FFF_FFFF_FFFF_FFFF
  const U64_MAX: int := 0xFFFF_FFFF_FFFF_FFFF
  const USIZE_MAX: int := U64_MAX
  const U32_MAX: int := 0xFFFF_FFFF
  const U32_SPAN: int := U32_MAX + 1
  const I32_MAX: int := 0x7FFF_FFFF

  type i64 = x: int | -I64_MAX - 1 <= x <= I64_MAX
  type u64 = x: int | 0 <= x <= U64_MAX
  type u32 = x: int | 0 <= x <= U32_MAX
  type usize = x: int | 0 <= x <= USIZE_MAX

  /** Rust's `u64::saturating_add`. */
  function SaturatingAdd(a: u64, b: u64): (r: u64)
    ensures r <= a + b && (r < a + b ==> r == U64_MAX)
  {
    if a + b <= U64_MAX then a + b else U64_MAX
  }

  /** Rust's `saturating_sub` on unsigned numbers. */
  function SaturatingSub(a: nat, b: nat): (r: nat)
    ensures a <= r + b && (a < r + b ==> r == 0)
  {
    if a < b then 0 else a - b
  }

  /** Rust's `as u32`. */
  function AsU32(x: nat): (r: u32)
    ensures x <= U32_MAX ==> r == x
    ensures (x - r) % U32_SPAN == 0
  {
    x % U32_SPAN
  }

  /** Rust's `as i32`: truncation to 32 bits, read in two's complement. */
  function AsI32(x: nat): (r: int)
    ensures x <= I32_MAX ==> r == x
    ensures -I32_MAX - 1 <= r <= I32_MAX && (x - r) % U32_SPAN == 0
  {
    (x + I32_MAX + 1) % U32_SPAN - I32_MAX - 1
  }

  /** Rust's `as usize` on a signed number: sign extension. */
  function AsUsize(x: int): (r: int)
    ensures x >= 0 ==> r == x
    ensures -USIZE_MAX - 1 <= x <= USIZE_MAX ==> 0 <= r <= USIZE_MAX && (r - x) % (USIZE_MAX + 1) == 0
  {
    if x >= 0 then x else x + USIZE_MAX + 1
  }

  /** The numbers that a detour through `i32` leaves alone: small ones, and those that sign extension restores. */
  predicate FitsI32(x: usize) {
    x <= I32_MAX || x > USIZE_MAX - (I32_MAX + 1)
  }

  lemma CastRoundTrip(x: usize)
    ensures AsUsize(AsI32(x)) == x <==> FitsI32(x)
  {
    var cut := (x + I32_MAX + 1) % U32_SPAN;
    assert 0 <= cut < U32_SPAN;
    if x > USIZE_MAX - (I32_MAX + 1) {
      assert cut == x + I32_MAX + 1 - U32_SPAN * U32_SPAN;
    }
  }
}
