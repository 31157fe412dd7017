/** Integer widths and the size helpers `kb`, `mb`, `gb` of MemoryRegion.hpp. */
module Units {

  const U64_LIMIT: int := 0x1_0000_0000_0000_0000
  const S64_MIN: int := -0x8000_0000_0000_0000
  const S64_LIMIT: int := 0x8000_0000_0000_0000

  /** `uint64_t` (also used for `size_t`). */
  type U64 = x: int | 0 <= x < U64_LIMIT

  /** `int64_t`. */
  type S64 = x: int | S64_MIN <= x < S64_LIMIT

  /** Signed overflow is undefined behaviour, so callers must keep the product in range. */
  ghost predicate InS64(x: int) { S64_MIN <= x < S64_LIMIT }

  /** `kb(amount)`: the amount in bytes of `amount` KiB. */
  function Kb(amount: S64): (r: S64)
    requires InS64(1024 * amount)
    ensures r % 1024 == 0 && r / 1024 == amount
  {
    1024 * amount
  }

  /** `mb(amount)`: a MiB is 1024 KiB. */
  function Mb(amount: S64): (r: S64)
    requires InS64(1_048_576 * amount)
    ensures InS64(1024 * amount) && r == 1024 * Kb(amount)
  {
    1_048_576 * amount
  }

  /** `gb(amount)`: a GiB is 1024 MiB. */
  function Gb(amount: S64): (r: S64)
    requires InS64(1_073_741_824 * amount)
    ensures InS64(1_048_576 * amount) && r == 1024 * Mb(amount)
  {
    1_073_741_824 * amount
  }

  /** The default payload reserve of a region manager, `kb(64)`. */
  const DEFAULT_BLOCK_RESERVE: U64 := Kb(64)

  lemma DefaultReserveIs64KiB()
    ensures DEFAULT_BLOCK_RESERVE == 65_536 == Kb(64)
  {
  }
}
