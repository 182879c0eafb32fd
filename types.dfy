/** Machine types and the constants of the DHT22 driver's header. */
module Types {

  /** An unsigned 8-bit value (`uint8_t`). */
  type Byte = x: int | 0 <= x < 0x100

  /** An unsigned 32-bit value (`uint32_t`, and `unsigned long` on 32-bit targets). */
  type U32 = x: int | 0 <= x < 0x1_0000_0000

  /** A signed 16-bit value (`int16_t`). */
  type Int16 = x: int | -0x8000 <= x < 0x8000

  const TwoTo32: int := 0x1_0000_0000

  /** Minimum interval between two protocol runs, in milliseconds. */
  const MinReadInterval: U32 := 2000

  /** Five payload bytes of eight bits each. */
  const NumDataBits: nat := 5 * 8

  /** Two pulse widths (low, high) per data bit. */
  const NumCycles: nat := NumDataBits * 2

  const NumDataBytes: nat := 5

  /** The value `~0` that the two read operations return on failure. */
  const Sentinel: Int16 := -1

  /** The level one `digitalRead` reports. */
  datatype Level = Low | High {
    function Flip(): (l: Level)
      ensures l != this
    {
      if Low? then High else Low
    }
  }

  /** Two to the power `e`. */
  function Pow2(e: nat): (p: nat)
    ensures p >= 1
  {
    if e == 0 then 1 else 2 * Pow2(e - 1)
  }
}
