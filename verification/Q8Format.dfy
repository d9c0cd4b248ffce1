/** What the Q8_0 modules share. */
module Q8Format {
  /** Values in one quantized block. */
  const BLOCK_VALUES: nat := 32
}
