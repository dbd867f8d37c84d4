/** Machine words of the runtime. */
module Words {
  /** Number of 64-bit values: addresses, hashes and counters are smaller. */
  const WORD: nat := 0x1_0000_0000_0000_0000
}
