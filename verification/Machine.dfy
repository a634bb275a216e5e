/** Pointers, pages and words. */
module Machine {
  type Ptr = nat
  const NULL: Ptr := 0
  const PAGE := 4096
  const WORD64 := 0x1_0000_0000_0000_0000
}
