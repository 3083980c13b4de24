/** The sizes of the 32-bit machine that the modules share. */
module Machine {
  const TWO_32: nat := 0x1_0000_0000
  const PAGE_SIZE: nat := 4096
  const ENTRIES: nat := 1024  // of a page directory or page table
}
