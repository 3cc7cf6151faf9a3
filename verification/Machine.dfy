/**
 What the parts of the kernel share: the 32-bit word, the page, where the kernel sees physical memory, the width of
 the screen, ASCII digits.
 */
module Machine {

  /** 2^32 */
  const WORD: nat := 0x1_0000_0000
  const PAGE_SIZE: nat := 4096
  const KVM_BASE: nat := 0xC000_0000

  /** The columns of a text screen. */
  const COLS: nat := 80

  predicate IsDigit(c: int) {
    '0' as int <= c <= '9' as int
  }
}
