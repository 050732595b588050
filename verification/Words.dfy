/** The machine words that the kernel's C types stand for. */
module Words {
  /** uint64_t, unsigned long, size_t */
  type u64 = x: int | 0 <= x < 0x1_0000_0000_0000_0000
}
