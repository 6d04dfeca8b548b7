/** Bytes and pages. */
module PageSize {
  type byte = x: int | 0 <= x < 256

  const PAGE_SIZE: nat := 4096
}
