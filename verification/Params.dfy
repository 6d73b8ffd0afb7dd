/** Limits that several parts of the kernel share (kernel/param.h). */
module Params {
  /** The most blocks one file-system operation may write. */
  const MAXOPBLOCKS: nat := 10
  /** The most blocks a transaction can hold. */
  const LOGSIZE: nat := 3 * MAXOPBLOCKS
}
