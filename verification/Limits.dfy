/** Sizes that the kernel's headers fix. */
module Limits {
  /** Process slots. */
  const MAXPROC: nat := 10
  /** Entries of the file table. */
  const MAXFILE: nat := 256
}
