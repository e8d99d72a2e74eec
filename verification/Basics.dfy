/** What several parts of the firmware share: bytes, 32-bit words and error numbers. */
module Basics {

  type byte = bv8

  /** The number of values of an unsigned 32-bit word. */
  const WORD: nat := 0x1_0000_0000

  const EIO: int := 5
  const EWOULDBLOCK: int := 11
  const EACCES: int := 13
  const EBUSY: int := 16
  const ENODEV: int := 19
  const EINVAL: int := 22
  const EMFILE: int := 24
  const EBADFD: int := 81
  const ENOSYS: int := 88
  const ENOTSUP: int := 134
}
