/** Linux error numbers and status codes returned by the modelled drivers.
    Values are those of the generic Linux errno table (asm-generic/errno-base.h,
    asm-generic/errno.h) and include/linux/errno.h for ENOIOCTLCMD. */
module Errno {
  const ENOENT: int := 2
  const EIO: int := 5
  const ENXIO: int := 6
  const E2BIG: int := 7
  const ENOMEM: int := 12
  const EACCES: int := 13
  const EFAULT: int := 14
  const EBUSY: int := 16
  const ENODEV: int := 19
  const EINVAL: int := 22
  const ENOTTY: int := 25
  const ENOSPC: int := 28
  const ENOSYS: int := 38
  const ECONNRESET: int := 104
  const ESHUTDOWN: int := 108
  const ENOIOCTLCMD: int := 515

  /** The largest byte count the VFS passes to a driver's read or write:
      MAX_RW_COUNT = INT_MAX & PAGE_MASK with 4 KiB pages. */
  const MAX_RW_COUNT: nat := 0x7fff_f000
}
