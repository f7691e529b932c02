/** The kernel's error codes (types.h), as functions return them. */
module Errno {
  const ENOMEM: int := -2
  const EINVAL: int := -3
  const EIO: int := -4
  const ENOENT: int := -5
  const ENOSPC: int := -7
}
