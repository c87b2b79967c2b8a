/** The error numbers the drivers return; a driver returns them negated. */
module Errno {
  const EIO := 5
  const EWOULDBLOCK := 11
  const EACCES := 13
  const EFAULT := 14
  const ENODEV := 19
  const EINVAL := 22
  const EMFILE := 24
  const ENOTTY := 25
  const ENOSPC := 28
  const EBADFD := 81
  const ENOSYS := 88
  const ETIMEDOUT := 116
  const ENOTSUP := 134
}
