/**
  The C library's error numbers.
 */
module Errno {
  const ENOENT := 2
  const EAGAIN := 11
  const EFAULT := 14
  const ENODEV := 19
  const EINVAL := 22
  const ETIMEDOUT := 116
  const ENOTSUP := 134
  const ECANCELED := 140
}
