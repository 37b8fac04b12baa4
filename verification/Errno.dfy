/** The kernel's error numbers the drivers return, negated. */
module Errno {
  const EIO := 5
  const ENOMEM := 12
  const EFAULT := 14
  const EBUSY := 16
  const EINVAL := 22
  const ETIMEDOUT := 110
  const ERESTARTSYS := 512
  const EIOCBQUEUED := 529
}
