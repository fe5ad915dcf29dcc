/** Kernel error codes: the POSIX number above a common base, as a negative 32-bit integer. */
module Errno {
  const OK: int := 0
  const KERNEL_ERROR_UNKNOWN: int := -2147352576

  const KERNEL_ERROR_ENOENT: int := -2147352574
  const KERNEL_ERROR_EBADF: int := -2147352567
  const KERNEL_ERROR_EFAULT: int := -2147352562
  const KERNEL_ERROR_EINVAL: int := -2147352554

  function PosixToKernel(posix_errno: int): int {
    KERNEL_ERROR_UNKNOWN + posix_errno
  }

  function KernelToPosix(kernel_errno: int): int {
    if kernel_errno > KERNEL_ERROR_UNKNOWN && kernel_errno <= KERNEL_ERROR_UNKNOWN + 101 then
      kernel_errno - KERNEL_ERROR_UNKNOWN
    else 1062
  }

  /** The codes are those of ENOENT, EBADF, EFAULT and EINVAL above 0x80020000, and can be told from a count. */
  lemma KernelErrors()
    ensures KernelToPosix(KERNEL_ERROR_ENOENT) == 2 && KernelToPosix(KERNEL_ERROR_EBADF) == 9
    ensures KernelToPosix(KERNEL_ERROR_EFAULT) == 14 && KernelToPosix(KERNEL_ERROR_EINVAL) == 22
    ensures PosixToKernel(0) == 0x8002_0000 - 0x1_0000_0000 && OK == 0
    ensures forall e :: 1 <= e <= 101 ==> PosixToKernel(e) < 0 && KernelToPosix(PosixToKernel(e)) == e
  {
  }
}
