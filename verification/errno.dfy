/** The error numbers of the host that the program returns. */
module ErrorNumbers {
  const EPERM := 1
  const ENOMEM := 12
  const EINVAL := 22
  const EBADMSG := 74
  const EBADFD := 77
  const EADDRINUSE := 98
  const ECONNRESET := 104

  type Errno = e: int | e > 0 witness 1
}
