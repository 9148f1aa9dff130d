/** Error numbers, with the values of macOS. */
module Errno {
  const EIO := 5
  const EINVAL := 22
  const EPIPE := 32
  const EDOM := 33
  const ETIMEDOUT := 60
}
