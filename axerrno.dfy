/** The error codes of the `axerrno` crate that the listen table returns, and
    `LinuxResult`, the `Result` type built on them. */
module AxErrno {
  datatype LinuxError = EADDRINUSE | EINVAL | EAGAIN | ECONNRESET

  datatype LinuxResult<+T> = Ok(value: T) | Err(error: LinuxError)
}
