/** The library's five exception classes, as values. Each exception class only adds a
    class-specific mask to its code and supplies a default message; the mask and the
    message are not modelled, the operating-system error code is. */
module Errors {
  datatype Error =
    | InvalidAddress          // InvalidAddressException: the resolved host is no IP literal
    | InvalidPort             // InvalidPortException: port outside [1, 65535]
    | InvalidInetAddress      // InvalidInetAddressException: a socket has no usable address
    | InvalidProtocol         // InvalidProtocolException: unknown protocol number
    | InvalidSocket(code: int) // InvalidSocketException: a socket_* call failed (its errno), or
                              // a bad socket type / resource (code 0, the default)

  /** The value of a call that either returns or throws. */
  datatype Result<+T> = Ok(value: T) | Err(error: Error)

  /** The outcome of a call whose return value carries nothing beyond "it did not throw". */
  datatype Outcome = Pass | Fail(error: Error)

  /** A PHP parameter that may be null. */
  datatype Option<+T> = None | Some(value: T)
}
