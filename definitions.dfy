/** Numeric constants the library falls back on when the sockets extension does not
    define them (src/Utilities/definitions.php). Only the values the core uses. */
module Definitions {
  /** Address families (IP versions). */
  const AF_INET: int := 2
  const AF_INET6: int := 10

  /** Protocol numbers. */
  const SOL_TCP: int := 6
  const SOL_UDP: int := 17
  const SOL_ICMP: int := 1

  /** Socket types. */
  const SOCK_STREAM: int := 1
  const SOCK_DGRAM: int := 2
  const SOCK_RAW: int := 3

  /** Blocking modes accepted by Socket.accept. */
  const SOCKET_BLOCK: int := 1
  const SOCKET_NONBLOCK: int := 0
}
