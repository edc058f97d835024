/** The `std::io::ErrorKind` values the proxy produces or inspects. */
module IoKinds {
  datatype IoErrorKind =
    | NotFound | PermissionDenied | ConnectionRefused | ConnectionReset
    | HostUnreachable | NetworkUnreachable | ConnectionAborted | NotConnected
    | AddrInUse | AddrNotAvailable | BrokenPipe | InvalidInput | InvalidData
    | TimedOut | WriteZero | Unsupported | UnexpectedEof | Other
}
