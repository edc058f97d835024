/** The error type of the `netway` crate (crates/netway/src/error.rs). */
module NetwayError {
  import opened Text
  import opened IoKinds

  datatype Error =
    | Succeed
    | Io(kind: IoErrorKind)
    | ParseError
    | InvalidDstAddress(reason: Bytes)
    | ProxyServerUnreachable
    | InvalidReplyVersion
    | NoAcceptableMethods
    | UnknownMethod
    | GeneralSocksServerFailure
    | ConnectionNotAllowedByRuleset
    | NetworkUnreachable
    | HostUnreachable
    | ConnectionRefused
    | TtlExpired
    | CommandNotSupported
    | AddressTypeNotSupported
    | UnknownError
    | InvalidReservedByte
    | UnknownAddressType
    | InvalidAuthValues(detail: Bytes)
    | PasswordAuthFailure(code: Byte)
    | AuthorizationRequired
    | ProxyDenied
}
