/**
 * The errors of the `proxy-socks` crate (proxy-socks/src/error.rs): either
 * an I/O error of the socket or a protocol error kind, which the crate
 * carries inside an I/O error of kind `Other`.
 */
module ProxySocksError {
  import opened IoKinds

  datatype Kind =
    | InvalidVersion
    | UnknownMethod
    | NoAcceptableMethods
    | GeneralSocksServerFailure
    | ConnectionNotAllowedByRuleset
    | TtlExpired
    | CommandNotSupported
    | AddressTypeNotSupported
    | UnknownRep
    | Unauthorized

  datatype SocksError = Io(io: IoErrorKind) | Socks(kind: Kind)
}
