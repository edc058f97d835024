/**
 * The SOCKS5 wire codec of the `netway` crate
 * (crates/netway/src/socks5/protocol.rs): RFC 1928 sections 3 to 6 and the
 * username/password sub-negotiation of RFC 1929 section 2.
 *
 * A decoder reads from the front of the bytes the peer sent and returns the
 * value together with the bytes it did not consume; running out of bytes is
 * the `UnexpectedEof` I/O error that `read_u8`/`read_exact` report.
 */
module NetwayProtocol {
  import opened Wrappers
  import opened Text
  import IoKinds
  import opened IpAddrs
  import Utf8
  import opened NetwayError
  import opened NetwayDst

  type Decoded<T> = Result<(T, Bytes), Error>

  const SOCKS_VERSION: Byte := 0x05
  const PASSWORD_VERSION: Byte := 0x01
  const DST_IPV4: Byte := 0x01
  const DST_DOMAIN: Byte := 0x03
  const DST_IPV6: Byte := 0x04

  // ---- primitive reads ----

  function ReadU8(s: Bytes): (r: Decoded<Byte>)
    ensures r.Ok? <==> |s| >= 1
    ensures r.Ok? ==> s == [r.value.0] + r.value.1
    ensures r.Err? ==> r.error == Io(IoKinds.UnexpectedEof)
  {
    if |s| == 0 then Err(Io(IoKinds.UnexpectedEof)) else Ok((s[0], s[1..]))
  }

  function ReadExact(s: Bytes, n: nat): (r: Decoded<Bytes>)
    ensures r.Ok? <==> |s| >= n
    ensures r.Ok? ==> |r.value.0| == n && s == r.value.0 + r.value.1
    ensures r.Err? ==> r.error == Io(IoKinds.UnexpectedEof)
  {
    if |s| < n then Err(Io(IoKinds.UnexpectedEof)) else Ok((s[..n], s[n..]))
  }

  /** `read_u16`: big-endian. */
  function ReadU16(s: Bytes): (r: Decoded<Uint16>)
    ensures r.Ok? <==> |s| >= 2
    ensures r.Ok? ==> s == U16Bytes(r.value.0) + r.value.1
    ensures r.Err? ==> r.error == Io(IoKinds.UnexpectedEof)
  {
    if |s| < 2 then Err(Io(IoKinds.UnexpectedEof))
    else
      var v: int := (s[0] as int) * 256 + (s[1] as int);
      Ok((v, s[2..]))
  }

  lemma ReadU8Of(b: Byte, rest: Bytes)
    ensures ReadU8([b] + rest) == Ok((b, rest))
  {
    assert ([b] + rest)[1..] == rest;
  }

  lemma ReadExactOf(t: Bytes, rest: Bytes)
    ensures ReadExact(t + rest, |t|) == Ok((t, rest))
  {
    assert (t + rest)[..|t|] == t && (t + rest)[|t|..] == rest;
  }

  lemma ReadU16Of(v: Uint16, rest: Bytes)
    ensures ReadU16(U16Bytes(v) + rest) == Ok((v, rest))
  {
    assert (U16Bytes(v) + rest)[2..] == rest;
  }

  // ---- Method (RFC 1928 section 3) ----

  datatype Method =
    | NoAuthenticationRequired
    | Gssapi
    | UsernameAndPassword
    | IanaAssigned(v: Byte)
    | NoAcceptableMethods

  /** Only 0x03..0x7f are IANA-assigned method numbers. */
  predicate WellFormedMethod(m: Method)
  {
    m.IanaAssigned? ==> 0x03 <= m.v <= 0x7f
  }

  /** `Method::id`. */
  function MethodId(m: Method): Byte
  {
    match m
    case NoAuthenticationRequired => 0x00
    case Gssapi => 0x01
    case UsernameAndPassword => 0x02
    case IanaAssigned(v) => v
    case NoAcceptableMethods => 0xff
  }

  /** `TryFrom<u8> for Method`: 0x80..0xfe (private methods) are refused. */
  function MethodTryFrom(b: Byte): (r: Result<Method, Error>)
    ensures r.Ok? <==> b <= 0x7f || b == 0xff
    ensures r.Ok? ==> MethodId(r.value) == b && WellFormedMethod(r.value)
    ensures r.Err? ==> r.error == UnknownMethod
  {
    if b == 0x00 then Ok(NoAuthenticationRequired)
    else if b == 0x01 then Ok(Gssapi)
    else if b == 0x02 then Ok(UsernameAndPassword)
    else if b == 0xff then Ok(Method.NoAcceptableMethods)
    else if 0x03 <= b <= 0x7f then Ok(IanaAssigned(b))
    else Err(UnknownMethod)
  }

  lemma MethodIdTryFrom(m: Method)
    requires WellFormedMethod(m)
    ensures MethodTryFrom(MethodId(m)) == Ok(m)
  {
  }

  // ---- Command (RFC 1928 section 4) ----

  datatype Command = Connect | Bind | Associate

  function CommandByte(c: Command): Byte
  {
    match c
    case Connect => 0x01
    case Bind => 0x02
    case Associate => 0x03
  }

  /** `TryFrom<u8> for Command`. */
  function CommandTryFrom(b: Byte): (r: Result<Command, Error>)
    ensures r.Ok? <==> 1 <= b <= 3
    ensures r.Ok? ==> CommandByte(r.value) == b
    ensures r.Err? ==> r.error == Error.CommandNotSupported
  {
    if b == 0x01 then Ok(Connect)
    else if b == 0x02 then Ok(Bind)
    else if b == 0x03 then Ok(Associate)
    else Err(Error.CommandNotSupported)
  }

  lemma CommandByteTryFrom(c: Command)
    ensures CommandTryFrom(CommandByte(c)) == Ok(c)
  {
  }

  // ---- Rep (RFC 1928 section 6) ----

  datatype Rep =
    | Succeeded
    | GeneralSocksServerFailure
    | ConnectionNotAllowedByRuleset
    | NetworkUnreachable
    | HostUnreachable
    | ConnectionRefused
    | TtlExpired
    | CommandNotSupported
    | AddressTypeNotSupported

  function RepByte(r: Rep): Byte
  {
    match r
    case Succeeded => 0x00
    case GeneralSocksServerFailure => 0x01
    case ConnectionNotAllowedByRuleset => 0x02
    case NetworkUnreachable => 0x03
    case HostUnreachable => 0x04
    case ConnectionRefused => 0x05
    case TtlExpired => 0x06
    case CommandNotSupported => 0x07
    case AddressTypeNotSupported => 0x08
  }

  /** `TryFrom<u8> for Rep`. */
  function RepTryFrom(v: Byte): (r: Result<Rep, Error>)
    ensures r.Ok? <==> v <= 8
    ensures r.Ok? ==> RepByte(r.value) == v
    ensures r.Err? ==> r.error == UnknownError
  {
    if v == 0 then Ok(Succeeded)
    else if v == 1 then Ok(Rep.GeneralSocksServerFailure)
    else if v == 2 then Ok(Rep.ConnectionNotAllowedByRuleset)
    else if v == 3 then Ok(Rep.NetworkUnreachable)
    else if v == 4 then Ok(Rep.HostUnreachable)
    else if v == 5 then Ok(Rep.ConnectionRefused)
    else if v == 6 then Ok(Rep.TtlExpired)
    else if v == 7 then Ok(Rep.CommandNotSupported)
    else if v == 8 then Ok(Rep.AddressTypeNotSupported)
    else Err(UnknownError)
  }

  lemma RepByteTryFrom(r: Rep)
    ensures RepTryFrom(RepByte(r)) == Ok(r)
  {
  }

  /** `Rep::from_err`: the reply code a server sends for an error. */
  function RepFromErr(e: Error): (r: Rep)
    ensures e.Io? ==> (r == Rep.ConnectionRefused <==> e.kind == IoKinds.ConnectionRefused)
    ensures e.Io? && e.kind != IoKinds.ConnectionRefused ==> r == Rep.AddressTypeNotSupported
  {
    match e
    case Succeed => Succeeded
    case Io(k) => if k == IoKinds.ConnectionRefused then Rep.ConnectionRefused else Rep.AddressTypeNotSupported
    case InvalidDstAddress(_) => Rep.AddressTypeNotSupported
    case ConnectionRefused => Rep.ConnectionRefused
    case NetworkUnreachable => Rep.NetworkUnreachable
    case HostUnreachable => Rep.HostUnreachable
    case CommandNotSupported => Rep.CommandNotSupported
    case TtlExpired => Rep.TtlExpired
    case _ => Rep.GeneralSocksServerFailure
  }

  /** `From<Rep> for Error`. */
  function ErrorOfRep(r: Rep): (e: Error)
  {
    match r
    case Succeeded => Succeed
    case GeneralSocksServerFailure => Error.GeneralSocksServerFailure
    case ConnectionNotAllowedByRuleset => Error.ConnectionNotAllowedByRuleset
    case NetworkUnreachable => Error.NetworkUnreachable
    case HostUnreachable => Error.HostUnreachable
    case ConnectionRefused => Error.ConnectionRefused
    case TtlExpired => Error.TtlExpired
    case CommandNotSupported => Error.CommandNotSupported
    case AddressTypeNotSupported => Error.AddressTypeNotSupported
  }

  /**
   * Turning a reply code into an error and back loses exactly two codes:
   * "not allowed by ruleset" and "address type not supported" come back as a
   * general failure.
   */
  lemma RepFromErrOfRep(r: Rep)
    ensures RepFromErr(ErrorOfRep(r))
         == if r == Rep.ConnectionNotAllowedByRuleset || r == Rep.AddressTypeNotSupported
            then Rep.GeneralSocksServerFailure else r
  {
  }

  // ---- Status (RFC 1929 section 2) ----

  datatype Status = StatusOk | Failure(code: Byte)

  /**
   * The byte that means success: 0x01 as this crate codes `Status`, or 0x00
   * as RFC 1929 section 2 says. Every other byte is a failure code.
   */
  datatype StatusCoding = AsWrittenCoding | Rfc1929Coding

  function SuccessByte(c: StatusCoding): Byte
  {
    if c == AsWrittenCoding then 0x01 else 0x00
  }

  /** `TryFrom<u8> for Status`: never fails; the success byte is Ok. */
  function StatusTryFrom(v: Byte, c: StatusCoding): (s: Status)
    ensures s.StatusOk? <==> v == SuccessByte(c)
    ensures s.Failure? ==> s.code == v
  {
    if v == SuccessByte(c) then StatusOk else Failure(v)
  }

  /** `Status::code`: Ok is written as the success byte. */
  function StatusCode(s: Status, c: StatusCoding): Byte
  {
    match s
    case StatusOk => SuccessByte(c)
    case Failure(code) => code
  }

  lemma StatusRoundTrip(s: Status, b: Byte, c: StatusCoding)
    ensures StatusTryFrom(StatusCode(s, c), c) == (if s == Failure(SuccessByte(c)) then StatusOk else s)
    ensures StatusCode(StatusTryFrom(b, c), c) == b
  {
  }

  // ---- field codecs ----

  function DecodeSocksVersion(s: Bytes): (r: Decoded<()>)
    ensures r.Ok? <==> |s| >= 1 && s[0] == SOCKS_VERSION
    ensures r.Ok? ==> r.value.1 == s[1..]
    ensures |s| >= 1 && s[0] != SOCKS_VERSION ==> r == Err(InvalidReplyVersion)
  {
    match ReadU8(s)
    case Err(e) => Err(e)
    case Ok((u, rest)) => if u == SOCKS_VERSION then Ok(((), rest)) else Err(InvalidReplyVersion)
  }

  function DecodePasswordVersion(s: Bytes): (r: Decoded<()>)
    ensures r.Ok? <==> |s| >= 1 && s[0] == PASSWORD_VERSION
    ensures r.Ok? ==> r.value.1 == s[1..]
    ensures |s| >= 1 && s[0] != PASSWORD_VERSION ==> r == Err(InvalidReplyVersion)
  {
    match ReadU8(s)
    case Err(e) => Err(e)
    case Ok((u, rest)) => if u == PASSWORD_VERSION then Ok(((), rest)) else Err(InvalidReplyVersion)
  }

  function DecodeRsv(s: Bytes): (r: Decoded<()>)
    ensures r.Ok? <==> |s| >= 1 && s[0] == 0x00
    ensures r.Ok? ==> r.value.1 == s[1..]
    ensures |s| >= 1 && s[0] != 0x00 ==> r == Err(InvalidReservedByte)
  {
    match ReadU8(s)
    case Err(e) => Err(e)
    case Ok((u, rest)) => if u != 0x00 then Err(InvalidReservedByte) else Ok(((), rest))
  }

  function DecodeMethod(s: Bytes): Decoded<Method>
  {
    match ReadU8(s)
    case Err(e) => Err(e)
    case Ok((u, rest)) =>
      match MethodTryFrom(u)
      case Err(e) => Err(e)
      case Ok(m) => Ok((m, rest))
  }

  function DecodeCommand(s: Bytes): Decoded<Command>
  {
    match ReadU8(s)
    case Err(e) => Err(e)
    case Ok((u, rest)) =>
      match CommandTryFrom(u)
      case Err(e) => Err(e)
      case Ok(c) => Ok((c, rest))
  }

  function DecodeRep(s: Bytes): Decoded<Rep>
  {
    match ReadU8(s)
    case Err(e) => Err(e)
    case Ok((u, rest)) =>
      match RepTryFrom(u)
      case Err(e) => Err(e)
      case Ok(r) => Ok((r, rest))
  }

  function DecodeStatus(s: Bytes, c: StatusCoding): Decoded<Status>
  {
    match ReadU8(s)
    case Err(e) => Err(e)
    case Ok((u, rest)) => Ok((StatusTryFrom(u, c), rest))
  }

  /** `read_to_fixed_string`: a length byte, that many bytes, which must be UTF-8. */
  function DecodeString(s: Bytes): (r: Decoded<Bytes>)
    ensures r.Ok? ==> Utf8.Valid(r.value.0) && s == [|r.value.0|] + r.value.0 + r.value.1
  {
    match ReadU8(s)
    case Err(e) => Err(e)
    case Ok((n, rest)) =>
      match ReadExact(rest, n)
      case Err(e) => Err(e)
      case Ok((body, rest2)) =>
        if Utf8.Valid(body) then Ok((body, rest2)) else Err(Io(IoKinds.InvalidData))
  }

  /** `ToSocket for String`: the length as `u8` (so modulo 256), then the bytes. */
  function EncodeString(t: Bytes): Bytes
  {
    [|t| % 256] + t
  }

  lemma StringRoundTrip(t: Bytes, rest: Bytes)
    requires |t| <= 255 && Utf8.Valid(t)
    ensures DecodeString(EncodeString(t) + rest) == Ok((t, rest))
  {
    var s := EncodeString(t) + rest;
    var n: Byte := |t|;
    assert s == [n] + (t + rest);
    ReadU8Of(n, t + rest);
    ReadExactOf(t, rest);
  }

  /** `Vec<Method>`: a count byte, then that many methods. */
  function DecodeMethodsN(s: Bytes, n: nat): (r: Decoded<seq<Method>>)
    ensures r.Ok? ==> |r.value.0| == n
    decreases n
  {
    if n == 0 then Ok(([], s))
    else match DecodeMethod(s)
      case Err(e) => Err(e)
      case Ok((m, rest)) =>
        match DecodeMethodsN(rest, n - 1)
        case Err(e) => Err(e)
        case Ok((ms, rest2)) => Ok(([m] + ms, rest2))
  }

  function DecodeMethods(s: Bytes): Decoded<seq<Method>>
  {
    match ReadU8(s)
    case Err(e) => Err(e)
    case Ok((n, rest)) => DecodeMethodsN(rest, n)
  }

  function MethodIds(ms: seq<Method>): (r: Bytes)
    ensures |r| == |ms|
    ensures forall i :: 0 <= i < |ms| ==> r[i] == MethodId(ms[i])
  {
    if ms == [] then [] else [MethodId(ms[0])] + MethodIds(ms[1..])
  }

  function EncodeMethods(ms: seq<Method>): Bytes
  {
    [|ms| % 256] + MethodIds(ms)
  }

  lemma {:induction false} MethodsNRoundTrip(ms: seq<Method>, rest: Bytes)
    requires forall i :: 0 <= i < |ms| ==> WellFormedMethod(ms[i])
    ensures DecodeMethodsN(MethodIds(ms) + rest, |ms|) == Ok((ms, rest))
  {
    if ms == [] {
      assert MethodIds(ms) + rest == rest;
    } else {
      var s := MethodIds(ms) + rest;
      MethodIdTryFrom(ms[0]);
      assert s == [MethodId(ms[0])] + (MethodIds(ms[1..]) + rest);
      ReadU8Of(MethodId(ms[0]), MethodIds(ms[1..]) + rest);
      assert DecodeMethod(s) == Ok((ms[0], MethodIds(ms[1..]) + rest));
      MethodsNRoundTrip(ms[1..], rest);
      assert |ms[1..]| == |ms| - 1;
      assert [ms[0]] + ms[1..] == ms;
    }
  }

  // ---- DstAddr (RFC 1928 section 5) ----

  function DecodeDstAddr(s: Bytes): (r: Decoded<DstAddr>)
    ensures |s| >= 1 && s[0] !in {DST_IPV4, DST_DOMAIN, DST_IPV6} ==> r == Err(Error.AddressTypeNotSupported)
  {
    match ReadU8(s)
    case Err(e) => Err(e)
    case Ok((tag, rest)) =>
      if tag == DST_IPV4 then
        match ReadExact(rest, 4)
        case Err(e) => Err(e)
        case Ok((ip, rest2)) =>
          match ReadU16(rest2)
          case Err(e) => Err(e)
          case Ok((port, rest3)) => Ok((Socket(SocketV4(Ipv4(ip[0], ip[1], ip[2], ip[3]), port)), rest3))
      else if tag == DST_IPV6 then
        match ReadExact(rest, 16)
        case Err(e) => Err(e)
        case Ok((ip, rest2)) =>
          match ReadU16(rest2)
          case Err(e) => Err(e)
          case Ok((port, rest3)) => Ok((Socket(SocketV6(Ipv6(ip), port)), rest3))
      else if tag == DST_DOMAIN then
        match DecodeString(rest)
        case Err(e) => Err(e)
        case Ok((name, rest2)) =>
          match ReadU16(rest2)
          case Err(e) => Err(e)
          case Ok((port, rest3)) => Ok((Domain(name, port), rest3))
      else Err(Error.AddressTypeNotSupported)
  }

  function EncodeDstAddr(d: DstAddr): Bytes
  {
    match d
    case Domain(name, p) => [DST_DOMAIN] + EncodeString(name) + U16Bytes(p)
    case Socket(SocketV4(ip, p)) => [DST_IPV4] + ip.Octets() + U16Bytes(p)
    case Socket(SocketV6(ip, p)) => [DST_IPV6] + ip.octets + U16Bytes(p)
  }

  /** A domain name fits the one-byte length and is a Rust `String`. */
  predicate EncodableDst(d: DstAddr)
  {
    d.Domain? ==> |d.domain| <= 255 && Utf8.Valid(d.domain)
  }

  lemma DstAddrRoundTrip(d: DstAddr, rest: Bytes)
    requires EncodableDst(d)
    ensures DecodeDstAddr(EncodeDstAddr(d) + rest) == Ok((d, rest))
  {
    match d
    case Domain(name, p) => DomainRoundTrip(name, p, rest);
    case Socket(SocketV4(ip, p)) => Ipv4RoundTrip(ip, p, rest);
    case Socket(SocketV6(ip, p)) => Ipv6RoundTrip(ip, p, rest);
  }

  lemma DomainRoundTrip(name: Bytes, p: Uint16, rest: Bytes)
    requires |name| <= 255 && Utf8.Valid(name)
    ensures DecodeDstAddr(EncodeDstAddr(Domain(name, p)) + rest) == Ok((Domain(name, p), rest))
  {
    var s := EncodeDstAddr(Domain(name, p)) + rest;
    assert s == [DST_DOMAIN] + (EncodeString(name) + (U16Bytes(p) + rest));
    ReadU8Of(DST_DOMAIN, EncodeString(name) + (U16Bytes(p) + rest));
    StringRoundTrip(name, U16Bytes(p) + rest);
    ReadU16Of(p, rest);
  }

  lemma Ipv4RoundTrip(ip: Ipv4, p: Uint16, rest: Bytes)
    ensures DecodeDstAddr(EncodeDstAddr(Socket(SocketV4(ip, p))) + rest) == Ok((Socket(SocketV4(ip, p)), rest))
  {
    var s := EncodeDstAddr(Socket(SocketV4(ip, p))) + rest;
    var body := ip.Octets() + (U16Bytes(p) + rest);
    assert s == [DST_IPV4] + body;
    ReadU8Of(DST_IPV4, body);
    ReadExactOf(ip.Octets(), U16Bytes(p) + rest);
    ReadU16Of(p, rest);
  }

  lemma Ipv6RoundTrip(ip: Ipv6, p: Uint16, rest: Bytes)
    ensures DecodeDstAddr(EncodeDstAddr(Socket(SocketV6(ip, p))) + rest) == Ok((Socket(SocketV6(ip, p)), rest))
  {
    var s := EncodeDstAddr(Socket(SocketV6(ip, p))) + rest;
    var body := ip.octets + (U16Bytes(p) + rest);
    assert s == [DST_IPV6] + body;
    ReadU8Of(DST_IPV6, body);
    ReadExactOf(ip.octets, U16Bytes(p) + rest);
    ReadU16Of(p, rest);
  }

  // ---- messages ----

  /** VER, NMETHODS, METHODS. */
  datatype MethodRequest = MethodRequest(methods: seq<Method>)
  /** VER, METHOD. */
  datatype MethodReply = MethodReply(selected: Method)
  /** VER (0x01), ULEN, UNAME, PLEN, PASSWD. */
  datatype PasswordRequest = PasswordRequest(username: Bytes, password: Bytes)
  /** VER (0x01), STATUS. */
  datatype PasswordReply = PasswordReply(status: Status)
  /** VER, CMD, RSV, ATYP, DST.ADDR, DST.PORT. */
  datatype DstRequest = DstRequest(command: Command, dst: DstAddr)
  /** VER, REP, RSV, ATYP, BND.ADDR, BND.PORT. */
  datatype DstReply = DstReply(rep: Rep, bnd: DstAddr)

  function EncodeMethodRequest(m: MethodRequest): (r: Bytes)
    ensures |r| == 2 + |m.methods|
  {
    [SOCKS_VERSION] + EncodeMethods(m.methods)
  }

  function DecodeMethodRequest(s: Bytes): Decoded<MethodRequest>
  {
    match DecodeSocksVersion(s)
    case Err(e) => Err(e)
    case Ok((_, rest)) =>
      match DecodeMethods(rest)
      case Err(e) => Err(e)
      case Ok((ms, rest2)) => Ok((MethodRequest(ms), rest2))
  }

  lemma MethodRequestRoundTrip(m: MethodRequest, rest: Bytes)
    requires |m.methods| <= 255
    requires forall i :: 0 <= i < |m.methods| ==> WellFormedMethod(m.methods[i])
    ensures DecodeMethodRequest(EncodeMethodRequest(m) + rest) == Ok((m, rest))
  {
    var s := EncodeMethodRequest(m) + rest;
    assert s[1..] == [|m.methods|] + (MethodIds(m.methods) + rest);
    assert s[2..] == MethodIds(m.methods) + rest;
    MethodsNRoundTrip(m.methods, rest);
  }

  function EncodeMethodReply(m: MethodReply): (r: Bytes)
    ensures |r| == 2
  {
    [SOCKS_VERSION, MethodId(m.selected)]
  }

  function DecodeMethodReply(s: Bytes): Decoded<MethodReply>
  {
    match DecodeSocksVersion(s)
    case Err(e) => Err(e)
    case Ok((_, rest)) =>
      match DecodeMethod(rest)
      case Err(e) => Err(e)
      case Ok((m, rest2)) => Ok((MethodReply(m), rest2))
  }

  lemma MethodReplyRoundTrip(m: MethodReply, rest: Bytes)
    requires WellFormedMethod(m.selected)
    ensures DecodeMethodReply(EncodeMethodReply(m) + rest) == Ok((m, rest))
  {
    MethodIdTryFrom(m.selected);
    assert (EncodeMethodReply(m) + rest)[1..][1..] == rest;
  }

  function EncodePasswordRequest(m: PasswordRequest): Bytes
  {
    [PASSWORD_VERSION] + EncodeString(m.username) + EncodeString(m.password)
  }

  function DecodePasswordRequest(s: Bytes): Decoded<PasswordRequest>
  {
    match DecodePasswordVersion(s)
    case Err(e) => Err(e)
    case Ok((_, rest)) =>
      match DecodeString(rest)
      case Err(e) => Err(e)
      case Ok((u, rest2)) =>
        match DecodeString(rest2)
        case Err(e) => Err(e)
        case Ok((p, rest3)) => Ok((PasswordRequest(u, p), rest3))
  }

  lemma PasswordRequestRoundTrip(m: PasswordRequest, rest: Bytes)
    requires |m.username| <= 255 && Utf8.Valid(m.username)
    requires |m.password| <= 255 && Utf8.Valid(m.password)
    ensures DecodePasswordRequest(EncodePasswordRequest(m) + rest) == Ok((m, rest))
  {
    var s := EncodePasswordRequest(m) + rest;
    assert s[1..] == EncodeString(m.username) + (EncodeString(m.password) + rest);
    StringRoundTrip(m.username, EncodeString(m.password) + rest);
    StringRoundTrip(m.password, rest);
  }

  function EncodePasswordReply(m: PasswordReply, c: StatusCoding): (r: Bytes)
    ensures |r| == 2
  {
    [PASSWORD_VERSION, StatusCode(m.status, c)]
  }

  function DecodePasswordReply(s: Bytes, c: StatusCoding): Decoded<PasswordReply>
  {
    match DecodePasswordVersion(s)
    case Err(e) => Err(e)
    case Ok((_, rest)) =>
      match DecodeStatus(rest, c)
      case Err(e) => Err(e)
      case Ok((st, rest2)) => Ok((PasswordReply(st), rest2))
  }

  /** `PasswordReply::from_socket` as a reader of the stream. */
  function PasswordReplyReader(c: StatusCoding): Bytes -> Decoded<PasswordReply>
  {
    s => DecodePasswordReply(s, c)
  }

  /** The reply round-trips except that a failure carrying the success byte reads back as success. */
  lemma PasswordReplyRoundTrip(m: PasswordReply, rest: Bytes, c: StatusCoding)
    ensures DecodePasswordReply(EncodePasswordReply(m, c) + rest, c)
         == Ok((if m.status == Failure(SuccessByte(c)) then PasswordReply(StatusOk) else m, rest))
  {
    StatusRoundTrip(m.status, 0, c);
    assert (EncodePasswordReply(m, c) + rest)[1..][1..] == rest;
  }

  function EncodeDstRequest(m: DstRequest): Bytes
  {
    [SOCKS_VERSION, CommandByte(m.command), 0x00] + EncodeDstAddr(m.dst)
  }

  function DecodeDstRequest(s: Bytes): Decoded<DstRequest>
  {
    match DecodeSocksVersion(s)
    case Err(e) => Err(e)
    case Ok((_, rest)) =>
      match DecodeCommand(rest)
      case Err(e) => Err(e)
      case Ok((c, rest2)) =>
        match DecodeRsv(rest2)
        case Err(e) => Err(e)
        case Ok((_, rest3)) =>
          match DecodeDstAddr(rest3)
          case Err(e) => Err(e)
          case Ok((d, rest4)) => Ok((DstRequest(c, d), rest4))
  }

  lemma DstRequestRoundTrip(m: DstRequest, rest: Bytes)
    requires EncodableDst(m.dst)
    ensures DecodeDstRequest(EncodeDstRequest(m) + rest) == Ok((m, rest))
  {
    var s := EncodeDstRequest(m) + rest;
    assert s[1..][1..][1..] == EncodeDstAddr(m.dst) + rest;
    DstAddrRoundTrip(m.dst, rest);
  }

  function EncodeDstReply(m: DstReply): Bytes
  {
    [SOCKS_VERSION, RepByte(m.rep), 0x00] + EncodeDstAddr(m.bnd)
  }

  function DecodeDstReply(s: Bytes): Decoded<DstReply>
  {
    match DecodeSocksVersion(s)
    case Err(e) => Err(e)
    case Ok((_, rest)) =>
      match DecodeRep(rest)
      case Err(e) => Err(e)
      case Ok((r, rest2)) =>
        match DecodeRsv(rest2)
        case Err(e) => Err(e)
        case Ok((_, rest3)) =>
          match DecodeDstAddr(rest3)
          case Err(e) => Err(e)
          case Ok((d, rest4)) => Ok((DstReply(r, d), rest4))
  }

  lemma DstReplyRoundTrip(m: DstReply, rest: Bytes)
    requires EncodableDst(m.bnd)
    ensures DecodeDstReply(EncodeDstReply(m) + rest) == Ok((m, rest))
  {
    var s := EncodeDstReply(m) + rest;
    assert s[1..][1..][1..] == EncodeDstAddr(m.bnd) + rest;
    RepByteTryFrom(m.rep);
    DstAddrRoundTrip(m.bnd, rest);
  }
}
