/**
 * The SOCKS5 messages of the `proxy-socks` crate (proxy-socks/src/types.rs):
 * RFC 1928 sections 3 to 6 and RFC 1929 section 2.
 *
 * Unlike the `netway` codec, the readers here check nothing but what the
 * byte layout forces: versions, commands and reply codes are kept as raw
 * bytes and judged later by `is_valid`; an unknown address type is read as
 * a missing target rather than an error. A reader takes its fields from the
 * front of the bytes the peer sent and returns the bytes it left.
 */
module ProxySocksTypes {
  import opened Wrappers
  import opened Text
  import IoKinds
  import opened IpAddrs
  import Utf8
  import opened FixedRead
  import opened ProxyAddr
  import E = ProxySocksError

  type Decoded<T> = Result<(T, Bytes), IoKinds.IoErrorKind>

  const SOCKS_VERSION: Byte := 0x05
  const AUTH_VERSION: Byte := 0x01
  const AUTH_SUCCEED: Byte := 0x00
  const DST_IPV4: Byte := 0x01
  const DST_DOMAIN: Byte := 0x03
  const DST_IPV6: Byte := 0x04

  // ---- socket reads ----

  /** `read_u8`. */
  function ReadU8(s: Bytes): (r: Decoded<Byte>)
    ensures r.Ok? <==> |s| >= 1
    ensures r.Ok? ==> s == [r.value.0] + r.value.1
    ensures r.Err? ==> r.error == IoKinds.UnexpectedEof
  {
    if |s| == 0 then Err(IoKinds.UnexpectedEof) else Ok((s[0], s[1..]))
  }

  /** `read_exact` into a buffer of `n` bytes. */
  function ReadExact(s: Bytes, n: nat): (r: Decoded<Bytes>)
    ensures r.Ok? <==> |s| >= n
    ensures r.Ok? ==> |r.value.0| == n && s == r.value.0 + r.value.1
    ensures r.Err? ==> r.error == IoKinds.UnexpectedEof
  {
    if |s| < n then Err(IoKinds.UnexpectedEof) else Ok((s[..n], s[n..]))
  }

  /** `read_u16`: big-endian. */
  function ReadU16(s: Bytes): (r: Decoded<Uint16>)
    ensures r.Ok? <==> |s| >= 2
    ensures r.Ok? ==> s == U16Bytes(r.value.0) + r.value.1
    ensures r.Err? ==> r.error == IoKinds.UnexpectedEof
  {
    if |s| < 2 then Err(IoKinds.UnexpectedEof)
    else
      var v: int := (s[0] as int) * 256 + (s[1] as int);
      Ok((v, s[2..]))
  }

  /** `read_to_fixed_bytes` into an empty vector, over bytes that are all there. */
  function ReadFixedBytes(s: Bytes): (r: Decoded<Bytes>)
    ensures r.Ok? <==> SplitFrame(s).Some?
    ensures r.Ok? ==> s == Frame(r.value.0) + r.value.1
    ensures r.Err? ==> r.error == IoKinds.UnexpectedEof
  {
    match SplitFrame(s)
    case None => Err(IoKinds.UnexpectedEof)
    case Some((p, rest)) => Ok((p, rest))
  }

  /** `read_to_fixed_string` into an empty string: the payload must be UTF-8. */
  function ReadFixedString(s: Bytes): (r: Decoded<Bytes>)
    ensures r.Ok? ==> Utf8.Valid(r.value.0) && s == Frame(r.value.0) + r.value.1
    ensures SplitFrame(s).None? ==> r == Err(IoKinds.UnexpectedEof)
    ensures SplitFrame(s).Some? && !Utf8.Valid(SplitFrame(s).value.0) ==> r == Err(IoKinds.InvalidData)
  {
    match SplitFrame(s)
    case None => Err(IoKinds.UnexpectedEof)
    case Some((p, rest)) => if Utf8.Valid(p) then Ok((p, rest)) else Err(IoKinds.InvalidData)
  }

  lemma ReadU8Of(b: Byte, rest: Bytes)
    ensures ReadU8([b] + rest) == Ok((b, rest))
  {
    assert ([b] + rest)[1..] == rest;
  }

  lemma ReadExactOf(t: Bytes, rest: Bytes)
    ensures ReadExact(t + rest, |t|) == Ok((t, rest))
  {
    assert (t + rest)[..|t|] == t && (t + rest)[|t|..] == rest;
  }

  lemma ReadU16Of(v: Uint16, rest: Bytes)
    ensures ReadU16(U16Bytes(v) + rest) == Ok((v, rest))
  {
    assert (U16Bytes(v) + rest)[2..] == rest;
  }

  lemma ReadFixedStringOf(t: Bytes, rest: Bytes)
    requires |t| <= 255 && Utf8.Valid(t)
    ensures ReadFixedString(Frame(t) + rest) == Ok((t, rest))
  {
    SplitFrameOf(t, rest);
  }

  // ---- Method (RFC 1928 section 3) ----

  datatype Method =
    | NoAuthenticationRequired
    | Gssapi
    | UsernameAndPassword
    | IanaAssigned(code: Byte)
    | Reserved(code: Byte)
    | NoAcceptableMethods

  /** The byte ranges the RFC gives each kind of method. */
  predicate WellFormedMethod(m: Method)
  {
    (m.IanaAssigned? ==> 0x03 <= m.code <= 0x7f) && (m.Reserved? ==> 0x80 <= m.code <= 0xfe)
  }

  /** `Method::as_u8`. */
  function MethodAsU8(m: Method): Byte
  {
    match m
    case NoAuthenticationRequired => 0x00
    case Gssapi => 0x01
    case UsernameAndPassword => 0x02
    case IanaAssigned(x) => x
    case Reserved(x) => x
    case NoAcceptableMethods => 0xff
  }

  /** `Method::from_u8`: every byte names a method, and its own byte comes back. */
  function MethodFromU8(code: Byte): (r: Option<Method>)
    ensures r.Some? && MethodAsU8(r.value) == code && WellFormedMethod(r.value)
  {
    if code == 0x00 then Some(NoAuthenticationRequired)
    else if code == 0x01 then Some(Gssapi)
    else if code == 0x02 then Some(Method.UsernameAndPassword)
    else if code == 0xff then Some(NoAcceptableMethods)
    else if 0x03 <= code <= 0x7f then Some(IanaAssigned(code))
    else Some(Reserved(code))
  }

  lemma MethodFromAsU8(m: Method)
    requires WellFormedMethod(m)
    ensures MethodFromU8(MethodAsU8(m)) == Some(m)
  {
  }

  /** The bytes of a list of methods, in order. */
  function MethodCodes(ms: seq<Method>): (r: Bytes)
    ensures |r| == |ms| && forall i :: 0 <= i < |ms| ==> r[i] == MethodAsU8(ms[i])
  {
    seq(|ms|, i requires 0 <= i < |ms| => MethodAsU8(ms[i]))
  }

  // ---- Command, Rep, DstAtyp (RFC 1928 sections 4 to 6) ----

  datatype Command = Connect | Bind | Associate

  function CommandAsU8(c: Command): Byte
  {
    match c
    case Connect => 0x01
    case Bind => 0x02
    case Associate => 0x03
  }

  /** `Command::from_u8`. */
  function CommandFromU8(code: Byte): (r: Option<Command>)
    ensures r.Some? <==> 1 <= code <= 3
    ensures r.Some? ==> CommandAsU8(r.value) == code
  {
    if code == 0x01 then Some(Connect)
    else if code == 0x02 then Some(Bind)
    else if code == 0x03 then Some(Associate)
    else None
  }

  lemma CommandFromAsU8(c: Command)
    ensures CommandFromU8(CommandAsU8(c)) == Some(c)
  {
  }

  datatype Rep =
    | Succeeded
    | GeneralSocksServerFailure
    | ConnectionNotAllowedByRuleset
    | NetworkUnreachable
    | HostUnreachable
    | ConnectionRefused
    | TtlExpired
    | CommandNotSupported
    | AddressTypeNotSupported

  /** `Default for Rep`. */
  const DEFAULT_REP: Rep := Succeeded

  function RepAsU8(r: Rep): Byte
  {
    match r
    case Succeeded => 0x00
    case GeneralSocksServerFailure => 0x01
    case ConnectionNotAllowedByRuleset => 0x02
    case NetworkUnreachable => 0x03
    case HostUnreachable => 0x04
    case ConnectionRefused => 0x05
    case TtlExpired => 0x06
    case CommandNotSupported => 0x07
    case AddressTypeNotSupported => 0x08
  }

  /** `Rep::from_u8`. */
  function RepFromU8(code: Byte): (r: Option<Rep>)
    ensures r.Some? <==> code <= 8
    ensures r.Some? ==> RepAsU8(r.value) == code
  {
    if code == 0 then Some(Succeeded)
    else if code == 1 then Some(GeneralSocksServerFailure)
    else if code == 2 then Some(ConnectionNotAllowedByRuleset)
    else if code == 3 then Some(NetworkUnreachable)
    else if code == 4 then Some(HostUnreachable)
    else if code == 5 then Some(ConnectionRefused)
    else if code == 6 then Some(TtlExpired)
    else if code == 7 then Some(CommandNotSupported)
    else if code == 8 then Some(AddressTypeNotSupported)
    else None
  }

  lemma RepFromAsU8(r: Rep)
    ensures RepFromU8(RepAsU8(r)) == Some(r)
  {
  }

  datatype DstAtyp = IPv4 | DomainName | IPv6

  function DstAtypAsU8(a: DstAtyp): Byte
  {
    match a
    case IPv4 => DST_IPV4
    case DomainName => DST_DOMAIN
    case IPv6 => DST_IPV6
  }

  /** `DstAtyp::from_u8`. */
  function DstAtypFromU8(code: Byte): (r: Option<DstAtyp>)
    ensures r.Some? <==> code == 1 || code == 3 || code == 4
    ensures r.Some? ==> DstAtypAsU8(r.value) == code
  {
    if code == DST_IPV4 then Some(IPv4)
    else if code == DST_DOMAIN then Some(DomainName)
    else if code == DST_IPV6 then Some(IPv6)
    else None
  }

  lemma DstAtypFromAsU8(a: DstAtyp)
    ensures DstAtypFromU8(DstAtypAsU8(a)) == Some(a)
  {
  }

  // ---- CandidateMethods: VER, NMETHODS, METHODS ----

  /** Whether `b` occurs in `s` (`iter().any(|m| *m == b)`). */
  function Occurs(s: Bytes, b: Byte): (r: bool)
    ensures r <==> exists i :: 0 <= i < |s| && s[i] == b
  {
    if s == [] then false
    else if s[0] == b then true
    else
      var r := Occurs(s[1..], b);
      assert forall i :: 1 <= i < |s| ==> s[i] == s[1..][i - 1];
      r
  }

  /** The wire form of a method offer: the version, then the methods as a fixed field. */
  function EncodeCandidate(version: Byte, methods: Bytes): Bytes
  {
    [version] + Frame(methods)
  }

  /** `CandidateMethods::read`: the version byte, then `read_to_fixed_bytes`. */
  function DecodeCandidate(s: Bytes): Decoded<(Byte, Bytes)>
  {
    match ReadU8(s)
    case Err(e) => Err(e)
    case Ok((version, rest)) =>
      match ReadFixedBytes(rest)
      case Err(e) => Err(e)
      case Ok((methods, rest2)) => Ok(((version, methods), rest2))
  }

  lemma CandidateRoundTrip(version: Byte, methods: Bytes, rest: Bytes)
    requires |methods| <= 255
    ensures DecodeCandidate(EncodeCandidate(version, methods) + rest) == Ok(((version, methods), rest))
  {
    assert EncodeCandidate(version, methods) + rest == [version] + (Frame(methods) + rest);
    ReadU8Of(version, Frame(methods) + rest);
    SplitFrameOf(methods, rest);
  }

  class CandidateMethods {
    var version: Byte
    var methods: Bytes

    /** `CandidateMethods::empty`. */
    constructor Empty()
      ensures version == SOCKS_VERSION && methods == []
    {
      version := SOCKS_VERSION;
      methods := [];
    }

    /** `CandidateMethods::new`: the version of RFC 1928 and the byte of each method, in order. */
    constructor (ms: seq<Method>)
      ensures version == SOCKS_VERSION && methods == MethodCodes(ms)
    {
      version := SOCKS_VERSION;
      methods := MethodCodes(ms);
    }

    /** `CandidateMethods::add`: appends the method's byte and nothing else. */
    method Add(m: Method)
      modifies this`methods
      ensures methods == old(methods) + [MethodAsU8(m)]
    {
      methods := methods + [MethodAsU8(m)];
    }

    /** `CandidateMethods::has`: some stored byte is the method's byte. */
    function Has(m: Method): (r: bool)
      reads this
      ensures r <==> exists i :: 0 <= i < |methods| && methods[i] == MethodAsU8(m)
    {
      Occurs(methods, MethodAsU8(m))
    }

    /**
     * `CandidateMethods::is_valid`: the version must be 5; the check of each
     * method can never fail, because every byte names a method.
     */
    method IsValid() returns (r: Result<(), E.SocksError>)
      ensures r.Ok? <==> version == SOCKS_VERSION
      ensures r.Err? ==> r.error == E.Socks(E.InvalidVersion)
    {
      if version != SOCKS_VERSION {
        return Err(E.Socks(E.InvalidVersion));
      }
      for i := 0 to |methods| {
        if MethodFromU8(methods[i]).None? {
          // `from_u8` is total: the `UnknownMethod` error is never returned.
          assert false;
        }
      }
      return Ok(());
    }

    /** `CandidateMethods::write`. */
    function Write(): Bytes
      reads this
    {
      EncodeCandidate(version, methods)
    }

    /** `CandidateMethods::read`. */
    static method Read(s: Bytes) returns (r: Result<(CandidateMethods, Bytes), IoKinds.IoErrorKind>)
      ensures DecodeCandidate(s).Err? ==> r == Err(DecodeCandidate(s).error)
      ensures DecodeCandidate(s).Ok? ==>
                r.Ok? && fresh(r.value.0) && r.value.1 == DecodeCandidate(s).value.1
                && (r.value.0.version, r.value.0.methods) == DecodeCandidate(s).value.0
    {
      var d := DecodeCandidate(s);
      if d.Err? {
        return Err(d.error);
      }
      var c := new CandidateMethods.Empty();
      c.version, c.methods := d.value.0.0, d.value.0.1;
      return Ok((c, d.value.1));
    }
  }

  // ---- Selection: VER, METHOD ----

  datatype Selection = Selection(version: Byte, code: Byte)

  /** `Selection::method`. */
  function SelectionMethod(s: Selection): Option<Method>
  {
    MethodFromU8(s.code)
  }

  /** `Selection::is_valid`: only the version can be wrong. */
  function SelectionIsValid(s: Selection): (r: Result<(), E.SocksError>)
    ensures r.Ok? <==> s.version == SOCKS_VERSION
    ensures r.Err? ==> r.error == E.Socks(E.InvalidVersion)
  {
    if s.version != SOCKS_VERSION then Err(E.Socks(E.InvalidVersion))
    else if SelectionMethod(s).None? then Err(E.Socks(E.UnknownMethod))
    else Ok(())
  }

  /** `Selection::new`: a valid selection of exactly that method. */
  function SelectionNew(m: Method): (s: Selection)
    ensures SelectionIsValid(s).Ok?
    ensures WellFormedMethod(m) ==> SelectionMethod(s) == Some(m)
  {
    Selection(SOCKS_VERSION, MethodAsU8(m))
  }

  function EncodeSelection(s: Selection): (r: Bytes)
    ensures |r| == 2
  {
    [s.version, s.code]
  }

  function DecodeSelection(s: Bytes): Decoded<Selection>
  {
    match ReadU8(s)
    case Err(e) => Err(e)
    case Ok((version, rest)) =>
      match ReadU8(rest)
      case Err(e) => Err(e)
      case Ok((code, rest2)) => Ok((Selection(version, code), rest2))
  }

  lemma SelectionRoundTrip(s: Selection, rest: Bytes)
    ensures DecodeSelection(EncodeSelection(s) + rest) == Ok((s, rest))
  {
    assert (EncodeSelection(s) + rest)[1..][1..] == rest;
  }

  // ---- UsernameAndPassword: VER, ULEN, UNAME, PLEN, PASSWD ----

  datatype UsernameAndPassword = UserPass(version: Byte, username: Bytes, password: Bytes)

  /** `UsernameAndPassword::is_valid`: the sub-negotiation version 0x01 of RFC 1929. */
  function UserPassIsValid(m: UsernameAndPassword): (r: Result<(), E.SocksError>)
    ensures r.Ok? <==> m.version == AUTH_VERSION
    ensures r.Err? ==> r.error == E.Socks(E.InvalidVersion)
  {
    if m.version == AUTH_VERSION then Ok(()) else Err(E.Socks(E.InvalidVersion))
  }

  /**
   * `UsernameAndPassword::new` stamps the SOCKS version 0x05 rather than
   * 0x01, so a request built by it never passes `is_valid`.
   */
  function UserPassNewAsWritten(username: Bytes, password: Bytes): (m: UsernameAndPassword)
    ensures m.username == username && m.password == password
    ensures UserPassIsValid(m) == Err(E.Socks(E.InvalidVersion))
  {
    UserPass(SOCKS_VERSION, username, password)
  }

  /** `UsernameAndPassword::new` as RFC 1929 and `is_valid` intend: a valid request carrying both credentials. */
  function UserPassNew(username: Bytes, password: Bytes): (m: UsernameAndPassword)
    ensures m.username == username && m.password == password
    ensures UserPassIsValid(m) == Ok(())
  {
    UserPass(AUTH_VERSION, username, password)
  }

  function EncodeUserPass(m: UsernameAndPassword): Bytes
  {
    [m.version] + Frame(m.username) + Frame(m.password)
  }

  function DecodeUserPass(s: Bytes): Decoded<UsernameAndPassword>
  {
    match ReadU8(s)
    case Err(e) => Err(e)
    case Ok((version, rest)) =>
      match ReadFixedString(rest)
      case Err(e) => Err(e)
      case Ok((u, rest2)) =>
        match ReadFixedString(rest2)
        case Err(e) => Err(e)
        case Ok((p, rest3)) => Ok((UserPass(version, u, p), rest3))
  }

  lemma UserPassRoundTrip(m: UsernameAndPassword, rest: Bytes)
    requires |m.username| <= 255 && Utf8.Valid(m.username)
    requires |m.password| <= 255 && Utf8.Valid(m.password)
    ensures DecodeUserPass(EncodeUserPass(m) + rest) == Ok((m, rest))
  {
    var tail := Frame(m.username) + (Frame(m.password) + rest);
    assert EncodeUserPass(m) + rest == [m.version] + tail;
    ReadU8Of(m.version, tail);
    ReadFixedStringOf(m.username, Frame(m.password) + rest);
    ReadFixedStringOf(m.password, rest);
  }

  // ---- Status: VER, STATUS ----

  datatype Status = Status(version: Byte, status: Byte)

  /** `Status::new`: a valid status message carrying `status`. */
  function StatusNew(status: Byte): (s: Status)
    ensures StatusIsValid(s).Ok? && s.status == status
  {
    Status(AUTH_VERSION, status)
  }

  /** `Status::is_valid`. */
  function StatusIsValid(s: Status): (r: Result<(), E.SocksError>)
    ensures r.Ok? <==> s.version == AUTH_VERSION
    ensures r.Err? ==> r.error == E.Socks(E.InvalidVersion)
  {
    if s.version == AUTH_VERSION then Ok(()) else Err(E.Socks(E.InvalidVersion))
  }

  /** `Status::is_succeed`: RFC 1929's 0x00 is success. */
  function IsSucceed(s: Status): (ok: bool)
    ensures ok <==> s.status == AUTH_SUCCEED
  {
    s.status == AUTH_SUCCEED
  }

  function EncodeStatus(s: Status): (r: Bytes)
    ensures |r| == 2
  {
    [s.version, s.status]
  }

  function DecodeStatus(s: Bytes): Decoded<Status>
  {
    match ReadU8(s)
    case Err(e) => Err(e)
    case Ok((version, rest)) =>
      match ReadU8(rest)
      case Err(e) => Err(e)
      case Ok((status, rest2)) => Ok((Status(version, status), rest2))
  }

  lemma StatusRoundTrip(s: Status, rest: Bytes)
    ensures DecodeStatus(EncodeStatus(s) + rest) == Ok((s, rest))
  {
    assert (EncodeStatus(s) + rest)[1..][1..] == rest;
  }

  // ---- addresses (RFC 1928 section 5) ----

  function AtypOf(t: TargetAddr): Byte
  {
    match t
    case SocketAddr(SocketV4(_, _)) => DST_IPV4
    case SocketAddr(SocketV6(_, _)) => DST_IPV6
    case Domain(_, _) => DST_DOMAIN
  }

  /** DST.ADDR and DST.PORT as `write` sends them after the ATYP byte. */
  function EncodeTargetBody(t: TargetAddr): Bytes
  {
    match t
    case SocketAddr(SocketV4(ip, p)) => ip.Octets() + U16Bytes(p)
    case SocketAddr(SocketV6(ip, p)) => ip.octets + U16Bytes(p)
    case Domain(d, p) => Frame(d) + U16Bytes(p)
  }

  /** What `read` makes of the bytes after ATYP: an unknown type reads nothing and gives no target. */
  function DecodeTargetBody(atyp: Byte, s: Bytes): (r: Decoded<Option<TargetAddr>>)
    ensures atyp !in {DST_IPV4, DST_DOMAIN, DST_IPV6} ==> r == Ok((None, s))
    ensures r.Ok? && r.value.0.Some? ==> AtypOf(r.value.0.value) == atyp
  {
    if atyp == DST_IPV4 then
      match ReadExact(s, 4)
      case Err(e) => Err(e)
      case Ok((ip, rest)) =>
        match ReadU16(rest)
        case Err(e) => Err(e)
        case Ok((port, rest2)) => Ok((Some(TargetAddr.SocketAddr(SocketV4(Ipv4(ip[0], ip[1], ip[2], ip[3]), port))), rest2))
    else if atyp == DST_IPV6 then
      match ReadExact(s, 16)
      case Err(e) => Err(e)
      case Ok((ip, rest)) =>
        match ReadU16(rest)
        case Err(e) => Err(e)
        case Ok((port, rest2)) => Ok((Some(TargetAddr.SocketAddr(SocketV6(Ipv6(ip), port))), rest2))
    else if atyp == DST_DOMAIN then
      match ReadFixedString(s)
      case Err(e) => Err(e)
      case Ok((d, rest)) =>
        match ReadU16(rest)
        case Err(e) => Err(e)
        case Ok((port, rest2)) => Ok((Some(Domain(d, port)), rest2))
    else Ok((None, s))
  }

  /** A domain fits the one-byte length and is a Rust `String`. */
  predicate EncodableTarget(t: TargetAddr)
  {
    t.Domain? ==> |t.domain| <= 255 && Utf8.Valid(t.domain)
  }

  lemma TargetRoundTrip(t: TargetAddr, rest: Bytes)
    requires EncodableTarget(t)
    ensures DecodeTargetBody(AtypOf(t), EncodeTargetBody(t) + rest) == Ok((Some(t), rest))
  {
    match t
    case SocketAddr(SocketV4(ip, p)) =>
      assert EncodeTargetBody(t) + rest == ip.Octets() + (U16Bytes(p) + rest);
      ReadExactOf(ip.Octets(), U16Bytes(p) + rest);
      ReadU16Of(p, rest);
    case SocketAddr(SocketV6(ip, p)) =>
      assert EncodeTargetBody(t) + rest == ip.octets + (U16Bytes(p) + rest);
      ReadExactOf(ip.octets, U16Bytes(p) + rest);
      ReadU16Of(p, rest);
    case Domain(d, p) =>
      assert EncodeTargetBody(t) + rest == Frame(d) + (U16Bytes(p) + rest);
      ReadFixedStringOf(d, U16Bytes(p) + rest);
      ReadU16Of(p, rest);
  }

  /** ATYP and the address, or nothing at all when there is no target. */
  function EncodeTarget(t: Option<TargetAddr>): Bytes
  {
    match t
    case None => []
    case Some(a) => [AtypOf(a)] + EncodeTargetBody(a)
  }

  // ---- Request: VER, CMD, RSV, ATYP, DST.ADDR, DST.PORT ----

  datatype Request = Request(version: Byte, command: Byte, target: Option<TargetAddr>)

  /** `Request::is_valid`: only the version is checked. */
  function RequestIsValid(r: Request): (v: Result<(), E.SocksError>)
    ensures v.Ok? <==> r.version == SOCKS_VERSION
    ensures v.Err? ==> v.error == E.Socks(E.InvalidVersion)
  {
    if r.version == SOCKS_VERSION then Ok(()) else Err(E.Socks(E.InvalidVersion))
  }

  /** `Request::is_connect`. */
  function IsConnect(r: Request): (ok: bool)
    ensures ok <==> CommandFromU8(r.command) == Some(Connect)
  {
    r.command == CommandAsU8(Connect)
  }

  /** `Request::new`: a valid CONNECT to `target`. */
  function RequestNew(target: TargetAddr): (r: Request)
    ensures RequestIsValid(r).Ok? && IsConnect(r) && r.target == Some(target)
  {
    Request(SOCKS_VERSION, CommandAsU8(Connect), Some(target))
  }

  /** `Request::write`: the reserved byte is always 0x00. */
  function EncodeRequest(r: Request): Bytes
  {
    [r.version, r.command, 0x00] + EncodeTarget(r.target)
  }

  /** `Request::read`: the reserved byte is read and ignored. */
  function DecodeRequest(s: Bytes): Decoded<Request>
  {
    match ReadU8(s)
    case Err(e) => Err(e)
    case Ok((version, rest)) =>
      match ReadU8(rest)
      case Err(e) => Err(e)
      case Ok((command, rest2)) =>
        match ReadU8(rest2)
        case Err(e) => Err(e)
        case Ok((_, rest3)) =>
          match ReadU8(rest3)
          case Err(e) => Err(e)
          case Ok((atyp, rest4)) =>
            match DecodeTargetBody(atyp, rest4)
            case Err(e) => Err(e)
            case Ok((target, rest5)) => Ok((Request(version, command, target), rest5))
  }

  lemma RequestRoundTrip(r: Request, rest: Bytes)
    requires r.target.Some? && EncodableTarget(r.target.value)
    ensures DecodeRequest(EncodeRequest(r) + rest) == Ok((r, rest))
  {
    var t := r.target.value;
    var s := EncodeRequest(r) + rest;
    assert s[1..][1..][1..][1..] == EncodeTargetBody(t) + rest;
    assert s[3] == AtypOf(t);
    TargetRoundTrip(t, rest);
  }

  /** Whatever the reserved byte holds, and an unknown ATYP reads as no target, not as an error. */
  lemma RequestUnknownAtyp(version: Byte, command: Byte, rsv: Byte, atyp: Byte, rest: Bytes)
    requires atyp !in {DST_IPV4, DST_DOMAIN, DST_IPV6}
    ensures DecodeRequest([version, command, rsv, atyp] + rest) == Ok((Request(version, command, None), rest))
  {
    assert ([version, command, rsv, atyp] + rest)[1..][1..][1..][1..] == rest;
  }

  // ---- Reply: VER, REP, RSV, ATYP, BND.ADDR, BND.PORT ----

  datatype Reply = Reply(version: Byte, rep: Byte, atyp: Byte, target: Option<TargetAddr>)

  /** `Reply::rep`. */
  function ReplyRep(r: Reply): Option<Rep>
  {
    RepFromU8(r.rep)
  }

  /** `Reply::is_valid`: only the version is checked. */
  function ReplyIsValid(r: Reply): (v: Result<(), E.SocksError>)
    ensures v.Ok? <==> r.version == SOCKS_VERSION
    ensures v.Err? ==> v.error == E.Socks(E.InvalidVersion)
  {
    if r.version == SOCKS_VERSION then Ok(()) else Err(E.Socks(E.InvalidVersion))
  }

  /** `Reply::new`: a valid reply with that code, bound to the default address 127.0.0.1:0. */
  function ReplyNew(rep: Rep): (r: Reply)
    ensures ReplyIsValid(r).Ok? && ReplyRep(r) == Some(rep)
    ensures r.target == Some(ProxyAddr.DEFAULT) && r.atyp == AtypOf(ProxyAddr.DEFAULT)
  {
    Reply(SOCKS_VERSION, RepAsU8(rep), DST_IPV4, Some(ProxyAddr.DEFAULT))
  }

  /** `Reply::write`: the ATYP written is the target's own; the `atyp` field is not used. */
  function EncodeReply(r: Reply): Bytes
  {
    [r.version, r.rep, 0x00] + EncodeTarget(r.target)
  }

  /** `Reply::read`: `atyp` keeps the byte read, even an unknown one. */
  function DecodeReply(s: Bytes): Decoded<Reply>
  {
    match ReadU8(s)
    case Err(e) => Err(e)
    case Ok((version, rest)) =>
      match ReadU8(rest)
      case Err(e) => Err(e)
      case Ok((rep, rest2)) =>
        match ReadU8(rest2)
        case Err(e) => Err(e)
        case Ok((_, rest3)) =>
          match ReadU8(rest3)
          case Err(e) => Err(e)
          case Ok((atyp, rest4)) =>
            match DecodeTargetBody(atyp, rest4)
            case Err(e) => Err(e)
            case Ok((target, rest5)) => Ok((Reply(version, rep, atyp, target), rest5))
  }

  /** A reply comes back whole when its `atyp` field agrees with its target. */
  lemma ReplyRoundTrip(r: Reply, rest: Bytes)
    requires r.target.Some? && EncodableTarget(r.target.value) && r.atyp == AtypOf(r.target.value)
    ensures DecodeReply(EncodeReply(r) + rest) == Ok((r, rest))
  {
    var t := r.target.value;
    var s := EncodeReply(r) + rest;
    assert s[1..][1..][1..][1..] == EncodeTargetBody(t) + rest;
    assert s[3] == AtypOf(t);
    TargetRoundTrip(t, rest);
  }

  /** Every reply `Reply::new` builds survives write then read. */
  lemma ReplyNewRoundTrip(rep: Rep, rest: Bytes)
    ensures DecodeReply(EncodeReply(ReplyNew(rep)) + rest) == Ok((ReplyNew(rep), rest))
  {
    ReplyRoundTrip(ReplyNew(rep), rest);
  }
}
