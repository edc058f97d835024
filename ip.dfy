/**
 * IP and socket addresses and their text forms as Rust's standard library
 * parses and displays them. IPv4 text is written out; the IPv6 text syntax
 * (RFC 4291 section 2.2 with RFC 5952 compression) is a parameter.
 */
module IpAddrs {
  import opened Wrappers
  import opened Text

  datatype Ipv4 = Ipv4(a: Byte, b: Byte, c: Byte, d: Byte)
  {
    function Octets(): seq<Byte> { [a, b, c, d] }
  }

  type Octets16 = s: seq<Byte> | |s| == 16 witness seq(16, i => 0)

  datatype Ipv6 = Ipv6(octets: Octets16)

  datatype IpAddr = V4(v4: Ipv4) | V6(v6: Ipv6)

  /** `SocketAddr`; the IPv6 flow label and scope id are always 0 here. */
  datatype SocketAddr = SocketV4(ip4: Ipv4, port: Uint16) | SocketV6(ip6: Ipv6, port: Uint16)
  {
    function Ip(): IpAddr
    {
      match this
      case SocketV4(ip, _) => V4(ip)
      case SocketV6(ip, _) => V6(ip)
    }
  }

  /** `Ipv6Addr::from_str` and `Display for Ipv6Addr`, supplied by the caller. */
  datatype Ipv6Syntax = Ipv6Syntax(parse: Bytes -> Option<Ipv6>, show: Ipv6 -> Bytes)

  const OPEN_BRACKET: Byte := 91
  const CLOSE_BRACKET: Byte := 93

  /**
   * What the standard library guarantees of its IPv6 text: displaying then
   * parsing gives the address back, and the text (hex digits, ':' and the
   * dots of an embedded IPv4 tail) always holds a ':' and never a ']', ',' or '/'.
   */
  ghost predicate Sound(sx: Ipv6Syntax)
  {
    (forall ip :: sx.parse(sx.show(ip)) == Some(ip))
    && (forall ip :: COLON in sx.show(ip) && CLOSE_BRACKET !in sx.show(ip))
    && (forall ip :: COMMA !in sx.show(ip) && SLASH !in sx.show(ip))
  }

  // ---- IPv4 ----

  /** One dotted-quad field: 1 to 3 digits, no leading zero, at most 255. */
  function ParseOctet(p: Bytes): (r: Option<Byte>)
    ensures r.Some? ==> 1 <= |p| <= 3 && AllDigits(p) && DigitsValue(p) == r.value
  {
    if 1 <= |p| <= 3 && AllDigits(p) && !(|p| > 1 && p[0] == 48) && DigitsValue(p) <= 255
    then Some(DigitsValue(p)) else None
  }

  /** The bytes a dotted quad is written with. */
  const DIGITS_AND_DOT: set<Byte> := set b: Byte | 48 <= b <= 57 || b == 46

  /** `Ipv4Addr::from_str`: exactly four dot-separated fields. */
  function ParseIpv4(s: Bytes): (r: Option<Ipv4>)
    ensures r.Some? ==> forall i :: 0 <= i < |s| ==> s[i] in DIGITS_AND_DOT
  {
    var parts := Split(s, DOT);
    if |parts| == 4 && ParseOctet(parts[0]).Some? && ParseOctet(parts[1]).Some?
       && ParseOctet(parts[2]).Some? && ParseOctet(parts[3]).Some?
    then
      DottedQuadBytes(s);
      Some(Ipv4(ParseOctet(parts[0]).value, ParseOctet(parts[1]).value,
                ParseOctet(parts[2]).value, ParseOctet(parts[3]).value))
    else None
  }

  /** A text whose four dot-separated fields are octets is made of digits and dots. */
  lemma DottedQuadBytes(s: Bytes)
    requires var parts := Split(s, DOT);
             |parts| == 4 && forall k :: 0 <= k < 4 ==> ParseOctet(parts[k]).Some?
    ensures forall i :: 0 <= i < |s| ==> s[i] in DIGITS_AND_DOT
  {
    var parts := Split(s, DOT);
    forall k, i | 0 <= k < |parts| && 0 <= i < |parts[k]| ensures parts[k][i] in DIGITS_AND_DOT {
      assert ParseOctet(parts[k]).Some?;
    }
    JoinSplit(s, DOT);
    JoinWithin(parts, DOT, DIGITS_AND_DOT);
  }

  /** `Display for Ipv4Addr`: "a.b.c.d". */
  function ShowIpv4(ip: Ipv4): Bytes
  {
    Join([ShowNat(ip.a), ShowNat(ip.b), ShowNat(ip.c), ShowNat(ip.d)], DOT)
  }

  lemma ShowNatHasNo(n: nat, c: Byte)
    requires !IsDigit(c)
    ensures c !in ShowNat(n)
  {
  }

  lemma ParseShowOctet(b: Byte)
    ensures ParseOctet(ShowNat(b)) == Some(b)
  {
  }

  lemma ParseShowIpv4(ip: Ipv4)
    ensures ParseIpv4(ShowIpv4(ip)) == Some(ip)
  {
    var ps := [ShowNat(ip.a), ShowNat(ip.b), ShowNat(ip.c), ShowNat(ip.d)];
    forall k | 0 <= k < 4 ensures DOT !in ps[k] {
      ShowNatHasNo(ip.Octets()[k], DOT);
    }
    SplitJoin(ps, DOT);
    ParseShowOctet(ip.a);
    ParseShowOctet(ip.b);
    ParseShowOctet(ip.c);
    ParseShowOctet(ip.d);
  }

  lemma ShowIpv4Chars(ip: Ipv4)
    ensures forall i :: 0 <= i < |ShowIpv4(ip)| ==> ShowIpv4(ip)[i] in DIGITS_AND_DOT
    ensures COLON !in ShowIpv4(ip) && CLOSE_BRACKET !in ShowIpv4(ip) && OPEN_BRACKET !in ShowIpv4(ip)
  {
    ParseShowIpv4(ip);
  }

  // ---- ports and socket addresses ----

  /** The port of a socket address: one or more digits (no sign), at most 65535. */
  function ParsePort(p: Bytes): (r: Option<Uint16>)
  {
    if |p| > 0 && AllDigits(p) && DigitsValue(p) <= U16_MAX then Some(DigitsValue(p)) else None
  }

  /** `SocketAddrV4::from_str`: "a.b.c.d:port". */
  function ParseSocketV4(s: Bytes): (r: Option<(Ipv4, Uint16)>)
  {
    match SplitOnce(s, COLON)
    case None => None
    case Some((host, port)) =>
      match (ParseIpv4(host), ParsePort(port))
      case (Some(ip), Some(p)) => Some((ip, p))
      case _ => None
  }

  /** `SocketAddrV6::from_str`: "[address]:port" (a "%scope" suffix is not accepted here). */
  function ParseSocketV6(s: Bytes, sx: Ipv6Syntax): (r: Option<(Ipv6, Uint16)>)
  {
    if |s| == 0 || s[0] != OPEN_BRACKET then None
    else match SplitOnce(s[1..], CLOSE_BRACKET)
      case None => None
      case Some((inner, rest)) =>
        if |rest| == 0 || rest[0] != COLON then None
        else match (sx.parse(inner), ParsePort(rest[1..]))
          case (Some(ip), Some(p)) => Some((ip, p))
          case _ => None
  }

  /** `IpAddr::from_str`: an IPv4 dotted quad, else IPv6 text. */
  function ParseIpAddr(s: Bytes, sx: Ipv6Syntax): Option<IpAddr>
  {
    match ParseIpv4(s)
    case Some(ip) => Some(V4(ip))
    case None =>
      match sx.parse(s)
      case Some(ip) => Some(V6(ip))
      case None => None
  }

  function ShowIpAddr(ip: IpAddr, sx: Ipv6Syntax): Bytes
  {
    match ip
    case V4(v) => ShowIpv4(v)
    case V6(v) => sx.show(v)
  }

  /** `Display for SocketAddr`: "a.b.c.d:port" or "[address]:port". */
  function ShowSocketAddr(sa: SocketAddr, sx: Ipv6Syntax): Bytes
  {
    match sa
    case SocketV4(ip, p) => ShowIpv4(ip) + [COLON] + ShowNat(p)
    case SocketV6(ip, p) => [OPEN_BRACKET] + sx.show(ip) + [CLOSE_BRACKET] + [COLON] + ShowNat(p)
  }

  lemma ParseShowIpAddr(ip: IpAddr, sx: Ipv6Syntax)
    requires Sound(sx)
    ensures ParseIpAddr(ShowIpAddr(ip, sx), sx) == Some(ip)
  {
    match ip
    case V4(v) => ParseShowIpv4(v);
    case V6(v) =>
      var t := sx.show(v);
      assert COLON in t;
      assert ParseIpv4(t).None?;
  }

  /** A shown IP address has no comma or slash, and parses back to itself. */
  lemma ShowIpAddrFree(ip: IpAddr, sx: Ipv6Syntax)
    requires Sound(sx)
    ensures COMMA !in ShowIpAddr(ip, sx) && SLASH !in ShowIpAddr(ip, sx)
    ensures ParseIpAddr(ShowIpAddr(ip, sx), sx) == Some(ip)
  {
    ParseShowIpAddr(ip, sx);
    if ip.V4? {
      ShowIpv4Chars(ip.v4);
    }
  }

  lemma ParseShowSocketV4(ip: Ipv4, p: Uint16, sx: Ipv6Syntax)
    ensures ParseSocketV4(ShowSocketAddr(SocketV4(ip, p), sx)) == Some((ip, p))
  {
    ShowIpv4Chars(ip);
    SplitOnceOf(ShowIpv4(ip), ShowNat(p), COLON);
    ParseShowIpv4(ip);
  }

  lemma ParseShowSocketV6(ip: Ipv6, p: Uint16, sx: Ipv6Syntax)
    requires Sound(sx)
    ensures ParseSocketV6(ShowSocketAddr(SocketV6(ip, p), sx), sx) == Some((ip, p))
  {
    var s := ShowSocketAddr(SocketV6(ip, p), sx);
    var t := sx.show(ip);
    assert CLOSE_BRACKET !in t;
    assert s[1..] == t + [CLOSE_BRACKET] + ([COLON] + ShowNat(p));
    SplitOnceOf(t, [COLON] + ShowNat(p), CLOSE_BRACKET);
    assert ([COLON] + ShowNat(p))[1..] == ShowNat(p);
  }

  /** A displayed socket address of one family never parses as the other family. */
  lemma SocketFamiliesDisjoint(sa: SocketAddr, sx: Ipv6Syntax)
    requires Sound(sx)
    ensures sa.SocketV4? ==> ParseSocketV6(ShowSocketAddr(sa, sx), sx).None?
    ensures sa.SocketV6? ==> ParseSocketV4(ShowSocketAddr(sa, sx)).None?
  {
    var s := ShowSocketAddr(sa, sx);
    if sa.SocketV4? {
      ShowIpv4Chars(sa.ip4);
      var t := ShowIpv4(sa.ip4);
      assert |t| > 0 by { ParseShowIpv4(sa.ip4); }
      assert s[0] == t[0];
    } else {
      assert s[0] == OPEN_BRACKET;
      match SplitOnce(s, COLON)
      case None =>
      case Some((host, port)) =>
        assert host[0] == OPEN_BRACKET;
    }
  }
}
