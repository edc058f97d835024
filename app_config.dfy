/**
 * The configuration of the lightway binary (src/config.rs): the general
 * settings and their defaults, and the parsing of an upstream proxy given
 * as "protocol, host, port[, username, password]".
 */
module AppConfig {
  import opened Wrappers
  import opened Text
  import opened IpAddrs
  import opened NetwayAuth

  datatype ProxyMode = Direct | Proxy | Auto

  /** `General`: the settings of the `[general]` section. */
  datatype General = General(
    loglevel: Bytes,
    skipProxy: seq<Bytes>,
    port: Uint16,
    socksPort: Uint16,
    httpListen: Bytes,
    socks5Listen: Bytes,
    dnsServer: Option<(Bytes, Bytes)>,
    proxyMode: ProxyMode,
    excludeSimpleHostnames: bool,
    alwaysRealIp: seq<Bytes>,
    proxy: Option<Bytes>)

  /** `Default for General`. */
  function DefaultGeneral(): (g: General)
    ensures g.proxyMode == Proxy && g.excludeSimpleHostnames && g.proxy.None?
  {
    General(
      Lit("info"),
      [Lit("127.0.0.1"), Lit("10.0.0.0/8"), Lit("localhost"), Lit("*.local")],
      1235,
      1080,
      Lit("127.0.0.1:1235"),
      Lit("127.0.0.1:1080"),
      Some((Lit("system"), Lit("114.114.114.114"))),
      Proxy,
      true,
      [Lit("*.srv.nintendo.net"), Lit("*.stun.playstation.net"), Lit("*.xboxlive.com")],
      None)
  }

  const LOOPBACK: Ipv4 := Ipv4(127, 0, 0, 1)

  /** The default listen addresses are the loopback address at the default ports. */
  lemma DefaultListenersMatchPorts()
    ensures ParseSocketV4(DefaultGeneral().httpListen) == Some((LOOPBACK, DefaultGeneral().port))
    ensures ParseSocketV4(DefaultGeneral().socks5Listen) == Some((LOOPBACK, DefaultGeneral().socksPort))
  {
    DefaultListenTexts();
    LoopbackListener(1235);
    LoopbackListener(1080);
  }

  lemma DefaultListenTexts()
    ensures Lit("127.0.0.1:1235") == Lit("127.0.0.1") + [COLON] + ShowNat(1235)
    ensures Lit("127.0.0.1:1080") == Lit("127.0.0.1") + [COLON] + ShowNat(1080)
  {
    ShowNatDigits(1235);
    ShowNatDigits(1080);
    LoopbackLit();
    HttpListenLit();
    SocksListenLit();
  }

  lemma LoopbackLit()
    ensures Lit("127.0.0.1") == [49, 50, 55, 46, 48, 46, 48, 46, 49]
  {
  }

  lemma HttpListenLit()
    ensures Lit("127.0.0.1:1235") == [49, 50, 55, 46, 48, 46, 48, 46, 49, 58, 49, 50, 51, 53]
  {
  }

  lemma SocksListenLit()
    ensures Lit("127.0.0.1:1080") == [49, 50, 55, 46, 48, 46, 48, 46, 49, 58, 49, 48, 56, 48]
  {
  }

  /** "127.0.0.1:port" reads back as the loopback address and that port. */
  lemma LoopbackListener(p: Uint16)
    ensures ParseSocketV4(Lit("127.0.0.1") + [COLON] + ShowNat(p)) == Some((LOOPBACK, p))
  {
    var sx := Ipv6Syntax(s => None, ip => []);
    LoopbackText();
    ParseShowSocketV4(LOOPBACK, p, sx);
  }

  lemma LoopbackText()
    ensures ShowIpv4(LOOPBACK) == Lit("127.0.0.1")
  {
    ShowNatDigits(127);
    assert ShowNat(0) == [48];
    assert ShowNat(1) == [49];
    LoopbackLit();
  }

  lemma ShowNatDigits(n: nat)
    requires n in {127, 1235, 1080}
    ensures n == 127 ==> ShowNat(n) == [49, 50, 55]
    ensures n == 1235 ==> ShowNat(n) == [49, 50, 51, 53]
    ensures n == 1080 ==> ShowNat(n) == [49, 48, 56, 48]
  {
    assert ShowNat(12) == [49, 50];
    assert ShowNat(123) == [49, 50, 51];
    assert ShowNat(10) == [49, 48];
    assert ShowNat(108) == [49, 48, 56];
  }

  // ---- parse_protocol ----

  /** `netway::Protocol`. */
  datatype Protocol = Http | Https | Socks5

  datatype ConfigError = UnknownProtocol | BadPort | UnknownProxyFormat

  const HTTP: Bytes := Lit("http")
  const HTTPS: Bytes := Lit("https")
  const SOCKS5: Bytes := Lit("socks5")

  /** `parse_protocol`: the three names, in any ASCII case. */
  function ParseProtocol(s: Bytes): (r: Result<Protocol, ConfigError>)
    ensures r == Ok(Http) <==> EqIgnoreAsciiCase(s, HTTP)
    ensures r == Ok(Https) <==> EqIgnoreAsciiCase(s, HTTPS)
    ensures r == Ok(Socks5) <==> EqIgnoreAsciiCase(s, SOCKS5)
    ensures r.Err? ==> r.error == UnknownProtocol
  {
    if EqIgnoreAsciiCase(s, HTTP) then Ok(Http)
    else if EqIgnoreAsciiCase(s, HTTPS) then Ok(Https)
    else if EqIgnoreAsciiCase(s, SOCKS5) then Ok(Socks5)
    else Err(UnknownProtocol)
  }

  /** The lower-case name of a protocol. */
  function ProtocolName(p: Protocol): (s: Bytes)
    ensures COMMA !in s && |s| > 0
  {
    match p
    case Http => HTTP
    case Https => HTTPS
    case Socks5 => SOCKS5
  }

  lemma ParseProtocolName(p: Protocol)
    ensures ParseProtocol(ProtocolName(p)) == Ok(p)
  {
    assert EqIgnoreAsciiCase(ProtocolName(p), ProtocolName(p));
  }

  /** Case does not matter: names equal up to ASCII case parse alike. */
  lemma ParseProtocolIgnoresCase(a: Bytes, b: Bytes)
    requires EqIgnoreAsciiCase(a, b)
    ensures ParseProtocol(a) == ParseProtocol(b)
  {
    EqIgnoreCaseAlike(a, b, HTTP);
    EqIgnoreCaseAlike(a, b, HTTPS);
    EqIgnoreCaseAlike(a, b, SOCKS5);
  }

  // ---- parse_proxy ----

  /** The arguments of `Dialer::new`: protocol, host, port and credentials. */
  datatype Upstream = Upstream(protocol: Protocol, host: Bytes, port: Uint16, auth: Authentication)

  /** `split(',')` then `trim` of every piece. */
  function Fields(proxy: Bytes): (fs: seq<Bytes>)
    ensures |fs| == |Split(proxy, COMMA)| >= 1
    ensures forall k :: 0 <= k < |fs| ==> COMMA !in fs[k]
  {
    var ps := Split(proxy, COMMA);
    seq(|ps|, i requires 0 <= i < |ps| => TrimInfix(ps[i]); Trim(ps[i]))
  }

  /** A trimmed piece is part of the piece, so it holds no byte the piece lacks. */
  lemma TrimInfix(s: Bytes)
    ensures forall b :: b in Trim(s) ==> b in s
  {
    var i :| InfixAt(s, Trim(s), i);
    forall b | b in Trim(s) ensures b in s {
      var j :| 0 <= j < |Trim(s)| && Trim(s)[j] == b;
      assert s[i + j] == b;
    }
  }

  /** `parse_proxy`: three fields give no credentials, five give a username and password; the protocol is checked before the port. */
  function ParseProxy(proxy: Bytes): (r: Result<Upstream, ConfigError>)
    ensures var fs := Fields(proxy);
            && (|fs| != 3 && |fs| != 5 <==> r == Err(UnknownProxyFormat))
            && (r.Ok? ==> && ParseProtocol(fs[0]) == Ok(r.value.protocol)
                          && r.value.host == fs[1]
                          && ParseUnsigned(fs[2], U16_MAX) == Some(r.value.port)
                          && (|fs| == 3 <==> r.value.auth == NoAuth)
                          && (|fs| == 5 ==> r.value.auth == Password(fs[3], fs[4])))
            && (r == Err(UnknownProtocol) <==> (|fs| == 3 || |fs| == 5) && ParseProtocol(fs[0]).Err?)
            && (r == Err(BadPort) <==> ((|fs| == 3 || |fs| == 5) && ParseProtocol(fs[0]).Ok?
                                        && ParseUnsigned(fs[2], U16_MAX).None?))
  {
    var fs := Fields(proxy);
    if |fs| == 3 || |fs| == 5 then
      match ParseProtocol(fs[0])
      case Err(e) => Err(e)
      case Ok(protocol) =>
        match ParseUnsigned(fs[2], U16_MAX)
        case None => Err(BadPort)
        case Some(port) =>
          Ok(Upstream(protocol, fs[1], port, if |fs| == 3 then NoAuth else Password(fs[3], fs[4])))
    else Err(UnknownProxyFormat)
  }

  /** A text that `trim` leaves alone and that holds no comma: it can stand as one field. */
  predicate FieldText(s: Bytes)
  {
    COMMA !in s && LeadingSpaceLen(s) == 0 && TrailingSpaceLen(s) == 0
  }

  /** The proxy string of an upstream, fields joined with ','. */
  function ShowProxy(u: Upstream): Bytes
  {
    Join(ShowFields(u), COMMA)
  }

  function ShowFields(u: Upstream): seq<Bytes>
  {
    [ProtocolName(u.protocol), u.host, ShowNat(u.port)]
    + (match u.auth case NoAuth => [] case Password(n, p) => [n, p])
  }

  /** Every upstream whose host and credentials are single fields is read back from its proxy string. */
  lemma ParseShowProxy(u: Upstream)
    requires FieldText(u.host)
    requires u.auth.Password? ==> FieldText(u.auth.username) && FieldText(u.auth.password)
    ensures ParseProxy(ShowProxy(u)) == Ok(u)
  {
    FieldsOfShow(u);
    ParseShowFields(ShowProxy(u), u);
  }

  /** A proxy string whose fields are those of an upstream parses as that upstream. */
  lemma ParseShowFields(proxy: Bytes, u: Upstream)
    requires Fields(proxy) == ShowFields(u)
    ensures ParseProxy(proxy) == Ok(u)
  {
    ShowFieldsAre(u);
    ParseProtocolName(u.protocol);
    ParseShowNat(u.port, U16_MAX);
    ParseProxyOf(proxy, u);
  }

  /** The fields of a proxy string are the fields it was joined from. */
  lemma FieldsOfShow(u: Upstream)
    requires FieldText(u.host)
    requires u.auth.Password? ==> FieldText(u.auth.username) && FieldText(u.auth.password)
    ensures Fields(ShowProxy(u)) == ShowFields(u)
  {
    ShowFieldsText(u);
    FieldsOfJoin(ShowFields(u));
  }

  lemma ShowFieldsAre(u: Upstream)
    ensures var fs := ShowFields(u);
            && |fs| >= 3 && fs[0] == ProtocolName(u.protocol) && fs[1] == u.host && fs[2] == ShowNat(u.port)
            && (u.auth == NoAuth ==> |fs| == 3)
            && (u.auth.Password? ==> |fs| == 5 && u.auth == Password(fs[3], fs[4]))
  {
  }

  /** Fields that each parse give the upstream they describe. */
  lemma ParseProxyOf(proxy: Bytes, u: Upstream)
    requires var fs := Fields(proxy);
             && ((|fs| == 3 && u.auth == NoAuth) || (|fs| == 5 && u.auth == Password(fs[3], fs[4])))
             && ParseProtocol(fs[0]) == Ok(u.protocol) && fs[1] == u.host
             && ParseUnsigned(fs[2], U16_MAX) == Some(u.port)
    ensures ParseProxy(proxy) == Ok(u)
  {
  }

  lemma ShowFieldsText(u: Upstream)
    requires FieldText(u.host)
    requires u.auth.Password? ==> FieldText(u.auth.username) && FieldText(u.auth.password)
    ensures forall k :: 0 <= k < |ShowFields(u)| ==> FieldText(ShowFields(u)[k])
  {
    var fs := ShowFields(u);
    ShowNatHasNo(u.port, COMMA);
    DigitsFieldText(ShowNat(u.port));
    FieldTextOfName(u.protocol);
    forall k | 0 <= k < |fs| ensures FieldText(fs[k]) {
      if k == 0 {
      } else if k == 1 {
      } else if k == 2 {
      } else {
        assert u.auth.Password?;
        assert fs[k] == u.auth.username || fs[k] == u.auth.password;
      }
    }
  }

  lemma DigitsFieldText(s: Bytes)
    requires |s| >= 1 && AllDigits(s) && COMMA !in s
    ensures FieldText(s)
  {
    assert IsDigit(s[0]) && IsDigit(s[|s| - 1]);
  }

  /** Single fields joined with ',' are split and trimmed back into themselves. */
  lemma FieldsOfJoin(fs: seq<Bytes>)
    requires |fs| >= 1 && forall k :: 0 <= k < |fs| ==> FieldText(fs[k])
    ensures Fields(Join(fs, COMMA)) == fs
  {
    SplitJoin(fs, COMMA);
    forall k | 0 <= k < |fs| ensures Trim(fs[k]) == fs[k] {
      TrimNoSpace(fs[k]);
    }
  }

  lemma FieldTextOfName(p: Protocol)
    ensures FieldText(ProtocolName(p))
  {
  }
}
