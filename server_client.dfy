/**
 * The upstream client of the proxy server (proxy-server/src/client.rs): it
 * turns the configured upstream proxy into a SOCKS5 client or an HTTP
 * CONNECT tunnel client, with the configured credentials, and TLS for an
 * "https" upstream.
 */
module ServerClient {
  import opened Wrappers
  import opened Text
  import opened IpAddrs
  import opened ProxyAddr
  import opened ServerConfig
  import PSC = ProxySocksClient
  import PTC = ProxyTunnelClient

  /** `SocketAddr::new`. */
  function SocketNew(ip: IpAddr, port: Uint16): (sa: IpAddrs.SocketAddr)
    ensures sa.Ip() == ip && sa.port == port
  {
    match ip
    case V4(v) => SocketV4(v, port)
    case V6(v) => SocketV6(v, port)
  }

  /** `parse_target`: an address when the host reads as an IP address, a domain otherwise. */
  function ParseTarget(host: Bytes, port: Uint16, sx: Ipv6Syntax): (t: TargetAddr)
    ensures t.SocketAddr? <==> ParseIpAddr(host, sx).Some?
    ensures t.SocketAddr? ==> t.addr.Ip() == ParseIpAddr(host, sx).value && t.addr.port == port
    ensures t.Domain? ==> t == Domain(host, port)
  {
    match ParseIpAddr(host, sx)
    case Some(ip) => SocketAddr(SocketNew(ip, port))
    case None => Domain(host, port)
  }

  /** An upstream given by the text of an IP address is dialed at that address. */
  lemma ParseTargetOfIp(ip: IpAddr, port: Uint16, sx: Ipv6Syntax)
    requires Sound(sx)
    ensures ParseTarget(ShowIpAddr(ip, sx), port, sx) == SocketAddr(SocketNew(ip, port))
  {
    ParseShowIpAddr(ip, sx);
  }

  const SOCKS5: Bytes := Lit("socks5")
  const HTTPS: Bytes := Lit("https")

  /** Which client is used to reach the upstream, where it is, with which credentials, and (for the tunnel) whether over TLS. */
  datatype Connector =
    | SocksConnector(server: TargetAddr, credentials: Option<Authorization>)
    | TunnelConnector(server: TargetAddr, credentials: Option<Authorization>, tls: bool)

  /** The `expect` on a client without an upstream. */
  datatype Panic = NoProxy

  /** The choice `Client::call` makes for the configured upstream. */
  function Dispatch(proxy: Option<ProxyEntry>, sx: Ipv6Syntax): (r: Result<Connector, Panic>)
    ensures r.Err? <==> proxy.None?
    ensures r.Ok? ==> && r.value.server == ParseTarget(proxy.value.host, proxy.value.port, sx)
                      && r.value.credentials == proxy.value.authorization
    ensures r.Ok? ==> (r.value.SocksConnector? <==> EqIgnoreAsciiCase(proxy.value.scheme, SOCKS5))
    ensures r.Ok? ==> (r.value.TunnelConnector? && r.value.tls <==> EqIgnoreAsciiCase(proxy.value.scheme, HTTPS))
  {
    match proxy
    case None => Err(NoProxy)
    case Some(p) =>
      var target := ParseTarget(p.host, p.port, sx);
      if EqIgnoreAsciiCase(p.scheme, SOCKS5) then Ok(SocksConnector(target, p.authorization))
      else Ok(TunnelConnector(target, p.authorization, EqIgnoreAsciiCase(p.scheme, HTTPS)))
  }

  /** The client object `Client::call` builds before handing it the request. */
  datatype Connect = SocksConnect(socks: PSC.Client) | TunnelConnect(tunnel: PTC.Client)

  /** The credentials as the SOCKS5 client keeps them. */
  function SocksCredentials(a: Option<Authorization>): PSC.Authorization
  {
    match a
    case None => None
    case Some(Basic(u, p)) => Some((u, p))
  }

  /** The credentials as the tunnel client keeps them. */
  function TunnelCredentials(a: Option<Authorization>): Option<PTC.Basic>
  {
    match a
    case None => None
    case Some(Basic(u, p)) => Some(PTC.BasicNew(u, p))
  }

  /** The client object is set up as the connector says. */
  ghost predicate SetUp(c: Connect, k: Connector)
    reads if c.SocksConnect? then {c.socks, c.socks.connect} else {c.tunnel}
  {
    match c
    case SocksConnect(s) =>
      && k.SocksConnector?
      && s.connect.target == k.server && !s.connect.tls
      && s.authorization == SocksCredentials(k.credentials)
    case TunnelConnect(t) =>
      && k.TunnelConnector?
      && t.proxy == k.server && t.tls == k.tls
      && t.authorization == TunnelCredentials(k.credentials)
  }

  /** `Client`: the upstream proxy, once configured. */
  class Client {
    var proxy: Option<ProxyEntry>

    /** `Client::new`. */
    constructor New(proxy: ProxyEntry)
      ensures this.proxy == Some(proxy)
    {
      this.proxy := Some(proxy);
    }

    /** `Client::empty`. */
    constructor Empty()
      ensures proxy == None
    {
      proxy := None;
    }

    /** `set_proxy`. */
    method SetProxy(proxy: ProxyEntry)
      modifies this
      ensures this.proxy == Some(proxy)
    {
      this.proxy := Some(proxy);
    }

    /**
     * `Client::call` up to the call of the chosen client: without an
     * upstream it panics; otherwise it builds the client the scheme asks for.
     */
    method Call(sx: Ipv6Syntax) returns (r: Result<Connect, Panic>)
      ensures r.Err? <==> Dispatch(proxy, sx).Err?
      ensures r.Ok? ==> SetUp(r.value, Dispatch(proxy, sx).value)
      ensures r.Ok? && r.value.SocksConnect? ==> fresh(r.value.socks) && fresh(r.value.socks.connect)
      ensures r.Ok? && r.value.TunnelConnect? ==> fresh(r.value.tunnel)
    {
      if proxy.None? {
        return Err(NoProxy);
      }
      var p := proxy.value;
      var target := ParseTarget(p.host, p.port, sx);
      if EqIgnoreAsciiCase(p.scheme, SOCKS5) {
        var connect := new PSC.Client.New(target);
        if p.authorization.Some? {
          connect.SetAuthorization(p.authorization.value.username, p.authorization.value.password);
        }
        r := Ok(SocksConnect(connect));
      } else {
        var connect := new PTC.Client.New(target);
        if p.authorization.Some? {
          connect.SetAuthorization(p.authorization.value.username, p.authorization.value.password);
        }
        if EqIgnoreAsciiCase(p.scheme, HTTPS) {
          connect.EnableTls();
        }
        r := Ok(TunnelConnect(connect));
      }
    }
  }
}
