/**
 * The connectors of the `proxy-io` crate (proxy-io/src/stream.rs): the
 * routing decision of `ProxyConnect`, the TLS-or-plain choice of
 * `StreamConnect`, and the first-address rule of `TokioConnect`. The
 * connectors they call and the TLS handshake are parameters: each says
 * whether the call succeeded and, if not, with which error kind.
 */
module ProxyIoStream {
  import opened Wrappers
  import opened Text
  import opened IoKinds
  import opened IpAddrs
  import opened ProxyAddr
  import ProxyRules

  /** A policy over the displayed target, as `Policy::enforce` is called. */
  type Policy = Bytes -> ProxyRules.Decision

  /** An inner connector service: success, or the error kind it fails with. */
  type Connector = TargetAddr -> Result<(), IoErrorKind>

  /** Which connector a target goes through, and which `Connection` variant results. */
  datatype Via = ViaDirect | ViaProxy

  /** The decision `ProxyConnect::call` takes before connecting. */
  function Decide(forceProxy: bool, policy: Option<Policy>, target: TargetAddr, sx: Ipv6Syntax): (d: ProxyRules.Decision)
  {
    if forceProxy then ProxyRules.Proxy(true)
    else match policy
      case Some(p) => p(Show(target, sx))
      case None => ProxyRules.Default
  }

  /** The connector a decision sends the target to; Deny sends it nowhere. */
  function Route(d: ProxyRules.Decision, defaultProxy: bool): (via: Option<Via>)
  {
    match d
    case Direct => Some(ViaDirect)
    case Proxy(_) => Some(ViaProxy)
    case Default => if defaultProxy then Some(ViaProxy) else Some(ViaDirect)
    case Deny => None
  }

  /** Forcing the proxy overrides any policy: the target goes through the proxy connector. */
  lemma ForceProxyOverridesPolicy(policy: Option<Policy>, defaultProxy: bool, target: TargetAddr, sx: Ipv6Syntax)
    ensures Decide(true, policy, target, sx) == ProxyRules.Proxy(true)
    ensures Route(Decide(true, policy, target, sx), defaultProxy) == Some(ViaProxy)
  {
  }

  /** Without force and without a policy, the default-proxy flag alone picks the connector. */
  lemma NoPolicyFollowsDefault(defaultProxy: bool, target: TargetAddr, sx: Ipv6Syntax)
    ensures Route(Decide(false, None, target, sx), defaultProxy) == Some(if defaultProxy then ViaProxy else ViaDirect)
  {
  }

  /**
   * Each connector is reached by exactly these decisions: the direct one by
   * Direct and, without the default-proxy flag, Default; the proxy one by
   * Proxy and, with the flag, Default; Deny reaches neither.
   */
  lemma RouteCases(d: ProxyRules.Decision, defaultProxy: bool)
    ensures Route(d, defaultProxy) == Some(ViaDirect) <==> d.Direct? || (d.Default? && !defaultProxy)
    ensures Route(d, defaultProxy) == Some(ViaProxy) <==> d.Proxy? || (d.Default? && defaultProxy)
    ensures Route(d, defaultProxy) == None <==> d.Deny?
  {
  }

  /** The outcome of one connector call, as a `Connection` of the connector's kind. */
  function Connected(via: Via, target: TargetAddr, connect: Connector, proxyConnect: Connector): (r: Result<Via, IoErrorKind>)
    ensures r.Ok? ==> r.value == via
  {
    var outcome := if via == ViaDirect then connect(target) else proxyConnect(target);
    match outcome
    case Ok(_) => Ok(via)
    case Err(k) => Err(k)
  }

  /** `ProxyConnect`: two connectors, an optional policy and two flags. */
  class ProxyConnect {
    var policy: Option<Policy>
    var forceProxy: bool
    var defaultProxy: bool

    /** `ProxyConnect::new`: no policy, neither flag set. */
    constructor New()
      ensures policy == None && !forceProxy && !defaultProxy
    {
      policy := None;
      forceProxy := false;
      defaultProxy := false;
    }

    /** `set_policy`. */
    method SetPolicy(p: Policy)
      modifies this
      ensures policy == Some(p) && forceProxy == old(forceProxy) && defaultProxy == old(defaultProxy)
    {
      policy := Some(p);
    }

    /** `set_force_proxy`. */
    method SetForceProxy(force: bool)
      modifies this
      ensures forceProxy == force && policy == old(policy) && defaultProxy == old(defaultProxy)
    {
      forceProxy := force;
    }

    /** `set_default_proxy`. */
    method SetDefaultProxy(defaultProxy: bool)
      modifies this
      ensures this.defaultProxy == defaultProxy && policy == old(policy) && forceProxy == old(forceProxy)
    {
      this.defaultProxy := defaultProxy;
    }

    /**
     * `ProxyConnect::call`: decide, then call exactly the connector the
     * decision routes to (`called` lists the calls made); Deny fails with
     * HostUnreachable and calls nothing.
     */
    method Call(target: TargetAddr, sx: Ipv6Syntax, connect: Connector, proxyConnect: Connector)
      returns (r: Result<Via, IoErrorKind>, called: seq<Via>)
      ensures var via := Route(Decide(forceProxy, policy, target, sx), defaultProxy);
              && (via.None? ==> r == Err(HostUnreachable) && called == [])
              && (via.Some? ==> called == [via.value] && r == Connected(via.value, target, connect, proxyConnect))
    {
      var decision: ProxyRules.Decision;
      if forceProxy {
        decision := ProxyRules.Proxy(true);
      } else if policy.Some? {
        decision := policy.value(Show(target, sx));
      } else {
        decision := ProxyRules.Default;
      }
      match decision {
        case Direct =>
          r, called := Connected(ViaDirect, target, connect, proxyConnect), [ViaDirect];
        case Proxy(_) =>
          r, called := Connected(ViaProxy, target, connect, proxyConnect), [ViaProxy];
        case Default =>
          if defaultProxy {
            r, called := Connected(ViaProxy, target, connect, proxyConnect), [ViaProxy];
          } else {
            r, called := Connected(ViaDirect, target, connect, proxyConnect), [ViaDirect];
          }
        case Deny =>
          r, called := Err(HostUnreachable), [];
      }
    }
  }

  // ---- StreamConnect ----

  /** `ProxyStream`: a plain TCP stream or a TLS session over one. */
  datatype ProxyStream = Tcp | Tls(host: Bytes)

  /**
   * The TLS layer: whether the crate is built with its native TLS feature,
   * and whether the handshake with a host succeeds.
   */
  datatype TlsSupport = TlsSupport(nativeTls: bool, handshake: Bytes -> bool)

  /** What `StreamConnect::call` yields once the inner connector has succeeded. */
  function WrapStream(tls: bool, target: TargetAddr, support: TlsSupport): (r: Result<ProxyStream, IoErrorKind>)
    ensures r.Ok? && r.value.Tls? ==> tls && target.Domain? && r.value.host == target.domain
    ensures !tls || target.SocketAddr? ==> r == Ok(Tcp)
    ensures tls && target.Domain? ==> r.Err? || r == Ok(Tls(target.domain))
  {
    if target.Domain? && tls then
      if !support.nativeTls then Err(Unsupported)
      else if support.handshake(target.domain) then Ok(Tls(target.domain))
      else Err(Other)
    else Ok(Tcp)
  }

  /** `StreamConnect`: a connector, a TLS flag and a target. */
  class StreamConnect {
    var tls: bool
    var target: TargetAddr

    /** `StreamConnect::new`: plain TCP until told otherwise. */
    constructor New(target: TargetAddr)
      ensures !tls && this.target == target
    {
      tls := false;
      this.target := target;
    }

    /** `set_tls`. */
    method SetTls(tls: bool)
      modifies this
      ensures this.tls == tls && target == old(target)
    {
      this.tls := tls;
    }

    /** `set_target`. */
    method SetTarget(target: TargetAddr)
      modifies this
      ensures this.target == target && tls == old(tls)
    {
      this.target := target;
    }

    /** `StreamConnect::call`: connect to the target, then wrap the stream in TLS for a Domain target when asked. */
    method Call(connect: Connector, support: TlsSupport) returns (r: Result<ProxyStream, IoErrorKind>)
      ensures connect(target).Err? ==> r == Err(connect(target).error)
      ensures connect(target).Ok? ==> r == WrapStream(tls, target, support)
    {
      var stream := connect(target);
      if stream.Err? {
        return Err(stream.error);
      }
      if target.Domain? {
        if tls {
          if !support.nativeTls {
            r := Err(Unsupported);
          } else if support.handshake(target.domain) {
            r := Ok(Tls(target.domain));
          } else {
            r := Err(Other);
          }
        } else {
          r := Ok(Tcp);
        }
      } else {
        r := Ok(Tcp);
      }
    }
  }

  // ---- TokioConnect ----

  /** A TCP dial to one socket address. */
  type Dialer = IpAddrs.SocketAddr -> Result<(), IoErrorKind>

  /**
   * `TokioConnect::call`: a socket address is dialed as it is; a domain is
   * looked up and only the first address found is dialed. The result is the
   * address dialed.
   */
  function TokioConnect(target: TargetAddr, resolve: Resolver, dial: Dialer): (r: Result<IpAddrs.SocketAddr, IoErrorKind>)
    ensures target.SocketAddr? ==> r == (if dial(target.addr).Ok? then Ok(target.addr) else Err(dial(target.addr).error))
    ensures target.Domain? && resolve(target.domain, target.port) == Ok([]) ==> r == Err(HostUnreachable)
    ensures r.Ok? ==> dial(r.value).Ok?
  {
    match target
    case SocketAddr(sa) =>
      (match dial(sa) case Ok(_) => Ok(sa) case Err(k) => Err(k))
    case Domain(d, p) =>
      match resolve(d, p)
      case Err(k) => Err(k)
      case Ok(addrs) =>
        if addrs == [] then Err(HostUnreachable)
        else match dial(addrs[0]) case Ok(_) => Ok(addrs[0]) case Err(k) => Err(k)
  }

  /** `TokioConnect` dials exactly the address `resolve_dns` picks, and fails as it does. */
  lemma TokioConnectDialsResolved(target: TargetAddr, resolve: Resolver, dial: Dialer)
    ensures ResolveDns(target, resolve).Err? ==> TokioConnect(target, resolve, dial) == Err(ResolveDns(target, resolve).error)
    ensures ResolveDns(target, resolve).Ok? ==>
              var sa := ResolveDns(target, resolve).value.addr;
              TokioConnect(target, resolve, dial) == (if dial(sa).Ok? then Ok(sa) else Err(dial(sa).error))
  {
  }
}
