/** `TargetAddr`, the destination of the `proxy-io` crate (proxy-io/src/addr.rs). */
module ProxyAddr {
  import opened Wrappers
  import opened Text
  import opened IoKinds
  import opened IpAddrs

  datatype TargetAddr = SocketAddr(addr: IpAddrs.SocketAddr) | Domain(domain: Bytes, port: Uint16)

  /** `Default for TargetAddr`: 127.0.0.1:0 (the `netway` default is 0.0.0.0:0). */
  const DEFAULT: TargetAddr := SocketAddr(SocketV4(Ipv4(127, 0, 0, 1), 0))

  /** `Display for TargetAddr`. */
  function Show(t: TargetAddr, sx: Ipv6Syntax): (s: Bytes)
    ensures t.Domain? ==> RFind(s, COLON) == Some(|t.domain|) && s[..|t.domain|] == t.domain
                          && ParseUnsigned(s[|t.domain| + 1..], U16_MAX) == Some(t.port)
  {
    match t
    case SocketAddr(sa) => ShowSocketAddr(sa, sx)
    case Domain(name, p) =>
      ParseShowNat(p, U16_MAX);
      ShowNatHasNo(p, COLON);
      RFindAfter(name, ShowNat(p), COLON);
      var s := name + [COLON] + ShowNat(p);
      assert s[|name| + 1..] == ShowNat(p);
      s
  }

  /** `From<SocketAddr> for TargetAddr`. */
  function FromSocketAddr(sa: IpAddrs.SocketAddr): (t: TargetAddr)
    ensures t.SocketAddr? && t.addr == sa
  {
    SocketAddr(sa)
  }

  /** A lookup service: the addresses a name resolves to, or the I/O error of the lookup. */
  type Resolver = (Bytes, Uint16) -> Result<seq<IpAddrs.SocketAddr>, IoErrorKind>

  /** `ToSocketAddrs for TargetAddr`: a socket address is its own only candidate. */
  function ToSocketAddrs(t: TargetAddr, resolve: Resolver): (r: Result<seq<IpAddrs.SocketAddr>, IoErrorKind>)
    ensures t.SocketAddr? ==> r == Ok([t.addr])
    ensures t.Domain? ==> r == resolve(t.domain, t.port)
  {
    match t
    case SocketAddr(sa) => Ok([sa])
    case Domain(d, p) => resolve(d, p)
  }

  /**
   * `TargetAddr::resolve_dns`: a socket address is returned unchanged; a
   * domain becomes the first address of its lookup, and a lookup that finds
   * nothing is `HostUnreachable`.
   */
  function ResolveDns(t: TargetAddr, resolve: Resolver): (r: Result<TargetAddr, IoErrorKind>)
    ensures t.SocketAddr? ==> r == Ok(t)
    ensures r.Ok? ==> r.value.SocketAddr?
    ensures t.Domain? ==> match resolve(t.domain, t.port)
                          case Err(k) => r == Err(k)
                          case Ok(addrs) => if addrs == [] then r == Err(HostUnreachable)
                                            else r == Ok(SocketAddr(addrs[0]))
  {
    match t
    case SocketAddr(sa) => Ok(SocketAddr(sa))
    case Domain(d, p) =>
      match resolve(d, p)
      case Err(k) => Err(k)
      case Ok(addrs) => if addrs == [] then Err(HostUnreachable) else Ok(SocketAddr(addrs[0]))
  }

  /** Resolving twice is resolving once. */
  lemma ResolveDnsIdempotent(t: TargetAddr, resolve: Resolver)
    requires ResolveDns(t, resolve).Ok?
    ensures ResolveDns(ResolveDns(t, resolve).value, resolve) == ResolveDns(t, resolve)
  {
  }
}
