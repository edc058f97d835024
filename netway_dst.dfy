/** `DstAddr`, the destination address of the `netway` crate (crates/netway/src/dst.rs). */
module NetwayDst {
  import opened Wrappers
  import opened Text
  import opened IoKinds
  import opened IpAddrs

  datatype DstAddr = Socket(addr: SocketAddr) | Domain(domain: Bytes, port: Uint16)

  /** `Default for DstAddr`: the IPv4 socket address 0.0.0.0:0. */
  const DEFAULT: DstAddr := Socket(SocketV4(Ipv4(0, 0, 0, 0), 0))

  /** `From<SocketAddr> for DstAddr`. */
  function FromSocketAddr(sa: SocketAddr): (d: DstAddr)
    ensures d.Socket? && d.addr == sa
  {
    Socket(sa)
  }

  /** `Display for DstAddr`: the socket address's own text, or "domain:port". */
  function Show(d: DstAddr, sx: Ipv6Syntax): Bytes
  {
    match d
    case Socket(sa) => ShowSocketAddr(sa, sx)
    case Domain(name, p) => name + [COLON] + ShowNat(p)
  }

  /** The last ':' of a displayed domain target separates the name from the decimal port. */
  lemma ShowDomainSplits(name: Bytes, p: Uint16, sx: Ipv6Syntax)
    ensures var s := Show(Domain(name, p), sx);
            RFind(s, COLON) == Some(|name|) && s[..|name|] == name
            && ParseUnsigned(s[|name| + 1..], U16_MAX) == Some(p)
  {
    var s := Show(Domain(name, p), sx);
    ShowNatHasNo(p, COLON);
    assert s[|name| + 1..] == ShowNat(p);
    RFindAfter(name, ShowNat(p), COLON);
    ParseShowNat(p, U16_MAX);
  }

  /**
   * `ToSocketAddrs for DstAddr`: a socket address is returned as the only
   * candidate without a lookup; a domain goes to the resolver.
   */
  function ToSocketAddrs(d: DstAddr, resolve: (Bytes, Uint16) -> Result<seq<SocketAddr>, IoErrorKind>)
    : (r: Result<seq<SocketAddr>, IoErrorKind>)
    ensures d.Socket? ==> r == Ok([d.addr])
    ensures d.Domain? ==> r == resolve(d.domain, d.port)
  {
    match d
    case Socket(sa) => Ok([sa])
    case Domain(name, p) => resolve(name, p)
  }
}
