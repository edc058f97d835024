/**
 * The HTTP CONNECT tunnel of the `netway` crate (crates/netway/src/tunnel.rs):
 * the client side `proxy_connect`, the server side `ProxyServer::serve` with
 * `write_resp`, and the `ProxyDialer` that reaches a target through an
 * upstream tunnel proxy.
 *
 * As for the SOCKS5 handshakes, each step is a method over a `Socket`,
 * proved equal to a function over the `Wire` it starts from, and the
 * properties are lemmas about those functions.
 */
module NetwayTunnel {
  import opened Wrappers
  import opened Text
  import opened IoKinds
  import opened NetwayError
  import opened NetwayDst
  import opened NetwayAuth
  import IpAddrs
  import Base64
  import Utf8
  import opened Sockets
  import opened NetwayTunnelProtocol

  // ---- writing ----

  /** Write the messages in order, one `write_all` each; the first that fails ends the writing with its error. */
  function SendAll(w: Wire, msgs: seq<Bytes>): (Result<(), IoErrorKind>, Wire)
    decreases |msgs|
  {
    if msgs == [] then (Ok(()), w)
    else
      var (s, w1) := Send(w, msgs[0]);
      if s.Err? then (s, w1) else SendAll(w1, msgs[1..])
  }

  method WriteAll(socket: Socket, msgs: seq<Bytes>) returns (r: Result<(), IoErrorKind>)
    modifies socket
    ensures (r, socket.State()) == SendAll(old(socket.State()), msgs)
  {
    var i := 0;
    while i < |msgs|
      invariant 0 <= i <= |msgs|
      invariant SendAll(old(socket.State()), msgs) == SendAll(socket.State(), msgs[i..])
    {
      assert msgs[i..][1..] == msgs[i + 1..];
      var s := socket.Write(msgs[i]);
      if s.Err? {
        return s;
      }
      i := i + 1;
    }
    r := Ok(());
  }

  /** The events of writing each message. */
  function Writes(msgs: seq<Bytes>): (r: seq<Event>)
    ensures |r| == |msgs|
  {
    if msgs == [] then [] else [Wrote(msgs[0])] + Writes(msgs[1..])
  }

  /**
   * All messages are written while the peer accepts that many writes;
   * otherwise those it accepts are written and the wire's error is returned.
   */
  lemma {:induction false} SendAllOutcome(w: Wire, msgs: seq<Bytes>)
    ensures var (r, w1) := SendAll(w, msgs);
            var n := if w.writable < |msgs| then w.writable else |msgs|;
            && (r.Ok? <==> w.writable >= |msgs|)
            && (r.Err? ==> r.error == w.failure)
            && w1 == w.(events := w.events + Writes(msgs[..n]), writable := w.writable - n)
    decreases |msgs|
  {
    if msgs != [] && w.writable > 0 {
      var w1 := Send(w, msgs[0]).1;
      SendAllOutcome(w1, msgs[1..]);
      var n := if w.writable < |msgs| then w.writable else |msgs|;
      assert msgs[1..][..n - 1] == msgs[1..n];
      assert msgs[..n] == [msgs[0]] + msgs[1..n];
      assert Writes(msgs[..n]) == [Wrote(msgs[0])] + Writes(msgs[1..n]);
      assert w.events + [Wrote(msgs[0])] + Writes(msgs[1..n]) == w.events + Writes(msgs[..n]);
    } else {
      assert msgs[..0] == [];
    }
  }

  /** `write_resp`'s messages: the status line, one line per header, and the blank line. */
  function Response(sl: StatusLine, hs: seq<Header>): seq<Bytes>
  {
    [ShowStatusLine(sl) + CRLF] + HeaderText(hs) + [CRLF]
  }

  /** `write_resp`. */
  method WriteResp(socket: Socket, sl: StatusLine, hs: seq<Header>) returns (r: Result<(), IoErrorKind>)
    modifies socket
    ensures (r, socket.State()) == SendAll(old(socket.State()), Response(sl, hs))
  {
    r := WriteAll(socket, Response(sl, hs));
  }

  // ---- the client: proxy_connect ----

  const CONNECT: Bytes := Lit("CONNECT")
  const HTTP11: Bytes := Lit("HTTP/1.1")

  /**
   * The "host:port" the CONNECT request names for `target`: an "http://"
   * prefix means port 80, "https://" or no scheme port 443, and the port is
   * added only when the rest holds no ':'.
   */
  function ConnectHost(target: Bytes): Bytes
  {
    var (isHttp, host) :=
      match StripPrefix(target, Lit("http://"))
      case Some(h) => (true, h)
      case None =>
        (match StripPrefix(target, Lit("https://"))
         case Some(h) => (false, h)
         case None => (false, target));
    if COLON in host then host else host + [COLON] + (if isHttp then Lit("80") else Lit("443"))
  }

  /** `Proxy-Authorization: Basic <base64(username:password)>`. */
  function AuthorizationHeader(username: Bytes, password: Bytes): Header
  {
    Header(Lit("Proxy-Authorization"), Lit("Basic ") + Base64.Encode(username + [COLON] + password))
  }

  /** The headers of the CONNECT request; the credentials only under `Password`. */
  function ConnectHeaders(host: Bytes, auth: Authentication): seq<Header>
  {
    [Header(Lit("Host"), host), Header(Lit("Proxy-Connection"), Lit("keep-alive"))]
    + (match auth
       case NoAuth => []
       case Password(u, p) => [AuthorizationHeader(u, p)])
    + [Header(Lit("User-Agent"), Lit("easyproxy/1.0.0"))]
  }

  /** The messages `proxy_connect` writes: the request line, the headers and the blank line. */
  function ConnectRequest(host: Bytes, auth: Authentication): seq<Bytes>
  {
    [ShowRequestLine(RequestLine(CONNECT, host, HTTP11)) + CRLF] + HeaderText(ConnectHeaders(host, auth)) + [CRLF]
  }

  /** The header `proxy_connect` takes the body size from, as written. */
  const BODY_SIZE_HEADER_AS_WRITTEN: Bytes := Lit("content-type")

  /** The header it evidently means (its error message speaks of `content-length`), read by the corrected client. */
  const BODY_SIZE_HEADER: Bytes := Lit("content-length")

  predicate Names(h: Header, name: Bytes) { EqIgnoreAsciiCase(h.name, name) }

  /**
   * The body size the loop over the headers settles on, starting from
   * `size`: each header named `name` sets it to its value, and a value that
   * is not a `usize` ends the loop with no size.
   */
  function BodySize(hs: seq<Header>, name: Bytes, size: nat): Option<nat>
    decreases |hs|
  {
    if hs == [] then Some(size)
    else if Names(hs[0], name) then
      match ParseUnsigned(hs[0].value, USIZE_MAX)
      case None => None
      case Some(n) => BodySize(hs[1..], name, n)
    else BodySize(hs[1..], name, size)
  }

  /** The body-size loop of `proxy_connect`. */
  method BodySizeOf(hs: seq<Header>, name: Bytes) returns (r: Option<nat>)
    ensures r == BodySize(hs, name, 0)
  {
    var size := 0;
    var i := 0;
    while i < |hs|
      invariant 0 <= i <= |hs|
      invariant BodySize(hs, name, 0) == BodySize(hs[i..], name, size)
    {
      assert hs[i..][1..] == hs[i + 1..];
      if Names(hs[i], name) {
        var n := ParseUnsigned(hs[i].value, USIZE_MAX);
        if n.None? {
          return None;
        }
        size := n.value;
      }
      i := i + 1;
    }
    r := Some(size);
  }

  /** `read_exact` of `n` bytes: a stream that ends first is `UnexpectedEof`. */
  function ReadExact(n: nat): Bytes -> Result<((), Bytes), Fault>
  {
    s => if |s| >= n then Ok(((), s[n..])) else Err(IoFault(UnexpectedEof))
  }

  /** The status code: a `u16`, or `InvalidData`. */
  function StatusCode(status: Bytes): Result<nat, Fault>
  {
    match ParseUnsigned(status, U16_MAX)
    case None => Err(IoFault(InvalidData))
    case Some(code) => Ok(code)
  }

  /**
   * Reading the proxy's answer: the status line, the headers, a body of the
   * size the header `sizeHeader` announces, and then the status code.
   */
  function ReadResponse(w: Wire, sizeHeader: Bytes): (Result<nat, Fault>, Wire)
  {
    var (status, w1) := ReadStatusLine(w);
    if status.Err? then (Err(status.error), w1)
    else
      var (hs, w2) := ReadHeadersWire(w1);
      if hs.Err? then (Err(hs.error), w2)
      else
        match BodySize(hs.value, sizeHeader, 0)
        case None => (Err(IoFault(InvalidData)), w2)
        case Some(n) =>
          if n == 0 then (StatusCode(status.value.status), w2)
          else
            var (body, w3) := Recv(w2, ReadExact(n));
            if body.Err? then (Err(body.error), w3) else (StatusCode(status.value.status), w3)
  }

  /** `proxy_connect` with the body size taken from the header `sizeHeader`. */
  function ProxyConnectWith(w: Wire, target: Bytes, auth: Authentication, sizeHeader: Bytes): (Result<nat, Fault>, Wire)
  {
    var (sent, w1) := SendAll(w, ConnectRequest(ConnectHost(target), auth));
    if sent.Err? then (Err(IoFault(sent.error)), w1) else ReadResponse(w1, sizeHeader)
  }

  /** `proxy_connect` as written: the body size comes from `content-type`. */
  function ProxyConnectAsWritten(w: Wire, target: Bytes, auth: Authentication): (Result<nat, Fault>, Wire)
  {
    ProxyConnectWith(w, target, auth, BODY_SIZE_HEADER_AS_WRITTEN)
  }

  /** Reading the proxy's answer, step by step. */
  method ReadResponseOn(socket: Socket, sizeHeader: Bytes) returns (r: Result<nat, Fault>)
    modifies socket
    ensures (r, socket.State()) == ReadResponse(old(socket.State()), sizeHeader)
  {
    var line := socket.Read(ReadLine);
    if line.Err? {
      return Err(line.error);
    }
    var status := StatusLineOf(line.value);
    if status.Err? {
      return Err(status.error);
    }
    var hs := ReadHeaders(socket);
    if hs.Err? {
      return Err(hs.error);
    }
    var size := BodySizeOf(hs.value, sizeHeader);
    if size.None? {
      return Err(IoFault(InvalidData));
    }
    if size.value > 0 {
      var body := socket.Read(ReadExact(size.value));
      if body.Err? {
        return Err(body.error);
      }
    }
    r := StatusCode(status.value.status);
  }

  /** `proxy_connect` as written, step by step (the body size from `content-type`). */
  method ProxyConnect(socket: Socket, target: Bytes, auth: Authentication) returns (r: Result<nat, Fault>)
    modifies socket
    ensures (r, socket.State()) == ProxyConnectAsWritten(old(socket.State()), target, auth)
  {
    var sent := WriteAll(socket, ConnectRequest(ConnectHost(target), auth));
    if sent.Err? {
      return Err(IoFault(sent.error));
    }
    r := ReadResponseOn(socket, BODY_SIZE_HEADER_AS_WRITTEN);
  }

  // ---- the server: ProxyServer::serve ----

  /** What dialing the target gives the server. */
  type Dial = DstAddr -> Result<(), Error>

  /** What relaying between the client and the target ends with: the bytes copied each way, or an I/O error. */
  type RelayOutcome = Result<(nat, nat), IoErrorKind>

  /**
   * A header that carries the expected credentials: named
   * `Proxy-Authorization` in any ASCII case, whose trimmed value after
   * "Basic " (empty when that prefix is missing) decodes from base 64 to
   * UTF-8 text equal to "username:password".
   */
  predicate Authorizes(h: Header, username: Bytes, password: Bytes)
  {
    EqIgnoreAsciiCase(h.name, Lit("Proxy-Authorization"))
    && var encoded := (match StripPrefix(Trim(h.value), Lit("Basic ")) case Some(e) => e case None => []);
       match Base64.Decode(encoded)
       case None => false
       case Some(d) => Utf8.Valid(d) && d == username + [COLON] + password
  }

  /** The request may go on: no credentials are required, or a header carries them. */
  predicate Authorized(hs: seq<Header>, auth: Authentication)
  {
    match auth
    case NoAuth => true
    case Password(u, p) => exists i :: 0 <= i < |hs| && Authorizes(hs[i], u, p)
  }

  /** The loop of `serve` over the headers that sets `authed` when one of them passes `check`. */
  method AnyHeader(hs: seq<Header>, check: Header -> bool) returns (authed: bool)
    ensures authed <==> exists i :: 0 <= i < |hs| && check(hs[i])
  {
    authed := false;
    var i := 0;
    while i < |hs|
      invariant 0 <= i <= |hs|
      invariant authed <==> exists j :: 0 <= j < i && check(hs[j])
    {
      if check(hs[i]) {
        authed := true;
      }
      i := i + 1;
    }
  }

  const DENIED: StatusLine := StatusLine(HTTP11, Lit("407"), Lit("Proxy Authentication Required"))
  const CHALLENGE: Header := Header(Lit("Proxy-Authenticate"), Lit("Basic realm=Proxy Server"))
  const ESTABLISHED: StatusLine := StatusLine(HTTP11, Lit("200"), Lit("OK"))
  /** The 503 status line, with the message spelled as the server sends it. */
  const UNAVAILABLE: StatusLine := StatusLine(HTTP11, Lit("503"), Lit("Service Uavailable"))

  /**
   * The destination for the host of the request line: the text before its
   * last ':' and the port after it (0 when that is not a `u16`), or the whole
   * host and port 0.
   */
  function TargetOf(host: Bytes): DstAddr
  {
    match RFind(host, COLON)
    case None => Domain(host, 0)
    case Some(i) =>
      Domain(host[..i], match ParseUnsigned(host[i + 1..], U16_MAX) case Some(p) => p case None => 0)
  }

  /** Refuse a request without the credentials: a 407 with a Basic challenge, then `PermissionDenied`. */
  function Challenge(w: Wire): (Result<(nat, nat), Fault>, Wire)
  {
    var (sent, w1) := SendAll(w, Response(DENIED, [CHALLENGE]));
    (Err(IoFault(if sent.Err? then sent.error else PermissionDenied)), w1)
  }

  /** How the relay's end is reported: a target that already closed counts as nothing copied. */
  function RelayResult(relay: RelayOutcome): Result<(nat, nat), Fault>
  {
    match relay
    case Ok(n) => Ok(n)
    case Err(k) => if k == NotConnected then Ok((0, 0)) else Err(IoFault(k))
  }

  /**
   * Dial the target: on success answer 200 and relay (or shut the target down
   * when the answer cannot be written); on failure answer 503 and return the
   * dialer's error.
   */
  function ServeTarget(w: Wire, dst: DstAddr, dial: Dial, relay: RelayOutcome): (Result<(nat, nat), Fault>, Wire)
  {
    var w1 := Note(w, Dialed);
    if dial(dst).Ok? then
      var (sent, w2) := SendAll(w1, Response(ESTABLISHED, []));
      if sent.Err? then (Err(IoFault(sent.error)), Note(w2, ShutDown(Egress)))
      else (RelayResult(relay), Note(w2, Relayed))
    else
      var (sent, w2) := SendAll(w1, Response(UNAVAILABLE, []));
      (Err(if sent.Err? then IoFault(sent.error) else Raised(dial(dst).error)), w2)
  }

  /** `ProxyServer::serve` over a wire. */
  function ServeWire(w: Wire, auth: Authentication, dial: Dial, relay: RelayOutcome): (Result<(nat, nat), Fault>, Wire)
  {
    var (req, w1) := ReadRequestLine(w);
    if req.Err? then (Err(req.error), w1)
    else
      var (hs, w2) := ReadHeadersWire(w1);
      if hs.Err? then (Err(hs.error), w2)
      else if !Authorized(hs.value, auth) then Challenge(w2)
      else ServeTarget(w2, TargetOf(req.value.host), dial, relay)
  }

  /** Dialing and answering, step by step. */
  method ServeTargetOn(socket: Socket, dst: DstAddr, dial: Dial, relay: RelayOutcome) returns (r: Result<(nat, nat), Fault>)
    modifies socket
    ensures (r, socket.State()) == ServeTarget(old(socket.State()), dst, dial, relay)
  {
    socket.Mark(Dialed);
    var stream := dial(dst);
    if stream.Ok? {
      var sent := WriteResp(socket, ESTABLISHED, []);
      if sent.Err? {
        socket.Mark(ShutDown(Egress));
        return Err(IoFault(sent.error));
      }
      socket.Mark(Relayed);
      r := RelayResult(relay);
    } else {
      var sent := WriteResp(socket, UNAVAILABLE, []);
      if sent.Err? {
        return Err(IoFault(sent.error));
      }
      r := Err(Raised(stream.error));
    }
  }

  /** `ProxyServer::serve`, step by step. */
  method Serve(socket: Socket, auth: Authentication, dial: Dial, relay: RelayOutcome) returns (r: Result<(nat, nat), Fault>)
    modifies socket
    ensures (r, socket.State()) == ServeWire(old(socket.State()), auth, dial, relay)
  {
    ghost var w := socket.State();
    var line := socket.Read(ReadLine);
    if line.Err? {
      return Err(line.error);
    }
    var req := RequestLineOf(line.value);
    if req.Err? {
      return Err(req.error);
    }
    var hs := ReadHeaders(socket);
    if hs.Err? {
      return Err(hs.error);
    }
    ServeAfterHeaders(w, auth, dial, relay, req.value, hs.value, socket.State());
    r := AdmitOn(socket, auth, hs.value, TargetOf(req.value.host), dial, relay);
  }

  /** The rest of `serve` once the headers are in: the credentials check, then the dial. */
  method AdmitOn(socket: Socket, auth: Authentication, hs: seq<Header>, dst: DstAddr, dial: Dial, relay: RelayOutcome)
    returns (r: Result<(nat, nat), Fault>)
    modifies socket
    ensures (r, socket.State())
            == if !Authorized(hs, auth) then Challenge(old(socket.State())) else ServeTarget(old(socket.State()), dst, dial, relay)
  {
    if auth.Password? {
      var authed := AnyHeader(hs, h => Authorizes(h, auth.username, auth.password));
      if !authed {
        r := ChallengeOn(socket);
        return;
      }
    }
    r := ServeTargetOn(socket, dst, dial, relay);
  }

  /** The 407 answer with its challenge, step by step; the request is refused either way. */
  method ChallengeOn(socket: Socket) returns (r: Result<(nat, nat), Fault>)
    modifies socket
    ensures (r, socket.State()) == Challenge(old(socket.State()))
  {
    var sent := WriteResp(socket, DENIED, [CHALLENGE]);
    r := Err(IoFault(if sent.Err? then sent.error else PermissionDenied));
  }

  /** Once the request line and the headers are read, `serve` checks the credentials and dials. */
  lemma ServeAfterHeaders(w: Wire, auth: Authentication, dial: Dial, relay: RelayOutcome, req: RequestLine, hs: seq<Header>, w2: Wire)
    requires ReadRequestLine(w).0 == Ok(req) && ReadHeadersWire(ReadRequestLine(w).1) == (Ok(hs), w2)
    ensures ServeWire(w, auth, dial, relay)
            == if !Authorized(hs, auth) then Challenge(w2) else ServeTarget(w2, TargetOf(req.host), dial, relay)
  {
  }

  // ---- the dialer ----

  /** `ProxyDialer`: the upstream tunnel proxy and the credentials for it. */
  datatype ProxyDialer = ProxyDialer(proxyTarget: DstAddr, auth: Authentication)

  /**
   * `ProxyDialer::try_connect` over the stream to the proxy, given whether
   * the TCP connection to it was made: only status 200 yields the stream;
   * any other answer or error shuts it down and is `ProxyServerUnreachable`
   * (a panic stays a panic).
   */
  function TryConnectWire(d: ProxyDialer, tcp: Result<(), IoErrorKind>, w: Wire, dst: DstAddr, sx: IpAddrs.Ipv6Syntax)
    : (Result<(), Fault>, Wire)
  {
    if tcp.Err? then (Err(Raised(ProxyServerUnreachable)), w)
    else Settle(ProxyConnectAsWritten(w, Show(dst, sx), d.auth))
  }

  /** What `try_connect` makes of the proxy's answer and the stream after it. */
  function Settle(answer: (Result<nat, Fault>, Wire)): (Result<(), Fault>, Wire)
  {
    var (code, w1) := answer;
    if code == Ok(200) then (Ok(()), w1)
    else if code == Err(Panic) then (Err(Panic), w1)
    else (Err(Raised(ProxyServerUnreachable)), Note(w1, ShutDown(Peer)))
  }

  /** `ProxyDialer::try_connect`, step by step. */
  method TryConnect(d: ProxyDialer, tcp: Result<(), IoErrorKind>, socket: Socket, dst: DstAddr, sx: IpAddrs.Ipv6Syntax)
    returns (r: Result<(), Fault>)
    modifies socket
    ensures (r, socket.State()) == TryConnectWire(d, tcp, old(socket.State()), dst, sx)
  {
    if tcp.Err? {
      return Err(Raised(ProxyServerUnreachable));
    }
    var code := ProxyConnect(socket, Show(dst, sx), d.auth);
    if code == Ok(200) {
      r := Ok(());
    } else if code == Err(Panic) {
      r := Err(Panic);
    } else {
      socket.Mark(ShutDown(Peer));
      r := Err(Raised(ProxyServerUnreachable));
    }
  }

  // ---- properties: the target ----

  lemma PortLiterals()
    ensures Lit("80") == ShowNat(80) && Lit("443") == ShowNat(443)
  {
  }

  lemma NoSchemeWithoutColon(h: Bytes, scheme: Bytes, i: nat)
    requires i < |scheme| && scheme[i] == COLON && COLON !in h
    ensures !StartsWith(h, scheme)
  {
    if |scheme| <= |h| {
      assert h[..|scheme|][i] == h[i];
    }
  }

  /** A host without a port gets 80 after "http://", and 443 after "https://" or with no scheme. */
  lemma ConnectHostDefaultPort(h: Bytes)
    requires COLON !in h
    ensures ConnectHost(h) == h + [COLON] + ShowNat(443)
    ensures ConnectHost(Lit("http://") + h) == h + [COLON] + ShowNat(80)
    ensures ConnectHost(Lit("https://") + h) == h + [COLON] + ShowNat(443)
  {
    PortLiterals();
    assert Lit("http://")[4] == COLON && Lit("https://")[5] == COLON;
    NoSchemeWithoutColon(h, Lit("http://"), 4);
    NoSchemeWithoutColon(h, Lit("https://"), 5);
    assert (Lit("http://") + h)[..7] == Lit("http://");
    assert (Lit("https://") + h)[..8] == Lit("https://");
    assert (Lit("https://") + h)[4] != Lit("http://")[4];
  }

  /** A target that already names a port, and no scheme, is sent as it is. */
  lemma ConnectHostKeepsPort(t: Bytes)
    requires COLON in t && !StartsWith(t, Lit("http://")) && !StartsWith(t, Lit("https://"))
    ensures ConnectHost(t) == t
  {
  }

  /** The server reads "name:port" back as the domain `name` and that port. */
  lemma TargetOfShown(name: Bytes, p: Uint16)
    ensures TargetOf(name + [COLON] + ShowNat(p)) == Domain(name, p)
  {
    var s := name + [COLON] + ShowNat(p);
    IpAddrs.ShowNatHasNo(p, COLON);
    RFindAfter(name, ShowNat(p), COLON);
    assert s[..|name|] == name && s[|name| + 1..] == ShowNat(p);
    ParseShowNat(p, U16_MAX);
  }

  /** A host without ':' is dialed with port 0. */
  lemma TargetOfNoPort(host: Bytes)
    requires COLON !in host
    ensures TargetOf(host) == Domain(host, 0)
  {
  }

  /**
   * The host a client names without a port arrives at the server as that
   * domain with the scheme's default port; a domain target the dialer
   * displays arrives as itself.
   */
  lemma TargetThroughTunnel(h: Bytes, name: Bytes, p: Uint16, sx: IpAddrs.Ipv6Syntax)
    requires COLON !in h
    requires !StartsWith(Show(Domain(name, p), sx), Lit("http://")) && !StartsWith(Show(Domain(name, p), sx), Lit("https://"))
    ensures TargetOf(ConnectHost(h)) == Domain(h, 443)
    ensures TargetOf(ConnectHost(Lit("http://") + h)) == Domain(h, 80)
    ensures TargetOf(ConnectHost(Lit("https://") + h)) == Domain(h, 443)
    ensures TargetOf(ConnectHost(Show(Domain(name, p), sx))) == Domain(name, p)
  {
    ConnectHostDefaultPort(h);
    TargetOfShown(h, 443);
    TargetOfShown(h, 80);
    var t := Show(Domain(name, p), sx);
    assert t[|name|] == COLON;
    ConnectHostKeepsPort(t);
    TargetOfShown(name, p);
  }

  // ---- properties: the credentials ----

  /** The value of the client's header: "Basic " and the base 64 text, printable. */
  lemma AuthorizationValue(username: Bytes, password: Bytes)
    ensures var e := Base64.Encode(username + [COLON] + password);
            Printable(AuthorizationHeader(username, password).value)
            && StripPrefix(AuthorizationHeader(username, password).value, Lit("Basic ")) == Some(e)
  {
    var e := Base64.Encode(username + [COLON] + password);
    var v := Lit("Basic ") + e;
    assert |e| > 0;
    assert v[0] == 66;
    assert v[|v| - 1] == e[|e| - 1];
    assert forall i :: 0 <= i < |v| ==> 32 <= v[i] < 128 by {
      forall i | 0 <= i < |v| ensures 32 <= v[i] < 128 {
        if i >= 6 {
          assert v[i] == e[i - 6];
        }
      }
    }
    assert v[..6] == Lit("Basic ");
  }

  /**
   * The server accepts the client's `Proxy-Authorization` header exactly
   * when it expects the same "username:password" text.
   */
  lemma AuthorizationAccepted(username: Bytes, password: Bytes, u: Bytes, p: Bytes)
    requires Utf8.Valid(username) && Utf8.Valid(password)
    ensures Authorizes(AuthorizationHeader(username, password), u, p)
            <==> username + [COLON] + password == u + [COLON] + p
  {
    var h := AuthorizationHeader(username, password);
    var text := username + [COLON] + password;
    var e := Base64.Encode(text);
    assert EqIgnoreAsciiCase(h.name, Lit("Proxy-Authorization"))
           && StripPrefix(Trim(h.value), Lit("Basic ")) == Some(e) && Base64.Decode(e) == Some(text) by {
      AuthorizationDecodes(username, password);
    }
    assert Utf8.Valid(text) by {
      CredentialsValid(username, password);
    }
    AuthorizesWhen(h, u, p, e, text);
  }

  /** A header named right whose "Basic " value decodes to `d` authorizes exactly the credentials `d` spells. */
  lemma AuthorizesWhen(h: Header, u: Bytes, p: Bytes, e: Bytes, d: Bytes)
    requires EqIgnoreAsciiCase(h.name, Lit("Proxy-Authorization"))
    requires StripPrefix(Trim(h.value), Lit("Basic ")) == Some(e) && Base64.Decode(e) == Some(d)
    ensures Authorizes(h, u, p) <==> Utf8.Valid(d) && d == u + [COLON] + p
  {
  }

  /** The value of the credentials header decodes back to "username:password". */
  lemma AuthorizationDecodes(username: Bytes, password: Bytes)
    ensures var h := AuthorizationHeader(username, password);
            var text := username + [COLON] + password;
            && EqIgnoreAsciiCase(h.name, Lit("Proxy-Authorization"))
            && StripPrefix(Trim(h.value), Lit("Basic ")) == Some(Base64.Encode(text))
            && Base64.Decode(Base64.Encode(text)) == Some(text)
  {
    var h := AuthorizationHeader(username, password);
    AuthorizationValue(username, password);
    PrintableText(h.value);
    TrimNoSpace(h.value);
    Base64.DecodeEncode(username + [COLON] + password);
    assert EqIgnoreAsciiCase(h.name, Lit("Proxy-Authorization"));
  }

  /** "username:password" is UTF-8 when both halves are. */
  lemma CredentialsValid(username: Bytes, password: Bytes)
    requires Utf8.Valid(username) && Utf8.Valid(password)
    ensures Utf8.Valid(username + [COLON] + password)
  {
    Utf8.AsciiValid([COLON]);
    Utf8.ConcatValid(username, [COLON]);
    Utf8.ConcatValid(username + [COLON], password);
  }

  // ---- properties: the client's request as the server reads it ----

  lemma LiteralFacts()
    ensures Printable(CONNECT) && SPACE !in CONNECT
    ensures Printable(HTTP11) && SPACE !in HTTP11
  {
    StatusFieldLit("CONNECT");
    StatusFieldLit("HTTP/1.1");
  }

  lemma HostHeaderReadable(host: Bytes)
    requires Printable(host)
    ensures Readable(Header(Lit("Host"), host))
  {
    PrintableLit("Host");
    ColonFreeLit("Host");
    PrintableReadable(Header(Lit("Host"), host));
  }

  lemma KeepAliveReadable()
    ensures Readable(Header(Lit("Proxy-Connection"), Lit("keep-alive")))
  {
    PrintableLit("Proxy-Connection");
    ColonFreeLit("Proxy-Connection");
    PrintableLit("keep-alive");
    PrintableReadable(Header(Lit("Proxy-Connection"), Lit("keep-alive")));
  }

  lemma UserAgentReadable()
    ensures Readable(Header(Lit("User-Agent"), Lit("easyproxy/1.0.0")))
  {
    PrintableLit("User-Agent");
    ColonFreeLit("User-Agent");
    PrintableLit("easyproxy/1.0.0");
    PrintableReadable(Header(Lit("User-Agent"), Lit("easyproxy/1.0.0")));
  }

  lemma AuthorizationReadable(username: Bytes, password: Bytes)
    ensures Readable(AuthorizationHeader(username, password))
  {
    PrintableLit("Proxy-Authorization");
    ColonFreeLit("Proxy-Authorization");
    AuthorizationValue(username, password);
    PrintableReadable(AuthorizationHeader(username, password));
  }

  lemma ConnectHeadersReadable(host: Bytes, auth: Authentication)
    requires Printable(host)
    ensures forall i :: 0 <= i < |ConnectHeaders(host, auth)| ==> Readable(ConnectHeaders(host, auth)[i])
  {
    var hs := ConnectHeaders(host, auth);
    var last := Header(Lit("User-Agent"), Lit("easyproxy/1.0.0"));
    forall i | 0 <= i < |hs|
      ensures Readable(hs[i])
    {
      if i == 0 {
        HostHeaderReadable(host);
      } else if i == 1 {
        KeepAliveReadable();
      } else if i == |hs| - 1 {
        assert hs[i] == last;
        UserAgentReadable();
      } else {
        assert auth.Password? && hs[i] == AuthorizationHeader(auth.username, auth.password);
        AuthorizationReadable(auth.username, auth.password);
      }
    }
  }

  /** The lines of the request, one after the other. */
  lemma ConnectRequestText(host: Bytes, auth: Authentication)
    ensures Concat(ConnectRequest(host, auth))
            == ShowRequestLine(RequestLine(CONNECT, host, HTTP11)) + CRLF + Concat(HeaderText(ConnectHeaders(host, auth))) + CRLF
  {
    var first := [ShowRequestLine(RequestLine(CONNECT, host, HTTP11)) + CRLF];
    var hs := HeaderText(ConnectHeaders(host, auth));
    ConcatAppend(first + hs, [CRLF]);
    ConcatAppend(first, hs);
  }

  /**
   * What `proxy_connect` writes for a printable host with no space, the
   * server reads back as a CONNECT for that host (the protocol keeps its CR)
   * followed by the client's headers, and those headers carry the client's
   * credentials.
   */
  lemma ServerReadsConnectRequest(w: Wire, host: Bytes, auth: Authentication, rest: Bytes)
    requires Printable(host) && SPACE !in host
    requires auth.Password? ==> Utf8.Valid(auth.username) && Utf8.Valid(auth.password)
    requires w.unread == Concat(ConnectRequest(host, auth)) + rest
    ensures var (req, w1) := ReadRequestLine(w);
            && req == Ok(RequestLine(CONNECT, host, HTTP11 + [CR]))
            && ReadHeadersWire(w1) == (Ok(ConnectHeaders(host, auth)), w.(unread := rest))
    ensures Authorized(ConnectHeaders(host, auth), auth)
  {
    var hs := ConnectHeaders(host, auth);
    var tail := Concat(HeaderText(hs)) + CRLF + rest;
    ConnectRequestText(host, auth);
    AssocLast3(ShowRequestLine(RequestLine(CONNECT, host, HTTP11)), CRLF, Concat(HeaderText(hs)), CRLF, rest);
    ReadsConnectLine(w, host, tail);
    ConnectHeadersReadable(host, auth);
    ReadShownHeaders(w.(unread := tail), hs, rest);
    ConnectHeadersAuthorized(host, auth);
  }

  /** The server reads the request line of `proxy_connect` as a CONNECT for the host. */
  lemma ReadsConnectLine(w: Wire, host: Bytes, tail: Bytes)
    requires Printable(host) && SPACE !in host
    requires w.unread == ShowRequestLine(RequestLine(CONNECT, host, HTTP11)) + CRLF + tail
    ensures ReadRequestLine(w) == (Ok(RequestLine(CONNECT, host, HTTP11 + [CR])), w.(unread := tail))
  {
    var line := RequestLine(CONNECT, host, HTTP11);
    LiteralFacts();
    PrintableJoin(CONNECT, host);
    PrintableJoin(CONNECT + [SPACE] + host, HTTP11);
    PrintableText(ShowRequestLine(line));
    ReadShownRequestLine(w, line, tail);
    assert SPACE !in HTTP11 + [CR];
    assert Split(HTTP11 + [CR], SPACE) == [HTTP11 + [CR]];
  }

  /** The credentials header of `proxy_connect` passes the check of a server with the same credentials. */
  lemma ConnectHeadersAuthorized(host: Bytes, auth: Authentication)
    requires auth.Password? ==> Utf8.Valid(auth.username) && Utf8.Valid(auth.password)
    ensures Authorized(ConnectHeaders(host, auth), auth)
  {
    if auth.Password? {
      AuthorizationAccepted(auth.username, auth.password, auth.username, auth.password);
      assert ConnectHeaders(host, auth)[2] == AuthorizationHeader(auth.username, auth.password);
      AuthorizedBy(ConnectHeaders(host, auth), 2, auth.username, auth.password);
    }
  }

  /** One header that carries the credentials is enough. */
  lemma AuthorizedBy(hs: seq<Header>, i: nat, u: Bytes, p: Bytes)
    requires i < |hs| && Authorizes(hs[i], u, p)
    ensures Authorized(hs, Password(u, p))
  {
  }

  /**
   * A server with the same credentials as the client goes straight to
   * dialing the host the client named.
   */
  lemma ServeAcceptsClient(w: Wire, host: Bytes, auth: Authentication, dial: Dial, relay: RelayOutcome, rest: Bytes)
    requires Printable(host) && SPACE !in host
    requires auth.Password? ==> Utf8.Valid(auth.username) && Utf8.Valid(auth.password)
    requires w.unread == Concat(ConnectRequest(host, auth)) + rest
    ensures ServeWire(w, auth, dial, relay) == ServeTarget(w.(unread := rest), TargetOf(host), dial, relay)
  {
    ServerReadsConnectRequest(w, host, auth, rest);
  }

  // ---- properties: what the server answers ----

  /** Writing records only `Wrote` events. */
  lemma {:induction false} WritesOnlyWrote(msgs: seq<Bytes>)
    ensures forall i :: 0 <= i < |Writes(msgs)| ==> Writes(msgs)[i].Wrote?
  {
    if msgs != [] {
      WritesOnlyWrote(msgs[1..]);
    }
  }

  /**
   * Refusing the credentials writes the 407 answer with its
   * `Proxy-Authenticate` challenge and fails with `PermissionDenied` (or with
   * the error of the write that failed); nothing is dialed.
   */
  lemma ChallengeOutcome(w: Wire)
    ensures var (r, w1) := Challenge(w);
            var msgs := Response(DENIED, [CHALLENGE]);
            var n := if w.writable < 3 then w.writable else 3;
            && r == Err(IoFault(if w.writable >= 3 then PermissionDenied else w.failure))
            && w1 == w.(events := w.events + Writes(msgs[..n]), writable := w.writable - n)
            && Dialed !in w1.events[|w.events|..]
  {
    var msgs := Response(DENIED, [CHALLENGE]);
    assert |msgs| == 3;
    SendAllOutcome(w, msgs);
    var n := if w.writable < 3 then w.writable else 3;
    WritesOnlyWrote(msgs[..n]);
    var (sent, w2) := SendAll(w, msgs);
    assert sent.Ok? <==> w.writable >= 3;
    assert sent.Err? ==> sent.error == w.failure;
    var (r, w1) := Challenge(w);
    assert w1 == w2;
    assert r == Err(IoFault(if w.writable >= 3 then PermissionDenied else w.failure));
    assert w1 == w.(events := w.events + Writes(msgs[..n]), writable := w.writable - n);
    var ws := Writes(msgs[..n]);
    assert w1.events[|w.events|..] == ws;
    forall i | 0 <= i < |ws|
      ensures ws[i] != Dialed
    {
      assert ws[i].Wrote?;
    }
  }

  /**
   * After dialing: a failed dial is answered 503 and returns the dialer's
   * error; a successful one is answered 200 and then relayed, or, when the
   * 200 cannot be written, the target is shut down and the write error
   * returned.
   */
  lemma ServeTargetOutcome(w: Wire, dst: DstAddr, dial: Dial, relay: RelayOutcome)
    ensures var (r, w1) := ServeTarget(w, dst, dial, relay);
            var n := if w.writable < 2 then w.writable else 2;
            && (dial(dst).Err? ==>
                  && r == Err(if w.writable >= 2 then Raised(dial(dst).error) else IoFault(w.failure))
                  && w1.events == w.events + [Dialed] + Writes(Response(UNAVAILABLE, [])[..n]))
            && (dial(dst).Ok? && w.writable >= 2 ==>
                  && r == RelayResult(relay)
                  && w1.events == w.events + [Dialed] + Writes(Response(ESTABLISHED, [])) + [Relayed])
            && (dial(dst).Ok? && w.writable < 2 ==>
                  && r == Err(IoFault(w.failure))
                  && w1.events == w.events + [Dialed] + Writes(Response(ESTABLISHED, [])[..n]) + [ShutDown(Egress)])
            && w1.unread == w.unread && w1.writable == w.writable - n
  {
    var w0 := Note(w, Dialed);
    assert |Response(UNAVAILABLE, [])| == 2 && |Response(ESTABLISHED, [])| == 2;
    SendAllOutcome(w0, Response(UNAVAILABLE, []));
    SendAllOutcome(w0, Response(ESTABLISHED, []));
    assert Response(ESTABLISHED, [])[..2] == Response(ESTABLISHED, []);
  }

  lemma {:induction false} ReadsPreserveEvents(w: Wire)
    ensures ReadRequestLine(w).1.events == w.events && ReadRequestLine(w).1.writable == w.writable
    ensures ReadHeadersWire(w).1.events == w.events && ReadHeadersWire(w).1.writable == w.writable
  {
  }

  /**
   * `serve` dials the target exactly when the request line and the headers
   * were read and the headers carry the credentials the server expects.
   */
  lemma DialOnlyWhenAuthorized(w: Wire, auth: Authentication, dial: Dial, relay: RelayOutcome)
    requires Dialed !in w.events
    ensures var (req, w1) := ReadRequestLine(w);
            var (hs, w2) := ReadHeadersWire(w1);
            Dialed in ServeWire(w, auth, dial, relay).1.events
            <==> req.Ok? && hs.Ok? && Authorized(hs.value, auth)
  {
    var (req, w1) := ReadRequestLine(w);
    var (hs, w2) := ReadHeadersWire(w1);
    ReadsPreserveEvents(w);
    ReadsPreserveEvents(w1);
    if req.Ok? && hs.Ok? {
      if Authorized(hs.value, auth) {
        ServeTargetOutcome(w2, TargetOf(req.value.host), dial, relay);
        var e := ServeWire(w, auth, dial, relay).1.events;
        assert e[|w.events|] == Dialed;
      } else {
        ChallengeOutcome(w2);
        var e := ServeWire(w, auth, dial, relay).1.events;
        assert e == w.events + e[|w.events|..];
      }
    }
  }

  // ---- properties: the answer as the client reads it ----

  /** The lines of an answer, one after the other. */
  lemma ResponseText(sl: StatusLine, hs: seq<Header>)
    ensures Concat(Response(sl, hs)) == ShowStatusLine(sl) + CRLF + Concat(HeaderText(hs)) + CRLF
  {
    var first := [ShowStatusLine(sl) + CRLF];
    var ls := HeaderText(hs);
    ConcatAppend(first + ls, [CRLF]);
    ConcatAppend(first, ls);
  }

  /** The status line and the headers of an answer written by `write_resp` read back as written. */
  lemma ReadsResponseHead(w: Wire, sl: StatusLine, hs: seq<Header>, after: Bytes)
    requires SPACE !in sl.protocol && SPACE !in sl.status
    requires LF !in ShowStatusLine(sl) && Utf8.Valid(ShowStatusLine(sl))
    requires forall i :: 0 <= i < |hs| ==> Readable(hs[i])
    requires w.unread == Concat(Response(sl, hs)) + after
    ensures ReadStatusLine(w).0.Ok? && ReadStatusLine(w).0.value.status == sl.status
    ensures ReadHeadersWire(ReadStatusLine(w).1) == (Ok(hs), w.(unread := after))
  {
    var tail := Concat(HeaderText(hs)) + CRLF + after;
    ResponseThen(sl, hs, after);
    ReadShownStatusLine(w, sl, tail);
    ReadShownHeaders(w.(unread := tail), hs, after);
  }

  /** An answer followed by more bytes: the status line, then the header lines and what follows. */
  lemma ResponseThen(sl: StatusLine, hs: seq<Header>, after: Bytes)
    ensures Concat(Response(sl, hs)) + after == ShowStatusLine(sl) + CRLF + (Concat(HeaderText(hs)) + CRLF + after)
  {
    ResponseText(sl, hs);
  }

  /**
   * An answer written by `write_resp`, followed by a body of the size its
   * headers announce, is read whole by `proxy_connect`, which returns the
   * status code and leaves what follows unread.
   */
  lemma ReadsResponse(w: Wire, sl: StatusLine, hs: seq<Header>, body: Bytes, rest: Bytes, sizeHeader: Bytes)
    requires SPACE !in sl.protocol && SPACE !in sl.status
    requires LF !in ShowStatusLine(sl) && Utf8.Valid(ShowStatusLine(sl))
    requires forall i :: 0 <= i < |hs| ==> Readable(hs[i])
    requires BodySize(hs, sizeHeader, 0) == Some(|body|)
    requires w.unread == Concat(Response(sl, hs)) + body + rest
    ensures ReadResponse(w, sizeHeader) == (StatusCode(sl.status), w.(unread := rest))
  {
    ReadsHeadBeforeBody(w, sl, hs, body, rest);
    ReadsBody(w.(unread := body + rest), body, rest);
    ReadsAfterHead(w, sl.status, hs, body, rest, sizeHeader);
  }

  lemma ReadsHeadBeforeBody(w: Wire, sl: StatusLine, hs: seq<Header>, body: Bytes, rest: Bytes)
    requires SPACE !in sl.protocol && SPACE !in sl.status
    requires LF !in ShowStatusLine(sl) && Utf8.Valid(ShowStatusLine(sl))
    requires forall i :: 0 <= i < |hs| ==> Readable(hs[i])
    requires w.unread == Concat(Response(sl, hs)) + body + rest
    ensures ReadStatusLine(w).0.Ok? && ReadStatusLine(w).0.value.status == sl.status
    ensures ReadHeadersWire(ReadStatusLine(w).1) == (Ok(hs), w.(unread := body + rest))
  {
    assert w.unread == Concat(Response(sl, hs)) + (body + rest);
    ReadsResponseHead(w, sl, hs, body + rest);
  }

  /** A body of the size asked for is read whole. */
  lemma ReadsBody(w: Wire, body: Bytes, rest: Bytes)
    requires w.unread == body + rest
    ensures |body| > 0 ==> Recv(w, ReadExact(|body|)) == (Ok(()), w.(unread := rest))
    ensures |body| == 0 ==> w == w.(unread := rest)
  {
    assert (body + rest)[|body|..] == rest;
  }

  /** Once the head is read, `proxy_connect` reads the body the headers announce and returns the status. */
  lemma ReadsAfterHead(w: Wire, status: Bytes, hs: seq<Header>, body: Bytes, rest: Bytes, sizeHeader: Bytes)
    requires ReadStatusLine(w).0.Ok? && ReadStatusLine(w).0.value.status == status
    requires ReadHeadersWire(ReadStatusLine(w).1) == (Ok(hs), w.(unread := body + rest))
    requires BodySize(hs, sizeHeader, 0) == Some(|body|)
    requires |body| > 0 ==> Recv(w.(unread := body + rest), ReadExact(|body|)) == (Ok(()), w.(unread := rest))
    requires |body| == 0 ==> w.(unread := body + rest) == w.(unread := rest)
    ensures ReadResponse(w, sizeHeader) == (StatusCode(status), w.(unread := rest))
  {
  }

  lemma Code200()
    ensures StatusCode(Lit("200")) == Ok(200)
  {
    assert Lit("200") == ShowNat(200);
    ParseShowNat(200, U16_MAX);
  }

  lemma Code407()
    ensures StatusCode(Lit("407")) == Ok(407)
  {
    assert Lit("407") == ShowNat(407);
    ParseShowNat(407, U16_MAX);
  }

  lemma EstablishedShown()
    ensures LF !in ShowStatusLine(ESTABLISHED) && Utf8.Valid(ShowStatusLine(ESTABLISHED))
    ensures SPACE !in ESTABLISHED.protocol && SPACE !in ESTABLISHED.status
  {
    StatusFieldLit("HTTP/1.1");
    StatusFieldLit("200");
    PrintableLit("OK");
    PrintableJoin(HTTP11, Lit("200"));
    PrintableJoin(HTTP11 + [SPACE] + Lit("200"), Lit("OK"));
    PrintableText(ShowStatusLine(ESTABLISHED));
  }

  /** An ASCII text of printable characters with no space at either end is `Printable`. */
  lemma PrintableLit(s: string)
    requires s != [] && s[0] != ' ' && s[|s| - 1] != ' '
    requires forall i :: 0 <= i < |s| ==> ' ' <= s[i] <= '~'
    ensures Printable(Lit(s))
  {
  }

  /** A status-line field written as a literal: printable and without spaces. */
  lemma StatusFieldLit(s: string)
    requires s != [] && ' ' !in s
    requires forall i :: 0 <= i < |s| ==> ' ' < s[i] <= '~'
    ensures Printable(Lit(s)) && SPACE !in Lit(s)
  {
  }

  lemma ColonFreeLit(s: string)
    requires ':' !in s
    requires forall i :: 0 <= i < |s| ==> ' ' <= s[i] <= '~'
    ensures COLON !in Lit(s)
  {
  }

  lemma DeniedMessagePrintable()
    ensures Printable(Lit("Proxy Authentication Required"))
  {
    PrintableLit("Proxy Authentication Required");
  }

  lemma DeniedShown()
    ensures LF !in ShowStatusLine(DENIED) && Utf8.Valid(ShowStatusLine(DENIED))
    ensures SPACE !in DENIED.protocol && SPACE !in DENIED.status
  {
    StatusFieldLit("HTTP/1.1");
    StatusFieldLit("407");
    DeniedMessagePrintable();
    PrintableJoin(HTTP11, Lit("407"));
    PrintableJoin(HTTP11 + [SPACE] + Lit("407"), Lit("Proxy Authentication Required"));
    PrintableText(ShowStatusLine(DENIED));
  }

  lemma ChallengeNamePrintable()
    ensures Printable(Lit("Proxy-Authenticate")) && COLON !in Lit("Proxy-Authenticate")
  {
    PrintableLit("Proxy-Authenticate");
    ColonFreeLit("Proxy-Authenticate");
  }

  lemma ChallengeValuePrintable()
    ensures Printable(Lit("Basic realm=Proxy Server"))
  {
    PrintableLit("Basic realm=Proxy Server");
  }

  lemma ChallengeReadable()
    ensures Readable(CHALLENGE)
  {
    ChallengeNamePrintable();
    ChallengeValuePrintable();
    PrintableReadable(CHALLENGE);
  }

  lemma ChallengeHasNoSize(name: Bytes)
    requires |name| != |CHALLENGE.name|
    ensures BodySize([CHALLENGE], name, 0) == Some(0)
  {
    assert [CHALLENGE][1..] == [];
  }

  /** An answer that announces no body is read whole, and what follows it is left unread. */
  lemma ReadsBodilessResponse(w: Wire, sl: StatusLine, hs: seq<Header>, after: Bytes, sizeHeader: Bytes)
    requires SPACE !in sl.protocol && SPACE !in sl.status
    requires LF !in ShowStatusLine(sl) && Utf8.Valid(ShowStatusLine(sl))
    requires forall i :: 0 <= i < |hs| ==> Readable(hs[i])
    requires BodySize(hs, sizeHeader, 0) == Some(0)
    requires w.unread == Concat(Response(sl, hs)) + after
    ensures ReadResponse(w, sizeHeader) == (StatusCode(sl.status), w.(unread := after))
  {
    assert w.unread == Concat(Response(sl, hs)) + [] + after;
    ReadsResponse(w, sl, hs, [], after, sizeHeader);
  }

  /** The server's 200 answer reads as status 200 with nothing left of it. */
  lemma ReadsEstablished(w: Wire, rest: Bytes, sizeHeader: Bytes)
    requires w.unread == Concat(Response(ESTABLISHED, [])) + rest
    ensures ReadResponse(w, sizeHeader) == (Ok(200), w.(unread := rest))
  {
    EstablishedShown();
    assert Concat(Response(ESTABLISHED, [])) + rest == Concat(Response(ESTABLISHED, [])) + [] + rest;
    ReadsResponse(w, ESTABLISHED, [], [], rest, sizeHeader);
    Code200();
  }

  /** The server's 407 answer reads as status 407 with nothing left of it. */
  lemma ReadsDenied(w: Wire, rest: Bytes, sizeHeader: Bytes)
    requires |sizeHeader| != |CHALLENGE.name|
    requires w.unread == Concat(Response(DENIED, [CHALLENGE])) + rest
    ensures ReadResponse(w, sizeHeader) == (Ok(407), w.(unread := rest))
  {
    DeniedShown();
    ChallengeReadable();
    ChallengeHasNoSize(sizeHeader);
    assert Concat(Response(DENIED, [CHALLENGE])) + rest == Concat(Response(DENIED, [CHALLENGE])) + [] + rest;
    ReadsResponse(w, DENIED, [CHALLENGE], [], rest, sizeHeader);
    Code407();
  }

  // ---- properties: the body-size header (a finding) ----

  /**
   * What the body-size loop settles on: no size when some header of that
   * name holds no `usize`; otherwise the value of the last header of that
   * name, or the starting size when there is none.
   */
  lemma BodySizeMeaning(hs: seq<Header>, name: Bytes, size: nat)
    ensures BodySize(hs, name, size).None?
            <==> exists i :: 0 <= i < |hs| && Names(hs[i], name) && ParseUnsigned(hs[i].value, USIZE_MAX).None?
    ensures (forall i :: 0 <= i < |hs| ==> !Names(hs[i], name)) ==> BodySize(hs, name, size) == Some(size)
    ensures forall i :: 0 <= i < |hs| && Names(hs[i], name) && (forall j :: i < j < |hs| ==> !Names(hs[j], name))
                        && BodySize(hs, name, size).Some?
                        ==> BodySize(hs, name, size) == ParseUnsigned(hs[i].value, USIZE_MAX)
  {
    BodySizeNone(hs, name, size);
    BodySizeAbsent(hs, name, size);
    forall i | 0 <= i < |hs| && Names(hs[i], name) && (forall j :: i < j < |hs| ==> !Names(hs[j], name))
               && BodySize(hs, name, size).Some?
      ensures BodySize(hs, name, size) == ParseUnsigned(hs[i].value, USIZE_MAX)
    {
      BodySizeLast(hs, name, size, i);
    }
  }

  /** No size comes out exactly when some header of that name holds no `usize`. */
  lemma {:induction false} BodySizeNone(hs: seq<Header>, name: Bytes, size: nat)
    ensures BodySize(hs, name, size).None?
            <==> exists i :: 0 <= i < |hs| && Names(hs[i], name) && ParseUnsigned(hs[i].value, USIZE_MAX).None?
    decreases |hs|
  {
    if hs != [] {
      var tail := hs[1..];
      var next := if Names(hs[0], name) && ParseUnsigned(hs[0].value, USIZE_MAX).Some?
                  then ParseUnsigned(hs[0].value, USIZE_MAX).value else size;
      BodySizeNone(tail, name, next);
      if !(Names(hs[0], name) && ParseUnsigned(hs[0].value, USIZE_MAX).None?) {
        assert BodySize(hs, name, size) == BodySize(tail, name, next);
        if BodySize(hs, name, size).None? {
          var k :| 0 <= k < |tail| && Names(tail[k], name) && ParseUnsigned(tail[k].value, USIZE_MAX).None?;
          assert hs[k + 1] == tail[k];
        }
        if exists i :: 0 <= i < |hs| && Names(hs[i], name) && ParseUnsigned(hs[i].value, USIZE_MAX).None? {
          var i :| 0 <= i < |hs| && Names(hs[i], name) && ParseUnsigned(hs[i].value, USIZE_MAX).None?;
          assert tail[i - 1] == hs[i];
        }
      }
    }
  }

  /** With no header of that name, the starting size stands. */
  lemma {:induction false} BodySizeAbsent(hs: seq<Header>, name: Bytes, size: nat)
    ensures (forall i :: 0 <= i < |hs| ==> !Names(hs[i], name)) ==> BodySize(hs, name, size) == Some(size)
    decreases |hs|
  {
    if hs != [] && forall i :: 0 <= i < |hs| ==> !Names(hs[i], name) {
      var tail := hs[1..];
      assert forall j :: 0 <= j < |tail| ==> !Names(tail[j], name) by {
        forall j | 0 <= j < |tail| ensures !Names(tail[j], name) {
          assert tail[j] == hs[j + 1];
        }
      }
      BodySizeAbsent(tail, name, size);
    }
  }

  /** When a size comes out, it is the value of the last header of that name. */
  lemma {:induction false} BodySizeLast(hs: seq<Header>, name: Bytes, size: nat, i: nat)
    requires i < |hs| && Names(hs[i], name) && forall j :: i < j < |hs| ==> !Names(hs[j], name)
    requires BodySize(hs, name, size).Some?
    ensures BodySize(hs, name, size) == ParseUnsigned(hs[i].value, USIZE_MAX)
    decreases i
  {
    var tail := hs[1..];
    if i == 0 {
      assert forall j :: 0 <= j < |tail| ==> !Names(tail[j], name) by {
        forall j | 0 <= j < |tail| ensures !Names(tail[j], name) {
          assert tail[j] == hs[j + 1];
        }
      }
      BodySizeAbsent(tail, name, ParseUnsigned(hs[0].value, USIZE_MAX).value);
    } else {
      var next := if Names(hs[0], name) && ParseUnsigned(hs[0].value, USIZE_MAX).Some?
                  then ParseUnsigned(hs[0].value, USIZE_MAX).value else size;
      assert BodySize(hs, name, size) == BodySize(tail, name, next);
      assert tail[i - 1] == hs[i];
      assert forall j :: i - 1 < j < |tail| ==> !Names(tail[j], name) by {
        forall j | i - 1 < j < |tail| ensures !Names(tail[j], name) {
          assert tail[j] == hs[j + 1];
        }
      }
      BodySizeLast(tail, name, next, i - 1);
    }
  }

  /** An answer with a `Content-Type` header, as the proxy in front of a web server may send. */
  const HTML_TYPE: Header := Header(Lit("Content-Type"), Lit("text/html"))

  /** An answer's `Content-Length` header for a body of `n` bytes. */
  function LengthHeader(n: nat): Header
  {
    Header(Lit("Content-Length"), ShowNat(n))
  }

  lemma HtmlTypeReadable()
    ensures Readable(HTML_TYPE)
  {
    PrintableLit("Content-Type");
    ColonFreeLit("Content-Type");
    PrintableLit("text/html");
    PrintableReadable(HTML_TYPE);
  }

  lemma LengthHeaderReadable(n: nat)
    ensures Readable(LengthHeader(n))
  {
    PrintableLit("Content-Length");
    ColonFreeLit("Content-Length");
    assert Printable(ShowNat(n));
    PrintableReadable(LengthHeader(n));
  }

  lemma HtmlTypeNamed()
    ensures Names(HTML_TYPE, BODY_SIZE_HEADER_AS_WRITTEN) && !Names(HTML_TYPE, BODY_SIZE_HEADER)
  {
  }

  lemma LengthHeaderNamed(n: nat)
    ensures Names(LengthHeader(n), BODY_SIZE_HEADER) && !Names(LengthHeader(n), BODY_SIZE_HEADER_AS_WRITTEN)
  {
  }

  lemma HtmlIsNoSize()
    ensures ParseUnsigned(Lit("text/html"), USIZE_MAX) == None
  {
    assert !IsDigit(Lit("text/html")[0]);
  }

  /** The body sizes the two header names give for the answers above. */
  lemma BodySizes(n: nat)
    requires n <= USIZE_MAX
    ensures BodySize([HTML_TYPE], BODY_SIZE_HEADER_AS_WRITTEN, 0) == None
    ensures BodySize([HTML_TYPE], BODY_SIZE_HEADER, 0) == Some(0)
    ensures BodySize([LengthHeader(n)], BODY_SIZE_HEADER, 0) == Some(n)
    ensures BodySize([LengthHeader(n)], BODY_SIZE_HEADER_AS_WRITTEN, 0) == Some(0)
  {
    HtmlTypeNamed();
    LengthHeaderNamed(n);
    HtmlIsNoSize();
    ParseShowNat(n, USIZE_MAX);
    assert [HTML_TYPE][1..] == [] && [LengthHeader(n)][1..] == [];
  }

  /**
   * As written: a proxy that accepts the tunnel with `200 OK` and a
   * `Content-Type: text/html` header is refused with `InvalidData`, since
   * "text/html" is not a number.
   */
  lemma AsWrittenRejectsContentType(w: Wire, rest: Bytes)
    requires w.unread == Concat(Response(ESTABLISHED, [HTML_TYPE])) + rest
    ensures ReadResponse(w, BODY_SIZE_HEADER_AS_WRITTEN) == (Err(IoFault(InvalidData)), w.(unread := rest))
  {
    EstablishedShown();
    HtmlTypeReadable();
    BodySizes(0);
    ReadsResponseHead(w, ESTABLISHED, [HTML_TYPE], rest);
  }

  /**
   * As written: the body a `Content-Length` header announces is left unread,
   * so it would reach the tunnel's user as if the target had sent it.
   */
  lemma AsWrittenLeavesBody(w: Wire, body: Bytes, rest: Bytes)
    requires |body| <= USIZE_MAX
    requires w.unread == Concat(Response(ESTABLISHED, [LengthHeader(|body|)])) + (body + rest)
    ensures ReadResponse(w, BODY_SIZE_HEADER_AS_WRITTEN) == (Ok(200), w.(unread := body + rest))
  {
    EstablishedShown();
    LengthHeaderReadable(|body|);
    BodySizes(|body|);
    ReadsBodilessResponse(w, ESTABLISHED, [LengthHeader(|body|)], body + rest, BODY_SIZE_HEADER_AS_WRITTEN);
    Code200();
  }

  /** Corrected: the same `Content-Type` answer is accepted as status 200. */
  lemma AcceptsContentType(w: Wire, rest: Bytes)
    requires w.unread == Concat(Response(ESTABLISHED, [HTML_TYPE])) + rest
    ensures ReadResponse(w, BODY_SIZE_HEADER) == (Ok(200), w.(unread := rest))
  {
    EstablishedShown();
    HtmlTypeReadable();
    BodySizes(0);
    assert w.unread == Concat(Response(ESTABLISHED, [HTML_TYPE])) + [] + rest;
    ReadsResponse(w, ESTABLISHED, [HTML_TYPE], [], rest, BODY_SIZE_HEADER);
    Code200();
  }

  /** Corrected: the announced body is consumed and what follows it is the tunnel's first data. */
  lemma ConsumesBody(w: Wire, body: Bytes, rest: Bytes)
    requires |body| <= USIZE_MAX
    requires w.unread == Concat(Response(ESTABLISHED, [LengthHeader(|body|)])) + body + rest
    ensures ReadResponse(w, BODY_SIZE_HEADER) == (Ok(200), w.(unread := rest))
  {
    EstablishedShown();
    LengthHeaderReadable(|body|);
    BodySizes(|body|);
    ReadsResponse(w, ESTABLISHED, [LengthHeader(|body|)], body, rest, BODY_SIZE_HEADER);
    Code200();
  }

  // ---- properties: the dialer against a tunnel server ----

  /** Once the request is written, `proxy_connect` is reading the answer. */
  lemma ProxyConnectSends(w: Wire, target: Bytes, auth: Authentication, sizeHeader: Bytes)
    requires w.writable >= |ConnectRequest(ConnectHost(target), auth)|
    ensures var msgs := ConnectRequest(ConnectHost(target), auth);
            ProxyConnectWith(w, target, auth, sizeHeader)
            == ReadResponse(w.(events := w.events + Writes(msgs), writable := w.writable - |msgs|), sizeHeader)
  {
    var msgs := ConnectRequest(ConnectHost(target), auth);
    SendAllOutcome(w, msgs);
    assert msgs[..|msgs|] == msgs;
  }

  /** A dialer whose proxy answers 200 gets the stream, with nothing of the answer left unread. */
  lemma DialerAcceptsEstablished(d: ProxyDialer, w: Wire, dst: DstAddr, sx: IpAddrs.Ipv6Syntax, rest: Bytes)
    requires w.writable >= |ConnectRequest(ConnectHost(Show(dst, sx)), d.auth)|
    requires w.unread == Concat(Response(ESTABLISHED, [])) + rest
    ensures var (r, w1) := TryConnectWire(d, Ok(()), w, dst, sx);
            r == Ok(()) && w1.unread == rest
  {
    var msgs := ConnectRequest(ConnectHost(Show(dst, sx)), d.auth);
    var w1 := w.(events := w.events + Writes(msgs), writable := w.writable - |msgs|);
    ProxyConnectSends(w, Show(dst, sx), d.auth, BODY_SIZE_HEADER_AS_WRITTEN);
    ReadsEstablished(w1, rest, BODY_SIZE_HEADER_AS_WRITTEN);
    assert ProxyConnectAsWritten(w, Show(dst, sx), d.auth) == (Ok(200), w1.(unread := rest));
  }

  /** A dialer whose proxy refuses its credentials shuts the stream down and reports the proxy unreachable. */
  lemma DialerRejectsDenied(d: ProxyDialer, w: Wire, dst: DstAddr, sx: IpAddrs.Ipv6Syntax, rest: Bytes)
    requires w.writable >= |ConnectRequest(ConnectHost(Show(dst, sx)), d.auth)|
    requires w.unread == Concat(Response(DENIED, [CHALLENGE])) + rest
    ensures var (r, w1) := TryConnectWire(d, Ok(()), w, dst, sx);
            r == Err(Raised(ProxyServerUnreachable)) && w1.events[|w1.events| - 1] == ShutDown(Peer)
  {
    var msgs := ConnectRequest(ConnectHost(Show(dst, sx)), d.auth);
    var w1 := w.(events := w.events + Writes(msgs), writable := w.writable - |msgs|);
    ProxyConnectSends(w, Show(dst, sx), d.auth, BODY_SIZE_HEADER_AS_WRITTEN);
    ReadsDenied(w1, rest, BODY_SIZE_HEADER_AS_WRITTEN);
    DialerRejectsCode(d, w, dst, sx, 407, w1.(unread := rest));
  }

  /** Any status other than 200 shuts the stream to the proxy down. */
  lemma DialerRejectsCode(d: ProxyDialer, w: Wire, dst: DstAddr, sx: IpAddrs.Ipv6Syntax, code: nat, w1: Wire)
    requires code != 200 && ProxyConnectAsWritten(w, Show(dst, sx), d.auth) == (Ok(code), w1)
    ensures TryConnectWire(d, Ok(()), w, dst, sx) == (Err(Raised(ProxyServerUnreachable)), Note(w1, ShutDown(Peer)))
  {
    assert TryConnectWire(d, Ok(()), w, dst, sx) == Settle((Ok(code), w1));
  }
}
