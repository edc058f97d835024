/**
 * The HTTP CONNECT server of the `proxy-tunnel` crate
 * (proxy-tunnel/src/lib.rs): where a CONNECT goes (`host_addr`), the
 * credential check with its 400 / 401 / 407 answers, the immediate 200,
 * and the spawned tokio task that dials the target once the connection is upgraded.
 */
module ProxyTunnelServer {
  import opened Wrappers
  import opened Text
  import opened IoKinds
  import opened ProxyAddr
  import opened Sockets
  import ProxyAuth
  import Base64
  import Utf8
  import PTC = ProxyTunnelClient

  // ---- the request ----

  datatype Scheme = Http | Https | OtherScheme(name: Bytes)

  /** The authority of a request target: a host and, when written, a port. */
  datatype Authority = Authority(host: Bytes, port: Option<Uint16>)

  /** The parts of a request target the server looks at. */
  datatype Uri = Uri(scheme: Option<Scheme>, authority: Option<Authority>)

  /**
   * What `call` reads of a request: the method, the target, and the first
   * `Proxy-Authorization` value (`None` when the header is absent).
   */
  datatype Request = Request(verb: Bytes, uri: Uri, authorization: Option<Bytes>)

  const CONNECT: Bytes := Lit("CONNECT")

  /**
   * `host_addr`: the authority's host and port; without a port, 443 for
   * an `https` target and 80 for any other; nothing without an authority.
   */
  function HostAddr(uri: Uri): (r: Option<(Bytes, Uint16)>)
    ensures r.None? <==> uri.authority.None?
    ensures r.Some? ==> r.value.0 == uri.authority.value.host
    ensures r.Some? && uri.authority.value.port.Some? ==> r.value.1 == uri.authority.value.port.value
    ensures r.Some? && uri.authority.value.port.None? ==>
              (r.value.1 == 443 <==> uri.scheme == Some(Https)) && (r.value.1 == 80 <==> uri.scheme != Some(Https))
  {
    match uri.authority
    case None => None
    case Some(auth) =>
      var port := match auth.port
        case Some(p) => p
        case None => if uri.scheme == Some(Https) then 443 else 80;
      Some((auth.host, port))
  }

  // ---- the answer ----

  datatype Response = Response(status: nat, headers: seq<(Bytes, Bytes)>, body: Bytes)

  /**
   * What `call` does with a request: answer it, and for an accepted
   * CONNECT hand the target to the tokio task that runs after the upgrade; or
   * pass a request that is not a CONNECT on to the HTTP client.
   */
  datatype Outcome = Answered(response: Response, tunnel: Option<TargetAddr>) | Forwarded

  /** Indexing the header map with a name it does not hold panics. */
  datatype Panic = MissingHeader

  const BAD_REQUEST_BODY: Bytes := Lit("CONNECT must be to a socket address")
  const PROXY_AUTHENTICATE: Bytes := Lit("proxy-authenticate")
  const REALM: Bytes := Lit("Basic realm=Proxy Server")

  /** The 407 answer with its challenge (section 15.5.8 of RFC 9110). */
  function Challenge(): Response
  {
    Response(407, [(PROXY_AUTHENTICATE, REALM)], [])
  }

  /** The answer to a refused CONNECT with status `status`. */
  function Refusal(status: nat): (r: Response)
    ensures r.status == status && r.body == []
    ensures status == 407 ==> r == Challenge()
    ensures status != 407 ==> r.headers == []
  {
    if status == 407 then Challenge() else Response(status, [], [])
  }

  /**
   * The answer to a CONNECT once the credential check has run (`refused`
   * is its status, `None` when it lets the request through): 400 without
   * an authority, the refusal, or an empty 200 and the domain to dial.
   */
  function Answer(uri: Uri, refused: Option<nat>): (r: Outcome)
    ensures r.Answered?
    ensures r.tunnel.Some? <==> uri.authority.Some? && refused.None?
    ensures r.tunnel.Some? ==> r.response == Response(200, [], [])
                               && r.tunnel.value == Domain(HostAddr(uri).value.0, HostAddr(uri).value.1)
    ensures uri.authority.None? ==> r.response == Response(400, [], BAD_REQUEST_BODY)
    ensures uri.authority.Some? && refused.Some? ==> r.response == Refusal(refused.value)
  {
    match HostAddr(uri)
    case None => Answered(Response(400, [], BAD_REQUEST_BODY), None)
    case Some((host, port)) =>
      if refused.Some? then Answered(Refusal(refused.value), None)
      else Answered(Response(200, [], []), Some(Domain(host, port)))
  }

  // ---- the credential check, as written ----

  /** `strip_prefix(prefix)` and then a split at the first colon. */
  function SplitAfter(t: Bytes, prefix: Bytes): (r: Option<(Bytes, Bytes)>)
    ensures r.Some? <==> StartsWith(t, prefix) && COLON in t[|prefix|..]
    ensures r.Some? ==> t == prefix + r.value.0 + [COLON] + r.value.1 && COLON !in r.value.0
  {
    match StripPrefix(t, prefix)
    case None => None
    case Some(b) =>
      var r := SplitOnce(b, COLON);
      if r.None? then None
      else
        assert b == r.value.0 + [COLON] + r.value.1;
        assert prefix + b == prefix + r.value.0 + [COLON] + r.value.1;
        r
  }

  /**
   * The credentials `call` reads from a header value: the value must be
   * visible ASCII (`to_str`); after trimming and stripping "Basic " the
   * rest is split at its first colon, with no base 64 decoding.
   */
  function CredentialsAsWritten(value: Bytes): (r: Option<(Bytes, Bytes)>)
    ensures r.Some? ==> PTC.VisibleAscii(value) && COLON !in r.value.0
    ensures r.Some? ==> exists i :: InfixAt(value, PTC.BASIC_PREFIX + r.value.0 + [COLON] + r.value.1, i)
  {
    if !PTC.VisibleAscii(value) then None
    else SplitAfter(Trim(value), PTC.BASIC_PREFIX)
  }

  /**
   * The credential check of `call` as written: no authenticator lets
   * every request through; with one, a missing header panics, unreadable
   * credentials get 407 and rejected ones 401.
   */
  function RefusedAsWritten(authenticate: Option<ProxyAuth.Authentication>, header: Option<Bytes>): (r: Result<Option<nat>, Panic>)
    ensures r.Err? <==> authenticate.Some? && header.None?
    ensures r == Ok(None) <==> (authenticate.None?
              || (header.Some? && CredentialsAsWritten(header.value).Some?
                  && ProxyAuth.Authenticate(authenticate.value, CredentialsAsWritten(header.value).value.0, CredentialsAsWritten(header.value).value.1)))
    ensures r == Ok(Some(407)) <==> authenticate.Some? && header.Some? && CredentialsAsWritten(header.value).None?
    ensures r.Ok? && r.value.Some? ==> r.value.value in {401, 407}
  {
    match authenticate
    case None => Ok(None)
    case Some(a) =>
      if header.None? then Err(MissingHeader)
      else match CredentialsAsWritten(header.value)
        case None => Ok(Some(407))
        case Some((u, p)) => if ProxyAuth.Authenticate(a, u, p) then Ok(None) else Ok(Some(401))
  }

  /** `Server::call` as written. */
  function ServeAsWritten(authenticate: Option<ProxyAuth.Authentication>, req: Request): (r: Result<Outcome, Panic>)
    ensures req.verb != CONNECT ==> r == Ok(Forwarded)
    ensures r.Err? <==> req.verb == CONNECT && req.uri.authority.Some? && authenticate.Some? && req.authorization.None?
  {
    if req.verb != CONNECT then Ok(Forwarded)
    else if req.uri.authority.None? then Ok(Answer(req.uri, None))
    else match RefusedAsWritten(authenticate, req.authorization)
      case Err(e) => Err(e)
      case Ok(refused) => Ok(Answer(req.uri, refused))
  }

  // ---- the credential check, corrected ----

  /** The user name and the password of Basic credentials: the text before and after the first colon. */
  function Halves(b: PTC.Basic): (r: (Bytes, Bytes))
    requires PTC.FirstColonAt(b)
    ensures b.decoded == r.0 + [COLON] + r.1 && COLON !in r.0
  {
    var d := b.decoded;
    assert d == d[..b.colonPos] + [COLON] + d[b.colonPos + 1..];
    (d[..b.colonPos], d[b.colonPos + 1..])
  }

  /**
   * The credentials of a header value read as section 2 of RFC 7617
   * says, with the crate's own `Basic::decode`: visible ASCII, trimmed,
   * "Basic " and the base 64 text of "user:password", split at the first
   * colon of the decoded text.
   */
  function Credentials(value: Bytes): (r: Option<(Bytes, Bytes)>)
    ensures r.Some? ==> PTC.VisibleAscii(value) && COLON !in r.value.0
  {
    if !PTC.VisibleAscii(value) then None else DecodeCredentials(Trim(value))
  }

  /** The user name and password a trimmed header value holds, base 64 decoded. */
  function DecodeCredentials(t: Bytes): (r: Option<(Bytes, Bytes)>)
    ensures r.Some? ==> COLON !in r.value.0
  {
    if !StartsWith(t, PTC.BASIC_PREFIX) then None
    else match PTC.BasicDecode(t)
      case None => None
      case Some(b) => Some(Halves(b))
  }

  /**
   * The credential check, corrected: as written, except that credentials
   * are decoded from base 64 and a missing header is answered with the
   * 407 challenge instead of a panic.
   */
  function Refused(authenticate: Option<ProxyAuth.Authentication>, header: Option<Bytes>): (r: Option<nat>)
    ensures r.None? <==> (authenticate.None?
              || (header.Some? && Credentials(header.value).Some?
                  && ProxyAuth.Authenticate(authenticate.value, Credentials(header.value).value.0, Credentials(header.value).value.1)))
    ensures r == Some(407) <==> authenticate.Some? && (header.None? || Credentials(header.value).None?)
    ensures r.Some? ==> r.value in {401, 407}
  {
    match authenticate
    case None => None
    case Some(a) =>
      if header.None? then Some(407)
      else match Credentials(header.value)
        case None => Some(407)
        case Some((u, p)) => if ProxyAuth.Authenticate(a, u, p) then None else Some(401)
  }

  /** `Server::call`, corrected. */
  function Serve(authenticate: Option<ProxyAuth.Authentication>, req: Request): (r: Outcome)
    ensures req.verb != CONNECT <==> r == Forwarded
  {
    if req.verb != CONNECT then Forwarded
    else if req.uri.authority.None? then Answer(req.uri, None)
    else Answer(req.uri, Refused(authenticate, req.authorization))
  }

  // ---- the tunnel tokio task ----

  /**
   * The tokio task `call` spawns for an accepted CONNECT, on the client's
   * connection: once the upgrade succeeds it dials the target, then
   * relays, or shuts the client's connection down when the dial fails.
   */
  function TunnelTask(upgraded: bool, dial: Result<(), IoErrorKind>): (events: seq<Event>)
    ensures Dialed in events <==> upgraded
    ensures Relayed in events <==> upgraded && dial.Ok?
    ensures ShutDown(Peer) in events <==> upgraded && dial.Err?
    ensures forall i :: 0 <= i < |events| && events[i] != Dialed ==> 0 < i && events[0] == Dialed
  {
    if !upgraded then []
    else if dial.Ok? then [Dialed, Relayed]
    else [Dialed, ShutDown(Peer)]
  }

  /**
   * What happens on the client's connection once `call` has its outcome:
   * the answer is written first, and the tokio task runs only when the
   * answer lets the tunnel go ahead.
   */
  function AfterOutcome(o: Outcome, upgraded: bool, dial: Result<(), IoErrorKind>): seq<Event>
  {
    match o
    case Forwarded => []
    case Answered(_, tunnel) => if tunnel.Some? then TunnelTask(upgraded, dial) else []
  }

  /** The client's connection as written: a panicking `call` spawns nothing. */
  function ConnectionAsWritten(authenticate: Option<ProxyAuth.Authentication>, req: Request, upgraded: bool, dial: Result<(), IoErrorKind>): seq<Event>
  {
    match ServeAsWritten(authenticate, req)
    case Err(_) => []
    case Ok(o) => AfterOutcome(o, upgraded, dial)
  }

  /** The client's connection with the corrected credential check. */
  function Connection(authenticate: Option<ProxyAuth.Authentication>, req: Request, upgraded: bool, dial: Result<(), IoErrorKind>): seq<Event>
  {
    AfterOutcome(Serve(authenticate, req), upgraded, dial)
  }

  /** `Server`: the credentials it demands, if any; the connector and the HTTP client are parameters of the functions above. */
  class Server {
    var authenticate: Option<ProxyAuth.Authentication>

    /** `Server::new`: no credentials demanded. */
    constructor New()
      ensures authenticate == None
    {
      authenticate := None;
    }

    /** `set_authenticate`. */
    method SetAuthenticate(a: ProxyAuth.Authentication)
      modifies this
      ensures authenticate == Some(a)
    {
      authenticate := Some(a);
    }

    /** `call` on one request, as written: a panic is an `Err`. */
    method Call(req: Request) returns (r: Result<Outcome, Panic>)
      ensures r == ServeAsWritten(authenticate, req)
      ensures r.Ok? && r.value.Answered? && r.value.tunnel.Some? && authenticate.Some? ==>
                req.authorization.Some? && CredentialsAsWritten(req.authorization.value).Some?
    {
      r := ServeAsWritten(authenticate, req);
    }
  }

  // ---- properties ----

  /**
   * The target of an accepted CONNECT is dialed only after the empty 200
   * answer, and only when the request named an authority and, under an
   * authenticator, carried credentials it accepts.
   */
  lemma DialOnlyWhenAuthenticated(authenticate: Option<ProxyAuth.Authentication>, req: Request, upgraded: bool, dial: Result<(), IoErrorKind>)
    ensures var r := Serve(authenticate, req);
            Dialed in Connection(authenticate, req, upgraded, dial)
            <==> upgraded && r.Answered? && r.response == Response(200, [], [])
                 && req.verb == CONNECT && req.uri.authority.Some?
                 && (authenticate.None?
                     || (req.authorization.Some? && Credentials(req.authorization.value).Some?
                         && ProxyAuth.Authenticate(authenticate.value, Credentials(req.authorization.value).value.0,
                                                   Credentials(req.authorization.value).value.1)))
  {
    var r := Serve(authenticate, req);
    if r.Answered? && r.tunnel.None? && req.verb == CONNECT && req.uri.authority.Some? {
      var refused := Refused(authenticate, req.authorization);
      assert refused.Some?;
      assert r.response.status == refused.value;
    }
  }

  /**
   * As written, the target is dialed only after the empty 200 answer, and
   * only when the request named an authority and, under an authenticator,
   * carried a header whose undecoded "user:password" it accepts.
   */
  lemma DialOnlyWhenAuthenticatedAsWritten(authenticate: Option<ProxyAuth.Authentication>, req: Request, upgraded: bool,
                                           dial: Result<(), IoErrorKind>)
    ensures var r := ServeAsWritten(authenticate, req);
            Dialed in ConnectionAsWritten(authenticate, req, upgraded, dial)
            <==> upgraded && r.Ok? && r.value.Answered? && r.value.response == Response(200, [], [])
                 && req.verb == CONNECT && req.uri.authority.Some?
                 && (authenticate.None?
                     || (req.authorization.Some? && CredentialsAsWritten(req.authorization.value).Some?
                         && ProxyAuth.Authenticate(authenticate.value, CredentialsAsWritten(req.authorization.value).value.0,
                                                   CredentialsAsWritten(req.authorization.value).value.1)))
  {
    var r := ServeAsWritten(authenticate, req);
    if r.Ok? && r.value.Answered? && r.value.tunnel.None? && req.verb == CONNECT && req.uri.authority.Some? {
      var refused := RefusedAsWritten(authenticate, req.authorization);
      assert refused.Ok? && refused.value.Some?;
      assert r.value.response.status == refused.value.value;
    }
  }

  /** As written, a CONNECT without the header panics once credentials are demanded. */
  lemma AsWrittenPanicsWithoutHeader(a: ProxyAuth.Authentication, uri: Uri)
    requires uri.authority.Some?
    ensures ServeAsWritten(Some(a), Request(CONNECT, uri, None)) == Err(MissingHeader)
  {
  }

  /** Corrected, a CONNECT without the header is answered with the challenge. */
  lemma ChallengesWithoutHeader(a: ProxyAuth.Authentication, uri: Uri)
    requires uri.authority.Some?
    ensures Serve(Some(a), Request(CONNECT, uri, None)) == Answered(Challenge(), None)
  {
  }
}
