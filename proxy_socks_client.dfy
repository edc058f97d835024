/**
 * The SOCKS5 client of the `proxy-socks` crate (proxy-socks/src/client.rs):
 * `proxy_socks`, which offers methods, authenticates and sends CONNECT, and
 * the service that opens the stream to the proxy server first.
 *
 * The handshake is a method over a `Socket`, proved equal to a function over
 * the `Wire` it starts from; lemmas relate it to the server of the same crate.
 */
module ProxySocksClient {
  import opened Wrappers
  import opened Text
  import opened IoKinds
  import opened ProxyAddr
  import opened ProxySocksTypes
  import opened ProxySocksError
  import opened Sockets
  import ProxyIoStream
  import ProxyAuth
  import Utf8
  import Server = ProxySocksServer

  type Authorization = Option<(Bytes, Bytes)>

  /**
   * The version byte the client stamps on its RFC 1929 credentials request:
   * `UsernameAndPassword::new` (proxy-socks/src/types.rs:425-431) writes the
   * SOCKS version 0x05 there, not the sub-negotiation version 0x01. The
   * handshake functions take this byte as a parameter so that the client as
   * written and the corrected client (AUTH_VERSION) are both stated.
   */
  const CLIENT_AUTH_VERSION: Byte := SOCKS_VERSION

  function IoErr<T>(k: IoErrorKind): Result<T, SocksError>
  {
    Err(Io(k))
  }

  /** The methods offered: always "no authentication", and username/password when credentials are set. */
  function Offer(authorization: Authorization): (ms: seq<Method>)
  {
    [NoAuthenticationRequired] + (if authorization.Some? then [UsernameAndPassword] else [])
  }

  /** The error the reply code of the server's answer to CONNECT stands for; only Succeeded is success. */
  function ErrorOfRep(rep: Option<Rep>): (r: Result<(), SocksError>)
  {
    match rep
    case Some(Succeeded) => Ok(())
    case Some(NetworkUnreachable) => IoErr(IoErrorKind.NetworkUnreachable)
    case Some(HostUnreachable) => IoErr(IoErrorKind.HostUnreachable)
    case Some(ConnectionRefused) => IoErr(IoErrorKind.ConnectionRefused)
    case Some(GeneralSocksServerFailure) => Err(Socks(Kind.GeneralSocksServerFailure))
    case Some(TtlExpired) => Err(Socks(Kind.TtlExpired))
    case Some(CommandNotSupported) => Err(Socks(Kind.CommandNotSupported))
    case Some(AddressTypeNotSupported) => Err(Socks(Kind.AddressTypeNotSupported))
    case Some(ConnectionNotAllowedByRuleset) => Err(Socks(Kind.ConnectionNotAllowedByRuleset))
    case None => Err(Socks(UnknownRep))
  }

  /** The method negotiation of `proxy_socks`: follow the server's selection. */
  function Negotiate(w: Wire, authorization: Authorization, authVersion: Byte): (Result<(), SocksError>, Wire)
  {
    var (s, w1) := Send(w, EncodeCandidate(SOCKS_VERSION, MethodCodes(Offer(authorization))));
    if s.Err? then (IoErr(s.error), w1)
    else
      var (sel, w2) := Recv(w1, DecodeSelection);
      if sel.Err? then (IoErr(sel.error), w2)
      else if SelectionIsValid(sel.value).Err? then (Err(SelectionIsValid(sel.value).error), w2)
      else match SelectionMethod(sel.value)
        case None => (Err(Socks(Kind.UnknownMethod)), w2)
        case Some(m) =>
          if m == NoAuthenticationRequired then (Ok(()), w2)
          else if m == Method.NoAcceptableMethods then (Err(Socks(Kind.NoAcceptableMethods)), w2)
          else if m == UsernameAndPassword && authorization.Some? then
            SendCredentials(w2, authVersion, authorization.value.0, authorization.value.1)
          else (Err(Socks(Kind.UnknownMethod)), w2)
  }

  /**
   * The RFC 1929 sub-negotiation, the request stamped with `authVersion`:
   * success is a status of 0x00, whatever the status message's version.
   */
  function SendCredentials(w: Wire, authVersion: Byte, username: Bytes, password: Bytes): (r: (Result<(), SocksError>, Wire))
    ensures r.0.Ok? <==> w.writable > 0 && DecodeStatus(w.unread).Ok? && IsSucceed(DecodeStatus(w.unread).value.0)
    ensures r.0.Err? ==> r.0.error.Io? || r.0.error == Socks(Unauthorized)
    ensures w.writable > 0 ==> r.1.events == w.events + [Wrote(EncodeUserPass(UserPass(authVersion, username, password)))]
  {
    var (s, w1) := Send(w, EncodeUserPass(UserPass(authVersion, username, password)));
    if s.Err? then (IoErr(s.error), w1)
    else
      var (status, w2) := Recv(w1, DecodeStatus);
      if status.Err? then (IoErr(status.error), w2)
      else if IsSucceed(status.value) then (Ok(()), w2)
      else (Err(Socks(Unauthorized)), w2)
  }

  /** `proxy_socks`: negotiate, send CONNECT for `target`, and read what the reply code means. */
  function ProxySocks(w: Wire, target: TargetAddr, authorization: Authorization, authVersion: Byte): (r: (Result<(), SocksError>, Wire))
    ensures var (n, w1) := Negotiate(w, authorization, authVersion);
            r.0.Ok? ==> && n.Ok?
                        && r.1.events == w1.events + [Wrote(EncodeRequest(RequestNew(target)))]
                        && DecodeReply(w1.unread).Ok? && ReplyRep(DecodeReply(w1.unread).value.0) == Some(Succeeded)
  {
    var (n, w1) := Negotiate(w, authorization, authVersion);
    if n.Err? then (Err(n.error), w1)
    else
      var (s, w2) := Send(w1, EncodeRequest(RequestNew(target)));
      if s.Err? then (IoErr(s.error), w2)
      else
        var (reply, w3) := Recv(w2, DecodeReply);
        if reply.Err? then (IoErr(reply.error), w3)
        else if ReplyIsValid(reply.value).Err? then (Err(ReplyIsValid(reply.value).error), w3)
        else (ErrorOfRep(ReplyRep(reply.value)), w3)
  }

  /**
   * `Client::call` once the stream to the proxy server is open: the stream
   * is handed back on success and shut down on any failure.
   */
  function Handshake(stream: ProxyIoStream.ProxyStream, w: Wire, target: TargetAddr, authorization: Authorization, authVersion: Byte)
    : (Result<ProxyIoStream.ProxyStream, SocksError>, Wire)
  {
    var (r, w1) := ProxySocks(w, target, authorization, authVersion);
    if r.Ok? then (Ok(stream), w1) else (Err(r.error), Note(w1, ShutDown(Peer)))
  }

  /** `proxy_socks` as written, step by step on the stream to the proxy server. */
  method ProxySocksOn(socket: Socket, target: TargetAddr, authorization: Authorization) returns (r: Result<(), SocksError>)
    modifies socket
    ensures (r, socket.State()) == ProxySocks(old(socket.State()), target, authorization, CLIENT_AUTH_VERSION)
  {
    var s := socket.Write(EncodeCandidate(SOCKS_VERSION, MethodCodes(Offer(authorization))));
    if s.Err? {
      return IoErr(s.error);
    }
    var sel := socket.Read(DecodeSelection);
    if sel.Err? {
      return IoErr(sel.error);
    }
    var valid := SelectionIsValid(sel.value);
    if valid.Err? {
      return Err(valid.error);
    }
    var m := SelectionMethod(sel.value);
    if m == Some(NoAuthenticationRequired) {
    } else if m == Some(Method.NoAcceptableMethods) {
      return Err(Socks(Kind.NoAcceptableMethods));
    } else if m == Some(UsernameAndPassword) && authorization.Some? {
      var s2 := socket.Write(EncodeUserPass(UserPassNewAsWritten(authorization.value.0, authorization.value.1)));
      if s2.Err? {
        return IoErr(s2.error);
      }
      var status := socket.Read(DecodeStatus);
      if status.Err? {
        return IoErr(status.error);
      }
      if !IsSucceed(status.value) {
        return Err(Socks(Unauthorized));
      }
    } else {
      return Err(Socks(Kind.UnknownMethod));
    }
    var s3 := socket.Write(EncodeRequest(RequestNew(target)));
    if s3.Err? {
      return IoErr(s3.error);
    }
    var reply := socket.Read(DecodeReply);
    if reply.Err? {
      return IoErr(reply.error);
    }
    var replyValid := ReplyIsValid(reply.value);
    if replyValid.Err? {
      return Err(replyValid.error);
    }
    r := ErrorOfRep(ReplyRep(reply.value));
  }

  /** `Client`: optional credentials and the connector to the proxy server. */
  class Client {
    var authorization: Authorization
    const connect: ProxyIoStream.StreamConnect

    /** `Client::new`: no credentials, plain TCP to the proxy server at `server`. */
    constructor New(server: TargetAddr)
      ensures authorization == None && fresh(connect) && !connect.tls && connect.target == server
    {
      authorization := None;
      connect := new ProxyIoStream.StreamConnect.New(server);
    }

    /** `set_authorization`. */
    method SetAuthorization(username: Bytes, password: Bytes)
      modifies this
      ensures authorization == Some((username, password))
    {
      authorization := Some((username, password));
    }

    /** `enable_tls`. */
    method EnableTls()
      modifies connect
      ensures connect.tls && connect.target == old(connect.target)
    {
      connect.SetTls(true);
    }

    /**
     * `Client::call`: open the stream to the proxy server (a failure there is
     * returned as it is), then run the handshake for `target` over it.
     */
    method Call(target: TargetAddr, connector: ProxyIoStream.Connector, support: ProxyIoStream.TlsSupport, socket: Socket)
      returns (r: Result<ProxyIoStream.ProxyStream, SocksError>)
      modifies socket
      ensures var conn := if connector(connect.target).Err? then Err(connector(connect.target).error)
                            else ProxyIoStream.WrapStream(connect.tls, connect.target, support);
              && (conn.Err? ==> r == IoErr(conn.error) && socket.State() == old(socket.State()))
              && (conn.Ok? ==> (r, socket.State()) == Handshake(conn.value, old(socket.State()), target, authorization, CLIENT_AUTH_VERSION))
    {
      var stream := connect.Call(connector, support);
      if stream.Err? {
        return IoErr(stream.error);
      }
      var p := ProxySocksOn(socket, target, authorization);
      if p.Err? {
        socket.Mark(ShutDown(Peer));
        return Err(p.error);
      }
      r := Ok(stream.value);
    }
  }

  // ---- properties ----

  /** Only Succeeded is success; the three unreachable/refused codes come back as the I/O error kinds they name. */
  lemma ErrorOfRepCases(rep: Option<Rep>)
    ensures ErrorOfRep(rep).Ok? <==> rep == Some(Succeeded)
    ensures rep == None ==> ErrorOfRep(rep) == Err(Socks(UnknownRep))
  {
  }

  /**
   * A connection failure the server of this crate reports is read back by
   * this client as the same I/O error kind when the reply code has one, and
   * as a general server failure otherwise.
   */
  lemma ConnectFailureRoundTrip(k: IoErrorKind)
    ensures ErrorOfRep(Some(Server.RepOfKind(k)))
            == if k in {IoErrorKind.ConnectionRefused, IoErrorKind.HostUnreachable, IoErrorKind.NetworkUnreachable}
               then IoErr(k) else Err(Socks(Kind.GeneralSocksServerFailure))
  {
  }

  /** The offer's bytes: version 5, then "no authentication" and, with credentials, username/password. */
  lemma OfferBytes(authorization: Authorization)
    ensures MethodCodes(Offer(authorization)) == if authorization.Some? then [0x00, 0x02] else [0x00]
  {
  }

  /**
   * Negotiation between this client and the server of this crate without an
   * authenticator: the server accepts the client's offer and selects "no
   * authentication", and the client, reading that selection, proceeds.
   */
  lemma NoAuthNegotiationAgrees(client: Wire, server: Wire, authorization: Authorization, authVersion: Byte, rest: Bytes)
    requires client.writable > 0 && server.writable > 0
    requires server.unread == EncodeCandidate(SOCKS_VERSION, MethodCodes(Offer(authorization))) + rest
    ensures Server.Prepare(server).0.Ok?
    ensures Server.Prepare(server).1.events == server.events + [Wrote([SOCKS_VERSION, 0x00])]
    ensures Negotiate(client.(unread := [SOCKS_VERSION, 0x00] + client.unread), authorization, authVersion).0.Ok?
  {
    OfferBytes(authorization);
    Server.PrepareSelects(server, MethodCodes(Offer(authorization)), rest);
    SelectionRoundTrip(SelectionNew(NoAuthenticationRequired), client.unread);
  }

  /**
   * With credentials, against a server that selects username/password, the
   * corrected client (stamping AUTH_VERSION) sends its credentials as an
   * RFC 1929 request the server's
   * sub-negotiation accepts exactly when its authenticator does, and the
   * client, reading the status the server wrote, reaches the same outcome.
   */
  lemma PasswordNegotiationAgrees(client: Wire, server: Wire, username: Bytes, password: Bytes,
                                  auth: ProxyAuth.Authentication, rest: Bytes)
    requires |username| <= 255 && Utf8.Valid(username) && |password| <= 255 && Utf8.Valid(password)
    requires client.writable > 0 && server.writable > 0
    requires server.unread == EncodeUserPass(UserPassNew(username, password)) + rest
    ensures var ok := ProxyAuth.Authenticate(auth, username, password);
            var status := EncodeStatus(StatusNew(if ok then 0x00 else 0x01));
            && Server.Credentials(server, auth).1.events == server.events + [Wrote(status)]
            && (Server.Credentials(server, auth).0.Ok? <==> ok)
            && (SendCredentials(client.(unread := status + client.unread), AUTH_VERSION, username, password).0.Ok? <==> ok)
            && SendCredentials(client.(unread := status + client.unread), AUTH_VERSION, username, password).1.events
               == client.events + [Wrote(EncodeUserPass(UserPassNew(username, password)))]
  {
    Server.CredentialsChecked(server, auth, username, password, rest);
    var ok := ProxyAuth.Authenticate(auth, username, password);
    StatusRoundTrip(StatusNew(if ok then 0x00 else 0x01), client.unread);
  }

  /**
   * The client as written stamps version 0x05 on its credentials, and the
   * server of this crate refuses that request as an invalid version whatever
   * the credentials, writing no status the client could read.
   */
  lemma PasswordNegotiationAsWritten(client: Wire, server: Wire, username: Bytes, password: Bytes,
                                     auth: ProxyAuth.Authentication, rest: Bytes)
    requires |username| <= 255 && Utf8.Valid(username) && |password| <= 255 && Utf8.Valid(password)
    requires client.writable > 0
    requires server.unread == EncodeUserPass(UserPass(CLIENT_AUTH_VERSION, username, password)) + rest
    ensures SendCredentials(client, CLIENT_AUTH_VERSION, username, password).1.events
            == client.events + [Wrote(EncodeUserPass(UserPassNewAsWritten(username, password)))]
    ensures Server.Credentials(server, auth) == (Err(Socks(InvalidVersion)), server.(unread := rest))
  {
    Server.AsWrittenCredentialsRejected(server, auth, username, password, rest);
  }

  /** Whatever reply code the server of this crate writes, the client reads back exactly what that code means. */
  lemma ReplyRead(w: Wire, target: TargetAddr, authorization: Authorization, authVersion: Byte, rep: Rep, rest: Bytes)
    requires Negotiate(w, authorization, authVersion).0.Ok? && Negotiate(w, authorization, authVersion).1.writable > 0
    requires Negotiate(w, authorization, authVersion).1.unread == EncodeReply(ReplyNew(rep)) + rest
    ensures ProxySocks(w, target, authorization, authVersion).0 == ErrorOfRep(Some(rep))
  {
    ReplyNewRoundTrip(rep, rest);
  }

  /** A failed handshake ends by shutting the stream down, and a successful one hands back the stream it was given. */
  lemma HandshakeOutcomes(stream: ProxyIoStream.ProxyStream, w: Wire, target: TargetAddr, authorization: Authorization, authVersion: Byte)
    requires |w.events| == 0 || !w.events[|w.events| - 1].ShutDown?
    ensures var (r, w1) := Handshake(stream, w, target, authorization, authVersion);
            && (r.Ok? ==> r.value == stream)
            && (r.Err? <==> |w1.events| > 0 && w1.events[|w1.events| - 1] == ShutDown(Peer))
  {
    ProxySocksOnlyWrites(w, target, authorization, authVersion);
  }

  lemma SendCredentialsOnlyWrites(w: Wire, authVersion: Byte, username: Bytes, password: Bytes)
    ensures OnlyWrites(w, SendCredentials(w, authVersion, username, password).1)
  {
    SendOnlyWrites(w, EncodeUserPass(UserPass(authVersion, username, password)));
  }

  lemma NegotiateOnlyWrites(w: Wire, authorization: Authorization, authVersion: Byte)
    ensures OnlyWrites(w, Negotiate(w, authorization, authVersion).1)
  {
    var w1 := Send(w, EncodeCandidate(SOCKS_VERSION, MethodCodes(Offer(authorization)))).1;
    SendOnlyWrites(w, EncodeCandidate(SOCKS_VERSION, MethodCodes(Offer(authorization))));
    if authorization.Some? {
      var w2 := Recv(w1, DecodeSelection).1;
      SendCredentialsOnlyWrites(w2, authVersion, authorization.value.0, authorization.value.1);
      OnlyWritesTrans(w, w2, SendCredentials(w2, authVersion, authorization.value.0, authorization.value.1).1);
    }
  }

  /** The handshake itself only reads and writes. */
  lemma ProxySocksOnlyWrites(w: Wire, target: TargetAddr, authorization: Authorization, authVersion: Byte)
    ensures OnlyWrites(w, ProxySocks(w, target, authorization, authVersion).1)
  {
    var w1 := Negotiate(w, authorization, authVersion).1;
    NegotiateOnlyWrites(w, authorization, authVersion);
    SendOnlyWrites(w1, EncodeRequest(RequestNew(target)));
    OnlyWritesTrans(w, w1, Send(w1, EncodeRequest(RequestNew(target))).1);
  }
}
