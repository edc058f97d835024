/**
 * The SOCKS5 handshakes of the `netway` crate (crates/netway/src/socks5.rs):
 * the server's `Proxy::serve`, and the client's `auth_socks5_socket`,
 * `proxy_connect` and `ProxySocks5::try_connect`.
 *
 * Each handshake is a method over a `Socket`, proved equal to a function over
 * the `Wire` it starts from; the properties are lemmas about those functions.
 * The dialer, the egress stream's local address and the bidirectional relay
 * are parameters.
 */
module NetwaySocks5 {
  import opened Wrappers
  import opened Text
  import IoKinds
  import opened NetwayError
  import opened NetwayDst
  import opened NetwayProtocol
  import opened Sockets
  import opened NetwayAuth
  import Utf8

  /** What `try_connect` of the dialer gives: an error, or a stream whose `to_local_addr` may itself fail. */
  datatype DialOutcome = DialFailed(error: Error) | DialOk(local: Result<DstAddr, Error>)

  type Dialer = DstAddr -> DialOutcome

  /** What `copy_bidirectional` returns: the bytes copied each way, or the error that stopped it. */
  type RelayOutcome = Result<(nat, nat), IoKinds.IoErrorKind>

  /** A write's failure as this crate's error. */
  function WriteErr<T>(k: IoKinds.IoErrorKind): Result<T, Error>
  {
    Err(Io(k))
  }

  // ---- the server ----

  /**
   * Method negotiation and, under Password, the sub-negotiation: NoAuth
   * selects "no authentication" whatever the client offered; Password
   * requires the username/password method to be offered and both credentials
   * to be equal.
   */
  function ServeAuth(w: Wire, auth: Authentication): (Result<(), Error>, Wire)
  {
    var (req, w1) := Recv(w, DecodeMethodRequest);
    if req.Err? then (Err(req.error), w1)
    else match auth
      case NoAuth =>
        var (s, w2) := Send(w1, EncodeMethodReply(MethodReply(NoAuthenticationRequired)));
        (if s.Err? then WriteErr(s.error) else Ok(()), w2)
      case Password(username, password) =>
        if UsernameAndPassword !in req.value.methods then
          var (s, w2) := Send(w1, EncodeMethodReply(MethodReply(Method.NoAcceptableMethods)));
          (if s.Err? then WriteErr(s.error) else Err(Error.NoAcceptableMethods), w2)
        else
          var (s, w2) := Send(w1, EncodeMethodReply(MethodReply(UsernameAndPassword)));
          if s.Err? then (WriteErr(s.error), w2)
          else
            var (creds, w3) := Recv(w2, DecodePasswordRequest);
            if creds.Err? then (Err(creds.error), w3)
            else if username == creds.value.username && password == creds.value.password then
              var (s4, w4) := Send(w3, EncodePasswordReply(PasswordReply(StatusOk), AsWrittenCoding));
              (if s4.Err? then WriteErr(s4.error) else Ok(()), w4)
            else
              var (s4, w4) := Send(w3, EncodePasswordReply(PasswordReply(Failure(0x01)), AsWrittenCoding));
              (if s4.Err? then WriteErr(s4.error) else Err(PasswordAuthFailure(0x01)), w4)
  }

  /**
   * The request: CONNECT dials the target, replies and relays; BIND and UDP
   * ASSOCIATE are refused with CommandNotSupported and the default address.
   */
  function ServeRequest(w: Wire, dial: Dialer, relay: RelayOutcome): (Result<(nat, nat), Error>, Wire)
  {
    var (req, w1) := Recv(w, DecodeDstRequest);
    if req.Err? then (Err(req.error), w1)
    else if req.value.command == Connect then ServeConnect(w1, req.value.dst, dial, relay)
    else
      var (s, w2) := Send(w1, EncodeDstReply(DstReply(Rep.CommandNotSupported, DEFAULT)));
      (if s.Err? then WriteErr(s.error) else Err(Error.CommandNotSupported), w2)
  }

  /**
   * CONNECT: a failed dial is answered with the reply code of its error and
   * the default address; a successful one with Succeeded and the egress
   * stream's local address, then the relay runs. If that reply cannot be
   * written, the egress stream is shut down.
   */
  function ServeConnect(w: Wire, dst: DstAddr, dial: Dialer, relay: RelayOutcome): (Result<(nat, nat), Error>, Wire)
  {
    var w1 := Note(w, Dialed);
    match dial(dst)
    case DialFailed(e) =>
      var (s, w2) := Send(w1, EncodeDstReply(DstReply(RepFromErr(e), DEFAULT)));
      (if s.Err? then WriteErr(s.error) else Err(e), w2)
    case DialOk(local) =>
      if local.Err? then (Err(local.error), w1)
      else
        var (s, w2) := Send(w1, EncodeDstReply(DstReply(Succeeded, local.value)));
        if s.Err? then (WriteErr(s.error), Note(w2, ShutDown(Egress)))
        else
          var w3 := Note(w2, Relayed);
          match relay
          case Ok(counts) => (Ok(counts), w3)
          case Err(k) => (if k == IoKinds.NotConnected then Ok((0, 0)) else WriteErr(k), w3)
  }

  /** `Proxy::serve`. */
  function ServeWire(w: Wire, auth: Authentication, dial: Dialer, relay: RelayOutcome): (Result<(nat, nat), Error>, Wire)
  {
    var (a, w1) := ServeAuth(w, auth);
    if a.Err? then (Err(a.error), w1) else ServeRequest(w1, dial, relay)
  }

  /** `Proxy::serve`, step by step on the client's socket. */
  method Serve(socket: Socket, auth: Authentication, dial: Dialer, relay: RelayOutcome) returns (r: Result<(nat, nat), Error>)
    modifies socket
    ensures (r, socket.State()) == ServeWire(old(socket.State()), auth, dial, relay)
  {
    ghost var w0 := socket.State();
    var req := socket.Read(DecodeMethodRequest);
    if req.Err? {
      return Err(req.error);
    }
    match auth {
      case NoAuth =>
        var s := socket.Write(EncodeMethodReply(MethodReply(NoAuthenticationRequired)));
        if s.Err? {
          return WriteErr(s.error);
        }
      case Password(username, password) =>
        if UsernameAndPassword !in req.value.methods {
          var s := socket.Write(EncodeMethodReply(MethodReply(Method.NoAcceptableMethods)));
          if s.Err? {
            return WriteErr(s.error);
          }
          return Err(Error.NoAcceptableMethods);
        }
        var s := socket.Write(EncodeMethodReply(MethodReply(UsernameAndPassword)));
        if s.Err? {
          return WriteErr(s.error);
        }
        var creds := socket.Read(DecodePasswordRequest);
        if creds.Err? {
          return Err(creds.error);
        }
        if username == creds.value.username && password == creds.value.password {
          var s4 := socket.Write(EncodePasswordReply(PasswordReply(StatusOk), AsWrittenCoding));
          if s4.Err? {
            return WriteErr(s4.error);
          }
        } else {
          var s4 := socket.Write(EncodePasswordReply(PasswordReply(Failure(0x01)), AsWrittenCoding));
          if s4.Err? {
            return WriteErr(s4.error);
          }
          return Err(PasswordAuthFailure(0x01));
        }
    }
    assert ServeAuth(w0, auth) == (Ok(()), socket.State());
    r := ServeRequestOn(socket, dial, relay);
  }

  method ServeRequestOn(socket: Socket, dial: Dialer, relay: RelayOutcome) returns (r: Result<(nat, nat), Error>)
    modifies socket
    ensures (r, socket.State()) == ServeRequest(old(socket.State()), dial, relay)
  {
    var req := socket.Read(DecodeDstRequest);
    if req.Err? {
      return Err(req.error);
    }
    if req.value.command != Connect {
      var s := socket.Write(EncodeDstReply(DstReply(Rep.CommandNotSupported, DEFAULT)));
      if s.Err? {
        return WriteErr(s.error);
      }
      return Err(Error.CommandNotSupported);
    }
    socket.Mark(Dialed);
    match dial(req.value.dst) {
      case DialFailed(e) =>
        var s := socket.Write(EncodeDstReply(DstReply(RepFromErr(e), DEFAULT)));
        if s.Err? {
          return WriteErr(s.error);
        }
        return Err(e);
      case DialOk(local) =>
        if local.Err? {
          return Err(local.error);
        }
        var s := socket.Write(EncodeDstReply(DstReply(Succeeded, local.value)));
        if s.Err? {
          socket.Mark(ShutDown(Egress));
          return WriteErr(s.error);
        }
        socket.Mark(Relayed);
        match relay {
          case Ok(counts) => r := Ok(counts);
          case Err(k) => r := if k == IoKinds.NotConnected then Ok((0, 0)) else WriteErr(k);
        }
    }
  }

  // ---- properties of the server ----

  /** Under NoAuth the server selects "no authentication" whatever the client offered. */
  lemma NoAuthSelectsNoAuthentication(w: Wire, methods: seq<Method>, rest: Bytes)
    requires |methods| <= 255 && forall i :: 0 <= i < |methods| ==> WellFormedMethod(methods[i])
    requires w.unread == EncodeMethodRequest(MethodRequest(methods)) + rest && w.writable > 0
    ensures ServeAuth(w, NoAuth)
            == (Ok(()), w.(unread := rest, events := w.events + [Wrote([SOCKS_VERSION, 0x00])], writable := w.writable - 1))
  {
    MethodRequestRoundTrip(MethodRequest(methods), rest);
  }

  /** Under Password, a client that does not offer username/password is told no method is acceptable. */
  lemma PasswordNotOffered(w: Wire, username: Bytes, password: Bytes, methods: seq<Method>, rest: Bytes)
    requires |methods| <= 255 && forall i :: 0 <= i < |methods| ==> WellFormedMethod(methods[i])
    requires UsernameAndPassword !in methods
    requires w.unread == EncodeMethodRequest(MethodRequest(methods)) + rest && w.writable > 0
    ensures ServeAuth(w, Password(username, password))
            == (Err(Error.NoAcceptableMethods),
                w.(unread := rest, events := w.events + [Wrote([SOCKS_VERSION, 0xff])], writable := w.writable - 1))
  {
    MethodRequestRoundTrip(MethodRequest(methods), rest);
  }

  /**
   * Under Password, once username/password is selected, the credentials pass
   * exactly when both are equal; the status written is success or Failure(0x01).
   */
  lemma CredentialsChecked(w: Wire, username: Bytes, password: Bytes, creds: PasswordRequest, rest: Bytes, c: StatusCoding)
    requires w.unread == EncodePasswordRequest(creds) + rest && w.writable > 0
    requires DecodePasswordRequest(w.unread) == Ok((creds, rest))
    ensures var (r, w1) := AuthAfterSelection(w, username, password, c);
            && (r.Ok? <==> username == creds.username && password == creds.password)
            && (r.Err? ==> r.error == PasswordAuthFailure(0x01))
            && w1.events == w.events + [Wrote(EncodePasswordReply(PasswordReply(if r.Ok? then StatusOk else Failure(0x01)), c))]
  {
  }

  /**
   * The sub-negotiation once username/password has been selected (the tail of
   * `ServeAuth`), with the status written in coding `c`.
   */
  function AuthAfterSelection(w: Wire, username: Bytes, password: Bytes, c: StatusCoding): (Result<(), Error>, Wire)
  {
    var (creds, w3) := Recv(w, DecodePasswordRequest);
    if creds.Err? then (Err(creds.error), w3)
    else if username == creds.value.username && password == creds.value.password then
      var (s4, w4) := Send(w3, EncodePasswordReply(PasswordReply(StatusOk), c));
      (if s4.Err? then WriteErr(s4.error) else Ok(()), w4)
    else
      var (s4, w4) := Send(w3, EncodePasswordReply(PasswordReply(Failure(0x01)), c));
      (if s4.Err? then WriteErr(s4.error) else Err(PasswordAuthFailure(0x01)), w4)
  }

  /** `ServeAuth` under Password is selection followed by `AuthAfterSelection`. */
  lemma ServeAuthPassword(w: Wire, username: Bytes, password: Bytes)
    requires DecodeMethodRequest(w.unread).Ok? && UsernameAndPassword in DecodeMethodRequest(w.unread).value.0.methods
    requires w.writable > 0
    ensures var rest := DecodeMethodRequest(w.unread).value.1;
            var w2 := w.(unread := rest, events := w.events + [Wrote(EncodeMethodReply(MethodReply(UsernameAndPassword)))],
                         writable := w.writable - 1);
            ServeAuth(w, Password(username, password)) == AuthAfterSelection(w2, username, password, AsWrittenCoding)
  {
  }

  /**
   * The failure status this server sends for wrong credentials is the byte
   * this crate also uses for success, so a `netway` client reads it as
   * success.
   */
  lemma AuthFailureReadsAsSuccess(rest: Bytes)
    ensures EncodePasswordReply(PasswordReply(Failure(0x01)), AsWrittenCoding)
         == EncodePasswordReply(PasswordReply(StatusOk), AsWrittenCoding)
    ensures DecodePasswordReply(EncodePasswordReply(PasswordReply(Failure(0x01)), AsWrittenCoding) + rest, AsWrittenCoding)
         == Ok((PasswordReply(StatusOk), rest))
  {
    PasswordReplyRoundTrip(PasswordReply(Failure(0x01)), rest, AsWrittenCoding);
  }

  /**
   * Corrected: with the RFC 1929 coding (0x00 is success) the failure reply
   * and the success reply differ, and each reads back as itself.
   */
  lemma AuthFailureReadsAsFailure(rest: Bytes)
    ensures EncodePasswordReply(PasswordReply(Failure(0x01)), Rfc1929Coding)
         != EncodePasswordReply(PasswordReply(StatusOk), Rfc1929Coding)
    ensures DecodePasswordReply(EncodePasswordReply(PasswordReply(Failure(0x01)), Rfc1929Coding) + rest, Rfc1929Coding)
         == Ok((PasswordReply(Failure(0x01)), rest))
    ensures DecodePasswordReply(EncodePasswordReply(PasswordReply(StatusOk), Rfc1929Coding) + rest, Rfc1929Coding)
         == Ok((PasswordReply(StatusOk), rest))
  {
    PasswordReplyRoundTrip(PasswordReply(Failure(0x01)), rest, Rfc1929Coding);
    PasswordReplyRoundTrip(PasswordReply(StatusOk), rest, Rfc1929Coding);
  }

  /** BIND and UDP ASSOCIATE are answered CommandNotSupported with the default address, and nothing is dialed. */
  lemma UnsupportedCommandNotDialed(w: Wire, cmd: Command, dst: DstAddr, rest: Bytes, dial: Dialer, relay: RelayOutcome)
    requires cmd != Connect && EncodableDst(dst)
    requires w.unread == EncodeDstRequest(DstRequest(cmd, dst)) + rest && w.writable > 0
    ensures var (r, w1) := ServeRequest(w, dial, relay);
            && r == Err(Error.CommandNotSupported)
            && w1.events == w.events + [Wrote(EncodeDstReply(DstReply(Rep.CommandNotSupported, DEFAULT)))]
            && Dialed !in w1.events[|w.events|..]
  {
    DstRequestRoundTrip(DstRequest(cmd, dst), rest);
    var (r, w1) := ServeRequest(w, dial, relay);
    assert w1.events[|w.events|..] == [Wrote(EncodeDstReply(DstReply(Rep.CommandNotSupported, DEFAULT)))];
  }

  /** A failed dial is answered by exactly one reply, with the error's code and the default address, and the error is returned. */
  lemma DialFailureReplied(w: Wire, dst: DstAddr, dial: Dialer, relay: RelayOutcome)
    requires dial(dst).DialFailed? && w.writable > 0
    ensures var e := dial(dst).error;
            ServeConnect(w, dst, dial, relay)
            == (Err(e), w.(events := w.events + [Dialed, Wrote(EncodeDstReply(DstReply(RepFromErr(e), DEFAULT)))],
                           writable := w.writable - 1))
  {
    var e := dial(dst).error;
    var reply := Wrote(EncodeDstReply(DstReply(RepFromErr(e), DEFAULT)));
    assert w.events + [Dialed] + [reply] == w.events + [Dialed, reply];
  }

  /**
   * The relay starts only after a dial and a written Succeeded reply carrying
   * the egress stream's local address; when that reply cannot be written the
   * egress stream is shut down and nothing is relayed.
   */
  lemma RelayOnlyAfterSuccessReply(w: Wire, dst: DstAddr, dial: Dialer, relay: RelayOutcome)
    ensures var (r, w1) := ServeConnect(w, dst, dial, relay);
            var added := w1.events[|w.events|..];
            |w1.events| >= |w.events| && w1.events[..|w.events|] == w.events
            && (Relayed in added ==>
                  dial(dst).DialOk? && dial(dst).local.Ok?
                  && added == [Dialed, Wrote(EncodeDstReply(DstReply(Succeeded, dial(dst).local.value))), Relayed])
            && (dial(dst).DialOk? && dial(dst).local.Ok? && w.writable == 0 ==>
                  added == [Dialed, ShutDown(Egress)] && r == WriteErr(w.failure))
  {
    var (r, w1) := ServeConnect(w, dst, dial, relay);
    var added := w1.events[|w.events|..];
    assert w1.events == w.events + added;
  }

  // ---- the client ----

  /**
   * `auth_socks5_socket`: offer exactly the one method `auth` calls for, then
   * follow the server's choice; the password status is read in coding `c`.
   */
  function ClientAuth(w: Wire, auth: Authentication, c: StatusCoding): (Result<(), Error>, Wire)
  {
    var offer := if auth.NoAuth? then NoAuthenticationRequired else UsernameAndPassword;
    var (s, w1) := Send(w, EncodeMethodRequest(MethodRequest([offer])));
    if s.Err? then (WriteErr(s.error), w1)
    else
      var (reply, w2) := Recv(w1, DecodeMethodReply);
      if reply.Err? then (Err(reply.error), w2)
      else match reply.value.selected
        case NoAuthenticationRequired => (Ok(()), w2)
        case NoAcceptableMethods => (Err(Error.NoAcceptableMethods), w2)
        case UsernameAndPassword =>
          if auth.NoAuth? then (Err(UnknownMethod), w2)
          else
            var (s3, w3) := Send(w2, EncodePasswordRequest(PasswordRequest(auth.username, auth.password)));
            if s3.Err? then (WriteErr(s3.error), w3)
            else
              var (status, w4) := Recv(w3, PasswordReplyReader(c));
              if status.Err? then (Err(status.error), w4)
              else (match status.value.status
                case StatusOk => (Ok(()), w4)
                case Failure(v) => (Err(PasswordAuthFailure(v)), w4))
        case _ => (Err(UnknownMethod), w2)
  }

  /** `proxy_connect`: authenticate, send CONNECT for `dst`, and return the reply code. */
  function ProxyConnectWire(w: Wire, dst: DstAddr, auth: Authentication): (Result<Rep, Error>, Wire)
  {
    var (a, w1) := ClientAuth(w, auth, AsWrittenCoding);
    if a.Err? then (Err(a.error), w1)
    else
      var (s, w2) := Send(w1, EncodeDstRequest(DstRequest(Connect, dst)));
      if s.Err? then (WriteErr(s.error), w2)
      else
        var (reply, w3) := Recv(w2, DecodeDstReply);
        if reply.Err? then (Err(reply.error), w3) else (Ok(reply.value.rep), w3)
  }

  /**
   * `ProxySocks5::try_connect` over the stream to the proxy server, given
   * whether the TCP connection to it was made: only a Succeeded reply yields
   * the stream; anything else shuts it down and is ProxyServerUnreachable.
   */
  function TryConnectWire(tcp: Result<(), IoKinds.IoErrorKind>, w: Wire, dst: DstAddr, auth: Authentication)
    : (Result<(), Error>, Wire)
  {
    if tcp.Err? then (Err(ProxyServerUnreachable), w)
    else
      var (rep, w1) := ProxyConnectWire(w, dst, auth);
      if rep == Ok(Succeeded) then (Ok(()), w1)
      else (Err(ProxyServerUnreachable), Note(w1, ShutDown(Peer)))
  }

  /** `auth_socks5_socket`, step by step on the stream to the proxy server. */
  method AuthSocks5Socket(socket: Socket, auth: Authentication) returns (r: Result<(), Error>)
    modifies socket
    ensures (r, socket.State()) == ClientAuth(old(socket.State()), auth, AsWrittenCoding)
  {
    var offer := if auth.NoAuth? then NoAuthenticationRequired else UsernameAndPassword;
    var s := socket.Write(EncodeMethodRequest(MethodRequest([offer])));
    if s.Err? {
      return WriteErr(s.error);
    }
    var reply := socket.Read(DecodeMethodReply);
    if reply.Err? {
      return Err(reply.error);
    }
    match reply.value.selected {
      case NoAuthenticationRequired =>
        r := Ok(());
      case NoAcceptableMethods =>
        r := Err(Error.NoAcceptableMethods);
      case UsernameAndPassword =>
        if auth.NoAuth? {
          return Err(UnknownMethod);
        }
        var s3 := socket.Write(EncodePasswordRequest(PasswordRequest(auth.username, auth.password)));
        if s3.Err? {
          return WriteErr(s3.error);
        }
        var status := socket.Read(PasswordReplyReader(AsWrittenCoding));
        if status.Err? {
          return Err(status.error);
        }
        match status.value.status {
          case StatusOk => r := Ok(());
          case Failure(v) => r := Err(PasswordAuthFailure(v));
        }
      case Gssapi =>
        r := Err(UnknownMethod);
      case IanaAssigned(_) =>
        r := Err(UnknownMethod);
    }
  }

  /** `proxy_connect`, step by step. */
  method ProxyConnect(socket: Socket, dst: DstAddr, auth: Authentication) returns (r: Result<Rep, Error>)
    modifies socket
    ensures (r, socket.State()) == ProxyConnectWire(old(socket.State()), dst, auth)
  {
    var a := AuthSocks5Socket(socket, auth);
    if a.Err? {
      return Err(a.error);
    }
    var s := socket.Write(EncodeDstRequest(DstRequest(Connect, dst)));
    if s.Err? {
      return WriteErr(s.error);
    }
    var reply := socket.Read(DecodeDstReply);
    if reply.Err? {
      return Err(reply.error);
    }
    r := Ok(reply.value.rep);
  }

  /** `ProxySocks5::try_connect`, step by step. */
  method TryConnect(tcp: Result<(), IoKinds.IoErrorKind>, socket: Socket, dst: DstAddr, auth: Authentication)
    returns (r: Result<(), Error>)
    modifies socket
    ensures (r, socket.State()) == TryConnectWire(tcp, old(socket.State()), dst, auth)
  {
    if tcp.Err? {
      return Err(ProxyServerUnreachable);
    }
    var rep := ProxyConnect(socket, dst, auth);
    if rep == Ok(Succeeded) {
      r := Ok(());
    } else {
      socket.Mark(ShutDown(Peer));
      r := Err(ProxyServerUnreachable);
    }
  }

  // ---- properties of the client ----

  /** The client offers exactly one method: "no authentication" under NoAuth, username/password under Password. */
  lemma ClientOffersOneMethod(w: Wire, auth: Authentication, c: StatusCoding)
    requires w.writable > 0
    ensures var (_, w1) := ClientAuth(w, auth, c);
            |w1.events| > |w.events|
            && w1.events[|w.events|] == Wrote([SOCKS_VERSION, 1, if auth.NoAuth? then 0x00 else 0x02])
  {
    var offer := if auth.NoAuth? then NoAuthenticationRequired else UsernameAndPassword;
    assert EncodeMethodRequest(MethodRequest([offer])) == [SOCKS_VERSION, 1, if auth.NoAuth? then 0x00 else 0x02];
    var (_, w1) := ClientAuth(w, auth, c);
    var e1 := w.events + [Wrote(EncodeMethodRequest(MethodRequest([offer])))];
    assert w1.events[..|e1|] == e1;
  }

  /** A server that answers "no acceptable methods" ends the client's handshake with that error. */
  lemma ClientNoAcceptableMethods(w: Wire, auth: Authentication, rest: Bytes, c: StatusCoding)
    requires w.writable > 0
    requires w.unread == EncodeMethodReply(MethodReply(Method.NoAcceptableMethods)) + rest
    ensures ClientAuth(w, auth, c).0 == Err(Error.NoAcceptableMethods)
  {
    MethodReplyRoundTrip(MethodReply(Method.NoAcceptableMethods), rest);
  }

  /**
   * Under Password, a server that selects username/password gets the
   * credentials as the second message; its status byte then decides: the
   * coding's success byte (0x01 as written) ends the handshake with Ok, every
   * other byte `b` with `PasswordAuthFailure(b)`.
   */
  lemma ClientPasswordOutcome(w: Wire, auth: Authentication, b: Byte, rest: Bytes, c: StatusCoding)
    requires auth.Password? && w.writable >= 2
    requires w.unread == EncodeMethodReply(MethodReply(UsernameAndPassword)) + [PASSWORD_VERSION, b] + rest
    ensures var (r, w1) := ClientAuth(w, auth, c);
            && r == (if b == SuccessByte(c) then Ok(()) else Err(PasswordAuthFailure(b)))
            && w1.events == w.events + [Wrote([SOCKS_VERSION, 1, 0x02]),
                                        Wrote(EncodePasswordRequest(PasswordRequest(auth.username, auth.password)))]
            && w1.unread == rest
  {
    var reply := [PASSWORD_VERSION, b] + rest;
    assert w.unread == EncodeMethodReply(MethodReply(UsernameAndPassword)) + reply;
    MethodReplyRoundTrip(MethodReply(UsernameAndPassword), reply);
    assert EncodePasswordReply(PasswordReply(StatusTryFrom(b, c)), c) == [PASSWORD_VERSION, b] by {
      StatusRoundTrip(StatusOk, b, c);
    }
    PasswordReplyRoundTrip(PasswordReply(StatusTryFrom(b, c)), rest, c);
    assert EncodeMethodRequest(MethodRequest([UsernameAndPassword])) == [SOCKS_VERSION, 1, 0x02];
  }

  /** `try_connect` succeeds exactly on a Succeeded reply, and shuts the stream down on every other outcome after connecting. */
  lemma TryConnectOutcomes(tcp: Result<(), IoKinds.IoErrorKind>, w: Wire, dst: DstAddr, auth: Authentication)
    ensures var (r, w1) := TryConnectWire(tcp, w, dst, auth);
            && (r.Ok? <==> tcp.Ok? && ProxyConnectWire(w, dst, auth).0 == Ok(Succeeded))
            && (r.Err? ==> r.error == ProxyServerUnreachable)
            && (r.Err? && tcp.Ok? ==> w1.events == ProxyConnectWire(w, dst, auth).1.events + [ShutDown(Peer)])
  {
  }

  /**
   * A netway client and a netway server, both without authentication, agree:
   * the server's reply to the client's offer selects "no authentication", and
   * the client accepts it.
   */
  lemma NoAuthHandshakeAgrees(client: Wire, server: Wire, rest: Bytes, c: StatusCoding)
    requires client.writable > 0 && server.writable > 0
    requires server.unread == EncodeMethodRequest(MethodRequest([NoAuthenticationRequired])) + rest
    ensures var (sr, s1) := ServeAuth(server, NoAuth);
            var (cr, c1) := ClientAuth(client.(unread := [SOCKS_VERSION, 0x00] + client.unread), NoAuth, c);
            sr.Ok? && s1.events == server.events + [Wrote([SOCKS_VERSION, 0x00])] && cr.Ok?
  {
    NoAuthSelectsNoAuthentication(server, [NoAuthenticationRequired], rest);
    MethodReplyRoundTrip(MethodReply(NoAuthenticationRequired), client.unread);
  }

  /**
   * The password exchange between a `netway` server and a `netway` client
   * once username/password is selected: the server accepts exactly equal
   * credentials and writes its status. With the status coded as written the
   * client ends with Ok whatever the server decided; with the RFC 1929
   * coding it ends exactly as the server did.
   */
  lemma PasswordExchange(server: Wire, client: Wire, username: Bytes, password: Bytes, creds: PasswordRequest, c: StatusCoding)
    requires |creds.username| <= 255 && Utf8.Valid(creds.username)
    requires |creds.password| <= 255 && Utf8.Valid(creds.password)
    requires server.unread == EncodePasswordRequest(creds) && server.writable > 0
    requires client.writable >= 2
    ensures var (sr, s1) := AuthAfterSelection(server, username, password, c);
            var reply := EncodePasswordReply(PasswordReply(if sr.Ok? then StatusOk else Failure(0x01)), c);
            var (cr, _) := ClientAuth(client.(unread := EncodeMethodReply(MethodReply(UsernameAndPassword)) + reply),
                                      Password(creds.username, creds.password), c);
            && s1.events == server.events + [Wrote(reply)]
            && (sr.Ok? <==> username == creds.username && password == creds.password)
            && (c == AsWrittenCoding ==> cr == Ok(()))
            && (c == Rfc1929Coding ==> cr == sr)
  {
    PasswordRequestRoundTrip(creds, []);
    assert server.unread == EncodePasswordRequest(creds) + [];
    CredentialsChecked(server, username, password, creds, [], c);
    var sr := AuthAfterSelection(server, username, password, c).0;
    ClientReadsStatus(client, Password(creds.username, creds.password), sr.Ok?, c);
  }

  /** The client's result on reading the server's success (`ok`) or Failure(0x01) reply. */
  lemma ClientReadsStatus(client: Wire, auth: Authentication, ok: bool, c: StatusCoding)
    requires auth.Password? && client.writable >= 2
    ensures var reply := EncodePasswordReply(PasswordReply(if ok then StatusOk else Failure(0x01)), c);
            ClientAuth(client.(unread := EncodeMethodReply(MethodReply(UsernameAndPassword)) + reply), auth, c).0
            == if ok || c == AsWrittenCoding then Ok(()) else Err(PasswordAuthFailure(0x01))
  {
    var reply := EncodePasswordReply(PasswordReply(if ok then StatusOk else Failure(0x01)), c);
    var cw := client.(unread := EncodeMethodReply(MethodReply(UsernameAndPassword)) + reply);
    assert cw.unread == EncodeMethodReply(MethodReply(UsernameAndPassword)) + [PASSWORD_VERSION, reply[1]] + [];
    ClientPasswordOutcome(cw, auth, reply[1], [], c);
  }
}
