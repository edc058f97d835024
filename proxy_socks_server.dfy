/**
 * The SOCKS5 server of the `proxy-socks` crate (proxy-socks/src/server.rs):
 * method selection with or without an authenticator, the request, and the
 * service that connects the target and relays.
 *
 * Each step is a method over a `Socket`, proved equal to a function over the
 * `Wire` it starts from. The target connector and the relay are parameters;
 * shutting a stream down is recorded as an event and its own failure, which
 * the source only logs, is not modelled.
 */
module ProxySocksServer {
  import opened Wrappers
  import opened Text
  import opened IoKinds
  import opened ProxyAddr
  import opened ProxySocksTypes
  import opened ProxySocksError
  import ProxyAuth
  import opened Sockets

  /** The target connector: success, or the kind of the I/O error it fails with. */
  type Connector = TargetAddr -> Result<(), IoErrorKind>

  /** What the relay between the client and the target ends with. */
  type RelayOutcome = Result<(), IoErrorKind>

  /** A write's or a read's I/O failure, as this crate's error. */
  function IoErr<T>(k: IoErrorKind): Result<T, SocksError>
  {
    Err(Io(k))
  }

  /** The reply code a failed connection is reported with. */
  function RepOfKind(k: IoErrorKind): (rep: Rep)
  {
    match k
    case ConnectionRefused => Rep.ConnectionRefused
    case HostUnreachable => Rep.HostUnreachable
    case NetworkUnreachable => Rep.NetworkUnreachable
    case _ => Rep.GeneralSocksServerFailure
  }

  /** Write a selection of `m` and fail with NoAcceptableMethods, or with the write's error. */
  function Refuse(w: Wire): (Result<(), SocksError>, Wire)
  {
    var (s, w1) := Send(w, EncodeSelection(SelectionNew(Method.NoAcceptableMethods)));
    (if s.Err? then IoErr(s.error) else Err(Socks(Kind.NoAcceptableMethods)), w1)
  }

  /** `prepare`: the client must offer "no authentication", which is then selected. */
  function Prepare(w: Wire): (Result<(), SocksError>, Wire)
  {
    var (c, w1) := Recv(w, DecodeCandidate);
    if c.Err? then (IoErr(c.error), w1)
    else if c.value.0 != SOCKS_VERSION then (Err(Socks(InvalidVersion)), w1)
    else if !Occurs(c.value.1, MethodAsU8(NoAuthenticationRequired)) then Refuse(w1)
    else
      var (s, w2) := Send(w1, EncodeSelection(SelectionNew(NoAuthenticationRequired)));
      (if s.Err? then IoErr(s.error) else Ok(()), w2)
  }

  /**
   * `prepare_with`: the client must offer username/password, which is then
   * selected; the credentials must be a valid RFC 1929 request the
   * authenticator accepts, and the status written is 0x00 or 0x01.
   */
  function PrepareWith(w: Wire, auth: ProxyAuth.Authentication): (Result<(), SocksError>, Wire)
  {
    var (c, w1) := Recv(w, DecodeCandidate);
    if c.Err? then (IoErr(c.error), w1)
    else if c.value.0 != SOCKS_VERSION then (Err(Socks(InvalidVersion)), w1)
    else if !Occurs(c.value.1, MethodAsU8(UsernameAndPassword)) then Refuse(w1)
    else
      var (s, w2) := Send(w1, EncodeSelection(SelectionNew(UsernameAndPassword)));
      if s.Err? then (IoErr(s.error), w2)
      else Credentials(w2, auth)
  }

  /** The sub-negotiation of `prepare_with`, once username/password is selected. */
  function Credentials(w: Wire, auth: ProxyAuth.Authentication): (Result<(), SocksError>, Wire)
  {
    var (up, w1) := Recv(w, DecodeUserPass);
    if up.Err? then (IoErr(up.error), w1)
    else if UserPassIsValid(up.value).Err? then (Err(UserPassIsValid(up.value).error), w1)
    else if !ProxyAuth.Authenticate(auth, up.value.username, up.value.password) then
      var (s, w2) := Send(w1, EncodeStatus(StatusNew(0x01)));
      (if s.Err? then IoErr(s.error) else Err(Socks(Unauthorized)), w2)
    else
      var (s, w2) := Send(w1, EncodeStatus(StatusNew(0x00)));
      (if s.Err? then IoErr(s.error) else Ok(()), w2)
  }

  /**
   * `handle`: a valid request with a known address type and the CONNECT
   * command yields its target; anything else is answered with the reply
   * code saying why.
   */
  function Handle(w: Wire): (Result<TargetAddr, SocksError>, Wire)
  {
    var (req, w1) := Recv(w, DecodeRequest);
    if req.Err? then (IoErr(req.error), w1)
    else if RequestIsValid(req.value).Err? then (Err(RequestIsValid(req.value).error), w1)
    else if req.value.target.None? then
      var (s, w2) := Send(w1, EncodeReply(ReplyNew(Rep.AddressTypeNotSupported)));
      (if s.Err? then IoErr(s.error) else Err(Socks(Kind.AddressTypeNotSupported)), w2)
    else if IsConnect(req.value) then (Ok(req.value.target.value), w1)
    else
      var (s, w2) := Send(w1, EncodeReply(ReplyNew(Rep.CommandNotSupported)));
      (if s.Err? then IoErr(s.error) else Err(Socks(Kind.CommandNotSupported)), w2)
  }

  /** The method negotiation `call` runs: `prepare_with` under an authenticator, `prepare` without. */
  function Negotiate(w: Wire, auth: Option<ProxyAuth.Authentication>): (Result<(), SocksError>, Wire)
  {
    match auth
    case Some(a) => PrepareWith(w, a)
    case None => Prepare(w)
  }

  /**
   * `Server::call`: negotiate and handle the request (shutting the socket
   * down if either fails), connect the target, then reply Succeeded and
   * relay, or reply with the failure's code and shut the socket down.
   */
  function Serve(w: Wire, auth: Option<ProxyAuth.Authentication>, connect: Connector, relay: RelayOutcome)
    : (Result<(), SocksError>, Wire)
  {
    var (n, w1) := Negotiate(w, auth);
    if n.Err? then (Err(n.error), Note(w1, ShutDown(Peer)))
    else
      var (t, w2) := Handle(w1);
      if t.Err? then (Err(t.error), Note(w2, ShutDown(Peer)))
      else ConnectTarget(Note(w2, Dialed), t.value, connect, relay)
  }

  /** The tail of `Server::call` once the target is known and dialed. */
  function ConnectTarget(w: Wire, target: TargetAddr, connect: Connector, relay: RelayOutcome): (Result<(), SocksError>, Wire)
  {
    match connect(target)
    case Ok(_) =>
      var (s, w1) := Send(w, EncodeReply(ReplyNew(Succeeded)));
      if s.Err? then (IoErr(s.error), Note(w1, ShutDown(Egress)))
      else (if relay.Err? then IoErr(relay.error) else Ok(()), Note(w1, Relayed))
    case Err(k) =>
      var (_, w1) := Send(w, EncodeReply(ReplyNew(RepOfKind(k))));
      (IoErr(k), Note(w1, ShutDown(Peer)))
  }

  /** `Server`: an optional authenticator and the target connector. */
  class Server {
    var authenticate: Option<ProxyAuth.Authentication>
    const connect: Connector

    /** `Server::new`: no authenticator. */
    constructor New(connect: Connector)
      ensures authenticate == None && this.connect == connect
    {
      authenticate := None;
      this.connect := connect;
    }

    /** `set_authenticate`. */
    method SetAuthenticate(a: ProxyAuth.Authentication)
      modifies this
      ensures authenticate == Some(a)
    {
      authenticate := Some(a);
    }

    /** `Server::call`, step by step on the client's socket. */
    method Call(socket: Socket, relay: RelayOutcome) returns (r: Result<(), SocksError>)
      modifies socket
      ensures (r, socket.State()) == Serve(old(socket.State()), authenticate, connect, relay)
    {
      var n: Result<(), SocksError>;
      if authenticate.Some? {
        n := PrepareWithOn(socket, authenticate.value);
      } else {
        n := PrepareOn(socket);
      }
      if n.Err? {
        socket.Mark(ShutDown(Peer));
        return Err(n.error);
      }
      var t := HandleOn(socket);
      if t.Err? {
        socket.Mark(ShutDown(Peer));
        return Err(t.error);
      }
      socket.Mark(Dialed);
      var target := t.value;
      var conn := connect(target);
      if conn.Ok? {
        var s := socket.Write(EncodeReply(ReplyNew(Succeeded)));
        if s.Err? {
          socket.Mark(ShutDown(Egress));
          return IoErr(s.error);
        }
        socket.Mark(Relayed);
        r := if relay.Err? then IoErr(relay.error) else Ok(());
      } else {
        var _ := socket.Write(EncodeReply(ReplyNew(RepOfKind(conn.error))));
        socket.Mark(ShutDown(Peer));
        r := IoErr(conn.error);
      }
    }
  }

  /** `prepare`, step by step. */
  method PrepareOn(socket: Socket) returns (r: Result<(), SocksError>)
    modifies socket
    ensures (r, socket.State()) == Prepare(old(socket.State()))
  {
    var c := socket.Read(DecodeCandidate);
    if c.Err? {
      return IoErr(c.error);
    }
    if c.value.0 != SOCKS_VERSION {
      return Err(Socks(InvalidVersion));
    }
    var m := NoAuthenticationRequired;
    if !Occurs(c.value.1, MethodAsU8(NoAuthenticationRequired)) {
      m := Method.NoAcceptableMethods;
    }
    var s := socket.Write(EncodeSelection(SelectionNew(m)));
    if s.Err? {
      return IoErr(s.error);
    }
    r := if m == Method.NoAcceptableMethods then Err(Socks(Kind.NoAcceptableMethods)) else Ok(());
  }

  /** `prepare_with`, step by step. */
  method PrepareWithOn(socket: Socket, auth: ProxyAuth.Authentication) returns (r: Result<(), SocksError>)
    modifies socket
    ensures (r, socket.State()) == PrepareWith(old(socket.State()), auth)
  {
    var c := socket.Read(DecodeCandidate);
    if c.Err? {
      return IoErr(c.error);
    }
    if c.value.0 != SOCKS_VERSION {
      return Err(Socks(InvalidVersion));
    }
    if !Occurs(c.value.1, MethodAsU8(UsernameAndPassword)) {
      var s := socket.Write(EncodeSelection(SelectionNew(Method.NoAcceptableMethods)));
      if s.Err? {
        return IoErr(s.error);
      }
      return Err(Socks(Kind.NoAcceptableMethods));
    }
    var s := socket.Write(EncodeSelection(SelectionNew(UsernameAndPassword)));
    if s.Err? {
      return IoErr(s.error);
    }
    var up := socket.Read(DecodeUserPass);
    if up.Err? {
      return IoErr(up.error);
    }
    var valid := UserPassIsValid(up.value);
    if valid.Err? {
      return Err(valid.error);
    }
    var status: Byte := if ProxyAuth.Authenticate(auth, up.value.username, up.value.password) then 0x00 else 0x01;
    var s2 := socket.Write(EncodeStatus(StatusNew(status)));
    if s2.Err? {
      return IoErr(s2.error);
    }
    r := if status == 0x01 then Err(Socks(Unauthorized)) else Ok(());
  }

  /** `handle`, step by step. */
  method HandleOn(socket: Socket) returns (r: Result<TargetAddr, SocksError>)
    modifies socket
    ensures (r, socket.State()) == Handle(old(socket.State()))
  {
    var req := socket.Read(DecodeRequest);
    if req.Err? {
      return IoErr(req.error);
    }
    var valid := RequestIsValid(req.value);
    if valid.Err? {
      return Err(valid.error);
    }
    if req.value.target.Some? && IsConnect(req.value) {
      return Ok(req.value.target.value);
    }
    var rep := if req.value.target.None? then Rep.AddressTypeNotSupported else Rep.CommandNotSupported;
    var s := socket.Write(EncodeReply(ReplyNew(rep)));
    if s.Err? {
      return IoErr(s.error);
    }
    r := Err(Socks(if rep == Rep.AddressTypeNotSupported then Kind.AddressTypeNotSupported else Kind.CommandNotSupported));
  }

  // ---- properties ----

  /** The reply codes a connection failure is reported with: three kinds have their own, all others are a general failure. */
  lemma RepOfKindCases(k: IoErrorKind)
    ensures RepOfKind(k) != Succeeded
    ensures RepOfKind(k) == Rep.GeneralSocksServerFailure
            <==> k !in {IoErrorKind.ConnectionRefused, IoErrorKind.HostUnreachable, IoErrorKind.NetworkUnreachable}
  {
  }

  /**
   * Without an authenticator, a valid offer succeeds exactly when it
   * includes "no authentication"; the one selection written says which.
   */
  lemma PrepareSelects(w: Wire, methods: Bytes, rest: Bytes)
    requires |methods| <= 255 && w.writable > 0
    requires w.unread == EncodeCandidate(SOCKS_VERSION, methods) + rest
    ensures var (r, w1) := Prepare(w);
            var offered := MethodAsU8(NoAuthenticationRequired) in methods;
            && (r.Ok? <==> offered)
            && (r.Err? ==> r.error == Socks(Kind.NoAcceptableMethods))
            && w1.unread == rest
            && w1.events == w.events + [Wrote([SOCKS_VERSION, if offered then 0x00 else 0xff])]
  {
    CandidateRoundTrip(SOCKS_VERSION, methods, rest);
  }

  /**
   * With an authenticator, once username/password is selected, a valid
   * credentials request passes exactly when the authenticator accepts it,
   * and the status written is 0x00 for success and 0x01 for failure.
   */
  lemma CredentialsChecked(w: Wire, auth: ProxyAuth.Authentication, username: Bytes, password: Bytes, rest: Bytes)
    requires |username| <= 255 && Utf8.Valid(username) && |password| <= 255 && Utf8.Valid(password)
    requires w.unread == EncodeUserPass(UserPassNew(username, password)) + rest && w.writable > 0
    ensures var (r, w1) := Credentials(w, auth);
            var ok := ProxyAuth.Authenticate(auth, username, password);
            && (r.Ok? <==> ok)
            && (r.Err? ==> r.error == Socks(Unauthorized))
            && w1.events == w.events + [Wrote([AUTH_VERSION, if ok then 0x00 else 0x01])]
  {
    UserPassRoundTrip(UserPassNew(username, password), rest);
  }

  /**
   * A credentials request built by `UsernameAndPassword::new` as written
   * carries version 0x05, and this server rejects it as an invalid version
   * whatever the credentials, writing no status.
   */
  lemma AsWrittenCredentialsRejected(w: Wire, auth: ProxyAuth.Authentication, username: Bytes, password: Bytes, rest: Bytes)
    requires |username| <= 255 && Utf8.Valid(username) && |password| <= 255 && Utf8.Valid(password)
    requires w.unread == EncodeUserPass(UserPassNewAsWritten(username, password)) + rest
    ensures Credentials(w, auth) == (Err(Socks(InvalidVersion)), w.(unread := rest))
  {
    UserPassRoundTrip(UserPassNewAsWritten(username, password), rest);
  }

  /** A request with an unknown address type, or any command but CONNECT, is answered and refused without yielding a target. */
  lemma HandleRefuses(w: Wire, command: Command, target: TargetAddr, rest: Bytes)
    requires command != Connect && EncodableTarget(target) && w.writable > 0
    requires w.unread == EncodeRequest(Request(SOCKS_VERSION, CommandAsU8(command), Some(target))) + rest
    ensures Handle(w) == (Err(Socks(Kind.CommandNotSupported)),
                          w.(unread := rest, events := w.events + [Wrote(EncodeReply(ReplyNew(Rep.CommandNotSupported)))],
                             writable := w.writable - 1))
  {
    RequestRoundTrip(Request(SOCKS_VERSION, CommandAsU8(command), Some(target)), rest);
    CommandFromAsU8(command);
  }

  /** A CONNECT request yields its target and writes nothing. */
  lemma HandleConnect(w: Wire, target: TargetAddr, rest: Bytes)
    requires EncodableTarget(target)
    requires w.unread == EncodeRequest(RequestNew(target)) + rest
    ensures Handle(w) == (Ok(target), w.(unread := rest))
  {
    RequestRoundTrip(RequestNew(target), rest);
  }

  /**
   * Once the target is dialed: the relay runs only after a Succeeded reply
   * was written; a failed connection is answered with its own reply code
   * (if the peer still accepts writes) and the socket is shut down.
   */
  lemma ConnectTargetOutcomes(w: Wire, target: TargetAddr, connect: Connector, relay: RelayOutcome)
    ensures var (r, w1) := ConnectTarget(w, target, connect, relay);
            && (Relayed in w1.events[|w.events|..] <==> connect(target).Ok? && w.writable > 0)
            && (Relayed in w1.events[|w.events|..] ==>
                  w1.events == w.events + [Wrote(EncodeReply(ReplyNew(Succeeded))), Relayed])
            && (connect(target).Err? ==>
                  r == IoErr(connect(target).error)
                  && w1.events == w.events
                                  + (if w.writable > 0 then [Wrote(EncodeReply(ReplyNew(RepOfKind(connect(target).error))))] else [])
                                  + [ShutDown(Peer)])
  {
    var (r, w1) := ConnectTarget(w, target, connect, relay);
    var added := ConnectTargetAdded(w, target, connect, relay);
    assert w1.events[|w.events|..] == added;
    if connect(target).Err? {
      assert added == (if w.writable > 0 then [Wrote(EncodeReply(ReplyNew(RepOfKind(connect(target).error))))] else [])
                      + [ShutDown(Peer)];
    }
  }

  /** The events `ConnectTarget` adds, case by case. */
  lemma ConnectTargetAdded(w: Wire, target: TargetAddr, connect: Connector, relay: RelayOutcome) returns (added: seq<Event>)
    ensures added == if connect(target).Ok? then
                       if w.writable > 0 then [Wrote(EncodeReply(ReplyNew(Succeeded))), Relayed] else [ShutDown(Egress)]
                     else
                       (if w.writable > 0 then [Wrote(EncodeReply(ReplyNew(RepOfKind(connect(target).error))))] else [])
                       + [ShutDown(Peer)]
    ensures ConnectTarget(w, target, connect, relay).1.events == w.events + added
  {
    if connect(target).Ok? {
      added := if w.writable > 0 then [Wrote(EncodeReply(ReplyNew(Succeeded))), Relayed] else [ShutDown(Egress)];
    } else {
      added := (if w.writable > 0 then [Wrote(EncodeReply(ReplyNew(RepOfKind(connect(target).error))))] else [])
               + [ShutDown(Peer)];
    }
  }

  /** Whenever negotiation or the request fails, nothing is dialed and the socket is shut down last. */
  lemma FailedHandshakeShutsDown(w: Wire, auth: Option<ProxyAuth.Authentication>, connect: Connector, relay: RelayOutcome)
    requires Negotiate(w, auth).0.Err? || Handle(Negotiate(w, auth).1).0.Err?
    ensures Serve(w, auth, connect, relay).0.Err?
    ensures ShutDownAfterWrites(w, Serve(w, auth, connect, relay).1)
  {
    var w2 := Negotiate(w, auth).1;
    NegotiateOnlyWrites(w, auth);
    if Negotiate(w, auth).0.Err? {
      ShutDownEnds(w, w2);
    } else {
      HandleOnlyWrites(w2);
      OnlyWritesTrans(w, w2, Handle(w2).1);
      ShutDownEnds(w, Handle(w2).1);
    }
  }

  /** The events after `w` are writes followed by a shutdown of the socket: nothing was dialed. */
  predicate ShutDownAfterWrites(w: Wire, w1: Wire)
  {
    |w1.events| > |w.events| && w1.events[..|w.events|] == w.events
    && w1.events[|w1.events| - 1] == ShutDown(Peer)
    && Dialed !in w1.events[|w.events|..]
  }

  lemma ShutDownEnds(w: Wire, w3: Wire)
    requires OnlyWrites(w, w3)
    ensures ShutDownAfterWrites(w, Note(w3, ShutDown(Peer)))
  {
    var w1 := Note(w3, ShutDown(Peer));
    var added := w3.events[|w.events|..];
    assert w1.events[|w.events|..] == added + [ShutDown(Peer)];
    assert forall i :: 0 <= i < |added| ==> added[i].Wrote?;
    assert w1.events[..|w.events|] == w3.events[..|w.events|];
  }

  lemma PrepareOnlyWrites(w: Wire)
    ensures OnlyWrites(w, Prepare(w).1)
  {
    var w1 := Recv(w, DecodeCandidate).1;
    SendOnlyWrites(w1, EncodeSelection(SelectionNew(Method.NoAcceptableMethods)));
    SendOnlyWrites(w1, EncodeSelection(SelectionNew(NoAuthenticationRequired)));
  }

  lemma CredentialsOnlyWrites(w: Wire, auth: ProxyAuth.Authentication)
    ensures OnlyWrites(w, Credentials(w, auth).1)
  {
    CredentialsSteps(w, auth);
    ReadThenWrite(w, Recv(w, DecodeUserPass).1, Credentials(w, auth).1, EncodeStatus(StatusNew(0x01)), EncodeStatus(StatusNew(0x00)));
  }

  /** `Credentials` reads the sub-negotiation and then writes at most one status. */
  lemma CredentialsSteps(w: Wire, auth: ProxyAuth.Authentication)
    ensures var w1 := Recv(w, DecodeUserPass).1;
            var w2 := Credentials(w, auth).1;
            w1.events == w.events
            && (w2 == w1 || w2 == Send(w1, EncodeStatus(StatusNew(0x01))).1 || w2 == Send(w1, EncodeStatus(StatusNew(0x00))).1)
  {
  }

  /** A read followed by at most one of two writes only writes. */
  lemma ReadThenWrite(w: Wire, w1: Wire, w2: Wire, a: Bytes, b: Bytes)
    requires w1.events == w.events
    requires w2 == w1 || w2 == Send(w1, a).1 || w2 == Send(w1, b).1
    ensures OnlyWrites(w, w2)
  {
    SendOnlyWrites(w1, a);
    SendOnlyWrites(w1, b);
  }

  lemma PrepareWithOnlyWrites(w: Wire, auth: ProxyAuth.Authentication)
    ensures OnlyWrites(w, PrepareWith(w, auth).1)
  {
    var w1 := Recv(w, DecodeCandidate).1;
    SendOnlyWrites(w1, EncodeSelection(SelectionNew(Method.NoAcceptableMethods)));
    var w2 := Send(w1, EncodeSelection(SelectionNew(UsernameAndPassword))).1;
    SendOnlyWrites(w1, EncodeSelection(SelectionNew(UsernameAndPassword)));
    CredentialsOnlyWrites(w2, auth);
    OnlyWritesTrans(w, w2, Credentials(w2, auth).1);
  }

  /** Negotiation only reads and writes. */
  lemma NegotiateOnlyWrites(w: Wire, auth: Option<ProxyAuth.Authentication>)
    ensures OnlyWrites(w, Negotiate(w, auth).1)
  {
    if auth.Some? {
      PrepareWithOnlyWrites(w, auth.value);
    } else {
      PrepareOnlyWrites(w);
    }
  }

  /** Handling the request only reads and writes. */
  lemma HandleOnlyWrites(w: Wire)
    ensures OnlyWrites(w, Handle(w).1)
  {
    var w1 := Recv(w, DecodeRequest).1;
    SendOnlyWrites(w1, EncodeReply(ReplyNew(Rep.AddressTypeNotSupported)));
    SendOnlyWrites(w1, EncodeReply(ReplyNew(Rep.CommandNotSupported)));
  }
}
