/**
 * How the two HTTP CONNECT implementations of the repository meet: the
 * `proxy-tunnel` client against the `proxy-tunnel` server, and the
 * `proxy-tunnel` client against the netway tunnel server.
 */
module TunnelInterop {
  import opened Wrappers
  import opened Text
  import ProxyAuth
  import ProxyAddr
  import Base64
  import Utf8
  import Sockets
  import NetwayAuth
  import NetwayDst
  import NTP = NetwayTunnelProtocol
  import NT = NetwayTunnel
  import PTC = ProxyTunnelClient
  import PTS = ProxyTunnelServer

  // ---- the proxy-tunnel client and the proxy-tunnel server ----

  /** The value the client sends has no white space at either end. */
  lemma EncodedValueTrimmed(b: PTC.Basic)
    requires b.decoded != []
    ensures Trim(PTC.BasicEncode(b)) == PTC.BasicEncode(b)
    ensures StartsWith(PTC.BasicEncode(b), PTC.BASIC_PREFIX)
  {
    var v := PTC.BasicEncode(b);
    var e := Base64.Encode(b.decoded);
    assert v == PTC.BASIC_PREFIX + e;
    assert |e| > 0;
    assert v[|v| - 1] == e[|e| - 1];
    assert v[0] == 66;
    if |v| >= 2 {
      assert v[|v| - 2..][0] == v[|v| - 2];
    }
    if |v| >= 3 {
      assert v[|v| - 3..][0] == v[|v| - 3];
    }
    TrimNoSpace(v);
  }

  /** As written, the value the client sends never yields credentials: base 64 text has no colon. */
  lemma AsWrittenCredentialsOfEncoded(b: PTC.Basic)
    requires b.decoded != []
    ensures PTS.CredentialsAsWritten(PTC.BasicEncode(b)) == None
  {
    EncodedValueTrimmed(b);
    EncodedTailColonFree(b);
    AsWrittenWithoutColon(PTC.BasicEncode(b));
  }

  /** After "Basic " the client's value is base 64 text, which has no colon. */
  lemma EncodedTailColonFree(b: PTC.Basic)
    ensures COLON !in PTC.BasicEncode(b)[|PTC.BASIC_PREFIX|..]
  {
    var v := PTC.BasicEncode(b);
    var e := Base64.Encode(b.decoded);
    assert v == PTC.BASIC_PREFIX + e;
    assert v[|PTC.BASIC_PREFIX|..] == e;
  }

  /** As written, a trimmed value with no colon after "Basic " yields no credentials. */
  lemma AsWrittenWithoutColon(v: Bytes)
    requires Trim(v) == v && StartsWith(v, PTC.BASIC_PREFIX) && COLON !in v[|PTC.BASIC_PREFIX|..]
    ensures PTS.CredentialsAsWritten(v) == None
  {
  }

  /** Corrected, the value the client sends yields its user name and password. */
  lemma CredentialsOfEncoded(u: Bytes, p: Bytes)
    requires COLON !in u && Utf8.Valid(u) && Utf8.Valid(p)
    ensures PTS.Credentials(PTC.BasicEncode(PTC.BasicNew(u, p))) == Some((u, p))
  {
    var b := PTC.BasicNew(u, p);
    var v := PTC.BasicEncode(b);
    assert PTS.DecodeCredentials(v) == Some((u, p)) by {
      EncodedValueTrimmed(b);
      PTC.BasicRoundTrip(u, p);
      DecodesTrimmed(v, b);
    }
    assert Trim(v) == v by {
      EncodedValueTrimmed(b);
    }
    TrimmedCredentials(v);
  }

  /** Corrected, a visible value with no white space at its ends is read as it stands. */
  lemma TrimmedCredentials(v: Bytes)
    requires PTC.VisibleAscii(v) && Trim(v) == v
    ensures PTS.Credentials(v) == PTS.DecodeCredentials(v)
  {
  }

  /** A value that starts with "Basic " and decodes yields the two halves of what it decodes to. */
  lemma DecodesTrimmed(v: Bytes, b: PTC.Basic)
    requires StartsWith(v, PTC.BASIC_PREFIX) && PTC.BasicDecode(v) == Some(b)
    ensures PTS.DecodeCredentials(v) == Some(PTS.Halves(b))
  {
  }

  /**
   * The server as written never accepts what the client
   * sends: the base 64 text has no colon, so every CONNECT carrying it is
   * answered with the 407 challenge, whatever the credentials.
   */
  lemma AsWrittenRefusesOwnClient(a: ProxyAuth.Authentication, uri: PTS.Uri, u: Bytes, p: Bytes)
    requires uri.authority.Some?
    ensures PTS.ServeAsWritten(Some(a), PTS.Request(PTS.CONNECT, uri, Some(PTC.BasicEncode(PTC.BasicNew(u, p)))))
            == Ok(PTS.Answered(PTS.Challenge(), None))
  {
    AsWrittenCredentialsOfEncoded(PTC.BasicNew(u, p));
  }

  /**
   * Corrected, the server reads back the credentials of the client: it
   * opens the tunnel to the requested domain exactly when the
   * authenticator accepts (u, p), and answers 401 otherwise.
   */
  lemma AcceptsOwnClient(a: ProxyAuth.Authentication, uri: PTS.Uri, u: Bytes, p: Bytes)
    requires uri.authority.Some? && COLON !in u && Utf8.Valid(u) && Utf8.Valid(p)
    ensures var r := PTS.Serve(Some(a), PTS.Request(PTS.CONNECT, uri, Some(PTC.BasicEncode(PTC.BasicNew(u, p)))));
            var (host, port) := PTS.HostAddr(uri).value;
            r == if ProxyAuth.Authenticate(a, u, p) then PTS.Answered(PTS.Response(200, [], []), Some(ProxyAddr.Domain(host, port)))
                 else PTS.Answered(PTS.Response(401, [], []), None)
  {
    CredentialsOfEncoded(u, p);
    ServeWithCredentials(a, uri, PTC.BasicEncode(PTC.BasicNew(u, p)), u, p);
  }

  /** The corrected server on a header value that yields (u, p). */
  lemma ServeWithCredentials(a: ProxyAuth.Authentication, uri: PTS.Uri, v: Bytes, u: Bytes, p: Bytes)
    requires uri.authority.Some? && PTS.Credentials(v) == Some((u, p))
    ensures var r := PTS.Serve(Some(a), PTS.Request(PTS.CONNECT, uri, Some(v)));
            var (host, port) := PTS.HostAddr(uri).value;
            r == if ProxyAuth.Authenticate(a, u, p) then PTS.Answered(PTS.Response(200, [], []), Some(ProxyAddr.Domain(host, port)))
                 else PTS.Answered(PTS.Response(401, [], []), None)
  {
    var refused := if ProxyAuth.Authenticate(a, u, p) then None else Some(401);
    RefusedWithCredentials(a, v, u, p);
    ServeRefusedAs(a, uri, Some(v), refused);
    AnswerOf(uri, refused);
  }

  /** The corrected credential check on a header value that yields (u, p). */
  lemma RefusedWithCredentials(a: ProxyAuth.Authentication, v: Bytes, u: Bytes, p: Bytes)
    requires PTS.Credentials(v) == Some((u, p))
    ensures PTS.Refused(Some(a), Some(v)) == if ProxyAuth.Authenticate(a, u, p) then None else Some(401)
  {
  }

  /** The answer to a CONNECT with an authority that is let through or refused with 401. */
  lemma AnswerOf(uri: PTS.Uri, refused: Option<nat>)
    requires uri.authority.Some? && refused in {None, Some(401)}
    ensures var (host, port) := PTS.HostAddr(uri).value;
            PTS.Answer(uri, refused) == if refused.None? then PTS.Answered(PTS.Response(200, [], []), Some(ProxyAddr.Domain(host, port)))
                                        else PTS.Answered(PTS.Response(401, [], []), None)
  {
  }

  /** The corrected server once the credential check has settled on `refused`. */
  lemma ServeRefusedAs(a: ProxyAuth.Authentication, uri: PTS.Uri, header: Option<Bytes>, refused: Option<nat>)
    requires uri.authority.Some? && PTS.Refused(Some(a), header) == refused
    ensures PTS.Serve(Some(a), PTS.Request(PTS.CONNECT, uri, header)) == PTS.Answer(uri, refused)
  {
  }

  /**
   * The netway client's `Proxy-Authorization` value is the one the
   * proxy-tunnel client sends; the corrected proxy-tunnel server reads
   * the netway client's credentials back, the server as written never does.
   */
  lemma NetwayClientCredentials(u: Bytes, p: Bytes)
    requires COLON !in u && Utf8.Valid(u) && Utf8.Valid(p)
    ensures NT.AuthorizationHeader(u, p).value == PTC.BasicEncode(PTC.BasicNew(u, p))
    ensures PTS.Credentials(NT.AuthorizationHeader(u, p).value) == Some((u, p))
    ensures PTS.CredentialsAsWritten(NT.AuthorizationHeader(u, p).value) == None
  {
    assert NT.AuthorizationHeader(u, p).value == PTC.BasicEncode(PTC.BasicNew(u, p));
    CredentialsOfEncoded(u, p);
    AsWrittenCredentialsOfEncoded(PTC.BasicNew(u, p));
  }

  // ---- the proxy-tunnel client and the netway server ----

  /** The credentials the proxy-tunnel client is given, as its `Basic` value. */
  function ClientBasic(credentials: Option<(Bytes, Bytes)>): Option<PTC.Basic>
  {
    if credentials.Some? then Some(PTC.BasicNew(credentials.value.0, credentials.value.1)) else None
  }

  /** The same credentials as the netway server demands them. */
  function ServerAuth(credentials: Option<(Bytes, Bytes)>): NetwayAuth.Authentication
  {
    if credentials.Some? then NetwayAuth.Password(credentials.value.0, credentials.value.1) else NetwayAuth.NoAuth
  }

  /** The headers of the proxy-tunnel client's request, as the netway server reads them. */
  function TunnelHeaders(hp: Bytes, credentials: Option<(Bytes, Bytes)>): seq<NTP.Header>
  {
    [NTP.Header(Lit("Host"), hp), NTP.Header(Lit("Proxy-Connection"), Lit("Keep-Alive"))]
    + (if credentials.Some? then [NT.AuthorizationHeader(credentials.value.0, credentials.value.1)] else [])
  }

  /** A CONNECT request for `hp` with the headers `hs`, line by line as netway displays it. */
  function ConnectLines(hp: Bytes, hs: seq<NTP.Header>): seq<Bytes>
  {
    [NTP.ShowRequestLine(NTP.RequestLine(NT.CONNECT, hp, NT.HTTP11)) + NTP.CRLF] + NTP.HeaderText(hs) + [NTP.CRLF]
  }

  lemma RequestLineLiterals()
    ensures Lit("CONNECT ") == NT.CONNECT + [SPACE]
    ensures Lit(" HTTP/1.1") == [SPACE] + NT.HTTP11
  {
  }

  lemma HeaderLiterals()
    ensures Lit("Host: ") == Lit("Host") + [COLON, SPACE]
    ensures Lit("Proxy-Connection: Keep-Alive") == Lit("Proxy-Connection") + [COLON, SPACE] + Lit("Keep-Alive")
    ensures Lit("Proxy-Authorization: ") == Lit("Proxy-Authorization") + [COLON, SPACE]
  {
  }

  /** The request line netway displays is the proxy-tunnel client's first line. */
  lemma FirstLineText(hp: Bytes)
    ensures NTP.ShowRequestLine(NTP.RequestLine(NT.CONNECT, hp, NT.HTTP11)) + NTP.CRLF
            == Lit("CONNECT ") + hp + Lit(" HTTP/1.1") + PTC.CRLF
  {
    RequestLineLiterals();
  }

  /** The header lines netway displays for `TunnelHeaders` are the proxy-tunnel client's header lines. */
  lemma HeaderLinesText(hp: Bytes, credentials: Option<(Bytes, Bytes)>)
    ensures var hs := TunnelHeaders(hp, credentials);
            NTP.HeaderText(hs)[..2] == [Lit("Host: ") + hp + PTC.CRLF, Lit("Proxy-Connection: Keep-Alive") + PTC.CRLF]
            && NTP.Concat(NTP.HeaderText(hs)[2..])
               == (if credentials.Some? then Lit("Proxy-Authorization: ") + PTC.BasicEncode(ClientBasic(credentials).value) + PTC.CRLF else [])
  {
    var hs := TunnelHeaders(hp, credentials);
    HeaderLiterals();
    var text := NTP.HeaderText(hs);
    assert text[1..] == NTP.HeaderText(hs[1..]);
    assert text[2..] == NTP.HeaderText(hs[1..])[1..] == NTP.HeaderText(hs[2..]);
    if credentials.Some? {
      var (u, p) := credentials.value;
      assert hs[2..] == [NT.AuthorizationHeader(u, p)];
      assert NTP.HeaderText(hs[2..]) == [NTP.ShowHeader(hs[2]) + NTP.CRLF];
      assert NTP.Concat(NTP.HeaderText(hs[2..])) == NTP.ShowHeader(hs[2]) + NTP.CRLF + [];
    } else {
      assert hs[2..] == [];
    }
  }

  /** The proxy-tunnel client's request is a CONNECT line, its headers and a blank line, as netway displays them. */
  lemma TunnelRequestLines(host: Bytes, port: Uint16, credentials: Option<(Bytes, Bytes)>)
    ensures var hp := PTC.Authority(host, port);
            PTC.TunnelRequest(host, port, ClientBasic(credentials)) == NTP.Concat(ConnectLines(hp, TunnelHeaders(hp, credentials)))
  {
    var hp := PTC.Authority(host, port);
    var text := NTP.HeaderText(TunnelHeaders(hp, credentials));
    FirstLineText(hp);
    HeaderLinesText(hp, credentials);
    assert text[0] == text[..2][0] && text[1] == text[..2][1];
    ConcatLines(NTP.ShowRequestLine(NTP.RequestLine(NT.CONNECT, hp, NT.HTTP11)) + NTP.CRLF, text);
  }

  /** A first line, at least two header lines and the closing empty line, concatenated. */
  lemma ConcatLines(l0: Bytes, text: seq<Bytes>)
    requires |text| >= 2
    ensures NTP.Concat([l0] + text + [NTP.CRLF]) == l0 + text[0] + text[1] + NTP.Concat(text[2..]) + NTP.CRLF
  {
    var rest := text[2..] + [NTP.CRLF];
    var x := NTP.Concat(text[2..]);
    calc {
      NTP.Concat([l0] + text + [NTP.CRLF]);
      { assert [l0] + text + [NTP.CRLF] == [l0] + (text + [NTP.CRLF]); ConcatCons(l0, text + [NTP.CRLF]); }
      l0 + NTP.Concat(text + [NTP.CRLF]);
      { TwoThen(text, NTP.CRLF); }
      l0 + NTP.Concat([text[0]] + ([text[1]] + rest));
      { ConcatCons(text[0], [text[1]] + rest); ConcatCons(text[1], rest); }
      l0 + (text[0] + (text[1] + NTP.Concat(rest)));
      { NTP.ConcatAppend(text[2..], [NTP.CRLF]); ConcatOne(NTP.CRLF); }
      l0 + (text[0] + (text[1] + (x + NTP.CRLF)));
      { Text.Assoc5(l0, text[0], text[1], x, NTP.CRLF); }
      l0 + text[0] + text[1] + x + NTP.CRLF;
    }
  }

  lemma TwoThen(text: seq<Bytes>, c: Bytes)
    requires |text| >= 2
    ensures text + [c] == [text[0]] + ([text[1]] + (text[2..] + [c]))
  {
    Text.HeadTail(text);
    Text.HeadTail(text[1..]);
    assert text[1..][1..] == text[2..];
  }

  lemma ConcatOne(c: Bytes)
    ensures NTP.Concat([c]) == c
  {
    assert NTP.Concat([c]) == c + [];
  }

  lemma ConcatCons(h: Bytes, t: seq<Bytes>)
    ensures NTP.Concat([h] + t) == h + NTP.Concat(t)
  {
    assert ([h] + t)[1..] == t;
  }

  /** "host:port" of a printable host with no space is printable and has no space. */
  lemma AuthorityPrintable(host: Bytes, port: Uint16)
    requires NTP.Printable(host) && SPACE !in host
    ensures NTP.Printable(PTC.Authority(host, port)) && SPACE !in PTC.Authority(host, port)
  {
    var d := ShowNat(port);
    var hp := PTC.Authority(host, port);
    assert forall i :: 0 <= i < |d| ==> 48 <= d[i] <= 57;
    assert forall i :: |host| + 1 <= i < |hp| ==> hp[i] == d[i - |host| - 1];
  }

  lemma KeepAliveReadable()
    ensures NTP.Readable(NTP.Header(Lit("Proxy-Connection"), Lit("Keep-Alive")))
  {
    NT.PrintableLit("Proxy-Connection");
    NT.ColonFreeLit("Proxy-Connection");
    NT.PrintableLit("Keep-Alive");
    NTP.PrintableReadable(NTP.Header(Lit("Proxy-Connection"), Lit("Keep-Alive")));
  }

  lemma TunnelHeadersReadable(hp: Bytes, credentials: Option<(Bytes, Bytes)>)
    requires NTP.Printable(hp)
    ensures forall i :: 0 <= i < |TunnelHeaders(hp, credentials)| ==> NTP.Readable(TunnelHeaders(hp, credentials)[i])
  {
    var hs := TunnelHeaders(hp, credentials);
    forall i | 0 <= i < |hs|
      ensures NTP.Readable(hs[i])
    {
      if i == 0 {
        NT.HostHeaderReadable(hp);
      } else if i == 1 {
        KeepAliveReadable();
      } else {
        assert credentials.Some? && hs[i] == NT.AuthorizationHeader(credentials.value.0, credentials.value.1);
        NT.AuthorizationReadable(credentials.value.0, credentials.value.1);
      }
    }
  }

  /**
   * A CONNECT for a printable host with no space, followed by readable
   * headers and a blank line, the netway server reads back as that host
   * (the protocol keeps its CR) and those headers, and nothing after them.
   */
  lemma ReadsConnect(w: Sockets.Wire, hp: Bytes, hs: seq<NTP.Header>, rest: Bytes)
    requires NTP.Printable(hp) && SPACE !in hp
    requires forall i :: 0 <= i < |hs| ==> NTP.Readable(hs[i])
    requires w.unread == NTP.Concat(ConnectLines(hp, hs)) + rest
    ensures var (req, w1) := NTP.ReadRequestLine(w);
            && req == Ok(NTP.RequestLine(NT.CONNECT, hp, NT.HTTP11 + [CR]))
            && NTP.ReadHeadersWire(w1) == (Ok(hs), w.(unread := rest))
  {
    var tail := NTP.Concat(NTP.HeaderText(hs)) + NTP.CRLF + rest;
    ConnectLinesText(hp, hs, rest);
    NT.ReadsConnectLine(w, hp, tail);
    NTP.ReadShownHeaders(NTP.ReadRequestLine(w).1, hs, rest);
  }

  /** The CONNECT lines, joined, are the request line and its CRLF, then the header block. */
  lemma ConnectLinesText(hp: Bytes, hs: seq<NTP.Header>, rest: Bytes)
    ensures NTP.Concat(ConnectLines(hp, hs)) + rest
            == NTP.ShowRequestLine(NTP.RequestLine(NT.CONNECT, hp, NT.HTTP11)) + NTP.CRLF
               + (NTP.Concat(NTP.HeaderText(hs)) + NTP.CRLF + rest)
  {
    var first := [NTP.ShowRequestLine(NTP.RequestLine(NT.CONNECT, hp, NT.HTTP11)) + NTP.CRLF];
    NTP.ConcatAppend(first + NTP.HeaderText(hs), [NTP.CRLF]);
    NTP.ConcatAppend(first, NTP.HeaderText(hs));
    assert NTP.Concat([NTP.CRLF]) == NTP.CRLF + [];
    assert NTP.Concat(first) == first[0] + [];
  }

  /**
   * The request the proxy-tunnel client sends for a printable host with
   * no space, the netway server reads as a CONNECT for "host:port"
   * followed by the client's headers, and nothing after them.
   */
  lemma NetwayReadsTunnelRequest(w: Sockets.Wire, host: Bytes, port: Uint16, credentials: Option<(Bytes, Bytes)>, rest: Bytes)
    requires NTP.Printable(host) && SPACE !in host
    requires w.unread == PTC.TunnelRequest(host, port, ClientBasic(credentials)) + rest
    ensures var hp := PTC.Authority(host, port);
            var (req, w1) := NTP.ReadRequestLine(w);
            && req == Ok(NTP.RequestLine(NT.CONNECT, hp, NT.HTTP11 + [CR]))
            && NTP.ReadHeadersWire(w1) == (Ok(TunnelHeaders(hp, credentials)), w.(unread := rest))
  {
    var hp := PTC.Authority(host, port);
    TunnelRequestLines(host, port, credentials);
    AuthorityPrintable(host, port);
    TunnelHeadersReadable(hp, credentials);
    ReadsConnect(w, hp, TunnelHeaders(hp, credentials), rest);
  }

  /**
   * A netway server that demands the credentials the proxy-tunnel client
   * was given (or none, when it was given none) lets the client's request
   * through and dials the domain and port the client named.
   */
  lemma NetwayServesTunnelClient(w: Sockets.Wire, host: Bytes, port: Uint16, credentials: Option<(Bytes, Bytes)>,
                                 dial: NT.Dial, relay: NT.RelayOutcome, rest: Bytes)
    requires NTP.Printable(host) && SPACE !in host
    requires credentials.Some? ==> Utf8.Valid(credentials.value.0) && Utf8.Valid(credentials.value.1)
    requires w.unread == PTC.TunnelRequest(host, port, ClientBasic(credentials)) + rest
    ensures NT.ServeWire(w, ServerAuth(credentials), dial, relay)
            == NT.ServeTarget(w.(unread := rest), NetwayDst.Domain(host, port), dial, relay)
  {
    var hp := PTC.Authority(host, port);
    NetwayReadsTunnelRequest(w, host, port, credentials, rest);
    TunnelAuthorized(hp, credentials);
    NT.TargetOfShown(host, port);
  }

  /** The client's own credentials header passes the netway server's check. */
  lemma TunnelAuthorized(hp: Bytes, credentials: Option<(Bytes, Bytes)>)
    requires credentials.Some? ==> Utf8.Valid(credentials.value.0) && Utf8.Valid(credentials.value.1)
    ensures NT.Authorized(TunnelHeaders(hp, credentials), ServerAuth(credentials))
  {
    if credentials.Some? {
      var (u, p) := credentials.value;
      OwnHeaderAuthorizes(u, p);
      ThirdHeader(hp, u, p);
      NT.AuthorizedBy(TunnelHeaders(hp, credentials), 2, u, p);
    }
  }

  lemma ThirdHeader(hp: Bytes, u: Bytes, p: Bytes)
    ensures |TunnelHeaders(hp, Some((u, p)))| == 3 && TunnelHeaders(hp, Some((u, p)))[2] == NT.AuthorizationHeader(u, p)
  {
  }

  lemma OwnHeaderAuthorizes(u: Bytes, p: Bytes)
    requires Utf8.Valid(u) && Utf8.Valid(p)
    ensures NT.Authorizes(NT.AuthorizationHeader(u, p), u, p)
  {
    NT.AuthorizationAccepted(u, p, u, p);
  }

  /** The bytes of the netway server's 200 answer. */
  lemma EstablishedText()
    ensures NTP.Concat(NT.Response(NT.ESTABLISHED, [])) == PTC.OK_11 + Lit(" OK") + PTC.BLANK_LINE
  {
    var l := NTP.ShowStatusLine(NT.ESTABLISHED) + NTP.CRLF;
    assert NT.Response(NT.ESTABLISHED, []) == [l, NTP.CRLF];
    assert [l, NTP.CRLF][1..] == [NTP.CRLF];
    assert NTP.Concat([NTP.CRLF]) == NTP.CRLF + [];
    assert NTP.Concat([l, NTP.CRLF]) == l + NTP.CRLF;
    assert PTC.OK_11 == NT.HTTP11 + [SPACE] + Lit("200");
    assert Lit(" OK") == [SPACE] + Lit("OK");
  }

  /**
   * The proxy-tunnel client takes the netway server's 200 answer, arriving
   * as one read, as an established tunnel, holding exactly that answer.
   */
  lemma TunnelClientAcceptsNetway(io: PTC.Io)
    requires io.incoming != [] && io.incoming[0] == Ok(NTP.Concat(NT.Response(NT.ESTABLISHED, [])))
    ensures PTC.Receive([], io) == (Ok(()), NTP.Concat(NT.Response(NT.ESTABLISHED, [])), io.(incoming := io.incoming[1..]))
  {
    var answer := NTP.Concat(NT.Response(NT.ESTABLISHED, []));
    EstablishedText();
    assert |Lit(" OK")| == 3;
    assert answer[..12] == PTC.OK_11;
    assert answer[|answer| - 4..] == PTC.BLANK_LINE;
    assert PTC.Established(answer);
    assert !PTC.Established([]);
    assert [] + answer == answer;
  }

  /**
   * Any other answer of the netway server (the 407 challenge, the 503)
   * never completes the proxy-tunnel client's tunnel, however it arrives.
   */
  lemma TunnelClientRefusesNetway(io: PTC.Io, sl: NTP.StatusLine, hs: seq<NTP.Header>, rest: Bytes)
    requires sl.protocol == NT.HTTP11 && |sl.status| == 3 && sl.status != Lit("200")
    requires PTC.Data(io.incoming) == NTP.Concat(NT.Response(sl, hs)) + rest
    ensures PTC.Receive([], io).0.Err?
  {
    var d := PTC.Data(io.incoming);
    ResponseStarts(sl, hs, rest);
    NotOkStatus(d, sl.status);
    PTC.RefusedAnswer(io);
  }

  /** A displayed response, whatever follows it, starts with its protocol and status. */
  lemma ResponseStarts(sl: NTP.StatusLine, hs: seq<NTP.Header>, rest: Bytes)
    requires sl.protocol == NT.HTTP11 && |sl.status| == 3
    ensures var d := NTP.Concat(NT.Response(sl, hs)) + rest;
            |d| >= 12 && d[..12] == NT.HTTP11 + [SPACE] + sl.status
  {
    var l := NTP.ShowStatusLine(sl) + NTP.CRLF;
    var more := NT.Response(sl, hs)[1..];
    assert NT.Response(sl, hs) == [l] + more;
    ConcatCons(l, more);
    var d := NTP.Concat(NT.Response(sl, hs)) + rest;
    assert d == l + (NTP.Concat(more) + rest);
    assert d[..12] == l[..12];
  }

  /** A status other than "200" after "HTTP/1.1 " is neither answer the client accepts. */
  lemma NotOkStatus(d: Bytes, status: Bytes)
    requires |status| == 3 && status != Lit("200")
    requires |d| >= 12 && d[..12] == NT.HTTP11 + [SPACE] + status
    ensures d[..12] != PTC.OK_11 && d[..12] != PTC.OK_10
  {
    assert PTC.OK_11 == NT.HTTP11 + [SPACE] + Lit("200");
    assert PTC.OK_11[9..] == Lit("200");
    assert d[..12][9..] == status;
    assert d[7] != PTC.OK_10[7];
  }
}
