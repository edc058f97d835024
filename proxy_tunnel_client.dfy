/**
 * The HTTP CONNECT client of the `proxy-tunnel` crate
 * (proxy-tunnel/src/client.rs): Basic credentials, the request text, the
 * send-then-receive state machine of `ProxyTunnel`, and `Client::call`.
 */
module ProxyTunnelClient {
  import opened Wrappers
  import opened Text
  import opened IoKinds
  import opened IpAddrs
  import opened ProxyAddr
  import Base64
  import Utf8

  // ---- Basic credentials (RFC 7617, section 2) ----

  /** `Basic`: the text "username:password" and the position of the colon that ends the username. */
  datatype Basic = Basic(decoded: Bytes, colonPos: nat)

  /** The colon is where `colonPos` says and no colon comes before it. */
  predicate FirstColonAt(b: Basic)
  {
    b.colonPos < |b.decoded| && b.decoded[b.colonPos] == COLON && COLON !in b.decoded[..b.colonPos]
  }

  /** `Basic::new`: the username, a colon and the password; the colon follows the username. */
  function BasicNew(username: Bytes, password: Bytes): (r: Basic)
    ensures r.colonPos < |r.decoded| && r.decoded[r.colonPos] == COLON
    ensures r.decoded[..r.colonPos] == username && r.decoded[r.colonPos + 1..] == password
  {
    var d := username + [COLON] + password;
    assert d[..|username|] == username && d[|username| + 1..] == password;
    Basic(d, |username|)
  }

  const BASIC_PREFIX: Bytes := Lit("Basic ")

  /** The bytes `HeaderValue::to_str` accepts: visible ASCII and the tab. */
  predicate VisibleAscii(s: Bytes)
  {
    forall i :: 0 <= i < |s| ==> s[i] == 9 || 32 <= s[i] < 127
  }

  /**
   * `Basic::encode`: "Basic " and the text in base 64. Every byte is
   * visible ASCII, so the header value is always valid and `to_str` on it
   * never fails.
   */
  function BasicEncode(b: Basic): (r: Bytes)
    ensures VisibleAscii(r) && |r| >= |BASIC_PREFIX| && r[..|BASIC_PREFIX|] == BASIC_PREFIX
    ensures b.decoded != [] ==> |r| > |BASIC_PREFIX| && r[|BASIC_PREFIX|] != SPACE
  {
    var e := Base64.Encode(b.decoded);
    assert |b.decoded| > 0 ==> |e| > 0;
    var r := BASIC_PREFIX + e;
    assert forall i :: |BASIC_PREFIX| <= i < |r| ==> r[i] == e[i - |BASIC_PREFIX|];
    assert r[..|BASIC_PREFIX|] == BASIC_PREFIX;
    r
  }

  /** `iter().position(|b| *b != b' ')`: the first byte that is not a space. */
  function FirstNonSpace(s: Bytes): (r: Option<nat>)
    ensures r.Some? ==> r.value < |s| && s[r.value] != SPACE && forall i :: 0 <= i < r.value ==> s[i] == SPACE
    ensures r.None? ==> forall i :: 0 <= i < |s| ==> s[i] == SPACE
  {
    if s == [] then None
    else if s[0] != SPACE then Some(0)
    else match FirstNonSpace(s[1..])
      case None => None
      case Some(i) => Some(i + 1)
  }

  /**
   * `Basic::decode` of a value that starts with "Basic " (what its debug
   * assertion demands of callers): skip the prefix and any spaces, decode
   * base 64, demand UTF-8 text with a colon; `None` on any failure.
   */
  function BasicDecode(value: Bytes): (r: Option<Basic>)
    requires StartsWith(value, BASIC_PREFIX)
    ensures r.Some? ==> FirstColonAt(r.value) && Utf8.Valid(r.value.decoded)
  {
    var bytes := value[|BASIC_PREFIX|..];
    match FirstNonSpace(bytes)
    case None => None
    case Some(start) =>
      match Base64.Decode(bytes[start..])
      case None => None
      case Some(decoded) =>
        if !Utf8.Valid(decoded) then None
        else match Find(decoded, COLON)
          case None => None
          case Some(i) => Some(Basic(decoded, i))
  }

  /** Encoding then decoding gives back every credential whose colon is the first one. */
  lemma BasicEncodeDecode(b: Basic)
    requires FirstColonAt(b) && Utf8.Valid(b.decoded)
    ensures BasicDecode(BasicEncode(b)) == Some(b)
  {
    var v := BasicEncode(b);
    var e := Base64.Encode(b.decoded);
    assert v[|BASIC_PREFIX|..] == e;
    assert FirstNonSpace(e) == Some(0);
    assert e[0..] == e;
    Base64.DecodeEncode(b.decoded);
  }

  /**
   * `Basic::decode` after `Basic::encode` of `Basic::new(u, p)` always
   * yields the text "u:p", and yields `Basic::new(u, p)` itself exactly when
   * the username has no colon.
   */
  lemma BasicRoundTrip(username: Bytes, password: Bytes)
    requires Utf8.Valid(username) && Utf8.Valid(password)
    ensures var r := BasicDecode(BasicEncode(BasicNew(username, password)));
            && r.Some? && r.value.decoded == username + [COLON] + password
            && (r == Some(BasicNew(username, password)) <==> COLON !in username)
  {
    var b := BasicNew(username, password);
    var v := BasicEncode(b);
    var e := Base64.Encode(b.decoded);
    assert v[|BASIC_PREFIX|..] == e;
    assert FirstNonSpace(e) == Some(0);
    assert e[0..] == e;
    Base64.DecodeEncode(b.decoded);
    Utf8.AsciiValid([COLON]);
    Utf8.ConcatValid(username, [COLON]);
    Utf8.ConcatValid(username + [COLON], password);
    var i := Find(b.decoded, COLON).value;
    assert b.decoded[..|username|] == username;
    if COLON in username {
      var j :| 0 <= j < |username| && username[j] == COLON;
      assert b.decoded[j] == COLON;
      assert i < |username|;
    } else {
      assert i == |username|;
    }
  }

  // ---- the request ----

  const CRLF: Bytes := [CR, LF]

  /** "host:port", the authority the request names. */
  function Authority(host: Bytes, port: Uint16): Bytes
  {
    host + [COLON] + ShowNat(port)
  }

  /**
   * The text `proxy_tunnel` sends: the CONNECT line, `Host`,
   * `Proxy-Connection: Keep-Alive`, `Proxy-Authorization` when credentials
   * are set, and the blank line.
   */
  function TunnelRequest(host: Bytes, port: Uint16, authorization: Option<Basic>): Bytes
  {
    (Lit("CONNECT ") + Authority(host, port) + Lit(" HTTP/1.1") + CRLF)
    + (Lit("Host: ") + Authority(host, port) + CRLF)
    + (Lit("Proxy-Connection: Keep-Alive") + CRLF)
    + (if authorization.Some? then Lit("Proxy-Authorization: ") + BasicEncode(authorization.value) + CRLF else [])
    + CRLF
  }

  // ---- the stream to the proxy ----

  /**
   * The stream as the tunnel sees it: what was written so far, how the
   * coming writes fare (`accepts`: the bytes the proxy takes, or an error),
   * what the coming reads deliver (`incoming`: a chunk, empty at the end of
   * the stream, or an error), and whether the stream was shut down. When
   * either list runs out, writes take nothing and reads see the end of the
   * stream.
   */
  datatype Io = Io(sent: Bytes, accepts: seq<Result<nat, IoErrorKind>>, incoming: seq<Result<Bytes, IoErrorKind>>, shutDown: bool)

  /** `poll_write_buf`: the count of bytes of `buf` written. */
  function WriteStep(io: Io, buf: Bytes): (r: (Result<nat, IoErrorKind>, Io))
    ensures r.0.Ok? ==> r.0.value <= |buf| && r.1.sent == io.sent + buf[..r.0.value]
    ensures r.0.Err? ==> r.1.sent == io.sent
    ensures r.1.incoming == io.incoming && r.1.shutDown == io.shutDown
  {
    if io.accepts == [] then
      var none: Result<nat, IoErrorKind> := Ok(0);
      (none, io)
    else match io.accepts[0]
      case Err(k) =>
        var failed: Result<nat, IoErrorKind> := Err(k);
        (failed, io.(accepts := io.accepts[1..]))
      case Ok(cap) =>
        var n: nat := if cap < |buf| then cap else |buf|;
        var written: Result<nat, IoErrorKind> := Ok(n);
        (written, io.(sent := io.sent + buf[..n], accepts := io.accepts[1..]))
  }

  /** `poll_read_buf`: the next chunk the proxy delivers. */
  function ReadStep(io: Io): (r: (Result<Bytes, IoErrorKind>, Io))
    ensures r.0 != Ok([]) ==> |r.1.incoming| < |io.incoming|
    ensures r.1.sent == io.sent && r.1.shutDown == io.shutDown
  {
    if io.incoming == [] then (Ok([]), io) else (io.incoming[0], io.(incoming := io.incoming[1..]))
  }

  class TunnelStream {
    var sent: Bytes
    var accepts: seq<Result<nat, IoErrorKind>>
    var incoming: seq<Result<Bytes, IoErrorKind>>
    var shutDown: bool

    function State(): Io
      reads this
    {
      Io(sent, accepts, incoming, shutDown)
    }

    constructor (accepts: seq<Result<nat, IoErrorKind>>, incoming: seq<Result<Bytes, IoErrorKind>>)
      ensures State() == Io([], accepts, incoming, false)
    {
      sent := [];
      this.accepts := accepts;
      this.incoming := incoming;
      shutDown := false;
    }

    method Write(buf: Bytes) returns (r: Result<nat, IoErrorKind>)
      modifies this
      ensures (r, State()) == WriteStep(old(State()), buf)
    {
      if accepts == [] {
        return Ok(0);
      }
      var w := accepts[0];
      accepts := accepts[1..];
      if w.Err? {
        return Err(w.error);
      }
      var n := if w.value < |buf| then w.value else |buf|;
      sent := sent + buf[..n];
      r := Ok(n);
    }

    method Read() returns (r: Result<Bytes, IoErrorKind>)
      modifies this
      ensures (r, State()) == ReadStep(old(State()))
    {
      if incoming == [] {
        return Ok([]);
      }
      r := incoming[0];
      incoming := incoming[1..];
    }

    method Shutdown()
      modifies this
      ensures State() == old(State()).(shutDown := true)
    {
      shutDown := true;
    }
  }

  // ---- ProxyTunnel::poll ----

  const OK_11: Bytes := Lit("HTTP/1.1 200")
  const OK_10: Bytes := Lit("HTTP/1.0 200")
  const BLANK_LINE: Bytes := [CR, LF, CR, LF]

  /** What the tunnel waits for: more than 12 bytes, starting "HTTP/1.1 200" or "HTTP/1.0 200" and ending "\r\n\r\n". */
  predicate Established(buf: Bytes)
  {
    |buf| > 12 && (StartsWith(buf, OK_11) || StartsWith(buf, OK_10)) && EndsWith(buf, BLANK_LINE)
  }

  /** Writing the whole buffer: a write of zero bytes is `WriteZero`, a failed write its error. */
  function Flush(buf: Bytes, io: Io): (Result<(), IoErrorKind>, Bytes, Io)
    decreases |buf|
  {
    if buf == [] then (Ok(()), buf, io)
    else
      var (n, io1) := WriteStep(io, buf);
      if n.Err? then (Err(n.error), buf, io1)
      else if n.value == 0 then (Err(WriteZero), buf, io1)
      else Flush(buf[n.value..], io1)
  }

  /** Reading until the buffer holds an established answer; the end of the stream first is `UnexpectedEof`. */
  function Receive(buf: Bytes, io: Io): (Result<(), IoErrorKind>, Bytes, Io)
    decreases |io.incoming|
  {
    if Established(buf) then (Ok(()), buf, io)
    else
      var (chunk, io1) := ReadStep(io);
      if chunk.Err? then (Err(chunk.error), buf, io1)
      else if chunk.value == [] then (Err(UnexpectedEof), buf, io1)
      else Receive(buf + chunk.value, io1)
  }

  /** `ProxyTunnel::poll` run to completion from the tunnel's `buf` and `sending` flag. */
  function PollSpec(buf: Bytes, sending: bool, io: Io): (Result<(), IoErrorKind>, Bytes, bool, Io)
  {
    if sending then
      var (w, buf1, io1) := Flush(buf, io);
      if w.Err? then (w, buf1, true, io1)
      else
        var (r, buf2, io2) := Receive([], io1);
        (r, buf2, false, io2)
    else
      var (r, buf1, io1) := Receive(buf, io);
      (r, buf1, false, io1)
  }

  /** `ProxyTunnel`: the stream, the buffer (the request, then the answer) and whether it is still sending. */
  class ProxyTunnel {
    const io: TunnelStream
    var buf: Bytes
    var sending: bool

    /** `proxy_tunnel`: the request text, ready to send. */
    constructor (io: TunnelStream, host: Bytes, port: Uint16, authorization: Option<Basic>)
      ensures this.io == io && buf == TunnelRequest(host, port, authorization) && sending
    {
      this.io := io;
      buf := TunnelRequest(host, port, authorization);
      sending := true;
    }

    /** `poll`, with every pending step awaited. */
    method Poll() returns (r: Result<(), IoErrorKind>)
      modifies this, io
      ensures (r, buf, sending, io.State()) == PollSpec(old(buf), old(sending), old(io.State()))
    {
      while true
        invariant PollSpec(old(buf), old(sending), old(io.State())) == PollSpec(buf, sending, io.State())
        decreases if sending then 1 else 0, |io.incoming|
      {
        if sending {
          while buf != []
            invariant sending
            invariant PollSpec(old(buf), old(sending), old(io.State())) == PollSpec(buf, sending, io.State())
            decreases |buf|
          {
            var n := io.Write(buf);
            if n.Err? {
              return Err(n.error);
            }
            if n.value == 0 {
              return Err(WriteZero);
            }
            buf := buf[n.value..];
          }
          sending := false;
        } else {
          if Established(buf) {
            return Ok(());
          }
          var chunk := io.Read();
          if chunk.Err? {
            return Err(chunk.error);
          }
          if chunk.value == [] {
            return Err(UnexpectedEof);
          }
          buf := buf + chunk.value;
        }
      }
    }
  }

  // ---- Client ----

  /** The host text and port `call` names: an IP address in its text form, or the domain as given. */
  function HostPort(target: TargetAddr, sx: Ipv6Syntax): (Bytes, Uint16)
  {
    match target
    case SocketAddr(SocketV4(ip, p)) => (ShowIpv4(ip), p)
    case SocketAddr(SocketV6(ip, p)) => (sx.show(ip), p)
    case Domain(d, p) => (d, p)
  }

  /**
   * `Client::call` over the stream to the proxy, given whether connecting
   * to it succeeded: run the tunnel, and shut the stream down when it fails.
   */
  function CallSpec(authorization: Option<Basic>, connected: Result<(), IoErrorKind>, io: Io, target: TargetAddr, sx: Ipv6Syntax)
    : (Result<(), IoErrorKind>, Io)
  {
    if connected.Err? then (Err(connected.error), io)
    else
      var (host, port) := HostPort(target, sx);
      var (r, _, _, io1) := PollSpec(TunnelRequest(host, port, authorization), true, io);
      (r, if r.Err? then io1.(shutDown := true) else io1)
  }

  /** `Client`: the credentials to send and whether the stream to the proxy uses TLS. */
  class Client {
    var authorization: Option<Basic>
    var tls: bool
    const proxy: TargetAddr

    /** `Client::new`: no credentials, plain TCP to `proxy`. */
    constructor New(proxy: TargetAddr)
      ensures authorization == None && !tls && this.proxy == proxy
    {
      authorization := None;
      tls := false;
      this.proxy := proxy;
    }

    /** `set_authorization`. */
    method SetAuthorization(username: Bytes, password: Bytes)
      modifies this
      ensures authorization == Some(BasicNew(username, password)) && tls == old(tls)
    {
      authorization := Some(BasicNew(username, password));
    }

    /** `enable_tls`. */
    method EnableTls()
      modifies this
      ensures tls && authorization == old(authorization)
    {
      tls := true;
    }

    /** `Client::call`, step by step. */
    method Call(connected: Result<(), IoErrorKind>, io: TunnelStream, target: TargetAddr, sx: Ipv6Syntax)
      returns (r: Result<(), IoErrorKind>)
      modifies io
      ensures (r, io.State()) == CallSpec(authorization, connected, old(io.State()), target, sx)
    {
      if connected.Err? {
        return Err(connected.error);
      }
      var (host, port) := HostPort(target, sx);
      var tunnel := new ProxyTunnel(io, host, port, authorization);
      r := tunnel.Poll();
      if r.Err? {
        io.Shutdown();
      }
    }
  }

  // ---- properties ----

  /**
   * Sending writes the whole buffer when it succeeds; when it fails, what
   * was written and what is left make up the buffer, and something is left.
   */
  lemma {:induction false} FlushOutcome(buf: Bytes, io: Io)
    ensures var (r, rest, io1) := Flush(buf, io);
            && io.sent + buf == io1.sent + rest
            && (r.Ok? <==> rest == [])
            && io1.incoming == io.incoming && io1.shutDown == io.shutDown
    decreases |buf|
  {
    if buf != [] {
      var (n, io1) := WriteStep(io, buf);
      if n.Ok? && n.value > 0 {
        FlushOutcome(buf[n.value..], io1);
        assert buf == buf[..n.value] + buf[n.value..];
      }
    }
  }

  /** The bytes of a run of reads that all delivered data. */
  function Data(chunks: seq<Result<Bytes, IoErrorKind>>): Bytes
  {
    if chunks == [] then [] else (if chunks[0].Ok? then chunks[0].value else []) + Data(chunks[1..])
  }

  /** Every read of the run delivered some bytes. */
  predicate Delivered(chunks: seq<Result<Bytes, IoErrorKind>>)
  {
    forall i :: 0 <= i < |chunks| ==> chunks[i].Ok? && chunks[i].value != []
  }

  lemma {:induction false} DataAppend(a: seq<Result<Bytes, IoErrorKind>>, b: seq<Result<Bytes, IoErrorKind>>)
    ensures Data(a + b) == Data(a) + Data(b)
    decreases |a|
  {
    if a != [] {
      DataAppend(a[1..], b);
      assert (a + b)[1..] == a[1..] + b;
      assert (a + b)[0] == a[0];
      var h := if a[0].Ok? then a[0].value else [];
      assert Data(a + b) == h + Data(a[1..] + b);
      assert Data(a) == h + Data(a[1..]);
    } else {
      assert a + b == b;
    }
  }

  /** The buffer after the first `k` reads, when they all delivered data and made it established. */
  predicate EstablishedAfter(buf: Bytes, chunks: seq<Result<Bytes, IoErrorKind>>, k: nat)
  {
    k <= |chunks| && Delivered(chunks[..k]) && Established(buf + Data(chunks[..k]))
  }

  /** One read further along: the run after the first chunk. */
  lemma EstablishedAfterStep(buf: Bytes, chunks: seq<Result<Bytes, IoErrorKind>>, k: nat)
    requires chunks != [] && chunks[0].Ok? && chunks[0].value != []
    ensures EstablishedAfter(buf, chunks, k + 1) <==> EstablishedAfter(buf + chunks[0].value, chunks[1..], k)
  {
    if k + 1 <= |chunks| {
      var pre := chunks[..k + 1];
      assert pre == [chunks[0]] + chunks[1..][..k];
      DataAppend([chunks[0]], chunks[1..][..k]);
      assert Data([chunks[0]]) == chunks[0].value;
      assert buf + Data(pre) == buf + chunks[0].value + Data(chunks[1..][..k]);
      assert Delivered(pre) <==> Delivered(chunks[1..][..k]) by {
        assert forall i :: 0 <= i < k ==> pre[i + 1] == chunks[1..][..k][i];
      }
    }
  }

  /** A run that is established after no reads is the buffer itself. */
  lemma EstablishedAfterNone(buf: Bytes, chunks: seq<Result<Bytes, IoErrorKind>>)
    ensures EstablishedAfter(buf, chunks, 0) <==> Established(buf)
  {
    assert chunks[..0] == [] && buf + [] == buf;
  }

  /** A first read that failed or ended the stream leaves no established run but the empty one. */
  lemma EstablishedAfterStop(buf: Bytes, chunks: seq<Result<Bytes, IoErrorKind>>, k: nat)
    requires chunks == [] || chunks[0].Err? || chunks[0].value == []
    requires k > 0
    ensures !EstablishedAfter(buf, chunks, k)
  {
    if k <= |chunks| {
      assert chunks[..k][0] == chunks[0];
    }
  }

  /** A successful receive ended after a run of reads that delivered data and made the buffer established. */
  lemma {:induction false} ReceiveOkSound(buf: Bytes, io: Io)
    requires Receive(buf, io).0.Ok?
    ensures exists k: nat :: EstablishedAfter(buf, io.incoming, k) && Receive(buf, io).1 == buf + Data(io.incoming[..k])
    decreases |io.incoming|
  {
    var ins := io.incoming;
    if Established(buf) {
      EstablishedAfterNone(buf, ins);
      NoData(buf, ins);
      assert EstablishedAfter(buf, ins, 0);
    } else {
      var next := buf + ins[0].value;
      ReceiveOkSound(next, ReadStep(io).1);
      var k: nat :| EstablishedAfter(next, ins[1..], k) && Receive(buf, io).1 == next + Data(ins[1..][..k]);
      EstablishedAfterStep(buf, ins, k);
      DataFirst(buf, ins, k);
      assert EstablishedAfter(buf, ins, k + 1);
    }
  }

  lemma NoData(buf: Bytes, chunks: seq<Result<Bytes, IoErrorKind>>)
    ensures buf + Data(chunks[..0]) == buf
  {
    assert chunks[..0] == [] && buf + [] == buf;
  }

  /** The data of the first `k + 1` reads: what the first read delivered, then the next `k`. */
  lemma DataFirst(buf: Bytes, chunks: seq<Result<Bytes, IoErrorKind>>, k: nat)
    requires chunks != [] && chunks[0].Ok? && k + 1 <= |chunks|
    ensures buf + Data(chunks[..k + 1]) == buf + chunks[0].value + Data(chunks[1..][..k])
  {
    assert chunks[..k + 1] == [chunks[0]] + chunks[1..][..k];
    DataAppend([chunks[0]], chunks[1..][..k]);
    assert Data([chunks[0]]) == chunks[0].value;
  }

  /** A run of reads that makes the buffer established lets the receive succeed. */
  lemma {:induction false} ReceiveOkComplete(buf: Bytes, io: Io, k: nat)
    requires EstablishedAfter(buf, io.incoming, k)
    ensures Receive(buf, io).0.Ok?
    decreases |io.incoming|
  {
    var ins := io.incoming;
    if !Established(buf) {
      EstablishedAfterNone(buf, ins);
      assert k > 0;
      if ins == [] || ins[0].Err? || ins[0].value == [] {
        EstablishedAfterStop(buf, ins, k);
      } else {
        EstablishedAfterStep(buf, ins, k - 1);
        ReceiveOkComplete(buf + ins[0].value, ReadStep(io).1, k - 1);
      }
    }
  }

  /**
   * Receiving succeeds exactly when, after some run of reads that all
   * delivered data, the buffer holds an established answer; it then holds
   * that answer.
   */
  lemma ReceiveOk(buf: Bytes, io: Io)
    ensures var (r, buf1, _) := Receive(buf, io);
            && (r.Ok? <==> exists k: nat :: EstablishedAfter(buf, io.incoming, k))
            && (r.Ok? ==> exists k: nat :: EstablishedAfter(buf, io.incoming, k) && buf1 == buf + Data(io.incoming[..k]))
  {
    if Receive(buf, io).0.Ok? {
      ReceiveOkSound(buf, io);
    }
    if exists k: nat :: EstablishedAfter(buf, io.incoming, k) {
      var k: nat :| EstablishedAfter(buf, io.incoming, k);
      ReceiveOkComplete(buf, io, k);
    }
  }

  /** An accepted answer begins with status 200: the first twelve bytes the proxy sent say so. */
  lemma ReceiveOkStatus(io: Io)
    ensures Receive([], io).0.Ok? ==> |Data(io.incoming)| > 12
                                      && (Data(io.incoming)[..12] == OK_11 || Data(io.incoming)[..12] == OK_10)
  {
    ReceiveOk([], io);
    if Receive([], io).0.Ok? {
      var k: nat :| EstablishedAfter([], io.incoming, k);
      var d := Data(io.incoming[..k]);
      assert [] + d == d;
      assert io.incoming == io.incoming[..k] + io.incoming[k..];
      DataAppend(io.incoming[..k], io.incoming[k..]);
      assert d[..12] == Data(io.incoming)[..12];
    }
  }

  /**
   * An answer whose first twelve bytes are not "HTTP/1.1 200" or
   * "HTTP/1.0 200" (a 407, say) never completes the tunnel.
   */
  lemma RefusedAnswer(io: Io)
    requires |Data(io.incoming)| >= 12 && Data(io.incoming)[..12] != OK_11 && Data(io.incoming)[..12] != OK_10
    ensures Receive([], io).0.Err?
  {
    ReceiveOkStatus(io);
  }

  /**
   * A proxy that sends its 200 answer and the first bytes of the target in
   * one chunk, not ending in a blank line, leaves the tunnel waiting: the
   * end of the stream then gives `UnexpectedEof`.
   */
  lemma EarlyDataStalls(answer: Bytes, data: Bytes, io: Io)
    requires |data| >= 4 && data[|data| - 4..] != BLANK_LINE
    requires io.incoming == [Ok(answer + data)]
    ensures Receive([], io).0 == Err(UnexpectedEof)
  {
    var b := answer + data;
    assert b[|b| - 4..] == data[|data| - 4..];
    assert !Established(b);
    assert !Established([]);
    assert [] + b == b;
    var io1 := ReadStep(io).1;
    assert io1.incoming == [];
  }

  /** A tunnel that completes has written its whole request and holds an established answer. */
  lemma PollOutcome(host: Bytes, port: Uint16, authorization: Option<Basic>, io: Io)
    ensures var (r, buf1, sending1, io1) := PollSpec(TunnelRequest(host, port, authorization), true, io);
            && (r.Ok? ==> io1.sent == io.sent + TunnelRequest(host, port, authorization) && Established(buf1) && !sending1)
            && (r.Err? && sending1 ==> |io1.sent| < |io.sent| + |TunnelRequest(host, port, authorization)|)
  {
    var req := TunnelRequest(host, port, authorization);
    FlushOutcome(req, io);
    var (w, rest, io1) := Flush(req, io);
    if w.Ok? {
      ReceiveOk([], io1);
      ReceiveShutDown([], io1);
      assert req + [] == req;
    }
  }

  /**
   * `call` names the target as the proxy's own `Display` does for a domain
   * or an IPv4 address; an IPv6 address goes without its brackets.
   */
  lemma HostPortShown(target: TargetAddr, sx: Ipv6Syntax)
    ensures var (host, port) := HostPort(target, sx);
            && (!(target.SocketAddr? && target.addr.SocketV6?) ==> Authority(host, port) == Show(target, sx))
            && (target.SocketAddr? && target.addr.SocketV6? ==> host == sx.show(target.addr.ip6))
  {
  }

  /** A failed tunnel shuts the stream to the proxy down; a connection that failed writes nothing. */
  lemma CallOutcome(authorization: Option<Basic>, connected: Result<(), IoErrorKind>, io: Io, target: TargetAddr, sx: Ipv6Syntax)
    requires !io.shutDown
    ensures var (r, io1) := CallSpec(authorization, connected, io, target, sx);
            && (connected.Err? ==> r == connected && io1 == io)
            && (connected.Ok? ==> (r.Err? <==> io1.shutDown))
            && (r.Ok? ==> var (host, port) := HostPort(target, sx);
                          io1.sent == io.sent + TunnelRequest(host, port, authorization))
  {
    if connected.Ok? {
      var (host, port) := HostPort(target, sx);
      PollOutcome(host, port, authorization, io);
      FlushOutcome(TunnelRequest(host, port, authorization), io);
      var (w, rest, io1) := Flush(TunnelRequest(host, port, authorization), io);
      if w.Ok? {
        ReceiveShutDown([], io1);
      }
    }
  }

  lemma {:induction false} ReceiveShutDown(buf: Bytes, io: Io)
    ensures Receive(buf, io).2.shutDown == io.shutDown && Receive(buf, io).2.sent == io.sent
    decreases |io.incoming|
  {
    if !Established(buf) {
      var (c, io1) := ReadStep(io);
      if c.Ok? && c.value != [] {
        ReceiveShutDown(buf + c.value, io1);
      }
    }
  }
}
