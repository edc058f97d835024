/**
 * The HTTP/1.1 text of the `netway` tunnel (crates/netway/src/tunnel/protocol.rs):
 * request lines, status lines and headers, their display, and reading them
 * off a buffered stream one line at a time.
 */
module NetwayTunnelProtocol {
  import opened Wrappers
  import opened Text
  import opened IoKinds
  import NetwayError
  import Utf8
  import opened Sockets

  /** How a step that does not succeed ends: an error it returns, or a panic of the running tokio task. */
  datatype Fault = Raised(error: NetwayError.Error) | Panic

  function IoFault(k: IoErrorKind): Fault { Raised(NetwayError.Io(k)) }

  datatype Header = Header(name: Bytes, value: Bytes)

  /** `verb` is the request method (`method` is a keyword here). */
  datatype RequestLine = RequestLine(verb: Bytes, host: Bytes, protocol: Bytes)

  datatype StatusLine = StatusLine(protocol: Bytes, status: Bytes, message: Bytes)

  const CRLF: Bytes := [CR, LF]

  /** `Display for Header`: "name: value". */
  function ShowHeader(h: Header): Bytes { h.name + [COLON, SPACE] + h.value }

  /** `Display for RequestLine`: the three fields separated by single spaces. */
  function ShowRequestLine(r: RequestLine): Bytes { r.verb + [SPACE] + r.host + [SPACE] + r.protocol }

  /** `Display for StatusLine`: the three fields separated by single spaces. */
  function ShowStatusLine(s: StatusLine): Bytes { s.protocol + [SPACE] + s.status + [SPACE] + s.message }

  // ---- reading lines ----

  /** The bytes up to and including the first LF, and what follows; all of them when there is no LF. */
  function LineOf(s: Bytes): (r: (Bytes, Bytes))
    ensures r.0 + r.1 == s
    ensures s != [] ==> r.0 != []
  {
    match Find(s, LF)
    case None => (s, [])
    case Some(i) => (s[..i + 1], s[i + 1..])
  }

  /** `read_line`: the next line, which must be UTF-8; at the end of the stream it is empty. */
  function ReadLine(s: Bytes): (r: Result<(Bytes, Bytes), Fault>)
    ensures r.Ok? ==> r.value.0 + r.value.1 == s && (s != [] ==> r.value.0 != [])
  {
    var (line, rest) := LineOf(s);
    if Utf8.Valid(line) then Ok((line, rest)) else Err(IoFault(InvalidData))
  }

  /**
   * The line without its last byte, as `buf[start..start + size - 1]` slices
   * it: an end index inside a multi-byte character panics.
   */
  function Chomp(line: Bytes): Result<Bytes, Fault>
    requires line != []
  {
    if Utf8.IsCont(line[|line| - 1]) then Err(Panic) else Ok(line[..|line| - 1])
  }

  /** The first three space-separated fields; indexing a third field that is not there panics. */
  function Fields(text: Bytes): Result<(Bytes, Bytes, Bytes), Fault>
  {
    var parts := Split(text, SPACE);
    if |parts| < 3 then Err(Panic) else Ok((parts[0], parts[1], parts[2]))
  }

  /** `read_request_line` once the line is read: an empty line is the end of the stream. */
  function RequestLineOf(line: Bytes): Result<RequestLine, Fault>
  {
    if line == [] then Err(IoFault(UnexpectedEof))
    else match Chomp(line)
      case Err(f) => Err(f)
      case Ok(text) =>
        (match Fields(text)
         case Err(f) => Err(f)
         case Ok((m, h, p)) => Ok(RequestLine(m, h, p)))
  }

  /** `read_status_line` once the line is read: an empty line underflows the slice end and panics. */
  function StatusLineOf(line: Bytes): Result<StatusLine, Fault>
  {
    if line == [] then Err(Panic)
    else match Chomp(line)
      case Err(f) => Err(f)
      case Ok(text) =>
        (match Fields(text)
         case Err(f) => Err(f)
         case Ok((p, s, m)) => Ok(StatusLine(p, s, m)))
  }

  function ReadRequestLine(w: Wire): (Result<RequestLine, Fault>, Wire)
  {
    var (l, w1) := Recv(w, ReadLine);
    (if l.Err? then Err(l.error) else RequestLineOf(l.value), w1)
  }

  function ReadStatusLine(w: Wire): (Result<StatusLine, Fault>, Wire)
  {
    var (l, w1) := Recv(w, ReadLine);
    (if l.Err? then Err(l.error) else StatusLineOf(l.value), w1)
  }

  // ---- reading headers ----

  /**
   * The lines `read_headers` keeps: every line up to the first one shorter
   * than three bytes (the blank line, or the end of the stream), which is
   * consumed too; and the bytes left unread.
   */
  function HeaderLines(s: Bytes): (r: (Result<seq<Bytes>, Fault>, Bytes))
    ensures |r.1| <= |s|
    ensures r.0.Ok? ==> forall i :: 0 <= i < |r.0.value| ==> |r.0.value[i]| >= 3
    decreases |s|
  {
    match ReadLine(s)
    case Err(f) => (Err(f), s)
    case Ok((l, rest)) =>
      if |l| < 3 then (Ok([]), rest)
      else
        var (more, rest1) := HeaderLines(rest);
        (if more.Err? then more else Ok([l] + more.value), rest1)
  }

  /** One header line split at its first ':' with both sides trimmed; a line without ':' panics. */
  function ParseHeader(line: Bytes): Result<Header, Fault>
    requires line != []
  {
    match Chomp(line)
    case Err(f) => Err(f)
    case Ok(text) =>
      (match SplitOnce(text, COLON)
       case None => Err(Panic)
       case Some((name, value)) => Ok(Header(Trim(name), Trim(value))))
  }

  function ParseHeaders(lines: seq<Bytes>): Result<seq<Header>, Fault>
    requires forall i :: 0 <= i < |lines| ==> lines[i] != []
  {
    if lines == [] then Ok([])
    else match ParseHeader(lines[0])
      case Err(f) => Err(f)
      case Ok(h) =>
        (match ParseHeaders(lines[1..])
         case Err(f) => Err(f)
         case Ok(hs) => Ok([h] + hs))
  }

  /** `read_headers` over a wire. */
  function ReadHeadersWire(w: Wire): (Result<seq<Header>, Fault>, Wire)
  {
    var (lines, rest) := HeaderLines(w.unread);
    (if lines.Err? then Err(lines.error) else ParseHeaders(lines.value), w.(unread := rest))
  }

  /** The lines read so far followed by what reading the rest gives. */
  function Continue(lines: seq<Bytes>, tail: (Result<seq<Bytes>, Fault>, Bytes)): (Result<seq<Bytes>, Fault>, Bytes)
  {
    (if tail.0.Err? then tail.0 else Ok(lines + tail.0.value), tail.1)
  }

  lemma ContinueNothing(tail: (Result<seq<Bytes>, Fault>, Bytes))
    ensures Continue([], tail) == tail
  {
    if tail.0.Ok? {
      assert [] + tail.0.value == tail.0.value;
    }
  }

  lemma ContinueEnd(lines: seq<Bytes>, rest: Bytes)
    ensures Continue(lines, (Ok([]), rest)) == (Ok(lines), rest)
  {
    assert lines + [] == lines;
  }

  lemma ContinueOne(lines: seq<Bytes>, l: Bytes, tail: (Result<seq<Bytes>, Fault>, Bytes))
    ensures Continue(lines, Continue([l], tail)) == Continue(lines + [l], tail)
  {
    if tail.0.Ok? {
      assert lines + ([l] + tail.0.value) == lines + [l] + tail.0.value;
    }
  }

  /** One step of `HeaderLines`: what it gives after reading one line. */
  lemma HeaderLinesStep(s: Bytes)
    ensures ReadLine(s).Err? ==> HeaderLines(s) == (Err(ReadLine(s).error), s)
    ensures ReadLine(s).Ok? && |ReadLine(s).value.0| < 3 ==> HeaderLines(s) == (Ok([]), ReadLine(s).value.1)
    ensures ReadLine(s).Ok? && |ReadLine(s).value.0| >= 3 ==>
              HeaderLines(s) == Continue([ReadLine(s).value.0], HeaderLines(ReadLine(s).value.1))
  {
  }

  /** The loop of `read_headers`: read lines until one is shorter than three bytes. */
  method ReadHeaderLines(socket: Socket) returns (r: Result<seq<Bytes>, Fault>)
    modifies socket
    ensures (r, socket.unread) == HeaderLines(old(socket.unread))
    ensures socket.events == old(socket.events) && socket.writable == old(socket.writable)
  {
    var lines: seq<Bytes> := [];
    ContinueNothing(HeaderLines(socket.unread));
    while true
      invariant socket.events == old(socket.events) && socket.writable == old(socket.writable)
      invariant HeaderLines(old(socket.unread)) == Continue(lines, HeaderLines(socket.unread))
      decreases |socket.unread|
    {
      ghost var before := socket.unread;
      var l := socket.Read(ReadLine);
      HeaderLinesStep(before);
      if l.Err? {
        return Err(l.error);
      }
      if |l.value| < 3 {
        ContinueEnd(lines, socket.unread);
        return Ok(lines);
      }
      ContinueOne(lines, l.value, HeaderLines(socket.unread));
      lines := lines + [l.value];
    }
  }

  /** `read_headers`: read the header lines, then split each into a name and a value. */
  method ReadHeaders(socket: Socket) returns (r: Result<seq<Header>, Fault>)
    modifies socket
    ensures (r, socket.State()) == ReadHeadersWire(old(socket.State()))
  {
    var lines := ReadHeaderLines(socket);
    if lines.Err? {
      return Err(lines.error);
    }
    r := ParseHeaders(lines.value);
  }

  // ---- reading back what was displayed ----

  /** A line of a message as `read_line` returns it: UTF-8, ending at its only LF. */
  predicate IsLine(l: Bytes)
  {
    l != [] && l[|l| - 1] == LF && LF !in l[..|l| - 1] && Utf8.Valid(l)
  }

  /** The lines of a message, one after the other. */
  function Concat(ls: seq<Bytes>): Bytes
  {
    if ls == [] then [] else ls[0] + Concat(ls[1..])
  }

  /** A text with no white space at either end, which `trim` leaves alone. */
  predicate Unpadded(s: Bytes) { LeadingSpaceLen(s) == 0 && TrailingSpaceLen(s) == 0 }

  /** A header `Display` writes and `read_headers` gives back unchanged. */
  predicate Readable(h: Header)
  {
    COLON !in h.name && LF !in h.name && LF !in h.value
    && Unpadded(h.name) && Unpadded(h.value)
    && Utf8.Valid(h.name) && Utf8.Valid(h.value)
  }

  /** The lines `Display` gives a list of headers, each ended by CRLF. */
  function HeaderText(hs: seq<Header>): (r: seq<Bytes>)
    ensures |r| == |hs|
  {
    if hs == [] then [] else [ShowHeader(hs[0]) + CRLF] + HeaderText(hs[1..])
  }

  /** ASCII text without control characters, and with no space at either end. */
  predicate Printable(s: Bytes)
  {
    s != [] && s[0] != SPACE && s[|s| - 1] != SPACE && forall i :: 0 <= i < |s| ==> 32 <= s[i] < 128
  }

  /** Two printable texts joined by a space are printable. */
  lemma PrintableJoin(a: Bytes, b: Bytes)
    requires Printable(a) && Printable(b)
    ensures Printable(a + [SPACE] + b)
  {
  }

  lemma PrintableText(s: Bytes)
    requires Printable(s)
    ensures Unpadded(s) && Utf8.Valid(s) && LF !in s
  {
    Utf8.AsciiValid(s);
    PrintableTrailing(s);
    assert LF !in s by {
      assert forall i :: 0 <= i < |s| ==> s[i] != LF;
    }
  }

  /** Printable text ends in no white space, one byte long or longer. */
  lemma PrintableTrailing(s: Bytes)
    requires Printable(s)
    ensures TrailingSpaceLen(s) == 0
  {
    if |s| >= 2 {
      AsciiNotLeading(s[|s| - 2..]);
    }
    if |s| >= 3 {
      AsciiNotLeading(s[|s| - 3..]);
    }
  }

  /** Text starting with an ASCII byte starts with no multi-byte white space. */
  lemma AsciiNotLeading(t: Bytes)
    requires t != [] && t[0] < 128
    ensures LeadingSpaceLen(t) <= 1
  {
  }

  lemma PrintableReadable(h: Header)
    requires Printable(h.name) && Printable(h.value) && COLON !in h.name
    ensures Readable(h)
  {
    PrintableText(h.name);
    PrintableText(h.value);
  }

  /** The lines of two messages one after the other. */
  lemma {:induction false} ConcatAppend(a: seq<Bytes>, b: seq<Bytes>)
    ensures Concat(a + b) == Concat(a) + Concat(b)
  {
    if a != [] {
      ConcatAppend(a[1..], b);
      assert (a + b)[1..] == a[1..] + b;
    } else {
      assert a + b == b;
    }
  }

  lemma LineFirst(l: Bytes, rest: Bytes)
    requires l != [] && l[|l| - 1] == LF && LF !in l[..|l| - 1]
    ensures LineOf(l + rest) == (l, rest)
  {
    var k := |l| - 1;
    assert l + rest == l[..k] + ([LF] + rest);
    FindAfterFree(l[..k], [LF] + rest, LF);
    assert (l + rest)[..k + 1] == l;
    assert (l + rest)[k + 1..] == rest;
  }

  lemma ReadLineFirst(l: Bytes, rest: Bytes)
    requires IsLine(l)
    ensures ReadLine(l + rest) == Ok((l, rest))
  {
    LineFirst(l, rest);
  }

  /** A line that ends in CRLF and holds no other LF. */
  lemma CrlfLine(t: Bytes)
    requires LF !in t && Utf8.Valid(t)
    ensures IsLine(t + CRLF)
  {
    Utf8.AsciiValid(CRLF);
    Utf8.ConcatValid(t, CRLF);
    assert (t + CRLF)[..|t + CRLF| - 1] == t + [CR];
  }

  lemma ShowHeaderLine(h: Header)
    requires Readable(h)
    ensures IsLine(ShowHeader(h) + CRLF) && LF !in ShowHeader(h)
  {
    Utf8.AsciiValid([COLON, SPACE]);
    Utf8.ConcatValid(h.name, [COLON, SPACE]);
    Utf8.ConcatValid(h.name + [COLON, SPACE], h.value);
    CrlfLine(ShowHeader(h));
  }

  /** A space before and a CR after an unpadded text are both trimmed off. */
  lemma TrimPadded(v: Bytes)
    requires Unpadded(v)
    ensures Trim([SPACE] + v + [CR]) == v
  {
    TrimStartPadded(v);
    if v != [] {
      TrimEndCr(v);
    }
  }

  lemma TrimStartPadded(v: Bytes)
    requires LeadingSpaceLen(v) == 0
    ensures TrimStart([SPACE] + v + [CR]) == if v == [] then [] else v + [CR]
  {
    var s := [SPACE] + v + [CR];
    assert LeadingSpaceLen(s) == 1;
    assert s[1..] == v + [CR];
    if v == [] {
      assert LeadingSpaceLen([CR]) == 1;
      assert [CR][1..] == [];
    } else {
      LeadingBeforeCr(v);
    }
  }

  lemma TrimEndCr(v: Bytes)
    requires TrailingSpaceLen(v) == 0
    ensures TrimEnd(v + [CR]) == v
  {
    assert TrailingSpaceLen(v + [CR]) == 1;
    assert (v + [CR])[..|v|] == v;
  }

  lemma LeadingBeforeCr(v: Bytes)
    requires v != [] && LeadingSpaceLen(v) == 0
    ensures LeadingSpaceLen(v + [CR]) == 0
  {
    var s := v + [CR];
    assert s[0] == v[0];
    if |v| >= 2 {
      assert s[1] == v[1];
    }
    if |v| >= 3 {
      assert s[2] == v[2];
    }
  }

  /** A displayed header, ended by CRLF, is cut at the colon the display put after the name. */
  lemma ParseShownHeaderFields(h: Header)
    requires COLON !in h.name
    ensures ParseHeader(ShowHeader(h) + CRLF) == Ok(Header(Trim(h.name), Trim([SPACE] + h.value + [CR])))
  {
    var line := ShowHeader(h) + CRLF;
    var text := h.name + [COLON] + ([SPACE] + h.value + [CR]);
    assert line[..|line| - 1] == text;
    assert Chomp(line) == Ok(text);
    SplitOnceOf(h.name, [SPACE] + h.value + [CR], COLON);
  }

  /** A displayed header, ended by CRLF, parses back to itself. */
  lemma ParseShownHeader(h: Header)
    requires Readable(h)
    ensures ParseHeader(ShowHeader(h) + CRLF) == Ok(h)
  {
    ParseShownHeaderFields(h);
    TrimNoSpace(h.name);
    TrimPadded(h.value);
  }

  lemma {:induction false} ParseShownHeaders(hs: seq<Header>)
    requires forall i :: 0 <= i < |hs| ==> Readable(hs[i])
    ensures forall i :: 0 <= i < |HeaderText(hs)| ==> HeaderText(hs)[i] != []
    ensures ParseHeaders(HeaderText(hs)) == Ok(hs)
  {
    if hs != [] {
      HeaderTextCons(hs);
      ParseShownHeaders(hs[1..]);
      ParseShownHeader(hs[0]);
      ParseHeadersCons(hs, HeaderText(hs));
    }
  }

  lemma HeaderTextCons(hs: seq<Header>)
    requires hs != []
    ensures HeaderText(hs)[0] == ShowHeader(hs[0]) + CRLF
    ensures HeaderText(hs)[1..] == HeaderText(hs[1..])
  {
  }

  /** Header lines parse one by one. */
  lemma ParseHeadersCons(hs: seq<Header>, lines: seq<Bytes>)
    requires hs != [] && |lines| == |hs|
    requires forall i :: 0 <= i < |lines| ==> lines[i] != []
    requires ParseHeader(lines[0]) == Ok(hs[0])
    requires ParseHeaders(lines[1..]) == Ok(hs[1..])
    ensures ParseHeaders(lines) == Ok(hs)
  {
    HeadTail(hs);
  }

  /** The blank line that ends a header block. */
  lemma BlankLine()
    ensures IsLine(CRLF)
  {
    Utf8.AsciiValid(CRLF);
  }

  /** The header lines of a block ended by a blank line are read one by one, and the blank line is consumed. */
  lemma {:induction false} HeaderBlockLines(lines: seq<Bytes>, rest: Bytes)
    requires forall i :: 0 <= i < |lines| ==> IsLine(lines[i]) && |lines[i]| >= 3
    ensures HeaderLines(Concat(lines) + CRLF + rest) == (Ok(lines), rest)
  {
    if lines == [] {
      HeaderBlockEnd(rest);
      assert Concat(lines) + CRLF + rest == CRLF + rest;
    } else {
      HeaderBlockLines(lines[1..], rest);
      ConcatThen(lines, rest);
      HeaderLineThen(lines, Concat(lines[1..]) + CRLF + rest, rest);
    }
  }

  lemma ConcatThen(lines: seq<Bytes>, rest: Bytes)
    requires lines != []
    ensures Concat(lines) + CRLF + rest == lines[0] + (Concat(lines[1..]) + CRLF + rest)
  {
  }

  /** The blank line ends the block. */
  lemma HeaderBlockEnd(rest: Bytes)
    ensures HeaderLines(CRLF + rest) == (Ok([]), rest)
  {
    BlankLine();
    ReadLineFirst(CRLF, rest);
    HeaderLinesStep(CRLF + rest);
  }

  /** A header line is read and the block goes on after it. */
  lemma HeaderLineThen(lines: seq<Bytes>, tail: Bytes, rest: Bytes)
    requires lines != [] && IsLine(lines[0]) && |lines[0]| >= 3
    requires HeaderLines(tail) == (Ok(lines[1..]), rest)
    ensures HeaderLines(lines[0] + tail) == (Ok(lines), rest)
  {
    ReadLineFirst(lines[0], tail);
    HeaderLinesStep(lines[0] + tail);
    HeadTail(lines);
  }

  /**
   * What `Display` writes for a list of headers and a blank line,
   * `read_headers` reads back as the same headers, leaving what follows.
   */
  lemma ReadShownHeaders(w: Wire, hs: seq<Header>, rest: Bytes)
    requires forall i :: 0 <= i < |hs| ==> Readable(hs[i])
    requires w.unread == Concat(HeaderText(hs)) + CRLF + rest
    ensures ReadHeadersWire(w) == (Ok(hs), w.(unread := rest))
  {
    var lines := HeaderText(hs);
    forall i | 0 <= i < |lines| ensures IsLine(lines[i]) && |lines[i]| >= 3 {
      ShownLine(hs, i);
    }
    HeaderBlockLines(lines, rest);
    ParseShownHeaders(hs);
  }

  lemma {:induction false} ShownLine(hs: seq<Header>, i: nat)
    requires forall j :: 0 <= j < |hs| ==> Readable(hs[j])
    requires i < |hs|
    ensures HeaderText(hs)[i] == ShowHeader(hs[i]) + CRLF
    ensures IsLine(HeaderText(hs)[i]) && |HeaderText(hs)[i]| >= 3
  {
    if i > 0 {
      ShownLine(hs[1..], i - 1);
    } else {
      ShowHeaderLine(hs[0]);
    }
  }

  /** Splitting at spaces a text whose first two fields hold none keeps those two fields. */
  lemma SplitThree(a: Bytes, b: Bytes, c: Bytes)
    requires SPACE !in a && SPACE !in b
    ensures var parts := Split(a + [SPACE] + b + [SPACE] + c, SPACE);
            |parts| >= 3 && parts[0] == a && parts[1] == b && parts[2] == Split(c, SPACE)[0]
  {
    SplitTwoFirst(a, b, c, SPACE);
  }

  /**
   * A displayed status line is read back with its protocol and status; the
   * message keeps only its first word, with the CR when it is one word.
   */
  lemma ReadShownStatusLine(w: Wire, s: StatusLine, rest: Bytes)
    requires SPACE !in s.protocol && SPACE !in s.status
    requires LF !in ShowStatusLine(s) && Utf8.Valid(ShowStatusLine(s))
    requires w.unread == ShowStatusLine(s) + CRLF + rest
    ensures ReadStatusLine(w) == (Ok(StatusLine(s.protocol, s.status, Split(s.message + [CR], SPACE)[0])),
                                  w.(unread := rest))
  {
    var line := ShowStatusLine(s) + CRLF;
    CrlfLine(ShowStatusLine(s));
    ReadLineFirst(line, rest);
    assert line[..|line| - 1] == s.protocol + [SPACE] + s.status + [SPACE] + (s.message + [CR]);
    SplitThree(s.protocol, s.status, s.message + [CR]);
  }

  /**
   * A displayed request line is read back with its method and host; the
   * protocol keeps only its first word, with the CR when it is one word.
   */
  lemma ReadShownRequestLine(w: Wire, r: RequestLine, rest: Bytes)
    requires SPACE !in r.verb && SPACE !in r.host
    requires LF !in ShowRequestLine(r) && Utf8.Valid(ShowRequestLine(r))
    requires w.unread == ShowRequestLine(r) + CRLF + rest
    ensures ReadRequestLine(w) == (Ok(RequestLine(r.verb, r.host, Split(r.protocol + [CR], SPACE)[0])),
                                   w.(unread := rest))
  {
    var line := ShowRequestLine(r) + CRLF;
    CrlfLine(ShowRequestLine(r));
    ReadLineFirst(line, rest);
    assert line[..|line| - 1] == r.verb + [SPACE] + r.host + [SPACE] + (r.protocol + [CR]);
    SplitThree(r.verb, r.host, r.protocol + [CR]);
  }

  /** An empty stream ends `read_request_line` with `UnexpectedEof` and panics `read_status_line`. */
  lemma EndOfStream(w: Wire)
    requires w.unread == []
    ensures ReadRequestLine(w).0 == Err(IoFault(UnexpectedEof))
    ensures ReadStatusLine(w).0 == Err(Panic)
  {
    Utf8.AsciiValid([]);
  }
}
