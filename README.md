# lightway-rs in Dafny

A model of the tunnel-establishment and routing core of lightway-rs, a
forward proxy that accepts SOCKS5 (RFC 1928, with the username/password
sub-negotiation of RFC 1929) and HTTP CONNECT (section 9.3.6 of RFC 9110)
clients, checks their credentials, decides per target whether to connect
directly, through an upstream proxy or not at all, builds the egress stream
and relays bytes.

The model covers, crate by crate:

- `netway` (`crates/netway`): the SOCKS5 wire messages and their codecs
  (`NetwayProtocol`), the SOCKS5 server and client handshakes
  (`NetwaySocks5`), the HTTP line and header reader (`NetwayTunnelProtocol`),
  the HTTP CONNECT server, client and dialer (`NetwayTunnel`), and the
  destination address (`NetwayDst`).
- `proxy-socks`: the SOCKS5 message types with their validity checks and
  round trips (`ProxySocksTypes`), the `Server` service (`ProxySocksServer`)
  and the `Client` service (`ProxySocksClient`).
- `proxy-tunnel`: the HTTP CONNECT client with its `Basic` credentials and
  its send-then-receive future (`ProxyTunnelClient`), the hyper-based server
  (`ProxyTunnelServer`), and how each side reads the other and `netway`
  (`TunnelInterop`).
- `proxy-io`: `TargetAddr` (`ProxyAddr`), the length-prefixed reads and
  writes of `fixed_read.rs` (`FixedRead`), the connectors of `stream.rs`
  (`ProxyIoStream`) and the in-memory test stream (`MemIo`).
- `proxy-rules` (`ProxyRules`) and the application's own rules in
  `src/rule` (`LightwayRules`): rule parsing, showing, matching and
  first-non-default enforcement; the IPv4 subnet test is in `Cidr`.
- `proxy-auth` (`ProxyAuth`), the application configuration of
  `src/config.rs` (`AppConfig`), the server configuration merge of
  `proxy-server/src/config.rs` (`ServerConfig`) and the server's client
  dispatcher (`ServerClient`).
- Shared leaves: `Wrappers`, `Text` (byte strings, split/join, trimming,
  integer text), `IpAddrs` (IPv4 text, socket-address text), `Utf8`,
  `Base64` (RFC 4648 standard alphabet), `IoKinds` (the `io::ErrorKind`
  values the core uses) and `Sockets`.

How the model is built:

- Strings are UTF-8 byte sequences (`seq<Byte>`), because the source's
  lengths, `find` positions and length prefixes count bytes.
- A handshake on a socket is a pure function over a `Wire` value: the bytes
  still to be read, the events so far (`Wrote`, `Dialed`, `Relayed`,
  `ShutDown`), how many more writes the peer accepts and the error a failed
  I/O gives. The `Socket` class holds a `Wire`, and each async function of
  the source is a method on it whose `ensures` says it agrees with the
  function. The properties are lemmas about the functions.
- Objects whose setters update fields (`Server`, `Client`, `StreamConnect`,
  `ProxyConnect`, `VecReadBuf`, the proxy-tunnel future) are classes; loops
  of the source (policy enforcement, rule parsing, the TOML merge, the
  body-size scan, the length-prefixed reads and writes) are methods with
  loop invariants, proved against specification functions.
- Connecting, dialing, resolving, relaying, TLS support, the authenticator,
  the regex engine and the IPv6 text syntax are parameters.

What the program does, as modelled:

- Rules are enforced first-non-default: every layer returns the first
  decision that is not `Default`, a rule that matches with decision
  `Default` is skipped, and the caller chooses direct or proxy for
  `Default` with its `default_proxy` flag (`proxy-io/src/stream.rs`).
- DOMAIN-SUFFIX is a plain byte-suffix test with no `*.domain` wildcard, so
  `foolocal` ends with `local`.
- A failed dial in the `netway` HTTP server is answered 503. The
  `proxy-tunnel` server answers 200 before it dials, so a failed dial only
  shuts the upgraded connection down.
- The SOCKS5 servers only ever select the one method they are configured
  for. The `proxy-socks` server checks that the client offered it; the
  `netway` server selects "no authentication" without looking at the offer.
- The `netway` server's failure status for bad credentials, 0x01, is the
  byte its own client reads as success (see "## Findings").
- Rule tags are compared after Unicode upper-casing (`str::to_uppercase`),
  so a tag spelled with a dotless i or the ff ligature can name an ASCII
  tag (`LightwayRules.NonAsciiTags`).
- There is no idle timeout, connect timeout or rate limit in the core.

## Model

| member | source | states |
|---|---|---|
| AppConfig.DefaultGeneral | src/config.rs:41-66 | the default settings select proxy mode Proxy, exclude simple host names and name no upstream proxy |
| AppConfig.DefaultListenersMatchPorts | src/config.rs:41-66 | the default HTTP and SOCKS5 listen texts read back as 127.0.0.1 at the default `port` and `socks_port` |
| AppConfig.ParseProtocol | src/config.rs:94-104 | "http", "https" and "socks5" are each accepted exactly when the text equals them up to ASCII case; anything else is an unknown-protocol error |
| AppConfig.ParseProtocolName | src/config.rs:94-104 | every protocol's own lower-case name parses back to that protocol |
| AppConfig.ParseProtocolIgnoresCase | src/config.rs:94-104 | two names equal up to ASCII case parse to the same result |
| AppConfig.Fields | src/config.rs:68-72 | one trimmed field per comma-separated piece, and no field holds a comma |
| AppConfig.ParseProxy | src/config.rs:68-92 | the format error exactly when there are neither 3 nor 5 fields; the protocol error exactly when the first field is no protocol; the port error exactly when the third field is not a decimal u16; on success host, port and protocol come from fields 1-3, and credentials from fields 4-5 exactly when there are five |
| AppConfig.ParseShowProxy | src/config.rs:68-92 | every upstream whose host and credentials are single comma-free untrimmed fields is read back from its comma-joined text |
| ServerConfig.Position | proxy-server/src/config.rs:138-140 | the index of the first left item whose "name" is the right item's name, or None when no item carries it |
| ServerConfig.Merge | proxy-server/src/config.rs:119-173 | the merge is an array or a table exactly when the right value is; a scalar right value, a kind mismatch (anything but array with array or table with table) or depth 0 gives the right value itself |
| ServerConfig.PushItem | proxy-server/src/config.rs:136-146 | a right item with no same-named left item is appended; otherwise the matched item is taken out and its merge with the right item goes to the end |
| ServerConfig.MergeValues | proxy-server/src/config.rs:119-173 | the imperative merge, with its array and table loops, computes `Merge` |
| ServerConfig.MergeArrays | proxy-server/src/config.rs:128-151 | the array loop (remove the matched item, push the merge) computes the fold of `PushItem` over the right items |
| ServerConfig.MergeTables | proxy-server/src/config.rs:152-167 | the table loop (remove the key, insert the merge or the right value) yields the left map with every right key merged in |
| ServerConfig.MergeKey | proxy-server/src/config.rs:155-163 | one turn of the table loop adds exactly the one right key to what has been merged so far |
| ServerConfig.MergeKeysStep | proxy-server/src/config.rs:155-163 | visiting one more right key changes the table at that key only, to the recursive merge or to the right value |
| ServerConfig.RightScalarWins | proxy-server/src/config.rs:119-173 | a scalar found in the right tree at any key path is found at that path of the merge, at every depth |
| ServerConfig.LeftKeptWhereRightAbsent | proxy-server/src/config.rs:152-167 | a left value survives at a path no longer than the depth where the right tree has nothing |
| ServerConfig.MergeIntoEmpty | proxy-server/src/config.rs:56-58 | merging into the empty table, the seed of the fold, gives the right value back |
| ServerConfig.MergeKeepsName | proxy-server/src/config.rs:138-144 | a merged array item keeps the name it shares with the right item |
| ServerConfig.PushItemNames | proxy-server/src/config.rs:136-146 | one turn of the array loop leaves the set of names as the old names plus the right item's |
| ServerConfig.MergeItemsNames | proxy-server/src/config.rs:134-148 | the names of a merged array are the left array's names plus the right array's |
| ServerConfig.MergeItemsLength | proxy-server/src/config.rs:134-148 | the merged array is no shorter than the left one and no longer than both together |
| ServerConfig.UnnamedItemsAppended | proxy-server/src/config.rs:134-148 | right items without a name are appended, in order, after the unchanged left items |
| ServerConfig.Loaded | proxy-server/src/config.rs:43-53 | the readable files parse to their values in order, or the first parse error stops the load; unreadable files are skipped |
| ServerConfig.FoldMergeLast | proxy-server/src/config.rs:54-58 | the last value of the fold, the built-in rules, is merged last at depth 3 |
| ServerConfig.UserRulesFail | proxy-server/src/config.rs:42-60 | `user_rules` fails exactly when one of the readable files does not parse |
| ServerConfig.UserRulesWithoutFiles | proxy-server/src/config.rs:42-60 | with no readable user file the rules are the built-in ones |
| ServerConfig.DefaultsWin | proxy-server/src/config.rs:54-58 | a scalar of the built-in rules is the value at its path whatever the user files say |
| ServerConfig.UserOnlyKept | proxy-server/src/config.rs:54-58 | a user value up to three keys deep survives where the built-in rules say nothing |
| ServerClient.SocketNew | proxy-server/src/client.rs:84 | `SocketAddr::new` keeps the address and the port |
| ServerClient.ParseTarget | proxy-server/src/client.rs:82-88 | a socket address with that port exactly when the host parses as an IP address, otherwise the domain with that port |
| ServerClient.ParseTargetOfIp | proxy-server/src/client.rs:82-88 | the displayed text of any IP address is dialed at that address |
| ServerClient.Dispatch | proxy-server/src/client.rs:47-79 | no upstream is the panic; otherwise the target is `parse_target` of host and port, the credentials are forwarded, SOCKS5 is used exactly when the scheme is "socks5" up to case, and TLS exactly when the scheme is "https" up to case |
| ServerClient.Client.New | proxy-server/src/client.rs:21-23 | the client holds the given upstream |
| ServerClient.Client.Empty | proxy-server/src/client.rs:25-27 | the client holds no upstream |
| ServerClient.Client.SetProxy | proxy-server/src/client.rs:29-31 | the upstream is replaced by the given one |
| ServerClient.Client.Call | proxy-server/src/client.rs:47-79 | fails exactly when `Dispatch` does; otherwise builds a fresh SOCKS5 or tunnel client set up with the target, credentials and TLS choice `Dispatch` names |
| ProxyAuth.Authenticate | proxy-auth/src/lib.rs:19-25 | NoAuth accepts every pair; Basic(u, p) accepts exactly user == u and pass == p |
| ProxyAuth.BasicRejectsOneWrong | proxy-auth/src/lib.rs:23 | Basic rejects a pair in which exactly one of user and password is wrong |
| ProxyAuth.BasicAcceptsOnlyItsPair | proxy-auth/src/lib.rs:23 | Basic accepts its own pair and no other |
| MemIo.Bytes.TestBytes | proxy-io/src/memio.rs:15-20 | an empty buffer with the read position at 0 |
| MemIo.Bytes.PollRead | proxy-io/src/memio.rs:22-34 | never fails; copies min(unread, room) bytes from the read position, advances the position by that many, and the unread bytes shrink by exactly what was returned (none at the end: end of stream) |
| MemIo.Bytes.PollWrite | proxy-io/src/memio.rs:37-45 | appends the whole slice, reports its length and leaves the read position alone |
| MemIo.Bytes.PollFlush | proxy-io/src/memio.rs:46-48 | succeeds and changes nothing |
| MemIo.Bytes.PollShutdown | proxy-io/src/memio.rs:50-52 | succeeds and changes nothing |
| NetwayDst.FromSocketAddr | crates/netway/src/dst.rs:78-82 | a socket address is wrapped as the Socket target |
| NetwayDst.ShowDomainSplits | crates/netway/src/dst.rs:58-65 | the display "d:p" of a domain target splits at its last ':' into the name and the decimal port |
| NetwayDst.ToSocketAddrs | crates/netway/src/dst.rs:67-76 | a Socket target yields exactly itself; a Domain target asks the resolver |
| ProxyAddr.Show | proxy-io/src/addr.rs:16-23 | the display of a domain target splits at its last ':' into the domain and the decimal port |
| ProxyAddr.FromSocketAddr | proxy-io/src/addr.rs:42-46 | a socket address is wrapped as the SocketAddr target |
| ProxyAddr.ToSocketAddrs | proxy-io/src/addr.rs:31-40 | a socket address yields exactly itself; a domain asks the resolver |
| ProxyAddr.ResolveDns | proxy-io/src/addr.rs:48-63 | a socket address resolves to itself; a domain resolves to the first address found, HostUnreachable when none, or the resolver's error |
| ProxyAddr.ResolveDnsIdempotent | proxy-io/src/addr.rs:48-63 | resolving a resolved target gives it back unchanged |
| NetwayProtocol.MethodTryFrom | crates/netway/src/socks5/protocol.rs:283-310 | a method byte is accepted exactly when it is at most 0x7f or is 0xff, 0x80..0xfe give UnknownMethod, and `id` of an accepted method is the byte |
| NetwayProtocol.MethodIdTryFrom | crates/netway/src/socks5/protocol.rs:283-310 | `try_from(id(m))` is m for every method |
| NetwayProtocol.CommandTryFrom | crates/netway/src/socks5/protocol.rs:346-356 | a command byte is accepted exactly when it is 1, 2 or 3, with the same byte as its encoding; others give CommandNotSupported |
| NetwayProtocol.CommandByteTryFrom | crates/netway/src/socks5/protocol.rs:346-381 | the byte written for a command decodes to that command |
| NetwayProtocol.RepTryFrom | crates/netway/src/socks5/protocol.rs:397-407 | a reply byte is accepted exactly when it is at most 8, its code being that byte; others give UnknownError |
| NetwayProtocol.RepByteTryFrom | crates/netway/src/socks5/protocol.rs:477-486 | the byte written for a reply code decodes to that code |
| NetwayProtocol.RepFromErr | crates/netway/src/socks5/protocol.rs:409-430 | an I/O error maps to ConnectionRefused exactly for the ConnectionRefused kind and to AddressTypeNotSupported for every other kind |
| NetwayProtocol.RepFromErrOfRep | crates/netway/src/socks5/protocol.rs:409-445 | `from_err(Error::from(r))` is r, except that ConnectionNotAllowedByRuleset and AddressTypeNotSupported come back as GeneralSocksServerFailure |
| NetwayProtocol.StatusTryFrom | crates/netway/src/socks5/protocol.rs:495-504 | status decoding never fails: the coding's success byte is Ok and every other byte n is Failure(n); as written that byte is 0x01, under RFC 1929 section 2 it is 0x00 |
| NetwayProtocol.StatusRoundTrip | crates/netway/src/socks5/protocol.rs:495-513 | in either coding, decoding the code of a status gives it back except a failure carrying the success byte (Failure(0x01) as written), which reads as Ok; encoding a decoded byte gives the byte back |
| NetwayProtocol.DecodeSocksVersion | crates/netway/src/socks5/protocol.rs:211-226 | only the byte 0x05 is accepted, consuming exactly one byte |
| NetwayProtocol.DecodePasswordVersion | crates/netway/src/socks5/protocol.rs:244-259 | only the byte 0x01 is accepted, consuming exactly one byte |
| NetwayProtocol.DecodeRsv | crates/netway/src/socks5/protocol.rs:543-557 | only the byte 0x00 is accepted, consuming exactly one byte |
| NetwayProtocol.DecodeString | crates/netway/src/socks5/protocol.rs:106-118 | a decoded string is valid UTF-8 and was its length byte followed by its bytes |
| NetwayProtocol.StringRoundTrip | crates/netway/src/socks5/protocol.rs:106-133 | a UTF-8 string of at most 255 bytes is read back exactly, whatever follows it |
| NetwayProtocol.DecodeMethodsN | crates/netway/src/socks5/protocol.rs:69-86 | decoding n elements yields exactly n methods |
| NetwayProtocol.MethodIds | crates/netway/src/socks5/protocol.rs:88-104 | the encoding has one byte per method, each the method's id, in order |
| NetwayProtocol.MethodsNRoundTrip | crates/netway/src/socks5/protocol.rs:69-104 | the method bytes read back as the same list, leaving what follows |
| NetwayProtocol.DecodeDstAddr | crates/netway/src/socks5/protocol.rs:135-173 | an address type other than 0x01, 0x03 and 0x04 gives AddressTypeNotSupported |
| NetwayProtocol.DstAddrRoundTrip | crates/netway/src/socks5/protocol.rs:135-206 | every encodable address (IPv4, IPv6, or a UTF-8 domain of at most 255 bytes), with its big-endian port, reads back exactly |
| NetwayProtocol.DomainRoundTrip | crates/netway/src/socks5/protocol.rs:135-206 | a domain target (tag 0x03, length byte, name, port) reads back exactly |
| NetwayProtocol.Ipv4RoundTrip | crates/netway/src/socks5/protocol.rs:135-206 | an IPv4 target (tag 0x01, 4 bytes, port) reads back exactly |
| NetwayProtocol.Ipv6RoundTrip | crates/netway/src/socks5/protocol.rs:135-206 | an IPv6 target (tag 0x04, 16 bytes, port) reads back exactly |
| NetwayProtocol.EncodeMethodRequest | crates/netway/src/socks5/protocol.rs:609-623 | the method request is 2 bytes plus one per method (3 bytes for one method, 4 for two) |
| NetwayProtocol.MethodRequestRoundTrip | crates/netway/src/socks5/protocol.rs:749-786 | a method request of at most 255 methods reads back exactly |
| NetwayProtocol.EncodeMethodReply | crates/netway/src/socks5/protocol.rs:788-796 | the method reply is exactly 2 bytes |
| NetwayProtocol.MethodReplyRoundTrip | crates/netway/src/socks5/protocol.rs:625-647 | a method reply reads back exactly |
| NetwayProtocol.PasswordRequestRoundTrip | crates/netway/src/socks5/protocol.rs:649-663 | a username/password request with UTF-8 fields of at most 255 bytes reads back exactly |
| NetwayProtocol.EncodePasswordReply | crates/netway/src/socks5/protocol.rs:665-677 | the password reply is exactly 2 bytes |
| NetwayProtocol.PasswordReplyRoundTrip | crates/netway/src/socks5/protocol.rs:665-677 | in either coding a password reply reads back exactly, except that a failure carrying the success byte (Failure(0x01) as written) reads back as success |
| NetwayProtocol.DstRequestRoundTrip | crates/netway/src/socks5/protocol.rs:679-705 | a request (version, command, reserved 0x00, address) reads back exactly |
| NetwayProtocol.DstReplyRoundTrip | crates/netway/src/socks5/protocol.rs:707-743 | a reply (version, code, reserved 0x00, address) reads back exactly |
| NetwaySocks5.Serve | crates/netway/src/socks5.rs:95-192 | the step-by-step server handshake on a socket leaves the socket in exactly the state, and returns exactly the result, of the handshake function `ServeWire` that the lemmas below describe |
| NetwaySocks5.ServeRequestOn | crates/netway/src/socks5.rs:130-190 | reading the request and answering it on the socket agrees with `ServeRequest` |
| NetwaySocks5.NoAuthSelectsNoAuthentication | crates/netway/src/socks5.rs:100-105 | under NoAuth the server answers "no authentication required" whatever methods were offered, and succeeds |
| NetwaySocks5.PasswordNotOffered | crates/netway/src/socks5.rs:106-112 | under Password, an offer without username/password is answered NoAcceptableMethods and fails with NoAcceptableMethods |
| NetwaySocks5.CredentialsChecked | crates/netway/src/socks5.rs:116-126 | the credentials pass exactly when username and password are both equal; the reply written is Ok or Failure(0x01) in the given coding, and a failure returns PasswordAuthFailure(0x01) |
| NetwaySocks5.ServeAuthPassword | crates/netway/src/socks5.rs:106-127 | when username/password is offered the server selects it and goes on to the credential check |
| NetwaySocks5.AuthFailureReadsAsSuccess | crates/netway/src/socks5.rs:121-124 | as written, the Failure(0x01) reply the server sends on bad credentials has the same bytes as its success reply, and reads back as success |
| NetwaySocks5.AuthFailureReadsAsFailure | crates/netway/src/socks5/protocol.rs:495-513 | corrected (0x00 is success, as in RFC 1929 section 2): the failure and success replies differ, the failure reply reads back as Failure(0x01) and the success reply as Ok |
| NetwaySocks5.UnsupportedCommandNotDialed | crates/netway/src/socks5.rs:178-189 | BIND and UDP ASSOCIATE are answered CommandNotSupported with the default address, nothing is dialed, and the result is CommandNotSupported |
| NetwaySocks5.DialFailureReplied | crates/netway/src/socks5.rs:169-176 | a failed dial is answered by exactly one reply carrying `Rep::from_err` of the error and the default address, then the error is returned |
| NetwaySocks5.RelayOnlyAfterSuccessReply | crates/netway/src/socks5.rs:133-166 | relaying happens only after a successful dial and the Succeeded reply with the local address; when that reply cannot be written the outbound stream is shut down |
| NetwaySocks5.AuthSocks5Socket | crates/netway/src/socks5.rs:21-59 | the client's negotiation on a socket agrees with `ClientAuth` |
| NetwaySocks5.ProxyConnect | crates/netway/src/socks5.rs:63-77 | negotiation, then a CONNECT request, then the reply code, agreeing with `ProxyConnectWire` |
| NetwaySocks5.TryConnect | crates/netway/src/socks5.rs:206-236 | `try_connect` on a socket agrees with `TryConnectWire` |
| NetwaySocks5.ClientOffersOneMethod | crates/netway/src/socks5.rs:25-40 | the client's first message offers exactly one method: "no authentication" under NoAuth, username/password under Password |
| NetwaySocks5.ClientNoAcceptableMethods | crates/netway/src/socks5.rs:31-55 | a NoAcceptableMethods selection ends the client's negotiation with NoAcceptableMethods |
| NetwaySocks5.ClientPasswordOutcome | crates/netway/src/socks5.rs:37-52 | under Password, after a UsernameAndPassword selection the client writes its credentials as the second message; the coding's success byte (0x01 as written, Status::Ok) gives Ok, any other byte v (Status::Failure(v)) gives PasswordAuthFailure(v), and the reply is consumed |
| NetwaySocks5.TryConnectOutcomes | crates/netway/src/socks5.rs:209-236 | the stream is returned exactly when the TCP connect succeeds and the reply is Succeeded; every failure is ProxyServerUnreachable, and after a connected failure the stream to the proxy is shut down |
| NetwaySocks5.NoAuthHandshakeAgrees | crates/netway/src/socks5.rs:21-105 | the client's NoAuth offer is accepted by the server, and the server's selection is accepted by the client |
| NetwaySocks5.PasswordExchange | crates/netway/src/socks5.rs:37-52 | server and client password exchange: the server accepts exactly equal credentials; as written the client then ends with Ok whatever the server decided, with the RFC 1929 coding it ends with the server's own result |
| NetwaySocks5.ClientReadsStatus | crates/netway/src/socks5.rs:47-52 | reading the server's success reply gives Ok; reading its Failure(0x01) reply gives Ok as written and PasswordAuthFailure(0x01) with the RFC 1929 coding |
| NetwayTunnelProtocol.ReadLine | crates/netway/src/tunnel/protocol.rs:70 | `read_line` takes the bytes up to and including the first LF (all the rest when there is none), which must be UTF-8, and leaves what follows |
| NetwayTunnelProtocol.HeaderLines | crates/netway/src/tunnel/protocol.rs:119-128 | the header loop never consumes more than there is, and every line it keeps is at least 3 bytes long |
| NetwayTunnelProtocol.HeaderLinesStep | crates/netway/src/tunnel/protocol.rs:121-128 | one turn of the loop: a read error stops it, a line shorter than 3 bytes ends it, and a longer line is kept before the loop goes on |
| NetwayTunnelProtocol.ReadHeaderLines | crates/netway/src/tunnel/protocol.rs:119-128 | the imperative loop on a socket reads exactly the lines `HeaderLines` gives and writes nothing |
| NetwayTunnelProtocol.ReadHeaders | crates/netway/src/tunnel/protocol.rs:112-140 | `read_headers` on a socket agrees with `ReadHeadersWire`: the header lines, each split at its first ':' into trimmed name and value |
| NetwayTunnelProtocol.HeaderText | crates/netway/src/tunnel/protocol.rs:16-20 | one displayed "name: value" line per header |
| NetwayTunnelProtocol.ParseShownHeaderFields | crates/netway/src/tunnel/protocol.rs:130-137 | a displayed header line is cut at the colon the display put there, and both halves are trimmed |
| NetwayTunnelProtocol.ParseShownHeader | crates/netway/src/tunnel/protocol.rs:130-137 | a displayed header with a colon-free printable name and a printable value parses back to itself |
| NetwayTunnelProtocol.ParseShownHeaders | crates/netway/src/tunnel/protocol.rs:130-139 | a list of displayed headers parses back to the same list |
| NetwayTunnelProtocol.HeaderBlockLines | crates/netway/src/tunnel/protocol.rs:119-128 | the lines of a header block ended by a blank line are read one by one, in order, and reading stops right after the blank line |
| NetwayTunnelProtocol.ReadShownHeaders | crates/netway/src/tunnel/protocol.rs:112-140 | displayed headers followed by a blank line read back as the same headers, leaving what follows |
| NetwayTunnelProtocol.ReadShownStatusLine | crates/netway/src/tunnel/protocol.rs:89-110 | a displayed status line reads back with its protocol and status, and with only the first word of its message |
| NetwayTunnelProtocol.ReadShownRequestLine | crates/netway/src/tunnel/protocol.rs:62-87 | a displayed request line reads back with its method and host, and with only the first word of its protocol |
| NetwayTunnelProtocol.EndOfStream | crates/netway/src/tunnel/protocol.rs:62-110 | at end of stream the request line fails with UnexpectedEof, while the status line panics on its `size - 1` slice |
| NetwayTunnel.WriteAll | crates/netway/src/tunnel.rs:62-84 | writing the request lines one `write_all` after the other on a socket agrees with `SendAll` |
| NetwayTunnel.SendAllOutcome | crates/netway/src/tunnel.rs:62-84 | the messages are all written exactly when the peer takes that many writes; otherwise the ones that fit are written and the peer's error is returned |
| NetwayTunnel.WriteResp | crates/netway/src/tunnel.rs:253-278 | `write_resp` on a socket writes the status line, one line per header and the blank line, as `SendAll` of `Response` |
| NetwayTunnel.ResponseText | crates/netway/src/tunnel.rs:253-278 | the bytes of an answer are "protocol status message" CRLF, then "name: value" CRLF per header, then CRLF |
| NetwayTunnel.BodySizeOf | crates/netway/src/tunnel.rs:92-103 | the body-size loop computes `BodySize` over the headers |
| NetwayTunnel.BodySizeMeaning | crates/netway/src/tunnel.rs:92-103 | the body size is refused exactly when some header with the size name has a value that is no usize; with no such header it stays 0; otherwise it is the value of the last such header |
| NetwayTunnel.ReadResponseOn | crates/netway/src/tunnel.rs:87-121 | reading the answer on a socket agrees with `ReadResponse` |
| NetwayTunnel.ProxyConnect | crates/netway/src/tunnel.rs:38-122 | `proxy_connect` on a socket agrees with `ProxyConnectAsWritten`, which reads the body size from the `content-type` header |
| NetwayTunnel.ProxyConnectSends | crates/netway/src/tunnel.rs:62-88 | once the whole request is written, `proxy_connect` reads the answer |
| NetwayTunnel.ConnectHostDefaultPort | crates/netway/src/tunnel.rs:46-60 | a host without ':' gets ":80" after "http://" and ":443" after "https://" or with no scheme |
| NetwayTunnel.ConnectHostKeepsPort | crates/netway/src/tunnel.rs:46-60 | a target with no scheme that already holds a ':' is sent unchanged |
| NetwayTunnel.ConnectRequestText | crates/netway/src/tunnel.rs:62-84 | the request is the CONNECT line, then Host, Proxy-Connection, Proxy-Authorization only under Password, User-Agent, then a blank line |
| NetwayTunnel.AuthorizationValue | crates/netway/src/tunnel.rs:71-81 | the credentials header value is printable and is "Basic " followed by the base 64 text of "user:pass" |
| NetwayTunnel.AuthorizationAccepted | crates/netway/src/tunnel.rs:155-163 | the client's header for (username, password) passes the server's check for (u, p) exactly when "username:password" equals "u:p" |
| NetwayTunnel.AnyHeader | crates/netway/src/tunnel.rs:153-165 | the loop sets `authed` exactly when some header passes the check |
| NetwayTunnel.ServeTargetOn | crates/netway/src/tunnel.rs:185-249 | dialing and answering on a socket agrees with `ServeTarget` |
| NetwayTunnel.Serve | crates/netway/src/tunnel.rs:140-251 | `serve` on a socket agrees with `ServeWire` |
| NetwayTunnel.AdmitOn | crates/netway/src/tunnel.rs:148-249 | once the headers are read, `serve` sends the challenge when the credentials do not check out, and otherwise dials and answers as `ServeTarget` does |
| NetwayTunnel.ChallengeOn | crates/netway/src/tunnel.rs:166-180 | the 407 answer with its `Proxy-Authenticate` header is written, and the request fails with the write's error or `PermissionDenied` |
| NetwayTunnel.TargetOfShown | crates/netway/src/tunnel.rs:185-191 | "name:port" is dialed as the domain name at that port |
| NetwayTunnel.TargetOfNoPort | crates/netway/src/tunnel.rs:189-191 | a host without ':' is dialed as that domain at port 0 |
| NetwayTunnel.TargetThroughTunnel | crates/netway/src/tunnel.rs:46-60 | the host the client sends is dialed by the server at the client's default port, and a displayed domain target at its own port |
| NetwayTunnel.ServerReadsConnectRequest | crates/netway/src/tunnel.rs:62-84 | the server reads the client's request line and headers back as sent, and the client's own credentials satisfy the server's check |
| NetwayTunnel.ServeAcceptsClient | crates/netway/src/tunnel.rs:140-191 | serving the client's own request goes straight to dialing the target it names |
| NetwayTunnel.ChallengeOutcome | crates/netway/src/tunnel.rs:166-181 | a refused request gets the 407 answer with the Proxy-Authenticate challenge, then PermissionDenied, and nothing is dialed |
| NetwayTunnel.ServeTargetOutcome | crates/netway/src/tunnel.rs:192-249 | a failed dial is answered 503 and its error returned; a successful one is answered 200 and then relayed; a 200 that cannot be written shuts the outbound stream down |
| NetwayTunnel.DialOnlyWhenAuthorized | crates/netway/src/tunnel.rs:144-192 | the server dials exactly when the request line and the headers were read and the credentials check passed |
| NetwayTunnel.ReadsResponseHead | crates/netway/src/tunnel.rs:87-90 | the status line and headers written by `write_resp` read back with the same status and the same headers |
| NetwayTunnel.ReadsResponse | crates/netway/src/tunnel.rs:87-121 | an answer whose body has the announced size reads as its status code, with the body consumed and what follows left |
| NetwayTunnel.ReadsBodilessResponse | crates/netway/src/tunnel.rs:87-121 | an answer that announces no body is read whole and what follows is left unread |
| NetwayTunnel.ReadsEstablished | crates/netway/src/tunnel.rs:194-203 | the server's 200 answer reads as status 200 with nothing of it left |
| NetwayTunnel.ReadsDenied | crates/netway/src/tunnel.rs:167-179 | the server's 407 answer reads as status 407 with nothing of it left |
| NetwayTunnel.BodySizeNone | crates/netway/src/tunnel.rs:92-103 | no body size comes out exactly when some header with the size name holds no usize |
| NetwayTunnel.BodySizeAbsent | crates/netway/src/tunnel.rs:92-103 | with no header of the size name, the starting size stands |
| NetwayTunnel.BodySizeLast | crates/netway/src/tunnel.rs:92-103 | when a size comes out, it is the value of the last header with the size name |
| NetwayTunnel.BodySizes | crates/netway/src/tunnel.rs:93-103 | a `Content-Type: text/html` header is no size under the name "content-type" and size 0 under "content-length"; a `Content-Length` header gives its size only under "content-length" |
| NetwayTunnel.AsWrittenRejectsContentType | crates/netway/src/tunnel.rs:93-101 | as written, a 200 answer that carries `Content-Type: text/html` fails with InvalidData |
| NetwayTunnel.AsWrittenLeavesBody | crates/netway/src/tunnel.rs:93-107 | as written, a 200 answer with a body announced by `Content-Length` succeeds with the body left unread, to be taken as tunnel data |
| NetwayTunnel.AcceptsContentType | crates/netway/src/tunnel.rs:93-101 | corrected, the same `Content-Type` answer reads as status 200 |
| NetwayTunnel.ConsumesBody | crates/netway/src/tunnel.rs:105-107 | corrected, the announced body is consumed and what follows it is the tunnel's first data |
| NetwayTunnel.TryConnect | crates/netway/src/tunnel.rs:296-326 | `try_connect` on a socket agrees with `TryConnectWire`, which settles over `ProxyConnectAsWritten` |
| NetwayTunnel.DialerAcceptsEstablished | crates/netway/src/tunnel.rs:306-307 | a dialer whose proxy answers 200 gets the stream, with nothing of the answer left unread |
| NetwayTunnel.DialerRejectsCode | crates/netway/src/tunnel.rs:308-314 | any answer other than 200 makes the dialer report ProxyServerUnreachable and shut the stream down, after exactly the exchange that produced the answer |
| NetwayTunnel.DialerRejectsDenied | crates/netway/src/tunnel.rs:308-314 | a dialer whose proxy refuses with 407 shuts the stream down and reports ProxyServerUnreachable |
| ProxySocksTypes.MethodFromU8 | proxy-socks/src/types.rs:63-84 | `from_u8` is total: every byte names a method, and `as_u8` of it is the byte |
| ProxySocksTypes.MethodFromAsU8 | proxy-socks/src/types.rs:63-84 | `from_u8(as_u8(m))` is m |
| ProxySocksTypes.MethodCodes | proxy-socks/src/types.rs:359-364 | the bytes of a method list: one per method, each its `as_u8`, in order |
| ProxySocksTypes.CommandFromU8 | proxy-socks/src/types.rs:107-119 | a command exactly for 1, 2 and 3, whose `as_u8` is the byte |
| ProxySocksTypes.CommandFromAsU8 | proxy-socks/src/types.rs:107-119 | `from_u8(as_u8(c))` is c |
| ProxySocksTypes.RepFromU8 | proxy-socks/src/types.rs:151-163 | a reply code exactly for bytes up to 8, whose `as_u8` is the byte |
| ProxySocksTypes.RepFromAsU8 | proxy-socks/src/types.rs:151-163 | `from_u8(as_u8(r))` is r |
| ProxySocksTypes.DstAtypFromU8 | proxy-socks/src/types.rs:189-201 | an address type exactly for 1, 3 and 4, whose `as_u8` is the byte |
| ProxySocksTypes.DstAtypFromAsU8 | proxy-socks/src/types.rs:189-201 | `from_u8(as_u8(a))` is a |
| ProxySocksTypes.ReadFixedString | proxy-io/src/fixed_read.rs:246-305 | a length-prefixed string is taken whole and must be UTF-8: a missing byte is UnexpectedEof and invalid UTF-8 is InvalidData |
| ProxySocksTypes.CandidateRoundTrip | proxy-socks/src/types.rs:374-384 | the version, count and method bytes written read back exactly |
| ProxySocksTypes.CandidateMethods.Empty | proxy-socks/src/types.rs:352-357 | version 0x05 and no methods |
| ProxySocksTypes.CandidateMethods.constructor | proxy-socks/src/types.rs:359-364 | version 0x05 and the byte of each given method, in order |
| ProxySocksTypes.CandidateMethods.Add | proxy-socks/src/types.rs:366-368 | appends exactly the method's byte and changes nothing else |
| ProxySocksTypes.CandidateMethods.Has | proxy-socks/src/types.rs:370-372 | true exactly when some stored byte is the method's byte |
| ProxySocksTypes.CandidateMethods.IsValid | proxy-socks/src/types.rs:386-392 | fails, with InvalidVersion, exactly when the version is not 0x05 (the per-method check cannot fail) |
| ProxySocksTypes.SelectionIsValid | proxy-socks/src/types.rs:418-421 | valid exactly when the version is 0x05 |
| ProxySocksTypes.SelectionNew | proxy-socks/src/types.rs:396-405 | a valid selection whose method is the given one |
| ProxySocksTypes.EncodeSelection | proxy-socks/src/types.rs:413-416 | a selection is exactly 2 bytes |
| ProxySocksTypes.SelectionRoundTrip | proxy-socks/src/types.rs:407-416 | a selection reads back exactly |
| ProxySocksTypes.UserPassIsValid | proxy-socks/src/types.rs:452-454 | valid exactly when the version is 0x01 |
| ProxySocksTypes.UserPassNewAsWritten | proxy-socks/src/types.rs:425-431 | as written, `new` keeps username and password but stamps version 0x05, so the value it builds fails `is_valid` |
| ProxySocksTypes.UserPassNew | proxy-socks/src/types.rs:425-431 | corrected, `new` keeps username and password and passes `is_valid` |
| ProxySocksTypes.UserPassRoundTrip | proxy-socks/src/types.rs:433-450 | version, username and password of at most 255 UTF-8 bytes each read back exactly |
| ProxySocksTypes.StatusNew | proxy-socks/src/types.rs:458-463 | a valid status message carrying the given status |
| ProxySocksTypes.StatusIsValid | proxy-socks/src/types.rs:476-478 | valid exactly when the version is 0x01 |
| ProxySocksTypes.IsSucceed | proxy-socks/src/types.rs:480-482 | success exactly when the status byte is 0x00 |
| ProxySocksTypes.EncodeStatus | proxy-socks/src/types.rs:471-474 | a status message is exactly 2 bytes |
| ProxySocksTypes.StatusRoundTrip | proxy-socks/src/types.rs:465-474 | a status message reads back exactly |
| ProxySocksTypes.DecodeTargetBody | proxy-socks/src/types.rs:502-541 | an unknown address type reads nothing more and gives no target; a known one gives a target of that type |
| ProxySocksTypes.TargetRoundTrip | proxy-socks/src/types.rs:502-567 | IPv4, IPv6 and domain targets, each with its big-endian port, read back exactly |
| ProxySocksTypes.RequestIsValid | proxy-socks/src/types.rs:494-496 | valid exactly when the version is 0x05 |
| ProxySocksTypes.IsConnect | proxy-socks/src/types.rs:498-500 | true exactly when the command byte is CONNECT |
| ProxySocksTypes.RequestNew | proxy-socks/src/types.rs:486-492 | a valid CONNECT request for the given target |
| ProxySocksTypes.RequestRoundTrip | proxy-socks/src/types.rs:502-567 | version, command and target of a request read back exactly, the reserved byte being written as 0x00 |
| ProxySocksTypes.RequestUnknownAtyp | proxy-socks/src/types.rs:502-541 | whatever the reserved byte holds is ignored, and an unknown address type reads as no target rather than an error |
| ProxySocksTypes.ReplyIsValid | proxy-socks/src/types.rs:652-654 | valid exactly when the version is 0x05 |
| ProxySocksTypes.ReplyNew | proxy-socks/src/types.rs:571-578 | a valid reply with that code, bound to 127.0.0.1:0 with address type IPv4 |
| ProxySocksTypes.ReplyRoundTrip | proxy-socks/src/types.rs:584-650 | a reply whose address type agrees with its target reads back exactly |
| ProxySocksTypes.ReplyNewRoundTrip | proxy-socks/src/types.rs:571-650 | every reply `Reply::new` builds survives write then read |
| ProxySocksServer.Server.New | proxy-socks/src/server.rs:29-34 | no authenticator, and the given connector |
| ProxySocksServer.Server.SetAuthenticate | proxy-socks/src/server.rs:36-38 | the authenticator becomes the given one |
| ProxySocksServer.Server.Call | proxy-socks/src/server.rs:61-125 | `call` on the client's socket agrees with `Serve`: negotiation, request, connect, reply, relay, with the shutdowns of the source |
| ProxySocksServer.PrepareOn | proxy-socks/src/server.rs:128-144 | `prepare` on a socket agrees with `Prepare` |
| ProxySocksServer.PrepareWithOn | proxy-socks/src/server.rs:146-173 | `prepare_with` on a socket agrees with `PrepareWith` |
| ProxySocksServer.HandleOn | proxy-socks/src/server.rs:175-194 | `handle` on a socket agrees with `Handle` |
| ProxySocksServer.RepOfKindCases | proxy-socks/src/server.rs:99-104 | a connect error is never reported as Succeeded, and it is GeneralSocksServerFailure exactly for kinds other than ConnectionRefused, HostUnreachable and NetworkUnreachable |
| ProxySocksServer.PrepareSelects | proxy-socks/src/server.rs:128-144 | without an authenticator the server proceeds exactly when "no authentication" is offered, answering that method, and otherwise answers NoAcceptableMethods and fails |
| ProxySocksServer.CredentialsChecked | proxy-socks/src/server.rs:164-172 | with credentials in the form RFC 1929 intends, status 0x00 is written and the server proceeds exactly when `authenticate(user, pass)` holds; otherwise status 0x01 and Unauthorized |
| ProxySocksServer.AsWrittenCredentialsRejected | proxy-socks/src/server.rs:164 | credentials built by the as-written `UsernameAndPassword::new` fail validation with InvalidVersion before any check, and no status is written |
| ProxySocksServer.HandleRefuses | proxy-socks/src/server.rs:188-193 | a request for any command but CONNECT is answered CommandNotSupported and refused |
| ProxySocksServer.HandleConnect | proxy-socks/src/server.rs:175-189 | a CONNECT request yields its target and writes nothing |
| ProxySocksServer.ConnectTargetOutcomes | proxy-socks/src/server.rs:78-114 | relaying happens exactly when the connect succeeds and the Succeeded reply is written, and only after it; a failed connect is answered with its reply code, the socket is shut down and the error returned |
| ProxySocksServer.ConnectTargetAdded | proxy-socks/src/server.rs:78-114 | the events a connect adds, case by case: reply then relay, egress shutdown when the reply cannot be written, or failure reply then socket shutdown |
| ProxySocksServer.FailedHandshakeShutsDown | proxy-socks/src/server.rs:63-73 | whenever negotiation or the request fails, `call` fails, nothing is dialed, and the socket is shut down after the replies |
| ProxySocksClient.ProxySocksOn | proxy-socks/src/client.rs:71-126 | `proxy_socks` on a socket agrees with `ProxySocks`, sending the credentials message with the version byte 0x05 that `UsernameAndPassword::new` stamps |
| ProxySocksClient.Client.New | proxy-socks/src/client.rs:17-22 | no credentials, and a fresh plain-TCP connector to the proxy server |
| ProxySocksClient.Client.SetAuthorization | proxy-socks/src/client.rs:24-26 | the credentials become the given pair |
| ProxySocksClient.Client.EnableTls | proxy-socks/src/client.rs:28-30 | TLS is turned on and the target kept |
| ProxySocksClient.Client.Call | proxy-socks/src/client.rs:51-68 | a failed connect returns its error and touches nothing; otherwise the handshake runs on the connected stream, with the credentials version 0x05 |
| ProxySocksClient.ErrorOfRepCases | proxy-socks/src/client.rs:114-125 | only Succeeded is success, and an unknown reply byte is UnknownRep |
| ProxySocksClient.ConnectFailureRoundTrip | proxy-socks/src/client.rs:114-125 | the reply code this crate's server sends for a connect error reads back in the client as the same I/O kind for the three unreachable/refused kinds and as GeneralSocksServerFailure otherwise |
| ProxySocksClient.OfferBytes | proxy-socks/src/client.rs:76-79 | the offer is "no authentication", plus username/password exactly when credentials are configured |
| ProxySocksClient.NoAuthNegotiationAgrees | proxy-socks/src/client.rs:76-86 | this crate's server without authenticator accepts the client's offer and the client accepts its selection |
| ProxySocksClient.PasswordNegotiationAgrees | proxy-socks/src/client.rs:87-95 | corrected: with the version-0x01 credentials message, the server's status and the client's outcome agree with `authenticate(user, pass)` |
| ProxySocksClient.PasswordNegotiationAsWritten | proxy-socks/src/client.rs:87-95 | as written, the client sends the credentials message with version 0x05, and this crate's server refuses it with InvalidVersion before authenticating |
| ProxySocksClient.SendCredentials | proxy-socks/src/client.rs:87-95 | the credentials message is written with the given version byte; the step succeeds exactly when the write is accepted and the status read back is success, and otherwise fails with an I/O error or Unauthorized |
| ProxySocksClient.ProxySocks | proxy-socks/src/client.rs:71-126 | a successful handshake has negotiated a method, written the CONNECT request for the target last, and read a Succeeded reply |
| ProxySocksClient.ReplyRead | proxy-socks/src/client.rs:112-125 | whatever reply code the server writes, the client's result is that code's mapping |
| ProxySocksClient.HandshakeOutcomes | proxy-socks/src/client.rs:56-66 | a successful handshake hands back the stream, and the handshake fails exactly when it ends by shutting the stream down |
| ProxyTunnelClient.BasicNew | proxy-tunnel/src/client.rs:231-235 | the credentials are `username:password` with the colon recorded right after the username |
| ProxyTunnelClient.BasicEncode | proxy-tunnel/src/client.rs:260-267 | the header value is visible ASCII, starts with `Basic ` and carries a non-space token after it |
| ProxyTunnelClient.FirstNonSpace | proxy-tunnel/src/client.rs:249 | the position found is the first non-space byte; none is found only in an all-space value |
| ProxyTunnelClient.BasicDecode | proxy-tunnel/src/client.rs:241-258 | what decodes is valid UTF-8 with the colon position at its first colon |
| ProxyTunnelClient.BasicEncodeDecode | proxy-tunnel/src/client.rs:241-267 | decoding the encoded header gives back the same credentials, for every well-formed value |
| ProxyTunnelClient.BasicRoundTrip | proxy-tunnel/src/client.rs:231-267 | the decoded text of `new(user, pass)` is always `user:pass`, and the credentials come back unchanged exactly when the username holds no colon |
| ProxyTunnelClient.WriteStep | proxy-tunnel/src/client.rs:191 | a write sends a prefix of the buffer and nothing else; a failed write sends nothing |
| ProxyTunnelClient.ReadStep | proxy-tunnel/src/client.rs:212 | a read that does not end the stream consumes input and sends nothing |
| ProxyTunnelClient.TunnelStream.constructor | proxy-tunnel/src/client.rs:134-139 | a stream with nothing sent, the given write results and incoming chunks, not shut down |
| ProxyTunnelClient.TunnelStream.Write | proxy-tunnel/src/client.rs:191 | agrees with `WriteStep` |
| ProxyTunnelClient.TunnelStream.Read | proxy-tunnel/src/client.rs:212 | agrees with `ReadStep` |
| ProxyTunnelClient.TunnelStream.Shutdown | proxy-tunnel/src/client.rs:124 | the stream is marked shut down and nothing else changes |
| ProxyTunnelClient.ProxyTunnel.constructor | proxy-tunnel/src/client.rs:134-169 | the buffer holds the CONNECT request for the host, port and credentials, in the sending phase |
| ProxyTunnelClient.ProxyTunnel.Poll | proxy-tunnel/src/client.rs:186-221 | the send-then-receive loop agrees with `PollSpec` on buffer, phase and stream |
| ProxyTunnelClient.Client.New | proxy-tunnel/src/client.rs:77-82 | no credentials, plain TCP, and the given proxy address |
| ProxyTunnelClient.Client.SetAuthorization | proxy-tunnel/src/client.rs:84-86 | the credentials become `Basic::new(username, password)` |
| ProxyTunnelClient.Client.EnableTls | proxy-tunnel/src/client.rs:88-90 | TLS is turned on and the credentials kept |
| ProxyTunnelClient.Client.Call | proxy-tunnel/src/client.rs:111-131 | agrees with `CallSpec`: connect, tunnel request, answer, shutdown on failure |
| ProxyTunnelClient.FlushOutcome | proxy-tunnel/src/client.rs:189-201 | the sending loop sends the buffer in order and leaves exactly the unsent rest; it succeeds exactly when all of it was sent |
| ProxyTunnelClient.ReceiveOk | proxy-tunnel/src/client.rs:202-219 | the receiving loop succeeds exactly when some prefix of the incoming chunks makes the buffer an established answer, and then the buffer is that prefix's data |
| ProxyTunnelClient.ReceiveOkSound | proxy-tunnel/src/client.rs:202-219 | a successful receive has read up to a prefix that establishes the tunnel |
| ProxyTunnelClient.ReceiveOkComplete | proxy-tunnel/src/client.rs:202-219 | if some prefix establishes the tunnel, the receive succeeds |
| ProxyTunnelClient.ReceiveOkStatus | proxy-tunnel/src/client.rs:203-206 | success needs more than 12 bytes starting with `HTTP/1.1 200` or `HTTP/1.0 200` |
| ProxyTunnelClient.RefusedAnswer | proxy-tunnel/src/client.rs:203-218 | an answer whose status line is not 200 never establishes the tunnel |
| ProxyTunnelClient.EarlyDataStalls | proxy-tunnel/src/client.rs:206 | an answer that arrives together with data not ending in a blank line is never accepted: the loop reads on to end of stream |
| ProxyTunnelClient.PollOutcome | proxy-tunnel/src/client.rs:186-221 | on success the whole request was sent and the buffer is an established answer; a failure while sending sent less than the request |
| ProxyTunnelClient.HostPortShown | proxy-tunnel/src/client.rs:116-119 | host and port show as the target's own text, except that an IPv6 address is sent without brackets |
| ProxyTunnelClient.CallOutcome | proxy-tunnel/src/client.rs:111-131 | a connect error is returned with the stream untouched; otherwise the call fails exactly when it shuts the stream down, and a success has sent exactly the CONNECT request |
| ProxyTunnelClient.ReceiveShutDown | proxy-tunnel/src/client.rs:202-219 | receiving sends nothing and never shuts the stream down |
| ProxyTunnelServer.HostAddr | proxy-tunnel/src/lib.rs:166-174 | a URI gives a host and port exactly when it has an authority: the authority's host, and its port, or else 443 for `https` and 80 for anything else |
| ProxyTunnelServer.Refusal | proxy-tunnel/src/lib.rs:108-118 | a refusal has the refused status and an empty body; 407 carries the `Basic realm=Proxy Server` challenge and any other status no header |
| ProxyTunnelServer.Answer | proxy-tunnel/src/lib.rs:83-155 | a CONNECT is answered 200 with an empty body and tunnels to `Domain(host, port)` exactly when its URI has an authority and nothing refused it; no authority is answered 400 with the fixed body; a refusal is answered with its status |
| ProxyTunnelServer.SplitAfter | proxy-tunnel/src/lib.rs:88-93 | splitting succeeds exactly when the text starts with the prefix and holds a colon after it, and cuts at the first such colon |
| ProxyTunnelServer.CredentialsAsWritten | proxy-tunnel/src/lib.rs:86-95 | as written, credentials are read straight from the printable header text, split at its first colon after `Basic `, with no base64 decoding |
| ProxyTunnelServer.RefusedAsWritten | proxy-tunnel/src/lib.rs:84-106 | as written: a missing header panics when authentication is on; the request passes exactly when there is no authenticator or the split credentials authenticate; an unreadable value gets 407, a rejected pair 401 |
| ProxyTunnelServer.ServeAsWritten | proxy-tunnel/src/lib.rs:63-163 | as written, anything but CONNECT is forwarded, and the call panics exactly for a CONNECT with an authority and no credentials header while authentication is on |
| ProxyTunnelServer.Halves | proxy-tunnel/src/client.rs:224-228 | decoded credentials split at their recorded colon into a colon-free username and the rest |
| ProxyTunnelServer.Credentials | proxy-tunnel/src/lib.rs:86-95 | corrected, credentials come from a printable header value and their username holds no colon |
| ProxyTunnelServer.DecodeCredentials | proxy-tunnel/src/client.rs:241-258 | a decoded username never holds a colon |
| ProxyTunnelServer.Refused | proxy-tunnel/src/lib.rs:84-106 | corrected: the request passes exactly when there is no authenticator or the decoded credentials authenticate; a missing or undecodable header gets 407 instead of a panic; any refusal is 401 or 407 |
| ProxyTunnelServer.Serve | proxy-tunnel/src/lib.rs:63-163 | corrected (credentials base64-decoded, a missing header challenged): a request is forwarded exactly when it is not a CONNECT |
| ProxyTunnelServer.TunnelTask | proxy-tunnel/src/lib.rs:120-145 | the spawned tokio task dials exactly when the connection was upgraded, relays exactly when the dial also succeeds, shuts the client down exactly when it fails, and does everything else after dialing |
| ProxyTunnelServer.Server.New | proxy-tunnel/src/lib.rs:27-37 | no authenticator |
| ProxyTunnelServer.Server.SetAuthenticate | proxy-tunnel/src/lib.rs:39-41 | the authenticator becomes the given one |
| ProxyTunnelServer.Server.Call | proxy-tunnel/src/lib.rs:63-163 | agrees with `ServeAsWritten` (the panic on a missing header, no base64 decoding), and a tunnel is only opened under authentication for a request whose raw header text splits into credentials |
| ProxyTunnelServer.DialOnlyWhenAuthenticated | proxy-tunnel/src/lib.rs:83-147 | corrected: the target is dialed exactly when the connection is upgraded after a 200 answer to a CONNECT with an authority whose decoded credentials, if authentication is on, authenticate |
| ProxyTunnelServer.DialOnlyWhenAuthenticatedAsWritten | proxy-tunnel/src/lib.rs:83-147 | as written, the target is dialed exactly when the call does not panic and the connection is upgraded after a 200 answer to a CONNECT with an authority whose raw credentials, if authentication is on, authenticate |
| ProxyTunnelServer.AsWrittenPanicsWithoutHeader | proxy-tunnel/src/lib.rs:86 | as written, a CONNECT without a Proxy-Authorization header under authentication panics |
| ProxyTunnelServer.ChallengesWithoutHeader | proxy-tunnel/src/lib.rs:101-113 | corrected, the same request gets the 407 challenge and no tunnel |
| TunnelInterop.EncodedValueTrimmed | proxy-tunnel/src/client.rs:260-267 | the client's header value has no surrounding spaces and starts with `Basic ` |
| TunnelInterop.AsWrittenCredentialsOfEncoded | proxy-tunnel/src/lib.rs:86-95 | as written, the server finds no credentials in any header the client produces |
| TunnelInterop.EncodedTailColonFree | proxy-tunnel/src/client.rs:262 | the base64 part of the client's header never holds a colon |
| TunnelInterop.AsWrittenWithoutColon | proxy-tunnel/src/lib.rs:88-93 | as written, a trimmed `Basic ` value with no colon after the prefix yields no credentials |
| TunnelInterop.CredentialsOfEncoded | proxy-tunnel/src/client.rs:231-267 | corrected, the server reads back exactly the username and password the client encoded, for a colon-free username |
| TunnelInterop.TrimmedCredentials | proxy-tunnel/src/lib.rs:88 | trimming changes nothing for a value that has no surrounding spaces |
| TunnelInterop.DecodesTrimmed | proxy-tunnel/src/client.rs:241-258 | the server's decoding agrees with the client crate's `Basic::decode` |
| TunnelInterop.AsWrittenRefusesOwnClient | proxy-tunnel/src/lib.rs:84-113 | as written, the server challenges its own client's credentials, whatever they are |
| TunnelInterop.AcceptsOwnClient | proxy-tunnel/src/lib.rs:83-147 | corrected, the server opens the tunnel to the URI's host and port exactly when its own client's credentials authenticate, and answers 401 otherwise |
| TunnelInterop.ServeWithCredentials | proxy-tunnel/src/lib.rs:83-147 | a CONNECT whose header decodes to (user, pass) is tunnelled when the pair authenticates and answered 401 otherwise |
| TunnelInterop.RefusedWithCredentials | proxy-tunnel/src/lib.rs:96-100 | decoded credentials pass or get 401 according to `authenticate` |
| TunnelInterop.AnswerOf | proxy-tunnel/src/lib.rs:108-147 | the answer for no refusal is 200 with the tunnel, and for 401 an empty 401 |
| TunnelInterop.ServeRefusedAs | proxy-tunnel/src/lib.rs:83-106 | serving a CONNECT with an authority is answering it with its refusal |
| TunnelInterop.NetwayClientCredentials | crates/netway/src/tunnel.rs:71-81 | the netway client's header for (user, pass) is the same text as this crate's client's, so the corrected server reads it back and the as-written one reads nothing |
| TunnelInterop.FirstLineText | crates/netway/src/tunnel.rs:62-68 | netway's CONNECT line for an authority is the text this crate's client writes |
| TunnelInterop.HeaderLinesText | proxy-tunnel/src/client.rs:141-161 | netway's header lines for an authority and credentials are this crate's header lines |
| TunnelInterop.TunnelRequestLines | proxy-tunnel/src/client.rs:141-163 | this crate's CONNECT request is exactly a netway request: request line, headers and blank line |
| TunnelInterop.AuthorityPrintable | proxy-tunnel/src/client.rs:143 | `host:port` is printable and holds no space when the host does not |
| TunnelInterop.KeepAliveReadable | proxy-tunnel/src/client.rs:145 | the keep-alive header reads back as itself |
| TunnelInterop.TunnelHeadersReadable | proxy-tunnel/src/client.rs:144-146 | every header the client sends reads back as itself |
| TunnelInterop.ReadsConnect | crates/netway/src/tunnel.rs:144-152 | netway's server reads a CONNECT request back as its request line and its headers, leaving what follows |
| TunnelInterop.NetwayReadsTunnelRequest | crates/netway/src/tunnel.rs:144-152 | netway's server reads this crate's client request as CONNECT `host:port` with the client's headers, leaving what follows |
| TunnelInterop.NetwayServesTunnelClient | crates/netway/src/tunnel.rs:140-192 | netway's server, with the client's credentials, accepts this crate's client and dials the domain it named |
| TunnelInterop.TunnelAuthorized | crates/netway/src/tunnel.rs:153-165 | the client's headers pass netway's authorization for its own credentials |
| TunnelInterop.OwnHeaderAuthorizes | crates/netway/src/tunnel.rs:155-163 | netway's own Proxy-Authorization header authorizes its credentials |
| TunnelInterop.EstablishedText | crates/netway/src/tunnel.rs:194-203 | netway's 200 answer is `HTTP/1.1 200 OK` followed by a blank line |
| TunnelInterop.TunnelClientAcceptsNetway | proxy-tunnel/src/client.rs:202-209 | this crate's client accepts netway's 200 answer in one read |
| TunnelInterop.TunnelClientRefusesNetway | proxy-tunnel/src/client.rs:203-218 | this crate's client never accepts a netway answer with another status |
| ProxyIoStream.ForceProxyOverridesPolicy | proxy-io/src/stream.rs:352-353 | with `force_proxy` on, every target goes through the proxy with remote DNS, whatever the policy and default |
| ProxyIoStream.NoPolicyFollowsDefault | proxy-io/src/stream.rs:356-382 | without a policy, every target goes through the proxy when `default_proxy` is on and directly otherwise |
| ProxyIoStream.RouteCases | proxy-io/src/stream.rs:361-384 | a target is dialed directly exactly for Direct, or Default without default proxy; through the proxy exactly for Proxy, or Default with default proxy; and refused exactly for Deny |
| ProxyIoStream.Connected | proxy-io/src/stream.rs:362-381 | a successful connection is of the kind the route chose |
| ProxyIoStream.ProxyConnect.New | proxy-io/src/stream.rs:303-311 | no policy, `force_proxy` and `default_proxy` off |
| ProxyIoStream.ProxyConnect.SetPolicy | proxy-io/src/stream.rs:313-315 | the policy becomes the given one and the flags are kept |
| ProxyIoStream.ProxyConnect.SetForceProxy | proxy-io/src/stream.rs:317-319 | `force_proxy` becomes the given value and the rest is kept |
| ProxyIoStream.ProxyConnect.SetDefaultProxy | proxy-io/src/stream.rs:321-323 | `default_proxy` becomes the given value and the rest is kept |
| ProxyIoStream.ProxyConnect.Call | proxy-io/src/stream.rs:351-386 | a denied target is HostUnreachable and no connector is called; otherwise exactly the chosen connector is called once and its result returned |
| ProxyIoStream.WrapStream | proxy-io/src/stream.rs:257-288 | a TLS stream is only made for a domain target with TLS on, named after that domain; a socket-address target or TLS off gives plain TCP |
| ProxyIoStream.StreamConnect.New | proxy-io/src/stream.rs:217-223 | TLS off, and the given target |
| ProxyIoStream.StreamConnect.SetTls | proxy-io/src/stream.rs:225-227 | TLS becomes the given value and the target is kept |
| ProxyIoStream.StreamConnect.SetTarget | proxy-io/src/stream.rs:229-231 | the target becomes the given one and TLS is kept |
| ProxyIoStream.StreamConnect.Call | proxy-io/src/stream.rs:252-290 | a failed connect to the target returns its error; otherwise the stream is wrapped as TLS or TCP |
| ProxyIoStream.TokioConnect | proxy-io/src/stream.rs:192-206 | a socket address is dialed as given; a domain that resolves to nothing is HostUnreachable; a success is an address whose dial succeeds |
| ProxyIoStream.TokioConnectDialsResolved | proxy-io/src/stream.rs:194-203 | a resolver error is returned, and otherwise the first resolved address is dialed |
| ProxyRules.HostOfTarget | proxy-rules/src/lib.rs:153-158 | the host part of a `host:port` destination is the host, whatever it holds |
| ProxyRules.ExactMatchAsWrittenTooWide | proxy-rules/src/lib.rs:155 | as written, a DOMAIN rule for `example.com` matches `example.com.evil.net:443`, which the corrected match refuses |
| ProxyRules.ExactMatchTarget | proxy-rules/src/lib.rs:155 | corrected, a DOMAIN rule matches a `host:port` destination exactly when the host is the domain |
| ProxyRules.SuffixMatchAsWrittenMissesTargets | proxy-rules/src/lib.rs:156 | as written, a DOMAIN-SUFFIX rule whose suffix does not end in a digit never matches a `host:port` destination |
| ProxyRules.EndsWithLast | proxy-rules/src/lib.rs:156 | a text whose last byte differs from the suffix's does not end with it |
| ProxyRules.SuffixMatchTarget | proxy-rules/src/lib.rs:156 | corrected, a DOMAIN-SUFFIX rule matches a `host:port` destination exactly when the host ends with the suffix |
| ProxyRules.IpExactMatchesSocket | proxy-rules/src/lib.rs:159-174 | an IPV4/IPV6 rule matches a shown socket address exactly when its IP is the rule's |
| ProxyRules.IsMatch | proxy-rules/src/lib.rs:153-192 | only an IP-CIDR pattern can panic: an IPv6 subnet exactly when the destination reads as an IPv6 socket address, an IPv4 subnet exactly, as written, when it reads as an IPv4 one and the mask is 24 to 31 |
| ProxyRules.IpCidrMatchesSocket | proxy-rules/src/lib.rs:175-182 | corrected: an IPv4 IP-CIDR rule matches a shown socket address exactly when it is an IPv4 address in the subnet |
| ProxyRules.IpCidrMatchesSocketAsWritten | proxy-rules/src/lib.rs:175-182 | as written, an IPv4 IP-CIDR rule never matches an IPv6 socket address, panics on every IPv4 one when the mask is 24 to 31, and agrees with the prefix test when the mask is 0, 8, 16 or at least 32 |
| ProxyRules.RuleEnforce | proxy-rules/src/lib.rs:249-257 | a panic of the match ends the call; otherwise the rule gives its decision exactly when its pattern matches or its decision is Default, and gives anything but Default only when it matches |
| ProxyRules.FirstDecision | proxy-rules/src/lib.rs:69-91 | the combined verdict is Default exactly when every verdict is, and otherwise the first verdict that is not Default: a decision, or the panic that ends the scan |
| ProxyRules.Decisions | proxy-rules/src/lib.rs:69-91 | one decision per policy, in order |
| ProxyRules.Enforce | proxy-rules/src/lib.rs:69-91 | the loop over a list of policies returns the first verdict that is not Default (a decision or a panic), or Default |
| ProxyRules.RuleSetNew | proxy-rules/src/lib.rs:345-351 | the set is named, keeps the rules parsed, and has one text line per rule |
| ProxyRules.RuleSetDeserialized | proxy-rules/src/lib.rs:336-342 | a deserialized set keeps the rule texts and has no parsed rules |
| ProxyRules.EnforceRuleSet | proxy-rules/src/lib.rs:354-358 | a rule set enforces its parsed rules as a list, with the matchers as written or corrected |
| ProxyRules.DeserializedRuleSetInert | proxy-rules/src/lib.rs:336-358 | a deserialized rule set decides Default for every destination, whatever its texts say |
| ProxyRules.EnforceRules | proxy-rules/src/lib.rs:365-369 | the rules enforce their rule sets as a list, with the matchers as written or corrected |
| ProxyRules.FirstDecisionAppend | proxy-rules/src/lib.rs:69-91 | enforcing two lists one after the other is enforcing their concatenation |
| ProxyRules.FirstDecisionAt | proxy-rules/src/lib.rs:69-91 | a decision preceded only by Default ones is the combined decision |
| ProxyRules.RulesFlatten | proxy-rules/src/lib.rs:354-369 | enforcing a list of rule sets is enforcing all their rules in one list |
| ProxyRules.DecisionsAppend | proxy-rules/src/lib.rs:69-91 | the decisions of a concatenation are the concatenated decisions |
| ProxyRules.AnyForceRemoteDns | proxy-rules/src/lib.rs:314-316 | true exactly when some extra field is `force-remote-dns` in any letter case |
| ProxyRules.ParseDecision | proxy-rules/src/lib.rs:310-324 | a PROXY decision asks for remote DNS exactly when some extra field is `force-remote-dns`; a failure is UnknownDecision |
| ProxyRules.FromStr | proxy-rules/src/lib.rs:262-327 | splitting on commas and parsing the fields agree with the field-by-field loop; fewer than three fields is InvalidRule |
| ProxyRules.ParseCaseInsensitive | proxy-rules/src/lib.rs:283-321 | tags and decisions are read in any letter case |
| ProxyRules.DecisionFieldsOf | proxy-rules/src/lib.rs:42-57 | every shown decision parses back to itself |
| ProxyRules.PatternFieldsOf | proxy-rules/src/lib.rs:125-149 | every reparsable shown pattern is two comma-free fields that parse back to itself |
| ProxyRules.IpExactFieldsOf | proxy-rules/src/lib.rs:140-143 | a shown IPV4/IPV6 pattern parses back to itself |
| ProxyRules.IpCidrFieldsOf | proxy-rules/src/lib.rs:144-145 | a shown IPv4 IP-CIDR pattern parses back to itself |
| ProxyRules.ParseCidrTag | proxy-rules/src/lib.rs:294-305 | the IP-CIDR tag, in any case, reads its field as `address/mask` |
| ProxyRules.ParseShowCidr | proxy-rules/src/lib.rs:294-305 | `a.b.c.d/mask` parses back to that subnet and mask |
| ProxyRules.ParseShowRule | proxy-rules/src/lib.rs:262-334 | every reparsable rule, shown as text, parses back to itself |
| ProxyRules.ParseShowIpCidr6 | proxy-rules/src/lib.rs:146 | an IPv6 CIDR rule is shown with the IP-CIDR6 tag, which the parser does not know |
| ProxyRules.RuleFieldsSplit | proxy-rules/src/lib.rs:267-277 | comma-free fields joined with commas split back into themselves |
| ProxyRules.RuleSetNewReparses | proxy-rules/src/lib.rs:345-351 | every text line of a new rule set parses back to the rule it was made from |
| LightwayRules.MatchIgnoresPort | src/rule/rules.rs:54-81 | neither whether a rule matches nor whether matching panics depends on the destination's port |
| LightwayRules.IsMatch | src/rule/rules.rs:54-81 | matching panics exactly for an IP-CIDR rule on a Socket target whose subnet is IPv6, or, as written, IPv4 with a mask of 24 to 31 on an IPv4 target; a domain rule only matches a Domain target and an IP rule only a Socket target |
| LightwayRules.WithPort | src/rule/rules.rs:72-78 | the same IP at another port |
| LightwayRules.CidrMatchIsPrefix | src/rule/rules.rs:76-79 | corrected: an IPv4 IP-CIDR rule matches exactly the IPv4 socket addresses whose first `mask` bits are the subnet's |
| LightwayRules.CidrMatchAsWritten | src/rule/rules.rs:76-79 | as written, an IPv4 IP-CIDR rule never matches a Domain or IPv6 target, panics on every IPv4 target when the mask is 24 to 31, and agrees with the prefix test when the mask is 0, 8, 16 or at least 32 |
| LightwayRules.ParseSubnet | src/rule/rules.rs:96-106 | InvalidSubnet exactly when the field does not split into two parts at '/'; what parses is an IP-CIDR rule |
| LightwayRules.ParseDecision | src/rule/rules.rs:110-116 | a parsed PROXY decision never asks for remote DNS; a failure is InvalidDecision |
| LightwayRules.Parse | src/rule/rules.rs:84-124 | fewer than three fields is InvalidRule; the tag is read after Unicode upper-casing; a parsed decision never asks for remote DNS; options are present exactly when there are more than three fields, and are those fields |
| LightwayRules.ParseErrors | src/rule/rules.rs:90-116 | a tag whose Unicode upper case is no known tag is UnknownRule, an IP-CIDR field without exactly one '/' is InvalidSubnet, and an unknown decision word after a valid rule is InvalidDecision |
| LightwayRules.NonAsciiTags | src/rule/rules.rs:90-94 | a tag written with a dotless i reads as DOMAIN, and one written with the ff ligature as DOMAIN-SUFFIX |
| Text.UppercaseAscii | src/rule/rules.rs:90 | on ASCII text, upper-casing works byte by byte and keeps the length |
| Text.UppercaseAppend | src/rule/rules.rs:90 | an ASCII prefix is upper-cased on its own, apart from what follows it |
| LightwayRules.ParseShowDecision | src/rule/mod.rs:37-46 | a shown decision parses back to itself, except that PROXY loses its remote-DNS flag |
| IpAddrs.ShowIpAddrFree | src/rule/rules.rs:41-47 | a shown IP address has no comma or slash and parses back to itself |
| LightwayRules.ParseShowSubnet | src/rule/rules.rs:45-47 | `address/mask` parses back to that subnet and mask |
| LightwayRules.ParseShowRuleFields | src/rule/rules.rs:26-51 | every reparsable shown rule is two comma-free fields that parse back to itself |
| LightwayRules.ParseShow | src/rule/rules.rs:84-124 | a shown rule, decision and options parse back to themselves (PROXY without remote DNS) |
| LightwayRules.RuleTextFields | src/rule/rules.rs:85 | the text of a rule, decision and options splits into exactly their fields |
| LightwayRules.FirstOutcome | src/rule/mod.rs:60-82 | the combined verdict is Default with no options exactly when every verdict is a Default decision, and otherwise the first verdict that is not: an outcome, or the panic that ends the scan |
| LightwayRules.TupleEnforce | src/rule/mod.rs:84-95 | a panic of the match ends the call; otherwise a matching rule gives its decision and options, and a rule that does not match gives Default with no options |
| LightwayRules.Outcomes | src/rule/mod.rs:60-82 | one outcome per policy, in order |
| LightwayRules.Enforce | src/rule/mod.rs:60-82 | the loop returns the first verdict that is not a Default decision (an outcome or a panic), or Default with no options |
| LightwayRules.EnforceRules | src/rule/mod.rs:60-95 | with the matcher as written or corrected, a list of parsed rules decides Default with no options exactly when every rule is passed over (no match, or a match that says Default); otherwise the first rule not passed over gives its decision and options, or its panic |
| Cidr.PrefixBits | proxy-rules/src/lib.rs:213-235 | how many of the `mask` leading bits fall in octet `i`: all 8 before the boundary, none after it, the remainder in the boundary octet |
| Cidr.Bits | proxy-rules/src/lib.rs:200-201 | an IPv4 address as its four octets |
| Cidr.Ipv4SubnetMaskAsWritten | proxy-rules/src/lib.rs:213-235 | as written, the mask panics (index out of bounds) exactly for masks 24 to 31, and is four octets otherwise |
| Cidr.Ipv4SubnetMask | src/rule/rules.rs:144-166 | corrected, octet `i` of the mask holds exactly the leading bits that fall in it |
| Cidr.SubnetMaskAsWrittenAgrees | proxy-rules/src/lib.rs:213-235 | as written, masks that are multiples of 8 below 24, and masks of 32 and more, are right |
| Cidr.SubnetMaskAsWrittenShifted | proxy-rules/src/lib.rs:223-233 | as written, any other mask below 24 leaves the boundary octet empty and puts its partial bits in the octet after it |
| Cidr.AndMaskIsPrefix | proxy-rules/src/lib.rs:202-205 | two octets agree under a `k`-bit mask exactly when their top `k` bits agree |
| Cidr.MaskedOctetPrefix | proxy-rules/src/lib.rs:202-205 | two octets agree under the corrected mask octet exactly when their bits in the prefix agree |
| Cidr.OctetPrefix | proxy-rules/src/lib.rs:202-205 | the same for a given mask octet |
| Cidr.MaskedOctetsArePrefix | proxy-rules/src/lib.rs:199-205 | four octets agree under the corrected mask exactly when the addresses share the prefix |
| Cidr.IsSubnet | src/rule/rules.rs:126-142 | corrected: an IPv6 address is never in an IPv4 subnet, and an IPv4 address is in it exactly when it shares the subnet's first `mask` bits |
| Cidr.IsSubnetAsWritten | proxy-rules/src/lib.rs:195-211 | as written, the check panics exactly for an IPv4 address and a mask from 24 to 31 |
| Cidr.Subnet | proxy-rules/src/lib.rs:195-211 | `is_subnet` panics as unimplemented exactly for an IPv6 subnet, and, as written, with an out-of-bounds index exactly for an IPv4 address and a mask of 24 to 31; corrected it is the prefix test; an IPv6 address is never in an IPv4 subnet |
| Cidr.SubnetAsWrittenAgrees | proxy-rules/src/lib.rs:213-235 | as written, the subnet test is the prefix test for masks 0, 8, 16 and 32 or more |
| Cidr.IsSubnetAsWrittenWrong | proxy-rules/src/lib.rs:195-235 | as written, 10.0.0.1 is inside 10.16.0.0/12 though it is not, and 192.168.1.7 against 192.168.1.0/24 panics though it is inside |
| Cidr.ZeroMaskMatchesAll | src/rule/rules.rs:126-166 | every IPv4 address is in any /0 subnet |
| Cidr.FullMaskIsEquality | src/rule/rules.rs:126-166 | with a mask of 32 or more, an address is in the subnet exactly when it is the subnet's address |
| FixedRead.Frame | proxy-io/src/fixed_read.rs:501-523 | a frame is one length byte followed by the bytes themselves |
| FixedRead.SplitFrame | proxy-io/src/fixed_read.rs:335-381 | a frame is found exactly when the input holds its length byte and that many bytes after it, and the input is then that frame followed by the rest |
| FixedRead.SplitFrameOf | proxy-io/src/fixed_read.rs:335-381 | a frame of at most 255 bytes, written and then read, gives back the bytes and leaves what follows |
| FixedRead.LongFrameTruncated | proxy-io/src/fixed_read.rs:504 | a field of 256 bytes or more is written with its length cut to a byte, so it reads back as its first `length mod 256` bytes and leaves the rest in the stream |
| FixedRead.VecReadBuf.constructor | proxy-io/src/fixed_read.rs:83-90 | the buffer holds the vector, and all of its bytes count as initialized |
| FixedRead.VecReadBuf.Reserve | proxy-io/src/fixed_read.rs:92-101 | afterwards there is room for the bytes asked for; nothing changes when there already was, and otherwise only the vector's bytes stay initialized |
| FixedRead.VecReadBuf.Take | proxy-io/src/fixed_read.rs:71-75 | the vector is handed out and the buffer left empty |
| FixedRead.VecReadBuf.Fill | proxy-io/src/fixed_read.rs:389-397 | a read into the reserved room appends the bytes read and keeps the initialized count covering them |
| FixedRead.Peer.constructor | proxy-io/src/fixed_read.rs:383-388 | stands in for the AsyncRead argument that poll_read_num_bytes reads from (the cited lines are that function's body): a reader over the given bytes, chunk size and end-of-stream error |
| FixedRead.Peer.PollRead | proxy-io/src/fixed_read.rs:392 | a read returns the next at most `max` bytes of the stream; it returns none only at the clean end, at least one when any remain, and its end error only at the end |
| FixedRead.PollReadNumBytes | proxy-io/src/fixed_read.rs:383-410 | at most the asked number of bytes is read and appended to the buffer, from where the reader was; an error appends nothing |
| FixedRead.ReadToFixedBytes | proxy-io/src/fixed_read.rs:335-381 | reading a length-prefixed field appends exactly its bytes and reports length plus one; a stream that ends early gives its end error after appending what was there |
| FixedRead.ReadToFixedString | proxy-io/src/fixed_read.rs:246-305 | the same for a string: the text is extended only when the result is valid UTF-8, otherwise InvalidData leaves the original text; a stream that ends early leaves the text empty |
| FixedRead.Sink.constructor | proxy-io/src/fixed_read.rs:483-493 | stands in for the AsyncWrite argument that write_fixed writes to (the cited lines are that function's body): a writer with nothing written, the given room, chunk size and end error |
| FixedRead.Sink.PollWrite | proxy-io/src/fixed_read.rs:513 | a write sends a prefix of the bytes within the room; it writes nothing only for empty input or a full sink, and fails only when full |
| FixedRead.WriteFixed | proxy-io/src/fixed_read.rs:501-523 | with room for the frame, the length byte and the bytes are written whole; otherwise as much of the frame as fits is written and the error returned |
| ProxySocksTypes.ReadFixedBytes | proxy-io/src/fixed_read.rs:335-381 | a length-prefixed field is read exactly when all of it is there, and is the bytes after the length byte; otherwise UnexpectedEof |
| Base64.Encode | proxy-tunnel/src/client.rs:262 | standard base64 text is a multiple of four bytes long, empty only for empty input, and printable without colon |
| Base64.DecodeEncode | proxy-tunnel/src/client.rs:251-262 | decoding what was encoded gives back the input, for every input (section 4 of RFC 4648) |
| Base64.EncodeDecode | proxy-tunnel/src/client.rs:251-262 | what decodes is the encoding of its own result, so decoding is strict |
| IpAddrs.ParseShowIpAddr | src/rule/rules.rs:95 | a shown IP address parses back to itself |
| IpAddrs.ParseShowSocketV4 | proxy-rules/src/lib.rs:161 | a shown IPv4 socket address parses back as an IPv4 socket address |
| IpAddrs.ParseShowSocketV6 | proxy-rules/src/lib.rs:168 | a shown IPv6 socket address parses back as an IPv6 socket address |
| IpAddrs.SocketFamiliesDisjoint | proxy-rules/src/lib.rs:159-174 | a shown socket address of one family never parses as the other |
| ServerConfig.UserRulesWithoutFilesLoaded | proxy-server/src/config.rs:43-53 | when no rules file can be read, no user rules are loaded |

## Left out

- Relaying (`copy_bidirectional`, `Duplex`), TCP connect, DNS lookup and the TLS handshake are parameters; the model records that they happen (`Dialed`, `Relayed`) and what their outcome leads to, not how bytes flow.
- TLS itself: only the choice between a TLS and a plain stream (`WrapStream`) is modelled; certificates and `native-tls` are not.
- The IPv6 text syntax (parsing and RFC 5952 display) is the parameter `Ipv6Syntax`; lemmas that read their own output back require it to round-trip (`Sound`).
- `debug_assert!` is read as in a release build: `Basic::decode` on a value without the `Basic ` prefix is not modelled, and the `debug_assert_eq!` checks in `poll_read_num_bytes` are not.
- `poll_flush` is not modelled; writes are taken as sent when accepted.
- A `Poll::Pending` is treated as awaited: `ProxyTunnelClient.ProxyTunnel.Poll` runs the future to its end, and no reader or writer of `FixedRead` returns `Pending`.
- ProxyTunnelClient.ProxyTunnel.Poll: does not model being polled again after `Pending`, because the model has no waker; every step either completes or fails.
- Base64.EncodeDecode: decoding is strict (padding required, trailing bits zero); the exact leniency of the `base64` crate's version is not part of this model.
- The forwarding path of the `proxy-tunnel` server for requests other than CONNECT (`proxy-tunnel/src/lib.rs:156-161`, hyper's client) is the outcome `Forwarded`, and `HttpConnector` (`proxy-tunnel/src/client.rs:21-68`) is not modelled: both are hyper's code.
- The hyper request parsing in front of `ProxyTunnelServer.Serve` is out: the server receives a parsed method, URI and optional `Proxy-Authorization` value.
- The TOML parser is a parameter (a file either parses to a `Value` or gives `TomlError`); floats and datetimes are kept as `OtherScalar` text.
- Filesystem work is out: `find_root`, `config_dir`, `cache_dir`, `local_config_dirs` and reading files (an unreadable file is `Unreadable`); `default_rules` is a parameter value and its `expect` panic is not modelled.
- The `netway` `Dialer` and `Protocol` types are not part of this model; `AppConfig.Upstream` holds the arguments `Dialer::new` is given.
- Logging (`log::debug!`, `log::error!`, the body dump in `proxy_connect`) is out.
- Config (de)serialisation with serde is out, and so is `test_config`'s log level.
- The listener and accept loops (`src/main.rs`, `src/socks.rs`, `proxy-server/src/main.rs`) are out.
- Regex patterns: the regex engine is a parameter; compiling a pattern that fails is an error of the parameter.
- IpAddrs.ParseSocketV6: a socket address text with a `%scope` suffix (`[fe80::1%2]:80`) is refused, where `SocketAddrV6::from_str` accepts it; `SocketAddr` carries no flow label or scope id (both are 0), so rule matching on such a destination text (`ProxyRules.IsMatch`) can differ from the program.
- IPv6 CIDR matching is `unimplemented!()` in both rule crates; the model has that panic (`Cidr.Subnet` gives `Unimplemented`) and no IPv6 prefix test.
- Text.Uppercase: upper-cases ASCII letters and the characters whose upper case is all ASCII (sharp s, dotless i, long s, the ligatures U+FB00 to U+FB06) and keeps every other byte, because only comparisons with ASCII tags use it, and those come out as with `to_uppercase`.
- Text.ToLower: lower-cases ASCII letters only, because its only use beyond `eq_ignore_ascii_case` is comparing with the decision words, none of which holds a 'k', the one ASCII letter a non-ASCII character (the Kelvin sign) lower-cases to.
- The `&T` delegation in `proxy-auth` is the same function and is not modelled separately.
- The raw buffer handling of `fixed_read.rs` (`get_read_buf`, `get_exact_read_buf`, `apply_read_buf`, `unsafe` initialisation) is modelled by `VecReadBuf`'s capacity and initialized count, not by pointers.
- `put_back_original_data` is not modelled separately: `ReadToFixedString` states that invalid UTF-8 leaves the original text.
- Pure `AsyncRead`/`AsyncWrite` forwarding (`ProxyStream`, `Connection`, `crates/netway/src/either.rs`) and the `proxy/src/lib.rs` service traits are out: they only pass calls on.
- The async state of futures across several polls (pinning, `PhantomPinned`) is out; each future is one method.

## Findings

| source | as written | input that shows it | evidently intended | confidence | as-written member | corrected member |
|---|---|---|---|---|---|---|
| proxy-rules/src/lib.rs:213-235 | `ipv4_subnet_mask` writes the partial octet at index `n + 1` instead of `n`, and indexes past the array for masks 24 to 31 | mask 12 gives 255.0.240.0, so 10.0.0.1 is inside 10.16.0.0/12; mask 24 panics | the mask with the first `mask` bits set | not executed | Cidr.IsSubnetAsWrittenWrong | Cidr.IsSubnet |
| src/rule/rules.rs:144-166 | the same `ipv4_subnet_mask` in the application's own rules | 192.168.1.7 against 192.168.1.0/24 panics | the mask with the first `mask` bits set | not executed | Cidr.Ipv4SubnetMaskAsWritten | Cidr.Ipv4SubnetMask |
| proxy-rules/src/lib.rs:155 | DOMAIN tests `starts_with` on the whole `host:port` text | `example.com` matches `example.com.evil.net:443` | the host equals the domain | not executed | ProxyRules.ExactMatchAsWrittenTooWide | ProxyRules.ExactMatchTarget |
| proxy-rules/src/lib.rs:156 | DOMAIN-SUFFIX tests `ends_with` on the whole `host:port` text | `example.com` never matches `www.example.com:443` | the host ends with the suffix | not executed | ProxyRules.SuffixMatchAsWrittenMissesTargets | ProxyRules.SuffixMatchTarget |
| proxy-socks/src/types.rs:425-431 | `UsernameAndPassword::new` stamps version 0x05, but `is_valid` and RFC 1929 want 0x01 | any credentials the client sends are refused with InvalidVersion | version 0x01 | not executed | ProxySocksServer.AsWrittenCredentialsRejected | ProxySocksServer.CredentialsChecked |
| crates/netway/src/tunnel.rs:92-103 | the body size is read from `content-type` instead of `content-length` | a 200 answer with `Content-Type: text/html` fails with InvalidData; a `Content-Length` body is left in the tunnel | read `Content-Length` | not executed | NetwayTunnel.AsWrittenRejectsContentType | NetwayTunnel.AcceptsContentType |
| crates/netway/src/tunnel.rs:105-107 | the announced body is never consumed when only `Content-Length` gives its size | a 200 answer with `Content-Length: 2` and body `ok` leaves `ok` in front of the tunnelled bytes | consume the body | not executed | NetwayTunnel.AsWrittenLeavesBody | NetwayTunnel.ConsumesBody |
| proxy-tunnel/src/lib.rs:86-100 | the server splits the `Basic` token at ':' without base64-decoding it, while its own client encodes it | the client's `Basic dTpw` for `u:p` is always answered 407 | decode the token as RFC 7617 says | not executed | TunnelInterop.AsWrittenRefusesOwnClient | TunnelInterop.AcceptsOwnClient |
| crates/netway/src/socks5/protocol.rs:495-511 | `Status::Ok` is read from and written as 0x01, and the server answers wrong credentials with `Status::Failure(0x01)` (crates/netway/src/socks5.rs:117-125), the same bytes | wrong credentials to a `netway` server: its `netway` client reads the reply as success | 0x00 is success, as RFC 1929 section 2 says | not executed | NetwaySocks5.AuthFailureReadsAsSuccess | NetwaySocks5.AuthFailureReadsAsFailure |
| proxy-tunnel/src/lib.rs:86 | indexing the headers with `PROXY_AUTHORIZATION` panics when the header is missing | a CONNECT without `Proxy-Authorization` while authentication is on | answer 407 with the challenge | not executed | ProxyTunnelServer.AsWrittenPanicsWithoutHeader | ProxyTunnelServer.ChallengesWithoutHeader |
