// The server side of the SOCKS5 handshake (RFC 1928 sections 3 to 6) with
// optional username/password authentication (RFC 1929 section 2), over a byte
// stream. An unparsed rest of the stream is left for the relay.
module Socks {
  import opened Wrappers
  import opened Text

  newtype byte = x: int | 0 <= x < 256

  const VERSION: byte := 5
  const AUTH_NONE: byte := 0
  const AUTH_USER_PASS: byte := 2
  const AUTH_NO_ACCEPTABLE: byte := 255
  const CMD_CONNECT: byte := 1
  const ADDR_IPV4: byte := 1
  const ADDR_DOMAIN: byte := 3
  const ADDR_IPV6: byte := 4
  const AUTH_VERSION: byte := 1
  const AUTH_SUCCESS: byte := 0
  const AUTH_FAILURE: byte := 1
  const REPLY_SUCCESS: byte := 0
  const REPLY_GENERAL_FAILURE: byte := 1
  const REPLY_COMMAND_NOT_SUPPORTED: byte := 7
  const REPLY_ADDR_NOT_SUPPORTED: byte := 8

  datatype Credentials = Credentials(username: seq<byte>, password: seq<byte>)

  datatype Host = IPv4(addr: seq<byte>) | Domain(name: seq<byte>) | IPv6(addr6: seq<byte>)

  datatype Request = Request(host: Host, port: nat)

  datatype Error =
    | ShortRead | WriteFailed | BadVersion(byte) | NoAcceptableMethod | BadAuthVersion(byte)
    | AuthenticationFailed | BadCommand(byte) | BadAddressType(byte)

  // ---------------------------------------------------------------------
  // The messages of the protocol
  // ---------------------------------------------------------------------

  ghost predicate ValidHost(h: Host) {
    match h
    case IPv4(a) => |a| == 4
    case Domain(n) => |n| < 256
    case IPv6(a) => |a| == 16
  }

  ghost predicate ValidRequest(r: Request) { ValidHost(r.host) && r.port < 0x1_0000 }

  ghost function Greeting(methods: seq<byte>): seq<byte>
    requires |methods| < 256
  {
    [VERSION, |methods| as byte] + methods
  }

  ghost function AuthRequest(c: Credentials): seq<byte>
    requires |c.username| < 256 && |c.password| < 256
  {
    [AUTH_VERSION, |c.username| as byte] + c.username + [|c.password| as byte] + c.password
  }

  ghost function Address(h: Host): seq<byte>
    requires ValidHost(h)
  {
    match h
    case IPv4(a) => [ADDR_IPV4] + a
    case Domain(n) => [ADDR_DOMAIN, |n| as byte] + n
    case IPv6(a) => [ADDR_IPV6] + a
  }

  /** reserved is the third byte, which servers ignore. */
  ghost function Connect(r: Request, reserved: byte): seq<byte>
    requires ValidRequest(r)
  {
    [VERSION, CMD_CONNECT, reserved] + Address(r.host) + [(r.port / 256) as byte, (r.port % 256) as byte]
  }

  function Reply(code: byte): seq<byte> {
    [VERSION, code, 0, ADDR_IPV4, 0, 0, 0, 0, 0, 0]
  }

  // ---------------------------------------------------------------------
  // Reading as a function of the stream
  // ---------------------------------------------------------------------

  /** What is left to read, what has been written, and how many more writes
      the peer will accept. */
  datatype Stream = Stream(input: seq<byte>, output: seq<byte>, writes: nat)

  /** A step either yields a value or fails; either way the stream moves on. */
  datatype Step<+T> = Got(value: T, stream: Stream) | Failed(error: Error, stream: Stream)

  /** io.ReadFull: n bytes, or an error once the stream is used up. */
  function Read(s: Stream, n: nat): Step<seq<byte>> {
    if n <= |s.input| then Got(s.input[..n], s.(input := s.input[n..]))
    else Failed(ShortRead, s.(input := []))
  }

  function Written(s: Stream, data: seq<byte>): Step<()> {
    if s.writes > 0 then Got((), Stream(s.input, s.output + data, s.writes - 1))
    else Failed(WriteFailed, s)
  }

  /** A write whose error is ignored. */
  function Tell(s: Stream, data: seq<byte>): Stream { Written(s, data).stream }

  function Negotiated(s: Stream, auth: Option<Credentials>): Step<()> {
    var head := Read(s, 2);
    if head.Failed? then Failed(head.error, head.stream)
    else if head.value[0] != VERSION then Failed(BadVersion(head.value[0]), head.stream)
    else
      var methods := Read(head.stream, head.value[1] as nat);
      if methods.Failed? then Failed(methods.error, methods.stream)
      else if auth.Some? then
        if AUTH_USER_PASS in methods.value then UserPassNegotiated(methods.stream, auth.value)
        else Failed(NoAcceptableMethod, Tell(methods.stream, [VERSION, AUTH_NO_ACCEPTABLE]))
      else if AUTH_NONE in methods.value then Written(methods.stream, [VERSION, AUTH_NONE])
      else Failed(NoAcceptableMethod, Tell(methods.stream, [VERSION, AUTH_NO_ACCEPTABLE]))
  }

  function UserPassNegotiated(s: Stream, c: Credentials): Step<()> {
    var chosen := Written(s, [VERSION, AUTH_USER_PASS]);
    if chosen.Failed? then chosen else
    var ver := Read(chosen.stream, 1);
    if ver.Failed? then Failed(ver.error, ver.stream)
    else if ver.value[0] != AUTH_VERSION then Failed(BadAuthVersion(ver.value[0]), ver.stream) else
    var user := ReadCounted(ver.stream);
    if user.Failed? then Failed(user.error, user.stream) else
    var pass := ReadCounted(user.stream);
    if pass.Failed? then Failed(pass.error, pass.stream)
    else if user.value != c.username || pass.value != c.password then
      Failed(AuthenticationFailed, Tell(pass.stream, [AUTH_VERSION, AUTH_FAILURE]))
    else Written(pass.stream, [AUTH_VERSION, AUTH_SUCCESS])
  }

  /** A length byte and that many bytes. */
  function ReadCounted(s: Stream): Step<seq<byte>> {
    var count := Read(s, 1);
    if count.Failed? then count else Read(count.stream, count.value[0] as nat)
  }

  function RequestRead(s: Stream): Step<Request> {
    var head := Read(s, 4);
    if head.Failed? then Failed(head.error, head.stream)
    else if head.value[0] != VERSION then Failed(BadVersion(head.value[0]), head.stream)
    else if head.value[1] != CMD_CONNECT then
      Failed(BadCommand(head.value[1]), Tell(head.stream, Reply(REPLY_COMMAND_NOT_SUPPORTED)))
    else
      var host := HostRead(head.stream, head.value[3]);
      if host.Failed? then Failed(host.error, host.stream) else
      var port := Read(host.stream, 2);
      if port.Failed? then Failed(port.error, port.stream)
      else Got(Request(host.value, port.value[0] as nat * 256 + port.value[1] as nat), port.stream)
  }

  function HostRead(s: Stream, kind: byte): Step<Host> {
    if kind == ADDR_IPV4 then
      var ip := Read(s, 4);
      if ip.Failed? then Failed(ip.error, ip.stream) else Got(IPv4(ip.value), ip.stream)
    else if kind == ADDR_DOMAIN then
      var name := ReadCounted(s);
      if name.Failed? then Failed(name.error, name.stream) else Got(Domain(name.value), name.stream)
    else if kind == ADDR_IPV6 then
      var ip := Read(s, 16);
      if ip.Failed? then Failed(ip.error, ip.stream) else Got(IPv6(ip.value), ip.stream)
    else Failed(BadAddressType(kind), Tell(s, Reply(REPLY_ADDR_NOT_SUPPORTED)))
  }

  /** The handshake up to the dial. */
  function Handshake(s: Stream, auth: Option<Credentials>): Step<Request> {
    var n := Negotiated(s, auth);
    if n.Failed? then Failed(n.error, n.stream) else RequestRead(n.stream)
  }

  // ---------------------------------------------------------------------
  // Each step accepts exactly its own message
  // ---------------------------------------------------------------------

  lemma ReadIff(s: Stream, data: seq<byte>, s': Stream)
    ensures Read(s, |data|) == Got(data, s') <==> s.input == data + s'.input && s' == s.(input := s'.input)
  {
    if |data| <= |s.input| {
      assert s.input == s.input[..|data|] + s.input[|data|..];
      if s.input == data + s'.input {
        assert s.input[..|data|] == data && s.input[|data|..] == s'.input;
      }
    }
  }

  lemma ReadCountedIff(s: Stream, data: seq<byte>, s': Stream)
    ensures ReadCounted(s) == Got(data, s')
       <==> |data| < 256 && s.input == [|data| as byte] + data + s'.input && s' == s.(input := s'.input)
  {
    if ReadCounted(s) == Got(data, s') {
      var mid := s.(input := s.input[1..]);
      ReadIff(s, [s.input[0]], mid);
      ReadIff(mid, data, s');
      assert s.input == [|data| as byte] + data + s'.input;
    }
    if |data| < 256 && s.input == [|data| as byte] + data + s'.input && s' == s.(input := s'.input) {
      var mid := s.(input := data + s'.input);
      assert s.input == [|data| as byte] + mid.input;
      ReadIff(s, [|data| as byte], mid);
      ReadIff(mid, data, s');
    }
  }

  /** The replies of a successful negotiation. */
  ghost function NegotiationReplies(auth: Option<Credentials>): seq<byte> {
    if auth.None? then [VERSION, AUTH_NONE] else [VERSION, AUTH_USER_PASS, AUTH_VERSION, AUTH_SUCCESS]
  }

  ghost predicate NegotiatesWith(s: Stream, auth: Option<Credentials>, methods: seq<byte>, s': Stream) {
    && |methods| < 256
    && (if auth.None? then
          && AUTH_NONE in methods
          && s.input == Greeting(methods) + s'.input
          && s.writes >= 1 && s'.writes == s.writes - 1
        else
          && AUTH_USER_PASS in methods
          && |auth.value.username| < 256 && |auth.value.password| < 256
          && s.input == Greeting(methods) + AuthRequest(auth.value) + s'.input
          && s.writes >= 2 && s'.writes == s.writes - 2)
    && s'.output == s.output + NegotiationReplies(auth)
  }

  /** The stream after a successful sub-negotiation that leaves rest. */
  ghost function AfterUserPass(s: Stream, rest: seq<byte>): Stream
    requires s.writes >= 2
  {
    Stream(rest, s.output + [VERSION, AUTH_USER_PASS, AUTH_VERSION, AUTH_SUCCESS], s.writes - 2)
  }

  lemma UserPassAccepts(s: Stream, c: Credentials, rest: seq<byte>)
    requires |c.username| < 256 && |c.password| < 256 && s.input == AuthRequest(c) + rest && s.writes >= 2
    ensures UserPassNegotiated(s, c) == Got((), AfterUserPass(s, rest))
  {
    var chosen := Written(s, [VERSION, AUTH_USER_PASS]).stream;
    var pass := chosen.(input := rest);
    var user := chosen.(input := [|c.password| as byte] + c.password + rest);
    var ver := chosen.(input := [|c.username| as byte] + c.username + user.input);
    assert s.input == [AUTH_VERSION] + ver.input;
    ReadIff(chosen, [AUTH_VERSION], ver);
    ReadCountedIff(ver, c.username, user);
    ReadCountedIff(user, c.password, pass);
    assert s.output + [VERSION, AUTH_USER_PASS] + [AUTH_VERSION, AUTH_SUCCESS] == AfterUserPass(s, rest).output;
  }

  lemma UserPassDemands(s: Stream, c: Credentials, s': Stream)
    requires UserPassNegotiated(s, c) == Got((), s')
    ensures |c.username| < 256 && |c.password| < 256 && s.writes >= 2
    ensures s.input == AuthRequest(c) + s'.input && s' == AfterUserPass(s, s'.input)
  {
    var chosen := Written(s, [VERSION, AUTH_USER_PASS]).stream;
    var ver := Read(chosen, 1).stream;
    ReadIff(chosen, [AUTH_VERSION], ver);
    var user := ReadCounted(ver).stream;
    ReadCountedIff(ver, c.username, user);
    var pass := ReadCounted(user).stream;
    ReadCountedIff(user, c.password, pass);
    assert s.output + [VERSION, AUTH_USER_PASS] + [AUTH_VERSION, AUTH_SUCCESS] == AfterUserPass(s, s'.input).output;
    AuthRequestShape(c, s'.input);
  }

  lemma AuthRequestShape(c: Credentials, rest: seq<byte>)
    requires |c.username| < 256 && |c.password| < 256
    ensures [AUTH_VERSION] + ([|c.username| as byte] + c.username + ([|c.password| as byte] + c.password + rest))
         == AuthRequest(c) + rest
  {}

  /** Reading a greeting. */
  lemma GreetingRead(s: Stream, methods: seq<byte>, rest: seq<byte>)
    requires |methods| < 256 && s.input == Greeting(methods) + rest
    ensures var head := Read(s, 2);
            && head.Got? && head.value == [VERSION, |methods| as byte]
            && Read(head.stream, |methods|) == Got(methods, s.(input := rest))
  {
    var head := s.(input := methods + rest);
    assert s.input == [VERSION, |methods| as byte] + head.input;
    ReadIff(s, [VERSION, |methods| as byte], head);
    ReadIff(head, methods, s.(input := rest));
  }

  lemma NegotiationAccepts(s: Stream, auth: Option<Credentials>, methods: seq<byte>, s': Stream)
    requires NegotiatesWith(s, auth, methods, s')
    ensures Negotiated(s, auth) == Got((), s')
  {
    if auth.None? {
      GreetingRead(s, methods, s'.input);
    } else {
      var rest := AuthRequest(auth.value) + s'.input;
      assert s.input == Greeting(methods) + rest;
      GreetingRead(s, methods, rest);
      UserPassAccepts(s.(input := rest), auth.value, s'.input);
    }
  }

  lemma GreetingDemands(s: Stream)
    requires Read(s, 2).Got? && Read(s, 2).value[0] == VERSION
    requires Read(Read(s, 2).stream, Read(s, 2).value[1] as nat).Got?
    ensures var body := Read(Read(s, 2).stream, Read(s, 2).value[1] as nat);
            && |body.value| < 256 && s.input == Greeting(body.value) + body.stream.input
            && body.stream == s.(input := body.stream.input)
  {
    var head := Read(s, 2);
    var body := Read(head.stream, head.value[1] as nat);
    ReadIff(s, head.value, head.stream);
    ReadIff(head.stream, body.value, body.stream);
    assert head.value == [VERSION, |body.value| as byte];
    GreetingShape(body.value, body.stream.input);
  }

  lemma GreetingShape(methods: seq<byte>, rest: seq<byte>)
    requires |methods| < 256
    ensures [VERSION, |methods| as byte] + (methods + rest) == Greeting(methods) + rest
  {}

  lemma NegotiationDemands(s: Stream, auth: Option<Credentials>, s': Stream) returns (methods: seq<byte>)
    requires Negotiated(s, auth) == Got((), s')
    ensures NegotiatesWith(s, auth, methods, s')
  {
    var body := Read(Read(s, 2).stream, Read(s, 2).value[1] as nat);
    methods := body.value;
    GreetingDemands(s);
    if auth.Some? {
      UserPassDemands(body.stream, auth.value, s');
      assert s.input == Greeting(methods) + AuthRequest(auth.value) + s'.input;
    }
  }

  /** Negotiation succeeds exactly on a greeting that offers the required
      method, followed by the right credentials when they are required. */
  lemma NegotiationIff(s: Stream, auth: Option<Credentials>, s': Stream)
    ensures Negotiated(s, auth) == Got((), s') <==> exists methods :: NegotiatesWith(s, auth, methods, s')
  {
    if Negotiated(s, auth) == Got((), s') {
      var methods := NegotiationDemands(s, auth, s');
    }
    if methods :| NegotiatesWith(s, auth, methods, s') {
      NegotiationAccepts(s, auth, methods, s');
    }
  }

  lemma HostIff(s: Stream, h: Host, s': Stream, kind: byte)
    ensures HostRead(s, kind) == Got(h, s')
       <==> ValidHost(h) && [kind] + s.input == Address(h) + s'.input && s' == s.(input := s'.input)
  {
    var input := [kind] + s.input;
    assert input[1..] == s.input;
    match h {
      case IPv4(a) =>
        if |a| == 4 {
          ReadIff(s, a, s');
          assert [ADDR_IPV4] + a + s'.input == [ADDR_IPV4] + (a + s'.input);
        }
      case IPv6(a) =>
        if |a| == 16 {
          ReadIff(s, a, s');
          assert [ADDR_IPV6] + a + s'.input == [ADDR_IPV6] + (a + s'.input);
        }
      case Domain(n) =>
        ReadCountedIff(s, n, s');
        if |n| < 256 {
          assert [ADDR_DOMAIN, |n| as byte] + n + s'.input == [ADDR_DOMAIN] + ([|n| as byte] + n + s'.input);
        }
    }
  }

  lemma RequestAccepts(s: Stream, r: Request, reserved: byte, rest: seq<byte>)
    requires ValidRequest(r) && s.input == Connect(r, reserved) + rest
    ensures RequestRead(s) == Got(r, s.(input := rest))
  {
    var port := [(r.port / 256) as byte, (r.port % 256) as byte];
    var host := s.(input := port + rest);
    var kind := Address(r.host)[0];
    var head := s.(input := Address(r.host)[1..] + host.input);
    assert Read(s, 4) == Got([VERSION, CMD_CONNECT, reserved, kind], head) by {
      ConnectParts(r, reserved, rest);
      ReadIff(s, [VERSION, CMD_CONNECT, reserved, kind], head);
    }
    assert HostRead(head, kind) == Got(r.host, host) by {
      assert [kind] + head.input == Address(r.host) + host.input;
      HostIff(head, r.host, host, kind);
    }
    ReadIff(host, port, s.(input := rest));
    RequestInParts(s, reserved, kind, head, r.host, host, port[0], port[1], s.(input := rest));
  }

  lemma RequestInParts(s: Stream, reserved: byte, kind: byte, head: Stream, h: Host, host: Stream,
                       hi: byte, lo: byte, end: Stream)
    requires Read(s, 4) == Got([VERSION, CMD_CONNECT, reserved, kind], head)
    requires HostRead(head, kind) == Got(h, host) && Read(host, 2) == Got([hi, lo], end)
    ensures RequestRead(s) == Got(Request(h, hi as nat * 256 + lo as nat), end)
  {}

  lemma ConnectParts(r: Request, reserved: byte, rest: seq<byte>)
    requires ValidRequest(r)
    ensures var port := [(r.port / 256) as byte, (r.port % 256) as byte];
            Connect(r, reserved) + rest
            == [VERSION, CMD_CONNECT, reserved, Address(r.host)[0]] + (Address(r.host)[1..] + (port + rest))
  {
    assert Address(r.host) == [Address(r.host)[0]] + Address(r.host)[1..];
  }

  lemma PortBytes(hi: byte, lo: byte)
    ensures var port := hi as nat * 256 + lo as nat;
            port < 0x1_0000 && port / 256 == hi as nat && port % 256 == lo as nat
  {}

  lemma RequestDemands(s: Stream, r: Request, s': Stream) returns (reserved: byte)
    requires RequestRead(s) == Got(r, s')
    ensures ValidRequest(r) && s' == s.(input := s'.input) && s.input == Connect(r, reserved) + s'.input
  {
    var head := Read(s, 4);
    ReadIff(s, head.value, head.stream);
    var kind := head.value[3];
    reserved := head.value[2];
    var host := HostRead(head.stream, kind);
    HostIff(head.stream, r.host, host.stream, kind);
    var port := Read(host.stream, 2);
    ReadIff(host.stream, port.value, s');
    PortBytes(port.value[0], port.value[1]);
    assert port.value == [(r.port / 256) as byte, (r.port % 256) as byte];
    assert head.value == [VERSION, CMD_CONNECT, reserved] + [kind];
    ConnectShape(s.input, reserved, kind, head.stream.input, Address(r.host), port.value, s'.input);
  }

  lemma ConnectShape(input: seq<byte>, reserved: byte, kind: byte, afterHead: seq<byte>,
                     address: seq<byte>, port: seq<byte>, rest: seq<byte>)
    requires input == [VERSION, CMD_CONNECT, reserved] + [kind] + afterHead
    requires [kind] + afterHead == address + (port + rest)
    ensures input == [VERSION, CMD_CONNECT, reserved] + address + port + rest
  {
    assert input == [VERSION, CMD_CONNECT, reserved] + ([kind] + afterHead);
  }

  /** A request is accepted exactly when it is a CONNECT to that host and port,
      the port in network order. */
  lemma RequestIff(s: Stream, r: Request, s': Stream)
    ensures RequestRead(s) == Got(r, s')
       <==> ValidRequest(r) && s' == s.(input := s'.input)
            && exists reserved :: s.input == Connect(r, reserved) + s'.input
  {
    if RequestRead(s) == Got(r, s') {
      var reserved := RequestDemands(s, r, s');
    }
    if ValidRequest(r) && s' == s.(input := s'.input) {
      if reserved :| s.input == Connect(r, reserved) + s'.input {
        RequestAccepts(s, r, reserved, s'.input);
      }
    }
  }

  /** The whole handshake: it yields a request and leaves rest unread exactly
      when the stream is a greeting offering the required method, the right
      credentials if any are required, that CONNECT request, and rest. */
  lemma HandshakeIff(s: Stream, auth: Option<Credentials>, r: Request, s': Stream)
    ensures Handshake(s, auth) == Got(r, s')
       <==> exists methods, reserved ::
              && ValidRequest(r)
              && NegotiatesWith(s, auth, methods, s'.(input := Connect(r, reserved) + s'.input))
  {
    if Handshake(s, auth) == Got(r, s') {
      var mid := Negotiated(s, auth).stream;
      var methods := NegotiationDemands(s, auth, mid);
      var reserved := RequestDemands(mid, r, s');
      BeforeRequest(mid, Connect(r, reserved), s');
      assert NegotiatesWith(s, auth, methods, mid);
    }
    if methods, reserved :| ValidRequest(r)
                            && NegotiatesWith(s, auth, methods, s'.(input := Connect(r, reserved) + s'.input)) {
      var mid := s'.(input := Connect(r, reserved) + s'.input);
      NegotiationIff(s, auth, mid);
      RequestIff(mid, r, s');
    }
  }

  lemma BeforeRequest(mid: Stream, message: seq<byte>, s': Stream)
    requires s' == mid.(input := s'.input) && mid.input == message + s'.input
    ensures mid == s'.(input := message + s'.input)
  {}

  /** The round trip a client relies on: its greeting, its credentials and its
      request come out as that request, with the payload untouched. */
  lemma ClientRoundTrip(methods: seq<byte>, auth: Option<Credentials>, r: Request, payload: seq<byte>, writes: nat)
    requires |methods| < 256 && ValidRequest(r) && writes >= 2
    requires auth.None? ==> AUTH_NONE in methods
    requires auth.Some? ==> AUTH_USER_PASS in methods && |auth.value.username| < 256 && |auth.value.password| < 256
    ensures var credentials := if auth.None? then [] else AuthRequest(auth.value);
            var input := Greeting(methods) + credentials + Connect(r, 0) + payload;
            Handshake(Stream(input, [], writes), auth)
            == Got(r, Stream(payload, NegotiationReplies(auth), if auth.None? then writes - 1 else writes - 2))
  {
    var middle := if auth.None? then [] else AuthRequest(auth.value);
    var input := Greeting(methods) + middle + Connect(r, 0) + payload;
    assert input == Greeting(methods) + middle + (Connect(r, 0) + payload);
    assert auth.None? ==> Greeting(methods) + middle == Greeting(methods);
    var s' := Stream(payload, NegotiationReplies(auth), if auth.None? then writes - 1 else writes - 2);
    assert NegotiatesWith(Stream(input, [], writes), auth, methods, s'.(input := Connect(r, 0) + s'.input));
    HandshakeIff(Stream(input, [], writes), auth, r, s');
  }

  // ---------------------------------------------------------------------
  // The bytes on the wire, as the RFCs number them
  // ---------------------------------------------------------------------

  /** RFC 1928 section 5: an address type and an address. */
  ghost predicate IsAddress(bytes: seq<byte>, h: Host) {
    match h
    case IPv4(a) => |a| == 4 && bytes == [1] + a
    case Domain(n) => |n| < 256 && bytes == [3, |n| as byte] + n
    case IPv6(a) => |a| == 16 && bytes == [4] + a
  }

  /** A client without credentials, and one with: what they send, what they are
      answered, and that host and port are what was asked for, the port with its
      high byte first. */
  lemma OnTheWire(methods: seq<byte>, h: Host, address: seq<byte>, reserved: byte, hi: byte, lo: byte,
                  payload: seq<byte>, writes: nat)
    requires |methods| < 256 && IsAddress(address, h)
    ensures 0 in methods && writes >= 1 ==>
              Handshake(Stream([5, |methods| as byte] + methods + ([5, 1, reserved] + address + [hi, lo] + payload),
                               [], writes), None)
              == Got(Request(h, 256 * hi as nat + lo as nat), Stream(payload, [5, 0], writes - 1))
    ensures forall c: Credentials | 2 in methods && |c.username| < 256 && |c.password| < 256 && writes >= 2 ::
              Handshake(Stream([5, |methods| as byte] + methods
                               + ([1, |c.username| as byte] + c.username + [|c.password| as byte] + c.password
                                  + ([5, 1, reserved] + address + [hi, lo] + payload)),
                               [], writes), Some(c))
              == Got(Request(h, 256 * hi as nat + lo as nat), Stream(payload, [5, 2, 1, 0], writes - 2))
  {
    var r := Request(h, 256 * hi as nat + lo as nat);
    PortBytes(hi, lo);
    var request := [5, 1, reserved] + address + [hi, lo] + payload;
    assert address == Address(h);
    assert request == Connect(r, reserved) + payload;
    if 0 in methods && writes >= 1 {
      var s := Stream([5, |methods| as byte] + methods + request, [], writes);
      var s' := Stream(payload, [5, 0], writes - 1);
      assert NegotiatesWith(s, None, methods, s'.(input := request));
      HandshakeIff(s, None, r, s');
    }
    forall c: Credentials | 2 in methods && |c.username| < 256 && |c.password| < 256 && writes >= 2
      ensures Handshake(Stream([5, |methods| as byte] + methods
                               + ([1, |c.username| as byte] + c.username + [|c.password| as byte] + c.password
                                  + request), [], writes), Some(c))
           == Got(r, Stream(payload, [5, 2, 1, 0], writes - 2))
    {
      var s := Stream([5, |methods| as byte] + methods
                      + ([1, |c.username| as byte] + c.username + [|c.password| as byte] + c.password + request),
                      [], writes);
      var s' := Stream(payload, [5, 2, 1, 0], writes - 2);
      assert s.input == Greeting(methods) + AuthRequest(c) + request;
      assert NegotiatesWith(s, Some(c), methods, s'.(input := request));
      HandshakeIff(s, Some(c), r, s');
    }
  }

  /** A greeting, then exactly these credentials (RFC 1929 section 2). */
  ghost predicate Presents(input: seq<byte>, methods: seq<byte>, user: seq<byte>, pass: seq<byte>, rest: seq<byte>) {
    && |methods| < 256 && |user| < 256 && |pass| < 256
    && input == [5, |methods| as byte] + methods + [1, |user| as byte] + user + [|pass| as byte] + pass + rest
  }

  lemma PresentsBoth(s: Stream, c: Credentials, methods: seq<byte>, s': Stream)
    requires NegotiatesWith(s, Some(c), methods, s')
    ensures Presents(s.input, methods, c.username, c.password, s'.input)
  {
    var greeting, user, pass := [5, |methods| as byte] + methods, [1, |c.username| as byte] + c.username,
                                [|c.password| as byte] + c.password;
    assert AuthRequest(c) == user + pass;
    assert greeting + (user + pass) + s'.input
        == [5, |methods| as byte] + methods + [1, |c.username| as byte] + c.username
           + [|c.password| as byte] + c.password + s'.input;
  }

  /** No method the server accepts: the answer is 255. */
  lemma NoMethodOnTheWire(methods: seq<byte>, auth: Option<Credentials>, rest: seq<byte>, writes: nat)
    requires |methods| < 256 && writes >= 1 && (if auth.Some? then 2 !in methods else 0 !in methods)
    ensures Handshake(Stream([5, |methods| as byte] + methods + rest, [], writes), auth)
         == Failed(NoAcceptableMethod, Stream(rest, [5, 255], writes - 1))
  {
    GreetingRead(Stream([5, |methods| as byte] + methods + rest, [], writes), methods, rest);
  }

  /** Other credentials than the server's: the answer is 1, and nothing more is
      read. */
  lemma WrongCredentialsOnTheWire(methods: seq<byte>, c: Credentials, user: seq<byte>, pass: seq<byte>,
                                  rest: seq<byte>, writes: nat)
    requires |methods| < 256 && 2 in methods && |user| < 256 && |pass| < 256 && writes >= 2
    requires user != c.username || pass != c.password
    ensures Handshake(Stream([5, |methods| as byte] + methods
                             + ([1, |user| as byte] + user + ([|pass| as byte] + pass + rest)), [], writes), Some(c))
         == Failed(AuthenticationFailed, Stream(rest, [5, 2, 1, 1], writes - 2))
  {
    var sent := [1, |user| as byte] + user + ([|pass| as byte] + pass + rest);
    GreetingRead(Stream([5, |methods| as byte] + methods + sent, [], writes), methods, sent);
    UserPassRefuses(Stream(sent, [], writes), c, user, pass, rest);
  }

  lemma UserPassRefuses(s: Stream, c: Credentials, user: seq<byte>, pass: seq<byte>, rest: seq<byte>)
    requires |user| < 256 && |pass| < 256 && s.writes >= 2 && s.output == []
    requires s.input == [1, |user| as byte] + user + ([|pass| as byte] + pass + rest)
    requires user != c.username || pass != c.password
    ensures UserPassNegotiated(s, c) == Failed(AuthenticationFailed, Stream(rest, [5, 2, 1, 1], s.writes - 2))
  {
    var afterUser := [|pass| as byte] + pass + rest;
    var chosen := Stream(s.input, [5, 2], s.writes - 1);
    var ver := chosen.(input := [|user| as byte] + user + afterUser);
    assert [] + [5, 2] == [5, 2];
    assert s.input == [1] + ver.input;
    ReadIff(chosen, [1], ver);
    ReadCountedIff(ver, user, ver.(input := afterUser));
    ReadCountedIff(ver.(input := afterUser), pass, ver.(input := rest));
  }

  /** After the negotiation: a command other than CONNECT is answered 7, and an
      address type other than the three 8. */
  lemma BadRequestOnTheWire(s: Stream, command: byte, reserved: byte, kind: byte, rest: seq<byte>)
    requires s.input == [5, command, reserved, kind] + rest && s.writes >= 1
    ensures command != 1 ==>
              RequestRead(s) == Failed(BadCommand(command),
                                       Stream(rest, s.output + [5, 7, 0, 1, 0, 0, 0, 0, 0, 0], s.writes - 1))
    ensures command == 1 && kind != 1 && kind != 3 && kind != 4 ==>
              RequestRead(s) == Failed(BadAddressType(kind),
                                       Stream(rest, s.output + [5, 8, 0, 1, 0, 0, 0, 0, 0, 0], s.writes - 1))
  {
    ReadIff(s, [5, command, reserved, kind], s.(input := rest));
  }

  // ---------------------------------------------------------------------
  // The server
  // ---------------------------------------------------------------------

  class Conn {
    var input: seq<byte>
    var output: seq<byte>
    var writes: nat

    ghost function Value(): Stream
      reads this
    {
      Stream(input, output, writes)
    }

    method ReadFull(n: nat) returns (r: Result<seq<byte>, Error>)
      modifies this
      ensures AsStep(r, Value()) == Read(old(Value()), n)
      ensures r.Ok? ==> |r.value| == n
    {
      if n <= |input| {
        r := Ok(input[..n]);
        input := input[n..];
      } else {
        input := [];
        r := Err(ShortRead);
      }
    }

    method Write(data: seq<byte>) returns (r: Result<(), Error>)
      modifies this
      ensures AsStep(r, Value()) == Written(old(Value()), data)
    {
      if writes > 0 {
        output := output + data;
        writes := writes - 1;
        r := Ok(());
      } else {
        r := Err(WriteFailed);
      }
    }
  }

  /** The result of a method as a step of the stream. */
  ghost function AsStep<T>(r: Result<T, Error>, s: Stream): Step<T> {
    if r.Ok? then Got(r.value, s) else Failed(r.error, s)
  }

  class SocksServer {
    const username: seq<byte>
    const password: seq<byte>

    function Auth(): Option<Credentials> {
      if username != [] || password != [] then Some(Credentials(username, password)) else None
    }

    method Negotiate(conn: Conn) returns (r: Result<(), Error>)
      modifies conn
      ensures AsStep(r, conn.Value()) == Negotiated(old(conn.Value()), Auth())
    {
      var buf := conn.ReadFull(2);
      if buf.Err? { return Err(buf.error); }
      if buf.value[0] != VERSION { return Err(BadVersion(buf.value[0])); }
      var methods := conn.ReadFull(buf.value[1] as nat);
      if methods.Err? { return Err(methods.error); }
      if username != [] || password != [] {
        r := NegotiateUserPass(conn, methods.value);
        return;
      }
      for i := 0 to |methods.value|
        invariant AUTH_NONE !in methods.value[..i]
        invariant conn.Value() == old(conn.Value()).(input := conn.input)
        invariant Read(Read(old(conn.Value()), 2).stream, buf.value[1] as nat) == Got(methods.value, conn.Value())
      {
        if methods.value[i] == AUTH_NONE {
          assert AUTH_NONE in methods.value;
          r := conn.Write([VERSION, AUTH_NONE]);
          return;
        }
      }
      var _ := conn.Write([VERSION, AUTH_NO_ACCEPTABLE]);
      return Err(NoAcceptableMethod);
    }

    method NegotiateUserPass(conn: Conn, methods: seq<byte>) returns (r: Result<(), Error>)
      modifies conn
      ensures AsStep(r, conn.Value()) ==
              if AUTH_USER_PASS in methods then UserPassNegotiated(old(conn.Value()), Credentials(username, password))
              else Failed(NoAcceptableMethod, Tell(old(conn.Value()), [VERSION, AUTH_NO_ACCEPTABLE]))
    {
      var hasUserPass := false;
      for i := 0 to |methods|
        invariant !hasUserPass && AUTH_USER_PASS !in methods[..i]
      {
        if methods[i] == AUTH_USER_PASS {
          hasUserPass := true;
          break;
        }
      }
      if !hasUserPass {
        var _ := conn.Write([VERSION, AUTH_NO_ACCEPTABLE]);
        return Err(NoAcceptableMethod);
      }
      var chosen := conn.Write([VERSION, AUTH_USER_PASS]);
      if chosen.Err? { return chosen; }
      var ver := conn.ReadFull(1);
      if ver.Err? { return Err(ver.error); }
      if ver.value[0] != AUTH_VERSION { return Err(BadAuthVersion(ver.value[0])); }
      var ulen := conn.ReadFull(1);
      if ulen.Err? { return Err(ulen.error); }
      var uname := conn.ReadFull(ulen.value[0] as nat);
      if uname.Err? { return Err(uname.error); }
      var plen := conn.ReadFull(1);
      if plen.Err? { return Err(plen.error); }
      var passwd := conn.ReadFull(plen.value[0] as nat);
      if passwd.Err? { return Err(passwd.error); }
      if uname.value != username || passwd.value != password {
        var _ := conn.Write([AUTH_VERSION, AUTH_FAILURE]);
        return Err(AuthenticationFailed);
      }
      r := conn.Write([AUTH_VERSION, AUTH_SUCCESS]);
    }

    method ReadRequest(conn: Conn) returns (r: Result<Request, Error>)
      modifies conn
      ensures AsStep(r, conn.Value()) == RequestRead(old(conn.Value()))
    {
      var buf := conn.ReadFull(4);
      if buf.Err? { return Err(buf.error); }
      if buf.value[0] != VERSION { return Err(BadVersion(buf.value[0])); }
      if buf.value[1] != CMD_CONNECT {
        SendReply(conn, REPLY_COMMAND_NOT_SUPPORTED);
        return Err(BadCommand(buf.value[1]));
      }
      var host: Host;
      if buf.value[3] == ADDR_IPV4 {
        var ip := conn.ReadFull(4);
        if ip.Err? { return Err(ip.error); }
        host := IPv4(ip.value);
      } else if buf.value[3] == ADDR_DOMAIN {
        var len := conn.ReadFull(1);
        if len.Err? { return Err(len.error); }
        var domain := conn.ReadFull(len.value[0] as nat);
        if domain.Err? { return Err(domain.error); }
        host := Domain(domain.value);
      } else if buf.value[3] == ADDR_IPV6 {
        var ip := conn.ReadFull(16);
        if ip.Err? { return Err(ip.error); }
        host := IPv6(ip.value);
      } else {
        SendReply(conn, REPLY_ADDR_NOT_SUPPORTED);
        return Err(BadAddressType(buf.value[3]));
      }
      var port := conn.ReadFull(2);
      if port.Err? { return Err(port.error); }
      return Ok(Request(host, port.value[0] as nat * 256 + port.value[1] as nat));
    }

    method SendReply(conn: Conn, code: byte)
      modifies conn
      ensures conn.Value() == Tell(old(conn.Value()), Reply(code))
    {
      var _ := conn.Write(Reply(code));
    }

    /** With a user name or a password set, nobody gets further without both. */
    lemma Presented(s: Stream)
      ensures Handshake(s, Auth()).Got? && (username != [] || password != []) ==>
                exists methods, rest :: Presents(s.input, methods, username, password, rest)
    {
      if Handshake(s, Auth()).Got? && (username != [] || password != []) {
        var mid := Negotiated(s, Auth()).stream;
        var methods := NegotiationDemands(s, Auth(), mid);
        PresentsBoth(s, Credentials(username, password), methods, mid);
      }
    }

    /** handleConn up to the relay. dialed tells whether the dial succeeds; the
        connection is relayed only if the handshake and the dial did. */
    method HandleConn(conn: Conn, dialed: bool) returns (relayed: Option<Request>)
      modifies conn
      ensures var h := Handshake(old(conn.Value()), Auth());
              if h.Failed? then relayed == None && conn.Value() == h.stream
              else && relayed == (if dialed then Some(h.value) else None)
                   && conn.Value() == Tell(h.stream, Reply(if dialed then REPLY_SUCCESS else REPLY_GENERAL_FAILURE))
      ensures Handshake(old(conn.Value()), Auth()).Got? && Handshake(old(conn.Value()), Auth()).stream.writes > 0 ==>
                conn.output == Handshake(old(conn.Value()), Auth()).stream.output
                               + [5, if dialed then 0 else 1, 0, 1, 0, 0, 0, 0, 0, 0]
      ensures relayed.Some? && (username != [] || password != []) ==>
                exists methods, rest :: Presents(old(conn.input), methods, username, password, rest)
    {
      Presented(conn.Value());
      var n := Negotiate(conn);
      if n.Err? { return None; }
      var r := ReadRequest(conn);
      if r.Err? { return None; }
      if !dialed {
        SendReply(conn, REPLY_GENERAL_FAILURE);
        return None;
      }
      SendReply(conn, REPLY_SUCCESS);
      return Some(r.value);
    }
  }

  // ---------------------------------------------------------------------
  // The address handed to the dialer
  // ---------------------------------------------------------------------

  /** Bytes of a domain name as text, one character a byte. */
  function AsText(b: seq<byte>): string {
    seq(|b|, i requires 0 <= i < |b| => b[i] as int as char)
  }

  function DottedDecimal(a: seq<byte>): string
    requires |a| == 4
  {
    Decimal(a[0] as nat) + "." + Decimal(a[1] as nat) + "." + Decimal(a[2] as nat) + "." + Decimal(a[3] as nat)
  }

  /** renderIPv6 stands for net.IP.String on sixteen bytes. */
  function DialAddress(r: Request, renderIPv6: seq<byte> -> string): string
    requires r.host.IPv4? ==> |r.host.addr| == 4
  {
    var host := match r.host
      case IPv4(a) => DottedDecimal(a)
      case Domain(n) => AsText(n)
      case IPv6(a) => renderIPv6(a);
    JoinHostPort(host, Decimal(r.port))
  }

  lemma CutDecimal(n: nat, rest: string)
    ensures Cut(Decimal(n) + ("." + rest), '.') == Cutting(Decimal(n), rest, true)
  {
    DecimalIsPlain(n);
    assert Decimal(n) + ("." + rest) == Decimal(n) + "." + rest;
    CutAt(Decimal(n), rest, '.');
  }

  /** Read label by label, the numeral gives the four bytes in order. */
  ghost predicate ReadsAs(s: string, a: int, b: int, c: int, d: int) {
    var x := Cut(s, '.');
    var y := Cut(x.after, '.');
    var z := Cut(y.after, '.');
    && x.found && y.found && z.found
    && ValueOf(x.before) == a && ValueOf(y.before) == b && ValueOf(z.before) == c && ValueOf(z.after) == d
  }

  lemma DottedReadsBack(a: seq<byte>)
    requires |a| == 4
    ensures ReadsAs(DottedDecimal(a), a[0] as int, a[1] as int, a[2] as int, a[3] as int)
  {
    var w, x, y, z := Decimal(a[0] as nat), Decimal(a[1] as nat), Decimal(a[2] as nat), Decimal(a[3] as nat);
    assert DottedDecimal(a) == w + ("." + (x + ("." + (y + ("." + z)))));
    CutDecimal(a[0] as nat, x + ("." + (y + ("." + z))));
    CutDecimal(a[1] as nat, y + ("." + z));
    CutDecimal(a[2] as nat, z);
    DecimalReadsBack(a[0] as nat);
    DecimalReadsBack(a[1] as nat);
    DecimalReadsBack(a[2] as nat);
    DecimalReadsBack(a[3] as nat);
  }

  lemma DottedIsPlain(a: seq<byte>)
    requires |a| == 4
    ensures Plain(DottedDecimal(a))
  {
    DecimalIsPlain(a[0] as nat);
    DecimalIsPlain(a[1] as nat);
    DecimalIsPlain(a[2] as nat);
    DecimalIsPlain(a[3] as nat);
  }

  /** The address dialled for an IPv4 request reads as its four bytes and its
      port. */
  lemma IPv4ReadsBack(r: Request, renderIPv6: seq<byte> -> string)
    requires r.host.IPv4? && |r.host.addr| == 4
    ensures var a, split := r.host.addr, SplitHostPort(DialAddress(r, renderIPv6));
            && split.HostPort? && ValueOf(split.port) == r.port
            && ReadsAs(split.host, a[0] as int, a[1] as int, a[2] as int, a[3] as int)
  {
    DottedIsPlain(r.host.addr);
    DecimalIsPlain(r.port);
    SplitJoin(DottedDecimal(r.host.addr), Decimal(r.port));
    DottedReadsBack(r.host.addr);
    DecimalReadsBack(r.port);
  }
}
