/** The SOCKS5 side of a session: negotiation, request, tunnel setup and reply. */
module SocksClient {
  import opened Bytes
  import opened Streams
  import opened Frames
  import opened IpText
  import opened Protocol
  import opened Tunnels

  const SOCKS_VERSION: byte := 0x05
  const NO_ACCEPTABLE: byte := 0xFF
  const CONNECT: byte := 0x01
  const COMMAND_NOT_SUPPORTED: byte := 0x07

  /** A reply with an all-zero bound address. */
  function Reply(code: byte): (r: seq<byte>)
    ensures |r| == 10
  {
    [SOCKS_VERSION, code, 0, Code(Ipv4), 0, 0, 0, 0, 0, 0]
  }

  /** The reply code for a tunnel status: success for status 0 and for no other. */
  function ReplyFor(status: byte): (code: byte)
    ensures code == 0 <==> status == 0
    ensures status in [1, 2, 3, 4, 5] ==> code == status
    ensures status > 5 ==> code == 1
  {
    if status <= 5 then status else 1
  }

  /** The client's side of the conversation up to the tunnel, as a function of what the application sends. */
  datatype Dialogue =
    | Refused(output: seq<byte>)
    | Accepted(address: Text, port: nat, used: nat)

  function SocksDialogue(lossy: Lossy, input: seq<byte>): Dialogue {
    if |input| < 2 then Refused([])
    else
      var n := input[1] as nat;
      if |input| < 2 + n then Refused([])
      else if 0 !in input[2..2 + n] then Refused([SOCKS_VERSION, NO_ACCEPTABLE])
      else SocksRequest(lossy, input, 2 + n)
  }

  /** The greeting takes `at` bytes and offers no-authentication. */
  predicate AcceptsNoAuth(input: seq<byte>, at: nat) {
    |input| >= 2 && at == 2 + input[1] as nat && |input| >= at && 0 in input[2..at]
  }

  /** The request starts at `at`; the method reply has been written. */
  function SocksRequest(lossy: Lossy, input: seq<byte>, at: nat): Dialogue
    requires at <= |input|
  {
    var accept := [SOCKS_VERSION, 0];
    var req := input[at..];
    if |req| < 4 then Refused(accept)
    else if req[1] != CONNECT then Refused(accept + Reply(COMMAND_NOT_SUPPORTED))
    else
      match AddressTypeFromU8(req[3])
      case None => Refused(accept)
      case Some(a) =>
        match TakeAddress(lossy, a, req[4..])
        case None => Refused(accept)
        case Some((t, n)) =>
          if |req| < 4 + n + 2 then Refused(accept)
          else Accepted(t, FromU16(req[4 + n..4 + n + 2]), at + 4 + n + 2)
  }

  /** What a client may have written before relaying: a refusal, or an acceptance with at most one reply. */
  predicate WellFormedOutput(w: seq<byte>) {
    || w == []
    || w == [SOCKS_VERSION, NO_ACCEPTABLE]
    || w == [SOCKS_VERSION, 0]
    || (exists code: byte :: code in [0, 1, 2, 3, 4, 5, 7] && w == [SOCKS_VERSION, 0] + Reply(code))
  }

  /** A prefix of such an output, for when a write fails. */
  ghost predicate CutOutput(w: seq<byte>) {
    exists full :: WellFormedOutput(full) && w <= full
  }

  datatype ClientEnd = NotRelayed | Relayed

  /** The request names its target, and the address kinds have their sizes. */
  lemma AcceptedRequest(lossy: Lossy, input: seq<byte>)
    ensures var d := SocksDialogue(lossy, input);
      match d
      case Accepted(t, port, used) =>
        && used <= |input| && port < U16_SIZE
        && (exists a: AddressType, raw ::
              && (a.Ipv4? ==> |raw| == 4) && (a.Ipv6? ==> |raw| == 16) && |raw| <= 255
              && t == AddressText(lossy, a, raw))
      case Refused(w) => WellFormedOutput(w)
  {
    hide PrintV4, PrintV6, FromU16;
    var d := SocksDialogue(lossy, input);
    if d.Refused? {
      if d.output == [SOCKS_VERSION, 0] + Reply(COMMAND_NOT_SUPPORTED) {
        assert COMMAND_NOT_SUPPORTED in [0, 1, 2, 3, 4, 5, 7];
      }
    } else {
      var at := 2 + input[1] as nat;
      var req := input[at..];
      var a := AddressTypeFromU8(req[3]).value;
      var field := req[4..];
      var raw := match a
        case Ipv4 => field[..4]
        case Ipv6 => field[..16]
        case Domain => field[1..1 + field[0] as nat];
      assert d.address == AddressText(lossy, a, raw);
    }
  }

  /** A greeting: version, count, and the methods offered. */
  function Greeting(version: byte, methods: seq<byte>): seq<byte>
    requires |methods| <= 255
  {
    [version, |methods|] + methods
  }

  /** A request: version, command, reserved byte, address type, address, and the port most significant byte first. */
  function RequestBytes(version: byte, reserved: byte, a: AddressType, raw: seq<byte>, port: nat): seq<byte>
    requires Sized(a, raw) && port < U16_SIZE
  {
    [version, CONNECT, reserved, Code(a)] + (AddressBytes(a, raw) + [port / 256, port % 256])
  }

  /** Behind a greeting that offers no-authentication the request is read. */
  lemma GreetingAccepted(lossy: Lossy, version: byte, methods: seq<byte>, rest: seq<byte>)
    requires |methods| <= 255 && 0 in methods
    ensures var at := |Greeting(version, methods)|;
      match SocksRequest(lossy, rest, 0)
      case Accepted(t, port, used) => SocksDialogue(lossy, Greeting(version, methods) + rest) == Accepted(t, port, at + used)
      case Refused(w) => SocksDialogue(lossy, Greeting(version, methods) + rest) == Refused(w)
  {
    hide SocksDialogue, SocksRequest;
    var input, at := Greeting(version, methods) + rest, 2 + |methods|;
    assert input[2..at] == methods && input[at..] == rest;
    RequestAtOffset(lossy, input, at);
  }

  lemma RequestRead(lossy: Lossy, version: byte, reserved: byte, a: AddressType, raw: seq<byte>, port: nat, tail: seq<byte>)
    requires Sized(a, raw) && port < U16_SIZE
    ensures var bytes := RequestBytes(version, reserved, a, raw, port);
      SocksRequest(lossy, bytes + tail, 0) == Accepted(AddressText(lossy, a, raw), port, |bytes|)
  {
    hide AddressText, TakeAddress, AddressBytes;
    var field, port2 := AddressBytes(a, raw), [(port / 256) as byte, (port % 256) as byte];
    var bytes := RequestBytes(version, reserved, a, raw, port);
    var req := bytes + tail;
    assert req[0..] == req;
    assert req[4..] == field + (port2 + tail);
    TakesItsBytes(lossy, a, raw, port2 + tail);
    assert req[4 + |field|..4 + |field| + 2] == port2;
  }

  /**
   From the bytes of the SOCKS conversation to the server: whatever the versions,
   the reserved byte and the other methods, the request is accepted with the
   address and port that stand in it, and the relay starts right behind it. The
   server reads that destination and port from the header exactly when a decoded
   name has at most 255 bytes.
   */
  lemma RequestReachesServer(lossy: Lossy, v: byte, methods: seq<byte>, v': byte, reserved: byte, a: AddressType, raw: seq<byte>, port: nat, tail: seq<byte>)
    requires LossyLaws(lossy) && |methods| <= 255 && 0 in methods && Sized(a, raw) && port < U16_SIZE
    ensures var bytes := Greeting(v, methods) + RequestBytes(v', reserved, a, raw, port);
      && (bytes + tail)[|bytes|..] == tail
      && SocksDialogue(lossy, bytes + tail) == Accepted(AddressText(lossy, a, raw), port, |bytes|)
    ensures var t := AddressText(lossy, a, raw);
      && DestinationOf(t) == Requested(lossy, a, raw)
      && ParseHeader(lossy, Header(t, port)).Some?
      && var p := ParseHeader(lossy, Header(t, port)).value;
        var short := Requested(lossy, a, raw).Name? ==> |lossy(raw)| <= 255;
        DestinationOf(p.address) == Requested(lossy, a, raw) && p.port == port <==> short
  {
    hide SocksDialogue, SocksRequest, AddressText, DestinationOf, Requested, ParseHeader, Header, RequestBytes, Greeting;
    var greeting, request := Greeting(v, methods), RequestBytes(v', reserved, a, raw, port);
    RequestRead(lossy, v', reserved, a, raw, port, tail);
    GreetingAccepted(lossy, v, methods, request + tail);
    assert (greeting + request) + tail == greeting + (request + tail);
    EndToEndTarget(lossy, a, raw, port);
  }

  /**
   Every other conversation is turned away: without the method, with another
   command, with another address type, or cut short. These are all there are.
   */
  lemma RequestRefused(lossy: Lossy, v: byte, methods: seq<byte>, v': byte, command: byte, reserved: byte, code: byte, tail: seq<byte>)
    requires |methods| <= 255
    ensures 0 !in methods ==> SocksDialogue(lossy, Greeting(v, methods) + tail) == Refused([5, 0xFF])
    ensures 0 in methods && command != 1 ==>
      SocksDialogue(lossy, Greeting(v, methods) + ([v', command, reserved, code] + tail))
        == Refused([5, 0, 5, 7, 0, 1, 0, 0, 0, 0, 0, 0])
    ensures 0 in methods && command == 1 && code !in [1, 3, 4] ==>
      SocksDialogue(lossy, Greeting(v, methods) + ([v', command, reserved, code] + tail)) == Refused([5, 0])
  {
    hide TakeAddress, FromU16;
    if 0 in methods {
      hide SocksDialogue;
      var rest := [v', command, reserved, code] + tail;
      assert rest[0..] == rest;
      GreetingAccepted(lossy, v, methods, rest);
    } else {
      var input := Greeting(v, methods) + tail;
      assert input[2..2 + |methods|] == methods;
    }
  }

  /** A conversation that ends early is answered only if the greeting was whole. */
  lemma ConversationCut(lossy: Lossy, v: byte, methods: seq<byte>, v': byte, reserved: byte, a: AddressType, raw: seq<byte>, port: nat, n: nat)
    requires |methods| <= 255 && 0 in methods && Sized(a, raw) && port < U16_SIZE
    requires n < |Greeting(v, methods)| + |RequestBytes(v', reserved, a, raw, port)|
    ensures var bytes := Greeting(v, methods) + RequestBytes(v', reserved, a, raw, port);
      SocksDialogue(lossy, bytes[..n]) == Refused(if n < |Greeting(v, methods)| then [] else [5, 0])
  {
    var greeting, request := Greeting(v, methods), RequestBytes(v', reserved, a, raw, port);
    var bytes := greeting + request;
    if n < |greeting| {
      hide SocksRequest;
      if n >= 2 { assert bytes[..n][1] == bytes[1]; }
    } else {
      hide SocksDialogue, SocksRequest, RequestBytes;
      assert bytes[..n] == greeting + request[..n - |greeting|];
      RequestCut(lossy, v', reserved, a, raw, port, n - |greeting|);
      GreetingAccepted(lossy, v, methods, request[..n - |greeting|]);
    }
  }

  lemma RequestCut(lossy: Lossy, version: byte, reserved: byte, a: AddressType, raw: seq<byte>, port: nat, n: nat)
    requires Sized(a, raw) && port < U16_SIZE && n < |RequestBytes(version, reserved, a, raw, port)|
    ensures SocksRequest(lossy, RequestBytes(version, reserved, a, raw, port)[..n], 0) == Refused([SOCKS_VERSION, 0])
  {
    hide AddressText, TakeAddress, AddressBytes;
    var field, port2 := AddressBytes(a, raw), [(port / 256) as byte, (port % 256) as byte];
    var req := RequestBytes(version, reserved, a, raw, port)[..n];
    assert req[0..] == req;
    if n >= 4 {
      var k := n - 4;
      assert req[4..] == (field + port2)[..k];
      if k < |field| {
        TakesItsBytes(lossy, a, raw, []);
        assert (field + port2)[..k] == field[..k];
      } else {
        TakesItsBytes(lossy, a, raw, port2[..k - |field|]);
        assert (field + port2)[..k] == field + port2[..k - |field|];
      }
    }
  }

  /** A whole SOCKS conversation whose target is lost on the way: see GarbledName. */
  function GarbledRequest(port: nat): seq<byte> {
    [SOCKS_VERSION, 1, 0] + ([SOCKS_VERSION, CONNECT, 0, Code(Domain), 86] + (Repeated(0xFF, 86) + ToU16(port)))
  }

  /**
   The client accepts that conversation, with the port asked for, and sends a
   header from which the server reads another name and always the port 0xBDEF.
   */
  lemma GarbledRequestLost(lossy: Lossy, port: nat)
    requires LossyLaws(lossy) && ReplacesFF(lossy) && port < U16_SIZE
    ensures var t := AddressText(lossy, Domain, Repeated(0xFF, 86));
      && SocksDialogue(lossy, GarbledRequest(port)) == Accepted(t, port, |GarbledRequest(port)|)
      && ParseHeader(lossy, Header(t, port)).Some?
      && var p := ParseHeader(lossy, Header(t, port)).value;
        p.port == 0xBDEF && DestinationOf(p.address) != DestinationOf(t)
  {
    hide ToU16, FromU16, Repeated, DestinationOf, ParseHeader, Header;
    GarbledName(lossy, port);
    U16RoundTrip(port);
    var input, name := GarbledRequest(port), Repeated(0xFF, 86);
    assert input[2..3] == [0];
    var req := input[3..];
    assert req == [SOCKS_VERSION, CONNECT, 0, Code(Domain), 86] + (name + ToU16(port));
    var field := req[4..];
    assert field == [86] + (name + ToU16(port));
    assert field[1..1 + 86] == name;
    assert req[4 + 87..4 + 87 + 2] == ToU16(port);
  }

  /** Method negotiation on the connection. */
  method Negotiate(socks: TcpStream, ghost lossy: Lossy, buf: array<byte>)
    returns (accepted: bool, ghost before: seq<byte>, ghost failed: bool)
    requires buf.Length == 512
    modifies socks, buf
    ensures socks.faults >= old(socks.faults) && (failed <==> socks.faults > old(socks.faults))
    ensures accepted ==> !failed
    ensures socks.written == old(socks.written) + before
    ensures CutOutput(before)
    ensures !failed && !accepted ==> SocksDialogue(lossy, old(socks.unread)) == Refused(before)
    ensures accepted ==>
      var input := old(socks.unread);
      && before == [SOCKS_VERSION, 0]
      && |input| >= 2 && AcceptsNoAuth(input, 2 + input[1] as nat)
      && socks.unread == input[2 + input[1] as nat..]
  {
    ghost var input := socks.unread;
    before, failed := [], false;
    assert WellFormedOutput([]) && WellFormedOutput([SOCKS_VERSION, 0]) && WellFormedOutput([SOCKS_VERSION, NO_ACCEPTABLE]);
    var status := socks.ReadExact(buf, 2);
    if status != Done { return false, before, status == Failed; }
    assert buf[1] == buf[..2][1];
    var nMethods := buf[1] as nat;
    status := socks.ReadExact(buf, nMethods);
    if status != Done { return false, before, status == Failed; }
    assert input[2..][..nMethods] == input[2..2 + nMethods] && input[2..][nMethods..] == input[2 + nMethods..];
    var reply: seq<byte> := if 0 in buf[..nMethods] then [SOCKS_VERSION, 0] else [SOCKS_VERSION, NO_ACCEPTABLE];
    ghost var sent: nat;
    status, sent := socks.WriteAll(reply);
    before := reply[..sent];
    assert before <= reply;
    return status == Done && reply[1] == 0, before, status == Failed;
  }

  /** The request behind an accepted negotiation; only a refused command is answered here. */
  method ReadRequest(socks: TcpStream, lossy: Lossy, buf: array<byte>)
    returns (request: Option<(Text, nat)>, ghost reply: seq<byte>, ghost failed: bool)
    requires buf.Length == 512
    modifies socks, buf
    ensures socks.faults >= old(socks.faults) && (failed <==> socks.faults > old(socks.faults))
    ensures request.Some? ==> !failed
    ensures socks.written == old(socks.written) + reply
    ensures reply <= Reply(COMMAND_NOT_SUPPORTED)
    ensures !failed && request.None? ==>
      SocksRequest(lossy, old(socks.unread), 0) == Refused([SOCKS_VERSION, 0] + reply)
    ensures request.Some? ==> exists used ::
      && 0 <= used <= |old(socks.unread)| && reply == []
      && SocksRequest(lossy, old(socks.unread), 0) == Accepted(request.value.0, request.value.1, used)
      && socks.unread == old(socks.unread)[used..]
  {
    hide TakeAddress, FromU16, Reply, AddressText;
    ghost var input := socks.unread;
    assert input[0..] == input;
    reply, failed := [], false;
    var status := socks.ReadExact(buf, 4);
    if status != Done { return None, reply, status == Failed; }
    assert buf[1] == buf[..4][1] == input[1] && buf[3] == buf[..4][3] == input[3];
    if buf[1] != CONNECT {
      ghost var sent: nat;
      status, sent := socks.WriteAll(Reply(COMMAND_NOT_SUPPORTED));
      reply := Reply(COMMAND_NOT_SUPPORTED)[..sent];
      return None, reply, status == Failed;
    }
    var a := AddressTypeFromU8(buf[3]);
    if a.None? { return None, reply, false; }
    var t: Text;
    status, t := ReadAddress(socks, lossy, a.value, buf);
    if status != Done { return None, reply, status == Failed; }
    ghost var n :| 0 <= n <= |input[4..]|
      && TakeAddress(lossy, a.value, input[4..]) == Some((t, n)) && socks.unread == input[4..][n..];
    assert input[4..][n..] == input[4 + n..];
    status := socks.ReadExact(buf, 2);
    if status != Done { return None, reply, status == Failed; }
    assert buf[..2] == input[4 + n..4 + n + 2];
    assert input[4 + n..][2..] == input[4 + n + 2..];
    return Some((t, FromU16(buf[..2]))), reply, false;
  }

  /** A request read after the negotiation is the dialogue on the whole input. */
  lemma RequestAtOffset(lossy: Lossy, input: seq<byte>, at: nat)
    requires at <= |input|
    ensures AcceptsNoAuth(input, at) ==> SocksDialogue(lossy, input) == SocksRequest(lossy, input, at)
    ensures match SocksRequest(lossy, input[at..], 0)
      case Accepted(t, port, used) => SocksRequest(lossy, input, at) == Accepted(t, port, at + used)
      case Refused(w) => SocksRequest(lossy, input, at) == Refused(w)
  {
    hide TakeAddress, FromU16;
    assert input[at..][0..] == input[at..];
  }

  /** The tunnel header, built by pushes. */
  method BuildHeader(address: Text, port: nat) returns (header: seq<byte>)
    ensures header == Header(address, port)
  {
    var (a, bytes) := EncodeAddress(address);
    header := [Code(a)];
    header := header + bytes;
    header := header + ToU16(port);
  }

  /** Everything the application is told before the relay, when no write to it fails. */
  function OutputFor(d: Dialogue, received: seq<FrameResult>): seq<byte> {
    match d
    case Refused(w) => w
    case Accepted(_, _, _) =>
      [SOCKS_VERSION, 0] +
      if received != [] && received[0].Frame? && received[0].plaintext != []
      then Reply(ReplyFor(received[0].plaintext[0])) else []
  }

  predicate AnsweredOk(received: seq<FrameResult>) {
    |received| == 1 && received[0].Frame? && received[0].plaintext != [] && received[0].plaintext[0] == 0
  }

  /** The tunnel's part of a session that reaches the relay: the header went out, and status 0 came back. */
  ghost predicate SetUp(tunnel: Tunnel)
    reads tunnel
  {
    tunnel.outcomes == [true] && AnsweredOk(tunnel.received)
  }

  /**
   A whole client session over any tunnel. `connection` is what the connector
   yields, null if it fails. `before` is what went to the application before
   the relay, `untouched` what of its bytes the relay starts from, and `failed`
   says whether the application's connection broke before the relay.
   */
  method HandleSocksClient(socks: TcpStream, lossy: Lossy, connection: Tunnel?)
    returns (end: ClientEnd, ghost before: seq<byte>, ghost untouched: seq<byte>, ghost failed: bool)
    requires connection != null ==> connection.Fresh()
    modifies socks, connection
    ensures CutOutput(before)
    ensures failed ==> socks.faults > old(socks.faults)
    ensures var received := if connection == null then [] else connection.received;
      !failed ==> before == OutputFor(SocksDialogue(lossy, old(socks.unread)), received)
    ensures end == NotRelayed ==> socks.written == old(socks.written) + before
    ensures end == Relayed ==>
      var d := SocksDialogue(lossy, old(socks.unread));
      && d.Accepted? && d.used <= |old(socks.unread)| && untouched == old(socks.unread)[d.used..]
      && before == [SOCKS_VERSION, 0] + Reply(0) && old(socks.written) + before <= socks.written
    ensures end == Relayed <==> connection != null && SetUp(connection) && !failed
    ensures connection != null ==> connection.relays == if end == Relayed then [socks] else []
    ensures connection != null && connection.sent != [] ==>
      var d := SocksDialogue(lossy, old(socks.unread));
      d.Accepted? && connection.sent == [Header(d.address, d.port)]
    ensures connection != null && !failed && SocksDialogue(lossy, old(socks.unread)).Accepted? ==>
      connection.sent != [] && |connection.received| == if connection.outcomes == [true] then 1 else 0
  {
    hide SocksRequest, SocksDialogue, Header, Reply, WellFormedOutput, CutOutput;
    end, untouched := NotRelayed, [];
    var buf := new byte[512];
    var accepted;
    accepted, before, failed := Negotiate(socks, lossy, buf);
    if !accepted { return; }
    ghost var at := 2 + old(socks.unread)[1] as nat;
    var request;
    ghost var reply: seq<byte>;
    request, reply, failed := ReadRequest(socks, lossy, buf);
    before := before + reply;
    CutReply(COMMAND_NOT_SUPPORTED, reply);
    RequestAtOffset(lossy, old(socks.unread), at);
    if request.None? || connection == null { return; }
    untouched := socks.unread;
    var (address, port) := request.value;
    var header := BuildHeader(address, port);
    ghost var d := SocksDialogue(lossy, old(socks.unread));
    assert d.Accepted? && d.address == address && d.port == port && untouched == old(socks.unread)[d.used..];
    end, reply, failed := RunTunnelClient(socks, connection, header);
    before := [SOCKS_VERSION, 0] + reply;
  }

  lemma CutReply(code: byte, part: seq<byte>)
    requires code in [0, 1, 2, 3, 4, 5, 7] && part <= Reply(code)
    ensures CutOutput([SOCKS_VERSION, 0] + part)
    ensures CutOutput([SOCKS_VERSION, 0])
  {
    var full := [SOCKS_VERSION, 0] + Reply(code);
    assert WellFormedOutput(full);
    assert [SOCKS_VERSION, 0] + part <= full;
  }

  /** Header out, status in, reply out, relay: the relay runs, once, exactly behind a whole success reply. */
  method RunTunnelClient(socks: TcpStream, tunnel: Tunnel, header: seq<byte>)
    returns (end: ClientEnd, ghost reply: seq<byte>, ghost failed: bool)
    requires tunnel.Fresh()
    modifies socks, tunnel
    ensures tunnel.sent == [header] && |tunnel.outcomes| == 1
    ensures |tunnel.received| == if tunnel.outcomes == [true] then 1 else 0
    ensures failed ==> socks.faults > old(socks.faults)
    ensures !failed ==> [SOCKS_VERSION, 0] + reply == OutputFor(Accepted([], 0, 0), tunnel.received)
    ensures CutOutput([SOCKS_VERSION, 0] + reply)
    ensures end == NotRelayed ==> socks.written == old(socks.written) + reply
    ensures end == Relayed ==> reply == Reply(0) && old(socks.written) + reply <= socks.written
    ensures end == Relayed <==> SetUp(tunnel) && !failed
    ensures tunnel.relays == if end == Relayed then [socks] else []
  {
    hide Reply;
    end, reply, failed := NotRelayed, [], false;
    CutReply(0, []);
    var ok := tunnel.SendFrame(header);
    assert tunnel.outcomes[0] == ok;
    if !ok { return; }
    var answer := tunnel.RecvFrame();
    if !answer.Frame? || answer.plaintext == [] { return; }
    var status := answer.plaintext[0];
    var code := ReplyFor(status);
    var io, sent := socks.WriteAll(Reply(code));
    reply, failed := Reply(code)[..sent], io != Done;
    CutReply(code, reply);
    assert !failed ==> reply == Reply(code);
    if status != 0 || io != Done { return; }
    tunnel.RelayBidirectional(socks);
    end := Relayed;
  }
}
