/** Addresses and the tunnel header: what the client sends about the target and what the server reads. */
module Protocol {
  import opened Bytes
  import opened Streams
  import opened IpText

  datatype AddressType = Ipv4 | Domain | Ipv6

  function Code(a: AddressType): byte {
    match a case Ipv4 => 1 case Domain => 3 case Ipv6 => 4
  }

  function AddressTypeFromU8(v: byte): (a: Option<AddressType>)
    ensures a.Some? ==> Code(a.value) == v
    ensures a.None? <==> v !in [1, 3, 4]
  {
    if v == 1 then Some(Ipv4) else if v == 3 then Some(Domain) else if v == 4 then Some(Ipv6) else None
  }

  /**
   `String::from_utf8_lossy`, by its laws: the result is a Rust string, which
   decodes to itself; a byte grows to at most three; and a string cut anywhere
   has at most one incomplete character, so its decoding is at most two bytes
   longer than the cut.
   */
  type Lossy = seq<byte> -> Text

  ghost predicate IsString(lossy: Lossy, t: Text) { lossy(t) == t }

  ghost predicate LossyLaws(lossy: Lossy) {
    && (forall b :: IsString(lossy, lossy(b)) && |lossy(b)| <= 3 * |b|)
    && (forall t: Text, n: nat {:trigger t[..n], IsString(lossy, t)} ::
          IsString(lossy, t) && n <= |t| ==> |lossy(t[..n])| <= n + 2)
  }

  function Repeated(b: byte, k: nat): (s: seq<byte>)
    ensures |s| == k
  {
    seq(k, i => b)
  }

  /** U+FFFD, k times. */
  function Replacements(k: nat): (s: seq<byte>)
    ensures |s| == 3 * k
  {
    if k == 0 then [] else [0xEF, 0xBF, 0xBD] + Replacements(k - 1)
  }

  /** A byte FF is never part of a character: each decodes to U+FFFD of its own. */
  ghost predicate ReplacesFF(lossy: Lossy) {
    forall k: nat :: lossy(Repeated(0xFF, k)) == Replacements(k)
  }

  /** A decoder that only replaces FF, which shows that the laws can be met together. */
  function WitnessLossy(b: seq<byte>): Text {
    if b == [] then [] else (if b[0] == 0xFF then [0xEF, 0xBF, 0xBD] else [b[0]]) + WitnessLossy(b[1..])
  }

  lemma {:induction false} WitnessLossyText(b: seq<byte>)
    ensures 0xFF !in WitnessLossy(b) && |WitnessLossy(b)| <= 3 * |b|
    ensures 0xFF !in b ==> WitnessLossy(b) == b
  {
    if b != [] { WitnessLossyText(b[1..]); }
  }

  lemma {:induction false} WitnessReplaces(k: nat)
    ensures WitnessLossy(Repeated(0xFF, k)) == Replacements(k)
  {
    if k > 0 {
      assert Repeated(0xFF, k)[1..] == Repeated(0xFF, k - 1);
      WitnessReplaces(k - 1);
    }
  }

  lemma WitnessLossyIsLawful()
    ensures LossyLaws(WitnessLossy) && ReplacesFF(WitnessLossy)
  {
    hide WitnessLossy, Repeated, Replacements;
    var lossy: Lossy := WitnessLossy;
    forall b
      ensures IsString(lossy, lossy(b)) && |lossy(b)| <= 3 * |b|
    {
      WitnessLossyText(b);
      WitnessLossyText(WitnessLossy(b));
    }
    forall t: Text, n: nat {:trigger t[..n], IsString(lossy, t)} | IsString(lossy, t) && n <= |t|
      ensures |lossy(t[..n])| <= n + 2
    {
      WitnessLossyText(t);
      assert 0xFF !in t;
      WitnessLossyText(t[..n]);
    }
    forall k: nat
      ensures lossy(Repeated(0xFF, k)) == Replacements(k)
    {
      WitnessReplaces(k);
    }
  }

  /** The text of an address received in SOCKS or header form. */
  function AddressText(lossy: Lossy, a: AddressType, raw: seq<byte>): Text
    requires a.Ipv4? ==> |raw| == 4
    requires a.Ipv6? ==> |raw| == 16
  {
    match a
    case Ipv4 => PrintV4(raw)
    case Domain => lossy(raw)
    case Ipv6 => PrintV6(raw)
  }

  /** The domain length is cast to u8. */
  function EncodeAddress(t: Text): (AddressType, seq<byte>) {
    match ParseV4(t)
    case Some(o) => (Ipv4, o)
    case None =>
      match ParseV6(t)
      case Some(o) => (Ipv6, o)
      case None => (Domain, [|t| % 256] + t)
  }

  function Header(t: Text, port: nat): seq<byte> {
    var (a, bytes) := EncodeAddress(t);
    [Code(a)] + bytes + ToU16(port)
  }

  datatype Target = Target(atyp: AddressType, address: Text, port: nat)

  /** The address field behind the type byte: how many bytes it takes, and its raw address. */
  function AddressField(a: AddressType, data: seq<byte>): Option<(nat, seq<byte>)> {
    match a
    case Ipv4 => if |data| < 1 + 4 + 2 then None else Some((4, data[1..5]))
    case Ipv6 => if |data| < 1 + 16 + 2 then None else Some((16, data[1..17]))
    case Domain =>
      if |data| < 1 + 1 then None
      else
        var len := data[1] as nat;
        if |data| < 1 + (1 + len) + 2 then None else Some((1 + len, data[2..2 + len]))
  }

  function ParseHeader(lossy: Lossy, data: seq<byte>): Option<Target> {
    if data == [] then None
    else
      match AddressTypeFromU8(data[0])
      case None => None
      case Some(a) =>
        match AddressField(a, data)
        case None => None
        case Some((n, raw)) => Some(Target(a, AddressText(lossy, a, raw), FromU16(data[1 + n..1 + n + 2])))
  }

  /** Where an address text leads: sixteen or four octets, or a name to look up. */
  datatype Destination = V4(octets: seq<byte>) | V6(octets: seq<byte>) | Name(name: Text)

  function DestinationOf(t: Text): Destination {
    match ParseV4(t)
    case Some(o) => V4(o)
    case None =>
      match ParseV6(t)
      case Some(o) => V6(o)
      case None => Name(t)
  }

  // ---------------------------------------------------------------------------
  // The header preserves the target
  // ---------------------------------------------------------------------------

  lemma IpHeaderParses(lossy: Lossy, t: Text, port: nat)
    requires port < U16_SIZE && !DestinationOf(t).Name?
    ensures ParseHeader(lossy, Header(t, port))
         == Some(Target(EncodeAddress(t).0, AddressText(lossy, EncodeAddress(t).0, EncodeAddress(t).1), port))
  {
    hide ParseV4, ParseV6, PrintV4, PrintV6, ToU16, FromU16;
    U16RoundTrip(port);
    var (a, o) := EncodeAddress(t);
    var h := Header(t, port);
    assert h[1..1 + |o|] == o && h[1 + |o|..1 + |o| + 2] == ToU16(port);
  }

  /** A name is cut to its length modulo 256; a short one is read whole, with the port. */
  lemma NameHeaderParses(lossy: Lossy, t: Text, port: nat)
    requires port < U16_SIZE && DestinationOf(t).Name?
    ensures ParseHeader(lossy, Header(t, port)).Some?
    ensures ParseHeader(lossy, Header(t, port)).value.address == lossy(t[..|t| % 256])
    ensures |t| <= 255 ==> ParseHeader(lossy, Header(t, port)) == Some(Target(Domain, lossy(t), port))
  {
    hide ParseV4, ParseV6, ToU16, FromU16;
    U16RoundTrip(port);
    var h := Header(t, port);
    var len := |t| % 256;
    var body := [3, len] + t;
    assert h == body + ToU16(port);
    assert h[0] == 3 && h[1] == len && h[2..2 + len] == t[..len];
    assert h[|body|..|body| + 2] == ToU16(port);
    if |t| <= 255 {
      assert t[..len] == t && |body| == 2 + len;
    }
  }

  /** How an address stands in a SOCKS request and in a header: a name behind its length. */
  function AddressBytes(a: AddressType, raw: seq<byte>): seq<byte>
    requires |raw| <= 255
  {
    if a.Domain? then [|raw|] + raw else raw
  }

  /** The right size for its type. */
  predicate Sized(a: AddressType, raw: seq<byte>) {
    |raw| <= 255 && (a.Ipv4? ==> |raw| == 4) && (a.Ipv6? ==> |raw| == 16)
  }

  /**
   Any header byte by byte: type, address and port are read, whatever stands
   behind them; cut short, or of another type, it is refused.
   */
  lemma HeaderReading(lossy: Lossy, a: AddressType, raw: seq<byte>, port: nat, tail: seq<byte>, other: byte)
    requires Sized(a, raw) && port < U16_SIZE && other !in [1, 3, 4]
    ensures var h := [Code(a)] + AddressBytes(a, raw) + [port / 256, port % 256];
      && ParseHeader(lossy, h + tail) == Some(Target(a, AddressText(lossy, a, raw), port))
      && (forall n :: 0 <= n < |h| ==> ParseHeader(lossy, h[..n]) == None)
    ensures ParseHeader(lossy, [other] + tail) == None
  {
    hide AddressText;
    var field, port2 := AddressBytes(a, raw), [(port / 256) as byte, (port % 256) as byte];
    var h := [Code(a)] + field + port2;
    var data := h + tail;
    match a {
      case Ipv4 => assert data[1..5] == raw && data[5..7] == port2;
      case Ipv6 => assert data[1..17] == raw && data[17..19] == port2;
      case Domain => assert data[2..2 + |raw|] == raw && data[2 + |raw|..4 + |raw|] == port2;
    }
    forall n | 0 <= n < |h|
      ensures ParseHeader(lossy, h[..n]) == None
    {
      if n > 0 { assert h[..n][0] == Code(a); }
      if n > 1 && a.Domain? { assert h[..n][1] == |raw|; }
    }
  }

  /** The header byte by byte: type, address, and the port most significant byte first; a name stands behind its length. */
  lemma HeaderLayout(t: Text, port: nat)
    requires port < U16_SIZE
    ensures match DestinationOf(t)
      case V4(o) => Header(t, port) == [1] + o + [port / 256, port % 256]
      case V6(o) => Header(t, port) == [4] + o + [port / 256, port % 256]
      case Name(_) => |t| <= 255 ==> Header(t, port) == [3, |t|] + t + [port / 256, port % 256]
  {
    hide ParseV4, ParseV6;
    assert ToU16(port) == [port / 256, port % 256];
    assert [3] + ([|t| % 256] + t) == [3, |t| % 256] + t;
  }

  lemma PrintedDestination(lossy: Lossy, o: seq<byte>)
    ensures |o| == 4 ==> DestinationOf(PrintV4(o)) == V4(o)
    ensures |o| == 16 ==> DestinationOf(PrintV6(o)) == V6(o)
  {
    if |o| == 4 { V4RoundTrip(o); }
    if |o| == 16 { V6RoundTrip(o); }
  }

  /**
   The server's reading of the client's header always succeeds, and names the
   same destination and port exactly when a name is at most 255 bytes long.
   IPv4 addresses and names come back as the same text.
   */
  lemma TargetPreserved(lossy: Lossy, t: Text, port: nat)
    requires LossyLaws(lossy) && port < U16_SIZE && (DestinationOf(t).Name? ==> IsString(lossy, t))
    ensures ParseHeader(lossy, Header(t, port)).Some?
    ensures var p := ParseHeader(lossy, Header(t, port)).value;
      && (DestinationOf(p.address) == DestinationOf(t) && p.port == port <==> (DestinationOf(t).Name? ==> |t| <= 255))
      && ((DestinationOf(t).Name? ==> |t| <= 255) && !DestinationOf(t).V6? ==> p.address == t)
      && p.port < U16_SIZE
  {
    hide ParseV4, ParseV6, PrintV4, PrintV6, Header, ToU16;
    var p := ParseHeader(lossy, Header(t, port));
    if DestinationOf(t).Name? {
      NameHeaderParses(lossy, t, port);
      var cut := t[..|t| % 256];
      assert IsString(lossy, t);
      assert |lossy(cut)| <= |cut| + 2;
      assert |t| > 255 ==> |cut| + 2 < |t|;
    } else {
      IpHeaderParses(lossy, t, port);
      V4Canonical(t);
      PrintedDestination(lossy, EncodeAddress(t).1);
    }
  }

  /** What the SOCKS client asked for. */
  function Requested(lossy: Lossy, a: AddressType, raw: seq<byte>): Destination
    requires a.Ipv4? ==> |raw| == 4
    requires a.Ipv6? ==> |raw| == 16
  {
    match a
    case Ipv4 => V4(raw)
    case Ipv6 => V6(raw)
    case Domain => DestinationOf(lossy(raw))
  }

  /** From the SOCKS request to the server: every address type, every byte string, every port. */
  lemma EndToEndTarget(lossy: Lossy, a: AddressType, raw: seq<byte>, port: nat)
    requires LossyLaws(lossy) && port < U16_SIZE
    requires (a.Ipv4? ==> |raw| == 4) && (a.Ipv6? ==> |raw| == 16)
    ensures DestinationOf(AddressText(lossy, a, raw)) == Requested(lossy, a, raw)
    ensures var parsed := ParseHeader(lossy, Header(AddressText(lossy, a, raw), port));
      && parsed.Some?
      && (DestinationOf(parsed.value.address) == Requested(lossy, a, raw) && parsed.value.port == port
          <==> (Requested(lossy, a, raw).Name? ==> |lossy(raw)| <= 255))
  {
    hide ParseV4, ParseV6, PrintV4, PrintV6, Header, ParseHeader;
    var t := AddressText(lossy, a, raw);
    PrintedDestination(lossy, raw);
    assert a.Domain? ==> IsString(lossy, lossy(raw));
    TargetPreserved(lossy, t, port);
  }

  /**
   Parsing the header normalises the address: encoding it again gives the same
   type and bytes, and a second round changes nothing.
   */
  lemma HeaderNormalises(lossy: Lossy, t: Text, port: nat)
    requires LossyLaws(lossy) && port < U16_SIZE && (DestinationOf(t).Name? ==> IsString(lossy, t) && |t| <= 255)
    ensures ParseHeader(lossy, Header(t, port)).Some?
    ensures var p := ParseHeader(lossy, Header(t, port)).value;
      && p.atyp == EncodeAddress(t).0
      && EncodeAddress(p.address) == EncodeAddress(t)
      && ParseHeader(lossy, Header(p.address, port)) == Some(p)
  {
    hide ParseV4, ParseV6, PrintV4, PrintV6, ToU16;
    if DestinationOf(t).Name? {
      NameHeaderParses(lossy, t, port);
    } else {
      IpHeaderParses(lossy, t, port);
      PrintedDestination(lossy, EncodeAddress(t).1);
    }
  }

  /** The header of any SOCKS request fits into one frame of either tunnel. */
  lemma HeaderFits(lossy: Lossy, a: AddressType, raw: seq<byte>, port: nat)
    requires LossyLaws(lossy) && |raw| <= 255
    requires (a.Ipv4? ==> |raw| == 4) && (a.Ipv6? ==> |raw| == 16)
    ensures 1 <= |Header(AddressText(lossy, a, raw), port)| <= 3 * 255 + 4
  {
    hide ParseV4, ParseV6, PrintV4, PrintV6, ToU16;
    PrintedDestination(lossy, raw);
  }

  /**
   A name of 256 bytes given to the encoder is sent with length 0, and the server
   is asked for the empty name. Raw names have at most 255 bytes, so it takes
   undecodable ones to get there: see GarbledName.
   */
  lemma LongNameLost(lossy: Lossy)
    requires LossyLaws(lossy) && IsString(lossy, LongName())
    ensures ParseHeader(lossy, Header(LongName(), 80)).Some?
    ensures ParseHeader(lossy, Header(LongName(), 80)).value.address == []
  {
    hide ParseV6, Header;
    NoNumberInLongName();
    NameHeaderParses(lossy, LongName(), 80);
    assert LongName()[..0] == [];
  }

  /** 256 times the letter z. */
  function LongName(): (t: Text)
    ensures |t| == 256
  {
    seq(256, i => 122)
  }

  lemma NoNumberInLongName()
    ensures DestinationOf(LongName()).Name?
  {
    var t := LongName();
    assert t[0] == 122 && ParseV4(t) == None;
    assert ReadOctet(t) == None && ReadV4(t) == None;
    assert ReadNumber(t, 16, 4, true, 0xFFFF) == None;
    assert ReadGroups(t, 0, 8) == Groups([], false, t);
  }

  /** A name that starts with U+FFFD is no IP literal. */
  lemma ReplacementIsName(t: Text)
    requires t != [] && t[0] == 0xEF
    ensures DestinationOf(t) == Name(t)
  {
    assert ReadOctet(t) == None && ReadV4(t) == None;
    assert ReadNumber(t, 16, 4, true, 0xFFFF) == None;
    assert ReadGroups(t, 0, 8) == Groups([], false, t);
  }

  /**
   A request that the header does not carry: 86 bytes FF as the name. It decodes
   to 258 bytes, whose length is cut to 2, so the server reads the first two as
   the name and the next two as the port, whatever was asked for.
   */
  lemma GarbledName(lossy: Lossy, port: nat)
    requires LossyLaws(lossy) && ReplacesFF(lossy) && port < U16_SIZE
    ensures var t := AddressText(lossy, Domain, Repeated(0xFF, 86));
      && |t| == 258
      && ParseHeader(lossy, Header(t, port)) == Some(Target(Domain, lossy([0xEF, 0xBF]), 0xBDEF))
      && DestinationOf(lossy([0xEF, 0xBF])) != Requested(lossy, Domain, Repeated(0xFF, 86))
  {
    hide DestinationOf, Repeated, Replacements, Header, ParseHeader, FromU16;
    var t := AddressText(lossy, Domain, Repeated(0xFF, 86));
    ReplacementBytes(84);
    ReplacementIsName(t);
    MisreadName(lossy, t, port);
    FirstTwo([0xBD, 0xEF]);
    assert |lossy([0xEF, 0xBF])| <= 6;
    NamesDiffer(lossy([0xEF, 0xBF]), t);
  }

  lemma ReplacementBytes(k: nat)
    ensures var t := Replacements(k + 2); t[0] == 0xEF && t[..2] == [0xEF, 0xBF] && t[2..4] == [0xBD, 0xEF]
  {
    assert Replacements(k + 2) == [0xEF, 0xBF, 0xBD] + ([0xEF, 0xBF, 0xBD] + Replacements(k));
  }

  lemma FirstTwo(s: seq<byte>)
    requires |s| == 2
    ensures FromU16(s) == 256 * s[0] as int + s[1] as int
  {
  }

  /** A name of 258 bytes is read as its first two bytes, and the port as the next two. */
  lemma MisreadName(lossy: Lossy, t: Text, port: nat)
    requires DestinationOf(t).Name? && |t| == 258
    ensures ParseHeader(lossy, Header(t, port)) == Some(Target(Domain, lossy(t[..2]), FromU16(t[2..4])))
  {
    hide DestinationOf, EncodeAddress, ToU16, FromU16;
    NotALiteral(t);
    var h := Header(t, port);
    assert h == [3] + ([2] + t) + ToU16(port);
    assert h[0] == 3 && h[1] == 2 && h[2..4] == t[..2] && h[4..6] == t[2..4];
  }

  lemma NotALiteral(t: Text)
    requires DestinationOf(t).Name?
    ensures EncodeAddress(t) == (Domain, [|t| % 256] + t)
  {
    hide ParseV4, ParseV6;
  }

  lemma NamesDiffer(a: Text, b: Text)
    requires DestinationOf(b) == Name(b) && a != b
    ensures DestinationOf(a) != DestinationOf(b)
  {
    hide ParseV4, ParseV6;
  }

  // ---------------------------------------------------------------------------
  // Reading the address off the SOCKS connection
  // ---------------------------------------------------------------------------

  /** The address at the front of the input and the number of bytes it takes. */
  function TakeAddress(lossy: Lossy, a: AddressType, input: seq<byte>): Option<(Text, nat)> {
    match a
    case Ipv4 => if |input| < 4 then None else Some((AddressText(lossy, a, input[..4]), 4))
    case Ipv6 => if |input| < 16 then None else Some((AddressText(lossy, a, input[..16]), 16))
    case Domain =>
      if |input| < 1 then None
      else
        var len := input[0] as nat;
        if |input| < 1 + len then None else Some((AddressText(lossy, a, input[1..1 + len]), 1 + len))
  }

  /** The address in front of anything is taken, and no more; cut short it is not. */
  lemma TakesItsBytes(lossy: Lossy, a: AddressType, raw: seq<byte>, rest: seq<byte>)
    requires Sized(a, raw)
    ensures TakeAddress(lossy, a, AddressBytes(a, raw) + rest) == Some((AddressText(lossy, a, raw), |AddressBytes(a, raw)|))
    ensures forall n :: 0 <= n < |AddressBytes(a, raw)| ==> TakeAddress(lossy, a, AddressBytes(a, raw)[..n]) == None
  {
    hide AddressText;
    var input := AddressBytes(a, raw) + rest;
    match a {
      case Ipv4 => assert input[..4] == raw;
      case Ipv6 => assert input[..16] == raw;
      case Domain => assert input[1..1 + |raw|] == raw;
    }
  }

  method ReadAddress(stream: TcpStream, lossy: Lossy, a: AddressType, buf: array<byte>)
    returns (status: IoStatus, t: Text)
    requires buf.Length >= 255
    modifies stream`unread, stream`faults, buf
    ensures status == Failed <==> stream.faults > old(stream.faults)
    ensures status != Failed ==> stream.faults == old(stream.faults)
    ensures status == Eof ==> TakeAddress(lossy, a, old(stream.unread)) == None
    ensures status == Done ==> exists n ::
      && 0 <= n <= |old(stream.unread)|
      && TakeAddress(lossy, a, old(stream.unread)) == Some((t, n))
      && stream.unread == old(stream.unread)[n..]
  {
    hide PrintV4, PrintV6;
    ghost var input := stream.unread;
    t := [];
    match a {
      case Ipv4 =>
        status := stream.ReadExact(buf, 4);
        if status == Done { t := PrintV4(buf[..4]); }
      case Domain =>
        status := stream.ReadExact(buf, 1);
        if status == Done {
          assert buf[0] == buf[..1][0];
          var len := buf[0] as nat;
          status := stream.ReadExact(buf, len);
          if status == Done {
            assert input[1..][..len] == input[1..1 + len] && input[1..][len..] == input[1 + len..];
            t := lossy(buf[..len]);
          }
        }
      case Ipv6 =>
        status := stream.ReadExact(buf, 16);
        if status == Done { t := PrintV6(buf[..16]); }
    }
  }
}
