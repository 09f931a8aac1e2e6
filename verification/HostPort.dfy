/** `host:port` text: how the QUIC connector splits it and how the server prints it. */
module HostPort {
  import opened Bytes
  import opened IpText

  const PLUS: byte := 43
  const OPEN: byte := 91
  const CLOSE: byte := 93

  /** `rsplit_once(':')`: what is in front of the last colon and what is behind it. */
  function RSplitColon(t: Text): (r: Option<(Text, Text)>)
    ensures r.None? <==> COLON !in t
    ensures r.Some? ==> t == r.value.0 + [COLON] + r.value.1 && COLON !in r.value.1
  {
    if t == [] then None
    else
      var init, last := t[..|t| - 1], t[|t| - 1];
      assert t == init + [last];
      if last == COLON then Some((init, []))
      else
        match RSplitColon(init)
        case None => None
        case Some((a, b)) => Some((a, b + [last]))
  }

  predicate AllDigits(t: Text) {
    forall i :: 0 <= i < |t| ==> IsDigit(t[i], 10)
  }

  /** `str::parse::<u16>`: an optional plus sign, then decimal digits whose value fits. */
  function ParsePort(t: Text): (p: Option<nat>)
    ensures p.Some? ==> p.value < U16_SIZE
  {
    var digits := if t != [] && t[0] == PLUS then t[1..] else t;
    if digits == [] || !AllDigits(digits) then None
    else
      var v := Value(digits, 10);
      if v < U16_SIZE then Some(v) else None
  }

  /** `strip_prefix('[')` and then `strip_suffix(']')`, or the host as it is. */
  function Unbracketed(host: Text): Text {
    if Bracketed(host) then host[1..|host| - 1] else host
  }

  predicate Bracketed(host: Text) {
    |host| >= 2 && host[0] == OPEN && host[|host| - 1] == CLOSE
  }

  function SplitHostPort(addr: Text): Option<(Text, nat)> {
    match RSplitColon(addr)
    case None => None
    case Some((host, port)) =>
      match ParsePort(port)
      case None => None
      case Some(p) => Some((Unbracketed(host), p))
  }

  /** `format!("{host}:{port}")`. */
  function HostPortText(host: Text, port: nat): Text {
    host + [COLON] + Decimal(port)
  }

  // ---------------------------------------------------------------------------
  // Numbers of any size
  // ---------------------------------------------------------------------------

  lemma {:induction false} DecimalRoundTrip(n: nat)
    ensures Decimal(n) != [] && AllDigits(Decimal(n)) && Value(Decimal(n), 10) == n
  {
    if n < 10 {
      Value1(Decimal(n), 10);
    } else {
      DecimalRoundTrip(n / 10);
      var t := Decimal(n);
      assert t[..|t| - 1] == Decimal(n / 10) && t[|t| - 1] == 48 + n % 10;
    }
  }

  lemma PortRoundTrip(port: nat)
    requires port < U16_SIZE
    ensures ParsePort(Decimal(port)) == Some(port) && COLON !in Decimal(port)
  {
    hide Decimal, Value;
    DecimalRoundTrip(port);
    var t := Decimal(port);
    assert forall i :: 0 <= i < |t| ==> IsDigit(t[i], 10) && t[i] != COLON && t[i] != PLUS;
  }

  /**
   Which port texts are read: decimal numbers below 65536, with a plus sign or
   without and behind any zeros; a larger number, no digits at all or another
   character are refused.
   */
  lemma PortTexts(n: nat, zeros: nat, t: Text)
    ensures var digits := seq(zeros, i => 48 as byte) + Decimal(n);
      ParsePort(digits) == ParsePort([PLUS] + digits) == if n < U16_SIZE then Some(n) else None
    ensures ParsePort([]) == ParsePort([PLUS]) == None
    ensures (exists i :: 0 <= i < |t| && !IsDigit(t[i], 10) && (i > 0 || t[0] != PLUS)) ==> ParsePort(t) == None
  {
    hide Decimal, Value;
    var digits: Text := seq(zeros, i => 48 as byte) + Decimal(n);
    DecimalRoundTrip(n);
    LeadingZeros(zeros, Decimal(n));
    assert IsDigit(digits[0], 10) && digits[0] != PLUS;
    assert ([PLUS] + digits)[1..] == digits;
    if i :| 0 <= i < |t| && !IsDigit(t[i], 10) && (i > 0 || t[0] != PLUS) {
      assert t[0] == PLUS ==> t[1..][i - 1] == t[i];
    }
  }

  lemma {:induction false} LeadingZeros(zeros: nat, t: Text)
    requires AllDigits(t)
    ensures var digits := seq(zeros, i => 48 as byte) + t;
      AllDigits(digits) && Value(digits, 10) == Value(t, 10)
    decreases |t|, zeros
  {
    var pad: Text := seq(zeros, i => 48 as byte);
    var digits := pad + t;
    if t == [] {
      assert digits == pad;
      if zeros > 0 {
        LeadingZeros(zeros - 1, t);
        var less: Text := seq(zeros - 1, i => 48 as byte);
        assert less + t == less && digits[..|digits| - 1] == less;
      }
    } else {
      LeadingZeros(zeros, t[..|t| - 1]);
      assert digits[..|digits| - 1] == pad + t[..|t| - 1] && digits[|digits| - 1] == t[|t| - 1];
    }
  }

  // ---------------------------------------------------------------------------
  // Splitting what was printed
  // ---------------------------------------------------------------------------

  /** The last colon is the one behind which no other follows. */
  lemma LastColon(a: Text, b: Text)
    requires COLON !in b
    ensures RSplitColon(a + [COLON] + b) == Some((a, b))
  {
    hide RSplitColon;
    var t := a + [COLON] + b;
    assert t[|a|] == COLON;
    var (x, y) := RSplitColon(t).value;
    assert t == x + [COLON] + y;
    assert forall k :: |x| < k < |t| ==> t[k] == y[k - |x| - 1] && t[k] != COLON;
    assert forall k :: |a| < k < |t| ==> t[k] == b[k - |a| - 1] && t[k] != COLON;
    assert t[|x|] == COLON;
    assert x == t[..|a|] == a && y == t[|a| + 1..] == b;
  }

  /**
   Splitting `host:port` gives back host and port exactly when the host is not
   wrapped in brackets; colons in it do no harm. Splitting `[host]:port` gives
   them back for every host.
   */
  lemma SplitPrinted(host: Text, port: nat)
    requires port < U16_SIZE
    ensures SplitHostPort(HostPortText(host, port)) == Some((host, port)) <==> !Bracketed(host)
    ensures SplitHostPort(HostPortText([OPEN] + host + [CLOSE], port)) == Some((host, port))
  {
    hide RSplitColon, ParsePort, Decimal;
    PortRoundTrip(port);
    LastColon(host, Decimal(port));
    var wrapped := [OPEN] + host + [CLOSE];
    LastColon(wrapped, Decimal(port));
    assert wrapped[1..|wrapped| - 1] == host;
  }

  /** What can be split is a host, a colon and a port text; printing the result again gives the same port. */
  lemma SplitMeaning(addr: Text)
    ensures SplitHostPort(addr).Some? <==>
      exists host: Text, port: Text :: addr == host + [COLON] + port && COLON !in port && ParsePort(port).Some?
    ensures SplitHostPort(addr).Some? ==>
      var (host, p) := SplitHostPort(addr).value;
      p < U16_SIZE && SplitHostPort(HostPortText([OPEN] + host + [CLOSE], p)) == Some((host, p))
  {
    hide RSplitColon, ParsePort, HostPortText;
    if host: Text, port: Text :| addr == host + [COLON] + port && COLON !in port && ParsePort(port).Some? {
      LastColon(host, port);
    }
    if SplitHostPort(addr).Some? {
      var (host, p) := SplitHostPort(addr).value;
      SplitPrinted(host, p);
    }
  }

  /** The `target:port` text that the server connects to splits back into its IPv4 or IPv6 address and port. */
  lemma PrintedTargetSplits(o: seq<byte>, port: nat)
    requires port < U16_SIZE
    ensures |o| == 4 ==> SplitHostPort(HostPortText(PrintV4(o), port)) == Some((PrintV4(o), port))
    ensures |o| == 16 ==> SplitHostPort(HostPortText(PrintV6(o), port)) == Some((PrintV6(o), port))
  {
    hide HostPortText, SplitHostPort, JoinGroups;
    if |o| == 4 {
      DecimalOctet(o[0]);
      assert PrintV4(o)[0] == Decimal(o[0])[0];
      assert IsDigit(Decimal(o[0])[0], 10);
      SplitPrinted(PrintV4(o), port);
    }
    if |o| == 16 {
      FirstHexDigit(o);
      SplitPrinted(PrintV6(o), port);
    }
  }

  lemma FirstHexDigit(o: seq<byte>)
    requires |o| == 16
    ensures PrintV6(o) != [] && PrintV6(o)[0] != OPEN
  {
    hide HexDigit, JoinGroups;
    JoinGroupsUnfold(HexGroups(o), 0);
    assert PrintV6(o) == [] + (Hex4(o[0], o[1]) + JoinGroups(HexGroups(o), 1));
    assert PrintV6(o)[0] == HexDigit(o[0] / 16);
    HexIsNoBracket(o[0] / 16);
  }

  lemma HexIsNoBracket(n: nat)
    requires n < 16
    ensures HexDigit(n) != OPEN
  {
  }
}
