/**
 IP addresses as text. The readers are those of Rust's std::net, which is not
 part of this repository: decimal octets without leading zeros, and the IPv6
 forms of section 2.2 of RFC 4291. Text is the bytes of a Rust string.
 */
module IpText {
  import opened Bytes

  type Text = seq<byte>

  const DOT: byte := 46
  const COLON: byte := 58

  // ---------------------------------------------------------------------------
  // Numbers
  // ---------------------------------------------------------------------------

  /** The value of a digit in any radix up to 16; 99 for other bytes. */
  function Digit(b: byte): nat {
    if 48 <= b <= 57 then b - 48
    else if 97 <= b <= 102 then b - 87
    else if 65 <= b <= 70 then b - 55
    else 99
  }

  predicate IsDigit(b: byte, radix: nat) {
    Digit(b) < radix
  }

  /** How many digits the text starts with. */
  function Run(t: Text, radix: nat): (n: nat)
    ensures n <= |t|
    ensures forall i :: 0 <= i < n ==> IsDigit(t[i], radix)
    ensures n < |t| ==> !IsDigit(t[n], radix)
  {
    if t == [] || !IsDigit(t[0], radix) then 0 else 1 + Run(t[1..], radix)
  }

  function Value(digits: Text, radix: nat): nat {
    if digits == [] then 0
    else Value(digits[..|digits| - 1], radix) * radix + Digit(digits[|digits| - 1])
  }

  /** `read_number`: all the leading digits, unless there are none or too many. */
  function ReadNumber(t: Text, radix: nat, maxDigits: nat, allowZeroPrefix: bool, limit: nat): Option<(nat, Text)> {
    var n := Run(t, radix);
    if n == 0 || n > maxDigits then None
    else if !allowZeroPrefix && t[0] == 48 && n > 1 then None
    else
      var v := Value(t[..n], radix);
      if v > limit then None else Some((v, t[n..]))
  }

  function Decimal(n: nat): Text {
    if n < 10 then [48 + n] else Decimal(n / 10) + [48 + n % 10]
  }

  function HexDigit(n: nat): byte
    requires n < 16
  {
    if n < 10 then 48 + n else 87 + n
  }

  // ---------------------------------------------------------------------------
  // IPv4
  // ---------------------------------------------------------------------------

  function PrintV4(o: seq<byte>): Text
    requires |o| == 4
  {
    Decimal(o[0]) + ([DOT] + (Decimal(o[1]) + ([DOT] + (Decimal(o[2]) + ([DOT] + Decimal(o[3]))))))
  }

  function ReadOctet(t: Text): Option<(nat, Text)> {
    ReadNumber(t, 10, 3, false, 255)
  }

  /** Octets still to read, each but the first behind a dot. */
  function ReadOctets(t: Text, count: nat, first: bool): (r: Option<(seq<byte>, Text)>)
    ensures r.Some? ==> |r.value.0| == count
    decreases count
  {
    if count == 0 then Some(([], t))
    else if !first && (t == [] || t[0] != DOT) then None
    else
      match ReadOctet(if first then t else t[1..])
      case None => None
      case Some((v, rest)) =>
        match ReadOctets(rest, count - 1, false)
        case None => None
        case Some((os, end)) => Some(([v as byte] + os, end))
  }

  function ReadV4(t: Text): (r: Option<(seq<byte>, Text)>)
    ensures r.Some? ==> |r.value.0| == 4
  {
    ReadOctets(t, 4, true)
  }

  function ParseV4(t: Text): (r: Option<seq<byte>>)
    ensures r.Some? ==> |r.value| == 4
  {
    if |t| > 15 then None
    else
      match ReadV4(t)
      case Some((o, rest)) => if rest == [] then Some(o) else None
      case None => None
  }

  // ---------------------------------------------------------------------------
  // IPv6
  // ---------------------------------------------------------------------------

  function Hex4(hi: byte, lo: byte): (t: Text)
    ensures |t| == 4
  {
    [HexDigit(hi / 16), HexDigit(hi % 16), HexDigit(lo / 16), HexDigit(lo % 16)]
  }

  /** The groups from i on, joined by colons; a colon comes before every group but the first. */
  function JoinGroups(gs: seq<Text>, i: nat): Text
    requires i <= |gs|
    decreases |gs| - i
  {
    if i == |gs| then [] else (if i == 0 then [] else [COLON]) + (gs[i] + JoinGroups(gs, i + 1))
  }

  function HexGroups(o: seq<byte>): (gs: seq<Text>)
    requires |o| % 2 == 0
    ensures |gs| == |o| / 2
  {
    seq(|o| / 2, i requires 0 <= i < |o| / 2 => Hex4(o[2 * i], o[2 * i + 1]))
  }

  /** All eight groups, four lower-case digits each. */
  function PrintV6(o: seq<byte>): Text
    requires |o| == 16
  {
    JoinGroups(HexGroups(o), 0)
  }

  function AfterSeparator(t: Text, i: nat): Option<Text> {
    if i == 0 then Some(t) else if t != [] && t[0] == COLON then Some(t[1..]) else None
  }

  function ReadV4At(t: Text, i: nat): (r: Option<(seq<byte>, Text)>)
    ensures r.Some? ==> |r.value.0| == 4
  {
    match AfterSeparator(t, i)
    case None => None
    case Some(s) => ReadV4(s)
  }

  function ReadGroupAt(t: Text, i: nat): Option<(nat, Text)> {
    match AfterSeparator(t, i)
    case None => None
    case Some(s) => ReadNumber(s, 16, 4, true, 0xFFFF)
  }

  datatype Groups = Groups(octets: seq<byte>, endedInV4: bool, rest: Text)

  /** `read_groups` from slot i of `limit`: a v4 tail needs two free slots. */
  function ReadGroups(t: Text, i: nat, limit: nat): Groups
    requires i <= limit
    decreases limit - i
  {
    if i == limit then Groups([], false, t)
    else
      var v4 := if i + 1 < limit then ReadV4At(t, i) else None;
      match v4
      case Some((o, rest)) => Groups(o, true, rest)
      case None =>
        match ReadGroupAt(t, i)
        case None => Groups([], false, t)
        case Some((g, rest)) =>
          var more := ReadGroups(rest, i + 1, limit);
          Groups([(g / 256) % 256, g % 256] + more.octets, more.endedInV4, more.rest)
  }

  lemma {:induction false} ReadGroupsSize(t: Text, i: nat, limit: nat)
    requires i <= limit
    ensures var n := |ReadGroups(t, i, limit).octets|; n <= 2 * (limit - i) && n % 2 == 0
    decreases limit - i
  {
    hide ReadNumber, ReadV4;
    if i < limit {
      var v4 := if i + 1 < limit then ReadV4At(t, i) else None;
      if v4.None? && ReadGroupAt(t, i).Some? {
        ReadGroupsSize(ReadGroupAt(t, i).value.1, i + 1, limit);
      }
    }
  }

  function Zeros(n: nat): (z: seq<byte>)
    ensures |z| == n
  {
    seq(n, i => 0)
  }

  function ReadV6(t: Text): (r: Option<(seq<byte>, Text)>)
    ensures r.Some? ==> |r.value.0| == 16
  {
    ReadGroupsSize(t, 0, 8);
    var head := ReadGroups(t, 0, 8);
    if |head.octets| == 16 then Some((head.octets, head.rest))
    else if head.endedInV4 then None
    else if |head.rest| < 2 || head.rest[0] != COLON || head.rest[1] != COLON then None
    else
      ReadGroupsSize(head.rest[2..], 0, 7 - |head.octets| / 2);
      var tail := ReadGroups(head.rest[2..], 0, 7 - |head.octets| / 2);
      Some((head.octets + Zeros(16 - |head.octets| - |tail.octets|) + tail.octets, tail.rest))
  }

  function ParseV6(t: Text): (r: Option<seq<byte>>)
    ensures r.Some? ==> |r.value| == 16
  {
    match ReadV6(t)
    case Some((o, rest)) => if rest == [] then Some(o) else None
    case None => None
  }

  // ---------------------------------------------------------------------------
  // Reading back what was printed
  // ---------------------------------------------------------------------------

  lemma {:induction false} RunOf(digits: Text, rest: Text, radix: nat)
    requires forall i :: 0 <= i < |digits| ==> IsDigit(digits[i], radix)
    requires rest == [] || !IsDigit(rest[0], radix)
    ensures Run(digits + rest, radix) == |digits|
  {
    if digits == [] {
      assert digits + rest == rest;
    } else {
      assert (digits + rest)[1..] == digits[1..] + rest;
      RunOf(digits[1..], rest, radix);
    }
  }

  lemma Value1(d: Text, radix: nat)
    requires |d| == 1
    ensures Value(d, radix) == Digit(d[0])
  {
    assert d[..0] == [];
  }

  lemma Value2(d: Text, radix: nat)
    requires |d| == 2
    ensures Value(d, radix) == Digit(d[0]) * radix + Digit(d[1])
  {
    Value1(d[..1], radix);
  }

  lemma Value3(d: Text, radix: nat)
    requires |d| == 3
    ensures Value(d, radix) == (Digit(d[0]) * radix + Digit(d[1])) * radix + Digit(d[2])
  {
    Value2(d[..2], radix);
  }

  lemma Value4(d: Text, radix: nat)
    requires |d| == 4
    ensures Value(d, radix)
         == ((Digit(d[0]) * radix + Digit(d[1])) * radix + Digit(d[2])) * radix + Digit(d[3])
  {
    Value3(d[..3], radix);
  }

  /** The decimal text of an octet: at most three digits, no leading zero, and its value. */
  lemma DecimalOctet(n: byte)
    ensures var t := Decimal(n);
      && 1 <= |t| <= 3
      && (forall i :: 0 <= i < |t| ==> IsDigit(t[i], 10))
      && Value(t, 10) == n
      && (|t| > 1 ==> t[0] != 48)
  {
    var t := Decimal(n);
    if n < 10 {
      assert t == [48 + n];
      Value1(t, 10);
    } else if n < 100 {
      assert Decimal(n / 10) == [48 + n / 10];
      assert t == [48 + n / 10, 48 + n % 10];
      Value2(t, 10);
    } else {
      assert Decimal(n / 100) == [48 + n / 100];
      assert Decimal(n / 10) == [48 + n / 100, 48 + (n / 10) % 10];
      assert t == [48 + n / 100, 48 + (n / 10) % 10, 48 + n % 10];
      Value3(t, 10);
    }
  }

  lemma Decimal2(a: nat, b: nat)
    requires 1 <= a < 10 && b < 10
    ensures Decimal(10 * a + b) == [48 + a, 48 + b]
  {
    var n := 10 * a + b;
    assert n / 10 == a && n % 10 == b;
    assert Decimal(a) == [48 + a];
  }

  lemma Decimal3(a: nat, b: nat, c: nat)
    requires 1 <= a < 10 && b < 10 && c < 10
    ensures Decimal(100 * a + 10 * b + c) == [48 + a, 48 + b, 48 + c]
  {
    var n := 100 * a + 10 * b + c;
    assert n / 10 == 10 * a + b && n % 10 == c;
    Decimal2(a, b);
  }

  /** A digit string of that shape is the decimal text of its value. */
  lemma DecimalUnique(t: Text)
    requires 1 <= |t| <= 3
    requires forall i :: 0 <= i < |t| ==> IsDigit(t[i], 10)
    requires |t| > 1 ==> t[0] != 48
    ensures t == Decimal(Value(t, 10))
  {
    hide Value, Decimal;
    forall i | 0 <= i < |t|
      ensures t[i] == 48 + Digit(t[i]) && Digit(t[i]) < 10
    {
      assert IsDigit(t[i], 10);
    }
    if |t| == 1 {
      Value1(t, 10);
      DecimalDigit(Digit(t[0]));
    } else if |t| == 2 {
      Value2(t, 10);
      Decimal2(Digit(t[0]), Digit(t[1]));
    } else {
      Value3(t, 10);
      Decimal3(Digit(t[0]), Digit(t[1]), Digit(t[2]));
    }
  }

  lemma DecimalDigit(a: nat)
    requires a < 10
    ensures Decimal(a) == [48 + a]
  {
  }

  lemma ReadOctetOfDecimal(n: byte, rest: Text)
    requires rest == [] || !IsDigit(rest[0], 10)
    ensures ReadOctet(Decimal(n) + rest) == Some((n as nat, rest))
  {
    hide Decimal, Value, Run;
    DecimalOctet(n);
    var d := Decimal(n);
    RunOf(d, rest, 10);
    assert (d + rest)[..|d|] == d && (d + rest)[|d|..] == rest;
  }

  /** What the octet reader takes is the decimal text of what it returns. */
  lemma ReadOctetCanonical(t: Text)
    ensures ReadOctet(t).Some? ==>
      var (v, rest) := ReadOctet(t).value;
      v < 256 && t == Decimal(v) + rest
  {
    hide Decimal, Value;
    if ReadOctet(t).Some? {
      var n := Run(t, 10);
      DecimalUnique(t[..n]);
      assert t == t[..n] + t[n..];
    }
  }

  function PrintOctets(o: seq<byte>, first: bool): Text {
    if o == [] then [] else (if first then [] else [DOT]) + (Decimal(o[0]) + PrintOctets(o[1..], false))
  }

  lemma PrintV4IsPrintOctets(o: seq<byte>)
    requires |o| == 4
    ensures PrintV4(o) == PrintOctets(o, true)
  {
    hide Decimal;
    assert PrintOctets(o[4..], false) == [];
    assert o[3..][1..] == o[4..] && o[2..][1..] == o[3..] && o[1..][1..] == o[2..];
    assert PrintOctets(o[3..], false) == [DOT] + (Decimal(o[3]) + []);
    assert PrintOctets(o[2..], false) == [DOT] + (Decimal(o[2]) + PrintOctets(o[3..], false));
    assert PrintOctets(o[1..], false) == [DOT] + (Decimal(o[1]) + PrintOctets(o[2..], false));
  }

  lemma {:induction false} ReadOctetsOfPrint(o: seq<byte>, first: bool)
    ensures ReadOctets(PrintOctets(o, first), |o|, first) == Some((o, []))
    decreases |o|
  {
    hide Decimal, ReadOctet;
    if o != [] {
      var more := PrintOctets(o[1..], false);
      var t := PrintOctets(o, first);
      assert (if first then t else t[1..]) == Decimal(o[0]) + more;
      ReadOctetOfDecimal(o[0], more);
      ReadOctetsOfPrint(o[1..], false);
      assert [o[0]] + o[1..] == o;
    }
  }

  lemma {:induction false} ReadOctetsCanonical(t: Text, count: nat, first: bool)
    ensures ReadOctets(t, count, first).Some? ==>
      var (o, rest) := ReadOctets(t, count, first).value;
      |o| == count && t == PrintOctets(o, first) + rest
    decreases count
  {
    hide Decimal, ReadOctet;
    if count > 0 && ReadOctets(t, count, first).Some? {
      var s := if first then t else t[1..];
      ReadOctetCanonical(s);
      var (v, rest) := ReadOctet(s).value;
      ReadOctetsCanonical(rest, count - 1, false);
      var (more, end) := ReadOctets(rest, count - 1, false).value;
      OctetBehindSeparator(t, s, first, v, more, rest, end);
    }
  }

  lemma OctetBehindSeparator(t: Text, s: Text, first: bool, v: byte, more: seq<byte>, rest: Text, end: Text)
    requires if first then s == t else t != [] && t[0] == DOT && s == t[1..]
    requires s == Decimal(v) + rest && rest == PrintOctets(more, false) + end
    ensures t == PrintOctets([v] + more, first) + end
  {
    hide Decimal;
    assert ([v] + more)[1..] == more;
    assert t == (if first then [] else [DOT]) + s;
  }

  lemma PrintOctetsLength(o: seq<byte>)
    ensures |PrintOctets(o, true)| <= 4 * |o|
    ensures |PrintOctets(o, false)| <= 4 * |o|
    ensures o != [] ==> |PrintOctets(o, true)| == |PrintOctets(o, false)| - 1
  {
    hide Decimal;
    if o != [] {
      DecimalOctet(o[0]);
      PrintOctetsLength(o[1..]);
    }
  }

  /** Dotted decimal reads back as the four octets. */
  lemma V4RoundTrip(o: seq<byte>)
    requires |o| == 4
    ensures ParseV4(PrintV4(o)) == Some(o)
  {
    hide PrintV4;
    PrintV4IsPrintOctets(o);
    ReadOctetsOfPrint(o, true);
    PrintOctetsLength(o);
  }

  /** Only the canonical dotted decimal text of an address is accepted. */
  lemma V4Canonical(t: Text)
    ensures ParseV4(t).Some? ==> |ParseV4(t).value| == 4 && t == PrintV4(ParseV4(t).value)
  {
    hide PrintV4;
    if ParseV4(t).Some? {
      ReadOctetsCanonical(t, 4, true);
      PrintV4IsPrintOctets(ParseV4(t).value);
    }
  }

  /** One to four hexadecimal digits of either case. */
  predicate IsGroup(g: Text) {
    1 <= |g| <= 4 && forall i :: 0 <= i < |g| ==> IsDigit(g[i], 16)
  }

  predicate AllGroups(gs: seq<Text>) {
    forall i :: 0 <= i < |gs| ==> IsGroup(gs[i])
  }

  /** The octets that group texts stand for. */
  function GroupsValue(gs: seq<Text>): (o: seq<byte>)
    ensures |o| == 2 * |gs|
  {
    if gs == [] then []
    else
      var g := Value(gs[0], 16);
      [(g / 256) % 256, g % 256] + GroupsValue(gs[1..])
  }

  lemma GroupLimit(g: Text)
    requires IsGroup(g)
    ensures Value(g, 16) <= 0xFFFF
  {
    hide Value, Digit;
    assert forall i :: 0 <= i < |g| ==> IsDigit(g[i], 16) && Digit(g[i]) < 16;
    if |g| == 1 { Value1(g, 16); } else if |g| == 2 { Value2(g, 16); } else if |g| == 3 { Value3(g, 16); } else { Value4(g, 16); }
  }

  lemma Hex4IsGroup(hi: byte, lo: byte)
    ensures IsGroup(Hex4(hi, lo)) && Value(Hex4(hi, lo), 16) == hi * 256 + lo
  {
    hide Value;
    Value4(Hex4(hi, lo), 16);
  }

  /** A group in front of a colon or the end is read whole, and is no dotted decimal. */
  lemma GroupReads(g: Text, rest: Text)
    requires IsGroup(g) && (rest == [] || rest[0] == COLON)
    ensures ReadNumber(g + rest, 16, 4, true, 0xFFFF) == Some((Value(g, 16), rest))
    ensures ReadV4(g + rest) == None
  {
    hide Run, Value;
    var t := g + rest;
    RunOf(g, rest, 16);
    GroupLimit(g);
    assert t[..|g|] == g && t[|g|..] == rest;
    assert forall i :: 0 <= i < |g| ==> IsDigit(t[i], 16) && t[i] != DOT;
    NoDotNoV4(t, |g|);
  }

  /** A text with a colon or the end before any dot is no dotted decimal. */
  lemma NoDotNoV4(t: Text, n: nat)
    requires n <= |t| && forall i :: 0 <= i < n ==> t[i] != DOT
    requires n < |t| ==> t[n] == COLON
    ensures ReadV4(t) == None
  {
    hide Value;
    assert ReadOctets(t, 4, true) == ReadV4(t);
    if ReadOctet(t).Some? {
      var (v, rest) := ReadOctet(t).value;
      var k := Run(t, 10);
      assert rest == t[k..];
      if n < |t| { assert !IsDigit(t[n], 10); }
      assert k <= n;
      assert ReadOctets(rest, 3, false) == None;
    }
  }

  lemma GroupBehindSeparator(gs: seq<Text>, i: nat, rest: Text)
    requires i < |gs|
    ensures AfterSeparator(JoinGroups(gs, i) + rest, i) == Some(gs[i] + (JoinGroups(gs, i + 1) + rest))
    ensures JoinGroups(gs, i + 1) == [] || JoinGroups(gs, i + 1)[0] == COLON
  {
    hide JoinGroups, AfterSeparator;
    JoinGroupsUnfold(gs, i);
    JoinGroupsUnfold(gs, i + 1);
    Regroup(if i == 0 then [] else [COLON], gs[i], JoinGroups(gs, i + 1), rest);
    BehindSeparator(gs[i] + (JoinGroups(gs, i + 1) + rest), i);
  }

  lemma Regroup(separator: Text, group: Text, more: Text, rest: Text)
    ensures (separator + (group + more)) + rest == separator + (group + (more + rest))
  {
    assert (group + more) + rest == group + (more + rest);
    assert (separator + (group + more)) + rest == separator + ((group + more) + rest);
  }

  lemma BehindSeparator(t: Text, i: nat)
    ensures AfterSeparator((if i == 0 then [] else [COLON]) + t, i) == Some(t)
  {
    assert [] + t == t;
    assert ([COLON] + t)[1..] == t;
  }

  lemma JoinGroupsUnfold(gs: seq<Text>, i: nat)
    requires i <= |gs|
    ensures JoinGroups(gs, i) ==
      if i == |gs| then [] else (if i == 0 then [] else [COLON]) + (gs[i] + JoinGroups(gs, i + 1))
  {
  }

  lemma NoGroupHere(rest: Text, i: nat)
    requires rest == [] || (|rest| >= 2 && rest[0] == rest[1] == COLON)
    ensures ReadV4At(rest, i) == None && ReadGroupAt(rest, i) == None
  {
    hide Value;
    var s := AfterSeparator(rest, i);
    if s.Some? {
      assert ReadOctet(s.value) == None;
      assert ReadOctets(s.value, 4, true) == None;
    }
  }

  lemma ReadGroupsStep(t: Text, i: nat, limit: nat, g: nat, rest: Text)
    requires i < limit && ReadV4At(t, i) == None && ReadGroupAt(t, i) == Some((g, rest))
    ensures var more := ReadGroups(rest, i + 1, limit);
      ReadGroups(t, i, limit) == Groups([(g / 256) % 256, g % 256] + more.octets, more.endedInV4, more.rest)
  {
    hide ReadV4At, ReadGroupAt;
  }

  /** Joined groups read back, up to the end of the text or a double colon. */
  lemma {:induction false} ReadGroupsOfText(gs: seq<Text>, i: nat, limit: nat, rest: Text)
    requires AllGroups(gs) && i <= |gs| <= limit
    requires rest == [] || (|rest| >= 2 && rest[0] == rest[1] == COLON)
    ensures ReadGroups(JoinGroups(gs, i) + rest, i, limit) == Groups(GroupsValue(gs[i..]), false, rest)
    decreases |gs| - i
  {
    hide ReadV4, ReadNumber, AfterSeparator, Value;
    if i == |gs| {
      NoGroupHere(rest, i);
      assert JoinGroups(gs, i) + rest == rest;
    } else {
      hide JoinGroups, ReadGroups;
      GroupBehindSeparator(gs, i, rest);
      assert IsGroup(gs[i]);
      GroupReads(gs[i], JoinGroups(gs, i + 1) + rest);
      ReadGroupsOfText(gs, i + 1, limit, rest);
      ReadGroupsStep(JoinGroups(gs, i) + rest, i, limit, Value(gs[i], 16), JoinGroups(gs, i + 1) + rest);
      assert gs[i..][0] == gs[i] && gs[i..][1..] == gs[i + 1..];
    }
  }

  lemma NoneBehindIt(t: Text)
    requires ReadV4(t) == None
    ensures ParseV4(t) == None
  {
    hide ReadV4;
  }

  /** Text that starts with a group, or with a colon, is no IPv4 address. */
  lemma GroupsAreNoV4(gs: seq<Text>, rest: Text)
    requires AllGroups(gs) && (rest == [] || (|rest| >= 2 && rest[0] == rest[1] == COLON))
    ensures ParseV4(JoinGroups(gs, 0) + rest) == None
  {
    hide ReadV4, JoinGroups;
    JoinGroupsUnfold(gs, 0);
    if gs == [] {
      assert [] + rest == rest;
      NoDotNoV4(rest, 0);
    } else {
      hide IsGroup;
      GroupBehindSeparator(gs, 0, rest);
      assert IsGroup(gs[0]);
      GroupReads(gs[0], JoinGroups(gs, 1) + rest);
      NoneBehindIt(gs[0] + (JoinGroups(gs, 1) + rest));
    }
  }

  /** Eight groups of one to four digits, of either case, are read as their values. */
  lemma FullV6(gs: seq<Text>)
    requires AllGroups(gs) && |gs| == 8
    ensures ParseV6(JoinGroups(gs, 0)) == Some(GroupsValue(gs)) && ParseV4(JoinGroups(gs, 0)) == None
  {
    hide ReadGroups, JoinGroups, GroupsValue, ParseV4;
    ReadGroupsOfText(gs, 0, 8, []);
    GroupsAreNoV4(gs, []);
    assert JoinGroups(gs, 0) + [] == JoinGroups(gs, 0);
    assert gs[0..] == gs;
  }

  lemma GroupsValueUnfold(gs: seq<Text>)
    ensures GroupsValue(gs) ==
      if gs == [] then [] else [(Value(gs[0], 16) / 256) % 256, Value(gs[0], 16) % 256] + GroupsValue(gs[1..])
  {
    hide Value;
  }

  lemma HexGroupAt(o: seq<byte>, i: nat)
    requires |o| % 2 == 0 && 2 * i < |o|
    ensures i < |HexGroups(o)| && HexGroups(o)[i] == Hex4(o[2 * i], o[2 * i + 1])
  {
    hide Hex4;
  }

  lemma GroupOctets(hi: byte, lo: byte)
    ensures var g := hi * 256 + lo; (g / 256) % 256 == hi && g % 256 == lo
  {
  }

  lemma {:induction false} HexGroupsValue(o: seq<byte>, i: nat)
    requires |o| % 2 == 0 && 2 * i <= |o|
    ensures GroupsValue(HexGroups(o)[i..]) == o[2 * i..]
    decreases |o| - i
  {
    hide Value, Hex4, GroupsValue, HexGroups;
    var gs := HexGroups(o);
    GroupsValueUnfold(gs[i..]);
    if 2 * i < |o| {
      var hi, lo := o[2 * i], o[2 * i + 1];
      Hex4IsGroup(hi, lo);
      HexGroupAt(o, i);
      GroupOctets(hi, lo);
      HexGroupsValue(o, i + 1);
      assert gs[i..][0] == gs[i] && gs[i..][1..] == gs[i + 1..];
      assert o[2 * i..] == [hi, lo] + o[2 * (i + 1)..];
    }
  }

  lemma HexGroupsAreGroups(o: seq<byte>)
    requires |o| % 2 == 0
    ensures AllGroups(HexGroups(o))
  {
    hide Hex4, IsGroup;
    forall i | 0 <= i < |o| / 2
      ensures IsGroup(HexGroups(o)[i])
    {
      Hex4IsGroup(o[2 * i], o[2 * i + 1]);
    }
  }

  /** The full eight-group text reads back as the sixteen octets, and is no IPv4 text. */
  lemma V6RoundTrip(o: seq<byte>)
    requires |o| == 16
    ensures ParseV6(PrintV6(o)) == Some(o) && ParseV4(PrintV6(o)) == None
  {
    hide ParseV6, ParseV4, JoinGroups, GroupsValue, HexGroups;
    HexGroupsAreGroups(o);
    FullV6(HexGroups(o));
    HexGroupsValue(o, 0);
    assert HexGroups(o)[0..] == HexGroups(o) && o[2 * 0..] == o;
  }

  lemma ReadV6Compressed(t: Text, head: seq<byte>, tail: seq<byte>, rest: Text)
    requires ReadGroups(t, 0, 8) == Groups(head, false, rest) && |head| + |tail| <= 14 && |rest| >= 2
    requires rest[0] == rest[1] == COLON
    requires ReadGroups(rest[2..], 0, 7 - |head| / 2).octets == tail && ReadGroups(rest[2..], 0, 7 - |head| / 2).rest == []
    ensures ParseV6(t) == Some(head + Zeros(16 - |head| - |tail|) + tail)
  {
    hide ReadGroups, Zeros;
  }

  /**
   Form 2 of the RFC, with groups of one to four digits: a double colon stands
   for the zero groups between head and tail. Both may be empty.
   */
  lemma CompressedV6(head: seq<Text>, tail: seq<Text>)
    requires AllGroups(head) && AllGroups(tail) && |head| + |tail| <= 7
    ensures var t := JoinGroups(head, 0) + ([COLON, COLON] + JoinGroups(tail, 0));
      && ParseV6(t) == Some(GroupsValue(head) + Zeros(16 - 2 * |head| - 2 * |tail|) + GroupsValue(tail))
      && ParseV4(t) == None
  {
    hide ReadGroups, JoinGroups, ParseV6, ParseV4, Zeros, GroupsValue, AllGroups;
    var rest := [COLON, COLON] + JoinGroups(tail, 0);
    assert rest[0] == COLON && rest[1] == COLON;
    ReadGroupsOfText(head, 0, 8, rest);
    GroupsAreNoV4(head, rest);
    assert rest[2..] == JoinGroups(tail, 0);
    ReadGroupsOfText(tail, 0, 7 - |head|, []);
    assert JoinGroups(tail, 0) + [] == JoinGroups(tail, 0);
    assert head[0..] == head && tail[0..] == tail;
    ReadV6Compressed(JoinGroups(head, 0) + rest, GroupsValue(head), GroupsValue(tail), rest);
  }

  /** An IPv4 address in place of the last two groups. */
  function V4Tail(gs: seq<Text>, o: seq<byte>): Text
    requires |o| == 4
  {
    (if gs == [] then [] else [COLON]) + PrintV4(o)
  }

  lemma V4Read(o: seq<byte>)
    requires |o| == 4
    ensures ReadV4(PrintV4(o)) == Some((o, []))
  {
    hide PrintV4;
    PrintV4IsPrintOctets(o);
    ReadOctetsOfPrint(o, true);
  }

  /** Groups and then dotted decimal, to the end of the text. */
  lemma {:induction false} ReadGroupsThenV4(gs: seq<Text>, i: nat, limit: nat, o: seq<byte>)
    requires AllGroups(gs) && i <= |gs| && |gs| + 2 <= limit && |o| == 4
    ensures ReadGroups(JoinGroups(gs, i) + V4Tail(gs, o), i, limit) == Groups(GroupsValue(gs[i..]) + o, true, [])
    decreases |gs| - i
  {
    hide ReadV4, ReadNumber, AfterSeparator, Value, PrintV4, GroupsValue, JoinGroups;
    var tail := V4Tail(gs, o);
    JoinGroupsUnfold(gs, i);
    GroupsValueUnfold(gs[i..]);
    if i == |gs| {
      assert [] + tail == tail && [] + o == o;
      BehindSeparator(PrintV4(o), i);
      V4Read(o);
    } else {
      hide ReadGroups;
      GroupBehindSeparator(gs, i, tail);
      assert IsGroup(gs[i]);
      assert tail[0] == COLON;
      GroupReads(gs[i], JoinGroups(gs, i + 1) + tail);
      ReadGroupsThenV4(gs, i + 1, limit, o);
      ReadGroupsStep(JoinGroups(gs, i) + tail, i, limit, Value(gs[i], 16), JoinGroups(gs, i + 1) + tail);
      assert gs[i..][0] == gs[i] && gs[i..][1..] == gs[i + 1..];
      var g := Value(gs[i], 16);
      assert [(g / 256) % 256, g % 256] + (GroupsValue(gs[i + 1..]) + o) == ([(g / 256) % 256, g % 256] + GroupsValue(gs[i + 1..])) + o;
    }
  }

  /** Form 3 of the RFC: six groups and an IPv4 address. */
  lemma MixedV6(gs: seq<Text>, o: seq<byte>)
    requires AllGroups(gs) && |gs| == 6 && |o| == 4
    ensures ParseV6(JoinGroups(gs, 0) + V4Tail(gs, o)) == Some(GroupsValue(gs) + o)
  {
    hide ReadGroups, JoinGroups, ParseV6, GroupsValue, AllGroups, V4Tail;
    assert gs[0..] == gs;
    ReadGroupsThenV4(gs, 0, 8, o);
    WholeV6(JoinGroups(gs, 0) + V4Tail(gs, o), GroupsValue(gs) + o);
  }

  /** Forms 2 and 3 together: a double colon, and an IPv4 address at the end. */
  lemma CompressedMixedV6(head: seq<Text>, tail: seq<Text>, o: seq<byte>)
    requires AllGroups(head) && AllGroups(tail) && |o| == 4 && |head| + |tail| <= 5
    ensures ParseV6(JoinGroups(head, 0) + ([COLON, COLON] + (JoinGroups(tail, 0) + V4Tail(tail, o))))
         == Some(GroupsValue(head) + Zeros(12 - 2 * |head| - 2 * |tail|) + (GroupsValue(tail) + o))
  {
    hide ReadGroups, JoinGroups, ParseV6, Zeros, GroupsValue, AllGroups, V4Tail;
    assert head[0..] == head && tail[0..] == tail;
    var behind := JoinGroups(tail, 0) + V4Tail(tail, o);
    var rest := [COLON, COLON] + behind;
    DoubleColon(behind);
    ReadGroupsOfText(head, 0, 8, rest);
    ReadGroupsThenV4(tail, 0, 7 - |head|, o);
    ReadV6Compressed(JoinGroups(head, 0) + rest, GroupsValue(head), GroupsValue(tail) + o, rest);
  }

  lemma DoubleColon(behind: Text)
    ensures var rest := [COLON, COLON] + behind; rest[0] == rest[1] == COLON && rest[2..] == behind
  {
  }

  lemma WholeV6(t: Text, o: seq<byte>)
    requires |o| == 16 && ReadGroups(t, 0, 8).octets == o && ReadGroups(t, 0, 8).rest == []
    ensures ParseV6(t) == Some(o)
  {
    hide ReadGroups;
  }

  // ---------------------------------------------------------------------------
  // The text itself
  // ---------------------------------------------------------------------------

  lemma {:induction false} JoinedAt(gs: seq<Text>, i: nat, k: nat)
    requires i <= k < |gs| && forall j :: 0 <= j < |gs| ==> |gs[j]| == 4
    ensures var t, at := JoinGroups(gs, i), 5 * (k - i) + if i == 0 then 0 else 1;
      && |t| == 5 * (|gs| - i) - (if i == 0 then 1 else 0)
      && t[at..at + 4] == gs[k] && (at > 0 ==> t[at - 1] == COLON)
    decreases |gs| - i
  {
    hide JoinGroups;
    JoinGroupsUnfold(gs, i);
    JoinGroupsUnfold(gs, i + 1);
    var more := JoinGroups(gs, i + 1);
    var separator: Text := if i == 0 then [] else [COLON];
    if i + 1 < |gs| { JoinedAt(gs, i + 1, if k > i then k else i + 1); }
    Pieces(separator, gs[i], more, if k > i then 5 * (k - i - 1) + 1 else 0);
  }

  /** Where the pieces of a text are found again. */
  lemma Pieces(separator: Text, group: Text, more: Text, at: nat)
    ensures var t := separator + (group + more);
      && |t| == |separator| + |group| + |more|
      && t[|separator|..|separator| + |group|] == group && (separator != [] ==> t[|separator| - 1] == separator[|separator| - 1])
    ensures var t, from := separator + (group + more), |separator| + |group| + at;
      && (at + 4 <= |more| ==> t[from..from + 4] == more[at..at + 4])
      && (0 < at <= |more| ==> t[from - 1] == more[at - 1])
  {
  }

  /** Group k of a printed IPv6 address stands at place 5k, behind a colon, and has the value of its two octets. */
  lemma V6Text(o: seq<byte>, k: nat)
    requires |o| == 16 && k < 8
    ensures var t := PrintV6(o);
      && |t| == 39 && IsGroup(t[5 * k..5 * k + 4]) && (k > 0 ==> t[5 * k - 1] == COLON)
      && Value(t[5 * k..5 * k + 4], 16) == o[2 * k] as int * 256 + o[2 * k + 1] as int
  {
    hide JoinGroups, Hex4, Value, HexGroups;
    forall j | 0 <= j < 8 ensures |HexGroups(o)[j]| == 4 { HexGroupAt(o, j); }
    HexGroupAt(o, k);
    JoinedAt(HexGroups(o), 0, k);
    Hex4IsGroup(o[2 * k], o[2 * k + 1]);
  }

  /** 127.0.0.1 as it is written, and how 2001:0db8:0000:0000:0000:0000:0000:0001 begins. */
  lemma WrittenAddresses()
    ensures PrintV4([127, 0, 0, 1]) == [49, 50, 55, 46, 48, 46, 48, 46, 49]
    ensures [50, 48, 48, 49, 58, 48, 100, 98, 56, 58] <= PrintV6([0x20, 0x01, 0x0D, 0xB8] + Zeros(11) + [1])
  {
    Decimal3(1, 2, 7);
    DecimalDigit(0);
    DecimalDigit(1);
    var o := [0x20, 0x01, 0x0D, 0xB8] + Zeros(11) + [1];
    var gs := HexGroups(o);
    forall j | 0 <= j < 8 ensures |gs[j]| == 4 { HexGroupAt(o, j); }
    FirstGroups(gs, [50, 48, 48, 49], [48, 100, 98, 56]);
  }

  lemma FirstGroups(gs: seq<Text>, a: Text, b: Text)
    requires |gs| == 8 && gs[0] == a && gs[1] == b && |a| == |b| == 4
    requires forall j :: 0 <= j < 8 ==> |gs[j]| == 4
    ensures |JoinGroups(gs, 0)| == 39 && JoinGroups(gs, 0)[..10] == a + [COLON] + b + [COLON]
  {
    hide JoinGroups;
    var t := JoinGroups(gs, 0);
    JoinedAt(gs, 0, 0);
    JoinedAt(gs, 0, 1);
    JoinedAt(gs, 0, 2);
    assert t[..10] == t[0..4] + [t[4]] + t[5..9] + [t[9]];
  }

  lemma TwoGroups(a: Text, b: Text)
    ensures JoinGroups([a, b], 0) == a + ([COLON] + b) && JoinGroups([a], 0) == a
    ensures GroupsValue([a]) == [(Value(a, 16) / 256) % 256, Value(a, 16) % 256]
    ensures GroupsValue([a, b]) == GroupsValue([a]) + GroupsValue([b])
  {
    hide Value;
    assert [a, b][1..] == [b] && [b][1..] == [] && [a][1..] == [];
    assert JoinGroups([a, b], 2) == [];
    assert JoinGroups([a, b], 1) == [COLON] + (b + []);
    assert JoinGroups([a], 1) == [];
  }

  lemma ExampleValues()
    ensures Value([50, 48, 48, 49], 16) == 0x2001 && Value([100, 98, 56], 16) == 0xDB8 && Value([49], 16) == 1
  {
    hide Value;
    Value4([50, 48, 48, 49], 16);
    Value3([100, 98, 56], 16);
    Value1([49], 16);
  }

  /** `2001:db8::1` is read as it is meant. */
  lemma ReadAddresses()
    ensures ParseV6([50, 48, 48, 49, 58, 100, 98, 56, 58, 58, 49])
         == Some([0x20, 0x01, 0x0D, 0xB8] + Zeros(10) + [0, 1])
  {
    hide *;
    var a: Text, b: Text, c: Text := [50, 48, 48, 49], [100, 98, 56], [49];
    ExampleGroups();
    CompressedV6([a, b], [c]);
    TwoGroups(a, b);
    TwoGroups(b, c);
    TwoGroups(c, a);
    ExampleValues();
    assert GroupsValue([a, b]) == [0x20, 0x01] + [0x0D, 0xB8] == [0x20, 0x01, 0x0D, 0xB8];
    assert GroupsValue([c]) == [0, 1];
    assert (a + ([COLON] + b)) + ([COLON, COLON] + c) == [50, 48, 48, 49, 58, 100, 98, 56, 58, 58, 49];
  }

  lemma ExampleGroups()
    ensures AllGroups([[50, 48, 48, 49], [100, 98, 56]]) && AllGroups([[49]]) && COLON == 58
  {
  }
}
