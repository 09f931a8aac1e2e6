/**
 The encrypted tunnel refines the plain one. A plain session can follow every
 failure-free encrypted session, a frame for a frame and a chunk for its bytes,
 and show the application and the remote host the same.
 */
module Refinement {
  import opened Bytes
  import opened Aead
  import opened Frames
  import opened Protocol
  import opened SocksClient
  import opened TunnelServer
  import opened EncryptedTunnels
  import opened Lanes
  import opened LaneProofs
  import opened Session
  import opened SessionInvariant
  import opened SessionProgress
  import opened SessionOutcome
  import opened PlainRuns

  // ---------------------------------------------------------------------------
  // The plain session that an encrypted one stands for
  // ---------------------------------------------------------------------------

  /** The same application, remote host and network over the plain tunnel. */
  function PlainOf(cfg: Config): Config { cfg.(mode := Plain) }

  /** The chunk the relay has read but not yet written whole. */
  function InProgress(tx: Sender): seq<byte> {
    var n := Completed(tx);
    if 1 <= n < |tx.sent| then tx.sent[n] else []
  }

  /** Payload that left the sender whole and was not yet written out by the receiver. */
  function Travelling(l: Lane): seq<byte> {
    var from, n := if l.rx.got == [] then 1 else |l.rx.got|, Completed(l.tx);
    l.rx.buffered + if from <= n then Flat(l.tx.sent[from..n]) else []
  }

  function AbsSender(tx: Sender, first: seq<seq<byte>>, unsent: bool): Sender {
    Sender(InProgress(tx) + tx.source, Payload(tx.sent[..Completed(tx)]), [], first, [],
           if unsent && first != [] then Framed(first[0]) else [], 0)
  }

  /** Frames in transit become raw bytes; only the first one keeps its framing. */
  function AbsWire(l: Lane, first: seq<seq<byte>>, unsent: bool): seq<byte> {
    if unsent || first == [] then [] else (if l.rx.got == [] then Framed(first[0]) else []) + Travelling(l)
  }

  function AbsLane(l: Lane, first: seq<seq<byte>>, unsent: bool): Lane {
    Lane(AbsSender(l.tx, first, unsent), AbsWire(l, first, unsent), [],
         Receiver([], [], if l.rx.got == [] then [] else l.rx.got[..1], 0, [], l.rx.delivered))
  }

  /** The handshake happens before the plain session's first move. */
  function AbsPhase(p: Party, f: Phase): Phase {
    if f !in {HelloOut, HelloIn} then f else if p.Client? then FrameOut else FrameIn
  }

  /** The one framed message of a direction: the header even while the handshake still runs. */
  function First(cfg: Config, client: Phase, d: Dir, sent: seq<seq<byte>>): seq<seq<byte>> {
    if d.Up? && client in {HelloOut, HelloIn} && DialogueOf(cfg).Accepted? then [HeaderOf(cfg)]
    else if sent == [] then [] else sent[..1]
  }

  function Abs(cfg: Config, s: State): State {
    var c, v := AbsPhase(Client, s.client), AbsPhase(Server, s.server);
    State(c, v, SessionKeys([], []), SessionKeys([], []),
          AbsLane(s.up, First(cfg, s.client, Up, s.up.tx.sent), c == FrameOut),
          AbsLane(s.down, First(cfg, s.client, Down, s.down.tx.sent), v == FrameOut),
          s.reply, s.target, s.connected)
  }

  /** The plain session's moves for one move of the encrypted one. */
  function Match(cfg: Config, s: State, a: Action): seq<Action>
    requires Enabled(cfg, s, a)
  {
    match a
    case Dial => [Dial]
    case Emit(d) =>
      var tx := LaneOf(s, d).tx;
      if tx.sent == [] || |tx.pending| > 1 then []
      else if |tx.sent| == 1 then Repeat(Emit(d), |Framed(tx.sent[0])|)
      else Pump(d, |tx.sent[|tx.sent| - 1]|)
    case Absorb(d) =>
      var l := LaneOf(s, d);
      if PhaseOf(s, ReceiverOf(d)) == FrameIn && Inspect(cfg.mode, TakeByte(l).rx.partial).Whole? && l.tx.sent != []
      then Repeat(Absorb(d), |Framed(l.tx.sent[0])|)
      else []
    case Deliver(d) => [Absorb(d), Deliver(d)]
    case Answer => [Answer]
    case Finish(p) => [Finish(p)]
    case _ => []
  }

  function MatchRun(cfg: Config, s: State, run: seq<Action>): seq<Action>
    requires cfg.Valid()
    decreases |run|
  {
    if run == [] || !Enabled(cfg, s, run[0]) then []
    else Match(cfg, s, run[0]) + MatchRun(cfg, Next(cfg, s, run[0]), run[1..])
  }

  // ---------------------------------------------------------------------------
  // Lanes
  // ---------------------------------------------------------------------------

  /** Only whole frames are accepted. */
  lemma GotWhole(cfg: Config, d: Dir, l: Lane)
    requires cfg.Valid() && cfg.mode.Sealed? && LaneInv(cfg, d, l)
    ensures |l.rx.got| <= Completed(l.tx) <= |l.tx.sent| && l.rx.got == l.tx.sent[..|l.rx.got|]
    ensures (l.rx.heard == [] ==> l.rx.got == []) && (l.rx.got == [] ==> l.rx.buffered == [])
  {
    hide TrueKey, SenderOk, InFlight, Expected, PartialOk;
    NothingInFlight(cfg.cipher, TrueKey(cfg, d), HelloOf(cfg, d), l);
  }

  /** At the end of the wire every whole frame has been accepted. */
  lemma EofWhole(cfg: Config, d: Dir, l: Lane)
    requires cfg.Valid() && cfg.mode.Sealed? && LaneInv(cfg, d, l) && l.wire == [] && l.lost == [] && l.rx.heard != []
    ensures |l.rx.got| == Completed(l.tx)
  {
    hide NonceBytes, TrueKey, FrameStream, WireLength, Wrap64;
    GotWhole(cfg, d, l);
    var n := |l.rx.got|;
    if n < |l.tx.sent| {
      var frames := l.tx.sent[n..];
      FrameStreamLength(cfg.cipher, TrueKey(cfg, d), n, frames);
      WireLengthEnds(frames);
      assert frames[|frames| - 1] == l.tx.sent[|l.tx.sent| - 1];
      assert |InFlight(l)| == |l.rx.partial| + |l.tx.pending|;
    }
  }

  /** Bytes that complete nothing change nothing. */
  lemma EmitNothing(l: Lane, first: seq<seq<byte>>, unsent: bool)
    requires l.tx.pending != [] && (l.tx.sent == [] || |l.tx.pending| > 1)
    ensures AbsLane(EmitByte(Sealed, l), first, unsent) == AbsLane(l, first, unsent)
  {
    hide Wrap64, Framed, Payload, Flat;
  }

  lemma EmitFirst(l: Lane)
    requires |l.tx.pending| == 1 && |l.tx.sent| == 1 && l.rx.got == [] && l.rx.buffered == []
    ensures AbsLane(EmitByte(Sealed, l), l.tx.sent, false) == Flushed(AbsLane(l, l.tx.sent, true))
  {
    hide Wrap64, Framed;
    var l' := EmitByte(Sealed, l);
    assert l.tx.sent[..0] == [] && l.tx.sent[..1][1..] == [] && l.tx.sent[1..1] == [];
    assert Travelling(l') == [];
    assert AbsSender(l'.tx, l.tx.sent, false).source == l.tx.source == AbsSender(l.tx, l.tx.sent, true).source;
  }

  lemma EmitChunk(l: Lane, first: seq<seq<byte>>)
    requires |l.tx.pending| == 1 && |l.tx.sent| >= 2 && |l.rx.got| <= Completed(l.tx) && first != []
    ensures var p := l.tx.sent[|l.tx.sent| - 1];
      && AbsLane(l, first, false).tx.source == p + l.tx.source
      && AbsLane(EmitByte(Sealed, l), first, false) == Pumped(AbsLane(l, first, false), |p|)
  {
    hide Wrap64, Framed, Flat, Payload;
    var l', n := EmitByte(Sealed, l), |l.tx.sent| - 1;
    var p := l.tx.sent[n];
    var from := if l.rx.got == [] then 1 else |l.rx.got|;
    var src := p + l.tx.source;
    assert src[..|p|] == p && src[|p|..] == l.tx.source;
    assert l.tx.sent[..n + 1] == l.tx.sent[..n] + [p];
    assert l.tx.sent[from..n + 1] == l.tx.sent[from..n] + [p];
    PayloadGrows(l.tx.sent[..n], p);
    FlatSnoc(l.tx.sent[from..n], p);
    var head := if l.rx.got == [] then Framed(first[0]) else [];
    var part := Flat(l.tx.sent[from..n]);
    assert head + (l.rx.buffered + (part + p)) == (head + (l.rx.buffered + part)) + p;
    assert AbsWire(l', first, false) == AbsWire(l, first, false) + p;
    assert AbsSender(l'.tx, first, false) == Pumped(AbsLane(l, first, false), |p|).tx;
  }

  lemma FetchNothing(c: Cipher, key: Key, l: Lane, k: nat, first: seq<seq<byte>>, unsent: bool)
    requires l.tx.sent != [] && l.tx.pending == [] && k <= |l.tx.source| && |l.rx.got| <= |l.tx.sent|
    ensures AbsLane(FetchChunk(Sealed, c, key, l, k), first, unsent) == AbsLane(l, first, unsent)
  {
    hide NonceBytes, Framed, Flat, Payload, SealedFrame;
    var l', n := FetchChunk(Sealed, c, key, l, k), |l.tx.sent|;
    var from := if l.rx.got == [] then 1 else |l.rx.got|;
    assert l.tx.source[..k] + l.tx.source[k..] == l.tx.source;
    assert l'.tx.sent[..n] == l.tx.sent[..n];
    assert l'.tx.sent[from..n] == l.tx.sent[from..n];
  }

  lemma StartHeader(c: Cipher, key: Key, l: Lane, p: seq<byte>, unsent: bool)
    requires l.tx.sent == [] && l.tx.pending == [] && l.rx.got == []
    ensures AbsLane(StartFrame(Sealed, c, key, l, p), [p], unsent) == AbsLane(l, [p], unsent)
  {
    hide NonceBytes, SealedFrame, Framed;
    var l' := StartFrame(Sealed, c, key, l, p);
    assert l'.tx.sent[..0] == l.tx.sent[..0];
  }

  lemma StartStatus(c: Cipher, key: Key, l: Lane, p: seq<byte>)
    requires l.tx.sent == [] && l.tx.pending == [] && l.rx.got == []
    ensures AbsLane(StartFrame(Sealed, c, key, l, p), [p], true) == StartFrame(Plain, c, [], AbsLane(l, [], false), p)
  {
    hide NonceBytes, SealedFrame, Framed;
    var l' := StartFrame(Sealed, c, key, l, p);
    assert l'.tx.sent[..0] == l.tx.sent[..0];
  }

  /** A relayed frame that is opened is still the same bytes on the plain wire. */
  lemma AcceptNothing(l: Lane, first: seq<seq<byte>>, unsent: bool)
    requires l.rx.got != [] && |l.rx.got| < Completed(l.tx) && l.rx.buffered == []
    ensures AbsLane(AcceptFrame(Sealed, l, l.tx.sent[|l.rx.got|], true), first, unsent) == AbsLane(l, first, unsent)
  {
    hide Wrap64, Framed, Payload;
    var g, n := |l.rx.got|, Completed(l.tx);
    var p := l.tx.sent[g];
    var l' := AcceptFrame(Sealed, l, p, true);
    assert l.tx.sent[g..n][0] == p && l.tx.sent[g..n][1..] == l.tx.sent[g + 1..n];
    assert Travelling(l') == Travelling(l);
    assert l'.rx.got[..1] == l.rx.got[..1];
  }

  lemma AcceptFirst(l: Lane, first: seq<seq<byte>>, p: seq<byte>)
    requires l.rx.got == [] && Completed(l.tx) >= 1 && l.rx.buffered == [] && first == [p]
    ensures var a := AbsLane(l, first, false);
      && a.wire == Framed(p) + Travelling(l)
      && AbsLane(AcceptFrame(Sealed, l, p, false), first, false)
         == AcceptFrame(Plain, FrameTaken(a, p, Travelling(l)), p, false)
  {
    hide Wrap64, Framed, Payload, Flat;
    var l' := AcceptFrame(Sealed, l, p, false);
    assert l'.rx.got == [p] && [p][..1] == [p];
    assert Travelling(l') == Travelling(l);
    assert AbsWire(l', first, false) == [] + Travelling(l);
  }

  lemma DeliverOne(l: Lane, first: seq<seq<byte>>)
    requires l.rx.got != [] && l.rx.buffered != [] && first != []
    ensures var a := AbsLane(l, first, false);
      && a.wire != [] && TakeRawByte(a).rx.buffered != []
      && AbsLane(DeliverByte(l), first, false) == DeliverByte(TakeRawByte(a))
  {
    hide Framed, Payload, Flat;
    var b, rest := l.rx.buffered[0], l.rx.buffered[1..];
    var a, l' := AbsLane(l, first, false), DeliverByte(l);
    assert l.rx.buffered == [b] + rest;
    var from, n := |l.rx.got|, Completed(l.tx);
    var part := if from <= n then Flat(l.tx.sent[from..n]) else [];
    assert a.wire == [b] + (rest + part);
    assert AbsWire(l', first, false) == rest + part == a.wire[1..];
    assert TakeRawByte(a).rx.buffered == [b];
  }

  // ---------------------------------------------------------------------------
  // Steps
  // ---------------------------------------------------------------------------

  ghost predicate Simulated(cfg: Config, s: State, a: Action)
    requires cfg.Valid() && Enabled(cfg, s, a)
  {
    Exec(PlainOf(cfg), Abs(cfg, s), Match(cfg, s, a)) == Some(Abs(cfg, Next(cfg, s, a)))
  }

  /** What the steps start from. */
  ghost predicate Ready(cfg: Config, s: State)
    requires cfg.Valid()
  {
    cfg.mode.Sealed? && Inv(cfg, s) && CleanInv(cfg, s)
  }

  lemma SimulatedByNone(cfg: Config, s: State, a: Action)
    requires cfg.Valid() && Enabled(cfg, s, a) && Match(cfg, s, a) == [] && Abs(cfg, Next(cfg, s, a)) == Abs(cfg, s)
    ensures Simulated(cfg, s, a)
  {
    hide Next, Enabled, Abs, Match;
  }

  lemma SimulatedByOne(cfg: Config, s: State, a: Action)
    requires cfg.Valid() && Enabled(cfg, s, a) && Match(cfg, s, a) == [a]
    requires Enabled(PlainOf(cfg), Abs(cfg, s), a) && Abs(cfg, Next(cfg, s, a)) == Next(PlainOf(cfg), Abs(cfg, s), a)
    ensures Simulated(cfg, s, a)
  {
    hide Next, Enabled, Abs, Match;
    var p := Next(PlainOf(cfg), Abs(cfg, s), a);
    assert [a][1..] == [];
    assert Exec(PlainOf(cfg), p, []) == Some(p);
  }

  lemma SimDial(cfg: Config, s: State)
    requires cfg.Valid() && Ready(cfg, s) && Enabled(cfg, s, Dial)
    ensures Simulated(cfg, s, Dial)
  {
    hide LaneInv, CleanInv, ClientInv, ServerInv, ReplyInv, DialogueOf, HeaderOf, Framed, Simulated, AbsLane, EmptyLane, StartHello, StartFrame;
    DialogueSame(cfg);
    AbsEmpty([]);
    AbsEmpty(cfg.remote);
    if DialogueOf(cfg).Accepted? {
      HeaderSame(cfg);
      HeaderFitsFrame(cfg);
      var rest := cfg.application[DialogueOf(cfg).used..];
      EmptySource(rest);
      AbsHello(cfg.cipher, cfg.clientHello, rest, HeaderOf(cfg));
    }
    SimulatedByOne(cfg, s, Dial);
  }

  lemma EmptySource(rest: seq<byte>)
    ensures EmptyLane([]).tx.sent == [] && EmptyLane([]).(tx := EmptyLane([]).tx.(source := rest)) == EmptyLane(rest)
  {
  }

  lemma AbsEmpty(source: seq<byte>)
    ensures EmptyLane(source).tx.sent == [] && AbsLane(EmptyLane(source), [], false) == EmptyLane(source)
  {
  }

  lemma AbsHello(c: Cipher, hello: seq<byte>, source: seq<byte>, header: seq<byte>)
    ensures StartHello(EmptyLane(source), hello).tx.sent == []
    ensures AbsLane(StartHello(EmptyLane(source), hello), [header], true) == StartFrame(Plain, c, [], EmptyLane(source), header)
  {
    hide Framed;
  }

  lemma DialogueSame(cfg: Config)
    ensures DialogueOf(PlainOf(cfg)) == DialogueOf(cfg)
  {
    hide SocksDialogue;
  }

  lemma HeaderSame(cfg: Config)
    requires DialogueOf(cfg).Accepted?
    ensures DialogueOf(PlainOf(cfg)).Accepted? && HeaderOf(PlainOf(cfg)) == HeaderOf(cfg)
  {
    hide SocksDialogue, Header;
  }

  lemma SimAnswer(cfg: Config, s: State)
    requires cfg.Valid() && Ready(cfg, s) && Enabled(cfg, s, Answer)
    ensures Simulated(cfg, s, Answer)
  {
    hide LaneInv, CleanInv, ClientInv, ServerInv, ReplyInv, DialogueOf, HeaderOf, AbsSender, AbsWire, Reply, Simulated;
    SimulatedByOne(cfg, s, Answer);
  }

  lemma SimFetch(cfg: Config, s: State, d: Dir, k: nat)
    requires cfg.Valid() && Ready(cfg, s) && Enabled(cfg, s, Fetch(d, k))
    ensures Simulated(cfg, s, Fetch(d, k))
  {
    hide LaneInv, CleanInv, ReplyInv, DialogueOf, HeaderOf, AbsLane, FrameBytes, NonceBytes, Simulated, Reply, ParseHeader, StatusFor, AppBytes, TrueKeys;
    var l := LaneOf(s, d);
    GotWhole(cfg, d, l);
    var l' := FetchChunk(Sealed, cfg.cipher, SendKey(s, d), l, k);
    FetchNothing(cfg.cipher, SendKey(s, d), l, k, First(cfg, s.client, d, l.tx.sent), AbsPhase(SenderOf(d), PhaseOf(s, SenderOf(d))) == FrameOut);
    FirstStays(cfg, s.client, d, l.tx.sent, l'.tx.sent);
    SimulatedByNone(cfg, s, Fetch(d, k));
  }

  lemma FirstStays(cfg: Config, client: Phase, d: Dir, sent: seq<seq<byte>>, sent': seq<seq<byte>>)
    requires sent != [] && |sent'| >= |sent| && sent'[..|sent|] == sent
    ensures First(cfg, client, d, sent') == First(cfg, client, d, sent)
  {
    hide DialogueOf, HeaderOf;
    assert sent'[..1] == sent'[..|sent|][..1];
  }

  lemma SimEmitNothing(cfg: Config, s: State, d: Dir)
    requires cfg.Valid() && Ready(cfg, s) && Enabled(cfg, s, Emit(d))
    requires LaneOf(s, d).tx.sent == [] || |LaneOf(s, d).tx.pending| > 1
    ensures Simulated(cfg, s, Emit(d))
  {
    hide LaneInv, CleanInv, ReplyInv, DialogueOf, HeaderOf, AbsLane, Wrap64, Simulated, Reply, ParseHeader, StatusFor, AppBytes, TrueKeys;
    var l := LaneOf(s, d);
    EmitNothing(l, First(cfg, s.client, d, l.tx.sent), AbsPhase(SenderOf(d), PhaseOf(s, SenderOf(d))) == FrameOut);
    SimulatedByNone(cfg, s, Emit(d));
  }

  lemma SimEmitFirst(cfg: Config, s: State, d: Dir)
    requires cfg.Valid() && Ready(cfg, s) && Enabled(cfg, s, Emit(d))
    requires |LaneOf(s, d).tx.sent| == 1 && |LaneOf(s, d).tx.pending| == 1
    ensures Simulated(cfg, s, Emit(d))
  {
    hide LaneInv, CleanInv, ReplyInv, DialogueOf, HeaderOf, AbsLane, Wrap64, Reply, ParseHeader, StatusFor, AppBytes, TrueKeys, Exec, Repeat, Framed, Flushed;
    var l := LaneOf(s, d);
    GotWhole(cfg, d, l);
    EmitFirst(l);
    AbsPending(l, l.tx.sent);
    assert l.tx.sent[..1] == l.tx.sent;
    EmitAll(PlainOf(cfg), Abs(cfg, s), d);
  }

  lemma AbsPending(l: Lane, first: seq<seq<byte>>)
    requires first != []
    ensures AbsLane(l, first, true).tx.pending == Framed(first[0]) && AbsLane(l, first, false).tx.pending == []
  {
    hide Framed;
  }

  lemma SimEmitChunk(cfg: Config, s: State, d: Dir)
    requires cfg.Valid() && Ready(cfg, s) && Enabled(cfg, s, Emit(d))
    requires |LaneOf(s, d).tx.sent| > 1 && |LaneOf(s, d).tx.pending| == 1
    ensures Simulated(cfg, s, Emit(d))
  {
    hide LaneInv, CleanInv, ReplyInv, DialogueOf, HeaderOf, AbsLane, Wrap64, Reply, ParseHeader, StatusFor, AppBytes, TrueKeys, Exec, Pump, Framed, Pumped;
    var l := LaneOf(s, d);
    var first := l.tx.sent[..1];
    GotWhole(cfg, d, l);
    EmitChunk(l, first);
    AbsPending(l, first);
    PumpAll(PlainOf(cfg), Abs(cfg, s), d, |l.tx.sent[|l.tx.sent| - 1]|);
  }

  lemma SimDeliver(cfg: Config, s: State, d: Dir)
    requires cfg.Valid() && Ready(cfg, s) && Enabled(cfg, s, Deliver(d))
    ensures Simulated(cfg, s, Deliver(d))
  {
    hide LaneInv, CleanInv, ReplyInv, DialogueOf, HeaderOf, AbsLane, Wrap64, Reply, ParseHeader, StatusFor, AppBytes, TrueKeys, Framed;
    var l := LaneOf(s, d);
    GotWhole(cfg, d, l);
    DeliverOne(l, First(cfg, s.client, d, l.tx.sent));
    AbsBuffer(l, First(cfg, s.client, d, l.tx.sent), false);
    var p := Abs(cfg, s);
    ExecCons(PlainOf(cfg), p, Absorb(d), [Deliver(d)]);
    ExecCons(PlainOf(cfg), Next(PlainOf(cfg), p, Absorb(d)), Deliver(d), []);
  }

  lemma AbsBuffer(l: Lane, first: seq<seq<byte>>, unsent: bool)
    ensures AbsLane(l, first, unsent).rx.buffered == [] && AbsLane(l, first, unsent).rx.partial == []
  {
  }

  lemma SimFinish(cfg: Config, s: State, p: Party)
    requires cfg.Valid() && Ready(cfg, s) && Enabled(cfg, s, Finish(p))
    ensures Simulated(cfg, s, Finish(p))
  {
    hide LaneInv, ReplyInv, ClientInv, ServerInv, DialogueOf, HeaderOf, AbsLane, Simulated, AtEof, CleanInv;
    CleanFinish(cfg, s, p);
    if p.Client? { FinishEnabled(cfg, s, p, Up, Down); } else { FinishEnabled(cfg, s, p, Down, Up); }
    SimulatedByOne(cfg, s, Finish(p));
  }

  lemma FinishEnabled(cfg: Config, s: State, p: Party, own: Dir, other: Dir)
    requires cfg.Valid() && Ready(cfg, s) && Enabled(cfg, s, Finish(p)) && PhaseOf(s, p) == Relaying
    requires own == (if p.Client? then Up else Down) && other == (if p.Client? then Down else Up)
    ensures Enabled(PlainOf(cfg), Abs(cfg, s), Finish(p))
  {
    hide LaneInv, ReplyInv, DialogueOf, HeaderOf, AbsLane, Reply, ParseHeader, StatusFor, AppBytes, TrueKeys;
    var l := LaneOf(s, other);
    AbsSource(LaneOf(s, own), First(cfg, s.client, own, LaneOf(s, own).tx.sent));
    if AtEof(s, other) && l.rx.buffered == [] {
      GotWhole(cfg, other, l);
      EofWhole(cfg, other, l);
      AbsDry(l, First(cfg, s.client, other, l.tx.sent));
    }
    AbsBuffer(l, First(cfg, s.client, other, l.tx.sent), false);
  }

  lemma AbsSource(l: Lane, first: seq<seq<byte>>)
    ensures AbsLane(l, first, false).tx.pending == []
    ensures l.tx.pending == [] ==> AbsLane(l, first, false).tx.source == l.tx.source
  {
    hide Framed, Flat, Payload;
  }

  lemma AbsDry(l: Lane, first: seq<seq<byte>>)
    requires |l.rx.got| == Completed(l.tx) && l.rx.got != [] && l.rx.buffered == []
    ensures AbsLane(l, first, false).wire == []
  {
    hide Framed, Payload;
    assert l.tx.sent[|l.rx.got|..Completed(l.tx)] == [];
  }

  lemma SimAbsorbHelloUp(cfg: Config, s: State)
    requires cfg.Valid() && Ready(cfg, s) && Enabled(cfg, s, Absorb(Up)) && s.server == HelloIn
    ensures Simulated(cfg, s, Absorb(Up))
  {
    hide LaneInv, CleanInv, ClientInv, ReplyInv, DialogueOf, HeaderOf, AbsLane, ParseHeader, StatusFor, AppBytes, TrueKeys, DeriveSessionKeys, Simulated;
    TakeNothing(s.up, First(cfg, s.client, Up, s.up.tx.sent), AbsPhase(Client, s.client) == FrameOut);
    HelloNothing(s.down, cfg.serverHello, First(cfg, s.client, Down, s.down.tx.sent), false);
    SimulatedByNone(cfg, s, Absorb(Up));
  }

  lemma TakeNothing(l: Lane, first: seq<seq<byte>>, unsent: bool)
    requires l.wire != []
    ensures AbsLane(TakeByte(l), first, unsent) == AbsLane(l, first, unsent) == AbsLane(Hear(TakeByte(l)), first, unsent)
  {
    hide Framed, Payload, Flat;
  }

  lemma HelloNothing(l: Lane, hello: seq<byte>, first: seq<seq<byte>>, unsent: bool)
    requires l.tx.sent == []
    ensures AbsLane(StartHello(l, hello), first, unsent) == AbsLane(l, first, unsent)
  {
    hide Framed, Payload, Flat;
  }

  lemma SimAbsorbHelloDown(cfg: Config, s: State)
    requires cfg.Valid() && Ready(cfg, s) && Enabled(cfg, s, Absorb(Down)) && s.client == HelloIn
    ensures Simulated(cfg, s, Absorb(Down))
  {
    hide LaneInv, CleanInv, ServerInv, ReplyInv, DialogueOf, HeaderOf, AbsLane, Reply, AppBytes, TrueKeys, DeriveSessionKeys, Simulated, FrameBytes, NonceBytes;
    TakeNothing(s.down, First(cfg, s.client, Down, s.down.tx.sent), AbsPhase(Server, s.server) == FrameOut);
    GotWhole(cfg, Up, s.up);
    var keys := DeriveSessionKeys(cfg.kdf, cfg.psk, cfg.clientHello, TakeByte(s.down).rx.partial);
    StartHeader(cfg.cipher, keys.client, s.up, HeaderOf(cfg), true);
    StartedOnly(cfg.cipher, keys.client, s.up, HeaderOf(cfg));
    SimulatedByNone(cfg, s, Absorb(Down));
  }

  /** More of a frame is needed: nothing moves. */
  lemma SimAbsorbMore(cfg: Config, s: State, d: Dir)
    requires cfg.Valid() && Ready(cfg, s) && Enabled(cfg, s, Absorb(d)) && PhaseOf(s, ReceiverOf(d)) != HelloIn
    requires Inspect(cfg.mode, TakeByte(LaneOf(s, d)).rx.partial).NeedMore?
    ensures Simulated(cfg, s, Absorb(d))
  {
    hide LaneInv, CleanInv, ClientInv, ServerInv, ReplyInv, DialogueOf, HeaderOf, AbsLane, AppBytes, TrueKeys, Simulated, Inspect, OpenBody, HelloHeard, Opened;
    TakeNothing(LaneOf(s, d), First(cfg, s.client, d, LaneOf(s, d).tx.sent), AbsPhase(SenderOf(d), PhaseOf(s, SenderOf(d))) == FrameOut);
    SimulatedByNone(cfg, s, Absorb(d));
  }

  lemma SimAbsorbRelayed(cfg: Config, s: State, d: Dir)
    requires cfg.Valid() && Ready(cfg, s) && Enabled(cfg, s, Absorb(d)) && PhaseOf(s, ReceiverOf(d)) == Relaying
    requires Inspect(cfg.mode, TakeByte(LaneOf(s, d)).rx.partial).Whole?
    ensures Simulated(cfg, s, Absorb(d))
  {
    hide LaneInv, CleanInv, ReplyInv, DialogueOf, HeaderOf, AbsLane, AppBytes, TrueKeys, Simulated, Inspect, OpenBody, HelloHeard, HeaderArrived, Reply, ParseHeader, StatusFor, Wrap64;
    var l := LaneOf(s, d);
    LaneInspect(cfg, d, l, RecvKey(s, d), true);
    var l', p := TakeByte(l), l.tx.sent[|l.rx.got|];
    AcceptedWhole(cfg, d, l', p, true);
    var first, unsent := First(cfg, s.client, d, l.tx.sent), AbsPhase(SenderOf(d), PhaseOf(s, SenderOf(d))) == FrameOut;
    TakeNothing(l, first, unsent);
    AcceptNothing(l', first, unsent);
    SimulatedByNone(cfg, s, Absorb(d));
  }

  lemma AcceptedWhole(cfg: Config, d: Dir, l: Lane, p: seq<byte>, relayed: bool)
    requires cfg.Valid() && cfg.mode.Sealed? && LaneInv(cfg, d, AcceptFrame(cfg.mode, l, p, relayed))
    ensures |l.rx.got| < Completed(l.tx)
  {
    hide LaneInv, TrueKey, Wrap64;
    GotWhole(cfg, d, AcceptFrame(cfg.mode, l, p, relayed));
  }

  /** What opening the first frame of a direction means on the plain side. */
  lemma FirstFrameTaken(cfg: Config, d: Dir, l: Lane, p: seq<byte>)
    requires cfg.Valid() && cfg.mode.Sealed? && LaneInv(cfg, d, l) && l.wire != [] && l.rx.got == [] && l.tx.sent != []
    requires p == l.tx.sent[0] && LaneInv(cfg, d, AcceptFrame(cfg.mode, TakeByte(l), p, false))
    ensures Completed(l.tx) >= 1 && |p| < U16_SIZE
    ensures var a, rest := AbsLane(l, [p], false), Travelling(l);
      && a.rx.partial == [] && a.wire == Framed(p) + rest
      && AbsLane(AcceptFrame(cfg.mode, TakeByte(l), p, false), [p], false)
         == AcceptFrame(Plain, FrameTaken(a, p, rest), p, false)
  {
    hide TrueKey, AbsLane, AcceptFrame, Framed, FrameTaken, Travelling, ReceiverOk, LinkOk, PartialOk, NonceLog, Wrap64;
    var l' := TakeByte(l);
    GotWhole(cfg, d, l);
    AcceptedWhole(cfg, d, l', p, false);
    TakeNothing(l, [p], false);
    AbsBuffer(l, [p], false);
    TravelsOn(l);
    AcceptFirst(l', [p], p);
  }

  lemma TravelsOn(l: Lane)
    requires l.wire != []
    ensures Travelling(TakeByte(l)) == Travelling(l)
  {
    hide Flat;
  }

  lemma SimAbsorbHeader(cfg: Config, s: State)
    requires cfg.Valid() && Ready(cfg, s) && Enabled(cfg, s, Absorb(Up)) && s.server == FrameIn
    requires Inspect(cfg.mode, TakeByte(s.up).rx.partial).Whole?
    ensures Simulated(cfg, s, Absorb(Up))
  {
    hide LaneInv, CleanInv, ReplyInv, DialogueOf, HeaderOf, AbsLane, AppBytes, TrueKeys, Inspect, OpenBody, HelloHeard, Exec, Repeat, Framed,
      Reply, ParseHeader, StatusFor, Wrap64, FrameBytes, FrameTaken, NonceBytes, AcceptFrame, StartFrame, Travelling;
    var l := s.up;
    LaneInspect(cfg, Up, l, RecvKey(s, Up), false);
    var p := l.tx.sent[0];
    FirstFrameTaken(cfg, Up, l, p);
    assert l.tx.sent[..1] == [p];
    var rest := Travelling(l);
    GotWhole(cfg, Down, s.down);
    HeaderOpened(cfg, s, TakeByte(l), FrameTaken(AbsLane(l, [p], false), p, rest), p);
    AbsorbFrame(PlainOf(cfg), Abs(cfg, s), Up, p, rest);
  }

  /** Both servers treat the header alike. */
  lemma HeaderOpened(cfg: Config, s: State, l: Lane, a: Lane, p: seq<byte>)
    requires cfg.mode.Sealed? && s.server == FrameIn && AbsPhase(Client, s.client) != FrameOut
    requires s.down.tx.sent == [] && s.down.tx.pending == [] && s.down.rx.got == [] && l.tx.sent != [] && l.tx.sent[..1] == [p]
    requires AbsLane(AcceptFrame(Sealed, l, p, false), [p], false) == AcceptFrame(Plain, a, p, false)
    ensures Opened(PlainOf(cfg), Abs(cfg, s).(up := a), Up, p) == Abs(cfg, Opened(cfg, s.(up := l), Up, p))
  {
    hide DialogueOf, HeaderOf, AbsLane, ParseHeader, StatusFor, NonceBytes, StartFrame;
    var parsed := ParseHeader(cfg.lossy, p);
    assert AcceptFrame(Sealed, l, p, false).tx == l.tx;
    if parsed.Some? {
      var status := [StatusFor(cfg.network, parsed.value)];
      StartStatus(cfg.cipher, s.serverKeys.server, s.down, status);
      StartedOnly(cfg.cipher, s.serverKeys.server, s.down, status);
    }
  }

  lemma StartedOnly(c: Cipher, key: Key, l: Lane, p: seq<byte>)
    requires l.tx.sent == []
    ensures StartFrame(Sealed, c, key, l, p).tx.sent == [p] == [p][..1]
  {
    hide NonceBytes, FrameBytes;
  }

  lemma SimAbsorbStatus(cfg: Config, s: State)
    requires cfg.Valid() && Ready(cfg, s) && Enabled(cfg, s, Absorb(Down)) && s.client == FrameIn
    requires Inspect(cfg.mode, TakeByte(s.down).rx.partial).Whole?
    ensures Simulated(cfg, s, Absorb(Down))
  {
    hide LaneInv, CleanInv, ReplyInv, DialogueOf, HeaderOf, AbsLane, AppBytes, TrueKeys, Inspect, OpenBody, HelloHeard, Exec, Repeat, Framed,
      Reply, ParseHeader, StatusFor, Wrap64, FrameTaken, NonceBytes, AcceptFrame, Travelling;
    var l := s.down;
    LaneInspect(cfg, Down, l, RecvKey(s, Down), false);
    var p := l.tx.sent[0];
    FirstFrameTaken(cfg, Down, l, p);
    assert l.tx.sent[..1] == [p];
    var rest := Travelling(l);
    StatusOpened(cfg, s, TakeByte(l), FrameTaken(AbsLane(l, [p], false), p, rest), p);
    AbsorbFrame(PlainOf(cfg), Abs(cfg, s), Down, p, rest);
  }

  lemma StatusOpened(cfg: Config, s: State, l: Lane, a: Lane, p: seq<byte>)
    requires cfg.mode.Sealed? && s.client == FrameIn && AbsPhase(Server, s.server) != FrameOut
    requires l.tx.sent != [] && l.tx.sent[..1] == [p]
    requires AbsLane(AcceptFrame(Sealed, l, p, false), [p], false) == AcceptFrame(Plain, a, p, false)
    ensures Opened(PlainOf(cfg), Abs(cfg, s).(down := a), Down, p) == Abs(cfg, Opened(cfg, s.(down := l), Down, p))
  {
    hide DialogueOf, HeaderOf, AbsLane;
    assert AcceptFrame(Sealed, l, p, false).tx == l.tx;
  }

  /** Each move of a failure-free encrypted session is matched by moves of the plain one. */
  lemma SimStep(cfg: Config, s: State, a: Action)
    requires cfg.Valid() && Ready(cfg, s) && Enabled(cfg, s, a) && Good(a)
    ensures Simulated(cfg, s, a)
  {
    hide Inv, CleanInv, LaneInv, Next, Simulated, ReplyDue, Inspect, OpenBody;
    match a {
      case Dial => SimDial(cfg, s);
      case Emit(d) =>
        var tx := LaneOf(s, d).tx;
        if tx.sent == [] || |tx.pending| > 1 {
          SimEmitNothing(cfg, s, d);
        } else if |tx.sent| == 1 {
          SimEmitFirst(cfg, s, d);
        } else {
          SimEmitChunk(cfg, s, d);
        }
      case Absorb(d) =>
        var f, inspection := PhaseOf(s, ReceiverOf(d)), Inspect(cfg.mode, TakeByte(LaneOf(s, d)).rx.partial);
        if f == HelloIn {
          if d.Up? { SimAbsorbHelloUp(cfg, s); } else { SimAbsorbHelloDown(cfg, s); }
        } else {
          NeverTooSmall(cfg, s, d);
          if inspection.NeedMore? {
            SimAbsorbMore(cfg, s, d);
          } else if f == Relaying {
            SimAbsorbRelayed(cfg, s, d);
          } else if d.Up? {
            SimAbsorbHeader(cfg, s);
          } else {
            SimAbsorbStatus(cfg, s);
          }
        }
      case Fetch(d, k) => SimFetch(cfg, s, d, k);
      case Deliver(d) => SimDeliver(cfg, s, d);
      case Answer => SimAnswer(cfg, s);
      case Finish(p) => SimFinish(cfg, s, p);
    }
  }

  lemma NeverTooSmall(cfg: Config, s: State, d: Dir)
    requires cfg.Valid() && Ready(cfg, s) && Enabled(cfg, s, Absorb(d)) && PhaseOf(s, ReceiverOf(d)) in {FrameIn, Relaying}
    ensures !Inspect(cfg.mode, TakeByte(LaneOf(s, d)).rx.partial).TooSmall?
  {
    hide LaneInv, CleanInv, ReplyInv, DialogueOf, HeaderOf, AppBytes, TrueKeys, Inspect, OpenBody, Reply, ParseHeader, StatusFor;
    LaneInspect(cfg, d, LaneOf(s, d), RecvKey(s, d), PhaseOf(s, ReceiverOf(d)) == Relaying);
  }

  lemma MatchGood(cfg: Config, s: State, a: Action)
    requires Enabled(cfg, s, a) && Good(a)
    ensures AllGood(Match(cfg, s, a))
  {
    hide Enabled, Repeat, Pump, Inspect, TakeByte;
    match a {
      case Emit(d) =>
        var tx := LaneOf(s, d).tx;
        if tx.sent != [] {
          RepeatGood(a, |Framed(tx.sent[0])|);
          PumpGood(d, |tx.sent[|tx.sent| - 1]|);
        }
      case Absorb(d) =>
        if LaneOf(s, d).tx.sent != [] { RepeatGood(a, |Framed(LaneOf(s, d).tx.sent[0])|); }
      case _ =>
    }
  }

  // ---------------------------------------------------------------------------
  // Runs
  // ---------------------------------------------------------------------------

  lemma {:induction false} SimRun(cfg: Config, s: State, run: seq<Action>)
    requires cfg.Valid() && Ready(cfg, s) && AllGood(run) && Exec(cfg, s, run).Some?
    ensures AllGood(MatchRun(cfg, s, run))
    ensures Exec(PlainOf(cfg), Abs(cfg, s), MatchRun(cfg, s, run)) == Some(Abs(cfg, Exec(cfg, s, run).value))
    decreases |run|
  {
    hide Next, Inv, CleanInv, Enabled, Abs, Match;
    if run != [] {
      var a, s' := run[0], Next(cfg, s, run[0]);
      StepKeepsInv(cfg, s, a);
      CleanStep(cfg, s, a);
      SimStep(cfg, s, a);
      MatchGood(cfg, s, a);
      SimRun(cfg, s', run[1..]);
      ExecAppend(PlainOf(cfg), Abs(cfg, s), Match(cfg, s, a), MatchRun(cfg, s', run[1..]));
    }
  }

  lemma AbsInit(cfg: Config)
    ensures Abs(cfg, Init(cfg)) == Init(PlainOf(cfg))
  {
    hide AbsLane, EmptyLane, DialogueOf;
    AbsEmpty([]);
    AbsEmpty(cfg.remote);
  }

  /** What the application and the remote host can tell of a session, and where each party stands. */
  ghost predicate SameSession(e: State, p: State) {
    && p.reply == e.reply && p.target == e.target && p.connected == e.connected
    && p.up.rx.delivered == e.up.rx.delivered && p.down.rx.delivered == e.down.rx.delivered
    && (e.client !in {HelloOut, HelloIn} ==> p.client == e.client)
    && (e.server !in {HelloOut, HelloIn} ==> p.server == e.server)
  }

  /**
   Refinement: for the same application, remote host and connect outcome, every
   failure-free run over the encrypted tunnel is matched by a failure-free run
   over the plain one with the same reply, target and delivered bytes both ways.
   */
  lemma EncryptedRefinesPlain(cfg: Config, run: seq<Action>)
    requires cfg.Valid() && cfg.mode.Sealed? && AllGood(run) && Exec(cfg, Init(cfg), run).Some?
    ensures var plain := MatchRun(cfg, Init(cfg), run);
      && AllGood(plain)
      && Exec(PlainOf(cfg), Init(PlainOf(cfg)), plain).Some?
      && SameSession(Exec(cfg, Init(cfg), run).value, Exec(PlainOf(cfg), Init(PlainOf(cfg)), plain).value)
  {
    hide Exec, Init, MatchRun, Inv, CleanInv, AbsLane;
    InitInv(cfg);
    InitClean(cfg);
    SimRun(cfg, Init(cfg), run);
    AbsInit(cfg);
    var e := Exec(cfg, Init(cfg), run).value;
    AbsSame(e, cfg);
  }

  lemma AbsSame(e: State, cfg: Config)
    ensures SameSession(e, Abs(cfg, e))
  {
    hide DialogueOf, HeaderOf, AbsSender, AbsWire;
  }
}
