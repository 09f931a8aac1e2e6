/** What holds in every reachable state of a session, and that every action keeps it. */
module SessionInvariant {
  import opened Bytes
  import opened Aead
  import opened Frames
  import opened Protocol
  import opened SocksClient
  import opened TunnelServer
  import opened Lanes
  import opened LaneProofs
  import opened Session

  /** The keys both ends ought to hold. */
  function TrueKeys(cfg: Config): SessionKeys
    requires cfg.Valid()
  {
    DeriveSessionKeys(cfg.kdf, cfg.psk, cfg.clientHello, cfg.serverHello)
  }

  function TrueKey(cfg: Config, d: Dir): Key
    requires cfg.Valid()
  {
    if d.Up? then TrueKeys(cfg).client else TrueKeys(cfg).server
  }

  function HelloOf(cfg: Config, d: Dir): seq<byte> { if d.Up? then cfg.clientHello else cfg.serverHello }

  /** What the application sends behind its SOCKS request. */
  function AppBytes(cfg: Config): seq<byte> {
    match DialogueOf(cfg)
    case Refused(_) => []
    case Accepted(_, _, used) => if used <= |cfg.application| then cfg.application[used..] else []
  }

  ghost predicate LaneInv(cfg: Config, d: Dir, l: Lane)
    requires cfg.Valid()
  {
    if cfg.mode.Sealed? then SealedLane(cfg.cipher, TrueKey(cfg, d), HelloOf(cfg, d), l) else PlainLane(l)
  }

  /** Before the server is dialled nothing has happened. */
  ghost predicate DialInv(cfg: Config, s: State) {
    && (s.client == Waiting ==> s.server == Waiting && s.reply == [])
    && (s.server == Waiting ==>
          && s.client in {Waiting, Over} && s.up == EmptyLane([]) && s.down == EmptyLane(cfg.remote)
          && s.target == None)
  }

  predicate Hellos(cfg: Config, tx: Sender, rx: Receiver) {
    cfg.mode.Sealed? ==> tx.hello != [] && rx.heard != []
  }

  /** The first frame of a direction has been written whole. */
  predicate FirstFrameOut(cfg: Config, tx: Sender) {
    && tx.sent != []
    && if cfg.mode.Sealed? then |tx.sent| == 1 ==> tx.pending == [] else |tx.pending| <= |tx.read|
  }

  /** The client's phase against its own halves of the two lanes. */
  ghost predicate ClientInv(cfg: Config, f: Phase, tx: Sender, rx: Receiver, keys: SessionKeys, reply: seq<byte>)
    requires cfg.Valid()
  {
    && (tx.sent != [] ==> DialogueOf(cfg).Accepted? && tx.sent[0] == HeaderOf(cfg))
    && (f in {HelloOut, HelloIn, FrameOut, FrameIn, Replying, Relaying} ==> DialogueOf(cfg).Accepted?)
    && (f in {HelloOut, HelloIn, FrameOut, FrameIn, Replying} ==> reply == [SOCKS_VERSION, 0])
    && (f == HelloOut ==> cfg.mode.Sealed? && tx.hello != [] && tx.pending != [])
    && (f == HelloIn ==> cfg.mode.Sealed? && tx.hello != [] && tx.pending == [])
    && (f in {HelloOut, HelloIn} ==> tx.sent == [] && rx.heard == [] && rx.got == [] && rx.buffered == [])
    && (f in {FrameOut, FrameIn, Replying, Relaying} ==> Hellos(cfg, tx, rx) && (cfg.mode.Sealed? ==> keys == TrueKeys(cfg)))
    && (f in {FrameOut, FrameIn, Replying} ==> |tx.sent| == 1)
    && (f == FrameOut ==> tx.pending != [])
    && (f in {FrameIn, Replying} ==> tx.pending == [])
    && (f in {FrameOut, FrameIn} ==> rx.got == [] && rx.buffered == [])
    && (f == Replying ==> |rx.got| == 1 && rx.got[0] != [] && rx.buffered == [])
    && (f == Relaying ==> FirstFrameOut(cfg, tx) && rx.got != [] && rx.got[0] != [] && rx.got[0][0] == 0)
    && (f == Relaying ==> reply == [SOCKS_VERSION, 0] + Reply(0))
    && (f != Waiting && tx != EmptyLane([]).tx ==> tx.read + tx.source == AppBytes(cfg))
  }

  /** What the application was told: never anything malformed, and success only for status 0. */
  ghost predicate ReplyInv(rx: Receiver, reply: seq<byte>) {
    && CutOutput(reply)
    && (|reply| > 3 && reply[3] == 0 ==> rx.got != [] && rx.got[0] != [] && rx.got[0][0] == 0)
  }

  /** The server's phase against its own halves. */
  ghost predicate ServerInv(cfg: Config, f: Phase, tx: Sender, rx: Receiver, keys: SessionKeys, target: Option<Target>, connected: bool)
    requires cfg.Valid()
  {
    && (tx.sent != [] ==>
          && rx.got != [] && target.Some? && ParseHeader(cfg.lossy, rx.got[0]) == target
          && connected == cfg.network(target.value.address, target.value.port)
          && tx.sent[0] == [StatusFor(cfg.network, target.value)])
    && (f == HelloIn ==> cfg.mode.Sealed? && tx.hello == [] && rx.heard == [])
    && (f == HelloOut ==> cfg.mode.Sealed? && tx.hello != [] && rx.heard != [] && tx.pending != [])
    && (f in {HelloIn, HelloOut, FrameIn} ==> tx.sent == [] && rx.got == [] && rx.buffered == [])
    && (f in {HelloIn, FrameIn} ==> tx.pending == [])
    && (f in {FrameIn, FrameOut, Relaying} ==> Hellos(cfg, tx, rx))
    && (f in {HelloOut, FrameIn, FrameOut, Relaying} ==> cfg.mode.Sealed? ==> keys == TrueKeys(cfg))
    && (f == FrameOut ==> |rx.got| == 1 && rx.buffered == [] && |tx.sent| == 1 && tx.pending != [])
    && (f == Relaying ==> rx.got != [] && FirstFrameOut(cfg, tx) && connected)
    && f != Replying
    && tx.read + tx.source == cfg.remote
  }

  ghost predicate Inv(cfg: Config, s: State)
    requires cfg.Valid()
  {
    && DialInv(cfg, s)
    && LaneInv(cfg, Up, s.up) && LaneInv(cfg, Down, s.down)
    && ClientInv(cfg, s.client, s.up.tx, s.down.rx, s.clientKeys, s.reply)
    && ServerInv(cfg, s.server, s.down.tx, s.up.rx, s.serverKeys, s.target, s.connected)
    && ReplyInv(s.down.rx, s.reply)
    && (s.up.lost != [] ==> s.client == Over) && (s.down.lost != [] ==> s.server == Over)
  }

  // ---------------------------------------------------------------------------
  // Lane moves in either mode
  // ---------------------------------------------------------------------------

  lemma LaneEmit(cfg: Config, d: Dir, l: Lane)
    requires cfg.Valid() && LaneInv(cfg, d, l) && l.tx.pending != [] && l.lost == []
    ensures LaneInv(cfg, d, EmitByte(cfg.mode, l))
  {
    hide SealedLane, PlainLane, EmitByte, TrueKey;
    if cfg.mode.Sealed? { SealedEmit(cfg.cipher, TrueKey(cfg, d), HelloOf(cfg, d), l); } else { PlainEmit(l); }
  }

  lemma LaneFetch(cfg: Config, d: Dir, l: Lane, key: Key, k: nat)
    requires cfg.Valid() && LaneInv(cfg, d, l) && l.tx.pending == [] && l.tx.sent != []
    requires k <= |l.tx.source| && k <= ChunkLimit(cfg) && (cfg.mode.Sealed? ==> key == TrueKey(cfg, d))
    ensures LaneInv(cfg, d, FetchChunk(cfg.mode, cfg.cipher, key, l, k))
  {
    hide FetchChunk, TrueKey, PlainLane, ReceiverOk, LinkOk, PartialOk;
    if cfg.mode.Sealed? {
      SealedFetch(cfg.cipher, key, HelloOf(cfg, d), l, k);
    } else {
      PlainFetch(cfg.cipher, key, l, k);
    }
  }

  lemma LaneStartFirst(cfg: Config, d: Dir, l: Lane, key: Key, p: seq<byte>)
    requires cfg.Valid() && LaneInv(cfg, d, l) && l.tx.pending == [] && l.tx.sent == [] && |p| <= MAX_PLAINTEXT
    requires cfg.mode.Sealed? ==> key == TrueKey(cfg, d) && l.tx.hello != []
    ensures LaneInv(cfg, d, StartFrame(cfg.mode, cfg.cipher, key, l, p))
  {
    hide StartFrame, TrueKey, PlainLane, ReceiverOk, LinkOk, PartialOk;
    if cfg.mode.Sealed? {
      SealedStartFirst(cfg.cipher, key, HelloOf(cfg, d), l, p);
    } else {
      PlainStartFirst(cfg.cipher, key, l, p);
    }
  }

  lemma LaneDeliver(cfg: Config, d: Dir, l: Lane)
    requires cfg.Valid() && LaneInv(cfg, d, l) && l.rx.buffered != []
    ensures LaneInv(cfg, d, DeliverByte(l))
  {
    hide SealedLane, PlainLane, DeliverByte, TrueKey;
    if cfg.mode.Sealed? { SealedDeliver(cfg.cipher, TrueKey(cfg, d), HelloOf(cfg, d), l); } else { PlainDeliver(l); }
  }

  lemma LaneCut(cfg: Config, d: Dir, l: Lane, n: nat)
    requires cfg.Valid() && LaneInv(cfg, d, l) && n <= |l.wire|
    ensures LaneInv(cfg, d, CutWireAt(l, n))
  {
    hide SealedLane, PlainLane, CutWireAt, TrueKey;
    if cfg.mode.Sealed? { SealedCut(cfg.cipher, TrueKey(cfg, d), HelloOf(cfg, d), l, n); } else { PlainCut(l, n); }
  }

  /** A lane where nothing was said yet. */
  lemma LaneFresh(cfg: Config, d: Dir, source: seq<byte>)
    requires cfg.Valid()
    ensures LaneInv(cfg, d, EmptyLane(source))
  {
    hide SealedLane, EmptyLane, TrueKey;
    if cfg.mode.Sealed? {
      SealedEmpty(cfg.cipher, TrueKey(cfg, d), HelloOf(cfg, d), source);
    } else {
      PlainEmpty(source);
    }
  }

  lemma PlainEmpty(source: seq<byte>)
    ensures PlainLane(EmptyLane(source))
  {
  }

  // ---------------------------------------------------------------------------
  // Each action
  // ---------------------------------------------------------------------------

  lemma StepEmitUp(cfg: Config, s: State)
    requires cfg.Valid() && Inv(cfg, s) && Enabled(cfg, s, Emit(Up))
    ensures Inv(cfg, Next(cfg, s, Emit(Up)))
  {
    hide ServerInv, ReplyInv, LaneInv, TrueKeys, Wrap64, Reply, ParseHeader, SocksDialogue, Header, CutOutput, DialogueOf, StatusFor, AppBytes, HeaderOf;
    LaneEmit(cfg, Up, s.up);
  }

  lemma StepEmitDown(cfg: Config, s: State)
    requires cfg.Valid() && Inv(cfg, s) && Enabled(cfg, s, Emit(Down))
    ensures Inv(cfg, Next(cfg, s, Emit(Down)))
  {
    hide ClientInv, ReplyInv, LaneInv, TrueKeys, Wrap64, Reply, ParseHeader, SocksDialogue, Header, CutOutput, DialogueOf, StatusFor, AppBytes, HeaderOf;
    LaneEmit(cfg, Down, s.down);
  }

  lemma StepFetchUp(cfg: Config, s: State, k: nat)
    requires cfg.Valid() && Inv(cfg, s) && Enabled(cfg, s, Fetch(Up, k))
    ensures Inv(cfg, Next(cfg, s, Fetch(Up, k)))
  {
    hide LaneInv, ServerInv, ReplyInv, TrueKeys, Reply, ParseHeader, StatusFor, DialogueOf, HeaderOf, AppBytes, NonceBytes, FrameBytes;
    LaneFetch(cfg, Up, s.up, SendKey(s, Up), k);
    FetchKeepsSource(s.up.tx, k);
  }

  lemma StepFetchDown(cfg: Config, s: State, k: nat)
    requires cfg.Valid() && Inv(cfg, s) && Enabled(cfg, s, Fetch(Down, k))
    ensures Inv(cfg, Next(cfg, s, Fetch(Down, k)))
  {
    hide LaneInv, ClientInv, ReplyInv, TrueKeys, Reply, ParseHeader, StatusFor, DialogueOf, HeaderOf, AppBytes, NonceBytes, FrameBytes;
    LaneFetch(cfg, Down, s.down, SendKey(s, Down), k);
    FetchKeepsSource(s.down.tx, k);
  }

  lemma FetchKeepsSource(tx: Sender, k: nat)
    requires k <= |tx.source|
    ensures (tx.read + tx.source[..k]) + tx.source[k..] == tx.read + tx.source
  {
    assert tx.source == tx.source[..k] + tx.source[k..];
  }

  lemma StepDeliver(cfg: Config, s: State, d: Dir)
    requires cfg.Valid() && Inv(cfg, s) && Enabled(cfg, s, Deliver(d))
    ensures Inv(cfg, Next(cfg, s, Deliver(d)))
  {
    hide LaneInv, TrueKeys, Reply, ParseHeader, SocksDialogue, Header, CutOutput, DialogueOf, StatusFor;
    LaneDeliver(cfg, d, LaneOf(s, d));
  }

  lemma StepCut(cfg: Config, s: State, d: Dir, n: nat)
    requires cfg.Valid() && Inv(cfg, s) && Enabled(cfg, s, Cut(d, n))
    ensures Inv(cfg, Next(cfg, s, Cut(d, n)))
  {
    hide ClientInv, ServerInv, ReplyInv, LaneInv, TrueKeys, Reply, ParseHeader, SocksDialogue, Header, CutOutput, DialogueOf, StatusFor;
    LaneCut(cfg, d, LaneOf(s, d), n);
  }

  /** The client ends: nothing more is claimed about it. */
  lemma ClientOver(cfg: Config, s: State)
    requires cfg.Valid() && Inv(cfg, s) && s.client != Waiting
    ensures Inv(cfg, s.(client := Over))
  {
    hide LaneInv, TrueKeys, ServerInv, ReplyInv, DialogueOf, HeaderOf, AppBytes, Reply;
  }

  lemma ServerOver(cfg: Config, s: State)
    requires cfg.Valid() && Inv(cfg, s) && s.server != Waiting
    ensures Inv(cfg, s.(server := Over))
  {
    hide LaneInv, TrueKeys, ClientInv, ReplyInv, ParseHeader, StatusFor;
  }

  lemma StepFinish(cfg: Config, s: State, p: Party)
    requires cfg.Valid() && Inv(cfg, s) && Enabled(cfg, s, Finish(p))
    ensures Inv(cfg, Next(cfg, s, Finish(p)))
  {
    hide Inv, ReplyDue, ChunkLimit;
    if p.Client? { ClientOver(cfg, s); } else { ServerOver(cfg, s); }
  }

  lemma HeaderFitsFrame(cfg: Config)
    requires cfg.Valid() && DialogueOf(cfg).Accepted?
    ensures |HeaderOf(cfg)| <= MAX_PLAINTEXT && DialogueOf(cfg).port < U16_SIZE
    ensures DialogueOf(cfg).used <= |cfg.application|
  {
    hide SocksDialogue, Header, AddressText;
    AcceptedRequest(cfg.lossy, cfg.application);
    var d := DialogueOf(cfg);
    var a: AddressType, raw :| (a.Ipv4? ==> |raw| == 4) && (a.Ipv6? ==> |raw| == 16) && |raw| <= 255
      && d.address == AddressText(cfg.lossy, a, raw);
    HeaderFits(cfg.lossy, a, raw, d.port);
  }

  /** A refusal is well-formed output and never a success. */
  lemma RefusalOutput(cfg: Config, n: nat)
    requires DialogueOf(cfg).Refused? && n <= |DialogueOf(cfg).output|
    ensures var w := DialogueOf(cfg).output;
      && CutOutput(w[..n]) && CutOutput(w) && (|w| <= 3 || w[3] != 0)
  {
    hide TakeAddress, FromU16;
    AcceptedRequest(cfg.lossy, cfg.application);
    var w := DialogueOf(cfg).output;
    assert w[..n] <= w && WellFormedOutput(w);
  }

  lemma StepDial(cfg: Config, s: State)
    requires cfg.Valid() && Inv(cfg, s) && Enabled(cfg, s, Dial)
    ensures Inv(cfg, Next(cfg, s, Dial))
  {
    hide LaneInv, TrueKeys, Reply, CutOutput, DialogueOf, StatusFor, ParseHeader, NonceBytes, SealedFrame, HeaderOf;
    match DialogueOf(cfg) {
      case Refused(w) =>
        RefusalOutput(cfg, |w|);
      case Accepted(_, _, used) =>
        HeaderFitsFrame(cfg);
        CutReply(0, []);
        var rest := cfg.application[used..];
        LaneFresh(cfg, Up, rest);
        if cfg.mode.Sealed? {
          LaneStartHello(cfg, Up, EmptyLane(rest));
        } else {
          LaneStartFirst(cfg, Up, EmptyLane(rest), [], HeaderOf(cfg));
        }
    }
  }

  lemma LaneStartHello(cfg: Config, d: Dir, l: Lane)
    requires cfg.Valid() && cfg.mode.Sealed? && LaneInv(cfg, d, l) && l.tx.hello == []
    ensures LaneInv(cfg, d, StartHello(l, HelloOf(cfg, d)))
  {
    hide SealedLane, StartHello, TrueKey;
    SealedStartHello(cfg.cipher, TrueKey(cfg, d), HelloOf(cfg, d), l);
  }

  /** A reply to an accepted request: well-formed even when cut, a success only for status 0. */
  lemma ReplyOk(rx: Receiver, n: nat)
    requires rx.got != [] && rx.got[0] != []
    ensures var full := Reply(ReplyFor(rx.got[0][0])); n <= |full| ==> ReplyInv(rx, [SOCKS_VERSION, 0] + full[..n])
    ensures |Reply(ReplyFor(rx.got[0][0]))| == 10
  {
    hide CutOutput;
    var code := ReplyFor(rx.got[0][0]);
    if n <= 10 { CutReply(code, Reply(code)[..n]); }
  }

  lemma StepAnswer(cfg: Config, s: State)
    requires cfg.Valid() && Inv(cfg, s) && Enabled(cfg, s, Answer)
    ensures Inv(cfg, Next(cfg, s, Answer))
  {
    hide LaneInv, TrueKeys, ServerInv, ReplyInv, Header, DialogueOf, Reply, HeaderOf, AppBytes;
    var full := Reply(ReplyFor(s.down.rx.got[0][0]));
    ReplyOk(s.down.rx, 10);
    assert full[..10] == full;
  }

  lemma StepAbort(cfg: Config, s: State, p: Party, n: nat)
    requires cfg.Valid() && Inv(cfg, s) && Enabled(cfg, s, Abort(p, n))
    ensures Inv(cfg, Next(cfg, s, Abort(p, n)))
  {
    hide LaneInv, TrueKeys, HeaderOf, Reply, DialogueOf, ReplyInv, StatusFor, ParseHeader, AppBytes;
    if p.Client? {
      hide ServerInv;
      if s.client == Waiting {
        DueReplyOk(cfg, s, n);
      } else if s.client == Replying {
        ReplyOk(s.down.rx, n);
      } else {
        assert s.reply + [] == s.reply;
      }
    }
  }

  lemma DueReplyOk(cfg: Config, s: State, n: nat)
    requires s.client == Waiting && s.reply == [] && n <= |ReplyDue(cfg, s)|
    ensures ReplyInv(s.down.rx, s.reply + ReplyDue(cfg, s)[..n])
  {
    hide CutOutput, DialogueOf;
    var due := ReplyDue(cfg, s);
    assert s.reply + due[..n] == due[..n];
    if DialogueOf(cfg).Refused? {
      RefusalOutput(cfg, n);
    } else {
      CutOfAcceptance(n);
    }
  }

  lemma CutOfAcceptance(n: nat)
    requires n <= 2
    ensures CutOutput([SOCKS_VERSION, 0][..n])
  {
    var full := [SOCKS_VERSION, 0];
    assert WellFormedOutput(full) && full[..n] <= full;
  }

  // ---------------------------------------------------------------------------
  // A byte read
  // ---------------------------------------------------------------------------

  /** A byte read inside a frame: more is needed, or the frame the sender sealed next is accepted. */
  lemma LaneInspect(cfg: Config, d: Dir, l: Lane, key: Key, relayed: bool)
    requires cfg.Valid() && LaneInv(cfg, d, l) && l.wire != []
    requires if cfg.mode.Sealed? then l.rx.heard != [] && key == TrueKey(cfg, d) else l.rx.got == []
    requires (relayed <==> l.rx.got != []) && (relayed ==> l.rx.buffered == [])
    ensures var l', n := TakeByte(l), |l.rx.got|;
      && n < |l.tx.sent|
      && match Inspect(cfg.mode, l'.rx.partial)
         case NeedMore => LaneInv(cfg, d, l')
         case TooSmall => false
         case Whole(body) =>
           && OpenBody(cfg.mode, cfg.cipher, key, l.rx.counter, body) == Some(l.tx.sent[n])
           && LaneInv(cfg, d, AcceptFrame(cfg.mode, l', l.tx.sent[n], relayed))
  {
    hide Inspect, OpenBody, AcceptFrame, TrueKey, TakeByte, SenderOk, ReceiverOk, LinkOk, PartialOk;
    if cfg.mode.Sealed? {
      LaneInspectSealed(cfg.cipher, key, HelloOf(cfg, d), l, relayed);
    } else {
      LaneInspectPlain(cfg.cipher, key, l);
    }
  }

  lemma LaneInspectSealed(c: Cipher, key: Key, hello: seq<byte>, l: Lane, relayed: bool)
    requires c.Correct() && SealedLane(c, key, hello, l) && l.wire != [] && l.rx.heard != []
    requires (relayed <==> l.rx.got != []) && (relayed ==> l.rx.buffered == [])
    ensures var l', n := TakeByte(l), |l.rx.got|;
      && n < |l.tx.sent|
      && match Inspect(Sealed, l'.rx.partial)
         case NeedMore => SealedLane(c, key, hello, l')
         case TooSmall => false
         case Whole(body) =>
           && OpenBody(Sealed, c, key, l.rx.counter, body) == Some(l.tx.sent[n])
           && SealedLane(c, key, hello, AcceptFrame(Sealed, l', l.tx.sent[n], relayed))
  {
    hide Inspect, OpenBody, AcceptFrame, SenderOk, ReceiverOk, LinkOk;
    SealedInspect(c, key, hello, l);
    SealedTake(c, key, hello, l);
    if Inspect(Sealed, TakeByte(l).rx.partial).Whole? {
      SealedAccept(c, key, hello, TakeByte(l), relayed);
    }
  }

  lemma LaneInspectPlain(c: Cipher, key: Key, l: Lane)
    requires PlainLane(l) && l.wire != [] && l.rx.got == []
    ensures var l' := TakeByte(l);
      && l.tx.sent != []
      && match Inspect(Plain, l'.rx.partial)
         case NeedMore => PlainLane(l')
         case TooSmall => false
         case Whole(body) =>
           && OpenBody(Plain, c, key, l.rx.counter, body) == Some(l.tx.sent[0])
           && PlainLane(AcceptFrame(Plain, l', l.tx.sent[0], false))
  {
    hide PlainLane, TakeByte, AcceptFrame, Inspect;
    PlainInspect(l);
  }

  lemma StepAbsorbRaw(cfg: Config, s: State, d: Dir)
    requires cfg.Valid() && Inv(cfg, s) && Enabled(cfg, s, Absorb(d))
    requires cfg.mode.Plain? && PhaseOf(s, ReceiverOf(d)) == Relaying
    ensures Inv(cfg, Next(cfg, s, Absorb(d)))
  {
    hide PlainLane, TrueKeys, DialogueOf, HeaderOf, AppBytes, Reply, ParseHeader, StatusFor, CutOutput;
    assert LaneOf(s, d).rx.got != [];
    PlainTakeRaw(LaneOf(s, d));
  }

  /** A byte of the peer's handshake nonce; with the last one the keys are the true ones. */
  lemma LaneHear(cfg: Config, d: Dir, l: Lane)
    requires cfg.Valid() && cfg.mode.Sealed? && LaneInv(cfg, d, l) && l.wire != [] && l.rx.heard == []
    ensures var l' := TakeByte(l);
      && (|l'.rx.partial| < KEY_LEN ==> LaneInv(cfg, d, l'))
      && (|l'.rx.partial| >= KEY_LEN ==> l'.rx.partial == HelloOf(cfg, d) && LaneInv(cfg, d, Hear(l')))
  {
    hide SealedLane, TakeByte, Hear, TrueKey;
    SealedHear(cfg.cipher, TrueKey(cfg, d), HelloOf(cfg, d), l);
  }

  lemma StepAbsorbHelloUp(cfg: Config, s: State)
    requires cfg.Valid() && Inv(cfg, s) && Enabled(cfg, s, Absorb(Up)) && s.server == HelloIn
    ensures Inv(cfg, Next(cfg, s, Absorb(Up)))
  {
    hide LaneInv, ClientInv, ReplyInv, DeriveSessionKeys, ParseHeader, StatusFor, ReplyDue;
    LaneHear(cfg, Up, s.up);
    if |TakeByte(s.up).rx.partial| >= KEY_LEN {
      LaneStartHello(cfg, Down, s.down);
    }
  }

  lemma StepAbsorbHelloDown(cfg: Config, s: State)
    requires cfg.Valid() && Inv(cfg, s) && Enabled(cfg, s, Absorb(Down)) && s.client == HelloIn
    ensures Inv(cfg, Next(cfg, s, Absorb(Down)))
  {
    hide LaneInv, ServerInv, DialogueOf, HeaderOf, AppBytes, Reply, DeriveSessionKeys, CutOutput, NonceBytes, SealedFrame;
    LaneHear(cfg, Down, s.down);
    if |TakeByte(s.down).rx.partial| >= KEY_LEN {
      HeaderFitsFrame(cfg);
      LaneStartFirst(cfg, Up, s.up, TrueKey(cfg, Up), HeaderOf(cfg));
    }
  }

  lemma StepAbsorbHeader(cfg: Config, s: State)
    requires cfg.Valid() && Inv(cfg, s) && Enabled(cfg, s, Absorb(Up)) && s.server == FrameIn
    ensures Inv(cfg, Next(cfg, s, Absorb(Up)))
  {
    hide LaneInv, ClientInv, ReplyInv, Inspect, OpenBody, ParseHeader, StatusFor, TrueKeys, FrameBytes, ReplyDue, NonceBytes;
    LaneInspect(cfg, Up, s.up, s.serverKeys.client, false);
    var p := s.up.tx.sent[0];
    if ParseHeader(cfg.lossy, p).Some? {
      StatusFrame(cfg, s.down, s.serverKeys.server, [StatusFor(cfg.network, ParseHeader(cfg.lossy, p).value)]);
    }
  }

  lemma StatusFrame(cfg: Config, l: Lane, key: Key, status: seq<byte>)
    requires cfg.Valid() && LaneInv(cfg, Down, l) && l.tx.pending == [] && l.tx.sent == [] && |status| == 1
    requires cfg.mode.Sealed? ==> key == TrueKeys(cfg).server && l.tx.hello != []
    ensures LaneInv(cfg, Down, StartFrame(cfg.mode, cfg.cipher, key, l, status))
    ensures FrameBytes(cfg.mode, cfg.cipher, key, l.tx.counter, status) != []
  {
    hide LaneInv, StartFrame, TrueKeys, SealedFrame;
    LaneStartFirst(cfg, Down, l, key, status);
  }

  lemma StepAbsorbStatus(cfg: Config, s: State)
    requires cfg.Valid() && Inv(cfg, s) && Enabled(cfg, s, Absorb(Down)) && s.client == FrameIn
    ensures Inv(cfg, Next(cfg, s, Absorb(Down)))
  {
    hide LaneInv, ServerInv, Inspect, OpenBody, DialogueOf, HeaderOf, AppBytes, Reply, TrueKeys, FrameBytes, CutOutput, ReplyDue;
    LaneInspect(cfg, Down, s.down, s.clientKeys.server, false);
  }

  lemma StepAbsorbRelayed(cfg: Config, s: State, d: Dir)
    requires cfg.Valid() && Inv(cfg, s) && Enabled(cfg, s, Absorb(d))
    requires cfg.mode.Sealed? && PhaseOf(s, ReceiverOf(d)) == Relaying
    ensures Inv(cfg, Next(cfg, s, Absorb(d)))
  {
    hide LaneInv, Inspect, OpenBody, DialogueOf, HeaderOf, AppBytes, Reply, TrueKeys, FrameBytes, CutOutput, ParseHeader, StatusFor, ReplyDue;
    LaneInspect(cfg, d, LaneOf(s, d), RecvKey(s, d), true);
  }

  lemma StepKeepsInv(cfg: Config, s: State, a: Action)
    requires cfg.Valid() && Inv(cfg, s) && Enabled(cfg, s, a)
    ensures Inv(cfg, Next(cfg, s, a))
  {
    hide Next, Inv, ReplyDue, ChunkLimit;
    match a {
      case Dial => StepDial(cfg, s);
      case Emit(d) => if d.Up? { StepEmitUp(cfg, s); } else { StepEmitDown(cfg, s); }
      case Absorb(d) =>
        var f := PhaseOf(s, ReceiverOf(d));
        if f == Relaying {
          if cfg.mode.Sealed? { StepAbsorbRelayed(cfg, s, d); } else { StepAbsorbRaw(cfg, s, d); }
        } else if f == HelloIn {
          if d.Up? { StepAbsorbHelloUp(cfg, s); } else { StepAbsorbHelloDown(cfg, s); }
        } else {
          if d.Up? { StepAbsorbHeader(cfg, s); } else { StepAbsorbStatus(cfg, s); }
        }
      case Fetch(d, k) => if d.Up? { StepFetchUp(cfg, s, k); } else { StepFetchDown(cfg, s, k); }
      case Deliver(d) => StepDeliver(cfg, s, d);
      case Answer => StepAnswer(cfg, s);
      case Finish(p) => StepFinish(cfg, s, p);
      case Abort(p, n) => StepAbort(cfg, s, p, n);
      case Cut(d, n) => StepCut(cfg, s, d, n);
    }
  }

  lemma InitInv(cfg: Config)
    requires cfg.Valid()
    ensures Inv(cfg, Init(cfg))
  {
    hide LaneInv, TrueKeys, DialogueOf, HeaderOf, AppBytes, Reply, ParseHeader, StatusFor;
    LaneFresh(cfg, Up, []);
    LaneFresh(cfg, Down, cfg.remote);
    assert WellFormedOutput([]);
    assert CutOutput([]);
  }

  lemma {:induction false} ExecKeepsInv(cfg: Config, s: State, run: seq<Action>)
    requires cfg.Valid() && Inv(cfg, s)
    ensures match Exec(cfg, s, run) case Some(s') => Inv(cfg, s') case None => true
    decreases |run|
  {
    hide Next, Inv, Enabled;
    if run != [] && Enabled(cfg, s, run[0]) {
      StepKeepsInv(cfg, s, run[0]);
      ExecKeepsInv(cfg, Next(cfg, s, run[0]), run[1..]);
    }
  }

  /** The invariant holds in every reachable state, whatever the interleaving, the failures and the losses. */
  lemma ReachableInv(cfg: Config, s: State)
    requires cfg.Valid() && Reachable(cfg, s)
    ensures Inv(cfg, s)
  {
    hide Inv, Exec, Init;
    var run :| Exec(cfg, Init(cfg), run) == Some(s);
    InitInv(cfg);
    ExecKeepsInv(cfg, Init(cfg), run);
  }
}
