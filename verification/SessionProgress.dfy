/** Setup always moves on, ends, and ends the same way for both parties. */
module SessionProgress {
  import opened Bytes
  import opened Aead
  import opened Frames
  import opened Protocol
  import opened SocksClient
  import opened TunnelServer
  import opened Lanes
  import opened LaneProofs
  import opened Session
  import opened SessionInvariant

  // ---------------------------------------------------------------------------
  // A measure of the setup still to be done
  // ---------------------------------------------------------------------------

  /** Phases left before the relay. */
  function Rank(f: Phase): nat {
    match f
    case Waiting => 6
    case HelloOut => 5
    case HelloIn => 5
    case FrameOut => 3
    case FrameIn => 3
    case Replying => 1
    case Relaying => 0
    case Over => 0
  }

  /** The order of the phases differs between the parties where both read and write. */
  function PartyRank(p: Party, f: Phase): nat {
    2 * Rank(f) + if (p.Client? && f in {HelloOut, FrameOut}) || (p.Server? && f in {HelloIn, FrameIn}) then 1 else 0
  }

  /** Bytes left to write, or room left for the unit being read; a unit is shorter than 70000 bytes. */
  function UnitWork(f: Phase, pending: seq<byte>, partial: seq<byte>): int {
    if f in {HelloOut, FrameOut} then |pending|
    else if f in {HelloIn, FrameIn} then 70_000 - |partial|
    else 0
  }

  function PartyWork(p: Party, f: Phase, tx: Sender, rx: Receiver): int {
    140_000 * PartyRank(p, f) + UnitWork(f, tx.pending, rx.partial)
  }

  function Work(s: State): int {
    PartyWork(Client, s.client, s.up.tx, s.down.rx) + PartyWork(Server, s.server, s.down.tx, s.up.rx)
  }

  predicate Good(a: Action) { !a.Abort? && !a.Cut? }

  /** The action moves a party that has not reached the relay. */
  predicate IsSetup(s: State, a: Action) {
    match a
    case Dial => true
    case Emit(d) => PhaseOf(s, SenderOf(d)) != Relaying
    case Absorb(d) => PhaseOf(s, ReceiverOf(d)) != Relaying
    case Answer => true
    case Finish(p) => PhaseOf(s, p) != Relaying
    case _ => false
  }

  predicate SetupDone(s: State) {
    && s.client in {Relaying, Over}
    && (s.server in {Relaying, Over} || (s.server == Waiting && s.client == Over))
  }

  /** Never more than a frame is held by a read in progress. */
  lemma PartialBound(cfg: Config, d: Dir, l: Lane)
    requires cfg.Valid() && LaneInv(cfg, d, l)
    ensures |l.rx.partial| < 66000
  {
    hide TrueKey, InFlight, ToU16;
    if cfg.mode.Sealed? {
      NothingInFlight(cfg.cipher, TrueKey(cfg, d), HelloOf(cfg, d), l);
    } else if l.rx.got == [] && l.tx.sent == [] {
      PlainIdle(l);
    }
  }

  lemma PlainIdle(l: Lane)
    requires PlainLane(l) && l.rx.got == [] && l.tx.sent == []
    ensures l.rx.partial == []
  {
    assert InFlight(l) == [];
  }

  lemma FrameBytesSize(cfg: Config, key: Key, counter: nat, p: seq<byte>)
    requires cfg.Valid() && |p| <= MAX_PLAINTEXT
    ensures 0 < |FrameBytes(cfg.mode, cfg.cipher, key, counter, p)| < 66000
  {
    hide NonceBytes, ToU16;
    assert |Seal(cfg.cipher, key, counter, p)| == |p| + TAG_LEN;
  }

  lemma DialMoves(cfg: Config, s: State)
    requires cfg.Valid() && Inv(cfg, s) && Enabled(cfg, s, Dial)
    ensures Work(Next(cfg, s, Dial)) < Work(s)
  {
    hide ClientInv, ServerInv, LaneInv, ReplyInv, DialogueOf, HeaderOf, FrameBytes, NonceBytes;
    if DialogueOf(cfg).Accepted? {
      HeaderFitsFrame(cfg);
      FrameBytesSize(cfg, [], s.up.tx.counter, HeaderOf(cfg));
    }
  }

  lemma EmitUpMoves(cfg: Config, s: State)
    requires cfg.Valid() && Enabled(cfg, s, Emit(Up))
    ensures Moves(cfg, s, Emit(Up))
  {
    hide Wrap64, DialogueOf;
  }

  lemma EmitDownMoves(cfg: Config, s: State)
    requires cfg.Valid() && Enabled(cfg, s, Emit(Down))
    ensures Moves(cfg, s, Emit(Down))
  {
    hide Wrap64, DialogueOf;
  }

  /** A setup action shrinks the work; any other leaves it. */
  ghost predicate Moves(cfg: Config, s: State, a: Action)
    requires cfg.Valid() && Enabled(cfg, s, a)
  {
    if IsSetup(s, a) then Work(Next(cfg, s, a)) < Work(s) else Work(Next(cfg, s, a)) == Work(s)
  }

  lemma AbsorbHelloMoves(cfg: Config, s: State, d: Dir)
    requires cfg.Valid() && LaneInv(cfg, d, LaneOf(s, d)) && Enabled(cfg, s, Absorb(d)) && PhaseOf(s, ReceiverOf(d)) == HelloIn
    ensures Moves(cfg, s, Absorb(d))
  {
    hide LaneInv, Wrap64, DialogueOf, HeaderOf, FrameBytes, NonceBytes, Inspect, OpenBody, DeriveSessionKeys, Opened;
    PartialBound(cfg, d, LaneOf(s, d));
    if d.Down? && DialogueOf(cfg).Accepted? {
      HeaderFitsFrame(cfg);
      var keys := DeriveSessionKeys(cfg.kdf, cfg.psk, cfg.clientHello, TakeByte(s.down).rx.partial);
      FrameBytesSize(cfg, keys.client, s.up.tx.counter, HeaderOf(cfg));
    }
  }

  /** A read in the relay touches the receiver only, which stays or ends. */
  ghost predicate RelayRead(s: State, n: State, d: Dir) {
    && PhaseOf(n, SenderOf(d)) == PhaseOf(s, SenderOf(d)) && PhaseOf(n, ReceiverOf(d)) in {Relaying, Over}
    && n.up.tx == s.up.tx && n.down.tx == s.down.tx
    && (if d.Up? then n.down.rx == s.down.rx else n.up.rx == s.up.rx)
  }

  lemma RelayReads(cfg: Config, s: State, d: Dir)
    requires cfg.Valid() && Enabled(cfg, s, Absorb(d)) && PhaseOf(s, ReceiverOf(d)) == Relaying
    ensures RelayRead(s, Next(cfg, s, Absorb(d)), d)
  {
    hide Wrap64, Inspect, OpenBody, DialogueOf, HelloHeard, HeaderArrived;
  }

  lemma RelayReadWork(s: State, n: State, d: Dir)
    requires RelayRead(s, n, d) && PhaseOf(s, ReceiverOf(d)) == Relaying
    ensures Work(n) == Work(s)
  {
  }

  lemma AbsorbRelayMoves(cfg: Config, s: State, d: Dir)
    requires cfg.Valid() && Enabled(cfg, s, Absorb(d)) && PhaseOf(s, ReceiverOf(d)) == Relaying
    ensures Moves(cfg, s, Absorb(d))
  {
    hide Next, Work, RelayRead, Enabled;
    RelayReads(cfg, s, d);
    RelayReadWork(s, Next(cfg, s, Absorb(d)), d);
  }

  lemma AbsorbStatusMoves(cfg: Config, s: State)
    requires cfg.Valid() && LaneInv(cfg, Down, s.down) && Enabled(cfg, s, Absorb(Down)) && s.client == FrameIn
    ensures Moves(cfg, s, Absorb(Down))
  {
    hide LaneInv, Wrap64, DialogueOf, Inspect, OpenBody, HelloHeard, HeaderArrived;
    PartialBound(cfg, Down, s.down);
  }

  lemma AbsorbHeaderMoves(cfg: Config, s: State)
    requires cfg.Valid() && LaneInv(cfg, Up, s.up) && Enabled(cfg, s, Absorb(Up)) && s.server == FrameIn
    ensures Moves(cfg, s, Absorb(Up))
  {
    hide LaneInv, Enabled, Work, HeaderArrived, AcceptFrame, TakeByte, Inspect, OpenBody;
    PartialBound(cfg, Up, s.up);
    ByteTaken(cfg, s);
    var l := TakeByte(s.up);
    match Inspect(cfg.mode, l.rx.partial) {
      case NeedMore =>
      case TooSmall =>
      case Whole(body) =>
        match OpenBody(cfg.mode, cfg.cipher, s.serverKeys.client, l.rx.counter, body) {
          case None =>
          case Some(frame) => HeaderArrivedWork(cfg, s, frame);
        }
    }
  }

  /** Another byte of the header, or a server that ends. */
  lemma ByteTaken(cfg: Config, s: State)
    requires Enabled(cfg, s, Absorb(Up)) && s.server == FrameIn && |s.up.rx.partial| < 66000
    ensures s.up.wire != []
    ensures var l := TakeByte(s.up); Work(s.(up := l)) < Work(s) && Work(s.(up := l, server := Over)) < Work(s)
  {
  }

  lemma HeaderArrivedWork(cfg: Config, s: State, frame: seq<byte>)
    requires cfg.Valid() && Enabled(cfg, s, Absorb(Up)) && s.server == FrameIn && |s.up.rx.partial| < 66000
    ensures Work(HeaderArrived(cfg, s.(up := AcceptFrame(cfg.mode, TakeByte(s.up), frame, false)), frame)) < Work(s)
  {
    hide ParseHeader, StatusFor, FrameBytes, NonceBytes, Wrap64;
    var t := ParseHeader(cfg.lossy, frame);
    if t.Some? {
      FrameBytesSize(cfg, s.serverKeys.server, s.down.tx.counter, [StatusFor(cfg.network, t.value)]);
    }
  }

  lemma RelayMoves(cfg: Config, s: State, a: Action)
    requires cfg.Valid() && Enabled(cfg, s, a) && (a.Fetch? || a.Deliver?)
    ensures Moves(cfg, s, a)
  {
    hide FrameBytes, NonceBytes, Wrap64;
  }

  lemma AnswerMoves(cfg: Config, s: State)
    requires cfg.Valid() && Enabled(cfg, s, Answer)
    ensures Moves(cfg, s, Answer)
  {
    hide Reply, ReplyFor;
  }

  /** A party that ends a read has none of its work left. */
  lemma FinishMoves(cfg: Config, s: State, p: Party)
    requires cfg.Valid() && Enabled(cfg, s, Finish(p))
    requires |s.up.rx.partial| < 66000 && |s.down.rx.partial| < 66000
    ensures Moves(cfg, s, Finish(p))
  {
    hide AtEof, Work;
    if p.Client? { ClientEnds(s); } else { ServerEnds(s); }
  }

  lemma ClientEnds(s: State)
    requires |s.down.rx.partial| < 66000 && s.client in {HelloIn, FrameIn, Relaying}
    ensures if s.client == Relaying then Work(s.(client := Over)) == Work(s) else Work(s.(client := Over)) < Work(s)
  {
  }

  lemma ServerEnds(s: State)
    requires |s.up.rx.partial| < 66000 && s.server in {HelloIn, FrameIn, Relaying}
    ensures if s.server == Relaying then Work(s.(server := Over)) == Work(s) else Work(s.(server := Over)) < Work(s)
  {
  }

  /**
   Every setup action brings a failure-free session nearer to the end of setup,
   and the relaying of a party that is already there never sets it back.
   */
  lemma SetupMoves(cfg: Config, s: State, a: Action)
    requires cfg.Valid() && Inv(cfg, s) && Enabled(cfg, s, a) && Good(a)
    ensures Moves(cfg, s, a) && Work(s) >= 0
  {
    hide ClientInv, ServerInv, LaneInv, ReplyInv, DialInv, Moves, Work, ReplyDue, ChunkLimit;
    PartialBound(cfg, Up, s.up);
    PartialBound(cfg, Down, s.down);
    WorkIsNatural(s);
    match a {
      case Dial =>
        DialMoves(cfg, s);
        DialIsSetup(cfg, s);
      case Emit(d) => if d.Up? { EmitUpMoves(cfg, s); } else { EmitDownMoves(cfg, s); }
      case Absorb(d) =>
        if PhaseOf(s, ReceiverOf(d)) == Relaying {
          AbsorbRelayMoves(cfg, s, d);
        } else if PhaseOf(s, ReceiverOf(d)) == HelloIn {
          AbsorbHelloMoves(cfg, s, d);
        } else if d.Up? {
          AbsorbHeaderMoves(cfg, s);
        } else {
          AbsorbStatusMoves(cfg, s);
        }
      case Fetch(_, _) => RelayMoves(cfg, s, a);
      case Deliver(_) => RelayMoves(cfg, s, a);
      case Answer => AnswerMoves(cfg, s);
      case Finish(p) => FinishMoves(cfg, s, p);
    }
  }

  lemma WorkIsNatural(s: State)
    requires |s.up.rx.partial| < 66000 && |s.down.rx.partial| < 66000
    ensures Work(s) >= 0
  {
  }

  lemma DialIsSetup(cfg: Config, s: State)
    requires cfg.Valid() && Enabled(cfg, s, Dial) && Work(Next(cfg, s, Dial)) < Work(s)
    ensures Moves(cfg, s, Dial)
  {
    hide Work, Next;
  }
}
