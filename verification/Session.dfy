/**
 One client session as a state machine: the application's SOCKS bytes, both
 endpoints and the two directions between them, interleaved in every way. The
 same machine runs over the plain and over the encrypted tunnel.
 */
module Session {
  import opened Bytes
  import opened Aead
  import opened Protocol
  import opened SocksClient
  import opened TunnelServer
  import opened PlainTunnels
  import opened Lanes

  datatype Dir = Up | Down            // client to server, server to client
  datatype Party = Client | Server

  /** Where an endpoint stands; the server waits until it is dialled. */
  datatype Phase = Waiting | HelloOut | HelloIn | FrameOut | FrameIn | Replying | Relaying | Over

  /** What a session depends on from outside. */
  datatype Config = Config(
    mode: Mode, cipher: Cipher, kdf: Kdf, psk: Key, clientHello: seq<byte>, serverHello: seq<byte>,
    lossy: Lossy, network: Network,
    application: seq<byte>,           // everything the SOCKS application will send
    remote: seq<byte>)                // everything the remote host will send
  {
    ghost predicate Valid() {
      && cipher.Correct() && KdfYields64(kdf) && LossyLaws(lossy)
      && |clientHello| == KEY_LEN && |serverHello| == KEY_LEN
    }
  }

  datatype State = State(
    client: Phase, server: Phase,
    clientKeys: SessionKeys, serverKeys: SessionKeys,
    up: Lane, down: Lane,
    reply: seq<byte>,                 // written to the application before the relay
    target: Option<Target>,           // parsed by the server
    connected: bool)                  // the server's connect succeeded

  datatype Action =
    | Dial                            // the SOCKS dialogue and the connection to the server
    | Emit(d: Dir)                    // a byte of a write reaches the wire
    | Absorb(d: Dir)                  // a byte of a read leaves it
    | Fetch(d: Dir, k: nat)           // the relay reads a chunk of the external stream
    | Deliver(d: Dir)                 // a byte is written to the external stream
    | Answer                          // the SOCKS reply
    | Finish(p: Party)                // an endpoint reaches its end of stream
    | Abort(p: Party, n: nat)         // an I/O error, with n bytes of a reply written
    | Cut(d: Dir, n: nat)             // a closed connection loses what it has not delivered

  function Init(cfg: Config): State {
    State(Waiting, Waiting, SessionKeys([], []), SessionKeys([], []),
          EmptyLane([]), EmptyLane(cfg.remote), [], None, false)
  }

  function LaneOf(s: State, d: Dir): Lane { if d.Up? then s.up else s.down }
  function WithLane(s: State, d: Dir, l: Lane): State { if d.Up? then s.(up := l) else s.(down := l) }
  function SenderOf(d: Dir): Party { if d.Up? then Client else Server }
  function ReceiverOf(d: Dir): Party { if d.Up? then Server else Client }
  function PhaseOf(s: State, p: Party): Phase { if p.Client? then s.client else s.server }
  function WithPhase(s: State, p: Party, f: Phase): State { if p.Client? then s.(client := f) else s.(server := f) }

  /** The client sends under the client key and receives under the server key; the server the other way round. */
  function SendKey(s: State, d: Dir): Key { if d.Up? then s.clientKeys.client else s.serverKeys.server }
  function RecvKey(s: State, d: Dir): Key { if d.Up? then s.serverKeys.client else s.clientKeys.server }

  function DialogueOf(cfg: Config): Dialogue { SocksDialogue(cfg.lossy, cfg.application) }

  function HeaderOf(cfg: Config): seq<byte>
    requires DialogueOf(cfg).Accepted?
  {
    Header(DialogueOf(cfg).address, DialogueOf(cfg).port)
  }

  function ChunkLimit(cfg: Config): nat { if cfg.mode.Sealed? then RELAY_BUF else COPY_BUF }

  /** The sender has closed and everything that got through was read. */
  predicate AtEof(s: State, d: Dir) {
    PhaseOf(s, SenderOf(d)) == Over && LaneOf(s, d).wire == []
  }

  /** What the client would write to the application in its current phase. */
  function ReplyDue(cfg: Config, s: State): seq<byte> {
    match s.client
    case Waiting =>
      (match DialogueOf(cfg) case Refused(w) => w case Accepted(_, _, _) => [SOCKS_VERSION, 0])
    case Replying =>
      if s.down.rx.got != [] && s.down.rx.got[0] != [] then Reply(ReplyFor(s.down.rx.got[0][0])) else []
    case _ => []
  }

  predicate Enabled(cfg: Config, s: State, a: Action) {
    match a
    case Dial => s.client == Waiting
    case Emit(d) => PhaseOf(s, SenderOf(d)) in {HelloOut, FrameOut, Relaying} && LaneOf(s, d).tx.pending != []
    case Absorb(d) =>
      var l, f := LaneOf(s, d), PhaseOf(s, ReceiverOf(d));
      && l.wire != []
      && (f in {HelloIn, FrameIn}
          || (f == Relaying && if cfg.mode.Sealed? then l.rx.buffered == [] else |l.rx.buffered| < COPY_BUF))
    case Fetch(d, k) =>
      var l := LaneOf(s, d);
      && PhaseOf(s, SenderOf(d)) == Relaying && l.tx.pending == []
      && 1 <= k <= ChunkLimit(cfg) && k <= |l.tx.source|
    case Deliver(d) => PhaseOf(s, ReceiverOf(d)) == Relaying && LaneOf(s, d).rx.buffered != []
    case Answer => s.client == Replying && s.down.rx.got != [] && s.down.rx.got[0] != []
    case Finish(p) =>
      var own, other := if p.Client? then Up else Down, if p.Client? then Down else Up;
      (match PhaseOf(s, p)
       case Relaying =>
         || (LaneOf(s, own).tx.source == [] && LaneOf(s, own).tx.pending == [])
         || (AtEof(s, other) && LaneOf(s, other).rx.buffered == [])
       case HelloIn => AtEof(s, other)
       case FrameIn => AtEof(s, other)
       case _ => false)
    case Abort(p, n) =>
      && PhaseOf(s, p) != Over && (p.Server? ==> s.server != Waiting)
      && (if p.Client? then n <= |ReplyDue(cfg, s)| else n == 0)
    case Cut(d, n) => PhaseOf(s, SenderOf(d)) == Over && n <= |LaneOf(s, d).wire|
  }

  function Next(cfg: Config, s: State, a: Action): State
    requires cfg.Valid() && Enabled(cfg, s, a)
  {
    match a
    case Dial => Dialled(cfg, s)
    case Emit(d) =>
      var s' := WithLane(s, d, EmitByte(cfg.mode, LaneOf(s, d)));
      if LaneOf(s', d).tx.pending != [] then s' else Written(s', d)
    case Absorb(d) =>
      if cfg.mode.Plain? && PhaseOf(s, ReceiverOf(d)) == Relaying
      then WithLane(s, d, TakeRawByte(LaneOf(s, d)))
      else Absorbed(cfg, WithLane(s, d, TakeByte(LaneOf(s, d))), d)
    case Fetch(d, k) => WithLane(s, d, FetchChunk(cfg.mode, cfg.cipher, SendKey(s, d), LaneOf(s, d), k))
    case Deliver(d) => WithLane(s, d, DeliverByte(LaneOf(s, d)))
    case Answer =>
      var status := s.down.rx.got[0][0];
      s.(reply := s.reply + Reply(ReplyFor(status)), client := if status == 0 then Relaying else Over)
    case Finish(p) => WithPhase(s, p, Over)
    case Abort(p, n) =>
      if p.Client? then s.(client := Over, reply := s.reply + ReplyDue(cfg, s)[..n]) else s.(server := Over)
    case Cut(d, n) => WithLane(s, d, CutWireAt(LaneOf(s, d), n))
  }

  /** The dialogue ends the session, or the server is dialled and setup starts. */
  function Dialled(cfg: Config, s: State): State {
    match DialogueOf(cfg)
    case Refused(w) => s.(client := Over, reply := w)
    case Accepted(_, _, used) =>
      var rest := if used <= |cfg.application| then cfg.application[used..] else [];
      var s' := s.(reply := [SOCKS_VERSION, 0], up := s.up.(tx := s.up.tx.(source := rest)));
      if cfg.mode.Sealed?
      then s'.(client := HelloOut, server := HelloIn, up := StartHello(s'.up, cfg.clientHello))
      else s'.(client := FrameOut, server := FrameIn,
               up := StartFrame(cfg.mode, cfg.cipher, [], s'.up, HeaderOf(cfg)))
  }

  /** A write is complete: what the endpoint does next. */
  function Written(s: State, d: Dir): State {
    var p := SenderOf(d);
    match PhaseOf(s, p)
    case HelloOut => WithPhase(s, p, if p.Client? then HelloIn else FrameIn)
    case FrameOut => WithPhase(s, p, if p.Client? then FrameIn else if s.connected then Relaying else Over)
    case _ => s
  }

  /** A byte was added to the read in progress. */
  function Absorbed(cfg: Config, s: State, d: Dir): State
    requires cfg.Valid()
  {
    var l, p := LaneOf(s, d), ReceiverOf(d);
    if PhaseOf(s, p) == HelloIn then
      if |l.rx.partial| < KEY_LEN then s else HelloHeard(cfg, s, d)
    else
      match Inspect(cfg.mode, l.rx.partial)
      case NeedMore => s
      case TooSmall => WithPhase(s, p, Over)
      case Whole(body) =>
        match OpenBody(cfg.mode, cfg.cipher, RecvKey(s, d), l.rx.counter, body)
        case None => WithPhase(s, p, Over)
        case Some(frame) => Opened(cfg, s, d, frame)
  }

  /** The peer's handshake nonce is complete: keys are derived. */
  function HelloHeard(cfg: Config, s: State, d: Dir): State
    requires cfg.Valid()
  {
    var peer := LaneOf(s, d).rx.partial;
    if d.Up? then
      s.(up := Hear(s.up), down := StartHello(s.down, cfg.serverHello), server := HelloOut,
         serverKeys := DeriveSessionKeys(cfg.kdf, cfg.psk, peer, cfg.serverHello))
    else
      var keys := DeriveSessionKeys(cfg.kdf, cfg.psk, cfg.clientHello, peer);
      if DialogueOf(cfg).Accepted?
      then s.(down := Hear(s.down), client := FrameOut, clientKeys := keys,
              up := StartFrame(cfg.mode, cfg.cipher, keys.client, s.up, HeaderOf(cfg)))
      else s
  }

  /** A frame was opened: a header, a status or relayed bytes. */
  function Opened(cfg: Config, s: State, d: Dir, frame: seq<byte>): State {
    var relayed := PhaseOf(s, ReceiverOf(d)) == Relaying;
    var s' := WithLane(s, d, AcceptFrame(cfg.mode, LaneOf(s, d), frame, relayed));
    if relayed then s'
    else if d.Up? then HeaderArrived(cfg, s', frame)
    else s'.(client := if frame == [] then Over else Replying)
  }

  /** The server parses the header, connects and answers; a bad header ends it unanswered. */
  function HeaderArrived(cfg: Config, s: State, header: seq<byte>): State {
    match ParseHeader(cfg.lossy, header)
    case None => s.(server := Over)
    case Some(t) =>
      s.(server := FrameOut, target := Some(t), connected := cfg.network(t.address, t.port),
         down := StartFrame(cfg.mode, cfg.cipher, s.serverKeys.server, s.down, [StatusFor(cfg.network, t)]))
  }

  // ---------------------------------------------------------------------------
  // Runs
  // ---------------------------------------------------------------------------

  /** The state after the actions in order, if each was enabled. */
  function Exec(cfg: Config, s: State, run: seq<Action>): Option<State>
    requires cfg.Valid()
    decreases |run|
  {
    if run == [] then Some(s)
    else if Enabled(cfg, s, run[0]) then Exec(cfg, Next(cfg, s, run[0]), run[1..])
    else None
  }

  ghost predicate Reachable(cfg: Config, s: State)
    requires cfg.Valid()
  {
    exists run :: Exec(cfg, Init(cfg), run) == Some(s)
  }

  lemma {:induction false} ExecAppend(cfg: Config, s: State, a: seq<Action>, b: seq<Action>)
    requires cfg.Valid()
    ensures match Exec(cfg, s, a)
      case Some(m) => Exec(cfg, s, a + b) == Exec(cfg, m, b)
      case None => Exec(cfg, s, a + b) == None
    decreases |a|
  {
    hide Enabled, Next;
    if a == [] {
      assert a + b == b;
    } else {
      assert (a + b)[0] == a[0] && (a + b)[1..] == a[1..] + b;
      if Enabled(cfg, s, a[0]) { ExecAppend(cfg, Next(cfg, s, a[0]), a[1..], b); }
    }
  }
}
