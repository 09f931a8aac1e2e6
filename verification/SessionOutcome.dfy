/** No setup gets stuck, and without failures it ends with both parties relaying or both finished. */
module SessionOutcome {
  import opened Bytes
  import opened Aead
  import opened Frames
  import opened Protocol
  import opened SocksClient
  import opened TunnelServer
  import opened EncryptedTunnels
  import opened Lanes
  import opened Session
  import opened SessionInvariant
  import opened SessionTheorems
  import opened SessionProgress

  // ---------------------------------------------------------------------------
  // A reader that waits for something already written has a byte to read
  // ---------------------------------------------------------------------------

  lemma WireLengthEnds(frames: seq<seq<byte>>)
    requires frames != []
    ensures |frames| == 1 ==> WireLength(frames) == 2 + |frames[0]| + TAG_LEN
    ensures |frames| > 1 ==> WireLength(frames) >= (2 + |frames[0]| + TAG_LEN) + (2 + |frames[|frames| - 1]| + TAG_LEN)
  {
    if |frames| == 1 {
      assert frames[1..] == [];
    } else {
      assert frames[1..][|frames| - 2] == frames[|frames| - 1];
      WireLengthEnds(frames[1..]);
    }
  }

  /** The first unit of the direction, a handshake nonce or a frame, has been written whole. */
  predicate FirstUnitOut(cfg: Config, l: Lane) {
    FirstFrameOut(cfg, l.tx) || (cfg.mode.Sealed? && l.tx.hello != [] && l.rx.heard == [] && l.tx.sent == [] && l.tx.pending == [])
  }

  lemma SealedHasWire(cfg: Config, key: Key, hello: seq<byte>, l: Lane)
    requires cfg.mode.Sealed? && cfg.cipher.Correct() && SealedLane(cfg.cipher, key, hello, l)
    requires l.lost == [] && l.rx.got == [] && FirstUnitOut(cfg, l)
    ensures l.wire != []
  {
    hide NonceBytes, Wrap64, NonceLog, FrameStream, WireLength;
    FrameStreamLength(cfg.cipher, key, 0, l.tx.sent);
    assert l.tx.sent[0..] == l.tx.sent;
    if l.tx.sent != [] { WireLengthEnds(l.tx.sent); }
    assert |InFlight(l)| == |l.rx.partial| + |l.wire| + |l.tx.pending|;
  }

  lemma PlainHasWire(cfg: Config, l: Lane)
    requires cfg.mode.Plain? && PlainLane(l)
    requires l.lost == [] && l.rx.got == [] && FirstUnitOut(cfg, l)
    ensures l.wire != []
  {
    hide ToU16;
    assert |InFlight(l)| == |l.rx.partial| + |l.wire| + |l.tx.pending|;
  }

  lemma LaneHasWire(cfg: Config, d: Dir, l: Lane)
    requires cfg.Valid() && LaneInv(cfg, d, l)
    requires l.lost == [] && l.rx.got == [] && FirstUnitOut(cfg, l)
    ensures l.wire != []
  {
    hide SealedLane, PlainLane, FirstUnitOut, TrueKey;
    if cfg.mode.Sealed? { SealedHasWire(cfg, TrueKey(cfg, d), HelloOf(cfg, d), l); } else { PlainHasWire(cfg, l); }
  }

  // ---------------------------------------------------------------------------
  // Failure-free sessions
  // ---------------------------------------------------------------------------

  /** Nothing was lost, the server ended only behind its status, the client only behind its reply. */
  ghost predicate CleanInv(cfg: Config, s: State)
    requires cfg.Valid()
  {
    && s.up.lost == [] && s.down.lost == []
    && (s.server == Over ==> FirstFrameOut(cfg, s.down.tx))
    && (s.client == Over ==>
          match DialogueOf(cfg)
          case Refused(w) => s.reply == w && s.server == Waiting
          case Accepted(_, _, _) =>
            && s.down.rx.got != [] && s.down.rx.got[0] != []
            && s.reply == [SOCKS_VERSION, 0] + Reply(ReplyFor(s.down.rx.got[0][0])))
  }

  /** What is received was sent. */
  lemma GotWasSent(cfg: Config, d: Dir, l: Lane)
    requires cfg.Valid() && LaneInv(cfg, d, l)
    ensures |l.rx.got| <= |l.tx.sent| && l.rx.got == l.tx.sent[..|l.rx.got|]
  {
    hide SenderOk, ReceiverOk, PartialOk, InFlight, Expected, TrueKey, Framed;
  }

  lemma HeaderParses(cfg: Config)
    requires cfg.Valid() && DialogueOf(cfg).Accepted?
    ensures ParseHeader(cfg.lossy, HeaderOf(cfg)).Some?
  {
    hide DialogueOf, ParseHeader, Header, DestinationOf;
    RequestIsString(cfg);
    TargetPreserved(cfg.lossy, DialogueOf(cfg).address, DialogueOf(cfg).port);
  }

  /** A party ends only from the relay: before it, the peer has always written what is waited for. */
  lemma CleanFinish(cfg: Config, s: State, p: Party)
    requires cfg.Valid() && Inv(cfg, s) && CleanInv(cfg, s) && Enabled(cfg, s, Finish(p))
    ensures PhaseOf(s, p) == Relaying
  {
    hide LaneInv, TrueKeys, DialogueOf, HeaderOf, AppBytes, Reply, ParseHeader, StatusFor, ReplyDue, ReplyInv;
    GotWasSent(cfg, Up, s.up);
    GotWasSent(cfg, Down, s.down);
    if p.Client? && s.client in {HelloIn, FrameIn} {
      LaneHasWire(cfg, Down, s.down);
    }
  }

  /** A read before the relay never ends a party in a failure-free session. */
  lemma CleanAbsorb(cfg: Config, s: State, d: Dir)
    requires cfg.Valid() && Inv(cfg, s) && CleanInv(cfg, s) && Enabled(cfg, s, Absorb(d))
    ensures PhaseOf(Next(cfg, s, Absorb(d)), ReceiverOf(d)) != Over
  {
    hide LaneInv, ReplyInv, DialogueOf, HeaderOf, AppBytes, Reply, TrueKeys, DeriveSessionKeys, NonceBytes, FrameBytes, ParseHeader,
      StatusFor, Inspect, OpenBody, ReplyDue;
    var f := PhaseOf(s, ReceiverOf(d));
    if f == FrameIn || (f == Relaying && cfg.mode.Sealed?) {
      LaneInspect(cfg, d, LaneOf(s, d), RecvKey(s, d), f == Relaying);
      if d.Up? && f == FrameIn { HeaderParses(cfg); }
    }
  }

  lemma CleanFetchDeliver(cfg: Config, s: State, a: Action)
    requires cfg.Valid() && CleanInv(cfg, s) && Enabled(cfg, s, a) && (a.Fetch? || a.Deliver?)
    ensures CleanInv(cfg, Next(cfg, s, a))
  {
    hide DialogueOf, Reply, FrameBytes, NonceBytes, Wrap64;
  }

  lemma CleanEmit(cfg: Config, s: State, d: Dir)
    requires cfg.Valid() && Inv(cfg, s) && CleanInv(cfg, s) && Enabled(cfg, s, Emit(d))
    ensures CleanInv(cfg, Next(cfg, s, Emit(d)))
  {
    hide LaneInv, ClientInv, ReplyInv, DialInv, DialogueOf, Reply, TrueKeys, ParseHeader, StatusFor, Wrap64;
  }

  lemma CleanAbsorbStep(cfg: Config, s: State, d: Dir)
    requires cfg.Valid() && Inv(cfg, s) && CleanInv(cfg, s) && Enabled(cfg, s, Absorb(d))
    ensures CleanInv(cfg, Next(cfg, s, Absorb(d)))
  {
    hide LaneInv, ClientInv, ServerInv, ReplyInv, CleanInv, Next;
    CleanAbsorb(cfg, s, d);
    AbsorbOthers(cfg, s, d);
  }

  /** Reading up moves only the server, and loses nothing. */
  ghost predicate ServerOnly(s: State, s': State) {
    s'.client == s.client && s'.reply == s.reply && s'.down.rx == s.down.rx && s'.up.lost == s.up.lost && s'.down.lost == s.down.lost
  }

  ghost predicate ClientOnly(s: State, s': State) {
    s'.server == s.server && s'.reply == s.reply && s'.down.tx == s.down.tx && s'.up.lost == s.up.lost && s'.down.lost == s.down.lost
  }

  lemma AbsorbHelloOthers(cfg: Config, s: State, d: Dir)
    requires cfg.Valid() && Enabled(cfg, s, Absorb(d)) && PhaseOf(s, ReceiverOf(d)) == HelloIn
    ensures if d.Up? then ServerOnly(s, Next(cfg, s, Absorb(d))) else ClientOnly(s, Next(cfg, s, Absorb(d)))
  {
    hide DialogueOf, HeaderOf, DeriveSessionKeys, NonceBytes, FrameBytes, Inspect, OpenBody, HeaderArrived, Opened;
  }

  lemma AbsorbFrameOthers(cfg: Config, s: State, d: Dir)
    requires cfg.Valid() && Enabled(cfg, s, Absorb(d)) && PhaseOf(s, ReceiverOf(d)) != HelloIn
    ensures if d.Up? then ServerOnly(s, Next(cfg, s, Absorb(d))) else ClientOnly(s, Next(cfg, s, Absorb(d)))
  {
    hide ParseHeader, StatusFor, NonceBytes, FrameBytes, Inspect, OpenBody, HelloHeard, Wrap64;
  }

  lemma AbsorbOthers(cfg: Config, s: State, d: Dir)
    requires cfg.Valid() && CleanInv(cfg, s) && Enabled(cfg, s, Absorb(d)) && PhaseOf(Next(cfg, s, Absorb(d)), ReceiverOf(d)) != Over
    requires s.server == Waiting ==> s.client in {Waiting, Over} && s.up.wire == []
    ensures CleanInv(cfg, Next(cfg, s, Absorb(d)))
  {
    hide Next, DialogueOf, Reply, FirstFrameOut;
    if PhaseOf(s, ReceiverOf(d)) == HelloIn { AbsorbHelloOthers(cfg, s, d); } else { AbsorbFrameOthers(cfg, s, d); }
  }

  lemma CleanEnds(cfg: Config, s: State, a: Action)
    requires cfg.Valid() && Inv(cfg, s) && CleanInv(cfg, s) && Enabled(cfg, s, a) && (a.Dial? || a.Answer? || a.Finish?)
    ensures CleanInv(cfg, Next(cfg, s, a))
  {
    hide LaneInv, ReplyInv, DialogueOf, HeaderOf, AppBytes, Reply, TrueKeys, ParseHeader, StatusFor, FrameBytes, NonceBytes, FirstFrameOut;
    if a.Finish? { CleanFinish(cfg, s, a.p); }
  }

  lemma CleanStep(cfg: Config, s: State, a: Action)
    requires cfg.Valid() && Inv(cfg, s) && CleanInv(cfg, s) && Enabled(cfg, s, a) && Good(a)
    ensures CleanInv(cfg, Next(cfg, s, a))
  {
    hide Inv, CleanInv, Next, Enabled;
    match a {
      case Emit(d) => CleanEmit(cfg, s, d);
      case Absorb(d) => CleanAbsorbStep(cfg, s, d);
      case Fetch(_, _) => CleanFetchDeliver(cfg, s, a);
      case Deliver(_) => CleanFetchDeliver(cfg, s, a);
      case Dial => CleanEnds(cfg, s, a);
      case Answer => CleanEnds(cfg, s, a);
      case Finish(_) => CleanEnds(cfg, s, a);
    }
  }

  // ---------------------------------------------------------------------------
  // The theorems about setup
  // ---------------------------------------------------------------------------

  /** The client's next move while it is setting up, or one that the server owes it. */
  function SetupAction(s: State): Action {
    if s.client == Waiting then Dial
    else if s.client in {HelloOut, FrameOut} then Emit(Up)
    else if s.client == Replying then Answer
    else if s.server in {HelloOut, FrameOut} then Emit(Down)
    else if s.client in {HelloIn, FrameIn} && s.down.wire != [] then Absorb(Down)
    else if s.client in {HelloIn, FrameIn} && s.server == Over then Finish(Client)
    else if s.server in {HelloIn, FrameIn} && s.up.wire != [] then Absorb(Up)
    else Finish(Server)
  }

  /**
   No deadlock: as long as one party is still setting up, some setup action is
   possible. This holds in every reachable state, behind failures too.
   */
  lemma NoDeadlock(cfg: Config, s: State)
    requires cfg.Valid() && Reachable(cfg, s) && !SetupDone(s)
    ensures var a := SetupAction(s); Enabled(cfg, s, a) && IsSetup(s, a) && Good(a)
  {
    hide LaneInv, TrueKeys, DialogueOf, HeaderOf, AppBytes, Reply, ParseHeader, StatusFor, ReplyDue, ReplyInv, Reachable;
    ReachableInv(cfg, s);
    GotWasSent(cfg, Up, s.up);
    GotWasSent(cfg, Down, s.down);
    if (s.client in {HelloIn, FrameIn} && s.server == Relaying) || (s.client == HelloIn && s.server == FrameIn) {
      LaneHasWire(cfg, Down, s.down);
    } else if s.client in {HelloIn, FrameIn} && s.server in {HelloIn, FrameIn} {
      LaneHasWire(cfg, Up, s.up);
    }
  }

  /** A session in which no setup action is possible any more has both parties relaying or finished. */
  lemma MaximalSetupIsDone(cfg: Config, s: State)
    requires cfg.Valid() && Reachable(cfg, s)
    requires forall a :: Enabled(cfg, s, a) && Good(a) ==> !IsSetup(s, a)
    ensures SetupDone(s)
  {
    hide Enabled, Reachable;
    if !SetupDone(s) { NoDeadlock(cfg, s); }
  }

  /** How many setup actions a run takes. */
  function SetupCount(cfg: Config, s: State, run: seq<Action>): nat
    requires cfg.Valid()
    decreases |run|
  {
    if run == [] || !Enabled(cfg, s, run[0]) then 0
    else (if IsSetup(s, run[0]) then 1 else 0) + SetupCount(cfg, Next(cfg, s, run[0]), run[1..])
  }

  predicate AllGood(run: seq<Action>) { forall i :: 0 <= i < |run| ==> Good(run[i]) }

  /** Termination: a failure-free run takes at most as many setup actions as there is setup work. */
  lemma {:induction false} SetupTerminates(cfg: Config, s: State, run: seq<Action>)
    requires cfg.Valid() && Inv(cfg, s) && CleanInv(cfg, s) && AllGood(run) && Exec(cfg, s, run).Some?
    ensures var s' := Exec(cfg, s, run).value;
      Inv(cfg, s') && CleanInv(cfg, s') && SetupCount(cfg, s, run) <= Work(s) - Work(s') && Work(s') >= 0
    decreases |run|
  {
    hide Next, Inv, CleanInv, Enabled, IsSetup, Work;
    if run == [] {
      WorkBound(cfg, s);
    } else {
      StepKeepsInv(cfg, s, run[0]);
      CleanStep(cfg, s, run[0]);
      SetupMoves(cfg, s, run[0]);
      MovesMeaning(cfg, s, run[0]);
      SetupTerminates(cfg, Next(cfg, s, run[0]), run[1..]);
    }
  }

  lemma MovesMeaning(cfg: Config, s: State, a: Action)
    requires cfg.Valid() && Enabled(cfg, s, a) && Moves(cfg, s, a)
    ensures if IsSetup(s, a) then Work(Next(cfg, s, a)) < Work(s) else Work(Next(cfg, s, a)) == Work(s)
  {
    hide Next, Enabled, IsSetup, Work;
  }

  lemma WorkBound(cfg: Config, s: State)
    requires cfg.Valid() && Inv(cfg, s)
    ensures Work(s) >= 0
  {
    hide LaneInv, ClientInv, ServerInv, ReplyInv, DialInv, Work;
    PartialBound(cfg, Up, s.up);
    PartialBound(cfg, Down, s.down);
    WorkIsNatural(s);
  }

  lemma InitClean(cfg: Config)
    requires cfg.Valid()
    ensures CleanInv(cfg, Init(cfg))
  {
    hide DialogueOf, Reply;
  }

  // ---------------------------------------------------------------------------
  // Who reaches the relay
  // ---------------------------------------------------------------------------

  /** At some point of the run the party was relaying. */
  ghost predicate ReachedRelay(cfg: Config, run: seq<Action>, p: Party)
    requires cfg.Valid()
  {
    exists i :: 0 <= i <= |run| && RelayingAfter(cfg, run[..i], p)
  }

  predicate RelayingAfter(cfg: Config, run: seq<Action>, p: Party)
    requires cfg.Valid()
  {
    var s := Exec(cfg, Init(cfg), run);
    s.Some? && PhaseOf(s.value, p) == Relaying
  }

  /** Every action of the run is a setup action where it is taken. */
  ghost predicate OnlySetup(cfg: Config, run: seq<Action>)
    requires cfg.Valid()
  {
    forall i :: 0 <= i < |run| ==> SetupAt(cfg, run[..i], run[i])
  }

  predicate SetupAt(cfg: Config, run: seq<Action>, a: Action)
    requires cfg.Valid()
  {
    var s := Exec(cfg, Init(cfg), run);
    s.Some? && IsSetup(s.value, a)
  }

  /** Once the status frame is begun, the outcome of the connect is settled. */
  lemma ConnectSettled(cfg: Config, s: State, a: Action)
    requires cfg.Valid() && Inv(cfg, s) && Enabled(cfg, s, a) && Good(a) && s.down.tx.sent != []
    ensures Next(cfg, s, a).connected == s.connected
  {
    hide LaneInv, ClientInv, ReplyInv, DialInv, DialogueOf, HeaderOf, TrueKeys, DeriveSessionKeys, ParseHeader, StatusFor, Inspect,
      OpenBody, Reply, EmitByte, TakeByte, TakeRawByte, AcceptFrame, StartFrame, StartHello, Hear, FetchChunk, DeliverByte;
  }

  /** A party that is over in a clean session has seen the status frame, or there was none to come. */
  lemma OverBehindStatus(cfg: Config, s: State, p: Party)
    requires cfg.Valid() && Inv(cfg, s) && CleanInv(cfg, s) && DialogueOf(cfg).Accepted? && PhaseOf(s, p) == Over
    ensures s.down.tx.sent != []
  {
    hide LaneInv, ClientInv, ServerInv, ReplyInv, DialogueOf, Reply;
    GotWasSent(cfg, Down, s.down);
  }

  /** Without failures a party ends before its relay only when the connect failed. */
  lemma EndsEarly(cfg: Config, s: State, a: Action, p: Party)
    requires cfg.Valid() && Inv(cfg, s) && CleanInv(cfg, s) && Enabled(cfg, s, a) && Good(a) && DialogueOf(cfg).Accepted?
    requires PhaseOf(s, p) !in {Relaying, Over} && PhaseOf(Next(cfg, s, a), p) == Over
    ensures !Next(cfg, s, a).connected
  {
    hide LaneInv, ReplyInv, DialogueOf, HeaderOf, AppBytes, Reply, TrueKeys, ParseHeader, CleanInv, Absorbed, DialInv, EmitByte,
      StartFrame, StartHello, FetchChunk, DeliverByte;
    match a {
      case Absorb(d) =>
        hide Next, ClientInv, ServerInv, Enabled;
        CleanAbsorb(cfg, s, d);
        AbsorbKeepsSender(cfg, s, d);
      case Finish(q) => CleanFinish(cfg, s, q);
      case Answer => GotWasSent(cfg, Down, s.down);
      case _ =>
    }
  }

  lemma AbsorbKeepsSender(cfg: Config, s: State, d: Dir)
    requires cfg.Valid() && Enabled(cfg, s, Absorb(d))
    ensures PhaseOf(Next(cfg, s, Absorb(d)), SenderOf(d)) == PhaseOf(s, SenderOf(d))
  {
    hide Next, Enabled;
    if PhaseOf(s, ReceiverOf(d)) == HelloIn { AbsorbHelloOthers(cfg, s, d); } else { AbsorbFrameOthers(cfg, s, d); }
  }

  /** The last step of a run. */
  lemma LastStep(cfg: Config, run: seq<Action>)
    requires cfg.Valid() && run != [] && AllGood(run) && Exec(cfg, Init(cfg), run).Some?
    ensures var before, a := run[..|run| - 1], run[|run| - 1];
      && AllGood(before) && Exec(cfg, Init(cfg), before).Some?
      && var s := Exec(cfg, Init(cfg), before).value;
        && Inv(cfg, s) && CleanInv(cfg, s) && Enabled(cfg, s, a) && Good(a)
        && Exec(cfg, Init(cfg), run).value == Next(cfg, s, a)
  {
    hide Next, Inv, CleanInv, Enabled, Init;
    var before, a := run[..|run| - 1], run[|run| - 1];
    assert before + [a] == run;
    ExecAppend(cfg, Init(cfg), before, [a]);
    InitInv(cfg);
    InitClean(cfg);
    var s := Exec(cfg, Init(cfg), before).value;
    SetupTerminates(cfg, Init(cfg), before);
    assert Enabled(cfg, s, a) && Exec(cfg, Next(cfg, s, a), [a][1..]) == Some(Next(cfg, s, a));
  }

  /** In a session whose connect succeeds nobody ends without having relayed. */
  lemma {:induction false} OverAfterRelay(cfg: Config, run: seq<Action>, p: Party)
    requires cfg.Valid() && AllGood(run) && Exec(cfg, Init(cfg), run).Some? && DialogueOf(cfg).Accepted?
    requires var s := Exec(cfg, Init(cfg), run).value; s.connected && PhaseOf(s, p) in {Relaying, Over}
    ensures ReachedRelay(cfg, run, p)
    decreases |run|
  {
    hide Exec, Next, Inv, CleanInv, Enabled, DialogueOf, ReachedRelay;
    var s := Exec(cfg, Init(cfg), run).value;
    if PhaseOf(s, p) == Relaying {
      assert run[..|run|] == run;
      RelayedAt(cfg, run, p, |run|);
    } else {
      StartsAlive(cfg, run, p);
      var before, a := run[..|run| - 1], run[|run| - 1];
      LastStep(cfg, run);
      var m := Exec(cfg, Init(cfg), before).value;
      if PhaseOf(m, p) == Over {
        OverBehindStatus(cfg, m, p);
        ConnectSettled(cfg, m, a);
        OverAfterRelay(cfg, before, p);
        RelayedEarlier(cfg, before, a, p);
        assert before + [a] == run;
      } else if PhaseOf(m, p) == Relaying {
        RelayedAt(cfg, run, p, |run| - 1);
      } else {
        EndsEarly(cfg, m, a, p);
      }
    }
  }

  lemma RelayedAt(cfg: Config, run: seq<Action>, p: Party, i: nat)
    requires cfg.Valid() && i <= |run| && RelayingAfter(cfg, run[..i], p)
    ensures ReachedRelay(cfg, run, p)
  {
    hide RelayingAfter;
  }

  lemma RelayedEarlier(cfg: Config, before: seq<Action>, a: Action, p: Party)
    requires cfg.Valid() && ReachedRelay(cfg, before, p)
    ensures ReachedRelay(cfg, before + [a], p)
  {
    hide RelayingAfter;
    var i :| 0 <= i <= |before| && RelayingAfter(cfg, before[..i], p);
    assert (before + [a])[..i] == before[..i];
  }

  lemma StartsAlive(cfg: Config, run: seq<Action>, p: Party)
    requires cfg.Valid() && Exec(cfg, Init(cfg), run).Some? && PhaseOf(Exec(cfg, Init(cfg), run).value, p) == Over
    ensures run != []
  {
  }

  /** A setup action does not end a relay. */
  lemma SetupKeepsRelay(cfg: Config, s: State, a: Action, p: Party)
    requires cfg.Valid() && Inv(cfg, s) && Enabled(cfg, s, a) && Good(a) && IsSetup(s, a) && PhaseOf(s, p) == Relaying
    ensures PhaseOf(Next(cfg, s, a), p) == Relaying
  {
    hide LaneInv, ReplyInv, DialogueOf, HeaderOf, AppBytes, Reply, TrueKeys, ParseHeader, FrameBytes, NonceBytes, Wrap64, Absorbed;
    if a.Absorb? {
      hide Next, Inv;
      AbsorbKeepsSender(cfg, s, a.d);
    }
  }

  /** With setup actions only, nobody is over whose connect succeeded. */
  lemma {:induction false} NobodyOver(cfg: Config, run: seq<Action>, p: Party)
    requires cfg.Valid() && AllGood(run) && OnlySetup(cfg, run) && Exec(cfg, Init(cfg), run).Some?
    requires DialogueOf(cfg).Accepted? && Exec(cfg, Init(cfg), run).value.connected
    ensures PhaseOf(Exec(cfg, Init(cfg), run).value, p) != Over
    decreases |run|
  {
    hide Exec, Next, Inv, CleanInv, Enabled, DialogueOf, IsSetup, OnlySetup;
    if PhaseOf(Exec(cfg, Init(cfg), run).value, p) == Over {
      StartsAlive(cfg, run, p);
      var before, a := run[..|run| - 1], run[|run| - 1];
      LastStep(cfg, run);
      SetupPrefix(cfg, run);
      var m := Exec(cfg, Init(cfg), before).value;
      if PhaseOf(m, p) == Over {
        OverBehindStatus(cfg, m, p);
        ConnectSettled(cfg, m, a);
        NobodyOver(cfg, before, p);
      } else if PhaseOf(m, p) == Relaying {
        SetupKeepsRelay(cfg, m, a, p);
      } else {
        EndsEarly(cfg, m, a, p);
      }
    }
  }

  lemma SetupPrefix(cfg: Config, run: seq<Action>)
    requires cfg.Valid() && run != [] && OnlySetup(cfg, run)
    ensures OnlySetup(cfg, run[..|run| - 1]) && SetupAt(cfg, run[..|run| - 1], run[|run| - 1])
  {
    hide SetupAt;
    var before := run[..|run| - 1];
    forall i | 0 <= i < |before|
      ensures SetupAt(cfg, before[..i], before[i])
    {
      assert before[..i] == run[..i] && SetupAt(cfg, run[..i], run[i]);
    }
  }

  /**
   Every setup can be brought to its end: some setup actions more, and each
   party relays or has finished.
   */
  lemma {:induction false} SetupCanFinish(cfg: Config, run: seq<Action>) returns (more: seq<Action>)
    requires cfg.Valid() && AllGood(run) && Exec(cfg, Init(cfg), run).Some?
    ensures AllGood(run + more) && Exec(cfg, Init(cfg), run + more).Some?
    ensures SetupDone(Exec(cfg, Init(cfg), run + more).value)
    ensures OnlySetup(cfg, run) ==> OnlySetup(cfg, run + more)
    decreases Work(Exec(cfg, Init(cfg), run).value)
  {
    hide Exec, Next, Inv, CleanInv, Enabled, Init, Work, IsSetup, SetupAction, SetupDone, OnlySetup;
    var s := Exec(cfg, Init(cfg), run).value;
    if SetupDone(s) {
      more := [];
      assert run + [] == run;
    } else {
      ReachedByRun(cfg, s, run);
      NoDeadlock(cfg, s);
      ReachableInv(cfg, s);
      var a := SetupAction(s);
      OneMore(cfg, run, a);
      SetupMoves(cfg, s, a);
      MovesMeaning(cfg, s, a);
      StepKeepsInv(cfg, s, a);
      WorkBound(cfg, Next(cfg, s, a));
      var rest := SetupCanFinish(cfg, run + [a]);
      more := [a] + rest;
      assert run + more == (run + [a]) + rest;
    }
  }

  lemma ReachedByRun(cfg: Config, s: State, run: seq<Action>)
    requires cfg.Valid() && Exec(cfg, Init(cfg), run) == Some(s)
    ensures Reachable(cfg, s)
  {
    hide Exec, Init;
  }

  /** A run and one action more. */
  lemma ExecSnoc(cfg: Config, run: seq<Action>, a: Action)
    requires cfg.Valid() && AllGood(run) && Good(a) && Exec(cfg, Init(cfg), run).Some?
    requires Enabled(cfg, Exec(cfg, Init(cfg), run).value, a)
    ensures AllGood(run + [a]) && Exec(cfg, Init(cfg), run + [a]) == Some(Next(cfg, Exec(cfg, Init(cfg), run).value, a))
  {
    hide Next, Enabled, Init;
    var s := Exec(cfg, Init(cfg), run).value;
    ExecAppend(cfg, Init(cfg), run, [a]);
    assert Exec(cfg, Next(cfg, s, a), [a][1..]) == Some(Next(cfg, s, a));
  }

  lemma OneMore(cfg: Config, run: seq<Action>, a: Action)
    requires cfg.Valid() && AllGood(run) && Good(a) && Exec(cfg, Init(cfg), run).Some?
    requires Enabled(cfg, Exec(cfg, Init(cfg), run).value, a) && IsSetup(Exec(cfg, Init(cfg), run).value, a)
    ensures AllGood(run + [a]) && Exec(cfg, Init(cfg), run + [a]) == Some(Next(cfg, Exec(cfg, Init(cfg), run).value, a))
    ensures OnlySetup(cfg, run) ==> OnlySetup(cfg, run + [a])
  {
    hide Exec, Next, Enabled, Init, IsSetup, SetupAt;
    ExecSnoc(cfg, run, a);
    SetupHere(cfg, run, a);
    if OnlySetup(cfg, run) {
      forall i | 0 <= i < |run + [a]|
        ensures SetupAt(cfg, (run + [a])[..i], (run + [a])[i])
      {
        assert (run + [a])[..i] == if i < |run| then run[..i] else run;
        if i < |run| { assert SetupAt(cfg, run[..i], run[i]); }
      }
    }
  }

  lemma SetupHere(cfg: Config, run: seq<Action>, a: Action)
    requires cfg.Valid() && Exec(cfg, Init(cfg), run).Some? && IsSetup(Exec(cfg, Init(cfg), run).value, a)
    ensures SetupAt(cfg, run, a)
  {
    hide Exec, Init, IsSetup;
  }

  /**
   The outcome of a failure-free setup. A refused application ends without a
   server. An accepted one is answered according to the server's connect: with
   success, and then both parties have been relaying and still are if nothing
   but setup was done, or with a failure, and then both are finished.
   */
  lemma SetupOutcome(cfg: Config, run: seq<Action>)
    requires cfg.Valid() && AllGood(run) && Exec(cfg, Init(cfg), run).Some?
    ensures SetupCount(cfg, Init(cfg), run) <= Work(Init(cfg))
    ensures var s := Exec(cfg, Init(cfg), run).value;
      SetupDone(s) ==>
        match DialogueOf(cfg)
        case Refused(w) => s.client == Over && s.server == Waiting && s.reply == w
        case Accepted(_, _, _) =>
          && s.target.Some? && s.connected == cfg.network(s.target.value.address, s.target.value.port)
          && s.reply == [SOCKS_VERSION, 0] + Reply(ReplyFor(StatusFor(cfg.network, s.target.value)))
          && (!s.connected ==> s.client == Over && s.server == Over)
          && (ToldSuccess(s.reply) <==> s.connected)
          && s.reply == [5, 0, 5, if s.connected then 0 else 5, 0, 1, 0, 0, 0, 0, 0, 0]
          && (s.connected ==> ReachedRelay(cfg, run, Client) && ReachedRelay(cfg, run, Server))
          && (s.connected && OnlySetup(cfg, run) ==> s.client == s.server == Relaying)
  {
    hide Exec, Init, SetupCount, Work, Inv, CleanInv, DialogueOf, ReachedRelay, OnlySetup, StatusFor;
    InitInv(cfg);
    InitClean(cfg);
    SetupTerminates(cfg, Init(cfg), run);
    var s := Exec(cfg, Init(cfg), run).value;
    if SetupDone(s) {
      DoneMeans(cfg, s);
      if s.connected && DialogueOf(cfg).Accepted? {
        ServerDialled(cfg, s);
        OverAfterRelay(cfg, run, Client);
        OverAfterRelay(cfg, run, Server);
        if OnlySetup(cfg, run) {
          NobodyOver(cfg, run, Client);
          NobodyOver(cfg, run, Server);
        }
      }
    }
  }

  lemma ServerDialled(cfg: Config, s: State)
    requires cfg.Valid() && Inv(cfg, s) && s.target.Some?
    ensures s.server != Waiting
  {
    hide LaneInv, ClientInv, ServerInv, ReplyInv;
  }

  lemma DoneMeans(cfg: Config, s: State)
    requires cfg.Valid() && Inv(cfg, s) && CleanInv(cfg, s) && SetupDone(s)
    ensures match DialogueOf(cfg)
        case Refused(w) => s.client == Over && s.server == Waiting && s.reply == w
        case Accepted(_, _, _) =>
          && s.target.Some? && s.connected == cfg.network(s.target.value.address, s.target.value.port)
          && s.reply == [SOCKS_VERSION, 0] + Reply(ReplyFor(StatusFor(cfg.network, s.target.value)))
          && (!s.connected ==> s.client == Over && s.server == Over)
          && (ToldSuccess(s.reply) <==> s.connected)
          && s.reply == [5, 0, 5, if s.connected then 0 else 5, 0, 1, 0, 0, 0, 0, 0, 0]
  {
    hide LaneInv, TrueKeys, DialogueOf, HeaderOf, AppBytes, ParseHeader, ReplyDue, ReplyInv;
    GotWasSent(cfg, Up, s.up);
    GotWasSent(cfg, Down, s.down);
    match DialogueOf(cfg) {
      case Refused(_) =>
      case Accepted(_, _, _) =>
        assert s.down.rx.got[0] == s.down.tx.sent[0];
    }
  }
}
