/** A relay that is left undisturbed delivers everything, both ways. */
module RelayOutcome {
  import opened Bytes
  import opened Aead
  import opened Protocol
  import opened SocksClient
  import opened TunnelServer
  import opened Lanes
  import opened Session
  import opened SessionInvariant
  import opened SessionTheorems
  import opened SessionProgress
  import opened SessionOutcome

  /** A move of the relay itself: nobody ends, nothing fails. */
  predicate RelayMove(a: Action) { a.Emit? || a.Absorb? || a.Fetch? || a.Deliver? }

  predicate OnlyRelay(run: seq<Action>) { forall i :: 0 <= i < |run| ==> RelayMove(run[i]) }

  predicate Drained(l: Lane) {
    l.tx.source == l.tx.pending == l.wire == l.rx.buffered == []
  }

  predicate BothRelay(s: State) { s.client == s.server == Relaying }

  /** The move that brings a direction nearer to being drained: what is furthest on goes first. */
  function DrainMove(l: Lane, d: Dir): Action {
    if l.rx.buffered != [] then Deliver(d)
    else if l.wire != [] then Absorb(d)
    else if l.tx.pending != [] then Emit(d)
    else Fetch(d, 1)
  }

  /** Lexicographically: bytes not yet read, not yet on the wire, on the wire, not yet written out. */
  ghost predicate Nearer(l: Lane, l': Lane) {
    || |l'.tx.source| < |l.tx.source|
    || (l'.tx.source == l.tx.source && |l'.tx.pending| < |l.tx.pending|)
    || (l'.tx == l.tx && |l'.wire| < |l.wire|)
    || (l'.tx == l.tx && l'.wire == l.wire && |l'.rx.buffered| < |l.rx.buffered|)
  }

  /** A move of one direction of the relay leaves the other direction and both parties as they were. */
  ghost predicate Drains(s: State, n: State, d: Dir) {
    && n.client == s.client && n.server == s.server
    && (if d.Up? then n.down == s.down else n.up == s.up)
    && Nearer(LaneOf(s, d), LaneOf(n, d))
  }

  lemma DrainEnabled(cfg: Config, s: State, d: Dir)
    requires BothRelay(s) && !Drained(LaneOf(s, d))
    ensures Enabled(cfg, s, DrainMove(LaneOf(s, d), d))
  {
  }

  lemma WriteDrains(cfg: Config, s: State, d: Dir)
    requires cfg.Valid() && BothRelay(s) && !Drained(LaneOf(s, d))
    requires var a := DrainMove(LaneOf(s, d), d); Enabled(cfg, s, a) && !a.Absorb?
    ensures Drains(s, Next(cfg, s, DrainMove(LaneOf(s, d), d)), d)
  {
    hide Wrap64, FrameBytes, NonceBytes;
  }

  /** A read of the relay: the rest of the state stays, and the receiver does unless it meets an error. */
  lemma ReadDrains(cfg: Config, s: State, d: Dir)
    requires cfg.Valid() && BothRelay(s) && Enabled(cfg, s, Absorb(d))
    requires PhaseOf(Next(cfg, s, Absorb(d)), ReceiverOf(d)) != Over
    ensures Drains(s, Next(cfg, s, Absorb(d)), d)
  {
    hide Wrap64, Inspect, OpenBody, HelloHeard, HeaderArrived;
  }

  lemma DrainStep(cfg: Config, s: State, d: Dir)
    requires cfg.Valid() && Inv(cfg, s) && CleanInv(cfg, s) && BothRelay(s) && !Drained(LaneOf(s, d))
    ensures var a := DrainMove(LaneOf(s, d), d);
      Enabled(cfg, s, a) && RelayMove(a) && Good(a) && Drains(s, Next(cfg, s, a), d)
  {
    hide Inv, CleanInv, Next, Enabled, Drains;
    DrainEnabled(cfg, s, d);
    if DrainMove(LaneOf(s, d), d).Absorb? {
      CleanAbsorb(cfg, s, d);
      ReadDrains(cfg, s, d);
    } else {
      WriteDrains(cfg, s, d);
    }
  }

  /** A direction as the run leaves it. */
  function EndLane(cfg: Config, run: seq<Action>, d: Dir): Lane
    requires cfg.Valid() && Exec(cfg, Init(cfg), run).Some?
  {
    LaneOf(Exec(cfg, Init(cfg), run).value, d)
  }

  /** One direction is drained by moves of its own. */
  lemma {:induction false} DrainDirection(cfg: Config, run: seq<Action>, d: Dir) returns (more: seq<Action>)
    requires cfg.Valid() && AllGood(run) && Exec(cfg, Init(cfg), run).Some?
    requires BothRelay(Exec(cfg, Init(cfg), run).value)
    ensures OnlyRelay(more) && AllGood(run + more) && Exec(cfg, Init(cfg), run + more).Some?
    ensures var s, n := Exec(cfg, Init(cfg), run).value, Exec(cfg, Init(cfg), run + more).value;
      BothRelay(n) && Drained(LaneOf(n, d)) && if d.Up? then n.down == s.down else n.up == s.up
    decreases |EndLane(cfg, run, d).tx.source|, |EndLane(cfg, run, d).tx.pending|,
      |EndLane(cfg, run, d).wire|, |EndLane(cfg, run, d).rx.buffered|
  {
    hide Exec, Next, Inv, CleanInv, Enabled, Init, Drained;
    var s := Exec(cfg, Init(cfg), run).value;
    if Drained(LaneOf(s, d)) {
      more := [];
      assert run + [] == run;
    } else {
      RunKeepsClean(cfg, run);
      DrainStep(cfg, s, d);
      var a := DrainMove(LaneOf(s, d), d);
      ExecSnoc(cfg, run, a);
      var rest := DrainDirection(cfg, run + [a], d);
      more := [a] + rest;
      assert run + more == (run + [a]) + rest;
    }
  }

  lemma RunKeepsClean(cfg: Config, run: seq<Action>)
    requires cfg.Valid() && AllGood(run) && Exec(cfg, Init(cfg), run).Some?
    ensures var s := Exec(cfg, Init(cfg), run).value; Inv(cfg, s) && CleanInv(cfg, s) && Reachable(cfg, s)
  {
    hide Exec, Init, Inv, CleanInv, Work;
    InitInv(cfg);
    InitClean(cfg);
    SetupTerminates(cfg, Init(cfg), run);
    ReachedByRun(cfg, Exec(cfg, Init(cfg), run).value, run);
  }

  /** Relaying parties are past the setup frames, and in a clean session nothing was lost. */
  lemma RelayHasBegun(cfg: Config, s: State, d: Dir)
    requires cfg.Valid() && Inv(cfg, s) && CleanInv(cfg, s) && BothRelay(s)
    ensures LaneOf(s, d).rx.got != [] && LaneOf(s, d).lost == []
  {
    hide LaneInv, ReplyInv, DialogueOf, HeaderOf, AppBytes, Reply, ParseHeader, StatusFor, TrueKeys;
  }

  /**
   Every failure-free run that has brought both parties to the relay can go on,
   with moves of the relay only, until each side has been given everything the
   other side sends.
   */
  lemma RelayCanFinish(cfg: Config, run: seq<Action>) returns (more: seq<Action>)
    requires cfg.Valid() && AllGood(run) && Exec(cfg, Init(cfg), run).Some?
    requires BothRelay(Exec(cfg, Init(cfg), run).value)
    ensures OnlyRelay(more) && AllGood(run + more) && Exec(cfg, Init(cfg), run + more).Some?
    ensures var s := Exec(cfg, Init(cfg), run + more).value;
      BothRelay(s) && s.up.rx.delivered == ExternalBytes(cfg, Up) && s.down.rx.delivered == ExternalBytes(cfg, Down)
  {
    hide Exec, Init, Inv, CleanInv, Reachable, ExternalBytes;
    var up := DrainDirection(cfg, run, Up);
    var down := DrainDirection(cfg, run + up, Down);
    more := up + down;
    assert run + more == (run + up) + down;
    var s := Exec(cfg, Init(cfg), run + more).value;
    RunKeepsClean(cfg, run + more);
    RelayHasBegun(cfg, s, Up);
    RelayHasBegun(cfg, s, Down);
    DrainedIsComplete(cfg, s, Up);
    DrainedIsComplete(cfg, s, Down);
  }

  /**
   From the first byte: for every accepted request some failure-free run parses
   the header and, if the target can be reached, tells the application success
   and delivers everything both ways.
   */
  lemma SessionCanComplete(cfg: Config) returns (run: seq<Action>)
    requires cfg.Valid() && DialogueOf(cfg).Accepted?
    ensures AllGood(run) && Exec(cfg, Init(cfg), run).Some?
    ensures var s := Exec(cfg, Init(cfg), run).value;
      && s.target.Some? && s.connected == cfg.network(s.target.value.address, s.target.value.port)
      && (s.connected ==>
          && ToldSuccess(s.reply)
          && s.up.rx.delivered == AppBytes(cfg) && s.down.rx.delivered == cfg.remote)
  {
    hide Exec, Init, Inv, CleanInv, Reachable, DialogueOf, OnlySetup, SetupCount, Work, ReachedRelay, AppBytes, StatusFor, Reply;
    NothingYetRun(cfg);
    var setup := SetupCanFinish(cfg, []);
    run := [] + setup;
    SetupOutcome(cfg, run);
    var s := Exec(cfg, Init(cfg), run).value;
    if s.connected {
      var relay := RelayCanFinish(cfg, run);
      run := run + relay;
      RunKeepsClean(cfg, run);
      RelayingIsAnswered(cfg, Exec(cfg, Init(cfg), run).value);
    }
  }

  lemma NothingYetRun(cfg: Config)
    requires cfg.Valid()
    ensures AllGood([]) && Exec(cfg, Init(cfg), []).Some? && OnlySetup(cfg, [])
  {
    hide Init;
  }

  lemma RelayingIsAnswered(cfg: Config, s: State)
    requires cfg.Valid() && Inv(cfg, s) && BothRelay(s)
    ensures ToldSuccess(s.reply) && s.connected && s.target.Some?
    ensures s.connected == cfg.network(s.target.value.address, s.target.value.port)
  {
    hide LaneInv, ReplyInv, DialogueOf, HeaderOf, AppBytes, ParseHeader, StatusFor, TrueKeys;
  }

  // ---------------------------------------------------------------------------
  // Why a relay ends
  // ---------------------------------------------------------------------------

  /** A party has handed over all it had to send, or the peer has ended and all that came from it was written out. */
  predicate EndedRight(s: State, p: Party) {
    var own, other := if p.Client? then Up else Down, if p.Client? then Down else Up;
    || (LaneOf(s, own).tx.source == [] && LaneOf(s, own).tx.pending == [])
    || (AtEof(s, other) && LaneOf(s, other).rx.buffered == [])
  }

  lemma FinishedRight(cfg: Config, s: State, p: Party)
    requires cfg.Valid() && Enabled(cfg, s, Finish(p)) && PhaseOf(s, p) == Relaying
    ensures EndedRight(Next(cfg, s, Finish(p)), p)
  {
  }

  /** What is over stays as it ended. */
  lemma StaysEnded(cfg: Config, s: State, a: Action, p: Party)
    requires cfg.Valid() && Inv(cfg, s) && Enabled(cfg, s, a) && Good(a) && PhaseOf(s, p) == Over && EndedRight(s, p)
    ensures EndedRight(Next(cfg, s, a), p)
  {
    hide LaneInv, ClientInv, ServerInv, ReplyInv, DialogueOf, HeaderOf, Reply, ParseHeader, StatusFor, FrameBytes, NonceBytes, Wrap64,
      Absorbed, DeriveSessionKeys;
    if a.Absorb? {
      hide Next;
      ReadsSpare(cfg, s, a.d, p);
    }
  }

  /** A read while a party is over is the peer's, and leaves what that party sends alone. */
  lemma ReadsSpare(cfg: Config, s: State, d: Dir, p: Party)
    requires cfg.Valid() && Enabled(cfg, s, Absorb(d)) && PhaseOf(s, p) == Over
    ensures p == SenderOf(d) && PhaseOf(s, ReceiverOf(d)) != Over
    ensures LaneOf(Next(cfg, s, Absorb(d)), d).tx == LaneOf(s, d).tx
  {
    hide DialogueOf, HeaderOf, ParseHeader, StatusFor, FrameBytes, NonceBytes, Wrap64, Inspect, OpenBody, DeriveSessionKeys;
  }

  /**
   Without failures nothing ends a relay but its own work: a party of a connected
   session that is over has handed over all it had to send, or its peer has ended
   and all that came was written out. So the first to end has sent everything.
   */
  lemma {:induction false} EndsWhenDone(cfg: Config, run: seq<Action>, p: Party)
    requires cfg.Valid() && AllGood(run) && Exec(cfg, Init(cfg), run).Some? && DialogueOf(cfg).Accepted?
    requires var s := Exec(cfg, Init(cfg), run).value; s.connected && PhaseOf(s, p) == Over
    ensures EndedRight(Exec(cfg, Init(cfg), run).value, p)
    decreases |run|
  {
    hide Exec, Next, Inv, CleanInv, Enabled, DialogueOf, EndedRight;
    StartsAlive(cfg, run, p);
    var before, a := run[..|run| - 1], run[|run| - 1];
    LastStep(cfg, run);
    var m := Exec(cfg, Init(cfg), before).value;
    if PhaseOf(m, p) == Over {
      OverBehindStatus(cfg, m, p);
      ConnectSettled(cfg, m, a);
      EndsWhenDone(cfg, before, p);
      StaysEnded(cfg, m, a, p);
    } else if PhaseOf(m, p) == Relaying {
      OnlyFinishEnds(cfg, m, a, p);
      FinishedRight(cfg, m, p);
    } else {
      EndsEarly(cfg, m, a, p);
    }
  }

  /** In a clean session a relaying party ends by finishing. */
  lemma OnlyFinishEnds(cfg: Config, s: State, a: Action, p: Party)
    requires cfg.Valid() && Inv(cfg, s) && CleanInv(cfg, s) && Enabled(cfg, s, a) && Good(a)
    requires PhaseOf(s, p) == Relaying && PhaseOf(Next(cfg, s, a), p) == Over
    ensures a == Finish(p)
  {
    hide LaneInv, CleanInv, ClientInv, ServerInv, ReplyInv, DialogueOf, HeaderOf, Reply, ParseHeader, StatusFor, FrameBytes, NonceBytes,
      Wrap64, Absorbed;
    if a.Absorb? {
      hide Next, Enabled;
      CleanAbsorb(cfg, s, a.d);
      AbsorbKeepsSender(cfg, s, a.d);
    }
  }

  /** Where one party alone has ended, all its bytes are on their way or delivered. */
  lemma FirstToEnd(cfg: Config, run: seq<Action>)
    requires cfg.Valid() && AllGood(run) && Exec(cfg, Init(cfg), run).Some? && DialogueOf(cfg).Accepted?
    requires var s := Exec(cfg, Init(cfg), run).value; s.connected && (s.client == Over || s.server == Over)
    ensures var s := Exec(cfg, Init(cfg), run).value;
      || (s.client == Over && s.up.tx.read == AppBytes(cfg) && s.up.tx.pending == [])
      || (s.server == Over && s.down.tx.read == cfg.remote && s.down.tx.pending == [])
      || (s.client == Over && s.server == Over)
  {
    hide Exec, Init, Inv, CleanInv, DialogueOf, EndedRight, AppBytes;
    RunKeepsClean(cfg, run);
    var s := Exec(cfg, Init(cfg), run).value;
    if s.client == Over && s.server != Over {
      EndsWhenDone(cfg, run, Client);
      EndedAlone(cfg, s, Client);
    } else if s.server == Over && s.client != Over {
      EndsWhenDone(cfg, run, Server);
      EndedAlone(cfg, s, Server);
    }
  }

  lemma EndedAlone(cfg: Config, s: State, p: Party)
    requires cfg.Valid() && Inv(cfg, s) && CleanInv(cfg, s) && DialogueOf(cfg).Accepted? && EndedRight(s, p)
    requires PhaseOf(s, p) == Over && PhaseOf(s, if p.Client? then Server else Client) != Over
    ensures if p.Client? then s.up.tx.read == AppBytes(cfg) && s.up.tx.pending == []
      else s.down.tx.read == cfg.remote && s.down.tx.pending == []
  {
    hide LaneInv, ReplyInv, DialogueOf, HeaderOf, AppBytes, Reply, ParseHeader, StatusFor, TrueKeys;
    GotWasSent(cfg, Up, s.up);
    GotWasSent(cfg, Down, s.down);
    assert s.up.tx.read + [] == s.up.tx.read && s.down.tx.read + [] == s.down.tx.read;
  }
}
