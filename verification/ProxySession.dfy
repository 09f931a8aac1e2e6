/** The proxy on Android: the native library's one session and the Kotlin manager that starts, stops and polls it. */
module ProxySession {
  import opened LogPipeline

  const REFUSED: int := -2
  const NOT_BOUND: int := -1

  /** How binding the listener ends: with the port it got, or not at all. */
  datatype Bind = Bound(port: nat) | Unbound

  /** The native library: `STATE`, `LOG_BUF` and the threads it has started. */
  class Native {
    var running: bool            // STATE is Some: a thread to be joined
    const log: LogBuffer
    ghost var spawned: nat
    ghost var joined: nat
    ghost var refused: nat       // starts answered with -2

    constructor ()
      ensures fresh(log) && log.lines == log.history == []
      ensures !running && spawned == joined == refused == 0
    {
      running := false;
      log := new LogBuffer();
      spawned, joined, refused := 0, 0, 0;
    }

    /** Every thread but the running one was joined. */
    ghost predicate Valid()
      reads this, log
    {
      log.Valid() && spawned == joined + if running then 1 else 0
    }

    /** `nativeStart`; `said` is what is logged meanwhile. */
    method Start(bind: Bind, said: string) returns (port: int)
      requires Valid()
      modifies this, log
      ensures Valid()
      ensures old(running) ==>
        && port == REFUSED && running && spawned == old(spawned) && refused == old(refused) + 1
        && log.lines == old(log.lines) + LogLines(said) && log.history == old(log.history) + LogLines(said)
      ensures !old(running) ==>
        && port == (if bind.Bound? then bind.port else NOT_BOUND) && running == bind.Bound?
        && spawned == old(spawned) + 1 && refused == old(refused)
        && log.lines == log.history == LogLines(said)
    {
      hide LogLines;
      if running {
        log.Write(said);
        refused := refused + 1;
        return REFUSED;
      }
      log.Clear();
      log.Write(said);
      spawned := spawned + 1;
      match bind {
        case Bound(p) =>
          running := true;
          return p;
        case Unbound =>
          joined := joined + 1;
          return NOT_BOUND;
      }
    }

    /** `nativeStop`: cancel, then join. */
    method Stop(said: string) returns (stopped: bool)
      requires Valid()
      modifies this, log
      ensures Valid() && stopped == old(running) && !running
      ensures spawned == old(spawned) && refused == old(refused)
      ensures log.lines == old(log.lines) + LogLines(said) && log.history == old(log.history) + LogLines(said)
    {
      hide LogLines;
      log.Write(said);
      stopped := running;
      if running {
        running := false;
        joined := joined + 1;
      }
    }
  }

  class ProxyManager {
    const native: Native
    var isRunning: bool
    var polling: bool            // pollingJob is active
    var shownRunning: bool       // the status on the screen
    var shownPort: int
    var logs: seq<string>

    constructor ()
      ensures Valid() && fresh(native) && fresh(native.log) && !isRunning && native.refused == 0
    {
      native := new Native();
      isRunning, polling, shownRunning, shownPort, logs := false, false, false, 0, [];
    }

    ghost function LogState(): Log
      reads this, native, native.log
    {
      Log(native.log.lines, logs, native.log.history)
    }

    /**
     The manager and the native library agree on whether a session runs, so does
     the screen, and during a session the log on the screen is faithful.
     */
    ghost predicate Valid()
      reads this, native, native.log
    {
      && native.Valid() && |logs| <= MAX_LOG_ENTRIES
      && isRunning == native.running == polling == shownRunning == (shownPort > 0)
      && (isRunning ==> Faithful(LogState()))
    }

    /**
     A port bound is never 0 on a real system. If it were, the manager would
     take the start for a failure while the session runs; nothing else breaks it.
     */
    method Start(bind: Bind, said: string) returns (port: int)
      requires Valid()
      modifies this, native, native.log
      ensures Valid() <==> old(isRunning) || bind != Bound(0)
      ensures port == if old(isRunning) then REFUSED else if bind.Bound? then bind.port else NOT_BOUND
      ensures isRunning == (old(isRunning) || port > 0) && native.refused == old(native.refused)
      ensures old(isRunning) ==> LogState() == old(LogState()) && native.spawned == old(native.spawned) && shownPort == old(shownPort)
      ensures port > 0 ==> shownPort == port && LogState() == Log(LogLines(said), [], LogLines(said))
      ensures port in {0, NOT_BOUND} ==> logs == old(logs)
    {
      hide LogLines, Faithful;
      if isRunning { return REFUSED; }
      port := native.Start(bind, said);
      if port > 0 {
        isRunning := true;
        shownRunning, shownPort, logs := true, port, [];
        polling := true;
        SessionBegins(said);
      }
    }

    method Stop(said: string)
      requires Valid()
      modifies this, native, native.log
      ensures Valid() && !isRunning && native.refused == old(native.refused) && native.spawned == old(native.spawned)
      ensures logs == old(logs)
      ensures native.log.lines == old(native.log.lines) + if old(isRunning) then LogLines(said) else []
    {
      hide LogLines, Faithful;
      if !isRunning { return; }
      polling := false;
      var _ := native.Stop(said);
      isRunning := false;
      shownRunning, shownPort := false, 0;
    }

    /** One turn of the polling loop, while the job is active. */
    method Poll()
      requires Valid() && polling
      modifies this`logs, native.log`lines
      ensures Valid() && LogState() == PollStep(old(LogState()))
      ensures logs == TakeLast(MAX_LOG_ENTRIES, NotBlank(native.log.history))
    {
      hide Faithful, NotBlank, Split, Join, TakeLast;
      PollFaithful(LogState());
      var raw := native.log.Drain();
      if raw != [] {
        var newLines := NotBlank(Split(raw));
        if newLines != [] {
          logs := TakeLast(MAX_LOG_ENTRIES, logs + newLines);
        }
      }
      assert LogState() == PollStep(old(LogState()));
      FaithfulMeans(LogState());
    }

    /** Any thread of the library logs something. */
    method Say(text: string)
      requires Valid()
      modifies native.log
      ensures Valid() && LogState() == WriteStep(old(LogState()), text)
    {
      hide Faithful, LogLines;
      if isRunning { WriteFaithful(LogState(), text); }
      native.log.Write(text);
    }
  }

  lemma FaithfulMeans(l: Log)
    requires Faithful(l)
    ensures AllOneLine(l.buffer) && |l.shown| <= MAX_LOG_ENTRIES
  {
  }

  /** What is logged while a session starts is buffered when its first poll comes. */
  lemma SessionBegins(said: string)
    ensures Faithful(Log(LogLines(said), [], LogLines(said)))
  {
    hide LogLines, NotBlank;
    LogLinesFit(said);
    assert [] + NotBlank(LogLines(said)) == NotBlank(LogLines(said));
  }

  // ---------------------------------------------------------------------------
  // Every sequence of commands
  // ---------------------------------------------------------------------------

  datatype Command = Start(bind: Bind, said: string) | Stop(said: string) | Poll | Say(text: string)

  /**
   Over every sequence of commands: the threads spawned are those joined and the
   one that runs, the manager knows whether it runs, and the library never has
   to refuse a start.
   */
  method Drive(m: ProxyManager, commands: seq<Command>)
    requires m.Valid() && m.native.refused == 0
    requires forall i :: 0 <= i < |commands| ==> commands[i].Start? ==> commands[i].bind != Bound(0)
    modifies m, m.native, m.native.log
    ensures m.Valid() && m.native.refused == 0
    ensures m.native.spawned == m.native.joined + if m.isRunning then 1 else 0
    ensures m.isRunning ==> Faithful(m.LogState())
  {
    hide Faithful, LogLines;
    var i := 0;
    while i < |commands|
      invariant 0 <= i <= |commands| && m.Valid() && m.native.refused == 0
    {
      match commands[i] {
        case Start(bind, said) => var _ := m.Start(bind, said);
        case Stop(said) => m.Stop(said);
        case Poll => if m.polling { m.Poll(); }
        case Say(text) => m.Say(text);
      }
      i := i + 1;
    }
  }
}
