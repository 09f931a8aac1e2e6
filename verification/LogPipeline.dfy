/**
 Log lines from the native library to the Android screen: a buffer that is
 written by anyone, drained by polls as one joined string, and shown through a
 window of the last 128 lines.
 */
module LogPipeline {

  const MAX_LOG_ENTRIES: nat := 128

  // ---------------------------------------------------------------------------
  // Text, as Rust and as Kotlin see it
  // ---------------------------------------------------------------------------

  /** `char::is_whitespace`: the Unicode White_Space property. */
  predicate RustWhite(c: char) {
    var n := c as int;
    9 <= n <= 13 || n in {0x20, 0x85, 0xA0, 0x1680, 0x2028, 0x2029, 0x202F, 0x205F, 0x3000} || 0x2000 <= n <= 0x200A
  }

  /** Kotlin's `isWhitespace` on the JVM: the four separators U+001C to U+001F count, U+0085 does not. */
  predicate KotlinWhite(c: char) {
    (RustWhite(c) && c as int != 0x85) || 0x1C <= c as int <= 0x1F
  }

  predicate Blank(t: string) {
    forall i :: 0 <= i < |t| ==> KotlinWhite(t[i])
  }

  /** How many characters of white text the text starts with. */
  function LeadingWhite(t: string): (n: nat)
    ensures n <= |t| && forall i :: 0 <= i < n ==> RustWhite(t[i])
    ensures n < |t| ==> !RustWhite(t[n])
  {
    if t == [] || !RustWhite(t[0]) then 0 else 1 + LeadingWhite(t[1..])
  }

  /** `trim_end`. */
  function TrimEnd(t: string): (r: string)
    ensures r <= t && (r != [] ==> !RustWhite(r[|r| - 1]))
    ensures forall i :: |r| <= i < |t| ==> RustWhite(t[i])
  {
    if t != [] && RustWhite(t[|t| - 1]) then TrimEnd(t[..|t| - 1]) else t
  }

  function Trim(t: string): string { TrimEnd(t[LeadingWhite(t)..]) }

  /** The first newline, or the length of the text. */
  function Newline(t: string): (n: nat)
    ensures n <= |t| && '\n' !in t[..n]
    ensures n < |t| ==> t[n] == '\n'
  {
    if t == [] || t[0] == '\n' then 0
    else
      var n := 1 + Newline(t[1..]);
      assert t[..n] == [t[0]] + t[1..][..n - 1];
      n
  }

  function StripCr(t: string): string {
    if t != [] && t[|t| - 1] == '\r' then t[..|t| - 1] else t
  }

  /** `str::lines`: nothing stands behind a final newline. */
  function Lines(t: string): seq<string>
    decreases |t|
  {
    if t == [] then []
    else
      var n := Newline(t);
      if n == |t| then [t] else [StripCr(t[..n])] + Lines(t[n + 1..])
  }

  /** Of the lines given, those that are not empty when trimmed. */
  function Kept(lines: seq<string>): seq<string> {
    if lines == [] then []
    else (if Trim(lines[0]) == [] then [] else [Trim(lines[0])]) + Kept(lines[1..])
  }

  /** What one write adds to the buffer. */
  function LogLines(text: string): seq<string> { Kept(Lines(text)) }

  function Join(lines: seq<string>): string {
    if lines == [] then []
    else if |lines| == 1 then lines[0]
    else lines[0] + ['\n'] + Join(lines[1..])
  }

  /** Kotlin's `split("\n")`: always at least one piece. */
  function Split(raw: string): (r: seq<string>)
    ensures r != []
    decreases |raw|
  {
    var n := Newline(raw);
    if n == |raw| then [raw] else [raw[..n]] + Split(raw[n + 1..])
  }

  function NotBlank(lines: seq<string>): (r: seq<string>)
    ensures forall i :: 0 <= i < |r| ==> !Blank(r[i])
  {
    if lines == [] then [] else (if Blank(lines[0]) then [] else [lines[0]]) + NotBlank(lines[1..])
  }

  function TakeLast<T>(n: nat, s: seq<T>): (r: seq<T>)
    ensures |r| <= n && (|s| <= n ==> r == s)
  {
    if |s| <= n then s else s[|s| - n..]
  }

  // ---------------------------------------------------------------------------
  // Laws of the text functions
  // ---------------------------------------------------------------------------

  predicate OneLine(t: string) { '\n' !in t }

  predicate AllOneLine(lines: seq<string>) {
    forall i :: 0 <= i < |lines| ==> OneLine(lines[i])
  }

  /** A first piece without newline is found again, whatever follows its newline. */
  lemma {:induction false} NewlineAt(a: string, b: string)
    requires OneLine(a)
    ensures Newline(a + ['\n'] + b) == |a| && Newline(a) == |a|
  {
    if a != [] {
      assert (a + ['\n'] + b)[1..] == a[1..] + ['\n'] + b;
      NewlineAt(a[1..], b);
    }
  }

  lemma {:induction false} SplitJoin(lines: seq<string>)
    requires lines != [] && AllOneLine(lines)
    ensures Split(Join(lines)) == lines
  {
    assert OneLine(lines[0]);
    if |lines| == 1 {
      NewlineAt(lines[0], []);
    } else {
      var a, b := lines[0], Join(lines[1..]);
      NewlineAt(a, b);
      assert (a + ['\n'] + b)[..|a|] == a && (a + ['\n'] + b)[|a| + 1..] == b;
      SplitJoin(lines[1..]);
    }
  }

  lemma {:induction false} JoinSplit(raw: string)
    ensures Join(Split(raw)) == raw && AllOneLine(Split(raw))
    decreases |raw|
  {
    var n := Newline(raw);
    if n == |raw| {
      assert raw[..n] == raw;
    } else {
      JoinSplit(raw[n + 1..]);
      assert raw == raw[..n] + ['\n'] + raw[n + 1..];
      assert Split(raw)[1..] == Split(raw[n + 1..]);
    }
  }

  lemma {:induction false} KeptAppend(a: seq<string>, b: seq<string>)
    ensures Kept(a + b) == Kept(a) + Kept(b)
  {
    if a == [] {
      assert a + b == b;
    } else {
      assert (a + b)[1..] == a[1..] + b;
      KeptAppend(a[1..], b);
    }
  }

  lemma KeptNext(lines: seq<string>, i: nat)
    requires i < |lines|
    ensures Kept(lines[..i + 1]) == Kept(lines[..i]) + if Trim(lines[i]) == [] then [] else [Trim(lines[i])]
  {
    hide Trim;
    assert lines[..i + 1] == lines[..i] + [lines[i]];
    KeptAppend(lines[..i], [lines[i]]);
    assert [lines[i]][1..] == [];
  }

  lemma {:induction false} NotBlankAppend(a: seq<string>, b: seq<string>)
    ensures NotBlank(a + b) == NotBlank(a) + NotBlank(b)
  {
    if a == [] {
      assert a + b == b;
    } else {
      assert (a + b)[1..] == a[1..] + b;
      NotBlankAppend(a[1..], b);
    }
  }

  /** Trimming takes white ends off and leaves nothing only of white text. */
  lemma TrimMeaning(t: string)
    ensures var a := LeadingWhite(t); var b := a + |Trim(t)|;
      b <= |t| && Trim(t) == t[a..b] && forall i :: b <= i < |t| ==> RustWhite(t[i])
    ensures Trim(t) != [] ==> !RustWhite(Trim(t)[0]) && !RustWhite(Trim(t)[|Trim(t)| - 1])
    ensures Trim(t) == [] <==> forall i :: 0 <= i < |t| ==> RustWhite(t[i])
  {
    hide LeadingWhite, TrimEnd, RustWhite;
    var a := LeadingWhite(t);
    var s := t[a..];
    assert forall i :: a <= i < |t| ==> t[i] == s[i - a];
  }

  lemma {:induction false} LinesAreSingle(t: string)
    ensures AllOneLine(Lines(t))
    decreases |t|
  {
    if t != [] {
      var n := Newline(t);
      if n == |t| {
        assert t[..n] == t;
      } else {
        LinesAreSingle(t[n + 1..]);
        assert forall i :: 0 <= i < |StripCr(t[..n])| ==> StripCr(t[..n])[i] == t[..n][i];
      }
    }
  }

  lemma {:induction false} KeptAreSingle(lines: seq<string>)
    requires AllOneLine(lines)
    ensures AllOneLine(Kept(lines))
    ensures forall i :: 0 <= i < |Kept(lines)| ==> Kept(lines)[i] != [] && Trim(Kept(lines)[i]) == Kept(lines)[i]
  {
    hide Trim;
    if lines != [] {
      KeptAreSingle(lines[1..]);
      TrimMeaning(lines[0]);
      assert OneLine(lines[0]);
      TrimTwice(lines[0]);
    }
  }

  lemma TrimTwice(t: string)
    ensures Trim(Trim(t)) == Trim(t)
  {
    hide Trim, RustWhite;
    TrimMeaning(t);
    TrimMeaning(Trim(t));
  }

  /** Everything in the buffer survives the join and split of a poll. */
  lemma LogLinesFit(text: string)
    ensures AllOneLine(LogLines(text))
    ensures forall i :: 0 <= i < |LogLines(text)| ==> LogLines(text)[i] != [] && Trim(LogLines(text)[i]) == LogLines(text)[i]
  {
    hide Kept, Lines, Trim;
    LinesAreSingle(text);
    KeptAreSingle(Lines(text));
  }

  /**
   What one line adds to the log, at the end of a write or in front of more, with
   a carriage return or without: its text without white ends, if any is left.
   */
  lemma LineLogged(line: string, rest: string)
    requires OneLine(line)
    ensures var kept := if Trim(line) == [] then [] else [Trim(line)];
      && LogLines(line) == kept
      && LogLines(line + ['\n'] + rest) == kept + LogLines(rest)
      && LogLines(line + ['\r', '\n'] + rest) == kept + LogLines(rest)
  {
    hide Lines, Trim, StripCr;
    NothingToRead();
    LastLine(line);
    LinesUnfold(line, rest);
    LinesUnfold(line + ['\r'], rest);
    assert line + ['\r', '\n'] + rest == (line + ['\r']) + ['\n'] + rest;
    CrIsWhite(line);
    CrStripped(line);
  }

  lemma LastLine(line: string)
    requires OneLine(line)
    ensures Kept(Lines(line)) == if Trim(line) == [] then [] else [Trim(line)]
  {
    hide Trim;
    NewlineAt(line, []);
    if line == [] {
      TrimMeaning([]);
    } else {
      assert Lines(line) == [line] && [line][1..] == [];
    }
  }

  /** Taking a carriage return off the end of a line leaves what trimming leaves. */
  lemma CrStripped(line: string)
    ensures StripCr(line + ['\r']) == line
  {
  }

  lemma CrIsWhite(line: string)
    ensures Trim(StripCr(line)) == Trim(line)
  {
    hide Trim, RustWhite;
    if line != [] && line[|line| - 1] == '\r' {
      var s := line[..|line| - 1];
      TrimMeaning(line);
      TrimMeaning(s);
      CarriageReturn();
      TrimCut(line);
    }
  }

  lemma CarriageReturn()
    ensures RustWhite('\r')
  {
  }

  /** A white last character is trimmed off first. */
  lemma TrimCut(line: string)
    requires line != [] && RustWhite(line[|line| - 1])
    ensures Trim(line[..|line| - 1]) == Trim(line)
  {
    hide RustWhite;
    var s := line[..|line| - 1];
    LeadingOfPrefix(line);
    var a := LeadingWhite(line);
    if a < |line| {
      assert line[a..][..|line[a..]| - 1] == s[a..];
      assert line[a..][|line[a..]| - 1] == line[|line| - 1];
    }
  }

  lemma {:induction false} LeadingOfPrefix(line: string)
    requires line != [] && RustWhite(line[|line| - 1])
    ensures var s := line[..|line| - 1];
      if LeadingWhite(line) == |line| then LeadingWhite(s) == |s| else LeadingWhite(s) == LeadingWhite(line)
  {
    hide RustWhite;
    if |line| > 1 && RustWhite(line[0]) {
      assert line[..|line| - 1][1..] == line[1..][..|line[1..]| - 1];
      LeadingOfPrefix(line[1..]);
    }
  }

  /** Writes that end in a newline log the lines of their concatenation, as if written at once. */
  lemma WholeLineWrites(a: string, b: string)
    requires a == [] || a[|a| - 1] == '\n'
    ensures LogLines(a + b) == LogLines(a) + LogLines(b)
  {
    hide Trim;
    LinesAppend(a, b);
    KeptAppend(Lines(a), Lines(b));
  }

  lemma LinesUnfold(line: string, rest: string)
    requires OneLine(line)
    ensures Lines(line + ['\n'] + rest) == [StripCr(line)] + Lines(rest)
  {
    hide StripCr, OneLine;
    NewlineAt(line, rest);
    var t := line + ['\n'] + rest;
    assert t[..|line|] == line && t[|line| + 1..] == rest;
  }

  lemma {:induction false} LinesAppend(a: string, b: string)
    requires a == [] || a[|a| - 1] == '\n'
    ensures Lines(a + b) == Lines(a) + Lines(b)
    decreases |a|
  {
    hide Lines, StripCr, Newline;
    if a == [] {
      assert a + b == b;
      NothingToRead();
    } else {
      var n := Newline(a);
      assert a[..|a|] == a;
      assert n < |a|;
      var line, tail := a[..n], a[n + 1..];
      assert a == line + ['\n'] + tail;
      assert a + b == line + ['\n'] + (tail + b);
      LinesUnfold(line, tail + b);
      LinesUnfold(line, tail);
      assert tail != [] ==> tail[|tail| - 1] == a[|a| - 1];
      LinesAppend(tail, b);
    }
  }

  lemma NothingToRead()
    ensures Lines([]) == []
  {
  }

  /** Cutting to the last n early makes no difference to the last n. */
  lemma TakeLastCollapse<T>(n: nat, a: seq<T>, b: seq<T>)
    ensures TakeLast(n, TakeLast(n, a) + b) == TakeLast(n, a + b)
  {
    hide TakeLast;
    if |a| > n {
      var gone, cut := a[..|a| - n], a[|a| - n..];
      LastOfLong(n, a);
      Reassociate(gone, cut, b);
      LastOfTail(n, gone, cut + b);
      assert a == gone + cut;
    }
  }

  lemma LastOfLong<T>(n: nat, s: seq<T>)
    requires |s| > n
    ensures TakeLast(n, s) == s[|s| - n..] && |s[|s| - n..]| == n
  {
  }

  lemma Reassociate<T>(a: seq<T>, b: seq<T>, c: seq<T>)
    ensures (a + b) + c == a + (b + c)
  {
  }

  lemma LastOfTail<T>(n: nat, gone: seq<T>, rest: seq<T>)
    requires |rest| >= n
    ensures TakeLast(n, gone + rest) == TakeLast(n, rest)
  {
  }

  // ---------------------------------------------------------------------------
  // Blank lines: Rust and Kotlin disagree
  // ---------------------------------------------------------------------------

  /** A line that Rust kept but Kotlin drops begins and ends with one of the separators U+001C to U+001F. */
  lemma KeptButBlank(text: string, i: nat)
    requires i < |LogLines(text)| && Blank(LogLines(text)[i])
    ensures var line := LogLines(text)[i];
      && line != [] && 0x1C <= line[0] as int <= 0x1F && 0x1C <= line[|line| - 1] as int <= 0x1F
  {
    hide LogLines, Trim;
    LogLinesFit(text);
    TrimMeaning(LogLines(text)[i]);
  }

  /** Such lines exist. */
  lemma DisagreeOnBlank()
    ensures var line := [0x1C as char];
      LogLines(line) == [line] && NotBlank(LogLines(line)) == []
  {
    var line := [0x1C as char];
    assert Newline(line) == 1;
    assert Lines(line) == [line];
    assert Trim(line) == line;
    assert Kept([line]) == [line] + Kept([line][1..]);
    assert Blank(line);
  }

  /** Dropping blank lines leaves the last n lines as they are exactly when none of those is blank. */
  lemma BlankDoesNotMatter(n: nat, lines: seq<string>)
    ensures TakeLast(n, NotBlank(lines)) == TakeLast(n, lines)
       <==> forall i :: 0 <= i < |TakeLast(n, lines)| ==> !Blank(TakeLast(n, lines)[i])
  {
    hide Blank, NotBlank;
    var shown := TakeLast(n, lines);
    var dropped := lines[..|lines| - |shown|];
    assert lines == dropped + shown;
    NotBlankAppend(dropped, shown);
    if forall i :: 0 <= i < |shown| ==> !Blank(shown[i]) {
      AllNotBlank(shown);
      if |lines| > n {
        LastOfMore(n, NotBlank(dropped), shown);
      }
    } else {
      var i :| 0 <= i < |shown| && Blank(shown[i]);
      LastOnly(n, NotBlank(lines), shown[i]);
      assert shown[i] in shown;
    }
  }

  lemma LastOfMore<T>(n: nat, a: seq<T>, b: seq<T>)
    requires |b| == n
    ensures TakeLast(n, a + b) == b
  {
  }

  /** The last n lines that are not blank hold no blank one. */
  lemma LastOnly(n: nat, lines: seq<string>, blank: string)
    requires Blank(blank) && forall i :: 0 <= i < |lines| ==> !Blank(lines[i])
    ensures blank !in TakeLast(n, lines)
  {
    hide Blank;
  }

  lemma {:induction false} AllNotBlank(lines: seq<string>)
    requires forall i :: 0 <= i < |lines| ==> !Blank(lines[i])
    ensures NotBlank(lines) == lines
  {
    if lines != [] { AllNotBlank(lines[1..]); }
  }

  // ---------------------------------------------------------------------------
  // The buffer and the window
  // ---------------------------------------------------------------------------

  /** `LOG_BUF`. */
  class LogBuffer {
    var lines: seq<string>
    ghost var history: seq<string>   // every line since the buffer was cleared

    constructor ()
      ensures lines == [] && history == []
    {
      lines, history := [], [];
    }

    ghost predicate Valid()
      reads this
    {
      AllOneLine(lines)
    }

    /** `TeeWriter::write`. */
    method Write(text: string)
      requires Valid()
      modifies this
      ensures Valid() && lines == old(lines) + LogLines(text) && history == old(history) + LogLines(text)
    {
      hide Trim, Lines;
      var parts := Lines(text);
      var i := 0;
      while i < |parts|
        invariant 0 <= i <= |parts|
        invariant lines == old(lines) + Kept(parts[..i]) && history == old(history)
      {
        var t := Trim(parts[i]);
        KeptNext(parts, i);
        if t != [] {
          lines := lines + [t];
        }
        i := i + 1;
      }
      assert parts[..|parts|] == parts;
      history := history + LogLines(text);
      LogLinesFit(text);
    }

    method Clear()
      modifies this
      ensures lines == [] && history == []
    {
      lines, history := [], [];
    }

    /** `nativePollLogs`: drain and join. */
    method Drain() returns (raw: string)
      modifies this`lines
      ensures raw == Join(old(lines)) && lines == []
    {
      raw := Join(lines);
      lines := [];
    }
  }

  // ---------------------------------------------------------------------------
  // The pipeline: writes and polls in any order
  // ---------------------------------------------------------------------------

  datatype Log = Log(buffer: seq<string>, shown: seq<string>, history: seq<string>)

  datatype LogAction = Write(text: string) | Poll

  /** Lines as the polling loop reads them off the joined string. */
  function Polled(buffer: seq<string>): seq<string> {
    var raw := Join(buffer);
    if raw == [] then [] else NotBlank(Split(raw))
  }

  function PollStep(l: Log): Log {
    var added := Polled(l.buffer);
    Log([], if added == [] then l.shown else TakeLast(MAX_LOG_ENTRIES, l.shown + added), l.history)
  }

  function WriteStep(l: Log, text: string): Log {
    Log(l.buffer + LogLines(text), l.shown, l.history + LogLines(text))
  }

  function LogRun(l: Log, run: seq<LogAction>): Log
    decreases |run|
  {
    if run == [] then l
    else LogRun(match run[0] case Write(text) => WriteStep(l, text) case Poll => PollStep(l), run[1..])
  }

  /** All that was logged, whenever it was polled. */
  function Logged(run: seq<LogAction>): seq<string> {
    if run == [] then []
    else (if run[0].Write? then LogLines(run[0].text) else []) + Logged(run[1..])
  }

  /** What is shown, followed by what is buffered, ends as the history does. */
  ghost predicate Faithful(l: Log) {
    && AllOneLine(l.buffer) && |l.shown| <= MAX_LOG_ENTRIES
    && TakeLast(MAX_LOG_ENTRIES, l.shown + NotBlank(l.buffer)) == TakeLast(MAX_LOG_ENTRIES, NotBlank(l.history))
  }

  /** Joining and splitting loses nothing but blank lines. */
  lemma PolledIsBuffered(buffer: seq<string>)
    requires AllOneLine(buffer)
    ensures Polled(buffer) == NotBlank(buffer)
  {
    hide Blank;
    if buffer == [] {
    } else if Join(buffer) == [] {
      SplitJoin(buffer);
      assert Newline([]) == 0;
      assert buffer == [[]];
      EmptyIsBlank();
      assert NotBlank([[]]) == NotBlank([[]][1..]);
    } else {
      SplitJoin(buffer);
    }
  }

  lemma EmptyIsBlank()
    ensures Blank([])
  {
  }

  lemma PollFaithful(l: Log)
    requires Faithful(l)
    ensures Faithful(PollStep(l)) && PollStep(l).shown == TakeLast(MAX_LOG_ENTRIES, NotBlank(l.history))
  {
    hide Polled, Blank, NotBlank;
    PolledIsBuffered(l.buffer);
    NoLines();
    assert l.shown + [] == l.shown;
    var l' := PollStep(l);
    assert l'.shown + [] == l'.shown;
  }

  lemma NoLines()
    ensures NotBlank([]) == []
  {
  }

  lemma WriteFaithful(l: Log, text: string)
    requires Faithful(l)
    ensures Faithful(WriteStep(l, text))
  {
    hide LogLines, NotBlank, Blank;
    var added := LogLines(text);
    LogLinesFit(text);
    NotBlankAppend(l.buffer, added);
    NotBlankAppend(l.history, added);
    var a, b := l.shown + NotBlank(l.buffer), NotBlank(added);
    TakeLastCollapse(MAX_LOG_ENTRIES, a, b);
    TakeLastCollapse(MAX_LOG_ENTRIES, NotBlank(l.history), b);
    assert l.shown + (NotBlank(l.buffer) + b) == a + b;
  }

  lemma {:induction false} RunFaithful(l: Log, run: seq<LogAction>)
    requires Faithful(l)
    ensures Faithful(LogRun(l, run)) && LogRun(l, run).history == l.history + Logged(run)
    decreases |run|
  {
    hide Faithful, LogLines, PollStep;
    if run == [] {
      assert l.history + [] == l.history;
    } else {
      var rest := run[1..];
      match run[0] {
        case Write(text) =>
          WriteFaithful(l, text);
          RunFaithful(WriteStep(l, text), rest);
          assert (l.history + LogLines(text)) + Logged(rest) == l.history + (LogLines(text) + Logged(rest));
        case Poll =>
          PollFaithful(l);
          PollKeepsHistory(l);
          RunFaithful(PollStep(l), rest);
          assert [] + Logged(rest) == Logged(rest);
      }
    }
  }

  lemma PollKeepsHistory(l: Log)
    ensures PollStep(l).history == l.history
  {
    hide Polled;
  }

  /**
   However writes and polls interleave, the screen followed by the buffer ends
   in the last 128 non-blank lines written since the clear; behind a poll the
   screen is exactly those, whatever the polling schedule was.
   */
  lemma WindowShowsHistory(run: seq<LogAction>)
    ensures var l := LogRun(Log([], [], []), run);
      TakeLast(MAX_LOG_ENTRIES, l.shown + NotBlank(l.buffer)) == TakeLast(MAX_LOG_ENTRIES, NotBlank(Logged(run)))
    ensures PollStep(LogRun(Log([], [], []), run)).shown == TakeLast(MAX_LOG_ENTRIES, NotBlank(Logged(run)))
  {
    hide LogRun, Logged, PollStep, Blank;
    var l := Log([], [], []);
    assert NotBlank([]) == [];
    RunFaithful(l, run);
    assert [] + Logged(run) == Logged(run);
    PollFaithful(LogRun(l, run));
  }

  /**
   Behind a poll the screen is the last 128 lines logged, blank or not, exactly
   when none of those is blank to Kotlin.
   */
  lemma WindowIsTail(run: seq<LogAction>)
    ensures var tail := TakeLast(MAX_LOG_ENTRIES, Logged(run));
      PollStep(LogRun(Log([], [], []), run)).shown == tail <==> forall i :: 0 <= i < |tail| ==> !Blank(tail[i])
  {
    hide LogRun, Logged, PollStep, Blank, NotBlank, TakeLast;
    WindowShowsHistory(run);
    BlankDoesNotMatter(MAX_LOG_ENTRIES, Logged(run));
  }
}
