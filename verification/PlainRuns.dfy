/** Runs of the plain session that move many bytes at once. */
module PlainRuns {
  import opened Bytes
  import opened Frames
  import opened Lanes
  import opened Session
  import opened SessionProgress

  function Repeat(a: Action, k: nat): seq<Action> {
    if k == 0 then [] else [a] + Repeat(a, k - 1)
  }

  /** Read and write k bytes of the external stream, one at a time. */
  function Pump(d: Dir, k: nat): seq<Action> {
    if k == 0 then [] else [Fetch(d, 1)] + ([Emit(d)] + Pump(d, k - 1))
  }

  lemma {:induction false} RepeatGood(a: Action, k: nat)
    requires Good(a)
    ensures forall i :: 0 <= i < |Repeat(a, k)| ==> Good(Repeat(a, k)[i])
  {
    if k > 0 { RepeatGood(a, k - 1); }
  }

  lemma {:induction false} PumpGood(d: Dir, k: nat)
    ensures forall i :: 0 <= i < |Pump(d, k)| ==> Good(Pump(d, k)[i])
  {
    if k > 0 { PumpGood(d, k - 1); }
  }

  /** One action, then the rest. */
  lemma ExecCons(cfg: Config, s: State, a: Action, rest: seq<Action>)
    requires cfg.Valid() && Enabled(cfg, s, a)
    ensures Exec(cfg, s, [a] + rest) == Exec(cfg, Next(cfg, s, a), rest)
  {
    hide Next, Enabled;
    assert ([a] + rest)[1..] == rest;
  }

  /** The lane with its whole write on the wire. */
  function Flushed(l: Lane): Lane {
    l.(tx := l.tx.(pending := []), wire := l.wire + l.tx.pending)
  }

  lemma EmitOne(cfg: Config, s: State, d: Dir)
    requires cfg.Valid() && cfg.mode.Plain? && Enabled(cfg, s, Emit(d))
    ensures var l := LaneOf(s, d); var rest := l.tx.pending[1..];
      var l' := l.(tx := l.tx.(pending := rest), wire := l.wire + [l.tx.pending[0]]);
      && Next(cfg, s, Emit(d)) == (if rest != [] then WithLane(s, d, l') else Written(WithLane(s, d, l'), d))
      && Flushed(l') == Flushed(l)
  {
    hide Written;
    var l := LaneOf(s, d);
    assert l.tx.pending == [l.tx.pending[0]] + l.tx.pending[1..];
  }

  lemma {:induction false} EmitAll(cfg: Config, s: State, d: Dir)
    requires cfg.Valid() && cfg.mode.Plain? && Enabled(cfg, s, Emit(d))
    ensures Exec(cfg, s, Repeat(Emit(d), |LaneOf(s, d).tx.pending|))
         == Some(Written(WithLane(s, d, Flushed(LaneOf(s, d))), d))
    decreases |LaneOf(s, d).tx.pending|
  {
    hide Written, Next;
    var l := LaneOf(s, d);
    var k := |l.tx.pending|;
    EmitOne(cfg, s, d);
    ExecCons(cfg, s, Emit(d), Repeat(Emit(d), k - 1));
    if k > 1 {
      var s' := Next(cfg, s, Emit(d));
      EmitAll(cfg, s', d);
      assert WithLane(s', d, Flushed(LaneOf(s', d))) == WithLane(s, d, Flushed(l));
    } else {
      assert Repeat(Emit(d), 0) == [];
      assert l.wire + [l.tx.pending[0]] == l.wire + l.tx.pending;
    }
  }

  /** The lane after k bytes of the source went to the wire. */
  function Pumped(l: Lane, k: nat): Lane
    requires k <= |l.tx.source|
  {
    var p := l.tx.source[..k];
    l.(tx := l.tx.(source := l.tx.source[k..], read := l.tx.read + p), wire := l.wire + p)
  }

  lemma PumpOne(cfg: Config, s: State, d: Dir)
    requires cfg.Valid() && cfg.mode.Plain? && PhaseOf(s, SenderOf(d)) == Relaying
    requires LaneOf(s, d).tx.pending == [] && LaneOf(s, d).tx.source != []
    ensures Enabled(cfg, s, Fetch(d, 1)) && Enabled(cfg, Next(cfg, s, Fetch(d, 1)), Emit(d))
    ensures Next(cfg, Next(cfg, s, Fetch(d, 1)), Emit(d)) == WithLane(s, d, Pumped(LaneOf(s, d), 1))
  {
    var l := LaneOf(s, d);
    var l1 := FetchChunk(Plain, cfg.cipher, SendKey(s, d), l, 1);
    assert l1.tx.pending == [l.tx.source[0]];
    assert EmitByte(Plain, l1) == Pumped(l, 1);
  }

  lemma PumpedMore(l: Lane, k: nat)
    requires 1 <= k <= |l.tx.source|
    ensures Pumped(Pumped(l, 1), k - 1) == Pumped(l, k)
  {
    var src := l.tx.source;
    assert src[1..][..k - 1] == src[1..k] && src[1..][k - 1..] == src[k..];
    assert src[..1] + src[1..k] == src[..k];
    assert (l.tx.read + src[..1]) + src[1..k] == l.tx.read + src[..k];
    assert (l.wire + src[..1]) + src[1..k] == l.wire + src[..k];
  }

  lemma {:induction false} PumpAll(cfg: Config, s: State, d: Dir, k: nat)
    requires cfg.Valid() && cfg.mode.Plain? && PhaseOf(s, SenderOf(d)) == Relaying
    requires LaneOf(s, d).tx.pending == [] && k <= |LaneOf(s, d).tx.source|
    ensures Exec(cfg, s, Pump(d, k)) == Some(WithLane(s, d, Pumped(LaneOf(s, d), k)))
    decreases k
  {
    hide Next, Enabled, Pumped;
    var l := LaneOf(s, d);
    if k == 0 {
      PumpedNone(s, d);
    } else {
      PumpOne(cfg, s, d);
      ExecCons(cfg, s, Fetch(d, 1), [Emit(d)] + Pump(d, k - 1));
      ExecCons(cfg, Next(cfg, s, Fetch(d, 1)), Emit(d), Pump(d, k - 1));
      var s' := WithLane(s, d, Pumped(l, 1));
      PumpedFacts(l, 1);
      PumpAll(cfg, s', d, k - 1);
      PumpedMore(l, k);
    }
  }

  lemma PumpedNone(s: State, d: Dir)
    ensures WithLane(s, d, Pumped(LaneOf(s, d), 0)) == s
  {
    var l := LaneOf(s, d);
    assert Pumped(l, 0) == l;
  }

  lemma PumpedFacts(l: Lane, k: nat)
    requires k <= |l.tx.source|
    ensures Pumped(l, k).tx.pending == l.tx.pending && |Pumped(l, k).tx.source| == |l.tx.source| - k
  {
  }

  /** The lane that has taken `rest` more off its wire than the body `p`. */
  function FrameTaken(l: Lane, p: seq<byte>, rest: seq<byte>): Lane {
    l.(wire := rest, rx := l.rx.(partial := Framed(p)))
  }

  /** A framed message at the front of the wire is read byte by byte and opened. */
  lemma {:induction false} AbsorbFrame(cfg: Config, s: State, d: Dir, p: seq<byte>, rest: seq<byte>)
    requires cfg.Valid() && cfg.mode.Plain? && PhaseOf(s, ReceiverOf(d)) == FrameIn && |p| < U16_SIZE
    requires var l := LaneOf(s, d); l.rx.partial + l.wire == Framed(p) + rest && |l.rx.partial| < |Framed(p)|
    ensures Exec(cfg, s, Repeat(Absorb(d), |Framed(p)| - |LaneOf(s, d).rx.partial|))
         == Some(Opened(cfg, WithLane(s, d, FrameTaken(LaneOf(s, d), p, rest)), d, p))
    decreases |Framed(p)| - |LaneOf(s, d).rx.partial|
  {
    hide Opened, Next, ToU16, FromU16;
    var l := LaneOf(s, d);
    var k := |Framed(p)| - |l.rx.partial|;
    AbsorbOne(cfg, s, d, p, rest);
    ExecCons(cfg, s, Absorb(d), Repeat(Absorb(d), k - 1));
    if k > 1 {
      var s' := Next(cfg, s, Absorb(d));
      AbsorbFrame(cfg, s', d, p, rest);
      assert WithLane(s', d, FrameTaken(LaneOf(s', d), p, rest)) == WithLane(s, d, FrameTaken(l, p, rest));
    } else {
      assert Repeat(Absorb(d), 0) == [];
    }
  }

  lemma AbsorbOne(cfg: Config, s: State, d: Dir, p: seq<byte>, rest: seq<byte>)
    requires cfg.Valid() && cfg.mode.Plain? && PhaseOf(s, ReceiverOf(d)) == FrameIn && |p| < U16_SIZE
    requires var l := LaneOf(s, d); l.rx.partial + l.wire == Framed(p) + rest && |l.rx.partial| < |Framed(p)|
    ensures Enabled(cfg, s, Absorb(d))
    ensures var l := LaneOf(s, d);
      && l.wire != []
      && TakeByte(l).rx.partial + TakeByte(l).wire == Framed(p) + rest
      && Next(cfg, s, Absorb(d)) == (
          if |l.rx.partial| + 1 < |Framed(p)| then WithLane(s, d, TakeByte(l))
          else Opened(cfg, WithLane(s, d, FrameTaken(l, p, rest)), d, p))
  {
    hide Opened, ToU16, FromU16;
    var l := LaneOf(s, d);
    assert |l.rx.partial + l.wire| == |Framed(p)| + |rest|;
    assert l.wire == [l.wire[0]] + l.wire[1..];
    var l' := TakeByte(l);
    var partial := l'.rx.partial;
    assert partial + l'.wire == l.rx.partial + l.wire;
    PartialPlain(p, rest, partial, l'.wire);
    if |partial| == |Framed(p)| {
      assert l' == FrameTaken(l, p, rest);
    }
  }

  lemma PartialPlain(p: seq<byte>, rest: seq<byte>, partial: seq<byte>, wire: seq<byte>)
    requires |p| < U16_SIZE && partial + wire == Framed(p) + rest && |partial| <= |Framed(p)|
    ensures Inspect(Plain, partial) == if |partial| < |Framed(p)| then NeedMore else Whole(p)
    ensures |partial| == |Framed(p)| ==> partial == Framed(p) && wire == rest
  {
    hide ToU16, FromU16;
    FramedHead(p, rest);
    var w := partial + wire;
    if |partial| >= 2 { assert partial[..2] == w[..2]; }
    if |partial| == |Framed(p)| {
      SplitUnique(partial, wire, Framed(p), rest);
      assert Framed(p)[2..] == p;
    }
  }
}
