/** Every move of a lane keeps its invariant. */
module LaneProofs {
  import opened Bytes
  import opened Aead
  import opened Frames
  import opened EncryptedTunnels
  import opened PlainTunnels
  import opened Lanes

  // ---------------------------------------------------------------------------
  // Sealed lanes
  // ---------------------------------------------------------------------------

  lemma SealedEmpty(c: Cipher, key: Key, hello: seq<byte>, source: seq<byte>)
    requires |hello| == KEY_LEN
    ensures SealedLane(c, key, hello, EmptyLane(source))
  {
    hide NonceBytes;
  }

  lemma SealedStartHello(c: Cipher, key: Key, hello: seq<byte>, l: Lane)
    requires SealedLane(c, key, hello, l) && l.tx.hello == []
    ensures SealedLane(c, key, hello, StartHello(l, hello))
  {
    hide NonceBytes, Wrap64;
    NothingInFlight(c, key, hello, l);
  }

  /** With every frame accepted and no handshake under way, nothing is in flight. */
  lemma NothingInFlight(c: Cipher, key: Key, hello: seq<byte>, l: Lane)
    requires SealedLane(c, key, hello, l)
    ensures (l.tx.hello == [] || (l.rx.heard != [] && |l.rx.got| == |l.tx.sent|)) ==>
      l.rx.partial == l.wire == l.lost == l.tx.pending == []
  {
    hide NonceBytes, Wrap64, NonceLog;
    var n := |l.rx.got|;
    if n == |l.tx.sent| {
      assert l.tx.sent[n..] == [];
      assert FrameStream(c, key, n, []) == [];
    }
  }

  /** The stream expected behind one more frame. */
  lemma ExpectedGrows(c: Cipher, key: Key, l: Lane, p: seq<byte>)
    requires |l.rx.got| <= |l.tx.sent|
    ensures var l' := l.(tx := l.tx.(sent := l.tx.sent + [p]));
      Expected(c, key, l') == Expected(c, key, l) + SealedFrame(c, key, |l.tx.sent|, p)
  {
    hide NonceBytes, SealedFrame, FrameStream;
    var n := |l.rx.got|;
    assert (l.tx.sent + [p])[n..] == l.tx.sent[n..] + [p];
    FrameStreamSnoc(c, key, n, l.tx.sent[n..], p);
  }

  lemma PayloadGrows(frames: seq<seq<byte>>, p: seq<byte>)
    ensures Payload(frames + [p]) == if frames == [] then [] else Payload(frames) + p
  {
    if frames != [] {
      assert (frames + [p])[1..] == frames[1..] + [p];
      FlatSnoc(frames[1..], p);
    } else {
      assert (frames + [p])[1..] == [];
    }
  }

  lemma SealedStart(c: Cipher, key: Key, hello: seq<byte>, l: Lane, p: seq<byte>, l': Lane)
    requires SealedLane(c, key, hello, l) && l.tx.pending == [] && l.tx.hello == hello && |p| <= MAX_PLAINTEXT
    requires c.Correct() && FrameBegun(c, key, l, p, l')
    ensures SealedLane(c, key, hello, l')
  {
    hide NonceBytes, Wrap64, FrameStream, Flat, NonceLog, Expected, SenderOk;
    NothingInFlight(c, key, hello, l);
    SealedStartSender(c, key, hello, l, p, l');
    ExpectedGrows(c, key, l, p);
    ExpectedOnlySent(c, key, l'.(tx := l.tx.(sent := l.tx.sent + [p])), l');
    assert InFlight(l') == InFlight(l) + l'.tx.pending;
  }

  /** `l'` is `l` with the next frame handed to the stream, whatever was read for it. */
  ghost predicate FrameBegun(c: Cipher, key: Key, l: Lane, p: seq<byte>, l': Lane) {
    && l'.rx == l.rx && l'.wire == l.wire && l'.lost == l.lost
    && l'.tx.hello == l.tx.hello && l'.tx.sent == l.tx.sent + [p] && l'.tx.counter == l.tx.counter
    && l'.tx.spent == l.tx.spent + [(key, NonceBytes(l.tx.counter))]
    && l'.tx.read == (if l.tx.sent == [] then l.tx.read else l.tx.read + p)
    && l'.tx.pending == SealedFrame(c, key, l.tx.counter, p)
  }

  lemma SealedStartSender(c: Cipher, key: Key, hello: seq<byte>, l: Lane, p: seq<byte>, l': Lane)
    requires SenderOk(key, hello, l.tx) && l.tx.pending == [] && l.tx.hello == hello && |p| <= MAX_PLAINTEXT
    requires c.Correct() && FrameBegun(c, key, l, p, l')
    ensures SenderOk(key, hello, l'.tx) && l'.tx.pending == SealedFrame(c, key, |l.tx.sent|, p)
  {
    hide NonceBytes, Wrap64, Flat, NonceLog;
    var n := |l.tx.sent|;
    PayloadGrows(l.tx.sent, p);
    NonceLogGrows(key, n, 1);
    NonceWraps(n);
  }

  lemma ExpectedOnlySent(c: Cipher, key: Key, a: Lane, b: Lane)
    requires a.rx == b.rx && a.tx.sent == b.tx.sent && a.tx.hello == b.tx.hello && |a.rx.got| <= |a.tx.sent|
    ensures Expected(c, key, a) == Expected(c, key, b)
  {
  }

  lemma SealedStartFirst(c: Cipher, key: Key, hello: seq<byte>, l: Lane, p: seq<byte>)
    requires SealedLane(c, key, hello, l) && l.tx.pending == [] && l.tx.hello == hello && |p| <= MAX_PLAINTEXT
    requires c.Correct() && l.tx.sent == []
    ensures SealedLane(c, key, hello, StartFrame(Sealed, c, key, l, p))
  {
    hide SealedLane, SealedFrame;
    SealedStart(c, key, hello, l, p, StartFrame(Sealed, c, key, l, p));
  }

  lemma SealedFetch(c: Cipher, key: Key, hello: seq<byte>, l: Lane, k: nat)
    requires SealedLane(c, key, hello, l) && l.tx.pending == [] && l.tx.hello == hello
    requires c.Correct() && l.tx.sent != [] && k <= |l.tx.source| && k <= RELAY_BUF
    ensures SealedLane(c, key, hello, FetchChunk(Sealed, c, key, l, k))
  {
    hide SealedLane, SealedFrame;
    SealedStart(c, key, hello, l, l.tx.source[..k], FetchChunk(Sealed, c, key, l, k));
  }

  lemma SealedEmit(c: Cipher, key: Key, hello: seq<byte>, l: Lane)
    requires SealedLane(c, key, hello, l) && l.tx.pending != [] && l.lost == []
    ensures SealedLane(c, key, hello, EmitByte(Sealed, l))
  {
    hide NonceBytes, Wrap64, FrameStream, Flat, NonceLog, Expected;
    var l' := EmitByte(Sealed, l);
    ExpectedOnlySent(c, key, l, l');
    EmitMoves(Sealed, l);
    if l'.tx.pending == [] && l.tx.sent != [] {
      Wrap64Add(|l.tx.sent| - 1, 1);
    }
  }

  lemma EmitMoves(mode: Mode, l: Lane)
    requires l.tx.pending != [] && l.lost == []
    ensures InFlight(EmitByte(mode, l)) == InFlight(l)
  {
    hide Wrap64;
    var b, rest := l.tx.pending[0], l.tx.pending[1..];
    assert l.tx.pending == [b] + rest;
    assert l.wire + ([] + l.tx.pending) == (l.wire + [b]) + ([] + rest);
  }

  lemma TakeMoves(l: Lane)
    requires l.wire != []
    ensures InFlight(TakeByte(l)) == InFlight(l)
    ensures l.rx.buffered + InFlight(l) == TakeRawByte(l).rx.buffered + InFlight(TakeRawByte(l)) || l.rx.partial != []
  {
    var b, rest := l.wire[0], l.wire[1..];
    var tail := l.lost + l.tx.pending;
    assert l.wire == [b] + rest;
    assert l.wire + tail == [b] + (rest + tail);
    assert (l.rx.partial + [b]) + (rest + tail) == l.rx.partial + ([b] + (rest + tail));
  }

  /** Taking a byte keeps all but the bound on the read in progress. */
  lemma SealedTake(c: Cipher, key: Key, hello: seq<byte>, l: Lane)
    requires SealedLane(c, key, hello, l) && l.wire != []
    ensures var l' := TakeByte(l);
      SenderOk(key, hello, l'.tx) && ReceiverOk(l'.rx) && LinkOk(c, key, l') && l.tx.hello == hello
  {
    hide NonceBytes, Wrap64, Flat, NonceLog;
    TakeMoves(l);
    assert Expected(c, key, TakeByte(l)) == Expected(c, key, l);
    NothingInFlight(c, key, hello, l);
  }

  lemma SealedHear(c: Cipher, key: Key, hello: seq<byte>, l: Lane)
    requires SealedLane(c, key, hello, l) && l.wire != [] && l.rx.heard == [] && |hello| == KEY_LEN
    ensures var l' := TakeByte(l);
      && |l'.rx.partial| <= KEY_LEN
      && (|l'.rx.partial| < KEY_LEN ==> SealedLane(c, key, hello, l'))
      && (|l'.rx.partial| == KEY_LEN ==> l'.rx.partial == hello && SealedLane(c, key, hello, Hear(l')))
  {
    hide NonceBytes, Wrap64, Flat, NonceLog, FrameStream, NonceLog;
    var l' := TakeByte(l);
    SealedTake(c, key, hello, l);
    if |l'.rx.partial| == KEY_LEN {
      var rest := l'.wire + (l'.lost + l'.tx.pending);
      SplitUnique(l'.rx.partial, rest, hello, FrameStream(c, key, 0, l.tx.sent));
      assert l.tx.sent[0..] == l.tx.sent;
    }
  }

  /** A byte taken inside a frame: either more is needed, or the frame opens to the payload sent. */
  lemma SealedInspect(c: Cipher, key: Key, hello: seq<byte>, l: Lane)
    requires SealedLane(c, key, hello, l) && l.wire != [] && l.rx.heard != [] && c.Correct()
    ensures var l', n := TakeByte(l), |l.rx.got|;
      && n < |l.tx.sent|
      && match Inspect(Sealed, l'.rx.partial)
         case NeedMore => SealedLane(c, key, hello, l')
         case TooSmall => false
         case Whole(body) =>
           && |l'.rx.partial| == 2 + |l.tx.sent[n]| + TAG_LEN
           && OpenBody(Sealed, c, key, l.rx.counter, body) == Some(l.tx.sent[n])
  {
    hide NonceBytes, Wrap64, Flat, NonceLog, ToU16, FromU16;
    var l', n := TakeByte(l), |l.rx.got|;
    SealedTake(c, key, hello, l);
    NothingInFlight(c, key, hello, l);
    var p := l.tx.sent[n];
    var frames := l.tx.sent[n..];
    var tail := FrameStream(c, key, n + 1, frames[1..]);
    PrefixOfFrame(c, key, n, p, l'.rx.partial, l'.wire + (l'.lost + l'.tx.pending), tail);
    NonceWraps(n);
  }

  /** What a reader knows from the first bytes of an honest frame. */
  lemma PrefixOfFrame(c: Cipher, key: Key, n: nat, p: seq<byte>, partial: seq<byte>, rest: seq<byte>, tail: seq<byte>)
    requires c.Correct() && |p| <= MAX_PLAINTEXT
    requires partial + rest == SealedFrame(c, key, n, p) + tail
    requires |partial| <= 2 + |p| + TAG_LEN
    ensures match Inspect(Sealed, partial)
      case NeedMore => |partial| < 2 + |p| + TAG_LEN
      case TooSmall => false
      case Whole(body) => |partial| == 2 + |p| + TAG_LEN && body == Seal(c, key, n, p)
  {
    hide NonceBytes, ToU16, FromU16;
    var body := Seal(c, key, n, p);
    var w := partial + rest;
    FramedHead(body, tail);
    if |partial| >= 2 {
      assert partial[..2] == w[..2];
      if |partial| == 2 + |body| { assert partial[2..] == w[2..2 + |body|]; }
    }
  }

  lemma SealedAccept(c: Cipher, key: Key, hello: seq<byte>, l: Lane, relayed: bool)
    requires |hello| == KEY_LEN && SenderOk(key, hello, l.tx) && ReceiverOk(l.rx) && LinkOk(c, key, l)
    requires l.rx.heard != [] && c.Correct()
    requires var n := |l.rx.got|; n < |l.tx.sent| && |l.rx.partial| == 2 + |l.tx.sent[n]| + TAG_LEN
    requires (relayed <==> l.rx.got != []) && (relayed ==> l.rx.buffered == [])
    ensures SealedLane(c, key, hello, AcceptFrame(Sealed, l, l.tx.sent[|l.rx.got|], relayed))
  {
    hide NonceBytes, Wrap64, Flat, NonceLog, SenderOk;
    var n := |l.rx.got|;
    var p := l.tx.sent[n];
    var l' := AcceptFrame(Sealed, l, p, relayed);
    var tail := FrameStream(c, key, n + 1, l.tx.sent[n..][1..]);
    assert l.tx.sent[n..][1..] == l.tx.sent[n + 1..];
    SplitUnique(l.rx.partial, l.wire + (l.lost + l.tx.pending), SealedFrame(c, key, n, p), tail);
    PayloadGrows(l.rx.got, p);
    Wrap64Add(n, 1);
    assert l'.rx.got == l.tx.sent[..n + 1];
  }

  lemma SealedDeliver(c: Cipher, key: Key, hello: seq<byte>, l: Lane)
    requires SealedLane(c, key, hello, l) && l.rx.buffered != []
    ensures SealedLane(c, key, hello, DeliverByte(l))
  {
    hide NonceBytes, Wrap64, Flat, NonceLog, FrameStream, SenderOk;
    assert l.rx.buffered == [l.rx.buffered[0]] + l.rx.buffered[1..];
  }

  lemma SealedCut(c: Cipher, key: Key, hello: seq<byte>, l: Lane, n: nat)
    requires SealedLane(c, key, hello, l) && n <= |l.wire|
    ensures SealedLane(c, key, hello, CutWireAt(l, n))
  {
    hide NonceBytes, Wrap64, Flat, NonceLog, FrameStream, SenderOk;
    CutMoves(l, n);
  }

  lemma CutMoves(l: Lane, n: nat)
    requires n <= |l.wire|
    ensures InFlight(CutWireAt(l, n)) == InFlight(l)
  {
    assert l.wire == l.wire[..n] + l.wire[n..];
    var a, b := l.wire[..n], l.wire[n..];
    assert a + ((b + l.lost) + l.tx.pending) == (a + b) + (l.lost + l.tx.pending);
  }

  // ---------------------------------------------------------------------------
  // Plain lanes
  // ---------------------------------------------------------------------------

  lemma PlainStartFirst(c: Cipher, key: Key, l: Lane, p: seq<byte>)
    requires PlainLane(l) && l.tx.pending == [] && l.tx.sent == [] && |p| <= MAX_PLAINTEXT
    ensures PlainLane(StartFrame(Plain, c, key, l, p))
  {
    hide ToU16;
    assert InFlight(l) == [];
  }

  lemma PlainFetch(c: Cipher, key: Key, l: Lane, k: nat)
    requires PlainLane(l) && l.tx.pending == [] && l.tx.sent != [] && k <= |l.tx.source|
    ensures PlainLane(FetchChunk(Plain, c, key, l, k))
  {
    hide ToU16;
    var l' := FetchChunk(Plain, c, key, l, k);
    var before := l.rx.delivered + (l.rx.buffered + InFlight(l));
    assert InFlight(l') == InFlight(l) + l'.tx.pending;
    assert l'.rx.delivered + (l'.rx.buffered + InFlight(l')) == before + l'.tx.pending;
  }

  lemma PlainEmit(l: Lane)
    requires PlainLane(l) && l.tx.pending != [] && l.lost == []
    ensures PlainLane(EmitByte(Plain, l))
  {
    hide ToU16;
    EmitMoves(Plain, l);
  }

  /** A byte taken inside the one framed message, with raw bytes possibly right behind it. */
  lemma PlainInspect(l: Lane)
    requires PlainLane(l) && l.wire != [] && l.rx.got == []
    ensures var l' := TakeByte(l);
      && l.tx.sent != []
      && match Inspect(Plain, l'.rx.partial)
         case NeedMore => PlainLane(l')
         case TooSmall => false
         case Whole(body) =>
           body == l.tx.sent[0] && PlainLane(AcceptFrame(Plain, l', l.tx.sent[0], false))
  {
    hide ToU16, FromU16;
    TakeMoves(l);
    assert l.tx.sent != [];
    var l', p := TakeByte(l), l.tx.sent[0];
    var partial, rest := l'.rx.partial, l'.wire + (l'.lost + l'.tx.pending);
    var w := partial + rest;
    assert w == Framed(p) + l.tx.read;
    FramedHead(p, l.tx.read);
    if |partial| >= 2 {
      assert partial[..2] == w[..2];
      if |partial| == 2 + |p| { SplitUnique(partial, rest, Framed(p), l.tx.read); }
    }
  }

  lemma PlainTakeRaw(l: Lane)
    requires PlainLane(l) && l.wire != [] && l.rx.got != []
    ensures PlainLane(TakeRawByte(l))
  {
    hide ToU16;
    TakeMoves(l);
  }

  lemma PlainDeliver(l: Lane)
    requires PlainLane(l) && l.rx.buffered != []
    ensures PlainLane(DeliverByte(l))
  {
    hide ToU16;
    var b, rest := l.rx.buffered[0], l.rx.buffered[1..];
    assert l.rx.buffered == [b] + rest;
    assert (l.rx.delivered + [b]) + (rest + InFlight(l)) == l.rx.delivered + (l.rx.buffered + InFlight(l));
  }

  lemma PlainCut(l: Lane, n: nat)
    requires PlainLane(l) && n <= |l.wire|
    ensures PlainLane(CutWireAt(l, n))
  {
    hide ToU16;
    CutMoves(l, n);
  }

  // ---------------------------------------------------------------------------
  // Byte by byte is frame by frame
  // ---------------------------------------------------------------------------

  /** What a lane's receiver concludes from a whole body. */
  function Verdict(plaintext: Option<seq<byte>>): FrameResult {
    match plaintext case None => Error(NotAuthentic) case Some(p) => Frame(p)
  }

  /**
   A receiver that inspects its read after every byte reaches the verdict of the
   frame reader on the whole wire, at the same byte: with k bytes taken and no
   verdict before the last of them.
   */
  lemma BytewiseRead(c: Cipher, key: Key, counter: nat, wire: seq<byte>, k: nat)
    requires 1 <= k <= |wire| && Inspect(Sealed, wire[..k - 1]).NeedMore?
    ensures match Inspect(Sealed, wire[..k])
      case NeedMore => k == |wire| ==> NextFrame(c, key, counter, wire) == (if k < 2 then Closed else Error(Truncated), [])
      case TooSmall => NextFrame(c, key, counter, wire) == (Error(TooShort), wire[k..])
      case Whole(body) => NextFrame(c, key, counter, wire) == (Verdict(OpenBody(Sealed, c, key, counter, body)), wire[k..])
  {
    hide NonceBytes, FromU16;
    if k >= 2 {
      assert wire[..k][..2] == wire[..2];
      if k > 2 { assert wire[..k - 1][..2] == wire[..2]; }
      assert wire[..k][2..] == wire[2..k];
    }
  }

  lemma BytewisePlainRead(c: Cipher, key: Key, counter: nat, wire: seq<byte>, k: nat)
    requires 1 <= k <= |wire| && Inspect(Plain, wire[..k - 1]).NeedMore?
    ensures match Inspect(Plain, wire[..k])
      case NeedMore => k == |wire| ==> PlainNext(wire) == (if k < 2 then Closed else Error(Truncated), [])
      case TooSmall => false
      case Whole(body) => PlainNext(wire) == (Verdict(OpenBody(Plain, c, key, counter, body)), wire[k..])
  {
    hide FromU16;
    if k >= 2 {
      assert wire[..k][..2] == wire[..2];
      if k > 2 { assert wire[..k - 1][..2] == wire[..2]; }
      assert wire[..k][2..] == wire[2..k];
    }
  }
}
