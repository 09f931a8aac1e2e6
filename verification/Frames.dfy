/**
 The encrypted frame layer on values: what a sequence of frames looks like on
 the wire, and what a receiver makes of any wire.
 */
module Frames {
  import opened Bytes
  import opened Aead

  /** A 2-byte big-endian length, then that many bytes. */
  function Framed(body: seq<byte>): (f: seq<byte>)
    ensures |f| == 2 + |body|
  {
    ToU16(|body|) + body
  }

  function Seal(c: Cipher, key: Key, counter: nat, p: seq<byte>): seq<byte> {
    c.encrypt(key, NonceBytes(counter), p)
  }

  function SealedFrame(c: Cipher, key: Key, counter: nat, p: seq<byte>): (f: seq<byte>)
    ensures |f| >= 2
  {
    Framed(Seal(c, key, counter, p))
  }

  /** The bytes of consecutive frames, the first under `counter`. */
  function FrameStream(c: Cipher, key: Key, counter: nat, ps: seq<seq<byte>>): seq<byte>
    decreases |ps|
  {
    if ps == [] then [] else SealedFrame(c, key, counter, ps[0]) + FrameStream(c, key, counter + 1, ps[1..])
  }

  predicate AllFit(ps: seq<seq<byte>>) {
    forall i :: 0 <= i < |ps| ==> |ps[i]| <= MAX_PLAINTEXT
  }

  datatype RecvError = TooShort | Truncated | NotAuthentic | IoError

  datatype FrameResult = Frame(plaintext: seq<byte>) | Closed | Error(error: RecvError)

  /** One `read_encrypted_frame` on a wire that holds exactly `wire` before its end. */
  function NextFrame(c: Cipher, key: Key, counter: nat, wire: seq<byte>): (FrameResult, seq<byte>) {
    if |wire| < 2 then (Closed, [])
    else
      var len := FromU16(wire[..2]);
      if len < TAG_LEN then (Error(TooShort), wire[2..])
      else if |wire| < 2 + len then (Error(Truncated), [])
      else
        match c.decrypt(key, NonceBytes(counter), wire[2..2 + len])
        case None => (Error(NotAuthentic), wire[2 + len..])
        case Some(p) => (Frame(p), wire[2 + len..])
  }

  datatype Delivery = Delivery(frames: seq<seq<byte>>, ok: bool)

  /** Reading frames until the first end or error: `relay_encrypted_to_plain`. */
  function Receive(c: Cipher, key: Key, counter: nat, wire: seq<byte>): Delivery
    decreases |wire|
  {
    match NextFrame(c, key, counter, wire)
    case (Frame(p), rest) =>
      var d := Receive(c, key, counter + 1, rest);
      Delivery([p] + d.frames, d.ok)
    case (Closed, _) => Delivery([], true)
    case (Error(_), _) => Delivery([], false)
  }

  /** Receive, one frame at a time. */
  lemma ReceiveUnfold(c: Cipher, key: Key, counter: nat, wire: seq<byte>)
    ensures var (result, rest) := NextFrame(c, key, counter, wire);
      var d := Receive(c, key, counter, wire);
      && (result.Closed? ==> d == Delivery([], true))
      && (result.Error? ==> d == Delivery([], false))
      && (result.Frame? ==>
        var d' := Receive(c, key, counter + 1, rest);
        |rest| < |wire| && d == Delivery([result.plaintext] + d'.frames, d'.ok))
  {
    hide NonceBytes, FromU16;
  }

  // ---------------------------------------------------------------------------
  // Framing
  // ---------------------------------------------------------------------------

  /** On the wire the length stands most significant byte first, then the body. */
  lemma FramedLayout(body: seq<byte>)
    requires |body| < U16_SIZE
    ensures Framed(body) == [|body| / 256, |body| % 256] + body
  {
    assert ToU16(|body|) == [|body| / 256, |body| % 256];
  }

  /** The length prefix of a frame names its body, whatever follows. */
  lemma FramedHead(body: seq<byte>, tail: seq<byte>)
    requires |body| < U16_SIZE
    ensures var w := Framed(body) + tail;
      FromU16(w[..2]) == |body| && w[2..2 + |body|] == body && w[2 + |body|..] == tail
  {
    U16RoundTrip(|body|);
    var w := Framed(body) + tail;
    assert w[..2] == ToU16(|body|);
    assert w[2..2 + |body|] == body;
  }

  lemma {:induction false} FrameStreamAppend(c: Cipher, key: Key, counter: nat, ps: seq<seq<byte>>, qs: seq<seq<byte>>)
    ensures FrameStream(c, key, counter, ps + qs)
         == FrameStream(c, key, counter, ps) + FrameStream(c, key, counter + |ps|, qs)
    decreases |ps|
  {
    if ps == [] {
      assert ps + qs == qs;
    } else {
      assert (ps + qs)[1..] == ps[1..] + qs;
      FrameStreamAppend(c, key, counter + 1, ps[1..], qs);
    }
  }

  lemma FrameStreamSnoc(c: Cipher, key: Key, counter: nat, ps: seq<seq<byte>>, p: seq<byte>)
    ensures FrameStream(c, key, counter, ps + [p])
         == FrameStream(c, key, counter, ps) + SealedFrame(c, key, counter + |ps|, p)
  {
    FrameStreamAppend(c, key, counter, ps, [p]);
    assert FrameStream(c, key, counter + |ps|, [p]) == SealedFrame(c, key, counter + |ps|, p) + [];
  }

  lemma NextFrameOfFrame(c: Cipher, key: Key, counter: nat, p: seq<byte>, tail: seq<byte>)
    requires c.Correct() && |p| <= MAX_PLAINTEXT
    ensures NextFrame(c, key, counter, SealedFrame(c, key, counter, p) + tail) == (Frame(p), tail)
  {
    FramedHead(Seal(c, key, counter, p), tail);
  }

  // ---------------------------------------------------------------------------
  // An honest wire, cut at any byte
  // ---------------------------------------------------------------------------

  /** How many of the frames lie wholly within the first `n` bytes. */
  function WholeFrames(ps: seq<seq<byte>>, n: nat): (m: nat)
    ensures m <= |ps|
  {
    if ps == [] || n < 2 + |ps[0]| + TAG_LEN then 0
    else 1 + WholeFrames(ps[1..], n - (2 + |ps[0]| + TAG_LEN))
  }

  function WireLength(ps: seq<seq<byte>>): nat {
    if ps == [] then 0 else 2 + |ps[0]| + TAG_LEN + WireLength(ps[1..])
  }

  lemma {:induction false} FrameStreamLength(c: Cipher, key: Key, counter: nat, ps: seq<seq<byte>>)
    requires c.Correct()
    ensures |FrameStream(c, key, counter, ps)| == WireLength(ps)
    decreases |ps|
  {
    if ps != [] {
      FrameStreamLength(c, key, counter + 1, ps[1..]);
    }
  }

  /** WholeFrames is the number of frames that fit: they do, and the next one does not. */
  lemma {:induction false} WholeFramesMeaning(ps: seq<seq<byte>>, n: nat)
    ensures var m := WholeFrames(ps, n);
      WireLength(ps[..m]) <= n && (m < |ps| ==> n < WireLength(ps[..m + 1]))
  {
    if ps == [] || n < 2 + |ps[0]| + TAG_LEN {
      if ps != [] { assert ps[..1][1..] == []; }
    } else {
      var size := 2 + |ps[0]| + TAG_LEN;
      var m := WholeFrames(ps[1..], n - size);
      WholeFramesMeaning(ps[1..], n - size);
      assert ps[..m + 1][1..] == ps[1..][..m];
      if m < |ps[1..]| { assert ps[..m + 2][1..] == ps[1..][..m + 1]; }
    }
  }

  /** A wire that ends inside its first frame delivers nothing. */
  lemma CutInsideFrame(c: Cipher, key: Key, counter: nat, p: seq<byte>, tail: seq<byte>, n: nat)
    requires c.Correct() && |p| <= MAX_PLAINTEXT && n < 2 + |p| + TAG_LEN
    ensures |SealedFrame(c, key, counter, p)| == 2 + |p| + TAG_LEN
    ensures Receive(c, key, counter, (SealedFrame(c, key, counter, p) + tail)[..n]) == Delivery([], n <= 1)
  {
    var w := SealedFrame(c, key, counter, p) + tail;
    FramedHead(Seal(c, key, counter, p), tail);
    if n >= 2 { assert w[..n][..2] == w[..2]; }
  }

  lemma NoFrames(c: Cipher, key: Key, counter: nat)
    ensures Receive(c, key, counter, []) == Delivery([], true)
  {
  }

  lemma ReceiveFrame(c: Cipher, key: Key, counter: nat, p: seq<byte>, tail: seq<byte>)
    requires c.Correct() && |p| <= MAX_PLAINTEXT
    ensures var d := Receive(c, key, counter + 1, tail);
      Receive(c, key, counter, SealedFrame(c, key, counter, p) + tail) == Delivery([p] + d.frames, d.ok)
  {
    hide NextFrame, SealedFrame;
    NextFrameOfFrame(c, key, counter, p, tail);
  }

  /**
   An honest wire cut at any byte gives exactly the plaintexts of the whole
   frames; the end is clean exactly when at most one byte is left over.
   */
  lemma {:induction false} CutWire(c: Cipher, key: Key, counter: nat, ps: seq<seq<byte>>, n: nat)
    requires c.Correct() && AllFit(ps)
    requires n <= |FrameStream(c, key, counter, ps)|
    ensures var m := WholeFrames(ps, n);
      var d := Receive(c, key, counter, FrameStream(c, key, counter, ps)[..n]);
      d.frames == ps[..m] && (d.ok <==> n - WireLength(ps[..m]) <= 1)
    decreases |ps|
  {
    hide NonceBytes, ToU16, FromU16, Receive, SealedFrame;
    var w := FrameStream(c, key, counter, ps);
    if ps == [] {
      NoFrames(c, key, counter);
      assert w[..n] == [];
    } else {
      var f := SealedFrame(c, key, counter, ps[0]);
      var tail := FrameStream(c, key, counter + 1, ps[1..]);
      assert w == f + tail;
      CutInsideFrame(c, key, counter, ps[0], tail, 0);
      if n < |f| {
        CutInsideFrame(c, key, counter, ps[0], tail, n);
        assert WholeFrames(ps, n) == 0 && ps[..0] == [];
      } else {
        var m := WholeFrames(ps[1..], n - |f|);
        assert w[..n] == f + tail[..n - |f|];
        ReceiveFrame(c, key, counter, ps[0], tail[..n - |f|]);
        CutWire(c, key, counter + 1, ps[1..], n - |f|);
        assert ps[..m + 1] == [ps[0]] + ps[1..][..m];
        assert ps[..m + 1][1..] == ps[1..][..m];
      }
    }
  }

  /** The whole wire gives back every frame, and a clean end. */
  lemma ReceiveFrameStream(c: Cipher, key: Key, counter: nat, ps: seq<seq<byte>>)
    requires c.Correct() && AllFit(ps)
    ensures Receive(c, key, counter, FrameStream(c, key, counter, ps)) == Delivery(ps, true)
  {
    var w := FrameStream(c, key, counter, ps);
    FrameStreamLength(c, key, counter, ps);
    CutWire(c, key, counter, ps, |w|);
    WholeFramesMeaning(ps, |w|);
    assert w[..|w|] == w;
    var m := WholeFrames(ps, |w|);
    if m < |ps| {
      WireLengthMonotone(ps, m + 1);
      assert false;
    }
    assert ps[..m] == ps;
  }

  lemma {:induction false} WireLengthMonotone(ps: seq<seq<byte>>, m: nat)
    requires m <= |ps|
    ensures WireLength(ps[..m]) <= WireLength(ps)
  {
    if m > 0 {
      assert ps[..m][1..] == ps[1..][..m - 1];
      WireLengthMonotone(ps[1..], m - 1);
    }
  }

  // ---------------------------------------------------------------------------
  // A dishonest wire: frames replaced, dropped, repeated or reordered
  // ---------------------------------------------------------------------------

  function Bodies(items: seq<seq<byte>>): seq<byte> {
    if items == [] then [] else Framed(items[0]) + Bodies(items[1..])
  }

  /** Item j is the frame the sender made as its j-th. */
  predicate Genuine(c: Cipher, key: Key, counter: nat, ps: seq<seq<byte>>, items: seq<seq<byte>>, j: nat)
    requires j < |items|
  {
    j < |ps| && items[j] == Seal(c, key, counter + j, ps[j])
  }

  /** The position of the first item that is not the sender's own frame for that place. */
  function FirstWrong(c: Cipher, key: Key, counter: nat, ps: seq<seq<byte>>, items: seq<seq<byte>>): (m: nat)
    ensures m <= |items| && m <= |ps|
    ensures forall j :: 0 <= j < m ==> Genuine(c, key, counter, ps, items, j)
    ensures m < |items| ==> !Genuine(c, key, counter, ps, items, m)
    decreases |items|
  {
    if items == [] || !Genuine(c, key, counter, ps, items, 0) then 0
    else
      var m := FirstWrong(c, key, counter + 1, ps[1..], items[1..]);
      assert forall j :: 1 <= j < |items| ==>
        Genuine(c, key, counter, ps, items, j) == Genuine(c, key, counter + 1, ps[1..], items[1..], j - 1);
      1 + m
  }

  /** A whole body at the front of the wire: it opens and reception goes on, or it ends it. */
  lemma ReceiveBody(c: Cipher, key: Key, counter: nat, body: seq<byte>, tail: seq<byte>)
    requires |body| < U16_SIZE
    ensures Receive(c, key, counter, Framed(body) + tail) ==
      if |body| < TAG_LEN then Delivery([], false)
      else
        match c.decrypt(key, NonceBytes(counter), body)
        case None => Delivery([], false)
        case Some(p) => Delivery([p] + Receive(c, key, counter + 1, tail).frames, Receive(c, key, counter + 1, tail).ok)
  {
    hide NonceBytes, ToU16, FromU16;
    FramedHead(body, tail);
  }

  /** A receiver rejects the body: it is no sealed frame at all, or it does not open. */
  predicate Rejected(c: Cipher, key: Key, counter: nat, body: seq<byte>) {
    |body| < TAG_LEN || c.decrypt(key, NonceBytes(counter), body) == None
  }

  lemma GenuineTail(c: Cipher, key: Key, counter: nat, ps: seq<seq<byte>>, items: seq<seq<byte>>)
    requires items != [] && Genuine(c, key, counter, ps, items, 0)
    requires forall j :: 0 <= j < |items| ==> Genuine(c, key, counter, ps, items, j) || Rejected(c, key, counter + j, items[j])
    ensures forall j :: 0 <= j < |items[1..]| ==>
      Genuine(c, key, counter + 1, ps[1..], items[1..], j) || Rejected(c, key, counter + 1 + j, items[1..][j])
  {
    hide NonceBytes, Rejected;
    forall j | 0 <= j < |items[1..]|
      ensures Genuine(c, key, counter + 1, ps[1..], items[1..], j) || Rejected(c, key, counter + 1 + j, items[1..][j])
    {
      assert Genuine(c, key, counter, ps, items, j + 1) || Rejected(c, key, counter + (j + 1), items[j + 1]);
    }
  }

  /**
   A receiver accepts the sender's plaintexts up to the first frame that is out
   of place and stops there with an error; it ends cleanly only if every frame
   it saw was the right one. Frames out of place may be of any origin, as long
   as they do not open.
   */
  lemma {:induction false} TamperedWire(c: Cipher, key: Key, counter: nat, ps: seq<seq<byte>>, items: seq<seq<byte>>)
    requires c.Correct()
    requires forall j :: 0 <= j < |items| ==> |items[j]| < U16_SIZE
    requires forall j :: 0 <= j < |items| ==>
      Genuine(c, key, counter, ps, items, j) || Rejected(c, key, counter + j, items[j])
    ensures var m := FirstWrong(c, key, counter, ps, items);
      Receive(c, key, counter, Bodies(items)) == Delivery(ps[..m], m == |items|)
    decreases |items|
  {
    hide NonceBytes, ToU16, FromU16, Receive;
    if items == [] {
      NoFrames(c, key, counter);
    } else {
      ReceiveBody(c, key, counter, items[0], Bodies(items[1..]));
      if Genuine(c, key, counter, ps, items, 0) {
        GenuineTail(c, key, counter, ps, items);
        TamperedWire(c, key, counter + 1, ps[1..], items[1..]);
        var m := FirstWrong(c, key, counter + 1, ps[1..], items[1..]);
        assert ps[..m + 1] == [ps[0]] + ps[1..][..m];
      } else {
        assert Rejected(c, key, counter + 0, items[0]);
      }
    }
  }

  /** The whole framed bodies at the front of any byte string, whatever they hold. */
  function BodiesOnWire(wire: seq<byte>): seq<seq<byte>>
    decreases |wire|
  {
    if |wire| < 2 || |wire| < 2 + FromU16(wire[..2]) then []
    else
      var len := FromU16(wire[..2]);
      [wire[2..2 + len]] + BodiesOnWire(wire[2 + len..])
  }

  lemma FrontBody(wire: seq<byte>)
    ensures BodiesOnWire(wire) != [] ==>
      var body := BodiesOnWire(wire)[0];
      && |body| < U16_SIZE && 2 + |body| <= |wire|
      && wire == Framed(body) + wire[2 + |body|..]
      && BodiesOnWire(wire)[1..] == BodiesOnWire(wire[2 + |body|..])
  {
    hide ToU16, FromU16;
    if BodiesOnWire(wire) != [] {
      U16Inverse(wire[..2]);
      var len := FromU16(wire[..2]);
      assert wire == wire[..2] + wire[2..2 + len] + wire[2 + len..];
    }
  }

  /** A wire without a whole body delivers nothing. */
  lemma NoWholeBody(c: Cipher, key: Key, counter: nat, wire: seq<byte>)
    requires BodiesOnWire(wire) == []
    ensures Receive(c, key, counter, wire) == Delivery([], |wire| <= 1)
  {
    hide NonceBytes, FromU16;
  }

  lemma NoneWrong(c: Cipher, key: Key, counter: nat, ps: seq<seq<byte>>)
    ensures FrameStream(c, key, counter, ps[..0]) == []
  {
  }

  /**
   Any byte string, cut inside a frame or not: if each whole body on it is the
   sender's own for its place or does not open, then what is delivered is what
   was sent up to the first wrong body, its frames are the front of the wire,
   and the end is clean exactly when at most one byte stands behind them.
   */
  lemma {:induction false} AnyWire(c: Cipher, key: Key, counter: nat, ps: seq<seq<byte>>, wire: seq<byte>)
    requires c.Correct()
    requires var items := BodiesOnWire(wire);
      forall j :: 0 <= j < |items| ==> Genuine(c, key, counter, ps, items, j) || Rejected(c, key, counter + j, items[j])
    ensures var m := FirstWrong(c, key, counter, ps, BodiesOnWire(wire));
      var d, accepted := Receive(c, key, counter, wire), FrameStream(c, key, counter, ps[..m]);
      d.frames == ps[..m] && accepted <= wire && (d.ok <==> |wire| - |accepted| <= 1)
    decreases |wire|
  {
    hide NonceBytes, ToU16, FromU16, Receive, BodiesOnWire, Framed;
    var items := BodiesOnWire(wire);
    NoneWrong(c, key, counter, ps);
    if items == [] {
      NoWholeBody(c, key, counter, wire);
    } else {
      FrontBody(wire);
      var body := items[0];
      var rest := wire[2 + |body|..];
      ReceiveBody(c, key, counter, body, rest);
      if Genuine(c, key, counter, ps, items, 0) {
        GenuineTail(c, key, counter, ps, items);
        AnyWire(c, key, counter + 1, ps[1..], rest);
        var m := FirstWrong(c, key, counter + 1, ps[1..], items[1..]);
        assert ps[..m + 1] == [ps[0]] + ps[1..][..m];
        assert ps[..m + 1][1..] == ps[1..][..m];
      } else {
        assert Rejected(c, key, counter + 0, items[0]);
      }
    }
  }

  /**
   Every frame of the same session other than the one expected is rejected: a
   frame of the other direction, or of this one under another u64 counter.
   */
  lemma OtherSessionFrameRejected(c: Cipher, clientKey: Key, serverKey: Key, key: Key, counter: nat, key': Key, counter': nat, p: seq<byte>)
    requires c.Separates(clientKey, serverKey)
    requires key in [clientKey, serverKey] && key' in [clientKey, serverKey]
    requires key != key' || Wrap64(counter) != Wrap64(counter')
    ensures c.decrypt(key, NonceBytes(counter), Seal(c, key', counter', p)) == None
  {
    NonceInjective(counter, counter');
  }

  /** A frame that one of the two parties of a session has sealed. */
  datatype Made = Made(key: Key, counter: nat, plaintext: seq<byte>)

  /** The frame is one of the session, and of the direction under `key` only what its sender sealed: `ps`, in order. */
  predicate FromSession(clientKey: Key, serverKey: Key, key: Key, ps: seq<seq<byte>>, f: Made) {
    && f.key in [clientKey, serverKey] && f.counter < U64_SIZE && |f.plaintext| <= MAX_PLAINTEXT
    && (f.key == key ==> f.counter < |ps| && f.plaintext == ps[f.counter])
  }

  function BodiesOf(c: Cipher, made: seq<Made>): (items: seq<seq<byte>>)
    ensures |items| == |made|
  {
    seq(|made|, j requires 0 <= j < |made| => Seal(c, made[j].key, made[j].counter, made[j].plaintext))
  }

  /** The first place that does not hold the frame of this direction made for it. */
  function FirstMisplaced(key: Key, made: seq<Made>, place: nat): (m: nat)
    ensures m <= |made|
    ensures forall j :: 0 <= j < m ==> made[j].key == key && made[j].counter == place + j
    ensures m < |made| ==> made[m].key != key || made[m].counter != place + m
  {
    if made == [] || made[0].key != key || made[0].counter != place then 0
    else 1 + FirstMisplaced(key, made[1..], place + 1)
  }

  /** What a frame of the session does at a place: it is the right one exactly when direction and counter are. */
  lemma InPlaceOrRejected(c: Cipher, clientKey: Key, serverKey: Key, key: Key, ps: seq<seq<byte>>, made: seq<Made>, j: nat)
    requires c.Correct() && c.Separates(clientKey, serverKey) && key in [clientKey, serverKey]
    requires j < |made| && j < U64_SIZE && FromSession(clientKey, serverKey, key, ps, made[j])
    ensures var items := BodiesOf(c, made);
      && |items[j]| < U16_SIZE
      && (Genuine(c, key, 0, ps, items, j) <==> made[j].key == key && made[j].counter == j)
      && (Genuine(c, key, 0, ps, items, j) || Rejected(c, key, 0 + j, items[j]))
  {
    hide NonceBytes;
    var f := made[j];
    if f.key != key || f.counter != j {
      OtherSessionFrameRejected(c, clientKey, serverKey, key, j, f.key, f.counter, f.plaintext);
    }
  }

  /**
   Frames of a session dropped, repeated, reordered, sent back to where they
   came from: the receiver delivers what was sent up to the first frame out of
   place, and ends cleanly exactly when there is none.
   */
  lemma MixedSessionFrames(c: Cipher, clientKey: Key, serverKey: Key, key: Key, ps: seq<seq<byte>>, made: seq<Made>)
    requires c.Correct() && c.Separates(clientKey, serverKey) && key in [clientKey, serverKey]
    requires |made| <= U64_SIZE && forall j :: 0 <= j < |made| ==> FromSession(clientKey, serverKey, key, ps, made[j])
    ensures var m := FirstMisplaced(key, made, 0);
      m <= |ps| && Receive(c, key, 0, Bodies(BodiesOf(c, made))) == Delivery(ps[..m], m == |made|)
  {
    hide NonceBytes, Receive, Bodies, BodiesOf, Genuine, Rejected, FromSession, FirstWrong, FirstMisplaced;
    var items := BodiesOf(c, made);
    forall j | 0 <= j < |made|
      ensures |items[j]| < U16_SIZE
      ensures Genuine(c, key, 0, ps, items, j) <==> made[j].key == key && made[j].counter == j
      ensures Genuine(c, key, 0, ps, items, j) || Rejected(c, key, 0 + j, items[j])
    {
      InPlaceOrRejected(c, clientKey, serverKey, key, ps, made, j);
    }
    TamperedWire(c, key, 0, ps, items);
    var m, n := FirstWrong(c, key, 0, ps, items), FirstMisplaced(key, made, 0);
    assert m < |made| ==> !Genuine(c, key, 0, ps, items, m);
    assert n < |made| ==> !Genuine(c, key, 0, ps, items, n);
    assert m == n;
  }

  /** On a cut row of frames the whole bodies are the first ones. */
  lemma {:induction false} BodiesCut(items: seq<seq<byte>>, wire: seq<byte>)
    requires wire <= Bodies(items) && forall j :: 0 <= j < |items| ==> |items[j]| < U16_SIZE
    ensures BodiesOnWire(wire) <= items
    decreases |items|
  {
    hide ToU16, FromU16;
    if BodiesOnWire(wire) != [] {
      var tail := Bodies(items[1..]);
      var w := Framed(items[0]) + tail;
      FramedHead(items[0], tail);
      assert wire == w[..|wire|] && wire[..2] == w[..2];
      var len := |items[0]|;
      assert wire[2..2 + len] == w[2..2 + len] == items[0];
      assert wire[2 + len..] == tail[..|wire| - 2 - len];
      BodiesCut(items[1..], wire[2 + len..]);
      assert items == [items[0]] + items[1..];
    }
  }

  /** The same, with the wire cut at any byte. */
  lemma MixedAndCut(c: Cipher, clientKey: Key, serverKey: Key, key: Key, ps: seq<seq<byte>>, made: seq<Made>, wire: seq<byte>)
    requires c.Correct() && c.Separates(clientKey, serverKey) && key in [clientKey, serverKey]
    requires |made| <= U64_SIZE && forall j :: 0 <= j < |made| ==> FromSession(clientKey, serverKey, key, ps, made[j])
    requires wire <= Bodies(BodiesOf(c, made))
    ensures var whole := |BodiesOnWire(wire)|;
      && whole <= |made|
      && var m := FirstMisplaced(key, made[..whole], 0);
        && m <= |ps|
        && var d, accepted := Receive(c, key, 0, wire), FrameStream(c, key, 0, ps[..m]);
          d.frames == ps[..m] && accepted <= wire && (d.ok <==> |wire| - |accepted| <= 1)
  {
    hide NonceBytes, Receive, Bodies, BodiesOnWire, Rejected, FromSession, FirstWrong, FirstMisplaced, FrameStream;
    var all, items := BodiesOf(c, made), BodiesOnWire(wire);
    forall j | 0 <= j < |made|
      ensures |all[j]| < U16_SIZE
      ensures Genuine(c, key, 0, ps, all, j) <==> made[j].key == key && made[j].counter == j
      ensures Genuine(c, key, 0, ps, all, j) || Rejected(c, key, 0 + j, all[j])
    {
      InPlaceOrRejected(c, clientKey, serverKey, key, ps, made, j);
    }
    BodiesCut(all, wire);
    forall j | 0 <= j < |items|
      ensures Genuine(c, key, 0, ps, items, j) <==> made[j].key == key && made[j].counter == j
      ensures Genuine(c, key, 0, ps, items, j) || Rejected(c, key, 0 + j, items[j])
    {
      assert items[j] == all[j];
      assert Genuine(c, key, 0, ps, items, j) == Genuine(c, key, 0, ps, all, j);
    }
    AnyWire(c, key, 0, ps, wire);
    var m, n := FirstWrong(c, key, 0, ps, items), FirstMisplaced(key, made[..|items|], 0);
    assert m < |items| ==> !Genuine(c, key, 0, ps, items, m);
    assert n < |items| ==> !Genuine(c, key, 0, ps, items, n);
    assert m == n;
  }

  // ---------------------------------------------------------------------------
  // Chunking
  // ---------------------------------------------------------------------------

  /** What the relay's reads may look like: pieces of one up to RELAY_BUF bytes. */
  predicate RelayChunks(chunks: seq<seq<byte>>) {
    forall i :: 0 <= i < |chunks| ==> 1 <= |chunks[i]| <= RELAY_BUF
  }

  /** However the source is cut into reads, the receiver delivers the source. */
  lemma ChunkingIndependence(c: Cipher, key: Key, counter: nat, chunks: seq<seq<byte>>)
    requires c.Correct() && RelayChunks(chunks)
    ensures AllFit(chunks)
    ensures var d := Receive(c, key, counter, FrameStream(c, key, counter, chunks));
      d.ok && Flat(d.frames) == Flat(chunks)
  {
    ReceiveFrameStream(c, key, counter, chunks);
  }
}
