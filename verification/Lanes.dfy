/**
 One direction of a session: the sender's half, the network between, and the
 receiver's half, moved one byte at a time. Every partial read or write of the
 program is some number of such moves.
 */
module Lanes {
  import opened Bytes
  import opened Aead
  import opened Frames
  import opened EncryptedTunnels

  datatype Mode = Plain | Sealed

  datatype Sender = Sender(
    source: seq<byte>,               // bytes of the external stream not yet read
    read: seq<byte>,                 // bytes the relay has read from it
    hello: seq<byte>,                // handshake nonce sent, if any
    sent: seq<seq<byte>>,            // payload of every frame begun, oldest first
    spent: seq<(Key, seq<byte>)>,    // key and nonce of every encryption
    pending: seq<byte>,              // rest of the write in progress
    counter: u64)

  datatype Receiver = Receiver(
    heard: seq<byte>,                // handshake nonce received, if any
    partial: seq<byte>,              // bytes of the read in progress
    got: seq<seq<byte>>,             // payload of every frame accepted
    counter: u64,
    buffered: seq<byte>,             // payload not yet written to the external stream
    delivered: seq<byte>)            // payload written to it

  datatype Lane = Lane(tx: Sender, wire: seq<byte>, lost: seq<byte>, rx: Receiver)

  function EmptyLane(source: seq<byte>): Lane {
    Lane(Sender(source, [], [], [], [], [], 0), [], [], Receiver([], [], [], 0, [], []))
  }

  // ---------------------------------------------------------------------------
  // Moves
  // ---------------------------------------------------------------------------

  /** The handshake nonce is handed to the stream. */
  function StartHello(l: Lane, hello: seq<byte>): Lane {
    l.(tx := l.tx.(hello := hello, pending := hello))
  }

  function FrameBytes(mode: Mode, c: Cipher, key: Key, counter: nat, p: seq<byte>): seq<byte> {
    if mode.Sealed? then SealedFrame(c, key, counter, p) else Framed(p)
  }

  /** send_frame up to its first write. */
  function StartFrame(mode: Mode, c: Cipher, key: Key, l: Lane, p: seq<byte>): Lane {
    l.(tx := l.tx.(
      sent := l.tx.sent + [p],
      spent := if mode.Sealed? then l.tx.spent + [(key, NonceBytes(l.tx.counter))] else l.tx.spent,
      pending := FrameBytes(mode, c, key, l.tx.counter, p)))
  }

  /** The relay reads a chunk of the external stream and starts to write it. */
  function FetchChunk(mode: Mode, c: Cipher, key: Key, l: Lane, k: nat): Lane
    requires k <= |l.tx.source|
  {
    var chunk := l.tx.source[..k];
    var l' := l.(tx := l.tx.(source := l.tx.source[k..], read := l.tx.read + chunk));
    if mode.Sealed? then StartFrame(mode, c, key, l', chunk) else l'.(tx := l'.tx.(pending := chunk))
  }

  /** One byte goes out; the counter advances behind the last byte of a frame. */
  function EmitByte(mode: Mode, l: Lane): Lane
    requires l.tx.pending != []
  {
    var rest := l.tx.pending[1..];
    var done := mode.Sealed? && rest == [] && l.tx.sent != [];
    l.(tx := l.tx.(pending := rest, counter := if done then Wrap64(l.tx.counter + 1) else l.tx.counter),
       wire := l.wire + [l.tx.pending[0]])
  }

  /** One byte comes in. */
  function TakeByte(l: Lane): Lane
    requires l.wire != []
  {
    l.(wire := l.wire[1..], rx := l.rx.(partial := l.rx.partial + [l.wire[0]]))
  }

  /** A raw byte goes straight to the output buffer. */
  function TakeRawByte(l: Lane): Lane
    requires l.wire != []
  {
    l.(wire := l.wire[1..], rx := l.rx.(buffered := l.rx.buffered + [l.wire[0]]))
  }

  function Hear(l: Lane): Lane {
    l.(rx := l.rx.(heard := l.rx.partial, partial := []))
  }

  /** A frame was read and opened; a relayed one is handed to the external stream. */
  function AcceptFrame(mode: Mode, l: Lane, p: seq<byte>, relayed: bool): Lane {
    l.(rx := l.rx.(
      partial := [],
      got := l.rx.got + [p],
      counter := if mode.Sealed? then Wrap64(l.rx.counter + 1) else l.rx.counter,
      buffered := if relayed then p else l.rx.buffered))
  }

  function DeliverByte(l: Lane): Lane
    requires l.rx.buffered != []
  {
    l.(rx := l.rx.(buffered := l.rx.buffered[1..], delivered := l.rx.delivered + [l.rx.buffered[0]]))
  }

  /** The network drops everything behind the first `n` bytes. */
  function CutWireAt(l: Lane, n: nat): Lane
    requires n <= |l.wire|
  {
    l.(wire := l.wire[..n], lost := l.wire[n..] + l.lost)
  }

  /** What the bytes of the read in progress amount to. */
  datatype Inspection = NeedMore | TooSmall | Whole(body: seq<byte>)

  function Inspect(mode: Mode, partial: seq<byte>): Inspection {
    if |partial| < 2 then NeedMore
    else
      var len := FromU16(partial[..2]);
      if mode.Sealed? && len < TAG_LEN then TooSmall
      else if |partial| < 2 + len then NeedMore
      else Whole(partial[2..])
  }

  function OpenBody(mode: Mode, c: Cipher, key: Key, counter: nat, body: seq<byte>): Option<seq<byte>> {
    if mode.Plain? then Some(body) else c.decrypt(key, NonceBytes(counter), body)
  }

  // ---------------------------------------------------------------------------
  // The invariant of a lane
  // ---------------------------------------------------------------------------

  /** The bytes that went through the relay: every frame but the first of a session. */
  function Payload(frames: seq<seq<byte>>): seq<byte> {
    if frames == [] then [] else Flat(frames[1..])
  }

  /** Frames handed over whole. */
  function Completed(tx: Sender): nat {
    if tx.sent == [] || tx.pending == [] then |tx.sent| else |tx.sent| - 1
  }

  /** Everything the receiver has not consumed, on its way or not. */
  function InFlight(l: Lane): seq<byte> {
    l.rx.partial + (l.wire + (l.lost + l.tx.pending))
  }

  /** What those bytes must be: the handshake nonce unless heard, then the frames not yet accepted. */
  function Expected(c: Cipher, key: Key, l: Lane): seq<byte>
    requires |l.rx.got| <= |l.tx.sent|
  {
    (if l.rx.heard == [] then l.tx.hello else []) + FrameStream(c, key, |l.rx.got|, l.tx.sent[|l.rx.got|..])
  }

  ghost predicate SenderOk(key: Key, hello: seq<byte>, tx: Sender) {
    && (tx.hello == hello || (tx.hello == [] && tx.sent == [] && tx.pending == []))
    && AllFit(tx.sent)
    && tx.read == Payload(tx.sent)
    && tx.spent == NonceLog(key, |tx.sent|)
    && tx.counter == Wrap64(Completed(tx))
    && (tx.sent != [] ==> |tx.pending| <= 2 + |tx.sent[|tx.sent| - 1]| + TAG_LEN)
  }

  ghost predicate ReceiverOk(rx: Receiver) {
    && (rx.heard == [] ==> rx.got == [])
    && rx.delivered + rx.buffered == Payload(rx.got)
    && rx.counter == Wrap64(|rx.got|)
  }

  /** The read in progress has not reached the end of what it waits for. */
  predicate PartialOk(l: Lane)
    requires |l.rx.got| <= |l.tx.sent|
  {
    if l.rx.heard == [] then |l.rx.partial| < KEY_LEN
    else |l.rx.got| < |l.tx.sent| ==> |l.rx.partial| < 2 + |l.tx.sent[|l.rx.got|]| + TAG_LEN
  }

  ghost predicate LinkOk(c: Cipher, key: Key, l: Lane) {
    && (l.rx.heard == [] || l.rx.heard == l.tx.hello)
    && |l.rx.got| <= |l.tx.sent| && l.rx.got == l.tx.sent[..|l.rx.got|]
    && InFlight(l) == Expected(c, key, l)
  }

  ghost predicate SealedLane(c: Cipher, key: Key, hello: seq<byte>, l: Lane) {
    |hello| == KEY_LEN && SenderOk(key, hello, l.tx) && ReceiverOk(l.rx) && LinkOk(c, key, l) && PartialOk(l)
  }

  /** Without encryption: one framed message, then raw bytes. */
  ghost predicate PlainLane(l: Lane) {
    && l.tx.hello == l.rx.heard == [] && l.tx.spent == []
    && |l.tx.sent| <= 1 && AllFit(l.tx.sent)
    && |l.rx.got| <= |l.tx.sent| && l.rx.got == l.tx.sent[..|l.rx.got|]
    && (l.tx.sent == [] ==> l.tx.read == [])
    && (l.rx.got == [] ==> l.rx.delivered == [] && l.rx.buffered == [])
    && (l.rx.got != [] ==> l.rx.partial == [])
    && (l.rx.got == [] && l.tx.sent != [] ==> |l.rx.partial| < 2 + |l.tx.sent[0]|)
    && l.rx.delivered + (l.rx.buffered + InFlight(l))
       == (if l.tx.sent != [] && l.rx.got == [] then Framed(l.tx.sent[0]) else []) + l.tx.read
  }
}
