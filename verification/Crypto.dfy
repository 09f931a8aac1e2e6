/** The handshake, the frame reader and writer, and the two relay loops of the encrypted tunnel. */
module Crypto {
  import opened Bytes
  import opened Streams
  import opened Aead
  import opened Frames

  lemma TakeOfSum(a: seq<byte>, b: seq<byte>, n: nat)
    requires n <= |a| + |b|
    ensures (a + b)[..n] == if n <= |a| then a[..n] else a + b[..n - |a|]
    ensures n == |a| ==> a[..n] == a
  {
  }

  datatype SendStatus = Sent | TooLarge | WriteFailed

  datatype RelayEnd = Finished | Broken(error: RecvError) | Interrupted

  /**
   `rand::rng().fill_bytes` is the parameter `random`. Each side sends its own
   32 bytes, reads the peer's, and derives both keys from the client's nonce
   followed by the server's.
   */
  method SecureHandshake(stream: TcpStream, kdf: Kdf, psk: Key, isClient: bool, random: seq<byte>)
    returns (keys: Option<SessionKeys>)
    requires KdfYields64(kdf) && |random| == KEY_LEN
    modifies stream
    ensures keys.Some? ==> KEY_LEN <= |old(stream.unread)|
    ensures keys.Some? ==> stream.unread == old(stream.unread)[KEY_LEN..] && stream.written == old(stream.written) + random
    ensures keys.Some? ==>
      var peer := old(stream.unread)[..KEY_LEN];
      var okm := kdf(psk, HKDF_INFO + (if isClient then random else peer) + (if isClient then peer else random));
      keys.value.client + keys.value.server == okm && |keys.value.client| == |keys.value.server| == KEY_LEN
    ensures exists i :: 0 <= i <= KEY_LEN && stream.written == old(stream.written) + random[..i]
    ensures isClient && stream.unread != old(stream.unread) ==> stream.written == old(stream.written) + random
    ensures !isClient && |old(stream.unread)| < KEY_LEN ==> stream.written == old(stream.written)
    ensures keys.None? ==> stream.faults > old(stream.faults) || |old(stream.unread)| < KEY_LEN
    ensures keys.Some? ==> stream.faults == old(stream.faults)
  {
    var peerNonce := new byte[KEY_LEN];
    var status: IoStatus;
    ghost var sent := 0;
    assert random[..0] == [] && random[..KEY_LEN] == random;
    if isClient {
      status, sent := stream.WriteAll(random);
      if status != Done { return None; }
      status := stream.ReadExact(peerNonce, KEY_LEN);
      if status != Done { return None; }
    } else {
      status := stream.ReadExact(peerNonce, KEY_LEN);
      if status != Done { return None; }
      status, sent := stream.WriteAll(random);
      if status != Done { return None; }
    }
    assert peerNonce[..KEY_LEN] == peerNonce[..];
    KeysAreHalves(kdf, psk, if isClient then random else peerNonce[..], if isClient then peerNonce[..] else random);
    if isClient {
      return Some(DeriveSessionKeys(kdf, psk, random, peerNonce[..]));
    } else {
      return Some(DeriveSessionKeys(kdf, psk, peerNonce[..], random));
    }
  }

  /** The counter advances only when both writes succeeded; `spent` is the key and nonce of every call of encrypt. */
  method WriteEncryptedFrame(c: Cipher, writer: TcpStream, plaintext: seq<byte>, key: Key, nonce: u64, droppable: bool := false)
    returns (status: SendStatus, next: u64, ghost sent: nat, ghost spent: seq<(Key, seq<byte>)>)
    requires c.Correct()
    modifies writer`written, writer`faults
    ensures status == TooLarge <==> |plaintext| > MAX_PLAINTEXT
    ensures sent <= |SealedFrame(c, key, nonce, plaintext)|
    ensures writer.written == old(writer.written) + SealedFrame(c, key, nonce, plaintext)[..sent]
    ensures status == Sent <==> sent == |SealedFrame(c, key, nonce, plaintext)|
    ensures status == TooLarge ==> sent == 0
    ensures status == Sent ==>
      var body := c.encrypt(key, NonceBytes(nonce), plaintext);
      writer.written == old(writer.written) + ([|body| / 256, |body| % 256] + body)
    ensures next == if status == Sent then Wrap64(nonce + 1) else nonce
    ensures writer.faults >= old(writer.faults) && (status != WriteFailed ==> writer.faults == old(writer.faults))
    ensures status == WriteFailed ==> droppable || writer.faults > old(writer.faults)
    ensures spent == if status == TooLarge then [] else [(key, NonceBytes(nonce))]
  {
    hide NonceBytes, ToU16, Wrap64;
    spent := [];
    if |plaintext| > MAX_PLAINTEXT {
      return TooLarge, nonce, 0, spent;
    }
    var ciphertext := c.encrypt(key, NonceBytes(nonce), plaintext);
    spent := spent + [(key, NonceBytes(nonce))];
    assert |ciphertext| == |plaintext| + TAG_LEN;
    var prefix := ToU16(|ciphertext| % 0x1_0000);
    ghost var body: nat;
    var io: IoStatus;
    io, sent := writer.WriteAll(prefix, droppable);
    TakeOfSum(prefix, ciphertext, sent);
    if io != Done {
      return WriteFailed, nonce, sent, spent;
    }
    io, body := writer.WriteAll(ciphertext, droppable);
    sent := 2 + body;
    TakeOfSum(prefix, ciphertext, sent);
    if io != Done {
      return WriteFailed, nonce, sent, spent;
    }
    TwoBytes(|ciphertext|);
    assert writer.written == old(writer.written) + (prefix + ciphertext);
    return Sent, Wrap64(nonce + 1), sent, spent;
  }

  /** A length below 2^16 goes out most significant byte first. */
  lemma TwoBytes(n: nat)
    requires n < U16_SIZE
    ensures n % 0x1_0000 == n && ToU16(n) == [n / 256, n % 256]
  {
    assert n / 256 < 256 && (n / 256) % 256 == n / 256;
  }

  /** On a working connection this is NextFrame; the counter advances with every accepted frame. */
  method ReadEncryptedFrame(c: Cipher, reader: TcpStream, key: Key, nonce: u64, droppable: bool := false)
    returns (result: FrameResult, next: u64)
    modifies reader`unread, reader`faults
    ensures result != Error(IoError) ==> (result, reader.unread) == NextFrame(c, key, nonce, old(reader.unread))
    ensures |reader.unread| <= |old(reader.unread)|
    ensures next == if result.Frame? then Wrap64(nonce + 1) else nonce
    ensures reader.faults >= old(reader.faults) && (result != Error(IoError) ==> reader.faults == old(reader.faults))
    ensures result == Error(IoError) ==> droppable || reader.faults > old(reader.faults)
  {
    ghost var wire := reader.unread;
    var lenBuf := new byte[2];
    var io := reader.ReadExact(lenBuf, 2, droppable);
    if io == Eof {
      return Closed, nonce;
    }
    if io == Failed {
      return Error(IoError), nonce;
    }
    assert lenBuf[..] == lenBuf[..2] == wire[..2];
    var frameLen := FromU16(lenBuf[..]);
    if frameLen < TAG_LEN {
      return Error(TooShort), nonce;
    }
    var ciphertext := new byte[frameLen];
    io := reader.ReadExact(ciphertext, frameLen, droppable);
    if io == Eof {
      return Error(Truncated), nonce;
    }
    if io == Failed {
      return Error(IoError), nonce;
    }
    assert ciphertext[..] == ciphertext[..frameLen] == wire[2..2 + frameLen];
    assert reader.unread == wire[2 + frameLen..];
    var plaintext := c.decrypt(key, NonceBytes(nonce), ciphertext[..]);
    if plaintext.None? {
      return Error(NotAuthentic), nonce;
    }
    return Frame(plaintext.value), Wrap64(nonce + 1);
  }

  /**
   What the outgoing loop has done: it read `chunks` and wrote their frames, all
   of them, or all but the last of which only a part went out. The counter has
   advanced once for every frame written whole.
   */
  ghost predicate SealedUpTo(c: Cipher, key: Key, nonce: u64, chunks: seq<seq<byte>>, output: seq<byte>, next: u64) {
    || (output == FrameStream(c, key, nonce, chunks) && next == WrappedSum(nonce, |chunks|))
    || (&& chunks != []
        && (var before, last := chunks[..|chunks| - 1], chunks[|chunks| - 1];
            && next == WrappedSum(nonce, |before|)
            && exists part: nat :: part < |SealedFrame(c, key, next, last)|
                && output == FrameStream(c, key, nonce, before) + SealedFrame(c, key, next, last)[..part]))
  }

  /** `n` encryptions under one key, with consecutive counters from `nonce` on. */
  function NonceRun(key: Key, nonce: nat, n: nat): seq<(Key, seq<byte>)> {
    seq(n, i requires 0 <= i < n => (key, NonceBytes(nonce + i)))
  }

  lemma NonceRunGrows(key: Key, nonce: u64, n: nat)
    ensures NonceRun(key, nonce, 0) == []
    ensures NonceRun(key, nonce, n + 1) == NonceRun(key, nonce, n) + [(key, NonceBytes(WrappedSum(nonce, n)))]
  {
    hide NonceBytes, Wrap64;
    NonceWraps(nonce + n);
  }

  /** Nothing read, nothing written. */
  lemma SealedNothing(c: Cipher, key: Key, nonce: u64)
    ensures SealedUpTo(c, key, nonce, [], [], nonce) && FrameStream(c, key, nonce, []) == []
    ensures RelayChunks([]) && Flat<byte>([]) == [] && WrappedSum(nonce, 0) == nonce && RELAY_BUF > 0
  {
  }

  /** One more chunk, of whose frame `part` bytes went out. */
  lemma SealedOneMore(c: Cipher, key: Key, nonce: u64, before: seq<seq<byte>>, p: seq<byte>, part: nat)
    requires RelayChunks(before) && 1 <= |p| <= RELAY_BUF
    requires part <= |SealedFrame(c, key, WrappedSum(nonce, |before|), p)|
    ensures RelayChunks(before + [p]) && Flat(before + [p]) == Flat(before) + p
    ensures var next, chunks := WrappedSum(nonce, |before|), before + [p];
      var frame, done := SealedFrame(c, key, next, p), FrameStream(c, key, nonce, before);
      && (part < |frame| ==> SealedUpTo(c, key, nonce, chunks, done + frame[..part], next))
      && (part == |frame| ==>
          && done + frame[..part] == FrameStream(c, key, nonce, chunks)
          && WrappedSum(nonce, |chunks|) == Wrap64(next + 1))
  {
    hide NonceBytes, Wrap64, Flat, ToU16, FrameStream;
    var next, chunks := WrappedSum(nonce, |before|), before + [p];
    var frame := SealedFrame(c, key, next, p);
    assert chunks[..|chunks| - 1] == before && chunks[|chunks| - 1] == p;
    FlatSnoc(before, p);
    NonceWraps(nonce + |before|);
    Wrap64Add(nonce + |before|, 1);
    FrameStreamSnoc(c, key, nonce, before, p);
    if part == |frame| { assert frame[..part] == frame; }
  }

  /**
   External to tunnel. `chunks` are the reads in order, `spent` the key and nonce
   of every encryption, one for each chunk. The size limit is never met, and the
   loop is interrupted only by an I/O error or, where it is droppable, by
   `select!` dropping it at an await.
   */
  method RelayPlainToEncrypted(c: Cipher, reader: TcpStream, writer: TcpStream, key: Key, nonce: u64, droppable: bool := false)
    returns (end: RelayEnd, next: u64, ghost chunks: seq<seq<byte>>, ghost output: seq<byte>, ghost spent: seq<(Key, seq<byte>)>)
    requires c.Correct() && reader != writer
    modifies reader`unread, reader`faults, writer`written, writer`faults
    ensures RelayChunks(chunks) && old(reader.unread) == Flat(chunks) + reader.unread
    ensures writer.written == old(writer.written) + output
    ensures SealedUpTo(c, key, nonce, chunks, output, next)
    ensures spent == NonceRun(key, nonce, |chunks|)
    ensures end in {Finished, Interrupted}
    ensures end == Finished ==> reader.unread == [] && output == FrameStream(c, key, nonce, chunks)
    ensures reader.faults >= old(reader.faults) && writer.faults >= old(writer.faults)
    ensures end == Interrupted ==> droppable || reader.faults > old(reader.faults) || writer.faults > old(writer.faults)
  {
    hide *;
    next, chunks, output, spent, end := nonce, [], [], [], Interrupted;
    SealedNothing(c, key, nonce);
    NonceRunGrows(key, nonce, 0);
    var done := false;
    while !done
      invariant end in {Finished, Interrupted}
      invariant RelayChunks(chunks) && old(reader.unread) == Flat(chunks) + reader.unread
      invariant writer.written == old(writer.written) + output
      invariant SealedUpTo(c, key, nonce, chunks, output, next)
      invariant spent == NonceRun(key, nonce, |chunks|)
      invariant !done ==> output == FrameStream(c, key, nonce, chunks) && next == WrappedSum(nonce, |chunks|)
      invariant end == Finished ==> reader.unread == [] && output == FrameStream(c, key, nonce, chunks)
      invariant !done ==> end == Interrupted
      invariant reader.faults >= old(reader.faults) && writer.faults >= old(writer.faults)
      invariant done && end == Interrupted ==>
        droppable || reader.faults > old(reader.faults) || writer.faults > old(writer.faults)
      decreases !done, |reader.unread|
    {
      var piece := reader.Read(RELAY_BUF, droppable);
      if piece.None? {
        done := true;
      } else if piece.value == [] {
        end, done := Finished, true;
      } else {
        var status, after, part, used := WriteEncryptedFrame(c, writer, piece.value, key, next, droppable);
        NonceRunGrows(key, nonce, |chunks|);
        ChunkFits(piece.value);
        spent := spent + used;
        SealedOneMore(c, key, nonce, chunks, piece.value, part);
        SealedWhole(c, key, nonce, chunks + [piece.value]);
        output := output + SealedFrame(c, key, next, piece.value)[..part];
        chunks := chunks + [piece.value];
        next := after;
        done := status != Sent;
      }
    }
  }

  /** What one read of the relay yields is never too large for a frame. */
  lemma ChunkFits(p: seq<byte>)
    requires |p| <= RELAY_BUF
    ensures |p| <= MAX_PLAINTEXT
  {
  }

  lemma SealedWhole(c: Cipher, key: Key, nonce: u64, chunks: seq<seq<byte>>)
    ensures SealedUpTo(c, key, nonce, chunks, FrameStream(c, key, nonce, chunks), WrappedSum(nonce, |chunks|))
  {
  }

  /**
   Tunnel to external. Without interruption the output is exactly what Receive
   makes of the wire; interrupted anywhere, it is a prefix of that.
   */
  method RelayEncryptedToPlain(c: Cipher, reader: TcpStream, writer: TcpStream, key: Key, nonce: u64, droppable: bool := false)
    returns (end: RelayEnd, next: u64, ghost delivered: seq<byte>)
    requires reader != writer
    modifies reader`unread, reader`faults, writer`written, writer`faults
    ensures writer.written == old(writer.written) + delivered
    ensures DeliveredUpTo(Receive(c, key, nonce, old(reader.unread)), delivered, end)
    ensures reader.faults >= old(reader.faults) && writer.faults >= old(writer.faults)
    ensures end == Interrupted ==> droppable || reader.faults > old(reader.faults) || writer.faults > old(writer.faults)
  {
    hide *;
    ghost var all := Receive(c, key, nonce, reader.unread);
    ghost var got: seq<seq<byte>> := [];
    next, delivered := nonce, [];
    var done := false;
    end := Interrupted;
    NothingYet(nonce, all);
    while !done
      invariant writer.written == old(writer.written) + delivered && (!done ==> end == Interrupted)
      invariant !done ==> next == WrappedSum(nonce, |got|) && delivered == Flat(got)
      invariant !done ==> StillToCome(all, got, Receive(c, key, nonce + |got|, reader.unread))
      invariant done ==> DeliveredUpTo(all, delivered, end)
      invariant reader.faults >= old(reader.faults) && writer.faults >= old(writer.faults)
      invariant done && end == Interrupted ==>
        droppable || reader.faults > old(reader.faults) || writer.faults > old(writer.faults)
      decreases !done, |reader.unread|
    {
      ghost var wire := reader.unread;
      var result: FrameResult;
      result, next := ReadEncryptedFrame(c, reader, key, next, droppable);
      ReceiveStep(c, key, nonce, all, got, wire, result, reader.unread);
      match result {
        case Closed =>
          end, done := Finished, true;
        case Error(e) =>
          end, done := if e == IoError then Interrupted else Broken(e), true;
        case Frame(plain) =>
          var io, part := writer.WriteAll(plain, droppable);
          PartDelivered(all, got, plain, Receive(c, key, nonce + |got| + 1, reader.unread), part);
          delivered := delivered + plain[..part];
          got := got + [plain];
          done := io != Done;
      }
    }
  }

  /** Everything the wire decodes to, with its ending; a prefix of it when interrupted. */
  ghost predicate DeliveredUpTo(all: Delivery, delivered: seq<byte>, end: RelayEnd) {
    match end
    case Interrupted => delivered <= Flat(all.frames)
    case Finished => delivered == Flat(all.frames) && all.ok
    case Broken(_) => delivered == Flat(all.frames) && !all.ok
  }

  function WrappedSum(nonce: u64, n: nat): u64 {
    Wrap64(nonce + n)
  }

  /** `got` are the frames already accepted of `all`, and `rest` is what the wire still gives. */
  predicate StillToCome(all: Delivery, got: seq<seq<byte>>, rest: Delivery) {
    all.frames == got + rest.frames && all.ok == rest.ok
  }

  lemma NothingYet(nonce: u64, all: Delivery)
    ensures StillToCome(all, [], all) && Flat<byte>([]) == [] && WrappedSum(nonce, 0) == nonce
  {
  }

  lemma StillToComeFlat(all: Delivery, got: seq<seq<byte>>, rest: Delivery)
    requires StillToCome(all, got, rest)
    ensures Flat(all.frames) == Flat(got) + Flat(rest.frames)
    ensures rest.frames == [] ==> Flat(all.frames) == Flat(got)
  {
    FlatAppend(got, rest.frames);
  }

  lemma StillToComeStep(all: Delivery, got: seq<seq<byte>>, plain: seq<byte>, rest: Delivery)
    requires StillToCome(all, got, Delivery([plain] + rest.frames, rest.ok))
    ensures StillToCome(all, got + [plain], rest)
    ensures Flat(got + [plain]) == Flat(got) + plain
  {
    FlatSnoc(got, plain);
    assert all.frames == got + [plain] + rest.frames;
    FlatAppend(got + [plain], rest.frames);
  }

  lemma PartDelivered(all: Delivery, got: seq<seq<byte>>, plain: seq<byte>, rest: Delivery, part: nat)
    requires StillToCome(all, got + [plain], rest) && part <= |plain|
    ensures DeliveredUpTo(all, Flat(got) + plain[..part], Interrupted)
    ensures part == |plain| ==> plain[..part] == plain
  {
    FlatSnoc(got, plain);
    StillToComeFlat(all, got + [plain], rest);
  }

  /** What one more result of the frame reader says about the whole delivery. */
  lemma ReceiveStep(c: Cipher, key: Key, nonce: u64, all: Delivery, got: seq<seq<byte>>, wire: seq<byte>, result: FrameResult, rest: seq<byte>)
    requires StillToCome(all, got, Receive(c, key, nonce + |got|, wire))
    requires result != Error(IoError) ==> (result, rest) == NextFrame(c, key, WrappedSum(nonce, |got|), wire)
    ensures result.Error? && result.error == IoError ==> DeliveredUpTo(all, Flat(got), Interrupted)
    ensures result.Error? && result.error != IoError ==> DeliveredUpTo(all, Flat(got), Broken(result.error))
    ensures result.Closed? ==> DeliveredUpTo(all, Flat(got), Finished)
    ensures result.Frame? ==>
      var p := result.plaintext;
      && StillToCome(all, got + [p], Receive(c, key, nonce + |got| + 1, rest))
      && WrappedSum(nonce, |got| + 1) == Wrap64(WrappedSum(nonce, |got|) + 1)
      && Flat(got + [p]) == Flat(got) + p
      && |rest| < |wire|
  {
    hide NextFrame, Receive, Wrap64, Flat;
    NextFrameModulo(c, key, nonce + |got|, wire);
    ReceiveUnfold(c, key, nonce + |got|, wire);
    StillToComeFlat(all, got, Receive(c, key, nonce + |got|, wire));
    if result.Frame? {
      StillToComeStep(all, got, result.plaintext, Receive(c, key, nonce + |got| + 1, rest));
      Wrap64Add(nonce + |got|, 1);
    }
  }

  lemma NextFrameModulo(c: Cipher, key: Key, counter: nat, wire: seq<byte>)
    ensures NextFrame(c, key, Wrap64(counter), wire) == NextFrame(c, key, counter, wire)
  {
    hide NonceBytes, ToU16, FromU16;
    NonceWraps(counter);
  }
}
