/** The encrypted tunnel object: which key and counter each role uses, and every nonce it ever spends. */
module EncryptedTunnels {
  import opened Bytes
  import opened Streams
  import opened Aead
  import opened Frames
  import opened Crypto

  /** The first `n` encryptions under `key`, each with the next counter. */
  function NonceLog(key: Key, n: nat): seq<(Key, seq<byte>)> {
    seq(n, i requires 0 <= i < n => (key, NonceBytes(i)))
  }

  ghost predicate Distinct<T(!new)>(log: seq<T>) {
    forall i, j :: 0 <= i < j < |log| ==> log[i] != log[j]
  }

  class EncryptedTunnel {
    const cipher: Cipher
    const clientKey: Key
    const serverKey: Key
    const isClient: bool
    var stream: TcpStream?
    var cNonce: u64
    var sNonce: u64
    ghost var log: seq<(Key, seq<byte>)>  // key and nonce of every call of encrypt so far
    ghost var cut: bool                   // the last frame was not written whole

    ghost function SendKey(): Key { if isClient then clientKey else serverKey }
    ghost function RecvKey(): Key { if isClient then serverKey else clientKey }
    ghost function SendNonce(): u64 reads this { if isClient then cNonce else sNonce }
    ghost function RecvNonce(): u64 reads this { if isClient then sNonce else cNonce }

    /** No nonce was skipped or spent twice, and the send counter says how many were spent. */
    ghost predicate Valid() reads this {
      && cipher.Correct()
      && (cut ==> log != [])
      && log == NonceLog(SendKey(), |log|)
      && SendNonce() == Wrap64(|log| - if cut then 1 else 0)
    }

    constructor (cipher: Cipher, stream: TcpStream, keys: SessionKeys, isClient: bool)
      requires cipher.Correct()
      ensures Valid() && this.stream == stream && this.isClient == isClient && log == [] && !cut
      ensures this.cipher == cipher && clientKey == keys.client && serverKey == keys.server && cNonce == 0 && sNonce == 0
    {
      this.cipher, this.stream, this.isClient := cipher, stream, isClient;
      clientKey, serverKey := keys.client, keys.server;
      cNonce, sNonce := 0, 0;
      log, cut := [], false;
    }

    /** `EncryptedTunnel::new`: the handshake on the stream, then both counters at 0. */
    static method New(cipher: Cipher, kdf: Kdf, psk: Key, stream: TcpStream, isClient: bool, random: seq<byte>)
      returns (t: EncryptedTunnel?)
      requires cipher.Correct() && KdfYields64(kdf) && |random| == KEY_LEN
      modifies stream
      ensures t == null ==> stream.faults > old(stream.faults) || |old(stream.unread)| < KEY_LEN
      ensures t != null ==> fresh(t) && t.Valid() && t.stream == stream && t.isClient == isClient
      ensures t != null ==> t.log == [] && !t.cut && t.cNonce == t.sNonce == 0
      ensures t != null ==> KEY_LEN <= |old(stream.unread)|
      ensures t != null ==>
        var peer := old(stream.unread)[..KEY_LEN];
        var okm := kdf(psk, HKDF_INFO + (if isClient then random else peer) + (if isClient then peer else random));
        && t.cipher == cipher && t.clientKey + t.serverKey == okm && |t.clientKey| == |t.serverKey| == KEY_LEN
        && stream.unread == old(stream.unread)[KEY_LEN..] && stream.written == old(stream.written) + random
    {
      var keys := SecureHandshake(stream, kdf, psk, isClient, random);
      if keys.None? { return null; }
      t := new EncryptedTunnel(cipher, stream, keys.value, isClient);
    }

    /** A caller that saw a send fail must not send again: that is `!cut`. */
    method SendFrame(data: seq<byte>) returns (status: SendStatus)
      requires Valid() && stream != null && !cut
      modifies this`cNonce, this`sNonce, this`log, this`cut, stream`written, stream`faults
      ensures Valid() && RecvNonce() == old(RecvNonce()) && stream == old(stream)
      ensures status == TooLarge <==> |data| > MAX_PLAINTEXT
      ensures status == TooLarge ==> log == old(log) && stream.written == old(stream.written)
      ensures status != TooLarge ==> log == old(log) + [(SendKey(), NonceBytes(old(SendNonce())))]
      ensures status == Sent ==>
        stream.written == old(stream.written) + SealedFrame(cipher, SendKey(), old(SendNonce()), data)
      ensures cut <==> status == WriteFailed
      ensures SendNonce() == if status == Sent then Wrap64(old(SendNonce()) + 1) else old(SendNonce())
      ensures status == WriteFailed <==> stream.faults > old(stream.faults)
      ensures exists part ::
        && 0 <= part <= |SealedFrame(cipher, SendKey(), old(SendNonce()), data)|
        && stream.written == old(stream.written) + SealedFrame(cipher, SendKey(), old(SendNonce()), data)[..part]
    {
      hide NonceBytes, ToU16, Wrap64;
      ghost var nonce := SendNonce();
      ghost var frame := SealedFrame(cipher, SendKey(), nonce, data);
      ghost var sent: nat;
      ghost var spent: seq<(Key, seq<byte>)>;
      if isClient {
        status, cNonce, sent, spent := WriteEncryptedFrame(cipher, stream, data, clientKey, cNonce);
      } else {
        status, sNonce, sent, spent := WriteEncryptedFrame(cipher, stream, data, serverKey, sNonce);
      }
      assert frame[..|frame|] == frame;
      NonceLogGrows(SendKey(), |log|, 1);
      assert log + [] == log;
      log := log + spent;
      cut := status == WriteFailed;
    }

    method RecvFrame() returns (result: FrameResult)
      requires Valid() && stream != null
      modifies this`cNonce, this`sNonce, stream`unread, stream`faults
      ensures Valid() && SendNonce() == old(SendNonce()) && stream == old(stream)
      ensures result != Error(IoError) ==>
        (result, stream.unread) == NextFrame(cipher, RecvKey(), old(RecvNonce()), old(stream.unread))
      ensures result == Error(IoError) <==> stream.faults > old(stream.faults)
      ensures RecvNonce() == if result.Frame? then Wrap64(old(RecvNonce()) + 1) else old(RecvNonce())
    {
      hide NonceBytes, Wrap64, NextFrame;
      if isClient {
        result, sNonce := ReadEncryptedFrame(cipher, stream, serverKey, sNonce);
      } else {
        result, cNonce := ReadEncryptedFrame(cipher, stream, clientKey, cNonce);
      }
    }

    /**
     The stream leaves the tunnel for good. `select!` polls both loops until one
     ends and drops the other at an await. The loops touch different halves of
     the two streams, so every interleaving of their polls has the effect of one
     after the other, one of them to its end and the other up to some await;
     `sendEnds` says which ends. Without an I/O error that one has carried over
     all there was.
     */
    method RelayBidirectional(external: TcpStream, sendEnds: bool)
      returns (ghost chunks: seq<seq<byte>>, ghost output: seq<byte>, ghost delivered: seq<byte>)
      requires Valid() && stream != null && !cut && external != stream
      modifies this`stream, this`cNonce, this`sNonce, this`log, this`cut, stream, external
      ensures Valid() && stream == null
      ensures RelayChunks(chunks) && old(external.unread) == Flat(chunks) + external.unread
      ensures old(stream).written == old(stream.written) + output
      ensures SealedUpTo(cipher, SendKey(), old(SendNonce()), chunks, output, SendNonce())
      ensures log == old(log) + NonceLog(SendKey(), |old(log)| + |chunks|)[|old(log)|..]
      ensures external.written == old(external.written) + delivered
      ensures delivered <= Flat(Receive(cipher, RecvKey(), old(RecvNonce()), old(stream.unread)).frames)
      ensures external.faults == old(external.faults) && old(stream).faults == old(stream.faults) ==>
        if sendEnds then external.unread == [] && output == FrameStream(cipher, SendKey(), old(SendNonce()), chunks)
        else delivered == Flat(Receive(cipher, RecvKey(), old(RecvNonce()), old(stream.unread)).frames)
    {
      hide NonceBytes, Wrap64, Receive, SealedUpTo, DeliveredUpTo, Flat, FrameStream, RelayChunks, NonceLog, NonceRun;
      var s := stream;
      stream := null;
      var up, down: RelayEnd;
      ghost var before := |log|;
      ghost var spent: seq<(Key, seq<byte>)>;
      ghost var all := Receive(cipher, RecvKey(), RecvNonce(), s.unread);
      if isClient {
        up, cNonce, chunks, output, spent := RelayPlainToEncrypted(cipher, external, s, clientKey, cNonce, !sendEnds);
        log := log + spent;
        down, sNonce, delivered := RelayEncryptedToPlain(cipher, s, external, serverKey, sNonce, sendEnds);
      } else {
        up, sNonce, chunks, output, spent := RelayPlainToEncrypted(cipher, external, s, serverKey, sNonce, !sendEnds);
        log := log + spent;
        down, cNonce, delivered := RelayEncryptedToPlain(cipher, s, external, clientKey, cNonce, sendEnds);
      }
      DeliveredIsPrefix(all, delivered, down);
      CounterAfterRelay(cipher, SendKey(), before, chunks, output, SendNonce());
      NonceLogContinues(SendKey(), before, |chunks|);
      cut := SendNonce() != Wrap64(|log|);
    }
  }

  /** Two ends of one session. */
  ghost predicate Paired(a: EncryptedTunnel, b: EncryptedTunnel) {
    && a.cipher == b.cipher && a.clientKey == b.clientKey && a.serverKey == b.serverKey
    && a.isClient != b.isClient
  }

  /** Each end sends under the key the other receives under: the client's under the client key. */
  lemma PairedKeys(a: EncryptedTunnel, b: EncryptedTunnel)
    requires Paired(a, b)
    ensures a.SendKey() == b.RecvKey() && b.SendKey() == a.RecvKey()
    ensures if a.isClient then a.SendKey() == a.clientKey && a.RecvKey() == a.serverKey
      else a.SendKey() == a.serverKey && a.RecvKey() == a.clientKey
  {
  }

  /**
   From one end to the other, either way: the frame sent is the frame received,
   anything behind it stays, and the counters keep step.
   */
  method Exchange(a: EncryptedTunnel, b: EncryptedTunnel, data: seq<byte>, tail: seq<byte>)
    returns (status: SendStatus, result: FrameResult)
    requires a.Valid() && b.Valid() && Paired(a, b) && !a.cut
    requires a.stream != null && b.stream != null && a.stream != b.stream && a.SendNonce() == b.RecvNonce()
    modifies a, b, a.stream, b.stream
    ensures a.stream == old(a.stream) && b.stream == old(b.stream)
    ensures status == Sent && b.stream.faults == old(b.stream.faults) ==>
      result == Frame(data) && b.stream.unread == tail && a.SendNonce() == b.RecvNonce()
    ensures status != Sent ==> |data| > MAX_PLAINTEXT || a.stream.faults > old(a.stream.faults)
  {
    hide NonceBytes, Wrap64, NextFrame, SealedFrame, NonceLog;
    var sent := |a.stream.written|;
    status := a.SendFrame(data);
    result := Closed;
    if status == Sent {
      var bytes := a.stream.written[sent..];
      b.stream.unread := bytes + tail;
      PairedKeys(a, b);
      NextFrameOfFrame(b.cipher, b.RecvKey(), b.RecvNonce(), data, tail);
      result := b.RecvFrame();
    }
  }

  /** A run of nonces from the counter a log has left goes on with the log. */
  lemma NonceLogContinues(key: Key, n: nat, k: nat)
    ensures NonceLog(key, n) + NonceRun(key, Wrap64(n), k) == NonceLog(key, n + k)
    ensures |NonceLog(key, n + k)| == n + k
    ensures NonceRun(key, Wrap64(n), k) == NonceLog(key, n + k)[n..]
  {
    hide NonceBytes, Wrap64;
    var all, run := NonceLog(key, n + k), NonceRun(key, Wrap64(n), k);
    forall i | 0 <= i < k
      ensures run[i] == all[n..][i]
    {
      NonceWraps(Wrap64(n) + i);
      NonceWraps(n + i);
      Wrap64Add(n, i);
    }
    assert run == all[n..];
    assert all[..n] == NonceLog(key, n);
  }

  lemma NonceLogGrows(key: Key, n: nat, k: nat)
    ensures var all := NonceLog(key, n + k);
      |all| == n + k && NonceLog(key, n) + all[n..] == all
    ensures k == 1 ==> NonceLog(key, n + k) == NonceLog(key, n) + [(key, NonceBytes(Wrap64(n)))]
    ensures k == 1 ==> Wrap64(Wrap64(n) + 1) == Wrap64(n + 1)
  {
    hide NonceBytes, Wrap64;
    NonceWraps(n);
    Wrap64Add(n, 1);
    var all: seq<(Key, seq<byte>)> := NonceLog(key, n + k);
    assert all[..n] == NonceLog(key, n);
    assert all[..n] + all[n..] == all;
    if k == 1 { assert all[n..] == [all[n]]; }
  }

  lemma NonceLogLength(key: Key, n: nat)
    ensures |NonceLog(key, n)| == n
  {
  }

  lemma DeliveredIsPrefix(all: Delivery, delivered: seq<byte>, end: RelayEnd)
    requires DeliveredUpTo(all, delivered, end)
    ensures delivered <= Flat(all.frames) && (end != Interrupted ==> delivered == Flat(all.frames))
  {
  }

  lemma CounterAfterRelay(c: Cipher, key: Key, spent: nat, chunks: seq<seq<byte>>, output: seq<byte>, next: u64)
    requires SealedUpTo(c, key, Wrap64(spent), chunks, output, next)
    ensures next == Wrap64(spent + |chunks|) || (chunks != [] && next == Wrap64(spent + |chunks| - 1))
  {
    hide NonceBytes, Wrap64, FrameStream, SealedFrame;
    Wrap64Add(spent, |chunks|);
    if chunks != [] { Wrap64Add(spent, |chunks| - 1); }
  }

  /** The nonces of one key never repeat exactly as long as at most 2^64 frames are sealed. */
  lemma NoNonceReuse(key: Key, n: nat)
    ensures Distinct(NonceLog(key, n)) <==> n <= U64_SIZE
  {
    var log := NonceLog(key, n);
    if n <= U64_SIZE {
      forall i, j | 0 <= i < j < n
        ensures log[i] != log[j]
      {
        assert log[i] == (key, NonceBytes(i)) && log[j] == (key, NonceBytes(j));
        NonceInjective(i, j);
      }
    } else {
      NonceInjective(0, U64_SIZE);
      assert log[0] == (key, NonceBytes(0)) && log[U64_SIZE] == (key, NonceBytes(U64_SIZE));
    }
  }

  /**
   Successive calls of the frame writer on one counter. `outcomes[i]` says
   whether both writes of call i succeeded; only then does the counter move.
   */
  function CallNonces(counter: u64, outcomes: seq<bool>): (nonces: seq<seq<byte>>)
    ensures |nonces| == |outcomes|
    decreases |outcomes|
  {
    if outcomes == [] then []
    else [NonceBytes(counter)] + CallNonces(if outcomes[0] then Wrap64(counter + 1) else counter, outcomes[1..])
  }

  lemma {:induction false} CallNonceAt(start: nat, outcomes: seq<bool>, i: nat)
    requires i < |outcomes| && forall j :: 0 <= j < i ==> outcomes[j]
    ensures CallNonces(Wrap64(start), outcomes)[i] == NonceBytes(start + i)
    decreases i
  {
    hide NonceBytes, Wrap64;
    NonceWraps(start);
    if i > 0 {
      Wrap64Add(start, 1);
      CallNonceAt(start + 1, outcomes[1..], i - 1);
    }
  }

  /** A failed call leaves its nonce to the next one. */
  lemma {:induction false} FailedCallRepeats(counter: u64, outcomes: seq<bool>, i: nat)
    requires i + 1 < |outcomes| && !outcomes[i]
    ensures CallNonces(counter, outcomes)[i] == CallNonces(counter, outcomes)[i + 1]
    decreases i
  {
    hide NonceBytes, Wrap64;
    if i > 0 {
      FailedCallRepeats(if outcomes[0] then Wrap64(counter + 1) else counter, outcomes[1..], i - 1);
    }
  }

  /** Nonces stay unique exactly when callers stop at the first failed write, and stop in time. */
  lemma NonceUniqueIff(outcomes: seq<bool>)
    ensures Distinct(CallNonces(0, outcomes))
       <==> (forall i :: 0 <= i < |outcomes| - 1 ==> outcomes[i]) && |outcomes| <= U64_SIZE
  {
    hide NonceBytes, CallNonces;
    var nonces := CallNonces(0, outcomes);
    if i :| 0 <= i < |outcomes| - 1 && !outcomes[i] {
      FailedCallRepeats(0, outcomes, i);
    } else {
      forall i | 0 <= i < |outcomes|
        ensures nonces[i] == NonceBytes(i)
      {
        CallNonceAt(0, outcomes, i);
      }
      if |outcomes| <= U64_SIZE {
        forall i, j | 0 <= i < j < |outcomes|
          ensures nonces[i] != nonces[j]
        {
          NonceInjective(i, j);
        }
      } else {
        NonceInjective(0, U64_SIZE);
        assert nonces[0] == nonces[U64_SIZE];
      }
    }
  }
}
