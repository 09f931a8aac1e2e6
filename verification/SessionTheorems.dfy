/** What a session guarantees in every reachable state. */
module SessionTheorems {
  import opened Bytes
  import opened Aead
  import opened Frames
  import opened IpText
  import opened Protocol
  import opened SocksClient
  import opened TunnelServer
  import opened EncryptedTunnels
  import opened Lanes
  import opened Session
  import opened SessionInvariant

  // ---------------------------------------------------------------------------
  // One sealed direction: bytes and counters accounted for
  // ---------------------------------------------------------------------------

  /** The bytes that have left the sender and were not yet consumed. */
  function Underway(l: Lane): seq<byte> {
    l.rx.partial + (l.wire + l.lost)
  }

  /** With the last `k` bytes missing, all frames are whole but the last. */
  lemma {:induction false} WholeFramesButLast(frames: seq<seq<byte>>, k: nat)
    requires frames != [] && k <= 2 + |frames[|frames| - 1]| + TAG_LEN
    ensures k <= WireLength(frames)
    ensures WholeFrames(frames, WireLength(frames) - k) == |frames| - if k == 0 then 0 else 1
    decreases |frames|
  {
    if |frames| == 1 {
      assert frames[1..] == [];
    } else {
      assert frames[1..][|frames| - 2] == frames[|frames| - 1];
      WholeFramesButLast(frames[1..], k);
    }
  }

  lemma PayloadSplit(sent: seq<seq<byte>>, n: nat)
    requires 0 < n <= |sent|
    ensures Payload(sent) == Payload(sent[..n]) + Flat(sent[n..])
  {
    assert sent[1..] == sent[..n][1..] + sent[n..];
    FlatAppend(sent[..n][1..], sent[n..]);
  }

  /**
   Delivered bytes are a prefix of the bytes read; what is missing is buffered or
   is exactly what the bytes in flight decode to; and the two counters differ by
   the number of whole frames underway.
   */
  ghost predicate Accounted(c: Cipher, key: Key, l: Lane) {
    && |l.rx.got| <= |l.tx.sent|
    && l.rx.delivered <= l.tx.read
    && (l.rx.heard != [] ==>
        && Receive(c, key, |l.rx.got|, InFlight(l)) == Delivery(l.tx.sent[|l.rx.got|..], true)
        && l.rx.counter == Wrap64(|l.rx.got|)
        && l.tx.counter == Wrap64(|l.rx.got| + WholeFrames(l.tx.sent[|l.rx.got|..], |Underway(l)|)))
    && (l.rx.got != [] ==>
        l.tx.read == l.rx.delivered + (l.rx.buffered + Flat(Receive(c, key, |l.rx.got|, InFlight(l)).frames)))
  }

  lemma SealedAccount(c: Cipher, key: Key, hello: seq<byte>, l: Lane)
    requires c.Correct() && SealedLane(c, key, hello, l)
    ensures Accounted(c, key, l)
  {
    hide NonceBytes, Wrap64, NonceLog, FrameStream, Receive, WireLength, WholeFrames, Payload, Flat;
    var n := |l.rx.got|;
    var frames := l.tx.sent[n..];
    assert AllFit(frames);
    if n > 0 {
      PayloadSplit(l.tx.sent, n);
    } else {
      NoPayload();
    }
    if l.rx.heard != [] {
      assert InFlight(l) == FrameStream(c, key, n, frames);
      ReceiveFrameStream(c, key, n, frames);
      FrameStreamLength(c, key, n, frames);
      assert InFlight(l) == Underway(l) + l.tx.pending;
      UnderwayFrames(frames, l.tx.sent, n, |l.tx.pending|);
    }
  }

  lemma NoPayload()
    ensures Payload([]) == []
  {
  }

  lemma UnderwayFrames(frames: seq<seq<byte>>, sent: seq<seq<byte>>, n: nat, pending: nat)
    requires n <= |sent| && frames == sent[n..] && pending <= WireLength(frames)
    requires sent != [] ==> pending <= 2 + |sent[|sent| - 1]| + TAG_LEN
    ensures n + WholeFrames(frames, WireLength(frames) - pending) == |sent| - (if sent == [] || pending == 0 then 0 else 1)
  {
    if frames == [] {
      assert WireLength(frames) == 0;
    } else {
      assert frames[|frames| - 1] == sent[|sent| - 1];
      WholeFramesButLast(frames, pending);
    }
  }

  // ---------------------------------------------------------------------------
  // The session
  // ---------------------------------------------------------------------------

  function ExternalBytes(cfg: Config, d: Dir): seq<byte> {
    if d.Up? then AppBytes(cfg) else cfg.remote
  }

  /**
   Encrypted sessions, every interleaving: the bytes written out at one end are
   a prefix of those read at the other, exactly the payload in flight is
   missing, and the counters differ by the frames underway.
   */
  lemma EncryptedDelivery(cfg: Config, s: State, d: Dir)
    requires cfg.Valid() && cfg.mode.Sealed? && Reachable(cfg, s)
    ensures Accounted(cfg.cipher, TrueKey(cfg, d), LaneOf(s, d))
    ensures LaneOf(s, d).tx.read <= ExternalBytes(cfg, d)
  {
    hide SealedLane, TrueKeys, Reachable, DialogueOf, Accounted, Reply, ParseHeader, StatusFor, HeaderOf;
    ReachableInv(cfg, s);
    SealedAccount(cfg.cipher, TrueKey(cfg, d), HelloOf(cfg, d), LaneOf(s, d));
    ReadIsPrefix(cfg, s, d);
  }

  lemma ReadIsPrefix(cfg: Config, s: State, d: Dir)
    requires cfg.Valid() && Inv(cfg, s)
    ensures LaneOf(s, d).tx.read <= ExternalBytes(cfg, d)
  {
    hide LaneInv, TrueKeys, DialogueOf, Reply, ParseHeader, StatusFor, HeaderOf, AppBytes;
    var tx := LaneOf(s, d).tx;
    if tx != EmptyLane([]).tx {
      assert tx.read + tx.source == ExternalBytes(cfg, d);
    }
  }

  /**
   A direction that ran to its end delivers everything, over either tunnel: the
   sender wrote all of its source, nothing was lost, and the receiver, past the
   setup frame, has drained the wire and its buffer.
   */
  lemma DrainedIsComplete(cfg: Config, s: State, d: Dir)
    requires cfg.Valid() && Reachable(cfg, s)
    requires var l := LaneOf(s, d);
      l.rx.got != [] && l.tx.source == l.tx.pending == l.wire == l.lost == l.rx.buffered == []
    ensures LaneOf(s, d).rx.delivered == ExternalBytes(cfg, d)
  {
    hide TrueKeys, Reachable, DialogueOf, Reply, ParseHeader, StatusFor, HeaderOf, AppBytes, PlainLane, SealedLane;
    ReachableInv(cfg, s);
    var l := LaneOf(s, d);
    if cfg.mode.Sealed? { SealedDrained(cfg.cipher, TrueKey(cfg, d), HelloOf(cfg, d), l); } else { PlainDrained(l); }
    assert l.tx.read + [] == l.tx.read;
  }

  lemma SealedDrained(c: Cipher, key: Key, hello: seq<byte>, l: Lane)
    requires c.Correct() && SealedLane(c, key, hello, l)
    requires l.rx.got != [] && l.tx.pending == l.wire == l.lost == l.rx.buffered == []
    ensures l.tx.sent != [] && l.rx.delivered == l.tx.read
  {
    hide NonceBytes, Wrap64, NonceLog, FrameStream, WireLength;
    var n := |l.rx.got|;
    assert |InFlight(l)| == |l.rx.partial|;
    FrameStreamLength(c, key, n, l.tx.sent[n..]);
    if n < |l.tx.sent| { FirstFrameLength(l.tx.sent[n..]); }
    assert l.tx.sent[..n] == l.tx.sent;
  }

  lemma FirstFrameLength(frames: seq<seq<byte>>)
    requires frames != []
    ensures WireLength(frames) >= 2 + |frames[0]| + TAG_LEN
  {
  }

  lemma PlainDrained(l: Lane)
    requires PlainLane(l) && l.rx.got != [] && l.tx.pending == l.wire == l.lost == l.rx.buffered == []
    ensures l.tx.sent != [] && l.rx.delivered == l.tx.read
  {
    hide Framed;
    assert InFlight(l) == [];
    assert l.rx.delivered + (l.rx.buffered + []) == l.rx.delivered;
    assert [] + l.tx.read == l.tx.read;
  }

  /**
   The hand-over from framed setup to relay is exact over either tunnel: what
   arrives at the far side is a prefix of what was sent right behind the SOCKS
   request, or of what the remote host sent; the header is the first frame up
   and the status the first frame down, and neither is ever delivered.
   */
  lemma HandoverExact(cfg: Config, s: State)
    requires cfg.Valid() && Reachable(cfg, s)
    ensures s.up.rx.delivered <= s.up.tx.read <= AppBytes(cfg)
    ensures s.down.rx.delivered <= s.down.tx.read <= cfg.remote
    ensures s.up.rx.got != [] ==> DialogueOf(cfg).Accepted? && s.up.rx.got[0] == HeaderOf(cfg)
    ensures s.down.rx.got != [] ==> s.target.Some? && s.down.rx.got[0] == [StatusFor(cfg.network, s.target.value)]
  {
    hide TrueKeys, Reachable, DialogueOf, Reply, ParseHeader, StatusFor, HeaderOf, AppBytes, SenderOk, ReceiverOk, PartialOk, InFlight;
    ReachableInv(cfg, s);
    ReadIsPrefix(cfg, s, Up);
    ReadIsPrefix(cfg, s, Down);
    DeliveredIsRead(cfg, Up, s.up);
    DeliveredIsRead(cfg, Down, s.down);
  }

  lemma DeliveredIsRead(cfg: Config, d: Dir, l: Lane)
    requires cfg.Valid() && LaneInv(cfg, d, l)
    ensures l.rx.delivered <= l.tx.read
  {
    hide SealedLane, TrueKey, InFlight, Framed;
    if cfg.mode.Sealed? {
      SealedAccount(cfg.cipher, TrueKey(cfg, d), HelloOf(cfg, d), l);
    } else {
      PlainDelivered(l);
    }
  }

  lemma PlainDelivered(l: Lane)
    requires PlainLane(l)
    ensures l.rx.delivered <= l.tx.read
  {
    hide Framed, InFlight;
    if l.rx.got != [] {
      assert l.rx.delivered + (l.rx.buffered + InFlight(l)) == l.tx.read;
    }
  }

  /**
   Over a whole run of both endpoints, failures and cancellations included, no
   key and nonce are used for two encryptions exactly as long as at most 2^64
   frames go each way and, both parties having encrypted, the two halves of what
   HKDF yields for the session differ.
   */
  lemma NoncesNeverRepeat(cfg: Config, s: State)
    requires cfg.Valid() && cfg.mode.Sealed? && Reachable(cfg, s)
    ensures |s.up.tx.spent| == |s.up.tx.sent| && |s.down.tx.spent| == |s.down.tx.sent|
    ensures Distinct(s.up.tx.spent + s.down.tx.spent) <==>
      && |s.up.tx.sent| <= U64_SIZE && |s.down.tx.sent| <= U64_SIZE
      && var okm := cfg.kdf(cfg.psk, HKDF_INFO + cfg.clientHello + cfg.serverHello);
        (okm[..KEY_LEN] != okm[KEY_LEN..] || s.up.tx.sent == [] || s.down.tx.sent == [])
  {
    hide TrueKeys, Reachable, DialogueOf, Reply, ParseHeader, StatusFor, HeaderOf, ReceiverOk, LinkOk, PartialOk, NonceBytes, Distinct;
    ReachableInv(cfg, s);
    NonceLogLength(TrueKeys(cfg).client, |s.up.tx.sent|);
    NonceLogLength(TrueKeys(cfg).server, |s.down.tx.sent|);
    KeysDiffer(cfg);
    TwoLogsDistinct(TrueKeys(cfg).client, TrueKeys(cfg).server, |s.up.tx.sent|, |s.down.tx.sent|);
  }

  /** A session's keys are the halves of what HKDF yields for it, and differ exactly when those do. */
  lemma KeysDiffer(cfg: Config)
    requires cfg.Valid()
    ensures var okm := cfg.kdf(cfg.psk, HKDF_INFO + cfg.clientHello + cfg.serverHello);
      && |okm| == 2 * KEY_LEN
      && TrueKeys(cfg).client + TrueKeys(cfg).server == okm
      && (TrueKeys(cfg).client == TrueKeys(cfg).server <==> okm[..KEY_LEN] == okm[KEY_LEN..])
  {
    hide DeriveSessionKeys;
    KeysAreHalves(cfg.kdf, cfg.psk, cfg.clientHello, cfg.serverHello);
  }

  /** The session machine gives the parties the roles of the two tunnel ends. */
  lemma RolesAsInTunnel(s: State, client: EncryptedTunnel, server: EncryptedTunnel)
    requires client.isClient && client.clientKey == s.clientKeys.client && client.serverKey == s.clientKeys.server
    requires !server.isClient && server.clientKey == s.serverKeys.client && server.serverKey == s.serverKeys.server
    ensures SendKey(s, Up) == client.SendKey() == client.clientKey && RecvKey(s, Up) == server.RecvKey() == server.clientKey
    ensures SendKey(s, Down) == server.SendKey() == server.serverKey && RecvKey(s, Down) == client.RecvKey() == client.serverKey
  {
  }

  /** Two logs from counter 0 on: under one key their first entries clash. */
  lemma TwoLogsDistinct(k: Key, k': Key, n: nat, n': nat)
    ensures Distinct(NonceLog(k, n) + NonceLog(k', n')) <==>
      n <= U64_SIZE && n' <= U64_SIZE && (k != k' || n == 0 || n' == 0)
  {
    hide NonceBytes, Distinct;
    NoNonceReuse(k, n);
    NoNonceReuse(k', n');
    var a: seq<(Key, seq<byte>)> := NonceLog(k, n);
    var b: seq<(Key, seq<byte>)> := NonceLog(k', n');
    DistinctSum(a, b);
    if k == k' && n > 0 && n' > 0 {
      assert a[0] == b[0];
    } else {
      assert forall i, j :: 0 <= i < |a| && 0 <= j < |b| ==> a[i].0 == k && b[j].0 == k';
    }
  }

  lemma DistinctSum<T(!new)>(a: seq<T>, b: seq<T>)
    ensures Distinct(a + b) <==> Distinct(a) && Distinct(b) && forall i, j :: 0 <= i < |a| && 0 <= j < |b| ==> a[i] != b[j]
  {
    var log := a + b;
    if Distinct(log) {
      forall i, j | 0 <= i < j < |a| ensures a[i] != a[j] { assert log[i] != log[j]; }
      forall i, j | 0 <= i < j < |b| ensures b[i] != b[j] { assert log[|a| + i] != log[|a| + j]; }
      forall i, j | 0 <= i < |a| && 0 <= j < |b| ensures a[i] != b[j] { assert log[i] != log[|a| + j]; }
    }
  }

  /** Both ends hold the same keys once derived, and each sends under the key the other receives under. */
  lemma KeysAgreeCrossed(cfg: Config, s: State, d: Dir)
    requires cfg.Valid() && cfg.mode.Sealed? && Reachable(cfg, s)
    ensures s.client in {FrameOut, FrameIn, Replying, Relaying} ==> s.clientKeys == TrueKeys(cfg)
    ensures s.server in {HelloOut, FrameIn, FrameOut, Relaying} ==> s.serverKeys == TrueKeys(cfg)
    ensures s.client in {FrameOut, FrameIn, Replying, Relaying} && s.server in {HelloOut, FrameIn, FrameOut, Relaying}
      ==> s.clientKeys == s.serverKeys && SendKey(s, d) == RecvKey(s, d) == TrueKey(cfg, d)
  {
    hide TrueKeys, Reachable, DialogueOf, Reply, ParseHeader, StatusFor, HeaderOf, LaneInv;
    ReachableInv(cfg, s);
  }

  /** The application saw a reply that is a success. */
  predicate ToldSuccess(reply: seq<byte>) {
    |reply| > 3 && reply[3] == 0
  }

  lemma RequestIsString(cfg: Config)
    requires cfg.Valid() && DialogueOf(cfg).Accepted?
    ensures var d := DialogueOf(cfg);
      d.port < U16_SIZE && (DestinationOf(d.address).Name? ==> IsString(cfg.lossy, d.address))
  {
    hide SocksDialogue, AddressText, DestinationOf;
    AcceptedRequest(cfg.lossy, cfg.application);
    var d := DialogueOf(cfg);
    var a: AddressType, raw :| (a.Ipv4? ==> |raw| == 4) && (a.Ipv6? ==> |raw| == 16) && |raw| <= 255
      && d.address == AddressText(cfg.lossy, a, raw);
    AddressIsString(cfg.lossy, a, raw);
  }

  lemma AddressIsString(lossy: Lossy, a: AddressType, raw: seq<byte>)
    requires LossyLaws(lossy) && (a.Ipv4? ==> |raw| == 4) && (a.Ipv6? ==> |raw| == 16)
    ensures DestinationOf(AddressText(lossy, a, raw)).Name? ==> IsString(lossy, AddressText(lossy, a, raw))
  {
    hide DestinationOf, PrintV4, PrintV6;
    PrintedDestination(lossy, raw);
    assert IsString(lossy, lossy(raw));
  }

  /**
   A client is told of success only if the server parsed this session's header
   and its connect to the named target succeeded; the target is the one asked
   for whenever a name has at most 255 bytes. What the application is told is
   never anything but a (prefix of a) refusal, an acceptance or one reply.
   */
  lemma ReplySound(cfg: Config, s: State)
    requires cfg.Valid() && Reachable(cfg, s)
    ensures CutOutput(s.reply)
    ensures ToldSuccess(s.reply) ==>
      && DialogueOf(cfg).Accepted? && s.target.Some? && s.connected
      && ParseHeader(cfg.lossy, HeaderOf(cfg)) == s.target
      && cfg.network(s.target.value.address, s.target.value.port)
      && var d := DialogueOf(cfg);
        ((DestinationOf(d.address).Name? ==> |d.address| <= 255) ==>
          DestinationOf(s.target.value.address) == DestinationOf(d.address) && s.target.value.port == d.port)
  {
    hide TrueKeys, Reachable, DialogueOf, Reply, ParseHeader, Header, DestinationOf, SenderOk, ReceiverOk, PartialOk, InFlight;
    ReachableInv(cfg, s);
    if ToldSuccess(s.reply) {
      assert s.up.rx.got[0] == s.up.tx.sent[0];
      assert s.down.rx.got[0] == s.down.tx.sent[0];
      RequestIsString(cfg);
      var d := DialogueOf(cfg);
      TargetPreserved(cfg.lossy, d.address, d.port);
    }
  }
}
