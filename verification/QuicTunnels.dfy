/** The tunnel over a QUIC stream: exact reads on partial ones, and frames whose end is not noticed. */
module QuicTunnels {
  import opened Bytes
  import opened Streams
  import opened Frames
  import opened IpText
  import opened Protocol
  import opened PlainTunnels

  const QUIC_BUF: nat := 16384

  /** The receiving half of a QUIC stream. */
  class RecvStream {
    var unread: seq<byte>
    ghost var faults: nat   // reads that failed

    constructor (incoming: seq<byte>)
      ensures unread == incoming && faults == 0
    {
      unread, faults := incoming, 0;
    }

    /** `read(&mut buf[offset..])`: a piece of any size, None at the end of the stream, or an error or a drop. */
    method Read(buf: array<byte>, offset: nat, droppable: bool := false) returns (ok: bool, n: Option<nat>)
      requires offset < buf.Length
      modifies this`unread, this`faults, buf
      ensures !ok ==> unread == old(unread) && (droppable || faults > old(faults))
      ensures faults >= old(faults) && (ok ==> faults == old(faults))
      ensures ok && n.None? ==> unread == old(unread) == []
      ensures ok && n.Some? ==> 1 <= n.value <= |old(unread)| && offset + n.value <= buf.Length
      ensures ok && n.Some? ==> buf[offset..offset + n.value] == old(unread)[..n.value] && unread == old(unread)[n.value..]
      ensures buf[..offset] == old(buf[..offset])
      ensures buf[offset + if ok && n.Some? then n.value else 0..] == old(buf[offset + if ok && n.Some? then n.value else 0..])
    {
      var dropped: bool := *;
      if droppable && dropped { return false, None; }
      var fails: bool := *;
      if fails {
        faults := faults + 1;
        return false, None;
      }
      if unread == [] { return true, None; }
      var k: nat :| 1 <= k <= |unread| && offset + k <= buf.Length;
      forall i | 0 <= i < k {
        buf[offset + i] := unread[i];
      }
      unread := unread[k..];
      return true, Some(k);
    }
  }

  /** The sending half. */
  class SendStream {
    var written: seq<byte>
    var finished: bool
    ghost var faults: nat   // writes that failed

    constructor ()
      ensures written == [] && !finished && faults == 0
    {
      written, finished, faults := [], false, 0;
    }

    method WriteAll(data: seq<byte>, droppable: bool := false) returns (ok: bool, ghost sent: nat)
      modifies this`written, this`faults
      ensures sent <= |data| && written == old(written) + data[..sent] && (ok <==> sent == |data|)
      ensures faults >= old(faults) && (ok ==> faults == old(faults)) && (!ok ==> droppable || faults > old(faults))
    {
      var n: nat :| n <= |data|;
      written := written + data[..n];
      if n < |data| {
        var dropped: bool := *;
        if !droppable || !dropped { faults := faults + 1; }
      }
      return n == |data|, n;
    }

    method Finish()
      modifies this`finished
      ensures finished
    {
      finished := true;
    }
  }

  datatype Filled = Full | Short | Broken

  /**
   `read_exact_quic`: whatever the pieces, the buffer holds exactly the next
   bytes of the stream, or, at its end, all that were left in front of its old
   contents.
   */
  method ReadExactQuic(recv: RecvStream, buf: array<byte>) returns (r: Filled)
    modifies recv`unread, recv`faults, buf
    ensures r == Broken <==> recv.faults > old(recv.faults)
    ensures r != Broken ==> recv.faults == old(recv.faults)
    ensures r == Full <==> buf.Length <= |old(recv.unread)| && r != Broken
    ensures r == Full ==> buf[..] == old(recv.unread)[..buf.Length] && recv.unread == old(recv.unread)[buf.Length..]
    ensures r == Short ==> buf[..] == old(recv.unread) + old(buf[..])[|old(recv.unread)|..] && recv.unread == []
    ensures r == Broken ==> exists i :: 0 <= i <= |old(recv.unread)| && recv.unread == old(recv.unread)[i..]
  {
    var offset := 0;
    while offset < buf.Length
      invariant 0 <= offset <= buf.Length && offset <= |old(recv.unread)|
      invariant recv.unread == old(recv.unread)[offset..] && recv.faults == old(recv.faults)
      invariant buf[..offset] == old(recv.unread)[..offset]
      invariant buf[offset..] == old(buf[..])[offset..]
    {
      ghost var was := buf[..];
      var ok, n := recv.Read(buf, offset);
      if !ok { return Broken; }
      if n.None? {
        assert buf[..] == buf[..offset] + buf[offset..];
        return Short;
      }
      assert buf[..offset + n.value] == buf[..offset] + buf[offset..offset + n.value];
      assert buf[offset + n.value..] == was[offset + n.value..] == was[offset..][n.value..];
      assert old(buf[..])[offset..][n.value..] == old(buf[..])[offset + n.value..];
      offset := offset + n.value;
    }
    return Full;
  }

  // ---------------------------------------------------------------------------
  // Frames
  // ---------------------------------------------------------------------------

  /** The first n bytes, with zeros where the text has ended. */
  function ZeroFilled(t: seq<byte>, n: nat): (r: seq<byte>)
    ensures |r| == n
    ensures n <= |t| ==> r == t[..n]
  {
    if n <= |t| then t[..n] else t + Zeros(n - |t|)
  }

  function Behind(t: seq<byte>, n: nat): seq<byte> {
    if n <= |t| then t[n..] else []
  }

  /** What `recv_frame` makes of a stream: a length and a body, each filled up with zeros at the end. */
  function QuicNext(wire: seq<byte>): (seq<byte>, seq<byte>) {
    var len := FromU16(ZeroFilled(wire, 2));
    (ZeroFilled(Behind(wire, 2), len), Behind(wire, 2 + len))
  }

  /** The QUIC and the plain tunnel receive the same exactly on streams that begin with a whole frame. */
  lemma QuicAgreesWithPlain(wire: seq<byte>)
    ensures PlainNext(wire) == (Frame(QuicNext(wire).0), QuicNext(wire).1)
       <==> |wire| >= 2 && |wire| >= 2 + FromU16(wire[..2])
  {
    hide FromU16;
    if |wire| >= 2 {
      var len := FromU16(wire[..2]);
      if |wire| >= 2 + len {
        assert wire[2..][..len] == wire[2..2 + len];
      }
    }
  }

  /**
   A frame whose stream ends inside it is still received as the frame that was
   sent exactly when all the bytes that are missing were zeros.
   */
  lemma QuicTruncated(data: seq<byte>, n: nat)
    requires |data| < U16_SIZE && n < |Framed(data)|
    ensures QuicNext(Framed(data)[..n]).0 == data <==> forall i :: n <= i < |Framed(data)| ==> Framed(data)[i] == 0
    ensures n >= 2 ==> |QuicNext(Framed(data)[..n]).0| == |data|
  {
    hide FromU16, ToU16, Framed, QuicNext;
    FramedBytes(data);
    if n >= 2 { CutInBody(data, n); } else { CutInPrefix(data, n); }
  }

  lemma FramedBytes(data: seq<byte>)
    ensures var f := Framed(data);
      f[0] == ToU16(|data|)[0] && f[1] == ToU16(|data|)[1] && forall i {:trigger data[i]} {:trigger f[i + 2]} :: 0 <= i < |data| ==> f[i + 2] == data[i]
  {
    hide ToU16;
  }

  /** The bytes of a frame from n on are zeros exactly when those of its data are. */
  lemma ZerosFrom(data: seq<byte>, n: nat)
    requires 2 <= n <= |Framed(data)|
    ensures (forall i :: n <= i < |Framed(data)| ==> Framed(data)[i] == 0) <==> forall i :: n - 2 <= i < |data| ==> data[i] == 0
  {
    hide Framed;
    FramedBytes(data);
    var f := Framed(data);
    assert forall i :: n <= i < |f| ==> f[i] == data[i - 2];
  }

  lemma CutInBody(data: seq<byte>, n: nat)
    requires |data| < U16_SIZE && 2 <= n < |Framed(data)|
    ensures QuicNext(Framed(data)[..n]).0 == data <==> forall i :: n <= i < |Framed(data)| ==> Framed(data)[i] == 0
    ensures |QuicNext(Framed(data)[..n]).0| == |data|
  {
    hide FromU16, ToU16;
    var cut := Framed(data)[..n];
    PrefixBytes(|data|);
    assert cut[..2] == ToU16(|data|);
    assert cut[2..] == data[..n - 2];
    CutBody(data, n - 2);
    ZerosFrom(data, n);
  }

  lemma CutInPrefix(data: seq<byte>, n: nat)
    requires |data| < U16_SIZE && n < 2
    ensures QuicNext(Framed(data)[..n]).0 == data <==> forall i :: n <= i < |Framed(data)| ==> Framed(data)[i] == 0
  {
    hide FromU16, ToU16, ZeroFilled;
    var f := Framed(data);
    var cut := f[..n];
    assert cut == ToU16(|data|)[..n];
    CutPrefix(|data|, n);
    var len := FromU16(ZeroFilled(cut, 2));
    NothingButZeros(len);
    FramedBytes(data);
    ZerosFrom(data, 2);
    assert (forall i :: n <= i < |f| ==> f[i] == 0) ==> forall i :: 2 <= i < |f| ==> f[i] == 0;
    assert (forall i :: n <= i < |f| ==> f[i] == 0) ==> forall i :: n <= i < 2 ==> ToU16(|data|)[i] == 0;
    if len == |data| && forall i :: 0 <= i < |data| ==> data[i] == 0 {
      assert data == Zeros(len);
    }
  }

  lemma NothingButZeros(len: nat)
    ensures ZeroFilled([], len) == Zeros(len) && forall i :: 0 <= i < len ==> Zeros(len)[i] == 0
  {
  }

  lemma PrefixBytes(len: nat)
    requires len < U16_SIZE
    ensures FromU16(ToU16(len)) == len && (ToU16(len) == [0, 0] <==> len == 0)
  {
    U16RoundTrip(len);
  }

  /** A length prefix cut short reads as the length exactly when the missing bytes are zeros. */
  lemma CutPrefix(len: nat, n: nat)
    requires len < U16_SIZE && n < 2
    ensures FromU16(ZeroFilled(ToU16(len)[..n], 2)) == len <==> forall i :: n <= i < 2 ==> ToU16(len)[i] == 0
  {
    U16RoundTrip(len);
    var p := ToU16(len);
    if n == 0 {
      assert ZeroFilled(p[..0], 2) == [0, 0];
    } else {
      assert ZeroFilled(p[..1], 2) == [p[0], 0];
    }
  }

  lemma CutBody(data: seq<byte>, n: nat)
    requires n <= |data|
    ensures ZeroFilled(data[..n], |data|) == data <==> forall i :: n <= i < |data| ==> data[i] == 0
  {
    var z := ZeroFilled(data[..n], |data|);
    if forall i :: n <= i < |data| ==> data[i] == 0 {
      assert z == data;
    } else {
      var i :| n <= i < |data| && data[i] != 0;
      assert z[i] == 0;
    }
  }

  /**
   The end of the stream in place of a frame reads as an empty one, never as
   None. A server still rejects it, since an empty header does not parse; but a
   status frame that ends behind its length reads as success, whatever it said.
   */
  lemma QuicEndOfStream(lossy: Lossy, status: byte)
    ensures QuicNext([]) == ([], []) && PlainNext([]).0 == Closed
    ensures ParseHeader(lossy, QuicNext([]).0) == None
    ensures QuicNext(Framed([status])[..2]) == ([0], []) && PlainNext(Framed([status])[..2]).0 == Error(Truncated)
  {
    assert ZeroFilled([], 2) == [0, 0];
    var cut := Framed([status])[..2];
    assert cut == [0, 1];
    assert ZeroFilled([], 1) == [0];
  }

  /**
   A status frame cut anywhere is taken for success exactly when all of it but
   its body came, or all of it and it was one. Every other cut reads as an empty
   frame, which the client turns away.
   */
  lemma CutStatus(status: byte, n: nat)
    requires n <= 3
    ensures var got := QuicNext(Framed([status])[..n]).0;
      && (got != [] && got[0] == 0 <==> n == 2 || (n == 3 && status == 0))
      && (got == [] <==> n < 2)
  {
    var f := Framed([status]);
    assert f == [0, 1, status];
    var cut := f[..n];
    if n == 0 {
      assert ZeroFilled(cut, 2) == [0, 0];
    } else if n == 1 {
      assert ZeroFilled(cut, 2) == [0, 0];
    } else {
      assert cut[..2] == [0, 1];
      assert n == 2 ==> ZeroFilled(cut[2..], 1) == [0];
      assert n == 3 ==> cut[2..] == [status];
    }
  }

  /**
   An IPv4 header frame that has lost its last byte still parses, to the right
   address and to the port with its low byte cleared.
   */
  lemma TruncatedHeader(lossy: Lossy, o: seq<byte>, port: nat)
    requires |o| == 4 && port < U16_SIZE
    ensures var h := [1] + o + ToU16(port);
      && ParseHeader(lossy, h) == Some(Target(Ipv4, PrintV4(o), port))
      && ParseHeader(lossy, QuicNext(Framed(h)[..|Framed(h)| - 1]).0) == Some(Target(Ipv4, PrintV4(o), port - port % 256))
  {
    hide PrintV4;
    var h := [1] + o + ToU16(port);
    var cut := Framed(h)[..8];
    assert cut == [0, 7, 1, o[0], o[1], o[2], o[3], port / 256];
    assert cut[..2] == [0, 7];
    var got := QuicNext(cut).0;
    assert got == [1, o[0], o[1], o[2], o[3], port / 256, 0];
    assert h[1..5] == o && got[1..5] == o;
    assert h[5..7] == ToU16(port) && got[5..7] == [(port / 256) as byte, 0];
    U16RoundTrip(port);
  }

  class QuicTunnel {
    var send: SendStream?
    var recv: RecvStream?

    constructor (send: SendStream, recv: RecvStream)
      ensures this.send == send && this.recv == recv
    {
      this.send, this.recv := send, recv;
    }

    method SendFrame(data: seq<byte>) returns (sent: bool)
      requires send != null
      modifies send`written, send`faults
      ensures !sent <==> send.faults > old(send.faults)
      ensures sent ==> send.written == old(send.written) + Framed(data)
      ensures exists part :: 0 <= part <= |Framed(data)| && send.written == old(send.written) + Framed(data)[..part]
    {
      hide ToU16;
      var prefix := ToU16(|data|);
      ghost var frame := Framed(data);
      var ok, n := send.WriteAll(prefix);
      assert frame[..n] == prefix[..n];
      if !ok { return false; }
      ghost var m: nat;
      ok, m := send.WriteAll(data);
      assert frame[..2 + m] == prefix + data[..m];
      return ok;
    }

    /** None is an I/O error here: the end of the stream is never reported. */
    method RecvFrame() returns (frame: Option<seq<byte>>)
      requires recv != null
      modifies recv`unread, recv`faults
      ensures frame.None? <==> recv.faults > old(recv.faults)
      ensures frame.Some? ==> (frame.value, recv.unread) == QuicNext(old(recv.unread))
    {
      ghost var wire := recv.unread;
      var lenBuf := new byte[2](i => 0);
      assert lenBuf[..] == Zeros(2);
      var r := ReadExactQuic(recv, lenBuf);
      if r == Broken { return None; }
      assert r == Short ==> Zeros(2)[|wire|..] == Zeros(2 - |wire|);
      assert lenBuf[..] == ZeroFilled(wire, 2) && recv.unread == Behind(wire, 2);
      var frameLen := FromU16(lenBuf[..]);
      var data := new byte[frameLen](i => 0);
      assert data[..] == Zeros(frameLen);
      ghost var rest := recv.unread;
      r := ReadExactQuic(recv, data);
      if r == Broken { return None; }
      assert r == Short ==> Zeros(frameLen)[|rest|..] == Zeros(frameLen - |rest|);
      assert data[..] == ZeroFilled(rest, frameLen) && recv.unread == Behind(rest, frameLen) == Behind(wire, 2 + frameLen);
      return Some(data[..]);
    }

    /**
     Each direction delivers a prefix of what it read, and without an I/O error
     the one that ended all of it; see the encrypted tunnel for the reading of
     `select!`.
     */
    method RelayBidirectional(external: TcpStream, sendEnds: bool) returns (ghost sent: seq<byte>, ghost delivered: seq<byte>)
      requires send != null && recv != null
      modifies this, send, recv, external
      ensures send == null && recv == null
      ensures sent <= old(external.unread) && old(send).written == old(send.written) + sent
      ensures delivered <= old(recv.unread) && external.written == old(external.written) + delivered
      ensures external.faults == old(external.faults) && old(send).faults == old(send.faults) && old(recv).faults == old(recv.faults) ==>
        if sendEnds then sent == old(external.unread) && old(send).finished else delivered == old(recv.unread)
    {
      var s, r := send, recv;
      send, recv := null, null;
      var up, down;
      up, sent := RelayExternalToQuic(external, s, !sendEnds);
      down, delivered := RelayQuicToExternal(r, external, sendEnds);
    }
  }

  /** A finished direction also ends the QUIC stream. */
  method RelayExternalToQuic(reader: TcpStream, writer: SendStream, droppable: bool := false)
    returns (ok: bool, ghost output: seq<byte>)
    modifies reader`unread, reader`faults, writer
    ensures writer.written == old(writer.written) + output && output <= old(reader.unread)
    ensures ok ==> output == old(reader.unread) && writer.finished
    ensures !ok ==> writer.finished == old(writer.finished)
    ensures reader.faults >= old(reader.faults) && writer.faults >= old(writer.faults)
    ensures !ok ==> droppable || reader.faults > old(reader.faults) || writer.faults > old(writer.faults)
  {
    output := [];
    while true
      invariant old(reader.unread) == output + reader.unread
      invariant writer.written == old(writer.written) + output && writer.finished == old(writer.finished)
      invariant reader.faults == old(reader.faults) && writer.faults == old(writer.faults)
      decreases |reader.unread|
    {
      var piece := reader.Read(QUIC_BUF, droppable);
      if piece.None? { return false, output; }
      if piece.value == [] {
        writer.Finish();
        return true, output;
      }
      ghost var before := output;
      assert old(reader.unread) == (before + piece.value) + reader.unread;
      var written, n := writer.WriteAll(piece.value, droppable);
      output := before + piece.value[..n];
      if !written {
        assert output <= before + piece.value;
        return false, output;
      }
      assert piece.value[..n] == piece.value;
    }
  }

  method RelayQuicToExternal(reader: RecvStream, writer: TcpStream, droppable: bool := false)
    returns (ok: bool, ghost output: seq<byte>)
    modifies reader`unread, reader`faults, writer`written, writer`faults
    ensures reader.faults >= old(reader.faults) && writer.faults >= old(writer.faults)
    ensures !ok ==> droppable || reader.faults > old(reader.faults) || writer.faults > old(writer.faults)
    ensures writer.written == old(writer.written) + output && output <= old(reader.unread)
    ensures ok ==> output == old(reader.unread)
  {
    output := [];
    var buf := new byte[QUIC_BUF](i => 0);
    while true
      invariant fresh(buf) && buf.Length == QUIC_BUF
      invariant reader.faults == old(reader.faults) && writer.faults == old(writer.faults)
      invariant old(reader.unread) == output + reader.unread
      invariant writer.written == old(writer.written) + output
      decreases |reader.unread|
    {
      ghost var wire := reader.unread;
      var got, n := reader.Read(buf, 0, droppable);
      if !got { return false, output; }
      if n.None? { return true, output; }
      var piece := buf[..n.value];
      assert piece == buf[0..n.value] == wire[..n.value];
      ghost var before := output;
      assert old(reader.unread) == (before + piece) + reader.unread;
      var io, m := writer.WriteAll(piece, droppable);
      output := before + piece[..m];
      if io != Done {
        assert output <= before + piece;
        return false, output;
      }
      assert piece[..m] == piece;
    }
  }
}
