/** The tunnel without encryption: framed setup, then raw bytes on the same stream. */
module PlainTunnels {
  import opened Bytes
  import opened Streams
  import opened Frames

  /** The buffer of tokio's `copy`. */
  const COPY_BUF: nat := 8192

  /** One `recv_frame` of the plain tunnel on a wire that holds exactly `wire` before its end. */
  function PlainNext(wire: seq<byte>): (FrameResult, seq<byte>) {
    if |wire| < 2 then (Closed, [])
    else
      var len := FromU16(wire[..2]);
      if |wire| < 2 + len then (Error(Truncated), [])
      else (Frame(wire[2..2 + len]), wire[2 + len..])
  }

  /**
   The length is cast to u16 unchecked. A frame is read back, and nothing behind
   it is touched, exactly when its length survives the cast.
   */
  lemma PlainFramingExact(data: seq<byte>, tail: seq<byte>)
    ensures PlainNext(Framed(data) + tail) == (Frame(data), tail) <==> |data| < U16_SIZE
  {
    var w := Framed(data) + tail;
    U16RoundTrip(|data|);
    assert w[..2] == ToU16(|data|);
    if |data| < U16_SIZE {
      FramedHead(data, tail);
    }
  }

  class PlainTunnel {
    var stream: TcpStream?

    constructor (stream: TcpStream)
      ensures this.stream == stream
    {
      this.stream := stream;
    }

    method SendFrame(data: seq<byte>) returns (sent: bool)
      requires stream != null
      modifies stream`written, stream`faults
      ensures !sent <==> stream.faults > old(stream.faults)
      ensures sent ==> stream.written == old(stream.written) + Framed(data)
      ensures exists part :: 0 <= part <= |Framed(data)| && stream.written == old(stream.written) + Framed(data)[..part]
    {
      hide ToU16;
      var prefix := ToU16(|data|);
      ghost var frame := Framed(data);
      var io, n := stream.WriteAll(prefix);
      assert frame[..n] == prefix[..n];
      if io != Done { return false; }
      ghost var m: nat;
      io, m := stream.WriteAll(data);
      assert frame[..2 + m] == prefix + data[..m];
      if io != Done { return false; }
      return true;
    }

    method RecvFrame() returns (result: FrameResult)
      requires stream != null
      modifies stream`unread, stream`faults
      ensures result == Error(IoError) <==> stream.faults > old(stream.faults)
      ensures result != Error(IoError) ==> (result, stream.unread) == PlainNext(old(stream.unread))
    {
      ghost var wire := stream.unread;
      var lenBuf := new byte[2];
      var io := stream.ReadExact(lenBuf, 2);
      if io == Eof { return Closed; }
      if io == Failed { return Error(IoError); }
      assert lenBuf[..] == lenBuf[..2] == wire[..2];
      var frameLen := FromU16(lenBuf[..]);
      var data := new byte[frameLen];
      io := stream.ReadExact(data, frameLen);
      if io == Eof { return Error(Truncated); }
      if io == Failed { return Error(IoError); }
      assert data[..] == data[..frameLen] == wire[2..2 + frameLen];
      assert stream.unread == wire[2 + frameLen..];
      return Frame(data[..]);
    }

    /**
     Raw bytes from here on: no length, no marker. Each side delivers a prefix of
     what it read, in order, and without an I/O error the side that ended all of
     it; see the encrypted tunnel for the reading of `select!`.
     */
    method RelayBidirectional(external: TcpStream, sendEnds: bool) returns (ghost sent: seq<byte>, ghost delivered: seq<byte>)
      requires stream != null && external != stream
      modifies this`stream, stream, external
      ensures stream == null
      ensures sent <= old(external.unread) && old(stream).written == old(stream.written) + sent
      ensures delivered <= old(stream.unread) && external.written == old(external.written) + delivered
      ensures external.faults == old(external.faults) && old(stream).faults == old(stream.faults) ==>
        if sendEnds then sent == old(external.unread) else delivered == old(stream.unread)
    {
      var s := stream;
      stream := null;
      var up, down;
      up, sent := Copy(external, s, !sendEnds);
      down, delivered := Copy(s, external, sendEnds);
    }
  }

  /** `tokio::io::copy`. */
  method Copy(reader: TcpStream, writer: TcpStream, droppable: bool := false) returns (finished: bool, ghost output: seq<byte>)
    requires reader != writer
    modifies reader`unread, reader`faults, writer`written, writer`faults
    ensures reader.faults >= old(reader.faults) && writer.faults >= old(writer.faults)
    ensures !finished ==> droppable || reader.faults > old(reader.faults) || writer.faults > old(writer.faults)
    ensures writer.written == old(writer.written) + output
    ensures output <= old(reader.unread)
    ensures finished ==> output == old(reader.unread) && reader.unread == []
    ensures |reader.unread| + |output| <= |old(reader.unread)|
  {
    output := [];
    while true
      invariant old(reader.unread) == output + reader.unread
      invariant writer.written == old(writer.written) + output
      invariant reader.faults == old(reader.faults) && writer.faults == old(writer.faults)
      decreases |reader.unread|
    {
      var piece := reader.Read(COPY_BUF, droppable);
      if piece.None? {
        return false, output;
      }
      if piece.value == [] {
        return true, output;
      }
      ghost var before := output;
      assert old(reader.unread) == (before + piece.value) + reader.unread;
      var io, n := writer.WriteAll(piece.value, droppable);
      output := before + piece.value[..n];
      if io != Done {
        assert output <= before + piece.value;
        return false, output;
      }
      assert piece.value[..n] == piece.value;
    }
  }
}
