/**
 The tunnel as the client and the server use it, with any behaviour at all: a
 frame may fail to go out, and what comes in is arbitrary.
 */
module Tunnels {
  import opened Bytes
  import opened Streams
  import opened Frames

  class Tunnel {
    ghost var sent: seq<seq<byte>>         // frames handed to send_frame, in order
    ghost var outcomes: seq<bool>          // whether each of them went out
    ghost var received: seq<FrameResult>   // results of recv_frame, in order
    ghost var relays: seq<TcpStream>       // streams that a relay was started with

    /** Nothing has been done with the tunnel yet. */
    ghost predicate Fresh()
      reads this
    {
      sent == [] && outcomes == [] && received == [] && relays == []
    }

    method SendFrame(data: seq<byte>) returns (ok: bool)
      modifies this
      ensures sent == old(sent) + [data] && outcomes == old(outcomes) + [ok]
      ensures received == old(received) && relays == old(relays)
    {
      ok := *;
      sent, outcomes := sent + [data], outcomes + [ok];
    }

    method RecvFrame() returns (result: FrameResult)
      modifies this
      ensures received == old(received) + [result]
      ensures sent == old(sent) && outcomes == old(outcomes) && relays == old(relays)
    {
      result := *;
      received := received + [result];
    }

    method RelayBidirectional(external: TcpStream)
      modifies this`relays, external
      ensures relays == old(relays) + [external]
      ensures old(external.written) <= external.written && external.faults >= old(external.faults)
    {
      relays := relays + [external];
      var piece: seq<byte> := *;
      external.written := external.written + piece;
      external.unread := *;
      ghost var failed: nat :| failed >= 0;
      external.faults := external.faults + failed;
    }
  }
}
