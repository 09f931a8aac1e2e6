/**
 A TCP connection as this program sees it. Arrival is nondeterministic: a read
 yields any non-empty piece of what the peer still has to deliver, a write may
 stop after any prefix, and either may fail. Every failure is counted as a
 fault; the only other reason to stop short is that `select!` drops the caller
 at an await, which is possible where `droppable` says so.
 */
module Streams {
  import opened Bytes

  datatype IoStatus = Done | Eof | Failed

  class TcpStream {
    var unread: seq<byte>   // what will still arrive before end-of-stream
    var written: seq<byte>  // what has been handed over for sending
    ghost var faults: nat   // reads and writes that failed

    constructor (incoming: seq<byte>)
      ensures unread == incoming && written == [] && faults == 0
    {
      unread, written := incoming, [];
      faults := 0;
    }

    /** `read`: an empty piece means end-of-stream, None an I/O error or a drop. */
    method Read(max: nat, droppable: bool := false) returns (piece: Option<seq<byte>>)
      requires max > 0
      modifies this`unread, this`faults
      ensures piece.None? ==> unread == old(unread)
      ensures piece.Some? ==> old(unread) == piece.value + unread && |piece.value| <= max
      ensures piece.Some? ==> (piece.value == [] <==> old(unread) == [])
      ensures faults >= old(faults) && (piece.Some? ==> faults == old(faults))
      ensures piece.None? ==> droppable || faults > old(faults)
    {
      var dropped: bool := *;
      if droppable && dropped {
        return None;
      }
      var fails: bool := *;
      if fails {
        faults := faults + 1;
        return None;
      }
      if unread == [] {
        return Some([]);
      }
      var n: nat :| 1 <= n <= max && n <= |unread|;
      piece := Some(unread[..n]);
      unread := unread[n..];
    }

    /** `read_exact(&mut buf[..n])`, tokio's loop over partial reads. */
    method ReadExact(buf: array<byte>, n: nat, droppable: bool := false) returns (status: IoStatus)
      requires n <= buf.Length
      modifies this`unread, this`faults, buf
      ensures status == Done ==> n <= |old(unread)| && buf[..n] == old(unread)[..n] && unread == old(unread)[n..]
      ensures status == Eof ==> |old(unread)| < n && unread == []
      ensures status == Failed ==> exists i :: 0 <= i <= |old(unread)| && unread == old(unread)[i..]
      ensures buf[n..] == old(buf[n..])
      ensures faults >= old(faults) && (status != Failed ==> faults == old(faults))
      ensures status == Failed ==> droppable || faults > old(faults)
    {
      var offset := 0;
      while offset < n
        invariant 0 <= offset <= n && offset <= |old(unread)|
        invariant buf[..offset] == old(unread)[..offset]
        invariant unread == old(unread)[offset..]
        invariant buf[n..] == old(buf[n..])
        invariant faults == old(faults)
      {
        var piece := Read(n - offset, droppable);
        if piece.None? {
          return Failed;
        }
        if piece.value == [] {
          return Eof;
        }
        ghost var before := buf[..offset];
        forall k | 0 <= k < |piece.value| {
          buf[offset + k] := piece.value[k];
        }
        assert buf[..offset] == before;
        offset := offset + |piece.value|;
      }
      return Done;
    }

    /** `write_all`: `sent` bytes of the data left before it succeeded or failed. */
    method WriteAll(data: seq<byte>, droppable: bool := false) returns (status: IoStatus, ghost sent: nat)
      modifies this`written, this`faults
      ensures sent <= |data| && written == old(written) + data[..sent]
      ensures status != Eof && (status == Done <==> sent == |data|)
      ensures faults >= old(faults) && (status != Failed ==> faults == old(faults))
      ensures status == Failed ==> droppable || faults > old(faults)
    {
      var offset := 0;
      while offset < |data|
        invariant 0 <= offset <= |data|
        invariant written == old(written) + data[..offset] && faults == old(faults)
      {
        var dropped: bool := *;
        if droppable && dropped {
          return Failed, offset;
        }
        var fails: bool := *;
        if fails {
          faults := faults + 1;
          return Failed, offset;
        }
        var n: nat :| 1 <= n <= |data| - offset;
        assert data[..offset] + data[offset..offset + n] == data[..offset + n];
        written := written + data[offset..offset + n];
        offset := offset + n;
      }
      return Done, offset;
    }
  }
}
