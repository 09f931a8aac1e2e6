/** The server side of a session: header in, connect, status out, relay. */
module TunnelServer {
  import opened Bytes
  import opened Streams
  import opened Frames
  import opened IpText
  import opened Protocol
  import opened Tunnels

  const STATUS_CONNECTED: byte := 0x00
  const STATUS_REFUSED: byte := 0x05

  /** Which targets can be connected to: the outcome of `TcpStream::connect`. */
  type Network = (Text, nat) -> bool

  function StatusFor(network: Network, t: Target): (status: byte)
    ensures status == STATUS_CONNECTED <==> network(t.address, t.port)
  {
    if network(t.address, t.port) then STATUS_CONNECTED else STATUS_REFUSED
  }

  /** A header came, and it names a target. */
  predicate Named(lossy: Lossy, header: FrameResult) {
    header.Frame? && ParseHeader(lossy, header.plaintext).Some?
  }

  /** The header names a target that can be connected to. */
  predicate Reaches(lossy: Lossy, network: Network, header: FrameResult) {
    && Named(lossy, header)
    && var t := ParseHeader(lossy, header.plaintext).value; network(t.address, t.port)
  }

  /**
   `remote` is the connection that `connect` yields when the target can be
   reached. The relay runs on it, once, exactly when it was and the status 0 has
   gone out.
   */
  method RunTunnelServer(tunnel: Tunnel, lossy: Lossy, network: Network, remote: TcpStream) returns (relayed: bool)
    requires tunnel.Fresh()
    modifies tunnel, remote
    ensures |tunnel.received| == 1 && tunnel.sent ==
      if !Named(lossy, tunnel.received[0]) then []
      else [[if Reaches(lossy, network, tunnel.received[0]) then 0x00 else 0x05]]
    ensures relayed <==> Reaches(lossy, network, tunnel.received[0]) && tunnel.outcomes == [true]
    ensures tunnel.relays == if relayed then [remote] else []
    ensures !relayed ==> remote.written == old(remote.written) && remote.unread == old(remote.unread)
  {
    hide ParseHeader;
    var header := tunnel.RecvFrame();
    if !header.Frame? { return false; }
    var target := ParseHeader(lossy, header.plaintext);
    if target.None? { return false; }
    if !network(target.value.address, target.value.port) {
      var _ := tunnel.SendFrame([STATUS_REFUSED]);
      return false;
    }
    var ok := tunnel.SendFrame([STATUS_CONNECTED]);
    assert tunnel.outcomes[0] == ok;
    if !ok { return false; }
    tunnel.RelayBidirectional(remote);
    return true;
  }
}
