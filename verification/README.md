# Verified model of the vs-vpn tunnel protocol

A Dafny model of one tunnelled SOCKS5 session, from the first handshake byte to
the end of the relay, with both endpoints running as interleaved steps over byte
channels; of the frame layer, the address codec, the three tunnels and the two
endpoints as they are programmed; and of the Android log pipeline and proxy
session. `dafny verify dfyconfig.toml` checks everything.

## How it is built

**Frames and tunnels.** `Bytes` and `Aead` hold fixed-width integers and the
cipher and key derivation. The cipher is any pair of functions obeying two laws
(a ciphertext is 16 bytes longer and opens again; within one session a
ciphertext under another nonce or the other key does not open);
`Aead.WitnessIsLawful` exhibits one that does. `Frames` says what frames look
like on a wire and what a receiver makes of *any* wire. `Streams` is the
environment: reads yield any non-empty piece, writes may stop after any prefix,
both may fail, and failures are counted, so that every error answer is tied to one. `Crypto`, `EncryptedTunnels`, `PlainTunnels` and `QuicTunnels` are
the imperative code over such streams: loops over partial reads, counters,
fields that are taken when the relay starts.

**Text.** `IpText` holds the std::net readers and the repository's printers,
`Protocol` the address and header codec, `HostPort` the `host:port` split.

**Endpoints.** `SocksClient` and `TunnelServer` are the two endpoints over a
tunnel with arbitrary behaviour (`Tunnels`).

**The session.** `Lanes` is one direction, sender, network and receiver, moved a
byte at a time; `Session` is the state machine of both endpoints and both
directions over the plain or the encrypted tunnel, with I/O errors at any byte
and closed connections losing any suffix. `LaneProofs.BytewiseRead` and
`LaneProofs.BytewisePlainRead` tie its byte moves to the frame readers.
`SessionInvariant` proves the invariant of every reachable state,
`SessionTheorems` what follows from it, `SessionProgress` and `SessionOutcome`
that setup always moves on, ends, and how, `RelayOutcome` that the relay can
then deliver everything, and `PlainRuns` and `Refinement` that the plain tunnel
can follow every failure-free run of the encrypted one.

**Android.** `LogPipeline` and `ProxySession`.

## Where the code is weaker than the obvious claim

Each is a lemma with the exact condition or a concrete input.

- A lone trailing byte is a clean end of stream: `Frames.CutWire`.
- The counter moves only behind a complete write, so nonces stay unique exactly
  when callers stop at the first failed one: `EncryptedTunnels.NonceUniqueIff`.
- The domain length is cut to a u8; the target survives exactly when the decoded
  name has at most 255 bytes. 86 undecodable bytes are a request for which it
  does not: `Protocol.EndToEndTarget`, `SocksClient.GarbledRequestLost`.
- The plain and QUIC frame length is cut to a u16:
  `PlainTunnels.PlainFramingExact`.
- The `Tunnel` trait documents that `None` means the end of the stream. The QUIC
  tunnel never returns it and fills a truncated frame with zeros; it agrees with
  the plain one exactly on streams that begin with a whole frame, and a status
  frame that ends behind its length reads as success:
  `QuicTunnels.QuicAgreesWithPlain`, `QuicTunnels.QuicTruncated`,
  `QuicTunnels.QuicEndOfStream`, `QuicTunnels.CutStatus`,
  `QuicTunnels.TruncatedHeader`.
- Rust and Kotlin disagree on which lines are blank:
  `LogPipeline.KeptButBlank`, `LogPipeline.DisagreeOnBlank`,
  `LogPipeline.WindowIsTail`.

## Model

| member | source | states |
|---|---|---|
| Aead.NonceInjective | feature/tunnel/tcp-encrypted/src/crypto.rs:83-84 | two counters share a 96-bit nonce exactly when they are the same u64 |
| Aead.NonceLayout | feature/tunnel/tcp-encrypted/src/crypto.rs:83-84 | eight bytes of rising weight that add up to the counter, then four zeros |
| Aead.HkdfInfoInjective | feature/tunnel/tcp-encrypted/src/crypto.rs:36-38 | handshakes with different nonce pairs ask HKDF for different outputs |
| Aead.KeysAreHalves | feature/tunnel/tcp-encrypted/src/crypto.rs:34-45 | client key and server key, in this order, are the 64 bytes HKDF yields for the constant, the client's nonce and the server's; they differ exactly when the halves do |
| Aead.WitnessIsLawful | feature/tunnel/tcp-encrypted/src/crypto.rs:86-90 | the laws assumed of the cipher can all be met together |
| Streams.TcpStream.ReadExact | feature/tunnel/tcp-encrypted/src/crypto.rs:106 | whatever the partial reads: exactly the next n bytes, or the end of the stream when there are fewer; a failure only where a read failed or the caller was dropped |
| Streams.TcpStream.WriteAll | feature/tunnel/tcp-encrypted/src/crypto.rs:93-94 | a prefix of the data goes out, all of it exactly on success; a failure only where a write failed or the caller was dropped |
| Crypto.SecureHandshake | feature/tunnel/tcp-encrypted/src/crypto.rs:48-67 | each side sends its nonce, the server only behind the client's, consumes exactly the peer's 32 bytes, and gets the two halves of what HKDF yields for the constant, the client's nonce and the server's; it fails only by an I/O error or the end of the stream |
| Crypto.WriteEncryptedFrame | feature/tunnel/tcp-encrypted/src/crypto.rs:69-98 | a prefix of the sealed frame goes out, on success the two length bytes and the ciphertext; success, and the counter's step, come exactly with the last byte; too large exactly above 65519 bytes, a failed write only by an I/O error; every call of encrypt is reported with its key and nonce |
| Crypto.ReadEncryptedFrame | feature/tunnel/tcp-encrypted/src/crypto.rs:100-131 | unless a read failed, result and consumption are NextFrame of the wire; the counter moves exactly with an accepted frame |
| Frames.FramedLayout | feature/tunnel/tcp-encrypted/src/crypto.rs:92-94 | a frame is its length, most significant byte first, and its body |
| Crypto.SealedOneMore | feature/tunnel/tcp-encrypted/src/crypto.rs:148-150 | writing one more chunk, or part of it, extends the frames on the wire and the counter accordingly |
| Crypto.RelayPlainToEncrypted | feature/tunnel/tcp-encrypted/src/crypto.rs:133-152 | for every way the reads fall: the wire holds the frames of the chunks read, in order, the last possibly cut; nothing of the source is lost; one encryption for each chunk, under consecutive nonces; the size error never occurs, and without an I/O error or a drop everything is sent |
| Crypto.ReceiveStep | feature/tunnel/tcp-encrypted/src/crypto.rs:161-170 | each result of the frame reader continues the delivery of the whole wire, u64 wrap-around included |
| Crypto.RelayEncryptedToPlain | feature/tunnel/tcp-encrypted/src/crypto.rs:154-172 | without an I/O error or a drop, the output and the kind of ending are exactly those of Receive; otherwise the output is a prefix |
| Frames.FrameStreamLength | feature/tunnel/tcp-encrypted/src/crypto.rs:92-94 | n frames take the sum of their plaintext lengths plus 18 bytes each |
| Frames.WholeFramesMeaning | feature/tunnel/tcp-encrypted/src/crypto.rs:105-118 | the count of whole frames in a cut wire: those fit and the next does not |
| Frames.CutWire | feature/tunnel/tcp-encrypted/src/crypto.rs:105-130 | an honest wire cut at any byte delivers exactly the whole frames, and ends cleanly exactly when 0 or 1 bytes are left over |
| Frames.ReceiveFrameStream | feature/tunnel/tcp-encrypted/src/crypto.rs:160-171 | the whole wire gives back every frame |
| Frames.TamperedWire | feature/tunnel/tcp-encrypted/src/crypto.rs:125-127 | for items of any origin, each the sender's own for its place or one that does not open or is shorter than a tag: the sender's plaintexts up to the first wrong one, then an error; a clean end only if there is none |
| Frames.AnyWire | feature/tunnel/tcp-encrypted/src/crypto.rs:105-130 | for every byte string, cut inside a frame or not, whose whole bodies are each the sender's own for their place or do not open: delivered is what was sent up to the first wrong body, its frames are the front of the wire, and the end is clean exactly when at most one byte stands behind them |
| Frames.OtherSessionFrameRejected | feature/tunnel/tcp-encrypted/src/crypto.rs:120-127 | a frame of the other direction or of another counter does not open |
| Frames.MixedSessionFrames | feature/tunnel/tcp-encrypted/src/crypto.rs:120-130 | frames of either direction of a session dropped, repeated, reordered or reflected: delivered is what was sent up to the first place that holds another direction's or counter's frame, with a clean end exactly when there is no such place |
| Frames.MixedAndCut | feature/tunnel/tcp-encrypted/src/crypto.rs:105-130 | the same with the wire cut at any byte: only the frames that came whole count, and the end is clean exactly when at most one byte stands behind the accepted ones |
| Frames.ChunkingIndependence | feature/tunnel/tcp-encrypted/src/crypto.rs:139-171 | however the source is cut into reads, sealing and receiving is the identity on its bytes, and every chunk fits a frame |
| EncryptedTunnels.EncryptedTunnel.constructor | feature/tunnel/tcp-encrypted/src/lib.rs:21-36 | keys and role are kept, both counters start at 0 and no nonce is spent |
| EncryptedTunnels.EncryptedTunnel.New | feature/tunnel/tcp-encrypted/src/lib.rs:21-36 | the handshake, then a tunnel with its keys, role and fresh counters; none only by an I/O error or the end of the stream |
| EncryptedTunnels.EncryptedTunnel.SendFrame | feature/tunnel/tcp-encrypted/src/lib.rs:41-48 | the frame goes out under the role's own key and counter, which is logged as spent; the receiving counter stays; a failed write only by an I/O error |
| EncryptedTunnels.EncryptedTunnel.RecvFrame | feature/tunnel/tcp-encrypted/src/lib.rs:50-57 | unless a read failed, NextFrame under the peer's key and counter; the sending counter stays |
| EncryptedTunnels.EncryptedTunnel.RelayBidirectional | feature/tunnel/tcp-encrypted/src/lib.rs:59-98 | the stream is gone for good; the encryptions made, logged as they happen, continue the counter and repeat no nonce; each direction carries over a prefix, and without an I/O error the one that ended everything |
| EncryptedTunnels.PairedKeys | feature/tunnel/tcp-encrypted/src/lib.rs:43-81 | of two ends of a session each sends under the key the other receives under, the client under the client key |
| EncryptedTunnels.Exchange | feature/tunnel/tcp-encrypted/src/lib.rs:41-57 | either way, what one end sends is what the other receives, anything behind it stays, and the counters keep step |
| EncryptedTunnels.NonceLogContinues | feature/tunnel/tcp-encrypted/src/lib.rs:71-84 | the nonces of the relay, counted from where the setup frames left the counter, go on with the log of the tunnel |
| EncryptedTunnels.NoNonceReuse | feature/tunnel/tcp-encrypted/src/crypto.rs:83-96 | the nonces of one key are distinct exactly up to 2^64 frames |
| EncryptedTunnels.FailedCallRepeats | feature/tunnel/tcp-encrypted/src/crypto.rs:93-96 | a call behind a failed write spends the same nonce again |
| EncryptedTunnels.NonceUniqueIff | feature/tunnel/tcp-encrypted/src/crypto.rs:83-96 | over any calls with any outcomes, nonces are unique exactly when no call follows a failed one and there are at most 2^64 |
| PlainTunnels.PlainFramingExact | feature/tunnel/tcp-plain/src/lib.rs:23-43 | a plain frame is read back, and nothing behind it touched, exactly when its length fits a u16 |
| PlainTunnels.PlainTunnel.SendFrame | feature/tunnel/tcp-plain/src/lib.rs:23-29 | a prefix of length and data, all of it on success; a failure only by an I/O error |
| PlainTunnels.PlainTunnel.RecvFrame | feature/tunnel/tcp-plain/src/lib.rs:31-43 | unless a read failed, PlainNext of the wire |
| PlainTunnels.PlainTunnel.RelayBidirectional | feature/tunnel/tcp-plain/src/lib.rs:45-68 | the stream is gone; each direction carries over a prefix, unframed, and without an I/O error the one that ended everything |
| PlainTunnels.Copy | feature/tunnel/tcp-plain/src/lib.rs:54-60 | the output is a prefix of the input, all of it unless an I/O error or a drop came first |
| IpText.V4RoundTrip | lib/src/protocol.rs:65-87 | the printed octets of every IPv4 address parse to it |
| IpText.V4Canonical | lib/src/protocol.rs:86-87 | only canonical dotted decimal parses as IPv4 |
| IpText.V6RoundTrip | lib/src/protocol.rs:75-89 | the printed groups of every IPv6 address parse to it, and never as IPv4 |
| IpText.FullV6 | lib/src/protocol.rs:88-89 | eight groups of one to four digits parse to their values, and never as IPv4 |
| IpText.CompressedV6 | lib/src/protocol.rs:88-89 | a text of one-to-four-digit groups with its zero groups compressed parses to the octets it stands for, and never as IPv4 |
| IpText.MixedV6 | lib/src/protocol.rs:88-89 | six groups and an IPv4 address at the end parse to their octets |
| IpText.CompressedMixedV6 | lib/src/protocol.rs:88-89 | the same with a double colon for the zero groups |
| IpText.V6Text | lib/src/protocol.rs:77-80 | group k of a printed address stands at place 5k, behind a colon, with the value of its two octets |
| IpText.WrittenAddresses | lib/src/protocol.rs:65-80 | 127.0.0.1 and the start of 2001:0db8:0000:0000:0000:0000:0000:0001, character by character |
| IpText.ReadAddresses | lib/src/protocol.rs:88-89 | 2001:db8::1 is read as its sixteen octets |
| Protocol.AddressTypeFromU8 | lib/src/protocol.rs:16-23 | 1, 3 and 4 are the address types and nothing else is |
| Protocol.PrintedDestination | lib/src/protocol.rs:59-97 | printed addresses lead where their octets do |
| Protocol.HeaderLayout | lib/src/client.rs:156-160 | the header byte by byte: type, octets or a name behind its length, and the port most significant byte first |
| Protocol.HeaderReading | lib/src/protocol.rs:99-142 | type, address and port of any header are read whatever stands behind them; cut anywhere or of another type it is refused |
| Protocol.TargetPreserved | lib/src/protocol.rs:85-142 | the server always reads the client's header, and reads the same destination and port exactly when a name is at most 255 bytes; IPv4 and names come back as the same text |
| Protocol.EndToEndTarget | lib/src/protocol.rs:59-142 | for every SOCKS address, byte string and port: the parsed header names the requested destination exactly when the decoded name is at most 255 bytes, names that are IP literals included |
| Protocol.HeaderNormalises | lib/src/protocol.rs:85-142 | encoding the parsed address again gives the same type and bytes, and a second round changes nothing |
| Protocol.HeaderFits | lib/src/client.rs:156-160 | the header of any request fits one frame of every tunnel |
| Protocol.WitnessLossyIsLawful | lib/src/protocol.rs:73 | the laws assumed of lossy decoding can all be met together |
| Protocol.GarbledName | lib/src/protocol.rs:91-95 | 86 undecodable bytes as a name: the header carries a length of 2, and the server reads another name and the port 0xBDEF |
| Protocol.LongNameLost | lib/src/protocol.rs:91-95 | a name of 256 bytes reaches the server as the empty name |
| Protocol.ReadAddress | lib/src/protocol.rs:59-83 | unless a read failed, consumes exactly the address and returns its text, or meets the end of the stream |
| Protocol.TakesItsBytes | lib/src/protocol.rs:59-83 | the address in front of anything is taken in its own byte order, and no more; cut short it is not |
| SocksClient.ReplyFor | lib/src/client.rs:191-216 | success for status 0 and for no other, the same code for statuses 1 to 5, general failure for the rest |
| SocksClient.AcceptedRequest | lib/src/client.rs:117-150 | an accepted request names an address of its type's size and stays within the input; any refusal is well-formed output |
| SocksClient.RequestReachesServer | lib/src/client.rs:117-160 | from the bytes of the conversation to the server: the request that stands in them is accepted with its address and port, the relay starts right behind it, and the server reads that destination and port exactly when a decoded name has at most 255 bytes |
| SocksClient.RequestRefused | lib/src/client.rs:121-145 | without the method 05 FF, with another command 05 00 and reply 7, with another address type 05 00 |
| SocksClient.ConversationCut | lib/src/client.rs:117-149 | a conversation cut anywhere is refused, with 05 00 exactly if the greeting was whole |
| SocksClient.GarbledRequestLost | lib/src/client.rs:117-160 | a whole SOCKS conversation that the client accepts and whose name and port the server then misreads |
| SocksClient.Negotiate | lib/src/client.rs:117-130 | the greeting is consumed exactly and answered by 05 00 or 05 FF, possibly cut |
| SocksClient.ReadRequest | lib/src/client.rs:133-150 | the request is consumed exactly; only an unsupported command is answered here |
| SocksClient.HandleSocksClient | lib/src/client.rs:111-167 | for every input and tunnel: what is written before the relay is a prefix of nothing, 05 FF, 05 00, or 05 00 and one 10-byte reply, and is determined by input and status; an accepted request sends exactly its header; the relay is started, once and on this connection, exactly behind a header that went out, status 0 and an unbroken success reply, from exactly the bytes behind the request; every index stays in the 512-byte buffer |
| SocksClient.RunTunnelClient | lib/src/client.rs:171-228 | one header out, a status in exactly if it went out; the relay is started, once and on this connection, exactly behind status 0 and an unbroken success reply |
| TunnelServer.RunTunnelServer | lib/src/server.rs:63-86 | one frame in; no status for a header that is missing or does not parse, otherwise 00 if the connect succeeds and 05 if not; the relay is started, once and on that connection, exactly when status 00 has gone out |
| LaneProofs.BytewiseRead | feature/tunnel/tcp-encrypted/src/crypto.rs:105-118 | inspecting a read after every byte reaches the frame reader's verdict at the same byte |
| LaneProofs.BytewisePlainRead | feature/tunnel/tcp-plain/src/lib.rs:33-42 | the same for plain frames |
| LaneProofs.SealedInspect | feature/tunnel/tcp-encrypted/src/crypto.rs:111-130 | in a session a reader never meets a short frame, and every whole frame opens to the payload sent next |
| LaneProofs.PlainInspect | feature/tunnel/tcp-plain/src/lib.rs:33-42 | the one framed message ends where its length says, with relay bytes right behind it |
| LaneProofs.NothingInFlight | feature/tunnel/tcp-encrypted/src/crypto.rs:105-110 | with every frame accepted, no byte is on its way |
| SessionInvariant.StepKeepsInv | lib/src/client.rs:171-228 | every action of either party, failures and losses included, keeps the session invariant |
| SessionInvariant.ReachableInv | lib/src/client.rs:111-228 | the invariant holds in every reachable state of every session |
| SessionTheorems.SealedAccount | feature/tunnel/tcp-encrypted/src/crypto.rs:133-172 | bytes read are bytes delivered, buffered and in flight; the counters differ by the whole frames underway |
| SessionTheorems.EncryptedDelivery | feature/tunnel/tcp-encrypted/src/lib.rs:41-98 | that account holds in every reachable state of an encrypted session, in both directions, and what is read is a prefix of what the application or remote host sends |
| SessionTheorems.DrainedIsComplete | feature/tunnel/tcp-encrypted/src/lib.rs:83-97 | over either tunnel, a direction whose source was written out whole and whose receiver drained it has delivered everything the application sent behind its request, or the remote host sent |
| SessionTheorems.HandoverExact | lib/src/client.rs:118-220 | over either tunnel: header and status are exactly the first frames, and delivered bytes are a prefix of those right behind the request or from the remote host |
| SessionTheorems.NoncesNeverRepeat | feature/tunnel/tcp-encrypted/src/crypto.rs:83-96 | over a whole run of both endpoints, failures and cancellation included, no key and nonce are used twice exactly as long as at most 2^64 frames go each way and, once both have encrypted, the two halves of the HKDF output differ |
| SessionTheorems.KeysDiffer | feature/tunnel/tcp-encrypted/src/crypto.rs:34-45 | a session's keys are the halves of what HKDF yields for its nonces, and differ exactly when those do |
| SessionTheorems.RolesAsInTunnel | feature/tunnel/tcp-encrypted/src/lib.rs:43-81 | the session machine gives the parties the keys that the two tunnel ends use |
| SessionTheorems.KeysAgreeCrossed | feature/tunnel/tcp-encrypted/src/lib.rs:41-81 | both ends hold equal keys, and each sends under the key the other receives under |
| SessionTheorems.ReplySound | lib/src/client.rs:182-216 | the application is told success only if the server parsed this session's header and connected to its target, which is the one asked for whenever a name has at most 255 bytes |
| SessionProgress.SetupMoves | lib/src/client.rs:163-217 | every setup action decreases a natural measure and no relay action increases it |
| SessionOutcome.CleanFinish | lib/src/server.rs:64-83 | without failures nobody meets the end of the stream before the relay |
| SessionOutcome.NoDeadlock | feature/tunnel/tcp-encrypted/src/crypto.rs:56-66 | no reachable state, behind failures too, has setup unfinished and no setup action possible |
| SessionOutcome.MaximalSetupIsDone | lib/src/client.rs:163-217 | where no setup action is possible, each party relays or has finished |
| SessionOutcome.SetupTerminates | lib/src/client.rs:163-217 | a failure-free run takes at most as many setup actions as there is setup work |
| SessionOutcome.SetupCanFinish | lib/src/client.rs:163-217 | every failure-free run can be continued, by setup actions only, to a finished setup |
| SessionOutcome.EndsEarly | lib/src/client.rs:182-216 | without failures a party of an accepted session ends before its relay only when the connect failed |
| SessionOutcome.OverAfterRelay | lib/src/server.rs:71-83 | where the connect succeeded, a party that relays or is over was relaying at some point of the run |
| RelayOutcome.RelayCanFinish | feature/tunnel/tcp-encrypted/src/lib.rs:83-97 | every failure-free run with both parties relaying can go on, by moves of the relay only, until both sides were given everything the other sends |
| RelayOutcome.SessionCanComplete | lib/src/client.rs:111-228 | for every accepted request some failure-free run from the first byte has the header parsed and, if the target can be reached, tells success and delivers everything both ways |
| RelayOutcome.EndsWhenDone | feature/tunnel/tcp-encrypted/src/lib.rs:83-97 | without failures a party of a connected session that is over has handed over all it had to send, or its peer has ended and all that came was written out |
| RelayOutcome.FirstToEnd | feature/tunnel/tcp-encrypted/src/lib.rs:83-97 | where one party alone has ended, everything it had to send was read and written to the tunnel |
| SessionOutcome.SetupOutcome | lib/src/server.rs:63-83 | a finished failure-free setup: refused without a server, or answered, byte for byte, by the server's connect; with success both parties have been relaying, and still are if only setup actions were taken; with a failure both are finished |
| PlainRuns.AbsorbFrame | feature/tunnel/tcp-plain/src/lib.rs:33-42 | reading a plain frame byte by byte consumes exactly its bytes and opens its payload |
| PlainRuns.PumpAll | feature/tunnel/tcp-plain/src/lib.rs:54 | copying k bytes one at a time puts exactly those k bytes on the wire |
| Refinement.EofWhole | feature/tunnel/tcp-encrypted/src/crypto.rs:105-110 | at the end of an encrypted wire every frame written whole was accepted |
| Refinement.SimStep | feature/tunnel/tcp-encrypted/src/lib.rs:41-98 | each failure-free action of the encrypted session is matched by actions of the plain one that keep the two states related |
| Refinement.EncryptedRefinesPlain | lib/src/client.rs:171-228 | every failure-free encrypted run is matched by a plain run with the same application, remote host and connect outcome and the same reply, target and delivered bytes both ways |
| QuicTunnels.ReadExactQuic | feature/tunnel/quic/src/lib.rs:211-221 | terminates; for all partial reads the buffer holds exactly the next bytes, or at the end all remaining ones in front of its old contents; an error only where a read failed |
| QuicTunnels.QuicAgreesWithPlain | feature/tunnel/quic/src/lib.rs:44-52 | receives what the plain tunnel does exactly on streams that begin with a whole frame |
| QuicTunnels.QuicTruncated | feature/tunnel/quic/src/lib.rs:47-50 | a truncated frame is received as sent exactly when all missing bytes were zeros |
| QuicTunnels.QuicEndOfStream | feature/tunnel/quic/src/lib.rs:44-52 | the end of the stream reads as an empty frame, which the server rejects; a status frame without its body reads as status 0 |
| QuicTunnels.CutStatus | feature/tunnel/quic/src/lib.rs:44-52 | a status frame cut anywhere reads as success exactly when only its body is missing, or when it is whole and was one |
| QuicTunnels.TruncatedHeader | feature/tunnel/quic/src/lib.rs:49-51 | an IPv4 header without its last byte parses, with the port's low byte cleared |
| QuicTunnels.QuicTunnel.SendFrame | feature/tunnel/quic/src/lib.rs:36-42 | a prefix of length and data, all of it on success; a failure only by an I/O error |
| QuicTunnels.QuicTunnel.RecvFrame | feature/tunnel/quic/src/lib.rs:44-52 | unless a read failed, QuicNext of the stream |
| QuicTunnels.QuicTunnel.RelayBidirectional | feature/tunnel/quic/src/lib.rs:54-77 | both halves are gone; each direction carries over a prefix, and without an I/O error the one that ended everything |
| QuicTunnels.RelayExternalToQuic | feature/tunnel/quic/src/lib.rs:179-192 | a prefix of the source, and all of it with a finished stream unless an I/O error or a drop came first |
| QuicTunnels.RelayQuicToExternal | feature/tunnel/quic/src/lib.rs:194-206 | a prefix of the stream, all of it unless an I/O error or a drop came first |
| HostPort.RSplitColon | feature/tunnel/quic/src/lib.rs:224-226 | the text around its last colon, none exactly without one |
| HostPort.PortRoundTrip | feature/tunnel/quic/src/lib.rs:228 | every printed port parses to itself |
| HostPort.PortTexts | feature/tunnel/quic/src/lib.rs:228 | numbers below 65536 are read, with a plus sign or leading zeros too; larger ones, no digits and other characters are refused |
| HostPort.SplitPrinted | feature/tunnel/quic/src/lib.rs:223-234 | splitting host:port gives back both exactly when the host is not in brackets, colons in it or not; splitting [host]:port always does |
| HostPort.SplitMeaning | feature/tunnel/quic/src/lib.rs:223-234 | what can be split is a host, a colon and a port text that parses |
| HostPort.PrintedTargetSplits | lib/src/server.rs:67 | the target text of every IPv4 and IPv6 address splits back into address and port |
| LogPipeline.TrimMeaning | android/rust-jni/src/lib.rs:31 | trimming takes off exactly the white ends |
| LogPipeline.SplitJoin | android/rust-jni/src/lib.rs:205 | lines without newline survive join and split |
| LogPipeline.JoinSplit | android/app/src/main/java/com/vs/vpn/ProxyManager.kt:73 | joining what was split gives the text back |
| LogPipeline.LogLinesFit | android/rust-jni/src/lib.rs:28-35 | every buffered line is non-empty, trimmed and without newline |
| LogPipeline.LineLogged | android/rust-jni/src/lib.rs:30-35 | each line, at the end or in front of more, with a carriage return or without, adds its text without white ends, if any is left |
| LogPipeline.WholeLineWrites | android/rust-jni/src/lib.rs:26-37 | writes that end in a newline log the lines of their concatenation |
| LogPipeline.TakeLastCollapse | android/app/src/main/java/com/vs/vpn/ProxyManager.kt:76 | cutting to the last n early makes no difference |
| LogPipeline.KeptButBlank | android/app/src/main/java/com/vs/vpn/ProxyManager.kt:73 | a line Rust keeps and Kotlin drops begins and ends with U+001C to U+001F |
| LogPipeline.DisagreeOnBlank | android/app/src/main/java/com/vs/vpn/ProxyManager.kt:73 | such a line exists |
| LogPipeline.BlankDoesNotMatter | android/app/src/main/java/com/vs/vpn/ProxyManager.kt:73-76 | dropping blank lines leaves the last n unchanged exactly when none of those is blank |
| LogPipeline.LogBuffer.Write | android/rust-jni/src/lib.rs:26-37 | the trimmed non-empty lines are appended in order |
| LogPipeline.LogBuffer.Drain | android/rust-jni/src/lib.rs:201-205 | all lines leave the buffer, joined |
| LogPipeline.PollFaithful | android/app/src/main/java/com/vs/vpn/ProxyManager.kt:70-80 | behind a poll the screen shows exactly the last 128 non-blank lines of the history |
| LogPipeline.WindowShowsHistory | android/app/src/main/java/com/vs/vpn/ProxyManager.kt:68-83 | for every interleaving of writes and polls, screen and buffer together end in the last 128 non-blank lines written, whatever the schedule |
| LogPipeline.WindowIsTail | android/app/src/main/java/com/vs/vpn/ProxyManager.kt:68-83 | behind a poll the screen is the last 128 lines logged exactly when none of those is blank to Kotlin |
| ProxySession.Native.Start | android/rust-jni/src/lib.rs:97-168 | -2 and nothing else while running; otherwise the log restarts, one thread is spawned, and it runs or is joined |
| ProxySession.Native.Stop | android/rust-jni/src/lib.rs:173-192 | a running thread is joined; true exactly then |
| ProxySession.ProxyManager.Start | android/app/src/main/java/com/vs/vpn/ProxyManager.kt:36-55 | the library never has to refuse; manager, screen and library keep agreeing exactly unless a port 0 is bound |
| ProxySession.ProxyManager.Stop | android/app/src/main/java/com/vs/vpn/ProxyManager.kt:58-66 | nothing runs afterwards; the log stays |
| ProxySession.ProxyManager.Poll | android/app/src/main/java/com/vs/vpn/ProxyManager.kt:70-80 | the screen shows the last 128 non-blank lines of the session |
| ProxySession.Drive | android/app/src/main/java/com/vs/vpn/ProxyManager.kt:36-66 | over every command sequence: spawned equals joined plus the running one, the manager knows whether one runs, no start gets -2 from the library |

## Left out

- The insides of ChaCha20-Poly1305, HKDF-SHA256 and the random generator: functions with the laws above; no secrecy is stated.
- `String::from_utf8_lossy`: a function whose results are strings, decode to themselves and grow by at most three times, or by two bytes on a cut string; where a failing input is given, also that each byte FF decodes to U+FFFD.
- The std::net address readers are part of the Rust library, not of this repository: modelled from their documented behaviour, IPv4 as canonical dotted decimal.
- Sockets, DNS, flushing, timeouts and backpressure: FIFO byte streams with arbitrary chunking, failure and truncation. What `TcpStream::connect` yields is a function of the target.
- Frames.MixedSessionFrames: like Frames.MixedAndCut, speaks of at most 2^64 frames on a wire, behind which the receiver's counter would start again.
- EncryptedTunnels.EncryptedTunnel.SendFrame: asks callers not to send behind a failed send, as the endpoints never do; what happens otherwise is EncryptedTunnels.NonceUniqueIff.
- EncryptedTunnels.EncryptedTunnel.RelayBidirectional: does not interleave the two loops of `select!`; they touch different halves of the two streams, so each is run up to some await. The session machine interleaves them byte by byte.
- SessionInvariant.ReachableInv: the session machine takes the SOCKS dialogue up to the connection to the server as one action, cut anywhere by a failure (SocksClient.HandleSocksClient is the same dialogue read by read), and runs over the two TCP tunnels (QuicTunnels.QuicAgreesWithPlain and QuicTunnels.QuicTruncated say how the QUIC tunnel's reads differ).
- Refinement.EncryptedRefinesPlain: covers failure-free runs, since an encrypted and a plain connection that break lose different bytes.
- Crypto.WriteEncryptedFrame: the counter wraps at 2^64 as in a release build; a debug build would panic there.
- SocksClient.HandleSocksClient: the SOCKS version byte is not looked at, as in the code; a client that ends early is `Refused` like one that is turned away.
- ProxySession.Native.Start: start, stop and poll are atomic; two overlapping calls of nativeStart are not modelled.
- `std::error::Error` texts, tracing and the standard-error copy of the log.
- The accept loops, the cancellation token, the lsof semaphore, `core/socket-peer`, command-line and secret parsing.
- quinn, rustls, certificates and fingerprints.
- Android services, notifications, settings, JNI string conversion, and the polling interval.
