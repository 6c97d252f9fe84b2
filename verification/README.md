# Verification of the tunnel's protocol core

A visitor connects to a server, the server finds out what the visitor wants and asks a client behind
a control connection to open a data connection, and the two are joined. Data travels through an
encrypting stream over a compressing stream, or over KCP. These Dafny modules model the parts of that
program whose correctness depends on more than one function, and prove what the parts promise.

`dafny verify dfyconfig.toml` checks everything.

## How the model is built

- **Poll functions.** Every `poll_*` method that updates its object is a class with the same fields,
  and one method call is one poll. `AsyncIo.Duplex` is the transport: at every poll it may answer
  "not yet", fail, or move any number of bytes, so a proved contract holds for every schedule of
  partial reads and writes. It counts the polls in which it moved nothing (`stalls`), so that contracts
  can also say the other half: a poll answers "not yet", or fails with an I/O error, only if the
  transport did. Loops have termination measures. Each class is proved against functions of
  the bytes or blocks seen so far; those functions live in the modules whose names end in `Spec`, in
  `Framing`, and beside the class where they are short.
- **Read counts** are the number of bytes of this call. The tokio adapter returns the filled length of
  the buffer instead (src/async/mod.rs:130-134); the two agree on the fresh buffers that every caller
  modelled here passes, except `ReadExact`, which is modelled with incremental counts.
- **Foreign code** is a value with a stated contract: a `BlockCodec` is the LZ4 library, whose answers
  depend on the blocks compressed so far and on their places in the ring; a `Cipher` is AES-CBC with
  padding; `Kcp.Queue` is the KCP protocol's queue of whole messages.
- **Bytes on a wire** are stated with their values in the lemmas whose names end in `OnTheWire`, so that
  an encoder and a decoder that agree with each other have to agree with the protocol as well.
- **The rendezvous** is a transition system over both processes, the two directions of the control
  connection and the data connections. Sending one packet is one step. The ghost `tag` of a token
  says whose request it is; no step decides anything by it. `Server.Penetrate` and `MQueue.MQueue`
  are the server's half as classes, proved to take steps of that system.
- **Ghost fields** of a class are its history (what was written, decoded, delivered). A stream that
  has failed, or has met the end of its input within a frame, is marked broken and is not polled again.

## What was found

Places where the code does less than its documentation or its callers suggest. Each has a lemma that
says exactly when it works, or a run in which it does not.

- The LZ4 writer starts its ring over at offset 2048, the reader at 2028. Decoding what was encoded is
  guaranteed exactly if no block but the last ends at an offset from 2028 to 2047
  (`Lz4Spec.LosslessIffAvoidsGap`). Through both layers, messages arrive under every lawful codec and
  cipher exactly if each is short enough and their frames avoid that gap, which the lengths of the
  messages decide (`Lossless.ArrivesIffCarriable`, `CarriableByLength`). One write of 2016 to 2031 bytes
  followed by any other does not: there is a lawful codec that loses it (`Lossless.TwoThousandBytesLost`).
- Lengths are cast to 32 bits: packets and encrypted frames are read back exactly if they are short
  enough (`Packet.RoundTripIffShort`, `AesSpec.WriteReadsBackIffShort`).
- A slot of the waiting list can become free again exactly if something still carries its id
  (`RendezvousLeaks.FreedIffCarried`). Four kinds of step lose it for ever, and no others
  (`RendezvousLeaks.LostIff`): a visitor whose peer is finished or unknown, for the slot is taken before
  that is looked at; a visitor that gives up before its Map is sent; a client task that times out; and a
  data connection that dies before its Map is read. (`RendezvousSafety.GivingUpEarlyOrphans` and
  `SilentTaskOrphans` are runs.)
- Rewinding a marked stream restores it exactly if the reads since the mark did not stop inside an
  older replay buffer (`FallbackSpec.PeekRestoresIffClean`). A row of attempts restores it exactly if,
  before the replay buffer grows and at the end, the bytes taken since it last grew add up to a
  multiple of its length (`FallbackRows.TriesRestoreIff`; `FallbackSpec.SecondShorterTryRotates` is a
  row that does not).
- The SOCKS5 handshake reads once more, without room, after a segment that took several reads. If that
  read is answered with zero, the handshake ends with a connection reset; if it has to wait, the next
  poll goes on. Under every schedule a handshake that ends
  gives a client with the right credentials its socket if and only if no such read was answered with zero
  and the transport did not fail (`Handshake.Shake`); on a transport that never stands still that means
  one read for every segment. The reset is not a refusal of the protocol, so no other adapter is tried,
  not even for a visitor that does not speak SOCKS5 (`Selector.Serve`).
  Domains of 254 and 255 bytes are misread (`SocksRequest.RequestUnderstoodIff`).
- A password of length zero is never accepted, whatever is configured (`AuthSpec.JudgeRequest`).
- The UDP header builder and parser are inverse exactly for IP origins (`SocksAddr.DatagramRoundTripIffIp`).
- A KCP stream kept for more than 30 seconds after the death of its session can close the next session
  of the same key (`KcpSpec.CloseReachesAnotherIff`, `StaleCloseReachesTheNext`). A second connect gets
  the number of the one before exactly if that number is not in the table when it looks
  (`Kcp.KcpConnector.AllocateTwice`); its insertion then replaces the session of the first, whose
  cleanup kills it (`Kcp.KcpConnector.ConnectOverlapped`).
- A reply to a dead session that does not get out ends the future that accepts KCP connections
  (`Kcp.KcpListener.PollAccept`).

## Model

| member | source | states |
|---|---|---|
| MQueue.MQueue.Push | src/net/penetrate/server.rs:153-170 | the id is the first one free from `identify` in cyclic order, across the wrap of u32; no other entry changes; the look-ups made are exactly those from the start up to that id, at most one more than there are entries |
| MQueue.MQueue.Remove | src/net/penetrate/server.rs:172-174 | takes out exactly the entry of that id, if there is one |
| Cyclic.TakenRunIsShort | src/net/penetrate/server.rs:153-170 | a run of taken probes is never longer than the table, so probing ends |
| Cyclic.FullTurn | src/net/kcp/mod.rs:537-555 | a full turn of taken probes happens exactly if all 2^32 numbers are taken |
| Cyclic.NextFreeUnique | src/net/kcp/mod.rs:537-555 | what the probing finds is determined by the table and the start |
| Server.Penetrate.PeerAnswered | src/net/penetrate/server.rs:297-308 | pushing a visitor is an enabled step of the rendezvous; the slot is taken before the answer of the mock is looked at |
| Server.Penetrate.ControlReceived | src/net/penetrate/server.rs:230-265 | a control packet is a step of the rendezvous; `MapError` frees the slot and ends the visitor waiting in it |
| Server.Penetrate.ConnectionNamed | src/net/penetrate/server.rs:357-372 | a data connection frees the slot it names and goes to the visitor waiting there, or to nobody |
| RendezvousSafety.StepCarries | src/net/penetrate/client.rs:282-331 | only the choice of an id makes a request; every other step moves it or loses it, and never doubles it |
| RendezvousSafety.StepKeepsInv | src/net/penetrate/server.rs:285-389 | the invariant: each id is carried at most once by unsent and sent Maps, client tasks, MapErrors and connections together, and then is in the waiting list under its own visitor |
| RendezvousSafety.RunKeepsInv | src/net/penetrate/server.rs:285-389 | the invariant holds after every run |
| RendezvousSafety.NoCrossPairing | src/net/penetrate/server.rs:357-372 | in every run each connection handed to a visitor was opened for that visitor's own request and target, and no visitor or connection is paired twice |
| RendezvousSafety.ReusedIdIsForgotten | src/net/penetrate/server.rs:153-174 | in every run an id that is handed out stands in no packet, task or connection any more |
| RendezvousSafety.ArrivalReachesItsVisitor | src/net/penetrate/server.rs:357-372 | in every run a connection whose visitor still waits is handed to that visitor |
| RendezvousSafety.MapErrorEndsOnlyItsVisitor | src/net/penetrate/server.rs:256-259 | in every run a `MapError` ends the visitor whose request failed and no other |
| RendezvousSafety.OrphanStaysForEver | src/net/penetrate/server.rs:374-389 | once nothing carries an id of the waiting list, no continuation frees the slot or serves its visitor; `RendezvousLeaks.FreedIffCarried` has the other direction |
| RendezvousSafety.GivingUpEarlyOrphans | src/net/penetrate/server.rs:374-389 | a visitor that times out before its Map is sent leaves such a slot |
| RendezvousSafety.SilentTaskOrphans | src/net/penetrate/client.rs:299-307 | so does a client task that times out |
| RendezvousLeaks.StepKeepsWires | src/net/penetrate/server.rs:310-316 | every step keeps Maps on the way to the client, MapErrors on the way to the server, and behind every Map not yet sent a live visitor routed with it |
| RendezvousLeaks.FreedIffCarried | src/net/penetrate/server.rs:153-174 | in every run a slot that is taken has a continuation that frees it if and only if an unsent or sent Map, a client task, a MapError or a connection carries its id |
| RendezvousLeaks.LostIff | src/net/penetrate/server.rs:297-308 | in every run a step loses a slot exactly if it is one of four: a peer found finished or unknown after the push, a visitor ended before its Map is sent, a client task that ends silently, a data connection lost before its Map is read |
| RendezvousSafety.ServeOne | src/net/penetrate/server.rs:285-341 | from any quiet state there is a run that serves a visitor and is quiet again |
| RendezvousSafety.IdIsReused | src/net/penetrate/server.rs:153-174 | there is a run in which two visitors get the same id one after the other and each its own connection |
| Join.JoinOutput.Poll | src/async/join.rs:65-115 | ends; a result is there exactly when its future is gone; no future is polled after its answer; on Pending each future left was polled; success needs both answers; the first failure ends it, and exactly one `MapError` was sent, unless the control connection is gone |
| TaskBag.ClientBag.PollGenerate | src/net/penetrate/client.rs:341-396 | every `Map` that came has started one task to forward it and the next reader, and nothing else was started; unless it ends with an error: tasks after are those before plus those made minus those that answered, each once and unanswered, exactly one reads the control connection; on Pending all were polled in this call, otherwise one task of this call had something to deliver or has failed |
| TaskBag.ServerBag.PollAccept | src/net/penetrate/server.rs:415-475 | every visitor that was accepted has a handler, every stream to be closed a closer, and nothing else was made; the same conservation over all rounds of accepting and draining; the receiver and the heartbeat stay; on Pending nobody waits any more and all tasks were polled in this call |
| TaskBag.ServerBag.Drain | src/net/penetrate/server.rs:436-470 | the inner loop ends although closing a stream makes a new task, and conserves tasks |
| Buffer.Buffer.PushBack | src/core/guard/buffer.rs:37-48 | appends to the bytes waiting |
| Buffer.Buffer.PushFront | src/core/guard/buffer.rs:50-56 | prepends to the bytes waiting |
| Buffer.Buffer.ReadToBuffer | src/core/guard/buffer.rs:58-104 | moves exactly the first min(waiting, room) bytes to the window, for every chunking, and keeps `len` equal to what waits |
| AsyncIo.ReadBuf.Put | src/async/mod.rs:237-245 | fills the window from its offset and touches nothing else of the array |
| Ext.ReadExact.Poll | src/async/ext.rs:157-182 | Ready means that the first bytes of the stream fill the buffer, or that there are fewer than that |
| Ext.WriteAll.Poll | src/async/ext.rs:190-219 | Ready with success means that the whole buffer was sent, in order and once |
| Framing.FramesPrefix | src/core/compress/lz4/mod.rs:306-345 | length-prefixed frames are self-delimiting: however a stream of frames is cut, the complete frames at its front are the first ones written |
| Framing.FramesWhole | src/core/compress/lz4/mod.rs:306-345 | at the end of what was written nothing incomplete is left over |
| Framing.FrameOnTheWire | src/core/compress/lz4/mod.rs:271-278 | the bytes of a frame: the length in four, lowest first, and the payload |
| Lz4Spec.CutsFlatten | src/core/compress/lz4/mod.rs:227-236 | the blocks cut from the writes put together are the writes, and only an empty write makes an empty block |
| Lz4Spec.InStepIffAvoidsGap | src/core/compress/lz4/mod.rs:280-288 | encoder and decoder offsets agree at all block boundaries exactly if none of them is in [2028, 2048) |
| Lz4Spec.InStepDecodes | src/core/compress/lz4/mod.rs:343-404 | then every lawful codec decodes what it encoded |
| Lz4Spec.LosslessIffAvoidsGap | src/core/compress/lz4/mod.rs:371-380 | decoding gives back the blocks under every lawful codec if and only if no boundary before another block is in the gap |
| Lz4Spec.PayloadsSmall | src/core/compress/lz4/mod.rs:326-330 | no payload exceeds the bound by which the reader refuses frames |
| Lz4.Lz4Compress.PollWrite | src/core/compress/lz4/mod.rs:182-293 | each completed write puts on the wire exactly the frames of its blocks of at most 1024 bytes, in order and once, however often it returned Pending; it waits or fails only if the transport does, or to compress nothing |
| Lz4.Lz4Compress.CompressNext | src/core/compress/lz4/mod.rs:225-290 | one turn cuts the next block off the caller's buffer and frames its payload |
| Lz4.Lz4Compress.CompressBlock | src/core/compress/lz4/mod.rs:240-288 | a block is copied into the ring inside its bounds and the ring holds the current lap of blocks |
| Lz4.Lz4Compress.FillFrame | src/core/compress/lz4/mod.rs:306-370 | collects a frame in any number of reads, keeps every byte, and refuses only sizes out of range |
| Lz4.Lz4Compress.FinishBody | src/core/compress/lz4/mod.rs:343-380 | a payload is decoded at the specified place of the ring, or refused because the codec refuses it |
| Lz4.Lz4Compress.PollRead | src/core/compress/lz4/mod.rs:123-143 | what a reader delivers and what it still keeps are together the blocks of the complete frames taken from the wire, in order and once |
| AesSpec.WriteReadsBackIffShort | src/core/encryption/aes/mod.rs:128-152 | a frame reads back as the write under every lawful cipher if and only if the write is below 2^32 - 16 bytes |
| AesSpec.DecryptsBack | src/core/encryption/aes/mod.rs:179-243 | decrypting the ciphertexts of a sequence of writes gives the writes |
| Aes.AESEncryptor.PollWrite | src/core/encryption/aes/mod.rs:80-172 | each completed write completes exactly one frame below; after Pending the same frame goes on; what left is a prefix of the blocks of all frames |
| Aes.AESEncryptor.FillFrame | src/core/encryption/aes/mod.rs:191-222 | collects length and ciphertext from the stream below in any pieces |
| Aes.AESEncryptor.PollRead | src/core/encryption/aes/mod.rs:59-73 | what is delivered and kept are together the messages of the complete frames, in order and once; errors are explained by what was read |
| EndToEnd.ReadIsPrefixOfWritten | src/core/encryption/aes/mod.rs:80-243 | under any schedule at both ends, what was read is a prefix of what was written |
| EndToEnd.DrainedReadIsAll | src/core/encryption/aes/mod.rs:80-243 | once everything is on the wire and drained, all of it was read |
| EndToEnd.NothingRejected | src/core/compress/lz4/mod.rs:326-330 | the decompressor refuses no size and no payload that the compressor sent |
| EndToEnd.NothingUnpadded | src/core/encryption/aes/mod.rs:191-243 | the decryptor refuses no frame that the encryptor sent |
| EndToEnd.TwoThousandBytesMisalign | src/core/compress/lz4/mod.rs:280-288 | a write of 2016 to 2031 bytes followed by any other puts a block boundary into the gap of the two rings |
| Lossless.ArrivesIffCarriable | src/core/compress/lz4/mod.rs:371-380 | through both layers all messages arrive, under every lawful codec and every lawful cipher, if and only if each is below 2^32 - 16 bytes and the blocks of their frames avoid the gap |
| Lossless.CarriableByLength | src/core/encryption/aes/mod.rs:128-152 | that condition depends on the lengths of the messages only, not on the cipher |
| Lossless.TwoThousandBytesLost | src/core/compress/lz4/mod.rs:280-288 | for such a pair of writes there is a lawful codec under which nothing arrives |
| Lossless.GapLosesData | src/core/compress/lz4/mod.rs:343-380 | under the codec that notices the mismatch, however the wire is read, a reader of messages whose blocks fall into the gap has delivered a prefix of them and never all of them |
| Session.Session.ReadTurn | src/core/encryption/aes/mod.rs:59-73 | a poll of the reader at one end of a running connection keeps what was read a prefix of what was written, waits or fails only if the transport does, and answers zero only for a buffer without room or at the end of the wire with all given that it had |
| Session.Session.Run | src/core/encryption/aes/mod.rs:80-243 | the two statements above for every sequence of write polls, transport moves and reads of any size on the real classes; every write has completed a message and every read has given bytes, but for those in which the transport stood still or failed, or the end of the wire |
| Session.Session.Transfer | src/core/encryption/aes/mod.rs:80-243 | written, carried and read to the end on the real classes, exactly all messages arrive, if the transport does not fail and each side is polled once for each message and for each byte and the end, besides the polls in which it stood still |
| Session.Session.DrainedMeansAll | src/core/compress/lz4/mod.rs:123-143 | with all writes completed, the wire empty and no carry-over, exactly all messages were delivered |
| Packet.RoundTripIffShort | src/core/protocol/mod.rs:41-47 | a stream that starts with an encoded packet is read as that packet if and only if its payload is below 2^32 bytes |
| Packet.PacketOnTheWire | src/core/protocol/proto.rs:50-56 | the bytes of a packet: 66 75 73 6f, the length in four, lowest first, and the payload |
| Packet.ScanMeans | src/core/protocol/mod.rs:144-226 | a packet is recognised exactly if its bytes are what the stream starts with, and a stream is refused exactly after eight bytes of which the first four are not the magic number, whatever the length says |
| Packet.ScanStable | src/core/protocol/mod.rs:144-226 | what is made of the first bytes never changes when more arrive |
| Packet.ScanNotEarlier | src/core/protocol/mod.rs:144-226 | a packet is recognised when its last byte is there and not before |
| Packet.ScanOfSent | src/core/protocol/mod.rs:144-226 | on a stream that starts with a packet only that packet can be found, and the rest is untouched |
| Packet.RecvPacket.Poll | src/core/protocol/mod.rs:144-226 | under every fragmentation a packet is returned when the bytes read are exactly that packet; the errors say what was read |
| Packet.SendPacket.Poll | src/core/protocol/mod.rs:116-135 | the whole buffer is sent, in order and once |
| Packet.ReceiveMany | src/core/protocol/mod.rs:144-226 | packets sent back to back come out as the sequence that was sent, and nothing behind the last is read; all of them come out if there is a poll for each and one for each time the transport stood still; only a failure of the transport stops it |
| FallbackSpec.ReadsTake | src/core/guard/fallback.rs:105-140 | reads of any sizes deliver replay buffer and target in order and remember what they delivered |
| FallbackSpec.PeekRotates | src/core/guard/fallback.rs:199-220 | what mark, reads and rewind do to the stream: the bytes seen go behind the rest of an old replay buffer |
| FallbackSpec.PeekRestoresIffClean | src/core/guard/fallback.rs:199-220 | the stream is restored, whatever its bytes, if and only if the reads took nothing or at least the old replay buffer |
| FallbackSpec.TriesRestore | src/net/penetrate/selector.rs:58-78 | a row of attempts, each behind its own mark, restores the stream if each reads nothing or no less than those before: the case of the adapters here |
| FallbackRows.TriesRestoreIff | src/core/guard/fallback.rs:199-220 | any row of attempts restores the stream, whatever its bytes, if and only if the bytes taken at each length of the replay buffer add up to a multiple of it before it grows and at the end |
| FallbackSpec.SecondShorterTryRotates | src/core/guard/fallback.rs:199-220 | two attempts of which the second reads less give back a rotated stream |
| Fallback.Fallback.PollRead | src/core/guard/fallback.rs:105-140 | replays before it reads on, remembers the filled part of the buffer while marked, and answers zero once for an empty replay buffer |
| Fallback.Fallback.PollWrite | src/core/guard/fallback.rs:142-156 | strict: an error and no change while anything is buffered; otherwise nothing is ever replayed afterwards |
| Fallback.Fallback.Mark | src/core/guard/fallback.rs:179-191 | sets the mark unless it is set |
| Fallback.Fallback.Backward | src/core/guard/fallback.rs:199-220 | appends the bytes seen since the mark to the replay buffer |
| Fallback.Fallback.BackData | src/core/guard/fallback.rs:70-86 | takes the whole replay buffer; an empty one counts as none |
| AuthSpec.JudgeRequest | src/net/socks/auth.rs:168-222 | the verdict on a request: accepted exactly if name and password match and the password is not empty |
| AuthSpec.AcceptedMeans | src/net/socks/auth.rs:152-222 | what is accepted is exactly what starts with 01, the name and the password, each behind its length; any other version is refused after two bytes |
| AuthSpec.AcceptedIff | src/net/socks/auth.rs:168-222 | however a client's request is cut up, it is accepted if and only if both match, and exactly 3 + ULEN + PLEN bytes were consumed |
| AuthSpec.UndecidedHasMore | src/net/socks/auth.rs:152-208 | before the end of a request there is no verdict and the stream has more, so a machine that waits is never starved |
| Auth.S5Authenticate.PollStandard | src/net/socks/auth.rs:103-229 | success means a right request was read and 05 02 01 00 written; a wrong one is answered 01 01; a wrong version is not answered; the exit marked unreachable is not reached |
| Auth.S5Authenticate.PollSkip | src/net/socks/auth.rs:88-102 | writes exactly 05 00 and reads nothing |
| Handshake.Login | src/net/socks/auth.rs:103-229 | polled under any schedule, authentication passes only with the right name and password and refuses only wrong ones, with exactly the request consumed; otherwise the transport failed, or it stood still at every poll |
| SocksRequest.RequestUnderstoodIff | src/net/socks/mod.rs:238-289 | the requested address comes out if and only if it is an IP address or a domain of at most 253 bytes |
| SocksRequest.RequestOnTheWire | src/net/socks/mod.rs:127-171 | requests byte by byte: kind 1 is four bytes of address, kind 4 sixteen, kind 3 a length and a name, and the port behind them has its high byte first |
| SocksRequest.CommandsOnTheWire | src/net/socks/mod.rs:127-171 | command 1 connects, 3 asks for UDP, and no other is supported |
| SocksRequest.RefusedOnTheWire | src/net/socks/mod.rs:238-256 | a request of another version, or for another kind of address, ends after four bytes |
| SocksRequest.AfterLength | src/net/socks/mod.rs:257-264 | the length byte of a domain plus two in eight bits decides how much is read next |
| SocksRequest.ScanRequestStable | src/net/socks/mod.rs:238-289 | what follows a request does not change what it was |
| Socks.Socks5.ReadPhase | src/net/socks/mod.rs:309-323 | the read loop passes on with a full segment exactly after a single read; one that took a second read is counted and stays in the loop until the poll ends, with a reset exactly if a read without room was answered with zero or the stream ended |
| Socks.Socks5.WritePhase | src/net/socks/mod.rs:291-307 | the reply is sent once and whole exactly if it was never taken only in part |
| Socks.Socks5.HeadArm | src/net/socks/mod.rs:203-217 | a first byte other than 5 ends the handshake before anything was written |
| Socks.Socks5.Poll | src/net/socks/mod.rs:179-325 | success means that exactly a greeting, a passed authentication and a request for the socket were read, and that no segment took its second read in this poll; each failure says the stage it belongs to and what had been read by then; a reset means a read without room that was answered with zero, which takes a segment in pieces, or the end of the stream, or a refused reply |
| Handshake.HandshakeIsTheRequest | src/net/socks/mod.rs:179-325 | a handshake that succeeds gives the address the client asked for, its credentials were right, and what it sent behind the request is still to be read |
| Handshake.AnswerOnTheWire | src/net/socks/mod.rs:127-171 | a handshake that has read 05 n, n methods, 05 cmd rsv 01, four bytes and hi, lo gives exactly that address with port 256 hi + lo |
| Handshake.PassedIsLoggedIn | src/net/socks/auth.rs:168-222 | whatever was sent: a handshake that got past an authentication read a greeting and then exactly the configured name and password |
| Handshake.EntitledIsServed | src/net/socks/mod.rs:179-325 | a poll that ends the handshake of a client with the right credentials answers its request, unless the transport failed, a reply was refused or a read without room was answered with zero |
| Handshake.Shake | src/net/socks/mod.rs:179-325 | for every schedule: a handshake that ends gives the requested address if and only if no read without room was answered with zero and the transport did not fail, given the right credentials, and success always means right credentials and the rest unread; it is still waiting only if the transport stood still at every poll or takes the reply in parts; without stalls the condition is one read for every segment |
| Handshake.ForeignIsDeclined | src/net/socks/mod.rs:203-217 | a poll that ends the handshake of a visitor whose first byte is not 5 declines it, fails with the transport, or resets it, the last exactly if a read without room was answered with zero |
| Selector.CallSocks | src/net/penetrate/mock/socks.rs:128-150 | the handshake asks for the credentials it was given; a declined one has read two bytes, the first not 5, and written nothing; under every schedule a visitor whose first byte is not 5 is declined, and a client with the right credentials gets the socket it asked for, unless the transport fails or stands still at every poll, or a read without room is answered with zero |
| Selector.DeclineRestores | src/net/penetrate/selector.rs:58-78 | rewinding after it restores the stream |
| Selector.Select | src/net/penetrate/selector.rs:58-78 | (`Selected`) a visitor that no adapter or the direct one takes keeps its whole stream and was sent nothing; one taken by a handshake was read exactly as far as the handshake goes, by an adapter that is switched on and asks for its configured credentials; under every schedule one whose first byte is not 5 is taken by the direct adapter if there is one, with the same three exceptions, and no other gets past a handshake that comes first without it |
| Selector.Conclude | src/net/penetrate/mock/socks.rs:149-160 | after a finished handshake a TCP socket is routed, and a UDP association is told that it is not served, in full, and ends |
| Selector.HandOver | src/net/penetrate/server.rs:317-340 | the bytes sent to the target and the rest of the visitor's stream are together the rewound stream |
| Selector.Serve | src/net/penetrate/server.rs:290-340 | from arrival to route: all bytes of a directly routed visitor reach the target in order; under every schedule one that does not speak SOCKS5 is routed directly, unless a transport fails or stands still at every poll, or a read without room is answered with zero, which resets it; where a handshake comes first, a client is routed to the address it asked for and told so, or told that UDP is not served, if its credentials are the configured ones, with the same exceptions, and never otherwise (`Due`); nobody is routed by a handshake without having sent the configured name and password (`Admits`); an error is one of the target, of the refusal of UDP, or the one the handshake ended with at its stage |
| SocksAddr.DatagramRoundTripIffIp | src/net/socks/mod.rs:413-456 | header builder and parser are inverse, with any payload, if and only if the origin is an IP address |
| SocksAddr.PackedOnTheWire | src/net/socks/mod.rs:413-456 | the bytes of a packed datagram, kind by kind, with the high byte of the port first |
| SocksAddr.ParsedOnTheWire | src/net/socks/mod.rs:366-411 | an IP datagram is taken apart byte by byte as it was put together |
| SocksAddr.DomainParsedOnTheWire | src/net/socks/mod.rs:366-411 | for a domain everything behind the length byte is taken for the name and the port, and the payload begins inside it |
| SocksAddr.IpDatagramIsPacked | src/net/socks/mod.rs:366-411 | a parsed datagram for an IP address is the packing of the result, but for the two reserved bytes |
| SocksAddr.ForwardedIff | src/net/socks/mod.rs:366-411 | a datagram is parsed to an IP address and a payload exactly if it is their packing, whatever its two reserved bytes; and which datagrams parse at all |
| KcpSpec.StepKeepsInv | src/net/kcp/mod.rs:252-349 | every generation of a session is alive with its callback to come, or dead and then in the table or expired; the table holds the youngest of each key |
| KcpSpec.CleanupKillsOnlyItsOwn | src/net/kcp/mod.rs:292-314 | in every run a cleanup callback kills the session it was made for and changes no other entry |
| KcpSpec.TimeWaitHolds | src/net/kcp/mod.rs:281-284 | in every run a key gets a new session no earlier than 30 seconds after the death of the one before |
| KcpSpec.OpenReportedOnce | src/net/kcp/mod.rs:334-346 | in every run each session is reported as opened at most once |
| KcpSpec.PacketMeans | src/net/kcp/mod.rs:277-346 | a packet makes a session exactly if none under its key is alive or died less than 30 seconds ago, reports it exactly if it was accepted, and drops of the others those of the same peer that are dead for longer |
| KcpSpec.OpenedIffAccepted | src/net/kcp/mod.rs:334-346 | in every run the session that a packet makes is reported, then or ever, if and only if that packet was accepted |
| KcpSpec.LiveStreamClosesItsOwn | src/net/kcp/mod.rs:351-375 | while its session lives, closing a stream reaches that session |
| KcpSpec.CloseReachesAnotherIff | src/net/kcp/mod.rs:351-375 | closing a stream reaches another session if and only if its own is dead and a new one lives under the key; that takes 30 seconds |
| KcpSpec.StaleCloseReachesTheNext | src/net/kcp/mod.rs:351-375 | a run in which it does |
| Kcp.KcpListener.OnPacket | src/net/kcp/mod.rs:252-349 | a datagram on the nested tables is the step of the transition system; it opens a stream exactly if it is accepted and no session under its key is alive or died less than 30 seconds ago, and is refused exactly if one did |
| Kcp.KcpListener.OnCleanup | src/net/kcp/mod.rs:292-314 | the callback on the nested tables is the step of the transition system |
| Kcp.KcpListener.PollAccept | src/net/kcp/mod.rs:402-443 | a poll takes the steps of the datagrams it consumes up to and including the first that is accepted for a new session, which it reports, and reports none exactly if there is none; accepting ends exactly at a failed socket or a reply to a dead session that does not get out, and then nothing is ever accepted again |
| Kcp.KcpListener.OnStreamClosed | src/net/kcp/mod.rs:351-375 | finds what the transition system says it closes |
| Kcp.KcpListener.Run | src/net/kcp/mod.rs:252-375 | datagrams, cleanup callbacks, closed streams and the passing of time in any order take the nested tables through the states of the transition system; its invariant holds and the sessions opened are those it reports |
| Kcp.KcpConnector.Connect | src/net/kcp/mod.rs:537-610 | takes the first free conversation number in cyclic order, fails exactly if all 2^32 are taken, and ends |
| Kcp.KcpConnector.AllocateTwice | src/net/kcp/mod.rs:537-555 | whatever became of the table in between, a second allocation gives the number of the first if and only if that number is not in the table then |
| Kcp.KcpConnector.ConnectOverlapped | src/net/kcp/mod.rs:537-585 | of two connects that both allocate before either inserts, the second takes the number and the place of the first, whose session is then nowhere in the table; the cleanup of the first kills the session of the second |
| Kcp.KcpCore.PollRead | src/net/kcp/stream.rs:130-175 | messages become one byte stream; what does not fit is kept, in order and without loss |

## Left out

- MQueue.MQueue.Push: requires fewer than 2^32 entries, because the loop of the source never ends on a full table.
- RendezvousSafety.StepKeepsInv: a transition system over values, because the steps of two processes interleave; the waiting list, the server's handlers and the bags of tasks are classes. The client is honest, each packet is sent as a whole, and an error on the control connection, which ends both sides, is not a step.
- Server.Penetrate.ControlReceived: ends the visitor in the same step in which its channel closes.
- TaskBag.ClientBag.PollGenerate: says nothing about the other tasks after an error, where the source drops those it has not polled yet.
- TaskBag.ServerBag.PollAccept: the same; a failing accept drops the whole bag.
- Lz4.Lz4Compress.PollWrite: frames reach the library as values; how the LZ4 library finds matches in its ring is not part of this model.
- Aes.AESEncryptor.PollWrite: modelled over the compressing stream, which completes a frame as a whole, so the source's write loop turns once; an empty write answers Ok(0) as in the source. Key, initialisation vector and padding are inside the abstract cipher.
- Session.Session.Run: messages are non-empty, since a read cannot tell an empty message from the end, and `EndToEnd.Carriable`, without which they need not arrive at all (`Lossless.ArrivesIffCarriable`).
- RendezvousLeaks.FreedIffCarried: says that a continuation exists that frees the slot; nothing in the model forces the other side to take it.
- Packet.SendPacket.Poll: assumes a transport that takes a byte when it is ready; the source spins for ever on one that does not.
- Socks.Socks5.WritePhase: follows the re-sending loop a bounded number of turns, then assumes Pending; the source may turn for ever.
- Handshake.Shake: once the transport has taken a reply only in part (`resent`), the handshake may wait without end, since the source then offers the whole reply again.
- Socks.Socks5.Poll: arithmetic of release builds; a debug build stops at a domain length of 254 or 255.
- SocksAddr.ParseAddr: reading past the end of a short datagram is the outcome Panic; names that are not UTF-8, which the source rewrites, are kept as bytes.
- Selector.Conclude: UDP associations are refused, as without `enable_socks_udp`; the forwarding of UDP through a SOCKS visitor is not modelled.
- Selector.Serve: the wait for the client's connection lies between selecting and handing over and does not touch the stream.
- Kcp.KcpListener.PollAccept: a key is the hash of the peer's address and the conversation number, as in the source; colliding hashes share a table.
- Kcp.KcpConnector.Connect: allocation and insertion as one step, although the table is unlocked in between (AllocateTwice and ConnectOverlapped say what that does).
- The KCP protocol itself, its segments and its update loop: only whole messages and the life of sessions are modelled.
- Wakers, executors, timers, sockets and logging: a poll may be called at any time.
- The RSA encryptor and the key exchange: the frame machine is the one of AES.
- The serialisation of control messages: messages are values and their packets are opaque bytes.
- Heartbeats beyond their presence on the wire, the bridge, the connection pool, observers, builders and the command line.
