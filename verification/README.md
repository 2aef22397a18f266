# Honeypot logic in Dafny

Models of eight self-contained pieces of the honeypot collection, with proofs of what they keep over whole runs.
Each piece has a specification on values (datatypes and functions), theorems about it over every run, trace or
input, and, where the source changes state in place, classes or loops proved equal to that specification.

| files | models |
|---|---|
| `PoolModel`, `PoolSystem`, `PoolTheorems`, `PoolHistory`, `PoolIds`, `PoolRevival`, `PoolTrails`, `PoolExamples`, `PoolService` | Cowrie's pool of virtual machines, its NAT bindings and the server that pairs their calls |
| `TcpModel`, `TcpTheorems`, `StateTable`, `TcpState`, `Checksum`, `Words` | the canary's userspace TCP, its connection table and the Internet checksum |
| `AgentWire`, `AgentCodec`, `AgentDemux`, `AgentListener` | the agent's wire format and the demultiplexing of one stream into connections |
| `RotateFile` | the log writer that splits its input at newlines under a size limit |
| `CachedFs`, `FsEffects`, `AbstractFs` | Conpot's file system: a metadata cache beside a backing tree |
| `SandboxPaths` | lexical path cleaning under a moving working directory |
| `Dispatch` | port registration, service lookup and the peek buffer |
| `Kamstrup`, `FollowTail`, `Normalizer` | byte stuffing, line tailing, the incremental normaliser |

Where code and intention differ the model follows the code, and a theorem says exactly when they agree:

- Counts, bindings and ids stay consistent exactly while no guest is created on an id still in use. That needs two
  things of a run: whenever guests are created, every guest with an open session is among the last 252 created, and
  so is every listed guest. The first alone does not do: a guest that never boots stays listed, and a later session
  on its id is given back to it.
- A guest that failed its health check, or was destroyed, returns to the pool exactly when its last client gives it
  back before the remove phase. A guest stays in use without a client exactly when its last client gives it back by reuse and it was in
  use at its last grant; it then never times out.
- The acknowledgment comparison ignores wrap-around (the SYN-ACK is numbered ISS+1): whatever the network sends, a
  connection whose initial send sequence number is one of the last two is never established.
- An in-order FIN is acknowledged correctly exactly when it carries no data and arrives in a state that answers it.
  FIN-WAIT-2 does not: the acknowledgment on the segment takes it to TIME-WAIT first, and the FIN gets no reply.
- Data that arrives in FIN-WAIT-2 is neither delivered nor acknowledged, for the same reason.
- SND.UNA goes back exactly when a reset connection is opened again after an acknowledgment was accepted beyond ISS.
- The TCP receiver refuses a checksum field of all ones, which the sum to 0xFFFF alone would accept.
- An agent connection announced again before its EOF is starved by the older one.
- The log writer drops nothing but line ends exactly when every line fits a file and the first one the room left in
  the open file. A rotated file, or an older one, is lost exactly when the last rotation of the call under its name,
  which has a resolution of one second, left other contents.
- A forced removal drops cache entries of every path whose text contains the directory's path. Copying a file onto
  itself empties it, and moving it there deletes it.
- A handler that does not check its connection loses the peeked bytes when a candidate before it does check.
- Wildcard address matching is not transitive. The lookup is independent of the map's order exactly when all
  matching entries have the same services, which a concrete local address ensures.
- Kamstrup unescaping fails when the first byte or the end marker is the escape byte.
- Line tailing depends on how the text is cut when it has line boundaries other than newline.
- A log appended with an id below one already handled is never normalised.

## Model

| member | source | states |
|---|---|---|
| PoolModel.ChooseMeaning | Honeypots/cowrie/src/backend_pool/pool_service.py:406-451 | The guest granted: first one that served the address, else first available one, else (when sharing) a usable one with fewest clients, first among equals; none exactly when all three fail |
| PoolModel.RemainingMeaning | Honeypots/cowrie/src/backend_pool/pool_service.py:317-324 | Removal keeps exactly the guests that are not destroyed, and existing_pool_size is their number |
| PoolModel.CreateAllMeaning | Honeypots/cowrie/src/backend_pool/pool_service.py:347-377 | Creation only appends, one guest per address, and leaves the listed guests alone |
| PoolSystem.BindingGrantOk | Honeypots/cowrie/src/backend_pool/nat.py:89-111 | A grant keeps the table sound: every binding's count equals the sessions on its id and it has two open listeners of its own, and no listener is open without a binding |
| PoolSystem.BindingReleaseOk | Honeypots/cowrie/src/backend_pool/nat.py:113-121 | Giving a granted id back never meets a missing entry and keeps the same soundness, so the last session takes the binding and both its listeners with it |
| PoolSystem.StepKeepsInv | Honeypots/cowrie/src/backend_pool/pool_server.py:53-187 | Every server message and every producer phase keeps counts, bindings, listeners and ids consistent |
| PoolSystem.RunKeepsInv | Honeypots/cowrie/src/backend_pool/pool_server.py:53-187 | The same over whole runs of any interleaving |
| PoolTheorems.CountsAgreeOnEveryRun | Honeypots/cowrie/src/backend_pool/pool_server.py:74-187 | On every run that creates no guest on an id in use, the guest's count, the outstanding sessions on its id and the binding's count are one number; a binding exists exactly when it is positive and holds two open listeners of its own; created, available and used guests have no client |
| PoolTheorems.OnlyFailedGuestsDieWithClients | Honeypots/cowrie/src/backend_pool/pool_service.py:258-315 | A guest with a client that is unavailable or destroyed failed a health check at an earlier event of the run |
| PoolTheorems.TimeoutSparesClients | Honeypots/cowrie/src/backend_pool/pool_service.py:258-280 | Timeout marking changes no guest with a client, at any clock value |
| PoolHistory.MarkingTakesExactly | Honeypots/cowrie/src/backend_pool/pool_service.py:258-280 | Marking makes a guest unavailable exactly when it is used and was freed longer ago than the timeout; every other field and guest stays |
| PoolHistory.FreedGuestTimesOutExactly | Honeypots/cowrie/src/backend_pool/pool_service.py:258-280 | On every run: a guest whose last client freed it at t, with no grant, failed check or late marking since, is taken by a marking phase exactly when the clock is past t plus the timeout and it is not alone |
| PoolHistory.ClientsAreGrants | Honeypots/cowrie/src/backend_pool/pool_service.py:434-459 | On every run a guest's client list is the addresses it was granted to, in order |
| PoolHistory.ReturningClientIsServedAgain | Honeypots/cowrie/src/backend_pool/pool_service.py:406-451 | On every run an address granted a guest before is granted it again while it is used or in use, unless an earlier listed one was granted to it too |
| PoolTheorems.PortsLastTheSession | Honeypots/cowrie/src/backend_pool/nat.py:89-121 | While an id keeps a session its binding keeps the same two listeners on the same ports, over any run |
| PoolTheorems.FailedMessagesChangeNothing | Honeypots/cowrie/src/backend_pool/pool_server.py:137-187 | A request that finds no guest only stops a pool that was ever up; with NAT, giving back an id without a binding changes nothing |
| PoolTheorems.PoolStaysWithinLimit | Honeypots/cowrie/src/backend_pool/pool_service.py:347-403 | With max_vm fixed no run whatsoever exceeds it, id clashes and stray messages included, and a creation phase without a backend error leaves exactly max_vm guests, none destroyed |
| PoolTheorems.PassFillsPool | Honeypots/cowrie/src/backend_pool/pool_service.py:379-403 | A producer pass equals its phases in turn and, unless the backend raises, refills the pool to max_vm |
| PoolTheorems.ListChangesOnlyInTwoPhases | Honeypots/cowrie/src/backend_pool/pool_service.py:434-482 | No client message and no other phase changes which guests are listed |
| PoolTheorems.IdsFollowCreation | Honeypots/cowrie/src/backend_pool/pool_service.py:373-377 | On every run an id is the creation number mod 252; listed ids are distinct while the oldest listed guest is among the last 252 created |
| PoolTheorems.RecentIdsDoNotClash | Honeypots/cowrie/src/backend_pool/pool_service.py:373-377 | If every id in use and the guest listed longest were issued so lately that the batch ends within 252 creations of them, the batch meets no id in use |
| PoolIds.RecentRunIsAllowed | Honeypots/cowrie/src/backend_pool/pool_service.py:373-377 | Over whole runs: recent sessions and a recent list together give the assumption of the run theorems |
| PoolIds.ConsistentExactly | Honeypots/cowrie/src/backend_pool/pool_service.py:347-377 | For clients that give back only their own, counts, bindings and ids are consistent throughout a run exactly when no guest was created while its id was in use |
| PoolIds.SessionsAloneAreNotEnough | Honeypots/cowrie/src/backend_pool/pool_service.py:434-470 | A run from the start with no session open at any creation, in which a never-booting guest ends with -1 clients |
| PoolTheorems.ListedIpsDistinct | Honeypots/cowrie/src/backend_pool/pool_service.py:227-231 | Listed addresses stay pairwise distinct when the backend hands out only addresses is_ip_free accepts |
| PoolRevival.DestroyedGuestReturnsExactly | Honeypots/cowrie/src/backend_pool/pool_service.py:301-324 | On every run from the start, a guest the backend destroyed is never listed in another state exactly if no last client gives one back before the remove phase |
| PoolRevival.FailedGuestReturnsExactly | Honeypots/cowrie/src/backend_pool/pool_service.py:282-324 | On every run from the start, a guest that failed a health check stays unavailable or destroyed exactly if no last client gives one back while it is still listed |
| PoolExamples.DestroyedGuestGrantedAgain | Honeypots/cowrie/src/backend_pool/pool_service.py:434-470 | A run from the start, event by event: granted to one client, destroyed, given back, and granted to another client |
| PoolRevival.GuestStrandedExactly | Honeypots/cowrie/src/backend_pool/pool_service.py:472-482 | On every run from the start, every guest in use has a client throughout exactly if no last client gives back by reuse a guest already in use at its last grant |
| PoolExamples.StrandedGuest | Honeypots/cowrie/src/backend_pool/pool_service.py:258-280 | Two overlapping sessions given back by reuse leave a guest in use with no client, which no timeout takes |
| PoolService.PoolService.MarkTimedOut | Honeypots/cowrie/src/backend_pool/pool_service.py:258-280 | The in-place loop marks exactly the specified guests and leaves the rest |
| PoolService.PoolService.DestroyTimedOut | Honeypots/cowrie/src/backend_pool/pool_service.py:301-315 | The loop destroys the unavailable guests whose teardown does not raise |
| PoolService.PoolService.CheckHealth | Honeypots/cowrie/src/backend_pool/pool_service.py:282-299 | The loop makes unavailable exactly the probed guests that are down |
| PoolService.PoolService.RemoveDestroyed | Honeypots/cowrie/src/backend_pool/pool_service.py:317-324 | Collecting and then removing one by one, by identity, leaves the list filtered |
| PoolService.PoolService.CreateGuests | Honeypots/cowrie/src/backend_pool/pool_service.py:347-377 | Creation up to max_vm, id wrap included; stops early when the backend raises |
| PoolService.PoolService.MarkAvailable | Honeypots/cowrie/src/backend_pool/pool_service.py:326-345 | Boots exactly the created guests that respond, and records whether any ever did |
| PoolService.PoolService.ProducerLoop | Honeypots/cowrie/src/backend_pool/pool_service.py:379-403 | One pass of the mutable service is the specified pass |
| PoolService.PoolService.RequestVm | Honeypots/cowrie/src/backend_pool/pool_service.py:434-459 | Grants the chosen guest and changes only that one; None exactly when there is none to choose |
| PoolService.PoolService.FreeVm | Honeypots/cowrie/src/backend_pool/pool_service.py:461-470 | Gives back the first guest with the id; the last client makes it used |
| PoolService.PoolService.ReuseVm | Honeypots/cowrie/src/backend_pool/pool_service.py:472-482 | As free, but the last client restores the state before the request |
| PoolService.NatService.RequestBinding | Honeypots/cowrie/src/backend_pool/nat.py:89-111 | Counts an existing binding up or opens two listeners, returning the ports they are on |
| PoolService.NatService.FreeBinding | Honeypots/cowrie/src/backend_pool/nat.py:113-121 | Counts down, closes both listeners at zero; false for a missing entry |
| PoolService.PoolServer.ReceiveRequest | Honeypots/cowrie/src/backend_pool/pool_server.py:90-148 | The reply names the chosen guest, with the public address and its binding's ports under NAT, else the guest's own address and the configured ports; the whole state is the specified step |
| PoolService.PoolServer.ReceiveFree | Honeypots/cowrie/src/backend_pool/pool_server.py:150-166 | Binding first, then guest; a missing entry leaves the pool untouched |
| PoolService.PoolServer.ReceiveReuse | Honeypots/cowrie/src/backend_pool/pool_server.py:168-184 | The same for reuse |
| PoolService.PoolServer.ReceiveConfig | Honeypots/cowrie/src/backend_pool/pool_server.py:58-72 | The three settings are those of the message, in its order |
| TcpTheorems.OutboundIsGapless | Honeypots/honeytrap/listener/canary/canary_linux.go:366-379 | Section 3.3 of RFC 793: under any interleaving of segments, writes and closes each outbound segment but a SYN-ACK starts where the previous one ended, mod 2^32 |
| TcpTheorems.NumbersAddUp | Honeypots/honeytrap/listener/canary/state.go:83-106 | Between handshakes a segment's number is an earlier one's plus everything sent between them |
| TcpTheorems.NumbersDoNotOverlap | Honeypots/honeytrap/listener/canary/state.go:83-106 | Two places in different segments have different numbers while the span fits 2^32 |
| TcpTheorems.EstablishedExactly | Honeypots/honeytrap/listener/canary/canary_linux.go:458-468 | Established is entered exactly from SYN-RECEIVED on an acceptable ACK without FIN; with FIN the connection ends in CLOSE-WAIT |
| TcpTheorems.CanEstablishExactly | Honeypots/honeytrap/listener/canary/canary_linux.go:366-468 | Some sequence of segments establishes the connection exactly if ISS + 2 does not wrap; resets and new handshakes do not help |
| TcpTheorems.UnaStep | Honeypots/honeytrap/listener/canary/canary_linux.go:546-549 | SND.UNA moves only forward, to an acknowledged number not above SND.NXT, except on a new handshake |
| TcpTheorems.UnaStaysBehindNext | Honeypots/honeytrap/listener/canary/canary_linux.go:546-549 | On every trace without wrap-around SND.UNA does not pass SND.NXT |
| TcpTheorems.UnaNeverDecreases | Honeypots/honeytrap/listener/canary/canary_linux.go:366-549 | Over every trace: SND.UNA never decreases exactly when no event is a handshake on a connection that accepted an acknowledgment beyond ISS |
| TcpTheorems.UnaGoesBackExactly | Honeypots/honeytrap/listener/canary/canary_linux.go:366-379 | One event takes SND.UNA back exactly when it is a handshake in LISTEN with SND.UNA above ISS |
| TcpTheorems.UnaGoesBackOnReopening | Honeypots/honeytrap/listener/canary/canary_linux.go:383-415 | A concrete trace: reset, acknowledgment and new SYN take SND.UNA back |
| TcpTheorems.ReceivedBytesAreCounted | Honeypots/honeytrap/listener/canary/canary_linux.go:593-637 | On every trace, until a FIN is processed, RCV.NXT is the peer's SYN number plus one plus the bytes handed to the socket; SynSent, Closing and LastAck are never reached |
| TcpTheorems.DataAcknowledgedExactly | Honeypots/honeytrap/listener/canary/canary_linux.go:593-619 | On every trace, in every state: a segment with ACK and neither SYN nor FIN has its data delivered exactly in Established, FIN-WAIT-1 and acceptably in SYN-RECEIVED, and there one bare ACK covers all data so far when it carried any; otherwise nothing is delivered or sent |
| TcpTheorems.SentIsWritten | Honeypots/honeytrap/listener/canary/state.go:83-106 | Under any interleaving the data of the outbound segments is the data written, in order |
| TcpTheorems.SynIsAnswered | Honeypots/honeytrap/listener/canary/canary_linux.go:366-379 | A SYN in LISTEN is answered by one SYN-ACK numbered ISS+1 that acknowledges it |
| TcpTheorems.RemovedExactly | Honeypots/honeytrap/listener/canary/canary_linux.go:383-448 | A connection leaves the table exactly by RST or ACK in CLOSE-WAIT, where the peer's FIN was processed, or by RST in TIME-WAIT |
| TcpTheorems.FinAcknowledgedExactly | Honeypots/honeytrap/listener/canary/canary_linux.go:584-675 | On every trace, for any flags: the first in-order FIN is handled, its data delivered and all of it acknowledged exactly when it carries no data, has ACK without SYN, and the state is Established, FIN-WAIT-1, or SYN-RECEIVED with an acceptable ACK and no RST; which reply and state follow |
| TcpTheorems.FinLostInFinWait2 | Honeypots/honeytrap/listener/canary/canary_linux.go:584-675 | An ordinary trace to FIN-WAIT-2, where the FIN gets no reply and its data is dropped |
| TcpState.State.Handle | Honeypots/honeytrap/listener/canary/canary_linux.go:366-692 | The field-by-field handler equals the specified step, and asks for removal exactly when the code does |
| TcpState.State.Write | Honeypots/honeytrap/listener/canary/state.go:83-91 | One PSH+ACK segment at SND.NXT, which then advances by the payload mod 2^32 |
| TcpState.State.Close | Honeypots/honeytrap/listener/canary/state.go:93-106 | One FIN+ACK segment, SND.NXT advanced by one, FIN-WAIT-1 |
| TcpState.Table.Add | Honeypots/honeytrap/listener/canary/state.go:112-142 | The two passes over the array change exactly one slot, or none and panic |
| TcpState.Table.Get | Honeypots/honeytrap/listener/canary/state.go:145-172 | Returns the first matching state in slot order; null exactly when none matches |
| TcpState.PacketMatchesExactly | Honeypots/honeytrap/listener/canary/state.go:145-172 | A packet with different ports and addresses is a connection's exactly when both pairs are the connection's, each in either order |
| TcpState.Table.Remove | Honeypots/honeytrap/listener/canary/state.go:174-183 | Clears the first slot of the state and no other |
| TcpState.Canary.HandleTcp | Honeypots/honeytrap/listener/canary/canary_linux.go:313-692 | Which packets are ignored, which open a connection and in which slot, and that the first matching state handles the rest; every other connection is unchanged, and a slot is cleared exactly when the handled segment removes |
| StateTable.AddMeaning | Honeypots/honeytrap/listener/canary/state.go:112-142 | Add fills one slot: first vacant or TIME-WAIT, else first idle; it panics exactly when there is neither |
| StateTable.StaysInSlot | Honeypots/honeytrap/listener/canary/state.go:112-183 | Over every run a connection not removed and at no Add in TIME-WAIT or idle for 30 seconds keeps its slot |
| StateTable.OneSlotEach | Honeypots/honeytrap/listener/canary/state.go:112-183 | Over every run no connection occupies two slots |
| Checksum.UpdateTcpChecksum | Honeypots/honeytrap/listener/canary/canary_linux.go:944-982 | Section 3.1 of RFC 793: for even and odd lengths up to 65535 the one's-complement sum of pseudo-header and segment becomes 0xFFFF, only the checksum field changes, no sum leaves 32 bits, the folds end |
| Checksum.WriteIpChecksum | Honeypots/honeytrap/listener/canary/canary_linux.go:743-770 | Section 3.1 of RFC 791: the same for the twenty bytes of the IP header |
| Checksum.FoldMeaning | Honeypots/honeytrap/listener/canary/canary_linux.go:970-980 | Section 1 of RFC 1071: folding yields the residue mod 65535, with 0xFFFF for a positive multiple |
| Checksum.PseudoHeaderIsStandard | Honeypots/honeytrap/listener/canary/canary_linux.go:944-962 | What is added for the pseudo-header is the word sum of the standard's twelve bytes |
| Checksum.WordsAreBigEndian | Honeypots/honeytrap/listener/canary/canary_linux.go:963-969 | Two bytes count as one word with the first high, an odd last byte as a high byte |
| Checksum.Verify | Honeypots/honeytrap/listener/canary/tcp/tcp.go:346-377 | The receiver's loop accepts exactly when its field equals the complement of the folded sum |
| Checksum.AcceptsExactly | Honeypots/honeytrap/listener/canary/tcp/tcp.go:163-172 | It accepts exactly the segments that sum to 0xFFFF and whose field is not all ones |
| Checksum.SentIsAccepted | Honeypots/honeytrap/listener/canary/tcp/tcp.go:163-172 | Whatever the sender writes the receiver accepts, with the addresses exchanged |
| Checksum.OneWordChange | Honeypots/honeytrap/listener/canary/tcp/tcp.go:346-377 | A change of one word goes unnoticed exactly when it swaps all zeros and all ones |
| AgentWire.FieldsRoundTrip | Honeypots/honeytrap/listener/agent/decoder.go:34-92 | Fields in range are read back as written and the rest of the input is untouched |
| AgentWire.BodyRoundTrip | Honeypots/honeytrap/listener/agent/messages.go:22-229 | For all seven types a body decodes to the message it was made from |
| AgentWire.DecodedInRange | Honeypots/honeytrap/listener/agent/messages.go:22-229 | Whatever the bytes, a decoded message can be encoded again, unless an address has an unknown protocol |
| AgentWire.FrameRoundTripExactly | Honeypots/honeytrap/listener/agent/conn2.go:36-125 | A frame is received as sent exactly when fields, addresses and body fit their length prefixes |
| AgentWire.StreamRoundTrip | Honeypots/honeytrap/listener/agent/conn2.go:36-125 | Any sequence of messages sent is received as the same sequence |
| AgentWire.FrameLayout | Honeypots/honeytrap/listener/agent/messages.go:22-229 | The frame of each of the seven messages byte for byte: type number, length low byte first, protocol numbers, sized addresses and fields in order |
| AgentCodec.MarshalBinary | Honeypots/honeytrap/listener/agent/messages.go:22-229 | The buffer-writing encoder produces the specified body |
| AgentCodec.UnmarshalBinary | Honeypots/honeytrap/listener/agent/messages.go:22-229 | The moving decoder yields what the specification decodes, nothing for an unknown type; what a short body misses is empty or zero |
| AgentCodec.Conn2.Send | Honeypots/honeytrap/listener/agent/conn2.go:87-125 | Appends one frame to the outbound stream |
| AgentCodec.Conn2.Receive | Honeypots/honeytrap/listener/agent/conn2.go:36-85 | Takes one frame off the inbound stream |
| AgentDemux.DemuxIsFaithful | Honeypots/honeytrap/listener/agent/agent.go:171-240 | With no pair announced again before its EOF, after any interleaving of messages, reads and closes every connection is as its own trace says |
| AgentDemux.FaithfulConnection | Honeypots/honeytrap/listener/agent/connection.go:44-92 | Bytes read then bytes buffered equal the payloads for the pair from Hello to EOF or local close, in order |
| AgentDemux.EofsGoOut | Honeypots/honeytrap/listener/agent/connection.go:122-141 | Over every run without re-announcement, the EOFs sent to the agent are one for each connection its handler closes or the agent's EOF retires, with its own pair, in order, and none at the end of the session |
| AgentDemux.ReannouncedIsStarved | Honeypots/honeytrap/listener/agent/connections.go:56-73 | A new connection of a pair gets the pair's next payload exactly when all earlier ones had their EOF |
| AgentDemux.SentIsDelivered | Honeypots/honeytrap/listener/agent/conn2.go:36-125 | End to end: messages framed by the agent are buffered per connection as due |
| AgentListener.AgentConnection.Receive | Honeypots/honeytrap/listener/agent/connection.go:44-58 | Appends to the buffer unless closed |
| AgentListener.AgentConnection.Read | Honeypots/honeytrap/listener/agent/connection.go:60-92 | Hands out the front of the buffer; read and remaining bytes make up what was there |
| AgentListener.AgentSession.Dispatch | Honeypots/honeytrap/listener/agent/agent.go:171-226 | One turn of the loop over the shared slice is the specified step for every connection |
| AgentListener.AgentSession.Serve | Honeypots/honeytrap/listener/agent/agent.go:75-241 | Handshake, all messages of the stream, then clean-up; nothing happens without a handshake |
| RotateFile.NothingElseIsDropped | Honeypots/honeytrap/pushers/file/rotatefile.go:87-127 | Pieces written and one byte per rotation make up the input in order; pieces fit the limit; the byte after a non-empty piece is a newline |
| RotateFile.DataIsLostExactly | Honeypots/honeytrap/pushers/file/rotatefile.go:96-120 | The dropped byte is not a newline exactly when the searched part of the input has none |
| RotateFile.OnlyNewlinesDroppedExactly | Honeypots/honeytrap/pushers/file/rotatefile.go:87-127 | A whole call drops nothing but newlines exactly when every stretch without one fits a file, and the one at the start the room left |
| RotateFile.WriteMeaning | Honeypots/honeytrap/pushers/file/rotatefile.go:87-127 | With enough renames Write reports all its input, keeps pos equal to the file's length and within the limit, and leaves the last piece open |
| RotateFile.FailsExactly | Honeypots/honeytrap/pushers/file/rotatefile.go:109-112 | Write ends with a rename's error exactly when the input needs more rotations than renames succeed, and reports what it had taken in by then |
| RotateFile.EveryFileIsKept | Honeypots/honeytrap/pushers/file/rotatefile.go:59-70 | With stamps that do not repeat every rotated file is in the archive under its name with its contents, and older ones stay |
| RotateFile.RotationOverwritesExactly | Honeypots/honeytrap/pushers/file/rotatefile.go:59-127 | Over a whole Write, complete or ended by a failing rename: a file older than the call or rotated out by it is still there exactly when the last rotation under its name, if any, left the same contents |
| RotateFile.LinesOfOneSecondAreLost | Honeypots/honeytrap/pushers/file/rotatefile.go:59-127 | Three short lines written within one second: the first is in no file |
| RotateFile.File.Search | Honeypots/honeytrap/pushers/file/rotatefile.go:97-104 | The backward loop stops at the last newline within the limit, or at 0, without leaving the input |
| RotateFile.File.Write | Honeypots/honeytrap/pushers/file/rotatefile.go:87-127 | The loops terminate and yield exactly the specified result and file; a slice out of range happens only with pos past the limit |
| CachedFs.NoStaleEver | Honeypots/conpot/conpot/core/filesystem.py:246-484 | Across every sequence of operations, failing ones included, every cache key names a node of the tree, of the cached kind |
| CachedFs.ApplyKeeps | Honeypots/conpot/conpot/core/filesystem.py:340-413 | The same for one operation |
| CachedFs.CompleteExactly | Honeypots/conpot/conpot/core/filesystem.py:371-398 | An operation leaves every node cached exactly unless it is a forced removal whose path text occurs in another path |
| CachedFs.CacheMirrorsTree | Honeypots/conpot/conpot/core/filesystem.py:246-484 | Without such a removal tree and cache name the same paths after every sequence |
| CachedFs.BystanderFailsLater | Honeypots/conpot/conpot/core/filesystem.py:371-413 | A concrete case: removing /a makes removing /ab raise a KeyError after the file is gone |
| CachedFs.MoveCarriesExactly | Honeypots/conpot/conpot/core/filesystem.py:467-484 | A successful move carries the contents exactly when the paths differ |
| CachedFs.CopyCarriesExactly | Honeypots/conpot/conpot/core/filesystem.py:477-484 | A successful copy leaves the source's contents at the destination exactly when the paths differ or the file was empty |
| CachedFs.CopyFiles | Honeypots/conpot/conpot/core/fs_utils.py:42-50 | The chunked copy loop yields the source, for every positive buffer size |
| FsEffects.ChownMeaning | Honeypots/conpot/conpot/core/filesystem.py:645-688 | A successful chown sets user and group of exactly the paths it is about; modes, other entries and the tree stay |
| FsEffects.ChmodMeaning | Honeypots/conpot/conpot/core/filesystem.py:864-887 | A successful chmod sets the mode of exactly the paths it is about; owners, other entries and the tree stay |
| FsEffects.MakeDirMeaning | Honeypots/conpot/conpot/core/filesystem.py:340-369 | Succeeds exactly on a directory or inside one; leaves a directory with default owner and the given or default mode, and nothing else changed |
| FsEffects.RemoveMeaning | Honeypots/conpot/conpot/core/filesystem.py:400-413 | A successful remove takes away one file and its entry |
| FsEffects.RemoveDirMeaning | Honeypots/conpot/conpot/core/filesystem.py:371-398 | A successful removedir takes away the directory and all below it, with force unless it was empty, and says which entries go |
| FsEffects.WriteMeaning | Honeypots/conpot/conpot/core/fs_utils.py:89-111 | A successful write leaves the data and default metadata, and nothing else changed |
| FsEffects.CopyMeaning | Honeypots/conpot/conpot/core/filesystem.py:467-484 | A successful copy between different paths changes the destination alone; a move also takes the source away |
| AbstractFs.AbstractFs.SetInfo | Honeypots/conpot/conpot/core/filesystem.py:246-338 | Updates or creates the entry of an existing node only |
| AbstractFs.AbstractFs.MakeDir | Honeypots/conpot/conpot/core/filesystem.py:340-369 | The mutable operation equals its specification on tree and cache; an existing file raises |
| AbstractFs.AbstractFs.RemoveDir | Honeypots/conpot/conpot/core/filesystem.py:371-398 | The same, with the loop that pops every key containing the path |
| AbstractFs.AbstractFs.Remove | Honeypots/conpot/conpot/core/filesystem.py:400-413 | The same, the KeyError after the backing removal included |
| AbstractFs.AbstractFs.WriteFile | Honeypots/conpot/conpot/core/fs_utils.py:89-111 | Open, write and close leave the data in the tree and default metadata in the cache |
| AbstractFs.AbstractFs.Move | Honeypots/conpot/conpot/core/filesystem.py:467-475 | Copy then remove, with the failures of both |
| AbstractFs.AbstractFs.Copy | Honeypots/conpot/conpot/core/filesystem.py:477-484 | Contents through the copy loop, then metadata |
| AbstractFs.AbstractFs.Chown | Honeypots/conpot/conpot/core/filesystem.py:645-688 | Ownership of the path or of everything the walk visits |
| AbstractFs.AbstractFs.Chmod | Honeypots/conpot/conpot/core/filesystem.py:864-887 | Mode of the path or of everything the walk visits |
| SandboxPaths.CleanRendered | Honeypots/honeytrap/services/filesystem/htfs.go:40-52 | Cleaning is the identity on clean rooted paths |
| SandboxPaths.CleanAbsolute | Honeypots/honeytrap/services/filesystem/htfs.go:40-52 | Cleaning turns every absolute path into a clean rooted one |
| SandboxPaths.RealPathMeaning | Honeypots/honeytrap/services/filesystem/htfs.go:40-52 | The real path is the root followed by the path resolved inside the sandbox |
| SandboxPaths.RealPathWalks | Honeypots/honeytrap/services/filesystem/htfs.go:40-52 | From where any path leads, one more component stays, goes to the directory above (the root stays) or into the name |
| SandboxPaths.RealPathStarts | Honeypots/honeytrap/services/filesystem/htfs.go:40-52 | A relative path starts at the working directory, an absolute one at the root |
| SandboxPaths.UpAndDown | Honeypots/honeytrap/services/filesystem/htfs.go:40-52 | ".." leads to the working directory's parent, a name into it, and p/n/.. where p leads |
| SandboxPaths.RealPathStaysInside | Honeypots/honeytrap/services/filesystem/htfs.go:40-52 | For every string the real path is the root or below it |
| SandboxPaths.ChangeDirMeaning | Honeypots/honeytrap/services/filesystem/htfs.go:59-78 | Succeeds exactly on a directory; the new cwd is clean and rooted and "." then leads where the path led |
| SandboxPaths.ChangeDirWalks | Honeypots/honeytrap/services/filesystem/htfs.go:59-78 | A change by one component moves the working directory up, into the name, or nowhere |
| SandboxPaths.SessionStaysInside | Honeypots/honeytrap/services/filesystem/htfs.go:40-78 | After any sequence of changes cwd is clean and rooted and no path leads outside |
| SandboxPaths.Htfs.ChangeDirectory | Honeypots/honeytrap/services/filesystem/htfs.go:59-78 | The method updates cwd exactly as specified, and only on success |
| Dispatch.MatchingIsTransitiveThroughConcrete | Honeypots/honeytrap/server/honeytrap.go:288-326 | Two addresses matching one with a concrete IP match each other |
| Dispatch.MatchingIsNotTransitive | Honeypots/honeytrap/server/honeytrap.go:288-326 | Through a wildcard they need not |
| Dispatch.MatchExactly | Honeypots/honeytrap/server/honeytrap.go:288-326 | Two addresses match exactly with the same transport, the same port and no two different IPs (in 16-byte form) |
| Dispatch.RegisteredApart | Honeypots/honeytrap/server/honeytrap.go:576-628 | No two registered addresses match, earlier ones stay, and every usable entry is served or clashes |
| Dispatch.EntryRegisteredExactly | Honeypots/honeytrap/server/honeytrap.go:576-628 | Each configured entry is registered exactly when it has services and no entry registered before has its transport, its port and an equal or absent IP |
| Dispatch.RegisterAll | Honeypots/honeytrap/server/honeytrap.go:576-628 | The nested loops build exactly that table |
| Dispatch.AtMostOneMatch | Honeypots/honeytrap/server/honeytrap.go:176-187 | A concrete local address matches at most one registered one |
| Dispatch.FindCandidates | Honeypots/honeytrap/server/honeytrap.go:176-190 | The loop over the map keeps the last matching entry's services, those of an entry of the local transport and port |
| Dispatch.ServicesFoundExactly | Honeypots/honeytrap/server/honeytrap.go:176-190 | A lookup yields the services of an entry with the local transport and port and an equal or absent IP, and none only when there is no such entry |
| Dispatch.LookupIgnoresOrder | Honeypots/honeytrap/server/honeytrap.go:176-190 | For a concrete local address the result is the same for every order of the map |
| Dispatch.OrderMattersExactly | Honeypots/honeytrap/server/honeytrap.go:176-190 | For every table and local address, all orders of the map give the same candidates exactly when all matching entries have the same services |
| Dispatch.WildcardLocalDependsOnOrder | Honeypots/honeytrap/server/honeytrap.go:176-190 | An instance for an address without an IP, which compareAddr admits |
| Dispatch.ChooseService | Honeypots/honeytrap/server/honeytrap.go:190-227 | The loop, with the wrapper it makes at the first checking candidate, picks the specified service and leaves the connection with the specified bytes |
| Dispatch.HandlerSeesStreamExactly | Honeypots/honeytrap/server/honeytrap.go:192-227 | The first willing candidate is chosen, and calls on the connection it is given can yield the whole stream exactly unless it does not check, the first of several candidates does, and the peek returned something |
| Dispatch.CallsKeepStream | Honeypots/honeytrap/server/peek-connection.go:36-58 | For any mix of peeks and reads of any sizes, bytes read, then buffered, then unread on the wire are the original stream |
| Dispatch.PeekConnection.Peek | Honeypots/honeytrap/server/peek-connection.go:36-44 | Reads on from the connection and buffers what it shows; what can still be read is unchanged |
| Dispatch.PeekConnection.Read | Honeypots/honeytrap/server/peek-connection.go:46-58 | Serves the buffer first, then the wire; what is handed out and what is left make up what there was |
| Kamstrup.EscapeLoop | Honeypots/conpot/bin/kamstrup_prober.py:70-78 | The inserting loop with its moving bound yields the stuffed message |
| Kamstrup.UnescapeLoop | Honeypots/conpot/bin/kamstrup_prober.py:93-100 | The deleting loop yields the unstuffed data, or fails on a trailing escape byte |
| Kamstrup.ComplementFlipsBits | Honeypots/conpot/bin/kamstrup_prober.py:72-73 | The byte put in for an escaped one has each of the eight bits flipped |
| Kamstrup.RoundTripExactly | Honeypots/conpot/bin/kamstrup_prober.py:70-100 | Unescaping undoes escaping exactly when neither the first byte nor the end marker is the escape byte |
| Kamstrup.MarkerInsideExactly | Honeypots/conpot/bin/kamstrup_prober.py:70-78 | When the end marker occurs before the final byte, in terms of the message's bytes |
| Kamstrup.MarkerOnlyAtEnd | Honeypots/conpot/bin/kamstrup_prober.py:70-78 | Under the protocol's side conditions the marker is the final byte and no other |
| FollowTail.ChunkingIsInvisibleExactly | Honeypots/honeypy/lib/followtail.py:64-77 | Lines delivered and text left over equal those of the whole text split at newlines, for a split into non-empty chunks, exactly when newline is its only line boundary |
| FollowTail.PlainFeed | Honeypots/honeypy/lib/followtail.py:64-77 | With newline as the only boundary every chunking gives the complete lines in order and the unfinished tail |
| FollowTail.FeedUnbroken | Honeypots/honeypy/lib/followtail.py:64-77 | No delivered line and no buffer ever contains a line boundary |
| FollowTail.FirstLineSplit | Honeypots/honeypy/lib/followtail.py:64-77 | A line ends at the first boundary, where carriage return and newline in a row are one |
| FollowTail.Follower.Receive | Honeypots/honeypy/lib/followtail.py:64-77 | The method updates buffer and delivered lines as specified |
| Normalizer.EachLogOnceInOrder | Code/normalizer/normalizer_loop.py:106-118 | With increasing ids, however polls and appends interleave, the logs handled are a prefix of the collection, and all of it after a poll |
| Normalizer.HandledExactly | Code/normalizer/normalizer_loop.py:106-118 | Any ids: once polled, a log has been handled exactly if its id was above the last handled one when it was appended |
| Normalizer.PollTakesTheNewer | Code/normalizer/normalizer_loop.py:106-118 | Any ids: what is handled is strictly increasing in id, and a poll adds exactly the newer logs |
| Normalizer.DocumentsAreTheBatch | Code/normalizer/normalizer_loop.py:115-139 | The documents and the ports on record are those of one pass over all handled logs |
| Normalizer.LineTagsExactly | Code/normalizer/normalizer_loop.py:82-103 | For each of the eight text tags, exactly the phrases that give it |
| Normalizer.HasExactly | Code/normalizer/normalizer_loop.py:82-103 | A phrase is found exactly when the text is something, the phrase, and something |
| Normalizer.ScanTaggedExactly | Code/normalizer/normalizer_loop.py:82-139 | The k-th document of any run is that of the k-th fruitful log handled, and has the port-scan tag exactly when the logs handled before that one gave its address more than ten distinct ports |
| Normalizer.ScheduleLeavesNoTrace | Code/normalizer/normalizer_loop.py:106-139 | For one collection with increasing ids the state after a final poll does not depend on the schedule of polls |
| Normalizer.Loop.Poll | Code/normalizer/normalizer_loop.py:115-139 | The loop over a cursor equals the fold over its logs |
| Normalizer.Loop.Pass | Code/normalizer/normalizer_loop.py:106-139 | One pass over the collections is their polls in turn |

## Left out

Pool
- Every server message and every producer phase is one atomic step; the unlocked gap inside request_vm is not modelled.
- Runs end at stop_pool or free_all; pool restart, snapshots, domains and start times are not modelled.
- The backend and the clock are inputs: which guests are down, raise or boot, the addresses handed out, the ports chosen by the operating system.
- Clients give back only what they were granted, in the theorems that say so. Removal from the guest list is by identity.
- serial, sessions, failed and gone are history that the source does not keep.

Canary
- `send` records a segment and `socket.write` records bytes: ARP, routes, Ethernet frames and the ring buffer are out, and so is parsing of packets and of addresses.
- `Socket.close` has a value receiver and changes nothing, so `closed` is not modelled.
- Checksum.UpdateTcpChecksum: covers segments from 18 bytes and addresses of 16 bytes, which is what the callers pass.

Agent
- The base protocol package is not part of this model: numbers are little-endian of fixed width, reads fill the buffer, a failed read yields zero and sets the error. Its encoder is taken to write through: the marshaller of Handshake is the only one with fields that does not flush.
- The rendering of addresses used for lookup is a parameter; timeouts, blocked channels and the goroutines of handlers are out, the panic of a nil address too.

Other components
- In the log writer underlying writes are complete, and the constructor's rename succeeds; what a write after a failed rename does is out.
- In Conpot's file system validatepath and the order of a recursive walk are parameters; times, symbolic links, user names and details beyond kind, owner and mode are out. The backing library is not part of the repository: its makedir is taken to open the directory afterwards.
- For sandbox paths the path library is modelled from its documented lexical behaviour and is not part of the repository; symbolic links are out, and the root is clean and absolute.
- In service dispatch a peek is one read; deadlines, TLS and the handlers are out. Neither the socket listener nor the agent decoder yields a local address without an IP, so Dispatch.WildcardLocalDependsOnOrder is about compareAddr and not about a connection known to occur.
- In byte stuffing the escape byte, the end marker and the set of bytes to escape are parameters; checksums and sockets are out.
- Line tailing covers only text already read: following, rotation and decoding of the file are out.
- In the normaliser what the regular expressions find and lower-casing are parameters, protocol detection and time stamps are out; the turn of one collection is one step.
- Canned-response services, dashboards, forwarders and learning code are out: they are single branches or input and output.
