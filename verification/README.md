# A model of a user-space TCP/IP stack

This project models the core of a TCP/IP stack that runs in user space - byte stream, stream
reassembler, sequence-number wrapping, TCP sender, receiver and connection, the checksummed
segment codec, an ARP interface and a longest-prefix router - and proves what holds of it over
every input and every run.

`dafny verify dfyconfig.toml` checks the whole project.

## How it is built

Each stateful part exists twice. A datatype holds the fields of the part as a value, with a
function per operation; the theorems about runs are about these. A class holds the fields the
code has, with the loops and branches of the code, and every method is proved to change the
state as the function says. History that the theorems need and the code does not keep is part
of the values: all bytes a stream ever accepted, all original transmissions of a sender, all
datagrams handed to an interface.

The reassembler has a third form. The code stores bytes in a string used as a ring; `Rings` has
that ring as a value, byte for byte, and the receivers and endpoints of all runs hold it. Beside
each run goes a shadow in which a partial map from stream index to byte takes the place of the
ring (`Assembly`). The two are equal as long as the ring can place what is delivered, and alike
in everything but byte values always, so that what is proved of the shadow - agreement of the
two ends, acknowledgments, ends - is carried over to the ring.

Invariants say what may not happen. The modules named `...Effects` and `...Advancing` say what
must: the exact effect of each operation in terms of what was there before, and that what gets
through the network moves both ends on.

| area | values and theorems | classes |
|---|---|---|
| streams and reassembly | `StreamRuns`, `Assembly`, `AssemblyRuns`, `Ring`, `Rings`, `RingRuns`, `RingFaults` | `ByteStreams`, `StreamReassemblers` |
| sequence numbers | `WrappingIntegers` | |
| sender | `Sending`, `SenderInvariants`, `SenderFacts`, `SenderWindow`, `SenderRuns`, `SenderEffects`, `SenderCases`, `TcpStates` | `TcpSenders` |
| receiver | `Receiving`, `RingReceiving` | `TcpReceivers` |
| one sender, one receiver, a network | `Protocol`, `ProtocolFacts`, `WholePieces`, `FreshAcks`, `ProtocolRuns`, `StaleAck`, `Advancing`, `AdvancingRuns` | |
| connection | `Connecting`, `ConnectionRuns`, `ConnectionEffects`, `Endpoints`, `EndpointRuns` | `TcpConnections` |
| two connections, a network | `Links`, `Duplex`, `Pairs`, `DuplexRuns`, `EarlyEnds`, `EarlyClose`, `DuplexAdvancing` | |
| routing | `Routing`, `Forwarding` | `Tries`, `Routers` |
| ARP | `Arp`, `ArpInvariants`, `ArpRuns`, `ArpEffects` | `NetworkInterfaces` |
| codec | `Checksum`, `Parsing`, `SegmentCodec`, `SegmentRoundTrip`, `HeaderLayout` | `Checksums`, `Parsing`, `TcpSegments` |

The network is the set of everything ever sent: dropping is never delivering, repeating is
delivering twice, and any order is possible. A run is a sequence of states and events; what the
environment must respect is in predicates named `Enabled`, `Allowed` or `CanMove`. It is little:
no write after the end of the stream, streams of at most 2^63 bytes, and delivered numbers less
than 2^31 from where the other end stands, which is automatic for streams shorter than 2^31.

## Where the code and its promises differ

The model follows the code. These are the places where a property one would expect fails; each
has the exact condition and a concrete input or run.

- `unwrap` does not return the closest number in two corners near zero and in one near 2^64
  (`UnwrapIsClosestIff`, `UnwrapInCorners`, `TopIsFar`).
- A push that straddles the ring end after being clipped at the window is misplaced and makes
  the ring string grow (`AlwaysRightIffPlaceable`, `RingFaults.OutputGoesWrong`). Between two
  honest ends it takes a stale acknowledgment (`FreshRunsFit`, `TimelyRunsFit`), and then it can
  happen (`StaleAck.OutputGoesWrong`). Everything but byte values stays right even then.
- A drain that reaches the ring end forgets bytes stored beyond it (`PushHasIff`,
  `ByteIsForgotten`); they are not delivered wrong but must be sent again, and the count of
  unassembled bytes stays too high (`UnassembledStaysExactIff`).
- A FIN that overtakes data can end the output early (`EndsEarlyIff`, `EndsCompleteIff`), and a
  connection can close without having received everything (`ClosesWithoutTheByte`).
- An acknowledgment before the SYN is sent underflows the count of bytes in flight
  (`AckKeepsInvIff`); between two ends of this stack it cannot occur (`NextFaces`).
- A datagram that matches no route goes to interface 0 as if directly connected, and so does one
  whose address has a route for more than 32 bits (`LookupIsLongestPrefixMatch`,
  `OvershotLosesRoute`).
- The header parser rejects data offsets below 5, the segment parser drops that verdict
  (`TooShortIsAcceptedIff`, `TooShortIsAccepted`).

## Model

| member | source | states |
|---|---|---|
| WrappingIntegers.WrapOfUnwrap | libsponge/wrapping_integers.cc:34-72 | for all 64-bit inputs, overflowing ones included: wrapping what unwrap returns gives the 32-bit number back |
| WrappingIntegers.UnwrapIsClosestIff | libsponge/wrapping_integers.cc:34-72 | for all 64-bit inputs: the result is the 64-bit number closest to the checkpoint among those that wrap to n exactly if none of three corners applies; its comment promises it always |
| WrappingIntegers.UnwrapInCorners | libsponge/wrapping_integers.cc:55-69 | the two corners near zero: n = isn = 0 gives 2^32, and stepping one cycle back below zero wraps around 64 bits |
| WrappingIntegers.TopIsFar | libsponge/wrapping_integers.cc:41-59 | the third corner, near 2^64: when a sum overflows, the number one cycle above the result still has 64 bits and is closer |
| WrappingIntegers.UnwrapDistance | libsponge/wrapping_integers.cc:34-72 | outside the corners the result is at most 2^31 away from the checkpoint, or the least candidate there is |
| WrappingIntegers.UnwrapOfWrapIff | libsponge/wrapping_integers.cc:19-72 | for all 64-bit v less than 2^31 from the checkpoint, unwrap undoes wrap exactly if not v = isn = 0 and no sum overflows |
| ByteStreams.ByteStream.constructor | libsponge/byte_stream.cc:14 | an empty open stream of the given capacity |
| ByteStreams.ByteStream.Write | libsponge/byte_stream.cc:16-24 | accepts the longest prefix that fits, appended to the history of accepted bytes; returns its length |
| ByteStreams.ByteStream.PeekOutput | libsponge/byte_stream.cc:27-35 | the first bytes buffered, at most as many as asked for |
| ByteStreams.ByteStream.PopOutput | libsponge/byte_stream.cc:38-45 | advances the read cursor over the history by at most what is buffered |
| ByteStreams.ByteStream.Read | libsponge/byte_stream.cc:50-56 | returns what it removes, in order |
| StreamRuns.FirstInFirstOut | libsponge/byte_stream.cc:16-56 | over every sequence of writes, reads and ends: what came out followed by what waits is what went in, cut off where the capacity was reached |
| StreamRuns.EofIff | libsponge/byte_stream.cc:66 | over every such sequence the stream is at its end exactly if it was ended and everything that went in came out |
| Assembly.PushKeepsValid | libsponge/stream_reassembler.cc:26-40 | after any push the known indices lie in the window and the count of unassembled bytes is at least the number held, so its subtractions cannot underflow |
| Assembly.DrainCounts | libsponge/stream_reassembler.cc:105-130 | draining shifts the count of unassembled bytes against the bytes held by exactly what the ring-end case of the drain forgets |
| Assembly.DrainSameShape | libsponge/stream_reassembler.cc:105-130 | which indices are written, kept and counted does not depend on the values of the bytes |
| AssemblyRuns.DrainWritesReadyBytes | libsponge/stream_reassembler.cc:105-130 | a drain appends the first min(room, unbroken run) bytes; afterwards the output is full or the next byte is not held |
| AssemblyRuns.UnassembledStaysExactIff | libsponge/stream_reassembler.cc:105-130 | an exact count of unassembled bytes stays exact over a push exactly if the drain forgets nothing |
| AssemblyRuns.PushHasIff | libsponge/stream_reassembler.cc:42-130 | exactly which indices are held or written after a push: those before and those covered within the window, less those the drain clears above the ring end |
| AssemblyRuns.OutputIsCoveredPrefix | libsponge/stream_reassembler.cc:42-130 | for streams no longer than the capacity the condition of RingOrderDoesNotMatterIff always holds, and the output ends at the first index that no push has covered |
| Ring.KnownAfterFill | libsponge/stream_reassembler.cc:75-97 | filling slots of the ring makes known exactly the added indices, and the right bytes if these are in place |
| Ring.KnownAfterDrain | libsponge/stream_reassembler.cc:116-128 | which indices the ring still knows after a drain, with the slots cleared in front of the start when the ring end is reached |
| Ring.ScanFindsReady | libsponge/stream_reassembler.cc:107-124 | the two scans of the ring find exactly the unbroken run of known bytes from the start |
| Ring.RingDrainIs | libsponge/stream_reassembler.cc:105-130 | the two-piece drain of the ring is the drain of the partial map |
| Ring.RingStoreIs | libsponge/stream_reassembler.cc:61-101 | storing into the ring is storing into the partial map if the piece does not straddle the ring end or is unclipped; exactly then the ring string keeps its length; otherwise only byte values can differ |
| Rings.StoreHolds | libsponge/stream_reassembler.cc:42-102 | the same for the ring as a value, all branches: it keeps its shape always, its bytes if the piece is placeable, its length exactly then |
| Rings.DrainHolds | libsponge/stream_reassembler.cc:105-130 | draining the ring is draining the bytes it holds, and leaves the ring string alone |
| Rings.PushHolds | libsponge/stream_reassembler.cc:26-40 | a push into the ring against a push into the partial map |
| RingRuns.RingFollows | libsponge/stream_reassembler.cc:26-130 | over every sequence of pushes and reads the ring equals the partial map as long as every push was placeable, equals it but for byte values always, and has its length exactly as long as every push was placeable |
| RingRuns.RingIsFaithful | libsponge/stream_reassembler.cc:42-130 | for all pushes of pieces of one stream: the output is never longer than the stream; as long as every push was placeable it is a prefix of it, the ring string has the length of the ring, and every occupied slot holds the true byte of its index |
| RingRuns.RingEndsWhenComplete | libsponge/stream_reassembler.cc:26-101 | if the end flag comes only on non-empty pieces ending at the true end, the output is ended exactly if it is as long as the stream and some end was accepted; and is the stream if every push was placeable |
| RingRuns.RingOrderDoesNotMatterIff | libsponge/stream_reassembler.cc:42-130 | for all pushes and reads: at every point exactly what was covered is held or written, in whatever order it came, exactly if no push reaches beyond the window and no drain clears a held byte |
| RingFaults.AlwaysRightIffPlaceable | libsponge/stream_reassembler.cc:85-97 | for every capacity, start, index and size: the ring stores the piece right for all contents and all bytes exactly if it does not straddle the ring end or is unclipped |
| RingFaults.UnplaceableMisplaces | libsponge/stream_reassembler.cc:92-93 | for every piece that straddles and is clipped, at either end, bytes that the ring misplaces |
| RingFaults.OutputGoesWrong | libsponge/stream_reassembler.cc:26-130 | a run of pushes of pieces of one stream whose output repeats a byte |
| RingFaults.ByteIsForgotten | libsponge/stream_reassembler.cc:121-128 | a run in which a held byte is cleared unwritten and the count of unassembled bytes stays too high |
| StreamReassemblers.StreamReassembler.constructor | libsponge/stream_reassembler.cc:10-21 | an empty ring of the capacity; usable if that is positive, since every push divides by it |
| StreamReassemblers.StreamReassembler.WriteToAux | libsponge/stream_reassembler.cc:42-102 | ring string, empty slots, counters and output afterwards, in every case, placeable or not |
| StreamReassemblers.StreamReassembler.WriteToByteStream | libsponge/stream_reassembler.cc:105-130 | the two scans, writes and fills are the drain of the ring value |
| StreamReassemblers.StreamReassembler.PushSubstring | libsponge/stream_reassembler.cc:26-40 | the whole new state, in every case |
| SenderInvariants.EmitKeepsInv | libsponge/tcp_sender.cc:35-109 | emitting any of the four kinds of segments keeps the invariant: accounting, a log of genuine segments that tiles sequence space, and deques that hold its unacknowledged suffix |
| SenderInvariants.FillWindowKeepsInv | libsponge/tcp_sender.cc:25-110 | filling the window keeps that invariant |
| SenderInvariants.AcceptsIff | libsponge/tcp_sender.cc:133-136 | after the SYN, accepted acknowledgments are exactly those beyond the last one and at most the next sequence number |
| SenderInvariants.AckKeepsInvIff | libsponge/tcp_sender.cc:114-168 | an acknowledgment keeps the invariant exactly if it is not an acknowledgment of number one before the SYN is sent, which underflows the bytes in flight |
| SenderInvariants.TickKeepsInv | libsponge/tcp_sender.cc:171-186 | the clock keeps the invariant |
| SenderInvariants.StreamInputKeepsInv | libsponge/tcp_sender.cc:25-110 | writing before the end, and ending the stream, keep the invariant |
| SenderFacts.OutstandingIffFlying | libsponge/tcp_sender.cc:35-156 | the deques are empty exactly if nothing is in flight |
| SenderFacts.SeqnosTile | libsponge/tcp_sender.cc:35-156 | the recorded end of each outstanding segment is the end of the one before plus its length |
| SenderFacts.LastSeqno | libsponge/tcp_sender.cc:35-109 | the last outstanding segment ends at the next sequence number |
| SenderFacts.NothingLost | libsponge/tcp_sender.cc:72-168 | the accepted bytes from the first outstanding segment on are the outstanding payloads in order followed by the unsent buffer |
| SenderFacts.AllSentBytes | libsponge/tcp_sender.cc:72-109 | the payloads of all original transmissions, in order, are the bytes read off the stream |
| SenderWindow.FillWindowSends | libsponge/tcp_sender.cc:51-109 | filling the window sends exactly as many sequence numbers as are pending and allowed |
| SenderWindow.FillWindowRespectsWindow | libsponge/tcp_sender.cc:51-109 | if it sends anything, at most max(1, window) sequence numbers are in flight afterwards |
| SenderWindow.FillWindowTwice | libsponge/tcp_sender.cc:51-109 | filling again at once changes nothing |
| SenderWindow.FillWindowChunks | libsponge/tcp_sender.cc:88-109 | new payloads have at most 1000 bytes, and all but the last exactly that |
| SenderRuns.BackoffIsPower | libsponge/tcp_sender.cc:181-184 | doubling k times is multiplying by two to the k |
| SenderRuns.GivingUpTakesTime | libsponge/tcp_sender.cc:171-186 | more than eight consecutive retransmissions take 511 initial timeouts since the last accepted acknowledgment or first send into an empty queue |
| SenderRuns.TickCopies | libsponge/tcp_sender.cc:177-180 | the clock queues at most the oldest outstanding segment, which is a copy of an original transmission |
| SenderRuns.StepKeepsGood | libsponge/tcp_sender.cc:25-197 | every operation keeps the invariant, the timer law and the copy law, and takes back nothing achieved |
| SenderRuns.EveryRunIsGood | libsponge/tcp_sender.cc:25-197 | so does every run from a new sender |
| SenderRuns.EveryRunProgresses | libsponge/tcp_sender.cc:25-197 | in every run later states extend log, stream, next number and acknowledgment of earlier ones |
| SenderEffects.FillWindowAppends | libsponge/tcp_sender.cc:25-110 | exactly what filling the window sends joins log, queue and outstanding segments, in order and stamped with the time; timer, count and window are left alone |
| SenderEffects.FillWindowExhausts | libsponge/tcp_sender.cc:25-110 | filling the window leaves nothing that may be sent; the first time it sends the SYN alone |
| SenderEffects.OldAckEffect | libsponge/tcp_sender.cc:114-143 | an acknowledgment of nothing new, or of what was not sent, only sets the window |
| SenderEffects.NewAckEffect | libsponge/tcp_sender.cc:114-168 | an acknowledgment of something new: number and window set, exactly the segments that end at or before it released, timeout and count reset, all remaining timestamps set to now, and everything queued that may be sent |
| SenderEffects.TickEffect | libsponge/tcp_sender.cc:171-186 | with nothing outstanding the clock stands still; otherwise it queues the oldest outstanding segment once more exactly if its timeout has passed, and counts and doubles exactly if moreover the window is open |
| SenderEffects.EveryTimeoutRetransmits | libsponge/tcp_sender.cc:177-180 | in every run, a tick past the timeout queues exactly the logged segment that covers the first unacknowledged number |
| SenderEffects.TimerRunsIff | libsponge/tcp_sender.cc:171-186 | in every run the timer runs exactly while something sent is not acknowledged |
| TcpSenders.TCPSender.constructor | libsponge/tcp_sender.cc:15-19 | the initial state |
| TcpSenders.TCPSender.Transmit | libsponge/tcp_sender.cc:89-108 | building and recording a segment is one emission of the value model |
| TcpSenders.TCPSender.FillWindow | libsponge/tcp_sender.cc:25-110 | the branches of the code are the function FillWindow of the value model |
| TcpSenders.TCPSender.FillOpenWindow | libsponge/tcp_sender.cc:88-109 | the sending loop terminates and is the recursive function |
| TcpSenders.TCPSender.PopAcknowledged | libsponge/tcp_sender.cc:148-156 | the popping loop removes exactly the leading segments that end at or before the acknowledgment, from all three deques |
| TcpSenders.TCPSender.ResetTimestamps | libsponge/tcp_sender.cc:159-161 | every remaining timestamp becomes the current time |
| TcpSenders.TCPSender.AckReceived | libsponge/tcp_sender.cc:114-168 | the whole new state after an acknowledgment |
| TcpSenders.TCPSender.Tick | libsponge/tcp_sender.cc:171-186 | the whole new state after the clock moved |
| TcpSenders.TCPSender.Retransmit | libsponge/tcp_sender.cc:178-185 | repeats the oldest outstanding segment; counts and doubles only while the window is open |
| TcpSenders.TCPSender.SendEmptySegment | libsponge/tcp_sender.cc:192-197 | queues a segment that occupies no sequence number |
| Receiving.TakeKeepsValid | libsponge/tcp_receiver.cc:9-63 | taking a segment keeps the receiver valid: checkpoint equals bytes written |
| Receiving.ReceivesAlike | libsponge/tcp_receiver.cc:9-63 | what a segment does, but for byte values, does not depend on byte values |
| RingReceiving.ReceiveHolds | libsponge/tcp_receiver.cc:9-63 | the receiver with its ring against the receiver with a partial map: equal if the payload is placeable, alike but for byte values always, ring string of the same length exactly if placeable |
| TcpReceivers.TCPReceiver.constructor | libsponge/tcp_receiver.hh:22-38 | the initial state; usable if the capacity is positive |
| TcpReceivers.TCPReceiver.SegmentReceived | libsponge/tcp_receiver.cc:9-63 | the whole new state, ring included, in every case |
| TcpReceivers.TCPReceiver.Assemble | libsponge/tcp_receiver.cc:48-59 | checkpoint, acknowledgment and end of output after the payload was pushed |
| TcpReceivers.TCPReceiver.WindowSize | libsponge/tcp_receiver.cc:74 | the room left in the output |
| Protocol.IndexIsRead | libsponge/tcp_receiver.cc:17-25 | the receiver reads the sequence number of a copy less than 2^31 from its checkpoint as the index the sender meant |
| Protocol.AckIsRead | libsponge/tcp_sender.cc:125 | the sender reads an acknowledgment less than 2^31 from its read count as the number the receiver meant |
| Protocol.DeliverAckKeepsInv | libsponge/tcp_sender.cc:114-168 | delivering any acknowledgment, stale or repeated, keeps it |
| Protocol.SenderStepKeepsInv | libsponge/tcp_sender.cc:25-197 | application and clock at the sender keep it |
| Protocol.StepKeepsInv | libsponge/tcp_sender.cc:25-197 | the invariant that two ends agree, kept by every step of a sender and a receiver with a partial map: the shadow of the runs below |
| ProtocolRuns.EveryRunFollows | libsponge/tcp_receiver.cc:9-63 | every state of every run of a sender and a receiver with its ring, over a network that drops, repeats and reorders, is shadowed: equal to a state with a partial map if everything delivered could be placed, alike but for byte values always |
| ProtocolRuns.RingKeepsLengthIff | libsponge/stream_reassembler.cc:85-97 | in every such run the ring string has the length of the ring exactly as long as everything delivered could be placed |
| ProtocolRuns.ReleasedIsAssembled | libsponge/tcp_sender.cc:133-156 | in every such run no more comes out than went in, and the sender takes as acknowledged only what the receiver has assembled |
| ProtocolRuns.DeliveredIsPrefix | libsponge/tcp_receiver.cc:9-63 | in every such run in which everything delivered could be placed, or no acknowledgment was stale: what came out is a prefix of what went in, what was released came out, and every occupied slot holds the true byte |
| ProtocolRuns.FreshRunsFit | libsponge/stream_reassembler.cc:85-97 | in every such run without stale acknowledgments, for any stream length, everything delivered could be placed |
| StaleAck.OutputGoesWrong | libsponge/tcp_sender.cc:125-136 | a run of 22 events with a single stale acknowledgment: the window reopens, a repeated segment is clipped while it straddles the ring end, and the output differs from what was written |
| ProtocolFacts.ShortStreamIsNear | libsponge/tcp_receiver.cc:17-25 | for streams shorter than 2^31 bytes the distance conditions hold of everything on the network |
| ProtocolFacts.SmallStreamFits | libsponge/stream_reassembler.cc:85-97 | for streams no longer than the capacity the ring can place every delivered payload |
| Advancing.DeliveryEffect | libsponge/tcp_receiver.cc:9-63 | a segment before the SYN is ignored; otherwise exactly what the receiver had and what the segment carries within the window is held or written afterwards, less what the drain clears |
| Advancing.DeliveryReaches | libsponge/tcp_receiver.cc:41-63 | delivering the segment that covers the first unacknowledged number takes the receiver beyond it, if it has room for a byte or needs none |
| AdvancingRuns.EveryRunGrows | libsponge/tcp_receiver.cc:9-63 | in every run with the ring, what is assembled and what is acknowledged only grow |
| AdvancingRuns.AckReaches | libsponge/tcp_sender.cc:125-136 | in every run a delivered acknowledgment is taken for exactly the number the receiver meant, unless that is behind |
| AdvancingRuns.RoundAdvances | libsponge/tcp_sender.cc:114-168 | in every run, whatever else is lost, repeated or reordered: if the segment that covers the first unacknowledged number and a later acknowledgment get through, more is acknowledged than before |
| WholePieces.FittingIsPlaceable | libsponge/stream_reassembler.cc:61-97 | a piece that is whole at the receiver and within its room, or a single byte, can be placed by the ring |
| WholePieces.PushKeepsWhole | libsponge/stream_reassembler.cc:42-130 | pushing keeps sent pieces whole: known, written or missing as a unit |
| FreshAcks.StepKeepsFresh | libsponge/tcp_sender.cc:114-168 | without stale acknowledgments, every step keeps the window within the receiver room and all sent pieces whole |
| FreshAcks.DeliveryFits | libsponge/stream_reassembler.cc:85-97 | so the ring can place whatever is delivered |
| FreshAcks.FillWindowWithin | libsponge/tcp_sender.cc:72-109 | newly sent payloads of two bytes or more end within acknowledgment plus window |
| Connecting.FinishedMeansAcknowledged | libsponge/tcp_connection.cc:59-76 | both streams at their end and nothing in flight imply that everything written and the FIN are sent and acknowledged |
| Connecting.FillLeavesFinFollowing | libsponge/tcp_sender.cc:52-70 | after filling the window, a stream at its end with nothing in flight has its FIN sent |
| Connecting.RespondsAlike | libsponge/tcp_connection.cc:30-56 | what a connection answers does not depend on the values of the bytes it received |
| Connecting.StepKeepsInv | libsponge/tcp_connection.cc:16-127 | every operation of a connection keeps its invariant |
| ConnectionRuns.EveryRunKeepsInv | libsponge/tcp_connection.cc:16-127 | so does every run from a new connection |
| ConnectionRuns.InactiveMeansAcknowledged | libsponge/tcp_connection.cc:59-76 | in every run a connection that is not reset is inactive exactly if everything written and the FIN are acknowledged, the inbound stream is at its end, and it need not linger any more |
| ConnectionRuns.TimeoutDoubles | libsponge/tcp_sender.cc:171-186 | in every run the timeout is the initial one times two to the number of consecutive retransmissions |
| ConnectionRuns.GivingUpTakesTime | libsponge/tcp_connection.cc:86-96 | in every run only the clock gives a connection up, after at least 511 timeouts |
| ConnectionEffects.ReceiveEffect | libsponge/tcp_connection.cc:16-57 | for every connection and segment that does not open it: exactly when it is reset, and that then both streams are in error and it is inactive; exactly when it stops lingering; and that the receiver has taken the segment |
| ConnectionEffects.OpenEffect | libsponge/tcp_connection.cc:30-34 | the SYN that opens a connection makes it send its own and reaches the receiver, and does nothing else |
| ConnectionEffects.InputEffect | libsponge/tcp_connection.cc:78-110 | what is written is appended as far as it fits, the end is noted, and everything is sent that may be |
| ConnectionEffects.ReadEffect | libsponge/byte_stream.cc:38-56 | reading takes bytes off the front of the inbound stream, and does nothing else |
| ConnectionEffects.TickEffect | libsponge/tcp_connection.cc:86-96 | exactly when the clock gives a connection up, and that both streams then are in error |
| ConnectionEffects.StepHandsOver | libsponge/tcp_connection.cc:16-127 | every event hands over exactly what is sent for the first time, what the clock sends again, and an answer where one is due, in order, each with acknowledgment, window and RST as they stand |
| TcpConnections.TCPConnection.constructor | libsponge/tcp_connection.hh:13-33 | the initial state |
| TcpConnections.TCPConnection.DressQueue | libsponge/tcp_connection.cc:114-126 | the loop dresses the queue in order with acknowledgment, capped window and RST |
| TcpConnections.TCPConnection.SendSegments | libsponge/tcp_connection.cc:113-127 | moves the whole sender queue, dressed, to the connection's queue |
| TcpConnections.TCPConnection.Active | libsponge/tcp_connection.cc:59-76 | the code's test is the predicate of the value model |
| TcpConnections.TCPConnection.Connect | libsponge/tcp_connection.cc:105-110 | the whole new state |
| TcpConnections.TCPConnection.Write | libsponge/tcp_connection.cc:78-83 | the whole new state, and how many bytes were accepted |
| TcpConnections.TCPConnection.EndInputStream | libsponge/tcp_connection.cc:98-103 | the whole new state |
| TcpConnections.TCPConnection.Tick | libsponge/tcp_connection.cc:86-96 | the whole new state, with the reset after too many retransmissions |
| TcpConnections.TCPConnection.SegmentReceived | libsponge/tcp_connection.cc:16-57 | the whole new state, ring included, in every case |
| Endpoints.NextAlike | libsponge/tcp_connection.cc:16-127 | an endpoint with its ring follows the connection with a partial map over every event: equal as long as everything delivered could be placed, alike but for byte values always |
| EndpointRuns.EveryRunIsShadowed | libsponge/tcp_connection.cc:16-127 | every run of an endpoint with its ring, with any peer, goes along with a run with a partial map, equal but for byte values |
| EndpointRuns.ResetIff | libsponge/tcp_connection.cc:36-41 | in every such run exactly a segment with RST resets, on an endpoint that was opened and is active once sender and receiver have seen it |
| EndpointRuns.ResetIsFinal | libsponge/tcp_connection.cc:59-63 | in every such run both streams are in error exactly if the endpoint was reset or given up, and then it is never active again |
| EndpointRuns.GivesUpIff | libsponge/tcp_connection.cc:86-96 | in every such run an endpoint is given up exactly by the tick that makes the ninth retransmission in a row, which goes out with RST |
| EndpointRuns.InactiveMeansAcknowledged | libsponge/tcp_connection.cc:59-76 | in every such run an endpoint that is not reset is inactive exactly if everything written and the FIN are acknowledged, the inbound stream is at its end, and it need not linger |
| EndpointRuns.EveryRunHandsOver | libsponge/tcp_connection.cc:113-127 | in every such run every event hands over exactly what StepHandsOver says |
| Links.ContentDecides | libsponge/tcp_receiver.cc:9-63 | a receiver looks only at sequence number, SYN, FIN and payload |
| Links.DressedIsHonest | libsponge/tcp_connection.cc:113-127 | dressed segments still are copies of original transmissions |
| Links.DressedAcks | libsponge/tcp_connection.cc:113-120 | what a connection hands over carries exactly the acknowledgment and window its receiver gives, or none before the SYN |
| Links.CopyIsPlaceable | libsponge/stream_reassembler.cc:85-97 | if no acknowledgment at the sender was stale, the ring at the receiver can place every near copy of what was sent |
| Duplex.NextFaces | libsponge/tcp_connection.cc:16-127 | every operation of the connection that shadows one end keeps both directions; an acknowledgment of an unsent SYN cannot arrive |
| Pairs.LingerKept | libsponge/tcp_connection.cc:52-55 | an end stops lingering only for a FIN that was sent, and while the other end still lingers |
| Pairs.MovedKeepsInv | libsponge/tcp_connection.cc:16-127 | every event at either of two ends with rings keeps the invariant of the pair, and what was placeable, timely and of full length |
| DuplexRuns.EveryRunKeepsInv | libsponge/tcp_connection.cc:16-127 | every run of two ends with rings over a network that drops, repeats and reorders is shadowed and keeps the invariant of the pair |
| DuplexRuns.RingKeepsLengthIff | libsponge/stream_reassembler.cc:85-97 | in every such run each ring string has the length of its ring exactly as long as everything delivered to it could be placed |
| DuplexRuns.TimelyRunsFit | libsponge/stream_reassembler.cc:85-97 | in every such run, for any stream length: if no acknowledgment that reached one end was stale, the ring at the other could place everything |
| DuplexRuns.ReleasedIsAssembled | libsponge/tcp_connection.cc:16-127 | in every such run, in both directions, no more comes out than went in, and only what is assembled is taken as acknowledged |
| DuplexRuns.DeliveredIsPrefix | libsponge/tcp_connection.cc:16-127 | in every such run, if everything delivered to an end could be placed or no acknowledgment at the other was stale: its output is a prefix of what was written there, and every occupied slot holds the true byte |
| DuplexRuns.DoneMeansDelivered | libsponge/tcp_connection.cc:59-76 | in every such run an end that became inactive without a reset has handed over all it was given: the other output is as long as what was written here and has ended; and equals it if everything could be placed |
| DuplexRuns.ShortStreamsAreFree | libsponge/tcp_connection.cc:16-28 | in every such run, while streams are shorter than 2^31 bytes, any segment on the network may be delivered at any time, any number of times |
| DuplexRuns.SmallStreamsFit | libsponge/stream_reassembler.cc:85-97 | in every such run, while a stream is no longer than the capacity at the other end, the ring there can place whatever may be delivered |
| DuplexAdvancing.SegmentReaches | libsponge/tcp_connection.cc:16-28 | in every such run, receiving the segment that covers the first number unacknowledged at the other end takes an end beyond it, if it has room or needs none |
| DuplexAdvancing.AckReaches | libsponge/tcp_connection.cc:16-23 | in every such run an acknowledgment is taken for exactly what the other end meant, unless that is behind |
| DuplexAdvancing.RoundAdvances | libsponge/tcp_connection.cc:16-127 | in every such run, if that segment and an acknowledgment made after it get through, more is acknowledged than before |
| EarlyEnds.TakeEndsIff | libsponge/tcp_receiver.cc:41-59 | for every receiver and segment: the output is ended afterwards exactly if it was, or the FIN was seen and the payload is empty, or writing stops at the end mark or at the end of the stream |
| EarlyEnds.EndsEarlyIff | libsponge/tcp_receiver.cc:41-59 | at a receiver that agrees with its sender, a segment ends the output while bytes are missing exactly if the FIN was seen and writing stops before the end of the stream, with an empty payload or at the end mark |
| EarlyEnds.EndsCompleteIff | libsponge/tcp_receiver.cc:9-63 | in every run of two ends: whenever an output has ended everything written at the other end has come out, exactly if no such segment was delivered |
| EarlyEnds.DoneHasReceived | libsponge/tcp_connection.cc:59-76 | in every such run without such a segment, an end that became inactive without a reset has received all that the other wrote |
| EarlyClose.ClosesWithoutTheByte | libsponge/tcp_connection.cc:59-76 | a run of two ends in which one becomes inactive without a reset, its output ended and empty, although the other wrote a byte |
| DuplexRuns.OneEndLingers | libsponge/tcp_connection.cc:52-55 | in every such run at least one of the two ends lingers |
| DuplexRuns.SummariesFit | libsponge/tcp_helpers/tcp_state.cc:82-110 | in every such run the summaries of sender and receiver at opposite ends fit together |
| TcpStates.SummaryMeaning | libsponge/tcp_helpers/tcp_state.cc:94-110 | each summary of the sender in terms of what was sent and acknowledged |
| TcpStates.SummaryNeverReturns | libsponge/tcp_helpers/tcp_state.cc:94-110 | in every run without writing after the end, the summary never moves backwards |
| Routing.BestIsBest | libsponge/router.cc:22-58 | the reference: the route found in a list matches, no other match is longer, and among equally long ones it is the latest |
| Routing.TopBitsAt | libsponge/router.cc:27-45 | bit k of a path is bit 31 - k of the address, which the walk tests |
| Routing.MatchIffPrefix | libsponge/router.cc:95-121 | an address lies in a prefix exactly if the path of the prefix is a prefix of the path of the address |
| Routing.InsertDeepest | libsponge/router.cc:95-121 | what an insertion changes about the deepest data node on a path |
| Routing.InsertWellGrown | libsponge/router.cc:95-121 | insertion keeps every leaf but the root holding data, and nodes without data at their default |
| Routing.InsertNodeAt | libsponge/router.cc:95-121 | insertion creates exactly the nodes along its path, and data only at its end |
| Routing.WalkFindsDeepest | libsponge/router.cc:27-58 | the walk with its remembered parent ends at the last node of a path that exists in full, else at the deepest data on the path |
| Routing.DeepestIsBest | libsponge/router.cc:95-121 | for every sequence of routes that node is the best route of the list |
| Routing.LookupIsLongestPrefixMatch | libsponge/router.cc:22-58 | for every sequence of routes, of any prefix length, and every address: the walk gives interface and next hop of the longest match, the latest among equal prefixes; the default of the root if there is none, and also exactly if a route for more than 32 bits of this address has no route for its 32 bits beside it |
| Routing.OvershotLosesRoute | libsponge/router.cc:95-121 | a default route and one for 33 bits of an address: the first matches the address, but the walk gives the default of the root |
| Tries.TrieNode.Insert | libsponge/router.cc:95-121 | insertion through node references is insertion into the tree value |
| Tries.TrieNode.InsertLeft | libsponge/router.cc:103-111 | the left branch, with the node created if missing |
| Tries.TrieNode.InsertRight | libsponge/router.cc:113-120 | the right branch |
| Tries.TrieNode.Walk | libsponge/router.cc:24-58 | the loop over the bits ends where the recursive walk ends |
| ArpInvariants.SendKeepsInv | libsponge/network_interface.cc:22-44 | sending keeps the invariant: per next hop, datagrams handed over are those framed, in order, followed by those queued; nothing waits for a known address; whatever waits has been asked for; one table entry per known address |
| ArpInvariants.RecvKeepsInv | libsponge/network_interface.cc:47-88 | receiving any frame keeps it |
| ArpInvariants.TickKeepsInv | libsponge/network_interface.cc:109-121 | the clock keeps it |
| ArpInvariants.AliveIsSuffix | libsponge/network_interface.cc:112-120 | dropping expired entries from the front until one is alive is filtering the whole table |
| ArpInvariants.TickKeepsTable | libsponge/network_interface.cc:109-121 | no mapping is older than 30 seconds after the clock moved |
| ArpRuns.EveryRunKeepsInv | libsponge/network_interface.cc:22-121 | every run of an interface keeps the invariant |
| ArpRuns.WhoAsks | libsponge/network_interface.cc:36-43 | a request goes out only for a datagram to that next hop, when none went out within 5 seconds |
| ArpRuns.RequestsAreSpaced | libsponge/network_interface.cc:36-43 | in every run two requests for one address are at least 5 seconds apart unless ARP from it arrived between them |
| ArpEffects.SendEffect | libsponge/network_interface.cc:22-44 | for every interface, datagram and next hop: exactly the frames pushed - the datagram to a known address, else one broadcast request if none went out less than 5 seconds ago, else none - and exactly what waits afterwards |
| ArpEffects.HearEffect | libsponge/network_interface.cc:60-88 | for every ARP message: the table learns the sender unless known, what waited goes out in order to the known address if it was asked for, and then a request for this interface is answered |
| ArpEffects.PassesUpIff | libsponge/network_interface.cc:48-59 | a datagram is passed up exactly if it came as IPv4 for this interface; a frame that is not tried as ARP, or fails to parse, changes nothing |
| ArpEffects.TickEffect | libsponge/network_interface.cc:109-121 | time passing takes exactly the mappings older than 30 seconds off the table, and does nothing else |
| ArpEffects.WaitingWasAsked | libsponge/network_interface.cc:36-43 | in every run, whenever a datagram waits for an address, a request for it was pushed, at the time noted for it |
| ArpEffects.KnownWasHeard | libsponge/network_interface.cc:62-70 | in every run a known address was given in an ARP message by its owner at most 30 seconds ago |
| ArpEffects.HeardStaysKnown | libsponge/network_interface.cc:62-70 | in every run an address heard while unknown stays known for 30 seconds |
| NetworkInterfaces.NetworkInterface.SendDatagram | libsponge/network_interface.cc:22-44 | the whole new state of the maps, queues and frames |
| NetworkInterfaces.NetworkInterface.FlushQueue | libsponge/network_interface.cc:72-81 | the loop frames the queue in order and empties it |
| NetworkInterfaces.NetworkInterface.RecvFrame | libsponge/network_interface.cc:47-88 | the whole new state, and the datagram handed up |
| NetworkInterfaces.NetworkInterface.SendArp | libsponge/network_interface.cc:93-106 | the frame pushed |
| NetworkInterfaces.NetworkInterface.Tick | libsponge/network_interface.cc:109-121 | the pop-front loop is the filter |
| Forwarding.RouteQueueHands | libsponge/router.cc:60-84 | routing a queue hands each interface exactly its datagrams before the first that cannot be routed, in order, with TTL one less |
| Forwarding.RouteQueueLeaves | libsponge/router.cc:63-84 | what is left starts with the first datagram whose route names a missing interface, its TTL already taken down; nothing is left exactly if there is none |
| Forwarding.RouteQueuesIsOne | libsponge/router.cc:76-84 | routing interface by interface is routing all queues in one, failure included |
| Forwarding.RouteQueueKeepsInv | libsponge/router.cc:76-84 | routing keeps the invariant of every interface |
| Forwarding.RouteQueueAppend | libsponge/router.cc:76-84 | routing two queues one after the other is routing their concatenation |
| Forwarding.RouteOneFollowsRoute | libsponge/router.cc:22-73 | by positions in the list: a datagram with a hop to spare goes to the interface of the match that no other beats, for the next hop it names or else its own destination, with one hop less, and to no other interface; it fails exactly if there is no such interface |
| Forwarding.RouteOneByDefault | libsponge/router.cc:22-73 | without a match, or behind a route for more than 32 bits, it goes out on interface 0 for its own destination |
| Forwarding.RouteOneDrops | libsponge/router.cc:60-62 | a datagram that has run out of hops goes nowhere |
| Routers.AsyncNetworkInterface.RecvFrame | libsponge/router.hh:31-36 | received datagrams queue up in order |
| Routers.Router.AddInterface | libsponge/router.hh:81-84 | the new interface is the last, and its number says so |
| Routers.Router.AddRoute | libsponge/router.cc:11-19 | the trie is that of the routes so far and the new one |
| Routers.Router.RouteOneDatagram | libsponge/router.cc:22-73 | drops at TTL below two, else takes a hop off in place, fails for a missing interface, and else sends to the longest match |
| Routers.Router.RouteQueueOf | libsponge/router.cc:79-82 | one queue: interfaces and what is left of it afterwards, also after a failure |
| Routers.Router.Route | libsponge/router.cc:76-84 | interfaces and all queues afterwards, in the order of the interfaces, also after a failure; succeeds exactly if all queues end empty |
| Checksum.SumOfChunks | libsponge/util/util.cc:89-98 | the sum depends only on the sequence of bytes, not on how it is cut: the parity carries over |
| Checksum.SumIsOfWords | libsponge/util/util.cc:89-98 | adding byte by byte is adding 16-bit words, most significant byte first, a last odd byte padded with zero |
| Checksum.FoldIs | libsponge/util/util.cc:100-105 | folding preserves the value modulo 65535 and gives zero only for zero |
| Checksum.PassesIff | libsponge/util/util.cc:100-108 | the checksum is zero exactly for positive multiples of 65535 |
| Checksum.OwnChecksumPasses | libsponge/util/util.cc:100-108 | for every 32-bit sum, adding its own checksum makes it pass, without overflow |
| Checksum.OneByteIsNoticed | libsponge/util/util.cc:89-108 | data that passes does not pass after any change of any one byte, also when the 32-bit sum overflows |
| Checksums.InternetChecksum.Add | libsponge/util/util.cc:89-98 | the loop adds the sum of the bytes modulo 2^32 and carries the parity |
| Checksums.InternetChecksum.GetValue | libsponge/util/util.cc:100-108 | the folding loop computes the checksum |
| Parsing.NumberOfBigEndian | libsponge/util/parser.cc:26-60 | reading the bytes written for a number gives the number |
| Parsing.BigEndianAt | libsponge/util/parser.cc:53-60 | byte i is the number shifted right by the bytes after it, modulo 256 |
| Parsing.IntReadsBigEndian | libsponge/util/parser.cc:26-43 | parsing an integer written in front of anything restores it and leaves the rest |
| Parsing.FailedReads | libsponge/util/parser.cc:13-51 | a read that fails, and every one after it, gives zero and consumes nothing |
| Parsing.NetParser.ParseInt | libsponge/util/parser.cc:26-43 | the loop reads the number, or fails and consumes nothing |
| Parsing.NetParser.RemovePrefix | libsponge/util/parser.cc:45-51 | drops a prefix, or fails |
| Parsing.UnparseInt | libsponge/util/parser.cc:53-60 | the loop appends the number most significant byte first |
| SegmentRoundTrip.ReadsHeader | libsponge/tcp_helpers/tcp_header.cc:17-78 | for data offsets 5 to 15, parsing a serialized header restores every field and stops right behind its padding |
| HeaderLayout.HeaderIsRead | libsponge/tcp_helpers/tcp_header.cc:17-48 | for every buffer of at least 20 bytes: each field as an expression over its own buffer positions, what is left over, and when the parser reports an error |
| HeaderLayout.FieldsAreRead | libsponge/tcp_helpers/tcp_segment.cc:12-23 | every segment filled in from such a buffer has its fields at these positions |
| HeaderLayout.BytesAreWritten | libsponge/tcp_helpers/tcp_segment.cc:30-45 | every byte of a serialized segment: each field at its positions, unused bits and padding zero, the payload behind, and the checksum of all that over a zero checksum field |
| SegmentRoundTrip.SealedPasses | libsponge/tcp_helpers/tcp_segment.cc:30-45 | a segment with its own checksum passes the check, for every size and every pseudo-checksum |
| SegmentRoundTrip.RoundTripIff | libsponge/tcp_helpers/tcp_segment.cc:12-45 | serializing works exactly for data offsets of at least 5; parsing the result under the same pseudo-checksum then restores payload and all fields but the checksum exactly if the offset is at most 15 |
| SegmentRoundTrip.OneByteIsRejected | libsponge/tcp_helpers/tcp_segment.cc:12-17 | whatever passed is rejected after any change of any one byte |
| SegmentRoundTrip.AcceptedIff | libsponge/tcp_helpers/tcp_segment.cc:12-23 | exactly which buffers are parsed without error, and what is taken as payload |
| SegmentRoundTrip.TooShortIsAcceptedIff | libsponge/tcp_helpers/tcp_segment.cc:19-22 | of those, exactly the ones claiming an offset below 5 were found too short by the header parser, whose verdict is dropped |
| SegmentRoundTrip.TooShortIsAccepted | libsponge/tcp_helpers/tcp_segment.cc:19-22 | a concrete such buffer |
| TcpSegments.TCPHeader.Parse | libsponge/tcp_helpers/tcp_header.cc:17-48 | the code's reads in order are the parse function, with its verdict and what is left |
| TcpSegments.TCPHeader.Serialize | libsponge/tcp_helpers/tcp_header.cc:51-78 | the code's writes in order are the header bytes; fails for offsets below 5 |
| TcpSegments.TCPSegment.Parse | libsponge/tcp_helpers/tcp_segment.cc:12-23 | fields and payload after parsing; untouched after a bad checksum |
| TcpSegments.TCPSegment.Serialize | libsponge/tcp_helpers/tcp_segment.cc:30-45 | the two passes over header and payload give the sealed bytes |

## Left out

- Sockets, event loop, TUN and file descriptor adapters, the peer thread and the applications: I/O around the core.
- IPv4, Ethernet and ARP codecs: same pattern as the TCP header; frames carry parsed payloads, or one that fails to parse.
- Random choice of the initial sequence number, which is a parameter, and the RST sent by the connection's destructor.
- Clock, timeout and byte counters are unbounded; 64-bit and 32-bit arithmetic is explicit where the code relies on it: wrap, unwrap, stream indices, subtraction of bytes in flight, checksum.
- Buffer sharing: payloads are byte sequences.
- Fields and branches of the code that cannot take effect: `_eof_seen`, `_time_fin_sent`, unused flags of the connection, and the last branch of the receiver's `segment_received`, whose flag was set further up.
- The named states of `tcp_state.cc` and their string forms; only the two summaries are modelled.
- Pushes into a reassembler of capacity zero: the code divides by the capacity.
- Fairness: that segments and acknowledgments keep getting through; what follows when they do is `RoundAdvances`.
- DuplexRuns.DoneMeansDelivered: gives the bytes only where the ring could place everything, because otherwise the code writes others.
