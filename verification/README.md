# A verified model of the sponge TCP endpoint

Sponge is a user-space TCP endpoint written in C++: a bounded byte stream, a stream reassembler, 32/64-bit sequence
arithmetic, a receiver, a sender with a retransmission timer, the connection that drives them, a network interface
that resolves hardware addresses with ARP, and the code that turns TCP segments and IPv4 datagrams into bytes and back.
This project models that code in Dafny and proves what it keeps over every run.

## How the model is laid out

Each stateful component exists twice. A class (`ByteStream`, `StreamReassembler`, `TcpSender`, `TcpReceiver`,
`TcpConnection`, `NetworkInterface`, `InternetChecksum`, `NetParser`) has the fields, loops and branches of the C++
object and updates them in place. A `...Model` module gives the same operation as a function on values. Every method
is proved equal to its function (`State() == M.F(old(State()), ...)`), and the theorems over whole runs are about the
functions. The two layers are far apart where the code is intricate: the reassembler's sorted list of substrings, its
one-pass merge and its early exits are proved to implement a map from stream index to byte.

A C++ `throw` is `Thrown(state)` in the model and `false` from the method. Byte streams remember every byte ever
accepted (`all`), so "what was delivered" and "what was written" are plain sequences. Unsigned arithmetic is spelled
out where it can wrap: `first_unavailable - left` in the reassembler, the top block of `unwrap`, the doubled timeout,
the subtraction from the bytes in flight, the 32-bit checksum and the 16-bit payload length. In the merge,
`right = left + size - 1` can only wrap for an empty substring at index 0; then every node starts past `right + 1` and
is skipped before `right` is compared with anything else, so an integer -1 gives the same branches.

| file | content |
|---|---|
| `Types`, `WrappingIntegers` | segments and machine integers; `wrap` and `unwrap` |
| `StreamModel`, `ByteStreams` | the bounded FIFO |
| `ReassemblyModel`, `ReassemblyProperties`, `StreamReassemblers` | the reassembler: specification, laws, list implementation |
| `SenderModel`, `SenderInvariants`, `TcpSenders`, `Segmentation` | the sender and its timer; how it cuts the stream |
| `ReceiverModel`, `TcpReceivers`, `TcpStateModel` | the receiver; the derived TCP states |
| `ConnectionModel`, `TcpConnections` | the connection |
| `ConnectionInvariants`, `ConnectionRuns`, `ConnectionTheorems`, `TimerTheorems`, `WindowTheorems`, `Replies`, `StateTheorems` | one endpoint over every run: what it keeps, what it answers, when it is done |
| `Network`, `NetworkSafety`, `NetworkTheorems` | two endpoints and a network that loses, repeats and reorders |
| `CornerCases`, `HonestThrow` | where an endpoint, or two of them, depart from what one would expect |
| `ArpModel`, `NetworkInterfaces`, `ArpTheorems`, `ArpAnswers`, `ArpCorners` | address resolution over every run |
| `Checksum`, `ParsingModel`, `NetParsers`, `TcpCodec`, `TcpSegments`, `Ipv4Codec`, `Ipv4Datagrams`, `Encapsulation`, `ReceivedBuffers`, `WireFormat` | bytes on the wire |

## Main results

- Two endpoints, any interleaving, any loss, repetition or reordering: each side has delivered a prefix of what the
  other side's `write` accepted, and no side believes more acknowledged than the other has reached (`PrefixSafety`). A
  clean close on one side means the other side received every byte and the end (`CloseMeansDelivered`).
- One endpoint, any peer: outstanding segments tile the flight, every segment ever sent sits at its own number with the
  stream's own bytes, the timer runs exactly while something is outstanding, the window is filled (`RunInv`,
  `RunBalanced`); a clean close is complete (`CleanClose`); the TCP state only moves forward (`RunForward`); the right
  edge offered on the wire never moves left (`RunWindow`, `WireWindow`); a peer that keeps to it never causes an
  exception nor fills more than the capacity (`WindowedRun`); a self-inflicted reset takes at least 511 initial timeouts
  (`SelfReset`).
- What one endpoint sends is determined: the answer to every segment (`SegmentAnswered`, `KeepAliveAnswered`,
  `IgnoredUnchanged`, `ResetEnds`), to every timeout (`TimeoutExact`, `TickSends`) and to every call (`CallSends`,
  `EndSends`), the cut of the stream into pieces of 1000 bytes (`FillWindowCuts`), and what each segment says on the wire
  (`StampSays`). It has failed exactly when a reset came or a tick gave up (`RunFails`), is done exactly when
  `ActiveExactly` says, and its derived state means what its name says (`RunSummaries`).
- The reassembler refines a union of index sets (`PushCovers`), keeps the right bytes (`PushMatches`), does not depend
  on arrival order or splitting, the end included (`OrderIrrelevant`, `OrderAndEndIrrelevant`), and its list merge
  implements all that (`PushSubstring`).
- ARP: over every run no datagram is lost or doubled, requests for one address are 5000 ms apart, and every IPv4 frame
  goes to an address announced less than 30000 ms before (`ArpTheorems.RunInv`). A request goes out exactly when the
  address is unknown and none went out in the last 5000 ms (`RequestExactly`), and a datagram is handed up exactly when an
  IPv4 frame addressed here carries it (`HandedUp`).
- The wire format round trips through both layers (`LayersRoundTrip`), for every payload and pseudo-header
  (`SegmentRoundTrip`), and it is stated for every received buffer whether it is accepted (`SegmentAccepted`,
  `DatagramAccepted`). Every field stands at its place, byte by byte, in what is read and in what is written (`TcpReadsAt`,
  `TcpWritesAt`, `IpReadsAt`, `IpWritesAt`), and the checksum covers the pseudo-header (`PseudoHeaderSum`,
  `SentVerifies`).

## Where the code does not do what one would expect

The model follows the code. Each claim below fails in general. For each, a lemma gives an input at which it fails, and
another states for all inputs exactly when it fails or, where noted, when it is sure to hold.

- A bare FIN that arrives ahead of a gap ends the inbound stream early, because the end is announced as soon as nothing
  is stored. Exactly when: `PushEndExact`, `ReceiveEndExact`. Inputs: `PrematureEndExample`, `PrematureFinExample`.
- A bare FIN that arrives when the window is full is ignored, so at the window edge it matters whether FIN comes with
  the last byte. Away from the edge arrival order is irrelevant: `OrderAndEndIrrelevant`. At the edge, for every state:
  `EdgeLosesEnd`.
- `stream_reassembler.hh` says that bytes beyond the capacity are discarded. A substring that starts strictly beyond the
  window is kept whole, because the unsigned subtraction wraps. Exactly when: `BoundedExact`. Input:
  `BeyondWindowExample`.
- The write to the output stream can then fall short and throw. Exactly when: `PushThrowsExactly`. Input:
  `ThrowExample`. Two endpoints that follow this code to the letter can reach it, with nothing lost, when an old
  acknowledgment is delivered twice (`HonestRunThrows`); a run in which every segment starts at or below the edge cannot
  (`WindowedRun`, sufficient only).
- The sender reuses one segment object in its loop, so an opening call that loops sends SYN twice. Exactly when:
  `FillLoopExact`. Input: `SynSticksExample`. In a connection this cannot happen: before SYN the window is one
  (`FillReady`, `RunInv`).
- The receiver drops a segment without SYN whose number is a multiple of 2^32 past the initial one. Exactly when:
  `LongStreamIndex`. Input: `LongStreamExample`.
- `note.md` (Lab 3, point 5) says an unacceptable acknowledgment must not affect other state; the window is taken from
  it all the same. Exactly when: `UnacceptableAck`. Input: `UnacceptableAckExample`.
- `end_input_stream` leaves segments with the sender unless the first one waiting carries FIN. Exactly when: `HeldBack`.
  Input: `HeldBackExample`.
- The reset a connection sends when it gives up is not the bare segment it makes for that purpose but the segment it
  was about to send once more; the bare one stays behind. Exactly when: `ResetIsRetransmission`. Input: `ResetExample`.
- `TCPSegment::parse` ignores what the header parser returns, so a data offset below 5 is accepted. Exactly when:
  `SegmentAccepted` beside `TcpHeaderVerdict`. Input: `OffsetZeroAccepted`.
- `IPv4Datagram::parse` does the same, so a bad header checksum, a wrong version and, if the lengths happen to agree,
  a wrong length are accepted. Exactly when: `DatagramAccepted` beside `IpHeaderVerdict`. Inputs: `BadHeaderAccepted`.
- An ARP message does not refresh an address already known, so an address can be forgotten just after it was announced.
  Exactly when: `ForgottenExactly`, `RefreshExact`. Input: `NoRefreshExample`.
- An ARP request teaches an address without sending the datagrams that wait for it, and later ones overtake them.
  Exactly when: `StrandsExactly`, over runs `RunUnstuck`. Input: `OvertakenExample`.

## Model

| member | source | states |
|---|---|---|
| `WrappingIntegers.Offset` | libsponge/wrapping_integers.cc:38-39 | both branches of the source give the distance from the initial number modulo 2^32 |
| `WrappingIntegers.UnwrapCongruent` | libsponge/wrapping_integers.cc:36-51 | in every branch the result has the offset's residue modulo 2^32 |
| `WrappingIntegers.UnwrapWrapsBack` | libsponge/wrapping_integers.cc:18-51 | wrapping the result of `unwrap` gives back the 32-bit number, for every checkpoint |
| `WrappingIntegers.UnwrapShape` | libsponge/wrapping_integers.cc:42-50 | the result is within 2^31 of the checkpoint, or in the first or last block where no closer number exists |
| `WrappingIntegers.AdvanceWrap` | libsponge/wrapping_integers.hh:59 | counting steps before or after wrapping gives the same number |
| `WrappingIntegers.UnwrapNearest` | libsponge/wrapping_integers.cc:36-51 | no 64-bit number with the same wrapped value is strictly closer to the checkpoint, first and last block included |
| `WrappingIntegers.UnwrapWrap` | libsponge/wrapping_integers.cc:18-51 | a number less than 2^31 from the checkpoint survives wrap then unwrap |
| `WrappingIntegers.UnwrapTie` | libsponge/wrapping_integers.cc:37-49 | of two numbers equally near, the one in the checkpoint's own block of 2^32 is taken |
| `StreamModel.ReadTakesFront` | libsponge/byte_stream.cc:26-51 | a read takes the oldest bytes, as many as asked and there are, and leaves the others in order |
| `StreamModel.WriteAddsBack` | libsponge/byte_stream.cc:17-23 | a write adds the longest prefix that fits behind the bytes there; buffered bytes and room fill the capacity |
| `ByteStreams.ByteStream.RemainingCapacity` | libsponge/byte_stream.cc:67 | the counter kept on the side is capacity minus what was written and not read |
| `ByteStreams.ByteStream.BufferSize` | libsponge/byte_stream.cc:57 | the counter is the length of the bytes written and not read |
| `ByteStreams.ByteStream.BufferEmpty` | libsponge/byte_stream.cc:59 | true exactly when everything ever written was read |
| `ByteStreams.ByteStream.AtEof` | libsponge/byte_stream.cc:61 | true exactly when input ended and everything ever written was read |
| `ByteStreams.ByteStream.Write` | libsponge/byte_stream.cc:17-23 | appends the longest prefix that fits to the history, returns its length, keeps the three counters consistent |
| `ByteStreams.ByteStream.PeekOutput` | libsponge/byte_stream.cc:26-29 | the next bytes of the history after those read, at most as many as asked |
| `ByteStreams.ByteStream.PopOutput` | libsponge/byte_stream.cc:32-41 | counts those bytes as read and forgets nothing else |
| `ByteStreams.ByteStream.Read` | libsponge/byte_stream.cc:46-51 | returns what peek would and pops exactly that |
| `ReassemblyModel.RunHolds` | libsponge/stream_reassembler.cc:86-91 | what gets delivered is stored byte for byte and stops at the first missing index |
| `ReassemblyModel.RunIs` | libsponge/stream_reassembler.cc:86-91 | a gapless block followed by a gap is exactly what gets delivered |
| `ReassemblyModel.OverlayKeys` | libsponge/stream_reassembler.cc:25-84 | after trimming, the stored indices grow by exactly those the window lets in, wrap-around beyond the edge included |
| `ReassemblyModel.SettleCovers` | libsponge/stream_reassembler.cc:86-104 | delivering keeps every covered index and the window edge, and what stays stored lies beyond the new index |
| `ReassemblyModel.PushCovers` | libsponge/stream_reassembler.cc:24-105 | one push changes the covered indices to exactly the union, leaves the current index the least uncovered one, keeps the edge |
| `ReassemblyModel.PushWithinWindow` | libsponge/stream_reassembler.cc:43-91 | a push starting at or below the edge never throws and never stores past the edge |
| `ReassemblyModel.PushThrowsExactly` | libsponge/stream_reassembler.cc:86-91 | the write falls short, and the call throws, if and only if every index up to and including the edge becomes covered |
| `ReassemblyProperties.OverlayMatches` | libsponge/stream_reassembler.cc:34-84 | trimming and overlaying an excerpt leaves every stored byte equal to the source's byte there |
| `ReassemblyProperties.RunMatches` | libsponge/stream_reassembler.cc:86-91 | appending the delivered run to a prefix of the source gives a longer prefix |
| `ReassemblyProperties.PushMatches` | libsponge/stream_reassembler.cc:24-105 | if pushes are excerpts of one stream, delivered bytes are always its prefix and stored bytes its bytes |
| `ReassemblyProperties.PushEof` | libsponge/stream_reassembler.cc:100-104 | the end is latched exactly when a final substring fits in the window as a whole, and announced exactly when the end is latched and no covered index lies beyond the new current one |
| `ReassemblyProperties.TruncatedEnd` | libsponge/stream_reassembler.cc:43-47 | a final substring that reaches past the edge does not latch the end, and the output ends only if the end was known before |
| `ReassemblyProperties.PushEndExact` | libsponge/stream_reassembler.cc:100-104 | the end stays right after a push if and only if the push is not an empty final substring within the window ahead of a missing byte |
| `ReassemblyProperties.PrematureEndExample` | libsponge/stream_reassembler.cc:100-104 | an empty final substring at index 2 of a fresh reassembler ends the stream with nothing delivered |
| `ReassemblyProperties.BoundedFits` | libsponge/stream_reassembler.hh:29-37 | with storage below the edge, buffered plus unassembled bytes never exceed the capacity |
| `ReassemblyProperties.BoundedExact` | libsponge/stream_reassembler.cc:43-47 | a push keeps storage below the edge if and only if it starts at or below the edge, is empty, or finds the window closed |
| `ReassemblyProperties.BeyondWindowExample` | libsponge/stream_reassembler.cc:43-47 | a byte at 3 is stored by a new reassembler of capacity 2 |
| `ReassemblyProperties.ThrowExample` | libsponge/stream_reassembler.cc:86-88 | four calls on a reassembler of capacity 2, one of them a read, end in the exception |
| `ReassemblyProperties.PushAllCovers` | libsponge/stream_reassembler.cc:24-105 | a whole batch of in-window excerpts never throws and covers exactly the indices asked for below the edge |
| `ReassemblyProperties.CoverageDetermines` | libsponge/stream_reassembler.cc:24-105 | covered indices and the source determine the current index, the stored bytes and the output |
| `ReassemblyProperties.OrderIrrelevant` | libsponge/stream_reassembler.cc:24-105 | two batches spanning the same indices, in any order and split in any way, leave the same bytes delivered and stored |
| `ReassemblyProperties.PushEndIsExact` | libsponge/stream_reassembler.cc:100-104 | without a premature end, every push keeps: ended if and only if the end is known and everything is delivered |
| `ReassemblyProperties.PushAllEnds` | libsponge/stream_reassembler.cc:24-105 | a batch latches the end if and only if some arrival carries it and the source ends below the edge |
| `ReassemblyProperties.OrderAndEndIrrelevant` | libsponge/stream_reassembler.cc:24-105 | away from the edge, batches spanning the same indices and agreeing on the end leave the very same state |
| `ReassemblyProperties.EdgeLosesEnd` | libsponge/stream_reassembler.cc:30-32 | when the source ends exactly at an open edge, the end is kept with the last byte and lost after it, in every such state |
| `StreamReassemblers.OneNodeContains` | libsponge/stream_reassembler.cc:57-59 | in a sorted non-adjacent list, a range held by the list is held by a single node, so the early exit loses nothing |
| `StreamReassemblers.FlushBlock` | libsponge/stream_reassembler.cc:86-91 | a merged block at the current index is exactly the deliverable run, and the remaining list stores the rest |
| `StreamReassemblers.InsertBlock` | libsponge/stream_reassembler.cc:93-98 | inserting before the first node past the block keeps the list sorted, disjoint and non-adjacent |
| `StreamReassemblers.CountBytes` | libsponge/stream_reassembler.cc:107-112 | the sum of the node lengths is the number of distinct stored indices, so no byte is stored twice |
| `StreamReassemblers.StreamReassembler.Merge` | libsponge/stream_reassembler.cc:49-84 | one pass either finds the substring stored already, or leaves a list clear of the merged block that together store the overlay; the throw at line 83 is unreachable |
| `StreamReassemblers.StreamReassembler.Insert` | libsponge/stream_reassembler.cc:93-98 | the list with the block inserted is sorted and represents the overlay |
| `StreamReassemblers.StreamReassembler.UnassembledBytes` | libsponge/stream_reassembler.cc:107-112 | the number of stored indices |
| `StreamReassemblers.StreamReassembler.Finish` | libsponge/stream_reassembler.cc:100-104 | latches the end and ends the output exactly when no index is stored |
| `StreamReassemblers.StreamReassembler.PushSubstring` | libsponge/stream_reassembler.cc:24-105 | the list implementation with its trims, merge, early exits and throw is the map-level push |
| `StreamReassemblers.StreamReassembler.Store` | libsponge/stream_reassembler.cc:49-105 | merge, deliver or insert, and finish together settle the overlay, including the state left behind by the throw at line 88 |
| `SenderInvariants.TilesTotal` | libsponge/tcp_sender.cc:53-68 | the bytes in flight are the sum of the outstanding lengths |
| `SenderInvariants.EmitKeeps` | libsponge/tcp_sender.cc:72-77 | queueing a segment placed at the old next number keeps the tiling, the counters, the timer and all that was sent |
| `SenderInvariants.FillRoundShape` | libsponge/tcp_sender.cc:44-77 | a turn changes nothing or queues one segment placed at the old next number, within the window, FIN only at the end |
| `SenderInvariants.FillRoundKeeps` | libsponge/tcp_sender.cc:44-77 | a turn without a left-over SYN keeps the sender invariant |
| `SenderInvariants.FillLoopKeeps` | libsponge/tcp_sender.cc:44-78 | the loop keeps the invariant and stops only when the window is full, FIN is out or the stream has nothing to give |
| `SenderInvariants.StickySegment` | libsponge/tcp_sender.cc:33-57 | the second turn of an opening call sends SYN again, at number 1001 |
| `SenderInvariants.FillLoopExact` | libsponge/tcp_sender.cc:32-79 | the loop keeps SYN to number 0 if and only if an opening call has at most one segment's worth of bytes or room |
| `SenderInvariants.FillWindowKeeps` | libsponge/tcp_sender.cc:32-79 | fills the window maximally, never past it, and touches neither the acknowledged number, the timeout nor the written bytes |
| `SenderInvariants.FillWindowBound` | libsponge/tcp_sender.cc:36-78 | from any state, bytes in flight end within the window (zero counted as one) or unchanged |
| `SenderInvariants.PopAckedKeeps` | libsponge/tcp_sender.cc:94-104 | `unwrap` finds each outstanding segment's true number, so the loop pops exactly those acknowledged as a whole and the rest still tile |
| `SenderInvariants.AckReceivedKeeps` | libsponge/tcp_sender.cc:83-118 | keeps the invariant for any ackno, moves the acknowledged number only up, takes the window from every acknowledgment |
| `SenderInvariants.TickKeeps` | libsponge/tcp_sender.cc:121-135 | a retransmission is a placed segment again and keeps the invariant |
| `SenderInvariants.SendEmptyKeeps` | libsponge/tcp_sender.cc:139-145 | an empty segment at the next number keeps the invariant |
| `SenderInvariants.NewSenderInv` | libsponge/tcp_sender.cc:24-28 | a new sender satisfies the invariant |
| `Segmentation.RoundCuts` | libsponge/tcp_sender.cc:57-77 | a turn adds to both queues the same segment, with the bytes it took, and goes on only after exactly 1000 of them |
| `Segmentation.FillWindowCuts` | libsponge/tcp_sender.cc:32-79 | the segments one call queues carry in order exactly the bytes it takes: 1000 each, fewer in the last one only when no byte is left or the window is full |
| `Segmentation.RunSmall` | libsponge/tcp_helpers/tcp_config.hh:15 | in every run no segment waiting, outstanding or queued carries more than 1000 bytes |
| `TcpSenders.TcpSender.FillWindow` | libsponge/tcp_sender.cc:32-79 | the do-while loop over the reused segment terminates and is the recursive specification whose invariants are proved |
| `TcpSenders.TcpSender.FillOnce` | libsponge/tcp_sender.cc:44-77 | one turn is the specified round, hands the SYN flag on, and makes progress whenever the loop goes on |
| `TcpSenders.TcpSender.AckReceived` | libsponge/tcp_sender.cc:83-118 | the in-place acknowledgment is the specified one, timer restart included |
| `TcpSenders.TcpSender.PopAcknowledged` | libsponge/tcp_sender.cc:94-104 | the popping loop is the specified recursion |
| `TcpSenders.TcpSender.Tick` | libsponge/tcp_sender.cc:121-135 | retransmit the front, double only with an open window, restart the timer |
| `ReceiverModel.StreamIndex` | libsponge/tcp_receiver.cc:26-30 | a number other than the initial one never unwraps to 0, so the index exists and is congruent to its offset minus one |
| `TcpReceivers.TcpReceiver.SegmentReceived` | libsponge/tcp_receiver.cc:16-32 | the in-place update is the specified one, the reassembler's throw included |
| `TcpReceivers.TcpReceiver.Ackno` | libsponge/tcp_receiver.cc:34-45 | the wrapped number of the first byte not received, FIN counted once the stream has ended |
| `TcpReceivers.TcpReceiver.WindowSize` | libsponge/tcp_receiver.cc:47 | the room of the inbound stream |
| `TcpConnections.TcpConnection.Active` | libsponge/tcp_connection.cc:100-118 | the in-place test is the specified one |
| `TcpConnections.TcpConnection.SendAllOutboundingSegments` | libsponge/tcp_connection.cc:28-44 | the loop moves every queued segment, in order, each stamped with the current acknowledgment and 16-bit window |
| `TcpConnections.TcpConnection.SendRstSegment` | libsponge/tcp_connection.cc:46-54 | whatever is at the front of the sender's queue goes out with RST set |
| `TcpConnections.TcpConnection.SegmentReceived` | libsponge/tcp_connection.cc:56-98 | reset, keep-alive, LISTEN filter, receive, acknowledge, reply in the source's order, with the state a throw leaves |
| `TcpConnections.TcpConnection.TakeAck` | libsponge/tcp_connection.cc:80-86 | the acknowledgment reaches the sender, then lingering is cancelled if the inbound stream ended first |
| `TcpConnections.TcpConnection.Reply` | libsponge/tcp_connection.cc:88-97 | data if there is any, else a bare acknowledgment for a segment that occupied numbers, else nothing |
| `TcpConnections.TcpConnection.InListen` | libsponge/tcp_connection.cc:74-76 | true exactly when the derived TCP state is LISTEN |
| `TcpConnections.TcpConnection.Write` | libsponge/tcp_connection.cc:120-125 | accepts what fits, returns its length, then fills the window and sends |
| `TcpConnections.TcpConnection.Tick` | libsponge/tcp_connection.cc:128-145 | advances both clocks, then sends or resets after too many retransmissions |
| `TcpConnections.TcpConnection.EndInputStream` | libsponge/tcp_connection.cc:147-156 | ends the outbound stream, fills the window, sends only if the first segment waiting carries FIN |
| `ConnectionInvariants.NewConnectionInv` | libsponge/tcp_connection.hh:13-25 | a new connection satisfies the invariant |
| `ConnectionInvariants.FillReady` | libsponge/tcp_sender.cc:32-79 | with nothing written or a window of one before SYN, filling leaves the sender in order and the window used |
| `ConnectionInvariants.SegmentReceivedInv` | libsponge/tcp_connection.cc:56-98 | any segment from anyone keeps the connection invariant |
| `ConnectionInvariants.WriteInv` | libsponge/tcp_connection.cc:120-125 | `write` keeps the invariant, also before `connect` |
| `ConnectionInvariants.EndInputInv` | libsponge/tcp_connection.cc:147-156 | `end_input_stream` keeps the invariant, sent or held back |
| `ConnectionInvariants.TickInv` | libsponge/tcp_connection.cc:128-145 | `tick` keeps the invariant, reset included |
| `ConnectionRuns.StepFrame` | libsponge/tcp_connection.cc:56-161 | bytes enter only by `write`, the end only by `end_input_stream`; errors stay, linger is never restored, the clock counts ticks since the last segment |
| `ConnectionTheorems.StepInv` | libsponge/tcp_connection.cc:56-161 | every call keeps the invariant and continues the numbering |
| `ConnectionTheorems.RunInv` | libsponge/tcp_connection.cc:56-161 | in every run the flight is tiled, every queued segment sits at its number with the stream's bytes, only number 0 carries SYN, only the last number FIN |
| `ConnectionTheorems.RunBalanced` | libsponge/tcp_sender.cc:32-135 | in every run: flight is the sum of outstanding lengths and below 2^16, the front contains the acknowledged number, the next number counts SYN, bytes and FIN, the timer runs exactly while something is outstanding with the current timeout, and the window is used |
| `ConnectionTheorems.StepWithinWindow` | libsponge/tcp_sender.cc:36-78 | no call of any kind takes bytes in flight above the peer's window, a closed one counted as one |
| `Replies.StampSays` | libsponge/tcp_connection.cc:28-44 | a segment goes out as the sender made it, with the number of the first byte not received once SYN was received and with the inbound room, at most 65535 |
| `Replies.CallSends` | libsponge/tcp_connection.cc:120-161 | `connect` and `write` send, in order, what was waiting and every segment they add to the outstanding ones |
| `Replies.EndSends` | libsponge/tcp_connection.cc:147-156 | ending the stream sends every segment it adds once SYN is out, and before that keeps it back |
| `Replies.TimeoutExact` | libsponge/tcp_sender.cc:121-135 | exactly when the timer reaches the timeout, the segment at the start of the flight is queued again, whatever the window; it counts and doubles only for an open one; nothing else changes |
| `Replies.TickSends` | libsponge/tcp_connection.cc:128-145 | a tick that does not give up sends what was waiting and, on a timeout, the oldest outstanding segment |
| `Replies.ResetEnds` | libsponge/tcp_connection.cc:59-64 | a reset fails both streams, makes the connection inactive, sends nothing and changes nothing else |
| `Replies.StepFails` | libsponge/tcp_connection.cc:56-145 | from a connection without error, a call fails both streams if and only if it receives a reset or gives up |
| `Replies.RunFails` | libsponge/tcp_connection.cc:56-145 | in every run both streams have failed if and only if a reset was received or a tick gave up |
| `Replies.KeepAliveAnswered` | libsponge/tcp_connection.cc:66-72 | an empty segment one number before the first byte not received is answered with one bare acknowledgment and changes nothing |
| `Replies.IgnoredUnchanged` | libsponge/tcp_connection.cc:74-76 | before anything was sent or received, a segment without SYN only resets the clock |
| `Replies.SegmentAnswered` | libsponge/tcp_connection.cc:78-97 | any other segment throws exactly when the receiver does; else everything waiting and everything new goes out, or one bare acknowledgment if that is nothing and the segment occupied numbers |
| `StateTheorems.RunLinger` | libsponge/tcp_connection.cc:84-86 | in every run lingering is off if and only if a segment left the inbound stream ended while the outbound one was not all sent |
| `StateTheorems.ActiveExactly` | libsponge/tcp_connection.cc:100-118 | in every run: inactive if and only if failed, or everything with FIN is acknowledged, the inbound stream has ended, and lingering was cancelled or ten timeouts have passed since the last segment |
| `StateTheorems.RunSynAlone` | libsponge/tcp_sender.cc:50-55 | in every run SYN, while unacknowledged, is alone in its segment |
| `StateTheorems.SummaryMeans` | libsponge/tcp_helpers/tcp_state.cc:94-110 | the sender's summary says exactly how far SYN and FIN have got: not sent, sent, acknowledged |
| `StateTheorems.RunHears` | libsponge/tcp_receiver.cc:19-22 | in every run an initial number is known if and only if a SYN was received |
| `StateTheorems.RunSummaries` | libsponge/tcp_helpers/tcp_state.cc:82-110 | in every run with no write after close, both summaries mean what they say; LISTEN exactly until a SYN was received |
| `ConnectionTheorems.RunEnded` | libsponge/tcp_connection.cc:147-156 | in every run the outbound stream is ended if and only if `end_input_stream` was called |
| `ConnectionTheorems.FinStep` | libsponge/tcp_sender.cc:64-70 | with no write after close, every call keeps FIN after the last byte |
| `ConnectionTheorems.RunFin` | libsponge/tcp_sender.cc:64-70 | in every run with no write after close, FIN sits right after the last byte ever written |
| `ConnectionTheorems.RunElapsed` | libsponge/tcp_connection.cc:56-57 | in every run the clock is the sum of ticks since the last segment |
| `ConnectionTheorems.CleanClose` | libsponge/tcp_connection.cc:84-118 | inactive without error means FIN sent, every byte and FIN acknowledged, nothing outstanding, inbound ended, and no linger or at least ten timeouts waited (section 3.6 of RFC 9293) |
| `ConnectionTheorems.ForwardSender` | libsponge/tcp_helpers/tcp_state.cc:94-110 | a sender that continues another never has an earlier summary |
| `ConnectionTheorems.StepMoves` | libsponge/tcp_receiver.cc:16-32 | every call moves the receiver's index, read count, end and error one way only |
| `ConnectionTheorems.StepForward` | libsponge/tcp_helpers/tcp_state.cc:82-110 | no call moves either summary back |
| `ConnectionTheorems.RunForward` | libsponge/tcp_helpers/tcp_state.cc:82-110 | between any two moments of a run with no write after close, summaries only move forward, errors stay, a cancelled linger stays cancelled |
| `ConnectionTheorems.MovesRight` | libsponge/tcp_receiver.cc:34-47 | ackno and ackno plus clamped window grow with the receiver; the edge is bytes read plus capacity |
| `ConnectionTheorems.RunWindow` | libsponge/tcp_receiver.cc:34-47 | between any two moments of a run, the absolute ackno plus the clamped window does not move left |
| `WindowTheorems.WireWindow` | libsponge/tcp_connection.cc:33-40 | of two segments queued in a run under one initial number, the later ackno plus window on the wire is the earlier one plus a gain that is never negative, and 32-bit comparison shows it while the gain is below 2^31 (section 3.8.6 of RFC 9293) |
| `WindowTheorems.StepBounded` | libsponge/stream_reassembler.cc:86-91 | any call, a segment starting at or below the edge included, returns and stores nothing past the edge |
| `WindowTheorems.WindowedRun` | libsponge/stream_reassembler.cc:24-98 | a run whose segments start at or below the edge, with any reads, writes and ticks between them, never throws, and buffered plus unassembled bytes never exceed the capacity |
| `TimerTheorems.TickKeepsTime` | libsponge/tcp_sender.cc:121-135 | each doubling is paid for by the ticks that led to it |
| `TimerTheorems.StepTime` | libsponge/tcp_sender.cc:83-135 | every call keeps the back-off exact and paid for, starting over on new acknowledgments |
| `TimerTheorems.RunTime` | libsponge/tcp_sender.cc:83-135 | in every run the timeout is the initial one times 2 to the number of consecutive retransmissions, up to 48 of them, and the ticks since the last progress pay for it (section 5 of RFC 6298) |
| `TimerTheorems.StepCalm` | libsponge/tcp_connection.cc:132-142 | an error arises only from a received reset or in the tick of the ninth retransmission |
| `TimerTheorems.RunCalm` | libsponge/tcp_connection.cc:132-142 | in every run there are at most eight consecutive retransmissions or an error |
| `TimerTheorems.SelfReset` | libsponge/tcp_connection.cc:128-145 | without a reset from the peer, failing takes at least 511 initial timeouts of ticks since new data was acknowledged |
| `Network.IndexIsRight` | libsponge/tcp_receiver.cc:16-32 | the receiver puts an authentic payload exactly where the sender took it from |
| `Network.LongStreamIndex` | libsponge/tcp_receiver.cc:24-30 | on a stream of any length, a segment within 2^31 goes to its true index if and only if its number is not a multiple of 2^32, and is dropped otherwise |
| `Network.LimitWithin` | libsponge/tcp_receiver.cc:34-45 | the receiver never acknowledges past what the sender has sent |
| `Network.ReceiveFollows` | libsponge/tcp_receiver.cc:16-32 | an authentic segment, new or old, keeps the receiver following its sender and its ackno from falling |
| `NetworkSafety.CallQuiet` | libsponge/tcp_connection.cc:120-161 | calls from above change neither the acknowledged number nor what was received, and what they queue carries the current acknowledgment |
| `NetworkSafety.DeliverUna` | libsponge/tcp_connection.cc:80-82 | a delivered segment moves the acknowledged number only to its own unwrapped ackno |
| `NetworkSafety.TruthfulUnwrap` | libsponge/tcp_sender.cc:83-92 | an acknowledgment once sent, however old, unwraps to a number the receiver has reached |
| `NetworkSafety.CallKeeps` | libsponge/tcp_connection.cc:120-161 | a call at one end keeps both directions in step |
| `NetworkSafety.DeliverKeeps` | libsponge/tcp_connection.cc:56-98 | delivering any segment the other end ever sent keeps both directions in step |
| `NetworkSafety.ActKeeps` | libsponge/tcp_connection.cc:28-161 | any action at one end keeps both directions in step |
| `NetworkTheorems.ExecInv` | libsponge/tcp_connection.cc:28-161 | the two-way invariant holds after every run from two new connections |
| `NetworkTheorems.PrefixSafety` | libsponge/tcp_connection.cc:28-161 | after every run, delivered is a prefix of written in both directions and acknowledged numbers are within what the peer reached |
| `NetworkTheorems.ExecFin` | libsponge/tcp_sender.cc:64-70 | after every run with no write after close, both FINs sit after the last byte |
| `NetworkTheorems.AckedIsDelivered` | libsponge/tcp_receiver.cc:34-45 | if everything up to FIN is acknowledged, the peer has every byte and the end |
| `NetworkTheorems.InactiveIsAcked` | libsponge/tcp_connection.cc:100-118 | an inactive connection without error has FIN acknowledged |
| `NetworkTheorems.CloseMeansDelivered` | libsponge/tcp_connection.cc:84-118 | after every orderly run, a clean close on one side means the other side has exactly what was written, and the end |
| `NetworkTheorems.ReceiveEndExact` | libsponge/tcp_receiver.cc:24-31 | an authentic segment keeps the announced end right if and only if it is not a bare FIN ahead of a missing byte |
| `NetworkTheorems.ExecEnds` | libsponge/stream_reassembler.cc:100-104 | after every run without a premature FIN, an ended inbound stream holds everything the peer sent |
| `NetworkTheorems.AcknowledgedBytesDelivered` | libsponge/tcp_sender.cc:83-104 | after every run without a premature FIN, each acknowledged byte was delivered, with its value |
| `NetworkTheorems.PrematureFinExample` | libsponge/tcp_receiver.cc:34-45 | after SYN and a bare FIN two bytes ahead, the receiver acknowledges a byte it never got |
| `CornerCases.UnacceptableAck` | libsponge/tcp_sender.cc:83-90 | everything but the window is left alone if and only if the acknowledgment is unacceptable; nothing at all changes if and only if the window is also the same |
| `CornerCases.UnacceptableAckExample` | libsponge/tcp_sender.cc:83-90 | an acknowledgment of nothing opens the window of a new sender |
| `CornerCases.SynSticksExample` | libsponge/tcp_sender.cc:33-54 | a new sender with 1500 bytes and a window of 5000 breaks its invariant in one call |
| `CornerCases.HeldBack` | libsponge/tcp_connection.cc:147-156 | with nothing waiting before, segments stay with the sender if and only if SYN was not sent |
| `CornerCases.HeldBackExample` | libsponge/tcp_connection.cc:147-161 | a new connection that is ended keeps its SYN until the next `connect` |
| `CornerCases.ResetIsRetransmission` | libsponge/tcp_connection.cc:46-54 | a tick gives up if and only if the timer runs out on an open window for the ninth time; the reset is then the oldest outstanding segment, and the bare one stays queued |
| `CornerCases.ResetExample` | libsponge/tcp_connection.cc:128-142 | a SYN never answered, ticked through nine timeouts, goes out a last time as the reset with SYN still set |
| `CornerCases.SynRenames` | libsponge/tcp_receiver.cc:19-22 | any SYN, the first or not, replaces the initial number |
| `CornerCases.LongStreamExample` | libsponge/tcp_receiver.cc:24-27 | the byte at number 2^32 is dropped by a receiver that waits for just that byte |
| `HonestThrow.StaleWindow` | libsponge/tcp_sender.cc:86 | moves that lead from an open connection to a sender with a window of three towards a receiver with room for one |
| `HonestThrow.HonestRunThrows` | libsponge/stream_reassembler.cc:86-88 | for any initial numbers and any five bytes, a run of two new endpoints, nothing lost, after which a possible delivery throws |
| `NetworkInterfaces.NetworkInterface.SendDatagram` | libsponge/network_interface.cc:36-78 | the datagram goes out, or waits with or without a new request, as specified |
| `NetworkInterfaces.NetworkInterface.TakePending` | libsponge/network_interface.cc:98-107 | the erasing loop splits the list by address, both parts in their order |
| `NetworkInterfaces.NetworkInterface.RecvFrame` | libsponge/network_interface.cc:81-143 | address filter, ARP handling, datagram handed up, as specified |
| `NetworkInterfaces.NetworkInterface.RecvArp` | libsponge/network_interface.cc:91-135 | learn without refreshing, then flush on a reply or answer a request for this address |
| `NetworkInterfaces.NetworkInterface.Tick` | libsponge/network_interface.cc:146-166 | exactly the entries younger than their limit stay |
| `NetworkInterfaces.NetworkInterface.ExpireMapping` | libsponge/network_interface.cc:149-156 | the erasing loop keeps exactly the addresses younger than 30000 ms, in any iteration order |
| `NetworkInterfaces.NetworkInterface.ExpireBlocking` | libsponge/network_interface.cc:158-165 | the erasing loop keeps exactly the requests younger than 5000 ms, in any iteration order |
| `ArpTheorems.SelectSplits` | libsponge/network_interface.cc:98-107 | flushing splits the waiting datagrams into two parts with nothing lost or doubled |
| `ArpTheorems.SendQueues` | libsponge/network_interface.cc:36-78 | every datagram given is either sent in one frame or pending, never both |
| `ArpTheorems.SendInv` | libsponge/network_interface.cc:36-78 | sending keeps conservation, request spacing and fresh addressing |
| `ArpTheorems.ReplyFlushes` | libsponge/network_interface.cc:94-109 | a reply sends each datagram that waited for that address exactly once and leaves only the others |
| `ArpTheorems.RecvArpQueues` | libsponge/network_interface.cc:91-135 | an ARP message never triggers a request; after an accepted reply nothing waits for that address |
| `ArpTheorems.RecvInv` | libsponge/network_interface.cc:81-143 | any frame keeps conservation, request spacing and fresh addressing |
| `ArpTheorems.PassInv` | libsponge/network_interface.cc:146-166 | passing time keeps them: an entry is dropped no later than it goes stale, a block no earlier than 5000 ms |
| `ArpTheorems.RunInv` | libsponge/network_interface.cc:36-166 | over every run: datagrams given equal datagrams sent plus pending, requests for one address are at least 5000 ms apart, every IPv4 frame goes to an address heard from its next hop less than 30000 ms before |
| `ArpAnswers.HandedUp` | libsponge/network_interface.cc:136-142 | a datagram is handed up if and only if an IPv4 frame addressed here or to everyone parses to it, and the interface is then unchanged |
| `ArpAnswers.OthersUnchanged` | libsponge/network_interface.cc:81-89 | only an ARP message addressed here changes the interface |
| `ArpAnswers.RequestAnswered` | libsponge/network_interface.cc:110-134 | a request is answered if and only if it asks for this address: one reply to the asker with the two addresses of each |
| `ArpAnswers.OtherOpcodes` | libsponge/network_interface.cc:91-110 | any other message teaches its sender's address and does nothing else |
| `ArpAnswers.SelectConcat` | libsponge/network_interface.cc:98-107 | the datagrams taken and the ones left keep their order |
| `ArpAnswers.FlushInOrder` | libsponge/network_interface.cc:94-109 | an accepted reply sends the datagrams waiting for that address oldest first, each in a frame to the address known |
| `ArpAnswers.BlockedExactly` | libsponge/network_interface.cc:48-51 | after every run an address blocks requests if and only if one went out less than 5000 ms ago |
| `ArpAnswers.RequestExactly` | libsponge/network_interface.cc:36-78 | after every run: a known hop gets the datagram at once; for an unknown one it waits, and a broadcast request goes out if and only if none did in the last 5000 ms |
| `ArpCorners.LearnsOnce` | libsponge/network_interface.cc:92 | a message makes an entry if there is none and changes neither address nor time of one there is |
| `ArpCorners.ForgottenExactly` | libsponge/network_interface.cc:92-156 | an address just heard is gone some time later if and only if its first announcement is then 30000 ms old |
| `ArpCorners.RefreshExact` | libsponge/network_interface.cc:92 | an announcement is good for 30000 ms if and only if it made the entry or the entry is of the same millisecond |
| `ArpCorners.NoRefreshExample` | libsponge/network_interface.cc:92 | announced at 0 and 29999 ms, an address is forgotten one millisecond after the second time |
| `ArpCorners.StrandsExactly` | libsponge/network_interface.cc:91-114 | a message leaves a datagram waiting for a known address if and only if it teaches the address of a hop with datagrams waiting and is not a reply |
| `ArpCorners.RunUnstuck` | libsponge/network_interface.cc:36-166 | over every run without such a message, nothing waits for a known address |
| `ArpCorners.OvertakenExample` | libsponge/network_interface.cc:91-114 | after a request from the hop, a second datagram goes out while the first still waits |
| `Checksum.FoldRange` | libsponge/util/util.cc:100-108 | folding ends within 16 bits and yields zero only for zero |
| `Checksum.FoldCongruent` | libsponge/util/util.cc:100-108 | folding keeps the sum modulo 65535 (RFC 1071) |
| `Checksum.ValueVerifies` | libsponge/util/util.cc:100-108 | a sum completed by its own checksum verifies |
| `Checksum.NeverCarries` | libsponge/util/util.cc:89-108 | a 32-bit sum plus its own checksum never carries |
| `Checksum.SumVerifies` | libsponge/util/util.cc:89-108 | so every 32-bit accumulator verifies after its checksum is added |
| `Checksum.WordSumConcat` | libsponge/util/util.cc:89-98 | feeding bytes in pieces, at any parity, equals feeding them whole |
| `Checksum.InternetChecksum.Add` | libsponge/util/util.cc:89-98 | the loop adds the 16-bit words modulo 2^32 and remembers half a word |
| `Checksum.InternetChecksum.GetValue` | libsponge/util/util.cc:100-108 | the folding loop terminates with the complement of the folded sum |
| `ParsingModel.UnparseValue` | libsponge/util/parser.cc:53-60 | the bytes written are the big-endian digits of the value |
| `ParsingModel.ParseUnparse` | libsponge/util/parser.cc:26-60 | reading what was written gives the value back and leaves what follows |
| `ParsingModel.RemoveZeros` | libsponge/util/parser.cc:45-51 | padding is skipped exactly |
| `ParsingModel.WordValue` | libsponge/util/parser.cc:53-60 | a 16-bit field counts with its value in the checksum |
| `NetParsers.NetParser.ParseInt` | libsponge/util/parser.cc:26-43 | the loop reads the big-endian value and consumes it, or reports a short buffer and consumes nothing |
| `NetParsers.UnparseInt` | libsponge/util/parser.cc:53-60 | the shifting loop appends the big-endian digits |
| `TcpCodec.HeaderRoundTrip` | libsponge/tcp_helpers/tcp_header.cc:17-78 | every header with a data offset of 5 to 15 is read back field by field, payload untouched |
| `TcpCodec.ChecksumWord` | libsponge/tcp_helpers/tcp_header.cc:71 | the checksum field adds exactly its value to the sum |
| `TcpCodec.SentSum` | libsponge/tcp_helpers/tcp_segment.cc:30-45 | the sum of what is sent is the sum without checksum plus the checksum, modulo 2^32 |
| `TcpCodec.SegmentRoundTrip` | libsponge/tcp_helpers/tcp_segment.cc:12-45 | every segment with a data offset of 5 to 15, any payload and any pseudo-header sum, parses back to itself with its checksum filled in, without error |
| `TcpCodec.SegmentExact` | libsponge/tcp_helpers/tcp_segment.cc:12-45 | of all serializable segments, exactly those with a data offset up to 15 come back |
| `TcpSegments.ParseHeader` | libsponge/tcp_helpers/tcp_header.cc:17-48 | the consuming parser reads the specified header, result and rest |
| `TcpSegments.SerializeHeader` | libsponge/tcp_helpers/tcp_header.cc:51-78 | the appended bytes are the specified header, or a throw for a short one |
| `TcpSegments.Serialize` | libsponge/tcp_helpers/tcp_segment.cc:30-45 | checksumming header and payload in two pieces gives the specified bytes |
| `TcpSegments.Parse` | libsponge/tcp_helpers/tcp_segment.cc:12-23 | a bad checksum leaves the segment alone; otherwise the specified segment and error |
| `Ipv4Codec.FieldsRoundTrip` | libsponge/tcp_helpers/ipv4_header.cc:23-110 | every field, the packed version, length and fragment bits included, is read back |
| `Ipv4Codec.HeaderVerifies` | libsponge/tcp_helpers/ipv4_datagram.cc:28-38 | a header with its checksum filled in verifies |
| `Ipv4Codec.HeaderRoundTrip` | libsponge/tcp_helpers/ipv4_header.cc:23-110 | a verified header in front of a payload of the announced length parses without error |
| `Ipv4Codec.DatagramRoundTrip` | libsponge/tcp_helpers/ipv4_datagram.cc:11-41 | an encodable datagram comes back whole but for the checksum, without error at either level |
| `Ipv4Codec.DatagramExact` | libsponge/tcp_helpers/ipv4_datagram.cc:11-41 | of all serializable datagrams, exactly the encodable ones come back whole with an accepted header |
| `Ipv4Datagrams.ReadFields` | libsponge/tcp_helpers/ipv4_header.cc:31-47 | the consuming parser reads the specified fields |
| `Ipv4Datagrams.ParseHeader` | libsponge/tcp_helpers/ipv4_header.cc:23-75 | the checks in the source's order give the specified verdict, header and rest |
| `Ipv4Datagrams.SerializeHeader` | libsponge/tcp_helpers/ipv4_header.cc:78-110 | the appended bytes are the specified header, or a throw for a wrong version or short header |
| `Ipv4Datagrams.Serialize` | libsponge/tcp_helpers/ipv4_datagram.cc:23-41 | the specified bytes, or a throw for a payload of the wrong size |
| `Ipv4Datagrams.Parse` | libsponge/tcp_helpers/ipv4_datagram.cc:11-21 | the specified datagram and error, the header's own verdict ignored |
| `Encapsulation.PseudoChecksum` | libsponge/tcp_helpers/ipv4_header.cc:125-131 | the pseudo-header's part of the sum stays far below 32 bits |
| `Encapsulation.LayersRoundTrip` | libsponge/tcp_helpers/tcp_segment.cc:12-45 | a segment in a datagram comes back through both layers without error, checked against the pseudo-header the receiver reads |
| `ReceivedBuffers.TcpHeaderVerdict` | libsponge/tcp_helpers/tcp_header.cc:17-48 | over every buffer, what the header parser returns and where it leaves the reader, read off the length and byte 12 |
| `ReceivedBuffers.SegmentAccepted` | libsponge/tcp_helpers/tcp_segment.cc:12-23 | over every buffer, the result: bad checksum if the sum with what comes from below does not verify, accepted if and only if also 20 bytes are there and the data offset is below 5 or fits, else too short; and which bytes become the payload |
| `ReceivedBuffers.OffsetZeroAccepted` | libsponge/tcp_helpers/tcp_segment.cc:19-22 | twenty bytes with data offset 0 are refused by the header parser and accepted as a segment |
| `ReceivedBuffers.IpHeaderVerdict` | libsponge/tcp_helpers/ipv4_header.cc:23-75 | over every buffer, which of the six verdicts the header parser gives, read off its length and bytes |
| `ReceivedBuffers.IpHeaderRest` | libsponge/tcp_helpers/ipv4_header.cc:23-75 | over every buffer, where it leaves the reader: at the payload if well formed, else where it gave up |
| `ReceivedBuffers.DatagramAccepted` | libsponge/tcp_helpers/ipv4_datagram.cc:11-21 | over every buffer, a datagram is accepted if and only if it is well formed, whatever its checksum, or the bytes left where the header parser gave up match the 16-bit payload length; else it is too short |
| `ReceivedBuffers.BadHeaderAccepted` | libsponge/tcp_helpers/ipv4_datagram.cc:11-21 | a twenty-byte header of any version with a zero checksum field is refused by the header parser and accepted as a datagram |
| `WireFormat.TcpReadsAt` | libsponge/tcp_helpers/tcp_header.cc:17-34 | every buffer of 20 bytes is read with each field and flag at its place (section 3.1 of RFC 9293) |
| `WireFormat.TcpWritesAt` | libsponge/tcp_helpers/tcp_header.cc:51-78 | every header written has each field and flag at its place, no reserved bit set, and zeros up to its length |
| `WireFormat.IpReadsAt` | libsponge/tcp_helpers/ipv4_header.cc:31-47 | every buffer of 20 bytes is read with each field at its place, source before destination (section 3.1 of RFC 791) |
| `WireFormat.IpWritesAt` | libsponge/tcp_helpers/ipv4_header.cc:78-110 | every header written has each field at its place, the reserved bit clear, and zeros up to its length |
| `WireFormat.PseudoHeaderSum` | libsponge/tcp_helpers/ipv4_header.cc:114-131 | what goes into the TCP checksum from below is the word sum of the twelve-byte pseudo-header |
| `WireFormat.SentVerifies` | libsponge/tcp_helpers/tcp_segment.cc:30-45 | pseudo-header, header and payload of what is sent sum to zero in one's complement |
| `WireFormat.SegmentThrows` | libsponge/tcp_helpers/tcp_header.cc:51-55 | serializing a segment throws if and only if its data offset is below 5 |
| `WireFormat.DatagramThrows` | libsponge/tcp_helpers/ipv4_datagram.cc:23-30 | serializing a datagram throws if and only if the version is not 4, the header too short, or the payload not as long as it says |

Constructors, one-statement setters and fixed-width forwarders (such as `RetransmissionTimer.Stop`, `TcpSender.Occupy`,
`TcpConnection.Connect`, `NetParser.U16`) are proved equal to their functions in the same way and have no row.

## Left out

- `NetworkTheorems.PrefixSafety`: runs up to the first throw (`HonestRunThrows` shows one that gets there), and fewer than 2^31 sequence numbers per direction; beyond that an old duplicate can be mistaken for new data.
- `WindowTheorems.WireWindow`: two segments under one initial number; a second SYN replaces the number, and edges under different numbers are not compared.
- `WindowTheorems.WindowedRun`: a sufficient condition on the segments received; when two endpoints with a given network satisfy it is not characterised.
- `ConnectionTheorems.RunInv`: runs up to the first throw, with sequence numbers below 2^64.
- `TimerTheorems.RunTime`: after 48 doublings the 64-bit timeout overflows and nothing is claimed about it; a connection gives up after nine.
- Overflow of 64-bit stream indices, byte counters and clocks: these are unbounded naturals.
- Liveness and fairness (that data eventually arrives): the network may drop everything.
- Sockets, file descriptors, the event loop, tun/tap adapters, threads and the lossy adapter: the network of the model drops, repeats and reorders at will instead.
- The router: one scan for the longest prefix and a decrement of the time to live.
- Reference-counted buffers: byte sequences.
- Byte layouts of ARP messages and Ethernet frames: a frame holds what its payload parses to, so a throw from serializing a datagram inside `send_datagram` is not modelled.
- The random initial sequence number: a parameter.
- The destructor and move operations of `TCPConnection`, and the write-only `_cur_time` of the sender.
- The named constructors of `TCPState` other than LISTEN, the string forms of states and headers, and debug output.
- The accessors that only return a field.
