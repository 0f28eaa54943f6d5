# A verified model of a user-space TCP stack

The repository's Lab4 library implements TCP in user space: a ring-buffer byte stream, a
reassembler for out-of-order data, a receiver, a sender with retransmission, and a connection
that drives both without an explicit state variable; beside it stand the TCP and IPv4 wire
formats and the Internet checksum, which Lab6 implements twice more. This project models that
code in Dafny and proves what it is for.

Each class of the library appears twice. Its state is a datatype and its operations are
functions on it, branch by branch as the code has them; the theorems are about these. Beside
it a class with the code's own fields and loops (`ByteStream.dfy`, the `*Object.dfy` files,
`Checksum.dfy`, `NetParser.dfy`, `WireCode.dfy`, `TcpOverIp.dfy`) updates them in place, and
every method's contract says that its new state is the function's value at the old one; the
operations a caller sees also promise the invariants proved of the functions.

| files | subject |
|---|---|
| `WrappingIntegers.dfy` | 32-bit sequence numbers and their 64-bit counterparts |
| `ByteStream.dfy` | the ring buffer as a FIFO queue |
| `StreamReassembler.dfy`, `ReassemblerProofs.dfy`, `ReassemblyBytes.dfy`, `ReassemblyRuns.dfy`, `ReassemblyMemory.dfy`, `ReassemblerObject.dfy` | reassembly: one push, overlaps, whole runs, memory, the object |
| `TcpReceiver.dfy`, `ReceiverWindow.dfy`, `ReceiverObject.dfy` | acknowledgments, what the window test lets in, and its memory bound |
| `TcpSender.dfy`, `SenderProofs.dfy`, `SenderRuns.dfy`, `SenderWindow.dfy`, `SenderObject.dfy` | tiling of the sequence space, window, acknowledgments, backoff |
| `TcpConnection.dfy`, `TcpState.dfy`, `ConnectionProofs.dfy`, `ConnectionRuns.dfy`, `ConnectionReplies.dfy`, `ConnectionDiagram.dfy`, `ConnectionGaps.dfy`, `ConnectionProgress.dfy`, `ConnectionAcks.dfy`, `ConnectionLimits.dfy`, `ConnectionObject.dfy` | the connection, what it answers, and the official states |
| `Delivery.dfy`, `EndToEnd.dfy`, `EndToEndProgress.dfy` | a sender and a receiver over an unreliable network |
| `ConnectionSends.dfy`, `Duplex.dfy`, `DuplexAcks.dfy`, `DuplexCloses.dfy` | two connections over an unreliable network |
| `Checksum.dfy` | the three checksums |
| `NetParser.dfy`, `TcpWire.dfy`, `Ipv4Wire.dfy`, `TcpOverIp.dfy`, `WireCode.dfy` | wire formats |

`dafny verify dfyconfig.toml` checks the project.

## What the runs assume

A run is a sequence of operations from the initial state, of any length and in any order. What
the operations may be is stated as predicates that a caller could test:

- No write to a stream after its end (`SenderRuns.Legal`, `ConnectionRuns.Allowed`): the
  stream's `write` does not look at its end mark (byte_stream.cc:26-38).
- No ackno from before the initial sequence number while something is outstanding
  (`SenderProofs.Harmless`). The connection passes the ackno of some segments on without
  looking at the ACK flag (tcp_connection.cc:95,103); `ConnectionLimits` shows that this is
  exactly when a segment breaks the sender's accounting, and that a duplicate of the peer's
  SYN is such a segment. In `EndToEnd` and in `DuplexAcks` the condition is proved, not
  assumed; `DuplexAcks` asks instead that an ackno be used only from a segment with the flag.
- Streams short enough that absolute numbers stay below 2^63 (`Short`, `LONGEST`), and in
  `EndToEnd`, `Duplex` and `DuplexAcks` no message from half the 32-bit number space away.
- In `EndToEnd` and `Duplex` the network may deliver anything ever sent, late or again: that is
  what safety is proved against. What can still be delivered once it has lost everything under
  way is a matter of retransmission, and `RecoversIff` says exactly when it can.
- For the memory bound, no segment without SYN that claims the SYN's number and reaches past
  the ackno (`TcpReceivers.Underflows`). `RunIsBoundedIff` shows that this is exactly when the
  cache can end too far past the window. Whether the number of waiting bytes is too large as
  well, in that state or a later one, `WithinMemoryIff` and `RunIsWithinIff` say exactly, and
  `MemoryIsExceeded` that it can be.
- For complete reassembly, no push that overruns the output (`ReassemblyRuns.Overruns`), which
  is exactly when a byte is lost (`PushLosesIff`). Prefix safety (`RunIsSafe`) asks nothing of
  the capacity.

## Where the code does less than its documentation says

- `unwrap` is documented to return the closest number; it does exactly when the signed 64-bit
  sum does not wrap (`UnwrapIsClosestIff`), and at checkpoint 2^63 it does not (`UnwrapMisses`).
- The reassembler is documented to stay within its capacity (stream_reassembler.hh:27-36); it
  enforces none on its cache. `CapacityIsExceeded` gives the pushes that break the limit at
  once; `PushStaysWithinIff` says exactly when a push keeps it, and `WithinIffFittingRun` exactly
  when a run does. In the receiver the bound comes from the window test (`MemoryIsBounded`).
- The state names leave some active states without one: those `NamedIff` describes, which
  `UnnamedStateIsReached` reaches, because the SYN-RCVD branch does not move the queue out
  (tcp_connection.cc:92-97).
- In ESTABLISHED and CLOSE-WAIT arriving data is not acknowledged while the own FIN waits for the
  window (tcp_connection.cc:156-164), nor in FIN-WAIT-1 (tcp_connection.cc:124-130), unless
  something else goes out: `NumbersAreAcknowledgedIff`, `FinWait1AcknowledgesIff`; a run to such
  a byte is `ByteIsNotAcknowledged`.
- `IPv4Datagram::parse` is documented to report bad headers; it drops what the header's parse
  returned, so a wrong header checksum is accepted (`Ipv4Wire.AcceptsIff`,
  `Ipv4Wire.BadChecksumIsAccepted`). `TCPSegment::parse` likewise accepts a data offset below
  the minimum (`TcpWire.AcceptsIff`, `TcpWire.ShortOffsetIsAccepted`).

## Model

| member | source | states |
|---|---|---|
| `WrappingIntegers.UnwrapIsClosestIff` | Lab4-2023Spring-karenntayy-master/sponge/libsponge/wrapping_integers.cc:32-40 | For every 32-bit value, initial number and 64-bit checkpoint, with the 32- and 64-bit conversions written out: `unwrap` returns a non-negative number of that 32-bit form that no other is closer to the checkpoint than, exactly when the signed 64-bit sum fits (or the tie above it does) |
| `WrappingIntegers.UnwrapMisses` | Lab4-2023Spring-karenntayy-master/sponge/libsponge/wrapping_integers.cc:32-40 | At checkpoint 2^63 the number 2^63 itself is unwrapped to one 2^32 away, for every initial number: not the closest |
| `WrappingIntegers.UnwrapWrapIff` | Lab4-2023Spring-karenntayy-master/sponge/libsponge/wrapping_integers.cc:16-40 | For every 64-bit `x` less than 2^31 above, or at most 2^31 below, the 64-bit checkpoint: `unwrap(wrap(x))` is `x` exactly when `x` is below 2^63 (section 3.3 of RFC 793) |
| `ByteStreams.ByteStream.constructor` | Lab4-2023Spring-karenntayy-master/sponge/libsponge/byte_stream.cc:13-24 | A new stream is empty, open and without error, with the given capacity |
| `ByteStreams.ByteStream.Store` | Lab4-2023Spring-karenntayy-master/sponge/libsponge/byte_stream.cc:29-34 | The storing loop puts each new byte in its slot modulo the capacity and touches no buffered one |
| `ByteStreams.ByteStream.Write` | Lab4-2023Spring-karenntayy-master/sponge/libsponge/byte_stream.cc:26-38 | The ring accepts the longest prefix that fits, appends it to what it holds and returns its length; nothing else changes |
| `ByteStreams.ByteStream.PeekOutput` | Lab4-2023Spring-karenntayy-master/sponge/libsponge/byte_stream.cc:41-51 | Returns the oldest buffered bytes, up to the length asked for, and changes nothing |
| `ByteStreams.ByteStream.PopOutput` | Lab4-2023Spring-karenntayy-master/sponge/libsponge/byte_stream.cc:54-59 | Removes the oldest buffered bytes, up to the length asked for |
| `ByteStreams.ByteStream.Read` | Lab4-2023Spring-karenntayy-master/sponge/libsponge/byte_stream.cc:64-76 | Returns what a peek would and removes what a pop would |
| `ByteStreams.ByteStream.Eof` | Lab4-2023Spring-karenntayy-master/sponge/libsponge/byte_stream.cc:89-89 | True exactly when the input has ended and nothing is buffered |
| `ByteStreams.StreamIsFifo` | Lab4-2023Spring-karenntayy-master/sponge/libsponge/byte_stream.cc:26-98 | On the model, from any state: after any sequence of writes, peeks, reads, pops and ends, the bytes removed and then those buffered are those buffered at first and then those accepted; the buffer never exceeds the capacity; every peek saw the bytes next in that order. `RingIsFifo` carries this to the array |
| `ByteStreams.WriteIsGreedy` | Lab4-2023Spring-karenntayy-master/sponge/libsponge/byte_stream.cc:26-38 | A write accepts all of the data or fills the buffer |
| `ByteStreams.RingIsFifo` | Lab4-2023Spring-karenntayy-master/sponge/libsponge/byte_stream.cc:26-98 | A run of these operations on the ring accepts, removes and sees exactly what the model's run does; and what the array holds at first, read from `_end` modulo the capacity, and then what was accepted is byte by byte what was removed and then what the array holds at last |
| `ReassemblerProofs.MergeIsExact` | Lab4-2023Spring-karenntayy-master/sponge/libsponge/stream_reassembler.cc:86-134 | Merging makes the cached indexes exactly those cached before together with the new substring's |
| `ReassemblerProofs.MergeSeparates` | Lab4-2023Spring-karenntayy-master/sponge/libsponge/stream_reassembler.cc:86-134 | Merging keeps cached substrings separated by at least one missing index |
| `ReassemblerProofs.MergeOfStream` | Lab4-2023Spring-karenntayy-master/sponge/libsponge/stream_reassembler.cc:86-134 | If the cache and the new substring agree with one stream, so does the cache after merging |
| `ReassemblerProofs.MergeStaysBelow` | Lab4-2023Spring-karenntayy-master/sponge/libsponge/stream_reassembler.cc:86-134 | Merging caches nothing past the ends of what was cached and of the new substring |
| `ReassemblerProofs.UnassembledIsCount` | Lab4-2023Spring-karenntayy-master/sponge/libsponge/stream_reassembler.cc:77-82 | `unassembled_bytes` is the number of distinct cached indexes |
| `ReassemblerProofs.MergeAdds` | Lab4-2023Spring-karenntayy-master/sponge/libsponge/stream_reassembler.cc:77-134 | Merging adds to `unassembled_bytes()` exactly the number of indexes of the substring that were not cached |
| `ReassemblyBytes.MergeKeepsBytes` | Lab4-2023Spring-karenntayy-master/sponge/libsponge/stream_reassembler.cc:86-134 | Which byte stays where a pushed and a cached substring overlap, whether or not they agree: the pushed one's if it ends later, or at the same index and starts no later; the cached one's otherwise; every other byte of both stays |
| `ReassemblyBytes.PushWritesBytes` | Lab4-2023Spring-karenntayy-master/sponge/libsponge/stream_reassembler.cc:39-67 | What a push writes to the output is its own bytes as far as they reach, and cached ones after them |
| `ReassemblerProofs.FlushAllKeeps` | Lab4-2023Spring-karenntayy-master/sponge/libsponge/stream_reassembler.cc:48-71 | The flush writes to the output without losing bytes of it, and leaves only substrings strictly beyond the assembled index |
| `ReassemblerProofs.PushKeepsWellFormed` | Lab4-2023Spring-karenntayy-master/sponge/libsponge/stream_reassembler.cc:27-75 | For any data, index and mark: the assembled index stays the number of bytes written, the cache stays separated and strictly beyond it, and the output only grows |
| `ReassemblyRuns.RunIsSafe` | Lab4-2023Spring-karenntayy-master/sponge/libsponge/stream_reassembler.cc:27-75 | For any capacity and any interleaving of consistent pushes and reads, the output is a prefix of the stream, and is ended exactly when an end-of-stream push was seen and the whole stream came out |
| `ReassemblyRuns.PushLosesIff` | Lab4-2023Spring-karenntayy-master/sponge/libsponge/stream_reassembler.cc:27-75 | A push loses a byte, its own or a cached one, exactly when it continues the output and every index from there up to and including the first one that no longer fits is pushed or cached |
| `ReassemblyRuns.CompleteIffLossless` | Lab4-2023Spring-karenntayy-master/sponge/libsponge/stream_reassembler.cc:27-75 | The output is everything up to the first index no push has covered, after every operation of a run, exactly when no push of it loses a byte |
| `ReassemblyRuns.ReassemblyIsOrderIndependent` | Lab4-2023Spring-karenntayy-master/sponge/libsponge/stream_reassembler.cc:27-75 | When no push loses a byte, the output is the stream up to the first index no push covered, and it is ended exactly when an end mark was seen and every index was covered |
| `ReassemblyRuns.SameBytesSameOutput` | Lab4-2023Spring-karenntayy-master/sponge/libsponge/stream_reassembler.cc:27-75 | Two lossless runs that cover the same indexes and agree on the end mark give the same output, whatever the order, cuts, overlaps and repetitions |
| `ReassemblyRuns.EndReachedIff` | Lab4-2023Spring-karenntayy-master/sponge/libsponge/stream_reassembler.cc:29-74 | A last substring that reaches the assembled index ends the output exactly when the output can hold it and no byte past its end is cached, other than in a substring that a full output makes the flush drop |
| `ReassemblyMemory.PushStaysRoomyIff` | Lab4-2023Spring-karenntayy-master/sponge/libsponge/stream_reassembler.cc:32-46 | From a state with nothing cached past the window, a push leaves nothing cached past it exactly when it starts at or before the assembled index or ends within the window |
| `ReassemblyMemory.PushStaysWithinIff` | Lab4-2023Spring-karenntayy-master/sponge/libsponge/stream_reassembler.cc:27-82 | In whatever state a push comes, buffered and unassembled bytes together are within the capacity after it exactly when: if it overruns the output, no byte is cached in a substring that starts past the window; if not, the indexes it adds fit beside what is there |
| `ReassemblyMemory.PushSize` | Lab4-2023Spring-karenntayy-master/sponge/libsponge/stream_reassembler.cc:27-134 | In whatever state a push comes, it leaves assembled and cached together exactly what was there plus its own indexes that were missing, or, if it overruns the output, a full output and what starts past it |
| `ReassemblyMemory.WithinIffFittingRun` | Lab4-2023Spring-karenntayy-master/sponge/libsponge/stream_reassembler.cc:27-134 | Over a run buffered and unassembled bytes are within the capacity in every state exactly when what each push leaves fits |
| `ReassemblyMemory.RoomyIffWindowRun` | Lab4-2023Spring-karenntayy-master/sponge/libsponge/stream_reassembler.cc:27-75 | Over a run the cache stays within the window in every state exactly when every push that starts past the assembled index ends within the window |
| `ReassemblyMemory.WindowRunStaysWithin` | Lab4-2023Spring-karenntayy-master/sponge/libsponge/stream_reassembler.cc:27-82 | A run whose out-of-order pushes end within the window keeps buffered and unassembled bytes within the capacity in every state |
| `ReassemblyMemory.CapacityIsExceeded` | Lab4-2023Spring-karenntayy-master/sponge/libsponge/stream_reassembler.cc:41-46 | Any out-of-order push of more than the capacity into a fresh reassembler exceeds the capacity |
| `ReassemblerObjects.StreamReassembler.constructor` | Lab4-2023Spring-karenntayy-master/sponge/libsponge/stream_reassembler.cc:17-22 | A new reassembler has assembled and cached nothing and knows no end |
| `ReassemblerObjects.StreamReassembler.PushSubstring` | Lab4-2023Spring-karenntayy-master/sponge/libsponge/stream_reassembler.cc:27-75 | The object's new state is the model's push of the old one; well-formedness is kept and the output only grows |
| `ReassemblerObjects.StreamReassembler.FlushSegments` | Lab4-2023Spring-karenntayy-master/sponge/libsponge/stream_reassembler.cc:48-71 | The loop over the cache and the erasure after it give the model's flush |
| `ReassemblerObjects.StreamReassembler.MergeSegments` | Lab4-2023Spring-karenntayy-master/sponge/libsponge/stream_reassembler.cc:86-134 | The loop over the cache, the erasure and the insertion give the model's merge |
| `ReassemblerObjects.StreamReassembler.MergeOne` | Lab4-2023Spring-karenntayy-master/sponge/libsponge/stream_reassembler.cc:94-123 | One round of that loop, with its two tests in order, is the model's merge step |
| `ReassemblerObjects.StreamReassembler.UnassembledBytes` | Lab4-2023Spring-karenntayy-master/sponge/libsponge/stream_reassembler.cc:77-82 | Returns the total size of the cached substrings |
| `ReassemblerObjects.StreamReassembler.Empty` | Lab4-2023Spring-karenntayy-master/sponge/libsponge/stream_reassembler.cc:84-84 | True exactly when no byte is cached |
| `TcpReceivers.ReceiveKeepsInv` | Lab4-2023Spring-karenntayy-master/sponge/libsponge/tcp_receiver.cc:15-51 | Any segment keeps the checkpoint equal to the bytes written, keeps a SYN once received and its initial number, and only extends the stream |
| `TcpReceivers.RecomputedAckno` | Lab4-2023Spring-karenntayy-master/sponge/libsponge/tcp_receiver.cc:41-59 | The absolute ackno the receiver recomputes from its own 32-bit one is 1 + bytes assembled, + 1 once the stream has ended |
| `TcpReceivers.AcknoIsMonotone` | Lab4-2023Spring-karenntayy-master/sponge/libsponge/tcp_receiver.cc:53-59 | No segment lowers the absolute ackno |
| `TcpReceivers.BoundedIffNoUnderflow` | Lab4-2023Spring-karenntayy-master/sponge/libsponge/tcp_receiver.cc:36-49 | A segment leaves no cached substring ending more than one payload past the window exactly when it is not a segment without SYN that claims number 0 and reaches past the ackno, whose index wraps around |
| `TcpReceivers.WithinMemoryIff` | Lab4-2023Spring-karenntayy-master/sponge/libsponge/tcp_receiver.cc:36-64 | In whatever state a segment comes, wrapped index or not: `unassembled_bytes() <= window_size() + P` holds after it exactly when the indexes it adds fit, or, if it overruns the output, what starts past the window does |
| `TcpReceivers.BoundedStaysWithinIff` | Lab4-2023Spring-karenntayy-master/sponge/libsponge/tcp_receiver.cc:36-64 | From a state whose cache ends within one payload of the window, that bound holds after a segment exactly when its index does not wrap, or its payload fits in the sum all the same |
| `TcpReceivers.MemoryIsExceeded` | Lab4-2023Spring-karenntayy-master/sponge/libsponge/tcp_receiver.cc:36-49 | Capacity 2, three bytes cached after a gap, three more that claim number 0: six bytes wait where five were allowed |
| `TcpReceivers.RunIsBoundedIff` | Lab4-2023Spring-karenntayy-master/sponge/libsponge/tcp_receiver.cc:36-64 | Over every run the cache ends within one payload of the window in all states exactly when no segment's index wraps |
| `TcpReceivers.RunIsWithinIff` | Lab4-2023Spring-karenntayy-master/sponge/libsponge/tcp_receiver.cc:36-64 | Over every run of segments and application reads, that bound holds in all states exactly when what each segment adds fits where it arrives |
| `TcpReceivers.MemoryIsBounded` | Lab4-2023Spring-karenntayy-master/sponge/libsponge/tcp_receiver.cc:38-64 | Over every run without a wrapped index and any application reads, `unassembled_bytes() <= window_size() + P` for payloads of at most P bytes |
| `ReceiverWindows.WindowTestIsExact` | Lab4-2023Spring-karenntayy-master/sponge/libsponge/tcp_receiver.cc:36-50 | From the number a segment starts at: if it holds a number past those received and starts before the end of the window, it is pushed at its own stream index with its FIN as the mark; if not, nothing changes |
| `ReceiverWindows.WindowIsKept` | Lab4-2023Spring-karenntayy-master/sponge/libsponge/tcp_receiver.cc:41-49 | Every byte of a segment within the window is in the output or the cache afterwards, unless the segment continues the output past what that can hold |
| `ReceiverWindows.WindowIsDelivered` | Lab4-2023Spring-karenntayy-master/sponge/libsponge/tcp_receiver.cc:41-49 | The bytes of a segment that starts at or before the ackno go to the output at their own places, as far as the window reaches |
| `ReceiverWindows.FirstSynStarts` | Lab4-2023Spring-karenntayy-master/sponge/libsponge/tcp_receiver.cc:18-25 | The first SYN gives the initial number, and what comes with it starts the stream |
| `ReceiverObjects.TCPReceiver.Ackno` | Lab4-2023Spring-karenntayy-master/sponge/libsponge/tcp_receiver.cc:53-59 | Returns the wrapped number after the SYN, the bytes written and the FIN, or nothing before the SYN |
| `ReceiverObjects.TCPReceiver.WindowSize` | Lab4-2023Spring-karenntayy-master/sponge/libsponge/tcp_receiver.cc:61-64 | Returns the room left in the output stream |
| `ReceiverObjects.TCPReceiver.SegmentReceived` | Lab4-2023Spring-karenntayy-master/sponge/libsponge/tcp_receiver.cc:15-51 | The object's new state is the model's, for every segment and every state; the receiver invariant is kept and the ackno never falls |
| `SenderProofs.FillSends` | Lab4-2023Spring-karenntayy-master/sponge/libsponge/tcp_sender.cc:37-116 | A fill queues only numbers never sent before, in order and each once, with SYN at 0, stream byte i at i + 1 and FIN after the last byte; the cache still tiles; what is in flight stays within the window when anything is sent; the FIN is not forgotten |
| `SenderProofs.NothingInFlightIff` | Lab4-2023Spring-karenntayy-master/sponge/libsponge/tcp_sender.cc:32-35 | Bytes in flight are zero exactly when nothing is cached, and never more than was sent; every cached key lies beyond the acknowledged number |
| `SenderProofs.AckKeepsTiling` | Lab4-2023Spring-karenntayy-master/sponge/libsponge/tcp_sender.cc:120-159 | A harmless ack keeps the tiling, even a partial or stale one; it moves the acknowledged number forward to the ack's own number or not at all, and queues only new numbers |
| `SenderProofs.AckKeepsTilingIff` | Lab4-2023Spring-karenntayy-master/sponge/libsponge/tcp_sender.cc:120-159 | An ack keeps the tiling exactly when it would leave no more in flight than was ever sent, or nothing is cached |
| `SenderProofs.UnacceptableCoversAll` | Lab4-2023Spring-karenntayy-master/sponge/libsponge/tcp_sender.cc:129-134 | An ack from before the initial number is lifted by 2^32 and covers every cached segment |
| `SenderRuns.RunTiles` | Lab4-2023Spring-karenntayy-master/sponge/libsponge/tcp_sender.cc:37-196 | Over every run: the segments sent for the first time hold the numbers 0 up to `next_seqno`, in order and each once; the cache tiles the part not acknowledged; at most 65535 numbers are in flight |
| `SenderRuns.FillObeysWindow` | Lab4-2023Spring-karenntayy-master/sponge/libsponge/tcp_sender.cc:56-116 | A fill that sends ends with at most the peer's window, or 1, in flight; at end of stream with nothing in flight the FIN was sent |
| `SenderRuns.TickRetransmitsOldest` | Lab4-2023Spring-karenntayy-master/sponge/libsponge/tcp_sender.cc:162-179 | A tick queues one segment, the one that holds the first number not acknowledged, exactly when something is cached, the timeout has passed and fewer than nine retransmissions were made; otherwise it queues nothing |
| `SenderRuns.BackoffIsExponential` | Lab4-2023Spring-karenntayy-master/sponge/libsponge/tcp_sender.cc:146-179 | Over every run: timeout = initial * 2^retransmissions with at most 9 and no overflow; the time since an ack advanced is at least initial * (2^retransmissions - 1) plus the timer; beyond 8 retransmissions it is at least 511 initial timeouts (section 5 of RFC 6298) |
| `SenderWindows.FillFillsWindow` | Lab4-2023Spring-karenntayy-master/sponge/libsponge/tcp_sender.cc:55-116 | A fill gives out exactly as many numbers as the window has room for and are left, FIN included, in order, every segment but the last with 1452 bytes and a lone FIN only by itself; nothing of the stream before the SYN is acknowledged |
| `SenderWindows.WindowIsFilled` | Lab4-2023Spring-karenntayy-master/sponge/libsponge/tcp_sender.cc:55-116 | After a fill everything is read or the window is full, and a FIN that is due is sent or the window is full |
| `SenderWindows.FirstFillSendsSyn` | Lab4-2023Spring-karenntayy-master/sponge/libsponge/tcp_sender.cc:39-54 | The first fill sends just the SYN, and with it at most the FIN of an empty stream |
| `SenderWindows.AckTakesWindow` | Lab4-2023Spring-karenntayy-master/sponge/libsponge/tcp_sender.cc:120-144 | Every ack of a number not beyond the next brings its window, also one that acknowledges nothing; one beyond changes nothing |
| `SenderWindows.AckExactly` | Lab4-2023Spring-karenntayy-master/sponge/libsponge/tcp_sender.cc:120-159 | An ack of a number forgets exactly the segments that end at or before it; if there is one, flight is counted from that number, the timer starts afresh and the new window is filled; if not, only the window changes |
| `SenderWindows.ClosedWindowIsProbed` | Lab4-2023Spring-karenntayy-master/sponge/libsponge/tcp_sender.cc:162-179 | Over any ticks against a closed window the oldest segment goes out each time the timeout has passed, and timeout and count of retransmissions stay as they are |
| `SenderWindows.OpenWindowBacksOff` | Lab4-2023Spring-karenntayy-master/sponge/libsponge/tcp_sender.cc:162-179 | Over any ticks with an open window each expiry, up to the ninth, sends the oldest segment, counts one and doubles the timeout |
| `SenderWindows.ExpiredTimeoutsCount` | Lab4-2023Spring-karenntayy-master/sponge/libsponge/tcp_sender.cc:162-179 | `n` timeouts that expire one after the other count `n` retransmissions more, up to nine |
| `SenderObjects.TCPSender.constructor` | Lab4-2023Spring-karenntayy-master/sponge/libsponge/tcp_sender.cc:24-30 | A new sender has sent nothing and assumes a window of one |
| `SenderObjects.TCPSender.FillWindow` | Lab4-2023Spring-karenntayy-master/sponge/libsponge/tcp_sender.cc:37-116 | The object's new state is the model's fill; the tiling is kept, and what is in flight is within the window if anything was sent; from a state with the SYN acknowledged and no more in flight than the window, everything is read or the window is full |
| `SenderObjects.TCPSender.SendData` | Lab4-2023Spring-karenntayy-master/sponge/libsponge/tcp_sender.cc:59-90 | The loop that cuts the stream gives the model's loop; its window subtraction never goes below zero and it terminates |
| `SenderObjects.TCPSender.SendFin` | Lab4-2023Spring-karenntayy-master/sponge/libsponge/tcp_sender.cc:95-115 | Sends a lone FIN exactly when it is due and the window has room |
| `SenderObjects.TCPSender.AckReceived` | Lab4-2023Spring-karenntayy-master/sponge/libsponge/tcp_sender.cc:120-159 | The object's new state is the model's, for every ackno and window; the tiling is kept exactly by a harmless ack; the window it carries is taken, unless the ack is of a number beyond the next, which changes nothing |
| `SenderObjects.TCPSender.Tick` | Lab4-2023Spring-karenntayy-master/sponge/libsponge/tcp_sender.cc:162-179 | The object's new state is the model's tick; against a closed window timeout and count stay as they are |
| `SenderObjects.TCPSender.SendEmptySegment` | Lab4-2023Spring-karenntayy-master/sponge/libsponge/tcp_sender.cc:186-191 | Queues one empty segment at the next number and changes nothing else |
| `SenderObjects.TCPSender.CacheSegment` | Lab4-2023Spring-karenntayy-master/sponge/libsponge/tcp_sender.cc:193-196 | Stores a segment under its key |
| `ConnectionProofs.SegmentKeepsInv` | Lab4-2023Spring-karenntayy-master/sponge/libsponge/tcp_connection.cc:35-165 | Every allowed segment keeps the connection's invariant, and everything it makes the connection send carries the ackno and window the receiver has afterwards |
| `ConnectionProofs.TickKeepsInv` | Lab4-2023Spring-karenntayy-master/sponge/libsponge/tcp_connection.cc:186-205 | So does every tick |
| `ConnectionProofs.WriteKeepsInv` | Lab4-2023Spring-karenntayy-master/sponge/libsponge/tcp_connection.cc:172-183 | So does every write before the end of input |
| `ConnectionProofs.EndInputKeepsInv` | Lab4-2023Spring-karenntayy-master/sponge/libsponge/tcp_connection.cc:207-212 | So does ending the input |
| `ConnectionProofs.ConnectKeepsInv` | Lab4-2023Spring-karenntayy-master/sponge/libsponge/tcp_connection.cc:214-219 | So does connecting |
| `ConnectionProofs.SendDataKeeps` | Lab4-2023Spring-karenntayy-master/sponge/libsponge/tcp_connection.cc:233-261 | Moving the queue out and closing if done establishes that an inactive connection is cleanly closed or failed, and that one with all delivered and no reason to linger is not active |
| `ConnectionRuns.ShutdownIsOfficial` | Lab4-2023Spring-karenntayy-master/sponge/libsponge/tcp_connection.cc:233-276 | In every reachable state, not active means state CLOSED or RESET; CLOSED only when the inbound stream has ended, the FIN was sent, every number up to it acknowledged, and lingering off or ten timeouts passed (section 3.5 of RFC 793) |
| `ConnectionRuns.DispatchIsOfficial` | Lab4-2023Spring-karenntayy-master/sponge/libsponge/tcp_connection.cc:55-164 | In every reachable active state, the branches for LISTEN, SYN-SENT, SYN-RCVD, FIN-WAIT-1, FIN-WAIT-2 and TIME-WAIT are taken exactly in the official state of that name, and the ESTABLISHED branch exactly when the SYN is acknowledged, the FIN is not sent and the own stream is not over, which then is over exactly while its FIN is due (section 3.2 of RFC 793) |
| `ConnectionRuns.NamedIff` | Lab4-2023Spring-karenntayy-master/sponge/libsponge/tcp_helpers/tcp_state.cc:61-110 | A reachable active state has an official name exactly unless the inbound stream is over while the own SYN is not acknowledged, or while lingering is still on and the own FIN not sent |
| `ConnectionRuns.HalvesAgree` | Lab4-2023Spring-karenntayy-master/sponge/libsponge/tcp_connection.cc:55-97 | In every reachable state a sender that has not started goes with a receiver in LISTEN, an acknowledged SYN with one that has the peer's SYN, and at most 65535 numbers are in flight |
| `ConnectionRuns.TimeWaitEnds` | Lab4-2023Spring-karenntayy-master/sponge/libsponge/tcp_connection.cc:186-260 | From TIME-WAIT, with no segment arriving, the connection is active exactly as long as the time since the last segment is below ten timeouts |
| `ConnectionRuns.GivingUp` | Lab4-2023Spring-karenntayy-master/sponge/libsponge/tcp_connection.cc:195-203 | The tick that exceeds the retransmissions adds just one RST to what the connection sent, puts it in state RESET, and comes at least 511 timeouts after an ack last advanced |
| `ConnectionReplies.ArrivalReplies` | Lab4-2023Spring-karenntayy-master/sponge/libsponge/tcp_connection.cc:55-164 | Outside SYN-RCVD a segment that is not ignored moves out, in order and under the new ackno and window, what was queued, the new numbers its ack lets out, an empty segment if an answer is due, and the new numbers of the refill; and nothing else |
| `ConnectionReplies.ArrivalIsAcknowledged` | Lab4-2023Spring-karenntayy-master/sponge/libsponge/tcp_connection.cc:68-154 | The last segment sent carries the receiver's new ackno after: numbers in ESTABLISHED or CLOSE-WAIT while the own stream is not over, a SYN in SYN-SENT, a FIN in FIN-WAIT-1 or TIME-WAIT, anything in FIN-WAIT-2 |
| `ConnectionReplies.ArrivalSendsIff` | Lab4-2023Spring-karenntayy-master/sponge/libsponge/tcp_connection.cc:55-164 | Anything goes out exactly when an answer is due, something was queued, or something new can be sent |
| `ConnectionReplies.AckIsNotAnswered` | Lab4-2023Spring-karenntayy-master/sponge/libsponge/tcp_connection.cc:106-109 | In ESTABLISHED a segment without numbers brings nothing out when nothing is queued or unsent |
| `ConnectionReplies.ArrivalFills` | Lab4-2023Spring-karenntayy-master/sponge/libsponge/tcp_connection.cc:100-109 | With the SYN acknowledged and the own FIN not sent, a segment leaves nothing unsent that its window has room for |
| `ConnectionReplies.WindowUpdateFills` | Lab4-2023Spring-karenntayy-master/sponge/libsponge/tcp_connection.cc:100-109 | A window update that acknowledges nothing new leaves everything read or the whole window in flight |
| `ConnectionReplies.ArrivalHeeds` | Lab4-2023Spring-karenntayy-master/sponge/libsponge/tcp_connection.cc:55-164 | By state: in which segments the ackno and the window take effect, and what effect, and that they have none in the others |
| `ConnectionReplies.ArrivalIsReceived` | Lab4-2023Spring-karenntayy-master/sponge/libsponge/tcp_connection.cc:42-164 | By state: which segments reach the receiver; the clock starts afresh with each |
| `ConnectionReplies.SynRcvdQueues` | Lab4-2023Spring-karenntayy-master/sponge/libsponge/tcp_connection.cc:92-97 | In SYN-RCVD what the ack of the SYN lets out stays queued, and nothing goes out |
| `ConnectionReplies.ResetArrives` | Lab4-2023Spring-karenntayy-master/sponge/libsponge/tcp_connection.cc:44-53 | A RST ends the connection at once in state RESET, both streams in error, and nothing is sent |
| `ConnectionReplies.WriteSends` | Lab4-2023Spring-karenntayy-master/sponge/libsponge/tcp_connection.cc:172-183 | A write takes the longest prefix there is room for and sends the queue and the new numbers, in full segments, as many as the window allows |
| `ConnectionReplies.EndInputSends` | Lab4-2023Spring-karenntayy-master/sponge/libsponge/tcp_connection.cc:207-212 | Ending the input sends what the window allows, the FIN included |
| `ConnectionReplies.TickSends` | Lab4-2023Spring-karenntayy-master/sponge/libsponge/tcp_connection.cc:186-205 | A tick resets the connection with one RST exactly when the ninth retransmission is due to an open window; else it sends the queue, and the oldest segment if its timeout has passed |
| `ConnectionReplies.ProbingNeverResets` | Lab4-2023Spring-karenntayy-master/sponge/libsponge/tcp_connection.cc:186-205 | Over any ticks against a closed window the connection stays active, sends the oldest segment at each timeout and counts no retransmission |
| `ConnectionDiagrams.NamesMean` | Lab4-2023Spring-karenntayy-master/sponge/libsponge/tcp_helpers/tcp_state.cc:76-110 | In every reachable active state the ten official names say what was sent, acknowledged and received, and CLOSING differs from LAST-ACK in that the side lingers |
| `ConnectionDiagrams.ListenHearsSyn` | Lab4-2023Spring-karenntayy-master/sponge/libsponge/tcp_connection.cc:55-66 | LISTEN: a SYN leads to SYN-RCVD unless it ends the peer's stream |
| `ConnectionDiagrams.SynSentHearsSyn` | Lab4-2023Spring-karenntayy-master/sponge/libsponge/tcp_connection.cc:69-89 | SYN-SENT: a SYN that acknowledges ours leads to ESTABLISHED, another to SYN-RCVD, while neither stream is over |
| `ConnectionDiagrams.SynRcvdHearsAck` | Lab4-2023Spring-karenntayy-master/sponge/libsponge/tcp_connection.cc:92-97 | SYN-RCVD: exactly the ack of our SYN leads to ESTABLISHED, while neither stream is over |
| `ConnectionDiagrams.EstablishedHears` | Lab4-2023Spring-karenntayy-master/sponge/libsponge/tcp_connection.cc:100-110 | ESTABLISHED with the own stream open: exactly the end of the peer's stream leads to CLOSE-WAIT |
| `ConnectionDiagrams.EstablishedCloses` | Lab4-2023Spring-karenntayy-master/sponge/libsponge/tcp_connection.cc:207-212 | ESTABLISHED: closing leads to FIN-WAIT-1 exactly when the window has room for all that is unread and the FIN |
| `ConnectionDiagrams.CloseWaitCloses` | Lab4-2023Spring-karenntayy-master/sponge/libsponge/tcp_connection.cc:207-212 | CLOSE-WAIT: closing leads to LAST-ACK exactly when the window has that room |
| `ConnectionDiagrams.FinWait1Hears` | Lab4-2023Spring-karenntayy-master/sponge/libsponge/tcp_connection.cc:113-130 | FIN-WAIT-1: the ack of the FIN leads to FIN-WAIT-2, the end of the peer's stream to CLOSING, both to TIME-WAIT, anything else nowhere |
| `ConnectionDiagrams.FinWait2Hears` | Lab4-2023Spring-karenntayy-master/sponge/libsponge/tcp_connection.cc:134-141 | FIN-WAIT-2: exactly the end of the peer's stream leads to TIME-WAIT |
| `ConnectionDiagrams.ClosingHears` | Lab4-2023Spring-karenntayy-master/sponge/libsponge/tcp_connection.cc:158-164 | CLOSING: exactly the ack of the FIN leads to TIME-WAIT |
| `ConnectionDiagrams.LastAckHears` | Lab4-2023Spring-karenntayy-master/sponge/libsponge/tcp_connection.cc:158-164 | LAST-ACK: exactly the ack of the FIN leads to CLOSED |
| `ConnectionDiagrams.TimeWaitHears` | Lab4-2023Spring-karenntayy-master/sponge/libsponge/tcp_connection.cc:144-154 | TIME-WAIT: no segment leads out of it, and each starts its clock afresh (section 3.2 of RFC 793) |
| `ConnectionGaps.NumbersAreAcknowledgedIff` | Lab4-2023Spring-karenntayy-master/sponge/libsponge/tcp_connection.cc:100-164 | In ESTABLISHED and CLOSE-WAIT a segment with numbers is acknowledged exactly when the own stream is not over, or something queued or new goes out |
| `ConnectionGaps.FinWait1AcknowledgesIff` | Lab4-2023Spring-karenntayy-master/sponge/libsponge/tcp_connection.cc:113-130 | In FIN-WAIT-1 a segment with ACK is acknowledged exactly when it has a FIN or something is queued |
| `ConnectionGaps.ByteIsNotAcknowledged` | Lab4-2023Spring-karenntayy-master/sponge/libsponge/tcp_connection.cc:156-164 | A run to ESTABLISHED with the FIN due and the window full: the peer's next byte is taken and nothing goes out |
| `ConnectionProgress.StatesGoForward` | Lab4-2023Spring-karenntayy-master/sponge/libsponge/tcp_helpers/tcp_state.cc:76-110 | Over any run the sender's and the receiver's summaries only move forward, lingering is never switched on again and an inactive connection stays so: no official state is left and come back to |
| `ConnectionProgress.FinLeadsToCloseWait` | Lab4-2023Spring-karenntayy-master/sponge/libsponge/tcp_connection.cc:100-110 | A FIN segment in ESTABLISHED that starts at or before the ackno and reaches past it, with any room left and the own stream open, leads to CLOSE-WAIT exactly when the end of the peer's stream fits what is cached and what the output can hold |
| `ConnectionProgress.PassiveCloseDoesNotLinger` | Lab4-2023Spring-karenntayy-master/sponge/libsponge/tcp_connection.cc:250-260 | A connection that was in CLOSE-WAIT is never in TIME-WAIT, and is inactive as soon as its own stream is over and acknowledged (section 3.5 of RFC 793) |
| `ConnectionAcks.AcksNeverGoBackwards` | Lab4-2023Spring-karenntayy-master/sponge/libsponge/tcp_connection.cc:236-248 | Over any run, the absolute acknos behind the segments that are no RST never decrease, and none is carried before the peer's SYN arrived |
| `ConnectionLimits.ArrivalKeepsTilingIff` | Lab4-2023Spring-karenntayy-master/sponge/libsponge/tcp_connection.cc:92-164 | A segment whose ackno is used keeps the sender's accounting exactly when that ackno is not from before the initial number, or nothing is outstanding |
| `ConnectionLimits.DuplicateSynBreaksTiling` | Lab4-2023Spring-karenntayy-master/sponge/libsponge/tcp_connection.cc:92-97 | A duplicate of the peer's bare SYN arriving in SYN-RCVD breaks the accounting for every initial number from 1 to 2^31 - 2 |
| `ConnectionLimits.UnnamedStateIsReached` | Lab4-2023Spring-karenntayy-master/sponge/libsponge/tcp_connection.cc:92-97 | A run of two segments, a SYN and then an ACK with FIN, leads to an active state that has no official name |
| `ConnectionSends.EventSends` | Lab4-2023Spring-karenntayy-master/sponge/libsponge/tcp_connection.cc:35-276 | Every event keeps everything queued or on the wire a reset, a segment holding numbers given out, or an empty one; only a write makes the outbound stream longer; only a segment whose ackno is used changes what counts as acknowledged |
| `Duplex.DuplexSafety` | Lab4-2023Spring-karenntayy-master/sponge/libsponge/tcp_connection.cc:35-276 | Two whole connections over a network that loses, duplicates and reorders both ways: in every run each has received a prefix of what the other wrote; a stream has ended only if the other ended it and all of it is there; no ackno exceeds what the other sent |
| `Duplex.ClosedHasReceivedAll` | Lab4-2023Spring-karenntayy-master/sponge/libsponge/tcp_connection.cc:250-260 | A side in state CLOSED has received everything its peer wrote |
| `DuplexAcks.FairRunsAreRuns` | Lab4-2023Spring-karenntayy-master/sponge/libsponge/tcp_connection.cc:92-164 | If acknos are taken only from segments with the ACK flag, and none is older than half the number space, every arriving ackno is harmless: nothing has to be assumed of them |
| `DuplexAcks.AckedWasReceived` | Lab4-2023Spring-karenntayy-master/sponge/libsponge/tcp_sender.cc:120-159 | In every such run, what a side takes for acknowledged its peer has received, and every ack on the wire is of something received |
| `DuplexAcks.CleanCloseIsComplete` | Lab4-2023Spring-karenntayy-master/sponge/libsponge/tcp_connection.cc:250-260 | In every such run, once either side is CLOSED each side has received the other's whole stream to its end (section 3.5 of RFC 793) |
| `DuplexCloses.CloseIsReached` | Lab4-2023Spring-karenntayy-master/sponge/libsponge/tcp_connection.cc:35-261 | For all configurations, and all data of both sides that fits one segment and the peer's window: such a run opens both connections, exchanges the data and ends with both sides CLOSED and all of it received |
| `ConnectionObjects.TCPConnection.constructor` | Lab4-2023Spring-karenntayy-master/sponge/libsponge/tcp_connection.hh:87-87 | A new connection is active, lingering, with a fresh sender and receiver |
| `ConnectionObjects.TCPConnection.SegmentReceived` | Lab4-2023Spring-karenntayy-master/sponge/libsponge/tcp_connection.cc:35-165 | The object's new state is the model's, for every segment and every state; a legal segment keeps the connection invariant; a segment that is due an answer is acknowledged |
| `ConnectionObjects.TCPConnection.Handle` | Lab4-2023Spring-karenntayy-master/sponge/libsponge/tcp_connection.cc:55-97 | The chain of tests, up to SYN-RCVD, takes the model's branch |
| `ConnectionObjects.TCPConnection.HandleOpened` | Lab4-2023Spring-karenntayy-master/sponge/libsponge/tcp_connection.cc:100-110 | The test for ESTABLISHED takes the model's branch, and passes on to the rest of the chain |
| `ConnectionObjects.TCPConnection.HandleClosing` | Lab4-2023Spring-karenntayy-master/sponge/libsponge/tcp_connection.cc:112-164 | The test for FIN-WAIT-1 takes the model's branch, and passes on to the rest of the chain |
| `ConnectionObjects.TCPConnection.HandleFinished` | Lab4-2023Spring-karenntayy-master/sponge/libsponge/tcp_connection.cc:133-164 | The tests for FIN-WAIT-2 and TIME-WAIT, and the last branch, take the model's branch |
| `ConnectionObjects.TCPConnection.Write` | Lab4-2023Spring-karenntayy-master/sponge/libsponge/tcp_connection.cc:172-183 | Writes what fits, fills the window, sends; returns the number of bytes accepted |
| `ConnectionObjects.TCPConnection.Tick` | Lab4-2023Spring-karenntayy-master/sponge/libsponge/tcp_connection.cc:186-205 | The object's new state is the model's tick, with the reset when retransmissions are exceeded; the connection invariant is kept |
| `ConnectionObjects.TCPConnection.EndInputStream` | Lab4-2023Spring-karenntayy-master/sponge/libsponge/tcp_connection.cc:207-212 | Ends the outbound stream, fills the window, sends |
| `ConnectionObjects.TCPConnection.Connect` | Lab4-2023Spring-karenntayy-master/sponge/libsponge/tcp_connection.cc:214-219 | Fills the window and sends |
| `ConnectionObjects.TCPConnection.SendData` | Lab4-2023Spring-karenntayy-master/sponge/libsponge/tcp_connection.cc:233-261 | The whole queue goes out stamped with ackno and window, and the connection closes or stops lingering as the model says |
| `ConnectionObjects.TCPConnection.Drain` | Lab4-2023Spring-karenntayy-master/sponge/libsponge/tcp_connection.cc:236-248 | The loop empties the sender's queue in order, stamping each segment |
| `ConnectionObjects.TCPConnection.CloseIfDone` | Lab4-2023Spring-karenntayy-master/sponge/libsponge/tcp_connection.cc:250-260 | Lingering is switched off and the connection made inactive exactly as the model says |
| `ConnectionObjects.TCPConnection.ResetConnection` | Lab4-2023Spring-karenntayy-master/sponge/libsponge/tcp_connection.cc:263-276 | One RST goes out, both streams fail, the connection is inactive |
| `EndToEnd.EndToEndSafety` | Lab4-2023Spring-karenntayy-master/sponge/libsponge/tcp_receiver.cc:15-51 | One sender and one receiver over a network that loses, duplicates and reorders both ways: in every run the received bytes are a prefix of those written; the stream has ended only if all of the ended stream is there; no ack, current or in transit, is of a number beyond the sender's next; what the sender takes for acknowledged was delivered |
| `EndToEnd.RetransmissionMakesProgress` | Lab4-2023Spring-karenntayy-master/sponge/libsponge/tcp_sender.cc:162-179 | In every reachable state with something outstanding: delivering the oldest outstanding segment to a receiver with any room raises its ackno unless it had it all; with room for the payload, delivering the ack then sent acknowledges the whole segment |
| `EndToEndProgress.RecoversIff` | Lab4-2023Spring-karenntayy-master/sponge/libsponge/tcp_sender.cc:37-179 | For every run with a receiver that can hold a byte: after the loss of every segment and ack under way, everything written can still be delivered and acknowledged, the marked end too, exactly when nothing is outstanding, or the receiver has the oldest outstanding segment already, or its retransmissions are not used up |
| `EndToEndProgress.GivenUpIsStuck` | Lab4-2023Spring-karenntayy-master/sponge/libsponge/tcp_sender.cc:162-179 | In every configuration the SYN and nine retransmissions of it lost lead to a state from which nothing that may happen has everything delivered |
| `EndToEndProgress.NeverStuck` | Lab4-2023Spring-karenntayy-master/sponge/libsponge/tcp_sender.cc:37-116 | While the network still has a copy of everything sent, which it may deliver yet, a given-up sender is not stuck: if the receiver can hold a byte, every run goes on to one in which everything written so far is delivered and acknowledged, and the end of the stream too if it was marked |
| `EndToEndProgress.DeliverableIff` | Lab4-2023Spring-karenntayy-master/sponge/libsponge/tcp_receiver.cc:15-64 | With such a copy of everything, every reachable state with something written has such a continuation exactly when the receiver's capacity is not zero |
| `EndToEnd.DeliveredNumber` | Lab4-2023Spring-karenntayy-master/sponge/libsponge/tcp_receiver.cc:39-39 | A delivered segment's number is read as the one it was sent at: the window bound keeps it from being too far ahead |
| `EndToEnd.DeliverAckKeepsInv` | Lab4-2023Spring-karenntayy-master/sponge/libsponge/tcp_sender.cc:120-159 | Every ack the receiver sent is acceptable to the sender |
| `EndToEnd.DeliveryKeepsInv` | Lab4-2023Spring-karenntayy-master/sponge/libsponge/tcp_receiver.cc:15-51 | Every delivery, duplicate or not, keeps the received stream and cache consistent with what was sent |
| `Checksums.InternetChecksum.Add` | Lab4-2023Spring-karenntayy-master/sponge/libsponge/util/util.cc:89-98 | Adds each byte as the high or low half of a word, continuing from the parity of earlier calls |
| `Checksums.InternetChecksum.Value` | Lab4-2023Spring-karenntayy-master/sponge/libsponge/util/util.cc:100-108 | Returns the ones' complement of the folded sum |
| `Checksums.FoldIsFold` | Lab4-2023Spring-karenntayy-master/sponge/libsponge/util/util.cc:103-105 | Folding gives the sum modulo 65535, with 65535 for positive multiples |
| `Checksums.ChunksDoNotMatter` | Lab4-2023Spring-karenntayy-master/sponge/libsponge/util/util.cc:89-98 | Adding in arbitrary chunks is adding the concatenation |
| `Checksums.VerifiesIff` | Lab4-2023Spring-karenntayy-master/sponge/libsponge/util/util.cc:100-108 | The value is 0 exactly when the sum is a positive multiple of 65535 |
| `Checksums.StoredChecksumVerifies` | Lab4-2023Spring-karenntayy-master/sponge/libsponge/util/util.cc:100-108 | Adding the checksum to the sum it was computed from makes the value 0 |
| `Checksums.RouterChecksum` | Lab6-2023Spring-karenntayy-master/02-router/include/checksum.h:8-23 | Computes the two-fold value of the little-endian word sum, odd byte included, wrapping at 32 bits |
| `Checksums.NatChecksum` | Lab6-2023Spring-karenntayy-master/03-nat/include/checksum.h:8-20 | Computes the fully folded value of the little-endian word sum, odd byte included, wrapping at 32 bits |
| `Checksums.ThreeChecksumsAgree` | Lab6-2023Spring-karenntayy-master/02-router/include/checksum.h:8-23 | Router and NAT agree on every buffer and initial sum; both are the byte swap of the accumulating checksum started from the swapped sum as long as neither 32-bit sum overflows, odd lengths included, which none does up to 128 KiB from a 16-bit sum (section 2 of RFC 1071) |
| `NetParsers.NetParser.NextInt` | Lab4-2023Spring-karenntayy-master/sponge/libsponge/util/parser.cc:26-43 | Reads a big-endian integer and consumes its bytes, or gives 0, consumes nothing and keeps an error |
| `NetParsers.NetParser.DropPrefix` | Lab4-2023Spring-karenntayy-master/sponge/libsponge/util/parser.cc:45-51 | Drops bytes, or records that there are too few |
| `NetParsers.UnparseInt` | Lab4-2023Spring-karenntayy-master/sponge/libsponge/util/parser.cc:53-60 | Appends the integer's bytes, most significant first |
| `NetParsers.DecodeEncode` | Lab4-2023Spring-karenntayy-master/sponge/libsponge/util/parser.cc:26-60 | Parsing a row of integers undoes unparsing it and leaves what follows |
| `NetParsers.DecodeFailsIff` | Lab4-2023Spring-karenntayy-master/sponge/libsponge/util/parser.cc:20-43 | A row of integers parses exactly when the buffer holds all its bytes; the error is sticky |
| `TcpWire.HeaderRoundTrip` | Lab4-2023Spring-karenntayy-master/sponge/libsponge/tcp_helpers/tcp_header.cc:17-78 | Every header with data offset 5 to 15 parses back from its bytes, with what follows left over |
| `TcpWire.HeaderLayout` | Lab4-2023Spring-karenntayy-master/sponge/libsponge/tcp_helpers/tcp_header.cc:51-78 | Each field's bytes are at the field's own place, most significant first (section 3.1 of RFC 793) |
| `TcpWire.ParseLayout` | Lab4-2023Spring-karenntayy-master/sponge/libsponge/tcp_helpers/tcp_header.cc:17-40 | Of any twenty bytes each field is read from its own place |
| `TcpWire.HeaderResultIs` | Lab4-2023Spring-karenntayy-master/sponge/libsponge/tcp_helpers/tcp_header.cc:36-47 | What the parse reports of twenty bytes or more: an offset below 5, one past the end, or no error |
| `TcpWire.SegmentRoundTrip` | Lab4-2023Spring-karenntayy-master/sponge/libsponge/tcp_helpers/tcp_segment.cc:12-45 | Every segment that fits a datagram parses back without error, with its payload and its header apart from the filled-in checksum (section 3.1 of RFC 793) |
| `TcpWire.AcceptsIff` | Lab4-2023Spring-karenntayy-master/sponge/libsponge/tcp_helpers/tcp_segment.cc:12-23 | A segment is accepted exactly when its checksum verifies, twenty bytes are there, and a data offset of at least 5 lies within it |
| `TcpWire.ShortOffsetIsAccepted` | Lab4-2023Spring-karenntayy-master/sponge/libsponge/tcp_helpers/tcp_segment.cc:12-23 | For every header with a data offset below 5 there is a segment with it that the header's parse reports and the segment's parse accepts |
| `Ipv4Wire.HeaderRoundTrip` | Lab4-2023Spring-karenntayy-master/sponge/libsponge/tcp_helpers/ipv4_header.cc:23-110 | Every header that fits its bit fields parses back from its bytes; the result says only whether its checksum verifies |
| `Ipv4Wire.HeaderLayout` | Lab4-2023Spring-karenntayy-master/sponge/libsponge/tcp_helpers/ipv4_header.cc:78-110 | Each field's bytes are at the field's own place, most significant first (section 3.1 of RFC 791) |
| `Ipv4Wire.ParseLayout` | Lab4-2023Spring-karenntayy-master/sponge/libsponge/tcp_helpers/ipv4_header.cc:23-50 | Of any twenty bytes each field is read from its own place |
| `Ipv4Wire.HeaderResultIs` | Lab4-2023Spring-karenntayy-master/sponge/libsponge/tcp_helpers/ipv4_header.cc:23-75 | What the parse reports of any bytes: which of its tests fails first |
| `Ipv4Wire.PseudoChecksumIsSum` | Lab4-2023Spring-karenntayy-master/sponge/libsponge/tcp_helpers/ipv4_header.cc:125-131 | The pseudo-header's part of the checksum is the sum of the words of its twelve bytes: addresses, a zero, protocol, length (section 3.1 of RFC 793) |
| `Ipv4Wire.ChecksumCoversPseudoHeader` | Lab4-2023Spring-karenntayy-master/sponge/libsponge/tcp_helpers/ipv4_header.cc:125-131 | Starting a checksum from it is adding those bytes before the segment's |
| `Ipv4Wire.DatagramRoundTrip` | Lab4-2023Spring-karenntayy-master/sponge/libsponge/tcp_helpers/ipv4_datagram.cc:11-41 | Every datagram of consistent length parses back without error, apart from the filled-in checksum, which verifies (section 3.1 of RFC 791) |
| `Ipv4Wire.AcceptsIff` | Lab4-2023Spring-karenntayy-master/sponge/libsponge/tcp_helpers/ipv4_datagram.cc:11-21 | Exactly which byte strings a datagram parse accepts, header checksum ignored |
| `Ipv4Wire.BadChecksumIsAccepted` | Lab4-2023Spring-karenntayy-master/sponge/libsponge/tcp_helpers/ipv4_datagram.cc:11-21 | A datagram whose header checksum is wrong, and reported so by the header's parse, is accepted |
| `TcpOverIp.CarryRoundTrip` | Lab4-2023Spring-karenntayy-master/sponge/libsponge/tcp_helpers/tcp_over_ip.cc:26-90 | A segment wrapped, written, read and unwrapped at the mirrored peer comes back with its ports set, apart from the checksum |
| `TcpOverIp.ListenerMirrors` | Lab4-2023Spring-karenntayy-master/sponge/libsponge/tcp_helpers/tcp_over_ip.cc:54-63 | A listening peer takes exactly a SYN without RST, and becomes the sender's mirror image |
| `TcpOverIp.CarrierIs` | Lab4-2023Spring-karenntayy-master/sponge/libsponge/tcp_helpers/tcp_over_ip.cc:75-90 | The datagram that carries a segment has the two addresses, protocol 6, and the length of headers and payload |
| `TcpOverIp.CarriedIff` | Lab4-2023Spring-karenntayy-master/sponge/libsponge/tcp_helpers/tcp_over_ip.cc:26-71 | A segment reaches a peer that is not listening exactly when both ends, address and port, are those it knows |
| `TcpOverIp.ListenerHearsIff` | Lab4-2023Spring-karenntayy-master/sponge/libsponge/tcp_helpers/tcp_over_ip.cc:49-66 | And one that is listening exactly when it is a SYN without RST to its port |
| `TcpOverIp.UnwrapTakesIff` | Lab4-2023Spring-karenntayy-master/sponge/libsponge/tcp_helpers/tcp_over_ip.cc:26-71 | Exactly which datagrams are taken, whoever built them; what is taken belongs to the configuration there is afterwards, and a refusal changes nothing |
| `TcpOverIp.TCPOverIPv4Adapter.WrapInIp` | Lab4-2023Spring-karenntayy-master/sponge/libsponge/tcp_helpers/tcp_over_ip.cc:75-90 | Sets ports, addresses and length and serializes with the pseudo-header sum |
| `TcpOverIp.TCPOverIPv4Adapter.UnwrapFromIp` | Lab4-2023Spring-karenntayy-master/sponge/libsponge/tcp_helpers/tcp_over_ip.cc:26-71 | Accepts or refuses as the model says, and changes the configuration only when listening |
| `WireCode.ParseTcpHeader` | Lab4-2023Spring-karenntayy-master/sponge/libsponge/tcp_helpers/tcp_header.cc:17-48 | Field by field, the model's parse |
| `WireCode.SerializeTcpHeader` | Lab4-2023Spring-karenntayy-master/sponge/libsponge/tcp_helpers/tcp_header.cc:51-78 | Field by field, the model's bytes |
| `WireCode.ParseTcpSegment` | Lab4-2023Spring-karenntayy-master/sponge/libsponge/tcp_helpers/tcp_segment.cc:12-23 | The model's parse, with the checksum tested first |
| `WireCode.SerializeTcpSegment` | Lab4-2023Spring-karenntayy-master/sponge/libsponge/tcp_helpers/tcp_segment.cc:30-45 | The model's bytes, with the checksum over header and payload filled in; they parse back to the segment |
| `WireCode.ParseIpHeader` | Lab4-2023Spring-karenntayy-master/sponge/libsponge/tcp_helpers/ipv4_header.cc:23-75 | Field by field, the model's parse, with the tests in the source's order |
| `WireCode.SerializeIpHeader` | Lab4-2023Spring-karenntayy-master/sponge/libsponge/tcp_helpers/ipv4_header.cc:78-110 | Field by field, the model's bytes |
| `WireCode.ParseIpDatagram` | Lab4-2023Spring-karenntayy-master/sponge/libsponge/tcp_helpers/ipv4_datagram.cc:11-21 | The model's parse, with the header's own result dropped |
| `WireCode.SerializeIpDatagram` | Lab4-2023Spring-karenntayy-master/sponge/libsponge/tcp_helpers/ipv4_datagram.cc:23-41 | The model's bytes, with the header checksum filled in; they parse back to the datagram |

## Left out

- Sockets, file descriptors, the event loop, TUN and UDP adapters, threads, `apps/`, doctests, DNS and `hexdump`: I/O plumbing. An address is a 32-bit number with a 16-bit port.
- `Buffer` and `BufferList` sharing: a buffer is a sequence of bytes, so neither sharing nor the exception on joining several buffers is modelled.
- Earlier copies of the Lab4 classes in Lab0 to Lab3; the ARP cache, NAT translation and router forwarding of Lab5 and Lab6.
- The random initial sequence number is a parameter; the destructor's warning and the string forms of headers and states are not modelled, and state summaries are enumerations. `windows_size_`, which no decision reads, is not kept. Only the millisecond arguments of `tick` stand for time.
- ByteStreams.ByteStream: the `int` positions are unbounded here, so overflow after 2^31 bytes is not modelled; the vector, only reserved in the code, is an array of that length.
- Byte counts, absolute numbers, timers and stream indexes are unbounded where they are only added; 32- and 64-bit wrap-around is modelled where the code relies on it or meets it: `wrap`, `unwrap`, the receiver's index below zero, the 32-bit timeout, the 8-bit retransmission count, the 16-bit window and length fields, the checksums.
- StreamReassemblers.Push: the ends of substrings are unbounded, and so are the loop's `int _begin` and `write_cnt` (stream_reassembler.cc:40-43,63-64), which differ from 2^31 bytes on. Where an index near 2^64, which only a wrapped receiver index can bring about, makes `data_rgt`, `seg_rgt` or `segment.first + size` wrap (stream_reassembler.cc:53,89,97), the code neither merges nor keeps such a substring as the model does: its next flush erases it. If it is also the last one, `eof_idx` (stream_reassembler.cc:30) wraps to its size less one, and the code ends the output once that many bytes are assembled and nothing else waits; the model's `eofIdx` is never reached.
- TcpReceivers.WithinMemoryIff: in a state that already has such a substring cached, the count is therefore the model's, which keeps it; the same holds for `RunIsWithinIff` after the first wrapped index.
- EndToEndProgress.RecoversIff: says when delivery remains possible after a loss, not that a network that is fair in the long run brings it about; delivery of a longer exchange is proved possible for a sender and a receiver, not for two whole connections (`DuplexCloses.CloseIsReached` has one segment each way).
- Duplex.DuplexSafety: what the owners read, write and tick, and what the network delivers, is arbitrary, but a segment that is not the peer's never arrives.
- WireCode.ParseTcpHeader: parses into a fresh header, as the library's callers do; fields left over from an earlier parse of the same object are not modelled. The same holds for `WireCode.ParseIpHeader`.
- TcpOverIp.TCPOverIPv4Adapter.WrapInIp: the exceptions of `serialize` are a missing result.
