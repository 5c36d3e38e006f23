# A verified model of the TCP data path

A Dafny 4.11 model of this stack's TCP data path and of the wire formats and the ARP queue below it. Each class of
the program is a Dafny class with the program's fields and loops, proved to do exactly what a specification function
on values says; the laws are then proved about those functions, over all inputs and all runs.

| files | what they hold |
|---|---|
| `Words`, `Chunks`, `Messages` | integer ranges, chunked byte strings, the two TCP messages |
| `Wrapping` | 32-bit sequence numbers, and unwrapping them to 64 bits near a checkpoint |
| `ByteStreams` | the byte stream as a queue of chunks, and `read` across chunks |
| `Intervals`, `CircBuffer` | the reassembler's interval set and its ring of bytes |
| `Assembly`, `AssemblyOrder` | what reassembly means, on a plain map from stream index to byte |
| `Reassembler` | the program's reassembler: ring and intervals together represent that map |
| `Receiver` | the TCP receiver, its acknowledgements and its window |
| `Timers`, `Senders` | the timer; the sender told in absolute sequence numbers |
| `SenderLaws`, `Conservation` | tiling and window, exactness of the payloads |
| `SenderRuns`, `SenderHistory`, `Retransmission` | over any run of the sender: nothing forgotten, one FIN, exact payloads, the timeout |
| `SenderInputs` | runs on which the sender passes its window, repeats its SYN, or cannot go on |
| `TCPSender` | the program's sender with wrapped numbers, proved to be that sender |
| `Connection`, `ConnectionLaws`, `AckLaws`, `Progress` | sender, unreliable network and receiver together: safety, flow control, completion |
| `Checksum`, `Parser`, `TCPSegment`, `IPv4Header` | ones'-complement sums over chunks, round trips of the two headers |
| `NetworkInterface`, `LinkLaws` | ARP: framing, queueing and asking; what two interfaces do for each other |

## How to read it

The main results about the connection are of three strengths, by what its ack channel may do. The data channel always
keeps every segment ever sent and may deliver any of them at any time, again and again or never (loss, duplication,
reordering).

- Whatever acks arrive, even ones that the receiver never sent: `ConnectionLaws.EndToEndSafety`,
  `ConnectionLaws.NetworkIsFaithful`, `ConnectionLaws.SequenceCount`.
- The receiver's acks, lost, repeated and in any order, each less than 2^31 from the sender's next number
  (`Connections.AcksAreGenuine`): `ConnectionLaws.UnassembledIsHeld` and, from states in which the sender is less than
  2^31 ahead of the receiver, `Progress.Completable`.
- The receiver's acks, lost and repeated but in order (`Connections.AcksKeepOrder`): `AckLaws.FlowControl`,
  `AckLaws.SenderReliances` and `Progress.AlwaysCompletable`. Without the order the window is not kept
  (`SenderInputs.OlderAckOverflows`).

The sender's segments and the acks carry their absolute position for the sake of the statements; both ends decide on
the wrapped 32-bit form only, as the program does.

The sender alone is modelled on every call that returns: any push whose loop ends, any ack that carries an ackno, in
order or not, with the room of a push counted in unsigned 64-bit arithmetic. Where it does not do what it is for, the
exact condition is proved, and `SenderInputs` holds a run from a fresh sender for each:

- the SYN flag stays set in the pushing loop (src/tcp_sender.cc:81, 109-110). A push never returns if and only if it is
  the first and more is buffered than the window less one (`TCPSenders.PushTerminatesIff`); a fresh sender with anything
  written is such a case (`TCPSenders.FirstPushOfDataNeverEnds`). A first push that returns repeats the SYN, and so
  breaks the tiling of sequence numbers, if and only if it has more than one payload of data
  (`SenderLaws.PushOrdered`), and passes the window if and only if the stream is closed and its data fill the window
  less one (`SenderLaws.PushWithinWindow`);
- later pushes pass the window if and only if it was passed before, by a window that shrank or by an older ack that
  moved the ackno back, and anything is left to send: the unsigned subtraction of src/tcp_sender.cc:71 has wrapped
  (`SenderLaws.PushWithinWindow` again);
- an ack leaves a due retransmission without a segment to send if and only if it covers all that was sent
  (`SenderLaws.ReceiveCanSend`); the next `maybe_send` would take the front of an empty queue (src/tcp_sender.cc:41-45),
  and no later call repairs this (`SenderRuns.NeverRepaired`).

The network interface likewise: framing a datagram whose IP version is not 4 throws (util/ipv4_header.cc:60-62). When
that happens while a queue is flushed for a hop that was just learned, what came before it is framed but the queue and
the recorded request stay (src/network_interface.cc:92-98), and the hop's next ARP message frames it again
(`NetworkInterfaces.ThrowingFramesTwice`). The interface stays valid if and only if no datagram of another version waits
for the sender of an ARP message (`NetworkInterfaces.StepValid`), and a step conserves a hop's datagrams if and only if
it does not throw on the hop's behalf or throws before framing any of its queue (`NetworkInterfaces.StepConserves`).

And the IPv4 header: its checksum is computed anew from the fields, without options (util/ipv4_header.cc:48-53,
107-117). A header that verifies as a whole is therefore accepted if and only if its options sum to a multiple of 65535
(`IPv4Headers.OptionsMustAddNothing`; `IPv4Headers.PaddedHeaderIsRejected` is an input), and the reserved bit, which is
not written back, must be clear in the sum (`IPv4Headers.AcceptedIff`).

What is left to the callers is stated as the guard of a step or as a precondition of the class method:

- the connection's first push is made on an open, empty stream, as `connect` does (util/tcp_minnow_socket.cc:250-253);
- an ack carries an ackno (src/tcp_sender.cc:124). That the window's edge never goes back, and that acks which keep their
  order meet the sender's discipline, is proved of the connection (`AckLaws.AckIsInOrder`, `AckLaws.SenderReliances`);
- `maybe_send` is called when a due retransmission has a segment to send;
- a delivered segment is within 2^31 of the receiver's checkpoint. `Wrapping.RoundTripExactly` says exactly which
  numbers are recovered, so this is what an arbitrarily late duplicate can break. In the same way the sender's class is
  told that its ackno and its outstanding segments are within 2^31 of its next number (`SenderLaws.Near`), which holds
  of every sender that has kept to its window (`SenderLaws.WithinWindowIsNear`);
- the reassembler is the only writer of its stream;
- byte counters stay small enough (below 2^62 bytes written in a connection, popped plus capacity plus the substring's
  length below 2^64 in the reassembler, sequence numbers below 2^63 in the sender) that only the arithmetic the program
  means to wrap wraps.

Where the code and its comments disagree the model follows the code: the first unassembled index is the number of
bytes pushed, not one more (src/reassembler.cc:13, 43); the block of 2^32 tried first by `unwrap` is the checkpoint's
own, not the nearest (src/wrapping_integers.cc:16, 24).

## Model

| member | source | states |
|---|---|---|
| Wrapping.Unwrap | src/wrapping_integers.cc:11-41 | the loop over three candidates, formed in 64-bit arithmetic, returns the value nearest the checkpoint among all 64-bit values with the right offset |
| Wrapping.NearestIsUnique | src/wrapping_integers.cc:11-41 | that nearest value, the lower one on a tie, is one and only one |
| Wrapping.FirstBestCandidate | src/wrapping_integers.cc:26-38 | the first strictly nearest of the three candidates is it, even where the lowest or highest wrapped past 2^64 |
| Wrapping.RoundTripExactly | src/wrapping_integers.cc:6-41 | unwrapping a wrapped number recovers it if and only if it is within half the circle of the checkpoint (a tie going down) or its competitor does not exist |
| Wrapping.RoundTrip | src/wrapping_integers.cc:6-41 | in particular whenever it is less than 2^31 away |
| Wrapping.WrapOfUnwrapped | src/wrapping_integers.cc:6-41 | wrapping an unwrapped number gives back the 32-bit number |
| Wrapping.WrapPlus | src/wrapping_integers.hh:32 | adding on the circle commutes with wrapping |
| Wrapping.WrapValue | src/wrapping_integers.cc:6-9 | as numbers: wrapping, adding and offsets count upwards from the zero point modulo 2^32 |
| ByteStreams.ByteStream.Push | src/byte_stream.cc:13-37 | exactly the bytes that fit are appended; no empty chunk is ever queued |
| ByteStreams.ByteStream.Peek | src/byte_stream.cc:64-82 | the view is a prefix of what is buffered, and empty only if nothing is buffered |
| ByteStreams.ByteStream.Pop | src/byte_stream.cc:94-146 | exactly min(len, buffered) bytes leave, across chunks and within one |
| ByteStreams.ByteStream.IsFinished | src/byte_stream.cc:84-87 | closed and drained |
| ByteStreams.ByteStream.AvailableCapacity | src/byte_stream.cc:54-57 | capacity minus what is buffered |
| ByteStreams.Read | src/byte_stream_helpers.cc:10-25 | returns and removes exactly the first min(len, buffered) bytes; ends, and its exception is never thrown |
| ByteStreams.FirstInFirstOut | src/byte_stream.cc:13-146 | over any run, delivered then buffered bytes are the initial then accepted bytes, in order; the size never exceeds the capacity |
| Intervals.IntervalSet.GetMergeable | src/Intervals.h:71-91 | whether one interval contains the new one; if not, which ones touch it, each once |
| Intervals.IntervalSet.MergeAndInsert | src/Intervals.h:22-45 | keeps the set canonical and makes the covered indices the union with the new interval |
| Intervals.CanonicalUnique | src/Intervals.h:22-45 | two canonical sets that cover the same indices are equal |
| Intervals.MergeCommutes | src/Intervals.h:22-45 | inserting two intervals in either order ends in the same set |
| Intervals.MergeAssociates | src/Intervals.h:33-44 | inserting two touching intervals is inserting their span |
| Intervals.MergeIdempotent | src/Intervals.h:22-45 | inserting an interval again changes nothing |
| Intervals.TotalLengthCounts | src/reassembler.cc:132-141 | the sum of lengths is the number of covered indices |
| Intervals.IntervalSet.PopSmallest | src/reassembler.cc:104-107 | takes the interval that starts lowest out of the set |
| CircBuffers.CircBuffer.SetSize | src/CircBuffer.h:29-36 | the first call makes a blank ring of that size; later calls change nothing |
| CircBuffers.CircBuffer.Insert | src/CircBuffer.h:38-52 | lays the data over the ring from the first index's slot on, around the end if need be, and changes no other slot |
| CircBuffers.CircBuffer.Pop | src/CircBuffer.h:59-76 | returns the bytes of the indices asked for and blanks exactly their slots |
| CircBuffers.OverlayIsCopies | src/CircBuffer.h:43-51 | the one or two contiguous copies are that overlay |
| CircBuffers.SliceIsReads | src/CircBuffer.h:65-75 | the one or two contiguous reads, the second after the first part is blanked, are that slice |
| CircBuffers.OverlayAt | src/CircBuffer.h:38-52 | read through stream indices of one window, an insertion is an update of exactly its own indices |
| CircBuffers.SlotsDistinct | src/CircBuffer.h:39 | two indices of one window never share a slot |
| Assembly.InsertWindow | src/reassembler.cc:41-116 | whatever is inserted, held-back indices stay above what was pushed and below popped + capacity, and the flush delivers the whole maximal run, never cut short |
| Assembly.InsertIsOverride | src/reassembler.cc:41-116 | for conflicting bytes too: an insertion overrides what is held back within the window, leaves everything else, and holds back no byte that continues the stream |
| Assembly.PendingBelowAvailable | src/reassembler.cc:132-141 | what is held back is nothing, or less than the available capacity |
| Assembly.EventAssembles | src/reassembler.cc:7-130 | a slice of a stream or a read keeps the assembled stream correct, and closed exactly when its end is known and reached |
| Assembly.RunAssembles | src/reassembler.cc:7-130 | so does any interleaving of slices, overlapping and in any order, with reads |
| Assembly.Reassembly | src/reassembler.cc:7-130 | from the start: a prefix of the stream, closed if and only if a last substring has come and everything is pushed, early returns included |
| AssemblyOrder.ResultOfSlices | src/reassembler.cc:7-130 | with room and no reads, the pushed length is the least index no slice covers, and the rest of what is covered is held back |
| AssemblyOrder.OrderIndependence | src/reassembler.cc:7-130 | any order, and any repetition, of the same slices ends in the same state |
| AssemblyOrder.OrderIndependentIntervals | src/Intervals.h:22-45 | and in the same interval set |
| Reassemblers.Reassembler.Insert | src/reassembler.cc:7-130 | trimming, ring, intervals, flush and close do exactly what an insertion into the map does, for every 64-bit first index |
| Reassemblers.Reassembler.BytesPending | src/reassembler.cc:132-141 | the exact number of held-back indices; 0 or below the available capacity |
| Reassemblers.TakeFrom | src/byte_stream.cc:94-146 | the reader may pop between insertions: ring and intervals still represent the same map |
| Reassemblers.Clamp | src/reassembler.cc:58-81 | the program gives up exactly when the substring starts beyond the window, also when its end wraps past 2^64 |
| Reassemblers.KeptIsClip | src/reassembler.cc:58-86 | what trimming and resizing keep is exactly the bytes inside the window |
| Reassemblers.HeldAfterStore | src/reassembler.cc:95-99 | storing bytes and merging their range is overriding the map |
| Reassemblers.FlushByIntervals | src/reassembler.cc:103-129 | popping the first interval when it continues the stream is delivering the maximal run |
| Receivers.TCPReceiver.Receive | src/tcp_receiver.cc:5-26 | zero point from the first SYN, stream index one below the unwrapped number in 64-bit arithmetic, insertion, FIN flag |
| Receivers.TCPReceiver.Send | src/tcp_receiver.cc:28-36 | the acknowledgement and window of the receiver's state |
| Receivers.AcceptAt | src/tcp_receiver.cc:14-24 | a segment less than 2^31 from the checkpoint is inserted at its true stream index |
| Receivers.BelowFirstByteIsDropped | src/tcp_receiver.cc:18 | a segment at the initial sequence number without SYN is put at index 2^64 - 1, so its bytes are dropped; a FIN on it still sets the end, one too low |
| Receivers.Acknowledgement | src/tcp_receiver.cc:28-36 | over any run: an ackno exactly once a SYN has come, standing for 1 + assembled length + 1 if closed |
| Receivers.StepMonotone | src/tcp_receiver.cc:28-36 | neither the ack position nor the right edge of the window moves back on any segment or read |
| Receivers.RunMonotone | src/tcp_receiver.cc:28-36 | nor over any run |
| Receivers.OfferIsRoom | src/tcp_receiver.cc:28-36 | over any run the offered window reaches exactly to the capacity beyond what was taken, unless it is 65535 |
| Receivers.OfferedIsKept | src/tcp_receiver.cc:5-36 | over any run every byte of a segment within the offered window is known afterwards |
| Timers.Timer.Start | src/Timer.h:14-18 | runs from the given time for the given timeout |
| Timers.Timer.IsExpired | src/Timer.h:22 | running, and the 64-bit end time is reached: not before the timeout, unless the end time wraps |
| SenderLaws.NothingForgotten | src/tcp_sender.cc:37-65 | every sequence number from the first held one up to the next one lies in a held segment |
| SenderLaws.QueueTiles | src/tcp_sender.cc:37-149 | segments in flight followed by unsent ones tile one range that ends at the next sequence number |
| SenderLaws.CutTiles | src/tcp_sender.cc:81-111 | the new segments tile SYN, bytes and FIN, with payloads of at most 1000 bytes, and of 1000 in all but the last |
| SenderLaws.PushOrdered | src/tcp_sender.cc:67-112 | a push keeps the tiling if and only if it is not a SYN with more than one payload of data |
| SenderLaws.PushWithinWindow | src/tcp_sender.cc:67-112 | exactly when a push sends nothing beyond ackno + window: for the SYN, unless it takes a FIN behind data that fill the window; later, if the window was not passed before or nothing is left |
| SenderInputs.SynFinOverflowsWindow | src/tcp_sender.cc:97-102 | a SYN with FIN through the initial window of one |
| SenderInputs.SynDataFinOverflowsWindow | src/tcp_sender.cc:97-102 | a SYN with 4 bytes and FIN through a window of 5 |
| SenderInputs.SynIsRepeated | src/tcp_sender.cc:81-107 | a first push of 1500 bytes queues two segments with the SYN |
| SenderInputs.ShrunkWindowOverflows | src/tcp_sender.cc:71 | after the window shrank below what is out, a push sends its whole stream |
| SenderInputs.OlderAckOverflows | src/tcp_sender.cc:130 | so it does after an ack that was overtaken moved the ackno back |
| SenderInputs.AckBeforeRetransmission | src/tcp_sender.cc:41-45 | an ack of everything leaves a due retransmission with nothing to send |
| SenderLaws.PushGreedy | src/tcp_sender.cc:81-111 | a push stops only when the room is used up or the stream drained, and then with the FIN sent if there is room |
| SenderLaws.MaybeSendOrdered | src/tcp_sender.cc:37-65 | sending keeps the queue; what is sent is in it, and a retransmission is its oldest segment |
| SenderLaws.ReceiveOrdered | src/tcp_sender.cc:122-163 | any ack keeps the tiling, drops only what it acknowledges, and leaves no fully acknowledged segment in flight |
| SenderLaws.ReceiveSettled | src/tcp_sender.cc:122-149 | an in-order ack stays between what is held and what was sent, and keeps the window if its edge does not go back |
| SenderLaws.ReceiveCanSend | src/tcp_sender.cc:140-149 | exactly when an ack leaves a due retransmission its segment |
| SenderLaws.WithinWindowIsNear | src/tcp_sender.cc:142-147 | within the window, all the sender unwraps is less than 2^31 away |
| SenderLaws.TickOrdered | src/tcp_sender.cc:165-184 | time changes no segment |
| SenderRuns.UnackedIsHeld | src/tcp_sender.cc:37-149 | over any run, acks in any order and the SYN repeated or not: every sequence number from the highest one ever acknowledged on is in a held segment |
| SenderRuns.RunOrdered | src/tcp_sender.cc:37-149 | over any run without a repeated SYN, acks in any order: what is held tiles one range from at or below the highest ack to the next sequence number |
| SenderHistories.AlwaysConserved | src/tcp_sender.cc:37-163 | over any run of a sender and its stream: sequence numbers count SYN, bytes and FIN, and every segment ever sent is its slice |
| SenderRuns.FinOnce | src/tcp_sender.cc:97-106 | over any run, of all segments ever queued one carries the FIN once it has been sent, and none before |
| SenderRuns.NeverRepaired | src/tcp_sender.cc:37-184 | a due retransmission without a segment stays one, whatever is called |
| Conservation.PushConserves | src/tcp_sender.cc:67-112 | for every push that ends: sequence numbers count SYN, bytes taken and FIN; each held payload is the outbound slice at its position |
| Conservation.MaybeSendConserves | src/tcp_sender.cc:37-65 | so is every segment sent, retransmissions included |
| Conservation.ReceiveConserves | src/tcp_sender.cc:122-149 | any ack keeps that |
| Conservation.WriterConserves | src/byte_stream.cc:13-42 | so does the application writing on or closing |
| Retransmission.TimeoutOfHistory | src/tcp_sender.cc:151-184 | over any run the timer runs exactly while something is in flight, and the timeout is the initial one times 2 to the number of expiries since the last new ack outside zero windows, modulo 2^64 |
| Retransmission.ExpiresOnTime | src/Timer.h:14-23 | over any run, with times below 2^64: time passing makes the oldest segment due and backs off if and only if something is in flight and the timeout has been ticked since the timer last started, read off the history |
| Retransmission.ExpiryRetransmitsOldest | src/tcp_sender.cc:169-182 | an expiry makes the oldest outstanding segment the next one sent and restarts the timer |
| TCPSenders.PushTerminatesIff | src/tcp_sender.cc:81-111 | the loop of a push, as entered from this sender and stream, ends if and only if it is not the SYN's or everything buffered fits the room, the window less one |
| TCPSenders.FirstPushOfDataNeverEnds | src/tcp_sender.cc:81-111 | the first push of a fresh sender never ends if anything is buffered |
| TCPSenders.TCPSender.PushRound | src/tcp_sender.cc:83-107 | one round of the loop: what is sent and queued; as long as bytes stay behind, one round of that theorem, also in a loop that never ends |
| TCPSenders.TCPSender.SequenceNumbersInFlight | src/tcp_sender.cc:17-30 | the sequence numbers of all held segments, which is the length of the tiled range |
| TCPSenders.TCPSender.MaybeSend | src/tcp_sender.cc:37-65 | does what the sender in absolute numbers does, and returns the wire form of its segment |
| TCPSenders.TCPSender.FillWindow | src/tcp_sender.cc:81-111 | the loop queues exactly the cut of the bytes this push may take, with the FIN where it belongs |
| TCPSenders.TCPSender.Push | src/tcp_sender.cc:67-112 | the whole push, for every push that ends, its unsigned room included |
| TCPSenders.TCPSender.PopAcknowledged | src/tcp_sender.cc:140-149 | unwrapping each segment's number anew drops exactly the fully acknowledged ones |
| TCPSenders.TCPSender.Receive | src/tcp_sender.cc:122-163 | ack, window, queue, timeout and timer after any acknowledgement, ignored ones included |
| TCPSenders.TCPSender.Tick | src/tcp_sender.cc:165-184 | time, expiry and backing off in 64-bit arithmetic |
| TCPSenders.TCPSender.SendEmptyMessage | src/tcp_sender.cc:114-120 | an empty segment at the next sequence number |
| ConnectionLaws.NextSafe | src/tcp_sender.cc:37-184 | every step, whatever ack it brings, keeps the invariant that ties sender, network and receiver |
| ConnectionLaws.EndToEndSafety | src/tcp_receiver.cc:5-26 | in every reachable state, whatever acks arrive, the inbound bytes are a prefix of those taken from the outbound stream; a closed inbound stream is the whole, closed outbound stream |
| ConnectionLaws.NetworkIsFaithful | src/tcp_sender.cc:37-65 | every segment in the network, retransmissions included, carries the outbound slice at the position its wire number unwraps to |
| ConnectionLaws.SequenceCount | src/tcp_sender.cc:67-112 | next sequence number = SYN sent + bytes taken + FIN sent, in every reachable state |
| ConnectionLaws.OfferIsAcknowledgement | src/tcp_receiver.cc:28-36 | what the receiver sends as acknowledgement is the offer the connection puts under way |
| ConnectionLaws.ReceiverReliances | src/reassembler.cc:41-62 | the counters that delivering a segment adds up stay below 2^64 |
| ConnectionLaws.NextHeld | src/tcp_sender.cc:122-149 | with genuine acks in any order, no step drops what the receiver waits for |
| ConnectionLaws.UnassembledIsHeld | src/tcp_sender.cc:37-149 | with genuine acks in any order, every sequence number sent or queued but not assembled, the SYN's included, is in a held segment with the right bytes |
| AckLaws.NextInv | src/tcp_sender.cc:37-184 | every step in which acks keep their order keeps the window and the order of acks |
| AckLaws.AckIsInOrder | src/tcp_receiver.cc:28-36 | acks that keep their order meet the sender's discipline and are unwrapped to the position they stand for |
| AckLaws.FlowControl | src/tcp_sender.cc:71-112 | with acks in order, the sender is always within its window and within the receiver's present offer, and acks never run ahead of what was sent |
| AckLaws.AckLeavesSendable | src/tcp_sender.cc:140-149 | exactly which arriving acks leave a due retransmission its segment |
| AckLaws.SenderReliances | src/tcp_sender.cc:71 | with acks in order, the sender's preconditions hold in every reachable state: room, nearness, byte counts, acks in order |
| Progress.AdvanceOnce | src/tcp_sender.cc:37-184 | whatever was lost, some continuation brings the receiver further, unless it has everything given out |
| Progress.Completable | src/tcp_sender.cc:37-184 | with genuine acks in any order, once the SYN is sent and the outbound stream closed: from every reachable state in which the sender can be called on and is less than 2^31 ahead, some continuation closes the inbound stream with exactly the outbound bytes |
| Progress.AlwaysCompletable | src/tcp_sender.cc:37-184 | with acks in order, once the SYN is sent and the outbound stream closed: no reachable state in which the sender can be called on is a dead end |
| Checksums.InternetChecksum.Add | util/checksum.hh:18-28 | adds a buffer byte by byte, with 32-bit wrap-around and parity |
| Checksums.InternetChecksum.AddAll | util/checksum.hh:41-46 | adding buffers is adding their concatenation |
| Checksums.InternetChecksum.Value | util/checksum.hh:30-39 | the folding loop gives the complement of the ones'-complement sum |
| Checksums.AddBytesConcat | util/checksum.hh:18-28 | the split into buffers, at odd places too, makes no difference |
| Checksums.AddBytesIsWordSum | util/checksum.hh:18-28 | within 32 bits the sum is that of the padded 16-bit words |
| Checksums.FoldKeeps | util/checksum.hh:34-36 | one folding step keeps the ones'-complement sum |
| Checksums.ChecksumCompletes | util/checksum.hh:30-39 | the checksum is the number that makes the sum a multiple of 65535, all ones only for zero |
| Checksums.WordSumUpdate | util/checksum.hh:18-28 | changing one byte changes the sum by once or 256 times the difference |
| Checksums.ChecksumVerifies | util/checksum.hh:30-39 | data whose field holds the checksum of the rest verifies to zero |
| Checksums.OnlyChecksumVerifies | util/checksum.hh:30-39 | and only that field value does, all ones and all zeros being one number |
| Parsers.BufferList.Peek | util/parser.hh:40-46 | a prefix of the rest; not empty as long as readable bytes are left |
| Parsers.BufferList.RemovePrefix | util/parser.hh:48-60 | drops exactly that many bytes across chunks |
| Parsers.BufferList.DumpBytes | util/parser.hh:79-92 | everything that is left, in one string |
| Parsers.Parser.Integer | util/parser.hh:120-140 | the big-endian number of the next bytes of the concatenation, or a sticky error that changes nothing |
| Parsers.NonEmptyReadable | util/parser.hh:120-140 | any split into non-empty chunks can be read to its end |
| Parsers.BigEndianOfBytes | util/parser.hh:120-179 | reading what was written gives the number back |
| Parsers.BytesOfBigEndian | util/parser.hh:120-179 | and writing what was read gives the bytes back |
| Parsers.ByteOf | util/parser.hh:175-178 | the shifts pick the big-endian digits |
| Parsers.Serializer.Integer | util/parser.hh:170-179 | appends the big-endian bytes |
| Parsers.Serializer.Buffer | util/parser.hh:181-185 | flushes, then appends the chunk |
| TCPSegments.TCPSegment.Serialize | util/tcp_segment.cc:70-84 | writes the 20-byte header and the payload |
| TCPSegments.TCPSegment.ComputeChecksum | util/tcp_segment.cc:86-95 | sets the field to the checksum over the segment with a zero field |
| TCPSegments.TCPSegment.Parse | util/tcp_segment.cc:11-62 | accepts exactly the data that verifies, has a whole header and an offset of at least 5, and then reads every field |
| TCPSegments.FieldsOfSerialized | util/tcp_segment.cc:26-84 | every field of a serialized segment is read back |
| TCPSegments.Layout | util/tcp_segment.cc:70-84 | where every field stands in the serialized bytes, as numbers |
| TCPSegments.FlagsOfOctet | util/tcp_segment.cc:40-50 | the four flags are read from their bits, whatever the other four are |
| TCPSegments.OptionsAreSkipped | util/tcp_segment.cc:55-61 | options of any length up to 40 bytes are skipped and change nothing else |
| TCPSegments.AcceptedIff | util/tcp_segment.cc:13-61 | which data are accepted, in numbers: 20 bytes, an offset of at least 5, and a word sum that is a positive multiple of 65535 |
| TCPSegments.CorruptedIsRejected | util/tcp_segment.cc:13-24 | an accepted segment with any one byte changed is rejected |
| TCPSegments.ComputedChecksumVerifies | util/tcp_segment.cc:13-24 | a segment with a computed checksum verifies with the same pseudo-header sum, and its words sum to a multiple of 65535 |
| TCPSegments.RoundTripSegment | util/tcp_segment.cc:11-95 | and is parsed back to the very same segment |
| TCPSegments.RoundTripOverIP | util/tcp_over_ip.cc:78-96 | for every payload a datagram can carry, with the pseudo-header sum of any IPv4 header |
| TCPSegments.SerializeSegment | util/parser.hh:207-214 | the chunks of the serializer are the segment's bytes, and their header is readable |
| TCPSegments.ParseSegment | util/parser.hh:216-223 | parsing from chunks is parsing their concatenation |
| IPv4Headers.IPv4Header.Serialize | util/ipv4_header.cc:57-80 | writes the header, or throws for another version |
| IPv4Headers.IPv4Header.ComputeChecksum | util/ipv4_header.cc:107-117 | sets the field to the checksum over the header with a zero field |
| IPv4Headers.IPv4Header.Parse | util/ipv4_header.cc:12-54 | accepts exactly whole version-4 headers of at least 5 words whose checksum is the one computed anew, and skips the options |
| IPv4Headers.RoundTripHeader | util/ipv4_header.cc:12-117 | a version-4 header with a computed checksum is accepted and read back as it was |
| IPv4Headers.RoundTripNeedsOffset | util/ipv4_header.cc:26-70 | the fields read back as they were if and only if the fragment offset fits 13 bits |
| IPv4Headers.Layout | util/ipv4_header.cc:57-80 | where every field stands in the serialized bytes, as numbers |
| IPv4Headers.AcceptedIff | util/ipv4_header.cc:12-54 | which data are accepted, in numbers: version, length, and a word sum over 20 bytes without the reserved bit |
| IPv4Headers.CorruptedIsRejected | util/ipv4_header.cc:48-53 | an accepted header with any one byte changed is rejected, unless only the reserved bit was |
| IPv4Headers.OptionsMustAddNothing | util/ipv4_header.cc:48-53 | a header that verifies with its options is accepted if and only if they sum to a multiple of 65535 |
| IPv4Headers.PaddedHeaderIsRejected | util/ipv4_header.cc:48-53 | the input: three padding options |
| IPv4Headers.PayloadLengthIs | util/ipv4_header.cc:82-85 | header length and payload length add up to the total length, or to 2^16 more if the header is longer |
| IPv4Headers.HeaderVerifies | util/ipv4_header.cc:107-117 | the words of a header with a computed checksum sum to all ones, a multiple of 65535 |
| IPv4Headers.PseudoSumMeaning | util/ipv4_header.cc:87-105 | the pseudo-header sum is the word sum of its fields, and small |
| NetworkInterfaces.Conservation | src/network_interface.cc:35-132 | over any run and any expiry, for a hop given only version 4: what was given is, in order, what the frames handed out and the frames still on the output carry for it, and then what is waiting |
| NetworkInterfaces.LogIsAddressed | src/network_interface.cc:35-91 | each of those frames went to the address known for its hop when it was put out |
| NetworkInterfaces.EmittedIsFramed | src/network_interface.cc:35-116 | the frames one event puts out carry exactly the datagrams it frames for its one hop |
| NetworkInterfaces.NothingThrows | src/network_interface.cc:35-116 | if only version 4 is given, no event ever throws and the interface is always valid |
| NetworkInterfaces.ThrowingFramesTwice | src/network_interface.cc:92-98 | a run in which a version 6 datagram makes the one before it be framed twice |
| NetworkInterfaces.StepConserves | src/network_interface.cc:35-116 | exactly when an event neither loses nor repeats a hop's datagrams |
| NetworkInterfaces.StepValid | src/network_interface.cc:35-132 | exactly when an event keeps: a known hop has nothing waiting and no request recorded; whoever has something waiting has been asked for |
| NetworkInterfaces.RequestsAreSpaced | src/network_interface.cc:45-52 | two requests for one hop with no learning in between are more than 5000 ms apart |
| LinkLaws.AcrossTheLink | src/network_interface.cc:35-116 | request, answer and flush between two interfaces: the datagram is handed up by its receiver and by nobody else, and both know each other |
| LinkLaws.KnownIsHeard | src/network_interface.cc:80-132 | over any run: an address is known exactly if the hop's last ARP message has not expired, and is the one it said |
| LinkLaws.AsksWhenDue | src/network_interface.cc:35-54 | over any run: exactly when a given datagram is framed, and exactly when a request goes out, more than 5000 ms after the last |
| LinkLaws.HandedUp | src/network_interface.cc:57-76 | exactly which frames hand a datagram up |
| NetworkInterfaces.NetworkInterface.SendDatagram | src/network_interface.cc:35-54 | frames, or queues and perhaps asks, or throws and does nothing |
| NetworkInterfaces.NetworkInterface.RecvFrame | src/network_interface.cc:57-116 | delivers, or learns, flushes the queue and replies, or throws in between and leaves queue and request |
| NetworkInterfaces.NetworkInterface.Tick | src/network_interface.cc:119-132 | time moves on and the given mappings are forgotten |
| NetworkInterfaces.NetworkInterface.MaybeSend | src/network_interface.cc:134-142 | takes the first frame off the output |

## Left out

- `Router`, `TCPPeer`, sockets, file descriptors, the event loop, TUN/TAP, threads, address resolution and random numbers: I/O or forwarding without logic of its own.
- The other direction of a connection: sender and receiver are composed one way, without `TCPPeer`'s forwarding of messages that carry no ackno.
- TCPSenders.TCPSender.Push: asks for a push that ends, for sequence numbers below 2^63, and for an ackno and outstanding segments within 2^31 of the next number, beyond which unwrapping finds other numbers.
- TCPSenders.TCPSender.Receive: asks for the same nearness, and for an ackno, without which the program has undefined behaviour.
- Reassemblers.Reassembler.Insert: byte counts at which 64-bit window positions overflow are not modelled.
- Receivers.TCPReceiver.Receive: neither are they here.
- Progress.AlwaysCompletable: says that a completing continuation exists, not that a fair network must take it; it asks for the SYN sent, the outbound stream closed (an open one has no end to deliver), and a positive inbound capacity, without which no byte can be delivered.
- Progress.Completable: the same, and for a sender less than 2^31 ahead, beyond which the receiver's acks are unwrapped to other numbers.
- NetworkInterfaces.NetworkInterface.Tick: which mappings expire at which time is a parameter, because expiry entries are keyed by their time alone (src/network_interface.hh:55-64).
- Ethernet and ARP wire formats: a frame's payload is what it parses as.
- `Parser::string` (util/parser.hh:142-155), which only reads Ethernet addresses.
- Sharing of buffers through `shared_ptr`: strings are values. `Reader::pop` shrinks the front chunk in place through the shared pointer (src/byte_stream.cc:106-121); another holder of that chunk would see it.
- The std::set of intervals is kept as the sequence of its elements in order; iterators are modelled by the elements they point to.
- Printing, logging, and counters that only serve printing.
