# A verified model of QOTP

QOTP is a small reliable transport over UDP, written in Go. This project models its four clusters in Dafny and
proves what they promise:

1. **The reliable byte stream** (`snd.go`, `rcv.go`). `SendStream`/`SendState` and `RcvStream`/`RcvState` say what
   every operation does to the buffers as values. `Partition`, `Flight` and `SendDiscipline` prove the sender's
   discipline, `Reassembly`, `SetUnion`, `Integrity` and `Delivery` the receiver's. `Transport` joins both over a network that
   drops, repeats and reorders; `EndToEnd` is its invariant, `Guarantees`, `Progress` and `FullBuffer` the results over
   whole runs. `Handouts`, `Timing`, `Acknowledging`, `Closing` and `StreamDone` say exactly what each operation hands
   out, reports, acknowledges and closes in every run. `Connection` adds what `conn.go` does with the buffers, `Duplex`
   shows that two connections talking both ways, acknowledgements riding on data, are a run of that system in each
   direction, and `Exchange` and `RoundTrips` say exactly what a flush sends and what hearing a frame does.
2. **The data structures** (`linkedmap.go`, `sortedmap.go`). `LinkedMap` and `SortedMap` are heap classes, pointer
   for pointer, proved to be an insertion-ordered map (`OrderedMap`) and a sorted map (`SortedKeys`). `SkipLevels`
   and `SkipNodes` hold the skip list's level invariant. `SendBuffer` and `ReceiveBuffer` are the two buffers as
   objects built on these maps, `ConnObject` a connection built on the buffers; every method is proved to do what the
   value-level operation does, so the results of cluster 1 are results about them.
3. **Wire format, sizing, handshake** (`proto.go`, `codec.go`, `crypto.go`, `conn.go`, `listener.go`). `Wire`,
   `RcvWindow`, `Nonce`, `Sealing`, `Datagrams` and `Handshake`. X25519 is an ideal commutative function, the AEAD
   of section 2.8 of RFC 8439 an ideal box that opens exactly on a matching seal.
4. **The controller** (`measurement.go`). `Controller` is the integer arithmetic, 64-bit wrap-around included;
   `ControllerRuns` has the bounds over whole runs and the comparison with unbounded and real arithmetic.

Integers are unbounded; where the source's width matters it is written out (`Wrap`). The buffers take any MTU and
any timeout: a room below zero becomes a large unsigned number, lengths are compared in 16 bits, the back-off wraps in
64, and a slice out of range is the outcome `Panics`. The results over runs and sizes ask for an MTU below 2^16 that
holds the headers (`MtuFits`) and for streams below 2^48 bytes, since the sizes and the packet key wrap otherwise.
Clocks, timeouts and keys are parameters. Each locked method is one atomic step.

Results that are not plain confirmations:

- `Insert` is not set union for every range. `SetUnion.InsertIsUnionIffClean` gives the exact condition.
- Delivery can stop for good in two ways. The first needs a split: the left part of a packet is read, then the late
  original is stored below the read position. `Progress.CutPacketsCanStall` gives a run of the whole system after which
  everything written is at the receiver and no continuation delivers it. `Delivery.InsertBlocksIff` and
  `Delivery.ReadBlocksIff` say exactly which calls block a stream, `Progress.BlockedIff` and `Progress.StalledIff`
  exactly which runs end blocked, and `Progress.UncutMakesProgress` that runs without a split never do.
- The second needs no split: bytes ahead of a gap fill the receive buffer, which then refuses the bytes that would
  close the gap, however often they arrive. `FullBuffer.FullBufferCanStall` gives such a run, `FullBuffer.StaysStuck`
  and `FullBuffer.StaysDammed` show for every run that it is for good, `FullBuffer.NextPacketDeliveredIff` says exactly
  when the missing packet gets through on arrival, and `FullBuffer.GapClosesIff`, with only that stream's bytes stored,
  exactly when it ever can.
- The direction bit of the nonce replaces bit 7 of the epoch, so epochs e and e + 128 of one block share their nonces
  (`Nonce.SharedNonce`); `Nonce.NonceInjectiveIff` is exact.
- The window code overstates windows of 1 to 127 bytes, and only those (`RcvWindow.NeverOverstatedIff`).
- The sequence counter refuses packets once exhausted, but being 64 bits wide it runs over after 2^64 - 2^48 refusals
  (`Nonce.RunsOverIn`); `Nonce.ReturnedIff` says of every call whether it returns a packet.
- The smoothed round trip is at most the exact average and at most 14 below it, exactly as long as no sample above the
  average finds it at zero (`ControllerRuns.TracksIffNoOvershoot`); samples of at least 8 never do, samples of 7 can
  (`ControllerRuns.SevensRestart`).
- A retransmission fits the MTU exactly unless the packet in flight has 2^16 bytes or more and its length modulo 2^16
  looks within the room (`Datagrams.RetransmitFitsIff`); in no run is there such a packet (`Duplex.FlushesFit`).
- The test for a fully acknowledged stream looks at the first packet in flight. Without splits it is right
  (`StreamDone.FullyAckedIff`); after a split it can answer yes although a byte never arrived
  (`StreamDone.SplitDeceives`).
- A flush takes the oldest waiting acknowledgement off the list before it tests for pacing. A paced flush drops it, and
  so does one whose stream has run out of retries or that sends the opening packet (`Exchange.AckSentIff`).
- Reading an initial packet that announces more filling than it holds slices out of range, and no other packet does
  (`Datagrams.OverrunIff`); none that the sender builds is like that (`Datagrams.BuiltArrives`).

Where `Readme.md` and the code differ, the model follows the code: a byte is handed out up to six times, where line
368 says five attempts; the connection id is never changed by XOR (lines 151 and 430); the direction bit is bit 7 of
the first little-endian byte, not the most significant bit of the epoch (line 205); an acknowledgement with a stream
header takes 18 or 24 bytes, where the overhead analysis there says 19 and 25.

## Model

| member | source | states |
|---|---|---|
| Guarantees.PrefixSafety | rcv.go:233-264 | in every run of sender, receiver and network, what was read of a stream is the first `next` bytes written to it, once and in order |
| Guarantees.NoPanic | rcv.go:144-191 | in every run no frame that arrives reaches one of Insert's mismatch panics |
| Guarantees.NoLoss | snd.go:131-305 | in every run each byte written is queued, in flight, stored at the receiver, or read |
| Guarantees.AckReleasesOnlyHeld | snd.go:283-305 | an acknowledgement never releases a byte the receiver lacks |
| Guarantees.AckedNeverDropped | rcv.go:79-125 | a byte the receiver has acknowledged stays stored or read in every continuation |
| Guarantees.RangeDiscipline | snd.go:162-189 | any two ranges ever handed out are nested or apart, packets in flight and acknowledged ranges partition what was sent, and every frame carries the stream's own bytes |
| Guarantees.HandoutBound | snd.go:192-280 | each byte in flight was handed out exactly `sentNr` times across splits, no byte more than six times, and the handouts of a stream are bounded by six times the bytes sent |
| Guarantees.BuffersConserved | snd.go:89-120 | in every run both sizes equal the bytes held over all streams and stay within capacity |
| Guarantees.CloseMarksEnd | snd.go:339-349 | a frame marked as last ends exactly where the closed stream ends |
| Handouts.SendsExactly | snd.go:131-189 | in every run ReadyToSend gives nothing exactly when no ping waits, nothing is queued and the stream is not closed; else the ping, the next bytes as room allows, or the empty closing packet at the end of the stream, tracked with the time, marked exactly when it ends a closed stream |
| Handouts.SendsAgainExactly | snd.go:192-280 | in every run ReadyToRetransmit sends exactly when the oldest packet is no ping, was sent one to five times and longer ago than the timeout doubled per earlier repetition; the oldest packet whole or cut, with times, counts and order; gives up exactly after six transmissions; drops an overdue ping |
| Timing.AcksExactly | snd.go:283-305 | in every run an acknowledgement reports no stream, a range not in flight, or the time of the last step that sent the packet's bytes, and releases exactly that packet |
| Acknowledging.ArrivalAcknowledgedIff | rcv.go:79-86 | in every run a frame that arrives, new or duplicate, is acknowledged by stream, offset and length exactly unless it is refused for want of room |
| Acknowledging.ArrivalAddsExactly | rcv.go:70-209 | in every run, after a frame has arrived, the receiver has exactly what it had and, unless refused, the bytes of the frame |
| Acknowledging.FirstInFirstOut | rcv.go:287-298 | in every run the acknowledgements sent, followed by those waiting, are those owed, in the order of arrival |
| Acknowledging.RoundTripReleases | conn.go:100-125 | in every run a frame of a packet in flight that arrives, new or duplicate, and whose acknowledgement goes back, takes that packet out of flight |
| Closing.CloseIsSent | snd.go:153-160 | after every run with a closed stream, going on sending puts a frame marked as last on the network |
| Closing.CloseArrives | conn.go:126-129 | after such a frame has arrived the receiver knows that the stream is closed |
| Closing.ClosesAtEnd | snd.go:339-349 | in every run a close ends an open stream at what was written and leaves a closed one as it is |
| Closing.StaysClosed | snd.go:339-349 | a closed stream stays closed there and gets no more bytes, in every continuation |
| Closing.FirstMarkCounts | rcv.go:211-219 | in every run a stream is closed at the receiver exactly where the first mark that arrived says |
| Closing.PingGoesOut | snd.go:122-150 | after every run a ping that is asked for goes out with the next send and is tracked as a ping |
| StreamDone.FullyAckedIff | conn.go:134-141 | in every run without a split of the stream, it is found fully acknowledged exactly when it is closed, every byte was acknowledged, and no empty packet is in flight below its end |
| StreamDone.SplitDeceives | conn.go:134-141 | a run with a split after which a stream is found fully acknowledged though its first byte never arrived |
| EndToEnd.ReachableInv | conn.go:94-132 | every reachable state satisfies the joint invariant of both buffers, the network and the acknowledgement list |
| EndToEnd.NextInv | conn.go:94-132 | every step (write, ping, close, send, retransmit, arrival, acknowledgement, read) keeps that invariant |
| EndToEnd.ArriveInv | conn.go:119-123 | a data frame of the network keeps it, refused, duplicate or stored |
| EndToEnd.RetransmitInv | snd.go:192-280 | a retransmission, whole or split, keeps it |
| EndToEnd.AckInv | conn.go:100-108 | an arriving acknowledgement keeps it |
| Duplex.BothWaysFaithful | conn.go:94-229 | in every run of two connections, both ways and on every stream, what one application read is the start of what the other wrote, and all four buffers count exactly what they hold |
| Duplex.NothingLost | conn.go:94-229 | in every such run each byte written at one end is queued or in flight there, or stored or read at the other |
| Duplex.NoPanics | rcv.go:144-191 | in every such run no frame heard at either end reaches a mismatch panic |
| Duplex.RunMirrored | conn.go:94-229 | every run of two connections, with piggybacked acknowledgements and closes of both directions, is in each direction a run of the one-way system; a flush as the opening packet carries the empty payload |
| Duplex.OutMirrored | conn.go:165-229 | what an end writes, flushes and hears is a sequence of sender steps |
| Duplex.InMirrored | conn.go:117-129 | what an end hears, acknowledges and reads is a sequence of receiver steps, through the wire format |
| Duplex.FramesAreTheWires | conn.go:231-242 | in every run each frame under way, sent in any packet that has a payload, is encoded, sealed, opened and read as the model takes it |
| Duplex.OpeningIsEmpty | listener.go:258-260 | the opening packet, which has keys and no payload, stands for the empty payload of stream 0 that its receiver makes of it |
| Duplex.FlushesFit | conn.go:165-229 | in every run whatever either end's next flush sends, encoded and sealed, fits the MTU |
| Duplex.RunOnWire | proto.go:16-28 | in every run all headers and waiting acknowledgements fit the widths of the wire format |
| Exchange.FlushExactly | conn.go:165-229 | in every run the frame a flush sends, said by what was written and by plain numbers: nothing, overdue packet, ping, next bytes, closing mark or acknowledgement alone; always with the acknowledgement that waited longest, which leaves the list |
| Exchange.WindowIsRoom | conn.go:167-170 | in every run an acknowledgement announces the capacity less the bytes stored; what arrives after rounding is at most that room exactly unless it is 1 to 127 bytes |
| Exchange.AckSentIff | conn.go:165-229 | in every run a flush sends the waiting acknowledgement exactly unless it is paced, out of retries or the opening packet; it is dropped then |
| RoundTrips.HearsAck | conn.go:99-118 | in every run hearing an acknowledgement releases exactly the named packet, and tells the controller the time since the last flush that sent its bytes, a duplicate, or nothing |
| RoundTrips.HearsData | conn.go:120-124 | in every run hearing a frame adds exactly what is owed for it to the waiting acknowledgements, and exactly its bytes to what the receiver has |
| RoundTrips.HearsClose | conn.go:126-129 | in every run hearing a frame closes its stream in both directions exactly when it is marked; the first close counts |
| Progress.UncutMakesProgress | rcv.go:233-273 | in every run that never split a packet of a stream nothing is stored below the read position and the next byte can be read exactly when it is stored |
| Progress.UncutDeliversAll | rcv.go:233-273 | after every such run, reading on delivers exactly the bytes written before the first position the receiver lacks |
| Progress.BlockedIff | rcv.go:233-273 | a run ends with a stream blocked exactly when one of its steps stored a range straddling the read position or read a segment inside which another started |
| Progress.StalledIff | rcv.go:233-273 | when the next byte is stored, it cannot be read exactly when some step of the run blocked the stream |
| Progress.CutPacketsCanStall | rcv.go:265-272 | a run of the whole system after which all bytes written are at the receiver and no continuation delivers the last one |
| Progress.StaysBlocked | rcv.go:265-272 | a stream with a segment below the read position delivers nothing in any continuation of any run |
| FullBuffer.NextPacketDeliveredIff | rcv.go:79-82 | after every run without a split, the packet at the read position arrives and can be read next exactly when it is stored already or there is room for it |
| FullBuffer.GapClosesIff | rcv.go:79-82 | after every such run with only this stream's bytes stored and that packet missing, some continuation without a split delivers more of the stream exactly when there is room for it now |
| FullBuffer.StaysDammed | rcv.go:79-82 | a stream that stores too much for its missing packet delivers nothing in any continuation without a split |
| FullBuffer.StaysStuck | rcv.go:79-82 | a full buffer of which nothing can be read delivers nothing, on any stream, in any continuation of any run |
| FullBuffer.FullBufferCanStall | rcv.go:79-82 | a run of the whole system without a split, with the missing packet at hand, after which no continuation delivers a byte |
| SendDiscipline.SendKeeps | snd.go:131-189 | sending keeps the stream invariant, hands out at most the room, the stream's next bytes at their offset, marked as last exactly when they end a closed stream |
| SendDiscipline.RetransmitKeeps | snd.go:192-280 | retransmitting keeps the invariant, hands out true bytes of the oldest packet within the room, marked as last exactly when they end a closed stream, and uses up exactly that many remaining handouts |
| SendDiscipline.SplitKeeps | snd.go:254-279 | a split keeps partition, per-byte counts and held bytes |
| SendDiscipline.AcknowledgeKeeps | snd.go:283-305 | an acknowledgement releases exactly the bytes of the named packet |
| SendDiscipline.QueueKeeps | snd.go:115-117 | queued bytes extend the stream and are held |
| SendDiscipline.CloseKeeps | snd.go:339-349 | closing keeps the invariant and the bytes held |
| SendState.QueueTakesPrefix | snd.go:89-120 | QueueData takes the longest prefix capacity allows, reports its length, and says full exactly when something was left |
| SendStream.NothingToAcknowledge | snd.go:296-300 | acknowledging a range that is not in flight changes nothing |
| Ranges.PacketKeyNamesRange | snd.go:351-363 | the 64-bit key gives back offset and length, for any offset modulo 2^48 |
| Ranges.PacketKeyInjective | snd.go:361-363 | keys of different ranges differ |
| Reassembly.InsertTruthful | rcv.go:70-209 | inserting true bytes, whatever their range, leaves only true bytes stored |
| Reassembly.InsertNeverPanics | rcv.go:130-201 | true bytes whose range crosses nothing stored trip no integrity check |
| Reassembly.InsertAddsExactly | rcv.go:93-208 | without crossings the receiver afterwards has exactly what it had and the new range |
| Reassembly.InsertGrowth | rcv.go:113-206 | without crossings the size moves with the bytes stored |
| Reassembly.ReadKeepsAll | rcv.go:252-264 | reading loses no byte and the size follows |
| SetUnion.InsertIsUnionIffClean | rcv.go:70-208 | on disjoint true segments Insert, for every range of true bytes, leaves disjoint segments holding exactly the union, and grows by exactly the new bytes, if and only if at most one segment starts inside the range (none when replacing) and it is covered whenever the predecessor ends where it starts; a range wholly below the read position must still be stored |
| Integrity.PanicsIff | rcv.go:130-201 | whatever arrives at disjoint segments trips an integrity check exactly when it is new, not covered by the segment before, and differs in a byte from that segment or the next |
| Delivery.DeliversPrefix | rcv.go:233-264 | for any arrivals of true bytes and reads, in any order, what was read is a prefix of the stream |
| Delivery.CompleteDelivery | rcv.go:70-273 | when arriving ranges are pairwise equal or apart, draining delivers exactly the bytes up to the first gap |
| Delivery.DeliversIff | rcv.go:246-272 | a read delivers exactly when the next byte starts a segment and nothing is stored below it |
| Delivery.InsertBlocksIff | rcv.go:93-208 | true bytes that arrive block a stream exactly when their range starts below the read position and ends above it |
| Delivery.ReadBlocksIff | rcv.go:252-264 | a read blocks the stream exactly when another segment starts inside the one delivered |
| Delivery.BlockedForever | rcv.go:265-272 | a blocked stream delivers nothing more, whatever arrives |
| Delivery.LateOriginalStalls | rcv.go:265-272 | a cut packet whose original arrives late is stored in full and never delivered |
| SendBuffer.SendBuffer.constructor | snd.go:62-68 | a new buffer is empty |
| SendBuffer.SendBuffer.QueueData | snd.go:89-120 | the objects change as `SendState.QueueData` says, count and status included |
| SendBuffer.SendBuffer.QueuePing | snd.go:122-128 | the ping request is set on the one stream |
| SendBuffer.SendBuffer.ReadyToSend | snd.go:131-189 | for every MTU, the objects and the packet are those of the value-level operation; other streams are untouched |
| SendBuffer.SendBuffer.ReadyToRetransmit | snd.go:192-280 | likewise for retransmission, back-off, ping removal, split and slice out of range |
| SendBuffer.SendBuffer.AcknowledgeRange | snd.go:283-305 | likewise for acknowledgement, status and sent time |
| SendBuffer.SendBuffer.Close | snd.go:339-349 | the stream is closed once, at sent plus queued bytes |
| SendBuffer.SendBuffer.GetOffsetAcked | snd.go:307-325 | the oldest packet's offset, or what was sent when nothing is in flight |
| SendBuffer.SendBuffer.GetOffsetClosedAt | snd.go:327-337 | where the stream was closed, if it was |
| SendBuffer.StreamBuffer.Split | snd.go:254-279 | the left part goes to the end of the linked map, the right part keeps the place of the whole |
| SendBuffer.Backoff | measurement.go:212-225 | for every timeout the loop computes the wrapping back-off of 64 bits, and fails outside 1..maxRetry |
| SendStream.BackoffDoublesIff | measurement.go:212-225 | that back-off is the timeout doubled once per earlier retry exactly as long as the last step fits 64 bits |
| ReceiveBuffer.ReceiveBuffer.constructor | rcv.go:42-50 | a new buffer is empty |
| ReceiveBuffer.ReceiveBuffer.Insert | rcv.go:70-209 | segments, size, acknowledgement list and status are those of the value-level operation; other streams are untouched |
| ReceiveBuffer.ReceiveBuffer.EmptyInsert | rcv.go:61-68 | an empty range is acknowledged and nothing else changes |
| ReceiveBuffer.ReceiveBuffer.RemoveOldestInOrder | rcv.go:233-273 | the segment at the read position is delivered when it is the lowest |
| ReceiveBuffer.ReceiveBuffer.Close | rcv.go:211-219 | the first close offset is kept |
| ReceiveBuffer.ReceiveBuffer.GetSndAck | rcv.go:287-298 | acknowledgements leave in the order they came |
| ReceiveBuffer.ReceiveBuffer.GetOffsetClosedAt | rcv.go:221-231 | where the stream was closed, if it was |
| ReceiveBuffer.RcvBuffer.TrimBelow | rcv.go:130-157 | what the previous segment, found in the skip list, leaves of the incoming bytes |
| ReceiveBuffer.RcvBuffer.TrimAbove | rcv.go:159-201 | what the following segment leaves, and which segment is dropped |
| ConnObject.Conn.constructor | listener.go:382-399 | new buffers, a fresh controller, and the own capacity as first window |
| ConnObject.Conn.Decode | conn.go:94-132 | both buffers and the controller change as the value-level dispatch says, and the peer's window is taken over |
| ConnObject.Conn.Flush | conn.go:165-229 | the acknowledgement taken, the buffers and the frame are those of the value-level flush; the controller records a loss exactly when a packet was sent again |
| ConnObject.Conn.FlushOut | conn.go:192-228 | retransmission before new data before a bare acknowledgement; a loss is recorded exactly when a packet was sent again |
| ConnObject.Conn.WriteAck | conn.go:261-268 | a frame without data, closing once the closed stream is fully acknowledged |
| Connection.StaysPositive | measurement.go:111-116 | no update makes the smallest round trip zero |
| LinkedMap.LinkedMap.constructor | linkedmap.go:28-42 | a new map is empty |
| LinkedMap.LinkedMap.Put | linkedmap.go:53-78 | an update keeps its place, a new key goes to the end; chain both ways, index and size agree |
| LinkedMap.LinkedMap.Get | linkedmap.go:81-91 | the value under the key |
| LinkedMap.LinkedMap.Remove | linkedmap.go:102-120 | the entry is gone, the others keep their order |
| LinkedMap.LinkedMap.Replace | linkedmap.go:180-210 | the new key takes the old one's place, or nothing changes |
| LinkedMap.LinkedMap.First | linkedmap.go:124-136 | the first key of the order |
| LinkedMap.LinkedMap.Next | linkedmap.go:141-156 | the key after a present one |
| LinkedMap.LinkedMap.Previous | linkedmap.go:160-175 | the key before a present one |
| LinkedMap.LinkedMap.Iterate | linkedmap.go:214-233 | the walk visits the entries in order from behind the start key, as far as the consumer goes |
| LinkedMap.LinkedMap.ContentsWellFormed | linkedmap.go:11-26 | a valid list stands for distinct keys, each with a value |
| OrderedMap.NextPreviousInverse | linkedmap.go:141-175 | going on and going back undo each other |
| OrderedMap.ReplaceKeepsPlace | linkedmap.go:180-210 | replacing a key keeps every entry's place and every other value |
| OrderedMap.PutKeepsPlaces | linkedmap.go:53-78 | an update changes one value and no place; a new key comes last |
| OrderedMap.RemoveKeepsOrder | linkedmap.go:102-120 | removal takes one entry out and leaves the others in their order |
| OrderedMap.NextIsBehind | linkedmap.go:124-156 | the first entry is at the front, the next of a key right behind it |
| OrderedMap.StartIsNext | linkedmap.go:214-233 | a walk from behind a key begins with the next entry, or at the front when there is none |
| OrderedMap.PutWellFormed | linkedmap.go:53-78 | Put keeps keys distinct and matched with values |
| OrderedMap.RemoveWellFormed | linkedmap.go:102-120 | Remove keeps keys distinct and matched with values |
| OrderedMap.ReplaceWellFormed | linkedmap.go:180-210 | Replace keeps keys distinct and matched with values |
| SortedMap.SortedMap.constructor | sortedmap.go:33-48 | a new map is empty |
| SortedMap.SortedMap.Put | sortedmap.go:72-127 | the map gains or updates the entry; every level, the double list, the index and the level count stay right |
| SortedMap.SortedMap.Get | sortedmap.go:131-141 | the value under the key |
| SortedMap.SortedMap.Next | sortedmap.go:154-183 | the least larger key, by the fast path and by search |
| SortedMap.SortedMap.Prev | sortedmap.go:188-218 | the greatest smaller key, by the fast path and by search |
| SortedMap.SortedMap.Min | sortedmap.go:222-234 | the least key |
| SortedMap.SortedMap.Remove | sortedmap.go:238-282 | exactly the entry is gone; unlinked on all its levels, empty levels given up |
| SortedMap.SortedMap.Search | sortedmap.go:84-92 | the descent finds on each level the last node before the key, and at the bottom the predecessor |
| SortedMap.SortedMap.NodeLevel | sortedmap.go:51-62 | the height of the next node, at most 32 |
| SortedMap.SortedMap.LevelIsSublist | sortedmap.go:14-30 | each level runs through exactly the nodes tall enough for it, with increasing keys |
| SortedMap.SortedMap.UnusedLevelIsEmpty | sortedmap.go:269-272 | head pointers at or above the level count are nil |
| SkipNodes.HeightIsPower | sortedmap.go:51-62 | insertion n reaches level h exactly by the power of four that divides n |
| SkipNodes.LinkLevels | sortedmap.go:110-114 | linking bottom-up puts a node into every level below its height and changes no other level |
| SkipNodes.UnlinkLevels | sortedmap.go:257-264 | unlinking takes a node out of every level it is on and changes no other |
| SkipLevels.AddedLevel | sortedmap.go:110-114 | adding a level at one place redirects exactly the last place before it |
| RcvWindow.EncodeDecode | proto.go:50-84 | encoding a decoded code gives the code back |
| RcvWindow.EncodeMonotone | proto.go:50-66 | a larger window never has a smaller code |
| RcvWindow.NeverOverstatedIff | proto.go:50-84 | decoding never exceeds the window, except for windows of 1 to 127 bytes, where it always does |
| RcvWindow.LossBoundIff | proto.go:50-84 | from 256 bytes on the window is below 9/8 of the decoded value exactly until 117/8 of 2^36 bytes |
| RcvWindow.SaturatesIff | proto.go:61-65 | the largest code stands for exactly the windows from 13 times 2^36 bytes on |
| Wire.RoundTrip | proto.go:86-205 | decoding an encoded payload gives header, acknowledgement and data back, window rounded, nil kept exactly for a non-closing acknowledgement |
| Wire.Stable | proto.go:142-205 | whatever decodes encodes to a frame that decodes to the same, up to nil against empty on short closing acknowledgements |
| Wire.EncodedLength | proto.go:207-224 | the length is overhead plus data, at least 8, and below 18 exactly for an acknowledgement alone |
| Wire.MissingDataIff | proto.go:162-202 | data is nil exactly in a short frame with an acknowledgement |
| Wire.DecodesIff | proto.go:142-173 | a byte string decodes exactly when it has eight bytes, version 0 and the length its first byte announces |
| Wire.Layout | proto.go:86-140 | where every field is in a frame, and the type and width bits of its first byte |
| Wire.LittleEndian | codec.go:274-315 | byte i is the i-th digit to the base 256 |
| Wire.UnLEOfLE | codec.go:274-337 | reading a little-endian integer undoes writing it |
| Wire.LEOfUnLE | codec.go:274-337 | writing undoes reading |
| Wire.PutLE | codec.go:274-315 | the loop writes exactly those bytes at their place and leaves what is before and behind |
| Wire.EncodePayload | proto.go:86-140 | the moving offset fills the computed buffer completely with the encoding |
| Wire.DecodePayload | proto.go:142-205 | the walk reads only in bounds and gives the decoding of every byte string |
| Nonce.NonceInjectiveIff | crypto.go:213-224 | two nonces are equal exactly when direction, sequence number and epoch without bit 7 are |
| Nonce.NonceLayout | crypto.go:213-224 | direction in bit 7 of the first byte, the epoch around it, then the sequence number, lowest byte first |
| Nonce.SharedNonce | crypto.go:213-224 | epochs 128 apart in a block share their nonces |
| Nonce.NearEpochsDiffer | crypto.go:453-483 | epochs closer than 128, so the three tried on decryption, never share a nonce |
| Nonce.DataNoncesDiffer | crypto.go:213-224 | all nonces of the first 128 epochs differ, both directions together |
| Nonce.BuildNonce | crypto.go:213-224 | the buffer filled step by step is that nonce |
| Nonce.Numbering.Advance | codec.go:103-115 | the counters move as the numbering function says, packet returned or not |
| Nonce.NumbersInOrder | codec.go:103-115 | for every n, the state after n calls: number n in (epoch, sn), and after exhaustion the counter modulo 2^64 |
| Nonce.ReturnedIff | codec.go:103-115 | call n returns a packet exactly before the last number, or when the counter has gone round to 48 bits |
| Nonce.StrictlyIncreasing | codec.go:103-115 | later packets have larger (epoch, sn), with sn below 2^48 and epoch below 2^47 |
| Nonce.RunsOverIn | codec.go:103-115 | the exact call at which the 64-bit counter runs over and a packet is returned again |
| Sealing.OpensIff | crypto.go:440-486 | a packet opens exactly with its key, at the other end, when a tried epoch equals its own up to bit 7; and yields what was sealed |
| Sealing.OpensExactly | crypto.go:440-486 | at most one epoch away the true epoch, number and payload come out |
| Sealing.OpensNearIff | crypto.go:440-486 | in the first epochs a packet opens exactly when it is at most one epoch away |
| Sealing.ChangedHeader | crypto.go:440-486 | a packet whose header was changed does not open under any key and epoch |
| Sealing.ChainedDecrypt | crypto.go:440-486 | the loop over the tried epochs finds the first that opens |
| Sealing.UnpadPad | crypto.go:131-154 | stripping the filler restores the payload, and the padded packet fills the MTU |
| Sealing.BuildPadded | crypto.go:131-146 | the buffer holds filler length, filler and payload, or the payload is too long |
| Datagrams.BuildFits | crypto.go:522-542 | data within the room reckoned gives a datagram within the MTU, exactly the MTU for InitCryptoSnd |
| Datagrams.SendFits | snd.go:162-172 | every packet ReadyToSend hands out, encoded and sealed, fits the MTU |
| Datagrams.RetransmitFitsIff | snd.go:233-256 | a packet ReadyToRetransmit hands out, whole or split, fits exactly when the oldest packet in flight is not one of 2^16 bytes or more whose length modulo 2^16 is within the room |
| Datagrams.FlushFitsIff | conn.go:165-229 | whatever a flush sends fits, exactly unless such a packet is due |
| Datagrams.AckFitsMtu | conn.go:261-273 | an acknowledgement without data always fits |
| Datagrams.BuiltArrives | conn.go:231-242 | what one end encodes, pads and seals, the other opens, strips and decodes to the same header and data |
| Datagrams.OverrunIff | crypto.go:360-362 | whatever was sealed, reading it slices out of range exactly for an InitCryptoSnd packet shorter than the filling it announces |
| Datagrams.HeaderReadsBack | crypto.go:53-208 | type and keys are read back from every header, and all packets of a connection, from either end, name it by the initiator's ephemeral key |
| Datagrams.InitialPacket | crypto.go:53-72 | InitSnd is exactly as long as the MTU |
| Handshake.Agreement | listener.go:275-285 | in every run, plain or with crypto: receiver done implies sender done, sender done implies the same secret at both ends, and no needed key is ever missing |
| Handshake.NothingReverts | codec.go:137-259 | whatever follows any run, replayed initial packets included, neither done flag, Data message type, connection nor secret is taken back |
| Handshake.Completes | conn.go:50-65 | in either flow three delivered packets complete the handshake on both sides |
| Handshake.Identities | codec.go:137-259 | in every run A, once done, knows B's identity, and B, once it has the connection, A's |
| Handshake.WrongIdentityFails | codec.go:190-225 | started with crypto for another identity, no run makes B answer or A done |
| Handshake.TamperedIgnored | crypto.go:440-486 | in every run a packet with an exchanged header or without its box changes nothing at either end, initial packets without crypto aside |
| Handshake.OwnDataIgnored | crypto.go:468-474 | in every run an end ignores its own data packets |
| Handshake.RunInv | codec.go:119-263 | the invariant behind these, for every run |
| Controller.Measurements.UpdateMeasurements | measurement.go:73-157 | the fields change as `Controller.Update` says |
| Controller.Measurements.OnDuplicateAck | measurement.go:174-181 | the fields change as `Controller.DuplicateAck` says |
| Controller.Measurements.OnPacketLoss | measurement.go:183-194 | the fields change as `Controller.PacketLoss` says |
| ControllerRuns.UpdateIsExact | measurement.go:93-156 | in every reachable state the next update neither wraps 64 bits nor divides by zero: it is the update over unbounded integers |
| ControllerRuns.SampledExactly | measurement.go:73-157 | in every run a sample of up to 30 s changes every estimate as stated in numbers (weights, 10 s expiry, gains 277, 75, 90, 125 and 100 with their thresholds), and any other changes nothing |
| ControllerRuns.RunInv | measurement.go:64-157 | the bounds on every field hold after every run |
| ControllerRuns.StartupEndsOnce | measurement.go:135-141 | startup holds exactly while the gain is 277, with fewer than three misses, and never returns |
| ControllerRuns.MinIsRecent | measurement.go:111-116 | after every sample the smallest round trip is at most every sample since it was set and less than 10 s old |
| ControllerRuns.SmoothedWithin | measurement.go:93-109 | the smoothed round trip stays within the smallest sample less 14 and the largest, despite double truncation |
| ControllerRuns.SmoothedTracksAverage | measurement.go:93-109 | and tracks the exact exponential average over the reals, at most 14 below it, when no sample is below 8 |
| ControllerRuns.TracksIffNoOvershoot | measurement.go:93-109 | in every run it tracks that average throughout exactly when no sample above the average finds it at zero |
| ControllerRuns.SevensRestart | measurement.go:93-109 | samples of 7 do not suffice: the estimate falls to 0, restarts, and is above the average |
| ControllerRuns.RtoBounds | measurement.go:159-172 | the timeout is the sum of section 2.3 of RFC 6298 clamped to 100 ms to 2 s, 200 ms before any measurement, and its back-off doubles for every retry allowed |
| ControllerRuns.ReductionsExact | measurement.go:174-194 | in every run a duplicate acknowledgement leaves exactly 98 and a loss 95 parts in a hundred of the bandwidth, rounded down and without wrapping, and ends startup |
| ControllerRuns.PacingExact | measurement.go:196-210 | pacing neither wraps nor divides by zero: the time at the adjusted bandwidth, a tenth of the round trip without a bandwidth, 10 ms without either |

## Left out

- UDP sockets, options, logging, key log, packet capture, examples: input, output and configuration.
- The mathematics of X25519, ChaCha20-Poly1305 and XChaCha20: replaced by ideal functions; a nonce that repeats has no consequence in the model.
- Goroutines and mutexes: each locked method is one step.
- `SendInfo` is a value stored in the linked map, where the source stores a pointer it updates; nothing else holds that pointer.
- `next` of a skip-list node is a sequence field that is reassigned, where the source writes into a slice.
- `SortedMap` has integer keys, the only ones the transport uses; `Contains` and `Size` are not modelled.
- `Conn.dataInFlight`: it grows by payload length and shrinks by datagram length, so no equation holds.
- `Connection.MtuHolds`: the runs of two connections use an MTU that holds the largest headers, as the default of 1400 does.
- `Conn.Flush`'s tests for pacing, peer window and handshake, and `nextWriteTime`: their outcomes are parameters of the flush, so every outcome is covered.
- `Listener.Flush`: round-robin over connections and clean-up; the model allows every order of flushes.
- `Stream.Read`'s end-of-file, which compares segment starts with close offsets; acknowledgement-only closes carry offset 0.
- Guarantees.CloseMarksEnd: says nothing of the closing marks that `writeAck` sends, because those carry offset 0.
- Matching of ping acknowledgements: a ping is tracked at the sent offset and sent with offset 0.
- Connection removal and reuse of connection ids in the handshake, and packets forged by a third party.
- Length and version checks of `Listener.decode` before the message type is known: they only reject, and a rejected datagram is one the network dropped.
- `NestedIterator`: it only picks the next pair for `Listener.Flush`, of which the model allows every order.
