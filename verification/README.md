# pcap2socks in Dafny

pcap2socks contains a small user-space TCP endpoint and the IPv4/UDP fragmentation it needs to
stand between a packet capture device and a SOCKS proxy. This project models that core and proves
what it does over whole runs: the send and receive windows, the transmit and receive state
machines and every interleaving of them, selective retransmission, UDP fragmentation in both
directions, and the UDP port table.

`dafny verify dfyconfig.toml` checks the whole project.

## How it is organised

Each part comes twice. A *value specification* says on plain values what an operation does; the
properties of whole runs are proved about it. A *class* has the fields, buffers and loops of the
program, and each method is proved to take the object from the view of its old state to what the
specification says.

| module | what it holds |
|---|---|
| `SequenceNumbers` | the program's 32-bit sequence arithmetic, and stream positions (`SeqAt`) |
| `Ring` | the growable ring buffer of both windows |
| `SendQueue` | the send window: value, clocks, class `Queue` |
| `WindowSpec`, `Reassembly`, `ReceiveWindow` | the receive window: a partial map of bytes; runs of it; class `Window` with ring and range map |
| `SequenceRanges`, `SelectiveRetransmission` | set difference of ranges; what selective retransmission sends |
| `Transmit`, `SenderSteps`, `FinNumbers`, `SenderRun` | the sending side: operations; the state machine and its conservation; what the FIN does to the numbers; whole runs |
| `SenderFacts`, `Forwarding` | exact facts about flow control, round-trip estimation and FIN; classes `TcpTxState` and `Forwarder` |
| `Connection`, `Handling` | one connection, sending and receiving, at every point where the mutex is free; class `Endpoint` that drives the real `Forwarder` and `Window` through whole runs |
| `FastRetransmission` | when duplicate acknowledgements lead to a fast retransmission |
| `OnTheWire`, `Progress` | what the operations must put on the wire; what a connection does for its peer and its stream, step by step |
| `EndToEnd` | a sender of this program against a receive window of this program |
| `Fragments`, `Defragmentation` | `send_udp`; `Fragmentation` and `Defraggler`; the round trip |
| `UdpPorts` | the UDP port table |

Conventions. Time (`now`), the segment size, expiry of a fragment group and the outcome of every
call into SOCKS are inputs of the step. Each region that runs under the `Forwarder` mutex is one
step; the handlers' position between two regions is a phase. Frames are appended to a log and
sending them succeeds. A Rust panic (overflow checks on) is an explicit outcome: `Fault`,
`Crashed`, `Broken`, or `ok == false`. A growable `Vec` is a `seq` field.

## Where the code departs from what one would expect

The model follows the code; each point is a lemma with the exact condition.

- Sequence arithmetic wraps modulo 2^32-1, not 2^32 as in section 3.3 of RFC 793
  (`AddAgainstRfc`, `SubAgainstRfc`). All results are in the program's own arithmetic.
- A segment that ends before the receive window, or spans its base while its numbers wrap, makes
  the program panic (`LocateByPosition`).
- A segment that ends inside an earlier filled range shortens that range (`StepCompleteIff`,
  `CutRunForgets`).
- The scale of the peer is not capped where the windows are made: beyond 8 the distance tests no
  longer cover the window (`WindowFitsCache`, `SizeCoversIffOneWindow`,
  `HonoursEveryAckIffOneWindow`).
- `filled()` reports a range whose key is exactly 2^32-1 as beginning at 0 (`FilledMeans`).
- The refresh of timed-out clocks pops the first live clock as well and can leave none
  (`TimedOutLosesClocksIff`); a tick before the first timeout does so, and the next one resends
  everything (`EarlyCallForgets`). Its timeout argument is always `MAX_RTO`, the RTO computed for it
  notwithstanding (`TickRestartsAtMax`).
- The SYN counts as acknowledged by its own number; the cache then starts one number too early
  (`SynDroppedIff`).
- With a FIN every segment carries it (`FinOnLastOnlyIff`). A FIN sent with data is counted when
  sent and again when acknowledged, unless the data end at number 2^32-1 (`FinCountedOnceIff`, over
  runs `RunCountsFin`); a FIN counts as acknowledged by the number before its own
  (`FinDroppedIff`); with a send window of 0 it can overtake queued bytes (`FinOvertakesIff`,
  `FinOvertakesReached`); once
  it is dropped, payload is accepted again (`ForwardRefusedIff`).
- A FIN counts as retransmitted from the start, so it never gives a round-trip sample (`RunTimes`).
- SRTT is computed from the previous RTTVAR, unlike section 2 of RFC 6298 (`SmoothedIff`), and
  RTTVAR keeps seven eighths of its previous value, not three quarters (`VariationIff`).
- The UDP fragment loop does not move on for some small MTUs (`TerminatesIff`).
- The defragmenter counts repeated fragments again: a repeat completes a group too early or keeps
  it from completing (`CompleteMeansWholeIff`, `AllArrivedCompletesIff`, `RepeatCompletes`). Its
  key holds the layer kind, which is always IPv4, instead of the protocol of the datagram
  (`SharesGroupIff`, `ProtocolsMix`).
- Reusing a UDP port does not tell its worker the new source (`ReuseMisdirectsIff`,
  `RunAlignedIff`).

## Model

| member | source | states |
|---|---|---|
| `SequenceNumbers.SubUndoesAdd` | src/cache/mod.rs:77-80 | the subtraction undoes the addition for every start exactly for distances below 2^32-1 (or from start 0) |
| `SequenceNumbers.AddUndoesSub` | src/cache/mod.rs:187-190 | the addition undoes the subtraction except for the number 0 reached from a start above 0 |
| `SequenceNumbers.AddAgainstRfc` | src/lib.rs:176-180 | the addition equals arithmetic modulo 2^32 (section 3.3 of RFC 793) if and only if nothing wraps, and is one more on a wrap |
| `SequenceNumbers.SubAgainstRfc` | src/cache/mod.rs:101-103 | the subtraction equals arithmetic modulo 2^32 if and only if nothing wraps, and is one less on a wrap |
| `SequenceNumbers.AheadByPosition` | src/cache/mod.rs:118-132 | the distance test `<= MAX_U32_WINDOW_SIZE` decides the order of true stream positions, wrap or no wrap, within one window ahead and the rest of a turn behind |
| `Ring.GrowKeepsContents` | src/cache/mod.rs:52-74 | growing keeps the byte at every logical offset: contiguous, touching the end, wrapped or full, and through the two-part overlapping move |
| `Ring.StoreByte` | src/cache/mod.rs:83-93 | a wrapped two-part copy writes the payload at its logical offsets and touches no other logical offset |
| `Ring.LoadIsSlice` | src/cache/mod.rs:200-213 | a wrapped two-part read returns exactly the requested slice of the contents |
| `SendQueue.AppendKeepsOk` | src/cache/mod.rs:76-96 | appending keeps the clocks in order and in range, leaves every earlier byte under its timer and times the new ones from now on |
| `SendQueue.InvalidateDropsPrefix` | src/cache/mod.rs:100-180 | an acknowledgement that is not stale drops exactly the prefix, keeps the clocks in order and in [sequence, recv_next], and leaves every remaining byte under the timer it had |
| `SendQueue.HonoursEveryAckIffOneWindow` | src/cache/mod.rs:101-106 | every acknowledgement of bytes in the queue is honoured if and only if the queue holds at most one window (window scales up to 8) |
| `SendQueue.TimedOutKeepsOk` | src/cache/mod.rs:250-296 | the timed-out bytes are the prefix up to the first live clock, always in range, and the refreshed clocks are in order and in range |
| `SendQueue.TimedOutKeepsTimers` | src/cache/mod.rs:267-282 | after the refresh every byte is timed again exactly if the list is not empty, and a byte under a clock that starts after the first live one keeps its timer |
| `SendQueue.TimedOutLosesClocksIff` | src/cache/mod.rs:268-282 | the refresh leaves no clock at all if and only if some clock is live, none starts after it and none more than a window before it: the loop pops the first live clock too |
| `SendQueue.Queue.WithCapacity` | src/cache/mod.rs:35-45 | an empty queue at the given sequence number |
| `SendQueue.Queue.Append` | src/cache/mod.rs:48-97 | concatenates the payload and adds one clock, or fails exactly when over capacity and then changes nothing |
| `SendQueue.Queue.InvalidateTo` | src/cache/mod.rs:100-180 | the ring, the clocks, the mark and the RTT sample become what the value specification says; a stale number is ignored |
| `SendQueue.Queue.PopAcknowledged` | src/cache/mod.rs:114-161 | the clock loop computes the recursive specification of popping, moving up and sampling |
| `SendQueue.Queue.Get` | src/cache/mod.rs:183-216 | returns exactly the slice of the contents, across the ring wrap, or the source's two errors exactly when it does |
| `SendQueue.Queue.GetAll` | src/cache/mod.rs:219-221 | returns all bytes; the inner `unwrap` never fails |
| `SendQueue.Queue.GetTimedOutAndUpdate` | src/cache/mod.rs:250-296 | returns the timed-out prefix and leaves the restarted clocks and the mark; neither `unwrap` fails |
| `WindowSpec.LocateByPosition` | src/cache/mod.rs:458-478 | where a segment goes by true stream position: placed, trimmed, ignored, or a panic (ends before the base, more than a window ahead, or spans the base while its own numbers wrap) |
| `WindowSpec.FilledMeans` | src/cache/mod.rs:662-673 | `filled()` names exactly the held bytes, strictly above the base, in order with a gap between blocks; ends are right, a beginning is right if and only if its key is not exactly 2^32-1 |
| `ReceiveWindow.Merge` | src/cache/mod.rs:539-588 | the merge loop keeps the ranges sorted and separated, and says exactly which positions the new map covers, including those a contained segment cuts off |
| `ReceiveWindow.Rebase` | src/cache/mod.rs:595-602 | shrinking the keys after a wrap moves every range down by 2^32-1 and loses none; no key underflows |
| `ReceiveWindow.SizeAfterIsMax` | src/cache/mod.rs:524-537 | the size update by wrapped distances is the maximum of the old size and the end of the segment |
| `ReceiveWindow.SizeCoversIffOneWindow` | src/cache/mod.rs:524-537 | the size covers every accepted segment if and only if the capacity is at most MAX_U32_WINDOW_SIZE |
| `ReceiveWindow.Window.WithCapacity` | src/cache/mod.rs:445-454 | an empty window at the given sequence number |
| `ReceiveWindow.Window.Append` | src/cache/mod.rs:457-629 | ring, ranges, size and base refine a partial map from distance to byte; ranges stay sorted, separated by a gap, strictly above the base and within `size`; result and panics as specified |
| `ReceiveWindow.Window.Insert` | src/cache/mod.rs:506-588 | storing and merging together refine storing into the partial map |
| `ReceiveWindow.Window.Pop` | src/cache/mod.rs:590-628 | hands out exactly the run of held bytes at the base, and moves the base past it, if there is one |
| `ReceiveWindow.Window.Filled` | src/cache/mod.rs:662-673 | the loop over the ranges lists the runs of held bytes in order |
| `Reassembly.AppendKeepsOk` | src/cache/mod.rs:457-629 | every append keeps the held bytes strictly above the base and within `size` |
| `Reassembly.RejectedByPosition` | src/cache/mod.rs:458-483 | which segments are refused, panic or are old, by their position in the stream: refused exactly if they reach past the capacity, a panic exactly if they end before the base, start more than a window ahead or span the base while their numbers wrap; the receiver is then as it was |
| `Reassembly.StoreEffect` | src/cache/mod.rs:506-626 | what one accepted segment changes, for every stream position: written, kept or forgotten, and the byte there |
| `Reassembly.RunFaithful` | src/cache/mod.rs:457-629 | over any run of any segments, every byte handed out or held is the last one accepted for its position |
| `Reassembly.StepCompleteIff` | src/cache/mod.rs:577-587 | one append forgets accepted bytes if and only if its segment ends inside an earlier filled range |
| `Reassembly.RunComplete` | src/cache/mod.rs:524-628 | over any run without such a segment, the held ranges are exactly the bytes accepted and not yet handed out |
| `Reassembly.CutRunForgets` | src/cache/mod.rs:577-587 | a run of two segments from a fresh window after which an accepted byte is neither handed out nor held |
| `Reassembly.Reassembles` | src/cache/mod.rs:457-629 | over any run of slices of one stream, in any order, overlap and repetition, the concatenated results are exactly the stream prefix up to the window's sequence number |
| `Reassembly.DeliversEverything` | src/cache/mod.rs:457-629 | if moreover no segment cuts a range, the whole stream has come out once every position was accepted |
| `SequenceRanges.DisjointIsMinus` | src/lib.rs:1398-1447 | the branches on wrapped distances compute the set difference of the true positions |
| `SequenceRanges.SubtractAllExact` | src/lib.rs:728-746 | against any list of blocks, in any order and overlapping, what is left is in order, never overlaps, and is exactly the positions outside every block |
| `SequenceRanges.Unacknowledged` | src/lib.rs:732-746 | the nested loops compute the repeated set difference |
| `SenderSteps.SegmentsRejoin` | src/lib.rs:936-997 | segments have at most MSS bytes, all but the last exactly MSS, consecutive sequence numbers, and concatenate to the payload |
| `SenderSteps.AdvanceAllByPosition` | src/lib.rs:986-994 | without FIN the segmentation leaves `sequence` at the later of its old value and the end of the payload |
| `SenderRun.StepKeeps` | src/lib.rs:232-1000 | every region under the mutex keeps: forwarded = acknowledged ++ cache ++ queue, numbers agree with positions before and after a FIN, the cache fits, every data frame is a slice and every lone FIN is where the invariant says, and the timers are in range |
| `SenderRun.RunConserves` | src/lib.rs:678-1000 | over every interleaving from `open` on: conservation, `sequence == cache.recv_next()` until a FIN leaves, a closed stream's FIN queued until it leaves, nothing queued behind it, send window at most the cache, all frames slices of the forwarded stream |
| `SenderFacts.SendRespectsWindow` | src/lib.rs:863-891 | a send never takes unacknowledged bytes past the send window; it loses no byte exactly when it succeeds, and always succeeds while the send window fits the cache |
| `SenderFacts.WindowFitsCache` | src/lib.rs:142-152 | every window the peer can report fits the cache made for its scale; the cache stays below one window if and only if the scale is at most 8 |
| `SenderFacts.FinOvertakesIff` | src/lib.rs:872-922 | a FIN leaves ahead of queued bytes if and only if the send window is 0 and the cache empty |
| `SenderFacts.FinOnLastOnlyIff` | src/lib.rs:944-964 | only the last segment carries the FIN if and only if there is one segment: the shadowed payload puts it on every segment |
| `SenderFacts.ForwardRefusedIff` | src/lib.rs:1369-1378 | payload is refused exactly while a FIN is queued or unacknowledged, and then nothing changes |
| `SenderFacts.FinDroppedIff` | src/lib.rs:265-281 | a FIN is taken as acknowledged by every number from the end of the data on, also by the one before its own |
| `SelectiveRetransmission.SelectiveExact` | src/lib.rs:720-796 | selective retransmission: no cache read fails, every frame carries a slice of the cache under its own number, no byte is sent twice, the bytes sent are exactly the cached ones outside the union of the blocks, and exactly the frames of the range that ends the cache carry the FIN |
| `Forwarding.TcpTxState.constructor` | src/lib.rs:129-162 | the initial transmit state |
| `Forwarding.TcpTxState.Acknowledge` | src/lib.rs:232-288 | SYN, cache and FIN are acknowledged and the RTO updated as the value specification says, and nothing else |
| `Forwarding.TcpTxState.AppendCache` | src/lib.rs:306-319 | drains exactly `size` bytes and caches them; over capacity they are drained and lost |
| `Forwarding.TcpTxState.AppendCacheFin` | src/lib.rs:322-330 | the queued FIN becomes the timed one |
| `Forwarding.TcpTxState.SetSacks` | src/lib.rs:215-229 | keeps at most the first four ranges |
| `Forwarding.Forwarder.Open` | src/lib.rs:1360-1367 | sends the SYN and starts its timer |
| `Forwarding.Forwarder.Forward` | src/lib.rs:1369-1378 | is the forward step: state and frames |
| `Forwarding.Forwarder.Close` | src/lib.rs:1384-1389 | is the close step: state and frames |
| `Forwarding.Forwarder.Tick` | src/lib.rs:800-860 | is the timeout step: the timed-out prefix or a timed-out FIN, with RTO and timers |
| `Forwarding.Forwarder.SendTcpAck` | src/lib.rs:863-925 | is the send step: a pending SYN, queued bytes within the window, the FIN |
| `Forwarding.Forwarder.RetransmitTcpAck` | src/lib.rs:678-716 | is the fast retransmission of the whole cache |
| `Forwarding.Forwarder.RetransmitTcpAckWithout` | src/lib.rs:720-796 | is the selective retransmission; the error of a failed read is reported |
| `Forwarding.Forwarder.SendTcpAckRaw` | src/lib.rs:927-1000 | the segmentation loop terminates and sends the specified segments, moving `sequence` as specified |
| `Forwarding.Forwarder.SendTcpAck0` | src/lib.rs:1003-1019 | an acknowledgement with the SACK blocks kept for sending |
| `Forwarding.Forwarder.SendTcpFin` | src/lib.rs:1087-1103 | a FIN without payload |
| `Connection.HandleFinKeeps` | src/lib.rs:2091-2135 | a known FIN is admitted exactly when every byte before it was delivered and none was admitted yet; the invariant is kept |
| `Connection.StepKeeps` | src/lib.rs:1837-2145 | every region of the handlers and of the stream worker, at every interleaving point, keeps the connection invariant |
| `Connection.OpenedInvIff` | src/lib.rs:1991-2066 | a new connection satisfies the invariant if and only if the peer's scale is at most 8 |
| `Connection.RunReceives` | src/lib.rs:1837-2145 | in every reachable state: delivered bytes are a prefix of the peer's stream, TX `acknowledgement` = RX `recv_next` = window sequence (less what is being written, plus one after FIN), at most one FIN and only after every byte, and the SACK blocks are the first at most four filled ranges |
| `Handling.Endpoint.constructor` | src/lib.rs:1470-1493 | the receiving state of a new connection |
| `Handling.Endpoint.Arrive` | src/lib.rs:1848-1864 | the acknowledging region is the connection step |
| `Handling.Endpoint.Proceed` | src/lib.rs:1866-1982 | the next region of a segment is the connection step |
| `Handling.Endpoint.AppendPayload` | src/lib.rs:1866-1880 | appending to the window and handing over the filled ranges, also when the append fails or panics |
| `Handling.Endpoint.ReplyAppended` | src/lib.rs:1882-1935 | counting, reporting the window and acknowledging what the stream took |
| `Handling.Endpoint.HandleAckOnly` | src/lib.rs:1936-1974 | last acknowledgement, duplicate counting, fast and selective retransmission |
| `Handling.Endpoint.SendRemaining` | src/lib.rs:1976-1982 | sends remaining data and goes on to a FIN |
| `Handling.Endpoint.HandleTcpFin` | src/lib.rs:2079-2145 | records a FIN and admits it once it is next |
| `EndToEnd.DeliversForwardedPrefix` | src/lib.rs:927-1000 | any frames a reachable sender sent, with any loss, reordering and repetition, come out of a receive window as a prefix of the forwarded stream |
| `EndToEnd.WireToStream` | src/cache/mod.rs:457-629 | the same from the start of a run to a fresh window |
| `Fragments.TerminatesIff` | src/lib.rs:1131-1167 | the fragment loop of a datagram that needs fragmenting never gets stuck if and only if mss >= 8 + size % 8; MTU 36 always suffices and one below 28 never does |
| `Fragments.PiecesTile` | src/lib.rs:1131-1167 | pieces follow each other to the end, fit the MTU, have offsets and non-last lengths that are multiples of 8, only the last clears more-fragments and has at least 8 bytes |
| `Fragments.UdpSender.SendUdp` | src/lib.rs:1106-1170 | whole, fragmented, refused for its length, or a panic below the header; all pieces share one identification, which is used up once and only if every piece was sent |
| `Fragments.UdpSender.SendParts` | src/lib.rs:1131-1167 | the loop sends exactly the specified pieces |
| `Fragments.UdpSender.SendPart` | src/lib.rs:1132-1166 | one iteration sends the piece at its offset |
| `Defragmentation.RoundTrip` | src/packet/mod.rs:477-507 | pieces that make up a datagram, in any order, none twice, none expired, between arbitrary fragments of other keys: it comes out whole at the last of them and nothing before |
| `Defragmentation.SentArrives` | src/packet/mod.rs:408-507 | the same for the pieces the sender makes: fragmentation and defragmentation are inverse (section 3.2 of RFC 791) |
| `Defragmentation.CompleteMeansWholeIff` | src/packet/mod.rs:408-454 | when a group completes, all pieces have arrived if and only if none was counted twice |
| `Defragmentation.Fragmentation.Add` | src/packet/mod.rs:408-421 | copies the fragment into place and counts it, or panics exactly when it does not fit |
| `Defragmentation.CopyInto` | src/packet/mod.rs:419-419 | the copy changes exactly the target slice |
| `Defragmentation.Defraggler.Add` | src/packet/mod.rs:477-507 | new, existing or expired group, and the completed group handed out and forgotten; other groups and their buffers are untouched |
| `UdpPorts.StepKeeps` | src/lib.rs:2172-2240 | bind, reuse and unbind keep the map and the LRU inverse, the workers in step, the bound, and the LRU in order of last use |
| `UdpPorts.TableStaysInverse` | src/lib.rs:2172-2240 | over any run: source->port and port->source are mutually inverse, no two sources share a port, the workers serve exactly the bound ports, all three have the same size, at most 256 |
| `UdpPorts.ReuseTakesOldest` | src/lib.rs:2208-2220 | over any run: a reuse hands out the port whose last use is the oldest, takes it from its source and moves no other |
| `UdpPorts.BoundPortIsServed` | src/lib.rs:2159-2167 | a bind fails exactly when nothing is bound and nothing can be opened; otherwise the source is bound to the result and a worker serves it, so the lookup after it never fails |
| `UdpPorts.ReuseMisdirectsIff` | src/lib.rs:2208-2218 | replies go astray after a step if and only if it reuses a port: the worker keeps the previous source |
| `UdpPorts.RunAlignedIff` | src/lib.rs:2208-2218 | a run sends every reply to the right source throughout if and only if it never reuses a port |
| `UdpPorts.Redirector.BindLocalUdpPort` | src/lib.rs:2172-2226 | is the bind step on the three structures |
| `UdpPorts.Redirector.UnbindLocalUdpPort` | src/lib.rs:2228-2240 | is the unbind step on the three structures |
| `SendQueue.Queue.RecvNext` | src/cache/mod.rs:327-331 | the number after the last byte |
| `WindowSpec.LocateAhead` | src/cache/mod.rs:458-478 | a segment ahead of the base is placed there up to one window ahead, and beyond makes the program panic |
| `WindowSpec.LocateBehind` | src/cache/mod.rs:463-474 | a segment that starts behind the base is trimmed to the part from the base on, ignored if it ends at the base, and otherwise makes the program panic |
| `ReceiveWindow.Absorb` | src/cache/mod.rs:546-566 | the loop pops exactly the ranges that begin in the segment or at its end, and its end is the furthest of theirs and its own |
| `ReceiveWindow.LastBelow` | src/cache/mod.rs:568-574 | the scan finds the greatest key below the segment |
| `ReceiveWindow.Window.EnsureRoom` | src/cache/mod.rs:484-504 | extending the buffer changes no held byte |
| `ReceiveWindow.Window.PopRun` | src/cache/mod.rs:592-625 | reads the run at the base across the ring wrap, rebases the other ranges and moves head, size and base |
| `ReceiveWindow.Window.Remaining` | src/cache/mod.rs:649-651 | capacity less size |
| `SenderSteps.SegmentsAreSlices` | src/lib.rs:941-984 | every segment of a slice of the stream is a slice under its own number |
| `FinNumbers.AdvanceAllWithFin` | src/lib.rs:948-994 | with FIN on the segments `sequence` ends at the later of its old value and the end of the payload, plus one unless that end has number 2^32-1 |
| `SelectiveRetransmission.SegmentsCarry` | src/lib.rs:941-984 | the segments of a range carry exactly its bytes, each at its own position |
| `Forwarding.TcpTxState.AcknowledgeSyn` | src/lib.rs:235-251 | an acknowledged SYN leaves and counts one |
| `Forwarding.TcpTxState.AcknowledgeFin` | src/lib.rs:265-282 | an acknowledged FIN leaves and counts one; the sample it may give |
| `Forwarding.Forwarder.AllowedSize` | src/lib.rs:873-888 | flow control and silly-window avoidance decide how many queued bytes may go |
| `Forwarding.Forwarder.SendQueued` | src/lib.rs:889-908 | moves bytes from the queue to the cache and sends them, with the FIN if they are the last |
| `Forwarding.Forwarder.SendQueuedFin` | src/lib.rs:911-922 | a queued FIN leaves alone once the cache is empty |
| `Forwarding.Forwarder.SendRanges` | src/lib.rs:748-783 | the loop over the ranges sends each and stops at a failed read |
| `Forwarding.Forwarder.SendRange` | src/lib.rs:750-782 | one range: read, and sent with the FIN if it is the last of the cache |
| `Forwarding.Forwarder.SendSegment` | src/lib.rs:942-994 | one segment, and `sequence` moved to its end if that is ahead |
| `Handling.Endpoint.Forward` | src/lib.rs:1369-1378 | a forward of the stream worker is the connection step |
| `Handling.Endpoint.Tick` | src/lib.rs:1380-1382 | a tick of the stream worker is the connection step |
| `Handling.Endpoint.Close` | src/lib.rs:1384-1389 | a close by the stream worker is the connection step |
| `Handling.Endpoint.NoteRanges` | src/lib.rs:1871-1880 | the filled ranges of the window become the SACK blocks kept for sending |
| `Handling.Endpoint.FastRetransmit` | src/lib.rs:1949-1968 | selective if the peer sent blocks, the whole cache otherwise |
| `Handling.Endpoint.AdmitFin` | src/lib.rs:2102-2124 | the FIN is counted on both sides and acknowledged |
| `Fragments.UdpSender.IncreaseIdentification` | src/lib.rs:576-588 | the identification counts modulo 2^16 |
| `Defragmentation.AddHolds` | src/packet/mod.rs:408-421 | what a group knows after any pieces in any order: length, total, and the datagram's byte at every covered position |
| `Defragmentation.TilePieces` | src/lib.rs:1131-1167 | the pieces of a datagram cover it, add up to it and are all different |
| `Defragmentation.Defraggler.GroupFor` | src/packet/mod.rs:485-496 | a missing or expired group is replaced by an empty one |
| `Defragmentation.Defraggler.Take` | src/packet/mod.rs:502-506 | a completed group is handed out and forgotten |
| `SenderSteps.CoreKeeps` | src/lib.rs:232-1000 | the part of the invariant without the FIN's number: conservation, numbers, flow control and frames |
| `FinNumbers.FinKeeps` | src/lib.rs:941-994 | every region keeps the number after a FIN: right after the data, plus one if the FIN rode on data that do not end at 2^32-1, plus one once it is dropped; retransmissions do not move it |
| `SenderRun.RunCountsFin` | src/lib.rs:265-282 | over every run: once the FIN is dropped `sequence` is the number after it, and every FIN sent alone carries the number after the data, if and only if the FIN left alone or the data end at number 2^32-1 |
| `SenderRun.RunTimes` | src/lib.rs:297-422 | over every run: the RTO stays between 1 and 60 seconds, and no acknowledgement takes a round-trip sample from the FIN, which counts as retransmitted from the start |
| `SenderFacts.FinCountedOnceIff` | src/lib.rs:863-925 | the FIN a send lets go is counted once, so that its acknowledgement leaves the number the peer expects, if and only if the queue was empty or the data end at number 2^32-1 |
| `SenderFacts.InFlightCountedOnceIff` | src/lib.rs:265-282 | the same for a FIN in flight in any reachable state, whatever happened since it left |
| `SenderFacts.SmoothedIff` | src/lib.rs:380-395 | SRTT is that of section 2 of RFC 6298 if and only if the previous RTTVAR and the previous SRTT agree in all but their last three bits |
| `SenderFacts.TimeoutClamped` | src/lib.rs:353-422 | every new RTO is clamped; doubling raises it strictly below the maximum |
| `SenderFacts.TickRestartsAtMax` | src/lib.rs:805-809 | whatever the RTO, a timeout restarts the clocks with MAX_RTO |
| `Forwarding.Forwarder.SendNextRange` | src/lib.rs:749-783 | one iteration of the loop over the ranges |
| `Handling.Endpoint.Drive` | src/lib.rs:1837-2145 | any run of peer, stream and worker on the real ring, range map and transmit state: the stream was given a prefix of what the peer sent, acknowledgement = expected number = window base (less what is being written, plus one after the FIN), at most one FIN and after every byte, SACK blocks the window's first filled ranges, data frames slices of what was forwarded |
| `Handling.Endpoint.Handle` | src/lib.rs:1819-1835 | one event of any kind is the connection step |
| `Fragments.PacketsAreParts` | src/lib.rs:1190-1259 | within an MTU of 65535 every piece is sent, in order and under one identification |
| `Defragmentation.AllArrivedCompletesIff` | src/packet/mod.rs:408-454 | with all pieces there, the group completes if and only if none was counted twice |
| `Defragmentation.RepeatCompletes` | src/packet/mod.rs:408-454 | the second half of a datagram, received twice, completes a group that is not the datagram unless the first half is zero |
| `Defragmentation.SharesGroupIff` | src/packet/mod.rs:483-483 | two datagrams share a group if and only if addresses and identification agree, whatever their protocols |
| `Defragmentation.ProtocolsMix` | src/packet/mod.rs:477-507 | the beginning of a datagram of one protocol and the end of one of another come out as one |
| `FastRetransmission.FastIff` | src/lib.rs:1510-1555 | over any list of acknowledgements: the last leads to a fast retransmission if and only if its window is not 0, it repeats the number before it, at least for the third time since that number came or last led to one, and the last one is 200 ms ago |
| `FastRetransmission.FastSpacing` | src/lib.rs:1947-1972 | two fast retransmissions are at least three acknowledgements and 200 ms apart |
| `FastRetransmission.AckOnlyTakes` | src/lib.rs:1946-1974 | the handler counts, and on a retransmission clears the counter and notes the time, as the list statements assume |
| `Connection.RunSacks` | src/lib.rs:1871-1880 | in every reachable state the SACK blocks are at most four runs of held bytes, strictly above everything acknowledged, in order with a gap, under the numbers of their positions, and the bytes held are the peer's (sections 3 and 4 of RFC 2018) |
| `SendQueue.WithoutClocksAllTimesOut` | src/cache/mod.rs:284-294 | without a clock the next call takes every byte as timed out, whatever the time |
| `SendQueue.EarlyCallForgets` | src/cache/mod.rs:250-296 | bytes appended to an empty queue and looked at before they time out lose their only clock, and the next call returns all of them, whatever the time |
| `SenderFacts.FinOvertakesReached` | src/lib.rs:863-925 | a run that reaches a FIN ahead of queued bytes: forward, SYN acknowledged with window 0, close |
| `SenderFacts.SynDroppedIff` | src/lib.rs:235-254 | the SYN is taken as acknowledged by every position up to one window ahead, also its own; the cache then agrees with `sequence` if and only if it is the one after the SYN |
| `Handling.Endpoint.HandleAcknowledged` | src/lib.rs:1866-1974 | the region after the acknowledgement, with or without payload |
| `Handling.Serve` | src/lib.rs:1991-2066 | a connection made from new objects as after a SYN, opened and driven, for scales up to 8: what the stream got, what is acknowledged and the FIN |
| `OnTheWire.FramesReport` | src/lib.rs:604-621 | whatever a region sends, every frame carries the acknowledgement of the state and its window, or 0 below the silly-window threshold |
| `OnTheWire.SendTakes` | src/lib.rs:872-908 | flow control from both sides: a send puts the first bytes of the queue on the wire and nothing else, times them with the current RTO, stays inside the window, takes a full segment or nothing while bytes are in flight, and leaves no larger allowed amount behind except less than a full segment |
| `OnTheWire.FinLeavesIff` | src/lib.rs:889-922 | the FIN leaves if and only if it is queued and the send empties the queue, then on every segment, or nothing is in flight and nothing is taken, then alone; it is timed from then on |
| `OnTheWire.SynAgain` | src/lib.rs:866-870 | while the SYN is unacknowledged a send sends it again and nothing else |
| `OnTheWire.FastResends` | src/lib.rs:678-716 | a fast retransmission sends all bytes in flight again, consecutively from their own number, and the FIN with them |
| `OnTheWire.TickResendsFin` | src/lib.rs:844-857 | with nothing in flight a FIN is sent again exactly when its time is over, with the doubled RTO and a new timer; otherwise nothing is sent |
| `OnTheWire.TickResendsData` | src/lib.rs:805-843 | a timeout sends the bytes before the first clock that is not over, from the first number on, the FIN with them exactly if they are all, and doubles the RTO |
| `Progress.ArriveAcknowledges` | src/lib.rs:1858-1864 | an arriving acknowledgement takes exactly the bytes up to its position out of the cache and sets the send window, scaled |
| `Progress.SegmentIsTaken` | src/lib.rs:1866-1880 | a segment the window can take is taken: every byte of it is handed out or held, and all up to its end if it reaches the base |
| `Progress.ReplyOnWire` | src/lib.rs:1882-1935 | exactly one frame answers a segment: an acknowledgement of everything delivered, with what is left of the window and the SACK blocks of the ranges held |
| `Progress.RepliedGoesOn` | src/lib.rs:1976-1982 | after the reply remaining data is sent and a FIN, of the segment or known before, is looked at |
| `Progress.FinOnWire` | src/lib.rs:2091-2138 | an admitted FIN is acknowledged one past the last byte; one without payload that has to wait is answered with what is acknowledged so far; otherwise nothing is sent |
| `Progress.LastSegmentFinishes` | src/lib.rs:1866-1982 | a segment with the missing bytes and the FIN leads to the whole stream delivered and the FIN admitted |
| `Progress.ForwardOnWire` | src/lib.rs:1369-1378 | a forward is refused without effect, kept while the SYN is pending, or queued and sent as far as flow control allows |
| `Progress.CloseOnWire` | src/lib.rs:1384-1389 | a close lets the FIN go with the last bytes, alone, or leaves it queued, with the exact condition |
| `Progress.RemainingOnWire` | src/lib.rs:1976-1977 | after a reply queued bytes leave as far as flow control allows |
| `Progress.TickOnWire` | src/lib.rs:800-843 | a tick with bytes in flight, by the clocks |
| `Progress.TickFinOnWire` | src/lib.rs:844-860 | a tick with nothing in flight but perhaps a FIN |
| `Progress.FastOnWire` | src/lib.rs:1949-1972 | a fast retransmission without blocks puts everything in flight on the wire again |
| `Progress.SelectiveOnWire` | src/lib.rs:1952-1963 | with blocks it is the selective retransmission |
| `SendQueue.TimedOutRestarts` | src/cache/mod.rs:268-295 | the bytes returned as timed out are timed anew, unless no clock is left |
| `SendQueue.SampleIff` | src/cache/mod.rs:112-161 | which acknowledgement gives a round-trip sample, and which: it is not stale, has passed the mark of the last retransmission and covers all bytes of the first clock that is not over |
| `SendQueue.NoSampleFromResent` | src/cache/mod.rs:136-175 | Karn's rule: no acknowledgement of bytes that were sent again gives a sample, and the mark stays until one passes them |
| `SenderFacts.FirstSample` | src/lib.rs:397-403 | the first sample is SRTT, and half of it RTTVAR (section 2.2 of RFC 6298) |
| `SenderFacts.VariationIff` | src/lib.rs:379-388 | RTTVAR is that of section 2.3 of RFC 6298 if and only if the previous one is below 4 or from 28 to 31: seven eighths are kept where the standard keeps three quarters |
| `SenderFacts.TimeoutOfEstimates` | src/lib.rs:353-422 | the RTO is SRTT plus four times RTTVAR of the new estimates, between 1 and 60 seconds |
| `SenderFacts.AcknowledgeEstimates` | src/lib.rs:253-287 | an acknowledgement updates the estimates with its sample and leaves them alone without one |
| `SenderFacts.SynSampled` | src/lib.rs:235-251 | the acknowledged SYN gives the first sample |
| `SenderFacts.TimeoutDoubles` | src/lib.rs:363-365 | a clamped RTO doubles up to 60 seconds |
| `UdpPorts.BindGives` | src/lib.rs:2172-2226 | a bind gives the port the source has, else the port offered while there is room, else the oldest one, and says which worker serves it |
| `UdpPorts.UnbindRemoves` | src/lib.rs:2228-2240 | an unbind takes out exactly the source, the worker of its port and its entry |
| `UdpPorts.RebindOpensAnew` | src/lib.rs:2172-2240 | over any run: a source unbound and bound again gets the new association offered, with a worker of its own |
| `Defragmentation.ExpiredStartsAnew` | src/packet/mod.rs:485-496 | an expired group counts for nothing |
| `Progress.SegmentIsRejected` | src/lib.rs:1869-1869 | a segment past the capacity is dropped and one the placing cannot handle ends in a panic; nothing else changes |
| `Progress.PureFinIsLookedAt` | src/lib.rs:1829-1831 | a segment without ACK is only looked at for its FIN |
| `Progress.LastAcknowledgementEnds` | src/lib.rs:1938-1945 | the last acknowledgement ends the connection |
| `Ring.GrownLengthFits` | src/cache/mod.rs:56-59 | the new length holds what is needed, stays within the capacity and is half as long again where it can be |
| `Reassembly.RunReaches` | src/cache/mod.rs:524-537 | over any run the window reaches exactly to the furthest byte accepted: its size, and so what is left of it, is the span from the base to there |
| `Fragments.PacketsIff` | src/lib.rs:1190-1259 | all pieces are sent if and only if each fits an IPv4 packet of 65535 bytes; what is sent comes before the first that does not |
| `SendQueue.GetByOffset` | src/cache/mod.rs:183-216 | a read by its true offset: the slice, or one of the two errors, exactly when |
| `UdpPorts.PutBounded` | src/lib.rs:2190-2190 | the cache never holds more than its capacity and the entry written is the most recent |

## Left out

- pcap interfaces and channels, the command line, logging and `Display`: operating-system calls and output.
- The SOCKS client and the async bodies of the stream and datagram workers: their effects are inputs of the steps.
- Header parsing, serialization and checksums: a segment, frame or fragment is a datatype of the fields used.
- ARP and ICMP handling, and the MTU updates they cause: the segment size is an input of every step.
- RST frames, SYN handling before `open` and cleaning up: a connection ends in the phase `Gone`; steps after that are not modelled.
- Other connections: the maps from addresses to states hold one connection here, so interference through a shared map is not stated.
- Convergence of the RTT smoothing: only the clamp, the origin of samples and the departure from RFC 6298 are stated.
- Deprecated `get_timed_out`.
- A send that fails: every frame is appended to the log, and several `Instant::now()` of one call are one `now`.
- SendQueue.Queue.WithCapacity: takes capacities up to 2^32 - 2 - 16 MiB; `Queue::new` passes `usize::MAX`, for which offsets no longer fit 32 bits.
- Forwarding.TcpTxState.constructor: takes the same capacities, that is, scales up to 15.
- ReceiveWindow.Window.WithCapacity: takes capacities up to MAX_U32_WINDOW_SIZE; `SizeCoversIffOneWindow` shows that the size update is wrong beyond.
- ReceiveWindow.Window.Append: an empty payload and one of 2^32 - 1 bytes or more are excluded; the caller appends only non-empty payloads (src/lib.rs:1866) and no frame is that long.
- Reassembly.Reassembles: a segment must lie where sequence numbers identify its position (`InSight`), within one turn of the window.
- SenderRun.RunConserves: assumes that the SYN is acknowledged by exactly the next number (`SynDroppedIff` says what happens otherwise), that nothing beyond what was sent is acknowledged, that no SACK block ends in the number 0 (which no position has), that the worker closes once and forwards nothing after the FIN was dropped (`ForwardRefusedIff` says when such a forward is accepted), and that no FIN is sent with an empty cache, queued bytes and a send window of 0 (`FinOvertakesIff`).
- SenderRun.StepKeeps: under the same assumptions on the step.
- SelectiveRetransmission.SelectiveExact: for ordered blocks that end at most one window ahead of the cache and start less than a turn behind it.
- Connection.RunReceives: for one peer stream with one FIN position; a peer that moves its FIN is not modelled. The duplicate counter is unbounded, where the source saturates at `usize::MAX`.
- Handling.Endpoint.Proceed: the regions of the async handlers are separate methods, with the program counter in `phase`, because other tasks run between them.
- EndToEnd.WireToStream: for streams shorter than one turn of the sequence numbers less a window.
- Fragments.UdpSender.SendUdp: excludes only the datagrams and MTUs for which the source loops forever, which `TerminatesIff` determines.
- Defragmentation.RoundTrip: fragments of other keys are arbitrary but must fit the 65535-byte buffer; one that does not makes the program panic (`Fragmentation.Add`).
- UdpPorts.TableStaysInverse: assumes that a newly opened association gets a port that no worker holds.
