# Verification of the ipcf split and compact layers

ipcf carries IP packets over a slow, lossy byte link. This project models its two protocol layers and the data
structures under them in Dafny and proves what they are for.

* **The split layer** (`split.c`) is a selective-repeat protocol: a message is cut into 32-byte slices with checksums,
  shrunk until its escaped form fits the link, announced by a header frame, and then patched slice by slice as the
  receiver asks for it. `Framing`, `Bitmap`, `Packets`,
  `Slicing`, `Frames`, `Wire`, `Patches`, `PatchSizes` and `Queues` model its parts; `Sender` and
  `Receiver` hold each session twice, as step functions on a value and as an object (`Sse`, `Rse`) whose methods update
  fields, arrays and queues in place and are proved to do what the functions say; `SplitRun` joins the two ends by
  lossy first-in-first-out channels into a state machine, `SplitInv`, `SplitSender` and `SplitReceiver` prove its
  invariant, and `SplitTheorems`, `Retry`, `Exchange`, `Streams`, `Recovery` and `Damage` hold the results.
* **The compact layer** (`compact.c`) replaces the headers of IPv4 packets by a flow id once the other end has stored
  them. `Headers` and `Codec` model the formats, `CodecTheorems` the round trips, `Flows`, `FlowTables` and `RflowTables`
  the tables on both sides, `Handshake` two nodes joined by lossy, reordering channels, `Establishing` and `Arrivals` what
  that is for, in terms of bytes, and `Expiry` what the timers do to it.
* **Beneath them**: the chained hash map (`HashMap`, `Masks`), the circular list (`Ring`), the id pool (`IdPools`), the
  counter-and-semaphore lock for any number of threads (`Lock`), the Internet checksum (`Csum`) and the three
  table-driven CRCs (`Crc`).

The clock is one integer that never goes back and is read once per step. Checksums are arbitrary functions in the
protocol proofs, so nothing there depends on their strength; `Crc` and `Csum` say what the real ones do, and `Damage`
what they keep out. Padding bytes
and stack contents that the code leaves uninitialised are arbitrary parameters.

## Where the code does not do what it or its comments say

Each of these is a lemma about the code as it is.

* `de_frame` returns a status, not the decoded length. `upper_send` never reports that nothing could be sent for a
  non-empty message: at least 352 bytes always survive the shrinking (`Slicing.ShrunkAccepts`).
* The length of an escaped frame is kept in an unsigned 16-bit variable, so the tests for a negative length never hold.
  An oversized PATCH goes out as its first 1000 bytes. For an accepted message that can happen
  (`PatchSizes.OversizedPatchExists`), by at most two bytes and only if all slices are asked for
  (`PatchSizes.AcceptedPatchLength`). One byte too long does no harm (`Patches.PatchCrossesIff`); two cost the last slice
  (`Patches.AllButLastArrive`), which the next timeout brings (`Recovery.LastSlice`).
* `cp_slice_to_rse` accepts a slice number equal to the number of slices. A receiver that is not refusing falls silent
  exactly if it has every slice and that one (`Receiver.SilentIff`); a PATCH with all numbers up to that one gets it
  there (`Receiver.StraySliceSilences`).
* An acknowledgement 256 packets old matches the wrong packet (`SplitTheorems.AckAmbiguity`), and a send session that
  starts over while the receiver still remembers the old one loses a message (`SplitTheorems.RenewalLosesMessage`).
* `proc_ack_part` sets the retry counter back even if it has no slice to send. A receiver that waits for a longer message
  with the same number keeps the sender asking for ever: it never drops the packet (`Recovery.StuckForever`,
  `Recovery.StuckOnIff`). From every other state of the receiver nine timeouts at most empty the queue
  (`Recovery.SettlesIff`).
* `csum` folds its carries once. It recognises exactly the positive multiples of 65535 with one exception, the sum
  2^32 - 1 (`Csum.CsumZeroIff`, `Csum.LargestBufferRefused`); and a header stamped by the receiver need not verify
  (`Csum.StampVerifiesIff`, `CodecTheorems.StampCanFail`).
* A request for an acknowledgement does not start the timer again, so without an answer the five requests go out with five
  successive calls of `proc_timer`, not at intervals (`Retry.TimerAfterTimeout`).
* A message that was refused and is then repaired by a late PATCH is handed up but not acknowledged
  (`SplitContent.RefusedIsRepaired`).
* Of the two bytes of the frame header's checksum field only the lower one is looked at (`Damage.IgnoredByte`).
* `crc32c` uses the Castagnoli polynomial, whatever the comment on its table says (`Crc.TableIsDivision`).
* A TCP segment without URG, SYN, FIN, PSH and RST, such as a plain acknowledgement, shares its code with URG. It comes
  back with URG set, or, with fewer than two bytes of data, makes the receiver compute a negative length
  (`CodecTheorems.TcpRoundTripIff`, `CodecTheorems.PlainIsMisread`, `Handshake.TcpFitsIff`).
* A compressed RAW packet is pushed on its list twice, which closes the list on itself (`Codec.BuildCpkt`,
  `Ring.PushBackTwice`).
* A fragment with IP id 0 has the flow key of a packet with both ports 0. If it opened the flow, such packets arrive with
  its bytes for ports (`Headers.SameFlowIff`, `Arrivals.PortsOfOpener`).
* A request is sent only once. If it or its answer is lost, the flow stays uncompressed as long as packets keep coming
  (`Establishing.PendingWaits`).
* A packet is sent as it is whenever it cannot be compressed, but handed on as it was exactly if it passes for IPv4;
  otherwise an assertion fails or it is taken for another frame (`Handshake.PlainArrivesIff`). One of IP version 6 is
  taken for TCP, on a flow of UDP too, where the copied TCP header was never stored (`Handshake.Ipv6IsMisread`).
* The two ends touch their flows at different times. A compressed frame whose flow has expired at the receiver makes an
  assertion fail, and so does the request for a reused id that the receiver still knows (`Expiry.InFlightIff`,
  `Expiry.NextPacketIff`).
* A packet of another protocol with IP id 0, on an established flow, is sent as a bare header whose type was never set.
  It is understood exactly if these two bits say RAW, and then restored exactly if it had no segment
  (`Handshake.UntypedArrivesIff`).

## Model

| member | source | states |
|---|---|---|
| Framing.EnFrame | split.c:35-77 | succeeds exactly when BREAK, escaped data and BREAK fit; otherwise reports the longest data prefix whose start BREAK plus escaped form fits; bytes behind the written part are untouched |
| Framing.DeFrame | split.c:86-153 | the two loops compute the decoding function, writing in place and never past the room given |
| Framing.DeFramedIff | split.c:86-153 | decoding succeeds with data d exactly on BREAK-free noise, the frame of d and anything behind, when d fits |
| Framing.FrameReadBack | split.c:35-153 | a frame between noise reads back as its data, or as the prefix that the room holds |
| Framing.TruncatedFrame | split.c:86-153 | a proper prefix of a frame never succeeds, and yields a prefix of the data with at least half of what came through |
| Framing.FrameLength | split.c:35-77 | the encoded length is 2 plus the data length plus the number of BREAK and ESCAPE bytes |
| Framing.EscapeMonotone | split.c:35-77 | a longer prefix of the data needs strictly more room, which is why the reported prefix is the longest |
| Bitmap.SetBit | split.c:210-217 | on 32-bit words: adds exactly the given number to the set of bits |
| Bitmap.ClrAllBits | split.c:269-275 | empties the set of bits |
| Bitmap.FindFirstZero | split.c:231-252 | returns the least clear bit from k up to max, or reports that there is none |
| Bitmap.CollectMissing | split.c:535-551 | the loop around find_first_zero lists what the specification lists, over words |
| Bitmap.MissingExact | split.c:535-551 | the list is strictly increasing and is exactly the clear bits below n |
| Bitmap.TestAllBitsSet | split.c:254-267 | true exactly if every bit below n is set and, in the last word it looks at, none from n on |
| Bitmap.AllSetIffNothingMissing | split.c:254-267 | if no bit behind n is set, the test agrees with the list of missing slices being empty |
| Bitmap.StrayBitIff | split.c:231-267 | the test fails although the list is empty exactly if the first n bits are set and one behind them in the last word |
| Slicing.FillSlices | split.c:187-208 | the slices are the 32-byte chunks of the accepted prefix, cut short only by the room |
| Packets.SlicesOfPrefix | split.c:170-208 | slices of a message cut at a slice boundary are the first slices of the message, which is what shrinking keeps |
| Slicing.BuildPacket | split.c:1267-1315 | the shrinking loop terminates, always succeeds, and returns the slices of the accepted prefix and the escaped header frame |
| Slicing.CutOnce | split.c:1301-1314 | a failed attempt cuts a slice for every 32 data bytes that en_frame could not place, and one more; at most one for every 32 bytes of overflow, and one more; at least 11 are left, at a slice boundary |
| Slicing.SecondAttempt | split.c:1301-1314 | a second attempt can fail only because the new headers have more to escape, and then cuts a single slice; there is no third failure |
| Slicing.LongestFitIsFitCount | split.c:35-77 | the prefix that en_frame reports determines how many slices are cut |
| Slicing.FailureStillFits499 | split.c:1301-1314 | a frame that does not fit still has 499 bytes placed, so the cut never reaches the headers |
| Slicing.ShrunkAccepts | split.c:1267-1315 | a message of at most 864 bytes is accepted as a whole exactly if its frame fits; if that is e bytes too long, at most e / 32 + 2 slices are lost, at least 352 bytes are left, and the complete frame of what is accepted fits the link |
| Slicing.AcceptedBounds | split.c:1236-1328 | the accepted length of any non-empty message: positive, at most 864 and at most the length asked for, and short of that by no more than the overflow asks for |
| Wire.DecodeEncode | split.c:572-625 | every frame that the protocol builds passes the checks of its handler and is read back field by field |
| Wire.WhatArrives | split.c:572-762 | whatever bytes come in, a frame that reaches a handler has its fields from fixed places, a DATA frame two lengths that agree, a PATCH room for a slice and as many slices as announced and present, an ACKP a list as long as announced and not empty; no other type gets there |
| Wire.CarriedWhole | split.c:1404-1461 | a frame that crosses the link between noise arrives as it was sent |
| Wire.SmallFramesFit | split.c:509-570 | acknowledgements, requests and header frames always fit the link |
| Wire.HeaderBytesAreData | split.c:1291-1300 | the header frame that goes out first is the DATA frame of the packet |
| Wire.TruncatedPatch | split.c:711-762 | a PATCH cut anywhere delivers a prefix of its slices under the same header, or nothing; from 110 bytes on it delivers |
| Wire.TruncatedOther | split.c:1404-1461 | a DATA header, ACKR, ACKA or ACKP cut anywhere arrives as it was sent or not at all, so losing frames is all that the link does to them |
| Patches.OversizedPatchStillHelps | split.c:941-959 | an oversized PATCH delivers every slice in front of the cut, which leaves at least 499 bytes |
| Patches.PatchCrossesIff | split.c:941-959 | a PATCH arrives as it was built exactly if its escaped data takes at most 999 bytes, whatever lies behind it in the buffer |
| Patches.AllButLastArrive | split.c:941-959 | of a PATCH of 1002 bytes all slices but the last arrive, and the last one does not or does not match its checksum |
| PatchSizes.AcceptedPatchLength | split.c:898-959 | a PATCH for an accepted message, for any list a receiver can ask for, takes at most 1002 bytes, and at most 1000 unless all slices are asked for |
| PatchSizes.OversizedPatchExists | split.c:1267-1315 | the bound is reached: a message that is accepted as a whole although its PATCH takes 1002 bytes |
| Queues.DataList.Put | split.c:430-450 | a frame or message is put at the end, cut to 1000 bytes |
| Queues.DataList.UpperRecv | split.c:1335-1360 | the oldest message as far as there is room, and how much of it is lost, or -1 if there is none |
| Queues.DataList.LowerFetch | split.c:1369-1399 | the oldest frame whole, or an error and the frame is lost |
| Queues.FirstInFirstOut | split.c:430-450 | for every interleaving of writers and readers: what is left is what was put, in order, without one element for each reader that found something |
| Queues.NextIsWhole | split.c:1335-1399 | a reader with enough room gets the next element exactly as it was put |
| Sender.Sse.constructor | split.c:316-353 | a new send session: empty queue, no timer, sequence number 0 |
| Sender.Sse.Send | split.c:1236-1328 | upper_send as an update of the session object: refuses an empty message untouched, otherwise queues the packet of the accepted prefix, sends its header if idle, returns the accepted length |
| Sender.Sse.TryToSend | split.c:452-466 | sends the head's DATA frame and arms the timer exactly if not waiting and the queue is not empty |
| Sender.Sse.AckAll | split.c:804-896 | pops the head exactly if the acknowledgement names it, resets both counters and sends the next |
| Sender.Sse.AckPart | split.c:961-1060 | answers a request for slices of the head and restarts the timer |
| Sender.Sse.PutPatch | split.c:898-959 | the copying loop builds the specified PATCH, whatever is requested |
| Sender.SendPatchExact | split.c:898-959 | a request within range is answered with exactly the slices asked for, in that order |
| Sender.Sse.ProcAckTimeout | split.c:1121-1179 | the two nested counters: ask again, send DATA again, or drop the head |
| Sender.Sse.ProcTimer | split.c:1181-1210 | one session's turn: time out if due, discard if idle |
| Sender.UpperSendKeepsInv | split.c:1236-1328 | sending keeps: waiting, non-empty queue and armed timer are one and the same; an empty queue sends at once, a busy one appends |
| Sender.AckKeepsInv | split.c:855-866 | both acknowledgements keep the session invariant |
| Sender.AckTimeoutKeepsInv | split.c:1121-1179 | the timeout handler keeps it |
| Sender.TimerKeepsInv | split.c:1181-1210 | the timer never times out on an empty queue and never discards a session that holds packets |
| Retry.TimeoutLowersMeasure | split.c:1121-1179 | every timeout lowers 36 * queue length - 6 * data retries - ack retries by exactly one |
| Retry.Schedule | split.c:1121-1179 | after any number of timeouts the remaining work is the initial one less their number, and the queue is the suffix that this leaves |
| Retry.DroppedAtThe36th | split.c:1121-1179 | a fresh head survives 35 timeouts and is dropped at the 36th; n packets are gone after exactly 36n |
| Retry.SendAddsTries | split.c:1236-1328 | a message adds exactly its own 36 tries to the measure; sent at once it times out after exactly 3 seconds, queued it leaves the timer alone |
| Retry.AckSendsNext | split.c:855-866 | an acknowledgement of the head sends the next packet's DATA at once, with all of its own tries and a timer of exactly 3 seconds; any other changes nothing |
| Retry.PartRestartsTimer | split.c:961-1060 | a request for slices gives the head back the requests already made, not the DATA already sent, and starts the timer again |
| Retry.TimerAfterTimeout | split.c:1121-1179 | a timeout that only asks leaves the timer as it is, one that sends DATA starts it again |
| Receiver.Rse.constructor | split.c:403-428 | a new receive session holds nothing |
| Receiver.InBoundsIff | split.c:468-496 | every accepted slice stays within buffer and bitmap, and so does the message, exactly if the announced length is at most 960 |
| Receiver.Rse.CopySlice | split.c:468-496 | an intact slice within range is stored at its place and its bit set, any other is ignored; the rest of the buffer is untouched |
| Receiver.Rse.Patch | split.c:498-507 | the loop over a frame's slices |
| Receiver.Rse.PutAck | split.c:509-570 | silent under nak, ACKA when full, otherwise ACKP with the missing slices |
| Receiver.SilentIff | split.c:509-551 | without nak, nothing is answered exactly if every slice and the stray bit behind them are set |
| Receiver.StraySliceSilences | split.c:485-496 | a fresh session that takes intact slices 0 to n_slices neither delivers nor answers, not even an ACKR |
| Receiver.Rse.Conclude | split.c:640-651 | a full bitmap: nak if the CRC differs, otherwise acknowledged and handed up |
| Receiver.Rse.OnData | split.c:572-655 | always restarts reception; a complete message is checked against its CRC and handed up |
| Receiver.Rse.OnPatch | split.c:711-802 | patches the packet it is for, hands a completed message up once, and leaves an incomplete one unanswered |
| Receiver.Rse.OnAckReq | split.c:657-709 | answers about the packet being received, or says nothing |
| Receiver.Rse.ProcTimer | split.c:1215-1229 | one session's turn: kept exactly before its idle time |
| Receiver.FrameKeepsAlive | split.c:355-372 | a session that took any frame lives exactly 10 seconds from then on |
| Receiver.ProcDataKeepsInv | split.c:572-655 | after any DATA frame: a full bitmap means completed or nak |
| Receiver.ProcPatchKeepsInv | split.c:711-802 | after any PATCH frame: a full bitmap means completed or nak |
| SplitContent.PatchKeeps | split.c:468-507 | patching genuine slices keeps: every set bit i means slice i of the buffer is slice i of the message; exactly the intact numbers are added |
| SplitContent.FullIsMessage | split.c:640-653 | with all bits set the buffer holds the message |
| SplitContent.RefusedIsRepaired | split.c:766-783 | a refused message whose wrong slices a PATCH brings is handed up, without acknowledgement |
| SplitTheorems.StepOk | split.c:1404-1461 | every handler, timer, send or loss that can happen meets the code's demands and keeps the invariant of the two-ended system |
| SplitTheorems.RunOk | split.c:1181-1461 | in every run no handler is called as the code does not allow: no empty queue is read, no buffer overrun |
| SplitTheorems.DeliveredWasSent | split.c:572-655 | in every run each delivered message is, byte for byte, the accepted message of its packet number, and the numbers never decrease; with unnoticed slice corruption length and CRC-32C still agree |
| SplitTheorems.SentWasGiven | split.c:1236-1328 | packet number n is made of the n-th message given to upper_send, in the order of the calls: of a prefix of the length that the call reported, never empty and at most 864 bytes |
| SplitTheorems.FaithfulRunsAreClean | split.c:468-504 | without unnoticed slice corruption every delivery is exact |
| SplitTheorems.AckedWasDelivered | split.c:804-866 | in every run a packet removed because of an acknowledgement has been delivered |
| SplitTheorems.AtMostSixTimes | split.c:1121-1179 | in every run a packet is delivered at most as often as its DATA frame was sent, and that at most 6 times |
| SplitTheorems.NothingDiscarded | split.c:1181-1210 | in every run a send session that idle collection removes had an empty queue |
| SplitTheorems.AckAmbiguity | split.c:840-866 | an acknowledgement in flight matches the head exactly if it is a multiple of 256 packets old |
| SplitTheorems.RenewalLosesMessage | split.c:657-702 | a renewed send session whose first DATA is lost has its message acknowledged without being delivered exactly if the receiver remembers a completed packet with number 0 |
| Exchange.FaultFree | split.c:1236-1461 | from an idle sender and any receiver, for every message, any checksums and any buffer contents, DATA, ACKP, PATCH and ACKA over a lossless link, byte for byte, deliver exactly the accepted prefix once and empty the queue; only if the PATCH takes exactly 1002 bytes the last slice stays missing |
| Streams.AllHandedUp | split.c:804-896 | from any receiver, any number of queued packets over a lossless link: without a timeout they are handed up in order, each once and byte for byte, and the queue empties, up to the first whose PATCH takes 1002 bytes |
| Recovery.OneRound | split.c:1121-1179 | one timeout of a sender with one packet, for every state of both ends, over a link that now loses nothing: the sixth starts the exchange again or, the 36th, drops the packet; before that a mute receiver stays mute, one that has handed the packet up acknowledges it without handing it up again, and one that waits for its slices gets them all, or all but the last |
| Recovery.Recovers | split.c:657-896 | whatever was lost, DATA, slices or acknowledgement, or refused: a sender that can still send DATA needs at most 6 timeouts, less the requests already made, and one more if only the last slice was missing; the message is handed up exactly once more, or not at all if the receiver is asked in time and had handed it up |
| Recovery.SettlesIff | split.c:961-1060 | for every receiver, any nine timeouts empty the queue exactly if the receiver is not stuck on another, longer message with the same number while the sender may still ask |
| Recovery.StuckForever | split.c:961-1060 | with a stuck receiver no number of timeouts ends it: the packet stays queued, nothing is handed up |
| Recovery.StuckOnIff | split.c:572-655 | a DATA frame with the number of the packet sets the receiver up to be stuck exactly if it announces more slices than the packet has |
| Recovery.MuteIff | split.c:509-570 | the receivers called mute are exactly those that leave the request unanswered |
| Recovery.SendPatchPart | split.c:898-959 | every request that a receiver can make, about whatever message, is answered with exactly those of the slices asked for that the packet has, or not at all if it has none |
| Recovery.PatchProcessed | split.c:711-802 | a PATCH for any message sets exactly the bits of the intact slices within range in a receiver that waits for some; if one is still missing nothing is answered, otherwise the receiver acknowledges or falls mute |
| Recovery.LastSlice | split.c:1121-1179 | after an exchange whose PATCH was too long the next timeout delivers the message |
| Headers.KeyFixesHeader | compact.c:68-104 | packets with the same flow key have the same protocol and addresses, and the same ports or the same IP id |
| Headers.SameFlowIff | compact.c:68-104 | two packets have the same flow key exactly if protocol and addresses agree and the ports, or for fragments and other protocols the IP id; with the exception of fragments with IP id 0 |
| Codec.BuildCpkt | compact.c:193-304 | the packet built field by field is the specified frame, or a bare header with the stale type bits for another protocol with IP id 0; a RAW packet is pushed twice |
| Codec.RecvTcpSegment | compact.c:403-468 | the pass with a moving offset rebuilds the specified segment |
| Codec.Rflow.RecvTcp | compact.c:390-475 | restores a TCP packet from the stored headers and advances the stored IP id |
| Codec.Rflow.RecvUdp | compact.c:477-513 | restores a UDP packet and advances the stored IP id |
| Codec.Rflow.RecvRaw | compact.c:515-554 | restores a RAW packet and leaves the stored headers alone |
| CodecTheorems.FlagsRestoredIff | compact.c:233-256 | the TCP flags come back exactly for URG with at most one of SYN, FIN, PSH and no RST, or no URG with exactly one of SYN, FIN, PSH, RST; ECE and CWR are the stored ones |
| CodecTheorems.FlagByteRoundTrip | include/ipv4.h:42-49 | the bit fields come back from the flag byte |
| CodecTheorems.FlagsRoundTrip | include/ipv4.h:42-49 | and the flag byte from the bit fields |
| CodecTheorems.TcpRoundTripIff | compact.c:232-285 | a segment of any length is rebuilt byte for byte exactly if its flags are representable and the ports, offset byte, ECE, CWR, and the acknowledgement number and urgent pointer that are not sent are as stored |
| CodecTheorems.PlainIsMisread | compact.c:247-256 | a segment without flags comes back with URG, and only if it has two bytes of data |
| CodecTheorems.UdpRoundTripIff | compact.c:286-298 | a datagram is rebuilt byte for byte exactly if the ports are the stored ones and its length field is its length |
| CodecTheorems.RawRoundTrip | compact.c:209-230 | payload and fragment field come back, the latter without its two top bits |
| CodecTheorems.RoundTrip | compact.c:193-554 | for every packet and stored headers of its protocol, restoring the compressed frame gives the packet's bytes behind the IP header exactly if the flow can carry it |
| CodecTheorems.RestoredHeader | compact.c:390-554 | the IP header in front: real length; the packet's addresses and protocol; for RAW its IP id and fragment field without DF; otherwise the next stored id; the rest as in the packet that opened the flow |
| CodecTheorems.RestoredIpFields | compact.c:470-472 | each field of a restored IP header, and that its checksum verifies exactly if the sum folds without a further carry |
| CodecTheorems.CompressedShape | include/compact.h:31-62 | a compressed frame has the type that leads to its decoder, saves at least 15 bytes, and is never taken for IPv4 |
| CodecTheorems.RequestRoundTrip | compact.c:167-191 | a request brings the headers across and its answer names the same flow; neither is taken for IPv4 |
| Flows.IdsPartition | compact.c:641-658 | live and free flow ids together are 256 |
| Flows.RefusedIff | compact.c:641-651 | a packet is refused, with nothing sent, exactly if it would need a 257th flow |
| Flows.XmitKeepsConsistent | compact.c:613-686 | sending keeps live ids distinct and the free ids the others |
| Flows.AckKeepsConsistent | compact.c:722-727 | so does an answer |
| Flows.UsedFlowLives | compact.c:147-150 | a flow lives exactly the soft timeout after its last packet |
| FlowTables.Sflow.constructor | compact.c:121-145 | a new flow stores the headers of its first packet and is NEW |
| FlowTables.Sflow.Emit | compact.c:664-683 | NEW sends request and packet, PENDING the packet, ESTABLISHED the compressed frame; the flow is touched |
| FlowTables.FlowTable.constructor | compact.c:602-611 | no flows, ids 0 to 255 free in this order |
| FlowTables.FlowTable.ValidIsConsistent | compact.c:641-658 | map, reverse index and pool always agree: an id is free exactly if no flow has it |
| FlowTables.FlowTable.Open | compact.c:641-658 | takes the oldest free id for a new flow, fails exactly if there is none |
| FlowTables.FlowTable.Locate | compact.c:632-660 | finds the packet's flow or opens it |
| FlowTables.FlowTable.Use | compact.c:664-685 | sends for the flow's state and touches the flow, and changes nothing else in the table |
| FlowTables.FlowTable.Xmit | compact.c:613-686 | xmit_compress as an update of the table |
| FlowTables.FlowTable.OnAck | compact.c:722-727 | establishes exactly the flow with the answer's id, if there is one |
| FlowTables.FlowTable.Drop | compact.c:567-570 | removes the flow from map and index and puts its id at the end of the free ones |
| FlowTables.FlowTable.Timer | compact.c:556-589 | exactly the flows whose time has not come stay, in whatever order the table is walked; ids already free keep their places |
| RflowTables.RflowTable.Accept | compact.c:352-378 | stores the headers of a request |
| RflowTables.RflowTable.Decompress | compact.c:734-748 | hands a frame to the decoder of its type, with the flow's headers, and touches the flow |
| RflowTables.RflowTable.Control | compact.c:710-733 | a request stores a flow and is answered, an answer establishes one, a fault does nothing |
| RflowTables.RflowTable.RecvCompress | compact.c:689-756 | recv_compress as an update of both tables |
| RflowTables.RflowTable.Timer | compact.c:591-600 | exactly the received flows whose time has not come stay |
| Handshake.SentImages | compact.c:664-683 | the frames of the state machine have the bytes that xmit_compress sends |
| Handshake.TcpFitsIff | compact.c:411-444 | recv_tcp can read a compressed segment exactly if it has flags or two bytes of data |
| Handshake.RestorableIff | compact.c:390-554 | the receiver can read a compressed frame of its flow exactly if it is not that of a TCP segment without flags and with less than two bytes of data |
| Handshake.CompressedArrives | compact.c:734-748 | a compressed frame in flight finds its flow and is restored from its headers |
| Handshake.RequestArrives | compact.c:710-721 | a request in flight finds no flow with its id, stores the sender's headers and is answered |
| Handshake.EveryFrameUnderstood | compact.c:701-752 | no frame in flight makes an assertion of recv_compress fail or a length negative |
| Handshake.StepKeepsInv | compact.c:613-756 | sending, receiving, losing and doubling frames keep the invariant of both directions |
| Handshake.RunOk | compact.c:701-752 | in every run of two nodes over lossy, reordering channels no assertion of recv_compress fails |
| Handshake.EstablishedIsShared | compact.c:658-686 | in every run the receiver has stored the headers, up to the IP id, of every flow that is established or whose answer is in flight, and no request for it is left |
| Handshake.DeliveredIsSent | compact.c:689-756 | in every run what a node hands on was given to xmit_compress of the other: uncompressed packets arrive byte for byte, compressed ones with the fields and, exactly if the flow can carry them, the segment of the original |
| Handshake.PlainArrivesIff | compact.c:701-708 | a packet sent as it is gets handed on as it was exactly if version, header length and checksum make it pass for IPv4 |
| Handshake.Ipv6IsMisread | compact.c:403-468 | an IP version 6 packet is never compressed and never passes for IPv4: it is taken for a TCP segment of the flow that its second and third byte name; no assertion fails and no length is negative exactly if there is that flow and the packet has the 9 to 13 bytes its first byte announces; what is copied was stored exactly if the flow is one of TCP |
| Handshake.UntypedArrivesIff | compact.c:299-303 | the frame of a packet of another protocol with IP id 0 is understood exactly if its stale type bits say RAW; then the addresses arrive, and the segment exactly if there is none |
| Handshake.InFlightWasGiven | compact.c:613-686 | in every run, every packet in flight was given to xmit_compress of the node it comes from |
| Establishing.AnswerEstablishes | compact.c:722-724 | an answer makes exactly the flow with its id established |
| Establishing.UnknownAnswer | compact.c:722-727 | an answer for a free id is ignored |
| Establishing.FaultIsIgnored | compact.c:728-729 | a fault frame changes nothing |
| Establishing.LongPacketIsCut | compact.c:321-332 | an uncompressed packet is handed on up to its length field, and at most 2000 bytes of it |
| Establishing.SentAsItIsIff | compact.c:626-639 | on an established flow a packet is sent as it is exactly if it is not IPv4 without options, has TCP options or a wrong header checksum; any other gives one frame, at least 15 bytes shorter |
| Establishing.PendingWaits | compact.c:668-671 | a pending flow sends packets as they are and nothing else |
| Establishing.NextIsCompressed | compact.c:613-756 | in any state of a run: packet, request and answer, and then the next packet of the flow puts one compressed frame on the link, at least 15 bytes shorter |
| Arrivals.DeliveredBytes | compact.c:193-554 | in every run, byte by byte: a compressed packet was given to the other node and arrives with its addresses, protocol and length; without ports with its IP id, fragment field and payload; with ports, of which one is not 0, with these and everything else that TCP and UDP send |
| Arrivals.PortsOfOpener | compact.c:121-145 | the ports that arrive are those of the packet that opened the flow, and wrong exactly if that was a fragment with IP id 0 and other bytes there |
| Arrivals.FlagsArrive | compact.c:233-256 | the six flags of a restored segment are the original ones exactly for eight combinations of the flag byte |
| Arrivals.InfoOnBytes | include/compact.h:31-45 | the bits on the wire for each of these combinations |
| Expiry.InFlightIff | compact.c:556-600 | in every state of a run, a frame in flight is understood after its receiver's timer exactly if the flow it needs has not expired there; otherwise an assertion fails |
| Expiry.NextPacketIff | compact.c:556-686 | after both timers have run, the frames for the next packet are understood exactly if its flow, when still established at the sender, has not expired at the receiver, and the id of a new flow is not still known there |
| Expiry.ReceivedFlowLives | compact.c:147-155 | a request or a compressed frame gives its flow exactly the soft timeout at the receiver, and no other flow anything |
| HashMap.Hmap.constructor | lib/hmap.c:4-10 | an empty map of one bucket inside the struct |
| HashMap.Hmap.InsertFast | include/hmap.h:87-95 | the node becomes the first of bucket hash & mask, nothing else moves |
| HashMap.Hmap.Insert | include/hmap.h:97-104 | adds exactly the node, keeps all others with their hashes, and leaves n <= 2 * mask + 1 |
| HashMap.Hmap.FindPrev | include/hmap.h:109-112 | the walk ends at the node's place in its bucket |
| HashMap.Hmap.Unlink | include/hmap.h:106-115 | relinking one bucket takes out exactly the node |
| HashMap.Hmap.Remove | include/hmap.h:106-115 | takes exactly the node out of the iteration order, and n drops by one |
| HashMap.Hmap.First | include/hmap.h:166-172 | the first node in iteration order |
| HashMap.Hmap.Next | include/hmap.h:174-180 | the node behind the i-th in iteration order is the (i+1)-th, or null at the end |
| HashMap.Hmap.FirstWithHash | include/hmap.h:139-145 | the first of the nodes with a hash in the whole map |
| HashMap.Hmap.NextWithHash | include/hmap.h:147-151 | from the j-th node with a hash to the next |
| HashMap.MatchesExact | include/hmap.h:46-54 | lookup enumerates exactly the nodes with that hash, each once |
| HashMap.Hmap.MatchesInBucket | include/hmap.h:139-145 | all nodes with a hash are in one bucket, in order |
| HashMap.Hmap.Swap | lib/hmap.c:20-36 | the structs change places, and a map with one bucket keeps it inside |
| HashMap.Hmap.MoveAll | lib/hmap.c:60-66 | the nested loops move every node into the new map, once |
| HashMap.Hmap.Resize | lib/hmap.c:38-69 | a valid map with the new mask and the same nodes and hashes |
| HashMap.Hmap.Expand | lib/hmap.c:89-96 | the map only grows, keeps its nodes, and has at least n / 2 + 1 buckets |
| HashMap.Hmap.RemoveEach | include/hmap.h:61-66 | safe iteration visits every node exactly once and in order although the body removes the current one, and leaves exactly the others |
| HashMap.Hmap.SeqDistinct | include/hmap.h:56-66 | no node occurs twice in the iteration order |
| Masks.CalcMask | lib/hmap.c:71-87 | the smearing computes a mask of ones, at least half the capacity and never 1 |
| Masks.MaskIsPow2 | lib/hmap.c:44-50 | a mask is one less than a power of two |
| Masks.Pow2IsMask | lib/hmap.c:44-50 | and one less than a power of two is a mask |
| Masks.AndBound | include/hmap.h:90 | a bucket index is in range |
| Masks.AndReaches | include/hmap.h:90 | and every bucket is some hash's bucket |
| IdPools.IdPool.constructor | lib/idpool.c:4-20 | a full queue 0, 1, .., n-1 |
| IdPools.IdPool.GetId | lib/idpool.c:30-42 | takes the oldest id, or gives -1 if there is none |
| IdPools.IdPool.ReleaseId | lib/idpool.c:44-54 | puts the id at the end, and ignores it when the pool is full |
| Ring.ListInit | lib/list.c:3-8 | a ring of one |
| Ring.ListInsert | lib/list.c:10-18 | four assignments insert the element just before the given node of the ring |
| Ring.ListPushFront | lib/list.c:20-26 | the element becomes the first |
| Ring.ListPushBack | lib/list.c:28-34 | the element becomes the last |
| Ring.ListRemove | lib/list.c:36-44 | takes the element out and returns its successor |
| Ring.ListPopFront | lib/list.c:46-54 | takes out and returns the first |
| Ring.ListPopBack | lib/list.c:56-64 | takes out and returns the last |
| Ring.ListSize | lib/list.c:86-98 | the walk counts the elements |
| Ring.ListIsEmpty | lib/list.c:100-105 | the head links to itself exactly if there is no element |
| Ring.PushBackTwice | compact.c:230-303 | pushing an element twice makes it its own successor: no ring contains it and the head any more |
| Lock.InvStep | include/atomic.h:32-42 | every atomic step keeps: critical + pending post + semaphore is 1 when cnt > 0 and else 0, and cnt = waiting + critical |
| Lock.RunInv | include/atomic.h:32-42 | and so it holds in every run of any number of threads |
| Lock.MutualExclusion | include/atomic.h:32-42 | no two threads are ever inside together |
| Lock.SomeoneCanStep | include/atomic.h:32-42 | whenever cnt > 0 somebody who already came can step |
| Lock.EveryoneGetsThrough | include/atomic.h:32-42 | no wakeup is lost: without newcomers every schedule is finite, and where it ends everyone has been in and out |
| Csum.CsumContinue | lib/csum.c:33-46 | the loop adds the 16-bit words, and an odd last byte, modulo 2^32 |
| Csum.ComputeCsum | lib/csum.c:4-8 | csum of a buffer |
| Csum.CsumZeroIff | lib/csum.c:48-53 | for every buffer up to 131074 bytes csum is 0 exactly if the words sum to a positive multiple of 65535 other than 2^32 - 1 |
| Csum.LargestBufferRefused | lib/csum.c:48-53 | 131074 bytes of 0xff are valid by their sum, and csum of them is 1 |
| Csum.StampVerifiesIff | compact.c:470-472 | a buffer stamped with its own checksum verifies exactly if the fold of its unstamped sum carries no further |
| CodecTheorems.StampCanFail | compact.c:470-472 | the header of a 40-byte TCP packet that is restored with a checksum that does not verify |
| Crc.TableIsDivision | lib/crc.c:5-145 | every table entry is eight steps of reflected polynomial division of its index |
| Crc.ComputeCrc8 | lib/crc.c:153-159 | the loop computes the register function |
| Crc.ComputeCrc16 | lib/crc.c:174-179 | the loop computes the register function |
| Crc.ComputeCrc32c | lib/crc.c:188-201 | the loop computes the register function from all ones and complements it |
| Crc.CrcIsDivision | lib/crc.c:153-201 | the table-driven register equals bit-by-bit division for every buffer and start value |
| Crc.CrcAppend | lib/crc.c:153-179 | the CRC of a concatenation continues from the CRC of its first part |
| Crc.UpdateInjective | lib/crc.c:161-164 | an update is injective in the register and in the byte |
| Crc.OneByteDetected | lib/crc.c:153-201 | two buffers that differ in exactly one byte never have the same CRC |
| Damage.ProgramNotices | split.c:155-168 | csum8 and csum16 differ for any two buffers that differ in exactly one byte |
| Damage.DamagedFrame | split.c:1421-1428 | of a frame that would be accepted, one changed byte of its headers or of its list of requested slices is always noticed, except in the byte that nobody looks at |
| Damage.IgnoredByte | split.c:1421-1428 | and that byte never matters |
| Damage.BuiltFrameRefused | split.c:1404-1461 | with the program's checksums every frame it builds is refused after such a change |
| Damage.DamagedSlice | split.c:472-480 | a slice that differs from an intact one in exactly one byte is refused |
| Damage.DamagedPatch | split.c:711-762 | a PATCH with one changed byte behind its headers arrives with all other slices as they were, and the one with that byte is refused |

## Left out

- Operating system: `tun.c`, `udp.c`, the threads and statistics of `test.c`, `lib/poll-event.c` and the clock of
  `include/ts.h`; channels, packets and times are parameters.
- Random numbers and hash mixing (`lib/rand.c`, `lib/hash.c`): a hash is any number, and the flow tables are maps; the
  chained map itself is `HashMap`, not joined to them.
- Memory: malloc failure, freeing and pointer casts. Packets are limited to the 2000 bytes of their buffers, and a frame
  shorter than 20 bytes is never taken for IPv4, whatever the buffer held behind it.
- Races between threads: a handler is one step; the lock that serialises them is proved for itself.
- The table of 256 sessions that `proc_timer` walks, `get_sse` and `get_rse`: one session stands for them.
- Sequence numbers that wrap: a run delivers an acknowledgement only while it is less than 256 packets old, and starts a
  new send session only when link and receiver have forgotten the old one; the two lemmas named above show that both
  conditions are needed.
- Receiver.Rse.OnData: for DATA frames that announce at most 960 bytes. The check for longer ones returns only in a debug
  build; without it the code leaves the session's buffer or bitmap, and what then happens is not modelled.
- SplitTheorems.RunOk: runs contain only the slices that upper_send makes, so the stray bit does not occur in them.
- PatchSizes.OversizedPatchExists: with checksum functions chosen for it; the protocol is modelled for any. With the
  program's own checksums there is one too, which is not proved here: 864 bytes from address 4 to 1 under sequence number
  129, with BREAK at 0 to 7, 34 at 100, 145 at 101 and 0 elsewhere.
- Handshake.RunOk: flows do not expire in a run, so no flow id is used twice; `Expiry` says exactly what the next frame
  meets when they do. Packets are IPv4 with a valid header
  checksum, and once their flow is established of a kind that the receiver can read; the lemmas above say exactly what
  becomes of the others, but not what a run does after an assertion failed or a forged control frame was obeyed.
- Recovery.Recovers: for one queued packet, and without the receiver's own idle collection between two timeouts. A
  receiver that waits for slices of another message with the same number is left to SettlesIff, which does not say what
  such a receiver hands up.
- Codec.BuildCpkt: requires lengths that cover the headers, as the copying does.
- Handshake.SentImages: a compressed RAW packet counts once in the list of frames. Since its second push closes the list
  on itself, how often it is sent is not determined by the code; the state machine may send it any number of times.
- `send_ack_req` names the newest sequence number, as the code does; no claim is made that it is answered when more than
  one packet is queued.
- `recalc_csum16`, `recalc_csum32`, `hmap_replace`, debug output and disabled code.
