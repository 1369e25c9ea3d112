# CAN bridge verification

A Dafny model of the part of the CAN bridge that moves frames between an application
and a USB adapter: lock-free rings in shared memory, the wakeup handshake, the transmit
drain, the wire codecs, the bit-timing searches, the delivery tracker and the sequence
counters. `dafny verify dfyconfig.toml` checks the whole project.

## Modules

| module | about |
|---|---|
| `MachineInts`, `Arithmetic`, `ByteBuffer`, `Results` | fixed-width integers, facts about division, byte buffers, result types |
| `CanFrame`, `RingEntry`, `RingWindow`, `RingStream` | frames and ring entries as bytes, ring arithmetic under counter wrap, whole byte streams |
| `SpscRing` | the RX ring with single-byte steps of two threads interleaved |
| `RingIo`, `SharedRing` | the ring calls as methods on the shared byte array; three rings refine three queues |
| `FlightWindow`, `FlightRace` | the delivery tracker as a class and as three interleaved threads |
| `Wakeup`, `WakeupStatus`, `WakeupClose` | WaitForData, Close, notify and the client's drain, interleaved; which status a completion gets; what a Close leaves |
| `TxDrain`, `TxRing` | overlapping transmit drains, the in-flight flag and completions: on a log of entries, and on the ring with its capacity and counters |
| `RxSlots` | the sixteen USB read slots |
| `Slcan`, `SlcanStream`, `SlcanDrain` | SLCAN encoder and decoder, line splitter, batching drain |
| `PcanCodec`, `PcanTx` | PCAN message stream, frame messages, per-ring drain |
| `GsUsb`, `GsUsbFlow`, `GsUsbRuns` | gs_usb frames, echo flow control, runs of it |
| `BitTiming`, `GsUsbTiming` | the two bit-timing searches |
| `SequenceMetrics` | sequence accounting of received messages |
| `FanOut`, `FanOutRuns`, `FifoRace`, `FifoAlone` | per-reader FIFOs of the client, runs of it, one FIFO with its threads interleaved, and the same without interleaving |

Code that updates state in place is modelled by classes, arrays and loops, each proved
against a function on values; what the program promises is proved about those
functions. Interleaved protocols are state machines whose steps are single loads, stores
and atomic operations. Counters are 32 or 64 bits wide where the source's are, with
the wrap written out. Environment choices (send results, pipe acceptance, ticks, which
reads complete) are parameters.

## Where a promise does not hold

The code is modelled as it is, where the language defines what it does; the few places
where it does not are under "Left out". Where the documented promise fails, a lemma gives a
concrete case or the exact condition:

- The tracker's rejection of late acknowledgements (`ican/perf/FlightWindow.hpp:45-52`) does
  not cover one that overlaps the harvest: `FlightRace.LateAckIsLost`. Which runs are right
  is `FlightRace.AgreesIffHarmless`; for first acknowledgements within one capacity of the base
  it is where their bits land, `FlightRace.AgreesIffBitsLandAhead`; timely ones are:
  `FlightRace.TimelyRunIsExact`.
- Sending before advancing the tail (`usb_can_driver/codecs/pcan_codec.h:308-313`) is meant to
  keep overlapping drains from losing frames. They can send a frame twice and move the tail
  back, `TxDrain.OverlapSendsTwiceAndMovesTailBack`, and exactly once holds if and only if
  accepted copies are current, `TxDrain.ExactlyOnceIffCurrent`. On a full ring a tail moved back
  makes the client's test for room underflow, and frames are lost:
  `TxRing.FullRingLosesAFrame`. While copies are made in time, none is lost, and the
  client can keep writing, if and only if no published tail is more than one capacity behind
  the head: `TxRing.SafeIffWithinCapacity`.
- An SLCAN drain whose batch overflows moves the tail past the frame that does not fit
  (`usb_can_driver/codecs/slcan_codec.h:134-144`), so a successful send loses it:
  `SlcanDrain.NothingLostIffBatchFits`, for instance `SlcanDrain.ThirtyLongFramesLoseOne`.
- SLCAN frames whose FD length is not one of the DLC table's do not survive the round
  trip: `Slcan.RoundTripIffCanonical`, for instance `Slcan.FdLength10IsRejected`.
- A message 1000 or more behind is counted as received and as a gap:
  `SequenceMetrics.LawHoldsIffNoneVeryLate`, for instance
  `SequenceMetrics.VeryLateMessageBreaksLaw`.
- The PCAN search divides by zero for bit rates that are positive multiples of 2^22:
  `BitTiming.DividesByZeroIff`, for instance `BitTiming.DividesByZeroAt4194304`.
- Registering a reader and opening a channel zero a FIFO's counters while other threads use
  them. During an offer the reader can be given old packets,
  `FifoRace.StaleHeadDeliversOldPacket`; between a reader's copy and its store of tail 2047
  empty slots appear, `FifoRace.OpenDuringReadFillsFifo`; overlapping openings deliver a packet
  twice, `FifoRace.OverlappingOpensDeliverTwice`. The FIFO stays right if and only if every
  step meets its guard, `FifoRace.RightIffStepsMeet`; clean resets are enough,
  `FifoRace.TakenIsPrefixOfAccepted`.
- A transmit drain that copies late sends bytes of other entries,
  `TxRing.LateCopySendsForeignFrame`; copies made in time are the client's frames,
  `TxRing.WireIsFromLog`.
- gs_usb echo ids run through 0xFFFFFFFF, whose echo is decoded as a received frame, so that its
  place is not freed: `GsUsb.EchoIsRecognisedIff`.
- A Close aborts the pending completion (`usb_can_driver/usb_can_user_client.cpp:190-195`) before
  it refuses calls, so that a call on its way can store one behind it, which is then held and
  told nothing: `WakeupClose.CloseDuringWaitHoldsCompletion`. Without such a call nothing is
  left: `WakeupClose.CloseLeavesNothingPending`.
- The gs_usb search loses its sample point where three times the quanta exceed 32 bits:
  `GsUsbTiming.WrappedQuantaSampleEarly`; below that, with bounds that add up to less than 2^32,
  it keeps it: `GsUsbTiming.SamplePoint`.
- The dual-endpoint drain is said to prefer busy over success
  (`usb_can_driver/usb_can_driver.cpp:1265`) but reports success: `PcanTx.CombinedIsFirstError`.
- The wrap-around loop in the slot search never finds a slot: `RxSlots.Reader.FindFreeRun`.

## Model

| member | source | states |
|---|---|---|
| `SpscRing.DrainedIsPrefixOfAccepted` | can_client/shared_ring_io.h:19-49 | in every interleaving of single-byte stores, head publishes, byte reads and tail publishes, the packets the client has drained are a prefix, in order and unaltered, of those the driver accepted |
| `SpscRing.NoUnfreedByteOverwritten` | can_client/shared_ring_io.h:27-46 | no step changes a byte between the published tail and the published head; a byte is overwritten only after the tail that covers it was published |
| `SpscRing.NothingLostAtRest` | can_client/can_client.cc:263-331 | with both threads idle and the ring empty, everything accepted has been drained |
| `SpscRing.DropsOnlyWhenFull` | can_client/shared_ring_io.h:27-32 | the driver drops a frame only if fewer than one entry's bytes are free, counted from the published tail, although the counters wrap at 32 bits |
| `SpscRing.StepRefinesQueue` | can_client/shared_ring_io.h:19-49 | the ring is a plain packet queue: the head publish appends the packet written, handing on takes the first packet, and no other step changes what was accepted or drained |
| `SpscRing.SkipNeverHappens` | can_client/can_client.cc:286-290 | the client's skip of an entry of invalid size is never taken: it can never see a half-written or foreign entry |
| `SpscRing.StepKeepsInv` | can_client/can_client.cc:263-331 | the invariant that ties counters, published entries, the half-written entry and the half-read buffer together survives every step of either thread |
| `RingWindow.CounterIndex` | can_client/shared_ring.h:44-46 | because the capacity divides 2^32, the wrapped counter selects the same ring byte as the unbounded position |
| `RingWindow.CounterDistance` | can_client/shared_ring_io.h:27-27 | the wrapping difference of head and tail is the number of bytes between them |
| `RingWindow.StoreNext` | can_client/shared_ring_io.h:34-45 | a store behind the used stretch appends one byte to it and changes nothing before it, as long as there is room |
| `RingEntry.ParseRxFirst` | can_client/can_client.cc:274-327 | the client parses an RX entry that the driver wrote to the packet that was written, whatever follows it |
| `RingEntry.ParseTxFirst` | can_client/shared_ring_io.h:65-110 | the driver parses a TX entry that the client wrote to the frame that was written, whatever follows it |
| `RingEntry.EntryLayout` | can_client/shared_ring_io.h:34-45 | an entry is its size 72, least significant byte first, in an RX entry the eight bytes of the time stamp, and the 72 bytes of the frame |
| `RingEntry.ParseTxCases` | can_client/shared_ring_io.h:65-110 | what the driver makes of an announced size: 16 is a classic frame, 72 any frame, every other size is dropped whole |
| `RingEntry.ParseTxIncomplete` | can_client/shared_ring_io.h:65-80 | an entry whose announced bytes are not all there is left alone |
| `RingEntry.ParseRxCases` | can_client/can_client.cc:274-327 | the same for the client, with the eight bytes of time stamp that the size does not count, and the channel kept in classic frames |
| `RingEntry.ParseRxIncomplete` | can_client/can_client.cc:274-290 | an RX entry whose announced bytes are not all there is left alone |
| `CanFrame.FrameBytesRoundTrip` | protocol/can.h:54-61 | a frame is recovered from its 72 bytes |
| `CanFrame.FrameLayout` | protocol/can.h:44-61 | where the fields stand in the 72 bytes, and the weight of every identifier byte |
| `CanFrame.ClassicRoundTrip` | protocol/can.h:44-52 | a classic frame survives in the first 16 of its 72 bytes, with its channel or without |
| `CanFrame.DlcTable` | protocol/can.h:71-85 | the sixteen lengths that DLC values stand for |
| `CanFrame.LenToDlc` | protocol/can.h:71-85 | the DLC chosen is the least whose length is at least the given one |
| `RingStream.DrainedRoundTrip` | can_client/can_client.cc:263-331 | draining the bytes of a queue of packets gives that queue and leaves nothing |
| `RingStream.DrainedSkips` | can_client/can_client.cc:286-290 | a drain passes an entry of invalid size whole and hands on all packets behind it |
| `RingStream.SkipsAll` | usb_can_driver/codecs/gsusb_codec.h:161-169 | any number of entries of invalid size before a queue of frames are passed, and counted once each |
| `RingIo.Ring.StoreBytes` | can_client/shared_ring_io.h:34-45 | the byte-by-byte store loop appends its bytes to the ring's contents, across the end of the region, and touches nothing outside the region |
| `RingIo.Ring.ReadTxEntry` | can_client/shared_ring_io.h:65-110 | reading at a local tail gives exactly the parse of the bytes from there to head: nothing, an entry of invalid size, or a frame |
| `RingIo.Ring.DrainEntries` | can_client/can_client.cc:263-331 | the drain loop hands on the packets of all complete entries in order, skips entries of invalid size, and publishes the tail behind them |
| `SharedRing.SharedRingHeader.constructor` | can_client/shared_ring.h:28-34 | the three rings lie side by side in one array, at 0, 262144 and 278528, and start empty |
| `SharedRing.SharedRingHeader.WriteRxFrame` | can_client/shared_ring_io.h:19-49 | accepts exactly if 82 bytes are free; then appends one entry to the RX bytes and counts it, else counts a drop; the TX rings keep their bytes |
| `SharedRing.SharedRingHeader.WriteTxFrame` | can_client/can_client.cc:341-382 | chooses the ring by channel, accepts exactly if 74 bytes are free, appends one entry there and leaves the other two rings alone |
| `SharedRing.SharedRingHeader.ReadTxFrame` | can_client/shared_ring_io.h:65-110 | the parse of the ring's bytes, with an entry of invalid size counted as dropped |
| `SharedRing.SharedRingHeader.DrainRxFrames` | can_client/can_client.cc:263-331 | packets and remaining bytes are the whole-stream parse of the RX bytes; both TX rings are unchanged |
| `SharedRing.TakeEntry` | usb_can_driver/codecs/pcan_codec.h:388-409 | taking the entry at the tail yields its frame if it has one and removes exactly that entry |
| `SharedRing.PerformAll` | can_client/shared_ring.h:28-34 | any sequence of receives, drains, sends and takes on the shared memory gives both consumers what three independent queues would |
| `SharedRing.QueuesDeliverAccepted` | can_client/shared_ring.h:12-34 | those queues deliver, per ring, exactly what was accepted, in order: given out followed by queued is accepted, in ring 1 the frames of channel 1 of an adapter with two channels and in ring 0 all others, while an RX ring of fewer than 3196 and a TX ring of fewer than 221 entries has room |
| `FlightWindow.FlightWindow.OnTxSent` | ican/perf/FlightWindow.hpp:30-32 | the head becomes one past the number sent; nothing else changes |
| `FlightWindow.FlightWindow.OnRxReceived` | ican/perf/FlightWindow.hpp:37-58 | a stale or reaped number is counted as such and ignored; any other sets its bit; the accounting invariant holds |
| `FlightWindow.FlightWindow.ReapAll` | ican/perf/FlightWindow.hpp:94-111 | the reap loop equals the specified harvest of all words outside the grace window and keeps the accounting invariant |
| `FlightWindow.FlightWindow.DeliveryRate` | ican/perf/FlightWindow.hpp:65-70 | after reaping, reports nothing exactly if nothing was ever reaped, else a confirmed total that never exceeds the total sent, which is the base |
| `FlightWindow.FlightWindow.Reset` | ican/perf/FlightWindow.hpp:73-83 | every field and every word returns to the fresh state |
| `FlightWindow.RunIsAccounted` | ican/perf/FlightWindow.hpp:22-111 | after any sequence of calls, with no assumption: confirmed plus set bits is at most accepted acknowledgements, confirmed is at most sent, sent is the base, and 64 divides the base |
| `FlightWindow.ReapRespectsGrace` | ican/perf/FlightWindow.hpp:97-110 | a reap moves the base by whole words, never to less than 8000 behind the head, and stops only when another word would come closer |
| `FlightWindow.HeadStaysInWindow` | ican/perf/FlightWindow.hpp:30-32 | if at most 8321 frames are sent between reaps, the head never passes the base by more than 16384 |
| `FlightWindow.RunIsExact` | ican/perf/FlightWindow.hpp:37-111 | if acknowledgements stay below base + 16384, the bitmap agrees with the set of acknowledged numbers on the window and the confirmed total is the number of distinct ones below the base, across wraps of the bitmap |
| `FlightWindow.AckAgreesIff` | ican/perf/FlightWindow.hpp:54-57 | an accepted acknowledgement keeps bitmap and totals in agreement with the set of acknowledged numbers if and only if it is below base + 16384 or its bit was set already |
| `FlightWindow.ReapAgreesIff` | ican/perf/FlightWindow.hpp:94-111 | a reap keeps the agreement if and only if none of the numbers it brings into the window was acknowledged before: their bits are cleared or were never theirs |
| `FlightWindow.AgreesIffHarmless` | ican/perf/FlightWindow.hpp:37-111 | bitmap and totals agree with the set of acknowledged numbers after every call of a run if and only if every call is harmless in these two senses |
| `FlightWindow.SentAcksAreInWindow` | ican/perf/FlightWindow.hpp:37-58 | under the sending bound, every acknowledgement of a sent frame is in the window, and is rejected exactly if its chunk was already harvested |
| `FlightWindow.AliasedAckIsMiscounted` | ican/perf/FlightWindow.hpp:54-57 | the window assumption is needed: an acknowledgement one capacity ahead is counted for a frame that was never acknowledged |
| `FlightRace.TotalsNeverOvercount` | ican/perf/FlightWindow.hpp:37-111 | with every atomic operation of the three threads a step of its own and no timing assumption, nothing is confirmed that was not received and never more than was sent |
| `FlightRace.AckAloneIsReceived` | ican/perf/FlightWindow.hpp:37-58 | the single steps of an acknowledgement, run without others between, do what the method of the class does |
| `FlightRace.ReapAloneIsChunk` | ican/perf/FlightWindow.hpp:100-110 | the single steps of one harvest, run without others between, are one round of the loop of the class |
| `FlightRace.TimelyRunIsExact` | ican/perf/FlightWindow.hpp:94-111 | if acknowledgements run while the sender is at most 8000 frames past them and they are within one capacity of the base, then nothing is rejected, and whenever the reaper is idle the confirmed total is the number of distinct acknowledged numbers below the base and the bitmap holds the rest |
| `FlightRace.StepAgreesIff` | ican/perf/FlightWindow.hpp:54-110 | in any interleaving, a step keeps the agreement if and only if it is no bit set outside the window (unless that bit was set and its number counted already) and no clear that brings an acknowledged number into the window |
| `FlightRace.AgreesIffHarmless` | ican/perf/FlightWindow.hpp:37-111 | a run agrees at every point if and only if every step is of that kind, with no assumption on timing or repetition |
| `FlightRace.AgreesIffBitsLandAhead` | ican/perf/FlightWindow.hpp:48-57 | for first acknowledgements within one capacity of the base, a run agrees at every point if and only if no bit is set in a word that is being harvested or behind it |
| `FlightRace.TimelyAckIsRecorded` | ican/perf/FlightWindow.hpp:37-58 | in such a run every acknowledgement that finishes has been added to the set |
| `FlightRace.LateAckIsLost` | ican/perf/FlightWindow.hpp:104-109 | the grace assumption is needed: a run in which a bit lands between the clear and the base update is lost and shows up one capacity later |
| `Wakeup.NoLostWakeup` | usb_can_driver/usb_can_user_client.cpp:249-297 | in every interleaving, a non-empty ring with a pending completion means the driver still owes a notify, or the call that stored the completion has its re-check ahead or has loaded the current head for it |
| `Wakeup.FiredExactlyOnceOrHeld` | usb_can_driver/usb_can_user_client.cpp:266-297 | every accepted completion fires at most once, and until then exactly one party holds it |
| `Wakeup.AtRestNobodyWaitsForNothing` | usb_can_driver/usb_can_driver.cpp:1094-1127 | once all calls have returned, each completion has fired exactly once or is the single pending one, and then the ring is drained |
| `WakeupStatus.StatusIsDeserved` | usb_can_driver/usb_can_user_client.cpp:256-297 | at every point of every run a completion was told it was aborted only if a later call's store replaced it or a Close swapped it out, and success only if its own call or a re-check saw head and tail differ or the driver took it after a publish; never both, and no completion has both causes |
| `WakeupStatus.AtRestStatusIsCause` | usb_can_driver/usb_can_user_client.cpp:256-297 | once all calls have returned, the completions told success are exactly those served, and the completions told aborted exactly those displaced |
| `WakeupClose.ClosedTakesNoCalls` | usb_can_driver/usb_can_user_client.cpp:186-200 | from the end of a Close to the next Open no call of WaitForData is accepted |
| `WakeupClose.CloseLeavesNothingPending` | usb_can_driver/usb_can_user_client.cpp:190-198 | if no call is about to store its completion when a Close exchanges the stored one, and none starts before the Close has refused further calls, nothing is pending until the next Open |
| `WakeupClose.CloseDuringWaitHoldsCompletion` | usb_can_driver/usb_can_user_client.cpp:190-198 | otherwise a completion may be stored behind the Close: a run ends closed, with every call returned, and a completion held that was told nothing |
| `TxDrain.AtLeastOnce` | usb_can_driver/codecs/pcan_codec.h:384-413 | on an append-only log, with any number of drains interleaved, every position below the published tail has been accepted by the pipe at least once |
| `TxDrain.ExactlyOnceIffCurrent` | usb_can_driver/codecs/pcan_codec.h:400-412 | transmission is exactly once and in order throughout a run if and only if every submit the pipe accepts is of a copy taken at the current tail |
| `TxDrain.SerialisedIsExactlyOnce` | usb_can_driver/usb_can_driver.cpp:1144-1171 | drains that do not overlap send the log prefix below tail once each and in order, whatever mix of busy, error and success the sends return |
| `TxDrain.FlagIsTruthful` | usb_can_driver/usb_can_driver.cpp:1150-1168 | at every point of every run the in-flight flag is set if and only if a drain has claimed the pipe and not let go of it or a transfer is outstanding, and never two of these at once: a failed submit and a completion free the pipe |
| `TxDrain.BusyDrainDoesNothing` | usb_can_driver/codecs/pcan_codec.h:382-390 | a drain that finds the flag set returns and changes nothing |
| `TxDrain.FailedDrainChangesNothing` | usb_can_driver/usb_can_driver.cpp:1165-1168 | a drain whose submit fails leaves log, tail, wire and flag as they were |
| `TxDrain.OverlapSendsTwiceAndMovesTailBack` | usb_can_driver/usb_can_driver.cpp:1226-1235 | overlapping drains do not: a run sends position 0 twice and moves the tail backwards |
| `TxRing.RunRefinesLog` | can_client/can_client.cc:358-377 | on the ring of 16384 bytes, with 32-bit counters, the client's wrapping test for room, and load of the tail and copy of the entry as separate steps, the drains do exactly what they do on the log as long as each copies while the client has written at most one capacity since the entry |
| `TxRing.WireIsFromLog` | usb_can_driver/codecs/pcan_codec.h:388-404 | then every frame on the wire is a frame the client wrote, from its own place |
| `TxRing.BelowTailIsAccepted` | usb_can_driver/codecs/pcan_codec.h:384-413 | then every entry below the published tail was accepted by the pipe at least once, under any overlap of drains |
| `TxRing.WithinRunsAreSafe` | usb_can_driver/codecs/pcan_codec.h:384-413 | then, if the tail is within one capacity of the head, every entry the client wrote was accepted at least once or waits unaltered in the ring |
| `TxRing.SafeIffWithinCapacity` | can_client/can_client.cc:361-365 | at every point of a run whose copies are made in time the client can go on writing without a frame being lost if and only if no published tail is more than one capacity behind the head |
| `TxRing.OverrunLosesEntries` | can_client/can_client.cc:363-365 | behind such a tail the test for room accepts every frame, and after 222 more the client has overwritten one that nobody has read |
| `TxRing.FullRingLosesAFrame` | can_client/can_client.cc:361-377 | a run with a full ring and one late drain: the client writes over a frame, the drains pass its bytes, and it is below the tail and was never sent |
| `TxRing.LateCopySendsForeignFrame` | can_client/shared_ring_io.h:89-93 | a run in which a drain loads the tail and copies late: it sends bytes of other entries as a frame the client never wrote |
| `TxRing.SerialisedDrainsLoseNothing` | usb_can_driver/usb_can_driver.cpp:1144-1171 | drains that do not overlap are never late and never overrun the ring: what the pipe accepts is a prefix of what the client wrote, and everything else waits |
| `TxRing.CurrentRunsStayWithin` | usb_can_driver/codecs/pcan_codec.h:400-412 | if copies are made in time and every accepted submit is of a current copy, no published tail is more than one capacity behind |
| `RxSlots.Reader.SubmitPendingReads` | usb_can_driver/usb_can_driver.cpp:1010-1057 | only the first contiguous run of free slots is submitted, the slots the pipe takes and no others become in flight, and the count stays equal to the number in flight |
| `RxSlots.Reader.FindFreeRun` | usb_can_driver/usb_can_driver.cpp:1014-1033 | the search finds the first free run, as long as possible and within sixteen slots; its wrap-around loop adds nothing |
| `RxSlots.Reader.FreeCompleted` | usb_can_driver/usb_can_driver.cpp:1072-1115 | completed slots become free, each counted once |
| `RxSlots.Reader.ReadCompleteBundled` | usb_can_driver/usb_can_driver.cpp:1061-1122 | after a completion batch and its resubmit the count is still the number of slots in flight |
| `RxSlots.Reader.StopAsyncRead` | usb_can_driver/usb_can_driver.cpp:994-1006 | all slots are free and none is counted |
| `RxSlots.ReadingGoesOn` | usb_can_driver/usb_can_driver.cpp:1117-1122 | after a completion there is always something to submit, and an accepted resubmit leaves at least one read in flight |
| `RxSlots.MarkedCount` | usb_can_driver/usb_can_driver.cpp:1046-1050 | marking a run of slots changes the count by exactly the length of the run |
| `RxSlots.FirstFreeRunIsUnique` | usb_can_driver/usb_can_driver.cpp:1014-1033 | the run that may be submitted is determined by the slot states |
| `Slcan.Encode` | usb_can_driver/codecs/slcan_codec.cc:32-77 | writes exactly the line of the frame, or returns 0 if it does not fit |
| `Slcan.WriteDigits` | usb_can_driver/codecs/slcan_codec.cc:48-57 | the digit loop writes the hexadecimal digits of the number, most significant first |
| `Slcan.HexNumberRoundTrip` | usb_can_driver/codecs/slcan_codec.cc:20-30 | hexadecimal digits written are read back as the number |
| `Slcan.HexAlphabet` | usb_can_driver/codecs/slcan_codec.cc:20-23 | digits are written as 0 to 9 and A to F |
| `Slcan.HexValues` | usb_can_driver/codecs/slcan_codec.cc:25-30 | capital and small letters are read alike, and no other character is a digit |
| `Slcan.TextLayout` | usb_can_driver/codecs/slcan_codec.cc:32-77 | the characters of the line of any frame: type letter, three or eight digits that read as the masked identifier, DLC, two digits a byte, carriage return |
| `Slcan.DecodeLine` | usb_can_driver/codecs/slcan_codec.cc:79-127 | the decoder's loops compute the specified parse, including every way to reject a line |
| `Slcan.DecodesIffLine` | usb_can_driver/codecs/slcan_codec.cc:79-127 | the decoder accepts exactly the lines of a grammar stated without it |
| `Slcan.DecodedFields` | usb_can_driver/codecs/slcan_codec.cc:85-126 | what it makes of an accepted line, field by field and byte by byte |
| `Slcan.DecodeOfLine` | usb_can_driver/codecs/slcan_codec.cc:59-126 | what any frame becomes after encoding and decoding: nothing, if its DLC stands for more bytes than were written |
| `Slcan.RoundTripIffCanonical` | usb_can_driver/codecs/slcan_codec.cc:32-127 | a frame survives encoding and decoding unchanged if and only if it is canonical: masked identifier, flags 0 or FDF, a length its DLC stands for, zero padding, no channel |
| `Slcan.FdLength10IsRejected` | usb_can_driver/codecs/slcan_codec.cc:59-73 | an FD frame of length 10 is encoded to a line that the decoder rejects |
| `SlcanStream.LineAccumulator.ProcessByte` | usb_can_driver/codecs/slcan_codec.h:32-54 | one byte closes a line, is ignored, or is appended, with the line counters |
| `SlcanStream.LineAccumulator.ProcessBytes` | usb_can_driver/codecs/slcan_codec.h:31-55 | a chunk has the effect of its bytes one after another |
| `SlcanStream.LineAccumulator.Reset` | usb_can_driver/codecs/slcan_codec.h:57-62 | the accumulator is empty and its counters are zero |
| `SlcanStream.ChunkingIsIrrelevant` | usb_can_driver/codecs/slcan_codec.h:31-55 | however a byte stream is cut into transfers, frames and state are the same |
| `SlcanStream.EncodedFramesArrive` | usb_can_driver/codecs/slcan_codec.h:31-55 | the encodings of any canonical frames, cut into any chunks, come out as exactly those frames in order, with no failed line and an empty buffer |
| `SlcanStream.LineFeedIsIgnored` | usb_can_driver/codecs/slcan_codec.h:32-54 | a line feed changes nothing wherever it stands in a stream |
| `SlcanStream.BadLineFails` | usb_can_driver/codecs/slcan_codec.h:32-50 | a line outside the grammar hands on nothing and counts as one failed line; an empty line does not count |
| `SlcanStream.LongLineIsCut` | usb_can_driver/codecs/slcan_codec.h:50-54 | a line keeps its first 255 bytes |
| `SlcanDrain.DrainTx` | usb_can_driver/codecs/slcan_codec.h:117-163 | what is sent, what is left in the ring, and both counters are those of the specified batch; a failed send leaves the ring as it was; the other rings are untouched |
| `SlcanDrain.FillBatch` | usb_can_driver/codecs/slcan_codec.h:128-148 | the batch loop computes the specified batch from the ring's entries |
| `SlcanDrain.DrainOfQueue` | usb_can_driver/codecs/slcan_codec.h:117-163 | a successful drain of a queue sends the longest prefix whose text fits into 4096 bytes and moves the tail past that prefix and the first frame that does not fit |
| `SlcanDrain.InvalidEntryIsPassed` | usb_can_driver/codecs/slcan_codec.h:129-135 | an entry of invalid size is passed and counted and changes nothing else of the batch |
| `SlcanDrain.NothingLostIffBatchFits` | usb_can_driver/codecs/slcan_codec.h:134-144 | no frame is lost if and only if all pending encodings fit into 4096 bytes; otherwise exactly one is, the first that does not fit |
| `SlcanDrain.ThirtyLongFramesLoseOne` | usb_can_driver/codecs/slcan_codec.h:134-144 | thirty frames of 139 characters fit into the ring; one drain sends 29 and removes all 30 |
| `SlcanDrain.DrainedFramesArrive` | usb_can_driver/codecs/slcan_codec.h:117-172 | a queue of canonical frames that fits is received at the other end of the line exactly as it was queued |
| `PcanCodec.Codec.HandleMessage` | usb_can_driver/codecs/pcan_codec.h:440-462 | one message is counted in the one counter of its type or handed on as its frame |
| `PcanCodec.MessageTypes` | usb_can_driver/codecs/pcan_codec.h:440-462 | by their codes: an RX message of at least 28 bytes is an echo if its bytes 12 to 15 are 0D F0 A7 0C, and else its frame is handed on; 2, 3, 0x100 and 0x101 raise the error, status, calibration and overrun counters; nothing else hands on or counts anything |
| `PcanCodec.RxFieldsMean` | usb_can_driver/codecs/pcan_codec.h:466-506 | what the bytes and flag bits of an RX message mean: channel, length, FD flags, identifier, and a payload that is missing in a remote request |
| `PcanCodec.Codec.ProcessRxData` | usb_can_driver/codecs/pcan_codec.h:328-377 | frames, message count and all counters of a transfer are those of the specified parse |
| `PcanCodec.TransferIsItsMessages` | usb_can_driver/codecs/pcan_codec.h:335-357 | well-sized messages followed by a zero size or a truncated message, with at least a header's worth of bytes, are each handled once and in order, whatever stale bytes follow |
| `PcanCodec.ShortTransferIsItsMessages` | usb_can_driver/codecs/pcan_codec.h:341-341 | with less than a header behind the last message, all messages are handled if and only if the last begins at least twelve bytes before the end |
| `PcanCodec.MessagesAreConserved` | usb_can_driver/codecs/pcan_codec.h:440-462 | frames plus echo, overrun, calibration, error, status and ignored counts equal the messages parsed |
| `PcanCodec.CountersCount` | usb_can_driver/codecs/pcan_codec.h:446-461 | the receiver's 32-bit counters grow by exactly those counts |
| `PcanTx.EncodeTxFrame` | usb_can_driver/codecs/pcan_codec.cc:203-252 | writes exactly the padded message and its terminator, or returns 0 if the buffer is too small |
| `PcanTx.TxMessageIsTransfer` | usb_can_driver/codecs/pcan_codec.cc:213-251 | every message is a transfer of its own: a multiple of four bytes with its size, type 0x1000 and the echo tag least significant byte first, the payload from byte 20, and a zero size behind |
| `PcanTx.BusRoundTrip` | usb_can_driver/codecs/pcan_codec.h:466-506 | a frame sent in a TX message and reported in an RX message with the same fields decodes to its bus form |
| `PcanTx.BusTransfer` | usb_can_driver/codecs/pcan_codec.h:440-506 | end to end on bytes: a transfer that reports the frame of a TX message yields exactly its bus form, or exactly one echo and no frame if it carries the tag that the TX message had |
| `PcanTx.OnBusIsStable` | usb_can_driver/codecs/pcan_codec.cc:205-248 | the bus form of a bus form is itself |
| `PcanTx.OnBusMeans` | usb_can_driver/codecs/pcan_codec.cc:205-248 | the bus form by bits and bytes: channel modulo 16, 11 or 29 bits of identifier, the remote request of a classic frame, length, FD flags and payload |
| `PcanTx.DrainTxRing` | usb_can_driver/codecs/pcan_codec.h:382-413 | one entry is looked at; the tail moves past it only if its size is invalid or the send succeeded, and the counters say which |
| `PcanTx.DrainBothRings` | usb_can_driver/usb_can_driver.cpp:1245-1269 | each channel's ring is drained on its own, and the first error is reported |
| `PcanTx.CombinedIsFirstError` | usb_can_driver/usb_can_driver.cpp:1265-1268 | success unless a ring failed, then the first failure; busy is no failure |
| `PcanTx.DrainOfInvalid` | usb_can_driver/codecs/pcan_codec.h:390-397 | an entry of invalid size is dropped and nothing sent; an incomplete one stays |
| `PcanTx.DrainOfQueue` | usb_can_driver/codecs/pcan_codec.h:390-412 | a drain of a queue sends the message of its first frame, and removes that frame exactly if the pipe accepts it |
| `PcanTx.QueueIsSentOnceInOrder` | usb_can_driver/codecs/pcan_codec.h:382-413 | over any sequence of answers of the pipe, drains of the bytes of a queue send the messages of its first frames, once each, in order and one per success, and leave the bytes of the others in the ring |
| `BitTiming.CalculateBitTiming` | usb_can_driver/codecs/pcan_codec.cc:104-134 | returns the least prescaler for which some number of quanta gives the rate, and fails if and only if there is none; a wrapped 32-bit product never passes |
| `BitTiming.DivisionsAreExact` | usb_can_driver/codecs/pcan_codec.cc:111-124 | the two divisions of the search test precisely the division-free relation between clock, rate, prescaler and quanta |
| `BitTiming.TimingIsSound` | usb_can_driver/codecs/pcan_codec.cc:115-129 | prescaler and segments are in bounds, the jump width is the second segment but at most 4, the rate is right to the last bit per second, and the sample point is at three quarters |
| `BitTiming.ExactDivisionIsFound` | usb_can_driver/codecs/pcan_codec.cc:122-124 | a prescaler that divides the clock exactly with 3 to 343 quanta passes |
| `BitTiming.DividesByZeroIff` | usb_can_driver/codecs/pcan_codec.cc:111-113 | for a positive rate, the search comes to a prescaler whose 32-bit product is zero if and only if the rate is a multiple of 2^22: no smaller prescaler passes first; the search's precondition excludes exactly these |
| `BitTiming.DividesByZeroAt4194304` | usb_can_driver/codecs/pcan_codec.cc:111-113 | at 4194304 bit/s the search comes to prescaler 1024 and divides by zero |
| `BitTiming.WriteBitTiming` | usb_can_driver/codecs/pcan_codec.cc:147-168 | the command carries a timing for the rate that the device reads back unchanged, or is a NOP if and only if there is none |
| `BitTiming.MasksLoseNothing` | usb_can_driver/codecs/pcan_codec.cc:157-164 | the field masks of the command lose no bit of a timing within bounds |
| `BitTiming.CommandBytes` | usb_can_driver/codecs/pcan_codec.cc:147-164 | the bytes of both commands: opcode and channel, error limit 96, every field less one |
| `GsUsbTiming.FindBitTiming` | usb_can_driver/codecs/gsusb_codec.cc:222-265 | the search ends; it returns the first prescaler of the device's progression that passes, fails if and only if none does, and what it returns samples at three quarters of the bit or at the device's bound |
| `GsUsbTiming.SegmentsAreSound` | usb_can_driver/codecs/gsusb_codec.cc:237-248 | both segments are within the device's bounds and the rate is exact; a second segment that wrapped below zero is rejected whenever the bounds add up to less than 2^32 |
| `GsUsbTiming.PassesIff` | usb_can_driver/codecs/gsusb_codec.cc:237-248 | a prescaler is passed over if and only if the rate is not exact or the segments, the first at three quarters of the quanta or at the device's bound nearest to that, leave the bounds |
| `GsUsbTiming.SamplePoint` | usb_can_driver/codecs/gsusb_codec.cc:237-248 | a timing returned samples at three quarters of the bit, or its first segment is at a bound that keeps it from there |
| `GsUsbTiming.WrappedQuantaSampleEarly` | usb_can_driver/codecs/gsusb_codec.cc:237-238 | where three times the quanta exceed 32 bits the sample point is lost: a bit sampled at its start |
| `GsUsb.EncodeTxFrame` | usb_can_driver/codecs/gsusb_codec.cc:64-93 | writes exactly the host frame, or returns 0 if it does not fit |
| `GsUsb.HostFrameRoundTrip` | usb_can_driver/codecs/gsusb_codec.cc:20-93 | under echo id 0xFFFFFFFF every frame decodes to its normal form, whatever follows it in the transfer; under any other echo id the transfer is an echo |
| `GsUsb.HostFrameBytes` | usb_can_driver/codecs/gsusb_codec.cc:64-93 | the bytes of a host frame: echo id, identifier, DLC, flags by their bits, payload from byte 12 |
| `GsUsb.TransferMeans` | usb_can_driver/codecs/gsusb_codec.cc:20-62 | what the bytes of a transfer mean: an echo unless the id is 0xFFFFFFFF, else a frame, field by field |
| `GsUsb.InvalidIffShort` | usb_can_driver/codecs/gsusb_codec.cc:20-30 | a transfer is rejected if and only if it is shorter than the frame it announces |
| `GsUsb.EchoIsRecognisedIff` | usb_can_driver/codecs/gsusb_codec.h:221-221 | the echo of the n-th frame since a reset is taken for an echo if and only if the 32-bit id counter did not stand at 0xFFFFFFFF; else it is decoded as a received frame |
| `GsUsb.NormalIffUnchanged` | usb_can_driver/codecs/gsusb_codec.cc:38-59 | the frames that come back unchanged are exactly those with a valid length, only FD flags, a zero channel and zero padding |
| `GsUsb.NormalIsNormal` | usb_can_driver/codecs/gsusb_codec.cc:76-90 | normalising twice changes nothing |
| `GsUsbFlow.Codec.DrainTx` | usb_can_driver/codecs/gsusb_codec.h:151-191 | busy at ten in flight; otherwise entries of invalid size are passed and the first frame is sent under the next echo id; tail and in-flight count move only on success |
| `GsUsbFlow.Codec.CheckStall` | usb_can_driver/codecs/gsusb_codec.cc:99-116 | starts the stall timer at the limit and frees one place exactly if the stall is older than 200 ms |
| `GsUsbFlow.Codec.ProcessRxData` | usb_can_driver/codecs/gsusb_codec.h:194-204 | an echo frees a place, ends the stall and asks for a drain; a frame is handed on; nothing else changes |
| `GsUsbFlow.Codec.ResetEcho` | usb_can_driver/codecs/gsusb_codec.h:228-228 | no frame is in flight, no stall is timed, and echo ids start over |
| `GsUsbRuns.FlowIsAccounted` | usb_can_driver/codecs/gsusb_codec.h:220-228 | after any run at most ten are in flight, exactly those accepted and neither echoed nor released since the last reset, and a stall is timed only at ten |
| `GsUsbRuns.TenSendsFit` | usb_can_driver/codecs/gsusb_codec.h:220-222 | ten sends fit without an echo, and no more |
| `GsUsbRuns.Perform` | usb_can_driver/codecs/gsusb_codec.h:150-204 | every drain, transfer, timer tick and reset of the codec is a step of the run model, or none |
| `GsUsbRuns.PerformAll` | usb_can_driver/codecs/gsusb_codec.h:150-228 | after any sequence of such calls on a new codec the flow-control fields are those of a run: at most ten in flight, and accounted for |
| `GsUsbRuns.ReleaseOnlyAfterTimeout` | usb_can_driver/codecs/gsusb_codec.cc:107-112 | a place is freed only if an earlier tick saw ten in flight, nothing was echoed since, and more than 200 ms have passed |
| `GsUsbRuns.StallIsReleased` | usb_can_driver/codecs/gsusb_codec.cc:99-116 | the first tick more than 200 ms after a tick that saw the limit frees a place, unless an echo, a reset or an earlier tick has done so |
| `SequenceMetrics.MetricsEngine.AddReceived` | ican/perf/MetricsEngine.cpp:92-129 | all counters after a message are those of the specified classification |
| `SequenceMetrics.SequenceWeights` | ican/perf/MetricsEngine.cpp:100-103 | the sequence number's eight bytes by their weights |
| `SequenceMetrics.BytesAreCounted` | ican/perf/MetricsEngine.cpp:94-95 | the byte counter is the sum of all payloads and four bytes each, modulo 2^32 |
| `SequenceMetrics.TotalsAreConserved` | ican/perf/MetricsEngine.cpp:113-127 | messages plus skipped numbers are the span of numbers up to the largest plus repeated, late and numberless messages |
| `SequenceMetrics.MaxIsMaximum` | ican/perf/MetricsEngine.cpp:125-127 | the running largest number is the maximum of the stream |
| `SequenceMetrics.CountersAreTotals` | ican/perf/MetricsEngine.cpp:92-129 | the 32-bit counters are the unbounded totals modulo 2^32, and the stored last sequence is the maximum seen |
| `SequenceMetrics.SequenceAccounting` | ican/perf/MetricsEngine.cpp:92-129 | received plus gaps equals span plus duplicates, out-of-order and numberless messages, plus two for each message that is 1000 or more behind |
| `SequenceMetrics.LawHoldsIffNoneVeryLate` | ican/perf/MetricsEngine.cpp:117-123 | on the 32-bit counters, whichever wrap, over fewer than 2^31 messages the conservation law holds if and only if no message is 1000 or more behind |
| `SequenceMetrics.VeryLateMessageBreaksLaw` | ican/perf/MetricsEngine.cpp:119-122 | numbers 1000 and then 0: two messages received and one gap, over a span of one |
| `FanOut.Client.constructor` | can_client/can_client.cc:160-161 | a new client has eight free slots, each with its own FIFO |
| `FanOut.ReaderSlot.Offer` | can_client/can_client.cc:207-216 | a packet enters the FIFO of an active reader of its channel unless 2047 packets wait there |
| `FanOut.ReaderSlot.Take` | can_client/can_client.cc:186-194 | the oldest packet leaves the FIFO |
| `FanOut.Client.FanOutPacket` | can_client/can_client.cc:205-218 | every reader is offered the packet, and no reader's outcome depends on another |
| `FanOut.Client.RegisterReader` | can_client/can_client.cc:163-176 | the first free slot starts empty on the channel; the other slots are untouched; -1 if there is none |
| `FanOut.Client.UnregisterReader` | can_client/can_client.cc:178-183 | the slot becomes inactive; a bad index changes nothing |
| `FanOut.Client.ReadPacket` | can_client/can_client.cc:186-194 | takes from the reader's own FIFO only |
| `FanOut.Client.ClearChannel` | can_client/can_client.cc:812-820 | opening a channel empties the FIFOs of its active readers and no others |
| `FanOutRuns.Perform` | can_client/can_client.cc:163-218 | every call of the client is a step of the run model |
| `FanOutRuns.NewClient` | can_client/can_client.cc:160-161 | a new client is the state the runs start from |
| `FanOutRuns.ReaderGetsWhatWasOffered` | can_client/can_client.cc:205-218 | packets read followed by packets waiting are a subsequence of those drained on the reader's channel since registration or reset, and all of them if and only if its FIFO was never full when one came |
| `FanOutRuns.OfferedIsHeard` | can_client/can_client.cc:320-323 | a reader of channel 1 is offered exactly the packets whose res0 is 1, a reader of channel 0 all others, in order, since its registration or reset |
| `FanOutRuns.PacketsAreOnChannel` | can_client/can_client.cc:320-323 | whatever a registered reader has read or has waiting carries res0 1 if it is on channel 1, and not if it is on channel 0 |
| `FanOutRuns.ReadersAreIndependent` | can_client/can_client.cc:185-218 | leaving out all reads of the other readers changes nothing for a reader |
| `FifoAlone.OfferAlone` | can_client/can_client.cc:205-218 | without interleaving, the single loads and stores of an offer do to the FIFO exactly what the offer of `FanOut` does in one piece |
| `FifoAlone.ReadAlone` | can_client/can_client.cc:186-194 | the same for a read: the oldest packet waiting is taken |
| `FifoAlone.RegisterAlone` | can_client/can_client.cc:163-176 | the same for a registration |
| `FifoAlone.OpenAlone` | can_client/can_client.cc:812-820 | the same for an opening of a channel: the FIFO is emptied if its reader is an active one of the channel, and left alone otherwise |
| `FifoRace.StepRightIff` | can_client/can_client.cc:163-218 | with every load and store of drainer, reader, registration and any number of channel openings a step of its own, a step keeps the FIFO right (taken is a prefix of accepted, and the rest waits) if and only if it meets its guard: head is published where it was loaded and with room, no waiting packet is overwritten, the reader took the packet at tail, and tail is zeroed once per zeroed head |
| `FifoRace.RightIffStepsMeet` | can_client/can_client.cc:163-218 | in any interleaving the FIFO is right at every point if and only if every step meets its guard |
| `FifoRace.TakenIsPrefixOfAccepted` | can_client/can_client.cc:163-218 | the guards are met while head is zeroed only when the drainer holds no head and nobody reads, and nobody starts to read during a reset: then what a reader takes is a prefix, in order and unaltered, of what was accepted since |
| `FifoRace.ResetDuringOfferIff` | can_client/can_client.cc:169-170 | a registration that zeroes both counters while the drainer is about to publish leaves the FIFO right if and only if head was zero anyway |
| `FifoRace.StaleHeadDeliversOldPacket` | can_client/can_client.cc:163-176 | a reader that registers during an offer to the slot's previous reader is given a packet of the other channel from before its registration |
| `FifoRace.OpenDuringReadFillsFifo` | can_client/can_client.cc:812-820 | a channel opened between a reader's copy and its store of tail leaves 2047 slots waiting that hold no packet of the session |
| `FifoRace.OverlappingOpensDeliverTwice` | can_client/can_client.cc:812-820 | two overlapping openings of a channel deliver a packet twice |

## Left out

- Checks for a missing or unrecognised shared header and for null buffers: the model's header and rings always exist.
- C++ memory ordering: every load, store and atomic operation is one sequentially consistent step.
- DriverKit, IOKit and USB calls, interface discovery, control requests, object retain and release: their result codes are parameters.
- The 64-bit wrap of sequence numbers in the delivery tracker: numbers are unbounded there; its delivery percentage is given as the two totals it is formed from.
- The tracker's bitmap words are sets of bit positions instead of 64-bit integers.
- A 16-byte ring entry whose length field exceeds 8: the source copies past the entry's payload; the model copies 8 bytes. No producer in the repository writes such entries.
- Slcan.Encode: on a buffer of 8 or 9 bytes and an extended frame the source writes the header past the end before it tests for room; the model requires a buffer that holds the header, as the only caller's 256 bytes do.
- SLCAN `drainTx` when an encoding is empty, and PCAN or gs_usb `drainTx` when a frame cannot be encoded: unreachable, because every encoding fits its buffer.
- SlcanDrain.DrainTx: entries of invalid size in front of an empty or failed batch are counted again by the next drain, as in the source; single counting is not claimed.
- The single-endpoint fallback that drains the second ring's data through the first ring's counters (`usb_can_driver/usb_can_driver.cpp:1280-1288`): it has no ring contract.
- The debug snapshot and counter copies that the PCAN parser publishes into the shared header, and log output.
- PCAN and gs_usb channel open and close, filters and clock commands, SLCAN open, close and bit-rate commands: fixed byte strings.
- The ring reset in `StartIO` concurrent with a mapped client, several applications attached at once, completions that arrive after a stop: outside the environment assumed.
- TxRing.WithinRunsAreSafe: a drain's load of the head and its copy of one entry are one step, and so are the client's test for room, its stores and its publish; a copy torn between two of its bytes is not modelled.
- TxRing.SafeIffWithinCapacity: its converse assumes that no drain is so late that a 32-bit counter goes round.
- RxSlots.Reader.ReadCompleteBundled: the decoding of the completed buffers, the notify and the drain that follow the resubmit are modelled in the codecs, `Wakeup` and the drains.
- FanOutRuns.Perform: a client call is one step; the interleaving within calls is modelled for one slot, in `FifoRace`.
- Client-side write counters, identifier tracking, reader epochs and `readManyBlocking`'s waiting: scheduling and statistics without effect on the packets.
- GsUsbTiming.FindBitTiming: assumes a positive prescaler step and that neither the loop counter nor rate times prescaler exceeds 32 bits; the control request that follows is left out.
- SequenceMetrics.CountersAreTotals: assumes at most 2^32 messages, none behind by 2^63 or more and none numbered 2^64 - 1; beyond that the code starts over. The lemmas built on it assume the same.
- Dashboard statistics, sent and poll counters, per-second counters, wall-clock time, the user interface, build rules.
