# wil6210: protocols and rings of a 60 GHz driver

wil6210 is a Linux driver for an 802.11ad card. Between the kernel's interfaces and the
card's registers it runs a handful of small protocols whose correctness is not visible in any
one function. This project models them in Dafny and proves what they keep over whole runs.

- Receive reordering (`SeqNum`, `ReorderMachine`, `ReorderSession`, `ReorderRefinement`,
  `ReorderCorrectness`, `ReorderLossless`, `ReorderConservation`, `RxSession`). Frames with
  12-bit sequence numbers are put back in order by a fixed array of slots. The array is
  compared with a machine over unbounded numbers; the two agree on every session exactly for
  the sizes that divide 4096 and lie in 2..1024.
- Block-ack sessions (`BlockAck`, `BlockAckWorker`). Sessions are created, replaced and ended
  by requests, events and disconnects; no frame is lost or repeated on the way.
- Transmission (`TsoCut`, `TsoBounds`, `TxQueue`, `TxRuns`, `TxRing`). Packets are cut into
  descriptors of a circular buffer shared with hardware, each holding a reference to its
  packet. The cut is exact, references are conserved, and clean-up frees what is finished.
- Reception (`RxRing`, `RxVring`). Buffers are posted, filled by hardware and reaped, each
  passed on or freed once.
- Commands and events (`MailboxRing`, `WmiEvents`, `WmiMailbox`). Host and firmware exchange
  messages through rings with sync flags, in small interleaved steps; events reach their
  handlers exactly once, in order.
- Stations and their rings (`Stations`), interrupt masking (`Interrupts`) and remain-on-channel
  operations (`Offchannel`).

Where the driver changes objects in place there is a class whose methods run the same loops
and are tied to functions on values; the theorems are about those functions. `Wrappers`,
`Counting`, `Modular` and `CircularBuffer` hold what the others share.

Some properties one would expect are false of the code, and the project says exactly when
they hold:

- Window sizes reach the allocator unrounded (0..16 from requests, 1..255 from status events).
  Reordering is right for all sessions only for divisors of 4096 in 2..1024
  (`ReorderCorrectness.CorrectIffRightSize`).
- The frame exactly 2048 numbers ahead is accepted, although section 9.21.7.6.2 of IEEE Std
  802.11-2012 discards it (`SeqNum.RejectedMeansBehind`).
- That no frame comes before the one a window size behind it is not enough for lossless
  reordering (`ReorderLossless.SameResidueIsNotEnough`); `PerfectIffTimely` has the condition.
- The TSO cut is exact only if the linear part holds at most one segment beyond the headers
  (`TsoCut.CutExactIff`).
- A packet with payload in its linear part only can fill the last descriptor of the ring
  (`TxRuns.OverrunIff`).
- If hardware never marks segmentation headers, as a comment says, clean-up never passes one
  in any run (`TxRuns.UnmarkedHeaderBlocks`).
- A receive poll can unmask its interrupt with finished frames left behind
  (`RxRing.PollLeavesFramesIff`), and a reading of the mailbox that returns early leaves
  events; both lie there until the next frame or event, and in no other case
  (`Interrupts.ForgottenIff`, `WmiEvents.ForgottenIff`).
- Clean-up never frees the last finished descriptor, so a ring once used is not empty again
  before teardown (`TxRuns.LastFinishedIsKept`, `NeverEmptyAgain`).
- A granted window of 0 makes the next frame divide by zero, unless it is out of date
  (`BlockAckWorker.ZeroRequestFaults`); without such requests nothing does
  (`NoZeroRequestNoFault`).
- The connect worker does not notice that all rings are taken
  (`Stations.OneReconnectTooMany`); if stations are disconnected before they connect again they
  never are (`Stations.OrderlyRunsStayTame`).
- An interrupt for TX_DONE_N(0) without TX_DONE leaves the transmit source masked until the
  device is reset or its interrupts are enabled anew, and nothing else does
  (`Interrupts.ForgottenIff`, `RingZeroAloneSticks`). The receive source, of which only RX_DONE
  is unmasked, cannot get there (`MasksAreLifted`).

`dafny verify dfyconfig.toml` checks everything.

## Model

| member | source | states |
|---|---|---|
| `SeqNum.SeqLessMeaning` | Wigig_release_2.0.2/work/wil6210/rx_reorder.c:7-10 | Up to half a turn apart, the 12-bit comparison says "before" exactly for a distance of 1 to 2047; at 2048 neither number is before the other; reducing the arguments to 12 bits changes nothing |
| `SeqNum.RejectedMeansBehind` | Wigig_release_2.0.2/work/wil6210/rx_reorder.c:96-101 | The out-of-date test rejects exactly the numbers whose lifted value is behind the head, and the number exactly 2048 ahead is kept, where section 9.21.7.6.2 of IEEE Std 802.11-2012 discards it |
| `SeqNum.BeyondWindow` | Wigig_release_2.0.2/work/wil6210/rx_reorder.c:107-111 | For sizes 2..2048 the second test asks to move the window just for numbers beyond it (and for the head itself when the size is 2048), and the new head makes the number the last one in the window |
| `SeqNum.StepTowards` | Wigig_release_2.0.2/work/wil6210/rx_reorder.c:12-15 | Each increment brings a target less than half a turn ahead one closer; the release loop condition holds exactly at distances 1..2047 |
| `SeqNum.LiftUnique` | Wigig_release_2.0.2/work/wil6210/rx_reorder.c:96-98 | The integer a received number stands for is the only one congruent to it in [head - 2047, head + 2048] |
| `SeqNum.SlotOfLifted` | Wigig_release_2.0.2/work/wil6210/rx_reorder.c:22-25 | When the size divides 4096 the slot of a lifted number is its distance from `ssn` modulo the size, across every wrap |
| `SeqNum.WindowsInjectiveIffDivides` | Wigig_release_2.0.2/work/wil6210/rx_reorder.c:17-25 | For every size of at least 1: slots are distinct in every window of that many consecutive numbers, wherever it lies relative to `ssn`, if and only if the size divides 4096 |
| `ReorderMachine.ReceiveKeepsInv` | Wigig_release_2.0.2/work/wil6210/rx_reorder.c:96-139 | The unbounded reordering machine keeps its window invariant at every frame, and its head never goes back |
| `ReorderMachine.ReceiveOrdered` | Wigig_release_2.0.2/work/wil6210/rx_reorder.c:96-139 | What one frame releases lies in [old head, new head), strictly increasing, each frame under a number its own sequence number stands for |
| `ReorderMachine.ReceiveConserves` | Wigig_release_2.0.2/work/wil6210/rx_reorder.c:96-139 | One frame: received plus stored before equals released plus dropped plus stored after, for every frame identity |
| `ReorderMachine.RunOrdered` | Wigig_release_2.0.2/work/wil6210/rx_reorder.c:71-143 | Over any sequence of frames everything released is strictly increasing in lifted number, so nothing is delivered twice or out of order |
| `ReorderMachine.RunAndCloseOrdered` | Wigig_release_2.0.2/work/wil6210/rx_reorder.c:71-180 | The same, including what closing the session releases |
| `ReorderMachine.RunConserves` | Wigig_release_2.0.2/work/wil6210/rx_reorder.c:71-143 | Over any sequence of frames, each is released, dropped or still stored, exactly as often as it was received |
| `ReorderSession.ReleaseFramesReaches` | Wigig_release_2.0.2/work/wil6210/rx_reorder.c:47-58 | `wil_release_reorder_frames` runs exactly as many rounds as its target is ahead, and ends with the head there, when that is less than half a turn, and otherwise does nothing at all |
| `ReorderSession.ReorderReleaseMeasure` | Wigig_release_2.0.2/work/wil6210/rx_reorder.c:60-69 | `wil_reorder_release` lowers the stored count by exactly what it delivers and stops at an empty slot under the head |
| `ReorderSession.RxReorderAccounts` | Wigig_release_2.0.2/work/wil6210/rx_reorder.c:71-143 | For every buffer size, 0 included: a received frame that causes no fault is delivered, dropped or left in a slot exactly once, nothing stored is lost or repeated, and `stored_mpdu_num` stays the number of occupied slots |
| `ReorderSession.FaultsIff` | Wigig_release_2.0.2/work/wil6210/rx_reorder.c:107-116 | A frame makes the code divide by zero, in the release loop or for its own slot, exactly when the session has no slots and the frame is not behind the head |
| `ReorderRefinement.SlotInvariant` | Wigig_release_2.0.2/work/wil6210/rx_reorder.c:27-69 | An occupied slot i holds a frame whose lifted number is inside the window and whose `reorder_index` is i, and the head's slot is empty between calls |
| `ReorderRefinement.ReleaseFramesRefines` | Wigig_release_2.0.2/work/wil6210/rx_reorder.c:47-58 | The slot loop releases exactly what the machine holds below the target, in order, and leaves the rest |
| `ReorderRefinement.ReorderReleaseRefines` | Wigig_release_2.0.2/work/wil6210/rx_reorder.c:60-69 | The slot loop releases exactly up to the first missing number |
| `ReorderRefinement.MoveWindowRefines` | Wigig_release_2.0.2/work/wil6210/rx_reorder.c:107-112 | Making room for a frame beyond the window moves the unbounded head to max(head, number - size + 1) and releases what lies below |
| `ReorderRefinement.PlaceRefines` | Wigig_release_2.0.2/work/wil6210/rx_reorder.c:116-139 | Duplicate, direct delivery and store-then-release, all three branches, are one machine step: file the frame and release up to the first gap |
| `ReorderRefinement.RxReorderRefines` | Wigig_release_2.0.2/work/wil6210/rx_reorder.c:71-143 | One frame, sizes 2..2048 that divide 4096: the 12-bit slot array does what the unbounded machine does, with the same frames delivered and dropped |
| `ReorderRefinement.RunRefines` | Wigig_release_2.0.2/work/wil6210/rx_reorder.c:71-143 | Lockstep over any sequence of frames |
| `ReorderRefinement.EmptyMeansNothingStored` | Wigig_release_2.0.2/work/wil6210/rx_reorder.c:22-45 | All slots are empty exactly when the machine stores nothing |
| `ReorderRefinement.FreeRefines` | Wigig_release_2.0.2/work/wil6210/rx_reorder.c:171-180 | Freeing delivers all stored frames in increasing order and leaves every slot empty (sizes below 2048) |
| `ReorderCorrectness.SessionsAgree` | Wigig_release_2.0.2/work/wil6210/rx_reorder.c:71-180 | Whole sessions, allocation to freeing, with a size that divides 4096 and lies in 2..1024: code and machine deliver and drop the same frames, and no slot stays occupied |
| `ReorderCorrectness.SessionDelivers` | Wigig_release_2.0.2/work/wil6210/rx_reorder.c:71-180 | In such a session each frame is delivered or dropped exactly as often as it was received, in strictly increasing lifted order |
| `ReorderCorrectness.WrongWhenNotDividing` | Wigig_release_2.0.2/work/wil6210/rx_reorder.c:22-25 | For each size below 2048 that does not divide 4096 some session goes wrong: at the wrap a frame that was due is dropped |
| `ReorderCorrectness.WrongForOne` | Wigig_release_2.0.2/work/wil6210/rx_reorder.c:107-130 | With one slot, the frame 2048 ahead is delivered without moving the head past it, and an older one follows |
| `ReorderCorrectness.WrongForHalf` | Wigig_release_2.0.2/work/wil6210/rx_reorder.c:171-180 | With 2048 slots freeing releases nothing, so stored frames are lost |
| `ReorderCorrectness.CorrectIffRightSize` | Wigig_release_2.0.2/work/wil6210/rx_reorder.c:71-180 | Of all sizes 1..2048: every session is right if and only if the size divides 4096 and lies in 2..1024 |
| `ReorderLossless.OnTrackStep` | Wigig_release_2.0.2/work/wil6210/rx_reorder.c:96-139 | A frame less than a window ahead of the first gap leaves everything before the gap delivered in order, and everything else that came stored |
| `ReorderLossless.TimelyIsPerfect` | Wigig_release_2.0.2/work/wil6210/rx_reorder.c:96-139 | Any arrival order of consecutive frames in which none comes a full window or more ahead of one still to come is delivered in order, with no drop and nothing left |
| `ReorderLossless.DoomedStart` | Wigig_release_2.0.2/work/wil6210/rx_reorder.c:96-139 | A frame a full window or more ahead of the first gap costs a drop, a misplaced frame or a skipped one, whatever number its 12 bits are taken for |
| `ReorderLossless.UntimelyIsDoomed` | Wigig_release_2.0.2/work/wil6210/rx_reorder.c:96-139 | An untimely order is never made good by what arrives later |
| `ReorderLossless.PerfectIffTimely` | Wigig_release_2.0.2/work/wil6210/rx_reorder.c:96-139 | Delivery of a block is perfect if and only if the order is timely |
| `ReorderLossless.SessionPerfectIffTimely` | Wigig_release_2.0.2/work/wil6210/rx_reorder.c:71-143 | The same for the driver's 12-bit slot array, from allocation on |
| `ReorderLossless.SameResidueIsNotEnough` | Wigig_release_2.0.2/work/wil6210/rx_reorder.c:107-112 | That frame k never comes before frame k - size is not enough: the order 0, 2, 4, 1, 3 with two slots loses a frame |
| `ReorderConservation.RxReorderWithin` | Wigig_release_2.0.2/work/wil6210/rx_reorder.c:71-143 | Sizes 0..2047, dividing or not: each stored frame stays in its own slot, less than the size ahead of the head |
| `ReorderConservation.FreeLosesNothing` | Wigig_release_2.0.2/work/wil6210/rx_reorder.c:171-180 | Sizes 0..2047: freeing delivers each stored frame as often as it is stored and leaves none |
| `RxSession.TidAmpduRx.constructor` | Wigig_release_2.0.2/work/wil6210/rx_reorder.c:145-169 | A new session: all slots empty, head at `ssn`, nothing stored |
| `RxSession.TidAmpduRx.ReleaseFrame` | Wigig_release_2.0.2/work/wil6210/rx_reorder.c:27-45 | In place: slot emptied, frame handed on, count and head moved, nothing else |
| `RxSession.TidAmpduRx.ReleaseFrames` | Wigig_release_2.0.2/work/wil6210/rx_reorder.c:47-58 | The in-place loop runs as many rounds, and has the effect, that `ReleaseFramesReaches` and `ReleaseFramesRefines` are about |
| `RxSession.TidAmpduRx.Release` | Wigig_release_2.0.2/work/wil6210/rx_reorder.c:60-69 | The in-place loop has the effect of the release that `ReorderReleaseMeasure` and `ReorderReleaseRefines` are about |
| `RxSession.TidAmpduRx.Place` | Wigig_release_2.0.2/work/wil6210/rx_reorder.c:114-139 | In place: the step that `PlaceRefines` is about |
| `RxSession.TidAmpduRx.RxReorder` | Wigig_release_2.0.2/work/wil6210/rx_reorder.c:96-139 | In place, for any number of slots: the step that `RxReorderRefines` and `RxReorderAccounts` are about, or, exactly when it would divide by zero, nothing changed so far |
| `RxSession.TidAmpduRx.Free` | Wigig_release_2.0.2/work/wil6210/rx_reorder.c:171-180 | In place: the release that `FreeRefines` and `FreeLosesNothing` are about |
| `BlockAck.DoArrive` | Wigig_release_2.0.2/work/wil6210/rx_reorder.c:71-95 | One frame through the table of sessions: it is accounted for once, whether it has a session or not, and whether or not it causes a fault |
| `BlockAck.DoEndOrBegin` | Wigig_release_2.0.2/work/wil6210/rx_reorder.c:247-250 | Freeing or creating a session, of any size below 2048, loses and repeats no frame, and drops none |
| `BlockAck.RunAccounts` | Wigig_release_2.0.2/work/wil6210/rx_reorder.c:71-180 | Over any run of frames, replacements and disconnects, with any window sizes below 2048, every frame received is delivered once, dropped once, stored in one session or the cause of a division by zero |
| `BlockAck.EverythingComesOut` | Wigig_release_2.0.2/work/wil6210/rx_reorder.c:71-180 | From start to the end of all sessions, without a fault, each frame comes out exactly as often as it was received |
| `BlockAck.ArriveFaultsIff` | Wigig_release_2.0.2/work/wil6210/rx_reorder.c:96-116 | A frame faults if and only if its session has no slots and it is not behind the head |
| `BlockAck.NoFaults` | Wigig_release_2.0.2/work/wil6210/rx_reorder.c:96-116 | No run in which only sessions with slots begin ever faults |
| `BlockAck.NoSessionPassesAll` | Wigig_release_2.0.2/work/wil6210/rx_reorder.c:87-90 | As long as a place holds no session, all its frames go to the network stack, in the order they come, and none is dropped |
| `BlockAck.SessionAlone` | Wigig_release_2.0.2/work/wil6210/rx_reorder.c:71-143 | Whatever goes on at other places of the table, a session delivers and drops exactly what it would alone |
| `BlockAck.SessionInTable` | Wigig_release_2.0.2/work/wil6210/rx_reorder.c:71-180 | From the beginning to the end of a session in the table, with a size that divides 4096 and lies in 2..1024, what it delivers is what the reordering machine releases, in strictly increasing lifted order |
| `BlockAckWorker.Wil.constructor` | Wigig_release_2.0.2/work/wil6210/rx_reorder.c:71-95 | At the start no session exists and no request is queued |
| `BlockAckWorker.Wil.Receive` | Wigig_release_2.0.2/work/wil6210/rx_reorder.c:71-95 | A frame without a session goes straight to the stack and changes nothing else, one with a session through reordering; other sessions are untouched |
| `BlockAckWorker.Wil.BackHandle` | Wigig_release_2.0.2/work/wil6210/rx_reorder.c:207-251 | A request from an unknown or unconnected station, or one firmware refuses, changes nothing; otherwise the place of its station and traffic id holds the session asked for, of at most 16 slots, or none if memory is short, and no other place changes |
| `BlockAckWorker.Wil.Renew` | Wigig_release_2.0.2/work/wil6210/rx_reorder.c:247-250 | One place gets its new content, what it held is delivered, nothing else changes |
| `BlockAckWorker.ReadsWhatWasSent` | Wigig_release_2.0.2/work/wil6210/rx_reorder.c:215-250 | Round trip: station, traffic id, window and starting number are read from the fields of a request exactly as the peer put them in, for all values |
| `BlockAckWorker.RequestOpensSession` | Wigig_release_2.0.2/work/wil6210/rx_reorder.c:225-250 | An accepted request that finds memory leaves, in the place of its station and traffic id, an empty session that starts at the number it names, with as many slots as it asks for, at most 16 |
| `BlockAckWorker.RenewOutcome` | Wigig_release_2.0.2/work/wil6210/rx_reorder.c:247-250 | Ending a session delivers what it holds; what the place holds afterwards is the new one, if any; nothing else changes |
| `BlockAckWorker.LastRequestDecides` | Wigig_release_2.0.2/work/wil6210/rx_reorder.c:284-297 | Of several queued requests for one session the one that came last decides |
| `BlockAckWorker.Wil.BackWorker` | Wigig_release_2.0.2/work/wil6210/rx_reorder.c:268-297 | The worker handles all queued requests, first come first served, and leaves the queue empty |
| `BlockAckWorker.Wil.BaStatus` | Wigig_release_2.0.2/work/wil6210/wmi.c:601-643 | A block-ack status event for an unknown ring, an unknown station or a station not in use changes nothing; otherwise each of the 16 places of the station holds a new session of the agreed size, or none without agreement, size or memory, and no other place changes |
| `BlockAckWorker.Wil.RenewAll` | Wigig_release_2.0.2/work/wil6210/wmi.c:632-643 | The loop gives each of the 16 places its new content and changes no other |
| `BlockAckWorker.StatusOutcome` | Wigig_release_2.0.2/work/wil6210/wmi.c:632-643 | The steps of a status event leave in every place what the event says, drop nothing, and touch no other station |
| `BlockAckWorker.EventsPossible` | Wigig_release_2.0.2/work/wil6210/rx_reorder.c:207-251 | The handlers can be called in any order: their steps are always possible ones |
| `BlockAckWorker.NoZeroRequestNoFault` | Wigig_release_2.0.2/work/wil6210/rx_reorder.c:225-250 | In no run of the handlers from the start, in which every request asks for a window of at least 1, does a frame divide by zero |
| `BlockAckWorker.ZeroRequestFaults` | Wigig_release_2.0.2/work/wil6210/rx_reorder.c:225-250 | After an accepted request the next frame of the session divides by zero if and only if the request asked for a window of 0 and the frame is not behind the start it named |
| `BlockAckWorker.Wil.DisconnectCid` | Wigig_release_2.0.2/work/wil6210/main.c:67-71 | Disconnecting ends all sessions of the station and no other |
| `BlockAckWorker.StatusEndsAll` | Wigig_release_2.0.2/work/wil6210/main.c:67-71 | The steps of a disconnect empty exactly the 16 places of that station |
| `TsoCut.CutFragShape` | Wigig_release_2.0.2/work/wil6210/txrx.c:974-1021 | The inner loop sends exactly the bytes of the fragment, in order, keeps every completed group a full segment with its size written on its first descriptor, and opens no more descriptors than groups begun plus one |
| `TsoCut.CutIsExact` | Wigig_release_2.0.2/work/wil6210/txrx.c:947-1031 | With a linear payload of at most one segment: the data descriptors concatenate to exactly the payload, split into groups of one full segment each and a last one of 1..mss bytes, with EOP exactly on each group's last descriptor |
| `TsoCut.HeaderCovered` | Wigig_release_2.0.2/work/wil6210/txrx.c:932-945 | The first descriptor covers exactly the headers, for every packet and segment size |
| `TsoCut.CutExactIff` | Wigig_release_2.0.2/work/wil6210/txrx.c:926-1031 | Headers and payload are sent exactly if and only if the linear payload is at most one segment; a larger one makes the remaining length negative |
| `TsoBounds.DescriptorBudget` | Wigig_release_2.0.2/work/wil6210/txrx.c:965-1031 | A packet takes at most one descriptor for each non-empty piece plus one for each segment, and the counts announced by its groups add up to the total the header carries |
| `TsoBounds.AnnouncedSum` | Wigig_release_2.0.2/work/wil6210/txrx.c:977-980 | The group counts sum to the data descriptors plus one for the header |
| `TsoBounds.GroupNumber` | Wigig_release_2.0.2/work/wil6210/txrx.c:973-985 | There are exactly ceil(payload / mss) groups |
| `TsoBounds.DescriptorTypes` | Wigig_release_2.0.2/work/wil6210/txrx.c:1003-1025 | Of the data descriptors exactly the last has the last type, and the first of several the first type; the header is a transfer of its own |
| `TsoBounds.CutExactlyThere` | Wigig_release_2.0.2/work/wil6210/txrx.c:990-1021 | The payload is cut at the piece boundaries and the multiples of the segment size, and nowhere else |
| `TxQueue.ReleaseCounts` | Wigig_release_2.0.2/work/wil6210/txrx.c:1327-1333 | Releasing slots whose references are held takes exactly one reference per slot, from the right packets |
| `TxQueue.SegmentedSends` | Wigig_release_2.0.2/work/wil6210/txrx.c:926-1031 | The descriptors of a segmented packet with at most one segment in its linear part send its headers, once, and its payload, in order |
| `TxQueue.PlainSends` | Wigig_release_2.0.2/work/wil6210/txrx.c:1077-1136 | The descriptors of any other packet send its linear part and its fragments, in order; exactly the last one ends it, and each carries their number |
| `TxQueue.LastDone` | Wigig_release_2.0.2/work/wil6210/txrx.c:1268-1279 | The first pass finds the last descriptor marked done |
| `TxQueue.FirstStuck` | Wigig_release_2.0.2/work/wil6210/txrx.c:1281-1306 | The second pass stops at the first descriptor that ends an unfinished transfer |
| `TxRuns.OverrunIff` | Wigig_release_2.0.2/work/wil6210/txrx.c:900-910 | Exactly one shape of packet overruns the ring: TCP to be segmented, no fragments, payload in the linear part, one descriptor free (the room asked for is one, two are used) |
| `TxRuns.OverrunLoses` | Wigig_release_2.0.2/work/wil6210/txrx.c:1033-1034 | That overrun makes the full ring look empty, and its references are no longer accounted for |
| `TxRuns.EnqueueConserves` | Wigig_release_2.0.2/work/wil6210/txrx.c:943-1055 | An enqueue, plain or segmented, successful or failed at any mapping, keeps every packet's count equal to its callers' share plus its live slots |
| `TxRuns.StepGood` | Wigig_release_2.0.2/work/wil6210/txrx.c:1214-1234 | So does every step: arrival, send, broadcast copy, hardware completion, clean-up and teardown |
| `TxRuns.RunConserves` | Wigig_release_2.0.2/work/wil6210/txrx.c:871-1357 | Over every run that avoids that shape: counts are conserved and at most size - 1 descriptors are in the ring |
| `TxRuns.AfterTeardown` | Wigig_release_2.0.2/work/wil6210/txrx.c:115-158 | After any run and teardown, a packet is gone exactly when no caller holds it and it was not copied for broadcast |
| `TxRuns.SendOutcome` | Wigig_release_2.0.2/work/wil6210/txrx.c:1214-1234 | A packet for which there is no room stays with its caller and changes nothing; any other costs the caller one reference, and gets one for each descriptor it adds behind those in the ring |
| `TxRuns.CleanFreesFinished` | Wigig_release_2.0.2/work/wil6210/txrx.c:1265-1346 | If hardware marks ends of transfers in ring order, clean-up stops exactly at the last marked descriptor and frees descriptors of finished transfers only |
| `TxRuns.RunKeepsOrder` | Wigig_release_2.0.2/work/wil6210/txrx.c:1265-1346 | With such hardware this holds at every clean-up of every run |
| `TxRuns.CleanStopsBefore` | Wigig_release_2.0.2/work/wil6210/txrx.c:1301-1305 | Clean-up never gets past a descriptor that ends a transfer and is not marked |
| `TxRuns.UnmarkedHeaderBlocks` | Wigig_release_2.0.2/work/wil6210/txrx.c:939-945 | If hardware never marks segmentation headers, as the comment at line 945 has it, a header in the ring stays there in every run until teardown, and clean-up only frees what lies before it |
| `TxRuns.SegmentedPutsHeader` | Wigig_release_2.0.2/work/wil6210/txrx.c:936-945 | Every segmented packet that is accepted puts such a header into the ring |
| `TxQueue.CleanUpIsDone` | Wigig_release_2.0.2/work/wil6210/txrx.c:1265-1346 | A second clean-up right after the first frees nothing, although the descriptor at which the first one stopped may be finished |
| `TxRuns.LastFinishedIsKept` | Wigig_release_2.0.2/work/wil6210/txrx.c:1278-1279 | The last finished descriptor is not freed: over all runs without teardown its packet keeps that reference until hardware marks a descriptor further on |
| `TxRuns.NeverEmptyAgain` | Wigig_release_2.0.2/work/wil6210/txrx.c:1281-1346 | A ring that holds a descriptor once is never empty again before teardown |
| `TxQueue.SendingFreesNothing` | Wigig_release_2.0.2/work/wil6210/txrx.c:1265-1346 | Descriptors just sent give clean-up nothing to do |
| `TxRuns.CleanFallsShortIff` | Wigig_release_2.0.2/work/wil6210/txrx.c:1301-1305 | For any marking: clean-up falls short of the last marked descriptor exactly when an unfinished end of transfer lies before it |
| `TxRing.Vring.constructor` | Wigig_release_2.0.2/work/wil6210/txrx.c:73-113 | A new ring is an empty queue |
| `TxRing.Vring.AvailTx` | Wigig_release_2.0.2/work/wil6210/txrx.c:64-71 | Free descriptors: used + free = size - 1 |
| `TxRing.Vring.AdvanceHead` | Wigig_release_2.0.2/work/wil6210/txrx.c:52-55 | The head moves n places around the ring; reaching the tail makes the ring look empty |
| `TxRing.Vring.PutDesc` | Wigig_release_2.0.2/work/wil6210/txrx.c:754-776 | Writing a descriptor changes just that slot and takes one reference |
| `TxRing.Vring.CloseGroup` | Wigig_release_2.0.2/work/wil6210/txrx.c:977-982 | Completing a group marks its last descriptor and writes its size on its first |
| `TxRing.Vring.NextGroup` | Wigig_release_2.0.2/work/wil6210/txrx.c:975-985 | Completing a segment closes its group and begins another |
| `TxRing.Vring.NextPiece` | Wigig_release_2.0.2/work/wil6210/txrx.c:986-1018 | One more descriptor takes one reference and joins the open group |
| `TxRing.Vring.FillFrag` | Wigig_release_2.0.2/work/wil6210/txrx.c:974-1020 | The inner loop writes exactly the descriptors of the cut, one reference each, or gives up at the failing mapping or when the ring has no room, having written a prefix |
| `TxRing.Vring.FillHead` | Wigig_release_2.0.2/work/wil6210/txrx.c:930-969 | The header and the linear payload, or the header only when the second mapping fails |
| `TxRing.Vring.FillFrags` | Wigig_release_2.0.2/work/wil6210/txrx.c:971-1022 | The outer loop, likewise |
| `TxRing.Vring.FillEnd` | Wigig_release_2.0.2/work/wil6210/txrx.c:1023-1031 | The last group is completed, the last descriptor typed, the total written into the header |
| `TxRing.Vring.FillTso` | Wigig_release_2.0.2/work/wil6210/txrx.c:924-1031 | Success writes exactly the descriptors of the cut; failure has written fewer, and one reference for each |
| `TxRing.Vring.RollBackTso` | Wigig_release_2.0.2/work/wil6210/txrx.c:1038-1052 | Rollback gives back exactly one reference per descriptor written and leaves the live slots alone; the slots it gives back are those one further than the ones written, so the header keeps its slot |
| `TxRing.Vring.TxVringTso` | Wigig_release_2.0.2/work/wil6210/txrx.c:871-1055 | The circular buffer does what the queue of descriptors does, for every packet, failure and ring state; busy, rejected and accepted exactly when the source says so; a failed attempt leaves references and live slots as they were |
| `TxRing.Vring.FillPlain` | Wigig_release_2.0.2/work/wil6210/txrx.c:1082-1131 | Without segmentation: the descriptors written up to the first failing mapping |
| `TxRing.Vring.RollBack` | Wigig_release_2.0.2/work/wil6210/txrx.c:1151-1165 | Rollback visits exactly the slots written and gives back their references |
| `TxRing.Vring.TxVring` | Wigig_release_2.0.2/work/wil6210/txrx.c:1057-1168 | As `TxVringTso`, for packets not to be segmented |
| `TxRing.Vring.StartXmit` | Wigig_release_2.0.2/work/wil6210/txrx.c:1208-1234 | The caller's reference is dropped on success and on failure; the ring is busy, and the reference kept, exactly when the room asked for beforehand is missing |
| `TxRing.Vring.GoodIsBacked` | Wigig_release_2.0.2/work/wil6210/txrx.c:115-158 | What clean-up and teardown need of the references holds after every run that `RunConserves` covers |
| `TxRing.Vring.LastMarked` | Wigig_release_2.0.2/work/wil6210/txrx.c:1265-1279 | The first loop returns the index of the last marked descriptor |
| `TxRing.Vring.FreeSlot` | Wigig_release_2.0.2/work/wil6210/txrx.c:1308-1344 | Clearing a slot drops its packet's reference and touches no later slot |
| `TxRing.Vring.ClearFinished` | Wigig_release_2.0.2/work/wil6210/txrx.c:1281-1344 | The second loop clears exactly the descriptors before the first unfinished end of transfer |
| `TxRing.Vring.TxComplete` | Wigig_release_2.0.2/work/wil6210/txrx.c:1244-1357 | Clean-up takes exactly the finished prefix off the queue, drops its references, and returns how far the tail moved |
| `TxRing.Vring.VringFree` | Wigig_release_2.0.2/work/wil6210/txrx.c:115-141 | Teardown gives back every live slot's reference and leaves the ring empty |
| `RxRing.RefillKeeps` | Wigig_release_2.0.2/work/wil6210/txrx.c:435-457 | A refill posts min(free places, count, memory) fresh buffers behind those posted and keeps the account of all buffers |
| `RxRing.RefillBySize` | Wigig_release_2.0.2/work/wil6210/txrx.c:524-524 | A refill by the ring's size that finds memory leaves size - 1 posted |
| `RxRing.ReapKeeps` | Wigig_release_2.0.2/work/wil6210/txrx.c:335-429 | A reaped buffer is the oldest posted one and is passed on or freed, once |
| `RxRing.HandleKeeps` | Wigig_release_2.0.2/work/wil6210/txrx.c:494-524 | Handling keeps the account and passes on no more than the quota |
| `RxRing.HandleExactly` | Wigig_release_2.0.2/work/wil6210/txrx.c:494-523 | Handling passes to the stack exactly the finished frames at the head, in order, up to the quota; the refused one that ends it is freed, all others stay posted |
| `RxRing.LeadingMeans` | Wigig_release_2.0.2/work/wil6210/txrx.c:396-412 | Those frames are the ones that are finished and, outside sniffer mode, not refused; what stops them is not |
| `RxRing.HandleStops` | Wigig_release_2.0.2/work/wil6210/txrx.c:504-504 | Handling stops at the quota, with no finished descriptor left, or right after a refused frame |
| `RxRing.HandleCanStopEarly` | Wigig_release_2.0.2/work/wil6210/txrx.c:504-504 | A refused frame can end handling with a finished one waiting and the quota unused |
| `RxRing.PollLeavesFramesIff` | Wigig_release_2.0.2/work/wil6210/netdev.c:65-84 | A poll that ends the masked period leaves finished frames behind if and only if a refused frame was first or second with a finished one behind it |
| `RxRing.RefillKeepsReady` | Wigig_release_2.0.2/work/wil6210/txrx.c:435-457 | A refill neither adds finished frames nor hides them |
| `RxRing.TeardownKeeps` | Wigig_release_2.0.2/work/wil6210/txrx.c:141-151 | After teardown every buffer ever allocated was passed on or freed |
| `RxRing.RunKeeps` | Wigig_release_2.0.2/work/wil6210/txrx.c:335-457 | In every run of refill, hardware and handling: each buffer is reaped once or still posted, in ring order, never twice; those reaped were passed on or freed, each once |
| `RxVring.Vring.constructor` | Wigig_release_2.0.2/work/wil6210/txrx.c:73-113 | A new receive ring posts nothing |
| `RxVring.Vring.PostOne` | Wigig_release_2.0.2/work/wil6210/txrx.c:165-198 | One fresh buffer at the tail; the posted range [swhead, swtail) grows by it |
| `RxVring.Vring.RxRefill` | Wigig_release_2.0.2/work/wil6210/txrx.c:435-457 | In place: the refill of `RefillKeeps`; an error exactly when memory ends before room and count do |
| `RxVring.Vring.ReapRx` | Wigig_release_2.0.2/work/wil6210/txrx.c:335-429 | In place: the reaping of `ReapKeeps`; a frame is returned exactly when it was finished and not refused |
| `RxVring.Vring.PassOrFree` | Wigig_release_2.0.2/work/wil6210/txrx.c:358-416 | The oldest buffer leaves the ring, to the stack or freed |
| `RxVring.Vring.RxHandle` | Wigig_release_2.0.2/work/wil6210/txrx.c:494-523 | In place: the handling of `HandleKeeps` and `HandleStops`; the quota falls by the frames passed on |
| `RxVring.Vring.VringFree` | Wigig_release_2.0.2/work/wil6210/txrx.c:141-151 | In place: every posted buffer is freed, in ring order |
| `MailboxRing.ProducerKeeps` | Wigig_release_2.0.2/work/wil6210/wmi.c:197-247 | No producer step before the head moves changes what the ring holds, and flags mark exactly the posted entries |
| `MailboxRing.MoveHeadKeeps` | Wigig_release_2.0.2/work/wil6210/wmi.c:249-250 | Moving the head posts exactly the message written |
| `MailboxRing.ConsumerKeeps` | Wigig_release_2.0.2/work/wil6210/wmi.c:709-741 | No consumer step before the tail moves changes what the ring holds |
| `MailboxRing.MoveTailKeeps` | Wigig_release_2.0.2/work/wil6210/wmi.c:755-758 | Moving the tail takes exactly the first message, the one copied |
| `MailboxRing.StepKeeps` | Wigig_release_2.0.2/work/wil6210/wil6210.txt:238-266 | Every step of either side keeps flags, positions, copies in hand and histories consistent |
| `MailboxRing.RunKeeps` | Wigig_release_2.0.2/work/wil6210/wil6210.txt:238-266 | In every interleaving, what has been taken is a prefix of what was posted, each message once, and the ring never fills up |
| `MailboxRing.PostedSurvives` | Wigig_release_2.0.2/work/wil6210/wmi.c:197-256 | A posted message is never overwritten or moved until it is taken as the first one |
| `MailboxRing.AddressOfNext` | Wigig_release_2.0.2/work/wil6210/wmi.c:208-208 | The address computed for the next entry is an entry start inside [base, base + size) |
| `WmiEvents.RingStepKeeps` | Wigig_release_2.0.2/work/wil6210/wmi.c:692-758 | Ring steps of firmware and interrupt thread keep the line of events whole |
| `WmiEvents.LineStays` | Wigig_release_2.0.2/work/wil6210/wmi.c:760-769 | Outside the ring an event only changes hands |
| `WmiEvents.ActionKeeps` | Wigig_release_2.0.2/work/wil6210/wmi.c:692-773 | Every action keeps the line of events equal to the posted history, and a waiting event has somebody to look after it |
| `WmiEvents.RunKeeps` | Wigig_release_2.0.2/work/wil6210/wmi.c:692-773 | In every interleaving of firmware, interrupt thread and worker: handled events, the one being handled, the pending list, the one in the thread's hands and the ring concatenate to the posted history |
| `WmiEvents.FromTheStart` | Wigig_release_2.0.2/work/wil6210/wmi.c:760-769 | From an empty mailbox on, a non-empty pending list always has a worker queued or running |
| `WmiEvents.WorkDecreases` | Wigig_release_2.0.2/work/wil6210/wmi.c:1402-1414 | Every action of the driver brings it closer to being done |
| `WmiEvents.ForgottenStep` | Wigig_release_2.0.2/work/wil6210/wmi.c:704-736 | Events become unread with nobody to read them exactly by an early return of `wmi_recv_cmd` that leaves some with no new cause latched, and stop being so with the next post |
| `WmiEvents.ForgottenIff` | Wigig_release_2.0.2/work/wil6210/wmi.c:692-773 | Over all runs: events lie in the ring with no reading due or under way if and only if an early return left them there and nothing was posted since |
| `WmiEvents.ForgottenWaits` | Wigig_release_2.0.2/work/wil6210/interrupt.c:312-332 | Such events are handled in no run until firmware posts another one, since only a mailbox cause starts a reading |
| `WmiEvents.WorkIsPossible` | Wigig_release_2.0.2/work/wil6210/wmi.c:25-40 | While an event is unhandled, and the ring is empty or its reading due or under way, the driver can take a step |
| `WmiEvents.CanFinish` | Wigig_release_2.0.2/work/wil6210/wmi.c:25-40 | From every reachable state without forgotten events the driver alone can get every posted event handled |
| `WmiMailbox.HeadIsFree` | Wigig_release_2.0.2/work/wil6210/wmi.c:197-222 | With both sides at rest the head entry is never busy, and a full ring is one with a single entry left |
| `WmiMailbox.Posting` | Wigig_release_2.0.2/work/wil6210/wmi.c:197-250 | A send in one go is a run of the producer's steps |
| `WmiMailbox.Taking` | Wigig_release_2.0.2/work/wil6210/wmi.c:704-758 | A receive in one go is a run of the consumer's steps |
| `WmiMailbox.MboxRing.constructor` | Wigig_release_2.0.2/work/wil6210/wil6210.txt:245-250 | An empty ring |
| `WmiMailbox.MboxRing.AwaitRoom` | Wigig_release_2.0.2/work/wil6210/wmi.c:218-228 | A full ring is looked at up to five times; it is given up exactly if firmware takes no command before the last look |
| `WmiMailbox.MboxRing.Post` | Wigig_release_2.0.2/work/wil6210/wmi.c:242-250 | The command stands behind those already waiting |
| `WmiMailbox.MboxRing.Send` | Wigig_release_2.0.2/work/wil6210/wmi.c:163-257 | A refused command (too large, firmware not ready, garbage head, ring full at every look, garbage buffer) leaves head and commands as they were, but for those firmware takes meanwhile, and the code says why; an accepted one stands behind those still waiting |
| `WmiMailbox.Taken` | Wigig_release_2.0.2/work/wil6210/wmi.c:699-736 | A reading takes events up to the first whose header cannot be read or that finds no memory, and none before the reset is complete; it leaves some exactly if there is such a one among them |
| `WmiMailbox.MboxRing.TakeFirst` | Wigig_release_2.0.2/work/wil6210/wmi.c:704-758 | The first waiting event is taken, the others stay in order; with an unreadable header or no memory the ring stays as it is |
| `WmiMailbox.Events.RecvCmd` | Wigig_release_2.0.2/work/wil6210/wmi.c:692-773 | Waiting events become pending in order, up to the first that cannot be read or finds no memory; the rest stays in the ring; the worker is queued if any came; before the reset is complete nothing happens |
| `WmiMailbox.Events.EventWorker` | Wigig_release_2.0.2/work/wil6210/wmi.c:1402-1414 | All pending events are handled, in order |
| `Stations.FirstFree` | Wigig_release_2.0.2/work/wil6210/main.c:164-172 | The lowest ring that is not allocated |
| `Stations.FirstOwned` | Wigig_release_2.0.2/work/wil6210/txrx.c:669-682 | The lowest ring recorded for a station |
| `Stations.FindCid` | Wigig_release_2.0.2/work/wil6210/main.c:514-528 | The first station in use with that address, none if there is none |
| `Stations.WorkKeeps` | Wigig_release_2.0.2/work/wil6210/main.c:174-198 | Recording the lowest free ring for one station takes no live ring from another, and stale entries before it cannot mislead the lookup |
| `Stations.StepKeeps` | Wigig_release_2.0.2/work/wil6210/main.c:57-77 | Connect, connect worker (memory short, firmware refusing, success or no ring left) and disconnect keep: the first ring recorded for each connected station is allocated, unless the worker has gone on without a ring |
| `Stations.RunKeeps` | Wigig_release_2.0.2/work/wil6210/main.c:57-198 | So does every run, and the worker sets up a ring outside the table if and only if at some point it runs for a pending connection with every ring allocated and index -22 not looking like an allocated ring |
| `Stations.SomeFree` | Wigig_release_2.0.2/work/wil6210/main.c:164-172 | When each connected station has one ring and no other station has any, a ring is free |
| `Stations.OrderlyRunsStayTame` | Wigig_release_2.0.2/work/wil6210/main.c:174-198 | In every run in which each station is disconnected before it connects again, a ring is always free |
| `Stations.OneReconnectTooMany` | Wigig_release_2.0.2/work/wil6210/main.c:174-198 | 24 connections of one station without a disconnect take all rings, and the next one makes the worker go on with index -22 |
| `Stations.LookupFindsLiveRing` | Wigig_release_2.0.2/work/wil6210/txrx.c:659-685 | In every reachable state, a packet to a connected station with an address of its own finds a live ring recorded for that station, as long as the worker has not been left without a ring |
| `Stations.AddrIsLast` | Wigig_release_2.0.2/work/wil6210/wmi.c:476-482 | In every run the table has for each station in use the address with which it last connected |
| `Stations.PacketFindsStation` | Wigig_release_2.0.2/work/wil6210/txrx.c:659-685 | In every run a packet to the address with which a connected station last connected finds a live ring of that station, if no other station in use last connected with the same one and the worker has not gone astray |
| `Stations.AnyFreeRingIsNotEnough` | Wigig_release_2.0.2/work/wil6210/txrx.c:659-685 | Allocating some other free ring would break the lookup: a stale entry hides the live ring |
| `Stations.Wil.constructor` | Wigig_release_2.0.2/work/wil6210/main.c:200-209 | The tables start out zero, with every ring recorded for station 0 |
| `Stations.Wil.FindFreeVring` | Wigig_release_2.0.2/work/wil6210/main.c:164-172 | The loop returns the lowest free ring, -22 when there is none |
| `Stations.Wil.EvtConnect` | Wigig_release_2.0.2/work/wil6210/wmi.c:476-482 | In place: the station has the address, is about to connect, and is the one the worker is to serve |
| `Stations.Wil.ConnectWorker` | Wigig_release_2.0.2/work/wil6210/main.c:174-198 | In place, with all failures: the step `WorkKeeps` is about; a station ends up connected, with its ring allocated and recorded, or unused with no ring changed |
| `Stations.Wil.DisconnectCid` | Wigig_release_2.0.2/work/wil6210/main.c:57-77 | In place: status cleared, exactly the rings recorded for the station freed, their records kept |
| `Stations.Wil.FindStation` | Wigig_release_2.0.2/work/wil6210/main.c:514-528 | The loop finds the first match |
| `Stations.Wil.TxVringFor` | Wigig_release_2.0.2/work/wil6210/txrx.c:659-685 | The loops find the ring that `LookupFindsLiveRing` is about |
| `Interrupts.RxStepKeeps` | Wigig_release_2.0.2/work/wil6210/interrupt.c:83-119 | Every step, whatever hardware raises, keeps: RX_DONE is masked exactly while a receive poll is due, all other receive causes always |
| `Interrupts.StepKeeps` | Wigig_release_2.0.2/work/wil6210/interrupt.c:179-356 | Every step keeps the masks, the thread, the cause handed to it and the driver's note of the line consistent |
| `Interrupts.IsrMiscKept` | Wigig_release_2.0.2/work/wil6210/interrupt.c:297-301 | Causes waiting for the thread are never overwritten |
| `Interrupts.RunKeeps` | Wigig_release_2.0.2/work/wil6210/interrupt.c:179-460 | So does every run |
| `Interrupts.MasksAreLifted` | Wigig_release_2.0.2/work/wil6210/interrupt.c:364-460 | In every run: the receive source is never masked without a poll, the line and the Misc source are masked only while the thread is due to unmask them, and the branch that throws causes away is never entered |
| `Interrupts.PollRefills` | Wigig_release_2.0.2/work/wil6210/txrx.c:524-524 | Every receive poll fills the ring up again, given memory |
| `Interrupts.RxPollingEnds` | Wigig_release_2.0.2/work/wil6210/netdev.c:65-84 | Receive polling comes to an end within half as many polls as buffers are posted and lifts its mask, even if no memory is found |
| `Interrupts.TxPollingEnds` | Wigig_release_2.0.2/work/wil6210/netdev.c:86-112 | Transmit polling ends with the first poll if it frees at most one descriptor, else with the second, and lifts its mask |
| `Interrupts.StartInv` | Wigig_release_2.0.2/work/wil6210/interrupt.c:148-177 | As left by `wil6210_enable_irq`, everything holds and nothing is forgotten or stuck |
| `Interrupts.FramesStep` | Wigig_release_2.0.2/work/wil6210/netdev.c:65-84 | Finished frames become forgotten by exactly one kind of step, a poll that meets a refused frame too early with RX_DONE not latched, and stop being so by exactly one, the next RX_DONE |
| `Interrupts.EventsStep` | Wigig_release_2.0.2/work/wil6210/interrupt.c:312-339 | Events become forgotten exactly by a reading of the mailbox that returns early (reset not complete, unreadable header, no memory) with no new event latched, and stop being so with the next event |
| `Interrupts.StuckStep` | Wigig_release_2.0.2/work/wil6210/interrupt.c:211-242 | The transmit source becomes stuck exactly by an interrupt that finds TX_DONE_N(0) without TX_DONE, and stays so |
| `Interrupts.ForgottenIff` | Wigig_release_2.0.2/work/wil6210/interrupt.c:179-460 | Over all runs, with no assumption on what hardware raises: frames lie forgotten, events lie forgotten, or the transmit source is stuck, if and only if such a step happened and none that ends it came after |
| `Interrupts.ForgottenFromStart` | Wigig_release_2.0.2/work/wil6210/interrupt.c:148-177 | From there on such a step is the only way to get there |
| `Interrupts.DoneMakesWork` | Wigig_release_2.0.2/work/wil6210/txrx.c:1301-1305 | A transfer that hardware finishes in order gives clean-up something to do, unless its last descriptor is the first in the ring |
| `Interrupts.TxStepServed` | Wigig_release_2.0.2/work/wil6210/interrupt.c:211-242 | With hardware that sets TX_DONE with every reported transmit cause, a step leaves nothing to clean up unreported |
| `Interrupts.NoLostTxWakeup` | Wigig_release_2.0.2/work/wil6210/netdev.c:86-112 | Over all runs of such hardware: what clean-up of any ring could free has been reported or is about to be polled |
| `Interrupts.NoLostTxWakeupFromStart` | Wigig_release_2.0.2/work/wil6210/interrupt.c:148-177 | The same from the start on |
| `Interrupts.RingZeroAloneSticks` | Wigig_release_2.0.2/work/wil6210/interrupt.c:40-41 | TX_DONE_N(0), which the driver unmasks, is enough to get the transmit source stuck |
| `Interrupts.StuckFreesNothing` | Wigig_release_2.0.2/work/wil6210/interrupt.c:226-234 | Once it is stuck, no run frees a transmit descriptor |
| `Interrupts.DueIsServed` | Wigig_release_2.0.2/work/wil6210/interrupt.c:179-356 | For receive, transmit, mailbox and firmware errors: while something is reported, a driver step is possible that looks at the work, or tells user space of the error, or brings that nearer |
| `Interrupts.DueIsReached` | Wigig_release_2.0.2/work/wil6210/interrupt.c:179-356 | From every reachable state the driver alone gets to look at it, within a bounded number of steps |
| `Interrupts.WokenIff` | Wigig_release_2.0.2/work/wil6210/interrupt.c:264-310 | The Misc interrupt wakes the thread for every cause but FW_READY; for that alone it unmasks at once |
| `Interrupts.NextLowers` | Wigig_release_2.0.2/work/wil6210/interrupt.c:179-460 | Each step of the driver leaves less to do |
| `Interrupts.ComesToRest` | Wigig_release_2.0.2/work/wil6210/interrupt.c:179-460 | From every reachable state, unless hardware raises more, the driver comes to rest within a bounded number of steps: every cause acknowledged, every poll ended, the thread asleep and the line unmasked |
| `Offchannel.NextCookie` | Wigig_release_2.0.2/work/wil6210/offchannel.c:104-109 | A cookie is never 0, at the wrap of the 64-bit counter either |
| `Offchannel.NthCookieIs` | Wigig_release_2.0.2/work/wil6210/offchannel.c:104-109 | Cookies go round through all values but 0, one at a time, from any counter |
| `Offchannel.CookiesDiffer` | Wigig_release_2.0.2/work/wil6210/offchannel.c:104-109 | Any two operations less than 2^64 - 1 apart have different cookies |
| `Offchannel.StepKeeps` | Wigig_release_2.0.2/work/wil6210/offchannel.c:3-25 | Each operation keeps: a cookie is set exactly while one cancel work is outstanding, and notes are paired |
| `Offchannel.RunKeeps` | Wigig_release_2.0.2/work/wil6210/offchannel.c:84-144 | So does every run |
| `Offchannel.NotesPairUp` | Wigig_release_2.0.2/work/wil6210/offchannel.c:3-144 | In every run ready and expired notes strictly alternate with the same non-zero cookie, whatever the counter starts from |
| `Offchannel.Wil.PrepareRoc` | Wigig_release_2.0.2/work/wil6210/offchannel.c:84-144 | Busy changes nothing; failure only uses up a cookie; success sets it, queues one cancel work, and reports the operation ready unless it sends a frame |
| `Offchannel.Wil.RocCancelWork` | Wigig_release_2.0.2/work/wil6210/offchannel.c:3-25 | The operation is over: no cookie, one cancel work less, and user space is told its cookie expired unless it sent a frame |

## Left out

Reordering:

- BlockAck.RunAccounts: frames whose handling divides by zero are counted, but what the machine does after the first of them is not modelled.
- ReorderCorrectness.CorrectIffRightSize: sizes above 2048 are not treated, because no request reaches them; for size 0 see `ReorderSession.FaultsIff`.
- Sessions in the table of `BlockAckWorker` are values; that the table's pointers are never shared is not modelled. The object itself is `RxSession.TidAmpduRx`.
- The reorder lock, the request mutex and each handler are one step; a frame processed while its session is being freed is not modelled.
- `reorder_time` and the session timers, which nothing in these files reads, and allocation failure of a request.

Transmission:

- TxRing.Vring.RollBackTso: says which slots are given back, one further than the ones written (txrx.c:1041, compared with 1156), but has no DMA mappings to undo.
- DMA addresses and mapping kinds: the choice between single and page by raw index (txrx.c:131, 1160, 1326) is wrong for a packet that wraps around the ring.
- TxRuns.RunConserves: counts the first reference of a broadcast copy as kept for ever, because the copying loop never drops it (txrx.c:739-745).
- Which rings a broadcast goes to, and the rewriting of addresses in the copies.
- Several rings at once: `TxRing` is one ring; `Stations` knows of each ring only whether it is allocated.
- Queue stop and wake thresholds, statistics, checksum fields and the packing of descriptor bits.

Reception:

- Receive teardown takes the DMA address from the tail and the buffer from the head (txrx.c:142-146); only the buffers are modelled.
- Frame contents: a descriptor says only whether its frame is passed on or refused.

Mailbox:

- Matching replies to calls in `wmi_call`: a late reply can satisfy a later call with the same identifier.
- `wmi_event_flush`, the delays of a send, and message contents.
- Firmware posts an event and raises its interrupt in one step; a reading that finds the event before its interrupt is not told apart.
- WmiMailbox.MboxRing.Send: firmware acts only in the pauses, by taking commands; sends interleaved with it more finely are the steps of `MailboxRing`.

Stations:

- Stations.LookupFindsLiveRing: claims nothing once the worker has set up what lies at index -22; what that writes to is not modelled.
- Disconnecting by broadcast or unknown address, and a connect worker interrupted half way by a disconnect: each handler is one step.

Interrupts:

- Interrupts.ForgottenIff: hardware latches RX_DONE with every frame and the mailbox cause with every event, and is silent about masked causes; when interrupts are moderated is not modelled.
- Interrupts.NoLostTxWakeup: needs TX_DONE with every transmit cause that is unmasked; `Interrupts.ForgottenIff` has the rest.
- Reset and `wil6210_disable_irq` racing with handlers, and the mode with three interrupts.

Remain on channel:

- Firmware commands other than their outcome, durations and channels; `wil_cancel_roc`.

Not modelled at all, because it is plumbing between kernel, registers and user space: PCI
probing and reset sequences, debugfs, tracing and dumps, cfg80211 callbacks, beacon and key
handling, the radiotap header, and the shell and configuration files.
