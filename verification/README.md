# Reliable transfer over a lossy mesh: a verified model

The repository moves files from sensor nodes to a cloud service. A node cuts a file into
fragments, seven data fragments and one XOR parity to a group, and spreads them over up to four
exit nodes, each behind its own selective-repeat window. Exit nodes hand the fragments to a local
MQTT client and acknowledge them on the mesh; the cloud reassembles the file, rebuilding single
losses, and asks for what is missing. This project models that pipeline in Dafny, firmware (C++)
and cloud service (Go), together with the data structures it stands on, and proves what they are
for.

## Layout of the project

| file | what it models |
|---|---|
| `Bytes`, `Octets`, `Bitmap`, `Queues`, `Counting` | XOR algebra with zero padding, 16-bit fields, packed bitmaps, queue compaction, set sizes |
| `Layout` | numbering of data and parity fragments, payload of each number, progress figures |
| `FecEncoder`, `FecDecoder`, `NodeFecDecoder` | the node's incremental encoder, the cloud's decoder, the node's two-group decoder |
| `Assembly`, `Reassembler`, `EndToEnd` | what a set of deliveries amounts to, the cloud's reassembler, the round trip |
| `Rto`, `Sorting`, `SelectiveRepeat`, `ExitWindows` | retransmission timing, one sender window, the array of windows |
| `Custody`, `TransferEngine`, `Outside`, `OutOfWindow` | custody of fragments as a state machine, the engine that refines it, retransmissions of released numbers |
| `Election`, `LocalExit` | electing exits; the path of a node that is its own exit |
| `MqttClient` | an exit node's custody: queues, bitmaps, custody ACKs, replay on disconnect |
| `CloudReceiver` | the cloud's acknowledgements and bounded requests |
| `SdReadCache`, `BufferPool`, `EspNowTx` | the read cache, the lock-free buffer pool, the radio driver's transmit tokens |
| `RouteTable`, `Topology`, `UartIngest` | routes by serial number, the neighbor report on its way to the cloud, serial framing |

`dafny verify dfyconfig.toml` checks everything.

## How to read it

A class models an object that the source updates in place; its methods state their effect on an
abstract value (a map of pending fragments, a custody view, a set of received numbers), and the
lemmas about that value carry the whole-run results. Concurrent code (`BufferPool`, `EspNowTx`) and
the custody protocol are state machines over their steps.

Outcomes that the code does not control are parameters: what the transport or the MQTT client
answers, which reads of the file succeed (`Outcome`, `answer`, `msgIds`), what each seek and read
of the card delivers (`Access`, `Card`), the order and loss of packets. The contracts say what
follows from them, so that each send that could have happened did.

Assumed throughout: files of 1 byte to 10 MB (`flp-node/components/sdcard/sdcard.cpp:17`);
millisecond clocks that neither run backwards nor wrap; buffer allocation succeeds, except where
the source handles its failure; each call into the MQTT client, the engine and the route table is
atomic; memory is sequentially consistent.

## What the proofs brought to light

- The test for the end of a mesh upload ignores the redistribution queue, and once it has
  succeeded the queue is never served again (`TickMeshArq`). `DoneMeansDeliveredIffNothingWaits` is
  the exact condition, `DoneWithFragmentWaiting` a run that violates it.
- A parity rebuilt on the out-of-window path silently treats a failed read as an empty fragment.
  `FailedReadsHarmlessIff` says exactly when the parity is still right,
  `FailedReadSpoilsParity` is a group for which it is not.
- The free stack of the buffer pool has no version tag. A run with any number of threads keeps
  every slab in one place iff no acquire wins its exchange with an outdated successor
  (`BufferPool.EveryRun`); one acquirer at a time never does, two can (`TwoAcquirersBreak`). The
  firmware acquires from two tasks
  (`flp-node/components/espnow/espnow_transport.cpp:318`, `flp-node/components/lora/lora_transport.cpp:380`).
- The counter of received data chunks is not the number of buffer regions that already show the
  file: a region of zeros matches before its chunk arrives. The difference is the number of
  all-zero fragments not held (`CounterUnderstates`, `ZeroShowsBeforeItArrives`).
- `SdReadCache::open` refuses every file smaller than 32 KB (`ChooseCapacity`), although its
  comment promises a buffer of the file's size.
- A page loaded short by an incomplete read stays short until it is evicted, so a read from a
  healthy card can come back short: exactly when the window misses it and the cut lies inside it
  (`ShortIff`; `ShortPageStays` is such a run).
- A sequence number recovered by FEC before it arrives never reaches the cloud's receiver window
  (`HeardIffArrivedNew`), whose base waits for it for ever (`BaseWaitsForRecovered`) and is asked
  for after every cooldown (`BaseIsAskedFor`); completion is decided by the reassembler alone.
  `RecoveredIsNeverHeard` is such a session.
- The serial parser does not look again at a byte that fails as second sync byte. Frames behind
  noise without such a byte are recovered iff the noise ends in an even number of first sync
  bytes (`RecoveredBehindNoiseIff`); behind any noise, iff it splits into pieces each of which
  returns the parser to its start (`AlwaysRecoveredIffSettles`).
- Advertisements of different origins need not commute in the route table. Their arrival order
  does not matter iff one of them replaces all others and is replaced by none (`OrderFreeIff`).
- A refused custody ACK is lost when the MQTT task fills the ACK queue before it is put back:
  exactly when the ACKs of what it publishes leave no place and none of them is for the same
  number, never while ACKs and requests waiting fit the queue (`SendOneAckInterrupted`). `AckLost`
  is such a run.
- Transmit tokens are credited in the order of submission. A completion credits the pool of its
  own frame throughout a run iff the driver completes the classes in that order (`OwnPoolsIff`);
  `ReversedCompletion` shows what happens otherwise.
- Backpressure restarts the timer of a fragment without counting as a retry, so a later ACK of the
  first transmission yields a sample that is too short (`SampleIsRoundTripIff`, `PostponedSample`).
- The election keeps what is within two thirds of the best score (`WithinMarginIff`); the comment
  above it (`flp-node/components/mesh/transfer_engine.cpp:1136-1138`) speaks of twice as bad.

## Model

| member | source | states |
|---|---|---|
| `Custody.EveryRun` | flp-node/components/mesh/transfer_engine_arq.cpp:541-592 | over every run of first sends, ACKs, deaths and re-homings of up to four elected exits: single custody whenever an exit is alive, a waiting queue of at most 64 numbers per dead exit and at most 192 with a survivor |
| `Custody.SingleCustody` | flp-node/components/mesh/transfer_engine_arq.cpp:794-892 | in a state that satisfies the invariant with a survivor, each data number sent is in exactly one of: retired, one window of one exit, one position of the waiting queue |
| `Custody.StepKeeps` | flp-node/components/mesh/transfer_engine_arq.cpp:633-701 | every step of the protocol keeps the custody invariant |
| `Custody.FirstSendKeeps` | flp-node/components/mesh/transfer_engine_arq.cpp:633-701 | a first send keeps the invariant |
| `Custody.AckKeeps` | flp-node/components/mesh/transfer_engine_handlers.cpp:278-306 | an acknowledgement, expected or stray, keeps the invariant |
| `Custody.DieKeeps` | flp-node/components/mesh/transfer_engine_arq.cpp:794-892 | an exit death with its data numbers queued keeps the invariant, and the queue bound |
| `Custody.LastDieKeeps` | flp-node/components/mesh/transfer_engine_arq.cpp:817-821 | the death of the last exit, which gives its numbers up, keeps the invariant |
| `Custody.RehomeKeeps` | flp-node/components/mesh/transfer_engine_arq.cpp:544-590 | moving a waiting number into a window keeps the invariant |
| `MeshSender.TransferEngine.constructor` | flp-node/components/mesh/transfer_engine.cpp:383-458 | a new engine is idle and satisfies the session invariant |
| `MeshSender.TransferEngine.ResetSenderTransferState` | flp-node/components/mesh/transfer_engine.cpp:383-458 | ends a transfer whatever state it is in: nothing pending, waiting or retired |
| `MeshSender.TransferEngine.StartMeshTransfer` | flp-node/components/mesh/transfer_engine.cpp:603-760 | refused iff a transfer is under way or the node serves as an exit; otherwise a fresh session on the given file under a session number that is not zero, with exit timeout, cap, retransmission timeouts and floors as configured for the distance, in plain numbers |
| `MeshSender.TransferEngine.AcceptExits` | flp-node/components/mesh/transfer_engine.cpp:1192-1239 | the session starts from the initial custody state with all elected exits alive and heard of now |
| `MeshSender.TransferEngine.SelectMeshTarget` | flp-node/components/mesh/transfer_engine_arq.cpp:271-321 | the first of the exits with the highest weighted score among those eligible; none is returned iff the transfer is at its cap or no exit is eligible |
| `MeshSender.TransferEngine.RecomputeWeights` | flp-node/components/mesh/transfer_engine_arq.cpp:232-269 | new weights add up to one over the alive exits and are zero for the dead; a path no worse in round trip and loss gets no smaller weight; nothing changes without survivors |
| `MeshSender.TransferEngine.TotalMeshInflight` | flp-node/components/mesh/transfer_engine.cpp:113-121 | the sum of pending fragments over the elected windows |
| `MeshSender.TransferEngine.IndexForPeer` | flp-node/components/mesh/transfer_engine_handlers.cpp:402-412 | finds the exit with that address, or none iff there is none |
| `MeshSender.TransferEngine.IndexForSequence` | flp-node/components/mesh/transfer_engine_handlers.cpp:414-424 | finds a window that holds the number, or none iff no window holds it |
| `MeshSender.TransferEngine.HandleAck` | flp-node/components/mesh/transfer_engine_handlers.cpp:278-306 | retires exactly the acknowledged number from the window of the exit that sent the ACK, and stamps exactly that exit as heard of, if its window held the number; what the window measured is from the last start of the timer to now; ACKs of strangers change nothing |
| `MeshSender.TransferEngine.AcknowledgedExitSurvives` | flp-node/components/mesh/transfer_engine_arq.cpp:734-767 | an exit that acknowledged a number it held survives every health check until more than the timeout has passed since |
| `MeshSender.TransferEngine.HandleNack` | flp-node/components/mesh/transfer_engine_handlers.cpp:308-400 | never changes custody; the layout's payload of the number is sent again iff the window in charge holds it and the transport takes it, and any timer restarted starts now; reports a number as out of window iff an elected exit asks for one below the count that no window holds |
| `MeshSender.TransferEngine.SendNew` | flp-node/components/mesh/transfer_engine_arq.cpp:594-701 | the custody step of a first send of the layout's payload through the best eligible exit, exactly when a fragment is left, some exit takes it, its read succeeds if it is data, and the transport accepts it; time and timer of the send are now; otherwise nothing |
| `MeshSender.TransferEngine.NextPayload` | flp-node/components/mesh/transfer_engine_arq.cpp:643-685 | the payload offered for the next number is the one the layout assigns, also at parity slots and after failed and retried sends |
| `MeshSender.TransferEngine.AdvanceEncoder` | flp-node/components/mesh/transfer_engine_arq.cpp:645-692 | the running encoder holds exactly the data fragments of the current group that were accepted |
| `MeshSender.TransferEngine.TryRehome` | flp-node/components/mesh/transfer_engine_arq.cpp:556-589 | the custody step with the layout's payload, exactly when the slot is free and read and send succeed; otherwise nothing changes |
| `MeshSender.TransferEngine.DrainRedist` | flp-node/components/mesh/transfer_engine_arq.cpp:541-592 | moves waiting numbers to windows, loses none and keeps the rest in order; unless a read or send fails, no exit could take any that still waits |
| `MeshSender.TransferEngine.RedistributeDeadExit` | flp-node/components/mesh/transfer_engine_arq.cpp:794-892 | empties the dead window, hands its data numbers to survivors or, in ascending order, to the queue, which has room, and changes nothing else; unless a read or send fails, only what nobody can take has to wait; every timer started starts now |
| `MeshSender.TransferEngine.Enqueue` | flp-node/components/mesh/transfer_engine_arq.cpp:871-891 | with a survivor the waiting queue has room: the branch that loses a fragment is unreachable |
| `MeshSender.QueueHasRoom` | flp-node/components/mesh/include/transfer_engine.hpp:368 | at most 192 of the 256 queue positions are ever taken while an exit survives |
| `MeshSender.TransferEngine.ExitNodeHealthTick` | flp-node/components/mesh/transfer_engine_arq.cpp:734-767 | every exit that holds something and has been silent beyond the timeout dies, only silent ones die, custody is kept, and every timer started starts now |
| `MeshSender.TransferEngine.HandleExitOffline` | flp-node/components/mesh/transfer_engine_arq.cpp:769-792 | buries exactly the alive exit with that address, for the current session or a wildcard |
| `MeshSender.TransferEngine.TickWindows` | flp-node/components/mesh/transfer_engine.cpp:814-855 | timeout retransmissions never change custody; as many fragments as are due at the alive exits leave, at most four, fewer only on a refusal; the transfer ends exactly when an elected window is out of retries |
| `MeshSender.TransferEngine.TickMeshArq` | flp-node/components/mesh/transfer_engine_arq.cpp:327-732 | one tick: aborts without survivors; within 15 ms and 5 more per hop of the last first send no new fragment goes out and the end is not tested for; with 32 numbers waiting out of window, or once the upload counts as done, nothing happens at all; otherwise it keeps the invariant, sends at most one new fragment and, unless the outside refuses, makes all the progress there is; exactly when it tests for the end |
| `MeshSender.FirstSendsApart` | flp-node/components/mesh/transfer_engine_arq.cpp:594-605 | over a whole session: from the first send of one number to that of the n-th after it at least n pacing intervals pass |
| `MeshSender.TransferEngine.CheckUploadDone` | flp-node/components/mesh/transfer_engine_arq.cpp:708-730 | the upload counts as done iff all was sent once and no alive exit has anything pending |
| `MeshSender.DoneMeansDeliveredIffNothingWaits` | flp-node/components/mesh/transfer_engine_arq.cpp:708-730 | when the upload counts as done, every data number is retired iff the waiting queue is empty |
| `MeshSender.DoneWithFragmentWaiting` | flp-node/components/mesh/transfer_engine_arq.cpp:534-539 | a concrete run in which the upload counts as done while a fragment still waits |
| `MeshSender.GroupCloses` | flp-node/components/mesh/transfer_engine_arq.cpp:645-653 | at a parity slot the incremental parity is the one the layout assigns |
| `SenderWindow.SelectiveRepeat.constructor` | flp-node/components/protocol/selective_repeat.cpp:25-53 | an empty window of at most 64 slots |
| `SenderWindow.SelectiveRepeat.ResetSender` | flp-node/components/protocol/selective_repeat.cpp:55-76 | forgets all pending fragments and measurements |
| `SenderWindow.SelectiveRepeat.RecomputeSenderBounds` | flp-node/components/protocol/selective_repeat.cpp:88-115 | the base becomes the least pending number, or the next number when nothing is pending |
| `SenderWindow.SelectiveRepeat.CanSendSequence` | flp-node/components/protocol/selective_repeat.cpp:127-141 | true iff no other pending number occupies the slot |
| `SenderWindow.SelectiveRepeat.ContainsSequence` | flp-node/components/protocol/selective_repeat.cpp:143-152 | true iff the number is pending |
| `SenderWindow.SelectiveRepeat.SendFragment` | flp-node/components/protocol/selective_repeat.cpp:189-289 | adds exactly the fragment to the pending map and to what was sent, iff it is well-sized, its slot is free and the transport takes it; repeated numbers are ignored; otherwise it fails without effect |
| `SenderWindow.SelectiveRepeat.HandleAck` | flp-node/components/protocol/selective_repeat.cpp:291-363 | removes exactly the acknowledged number and clears its slot; a sample enters the history iff the fragment was never retransmitted (Karn), it measures from the last start of the slot's timer, by the transmission or by a later backpressure, and it moves the estimate as Rto.SampleMoves says; otherwise the estimate stays |
| `SenderWindow.SampleIsRoundTripIff` | flp-node/components/protocol/selective_repeat.cpp:313-316 | a sample is the time since the transmission iff no backpressure came after the millisecond of the transmission, and otherwise too short by the time in between |
| `SenderWindow.PostponedSample` | flp-node/components/protocol/selective_repeat.cpp:404-408 | a concrete run: sent at 0, NACK with backpressure at 100, ACK at 150; the window records a round trip of 50 |
| `SenderWindow.SelectiveRepeat.HandleNack` | flp-node/components/protocol/selective_repeat.cpp:365-426 | re-sends a pending fragment and never changes the pending map; the slot afterwards for acceptance, backpressure and failure; the twelfth retry marks the sender as failed |
| `SenderWindow.SelectiveRepeat.Tick` | flp-node/components/protocol/selective_repeat.cpp:428-523 | sends the first n due fragments in slot order, where only the budget or a refusal keeps n below the number due, and leaves every slot as that demands; a slot is due iff it was sent, has had fewer than 12 retries, and the first timeout, doubled by each retry up to 5000 ms, has passed since its timer was last started; never changes the pending map |
| `SenderWindow.SelectiveRepeat.Retransmit` | flp-node/components/protocol/selective_repeat.cpp:488-521 | one retransmission: a refusal burns no retry, backpressure restarts the timer |
| `SenderWindow.SelectiveRepeat.NeedsRetransmission` | flp-node/components/protocol/selective_repeat.cpp:433-474 | the test of one slot: sent, retries left, backoff run out |
| `SenderWindow.DueMembers` | flp-node/components/protocol/selective_repeat.cpp:433-474 | the due slots are listed in slot order, exactly those whose backoff has run out |
| `SenderWindow.SelectiveRepeat.DueIffOverdue` | flp-node/components/protocol/selective_repeat.cpp:433-474 | a slot is listed as due iff it is overdue in plain terms: first timeout, doubled by each retry, at most 5000 ms, since the last start of its timer |
| `SenderWindow.SelectiveRepeat.SnapshotPendingSequences` | flp-node/components/protocol/selective_repeat.cpp:154-187 | lists pending numbers strictly ascending: exactly all of them if the buffer has room, else as many as fit |
| `SenderWindow.SelectiveRepeat.BackoffFits` | flp-node/components/protocol/selective_repeat.cpp:450-474 | for every slot of a window that has not failed the shifted backoff fits 32 bits, lies between the configured floor and 5000 ms, and doubles with each retry up to the cap |
| `SenderWindow.SelectiveRepeat.EstimateWithinSamples` | flp-node/components/protocol/selective_repeat.cpp:313-339 | the window's estimate lies between the shortest and the longest sample it recorded |
| `SenderWindow.InFlightIsSlotCount` | flp-node/components/protocol/selective_repeat.cpp:117-141 | the in-flight counter is the number of sent slots, and a free slot means the window is not full |
| `Sorting.SortPrefix` | flp-node/components/protocol/selective_repeat.cpp:172-184 | the insertion sort permutes the prefix into ascending order and leaves the rest alone |
| `ExitWindowArray.ExitWindows.Snapshot` | flp-node/components/mesh/transfer_engine_arq.cpp:799-801 | lists one window without touching it |
| `Rto.EstimatorBounds` | flp-node/components/protocol/selective_repeat.cpp:313-339 | over any history of samples, each with the floor in force then: SRTT between the extremes, RTTVAR below the largest, no 32-bit wrap, RTO between floor and cap |
| `Rto.RunIsCapped` | flp-node/components/protocol/selective_repeat.cpp:336-339 | whatever was measured, RTO never exceeds the cap |
| `Rto.NextSample` | flp-node/components/protocol/selective_repeat.cpp:325-339 | one sample keeps those bounds without leaving 32 bits |
| `Rto.SampleMoves` | flp-node/components/protocol/selective_repeat.cpp:313-339 | what one sample does: the estimate moves an eighth of the way towards it, rounded down in the end; the deviation becomes three quarters of itself and a quarter of the distance from the estimate before; the timeout is four deviations above the estimate within floors and cap; the first sample is the estimate |
| `Rto.Converges` | flp-node/components/protocol/selective_repeat.cpp:333-334 | n equal samples shrink the distance of the estimate by the factor (7/8)^n without passing them, to zero from above and to 7 ms from below |
| `Rto.SteadySamples` | flp-node/components/protocol/selective_repeat.cpp:333-334 | under constant samples SRTT is fixed and RTTVAR decreases |
| `Rto.BackoffBounds` | flp-node/components/protocol/selective_repeat.cpp:457-466 | with at most twelve retries the shifted timeout fits 32 bits and stays between the floor and 5000 ms, doubling until it is capped (rule 5.5 of section 5 of RFC 6298) |
| `Rto.BackoffIs` | flp-node/components/protocol/selective_repeat.cpp:450-474 | the timeout of a slot is the learned one, or before the first sample the configured one, not below the floor, doubled by each retry, 5000 ms at most; after a sample the configured one plays no part |
| `Rto.TimersFit` | flp-node/components/mesh/transfer_engine.cpp:49-73 | the configured timeouts satisfy what the bounds assume, for every hop count |
| `Layout.CountCoversExactly` | flp-node/components/mesh/transfer_engine.cpp:733-736 | the numbers below the advertised count are exactly the data fragments and the parities of full groups |
| `Layout.SenderCountExact` | flp-node/components/mesh/transfer_engine.cpp:637-638 | for files up to 10 MB the 16-bit casts truncate nothing and the congestion bit stays clear |
| `Layout.SeqOfInverse` | docs/tools/fec_layout.py:78-84 | fragment to number to fragment is the identity and never hits a parity number |
| `Layout.DataIndexInverse` | flp-node/components/mesh/transfer_engine_arq.cpp:657-660 | number to fragment to number is the identity off the parity numbers |
| `Layout.FecDetectedIffFullGroup` | cloud-admin/internal/transfer/reassembler.go:156-205 | the cloud's test for FEC by the count is exact: at least one full group |
| `Layout.ProgressCountsBytes` | flp-node/components/mesh/transfer_engine.cpp:138-160 | the progress figure is the number of file bytes carried by the numbers below |
| `Layout.ParityShape` | flp-node/components/mesh/transfer_engine.cpp:733-736 | the parity of a full group is as long as a full fragment |
| `FecEncoding.FecEncoder.Ingest` | flp-node/components/protocol/include/fec_codec.hpp:38-50 | appends one fragment to the running group, parity bytes and length being those of the group |
| `FecEncoding.FecEncoder.Data` | flp-node/components/protocol/include/fec_codec.hpp:53-54 | exposes the parity of the group |
| `Bytes.ErasureRecovers` | cloud-admin/internal/transfer/reassembler.go:92-107 | XOR of a group's parity with all members but one gives the zero-padded member back |
| `OutOfWindowRetransmission.RegenerateParity` | flp-node/components/mesh/transfer_engine_arq.cpp:406-446 | the XOR of the fragments of the group that could be read, failed reads counting as empty |
| `OutOfWindowRetransmission.FailedReadsHarmlessIff` | flp-node/components/mesh/transfer_engine_arq.cpp:422-438 | after failed reads the rebuilt parity is still right iff a full-length fragment was read and the unread ones XOR to zero |
| `OutOfWindowRetransmission.FailedReadSpoilsParity` | flp-node/components/mesh/transfer_engine_arq.cpp:422-438 | a concrete group whose only non-zero fragment is not read: the rebuilt parity is wrong |
| `OutOfWindowRetransmission.OutOfWindowQueue.Request` | flp-node/components/mesh/transfer_engine_handlers.cpp:341-400 | queues a released number once, for the exit that asked last, drops it if it was re-sent just now or the queue is full; other numbers keep place and destination |
| `OutOfWindowRetransmission.OutOfWindowQueue.PayloadFor` | flp-node/components/mesh/transfer_engine_arq.cpp:404-462 | file bytes or rebuilt parity, according to which reads succeed |
| `OutOfWindowRetransmission.OutOfWindowQueue.Destination` | flp-node/components/mesh/transfer_engine_arq.cpp:480-492 | the requested exit if alive, else the first alive one if any |
| `OutOfWindowRetransmission.RereadIsAssigned` | flp-node/components/mesh/transfer_engine_arq.cpp:404-462 | when the reads succeed, what is re-read is the payload the layout assigns |
| `OutOfWindowRetransmission.OutOfWindowQueue.Resend` | flp-node/components/mesh/transfer_engine_arq.cpp:404-522 | one entry: it leaves the queue exactly when the transport took it or nothing of its group could be read; a packet goes to the wanted exit if that is alive, and its number is suppressed from now on |
| `OutOfWindowRetransmission.OutOfWindowQueue.Drain` | flp-node/components/mesh/transfer_engine_arq.cpp:357-522 | a pass keeps the rest in order, each number with the exit that requested it (one refused on its way to a stand-in stays with the stand-in), respects pacing and budget; a number leaves only to where it was destined with what the file yielded, or because its group cannot be read, and with successful reads only with its assigned payload; without refusals it sends as much as the budget allows |
| `OutOfWindowRetransmission.OutOfWindowQueue.RequestedAndWaiting` | flp-node/components/mesh/transfer_engine_arq.cpp:357-522 | over any number of passes: a number requested by an exit that stays alive waits for that exit until it goes out to that exit |
| `OutOfWindowRetransmission.PaceIs` | flp-node/components/mesh/transfer_engine_arq.cpp:364-385 | budget and pause for each backlog in plain numbers: from 32 waiting on the pause does not depend on the distance |
| `EndToEnd.IncrementalParityIsRebuilt` | flp-node/components/mesh/transfer_engine_arq.cpp:406-446 | at each parity slot the incremental parity equals the rebuilt one if all reads succeed, and after failed reads iff what was not read cancels out |
| `EndToEnd.AirIsGenuine` | flp-node/components/mesh/transfer_engine_arq.cpp:633-701 | both sending paths over the mesh carry only what the layout gives each number |
| `EndToEnd.LocalIsGenuine` | flp-node/components/mesh/transfer_engine_arq.cpp:128-188 | a node that is its own exit hands over the fragments of the layout without parity |
| `EndToEnd.OutcomeOfDelivery` | cloud-admin/internal/transfer/reassembler.go:156-220 | the reassembler's final state depends only on the set of numbers delivered, and it is complete iff the loss condition holds |
| `EndToEnd.ReceiveTransfer` | cloud-admin/internal/transfer/reassembler.go:156-220 | a transfer delivered in any order with losses and duplicates, over the mesh with parity or from a local exit without: complete iff each full group lost at most one and the trailing group none (without parity, iff nothing was lost), and then the buffer is the file |
| `Assembly.OrderIndependent` | cloud-admin/internal/transfer/reassembler.go:156-204 | delivering chunk by chunk, with recovery on the way, ends in the order-free closure of the delivered set |
| `Assembly.CompleteIffEnoughArrived` | cloud-admin/internal/transfer/reassembler.go:217-220 | all data is held iff at most one chunk of every full group and none of the trailing group is missing |
| `Assembly.CounterIsExact` | cloud-admin/internal/transfer/reassembler.go:217-220 | the counter reaches the fragment count iff every data fragment is held |
| `Assembly.CompleteMeansEqual` | cloud-admin/internal/transfer/reassembler.go:206-220 | when every data fragment is held the buffer is the file |
| `Assembly.RegionMatchesIff` | cloud-admin/internal/transfer/reassembler.go:206-220 | a region of the buffer shows the file iff its fragment is held or consists of zeros |
| `Assembly.CounterUnderstates` | cloud-admin/internal/transfer/reassembler.go:174-204 | the number of regions that show the file exceeds the received counter by exactly the number of all-zero fragments not held; the two agree iff there are none |
| `Assembly.ZeroShowsBeforeItArrives` | cloud-admin/internal/transfer/reassembler.go:206-220 | a concrete input: nothing received, counter 0, one region that shows the file |
| `FecDecoding.FecDecoder.Ingest` | cloud-admin/internal/transfer/reassembler.go:53-76 | stores a chunk once; a recovery is returned iff exactly one data chunk of the group is missing, and it is the XOR of the others |
| `FecDecoding.FecDecoder.TryRecover` | cloud-admin/internal/transfer/reassembler.go:78-114 | rebuilds the single missing data chunk, or nothing |
| `FecDecoding.SevenMeansOneMissing` | cloud-admin/internal/transfer/reassembler.go:71-75 | seven present slots mean exactly one missing slot |
| `Reassembly.RebuiltIsGenuine` | cloud-admin/internal/transfer/reassembler.go:92-112 | what is rebuilt from genuine chunks is the missing fragment, also for a short last fragment |
| `Reassembly.FileReassembler.constructor` | cloud-admin/internal/transfer/reassembler.go:137-154 | an empty reassembler; a non-positive fragment size means 500 |
| `Reassembly.FileReassembler.WriteChunk` | cloud-admin/internal/transfer/reassembler.go:156-204 | out-of-range and repeated chunks change nothing; otherwise buffer, bitmap and counters become those of the set with the chunk and what it recovers |
| `Reassembly.FileReassembler.WriteToBufferAt` | cloud-admin/internal/transfer/reassembler.go:206-215 | copies the data to its region, cut at the end of the buffer |
| `Reassembly.FileReassembler.IsComplete` | cloud-admin/internal/transfer/reassembler.go:217-220 | true iff all data is held, and then the buffer is the file |
| `NodeFecDecoding.NodeFecDecoder.Ingest` | flp-node/components/protocol/include/fec_codec.hpp:101-142 | the two-group decoder recovers only the genuine fragment, exactly when the tracked group misses one data fragment, and only what the cloud's decoder would hold too |
| `NodeFecDecoding.NodeFecDecoder.Place` | flp-node/components/protocol/include/fec_codec.hpp:112-129 | a third group takes the place not used last and leaves the other alone |
| `NodeFecDecoding.NodeFecDecoder.TryRecover` | flp-node/components/protocol/include/fec_codec.hpp:207-249 | rebuilds the single missing data slot; a missing parity is never rebuilt |
| `NodeFecDecoding.RebuiltIsRight` | flp-node/components/protocol/include/fec_codec.hpp:207-249 | the rebuilt bytes are the missing fragment and lie in the closure of what was delivered |
| `CloudReceiver.SelectiveRepeatReceiver.OnChunkReceived` | cloud-admin/internal/transfer/protocol.go:56-69 | records and acknowledges in-range chunks; the base is the least number not received |
| `CloudReceiver.SelectiveRepeatReceiver.IsComplete` | cloud-admin/internal/transfer/protocol.go:191-193 | true iff every chunk was received |
| `CloudReceiver.SelectiveRepeatReceiver.CheckTimeouts` | cloud-admin/internal/transfer/protocol.go:73-112 | asks for the specified missing numbers from the least one on and stamps them |
| `CloudReceiver.SelectiveRepeatReceiver.BuildFilteredStallNacks` | cloud-admin/internal/transfer/protocol.go:142-188 | the stall variant with its own horizon, cap and cooldown and the same stamps |
| `CloudReceiver.WantedSound` | cloud-admin/internal/transfer/protocol.go:94-112 | requests are ascending, without repetition, missing, within the horizon and rested |
| `CloudReceiver.WantedComplete` | cloud-admin/internal/transfer/protocol.go:94-112 | no missing and rested number is passed over unless the cap was reached before it |
| `CloudReceiver.TimeoutNacksAre` | cloud-admin/internal/transfer/protocol.go:73-112 | a timeout check asks for exactly the missing numbers in the window, 64 of it at most, that were not asked for during 4 s, from the front, as many as the limit allows |
| `CloudReceiver.StallNacksAre` | cloud-admin/internal/transfer/protocol.go:142-188 | a stall scan asks for exactly those within its own horizon and cooldown, 64 numbers and 8 s by default |
| `CloudReceiver.RequestsAreRested` | cloud-admin/internal/transfer/protocol.go:73-188 | over every session of arrivals, timeout checks and stall scans: any two requests for one number are at least the cooldown of the later one apart, and the stamp is the time of the last one |
| `CloudReceiver.BaseIsLeast` | cloud-admin/internal/transfer/protocol.go:56-69 | the base is the least number not received |
| `CloudReceiver.HeardIffArrivedNew` | cloud-admin/internal/transfer/engine.go:194-206 | over every session: the receiver has heard of exactly the numbers that arrived while new, and what the reassembler holds beyond that is exactly what was recovered before it arrived |
| `CloudReceiver.CompleteIffAllArrivedNew` | cloud-admin/internal/transfer/protocol.go:191-193 | the receiver window is complete iff every number arrived while it was new |
| `CloudReceiver.BaseWaitsForRecovered` | cloud-admin/internal/transfer/protocol.go:56-69 | a number once recovered is never heard of later, and the base never passes it |
| `CloudReceiver.RecoveredIsNeverHeard` | cloud-admin/internal/transfer/engine.go:194-206 | a concrete session of one full group: chunk 6 is recovered, everything is held, and however the session goes on the receiver never hears of it and its base stays at most 6 |
| `CloudReceiver.BaseIsAskedFor` | cloud-admin/internal/transfer/protocol.go:73-188 | once the base is rested, every check of either kind asks for it again |
| `CloudReceiver.ProcessChunk` | cloud-admin/internal/transfer/engine.go:194-206 | one chunk is one step of the session: the receiver hears of it iff it is new to the reassembler |
| `ExitCustody.MqttClient.constructor` | flp-node/components/mqtt_client/mqtt_client.cpp:169-200 | an idle client with empty queues and bitmaps |
| `ExitCustody.MqttClient.QueueFragmentAck` | flp-node/components/mqtt_client/mqtt_client.cpp:90-130 | one custody ACK per number; succeeds iff one is pending or there is room; requires local acceptance |
| `ExitCustody.MqttClient.PublishFragment` | flp-node/components/mqtt_client/mqtt_client.cpp:913-991 | taken at most once; refused without effect if empty, of a stale session or without room; a duplicate of an accepted fragment is answered by another ACK |
| `ExitCustody.MqttClient.PublishOne` | flp-node/components/mqtt_client/mqtt_client.cpp:1005-1125 | one turn of the loop: drops without a session, on failure moves the front request to the deferred place, else publishes and books it |
| `ExitCustody.MqttClient.ProcessFragmentPublish` | flp-node/components/mqtt_client/mqtt_client.cpp:993-1125 | serves the requests in order until one fails, losing none; the one that failed is deferred and first in line; bits, ACKs, ring and publications are those of the served prefix, which ends only where publishing failed |
| `ExitCustody.MqttClient.ResetTransferRuntimeState` | flp-node/components/mqtt_client/mqtt_client.cpp:615-649 | forgets everything about the session |
| `ExitCustody.MqttClient.ActivateTransferSession` | flp-node/components/mqtt_client/mqtt_client.cpp:651-663 | resets iff the session changes |
| `ExitCustody.MqttClient.ClearTransferSession` | flp-node/components/mqtt_client/mqtt_client.cpp:665-674 | resets iff the named session is the active one |
| `ExitCustody.MqttClient.MarkFragmentForRepublish` | flp-node/components/mqtt_client/mqtt_client.cpp:1294-1309 | withdraws exactly the accepted bit, in the active session only |
| `ExitCustody.MqttClient.DrainFragmentAck` | flp-node/components/mqtt_client/mqtt_client.cpp:1311-1339 | the next ACK of the session, first come first served; everything else stays queued |
| `ExitCustody.MqttClient.RequeueFragmentAck` | flp-node/components/mqtt_client/mqtt_client.cpp:1341-1363 | puts an ACK back in front, unless it is pending or there is no room |
| `ExitCustody.MqttClient.SendCustodyAcks` | flp-node/components/mesh/transfer_engine.cpp:954-977 | every mesh ACK sent is backed by a local acceptance of that fragment in that session; ACKs go out in order until one is refused, which returns to the front; none is lost as long as nothing is queued in between |
| `ExitCustody.MqttClient.SendOneAckInterrupted` | flp-node/components/mesh/transfer_engine.cpp:958-977 | with the publish loop running between drain and requeue, a refused ACK is lost iff the queue before the call, less that ACK and with an ACK for each request that gets published, is full and holds no other ACK for its number; the queue afterwards exactly; no loss while the ACKs and requests waiting before the call together fit the queue |
| `ExitCustody.AckLost` | flp-node/components/mesh/transfer_engine.cpp:958-977 | a concrete run with a queue of one: a request published in between takes the place of the refused ACK, which is lost |
| `ExitCustody.QueueAcksAtMost` | flp-node/components/mqtt_client/mqtt_client.cpp:90-130 | publishing queues at most one ACK per request |
| `ExitCustody.MqttClient.DrainCloudNack` | flp-node/components/mqtt_client/mqtt_client.cpp:1263-1285 | the next NACK of the session; everything else stays queued |
| `ExitCustody.MqttClient.OnDisconnected` | flp-node/components/mqtt_client/mqtt_client.cpp:303-362 | exactly the recent publishes that fit the NACK queue are asked for again and lose their accepted bit; older ones are forgotten |
| `ExitCustody.RotationServes` | flp-node/components/mqtt_client/mqtt_client.cpp:1317-1337 | one turn of the queue serves a session first come first served and conserves all items |
| `SdCard.ChooseCapacity` | flp-node/components/sdcard/sdcard.cpp:217-247 | which cache size halving ends with; a file below 32 KB is refused even when memory is plentiful |
| `SdCard.SdReadCache.constructor` | flp-node/components/sdcard/sdcard.cpp:254-283 | the state after the buffers were allocated and the window was primed, as far as the card delivered |
| `SdCard.SdReadCache.Refill` | flp-node/components/sdcard/sdcard.cpp:297-334 | the window shows the file from the aligned start, as many bytes as fread delivered; a failed seek changes nothing |
| `SdCard.SdReadCache.Read` | flp-node/components/sdcard/sdcard.cpp:336-418 | every byte reported is the file's, no other byte of the destination changes, the number reported is the one specified for whatever the card delivers; a read served by window or pages leaves the window alone, any other leaves it as its refills do |
| `SdCard.SdReadCache.ShortIff` | flp-node/components/sdcard/sdcard.cpp:336-495 | a read of at most a page from a healthy card is short iff the loaded window misses it and a page held was cut short inside it; for one page and for two |
| `SdCard.SdReadCache.CompleteWhenFull` | flp-node/components/sdcard/sdcard.cpp:336-418 | with no page cut short, every read of at most the window from a healthy card is complete |
| `SdCard.HealthyWindow` | flp-node/components/sdcard/sdcard.cpp:376-417 | the refill path on a healthy card is complete unless the request ends past the second window |
| `SdCard.ShortPageStays` | flp-node/components/sdcard/sdcard.cpp:457-487 | a concrete run: a page cut short at ten bytes makes a later read from a healthy card short |
| `SdCard.SdReadCache.ReadThroughWindow` | flp-node/components/sdcard/sdcard.cpp:376-417 | refill and retry, across a window boundary if need be; the exact number of bytes and the exact window afterwards for whatever the two refills deliver |
| `SdCard.SdReadCache.ReadViaRandomPages` | flp-node/components/sdcard/sdcard.cpp:420-495 | page by page, stopping at the first byte it cannot get; the exact number of bytes, also when loading one page displaces the next |
| `SdCard.SdReadCache.UsePage` | flp-node/components/sdcard/sdcard.cpp:457-471 | a page held is stamped and never reloaded; otherwise it takes the slot of the victim, whose page is displaced, and no other page changes |
| `SdCard.SdReadCache.FindRandomPage` | flp-node/components/sdcard/sdcard.cpp:497-507 | the slot of the page, or none iff it is not held |
| `SdCard.SdReadCache.ChooseRandomSlot` | flp-node/components/sdcard/sdcard.cpp:509-529 | the first free slot, else the first of those stamped longest ago |
| `SdCard.SdReadCache.LoadRandomPage` | flp-node/components/sdcard/sdcard.cpp:531-568 | the slot shows the page; a failed load changes no slot |
| `SdCard.HeldIffAmongNewest` | flp-node/components/sdcard/sdcard.cpp:457-471 | a page is held iff it was used and fewer than sixteen pages were used after it, for fewer than 2^32 uses |
| `SdCard.LoadKeepsUses` | flp-node/components/sdcard/sdcard.cpp:531-568 | a load into a free or the oldest slot keeps stamps equal to last uses |
| `SdCard.HitKeepsUses` | flp-node/components/sdcard/sdcard.cpp:467-471 | a hit keeps stamps equal to last uses |
| `BufferPool.Init` | flp-node/components/protocol/buffer_pool.cpp:16-66 | the initial stack holds every slab once |
| `BufferPool.ActKeeps` | flp-node/components/protocol/buffer_pool.cpp:71-144 | every atomic access but a stale exchange keeps the free chain acyclic and duplicate-free and every slab in exactly one place, with any number of acquirers and releasers |
| `BufferPool.ActInBounds` | flp-node/components/protocol/buffer_pool.cpp:71-144 | no access leaves the pool, whatever the interleaving, stale exchanges included |
| `BufferPool.ExchangeKeepsIffCurrent` | flp-node/components/protocol/buffer_pool.cpp:74-86 | a winning exchange of acquire leaves every slab in exactly one place iff the successor it read is still that of the head |
| `BufferPool.EveryRun` | flp-node/components/protocol/buffer_pool.cpp:71-144 | over every run of any number of acquirers and releasers: the pool stays in order throughout iff no winning exchange is stale |
| `BufferPool.OneAcquirerIsSafe` | flp-node/components/protocol/buffer_pool.cpp:71-144 | with one acquirer in its loop at a time no exchange is stale |
| `BufferPool.AtRest` | flp-node/components/protocol/buffer_pool.cpp:71-144 | with no operation under way the free count is the length of the chain, which holds exactly the slabs without references |
| `BufferPool.HandedOutIsExclusive` | flp-node/components/protocol/buffer_pool.cpp:74-86 | the slab handed out had no holder, was not on the chain and nobody else was moving it |
| `BufferPool.DoubleReleaseHarmless` | flp-node/components/protocol/buffer_pool.cpp:118-143 | releasing a slab without references, also when the last one went meanwhile, only bumps the overflow counter and keeps the pool in order |
| `BufferPool.TwoAcquirersBreak` | flp-node/components/protocol/include/buffer_pool.hpp:92-97 | a concrete run in which a second acquirer makes an exchange stale, a held slab ends up on top, and the pool is out of order |
| `TransmitTokens.EveryRun` | flp-node/components/espnow/espnow_transport.cpp:428-508 | over every interleaving of send and completion: free tokens, ring entries and tokens held mid-step add up to 8 and 20; with in-order completions each credits the pool of its frame; at rest all are back |
| `TransmitTokens.StepKeeps` | flp-node/components/espnow/espnow_transport.cpp:354-373 | every step conserves the tokens, in whatever order completions are reported |
| `TransmitTokens.NoLiveEntryOverwritten` | flp-node/components/espnow/espnow_transport.cpp:446-448 | the ring slot being written belongs to no pending completion |
| `TransmitTokens.RewindKeeps` | flp-node/components/espnow/espnow_transport.cpp:464-468 | rewinding after a failed submit removes exactly the entry just made |
| `TransmitTokens.RefusedOnlyWhenOut` | flp-node/components/espnow/espnow_transport.cpp:433-444 | backpressure happens iff all tokens of the class are in the ring or about to be credited |
| `TransmitTokens.CreditsOwnPoolIff` | flp-node/components/espnow/espnow_transport.cpp:354-373 | a completion credits its own pool iff its class is that of the oldest ring entry |
| `TransmitTokens.CreditsFollowSubmissions` | flp-node/components/espnow/espnow_transport.cpp:354-373 | over every run, whatever the order of completions, the pools are credited in the order of submission: the credits so far followed by those outstanding are the outstanding ones of the start followed by the submissions |
| `TransmitTokens.OwnPoolsIff` | flp-node/components/espnow/espnow_transport.cpp:354-373 | over every run: each completion credits the pool of its own frame iff the completed classes are a prefix of the submitted ones |
| `TransmitTokens.ReversedCompletion` | flp-node/components/espnow/espnow_transport.cpp:354-373 | a concrete run: a control and a data frame completed in reverse fill the control pool while the control frame is still on the air |
| `Routing.NewerIsLater` | flp-node/components/mesh/include/route_table.hpp:13-16 | on a span shorter than 2^15 serials the test is the order of positions (section 3.2 of RFC 1982) |
| `Routing.HalfApartIsUnordered` | flp-node/components/mesh/include/route_table.hpp:13-16 | at distance 2^15 the test orders neither way |
| `Routing.StoresTheBest` | flp-node/components/mesh/include/route_table.hpp:119-163 | after any advertisements of one origin within a span the stored route is the newest with its fewest hops |
| `Routing.Confluence` | flp-node/components/mesh/include/route_table.hpp:119-163 | the same advertisements in any order and multiplicity leave the same route |
| `Routing.OrderFreeIff` | flp-node/components/mesh/include/route_table.hpp:119-163 | for any set of advertisements of any origins: every arrival order leaves the same route iff one of them replaces every other one and is replaced by none |
| `Routing.TwoCommuteIff` | flp-node/components/mesh/include/route_table.hpp:147-158 | when two advertisements of different origins commute on an arbitrary stored route |
| `Routing.FirstTwoCommuteIff` | flp-node/components/mesh/include/route_table.hpp:147-158 | on an empty entry they commute iff exactly one replaces the other |
| `Routing.OriginsDoNotCommute` | flp-node/components/mesh/include/route_table.hpp:147-158 | a concrete pair that does not |
| `Routing.RouteTable.UpdateNeighbor` | flp-node/components/mesh/include/route_table.hpp:56-116 | refreshes in place, appends, or replaces the first of the entries heard longest ago; addresses stay distinct |
| `Routing.RouteTable.UpdateInetRoute` | flp-node/components/mesh/include/route_table.hpp:119-163 | changes at most the route of that neighbor, by the acceptance rule, and says whether it did |
| `Routing.RouteTable.Cheapest` | flp-node/components/mesh/include/route_table.hpp:213-234 | the first of the cheapest entries of a kind, if there is any |
| `Routing.CostWeighs` | flp-node/components/mesh/include/route_table.hpp:171-183 | what the cost weighs: 100 for a hop, one for each hundredth of an expected transmission and each unit of load, 500 for a neighbor that only LoRa reaches, nothing else |
| `Routing.FewerHopsWin` | flp-node/components/mesh/include/route_table.hpp:173-183 | with equal radios and links and queues less than a hop's worth apart, fewer hops win |
| `Routing.RouteTable.NextHop` | flp-node/components/mesh/include/route_table.hpp:187-254 | the direct neighbor, else the first of the cheapest candidates, else for unicast the cheapest exit; in plain terms never a neighbor without a way out, towards the internet never one whose route leads back here, for unicast an exit only if all with a way are exits, and none only if nobody qualifies |
| `Routing.RouteTable.PruneStale` | flp-node/components/mesh/include/route_table.hpp:376-394 | keeps exactly the entries heard of within the age, in order |
| `Routing.FreshIsPart` | flp-node/components/mesh/include/route_table.hpp:376-394 | an entry is kept iff it is not older than the age |
| `Routing.FreshInOrder` | flp-node/components/mesh/include/route_table.hpp:376-394 | the kept entries stand in their old order |
| `Routing.RouteTable.BetterAlternative` | flp-node/components/mesh/include/route_table.hpp:478-516 | a cheapest alternative that improves by the margin, or zero iff there is none |
| `Routing.RouteTable.CheckBetterRoute` | flp-node/components/mesh/include/route_table.hpp:478-545 | advises a switch at exactly every third cycle in a row that shows the same better alternative |
| `Routing.TrailingIsRepeated` | flp-node/components/mesh/include/route_table.hpp:517-540 | a run of length n means the same alternative in the last n cycles |
| `Topology.EntryRoundTrip` | cloud-admin/internal/topology/topology.go:74-90 | decoding an encoded entry gives its transmitted fields back |
| `Topology.Serialize` | flp-node/components/mesh/include/route_table.hpp:547-584 | the table in wire format, or nothing if it does not fit |
| `Topology.Aggregator.Update` | cloud-admin/internal/topology/topology.go:61-105 | records the announced entries as far as the payload reaches, keeps the heap snapshot and other nodes |
| `Topology.Report` | cloud-admin/internal/topology/topology.go:61-91 | serialize followed by Update reproduces every transmitted field of every neighbor |
| `LocalExit.LocalExitArq.Tick` | flp-node/components/mesh/transfer_engine_arq.cpp:57-201 | base is the least number not acknowledged; retransmissions, then new fragments, at most sixteen in all, each with its own bytes; complete iff all is acknowledged; the window is in order iff not everything up to the next number is acknowledged |
| `LocalExit.LocalExitArq.DrainAcks` | flp-node/components/mesh/transfer_engine_arq.cpp:59-74 | records exactly the in-range acknowledgements |
| `LocalExit.LocalExitArq.AdvanceBase` | flp-node/components/mesh/transfer_engine_arq.cpp:76-88 | the base is the least number not acknowledged |
| `LocalExit.LocalExitArq.DrainNacks` | flp-node/components/mesh/transfer_engine_arq.cpp:90-126 | the queue after a list of NACKs |
| `LocalExit.QueuedStaysClean` | flp-node/components/mesh/transfer_engine_arq.cpp:90-126 | the queue stays duplicate-free and in range, and takes every NACK that is due while there is room |
| `LocalExit.LocalExitArq.SendRetx` | flp-node/components/mesh/transfer_engine_arq.cpp:128-159 | hands over a prefix of what is due, in order, cut only by the budget or a failed hand-over |
| `LocalExit.LocalExitArq.CompactRetxQueue` | flp-node/components/mesh/transfer_engine_arq.cpp:207-226 | removes exactly the acknowledged entries and those just re-sent, although it sees only their number |
| `LocalExit.LocalExitArq.SendNew` | flp-node/components/mesh/transfer_engine_arq.cpp:161-188 | hands over the next fragments in order, cut only by window, budget or a failed hand-over |
| `LocalExit.WindowInOrderIff` | flp-node/components/mesh/transfer_engine_arq.cpp:161-164 | base does not pass the next number iff something up to it is not acknowledged; so if only sent numbers are acknowledged |
| `Election.ScoreWeighs` | flp-node/components/mesh/transfer_engine.cpp:1145-1147 | what the score weighs: one for a decibel, six for a hop, thirty-two for a transfer under way |
| `Election.WithinMarginIff` | flp-node/components/mesh/transfer_engine.cpp:1174-1180 | a candidate is within the margin of a positive best score iff it has a third of it, of a negative one iff it is no worse than five thirds of it; six points always are |
| `Election.ScoresFitSixteenBits` | flp-node/components/mesh/transfer_engine.cpp:1140-1181 | score, margin and threshold never leave 16 bits |
| `Election.Candidates.HandleTransferAck` | flp-node/components/mesh/transfer_engine_handlers.cpp:151-194 | the first answer of each exit counts, while there is room |
| `Election.Candidates.ScoreAll` | flp-node/components/mesh/transfer_engine.cpp:1140-1152 | all scores and the greatest of them |
| `Election.Candidates.SortByScore` | flp-node/components/mesh/transfer_engine.cpp:1154-1168 | the parallel-array insertion sort permutes the candidates into descending score and keeps both arrays in step |
| `Election.Candidates.Elect` | flp-node/components/mesh/transfer_engine.cpp:1136-1239 | the elected exits are the top candidates within the margin, distinct, at least one; the fallback is reached iff the limit is zero |
| `SerialFraming.AllParsed` | flp-node/components/uart_api/uart_ingest.cpp:81-135 | any concatenation of printed frames with payloads up to 1028 bytes is recovered frame by frame |
| `SerialFraming.HeaderParsed` | flp-node/components/uart_api/uart_ingest.cpp:83-120 | what a header leads to for each length: a finished empty frame, the payload, or back to the start |
| `SerialFraming.QuietNoise` | flp-node/components/uart_api/uart_ingest.cpp:83-90 | bytes without a first sync byte leave the parser at the start |
| `SerialFraming.StraySyncLosesFrame` | flp-node/components/uart_api/uart_ingest.cpp:90-95 | a stray sync byte right before any frame is parsed as if the frame lacked its first byte, and that frame is not recovered |
| `SerialFraming.NoiseParity` | flp-node/components/uart_api/uart_ingest.cpp:83-95 | noise without the second sync byte leaves the parser at the start iff it ends in an even number of first sync bytes |
| `SerialFraming.RecoveredBehindNoiseIff` | flp-node/components/uart_api/uart_ingest.cpp:81-135 | frames behind such noise are recovered iff that number is even |
| `SerialFraming.SettlesIff` | flp-node/components/uart_api/uart_ingest.cpp:81-135 | any noise leaves the parser at the start iff, read from the front, it splits into quiet bytes, refused sync pairs, dropped headers and whole frames |
| `SerialFraming.AlwaysRecoveredIffSettles` | flp-node/components/uart_api/uart_ingest.cpp:81-135 | behind any noise every list of frames is recovered, after what the noise itself yields, iff the noise splits in that way |
| `SerialFraming.UartIngest.Feed` | flp-node/components/uart_api/uart_ingest.cpp:81-135 | the stateful parser is the specified step on one byte |
| `SerialFraming.UartIngest.Receive` | flp-node/components/uart_api/uart_ingest.cpp:76-135 | and the specified run on many |
| `SerialFraming.UartIngest.SendFrame` | flp-node/components/uart_api/uart_ingest.cpp:639-651 | prints the frame |
| `Bitmap.Set` | cloud-admin/internal/transfer/reassembler.go:182 | sets one bit and no other |
| `Bitmap.Clear` | flp-node/components/mqtt_client/mqtt_client.cpp:81-88 | clears one bit and no other |
| `Bitmap.Test` | flp-node/components/mqtt_client/mqtt_client.cpp:63-70 | reads one bit |

## Left out

- Radio, SPI, GPIO, WiFi, display, HTTP, SQLite, JavaScript, plotting, build and deployment: input and output without algorithmic content.
- Logging, telemetry files, diagnostic counters, heap reports and the counters per path: they do not influence the modelled state.
- The moving averages of round trip and loss per path, which are parameters of `RecomputeWeights`, when the tick calls it, and the rounding of weights and scores, which are reals.
- The legacy receiver half of the firmware's selective repeat: not used on the exit-node path; only its decoder is modelled.
- The cloud's `RunEngine` loop with its timers and staged chunks; only the per-chunk pair of calls is modelled. `CheckStall`, which is the stall scan without filters, is left out with it.
- The duplicate-packet cache and network-wide loop freedom of routing: no per-table guarantee to state.
- CRC32, the MQTT protocol, FreeRTOS queues and semaphores, `fread` and `esp_now_send` appear as sequences, counters and arbitrary outcomes.
- ETX bookkeeping, queue-load setters, early-stale notices and route invalidation of the route table: single-branch updates.
- The MQTT client's other queues (plain publishes, whole files, mesh commands, cloud ACKs, completions) and `requeue_cloud_nack`.
- TransferEngine: the four windows are an object of their own (`ExitWindows`), as is the out-of-window queue; the tick passes the backlog of the latter as a number. Pointers between C++ objects are not modelled.
- FecDecoder: a group is a value in a map; the Go code mutates it through a pointer held in the map.
- `Outside.ReadFragment`: a read of the file yields the whole fragment or nothing. `SdReadCache::read` can also return a part of it, exactly as `ShortIff` says or when the card fails; a partial fragment sent as if it were whole is not modelled.
- `Bitmap.Mask`: the shift of one by the bit number is a table of eight masks.
- BufferPool.EveryRun: memory orderings weaker than sequential consistency are not modelled, nor is the wrap of a count at 256 references.
- ExitCustody.MqttClient.ProcessFragmentPublish: one clock reading per call instead of one per publish; the mutex is always obtained.
- ExitCustody.MqttClient.SendCustodyAcks: drain, send and requeue of one ACK are a single step here, although the MQTT task can run in between; `SendOneAckInterrupted` shows that case for one ACK.
- SenderWindow.SelectiveRepeat.constructor: at least one slot and a timeout of at most 8 s, which is what the engine configures; with no slots the firmware divides by zero.
- SenderWindow.SelectiveRepeat.SendFragment: not number 65535, which tags an empty slot; the engine's numbers stay below 32768.
- Reassembly.FileReassembler.constructor: the chunk count fits the file size and the fragment size, as the sender computes it.
- Reassembly.FileReassembler.WriteChunk: chunks in range carry what the sender laid out; a corrupted payload is not detected by this class but by the checksum over the whole file.
- NodeFecDecoding.NodeFecDecoder.Ingest: fragments carry what the sender laid out, parity marked as such.
- Routing.RouteTable.UpdateNeighbor: addresses are neither zero nor the broadcast address, which the table's own searches use as "none".
- CloudReceiver.SelectiveRepeatReceiver.CheckTimeouts: time is a real number of seconds; the log output is left out.
- Topology.Aggregator.Update: the address is kept as a number instead of its four hexadecimal digits, and the lock is left out.
