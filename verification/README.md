# A verified model of Ensō's NIC/application protocol

Ensō replaces the packet interface of a NIC by a streaming one: the application and the
NIC share ring buffers, notification rings and 2 MB pages, and tell each other about
progress through indices, signal words and a bitmap on the side. This project models that
protocol in Dafny, proves what every step of it keeps, and shows that the code - with its
wrapped indices, masks, bit scans and blocking loops - only takes steps of it.

How it is laid out:

* **Transmit.** `Segmentation` splits one request into descriptors. `TxProtocol` is the
  state machine of the transmit path over unbounded counters: sends on any number of
  pipes, writing, reclaiming, publishing, recording and completion processing, with NIC
  progress between any two steps. `TxSafety` holds its invariant, `TxTheorems` what the
  invariant means. `Bitmap`, `RingIndex`, `TxQueue` and `TxDevice` are the imperative
  code: the notification buffer pair, the pending-request ring, TX pipes and RX/TX pipes,
  each carrying a reachable state of the machine as ghost state. `ZeroSends` and `Configs`
  say exactly when sends of zero bytes and configurations keep completions in balance.
* **Receive.** `RxProtocol` is the state machine, `RxPipes` and `RxQueue` the code that
  refines it, including the next-pipe ring; `Flits` rounds bytes to flits.
* **Zero copy.** `ZeroCopy` follows the bytes of one RX/TX pipe from the wire and back;
  `RxTxSystem` runs the receive and the transmit machine together, for any number of pipes.
* **Shared-memory queue and software backend.** `Spsc` interleaves the micro-steps of one
  producer and one consumer; `SharedQueue` holds the queue's operations and the scans that
  join an existing queue; `Ipc` is the request/reply protocol over two queues, and `IpcFine`
  the same protocol at the micro-steps of both queues, which refines it.
* **Kernel module.** `Allocator` and `Ioctl` allocate pipes, `Fallback` adds the steering of
  unmatched packets, `BitOps` and `Hprxm` split accesses into powers of two, and
  `HprxmUnique` shows that only one split meets the contract.
* **Packets and EnsōGen.** `Packets` iterates over a received batch; `Ensogen` packs a
  capture into huge-page memory, replicates it, counts by walking that memory, and transmits
  through the notification buffer pair of `TxQueue`.

The NIC, the backend process and their timing are environment steps, taken any number of
times between any two steps of the code. Where the code blocks, the environment carries a
number of polls it may let pass (`nicPatience`, `patience`); it is arbitrary and is renewed
arbitrarily, so a loop that terminates here terminates under every NIC that eventually
clears the signals of published descriptors. On the receive side the NIC posts a notification
only when there are new flits to announce (the enabling condition of
`RxProtocol.Step.NicNotify`); that the search for the next pipe in
`RxQueue.RxBufPair.NextRxPipeToRecv` ends rests on it.

Sizes are the defaults of the source: 16384 notification slots, pipes of 32768 flits of 64
bytes, pages of 2 MB, transfers of 131072 bytes, batches of 64.

Where the code does not do what it is documented to do, the model follows the code:

* a send of 0 bytes passes the size checks, publishes nothing and still records a request;
  `ZeroSends.ConservedIffNoZeroSend` shows that in every run completions and requests are in
  balance exactly when no send had 0 bytes;
* `send_config` forgets the first completions it sees; `Configs.ConfigConservesIffQuiet` shows
  that it loses none, whatever the NIC does, exactly when nothing is in flight;
* `ConfirmBytes` floors, so a receive limit that is not a multiple of 64 can return bytes
  that are not confirmed; `RxQueue.ConfirmsAllIff` says exactly when;
* joining an existing queue finds the right slot only for some positions of its contents,
  and a consumer is refused as if the queue were full when the contents start at slot 0:
  `SharedQueue.ProducerSyncExact`, `SharedQueue.ConsumerSyncExact`,
  `SharedQueue.RefusedIffStartsAtZero` and two concrete queues;
* freeing a fallback pipe other than the last leaves the remaining ones with a hole:
  `Fallback.FreeKeepsFrontIffLast`;
* the packet length wraps in 16 bits when the IP Total Length exceeds 65521:
  `Packets.PktLenIsTotalLength`;
* the access splitter never completes an access that ends beyond 32768 bytes from its frame
  (its only caller asks for at most 64 bytes): `Hprxm.TooLongNeverCompletes`.

## Model

| member | source | states |
|---|---|---|
| `Segmentation.SegmentsTile` | software/src/pcie.cpp:464-513 | the descriptors of a request, byte by byte and in order, are the request's circular range in its page |
| `Segmentation.SegmentsShape` | software/src/pcie.cpp:488-507 | every descriptor has 1 to 131072 bytes, stays in the page and is marked as data (signal 1); exactly the last one ends the request; there is one iff the request has bytes |
| `Segmentation.SegmentsCountInPage` | software/src/pcie.cpp:476-507 | a request that does not wrap takes exactly ceil(len / 131072) descriptors |
| `Segmentation.SegmentsCount` | software/src/pcie.cpp:476-507 | a request of at most a page takes at most one more than that |
| `Segmentation.SegmentByte` | software/src/pcie.cpp:488-503 | whatever a descriptor fetches is a byte of its request |
| `TxProtocol.ReclaimCounts` | software/src/pcie.cpp:551-563 | reclaiming moves completions from the ring to the counter and loses none |
| `TxProtocol.ReclaimUnreported` | software/src/pcie.cpp:551-563 | reclaiming n descriptors counts exactly the requests that they end |
| `TxProtocol.FinishedAreCounted` | software/src/pcie.cpp:520-567 | if the first k <= 64 published descriptors are finished, a reclaim takes at least those and counts every request they end |
| `TxProtocol.ReachableSend` | software/src/pcie.cpp:476-507 | every turn of the send loop, with NIC progress in between, is a step of the transmit machine |
| `TxProtocol.ReachableSent` | software/src/pcie.cpp:464-513 | a run of the send loop to its end, then publication, leads to a reachable state |
| `TxSafety.ReclaimOneKeeps` | software/src/pcie.cpp:551-563 | reclaiming one slot keeps the ring equal to the unfinished descriptors of the unfinished requests, and counts a completion exactly at the end of a request |
| `TxSafety.ReclaimedFewEnough` | software/src/pcie.cpp:539-566 | even between publishing and recording, a reclaim never counts more completions than there are recorded requests |
| `TxSafety.WindowLong` | software/src/enso/pipe.cpp:369-376 | a send that waits to record has more descriptors in the ring than a batch can reclaim |
| `TxSafety.StepKeepsInv` | software/src/enso/pipe.cpp:360-398 | every step of application and NIC keeps the protocol invariant |
| `TxSafety.RunKeepsInv` | software/src/enso/pipe.cpp:360-398 | every state of every run has the invariant |
| `TxSafety.CapacityValue` | software/include/enso/pipe.h:904-906 | the masked difference of the wrapped indices is the page less one byte less what was sent and not completed |
| `TxTheorems.UnreclaimedIsUnreported` | software/src/pcie.cpp:530-567 | a descriptor still in the ring belongs to a request that is neither reported nor counted as complete |
| `TxTheorems.ReuseSafety` | software/include/enso/pipe.h:841-906 | in every reachable state no byte of any unreclaimed descriptor of any pipe is among the capacity() bytes from any pipe's app_begin |
| `TxTheorems.CapacityIsPageLessOutstanding` | software/include/enso/pipe.h:904-906 | capacity plus the bytes of the pipe's outstanding requests is always 2^21 - 1 |
| `TxTheorems.PipesAligned` | software/include/enso/pipe.h:841-849 | pipes send and complete whole flits |
| `TxTheorems.CompletionConservation` | software/src/enso/pipe.cpp:360-398 | recorded requests plus the one being sent equal unreported completions plus requests whose last descriptor is not reclaimed |
| `TxTheorems.FifoAttribution` | software/src/enso/pipe.cpp:383-391 | the k-th notification carries the pipe and bytes of the k-th send, and each pipe got back exactly the bytes of its reported sends |
| `TxTheorems.PendingRingSafe` | software/src/enso/pipe.cpp:364-391 | the pending-request ring is never popped empty nor pushed full |
| `TxTheorems.BlockedHasWork` | software/src/pcie.cpp:476-486 | whenever a send blocks there is a published descriptor at the head, and once the NIC finishes it a reclaim of all that is finished lets the send go on |
| `TxTheorems.CapacityComesBack` | software/include/enso/pipe.h:887-894 | less than full capacity means there is a published descriptor to wait for; nothing outstanding means at least the maximum capacity |
| `TxTheorems.SentBytes` | software/include/enso/pipe.h:841-849 | a pipe has sent the sum of its requests |
| `ZeroSends.StepCounts` | software/src/enso/pipe.cpp:360-398 | with sends of 0 bytes admitted, every step leaves the number of requests that will never be answered as it is, and a send of 0 bytes adds one |
| `ZeroSends.UnansweredAreZeroSends` | software/src/enso/pipe.cpp:360-398 | over every run those requests are exactly the sends of 0 bytes so far, and the pending ring still never faults |
| `ZeroSends.ConservedIffNoZeroSend` | software/src/enso/pipe.cpp:360-398 | requests and completions are in balance iff no send so far had 0 bytes |
| `ZeroSends.ZeroSendLeavesRequest` | software/src/enso/pipe.cpp:364-380 | from an idle device with an empty ring, a send of 0 bytes leaves a recorded request with nothing in the ring |
| `Configs.OutcomeBalance` | software/src/pcie.cpp:596-603 | send_config loses as many completions as it saw counted, less one |
| `Configs.LastsInBatch` | software/src/pcie.cpp:476-507 | n consecutive descriptors hold the ends of more than n / 17 - 1 requests |
| `Configs.BusyLoses` | software/src/pcie.cpp:596-603 | with a request in flight there is a NIC behaviour that makes send_config lose a completion |
| `Configs.ConfigConservesIffQuiet` | software/src/pcie.cpp:569-606 | send_config loses no completion under any NIC behaviour iff nothing is in flight when it is called |
| `Bitmap.UpdateBit` | software/src/pcie.cpp:557-561 | setting or clearing a bit changes that bit and no other |
| `Bitmap.SetBit` | software/src/pcie.cpp:495-496 | or-ing a shifted 1 into a byte sets the bit in the bitmap |
| `Bitmap.ClearBit` | software/src/pcie.cpp:557-561 | and-ing with the complement clears it |
| `Bitmap.TestBit` | software/src/pcie.cpp:557-559 | masking tells the bit |
| `RingIndex.FreeSlotsExact` | software/src/pcie.cpp:477-478 | the 32-bit difference of the indices is the number of free slots, with one slot kept free |
| `TxQueue.NotificationBufPair.ReclaimHead` | software/src/pcie.cpp:551-563 | one turn is one reclaim of the protocol: bitmap, ring and counter together |
| `TxQueue.NotificationBufPair.ReclaimTurn` | software/src/pcie.cpp:540-564 | a turn reclaims the head, or stops at the published tail or an unfinished descriptor |
| `TxQueue.NotificationBufPair.UpdateTxHead` | software/src/pcie.cpp:530-567 | NIC progress followed by a reclaim of as many finished descriptors as there are, up to 64 |
| `TxQueue.NotificationBufPair.GetUnreportedCompletions` | software/src/pcie.cpp:520-528 | reclaims all that is finished, up to a batch, and hands out the counted completions: those counted before plus one per request that the reclaimed descriptors end |
| `TxQueue.NotificationBufPair.WriteSlot` | software/src/pcie.cpp:488-505 | the slot holds the descriptor with signal 1, its wrap bit is set iff bytes are missing, and no descriptor in the ring and no other bit changes |
| `TxQueue.NotificationBufPair.WaitForSlot` | software/src/pcie.cpp:476-486 | the wait ends with a free slot, reclaims all it can at each look, does nothing when there is a slot, and leaves unpublished descriptors as they are |
| `TxQueue.NotificationBufPair.SendOne` | software/src/pcie.cpp:476-507 | one turn waits if need be and writes the next descriptor of the request |
| `TxQueue.NotificationBufPair.SendToQueue` | software/src/pcie.cpp:464-513 | the call is a run of the send loop followed by publication; the slots behind the published ones then hold exactly the descriptors of the request, with signal 1; it always returns when the ring can hold them, and only appends when there is room for all |
| `TxQueue.NotificationBufPair.SendConfig` | software/src/pcie.cpp:569-606 | refuses anything but a configuration; otherwise writes it, waits for the first counted completions and forgets them, whatever is in flight; in an empty ring it moves the ring by one slot and changes nothing else |
| `TxQueue.NotificationBufPair.WriteConfig` | software/src/pcie.cpp:581-594 | waits for a slot and publishes it holding the notification as given |
| `TxQueue.NotificationBufPair.AwaitCompletion` | software/src/pcie.cpp:596-603 | polls until a completion is counted, which always happens, and puts the old count back |
| `TxDevice.TxPipe.Capacity` | software/include/enso/pipe.h:904-906 | the 32-bit masked value is the protocol's capacity |
| `TxDevice.TxPipe.NotifyCompletion` | software/include/enso/pipe.h:995-997 | adds the bytes to what completed |
| `TxDevice.TxPipe.SendAndFree` | software/include/enso/pipe.h:841-849 | appends exactly one request, for the first bytes of the buffer, to the history of sends; unless the pending ring is nearly full no completion is processed |
| `TxDevice.TxPipe.TryExtendBuf` | software/include/enso/pipe.h:866-869 | processes all completions there are, up to a batch, and returns the capacity after it; capacity does not shrink, nothing is sent, and it makes progress or uses up NIC patience |
| `TxDevice.TxPipe.ExtendBufToTarget` | software/include/enso/pipe.h:887-894 | reaches every target up to the maximum capacity, changes nothing when it is reached already, and looks for completions only while below it |
| `TxDevice.RxTxPipe.Free` | software/src/pcie.cpp:446-453 | moves the RX head by whole flits |
| `TxDevice.RxTxPipe.ProcessCompletions` | software/include/enso/pipe.h:1169-1177 | gives back exactly what completed and was not given back, less what a send in progress withholds |
| `TxDevice.RxTxPipe.ConfirmBytes` | software/include/enso/pipe.h:1110-1112 | confirming what the NIC wrote keeps the pipe balanced |
| `TxDevice.RxTxPipe.SendAndFree` | software/include/enso/pipe.h:1160-1163 | sends confirmed bytes once; the pipe stays balanced: freed at most completed, sent at most confirmed, the remembered capacity exact, completions processed in the middle included; unless the pending ring is nearly full nothing is freed and the capacity drops by the bytes |
| `TxDevice.Device.PopCompletion` | software/src/enso/pipe.cpp:385-391 | the slot at the head names the pipe and bytes of the oldest recorded request |
| `TxDevice.Device.PopCompletions` | software/src/enso/pipe.cpp:383-391 | popping as many slots as there are completions reports as many requests, oldest first |
| `TxDevice.Device.NotifyRxTxPipes` | software/src/enso/pipe.cpp:393-397 | every RX/TX pipe gives back what completed |
| `TxDevice.Device.ProcessCompletions` | software/src/enso/pipe.cpp:383-398 | reclaims all that is finished, up to a batch, reports every completion in order, and brings every RX/TX pipe up to date |
| `TxDevice.Device.FetchCompletions` | software/src/enso/pipe.cpp:384-384 | as many completions as the reclaimed descriptors end requests, plus those counted before |
| `TxDevice.Device.WaitForRecord` | software/src/enso/pipe.cpp:366-376 | does nothing while fewer than 16381 requests are pending; otherwise the wait ends with room in the pending ring, and only earlier requests complete in it |
| `TxDevice.Device.Send` | software/src/enso/pipe.cpp:360-381 | publishes and then records the request; with fewer than 16381 pending requests it does nothing else, and with room in the ring it only appends |
| `TxDevice.Device.BeginTransmission` | software/include/enso/pipe.h:841-848 | app_begin moves past the bytes before the device sends them |
| `TxDevice.Device.PublishRequest` | software/src/enso/pipe.cpp:364-364 | the begun request is published, in protocol steps |
| `TxDevice.Device.ApplyConfig` | software/src/enso/pipe.cpp:356-358 | with an empty ring it is the configuration step of the machine, so runs may configure between sends |
| `ZeroCopy.StepKeepsInv` | software/include/enso/pipe.h:1160-1177 | every step keeps freed <= completed <= sent <= confirmed <= written and the capacity equation |
| `ZeroCopy.RxSpaceSafe` | software/include/enso/pipe.h:1160-1177 | in every run RX space being transmitted is not given back, and the remembered capacity plus what completed and was not freed is the TX capacity plus the send in progress |
| `ZeroCopy.IdleProcessingFreesAll` | software/include/enso/pipe.h:1169-1177 | outside a send, processing completions gives back everything completed |
| `ZeroCopy.TransmitStepProjects` | software/src/enso/pipe.cpp:383-398 | steps of the transmit protocol move a pipe's counters only as the zero-copy machine allows |
| `RxTxSystem.ReceiveProjects` | software/src/pcie.cpp:311-383 | receive steps move the bytes of an RX/TX pipe as the zero-copy machine allows |
| `RxTxSystem.TransmitProjects` | software/src/enso/pipe.cpp:360-398 | so do transmit steps |
| `RxTxSystem.GainIsWhole` | software/include/enso/pipe.h:1169-1177 | what a gain in TX capacity gives back is a whole number of flits, all of them confirmed |
| `RxTxSystem.StepKeepsInv` | software/include/enso/pipe.h:1160-1177 | in one machine with all receive, transmit and NIC steps, every step keeps both protocols and every RX/TX pipe in order |
| `RxTxSystem.RunKeepsInv` | software/include/enso/pipe.h:1160-1177 | over every run |
| `RxTxSystem.NicNeverOverwritesTransmission` | software/include/enso/pipe.h:1160-1177 | in every run no byte of an unreclaimed descriptor of any pipe lies in a flit that the NIC may write before more space is given back |
| `RxProtocol.SliceIsStream` | software/src/pcie.cpp:357-383 | what a receive shows is the next part of the NIC's stream, across the end of the ring |
| `RxProtocol.StepKeepsInv` | software/src/pcie.cpp:311-383 | every NIC and application step keeps the receive invariant |
| `RxProtocol.RunKeepsInv` | software/src/pcie.cpp:311-383 | every state of every run has it |
| `RxProtocol.StreamRefinement` | software/src/enso/pipe.cpp:70-91 | freed <= confirmed <= consumed <= notified <= written <= freed + ring - 1, the ring holds the unfreed part, and all that was received is a prefix of what was written |
| `RxQueue.RxBufPair.ConsumeNotification` | software/src/pcie.cpp:320-336 | clears the signal, moves the head, stores the tail and queues the pipe id |
| `RxQueue.RxBufPair.GetNewTails` | software/src/pcie.cpp:311-351 | consumes up to 64 notifications, those already posted first and in order, takes over their tails, and stops early only when the next slot is empty |
| `RxQueue.RxBufPair.ConsumeQueue` | software/src/pcie.cpp:357-383 | reports exactly what was announced and not received; confirms it unless peeking |
| `RxQueue.RxBufPair.Confirm` | software/include/enso/pipe.h:583-587 | the tail moves past the confirmed flits, and the flits are received |
| `RxPipes.RxEnsoPipe.ConfirmBytes` | software/include/enso/pipe.h:583-587 | the tail moves by the whole flits of the bytes, modulo the ring |
| `RxQueue.RxBufPair.Peek` | software/src/enso/pipe.cpp:76-83 | outside next-pipe mode every posted notification is consumed first, up to a batch; then the amount available, cut at the limit; a next pipe relies on the tails it has |
| `RxQueue.RxBufPair.RecvBytes` | software/src/enso/pipe.cpp:70-74 | the bytes returned are the next slice of the stream, and less than the limit only when the pipe is drained; outside next-pipe mode after fetching all posted notifications up to a batch; on a next pipe it is one receive step and leaves the id ring alone |
| `RxQueue.RxBufPair.FreeBytes` | software/src/pcie.cpp:446-453 | the head moves by the flits that hold the bytes; the id ring is untouched |
| `RxQueue.RxBufPair.Clear` | software/src/pcie.cpp:455-458 | everything received is given back, and nothing else changes |
| `RxQueue.RxBufPair.GetNextEnsoPipeId` | software/src/pcie.cpp:397-421 | the oldest queued id, after fetching a batch when none is queued; -1 only when the next notification slot is empty too |
| `RxQueue.RxBufPair.NextRxPipeToRecv` | software/src/enso/pipe.cpp:241-279 | takes the queued ids in order, skips exactly drained pipes, fetches only when the queue is used up, and returns a pipe with data; every other pipe with data is still queued, and null means that all pipes are drained and the next slot is empty |
| `RxQueue.RxBufPair.ServePipes` | software/src/enso/pipe.cpp:241-279 | an application that drains each returned pipe, in portions and with frees of its own choice, never loses a pipe with data nor overflows the id ring |
| `RxQueue.RxBufPair.DrainPipe` | software/src/enso/pipe.cpp:70-91 | any sequence of receive limits and frees, with the NIC at work, ends with the pipe drained, no other pipe touched and the id ring as it was |
| `RxQueue.NextKeeps` | software/src/pcie.cpp:397-421 | leaving a drained pipe for the next queued one keeps every pipe with data queued |
| `RxQueue.BusyIsTailsDiffer` | software/src/enso/pipe.cpp:255-259 | a pipe has data iff its wrapped tails differ |
| `RxQueue.AvailableExact` | software/src/pcie.cpp:374-375 | the 32-bit difference modulo the ring is the number of flits in between, and 0 iff there are none |
| `RxQueue.ConfirmsAllIff` | software/include/enso/pipe.h:583-587 | what a receive returns is confirmed in full iff the limit is a multiple of 64 or does not cut the data |
| `Flits.AdvanceWhole` | software/src/pcie.cpp:446-449 | a positive multiple of 64 bytes advances by exactly that many flits |
| `Flits.AdvanceRoundsUp` | software/src/pcie.cpp:446-449 | any other count is rounded up to whole flits |
| `Spsc.SignalsExact` | software/include/enso/queue.h:306-310 | the signal at the tail says full exactly when every slot is used, the one at the head says empty exactly when none is, and the head slot holds the oldest value |
| `Spsc.StepKeepsInv` | software/include/enso/queue.h:306-410 | each micro-step of either thread keeps the queue invariant |
| `Spsc.RunKeepsInv` | software/include/enso/queue.h:306-410 | every interleaving has it throughout |
| `Spsc.Linearizable` | software/include/enso/queue.h:306-410 | popped values are a prefix of pushed ones, the occupied slots are one circular run, and no unread slot is overwritten |
| `Spsc.FullCapacityUsable` | software/include/enso/queue.h:306-402 | a push succeeds iff fewer values than slots are queued, a pop iff there is one, whatever the other thread is doing |
| `Spsc.TakesEffectAtOnce` | software/include/enso/queue.h:306-410 | a push takes effect at its store and a pop at its clear, on the contents as they then are; no other micro-step changes the contents |
| `SharedQueue.QueueProducer.Push` | software/include/enso/queue.h:306-323 | appends the value, or fails exactly when full and changes nothing |
| `SharedQueue.QueueConsumer.Front` | software/include/enso/queue.h:385-391 | the oldest value, left in place |
| `SharedQueue.QueueConsumer.Pop` | software/include/enso/queue.h:398-410 | takes the oldest value, or reports an empty queue and changes nothing |
| `SharedQueue.QueueProducer.Synchronize` | software/include/enso/queue.h:347-364 | stops at the lowest free slot; fails exactly when there is none |
| `SharedQueue.QueueConsumer.Synchronize` | software/include/enso/queue.h:434-452 | stops after the highest free slot; a full queue is refused, and a queue that is not full is refused iff slot 0 is occupied and the last slot free |
| `SharedQueue.FullIffAllOccupied` | software/include/enso/queue.h:347-362 | a queue is full iff every slot is occupied, so a full queue is refused by both scans |
| `SharedQueue.RefusedIffStartsAtZero` | software/include/enso/queue.h:447-450 | a queue that is not full is refused by the consumer iff its values start at slot 0 |
| `SharedQueue.ProducerSyncExact` | software/include/enso/queue.h:347-362 | for every non-full queue the producer lands after the run when it contains slot 0 and at 0 otherwise; right iff slot 0 is occupied or the run ends at the buffer's end |
| `SharedQueue.ConsumerSyncExact` | software/include/enso/queue.h:434-450 | the consumer lands at the run's first slot when it contains the last slot and at 0 otherwise; accepted and right iff the last slot is occupied, or the queue is empty with its head at 0 |
| `SharedQueue.ConsumerRefusedAfterPush` | software/include/enso/queue.h:447-450 | a queue of four slots with one value in slot 0 is refused as full |
| `SharedQueue.SyncCanMiss` | software/include/enso/queue.h:347-357 | a queue of four slots with one value in slot 1, where the producer joins at the wrong slot |
| `Ipc.StepKeepsInv` | software/src/backends/software/dev_backend.h:89-163 | every step of application and backend keeps the protocol invariant |
| `Ipc.RunKeepsInv` | software/src/backends/software/dev_backend.h:89-163 | every run has it throughout |
| `Ipc.ReplyMatching` | software/src/backends/software/dev_backend.h:104-129 | at most one reply is in flight, a waiting call finds its own, the k-th reply answers the k-th request that asks for one, with writes posted at will in between |
| `Ipc.WaitingMakesProgress` | software/src/backends/software/dev_backend.h:113-120 | a blocked call always has a step ahead of it, and backend steps bring it nearer |
| `IpcFine.StepRefines` | software/src/backends/software/dev_backend.h:89-163 | over two queues at their micro-steps, every memory access is the protocol step that takes effect at it, or changes nothing |
| `IpcFine.FineStepKeepsInv` | software/src/backends/software/dev_backend.h:89-163 | every memory access keeps both queues, the threads and the protocol in order |
| `IpcFine.FineReplyMatching` | software/src/backends/software/dev_backend.h:104-129 | in every interleaving of the memory accesses no reply assertion fails and each call reads its own reply |
| `Ipc.DevBackend.PushRequest` | software/src/backends/software/dev_backend.h:89-102 | the request is issued once, after blocking while the queue is full |
| `Ipc.DevBackend.MmioWrite32` | software/src/backends/software/dev_backend.h:89-102 | posts the write and takes no reply |
| `Ipc.DevBackend.Call` | software/src/backends/software/dev_backend.h:137-163 | returns the backend's answer to this very request, and leaves no reply behind |
| `Ipc.DevBackend.MmioRead32` | software/src/backends/software/dev_backend.h:104-129 | returns the value of the backend's answer for that address |
| `BitOps.Smear` | software/kernel/linux/intel_fpga_pcie_chr.c:1100-1103 | four or-shift lines fill every bit below the highest of a 16-bit number |
| `BitOps.RoundUpToPo2` | software/kernel/linux/intel_fpga_pcie_chr.c:1098-1106 | the least power of two not below, up to 2^15; 0 for 0 and above |
| `BitOps.RoundDownToPo2Mask` | software/kernel/linux/intel_fpga_pcie_chr.c:1118-1125 | the mask of the largest power of two not above |
| `BitOps.AndMask` | software/kernel/linux/intel_fpga_pcie_chr.c:778-783 | and-ing with 2^k - 1 tests for multiples of 2^k |
| `BitOps.AndIsMod` | software/kernel/linux/intel_fpga_pcie_chr.c:778-783 | and-ing with 2^k - 1 is the remainder by 2^k |
| `Hprxm.GoodIsAligned` | software/kernel/linux/intel_fpga_pcie_chr.c:762-877 | a good access has at least 4 bytes and is a multiple of its size into its 32-byte frame |
| `Hprxm.AccessLeftJustified` | software/kernel/linux/intel_fpga_pcie_chr.c:827-841 | emits good accesses of strictly decreasing powers of two that tile the range once and in order |
| `Hprxm.AccessRightJustified` | software/kernel/linux/intel_fpga_pcie_chr.c:863-878 | the same with strictly increasing powers of two |
| `Hprxm.SplitPoint` | software/kernel/linux/intel_fpga_pcie_chr.c:786-799 | the loop ends at the only multiple of some power of two in the range |
| `Hprxm.HprxmAccess` | software/kernel/linux/intel_fpga_pcie_chr.c:762-804 | every DWORD-aligned access is covered exactly, once and in order, by good accesses: largest power first with an aligned start, smallest first with an aligned end, otherwise up to the split point and down from it |
| `HprxmUnique.DescendingUnique` | software/kernel/linux/intel_fpga_pcie_chr.c:827-841 | a range has only one tiling by decreasing powers of two |
| `HprxmUnique.AscendingUnique` | software/kernel/linux/intel_fpga_pcie_chr.c:863-878 | and only one by increasing powers of two |
| `HprxmUnique.SplitUnique` | software/kernel/linux/intel_fpga_pcie_chr.c:786-799 | there is only one split point |
| `HprxmUnique.SplitIsUnique` | software/kernel/linux/intel_fpga_pcie_chr.c:762-804 | so the contract of the splitter allows exactly one list of accesses |
| `HprxmUnique.OnePartCount` | software/kernel/linux/intel_fpga_pcie_chr.c:778-785 | an access in one part takes as many accesses as its count has one bits, and a power of two takes one |
| `Hprxm.SizesImplemented` | software/kernel/linux/intel_fpga_pcie_chr.c:894-935 | for at most 64 bytes every access has one of the sizes the size switch handles |
| `Hprxm.StuckStays` | software/kernel/linux/intel_fpga_pcie_chr.c:792-799 | a search for the split point that is stuck goes round again and stays stuck |
| `Hprxm.RightRestLarge` | software/kernel/linux/intel_fpga_pcie_chr.c:863-878 | a right-justified access of 32768 bytes or more is not used up when its power wraps to 0 |
| `Hprxm.TooLongNeverCompletes` | software/kernel/linux/intel_fpga_pcie_chr.c:762-804 | every access that ends more than 32768 bytes from its frame subtracts 0 for ever, divides by 0, or searches for its split point for ever |
| `Allocator.StepKeepsInv` | software/kernel/linux/intel_fpga_pcie_ioctl.c:539-673 | open, alloc, free and release keep ownership a disjoint union and the counts equal modulo 2^32 |
| `Allocator.OwnershipConserved` | software/kernel/linux/intel_fpga_pcie_ioctl.c:539-673 | over every sequence of operations on one device |
| `Fallback.FallbackIdsAreFront` | software/kernel/linux/intel_fpga_pcie_ioctl.c:559-583 | with one owner freeing last-in first-out, fallback ids are always exactly 0 .. nb_fb_queues - 1 and allocated |
| `Fallback.FreeKeepsFrontIffLast` | software/kernel/linux/intel_fpga_pcie_ioctl.c:664-668 | freeing a fallback pipe keeps that iff it is the last one |
| `Fallback.FallbackMask` | software/src/enso/config.cpp:182-188 | mask + 1 is the largest power of two not above the number of fallback pipes; 0 for none |
| `Fallback.SteeringIsLive` | software/src/enso/config.cpp:182-188 | for every hash, hash & mask is hash modulo mask + 1 and an allocated fallback pipe |
| `Ioctl.LowestClearBit` | software/kernel/linux/intel_fpga_pcie_ioctl.c:561-567 | the shift loop finds the lowest clear bit of a byte |
| `Ioctl.HighestClearBit` | software/kernel/linux/intel_fpga_pcie_ioctl.c:587-592 | the shift loop finds the highest clear bit of a byte |
| `Ioctl.ScanUp` | software/kernel/linux/intel_fpga_pcie_ioctl.c:560-572 | the lowest free id, or none is free |
| `Ioctl.ScanDown` | software/kernel/linux/intel_fpga_pcie_ioctl.c:586-597 | the highest free id, or none is free |
| `Ioctl.AllocPipe` | software/kernel/linux/intel_fpga_pcie_ioctl.c:539-620 | -ENOMEM iff none is free; a fallback pipe is the lowest free id and only when contiguous, another pipe the highest; both bitmaps and counts move together |
| `Ioctl.FreePipe` | software/kernel/linux/intel_fpga_pcie_ioctl.c:631-673 | succeeds iff the handle owns the pipe, and then clears it in both bitmaps and counts |
| `Ioctl.Release` | software/kernel/linux/intel_fpga_pcie_chr.c:229-237 | takes the handle's pipes and fallback count off the device |
| `Ioctl.Driver.Open` | software/kernel/linux/intel_fpga_pcie_chr.c:119-199 | is the allocator's open step |
| `Ioctl.Driver.Alloc` | software/kernel/linux/intel_fpga_pcie_ioctl.c:539-620 | is an allocator step or changes nothing |
| `Ioctl.Driver.Free` | software/kernel/linux/intel_fpga_pcie_ioctl.c:631-673 | is an allocator step exactly when it is enabled |
| `Ioctl.Driver.Close` | software/kernel/linux/intel_fpga_pcie_chr.c:209-245 | is the allocator's release step |
| `Packets.PktLenIsTotalLength` | software/include/enso/helpers.h:105-115 | the length is the Total Length of section 3.1 of RFC 791 plus 14, modulo 2^16; without the modulus iff that fits in 16 bits |
| `Packets.StepCoversPacket` | software/include/enso/helpers.h:117-121 | a step covers the packet, wastes less than a flit and moves at least 64 bytes; a length of 0 moves exactly 64 |
| `Packets.BatchUnique` | software/include/enso/pipe.h:1283-1312 | there is exactly one maximal walk over a batch |
| `Packets.MessageIterator.Advance` | software/include/enso/pipe.h:1298-1312 | moves to the next message, counts its bytes and confirms them unless peeking |
| `Packets.ForEach` | software/include/enso/pipe.h:1283-1342 | the range loop visits exactly the maximal walk of whole messages or the first message_limit, counts its bytes and moves the tail by exactly those |
| `Packets.ForEachPkt` | software/include/enso/pipe.h:1350-1413 | the same for packets, for every content of memory |
| `Ensogen.PcapHandlerContext.HandlePacket` | software/examples/ensogen.cpp:500-542 | a packet that is not IPv4 is refused; otherwise memory holds it, padded with zeroes, right behind all earlier ones; buffers lie one after the other, none overflows, and one is closed only when the next packet does not fit |
| `Ensogen.CopyTo` | software/examples/ensogen.cpp:536-536 | memcpy replaces exactly the destination bytes |
| `Ensogen.PutStores` | software/examples/ensogen.cpp:533-541 | after the copy every buffer of memory holds its packets, the new one included |
| `Ensogen.Pack` | software/examples/ensogen.cpp:683-695 | succeeds iff all packets are IPv4, and then the used bytes of the buffers in memory are the padded packets of the capture in order; a buffer is closed only when the next packet does not fit |
| `Ensogen.Replicate` | software/examples/ensogen.cpp:697-711 | the used bytes of a small capture's only buffer are its packets as often as they fit, with no room for another copy; other captures stay as they are |
| `Ensogen.ReplicatedRepeats` | software/examples/ensogen.cpp:697-711 | what the buffers then hold is a whole number of copies of the capture |
| `Ensogen.Totals` | software/examples/ensogen.cpp:713-720 | the packets and the used bytes of the buffers are those of one round |
| `Ensogen.PacketInMemory` | software/examples/ensogen.cpp:742-750 | the header read at the k-th step of the walk over memory is that of the k-th packet |
| `Ensogen.BufferBytes` | software/examples/ensogen.cpp:740-752 | walking memory by the header lengths gives the padded bytes of a buffer's first packets |
| `Ensogen.PartialBytes` | software/examples/ensogen.cpp:739-757 | whole buffers and a walk over memory give the padded bytes of the first packets of a round |
| `Ensogen.TotalBytesToSend` | software/examples/ensogen.cpp:726-757 | the padded bytes of the first nb_pkts packets of the endless repetition |
| `Ensogen.OneDescriptor` | software/examples/ensogen.cpp:595-614 | every transfer takes one descriptor, for just its region, so it is one request with one completion |
| `Ensogen.SendWhole` | software/examples/ensogen.cpp:628-632 | a whole buffer leads to the next one, or to the next round |
| `Ensogen.SendPart` | software/examples/ensogen.cpp:601-614 | whatever part of the buffer goes out, what was sent is a beginning of the repetition |
| `Ensogen.FetchRegion` | software/examples/ensogen.cpp:610-612 | the NIC fetches the bytes that memory holds at the region |
| `Ensogen.SendHasRoom` | software/examples/ensogen.cpp:597-600 | below the fill threshold the ring has room for the transfer |
| `Ensogen.SendAccounted` | software/examples/ensogen.cpp:612-614 | a transfer adds one to the completions that the ring owes, as to the pending transmissions |
| `Ensogen.ReclaimAccounted` | software/examples/ensogen.cpp:635-640 | the ring hands out at most as many completions as transmissions are pending, and owes the rest |
| `Ensogen.Sender.Transmit` | software/examples/ensogen.cpp:610-614 | the region goes to the ring, and pending transmissions still equal what the ring owes |
| `Ensogen.Sender.GetCompletions` | software/examples/ensogen.cpp:644-648 | takes all completions there are, up to a batch; pending transmissions never underflow and still equal what the ring owes; a poll reclaims something or uses up NIC patience |
| `Ensogen.Sender.SendNext` | software/examples/ensogen.cpp:600-633 | what the NIC is told to fetch is the next part of the repetition; the ring has room, so nothing is reclaimed; it stops exactly at the total |
| `Ensogen.Sender.TransmitPkts` | software/examples/ensogen.cpp:595-642 | sends one buffer iff fewer than 16382 transmissions are pending, and takes completions iff more than a quarter of the ring is pending and that was ignored more than 1024 times; pending transmissions equal what the ring owes, and every call brings the end nearer |
| `Ensogen.Sender.TransmitLoop` | software/examples/ensogen.cpp:872-874 | it comes to its end, whatever the NIC's patience, and has then sent as many bytes as asked |
| `Ensogen.Sender.ReclaimAllBuffers` | software/examples/ensogen.cpp:644-648 | it comes to its end with nothing pending and an empty ring |
| `Ensogen.SendsExactlyWhatWasAsked` | software/examples/ensogen.cpp:697-757 | as many bytes as counted, from the repetition of the buffers, are the padded first nb_pkts packets of the repeated capture |
| `Ensogen.Run` | software/examples/ensogen.cpp:683-757 | for every capture of IPv4 packets and nb_pkts > 0 it ends, and the bytes fetched from memory are those packets, padded, in order |

## Left out

- Huge pages, mmap, pagemap translation, UIO, PCI probing and thread pinning: system calls. The mirrored mapping is the fact that index i and index i + ring size show the same byte.
- `TxPipe::pending_transmission()` and `RxPipe::capacity()`: their formulas do not compute the documented quantity.
- TxDevice.Device.ApplyConfig: only with an empty ring, because otherwise completions can be lost (Configs.ConfigConservesIffQuiet).
- TxQueue.NotificationBufPair.SendToQueue: a request with more descriptors than the ring has slots would wait for itself and is excluded; the statistic tx_full_cnt is not modelled, and MMIO writes take effect at once and in order.
- TxDevice.TxPipe.SendAndFree: sizes are positive multiples of 64 up to the capacity, as the documentation demands of callers; the zero-byte case is in ZeroSends.
- TxDevice.RxTxPipe.SendAndFree: only confirmed bytes may be sent, as documented.
- ZeroCopy.RxSpaceSafe: one RX/TX pipe at a time; RxTxSystem and the classes of TxDevice cover any number of them.
- TxDevice.RxTxPipe.ConfirmBytes: that the NIC writes no further than the space it was given is required here; RxTxSystem proves it.
- RxQueue.RxBufPair.RecvBytes: limits are multiples of 64; RxQueue.ConfirmsAllIff gives the exact condition.
- RxQueue.RxBufPair.NextRxPipeToRecv: the LATENCY_OPT variant; the other variant returns the first queued id, drained or not, and NextRxTxPipeToRecv repeats the same loop for RX/TX pipes. Prefetching a pipe rewrites the head register with the value it has.
- RxQueue.RxBufPair.ServePipes: an application that does not drain a returned pipe before it asks for the next is outside the promise.
- SharedQueue.QueueProducer.Synchronize: opening the shared memory and creating a queue are system calls; only the scan of an existing queue is modelled. align_cache_power_two is a parameter: any capacity above 0.
- Ipc.DevBackend.Call: the two queues are values that are pushed and popped at once, which IpcFine.StepRefines justifies; one member stands for the eight blocking calls, which differ in the message they build; what the backend answers is arbitrary.
- Hprxm.HprxmAccess: accesses that end at most 32768 bytes after the start of their 32-byte frame. Its caller cuts them to 64 bytes (software/kernel/linux/intel_fpga_pcie_chr.c:555-556), and Hprxm.TooLongNeverCompletes shows that no longer one is ever completed.
- rxm_access, the prefetchable read path and the register accesses themselves: easy or hardware.
- Allocator.OwnershipConserved: each ioctl is atomic and user copies succeed. The code sets the bits after releasing the semaphore, and some error returns keep it.
- Ioctl.Driver.Open: memory allocation does not fail.
- Notification-buffer ioctls repeat the pipe allocator without fallback; sel_dev with pipes held and freeing another handle's buffer are not checked by the code.
- Packets.ForEach: message limits and byte counts are unbounded; get_next_pkt beyond the batch reads whatever memory holds.
- Ensogen.Pack: captures of packets of 18 to 65535 bytes that are as long as their IP header says, and for which huge pages are available; a new huge page holds zeroes. Physical and virtual addresses are the same numbers.
- Ensogen.Sender.TransmitLoop: totals are unbounded rather than 64-bit; stopping by a signal, nb_pkts = 0 (unbounded sending) and the packet and good-byte statistics are not modelled. `enso::send` and `enso::get_completions` are the calls of send_to_queue and get_unreported_completions that software/src/enso/socket.cpp makes.
- Memory ordering: 64-byte stores are atomic and seen in order. memcpy_64_align, the DMA descriptor code, configuration space, the Python frontend, the deprecated socket layer and statistics printing are plumbing.
