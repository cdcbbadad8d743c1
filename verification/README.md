# Verified model of the AXCL host PCIe driver

The AXCL host stack talks to its accelerator cards through protocols written by hand over
shared memory. This project models the ones with the most state, and proves what they are
relied on for. `dafny verify dfyconfig.toml` checks everything.

## What is modelled

**The message ring** (`RingLayout`, `MessageHead`, `RingQueue`, `Kfifo`, `RingProtocol`,
`RingProgress`, `RingAligned`).
Two machines share a byte buffer of any size and two published counters. A record is a
24-byte head and a payload; it may wrap around the end of the buffer, and it starts at the
top when its head does not fit at the bottom. The subtle point is that the free-space test
looks at the padded length, while the jump moves the counter by up to 23 bytes more. The ring
appears twice. `Kfifo` is the driver's code on an array, where sending appends to a queue of
messages and receiving takes from its front. `RingProtocol` is a machine in which every byte
copied, every counter loaded and every counter published is a step of its own, so that a run
is any interleaving of writer and reader; its main results are `RunSafety`,
`WritesMissUnread` and `PortOrderWhileOpen`. `RingAligned` adds that rings whose size is a
multiple of 32 never jump. `CopiedAsOneCall` and `RingProgress` join the two: whatever interleaves,
the buffer a message is published from is what one call of the array code leaves, and the
machine can carry out every such call from wherever it stands.

**Around the ring** (`Delivery`, `SendMessage`, `Mailbox`, `Doorbell`, `DoorbellProgress`). `Delivery` is the
receive loop and the queue of each port. `SendMessage` is the retry logic, with the peer
draining the ring and other threads of the host sending while the sender sleeps. `Doorbell` is
a machine of any number of sending threads and the slave's handler. It shows that mailbox credit stays within its limit although
the slave may clear a request before the host has counted it, and says exactly when a
step leaves a message unannounced: it is a notifier that fails or a sender that gives up on a
busy mailbox slot, and nothing else leads the slave to the ring. Lack of credit never does.

**The virtual network driver** (`IvcRing`, `NetTx`, `NetTxDriver`, `NetRx`, `NetRxDriver`,
`LinkState`, `LinkExact`, `LinkThreads`, `LinkDriver`). Buffers circulate through two counter rings in each direction. `NetTx` and
`NetRx` are machines of single accesses with the endpoint as an agent that returns only what
it took; the two driver modules are the host's code on arrays and lists, each call shown to be
a path of machine steps. `LinkState` is the link state machine with every access of
an open or a close as a step, since control messages are handled in an interrupt that takes no
lock; `LinkExact` says exactly when the law of the link holds: what counts is the last message that
each update or pair of stores meets. `LinkThreads` interleaves the handler's accesses as well,
and `LinkDriver` is the code.

**The port registry** (`PortOwnership`, `PortBooks`, `PortMeaning`, `PortShortGrant`, `PortRegistry`). The global table of
ports and the nested lists of processes, devices and port groups must agree. `PortBooks`
states each operation on values and proves the law over all histories; `PortRegistry` does
the operations on the table and the lists. `PortMeaning` says what each operation does to handles
and ports without the functions of `PortBooks`.

**The scatter allocator** (`ScatterAlloc`), **firmware loading** (`Firmware`) and **image
buffer sizes** (`ImageBuffer`) are smaller: blocks taken greedily and freed by recomputed
order, chunked writes that add up to whole images, and two-stage rounding.

## Where the code does less than it seems to

These are properties one might expect, that the code does not have. Each is kept as the code
has it, with the condition under which it holds.

- A refused enqueue (-2) is not caught by the `ret < 0` test, since `ret` is unsigned; the
  sender goes on to publish `wp`, which is unchanged (`Kfifo.Kfifo.SendDataToShmemBuffer`).
- A message can stay unannounced (`Doorbell.BusySlotCanLose`,
  `Doorbell.FailedNotifierCanLose`), and `Doorbell.LostExactly` says when.
- A control message handled inside an open can leave the interface up with the peer down, the
  carrier on with the interface down, or `rc_link_status` wrong
  (`LinkState.StaleUpdateBreaksLaw`, `LinkState.StaleUpdateBreaksCarrier`,
  `LinkState.LateAckBreaksMirror`); `LinkExact.LawOutsideExactly` gives the exact condition. After
  that, an open and the interrupt may both fill the ring of empty buffers
  (`LinkState.BothMayAllocate`).
- After a close that times out, the carrier is still on (`LinkState.CloseTimeoutLeavesCarrier`,
  `LinkState.StaleExactly`), and reopening does not bring the link back
  (`LinkState.ReopenedStaysSentDown`, `LinkState.SentDownExactly`).
- A request for user ports can succeed with fewer ports than asked for, and can then not be
  recycled (`PortShortGrant.CheckLetsShortGrantThrough`, `PortBooks.RequestThenRecycle`).
- A create whose send or acknowledgement fails keeps its ports marked for ever
  (`PortBooks.LeaksExactly`, `PortBooks.OnlyCreateLeaks`).
- A scatter allocation that fails part way forgets the blocks it had taken, and the buffer
  refuses every later allocation (`ScatterAlloc.MmbBuf.SgAlloc`).
- A mapping of a scattered buffer reports the result of the last range only
  (`ScatterAlloc.MmbBuf.Mmap`).
- Strides are the least possible only for alignments that are multiples of 16 or beyond any line
  (`ImageBuffer.LeastStrideIff`), and for three 4:2:2 formats, and for every stride that is no
  multiple of 16, the computed buffer is too small (`ImageBuffer.BufferHoldsImageIff`,
  `ImageBuffer.BufferBelowStride`).

## Conventions

Counters are natural numbers. In the message ring they stay below 2^64, and 32-bit sums are
reduced explicitly in `Kfifo`; the length check of `ax_pcie_msg_send` is what keeps them from
wrapping. Writes of one machine become visible to the other in program order, as the driver's
flushes and barriers arrange. Bus errors, memory failures, doorbell refusals, the answers of
the page allocator and the results of transfers are parameters of the methods, so every
theorem holds for all patterns of them. Ghost parameters and results named `path`, `trace`,
`taken`, `rest` or `added` carry histories and are no part of the driver.

## Model

| member | source | states |
|---|---|---|
| RingLayout.Advance | src/usr/src/axcl/drv/pcie/driver/host_dev/ax_pcie_msg_transfer.c:135-191 | a record moves the counter past its own bytes by more than 32, and by at most its padded length plus 23 |
| RingLayout.Span | src/usr/src/axcl/drv/pcie/driver/host_dev/ax_pcie_msg_transfer.c:135-149 | the padding adds at least 33 and at most 64 bytes to head and payload, and the sum fits 32 bits for every admitted length |
| RingLayout.SpanAligned | src/usr/src/axcl/drv/pcie/driver/host_dev/ax_pcie_msg_transfer.c:135-149 | the padded length is a multiple of 32 |
| RingLayout.PhysIsMod | src/usr/src/axcl/drv/pcie/driver/host_dev/ax_pcie_msg_transfer.c:161-161 | the lap-by-lap index of a counter is the counter modulo the size |
| RingLayout.PhysDistinct | src/usr/src/axcl/drv/pcie/driver/host_dev/ax_pcie_msg_transfer.c:135-191 | counters less than one lap apart name different bytes, for sizes that need not be powers of two |
| RingLayout.PhysOffset | src/usr/src/axcl/drv/pcie/driver/host_dev/ax_pcie_msg_transfer.c:161-188 | where byte i after a counter lies, with at most one wrap inside a lap |
| RingLayout.StartPlace | src/usr/src/axcl/drv/pcie/driver/host_dev/ax_pcie_msg_transfer.c:165-176 | a record starts at its counter or, when the head does not fit, at the top, and its head is contiguous |
| RingLayout.AlignedNeverJumps | src/usr/src/axcl/drv/pcie/driver/host_dev/ax_pcie_msg_transfer.c:135-191 | one step of either side: if 32 divides size and counter, nothing is skipped and the next counter is a multiple of 32 |
| RingAligned.NeverJumps | src/usr/src/axcl/drv/pcie/driver/host_dev/ax_pcie_msg_transfer.c:135-349 | if 32 divides the size, then in every state of every run wp, rp and every private copy are multiples of 32, and neither side ever jumps to the top |
| MessageHead.HeadRoundTrip | src/usr/src/axcl/drv/pcie/driver/host_dev/ax_pcie_msg_transfer.c:1013-1018 | decoding the 24 encoded head bytes gives the head back |
| MessageHead.HeadLayout | src/usr/src/axcl/drv/pcie/driver/host_dev/ax_pcie_msg_transfer.c:1013-1018 | target, slot, port, magic, length and check word lie in this order, four little-endian bytes each |
| MessageHead.MakeMessage | src/usr/src/axcl/drv/pcie/driver/host_dev/ax_pcie_msg_transfer.c:1013-1018 | the head of a message names the target, the sender's slot, the port and the payload length, and carries the check word |
| RingQueue.QueuePush | src/usr/src/axcl/drv/pcie/driver/host_dev/ax_pcie_msg_transfer.c:369-402 | a stored record behind the published counter makes the queue of unread messages one longer, at its end |
| RingQueue.QueuePop | src/usr/src/axcl/drv/pcie/driver/host_dev/ax_pcie_msg_transfer.c:320-349 | moving the read counter over the first record removes exactly the first unread message |
| RingQueue.QueueKept | src/usr/src/axcl/drv/pcie/driver/host_dev/ax_pcie_msg_transfer.c:135-191 | a buffer that agrees between rp and wp holds the same unread messages |
| RingQueue.EmptyIff | src/usr/src/axcl/drv/pcie/driver/host_dev/ax_pcie_msg_transfer.c:31-34 | in a valid ring rp is never past wp, the two agree exactly if no message is unread, and otherwise the first record ends at or before wp |
| RingQueue.WrittenBufferUnique | src/usr/src/axcl/drv/pcie/driver/host_dev/ax_pcie_msg_transfer.c:167-188 | a record and the untouched rest determine the whole buffer |
| Kfifo.RotatedStores | src/usr/src/axcl/drv/pcie/driver/host_dev/ax_pcie_msg_transfer.c:167-188 | bytes laid over the buffer around its end are the record at its counters, and nothing else changed |
| Kfifo.WrappedChunks | src/usr/src/axcl/drv/pcie/driver/host_dev/ax_pcie_msg_transfer.c:177-183 | the three copies of the ordinary branch lay one record over the buffer, wrap-around included |
| Kfifo.JumpedChunks | src/usr/src/axcl/drv/pcie/driver/host_dev/ax_pcie_msg_transfer.c:167-176 | the two copies of the jump branch lay one record at the top |
| Kfifo.ChunksArePayload | src/usr/src/axcl/drv/pcie/driver/host_dev/ax_pcie_msg_transfer.c:193-219 | the chunks the reader puts together are the payload that was stored |
| Kfifo.HeadAtFirst | src/usr/src/axcl/drv/pcie/driver/host_dev/ax_pcie_msg_transfer.c:256-301 | in a ring with unread messages the head found is the one sent, so its check word is right |
| Kfifo.SentRecordJoinsQueue | src/usr/src/axcl/drv/pcie/driver/host_dev/ax_pcie_msg_transfer.c:369-402 | the record written behind wp, with the rest untouched, extends the queue by that message |
| Kfifo.Kfifo.IsFull | src/usr/src/axcl/drv/pcie/driver/host_dev/ax_pcie_msg_transfer.c:78-82 | full exactly when a whole lap or more is in use |
| Kfifo.Kfifo.CopyRecord | src/usr/src/axcl/drv/pcie/driver/host_dev/ax_pcie_msg_transfer.c:165-188 | the copies into the array are one record laid over it from the right index |
| Kfifo.Kfifo.KfifoIn | src/usr/src/axcl/drv/pcie/driver/host_dev/ax_pcie_msg_transfer.c:135-191 | refuses with -2 and changes nothing, or stores the record and advances by what the reader will advance |
| Kfifo.Kfifo.SendDataToShmemBuffer | src/usr/src/axcl/drv/pcie/driver/host_dev/ax_pcie_msg_transfer.c:369-402 | appends exactly this message, or leaves ring and wp as they were, with the code for each cause |
| Kfifo.Kfifo.IsEmpty | src/usr/src/axcl/drv/pcie/driver/host_dev/ax_pcie_msg_transfer.c:36-76 | reports empty exactly for the empty queue, and a bus error as such |
| Kfifo.Kfifo.ReadDataHead | src/usr/src/axcl/drv/pcie/driver/host_dev/ax_pcie_msg_transfer.c:256-301 | finds the head at the read counter if its check word is there, and gives up otherwise |
| Kfifo.Kfifo.KfifoOut | src/usr/src/axcl/drv/pcie/driver/host_dev/ax_pcie_msg_transfer.c:193-219 | delivers the payload of the first unread message, whole |
| Kfifo.Kfifo.UpdateReadPointer | src/usr/src/axcl/drv/pcie/driver/host_dev/ax_pcie_msg_transfer.c:320-349 | advances by the amount, and through the branch, that the writer took for the same counter and length |
| RingProtocol.WriterKeepsInv | src/usr/src/axcl/drv/pcie/driver/host_dev/ax_pcie_msg_transfer.c:135-191 | every step of the writer keeps the protocol invariant |
| RingProtocol.ReaderKeepsInv | src/usr/src/axcl/drv/pcie/driver/host_dev/ax_pcie_msg_transfer.c:256-349 | every step of the reader keeps the protocol invariant |
| RingProtocol.HeadCheckKeepsInv | src/usr/src/axcl/drv/pcie/driver/host_dev/ax_pcie_msg_transfer.c:279-293 | the failure path of the head check cannot be taken |
| RingProtocol.RunInv | src/usr/src/axcl/drv/pcie/driver/host_dev/ax_pcie_msg_transfer.c:135-402 | the invariant holds in every state of every interleaving |
| RingProtocol.RunSafety | src/usr/src/axcl/drv/pcie/driver/host_dev/ax_pcie_msg_transfer.c:135-402 | in every state of every run: consumed messages are a prefix of those sent, byte for byte; the head check never fails; wp - rp is at most size + 23; the copy length is never clamped |
| RingProtocol.WritesMissUnread | src/usr/src/axcl/drv/pcie/driver/host_dev/ax_pcie_msg_transfer.c:78-82 | no step changes a byte of an unread message, the writer's used-space subtraction never goes below zero, and what it writes ends before its stale out + size |
| RingProtocol.CopiedAsOneCall | src/usr/src/axcl/drv/pcie/driver/host_dev/ax_pcie_msg_transfer.c:165-191 | after any interleaving of single-byte copies the buffer is what one undisturbed call would have left |
| RingProtocol.PortOrderWhileOpen | src/usr/src/axcl/drv/pcie/driver/host_dev/ax_pcie_msg_transfer.c:631-725 | over any stretch of any run in which a port is open, it receives exactly the messages sent to it, in order, from the first one not consumed when the stretch began |
| RingProtocol.PortOrder | src/usr/src/axcl/drv/pcie/driver/host_dev/ax_pcie_msg_transfer.c:631-725 | the stretch that begins with the run |
| RingProtocol.QueueIsSent | src/usr/src/axcl/drv/pcie/driver/host_dev/ax_pcie_msg_transfer.c:631-725 | a consumption history that never skips a port feeds it the sent subsequence |
| RingProtocol.FailedNotifyKeepsMessage | src/usr/src/axcl/drv/pcie/driver/host_dev/ax_pcie_msg_transfer.c:689-700 | a notifier that fails leaves the message at the head of the ring and the ring as it was |
| RingProgress.SendRuns | src/usr/src/axcl/drv/pcie/driver/host_dev/ax_pcie_msg_transfer.c:135-402 | with room, and wherever the reader stands, the writer's steps add up to one call of the array code: the same buffer, the same wp, and this message published |
| RingProgress.RefusedRuns | src/usr/src/axcl/drv/pcie/driver/host_dev/ax_pcie_msg_transfer.c:369-402 | without room they end after the two loads if the ring is full, and with wp written back unchanged if there is some room but too little |
| RingProgress.ReceiveRuns | src/usr/src/axcl/drv/pcie/driver/host_dev/ax_pcie_msg_transfer.c:256-349 | with a message in the ring, and wherever the writer stands, the reader's steps add up to one turn of the receive loop: the first message goes whole to the receiver of its slot and port, or is passed over, and rp moves past it |
| Delivery.Consumed | src/usr/src/axcl/drv/pcie/driver/host_dev/ax_pcie_msg_transfer.c:631-725 | a pass consumes exactly the messages before the first bus error or refused message |
| Delivery.PortSentOne | src/usr/src/axcl/drv/pcie/driver/host_dev/ax_pcie_msg_transfer.c:669-694 | a message is meant for a receiver exactly if both slot and port of its head are the receiver's |
| Delivery.RefusedMeans | src/usr/src/axcl/drv/pcie/driver/host_dev/ax_pcie_msg_transfer.c:669-700 | a message is refused exactly if the receiver of its slot and port is open and has no memory for it |
| Delivery.FedJoin | src/usr/src/axcl/drv/pcie/driver/msg/ax_pcie_msg_usrdev.c:32-72 | feeding one stretch of messages and then another is feeding both |
| Delivery.Receiver.NotifierRecv | src/usr/src/axcl/drv/pcie/driver/msg/ax_pcie_msg_usrdev.c:32-72 | appends the payload of the first message to its port's queue, or changes nothing without memory |
| Delivery.Receiver.RecvOne | src/usr/src/axcl/drv/pcie/driver/host_dev/ax_pcie_msg_transfer.c:649-722 | takes the first message off the ring unless the receiver open for its slot and port refuses it; the queue of that slot and port grows by its payload if it is open, and no other queue changes |
| Delivery.Receiver.RecvIrqMem | src/usr/src/axcl/drv/pcie/driver/host_dev/ax_pcie_msg_transfer.c:631-725 | for a fixed wp ends after the messages it can consume; every open port gets exactly the messages among them with its slot and port (Delivery.PortSentOne), in order |
| Delivery.Receiver.MsgRead | src/usr/src/axcl/drv/pcie/driver/msg/ax_pcie_msg_usrdev.c:191-256 | takes the oldest payload of its queue and no other; one that is too long or cannot be copied is lost |
| SendMessage.Sender.SendDataIrq | src/usr/src/axcl/drv/pcie/driver/host_dev/ax_pcie_msg_transfer.c:404-457 | enqueues and rings: -4 exactly for a bus error, -1 for a full ring, -2 for too little room, -3 for enqueued but not announced, else the length |
| SendMessage.Sender.Sleep | src/usr/src/axcl/drv/pcie/driver/host_dev/ax_pcie_msg_transfer.c:1053-1060 | while the sender sleeps the peer drains and other threads of the host send: the ring stays a queue, each port gets exactly its messages, and what is added are the others' messages, in their order |
| SendMessage.Sender.DoAct | src/usr/src/axcl/drv/pcie/driver/host_dev/ax_pcie_msg_transfer.c:1053-1060 | each of the things that happen in a sleep: a drain that takes what one pass can consume, another thread's send with its result, or its ring |
| SendMessage.Sender.RetryDoorbell | src/usr/src/axcl/drv/pcie/driver/host_dev/ax_pcie_msg_transfer.c:1036-1058 | at most ten more tries for a message in the ring, ending exactly at the first that rings: nothing of its own is enqueued again, one request is counted if one rang and none if not |
| SendMessage.Sender.RetrySend | src/usr/src/axcl/drv/pcie/driver/host_dev/ax_pcie_msg_transfer.c:1030-1061 | the tries to enqueue, at most eleven: no try before the last met a bus error, and -4 is returned exactly if the last did; without one the tries end only when the message is in, once, behind what others added before, or when all are used up |
| SendMessage.Sender.SendMessage | src/usr/src/axcl/drv/pcie/driver/host_dev/ax_pcie_msg_transfer.c:986-1061 | one call, with the peer draining and other threads sending in its sleeps, enqueues at most once: once, at a known place, if it returns a length or -3, not at all for -1, -2 and -4; which of these it is follows from the tries it met; all else in the ring is older or others' |
| SendMessage.Sender.MsgSend | src/usr/src/axcl/drv/pcie/driver/host_dev/ax_pcie_msg_transfer.c:1213-1235 | over-long messages are turned away untouched, all others are sent as one message |
| Mailbox.HostIrqToSlave | src/usr/src/axcl/drv/pcie/driver/host_dev/ax_pcie_opt.c:576-651 | rings exactly if at most eight requests are uncleared and one of eleven reads gives a slot; uses the first such slot, writes 1 twice to its data register and then the word that interrupts to its information register; otherwise writes nothing |
| Doorbell.NextKeepsCredit | src/usr/src/axcl/drv/pcie/driver/host_dev/ax_pcie_opt.c:576-609 | every step of host threads and slave keeps the account of requests, mail and clears |
| Doorbell.CreditBound | src/usr/src/axcl/drv/pcie/driver/host_dev/ax_pcie_opt.c:576-588 | in every interleaving, when the data lock is free, 0 <= requests - clears <= limit + 1, and the 32-bit difference never wraps |
| Doorbell.NoCreditIsCovered | src/usr/src/axcl/drv/pcie/driver/host_dev/ax_pcie_opt.c:576-588 | when credit is refused, more than the limit of requests still lead the slave to the ring |
| Doorbell.LostOnlyByAbandoning | src/usr/src/axcl/drv/pcie/driver/host_dev/ax_pcie_msg_transfer.c:404-457 | a message loses its announcement only by a failing notifier or by giving up on a busy mailbox slot |
| Doorbell.NotifierLosesExactly | src/usr/src/axcl/drv/pcie/driver/host_dev/ax_pcie_msg_transfer.c:689-700 | a failing notifier loses the wake-up exactly if the mailbox is empty, no lock holder will ring and no thread will retry |
| Doorbell.RefuseLosesExactly | src/usr/src/axcl/drv/pcie/driver/host_dev/ax_pcie_msg_transfer.c:1037-1056 | a last try refused for want of a slot loses it exactly if messages are unread, the mailbox is empty, the slave is not on its way and no thread will retry |
| Doorbell.GiveUpLosesExactly | src/usr/src/axcl/drv/pcie/driver/host_dev/ax_pcie_msg_transfer.c:1030-1041 | a thread that gives up loses it exactly if besides no lock holder will ring and no other thread will retry |
| Doorbell.LostExactly | src/usr/src/axcl/drv/pcie/driver/host_dev/ax_pcie_msg_transfer.c:404-457 | a step loses a wake-up if and only if it is one of these three under its guard |
| Doorbell.RunCoveredExactly | src/usr/src/axcl/drv/pcie/driver/host_dev/ax_pcie_msg_transfer.c:404-457 | up to any point of a run every unread message is announced if and only if no step before lost a wake-up |
| Doorbell.NoLostWakeUp | src/usr/src/axcl/drv/pcie/driver/host_dev/ax_pcie_msg_transfer.c:404-457 | without those, an unread message always has a request outstanding or the slave in its drain loop |
| Doorbell.QuietMeansDrained | src/usr/src/axcl/drv/pcie/driver/host_dev/ax_pcie_msg_transfer.c:727-749 | without those, once all are quiet every message has been consumed |
| DoorbellProgress.SendRings | src/usr/src/axcl/drv/pcie/driver/host_dev/ax_pcie_opt.c:576-651 | the steps of a send: with at most eight requests uncleared, one more mailbox message and one more request, unless the slot is busy; with more, the thread waits |
| DoorbellProgress.WaiterLooksAgain | src/usr/src/axcl/drv/pcie/driver/host_dev/ax_pcie_msg_transfer.c:1036-1056 | a thread that waits looks at the counters again, once for every try it has left |
| DoorbellProgress.MailDrainsRing | src/usr/src/axcl/drv/pcie/driver/host_dev/ax_pcie_msg_transfer.c:727-749 | one mailbox message is enough for the slave to consume everything in the ring |
| Doorbell.BusySlotCanLose | src/usr/src/axcl/drv/pcie/driver/host_dev/ax_pcie_msg_transfer.c:1024-1061 | a run in which a busy slot on the last retry leaves a message unannounced |
| Doorbell.FailedNotifierCanLose | src/usr/src/axcl/drv/pcie/driver/host_dev/ax_pcie_msg_transfer.c:689-700 | a run in which a failed notifier leaves a message unannounced |
| IvcRing.WriteAhead | src/usr/src/axcl/drv/pcie/driver/include/ax_pcie_net.h:223-275 | filling the slot at wr of a ring that is not full leaves its contents as they were |
| IvcRing.AdvanceWr | src/usr/src/axcl/drv/pcie/driver/include/ax_pcie_net.h:265-275 | advancing wr appends the slot's value |
| IvcRing.AdvanceRd | src/usr/src/axcl/drv/pcie/driver/include/ax_pcie_net.h:277-287 | advancing rd removes the oldest value |
| NetTx.SlotsDisjoint | src/usr/src/axcl/drv/pcie/driver/net/rc-net/ax_pcie_net.c:68-119 | different transmit slots do not overlap |
| NetTx.HandApart | src/usr/src/axcl/drv/pcie/driver/net/rc-net/ax_pcie_net.c:795-835 | the buffer in the host's hand overlaps no buffer in any other place |
| NetTx.SeesRoomKeepsInv | src/usr/src/axcl/drv/pcie/driver/net/rc-net/ax_pcie_net.c:771-791 | once an empty buffer was seen the full ring has room |
| NetTx.HostKeepsInv | src/usr/src/axcl/drv/pcie/driver/net/rc-net/ax_pcie_net.c:750-869 | every access of the transmit path keeps conservation and every packet's bytes |
| NetTx.EndpointKeepsInv | src/usr/src/axcl/drv/pcie/driver/net/rc-net/ax_pcie_net.c:750-869 | an endpoint that returns only buffers it took, in any order, keeps them too |
| NetTx.BuffersConserved | src/usr/src/axcl/drv/pcie/driver/net/rc-net/ax_pcie_net.c:68-119 | in every state of every run the 60 buffers are split between empty ring, hand, full ring and endpoint, none lost or doubled, and the full-ring-full exit is never taken |
| NetTx.PacketsIntact | src/usr/src/axcl/drv/pcie/driver/net/rc-net/ax_pcie_net.c:750-869 | packets are taken in the order sent and keep their bytes from posting until their buffer is given back |
| NetTxDriver.TxRings.AllocTxBuffers | src/usr/src/axcl/drv/pcie/driver/net/rc-net/ax_pcie_net.c:68-119 | fills the empty ring with all 60 slots: the initial state of the machine |
| NetTxDriver.TxRings.StartXmit | src/usr/src/axcl/drv/pcie/driver/net/rc-net/ax_pcie_net.c:750-869 | busy exactly without an empty buffer, and then nothing is sent; otherwise a path of machine steps that posts this packet |
| NetRx.SearchesKeepsInv | src/usr/src/axcl/drv/pcie/driver/net/rc-net/ax_pcie_net.c:996-1016 | the list search never misses |
| NetRx.HostKeepsInv | src/usr/src/axcl/drv/pcie/driver/net/rc-net/ax_pcie_net.c:415-489 | every access of allocation and reception keeps the invariant |
| NetRx.EndpointKeepsInv | src/usr/src/axcl/drv/pcie/driver/net/rc-net/ax_pcie_net.c:962-1049 | every access of an endpoint that posts only buffers it holds, and only while the full ring has room, keeps the invariant |
| NetRx.ListMatchesRings | src/usr/src/axcl/drv/pcie/driver/net/rc-net/ax_pcie_net.c:415-489 | the addresses on ep2h_empty_list are always those being posted, on the empty ring, with the endpoint and on the full ring, each in one place |
| NetRx.DeliveredOnceInOrder | src/usr/src/axcl/drv/pcie/driver/net/rc-net/ax_pcie_net.c:962-1049 | packets reach the stack in full-ring order, every socket buffer at most once, and every one handed out is outstanding or delivered |
| NetRxDriver.RxRings.AllocEmptyBuffers | src/usr/src/axcl/drv/pcie/driver/net/rc-net/ax_pcie_net.c:415-489 | posts the given buffers until the ring is full or the kernel gives no more, as a path of machine steps |
| NetRxDriver.RxRings.FindEntry | src/usr/src/axcl/drv/pcie/driver/net/rc-net/ax_pcie_net.c:996-1003 | finds the first list entry with the address |
| NetRxDriver.RxRings.ProcessEp2hMsg | src/usr/src/axcl/drv/pcie/driver/net/rc-net/ax_pcie_net.c:962-1057 | delivers every packet that is there, up to the weight, as a path of machine steps |
| LinkState.ProcessKeepsLaw | src/usr/src/axcl/drv/pcie/driver/net/rc-net/ax_pcie_net.c:558-600 | every single access of an open or a close keeps the law |
| LinkState.MessageExact | src/usr/src/axcl/drv/pcie/driver/net/rc-net/ax_pcie_net.c:602-630 | a message handled before any access breaks the law exactly under a guard on that access, the link and the message |
| LinkState.UpdateSm | src/usr/src/axcl/drv/pcie/driver/net/rc-net/ax_pcie_net.c:558-571 | an undisturbed update: the interface is up exactly if rx and tx are, and the carrier is touched only when that changes |
| LinkState.Handled | src/usr/src/axcl/drv/pcie/driver/net/rc-net/ax_pcie_net.c:602-630 | what each message does to rx, tx, rc_link_status, the interface and the carrier |
| LinkState.LawExactly | src/usr/src/axcl/drv/pcie/driver/net/rc-net/ax_pcie_net.c:541-715 | the end that every section would come to undisturbed has the law, in every state of a run, if and only if no message comes under its guard |
| LinkExact.MessageDecidesEnd | src/usr/src/axcl/drv/pcie/driver/net/rc-net/ax_pcie_net.c:602-630 | whatever went before in a section, its last message alone decides whether it ends with the law, under a guard on access, link and message |
| LinkExact.LawOutsideExactly | src/usr/src/axcl/drv/pcie/driver/net/rc-net/ax_pcie_net.c:541-715 | for every sequence of opens, closes, timeouts and messages at any access: up implies tx up and rx not down, carrier exactly when up, and rc_link_status as rx_link_state hold in every state outside the sections if and only if no section is left whose last message spoiled it |
| LinkExact.LaterMessageRepairs | src/usr/src/axcl/drv/pcie/driver/net/rc-net/ax_pcie_net.c:563-570 | a LINK_DOWN before the store does harm, and a LINK_UP that follows it there undoes it |
| LinkState.UndisturbedLaw | src/usr/src/axcl/drv/pcie/driver/net/rc-net/ax_pcie_net.c:541-725 | so the law holds outside updates and paired stores if no message is handled inside one |
| LinkState.StaleUpdateBreaksLaw | src/usr/src/axcl/drv/pcie/driver/net/rc-net/ax_pcie_net.c:563-570 | a LINK_DOWN between the reads of an update in an open and its store leaves interface and carrier up with the peer down |
| LinkState.StaleUpdateBreaksCarrier | src/usr/src/axcl/drv/pcie/driver/net/rc-net/ax_pcie_net.c:563-570 | a LINK_UP there can leave the carrier on with the interface down |
| LinkState.LateAckBreaksMirror | src/usr/src/axcl/drv/pcie/driver/net/rc-net/ax_pcie_net.c:587-588 | an acknowledgement between the stores of rx and rc leaves rc_link_status wrong |
| LinkState.OpenAllocatesAlone | src/usr/src/axcl/drv/pcie/driver/net/rc-net/ax_pcie_net.c:574-590 | under the law the interface is down while an open fills the ring of empty buffers, so the interrupt does not |
| LinkState.BothMayAllocate | src/usr/src/axcl/drv/pcie/driver/net/rc-net/ax_pcie_net.c:1078-1083 | once the law is broken, a reachable open fills it with the interface up, so the interrupt may too |
| LinkState.CloseTimeoutLeavesCarrier | src/usr/src/axcl/drv/pcie/driver/net/rc-net/ax_pcie_net.c:695-715 | even undisturbed, after a close that timed out the carrier is on while rx is not up |
| LinkState.StaleExactly | src/usr/src/axcl/drv/pcie/driver/net/rc-net/ax_pcie_net.c:558-630 | that condition begins exactly with the two stores of the close of an interface that is up, or a LINK_UP between them, and ends exactly with a message |
| LinkState.ReopenedStaysSentDown | src/usr/src/axcl/drv/pcie/driver/net/rc-net/ax_pcie_net.c:679-683 | after such a close an open leaves rx sent-down |
| LinkState.SentDownExactly | src/usr/src/axcl/drv/pcie/driver/net/rc-net/ax_pcie_net.c:592-630 | over any events, rx leaves the sent-down state if and only if an acknowledgement is handled or a close with the peer down stores it |
| LinkThreads.EndedIsHandled | src/usr/src/axcl/drv/pcie/driver/net/rc-net/ax_pcie_net.c:602-630 | the accesses of an undisturbed handler add up to its message |
| LinkThreads.ClearLaw | src/usr/src/axcl/drv/pcie/driver/net/rc-net/ax_pcie_net.c:541-725 | with the handler's accesses on another processor: the law holds in every interleaving without a clash, that is, two updates at once, or the stores of a pair beside an acknowledgement's or beside a handler between its reads of rx and tx |
| LinkThreads.ApartIsClear | src/usr/src/axcl/drv/pcie/driver/net/rc-net/ax_pcie_net.c:541-725 | there is no clash while the process is in no section |
| LinkThreads.UpdatesClash | src/usr/src/axcl/drv/pcie/driver/net/rc-net/ax_pcie_net.c:558-571 | an interleaving of two updates that breaks the law |
| LinkThreads.PairsClash | src/usr/src/axcl/drv/pcie/driver/net/rc-net/ax_pcie_net.c:587-588 | an interleaving of a pair with an acknowledgement that breaks it |
| LinkThreads.ReadClashes | src/usr/src/axcl/drv/pcie/driver/net/rc-net/ax_pcie_net.c:563-564 | an interleaving of a close with a handler between its reads that breaks it |
| LinkDriver.Interface.UpdateLinkSm | src/usr/src/axcl/drv/pcie/driver/net/rc-net/ax_pcie_net.c:558-571 | the update as the handler runs it |
| LinkDriver.Interface.ProcessCtrlMsg | src/usr/src/axcl/drv/pcie/driver/net/rc-net/ax_pcie_net.c:947-960 | handles the messages in order, as events of the machine |
| LinkDriver.Opened | src/usr/src/axcl/drv/pcie/driver/net/rc-net/ax_pcie_net.c:661-686 | an undisturbed open brings rx and rc up if rx was down, and the interface with them exactly if the peer is up |
| LinkDriver.Closed | src/usr/src/axcl/drv/pcie/driver/net/rc-net/ax_pcie_net.c:688-714 | an undisturbed close leaves rx and rc sent-down while the peer is up and down otherwise, and touches nothing else |
| LinkDriver.Interface.HostOpen | src/usr/src/axcl/drv/pcie/driver/net/rc-net/ax_pcie_net.c:661-686 | an open with messages before any of its accesses is a run of the machine; without any it brings rx and rc up and updates |
| LinkDriver.Interface.HostClose | src/usr/src/axcl/drv/pcie/driver/net/rc-net/ax_pcie_net.c:688-714 | likewise a close, up to its wait, and whether it waits |
| LinkDriver.Interface.WaitForPeer | src/usr/src/axcl/drv/pcie/driver/net/rc-net/ax_pcie_net.c:700-710 | the wait ends with 0 exactly if rx is down, else with the timeout error |
| LinkDriver.Interface.FieldsKeepLaw | src/usr/src/axcl/drv/pcie/driver/net/rc-net/ax_pcie_net.c:541-725 | the law for the fields, whenever the messages came outside the sections |
| PortOwnership.OneOwner | src/usr/src/axcl/drv/pcie/driver/axcl_host/axcl_pcie_host.c:38-38 | balanced books: a port is marked exactly if owned once or leaked, never both, never twice |
| PortOwnership.BalanceFree | src/usr/src/axcl/drv/pcie/driver/axcl_host/axcl_pcie_host.c:538-558 | an owner that gives ports up, and their marks with them, keeps the balance |
| PortOwnership.BalanceGrab | src/usr/src/axcl/drv/pcie/driver/axcl_host/axcl_pcie_host.c:834-853 | free ports marked for a new owner keep the balance |
| PortBooks.LowestGrants | src/usr/src/axcl/drv/pcie/driver/axcl_host/axcl_pcie_host.c:701-716 | a grant is the lowest min(n, number free) free ports, in ascending order |
| PortBooks.StepOk | src/usr/src/axcl/drv/pcie/driver/axcl_host/axcl_pcie_host.c:538-892 | every operation keeps the law between table and lists |
| PortBooks.EveryHistory | src/usr/src/axcl/drv/pcie/driver/axcl_host/axcl_pcie_host.c:538-892 | in every history: a port is marked exactly if it has one owner or leaked, none has two, and a process has at most one handle per device |
| PortBooks.OnlyCreateLeaks | src/usr/src/axcl/drv/pcie/driver/axcl_host/axcl_pcie_host.c:855-875 | ports leak only in a create whose send failed or whose acknowledgement never came, and stay leaked |
| PortBooks.LeaksExactly | src/usr/src/axcl/drv/pcie/driver/axcl_host/axcl_pcie_host.c:802-875 | a step leaks ports exactly if it is such a create, for a process without a handle for the device, while a port is free |
| PortBooks.RequestThenRecycle | src/usr/src/axcl/drv/pcie/driver/axcl_host/axcl_pcie_host.c:664-771 | request then recycle restores table and groups exactly if enough ports were free; otherwise the recycle is refused and changes nothing |
| PortShortGrant.CheckLetsShortGrantThrough | src/usr/src/axcl/drv/pcie/driver/axcl_host/axcl_pcie_host.c:684-691 | the check before a grant can pass with too few free ports: a history after which a request for two succeeds with one |
| PortBooks.GroupsApart | src/usr/src/axcl/drv/pcie/driver/axcl_host/axcl_pcie_host.c:745-767 | two groups of a handle share no port, so a recycle matches one at most |
| PortBooks.SweptMeaning | src/usr/src/axcl/drv/pcie/driver/axcl_host/axcl_pcie_host.c:604-629 | the sweep leaves exactly the handles for other devices, in their order, and raises one event exactly for a process that lost its handle or had none |
| PortBooks.SweepFrees | src/usr/src/axcl/drv/pcie/driver/axcl_host/axcl_pcie_host.c:604-629 | after the sweep no handle names the device, its marked ports are the leaked ones, and other devices are untouched |
| PortMeaning.OpenMeans | src/usr/src/axcl/drv/pcie/driver/axcl_host/axcl_pcie_host.c:1145-1191 | an open appends a process without handles, unless the pid is known or there is no memory |
| PortMeaning.CreateMeans | src/usr/src/axcl/drv/pcie/driver/axcl_host/axcl_pcie_host.c:802-892 | by what a create met: nothing changes, or up to four of the lowest free ports are marked and forgotten, or marked for a new handle |
| PortMeaning.DestroyMeans | src/usr/src/axcl/drv/pcie/driver/axcl_host/axcl_pcie_host.c:773-800 | a destroy or reset takes away the handle for the device and exactly the marks of its ports and groups, or changes nothing |
| PortMeaning.RequestAnswer | src/usr/src/axcl/drv/pcie/driver/axcl_host/axcl_pcie_host.c:664-699 | -22 exactly for a count outside 1 to 4, then -1 exactly without a handle or if no free port is that far below the end of the table, then -12 exactly without memory |
| PortMeaning.RequestMeans | src/usr/src/axcl/drv/pcie/driver/axcl_host/axcl_pcie_host.c:698-717 | a granted request adds one group to the handle, of the lowest free ports, and marks them |
| PortMeaning.RecycleAnswer | src/usr/src/axcl/drv/pcie/driver/axcl_host/axcl_pcie_host.c:720-771 | a recycle is accepted exactly if the count is 1 to 4 and a group of the handle consists of the ports handed in |
| PortMeaning.RecycleMeans | src/usr/src/axcl/drv/pcie/driver/axcl_host/axcl_pcie_host.c:745-767 | it then takes away one such group and exactly the marks of its ports |
| PortMeaning.ReleaseMeans | src/usr/src/axcl/drv/pcie/driver/axcl_host/axcl_pcie_host.c:1208-1264 | a closing process leaves the list, and exactly the ports that its handles have are free again |
| PortMeaning.SweepMeans | src/usr/src/axcl/drv/pcie/driver/axcl_host/axcl_pcie_host.c:604-629 | the sweep for a dead device frees exactly the ports of that device that some handle has |
| PortRegistry.Registry.CleanPortInfo | src/usr/src/axcl/drv/pcie/driver/axcl_host/axcl_pcie_host.c:538-558 | unmarks exactly the ports of the handle and of all its groups |
| PortRegistry.Registry.TakePorts | src/usr/src/axcl/drv/pcie/driver/axcl_host/axcl_pcie_host.c:834-849 | marks and returns the lowest free ports |
| PortRegistry.Registry.Open | src/usr/src/axcl/drv/pcie/driver/axcl_host/axcl_pcie_host.c:1145-1191 | finds the process or appends it |
| PortRegistry.Registry.PortCreate | src/usr/src/axcl/drv/pcie/driver/axcl_host/axcl_pcie_host.c:802-892 | does the create step on table and lists; succeeds exactly if there was a handle or a slave that could be told accepted one; and what the caller's fields are afterwards, in success and failure |
| PortRegistry.Registry.PortDestroy | src/usr/src/axcl/drv/pcie/driver/axcl_host/axcl_pcie_host.c:773-800 | -1 exactly without a handle or if the slave could not be told, and then nothing has changed; otherwise the handle is gone, exactly its ports are free again, and all else is as before |
| PortRegistry.Registry.RequestUsrPort | src/usr/src/axcl/drv/pcie/driver/axcl_host/axcl_pcie_host.c:664-718 | does the request step, with the code for each refusal |
| PortRegistry.Registry.RecycleUsrPort | src/usr/src/axcl/drv/pcie/driver/axcl_host/axcl_pcie_host.c:720-771 | does the recycle step: the first group that matches in length and ports |
| PortRegistry.Registry.Reset | src/usr/src/axcl/drv/pcie/driver/axcl_host/axcl_pcie_host.c:1349-1354 | likewise for the handle of the device being reset, if there is one |
| PortRegistry.Registry.Release | src/usr/src/axcl/drv/pcie/driver/axcl_host/axcl_pcie_host.c:1208-1264 | frees everything the closing process owned and nothing else |
| PortRegistry.Registry.HeartbeatDead | src/usr/src/axcl/drv/pcie/driver/axcl_host/axcl_pcie_host.c:599-630 | does the sweep step on table and lists |
| ScatterAlloc.OrderIsLeast | src/usr/src/axcl/drv/pcie/driver/mmb/ax_mmb.c:394-394 | get_order gives the smallest block that holds the bytes |
| ScatterAlloc.StartOrder | src/usr/src/axcl/drv/pcie/driver/mmb/ax_mmb.c:393-394 | a 32-bit size that wraps when page-aligned is still asked for with the right first order |
| ScatterAlloc.StoredOrder | src/usr/src/axcl/drv/pcie/driver/mmb/ax_mmb.c:401-425 | the length that is stored gives back the order of the block that was taken |
| ScatterAlloc.WholeAt | src/usr/src/axcl/drv/pcie/driver/mmb/ax_mmb.c:393-425 | every entry but the last is a whole power-of-two block |
| ScatterAlloc.MmbBuf.TakeBlock | src/usr/src/axcl/drv/pcie/driver/mmb/ax_mmb.c:394-408 | tries ever smaller orders and stops at the first that is granted, or after order 0 |
| ScatterAlloc.MmbBuf.TakeEntry | src/usr/src/axcl/drv/pcie/driver/mmb/ax_mmb.c:393-425 | first asks for the smallest block that holds what is left, or the largest there is; every larger order than the one taken was refused, and nothing is taken only if a single page was |
| ScatterAlloc.GrantedTakesUnit | src/usr/src/axcl/drv/pcie/driver/mmb/ax_mmb.c:393-425 | if every request is granted, an entry takes a whole block of the largest order, or all that is left |
| ScatterAlloc.MmbBuf.FillTable | src/usr/src/axcl/drv/pcie/driver/mmb/ax_mmb.c:386-433 | ends with at most 64 entries that add up to the request; with -12 and a full table; or with -22 after a request for a single page was refused. If all is granted, the entries number the request divided by the largest block, rounded up, and it fails exactly if these are more than 64 |
| ScatterAlloc.MmbBuf.FreeMem | src/usr/src/axcl/drv/pcie/driver/mmb/ax_mmb.c:269-304 | returns every block of the backup table, each with the order it was taken with, and no other |
| ScatterAlloc.MmbBuf.SgAlloc | src/usr/src/axcl/drv/pcie/driver/mmb/ax_mmb.c:331-470 | the code for each cause; success holds exactly the blocks taken; a failed DMA mapping returns them all; a failure in between forgets them; the buffer stays refused afterwards |
| ScatterAlloc.MmbBuf.Mmap | src/usr/src/axcl/drv/pcie/driver/mmb/ax_mmb.c:740-757 | maps the backup entries in order; the result is that of the last range alone |
| ScatterAlloc.TilingContiguous | src/usr/src/axcl/drv/pcie/driver/mmb/ax_mmb.c:741-754 | the mapped ranges lie end to end and cover the whole buffer |
| ScatterAlloc.TilingAligned | src/usr/src/axcl/drv/pcie/driver/mmb/ax_mmb.c:741-754 | every mapped range starts on a page boundary if the mapping does |
| Firmware.WriteJoin | src/usr/src/axcl/drv/pcie/driver/axcl_host/axcl_pcie_host.c:494-508 | two chunk writes that meet are one write |
| Firmware.LastImageWins | src/usr/src/axcl/drv/pcie/driver/axcl_host/axcl_pcie_host.c:474-511 | an address holds the byte of the last image that covers it, or what it held before |
| Firmware.Device.BootDevice | src/usr/src/axcl/drv/pcie/driver/axcl_host/axcl_pcie_host.c:494-508 | a chunk is never empty and fits the DMA buffer |
| Firmware.Device.LoadImage | src/usr/src/axcl/drv/pcie/driver/axcl_host/axcl_pcie_host.c:489-508 | chunks that fit the DMA buffer, as many as the size divided by its room, rounded up, add up to one write of all the bytes; a chunk that fails is the last, and the result is its |
| Firmware.Device.LoadFirmware | src/usr/src/axcl/drv/pcie/driver/axcl_host/axcl_pcie_host.c:445-518 | on success the memory is that of writing each image whole, in order, and every chunk of every image was sent; the device is started only then; a chunk that fails is the last, and the result is its |
| ImageBuffer.StrideIsLeast | src/usr/include/axcl/ax_buffer_tool.h:523-535 | for alignment 0, a multiple of 16 or 2^29 and more, and no 32-bit wrap, the two-stage rounding gives the least aligned stride that holds the line |
| ImageBuffer.OtherAlignmentsWaste | src/usr/include/axcl/ax_buffer_tool.h:523-535 | for any other alignment some line gets a longer stride than it needs |
| ImageBuffer.LeastStrideIff | src/usr/include/axcl/ax_buffer_tool.h:523-535 | the rounding is exact for every line that wraps nothing if and only if the alignment is one of those |
| ImageBuffer.StrideAsWritten | src/usr/include/axcl/ax_buffer_tool.h:523-535 | the stride is the expression of the source with products and sums modulo 2^32 and truncating division |
| ImageBuffer.RawBuffer | src/usr/include/axcl/ax_buffer_tool.h:125-155 | raw and luminance-only buffers that fit 32 bits are one stride per line if and only if the stride is a multiple of 16, whatever the alignment |
| ImageBuffer.AlignedStrideIsWhole | src/usr/include/axcl/ax_buffer_tool.h:523-535 | which it is for alignments that are multiples of 16 |
| ImageBuffer.BufferBelowStride | src/usr/include/axcl/ax_buffer_tool.h:125-155 | 16 pixels of 8 bits aligned to 24 bytes: the stride is 24 and the buffer 16 |
| ImageBuffer.Depths | src/usr/include/axcl/ax_buffer_tool.h:455-521 | the bits per pixel of every format, and the one format on which the two size functions differ |
| ImageBuffer.BufferHoldsImageIff | src/usr/include/axcl/ax_buffer_tool.h:125-194 | the buffer is never larger than an image of the stride, and just as large exactly for the formats the size function knows and the strides that are multiples of 16 |

## Left out

- RingProtocol.RunSafety: one link session, with a zeroed ring at its start; counters do not reach 2^64, and a reset in the middle is not modelled.
- Doorbell.NoLostWakeUp: the handlers of one slave run one after the other, a mailbox message that was written can always be read, and the slave's loads of the counters meet no bus error, which would end its drain loop too.
- Mailbox.HostIrqToSlave: the lock around the slot search, which is compiled in on some platforms only, and the delays between reads.
- NetTx.PacketsIntact: packets are no longer than a slot (mtu plus Ethernet header); the endpoint's code is not in the repository and is modelled as an agent that returns only buffers it took.
- NetRx.EndpointKeepsInv: an endpoint that posts to a full ring without looking; there is room for 60 entries and the host may have handed out more.
- NetRx.ListMatchesRings: one session of the link, from cleared counters, and one allocator; an open and the interrupt exclude each other while the law of the link holds (LinkState.OpenAllocatesAlone), and not after it was broken (LinkState.BothMayAllocate).
- NetRx.DeliveredOnceInOrder: the bytes of received packets, which the endpoint writes; and a kernel that hands out a live mapping or socket buffer twice.
- NetRxDriver.RxRings.ProcessEp2hMsg: the branch for an address that is not on the list appears in NetRx as a step and is proved unreachable there, so the method has no code for it; packets the endpoint adds during the call are not counted.
- NetTxDriver.TxRings.StartXmit: the driver alone, with no endpoint step between its accesses; NetTx covers the interleavings.
- LinkDriver.Interface.HostOpen: the network core does not run open and close of one interface at the same time, and the build in which the interrupt handler itself calls the open is not modelled.
- LinkThreads.ClearLaw: a sufficient condition, with an interleaving that breaks the law for each kind of clash it excludes; the exact condition is stated in LinkExact, for handlers that run to their end once begun.
- PortRegistry.Registry.PortCreate: device numbers are below 256, the size of the table, which the code does not check; event counts do not wrap.
- PortRegistry.Registry.Open: two descriptors that share one process record; each process has one.
- ScatterAlloc.MmbBuf.SgAlloc: a largest order below 20, so that a block's bytes fit 32 bits; the coherent (not scattered) allocation of the same file.
- Firmware.Device.LoadFirmware: images below 2^31 bytes that lie inside the package file; the memory dump that a debug setting inserts after the first image.
- SendMessage.Sender.SendMessage: others act in the sleeps only, since the attempts themselves hold the data lock.
- ImageBuffer.BufferHoldsImageIff: uncompressed images only; the header bytes of lossless and the floating-point scaling of lossy compression.
- The boot handshake between host and slave, which rests on delays rather than on the order of accesses.
- The network driver's own doorbell and its mailbox count, which can return with a lock held.
- Register access, address translation units, interrupts, cache maintenance, probing and removal of devices, time stamps and statistics.
- Copies to and from user space, except that a failing one loses a queued message.
- The slave's side of port creation and the device's side of firmware loading, which are not in the repository.
- Memory list partitions, which are compiled out.
