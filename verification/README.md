# Reliable transfer in the desktop synchroniser: a verified model

The program keeps the desktops of two machines in step. Two peers find each other on the local network, connect over
the bundled UDT4 library and send files as framed packets. This project models the part that has to be right for the
files to arrive, and proves what that part is for. `dafny verify dfyconfig.toml` checks it.

**Data structures.** Sequence numbers of 31 bits wrap round; `SeqNo` shows once that inside a window they are ordinary
integers, and everything else counts packets with unbounded logical numbers and goes to wire numbers by that lemma. The
two loss lists (`SndLossList`, `RcvLossList`) are linked lists of intervals inside fixed arrays, where the slot of a node
is forced by its number; each refines a finite set of lost numbers. `LossSlots` and `LossRuns` hold what the two share:
the snapshot of the arrays and the moves on it (append, widen, merge, cut, unlink). The send buffer is a growing cycle of
blocks that refines a queue of packets; the receive buffer is a ring of units borrowed from a pool and refines a sequence
of cells. `MessageMode` and `MessageRuns` say what its scanner returns when messages rather than a stream are sent.
`AckWindow` is the history of ACKs, `UnitPool` and `SharedPool` the units that all sockets share, `SendHeap` and
`SendScheduler` the heap of senders, `TimerList` the list of sockets by the time they were last heard of.

**Protocol.** `Endpoint` gives what each packet handler makes of the state of a sender or a receiver. `Protocol` puts
the two together with a network that keeps every packet ever sent and delivers any of them at any time, any number of
times or never; `ProtocolRuns` states what holds in every run, `HandlerLaws` what the handlers bring about, and
`Recovery` that no run gets stuck. `CudtSender` and `CudtReceiver` are the handlers as the program has them, on wire
numbers and on the classes above, and each is proved to do exactly the step of `Endpoint`. `Connection` joins the two,
with a pool of units, and drives both through any events; `ProtocolLimits` says for which sizes flow control and the
loss lists come to their limits. A handler, or the part of one under a lock, is one atomic step. The two directions of
a connection share no state that matters here, so one direction is modelled: one sender, one receiver.

**Around it.** `Md5` is the streaming engine around an arbitrary block function. `PeerMatching` and `PeerHandshake` are the
discovery handshake among any number of nodes, `SyncFraming` and `SyncTransfer` the file framing over a stream cut
anywhere.

Clocks, the congestion window, the decision that an ACK is too recent to repeat, and whether an ACK2 is sent are inputs
of the steps, so what is proved holds for every choice of them.

## Where the code does less than one might expect

Each of these is stated by a member that says exactly when the code does meet the property, and shown by an input.

- `incseq(a, seqoff(a, b))` is not always b (`SeqNo.IncByOff`; `SeqNo.IncByOffFails`).
- Removing an interior entry of the sender heap can break its order, since the entry that replaces it only moves down
  (`SendHeap.RemoveOrders`; `SendHeap.RemoveCanDisorder`).
- The cutoff of the timer scan is computed with unsigned wrap-around and lies in the future until the clock has run for a
  tenth of a second (`TimerList.CutoffPast`). From then on the scan ends (`RcvUList.Scan`); before, it ends only if no
  socket on the list is alive (`RcvUList.ScanOn`, `RcvUList.ScanOut`).
- A file of 2 GiB or more is sent but not received, because the receiver casts the length to an int
  (`SyncFraming.TransferBack`, `SyncTransfer.Exchange`).
- In the discovery handshake a node can succeed while its peer does not (`PeerMatching.MutualJustIf`;
  `PeerMatching.OneSided`); and once the run of that node has ended and its ACK is lost, the peer cannot succeed with it any
  more (`PeerMatching.MatchJustIf`).
- If a file cannot be opened, its header and name have gone out already, and the end packet follows. A file of 1 to 40 bytes
  then arrives with bytes of the end packet in it (`SyncFraming.ArrivedPrefix`, `SyncFraming.ParseCut`,
  `SyncTransfer.Exchange`).
- `getNextAvailUnit` may return null although units are free, at least a tenth of them: in the current block it skips those
  between the first one and the place where the last search ended, and in every block of more than one unit the last
  (`UnitQueue.GetNextAvailUnit`; `UnitPool.Overlooked`, for every block size).
- When an incomplete message fills all cells of the receive buffer but one, `scanMsg` reports it, and the loop of `readMsg`
  then returns no bytes (`RcvBuffer.FindMsg`; `RcvBuf.IncompleteFound`, for every size).
- Flow control does not keep the receiver from refusing new packets: a full ACK offers two packets however full the buffer
  is, and a first window as large as the buffer is one packet too large. Exactly which packets are refused is
  `ProtocolRuns.StoredJustIf`; that it happens for every size of window and buffer, `ProtocolLimits.NewCanBeRefused` and
  `ProtocolLimits.FirstCanBeRefused`. It does no harm: the results on runs hold all the same.
- The loss lists are arrays whose sizes come from the flight size, but what is under way is limited by the receive buffer,
  and only `UDT_RCVBUF` keeps that within the flight size (`core.cpp:293-295`): setting `UDT_FC` afterwards makes it the
  smaller one. Two lost numbers then can share a slot (`ProtocolLimits.SenderSlots`, `ProtocolLimits.ReceiverSlots`;
  `ProtocolLimits.LostTwiceInSlot`, `ProtocolLimits.MissingTwiceInSlot`).
- The array of the sender heap never grows, since all callers use `update` and not the `insert` that grows it: with 4096
  sockets waiting the next one is written behind its end (`SendScheduler.Crowded`).

## Model

| member | source | states |
|---|---|---|
| SeqNo.WindowAgreement | udt4/src/common.h:223-255 | for numbers less than 2^30-1 apart, `seqoff`, `seqcmp`, `seqlen`, equality and the stepping `incseq` on the wire are integer difference, comparison, count, equality and addition of the logical numbers |
| SeqNo.Neighbours | udt4/src/common.h:243-247 | `incseq(n)` and `decseq(n)` are the next and the previous logical number, across the wrap too |
| SeqNo.LenExact | udt4/src/common.h:229-230 | `seqlen` counts a closed interval of any length exactly, if and only if the count fits in 32 bits |
| SeqNo.WindowOrder | udt4/src/common.h:226-241 | `seqcmp` is a strict total order on any three numbers of one window, and `seqoff` is additive on them |
| SeqNo.IncByOff | udt4/src/common.h:232-250 | `incseq(a, seqoff(a, b)) = b` for any two wire numbers, if and only if the offset does not go back across zero |
| SeqNo.IncByOffFails | udt4/src/common.h:249-250 | a pair of numbers for which the step does not arrive |
| SeqNo.IsnZero | udt4/src/core.cpp:612 | for an ISN of 0 the counter starts at -1; comparisons and offsets with any other number of the window come out as with the predecessor of 0 |
| SndLoss.SndLossList.constructor | udt4/src/list.cpp:43-70 | a new list stands for the empty set |
| SndLoss.SndLossList.Insert | udt4/src/list.cpp:85-255 | inserting a..b makes the set S ∪ [a..b] and returns how many numbers were not in S, for any a..b that fits in the array together with S; the cached position stays -1 or the slot of a node (part of `Valid`) |
| SndLoss.SndLossList.FindPrior | udt4/src/list.cpp:153-161 | the walk from the head or the cached position ends at the last node that starts before the number |
| SndLoss.SndLossList.Coalesce | udt4/src/list.cpp:218-254 | merging a lengthened node with the nodes it has come to overlap keeps the set and restores sorted, disjoint nodes and the exact length |
| SndLoss.SndLossList.Remove | udt4/src/list.cpp:257-367 | removing k leaves exactly the numbers after k, whichever node is dropped, moved or split |
| SndLoss.SndLossList.GetLostSeq | udt4/src/list.cpp:376-418 | returns the least lost number and takes out just that one; -1 if and only if nothing is lost |
| RcvLoss.RcvLossList.Insert | udt4/src/list.cpp:453-499 | appending a..b makes the set S ∪ [a..b]; forward and backward links stay inverse to each other (part of `Valid`) |
| RcvLoss.RcvLossList.Remove | udt4/src/list.cpp:501-629 | takes just k out of the set, by head trim, tail trim or split, and returns true if and only if k was in it |
| RcvLoss.RcvLossList.FindBack | udt4/src/list.cpp:576-582 | the backward search round the ring comes to an end, at the last node that starts before the number |
| RcvLoss.RcvLossList.Find | udt4/src/list.cpp:649-667 | true if and only if some number of the interval is lost |
| RcvLoss.RcvLossList.GetFirstLostSeq | udt4/src/list.cpp:674-680 | the least lost number, or -1 |
| RcvLoss.RcvLossList.GetLossArray | udt4/src/list.cpp:682-703 | writes the encoding of nodes of the list, in order, the longest prefix of them that the length check lets through, nothing at or beyond the limit, and lists exactly the lost numbers up to the end of the last node written |
| LossReport.RoundTrip | udt4/src/core.cpp:2121-2157 | reading the words of a report back entry by entry yields exactly the runs written (section 6.4 of draft-gg-udt-03) |
| LossReport.DecodeAppend | udt4/src/list.cpp:686-702 | the encoding is self-delimiting: what follows a report does not change how it is read |
| LossReport.EncodeSpells | udt4/src/core.cpp:2121-2157 | every report written is one that the loop of the sender can walk to its end: each flagged word has its partner |
| Packets.ChunksFaithful | udt4/src/buffer.cpp:120-164 | cutting a message into blocks loses nothing: non-empty packets of at most one payload size that concatenate to the data, with the first, last, order and number fields of one message |
| Packets.ChunkCount | udt4/src/buffer.cpp:122-124 | cutting makes as few packets as packets of that size can be |
| SndBuf.SndBuffer.constructor | udt4/src/buffer.cpp:47-92 | a new buffer is one cycle of distinct blocks with nothing in it |
| SndBuf.SndBuffer.AddBuffer | udt4/src/buffer.cpp:120-164 | the waiting packets become the old ones followed by the chunks of the message, whether or not the ring grows on the way; what has been read stays read |
| SndBuf.SndBuffer.Increase | udt4/src/buffer.cpp:285-342 | splices a chain of new blocks into the cycle without touching what waits or its order |
| SndBuf.SndBuffer.Grow | udt4/src/buffer.cpp:126-128 | the growth loop ends with room for the message and one block free |
| SndBuf.SndBuffer.ReadData | udt4/src/buffer.cpp:217-230 | returns the next unsent packet and moves the current block by one, or nothing if all have been sent |
| SndBuf.SndBuffer.ReadDataAt | udt4/src/buffer.cpp:232-266 | returns the packet that many places after the first unacknowledged one and changes nothing |
| SndBuf.SndBuffer.AckData | udt4/src/buffer.cpp:268-278 | drops exactly the first so many packets; the rest keeps its order and place |
| SndBuf.NumbersApart | udt4/src/buffer.cpp:157-159 | messages are numbered from 1 to 2^29 - 2, round and round, so that two less than 2^29 - 2 sends apart have different numbers |
| UnitPool.UnitQueue.constructor | udt4/src/queue.cpp:85-125 | one block of free units, linked to itself |
| UnitPool.UnitQueue.Increase | udt4/src/queue.cpp:127-186 | the count becomes the number of units in use; the pool grows, by as many free units as the first block has, if and only if nine tenths are in use |
| UnitPool.UnitQueue.NineTenths | udt4/src/queue.cpp:145 | over exact numbers the test on the quotient is the integer test |
| UnitPool.UnitQueue.RoundedNineTenths | udt4/src/queue.cpp:145 | so is the test on doubles as the source has it: for any rounding that keeps order and is off by at most 2^-53 below 1 |
| UnitPool.UnitQueue.Search | udt4/src/queue.cpp:202-218 | the search round the blocks ends; it returns a free unit of the pool, or none if and only if none of the units it looks at is free |
| UnitPool.UnitQueue.GetNextAvailUnit | udt4/src/queue.cpp:194-223 | returns a free unit of the pool, or null if and only if at most nine tenths of the units are in use beforehand and none of those the search looks at is free; whatever it adds to the pool is new and free, and the count stays right |
| UnitPool.Overlooked | udt4/src/queue.cpp:202-222 | for every block size of two or more, a pool of which all units but two are free (all but one, for two), and for which it returns null |
| UnitPool.UnitQueue.Occupy | udt4/src/buffer.cpp:383-386 | taking a free unit keeps the count right |
| UnitPool.UnitQueue.Release | udt4/src/buffer.cpp:406-411 | freeing a unit in use keeps the count right |
| SharedPool.OneOwner | udt4/src/buffer.cpp:360-389 | among any number of receive buffers on one pool, a unit has a nonzero flag if and only if some slot of some buffer points to it, and no two slots point to the same unit |
| SharedPool.Arrive | udt4/src/buffer.cpp:374-389 | `addData` on one buffer keeps that ownership for all buffers: it moves at most the one unit, from free to this buffer |
| SharedPool.ReadStream | udt4/src/buffer.cpp:391-426 | `readBuffer` on one buffer keeps the ownership for all: units only go from this buffer to free, and the count follows |
| SharedPool.ReadMessage | udt4/src/buffer.cpp:498-537 | the same for `readMsg`, skipped and out-of-order messages included |
| SharedPool.NextUnit | udt4/src/queue.cpp:194-223 | looking for a unit, with or without growth, changes the state only by new free units |
| SharedPool.Open | udt4/src/buffer.cpp:346-358 | a new buffer joins the others holding nothing |
| SharedPool.Close | udt4/src/buffer.cpp:360-372 | a buffer that goes frees exactly what it held |
| SharedPool.NextKeeps | udt4/src/buffer.cpp:346-426 | every such action, opening and closing included, keeps: held sets disjoint, units in use = units held, count = number in use |
| SharedPool.EveryRun | udt4/src/buffer.cpp:346-426 | so does every sequence of actions, from no buffer and an empty pool, with sockets that come and go |
| RcvBuf.ReadTakesPrefix | udt4/src/buffer.cpp:391-426 | the reading function takes exactly the next len bytes of the stream left in the buffer, or all of it, and leaves the rest, with the notch inside a packet |
| RcvBuf.RcvBuffer.constructor | udt4/src/buffer.cpp:346-358 | all cells empty |
| RcvBuf.RcvBuffer.Destroy | udt4/src/buffer.cpp:360-372 | frees every unit held and leaves the count right |
| RcvBuf.RcvBuffer.OneSlot | udt4/src/buffer.cpp:374-389 | a unit that the buffer holds is in exactly one slot |
| RcvBuf.RcvBuffer.AddData | udt4/src/buffer.cpp:374-389 | stores the unit in the cell offset places after the last acknowledged one if and only if that is empty; no other cell changes |
| RcvBuf.RcvBuffer.AckData | udt4/src/buffer.cpp:467-475 | so many more cells count as acknowledged; the furthest position falls by as many, not below 0 |
| RcvBuf.RcvBuffer.ReadBuffer | udt4/src/buffer.cpp:391-426 | the loop returns exactly what the reading function takes off the acknowledged packets, empties and frees the cells used up, never meets an empty slot, and leaves the other cells as they were |
| RcvBuf.RcvBuffer.SkipBadMsgs | udt4/src/buffer.cpp:552-593 | the first loop ends, and the first cell then starts a whole message among the acknowledged ones, or none is left |
| RcvBuf.RcvBuffer.LookOn | udt4/src/buffer.cpp:595-641 | the search loop of `scanMsg` on the ring stops where the search over the cells does |
| RcvBuf.RcvBuffer.FindMsg | udt4/src/buffer.cpp:595-652 | finds the message that the search finds, and reports an incomplete one if and only if it began so early that it fills all cells but one |
| RcvBuf.IncompleteFound | udt4/src/buffer.cpp:643-649 | for every size of three cells or more, a buffer for which it reports an incomplete message |
| RcvBuf.RcvBuffer.ReadMsg | udt4/src/buffer.cpp:498-537 | for any contents, ring and bytes are those of the message-reading function: acknowledged messages are emptied up to their end, others marked as read, and nothing is copied from one that fills the ring |
| MessageMode.AddKeeps | udt4/src/buffer.cpp:374-389 | an arriving packet keeps the invariant of message mode: read packets are read by whole messages, and cells hold the packets with their numbers |
| MessageMode.AckKeeps | udt4/src/buffer.cpp:467-475 | acknowledging keeps it |
| MessageMode.SkipKeeps | udt4/src/buffer.cpp:552-593 | skipping bad cells drops nothing that has not been read |
| MessageMode.ScanFindsMessage | udt4/src/buffer.cpp:595-641 | what the search finds is one whole unread message, never parts of two; an ordered one only if acknowledged to its end |
| MessageMode.FoundFirst | udt4/src/buffer.cpp:552-641 | a message found among the acknowledged cells starts in the first cell, so nothing before it is unread |
| MessageMode.ReadStep | udt4/src/buffer.cpp:498-537 | for messages of any length, a call returns nothing or the front of one whole new message, and keeps the invariant |
| MessageMode.ReadsJustIf | udt4/src/buffer.cpp:498-652 | a call returns a message if and only if the buffer holds a whole unread one that is unordered or acknowledged to its end, except that nothing is looked for while no cell is acknowledged and none beyond the first is filled; it returns the one that ends first |
| MessageRuns.HistoryFramed | udt4/src/buffer.cpp:120-164 | the packets of any list of messages follow one another first to last without gaps |
| MessageRuns.WholeMessage | udt4/src/buffer.cpp:120-164 | the packets between a first and the next last flag are those of one message sent |
| MessageRuns.EveryRun | udt4/src/buffer.cpp:498-652 | in every run of arrivals, acknowledgements and reads, with messages of any length, every call returns nothing or the front of one whole message none of which was returned before; an ordered one only after everything before it |
| MessageRuns.AtMostOnce | udt4/src/buffer.cpp:498-652 | no two calls of a run return a packet in common |
| MessageRuns.NoneTooLong | udt4/src/buffer.cpp:498-652 | a message of as many packets as the buffer has cells, or more, is never returned |
| MessageRuns.ReturnsSent | udt4/src/buffer.cpp:498-537 | what a call returns is the front of one of the messages handed to the sender |
| AckHistory.HoldsLatest | udt4/src/window.cpp:70-81 | storing any list of records leaves the latest size-1 of them, oldest first |
| AckHistory.AckWindow.constructor | udt4/src/window.cpp:48-61 | an empty history |
| AckHistory.AckWindow.Store | udt4/src/window.cpp:70-81 | appends a record and evicts the oldest when full |
| AckHistory.AckWindow.Acknowledge | udt4/src/window.cpp:83-143 | returns the data ACK and the elapsed time of the oldest match and drops it and all older records; -1 and no change if there is none, in both layouts of the ring |
| AckHistory.AckWindow.AcknowledgeWrapped | udt4/src/window.cpp:116-143 | the same for the layout that wraps round the end of the arrays |
| CudtSnd.CudtSender.constructor | udt4/src/core.cpp:751-761 | starts as the abstract sender, with a loss list of twice the first window; ISN-1 is the predecessor of the ISN |
| CudtSnd.CudtSender.Send | udt4/src/core.cpp:1013-1119 | accepts the bytes there is room for, and appends their packets, as the abstract sender does |
| CudtSnd.CudtSender.PackData | udt4/src/core.cpp:2263-2383 | sends the first lost packet if there is one, else a new one if both windows allow it; number and payload are those the abstract sender sends, and a lost number before the first packet never occurs |
| CudtSnd.CudtSender.PackNew | udt4/src/core.cpp:2312-2343 | the branch for new packets |
| CudtSnd.CudtSender.ProcessLiteAck | udt4/src/core.cpp:1968-1979 | a lite ACK on wire numbers is the abstract step |
| CudtSnd.CudtSender.ProcessAck | udt4/src/core.cpp:1994-2036 | a full ACK on wire numbers, buffer and loss list is the abstract step: refused beyond what was sent, window and last ACK updated unless older, packets before it released |
| CudtSnd.CudtSender.TakeEntry | udt4/src/core.cpp:2121-2157 | one entry of a loss report adds what is at or after the last ACK, and is refused if and only if it runs backwards or beyond what was sent |
| CudtSnd.CudtSender.ProcessNak | udt4/src/core.cpp:2111-2166 | the loop over a report is the abstract step |
| CudtSnd.CudtSender.Expire | udt4/src/core.cpp:2614-2625 | everything unacknowledged becomes lost, if no loss is known |
| CudtRcv.CudtReceiver.constructor | udt4/src/core.cpp:751-765 | starts as the abstract receiver, with a loss list of the flight size, which may be smaller than the buffer by two |
| CudtRcv.CudtReceiver.ProcessData | udt4/src/core.cpp:2385-2448 | on wire numbers, ring and loss list, a data packet does what the abstract step says; the unit is kept if and only if the packet is accepted; the report sent at once encodes the gap |
| CudtRcv.CudtReceiver.DetectLoss | udt4/src/core.cpp:2416-2445 | gap, new largest number or late arrival |
| CudtRcv.CudtReceiver.ReportGap | udt4/src/core.cpp:2416-2433 | the numbers between the last one received and this one become lost, and one or two words report them |
| CudtRcv.CudtReceiver.SendAck | udt4/src/core.cpp:1743-1839 | an ACK carries the first missing number; which kind is sent, and what changes, is as in the abstract step |
| CudtRcv.CudtReceiver.SendFullAck | udt4/src/core.cpp:1802-1836 | numbers the ACK, offers at least two packets, and records it |
| CudtRcv.CudtReceiver.ProcessAck2 | udt4/src/core.cpp:2085-2109 | finds the ACK in the history and raises the last number the sender is known to know |
| CudtRcv.CudtReceiver.Recv | udt4/src/core.cpp:1122-1207 | returns what the abstract step returns |
| Protocol.InitInv | udt4/src/core.cpp:607-614 | two connected endpoints satisfy the invariant |
| Protocol.SendKeeps | udt4/src/core.cpp:1099-1119 | `send` keeps the invariant of the two endpoints and the network |
| Protocol.PackKeeps | udt4/src/core.cpp:2263-2383 | what is sent under a number is the packet made from the bytes at its place in the stream, and the window is respected |
| Protocol.TransmitKeeps | udt4/src/core.cpp:2263-2383 | sending or retransmitting keeps the invariant |
| Protocol.DataKeepsPartition | udt4/src/core.cpp:2409-2445 | after any data packet each number from the last ACK to the largest received is stored or lost, never both |
| Protocol.DataKeeps | udt4/src/core.cpp:2385-2448 | the arrival of any packet ever sent, new, late or repeated, keeps the invariant |
| Protocol.AdvancePartition | udt4/src/core.cpp:1771-1778 | acknowledging up to the first missing number keeps the partition, and everything acknowledged is stored |
| Protocol.AckTimerKeeps | udt4/src/core.cpp:1743-1839 | generating a lite or a full ACK keeps the invariant |
| Protocol.AckMoves | udt4/src/core.cpp:1994-2036 | an ACK in the network is never beyond what was sent, and moves the first packet to its number or not at all |
| Protocol.AckKeeps | udt4/src/core.cpp:1964-2036 | the arrival of any ACK ever sent, stale ones included, keeps the invariant, with or without an ACK2 |
| Protocol.NakAdds | udt4/src/core.cpp:2121-2157 | a report of numbers that were sent makes the loss list the union of its old value with the reported numbers at or after the last ACK, and nothing else changes |
| Protocol.NakKeeps | udt4/src/core.cpp:2111-2166 | the arrival of any loss report ever sent keeps the invariant |
| Protocol.ExpireKeeps | udt4/src/core.cpp:2614-2625 | so does the EXP timer |
| Protocol.Ack2Moves | udt4/src/core.cpp:2085-2109 | an ACK2 raises the last acknowledged ACK to at most what the sender has acted on |
| Protocol.Ack2Keeps | udt4/src/core.cpp:2085-2109 | the arrival of any ACK2 keeps the invariant |
| Protocol.RecvDelivers | udt4/src/buffer.cpp:391-426 | `recv` returns the bytes that follow those delivered before |
| Protocol.RecvKeeps | udt4/src/core.cpp:1122-1207 | and keeps the invariant |
| ProtocolRuns.NextKeeps | udt4/src/core.cpp:1954-2448 | every event keeps the invariant |
| ProtocolRuns.RunFrom | udt4/src/core.cpp:1954-2448 | so does every sequence of events, from any state of the invariant |
| ProtocolRuns.WorldAfter | udt4/src/core.cpp:607-614 | every state that two newly connected endpoints can reach satisfies the invariant, whatever the network does |
| ProtocolRuns.DeliversPrefix | udt4/src/core.cpp:1122-1207 | in every run, over a network that loses, repeats, delays and reorders, the bytes returned by `recv` are a prefix of the bytes accepted by `send` |
| ProtocolRuns.SameBytes | udt4/src/core.cpp:2275-2324 | every transmission of a number carries the same packet, cut from the accepted bytes at its place |
| ProtocolRuns.NeverBroken | udt4/src/core.cpp:1997-2004 | with a peer that runs this code, no ACK and no loss report is taken for an attack |
| ProtocolRuns.AckSound | udt4/src/core.cpp:1745-1778 | every number before that of an ACK, full or lite, has been received |
| ProtocolRuns.AcksNeverDecrease | udt4/src/core.cpp:1745-1836 | after every run, whatever ACK the timer sends next, full or lite, carries no smaller number than any sent before |
| ProtocolRuns.ReceiverPartition | udt4/src/core.cpp:2409-2445 | in every run each number from the last ACK to the largest received is in its cell, with the packet sent under it, or in the loss list, never both |
| ProtocolRuns.WindowRespected | udt4/src/core.cpp:2312-2323 | for all sizes of window and buffer, what is unacknowledged never exceeds the larger one of the first window and the buffer size minus one; no two lost numbers of the sender are so far apart |
| ProtocolRuns.StoredJustIf | udt4/src/core.cpp:2409-2414 | in every run, a packet that arrives is stored if and only if it is new and less than the buffer size minus one beyond the first packet not yet read |
| ProtocolLimits.NewCanBeRefused | udt4/src/core.cpp:1815-1817 | for every size of window and buffer, and a send buffer of at least as many packets, a run in which a new packet, sent within the window, is refused, because a full ACK offers two packets to a sender when there is no room |
| ProtocolLimits.FirstCanBeRefused | udt4/src/core.cpp:825 | when the first window is as large as the buffer, such a run within the first window |
| ProtocolLimits.SenderSlots | udt4/src/core.cpp:761 | two lost numbers of the sender share a slot of its list of 2 * window slots in no run, if and only if the buffer has at most one cell more than that (with a send buffer of as many packets) |
| ProtocolLimits.ReceiverSlots | udt4/src/core.cpp:762 | two lost numbers of the receiver share a slot of its list in no run, if and only if the buffer has at most two cells more than the flight size (with a send buffer of as many packets) |
| ProtocolLimits.LostTwiceInSlot | udt4/src/core.cpp:254-267 | for any larger buffer, a run after which two lost numbers of the sender share a slot |
| ProtocolLimits.MissingTwiceInSlot | udt4/src/core.cpp:254-267 | for any larger buffer, a run after which two lost numbers of the receiver share a slot |
| ProtocolRuns.LiteAckConserves | udt4/src/core.cpp:1968-1979 | a lite ACK leaves last ACK + flow window, and the first packet, where they are |
| ProtocolRuns.SilenceIsSafe | udt4/src/core.cpp:1754-1755 | the receiver falls silent only at a number the sender has already acted on |
| Recovery.Resend | udt4/src/core.cpp:2614-2625 | from any reachable state, every number sent and not acknowledged can be sent again |
| Recovery.Supply | udt4/src/core.cpp:2263-2383 | from any reachable state, the sender can be made to send the packet that the receiver lacks |
| Recovery.Completes | udt4/src/core.cpp:1954-2448 | from any state of the invariant some course of events delivers everything accepted |
| Recovery.NeverStuck | udt4/src/core.cpp:1954-2448 | after any run, even if everything then under way is lost, all that was accepted can still be delivered |
| HandlerLaws.PackJustIf | udt4/src/core.cpp:2271-2343 | a turn to send sends the first lost number if any is lost; else a new packet goes out if and only if there is one and fewer packets are unacknowledged than both the flow window and the congestion window allow |
| HandlerLaws.NewWithinWindows | udt4/src/core.cpp:2315-2316 | in every run, after a turn that sent a new packet no more are unacknowledged than either window allows |
| HandlerLaws.CongestionRespected | udt4/src/core.cpp:2315-2316 | if the congestion window never exceeds a limit, in no run are more packets unacknowledged |
| HandlerLaws.SendFills | udt4/src/core.cpp:1099-1105 | `send` never makes more packets wait than the send buffer may hold, and takes less than it is given only if the buffer is full afterwards |
| HandlerLaws.BufferLimit | udt4/src/core.cpp:1037-1105 | in no run do more packets wait than the send buffer may hold |
| HandlerLaws.SendTakesAll | udt4/src/core.cpp:1099-1105 | in every run, `send` takes all it is given, or the send buffer is full afterwards |
| HandlerLaws.SendsMessages | udt4/src/buffer.cpp:120-164 | in every run, the packets made are those of one message for each call of `send` that accepted something, numbered in turn |
| HandlerLaws.ReportsGap | udt4/src/core.cpp:2416-2433 | the report that a data packet causes lists exactly the numbers that it makes lost |
| HandlerLaws.GapReaches | udt4/src/core.cpp:2121-2157 | whenever that report arrives, whatever has happened between, the loss list of the sender gains exactly the numbers of the gap that are not acknowledged by then |
| HandlerLaws.AckSentJustIf | udt4/src/core.cpp:1743-1836 | in every run, the timer sends an ACK if and only if its number is not the last one acknowledged, and, unless it is a lite one or the last is not recent, more has been received; a full ACK is on record then |
| HandlerLaws.Ack2Raises | udt4/src/core.cpp:2091-2106 | the ACK2 for an ACK on record, in time, raises the last acknowledged number to the one the ACK carried, unless it is further already |
| HandlerLaws.AckNumberIs | udt4/src/core.cpp:1745-1751 | the number that an ACK carries is the first one not received |
| HandlerLaws.FallsSilent | udt4/src/core.cpp:1754-1755 | once the ACK2 has come in time for a full ACK that carried the first missing number, the timer sends no ACK until another packet is stored, whatever else happens |
| HandlerLaws.CanFallSilent | udt4/src/core.cpp:1743-2106 | from every reachable state that is not silent, a full ACK, its arrival and the ACK2 for it lead there |
| HandlerLaws.AckDrops | udt4/src/core.cpp:1964-2036 | an ACK takes exactly the numbers before the first packet off the loss list; the right edge of the window moves if and only if it is a full ACK not older than the last; the connection breaks if and only if a full ACK is beyond what was sent |
| HandlerLaws.NakBreaks | udt4/src/core.cpp:2124-2164 | a loss report breaks the connection if and only if one of its entries runs backwards or beyond what was sent |
| HandlerLaws.ExpireResends | udt4/src/core.cpp:2614-2625 | the EXP timer makes all that is unacknowledged lost if no loss is known, else nothing; if anything is unacknowledged, the next turn sends the first lost packet |
| HandlerLaws.RecvReturns | udt4/src/core.cpp:1122-1207 | in every run, `recv` returns as many bytes as it is asked for, or all that is acknowledged and not yet read |
| Connection.MakeEnds | udt4/src/core.cpp:596-614 | two ends that have agreed on a number and on the first window start as the abstract sender and receiver, with arrays of their own |
| Connection.Link.UserSend | udt4/src/core.cpp:1013-1119 | with both ends in the states of an abstract run, `send` accepts what the next event of that run says, and both ends are in its state again |
| Connection.Link.Transmit | udt4/src/core.cpp:2263-2383 | so for a turn to send; number and contents on the wire are those of the packet that the network of the run then holds more |
| Connection.Link.AckArrives | udt4/src/core.cpp:1964-2036 | so for an ACK of either kind that the receiver has sent |
| Connection.Link.NakArrives | udt4/src/core.cpp:2111-2166 | so for a loss report that it has sent |
| Connection.Link.Expire | udt4/src/core.cpp:2614-2625 | so for the EXP timer |
| Connection.Link.DataArrives | udt4/src/core.cpp:2385-2448 | so for a data packet in a free unit; the words sent at once are those of the report that the network then holds more |
| Connection.Link.Read | udt4/src/queue.cpp:998-1033 | a data packet is read into a unit that the pool gives and handled, and the step is that of the run; it is lost if and only if the search finds no unit, and then nothing changes at either end |
| Connection.Link.AckTimer | udt4/src/core.cpp:1743-1839 | so for the ACK timer, and the ACK on the wire is the one that the network then holds more |
| Connection.Link.Ack2Arrives | udt4/src/core.cpp:2085-2109 | so for an ACK2 that the sender has sent |
| Connection.Link.UserRecv | udt4/src/core.cpp:1122-1207 | so for `recv`, which returns what the run delivers |
| Connection.Link.Drive | udt4/src/core.cpp:1954-2448 | both ends, on wire numbers, arrays, rings and units, go through any events whose arrivals are near what they are compared with, up to a data packet for which no unit is found; they end in the state of the abstract run, and what has been delivered is a prefix of what has been accepted |
| Connection.Converse | udt4/src/core.cpp:1013-1207 | from two new ends and a new pool on: all that `recv` returns is a prefix of all that `send` accepts, and both are those of the abstract run |
| SendHeap.RootEarliest | udt4/src/queue.cpp:345-353 | in an ordered heap no entry is earlier than the root |
| SendHeap.InsertOrders | udt4/src/queue.cpp:355-401 | inserting keeps the order |
| SendHeap.RemoveOrders | udt4/src/queue.cpp:403-442 | removing keeps the order if and only if the entry removed is the root or the last entry is not earlier than its parent |
| SendHeap.RemoveCanDisorder | udt4/src/queue.cpp:403-442 | a heap in which removing an interior entry loses the order |
| SendHeap.InsertAdds | udt4/src/queue.cpp:355-401 | inserting adds just the new entry |
| SendHeap.RemoveTakes | udt4/src/queue.cpp:403-442 | removing takes away just the entry removed |
| SendHeap.RootEarliestInRuns | udt4/src/queue.cpp:282-442 | over every run of insertions, removals of the root and resets of the root to time 1, the root is earliest |
| SendScheduler.SndUList.Once | udt4/src/queue.cpp:355-442 | no socket is in the heap twice; each knows its place |
| SendScheduler.SndUList.InsertNode | udt4/src/queue.cpp:355-401 | sifting up in the array is insertion on the entries; membership grows by exactly the named socket; a socket already in is left alone |
| SendScheduler.SndUList.Insert | udt4/src/queue.cpp:255-280 | the array doubles first if it is full |
| SendScheduler.SndUList.RemoveNode | udt4/src/queue.cpp:403-442 | sifting down in the array is removal on the entries; exactly the named socket leaves |
| SendScheduler.SndUList.Update | udt4/src/queue.cpp:282-304 | the root is reset to time 1, another entry is removed and inserted with time 1, a new one inserted |
| SendScheduler.SndUList.UpdatedHas | udt4/src/queue.cpp:282-304 | after it the socket waits with time 1, if it was not waiting or is rescheduled, and all others wait as before |
| SendScheduler.Crowded | udt4/src/queue.cpp:282-304 | after any number of sockets up to 4096 have begun to wait, there is room for another one in the array if and only if fewer than 4096 wait |
| SendScheduler.SndUList.PopFirst | udt4/src/queue.cpp:306-320 | takes out the root if and only if its time has come |
| SendScheduler.SndUList.Pop | udt4/src/queue.cpp:306-336 | a socket that is alive and has packed a packet is returned, and is entered again with its next time if that is not 0; the array always has room for it |
| SendScheduler.SndUList.GetNextProcTime | udt4/src/queue.cpp:345-353 | the time of the root, or 0 for an empty heap |
| TimerList.CutoffPast | udt4/src/queue.cpp:1068-1069 | the cutoff computed with unsigned wrap-around lies in the past if and only if the clock has run for a tenth of a second |
| TimerList.RcvUList.Insert | udt4/src/queue.cpp:582-601 | the socket becomes the last of a well-formed list sorted by time |
| TimerList.RcvUList.Remove | udt4/src/queue.cpp:603-632 | exactly the named socket leaves; the others keep their order and links |
| TimerList.RcvUList.Update | udt4/src/queue.cpp:634-662 | the named socket goes to the end with the new time; the list stays sorted |
| TimerList.RcvUList.Scan | udt4/src/queue.cpp:1064-1087 | the head-only scan ends, visits exactly the sockets older than the cutoff, each once and in order, drops those that are gone, and leaves none older than the cutoff |
| TimerList.RcvUList.ScanOn | udt4/src/queue.cpp:1068-1087 | with the cutoff still in the future and some socket on the list alive, the first socket is due after any number of visits, so the scan does not end |
| TimerList.RcvUList.ScanOut | udt4/src/queue.cpp:1068-1087 | with none alive, it empties the list and ends |
| Md5.FoldAppend | udt4/src/md5.cpp:322-358 | the block fold over two pieces of whole blocks is the fold over their concatenation |
| Md5.CountsMore | udt4/src/md5.cpp:328-337 | adding a piece of fewer than 2^28 bytes with carry keeps the two count words the bit count modulo 2^64 |
| Md5.CountBytes | udt4/src/md5.cpp:372-378 | the eight bytes appended are that count, low byte first |
| Md5.PaddedUnique | udt4/src/md5.cpp:366-378 | padding loses nothing: even without the count, no two messages are padded to the same bytes |
| Md5.DigestBack | udt4/src/md5.cpp:379-380 | the sum gives back the four words, each with its lowest byte first (section 3.5 of RFC 1321) |
| Md5.InitialBytes | udt4/src/md5.cpp:315-319 | the initial words are the bytes of section 3.3 of RFC 1321 |
| Md5.Md5State.constructor | udt4/src/md5.cpp:312-320 | nothing appended yet |
| Md5.Md5State.Append | udt4/src/md5.cpp:322-358 | state and partial block stand for everything appended so far, whatever the sizes of the pieces |
| Md5.Md5State.Finish | udt4/src/md5.cpp:360-381 | returns the fold of the block function over the message padded as in sections 3.1 and 3.2 of RFC 1321, low byte first |
| Md5.Sum | src/sync_dll.cpp:75-93 | however a message is cut into pieces, the result is the sum of the whole |
| PeerMatching.RunKeeps | src/p2p_dll.cpp:124-202 | every run keeps: an ACK is sent only by a node bound to its addressee; bindings never change |
| PeerMatching.PeerIsFinal | src/p2p_dll.cpp:162-196 | a node never changes its peer and is never its own |
| PeerMatching.SuccessBinds | src/p2p_dll.cpp:124-204 | if a node succeeds with a peer, that peer is bound to it, for good |
| PeerMatching.NoSharedPeer | src/p2p_dll.cpp:124-204 | no two nodes succeed with the same peer, even at different times |
| PeerMatching.OneSided | src/p2p_dll.cpp:124-204 | success need not be mutual: a run in which only one of the two succeeds |
| PeerMatching.MutualJustIf | src/p2p_dll.cpp:124-204 | when a node succeeds, its peer succeeds too if and only if the ACK the node sends it is delivered; for every run in which datagrams come from an address |
| PeerMatching.AddressHeard | src/p2p_dll.cpp:162-184 | the address a node reports for its peer is one from which a message of that peer came to it |
| PeerMatching.AddressIsFinal | src/p2p_dll.cpp:162-184 | it never changes, nor does the peer |
| PeerMatching.HelloAnswered | src/p2p_dll.cpp:168-173 | every HELLO of another node is answered with an ACK, every time, if the node is bound to that one or to none |
| PeerMatching.MatchJustIf | src/p2p_dll.cpp:126-204 | after any run, even if everything under way is lost then, two nodes can still succeed with each other if and only if neither is bound to another and, if the run of one of them has ended, both have succeeded |
| PeerHandshake.TextBack | src/p2p_dll.cpp:37-60 | every HELLO and ACK is read as it was written, for all 64-bit ids |
| PeerHandshake.Handshake.Handle | src/p2p_dll.cpp:156-197 | the handler on texts is the step of the matching protocol; a text that is no message changes nothing |
| PeerHandshake.Handshake.Outcome | src/p2p_dll.cpp:204 | success is reported just if both messages were seen and the peer is known |
| SyncFraming.HeaderBack | src/sync_dll.cpp:25-34 | header fields are read back from the bytes in memory, padding included |
| SyncFraming.HeaderUnique | src/sync_dll.cpp:25-34 | no two headers look the same in memory |
| SyncFraming.ParseFront | src/sync_dll.cpp:164-201 | parsing the packets of any files and whatever follows yields the files in order, up to the first of 2 GiB or more, and then what the rest parses to |
| SyncFraming.ParseFiles | src/sync_dll.cpp:164-201 | with an end packet behind them, all of them up to the first of 2 GiB or more |
| SyncFraming.ParseCut | src/sync_dll.cpp:121-141 | a header whose file could not be opened, and the end packet behind it, parse to a file made of the first bytes of the end packet if it has at most 40, to nothing if it has more |
| SyncFraming.ArrivedPrefix | src/sync_dll.cpp:277-287 | when the upload stops at a file, what arrives is a prefix of the files, if and only if that file is empty, has more than 40 bytes, has a name that is refused, comes after one of 2 GiB or more, or happens to consist of bytes of the end packet |
| SyncFraming.SoundAll | src/sync_dll.cpp:183-188 | all files are received if and only if each is smaller than 2 GiB |
| SyncFraming.TransferBack | src/sync_dll.cpp:113-201 | a whole transfer parses to exactly the names and bytes sent, in order, with the stream used up, if and only if every file is smaller than 2 GiB |
| SyncTransfer.RecvAll | src/sync_dll.cpp:51-61 | fills the buffer with the next bytes of the stream, however they are chunked; succeeds if and only if there are enough and the length fits an int |
| SyncTransfer.SendAll | src/sync_dll.cpp:63-73 | success means exactly these bytes went out, however they were chunked |
| SyncTransfer.SendHeader | src/sync_dll.cpp:113-119 | success means the bytes of the header went out |
| SyncTransfer.SendContents | src/sync_dll.cpp:140-153 | reading in pieces of 4096 bytes and sending each sends the file, for any length |
| SyncTransfer.SendFilePacket | src/sync_dll.cpp:121-155 | success means one well-formed file packet went out, with the kind and the sum given; a name over 64 KiB is refused with nothing sent; a file that cannot be opened fails after header and name; while no call of send fails, these are the only failures |
| SyncTransfer.Upload | src/sync_dll.cpp:277-287 | if every call succeeds, exactly one transfer of these files went out; if it stops at a file, those before it, what went out of that one, and the end packet |
| SyncTransfer.RecvFile | src/sync_dll.cpp:176-188 | receives name and contents; succeeds if and only if both lengths fit an int and the bytes are there |
| SyncTransfer.HandleIncoming | src/sync_dll.cpp:164-201 | returns true just if the stream parses to its end packet, leaving what follows unread; the files written are those of the parse in either case |
| SyncTransfer.Exchange | src/sync_dll.cpp:113-201 | upload and receiver together, however each end cuts the stream: if every sending call succeeds, the receiver returns true, with exactly the files sent and nothing left over, if and only if each is smaller than 2 GiB, and otherwise it has those before the first that is not; with a transport that does not fail, an upload that stops at a file leaves exactly what `ArrivedPrefix` speaks of |

## Left out

- Message expiry and dropping (`dropMsg`, drop requests, ttl): messages never expire here.
- `addBufferFromFile`, `sendfile`, `recvfile`, `readBufferToFile`: file variants of the buffer operations.
- Range removal from the receiver's loss list (`list.cpp:631-647`): only message dropping uses it.
- Congestion control, round-trip and bandwidth estimates, packet pairs: the congestion window is an input.
- `CUDTUnited`, epoll, `CCache`, `CHash`, the connection handshake, options, error codes and statistics.
- Threads, locks and waiting: every handler is one atomic step; between setting a unit's flag and its slot no other step comes.
- Failing allocations: memory is unbounded.
- The periodic loss report: the call to it is commented out in `checkTimers`; `GetLossArray` and what the sender makes of such a report are modelled.
- A broken connection, and closing one in the protocol: `send` and `recv` are modelled on an open connection, and waiting calls as the call after the wait.
- The body of `md5_process`: any function of the chain and a block; that digests of different files differ is not claimed, nor does the receiver compare them.
- The packed message field (first, last, order, number in one word) is a record, and the bytes of a block are a sequence of their own, not a piece of a larger physical buffer.
- Numbers that arrive lie within 2^30-1 of the counters they are compared with (`Close`, `Recent`): an older packet that stays in the network for so long is not covered.
- Array sizes are at most 2^29, so that index sums fit in 32 bits; a receive buffer has at least 2 cells (`setOpt` makes it at least 32). The classes and `Connection` take a receive buffer of at most two cells more than the flight size; the protocol takes any sizes, and `ProtocolLimits.ReceiverSlots` shows that beyond those the lists do not do.
- The ISN minus 1 (`core.cpp:612`, `core.cpp:753`) is taken as the predecessor of the ISN; for an ISN of 0 the code holds -1 instead, which `SeqNo.IsnZero` shows to act alike.
- Connection.Link.Drive: a control packet is read into a unit too, and dropped if there is none; here that is a run in which it does not arrive. After a data packet for which there is no unit, the caller goes on with what comes next.
- UnitPool.UnitQueue.NineTenths: is about exact numbers; `RoundedNineTenths` is about doubles.
- SndBuf.SndBuffer.ReadDataAt: says nothing about an expired message, for which the source returns -1.
- SendScheduler.SndUList.Update: asks for room in the array for a socket that is not in it: without room the code writes behind the end (see `Crowded`); after the removal of an interior entry it promises the entries, not their order.
- SendScheduler.SndUList.PopFirst: ends where the socket has been taken out; the rest of `pop` is `Pop`, where whether the socket is alive, whether it packs a packet and when it is next due are inputs.
- TimerList.RcvUList.Scan: asks for a cutoff that is not in the future; `ScanOn` and `ScanOut` treat the others.
- TimerList.RcvUList.Insert: the flag that says a node is on the list is set by the caller, as in the source.
- PeerHandshake.Handshake.Handle: numbers are read as plain hexadecimal digits; blanks, signs and a prefix, which `sscanf` also takes, are not modelled, nor is its saturation.
- SyncTransfer.SendAll: asks for fewer than 2 GiB at a time; all callers send headers, names and pieces of 4096 bytes.
- SyncTransfer.Upload: the files have stable contents; `SyncUploadOnce` returns true once connected, whatever happens, so what is stated is about the calls it makes.
- SyncTransfer.HandleIncoming: the name of a file is the bytes received; its conversion to wide characters and the writing to disk are not modelled, nor is a length too large to allocate.
