# Verified models of the stateful parts of the arale device tree

Most of this device tree is configuration, headers and thin wrappers. Five components carry real
state, and this project models those five and proves what they are for.

* **Vibrator queue and daemon** (`immvibe/`). `ThreadQueue.dfy` is the linked message queue with
  its node pool, on the heap. `QueueSpec.dfy` is the same queue as a value. `QueueRuns.dfy` lets
  any number of threads interleave on it. `VibeDaemon.dfy` adds the request encoding, the parser
  and the worker thread.
* **Receive flow control of the GSM 07.10 multiplexer** (`mtk/gsm0710muxd/`), which belongs to the
  modem status exchange of section 5.4.6.3.7 of 3GPP TS 27.010. `FrameRing.dfy` is the sentinel
  ring and the retry loops on the heap, `FlowSpec.dfy` their value form, and `FlowRuns.dfy` the
  receiver and its retry threads under every interleaving.
* **GuiExt buffer pools** (`mtk/gui_ext/lib/`). `GuiExtItem.dfy` is one pool with its buffer
  queues and consumer slots, `GuiExtPool.dfy` and `GuiExtPoolRuns.dfy` the service and its runs,
  `GuiExtPoolCode.dfy` the service on the heap, `GuiExtHeld.dfy` the buffers still out when a pool
  goes, `GuiExtClient.dfy` the client's shadow slots, `GuiExtJoint.dfy` client and service
  together, `GuiExtReuse.dfy` shadow slots that outlive their pool, and `GuiExtLaws.dfy` what each
  call and each death does to the listed pools.
* **Power hint metadata parser** (`power/`), in `Metadata.dfy`.
* **Recursive directory creation** (`proj-dev-setup/`), in `MkdirP.dfy`.

`CStrings.dfy` holds the C string routines that the last two and the daemon share, and
`Collections.dfy` optional values and facts about sequences.

The concurrent components are machines: an event is one atomic action (one critical section, one
`write`, one wake-up), `Apply` is total, `Exec` runs a sequence of events from the initial state,
and the theorems hold for every sequence. The last event of a sequence is the last one applied.
The imperative components are classes and array methods whose postconditions tie the new value to
a function of the old one, and the lemmas are about those functions. A `malloc` result, a `write`
result, the buffer a queue hands out and the force read from the driver are parameters.

## Results that differ from what one would expect

* Flow control: a frame that arrives during flow control is queued and then passed to
  `destroy_frame`, which frees it. `FlowRuns.DestroyedIff` says exactly which frames have been
  destroyed: those that arrived during flow control and those written whole, so the frame that opens
  an episode is never freed. `FlowRuns.WrittenFrameIsAllocated` proves that the frame a retry thread
  is writing is still allocated if and only if flow control was off when it arrived, and
  `FlowRuns.CachedFrameIsWrittenAfterDestroy` is a run that shows the other case.
  `FlowRuns.BytesInOrder` is about the frames' contents as they were received.
* Closing a channel destroys what is listed. `FlowRuns.CloseDestroysTwiceIff` proves that a frame is
  then destroyed for the second time if and only if one is queued behind the first, and
  `FlowRuns.ClosingDestroysTwice` is such a run.
* After a close `rx_fl` still points at the freed list. `FlowRuns.ClosedListIsFreedIff` proves that
  this is so if and only if a retry thread has been created or is about to be;
  `FlowRuns.UsesAfterClose` says that a second close and the next pop of an active thread then read
  the freed sentinel, and `FlowRuns.PopAfterClose` is such a run.
* GuiExt: `release` with an index of 8 or more can hit the slot of the next display type.
  `GuiExtItemSpec.ReleaseKeepsCoherentIff` is the exact condition for the bookkeeping to survive,
  and `GuiExtHeld.ReleaseLosesToken` a run in which a dequeued buffer loses its token.
* GuiExt: a pool can be removed while a buffer of it is dequeued.
  `GuiExtHeld.RemovalLeavesHeldIff` says exactly when, and `GuiExtHeld.DisconnectLosesBuffer` is a
  run.
* GuiExt client: a refused acquire falls back on a shadow slot and marks it although somebody else
  may hold the buffer, and acquiring a buffer again does not mark it, so that disconnect does not
  return it. `GuiExtJoint.FallbackMarksUnheld` and `GuiExtJoint.DisconnectKeepsBuffer` are the runs;
  `GuiExtJoint.MarksKeptIff` and `GuiExtJoint.DropLeavesHeldIff` are the exact conditions.
* GuiExt client: pool ids are reused and shadow slots are not dropped with their pool, so a granted
  acquire can return a buffer of a removed pool. `GuiExtReuse.SamePoolIff` proves that an id has been
  listed without a break, so that it still names the same pool, if and only if no pool was allocated
  under it since; `GuiExtReuse.CachedBufferIsListedIff` applies this to the buffer returned, and
  `GuiExtReuse.StaleBufferIsReturned` is a run in which the old pool was removed.
* GuiExt client: a disconnect can clear the mark of a slot of another display. The release of a
  buffer that is listed twice may look up an index of 8 or more, whose packed id is another slot's.
  `GuiExtClient.OthersKeptIff` is the exact condition and `GuiExtClient.OtherLosesMark` an input.
* `s_mkdirp`: a path shorter than `PATH_MAX` is refused when its canonical form, with one slash
  after each component, has no room for the terminator. `MkdirP.CompletesExactlyWhen` is the exact
  condition; `MkdirP.ShortPathsFit` and `MkdirP.LongestPathCompletesIff` turn it into one on the
  path itself.
* `process_buf`: on end of input `sscanf` returns a negative count, which passes the test, so a `+`
  followed by nothing but white space queues a vibration of uninitialised length.
  `VibeDaemon.EmptyVibrateIsQueued` shows it for three received bytes, and
  `VibeDaemon.ParseIsDeterminedIff` proves that this is the only such input.

Where code and documentation disagree the model follows the code. `immvibe/threadqueue.h:123`
promises EINVAL from add for a null queue, but `immvibe/threadqueue.c:74-78` locks it unchecked.
`immvibe/threadqueue.h:171` says that cleanup resets the queue, but `immvibe/threadqueue.c:162-193`
leaves its pointers as they were.

## Model

| member | source | states |
|---|---|---|
| ThreadQueue.MessageQueue.constructor | immvibe/threadqueue.c:52-72 | a new queue is well formed, empty, and owns no node |
| ThreadQueue.MessageQueue.GetNode | immvibe/threadqueue.c:17-30 | a node comes out of the pool or is new; it fails exactly when the pool is empty and malloc fails, and is then in neither list |
| ThreadQueue.MessageQueue.Release | immvibe/threadqueue.c:32-50 | the node becomes the first of a pool of at most length/8 + 256 and is freed otherwise; one pooled node goes above length/4 + 2560, the queue is untouched, and no empty pool is dereferenced |
| ThreadQueue.MessageQueue.PoolTrim | immvibe/threadqueue.c:44-49 | one pooled node is freed and leaves the pool list |
| ThreadQueue.MessageQueue.Append | immvibe/threadqueue.c:84-100 | linking at the tail appends one message and keeps both lists acyclic, disjoint and counted |
| ThreadQueue.MessageQueue.Add | immvibe/threadqueue.c:74-102 | refines the value-level add, succeeds exactly when a node was available, broadcasts exactly on an empty queue, and leaves every field and node alone when it fails |
| ThreadQueue.MessageQueue.Unlink | immvibe/threadqueue.c:141-148 | the head node leaves the list and is held by the caller alone |
| ThreadQueue.MessageQueue.Get | immvibe/threadqueue.c:141-158 | delivers the oldest message with the remaining length and refines the value-level take; node conservation is kept, and the message's own node is first in the pool if that had at most length/8 + 256 |
| ThreadQueue.MessageQueue.Length | immvibe/threadqueue.c:195-203 | the counter is the number of pending messages |
| ThreadQueue.MessageQueue.FreeList | immvibe/threadqueue.c:175-185 | frees each node of an acyclic list once, in a terminating walk, and its data only when asked |
| ThreadQueue.MessageQueue.Cleanup | immvibe/threadqueue.c:162-193 | every live node is freed once; with freedata exactly the pending messages' data is freed |
| ThreadQueue.NullPointers | immvibe/threadqueue.c:38-39 | pooled nodes carry null, so freeing their data frees nothing |
| QueueSpec.PoolStaysBounded | immvibe/threadqueue.c:32-50 | the pool stays within length/4 + 2560 and within (largest length ever)/8 + 257 across every add and get |
| QueueSpec.TakenPools | immvibe/threadqueue.c:32-50 | a delivery adds one node to a pool of at most length/8 + 256, keeps one up to length/4 + 2560, takes one off above, and never leaves it empty |
| QueueSpec.AddReuses | immvibe/threadqueue.c:17-30 | an add uses a pooled node whenever there is one, whatever malloc does, and fails exactly if neither gives a node |
| QueueRuns.TryKeepsInv | immvibe/threadqueue.c:127-158 | one pass of get under the mutex keeps order, wake-up and pool invariants |
| QueueRuns.StepKeepsInv | immvibe/threadqueue.c:74-159 | every event of every thread keeps them |
| QueueRuns.DeliversAtMostOne | immvibe/threadqueue.c:141-155 | a step delivers nothing, or exactly the oldest pending message |
| QueueRuns.RunsAreSafe | immvibe/threadqueue.c:74-159 | in every run: delivered messages followed by pending ones are the added ones, nobody sleeps beside a non-empty queue, the pool is bounded |
| QueueRuns.NoLostWakeUp | immvibe/threadqueue.c:95-97 | while messages wait, a thread inside get is awake, and its next turn delivers the oldest message unless it timed out |
| QueueRuns.AddAfterDelivery | immvibe/threadqueue.c:17-50 | in every run, right after a delivery an add succeeds even if malloc fails |
| QueueRuns.TimeoutsAreReal | immvibe/threadqueue.c:127-139 | a thread keeps the timeout it called get with, times out only by the expiry of its own timed wait, and then returns without a message |
| QueueRuns.UntimedNeverExpires | immvibe/threadqueue.c:127-139 | in every run a get without a timeout does not time out |
| QueueRuns.RunsAreSequential | immvibe/threadqueue.c:74-159 | every interleaving leaves the queue that the successful calls alone, made one after the other, leave, and each get returns what it returns there: timed-out gets and out-of-memory adds leave no trace |
| QueueRuns.DeliveredInAddOrder | immvibe/threadqueue.c:74-159 | the k-th delivery is the k-th successful add |
| VibeDaemon.RoundTrip | immvibe/connector.c:67-80 | every request decodes to its own message, whatever follows it in the buffer |
| VibeDaemon.EncodedFits | immvibe/connector.c:69-73 | every 32-bit duration fits the 16-byte buffer with its terminator |
| VibeDaemon.EmptyVibrateIsQueued | immvibe/daemon.c:82-93 | a plus sign and two zero bytes queue the uninitialised duration |
| VibeDaemon.ParseIsDeterminedIff | immvibe/daemon.c:78-106 | what is queued is independent of the uninitialised duration unless the buffer is a plus sign and white space only |
| VibeDaemon.OtherRequests | immvibe/daemon.c:78-106 | a minus sign is a stop whatever follows, a plus sign before anything but a number or white space is refused, and so is every other first character |
| VibeDaemon.WritesEndOff | immvibe/daemon.c:48-66 | any complete sequence of jobs leaves the motor off |
| VibeDaemon.DispatchKeepsInv | immvibe/daemon.c:47-66 | starting a job keeps the write log equal to what the delivered messages ask for |
| VibeDaemon.LockKeepsInv | immvibe/daemon.c:45 | taking a message keeps it too |
| VibeDaemon.StepKeepsInv | immvibe/daemon.c:37-106 | so does every step of worker and requests |
| VibeDaemon.WorkerWrites | immvibe/daemon.c:45-66 | in every run the writes are force then 0 per vibrate and 0 per stop, in delivery order, and the motor is off whenever the worker waits |
| VibeDaemon.WorkerProgresses | immvibe/daemon.c:45 | in every run in which a message is queued and the worker waits, its next turn at the mutex takes the oldest message |
| VibeDaemon.JobPlays | immvibe/daemon.c:47-66 | a vibrate request plays the force until it finishes and then 0, a stop plays 0, and the worker waits again |
| VibeDaemon.WritesArePlayed | immvibe/daemon.c:45-66 | the writes of queued requests are the force and 0 per vibration and 0 per stop, stated on the requests alone |
| VibeDaemon.RequestsAreQueued | immvibe/daemon.c:78-99 | encoded requests that arrive are queued as their own messages in arrival order |
| VibeDaemon.EndToEnd | immvibe/daemon.c:45-99 | once the daemon is idle, the driver saw the force and then 0 for each vibration the clients asked for and 0 for each stop, in order, and the motor is off |
| VibeDaemonCode.Daemon.ProcessBuf | immvibe/daemon.c:78-106 | the heap queue gains the parsed message, or is unchanged when the request is refused |
| VibeDaemonCode.Daemon.WorkerRound | immvibe/daemon.c:45-72 | one round takes the oldest message and appends exactly its writes to the driver log |
| FlowSpec.BytesSnoc | mtk/gsm0710muxd/src/gsm0710muxd_fc.c:120-132 | pushing a frame appends its bytes to what is to be written |
| FlowSpec.WriteTakes | mtk/gsm0710muxd/src/gsm0710muxd_fc.c:293-332 | one write result takes exactly the smaller of its count and what is left of the frame, a failed one nothing, and the frame is left exactly when it went out whole |
| FrameRing.FrameList.IsEmpty | mtk/gsm0710muxd/src/gsm0710muxd_fc.c:159-163 | the pointer test tells whether the sequence is empty |
| FrameRing.FrameList.Push | mtk/gsm0710muxd/src/gsm0710muxd_fc.c:120-132 | turning the old sentinel into a data node appends the frame and keeps a ring |
| FrameRing.FrameList.Pop | mtk/gsm0710muxd/src/gsm0710muxd_fc.c:134-147 | removes and frees the oldest node, or answers none on the empty ring |
| FrameRing.FrameList.Clean | mtk/gsm0710muxd/src/gsm0710muxd_fc.c:149-157 | terminates having destroyed each queued frame once, in order, with only the sentinel left |
| FrameRing.FrameList.Init | mtk/gsm0710muxd/src/gsm0710muxd_fc.c:100-110 | leaves an empty ring, reusing an existing one after cleaning it |
| FrameRing.FrameList.Destroy | mtk/gsm0710muxd/src/gsm0710muxd_fc.c:112-118 | every queued frame is destroyed once, in order, every node is freed, and the list is usable afterwards only if there was none |
| FrameRing.Channel.constructor | mtk/gsm0710muxd/src/gsm0710muxd_fc.c:183-201 | a new context has no frames and flow control on |
| FrameRing.Channel.CacheFrameData | mtk/gsm0710muxd/src/gsm0710muxd_fc.c:214-236 | refines the value-level step: queue or drop at the watermark, destroy either way |
| FrameRing.Channel.CacheRemainingFrameData | mtk/gsm0710muxd/src/gsm0710muxd_fc.c:238-258 | starts a list with one frame and its offset, and reports the failed assertion exactly on a non-empty list |
| FrameRing.Channel.Close | mtk/gsm0710muxd/src/gsm0710muxd_fc.c:203-212 | refines the value-level close; the list pointer stays, so the channel is usable afterwards if and only if it had no list |
| FrameRing.WriteFrame | mtk/gsm0710muxd/src/gsm0710muxd_fc.c:293-332 | the inner loop emits the frame from its offset, each byte once, and stops where the write results say |
| FrameRing.Channel.WriteAndAdvance | mtk/gsm0710muxd/src/gsm0710muxd_fc.c:292-337 | a round emits what leaves the backlog and moves to the next frame only when this one is out |
| FrameRing.Channel.WriteOut | mtk/gsm0710muxd/src/gsm0710muxd_fc.c:292-338 | the outer loop ends where the write results say, having emitted exactly what left the backlog |
| FrameRing.Channel.RetryWrites | mtk/gsm0710muxd/src/gsm0710muxd_fc.c:280-338 | for every sequence of partial writes, zero writes, EINTR and EAGAIN: emitted bytes followed by those left are the backlog from the saved offset, the position is the one the results determine, flow control is lifted exactly when nothing is left, and total, sentinel and destroyed frames stay |
| FlowRuns.ReceiverKeepsControl | mtk/gsm0710muxd/src/gsm0710muxd.c:2388-2450 | every receiver step keeps the handoff invariant |
| FlowRuns.RetryKeepsControl | mtk/gsm0710muxd/src/gsm0710muxd_fc.c:280-366 | every retry-thread step keeps it |
| FlowRuns.StepKeepsInv | mtk/gsm0710muxd/src/gsm0710muxd_fc.c:214-415 | every step keeps control, byte order, backlog bound, destroy ledger, frame fates and signals |
| FlowRuns.RunsKeepInv | mtk/gsm0710muxd/src/gsm0710muxd_fc.c:214-415 | they hold in every reachable state |
| FlowRuns.HandoffIsSafe | mtk/gsm0710muxd/src/gsm0710muxd_fc.c:238-409 | at most one retry thread is active, none while flow control is on, the list is then empty outside the handoff, and neither assertion fires |
| FlowRuns.OneWriter | mtk/gsm0710muxd/src/gsm0710muxd.c:2388-2405 | while the receiver writes directly no retry thread is active |
| FlowRuns.NoLostSignal | mtk/gsm0710muxd/src/gsm0710muxd_fc.c:360-404 | a receiver asleep in the handoff is signalled already or has a closing thread that will signal |
| FlowRuns.BytesInOrder | mtk/gsm0710muxd/src/gsm0710muxd_fc.c:280-338 | bytes at the terminal followed by pending bytes are the accepted stream, each once and in order; how many move at each write is `FlowRuns.WriteTakesBytes` |
| FlowRuns.DirectTakes | mtk/gsm0710muxd/src/gsm0710muxd.c:2402-2424 | a direct write of n bytes puts the smaller of n and the frame at the terminal; a short one saves the frame with offset n and the rest as first remainder, a whole one saves nothing |
| FlowRuns.RetryTakes | mtk/gsm0710muxd/src/gsm0710muxd_fc.c:299-314 | a retry write of n bytes puts the smaller of n and the rest at the terminal, and stays on the frame at the advanced offset exactly if fewer than the rest went out |
| FlowRuns.WriteTakesBytes | mtk/gsm0710muxd/src/gsm0710muxd_fc.c:299-332 | in every run a write of n moves the smaller of n and what is left from the front of the current frame to the terminal, and no other event moves any |
| FlowRuns.WritesAddUp | mtk/gsm0710muxd/src/gsm0710muxd_fc.c:299-332 | in every run whose writes report no more than was offered, the number of bytes at the terminal is the sum of what they reported |
| FlowRuns.ArrivalIsPendingIff | mtk/gsm0710muxd/src/gsm0710muxd_fc.c:214-236 | in every run an arriving frame joins the pending bytes exactly if flow control is off or it fits below 4096; otherwise it is counted as dropped and changes nothing else |
| FlowRuns.FullTerminalKeeps | mtk/gsm0710muxd/src/gsm0710muxd.c:2431-2449 | a terminal that takes nothing leaves the whole frame pending, except on the video call channel, which discards it |
| FlowRuns.NothingStranded | mtk/gsm0710muxd/src/gsm0710muxd_fc.c:334-338 | with the receiver idle everything is out or an active thread is there to write it |
| FlowRuns.BacklogBound | mtk/gsm0710muxd/src/gsm0710muxd_fc.c:221-253 | the total is the first remainder plus accepted lengths, and pending bytes never exceed the larger of the first remainder and 4096 |
| FlowRuns.WrittenFrameIsAllocated | mtk/gsm0710muxd/src/gsm0710muxd_fc.c:229-234 | the frame being written is not destroyed if and only if rx_fc_off was clear when it arrived, if and only if it opened the episode |
| FlowRuns.CachedFrameIsWrittenAfterDestroy | mtk/gsm0710muxd/src/gsm0710muxd_fc.c:229-234 | a run in which a retry thread writes a frame already destroyed |
| FlowRuns.DestroyedIff | mtk/gsm0710muxd/src/gsm0710muxd.c:2391-2450 | in every run a frame has been destroyed if and only if it arrived while rx_fc_off was set or the receiver wrote it whole |
| FlowRuns.DestroyedOnce | mtk/gsm0710muxd/src/gsm0710muxd.c:1371-1381 | no frame is destroyed twice as long as the channel is not closed |
| FlowRuns.CloseDestroysTwiceIff | mtk/gsm0710muxd/src/gsm0710muxd_fc.c:203-212 | after every run, closing destroys a frame for the second time if and only if one is queued behind the first |
| FlowRuns.ClosingDestroysTwice | mtk/gsm0710muxd/src/gsm0710muxd_fc.c:203-212 | a run after which closing does so |
| FlowRuns.ClosedListIsFreedIff | mtk/gsm0710muxd/src/gsm0710muxd_fc.c:203-212 | after every run, a close leaves the list pointer dangling if and only if a retry thread has been created or is about to be |
| FlowRuns.UsesAfterClose | mtk/gsm0710muxd/src/gsm0710muxd_fc.c:112-163 | after every run, a first close reads no freed sentinel, a second one does if and only if a retry thread has been created or is about to be, and then every active thread's next pop does |
| FlowRuns.PopAfterClose | mtk/gsm0710muxd/src/gsm0710muxd_fc.c:203-212 | a run with a thread whose next pop reads the freed sentinel |
| GuiExtItemSpec.KeyIsSum | mtk/gui_ext/lib/GuiExtImpl.cpp:59-61 | for type and index below 8 the shifted or is the positional sum |
| GuiExtItemSpec.KeyInjective | mtk/gui_ext/lib/GuiExtImpl.cpp:59-61 | such keys determine usage, type and index |
| GuiExtItemSpec.KeyCollides | mtk/gui_ext/lib/GuiExtImpl.cpp:59-61 | index 8 of an even type shares the key of index 0 of the next type |
| GuiExtItemSpec.AddTypeIs | mtk/gui_ext/lib/GuiExtImpl.cpp:595-613 | preparing a type, with any number of buffers, gives each a slot under its key, adds only empty slots under the keys of their own fields, and changes none that was there |
| GuiExtItemSpec.NewItemIsCoherent | mtk/gui_ext/lib/GuiExtImpl.cpp:451-513 | a new pool accounts for every buffer with an empty slot |
| GuiExtItemSpec.NewItemIsOwnKeyed | mtk/gui_ext/lib/GuiExtImpl.cpp:451-513 | with any number of buffers, each slot of a new pool is under the key of its own fields |
| GuiExtItemSpec.AcquireKeepsCoherent | mtk/gui_ext/lib/GuiExtImpl.cpp:656-753 | acquire keeps dequeued exactly when a token is held, and a failing one changes nothing; when it is granted is `GuiExtItemSpec.AcquireGrantedIff` |
| GuiExtItemSpec.AcquireGrantedIff | mtk/gui_ext/lib/GuiExtImpl.cpp:656-753 | acquire is granted if and only if the composer asks a pool that serves it for a buffer of a configured display that is not dequeued; which error it gives otherwise |
| GuiExtItemSpec.ReleaseIsExact | mtk/gui_ext/lib/GuiExtImpl.cpp:772-797 | release returns and clears the token of exactly the one buffer and leaves every other buffer and token |
| GuiExtItemSpec.NewItemServes | mtk/gui_ext/lib/GuiExtImpl.cpp:451-513 | a new pool has its producer and no connected usage, and gives exactly the configured number of buffers of each display |
| GuiExtItemSpec.AcquireThenRelease | mtk/gui_ext/lib/GuiExtImpl.cpp:729-797 | acquire hands out a free buffer and records its holder; releasing it restores the pool but for the connection mark |
| GuiExtItemSpec.ReleaseKeepsCoherentIff | mtk/gui_ext/lib/GuiExtImpl.cpp:772-797 | release keeps the bookkeeping if and only if the index is below 8 or its key names no held slot |
| GuiExtItemSpec.ReleaseKeepsCoherent | mtk/gui_ext/lib/GuiExtImpl.cpp:772-797 | the direction used in runs |
| GuiExtItemSpec.HeldByIs | mtk/gui_ext/lib/GuiExtImpl.cpp:678-699 | the indices found for a consumer are those whose slot carries its token |
| GuiExtItemSpec.ConsumerDiedKeepsCoherent | mtk/gui_ext/lib/GuiExtImpl.cpp:678-721 | a consumer's death keeps the bookkeeping |
| GuiExtItemSpec.ConsumerDiedIsExact | mtk/gui_ext/lib/GuiExtImpl.cpp:678-699 | it returns exactly the indices the consumer held and leaves other slots alone |
| GuiExtItemSpec.DeathLeavesConnected | mtk/gui_ext/lib/GuiExtImpl.cpp:701-717 | afterwards no usage is connected if and only if no buffer is held |
| GuiExtItem.DequeueSome | mtk/gui_ext/lib/GuiExtImpl.cpp:595-599 | dequeues a free buffer and changes nothing exactly when all are out |
| GuiExtItem.CancelAll | mtk/gui_ext/lib/GuiExtImpl.cpp:620-623 | every buffer dequeued for preparation is returned |
| GuiExtItem.GuiExtPoolItem.constructor | mtk/gui_ext/lib/GuiExtImpl.cpp:451-513 | the heap pool starts as the value-level new pool |
| GuiExtItem.GuiExtPoolItem.PrepareAll | mtk/gui_ext/lib/GuiExtImpl.cpp:565-585 | the types are prepared in key order, whatever their number of buffers |
| GuiExtItem.GuiExtPoolItem.PrepareBuffer | mtk/gui_ext/lib/GuiExtImpl.cpp:587-626 | the two loops add the type's missing slots in index order and leave its queue as it was |
| GuiExtItem.GuiExtPoolItem.ReleaseAll | mtk/gui_ext/lib/GuiExtImpl.cpp:682-699 | whatever the number of buffers, the loop over slots returns all of one consumer's buffers at once |
| GuiExtItem.GuiExtPoolItem.ConsumerDied | mtk/gui_ext/lib/GuiExtImpl.cpp:678-721 | whatever the number of buffers, the handler refines the value-level death and reports whether any usage is left |
| GuiExtPoolSpec.SomeIdIsFree | mtk/gui_ext/lib/GuiExtImpl.cpp:433-447 | with fewer than ten ids taken one of the ten is free (pigeonhole) |
| GuiExtPoolSpec.FirstFreeIsFirst | mtk/gui_ext/lib/GuiExtImpl.cpp:433-447 | the cyclic search finds the first free id after the starting point |
| GuiExtPoolSpec.NextIdIsFree | mtk/gui_ext/lib/GuiExtImpl.cpp:433-447 | the next id is in 1..10, free, and the first free one after the previous id in cyclic order |
| GuiExtPoolCode.NextFreeId | mtk/gui_ext/lib/GuiExtImpl.cpp:433-447 | the wrap-around loop terminates and returns that id |
| GuiExtPoolCode.GuiExtPool.constructor | mtk/gui_ext/lib/GuiExtImpl.cpp:150-157 | a new service is well formed and satisfies the run invariant |
| GuiExtPoolCode.GuiExtPool.GetPoolId | mtk/gui_ext/lib/GuiExtImpl.cpp:433-447 | returns and remembers the next id |
| GuiExtPoolCode.GuiExtPool.RemovePoolItem | mtk/gui_ext/lib/GuiExtImpl.cpp:377-401 | removes the named pool exactly when it has neither producer nor connected usage |
| GuiExtPoolCode.GuiExtPool.Alloc | mtk/gui_ext/lib/GuiExtImpl.cpp:163-248 | refines the machine's alloc; succeeds exactly below ten pools, with the next id |
| GuiExtPoolCode.GuiExtPool.Free | mtk/gui_ext/lib/GuiExtImpl.cpp:250-266 | refines the machine's free, bad index exactly for an unknown id |
| GuiExtPoolCode.GuiExtPool.Disconnect | mtk/gui_ext/lib/GuiExtImpl.cpp:325-338 | refines the machine's disconnect; bad index exactly for an unknown id, invalid operation exactly for the composer of a pool without it |
| GuiExtPoolCode.GuiExtPool.ConsumerDied | mtk/gui_ext/lib/GuiExtImpl.cpp:678-721 | refines the machine's consumer death, with the removal it causes |
| GuiExtPoolCode.GuiExtPool.SweepAt | mtk/gui_ext/lib/GuiExtImpl.cpp:206-220 | one round of the downward loop takes the producer from the pool at this position if it is the dead one's, drops the pool if nothing wants it, and leaves the others; the outcome in the machine's terms is `GuiExtLaws.ProducerDeathIs` |
| GuiExtPoolCode.GuiExtPool.ProducerDied | mtk/gui_ext/lib/GuiExtImpl.cpp:202-224 | the downward loop with removals refines the machine's producer death, which `GuiExtLaws.ProducerDeathIs` spells out |
| GuiExtPoolRuns.SweepIsFilter | mtk/gui_ext/lib/GuiExtImpl.cpp:206-220 | walking down while removing equals orphaning every pool and then filtering |
| GuiExtPoolRuns.StepIsPointwise | mtk/gui_ext/lib/GuiExtImpl.cpp:250-401 | in every state that runs reach, every operation but alloc changes pools one by one and drops exactly the unwanted |
| GuiExtPoolRuns.StepKeepsListInv | mtk/gui_ext/lib/GuiExtImpl.cpp:163-401 | every operation with any numbers keeps the list ordered, wanted and own-keyed, and the display device in step |
| GuiExtPoolRuns.RunsKeepListInv | mtk/gui_ext/lib/GuiExtImpl.cpp:163-401 | they hold after every run |
| GuiExtPoolRuns.AllocKeepsInv | mtk/gui_ext/lib/GuiExtImpl.cpp:163-248 | alloc keeps the invariant of runs within the limits of the packed keys |
| GuiExtPoolRuns.StepKeepsInv | mtk/gui_ext/lib/GuiExtImpl.cpp:163-401 | every operation within those limits keeps it |
| GuiExtPoolRuns.RunsKeepInv | mtk/gui_ext/lib/GuiExtImpl.cpp:163-401 | it holds after every such run |
| GuiExtPoolRuns.LiveIdsAreDistinct | mtk/gui_ext/lib/GuiExtImpl.cpp:171-197 | in every run at most ten pools are live, with distinct ids in 1..10 |
| GuiExtPoolRuns.PoolLifetime | mtk/gui_ext/lib/GuiExtImpl.cpp:377-401 | a pool is listed after a step if and only if the step left it a producer or a connected usage: removed in that very step, never earlier; what each step leaves is in `GuiExtLaws` |
| GuiExtLaws.ProducerDeathIs | mtk/gui_ext/lib/GuiExtImpl.cpp:202-224 | in every run the death of a producer keeps a pool of its own, without producer, exactly if a usage is connected, keeps all others as they were, and leaves no listed pool with that producer |
| GuiExtLaws.FreeIs | mtk/gui_ext/lib/GuiExtImpl.cpp:250-266 | in every run a free keeps the pool, without producer, exactly if a usage is connected, and all others as they were |
| GuiExtLaws.DisconnectIs | mtk/gui_ext/lib/GuiExtImpl.cpp:325-338 | in every run a disconnect takes the usage off, and keeps the pool exactly if a producer or another usage is left |
| GuiExtLaws.AllocIs | mtk/gui_ext/lib/GuiExtImpl.cpp:163-248 | in every run an alloc below ten pools lists one more, under an id in 1..10 not listed before, with the caller as producer; at ten it changes nothing |
| GuiExtLaws.ConfiguredIsGiven | mtk/gui_ext/lib/GuiExtImpl.cpp:340-375 | in every run a display configured with n buffers has exactly n of them in the next pool, a disabled one none, and the first pool three of the primary display |
| GuiExtLaws.ConfigKeepsOthers | mtk/gui_ext/lib/GuiExtImpl.cpp:340-375 | configuring one display leaves the others and all pools as they were |
| GuiExtLaws.GrantedIff | mtk/gui_ext/lib/GuiExtImpl.cpp:268-295 | in every joint run the client's acquire is granted if and only if the pool is listed and has the buffer free |
| GuiExtPoolRuns.DequeuedIffToken | mtk/gui_ext/lib/GuiExtImpl.cpp:595-747 | in every run within the limits of the packed keys a buffer is dequeued exactly when its slot holds a token |
| GuiExtPoolRuns.DeathReturnsHeld | mtk/gui_ext/lib/GuiExtImpl.cpp:678-699 | in every such run a death returns exactly what that consumer held |
| GuiExtPoolRuns.VideoFollowsPools | mtk/gui_ext/lib/GuiExtImpl.cpp:117-145 | in every run the video reference count is the number of pools and the display is decoupled exactly while it is positive |
| GuiExtHeld.RemovalLeavesHeldIff | mtk/gui_ext/lib/GuiExtImpl.cpp:377-401 | in every such run the removal of a pool leaves a buffer dequeued if and only if one was before and the event is not a consumer's death |
| GuiExtHeld.NoHeldBufferIsLost | mtk/gui_ext/lib/GuiExtImpl.cpp:325-401 | in every such run in which nobody disconnects the composer while a buffer is dequeued, no pool is removed with one |
| GuiExtHeld.ReleaseLosesToken | mtk/gui_ext/lib/GuiExtImpl.cpp:772-797 | a run in which releasing buffer 8 of the primary display leaves buffer 0 of the external one dequeued without token |
| GuiExtHeld.DisconnectLosesBuffer | mtk/gui_ext/lib/GuiExtImpl.cpp:325-338 | a run in which a pool is removed with a dequeued buffer |
| GuiExtClient.SlotKeyIsSum | mtk/gui_ext/lib/GuiExtClientConsumer.cpp:23-26 | in range the packed id is the positional sum |
| GuiExtClient.SlotKeyInjective | mtk/gui_ext/lib/GuiExtClientConsumer.cpp:23-26 | in range the packed id determines its four fields |
| GuiExtClient.SlotKeyCollides | mtk/gui_ext/lib/GuiExtClientConsumer.cpp:23-26 | index 8 of an even type shares the packed id of index 0 of the next type |
| GuiExtClient.PutKeepsKeyed | mtk/gui_ext/lib/GuiExtClientConsumer.cpp:98-118 | adding a slot keeps every slot under its own key, sorted and unique |
| GuiExtClient.GuiExtClientConsumer.Acquire | mtk/gui_ext/lib/GuiExtClientConsumer.cpp:47-128 | arguments are refused exactly out of range, a failure changes nothing, a granted index of any size returns the buffer stored under its packed id, which in range is its own, and is stored only when the id is free; without a grant the first unused matching slot serves or the call fails |
| GuiExtClient.GuiExtClientConsumer.TakeBackup | mtk/gui_ext/lib/GuiExtClientConsumer.cpp:76-94 | takes the first matching slot that is not in use and marks only that one; fails exactly when all matching slots are taken |
| GuiExtClient.GuiExtClientConsumer.ReleaseLocked | mtk/gui_ext/lib/GuiExtClientConsumer.cpp:170-189 | an unknown buffer changes nothing; a known one sends one release and clears the mark of the slot with the packed id, and of no other |
| GuiExtClient.GuiExtClientConsumer.DropMatching | mtk/gui_ext/lib/GuiExtClientConsumer.cpp:219-233 | one round moves the walk on by one position: the entry goes if and only if it matches, after a release of the looked-up index if it is still marked |
| GuiExtClient.GuiExtClientConsumer.Disconnect | mtk/gui_ext/lib/GuiExtClientConsumer.cpp:191-236 | for indices of any size and buffers listed twice: exactly the matching slots go, the others stay in order, and the marks left and the calls sent are those that the look-ups determine |
| GuiExtClient.GuiExtClientConsumer.WalkDown | mtk/gui_ext/lib/GuiExtClientConsumer.cpp:219-233 | the downward loop with removals equals clearing marks over the whole list and then leaving out the matching slots |
| GuiExtClient.UnmarkedIff | mtk/gui_ext/lib/GuiExtClientConsumer.cpp:219-233 | a slot keeps its mark if and only if no release of the walk clears its packed id; nothing else of it changes |
| GuiExtClient.OthersKeptIff | mtk/gui_ext/lib/GuiExtClientConsumer.cpp:170-233 | a disconnect leaves the other slots exactly as they were if and only if none of its releases clears the packed id of a marked slot that does not match |
| GuiExtClient.OthersKept | mtk/gui_ext/lib/GuiExtClientConsumer.cpp:170-233 | it does so if buffers are distinct, and if all indices are in range |
| GuiExtClient.OwnReleases | mtk/gui_ext/lib/GuiExtClientConsumer.cpp:219-233 | with distinct buffers the service sees one release per marked match, from the last to the first |
| GuiExtClient.OtherLosesMark | mtk/gui_ext/lib/GuiExtClientConsumer.cpp:170-189 | a list in key order on which a disconnect clears the mark of another display's slot |
| GuiExtClient.OthersAre | mtk/gui_ext/lib/GuiExtClientConsumer.cpp:219-233 | what stays is exactly the entries that differ in pool, usage or display type |
| GuiExtJoint.OtherMine | mtk/gui_ext/lib/GuiExtImpl.cpp:311-401 | another party's event takes a dequeued buffer from a client if and only if it releases that buffer or removes its pool |
| GuiExtJoint.TakeMine | mtk/gui_ext/lib/GuiExtImpl.cpp:729-752 | a client's acquire adds exactly the granted buffer to what the service holds for it |
| GuiExtJoint.MarksKeptIff | mtk/gui_ext/lib/GuiExtClientConsumer.cpp:74-128 | if every marked slot's buffer is held at the service, a step keeps it so if and only if a refused acquire falls back on a held buffer and no other event loses a marked one |
| GuiExtJoint.MarksAreHeld | mtk/gui_ext/lib/GuiExtClientConsumer.cpp:47-236 | in every joint run of such steps a slot marked acquired is dequeued for the client at the service |
| GuiExtJoint.MarksAlwaysHeldIff | mtk/gui_ext/lib/GuiExtClientConsumer.cpp:47-236 | throughout a joint run the marks are right if and only if all its steps are safe |
| GuiExtJoint.DropLeavesHeldIff | mtk/gui_ext/lib/GuiExtClientConsumer.cpp:219-233 | in every joint run dropping a slot leaves its buffer dequeued for the client if and only if it was and the slot was not marked or its handle leads to another index |
| GuiExtJoint.FallbackMarksUnheld | mtk/gui_ext/lib/GuiExtClientConsumer.cpp:75-89 | a joint run after which the client marks a buffer that another client holds |
| GuiExtJoint.DisconnectKeepsBuffer | mtk/gui_ext/lib/GuiExtClientConsumer.cpp:119-121 | a joint run after which a buffer is dequeued for a client that has no slot left |
| GuiExtReuse.KeepsBuffer | mtk/gui_ext/lib/GuiExtClientConsumer.cpp:98-128 | in every run with any numbers, from its storing on a slot has the buffer of that step |
| GuiExtReuse.ListsIff | mtk/gui_ext/lib/GuiExtImpl.cpp:171-241 | in every state that runs reach, a step lists an id that was not listed if and only if it allocates that id, and it never allocates one that was listed |
| GuiExtReuse.SamePoolIff | mtk/gui_ext/lib/GuiExtImpl.cpp:377-447 | in every run, an id that is listed has been listed without a break since step j if and only if no pool was allocated under it since |
| GuiExtReuse.WasStored | mtk/gui_ext/lib/GuiExtClientConsumer.cpp:98-118 | in every run a slot present was stored in some step and not since |
| GuiExtReuse.CachedBufferIsListedIff | mtk/gui_ext/lib/GuiExtClientConsumer.cpp:98-123 | in every run, a granted acquire of a cached buffer returns the one that the last storing step requested from the pool listed then; that is the pool listed now, without a break since, if and only if the ids agree and no pool was allocated under the id since |
| GuiExtReuse.StaleBufferIsReturned | mtk/gui_ext/lib/GuiExtClientConsumer.cpp:98-123 | a run after which a granted acquire returns a buffer stored from a removed pool: the storing step is given, and no pool was listed under the id at a step in between |
| CStrings.SplitJoins | power/metadata-parser.c:44-45 | splitting at a separator is undone by joining and leaves no separator in a segment |
| CStrings.AtoiReads | power/metadata-parser.c:82 | atoi of white space, the decimal digits of n with or without a sign, and any other text is n |
| CStrings.AtoiOfDigits | power/metadata-parser.c:82 | atoi of a string of digits is their positional value |
| CStrings.AtoiOfOther | power/metadata-parser.c:82 | atoi of text that begins with no number is 0 |
| CStrings.TokensAt | power/metadata-parser.c:44-45 | the token found in place is the first non-empty segment and the rest gives the other tokens |
| CStrings.StrtokR | power/metadata-parser.c:44-45 | cuts the buffer at one place only and yields the tokens of the separator specification one by one |
| Metadata.CopyTruncated | power/metadata-parser.c:56-58 | copy and terminator leave the source text cut to the limit |
| Metadata.FillKey | power/metadata-parser.c:54-58 | the key buffer holds the text before the equals sign cut to 1023 characters |
| Metadata.FillValue | power/metadata-parser.c:60-64 | the value buffer holds the text after it cut to 1023, also when the key was cut, with no underflow |
| Metadata.ParseMetadata | power/metadata-parser.c:36-68 | takes the next segment, fills key and value from it, says exactly when none is left, and only cuts the input |
| Metadata.PartsAre | power/metadata-parser.c:52-64 | key and value of a segment are the text before and after its first equals sign, each cut to 1023 characters on its own |
| Metadata.SetsIff | power/metadata-parser.c:79-91 | a segment sets a key if and only if it begins with the key and an equals sign and has text behind them |
| Metadata.Apply | power/metadata-parser.c:79-91 | one segment sets a field exactly when the key is equal and the value non-empty; on the text this is `Metadata.SetsIff` |
| Metadata.ParseHints | power/metadata-parser.c:70-100 | for every terminated input both fields are the specification's scan over all segments, and the input is only cut; what the scan gives on a text is `Metadata.LastAssignmentDecides` |
| Metadata.ScanIsLastWins | power/metadata-parser.c:77-94 | the scan is the integer of the last segment that sets the key, or the old value when none does |
| Metadata.LastAssignmentDecides | power/metadata-parser.c:77-94 | on the text: if the last segment that assigns to the key holds the decimal n, with white space before it or other text behind, the field becomes n, whatever comes before |
| Metadata.NoAssignmentKeeps | power/metadata-parser.c:77-94 | on the text: a field that no segment assigns to keeps its value |
| Metadata.ScanIgnoresEmpty | power/metadata-parser.c:77-94 | skipping empty segments does not change the scan |
| MkdirP.Tokenizer.Next | proj-dev-setup/main.c:39-58 | successive calls yield the path's components and keep the first character |
| MkdirP.EnterComponent | proj-dev-setup/main.c:44-58 | one round extends the prefix within bounds, creates it only if missing and under an existing parent, and says why it stops |
| MkdirP.Round | proj-dev-setup/main.c:44-58 | a round and the next component: position, prefix, directories and call log move on together |
| MkdirP.CopyPath | proj-dev-setup/main.c:34 | the copy is terminated at the path's end if and only if the path is shorter than PATH_MAX |
| MkdirP.Mkdirp | proj-dev-setup/main.c:25-60 | exactly the prefixes reached are added and nothing else, each missing one under an existing parent; it stops at the first that is too long or denied, and tells which; a path of PATH_MAX characters or more is found to leave its copy unterminated |
| MkdirP.CompletesExactlyWhen | proj-dev-setup/main.c:45-48 | with no failing mkdir it completes if and only if the canonical path is shorter than PATH_MAX |
| MkdirP.ShortPathsFit | proj-dev-setup/main.c:45-48 | every path of at most PATH_MAX - 2 characters has a canonical form that fits |
| MkdirP.LongestPathCompletesIff | proj-dev-setup/main.c:45-48 | a path of PATH_MAX - 1 characters completes, no mkdir failing, if and only if it has a redundant slash |
| MkdirP.LongestPathRefused | proj-dev-setup/main.c:45-48 | the path of PATH_MAX - 1 letters a is refused |
| MkdirP.CanonicalLength | proj-dev-setup/main.c:49-50 | the canonical path is at most one character longer than the path |
| MkdirP.CanonicalLengthIff | proj-dev-setup/main.c:49-50 | it is one character longer exactly when the path has no redundant slash |
| MkdirP.PrefixIs | proj-dev-setup/main.c:49-50 | the path built after i components is the root followed by those components joined with slashes and a slash |
| MkdirP.CanonicalIs | proj-dev-setup/main.c:49-50 | a path without redundant slashes is built as itself and a slash |

## Left out

- Sockets, epoll, sleeping, logging, thread creation failure, and real time in timed waits.
- ThreadQueue.MessageQueue.Get: models the part after the wait; the wait loop with spurious and timed wake-ups is the machine in `QueueRuns.dfy`.
- QueueRuns.NoLostWakeUp: says nothing about scheduling, so a thread that never gets a turn waits for ever.
- VibeDaemon.EndToEnd: one send and one read per request, because a partial send is repeated from the start of its buffer (`immvibe/connector.c:54-60`); numbers beyond 32 bits are not wrapped.
- Metadata.ParseHints: `atoi` beyond 32 bits is undefined in C and gives the mathematical integer here; the four parsers have the same loop and are modelled once.
- FlowRuns.BytesInOrder: frames are values, so it is about contents as received; see `FlowRuns.WrittenFrameIsAllocated` for which frames are still allocated when written.
- FlowRuns.NoLostSignal: clearing `rx_thread` and signalling are one step; a late signal is covered by wake-ups without a signal.
- The modem's view of flow control, which is told to stop before the wait for the previous retry thread; transmit flow control; what happens on a channel after it was closed; the reopen, watchdog and EIO branches of failed writes.
- GuiExtPoolRuns.DequeuedIffToken: runs use display types below 3, at most 8 buffers per type and released indices below 8; `GuiExtItemSpec.ReleaseKeepsCoherentIff` says what happens beyond.
- GuiExtPoolRuns.VideoFollowsPools: source PQ enabled, one PQ unit and ioctls that succeed.
- GuiExt: request, dump, Binder marshalling, strong-pointer lifetimes, the GPU usage (its queues are never created), display sizes, and BufferQueue internals beyond the set of dequeued indices; a death callback is one atomic step on a listed pool.
- GuiExtPoolCode: the service's acquire and release, which look a pool up and forward, and a pool's own acquire exist in the machine only.
- GuiExtJoint.MarksAreHeld: a client's acquire is one step together with the service's part of it, and so is a release; there is one client with a token, the others are events.
- GuiExtItem.GuiExtPoolItem: release and disconnect on the heap are the value functions over the same fields and have no row; what they keep is stated in `GuiExtItemSpec`. Disconnect takes a usage that has a flag, which the source indexes unchecked.
- GuiExtClient: service death and display configuration, which forward.
- MkdirP.Mkdirp: what happens to a path of PATH_MAX characters or more after its copy, where the tokeniser reads beyond the buffer; the ownership and mode lists of the same program.
- Kernel headers, HAL and blob wrappers, the lights HAL, the wifi command driver and the DRM whitelist, which would only add easy members.
