# Verified model of Norost B

A Dafny 4.11 model of the parts of the Norost B operating system whose correctness spans several
functions, several parties or whole runs, with proofs. Check it with `dafny verify dfyconfig.toml`.

- **Asynchronous I/O queue** (`IoProtocol`, `IoBuffers`, `IoFutures`, `IoObjects`, `IoWakers`,
  `IoDeadClose`, `IoQueue`, `IoSession`, `IoMemory`, `SpscRing`, `Arena`, `Errors`). A state machine of all
  parties of the queue (future slots and futures in the runtime, the user library, the kernel with its
  tickets), whose invariant says where every request, response and counter is. What its users rely on is
  proved over whole runs: buffers are conserved, requests arrive in order, a future yields the answer to its
  own call, closed handles are refused, no wakeup is lost. `IoQueue` is the code over the real rings and
  arenas, each method proved to be a run of that machine, and `IoSession` any sequence of its calls.
  `SpscRing` splits enqueue and dequeue into their memory accesses and proves every interleaving a FIFO;
  `IoMemory` runs the whole queue on two such rings.
- **Tiling window manager** (`WindowPath`, `WindowTree`, `Workspace`, `WindowManager`, `WindowSession`,
  `WindowLayout`). The tree in its node arena, bit-packed paths stored with windows, and geometry, kept in
  agreement over every session, and what opening and closing a window does on the screen.
- **Split virtqueue** (`Virtqueue`, `VirtqueueRun`). One descriptor table shared by a free list and the
  chains in flight, with the device as a second party.
- **Round-robin scheduler** (`RoundRobin`). A cyclic linked list of nodes on the heap, and the scan on top.
- **xHCI rings** (`CycleRing`, `TransferRing`, `EventRing`). Ownership by cycle bits, no shared index.
- **Boot memory carving** (`Carve`), **DMA bitmap allocator** (`FixedBitmap`) and **process arguments**
  (`ProcessArgs`).

`Modular` and `Wrappers` are shared helpers.

Some properties do not hold of the code as it is. For each the model keeps the code, gives a concrete
input, and proves the exact condition:

- A Close of a dead handle is answered by the kernel although nobody waits for the answer
  (`IoProtocol.DeadCloseCounterexample`, `IoProtocol.InvariantKeptIffNoDeadClose`). The comment at the
  Close arm of the kernel says that it is never answered; the lookup before the match answers first. From
  then on the runtime panics as soon as it gets to that answer (`IoDeadClose.DeadClosePanics`).
- Dropping a finished two-buffer future does not lower the ready counter
  (`IoProtocol.TwoBufferDropCounterexample`, `IoProtocol.WaitSkipsExactly`).
- A new window fails at depth 23, which opening 25 windows reaches (`WindowSession.TooManyWindows`,
  `WindowManager.Manager.NewWindow`), and destroying the only window panics
  (`WindowSession.DestroyOnlyWindow`, `WindowManager.Manager.DestroyWindow`).
- The xHCI producer ring has no check for space (`TransferRing.OverfullExample`,
  `TransferRing.EnqueueSafeIffRoom`).
- Threads that keep arriving starve all others (`RoundRobin.ArrivalsStarve`, `RoundRobin.ReturnedIff`).
- Carving can subtract below zero (`Carve.UnderflowExample`, `Carve.ApplyFailsIff`), and a partial page at
  zero is handed out whole (`Carve.PartialPageExample`, `Carve.EntryExactIff`).
- `pop_range` can hand out pages past the end of its bitmap (`FixedBitmap.SpillExample`,
  `FixedBitmap.NoRangeFailsIff`).
- After a refused object the child can be passed an object nobody added, and after refused arguments it can
  find environment variables nobody set (`ProcessArgs.ForgedObjectExample`,
  `ProcessArgs.LongArgumentExample`, `ProcessArgs.ChildGetsIff`).

## Model

| member | source | states |
|---|---|---|
| `IoProtocol.InvariantKeptIffNoDeadClose` | kernel/src/scheduler/process/io.rs:140-262 | From any state of the protocol that satisfies the invariant, no step panics, and the next state satisfies it if and only if the step is not a Close of a dead handle whose response fits the ring. |
| `IoProtocol.RunKeepsInv` | lib/rust/io_queue_rt/src/lib.rs:70-277 | Every state of every interleaving of runtime, user library and kernel steps keeps the invariant, and no possible step panics there, if Close is used on live handles only. |
| `IoProtocol.InitialInv` | lib/rust/io_queue_rt/src/lib.rs:53-59 | A new queue satisfies the invariant for all ring sizes. |
| `IoProtocol.StepKeepsInv` | kernel/src/scheduler/process/io.rs:124-264 | Each step of each party keeps slots, tickets, ring contents, buffers and counters consistent. |
| `IoProtocol.NoStepPanics` | lib/rust/io_queue_rt/src/lib.rs:248-266 | Routing a response never indexes a missing slot, and polling or dropping a future never reaches a Cancelled slot. |
| `IoProtocol.NoResponseIsDropped` | kernel/src/scheduler/process/io.rs:328-336 | An answer that the kernel owes always finds room, so the ignored result of the enqueue is never an error; the in-flight counter bounds the answers. |
| `IoProtocol.ResponseFits` | lib/rust/io_queue/src/lib.rs:128-131 | The check in `submit` is enough: fewer responses wait than the ring holds as long as one is owed. |
| `IoProtocol.ExactlyOneFate` | lib/rust/io_queue_rt/src/lib.rs:248-266 | A submission is either delivered or waits in exactly one slot, never both. |
| `IoProtocol.ResponseFindsItsSlot` | lib/rust/io_queue_rt/src/lib.rs:254-256 | Although slot indices are reused without generations, a response is routed to the slot of the very submission it answers. |
| `IoProtocol.PollReturnsOwnAnswer` | lib/rust/io_queue_rt/src/lib.rs:345-371 | A future that is ready yields the value the kernel gave for that submission. |
| `IoProtocol.LentBuffersStayOwned` | lib/rust/io_queue_rt/src/lib.rs:374-395 | Until the response arrives, lent buffers are owned by the future, a forgotten future or the Cancelled slot; they are not freed, not in the hands of a caller and not lent twice. |
| `IoBuffers.BuffersAreConserved` | lib/rust/io_queue_rt/src/lib.rs:70-395 | At any time of any history with live Closes each buffer there was at the start is in exactly one place: in the caller's hands, deallocated, or lent to one submission. |
| `IoBuffers.StepKeepsBuffers` | lib/rust/io_queue_rt/src/lib.rs:70-454 | No step of any party makes a buffer or loses one. |
| `IoProtocol.IdleQueueHoldsNothing` | lib/rust/io_queue/src/lib.rs:155-169 | The in-flight counter is zero if and only if no request, ticket or response is under way. |
| `IoProtocol.WaitSkipsExactly` | lib/rust/io_queue_rt/src/lib.rs:272-277 | Over every run the ready counter exceeds the unconsumed responses by the number of finished two-buffer futures that were dropped; so it is exact, and `wait` skips blocking exactly when a response is left, if and only if the run drops none. |
| `IoProtocol.LossStep` | lib/rust/io_queue_rt/src/lib.rs:438-454 | The only step that loses a count is the drop of a two-buffer future whose response has arrived. |
| `IoFutures.SingleBufferCountIsExact` | lib/rust/io_queue_rt/src/lib.rs:374-395 | In every history that submits no two-buffer request the ready counter is the number of unconsumed responses, whatever is dropped. |
| `IoFutures.LossHasTwoBuffers` | lib/rust/io_queue_rt/src/lib.rs:438-454 | A drop loses a count only if the submission of that number was made for a two-buffer future. |
| `IoProtocol.QueueIsCorrect` | lib/rust/io_queue_rt/src/lib.rs:53-277 | From any new queue, after any history with live Closes: no step can panic, each submission has one fate, a response that arrives was not delivered before, a future yields its own answer, a lent buffer is with a future, a forgotten future or a Cancelled slot and nowhere else, an owed answer has room, and both counters mean what they should. |
| `IoFutures.RequestsInOrder` | lib/rust/io_queue/src/lib.rs:122-160 | Over every run the kernel takes requests in the order of submission, each with the verb, handle and number of its call; what it has not taken is in the ring. |
| `IoFutures.RefusedIff` | lib/rust/io_queue/src/lib.rs:128-131 | A submission is refused if and only if as many submissions wait for a response as the response ring has places, or the request ring is full. |
| `IoFutures.FuturesAreTheirs` | lib/rust/io_queue_rt/src/lib.rs:70-175 | Over every run the future of a number holds the slot and the buffers of the accepted call of that number, is a two-buffer future exactly if that call asked for one, and is there exactly until it is polled to completion, dropped or forgotten. |
| `IoFutures.AnswerReachesFuture` | lib/rust/io_queue_rt/src/lib.rs:248-371 | Whatever happens in between, the value a future yields is the one the kernel gave when it took the request of that submission or polled its ticket. |
| `IoFutures.DeadHandleFails` | kernel/src/scheduler/process/io.rs:150-154 | The future of a request that named a dead handle when the kernel took it fails with `InvalidObject`. |
| `IoObjects.ClosedHandleIsRefused` | kernel/src/scheduler/process/io.rs:150-228 | After the kernel took a Close of a live handle and until that handle is handed out again, every request for it and every request to share it is answered `InvalidObject` and leaves the object table alone. |
| `IoObjects.OpenHandleIsServed` | kernel/src/scheduler/process/io.rs:155-250 | As long as a live handle is not closed, a request for it is answered with what its object says, with the object it made entered, or parked. |
| `IoWakers.LastPollerIsWoken` | lib/rust/io_queue_rt/src/lib.rs:248-266 | No wakeup is lost: after a pending poll, and until the future is polled again or dropped, the waker of that poll stays with the submission and is woken when the response arrives. |
| `IoWakers.OnlyPollersAreWoken` | lib/rust/io_queue_rt/src/lib.rs:345-371 | Nobody is woken who did not poll. |
| `IoProtocol.DeadCloseCounterexample` | kernel/src/scheduler/process/io.rs:150-154 | A run in which a Close of a dead handle makes the runtime panic on a response for no slot. |
| `IoDeadClose.DeadClosePanics` | kernel/src/scheduler/process/io.rs:150-154 | After any history in which slot indices stay below the user data of a Close, once the kernel has answered a Close of a dead handle: in every continuation the runtime receives at most the responses that were there before, and panics when it tries to receive one more. |
| `IoDeadClose.OrphanWaits` | lib/rust/io_queue_rt/src/lib.rs:250-258 | The response for no slot is never taken out of order: each reception brings it one place nearer to the front, and at the front it panics. |
| `IoProtocol.TwoBufferDropCounterexample` | lib/rust/io_queue_rt/src/lib.rs:438-454 | A run in which dropping a finished two-buffer future leaves the ready counter at one with nothing to consume. |
| `IoProtocol.SwapRemoveIsRemove` | kernel/src/scheduler/process/io.rs:306-306 | `swap_remove` takes out one ticket and keeps all others, as a multiset. |
| `IoQueue.Session.constructor` | lib/rust/io_queue_rt/src/lib.rs:53-59 | The real rings and arenas start in the initial protocol state. |
| `IoQueue.Session.SubmitRequest` | lib/rust/io_queue/src/lib.rs:122-160 | The request is enqueued, or `Full` is returned and nothing changes, exactly as the protocol step allows. |
| `IoQueue.Session.Submit` | lib/rust/io_queue_rt/src/lib.rs:70-175 | Slot insertion, `submit` and, on `Full`, slot removal together are one Submit step that makes the future that was asked for and takes the buffers, or leave everything as it was. |
| `IoQueue.Session.SubmitClose` | lib/rust/io_queue_rt/src/lib.rs:219-225 | A Close request is one SubmitClose step or is refused without effect. |
| `IoQueue.Session.ReceiveResponse` | lib/rust/io_queue/src/lib.rs:162-169 | Takes the oldest response and lowers the in-flight counter, or reports that there is none. |
| `IoQueue.Session.RouteOne` | lib/rust/io_queue_rt/src/lib.rs:252-264 | One round of the loop in `process` over the real slot arena is one Receive step, and wakes the waker that the slot held. |
| `IoQueue.Session.Process` | lib/rust/io_queue_rt/src/lib.rs:248-266 | `process` is a run of Receive steps that drains the response ring, although the counter is added only at the end, and wakes exactly the wakers of that run in order. |
| `IoQueue.Session.PollFuture` | lib/rust/io_queue_rt/src/lib.rs:345-371 | Polling over the real arena is one PollFuture step; once there is a result it is returned and the buffers go back to the caller. |
| `IoQueue.Session.DropFuture` | lib/rust/io_queue_rt/src/lib.rs:374-454 | Dropping over the real arena is one DropFuture step that gives the caller nothing back. |
| `IoQueue.Session.PushResponse` | kernel/src/scheduler/process/io.rs:328-336 | The response is appended if there is room and dropped otherwise. |
| `IoQueue.Session.Finish` | kernel/src/scheduler/process/io.rs:308-321 | An object result enters the object table under a handle that was not live, and is answered by that handle; any other result is answered as it is. |
| `IoQueue.ErasedHandleReturns` | kernel/src/util.rs:84-98 | A program that sends back the number it was given names the very object, for all handles that fit 24 and 8 bits; such numbers are one to one with 32-bit words and none is decoded as an error. |
| `Errors.DecodeIsExact` | lib/rust/kernel/src/error.rs:9-17 | An error that is sent arrives as that error, a value arrives unchanged, and exactly the numbers from -4096 to -1 are errors. |
| `IoQueue.Session.FinishTicket` | kernel/src/scheduler/process/io.rs:303-322 | A ticket that is done leaves the list by `swap_remove` and is answered with what it said: one PollTicket step. |
| `IoQueue.Session.PollTickets` | kernel/src/scheduler/process/io.rs:299-326 | Each ticket is polled exactly once although `swap_remove` moves tickets during the loop: the tickets left are those that were not ready, the ready ones are answered with what they said, the last first, as far as the ring has room, and the whole call is a run of the protocol. |
| `IoQueue.PollStepsMean` | kernel/src/scheduler/process/io.rs:299-326 | The steps of such a call are exactly the tickets that are ready, each once, the last first, each with the value it said or the handle of the object it made. |
| `IoQueue.Session.HandleRequest` | kernel/src/scheduler/process/io.rs:140-262 | One request of the kernel loop is one Take step. A request that names a dead handle is answered `InvalidObject` and changes no object; a Close of a live handle removes exactly that object and answers nothing; any other is parked if its object waits, or answered with its value or with the handle of its new object. It reports whether the request was a Close of a dead handle. |
| `IoQueue.Session.ProcessIoQueue` | kernel/src/scheduler/process/io.rs:124-264 | The whole call is a run of the protocol that empties the request ring: first the ready tickets, then one Take per request, each with what its object said; the invariant survives it unless the call reports that a dead handle was closed, which it does exactly then. |
| `IoSession.RunSession` | lib/rust/io_queue_rt/src/lib.rs:53-277 | Any sequence of calls of the program and the kernel over the real rings and arenas: no call panics, each is the run of protocol steps that its answer says, and the invariant holds between them; the session ends early only after a kernel call that closed a dead handle. |
| `IoSession.SessionIsRun` | lib/rust/io_queue_rt/src/lib.rs:53-277 | A session is one run of the protocol from its first state to its last, with live Closes unless its last answer says otherwise; so all results about runs hold of the real calls. |
| `IoSession.Perform` | lib/rust/io_queue_rt/src/lib.rs:70-277 | One call, with what it may do to the queue and what its answer says of that. |
| `IoMemory.RunIsProtocolRun` | lib/rust/kernel/src/io.rs:657-690 | Every interleaving of the single loads, entry accesses and index stores of program and kernel on both rings, with live Closes, is a run of the protocol in which ring operations are atomic; the rings hold what the protocol says, and whatever a party may access next is possible and does not panic. |
| `IoMemory.AccessIsStep` | lib/rust/kernel/src/io.rs:657-690 | Each memory access is one protocol step or none: a submission and a reception take effect when their index is stored, a request when the kernel has dequeued it, an answer when the kernel has computed it, and there is still room when it enqueues it. |
| `IoMemory.NewWorldAgrees` | lib/rust/io_queue_rt/src/lib.rs:53-59 | A new queue over rings with any contents agrees with the initial protocol state. |
| `SpscRing.StepRefinesFifo` | lib/rust/kernel/src/io.rs:657-690 | Every atomic step of producer and consumer refines a bounded FIFO: Full and Empty are reported only if the ring was full or empty when the index of the other side was loaded, and an entry is appended or removed exactly at the index store. |
| `SpscRing.RingIsFifo` | lib/rust/kernel/src/io.rs:657-690 | Over every interleaving and across 32-bit index wrap-around, what was dequeued is a prefix of what was enqueued, and the rest is in the ring in order. |
| `SpscRing.ProduceKeepsInv` | lib/rust/kernel/src/io.rs:657-673 | The entry written between the two index accesses is in a slot the consumer cannot read. |
| `SpscRing.ConsumeKeepsInv` | lib/rust/kernel/src/io.rs:675-690 | The entry read between the two index accesses is in a slot the producer cannot overwrite. |
| `SpscRing.FullMeansFull` | lib/rust/kernel/src/io.rs:664-668 | The test on wrapped indices is true if and only if, by the consumer index that was loaded, every slot is occupied. |
| `SpscRing.SlotOfWrapped` | lib/rust/kernel/src/io.rs:669-670 | Masking the wrapped 32-bit index gives the slot of the true index. |
| `SpscRing.IndexHas32Bits` | lib/rust/kernel/src/io.rs:657-690 | Ring indices are 32-bit counters. |
| `SpscRing.Ring.Enqueue` | lib/rust/kernel/src/io.rs:657-673 | Appends to the contents, or reports Full if and only if they fill the ring. |
| `SpscRing.Ring.Dequeue` | lib/rust/kernel/src/io.rs:675-690 | Removes and returns the oldest entry, or reports Empty if and only if there is none. |
| `Arena.StaleHandleResolvesToNothing` | lib/rust/arena/src/lib.rs:112-183 | Over every sequence of operations, a removed handle resolves to nothing as long as fewer inserts than one generation period followed its own. |
| `Arena.PeriodIsExact` | lib/rust/arena/src/lib.rs:80-99 | Generations repeat after one period of inserts. |
| `Arena.StaleHandleComesBack` | lib/rust/arena/src/lib.rs:112-151 | The bound is exact: a run of one period in which a removed handle becomes live again. |
| `Arena.GenerationAfter` | lib/rust/arena/src/lib.rs:113-114 | Two inserts less than a period apart hand out different generations. |
| `Arena.HoldsIffLive` | lib/rust/arena/src/lib.rs:167-174 | Looking a handle up in the entries finds a value if and only if the handle is live in the abstract map. |
| `Arena.PopFree` | lib/rust/arena/src/lib.rs:115-124 | Taking the first vacant entry keeps the vacant entries one acyclic list. |
| `Arena.PushFree` | lib/rust/arena/src/lib.rs:133-151 | Vacating an entry puts it at the head of the list of vacant entries and touches no other. |
| `Arena.Arena.Insert` | lib/rust/arena/src/lib.rs:112-131 | Adds exactly one mapping under a handle that was not live; the free list and all other values stay. |
| `Arena.Arena.Remove` | lib/rust/arena/src/lib.rs:133-151 | Removes exactly the live handle and returns its value; a stale or unknown handle changes nothing. |
| `Arena.Arena.Get` | lib/rust/arena/src/lib.rs:167-174 | The value of a live handle, and nothing for any other. |
| `Arena.Arena.Set` | lib/rust/arena/src/lib.rs:176-183 | Replaces the value of one live handle only. |
| `Arena.Arena.Clear` | lib/rust/arena/src/lib.rs:195-200 | Forgets every handle and keeps the generation counter. |
| `Arena.Arena.Iter` | lib/rust/arena/src/lib.rs:228-255 | Yields every live handle with its value once and nothing else. |
| `VirtqueueRun.ExactlyOnce` | lib/rust/virtio/src/queue.rs:203-278 | In every history from an idle queue the callbacks belong to different accepted requests, each names the token and first segment of its own request, every request without a callback is still in flight as submitted, and its segments with the free descriptors are the whole table. |
| `VirtqueueRun.RefusedIff` | lib/rust/virtio/src/queue.rs:203-215 | In every history a send is refused if and only if the segments of the requests that had no callback yet and its own are more than the table has descriptors. |
| `VirtqueueRun.Run` | lib/rust/virtio/src/queue.rs:203-278 | Any sequence of sends, collections and device actions keeps the queue valid, and each does to free list, chains and rings what its answer says; free descriptors and chains always share out the table. |
| `VirtqueueRun.Perform` | lib/rust/virtio/src/queue.rs:203-278 | One action: when a send panics or is refused, which chain it makes, which heads a collection reports. |
| `VirtqueueRun.DescriptorsAreShared` | lib/rust/virtio/src/queue.rs:286-303 | Each descriptor is on the free list or in exactly one chain, once. |
| `Virtqueue.Queue.constructor` | lib/rust/virtio/src/queue.rs:180-194 | All descriptors are free and no chain is in flight. |
| `Virtqueue.Queue.Send` | lib/rust/virtio/src/queue.rs:203-239 | Panics exactly on no or more than 65535 segments, refuses exactly when descriptors are short, both without effect; otherwise a chain of free descriptors holds the segments and its head, which named no chain, is published last. |
| `Virtqueue.Queue.FillChain` | lib/rust/virtio/src/queue.rs:217-232 | The loop turns the first free descriptors, in order, into a chain with the right contents and flags and leaves all other descriptors alone. |
| `Virtqueue.Queue.DeviceRead` | lib/rust/virtio/src/queue.rs:220-232 | A device that follows NEXT flags from a published head reads exactly the submitted segments. |
| `Virtqueue.Queue.CollectUsed` | lib/rust/virtio/src/queue.rs:249-278 | One callback per head returned before the call, in return order, with the first address and length of its request; exactly those chains disappear, as many descriptors as they had segments become free, and the count is right across 16-bit wrap-around, whatever the device takes and returns during the loop. |
| `Virtqueue.Queue.DeviceActs` | lib/rust/virtio/src/queue.rs:234-257 | A device takes published heads in order and returns any it holds, and no used entry is overwritten before it is collected. |
| `Virtqueue.Queue.CollectOne` | lib/rust/virtio/src/queue.rs:257-274 | One returned head is reported and its chain released. |
| `Virtqueue.Queue.ReleaseChain` | lib/rust/virtio/src/queue.rs:263-273 | All descriptors of a chain, and only those, return to the free list, although each push overwrites the link just read. |
| `Virtqueue.Queue.PushFree` | lib/rust/virtio/src/queue.rs:298-302 | The descriptor becomes the head of the free list. |
| `Virtqueue.Queue.PopFree` | lib/rust/virtio/src/queue.rs:288-295 | Takes the head of the free list, or nothing if and only if the list is empty. |
| `Virtqueue.Queue.Publish` | lib/rust/virtio/src/queue.rs:234-236 | The head is appended to what the device has not taken yet; no untaken entry is overwritten. |
| `Virtqueue.Queue.DeviceTake` | lib/rust/virtio/src/queue.rs:234-236 | The device finds published heads in order and none that was not published. |
| `Virtqueue.Queue.DeviceComplete` | lib/rust/virtio/src/queue.rs:254-277 | Returning a held head never overwrites a used entry that was not collected. |
| `Virtqueue.SendTable` | lib/rust/virtio/src/queue.rs:217-232 | Building a chain leaves every other chain and the rest of the free list readable as before. |
| `Virtqueue.CollectTable` | lib/rust/virtio/src/queue.rs:263-273 | Releasing a chain leaves every other chain readable as before. |
| `Virtqueue.RingEmptyIffEqual` | lib/rust/virtio/src/queue.rs:254-257 | The wrapped indices are equal if and only if nothing is waiting, and their difference counts what waits. |
| `Virtqueue.IndexHas16Bits` | lib/rust/virtio/src/queue.rs:234-257 | The ring indices of a virtqueue are 16-bit counters. |
| `WindowPath.MoveUpDropsStep` | base/window_manager/src/window.rs:42-45 | The two masks remove exactly the step at the given depth from an encoded path and keep the others. |
| `WindowPath.NextOfEncode` | base/window_manager/src/window.rs:70-80 | Iterating an encoded path yields its steps in order. |
| `WindowPath.EncodeInjective` | base/window_manager/src/window.rs:31-33 | Paths of one length with equal encodings are equal. |
| `WindowPath.EncodeAppend` | base/window_manager/src/workspace.rs:47-47 | Or-ing a shifted bit appends one step. |
| `WindowPath.EncodeFlip` | base/window_manager/src/workspace.rs:83-83 | Xor with the bit of the last step gives the path of the sibling. |
| `WindowTree.EncodedPathLeadsHome` | base/window_manager/src/workspace.rs:103-129 | Following the path stored with a window reaches its own leaf. |
| `WindowTree.StoredPathIsExact` | base/window_manager/src/workspace.rs:160-167 | The stored path is the one path that leads to the leaf of the window. |
| `WindowTree.SubtreeMovesUp` | base/window_manager/src/manager.rs:59-62 | Moving up every window below the sibling restores the agreement of stored paths and tree after a removal. |
| `WindowTree.NodeCount` | base/window_manager/src/workspace.rs:10-19 | A tree with n windows has 2n - 1 nodes. |
| `WindowTree.LeavesTileTheScreen` | base/window_manager/src/workspace.rs:190-225 | Every point of the screen is in the rectangle of exactly one leaf, for every tree and every sensible ratio. |
| `Workspace.Workspace.SplitLeaf` | base/window_manager/src/workspace.rs:32-94 | The leaf the path leads to becomes a parent of the old and the new window, on the side and axis the direction says; both returned paths are exact; too deep a leaf is refused without effect. |
| `Workspace.Workspace.RemoveLeaf` | base/window_manager/src/workspace.rs:103-129 | The leaf disappears, its sibling takes the place of the parent with everything below it, and the returned path leads there. |
| `Workspace.Workspace.WithPrefix` | base/window_manager/src/workspace.rs:132-153 | The windows below the prefix, each once, in tree order. |
| `Workspace.Workspace.VisitLeaves` | base/window_manager/src/workspace.rs:143-151 | The windows of a subtree, each once, in tree order. |
| `Workspace.Workspace.AllWindows` | base/window_manager/src/workspace.rs:175-180 | All windows of the tree, each once. |
| `Workspace.Workspace.CalculateRect` | base/window_manager/src/workspace.rs:160-167 | The rectangle of the leaf the path leads to. |
| `Workspace.Workspace.WindowAt` | base/window_manager/src/workspace.rs:170-172 | The window whose rectangle holds the position, with that rectangle. |
| `Workspace.SplitKeepsTree` | base/window_manager/src/workspace.rs:52-85 | After a split the node arena represents the split tree and nothing else. |
| `Workspace.RemoveKeepsTree` | base/window_manager/src/workspace.rs:117-126 | After a removal the node arena represents the tree without the leaf and nothing else. |
| `WindowManager.Manager.NewWindow` | base/window_manager/src/manager.rs:36-53 | The right-bottom leaf is split along its longer side, the new window is its second half, and all stored paths stay exact; the call is refused if and only if that leaf is at depth 23. |
| `WindowManager.Manager.DestroyWindow` | base/window_manager/src/manager.rs:55-64 | Exactly the given window goes, its sibling takes the place of their parent, and all stored paths stay exact; the call panics if and only if it was the only window; an unknown handle changes nothing. |
| `WindowManager.Manager.MoveUpAll` | base/window_manager/src/manager.rs:60-62 | Every window below the sibling is moved up once and no other. |
| `WindowManager.Manager.WindowRect` | base/window_manager/src/manager.rs:66-72 | The rectangle found by the stored path is the rectangle of the window in the tree. |
| `WindowManager.Manager.WindowAt` | base/window_manager/src/manager.rs:74-76 | The window at a position is the one whose rectangle holds it. |
| `WindowLayout.SplitOnScreen` | base/window_manager/src/workspace.rs:62-94 | A split leaf shares its rectangle with the new window, which lies on the side that was asked for, cut where the ratio says; all other windows keep their rectangles. |
| `WindowLayout.OpenedOnScreen` | base/window_manager/src/manager.rs:36-53 | A new window takes the lower part of the last window's rectangle if the space is higher than wide and the right part otherwise; all other windows stay where they are. |
| `WindowLayout.FirstFillsScreen` | base/window_manager/src/workspace.rs:96-98 | The first window has the whole screen. |
| `WindowLayout.SplitAlongLongerSide` | base/window_manager/src/workspace.rs:64-75 | If both ways of sharing a length agree, a window is split along the longer side that it has on the screen. |
| `WindowLayout.SpaceIsRectangle` | base/window_manager/src/workspace.rs:43-50 | Then the space that the choice of a direction is based on is at every node the size of its rectangle. |
| `WindowLayout.ClosedOnScreen` | base/window_manager/src/manager.rs:55-64 | When a window is closed the windows below its sibling take over exactly its space, and all others keep their rectangles. |
| `WindowLayout.OpenThenClose` | base/window_manager/src/workspace.rs:103-128 | Closing the window that was opened last gives the tree from before, node for node. |
| `WindowLayout.OpenAndClose` | base/window_manager/src/manager.rs:36-64 | On the real manager: opening a window beside others and closing it again leaves the tree and the path stored by every other window as they were. |
| `WindowLayout.LeavesLeftToRight` | base/window_manager/src/workspace.rs:143-154 | Leaves are visited from left to right: where the paths of two of them part, the earlier goes left. |
| `WindowSession.RunSession` | base/window_manager/src/manager.rs:25-76 | Every sequence of openings and closings, up to the first panic, is a history of trees in which each command does what its answer says; at the end the tree holds exactly the windows opened and not closed, and each stored path leads to its own window. |
| `WindowSession.OpensDeepen` | base/window_manager/src/manager.rs:36-53 | When windows are only opened each goes below the one before, so exactly the first 24 succeed. |
| `WindowSession.TooManyWindows` | base/window_manager/src/manager.rs:48-48 | The 25th window is refused. |
| `WindowSession.DestroyOnlyWindow` | base/window_manager/src/manager.rs:58-58 | Destroying the only window panics. |
| `RoundRobin.ThreadList.Insert` | kernel/src/scheduler/round_robin.rs:20-35 | The new thread comes right after the current one and the nodes stay one cycle. |
| `RoundRobin.ThreadList.Next` | kernel/src/scheduler/round_robin.rs:44-76 | Pointer surgery on the real nodes yields the first live thread in cyclic order, unlinks exactly the dead nodes passed over, and never visits an unlinked node. |
| `RoundRobin.ThreadList.Unlink` | kernel/src/scheduler/round_robin.rs:64-73 | The successor of the current node is unlinked and the rest stay one cycle. |
| `RoundRobin.NextRotatesLive` | kernel/src/scheduler/round_robin.rs:44-76 | None is returned if and only if no thread is live; otherwise the cyclic order of live threads is rotated and loses nobody. |
| `RoundRobin.EveryLiveThreadRuns` | kernel/src/scheduler/round_robin.rs:20-76 | Whoever else dies or arrives between the calls, a thread that stays live is returned within as many calls as the list is long and one more per arrival. |
| `RoundRobin.ArrivalsStarve` | kernel/src/scheduler/round_robin.rs:20-35 | When a new live thread arrives before every call, each call returns the newest thread, so nobody who was there before is returned as long as that goes on. |
| `RoundRobin.ReturnedIff` | kernel/src/scheduler/round_robin.rs:20-76 | While nobody dies, a thread is returned if and only if at some time there have been more calls than arrivals and threads before it. |
| `RoundRobin.TurnComes` | kernel/src/scheduler/round_robin.rs:44-76 | The threads looked at before it, and the arrivals, bound the number of calls until a thread that stays live is returned. |
| `RoundRobin.TurnsInOrder` | kernel/src/scheduler/round_robin.rs:44-76 | While nobody dies or arrives, the n-th call returns the n-th live thread in cyclic order. |
| `RoundRobin.TryNextThread` | kernel/src/scheduler/mod.rs:36-55 | The scan resumes the first thread in cyclic order whose time has come; otherwise it visits every live thread exactly once and returns the earliest wake time, which is that of some thread; it fails if and only if no thread is live. The list keeps its live threads, rotated to start after the last one returned. |
| `RoundRobin.ScanRepeatedly` | kernel/src/scheduler/mod.rs:36-55 | Over repeated scans of the real list, with threads arriving and dying in between, every thread that may run at each scan is resumed within as many scans as the list is long and one more per arrival. |
| `RoundRobin.EveryReadyThreadResumes` | kernel/src/scheduler/mod.rs:36-55 | The same for every history of scans, however wake times and live threads change. |
| `TransferRing.ControllerConsumesInOrder` | drivers/usb/src/xhci/ring.rs:46-70 | In every run that enqueues only with room, over any number of laps, the controller consumes exactly the enqueued entries in order, and can move whenever one waits. |
| `TransferRing.EnqueueSafeIffRoom` | drivers/usb/src/xhci/ring.rs:46-70 | `enqueue` does not check for space: the controller can go on after it if and only if there was room; otherwise it stalls in front of entries it has not taken. An unfollowed Link takes up one entry of room. |
| `TransferRing.FetchExact` | drivers/usb/src/xhci/ring.rs:63-66 | The controller sees its cycle bit if and only if a complete entry waits, and takes that entry. |
| `TransferRing.FollowEnabled` | drivers/usb/src/xhci/ring.rs:52-58 | The cycle bit of the Link always lets the controller wrap. |
| `TransferRing.StepKeepsInv` | drivers/usb/src/xhci/ring.rs:46-70 | Each memory access of driver and controller keeps entries, cycle bits and positions consistent. |
| `TransferRing.InitialInv` | drivers/usb/src/xhci/ring.rs:27-39 | A new ring is consistent. |
| `TransferRing.EntryIdsDistinct` | drivers/usb/src/xhci/ring.rs:67-67 | Entries that are in the ring together have different ids. |
| `TransferRing.Ring.Enqueue` | drivers/usb/src/xhci/ring.rs:46-70 | With room, and with the controller moving between the two stores, the ring stays consistent, the item is appended to what the controller will take, and the id differs from those of all entries still to be taken; the controller can go on if and only if there was room. |
| `TransferRing.DriverRoomExact` | drivers/usb/src/xhci/ring.rs:46-58 | The count that is safe wherever the controller may be: what is left of the size, less one when a positive whole number of laps was completed. |
| `TransferRing.OverfullExample` | drivers/usb/src/xhci/ring.rs:46-70 | A new ring filled to its last entry and enqueued to once more: the controller cannot fetch anything. |
| `CycleRing.OwnedIffWritten` | drivers/usb/src/xhci/ring.rs:60-66 | A reader less than a lap behind finds its cycle bit if and only if a further entry was written, and finds that entry. |
| `EventRing.Table.Dequeue` | drivers/usb/src/xhci/event.rs:49-78 | The oldest event not yet taken, across segments and laps, and None if and only if there is none. |
| `EventRing.Table.Post` | drivers/usb/src/xhci/event.rs:49-78 | A controller that does not overrun the driver appends one event. |
| `EventRing.FollowingPosition` | drivers/usb/src/xhci/event.rs:64-75 | Advancing the index and then the segment visits all entries of all segments in order and wraps exactly at the end. |
| `Carve.ApplyExact` | boot/amd64/src/main.rs:190-231 | The regions are non-empty, page-aligned, ordered and disjoint; a page is in one of them if and only if it lies in the entry and touches no reserved range. |
| `Carve.ApplyFailsIff` | boot/amd64/src/main.rs:197-205 | The subtraction goes below zero if and only if the first range ends inside the last, partial page of the entry. |
| `Carve.UnderflowExample` | boot/amd64/src/main.rs:197-205 | An entry of 0x900 bytes on which it does. |
| `Carve.TidyDisjoint` | boot/amd64/src/main.rs:190-231 | Any two regions handed out are non-empty and do not overlap. |
| `Carve.PiecesExact` | boot/amd64/src/main.rs:206-226 | For one reserved range, the pages beside it are exactly the pages of the pieces. |
| `Carve.EntryExactIff` | boot/amd64/src/main.rs:243-261 | A memory map entry that does not fail is handed out exactly, in tidy regions, unless it is a partial page at zero that no range touches: then all of page zero is handed out. |
| `Carve.EntryFailsIff` | boot/amd64/src/main.rs:243-261 | Handing out an entry fails if and only if the first range ends inside its last, partial page. |
| `Carve.PartialPageExample` | boot/amd64/src/main.rs:252-257 | An entry of 0x900 bytes at zero for which the whole page is handed out. |
| `FixedBitmap.FixedBitmap.PopRange` | kernel/src/memory/frame/fixed_bitmap.rs:30-45 | The lowest start from which no page is taken, counting pages past the end as free; exactly its pages become taken; failure changes nothing and happens if and only if no start qualifies. |
| `FixedBitmap.LowestRange` | kernel/src/memory/frame/fixed_bitmap.rs:30-45 | The result is the lowest range of free pages inside the bitmap if and only if there is such a range. |
| `FixedBitmap.NoRangeFailsIff` | kernel/src/memory/frame/fixed_bitmap.rs:36-42 | When there is no such range, the call fails if and only if the last page is taken. |
| `FixedBitmap.SpillExample` | kernel/src/memory/frame/fixed_bitmap.rs:36-42 | With only page 4095 free, two pages are handed out from there. |
| `FixedBitmap.PopMany` | kernel/src/memory/frame/fixed_bitmap.rs:30-45 | One answer per request, each as `pop_range` on the bitmap its predecessors left. |
| `FixedBitmap.HandedOutOnce` | kernel/src/memory/frame/fixed_bitmap.rs:30-45 | Over any sequence of requests, what is handed out was free at the start and no page is handed out twice. |
| `FixedBitmap.Ones` | kernel/src/memory/frame/fixed_bitmap.rs:55-67 | The lowest n bits of the bitmap, across words. |
| `FixedBitmap.And` | kernel/src/memory/frame/fixed_bitmap.rs:70-85 | Bitwise and, across words. |
| `FixedBitmap.Not` | kernel/src/memory/frame/fixed_bitmap.rs:115-122 | Bitwise complement, across words. |
| `FixedBitmap.ShlOne` | kernel/src/memory/frame/fixed_bitmap.rs:87-99 | Every bit moves up by one across words, in place, and the top bit is lost. |
| `FixedBitmap.Masked` | kernel/src/memory/frame/fixed_bitmap.rs:36-36 | Comparing the masked bitmap with the mask tests that all pages under the mask are free. |
| `ProcessArgs.RoundTrip` | lib/rust/rt/src/process.rs:144-162 | Whenever the block stands for some objects and arguments, the child reads exactly those, in order, with an empty environment. |
| `ProcessArgs.Builder.constructor` | lib/rust/rt/src/process.rs:46-57 | A new builder passes nothing. |
| `ProcessArgs.Builder.AddObject` | lib/rust/rt/src/process.rs:79-88 | One more object is written, or none; a name that is too long is noticed after the object was counted. |
| `ProcessArgs.Builder.AddArgs` | lib/rust/rt/src/process.rs:121-142 | All arguments are written and counted or the call is refused; then those before the first one that is too long are written and not counted. |
| `ProcessArgs.ChildGetsIff` | lib/rust/rt/src/process.rs:79-162 | After any calls, refused ones included, the child gets the objects and arguments that were accepted if and only if no name was too long and no refused list left a non-empty argument right behind, or among, the accepted ones. |
| `ProcessArgs.RefusedArgs` | lib/rust/rt/src/process.rs:121-142 | After one refused list the child still gets what was accepted if and only if the list was too long, or began with an argument that is too long or empty. |
| `ProcessArgs.RefusedName` | lib/rust/rt/src/process.rs:79-88 | After one refused object the child still gets what was accepted if and only if the name was not the reason. |
| `ProcessArgs.ForgedObject` | lib/rust/rt/src/process.rs:144-162 | After a name that was too long the child finds one object more, whose name and handle are bytes of the arguments, if there are enough of them. |
| `ProcessArgs.ForgedObjectExample` | lib/rust/rt/src/process.rs:79-88 | Five zero bytes as the only argument and a name of 65536 bytes: the block is the well-formed block that passes an object nobody added. |
| `ProcessArgs.BlockUnique` | lib/rust/rt/src/process.rs:144-162 | No bytes are the block of two different lists of objects and arguments. |
| `ProcessArgs.BlockExample` | lib/rust/rt/src/process.rs:144-162 | A block byte by byte. |
| `ProcessArgs.LongArgumentExample` | lib/rust/rt/src/process.rs:132-136 | A good argument and one that is too long: the child reads as many environment variables as the good argument has bytes. |
| `ProcessArgs.UncountedBecomesEnv` | lib/rust/rt/src/args.rs:127-139 | After that failure the child takes the length of the first uncounted argument for the number of its environment variables. |
| `ProcessArgs.Builder.Spawn` | lib/rust/rt/src/process.rs:144-162 | The bytes of the block, for every builder: both counts, the objects written and the arguments written, counted or not, and an empty environment. |
| `ProcessArgs.ArgsInjective` | lib/rust/rt/src/process.rs:132-136 | Different argument lists never have the same bytes. |
| `ProcessArgs.ObjectsInjective` | lib/rust/rt/src/process.rs:84-86 | Different object lists never have the same bytes. |
| `ProcessArgs.Init` | lib/rust/rt/src/args.rs:180-210 | The arguments are found behind the objects, and each well-known name gets the handle passed last under it. |
| `ProcessArgs.LookupIsLast` | lib/rust/rt/src/args.rs:190-204 | The handle found for a name is that of the last object passed under it, and there is none if and only if no object has that name. |
| `ProcessArgs.Handles.Next` | lib/rust/rt/src/args.rs:229-237 | The objects in the order passed, then nothing. |
| `ProcessArgs.Args.Next` | lib/rust/rt/src/args.rs:92-101 | The first argument left, or nothing if and only if none is left. |
| `ProcessArgs.Args.NextBack` | lib/rust/rt/src/args.rs:68-75 | The last argument left, without moving the front. |
| `ProcessArgs.Args.Last` | lib/rust/rt/src/args.rs:127-133 | The last argument; the iterator then points just behind the arguments. |
| `ProcessArgs.TakeBothEnds` | lib/rust/rt/src/args.rs:65-101 | Any mixture of reads from both ends takes each argument once, from the end that was asked, and leaves the middle. |
| `ProcessArgs.EnvCount` | lib/rust/rt/src/args.rs:128-139 | The count of environment variables is read just behind the arguments. |

## Left out

What the model takes as a parameter or does not capture:

- Memory order: interleavings are of whole loads and stores in program order; relaxed loads that could be reordered are not modelled.
- Rings: `index & mask` is modelled as the remainder by the power-of-two capacity, and the plain `w + 1` as wrapping, which is what a build without overflow checks does.
- I/O objects: what a ticket or an object answers is a parameter; reading, writing and seeking themselves and `copy_data_to` are not modelled.
- `SET_META` and `DESTROY` requests, which are `todo!()` in the kernel, and the destructor of the user queue, which blocks on the kernel.
- IoQueue.Session.Submit: the limit of 255 bytes on tiny buffers is not modelled, because buffers are opaque there.
- `erase_handle`: the assertion that an index fits 24 bits is not modelled.
- Polling a future again after it was ready, which its contract forbids.
- Arena: the end marker of the free list is an option, not the largest index, so an arena with that many entries is not modelled; draining is not modelled beyond `Clear`.
- Window manager: one workspace, as in the code; ratios and rectangles enter through a midpoint that lies in the range it cuts; focus, titles, events and framebuffers are not modelled.
- Virtqueue: DMA and PCI set-up, notification, and the length a device reports; the table and rings are sequences held in fields; lengths are not bounded to 32 bits.
- Scheduler: timers, resuming a thread and locking; which threads are live is a parameter of each call of `next`, fixed during one scan.
- xHCI: the payload of an entry is opaque, registers and doorbells are not modelled; `add_segment` and `install` are not modelled; an event ring is never overrun by its controller.
- Carve.ApplyExact: 64-bit overflow of addresses near the top of the address space is not modelled, because physical addresses are far below it.
- Boot loader: parsing of the memory map, and the later use of the regions (`take_page_range`).
- FixedBitmap.ShlOne: only the shift by one that `pop_range` uses; the general shift, the unused `shr` and `add_region` are not modelled.
- ProcessArgs.Builder.AddObject: opening the share table and sharing a handle are a parameter; `env` is always empty because no method adds to it.
- ProcessArgs.Init: reads past the end of the block are excluded by requiring that the block is in memory.
- The rest of the system: address spaces and page tables of the kernel, its ELF loader and interrupt handling, the pipe, stream-table and shared-memory objects, the disk and network drivers and servers, and the shell and other applications.
