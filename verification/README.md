# Verified model of libohnet

libohnet is a C event-loop library with its own containers. This project models its mutable core and proves what
the code is for. Where the code changes things in place, the model does: tree nodes, heap arrays, chains of buffer
units, the ring of a thread pool and the text of a parser are heap objects, and each operation is proved against a
function of the old state. The laws are then lemmas about those functions, or invariants over whole runs.

- **Red-black tree** (`Elements`, `SortedSpec`, `RbShape`, `RbHeap`, `RbFixup`, `RbSearch`, `RbTree`, `RbCheck`):
  parent-pointer nodes with null leaves. A zipper describes the tree around the node in hand, and a snapshot of the
  links says that the heap holds it. The order is a parameter.
- **Event loop** (`Evt`, `TimerHeap`, `PendingQueue`, `Timers`, `IoSync`, `EventLoop`): the 1-based timer heap with
  back-indices, the pending queues with positions and holes, expiry, the lazy synchronisation with epoll, and whole
  rounds of the loop. Callbacks are arbitrary scripts of starts and stops of watchers, timers and hooks. The kernel is
  a map of registrations that may report anything registered.
- **Buffers and TCP** (`ObjPool`, `ByteBuffer`, `Tcp`, `Serving`): chains of pooled units refine byte queues; the send
  and close state machine of a connection sits on top of the same buffers, and a server runs any number of them on one
  pool. System calls are schedules chosen by an adversary.
- **Concurrency** (`ThreadPool`, `Async`): the job ring with its condition variable, and the handoff of events to a
  running loop, as interleavings of locked steps.
- **Allocator, heap and parsers** (`Allocator`, `SpareHeap`, `XmlParser`, `TypeParser`): size classes with per-block
  counts, the heap with a spare slot, and two parsers with their printers.

What the code does differently from what one might expect is stated as lemmas of its own: `RbCheck.PassesUnsorted`
(the tree's self-check accepts an unsorted tree), `TcpClient.LostAtClose` (bytes sent by a close callback),
`Async.StopTooLate` (a late stop does not prevent a call), `Async.LostByRestart` (a restart that loses another event),
`Allocator.LeakNum` (the leak count skips the largest class), `XmlParser.SpaceBeforeBracket`, `TypeParser.RoundTrip`
and `TypeParser.SecondName` (names of several words), `TimerHeap.Sort` (positions lost by sorting), the stale
registration in `IoTable.PollUpdate`, and the dangling pointers after `ByteBuffer.Destroy`. Where there is a condition
under which the code does what one expects, it is proved exact.

`dafny verify dfyconfig.toml` checks the whole project.

## Model

| member | source | states |
|---|---|---|
| RbTree.RbTree.RunOps | src/ohstl/rbtree.c:82-211 | Over every run of insert, erase and clear the tree stays a valid red-black tree that passes its own self-check, its contents are those of the abstract run, and looking up any value gives what the last operation on its class says. |
| SortedSpec.RunAgreesWithMap | src/ohstl/rbtree.c:82-211 | The abstract run stays sorted, and lookup in it agrees with the independent reading of the run as a map (`LastWrite`), for every strict weak order. |
| SortedSpec.LookupInserted | src/ohstl/rbtree.c:105-140 | An insertion is seen under the class of the inserted value and changes no other class. |
| SortedSpec.LookupErased | src/ohstl/rbtree.c:201-211 | An erasure is seen under its own class and nowhere else. |
| SortedSpec.InsertedSorted | src/ohstl/rbtree.c:105-140 | Adding or overwriting keeps the contents strictly sorted. |
| SortedSpec.PresentIff | src/ohstl/rbtree.c:82-103 | A value is found exactly when an equivalent element is stored. |
| RbTree.RbTree.FindVal | src/ohstl/rbtree.c:82-103 | Returns the node that holds an equivalent element, or null and the node a new one would hang from; the nodes visited number at most 2*log2(size + 1). |
| RbSearch.PathIsShort | src/ohstl/rbtree.c:82-103 | Depth bound of a valid tree: 2^d <= (n + 1)^2 for a path of d nodes among n. |
| RbTree.RbTree.InsertVal | src/ohstl/rbtree.c:105-140 | Adds exactly the value, or overwrites the equivalent element without changing `size`, and leaves a valid tree. |
| RbTree.RbTree.Attach | src/ohstl/rbtree.c:117-131 | The new red node hangs on the side its value belongs to, and only that link changes. |
| RbTree.RbTree.InsertNodeFixup | src/ohstl/rbtree.c:142-199 | From a tree whose only fault is a red node under a red parent, terminates in a valid tree with the same in-order nodes and elements. |
| RbTree.RbTree.InsertStepLeft | src/ohstl/rbtree.c:153-172 | One round under a left parent: recolours and moves up two levels, or rotates; the fault stays the only one. |
| RbTree.RbTree.InsertStepRight | src/ohstl/rbtree.c:173-193 | The mirror image. |
| RbFixup.RedHasGrandparent | src/ohstl/rbtree.c:148-151 | A red parent has a black parent of its own, so the fixup never meets a missing grandparent. |
| RbFixup.BlackenStep | src/ohstl/rbtree.c:156-161 | Blackening parent and uncle and reddening the grandparent keeps black heights and moves the fault up. |
| RbFixup.InnerStep | src/ohstl/rbtree.c:163-167 | Rotating an inner grandchild over its parent turns the case into the outer one with the same contents. |
| RbFixup.OuterStep | src/ohstl/rbtree.c:168-171 | Recolouring and rotating the grandparent repairs an outer grandchild. |
| RbTree.RbTree.EraseVal | src/ohstl/rbtree.c:201-211 | Removes exactly the element equivalent to the value, if there is one. |
| RbTree.RbTree.EraseNode | src/ohstl/rbtree.c:213-259 | For a node at any position: the tree stays valid, the in-order sequence loses exactly that element, and `size` drops by one. |
| RbTree.RbTree.Unlink | src/ohstl/rbtree.c:227-240 | Splices out a node with at most one child; every other child and parent link still agrees. |
| RbSearch.DelContents | src/ohstl/rbtree.c:213-259 | Erasing the element at position i unlinks the node at position i, or i + 1 when the successor's element is copied. |
| RbSearch.DelRedBlack | src/ohstl/rbtree.c:247-250 | Unlinking a red node leaves a valid tree; unlinking a black one leaves its place exactly one black node short. |
| RbTree.RbTree.EraseNodeFixup | src/ohstl/rbtree.c:261-342 | With `node` possibly null and `parent` given, terminates in a valid tree with the same contents. |
| RbTree.RbTree.EraseStepLeft | src/ohstl/rbtree.c:269-302 | One round on the left side: the shortage moves up or is repaired. |
| RbTree.RbTree.EraseStepRight | src/ohstl/rbtree.c:303-337 | The mirror image. |
| RbFixup.SiblingExists | src/ohstl/rbtree.c:268-313 | The sibling of a place that is one black node short is never null, even when the place itself is; a red sibling has two black children. |
| RbFixup.RedSiblingStep | src/ohstl/rbtree.c:272-279 | Rotating a red sibling over the parent gives a black sibling and keeps the shortage where it is. |
| RbFixup.ShiftStep | src/ohstl/rbtree.c:280-287 | Reddening a black sibling without red children moves the shortage to the parent. |
| RbFixup.NearStep | src/ohstl/rbtree.c:288-295 | Rotating a red near nephew up makes the far nephew red. |
| RbFixup.FarStep | src/ohstl/rbtree.c:296-302 | Rotating the sibling over the parent repairs the shortage. |
| RbTree.RbTree.LeftRotate | src/ohstl/rbtree.c:344-369 | The three links change so that the heap holds the rotated tree, also when the root changes. |
| RbTree.RbTree.RightRotate | src/ohstl/rbtree.c:371-396 | The mirror image. |
| RbHeap.LeftRotationHolds | src/ohstl/rbtree.c:344-369 | After the pointer writes of a left rotation child and parent links agree everywhere, inside and around the rotated part. |
| RbHeap.UnlinkHolds | src/ohstl/rbtree.c:227-240 | After the pointer writes of a splice the remaining nodes form the tree without the node. |
| RbHeap.AttachHolds | src/ohstl/rbtree.c:117-131 | After the pointer writes of an insertion the nodes form the tree with the new leaf. |
| RbTree.RbTree.TreeMinimum | src/ohstl/rbtree.c:422-427 | Returns the first node of the subtree in order. |
| RbTree.RbTree.TreeSuccessor | src/ohstl/rbtree.c:410-420 | Returns the next node in order, and null, which stands for the guard, after the last. |
| RbTree.RbTree.TreePredecessor | src/ohstl/rbtree.c:398-408 | Returns the previous node in order; in front of the first there is none. |
| RbTree.RbTree.TreeMaximum | src/ohstl/rbtree.c:429-434 | Returns the last node of the subtree in order. |
| RbTree.RbTree.BeginNode | src/ohstl/rbtree.c:519-521 | Returns the first node in order. |
| RbTree.RbTree.Iterate | src/ohstl/rbtree.c:519-536 | Successor iteration from the first node visits every node exactly once, in strictly increasing order, and then stops. |
| RbTree.RbTree.IsValid | src/ohstl/rbtree.c:474-516 | The self-check returns true exactly for black root, no red node with a red child, equal black heights, and every node in order with its own children. |
| RbTree.RbTree.IsValidDfs | src/ohstl/rbtree.c:486-516 | The recursive part computes that test for a subtree, given the black nodes above it. |
| RbTree.SortedIsLocal | src/ohstl/rbtree.c:486-499 | A valid tree always passes the self-check, so it holds after every operation. |
| RbCheck.CheckDecidesOrder | src/ohstl/rbtree.c:486-499 | A tree is sorted exactly when the self-check's comparisons with the children hold and every node is also in order with what hangs on the inner sides of its children, at which the self-check does not look. |
| RbCheck.PassesUnsorted | src/ohstl/rbtree.c:474-516 | Four nodes linked up as a tree that is not sorted, for which the self-check returns true. |
| TimerHeap.Push | include/ohutil/container.h:128-131 | Adds exactly the timer; heap order holds and every entry records its own slot. |
| TimerHeap.Delete | include/ohutil/container.h:116-126 | At any slot: exactly that timer leaves, its position becomes 0, and order and positions of the others hold. |
| TimerHeap.FixUp | include/ohutil/container.h:69-79 | Repairs a slot that may be earlier than its parent, keeping the entries and their positions. |
| TimerHeap.FixDown | include/ohutil/container.h:81-96 | Repairs a slot that may be later than its children, keeping the entries and their positions. |
| TimerHeap.SwapUp | include/ohutil/container.h:72-76 | One move up leaves the moved slot as the only one that may be out of order. |
| TimerHeap.SwapDown | include/ohutil/container.h:84-93 | One move down past the earlier child leaves the moved slot as the only one that may be out of order. |
| TimerHeap.FillOrder | include/ohutil/container.h:117-125 | The last entry in a vacated slot is out of order in one direction only, the one the code tests for. |
| TimerHeap.RootIsEarliest | include/ohutil/container.h:65-134 | Slot 1 is no later than any other. |
| TimerHeap.Sort | include/ohutil/container.h:105-113 | Taking out the first entry again and again orders the entries latest first, and leaves every one of them recording slot 1: the recorded positions are right exactly with fewer than two entries. |
| Timers.TimerSet.Start | src/ohev/evt.c:323-343 | At any point of a pass: the relative timestamp becomes absolute and the timer joins the heap; an active timer is left alone. |
| Timers.TimerSet.Stop | src/ohev/evt.c:345-365 | At any point of a pass: removes precisely its own timer from the heap and its own slot from the pending queues. |
| Timers.TimerSet.Reserve | include/ohutil/container.h:46-54 | Doubling the array keeps the heap and gives enough slots. |
| Timers.TimerSet.PollTime | src/ohev/evt.c:205-214 | The wait exceeds no timer's remaining time, and equals the least of them or the default. |
| Timers.TimerSet.Expire | src/ohev/evt.c:226-243 | Terminates; afterwards every running timer is due strictly later than now, each due timer is queued, repeating ones run on with deadline `NextDue` and the priority they had, one-shot ones left the heap, and the rest is as before. |
| Timers.TimerSet.ExpireLoop | src/ohev/evt.c:228-243 | The loop behind it, with total lateness as its measure. |
| Timers.TimerSet.ExpireFirst | src/ohev/evt.c:229-242 | One round queues the earliest timer and changes no other. |
| Timers.NextDueIsLeast | src/ohev/evt.c:238-242 | The new deadline is the old one plus the least multiple of the period that lies after now. |
| Timers.BudgetDrops | src/ohev/evt.c:228-243 | Each round lowers the sum of lateness over the timers. |
| EventLoop.Loop.Run | src/ohev/evt.c:178-253 | Over any number of rounds, with callbacks that start and stop watchers, timers and hooks in the middle of a pass, the timer heap, the descriptor table, the hook lists and the pending queues keep agreeing. For every round `TripOk` says, from where the round before ended: the first pass is over exactly what was left queued and the hooks before the poll; what its callbacks start and stop is what has changed; when the loop polls, the mask of every descriptor is what its running watchers want and epoll has every mask that is not empty; the wait is the least remaining time of a running timer or 30 seconds, in milliseconds rounded up; the second pass is over exactly the running watchers of what `poll` reports for these registrations, the timers due by the clock after the poll and the hooks after it; and how the round ends. Within a priority, what was left over, the reports, the timers and the hooks come in that order. Nothing stays queued unless the loop quits between a poll and the pass after it. |
| EventLoop.Loop.Prepare | src/ohev/evt.c:191-197 | The hooks before the poll are queued behind what is queued, each once; the events are executed in the order of their priorities, each unless stopped earlier in the pass, and the events and hook lists are afterwards as the callbacks have left them. |
| EventLoop.Loop.Settle | src/ohev/evt.c:199-214 | Before the poll the mask of every descriptor is what its running watchers want, epoll has every mask that is not empty, and no other registration has changed; by a clock read anew the wait exceeds no timer's remaining time, and is the least of them or 30 seconds. |
| EventLoop.Loop.Serve | src/ohev/evt.c:216-250 | Exactly the running watchers of what was reported, the timers that are due and the hooks after the poll are queued behind what was queued before, within a priority in this order, and executed in the order of their priorities. Timers that are due fire once or go on, and stale registrations that report are deleted. |
| EventLoop.Loop.QueueDue | src/ohev/evt.c:226-243 | The timers that are due join what is queued, behind it; those that repeat go on with their next deadline, the others leave the heap, and nothing else about any event changes. |
| PendingQueue.Pending.QueuedFirst | src/ohev/evt.c:512-547 | What was queued at an earlier time is executed before the rest of its priority. |
| EventLoop.Loop.Execute | src/ohev/evt.c:532-547 | The pass calls exactly `Calls` of the queues in priority order, whatever the callbacks start and stop, empties the queues and clears every position; the events are as the calls have left them (`AfterCalls`). |
| EventLoop.Loop.ExecuteSlot | src/ohev/evt.c:538-543 | The position is cleared before the callback runs, a hole calls nothing, and everything agrees again behind the slot. |
| EventLoop.Loop.Perform | src/ohev/evt.c:270-431 | Any callback leaves all structures agreeing, makes holes of exactly the slots of the events it stopped, and changes events, deadlines, priorities and hook lists as its starts and stops say (`ActedAll`); masks and registrations wait for the next update. |
| EventLoop.Loop.QueueIs | src/ohev/evt.c:512-530 | The queues hold exactly the events that have a position, each once. |
| PendingQueue.CalledIff | src/ohev/evt.c:532-547 | A queued event is called exactly once, in slot order, unless an earlier callback of the pass stopped it, in which case never. |
| PendingQueue.CallsSplit | src/ohev/evt.c:532-547 | Executing queue after queue is executing their concatenation. |
| PendingQueue.Pending.Append | src/ohev/evt.c:512-530 | An event is queued at most once; its position is the slot it got. |
| PendingQueue.Pending.StopEvent | src/ohev/evt.c:298-321 | A stopped event leaves a hole in its slot and has no position; every other slot and position is as before. |
| PendingQueue.Pending.StartEvent | src/ohev/evt.c:270-296 | Starting clamps the priority and queues nothing. |
| PendingQueue.Pending.QueuedOnce | src/ohev/evt.c:512-530 | Positions being inverse to slots, no event is queued twice. |
| PendingQueue.Pending.QueuedInOrder | src/ohev/evt.c:512-547 | The queues one after the other hold the events in the order of their priorities. |
| IoSync.IoTable.Run | src/ohev/evt.c:270-321 | Over any run of starts, stops, updates and polls the watchers are those started and not stopped since, the mask recorded for a descriptor is what its watchers wanted at the last update, a nonzero one is exactly the epoll registration, and an unflagged descriptor's mask is the OR of its watchers. Registrations and queued watchers are what the steps say (`AfterAll`), a poll included. |
| IoSync.IoTable.UpdateFdChanges | src/ohev/evt.c:568-590 | Afterwards no descriptor is flagged, each recorded mask is the OR of the queued watchers, every mask that is not empty is registered, and no other registration has changed. |
| IoSync.IoTable.FdChange | src/ohev/evt.c:549-566 | A descriptor enters the change list once, however often it changes. |
| IoSync.IoTable.IoStart | src/ohev/evt.c:270-296 | At any point of a pass: the watcher joins the list of its descriptor, which is flagged; nothing is registered yet. |
| IoSync.IoTable.IoStop | src/ohev/evt.c:298-321 | At any point of a pass: the watcher leaves its list and the pending queue; nothing is unregistered yet. |
| IoSync.IoTable.PollUpdate | src/ohev/bkepoll.c:66-99 | A nonzero mask ends up registered whether or not a registration existed; for mask 0 nothing happens and a stale registration stays. |
| IoSync.IoTable.Dispatch | src/ohev/bkepoll.c:101-166 | A watcher becomes queued exactly when a report of its descriptor says readable or broken and it waits to read, or writable or broken and it waits to write. A registration that nobody wants is deleted exactly when anything is reported of it, and no other registration changes. |
| IoSync.IoTable.Repair | src/ohev/bkepoll.c:127-146 | A report of something unwanted leaves the wanted registration or none, and no other registration changes. |
| IoSync.UnlinkedElements | include/ohutil/container.h:27-32 | Unlinking removes exactly the event. |
| IoSync.Wanted | src/ohev/evt.c:579-582 | The combined mask holds an interest exactly when some watcher has it. |
| IoSync.WaitIsRoundedUp | src/ohev/bkepoll.c:105-116 | A positive wait handed to epoll is longer than asked, by at most one millisecond; no wait stays no wait, and a negative one is no limit. |
| ObjPool.Pool.Get | src/ohutil/objpool.c:31-63 | Hands out a unit that no chain owns; free list, chains and the unit still partition the units of all blocks, and a block is added only when no unit is free. |
| ObjPool.Pool.BuildBlock | src/ohutil/objpool.c:49-54 | Threading a new block puts exactly its units on the free list. |
| ObjPool.Pool.Free | src/ohutil/objpool.c:65-67 | The unit joins the free list; no chain is affected although both use the same link. |
| ObjPool.Pool.LinkUnit | src/ohev/buffer.c:145-162 | A unit taken from the pool becomes the tail of one chain; every other chain and the free list are unaffected. |
| ObjPool.Pool.UnlinkHead | src/ohev/buffer.c:112-119 | The head leaves one chain, whose count stays its length. |
| ByteBuffer.Write | src/ohev/buffer.c:145-162 | Appends all of the source to the byte queue; other buffers of the pool keep their bytes. |
| ByteBuffer.WriteUnit | src/ohev/buffer.c:60-66 | Copies as much as the unit has room for, behind its bytes. |
| ByteBuffer.AppendUnit | src/ohev/buffer.c:68-84 | A cleared unit joins the chain without changing its bytes. |
| ByteBuffer.Read | src/ohev/buffer.c:96-125 | Removes and returns the longest prefix that both sizes allow. |
| ByteBuffer.Advance | src/ohev/buffer.c:107-121 | Dropping bytes of the first unit returns an emptied unit to the pool unless it is the last one. |
| ByteBuffer.RemoveUnit | src/ohev/buffer.c:86-94 | A unit outside all chains goes to the free list with its link cleared. |
| ByteBuffer.Peek | src/ohev/buffer.c:127-137 | Returns that same prefix and changes nothing. |
| ByteBuffer.FdWrite | src/ohev/buffer.c:207-240 | Under any schedule of short writes, writes that take nothing, and errors the kernel gets exactly the removed prefix. Each call takes as much as the kernel is willing to take of the bytes that lie in the first unit then (`amounts`), and their sum is what is written; success means the queue is empty, failure that bytes are left, and the error is hard exactly when the first refused call failed for good. |
| ByteBuffer.HandedOnce | src/ohev/buffer.c:207-240 | What the calls take, one by one, is determined by what the kernel is willing to take and by how the bytes lie in the units. |
| ByteBuffer.FdRead | src/ohev/buffer.c:164-205 | What the kernel delivers is appended in order, and what is not taken is there for the next call. A read takes all that fits into the last unit, so reading stops behind the first piece that does not end just where a unit does, and otherwise only at the end of what has arrived; it then reports how the arrived bytes end: with the end of the stream, a hard error, or nothing more for now. |
| ByteBuffer.ReadsOnce | src/ohev/buffer.c:164-205 | Where reading stops is determined by what has arrived and by the room in the last unit. |
| ByteBuffer.StreamTaken | src/ohev/buffer.c:187-200 | What one read call leaves of the arrived bytes is what the next one finds. |
| ByteBuffer.UsedBytes | src/ohev/buffer.c:242-252 | The constant-time formula is the true length in every state of the chain invariant, including an empty last unit. |
| ByteBuffer.LengthFormula | src/ohev/buffer.c:242-252 | Why: only the first unit may have been read from and only the last may have room. |
| ByteBuffer.Destroy | src/ohev/buffer.c:29-39 | All units of the chain, and nothing else, go back to the free list; head and tail pointers stay behind, null exactly if the chain was empty, so the buffer may not be used again. |
| ByteBuffer.NewBuffer | src/ohev/buffer.c:20-27 | A new buffer is empty and shares the pool with the others. |
| Serving.Serve | src/ohev/tcpsrv.c:350-582 | For any interleaving of arrivals and of events of any number of clients on one pool: every client has come from how it began, as found or with its accept callback, to where its own events and no others have brought it (`Reaches`, which leaves one outcome), with the bytes these have sent. Every client keeps its own accounting and is closed at most once, a closed one hears nothing more, and `conn_cnt` is the number of clients accepted less that of clients closed. |
| Serving.Happen | src/ohev/tcpsrv.c:455-582 | An event of one client does to it what `Step` says, and leaves all others as they are. |
| Tcp.TcpClient.Run | src/ohev/tcpsrv.c:455-582 | Over any run of readiness events and user calls the connection goes where `Reaches` says, a step for each event: every send succeeds whole or, on a broken connection, not at all, and the bytes of the sends that succeed, in order, are exactly the bytes taken by the kernel followed by what is waiting, or after a close by what was dropped. What each event reads or writes is exactly what the kernel gives or takes. It closes at most once, and calls its close callback exactly then. The last event delivered is the one that closes: the user, a hard read or write error, or the drained end of the stream, never a read error once the connection waits to close. In the last case bytes are dropped exactly if the close callback sends something the kernel does not take at once. Eager user code never leaves unsent bytes unwatched, and an open connection whose buffer a writable event leaves empty is not watched for writing. |
| Tcp.ReachesOnce | src/ohev/tcpsrv.c:455-582 | A run of events has one outcome: what the kernel answers and the user code does determine every byte, flag and callback. |
| Tcp.TcpClient.LostAtClose | src/ohev/tcpsrv.c:557-582 | At the end of the stream with nothing unsent, what the close callback sends and the kernel does not take is lost, with no error anywhere. |
| Tcp.WaitingEmpty | src/ohev/tcpsrv.c:584-619 | User code takes nothing back from the write buffer, and leaves it empty exactly when it was empty and the kernel takes at once every byte that is sent. |
| Tcp.SilentIff | src/ohev/tcpsrv.c:584-619 | Whatever the kernel answers, user code leaves nothing in an empty write buffer exactly if neither it nor a callback in it sends a byte. For a close callback this is when nothing can be lost. |
| Tcp.RanEffect | src/ohev/tcpsrv.c:584-632 | User code run act by act adds to the bytes sent those of each send that succeeds, in order, leaves in the buffer what `Waiting` says, takes back no callback and no watching, and changes nothing else. |
| Tcp.TcpClient.SendNow | src/ohev/tcpsrv.c:584-608 | Fails exactly when the buffer is empty and the direct write fails for good; otherwise all bytes are sent. Behind waiting bytes, or when the write would block, all is buffered; otherwise the kernel takes what it can at once and the rest is buffered and watched for. The write callback follows when all went at once, and what it sends comes behind. |
| Tcp.TcpClient.SendDelay | src/ohev/tcpsrv.c:610-619 | Appends to the write buffer; the write watcher starts exactly when the mark is not negative and the buffer exceeds it. |
| Tcp.TcpClient.Perform | src/ohev/tcpsrv.c:584-632 | Any sequence of user calls, with nested callbacks, sends exactly the bytes of its successful sends in order (`SentBy`), keeps the byte accounting and leaves in the buffer what `Waiting` says. |
| Tcp.TcpClient.ReadReady | src/ohev/tcpsrv.c:455-490 | All that arrived before an end or error is buffered first, as much as one read of the buffer takes. At the end of the stream the connection closes exactly with nothing unsent after the read callback, and otherwise stops reading and waits, watched for writing; a failing read closes it exactly when the error is hard, and reading goes on otherwise. The connection goes where `Step` says. |
| Tcp.TcpClient.EndOfStream | src/ohev/tcpsrv.c:467-480 | It closes at once exactly when nothing is unsent; otherwise reading stops, writing is watched, and the buffer is untouched. |
| Tcp.TcpClient.WriteReady | src/ohev/tcpsrv.c:492-555 | A close happens only after a hard write error, or once the buffer is drained and the connection was waiting for that; a drained buffer or a finished connect calls the user back. A connection that stays open is watched for writing afterwards exactly if bytes are left, and is read as before. The connection goes where `Step` says. |
| Tcp.TcpClient.Drain | src/ohev/tcpsrv.c:532-535 | The kernel gets a prefix of the buffer, as long as the sum of what its calls take, each as much as it may; success means everything sent has been accepted. |
| Tcp.TcpClient.SetConnected | src/ohev/tcpsrv.c:507-524 | After connecting, reading starts, and writing stays watched exactly when there are bytes to send. |
| Tcp.TcpClient.StopOrClose | src/ohev/tcpsrv.c:547-553 | The write watcher stays on exactly if bytes are left; with the buffer empty a waiting connection closes. |
| Tcp.TcpClient.Close | src/ohev/tcpsrv.c:557-582 | The close callback runs first, what it leaves in the write buffer is what is dropped, both watchers are off, both buffers are returned, other buffers keep their bytes, and the server's count drops by this client. |
| Tcp.TcpClient.Connect | src/ohev/tcpsrv.c:331-348 | Refused while connecting or connected; otherwise the write watcher waits for the outcome. |
| Tcp.Accept | src/ohev/tcpsrv.c:350-446 | An accepted client is read and counted, its read buffer is empty, it has sent what the accept callback sent and its write buffer holds what that left there; `conn_cnt` is the number of accepted less that of closed clients. |
| ThreadPool.Pool.Run | src/ohutil/thread.c:229-295 | Every interleaving of producers, signals, spurious wakeups and workers keeps ring, accounting and wakeup invariant, and does exactly what the schedule does to a bounded first-in first-out queue without a ring (`AfterAll`). |
| ThreadPool.Pool.Perform | src/ohutil/thread.c:229-295 | What each step does where it is possible: a push accepts a job unless the ring is full, a signal or a spurious wakeup wakes the worker, a worker with the lock waits or takes the next accepted job, and a taken job is run once and then cleaned once. |
| ThreadPool.Pool.Enqueue | src/ohutil/thread.c:279-293 | Appends at the write index, or returns -1 exactly when the ring is full; wind = (rind + used) mod size. |
| ThreadPool.Pool.Dequeue | src/ohutil/thread.c:246-250 | Removes the oldest job. |
| ThreadPool.Pool.PushJob | src/ohutil/thread.c:277-295 | A successful push accepts the job and leaves one signal to come. |
| ThreadPool.Pool.EnterLock | src/ohutil/thread.c:237-251 | Holding the lock a worker takes the next job in accepted order, or waits when there is none. |
| ThreadPool.Pool.SignalOne | src/ohutil/thread.c:169-176 | A signal wakes one waiting worker, and is lost only if none waits. |
| ThreadPool.Pool.Proceed | src/ohutil/thread.c:253-260 | A taken job is run and then cleaned. |
| ThreadPool.Pool.NoLostWakeup | src/ohutil/thread.c:239-241 | If every worker waits beside a queued job, a signal is still undelivered. |
| ThreadPool.Pool.Quiescent | src/ohutil/thread.c:229-295 | When nothing more happens by itself, every accepted job has been run and cleaned exactly once. |
| ThreadPool.Pool.NotStuck | src/ohutil/thread.c:229-295 | Unless every accepted job has been run and cleaned, some thread can get on by itself. |
| ThreadPool.ComesToRest | src/ohutil/thread.c:229-295 | Without further pushes and unasked wakeups the threads come to an end, in any order: the steps they can take are bounded by the work left. |
| ThreadPool.Pool.NoneLostOrDoubled | src/ohutil/thread.c:229-295 | Taken jobs and queue together are the accepted jobs, in order; each is queued, in a worker's hands, or done. |
| Async.Loop.Run | src/ohev/evt.c:433-509 | Every interleaving of starters, stops, the loop, quitting and destroy keeps the invariant and does exactly what the schedule does to a list and a batch without links (`AfterAll`), up to a start that leads the walk of the loop astray, if there is one. |
| Async.Loop.Perform | src/ohev/evt.c:433-509 | What each step does where it is possible: a start lists the event in front, a wakeup counts up, a read resets the counter, a swap takes the whole list, a call is of the first event taken, and a clean of the event called. |
| Async.Loop.StartAsync | src/ohev/evt.c:477-492 | The event goes to the head of the list, with a wakeup still to come; an active event is refused. The walk over a taken list goes on as it was exactly if the event is not still to be called or what is to be called after it is just what is listed; otherwise it continues from the event into the new list. |
| Async.Loop.Strays | src/ohev/evt.c:462-492 | Whether it goes astray can be told from the links alone. |
| Async.LostByRestart | src/ohev/evt.c:462-492 | An event stopped too late and started again while another one is to be called after it: the walk now ends with the event, which also stays listed, and the other one is on neither list any more. |
| Async.RestartCurrent | src/ohev/evt.c:462-492 | Restarting the event that is being called is harmless, because the walk has moved on. |
| Async.Loop.StopAsync | src/ohev/evt.c:494-509 | The walk to the link that leads to the event takes it off the list exactly when it is still there. The walk of the loop loses it exactly when the event listed in front of it is one the loop has still to call. |
| Async.Loop.ReadFd | src/ohev/evt.c:444-455 | The counter is reset before the list is taken; while quitting nothing is read. |
| Async.Loop.SwapList | src/ohev/evt.c:456-460 | The whole list is taken and left empty. |
| Async.Loop.CallNext | src/ohev/evt.c:462-471 | The walk moves past an event before it is called. |
| Async.Loop.DestroyLoop | src/ohev/evt.c:153-162 | What is still listed is cleaned without being called. |
| Async.Loop.Quiescent | src/ohev/evt.c:444-475 | No wakeup is lost: with nothing pending the list is empty and every start was stopped or served. |
| Async.Loop.CalledThenCleaned | src/ohev/evt.c:462-474 | A started and never stopped event is called once and then cleaned once, or cleaned once at destroy, never both. |
| Async.StopTooLate | src/ohev/evt.c:494-509 | Stopping an event that the loop has already taken does not prevent its call. |
| SpareHeap.PushAllPopAll | src/ohstl/cheap.c:61-86 | For any strict weak order, pushing any elements and popping until empty gives them back in order. |
| SpareHeap.Heap.Push | src/ohstl/cheap.c:61-73 | Adds exactly the element and keeps heap order. |
| SpareHeap.Heap.Pop | src/ohstl/cheap.c:75-86 | Removes exactly one occurrence of the first element and keeps heap order. |
| SpareHeap.Heap.Top | src/ohstl/cheap.c:47-52 | No element precedes the first one. |
| SpareHeap.Heap.FixUp | src/ohstl/cheap.c:89-101 | With the lifted element in the spare slot, restores order and keeps the multiset. |
| SpareHeap.Heap.FixDown | src/ohstl/cheap.c:104-121 | Likewise downwards, past the child that the other does not precede. |
| SpareHeap.SwapUp | src/ohstl/cheap.c:95-99 | One move up leaves one possible fault; needs transitivity of "does not precede". |
| SpareHeap.SwapDown | src/ohstl/cheap.c:110-119 | One move down leaves one possible fault, also between equivalent elements. |
| SpareHeap.TopIsLeast | src/ohstl/cheap.c:47-52 | In heap order the first element is least. |
| SpareHeap.Heap.CopyElem | src/ohstl/cvector.c:362-371 | Copies one element within the grown storage; the elements not named are as before. |
| SpareHeap.Heap.SwapElem | src/ohstl/cvector.c:347-360 | Exchanges two elements by way of the spare slot. |
| SpareHeap.Heap.Reserve | src/ohstl/cvector.c:68-80 | Doubles the capacity until it suffices and keeps what is stored. |
| Allocator.Run | src/ohstl/callocate.c:43-98 | From an empty allocator, after any list of allocations, reallocations, frees and writes of the user the outstanding units of all classes are exactly those the user holds, none is held twice, and each is as large as was ever asked for it and has in every place what was last written there, wherever it has been moved since. |
| Allocator.Allocator.Perform | src/ohstl/callocate.c:43-98 | Any call keeps the outstanding units of all classes exactly those the user holds. A new unit has the size asked for, a resized one has its old contents in front, a freed one is no longer held, a write changes one place, and the contents of the other units stay. |
| Allocator.Agrees | src/ohstl/callocate.c:43-98 | The user's own record of sizes and writes stays right over every such call. |
| Allocator.Allocator.Alloc | src/ohstl/callocate.c:43-69 | Gives a unit of the least class that is large enough, null exactly beyond the largest class; only that class changes. |
| Allocator.ClassOf | src/ohstl/callocate.c:49-53 | The loop finds the least power of two that is not below the size nor below the smallest class. |
| Allocator.Allocator.Realloc | src/ohstl/callocate.c:71-85 | Stays in place exactly when the unit is large enough; otherwise moves to a larger class with its contents as a prefix. |
| Allocator.Allocator.Free | src/ohstl/callocate.c:87-98 | Exactly the unit stops being outstanding. |
| Allocator.SizePool.Take | src/ohstl/callocate.c:57-68 | Idle and outstanding units still partition all units, each block's `idlenum` counts its idle units, and a block is added only when no unit is idle. |
| Allocator.SizePool.GiveBack | src/ohstl/callocate.c:87-98 | The same when a unit comes back. |
| Allocator.SizePool.AppendMemblock | src/ohstl/callocate.c:124-151 | A new block's units are all idle and counted. |
| Allocator.Allocator.CreateMempools | src/ohstl/callocate.c:101-122 | One empty pool for each power of two from 4 to 2^30, 29 in all. |
| Allocator.BlockIsFull | src/ohstl/callocate.c:113-116 | A block holds as many units as fit into 102400000 bytes with all headers, but at least one. |
| Allocator.Allocator.LeakNum | src/ohstl/callocate.c:153-166 | Returns the outstanding units of all classes but the largest, so it is the full number exactly when the largest class has none outstanding. |
| Allocator.TotalIsAll | src/ohstl/callocate.c:158-164 | Adding up what each block has handed out counts every outstanding unit once. |
| XmlParser.RoundTrip | src/ohutil/xmlparser.c:521-636 | Parsing a printed tree gives the tree back, with any spaces in front of tags and around text, and with self-closing tags for nodes that hold nothing. |
| XmlParser.ClosingTagMatches | src/ohutil/xmlparser.c:595-600 | A document is accepted exactly if its closing tag names the opening one. |
| XmlParser.NodeEnclosed | src/ohutil/xmlparser.c:521-636 | What stands between an opening and a closing tag parses back, anywhere in a buffer, exactly if the names are the same. |
| XmlParser.SelfClosing | src/ohutil/xmlparser.c:542-548 | A tag whose name ends in a slash is a whole node, with the name in front of the slash and without text or children. |
| XmlParser.NodePrinted | src/ohutil/xmlparser.c:521-636 | The same wherever the printed node stands in the buffer; the position ends behind it, or on the last character. |
| XmlParser.ChildrenPrinted | src/ohutil/xmlparser.c:561-583 | Printed children parse back up to the closing tag. |
| XmlParser.TagEndSpaced | src/ohutil/xmlparser.c:345-377 | With any number of spaces between a good name and its bracket the name is given back and one character behind it is consumed, so the bracket is left unread exactly when there is a space. |
| XmlParser.TagEndPrinted | src/ohutil/xmlparser.c:345-377 | A name is given back if it has no `>` and no space in front of the bracket. |
| XmlParser.ContentPrinted | src/ohutil/xmlparser.c:458-500 | Trimmed text without `<` is given back. |
| XmlParser.ContentSpaced | src/ohutil/xmlparser.c:458-500 | Text is given back without the spaces around it, and the position is left behind the text. |
| XmlParser.Parser.ParseNodeHere | src/ohutil/xmlparser.c:521-636 | The recursive parser computes `ParseNode`; it terminates because every node that is found ends strictly further on, below the length. |
| XmlParser.ParseNode | src/ohutil/xmlparser.c:521-636 | A successful node strictly advances the position and stays below the length. |
| XmlParser.Parser.ParseTagEnd | src/ohutil/xmlparser.c:345-377 | The name is a slice inside the buffer; without a bracket there is none. |
| XmlParser.Parser.ParseTagClose | src/ohutil/xmlparser.c:418-441 | A closing tag needs bracket and slash as the next two non-space characters. |
| XmlParser.Parser.ParseContent | src/ohutil/xmlparser.c:458-500 | Text up to the next bracket, without the spaces around it. |
| XmlParser.Parser.PeekChar | src/ohutil/xmlparser.c:256-272 | The n-th non-space character, or 0. |
| XmlParser.Parser.Consume | src/ohutil/xmlparser.c:282-313 | The position never passes the last character. |
| XmlParser.StringEquals | src/ohutil/xmlparser.c:125-138 | True exactly for equal strings. |
| XmlParser.ParseDocument | src/ohutil/xmlparser.c:645-678 | An empty buffer has no document; otherwise the root is the first node. |
| XmlParser.SpaceBeforeBracket | src/ohutil/xmlparser.c:521-636 | For every name, spacing and text: with a space in front of the bracket of the opening tag the bracket becomes the first character of the text, so the text comes back exactly when there is no space. |
| TypeParser.RoundTrip | src/ohstl/ctypes.c:366-420 | However it is spaced, the text of one or two good contents parses back to them exactly if no type name in them has a space. |
| TypeParser.ThirdRefused | src/ohstl/ctypes.c:366-397 | There is room for two contents: a text of three or more parts is refused. |
| TypeParser.SecondName | src/ohstl/ctypes.c:20-50 | A second name of a builtin type is found, as the type it stands for, exactly if it is one word: of several words, like `unsigned int`, only what is left without the spaces is looked up, which is at most a type of the user's. |
| TypeParser.PlainText | src/ohstl/ctypes.c:20-50 | What a text without brackets and commas is found as: every second name as the type the table gives it, every standard name as itself, a text that ends in `*` as a pointer, and anything else as a type of the user or not at all. |
| TypeParser.PartsPrinted | src/ohstl/ctypes.c:366-397 | Printed type trees parse back to themselves, nested to any depth. |
| TypeParser.PrintSkipped | src/ohstl/ctypes.c:355-364 | A printed type contains no end of a part and closes its brackets. |
| TypeParser.FindPart | src/ohstl/ctypes.c:355-364 | Stops at the first comma outside all brackets, or at the end. |
| TypeParser.GetTypeNodeRecur | src/ohstl/ctypes.c:366-397 | Cutting the text in place computes `Parts` of it, and writes nothing outside its own range. |
| TypeParser.TakePart | src/ohstl/ctypes.c:372-390 | One part is terminated, looked up, and recursed into without its brackets. |
| TypeParser.Compacted | src/ohstl/ctypes.c:405-410 | The copy is the text without its spaces, terminated. |
| TypeParser.GetTypeNode | src/ohstl/ctypes.c:400-420 | The tree of a container has the parsed contents below the given type: any spacing of the text of good contents gives these contents back exactly if no type name has a space. However they are spaced, `char`, `short` and `int` give `int8_t`, `int16_t` and `int32_t`, a standard name gives itself, and a text that ends in `*` a pointer. |
| TypeParser.ContainerText | src/ohstl/ctypes.c:216-252 | A container's text is recognised by the name in front of its bracket, whatever is inside. |

## Left out

Parts of the repository:

- Sockets, epoll, eventfd and the read and write calls themselves: they are schedules of results, an interest map and
  a counter. Calls interrupted by a signal are retried inside the code and count as one call here.
- Mutex and condition wrappers, thread ids, logging, time conversion, debug records, sample programs.
- `thread_pool_destroy`, which polls a counter without a lock: runs end before it.
- `clist`, `cset`, `cmap`, iterator dispatch, `_rbt_iter_distance` and stepping back from the end iterator, whose guard
  points at itself.
- `spheap_init`, which nothing calls.
- `tcp_send_buffer`, which writes a buffer of the user's to the socket past the connection.
- Self load balancing, server set-up, the multi-loop hand-over of accepted clients, and buffers without a pool.
- Failed memory allocation, except that the allocator refuses sizes above its largest class.
- The comparison functions of the builtin types, which subtract and so are not an order near overflow: the order is a
  parameter that must be a strict weak order.

Restrictions of single parts:

- RbTree.RbTree.TreeSuccessor: the guard node is null here, and its begin pointer is not kept.
- Timers.TimerSet.Expire: `get_catime()` is one value during the loop, as with the default time cache. A one-shot timer
  stays marked active after it fired, as in the code, and has to be stopped before it can be started again.
- EventLoop.Loop.Run: within a priority, the order among the watchers of one poll, among the timers due at once, and
  among the hooks is not stated. The events that callbacks start and stop are known from the start, the intrusive lists
  of watchers and hooks are sequences, a queue grows without a capacity, and the clock stands still during a pass.
  Whether the loop quits is part of a round's input.
- IoSync.IoTable.UpdateFdChanges: no descriptor is closed and its number reused while it is in the change list.
- IoSync.IoTable.PollUpdate: for a mask of 0 the code returns an undefined value, which is 0 here.
- ObjPool.Pool.Get: the locked and the unlocked path are the same here, and `objpool_destroy` is not modelled.
- ByteBuffer.Write: the bytes of a unit are one sequence, and positions are indices instead of pointers.
- ByteBuffer.FdWrite: the schedule of results is finite, and a write beyond it would block. A kernel that goes on taking
  nothing for ever keeps the code in its loop.
- Tcp.TcpClient.Run: user callbacks send, buffer and flush, but do not close the connection they run for. Closing from
  outside is an event. What the user reads from the receive buffer is not modelled.
- Serving.Serve: one loop and one unit pool; the client pool is plain allocation, and failing accepts change nothing.
- Tcp.TcpClient.SendNow: lengths are not negative.
- ThreadPool.Pool.Proceed: a missing run or clean function counts as one that does nothing.
- Async.Loop.StartAsync: only the locked path. The function itself writes nothing to the eventfd: that no wakeup is lost
  rests on the caller's `evt_loop_wakeup` after it (src/ohev/tcpsrv.c:434-435), which is a step of its own here.
- Async.Loop.CleanNow: cleaning keeps the event usable; a clean callback that frees an event that was restarted during
  its own call is not modelled.
- Allocator.Allocator.Realloc: sizes above the largest class abort in the code and are excluded.
- Allocator.Run: reallocations beyond the largest class, which abort in the code, are excluded, and the user writes
  within the size asked for. Header sizes are those of a 64-bit build. A block is limited by the constant 102400000
  (include/ohstl/callocate.h:21), which the comment beside it calls 10M.
- SpareHeap.Heap.Push: elements are values; variable arguments, copying and destruction of elements are not modelled.
- XmlParser.RoundTrip: names have no `>`, do not end in a space or slash and do not begin with a slash; text is trimmed,
  not empty and free of `<`. Spaces inside an opening tag are the subject of XmlParser.SpaceBeforeBracket. Error messages and the memory of failed parses are not modelled.
- TypeParser.GetTypeNodeRecur: failed assertions give no result. For a container name without brackets, `string_t`
  included, the code reads beyond the part; here that is a failure, too. Names longer than the code's buffer and the
  registration of user types are not modelled.
