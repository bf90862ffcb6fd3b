# Verified model of the AESD character device and its socket server

This project models three connected parts of the repository and proves what they promise.

**The character device.** `CircularBuffer.dfy` is the fixed ring of entries with its wrapped slots and
`full` flag, for any capacity from 1 to 255. `KernelHeap.dfy` is the allocator the driver relies on;
`Ownership.dfy` says which holder owns which block. `CharDevice.dfy` is the driver: writes are cut at
newlines into lines, reads and seeks see the lines and the unterminated tail as one flat byte string.
`DeviceSpec.dfy` is the specification on values. Its centre is one function: a stream of accepted bytes
determines the whole device state (`StateOf`), and both a write and a read are described by the bytes of
a string through its first newline (`Lines.ThroughNewline`). The class invariant `CharDevice.Valid` says
that the state is the one of the bytes accepted so far and that every allocated block has exactly one
holder; every operation keeps it, so it holds after every run. `DeviceRuns.dfy` runs the device itself, from
init through any list of write or read calls to cleanup, and `Interleavings.dfy` lets any number of clients
interleave their driver calls on it.

**The readers/writers monitor.** `MonitorProtocol.dfy` is the protocol over any number of threads, one step
for each critical section, with spurious wakeups and with the broadcast after the unlock as a step of its
own. `MonitorLaws.dfy` says what each step does to each thread without mentioning the counters, `MonitorRuns.dfy`
proves properties of all runs, and `MonitorExclusion.dfy` says for how many clients the monitor keeps writers
apart; `Monitor.dfy` is the object with its `unsigned` counters, whose methods are exactly those steps.

**The socket server.** `DoublyLinkedList.dfy` and `ThreadQueue.dfy` are the linked queue of thread ids and
the join loop. `CStrings.dfy` has `strchr`, `strncpy` and C strings on a reused buffer, `SystemCalls.dfy` the
socket and file calls with short transfers, interruptions and failures, and `Server.dfy` the line loops and
what one connection does to the device and sends back.

`CTypes.dfy`, `Lines.dfy` and `Positions.dfy` hold the C integer types, the division of a stream into lines,
and positions as (entry, byte) pairs or flat offsets.

Where the code does not do what its documentation or its callers expect, the code is kept and the exact
condition is proved:

- the seek command takes line numbers modulo 256 (`SeekCommandExact`, `SeekCommandWraps`);
- a failed allocation loses a non-empty tail and its block, any other call keeps the invariant (`Write`), and a
  device gives every block back exactly when that never happens to it (`Lifetime`);
- the position search is wrong for positions 2^63 or more past the oldest entry (`FindEntryOffsetForFpos`);
- the ring's size skips entries without a block (`Size`);
- the monitor does not keep writers apart: it does in every run of `n` clients exactly when `n` is at most 2, or
  at most 1 when waits may end spuriously (`ExclusionWithoutSpuriousWakes`, `ExclusionWithSpuriousWakes`); still,
  no line is torn (`Interleave`);
- a client that reads while others write misses bytes exactly when a line is pushed out meanwhile (`Interleave`);
- the list finds its way only to place 0 and to the places before its middle (`GetNode`, `Get`, `Set`, `Insert`,
  `Remove` say what happens elsewhere);
- the line loops copy a run of chunks faithfully exactly when, up to the first newline, no NUL comes before
  another byte of its chunk (`RunTakenExact`, `RecvLine`).

Assumptions, all visible as preconditions: the sizes of the stream and of a write stay below 2^63; `strchr`
stays within its buffer, which need not be NUL-terminated; for the end-to-end result the image that is sent back
and the line have no NUL and a newline in every 1024-byte stretch; fewer than 2^32 threads use a monitor. What may
go wrong around the server is an input: interruptions (`interrupts`), failures (`mayFail`) and the signal that
tells it to stop (`mayTerminate`); without them the results hold outright. The device mutex makes each driver call atomic. The results about calls of any size are about the driver without its
debugging copies: `strncpy` of up to `count` bytes into a 100-byte array on the stack
(aesd-char-driver/main.c:150, aesd-char-driver/main.c:211) does not stay within that array.

## Model

| member | source | states |
|---|---|---|
| Lines.ThroughNewlineUnique | aesd-char-driver/main.c:214-219 | the only prefix that ends at the first newline, or is everything when there is none |
| Lines.DivideShape | aesd-char-driver/main.c:214-227 | dividing a stream loses no byte; every complete line has exactly one newline, as its last byte, and the tail has none |
| Lines.DivideUnique | aesd-char-driver/main.c:214-227 | no other list of lines and newline-free tail has the same bytes |
| Lines.PushLastN | aesd-char-driver/aesd-circular-buffer.c:239-258 | appending to a bounded log that holds the last n of a history gives the last n of the longer history |
| Positions.FlatOffsetOrder | aesd-char-driver/aesd-circular-buffer.c:195-229 | flat offsets order (entry, byte) pairs lexicographically, are distinct, and stay below the total size |
| Positions.LocateFlatOffsetInverse | aesd-char-driver/aesd-circular-buffer.c:154-229 | the two position mappings are mutually inverse bijections between the valid pairs and [0, total size), empty entries included |
| Positions.LocateByte | aesd-char-driver/aesd-circular-buffer.c:140-153 | the located pair holds the byte that the concatenation has at that offset, and there is none exactly at or past its end |
| Positions.FlattenFrom | aesd-char-driver/aesd-circular-buffer.c:186-194 | from the flat offset of a pair on, the concatenation is the rest of that entry followed by the later entries |
| Positions.SumRotation | aesd-char-driver/aesd-circular-buffer.c:263-278 | a sum does not depend on the slot the ring starts at |
| CircularBuffers.SubtractionSign | aesd-char-driver/aesd-circular-buffer.c:104-115 | the `ssize_t` result is non-negative exactly when the position is past the entry by less than 2^63 |
| CircularBuffers.EntryCountExact | aesd-char-driver/aesd-circular-buffer.c:89-93 | the truncating remainder counts the slots round to `in_offs` exactly when the difference is not negative |
| CircularBuffers.CircularBuffer.EntryArraySizeIsCount | aesd-char-driver/aesd-circular-buffer.c:82-94 | in every reachable ring the count is the number of stored entries, and the remainder never sees a negative operand |
| CircularBuffers.CircularBuffer.RelativeOfSlot | aesd-char-driver/aesd-circular-buffer.c:52-71 | the relative offset of a slot is its logical index, except that the oldest slot of a full ring gives the capacity |
| CircularBuffers.CircularBuffer.AbsoluteIsSlot | aesd-char-driver/aesd-circular-buffer.c:73-80 | the absolute offset of a logical index is the slot that many steps round from the oldest |
| CircularBuffers.CircularBuffer.SlotOfIndex | aesd-char-driver/aesd-circular-buffer.c:96-102 | that slot holds the entry, and the next slot is the one of the next index, also one lap later |
| CircularBuffers.CircularBuffer.DistinctSlots | aesd-char-driver/aesd-circular-buffer.c:73-80 | distinct logical indices have distinct slots |
| CircularBuffers.CircularBuffer.IterateFind | aesd-char-driver/aesd-circular-buffer.c:117-138 | stops at an entry exactly when the position is not past it by less than 2^63, and otherwise moves one slot on |
| CircularBuffers.CircularBuffer.SearchOn | aesd-char-driver/aesd-circular-buffer.c:171-178 | the loop keeps the position as prefix sum plus remainder and ends at an entry or after one lap |
| CircularBuffers.CircularBuffer.FindEntryOffsetForFpos | aesd-char-driver/aesd-circular-buffer.c:154-184 | returns the slot and byte of the located pair, or nothing exactly at or past the end; this holds for exactly the positions less than 2^63 past the oldest entry |
| CircularBuffers.CircularBuffer.SizeBefore | aesd-char-driver/aesd-circular-buffer.c:211-223 | the walk adds up the entries before the given one, wrapped or not |
| CircularBuffers.CircularBuffer.FindFposForEntryOffset | aesd-char-driver/aesd-circular-buffer.c:195-229 | the flat offset of the pair, or -1 exactly when there is no such entry or byte |
| CircularBuffers.CircularBuffer.AddEntry | aesd-char-driver/aesd-circular-buffer.c:239-258 | a bounded append to the logical entries: a full ring gives up its oldest entry and hands back its block; one slot changes |
| CircularBuffers.CircularBuffer.Size | aesd-char-driver/aesd-circular-buffer.c:263-278 | the slot-order sum is the length of the logical concatenation exactly when no stored entry without a block claims a size |
| CircularBuffers.CircularBuffer.SlotOrderSum | aesd-char-driver/aesd-circular-buffer.c:270-275 | slot order and logical order give the same sum, wrapped or not |
| CircularBuffers.CircularBuffer.Init | aesd-char-driver/aesd-circular-buffer.c:284-288 | whatever was there, the ring is empty and valid afterwards |
| CircularBuffers.AddAll | aesd-char-driver/aesd-circular-buffer.c:231-258 | any run of additions to a ring leaves the last min(n, capacity) of the old and new entries in it, and the non-NULL pointers handed back are those of the dropped entries, in order |
| KernelHeap.Heap.Krealloc | aesd-char-driver/main.c:199-204 | contract of a successful krealloc: the bytes that fit are kept, the block may move, and then the old address is given back |
| KernelHeap.Heap.Kfree | aesd-char-driver/main.c:223-224 | contract of kfree: only an allocated block can be freed, once |
| Ownership.OwnsAfterMove | aesd-char-driver/main.c:219-226 | handing the tail's block to a ring slot and freeing that slot's old block keeps one holder for every block |
| Ownership.AfterMove | aesd-char-driver/main.c:219-226 | the same move keeps one holder for every block, appends the line to the ring's lines and changes no other line |
| Ownership.AfterResize | aesd-char-driver/main.c:199-205 | replacing the tail's block keeps one holder for every block and leaves every line as it was |
| DeviceSpec.StateOfShape | aesd-char-driver/main.c:214-227 | in every reachable state the lines end in their only newline, the tail has none, and there are at most `capacity` lines |
| DeviceSpec.ImageIsSuffix | aesd-char-driver/main.c:214-227 | what readers see is the stream minus whole evicted lines at its front, and nothing is missing exactly while at most `capacity` lines were completed |
| DeviceSpec.ImageAfter | aesd-char-driver/main.c:214-227 | accepting bytes appends them to what readers see and pushes exactly the newly evicted lines out at its front |
| DeviceSpec.WriteStepExtendsStream | aesd-char-driver/main.c:198-244 | any call, whatever its size and outcome, takes the state of a stream to the state of the stream plus the bytes it accepts |
| DeviceSpec.RunDependsOnStreamOnly | aesd-char-driver/main.c:198-244 | the same for any run of calls |
| DeviceSpec.ChunkingIndependence | aesd-char-driver/main.c:198-244 | two runs that get the same bytes accepted end in the same state: the last `capacity` complete lines and the bytes after the last newline |
| DeviceSpec.ResumingAcceptsData | aesd-char-driver/main.c:229-230 | a caller that resumes after the returned count gets a prefix of its data accepted, and all of it after as many successful calls as there are bytes |
| DeviceSpec.ResumedWriteIsWhole | aesd-char-driver/main.c:198-244 | writing data piece by piece, failures included, has the effect of its bytes and nothing else |
| DeviceSpec.LocatingReadsImage | aesd-char-driver/main.c:131-148 | searching the ring and then the tail finds the same bytes as the flat image |
| DeviceSpec.ReadStepProgress | aesd-char-driver/main.c:146-165 | a positive read returns nothing exactly at or past the end, and ends at or before a newline |
| DeviceSpec.WholeFileRead | aesd-char-driver/main.c:113-174 | what a run of reads with any positive counts gets, failing calls included, is the image from the position on without gap or repetition; an empty read means all of it was returned, and one comes within bytes left plus one successful reads |
| DeviceSpec.SeekThenRead | aesd-char-driver/main.c:77-88 | whenever the line and byte exist the bounded seek accepts too, and the next read returns that line from the requested byte |
| DeviceSpec.SeekCommandExact | aesd-char-driver/main.c:62-88 | the command is taken as documented exactly when it is below 256 or its residue names no byte |
| DeviceSpec.SeekCommandWraps | aesd-char-driver/aesd_ioctl.h:27-33 | command 256 seeks into line 0 of a device that has one line |
| DeviceSpec.SeekCommandsAlike | aesd-char-driver/main.c:77-80 | commands that differ by a multiple of 256 seek alike |
| DeviceSpec.SeekEndReadsTail | aesd-char-driver/main.c:251-267 | seeking to the end goes behind the lines and before the tail |
| DeviceSpec.TellAnywhere | aesd-char-driver/main.c:251-274 | the only seek whose result is past the lines is asking for the current position |
| CharDevices.FindChar | aesd-char-driver/main.c:47-60 | the first occurrence, or -1 when there is none |
| CharDevices.FoundNewlineEndsLine | aesd-char-driver/main.c:214-219 | the bytes up to the found newline are the accepted part of the data |
| CharDevices.CharDevice.Write | aesd-char-driver/main.c:176-249 | the stream grows by the data through its first newline, the result is that count, or -ERESTARTSYS for an interrupted lock, -ENOMEM for an empty write or a failed allocation, -EFAULT for a faulting copy; the invariant survives exactly the calls that do not lose a tail to a failed allocation, and then the tail's block is allocated and has no holder |
| CharDevices.CharDevice.WriteLocked | aesd-char-driver/main.c:198-244 | the new lines and tail are those of one write step; blocks stay sound exactly unless a failed allocation loses the tail |
| CharDevices.CharDevice.Grow | aesd-char-driver/main.c:199-205 | room behind the tail, in a block that may have moved, with lines and tail unchanged |
| CharDevices.CharDevice.CopyIn | aesd-char-driver/main.c:207-209 | the tail's block holds the tail followed by the data, and no line changed |
| CharDevices.CharDevice.AcceptCopied | aesd-char-driver/main.c:214-230 | with or without a newline the device takes one write step and counts the bytes through the first newline |
| CharDevices.CharDevice.CompleteLine | aesd-char-driver/main.c:218-227 | the tail and the new bytes become the newest line, the tail is empty, and the evicted block is freed |
| CharDevices.CharDevice.GiveUp | aesd-char-driver/main.c:235-239 | a failing write leaves lines and tail alone, and no block with an empty tail |
| CharDevices.CharDevice.FindEntryForRead | aesd-char-driver/main.c:131-144 | an entry is found exactly before the end of the image, and it holds the bytes that are there |
| CharDevices.CharDevice.Read | aesd-char-driver/main.c:113-174 | the image from the position on, through the first newline and no more than asked for; a failing call does not move the position |
| CharDevices.CharDevice.IocSeekTo | aesd-char-driver/main.c:62-93 | the flat offset of byte `offset` of line `command` modulo 256, or an error and no move |
| CharDevices.CharDevice.Llseek | aesd-char-driver/main.c:251-274 | from the start, from the position or from the end of the lines, tail not counted, the target exactly when it lies within the lines, and -EINVAL otherwise and for any other whence; asking for the current position is not bounded |
| CharDevices.CharDevice.Cleanup | aesd-char-driver/main.c:360-380 | every block that has a holder is freed, each once, and only the lost ones are left |
| CharDevices.CharDevice.BlockConservation | aesd-char-driver/main.c:199-239 | every block ever obtained is freed or held by exactly one of the slots and the tail, and never both |
| DeviceRuns.WriteAll | aesd-char-driver/main.c:176-249 | any list of write calls returns the right results and leaves the device in the state that the run has in the specification, with the stream grown by the accepted bytes, unless one of them loses a tail, which ends the run |
| DeviceRuns.Lifetime | aesd-char-driver/main.c:325-380 | from init through any such list to cleanup, every block ever obtained has been freed, once, exactly when no call lost a tail; otherwise one block is left |
| DeviceRuns.ReadAll | aesd-char-driver/main.c:113-174 | any list of read calls on the device returns the image from the position on, without gap or repetition, and moves the position by what was returned; failing calls return nothing and leave it alone |
| Interleavings.WriteLineOnce | aesd-char-driver/main.c:198-244 | a whole line is accepted by one driver call or not at all |
| Interleavings.CaughtAfterWrite | aesd-char-driver/main.c:131-148 | after somebody else's write a reader has and can read what it had and could read followed by the new bytes when nothing was ever pushed out, and strictly less otherwise |
| Interleavings.Interleave | server/src/aesdsocket.c:384-404 | in any interleaving of the driver calls of any number of clients each call does its step: a read returns a piece of the image of its moment, at least one byte if there is one, and no line is torn: the device holds exactly the lines of the clients with a successful write call, whole, in the order of the first such calls; a reader misses nothing exactly when no line was pushed out meanwhile |
| MonitorLaws.WhoActs | server/src/monitor.c:63-113 | each operation, or its part after a wait, is a step of a thread that stands in one place |
| MonitorLaws.ActingThread | server/src/monitor.c:63-113 | a reader that starts is let in exactly when no thread is or waits to be a writer, and a writer exactly when all threads are idle; after a wait nobody looks again |
| MonitorLaws.OtherThreads | server/src/monitor.c:75-113 | a waiting writer is woken exactly by the last reader to stop, or by the last writer when nobody waits to read; a waiting reader exactly by an admitted reader or the last writer to stop; a broadcast leaves nobody waiting; everybody else stays where it is |
| MonitorProtocol.CountersStep | server/src/monitor.c:63-113 | every step keeps the four counters equal to the numbers of threads in the matching phases, woken ones still counted as waiting |
| MonitorProtocol.NoUnderflow | server/src/monitor.c:66-111 | every decrement finds its counter positive |
| MonitorProtocol.SomebodyWillSignal | server/src/monitor.c:91-93 | whenever a writer would wait, some thread is active or woken already |
| MonitorProtocol.HandedToReaders | server/src/monitor.c:106-108 | when the last writer stops and readers wait, one of them is woken |
| MonitorProtocol.InvStep | server/src/monitor.c:63-113 | every step keeps the counters right and leaves nobody waiting without a thread that will signal |
| MonitorRuns.NoLostWakeup | server/src/monitor.c:63-113 | in every reachable state an unsignalled waiting reader has an active or waiting writer, and an unsignalled waiting writer an active or woken thread |
| MonitorRuns.NeverStuck | server/src/monitor.c:63-113 | while a thread is not idle, a thread that is woken, admitted or active can step without arrivals or spurious wakeups |
| MonitorRuns.DrainStep | server/src/monitor.c:66-112 | every step but an arrival lowers the total weight of the threads |
| MonitorRuns.BoundedDrain | server/src/monitor.c:63-113 | from every reachable state every run without arrivals has at most four steps per thread and can go on until all are idle and all counters zero |
| MonitorRuns.EverybodyServed | server/src/monitor.c:63-113 | a thread that waits and is idle at the end of a run without arrivals was active in between, in the role it waited for |
| MonitorExclusion.ExclusionStep | server/src/monitor.c:67-72 | a step keeps writers exclusive exactly when it is not a resumption that finds the resource taken |
| MonitorExclusion.ExclusionExact | server/src/monitor.c:87-100 | a run keeps writers exclusive throughout exactly when every resumption in it finds the resource free: only the missing second look is at fault |
| MonitorExclusion.PairStep | server/src/monitor.c:63-113 | with two clients a writer that is active or woken is so alone, after every step but a spurious wakeup |
| MonitorExclusion.WokenWhenFree | server/src/monitor.c:78-113 | in every run, while writers are exclusive, a writer is signalled only when nobody is left active and a reader only when no writer is |
| MonitorExclusion.ExclusionWithoutSpuriousWakes | server/src/monitor.c:63-113 | every run without spurious wakeups keeps writers exclusive exactly when there are at most two clients |
| MonitorExclusion.ExclusionWithSpuriousWakes | server/src/monitor.c:63-113 | every run keeps writers exclusive exactly when there is at most one client |
| MonitorExclusion.TwoWritersAtOnce | server/src/monitor.c:91-98 | with three or more clients, a run without spurious wakeups that ends with two active writers |
| MonitorExclusion.WriterBesideReader | server/src/monitor.c:91-98 | with two or more clients, a run with one spurious wakeup that ends with a writer beside a reader |
| Monitors.Monitor.StepFits | server/src/monitor.c:66-111 | with fewer than 2^32 threads no counter wraps in any step |
| Monitors.Monitor.StartReading | server/src/monitor.c:66-73 | is the protocol step: wait behind active or waiting writers, or be admitted |
| Monitors.Monitor.ResumeReading | server/src/monitor.c:70-73 | is the protocol step: admitted without looking again |
| Monitors.Monitor.BroadcastCanRead | server/src/monitor.c:75 | is the protocol step: every waiting reader is woken, after the unlock |
| Monitors.Monitor.StopReading | server/src/monitor.c:78-85 | is the protocol step: the last reader wakes the waiting writers |
| Monitors.Monitor.StartWriting | server/src/monitor.c:90-99 | is the protocol step: wait behind anybody, or be active |
| Monitors.Monitor.ResumeWriting | server/src/monitor.c:96-99 | is the protocol step: active without looking again |
| Monitors.Monitor.StopWriting | server/src/monitor.c:102-113 | is the protocol step: the last writer wakes the waiting readers, or else the waiting writers |
| DoublyLinkedLists.DoublyLinkedList.GetNodeFromHead | server/src/doubly_linked_list.c:49-61 | the node at the place |
| DoublyLinkedLists.DoublyLinkedList.GetNodeFromTail | server/src/doubly_linked_list.c:63-75 | the head for the last place, NULL for the one before, a NULL dereference for any other |
| DoublyLinkedLists.DoublyLinkedList.GetNode | server/src/doubly_linked_list.c:77-93 | the node at the place exactly for place 0 and the places before the middle |
| DoublyLinkedLists.DoublyLinkedList.Get | server/src/doubly_linked_list.c:282-288 | the id at the place on the same range, the head's id for the last place, an abort or a crash elsewhere |
| DoublyLinkedLists.DoublyLinkedList.Set | server/src/doubly_linked_list.c:255-264 | replaces that id and keeps the list, or the head's id for the last place |
| DoublyLinkedLists.DoublyLinkedList.InsertNodeInHead | server/src/doubly_linked_list.c:107-118 | the node becomes the first, links inverse both ways |
| DoublyLinkedLists.DoublyLinkedList.InsertNodeInTail | server/src/doubly_linked_list.c:120-131 | the node becomes the last, links inverse both ways |
| DoublyLinkedLists.DoublyLinkedList.InsertMiddleNode | server/src/doubly_linked_list.c:133-148 | the node takes the place and the later ones move up, exactly where the place is found |
| DoublyLinkedLists.DoublyLinkedList.InsertHead | server/src/doubly_linked_list.c:332-350 | prepends the id, or changes nothing when there is no memory |
| DoublyLinkedLists.DoublyLinkedList.InsertTail | server/src/doubly_linked_list.c:352-370 | appends the id, or changes nothing when there is no memory |
| DoublyLinkedLists.DoublyLinkedList.Insert | server/src/doubly_linked_list.c:306-330 | inserts as a sequence does exactly at both ends and before the middle; aborts past the end and crashes elsewhere |
| DoublyLinkedLists.DoublyLinkedList.RemoveLastNode | server/src/doubly_linked_list.c:150-162 | empties a list of one node, and aborts on any other |
| DoublyLinkedLists.DoublyLinkedList.RemoveHeadNode | server/src/doubly_linked_list.c:164-175 | drops the first of several nodes, and aborts on fewer |
| DoublyLinkedLists.DoublyLinkedList.RemoveTailNode | server/src/doubly_linked_list.c:177-188 | drops the last of several nodes, and aborts on fewer |
| DoublyLinkedLists.DoublyLinkedList.RemoveMiddleNode | server/src/doubly_linked_list.c:190-201 | drops an inner node exactly where its place is found |
| DoublyLinkedLists.DoublyLinkedList.NodeDestroy | server/src/node.c:47-52 | a node is given back once, and only after it has left the list |
| DoublyLinkedLists.DoublyLinkedList.RemoveHead | server/src/doubly_linked_list.c:395-412 | takes out the first id and gives its node back, and aborts on an empty list |
| DoublyLinkedLists.DoublyLinkedList.RemoveTail | server/src/doubly_linked_list.c:414-431 | takes out the last id and gives its node back, and aborts on an empty list |
| DoublyLinkedLists.DoublyLinkedList.Remove | server/src/doubly_linked_list.c:372-393 | removes as a sequence does, and gives the node back, exactly at the head of a list of several and before the middle; aborts for the only node and the tail, crashes elsewhere |
| ThreadQueues.ThreadQueue.Enqueue | server/src/queue.c:35-39 | the id goes to the end of the waiting order |
| ThreadQueues.ThreadQueue.Dequeue | server/src/queue.c:41-45 | the id that has waited longest comes out |
| ThreadQueues.FirstInFirstOut | server/src/queue.c:35-45 | what a run of operations gives out, followed by what it leaves, is what was there followed by what came in |
| ThreadQueues.RunOps | server/src/queue.c:35-45 | any run of operations on a queue gives out and leaves just that, ids without memory and an empty queue included |
| ThreadQueues.EnqueuedExact | server/src/aesdsocket.c:571-607 | the ids that get into the queue are those before the first that finds no memory |
| ThreadQueues.AcceptAll | server/src/aesdsocket.c:571-607 | the queue holds the started threads in order, up to the first that cannot be queued |
| ThreadQueues.JoinAll | server/src/aesdsocket.c:615-620 | every queued thread is joined once, in order, the queue is empty, and every node of it was given back |
| ThreadQueues.AcceptThenJoin | server/src/aesdsocket.c:571-622 | the joined threads are exactly the queued ones, in the order in which they were started |
| CStrings.ChunkInReusedBuffer | server/src/aesdsocket.c:353-366 | stale bytes of earlier, longer chunks never make a newline appear, and the bytes taken are the chunk through its first newline |
| CStrings.ChunkTakenExact | server/src/aesdsocket.c:353-366 | for one chunk in a buffer without a newline, the bytes taken are the chunk through its first newline exactly when no NUL comes before another byte of that |
| CStrings.RunTakenExact | server/src/aesdsocket.c:349-368 | for a whole run of chunks in the reused buffer, the line is the stream through its first newline exactly when that holds of every chunk up to there; a newline that stays behind a NUL included |
| CStrings.GoodRun | server/src/aesdsocket.c:349-368 | NUL-free chunks with a newline in every full one keep `strchr` within the buffer and give the stream through its first newline; chunks after that do not matter |
| Servers.RecvChunk | server/src/aesdsocket.c:348-374 | one round of the receive loop, whatever the call meets: what its bytes are made into is appended, and the rest will be made into the rest of the line |
| Servers.TakeChunk | server/src/aesdsocket.c:349-368 | the line grows by what strchr and strncpy take from the buffer, and the end of the line is noticed exactly when strchr finds it |
| Servers.RecvLine | server/src/aesdsocket.c:334-382 | the line the chunks are made into, which is the incoming stream through its first newline exactly when no NUL up to there comes before another byte of its chunk; it succeeds when a line is complete before an error, and is then whole unless a signal stops it |
| Servers.WriteLine | server/src/aesdsocket.c:384-404 | the device accepts the whole line, in as many calls as needed, or a beginning of it when a call fails |
| Servers.SendLine | server/src/aesdsocket.c:493-511 | the whole line is sent unless a call fails or a signal stops it, and then a beginning of it |
| Servers.ReadPiece | server/src/aesdsocket.c:453-476 | one round of the read loop takes the next piece and drops nothing |
| Servers.ReadLine | server/src/aesdsocket.c:434-491 | the next line, or the rest when no newline is left, which is when the end is reported; the position advances by exactly its length; after a failing read the caller's line was given to `realloc` exactly when it passed one in and bytes had been read |
| Servers.ReadAndSendFile | server/src/aesdsocket.c:406-432 | the loop ends, and everything from the position on has been sent, in order and once, unless a call fails or a signal stops it, and then a beginning of it |
| Servers.ReadableMeansShortLines | server/src/aesdsocket.c:453-464 | every 1024-byte stretch has a newline exactly when lines have at most 1024 bytes and the tail fewer |
| Servers.ParseSeekOfFormatted | server/src/aesdsocket.c:281-300 | a line made of anything, ':', a number, ',', a number and a newline is read back as those two numbers |
| Servers.ParseSeekHasFormat | server/src/aesdsocket.c:281-300 | numbers are read only from a line of that form, and they are the ones between its first separators |
| Servers.SeekInBytes | server/src/aesdsocket.c:282-300 | a line prefix ':' n ',' o newline that begins with the command seeks to byte atoi(o) of line atoi(n), modulo 2^32 and the line modulo 256, and what follows there is the rest of that line, the later lines and the tail |
| Servers.TakeLine | server/src/aesdsocket.c:280-316 | a seek command moves the position to read from and writes nothing; any other line is written and reading starts at 0 |
| Servers.Respond | server/src/aesdsocket.c:280-320 | the reaction to the line followed by the file from that position; nothing is sent when the seek fails |
| Servers.SentForLine | server/src/aesdsocket.c:302-320 | after a complete line the image is the concatenation of the last `capacity` complete lines |
| Servers.LineArrivesExact | server/src/aesdsocket.c:347-361 | a line arrives when some chunk has a newline and no error is before it |
| Servers.Serve | server/src/aesdsocket.c:255-332 | when a line arrives, one that does not begin with the command turns the stream s into s + line and exactly the last `capacity` complete lines are sent back; a seek command leaves the stream alone and is answered from byte o of line n on, with nothing when there is no such byte, and with the whole image when it has no numbers; without failures, interruptions and a stopping signal it succeeds; when no line arrives nothing is stored or sent |

## Left out

- Servers.RecvLine: the line pointer is taken to be NULL on entry, as in its only call.
- Servers.Serve: `open` and `realloc` succeed, `atoi` is a parameter, and the calls of the monitor are not threaded through the loops: one connection at a time uses the device.
- Servers.ReadLine: only over the device; over a regular file one read may span several lines and the rest is dropped.
- DeviceRuns.WriteAll: the run ends at the first call that loses a tail; no operation is proved from a state in which the tail's block is lost.
- CharDevices.CharDevice.Write: the same.
- Servers.ReadAndSendFile: after a read that failed late the line it frees is one that `realloc` may have freed (`ReadLine` says exactly when); that second free is not modelled.
- Error exits of the line loops that jump over `monitor_stop_writing` or `monitor_stop_reading`: each start is assumed to be matched by a stop.
- Monitor mutual exclusion: not claimed, because it does not hold; only its exact condition is.
- The copies into `msg_buffer` (see the assumptions above), logging, and the `try.h` macros beyond their control flow.
- `get_user` and the decoding of the ioctl argument, module registration, `aesd_open` and `aesd_release`.
- Socket setup, daemonizing, signals and timers beyond the termination flag, and timestamps.
- `finder-app`, `examples`, the scripts, and the accessors of `node.c` other than the ones that link, set and destroy.
