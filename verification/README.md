# huicpp verification

A Dafny model of the hard parts of the huicpp library, with proofs of what its design
promises. `dafny verify dfyconfig.toml` checks the whole project.

Code that rewrites state in place is modelled by classes and methods over the same nodes,
fields and arrays. Every such method is proved against a function on plain values, and the
promises are proved about those functions. Protocols between threads are state machines
whose steps are the atomic accesses or the critical sections of the code; their theorems
hold of every run, for any number of threads.

## The parts

* **Delay queue and event loop** (`Timevals`, `TaskQueue`, `TaskRuns`, `DeltaLists`,
  `DelayQueues`, `EventLoop`). The circular list of time differences, node by node. It
  refines a sorted list of remaining times, and that list refines absolute deadlines: over
  every run each task fires at most once, never early, and in order of deadline and
  insertion. Seconds and microseconds are 64-bit numbers, so each addition and subtraction
  carries a proof that it does not overflow. The sum of all differences is conserved; this
  is why the walks along the ring end. A step of the event loop is followed with everything
  that handlers, triggers and callbacks may do to the queue.
* **Handlers** (`HandlerTable`, `IteratorPass`, `HandlerLists`, with `DistinctSeqs`). The
  list of watched descriptors refines a map, and a pass of the iterator is followed while
  callbacks change the list.
* **Ring for one producer and one consumer** (`SpscRing`). Every load, store, slot access
  and destruction is a step of its own; all interleavings of the two threads are covered.
* **Serialization** (`Bytes`, `DataStreams`, `VarInt`, `CompactSize`, `Codec`,
  `VectorGrowth`, `CodecStream`, with `Arithmetic`). A schema describes nested integers, booleans, strings, vectors, pairs,
  maps and sets. Encoder and decoder are functions on bytes; the stream methods, with
  their blocks and loops, are proved to compute them.
* **Thread pools** (`WorkerPool`, `ThreadStartup`). The job queue with its signals and its
  shutdown, and the handshake by which the argument array of a new pool is freed.
* **Creation and buffers** (`SingletonCreation`, `InstanceHolder`, `BufferPool`).
* **Small algorithms** (`CeilPow2`, `UrlEncodes`, `StrSplits`).

## Where the code does less than its documentation

Each promise below comes with the condition under which it holds, and a proof that it holds
then and only then.

* Binary `operator-` on time values tests the sign of the seconds cut down to 32 bits: a
  span of 2^31 seconds counts as no time at all (`Timevals.MinusExact`).
* `ScheduleDelayTask` promises no delay for a negative argument, but its parameter is
  unsigned (`EventLoop.DelayAsPromised`).
* `AddEntry` loses whole rounds of the list: a delay that is not below the sum of all
  differences is waited for modulo that sum, so a task that is to wait for `ETERNITY` in a
  new queue is due at once (`TaskQueue.WaitedAsAsked`, `DeltaLists.EternityIsNow`).
* The loop of `synchronize` goes round the ring for ever once the elapsed time reaches the
  sum of all differences (`DeltaLists.SynchronizeEnds`).
* `GuestSize` is wrong for distances that do not fit a signed 32-bit number
  (`SpscRing.GuestSizeExact`).
* Streaming one `CDataStream` into another is said to be the same as `+=`, but it repeats
  the bytes already read (`DataStreams.WholeIsUnread`).
* A read computes its end in 32 bits; where that wraps around, it may go past the end of the
  buffer or leave the wrong position (`DataStreams.ReadIff`).
* A read that reaches the end of the stream cannot be rewound
  (`DataStreams.RewindUndoesRead`).
* The reader of vectors grows them by strides in 32 bits. The announced size and the size of
  an element decide whether it delivers everything (`VectorGrowth.DeliversIff`) and whether
  it ends at all (`VectorGrowth.EndsIff`).
* The start-up flag is shared by all pools. Starting a pool with children while another pool
  is still to hear from a child can free an argument array too early; every such start can,
  and no other (`ThreadStartup.OverlapExact`).
* An iterator survives the deletion of every descriptor but the one it stands on
  (`IteratorPass.CursorStaysIff`).
* A `+` or `%` declared safe is not given back by URL decoding (`UrlEncodes.RoundTrip`).
* `V2Str` drops one character at the end, however long the separator is
  (`StrSplits.JoinUndoesSplit`), and `Split` refuses the empty string, so it does not find
  one empty piece again (`StrSplits.SplitUndoesJoin`).

The comment on variable-length integers also lists wrong bytes for 16511 and 65535
(`VarInt.CommentExamples`).

## Model

| member | source | states |
|---|---|---|
| Timevals.AddAssign | src/detail/scheduler/delayqueue_in.cpp:22-31 | adds two lengths exactly, stays normalised, and never overflows while the sum is at most `ETERNITY` |
| Timevals.SubAssign | src/detail/scheduler/delayqueue_in.cpp:34-46 | subtraction that saturates at zero and stays normalised |
| Timevals.GeqIsMicros | src/detail/scheduler/delayqueue_in.cpp:14-19 | comparing pairs is comparing lengths |
| Timevals.ZeroIsMicros | src/detail/scheduler/delayqueue_in.h:50-52 | equality derived from two comparisons recognises exactly the zero interval |
| Timevals.MinusExact | src/detail/scheduler/delayqueue_in.cpp:57-71 | binary `-` is the saturated difference if and only if the 32-bit cast keeps the sign of the whole seconds |
| Timevals.MinusShortSpan | src/detail/scheduler/delayqueue_in.cpp:57-71 | in particular for every forward span below 2^31 seconds |
| Timevals.MinusLosesLongSpan | src/detail/scheduler/delayqueue_in.cpp:66-67 | and it is not for a span of 2^31 seconds |
| Timevals.CastKeepsLowBits | src/detail/scheduler/delayqueue_in.cpp:66 | the 32-bit cast keeps a number up to multiples of 2^32 |
| Timevals.ElapsedExact | src/detail/scheduler/delayqueue_in.cpp:238-246 | between two readings no time passes when the clock went back; otherwise their difference to the microsecond, unless the cut-down seconds come out negative |
| TaskQueue.ExpireIsExact | src/detail/scheduler/delayqueue_in.cpp:203-233 | an alarm pass takes out all tasks that are due, in order, and no other |
| TaskQueue.DropUndoesEnqueue | src/detail/scheduler/delayqueue_in.cpp:142-188 | removing the task just added gives back the queue, every remaining time included |
| TaskQueue.LapseTwice | src/detail/scheduler/delayqueue_in.cpp:236-256 | two synchronisations are one over the whole time |
| TaskQueue.EnqueueValid | src/detail/scheduler/delayqueue_in.cpp:142-160 | adding keeps the remaining times sorted and below the horizon |
| TaskQueue.WaitedAsAsked | src/detail/scheduler/delayqueue_in.cpp:148-151 | a task is queued with the delay asked for if and only if it is below the sum of all deltas |
| TaskQueue.LapseValid | src/detail/scheduler/delayqueue_in.cpp:236-256 | synchronising keeps them so |
| TaskRuns.StepInv | src/detail/scheduler/delayqueue_in.cpp:142-256 | every operation, between any two firings too, keeps: remaining time = deadline minus clock cut at zero, tickets in order, conservation |
| TaskRuns.StepExact | src/detail/scheduler/delayqueue_in.cpp:142-256 | what each event does to every task: which are queued, their deadlines, what has fired and what was removed |
| TaskRuns.RunRecords | src/detail/scheduler/delayqueue_in.cpp:142-256 | the tasks with a deadline are exactly those that events scheduled, and as many fired as firings took place |
| TaskRuns.ClockIsTime | src/detail/scheduler/delayqueue_in.cpp:236-256 | over every run of non-decreasing readings less than 2^31 seconds apart, the queue's clock is the last reading less the first |
| TaskRuns.FiresInTime | src/detail/scheduler/delayqueue_in.cpp:221-232 | in such a run, whenever a task can fire the last reading has reached the first one plus its deadline |
| TaskRuns.PositionByDeadline | src/detail/scheduler/delayqueue_in.cpp:146-151 | searching by remaining times, some of them cut off at zero, finds the place that deadlines and insertion order demand |
| TaskRuns.FiringDiscipline | src/detail/scheduler/delayqueue_in.cpp:203-233 | in every run no task fires twice or before its deadline, and all firings are in order of deadline, then insertion |
| TaskRuns.TasksConserved | src/detail/scheduler/delayqueue_in.cpp:142-256 | in every run the tasks scheduled by its events = fired + queued + removed, each task in exactly one place, and the sum of all deltas is `ETERNITY` minus the time elapsed |
| TaskRuns.DeadlineAsAsked | src/detail/scheduler/delayqueue_in.cpp:142-160 | in every run, a task's deadline is the one asked for if and only if its delay is below what is left of the horizon |
| TaskRuns.AlarmPass | src/detail/scheduler/delayqueue_in.cpp:221-232 | the alarm loop is single firings repeated, and they leave what `Expire` describes |
| DeltaLists.PaidIsLapse | src/detail/scheduler/delayqueue_in.cpp:248-255 | zeroing deltas along the list and shortening the next one maps every remaining time r to max(0, r - e) |
| DeltaLists.SplitIsEnqueue | src/detail/scheduler/delayqueue_in.cpp:146-158 | splitting one delta inserts after every task due no later and changes no other remaining time |
| DeltaLists.MergeIsDrop | src/detail/scheduler/delayqueue_in.cpp:183-185 | giving a delta to the successor removes that task and changes no other remaining time |
| DeltaLists.CircleStop | src/detail/scheduler/delayqueue_in.cpp:148-151 | the walk for any delay stops at the place of the delay modulo the sum of all deltas |
| DeltaLists.EternityIsNow | src/detail/scheduler/delayqueue_in.cpp:121-160 | a delay of `ETERNITY` in a new queue is due at once |
| DeltaLists.NeighboursFit | src/detail/scheduler/delayqueue_in.cpp:183 | two neighbouring deltas never exceed the total, hence `LONG_MAX` seconds, when added |
| DeltaLists.ViewValid | src/detail/scheduler/delayqueue_in.cpp:121-126 | normalised deltas with a positive sentinel always describe a sorted queue below its horizon |
| DeltaLists.HeadDue | src/detail/scheduler/delayqueue_in.cpp:193-221 | the head's delta is zero if and only if a task is due; the sentinel is never taken for an alarm |
| DeltaLists.SynchronizeEnds | src/detail/scheduler/delayqueue_in.cpp:249-255 | the loop ends if and only if the elapsed time is below the sum of all deltas |
| DelayQueues.LinkBefore | src/detail/scheduler/delayqueue_in.cpp:155-158 | the four pointer writes leave a well-formed ring with the entry before `cur` |
| DelayQueues.Unlink | src/detail/scheduler/delayqueue_in.cpp:184-186 | the pointer writes leave a well-formed ring without the entry, whose own links become null |
| DelayQueues.PayOff | src/detail/scheduler/delayqueue_in.cpp:248-255 | the walk over the nodes computes the lapse of the elapsed time and ends |
| DelayQueues.FindPlace | src/detail/scheduler/delayqueue_in.cpp:146-151 | for every delay the walk ends, round the ring if need be, with what is left of it at that place |
| DelayQueues.DelayQueue.constructor | src/detail/scheduler/delayqueue_in.cpp:121-126 | an empty queue whose sentinel holds `ETERNITY` |
| DelayQueues.DelayQueue.Synchronize | src/detail/scheduler/delayqueue_in.cpp:236-256 | all remaining times lapse by the difference of the readings, to the microsecond, for forward spans below 2^31 seconds, and by nothing if the clock went back; links untouched |
| DelayQueues.DelayQueue.AddEntry | src/detail/scheduler/delayqueue_in.cpp:142-160 | synchronises and then enqueues with the delay the entry asked for, whole rounds of the list taken off |
| DelayQueues.DelayQueue.RemoveEntry | src/detail/scheduler/delayqueue_in.cpp:177-188 | drops a queued entry and nothing else; null, removed and never added entries leave the queue as it is |
| DelayQueues.DelayQueue.UpdateEntry | src/detail/scheduler/delayqueue_in.cpp:162-174 | drop, lapse, enqueue with the new delay, whole rounds taken off |
| DelayQueues.DelayQueue.TimeToNextAlarm | src/detail/scheduler/delayqueue_in.cpp:191-201 | the smallest remaining time over all tasks; the horizon when there is none |
| DelayQueues.DelayQueue.FireNext | src/detail/scheduler/delayqueue_in.cpp:224-228 | the first task comes out before its callback is called |
| DelayQueues.DelayQueue.FireDue | src/detail/scheduler/delayqueue_in.cpp:221-232 | the loop fires exactly the due tasks in order and ends |
| DelayQueues.DelayQueue.HandleAlarm | src/detail/scheduler/delayqueue_in.cpp:203-233 | fires exactly the due tasks in order and ends |
| EventLoop.ToInterval | src/detail/scheduler/scheduler_in.cpp:33 | splits 64-bit microseconds into a normalised interval of the same length |
| EventLoop.DelayAsPromised | src/detail/scheduler/scheduler_in.h:36-40 | the promised delay is scheduled if and only if the argument is not negative |
| EventLoop.AlwaysSchedulable | src/detail/scheduler/scheduler_in.cpp:31-38 | after every run, every delay of 64-bit microseconds is given the deadline asked for, until the queue's clock is within 2^64 microseconds of `ETERNITY` |
| EventLoop.ScheduleDelayTask | src/detail/scheduler/scheduler_in.cpp:31-38 | a new entry is enqueued with that delay |
| EventLoop.SelectTimeout | src/hscheduler.cpp:51-62 | the timeout has the seconds of the time to the next alarm, a million at most, and its microseconds; it is never past a task and never below the lesser of that time and a million seconds |
| EventLoop.SingleStep | src/hscheduler.cpp:49-84 | one step asks for that timeout, no longer and no shorter, and afterwards fires exactly what is due |
| EventLoop.StepServesAll | src/hscheduler.cpp:49-84 | whatever handlers, triggers and callbacks do to the queue in a step, afterwards every task whose deadline the clock has reached has fired or was removed, theirs included, and no queued task is overdue |
| EventLoop.SleptTaskFires | src/hscheduler.cpp:69-82 | a task fires in this step if and only if its time ran out during the sleep |
| HandlerTable.AssignUpdates | src/detail/scheduler/handlerset_in.cpp:68-84 | assigning a positive descriptor updates the map there only and keeps one handler for each; others are ignored |
| HandlerTable.RemoveDeletes | src/detail/scheduler/handlerset_in.cpp:86-93 | removing takes exactly that descriptor out of the map |
| HandlerTable.Lookup | src/detail/scheduler/handlerset_in.cpp:105-116 | the first descriptor of the socket, or none |
| HandlerTable.WantedIff | src/detail/scheduler/selecthandlers_in.cpp:85-100 | a handler is called if and only if something it asked for has happened |
| IteratorPass.StepInv | src/detail/scheduler/handlerset_in.cpp:136-148 | returned nodes followed by the list from the cursor on stay the original list without the nodes deleted before their turn |
| IteratorPass.PassVisitsOriginals | src/detail/scheduler/handlerset_in.cpp:120-148 | a finished pass returned every original descriptor that no event deleted before its turn, once, in order, and no added one, for callbacks that add descriptors and delete any but the one at the cursor |
| IteratorPass.DeletedIsNotVisited | src/detail/scheduler/handlerset_in.cpp:32-38 | a descriptor deleted before its turn is not returned later in the pass |
| IteratorPass.PassEnds | src/detail/scheduler/handlerset_in.cpp:136-148 | a pass returns no more descriptors than the list had from its cursor on, however many are added |
| IteratorPass.CursorStaysIff | src/detail/scheduler/handlerset_in.cpp:32-38 | after a deletion the cursor is still in the list if and only if the descriptor deleted was not the one at the cursor |
| HandlerLists.Unlink | src/detail/scheduler/handlerset_in.cpp:32-38 | the destructor's pointer writes leave a well-formed ring without the node |
| HandlerLists.Descriptor.Before | src/detail/scheduler/handlerset_in.cpp:16-30 | the constructor's pointer writes make the new node the head of a well-formed ring |
| HandlerLists.HandlerSet.LookupHandler | src/detail/scheduler/handlerset_in.cpp:105-116 | returns the node the table's lookup names, null for none |
| HandlerLists.HandlerSet.AssignHandler | src/detail/scheduler/handlerset_in.cpp:68-84 | the linked list shows the table after the assignment, one descriptor for a socket; at most one node is new, at the head |
| HandlerLists.HandlerSet.RemoveHandler | src/detail/scheduler/handlerset_in.cpp:86-93 | the linked list shows the table after the removal |
| HandlerLists.HandlerIterator.Next | src/detail/scheduler/handlerset_in.cpp:136-148 | returns the node under the cursor and moves on, null at the sentinel |
| HandlerLists.SetupHandleSet | src/detail/scheduler/selecthandlers_in.cpp:39-75 | the three sets are exactly the descriptors with the flag, and the result is the largest of them |
| HandlerLists.GatherEvents | src/detail/scheduler/selecthandlers_in.cpp:85-96 | the flags of all that happened to a descriptor |
| HandlerLists.CallHandlers | src/detail/scheduler/selecthandlers_in.cpp:78-104 | makes exactly the calls of `Calls`, in list order |
| HandlerLists.CallsExactly | src/detail/scheduler/selecthandlers_in.cpp:78-104 | those are, in list order and once each, the calls to the handlers that asked for something that happened, with all that happened |
| SpscRing.StepInv | src/hsinglefastqueue.h:65-118 | every atomic step of either thread keeps the ring's invariant |
| SpscRing.RunHistory | src/hsinglefastqueue.h:65-118 | what a run records as published is what was passed to `Push`, in order |
| SpscRing.FirstInFirstOut | src/hsinglefastqueue.h:65-118 | in every interleaving the values got followed by the live slots are the values passed to the calls of `Push` that published, in order, and as many were got as calls of `Get` and `popFront` published |
| SpscRing.NoSlotShared | src/hsinglefastqueue.h:71-93 | the slot being written is neither live nor read or destroyed by the consumer |
| SpscRing.PushFailsIffFull | src/hsinglefastqueue.h:71-77 | `Push` answers false if and only if size - 1 values are live at its look |
| SpscRing.GetFailsIffEmpty | src/hsinglefastqueue.h:83-86 | `Get` answers false if and only if no value is live at its look |
| SpscRing.GuestSizeExact | src/hsinglefastqueue.h:144-151 | the size is right if and only if it fits 31 bits and `read` is at most 2^31 ahead of `write` |
| SpscRing.GuestSizeSmallRing | src/hsinglefastqueue.h:144-151 | always for rings of at most 2^31 slots |
| SpscRing.ConsumerEstimate | src/hsinglefastqueue.h:137-151 | to the consumer the true size is never less, whatever the producer does between the loads |
| SpscRing.ProducerEstimate | src/hsinglefastqueue.h:137-151 | to the producer it is never more |
| SpscRing.FastQueue.constructor | src/hsinglefastqueue.h:30-42 | an empty ring of at least two slots |
| SpscRing.FastQueue.Push | src/hsinglefastqueue.h:65-78 | appends unless size - 1 values are live; the same state as its atomic steps |
| SpscRing.FastQueue.Get | src/hsinglefastqueue.h:81-95 | takes the oldest value unless empty; the same state as its atomic steps |
| SpscRing.FastQueue.PopFront | src/hsinglefastqueue.h:109-118 | drops the oldest value |
| SpscRing.FastQueue.IsEmpty | src/hsinglefastqueue.h:120-123 | true if and only if nothing is live |
| SpscRing.FastQueue.IsFull | src/hsinglefastqueue.h:125-135 | true if and only if size - 1 values are live |
| DataStreams.ReadIff | src/hserialize.h:822-842 | a read in 32-bit arithmetic delivers the next bytes and leaves the rest if and only if its end does not wrap around, or wraps to behind the end of the buffer |
| DataStreams.ReadKeepsValid | src/hserialize.h:822-842 | the read position stays inside the buffer and exactly the bytes read leave the queue |
| Bytes.TakenAt | src/hserialize.h:822-842 | the bytes of a read are those of the buffer, then zeros, and the rest is what stands behind them |
| DataStreams.RewindUndoesRead | src/hserialize.h:794-842 | a rewind restores the bytes read if and only if the read stopped short of the end or there was nothing |
| DataStreams.WholeIsUnread | src/hserialize.h:866-872 | serialising a stream writes what is unread if and only if nothing has been read |
| DataStreams.CDataStream.Write | src/hserialize.h:859-864 | appends to the byte queue |
| DataStreams.CDataStream.Read | src/hserialize.h:822-842 | takes a prefix of the byte queue, a short one padded with zeros |
| DataStreams.CDataStream.Rewind | src/hserialize.h:794-801 | puts back the bytes before the position, or refuses and changes nothing |
| DataStreams.CDataStream.Compact | src/hserialize.h:788-792 | keeps the byte queue and frees what was read |
| DataStreams.CDataStream.Insert | src/hserialize.h:725-748 | inserts at a place of the queue, the reuse of read room included |
| DataStreams.CDataStream.EraseOne | src/hserialize.h:751-766 | removes one byte of the queue |
| DataStreams.CDataStream.Erase | src/hserialize.h:768-786 | removes a range of the queue |
| DataStreams.CDataStream.Append | src/hserialize.h:689-693 | appends the other queue |
| DataStreams.CDataStream.SerializeInto | src/hserialize.h:866-872 | appends the whole vector to the other queue |
| DataStreams.CDataStream.GetAndClear | src/hserialize.h:897-900 | hands over the queue and empties it |
| VarInt.Bijection | src/hserialize.h:186-206 | encoding and value are inverse to each other between all numbers and all well-formed byte strings |
| VarInt.ClosedSum | src/hserialize.h:189-192 | the value is the closed sum of the comment |
| VarInt.LengthLimit | src/hserialize.h:208-218 | which numbers need how many bytes, in both directions |
| VarInt.FitsTmp | src/hserialize.h:222-230 | every number below 256 to the size of its type fits the temporary array, whose length is (8 size + 6) / 7 |
| VarInt.WidthIs | src/hserialize.h:208-248 | an integer type has as many values as there are numbers of so many digits to the base 256 |
| VarInt.WidthValues | src/hserialize.h:208-248 | 2^8, 2^16, 2^32 and 2^64 for one, two, four and eight bytes |
| VarInt.CommentExamples | src/hserialize.h:201-206 | the bytes of the numbers in the comment; for 16511 and 65535 the comment is wrong |
| VarInt.TurnIsExact | src/hserialize.h:236-247 | cutting down to the type at every turn of the loop is cutting down once at the end |
| VarInt.RoomForDigit | src/hserialize.h:242-244 | after the shift the low seven bits are free, so or-ing in a digit is adding it |
| VarInt.NoOverflow | src/hserialize.h:236-248 | no shift on the way goes above the value read in the end |
| VarInt.ReadWritten | src/hserialize.h:220-248 | reading what was written gives the number back and stops right behind it |
| VarInt.WriteRead | src/hserialize.h:220-248 | writing what was read gives the bytes back if and only if their value fits the type |
| VarInt.GetSizeOfVarInt | src/hserialize.h:208-218 | the size announced is the number of bytes written |
| VarInt.FillTmp | src/hserialize.h:222-230 | the temporary array holds the encoding in reverse and is never overrun |
| VarInt.WriteVarInt | src/hserialize.h:220-234 | appends the encoding to the stream |
| VarInt.ReadVarInt | src/hserialize.h:236-248 | takes exactly one code off the stream and returns its value modulo the number of values of the type |
| CompactSize.ReadWritten | src/hserialize.h:111-183 | reading what was written gives the size back and stops right behind it; the size announced is right |
| CompactSize.WriteRead | src/hserialize.h:124-183 | writing what was read gives the bytes back if and only if the shortest form was used |
| CompactSize.Form | src/hserialize.h:104-153 | the marker of a size for its range, and the digits behind it, least significant first |
| CompactSize.SmallForm | src/hserialize.h:126-130 | a size below 253 is its own byte |
| CompactSize.ReadForm | src/hserialize.h:155-183 | every form, the shortest or not, is read as the number its bytes spell |
| Bytes.ToLEAt | src/hserialize.h:111-153 | byte i of a fixed-width integer is its digit for 256 to the power of i |
| Codec.RoundTrip | src/hserialize.h:365-570 | for every schema and value, decoding the encoding followed by anything gives the value and exactly what followed |
| Codec.Unambiguous | src/hserialize.h:365-570 | no two values or remainders have the same bytes |
| Codec.DecodeHasType | src/hserialize.h:379-570 | whatever the bytes, the result is a value of the schema: in range, maps and sets ascending without repetition |
| Codec.Normalises | src/hserialize.h:365-570 | reading, writing and reading again changes nothing, whatever was read first |
| Codec.DecodeRest | src/hserialize.h:379-570 | what a reader leaves is what stands behind the bytes it asked for |
| Codec.InsertKeepsAscending | src/hserialize.h:522-534 | insertion into a map keeps it ascending and adds nothing but the new element |
| Codec.InsertExact | src/hserialize.h:522-570 | a map or set that has the key stays as it is; otherwise the new element is put in and all others stay, in order |
| Codec.InsertAllExact | src/hserialize.h:522-570 | of the elements read exactly those are kept that are the first with their key, and every key read is there |
| Codec.Layout | src/hserialize.h:99-557 | where the bytes of a value are: digits, the byte of a truth value, lengths, the first component before the second, elements and entries in order |
| Codec.AnnouncedCut | src/hserialize.h:382 | the loop bound is the number announced up to multiples of 2^32 |
| Codec.AnyByteIsTrue | src/hserialize.h:101 | any byte but zero is read as true |
| Codec.SizeIsExact | src/hserialize.h:365-548 | the size computed before writing is the number of bytes written |
| CodecStream.WriteCompactSize | src/hserialize.h:124-153 | appends the form of module CompactSize |
| CodecStream.ReadCompactSize | src/hserialize.h:155-183 | takes off what module CompactSize reads |
| CodecStream.Serialize | src/hserialize.h:371-557 | appends exactly the specified encoding, for every schema |
| CodecStream.SerializeInts | src/hserialize.h:412-418 | one block write of numbers is the element-wise encoding |
| CodecStream.BlockIsMany | src/hserialize.h:435-449 | one read of n numbers delivers what n reads deliver, short reads included |
| CodecStream.DecodeManySplit | src/hserialize.h:435-467 | reading m + n elements is reading m and then n |
| CodecStream.UnserializeInts | src/hserialize.h:435-449 | the block-wise reader ends and equals the specified decoder |
| CodecStream.UnserializeElems | src/hserialize.h:451-467 | so does the reader that grows the vector by blocks |
| CodecStream.UnserializeSorted | src/hserialize.h:522-570 | so do the readers of maps and sets, whose results are described by `Codec.InsertAllExact` |
| CodecStream.Unserialize | src/hserialize.h:379-570 | the reader of every schema computes the specified decoder and leaves the rest in the stream |
| VectorGrowth.DeliversIff | src/hserialize.h:451-467 | a vector is delivered with every element as it was read if and only if none is announced, or an element is at most 5,000,000 bytes and the least multiple of the stride from the announced size on is below 2^32 |
| VectorGrowth.EndsIff | src/hserialize.h:451-467 | the reader ends if and only if none is announced, or an element is at most 5,000,000 bytes and the announced size plus the lowest bit of the stride is at most 2^32 |
| VectorGrowth.SmallInReach | src/hserialize.h:458-463 | every size that leaves room for one more stride below 2^32 is delivered |
| VectorGrowth.LargeVectors | src/hserialize.h:458-467 | for one-byte elements a size for which the reader never ends, and one for which it ends with elements lost |
| WorkerPool.StepInv | src/utils/summerworkermng.cpp:21-124 | every step keeps: FIFO, each taken job with one worker or finished once, ended threads balanced by ending jobs, no lost wakeup |
| WorkerPool.RunHistory | src/utils/summerworkermng.cpp:21-57 | the jobs a run records are those its events pushed, in order; signals sent and to come are as many as pushes; takes and ends are those of the events |
| WorkerPool.FromStart | src/utils/summerworkermng.cpp:21-57 | the same from an empty pool |
| WorkerPool.WakeupsNotLost | src/utils/summerworkermng.cpp:21-57 | while a thread waits, queued jobs <= awake threads looking for work + signals to come, which are the pushes less the signals sent |
| WorkerPool.NeverStuck | src/utils/summerworkermng.cpp:35-57 | where nothing can happen, the queue is empty or all threads have ended |
| WorkerPool.ShutdownReached | src/utils/summerworkermng.cpp:127-139 | if one ending job per thread was pushed, a pool at rest has no thread left |
| WorkerPool.ShutdownComplete | src/utils/summerworkermng.cpp:103-139 | when all have ended, every job pushed up to the last ending job ran exactly once, started in push order |
| WorkerPool.RunsEnd | src/utils/summerworkermng.cpp:35-124 | without pushes and unasked wakeups every run ends within a bound known in advance |
| ThreadStartup.StepInv | src/hthreadpool.cpp:21-163 | every step of parents and children keeps the state of the handshake, while no pool with children starts beside one that is still to hear from a child |
| ThreadStartup.SlotsAreSafe | src/hthreadpool.cpp:34-48 | in every run with no such start, no child reads a freed array, each holds its own pool and index, and all have when it is freed |
| ThreadStartup.WordsCounted | src/hmutex.cpp:116-139 | no word of a child is lost or taken twice |
| ThreadStartup.SleeperWillWake | src/hmutex.cpp:116-139 | the child a sleeping parent waits for can still go on |
| ThreadStartup.OverlapExact | src/hthreadpool.cpp:34-48 | after such a run a start can lead to a read of a freed array, with no further start, if and only if the pool has children and another is still to hear from a child |
| ThreadStartup.OverlapMisreads | src/hthreadpool.cpp:166-169 | every overlapping start can go wrong, in every state that can be reached |
| SingletonCreation.StepInv | src/detail/lazysingleton/staticsingletonholder_in.cpp:51-95 | every load, lock and store keeps the invariant of entries, caches and threads |
| SingletonCreation.MadeAtMostOnce | src/detail/lazysingleton/staticsingletonholder_in.cpp:67-82 | at most one call of `make` for a key returns, however often it throws, and one has if the entry has a pointer |
| SingletonCreation.OneObjectPerKey | src/detail/lazysingleton/staticsingletonholder_in.cpp:51-95 | any two calls that return for a key, through any caches and at any moments, return the same non-null pointer |
| SingletonCreation.CacheHoldsEntry | src/detail/lazysingleton/staticsingletonholder_in.cpp:51-56 | a cache that is not null holds its entry's pointer |
| SingletonCreation.DoneIsCached | src/detail/lazysingleton/staticsingletonholder_in.cpp:51-56 | a call that has returned has left its pointer in its cache |
| SingletonCreation.PointerStays | src/detail/lazysingleton/staticsingletonholder_in.cpp:67-82 | a pointer in an entry never changes |
| InstanceHolder.StepInv | src/detail/lazysingleton/lazysingleton_inl.h:26-62 | every step keeps the holder's invariant, and a living instance stays |
| InstanceHolder.OneInstance | src/detail/lazysingleton/lazysingleton_inl.h:26-62 | one instance is made at most, whatever constructors throw, and every `Get` that returns returns it |
| InstanceHolder.LivingHasInstance | src/detail/lazysingleton/lazysingleton_inl.h:49-62 | the state says living only with the instance in place |
| BufferPool.RegionInBlock | src/utils/rollfixedbuffer.cpp:127-140 | every item lies inside the block |
| BufferPool.RegionsDisjoint | src/utils/rollfixedbuffer.cpp:127-140 | no two items share a byte |
| BufferPool.NextItem | src/utils/rollfixedbuffer.cpp:127-140 | the items stand one behind the other, group by group |
| BufferPool.StepConserved | src/utils/rollfixedbuffer.cpp:102-124 | every pop and every return keeps each item in its own group's queue once, or out with one holder |
| BufferPool.GroupComplete | src/utils/rollfixedbuffer.cpp:44-124 | in every run the queued and the checked-out items of a group make up the group |
| BufferPool.RollFixBuffer.constructor | src/utils/rollfixedbuffer.cpp:44-75 | every group's queue holds its items in order |
| BufferPool.RollFixBuffer.Pop | src/utils/rollfixedbuffer.cpp:113-124 | hands out the oldest free item, refuses an unknown group |
| BufferPool.RollFixBuffer.PullBack | src/utils/rollfixedbuffer.cpp:102-110 | the item goes to the end of its own group's queue, and no other queue changes |
| BufferPool.RollFixBuffer.GetMemItem | src/utils/rollfixedbuffer.cpp:127-140 | the item's offset, inside the block; unknown items are refused |
| BufferPool.RollFixBuffer.Write | src/utils/rollfixedbuffer.cpp:21-31 | writes into its own item and changes no other; data as long as the item is refused |
| CeilPow2.Ceil2Pow2 | src/hutil.cpp:42-53 | the least power of two not below x for 1 <= x <= 2^63, zero otherwise |
| CeilPow2.SmearedFills | src/hutil.cpp:45-50 | after smearing all bits below the highest are set, and the highest is where it was |
| CeilPow2.PowersDouble | src/hutil.cpp:42-53 | the powers compared with are 1, 2, 4, ... without wrap-around |
| UrlEncodes.RoundTrip | crypto/urlencode.cpp:33-82 | decoding the encoding gives the text back if and only if it has no `+` and no `%` that was declared safe |
| UrlEncodes.EncodingIsWellEscaped | crypto/urlencode.cpp:33-113 | an encoding is recognised if and only if `%` was not declared safe or the text itself would be |
| UrlEncodes.HexRoundTrip | crypto/urlencode.cpp:13-30 | the two digits of a byte decode to that byte |
| UrlEncodes.DigitValue | crypto/urlencode.cpp:13-30 | every digit, upper or lower case, has the value of its place |
| UrlEncodes.EveryDigit | crypto/urlencode.cpp:20-30 | every letter or digit is one of those digits |
| UrlEncodes.EscapeValue | crypto/urlencode.cpp:72-76 | an escape of two hexadecimal digits of either case is the byte they spell |
| UrlEncodes.PlainValue | crypto/urlencode.cpp:69-79 | outside escapes `+` is a space and every other byte itself |
| UrlEncodes.BadEscape | crypto/urlencode.cpp:20-30 | a `%` that two letters or digits do not follow fails an assertion |
| UrlEncodes.EncodedByte | crypto/urlencode.cpp:39-57 | unreserved and safe bytes are kept, a space becomes `+`, any other byte `%` and two upper-case digits |
| UrlEncodes.DecodesNoLonger | crypto/urlencode.cpp:33-82 | decoding an encoding never gives more bytes than the text has |
| UrlEncodes.Alphabet | crypto/urlencode.cpp:41-56 | an encoding has only unreserved and safe bytes, `%` and `+` |
| UrlEncodes.Encode | crypto/urlencode.cpp:33-60 | the loop computes the encoding |
| UrlEncodes.Decode | crypto/urlencode.cpp:63-82 | the loop computes the decoding; a failed assertion is a result of its own |
| UrlEncodes.IsUrlEncode | crypto/urlencode.cpp:85-113 | true if and only if two upper-case letters or digits follow every `%` |
| StrSplits.JoinedPieces | src/hstr.cpp:9-25 | the pieces with the separator after each spell the string and one separator more |
| StrSplits.JoinUndoesSplit | src/hstr.cpp:281-297 | joining what `Split` found gives the string back if and only if it is empty or the separator has one character; a longer one stays but for its last character |
| StrSplits.PiecesAreFree | src/hstr.cpp:9-25 | no piece contains the separator |
| StrSplits.PiecesAreLeftmost | src/hstr.cpp:14-18 | behind each piece but the last stands the first occurrence of the separator in what is left |
| StrSplits.SplitUndoesJoin | src/hstr.cpp:9-25 | `Split` accepts a joined text and finds its pieces again if and only if there are some, not just one empty piece, and none contains the separator |
| StrSplits.Split | src/hstr.cpp:9-25 | appends the pieces; errors for empty strings and a start past the end |
| StrSplits.V2Str | src/hstr.cpp:281-297 | the pieces with separators, without the last character |
| StrSplits.RemovedIsFree | src/hstr.cpp:272-279 | no occurrence is left, also none the removals bring about; nothing changes if and only if there was none |
| StrSplits.FlatPieces | src/hstr.cpp:272-279 | for one character, removing is splitting and gluing together |
| StrSplits.Remove | src/hstr.cpp:257-270 | takes out the first occurrence, or refuses |
| StrSplits.Removes | src/hstr.cpp:272-279 | removes until nothing is found, and ends |

## Left out

- DelayQueues.DelayQueue.HandleAlarm: the method is for callbacks that schedule nothing; callbacks that add, update or remove tasks are covered by `TaskRuns` and by `EventLoop.StepServesAll`, where any events may stand between two firings.
- DelayQueues.DelayQueue.Synchronize: the elapsed time has to stay below what is left of the horizon (292 billion years at the start); beyond it the loop does not end, see `DeltaLists.SynchronizeEnds`. This goes for the operations that synchronise first, too.
- DelayQueues.DelayQueue.RemoveEntry: removing the queue itself, or an entry of another queue, is excluded; a new entry may be removed if twice its delay does not overflow.
- EventLoop.SingleStep: the method is for handlers and triggers that leave the queue alone, others are covered by `EventLoop.StepServesAll`; `select` failing aborts the program.
- HandlerLists.CallHandlers: the method is for procedures that leave the list alone; procedures that change it are followed in `IteratorPass`.
- IteratorPass.PassVisitsOriginals: a callback that deletes the descriptor the cursor already stands on is excluded, since the source follows a freed node then, see `IteratorPass.CursorStaysIff`.
- SpscRing.FirstInFirstOut: memory is sequentially consistent; the acquire and release orders of the two indices are not modelled, nor object lifetimes (the slot destroyed is not the slot read), `FrontPtr` and the destructor.
- DataStreams.CDataStream.Read: for reads whose 32-bit end comes out right; what the others do is in `DataStreams.ReadIff`.
- CodecStream.Unserialize: the bytes asked for stay below 2^32, for the same reason; announced sizes can be reached by the strides of their vectors, see `VectorGrowth.DeliversIff`; and every type takes at least one byte.
- VarInt.WriteVarInt: unsigned types only; on signed ones the shift by seven is not a division.
- Codec.RoundTrip: integers are bit patterns in little-endian order; floating point is left out, and so are vectors of `bool`, which have no block of memory; fundamental vectors hold integers.
- Codec.InsertAllExact: for comparisons that are strict weak orders, as the containers of the language demand.
- BufferPool.RollFixBuffer.PullBack: an item that is not out, returned a second time, is excluded: the source would queue it twice.
- BufferPool.RollFixBuffer.Write: a reference is a value and the lengths are a map in the pool; negative ids and lengths, which the source lets pass, are left out.
- BufferPool.RollFixBuffer.Pop: waiting for an item is the precondition that one is there; the wait loop is that of `WorkerPool`.
- UrlEncodes.IsUrlEncode: strings shorter than two bytes are excluded, since the source reads outside them.
- UrlEncodes.Encode: letters and digits are those of the C locale.
- ThreadStartup.SlotsAreSafe: for runs that keep the condition on starts; without it the property fails, see `ThreadStartup.OverlapExact`. A child reads its two fields in one step.
- `CSizeComputer`: the size it counts is the number of bytes that serialising writes, for which see `Codec.SizeIsExact`.
- The real clock, `select`, mutexes, condition variables and threads: clock readings are parameters, going back included, and the others are atomic steps.
- `Timeval` multiplication, the destructors of the delay queue and the handler set, and `ChangeHandler`, which can create duplicates.
- `CDataStream::ignore`, which clears the bytes without the position at exactly the remaining length; `resize`, `reserve`, `CAutoFile`.
- `PopJobs`, `HasData`, `MultiThreadJobMng` and the status fields of threads.
- `GetExisting` of the singleton holder, which stores into the cache only when there is nothing to store.
- `HStr::Replaces` and the other string functions, trigger slots, logging, configuration, sockets, databases and images.
