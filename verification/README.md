# Verification of the AK24 kernel

A Dafny model of ten components of the kernel, with proofs of what they promise.  Each
component is modelled twice where the source changes things in place: as functions on
values, about which the theorems are proved, and as methods or classes with the source's
loops, fields and links, proved against those functions.  `dafny verify dfyconfig.toml`
checks everything.

## Components

**The ring buffer** (`RingMachine`, `RingProof`, `RingRuns`, `RingCalls`, `RingBuffer`).
The lock-free queue as a machine of atomic steps: any number of threads push, pop and count,
and a schedule says which one moves.  The invariant ties head, tail, the sequence number of
each slot and the threads in flight together; from it follow first-in-first-out order, that
nothing is lost, that no two threads own a slot at once, and when calls may be refused. A
call that loses a race goes on with its own item, ends only with its own return or refusal,
and ends in seven steps once the others stand still. Findings: on one slot "published at p"
and "free for p + 1" are the same number, so the queue is correct exactly from two slots up;
`ak_arbuff_clear` numbers slot i with head + i, so the ring is usable after it exactly when
head is a multiple of the capacity, and otherwise the next push spins; and the size of the
slots in bytes is computed in 64 bits, so a new ring has its slots exactly for requests up
to 2^59, above which the size wraps to 0.

**The thread pool** (`PoolMachine`, `PoolProof`, `PoolRuns`, `PoolCalls`, `PoolQueue`).
Each critical section is a step; workers and waiters can be running, blocked or woken, also
for no reason.  Proved for every interleaving: each accepted task runs once, in the order of
acceptance, a wait returns only when everything has run, a shutdown drains, and no wakeup is
lost; and just when a task is refused, a worker sleeps and a wait returns.

**Admission control** (`Admission`, `AdmissionServes`, `IpTrackers`).  One acceptor tests a
limit in one critical section and counts in a later one while workers count down; the limits
hold all the same, on every exit path, and who is turned away and who comes to be handled is
told by the connections in flight.  The rate limit depends on the clock: it holds in every
run exactly if no reading of the clock comes back after another one; a clock that does come
back lets one connection too many pass, whatever the limit.

**Receiving** (`RecvUntil`, `Backpressure`), in the same file.  `ak_tcp_recv_until` reads up
to a delimiter; what other threads consume between any two looks at `buffered_bytes`, and
when the connection dies, is up to the environment.  On a connection that lives the outcome
and the bytes depend on the stream alone, not on how it is cut or on what others consume,
exactly if the limit on buffered bytes leaves room for the bytes that settle the call: up to
the end of the first delimiter or max_bytes, or all of the stream and one more.  Otherwise
the same stream is refused when its bytes come one by one and nobody consumes, and not when
others consume in time.  `Backpressure` takes every critical section as a step: the limit
holds in every state exactly if a connection has at most one receiver.

**The arena** (`ArenaModel`, `ArenaProof`, `ArenaCalls`, `ArenaHeap`).  A bump allocator
over a chain of blocks with nested snapshots.  A pointer is a block number and an offset;
that realloc, which compares addresses, decides alike is a theorem.  Sizes are computed
modulo 2^64, and an allocation is sound exactly if the sum it depends on does not wrap: in
an arena whose first byte is taken, 2^64 - 1 bytes are granted, and the next byte is the
first one again. `total_allocated` is not the size of the chain: an allocation that opens a
new block after a reset or a restore cuts off the blocks that were kept, and the total goes
on counting them.  It is the size of the chain exactly in the runs where that has never
happened; one run where it has fills a block and one more, resets and asks for more than a
block.

**The hash table** (`MapModel`, `MapProof`, `MapShape`, `MapList`, `MapTable`, `MapIter`).
It refines a mathematical map for any hash; the hash is a function of the key and keys are
compared by equality.  Whether a larger bucket array can be had is a parameter.

**Paths** (`Paths`, `PathProof`), POSIX rules.  A path is the characters before its
terminator.  ".." on an empty stack is dropped, also in a relative path, so that the
normalised path leads where the path does, from every directory, exactly if the path is
absolute or never climbs above the directory it sets out from, and each component left is
short enough.  A component of 4096 characters or more loses its end: "/" and such a name
lead elsewhere once normalised.  The theorems on the normal form and on joining speak of the
components so cut.

**UTF-8** (`Utf8`, `Utf8Text`), against the encoder of section 3 and the grammar of section
4 of RFC 3629.  Which code points are combining marks is a parameter.

**Source locations** (`SourceLines`, `SourceProof`, `SourceWidth`).  A newline that is the
last byte of the file begins no line.  Offsets are kept in 32 bits.  All offsets have the
right locations exactly if every line starts below 4 GiB and no column reaches 2^32; in a
file of 2^32 - 1 letters, a newline and a letter the end of the first line is said to be in
the second, and without the newline in column 0.  All lines are read right exactly if every
one starts below 4 GiB, and the file ends there too or its last line has no text.

**The scanner** (`Scanner`, `ScannerProof`, `ScannerAnywhere`).  The header says that a
failed read leaves the position at the error; the code leaves it where it was, which is
where the error is exactly at the end of the buffer and before a stop byte; of "1a" the
error is at the second byte. A digit among the stop bytes, which the header does not rule
out, lets a sign on its own count as an integer: every ASCII buffer is read right exactly if
no stop byte is a digit or both signs are stop bytes, and the header rules the signs out.
Which code points above ASCII are digits is a parameter.

**Forms** (`Forms`, `FormNodes`).  The header says that the affordances of a form include
those an affect also includes (forms.h:377-392); the code keeps that list and never looks at
it.  A list of bytes whose affect "map" also includes "filter" does not afford "filter".
The affordances are those the header promises exactly if every included name is itself the
name of an affect of the form, or structural.  Structural equality looks through one alias
only, so a form with an alias of an alias is not even equal to itself.  `FormNodes` has the
nodes themselves: a clone is a tree of new ones that shares the affects and the names of
fields with its source.

`Bits` holds the masks and shifts used by several components, on natural numbers.

## Model

| member | source | states |
|---|---|---|
| RingBuffer.NextPowerOf2 | kernel/arbuff/src/arbuff.c:5-16 | rounds a request up to the least power of two that is not below it, for every request up to 2^63; above that the result wraps to 0 |
| RingMachine.IndexIsMod | kernel/arbuff/src/arbuff.c:69-69 | masking a position with capacity - 1 is the remainder of dividing it by the capacity |
| RingProof.InitInv | kernel/arbuff/src/arbuff.c:30-46 | a new ring satisfies the invariant: counters in order, one sequence number allowed for each position of the window, published values kept, one owner for each claimed position |
| RingProof.PushCasStep | kernel/arbuff/src/arbuff.c:73-78 | claiming a position for a push by compare-and-swap keeps the invariant |
| RingProof.PushStoreStep | kernel/arbuff/src/arbuff.c:84-85 | storing the value into the claimed slot keeps the invariant |
| RingProof.PushPublishStep | kernel/arbuff/src/arbuff.c:86-86 | publishing a pushed position by storing its sequence number keeps the invariant |
| RingProof.PopCasStep | kernel/arbuff/src/arbuff.c:103-108 | claiming a position for a pop by compare-and-swap keeps the invariant |
| RingProof.PopPublishStep | kernel/arbuff/src/arbuff.c:114-117 | handing the slot over to the position one lap later keeps the invariant |
| RingProof.PushLook | kernel/arbuff/src/arbuff.c:68-81 | what a push reads in the slot of a head it loaded earlier: equal only if the slot is free for it, smaller exactly if the pop one lap behind is unpublished |
| RingProof.PopLook | kernel/arbuff/src/arbuff.c:98-111 | what a pop reads in the slot of a tail it loaded earlier: equal only if published, smaller exactly if the push of that position is unpublished |
| RingProof.StepInv | kernel/arbuff/src/arbuff.c:61-151 | every atomic step of every thread, in push, pop or count, keeps the invariant on two slots or more |
| RingRuns.RunInv | kernel/arbuff/src/arbuff.c:61-151 | the invariant holds in every state of every schedule of any number of threads |
| RingRuns.OneOwnerPerSlot | kernel/arbuff/src/arbuff.c:73-116 | in no state of any schedule on two slots or more do two threads own the same slot, be they pushing or popping |
| RingRuns.RunIsFifo | kernel/arbuff/src/arbuff.c:61-120 | in every schedule on two slots or more pushes and pops claim positions in order, no position is returned twice, and what is returned for a position is the item an earlier push claimed it with |
| RingRuns.NothingLost | kernel/arbuff/src/arbuff.c:61-120 | once no call is under way, exactly the positions below tail have been returned and each position from tail to head holds the item it was claimed with |
| RingRuns.ReturnedByItsClaimer | kernel/arbuff/src/arbuff.c:104-119 | the thread that returns the item of a position claimed that position earlier |
| RingRuns.PushRefusal | kernel/arbuff/src/arbuff.c:79-81 | a push fails only while the pop one lap behind the head it loaded is unpublished |
| RingRuns.PopRefusal | kernel/arbuff/src/arbuff.c:109-111 | a pop fails only while the push at the tail it loaded is unpublished |
| RingRuns.CountBound | kernel/arbuff/src/arbuff.c:138-151 | a count never exceeds the capacity, however its two loads race with other calls |
| RingRuns.CapacityOneFails | kernel/arbuff/src/arbuff.c:71-86 | with one slot there is a schedule that returns an item its position was not claimed with |
| RingRuns.FifoIffTwoSlots | kernel/arbuff/src/arbuff.c:61-120 | every schedule is first in, first out exactly when the ring has two slots or more |
| RingCalls.EventsFollowCalls | kernel/arbuff/src/arbuff.c:61-151 | every event belongs to the call its thread is in: a push claims for the item it was called with or is refused, once it has claimed it returns that position, and so a pop; a thread is idle exactly when it is in no call |
| RingCalls.ClaimsItsItem | kernel/arbuff/src/arbuff.c:73-85 | who claims a position for an item has called push with that item while idle, and has not been idle since, whatever races it has lost |
| RingCalls.ReturnsItsClaim | kernel/arbuff/src/arbuff.c:73-119 | who returns a position has claimed it in the same call |
| RingCalls.EndsAlone | kernel/arbuff/src/arbuff.c:61-120 | in every reachable state of two slots or more any call comes to its end in seven steps of its thread, if the others stand still |
| RingCalls.CountIsDifference | kernel/arbuff/src/arbuff.c:138-151 | a count is head at a moment of the call less tail at its end, 0 if that is negative |
| RingBuffer.SoloPushIsMachine | kernel/arbuff/src/arbuff.c:61-89 | the steps of a push that runs alone add up to one push of the sequential form, with its result |
| RingBuffer.SoloPopIsMachine | kernel/arbuff/src/arbuff.c:91-120 | the steps of a pop that runs alone add up to one pop of the sequential form, with its result |
| RingBuffer.SoloIsQueue | kernel/arbuff/src/arbuff.c:61-120 | used alone the ring is a bounded queue: a push appends and fails exactly when full, a pop takes the oldest item and fails exactly when empty |
| RingBuffer.ClearSettlesIff | kernel/arbuff/src/arbuff.c:183-196 | clearing leaves an empty, usable ring exactly when head is a multiple of the capacity |
| RingBuffer.PushAfterClear | kernel/arbuff/src/arbuff.c:183-196 | after a clear a push running alone returns exactly when head is a multiple of the capacity; otherwise it spins |
| RingBuffer.SlotsInIs | kernel/arbuff/src/arbuff.c:30-30 | the wrapped byte count has room for all slots up to a capacity of 2^59, and for none above |
| RingBuffer.ArBuff.New | kernel/arbuff/src/arbuff.c:18-47 | NULL exactly for capacity 0, otherwise of the least power of two that is enough, 0 above 2^63; an empty ring with its slots exactly for requests up to 2^59, no slots above |
| RingBuffer.ArBuff.Push | kernel/arbuff/src/arbuff.c:61-89 | the slots and head are changed as the sequential push says; the item is appended unless the ring is full |
| RingBuffer.ArBuff.Pop | kernel/arbuff/src/arbuff.c:91-120 | the slots and tail are changed as the sequential pop says; the oldest item is returned, NULL exactly when there is none |
| RingBuffer.ArBuff.Count | kernel/arbuff/src/arbuff.c:138-151 | the number of items in the ring |
| RingBuffer.ArBuff.Clear | kernel/arbuff/src/arbuff.c:183-196 | tail and every slot are reset as the source resets them; the ring is usable afterwards exactly when head is a multiple of the capacity |
| PoolProof.EnqueueInv | kernel/threads/src/threads.c:328-379 | accepting or refusing a task keeps the invariant: counters, wakeups, and for each task how much of its life is over |
| PoolProof.EnterInv | kernel/threads/src/threads.c:203-220 | the section in which a worker sleeps, leaves or takes a task keeps the invariant |
| PoolProof.TaskMoveInv | kernel/threads/src/threads.c:147-170 | each stage of running a task outside the lock keeps the invariant |
| PoolProof.FinishInv | kernel/threads/src/threads.c:229-237 | the section that counts a worker out and broadcasts completion keeps the invariant |
| PoolProof.CallFreeInv | kernel/threads/src/threads.c:438-442 | the shutdown broadcast keeps the invariant |
| PoolProof.StepInv | kernel/threads/src/threads.c:199-241 | every move of every worker, waiter, producer and of the caller of free keeps the invariant |
| PoolRuns.RunInv | kernel/threads/src/threads.c:199-460 | the invariant holds in every state of every interleaving |
| PoolRuns.ExactlyOnce | kernel/threads/src/threads.c:147-241 | the events of an accepted task are the beginning of one story: accepted, dequeued, begun, run, completed, called back, freed, each once and in that order; a task nobody accepted has no events |
| PoolRuns.FifoOrder | kernel/threads/src/threads.c:176-193 | tasks leave the queue in the order they were accepted |
| PoolRuns.WaitIsQuiescent | kernel/threads/src/threads.c:381-395 | when a wait returns every task accepted so far has its whole story behind it |
| PoolRuns.ShutdownDrains | kernel/threads/src/threads.c:433-460 | once the workers are joined the queue is empty, nothing is active and every accepted task has run; the clean-up loop never finds a task |
| PoolRuns.StuckIsDrained | kernel/threads/src/threads.c:199-241 | no lost wakeup and no deadlock: when no worker can move there is no task left, no waiter is left blocked and the join ends |
| PoolRuns.WorkDecreases | kernel/threads/src/threads.c:199-241 | every move of a worker that is awake lowers the work left |
| PoolRuns.WorkersDrain | kernel/threads/src/threads.c:199-241 | after any run the workers on their own make at most as many moves as there is work, in any order, and in a run that ends where none can move every accepted task has its whole story |
| PoolCalls.EnqueueRefusedIff | kernel/threads/src/threads.c:336-345 | in every run a task is refused exactly once free has been called, and while as many tasks are accepted and not dequeued as a non-zero limit allows; otherwise it is the next accepted |
| PoolCalls.EnqueueWakesOne | kernel/threads/src/threads.c:374-375 | an accepted task wakes one sleeping worker if there is one, and changes no other |
| PoolCalls.WorkerLooks | kernel/threads/src/threads.c:203-220 | a worker at the top of its round takes the oldest task, or sleeps if there is none, or leaves if there is none and free has been called |
| PoolCalls.WaitReturnsIff | kernel/threads/src/threads.c:381-399 | a wait returns at its first look exactly if no task is queued and no worker has one in hand or has yet to report it done, and sleeps otherwise |
| PoolCalls.FinishWakesIff | kernel/threads/src/threads.c:228-238 | a worker that reports its task done wakes a blocked waiter exactly if no task is queued and no other worker has one in hand |
| PoolCalls.StatusIs | kernel/threads/src/threads.c:438-453 | in every run the state of the pool is RUNNING until free is called, SHUTTING_DOWN until the workers are joined, then TERMINATED |
| PoolCalls.FreeEnds | kernel/threads/src/threads.c:444-460 | once all workers have left, free comes to its end |
| PoolQueue.ThreadPool.Enqueue | kernel/threads/src/threads.c:334-378 | the linked queue and the counters are changed as the enqueue section says; where queue_size is its length it is refused exactly when the pool is not running or the queue is full, and else gets one more node, at its end |
| PoolQueue.ThreadPool.DequeueTask | kernel/threads/src/threads.c:176-193 | the first node is unlinked and its task returned; nothing, and no change, if the list is empty |
| PoolQueue.ThreadPool.Enter | kernel/threads/src/threads.c:206-220 | the fields under the lock change as the section at the top of a round says |
| PoolQueue.ThreadPool.Finish | kernel/threads/src/threads.c:229-237 | active_count goes down, and the broadcast is due exactly when the queue is empty and nothing is active |
| PoolQueue.ThreadPool.Shutdown | kernel/threads/src/threads.c:439-440 | of what the mutex guards only the state changes |
| Admission.AcceptorInv | kernel/tcp/src/tcp.c:903-1150 | every step of the acceptor, on every exit path, keeps the counters equal to the connections in flight and within their limits |
| Admission.WorkerInv | kernel/tcp/src/tcp.c:854-901 | both steps in which a worker lets a connection go keep them so |
| Admission.StepInv | kernel/tcp/src/tcp.c:834-1149 | every step of acceptor, workers and the caller of stop keeps the invariant |
| Admission.LimitsHold | kernel/tcp/src/tcp.c:952-1003 | in every interleaving active_connections and each tracker stay within their non-zero limits and equal the connections in flight |
| Admission.NoMaskedDecrement | kernel/tcp/src/tcp.c:838-840 | no guard hides a missing increment: a counter about to be decremented is positive |
| Admission.DrainIsComplete | kernel/tcp/src/tcp.c:1419-1437 | a drain that ends without timing out leaves no connection and every tracker at zero, and a caller still blocked has one to wait for |
| Admission.RateHolds | kernel/tcp/src/tcp.c:984-996 | while no reading of the clock comes back after another one at most connection_rate_limit connections of an address pass the rate stage with one timestamp |
| Admission.ReturnPassesTooMany | kernel/tcp/src/tcp.c:984-996 | for every limit and any two timestamps there is a run, reading the first as often as the limit allows, then the second, then the first, in which one connection more than the limit passes with the first |
| Admission.RateHoldsIff | kernel/tcp/src/tcp.c:984-996 | for every limit and every clock: the rate limit holds in all runs on it exactly if no reading comes back after another one |
| AdmissionServes.AcceptorTakesUp | kernel/tcp/src/tcp.c:906-950 | while the server runs the acceptor takes up a connection that comes in; after a stop it takes up none |
| AdmissionServes.LimitRejectsIff | kernel/tcp/src/tcp.c:952-968 | in every run a connection is turned away for the limit exactly while as many as a non-zero max_connections are in flight |
| AdmissionServes.TrackRejectsIff | kernel/tcp/src/tcp.c:971-1020 | it is turned away for its address exactly while as many from there as a non-zero limit are in flight, and else for the rate exactly if as many have passed at this reading since one passed at another, on any clock |
| AdmissionServes.GrantedIsHandled | kernel/tcp/src/tcp.c:952-1149 | a connection that none of the limits stands against and that is granted all it asks for comes into the hands of a worker, and the acceptor goes on |
| AdmissionServes.RefusedLeavesNothing | kernel/tcp/src/tcp.c:1022-1149 | a connection refused by on_connect, or without a context or a worker, is in nobody's hands and counted nowhere when the acceptor goes on |
| AdmissionServes.WorkerLetsGo | kernel/tcp/src/tcp.c:854-901 | a worker lets its connection go in two sections, detached or not |
| AdmissionServes.StopStops | kernel/tcp/src/tcp.c:1405-1417 | a stop turns running off, and the acceptor stops at its next look |
| AdmissionServes.DrainLooks | kernel/tcp/src/tcp.c:1419-1437 | once the acceptor has stopped a draining stop is through exactly if no connection is in flight, and sleeps otherwise |
| AdmissionServes.LastOneWakes | kernel/tcp/src/tcp.c:877-884 | letting the last connection go wakes it |
| AdmissionServes.StopGivesUp | kernel/tcp/src/tcp.c:1419-1437 | a stop that does not drain, or whose wait times out, ends without having seen the server empty |
| IpTrackers.IpTrackerList.Find | kernel/tcp/src/tcp.c:804-814 | the node of an address, none exactly if the list has no tracker for it |
| IpTrackers.IpTrackerList.GetOrCreate | kernel/tcp/src/tcp.c:816-832 | the tracker of an address, pushed onto the list with zero counts if it was not there; no other tracker changes |
| IpTrackers.IpTrackerList.Track | kernel/tcp/src/tcp.c:971-1003 | the per-address section changes the list as the specification says and gives its verdict |
| IpTrackers.IpTrackerList.Decrement | kernel/tcp/src/tcp.c:834-842 | one address counts one connection less, if it counts any |
| RecvUntil.FirstEndIsFirst | kernel/tcp/src/tcp.c:391-398 | the end that is computed is that of the first place the delimiter occurs, and there is none exactly if it does not occur |
| RecvUntil.Search | kernel/tcp/src/tcp.c:391-398 | the comparison loop finds the end of the first occurrence |
| RecvUntil.Receive | kernel/tcp/src/tcp.c:362-485 | outcome, bytes handed over, bytes taken and buffered_bytes are those of the recursion over rounds about which the following rows speak; an empty delimiter is refused, a close before any byte gives NULL |
| RecvUntil.RecvOwes | kernel/tcp/src/tcp.c:387-485 | a match is the stream up to and including the first delimiter; refused for length, for the full buffer or by an error it has no delimiter within what was taken; never more than max_bytes are taken |
| RecvUntil.RecvBounded | kernel/tcp/src/tcp.c:408-476 | whatever others consume before and after each look, buffered_bytes ends within its non-zero limit |
| RecvUntil.BytesAreCounted | kernel/tcp/src/tcp.c:408-476 | buffered_bytes at the end and what others have consumed in the rounds of the call are at least what was counted before and has been taken since, with equality if nobody consumes more than is counted |
| RecvUntil.RoundUnsettled | kernel/tcp/src/tcp.c:407-472 | a round that does not find the call settled ends it when the connection is dead or closed, the buffer full or recv fails, and otherwise reads as much as recv gives and a chunk, max_bytes and the limit allow |
| RecvUntil.MatchIff | kernel/tcp/src/tcp.c:387-477 | on a connection that lives, unless the buffer limit is hit: a match exactly if the stream holds a delimiter that ends within max_bytes, else too long exactly if max_bytes have come, else all of the stream |
| RecvUntil.NeverFull | kernel/tcp/src/tcp.c:414-427 | the buffer limit is not hit if there is none, if it has room for the bytes that settle the call, or if others consume everything before each look, be the limit 1 |
| RecvUntil.OneByOneIsFull | kernel/tcp/src/tcp.c:414-427 | without that room the limit is hit where the bytes come one by one and nobody consumes |
| RecvUntil.StreamDecidesIff | kernel/tcp/src/tcp.c:387-477 | every call on a connection that lives has the outcome the stream decides, however it is cut and whatever others consume, exactly if there is no limit or it has room for the bytes that settle the call |
| RecvUntil.CutsDoNotMatterIff | kernel/tcp/src/tcp.c:387-477 | any two such calls have the same outcome and the same bytes exactly under the same condition |
| RecvUntil.CutsDoNotMatter | kernel/tcp/src/tcp.c:387-477 | so do two calls with different limits and consumers, each with that room or with consumers that keep up |
| RecvUntil.MatchesAgree | kernel/tcp/src/tcp.c:387-477 | on any two connections, dying or not, two matches have the same bytes, and where one call matches the other does not refuse for length |
| RecvUntil.MatchEndsAtDelimiter | kernel/tcp/src/tcp.c:393-395 | a match is a prefix of the stream, ends with the delimiter and contains it nowhere else |
| Backpressure.RunInv | kernel/tcp/src/tcp.c:408-476 | over any run of looks, additions and consumption by any threads, what one receiver may still add fits under the limit |
| Backpressure.TwoOverrun | kernel/tcp/src/tcp.c:413-476 | two receivers that both look before either adds take buffered_bytes one past any limit |
| Backpressure.BoundIffOneReceiver | kernel/tcp/src/tcp.c:281-476 | buffered_bytes stays within its non-zero limit in every state of every run exactly if the connection has at most one receiver |
| Backpressure.BytesAreCounted | kernel/tcp/src/tcp.c:281-476 | over any run with any receivers, buffered_bytes and the bytes consumed are at least the bytes added, with equality if nobody consumes more than is counted |
| Backpressure.LookGrants | kernel/tcp/src/tcp.c:413-441 | a look is refused exactly while the count is at a non-zero limit; otherwise the receiver may add what it wants, a chunk or what the limit leaves, whichever is least |
| Backpressure.ReceiverReturns | kernel/tcp/src/tcp.c:454-476 | a receiver that has added, or has failed, may look anew |
| Bits.AlignUpLeastMultiple | kernel/arena/src/arena.c:31-33 | for a power-of-two alignment align_up is the least multiple that is not below the value |
| Bits.AlignUpAtLeast | kernel/arena/src/arena.c:134-137 | for every alignment from 1 up align_up does not go below the value, as the sizing of a large block needs, exactly if its sum does not wrap |
| Bits.PowerOfTwoTest | kernel/arena/src/arena.c:118-121 | the test a & (a - 1) == 0 accepts exactly the powers of two among positive numbers |
| ArenaProof.AllocServes | kernel/arena/src/arena.c:113-161 | an allocation fails exactly for size 0 or an alignment that is not a power of two; otherwise it is aligned room past everything used before, exactly if no sum it depends on wraps |
| ArenaCalls.AllocTakes | kernel/arena/src/arena.c:113-161 | an allocation that fits is at the next aligned offset of the current block if it has room there, with no more used than asked, and else at the start of a new block of the usual size or the multiple that is enough |
| ArenaCalls.ValidAlignIff | kernel/arena/src/arena.c:118-121 | the alignments taken are the powers of two |
| ArenaProof.HugeAllocOverlaps | kernel/arena/src/arena.c:123-157 | a byte, 2^64 - 1 bytes and a byte are all granted, the last at the place of the first |
| ArenaProof.CallocExact | kernel/arena/src/arena.c:163-180 | the wrapped product is accepted exactly when the true product fits in 64 bits |
| ArenaProof.ReallocInv | kernel/arena/src/arena.c:182-224 | every branch of realloc, shrinking, growing in place and moving, keeps live allocations disjoint and inside their blocks |
| ArenaCalls.ReallocStays | kernel/arena/src/arena.c:187-199 | to no more than it has an allocation keeps its place, to nothing it gives NULL, and the arena does not change |
| ArenaCalls.ReallocGrows | kernel/arena/src/arena.c:201-214 | the last allocation of the current block grows where it is if there is room, by just what is asked |
| ArenaCalls.ReallocMoves | kernel/arena/src/arena.c:216-223 | any other gets what an allocation of its new size gets |
| ArenaProof.GrownLiesIff | kernel/arena/src/arena.c:204-214 | what realloc has grown in place lies in the used part of its block exactly if the sum in its test does not wrap |
| ArenaProof.AddressTest | kernel/arena/src/arena.c:204-208 | wherever the blocks lie in memory, the addresses realloc compares are equal for a live allocation exactly if it is the last one in the current block |
| ArenaProof.RestoreInv | kernel/arena/src/arena.c:255-291 | restoring a snapshot keeps the invariant and brings total_used back to what it was |
| ArenaCalls.RestoreIgnores | kernel/arena/src/arena.c:262-276 | a mark of a block that is not in the chain restores nothing |
| ArenaCalls.ResetFreesAll | kernel/arena/src/arena.c:226-239 | after a reset every block is there, empty, the first is current and total_used is 0; total_allocated is as it was |
| ArenaCalls.ResetStartsOver | kernel/arena/src/arena.c:226-239 | the next allocation that fits the first block is at its start |
| ArenaProof.DoInv | kernel/arena/src/arena.c:113-291 | every operation keeps the invariant of the arena, of the live allocations and of the nested snapshots |
| ArenaProof.ArenaIsSound | kernel/arena/src/arena.c:113-291 | over every run whose sums do not wrap live allocations are pairwise disjoint, lie in the used part of their block on their alignment, blocks past the current one are empty, and total_used is the sum over the chain |
| ArenaProof.RestoreBringsBack | kernel/arena/src/arena.c:241-291 | taking a snapshot, doing anything that leaves it alone and restoring it gives back the live set, total_used, the current block and its fill |
| ArenaProof.AllocatedIsSizeIff | kernel/arena/src/arena.c:139-147 | after any run total_allocated is the size of the chain exactly if no operation of it opened a new block while others followed the current one |
| ArenaProof.DriftingRunDrifts | kernel/arena/src/arena.c:139-147 | for every block size below 2^63 a run of three allocations and a reset after which total_allocated is one block more than the chain |
| ArenaHeap.Arena.New | kernel/arena/src/arena.c:70-94 | NULL exactly for block size 0, otherwise an arena of one empty block |
| ArenaHeap.Arena.AllocAligned | kernel/arena/src/arena.c:113-161 | the linked blocks and totals change as the specification says, for all arguments |
| ArenaHeap.Arena.Calloc | kernel/arena/src/arena.c:163-174 | the product is tested and allocated as the specification says, for all arguments |
| ArenaHeap.Arena.Realloc | kernel/arena/src/arena.c:182-223 | the linked blocks and totals change as the specification says, for a NULL pointer too; the test for the last allocation is that of ArenaProof.AddressTest |
| ArenaHeap.Arena.Reset | kernel/arena/src/arena.c:226-239 | every linked block is emptied, the first one becomes current and total_used 0; nothing else changes |
| ArenaHeap.Arena.Snapshot | kernel/arena/src/arena.c:241-253 | the mark names the current block and its fill |
| ArenaHeap.Arena.Restore | kernel/arena/src/arena.c:255-291 | the chain is cut back to the mark; a mark whose block is NULL, renumbered or not in the chain changes nothing |
| MapProof.HomeIsModulo | kernel/map/src/map.c:122-124 | with a power-of-two number of buckets the mask picks the bucket hash % nbuckets |
| MapProof.GetRefines | kernel/map/src/map.c:164-198 | looking a key up gives what the mathematical map gives, for any hash |
| MapProof.SetRefines | kernel/map/src/map.c:200-224 | setting a key updates the map; it fails, changing nothing, exactly when the key is new, the table full and the larger array refused; buckets stay a power of two and nnodes <= nbuckets |
| MapProof.RemoveRefines | kernel/map/src/map.c:226-235 | removing a key takes exactly that key out of the map and keeps the invariant |
| MapProof.ResizeRefines | kernel/map/src/map.c:132-162 | relinking every node keeps the map and the number of nodes, on success and on failure |
| MapProof.RefusedResize | kernel/map/src/map.c:147-161 | a resize whose array is refused leaves every chain as it was, order included |
| MapProof.ResizeGathers | kernel/map/src/map.c:136-160 | after a resize each bucket holds the entries that belong there, later buckets first, each in its old order |
| MapProof.FlatIsTheMap | kernel/map/src/map.c:237-259 | in iteration order every key of the map comes exactly once with its value, and nnodes is the size of the map |
| MapShape.SetShape | kernel/map/src/map.c:200-224 | setting an old key changes no order; a new one becomes the first of the bucket its hash leads to by division; the array grows only when there are as many nodes as buckets, to twice as many or to one |
| MapShape.RemoveShape | kernel/map/src/map.c:226-235 | removing takes one node out of its bucket and leaves all others in order |
| MapList.MoveAll | kernel/map/src/map.c:140-145 | the relinking loop moves the nodes of one list, reversed, onto the front of another |
| MapTable.HashMap.AddNode | kernel/map/src/map.c:126-130 | the node becomes the head of the bucket of its hash |
| MapTable.HashMap.GetRef | kernel/map/src/map.c:164-178 | the cell that points to the node of the key, and NULL exactly if the key is not there |
| MapTable.HashMap.Lookup | kernel/map/src/map.c:195-198 | the value of the key, NULL exactly if it is not there |
| MapTable.HashMap.DrainAll | kernel/map/src/map.c:136-146 | all nodes end on one list, from the last bucket to the first, each pushed onto the front |
| MapTable.HashMap.Rehash | kernel/map/src/map.c:132-162 | the buckets hold what the specification of resize says, whether or not the array is granted |
| MapTable.HashMap.Put | kernel/map/src/map.c:200-224 | the table changes as the specification of set says |
| MapTable.HashMap.Delete | kernel/map/src/map.c:226-235 | the cell is made to point past its node, as the specification of remove says |
| MapIter.Next | kernel/map/src/map.c:244-259 | each call returns the next entry in order and NULL exactly when none is ahead, across empty buckets and the wrap from -1 to 0 |
| MapIter.Keys | kernel/map/src/map.c:237-259 | iterating an unmodified table to NULL gives the keys in order, each once |
| Paths.Normalize | kernel/filepath/src/filepath.c:202-320 | the character loops compute the path that parsing, resolving and printing gives |
| Paths.Join | kernel/filepath/src/filepath.c:152-200 | the parts are joined left to right, skipping empty ones, with one separator at each seam |
| Paths.FindLastSep | kernel/filepath/src/filepath.c:355-364 | the index of the last separator, -1 if there is none |
| Paths.BasenameOf | kernel/filepath/src/filepath.c:350-373 | what follows the last separator; NULL for an empty path |
| Paths.DirnameOf | kernel/filepath/src/filepath.c:375-410 | what precedes the last separator, "/" or "." in the special cases; NULL for an empty path |
| PathProof.SplitPrint | kernel/filepath/src/filepath.c:214-310 | parsing a printed path gives its components back |
| PathProof.Idempotent | kernel/filepath/src/filepath.c:202-320 | normalising twice is normalising once, for every path |
| PathProof.FixedIffNormal | kernel/filepath/src/filepath.c:202-320 | a path is unchanged by normalising exactly when it is in normal form |
| PathProof.NormalComponents | kernel/filepath/src/filepath.c:223-241 | the result, unless it is ".", splits into components none of which is empty, "." or ".." |
| PathProof.JoinKeepsComponents | kernel/filepath/src/filepath.c:165-195 | joining any number of parts neither loses, adds nor runs together components |
| PathProof.JoinSeam | kernel/filepath/src/filepath.c:152-200 | of two paths that are not empty a join has just one separator at the seam that they do not share |
| PathProof.JoinConfluent | kernel/filepath/src/filepath.c:152-320 | normalising the first part before joining makes no difference exactly when it is not empty or the second is not absolute |
| PathProof.DirnameBasename | kernel/filepath/src/filepath.c:350-410 | for a non-empty path, joining its dirname and basename and normalising gives what normalising the path gives |
| PathProof.BasenameIsLast | kernel/filepath/src/filepath.c:372-372 | the base name is the longest end of the path without a separator |
| PathProof.DirnameIs | kernel/filepath/src/filepath.c:350-410 | a path with a separator is what lies before the last one, that separator and its base name; what lies before is its directory, or the root if that is nothing |
| PathProof.DownAndUp | kernel/filepath/src/filepath.c:223-241 | joining a name goes one level down, "." nowhere and ".." one level up; a name and then ".." lead back to the path |
| PathProof.DotDotIsDropped | kernel/filepath/src/filepath.c:226-233 | going up from an empty stack is dropped, in a relative path too |
| PathProof.PartsAreCut | kernel/filepath/src/filepath.c:247-249 | a path resolves to what its components at full length do, each cut to 4095 characters |
| PathProof.SamePlaceIff | kernel/filepath/src/filepath.c:202-320 | a normalised path leads where the path does, by its components at full length and from every directory, exactly if the path is absolute or never climbs above where it sets out, and no component left is longer than 4095 |
| PathProof.LongNameLeadsElsewhere | kernel/filepath/src/filepath.c:247-249 | below the root a name of 4096 characters or more normalises to another name |
| Utf8.DecodeLength | kernel/utf8/src/utf8.c:4-121 | the bytes decode reports are the character length, on all inputs |
| Utf8.ValidIffChar | kernel/utf8/src/utf8.c:46-121 | decode calls valid exactly what begins with a UTF8-char of section 4 of RFC 3629 |
| Utf8.CharIsCharLen | kernel/utf8/src/utf8.c:4-44 | of a character of the grammar, whatever follows it, the length is told exactly |
| Utf8.DecodeEncode | kernel/utf8/src/utf8.c:46-121 | decoding the section 3 encoding of a scalar value gives it back, for every scalar value |
| Utf8.EncodeDecode | kernel/utf8/src/utf8.c:46-121 | encoding what was decoded as valid gives the consumed bytes back |
| Utf8.CharLenIs | kernel/utf8/src/utf8.c:4-44 | in any bytes a character is as long as its first byte announces if so many tails follow, and else one byte |
| Utf8.DecodeStray | kernel/utf8/src/utf8.c:46-121 | a stray byte decodes to itself, as invalid, and no bytes to nothing |
| Utf8Text.ValidIffText | kernel/utf8/src/utf8.c:467-485 | what validation accepts is exactly the concatenations of characters of the grammar |
| Utf8Text.Validate | kernel/utf8/src/utf8.c:467-485 | the loop answers true exactly for UTF8-octets of section 4 of RFC 3629 |
| Utf8Text.EncodedText | kernel/utf8/src/utf8.c:123-141 | encoded scalar values are valid, count as many characters, and decode to themselves |
| Utf8Text.DecodedText | kernel/utf8/src/utf8.c:467-485 | a valid text is the encoding of the scalar values it decodes to, and char_count is their number |
| Utf8Text.CountChars | kernel/utf8/src/utf8.c:123-141 | the loop counts characters as the recursion over character lengths does |
| Utf8Text.CountsPieces | kernel/utf8/src/utf8.c:123-141 | in any bytes the count is the number of pieces they fall into |
| Utf8Text.StepForward | kernel/utf8/src/utf8.c:450-465 | from every boundary of a valid text a step over a character leads to a boundary from which prev_char returns |
| Utf8Text.StepBack | kernel/utf8/src/utf8.c:450-465 | from every boundary but the first prev_char leads to the one from which char_len returns |
| Utf8Text.StepBackFrom | kernel/utf8/src/utf8.c:450-465 | the backward loop stops where the specification says |
| Utf8Text.PrevIs | kernel/utf8/src/utf8.c:450-465 | in any bytes a step back goes past at most three continuations, no further than to the next byte that is none |
| Utf8Text.GraphemesTile | kernel/utf8/src/utf8.c:487-542 | grapheme lengths add up to the buffer, valid or not, and there are no more graphemes than characters |
| Utf8Text.GraphemesAreStarters | kernel/utf8/src/utf8.c:504-519 | in encoded scalars graphemes begin at the first and at each later one that is no combining mark |
| Utf8Text.GraphemeIs | kernel/utf8/src/utf8.c:487-521 | in any bytes a grapheme is one character and, if it is valid, all the valid marks behind it |
| Utf8Text.MeasureGrapheme | kernel/utf8/src/utf8.c:487-522 | the loop measures the base character and the combining marks after it |
| Utf8Text.CountGraphemes | kernel/utf8/src/utf8.c:524-542 | the loop counts the graphemes that tile the buffer |
| SourceLines.StartsFacts | kernel/sourceloc/src/sourceloc.c:99-106 | the line starts are strictly increasing from 0 and each other one follows a newline that is not the last byte |
| SourceLines.SourceFile.ComputeLineStarts | kernel/sourceloc/src/sourceloc.c:83-109 | the counting and the filling pass leave exactly the line starts, narrowed to 32 bits, in the array |
| SourceLines.NarrowedIff | kernel/sourceloc/src/sourceloc.c:104-104 | the narrowed starts, and with them what get_line returns, are the line starts exactly if every line starts below 4 GiB |
| SourceLines.SourceFile.Search | kernel/sourceloc/src/sourceloc.c:313-332 | on any array the unsigned search ends, without underflow, with the index its recursion gives |
| SourceWidth.FoundLineIs | kernel/sourceloc/src/sourceloc.c:313-337 | where every line starts below 4 GiB the line found is that of the newlines at i < offset with i + 1 < length, and its entry is its start |
| SourceLines.SourceFile.FromOffset | kernel/sourceloc/src/sourceloc.c:302-345 | in any file, the line the search finds and one more than the characters since its entry, in 32 bits; the zeroed location past the end |
| SourceWidth.LocationsRightIff | kernel/sourceloc/src/sourceloc.c:302-345 | all offsets of 32 bits have line 1 + the newlines before and column 1 + the characters since the line start exactly if every line starts below 4 GiB and no column reaches 2^32 |
| SourceWidth.LateLineIsFound | kernel/sourceloc/src/sourceloc.c:317-332 | if a line starts later, the last offset of 32 bits is found in the last line, which starts behind it |
| SourceWidth.SecondLineTooLate | kernel/sourceloc/src/sourceloc.c:104-104 | of 2^32 - 1 bytes, a newline and a byte the end of the first line is said to be in line 2 |
| SourceLines.Utf8Strlen | kernel/sourceloc/src/sourceloc.c:41-75 | the loop counts as the recursion over strides does, up to a NUL |
| SourceWidth.LongLineWraps | kernel/sourceloc/src/sourceloc.c:340-342 | in a file of 2^32 - 1 letters and no newline the column of its end wraps to 0 |
| SourceLines.SourceFile.GetLine | kernel/sourceloc/src/sourceloc.c:410-417 | the entry of a line, NULL for a number that is none |
| SourceLines.SourceFile.GetLineLen | kernel/sourceloc/src/sourceloc.c:419-447 | in any file, the length between entries, or to the length of the file in 32 bits, without a newline and the return before it |
| SourceWidth.LinesReadRightIff | kernel/sourceloc/src/sourceloc.c:410-447 | every line is read from its start and for the length of its text exactly if every one starts below 4 GiB, and the file ends there too or its last line has no text |
| SourceWidth.LastLineIff | kernel/sourceloc/src/sourceloc.c:436-444 | in a longer file the last line is read right exactly if its text is empty |
| SourceWidth.ReadLineIsText | kernel/sourceloc/src/sourceloc.c:419-447 | a line that is read right has no newline in it, and what follows up to the next line is its terminator |
| SourceProof.LocMonotone | kernel/sourceloc/src/sourceloc.c:302-345 | a later offset never has a lexicographically smaller line and column |
| SourceProof.LocCounts | kernel/sourceloc/src/sourceloc.c:302-345 | line and column are found by counting: newlines before the offset that are not the last byte, and characters since the last of them |
| SourceProof.StrLenSteps | kernel/sourceloc/src/sourceloc.c:41-75 | in any bytes nothing is counted from a NUL on, a stray byte once, and as many bytes as one as the first announces |
| SourceProof.LocInjective | kernel/sourceloc/src/sourceloc.c:302-345 | on valid UTF-8 without NUL different character boundaries have different locations |
| SourceProof.StrLenAgrees | kernel/sourceloc/src/sourceloc.c:41-75 | on valid text without NUL utf8_strlen is the character count of the utf8 module |
| SourceProof.LinesRebuildFile | kernel/sourceloc/src/sourceloc.c:410-447 | the texts of all lines, each with its terminator, put together are the file |
| Scanner.Scanner.ReadStaticBaseType | kernel/scanner/src/scanner.c:103-273 | the state machine reads the token the specification says; the position moves to its end, and not at all on failure |
| ScannerProof.ReadClassifies | kernel/scanner/src/scanner.c:103-273 | on ASCII the token is the run up to whitespace, a stop byte or the end, and how it is written decides integer, real, error or symbol, with the one exception of a lone sign before a digit that is a stop byte |
| ScannerProof.ReadWithoutDigitStops | kernel/scanner/src/scanner.c:103-273 | with such stop bytes: integer exactly for [+-]?[0-9]+, real exactly for [+-]?[0-9]+\.[0-9]*, failure exactly for an empty run or one that begins like a number and is none |
| ScannerProof.DigitStopMisread | kernel/scanner/src/scanner.c:166-170 | with a digit as stop byte and a sign that is none, of the two together the sign alone is read as an integer |
| ScannerProof.ReadsRightIff | kernel/scanner/src/scanner.c:103-273 | every ASCII buffer is read as it is written exactly if no stop byte is a digit or both signs are stop bytes |
| ScannerProof.FailureAtPositionIff | kernel/scanner/src/scanner.c:129-151 | a failed read, in any buffer, leaves the position at the error, as the header promises, exactly at the end of the buffer and before a stop byte |
| ScannerProof.FailureElsewhere | kernel/scanner/src/scanner.c:237-244 | of "1a" the error is at the second byte while the position stays at the first |
| ScannerProof.ReadAdvances | kernel/scanner/src/scanner.c:263-264 | every success moves the position on past a non-empty token, in any buffer |
| ScannerProof.ReadAll | kernel/scanner/src/scanner.c:103-273 | reading until failure ends, with disjoint tokens in order |
| ScannerAnywhere.ReadsToken | kernel/scanner/src/scanner.c:103-273 | in any bytes, with any stop bytes: behind whitespace and a sign a digit or its absence decides between number and symbol; what is read is digits, digits around a period or whole characters, to where the token ends; and where nothing is read, why |
| ScannerAnywhere.SpacesAre | kernel/utf8/src/utf8.c:143-163 | the code points that are whitespace |
| ScannerAnywhere.SkipsWhite | kernel/scanner/src/scanner.c:120-125 | in any bytes whole characters of whitespace are skipped, all and only these |
| Scanner.Scanner.FindClosing | kernel/scanner/src/scanner.c:329-371 | the least index at which unescaped openers and closers balance, every shorter prefix at positive depth; none only if there is no such index |
| Scanner.Scanner.FindGroup | kernel/scanner/src/scanner.c:282-376 | succeeds exactly if the group opened at the position is closed, and leaves the position on the closer, unchanged on failure |
| ScannerProof.ClosesOnce | kernel/scanner/src/scanner.c:335-371 | a group has one end |
| ScannerProof.GroupsNest | kernel/scanner/src/scanner.c:355-367 | a group opened inside another is closed inside it |
| ScannerProof.EmptyGroupCloses | kernel/scanner/src/scanner.c:335-345 | right after its opening no delimiter is escaped, so an empty group closes even if the escape is the delimiter |
| ScannerProof.DepthCounts | kernel/scanner/src/scanner.c:335-367 | the depth at a byte is one more than the openings less the closings that stand unescaped since the group began |
| Scanner.Scanner.SkipWhitespaceAndComments | kernel/scanner/src/scanner.c:406-447 | the position moves to the first byte past whitespace and comments, and not at all if there is none |
| ScannerProof.SkipsOnlyBlanks | kernel/scanner/src/scanner.c:418-439 | in ASCII every byte skipped is whitespace or in a comment, and the byte stopped at begins neither |
| ScannerAnywhere.SkipsBlanks | kernel/scanner/src/scanner.c:406-447 | in any bytes whole characters of whitespace and whole comments are skipped, all and only these |
| Forms.SameShapeIff | kernel/forms/src/forms.c:389-463 | two forms are structurally equal exactly when their skeletons, without names, affects and aliases, agree and neither has an alias of an alias |
| Forms.Symmetric | kernel/forms/src/forms.c:389-463 | structural equality is symmetric on all forms |
| Forms.Transitive | kernel/forms/src/forms.c:389-463 | structural equality is transitive on all forms |
| Forms.ReflexiveIff | kernel/forms/src/forms.c:394-403 | a form equals itself exactly when no alias in it directly wraps an alias |
| Forms.FieldNamesDoNotMatter | kernel/forms/src/forms.c:436-445 | of the fields of a struct only the number is compared |
| FormNodes.StructurallyEqual | kernel/forms/src/forms.c:389-463 | on any two trees of nodes the recursion with its loop over parts computes structural equality, false for NULL |
| FormNodes.Clone | kernel/forms/src/forms.c:7-90 | NULL exactly for NULL, otherwise a tree of new nodes that spells the form of its source, with the same affects |
| FormNodes.CompareClone | kernel/forms/src/forms.c:7-90 | compared with its source a clone is found equal exactly if no alias in it directly wraps an alias |
| FormNodes.FormNode.AddAffect | kernel/forms/src/forms.c:520-526 | the affect is appended; every form that does not hold the node spells what it did, so a clone and its source part ways |
| Forms.GetAffect | kernel/forms/src/forms.c:528-547 | the first affect of the name, looking through one alias; NULL exactly if there is none |
| Forms.HasAffordance | kernel/forms/src/forms.c:570-644 | a form has an affordance exactly if it is among those listed |
| Forms.HasStructuralAffordance | kernel/forms/src/forms.c:585-644 | the names each kind of form affords by its structure |
| Forms.ListedIsDocumentedIff | kernel/forms/include/forms.h:377-392 | what is listed is what the header promises, inclusions with it, exactly if every included name is an affect's name or structural |
| Forms.IncludedIsMissed | kernel/forms/src/forms.c:553-579 | a name an affect comes to include that the form does not afford is promised and still not afforded |
| Forms.FilterIsMissed | kernel/forms/src/forms.c:553-579 | a list whose affect "map" also includes "filter" does not afford "filter" |
| Forms.GetAffordances | kernel/forms/src/forms.c:646-737 | the names of the affects, then those the structure affords, in order |

## Left out

- Weak memory orderings: the atomics of the ring are sequentially consistent, and head and tail do not wrap at 2^64.
- RingBuffer.ArBuff.New: above 2^59 the source goes on to initialise slots behind memory of no bytes, if the allocator grants that; neither is modelled.
- `ak_arbuff_peek`, `ak_arbuff_is_empty` and `ak_arbuff_is_full` are not modelled.
- Failure of memory allocation, except of the map's bucket array and of the acceptor's hand-over.
- NULL arguments that the functions merely reject.
- The pool's caller of free joins all workers in one step; start and failure of threads are not modelled.
- What a task, a callback or a connection handler does, beyond that it runs.
- Sockets, TLS, polling and the clock: their answers are parameters of the moves; starting a server again is not modelled.
- The counters of accepted, rejected and transferred connections and bytes.
- Wrap-around of the arena's totals and block counter, which count memory that is there.
- The bytes of an arena, their zeroing and copying.
- Freeing an arena, a table, a pool or a form.
- MapTable.HashMap.Put: bucket counts stay below 2^32; that an `int` cannot hold them all is not modelled.
- MapIter.Next: the iterator is passed in and out by value instead of being updated through a pointer.
- The hash functions of the map themselves; their only property used is that equal keys have equal hashes.
- Windows and UNC paths, `ak_filepath_extension`, the directory look-ups, and calls before the module is initialised.
- SourceLines.SourceFile.ComputeLineStarts: files of 2^32 lines and more, whose number its counter cannot hold.
- Reading files, reference counts, ranges and formatting of locations.
- The tables of Unicode digits, letters and combining marks.
- Scanner.Scanner.FindGroup: the depth is unbounded here and an `int` in the source.
- FormNodes.Clone: that a NULL part inside a form would be skipped; the functions that make forms put none there.
- Lambdas, parameter and return forms of affects; registering forms in a context.
- Lists, buffers, atoms, interning and contexts, logging, modules, the C compiler bridge and the runtime.
