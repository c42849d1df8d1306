# Verified models of the Linux CAN plugin

The Linux plugin of this repository rests on six pieces of C code with real algorithms in them: a hash map
with linear probing, a lock-free queue for many producers and one consumer, CAN signals packed into
frames, a thread pool, a blocking queue, and a reader for BLF log files that decompresses containers on the
fly. This project models each of them in Dafny and proves what they are for. `dafny verify dfyconfig.toml`
checks everything.

Each component has a specification on values (functions, state machines, invariants, runs), theorems about it,
and, for code that works in place, classes and methods with the C loops and updates, proved to compute the
specification.

| component | specification and theorems | imperative form |
|---|---|---|
| hash map | `ProbeTable`, `HashModel`, `HashRuns`, `HashIndex` | `HashMap` |
| lock-free ring | `MpscRing`, `MpscRuns`, `MpscWrap` | `Mpscq` |
| CAN signals and frames | `Bits`, `CanSignal`, `SignalLaws`, `CanFrames` | `LibWecan`, `CanFrames`, `CanSender` |
| thread pool | `ThpoolMachine`, `ThpoolRuns` | `JobQueues` |
| blocking queue | `QueueModel`, `QueueMonitor`, `QueueRuns` | `BlockingQueue` |
| BLF reader | `BlfFormat`, `BlfWriter` | `BlfStream`, `BlfHandle` |

`Wrappers`, `Powers` and `Sums` hold what they share.

## What the models assume

* Hash map: keys are compared by an equivalence, and equal keys hash equally. The table index is the key's
  hash, after the secondary hash, modulo the table size; both hashes together are one arbitrary function.
  Allocations succeed or fail arbitrarily, call by call. Entry counts stay below the limit at which
  `1 << k`, an int shift, overflows.
* Ring: sequential consistency, one step per atomic access, non-null objects, a capacity of at least one, and
  fewer than 2^64 threads and slots together. The class `Mpscq` gives the other threads any number of steps
  before each atomic access: its `Interfere` has an empty body but promises its callers no more than `Rely`,
  which `Mpscq.OthersKeepRely` shows to cover every step another thread can make.
* Signals: reals for the doubles, so no rounding; 1 to 63 bits, inside the frame, bit numbers within `uint8_t`,
  and at most 64 bits counted from the bottom of the signal's last byte; a little-endian host. Assembled values
  are non-negative.
* Thread pool and queue: mutexes give atomic sections, a signal wakes one sleeper if there is one, and every
  condition variable may also wake spuriously. The pool is not being destroyed. A thread may call `thpool_wait`
  any number of times.
* BLF: the file header is at least as long as its first two fields, the body consists of log containers with
  16-byte base headers, non-empty payloads that decompress to the promised size, and the padding the reader
  skips; containers hold no containers. Decompression is an arbitrary function. Files stay below 4 GB.

## What was found on the way

* Unbroken probe chains are not enough to make backward-shift deletion correct on a completely full table:
  `HashRuns.FullTableNeedsCut` gives four entries whose chains are unbroken and of which one becomes
  unreachable. The invariant that every run keeps is stronger: some slot is crossed by no chain.
* The header of the ring asks for a power-of-two capacity; `plugins/can/linux/main/can_operator.c:206` creates
  one of 1000 slots. After 2^64 enqueues its wrapped head no longer names the slot the consumer reads: the
  consumer misses stored objects, and a producer can fail the assert on its slot. `MpscRuns.FaithfulIffDivides`
  and `MpscWrap.AssertsHoldIffDivides` show that dividing 2^64 is exactly what is needed against either.
* `insert` does not mask its value. `SignalLaws.LocalIff` says exactly which values disturb other signals, and
  `SignalLaws.NegativeSpills` that a negative integer does so unless the signal's top bit is the top bit of its
  byte.
* Two threads in `thpool_wait` at once can leave one of them asleep for good, because the last worker signals
  one waiter only: `ThpoolRuns.WaitersWokenIff`. It can happen from every sound state in which two sleep:
  `ThpoolRuns.TwoSleepersCanStrand`.
* A putter can be left asleep in front of an open queue with a free place, by a flush, by a woken putter that
  fails to allocate, or by closing and reopening the queue. `QueueRuns.GuaranteeIffGuarded` says exactly which
  runs are safe, `QueueRuns.CalmRun` gives a condition a caller can keep, and three lemmas show the runs.
* `queue_get_filtered` leaves `last_el` pointing to the element it frees when that is the last one but not the
  only one. `BlockingQueue.Queue.GetInternal` proves that this is exactly the case in which the queue is not
  sound afterwards, and `BlockingQueue.Queue.PutBehindRemoved` that the next put at the end then loses its
  element. When no element is accepted it returns `Q_ERR_INVALID_ELEMENT`, where its header names
  `Q_ERR_NUM_ELEMENTS`, and a filter of NULL is no error but takes the first element.
* Among equal elements a sorted queue is last-in first-out: `QueueModel.PlaceIsFirst`.
* The BLF reader gives up at the first message whose data length code exceeds what its type allows (8 or 64):
  that message and everything behind it is not reported, and the end of the file is not either.
  `BlfFormat.AllDeliveredIff` says exactly when all messages are reported, `BlfWriter.OverlongLosesAll` that every
  such message loses all behind it, and `BlfWriter.NineLosesAll` names one.
* The BLF reader skips size modulo 4 bytes behind a container. The comment on it speaks of 4-byte alignment,
  which this reaches only for even sizes: `BlfFormat.PaddingAlignsIff`. Behind message objects it skips nothing,
  behind all others it does.

## Model

| member | source | states |
|---|---|---|
| HashIndex.MaskIsMod | plugins/can/linux/common/hashmap/hashmap.c:22 | masking with the table size less one is the remainder by the table size |
| HashIndex.MaskedHome | plugins/can/linux/common/hashmap/hashmap.c:59-71 | the masked hash is the home slot |
| HashIndex.MaskedNext | plugins/can/linux/common/hashmap/hashmap.c:25 | the masked successor of an index is the next slot of the ring of slots |
| HashIndex.MaskedDistance | plugins/can/linux/common/hashmap/hashmap.c:149-150 | a wrapped and masked difference of two indices is the forward distance between their slots |
| ProbeTable.FindIsComplete | plugins/can/linux/common/hashmap/hashmap.c:94-118 | in a linked table the probe loop finds the matching entry if there is one, and otherwise reports a free slot, or none, as asked; full tables included |
| ProbeTable.InsertLinks | plugins/can/linux/common/hashmap/hashmap.c:311-340 | storing into the slot the probe proposes keeps the table linked |
| ProbeTable.ShiftPermutes | plugins/can/linux/common/hashmap/hashmap.c:139-158 | the shifting loop loses and duplicates no entry but the removed one |
| ProbeTable.ShiftKeepsChains | plugins/can/linux/common/hashmap/hashmap.c:139-158 | from any point of its scan, the shifting loop ends with every chain unbroken again |
| ProbeTable.RemoveKeepsLinks | plugins/can/linux/common/hashmap/hashmap.c:125-159 | deletion from any linked table, a full one included, keeps it linked and removes exactly that entry, scanning at most as many slots as entries remain |
| HashModel.TableSizeIsLeast | plugins/can/linux/common/hashmap/hashmap.c:38-54 | the computed size is the least power of two that is at least the initial size and 4/3 of the entries |
| HashModel.RehashKeepsContents | plugins/can/linux/common/hashmap/hashmap.c:166-200 | rehashing keeps all entries and never trips its assert; a failed allocation changes nothing |
| HashModel.GetAgrees | plugins/can/linux/common/hashmap/hashmap.c:347-360 | get returns the data of the key that compares equal, and nothing exactly when there is none |
| HashModel.GrowKeeps | plugins/can/linux/common/hashmap/hashmap.c:305-309 | the preemptive rehash changes no contents, and when it succeeds leaves room for the new entry and one more |
| HashModel.PutAgrees | plugins/can/linux/common/hashmap/hashmap.c:295-342 | put adds its entry exactly when it returns 0, reports a present key, fails for lack of memory only, and without failed allocations leaves a free slot |
| HashModel.RemoveEntryAgrees | plugins/can/linux/common/hashmap/hashmap.c:125-159 | deleting a slot removes its entry from the map and keeps the map sound |
| HashModel.RemoveAgrees | plugins/can/linux/common/hashmap/hashmap.c:366-383 | remove returns what get would, and deletes exactly the matching key |
| HashModel.ReserveAgrees | plugins/can/linux/common/hashmap/hashmap.c:269-288 | reserve changes no contents; it sets the minimum size, or restores the old one when it fails |
| HashModel.BlankAgrees | plugins/can/linux/common/hashmap/hashmap.c:388-413 | clear and reset empty the map; reset gives the table its initial size unless the reallocation fails, and clear leaves the size |
| HashRuns.RunRefines | plugins/can/linux/common/hashmap/hashmap.c:269-413 | over every run of put, get, remove, reserve, clear and reset, whatever allocations fail, each answer is that of a finite map |
| HashRuns.ReservedRunNeverRehashes | plugins/can/linux/common/hashmap/hashmap.c:264-309 | after reserve(n) has succeeded, a run of any length of put, get, remove and clear in which no call finds more than n entries never changes the table's size; further reserve and reset calls are excluded |
| HashRuns.RemoveNeverSkips | plugins/can/linux/common/hashmap/hashmap.c:455-465 | every entry behind the removed slot is at or behind it afterwards, though wrapped ones may move forward |
| HashRuns.PopulatedIsNext | plugins/can/linux/common/hashmap/hashmap.c:77-88 | an iterator stands on the first entry at or after a position, and on none exactly if there is none |
| HashRuns.SweepVisitsAll | plugins/can/linux/common/hashmap/hashmap.c:442-465 | a loop that at each visit removes or moves on, as it likes, ends and visits every initial entry |
| HashRuns.SweepRemovesDropped | plugins/can/linux/common/hashmap/hashmap.c:442-465 | what is left after such a loop is what there was less exactly the entries it removed |
| HashRuns.SweepEndsValid | plugins/can/linux/common/hashmap/hashmap.c:442-465 | such a loop ends with a sound map |
| HashRuns.ForeachVisitsOnce | plugins/can/linux/common/hashmap/hashmap.c:421-448 | a loop that removes nothing visits each entry exactly once, hashmap_size times in all |
| HashRuns.FullTableNeedsCut | plugins/can/linux/common/hashmap/hashmap.c:141-156 | a full table with unbroken chains and no free crossing loses a key when another is deleted |
| HashMap.HashMap.constructor | plugins/can/linux/common/hashmap/hashmap.c:227-238 | a new map is sound and empty, with the default initial size |
| HashMap.HashMap.EntryFind | plugins/can/linux/common/hashmap/hashmap.c:94-118 | the probe loop over the array computes Find |
| HashMap.HashMap.EntryRemove | plugins/can/linux/common/hashmap/hashmap.c:125-159 | the shifting loop over the array computes RemoveEntry in place |
| HashMap.HashMap.Rehash | plugins/can/linux/common/hashmap/hashmap.c:166-200 | the reinsertion loop computes Rehash and always finds a slot |
| HashMap.HashMap.Reserve | plugins/can/linux/common/hashmap/hashmap.c:269-288 | computes Reserve, with the size restored on failure |
| HashMap.HashMap.Put | plugins/can/linux/common/hashmap/hashmap.c:295-342 | computes Put and keeps the map sound |
| HashMap.HashMap.Get | plugins/can/linux/common/hashmap/hashmap.c:347-360 | computes Get |
| HashMap.HashMap.Remove | plugins/can/linux/common/hashmap/hashmap.c:366-383 | computes Remove and keeps the map sound |
| HashMap.HashMap.Clear | plugins/can/linux/common/hashmap/hashmap.c:388-393 | computes Clear |
| HashMap.HashMap.Reset | plugins/can/linux/common/hashmap/hashmap.c:398-413 | computes Reset; the map ends empty, at the initial size if the allocation succeeds |
| HashMap.HashMap.GetPopulated | plugins/can/linux/common/hashmap/hashmap.c:77-88 | finds the first populated slot from a position on |
| HashMap.HashMap.IterRemove | plugins/can/linux/common/hashmap/hashmap.c:455-465 | removes the entry under the iterator, if any, and stops at the first entry from there on; no iterator stays none |
| MpscRing.HeadSlotIffDivides | plugins/can/linux/common/mpsc.c:46-48 | the wrapped head names the slot of its ticket for ever exactly when the capacity divides 2^64 |
| MpscRing.SlotIsFree | plugins/can/linux/common/mpsc.c:46-49 | between its ticket and its store a producer faces an empty slot, the one its ticket stands for |
| MpscRing.PollSees | plugins/can/linux/common/mpsc.c:55 | the consumer sees exactly the oldest undelivered ticket: its object once stored, nothing before |
| MpscRing.StepKeepsInv | plugins/can/linux/common/mpsc.c:36-70 | every atomic step keeps the invariant, and the assert it executes holds |
| MpscRuns.AssertsNeverFail | plugins/can/linux/common/mpsc.c:36-70 | in every interleaving of any number of producers and one consumer no assert fails, as long as the wrapped head is faithful |
| MpscRuns.FifoByTicket | plugins/can/linux/common/mpsc.c:36-70 | what was dequeued is a prefix of the objects in ticket order, and each producer's own order is kept |
| MpscRuns.EmptyPollIff | plugins/can/linux/common/mpsc.c:55-64 | a dequeue returns NULL exactly when the tail ticket is not given out or not stored yet |
| MpscRuns.RefusalMeansFull | plugins/can/linux/common/mpsc.c:38-43 | an enqueue is refused exactly when objects in flight and producers backing off reach the capacity |
| MpscRuns.DrainDelivers | plugins/can/linux/common/mpsc.c:53-70 | once all enqueue calls have returned, dequeuing delivers every remaining object in ticket order |
| MpscRuns.FaithfulIffDivides | plugins/can/linux/common/mpscq.h:32-35 | the consumer sees its ticket in every reachable state exactly when the capacity divides 2^64 |
| MpscWrap.AssertsHoldIffDivides | plugins/can/linux/common/mpsc.c:46-49 | no reachable enabled step of any threads violates its assert exactly when the capacity divides 2^64 |
| MpscWrap.CapacityOf1000CanFail | plugins/can/linux/main/can_operator.c:206 | with the capacity the receiver uses, a reachable producer faces a slot that is still full |
| MpscRuns.CapacityOf1000IsNotFaithful | plugins/can/linux/main/can_operator.c:206 | with the capacity the receiver uses, a reachable state has the consumer miss a stored object |
| Mpscq.OthersKeepRely | plugins/can/linux/common/mpsc.c:36-70 | what a thread relies on between its own atomic accesses covers every step of every other thread |
| Mpscq.OthersRunKeepsRely | plugins/can/linux/common/mpsc.c:36-70 | and any number of such steps in a row |
| Mpscq.Mpscq.constructor | plugins/can/linux/common/mpsc.c:12-27 | a new queue is empty and satisfies the invariant |
| Mpscq.Mpscq.Enqueue | plugins/can/linux/common/mpsc.c:36-51 | with arbitrary interference, both asserts hold; on success the object got a ticket during the call and is stored; on failure it got none, and at a state met during the call objects in flight and producers backing off filled the capacity |
| Mpscq.Mpscq.Dequeue | plugins/can/linux/common/mpsc.c:53-70 | with arbitrary interference, the assert holds, what is returned is the next object in ticket order, and nothing is returned only if the next ticket was not stored, neither at the call nor at its end |
| Bits.WordBit | plugins/can/linux/main/libwecan.c:47-64 | bit i of a word copied byte by byte is bit i mod 8 of byte i / 8 |
| LibWecan.WalkStep | plugins/can/linux/main/libwecan.c:16-21 | each step of the Motorola walk is +1 in the zig-zag numbering, wrapping with uint8_t |
| LibWecan.ComputeIndexes | plugins/can/linux/main/libwecan.c:3-36 | the walk and the Intel formula yield the bytes of the signal's ends and the offset of its lowest bit |
| LibWecan.FrameToLocal | plugins/can/linux/main/libwecan.c:38-66 | every bit of the local word is the frame bit it stands for, and the other bits are zero |
| LibWecan.Extract | plugins/can/linux/main/libwecan.c:68-107 | yields the number the signal's bits spell, sign-extended to 64 bits on request |
| LibWecan.SignExtends | plugins/can/linux/main/libwecan.c:99-105 | or-ing the complemented mask adds 2^64 - 2^length |
| LibWecan.TestBit | plugins/can/linux/main/libwecan.c:101 | the masked test is nonzero exactly when the sign bit is set |
| LibWecan.MergedBit | plugins/can/linux/main/libwecan.c:122-125 | erase mask and shifted value replace the field's bits, and or the value's further bits into those above |
| LibWecan.Insert | plugins/can/linux/main/libwecan.c:109-151 | for every uint64_t value the frame array becomes the one Put describes bit by bit |
| CanSignal.CoversIff | plugins/can/linux/main/libwecan.c:9-35 | a signal covers exactly the frame bits that hold one of its bits |
| CanSignal.LocalIndex | plugins/can/linux/main/libwecan.c:43-64 | in the little-endian copy a frame bit stands at its signal index plus the offset, in both byte orders |
| SignalLaws.RoundTrip | plugins/can/linux/main/libwecan.c:68-151 | extract after insert gives the value back, reduced to the signal's length, in both byte orders |
| SignalLaws.SignedRoundTrip | plugins/can/linux/main/libwecan.c:68-151 | a signed number that fits the length survives insert and signed extract |
| SignalLaws.PutIsLocal | plugins/can/linux/main/libwecan.c:122-150 | a value that does not spill sets exactly the signal's bits |
| SignalLaws.LocalIff | plugins/can/linux/main/libwecan.c:122-150 | insert leaves every frame's other bits alone exactly when no value bit beyond the length falls into the signal's top byte |
| SignalLaws.NegativeSpills | plugins/can/linux/main/libwecan.c:122-150 | a negative integer in 64-bit two's complement spills exactly when the signal's top byte has bits above the signal |
| SignalLaws.DisjointRead | plugins/can/linux/main/libwecan.c:68-151 | inserting one signal does not change the value of another that shares no bit with it |
| SignalLaws.DisjointCommute | plugins/can/linux/main/libwecan.c:109-151 | insertions of disjoint signals commute |
| SignalLaws.MotorolaReadsAsIntel | plugins/can/linux/main/libwecan.c:43-64 | a Motorola signal reads as its mirror image in Intel order on the byte-reversed frame |
| SignalLaws.MotorolaWritesAsIntel | plugins/can/linux/main/libwecan.c:133-150 | inserting in Motorola order is inserting the mirror image in Intel order on the reversed bytes, for every value |
| SignalLaws.IntelIsLittleEndian | plugins/can/linux/main/libwecan.c:68-97 | an Intel signal of whole bytes reads as those bytes, least significant first |
| SignalLaws.MotorolaIsBigEndian | plugins/can/linux/main/libwecan.c:68-97 | a Motorola signal of whole bytes reads as those bytes, most significant first |
| CanFrames.FillSendingData | plugins/can/linux/main/can_operator.c:78-92 | every assembled signal of the list is inserted in order; in a disjoint layout with values in range the Motorola bits of each then spell the whole part of its value |
| CanFrames.FilledSends | plugins/can/linux/main/can_operator.c:85-88 | the number in a signal's Motorola bits is the integer k with k <= value < k + 1 if a value was assembled, and what it was otherwise |
| CanFrames.CanFrameToFlvalue | plugins/can/linux/main/frame_to_flvalue.c:9-30 | for each frame of a known identifier, in order, and each described signal of its message, in order: the name, the message, and the number in the signal's Motorola bits times its scaling; nothing else |
| CanFrames.ReadingsReport | plugins/can/linux/main/frame_to_flvalue.c:14-26 | the readings of one frame, field by field: name, message, unsigned number times scaling |
| CanFrames.DecodedReports | plugins/can/linux/main/frame_to_flvalue.c:9-30 | the readings of a list of frames are those of the known ones, joined in order |
| CanFrames.FilledReads | plugins/can/linux/main/can_operator.c:78-92 | after filling, each signal of a disjoint layout reads its value if it was assembled, else what the frame held before |
| CanFrames.EndToEnd | plugins/can/linux/main/frame_to_flvalue.c:14-26 | decoding a zeroed frame after filling reports, for each listed name, the whole part of its value, or 0 without one, times its scaling |
| CanFrames.OrderIndependent | plugins/can/linux/main/can_operator.c:78-92 | the filled frame depends only on which signals the list names, not on their order or repetition |
| CanSender.BuildFrames | plugins/can/linux/main/can_operator.c:132-158 | the frame array, sized before the loop, gets one frame per message of the map, with its identifier, its length code and its signals, each written inside it and none left over |
| CanSender.RoundReports | plugins/can/linux/main/can_operator.c:132-159 | decoding the frames of one round reports every message's names, scaled whole values and message numbers in the order of iteration |
| ThpoolMachine.TokenKeeps | plugins/can/linux/common/thpool.c:349-377 | every step keeps: while jobs wait, the token is set, about to be posted, or with a worker that has not finished pulling |
| ThpoolMachine.JobKeeps | plugins/can/linux/common/thpool.c:434-487 | every step keeps: the queue is the unpulled jobs in push order, and each pulled one is held or finished, once |
| ThpoolMachine.WaitKeeps | plugins/can/linux/common/thpool.c:197-203 | every step keeps: a waiter past its test of len came after every earlier job was pulled, and one that returned after they finished |
| ThpoolMachine.StepKeepsInv | plugins/can/linux/common/thpool.c:349-377 | every step of any worker, pusher or waiter keeps the whole invariant |
| ThpoolRuns.NoJobStranded | plugins/can/linux/common/thpool.c:349-487 | in every run, whenever jobs wait, the semaphore is 1, a push is about to post, or some worker has the token and has not finished pulling |
| ThpoolRuns.PullsInOrder | plugins/can/linux/common/thpool.c:461-487 | a worker pulls the oldest job not yet pulled, and one that nobody holds or has finished |
| ThpoolRuns.RunsAtMostOnce | plugins/can/linux/common/thpool.c:359-368 | no job is run twice, and only pulled jobs are run |
| ThpoolRuns.WaitMeansFinished | plugins/can/linux/common/thpool.c:197-203 | once a call of thpool_wait has returned, every job added before that call has been run to its end |
| ThpoolRuns.RemainingDecreases | plugins/can/linux/common/thpool.c:349-377 | every step of the pool itself uses up a bounded amount of remaining work |
| ThpoolRuns.RunsEnd | plugins/can/linux/common/thpool.c:349-377 | without new jobs, calls and spurious wakeups every run ends |
| ThpoolRuns.StuckMeansDone | plugins/can/linux/common/thpool.c:349-377 | a pool that cannot move has run every job and its workers all sleep |
| ThpoolRuns.SleepRun | plugins/can/linux/common/thpool.c:199-201 | in a run where waiters never sleep together, one sleeps only while jobs wait or somebody works |
| ThpoolRuns.WaitersWokenIff | plugins/can/linux/common/thpool.c:372-374 | no reachable state has a waiter asleep that should return and that nobody will signal exactly when at most one thread calls thpool_wait, however often |
| ThpoolRuns.LostStaysLost | plugins/can/linux/common/thpool.c:372-374 | such a waiter stays asleep until a new job is pushed or it wakes spuriously |
| ThpoolRuns.TwoSleepersCanStrand | plugins/can/linux/common/thpool.c:372-374 | from every sound state in which two waiters sleep the pool can go on by itself, past any stale token, to one in which a waiter sleeps that nobody will signal |
| ThpoolRuns.LoneWaiterReturns | plugins/can/linux/common/thpool.c:197-203 | a run in which waiters never sleep together, once the pool cannot move any more, has let every waiter go |
| JobQueues.JobQueue.Push | plugins/can/linux/common/thpool.c:434-455 | relinking puts the job at the rear and sets the semaphore |
| JobQueues.JobQueue.Pull | plugins/can/linux/common/thpool.c:461-487 | relinking takes the front job and sets the semaphore exactly if others remain |
| QueueModel.FullIff | plugins/can/linux/common/queue/queue_internal.c:103 | the test for a full queue holds exactly at min(max_els, 65534), no limit counting as that many |
| QueueModel.PlaceIsFirst | plugins/can/linux/common/queue/queue_internal.c:130-156 | for a total preorder a new element goes before the first one it may precede, so ahead of its equals |
| QueueModel.InsertedSorted | plugins/can/linux/common/queue/queue_internal.c:122-157 | putting keeps the chain sorted in the chosen direction |
| QueueModel.InsertedBag | plugins/can/linux/common/queue/queue_internal.c:115-158 | whatever the comparator does, putting adds exactly the new element; unsorted queues append it |
| BlockingQueue.Queue.Flush | plugins/can/linux/common/queue/queue_internal.c:70-91 | the chain is emptied |
| BlockingQueue.Queue.PutInternal | plugins/can/linux/common/queue/queue_internal.c:93-163 | without waiting: the status for closed, full, out of memory or done, and the relinked chain with the element in its place |
| BlockingQueue.Queue.Search | plugins/can/linux/common/queue/queue_internal.c:138-146 | the search loop stops at the place Position computes |
| BlockingQueue.Queue.SearchMatch | plugins/can/linux/common/queue/queue_internal.c:184-189 | the loop stops at the first element the filter accepts, or at the first one without a filter |
| BlockingQueue.Queue.GetInternal | plugins/can/linux/common/queue/queue_internal.c:165-215 | without waiting, with or without a filter: that element leaves, or the queue is reported empty or without a match; it stays sound exactly if the element was not the last behind others |
| BlockingQueue.Queue.PutBehindRemoved | plugins/can/linux/common/queue/queue_internal.c:122-128 | after a filtered get of the last element behind others, an element put at the end is counted but not in the queue |
| BlockingQueue.Queue.FlushPut | plugins/can/linux/common/queue/queue.c:273-285 | leaves the new element alone in the queue, or none if it could not be put |
| QueueMonitor.GetDoes | plugins/can/linux/common/queue/queue_internal.c:171-214 | a get takes the first element; on an empty queue it sleeps exactly if it may wait and the queue is open, and returns empty-handed otherwise |
| QueueMonitor.PutDoes | plugins/can/linux/common/queue/queue_internal.c:97-162 | a put is accepted exactly if the queue is open and not full and memory is there, sleeps exactly if it is open and full and may wait, and fails otherwise |
| QueueMonitor.FlushDoes | plugins/can/linux/common/queue/queue.c:273-285 | a flush takes everything out, and a put under the same lock is then accepted exactly if the queue is open and memory is there |
| QueueMonitor.GetKeeps | plugins/can/linux/common/queue/queue_internal.c:177-181 | every step keeps: if a getter sleeps, each queued element has a woken getter coming |
| QueueMonitor.PutKeepsIff | plugins/can/linux/common/queue/queue_internal.c:107-113 | a step keeps the putters' guarantee, that while one sleeps each free place has a woken putter coming, exactly if it is guarded: no flush, alone or with a put under the same lock, while a putter sleeps and too few are woken to fill the places it leaves, and no failure of a woken putter while one sleeps and no further one was woken than places are free |
| QueueMonitor.CloseKeeps | plugins/can/linux/common/queue/queue.c:174-190 | every step keeps: nobody sleeps on a closed queue except until the closing thread has broadcast |
| QueueMonitor.DataKeeps | plugins/can/linux/common/queue/queue_internal.c:115-198 | every step keeps: within capacity, what was put is what left plus what is queued, in order or sorted |
| QueueRuns.EveryRun | plugins/can/linux/common/queue/queue_internal.c:93-214 | over every run of any threads: no getter's wakeup is lost, nobody sleeps on a queue that is closed unless a closing thread has still to broadcast, nothing is lost or duplicated, unsorted queues are FIFO and sorted ones stay sorted |
| QueueRuns.GuaranteeIffGuarded | plugins/can/linux/common/queue/queue_internal.c:93-214 | the putters' guarantee holds throughout a run, with flushes, closing, reopening and failed allocations, exactly if each step of it was guarded |
| QueueRuns.CalmRun | plugins/can/linux/common/queue/queue_internal.c:93-214 | it does if no putter sleeps whenever the queue is flushed or closed or a woken putter fails to allocate, so if no put_wait is in progress then |
| QueueRuns.SleepersHaveReason | plugins/can/linux/common/queue/queue_internal.c:106-181 | when nothing is on its way, a sleeping getter means an open empty queue, and a sleeping putter an open one, which is full if every step so far was guarded |
| QueueRuns.GetWaitReturns | plugins/can/linux/common/queue/queue.c:245-257 | in every run queue_get_wait returns with the first element, or because it met the queue empty and closed |
| QueueRuns.PutWaitReturns | plugins/can/linux/common/queue/queue.c:218-229 | in every run queue_put_wait returns with its element accepted, unless it met the queue closed or its allocation failed |
| QueueRuns.FlushStrandsPutter | plugins/can/linux/common/queue/queue_internal.c:70-91 | a run whose flush leaves a putter asleep at an open queue with a free place and nothing on its way |
| QueueRuns.FailedAllocationStrandsPutter | plugins/can/linux/common/queue/queue_internal.c:115-118 | a run in which a woken putter's failed allocation does the same |
| QueueRuns.ReopenStrandsPutter | plugins/can/linux/common/queue/queue.c:174-190 | a run in which closing and reopening does, because new_data is read again without the lock before the broadcasts |
| BlfFormat.PaddingAlignsIff | plugins/can/linux/main/blf/blfparser.c:205-210 | the skipped padding reaches 4-byte alignment exactly for even sizes |
| BlfWriter.StoredIsContainer | plugins/can/linux/main/blf/blfparser.c:213-291 | a written container is one, and its data are what was put in: as they are, or, flagged as compressed, what inflating gives back |
| BlfWriter.StoredCarries | plugins/can/linux/main/blf/blfparser.c:213-291 | containers in a row, compressed or not in any mixture, are a body, and its flat byte string is the uncompressed data |
| BlfWriter.WrittenFile | plugins/can/linux/main/blf/blfparser.c:451-498 | behind a file header of any size it announces, with the padding of what exceeds 144 bytes, the body starts where the containers do |
| BlfFormat.AllDeliveredIff | plugins/can/linux/main/blf/blfreader.c:317-321 | all messages of a list are reported exactly if no data length code exceeds what its message type allows |
| BlfWriter.OverlongLosesAll | plugins/can/linux/main/blf/blfreader.c:317-321 | behind a message of any type whose length code is greater than 8, or 64 for CAN FD, nothing is reported, itself included |
| BlfWriter.MessageReads | plugins/can/linux/main/blf/blfapi.h:98-150 | a written message of any of the four types is read back with its bus, identifier, length and data, or is too long |
| BlfWriter.ReportFields | plugins/can/linux/main/blf/blfreader.c:267-336 | which bytes of any message object, zeros behind its end, become bus, identifier, length and data, and which length is too great |
| BlfWriter.ToldIsDelivered | plugins/can/linux/main/blf/blfreader.c:243-373 | of a list of written messages and other objects, what is reported are the fields of the messages up to the first that is too long |
| BlfStream.SizedStream.ReadOrSkip | plugins/can/linux/main/blf/blfstream.c:26-35 | delivers the next bytes or fails at the end of the file; skipping moves on, even past the end |
| BlfStream.SizedStream.UpdateBytesLeft | plugins/can/linux/main/blf/blfstream.c:122-140 | reduces the counter and closes the stream at zero |
| BlfStream.SizedStream.InitFromMem | plugins/can/linux/main/blf/blfstream.c:93-106 | opens a non-empty buffer |
| BlfStream.SizedStream.DetermineBytesLeft | plugins/can/linux/main/blf/blfstream.c:37-54 | sets the counter to the true remainder, or fails at the end |
| BlfHandle.Handle.ReadOrSkip | plugins/can/linux/main/blf/blfparser.c:126-186 | succeeds exactly if enough is left of the flat byte string, or of the raw file between containers, delivers or skips its next bytes and leaves the rest, across any number of containers; the mutual recursion ends |
| BlfHandle.Handle.Read | plugins/can/linux/main/blf/blfparser.c:189-203 | the same for blfHandleRead |
| BlfHandle.Handle.SkipPadding | plugins/can/linux/main/blf/blfparser.c:205-210 | skips the padding, in the file or in the flat byte string |
| BlfHandle.Handle.Skip | plugins/can/linux/main/blf/blfparser.c:433-449 | skips bytes and their padding, in the file or in the flat byte string |
| BlfHandle.Handle.Uncompress | plugins/can/linux/main/blf/blfparser.c:213-246 | yields the payload, decompressed if it is marked so |
| BlfHandle.Handle.ReadLogg | plugins/can/linux/main/blf/blfparser.c:249-291 | opens a container as the memory stream, peeking its first object unless the peek flag is set; other objects pass |
| BlfHandle.Handle.PeekObjectInternal | plugins/can/linux/main/blf/blfparser.c:331-362 | between containers with the flag set it changes nothing of what is still to be read; otherwise it reads one object header if one is there |
| BlfHandle.Handle.PeekObject | plugins/can/linux/main/blf/blfapi.c:24-35 | the same for blfPeekObject |
| BlfHandle.Handle.Open | plugins/can/linux/main/blf/blfparser.c:451-498 | succeeds exactly if a whole file header with the right signature is there, and leaves the file at its body with a counter that exceeds the true remainder |
| BlfHandle.Handle.ReadObject | plugins/can/linux/main/blf/blfapi.c:80-109 | reads the rest of a peeked object of a known type off the flat byte string, and refuses other types |
| BlfHandle.Handle.SkipObject | plugins/can/linux/main/blf/blfapi.c:161-174 | skips the rest of a peeked object and its padding |
| BlfHandle.Handle.ReadObjects | plugins/can/linux/main/blf/blfreader.c:243-373 | reports bus, identifier, length and data of exactly the messages before the first overlong one, in order, however the containers cut them and whatever other objects stand between, and comes to the end exactly if none is overlong |
| BlfHandle.ProcessFile | plugins/can/linux/main/blf/blfreader.c:212-376 | opening a file and reading it reports the messages its body carries, up to the first overlong one, and its end exactly if there is none |
| BlfHandle.ReadBack | plugins/can/linux/main/blf/blfreader.c:212-376 | objects cut into containers at any places, some compressed, behind a file header are read back in order, all of them exactly if no message is overlong |
| BlfHandle.ReadWritten | plugins/can/linux/main/blf/blfreader.c:212-376 | a file of written messages and other objects reports bus, identifier, length and data of its messages, up to the first that is too long |

## Left out

* Hash map: releasing of copied keys, statistics, and the two bundled hash functions; table sizes at and above
  the int-shift limit, where the source's behaviour is undefined.
* Ring: the C weak memory model, `mpscq_count`, and destruction.
- Mpscq.Mpscq.Dequeue: does not model the fences; the private tail is updated together with the exchange it follows.
* Signals: signals of 64 bits, whose mask shift is undefined in C, and those outside `Fits`, for which the
  source accesses memory out of bounds; scaling, offsets and the floating-point wrappers around raw values.
- CanFrames.CanFrameToFlvalue: the value objects of the host are not modelled, nor is the rounding of the product.
- CanFrames.FillSendingData: asks for values that are not negative and below 2^64, as converting any other double
  to uint64_t is undefined in C; rounding of doubles is not modelled.
- SignalLaws.NegativeSpills: speaks of integers. The encoders convert a double, which for negative values is
  undefined in C.
- CanSender.BuildFrames: builds each frame in a fresh buffer and stores it, where the source fills the array element itself.
* Frames: CAN FD, sending and timing; message identifiers above 16 bits are cut as in the source, and the round
  trip asks for identifiers that fit.
* Thread pool: thread creation, pause and resume, destruction. The worker loop and the loop of thpool_wait do not
  end by themselves; they are steps of the state machine, and only the job queue is a class.
* Queue: the release of element data, and waiting inside the class; waiting threads are in the state machine,
  which in turn has no filtered get.
- BlockingQueue.Queue.PutInternal: has no waiting variant, because a wait need not end; the monitor models it.
- BlockingQueue.Queue.GetInternal: has no waiting variant, which the monitor models. The filter is one function, the
  comparator with its second argument.
- BlockingQueue.Queue.PutBehindRemoved: the removed element is freed in C, so that the write to it is undefined there.
* BLF: malformed bodies. On those the reader ignores a failed peek and goes on with raw file bytes. Also
  statistics, the time of a message, and allocations that fail (`plugins/can/linux/main/blf/blfparser.c:222-226`
  and `:268`, `plugins/can/linux/main/blf/blfapi.c:41` and `:122-127`).
- BlfHandle.Handle.ReadOrSkip: asks that what is skipped is there, which fseek does not.
- BlfHandle.Handle.Read: asks the same.
- BlfHandle.Handle.SkipPadding: asks that the padding is there.
- BlfHandle.Handle.Skip: asks that what is skipped is there.
- BlfHandle.Handle.SkipObject: asks that the rest of the object and its padding are there.
- BlfHandle.Handle.ReadLogg: asks for a well-formed container, so the error exits after its reads are not reached.
- BlfHandle.Handle.PeekObjectInternal: asks for a well-formed body whose containers hold no containers.
- BlfHandle.Handle.PeekObject: asks the same.
- BlfHandle.Handle.Open: asks for a header size of at least 8, below which the source overruns its structure, and
  that an excess of header it skips unseen is there.
* User interface, drivers, DBC and ASC parsing.
