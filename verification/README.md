# Verification of a library of C utilities

This project models the stateful and arithmetic kernels of a library of small C utilities in Dafny and proves what
they promise: the two CRCs, union-find, the chained hash map and the channel manager built on it, the circular buffer
for one thread and for two, the doubly linked list, the work queue, the slab allocator and the tokenizer.
`dafny verify dfyconfig.toml` checks the whole project.

## How the project is laid out

| file | what it models |
|---|---|
| `Basics.dfy` | division, powers of two, finite sets, options |
| `Messages.dfy` | messages of bytes as strings of bits, in either bit order |
| `Registers.dfy` | linear feedback shift registers over GF(2) and polynomial division, for any width, bit order and generator |
| `Crc32Register.dfy`, `Crc32.dfy`, `Crc32Tables.dfy`, `Crc32Mirror.dfy` | `src/crc32.c`: bit-serial CRC-32C, the table-driven loops, the literal tables, the unreflected algorithm |
| `Crc16.dfy` | `src/crc16.c`: the branch-free byte step |
| `Forests.dfy`, `DisjointSets.dfy`, `UnionFindRuns.dfy`, `UnionFindSteps.dfy` | `src/disjoint_set.c`: forests as values, the two arrays in place, whole runs, what one step leaves in every place |
| `Positions.dfy`, `Chains.dfy`, `HashMaps.dfy`, `Iterators.dfy` | `src/hashmap.c`: bucket positions, chains as values, the heap structure, the iterator |
| `Channels.dfy`, `ChannelIds.dfy` | `src/channel.c`: open, get, close and teardown with the transport calls as a trace; when ids repeat |
| `CircularBuffers.dfy`, `ProducerConsumer.dfy`, `Deliveries.dfy`, `TornPublish.dfy` | `src/circbuf.c`: the buffer of one thread, two threads as interleaved steps, what their callers get for what they pass, and what the gap in a counter's update does |
| `Lists.dfy`, `Backlogs.dfy` | `src/list.c`, `src/queue.c` and the locked part of `src/workqueue.c` |
| `WorkQueues.dfy`, `Submissions.dfy`, `Cancelling.dfy`, `Draining.dfy` | `src/workqueue.c`: any number of workers as a transition system, what a submission is owed, cancelled items, draining |
| `Slabs.dfy`, `SlabLeases.dfy` | `src/slab.c`: units, headers and blocks in an array of bytes; who holds a unit |
| `Tokenizers.dfy` | `src/strutils.c`: `str_sep` and `str_sep_count` |

What the source changes step by step is a class or a method with loops here, proved against functions on values
(`Crc`, `Compress`, `Rehashed`, `Runs`, ...); the lemmas then say what those functions mean. The two concurrent
components are transition systems whose lemmas hold in every reachable state.

## Where the code and its description part

* A cancelled work item is not off the queue: one that still waits is completed and then run once more
  (`src/workqueue.c:108-112`). `WorkQueues.CancelledStillRuns` is the run. `Cancelling.CancelExactly` says exactly when a
  cancelled item can run again, `Cancelling.CancelBound` that it does so at most once and then never waits again, and
  `WorkQueues.CompleteMeans` exactly when an item reported complete is still in a worker's hands.
* `multitable_crc32c` takes its length as 32 bits. `Crc32.CoveredExactly` says for which lengths the whole buffer is
  covered; for those below 2^32 it always is.
* `slab_init` adds to a `size_t` without an overflow test. `Slabs.BlockFits` gives the sizes for which a block is as long
  as asked for, and those for which the unit size wraps to 0 and the division after it has no meaning.
* `include/utils/slab.h` says that freeing can fail for a block that is not from the pool. The code looks at the canary
  only: freeing a block twice succeeds (`Slabs.Slab.Free`). `SlabLeases.StaleExactly` says exactly when such a free lets
  two clients come to hold one unit.
* `include/utils/strutils.h` calls `str_sep` a clone of `strsep`. It skips empty tokens and never returns NULL at the
  end of a string. `Tokenizers.StrsepExactly` says exactly when one call of each has the same outcome.
* The wrap of a buffer counter is a second store after its increment. With a publish of one store the buffer is first
  in, first out over every interleaving; with two, in every run in which no pop reads the push counter in that gap, at the
  wrap, after taking everything (`ProducerConsumer.Misled`). `ProducerConsumer.StepExactly` says that this read is the only
  step that breaks the invariant, and `TornPublish.InOrderExactly` that in a buffer of any size some run goes on from it
  to pop more than was pushed.
* `channel_manager_init` leaves `open_channels` as it was. The model starts it at any value: the count of open channels
  is right exactly when that value is 0. Ids are the value of this counter, so two open channels can have the same one
  (`ChannelIds.IdsRepeat`). `ChannelIds.DistinctExactly` says exactly when they do not, and
  `ChannelIds.CloseLastExactly` which close keeps the next open safe.

## Model

| member | source | states |
|---|---|---|
| `Crc32.SingleTable` | src/crc32.c:200-210 | the byte-at-a-time loop computes the bit-serial CRC-32C of the buffer from any seed |
| `Crc32.SliceBy8` | src/crc32.c:672-727 | prologue, eight-byte blocks in either byte order and epilogue together compute the bit-serial CRC of exactly the bytes the 32-bit lengths cover |
| `Crc32.MultiTable` | src/crc32.c:729-741 | the prologue of 1 to 4 bytes chosen from the buffer's address changes nothing; length 0 returns the seed |
| `Crc32.ComputeCrc32` | src/crc32.c:743-750 | at any address, in either byte order, the result is the bit-serial CRC of the covered bytes, and of the whole buffer below 2^32 bytes |
| `Crc32.CoveredExactly` | src/crc32.c:729-750 | how many bytes are covered for any length and address; it is the whole buffer exactly when the length is below 2^32 or exceeds it by less than the prologue |
| `Crc32.RunByte` | src/crc32.c:133-198 | a lookup in the first table is eight zero bits through the register |
| `Crc32.LookupWord` | src/crc32.c:699-705 | running the register four more bytes over a word is one lookup for each of its bytes in four consecutive tables |
| `Crc32.LittleMeaning` | src/crc32.c:697-720 | the eight lookups of a little-endian block feed its eight bytes in order |
| `Crc32.BigMeaning` | src/crc32.c:691-710 | so do the byte-wise lookups of a big-endian block |
| `Crc32Tables.TableLinear` | src/crc32.c:239-665 | every table of the recurrence is linear over exclusive or |
| `Crc32Tables.Entries` | src/crc32.c:133-665 | at all eight powers of two the recurrence gives the literal entries of all eight tables, the first of which is also `crc32Table` |
| `Crc32Tables.TableDecided` | src/crc32.c:133-665 | any linear table with these entries is the recurrence's at every byte |
| `Crc32Register.CrcAppend` | src/crc32.c:743-750 | passing the CRC of one part as the seed of the next gives the CRC of the concatenation |
| `Crc32Register.BurstDetected` | src/crc32.c:672-750 | two messages of equal length that differ only within 32 consecutive bits never have the same CRC |
| `Crc32Register.GeneratorMeaning` | src/crc32.c:561-566 | the feedback word is the generator of CRC-32C, x^32 included |
| `Crc32Register.CrcIsRemainder` | src/crc32.c:561-750 | a word is the CRC if and only if its polynomial is the remainder of the message polynomial divided by the generator |
| `Crc32Mirror.ReverseBits` | include/utils/utils.h:288-293 | `u8_bit_reverse` turns least-significant-first bits into most-significant-first ones |
| `Crc32Mirror.ReverseMirrors` | include/utils/utils.h:303-310 | `u32_bit_reverse` carries the reflected register, step by step, to the unreflected one with generator 0x1EDC6F41 |
| `Crc32Mirror.ReflectedIsTextbook` | src/crc32.c:743-750 | the reversed CRC is the most-significant-bit-first division of the reversed bytes from the reversed seed |
| `Crc16.Crc16Itu` | src/crc16.c:11-21 | the loop computes the bit-serial CRC-16 from any seed |
| `Crc16.CrcByte` | src/crc16.c:14-18 | the five branch-free assignments are eight steps of the register |
| `Crc16.BurstDetected` | src/crc16.c:11-21 | messages of equal length that differ only within 16 consecutive bits never have the same CRC |
| `Crc16.GeneratorMeaning` | src/crc16.c:14-18 | the register divides by x^16 + x^12 + x^5 + 1 |
| `Crc16.CrcIsRemainder` | src/crc16.c:11-21 | a word is the CRC if and only if it is the remainder of the message polynomial |
| `DisjointSets.DisjointSet.Make` | src/disjoint_set.c:10-24 | refuses sizes at or above the limit and changes nothing then; otherwise makes singletons |
| `DisjointSets.DisjointSet.Find` | src/disjoint_set.c:26-42 | returns the root and leaves exactly the compressed forest: every node of the walk hangs below the root, nothing else moves |
| `DisjointSets.DisjointSet.Union` | src/disjoint_set.c:44-62 | leaves the forest of union by rank after both compressions, still well formed, and nothing else in the arrays; both nodes have the root of the first, or that of the second if its rank was higher |
| `UnionFindSteps.Survivor` | src/disjoint_set.c:52-59 | after a union every node of the two classes has the root of the first node, or that of the second if its rank was higher |
| `UnionFindSteps.SurvivorRank` | src/disjoint_set.c:60-61 | the surviving root's rank grows by one exactly when two different roots had the same rank; no other rank changes |
| `UnionFindSteps.FindExactly` | src/disjoint_set.c:26-42 | a find hangs every node that following parents from its argument visits below the node that walk ends at, and changes no other entry |
| `UnionFindSteps.UniteExactly` | src/disjoint_set.c:44-62 | the parent of every node after a union: the survivor for both roots, their own root for the other nodes on the two walks, the old parent for the rest |
| `DisjointSets.DisjointSet.NumRoots` | src/disjoint_set.c:64-74 | counts the roots |
| `Forests.CompressKeeps` | src/disjoint_set.c:34-39 | path compression keeps ranks increasing and changes no node's root |
| `Forests.LinkRoot` | src/disjoint_set.c:52-61 | linking two roots gives the nodes of both one root and leaves all others theirs |
| `UnionFindRuns.StepKeepsValid` | src/disjoint_set.c:26-62 | in every reachable forest rank strictly increases along each edge, which bounds both loops of find |
| `UnionFindRuns.ConnectedIsEquivalence` | src/disjoint_set.c:44-62 | being connected by united pairs is an equivalence |
| `UnionFindRuns.SameRootIffConnected` | src/disjoint_set.c:26-62 | after any run two nodes have the same root if and only if a walk of united pairs connects them |
| `UnionFindRuns.RunBalanced` | src/disjoint_set.c:52-61 | every class has at least 2^rank members |
| `UnionFindRuns.WalkIsLogarithmic` | src/disjoint_set.c:26-62 | a walk to the root has at most log2 of the class size, so of the node count, edges |
| `UnionFindRuns.RootsCount` | src/disjoint_set.c:44-74 | the number of roots is the number of nodes less the unions that joined two classes; find never changes it |
| `UnionFindRuns.RootsAreClasses` | src/disjoint_set.c:64-74 | the number of roots is the number of equivalence classes |
| `Positions.PositionIsMod` | src/hashmap.c:16-17 | the mask selects the remainder of the hash by the capacity |
| `Positions.DoubledPosition` | src/hashmap.c:57-69 | when the capacity doubles an item of bucket p belongs to p or to p plus the old capacity |
| `Chains.SweptMoves` | src/hashmap.c:70-80 | one relinking step of the sweep: the item goes to the front of the new bucket, the part of its bucket not yet visited is as before |
| `Chains.SweptPlaced` | src/hashmap.c:63-86 | after one sweep every item is in the bucket its stored hash selects |
| `Chains.RehashedOrder` | src/hashmap.c:63-86 | of two items of one bucket, both that stay keep their order and both that move are reversed in their new bucket |
| `Chains.MoveStored` | src/hashmap.c:70-80 | relinking neither loses nor adds an item |
| `Chains.FindDecides` | src/hashmap.c:167-179 | whatever the hash function, a key is in the table if and only if its own chain holds it |
| `HashMaps.HashMap.constructor` | src/hashmap.c:90-98 | an empty map with 32 buckets |
| `HashMaps.HashMap.CountItems` | src/hashmap.c:28-41 | walking the links counts every item |
| `HashMaps.HashMap.Lint` | src/hashmap.c:43-50 | in every state that the operations keep, walking the chains finds as many items as the count says, which is the number of keys: the assertion never fails |
| `HashMaps.HashMap.SweepBucket` | src/hashmap.c:65-85 | the inner loop leaves the table of a bucket swept: items kept in order, moved items reversed in the new bucket |
| `HashMaps.HashMap.Rehash` | src/hashmap.c:52-88 | doubles the capacity and leaves the same items, each in its new bucket, the links and the count as they must be, and the lint at its end holds |
| `HashMaps.HashMap.MakeRoom` | src/hashmap.c:128-129 | rehashes exactly when 5 * count > 4 * capacity, after which the density is at most 0.8; otherwise the table stays as it is |
| `HashMaps.HashMap.Insert` | src/hashmap.c:122-159 | refines map update: no key twice, every item placed, count the number of keys, capacity 32 times a power of two, 5 * (count - 1) <= 4 * capacity; a new item goes last in the bucket its hash selects by remainder, and an overwritten one keeps its place |
| `HashMaps.HashMap.Get` | src/hashmap.c:161-180 | refines map lookup |
| `HashMaps.HashMap.Delete` | src/hashmap.c:182-213 | refines map removal, returns the old value, and takes exactly one item out of its chain |
| `Iterators.MapIterator.constructor` | src/hashmap.c:215-220 | a new iterator has every item to come |
| `Iterators.MapIterator.Next` | src/hashmap.c:222-243 | returns the first item to come and leaves the rest; -1 exactly when nothing is left |
| `Iterators.MapIterator.AfterDelete` | src/hashmap.c:226-239 | deleting the entry just returned leaves the iterator in place with the same items to come |
| `Iterators.IteratesModel` | src/hashmap.c:215-243 | an iteration over an unchanged map goes through every key of the model once, with its value |
| `Channels.ChannelManager.constructor` | src/channel.c:427-430 | an empty manager, `open_channels` still unset |
| `Channels.ChannelManager.Open` | src/channel.c:453-489 | the types that open are exactly 1 to 4, and each opens when nothing else fails; which error each failure gives, in order; on success set up, flushed, counted and filed under its device, otherwise nothing changes; ids stay different exactly when nobody has the new one |
| `Channels.ChannelManager.Get` | src/channel.c:491-515 | the id and transport of an open channel, which has been set up and not torn down |
| `Channels.ChannelManager.Close` | src/channel.c:517-531 | tears the transport down and removes the channel; the number of open channels and the count agree throughout |
| `Channels.ChannelManager.TeardownAll` | src/channel.c:542-552 | every open channel is torn down exactly once, in the order of the buckets, although each close deletes from the map being iterated; the map ends empty |
| `Channels.OneMoreId` | src/channel.c:484-487 | filing a channel keeps the ids of open channels different if and only if they were and none has its id |
| `ChannelIds.DistinctExactly` | src/channel.c:453-531 | in a run of opens and closes the ids are different throughout if and only if no open takes a number in use |
| `ChannelIds.Replay` | src/channel.c:453-531 | a manager asked to open and close as in such a run files the same channels and shows the same counter |
| `ChannelIds.CloseGuards` | src/channel.c:526-527 | after a close the next number is free if and only if no other channel has the number the counter showed |
| `ChannelIds.OpenKeepsCompact` | src/channel.c:484-487 | channels numbered 1 to the counter stay so after an open |
| `ChannelIds.CloseLastExactly` | src/channel.c:526-527 | from such a numbering a close keeps it, and the next open safe, if and only if it closes the channel with the last number |
| `ChannelIds.IdsRepeat` | src/channel.c:484-531 | open a, open b, close a, open c leaves b and c open with id 2 |
| `Channels.Alternates` | src/channel.c:475-528 | in every run each transport that is set up is torn down before its name is set up again, and none is torn down twice |
| `CircularBuffers.TotalOfWraps` | src/circbuf.c:16-18 | the corrected difference of the wrapped counters is the number of elements |
| `CircularBuffers.WrapAdvance` | src/circbuf.c:55-57 | incrementing and wrapping keeps the counter the true count modulo twice the size |
| `CircularBuffers.SlotOfWrap` | src/circbuf.c:52-53 | the slot taken from the wrapped counter is the slot of the true count |
| `CircularBuffers.CircularBuffer.constructor` | include/utils/circbuf.h:25-33 | an empty buffer of any size, 0 included |
| `CircularBuffers.CircularBuffer.Push` | src/circbuf.c:40-59 | refines appending to a queue of at most size elements; -1 exactly when full |
| `CircularBuffers.CircularBuffer.Pop` | src/circbuf.c:11-38 | refines taking, or looking at, the oldest element; -1 exactly when empty; a slot is zeroed when taken if and only if the buffer cleans up |
| `CircularBuffers.CircularBuffer.FreeSpace` | src/circbuf.c:61-70 | the size less the number of elements |
| `CircularBuffers.CircularBuffer.Flush` | include/utils/circbuf.h:75-79 | the queue is empty again |
| `ProducerConsumer.StepExactly` | src/circbuf.c:11-59 | a step of either thread, with stale snapshots, bytes copied one at a time and counters published in one store or two, keeps the invariant if and only if it is not the misleading snapshot |
| `ProducerConsumer.Fifo` | src/circbuf.c:11-59 | over every interleaving without that snapshot the popped elements are a prefix of the published ones, whole, with at most size outstanding; `Deliveries.Delivers` says which those are |
| `ProducerConsumer.AtomicFifo` | src/circbuf.c:11-59 | when each counter advance is one store, over every interleaving |
| `ProducerConsumer.NoConflict` | src/circbuf.c:11-59 | the slot being written is never the slot being read or cleared, and no access leaves the buffer |
| `ProducerConsumer.Refusals` | src/circbuf.c:16-50 | a push is refused exactly when all slots were taken, a pop exactly when none was, by the snapshot read |
| `ProducerConsumer.WaitFree` | src/circbuf.c:11-59 | a call under way always has a step of its own that brings it nearer its end, and no step of the other thread takes it back |
| `ProducerConsumer.TornPush` | src/circbuf.c:55-57 | what a reader computes between increment and wrap: the right number, or twice the size when it has drained the buffer at the wrap |
| `ProducerConsumer.TornPop` | src/circbuf.c:33-35 | the same gap in the pop counter misleads nobody |
| `Deliveries.Delivers` | src/circbuf.c:11-59 | over the same interleavings: the elements passed to pushes that read a free slot, in order, are those published and then the one being copied; the popped ones are a prefix of them, as many as pops that read an element, not peeks; both return the first one not yet popped |
| `Deliveries.AtomicDelivers` | src/circbuf.c:11-59 | the same over every interleaving when each counter advance is one store |
| `Deliveries.PoppedSlots` | src/circbuf.c:29-32 | a popped slot that no push has begun to fill is all zeros when pops clean up, and its element when they do not |
| `Deliveries.CanStart` | src/circbuf.c:11-50 | in every such state a thread outside a call can start one with what the other counter shows at that moment |
| `TornPublish.GapReached` | src/circbuf.c:16-57 | in a buffer of any size, with two stores, a sound run leads to the misleading snapshot |
| `TornPublish.MisledOvertakes` | src/circbuf.c:16-36 | from there the consumer pops a slot although everything pushed had been popped |
| `TornPublish.InOrderExactly` | src/circbuf.c:11-59 | the popped elements are a prefix of the pushed ones over every interleaving if and only if a publish is one store or there is no slot |
| `Lists.List.constructor` | src/list.c:11-15 | an empty list |
| `Lists.List.Append` | src/list.c:17-28 | the node becomes the last of the sequence |
| `Lists.List.AppendLeft` | src/list.c:30-41 | the node becomes the first |
| `Lists.List.Pop` | src/list.c:43-57 | takes the last node; -1 exactly when empty |
| `Lists.List.PopLeft` | src/list.c:59-73 | takes the first node; -1 exactly when empty |
| `Lists.List.RemoveNode` | src/list.c:75-98 | removes any member node and nothing else |
| `Lists.List.FindNode` | src/list.c:100-108 | finds a node if and only if it is a member |
| `Lists.ForwardsIsBackwards` | src/list.c:17-98 | the chain from head along next is the reverse of the chain from tail along prev, has no repetition, ends in null, and is the only one |
| `Backlogs.Backlog.Put` | src/workqueue.c:68-76 | the item is queued last and the count stays the length |
| `Backlogs.Backlog.Get` | src/workqueue.c:52-66 | the oldest item, or null exactly when nothing waits, and the count stays the length |
| `WorkQueues.StepKeeps` | src/workqueue.c:95-159 | every step of any worker or client keeps each pending item in one place, the count and the order of the queue |
| `WorkQueues.Exclusive` | src/workqueue.c:52-123 | in every reachable state an item is pending if and only if it waits once or one worker holds it, never both, and no item runs on two workers |
| `WorkQueues.AddExactly` | src/workqueue.c:150-159 | adding an item keeps this if and only if the item was not pending; the item is then queued, last, and no cancel request for it stands |
| `Submissions.CancelledExactly` | src/workqueue.c:150-190 | in every run an item counts as cancelled if and only if some request came after its last submission |
| `Submissions.CheckExactly` | src/workqueue.c:108-112 | a taken item is completed before its start if and only if it is cancelled in that sense, and is started in any case |
| `Submissions.YieldExactly` | src/workqueue.c:114-118 | after a call that returned more than 0 an item without such a request goes to the end of the backlog, whatever others do first; any other is completed and done with |
| `Submissions.StatusTells` | src/workqueue.c:112-157 | an item that waits for its first start is queued; one that runs or is being put back is in progress |
| `Submissions.RecordsCount` | src/workqueue.c:52-118 | as many calls are recorded as were made, and everything put into the backlog waits there or was taken out |
| `WorkQueues.RoundRobin` | src/workqueue.c:68-117 | a yielded item is taken again only after every item waiting when it was put back, in their order |
| `Cancelling.CancelExactly` | src/workqueue.c:107-190 | a cancelled item is started in some further run if and only if there is a worker and the item waits or is held before its start or its return |
| `Cancelling.CancelBound` | src/workqueue.c:107-190 | it is started at most once more, and once it has been, or if it could not be, it never waits or starts again unless added anew |
| `Cancelling.GoneForGood` | src/workqueue.c:107-190 | an item past its last start stays out of the backlog in every further run |
| `WorkQueues.CompleteMeans` | src/workqueue.c:192-197 | when the status tells the truth: for items not cancelled always, for others unless a worker is about to run them |
| `WorkQueues.CancelledStillRuns` | src/workqueue.c:108-112 | the run in which a cancelled item is completed and then run |
| `Draining.AddsLoad` | src/workqueue.c:150-159 | submitting any different items to idle workers gives the state the next three start from |
| `Draining.DrainsExactly` | src/workqueue.c:95-123 | with finite needs, no adds and no cancels, draining makes exactly the needed calls of each item and completes each once |
| `Draining.StepsDecrease` | src/workqueue.c:104-121 | every step but a look at the empty backlog lowers a bound on the steps to come |
| `Draining.DrainEnds` | src/workqueue.c:95-123 | every run of a drain can be carried on to its end within that bound, whatever has been interleaved so far |
| `Slabs.BlockFits` | src/slab.c:22-23 | for which sizes a unit holds a block as long as asked for, and for which the 64-bit size wraps |
| `Slabs.Init` | src/slab.c:19-33 | -1 exactly when not one unit fits; otherwise the blob is zeroed, nothing is leased, a block is as long as asked for and by less than 8 longer, there are as many units as fit, and their number is returned, modulo 2^32 as a C int |
| `Slabs.Slab.Alloc` | src/slab.c:35-51 | the first unit not held; the eight bytes before the block become a one and the canary 0xdeadbeaf and no other byte changes; -1 exactly when all units are held |
| `Slabs.Slab.Free` | src/slab.c:53-64 | the canary decides; a held block is always freed, and so is one freed before, but never one that was not handed out |
| `Slabs.Slab.Write` | src/slab.c:13-17 | a client's store into a block it holds changes no header |
| `Slabs.Slab.BlocksApart` | src/slab.c:40-45 | blocks lie in the blob, aligned in it, and share no byte with each other or with any header |
| `SlabLeases.Perform` | src/slab.c:35-64 | a slab asked to allocate or free holds and hands out the units that the leases say |
| `SlabLeases.FreeExactly` | src/slab.c:53-64 | a free keeps every held unit with one live lease if and only if it is not of a block given up before whose unit is out again |
| `SlabLeases.StaleExactly` | src/slab.c:35-64 | after a free, allocations alone can give one unit to two holders if and only if it was such a free |
| `SlabLeases.FairRuns` | src/slab.c:35-64 | in a run without such a free no unit ever has two holders |
| `Tokenizers.StrSep` | src/strutils.c:248-265 | skips separators, returns the run behind them, writes one terminator and moves past it; NULL and empty strings come back unchanged |
| `Tokenizers.StrsepExactly` | src/strutils.c:248-265 | token and memory are those of `strsep` exactly when the string does not start with a separator, and the whole outcome exactly when one is also left |
| `Tokenizers.StrSepCount` | src/strutils.c:267-288 | the number of tokens; 1 for a NULL separator, 0 for a NULL or empty string |
| `Tokenizers.RunsExactly` | src/strutils.c:248-288 | the tokens are exactly the maximal stretches without separators |
| `Tokenizers.RunsInOrder` | src/strutils.c:248-288 | they come from left to right, with a separator between any two |
| `Tokenizers.Tokenize` | src/strutils.c:248-265 | calling `str_sep` until it returns an empty token yields all of them, as many as `str_sep_count` counts, each left in memory as a terminated string |

## Left out

- The tables of `src/crc32.c` are defined by their recurrence; of the literals the entries at the powers of two are compared, which decide a table that is linear; that the literal tables are linear is not shown. `crc32_tab` is unused and has another polynomial.
- Integer widths: counters of the buffer, the map, the disjoint set and the queue are unbounded integers; `DISJOINT_SET_MAX` is a parameter, and the 64-bit sizes of the slab and the 32-bit lengths of the CRC are modelled with their wrap.
- The density test compares two doubles. Capacities are powers of two, so the quotient is exact and never equals 0.8 for any capacity below 2^50; the model compares 5 * count with 4 * capacity.
- The hash function is any function from keys to numbers; null keys with a caller's hash, null values and the state after `hash_map_free` are not modelled.
- The step machine of the buffer assumes sequential consistency for the bytes copied and for the two counters; a store is not split further.
- The work queue's wake-up events, idle test, slices of time, null arguments, `workqueue_destroy` and thread creation; only safety and the draining bound are claimed, not that a worker is woken.
- `list_check_links`, `list_remove_nodes`, `list_insert_node`, `list_insert_nodes` and the singly linked list.
- The transports behind `src/channel.c` are values and events, and the functions that `channel_get` hands out are not modelled; a failed set-up is a parameter and leaves no event. Memory exhaustion is a parameter of open and not modelled elsewhere.
- Big-endian machines for the slab: the words of a header are modelled least significant byte first.
- Alignment of the blob and of blocks in memory, and frees of addresses whose header lies outside the blob.
- Everything about the operating system, time and terminals: `src/serial.c`, `src/sockutils.c`, `src/fdutils.c`, `src/event.c`, `src/file.c`, `src/procutils.c`, `src/random.c`, `src/logger.c`, `src/arg_parser.c`, `src/pcap_gen.c`, `src/bus_server.c`.
- `src/filo.c`, `src/stack.c`, `src/strlib.c`, `src/memory.c`, the other string and bit helpers: they would add only easy members.
