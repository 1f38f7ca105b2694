# Verified models of the support libraries

This project models the repository's support libraries and proves what they are for.
Each group of files follows one component.

- **Lock-free queue** (`Queue*.dfy`, `Semaphore.dfy`, `BlockingQueue.dfy`). The
  single-producer, single-consumer queue is a step machine: every atomic load or store of
  either thread is one step, interleaved at will. An inductive ring invariant gives FIFO order,
  honest "empty" and the capacity promise, over all runs and for every constructor argument. A
  queue made for 0 elements has a block of one slot, which is full when its indices are equal; it
  is shown to behave like its twin with a two-slot block. Freedom from faults needs an argument
  from 1 up to 2^63 - 1: at 0 an in-code assertion can fail, from 2^63 on the first write is out
  of bounds, and otherwise there are no faults. The semaphore and the blocking queue are step
  machines on top.
- **Half-precision arithmetic** (`HalfFormat.dfy`, `HalfRounding.dfy`, `HalfAdd.dfy`,
  `HalfMul.dfy`, `HalfFma.dfy`, `HalfSqrt.dfy`). Values are integers in units of 2^-24. Addition,
  multiplication, fused multiply-add and square root are proved to be the exact result rounded
  once to nearest, ties to even (sections 3.4, 4.3.1 and 5.4.1 of IEEE 754-2008).
- **Hash table** (`BlockedAllocator.dfy`, `HashChains.dfy`, `HashSpec.dfy`, `HashRehash.dfy`,
  `Hashtable.dfy`, `HashRuns.dfy`). Chains are relinked in place, by pointer or by 32-bit
  location. The table refines a plain collection of distinct items over all runs.
- **Edit distance** (`EditCosts.dfy`, `EditDistance.dfy`), **calendar** (`Calendar.dfy`,
  `DateTime.dfy`), **chunked coding** (`ChunkedCoding.dfy`, `ChunkedRuns.dfy`; section 7.1 of
  RFC 9112), **block-chain stream** (`ChainedStrStream.dfy`) and **LRU cache** (`LruCache.dfy`).

`Bits.dfy` holds bitwise and 32-bit arithmetic, `Basics.dfy` what several components share.
`dafny verify dfyconfig.toml` checks everything.

Modelling conventions: masks and shifts by constants are written with `%` and `/`; memory from
the C++ heap is an identity that is never reused; loop bodies and branches that were split into
helper methods keep their order. A table's nodes are two parallel sequences, of data and of
next fields. One body stands for the pointer and the location branch of a hash table
operation; they differ only in how a reference is followed.

## Model

| member | source | states |
|---|---|---|
| `QueueRuns.Fifo` | 3rd_party/readerwriterqueue/readerwriterqueue.h:285-376 | for every constructor argument, at every moment of every interleaving: the arguments of the enqueue calls that have returned true, in call order, are the elements that dequeue and pop calls have returned, in call order, followed by the elements from the front to the tail block (from 2^63 on because the machine stops before its first write, which is out of bounds) |
| `QueueRuns.Histories` | 3rd_party/readerwriterqueue/readerwriterqueue.h:534-644 | the elements that take effect in the machine are those of the calls made to it and of the answers given to them; within a call the thread works on that call's own argument |
| `QueueSteps.ProducerKeepsInv` | 3rd_party/readerwriterqueue/readerwriterqueue.h:534-644 | every producer step, stale shadow indices, wrap-around, entering the next block and linking a new one included, keeps the ring invariant: blocks behind the tail are empty, blocks from after the front up to the tail are not, and the producer never enters the front block from behind |
| `QueueSteps.ConsumerKeepsInv` | 3rd_party/readerwriterqueue/readerwriterqueue.h:285-484 | every consumer step of try_dequeue, pop and peek keeps the same invariant; the consumer never passes the tail block and never skips a filled block |
| `QueueTheorems.ContentsAreHeld` | 3rd_party/readerwriterqueue/readerwriterqueue.h:78-96 | in a ring of blocks of two slots or more, the elements found by walking from the front block along next to the tail block are the live segments of the ring in order |
| `QueueOneSlot.TwinContents` | 3rd_party/readerwriterqueue/readerwriterqueue.h:78-96 | counting a full one-slot block as one element, a queue made for 0 elements holds what its twin, with a two-slot block in that block's place, holds |
| `QueueOneSlot.TwinProducerStep` | 3rd_party/readerwriterqueue/readerwriterqueue.h:534-644 | every producer step of the queue made for 0 elements is a step of that queue with the first block replaced by its two-slot twin |
| `QueueOneSlot.TwinConsumerStep` | 3rd_party/readerwriterqueue/readerwriterqueue.h:285-484 | every consumer step likewise |
| `QueueOneSlot.OneSlotStep` | 3rd_party/readerwriterqueue/readerwriterqueue.h:285-644 | so the queue made for 0 elements keeps its twin in the ring invariant, with the same histories and answers |
| `QueueRuns.SoundStep` | 3rd_party/readerwriterqueue/readerwriterqueue.h:285-644 | for every constructor argument every step keeps what the promises below rest on |
| `QueueTheorems.StepGood` | 3rd_party/readerwriterqueue/readerwriterqueue.h:298-306 | one step of either thread keeps the ring invariant together with the histories, the honesty of "empty" and the capacity bound |
| `QueueRuns.NoFaults` | 3rd_party/readerwriterqueue/readerwriterqueue.h:345-351 | for a constructor argument from 1 to 2^63 - 1: in no run does an in-code assertion fail, a data access leave its block, or a block link dangle |
| `QueueRuns.StaysInBounds` | 3rd_party/readerwriterqueue/readerwriterqueue.h:105-161 | for a constructor argument below 2^63, 0 included: in no run does a data access leave its block |
| `QueueRuns.HonestEmpty` | 3rd_party/readerwriterqueue/readerwriterqueue.h:298-373 | for every constructor argument: a try_dequeue, pop or peek that reports empty was right, at some instant between its call and its return the queue was empty and every element accepted had been delivered |
| `QueueRuns.CapacityPromise` | 3rd_party/readerwriterqueue/readerwriterqueue.h:556-636 | for every constructor argument: an enqueue fails only if at some instant of its call at least the number of elements asked of the constructor had been accepted and not delivered |
| `QueueRuns.DequeueRemovesOldest` | 3rd_party/readerwriterqueue/readerwriterqueue.h:311-325 | for every constructor argument: the value a dequeue or pop call returns is the oldest element, and it is the one removed |
| `QueueRuns.PeekReturnsOldest` | 3rd_party/readerwriterqueue/readerwriterqueue.h:383-421 | for every constructor argument: the value a peek call returns is the oldest element, and the contents stay as they are |
| `QueueRuns.NeverStuck` | 3rd_party/readerwriterqueue/readerwriterqueue.h:285-644 | between calls a thread can make any call and within a call it can take its next step, whatever malloc yields, in every run with a constructor argument below 2^63 |
| `QueueBlocks.NeverAllocates` | 3rd_party/readerwriterqueue/readerwriterqueue.h:231-237 | a try_enqueue call leaves the number and the largest size of the blocks as they are |
| `QueueBlocks.FailsForMemory` | 3rd_party/readerwriterqueue/readerwriterqueue.h:256-262 | an enqueue call that may allocate returns false only if malloc failed during the call |
| `QueueBlocks.BlockSizes` | 3rd_party/readerwriterqueue/readerwriterqueue.h:602-610 | in every run every block has the size of the initial blocks, doubled with each allocation up to MAX_BLOCK_SIZE |
| `QueueRuns.WaitFree` | 3rd_party/readerwriterqueue/readerwriterqueue.h:534-644 | every step brings its own thread strictly closer to returning and never sends the other thread back |
| `QueueTheorems.FullRingHolds` | 3rd_party/readerwriterqueue/readerwriterqueue.h:570-636 | when the producer finds its block full and no block ahead, the ring holds one less than its slots per block, which is at least the constructor argument |
| `QueueTheorems.InitialGood` | 3rd_party/readerwriterqueue/readerwriterqueue.h:105-161 | for a constructor argument from 1 to 2^63 - 1 the constructor's ring satisfies the invariant |
| `QueueConstructor.CeilToPow2` | 3rd_party/readerwriterqueue/readerwriterqueue.h:654-666 | the least power of two not below the argument; 0 for 0 and for arguments above 2^63, where the sum wraps |
| `QueueConstructor.Construct` | 3rd_party/readerwriterqueue/readerwriterqueue.h:105-161 | a ring of equal, empty blocks of the computed size and number, or a failed allocation |
| `QueueConstructor.RoomForSize` | 3rd_party/readerwriterqueue/readerwriterqueue.h:112-135 | block size and block count of the constructor leave room for the requested number of elements |
| `QueueConstructor.NoSpareRoom` | 3rd_party/readerwriterqueue/readerwriterqueue.h:112-135 | and they are no more and no larger than that takes: the least power of two in one block, or the least number of blocks of MAX_BLOCK_SIZE |
| `QueueConstructor.NoRoomWhenWrapped` | 3rd_party/readerwriterqueue/readerwriterqueue.h:105-161 | from 2^63 on, the constructor makes one block without slots |
| `QueueLimits.ZeroSizeFaults` | 3rd_party/readerwriterqueue/readerwriterqueue.h:345-351 | a queue constructed for 0 elements has a run in which the assertion that the next block is not empty fails, because the indices of a full one-slot block are equal |
| `QueueLimits.ZeroSizeDelivers` | 3rd_party/readerwriterqueue/readerwriterqueue.h:345-376 | with that assertion compiled out, the same run goes on to dequeue every element enqueued, in order |
| `QueueLimits.WrappedSizeFaults` | 3rd_party/readerwriterqueue/readerwriterqueue.h:105-161 | a queue constructed for 2^63 or more elements has a run that writes outside its block |
| `QueueLimits.FaultlessIff` | 3rd_party/readerwriterqueue/readerwriterqueue.h:105-161 | all runs are free of faults and in order if and only if the constructor argument is at least 1 and below 2^63; order alone needs no condition |
| `QueueLimits.InBoundsIff` | 3rd_party/readerwriterqueue/readerwriterqueue.h:105-161 | all runs access only slots of their blocks if and only if the constructor argument is below 2^63 |
| `Semaphore.SemStepKeepsInv` | 3rd_party/readerwriterqueue/atomicops.h:667-745 | every step of one signaller and one waiter keeps count, announced waits and kernel posts in balance |
| `Semaphore.PermitsOfCalls` | 3rd_party/readerwriterqueue/atomicops.h:667-745 | the permits handed in are those of the signal calls, the permits handed out are the waits that returned true |
| `Semaphore.Conservation` | 3rd_party/readerwriterqueue/atomicops.h:667-745 | the count never drops below -1; waits that returned true never exceed permits signalled; between calls the count is the difference and the kernel semaphore has no stray post |
| `Semaphore.HonestRefusal` | 3rd_party/readerwriterqueue/atomicops.h:690-724 | a tryWait or wait that returns false was right: at some instant between its call and its return every permit handed in had been handed out |
| `Semaphore.StaysWithin` | 3rd_party/readerwriterqueue/atomicops.h:690-734 | tryWait neither spins nor announces itself, and a wait with timeout 0 does not block in the kernel |
| `Semaphore.WaitProgress` | 3rd_party/readerwriterqueue/atomicops.h:674-708 | every step brings a wait closer to its return, except while a post already decided on is still to be made; a permit that it sees it takes |
| `Semaphore.SemNeverStuck` | 3rd_party/readerwriterqueue/atomicops.h:667-745 | no thread is stuck, but for a wait in the kernel with neither a post nor an end to its time |
| `Semaphore.NoLostWakeUp` | 3rd_party/readerwriterqueue/atomicops.h:667-745 | a waiter blocked in the kernel has a permit to come if and only if a post is there or about to be made, and then the wait can end, at the latest after one step of the signaller |
| `Semaphore.PostsMatchWaits` | 3rd_party/readerwriterqueue/atomicops.h:667-708 | a kernel post is consumed by the very wait that caused it, which then succeeds |
| `Semaphore.FailedWaitChangesNothing` | 3rd_party/readerwriterqueue/atomicops.h:690-707 | a wait that times out leaves the count as if it had never been announced |
| `BlockingQueue.BStepKeepsInv` | 3rd_party/readerwriterqueue/readerwriterqueue.h:784-943 | every interleaving of enqueue-then-signal with wait-then-dequeue keeps permits covered by published elements |
| `BlockingQueue.PermitMeansElement` | 3rd_party/readerwriterqueue/readerwriterqueue.h:861-903 | for every constructor argument: once the semaphore has granted a permit the inner try_dequeue or pop succeeds |
| `BlockingQueue.HonestFalse` | 3rd_party/readerwriterqueue/readerwriterqueue.h:861-903 | for every constructor argument: a blocking try_dequeue, pop or wait_dequeue_timed that answers false had an instant, between its call and its return, with no permit left and no element held but one whose signal was still to be given |
| `BlockingQueue.BlockingFifo` | 3rd_party/readerwriterqueue/readerwriterqueue.h:784-943 | the inner queue of every blocking run goes through a run of its own, so that elements come out in the order in which they went in |
| `BlockingQueue.BNeverStuck` | 3rd_party/readerwriterqueue/readerwriterqueue.h:784-943 | in every run with a constructor argument below 2^63 each thread can go on: enqueue then signal, wait then dequeue or pop |
| `BlockingQueue.SizeWhenQuiet` | 3rd_party/readerwriterqueue/readerwriterqueue.h:947-950 | for every constructor argument: between calls, the semaphore's count is the number of elements held |
| `HalfFormat.NearestIsNearest` | 3rd_party/half/half.hpp:820-839 | the rounding relation used below means that no other half is nearer, and that of two equally near the result is even |
| `HalfFormat.RoundsUnique` | 3rd_party/half/half.hpp:820-839 | a rounded result is determined by the exact quotient |
| `HalfFormat.QuietIsNaN` | 3rd_party/half/half.hpp:691-749 | the result of an invalid operation is a NaN, and a silenced NaN is one, with bit 9 set and no other bit changed |
| `HalfRounding.JamIsCell` | 3rd_party/half/half.hpp:2570-2576 | a right shift that keeps the lost bits in bit 0 preserves the comparison with every even multiple of the new unit |
| `HalfRounding.RoundGuard` | 3rd_party/half/half.hpp:820-839 | guard and sticky bit decide the rounding to nearest, ties to even, also into the next binade and to infinity |
| `HalfRounding.FixedRounds` | 3rd_party/half/half.hpp:884-897 | fixed2half rounds correctly, normal and subnormal results alike, for every F from 11 on; F of 11 and 12 with the sticky information all in s, from 13 on also with a jammed last bit |
| `HalfRounding.FixedOverflows` | 3rd_party/half/half.hpp:785-793 | beyond the largest exponent the nearest half is infinity |
| `HalfRounding.FixedUnderflows` | 3rd_party/half/half.hpp:800-808 | below the given exponent the nearest half is zero |
| `HalfAdd.Add` | 3rd_party/half/half.hpp:2552-2593 | for finite operands the exact sum rounded once, -0 only from two negative zeros; NaN, infinity and invalid cases as in the code |
| `HalfMul.Normalise` | 3rd_party/half/half.hpp:2630-2631 | the normalisation loop keeps the value of every nonzero magnitude |
| `HalfMul.Multiply` | 3rd_party/half/half.hpp:2618-2641 | for finite operands the exact product rounded once, with overflow and underflow; NaN, infinity and 0 times infinity as in the code |
| `HalfFma.Fma` | 3rd_party/half/half.hpp:2809-2870 | for finite operands x*y+z rounded once, including subnormal results, overflow and massive cancellation; NaN, infinity and invalid cases as in the code |
| `HalfFma.FmaByOneIsSum` | 3rd_party/half/half.hpp:2809-2870 | fma(x, 1, z) and x + z give the same half |
| `HalfFma.FmaOfNegativeZeroIsProduct` | 3rd_party/half/half.hpp:2809-2870 | fma(x, y, -0) and x * y give the same half |
| `HalfSqrt.DigitSqrt` | 3rd_party/half/half.hpp:1480-1497 | for every even F and every radicand in Q1.F: m is the integer square root of the shifted radicand and r the exact remainder |
| `HalfSqrt.FitsWord` | 3rd_party/half/half.hpp:1480-1497 | for every even F up to 30, the largest that 32 bits allow, radicand, root and trial subtrahend stay within 32 bits in every round |
| `HalfSqrt.RootRounds` | 3rd_party/half/half.hpp:3215-3216 | guard r>m and sticky r!=0 give the nearest half to the root, and a tie cannot occur |
| `HalfSqrt.NearestRootIsNearest` | 3rd_party/half/half.hpp:3206-3218 | the relation used for roots: strictly nearer to the real square root than any other half |
| `HalfSqrt.Sqrt` | 3rd_party/half/half.hpp:3206-3218 | for positive finite arguments the nearest half to the square root; zeros, infinities, negative arguments and NaN as in the code |
| `Allocator.BlockedAllocator.constructor` | 3rd_party/sslib/blocked_allocator.h:18-29 | an allocator without regions and blocks; in location mode offsets fit the low bits |
| `Allocator.BlockedAllocator.BitsFor` | 3rd_party/sslib/blocked_allocator.h:127-135 | the least number of bits that holds every offset in a block |
| `Allocator.BlockedAllocator.SetBlockSize` | 3rd_party/sslib/blocked_allocator.h:119-137 | refused in location mode once there are blocks; otherwise the size is set and, in location mode, offsets fit the low bits |
| `Allocator.BlockedAllocator.SetEnableLocationNew` | 3rd_party/sslib/blocked_allocator.h:110-117 | location mode can be entered only while there are no blocks |
| `Allocator.BlockedAllocator.New` | 3rd_party/sslib/blocked_allocator.h:139-194 | the region follows the last one or starts the next block; unless the 32-bit sum of position and size wraps, it lies in its block behind all live regions, and if the sum wraps it does not fit its block |
| `Allocator.BlockedAllocator.NewAt` | 3rd_party/sslib/blocked_allocator.h:196-258 | the same as New, together with the region's location; refused, changing nothing, outside location mode |
| `Allocator.BlockedAllocator.Reset` | 3rd_party/sslib/blocked_allocator.h:286-307 | no live regions, the first blocks kept for reuse, the others freed |
| `Allocator.LiveRegionsSafe` | 3rd_party/sslib/blocked_allocator.h:139-258 | regions since the last Reset are pairwise disjoint and lie in blocks that have not been freed, also when an undersized reserved block is replaced |
| `Allocator.LocationRoundTrip` | 3rd_party/sslib/blocked_allocator.h:260-271 | Get of the location of any element of a block yields that element if and only if the offset is below the block size and fits the low bits, and the block index fits the bits left of them |
| `Allocator.LiveRegionsFound` | 3rd_party/sslib/blocked_allocator.h:260-271 | the same holds of the start of every live region, in blocks of any size and whatever the low bits are |
| `Allocator.LiveLocationsDiffer` | 3rd_party/sslib/blocked_allocator.h:252-256 | live regions whose offsets fit the low bits and whose block indices fit the rest have distinct locations, in blocks of any size |
| `Allocator.LocationsDistinctIff` | 3rd_party/sslib/blocked_allocator.h:252-256 | all elements have distinct locations if and only if the low bits hold every offset in a block |
| `Allocator.LocationsCollide` | 3rd_party/sslib/blocked_allocator.h:252-256 | the first offset that does not fit has the location of the next block's first element |
| `Allocator.EnablingIsNotEnough` | 3rd_party/sslib/blocked_allocator.h:110-117 | a run: after enabling locations without setting the block size again, the second element's location denotes nothing |
| `Allocator.UnconfiguredFindsFirst` | 3rd_party/sslib/blocked_allocator.h:110-137 | in general: in that state a live region is found if and only if it starts its block |
| `Allocator.BlockedAllocator.NewSingle` | 3rd_party/sslib/blocked_allocator.h:196-258 | single elements handed out since a full Reset lie end to end in the blocks, in order |
| `HashChains.DerefRef` | 3rd_party/sslib/blocked_allocator.h:260-271 | in either node representation, as long as there is room, a reference leads back to its node and differs from null |
| `HashChains.RoomIff` | 3rd_party/sslib/blocked_allocator.h:260-271 | null denotes nothing and every node comes back from its reference if and only if the nodes fit the location range |
| `HashChains.RoomCapacity` | 3rd_party/sslib/blocked_allocator.h:119-137 | that range in numbers of nodes |
| `HashChains.NullDenotesNode` | 3rd_party/sslib/hashtable.h:153-163 | with the default block size, from 2^32 - 31 nodes on the null location denotes a node |
| `HashChains.DerefIsGet` | 3rd_party/sslib/blocked_allocator.h:260-271 | following a location in the table's model is the allocator's Get, on a heap of single nodes |
| `HashChains.NodesFound` | 3rd_party/sslib/blocked_allocator.h:260-271 | the reference of a node is the location that New gave, and Get leads to the region that New gave |
| `HashChains.NewNode` | 3rd_party/sslib/hashtable.h:631-632 | a new node is numbered next and its location is the reference the table stores |
| `HashTable.Hashtable.Find` | 3rd_party/sslib/hashtable.h:421-458 | finds a node if and only if an equal item is stored, and then such a node |
| `HashTable.Hashtable.Insert` | 3rd_party/sslib/hashtable.h:568-708 | for as long as a new item's node fits the location range: an equal item changes no membership and yields the end iterator; otherwise the item joins the stored items; chains stay sorted and counted; slots double when the load factor is reached; a table without slots restarts with the default slots and load factor, in pointer mode |
| `HashTable.Hashtable.LoadReached` | 3rd_party/sslib/hashtable.h:570-582 | that is when there are at least as many items per slot as the load factor says |
| `HashTable.Hashtable.Detach` | 3rd_party/sslib/hashtable.h:1062-1090 | the first inner loop leaves the staying nodes in order and collects the leaving nodes in reverse |
| `HashTable.Hashtable.Attach` | 3rd_party/sslib/hashtable.h:1092-1105 | the second inner loop puts the leaving nodes, in order again, into the slot above, which was empty |
| `HashTable.Hashtable.AddSlots` | 3rd_party/sslib/hashtable.h:995-1107 | twice the slots with the same items; each chain splits into the items that stay and those that move to slot s + n, in order |
| `HashSpec.HomeIsRemainder` | 3rd_party/sslib/hashtable.h:733-737 | an item's slot is the remainder of its hash |
| `HashRehash.DoubleHome` | 3rd_party/sslib/hashtable.h:733-737 | doubling the slots keeps an item's slot or adds the old count to it |
| `HashRehash.SplitContents` | 3rd_party/sslib/hashtable.h:995-1107 | after the split every chain is strictly ascending, every item is in the slot of its hash, and no item is lost or gained |
| `HashSpec.ItemsDistinct` | 3rd_party/sslib/hashtable.h:568-708 | no two stored items compare equal |
| `HashTable.Hashtable.CheckValid` | 3rd_party/sslib/hashtable.h:939-993 | true if and only if every slot's size is its chain's length and the sizes add up to the item count |
| `HashTable.Hashtable.Size` | 3rd_party/sslib/hashtable.h:416-419 | the number of distinct items stored |
| `HashTable.Hashtable.Reinit` | 3rd_party/sslib/hashtable.h:368-401 | empty, with the requested slots, load factor of at least 0.25 and node representation |
| `HashTable.HeapBlocks` | 3rd_party/sslib/hashtable.h:379-380 | the node heap's block size is the number of slots, kept between 32 and 8192000 |
| `HashTable.Hashtable.Clear` | 3rd_party/sslib/hashtable.h:403-411 | empty and without slots |
| `HashRuns.RoomBelow` | 3rd_party/sslib/hashtable.h:375-391 | whatever the number of slots, the block size that Reinit chooses leaves room for 2^31 nodes in the 32-bit location range |
| `HashRuns.Run` | 3rd_party/sslib/hashtable.h:368-708 | after any run of Insert, Clear and Reinit, in either node representation, the table holds exactly the items of a plain collection of distinct items, as long as after each operation the items fit the location range of the representation then in force |
| `EditDistanceTable.EditDistance.LevenshteinDistance` | 3rd_party/sslib/edit_distance.cc:23-62 | whatever the buffer held, the value of the recurrence for the two texts, if the table has fewer than 2^32 entries |
| `EditDistanceTable.InMemoryIff` | 3rd_party/sslib/edit_distance.cc:26-29 | both lengths are counted right and every entry is written inside the memory the code picks if and only if the table has fewer than 2^32 entries |
| `EditDistanceTable.LongTextsOverflow` | 3rd_party/sslib/edit_distance.cc:26-33 | two texts of 65535 characters: the size wraps to 0 and the second row starts outside the buffer |
| `EditDistanceTable.DistIsMinimum` | 3rd_party/sslib/edit_distance.cc:23-62 | that value is the least total cost of any sequence of single insertions, deletions and substitutions at any positions, for all non-negative costs |
| `EditCosts.OneEdit` | 3rd_party/sslib/edit_distance.cc:41-56 | one edit anywhere changes the distance by at most its price |
| `EditCosts.InsertEnd` | 3rd_party/sslib/edit_distance.cc:45-48 | the free match is optimal: skipping the alternatives when characters match loses nothing (insertion) |
| `EditCosts.DeleteEnd` | 3rd_party/sslib/edit_distance.cc:45-48 | the same for deletion |
| `EditCosts.CheapestEdits` | 3rd_party/sslib/edit_distance.cc:41-56 | a sequence of edits that costs exactly the distance |
| `Calendar.YearStep` | 3rd_party/sslib/date_time.cc:467-470 | the closed formula for the days before a year grows by the length of the year, leap rule included, in both directions |
| `Calendar.TwelveMonths` | 3rd_party/sslib/date_time.cc:36-39 | the accumulated days of the twelve months in common and leap years |
| `Calendar.TimeWeights` | 3rd_party/sslib/date_time.cc:472-486 | what each field of the time weighs in ticks |
| `Calendar.KnownDates` | 3rd_party/sslib/date_time.cc:467-486 | fixed points of the calendar: leap years, and day number, weekday, day of the year and ticks of two dates |
| `Calendar.TicksUnique` | 3rd_party/sslib/date_time.cc:472-486 | two valid dates and times with the same ticks are the same |
| `Calendar.TicksInRange` | 3rd_party/sslib/date_time.cc:412-427 | the ticks of every valid date and time lie between MinValue and MaxValue |
| `DateTimeModel.DateTimeConstData.FillYears` | 3rd_party/sslib/date_time.cc:41-56 | every table entry but the last is the closed formula's number of days |
| `DateTimeModel.DateTimeConstData.FillMonths` | 3rd_party/sslib/date_time.cc:36-39 | the accumulated days of the months |
| `DateTimeModel.DateTimeConstData.AccumulatedDays` | 3rd_party/sslib/date_time.h:27-30 | the days to the end of a month in common and leap years |
| `DateTimeModel.DateTimeConstData.FindYear` | 3rd_party/sslib/date_time.cc:117-133 | the binary search ends on the year that contains the day and reads no entry that was not written |
| `DateTimeModel.FindMonth` | 3rd_party/sslib/date_time.cc:141-156 | the month and day of a day of the year |
| `DateTimeModel.DateTime.Set` | 3rd_party/sslib/date_time.cc:94-157 | valid fields, weekday and day of the year whose ticks are the given ones, clamped to the range |
| `DateTimeModel.DateTime.SetFields` | 3rd_party/sslib/date_time.cc:164-186 | for years from -9999 on: each of the fields is its own argument if that is in range and the bound it passed otherwise, with ticks, weekday and day of the year in agreement |
| `DateTimeModel.DateTime.UpdateSecondaryData` | 3rd_party/sslib/date_time.cc:472-486 | ticks, weekday and day of the year as the calendar's closed formulas give them |
| `DateTimeModel.DateTime.MinValue` | 3rd_party/sslib/date_time.cc:414-418 | the first tick of the earliest year |
| `DateTimeModel.DateTime.MaxValue` | 3rd_party/sslib/date_time.cc:421-427 | the last tick before year 10000 |
| `DateTimeModel.DateTime.AddMonths` | 3rd_party/sslib/date_time.cc:256-275 | for results from the earliest year on, and month - 1 + value below 2^31: the month count moves by exactly the given number, the day is cut to the month's length, the time of day stays; beyond year 9999 the year is clamped |
| `DateTimeModel.SetInTable` | 3rd_party/sslib/date_time.cc:171-172 | Set(y, ...) reads a written table entry if and only if y is at least -9999; -10000 reads entry -1 |
| `DateTimeModel.AddMonthsInTable` | 3rd_party/sslib/date_time.cc:256-266 | AddMonths, with its 32-bit sum of month and value, reads a written table entry if and only if it does not go back before the first month of the earliest year and month - 1 + value is below 2^31; one month back from the earliest reads entry -1 |
| `DateTimeModel.DecemberOverflows` | 3rd_party/sslib/date_time.cc:258-259 | December of any year plus 2147483647 months: the sum wraps and entry -1 is read |
| `DateTimeModel.TicksRoundTrip` | 3rd_party/sslib/date_time.cc:94-157 | every tick in range is recomputed from the fields it yields |
| `DateTimeModel.FieldsRoundTrip` | 3rd_party/sslib/date_time.cc:94-157 | every valid date and time comes back from its ticks |
| `ChunkedRuns.Connection.WriteChunk` | 3rd_party/sslib/http_server.cc:56-78 | the size cast to int as the size line, as many bytes of data as the cast says, and CRLF, stopping at the first failed write; a size that the cast makes negative fails after its size line |
| `ChunkedCoding.DigitValues` | 3rd_party/sslib/http_common.cc:200-213 | a character's value is its place among the hexadecimal digits of either case, and -1 for any other |
| `ChunkedCoding.SpeltNumber` | 3rd_party/sslib/http_common.cc:196-217 | the number read is the one that the leading digits spell, of either case mixed at will, leading zeros and anything behind them ignored |
| `ChunkedCoding.MixedCase` | 3rd_party/sslib/http_common.cc:208-209 | "1a" reads as 26, and digits of both cases mix |
| `ChunkedCoding.HexForm` | 3rd_party/sslib/http_server.cc:58-60 | the size is printed in upper-case digits without leading zeros |
| `ChunkedCoding.HexRoundTrip` | 3rd_party/sslib/http_common.cc:196-217 | the number that the reader parses from hexadecimal digits is the number that was printed |
| `ChunkedCoding.SizeRead` | 3rd_party/sslib/http_common.cc:196-217 | the int that the reader gets from a written size line is the size if and only if the size is below 2^31; 2^31 reads as -2^31 and 2^32 + 5 as 5 |
| `ChunkedCoding.SizeLineFits` | 3rd_party/sslib/http_common.cc:196-217 | the reader's int takes a written size line without overflow if and only if the size modulo 2^32 is below 2^31 |
| `ChunkedRuns.GetChunkLength` | 3rd_party/sslib/http_common.cc:196-217 | the value of the leading hexadecimal digits, reduced to a 32-bit int |
| `ChunkedCoding.FirstCrlf` | 3rd_party/sslib/http_common.cc:170-193 | the end of line looked for is the first CRLF, and none is reported exactly when there is none |
| `ChunkedRuns.HttpMessageStream.ReadCompleteLine` | 3rd_party/sslib/http_common.cc:170-193 | the bytes up to and including the first CRLF, or nothing when there is none yet |
| `ChunkedRuns.ChunkedBody.UpdateMessage` | 3rd_party/sslib/http_common.cc:54-104 | the incremental reader's update, negative sizes included; in the non-streaming case the body is the concatenation of the chunks taken |
| `ChunkedRuns.UpdateTracks` | 3rd_party/sslib/http_common.cc:54-104 | on any prefix of a message an update takes exactly what has arrived completely; messages have size lines in any form, announce any size, and may lack the CRLF after a chunk |
| `ChunkedRuns.AnyMoment` | 3rd_party/sslib/http_common.cc:54-104 | at every moment of every segmentation of such a message the chunks yielded are those whose data and two more bytes have arrived, and the message has ended exactly when the first size line that announces 0, none before it announcing a negative size, has arrived |
| `ChunkedRuns.Outcome` | 3rd_party/sslib/http_common.cc:54-104 | all told: the chunks before the first that announces 0 or less; the message ends unless that size is negative |
| `ChunkedRuns.ReadsAnyForm` | 3rd_party/sslib/http_common.cc:54-104 | every message in the form of the standard, from any peer (digits of either case, leading zeros, chunk extensions, a trailer section), however it is cut, is read as the chunks it carries, of 1 to 2^31 - 1 bytes |
| `ChunkedRuns.ServerOutcome` | 3rd_party/sslib/http_common.cc:54-104 | for what this server writes: the chunks before the first whose size casts to 0 or less, each as far as it was sent |
| `ChunkedRuns.RoundTrip` | 3rd_party/sslib/http_common.cc:54-104 | however the bytes are cut into receives, the reader yields the chunks written, in order, and ends, if and only if every chunk has at least 1 and fewer than 2^31 bytes |
| `ChunkedRuns.BodyRoundTrip` | 3rd_party/sslib/http_common.cc:54-104 | the data as a whole comes back if and only if every chunk has fewer than 2^31 bytes and none with data follows an empty one |
| `ChunkedRuns.WriteMessage` | 3rd_party/sslib/http_server.cc:56-78 | chunks and closing chunk written one by one make up the coded message; the writer fails if and only if some size casts to a negative int |
| `ChunkedRuns.Transfer` | 3rd_party/sslib/http_common.cc:54-104 | writer and reader together, for chunks of any size cut at will: exactly what comes out of UpdateMessage, as chunks or as one body, and that it is what was written if and only if the conditions above hold |
| `ChunkedRuns.EveryCut` | 3rd_party/sslib/http_common.cc:54-104 | every segmentation is one of the cuts of Transfer |
| `ChainedStream.ChainedStrStream.Write` | 3rd_party/sslib/chained_str_stream.cc:225-292 | byte by byte: the bytes written are at the write position, every other byte is as before, and the size grows only as far as the writing reaches; the write position moves behind, the read position keeps its place |
| `ChainedStream.OverwriteAt` | 3rd_party/sslib/chained_str_stream.cc:244-252 | what copying bytes into a block does to each byte |
| `ChainedStream.WriteAndReadBack` | 3rd_party/sslib/chained_str_stream.cc:97-292 | seek, write, seek back and read: what comes back is what was written, for every position up to the size |
| `ChainedStream.ChainedStrStream.Read` | 3rd_party/sslib/chained_str_stream.cc:180-223 | succeeds if and only if that many bytes remain, and then returns exactly them and moves behind them; a failed read takes the bytes up to the end, or up to a last block that is not full |
| `ChainedStream.ChainedStrStream.SeekR` | 3rd_party/sslib/chained_str_stream.cc:97-138 | succeeds if and only if the position is at most the size; then the position is told back; a failed seek goes to the end if the last block has room up to the position, and else stays |
| `ChainedStream.ChainedStrStream.SeekW` | 3rd_party/sslib/chained_str_stream.cc:140-178 | the same for the write position |
| `ChainedStream.ChainedStrStream.TellRPos` | 3rd_party/sslib/chained_str_stream.cc:65-79 | the flat read position |
| `ChainedStream.ChainedStrStream.TellWPos` | 3rd_party/sslib/chained_str_stream.cc:81-95 | the flat write position |
| `ChainedStream.ChainedStrStream.Size` | 3rd_party/sslib/chained_str_stream.cc:50-63 | the number of flat bytes |
| `ChainedStream.ChainedStrStream.Clear` | 3rd_party/sslib/chained_str_stream.cc:25-48 | no bytes, both positions at 0 |
| `ChainedStream.ChainedStrStream.AppendBlocks` | 3rd_party/sslib/chained_str_stream.cc:264-291 | bytes beyond the chain go to new blocks |
| `ChainedStream.NewBlocksShape` | 3rd_party/sslib/chained_str_stream.cc:266-274 | the new blocks are full and large but for the last one, which is small if what it holds fits a small one, and together they hold the bytes |
| `ChainedStream.FlatPut` | 3rd_party/sslib/chained_str_stream.cc:237-262 | copying bytes into one block copies them into the flat bytes at the block's offset |
| `LruCacheModel.RecencyByLastUse` | 3rd_party/sslib/cache.h:89-148 | the recency list that specifies the cache has exactly the keys used, ordered by last use |
| `LruCacheModel.KeptNext` | 3rd_party/sslib/cache.h:89-148 | how one more use changes the keys kept: to the front, pushing out the last one if the key is new and the list is full |
| `LruCacheModel.LruCache.Add` | 3rd_party/sslib/cache.h:89-132 | the cache holds the most recently used keys of its history, up to capacity, with the index and the map inverse to each other; the value is stored, other values stay, and the value replaced or evicted is deleted |
| `LruCacheModel.NoLeaks` | 3rd_party/sslib/cache.h:89-132 | every object handed in is stored or deleted, and no other is |
| `LruCacheModel.OwnedAfter` | 3rd_party/sslib/cache.h:89-132 | no stored object is deleted or stored twice after an add if and only if the new one is null, or neither stored nor deleted before |
| `LruCacheModel.LruCache.Touch` | 3rd_party/sslib/cache.h:134-148 | a cached key becomes the most recent; any other key changes nothing |
| `LruCacheModel.LruCache.Evict` | 3rd_party/sslib/cache.h:96-107 | the entry removed is the least recently used key |
| `LruCacheModel.LruCache.Clear` | 3rd_party/sslib/cache.h:58-75 | empty, with the new capacity if it is positive; all stored objects deleted |
| `LruCacheModel.LruCache.Size` | 3rd_party/sslib/cache.h:83-87 | the number of cached keys, never above the capacity |
| `LruCacheModel.LruCache.LatestKey` | 3rd_party/sslib/cache.h:150-155 | the key last used |
| `LruCacheModel.LruCache.Get` | 3rd_party/sslib/cache.h:168-177 | the value of the last add of a key that is kept, null for any other key |

## Left out

- Weak memory: fences, memory orders, cache-line padding, alignment and raw memory of the queue are not modelled; steps are sequentially consistent.
- The queue's move constructor, destructors, element construction and `size_approx`, `max_capacity` are left out. `ValidMax` asks that twice MAX_BLOCK_SIZE fits the word; the source only asks for a power of two of at least 2.
- The kernel semaphore is an abstract counter. `signal(0)` is excluded: it would post without adding a permit.
- QueueRuns.NoFaults: excludes constructor arguments 0 and from 2^63 on, for which QueueLimits.FaultlessIff shows faults.
- QueueTheorems.InitialGood: excludes the same arguments; QueueRuns.SoundInitial covers them.
- After a write out of bounds the queue's machine stops: what memory then holds is not modelled.
- half.hpp: lookup tables, intrinsics, conversions to and from float, division, transcendental functions, other rounding modes and exception flags are left out.
- Allocator.BlockedAllocator.New: failed allocation is not modelled, since operator new throws rather than returning null. The block index, a signed 32-bit int, does not overflow in the model; it would with block 2^31.
- Allocator.BlockedAllocator.NewAt: the same.
- Allocator.LocationRoundTrip: with no low bits the index range ends at 2^32 in the model and, for the same reason, at 2^31 in the code.
- HashTable.Hashtable.Insert: requires that a new item's node fits the 32-bit location range, which the source does not check; HashChains.RoomIff shows that references stop working beyond it. The 64-bit slot count and the 32-bit slot sizes do not wrap in the model, and the load factor is a real number.
- HashTable.Hashtable.Find: the const and the non-const form are one method, and an iterator is the node it stands on; iteration is left out, and the non-const `Begin` and the iterator conversions name fields that do not exist.
- BlockedArray is modelled as a sequence.
- EditDistanceTable.EditDistance.LevenshteinDistance: costs are real numbers rather than floats; tables of 2^32 entries and more are excluded, where by EditDistanceTable.InMemoryIff the code leaves its memory.
- DateTimeModel.DateTime.SetFields: years before -9999 are excluded; by DateTimeModel.SetInTable the code then reads outside its table.
- DateTimeModel.DateTime.AddMonths: excludes results before the earliest year and sums of month and value that overflow; by DateTimeModel.AddMonthsInTable the code then reads outside its table.
- DateTime: clock access, formatting, and additions of days and smaller units, which are `Set(ticks)` after one 64-bit addition, are left out.
- ChunkedRuns.UpdateTracks: messages in which a CRLF is missing before an empty line are excluded; the reader takes that line for the missing CRLF.
- HTTP: the header phase, bodies with a length, and bodies without one are left out; the model starts in the chunked body state. Signed overflow of a chunk size wraps around in the model, and the exception of a string asked for a negative length leaves the reader stopped. A connection that fails in the middle of a write is taken to have sent nothing of it.
- ChainedStream.ChainedStrStream.Clear: memory is not modelled. `GetLine`, `AddBlock` and loading from a stream are left out: `GetLine` steps past a partly filled last block, which the flat view does not describe.
- LruCacheModel.LruCache.Add: the 64-bit clock does not wrap in the model.
- LruCache: the const `Get` names a member that does not exist and is left out.
- JSON, configuration macros, decimal and fraction arithmetic, sockets, servers, logging and file streams are not part of this model.
