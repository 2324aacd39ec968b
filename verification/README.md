# libnumakit, modelled and proved in Dafny

libnumakit is a C library of NUMA-aware building blocks: a work-stealing deque, a bounded ring,
three locks, a Robin Hood hash table, a sharded skip list, and an arena / slab / memory-pool stack.
This project models what those parts do and proves what their users rely on. `dafny verify
dfyconfig.toml` checks all of it.

## How the code is modelled

**Protocols** (`Deque`, `DequeAlone`, `DequeEarlyFree`, `Ring`, `RingAlone`, `SlabRing`, `Mcs`, `McsAlone`,
`RwLock`, `RwLockBound`, `RwLockProgress`, `TicketLock`) are state machines with one step per access to
shared memory and any number of threads. A state holds the shared words, each thread's program point with
its locals, and history fields that no step reads to decide anything. Each has an inductive invariant, and
the main theorems speak about every run from the initial state. Beside these safety results stand the
calls that nobody disturbs: from every state the others may have left behind, a call that runs alone ends,
with the answer and the effect it should have.

**Structures changed under a lock or by one thread** (`HashTable`, `SkipShard`, `SkipList`, `Arena`,
`RingBuffer`, `Slab`, `Mempool`) are classes whose methods carry the source's loops. Ghost fields give
the value an object stands for (a map, a queue, the slots with callers), every method says how that
value changes, and the reasoning sits in lemmas over sequences and maps (`RobinHood`, `SkipLevels`,
`Rounding`, `Bits`, `Sets`, `KeyedMap`).

Assumptions:

- Atomic accesses are sequentially consistent steps, not the weaker orders of section 7.17.3 of ISO/IEC
  9899:2011. The plain `next` pointer of an MCS node is read and written as if it were atomic.
- A weak compare-and-swap may fail without reason.
- Key bytes do not change while they are stored, and the byte hash is any deterministic function.
- The operating system, allocation success, coin tosses and the current node are parameters. Regions
  mapped at the same time do not overlap and lie in whole pages below the top of the address space.
- Deque indices, ring indices and counters are unbounded; 32-bit and 64-bit wrap-around is written out
  where the code depends on it (ticket counters, the reader-writer word, bit smearing and masking, the
  arena's sums).

Where code and comments disagree the model follows the code:

- `nkit_deque_steal` is documented to return false when the deque is empty; it also does so when it
  loses the race for `top`.
- `ring_buffer.h` calls the ring single-producer single-consumer; push and pop are written, and proved,
  for many of both.
- `nkit_slab_available` is commented as capacity less (head - tail); it returns head - tail, and that is
  the number of free slots.
- The reader-writer lock is described as preferring writers; with two writers waiting it does not
  (`RwLock.ReaderOvertakesWriter`).

Properties that turn out false of the code carry a counterexample and the exact condition:

- every steal hands out the pushed pointer: `EarlyFreeHandsOutJunk`, `StealRightExactlyWhen`;
- a waiting writer is never overtaken by a reader: `ReaderOvertakesWriter`, `OvertakenExactlyWhen`;
- the locks exclude whatever the number of threads: `RwLockBound.ExclusionExactlyWhen`,
  `TicketLock.ExclusionExactlyWhen`;
- a valid slab release is never dropped: `ReleaseLost`, `DroppedExactlyWhen`;
- put always ends: `FilledUp`, `PutEndsExactlyWhen`;
- a slab lies in its arena and a ring in its block, and rounding up to a power of two never wraps:
  `Slab.Create`, `Slab.NewRing` and `NextPow2WrapsExactlyWhen` state both sides of each bound;
- an arena block always fits and rounding never shrinks a size: `Arena.Alloc` and `AlignUpExactlyWhen`
  state what happens on all sizes on either side of the bound.

## Model

| member | source | states |
|---|---|---|
| `ChaseLev.InvKept` | src/structs/deque.c:116-218 | Every step of the owner (resize included) and of any thief keeps the invariant: live indices hold the items pushed there in every array a thief may still use, each push has one fate, sizes stay powers of two. |
| `ChaseLev.ExactlyOnce` | src/structs/deque.c:155-218 | In every run what was pushed are the arguments of the completed push calls in their order, and each is handed out at most once; between operations of the owner the items not handed out are exactly those at top..bottom-1; every result is the pointer pushed, the owner's always and a thief's unless it loaded the item from an array already freed. |
| `ChaseLev.PushesAreArguments` | src/structs/deque.c:155-169 | The list of pushed items is read off the calls alone: each completed push contributes the argument it was called with. |
| `ChaseLev.StepRefines` | src/structs/deque.c:155-218 | Every atomic step is a step of a sequential double-ended queue, with the answer that queue would give. |
| `ChaseLev.RunRefines` | src/structs/deque.c:155-218 | Every interleaved run is, in the order operations take effect, a run of the sequential queue. |
| `ChaseLev.GrowthInvisible` | src/structs/deque.c:116-214 | Whichever array a thief loaded, and whatever became of it after the item was loaded, a CAS on top about to succeed hands out the item pushed at that index. |
| `ChaseLev.RefusalTruthful` | src/structs/deque.c:155-169 | In every run a push is about to be refused only if the last larger array asked for was not granted. |
| `ChaseLev.MissTruthful` | src/structs/deque.c:200-218 | A steal that finds nothing met an empty deque or one whose last item the owner is already popping. |
| `ChaseLevAlone.StealAlone` | src/structs/deque.c:200-218 | Whatever owner and other thieves are in the middle of, an uninterrupted steal of a deque with items below bottom takes the oldest and hands out what was pushed. |
| `ChaseLevAlone.StealEmptyAlone` | src/structs/deque.c:200-218 | Without items below bottom it takes nothing and changes nothing. |
| `ChaseLevAlone.CasFailsExactlyWhen` | src/structs/deque.c:200-214 | However a steal is interrupted, its CAS fails if and only if top has moved since its own first load. |
| `ChaseLevAlone.PopAlone` | src/structs/deque.c:171-198 | An uninterrupted pop takes the newest item, also when it is the last, and nothing from an empty deque. |
| `ChaseLevAlone.PushRoomAlone` | src/structs/deque.c:155-169 | An uninterrupted push on an array with room adds its argument at the bottom. |
| `ChaseLevAlone.PushGrowsAlone` | src/structs/deque.c:116-169 | On a full array it does so through a resize, whatever becomes of the old array, and the items before it stay. |
| `ChaseLevAlone.PushRefusedAlone` | src/structs/deque.c:116-164 | When the larger array cannot be had it leaves the deque as it was. |
| `ChaseLev.SizeTruthful` | src/structs/deque.c:220-224 | Whatever happens between its two loads, the size is never above what the deque held at the first, and exact, less what was taken since, while the owner is idle. |
| `ChaseLev.DestroyFreesEachOnce` | src/structs/deque.c:101-111 | Destroy frees every array not freed before, and each once. |
| `ChaseLev.StealRightExactlyWhen` | src/structs/deque.c:144-214 | A thief at the current top hands out the pushed item, whatever freed memory shows, if and only if its array is not freed when it loads the item. |
| `ChaseLev.AllRightWhenRetired` | src/structs/deque.c:135-152 | In every run in which a full retired list can grow, every result is the pointer pushed. |
| `ChaseLevEarlyFree.EarlyFreeHandsOutJunk` | src/structs/deque.c:144-150 | A reachable run, after nine resizes and a failed growth of the retired list, in which a thief returns a pointer nobody pushed. |
| `Ring.InvInitially` | src/structs/ring_buffer.c:33-43 | The initial sequence numbers establish the invariant for every capacity of at least 2. |
| `Ring.InvKept` | include/numakit/structs/ring_buffer.h:77-149 | Every load, CAS, data access and commit of any thread, with stale indices, keeps the invariant. |
| `Ring.NoLossNoDuplication` | include/numakit/structs/ring_buffer.h:77-149 | In every run what the ring took in are the arguments of the pushes in the order of their claims; the pop that claims index t hands out the item of the push that claimed t, no index is handed out twice, and tail <= head <= tail + capacity; every index below tail has been handed out or is being read by its pop, and every index from there to head lies in its cell or is being written by its push. |
| `Ring.StepRefines` | include/numakit/structs/ring_buffer.h:77-149 | Every step is a step of a first-in first-out queue, taking effect at the successful CAS. |
| `Ring.RunRefines` | include/numakit/structs/ring_buffer.h:77-149 | Every run is, in the order of successful CASes, a run of a first-in first-out queue. |
| `Ring.FullTruthful` | include/numakit/structs/ring_buffer.h:79-112 | Push answers full if and only if its local head is the real one and the ring is full: it holds capacity items, or the pop of the item a lap earlier has not committed. |
| `Ring.EmptyTruthful` | include/numakit/structs/ring_buffer.h:122-146 | Pop answers empty if and only if its local tail is the real one and the push at that index is unclaimed or uncommitted. |
| `Ring.PushedAreArguments` | include/numakit/structs/ring_buffer.h:77-106 | Each claim takes in the argument its thread last called push with. |
| `RingAlone.PushFinishes` | include/numakit/structs/ring_buffer.h:77-114 | From every reachable state, wherever in push a thread stands and however stale its head is, six steps of its own end the call: full exactly when the ring is full, and otherwise its argument is the newest item, committed in its cell. |
| `RingAlone.PopFinishes` | include/numakit/structs/ring_buffer.h:120-149 | The same for pop: empty exactly when the ring is empty, and otherwise the oldest item is handed out and its cell released for the next lap. |
| `RingAlone.PushAlone` | include/numakit/structs/ring_buffer.h:77-114 | A whole undisturbed push, beside any half-done calls of others. |
| `RingAlone.PopAlone` | include/numakit/structs/ring_buffer.h:120-149 | A whole undisturbed pop, beside any half-done calls of others. |
| `RingAlone.PushCommits` | include/numakit/structs/ring_buffer.h:92-106 | A push that has its claim commits its item in two steps and changes nothing else. |
| `RingAlone.PopCommits` | include/numakit/structs/ring_buffer.h:131-142 | A pop that has its claim hands out the item pushed at its index in two steps and changes nothing else. |
| `Ring.ClaimedCellStable` | include/numakit/structs/ring_buffer.h:92-142 | No step of another thread changes a cell between its claim and its commit. |
| `Ring.SequencesGrow` | include/numakit/structs/ring_buffer.h:100-140 | The sequence number of a cell never falls. |
| `RingBuffer.SingleBit` | src/structs/ring_buffer.c:8-10 | The bit test accepts exactly the powers of two. |
| `RingBuffer.RingBuffer.constructor` | src/structs/ring_buffer.c:29-45 | The set-up loop yields an empty queue. |
| `RingBuffer.Pushed` | include/numakit/structs/ring_buffer.h:92-101 | Filling the cell at head appends to the queue and disturbs no other index. |
| `RingBuffer.Popped` | include/numakit/structs/ring_buffer.h:131-141 | The cell at tail holds the oldest item, and releasing it for the next lap removes just that item. |
| `RingBuffer.RingBuffer.Push` | include/numakit/structs/ring_buffer.h:77-114 | Undisturbed push succeeds exactly when there are fewer than capacity items and appends its item, however often the weak CAS fails first. |
| `RingBuffer.RingBuffer.Pop` | include/numakit/structs/ring_buffer.h:120-149 | Undisturbed pop succeeds exactly when the queue is not empty and removes its oldest item. |
| `SlabRing.PopulateRun` | src/memory/slab.c:67-71 | The populate loop is a legal run of ring steps from the new ring to the full free list. |
| `SlabRing.PopulatedOk` | src/memory/slab.c:67-71 | The populated slab has every slot queued once. |
| `SlabRing.PlacesKept` | src/memory/slab.c:83-96 | Every step of every alloc and free keeps each slot in exactly one place and the place true: queued at its index, in the hands of the thread putting it back or taking it out, with a caller, or lost. |
| `SlabRing.LostExactlyWhen` | src/memory/slab.c:93-96 | A slot is lost, for ever, if and only if its own release looks at the ring while its head is current and the allocation that claimed the index a lap earlier has not committed. |
| `SlabRing.AllocExclusive` | src/memory/slab.c:83-91 | In every interleaving the slot handed out is held by nobody, not in the ring and not in another thread's hands. |
| `SlabRing.DroppedExactlyWhen` | src/memory/slab.c:93-96 | A release is dropped if and only if its head is current and the allocation that claimed the index a lap earlier has not committed. |
| `SlabRing.NotFull` | src/memory/slab.c:93-96 | While any slot is outside the ring, the ring has room by its indices. |
| `SlabRing.ReleaseLost` | src/memory/slab.c:93-96 | A reachable run in which a valid release is dropped and its slot lost. |
| `Slab.SlotsApart` | src/memory/slab.c:53-71 | Slots lie on cache lines inside the region and no two overlap. |
| `Slab.Taken` | src/memory/slab.c:83-91 | Taking the head of the free list keeps free and held slots a partition of all slots. |
| `Slab.PutBack` | src/memory/slab.c:93-96 | So does returning a held slot. |
| `Slab.Slab.Populate` | src/memory/slab.c:67-71 | The loop puts every slot address on the free list once, in order. |
| `Slab.Slab.Carve` | src/memory/slab.c:39-58 | Both allocations of creation always fit the arena it sized, although the first is rounded up. |
| `Slab.Slab.NewRing` | src/structs/ring_buffer.c:6-46 | Ring creation fails only for a bad capacity or no memory; its block always fits its own arena, and holds the cells if and only if there are fewer than 2^60. |
| `Slab.Slab.Create` | src/memory/slab.c:31-81 | Given memory, creation refuses exactly bad capacities and size 0; the slots have the size asked for and lie in the arena if and only if neither rounding nor product leaves 64 bits, and then all start free. |
| `Slab.Slab.Alloc` | src/memory/slab.c:83-91 | Null exactly when every slot is held; else the slot free for longest, now held. |
| `Slab.Slab.Free` | src/memory/slab.c:93-96 | A valid release always succeeds and puts exactly that slot at the end of the free list. |
| `Slab.Slab.Available` | src/memory/slab.c:109-118 | The number reported is the number of free slots. |
| `Arena.AlignUpExactlyWhen` | src/memory/arena.c:30 | Rounding with a mask gives the least multiple at or above n; it falls below n if and only if the 64-bit sum wraps, and then it is 0. |
| `Arena.Arena.Create` | src/memory/arena.c:22-83 | An arena results exactly when the size is not 0 and a mapping was had; it is at least as large as asked and knows its page size. |
| `Arena.Arena.Alloc` | src/memory/arena.c:85-102 | Up to the wrap-around bound: null exactly when the rest is too small, else a 64-byte aligned block behind all live ones and inside the arena. Above the bound the block returned does not fit. |
| `Arena.Arena.LiveApart` | src/memory/arena.c:85-102 | Live blocks start on 64-byte lines, lie in the arena and do not overlap. |
| `Arena.Arena.Reset` | src/memory/arena.c:113-117 | No block is live afterwards. |
| `Arena.Arena.PagesLeft` | src/memory/arena.c:134-150 | From the first page boundary above the watermark to the end it is whole pages. |
| `Arena.Arena.Coalesce` | src/memory/arena.c:123-163 | The released range is page-aligned, ends at the arena's end, starts less than a page above the watermark and meets no live byte; pages are released exactly when one is free. |
| `Mempool.Mempool.FindClass` | src/memory/pool.c:101-108 | The class found is the smallest that is large enough. |
| `Mempool.ClassesServe` | src/memory/pool.c:11-17 | The pool serves 1 to 16384 bytes from classes of 32 bytes doubled, and above 32 bytes wastes less than half of a block. |
| `Mempool.Mempool.Create` | src/memory/pool.c:54-87 | A pool results exactly when the library is initialised and the pool and every slab could be had; its slabs, for at most 64 nodes, are disjoint and have 1024 slots with room for header and class. |
| `Mempool.Mempool.Search` | src/memory/pool.c:112-126 | The local slab first, then the first other node with a free slot: nothing is found exactly when the class is full everywhere. |
| `Mempool.Mempool.Alloc` | src/memory/pool.c:89-136 | Null exactly for size 0, an oversize request or a class full on every node; else a block no caller had, from the local node unless that was full, with room for the size asked and its slab in the header. |
| `Mempool.Mempool.Free` | src/memory/pool.c:138-148 | The block goes back to the slab it came from, borrowed or not, and nothing else changes. |
| `Mempool.Mempool.BlocksApart` | src/memory/pool.c:69-84 | A lent block, header and all bytes asked for, meets no other slot of any slab, so no other caller's bytes and no header. |
| `Mempool.Mempool.RoundTrip` | src/memory/pool.c:89-148 | An allocation, successful or not, followed by the release of what it returned leaves lent blocks and held slots as they were. |
| `Mcs.CoreKept` | src/sync/mcs_lock.c:8-47 | Every step keeps the queue invariant, unlinked gaps included. |
| `Mcs.EnteredKept` | src/sync/mcs_lock.c:8-47 | The entries so far stay a prefix of the tail exchanges. |
| `Mcs.MutualExclusionInOrder` | src/sync/mcs_lock.c:8-47 | In every reachable state at most one thread holds the lock, and threads have entered in the order of their tail exchanges. |
| `Mcs.NodesAlive` | src/sync/mcs_lock.c:17-46 | Every store into another thread's node hits a node whose owner is still inside the lock; the hand-over never follows null and meets a spinning thread. |
| `Mcs.SomebodyMoves` | src/sync/mcs_lock.c:17-46 | While a thread waits, it or a thread ahead is in its critical section or can take a step that is not spinning. |
| `McsAlone.LockStarts` | src/sync/mcs_lock.c:8-19 | From every state three steps of lock put the caller at the end of the queue: it holds the lock if nobody was queued, and otherwise knows its predecessor. |
| `McsAlone.UnlockEmpties` | src/sync/mcs_lock.c:28-36 | With nobody behind, unlock empties the queue in two steps. |
| `McsAlone.UnlockPasses` | src/sync/mcs_lock.c:28-46 | With the next thread linked, unlock hands the lock to it in two steps, and it enters at its next look. |
| `McsAlone.UnlockWaitsForLink` | src/sync/mcs_lock.c:28-46 | With the next thread queued but not linked, unlock waits for the link and then hands over. |
| `Mcs.RankFalls` | src/sync/mcs_lock.c:8-47 | Every useful step brings a waiting thread closer and none sets it back. |
| `Mcs.BoundedWaiting` | src/sync/mcs_lock.c:8-47 | A waiting thread gets the lock within seven useful moves per thread ahead, plus five. |
| `RwLock.EncodeIsExact` | src/sync/rws_lock.c:6-9 | Two packed words are the same number exactly when all fields agree. |
| `RwLock.CountOperations` | src/sync/rws_lock.c:15-39 | Adding and subtracting 4 modulo 2^32 changes the reader field by one and no other field. |
| `RwLock.TestOperations` | src/sync/rws_lock.c:15-63 | The masked tests of the source read exactly the fields they mean to. |
| `RwLock.MaskOperations` | src/sync/rws_lock.c:41-68 | The or / and-not updates write exactly the fields they mean to. |
| `RwLock.InvKept` | src/sync/rws_lock.c:15-68 | Every step keeps the word equal to the true reader count (modulo 2^30), announcement and active writer. |
| `RwLock.Exclusion` | src/sync/rws_lock.c:15-68 | In every reachable state with at most 2^30 threads a writer is alone; with fewer, the 32-bit number encodes the true counts. |
| `RwLockBound.ExclusionExactlyWhen` | src/sync/rws_lock.c:6-63 | Writers are alone in every run if and only if there are at most 2^30 threads: with one more, 2^30 readers wrap the field to 0 and a writer joins them. |
| `RwLockBound.ExactExactlyWhen` | src/sync/rws_lock.c:6-35 | The number in memory is exact in every run if and only if there are fewer than 2^30 threads. |
| `RwLock.AnnouncementBlocksReaders` | src/sync/rws_lock.c:21-58 | From an announcement until the next write acquisition no reader enters, and releases plus readers left equal the readers at the start. |
| `RwLock.PreferredExactlyWhen` | src/sync/rws_lock.c:21-58 | While waiting writers hold readers back no reader passes one, and a step ends that if and only if it is an acquisition that leaves another writer waiting. |
| `RwLock.WritersPreferred` | src/sync/rws_lock.c:15-63 | In every run without such an acquisition no reader is admitted while a writer waits. |
| `RwLock.OvertakenExactlyWhen` | src/sync/rws_lock.c:51-58 | After any acquisition, whatever happened before it, some reader can pass a waiting writer before the next acquisition if and only if another writer waited when it happened. |
| `RwLock.ReaderOvertakesWriter` | src/sync/rws_lock.c:51-58 | A reachable run in which a reader enters while a writer that announced itself still waits. |
| `RwLockProgress.WriterGetsInExactlyWhen` | src/sync/rws_lock.c:41-63 | Wherever in its call a writer stands and however old the word it saw, three steps of its own let it in if and only if nobody reads or writes; otherwise no number of them does. |
| `RwLockProgress.ReaderGetsInExactlyWhen` | src/sync/rws_lock.c:15-35 | Three steps of its own let a reader in if and only if nobody writes and no writer is announced; otherwise no number of them does. |
| `RwLockProgress.ReturnsHolding` | src/sync/rws_lock.c:15-68 | A lock call returns only with the lock, an unlock call returns at once, and no step moves another thread. |
| `RwLockProgress.NeverStuck` | src/sync/rws_lock.c:15-63 | In every reachable state in which nobody holds the lock and some thread wants it, some thread can enter by steps of its own. |
| `TicketLock.InvKept` | src/sync/ticket_lock.c:12-38 | Every step keeps the invariant across wrap-around. |
| `TicketLock.FairExclusion` | src/sync/ticket_lock.c:12-38 | In runs of any length at most one thread is inside, entry follows ticket order, and the back-off distance is the number of threads ahead. |
| `TicketLock.ServingExact` | src/sync/ticket_lock.c:20-30 | The 32-bit comparison and subtraction give the unbounded answers. |
| `TicketLock.FewOutstanding` | src/sync/ticket_lock.c:12-38 | No more tickets are out than there are threads. |
| `TicketLock.LockFree` | src/sync/ticket_lock.c:12-25 | A lock nobody has a ticket for is entered in two steps. |
| `TicketLock.SomebodyEnters` | src/sync/ticket_lock.c:18-38 | While a thread waits, the thread served is inside or enters at its next look. |
| `TicketLock.BoundedWaiting` | src/sync/ticket_lock.c:18-38 | During a wait there are at most one entry and one release for each thread ahead, and one more. |
| `TicketLock.ExclusionExactlyWhen` | src/sync/ticket_lock.c:12-38 | The lock excludes in every run if and only if there are at most 2^32 threads: with one more, two tickets 2^32 apart are served together. |
| `RobinHood.NeverMisses` | src/structs/hash_table.c:258-284 | Every slot between an entry's ideal slot and the entry is taken by one at least as far from home, so the early exit never misses. |
| `RobinHood.NoneCrosses` | src/structs/hash_table.c:148-188 | No entry lies beyond an empty slot from its ideal one. |
| `RobinHood.TurnGoesOn` | src/structs/hash_table.c:148-188 | A turn that walks or swaps keeps table and carried entry together equal to the goal map and leaves less to go. |
| `RobinHood.TurnEnds` | src/structs/hash_table.c:148-163 | The last turn leaves a Robin Hood table that holds exactly the goal map. |
| `RobinHood.PutEndsExactlyWhen` | src/structs/hash_table.c:139-189 | The insertion loop ends if and only if the key is there or a slot is free, and then within capacity turns. |
| `RobinHood.HopelessForever` | src/structs/hash_table.c:148-188 | On a full table without the key no number of turns is enough. |
| `RobinHood.ShiftGoesOn` | src/structs/hash_table.c:323-335 | A turn of backward-shift deletion moves the hole on and keeps the remaining map. |
| `RobinHood.HoleCloses` | src/structs/hash_table.c:323-335 | Clearing the last hole leaves a Robin Hood table with the same map. |
| `Rounding.NextPow2Correct` | src/structs/hash_table.c:63-73 | For every v from 1 to 2^63 the bit smearing returns the least power of two not below v. |
| `Rounding.MaskedSlots` | src/structs/hash_table.c:78-80 | Masking is reduction modulo the capacity, and the wrapped subtraction of the probe distance is the true circular distance. |
| `Rounding.Probe` | src/structs/hash_table.c:78-80 | The masked expression the class computes is the circular distance. |
| `Rounding.NextPow2WrapsExactlyWhen` | src/structs/hash_table.c:63-73 | In 64 bits the routine gives 0 if and only if v is above 2^63, and the next power of two otherwise. |
| `Rounding.RoundUp` | src/structs/hash_table.c:63-73 | The smearing creation computes, wrap-around included. |
| `Rounding.BytesVanishExactlyWhen` | src/structs/hash_table.c:95-102 | The byte count of the bucket array wraps to 0 if and only if more than 2^58 buckets are asked for. |
| `HashTable.NeverZero` | src/structs/hash_table.c:55 | The stored hash is the byte hash, with 1 for 0, so it is never the marker of an empty bucket. |
| `RobinHood.MarkerExact` | src/structs/hash_table.c:55 | In a table of such hashes a hash word of 0 tells empty buckets apart; every loop of the class tests that word. |
| `HashTable.HashTable.Create` | src/structs/hash_table.c:91-128 | For any 64-bit capacity a table results exactly when the memory can be had and at most 2^58 buckets are asked for; it is an empty map and its capacity is the least power of two not below the one asked for and 16. |
| `HashTable.HashTable.Displace` | src/structs/hash_table.c:148-188 | The displacement loop ends, in place, at a turn that stores its entry, after fewer turns than there are slots. |
| `HashTable.HashTable.PutInternal` | src/structs/hash_table.c:139-189 | The map gains exactly this binding and count follows. |
| `HashTable.HashTable.Rehash` | src/structs/hash_table.c:210-226 | Doubling keeps the map and the invariant under the new mask. |
| `HashTable.HashTable.Resize` | src/structs/hash_table.c:194-226 | A failed allocation leaves the table as it was. |
| `HashTable.HashTable.Put` | src/structs/hash_table.c:228-246 | Put binds the key, count is the map's size, and the table doubles exactly at a load of three quarters or more when the memory can be had. |
| `HashTable.HashTable.Find` | src/structs/hash_table.c:258-284 | The early-exit search finds a key if and only if it is stored, and at its slot, in at most as many turns as slots, one more when none is empty. |
| `HashTable.HashTable.Get` | src/structs/hash_table.c:248-285 | Get answers from the map, null for a missing or empty key. |
| `HashTable.HashTable.ShiftBack` | src/structs/hash_table.c:320-339 | The shifting loop removes exactly one key in fewer turns than there are slots. |
| `HashTable.HashTable.Remove` | src/structs/hash_table.c:287-343 | Remove drops exactly the key, reports whether it was there, and count stays the map's size. |
| `HashTable.HashTable.Replay` | src/structs/hash_table.c:228-343 | Any sequence of calls that can each end answers as a plain map would, whichever doublings succeed, and the capacity is the one predicted. |
| `HashTable.HashTable.ReplayGranted` | src/structs/hash_table.c:228-343 | When every doubling succeeds every call of every sequence ends, answers as a plain map would, and leaves the load at three quarters or less. |
| `HashTable.FilledUp` | src/structs/hash_table.c:139-246 | A table filled by sixteen puts whose doublings fail; on it the put of a seventeenth key never ends. |
| `SkipLevels.KeyOrder` | src/structs/skip_list.c:164-167 | Length first, then bytes, is a strict total order. |
| `SkipLevels.KeyLessExactlyWhen` | src/structs/skip_list.c:164-167 | Shorter keys come first, and among keys of one length the first byte that differs decides. |
| `SkipLevels.InsertedNext` | src/structs/skip_list.c:191-194 | Where each level's chain goes once a node is in. |
| `SkipLevels.RemovedNext` | src/structs/skip_list.c:259-262 | Where each level's chain goes once a node is out. |
| `SkipShard.SplitsAt` | src/structs/skip_list.c:163-172 | The level-0 predecessor splits the keys: all up to it are smaller, none after it is. |
| `SkipShard.ChainsInserted` | src/structs/skip_list.c:191-194 | Splicing after the predecessor on each level of the new node makes level i chain exactly the nodes taller than i. |
| `SkipShard.ChainsRemoved` | src/structs/skip_list.c:259-262 | Bypassing on each level of the node does the same after a removal. |
| `SkipShard.Shard.constructor` | src/structs/skip_list.c:108-119 | A new shard is an empty map. |
| `SkipShard.Shard.FindPredecessors` | src/structs/skip_list.c:163-170 | The search ends, on every level, at the last node with a smaller key, or the head when there is none. |
| `SkipShard.Shard.Locate` | src/structs/skip_list.c:160-174 | The node after the predecessor carries the key if and only if the map has it. |
| `SkipShard.Shard.RandomLevel` | src/structs/skip_list.c:57-63 | The level is one more than the heads tossed in a row, between 1 and the limit. |
| `SkipShard.Shard.Splice` | src/structs/skip_list.c:191-194 | The linking loop changes exactly the predecessors' links, one per level. |
| `SkipShard.Shard.Bypass` | src/structs/skip_list.c:259-262 | The unlinking loop bypasses the node on all its levels; its early exit is never taken. |
| `SkipShard.Shard.Get` | src/structs/skip_list.c:201-232 | Get answers from the shard's map. |
| `SkipShard.Shard.Put` | src/structs/skip_list.c:150-199 | For every choice of level put binds the key, or changes nothing when no node can be had; the new node stands on as many levels as were drawn, levels stay sorted chains of the nodes taller than them, and the level mark rises to the level drawn. |
| `SkipShard.Shard.Remove` | src/structs/skip_list.c:234-271 | Remove drops exactly the key and reports whether it was there. |
| `SkipShard.Shard.CountIsSize` | src/structs/skip_list.c:196-264 | A shard's counter is its number of keys. |
| `SkipList.UnionPut` | src/structs/skip_list.c:153-155 | A key bound in its shard is that key bound in the whole. |
| `SkipList.UnionSize` | src/structs/skip_list.c:273-281 | No key is in two shards, so sizes add up. |
| `SkipList.SkipList.Create` | src/structs/skip_list.c:94-132 | A list results exactly when memory nodes are available and every head node could be had; it is an empty map over disjoint shards of the level limit asked for. |
| `SkipList.SkipList.Get` | src/structs/skip_list.c:201-232 | Get answers from the whole map; null for an empty key. |
| `SkipList.SkipList.Put` | src/structs/skip_list.c:150-199 | Put changes only the given key, in its hash shard; -1 for an empty key or when no node can be had. |
| `SkipList.SkipList.Remove` | src/structs/skip_list.c:234-271 | Remove changes only the given key. |
| `SkipList.SkipList.Count` | src/structs/skip_list.c:273-281 | The summed counters are the size of the map. |
| `SkipList.SkipList.Replay` | src/structs/skip_list.c:150-271 | Any sequence of calls, for any heights drawn and any allocation failures, answers as a plain map that turns down new keys when no node can be had. |
| `KeyedMap.GetAnswersLastGiven` | src/structs/skip_list.c:150-271 | What that plain map answers: after any calls a get returns what its key was last given and not taken since, whatever happened to other keys. |

## Left out

- Weak memory orders: the model is sequentially consistent, so it says nothing about the acquire, release and relaxed annotations or the fences.
- Width of deque and ring indices, of element counts and of `nkit_deque_size`'s result: unbounded here; an array doubled past 2^31 elements is not modelled.
- `retired_arrays` being null after a failed allocation in `nkit_deque_create`, and null arguments in general.
- HashTable.Resize: takes the outcome of the allocation as given; past 2^58 buckets the byte count wraps to 0 and the allocation always fails.
- HashTable.Put: asks that the key is present, a slot is free or doubling succeeds, because otherwise the source does not return; `RobinHood.PutEndsExactlyWhen` is the exact condition.
- HashTable.Replay: asks the same of each call of the sequence.
- Slab.Free: releases of slots the caller does not hold are excluded, as the interface asks.
- Mempool.Free: same, and callers are taken to write only inside their own blocks, so headers keep what the pool wrote.
- Mempool.Alloc: models calls one after the other; interleavings are covered for one slab by `SlabRing`.
- SkipShard.constructor: a level limit of 0, with which the source reads outside its arrays, is excluded.
- SkipList.Create: a level limit of 0, and giving back the heads already made when one cannot be had.
- SkipList.Count: read while no other call runs; the source reads the counters without their locks.
- The MCS locks around hash table and skip list calls: the calls are modelled as already serialised; `Mcs` models the lock.
- FNV-1a itself, and destroy functions other than the deque's.
- Task pool, initialisation, messaging, affinity and balancers, topology, migration, huge-page operations, sharded counters: syscalls, thin loops or sums.
- mmap, madvise, NUMA placement, padding, pauses and back-off timing: parameters or without effect here.
