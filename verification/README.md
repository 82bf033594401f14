# Allocators, a futex mutex and two small loops: a Dafny model

This project models the hand-written allocators of the chapter "Putting it Together", the futex
mutex of the threads chapter, the SIGCHLD reaper and the shuffled pointer chase, and proves what
they are for. `dafny verify dfyconfig.toml` checks everything.

## What is modelled

**Free-list heap** (`FreeListLayout.dfy`, `FreeList.dfy`). The class `FreeList.Allocator` keeps headers, footers and
the doubly linked free list inside the one array it manages: `mem[a]` is the 8-byte word at byte offset `a`. Its
methods are proved against functions on the chunks (`Malloc`, `Free`) and the list, head first. From
there: the free chunks are exactly the maximal gaps between live chunks, `my_malloc` fails only when no gap is large
enough, the live chunks determine the whole layout, and no call changes a word of another live chunk.

**Buddy allocator** (`BuddyArithmetic.dfy`, `BuddyLayout.dfy`, `Buddy.dfy`). The class `Buddy.Allocator` keeps
`fl[]` and the in-block `next` and `order` words, for an arena of `2^K` pages with any K. Free blocks are shown to be
the ones a page bitmap determines: a block of order o starts at x exactly when that aligned run is wholly free and the
run of the next order around it is not. `buddy_alloc` fails exactly when no aligned run is free, and the free sets
depend only on what is live.

**Futex mutex** (`Futex.dfy`). Any number T of threads, N iterations, any scheduler, one atomic action a step;
`shared++` is a separate load and store, futex_wait compares and enqueues in one step, futex_wake takes one sleeper.
Mutual exclusion and the exact counter hold with spurious wakeups. Every schedule, fair or not, is bounded, each
spurious wakeup costing at most five steps, and one that only spurious wakeups could extend has finished with
`shared == T * N`.

**Slab cache** (`SlabState.dfy`, `SlabCache.dfy`). Slab records linked on `all_slabs` and `partial`, in-band free
lists, and mmap as an argument that is a fresh region or a failure. A run maps exactly as many slabs as its peak of
live objects needs.

**Shuffle and chase** (`MemoryHierarchy.dfy`). The in-place shuffle with any random stream, the circular list built
from it and the chase. Each order of distinct elements comes from exactly one sequence of draws, and the list is
always one cycle.

**Reaper** (`Reaper.dfy`). Forks, exits, the one pending bit, deliveries and the handler's steps interleave freely.

`Lists.dfy` and `Arithmetic.dfy` hold what the others share.

## Where the code and its comments disagree

The comment on the futex word speaks of waiters. A thread is *queued* once futex_wait has put it to sleep, and
*waiting* from the moment it goes into futex_wait, queued or not yet.

- 09_threads_memory/05_futex_basic.c:9 reads 1 as "locked, no waiters". A fast-path CAS can slip in between an
  unlocker's exchange and its wake. Of queued threads (`Futex.CommentOnOne`) the reading holds in every reachable state
  exactly when there are at most two threads, or no iterations. Of waiting threads (`Futex.CommentOnOneWidely`) it
  holds exactly when there is at most one thread, or no iterations, or two threads with one iteration each: with two
  iterations an unlocker that finds nobody queued can lock again while the other is still on its way into the queue.
- 09_threads_memory/05_futex_basic.c:10 reads 2 as "someone in FUTEX_WAIT". A thread that lost the fast path but finds
  the lock free holds it with the word at 2. `Futex.CommentOnTwo`: of queued and of waiting threads alike, the reading
  holds exactly when there is at most one thread, or no iterations.

## Conventions

Addresses are offsets from the start of the region, and a null pointer is -1. `size_t` and `int` arithmetic does not
wrap on the inputs allowed: requests are natural numbers (the source needs `req + 63` not to wrap), page counts are at
most `2^30` (and the size loop is shown to stay there); the shift `1 << (o - 1) << PG_LOG2` of `buddy_alloc` is an int
in the source, which fits up to order 19. `free` calls take a live pointer (or NULL, for `my_free`; or an address of
no slab, for `cache_free`); the page count given to `buddy_free` rounds to the order of the block; a slab that is
mapped must hold at least one object (`cache_alloc` would follow a null pointer otherwise); `measure` is given at least
one slot. The program's own writes into memory it holds are the `Store` methods, one aligned 8-byte word a call, and
its calls one after another are the `Run` methods.

Methods are stated against functions of the abstract state, and the lemmas below are about those functions, so they
hold of the methods. Class invariants (`Valid`) say that the memory agrees with the abstract state and that the
abstract state satisfies its invariant (`Inv`), so every method keeps both.

## Model

| member | source | states |
|---|---|---|
| FreeList.Allocator.constructor | 14_putting_it_together/04_freelist.c:76-86 | the capacity is rounded up to pages and the heap is one free chunk of that size, on the list |
| FreeList.Allocator.SetSize | 14_putting_it_together/04_freelist.c:57-60 | header and footer of the chunk carry the size and free bit, and no other word changes |
| FreeList.Allocator.FlInsert | 14_putting_it_together/04_freelist.c:62-68 | the links now run through h and then the old list, forwards and back; only link words change |
| FreeList.Allocator.FlRemove | 14_putting_it_together/04_freelist.c:69-74 | the links run through the old list without h, in the old order; only link words change |
| FreeList.Allocator.MyMalloc | 14_putting_it_together/04_freelist.c:88-109 | the memory is again a well-formed heap, the one `Malloc` describes, and no word of a live chunk has changed |
| FreeList.Allocator.PrevOf | 14_putting_it_together/04_freelist.c:52-56 | null at the heap's base, otherwise the chunk that ends where h starts, read off its footer |
| FreeList.Allocator.MyFree | 14_putting_it_together/04_freelist.c:111-131 | the memory is again a well-formed heap, the one `Free` describes, and no word of any other live chunk has changed |
| FreeList.Allocator.Run | 14_putting_it_together/04_freelist.c:88-131 | any legal sequence of calls does what `RunOps` says and returns what `Answers` says, and from first call to last no word changes of a live chunk that none of them frees |
| FreeList.Allocator.Store | 14_putting_it_together/04_freelist.c:138-140 | the program writing an aligned word of a payload it holds keeps the heap well formed and changes no other live chunk |
| FreeListLayout.NeedNoClamp | 14_putting_it_together/04_freelist.c:91-92 | `if (need < MIN_CHUNK)` is never taken: a request of one byte already needs MIN_CHUNK |
| FreeListLayout.MallocInv | 14_putting_it_together/04_freelist.c:88-109 | after `my_malloc` chunks still tile the heap, no two neighbours are free, and the list holds each free chunk once and nothing else |
| FreeListLayout.FreeInv | 14_putting_it_together/04_freelist.c:111-131 | after `my_free` the same holds, and the live chunks are the old ones without the one freed |
| FreeListLayout.GapInOneChunk | 14_putting_it_together/04_freelist.c:117-129 | any stretch no live chunk touches lies inside one free chunk |
| FreeListLayout.FreeChunkIsMaximal | 14_putting_it_together/04_freelist.c:117-129 | a free chunk is a gap between live chunks that cannot be widened |
| FreeListLayout.MallocComplete | 14_putting_it_together/04_freelist.c:88-109 | a request fails exactly when it is zero or no stretch of the needed size is free of live chunks, and then changes nothing |
| FreeListLayout.MallocGrants | 14_putting_it_together/04_freelist.c:88-106 | a success leaves a well-formed heap and is a new aligned chunk from the first adequate list entry, with room for `req` before its footer, less than MIN_CHUNK bytes over, disjoint from every live chunk |
| FreeListLayout.MallocExact | 14_putting_it_together/04_freelist.c:93-106 | the chunk handed out is cut to exactly the size needed when the rest makes a chunk, which then heads the list, and is whole otherwise; every other chunk and the order of the other entries stay |
| FreeListLayout.FreeExact | 14_putting_it_together/04_freelist.c:111-131 | the freed chunk, merged, heads the list; its neighbours' entries are gone and the others keep their order |
| FreeListLayout.RunHeld | 14_putting_it_together/04_freelist.c:88-131 | after any run the live chunks are exactly those whose pointers were returned and not freed since |
| FreeListLayout.Canonical | 14_putting_it_together/04_freelist.c:15-25 | two coalesced layouts with the same live chunks are the same layout |
| FreeListLayout.MallocFree | 14_putting_it_together/04_freelist.c:88-131 | freeing what was just allocated restores every chunk |
| FreeListLayout.HistoryIndependence | 14_putting_it_together/04_freelist.c:88-131 | over whole runs, the layout depends only on the live chunks |
| FreeListLayout.LiveUntilFreed | 14_putting_it_together/04_freelist.c:88-131 | through any run that does not free it, a live chunk keeps its place and size |
| FreeListLayout.LastFreedFirst | 14_putting_it_together/04_freelist.c:62-68 | the chunk just freed, merged with its free neighbours, heads the list and serves the next request that fits |
| FreeListLayout.FreeEverything | 14_putting_it_together/04_freelist.c:148-155 | freeing all live pointers in any order restores the initial heap, list included |
| BuddyArithmetic.XorIsBuddy | 14_putting_it_together/05_buddy.c:83-85 | XOR with the block size of an aligned offset is the other half of the enclosing block |
| BuddyArithmetic.XorShift | 14_putting_it_together/05_buddy.c:83-85 | XOR of byte offsets is the XOR of page numbers, shifted |
| BuddyArithmetic.BuddyBlock | 14_putting_it_together/05_buddy.c:82-90 | the buddy stays in the arena, is aligned alike, has the block as its own buddy, and the lower of the two is aligned to the next order |
| BuddyArithmetic.AlignedIsMod | 14_putting_it_together/05_buddy.c:27-31 | the recursive alignment used in the proofs is divisibility by 2^order |
| Buddy.Allocator.constructor | 14_putting_it_together/05_buddy.c:49-54 | the arena is one free block of order K on its list |
| Buddy.Allocator.FlPush | 14_putting_it_together/05_buddy.c:38 | the block heads its order's list, other lists are intact, and only its own two words change |
| Buddy.Allocator.FlPop | 14_putting_it_together/05_buddy.c:39 | null on an empty list, otherwise the head, which leaves the list |
| Buddy.Allocator.FlRemove | 14_putting_it_together/05_buddy.c:40-47 | true exactly when the target is listed; it alone leaves the list and the rest keep their order |
| Buddy.Allocator.ComputeOrder | 14_putting_it_together/05_buddy.c:58-59 | the least order that holds the pages, without int overflow |
| Buddy.Allocator.BuddyAlloc | 14_putting_it_together/05_buddy.c:56-75 | the memory is again a well-formed arena, the one `Alloc` describes, the block carries its order, and no word of a live block has changed |
| Buddy.Allocator.Merge | 14_putting_it_together/05_buddy.c:83-89 | merges exactly when the buddy computed by XOR is on the list of that order, and keeps the arena well formed |
| Buddy.Allocator.BuddyFree | 14_putting_it_together/05_buddy.c:77-92 | the memory is again a well-formed arena, the one `Free` describes, and no word of any other live block has changed |
| Buddy.Allocator.Run | 14_putting_it_together/05_buddy.c:56-92 | any legal sequence of calls does what `RunOps` says and returns what `Answers` says, and from first call to last no word changes of a live block that none of them frees |
| Buddy.Allocator.Store | 14_putting_it_together/05_buddy.c:33 | `next` and `order` live in the block itself, yet the program writing any word of a block it holds keeps the arena well formed and changes no other word |
| BuddyLayout.SplitInv | 14_putting_it_together/05_buddy.c:67-72 | one split keeps the partition, alignment, exact lists and absence of free buddies |
| BuddyLayout.MergeInv | 14_putting_it_together/05_buddy.c:82-90 | one merge keeps the same |
| BuddyLayout.FreeInv | 14_putting_it_together/05_buddy.c:77-92 | the whole cascade keeps it, and removes only p from the live blocks |
| BuddyLayout.AllocGrants | 14_putting_it_together/05_buddy.c:56-75 | the block handed out was not live, has the least sufficient order, is aligned and inside; nothing else live changes |
| BuddyLayout.AllocExact | 14_putting_it_together/05_buddy.c:62-74 | the block is the first of the least nonempty sufficient order and keeps its address; the upper halves split off, one an order, are alone on their lists; no other list changes |
| BuddyLayout.FreeExact | 14_putting_it_together/05_buddy.c:82-91 | the merged block heads the list of its order, the entries of the buddies merged are gone, and all others keep their order |
| BuddyLayout.LastFreedFirst | 14_putting_it_together/05_buddy.c:38-91 | the merged block is the next of its order handed out |
| BuddyLayout.RunHeld | 14_putting_it_together/05_buddy.c:56-92 | after any run the live blocks are exactly those returned and not freed since |
| BuddyLayout.RunCovered | 14_putting_it_together/05_buddy.c:82-90 | an aligned wholly free run lies in one free block |
| BuddyLayout.AllocComplete | 14_putting_it_together/05_buddy.c:60-64 | NULL exactly when no aligned run of the needed order is wholly free |
| BuddyLayout.FreeBlocksFromBitmap | 14_putting_it_together/05_buddy.c:77-92 | the free blocks are exactly the maximal aligned wholly free runs of the page bitmap |
| BuddyLayout.Canonical | 14_putting_it_together/05_buddy.c:49-92 | the same live blocks mean the same free blocks at every order |
| BuddyLayout.AllocFree | 14_putting_it_together/05_buddy.c:56-92 | freeing what was just allocated undoes every split |
| BuddyLayout.HistoryIndependence | 14_putting_it_together/05_buddy.c:49-92 | over whole runs, the blocks depend only on what is live |
| BuddyLayout.LiveUntilFreed | 14_putting_it_together/05_buddy.c:56-92 | through any run that does not free it, a live block keeps its place and order |
| BuddyLayout.AllFreed | 14_putting_it_together/05_buddy.c:114-116 | a run that has freed everything, in any order, leaves the single block of order K on its list |
| Futex.StepInv | 09_threads_memory/05_futex_basic.c:32-60 | every atomic step, spurious wakeups included, keeps the invariant |
| Futex.MutualExclusion | 09_threads_memory/05_futex_basic.c:32-46 | at most one thread is between `lock` and the exchange of `unlock`, and the word is nonzero exactly while one is |
| Futex.NoLostIncrement | 09_threads_memory/05_futex_basic.c:48-60 | `shared` is always the number of completed increments, and `T * N` when all threads are done |
| Futex.LostWithoutLock | 09_threads_memory/05_futex_basic.c:56 | `shared++` is not atomic: two threads let in at once can lose an increment |
| Futex.NoLostWakeup | 09_threads_memory/05_futex_basic.c:38-45 | while a thread sleeps, the word is 2 or a thread is about to wake one or to exchange in 2 |
| Futex.StuckMeansFinished | 09_threads_memory/05_futex_basic.c:32-60 | no reachable unfinished state is stuck |
| Futex.StepBurns | 09_threads_memory/05_futex_basic.c:32-60 | every step but a spurious wakeup lowers the measure |
| Futex.TotalCorrectness | 09_threads_memory/05_futex_basic.c:32-70 | every schedule is bounded by a number of T and N plus five steps a spurious wakeup, and one that only spurious wakeups could extend ends with all done and `shared == T * N` |
| Futex.RunBalanced | 09_threads_memory/05_futex_basic.c:32-46 | over any stretch of any run: exchanges of `lock` come from lost CASes and returns of futex_wait, futex_wait calls from lost exchanges, sleeps end by wakes, futex_wake calls are the `unlock` exchanges that found 2, each paid by an exchange of `lock`, and locks taken are locks released or held |
| Futex.FinishedAccounts | 09_threads_memory/05_futex_basic.c:32-60 | a finished run took and released the lock T * N times and called futex_wake exactly for the contended unlocks |
| Futex.NeverContended | 09_threads_memory/05_futex_basic.c:12-15 | one thread makes no futex call at all |
| Futex.CommentOnOne | 09_threads_memory/05_futex_basic.c:9 | "1 means no waiters", of queued threads, holds in every reachable state exactly for T <= 2 or N == 0 |
| Futex.CommentOnOneWidely | 09_threads_memory/05_futex_basic.c:9 | "1 means no waiters", of all threads in futex_wait, holds exactly for T <= 1, N == 0, or T == 2 and N == 1 |
| Futex.CommentOnTwo | 09_threads_memory/05_futex_basic.c:10 | "2 means someone waits", in either sense, holds in every reachable state exactly for T <= 1 or N == 0 |
| SlabCache.Cache.constructor | 14_putting_it_together/03_slab.c:68-77 | whatever the size, an empty cache with the rounded object size and the objects a slab holds |
| SlabCache.Cache.NewSlab | 14_putting_it_together/03_slab.c:79-99 | on a granted region all its objects are carved into one free list and the slab heads both lists; otherwise nothing changes |
| SlabCache.Cache.CacheAlloc | 14_putting_it_together/03_slab.c:101-110 | records and memory again agree with a well-formed cache, the one `Alloc` describes; words outside the new region are unchanged |
| SlabCache.Cache.FindOwner | 14_putting_it_together/03_slab.c:114-118 | the scan returns the slab whose range holds p, and null exactly when there is none |
| SlabCache.Cache.CacheFree | 14_putting_it_together/03_slab.c:112-129 | a live object goes back to its own slab, a foreign address is ignored, and no other word changes |
| SlabCache.Cache.Store | 14_putting_it_together/03_slab.c:143 | the program writing any aligned word of an object it holds keeps the cache well formed |
| SlabState.PopInv | 14_putting_it_together/03_slab.c:104-109 | taking an object keeps the partial list exact and the live set the objects on no free list |
| SlabState.FreeInv | 14_putting_it_together/03_slab.c:120-128 | giving an object back keeps the same |
| SlabState.AllocGrants | 14_putting_it_together/03_slab.c:101-110 | NULL exactly when every object is live and mmap fails; otherwise a new live object that overlaps no live one |
| SlabState.PerSlabMost | 14_putting_it_together/03_slab.c:75-76 | a slab holds the most objects that fit behind its header |
| SlabState.ObjSizeIs | 14_putting_it_together/03_slab.c:70-71 | objects are rounded to the least multiple of 16 that holds them and a list pointer |
| SlabState.NewSlabOrder | 14_putting_it_together/03_slab.c:91-108 | a new slab hands out its objects from the last address down |
| SlabState.FreeThenAlloc | 14_putting_it_together/03_slab.c:101-129 | an object given back to the slab that serves, or to a full one, is the next handed out and the cache is as before; given to another slab it changes nothing for the next call |
| SlabState.AllocThenFree | 14_putting_it_together/03_slab.c:101-129 | freeing what was just handed out restores the cache, both lists included, but for a slab made on the way |
| SlabState.RunHeld | 14_putting_it_together/03_slab.c:101-129 | after any run the live objects are exactly those returned and not freed since |
| SlabState.InUseCounts | 14_putting_it_together/03_slab.c:107-124 | a slab's `in_use` is the number of its live objects |
| SlabCache.OwnerFound | 14_putting_it_together/03_slab.c:114-119 | for a live pointer or an address in no slab, the scan succeeds exactly on the live pointer, and finds the slab it belongs to |
| SlabState.HeadersApart | 14_putting_it_together/03_slab.c:84-86 | no object overlaps the header of any slab |
| SlabState.LiveApart | 14_putting_it_together/03_slab.c:91-95 | different live objects do not overlap |
| SlabState.SlabsMinimal | 14_putting_it_together/03_slab.c:79-129 | a run maps exactly ceil(peak live objects / objects per slab) slabs |
| MemoryHierarchy.Shuffle | 00_fundamentals/01_memory_hierarchy.c:40-46 | the in-place loop computes `Shuffled` of the contents and the draws |
| MemoryHierarchy.ShuffledPermutes | 00_fundamentals/01_memory_hierarchy.c:39-46 | the result is a permutation of the input |
| MemoryHierarchy.ExactlyOneDraw | 00_fundamentals/01_memory_hierarchy.c:39-46 | each order of distinct elements comes from exactly one sequence of draws |
| MemoryHierarchy.ShuffledIsUrn | 00_fundamentals/01_memory_hierarchy.c:40-46 | the in-place shuffle is drawing without replacement by the stream, the first drawn going last |
| MemoryHierarchy.OrderReaches | 00_fundamentals/01_memory_hierarchy.c:56-60 | every order of the slots is the list order of some stream |
| MemoryHierarchy.OrderTellsDraws | 00_fundamentals/01_memory_hierarchy.c:56-60 | streams that draw differently give different list orders |
| MemoryHierarchy.ChaseFromZero | 00_fundamentals/01_memory_hierarchy.c:62-68 | after t steps the chase stands at position (pos(0) + t) mod n of the shuffled order |
| MemoryHierarchy.Measure | 00_fundamentals/01_memory_hierarchy.c:52-68 | every access is in bounds, the list threads the slots in the order they are drawn without replacement, and the result is the chase of `iters` steps |
| MemoryHierarchy.MeasuredCycle | 00_fundamentals/01_memory_hierarchy.c:62-68 | whatever `rand` returns, n steps from slot 0 visit every slot exactly once and return |
| Reaper.EveryZombieReaped | 08_process_syscalls/10_sigchld.c:23-30 | a zombie means a pending signal or a handler still at work, and at rest every exited child has been counted once |
| Reaper.AllReapedInTheEnd | 08_process_syscalls/10_sigchld.c:23-47 | every run takes at most six steps a child, and one that cannot go on has reaped them all |
| Reaper.RunAccounted | 08_process_syscalls/10_sigchld.c:23-41 | over any stretch of a run every exit and every reaping of a child happens once, `reaped` goes up once each, the pending bit is set exactly if a child exited since the last delivery, and handlers never nest |
| Reaper.OneWaitPerSignal | 08_process_syscalls/10_sigchld.c:7-10 | a handler that reaps one child per signal is right exactly for at most one child |

## Left out

- The `main` demos, `printf`, `dump`, the clock and the benchmark figures: output and measurement only.
- mmap, munmap and malloc themselves: an argument or a precondition says what they granted.
- `01_bump.c` and `02_pool.c`: they would only add easier members.
- Misuse of the allocators (double free, foreign pointers given to `my_free` or `buddy_free`, wrong page counts) and wrapping request sizes.
- Weak memory ordering: the futex steps are sequentially consistent.
- The wait of `main` in 10_sigchld.c: the test of `reaped` and `pause` are not one step, so a signal between them can leave it asleep; only the reaping is modelled.
- Writes by the program of less than a word: an aligned word is the unit of memory.
- MemoryHierarchy.Measure: allocation failure (the -1.0 result) is not represented.
- Errors of `waitpid` other than "no child to report", and the saving of `errno`.
