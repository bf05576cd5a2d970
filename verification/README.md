# Pintos kernel: a verified model

A Dafny model of the Pintos teaching kernel: its memory allocators, scheduler and synchronization, file system, page
tables and the algorithms under them. `dafny verify dfyconfig.toml` checks all of it (Dafny 4.11).

Each part has the form of the C code it models. Objects that the code changes in place are classes, its loops are loops
with invariants, and each such method is proved against a function of the old state. What the code is for is then proved
about that function, mostly as statements about every run.

| file | models |
|---|---|
| Common.dfy | what several modules share |
| Arithmetic.dfy | 64-bit division out of the 32-bit `divl` |
| Sort.dfy | heapsort and binary search over any total preorder |
| Bitmap.dfy, Palloc.dfy | first-fit bitmaps; the page pools |
| Blocks.dfy, Malloc.dfy, Heap.dfy | block addresses and free lists; the allocator as a state machine; its code over lists, headers and bytes |
| Kernel.dfy | threads, the run queue, sleepers and semaphores of one processor, as a state machine and as code |
| Monitor.dfy, Sync.dfy | locks and Mesa condition variables in every interleaving; their code |
| Donation.dfy, Mlfqs.dfy | the priority donation chain; the fixed-point feedback-queue scheduler |
| PageDir.dfy | two-level page tables as a map from pages to frames |
| Inode.dfy | sector-chunked reads and writes as slices and splices of one byte array |
| FileSystem.dfy, Files.dfy, Volume.dfy | the free map, shared open inodes and delayed deletion; what programs rely on; the code of the operations |
| Directory.dfy, Catalog.dfy | directory slots as a bounded map; the file system's names as such a map |
| Format.dfy, Spelling.dfy | integer printing and `atoi`; what the printed text spells |
| Args.dfy, Stack.dfy | `strtok_r` and the argument loop; the initial user stack |

## How interleaving is modelled

On one processor a stretch of code with interrupts off is atomic, and a timer interrupt can fall anywhere else. A step of
the machine in Kernel.dfy is one such stretch of the running thread. A thread that blocks in `sema_down` repeats its test
in the stretch in which it is switched to, so while it stands there no other step is possible. Threads also block in
`timer_sleep`, where they are on the timer's list, and while they wait for an interrupt queue, where they are on no list;
who is woken from there, and when, is left open. Monitor.dfy cuts each lock
and condition operation at the points where an interrupt can fall. Two of its fields are history variables that no code
reads: the thread inside a lock's region, and the stage of the private semaphore of a wait.

Memory, disk and scheduling choices that the code cannot control are parameters: which allocations succeed, whether the
free map can be written, which page a new thread gets, when an interrupt preempts.

## Where the code differs from its documentation

The model follows the code.

- `malloc` promises a block of at least the requested size. For sizes above 2^32 - 12 the sum with the header wraps and
  one page is handed out (Malloc.LiveLargeEnough, Malloc.PagesWrap).
- `realloc` to such a size copies past its new page when the old block has more than 4084 bytes, and only then
  (Malloc.CopyFitsIff, Malloc.CopyOverruns).
- The comment in `malloc.c` speaks of blocks of up to 2 kB; the loop stops below half a page, so the largest descriptor
  is 1 kB (Blocks.MallocInit).
- `sdiv64` negates the quotient as a signed number. For the least dividend and divisor 1 C does not define that; the
  model wraps around, as the processor does (Arithmetic.Sdiv64).
- `umod64` and `smod64` return 32 bits; the exact conditions are Arithmetic.UmodExactIff and Arithmetic.SmodExactIff.
- The donation loop is announced with unlimited depth and stops after eight links (Donation.AcquireDonates).
- Nothing keeps a thread from exiting while it holds a lock. The lock then stays held by its page: nobody else gets it,
  and the next thread on that page counts as its holder (Monitor.HolderChanges, Monitor.LockInherited).
- `filesys_create` gives back only the inode's sector when the directory entry cannot be added; the data sectors stay
  marked for ever (FileSystem.CreateLeaksIff, FileSystem.StepLeaks, FileSystem.LeakExample).
- The scheduler's fixed-point numbers are exact enough for 586 runnable threads. With 587 there is a run in which
  recent_cpu wraps (Mlfqs.WrapsIff).
- The argument loop fills 40 places without counting, and the strings and pointers go onto one page without a check;
  what does not fit is written elsewhere (Args.ManyWords, Stack.FitsIff, Stack.LongWord).
- The grouping flag of `printf` makes numbers that `atoi` cuts at the first separator (Format.PrintedIsRead).

## Model

| member | source | states |
|---|---|---|
| Arithmetic.Nlz | Project 1 - Threads/src/lib/arithmetic.c:41-73 | For every nonzero 32-bit x, the number of zero bits above its highest one: x shifted left by the result has its top bit set and loses nothing. |
| Arithmetic.LongDivision | Project 1 - Threads/src/lib/arithmetic.c:80-112 | Dividing the high word first and its remainder with the low word second adds up to the quotient, and the second quotient is below 2^32. |
| Arithmetic.SmallDivisor | Project 1 - Threads/src/lib/arithmetic.c:80-112 | For a divisor below 2^32 `divl` does not trap and the branch yields floor(n / d). |
| Arithmetic.EstimateBound | Project 1 - Threads/src/lib/arithmetic.c:121-123 | The shifted quotient of n / 2 by the normalised top half of d is floor(n / d) or one more. |
| Arithmetic.LargeDivisor | Project 1 - Threads/src/lib/arithmetic.c:117-123 | For d of 33 bits or more and n >= d, `divl` does not trap and the estimate is the true quotient or one more. |
| Arithmetic.Corrected | Project 1 - Threads/src/lib/arithmetic.c:124-125 | Comparing n - (q - 1) * d with d, in wrapping 64-bit arithmetic, turns an estimate that is exact or one too high into floor(n / d). |
| Arithmetic.Udiv64 | Project 1 - Threads/src/lib/arithmetic.c:77-127 | For every 64-bit n and d the result is floor(n / d), and a trap happens exactly when d is zero. |
| Arithmetic.Umod64 | Project 1 - Threads/src/lib/arithmetic.c:131-135 | The low 32 bits of the true remainder. |
| Arithmetic.UmodExactIff | Project 1 - Threads/src/lib/arithmetic.c:131-135 | The 32-bit result is the true remainder for all n exactly when d is at most 2^32. |
| Arithmetic.Sdiv64 | Project 1 - Threads/src/lib/arithmetic.c:139-146 | Division truncated towards zero, exactly unless the dividend is the least 64-bit integer and the divisor is -1. |
| Arithmetic.RemainderShape | Project 1 - Threads/src/lib/arithmetic.c:150-154 | The remainder of truncating division is smaller than the divisor and has the sign of the dividend. |
| Arithmetic.Smod64 | Project 1 - Threads/src/lib/arithmetic.c:150-154 | The low 32 bits, as a signed number, of the true remainder. |
| Arithmetic.SmodExactIff | Project 1 - Threads/src/lib/arithmetic.c:150-154 | The 32-bit result is the true remainder for all dividends exactly when the divisor is at most 2^31 in size. |
| Sort.DoSwap | Project 1 - Threads/src/lib/stdlib.c:66-79 | Exchanges the two elements and nothing else. |
| Sort.MaxIsLargest | Project 1 - Threads/src/lib/stdlib.c:103-112 | The selected index is that of a largest element among a node and its children. |
| Sort.SiftStep | Project 1 - Threads/src/lib/stdlib.c:119-121 | Swapping an element with its larger child moves the only violation of the heap order down to that child. |
| Sort.Heapify | Project 1 - Threads/src/lib/stdlib.c:96-123 | When both subtrees of node i are heaps, the subtree at i becomes one, by a permutation inside that subtree; the rest stays. |
| Sort.HeapGrows | Project 1 - Threads/src/lib/stdlib.c:142-151 | So if all later subtrees were heaps as well, they still are, which is what `sort` builds the heap and repairs it with. |
| Sort.RootIsLargest | Project 1 - Threads/src/lib/stdlib.c:147-151 | The root of a heap is at least every element of it. |
| Sort.ExtractMax | Project 1 - Threads/src/lib/stdlib.c:147-151 | Swapping the root of the heap behind its end keeps the tail sorted and above the rest. |
| Sort.HeapSort | Project 1 - Threads/src/lib/stdlib.c:131-152 | For any total preorder the array ends up sorted and is a permutation of what it was. |
| Sort.BinarySearch | Project 1 - Threads/src/lib/stdlib.c:184-207 | In a sorted array the result points to an element equal to the key, and there is a result exactly when such an element exists. |
| Mlfqs.Scheduler.Tick | Project 1 - Threads/src/threads/thread.c:144-191 | One timer interrupt takes the bookkeeping to the next state of the machine whose runs the bounds are about. |
| Mlfqs.Scheduler.SetNice | Project 1 - Threads/src/threads/thread.c:404-419 | Changing niceness recomputes that thread's priority and touches no other thread. |
| Mlfqs.TickIs | Project 1 - Threads/src/threads/thread.c:144-191 | A tick is charged to the thread it interrupts; every fourth tick gives every thread the priority 63 - recent_cpu/4 - 2*nice, rounded and clamped, from its usage before the decay, and no other tick does; only every hundredth changes load or decays usage. |
| Mlfqs.SecondIs | Project 1 - Threads/src/threads/thread.c:161-183 | Every hundredth tick averages the load with the number of runnable threads and takes every thread's usage to 2*load/(2*load+1) of what it was, plus its niceness, with the rounding errors bounded. |
| Mlfqs.NiceIs | Project 1 - Threads/src/threads/thread.c:404-419 | A new niceness shows in that thread's priority at once, and nothing else changes. |
| Mlfqs.LoadBounded | Project 1 - Threads/src/threads/thread.c:161-162 | With at most n runnable threads the load average stays between 0 and n in fixed point. |
| Mlfqs.LoadIsAverage | Project 1 - Threads/src/threads/thread.c:161-162 | The new load is 59/60 of the old one plus 1/60 of the runnable threads, too low by less than n + 1 units. |
| Mlfqs.DecayBounded | Project 1 - Threads/src/threads/thread.c:167 | The decay factor is below one by the margin that the steady state of recent_cpu needs, and its divisor is not zero. |
| Mlfqs.DecayedCpu | Project 1 - Threads/src/threads/thread.c:182-183 | A second boundary brings recent_cpu from its largest range back into the steady range, under truncating division. |
| Mlfqs.StepBounded | Project 1 - Threads/src/threads/thread.c:144-191 | Every tick and every change of niceness keeps the bounds on load_avg and recent_cpu. |
| Mlfqs.RunBounded | Project 1 - Threads/src/threads/thread.c:144-191 | Over every run with at most n <= 586 runnable threads: 0 <= load_avg <= n, -20(2n+1) <= recent_cpu <= 240n+120, priorities in [0, 63], and nothing wraps. |
| Mlfqs.WrapsIff | Project 1 - Threads/src/threads/thread.c:144-191 | Starting from zero load and usage, no run wraps recent_cpu if and only if at most 586 threads are ever runnable; with 587, one thread that keeps running gets there. |
| Mlfqs.RangeFitsIff | Project 1 - Threads/src/threads/thread.h:27-38 | The documented range of recent_cpu as a whole fits a 32-bit int exactly when n is at most 545. |
| Mlfqs.PrioritiesKept | Project 1 - Threads/src/threads/thread.c:173-180 | A recomputed priority always lies in [0, 63]. |
| Mlfqs.PriorityIsRounded | Project 1 - Threads/src/threads/thread.c:173-180 | Unless it is clamped, a priority is 63 - recent_cpu/4 - 2*nice rounded to the nearest integer. |
| Mlfqs.PriorityAntitone | Project 1 - Threads/src/threads/thread.c:173-180 | More CPU use and more niceness never give a higher priority. |
| Donation.WalkIsMax | Project 1 - Threads/src/threads/synch.c:217-227 | On a chain in order, donation with enough depth lifts every holder to the maximum of its priority and the donor's. |
| Donation.WalkSettlesIff | Project 1 - Threads/src/threads/synch.c:217-227 | After the climb the chain is in order exactly when it is no longer than the depth limit or its holder at that depth is high enough. |
| Donation.DeepChainNotSettled | Project 1 - Threads/src/threads/synch.c:216-219 | A chain of nine links that the depth limit of eight leaves unsettled. |
| Donation.Climb | Project 1 - Threads/src/threads/synch.c:217-227 | The loop lifts a prefix of the chain to the caller's priority and stops at the first holder that is high enough, at the end or at the limit. |
| Donation.Donate | Project 1 - Threads/src/threads/synch.c:212-228 | The wait is recorded, the caller joins the holder's donators, and the chain's priorities become those of the walk. |
| Donation.AcquireFront | Project 1 - Threads/src/threads/synch.c:209-232 | Donation happens exactly for a held lock under the priority scheduler; otherwise no priority changes. |
| Donation.AcquireDonates | Project 1 - Threads/src/threads/synch.c:209-232 | If every waiter's holder was high enough before, this holds after the new edge exactly when the chain has at most eight links or its ninth holder is high enough; no priority is lowered. |
| PageDir.EntryRoundTrip | Project 1 - Threads/src/threads/pte.h:59-104 | An entry gives back the page, presence and writability it was made of, and lets user code through at both levels. |
| PageDir.AddressSplit | Project 1 - Threads/src/threads/pte.h:20-38 | A user address is its directory index, table index and offset put together. |
| PageDir.WalkIs | Project 1 - Threads/src/threads/pte.h:20-104 | Walking both levels as the processor does, with the physical addresses in the entries, ends where the map says. |
| PageDir.UserMayIff | Project 1 - Threads/src/threads/pte.h:71-98 | User code may read or write a page exactly as its mapping says, because no directory entry forbids it. |
| PageDir.WithTableKeeps | Project 1 - Threads/src/userprog/pagedir.c:70-80 | Hanging a new empty page table leaves the translation of every page unchanged. |
| PageDir.WithEntryUpdates | Project 1 - Threads/src/userprog/pagedir.c:113-118 | Writing one table entry changes the translation of that page only, because tables are not shared. |
| PageDir.Kernel.Create | Project 1 - Threads/src/userprog/pagedir.c:16-23 | A new directory maps no user page and owns only itself; without memory nothing changes. |
| PageDir.Kernel.LookupPage | Project 1 - Threads/src/userprog/pagedir.c:58-88 | The entry's position, a new table exactly when one is missing and wanted, null exactly when it is missing and not made. |
| PageDir.Kernel.SetPage | Project 1 - Threads/src/userprog/pagedir.c:100-121 | On success exactly the one page is mapped to the frame, open to user code and for writing as asked, also when a table was allocated; on failure nothing changes; tables stay unshared, and frames mapped once if they were. |
| PageDir.Kernel.GetPage | Project 1 - Threads/src/userprog/pagedir.c:127-139 | Frame plus offset for every address of a mapped page, null for every other address. |
| PageDir.Kernel.ClearPage | Project 1 - Threads/src/userprog/pagedir.c:145-159 | Removes exactly one page from the map and changes no other bit of its entry. |
| PageDir.Kernel.Destroy | Project 1 - Threads/src/userprog/pagedir.c:29-50 | Frees every mapped frame, every user page table and the directory, each once, and nothing else. |
| Bitmaps.Bitmap.Scan | Project 1 - Threads/src/lib/kernel/bitmap.c:296-311 | The first position at which the wanted run of equal bits starts, or nothing when there is none. |
| Bitmaps.Bitmap.ScanAndFlip | Project 1 - Threads/src/lib/kernel/bitmap.c:320-327 | The first fit, with exactly its bits flipped. |
| Bitmaps.Bitmap.All | Project 1 - Threads/src/lib/kernel/bitmap.c:284-288 | True exactly when all bits of the range are set. |
| Bitmaps.FlipAndBack | Project 1 - Threads/src/lib/kernel/bitmap.c:218-227 | Handing a run out and taking it back restores the bitmap. |
| Palloc.Pages.GetMultiple | Project 1 - Threads/src/threads/palloc.c:77-108 | The first run of free pages of the chosen pool, marked used; nothing, and no change, when there is no such run or no page is asked for. |
| Palloc.Pages.FreeMultiple | Project 1 - Threads/src/threads/palloc.c:124-149 | Pages go back to the pool they came from, found by page number; the assertion that they are in use holds. |
| Palloc.GetThenFree | Project 1 - Threads/src/threads/palloc.c:77-149 | Taking pages and giving them back leaves the pools as they were. |
| Blocks.MallocInit | Project 1 - Threads/src/threads/malloc.c:71-85 | Seven descriptors, for 16 to 1024 bytes, each with as many blocks as fit in a page after the header. |
| Blocks.DescForLeast | Project 1 - Threads/src/threads/malloc.c:100-104 | No smaller descriptor than the one chosen holds the request. |
| Blocks.OffsetFits | Project 1 - Threads/src/threads/malloc.c:285-294 | Every block of an arena lies after the header and inside the page. |
| Blocks.BlockIsAligned | Project 1 - Threads/src/threads/malloc.c:277-278 | The alignment assertion for small blocks holds for every block of an arena. |
| Malloc.LiveInside | Project 1 - Threads/src/threads/malloc.c:266-282 | For every live block the page it is rounded down to is an arena, both alignment assertions hold, and the block lies in that arena's pages behind its header. |
| Blocks.BlocksApart | Project 1 - Threads/src/threads/malloc.c:285-294 | Two blocks of one arena do not overlap. |
| Malloc.RefillKeepsCore | Project 1 - Threads/src/threads/malloc.c:124-146 | A new arena puts all its blocks on the list, counted in its header, and disturbs no other arena or block. |
| Malloc.TakeKeepsCore | Project 1 - Threads/src/threads/malloc.c:148-153 | Taking the front block keeps every header count equal to the number of its blocks on the list. |
| Malloc.PutKeepsCore | Project 1 - Threads/src/threads/malloc.c:238-242 | Giving a block back keeps every header count equal to the number of its blocks on the list. |
| Malloc.AllFreeMeans | Project 1 - Threads/src/threads/malloc.c:241-253 | When the count says so, all blocks of the arena are on the list and none is handed out, so each can be unlinked. |
| Malloc.CountIsAll | Project 1 - Threads/src/threads/malloc.c:246 | The assertion on the count before an arena is taken apart holds. |
| Malloc.DropKeepsCore | Project 1 - Threads/src/threads/malloc.c:241-253 | Taking an arena apart removes exactly its blocks from the list and gives exactly its page back. |
| Malloc.MallocKeepsInv | Project 1 - Threads/src/threads/malloc.c:89-154 | Allocation keeps the allocator's invariant, whichever way the block is found. |
| Malloc.FreeKeepsInv | Project 1 - Threads/src/threads/malloc.c:218-264 | Freeing keeps it, with or without an arena going away. |
| Malloc.LiveApart | Project 1 - Threads/src/threads/malloc.c:89-154 | Live blocks never overlap. |
| Malloc.LiveOffHeaders | Project 1 - Threads/src/threads/malloc.c:49-55 | No live block touches the header of any arena. |
| Malloc.PagesCover | Project 1 - Threads/src/threads/malloc.c:107-110 | Whole pages cover a large request exactly when adding the header does not wrap 32 bits; for the page of sizes just below, rounding up wraps to no page and `malloc` fails. |
| Malloc.PagesWrap | Project 1 - Threads/src/threads/malloc.c:109-120 | In a fresh pool a request of 2^32 - 11 bytes succeeds and returns a block with 4084 bytes behind it. |
| Malloc.LiveLargeEnough | Project 1 - Threads/src/threads/malloc.c:87-120 | A live block holds the bytes asked for exactly when the size plus the header fits 32 bits. |
| Malloc.BlocksAccounted | Project 1 - Threads/src/threads/malloc.c:49-55 | A small arena's count is that of its blocks on the list; each of its blocks is either there or handed out; it is never all free. |
| Malloc.FreeUndoesMalloc | Project 1 - Threads/src/threads/malloc.c:89-264 | Freeing a block just allocated restores lists, counts, arenas and the page map completely. |
| Malloc.FreeLeavesOthers | Project 1 - Threads/src/threads/malloc.c:218-264 | Freeing one block leaves all other live blocks and their capacities in place. |
| Malloc.NothingChanges | Project 1 - Threads/src/threads/malloc.c:89-154 | A failed allocation has no effect. |
| Malloc.SmallOkIff | Project 1 - Threads/src/threads/malloc.c:99-135 | A small request succeeds exactly if its descriptor has a free block or there is a free page. |
| Malloc.BigOkIff | Project 1 - Threads/src/threads/malloc.c:105-119 | A large request succeeds exactly if there are enough free pages in a row. |
| Malloc.ReachableIsSafe | Project 1 - Threads/src/threads/malloc.c:72-294 | After every sequence of calls, with others taking and returning pages of the same pool in between: live blocks disjoint, outside headers, aligned as `block_to_arena` asserts, and large enough unless the size wraps; counts right; no idle small arena. |
| Malloc.BlockStays | Project 1 - Threads/src/threads/malloc.c:89-264 | In every run a live block stays where it is, with its request and its capacity, until it is freed itself. |
| Malloc.CopyFitsIff | Project 1 - Threads/src/threads/malloc.c:194-214 | What `realloc` copies stays inside the new block exactly when the size plus the header fits 32 bits or the old block has at most 4084 bytes. |
| Malloc.CopyOverruns | Project 1 - Threads/src/threads/malloc.c:194-214 | In a fresh pool of three pages: after `malloc` of 5000 bytes, enlarging the block to 2^32 - 11 copies 8180 bytes into a block of 4084. |
| Heap.Heap.CutUp | Project 1 - Threads/src/threads/malloc.c:137-145 | The loop that carves a page puts exactly the arena's blocks on the list, in order. |
| Heap.Heap.Unlink | Project 1 - Threads/src/threads/malloc.c:246-251 | The loop that unlinks an arena's blocks finds each on the list and leaves all others. |
| Heap.Heap.Malloc | Project 1 - Threads/src/threads/malloc.c:89-154 | The code over lists, headers and page bitmaps computes the specified block and state. |
| Heap.Heap.Free | Project 1 - Threads/src/threads/malloc.c:218-264 | The code computes the specified state, overwrites the block or its whole arena if that goes, and leaves every other live block its bytes. |
| Heap.Heap.SizeOfBlock | Project 1 - Threads/src/threads/malloc.c:178-186 | The number of bytes behind a live block. |
| Heap.Heap.Realloc | Project 1 - Threads/src/threads/malloc.c:194-214 | Whenever the copy fits, nothing is to be copied or memory is out: the new block starts with the old contents as far as they fit, the old block is freed, all others keep their bytes; on failure nothing changes. |
| Kernel.Started | Project 2 - User programs/src/threads/thread.c:91-121 | The state just after start-up satisfies the scheduler's invariant. |
| Kernel.ScheduleKeepsInv | Project 2 - User programs/src/threads/thread.c:546-560 | `schedule` picks a thread that is ready or idle and restores the invariant. |
| Kernel.TestKeepsInv | Project 2 - User programs/src/threads/synch.c:70-77 | The test of `sema_down`, first or repeated, keeps the invariant whether it takes a unit or sleeps. |
| Kernel.UpKeepsInv | Project 2 - User programs/src/threads/synch.c:117-122 | `sema_up` wakes at most the longest waiter and keeps the invariant. |
| Kernel.StepKeepsInv | Project 2 - User programs/src/threads/thread.c:223-560 | Every step of every thread and interrupt keeps the invariant. |
| Kernel.CanGoOn | Project 2 - User programs/src/threads/thread.c:223-560 | The processor never gets stuck: the test of `sema_down`, or preemption and everything a thread may call, is always possible. |
| Kernel.ReachableIsSafe | Project 2 - User programs/src/threads/thread.c:223-560 | Between the steps of any run exactly one thread is running; a thread's list element is linked once when it is ready, asleep in the timer or blocked in a semaphore, and not at all when it is parked, running or dying; idle is never linked. |
| Kernel.StepBlocks | Project 2 - User programs/src/devices/timer.c:105-116 | A thread is among the sleepers exactly from its `timer_sleep` until the timer wakes it, and parked exactly from its own block without a list until it is unblocked. |
| Kernel.SleepersInOrder | Project 2 - User programs/src/devices/timer.c:105-169 | Sleepers join their list at its end, are taken out of any place of it, and then join the ready list at its end. |
| Kernel.StepFrees | Project 2 - User programs/src/threads/thread.c:288-305 | A page is given back exactly when its thread exits and is not the first one, and another thread is running by then. |
| Kernel.FreedOnce | Project 2 - User programs/src/threads/thread.c:509-537 | Over every run the creations and frees of a page differ exactly by the thread now on it. |
| Kernel.NoStrandedWaiter | Project 2 - User programs/src/threads/synch.c:61-122 | A semaphore never has both units and waiters unless a woken thread, ready or running, is about to test it. |
| Kernel.WokenCanRun | Project 2 - User programs/src/threads/synch.c:110-122 | A thread popped from a semaphore is ready or running until it has tested the value again. |
| Kernel.ReadyIsServed | Project 2 - User programs/src/threads/thread.c:484-491 | A ready thread with i others before it moves up by one with every switch, whatever happens. |
| Kernel.ReadyRuns | Project 2 - User programs/src/threads/thread.c:546-560 | In every run with more than i switches there is a moment, right after the switch number i + 1, at which the thread that had i others before it runs. |
| Kernel.WaiterIsServed | Project 2 - User programs/src/threads/synch.c:61-122 | A waiter with i others before it moves up by one with every `sema_up`, and only then. |
| Kernel.UnitsConserved | Project 2 - User programs/src/threads/synch.c:45-122 | Over every run value plus units taken is the start value plus ups, less 2^32 for each time the count wraps; it cannot wrap while start plus ups is below 2^32. |
| Kernel.Cpu.SwitchNext | Project 2 - User programs/src/threads/thread.c:546-560 | `schedule` and `schedule_tail` on the processor's own state; the assertions hold, and a dying thread is freed by its successor. |
| Kernel.Cpu.SemaDown | Project 2 - User programs/src/threads/synch.c:61-78 | One pass of the loop: a unit taken, or the thread at the end of the waiters and another one running. |
| Kernel.Cpu.SemaTryDown | Project 2 - User programs/src/threads/synch.c:86-104 | Takes a unit exactly when there is one and never sleeps. |
| Kernel.Cpu.SemaUp | Project 2 - User programs/src/threads/synch.c:109-123 | Wakes the longest waiter, which is blocked as `thread_unblock` asserts, and counts up. |
| Kernel.Cpu.ThreadYield | Project 2 - User programs/src/threads/thread.c:309-323 | The running thread goes to the end of the ready list unless it is idle, and the next one runs. |
| Kernel.Cpu.ThreadExit | Project 2 - User programs/src/threads/thread.c:290-305 | The thread is gone and another one runs. |
| Kernel.Cpu.TimerSleep | Project 2 - User programs/src/devices/timer.c:105-116 | The running thread goes to the end of the sleepers and another one runs. |
| Kernel.Cpu.TimerInterrupt | Project 2 - User programs/src/devices/timer.c:153-169 | The loop wakes exactly the sleepers whose time has come, in the order of their list, and leaves the others in theirs. |
| Kernel.Cpu.Park | Project 2 - User programs/src/devices/intq.c:88-98 | The running thread blocks without joining a list. |
| Kernel.Cpu.Unpark | Project 2 - User programs/src/devices/intq.c:105-116 | A parked thread becomes ready; it is blocked, as `thread_unblock` asserts. |
| Kernel.Cpu.ThreadCreate | Project 2 - User programs/src/threads/thread.c:168-215 | A thread on an empty page becomes ready. |
| Monitor.StepKeepsInv | Project 2 - User programs/src/threads/synch.c:177-340 | Every interleaved piece of every lock and condition operation keeps the monitors' invariant. |
| Monitor.CanGoOn | Project 2 - User programs/src/threads/synch.c:177-340 | In the middle of any operation the running thread can go on, so the assertions on the way hold, the one in `lock_acquire` at the end of a wait included; outside `sema_down` an interrupt can fall at every point. |
| Monitor.MutualExclusion | Project 2 - User programs/src/threads/synch.c:177-238 | In every interleaving the lock's semaphore plus the threads past it is one, and a holder is exactly the thread in that region. |
| Monitor.ReturnsHolding | Project 2 - User programs/src/threads/synch.c:193-306 | Over every run, a thread that acquires a lock or waits on a condition holds the lock at the first moment at which it is back in its own code. |
| Monitor.AwaitGoesOn | Project 2 - User programs/src/threads/synch.c:193-306 | No step of anybody takes a thread out of an acquire or a wait except to return with the lock held. |
| Monitor.BackAcquires | Project 2 - User programs/src/threads/synch.c:302-303 | After its signal a waiter's only step on locks and conditions is to acquire its lock. |
| Monitor.OnlyHoldersReturn | Project 2 - User programs/src/threads/synch.c:193-325 | A thread gets back to its own code only by holding the lock, by having released it, or by having signalled. |
| Monitor.HolderChanges | Project 2 - User programs/src/threads/synch.c:193-238 | Only the holder gives a lock up, by releasing it or waiting, and only a thread past its semaphore becomes the holder. |
| Monitor.LockInherited | Project 2 - User programs/src/threads/thread.c:290-305 | When a holder exits and a thread is made on its page, that thread holds the lock without having acquired it. |
| Monitor.SignalTakesLongest | Project 2 - User programs/src/threads/synch.c:313-325 | A signal that finds a waiter takes the one that has waited longest off the list, and no other. |
| Monitor.SignalIsKept | Project 2 - User programs/src/threads/synch.c:289-306 | Once a waiter is popped and raised it is not asleep and its next test succeeds, also when the signal falls between `lock_release` and `sema_down`. |
| Monitor.WaitIsOver | Project 2 - User programs/src/threads/synch.c:289-306 | When a wait is past its private semaphore nothing refers to that semaphore any more: no list, no signaller, no sleeper. |
| Monitor.WaitsNeedSignals | Project 2 - User programs/src/threads/synch.c:289-325 | In every run the waits that get past their private semaphore never outnumber the signals that found a waiter. |
| Monitor.HolderGuardsList | Project 2 - User programs/src/threads/synch.c:289-340 | Only a step of the lock's holder changes a condition's list, so the list needs no protection of its own and each operation on it is one step. |
| Monitor.BroadcastDrains | Project 2 - User programs/src/threads/synch.c:333-340 | While one thread keeps the lock, the list only loses its front, once with each signal, so broadcast releases exactly the waiters it found. |
| Sync.Monitors.LockAcquire | Project 2 - User programs/src/threads/synch.c:193-202 | The semaphore of the lock taken, or the thread asleep in it. |
| Sync.Monitors.LockInitialize | Project 2 - User programs/src/threads/synch.c:177-183 | A new lock is free. |
| Sync.Monitors.ResumeAcquire | Project 2 - User programs/src/threads/synch.c:200 | A thread switched to inside the lock's `sema_down` tests again, and takes the semaphore or sleeps on. |
| Sync.Monitors.TakeOver | Project 2 - User programs/src/threads/synch.c:201 | The thread past the semaphore becomes the holder. |
| Sync.Monitors.LockRelease | Project 2 - User programs/src/threads/synch.c:230-236 | The holder is cleared before the semaphore is raised. |
| Sync.Monitors.LockTryAcquire | Project 2 - User programs/src/threads/synch.c:210-223 | Takes the lock's semaphore, and succeeds, exactly when it is free. |
| Sync.Monitors.HandOn | Project 2 - User programs/src/threads/synch.c:230-238 | The lock's semaphore raised after the holder was cleared. |
| Sync.Monitors.CondWait | Project 2 - User programs/src/threads/synch.c:289-301 | A fresh private semaphore at the end of the condition's list. |
| Sync.Monitors.CondSleep | Project 2 - User programs/src/threads/synch.c:302 | No sleep when the signal has already come. |
| Sync.Monitors.ResumeWait | Project 2 - User programs/src/threads/synch.c:302 | A waiter switched to tests its semaphore again, and goes past it or sleeps on. |
| Sync.Monitors.CondSignal | Project 2 - User programs/src/threads/synch.c:313-325 | The front of the list popped, if there is one. |
| Sync.Monitors.CondBroadcast | Project 2 - User programs/src/threads/synch.c:332-340 | Without preemption all waiters found are off the list with their semaphores raised, and the loop ends. |
| Inode.ByteStands | Project 1 - Threads/src/filesys/inode.c:46-54 | Byte k of a file is byte k % 512 of the sector k / 512 after its first. |
| Inode.SectorsCover | Project 1 - Threads/src/filesys/inode.c:24-29 | A file takes the fewest sectors of 512 bytes that hold it. |
| Inode.FlatWithinSector | Project 1 - Threads/src/filesys/inode.c:46-54 | A chunk inside one sector is the same bytes of the flat array. |
| Inode.SplicedFlat | Project 1 - Threads/src/filesys/inode.c:257-318 | Laying bytes over the sectors lays them over the flat array, and all its other bytes stay. |
| Inode.SplicedElsewhere | Project 1 - Threads/src/filesys/inode.c:257-318 | Sectors outside the file are not changed. |
| Inode.OtherFileUntouched | Project 1 - Threads/src/filesys/inode.c:257-318 | A file with other sectors keeps all its bytes. |
| Inode.SplicedTwice | Project 1 - Threads/src/filesys/inode.c:310-313 | Two adjacent chunks are one longer chunk. |
| Inode.Inode.ReadAt | Project 1 - Threads/src/filesys/inode.c:200-250 | Transfers min(size, length - offset) bytes, or those before the first chunk that needs a bounce buffer when there is none, and they are that slice of the flat array; the rest of the buffer stays. |
| Inode.Inode.WriteAt | Project 1 - Threads/src/filesys/inode.c:257-318 | Transfers as many bytes, none while writes are denied, and lays exactly them over the flat array. |
| Inode.WriteThenRead | Project 1 - Threads/src/filesys/inode.c:200-318 | A read after a write returns the bytes written, and a file on other sectors is unchanged. |
| FileSystem.FormatOk | Project 1 - Threads/src/filesys/filesys.c:94-104 | A freshly formatted disk satisfies the file system's invariant. |
| FileSystem.CreateTakes | Project 1 - Threads/src/filesys/filesys.c:46-60 | A successful creation takes its inode and data from sectors that were free. |
| FileSystem.ReleaseAsserted | Project 1 - Threads/src/filesys/free-map.c:43-49 | The last close of a removed inode finds all its sectors marked used, as the assertion demands. |
| FileSystem.StepKeepsInv | Project 1 - Threads/src/filesys/filesys.c:46-92 | Every create, open, write, remove and close keeps live inodes on disjoint sectors that are all marked used, and names unique. |
| FileSystem.RunKeepsInv | Project 1 - Threads/src/filesys/filesys.c:46-92 | The same over every run. |
| FileSystem.RunKeepsFile | Project 1 - Threads/src/filesys/inode.c:72-194 | Over every run a file in use throughout, by name or by openers, keeps its sectors and its bytes, apart from what is written to it. |
| FileSystem.StepKeepsContents | Project 1 - Threads/src/filesys/inode.c:72-194 | No operation on other files changes a live file's inode or bytes. |
| FileSystem.WriteSplices | Project 1 - Threads/src/filesys/inode.c:257-318 | A write changes its own file as the flat array says. |
| FileSystem.StepKeepsOpen | Project 1 - Threads/src/filesys/inode.c:111-186 | A step ends the openness of a file exactly when it is the close of its last opener; until then the file keeps its length. |
| FileSystem.RunSafe | Project 1 - Threads/src/filesys/inode.c:163-195 | Over every run a file that is open throughout keeps its sectors and its bytes, apart from what is written to it, even when other openers close it and its name is removed. |
| FileSystem.CreateLeaksIff | Project 1 - Threads/src/filesys/filesys.c:46-60 | A creation loses sectors exactly when it makes a nonempty file's inode and then cannot list it. |
| FileSystem.LeakExample | Project 1 - Threads/src/filesys/filesys.c:46-60 | On a new disk of six sectors, a file of 512 bytes under a name of 15 characters is not created and loses sector 5. |
| FileSystem.StepLeaks | Project 1 - Threads/src/filesys/filesys.c:46-92 | No other operation loses a sector, and no operation recovers one. |
| Files.CreatedZero | Project 1 - Threads/src/filesys/inode.c:93-100 | A new file has the length asked for and reads as zeros, whatever its sectors held before. |
| Files.RunFromCreation | Project 1 - Threads/src/filesys/inode.c:72-318 | Over every run a file reads as what was written to it since it was made, and zeros elsewhere. |
| Files.FormatZero | Project 1 - Threads/src/filesys/filesys.c:94-104 | The free map's file and the root directory start out as zeros. |
| Files.CreateOkIff | Project 1 - Threads/src/filesys/filesys.c:46-60 | Creation succeeds exactly for a new valid name with room in the directory, a free sector for the inode and then a run for the data, unless memory or disk fails. |
| Files.OpenOkIff | Project 1 - Threads/src/filesys/filesys.c:67-78 | Opening succeeds exactly for a name that is there, unless memory runs out, and gives that name's inode. |
| Files.RemoveOkIff | Project 1 - Threads/src/filesys/filesys.c:84-92 | Removing succeeds exactly for a name that is there, unless memory or disk fails, and then exactly that name is gone. |
| Files.RunOpeners | Project 1 - Threads/src/filesys/inode.c:111-186 | Over every run the number of a file's openers is its successful opens less its closes. |
| Files.CloseFreesIff | Project 1 - Threads/src/filesys/inode.c:163-186 | A close gives back sectors exactly if it is the last of a removed file, and then all of that file's and no others. |
| Files.RemoveFreesIff | Project 1 - Threads/src/filesys/filesys.c:84-92 | Removing an open file only marks it; removing one that is not open gives back exactly its sectors. |
| Volume.Volume.FreeMapAllocate | Project 1 - Threads/src/filesys/free-map.c:26-40 | First fit, taken back when the map cannot be written. |
| Volume.Volume.FreeMapRelease | Project 1 - Threads/src/filesys/free-map.c:43-49 | Exactly the given sectors are unmarked; the assertion that they were marked holds at every call. |
| Volume.Volume.InodeCreate | Project 1 - Threads/src/filesys/inode.c:72-106 | The code allocates, writes the inode and zeroes the data as specified. |
| Volume.Volume.InodeOpen | Project 1 - Threads/src/filesys/inode.c:111-142 | A second opener shares the inode; otherwise it is read from its sector. |
| Volume.Volume.InodeClose | Project 1 - Threads/src/filesys/inode.c:163-186 | Only the last close of a removed inode gives its sectors back. |
| Volume.Volume.Create | Project 1 - Threads/src/filesys/filesys.c:46-60 | The code with its rollback computes the specified state and keeps the invariant. |
| Volume.Volume.Open | Project 1 - Threads/src/filesys/filesys.c:67-78 | The code computes the specified state and keeps the invariant. |
| Volume.Volume.Remove | Project 1 - Threads/src/filesys/filesys.c:84-92 | The code computes the specified state and keeps the invariant. |
| Directory.DecodeEncode | Project 1 - Threads/src/filesys/directory.c:16-22 | An entry written to the file is read back as it was. |
| Directory.EntryLayout | Project 1 - Threads/src/filesys/directory.c:16-22 | The sector stands in the first four bytes, low byte first, then the name, then the mark. |
| Directory.SlotWritten | Project 1 - Threads/src/filesys/directory.c:171-175 | Writing one slot changes that slot only. |
| Directory.MapSize | Project 1 - Threads/src/filesys/directory.c:159-169 | A directory is full exactly when its map has as many names as there are slots. |
| Directory.AddIsInsert | Project 1 - Threads/src/filesys/directory.c:141-179 | Adding succeeds exactly for a new valid name while there is room, and is insertion into the map. |
| Directory.RemoveIsDelete | Project 1 - Threads/src/filesys/directory.c:184-216 | Removing succeeds exactly for a name that is there with an inode that can be opened, and is deletion from the map. |
| Directory.AddKeepsUnique | Project 1 - Threads/src/filesys/directory.c:155-175 | No name comes into use twice, whatever stale bytes stay behind a shorter name. |
| Directory.RunIsMapRun | Project 1 - Threads/src/filesys/directory.c:141-216 | Over every sequence of additions and removals names stay unique and the directory is the bounded map. |
| Directory.ListingIsKeys | Project 1 - Threads/src/filesys/directory.c:221-236 | The names in slot order are the keys of the map, each once. |
| Catalog.StepIsBacked | Project 1 - Threads/src/filesys/filesys.c:46-92 | When the root directory's slots stand for the names, `dir_add` and `dir_remove` on them make what create and remove do to the names. |
| Catalog.RunIsBacked | Project 1 - Threads/src/filesys/filesys.c:46-92 | Over every run in which 'directory full' is the truth about the slots, the names are the map of a directory of unchanged size. |
| Catalog.FreshIsBacked | Project 1 - Threads/src/filesys/filesys.c:94-104 | A new disk's names are those of an empty directory. |
| Directory.Dir.Lookup | Project 1 - Threads/src/filesys/directory.c:91-112 | The first slot in use under that name, with its offset, or nothing. |
| Directory.Dir.DirAdd | Project 1 - Threads/src/filesys/directory.c:141-179 | The code over the bytes of the file adds to the map exactly when it should. |
| Directory.Dir.DirRemove | Project 1 - Threads/src/filesys/directory.c:184-216 | The code over the bytes of the file removes from the map exactly when it should. |
| Directory.Dir.DirReadDir | Project 1 - Threads/src/filesys/directory.c:221-236 | The next name in slot order, or nothing at the end. |
| Directory.Dir.ListAll | Project 1 - Threads/src/filesys/directory.c:221-236 | Reading an unmodified directory to its end lists each name exactly once. |
| Format.PutDigits | Project 1 - Threads/src/lib/stdio.c:504-513 | All digits with separators of any 64-bit value in base 8, 10 or 16 fit in 44 places of the buffer. |
| Format.PutZeros | Project 1 - Threads/src/lib/stdio.c:520-524 | Zeros up to the precision and the octal zero never overrun the 64-byte buffer. |
| Format.OutputDup | Project 1 - Threads/src/lib/stdio.c:550-555 | The character as often as asked for, not at all for a negative count. |
| Format.FormatInteger | Project 1 - Threads/src/lib/stdio.c:469-547 | The text appended is pad, sign, prefix, zeros and digits as the conversion says. |
| Spelling.TextSpelled | Project 1 - Threads/src/lib/stdio.c:469-547 | That text, in every base: spaces, sign, prefix, zeros up to the width, zeros up to the precision, digits, spaces, each as many as asked for; it is as long as the larger of the width and its parts. |
| Spelling.DigitsSpellIt | Project 1 - Threads/src/lib/stdio.c:504-513 | The digits are those of the base in the right case, read as the value, do not begin with zero, and have a separator exactly behind every full group from the right. |
| Format.DigitsSpell | Project 1 - Threads/src/lib/stdio.c:506-513 | Decimal digits without separators spell the number. |
| Format.FirstGroup | Project 1 - Threads/src/lib/stdio.c:508-509 | Digits with separators start with at most three digits. |
| Format.NoWrap | Project 1 - Threads/src/lib/stdlib.c:31-38 | Counting downwards never leaves the range of an int when the final value is in it. |
| Format.Atoi | Project 1 - Threads/src/lib/stdlib.c:9-41 | Spaces, a sign and digits up to the first other character, in 32-bit arithmetic. |
| Format.PrintedIsRead | Project 1 - Threads/src/lib/stdio.c:469-547 | `atoi` reads back every int from its decimal text, for every width, precision and set of flags, exactly unless the grouping flag is set and the number has four digits or more. |
| Format.PrintAndRead | Project 1 - Threads/src/lib/stdlib.c:9-41 | The same for the two routines run one after the other. |
| Spelling.AtoiReads | Project 1 - Threads/src/lib/stdlib.c:9-41 | For every text of white space, a sign, digits and whatever comes then, `atoi` gives the number that the digits spell, with the sign, wrapped to 32 bits. |
| Args.WordsUnique | Project 1 - Threads/src/lib/string.c:248-275 | Gaps of delimiters and words in turn: the words of a text are the only way to split it so, its maximal runs without delimiters. |
| Args.WordsSplit | Project 1 - Threads/src/lib/string.c:248-275 | Every text can be split like that. |
| Args.StrChr | Project 1 - Threads/src/lib/string.c:112-126 | The first occurrence of the character; the terminating null counts as one. |
| Args.StrtokR | Project 1 - Threads/src/lib/string.c:234-275 | One call finds the next word, cuts it off with a null in place of the delimiter, and moves the saved position behind it. |
| Args.TokenIsWord | Project 1 - Threads/src/lib/string.c:234-275 | The string returned is the first word, and the text left has exactly the other words. |
| Args.SplitArguments | Project 2 - User programs/src/userprog/process.c:345-352 | argv holds the words of the command line in order, each a string of its own in the overwritten buffer. |
| Args.ManyWords | Project 2 - User programs/src/userprog/process.c:345-352 | The line of 2n bytes that repeats a letter and a space has n words, so 41 of them do not fit argv. |
| Stack.FitsIff | Project 2 - User programs/src/userprog/process.c:567-629 | The image fits the page exactly when 4 bytes a word, 16 more, and the strings rounded up to words do. |
| Stack.LongWord | Project 2 - User programs/src/userprog/process.c:567-629 | A single word of 4080 bytes does not fit. |
| Stack.ImageReads | Project 2 - User programs/src/userprog/process.c:584-623 | Reading return address, argc, argv and the strings from the stack image, words low byte first, gives 0, the number of arguments, and each argument; argv ends with null and the pointer is a multiple of four. |
| Stack.UserStack.PushStrings | Project 2 - User programs/src/userprog/process.c:585-591 | The loop leaves the strings one after the other below PHYS_BASE and notes their addresses. |
| Stack.UserStack.Align | Project 2 - User programs/src/userprog/process.c:594-598 | Zero bytes down to a multiple of four. |
| Stack.UserStack.Fill | Project 2 - User programs/src/userprog/process.c:584-623 | The code leaves exactly the image of the arguments on the stack. |
| Stack.LoadArguments | Project 2 - User programs/src/userprog/process.c:345-352 | Argument loop and stack set-up together: the new program finds the words of the command line, in order. |

## Left out

- Heap.Heap.Realloc: the calls whose copy would run past the new block (Malloc.CopyFitsIff) are excluded.
- Stack.LoadArguments: command lines of more than 40 words, or whose image is larger than the one stack page, are excluded; the source checks neither and writes outside its array or page.
- Args.SplitArguments: at most 40 words, for the same reason.
- Mlfqs.RunBounded: at most 586 runnable threads, and between 546 and 586 a load that runs can reach; beyond that usage can wrap (Mlfqs.WrapsIff).
- Mlfqs.Scheduler.SetNice: the yield to a ready thread of higher priority that may follow is not modelled.
- Directory.Dir.DirAdd: reads and writes of the directory file succeed, and the file is a whole number of entries, as `dir_create` makes it.
- Directory.Dir.DirRemove: the write of the directory file succeeds.
- FileSystem.WriteSplices: denied writes and missing bounce buffers are modelled in Inode, but not as steps of this machine.
- Donation.AcquireDonates: chains without cycles that end at a thread that waits for no lock; a lock that the caller already holds is excluded by the source's assertion.
- Kernel.Started: the scheduler is modelled from the point at which the idle thread sleeps for the first time; the steps before it are not.
- Kernel.Cpu.ThreadCreate: the page is a parameter; running out of pages, the new thread's stack frames and its parent's list of children are not modelled.
- Kernel.Cpu.TimerSleep: the wake-up time is not modelled.
- Kernel.Cpu.TimerInterrupt: which sleepers are due is a parameter; tick counts and wake-up times are not modelled.
- Kernel.Cpu.Unpark: the buffers of the interrupt queues, and the field that remembers the parked thread, are not modelled.
- Sync.Monitors.CondBroadcast: the loop runs here without preemption; Monitor.BroadcastDrains is about every interleaving.
- Palloc.Pages.GetMultiple: filling pages with zeros, and the panic that callers can ask for when pages run out, are not modelled.
- Thread ids, names, parent and child lists, address-space activation and user-process exit status.
- The restoration of priorities in Project 1's `lock_release` and the order of its ready list: the code does not keep them as announced.
- `lock_try_acquire` of Project 1, which donates without waiting.
- `process_wait` and its handshake: its check and its sleep are not one atomic step, so the expected guarantee does not hold.
- The locks around each pool and descriptor: allocator calls are modelled one after the other.
- The list links and arena headers inside memory: they are kept beside the bytes, and shown never to share them with live blocks.
- `calloc` and the sizing of the pools at boot.
- The list of open inodes is a map keyed by sector: its order, which no operation observes, is not modelled.
- In FileSystem the root directory is a map, which Catalog ties to slots, and the free map a bit sequence; the sectors of their own files are only kept out of the way.
- Negative file offsets and lengths, which callers do not pass.
- Elements of a sorted array are values; copying them byte by byte is not modelled.
- Accessed and dirty bits, kernel mappings and TLB flushing in the page tables.
- The parsing of format strings, and conversions other than integers.
- Port I/O, interrupts as hardware, devices apart from how they block threads, the ELF loader, system calls, and the copies of these files in the other projects.
