# Verified models of three operating-systems programs

This Dafny project models the state-keeping cores of three programs and proves what they keep and promise over whole
runs.

* **The virtual memory simulator** (`Project-3`): `MMU` looks in a two-way TLB, then in the page table, then faults;
  a fault picks a victim frame by RANDOM, FIFO, LRU or CLOCK. Page table, inverted table, dirty bits, TLB and LRU list
  have to agree after every access.
* **The thread pool** of the web server (`Project-2`): workers, callers of `thpool_add_work` and callers of
  `thpool_wait` share a linked job queue, a binary semaphore made of a mutex and a condition variable, and two counters.
* **The block file system** (`Project-4`): bitmap allocators, ten direct blocks and one map block a file, a current
  directory kept in memory over directories kept on disk.

Frames, pages, pids, TLB sets, workers, pushers, waiters and jobs are parameters; the file system has its own constants.

## How it is built

For each program, *state functions* say what an operation does to a value of the whole state, with the code's branches,
constants and errors (`VirtualMemory`, `Replacement`, `ThreadPool`, `FileSystem`, parts of `FsRemove` and `FsMount`).
*Classes and methods* do it the way the C code does, on arrays, nodes and fields with loops, and each is proved to leave
the state its function gives (`FrameList`, `Replacer`, `MemoryManager`, `JobQueue`, `Bits`, `FsDisk`). *Lemmas* prove
what the functions promise, against definitions without tables, maps, blocks or frames: a flat store, a list of pages in
order of last use, a cyclic search, a tree of listings and files. The invariants the lemmas assume are met at the start
(`VmRuns.StartedInv`, `PoolInvariant.InitInv`, `FsRuns.FirstMountInv`) and kept by every step.

| part | modules, in order of use |
|---|---|
| common | `Wrappers` |
| lists and paging theory | `Lists`, `PagingTheory`, `PagingCompetitive` |
| virtual memory | `Replacement`, `VirtualMemory`, `VmInvariant`, `TlbSets`, `VmRuns`, `PagingRuns`, `PolicyTheorems`, `VmReference`, `VmTransfers`, `ClockRuns`, `FrameList`, `Replacer`, `MemoryManager` |
| thread pool | `ThreadPool`, `PoolInvariant`, `PoolTheorems`, `PoolTwoWaiters`, `PoolSteps`, `JobQueue` |
| file system | `Bits`, `Codec`, `FileSystem`, `FsInvariant`, `FsContents`, `FsTree`, `FsWrite`, `FsCreate`, `FsRefinement`, `FsDirectories`, `FsWriteReach`, `FsWriteRefinement`, `FsRemove`, `FsRuns`, `FsPromises`, `FsCapacity`, `FsUndo`, `FsMount`, `FsLayout`, `FsFailures`, `FsSteps`, `FsReuse`, `FsDisk` |

`dafny verify dfyconfig.toml` checks everything.

## Main results

* `VmRuns.Transparent`, `VmReference.FindsLastWritten`: for every request string, policy and size, every request in
  bounds is served and finds what was last written to its byte.
* `VmReference.TlbExact`, `VmTransfers.StoresExactly`, `ClockRuns.AskedIsSpared`: which pages the TLB holds, which are
  written back and whom CLOCK spares, over whole runs and told from the requests.
* `PolicyTheorems.LruExact`, `FifoExact`, `LruMoreFrames`, `ConservativeRun`, `CompetitiveRun`: what LRU and FIFO
  promise over whole runs of the simulator, the last against any policy with fewer frames.
* `PoolTheorems.NoJobStranded`, `WaitMeansFinished`, `QuiescentIsDrained` with `InternalRunsEnd`,
  `PoolSteps.EveryJobRunsOnce`: no lost wake-up, no early return from `thpool_wait`, the pool drains and calls every job
  once, in every interleaving of any number of threads.
* `FsRuns.RunFromNewDisk`, `BlocksNeverShared`: from a new disk, every run of create, mkdir, cd, write, read, cat and
  rm answers as a tree of listings and files does, and no two inodes ever share a block, as long as writes and removals
  meet the conditions below.
* `FsWriteReach.WrittenExactly`, `FsPromises.WriteThenRead`, `FsRemove.RemoveExactly`: those conditions, each exact.
* `FsCapacity.CreatesExactly`, `MakesExactly`: creation and mkdir go through exactly when there is room, in numbers.

Where the code does not keep a promise, the exact condition is proved, and an input is given on which it fails:

| promise | holds exactly when | lemma | failing input |
|---|---|---|---|
| the LRU list is never read through a null pointer | fewer than two requests are served, or there are at least two frames and the first two served are for different pages | `PolicyTheorems.LruNullDerefExactly` | one frame, one page read twice: `PolicyTheorems.OneFrameNullDeref` |
| a sleeping `thpool_wait` has something left to be signalled for | there is at most one such caller | `PoolTwoWaiters.WaitIsForOne` | the run of two waiters in its proof |
| `file_create` returning 0 means the file is there | for a small file, the creation checks pass; for a large one, they fail or its second half and map block fit too | `FsPromises.ZeroIsNotSuccess` | `create . 0`: `FsFailures.ZeroWithoutFile` |
| after `file_write` to a file it holds what was written | the range lies in the file's own blocks; and it ends beyond the direct blocks and the bytes were there before, or it ends before the file's blocks do, or it ends with them and the entry after them names no block of the range but such as had the bytes before | `FsPromises.WriteThenRead`, `WriteIsReadBack` | `write v 502 10` inside a one-block file made in a removed file's inode: `FsReuse.NothingWritten`; 60 bytes at 1500 of a file of one block: `FsFailures.WrittenPastTheEnd` |
| `file_write` leaves the blocks of every other file and directory alone | the range ends beyond the direct blocks, or each entry of it past the inode's own blocks that is the last there to name a block of another inode brings that block as it is; for all buffers of a size: no such entry has a byte of the range | `FsPromises.OthersLeftAlone`, `FsWriteReach.OthersKeptForAll` | `create a 1024`, `rm a`, `create a 1`, `create b 1`, `write a 512 1 x`: `FsReuse.ReusedInode` with `WrittenToAnother` |
| `file_write` leaves the listings alone | the range ends beyond the direct blocks, or every directory but the current one whose block it names decodes to the same listing from the last piece written there | `FsPromises.ListingsLeftAlone` | `mkdir d`, `write d 0 1 x`: `FsFailures.DirectoryOverwritten`; `create a 1024`, `rm a`, `create a 1`, `mkdir d`, `write a 512 1 x`: `FsReuse.FileOverListing` |
| `file_remove` takes the file out and leaves a file system | the file is listed last, or at the position that is its inode number (for inode numbers in the table of entries) | `FsRemove.RemoveExactly` | create a, b and c, remove a, remove c: `FsFailures.WrongEntryRemoved` |
| creating and removing a file restores maps and counters | no map block was taken; otherwise that one block is lost | `FsUndo.RemoveUndoesCreate` | the smallest large file: `FsFailures.MapBlockLost` |
| CLOCK misses the pages of a window of at most as many pages as frames at most once each | there is one frame (when there are two more pages than frames) | `ClockRuns.ClockConservativeExactly` | two frames, pages 0, 1, 2, 3, 2: `ClockRuns.TwoPagesOfFour` |
| unmounting and mounting restore the file system | the current directory is the root | `FsMount.MountExactly` | `mkdir d`, `cd d`, exit: `FsFailures.UnmountedElsewhere` |

A short write does what the tree does, the file's old bytes overlaid by the buffer and every other inode's blocks kept,
exactly when no direct entry past the inode's own blocks brings anything out of place (`FsWriteReach.WrittenExactly`).
That is so as long as nothing has been removed, or the range ends inside the inode's blocks
(`FsWriteReach.ContainedIsHome`, and for whole runs `FsRuns.SafeRuns`).

## Model

| member | source | states |
|---|---|---|
| FrameList.RemoveHead | Project-3/list.c:26-35 | the rest of the list, linked both ways; a one-node list becomes empty and the null write is reported, there and only there |
| FrameList.RemoveTail | Project-3/list.c:15-24 | all but the last node, linked both ways; the null write is reported exactly on a one-node list |
| FrameList.Unlink | Project-3/list.c:47-49 | rewiring a middle node's neighbours leaves the other nodes, in order, linked both ways |
| FrameList.RemoveData | Project-3/list.c:37-54 | the first occurrence goes and the others keep their order |
| FrameList.InsertHead | Project-3/list.c:57-68 | the new node first, the old list after it, `next` and `prev` inverse |
| FrameList.InsertTail | Project-3/list.c:71-83 | the old list, the new node last, `next` and `prev` inverse |
| Replacer.Scan | Project-3/replacement.c:58-77 | the first clear flag of the range, its bit set, exactly the bits before it cleared |
| Replacer.Policies.WalkToTail | Project-3/replacement.c:36-42 | walking the head to the last node and back finds the least recent frame and leaves the list as it was |
| Replacer.Policies.Lru | Project-3/replacement.c:29-52 | move to front for flags 1 and 3, the old last frame as victim and new head for flag 2 |
| Replacer.Policies.Fifo | Project-3/replacement.c:20-26 | the hand's frame, and the hand moved on by one |
| Replacer.Policies.Clock | Project-3/replacement.c:55-79 | both loops together do what `Replacement.Clock` does |
| Replacer.Policies.PageReplacement | Project-3/replacement.c:81-90 | the dispatch leaves the chosen policy's new state and gives its victim |
| Replacer.Policies.Reference | Project-3/pagetable.c:37-48 | after a hit or a load the LRU list or the clock flag is updated and nothing else |
| Replacement.ClockIsCyclicSearch | Project-3/replacement.c:55-79 | the two loops find the first clear bit going round from the hand, clear exactly the bits passed, set the victim's |
| Replacement.ClockAllSet | Project-3/replacement.c:68-78 | with all bits set the unchanged hand is returned and all bits are clear |
| Replacement.VictimInRange | Project-3/replacement.c:81-90 | every policy's victim is a frame |
| VmInvariant.AccessKeepsInv | Project-3/pagetable.c:172-213 | page table and inverted table inverse, dirty pages loaded, LRU list a permutation of the loaded frames, TLB entries resident and distinct: kept by every access under every policy |
| VmInvariant.AddressesInjective | Project-3/pagetable.c:172-213 | loaded (page, offset) pairs have the same physical address only when they are the same; low 8 bits kept; inside the memory |
| VmInvariant.LoadedAfter | Project-3/pagetable.c:64-141 | exactly the pages loaded before, less the victim, plus the accessed one, are loaded |
| VmInvariant.InTlbIsLoaded | Project-3/pagetable.c:146-170 | a valid TLB entry names a resident page whose number leaves the set's remainder |
| TlbSets.SetIsLruList | Project-3/pagetable.c:80-92 | each set, a process and a remainder by the number of sets, is with its one pointer bit a list of at most two pages: eviction deletes, access moves to front and cuts to two |
| TlbSets.FillKeepsEntry | Project-3/pagetable.c:133-137 | a fill never drops a valid entry while the other way is free |
| VmRuns.StartedInv | Project-3/pagetable.c:231-257 | the invariant holds after the two init functions |
| VmRuns.Transparent | Project-3/pagetable.c:64-213 | every access of every run sees the value a flat store started from the disk would hold, and -1 past the bounds |
| VmRuns.RunCoherent | Project-3/pagetable.c:95-109 | after any run loaded frames and clean disk copies are current |
| VmReference.Guards | Project-3/pagetable.c:172-185 | a request is answered -1, and changes nothing, exactly when its pid or page number exceeds the bound, whatever the operation; it is defined unless one equals its bound; else its page is loaded when `MMU` returns |
| VmReference.FindsLastWritten | Project-3/pagetable.c:64-213 | after any run a request for any byte a process has is served, and finds what was last written to it or what the disk began with |
| VmReference.ReadYourWrite | Project-3/pagetable.c:95-109 | a write is found by the next read of that byte by that process, whatever is asked for in between |
| VmReference.OtherEntriesStay | Project-3/pagetable.c:80-92 | an access leaves the TLB entry of another page alone unless both are pages of one process and leave the same remainder, or that page is evicted |
| VmReference.TlbExact | Project-3/pagetable.c:146-170 | after any run each TLB set lists, latest first, at most two pages of its process and remainder: those last asked for that are still loaded |
| VmReference.HitsExact | Project-3/pagetable.c:187-212 | a request is counted as a TLB hit exactly when its page is one of these, as a page hit exactly when it is loaded |
| VmReference.LastTwoAsked | Project-3/pagetable.c:53-56 | while no page is evicted they are the last two different pages asked for of that process and remainder |
| VmReference.NoneEvictedAtFirst | Project-3/pagetable.c:112-139 | no page has to go in the first MAX_FRAME requests |
| VmReference.FourthHitsTlb | Project-3/pagetable.c:53-56 | with the sizes of vm.h, pages 0, 1, 3 and 0 of process 0: the last is a TLB hit under every policy |
| VmTransfers.DirtyExactly | Project-3/pagetable.c:31-34 | after any run a page is dirty exactly when it is loaded and has been written to since |
| VmTransfers.StepDirty | Project-3/pagetable.c:95-109 | a page that goes is written to the disk exactly if it is dirty; no other copy on the disk changes |
| VmTransfers.StoresExactly | Project-3/pagetable.c:95-99 | the disk writes counted are exactly the pages that went after being written to in memory |
| VmTransfers.ReadsOnly | Project-3/pagetable.c:95-99 | without a write request nothing is written back and the disk stays as it was |
| VmTransfers.RandomVictim | Project-3/replacement.c:12-16 | RANDOM evicts the page in the frame `rand` leaves as remainder, so any loaded page can go |
| VmTransfers.CachedFrameIs | Project-3/pagetable.c:89-92 | the TLB keeps the frame a page is in, or, for one loaded over another, the frame the page table named before |
| PagingTheory.ByRecencySorted | Project-3/replacement.c:29-52 | the reference order: each page of the trace once, by last use, latest first |
| PagingTheory.LruKeepsMostRecent | Project-3/replacement.c:29-52 | move-to-front lists cut to n hold the n most recently used pages |
| PagingTheory.LruInclusion | Project-3/replacement.c:29-52 | what m frames hold is a prefix of what n >= m frames hold |
| PagingTheory.LruMissesNeverRise | Project-3/replacement.c:29-52 | more frames, no more misses |
| PagingTheory.Conservative | Project-3/replacement.c:20-52 | LRU and FIFO miss each page of a stretch of at most n distinct pages at most once |
| PagingCompetitive.Competitive | Project-3/replacement.c:20-52 | LRU and FIFO with k frames against any demand paging with h <= k frames: (k-h+1) misses <= k (faults + k-h+1) |
| PagingRuns.LruServiced | Project-3/pagetable.c:37-42 | an access moves its page to the front of the LRU list read through the inverted table, and cuts it |
| PagingRuns.FifoServiced | Project-3/pagetable.c:70-140 | a miss pushes its page on the list of latest loads and cuts it; a hit leaves it |
| PolicyTheorems.LruExact | Project-3/pagetable.c:64-141 | after any run the LRU list is the MAX_FRAME most recently used pages, and those are the loaded ones |
| PolicyTheorems.FifoExact | Project-3/pagetable.c:64-141 | after any FIFO run the loaded pages are those of the last MAX_FRAME misses, all different; the misses are as many as counted |
| PolicyTheorems.LruMoreFrames | Project-3/pagetable.c:64-141 | adding frames keeps every loaded page loaded and never adds a miss |
| PolicyTheorems.ConservativeRun | Project-3/pagetable.c:64-141 | a stretch of requests for at most MAX_FRAME pages misses each at most once under LRU and FIFO |
| PolicyTheorems.FifoLoadsInTurn | Project-3/replacement.c:20-26 | miss number m, from 0, is loaded in frame m mod MAX_FRAME |
| PolicyTheorems.RunIsSchedule | Project-3/pagetable.c:64-141 | whatever the policy, a run loads only the page asked for and its misses are those of what it holds |
| PolicyTheorems.CompetitiveRun | Project-3/pagetable.c:172-213 | the competitive bound between two runs of the simulator on the same requests |
| PolicyTheorems.CountersAgree | Project-3/pagetable.c:187-212 | page and TLB counters add up to the requests served; one disk read a miss, at most one write |
| PolicyTheorems.LruNullDerefExactly | Project-3/list.c:15-35 | an LRU run goes through the null pointer exactly when it serves two requests and has one frame or repeats the first page |
| PolicyTheorems.OneFrameNullDeref | Project-3/list.c:26-35 | reading one page twice with one frame goes through it |
| ClockRuns.OnePage | Project-3/pagetable.c:172-213 | under every policy a page asked for again and again is missed at most once and stays loaded |
| ClockRuns.AllSetEvicts | Project-3/replacement.c:68-78 | with all bits set the hand's page goes and the new one is left under the hand with a clear bit |
| ClockRuns.ThreeMisses | Project-3/replacement.c:55-79 | then two new pages, the first, the second, the first again, miss three times, for any two frames or more |
| ClockRuns.ClockConservativeExactly | Project-3/replacement.c:55-79 | CLOCK misses the pages of every window that fits the frames at most once each, in every run, if and only if there is one frame |
| ClockRuns.TwoPagesOfFour | Project-3/replacement.c:55-79 | two frames and the pages 0, 1, 2, 3, 2: it does not |
| ClockRuns.HitSetsBit | Project-3/pagetable.c:45-48 | a request for a loaded page sets the bit of its frame; every other bit, the hand and the frames' pages stay |
| ClockRuns.FreeLoadSetsBit | Project-3/pagetable.c:121-124 | a page that goes to a free frame is loaded with its bit set; every other bit and the hand stay |
| ClockRuns.FirstClearGoes | Project-3/replacement.c:55-79 | a fault evicts the page of the first frame from the hand on whose bit is clear; the bits passed are cleared, its own is set, the others stay |
| ClockRuns.HitsSetBits | Project-3/pagetable.c:161-165 | after requests for loaded pages only, a bit is set exactly if it was or its frame's page was asked for |
| ClockRuns.BitSpares | Project-3/replacement.c:55-79 | a page whose bit is set goes only when every bit is |
| ClockRuns.AskedIsSpared | Project-3/replacement.c:55-79 | a page asked for since the last fault is not the next to go, unless every bit is set |
| ClockRuns.TwoMisses | Project-3/replacement.c:55-79 | with all bits set: two new pages, the first twice, the second, the first again, miss twice, for any two frames or more |
| ClockRuns.TwiceOfFour | Project-3/pagetable.c:45-48 | two frames and the pages 0, 1, 2, 2, 3, 2: the last is a hit |
| MemoryManager.Mmu.constructor | Project-3/pagetable.c:6-20 | the program's statics, then the two init functions: the starting state of every run |
| MemoryManager.PtInit | Project-3/pagetable.c:231-246 | both loops leave every entry invalid and otherwise as it was |
| MemoryManager.TlbInit | Project-3/pagetable.c:247-257 | both loops leave every way of every set invalid |
| MemoryManager.Mmu.IsTlbHit | Project-3/pagetable.c:146-170 | on a hit the page table's frame, with `tlbset_ptr`, dirty bit, LRU head or CLOCK bit updated; on a miss -1 and nothing changed |
| MemoryManager.Mmu.IsPageHit | Project-3/pagetable.c:24-62 | on a hit the frame, with the page put in the TLB, dirty bit, LRU head or CLOCK bit updated; else -1 and nothing changed |
| MemoryManager.Mmu.FillTlb | Project-3/pagetable.c:53-56 | the way `tlbset_ptr` does not select takes the page and becomes the selected one |
| MemoryManager.Mmu.DropFromTlb | Project-3/pagetable.c:80-87 | the loop over both ways takes the victim out of its set |
| MemoryManager.Mmu.ChooseVictim | Project-3/pagetable.c:72-76 | the victim is a frame, and the policy's state is the one after choosing it |
| MemoryManager.Mmu.WriteBack | Project-3/pagetable.c:94-99 | the victim becomes invalid and clean, and its frame's contents go to the disk exactly if it was dirty |
| MemoryManager.Mmu.ExchangeInTlb | Project-3/pagetable.c:80-92 | the victim leaves the TLB and the page enters it with the frame number the page table had before the load |
| MemoryManager.Mmu.LoadFrame | Project-3/pagetable.c:101-109 | both tables name each other, the frame holds the disk's copy, dirty exactly for a write |
| MemoryManager.Mmu.LoadFreeFrame | Project-3/pagetable.c:112-139 | the next unused frame is loaded and the policy told |
| MemoryManager.Mmu.EvictAndLoad | Project-3/pagetable.c:70-111 | the whole full-memory branch is the fault of the state functions |
| MemoryManager.Mmu.PagefaultHandler | Project-3/pagetable.c:64-141 | both branches, tables and TLB, and the frame returned is the page's |
| MemoryManager.Mmu.Translate | Project-3/pagetable.c:172-213 | the physical address, both hit flags and the new state of one call; a call whose pid or page number exceeds its bound, and no other, gives -1 and changes nothing |
| PoolInvariant.InitInv | Project-2/webserver_part2.c:269-318 | the invariant holds when the threads have been created |
| PoolInvariant.WorkerHistory | Project-2/webserver_part2.c:586-612 | a worker's step keeps pulled plus queued, and finishes a job only if it is the one it runs |
| PoolInvariant.WorkerShares | Project-2/webserver_part2.c:488-508 | the counters and the queue's mutex move exactly with the worker's stage |
| PoolInvariant.StepKeepsInv | Project-2/webserver_part2.c:450-517 | jobs, counters, mutexes, wake-ups and waiters: kept by every step of every thread |
| PoolInvariant.RunKeepsInv | Project-2/webserver_part2.c:450-517 | and so by every run |
| PoolTheorems.JobsConserved | Project-2/webserver_part2.c:559-612 | pushed is pulled followed by queued; a pulled job is finished or with exactly one worker, never both |
| PoolTheorems.RunAtMostOnce | Project-2/webserver_part2.c:496-501 | the step that finishes a job finds it unfinished, and nothing unfinishes it |
| PoolTheorems.CountersExact | Project-2/webserver_part2.c:478-514 | the two counters count the workers at the stages they stand for; both mutexes exclude |
| PoolTheorems.NoJobStranded | Project-2/webserver_part2.c:559-612 | outside the queue lock a queued job has a posted semaphore or a worker on its way; a posted semaphore with sleepers has a signalled worker |
| PoolTheorems.HolderHolds | Project-2/webserver_part2.c:576-579 | whoever owes a post holds the queue's mutex |
| PoolTheorems.WaitMeansFinished | Project-2/webserver_part2.c:341-347 | whatever step of whatever thread lets a caller go, every job pushed before its call has finished and no worker has one |
| PoolTheorems.ReturnsBy | Project-2/webserver_part2.c:343-346 | of all steps only the caller's reading of num_threads_working lets it go, and that exactly when it is 0 |
| PoolTheorems.SeesEmptyBy | Project-2/webserver_part2.c:343 | a caller passes the first half of the test by reading an empty queue, and only so |
| PoolTheorems.SawEmpty | Project-2/webserver_part2.c:341-347 | a caller about to read num_threads_working has read an empty queue at some step of the run and held thcount_lock since |
| PoolTheorems.SinceIsFixed | Project-2/webserver_part2.c:341-347 | what a waiter is held to is the pushes before its call, unchanged until it returns |
| PoolTheorems.StepCost | Project-2/webserver_part2.c:482-511 | a measure over queue, semaphore and stages falls with every step but pushes, waits, spurious wake-ups and shutdown |
| PoolTheorems.InternalRunsEnd | Project-2/webserver_part2.c:482-511 | so runs of such steps are no longer than the measure |
| PoolTheorems.QuiescentIsDrained | Project-2/webserver_part2.c:586-612 | with no such step left the queue is empty, every pushed job finished, and a single waiter has returned |
| PoolTheorems.Drains | Project-2/webserver_part2.c:482-511 | from every state of every run some run of such steps finishes every pushed job |
| PoolTheorems.AllGone | Project-2/webserver_part2.c:355-386 | once no started worker is alive nobody has a job: what was pulled has finished, the rest is still queued |
| PoolTheorems.EachBroadcastReleases | Project-2/webserver_part2.c:360-375 | each broadcast of the destroy loops, left to take its course, lets at least one more worker go |
| PoolTwoWaiters.WaitIsForOne | Project-2/webserver_part2.c:504-507 | a sleeping waiter always has something to be signalled for if and only if there is at most one |
| PoolSteps.HeldBySomeone | Project-2/webserver_part2.c:559-612 | in every reachable state a mutex is locked exactly while some thread stands between its lock and its unlock |
| PoolSteps.WorkerGoesOn | Project-2/webserver_part2.c:478-517 | a worker can take a step unless it has gone, sleeps, or wants a mutex another thread holds |
| PoolSteps.PusherGoesOn | Project-2/webserver_part2.c:559-580 | a push of any job can begin whenever nobody holds the queue, however long it is; what has begun can go on |
| PoolSteps.WaiterGoesOn | Project-2/webserver_part2.c:341-347 | a caller of `thpool_wait` can go on unless it sleeps or another thread holds the counters |
| PoolSteps.AnySleeper | Project-2/webserver_part2.c:640-645 | a post wakes one sleeping worker, any of them, and nobody else |
| PoolSteps.AnyWaiter | Project-2/webserver_part2.c:503-508 | the worker that leaves nobody working wakes one sleeping caller, any of them; no other step of a worker wakes one |
| PoolSteps.WorkerMoves | Project-2/webserver_part2.c:482-517 | a worker moves along the loop by its own steps only, each from the one stage before it: through the semaphore when it is 1, to the queue while the pool is alive, out when it is not |
| PoolSteps.PusherMoves | Project-2/webserver_part2.c:559-580 | the three steps of a push follow one another, by the pusher alone |
| PoolSteps.WaiterMoves | Project-2/webserver_part2.c:341-347 | a caller goes back to sleep exactly on a queued job or a counted worker, and on after a wake-up from the lock |
| PoolSteps.RunHistory | Project-2/webserver_part2.c:482-511 | after any run the jobs in the history are those of the pushes, in order; the finished are those called, each once; the pool is alive until it is shut down |
| PoolSteps.EveryJobRunsOnce | Project-2/webserver_part2.c:482-511 | each job pushed is called at most once, and, left to take its course, once |
| PoolSteps.OnePassAPost | Project-2/webserver_part2.c:640-664 | in every run workers pass `bsem_wait` no more often than the semaphore is posted |
| JobQueue.Queue.constructor | Project-2/webserver_part2.c:527-541 | an empty queue and a semaphore at 0 |
| JobQueue.Queue.Push | Project-2/webserver_part2.c:559-580 | the linked nodes are the old ones with the new one last; posted |
| JobQueue.Queue.Pull | Project-2/webserver_part2.c:586-612 | the first node, the rest left in order; posted again exactly when more are left |
| JobQueue.Queue.Clear | Project-2/webserver_part2.c:545-556 | every queued job is freed, in order, and the queue is empty |
| Bits.XorFlips | Project-4/fs_util.c:20-23 | xor with a shifted 1 flips one bit of a byte and no other |
| Bits.ToggleBit | Project-4/fs_util.c:20-23 | the map with one bit flipped |
| Bits.GetBit | Project-4/fs_util.c:25-28 | the bit of the map, as 0 or 1 |
| Bits.SetBit | Project-4/fs_util.c:30-36 | the bit has the value asked for, other bits as before; other values change nothing |
| Bits.GetFree | Project-4/fs_util.c:38-81 | the lowest free index, and only its bit changed; -1 and nothing changed when there is none |
| Bits.Release | Project-4/fs_util.c:54-93 | a used index becomes free; a free one stays free and is refused |
| Bits.CountFreeUpdate | Project-4/fs_util.c:42-50 | the count of zero bits moves by one with one bit |
| Bits.FreeExists | Project-4/fs_util.c:67-81 | the search finds an index exactly when the count is not 0 |
| Codec.DecEnc | Project-4/fs.h:34-41 | a four-byte integer is read back as written |
| Codec.WordsRoundTrip | Project-4/fs.h:49-51 | so is a table of integers, such as the block map |
| Codec.DirRoundTrip | Project-4/fs.h:34-43 | so is a directory of up to 25 names and inode numbers |
| FileSystem.TakeBlock | Project-4/fs_util.c:67-81 | the lowest free block, with map and counter still agreeing |
| FileSystem.Grab | Project-4/fs.c:226-236 | n fresh distinct blocks, each holding its piece of the data, all others untouched, counter exact |
| FileSystem.SplitInRange | Project-4/fs.c:115-131 | the split gives at most 10 direct and 128 map blocks, and the blocks hold the data |
| FileSystem.BlockCountIs | Project-4/fs.c:139-193 | data blocks are ceil(S/512) below 5120 bytes and floor(S/512)+1 from there on; the small helper gets at most 5119 bytes |
| FsInvariant.SameInode | Project-4/fs.h:21-32 | an inode's blocks and contents depend only on the blocks it owns |
| FsInvariant.ExtendSound | Project-4/fs.c:177-238 | taking free blocks for one inode keeps ownership exclusive everywhere |
| FsInvariant.RewriteKeeps | Project-4/fs.c:420-476 | rewriting one inode's data blocks leaves every other inode's contents |
| FsInvariant.RewriteSound | Project-4/fs.c:420-476 | and keeps ownership exclusive |
| FsContents.TouchedAreData | Project-4/fs.c:338-400 | the blocks a request touches are the file's own as far as the file goes |
| FsContents.ReadShowsContent | Project-4/fs.c:323-415 | `file_read` gives as many bytes as asked for, and those inside the file's blocks are the file's, across the direct and map blocks |
| FsContents.ReadNamed | Project-4/fs.c:338-400 | each byte printed is the one in the block the inode names for its position, in use or not |
| FsContents.GatherBad | Project-4/disk.c:6-15 | a bad block number shows what the block before it brought, or what the buffer first held |
| FsContents.CatIsContent | Project-4/fs.c:243-318 | `file_cat` reads exactly the file's blocks, whichever branch the size sends it to |
| FsContents.WriteBackUnchanged | Project-4/fs.c:513-520 | writing back what was read changes nothing, bad and repeated block numbers included |
| FsWrite.WrittenLast | Project-4/fs.c:446-467 | after a short write a block holds the piece of the last entry in the range that names it |
| FsWrite.WrittenElse | Project-4/fs.c:446-467 | and a block no entry in the range names is left alone |
| FsWrite.OverlaidExactly | Project-4/fs.c:420-476 | the file becomes its old bytes overlaid by the buffer if and only if stray entries that name its own blocks bring what belongs there |
| FsWrite.HeldExactly | Project-4/fs.c:420-476 | the file holds the buffer in its range if and only if the range lies in its blocks and ends before them, or the entry after them names none of its blocks in the range but such as had the bytes |
| FsWriteReach.OthersKeptExactly | Project-4/fs.c:446-467 | every block of every other inode is kept if and only if each stray entry that reaches one, last in the range, brings it as it is |
| FsWriteReach.OthersKeptForAll | Project-4/fs.c:446-467 | whatever the buffer of that size, if and only if no such entry has a byte of the range in its block |
| FsWriteReach.ListingsKeptExactly | Project-4/fs.c:446-467 | all listings but the current one read the same if and only if they do so from the last piece written to their blocks |
| FsWriteReach.WrittenExactly | Project-4/fs.c:420-476 | a short write makes the file its old bytes overlaid by the buffer and keeps the others' blocks if and only if no stray entry brings anything out of place |
| FsWriteReach.ContainedIsHome | Project-4/fs.c:446-467 | nothing is out of place if the range ends inside the inode's blocks or the entries past them are 0 |
| FsWriteReach.DirectWrite | Project-4/fs.c:420-476 | and then ownership stays exclusive |
| FsWrite.LongWrite | Project-4/fs.c:478-536 | the helper for longer ranges reports success and leaves the disk as it was |
| FsCreate.SmallEffect | Project-4/fs.c:177-238 | the lowest free inode holds the data in blocks that were free, listed last; nothing else changed |
| FsCreate.LargeEffect | Project-4/fs.c:139-175 | the file goes on through fresh blocks named by a fresh map block; nothing else changed |
| FsCreate.MapLeftOver | Project-4/fs.c:154-173 | past the file's own blocks its map block names what the map buffer named before |
| FsTree.ThereAndBack | Project-4/fs.c:765-786 | cd to a child and cd ".." give the same directory and tree |
| FsTree.CreateKeepsTree | Project-4/fs.c:177-238 | a creation keeps every listing well formed |
| FsTree.MakeKeepsTree | Project-4/fs.c:633-712 | mkdir keeps entry 0 the directory itself and entry 1 its parent |
| FsTree.RemoveKeepsTree | Project-4/fs.c:566-628 | taking a file out, the last entry coming to its place, leaves no entry for it and every listing well formed |
| FsTree.FindInTree | Project-4/fs.c:97-107 | a name found leads to an inode that exists |
| FsRefinement.CreateRefines | Project-4/fs.c:113-238 | create on blocks is create on the tree, where a listing takes 24 entries: code, listing, file, free count; every branch and size |
| FsDirectories.MakeRefines | Project-4/fs.c:633-712 | mkdir on blocks is mkdir on the tree, where a listing takes 24 entries |
| FsDirectories.SavedIsSame | Project-4/fs.c:767-769 | writing the current listing back makes disk and memory agree and changes nothing visible |
| FsDirectories.ChangeRefines | Project-4/fs.c:765-786 | cd on blocks is cd on the tree, failing calls included |
| FsDirectories.ChangeSaves | Project-4/fs.c:767-786 | cd, failing or not, first makes the disk agree with memory, and changes no other block |
| FsWriteRefinement.WriteRefines | Project-4/fs.c:420-536 | a proper write on blocks is write on the tree: to files and directories, with a wrong size, past the end, and long |
| FsWriteRefinement.WritableIsProper | Project-4/fs.c:420-536 | a write is proper if nothing has been removed or it ends inside, and it does not go over another directory's listing |
| FsWriteRefinement.DirectoryWrite | Project-4/fs.c:420-476 | a short write to a directory's name succeeds, decodes as the overlaid block, and leaves the tree as it was if and only if the directory is the current one or the block still says the same |
| FsRuns.ReadRefines | Project-4/fs.c:323-415 | read on blocks prints the part of the range that lies in the tree's file, in full when all of it does, or fails |
| FsRuns.ReadInside | Project-4/fs.c:323-415 | for a range inside the file, exactly that slice |
| FsRuns.CatRefines | Project-4/fs.c:243-318 | cat on blocks is the tree's file, or the failure |
| FsRuns.FirstMountInv | Project-4/fs.c:40-74 | a new disk is a root that holds itself, and meets the invariant |
| FsRuns.StepRefines | Project-4/fs.c:812-878 | one command: invariant kept, same reply, same tree |
| FsRuns.StepTidy | Project-4/fs.c:139-238 | until a removal no inode names a block that is not its own, by any command |
| FsRuns.SafeRuns | Project-4/fs.c:812-878 | from the tree alone one can tell that a run is possible, if writes after a removal end inside what they write to |
| FsRuns.RunFromNewDisk | Project-4/fs.c:812-878 | any run from a new disk, removals included, gives the replies and the tree the abstract run gives |
| FsRuns.BlocksNeverShared | Project-4/fs.c:139-238 | after any run blocks of inodes are distinct, exclusive, marked used and not metadata; both counters exact |
| FsPromises.CreatedExactly | Project-4/fs.c:113-238 | after `file_create` the new file is there whole if and only if name, directory, inodes and blocks allow it, with one block more for a large file |
| FsPromises.ZeroIsNotSuccess | Project-4/fs.c:125-136 | of `file_create` itself: exactly when a return of 0 means that |
| FsCapacity.EntriesFit | Project-4/fs.h:34-43 | 25 entries of 20 bytes fit a 512-byte block after the count, and no more; a listing counts as full from 24 on |
| FsCapacity.NewName | Project-4/fs.c:97-107 | the search fails exactly when no entry has the name |
| FsCapacity.CreatesExactly | Project-4/fs.c:113-238 | below 70656 bytes the whole file is there if and only if no entry has the name, the listing has fewer than 24, an inode is free, and so are ceil(S/512) blocks, or floor(S/512)+2 from 5120 bytes on |
| FsCapacity.TooLong | Project-4/fs.c:115-119 | from 70656 bytes on -1, and nothing changes |
| FsCapacity.MakesExactly | Project-4/fs.c:633-712 | mkdir answers 0 if and only if no entry has the name, the listing has fewer than 24, and an inode and a block are free; the new listing, its parent's and its inode; else nothing changes |
| FsCapacity.RangesFit | Project-4/fs.c:338-344 | in bytes: the ends of a range, when it is short, and when the code stays in its tables |
| FsCapacity.AskedIs | Project-4/fs.c:812-878 | what each command needs of its caller, in bytes and entries |
| FsCapacity.NewDiskRoom | Project-4/fs.c:40-74 | 4096 blocks, 3964 of them free; 512 inodes, 511 free; a root that lists "." |
| FsPromises.CreateThenRead | Project-4/fs.c:113-415 | after a creation read gives every slice of the data and cat the data |
| FsPromises.WriteThenRead | Project-4/fs.c:420-536 | of `file_write` itself, in every state: the file holds the buffer in its range if and only if the range lies in its blocks, and ends beyond the direct ones and was there before, or before its blocks end, or the entry after them names none of the range but what had the bytes |
| FsPromises.WriteIsReadBack | Project-4/fs.c:323-536 | inside the file, `file_read` gives back what `file_write` was given under the same condition |
| FsPromises.ReadBackExactly | Project-4/fs.c:323-476 | any range that ends in the direct blocks, in the file or past it, is read back if and only if each of its bytes is what the last piece written to its block has there |
| FsPromises.OthersLeftAlone | Project-4/fs.c:420-536 | of `file_write` itself: others' blocks are kept if and only if it is long or each stray entry that reaches one brings it as it is |
| FsPromises.ListingsLeftAlone | Project-4/fs.c:420-536 | of `file_write` itself: the listings are kept if and only if it is long or they read the same from the last pieces |
| FsPromises.WriteKeepsTheRest | Project-4/fs.c:420-536 | a proper write leaves the other bytes, files and listings as they were |
| FsPromises.ReadsWhatIsNamed | Project-4/fs.c:323-415 | of `file_read` itself: byte by byte, the block the inode names, past the file's blocks as well |
| FsPromises.PastIsBlockZero | Project-4/fs.c:323-376 | until a removal a short range shows disk block 0 past the file's blocks |
| FsPromises.CdAndBack | Project-4/fs.c:765-786 | cd to a child and cd "..", on the disk, restore the listing in memory and change no listing or file |
| FsRemove.ReleaseBlock | Project-4/fs_util.c:83-93 | the block is free afterwards, refused if it was, counter exact |
| FsRemove.ReleaseDistinct | Project-4/fs.c:599-614 | distinct used blocks are all freed and no other |
| FsRemove.RemoveEffect | Project-4/fs.c:566-614 | removing any file frees the inode and its data blocks, not the map block, and moves the last entry to the position of the inode number |
| FsRemove.FreedInode | Project-4/fs.c:617-624 | of all inodes only the freed one changes, in its size alone, unless it is listed last |
| FsRemove.EntryLost | Project-4/fs.c:616-625 | which entry the listing loses, the last one taking its place |
| FsRemove.RemoveRefused | Project-4/fs.c:566-592 | -1 and nothing changed for a missing name, a directory or a free inode |
| FsRemove.ReleaseStops | Project-4/fs.c:599-614 | the freeing loops stop at the first block that is free already |
| FsRemove.RemoveStops | Project-4/fs.c:599-614 | then -1, with the inode and the blocks before that one freed and the entry still there |
| FsRemove.PlaceIs | Project-4/fs.c:616-625 | the code's move takes the file's entry out if it is last or at the inode's number, and leaves it otherwise |
| FsRemove.RemoveExactly | Project-4/fs.c:566-628 | removal answers 0 for every file, and the invariant holds afterwards if and only if the file is listed last or at the position that is its inode number |
| FsRemove.RemoveRefines | Project-4/fs.c:566-628 | for such a file, a directory or a missing name, removal on blocks is removal on the tree |
| FsUndo.RemoveUndoesCreate | Project-4/fs.c:566-614 | create then remove restores listing, inode map and counter always, block map and counter exactly when no map block was taken, else all but that block |
| FsMount.UnpackedPack | Project-4/fs.c:82-84 | a bitmap is read back as written |
| FsMount.InodeRoundTrip | Project-4/fs.h:21-32 | so is an inode of 128 bytes |
| FsMount.InodeComesBack | Project-4/fs.c:30-35 | so is the inode table, four to a block |
| FsMount.MountFromRoot | Project-4/fs.c:78-95 | from the root, unmount and mount give back every listing, file, map and counter |
| FsMount.MountFromElsewhere | Project-4/fs.c:91-92 | from elsewhere the root's listing is the other directory's and the tree is broken |
| FsMount.MountExactly | Project-4/fs.c:20-95 | unmount and mount restore the tree if and only if the current directory is the root |
| FsMount.MountAfterRun | Project-4/fs.c:20-95 | and this after every run from a new disk |
| FsLayout.WordLayout | Project-4/fs.h:15-20 | an integer's four bytes, low byte first |
| FsLayout.DirLayout | Project-4/fs.h:34-43 | where a directory's block has its count, its names and its inode numbers |
| FsLayout.InodeLayout | Project-4/fs.h:21-32 | where an inode's 128 bytes have type, size, block count, direct blocks and map block |
| FsLayout.MapsLayout | Project-4/fs.c:82-84 | after unmounting: both counters in block 0, the maps bit by bit in blocks 1 and 2 |
| FsLayout.BlocksLayout | Project-4/fs.c:85-92 | inode k in block 3 + k/4, the current listing in the root's block, all other data blocks as they were |
| FsLayout.MountLayout | Project-4/fs.c:25-38 | what mounting any disk reads, and from where |
| FsFailures.ZeroWithoutFile | Project-4/fs.c:131-136 | creating "." on a new disk returns 0 and changes nothing |
| FsFailures.NewDiskIsEmpty | Project-4/fs.c:40-74 | a new disk is an empty file system, as the inputs below begin with |
| FsFailures.PastTheBlocks | Project-4/fs.c:420-476 | 60 equal bytes at 1500 of a file of at most two blocks: success, and not read back unless block 0 held that byte at 476 |
| FsFailures.WrittenPastTheEnd | Project-4/fs.c:420-476 | and so for a file of one block just created |
| FsFailures.ListingLost | Project-4/fs.c:420-476 | one byte above 25 written to the start of any other directory: success, the listing is gone and the invariant fails |
| FsFailures.DirectoryOverwritten | Project-4/fs.c:420-476 | and so after mkdir on a new disk |
| FsFailures.MapBlockLost | Project-4/fs.c:566-614 | creating and removing a file of SMALL_FILE bytes on a new disk loses a block |
| FsFailures.WrongEntryRemoved | Project-4/fs.c:616-625 | after creating three files and removing the first, removing the third leaves its entry and drops the second's |
| FsFailures.UnmountedElsewhere | Project-4/fs.c:91-92 | mkdir, cd, unmount, mount: the invariant fails |
| FsSteps.CreateStep | Project-4/fs.c:177-238 | a creation with its inode and block numbers: the lowest free ones, in order |
| FsSteps.RemoveStep | Project-4/fs.c:566-628 | removing the last entry gives exactly those back and leaves the inode table as it is |
| FsReuse.ReusedInode | Project-4/fs.c:226-236 | create, remove, create, create on a new disk: a file names a block past its own, and it is the next file's |
| FsReuse.WrittenToAnother | Project-4/fs.c:446-467 | in such a state a write to the one file changes the first byte of the other |
| FsReuse.ReadFromAnother | Project-4/fs.c:338-376 | and a read of the one prints what the other begins with |
| FsReuse.WrittenToListing | Project-4/fs.c:446-467 | where the block is a directory's, a byte above 25 empties its listing and the invariant fails |
| FsReuse.FileOverListing | Project-4/fs.c:446-467 | a run on a new disk that gets there |
| FsReuse.WrittenInVain | Project-4/fs.c:446-467 | where the entry after a one-block file names that block, ten bytes at its end are answered with success and not written |
| FsReuse.NothingWritten | Project-4/fs.c:446-467 | a run on a new disk that gets there |
| FsMount.ReadTable | Project-4/fs.c:30-35 | the loop fills the inode table from its blocks |
| FsDisk.FileSys.constructor | Project-4/fs.c:40-74 | the loops and assignments of mounting a new disk leave the new-disk state |
| FsDisk.FileSys.Mount | Project-4/fs.c:25-38 | reading superblock, maps and table of any disk leaves the mounted state |
| FsDisk.FileSys.FsUmount | Project-4/fs.c:78-95 | the writes of unmounting leave the unmounted disk |
| FsDisk.FileSys.GetFreeInode | Project-4/fs_util.c:38-51 | lowest free inode taken and counted, or -1 and nothing changed |
| FsDisk.FileSys.FreeInode | Project-4/fs_util.c:54-65 | used becomes free and is counted; free is refused |
| FsDisk.FileSys.GetFreeBlock | Project-4/fs_util.c:67-81 | lowest free block taken and counted, or -1 and nothing changed |
| FsDisk.FileSys.FreeBlock | Project-4/fs_util.c:83-93 | used becomes free and is counted; free is refused |
| FsDisk.FileSys.DiskRead | Project-4/disk.c:6-15 | the block, or the buffer unchanged for a bad number |
| FsDisk.FileSys.DiskWrite | Project-4/disk.c:17-26 | that block written, nothing for a bad number |
| FsDisk.FileSys.SearchCurDir | Project-4/fs.c:97-107 | the inode of the first entry of that name, or -1 |
| FsDisk.FileSys.FileCreateSmallHelper | Project-4/fs.c:177-238 | the checks in their order and the allocation loop leave the state of `FileSystem.CreateSmall` |
| FsDisk.FileSys.FileCreateLargeHelper | Project-4/fs.c:139-175 | the map block first, then the data loop, leave the state of `FileSystem.CreateLarge` |
| FsDisk.FileSys.FileCreate | Project-4/fs.c:113-137 | both halves and the returned code |
| FsDisk.FileSys.FileCat | Project-4/fs.c:243-281 | the bytes printed |
| FsDisk.FileSys.FileCatHelper | Project-4/fs.c:284-318 | both loops print the direct and then the map blocks |
| FsDisk.FileSys.FileRead | Project-4/fs.c:323-415 | the bytes printed, long ranges included |
| FsDisk.FileSys.FileWrite | Project-4/fs.c:420-476 | the outcome and the new disk |
| FsDisk.FileSys.FileWriteHelper | Project-4/fs.c:478-536 | the blocks read are written back before the buffer is laid over the copy |
| FsDisk.FileSys.DirMake | Project-4/fs.c:633-712 | the checks in their order and the new directory |
| FsDisk.FileSys.DirChange | Project-4/fs.c:765-786 | the write-back before the lookup, and the load, whatever the target's block holds |
| FsDisk.FileSys.FileRemove | Project-4/fs.c:566-628 | both freeing loops, stopping at the first failure, and the listing with its last entry moved to the inode's number |

The state functions the methods are proved against, and the thread pool's steps (`ThreadPool.WorkerStep`,
`ThreadPool.Apply`, `ThreadPool.Enabled`), have no row of their own: they are what the rows above speak of.

## Where the model decides

* Removing from a one-node list writes through a null pointer (`Project-3/list.c:22`, `Project-3/list.c:32`). The model
  gives the intended empty list and records the fault.
* The guards of `MMU` let a page or pid equal to its bound through (`Project-3/pagetable.c:178`, `182`). Such requests
  index past a table and are not defined here; larger ones are answered -1, as written.
* `random` reduces by `MAX_PAGE` (`Project-3/replacement.c:14`); with sizes as parameters it is any frame.
* On a full memory the TLB stores the page's frame number from before the load. It is modelled as written; no hit
  reads it.
* A critical section of the semaphore's mutex is one step; sections of the queue's and the counters' mutexes are
  several, because the code reads their data from outside. `pthread_cond_wait` may wake spuriously.
* `file_create` hands a large file to two helpers and looks at the result of the first only; sizes from LARGE_FILE on
  are refused. The data is whatever the memory holds; memory past the data may be read, as in the code.
* A directory block whose count is above 25 is taken to hold no entries; the code would read past the table. A mounted
  disk with a bad number for the root's block leaves the listing empty.
* Bytes after a name's terminator, unused directory slots, inode padding and what follows the 64-byte inode map in
  memory are taken to be 0.

## Left out

- Random file contents, timestamps, owners, groups, printing, command parsing and process start-up of all three
  programs.
- Sockets, HTTP replies, MIME types and directory pages of the web server; `thpool_pause`, `thpool_resume`, signals and
  the clock of `thpool_destroy`, of which only the broadcasts are modelled.
- C integer overflow of counters and sizes, negative arguments, allocation failure and memory deallocation.
- Names of 16 characters and more, and names that contain a zero byte.
- `dir_remove`, which frees the inode and the block of a directory, empty or not, and leaves what was in it.
- Reads and writes that start beyond block 10 or reach past the map's 128 entries: the code leaves its buffers.
- FsWriteReach.DirectWrite: under the condition of `FsWriteReach.WrittenExactly`; metadata blocks are not spoken of.
- FsWriteRefinement.WriteRefines: for proper writes; the others do not do what the tree does (`WrittenExactly`), or
  change a listing (`DirectoryWrite`).
- FsWriteRefinement.DirectoryWrite: with every stray entry in place; `FsWriteReach.ListingsKeptExactly` has no such
  condition.
- FsRuns.ReadRefines: which bytes are printed past the file's blocks is in `FsPromises.ReadsWhatIsNamed`.
- FsPromises.ReadsWhatIsNamed: not for a word of the map that is no block number, where the buffer is printed as it was.
- FsRuns.StepRefines: not for writes that are not proper, nor for removals after which there is no file system
  (`FsRemove.RemoveExactly`).
- FsRuns.RunFromNewDisk: runs without the commands that `FsRuns.StepRefines` leaves out.
- FsRuns.BlocksNeverShared: the same runs; a listing with wrong entries can name inodes that are free.
- FsMount.MountAfterRun: the same runs.
- FsRemove.RemoveEffect: for inode numbers below 25, or the last entry; beyond that the code writes past its table.
- FsRemove.RemoveExactly: for inode numbers below 25, or the last entry, as `FsRemove.RemoveEffect`.
- FsRemove.RemoveRefines: not for files whose removal leaves a wrong listing.
- FsDisk.FileSys.FileRemove: as `FsRemove.RemoveEffect`, with block numbers that are on the disk.
- FsMount.InodeRoundTrip: owner, group and times are written as 0 and are not part of the model.
- FsDisk.FileSys.FileRead: block buffers obtained from malloc are sequences, and file data is a sequence, so aliasing
  among buffers is not modelled.
- PoolTheorems.AllGone: the unsynchronised polling of `num_threads_alive` and the frees after it are not modelled.
- The competitive bounds are claimed for LRU and FIFO only; RANDOM has no bound on windows.
