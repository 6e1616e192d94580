# A verified model of the memory, CPU and kernel modules

The repository simulates an operating system as separate modules: a kernel that schedules
processes, CPUs that execute them, a memory module with paging and swap, and IO devices, all
talking over length-prefixed messages. This project models the parts of it that have to agree
with each other and proves that they do.

**Memory and CPU.**

- `PageTables`: the N-level page table as linked tables, built recursively with preorder ids,
  filled by a breadth-first pass over its last level, searched by id, and walked with the
  digits of the page number. Snapshots of the tables' entries carry the proofs; `Contents` is
  the flat list of frame numbers a table stands for.
- `FrameAllocator`: the frame bitmap with its free counter, used for user space and for swap.
- `Bytes`, `Store`, `StoreRuns`, `Memoria`: the byte array, the swap file, the process list
  and the operations create, destroy, suspend, resume and write. `Store` gives each operation
  as a function on values, `Memoria` is the running module (classes whose methods are those
  functions), `StoreRuns` proves what each operation keeps and what survives whole runs.
- `Tlb`: the page walk, the look-aside buffer with FIFO or LRU replacement, translation.
- `Translation`: the CPU's buffer and walk against the memory module's page tables, on runs
  where processes come and go.
- `ClockCache`, `WriteBack`: the page cache with CLOCK and CLOCK-M, dirty intervals,
  eviction and flush, compared with a CPU that writes to memory directly.
- `SwapFailures`: runs of the memory module on which the swap file refuses writes.
- `CacheSteps`: what one instruction and the flush leave in each slot and each byte.
- `CachedProcess`: cached turns of processes through the frames their page tables name, mixed
  with requests to the memory module.
- `Cpus`: several CPUs with caches over one memory module, instruction by instruction.

**Kernel.**

- `Kernel`, `KernelSteps`, `KernelOutcomes`, `KernelModule`: process control blocks moving
  among seven lists under the three schedulers, the syscalls and the IO handlers. A step is
  one critical section; `KernelOutcomes` says of each step which block goes where and what
  becomes of CPUs and devices; `KernelModule` has the handlers as methods, each equal to its
  step. `Exchanges` is sorting as exchanges of items.
- `Admission`, `Resumption`: the long-term scheduler's loops over NEW and over SUSP_READY
  against the memory module's creation and resumption.
- `Swapping`: the kernel's suspended lists and the memory module's suspended processes, with
  suspensions under way.
- `Estimates`: the burst estimates that every comparison of two processes moves.

**Messages.** `Serialization`: the growable buffer, packages on a byte stream, the syscall
encoding.

`Arithmetic` holds integer facts (powers, division, products as sums), `Lists` the list and
option vocabulary.

## Where the code does less than one would expect

Each of these is stated as a lemma with the exact condition and, where it takes a run to get
there, with such a run.

- Resumption does not write the page table, so a resumed process's table names its frames
  only if the lowest free frames are the ones it had (`StoreRuns.ResumedTableIsStale`). With
  two frames of memory a run of four requests ends with two processes whose tables name the
  same frame (`StoreRuns.ResumeReachesStale`). A turn of a process leaves all other images
  alone exactly when nobody else has a frame its table names
  (`CachedProcess.OthersAreSafeExactly`), and gets its writes into its own image exactly when
  the table names its own frames (`CachedProcess.OwnWritesArriveExactly`); after those four
  requests a turn changes another process's image (`CachedProcess.StaleTurnReaches`).
- Only an interrupt flushes a CPU. A process that leaves it by EXIT, IO or DUMP_MEMORY leaves
  its modified pages behind: memory is as after the flush exactly when the cache owes nothing
  (`WriteBack.UnflushedIsExact`), and so is the image a suspension moves to swap
  (`Cpus.SuspendedWhileOwned`; a run on which it lacks a write: `Cpus.WriteMissesSwap`). The
  cache is searched by page number alone, so the next process hits the pages left behind
  (`Cpus.NextProcessHits`).
- Destroying a process always releases its frame numbers in the user bitmap, so it is correct
  exactly for processes without pages in swap (`StoreRuns.KillKeepsExactly`,
  `StoreRuns.KillReachesBroken`). The kernel gets there when a device disconnects while the
  process it works for is suspended (`Swapping.DisconnectedAsleepRun`).
- The medium-term scheduler lists a process as suspended before it asks the memory module. An
  IO completion and a resumption in between leave the process in READY and suspended, exactly
  if the suspension then succeeds (`Swapping.OvertakenExactly`, `Swapping.OvertakenRun`).
- A failed write to the swap file leaves the swap frames taken without an owner
  (`StoreRuns.FailedSwapOutLeaks`, `StoreRuns.FailedWriteReachesLeak`); nothing else goes wrong
  on such runs (`SwapFailures.FailuresLoseExactly`, `SwapFailures.ImageSurvivesFailures`).
- The FIFO pointer of the look-aside buffer survives a flush at `p`, so the next victim is the
  oldest entry exactly when `p` is 0 or, once the buffer is full again, `capacity - p` more
  entries were replaced (`Tlb.FifoAfterFlush`, `Tlb.FifoRestored`).
- A write to a cached dirty page that does not touch its modified part brings bytes into that
  part which the cache never loaded. On a run with evictions even a byte that had reached
  memory can be lost (`WriteBack.WriteCanBeLost`). Memory ends as without cache exactly when
  every byte so brought in was the right one (`WriteBack.FlushedRunIsExact`), in particular
  when every write touches the modified part of its page (`WriteBack.FlushedRunAgrees`) or
  goes to a page that was read from its start (`WriteBack.KnownRunAgrees`).
- With the TLB on, a dirty page in frame 0 cannot be evicted: the instruction is refused
  (`WriteBack.RefusalIsFrameZero`) and tried again. With two slots or more it is executed at
  the third try at the latest (`WriteBack.ThreeTriesSuffice`); with one slot it is refused at
  every try, until something flushes the cache (`WriteBack.RefusedForever`).
- The end of a memory dump does not check that the process is still in BLOCKED; if the
  medium-term scheduler suspended it meanwhile it ends up in two lists
  (`KernelSteps.DumpEndIsExact`, `KernelSteps.SuspendDuringDumpDuplicates`). A run there, on
  which the scheduler wakes up late: `KernelSteps.LateSuspensionDuplicates`.
- A package with an empty body is not received (`Serialization.StreamRoundTrip`).
- The burst comparison moves the estimates it compares; it gives every pair the same answer
  when asked again exactly for the weights 0 and 1 (`Estimates.StableExactlyAtExtremes`).
- A process of negative size sorts first and blocks the admission of all others
  (`Admission.NegativeSizeBlocks`), so smallest first admits as many as possible exactly when
  no size is negative or no process fits even alone (`Admission.OptimalExactly`).

## Model

| member | source | states |
|---|---|---|
| PageTables.BlockUnique | memoria/src/kernel_space/page_table.c:24-50 | preorder numbering gives every child subtree a block of ids of its own, so an id determines the child it lies below |
| PageTables.NodeIdOrder | memoria/src/kernel_space/page_table.c:24-50 | along a level, ids grow from left to right by at least a whole subtree, so no two tables share an id |
| PageTables.TableFactory.CreateTable | memoria/src/kernel_space/page_table.c:24-50 | builds a full tree with preorder ids from the counter on, all last-level entries without frame, and moves the counter by the size of the tree |
| PageTables.TableFactory.InitPageTable | memoria/src/kernel_space/page_table.c:52-57 | ids of a new process's tables start at 1, the counter is put back, every page has no frame |
| PageTables.FindTableById | memoria/src/client/get-page-entry/get-page-entry.c:54-81 | the depth-first search returns the table whose id block leads to the id, null exactly for ids outside the tree |
| PageTables.Locate | memoria/src/client/get-page-entry/get-page-entry.c:54-81 | exactly the ids of the subtree's range have a table, and it carries the id |
| PageTables.LocateFromNode | memoria/src/client/get-page-entry/get-page-entry.c:54-81 | searching an id of a node's subtree from the root finds what searching from the node finds |
| PageTables.GetPageEntry | memoria/src/client/get-page-entry/get-page-entry.c:3-52 | the reply to one walk request, with -1 for an unknown table or an index out of range |
| PageTables.LevelByDigits | memoria/src/kernel_space/assign-frames-to-process.c:4-58 | a level listed by its parents' children is in the order of the digits of the position |
| PageTables.ContentsByDigits | memoria/src/kernel_space/assign-frames-to-process.c:82-100 | the flat list of frames has one entry per page and holds at each page the entry its digits lead to |
| PageTables.WalkStep | cpu/src/mmu.c:182-200 | a request for the table and digit of a page is answered with the id of the next table, at the last level with the frame |
| PageTables.IdWalkFindsEntry | cpu/src/mmu.c:176-205 | for every depth, fan-out and page the walk by ids from table 1 ends in the page's own entry of the flat list, pages beyond the table wrapping around, frame 0 included |
| PageTables.PushChildren | memoria/src/kernel_space/assign-frames-to-process.c:39-50 | the queue of the breadth-first search gains a table's children behind what it held, one level further down |
| PageTables.CollectLastLevelTables | memoria/src/kernel_space/assign-frames-to-process.c:4-58 | the breadth-first search returns the last-level tables in digit order, all of them |
| PageTables.FillTable | memoria/src/kernel_space/assign-frames-to-process.c:86-99 | one table's first entries get the next frames of the list, as many as entries, frames and pages allow, and no other table changes |
| PageTables.AssignFrames | memoria/src/kernel_space/assign-frames-to-process.c:61-107 | afterwards the flat list is the frames of the process followed by what it was, and the answer is whether all pages got one; the ids stay searchable |
| PageTables.WalkFollowsFrames | cpu/src/mmu.c:176-205 | after assignment of P frames the walk of page p answers the p-th frame for p < P and -1 for the other pages |
| FrameAllocator.ClearCount | memoria/src/user_space/frame_manager.c:12-27 | clear and set bits of a bitmap add up to all frames |
| FrameAllocator.GrantedFrames | memoria/src/user_space/frame_manager.c:50-79 | a grant happens exactly when the counter suffices; it has the size asked for, is ascending, free, and lower than every other free frame |
| FrameAllocator.MarkUsed | memoria/src/user_space/frame_manager.c:62-74 | taking free frames moves exactly them from the clear to the set bits |
| FrameAllocator.MarkFree | memoria/src/user_space/frame_manager.c:36-44 | releasing owned frames is the inverse |
| FrameAllocator.Allocator.Allocate | memoria/src/user_space/frame_manager.c:50-79 | hands out the grant, marks it and lowers the counter by it; refused, nothing changes |
| FrameAllocator.Allocator.Release | memoria/src/swap_space/swap_manager.c:182-208 | clears exactly the bits of the list and raises the counter by its length |
| Bytes.UserSpace.Write | memoria/src/user_space/user_space_memory.c:32-54 | afterwards each byte from the address on is the data's and every other byte is as before; longer than a page or out of bounds, nothing changes |
| Bytes.UserSpace.Read | memoria/src/user_space/user_space_memory.c:56-73 | from any address, any size: the byte at each place behind the address; out of bounds, zeros |
| Bytes.ReadAfterWrite | memoria/src/client/read-memory/read-memory.c:22 | a read from any address after a write to any other sees the bytes written where the two overlap and else what was there |
| Bytes.WrittenIsRead | memoria/src/user_space/user_space_memory.c:32-73 | what was written at an address is read back from it |
| Bytes.FileByteAfterWrite | memoria/src/swap_space/swap_manager.c:49-86 | after a write to the swap file each byte is the data's, what was there, or a zero the file grew by |
| Bytes.UserWriteFrame | memoria/src/user_space/user_space_memory.c:32-54 | writing a whole page changes its frame to it and no other frame |
| Bytes.FileWriteElsewhere | memoria/src/swap_space/swap_manager.c:49-86 | writing a frame of the swap file, or only its first bytes, leaves every other frame as it was, also when the file grows |
| Store.AccountTaken | memoria/src/user_space/frame_manager.c:50-79 | granting frames to a process keeps one owner per set bit, none per clear bit, and free plus owned equal to all |
| Store.AccountReleased | memoria/src/user_space/frame_manager.c:29-48 | releasing a process's frames keeps the same |
| Store.FramesApart | memoria/src/user_space/frame_manager.c:62-74 | two pages on the same side, of one process or of two, never share a frame |
| Store.CopyOutAt | memoria/src/swap_space/swap_out.c:69-88 | after the copy loop each swap frame holds the page of the user frame at the same place of the list |
| Store.CopyOutElsewhere | memoria/src/swap_space/swap_out.c:69-88 | and every swap frame not in the list holds what it held |
| Store.CopyInAt | memoria/src/swap_space/swap_in.c:67-86 | after the copy loop each user frame holds the page of its swap frame |
| Store.CopyInElsewhere | memoria/src/swap_space/swap_in.c:67-86 | and every other user frame holds what it held |
| StoreRuns.CreateIsExact | memoria/src/client/init-process/init-process.c:18-102 | creation succeeds for size 0, and for a positive size exactly when its pages, rounded up, are free and fit the page table; it takes the lowest free frames in ascending order; refused, nothing changes |
| StoreRuns.KillKeepsExactly | memoria/src/kernel_space/process_manager.c:3-45 | destroying a process keeps ownership and conservation exactly when it has no pages in swap |
| StoreRuns.KilledIsGone | memoria/src/kernel_space/process_manager.c:81-108 | afterwards no process has the pid and no memory content or swap bit changed |
| StoreRuns.KillReleasesNumbers | memoria/src/kernel_space/process_manager.c:3-45 | destruction clears exactly the user bits with the numbers the process has, even if these are swap frames, and raises the free user frames by as many |
| StoreRuns.SwapOutKeeps | memoria/src/swap_space/swap_out.c:3-115 | suspension is refused, without change, exactly for unknown processes or lack of swap frames; otherwise every process keeps its image and ownership holds |
| StoreRuns.FailedSwapOutLeaks | memoria/src/swap_space/swap_out.c:92-99 | after a swap write that fails, whatever it still wrote, the process is unchanged, all images are kept and exactly its number of swap frames has no owner |
| StoreRuns.SwapOutIsExact | memoria/src/swap_space/swap_out.c:3-115 | suspension in full: refused exactly for unknown processes, lack of swap frames or a failing write; images are kept in any case; ownership and conservation are kept exactly when no write fails |
| StoreRuns.SwapOutTakesLowest | memoria/src/swap_space/swap_out.c:43-44 | a suspended process's frames are the lowest free swap frames in ascending order, and exactly its user frames become free |
| StoreRuns.SwapInKeeps | memoria/src/swap_space/swap_in.c:10-110 | resumption is refused, without change, exactly for unknown processes or lack of user frames (reading back never fails); otherwise every process keeps its image |
| StoreRuns.WriteKeeps | memoria/src/user_space/user_space_memory.c:32-54 | a write to a process's own resident page shows at its place of its image and in no other image |
| StoreRuns.RunKeepsInv | memoria/src/user_space/frame_manager.c:29-79 | on every run of legal requests each used frame has exactly one owner on its side, counters equal clear bits, free and owned add up, suspended pages lie in the swap file |
| StoreRuns.StepKeepsProcess | memoria/src/swap_space/swap_out.c:101-105 | one request leaves a living process's record alone unless it suspends or resumes it, and its image alone unless it is its own write |
| StoreRuns.ImageSurvivesRun | memoria/src/swap_space/swap_in.c:98-101 | on every run a living process's image is the one it started with changed by its own writes alone |
| StoreRuns.MappedUntilSuspended | memoria/src/client/init-process/init-process.c:49-80 | from creation to the first suspension the page table names the process's frames, as many as its pages |
| StoreRuns.TranslationStaysInMemory | memoria/src/kernel_space/assign-frames-to-process.c:82-100 | the frame a mapped process's page table names for a page is its own and lies inside the memory |
| StoreRuns.TranslationIsInjective | memoria/src/user_space/frame_manager.c:62-74 | the page tables of mapped processes name a different place for each page and offset, within one process and across two |
| StoreRuns.ResumedTableIsStale | memoria/src/swap_space/swap_in.c:98-104 | after resumption the page table names the process's frames exactly when the lowest free frames are those it named before |
| StoreRuns.KillReachesBroken | memoria/src/kernel_space/process_manager.c:3-45 | in every configuration with a frame, a created, suspended and destroyed process leaves the invariant broken |
| StoreRuns.FailedWriteReachesLeak | memoria/src/swap_space/swap_out.c:92-99 | in every configuration with a frame, a created process suspended while the swap file takes no write leaves a swap frame without owner |
| StoreRuns.ResumeReachesStale | memoria/src/swap_space/swap_in.c:98-104 | in every configuration with two frames four requests lead to two resident processes whose page tables name the same frame, which only one of them has |
| StoreRuns.RunKeepsNamed | memoria/src/kernel_space/assign-frames-to-process.c:61-107 | on every run each page table names as many different frames inside the memory as its process has pages, resident or not, whether or not the process still has them |
| SwapFailures.FailuresLoseExactly | memoria/src/swap_space/swap_out.c:92-99 | on every run, with suspensions whose writes fail anywhere, exactly the swap frames those took are without owner: given back, ownership and conservation hold |
| SwapFailures.ImageSurvivesFailures | memoria/src/swap_space/swap_out.c:3-115 | and on such runs, too, a living process's image changes by writes to its own resident frames alone |
| Memoria.Memory.CreateProcess | memoria/src/client/init-process/init-process.c:18-102 | the running module's creation is the function on values; the new process, unless of size 0, has a page table that names its frames; the module stays valid |
| Memoria.Memory.KillProcess | memoria/src/kernel_space/process_manager.c:81-108 | the running module's destruction is the function on values and leaves the module valid exactly when the process had no pages in swap; frame numbers released must be numbers of the user bitmap |
| Memoria.Memory.SuspendProcess | memoria/src/swap_space/swap_out.c:3-115 | the running module's suspension is the function on values whichever write fails, keeps all images, and leaves the module valid exactly when none fails |
| Memoria.Memory.ResumeProcess | memoria/src/swap_space/swap_in.c:10-110 | the running module's resumption is the function on values and keeps all images |
| Memoria.Memory.FindProcess | memoria/src/kernel_space/process_manager.c:64-79 | finds the first process with the pid |
| Memoria.SwapFile.WriteFrame | memoria/src/swap_space/swap_manager.c:49-86 | writes as many of the frame's bytes as the file system takes at its position, extending the file, and succeeds exactly when it takes all |
| Memoria.SwapFile.ReadFrame | memoria/src/swap_space/swap_manager.c:139-177 | reads the frame exactly when the file reaches its end |
| Memoria.WalkFindsFrames | memoria/src/client/get-page-entry/get-page-entry.c:3-52 | in every valid state of the module a mapped process has a page table, and the CPU's walk over it answers the process's frames page by page, -1 behind them |
| Tlb.RunIsFaithful | cpu/src/mmu.c:113-174 | after any run, either algorithm, any capacity, no key is kept twice and every entry holds what a walk answers |
| Tlb.TranslationIsTransparent | cpu/src/mmu.c:207-236 | hit or miss, a translation answers what a page walk answers and the TLB stays within its capacity, 0 included |
| Tlb.LruKeepsMostRecent | cpu/src/mmu.c:126-172 | under LRU the TLB holds exactly the most recently used distinct keys since the last flush, as many as it has entries for |
| Tlb.LruInclusion | cpu/src/mmu.c:157-172 | what a smaller LRU TLB holds after a trace a larger one holds too |
| Tlb.FifoKeepsLastInsertions | cpu/src/mmu.c:138-173 | before any flush the entries from the FIFO pointer around are the last insertions in order |
| Tlb.FifoVictimIsOldest | cpu/src/mmu.c:152-156 | before any flush the FIFO victim is the oldest insertion, the one with the least timestamp |
| Tlb.FifoAfterFlush | cpu/src/mmu.c:344-348 | a flush leaves the pointer: after refilling, the next victim is the oldest exactly when the pointer was at 0 |
| Tlb.FifoRestored | cpu/src/mmu.c:152-156 | after a flush that left the pointer at p, on any trace, the victim of a full TLB is the oldest entry if and only if p is 0 or capacity - p entries were replaced since it was full |
| Tlb.HitIsExact | cpu/src/mmu.c:113-131 | a hit under FIFO changes nothing; under LRU it gives its entry the next timestamp and leaves keys, frames and other entries |
| Tlb.Mmu.FindEntry | cpu/src/mmu.c:113-131 | finds the first entry with page and pid; under LRU a hit gets the next timestamp |
| Tlb.Mmu.FindLeast | cpu/src/mmu.c:159-168 | finds the first entry with the least timestamp |
| Tlb.Mmu.AddEntry | cpu/src/mmu.c:133-174 | uses a free entry or replaces the algorithm's victim; with capacity 0 nothing is kept |
| Tlb.Mmu.PerformPageWalk | cpu/src/mmu.c:176-205 | the loop over the levels answers the walk by ids, -1 for a process the memory does not know |
| Tlb.Mmu.TranslateAddress | cpu/src/mmu.c:207-236 | frame from TLB or walk, times page size, plus offset |
| Translation.WalkAnswers | cpu/src/mmu.c:176-205 | in every valid state of the memory module the walk of any page of any pid answers what that process's page table says, -1 without one |
| Translation.BufferFollowsTables | cpu/src/mmu.c:207-236 | on every run of translations, flushes and requests, either algorithm, any capacity, no key is kept twice and the buffer holds for every living process what its page table says now; processes may end with entries still in the buffer, and only a pid the buffer has entries of is not given out again |
| Translation.TranslatedStaysInMemory | cpu/src/mmu.c:207-236 | after every such run, hit or miss, an allocated address of a mapped process translates into the frame the process has for the page, inside the memory |
| Translation.TranslatedIsInjective | cpu/src/mmu.c:207-236 | and different allocated addresses, of one process or of two, never translate to the same place |
| Translation.TranslateAllocated | cpu/src/mmu.c:207-236 | the running unit over the running module's tables gives that place for an allocated address, inside the memory, whatever entries of ended processes the buffer holds, and the buffer stays current |
| ClockCache.ClockStopIsFirst | cpu/src/mmu.c:390-415 | CLOCK stops at the first invalid or unused slot from the pointer; all slots before it are valid and used |
| ClockCache.ClockSearchIsExact | cpu/src/mmu.c:390-415 | the victim is the first slot from the pointer invalid or unused, the pointer's own if none is; the pointer ends behind it; any slot keeps its use bit unless it was passed before |
| ClockCache.PageCache.FindVictimClock | cpu/src/mmu.c:390-415 | the running search stops there after one inspection more than slots passed, and exactly those passed lose their use bit, nothing else changes |
| ClockCache.ClockMStopIsLeast | cpu/src/mmu.c:417-459 | CLOCK-M's victim is of the least class present and the first of it from the pointer |
| ClockCache.PageCache.FindVictimClockM | cpu/src/mmu.c:417-459 | finds that victim in one round for the first two classes and in two for the others; only use bits and the pointer change |
| ClockCache.ClockMSearchIsExact | cpu/src/mmu.c:417-459 | no use bit is lost while some slot is invalid or neither used nor modified; else those of the slots before the first unused one; else all |
| ClockCache.ClockMVictimIsFirst | cpu/src/mmu.c:417-459 | in terms of the bits: the first slot invalid or neither used nor modified; without one the first unused; without that the first unmodified; else the pointer's own |
| ClockCache.SecondRound | cpu/src/mmu.c:441-457 | after a round that took all use bits each class of slots looks like the one two better |
| ClockCache.ClocksAgreeOnCleanCaches | cpu/src/mmu.c:390-459 | without modified slots both algorithms choose the same victim |
| ClockCache.ChosenLast | cpu/src/mmu.c:390-459 | the slot either pointer has just passed is chosen again only if all other slots are valid, and they lose their use bits then |
| WriteBack.PendingUnderEviction | cpu/src/mmu.c:478-539 | writing a slot's dirty interval back and dropping the slot leaves every byte as a flush would leave it |
| WriteBack.StepPending | cpu/src/instructionCycle.c:104-163 | one instruction, hit, miss or refused, leaves every byte outside its gap pending as a CPU without cache would have it, whatever modified bit the slot carried |
| WriteBack.TouchingLeavesNoGap | cpu/src/instructionCycle.c:135-152 | a write leaves a gap exactly when it neither overlaps nor touches the modified part of its page's slot |
| WriteBack.GapIsExactWhereCacheAndMemoryAgree | cpu/src/instructionCycle.c:143-151 | a byte of a gap is right exactly when the cache happens to hold what memory holds |
| WriteBack.StepIsExact | cpu/src/instructionCycle.c:97-163 | one instruction leaves every byte pending as a CPU without cache would, if and only if in the gap it leaves, if any, the cache holds what memory holds |
| WriteBack.SweptPends | cpu/src/instructionCycle.c:143-151 | along a run every byte of the gaps is pending with what the cache held when an instruction last swept over it |
| WriteBack.FlushPending | cpu/src/mmu.c:286-343 | flushing slot by slot leaves every pending byte as it is |
| WriteBack.FlushedByte | cpu/src/mmu.c:286-343 | after any run and the flush every byte outside the gaps is as a CPU without cache leaves it |
| WriteBack.FlushedRunIsExact | cpu/src/mmu.c:286-343 | after any run from an empty cache and the flush memory is as without cache, if and only if every byte of the gaps was last swept in with what a CPU without cache has there |
| WriteBack.FlushedRunAgrees | cpu/src/instructionCycle.c:97-163 | after any run and the flush nothing outside the process changed, and if every write touches its page's modified part the whole memory is as without cache |
| WriteBack.WholePagesMirror | cpu/src/instructionCycle.c:218-243 | on any run from an empty cache a slot last filled by a read from the start of its page holds, outside what was modified, what memory holds |
| WriteBack.KnownRunAgrees | cpu/src/instructionCycle.c:97-163 | if each write touches its page's modified part or its page's slot was so filled, which a CPU can tell from its own instructions, the flush leaves memory as without cache |
| WriteBack.WriteCanBeLost | cpu/src/instructionCycle.c:118-129 | a concrete run whose first byte, already evicted to memory, is zero after the flush |
| WriteBack.RefusalIsFrameZero | cpu/src/mmu.c:482-489 | an instruction is refused exactly when the TLB is on and its victim is a dirty page in frame 0; then only use bits and pointer changed |
| WriteBack.RefusedForever | cpu/src/mmu.c:482-489 | with one slot an instruction refused once is refused at any number of further tries, and memory stays |
| WriteBack.ThreeTriesSuffice | cpu/src/mmu.c:461-541 | with two slots or more, under either algorithm, an instruction is executed at the first, second or third try |
| WriteBack.FlushEmpties | cpu/src/mmu.c:336-341 | after the flush nothing is cached |
| WriteBack.UnflushedIsExact | cpu/src/instructionCycle.c:394-405 | where a turn ends without the flush, memory is as the flush would leave it if and only if every pending byte of the process's pages is already in memory |
| WriteBack.CachedCpu.FindEntry | cpu/src/mmu.c:367-388 | the first valid slot of the page, whose use bit is set |
| WriteBack.CachedCpu.SelectVictim | cpu/src/mmu.c:461-541 | the algorithm's victim, written back and emptied if dirty, or a refusal with memory as it was |
| WriteBack.CachedCpu.WriteInstruction | cpu/src/instructionCycle.c:97-163 | the running WRITE is the instruction on values |
| WriteBack.CachedCpu.ReadInstruction | cpu/src/instructionCycle.c:218-243 | the running READ is the instruction on values, loading from the address read |
| WriteBack.CachedCpu.Cleanup | cpu/src/mmu.c:286-343 | the running flush is the flush on values |
| CacheSteps.ReadHitIsExact | cpu/src/mmu.c:367-388 | a read of a cached page sets the use bit of the first valid slot of the page and changes nothing else |
| CacheSteps.WriteHitIsExact | cpu/src/instructionCycle.c:134-160 | a write to a cached page puts its bytes into that slot, sets both bits and widens the modified part at either end, or starts it afresh; memory, pointer and other slots stay |
| CacheSteps.MissIsExact | cpu/src/mmu.c:461-541 | a miss is refused exactly for a dirty victim in frame 0 with the TLB on; else the victim is written back; the other slots are as the search left them |
| CacheSteps.WrittenBackByte | cpu/src/mmu.c:500-530 | of memory exactly the bytes of the victim's modified part change, to what its content holds |
| CacheSteps.WriteMissIsExact | cpu/src/instructionCycle.c:107-160 | after a write miss the slot is of the page, used, modified exactly where written, and zero elsewhere |
| CacheSteps.ReadMissIsExact | cpu/src/mmu.c:543-570 | after a read miss the slot is of the page, used, unmodified, and holds a page's worth of bytes from the address read on, offset included, or zeros when they leave the memory |
| CacheSteps.LoadedRight | cpu/src/mmu.c:543-570 | it holds its page's own bytes if and only if memory has the same bytes from the address read as from the page's start |
| CacheSteps.FlushedSlotIsExact | cpu/src/mmu.c:336-341 | the flush leaves each slot invalid and unmodified, with page, content and use bit as they were, and the pointer where it was |
| CachedProcess.FramesAreTranslated | cpu/src/mmu.c:207-236 | the frames the cache writes back to are those translation answers, for every resident process, also after a resumption |
| CachedProcess.OtherImagesKept | cpu/src/mmu.c:286-343 | whatever a process executes with cache up to an interrupt, after the flush the image of every other process is as it was, as long as none has a frame the page table names |
| CachedProcess.CachedRunIsWrites | cpu/src/instructionCycle.c:97-163 | for a process whose page table names its frames, as until its first suspension, a cached run ended by an interrupt is for the memory module the process's own writes not refused, if and only if nothing wrong was swept in, in particular when every write touches |
| CachedProcess.OwnImageIsWrites | cpu/src/mmu.c:286-343 | and then that process's own image is what it was with these writes on top |
| CachedProcess.OthersAreSafeExactly | cpu/src/mmu.c:207-236 | for a resident process, resumed or not: whatever it executes up to an interrupt leaves every other image, if and only if no other resident process has a frame its page table names |
| CachedProcess.OwnWritesArriveExactly | memoria/src/swap_space/swap_in.c:98-104 | and every run whose writes touch gets them into its own image, if and only if its page table names the frames it has |
| CachedProcess.StaleTurnReaches | memoria/src/swap_space/swap_in.c:98-104 | in every configuration with two frames: create, suspend, create, resume, and a turn of the resumed process changes the other one's image |
| CachedProcess.ActionsAreRun | cpu/src/mmu.c:286-348 | turns of processes before their first suspension on CPUs with cache, each ended by an interrupt, mixed with requests, are a run of requests and single writes |
| CachedProcess.ImageSurvivesTurns | cpu/src/mmu.c:286-348 | so through such turns and any requests a living process's image changes by its own writes alone |
| Cpus.NextShows | cpu/src/instructionCycle.c:97-163 | one event of one CPU or of the memory module shows in a process's memory, with what its CPU owes, only if it is that process's own write |
| Cpus.MemorySurvivesRun | cpu/src/main.c:39-79 | on every run of any number of CPUs with caches, their instructions and interrupts and the requests of other processes interleaved in any order, a living process's memory, with what its CPU still owes, changes by its own writes alone |
| Cpus.SuspendedWhileOwned | cpu/src/instructionCycle.c:336-394 | of a process that left its CPU by a system call, what a suspension moves to swap is its memory if and only if the CPU's cache owes nothing |
| Cpus.WriteMissesSwap | cpu/src/instructionCycle.c:336-394 | in every configuration with a frame: a process writes, leaves by a system call and is suspended, and its image in swap lacks the write |
| Cpus.NextProcessHits | cpu/src/mmu.c:367-388 | a process dispatched on a CPU left without the flush, writing to a page number cached from the one before, changes that one's memory and not its own |
| Kernel.ChangeStateKeepsBooks | kernel/src/repository/pcb/pcb.c:59-130 | along the kernel's transitions READY stays entered as often as EXEC, once more while in READY, and the times of all states add up to the age |
| Kernel.ChangeStateIsExact | kernel/src/repository/pcb/pcb.c:59-130 | a change of state books the time to the state left, the visit to the state entered, and nothing to any other |
| KernelSteps.MovedPartition | kernel/src/repository/process/blocked_list.c:34-49 | moving a block along a transition keeps every process in exactly one list with its state naming it |
| KernelSteps.FreeCpuKeeps | kernel/src/kernel_logic/scheduler/short_scheduler.c:20-26 | marking a CPU free whose process left EXEC keeps the invariant |
| KernelSteps.DispatchKeeps | kernel/src/kernel_logic/scheduler/short_scheduler.c:182-185 | a CPU may take a ready process whenever the one it was last given left EXEC or is on another CPU |
| KernelSteps.ReplyKeeps | kernel/src/kernel_logic/scheduler/short_scheduler.c:143-185 | preemption, with either answer of the CPU, keeps the invariant |
| KernelSteps.InWorkIsBlocked | kernel/src/handlers/io/process_pending_io.c:31-46 | the process a device works for is blocked, waits for no dump and has no other request |
| KernelSteps.IoRequestKeeps | kernel/src/handlers/cpu/syscall/io_syscall.c:27-57 | an IO request blocks its process with exactly one request more |
| KernelSteps.ServeKeeps | kernel/src/handlers/io/process_pending_io.c:27-91 | serving a device keeps requests and blocked processes matched and leaves no idle device with requests behind |
| KernelSteps.CompleteKeeps | kernel/src/handlers/io/io_completion.c:24-60 | completion unblocks the process from either blocked list and keeps the books |
| KernelSteps.DisconnectKeeps | kernel/src/handlers/io/io_disconnected.c:3-62 | disconnection ends the process in work and keeps the books; queued requests stay matched |
| KernelSteps.ConnectKeeps | kernel/src/handlers/io/process_new_device.c:3-32 | a device that connects, for the first time or again, keeps the books and its old queue is about to be served |
| KernelSteps.DumpEndIsExact | kernel/src/handlers/cpu/syscall/dump_memory_syscall.c:27-52 | the end of a dump keeps every process in one list exactly when the process is still in BLOCKED |
| KernelSteps.SuspendDuringDumpDuplicates | kernel/src/kernel_logic/scheduler/medium_scheduler.c:38-45 | a medium-term step during the dump wait ends with the process in two lists |
| KernelSteps.LateSuspensionDuplicates | kernel/src/kernel_logic/scheduler/medium_scheduler.c:16-45 | from the start, for any waiting time: a process served at once asks for a dump, the scheduler wakes up late and finds it long enough in BLOCKED exactly when it is later than the process worked; suspended then, the process ends in two lists |
| KernelSteps.StepKeepsInv | kernel/src/kernel_logic/scheduler/medium_scheduler.c:38-91 | each of the twenty-one kinds of step keeps the whole invariant |
| KernelSteps.ReachableInv | kernel/src/kernel_logic/scheduler/long_scheduler.c:21-101 | in every reachable state each process is in exactly one list, or held between SUSP_READY and READY, with state and counters right; processes blocked for IO are those queued or in work, each once |
| KernelSteps.ExecutingFitsCpus | kernel/src/kernel_logic/scheduler/short_scheduler.c:3-35 | no more processes execute than there are CPUs |
| KernelSteps.BlockedHasOneRequest | kernel/src/handlers/cpu/syscall/io_syscall.c:41-43 | outside dumps a process is blocked exactly when it has a request, and never has two |
| KernelSteps.QuietDevicesWork | kernel/src/handlers/io/process_pending_io.c:48-84 | requests were sent in the order they were enqueued, and with no handler mid-way a connected device with requests works for a blocked process |
| KernelSteps.ListsAreQueues | kernel/src/repository/process/ready_list.c:51-58 | whatever the step but for sorting, blocks that stay in a list keep their order, at most one leaves, and those that enter come last |
| KernelOutcomes.MovedGoes | kernel/src/repository/process/blocked_list.c:34-49 | a move takes the first block with the pid out of one list and puts it, in its new state, at the end of the other; all other blocks and lists are as before |
| KernelOutcomes.MovingStepIsOutcome | kernel/src/kernel_logic/scheduler/long_scheduler.c:46-89 | admission goes from NEW to READY, resumption from SUSP_READY over the scheduler's hands to READY, suspension from BLOCKED to SUSP_BLOCKED and back when undone, the end of a process from EXEC to EXIT |
| KernelOutcomes.CreationIsOutcome | kernel/src/handlers/cpu/syscall/init_proc_syscall.c:5-70 | for a caller that executes a block with the size asked for and the next pid stands last in NEW; else nothing changes |
| KernelOutcomes.DumpEndIsOutcome | kernel/src/handlers/cpu/syscall/dump_memory_syscall.c:27-52 | a confirmed dump sends its process from BLOCKED to READY, a failed one to EXIT; no longer in BLOCKED, the block stays where it is and is added there, too |
| KernelOutcomes.DumpEndsIn | kernel/src/handlers/cpu/syscall/dump_memory_syscall.c:30-52 | afterwards the process is in READY exactly if the dump was confirmed and in EXIT exactly if not, and every other process is in the list it was in |
| KernelOutcomes.IoIsOutcome | kernel/src/handlers/cpu/syscall/io_syscall.c:3-58 | a request for a device not there ends the process; else it goes to BLOCKED and its pid to the end of that device's queue |
| KernelOutcomes.ServeIsOutcome | kernel/src/handlers/io/process_pending_io.c:27-91 | a connected device that works for nobody still blocked gets the head of its queue, any other nothing |
| KernelOutcomes.CompletionIsOutcome | kernel/src/handlers/io/io_completion.c:24-60 | completion sends the process in work from BLOCKED to READY or from SUSP_BLOCKED to SUSP_READY and leaves the device without work |
| KernelOutcomes.DisconnectionIsOutcome | kernel/src/handlers/io/io_disconnected.c:3-62 | disconnection sends the process in work from either blocked list to EXIT; the device keeps its queue |
| KernelOutcomes.ReplyIsOutcome | kernel/src/kernel_logic/scheduler/short_scheduler.c:149-185 | the stopped process goes from EXEC to READY if it is the one asked for, then the waiting one from READY to EXEC and to the CPU |
| KernelOutcomes.ReplyEndsIn | kernel/src/kernel_logic/scheduler/short_scheduler.c:149-185 | so the stopped one is in READY, the waiting one in EXEC and on the CPU |
| KernelModule.Processes.Move | kernel/src/repository/process/blocked_list.c:34-49 | removing from one list and adding to another is the move on values, nothing when the pid is not there |
| KernelModule.Processes.InitProcSyscall | kernel/src/handlers/cpu/syscall/init_proc_syscall.c:5-70 | the handler is its step and keeps the invariant; it confirms exactly a caller that executes, and then the new process has a pid no list had |
| KernelModule.Processes.IoProcessSyscall | kernel/src/handlers/cpu/syscall/io_syscall.c:3-58 | the handler is its step, with the exit when the device is not there, and keeps the invariant |
| KernelModule.Processes.ExitProcessSyscall | kernel/src/handlers/cpu/syscall/exit_syscall.c:3-18 | the handler is its step and keeps the invariant |
| KernelModule.Processes.DumpMemoryBegin | kernel/src/handlers/cpu/syscall/dump_memory_syscall.c:7-23 | the first critical section is its step and keeps the invariant |
| KernelModule.Processes.DumpMemoryEnd | kernel/src/handlers/cpu/syscall/dump_memory_syscall.c:27-52 | the second critical section is its step whether or not the process is still in BLOCKED: confirmed it ends in READY, else in EXIT; it keeps the invariant if it held before |
| KernelModule.Processes.ProcessPendingIo | kernel/src/handlers/io/process_pending_io.c:3-99 | the handler is its step, busy only if the process in work is still blocked, and keeps the invariant |
| KernelModule.Processes.IoCompletion | kernel/src/handlers/io/io_completion.c:24-60 | the critical section is its step and keeps the invariant |
| KernelModule.Processes.IoDisconnected | kernel/src/handlers/io/io_disconnected.c:3-62 | the handler is its step and keeps the invariant |
| KernelModule.Processes.ProcessNewDevice | kernel/src/handlers/io/process_new_device.c:3-32 | the handler is its step and keeps the invariant |
| KernelModule.Processes.FindFreeCpu | kernel/src/kernel_logic/scheduler/short_scheduler.c:9-26 | the first CPU without process or whose process left EXEC, which is marked free |
| KernelModule.Processes.RunShortScheduler | kernel/src/kernel_logic/scheduler/short_scheduler.c:3-177 | one run is a run of steps that keeps the invariant. In terms of lists and CPUs: with a free CPU the first process of READY, with SJF of READY as sorted, stands last in EXEC, the first free CPU is given its pid, and READY is what was behind it; else, when the comparison says so, the wait is for a CPU to take that process, with SJF the one given the last process of EXEC as sorted, without the first CPU; else only sorting happens |
| KernelModule.ShortestRuns | kernel/src/kernel_logic/algorithms/scheduling_algorithms.c:36-43 | when the sort orders READY by a key, the process that gets the free CPU has the least key of all |
| Exchanges.AnyOrderByExchanges | kernel/src/kernel_logic/algorithms/sorting_logic.c:59-67 | exchanges lead to any order a sort can give |
| Exchanges.ExchangesKeepItems | kernel/src/kernel_logic/algorithms/sorting_logic.c:59-67 | exchanges lose and double nobody |
| KernelModule.Processes.FinishShortScheduler | kernel/src/kernel_logic/scheduler/short_scheduler.c:149-185 | the rest of the run after a CPU's answer is its step and keeps the invariant |
| Swapping.ListsAgreeWithMemory | kernel/src/kernel_logic/scheduler/medium_scheduler.c:38-91 | on every run of kernel and memory module together, suspensions taking their time and failing, as long as no process is resumed while its suspension is under way: no process in READY, EXEC, BLOCKED or on its way to READY is suspended in memory, and one with pages, unless its suspension is under way or failed, is suspended exactly while it is in SUSP_BLOCKED or SUSP_READY |
| Swapping.MemoryKeptExactly | kernel/src/kernel_logic/scheduler/long_scheduler.c:70-95 | the requests of such runs keep ownership and conservation of frames in the memory module, except the destruction of a process with pages in swap and a suspension whose write fails, which do not; the pid of a new process is new |
| Swapping.BeginningIsExact | kernel/src/kernel_logic/scheduler/medium_scheduler.c:38-63 | a suspension moves the process to SUSP_BLOCKED whatever its size and asks the memory module exactly for one of a size |
| Swapping.OvertakenExactly | kernel/src/kernel_logic/scheduler/long_scheduler.c:33-54 | resumed while its suspension is under way, a process is in READY with the memory module unchanged, and the suspension served afterwards leaves it there suspended if and only if it succeeds |
| Swapping.OvertakenRun | kernel/src/kernel_logic/scheduler/medium_scheduler.c:38-65 | in every configuration with a frame a run from the start leads there, with a suspension that succeeds |
| Swapping.DisconnectedAsleepRun | kernel/src/handlers/io/io_disconnected.c:43-57 | in every configuration with a frame a run of the kernel ends a process with its page in swap, and its destruction breaks ownership or conservation |
| Admission.LoopStopsForPages | kernel/src/kernel_logic/scheduler/long_scheduler.c:96-100 | the loop stops at a process whose pages no longer fit the free frames, or never fit the page table |
| Admission.FirstNeedFewest | kernel/src/kernel_logic/algorithms/sorting_logic.c:88-99 | any choice of as many processes from a list ordered by size needs at least the pages of its first ones |
| Admission.SmallestFirstIsOptimal | kernel/src/kernel_logic/scheduler/long_scheduler.c:68-101 | for non-negative sizes no choice of processes from NEW that memory could hold together is larger than the prefix the loop admits |
| Admission.AdmittedCouldBe | kernel/src/kernel_logic/scheduler/long_scheduler.c:80-95 | what the loop admits is itself such a choice |
| Admission.CouldBeMeansCreated | memoria/src/client/init-process/init-process.c:18-102 | a choice fits memory exactly when creating its processes one after the other succeeds for all |
| Admission.NegativeSizeBlocks | memoria/src/client/init-process/init-process.c:37-57 | with a process of negative size in the ordered NEW nobody is admitted |
| Admission.OptimalExactly | kernel/src/kernel_logic/scheduler/long_scheduler.c:68-101 | smallest first admits as many as any choice could if and only if no size is negative or no process fits even alone |
| Admission.SortBySize | kernel/src/kernel_logic/algorithms/sorting_logic.c:96-99 | an ordered permutation |
| Admission.AdmitFromNew | kernel/src/kernel_logic/scheduler/long_scheduler.c:68-101 | the running loop admits a longest prefix of the order taken, against the running memory module; under smallest-first no choice memory could hold is larger if and only if no size is negative or nobody fits |
| Resumption.RunKeepsSized | memoria/src/swap_space/swap_out.c:101-105 | on every run a process has as many frames as its size has pages, in memory or in swap |
| Resumption.LoopStops | kernel/src/kernel_logic/scheduler/long_scheduler.c:21-62 | the loop over SUSP_READY stops exactly where the pages no longer fit the free frames |
| Resumption.FitsMeansResumed | memoria/src/swap_space/swap_in.c:10-110 | a choice of suspended processes fits the free frames exactly when resuming them one after the other succeeds for all |
| Resumption.SmallestFirstResumesMost | kernel/src/kernel_logic/scheduler/long_scheduler.c:21-62 | no choice from SUSP_READY whose pages fit the free frames is larger than the prefix the loop resumes in order of size |
| Resumption.ResumeFromSuspReady | kernel/src/kernel_logic/scheduler/long_scheduler.c:21-62 | the running loop resumes the prefix up to the first refusal against the running memory module, and in order of size no choice that fits is larger |
| Estimates.EstimateStaysBetween | kernel/src/kernel_logic/algorithms/sorting_logic.c:15-16 | after any number of comparisons an estimate lies between any earlier value and the last burst and is no farther from the burst |
| Estimates.NextIsAverage | kernel/src/kernel_logic/algorithms/sorting_logic.c:15-16 | the new estimate is estimate * (1 - weight) + burst * weight, cut to a whole number |
| Estimates.CompareAnswers | kernel/src/kernel_logic/algorithms/sorting_logic.c:5-24 | a comparison leaves both estimates so averaged and says whether the first is no larger |
| Estimates.PreemptsExactly | kernel/src/kernel_logic/algorithms/sorting_logic.c:26-57 | an executing process is displaced if and only if its averaged estimate exceeds the ready one's by more than the time it ran |
| Estimates.FixedBelow | kernel/src/kernel_logic/algorithms/sorting_logic.c:15-16 | below the burst an estimate stands still exactly when the weighted distance is under one unit |
| Estimates.EstimateComesDown | kernel/src/kernel_logic/algorithms/sorting_logic.c:15-16 | from above, with a positive weight, it loses at least one per comparison until it is the burst |
| Estimates.OverdueIsNotPreempted | kernel/src/kernel_logic/algorithms/sorting_logic.c:44-56 | a process that ran as long as its estimate is not displaced |
| Estimates.ExtremeComparisons | kernel/src/kernel_logic/algorithms/sorting_logic.c:5-24 | with weight 0 or 1 a comparison answers by estimate or by last burst and does not change what it answers by |
| Estimates.StableExactlyAtExtremes | kernel/src/kernel_logic/algorithms/sorting_logic.c:5-24 | a comparison repeated on the jobs it left gives every pair the same answer if and only if the weight is 0 or 1 |
| Estimates.SortReady | kernel/src/kernel_logic/algorithms/sorting_logic.c:59-62 | with weight 0 or 1 sorting READY orders it by estimate or by last burst and loses nobody |
| Serialization.Int32RoundTrip | utils/src/utils/serialization/buffer.c:41-43 | every 32-bit integer is read as it was written |
| Serialization.Int32Bytes | utils/src/utils/serialization/buffer.c:41-43 | the four bytes are the integer in two's complement, least significant first |
| Serialization.AddAppends | utils/src/utils/serialization/buffer.c:29-38 | adding appends to the bytes added so far whatever the first capacity, across growth |
| Serialization.TakeStringFront | utils/src/utils/serialization/buffer.c:87-92 | a string written with its length is read back and what is behind it stays to be read |
| Serialization.Buffer.Add | utils/src/utils/serialization/buffer.c:29-38 | the running buffer's add is the one on values: the bytes stand at the old offset, the offset is behind them, all other bytes stay, and the buffer grew to just fit |
| Serialization.Buffer.Read | utils/src/utils/serialization/buffer.c:56-79 | the bytes at the offset, or nothing and no movement when too few are left |
| Serialization.PackageRoundTrip | utils/src/utils/serialization/package.c:32-82 | a package with a body is received as sent and what follows stays on the stream; one without is not received |
| Serialization.PackageLayout | utils/src/utils/serialization/package.c:32-49 | on the stream a package is four bytes of opcode, four of the body's length, and the body |
| Serialization.CutPackage | utils/src/utils/serialization/package.c:51-82 | a package the stream ends in the middle of, behind its header, is received with what came of its body |
| Serialization.StreamDelivers | utils/src/utils/serialization/package.c:51-82 | packages sent back to back arrive up to the first without body |
| Serialization.StreamRoundTrip | utils/src/utils/serialization/package.c:32-82 | a sequence arrives as it was sent exactly when every package has a body |
| Serialization.Socket.ReceivePackage | utils/src/utils/serialization/package.c:51-82 | the running receive is the one on values, with the body in a new buffer |
| Serialization.SyscallRoundTrip | utils/src/utils/DTPs/syscall_package.c:3-77 | each syscall decodes to the record encoded, with any bytes behind it |
| Serialization.SyscallHeader | utils/src/utils/DTPs/syscall_package.c:5-8 | a call starts with its number, the pid and the pc, four bytes each |
| Serialization.SyscallLayout | utils/src/utils/DTPs/syscall_package.c:10-28 | then come size and file name of a new process, or device name and time of a request, each name with its length before it and its end mark behind it |
| Serialization.CreateSyscallBuffer | utils/src/utils/DTPs/syscall_package.c:3-31 | whatever the first capacity, the buffer holds the encoding of the call, then zeros |
| Serialization.ReadSyscall | utils/src/utils/DTPs/syscall_package.c:43-77 | the running decoder is the one on values |
| Serialization.SyscallDelivered | utils/src/utils/DTPs/syscall_package.c:33-41 | from the sender's record over buffer, package and stream to the receiver's, every call arrives as it was sent |

## Left out

- Sockets, servers, threads, configuration, logging, delays and shutdown: a request and its reply are one step.
- Semaphores as such: each lock-protected section is one step; the READY list stays locked while the short-term scheduler waits for a CPU's answer. The unmatched unlock of EXEC on its not-same-pid path is not modelled.
- 32-bit overflow of addresses, sizes and counters, and 64-bit overflow of timestamps, except in the message encoding: integers are unbounded.
- Floating-point `pow`, `floor`, `ceil` and the averages: integer powers and division, and real numbers cut to whole ones.
- Negative logical addresses, and writes that start before the memory and end inside it (undefined in the source).
- Fields the source leaves uninitialised: a process of size 0 has no frames and no page table; bytes missing from a receive cut short by the end of the stream, which the source leaves undefined, are zeros.
- Metrics counters of the memory module, memory dumps, script loading and instruction parsing.
- Aliasing between the process records of the kernel's lists: blocks are values in lists, except where a dump's end adds a block twice.
- Time overwritten for zombie processes when they end: the time books of a block count up to its entry into EXIT.
- Several connections under one device name, and failed sends to a device: one connection per name, sends arrive; a completion is for the process the device was sent.
- CPUs that disconnect.
- Runs that go on with a process on a CPU left without the flush: `Cpus` keeps the CPU to the process before until an interrupt, and says what the next one's write would do.
- Translation of pages the process does not have, in the cached CPU: instructions stay inside the process's pages.
- The external list sort: any ordered permutation; it is modelled by insertion.
- Enum-to-string functions and one-field packages: easy members.
- KernelSteps.LateSuspensionDuplicates: the wait of the medium-term scheduler is time passing between its begin and the suspension; the steps of other runs leave open how long a process was in BLOCKED, which allows more runs than the code.
- KernelModule.Processes.RunShortScheduler: the comparisons of estimates are in Estimates; here any exchanges of blocks stand for a sort, which by Exchanges.AnyOrderByExchanges are as many orders as a sort can give.
- KernelSteps.StepKeepsInv: assumes that a CPU answering for another process no longer runs the one it was last given, or that another CPU does, and that no process is suspended during its dump wait; the second is shown necessary by KernelSteps.SuspendDuringDumpDuplicates.
- StoreRuns.RunKeepsInv: assumes that the swap file takes every write and that processes with pages in swap are not destroyed; both are shown necessary by StoreRuns.FailedSwapOutLeaks and StoreRuns.KillKeepsExactly, and SwapFailures.FailuresLoseExactly does without the first.
- Admission.SmallestFirstIsOptimal: assumes non-negative sizes, new pids, loadable scripts and no concurrent change of memory; Admission.OptimalExactly says what becomes of it without the first.
- Resumption.ResumeFromSuspReady: takes the list in the order the scheduler chose at its start; processes that join SUSP_READY while the loop runs are not modelled.
- Translation.BufferFollowsTables: assumes that a process is created under a pid the buffer has no entries of; the kernel gives each pid once (KernelModule.Processes.InitProcSyscall).
- Cpus.MemorySurvivesRun: assumes that requests name processes no cache holds pages of, that a CPU is given a process only behind a flush, that the process's page table names its frames, and that no write sweeps in a wrong byte; what happens without these is said by Cpus.SuspendedWhileOwned, Cpus.NextProcessHits, CachedProcess.OthersAreSafeExactly and WriteBack.StepIsExact.
- CachedProcess.ImageSurvivesTurns: a turn is one action, from an empty cache to the flush of an interrupt; Cpus.MemorySurvivesRun interleaves them.
- Swapping.ListsAgreeWithMemory: assumes that no process is resumed while its suspension is under way, which the code does not check; Swapping.OvertakenExactly says what happens otherwise.
- Memoria.Memory.KillProcess: a process with pages in swap may only be destroyed when their numbers are also numbers of the user bitmap; the source clears bits outside the bitmap otherwise, which is undefined.
