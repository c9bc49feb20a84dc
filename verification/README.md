# PhoenixOS: models and proofs of its stateful core

This project models, in Dafny, the parts of PhoenixOS whose correctness rests on invariants that span
several functions, and proves those invariants over every call, every run or every interleaving.

* **Kernel heap** (`HeapModel`, `HeapLaws`, `HeapMemory`, `KernelHeap`, `HeapFrames`): the first-fit allocator with splitting, coalescing and
  growth. `HeapModel` is the heap as a list of blocks; `HeapMemory` is the memory the block headers lie in, where a byte
  store can destroy a header and the bytes spell the list; `KernelHeap` is the pointer code, which follows and rewrites
  the headers in that memory; `HeapFrames` is where the heap's pages come from.
* **Frames, page tables, brk and mmap** (`Pmm`, `PmmLaws`, `PagingModel`, `PagingLaws`, `Paging`, `SyscallModel`): the bitmap
  frame allocator, the four-level tables of section 4.5 of the Intel SDM, Volume 3A, as a tree of frames that refines a flat
  map from page to frame, and the two system calls that map user memory on top of both.
* **Scheduler** (`SchedModel`, `SchedLaws`, `Scheduler`): the ready ring as a sequence with a ranking argument for bounded waiting,
  and as next and previous pointers in the task pool.
* **Ticket spinlock** (`TicketLock`): lock, trylock and unlock as atomic steps on 32-bit words that wrap.
* **Service order** (`ServiceOrder`): the depth-first order in which phx-svcmon starts services, cycles included.
* **Package database** (`PackageText`, `PackageDb`, `ParseLaws`): the printer and the hand-written parser of phx-pkgmgr.
* **Path resolution** (`DentryModel`, `Vfs`): the dentry cache against uncached lookup.
* **ext2** (`Ext2`, `Ext2Dir`, `Ext2Paths`, `Ext2Images`): the block-mapped copy loop against the flat file, the walk over
  directory records against the entries they encode, and cached path resolution over an image against the links that ext2,
  by its own block assignment and file types, stores on its disk; with images on which the two part.
* **S transpiler** (`LexerModel`, `LexerLaws`, `Lexer`, `TranslatorModel`, `TranslatorProofs`, `Declarations`, `LoopTexts`,
  `HeaderTest`, `Translator`): the lossless lexer, the token translator with its backtracking, what its constructs become,
  and the test that decides whether s.h is added.
* **Pipe** (`PipeModel`, `PipeLaws`, `Pipe`): the ring buffer under interleaved readers and writers.
* **Number text** (`NumberText`, `NumberLaws`): itoa and strtol.

`Common` holds the types and widths that several parts share.

Each part has a specification made of functions and lemmas. What the functions compute is stated again without them, in
literals, addresses, characters and events; the modules called laws hold such statements. Where the source works by
changing state, there are classes and loops that are proved to compute that specification. `panic` is an outcome of the
model; context switches and TLB flushes change nothing the model speaks of. `dafny verify dfyconfig.toml` checks everything.

## What turned out false, and exactly when it holds

* A heap request is covered by the growth made for it exactly up to 2^64 - 4128 bytes; above, a rounding wraps, and a
  call that returns has then handed out a block that is too small; the largest request does return, with 0 bytes
  (`HeapModel.ExpandCovers`, `HeapModel.ServesIff`, `HeapModel.LargestRequest`).
* The counter `free_pages` equals the number of free frames exactly when no two available memory-map entries share a frame
  (`Pmm.FrameAllocator.Init`, `Pmm.SurplusZero`).
* `brk` and `mmap` keep every earlier translation exactly when none of the pages they are about to map is mapped; a page
  placed before by an explicit address silently gets another frame (`SyscallModel.KeepsTranslations`). Two calls of `mmap`
  with one address, while frames last, both succeed and do that (`SyscallModel.SecondMmapRemaps`).
* `alloc_task` hands out a slot that is still queued exactly when a live task with pid 0 comes first; with the idle task
  of `sched_init` alive it always picks the idle task, and enqueueing the wiped slot leaves it in no linked ring
  (`SchedModel.AllocInRing`, `SchedModel.AllocPicksIdle`, `Scheduler.QueuedSlotBreaks`).
* `task_kill` is safe exactly when no task has the pid, or the slot found is queued or current: a zombie is still found, and
  its null links are stored through (`Scheduler.TaskQueue.Kill`, `SchedModel.FoundInRing`).
* The compare-exchange of trylock succeeds exactly when the tickets issued since the one it saw being served are a
  multiple of 2^32, and one that succeeds keeps exclusion exactly when nobody is then waiting or inside. Fewer than 2^32 tickets
  since the served one are enough; fewer than 2^32 since the load are not, and 2^32 or more may be harmless
  (`TicketLock.ExchangeMatches`, `TicketLock.ExchangeExact`, `TicketLock.WindowIsTight`).
* Dependencies start first exactly when they have no cycle (`ServiceOrder.FirstIffAcyclic`).
* The package database survives writing and reading exactly when it is well formed (`PackageDb.RoundTrip`).
* The ext2 driver finds block n of every file exactly when n is below 12, and of every file that has an indirect block
  exactly when n is below 12 + block_size / 4 (`Ext2.DriverReaches`). Without an indirect block ext2 has a hole from block
  12 on, but the driver takes disk block 0 for the table and reads bytes the file does not have (`Ext2.SparseFile`); a file
  of at most 12 + block_size / 4 blocks is read right exactly when it has the table it needs or finds zeros in its place
  (`Ext2.ReadsAreExt2`).
* Over an ext2 image every path, cached or not, is answered by the inode its links lead to exactly when `ext2_lookup` agrees
  with ext2 on every inode they reach (`Ext2Paths.CacheIsDisk`). It agrees on all directories of at most n blocks without
  holes exactly when n is at most 12 + block_size / 4 (`Ext2Images.DirectoryReaches`); on a directory of that size with a
  hole exactly when no name first comes up behind the hole, be it in the blocks ext2 stores there or in those the driver
  makes up for want of an indirect block (`Ext2Paths.DirectoryAgrees`); and on an inode that is no directory exactly when
  the tested bit 0x4000, which block devices and sockets have, too, is clear or no entry is in use in its blocks
  (`Ext2Paths.OtherAgrees`). `Ext2Images.SparseMistaken`, `Ext2Images.SocketMistaken` and `Ext2Images.LongDirectory` are
  images on which it answers wrong.
* Lexing is lossless exactly for sources without NUL (`LexerModel.Lossless`). Without `var`, and without a `fn` that has
  parameters and an arrow, the translated body is the source exactly when no token is an S keyword, a type alias or the head
  of a range-for, but for a `fn` that has no name behind it and one blank between (`TranslatorProofs.IdentityIffKept`).
* The comment in `transpile` promises to notice `use <s.h>` as well as `use "s.h"`. The code looks at one token: it never
  notices the first (`HeaderTest.AngleFormMissed`) and takes `use "utils.h"` for a use of s.h
  (`HeaderTest.UtilsMistaken`). It is right exactly when `use "s.h"` is translated, or else when such lookalikes and
  `use <s.h>` come together or not at all (`HeaderTest.TestIsRight`), and on sources where nothing swallows a use that can be
  read off the tokens (`HeaderTest.HarmlessTest`).
* A writer on a full pipe waits for ever exactly when no reader is inside that still wants bytes, and no later read
  begins; the read end is tested only on entry, so closing it does not help (`PipeModel.WriterWaits`,
  `PipeModel.ClosedWhileWaiting`).
* strtol inverts itoa exactly for non-negative numbers and base 10, provided no digit is above 15, which can happen only in
  bases above 16 (`NumberText.RoundTrip`).

## Model

| member | source | states |
|---|---|---|
| HeapModel.ExpandCovers | kernel/mm/vmm.c:118-157 | the growth covers the aligned request and a header if and only if the request is at most 2^64 - 4128; then it is whole pages |
| HeapModel.GrowthIs | kernel/mm/vmm.c:105-114 | growth succeeds if and only if the pages asked for can be provided and the limit is kept, and moves the break by whole pages; `HeapFrames.ExpandIsGrow` says how many can be provided |
| HeapModel.Ordered | kernel/mm/vmm.c:131-171 | list order is address order and blocks never overlap |
| HeapModel.CarveKeeps | kernel/mm/vmm.c:134-149 | taking a block, split or not, keeps the list tiled, aligned and coalesced |
| HeapModel.CarveLive | kernel/mm/vmm.c:134-149 | exactly the block handed out becomes live, with the size asked for and at most 48 bytes more |
| HeapModel.MallocCorrect | kernel/mm/vmm.c:116-173 | kmalloc keeps the invariant, adds exactly one live block of the promised size, and panics if and only if the pages that can be provided or the heap limit do not allow the one growth; `HeapFrames.MallocPanics` says so of frames and tables |
| HeapModel.RetryAttempts | kernel/mm/vmm.c:154-172 | after growing, the retry finds the appended block first and never grows again |
| HeapModel.RetriesOnce | kernel/mm/vmm.c:116-173 | up to 2^64 - 4128 bytes the recursive call of kmalloc is made at most once |
| HeapModel.ServesIff | kernel/mm/vmm.c:116-173 | over all 64-bit requests, a call that returns grants the request if and only if it is at most 2^64 - 4128 |
| HeapModel.LargestRequest | kernel/mm/vmm.c:116-173 | a request of 2^64 - 1 bytes on the untouched heap returns a block of 0 bytes |
| HeapModel.ReleaseKeeps | kernel/mm/vmm.c:184-206 | marking free and merging with both neighbours leaves no two free blocks adjacent |
| HeapModel.FreeCorrect | kernel/mm/vmm.c:184-206 | kfree removes exactly the freed block from the live ones and keeps the invariant |
| HeapModel.FreeUndoesMalloc | kernel/mm/vmm.c:116-206 | when kmalloc does not grow, freeing its result restores the very same addresses, sizes and flags |
| HeapModel.LivePayloadsDisjoint | kernel/mm/vmm.c:90-206 | live payloads are 16-aligned, inside the heap and pairwise disjoint |
| HeapModel.ReallocKeeps | kernel/mm/vmm.c:208-226 | krealloc keeps the invariant on every branch |
| HeapModel.RunsAreSafe | kernel/mm/vmm.c:105-226 | after every run of kmalloc, kfree and krealloc from the untouched heap the list tiles the heap in address order and live payloads are disjoint |
| HeapLaws.MallocLaw | kernel/mm/vmm.c:116-173 | kmalloc hands out the first free block with room, cut if 64 more bytes are there, or else one made of just the pages the request and a header need, and panics if and only if these are not to be had or pass 64 MB |
| HeapLaws.FirstMalloc | kernel/mm/vmm.c:116-129 | the first call makes one page one free block of 4064 bytes; a request for nothing does nothing |
| HeapLaws.FreeLaw | kernel/mm/vmm.c:184-206 | the freed block takes in the free blocks on either side, headers and all, and nothing else changes |
| HeapLaws.ReallocLaw | kernel/mm/vmm.c:208-226 | NULL is kmalloc; size 0 frees the block and returns NULL; a block with room stays; otherwise the old block is freed behind a new one |
| HeapMemory.StoreLinks | kernel/mm/vmm.c:94-100 | storing a header settles that block's links and disturbs no other block's |
| HeapMemory.StoreDecodes | kernel/mm/vmm.c:94-100 | the 32 bytes of a stored header decode to it, little-endian |
| HeapMemory.HeaderFields | kernel/mm/vmm.c:94-100 | magic number, size, flag and neighbours of a block, NULL at either end of the list |
| HeapMemory.HeaderLayout | kernel/mm/vmm.c:94-100 | where each field lies in the 32 bytes, all other bytes kept; a fresh page is zeros |
| HeapMemory.BytesSpellList | kernel/mm/vmm.c:94-103 | the bytes of the region determine every header of the list, doubly linked in address order |
| HeapMemory.ByteKeepsLinks | kernel/mm/vmm.c:178-222 | a byte stored in a payload destroys no header of the list |
| HeapMemory.ByteChangesPayload | kernel/mm/vmm.c:178-222 | it changes that one byte of that one payload |
| KernelHeap.Allocator.constructor | kernel/mm/vmm.c:102-103 | the untouched heap |
| KernelHeap.Allocator.Expand | kernel/mm/vmm.c:105-114 | page-by-page growth computes Grow, over the number of further heap pages that alloc_page and map_page together can provide, and keeps all bytes and headers |
| KernelHeap.Allocator.Scan | kernel/mm/vmm.c:131-152 | following next pointers finds the first fit |
| KernelHeap.Allocator.SplitBlock | kernel/mm/vmm.c:135-147 | the header stores compute Split and leave every payload's bytes alone |
| KernelHeap.Allocator.CarveBlock | kernel/mm/vmm.c:134-150 | split and mark compute Carve; live payloads keep their bytes |
| KernelHeap.Allocator.Initialise | kernel/mm/vmm.c:120-129 | the first call makes one page one free block |
| KernelHeap.Allocator.Append | kernel/mm/vmm.c:159-170 | the fresh pages become one free block behind the last one |
| KernelHeap.Allocator.GrowFor | kernel/mm/vmm.c:154-170 | growing computes Extended and makes the retry a plain attempt |
| KernelHeap.Allocator.Kmalloc | kernel/mm/vmm.c:116-173 | computes Malloc, retry included, and leaves the bytes of every live payload unchanged |
| KernelHeap.Allocator.CoalesceNext | kernel/mm/vmm.c:194-199 | the pointer stores compute JoinNext |
| KernelHeap.Allocator.CoalescePrevious | kernel/mm/vmm.c:200-205 | the pointer stores compute JoinPrevious |
| KernelHeap.Allocator.Kfree | kernel/mm/vmm.c:184-206 | computes Free and leaves every other live payload's bytes unchanged; NULL and a pointer without the magic number change nothing |
| KernelHeap.Allocator.ReleaseBlock | kernel/mm/vmm.c:192-206 | past the tests: exactly the freed block stops being live, by header stores alone |
| KernelHeap.Allocator.Kzmalloc | kernel/mm/vmm.c:175-182 | computes Malloc and the requested bytes of the new payload are zero |
| KernelHeap.Allocator.Krealloc | kernel/mm/vmm.c:208-226 | computes Realloc, the old bytes move along, every other payload keeps its bytes |
| HeapFrames.ExpandIsGrow | kernel/mm/vmm.c:105-114 | growth over the frame bitmap and the page tables panics, ends and leaves as growth over the number of pages they supply |
| HeapFrames.FramesDistinct | kernel/mm/vmm.c:105-114 | the data pages of the heap lie on distinct frames, all free before and none free after |
| HeapFrames.ExpandIsPages | kernel/mm/vmm.c:105-114 | the memory heap_expand leaves is the one those frames and their tables were taken from |
| HeapFrames.MallocPanics | kernel/mm/vmm.c:105-173 | kmalloc panics if and only if heap_expand does over the page tables, for the first page or, no block being large enough, for the pages of the request |
| Pmm.FreeInIs | kernel/mm/pmm.c:15-31 | a frame is free if and only if its bit is set |
| Pmm.WithBitIs | kernel/mm/pmm.c:15-25 | changing one bit changes the membership of one frame |
| Pmm.SurplusZero | kernel/mm/pmm.c:40-58 | no frame is counted twice if and only if the available entries share none |
| Pmm.EntryRange | kernel/mm/pmm.c:40-58 | the loop range of an entry is exactly the frames that lie wholly inside it, below the page limit |
| Pmm.CountTrailingZeros | kernel/mm/pmm.c:94-111 | the lowest set bit |
| Pmm.FrameAllocator.constructor | kernel/mm/pmm.c:6-12 | nothing is free |
| Pmm.FrameAllocator.SetBit | kernel/mm/pmm.c:15-25 | adds or removes exactly one frame |
| Pmm.FrameAllocator.TestBit | kernel/mm/pmm.c:27-31 | answers membership |
| Pmm.FrameAllocator.AddEntry | kernel/mm/pmm.c:41-58 | every whole page of an available entry becomes free; what is counted twice is recorded |
| Pmm.FrameAllocator.Init | kernel/mm/pmm.c:35-90 | free is exactly what lies wholly in one available entry and outside the first megabyte, the kernel and the bitmap; the counter is exact if and only if entries are disjoint |
| PmmLaws.BootLaw | kernel/mm/pmm.c:35-90 | a frame is left free if and only if it is below the page limit, its 4096 bytes lie in one entry of kind 1, and it meets neither the first megabyte nor the kernel image nor the bitmap |
| Pmm.FrameAllocator.AllocPage | kernel/mm/pmm.c:94-111 | the lowest free frame, taken and zeroed; panics if and only if none is free |
| Pmm.FrameAllocator.FindLowest | kernel/mm/pmm.c:94-104 | word skipping and bit counting find the lowest free frame |
| Pmm.FrameAllocator.FreePage | kernel/mm/pmm.c:115-131 | accepts exactly aligned, in-range, non-free frames, and leaves the state alone otherwise |
| PagingModel.TableEntryDecodes | kernel/mm/vmm.c:20-25 | a stored table entry is present and decodes to its frame |
| PagingModel.LeafEntryDecodes | kernel/mm/vmm.c:37-42 | a stored leaf entry is present and decodes to its frame, whatever the flags |
| PagingLaws.TableBits | kernel/mm/vmm.c:20-25 | the bits of a table entry |
| PagingLaws.LeafBits | kernel/mm/vmm.c:37-40 | the bits of a leaf entry: present, write, user, no-execute exactly without the bit that is also user, frame |
| PagingModel.PathDetermines | kernel/mm/vmm.c:7-10 | the four indices determine a lower-half page |
| PagingModel.GetOrAllocTree | kernel/mm/vmm.c:19-26 | a fresh zeroed frame keeps the tables a tree and the flat map unchanged |
| PagingModel.LeafWrite | kernel/mm/vmm.c:42-64 | a store into a last-level table changes the translation of exactly one page |
| PagingModel.MapPageRefines | kernel/mm/vmm.c:30-45 | map_page is an update of the flat map, and new tables come from free frames |
| PagingLaws.StoredEntry | kernel/mm/vmm.c:30-45 | map_page leaves exactly that leaf entry in the last table on the path of the page |
| PagingLaws.UserEntry | kernel/syscall/syscall.c:97-176 | the pages of brk and mmap are present, writable, for user code and executable |
| PagingModel.UnmapPageRefines | kernel/mm/vmm.c:49-66 | unmap_page is a deletion from the flat map |
| PagingModel.MapPagePanics | kernel/mm/vmm.c:30-45 | map_page panics if and only if fewer frames are free than tables are missing, and otherwise uses up as many |
| PagingModel.RunRefines | kernel/mm/vmm.c:19-66 | every run of map_page and unmap_page on the lower half is the same run on a flat map |
| Paging.MacrosAgree | kernel/mm/vmm.c:7-10 | the index macros cut out the path of the page |
| Paging.PageTables.GetOrAllocTable | kernel/mm/vmm.c:19-26 | computes GetOrAlloc on the frame allocator |
| Paging.PageTables.MapPage | kernel/mm/vmm.c:30-45 | computes MapPage; the flat map gains exactly this page |
| Paging.PageTables.UnmapPage | kernel/mm/vmm.c:49-66 | the early returns and the store delete exactly this page |
| Paging.VmmInit | kernel/mm/vmm.c:72-86 | an empty lower half below a fresh root, the upper half copied |
| Paging.UserMemory.constructor | kernel/syscall/syscall.c:88-91 | on the tables vmm_init leaves, the run invariant of brk and mmap holds and nothing is mapped |
| Paging.UserMemory.SysBrk | kernel/syscall/syscall.c:91-106 | computes SysBrk, the panic and the refused frame 0 included |
| Paging.UserMemory.SysMmap | kernel/syscall/syscall.c:167-180 | computes SysMmap; EINVAL if and only if the length is 0, ENOMEM for frame 0 |
| SyscallModel.NoPageKeeps | kernel/syscall/syscall.c:100-175 | a loop stopped by frame 0 has mapped nothing and keeps the invariant |
| SyscallModel.MapFreshIs | kernel/syscall/syscall.c:97-104 | mapping n pages extends the flat map by exactly those pages, on frames that were free |
| SyscallModel.FramesExclusive | kernel/syscall/syscall.c:88-180 | no frame backs two user pages or serves also as a table |
| SyscallModel.StepRaisesBreak | kernel/syscall/syscall.c:88-180 | no call lowers the break |
| SyscallModel.StepKeeps | kernel/syscall/syscall.c:88-180 | both calls, failures included, keep the invariant: the target gets frames that were free, every other page keeps its translation |
| SyscallModel.KeepsTranslations | kernel/syscall/syscall.c:88-180 | a call unmaps nothing, and keeps every earlier translation if and only if no page of its target was mapped |
| SyscallModel.SecondMmapRemaps | kernel/syscall/syscall.c:167-180 | with eight frames free, two calls for one address both return it and the page changes its frame |
| SyscallModel.BootedInv | kernel/mm/vmm.c:72-86 | the state vmm_init leaves satisfies the run invariant |
| SyscallModel.RunsAreSafe | kernel/syscall/syscall.c:88-180 | over every run from boot all pages up to the break stay mapped, no frame backs two pages or is also a table, the break never falls, and the regions [reply, reply + length) of mmap calls for address 0 never overlap |
| SyscallModel.MmapReply | kernel/syscall/syscall.c:167-180 | the reply is the address or the old break rounded up by less than a page; from it on every byte of the length is mapped, on frames that were free; without an address the break moves to the end of the last page |
| SyscallModel.MmapOutcome | kernel/syscall/syscall.c:167-180 | it fails if and only if the length is 0 or frame 0 is free, changing no translation; otherwise four free frames a page are enough and fewer than one panic |
| SyscallModel.BrkReply | kernel/syscall/syscall.c:91-106 | accepted from the old break up to 67108864 bytes above, unless a page is needed and frame 0 free: the reply is the new break and all bytes up to it are mapped; refused: the reply is the old break and nothing changes |
| SyscallModel.FirstMmaps | kernel/syscall/syscall.c:88-180 | two mmap(NULL, 4096) after boot return 0x400000000 and 0x400001000 |
| SchedModel.ScheduleApproaches | kernel/sched/scheduler.c:148-177 | one schedule dispatches the waiting task or brings it strictly closer |
| SchedModel.StepKeeps | kernel/sched/scheduler.c:40-273 | every event keeps the invariant: distinct ring, zombies outside, only the current task runs, slices bounded |
| SchedModel.BoundedWaiting | kernel/sched/scheduler.c:148-223 | a ready task at distance d is dispatched within d + 1 schedules and (d + 1)(10 + p) ticks, whatever other tasks do |
| SchedModel.RunsAreSafe | kernel/sched/scheduler.c:40-273 | in every state reachable from sched_init the ring invariants hold |
| SchedLaws.InitialLaw | kernel/sched/scheduler.c:227-256 | 256 slots, all dead but the idle task, ready, queued and current |
| SchedLaws.ScheduleLaw | kernel/sched/scheduler.c:148-177 | the first ready task of the ring that is not current gets the CPU and moves to the end with all before it; the one that was running is ready; without such a task nothing changes |
| SchedLaws.TimerLaw | kernel/sched/scheduler.c:181-198 | a tick wakes exactly the sleepers whose tick has come and takes one off the current slice, or fills it with 10 + priority and hands on the CPU |
| SchedLaws.CallerLaw | kernel/sched/scheduler.c:213-223 | yield and sleep, on the ring and the pool |
| SchedLaws.EndLaw | kernel/sched/scheduler.c:202-273 | exit and kill take exactly one task out of the ring as a zombie |
| SchedLaws.CreateLaw | kernel/sched/scheduler.c:73-127 | create appends a ready task with slice 10 + priority and changes no other |
| SchedLaws.TimerWakes | kernel/sched/scheduler.c:182-188 | a sleeper is still asleep after a tick if and only if the tick is before its own |
| SchedLaws.SleepsOn | kernel/sched/scheduler.c:148-223 | over every legal run in which no timer reaches its tick and nobody kills it, a sleeper is not dispatched and stays asleep |
| SchedLaws.SleepLatency | kernel/sched/scheduler.c:148-223 | from the first timer at or after its tick a sleeper waits for, or has, the CPU, and gets it within (d + 1)(10 + p) ticks and d + 1 schedules |
| SchedLaws.PreemptedWaits | kernel/sched/scheduler.c:148-223 | a running task that loses the CPU waits for its next turn |
| SchedLaws.KeepsItsSlice | kernel/sched/scheduler.c:190-196 | left alone, the current task keeps the CPU through every tick of its slice but the last |
| SchedLaws.SliceEnds | kernel/sched/scheduler.c:190-196 | with the last tick it loses the CPU if another task waits |
| SchedModel.AllocInRing | kernel/sched/scheduler.c:25-36 | the slot picked is still queued if and only if a live pid-0 task comes first |
| SchedModel.AllocPicksIdle | kernel/sched/scheduler.c:25-36 | with the idle task alive, the idle slot, still queued, is picked, and creating there is not legal |
| SchedModel.FoundInRing | kernel/sched/scheduler.c:260-273 | a task found by pid is queued if and only if it is no zombie |
| Scheduler.LinksInverse | kernel/sched/scheduler.c:40-65 | next and previous are each other's inverse around the ring |
| Scheduler.EnqueueLinks | kernel/sched/scheduler.c:40-52 | the four stores append to the ring |
| Scheduler.DequeueLinks | kernel/sched/scheduler.c:54-65 | the unlinking stores remove exactly that task |
| Scheduler.QueuedSlotBreaks | kernel/sched/scheduler.c:25-52 | a queued slot that is wiped for a new task is in no linked ring: as head it gives enqueue_task a null tail, otherwise the stores of enqueue_task leave it in no linked ring |
| Scheduler.TaskQueue.constructor | kernel/sched/scheduler.c:227-256 | the idle task alone in the ring and current |
| Scheduler.TaskQueue.Enqueue | kernel/sched/scheduler.c:40-52 | the ring gains the task at its end |
| Scheduler.TaskQueue.Dequeue | kernel/sched/scheduler.c:54-65 | the ring loses the task, the head moves on if needed |
| Scheduler.TaskQueue.Unlink | kernel/sched/scheduler.c:54-65 | the pointer stores of dequeue take the task out of a ring of two or more, moving the head on if it was the head |
| Scheduler.TaskQueue.FindNext | kernel/sched/scheduler.c:155-159 | the do-while scan finds the first candidate |
| Scheduler.TaskQueue.Schedule | kernel/sched/scheduler.c:148-177 | the pointer code is Schedule on the sequence |
| Scheduler.TaskQueue.SwitchStates | kernel/sched/scheduler.c:160-172 | the next task runs, and the previous one is ready again if it was still running |
| Scheduler.TaskQueue.WakeSleepers | kernel/sched/scheduler.c:182-188 | exactly the due sleepers become ready |
| Scheduler.TaskQueue.Charge | kernel/sched/scheduler.c:190-196 | the running task loses one tick of its slice, which is refilled, and schedule called, if and only if it runs out |
| Scheduler.TaskQueue.Tick | kernel/sched/scheduler.c:181-198 | the pointer code is Tick on the sequence |
| Scheduler.TaskQueue.Yield | kernel/sched/scheduler.c:220-223 | the pointer code is the model's yield: slice cleared, then one schedule |
| Scheduler.TaskQueue.Sleep | kernel/sched/scheduler.c:213-218 | the pointer code is the model's sleep: the caller stays in the ring, asleep until its tick |
| Scheduler.TaskQueue.Exit | kernel/sched/scheduler.c:202-209 | the pointer code is the model's exit: the caller leaves the ring as a zombie and another task runs |
| Scheduler.TaskQueue.FindTask | kernel/sched/scheduler.c:260-265 | the first slot with the pid that is not dead |
| Scheduler.TaskQueue.Kill | kernel/sched/scheduler.c:267-273 | for every pid: safe if and only if no slot is found, or the one found is queued or current; a queued one other than the current leaves the ring as a zombie, nothing else changes |
| Scheduler.TaskQueue.Create | kernel/sched/scheduler.c:73-127 | the pointer code is the model's create: the new task is queued last with slice 10 + priority |
| TicketLock.ExchangeMatches | kernel/include/spinlock.h:32-38 | the compare-exchange finds the word it loaded if and only if the tickets issued since the one it saw being served are a multiple of 2^32; with fewer than 2^32 it keeps the promise |
| TicketLock.ExchangeExact | kernel/include/spinlock.h:32-38 | exclusion holds right after the exchange if and only if it does not succeed while the lock is held, and in every continuation if and only if it succeeds only when nobody waits or is inside |
| TicketLock.StepKeeps | kernel/include/spinlock.h:22-38 | every atomic step keeps the invariant despite wrap-around |
| TicketLock.RunsAreExclusive | kernel/include/spinlock.h:22-38 | in every interleaving whose exchanges succeed only when nobody waits or is inside, at most one thread holds the lock and sections are entered in ticket order |
| TicketLock.SomebodyProceeds | kernel/include/spinlock.h:22-26 | with tickets outstanding and nobody inside, some waiting thread gets in |
| TicketLock.WaitingAdvances | kernel/include/spinlock.h:22-30 | only an unlock moves a waiting thread, by exactly one place; it enters exactly when nobody is ahead |
| TicketLock.WindowIsTight | kernel/include/spinlock.h:32-38 | a run in which fewer than 2^32 tickets since the load still let two threads hold the lock; one round more and the exchange is harmless |
| ServiceOrder.Resolve | userspace/services/phx-svcmon/src/main.rs:116-120 | a name stands for the last service that bears it, or for none |
| ServiceOrder.Sorter.Dfs | userspace/services/phx-svcmon/src/main.rs:125-140 | the order only grows, and the service ends up in it or is still being visited; seen set and order are those of the recursive postorder |
| ServiceOrder.Sorter.VisitDepends | userspace/services/phx-svcmon/src/main.rs:134-138 | each dependency is in the order or reaches the service |
| ServiceOrder.Sorter.Run | userspace/services/phx-svcmon/src/main.rs:142-145 | terminates with a permutation of all services, the postorder of the file |
| ServiceOrder.KeepsFileOrder | userspace/services/phx-svcmon/src/main.rs:142-145 | services that depend on earlier ones only keep the order of the file |
| ServiceOrder.DependenciesAsListed | userspace/services/phx-svcmon/src/main.rs:125-140 | a service comes behind its dependencies, and these in the order in which it lists them |
| ServiceOrder.FirstIffAcyclic | userspace/services/phx-svcmon/src/main.rs:114-146 | every dependency comes first if and only if dependencies have no cycle |
| ServiceOrder.TopoSort | userspace/services/phx-svcmon/src/main.rs:114-146 | a permutation in which each dependency comes earlier or lies on a cycle with its dependant; dependencies first if and only if acyclic |
| ServiceOrder.Monitor.StartAll | userspace/services/phx-svcmon/src/main.rs:188-209 | services are started in the given order, running or failed by the launch |
| ServiceOrder.StartServices | userspace/services/phx-svcmon/src/main.rs:114-209 | every service is started exactly once, and after its dependencies when they are acyclic |
| PackageText.TrimCore | userspace/services/phx-pkgmgr/src/main.rs:41-59 | trimming drops exactly the class on both sides of a core |
| PackageText.LinesCons | userspace/services/phx-pkgmgr/src/main.rs:40-86 | a printed line is read back as itself |
| PackageDb.LineParses | userspace/services/phx-pkgmgr/src/main.rs:40-63 | a printed key and value parse to that key and value |
| PackageDb.ListReads | userspace/services/phx-pkgmgr/src/main.rs:49-56 | splitting, trimming, unquoting and filtering undo the joined list, empty list included |
| PackageDb.BlockParses | userspace/services/phx-pkgmgr/src/main.rs:36-73 | parsing the printed lines of a package gives the package |
| PackageDb.PrintReads | userspace/services/phx-pkgmgr/src/main.rs:77-130 | reading a printed file enters its packages in order |
| PackageDb.ReadGivesWellFormed | userspace/services/phx-pkgmgr/src/main.rs:36-105 | whatever text is read, the database is well formed |
| PackageDb.RoundTrip | userspace/services/phx-pkgmgr/src/main.rs:36-130 | for every iteration order, reading what was printed gives the map back if and only if it is well formed |
| PackageDb.ParseMetadata | userspace/services/phx-pkgmgr/src/main.rs:36-73 | the loop over lines computes Parse |
| PackageDb.DbRead | userspace/services/phx-pkgmgr/src/main.rs:77-105 | the loop over blocks computes Read and gives a well-formed database |
| PackageDb.DbWrite | userspace/services/phx-pkgmgr/src/main.rs:107-130 | prints the values in some order of the map; reading it back gives the map if and only if it is well formed |
| ParseLaws.SpaceTable | userspace/services/phx-pkgmgr/src/main.rs:41-46 | white space is the 25 characters of that Unicode property |
| ParseLaws.TextEnters | userspace/services/phx-pkgmgr/src/main.rs:40-63 | KEY = "TEXT" enters the text without its quotes under the key, whatever blanks stand on the four sides, none included |
| ParseLaws.ListEnters | userspace/services/phx-pkgmgr/src/main.rs:48-57 | KEY = [A, B, ...] enters the items without quotes and blanks, empty ones left out, however commas and brackets are padded |
| ParseLaws.LineIgnored | userspace/services/phx-pkgmgr/src/main.rs:41-45 | blank lines, comments, headers and lines without = change nothing |
| ParseLaws.NameWithoutBlanks | userspace/services/phx-pkgmgr/src/main.rs:40-63 | name="vim" enters vim under name |
| ParseLaws.MetaFields | userspace/services/phx-pkgmgr/src/main.rs:65-72 | each field of a package comes from the key of its name, and is empty without it |
| ParseLaws.LinesInOrder | userspace/services/phx-pkgmgr/src/main.rs:40-63 | lines are taken in order, each on top of the ones before |
| ParseLaws.LineEnds | userspace/services/phx-pkgmgr/src/main.rs:40-84 | line feeds end lines, a carriage return before one goes with it, and the last line needs none |
| ParseLaws.BlockEnds | userspace/services/phx-pkgmgr/src/main.rs:77-105 | a header line, with any blanks around it, ends a block, whose package enters under its name if it has one |
| ParseLaws.BlockLines | userspace/services/phx-pkgmgr/src/main.rs:83-98 | a collected block is parsed line by line as its lines stood in the file |
| ParseLaws.PrintedLines | userspace/services/phx-pkgmgr/src/main.rs:107-130 | the six lines printed for a package, spelled out |
| DentryModel.WalkAgrees | kernel/fs/vfs.c:82-133 | in any cache state a cached walk succeeds exactly when the uncached fold does, with its inode, and only adds to the cache |
| DentryModel.InsertKeeps | kernel/fs/vfs.c:113-126 | a new dentry keeps children lists complete and sibling names unique |
| DentryModel.PathDetermines | kernel/fs/vfs.c:97-126 | no two dentries stand for the same path |
| DentryModel.WalkStays | kernel/fs/vfs.c:97-126 | a path once found is answered by the same dentry in every later cache, without adding any |
| DentryModel.PathResolves | kernel/fs/vfs.c:97-126 | every cached dentry holds what resolving its path gives |
| DentryModel.RunsAgree | kernel/fs/vfs.c:82-133 | after any history of lookups the answer is the uncached one, with the one dentry of that path |
| DentryModel.ComponentsOfJoin | kernel/fs/vfs.c:91-97 | cutting a joined path gives the names back |
| Vfs.SameName | kernel/fs/vfs.c:103-106 | the comparison loop is equality |
| Vfs.Cache.MountRoot | kernel/fs/vfs.c:70-71 | the root dentry alone |
| Vfs.Cache.FindChild | kernel/fs/vfs.c:100-108 | the list scan finds the child of that name |
| Vfs.Cache.AddChild | kernel/fs/vfs.c:113-126 | the new dentry is put in front of the children list |
| Vfs.Cache.TakeStep | kernel/fs/vfs.c:99-129 | cached child, new dentry or failure, as the model steps |
| Vfs.Cache.NextComponent | kernel/fs/vfs.c:94-96 | the run of characters up to the next slash |
| Vfs.Cache.LookupPath | kernel/fs/vfs.c:82-133 | relative paths and a missing root fail; otherwise the uncached resolution's inode or failure, and the cache only grows |
| Ext2.ReadsJoin | kernel/fs/ext2.c:219-225 | any run of reads returns, joined, the slice one read of the total length would |
| Ext2.BlockRuns | kernel/fs/ext2.c:128-146 | within an allocated block nothing stops a read before the file ends |
| Ext2.BlockAgrees | kernel/fs/ext2.c:131-138 | of each file, block n below 12 + block_size / 4 is found as ext2 assigns it if and only if n is below 12, there is an indirect block, or the word in its place is 0 |
| Ext2.AssignedLaw | kernel/fs/ext2.c:54-73 | the blocks ext2 assigns, entry by entry of one, two and three levels of tables, a hole where a table is missing |
| Ext2.SparseFile | kernel/fs/ext2.c:131-138 | a file with a hole at block 12 from which the driver reads a byte |
| Ext2.MappingAgrees | kernel/fs/ext2.c:131-148 | in a small file with its table, block, byte and stop are those of ext2 |
| Ext2.DriverReaches | kernel/fs/ext2.c:131-138 | the driver finds block n of all files if and only if n is below 12, and of all files with an indirect block if and only if n is below 12 + block_size / 4 |
| Ext2.ReadsAreExt2 | kernel/fs/ext2.c:123-153 | on a file of at most 12 + block_size / 4 blocks every run of reads returns the bytes ext2 stores, short only at the end of file or a hole, if and only if the table is there or nothing is found in its place |
| Ext2.ReadInodeData | kernel/fs/ext2.c:123-153 | the copy loop terminates, returns the byte count and fills exactly that much of the buffer with the flat file |
| Ext2.CopyFrom | kernel/fs/ext2.c:147 | copies that many bytes and touches nothing else |
| Ext2.OpenFile.FileRead | kernel/fs/ext2.c:219-225 | one step of a run of reads, moving the offset by what was read |
| Ext2Dir.Decodes | kernel/fs/ext2.c:177-183 | the fields read at a record are those of the entry it encodes |
| Ext2Dir.NextRecord | kernel/fs/ext2.c:176-203 | stepping by the record length reaches the next entry's record |
| Ext2Dir.FirstInFlat | kernel/fs/ext2.c:168-205 | searching block by block is searching entry by entry |
| Ext2Dir.SameName | kernel/fs/ext2.c:182-186 | the comparison loop is equality of the whole name |
| Ext2Dir.WalkBlock | kernel/fs/ext2.c:174-203 | the record walk terminates with the first entry in use that has the name |
| Ext2Dir.InodeInGroup | kernel/fs/ext2.c:105-118 | inode g * perGroup + i + 1 has mode, size and block numbers of slot i in the table named at byte 8 of the 32-byte descriptor g |
| Ext2Dir.InodesApart | kernel/fs/ext2.c:105-118 | two inodes of one table, or of tables that lie apart, do not overlap |
| Ext2Dir.Lookup | kernel/fs/ext2.c:159-207 | the inode of the first entry of that name among those the driver goes through, or nothing; nothing if the tested bit is clear |
| Ext2Paths.OneContents | kernel/fs/ext2.c:165-205 | the bytes ext2 stores as a directory have one reading as entries |
| Ext2Paths.WholeShown | kernel/fs/ext2.c:123-205 | a directory without holes, within reach of the indirect block, is walked as ext2 stores it; then it has the table it needs |
| Ext2Paths.SmallShown | kernel/fs/ext2.c:123-205 | otherwise the walk of a directory of that size stops at the first hole, or goes on in made-up blocks if and only if that hole is block 12, there is no indirect block and the first word of the disk is not 0 |
| Ext2Paths.CutAlike | kernel/fs/ext2.c:168-205 | searching a part of the entries answers every name alike if and only if it loses no name |
| Ext2Paths.DirectoryAgrees | kernel/fs/ext2.c:159-207 | a directory of at most 12 + block_size / 4 blocks is searched right for every name if and only if no name first comes up behind its first hole, in stored or in made-up blocks |
| Ext2Paths.OtherAgrees | kernel/fs/ext2.c:162 | an inode that is no directory is searched right if and only if the tested bit is clear or no entry in use is found |
| Ext2Paths.ProperAgrees | kernel/fs/ext2.c:159-207 | where the bit means directory, and directories are small and without holes, the driver goes through exactly the stored entries |
| Ext2Paths.LinkIs | kernel/fs/ext2.c:174-203 | a search of the stored entries finds an inode if and only if the first entry in use of that name links to it |
| Ext2Paths.ResolveIsChain | kernel/fs/vfs.c:91-131 | where the searches agree, uncached resolution finds an inode if and only if a chain of ext2 links leads there |
| Ext2Paths.CacheIsDisk | kernel/fs/vfs.c:82-133 | after all histories all paths are answered by the inodes ext2 links lead to if and only if ext2_lookup agrees with ext2 on every inode they reach |
| Ext2Paths.ProperImage | kernel/fs/vfs.c:82-133 | on an image of small directories without holes, and no other inode with their bit, every cached answer is right |
| Ext2Paths.LookupName | kernel/fs/ext2.c:159-210 | the lookup operation searches what the driver goes through; where that agrees with ext2 it answers exactly the links |
| Ext2Images.LongDirectory | kernel/fs/ext2.c:131-138 | for every block size a directory one block beyond the indirect block whose last name is missed |
| Ext2Images.DirectoryReaches | kernel/fs/ext2.c:131-205 | all directories of at most n blocks without holes are walked as they are stored if and only if n is at most 12 + block_size / 4 |
| Ext2Images.SparseDirectory | kernel/fs/ext2.c:131-138 | an image whose root has a hole at block 12 and no indirect block: the driver reads an entry there |
| Ext2Images.SparseMistaken | kernel/fs/vfs.c:82-133 | on that image a path is answered, from any cache, that no links lead to |
| Ext2Images.SocketMistaken | kernel/fs/ext2.c:162 | on that image a name is found in a socket |
| Ext2Images.SecondGroup | kernel/fs/ext2.c:105-118 | an image of two groups: a path through an inode of the second is answered right from any cache |
| LexerModel.Lossless | tools/s-lang/sc.c:216-457 | the token texts joined are the source if and only if it holds no NUL |
| LexerModel.Positions | tools/s-lang/sc.c:199-221 | each token starts after the texts before it and carries the line and column of that prefix |
| LexerModel.LineStep | tools/s-lang/sc.c:199-204 | one character moves line and column as counting line feeds does |
| LexerLaws.Classes | tools/s-lang/sc.c:216-345 | the characters of each class, listed |
| LexerLaws.ScanLaw | tools/s-lang/sc.c:216-457 | which token begins at a place, by its first characters, and where it ends in terms of the characters behind |
| LexerLaws.QuoteLaw | tools/s-lang/sc.c:275-302 | a literal ends behind the first quote with an even number of backslashes before it, or with the source |
| LexerLaws.CommentLaw | tools/s-lang/sc.c:258-272 | a block comment ends behind the first closing mark; without one the last character is left |
| LexerLaws.NumberLaw | tools/s-lang/sc.c:305-345 | a number is 0x and hexadecimal digits, or digits, a dot with digits if there is one, and a suffix, each as long as can be |
| LexerLaws.DotsLaw | tools/s-lang/sc.c:359-372 | the range operators, the longer one first |
| LexerLaws.OperatorLaw | tools/s-lang/sc.c:359-456 | which operator each other pair of characters is |
| LexerLaws.PunctuationLaw | tools/s-lang/sc.c:359-456 | everything else is one character of punctuation |
| Lexer.Cursor.Advance | tools/s-lang/sc.c:199-204 | moves one character and keeps line and column those of the prefix |
| Lexer.Cursor.BlockComment | tools/s-lang/sc.c:258-272 | stops after the closing mark, or before the last byte if there is none |
| Lexer.Cursor.Quoted | tools/s-lang/sc.c:275-302 | stops after the closing quote that no backslash escapes, or at the end |
| Lexer.Cursor.NumberLiteral | tools/s-lang/sc.c:305-345 | hexadecimal digits, or digits with one dot and a suffix |
| Lexer.Cursor.OperatorToken | tools/s-lang/sc.c:359-456 | the longest operator, with its own text |
| Lexer.Cursor.Next | tools/s-lang/sc.c:216-457 | the token at the cursor with its position, and progress; the end mark at the end |
| Lexer.LexAll | tools/s-lang/sc.c:988-992 | the whole token array, lossless if and only if the source holds no NUL |
| TranslatorModel.Chunk | tools/s-lang/sc.c:852-944 | every round of the main loop moves forward and stays inside the token array |
| TranslatorModel.ForRange | tools/s-lang/sc.c:772-848 | a range-for that matches moves forward and stays inside the token array |
| TranslatorProofs.ForRangeIs | tools/s-lang/sc.c:772-816 | the attempt succeeds if and only if a word, in and a range operator on the same line follow |
| TranslatorProofs.RangeForText | tools/s-lang/sc.c:772-848 | a range-for becomes the C loop over the source text of its bounds, with <= for ..= and < for .., and is consumed up to its brace |
| LoopTexts.LoopBodies | tools/s-lang/sc.c:772-848 | from characters to text: `for i in 1..=5 {` becomes `for (int i = 1; i <= 5; i++){` and `for n in 1..8 {` becomes `for (int n = 1; n < 8; n++){` |
| TranslatorProofs.PlainIsIdentity | tools/s-lang/sc.c:852-944 | a NUL-free source of plain tokens is translated to itself |
| TranslatorProofs.ChunkDiffers | tools/s-lang/sc.c:881-942 | any other token except var and a fn with parameters and an arrow comes out changed for good, whatever follows |
| TranslatorProofs.IdentityIffKept | tools/s-lang/sc.c:525-944 | without var and arrowed fn the body is the source if and only if every token is plain or a fn without a name behind exactly one blank |
| TranslatorProofs.IdentityIffPlain | tools/s-lang/sc.c:852-944 | without fn and var the body is the source if and only if every token is plain |
| Declarations.ParamsText | tools/s-lang/sc.c:554-581 | parameters are the source text up to the parenthesis that closes, aliases replaced |
| Declarations.OpenParams | tools/s-lang/sc.c:554-581 | parameters that are never closed reach to the end of the source |
| Declarations.TrimLaw | tools/s-lang/sc.c:614-617 | trimming takes off exactly the blanks and tabs at the end |
| Declarations.FunctionText | tools/s-lang/sc.c:525-629 | fn NAME(PARAMS) -> TYPE becomes TYPE NAME(PARAMS), parentheses balanced, aliases replaced, the blanks behind the type cut off |
| Declarations.ProcedureText | tools/s-lang/sc.c:525-629 | fn NAME(PARAMS) without an arrow becomes void NAME(PARAMS) |
| Declarations.ColonText | tools/s-lang/sc.c:670-769 | let NAME: TYPE and var NAME: TYPE become const TYPE NAME and TYPE NAME |
| Declarations.TypedText | tools/s-lang/sc.c:670-769 | let TYPE and var TYPE not before a colon become const TYPE and TYPE, and the name follows |
| Declarations.AliasTable | tools/s-lang/sc.c:495-511 | the fourteen type aliases, spelled out, and no other |
| Declarations.WordText | tools/s-lang/sc.c:881-942 | a type alias, null and loop become their C words |
| Declarations.UseText | tools/s-lang/sc.c:634-667 | use "HEADER" becomes an include of that text, and what is no header a comment |
| Declarations.AngleUseText | tools/s-lang/sc.c:634-667 | use <HEADER> becomes an include of the text up to the closing bracket or the line end |
| Declarations.OutputText | tools/s-lang/sc.c:972-1036 | the banner spelled out, and the include before the body unless the test finds one |
| HeaderTest.RoundEmits | tools/s-lang/sc.c:852-944 | the text of every round that is reached is in the body |
| HeaderTest.NamesIs | tools/s-lang/sc.c:634-667 | a use is emitted as an include of s.h if and only if it is `"s.h"` or `<s.h>` |
| HeaderTest.TestIsRight | tools/s-lang/sc.c:994-1007 | the test agrees with what is emitted if and only if `use "s.h"` is translated, or lookalikes and angle forms come together or not at all; the angle form is never noticed |
| HeaderTest.UseReached | tools/s-lang/sc.c:852-944 | every use is translated that no fn, let, var, range-for or earlier use on its line can swallow |
| HeaderTest.HarmlessTest | tools/s-lang/sc.c:994-1007 | on sources of such tokens the exact condition, read off the tokens |
| HeaderTest.AngleFormMissed | tools/s-lang/sc.c:994-1007 | `use <s.h>` is emitted and s.h is added all the same |
| HeaderTest.UtilsMistaken | tools/s-lang/sc.c:994-1007 | `use "utils.h"` counts as a use of s.h, which nothing includes |
| TranslatorProofs.PlainOutput | tools/s-lang/sc.c:972-1036 | plain C goes through unchanged below the banner and the include |
| Translator.Pass.CollectParams | tools/s-lang/sc.c:554-581 | the parameter loop, balanced parentheses and aliases included |
| Translator.Pass.TranslateFn | tools/s-lang/sc.c:525-629 | computes the declaration and its position, malformed ones included |
| Translator.Pass.TranslateUse | tools/s-lang/sc.c:634-667 | computes the include line or the fallback comment |
| Translator.Pass.TranslateDeclaration | tools/s-lang/sc.c:670-769 | let and var in both syntaxes, going back when there is no colon |
| Translator.Pass.TryForRange | tools/s-lang/sc.c:772-848 | computes the range-for, or leaves the position where it was |
| Translator.Pass.Round | tools/s-lang/sc.c:853-943 | one round of the loop, with net progress |
| Translator.Pass.Run | tools/s-lang/sc.c:852-944 | terminates with the translation and never leaves the token array |
| Translator.FindInclude | tools/s-lang/sc.c:994-1007 | the scan finds a use whose next token mentions s.h |
| Translator.Transpile | tools/s-lang/sc.c:972-1036 | banner, include unless found, translated body |
| PipeModel.StepKeeps | kernel/ipc/pipe.c:21-71 | every turn of every thread keeps conservation and each thread's own account |
| PipeModel.RunsAreFifo | kernel/ipc/pipe.c:21-71 | over every interleaving delivered then buffered bytes are the accepted ones, per thread in call order, and a read is short only when the write end is closed and the pipe drained |
| PipeModel.OneToOne | kernel/ipc/pipe.c:21-59 | with one writer and one reader, what was read followed by what is buffered is what was written |
| PipeModel.SomebodyMoves | kernel/ipc/pipe.c:28-57 | a reader that wants bytes and a writer that has some are never both stuck |
| PipeModel.WriterWaits | kernel/ipc/pipe.c:41-59 | a writer on a full pipe waits for ever, as long as no read begins, if and only if no reader inside still wants bytes, closed read end or not |
| PipeModel.ClosedWhileWaiting | kernel/ipc/pipe.c:41-59 | one write longer than the pipe and a close by the reader lead to such a state |
| PipeLaws.BeginLaw | kernel/ipc/pipe.c:21-45 | a write begun on a closed read end is refused at once; a read begins in any case |
| PipeLaws.ReadLaw | kernel/ipc/pipe.c:21-39 | a reader takes the oldest bytes, as many as are there and wanted, and returns with all it wants or when the write end is closed |
| PipeLaws.WriteLaw | kernel/ipc/pipe.c:41-59 | a writer puts the next bytes, as many as are left and fit in 4096, and returns when all are written |
| PipeLaws.EndOfFile | kernel/ipc/pipe.c:28-33 | once the write end is closed a reader returns with its next turn, with what it has if the pipe is empty |
| PipeLaws.ReaderWaits | kernel/ipc/pipe.c:28-38 | on an open pipe a reader returns if and only if what it wants is there |
| Pipe.Ring.constructor | kernel/ipc/pipe.c:10-17 | an empty pipe with both ends open |
| Pipe.Ring.Take | kernel/ipc/pipe.c:34-36 | takes the oldest byte and keeps the position invariant |
| Pipe.Ring.Drain | kernel/ipc/pipe.c:28-38 | the loop takes as many bytes as are there and wanted, oldest first, and returns if and only if all were read or the write end is closed; otherwise it yields |
| Pipe.Ring.Put | kernel/ipc/pipe.c:54-56 | adds the newest byte and keeps the position invariant |
| Pipe.Ring.ReadTurn | kernel/ipc/pipe.c:21-39 | the loop up to its return or yield is the model's read turn on the contents |
| Pipe.Ring.WriteTurn | kernel/ipc/pipe.c:41-59 | the loop up to its return or yield is the model's write turn on the contents |
| NumberText.ScanDigits | lib/libflame/string.c:120-131 | scanning the digits of n gives n and their end, unless a digit is above 15, when it stops short |
| NumberText.ReadsBack | lib/libflame/string.c:108-165 | strtol reads all of itoa's text, negatives in other bases as their 32-bit pattern, if and only if no digit is above 15 |
| NumberText.RoundTrip | lib/libflame/string.c:108-165 | strtol returns the number and the terminator if and only if it is non-negative or in base 10 and no digit is above 15; in bases 2 to 16 none is |
| NumberText.Backwards | lib/libflame/string.c:151-159 | the digits, least significant first, fit the 64-byte buffer |
| NumberText.ItoaTo | lib/libflame/string.c:147-165 | the buffer holds the text and its terminator; bad bases give the empty text |
| NumberText.StrtolOf | lib/libflame/string.c:108-135 | blanks, sign, base prefix and digits: value and end position |
| NumberLaws.DigitTable | lib/libflame/string.c:123-128 | the sixteen digits strtol knows, in either case, and no other |
| NumberLaws.StrtolValue | lib/libflame/string.c:108-135 | blanks, sign, prefix and digits: the place value of the digits in the base the prefix says, with the sign, and the place behind them, for every base |
| NumberLaws.DigitsValue | lib/libflame/string.c:154-159 | in every base itoa prints digits below the base with the value of the number and no leading zero |
| NumberLaws.ItoaText | lib/libflame/string.c:147-165 | a sign in base 10 only; elsewhere a negative number is its 32-bit pattern; nothing for a bad base |

## Left out

- `lib/libflame/memory.c`: the same algorithm on arenas that need not be adjacent, so the heap's tiling does not carry over.
- KernelHeap.Allocator.Expand: how many further heap pages alloc_page and map_page can provide is an input; `HeapFrames.ExpandIsGrow` says what it is over the frames and tables, which the bytes of the heap are not joined to.
- KernelHeap.Allocator.Kmalloc: requests above 2^64 - 4128 bytes are excluded from the pointer code, since the rounding wraps there; `HeapModel.ServesIff` covers them on the block list.
- KernelHeap.Allocator.Kzmalloc: the same requests are excluded, for the same reason.
- KernelHeap.Allocator.Krealloc: the same requests are excluded, and the pointer is NULL or live, because the source reads the size of any other block unchecked.
- KernelHeap.Allocator.Kfree: a pointer that is not live although the magic number stands before it is excluded, a second kfree of one block for instance; the source takes it for a live one.
- Pmm.EntryRange: entries that end within a page of 2^64 are excluded, because the sums of the source wrap there.
- Pmm.FrameAllocator.AddEntry: entries that end within a page of 2^64 are excluded, because the sums of the source wrap there.
- Pmm.FrameAllocator.Init: maps with such entries are excluded likewise.
- Paging.PageTables.MapPage: upper-half addresses are excluded, whose tables are the copied boot tables; whether the entries above the last one allow user access is not stated, since an entry that is there keeps its bits.
- Paging.PageTables.UnmapPage: upper-half addresses are excluded, whose tables are the copied boot tables.
- Paging.UserMemory.SysBrk: arguments stay in the lower half, where the tables are the ones the kernel built.
- Paging.UserMemory.SysMmap: protection, flags, descriptor and offset are ignored as in the source; arguments stay in the lower half and do not overflow.
- Scheduler.TaskQueue.Create: the slot is outside the ring, because `alloc_task` may return the idle task; kernel stacks, trampoline and `switch_context` are not modelled.
- Scheduler.TaskQueue.Kill: where it is not safe, what the stores through the null pointer do is not modelled.
- Vfs.Cache.LookupPath: components fit the 256-byte buffer; longer ones overrun it in the source. The mount table is not consulted by the source and not modelled.
- Vfs.Cache.AddChild: components of more than 255 characters are excluded, since they have overrun the buffer before.
- Vfs.Cache.TakeStep: components of more than 255 characters are excluded, since they have overrun the buffer before.
- Ext2Dir.WalkBlock: blocks that are not filled by whole records are excluded, because the source reads past them.
- Ext2Dir.Lookup: the record walk stays within its blocks, that is, blocks are of at most 4096 bytes and the ones the driver takes for allocated are filled by whole records with names free of NUL, because the source reads past them otherwise; the vnode that is built around the inode number, and `ext2_mount`, are not modelled.
- Ext2Paths.LookupName: the record walk stays within its blocks, as for `Ext2Dir.Lookup`.
- Ext2Paths.CacheIsDisk: the record walk stays within its blocks on every inode the links reach; a directory ext2 stores in no whole records has no links.
- Ext2Paths.DirectoryAgrees: directories above 12 + block_size / 4 blocks are excluded, for which `Ext2Images.DirectoryReaches` speaks of all directories of a size and not of one.
- Ext2.ReadInodeData: double and triple indirect blocks are not implemented by the driver; `Ext2.DriverReaches` gives the exact limit.
- Ext2.ReadsAreExt2: files above 12 + block_size / 4 blocks are excluded, for which the driver reads past its table.
- TranslatorProofs.IdentityIffKept: sources with var, or with a fn that has parameters and an arrow, are excluded; what these become is stated in `Declarations`.
- TranslatorProofs.IdentityIffPlain: the case of `TranslatorProofs.IdentityIffKept` without any fn.
- Meaning of the emitted C beyond its text, token allocation, and the compiler invocation.
- Pipe.Ring.ReadTurn: preemption inside a turn is not modelled, and a missing pipe is not.
- PackageDb.DbRead: the file is a parameter, as is the text in the printer; read errors count as an empty text.
- NumberText.ItoaTo: the smallest int in base 10 is excluded, because negating it is undefined in C; so it is from `NumberText.ReadsBack` and `NumberText.RoundTrip`.
- NumberText.StrtolOf: values that do not fit a long are excluded, because signed overflow is undefined in C.
- Drivers, interrupt tables, boot code, desktop, user libraries other than the two functions above, coreutils and the other services.
