# JOS in Dafny

A model of the state-keeping parts of a 64-bit JOS kernel, its user library and its
file server, with proofs of what they promise over every input, every state and
every run.

* **Page tables and reference counts** (`Mmu`, `PageTable`, `PageCounts`, `Pmap`,
  `PmapRuns`).
  Physical memory is a sequence of pages of 512 entries. A ghost map sends every
  table page to its place in the forest of address spaces, which makes aliasing
  impossible to overlook. The class `Pmap` keeps `pp_ref`, `pp_link` and the free
  list in fields and runs the walks, insertion and removal on them.
* **Copy-on-write fork** (`Cow`, `CowShared`, `CowRuns`). Every system call, store
  and copied byte of every environment is a step, failed calls and exits included;
  the steps of all environments interleave freely. The machine is proved to refine
  one in which each environment owns its private memory and a fork copies it, and
  shared pages are objects that environments are given.
* **The file system** (`FileTree`, `FileSys`, `BlockCache`, `FileServer`). Files are
  trees of block numbers inside blocks. A ghost map names the one slot that holds
  each block; a ghost log holds the bytes written and not truncated since. The class
  `Server` puts the files on the block cache and follows what has reached the disk.
* **Environments, scheduling and messages** (`EnvId`, `Sched`, `Exclusion`,
  `Kernel`, `KernelRuns`, `KernelTraces`, `KernelWaits`). The class `Kernel` runs
  traps on several processors under the kernel lock. What each event does to the
  whole state is a function on values, and what it keeps or breaks are lemmas about
  that function; what holds from step to step of a run is in `KernelTraces`.
* **Pipes** (`Pipe`, `PipeEof`, `PipeEofRuns`). Two step machines: the ring buffer,
  and the end-of-file test by reference counts.
* **User allocation and program start** (`Heap`, `Malloc`, `HeapAccounts`,
  `Arguments`, `Spawn`).

Functions that the source runs one at a time on state in place are methods of
classes. `fork.c`, `pipe.c` and the parts of `fd.c` used here are step machines on
values, because what matters about them is how their single steps interleave with
those of other environments.

The error constants, the page size and the top of user memory are in `Common`;
bytes and little-endian words are in `Bytes`.

## Where the code departs from its comments

The code is what is modelled. Each departure has a lemma or a clause that says
exactly when it matters.

* `page_lookup` reports page 0 for a clear entry, so `page_remove` at such an
  address takes a count from page 0 (`Pmap.Pmap.PageRemove`, `PageCounts.ClearZero`).
  `PmapRuns.PageZeroFreed` is a run that ends with page 0 mapped and free.
* `pp_ref` is 16 bits wide; insertion keeps the counts exactly if it does not wrap
  (`PageCounts.ReplaceConsistent`).
* `sys_page_map` accepts an unmapped source address whose page table exists and
  maps page 0 there; its permission checks are commented out, and bits of the
  permission argument above the twelve flags are or-ed into the frame number
  (`Pmap.Pmap.SysPageMap`, `Pmap.PermChangesFrame`).
* fork ignores what `duppage` and the allocation of the child's exception stack
  return, so the child can run without pages of its parent
  (`Cow.ForkCopiesExactly`, `CowRuns.PageLost`, `CowRuns.StackLost`).
* A page that is already copy-on-write is copied as of the first of duppage's two
  calls, not the second (`Cow.CowCopiedAtStart`, `Cow.LateWriteNotCopied`,
  `CowRuns.LateWriteReached`).
* `file_get_block` does not clear a new block, so bytes that were never written are
  not specified.
* `sched_yield` reads past the table exactly when it starts from the last slot
  (`Sched.InBoundsExactly`).
* After an exit `sched_yield` starts again from slot 2. Between exits no environment
  waits longer than its distance in the round (`KernelTraces.RunsInTime`); with a
  parent that forks children which exit, one in a higher slot can wait for ever
  (`KernelWaits.Starves`).
* `sys_env_set_status` and a second destroy can act on an environment that runs
  elsewhere; the kernel's invariant survives exactly the calls that do not
  (`Kernel.Kernel.Trap`). Such a call puts an environment on two processors exactly
  if the next decision elsewhere finds it first (`Exclusion.DoublesExactly`), and
  `KernelRuns.TwoProcessors` is a run from boot in which it does.
* fork maps descriptor pages before pipe pages, so the end-of-file test can be
  wrong while a fork is under way (`PipeEofRuns.UnsoundDuringFork`), and a fork that
  loses a descriptor page makes it miss the end for good
  (`PipeEofRuns.InexactAfterLoss`); the exact condition is `PipeEof.EofExactly`.
* Pipe positions are signed 32-bit numbers. When one only has passed 2^31 their
  difference is negative (`Pipe.Fifo`, `Pipe.DifferenceWraps`), and after 2^31 + 1
  bytes the writer stores in front of the buffer (`Pipe.StoresOutside`).
* `malloc` searches past the end of the heap when the open page is the last one
  (`Malloc.Allocator.Malloc`), and `Malloc.Allocator.FillHeap` is a run to that
  point. A size that fills whole pages leaves one reference behind, and an empty
  request one or two, so those pages are never unmapped (`HeapAccounts.MappedExactly`,
  `HeapAccounts.PageLeaks`).
* `init_stack` compares wrapped addresses and computes the size of the pointer array
  as an int, so arguments of more than 4 MB pass its test, and from 2^28 - 1
  arguments on the size is misjudged (`Spawn.Loader.InitStack`). It puts argc below
  argv, the other way round from its comment.

## Model

| member | source | states |
|---|---|---|
| Mmu.SplitRebuild | lab/inc/mmu.h:30-50 | The four table indexes and the offset of a 48-bit address rebuild exactly that address. |
| Mmu.RebuildSplit | lab/inc/mmu.h:30-50 | An address built from five fields splits into the same five fields. |
| Mmu.FromIntExactly | lab/inc/mmu.h:70-87 | The flags and the frame bits taken from a permission argument are that int, its sign extended to 64 bits, with PTE_P, PTE_W and PTE_U its lowest three bits. |
| PageTable.SlotDeterminesPage | lab/kern/pmap.c:437-554 | Two user addresses meet in the same slot of the same page table exactly if they are on the same page of the same address space. |
| PageTable.SetLeaf | lab/kern/pmap.c:606-636 | Writing one page-table entry changes the translation of that one page of one address space and no other, in any address space. |
| PageTable.Link | lab/kern/pmap.c:437-457 | Hanging a cleared page into an empty upper slot keeps the address spaces an unaliased forest. |
| PageTable.LinkTranslate | lab/kern/pmap.c:437-457 | Creating a table changes no translation anywhere. |
| PageTable.NewRoot | lab/kern/env.c:182-260 | A cleared page becomes the root of a new address space without disturbing the forest. |
| PageCounts.ReplaceConsistent | lab/kern/pmap.c:606-636 | After one entry is redirected, with the old page's count dropped and the new one's raised, every count is exact again if and only if the raised count does not wrap at 16 bits and no page outside the books is freed. |
| PageCounts.ClearConsistent | lab/kern/pmap.c:681-692 | Clearing an entry and dropping a count keeps all counts exact if and only if no page outside the books is freed by it. |
| PageCounts.ClearZero | lab/kern/pmap.c:656-657 | Clearing an entry that is already clear takes a count from page 0 and is harmless exactly as long as that count is not 1. |
| PageCounts.Reperm | lab/kern/pmap.c:621-635 | Inserting the same page again with other permissions leaves every count as it is. |
| PageCounts.MisnamedConsistent | lab/kern/pmap.c:620-633 | When permission bits change the frame number, the books are kept exactly if neither the page counted nor the page named is in them and the latter exists. |
| Mmu.OrKeeps | lab/kern/pmap.c:633 | Or-ing a word into a frame number leaves it as it is exactly if the word's bits are contained in it. |
| Mmu.OrBit | lab/kern/pmap.c:633 | A bit of the result is set exactly if it is set in one of the two numbers. |
| Pmap.Pmap.constructor | lab/kern/pmap.c:300-335 | Puts every page that is not in use on the free list, once, in descending order, with all counts 0, and establishes the invariant, conservation included, for memory of any contents. |
| Pmap.Pmap.PageAlloc | lab/kern/pmap.c:348-365 | Takes the first page off the free list, or reports that it is empty; keeps the counts and the acyclic, duplicate-free list. |
| Pmap.Pmap.PageFree | lab/kern/pmap.c:381-398 | Puts a page of count 0 that is not on the list at its front and changes nothing in any other case. |
| Pmap.Pmap.PageDecref | lab/kern/pmap.c:404-409 | Drops a count modulo 2^16 and frees the page exactly when it reaches 0. |
| Pmap.Pmap.AddTable | lab/kern/pmap.c:437-457 | Takes the first free page as a new table, or changes nothing when there is none; keeps forest, counts and free list. |
| Pmap.Pmap.DropTable | lab/kern/pmap.c:462-466 | Undoes AddTable: the state before it, with the page at the front of the free list again. |
| Pmap.Pmap.Find | lab/kern/pmap.c:437-554 | The walk without create returns the table that the translation uses, or NULL exactly when there is none. |
| Pmap.Pmap.Walk | lab/kern/pmap.c:437-554 | The creating walk succeeds exactly if the free list has as many pages as tables are missing; then it took just those and changed no translation; on failure every entry, every count and the order of the free list are as before. |
| Pmap.Pmap.PageLookup | lab/kern/pmap.c:649-664 | Returns the page that the address translates to whenever its page table exists. |
| Pmap.Pmap.PageInsert | lab/kern/pmap.c:606-636 | Success changes the translation of exactly one page of one address space; the missing tables leave the front of the free list and no other page but the entry's table is written; the counts move from the old page to the new, and the old page is freed with its last count; failure restores everything, list order included; the entry names the page given exactly if the high permission bits are contained in its number; says exactly when the counts stay exact. |
| Pmap.Pmap.PageRemove | lab/kern/pmap.c:681-692 | Unmaps exactly one page of one address space; at an unmapped address it does nothing if and only if there is no page table; says exactly when the counts stay exact. |
| Pmap.Pmap.SysPageAlloc | lab/kern/syscall.c:225-267 | Error codes for exactly the unknown environment, the bad addresses and permissions and the shortages; a failed call gives its page back and restores the free list; a successful one clears the first free page and maps it at that address only, with every count and the rest of the free list accounted for. |
| Pmap.Pmap.SysPageMap | lab/kern/syscall.c:285-339 | Error codes for exactly the bad arguments and shortages, for every int of permissions; success changes the target address only, which then names the source's page exactly if the permission's high bits are contained in its number, with every count and the free list accounted for; says exactly when the counts stay exact. |
| Pmap.PermChangesFrame | lab/kern/syscall.c:322-330 | With permissions 0x2007 a mapping of frame 5 names frame 7. |
| Pmap.AllowedExactly | lab/kern/syscall.c:250-252 | sys_page_alloc accepts exactly the ints with PTE_U and PTE_P and, of the other bits, only PTE_W and PTE_AVAIL. |
| Pmap.DataStays | lab/kern/syscall.c:225-339 | No call of a run on page tables changes the contents of a page that is in use and not a table, or makes a table of it. |
| Pmap.MoveConserves | lab/kern/pmap.c:606-636 | Moving a count from one page to another, after tables were taken, leaves every page outside the kernel's free, counted or lost. |
| Pmap.AllocConserves | lab/kern/syscall.c:225-267 | sys_page_alloc conserves pages in this sense. |
| Pmap.MapConserves | lab/kern/syscall.c:285-339 | sys_page_map conserves pages in this sense when the word of permissions does no harm. |
| Pmap.RemoveConserves | lab/kern/pmap.c:681-692 | page_remove conserves pages, whichever page the entry names. |
| Pmap.SpaceConserves | lab/kern/env.c:182-260 | A new address space conserves pages. |
| PmapRuns.PageZeroFreed | lab/kern/pmap.c:649-692 | A run from page_init, for memory of any contents, of env_setup_vm, two sys_page_alloc, one sys_page_map and one page_remove, after which page 0 heads the free list and is mapped writable in user memory. |
| Pmap.Pmap.Perform | lab/kern/syscall.c:225-339 | Every system call on page tables whose stated condition holds has exactly its effect on translations, counts and free list, keeps the invariant and the address spaces, and loses no page but those of a failed env_setup_vm. |
| Pmap.Pmap.Run | lab/kern/pmap.c:348-692 | In every state of every run of such calls in any number of address spaces, each state following from the one before by its call: the tables are an unaliased forest, every count outside the kernel's pages is exact, the free list is a duplicate-free chain of pages of count 0, and every page outside the kernel's is free, counted, or lost by a failed env_setup_vm. |
| Pmap.Pmap.EnvSetupVm | lab/kern/env.c:182-260 | Needs three pages, or fails with no count and no translation changed and the pages it took lost; success gives the contents of the three pages, the kernel's directory and the self-map among them, and keeps the invariant with the new address space added. |
| Pmap.SpaceConsistent | lab/kern/env.c:182-260 | The three pages of a new address space, with the kernel's entries and the self-map in them, keep forest and counts. |
| Pmap.SpaceTranslate | lab/kern/env.c:182-260 | The new address space is empty below UTOP and no other changes. |
| Pmap.SpaceRoots | lab/kern/env.c:182-260 | Existing address spaces stay address spaces. |
| Cow.StepInv | lab/lib/fork.c:14-231 | Every step of every environment, failed calls and exits included, keeps the sharing discipline: a privately writable page has a second mapper only inside the fault handler or between the two calls of duppage. |
| Cow.StepRefines | lab/lib/fork.c:14-231 | Every step of the sharing machine matches one step of the machine with private memories, after which both read alike. |
| Cow.CowRefinesEager | lab/lib/fork.c:14-231 | Over every run with any number of environments and any interleaving, every running environment reads from each private page what it would read if nothing were ever shared. |
| Cow.StartGood | lab/lib/fork.c:161-231 | A machine with one environment and nothing mapped is a start for such runs. |
| Cow.NoOtherMapper | lab/lib/fork.c:48-59 | Outside the handler and duppage nobody else maps a page that a running environment may write privately. |
| Cow.ForkCopiesExactly | lab/lib/fork.c:161-231 | When fork makes the child runnable, the child maps a page from UTEXT to the stack exactly if the parent does and duppage did not fail for it: by the same entry if it is shared or nobody may write it, else copy-on-write; it has an exception stack exactly if there was a page for it. |
| Cow.EntriesExactly | lab/lib/fork.c:14-231 | A step changes no page table but the caller's and that of the child it is building; sys_page_alloc, sys_page_map and sys_page_unmap give exactly the entries asked for. |
| CowShared.StepMatches | lab/lib/fork.c:87-103 | Every step matches one on shared objects: fork gives the child what the parent has at the same address, sys_page_map another address of the same object, and a store is seen by all who have it. |
| CowShared.SharedRefines | lab/lib/fork.c:14-231 | Over every run, the shared pages of every environment are the objects it was given, and it reads from them what was last written there by anyone. |
| CowShared.StartMatches | lab/lib/fork.c:161-231 | A machine with nothing mapped is a start for such runs. |
| CowRuns.PageLost | lab/lib/fork.c:186-201 | A run from the start in which fork succeeds and the child lacks a page of its parent, because the result of duppage is ignored. |
| CowRuns.StackLost | lab/lib/fork.c:186 | A run in which the child starts without an exception stack, so that none of its write faults can be served. |
| Cow.WritableCopiedAtEnd | lab/lib/fork.c:75-118 | A page that was writable when duppage began is copied as it is when duppage ends. |
| Cow.CowCopiedAtStart | lab/lib/fork.c:75-118 | A page that was already copy-on-write is copied as it was at duppage's first call, whatever happens before the second. |
| Cow.LateWriteNotCopied | lab/lib/fork.c:75-118 | So a write by the parent between the two calls shows in the parent and not in the child. |
| CowRuns.LateWriteReached | lab/lib/fork.c:75-118 | A run from the start, through a whole fork and a write fault in the middle of a second, that leads to such a write. |
| FileTree.NoSharing | lab/fs/fs.c:185-261 | No two direct, indirect or indirect-entry pointers of any files hold the same block, and every one held is in range and in use. |
| FileTree.BlocksExactly | lab/fs/fs.c:508-509 | The number of blocks for a size counts exactly the blocks that hold bytes below it. |
| FileTree.TruncationAccounts | lab/fs/fs.c:502-531 | Truncation adds to the free blocks exactly the blocks past the new end, and the indirect block when it is no longer needed, and leaves no pointer beyond the size. |
| FileTree.RemoveAccounts | lab/fs/fs.c:556-571 | Removing a file clears all its pointers and adds exactly the blocks it owned to the free ones. |
| FileSys.FileSystem.constructor | lab/fs/fs.c:121-141 | A disk whose bitmap has exactly the reserved blocks in use, with empty files, meets every invariant. |
| FileSys.FileSystem.AllocBlock | lab/fs/fs.c:96-115 | Takes the lowest free block, or fails exactly when there is none. |
| FileSys.FileSystem.FileBlockWalk | lab/fs/fs.c:185-221 | Each error code for exactly its condition; no stored byte of any file and no other pointer changes. |
| FileSys.FileSystem.FileGetBlock | lab/fs/fs.c:232-261 | Returns the block of that entry, one of ten in the file or a word of its indirect block, owned by it alone, exactly if the entry is in range and the free blocks cover the missing block and a missing indirect block; takes exactly those; stored bytes of every file and all other entries stay. |
| FileSys.FileSystem.FileRead | lab/fs/fs.c:424-446 | Succeeds exactly if the range is within a file's reach and the free blocks cover what is missing in it, so always where every byte was written; returns as many bytes as asked for or all up to the end of the file, the stored ones, equal to every earlier write not truncated since; stores nothing over anything. |
| FileSys.FileSystem.FileWrite | lab/fs/fs.c:452-474 | Succeeds exactly if the range is within a file's reach and the free blocks cover what is missing in it; then stores exactly these bytes at exactly these positions of this file, across block and direct/indirect boundaries, and touches no other file; failure leaves a first part of them; the size becomes the maximum of old size and end of write. |
| FileSys.FileSystem.WriteThenRead | lab/fs/fs.c:424-474 | What a successful write stored is what a read there returns first, and a read of just that range succeeds. |
| FileSys.AvailableExactly | lab/fs/fs.c:424-474 | A range can be had exactly if it ends within 1034 blocks and the free blocks are at least the blocks of it that do not exist, and one more if it goes past the tenth and there is no indirect block. |
| FileSys.StoredAvailable | lab/fs/fs.c:424-446 | A range of stored bytes needs no free block and is within a file's reach. |
| FileSys.NeedsStep | lab/fs/fs.c:452-474 | Making one entry present leaves exactly the rest of what the range needs. |
| FileSys.FileSystem.FileFreeBlock | lab/fs/fs.c:478-491 | Frees the block of one entry and clears the entry, or changes nothing when there is none. |
| FileSys.FileSystem.FileTruncateBlocks | lab/fs/fs.c:502-519 | Clears and frees exactly the entries from the new number of blocks up to the old, and the indirect block when at most ten remain; all earlier pointers stay. |
| FileSys.FileSystem.FileSetSize | lab/fs/fs.c:522-531 | Growing stores nothing; shrinking forgets exactly the bytes past the new size and grows the free count by exactly the number of blocks taken away. |
| FileSys.FileSystem.FileRemove | lab/fs/fs.c:556-571 | Leaves the file empty, gives back every block it owned, and changes no other file. |
| BlockCache.AddrRoundTrip | lab/fs/bc.c:5-11 | Every address inside a block's page leads back to the block, on every disk that fits the map region. |
| BlockCache.Cache.constructor | lab/fs/bc.c:133-139 | With nothing mapped, the cache agrees with any disk. |
| BlockCache.Cache.Fault | lab/fs/bc.c:37-74 | Brings in exactly the faulting block, changes no block's logical contents, and panics exactly for addresses off the disk and for free blocks. |
| BlockCache.Cache.Store | lab/fs/bc.c:26-33 | A store changes the logical contents of that byte only and marks the block. |
| BlockCache.Cache.Load | lab/fs/bc.c:20-26 | A load sees the logical contents and changes none, though it marks the block accessed. |
| BlockCache.Cache.FlushBlock | lab/fs/bc.c:83-101 | Changes no logical contents; afterwards the block is on disk as its readers see it and is clean; no other disk block changes. |
| BlockCache.Cache.FsSync | lab/fs/fs.c:574-580 | Afterwards every block from 1 on is on disk as its readers see it, with nothing dirty. |
| BlockCache.Cache.Unmap | lab/fs/bc.c:118-121 | Unmapping keeps a block's contents exactly if memory and disk agree, which a clear dirty bit guarantees. |
| FileServer.SavedDurable | lab/fs/fs.c:535-553 | A file whose data blocks and indirect block are on disk reads from the disk as from memory, by way of the pointers on disk. |
| FileServer.SafeBesideChange | lab/fs/fs.c:424-571 | A change of one file in memory leaves another that is wholly on disk so. |
| FileServer.SafeBesideFlush | lab/fs/fs.c:535-553 | So does the flush of one file, since no block on the other's path is written by it. |
| FileServer.SafeLogOnDisk | lab/fs/serv.c:174-325 | Every byte written to a file and not cut off since is on disk once the file was flushed after its last change. |
| FileServer.WrittenStays | lab/fs/serv.c:174-325 | Over every run of requests, a byte that a successful write put into a file is there, in memory and, once the file was flushed after its last change, on disk, until a request writes there again or cuts the file off before it. |
| FileServer.Server.constructor | lab/fs/fs.c:121-167 | A server over any disk of empty files, with nothing mapped, shows the disk's contents. |
| FileServer.Server.FileFlush | lab/fs/fs.c:535-553 | Puts the file on disk up to its size, pointers of the indirect block included, changes no file in memory, and writes no block of any other file. |
| FileServer.Server.Sync | lab/fs/fs.c:574-580 | Puts every file on disk, so every byte written and not cut off since. |
| FileServer.Server.WriteAndFlush | lab/fs/serv.c:238-292 | A write that succeeds, followed by a flush, leaves exactly its bytes at its positions on disk, across block and direct/indirect boundaries. |
| FileServer.Server.Perform | lab/fs/serv.c:174-325 | Each request has its exact effect on files, log and disk; those that change a file write nothing to disk, and those that write to disk change no file. |
| FileServer.Server.Serve | lab/fs/serv.c:174-325 | Over every run of requests, a file once flushed or synced stays on disk byte for byte until a request changes it. |
| EnvId.NthForm | lab/kern/env.c:284-288 | The ids of a slot in closed form over all allocations, 32-bit wrap included: positive, carrying the slot, in a cycle of 2^19 - 1 generations. |
| EnvId.SameIdExactly | lab/kern/env.c:284-288 | Two environments of one slot get the same id exactly if a multiple of 2^19 - 1 allocations lies between them. |
| EnvId.SlotsDiffer | lab/inc/env.h:29-31 | Ids of different slots never coincide. |
| Sched.Choose | lab/kern/sched.c:9-85 | Picks the first runnable non-idle slot going round from the current one, else the current environment if it still runs, else the idle one, else the monitor. |
| Sched.InBoundsExactly | lab/kern/sched.c:33-56 | The search stays inside the table exactly if the current slot is not the last. |
| Sched.RunsSomethingExactly | lab/kern/sched.c:33-83 | A runnable environment is chosen exactly if there is one outside the slot where the search starts. |
| Sched.NearestRuns | lab/kern/sched.c:33-56 | Of the runnable environments, the idle ones and the current slot apart, the nearest ahead is run; without a current one the search starts from slot 1. |
| Sched.FallsBack | lab/kern/sched.c:58-83 | With none of them, the current environment goes on if it still runs, else the processor's idle one runs if it can and there is anything to wait for, else the monitor is entered. |
| Sched.BoundedWaiting | lab/kern/sched.c:33-56 | An environment that stays runnable is chosen within as many decisions as its circular distance, at most 1023. |
| Exclusion.OneCpuPerEnv | lab/kern/env.c:604-640 | Under the invariant no environment is current on two processors and a running one is current on one. |
| Exclusion.ChosenIsFree | lab/kern/sched.c:33-83 | What the scheduler chooses is never current on another processor. |
| Exclusion.RunRestores | lab/kern/env.c:604-640 | Running such a choice on the way out of the kernel restores exclusion. |
| Exclusion.GoesOnExactly | lab/kern/sched.c:33-83 | Inside the kernel a decision runs something exactly if it does not start from the last slot and the current environment still runs or some other, not idle, could; the panic for want of an idle environment never happens. |
| Exclusion.StaysBroken | lab/kern/env.c:604-640 | An environment current elsewhere without being claimed breaks the invariant whatever runs next. |
| Exclusion.DoublesExactly | lab/kern/sched.c:33-83 | When an environment loses its claim while a processor runs it, the next decision of another processor puts it on two exactly if it is then runnable and the first such slot in the round. |
| Kernel.StaleIdsRejected | lab/kern/env.c:79-116 | An id handed out earlier resolves to the slot's present environment exactly if that exists and the ids have come full circle; otherwise it is refused. |
| Kernel.LiveIdsDiffer | lab/kern/env.c:284-288 | Live environments have different positive ids that carry their slots. |
| Kernel.SoundMeans | lab/kern/trap.c:343-409 | The invariant means that no environment is current on two processors and every receiver has seen what was sent to it, in order, up to one message it has not read. |
| Kernel.ReturnsExactly | lab/kern/trap.c:405-409 | The way out of the kernel leads to user mode exactly if the current environment still runs and need not yield, or the scheduler has something to run. |
| Kernel.ReceiveHarms | lab/kern/syscall.c:477-500 | A receive over an unread message, or by an idle environment, leaves a state without the invariant, whatever runs next. |
| Kernel.SetStatusHarms | lab/kern/syscall.c:120-147 | So does a change of status of an environment that runs elsewhere, one that wakes another out of a receive, and one by which an idle environment stops itself. |
| Kernel.DestroyHarms | lab/kern/env.c:556-572 | So does the second destroy of an environment that another processor still runs, and the exit of an idle one. |
| Kernel.Kernel.constructor | lab/kern/env.c:124-148 | The initial table, with the eight idle environments and all other slots on the free list in order, meets every invariant. |
| Kernel.Kernel.EnvCreate | lab/kern/env.c:460-478 | Gives the first free slot to a runnable environment of the type without a parent, and changes no other; fails, with nothing changed, exactly for want of a slot or of memory. |
| KernelRuns.Boot | lab/kern/init.c:58-110 | From boot, with a file server created, every processor starts: the first runs the file server, the others idle. |
| Kernel.Kernel.Start | lab/kern/sched.c:9-85 | The first decision of a processor: exactly what the scheduler chooses, running something exactly if there is something to run, with every invariant kept. |
| Kernel.Kernel.EnvFree | lab/kern/env.c:481-545 | The slot goes to the front of the free list, and ids and free list stay in order. |
| Kernel.Kernel.EnvAlloc | lab/kern/env.c:270-334 | Takes the first free slot and gives it the next id of its cycle, or changes nothing. |
| Kernel.Kernel.SysExofork | lab/kern/syscall.c:79-111 | The child is a user environment of the caller, not runnable, in the first free slot, its id resolves to it, and no other environment changes; fails, with nothing changed, exactly for want of a slot or of memory. |
| Kernel.Kernel.SysEnvSetStatus | lab/kern/syscall.c:120-147 | Error codes for exactly their conditions; changes one status; keeps the invariants when the target neither runs elsewhere nor is woken out of a receive nor is an idle environment that stops itself. |
| Kernel.Kernel.SysIpcRecv | lab/kern/syscall.c:477-500 | Refuses a page address below UTOP that is not aligned; otherwise the caller waits with an empty mailbox and cannot run; the invariants are kept when it had fetched its last message. |
| Kernel.Kernel.SysIpcTrySend | lab/kern/syscall.c:409-464 | -E_BAD_ENV exactly for an id that no environment has and -E_IPC_NOT_RECV exactly for one that does not wait, with nothing changed; else the receiver's mailbox holds the caller's id and the value, it is runnable and waits no more, the message is recorded once, and no other environment changes. |
| Kernel.Kernel.SysEnvDestroy | lab/kern/env.c:556-572 | -E_BAD_ENV exactly for an id that is neither the caller's nor a child's; marks an environment that runs elsewhere; frees any other, which then heads the free list and whose id resolves no more. |
| Kernel.Kernel.Reschedule | lab/kern/sched.c:9-85 | Runs exactly what the scheduler chooses; entered with the invariants that hold inside the kernel, it runs something exactly if there is something to run, and then leaves with all of them. |
| Kernel.Kernel.Collect | lab/kern/trap.c:372-377 | A dying environment that traps is freed, its processor is left without a current one and makes a new choice from there, running something exactly if there is something to run, with every invariant kept. |
| Kernel.Kernel.Dispatch | lab/kern/trap.c:258-340 | The exact effect of one system call or interrupt and of the decision after it, with Trap's two conditions. |
| Kernel.Kernel.Leave | lab/kern/trap.c:405-409 | Goes back to the current environment exactly if it still runs, else to what the scheduler chooses; restores exclusion. |
| Kernel.Kernel.Trap | lab/kern/trap.c:343-409 | From taking the lock to giving it back: the exact effect of the event on the whole state, then the way out, by the scheduler after an interrupt or yield and to the caller after a send or exofork; after a harmless call the kernel runs something exactly if there is something to run; whenever it does, the invariant holds again if and only if the call was not one that acts on an environment running elsewhere or woken out of a receive, nor a receive over an unread message, nor stops an idle environment; a send delivers as SysIpcTrySend says. |
| KernelRuns.TwoProcessors | lab/kern/syscall.c:138-142 | A run from boot in which a parent sets its running child runnable and at the next interrupt both processors run the child. |
| Kernel.Kernel.Fetch | lab/lib/ipc.c:22-51 | The receiver reads exactly the last message sent to it, after which it has seen all of them in order; nothing else changes. |
| Kernel.Kernel.Perform | lab/kern/trap.c:343-409 | One step of a script has exactly its effect, and the kernel goes on exactly if there is something to run. |
| Kernel.Kernel.Execute | lab/kern/trap.c:343-409 | Over every run of creations, starts, harmless traps and fetches on any number of processors, each state following from the one before by its step: no environment is current twice, what a receiver has seen is what was sent to it, in order, none lost, at most one still to be read; the run stops early exactly after a step that leaves a processor with nothing to run. |
| Kernel.Kernel.BootAndExecute | lab/kern/init.c:58-110 | The same for every run from boot. |
| KernelTraces.CanRunExactly | lab/kern/trap.c:343-409 | An environment that is runnable or running is so after any step of any processor, exactly unless the step is its own receive, or sets it not runnable, or destroys it. |
| KernelTraces.SwitchExactly | lab/kern/env.c:604-640 | A trap that goes back to user mode leaves the chosen environment running, here, once more than before, the preempted one runnable, and changes no environment but these and the one the call is about. |
| KernelTraces.StepKeeps | lab/kern/trap.c:343-409 | Every step after which the kernel goes on keeps the invariant. |
| KernelTraces.RunsInTime | lab/kern/sched.c:33-56 | Over every run on any number of processors, a runnable environment that no step stops runs before a processor has come to the scheduler as often as its slot is ahead there, at most 1023 times, as long as nobody exits on that processor. |
| KernelWaits.Starves | lab/kern/sched.c:33-56 | For every n a run from boot in which the only processor comes to the scheduler 2n times, with an exit every other time, and an environment that is runnable all the time never runs. |
| KernelTraces.SentExactly | lab/kern/syscall.c:409-464 | Over every run from boot, the messages on record for a slot are exactly the caller's id and value of each send of the script that found it waiting, in order, since the slot was last taken. |
| KernelTraces.FetchedExactly | lab/lib/ipc.c:22-51 | So what an environment has fetched is a prefix of what the steps of the run sent to it, all but at most one message that it has not read. |
| Pipe.StepKeeps | lab/lib/pipe.c:104-172 | Every single test, access and increment of either side keeps the ring's invariant. |
| Pipe.Fifo | lab/lib/pipe.c:104-172 | In every interleaving, of any length, the bytes read are a prefix of the bytes written and at most 32 are between; the difference of the positions is between 0 and 32 exactly unless one only has passed 2^31; no access leaves the buffer but the writer's after 2^31 + 1 bytes. |
| Pipe.FullExactly | lab/lib/pipe.c:153-164 | The writer is held up exactly by 32 unread bytes, or while it alone has passed 2^31. |
| Pipe.AllRead | lab/lib/pipe.c:104-172 | For every number of bytes up to 2^31 + 1 some run has written and read that many. |
| Pipe.DifferenceWraps | lab/lib/pipe.c:117-157 | A run in which the difference of the positions is negative. |
| Pipe.StoresOutside | lab/lib/pipe.c:167-168 | A run in which the writer stores in front of the buffer. |
| Pipe.Progress | lab/lib/pipe.c:104-172 | A reader with bytes before it and a writer with room each finish in three moves of their own. |
| PipeEof.StepKeeps | lab/lib/fd.c:100-202 | Every system call of dup, close and fork, failed ones included, and every read of a count keeps the invariant that an open descriptor has its data page mapped, a fork's unborn child excepted. |
| PipeEof.EndsExactly | lab/lib/fd.c:174-202 | No open descriptor ever changes its end, and one that dup or fork opens stands for the end of the descriptor it duplicates. |
| PipeEof.CountsCover | lab/lib/pipe.c:75-89 | Between forks the pipe page is mapped as often as both descriptor pages together and once more for each data page without a descriptor; when nobody is inside dup or close those are exactly the ones that forks lost. |
| PipeEof.EofSound | lab/lib/pipe.c:75-89 | Between forks, an answer "closed" with unchanged env_runs means that the other end has no open descriptor; in quiet states it is given exactly if moreover no fork has lost a descriptor page. |
| PipeEof.EofExactly | lab/lib/pipe.c:75-89 | In every state the answer is "closed" exactly when descriptors inherited without their data page number as many as the other end's open ones and the data pages in transit together. |
| PipeEof.EofSoundOnRuns | lab/lib/pipe.c:75-89 | The soundness over every run from pipe() on. |
| PipeEofRuns.UnsoundDuringFork | lab/lib/fork.c:187-199 | A run from pipe() in which a writer is told that the reader has gone while two readers are open, because a fork is half done. |
| PipeEofRuns.InexactAfterLoss | lab/lib/fork.c:187-201 | A run from pipe() in which a fork loses a descriptor page and a writer is never told that the last reader has gone. |
| Heap.Safety | lab/lib/malloc.c:41-139 | Live chunks lie in mapped heap pages, before the reference word of their last page, and share no address. |
| Heap.FreeKeeps | lab/lib/malloc.c:114-139 | Freeing a chunk keeps this for all others: a page's counter is at least its live chunks plus the open pointer, so no page in use is unmapped. |
| Heap.MoveOnKeeps | lab/lib/malloc.c:71-75 | Giving up the open page drops only the pointer's own reference. |
| Heap.SmallKeeps | lab/lib/malloc.c:57-70 | A chunk carved from the open page overlaps no other chunk and not the reference word. |
| Heap.BigKeeps | lab/lib/malloc.c:93-111 | A chunk in new pages keeps the invariant, its continued pages used by nothing else. |
| Malloc.NothingBeyondEnd | lab/lib/malloc.c:84-91 | Past the end of the heap no address is free and the wrapping test is never met. |
| Malloc.Allocator.constructor | lab/lib/malloc.c:25-27 | The allocator before its first call meets the invariant, with nothing mapped and nothing live. |
| Malloc.Allocator.IsFree | lab/lib/malloc.c:29-39 | True exactly if every page of the run lies below the end and is unmapped. |
| Malloc.Allocator.Release | lab/lib/malloc.c:114-139 | Unmaps the pages that continue a chunk and drops one reference of its last page, which goes only with the last reference. |
| Malloc.Allocator.Unwind | lab/lib/malloc.c:97-101 | After a shortage the mapped pages are those from before. |
| Malloc.Allocator.Search | lab/lib/malloc.c:83-91 | Finds the first room going round from the pointer, or there is no page boundary in the whole heap with room. |
| Malloc.Allocator.MapRun | lab/lib/malloc.c:93-108 | Maps all pages of a run with its reference word, or none, exactly by whether as many sys_page_alloc calls succeed. |
| Malloc.Allocator.Malloc | lab/lib/malloc.c:41-112 | A new chunk of at least the bytes asked for and fewer than four more, from the open page if it fits, else at the first room going round, beside all live ones; refused exactly for a size over the limit, or when it does not fit the open page and memory or room is short; leaves the heap exactly when the open page is the last and too full; in every case the mapped pages and counters are those stated. |
| Malloc.Allocator.Free | lab/lib/malloc.c:114-139 | Removes exactly that chunk from the live ones, unmaps the pages that continue it and drops one reference of its last page, which goes only with the last; keeps the rest safe. |
| Malloc.Allocator.Run | lab/lib/malloc.c:41-139 | Over every sequence of malloc and free calls, each state following from the one before by its call: live chunks lie in mapped pages and share no byte, and the run ends early exactly with a call that leaves the heap. |
| Malloc.Allocator.FillHeap | lab/lib/malloc.c:71-91 | A run from the first call, 128 requests of a megabyte and one of four bytes, whose last call leaves the heap. |
| Malloc.FitsExactly | lab/lib/malloc.c:57-70 | A chunk fits the open page exactly if it and a reference word after it do. |
| Malloc.StrandsExactly | lab/lib/malloc.c:71-91 | A request leaves the heap exactly if the pointer is at its end, or in its last page without room for the request and a reference word. |
| Malloc.ChunkFresh | lab/lib/malloc.c:41-112 | malloc never returns the address of a live chunk. |
| Malloc.AskedSafe | lab/lib/malloc.c:41-139 | Over every run of calls, the bytes asked for, from each chunk's address on, lie in mapped heap pages and in no other chunk's. |
| HeapAccounts.FreeExact | lab/lib/malloc.c:114-139 | free keeps every page's counter equal to its live chunks, the pointer into it and the references left behind. |
| HeapAccounts.ServedExact | lab/lib/malloc.c:41-112 | So does malloc; it leaves a reference behind exactly for an empty request and for one that fills new pages to their end. |
| HeapAccounts.CountsExact | lab/lib/malloc.c:41-139 | Over every run of calls every counter is exact. |
| HeapAccounts.MappedExactly | lab/lib/malloc.c:114-139 | A page is mapped exactly as long as a live chunk reaches into it, the pointer is in it, or a reference was left behind in it. |
| HeapAccounts.AllReturned | lab/lib/malloc.c:41-139 | After any run of requests that are no multiples of the page size, with everything freed, exactly the open page is mapped. |
| HeapAccounts.PageLeaks | lab/lib/malloc.c:93-111 | A page asked for and freed leaves the page after it mapped. |
| Arguments.ValueEncode | lab/lib/spawn.c:237-247 | A word stored little-endian reads back as itself. |
| Arguments.FramedDecodes | lab/lib/spawn.c:237-251 | Strings, pointer array and the two words, once stored, decode in the child to exactly the argument list. |
| Arguments.Lowest | lab/lib/spawn.c:193-214 | On 64-bit addresses and with the array size as an int, the layout is refused exactly for what the code reckons to be more than a page and at most 4 MB more; when everything fits it lies in the page. |
| Arguments.ReckonedRight | lab/lib/spawn.c:207 | What the code reckons is right up to 2^28 - 2 arguments, and more do not fit a page. |
| Spawn.Loader.InitStack | lab/lib/spawn.c:185-260 | Whatever its two system calls return: the child decodes exactly argc and argv from its stack pointer whenever they fit a page and both succeed; -E_NO_MEM exactly when the code reckons more than a page, up to the wrap, or a call fails; nothing else in the child changes. |
| Spawn.Loader.MapSegment | lab/lib/spawn.c:262-297 | Whichever system call or read fails first: loads whole pages of an unaligned segment, all of them exactly if none fails and it ends below UTOP, else exactly those before the failure, which it reports or panics on; each byte is the file's or zero; no other page of the child changes. |
| Spawn.SegmentRead | lab/lib/spawn.c:262-297 | Byte k of a loaded segment is byte offset + k of the file below filesz and zero above it. |

## Left out

- Boot loaders, interrupt controllers, PCI, console, disk and network drivers: device registers.
- `lab/net`, lwip, shell, httpd, monitor, cprintf and user programs.
- Paths, directories, `file_create` and `fsformat.c`: files are given by number; a directory block taken into use is not cleared, so its entries are not determined.
- Crashes in the middle of an operation: truncation does not flush the bitmap or the indirect block, so there is no consistency to prove.
- `stab_binsearch`, ELF header checks and `copy_shared_pages`.
- Trap frames, TLB and `lcr3`: page-table writes take effect at once.
- `env_free` as a claim about memory: its loops stop one entry short. Only its effect on the environment table is in `Kernel`.
- Messages that carry a page: `sys_ipc_try_send` stops the wait before the page can fail.
- Pages above the user stack other than the exception stack, and mappings that programs make of private pages by hand, in the fork model; destruction of a child before fork has started it.
- Exit of an environment in the pipe model.
- `sys_page_unmap`, `sys_yield` and `ipc_send`: one call each of a modelled operation, or its repetition.
- The bitmap is a sequence of booleans, and File structures live outside the data blocks.
- File offsets and sizes are unbounded natural numbers; the source's are signed 32-bit.
- `env_runs` does not wrap in the pipe model, and `dup` of a descriptor onto itself is left out.
- Cow.CowRefinesEager: pages marked PTE_SHARE are compared in CowShared.SharedRefines.
- PipeEof.EofSound: holds between forks; during forks PipeEof.EofExactly says when the answer is wrong.
- Pipe.Fifo: after its store outside the buffer the writer is not followed further.
- Malloc.Allocator.Malloc: a chunk of 0 bytes is not recorded as live, since the next has its address, and cannot be freed in the model; sizes within 3 of 2^64 are not modelled; a search beyond the end of the heap is a result of its own, since it goes on for the rest of the 64-bit address space.
- Spawn.Loader.MapSegment: how many calls of each kind succeed before one fails is an argument; segments are below 2^31 bytes, the range of its loop counter.
- Spawn.Loader.InitStack: stores outside the page end the model with an outcome of their own; strings add up to less than 2^63 bytes.
- Kernel.Kernel.Execute: steps that are not harmless are left out of runs; Kernel.Kernel.Trap covers them one at a time.
- Kernel.Kernel.EnvFree: only the table; see above.
- Kernel.Kernel.SysIpcTrySend: messages without a page.
- FileServer.Server.FileFlush: File structures and the bitmap are not blocks of the model, so what is on disk is said of data and indirect blocks.
- FileServer.Server.Write: the pages that a file operation faults in and stores to are taken together, block by block; BlockCache.Cache.Fault has the single fault.
- Kernel.Kernel.EnvAlloc: whether env_setup_vm finds its pages is an argument; Pmap.Pmap.EnvSetupVm says when it does.
