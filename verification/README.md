# HarLin kernel: a verified model of its core

This project models the core algorithms of the HarLin x86_64 kernel in Dafny and proves what
they keep over whole runs. It has six parts, one or more modules each:

- **Virtual memory.** `Pmm` is the page bitmap, `PageTables` and `Vmm` the 4-level page
  tables with 2 MiB splitting and address-space cloning, `MapEntries` what a mapping writes entry
  by entry, `UserMemory` the copies to and from user space, `PageFault` demand pages and
  copy-on-write.
- **Memory file system.** `PathWalk` parses and normalises paths, `MemFsTree` and `MemFs`
  relate the pool of 128 nodes to a map from paths to files and directories.
- **Scheduler.** `SchedModel` is the state machine of timer ticks, dispatch, block, wake,
  sleep, exit and create; `Fairness` the theory of the least-key pick, `Starvation` that of
  processes charged nothing, `Sleepers` both with processes asleep, `SleepRuns` how long a sleep
  or a block lasts; `Scheduler` the tables updated in place.
- **Communication.** `IpcModel` is the semaphore, `QueueModel` the message queue with receives
  of one kind, `Ipc` both in place; `PipeModel` and `PipeRing` (in `Pipe.dfy`) are the
  ring-buffer pipe.
- **FAT32.** `FatChains` is the theory of cluster chains, `Fat32` the byte-level table with
  its copies, `FatRead` reading through a chain.
- **Heap and checksum.** `Kmalloc` is the list of blocks of a region, `KmallocHeaders` the linked
  headers with those that merges swallowed, `KmallocRuns` runs in one region, `KmallocBytes` the
  same runs on the bytes of memory, `KmallocGrowth` runs over many regions, `KmallocHeap` the heap
  in place; `Checksum` is the Internet checksum.

`Common` holds helpers.

Code that the kernel runs in place is modelled in place: classes with arrays, maps and
sequences as fields, loops with invariants. Each such method is proved against a function or
relation on values, and the laws are lemmas about those. Calls that take a lock are one
atomic step; so is each turn of a blocking call (check, register, block). Page tables are a
map from frames to 512 entries, data memory is a separate map from physical addresses to
bytes, the disk is an array of sectors that does not fail.

Where the code and what one would expect of it differ, the model follows the code:

- `kmalloc` puts a new region in front of the older ones, and `kfree` joins neighbours in the
  list, also across regions. The blocks stay apart if and only if no block is freed whose free
  neighbour lies in another region (`KmallocGrowth.SoundFromEmptyIff`); a run of six calls from the
  empty heap after which two live allocations overlap is `KmallocGrowth.RegionsOverlap`.
- Freeing a header that a merge has swallowed follows its stale links, as long as its magic number
  is there. When the list survives that is `KmallocHeaders.StaleFreeIff`, for a header that nothing
  has been written over; a double free that makes a block larger than its region is
  `KmallocRuns.DoubleFreeBreaks`. Once a block was handed out over a swallowed header, or a new
  header overlaps it, a free writes over other headers (`KmallocBytes.TornFreeBreaks`); such frees
  are not legal in the runs of the model.
- A receive of one kind that finds its message behind the head of the queue drops the head and
  leaves a dead cell behind. Nothing is lost in a run if and only if every receive finds its
  message at the head or behind a dead head (`QueueModel.NothingLostIff`). Wakeups of receivers
  are never lost if and only if all receivers ask for the same kind
  (`QueueModel.AlwaysWakesIff`).
- The search for a free cluster goes through the whole table. When the data area is full it hands
  out a cluster beyond the end of the disk, if the table has an entry left
  (`Fat32.FullDiskOverrun`); a cluster fits exactly when its number is below a bound
  (`Fat32.OnDiskIff`).
- `Harlin_Read` returns the length asked for, not the number of bytes delivered. Its clipping test
  wraps at 32 bits, so a read delivers the next bytes of the file, and no more, if and only if
  position plus length stays below 2^32 or the file fills its clusters (`FatRead.Read`, and over
  runs of reads `FatRead.ReadAll`).
- A request for nearly 2^32 contiguous pages wraps the test for the end of the bitmap. The scan runs
  past the last page if and only if the sum wraps and the pages from the last start on are free
  (`Pmm.PassesIff`).
- Extending a file without a start cluster counts the first cluster twice and ends one cluster
  short (`FatChains.ExtendNewSound`).
- A user page mapped where a page table exists does not get the user bit in the page directory. It
  can be reached from user mode if and only if there was no page table for it yet or the directory's
  entry had the bit (`MapEntries.UserReachesIff`).
- Copy-on-write inside a 2 MiB page unmaps the other 511 pages (`PageFault.CowResolve`).
- A relative path that normalises to nothing becomes `.`, which a lookup takes for a name
  (`MemFs.NormalKeepsMeaning`).
- A process with a nice value below -9 is charged nothing. From equal keys it gets the CPU within
  1 + 10 ticks for each runnable process in a lower slot and keeps it, so everybody goes on being
  dispatched if and only if every runnable nice value is at least -9 or only one process is
  runnable (`Sleepers.EverybodyGoesOnIffAsleep`).
- The deadline of a sleep wraps at 32 bits. A sleep lasts as many ticks as asked for if and only if
  that is not 0 and the sum stays below 2^32, or the next tick wraps as well and the sum is not 2^32
  (`SleepRuns.LastsExactlyIff`); one whose deadline comes to 0 never ends (`SleepRuns.SleepsForever`).
- A tick between the marking of a process as asleep or blocked and its giving up the CPU undoes the
  mark (`SleepRuns.TickBeforeRelease`).
- The idle branch of the timer resets processes that other CPUs run to ready; only the
  affinity field keeps them apart (`SchedModel.StateFieldMisleads`).
- The value 0 marks an empty slot in a pipe's list of waiters, but is counted. Process 0 is woken
  if and only if nobody registers between it and the wake (`PipeModel.RegisteredUntilWake`).
- A TCP segment whose checksum comes out as 0 is sent with 0 and refused by the kernel's own
  check, which expects 0xFFFF (`Checksum.ZeroChecksumRefused`). One that is cut on its way into
  the packet carries the checksum of the whole (`Checksum.CutVerifies`). From 2017 data bytes on
  the checksum passes the end of its buffer (`Checksum.TcpBuild`).
- `Harlin_MemFsRemove` takes a whole subtree out of the namespace but gives back only the slot
  of its top node (`MemFs.FileSystem.Remove`).

## Model

| member | source | states |
|---|---|---|
| `Pmm.SetPage` | src/harlin/mem/pmm.c:106-107 | Setting a bit adds exactly that page to the set the bitmap stands for. |
| `Pmm.ClearPage` | src/harlin/mem/pmm.c:238-238 | Clearing a bit removes exactly that page. |
| `Pmm.FullBytePages` | src/harlin/mem/pmm.c:100-102 | A 0xFF byte stands for eight used pages, so skipping it skips nothing free. |
| `Pmm.PageAllocator.Alloc` | src/harlin/mem/pmm.c:93-116 | Takes the lowest free page, marks exactly it, and returns 0 only when every page below 8*(total/8) is used. The address is 0x300000 plus 4096 for each page below it. |
| `Pmm.PageAllocator.Search` | src/harlin/mem/pmm.c:134-167 | The scan with its byte skips finds the first start at or after its own that fits, or from which it runs past the last page, and misses none. |
| `Pmm.PassesIff` | src/harlin/mem/pmm.c:138-152 | Some start makes the scan run past the last page if and only if the last start does: its 32-bit sum with the count wraps and the pages from it on are free and below the limit. |
| `Pmm.FitsAnywhere` | src/harlin/mem/pmm.c:134-167 | Without a limit a run fits if and only if it starts below 8*(total/8), ends by the last page and all its pages are free. |
| `Pmm.FitsLow` | src/harlin/mem/pmm.c:172-219 | Below the DMA limit it fits if and only if besides its last byte lies below 16 MiB. |
| `Pmm.PageAllocator.AllocContiguous` | src/harlin/mem/pmm.c:118-170 | Next fit with restart: 0 if and only if the length is 0 or no free run of that length starts below 8*(total/8); otherwise marks exactly one previously free run, the first at or after the cursor or, failing that, the first of all; the exact condition under which the scan passes the last page. |
| `Pmm.PageAllocator.AllocLow` | src/harlin/mem/pmm.c:172-222 | The same for runs that lie wholly below 16 MiB, lowest first. |
| `Pmm.PageAllocator.Free` | src/harlin/mem/pmm.c:229-240 | Frees exactly the page of the address, its number cut to 32 bits; an address outside the range changes nothing. |
| `PageTables.PageOfVirtInjective` | src/harlin/mem/vmm.c:271-274 | Two addresses select the same four entries if and only if they agree on bits 47..12. |
| `PageTables.OrAligned` | src/harlin/mem/vmm.c:400-405 | Or-ing an offset into the clear low bits of an address is addition. |
| `PageTables.LeafWrite` | src/harlin/mem/vmm.c:323-324 | Writing a page-table entry changes, in every address space, the pages that go through that entry and no other. |
| `PageTables.FlagWrite` | src/harlin/mem/vmm.c:230-237 | Raising flags on a link between tables changes no translation anywhere. |
| `PageTables.LinkEmpty` | src/harlin/mem/vmm.c:239-247 | Linking an empty table changes no translation and keeps the tree well formed. |
| `PageTables.LinkSplit` | src/harlin/mem/vmm.c:285-306 | Replacing a 2 MiB entry by the table that spells it out changes one page and keeps the other 511, in every address space. |
| `PageTables.HugeClear` | src/harlin/mem/vmm.c:367-370 | Clearing a 2 MiB entry unmaps exactly its 512 pages. |
| `PageTables.SharedForever` | src/harlin/mem/vmm.c:155-248 | PML4 slots shared by two spaces stay shared, with equal translations, through any run of table changes of the kinds the kernel makes. |
| `Vmm.BuildSplit` | src/harlin/mem/vmm.c:287-304 | The filling loop spells out the frames of the 2 MiB entry in order, with the new leaf in its place. |
| `Vmm.SplitSound` | src/harlin/mem/vmm.c:285-306 | The whole split maps the page, keeps every other translation, and what it replaces is the old translation of the page. |
| `Vmm.AddressSpaces.GetOrAllocTable` | src/harlin/mem/vmm.c:226-248 | The table one level down, created empty when absent; no translation changes; fails only when no page is left. |
| `Vmm.AddressSpaces.EnsurePd` | src/harlin/mem/vmm.c:276-280 | The page directory on the way to a page, with no translation changed, and no page taken when the page table already exists. |
| `Vmm.AddressSpaces.SplitAndMap` | src/harlin/mem/vmm.c:286-306 | The 2 MiB case of mapping: maps the page, keeps the rest, records the replaced frame; a failure changes nothing. |
| `MapEntries.SteppedEntries` | src/harlin/mem/vmm.c:226-324 | The steps of a mapping write at most the four entries on the way to the page: links above the page directory are new with present and writable set or keep their flags, with the user bit added when asked for; the leaf holds the frame and the flags; a 2 MiB entry is spelled out with its own flags. |
| `MapEntries.UserReachesIff` | src/harlin/mem/vmm.c:226-324 | A page mapped with the user bit has it at all four levels if and only if there was no page table for it yet or the page directory entry had the bit. |
| `Vmm.AddressSpaces.Map` | src/harlin/mem/vmm.c:250-329 | On success the page translates to the given frame, in every space that shares its page table and in no other, every other page keeps its translation everywhere, and the entries written and their flags are exactly those of `MapEntries`; the recorded replaced address is exactly the old one or 0. A call with the user bit succeeds only for addresses from 0x400000 up to 0x800000; one without it or in that range fails only when no page is left; a failed call changes no translation. With its page table present such a call succeeds without taking a page. |
| `Vmm.AddressSpaces.Unmap` | src/harlin/mem/vmm.c:346-374 | Unmaps the page in exactly the spaces that share its page table, and nothing else anywhere; inside a 2 MiB entry exactly its 512 pages, in every space; without an entry no table changes. The one entry cleared is named, and no other entry changes. |
| `Vmm.CloneSound` | src/harlin/mem/vmm.c:181-220 | The four new tables change no old translation; the new space translates like the old one outside slot 511 and sees its own PML4 through slot 511. |
| `Vmm.BuildClone` | src/harlin/mem/vmm.c:181-220 | The clearing, copying and linking writes produce exactly those tables. |
| `Vmm.AllocFour` | src/harlin/mem/vmm.c:157-179 | Four different free pages, or none and the bitmap as before. |
| `Vmm.AddressSpaces.CloneKernelPml4` | src/harlin/mem/vmm.c:155-224 | A clone of the space that the slot 511 window shows, with all old spaces untouched; on failure nothing changes. |
| `Vmm.AddressSpaces.RunOps` | src/harlin/mem/vmm.c:226-374 | Any run of map, unmap and switch keeps every pair of spaces translating alike in the slots they share. |
| `Vmm.AddressSpaces.CloneThenRun` | src/harlin/mem/vmm.c:155-374 | After a clone and any later run in either space, the clone and the space the window showed translate alike in every slot that was present at clone time, except 511. |
| `Vmm.AddressSpaces.GetPhys` | src/harlin/mem/vmm.c:376-415 | The physical address is the translated frame plus the offset in the page, also inside 2 MiB pages; 0 if and only if it is unmapped or physical address 0. |
| `UserMemory.TranslationPageLinear` | src/harlin/mem/vmm.c:400-405 | Within one page, consecutive virtual bytes are consecutive physical bytes. |
| `UserMemory.RangeOkIff` | src/harlin/mem/vmm.c:417-430 | The range test with its 64-bit wrap accepts exactly the ranges between 0x400000 and 0x800000. |
| `UserMemory.CopyFromUser` | src/harlin/mem/vmm.c:417-452 | Succeeds if and only if the range is a user range with every byte mapped; the page-wise copy equals the byte-wise one; a failure has copied exactly the bytes before the first unmapped one. |
| `UserMemory.CopyToUser` | src/harlin/mem/vmm.c:454-489 | The same for stores, with memory equal to storing byte after byte through translation. |
| `UserMemory.CopyOutFrame` | src/harlin/mem/vmm.c:467-484 | Stores touch only the physical bytes of the range. |
| `UserMemory.ReadsBackIff` | src/harlin/mem/vmm.c:417-489 | All data of a length can be read back if and only if no two bytes of the range share a physical byte. |
| `UserMemory.DistinctFramesNoAlias` | src/harlin/mem/vmm.c:417-489 | Pages in distinct frames, by 4 KiB or 2 MiB entries, share no byte. |
| `UserMemory.RoundTrip` | src/harlin/mem/vmm.c:417-489 | Copying out and back is the identity when the range's pages lie in distinct frames. |
| `UserMemory.UserPtrValid` | src/harlin/syscall/syscall.c:49-66 | Accepts exactly the user ranges whose every page is mapped, and then both copies succeed. |
| `UserMemory.PagesMappedReachable` | src/harlin/syscall/syscall.c:57-64 | Checking one address per page is enough for every byte. |
| `PageFault.CopyIsTransparent` | src/harlin/mem/page_fault.c:48-58 | Remapping one page to a copy of its frame keeps what every virtual address shows, except that addresses already on the new frame show the copy. |
| `PageFault.CowResolve` | src/harlin/mem/page_fault.c:36-61 | On a 4 KiB page it fails only when unmapped, out of pages or with the user bit outside 0x400000 to 0x800000, and keeps the byte seen at every virtual address, except that addresses already on the new frame show the copy; on a 2 MiB page the other 511 pages are unmapped and every page outside the entry keeps its translation, also when the remap fails, which it does only in that case or with no page left; no frame is taken if and only if the page is unmapped or no page is left; a refused remap leaves the page unmapped and gives the frame back. |
| `PageFault.CowThenWrite` | src/harlin/mem/page_fault.c:36-61 | Any run of stores through the page after resolution leaves the old frame untouched. |
| `PageFault.DemandInstall` | src/harlin/mem/page_fault.c:16-34 | Maps a zeroed, previously free frame with exactly the entries and flags of `MapEntries` and changes nothing else; a failure changes no translation, and happens only with the user bit outside 0x400000 to 0x800000 or with no page left; a frame that could not be mapped is given back. |
| `PathWalk.Segs` | src/harlin/fs/path_walk.c:37-48 | Segments are non-empty and hold no slash. |
| `PathWalk.PathParse` | src/harlin/fs/path_walk.c:26-50 | Refuses exactly the empty path and those of 128 characters or more; otherwise the result is absolute if and only if the path begins with a slash, and the scanning loop yields the first 8 of its segments, or all if there are fewer. |
| `PathWalk.SegsAppend` | src/harlin/fs/path_walk.c:37-48 | A slash and a piece without slashes add that piece as the last segment, whatever stands before. |
| `PathWalk.SegsSlash` | src/harlin/fs/path_walk.c:37-48 | A slash at the end adds no segment; the two together determine the segments of every path. |
| `PathWalk.SegsJoin` | src/harlin/fs/path_walk.c:26-96 | Parsing a joined list of segments gives the list back. |
| `PathWalk.Reduce` | src/harlin/fs/path_walk.c:58-74 | The stack loop resolves `.` and `..`. |
| `PathWalk.NormStack` | src/harlin/fs/path_walk.c:58-74 | The result holds no `.` and no `..`, is no longer, and its segments are clean. |
| `PathWalk.PathNormalize` | src/harlin/fs/path_walk.c:52-96 | Succeeds if and only if the normal form exists and fits the buffer, and then writes exactly it with its terminator; what is written begins with a slash if and only if the path does. |
| `PathWalk.NormalNotLonger` | src/harlin/fs/path_walk.c:52-96 | The normal form is never longer than the path and never empty. |
| `PathWalk.NormalLeads` | src/harlin/fs/path_walk.c:52-96 | The normal form of every path of 1 to 127 characters exists and begins with a slash if and only if the path does. |
| `PathWalk.NormalIdempotent` | src/harlin/fs/path_walk.c:52-96 | Normalising twice is normalising once. |
| `PathWalk.ParsedNormal` | src/harlin/fs/path_walk.c:26-96 | Parsing the normal form gives the reduced segments. |
| `MemFsTree.InsertKeeps` | src/harlin/fs/mem_fs.c:120-138 | Linking a new first child keeps every sibling list acyclic, complete and with unique names. |
| `MemFsTree.InsertTree` | src/harlin/fs/mem_fs.c:120-138 | It adds exactly one path to the map the pool stands for. |
| `MemFsTree.UnlinkKeeps` | src/harlin/fs/mem_fs.c:180-196 | Unlinking a child keeps the pool's invariant for the paths outside its subtree. |
| `MemFsTree.UnlinkTree` | src/harlin/fs/mem_fs.c:180-196 | It removes exactly the path and everything beneath it. |
| `MemFsTree.WriteKeeps` | src/harlin/fs/mem_fs.c:198-208 | Writing a payload changes exactly one file. |
| `MemFsTree.AbsentChild` | src/harlin/fs/mem_fs.c:50-60 | A name not found in the sibling list is not in the namespace. |
| `MemFs.FileSystem.constructor` | src/harlin/fs/mem_fs.c:101-118 | The empty tree with its root. |
| `MemFs.FileSystem.AllocNode` | src/harlin/fs/mem_fs.c:9-27 | The lowest free slot, or none if and only if all 128 are used. |
| `MemFs.FileSystem.FindChild` | src/harlin/fs/mem_fs.c:50-60 | The sibling walk ends and finds exactly the child of that name. |
| `MemFs.FileSystem.ResolvePath` | src/harlin/fs/mem_fs.c:62-76 | The walk through the lists is the lookup of the first 8 segments in the map. |
| `MemFs.FileSystem.ResolveParent` | src/harlin/fs/mem_fs.c:83-99 | Finds the parent and the last name; fails exactly for an empty path, a missing parent or a long name. |
| `MemFs.FileSystem.Mkdir` | src/harlin/fs/mem_fs.c:120-138 | Succeeds if and only if the parent is a directory, the path is absent, the name fits and a slot is free; adds exactly one directory. |
| `MemFs.FileSystem.Create` | src/harlin/fs/mem_fs.c:160-178 | The same for an empty file. |
| `MemFs.FileSystem.Rmdir` | src/harlin/fs/mem_fs.c:140-158 | Succeeds if and only if the path is a directory with nothing beneath it; deletes exactly that path. |
| `MemFs.FileSystem.Remove` | src/harlin/fs/mem_fs.c:180-196 | Deletes the path and everything beneath it from the namespace, and frees exactly one slot. |
| `MemFs.FileSystem.Write` | src/harlin/fs/mem_fs.c:198-208 | Replaces the contents of one file, cut to the payload size, and nothing else. |
| `MemFs.FileSystem.Read` | src/harlin/fs/mem_fs.c:210-219 | Delivers a prefix of the file's contents. |
| `MemFs.FileSystem.Ls` | src/harlin/fs/mem_fs.c:221-242 | Lists different children with their kinds, as many as there are or as the room allows, and every child when they are no more than the room. |
| `MemFs.WalkDotsNorm` | src/harlin/fs/path_walk.c:62-74 | A walk that takes `.` as staying and `..` as the parent ends at the node of the reduced segments. |
| `MemFs.NormalKeepsMeaning` | src/harlin/fs/path_walk.c:52-96 | Looking up the normal form gives the node the dotted walk reaches if and only if the path begins with a slash or its reduced form is not empty. |
| `SchedModel.Pick` | src/harlin/proc/scheduler.c:622-638 | The lowest slot with the least key among the eligible ones, -1 when there is none. |
| `SchedModel.PickUnique` | src/harlin/proc/scheduler.c:622-638 | That description determines the pick. |
| `SchedModel.DeltaPositive` | src/harlin/proc/scheduler.c:877-888 | The per-tick charge is positive if and only if nice is at least -9. |
| `SchedModel.WeightDoubles` | src/harlin/proc/scheduler.c:877-888 | The weight is 1024 at nice 0, doubles with each step down to -20, halves with each step up to 10 and is 1 from there on. |
| `SchedModel.DeltaDivides` | src/harlin/proc/scheduler.c:877-888 | The charge is a million divided by the weight, rounded down. |
| `SchedModel.FreeSlot` | src/harlin/proc/scheduler.c:201-208 | The lowest unused slot, -1 when there is none. |
| `SchedModel.StepKeepsInv` | src/harlin/proc/scheduler.c:640-772 | Every scheduler step keeps each current process owned, through its affinity field, by the CPU it is current on. |
| `SchedModel.TimerKeepsInv` | src/harlin/proc/scheduler.c:794-936 | So does a timer tick, idle or busy. |
| `SchedModel.BusyFields` | src/harlin/proc/scheduler.c:852-935 | A tick on a busy CPU, field by field: frame words saved, runtime and key charged, slice counted down or renewed; every other slot only wakes if its deadline has come. |
| `SchedModel.IdleFields` | src/harlin/proc/scheduler.c:806-850 | A tick on an idle CPU: with nobody eligible only due sleepers change; otherwise every running slot is reset and one is dispatched. |
| `SchedModel.DispatchFields` | src/harlin/proc/scheduler.c:806-935 | What a dispatching tick leaves in the slot, in each word of the frame and in the fs base. |
| `SleepRuns.SleepsUntil` | src/harlin/proc/scheduler.c:727-755 | Over every run of steps of others with fewer ticks than its deadline is away, a sleeping process stays asleep and on no CPU. |
| `SleepRuns.WakesAt` | src/harlin/proc/scheduler.c:727-755 | At the end of such a run whose last tick reaches the deadline the process is ready or running. |
| `SleepRuns.SleepsWhileNotDue` | src/harlin/proc/scheduler.c:727-755 | The same for every deadline, wrapped or not: asleep and on no CPU through any run whose ticks are all before the first that is due. |
| `SleepRuns.WakesWhenDue` | src/harlin/proc/scheduler.c:727-755 | The first tick that is due finds it ready or dispatches it. |
| `SleepRuns.LastsExactlyIff` | src/harlin/proc/scheduler.c:727-755 | A sleep of ms lasts exactly ms ticks if and only if ms is not 0 and tick plus ms stays below 2^32, or the next tick wraps and ms is not 1. |
| `SleepRuns.SleepsForever` | src/harlin/proc/scheduler.c:727-755 | A sleep whose deadline comes to 0 outlasts every run in which nobody makes the process ready. |
| `SleepRuns.WrappedSleepEnds` | src/harlin/proc/scheduler.c:727-755 | One whose deadline wraps to another number ends at the next tick, unless that wraps too. |
| `SleepRuns.BlockedUntilWake` | src/harlin/proc/scheduler.c:757-772 | Over every run without a wake of it, a blocked process stays blocked and on no CPU; a wake makes it ready. |
| `SleepRuns.TickBeforeRelease` | src/harlin/proc/scheduler.c:745-766 | A tick on the CPU of a process marked asleep or blocked that has not given up the CPU makes it ready or running again. |
| `SleepRuns.ExitedSlotIsFree` | src/harlin/proc/scheduler.c:703-725 | An exited process is on no CPU and its slot is free; the next creation takes the lowest free slot, at most that one. |
| `SchedModel.NeverOnTwoCpus` | src/harlin/proc/scheduler.c:184-936 | In no run of ticks, schedule, block, wake, sleep, exit and create is a process current on two CPUs. |
| `SchedModel.StateFieldMisleads` | src/harlin/proc/scheduler.c:806-850 | The state field alone does not give this: an idle tick on one CPU marks what another CPU runs as ready. |
| `SchedModel.StepKeepsPending` | src/harlin/proc/scheduler.c:640-772 | Until a preempted process is resumed, no step of others changes its saved context. |
| `SchedModel.ResumeTransparent` | src/harlin/proc/scheduler.c:852-935 | A tick that does not switch leaves the frame alone; one that switches loads exactly what was saved at the last preemption. |
| `SchedModel.PreemptionTransparent` | src/harlin/proc/scheduler.c:852-935 | Over whole runs, a process that the timer resumes gets back the 15 registers, rip, rflags, rsp and fs base of its last preemption. |
| `Fairness.TickWithinSlice` | src/harlin/proc/scheduler.c:874-890 | A tick inside a slice charges the running process only and keeps the run fair. |
| `Fairness.TickEndsSlice` | src/harlin/proc/scheduler.c:890-906 | The tick that ends a slice hands over to the least key and keeps the run fair. |
| `Sleepers.HideTicks` | src/harlin/proc/scheduler.c:727-936 | Processes asleep and not due during a run make no difference to it. |
| `Sleepers.FairForeverAsleep` | src/harlin/proc/scheduler.c:874-906 | Fair states stay fair through any number of ticks in which nobody comes due, short of a 64-bit wrap. |
| `Sleepers.SpreadBoundedAsleep` | src/harlin/proc/scheduler.c:622-638 | From equal keys, no two runnable keys are ever further apart than 10 times the largest per-tick charge. |
| `Sleepers.DispatchedWithinAsleep` | src/harlin/proc/scheduler.c:874-906 | From a dispatch on, a process runs within ten ticks for each slice the others can still get. |
| `Sleepers.NobodyStarvesAsleep` | src/harlin/proc/scheduler.c:874-906 | With every charge positive each runnable process is dispatched within a bound computed from the number of other runnable processes and the charges. |
| `Sleepers.NobodyStarvesFromStartAsleep` | src/harlin/proc/scheduler.c:806-906 | The same bound, plus one tick, from the moment the keys are equal and nobody runs yet. |
| `Fairness.CreatedStartEqual` | src/harlin/proc/scheduler.c:184-279 | Any number of processes created at boot have equal keys and equal positive charges, so both fairness results apply to them. |
| `Fairness.NiceEnough` | src/harlin/proc/scheduler.c:877-888 | Every charge is positive if and only if every nice value is at least -9. |
| `Fairness.FreeRiderKeepsTheCpu` | src/harlin/proc/scheduler.c:874-906 | A process charged nothing with the least key keeps the CPU for any number of ticks. |
| `Starvation.FreeRiderReached` | src/harlin/proc/scheduler.c:806-906 | From equal keys that state is reached: after 1 + 10 ticks for each runnable process in a lower slot, the lowest process charged nothing has the CPU and the least key. |
| `Sleepers.RiderRunsAsleep` | src/harlin/proc/scheduler.c:806-906 | From then on it is the running process at every tick, with others asleep too. |
| `Sleepers.EverybodyGoesOnIffAsleep` | src/harlin/proc/scheduler.c:806-906 | From equal keys every runnable process goes on being dispatched if and only if every runnable nice value is at least -9 or only one process is runnable. |
| `Scheduler.SchedulerTables.PickNext` | src/harlin/proc/scheduler.c:622-638 | The scanning loop computes the pick. |
| `Scheduler.SchedulerTables.SchedulerTick` | src/harlin/proc/scheduler.c:727-737 | Advances the tick by one, modulo 2^32; a slot changes, from sleeping to ready and in nothing else, if and only if its deadline is set and not above the tick. |
| `Scheduler.SchedulerTables.TimerHandler` | src/harlin/proc/scheduler.c:794-936 | The handler changes tables, frame and fs base exactly as the timer step of the state machine. |
| `Scheduler.SchedulerTables.Schedule` | src/harlin/proc/scheduler.c:640-681 | Saves and releases the current process, then takes over the pick. |
| `Scheduler.SchedulerTables.ProcessExit` | src/harlin/proc/scheduler.c:703-725 | The exit step followed by scheduling; the slot is unused and current nowhere, and no slot but the one taken over changes besides. |
| `Scheduler.SchedulerTables.Sleep` | src/harlin/proc/scheduler.c:745-755 | The sleep step followed by scheduling: the process is asleep and on no CPU, with the given context and the tick plus the given number, modulo 2^32, as its deadline. |
| `Scheduler.SchedulerTables.BlockCurrent` | src/harlin/proc/scheduler.c:757-766 | The block step followed by scheduling: the process is blocked and on no CPU, with the given context. |
| `Scheduler.SchedulerTables.ProcessWake` | src/harlin/proc/scheduler.c:768-772 | A blocked process becomes ready; any other, and every other slot, stays as it is. |
| `Scheduler.SchedulerTables.ScheduleReady` | src/harlin/proc/scheduler.c:739-743 | The process becomes ready, whatever its state; no other slot changes. |
| `Scheduler.SchedulerTables.ProcessCreate` | src/harlin/proc/scheduler.c:184-279 | Claims the lowest unused slot with a fresh context, or fails and changes nothing. |
| `IpcModel.SemStepKeeps` | src/harlin/proc/ipc.c:202-241 | While somebody is blocked, permits never exceed the woken waiters yet to retry; the count is initial + posts - completed waits and not negative. |
| `IpcModel.SemRunKeeps` | src/harlin/proc/ipc.c:202-241 | So over every run. |
| `IpcModel.MovesUp` | src/harlin/proc/ipc.c:202-241 | Over every run, each post moves a blocked process one place forward and nothing else moves it. |
| `IpcModel.WokenInTurn` | src/harlin/proc/ipc.c:202-241 | From no permits and nobody blocked, the k-th process to wait sleeps through the posts before the k-th, whatever else is called between them, and the k-th post wakes it and nobody else. |
| `QueueModel.QueueStepKeeps` | src/harlin/proc/ipc.c:49-174 | Every send and receive, of any kind or of one, keeps: the messages of each kind left in the order they were sent and the rest of that kind is queued in order; a full queue holds a live message; while a sender is blocked, no more cells are free than woken senders are still to retry. |
| `QueueModel.QueueRunKeeps` | src/harlin/proc/ipc.c:49-174 | So over every run. |
| `QueueModel.TakenExactIff` | src/harlin/proc/ipc.c:134-155 | A receive leaves exactly the other messages if and only if it took the head of the queue or the head was dead. |
| `QueueModel.NothingLostIff` | src/harlin/proc/ipc.c:49-174 | In a run from the empty queue, sent is received plus queued if and only if every receive was of that form. |
| `QueueModel.HeadLost` | src/harlin/proc/ipc.c:119-155 | A receive of the second message's kind: the first message is lost and a dead cell stays. |
| `QueueModel.FifoRun` | src/harlin/proc/ipc.c:49-174 | With receives of any kind only, what was received followed by what is queued is what was sent. |
| `QueueModel.AlwaysWakesIff` | src/harlin/proc/ipc.c:90-97 | In every run a blocked receiver has no more messages of its kind waiting than woken receivers still to retry, if and only if all receivers ask for the same kind. |
| `QueueModel.LostWakeup` | src/harlin/proc/ipc.c:90-97 | For any two different kinds, a run that ends with a message queued, its receiver blocked and nobody woken. |
| `Ipc.WaitList.Pop` | src/harlin/proc/ipc.c:232-238 | The shifting loop removes the first waiter and keeps the order of the others. |
| `Ipc.SemaphoreTable.WaitTurn` | src/harlin/proc/ipc.c:202-222 | Done, with one permit fewer, if and only if the count was positive; refused, with nothing changed, if and only if it was not and 16 processes were blocked; otherwise the process is put behind the others. |
| `Ipc.SemaphoreTable.Post` | src/harlin/proc/ipc.c:224-241 | One permit more; the first waiter, if any, is taken off the list and woken. |
| `Ipc.MessageQueue.SendTurn` | src/harlin/proc/ipc.c:49-101 | One turn of a send is the model's step with a message that carries the payload; over-long data is refused. Done if and only if the data has at most 64 bytes and fewer than 16 cells are filled; waiting, behind the other senders, if and only if the queue is full and fewer than 16 wait; how many receivers each case wakes. |
| `Ipc.MessageQueue.Search` | src/harlin/proc/ipc.c:125-132 | The loop finds the first live message of the wanted kind. |
| `Ipc.MessageQueue.DropFirst` | src/harlin/proc/ipc.c:141-154 | The shifting loop drops the head cell and keeps the others in order. |
| `Ipc.MessageQueue.RecvTurn` | src/harlin/proc/ipc.c:103-174 | One turn of a receive, of any kind or of one, is the model's step; it delivers the kind and the first bytes, as many as asked for and at most 64, of the oldest message wanted. Done if and only if a live message of the kind is there; otherwise waiting behind the other receivers or, with 16 of them, refused; the first sender, if any, is woken. |
| `PipeModel.StepKeeps` | src/harlin/proc/pipe.c:114-274 | Read waiters exist only while the pipe is empty, write waiters only while it is full. |
| `PipeModel.RunIsFifo` | src/harlin/proc/pipe.c:114-274 | Over every interleaving, what was there and was written is what was read followed by what is there now. |
| `PipeModel.RegisteredUntilWake` | src/harlin/proc/pipe.c:29-112 | A process that registers is woken, after any later registrations, if and only if the list had room and it is not process 0 or nobody registered after it. |
| `PipeModel.ProcessZeroOverwritten` | src/harlin/proc/pipe.c:29-112 | A run that wakes process 0, and the same run with another reader in between, which does not. |
| `PipeRing.RingPut` | src/harlin/proc/pipe.c:169-175 | Storing at the tail appends; the ring is full exactly when it holds size - 1 bytes. |
| `PipeRing.RingTake` | src/harlin/proc/pipe.c:136-139 | Taking at the head removes the first byte. |
| `PipeRing.WaiterSlots.Add` | src/harlin/proc/pipe.c:99-112 | Registers in the first slot that holds 0 and raises the count; who is counted is exactly the model's list. |
| `PipeRing.WaiterSlots.WakeAll` | src/harlin/proc/pipe.c:29-39 | Empties the array and reports everybody counted, process 0 included. |
| `PipeRing.PipeTable.Space` | src/harlin/proc/pipe.c:195-204 | Occupancy plus space is size - 1. |
| `PipeRing.PipeTable.Write` | src/harlin/proc/pipe.c:147-181 | Appends the prefix that fits and wakes exactly the read waiters counted; -1 without readers. |
| `PipeRing.PipeTable.Read` | src/harlin/proc/pipe.c:114-145 | Takes a prefix of the contents and wakes exactly the write waiters counted. |
| `PipeRing.PipeTable.BlockingReadTurn` | src/harlin/proc/pipe.c:206-238 | A turn takes bytes, or registers and blocks exactly when the pipe is empty and somebody writes; contents and both lists of waiters are those of the model's step, and it wakes whom the step wakes. Each field of the result is given. |
| `PipeRing.PipeTable.BlockingWriteTurn` | src/harlin/proc/pipe.c:240-274 | The same for a write turn, which blocks exactly when the pipe is full and somebody reads. |
| `FatChains.FindFree` | src/harlin/fs/fat32.c:199-227 | The lowest free cluster, 0 when there is none. |
| `FatChains.AppendChain` | src/harlin/fs/fat32.c:229-243 | Marking a free cluster as last and linking it behind a chain gives the longer chain. |
| `FatChains.ExtendSound` | src/harlin/fs/fat32.c:622-681 | Extension keeps the old chain as a prefix, adds only free clusters, changes no entry outside the new chain, reaches the length asked for, and stops early only on a full table. |
| `FatChains.ExtendEnds` | src/harlin/fs/fat32.c:622-681 | The last cluster added holds the mark 0x0FFFFFF8; when none was added the table is as it was. |
| `FatChains.ExtendNewSound` | src/harlin/fs/fat32.c:631-646 | Without a start cluster the length reached is one short above one cluster; the rest as above. |
| `FatChains.FreeKeeps` | src/harlin/fs/fat32.c:1066-1070 | Freeing a file's chain returns exactly its clusters and keeps every other file. |
| `FatChains.GrowKeeps` | src/harlin/fs/fat32.c:622-681 | Growing one file keeps all chains disjoint and the pool of free and chained clusters. |
| `FatChains.RunConserves` | src/harlin/fs/fat32.c:199-243 | Over every run of extensions and deletions chains stay finite and disjoint, and free plus chained clusters is constant. |
| `Fat32.PutLe32Reads` | src/harlin/fs/fat32.c:158-164 | A stored little-endian word reads back and other words keep their value. |
| `Fat32.TableBytes` | src/harlin/fs/fat32.c:69-86 | Entry c of a copy is made up, little-endian and without the top four bits, of the four bytes at 4*(c mod 128) of sector reserved + copy*perFat + c/128. |
| `Fat32.LbaFacts` | src/harlin/fs/fat32.c:172-197 | Entries of different copies or sectors lie apart and before the data area. |
| `Fat32.DataApart` | src/harlin/fs/fat32.c:54-57 | Cluster sectors never overlap the table or one another. |
| `Fat32.OnDiskIff` | src/harlin/fs/fat32.c:54-57 | A cluster's sectors lie on the disk if and only if its number is below the bound given by the disk's size. |
| `Fat32.FullDiskOverrun` | src/harlin/fs/fat32.c:199-227 | When every cluster on the disk is taken and the table has an entry left, the search hands out a cluster that is not on the disk. |
| `Fat32.SmallFullDisk` | src/harlin/fs/fat32.c:199-227 | A concrete disk on which that happens. |
| `Fat32.PutEntryTable` | src/harlin/fs/fat32.c:172-197 | Writing one entry in one copy changes exactly that entry of the table. |
| `Fat32.Volume32.NextCluster` | src/harlin/fs/fat32.c:69-86 | Reads the entry of the abstract table. |
| `Fat32.Volume32.WriteFatEntry` | src/harlin/fs/fat32.c:172-197 | Changes exactly one entry, in every copy, keeps the copies equal and every sector outside the table. The top four bits of the entry are written as zero. |
| `Fat32.Volume32.FindFreeCluster` | src/harlin/fs/fat32.c:199-227 | The scan of the table finds the lowest free cluster. |
| `Fat32.Volume32.AllocateCluster` | src/harlin/fs/fat32.c:229-238 | Takes the lowest free cluster and marks it as last; it is on the disk if and only if it is below the bound. |
| `Fat32.Volume32.LastCluster` | src/harlin/fs/fat32.c:647-663 | The walk with its loop guards ends at the last cluster of any well-formed chain and counts it. |
| `Fat32.Volume32.ExtendFileClusters` | src/harlin/fs/fat32.c:622-681 | The byte-level extension is the abstract one, with and without a start cluster. |
| `Fat32.Volume32.FreeClusters` | src/harlin/fs/fat32.c:1066-1070 | The freeing loop frees exactly the chain. |
| `FatRead.ReadCluster` | src/harlin/fs/fat32.c:127-131 | Byte i of the buffer is byte i mod 512 of sector reserved + copies*perFat + (c-2)*perCluster + i/512. |
| `FatRead.ClusterByteAt` | src/harlin/fs/fat32.c:54-57 | So is byte i of a cluster, for every i. |
| `FatRead.ContentAt` | src/harlin/fs/fat32.c:549-601 | Byte i of the k-th cluster of a file is that byte of the cluster that the chain names as k-th. |
| `FatRead.ContentByte` | src/harlin/fs/fat32.c:549-601 | Byte p of a file lies in the cluster the chain names at p divided by the cluster size, in the sector and at the byte that the remainder gives. |
| `FatRead.WithinFileIff` | src/harlin/fs/fat32.c:570-574 | The number of bytes delivered is that of the file's next bytes if and only if position plus length stays below 2^32 or the file fills its clusters. |
| `FatRead.Read` | src/harlin/fs/fat32.c:549-601 | Delivers the next bytes of the chain, as many as that, and advances the position by as many modulo 2^32; the returned length equals that number if and only if the request stays within what is there; a request at or behind the end changes nothing; no request leaves the chain. |
| `FatRead.ReadAll` | src/harlin/fs/fat32.c:549-601 | Any split of a file into reads from a fresh handle delivers its bytes in order if and only if no clipping test wraps before the end of the file or the file fills its clusters. |
| `FatRead.WrappedRead` | src/harlin/fs/fat32.c:549-601 | On a concrete volume, a request whose test wraps delivers 511 bytes of a 100-byte file after its first. |
| `Kmalloc.FirstFit` | src/harlin/mem/kmalloc.c:85-107 | The first free block that is large enough, or none. |
| `Kmalloc.MissIff` | src/harlin/mem/kmalloc.c:85-107 | The search misses if and only if no stretch of the region free of live allocations could hold a header and the size. |
| `Kmalloc.TakenKeeps` | src/harlin/mem/kmalloc.c:87-104 | Allocation, with or without a split, keeps the tiling and the merging, and adds one live block of at least the size asked for. |
| `Kmalloc.ReleasedKeeps` | src/harlin/mem/kmalloc.c:130-143 | Freeing with its two merges keeps them and removes exactly that block from the live ones. |
| `Kmalloc.LiveDisjoint` | src/harlin/mem/kmalloc.c:78-145 | Live allocations, headers included, never overlap and lie in the region. |
| `Kmalloc.AllFreeIsWhole` | src/harlin/mem/kmalloc.c:122-145 | With nothing live the region is one free block again. |
| `Kmalloc.SplitLinked` | src/harlin/mem/kmalloc.c:89-100 | The header writes of a split keep next and prev consistent. |
| `Kmalloc.JoinLinked` | src/harlin/mem/kmalloc.c:132-143 | So do those of a merge. |
| `KmallocHeaders.TookState` | src/harlin/mem/kmalloc.c:85-107 | Allocating does the same to the headers and to the list; the swallowed headers that neither the block nor the new header goes over stay whole, free, apart from one another and inside free blocks. |
| `KmallocHeaders.FreedState` | src/harlin/mem/kmalloc.c:128-143 | Freeing a block of the list does the same to the headers and to the list, and keeps the swallowed headers so. |
| `KmallocHeaders.StaleFreeIff` | src/harlin/mem/kmalloc.c:128-143 | After freeing an intact swallowed header, the headers still describe a tiling of the region if and only if no free neighbour of the stale header would make it write to a header of the list. |
| `KmallocHeaders.QuietChangesNothing` | src/harlin/mem/kmalloc.c:128-143 | With neither neighbour free such a call changes nothing. |
| `KmallocRuns.DoubleFreeBreaks` | src/harlin/mem/kmalloc.c:78-143 | From a fresh page: two blocks freed and the second freed again gives a block of 8096 bytes in a region of 4096. |
| `KmallocRuns.ReachTorn` | src/harlin/mem/kmalloc.c:78-143 | From a fresh page: both blocks freed and 20 bytes handed out, the new header overlaps the swallowed one; freeing that, or the one behind it, is not legal. |
| `KmallocRuns.RunKeeps` | src/harlin/mem/kmalloc.c:78-145 | Over every run whose frees of swallowed headers find them intact and without a free neighbour, the blocks tile the region without free neighbours, and a live allocation keeps its place and size until it is freed itself. |
| `KmallocRuns.RunSafe` | src/harlin/mem/kmalloc.c:78-145 | From the fresh region, such runs keep live allocations disjoint and lose no memory. |
| `KmallocBytes.FreedStores` | src/harlin/mem/kmalloc.c:122-145 | Freeing an intact header, of the list or swallowed, does to the bytes of memory what it does to the headers. |
| `KmallocBytes.HeaderLayout` | src/head/mem/kmalloc.h:6-16 | Magic number, size, flag, next and prev lie little-endian at offsets 0, 4, 8, 24 and 32 of a header. |
| `KmallocBytes.WrittenRest` | src/harlin/mem/kmalloc.c:62-75 | A new header has 0x48414E44 at 0, the page count at 12 and the address of its region at 16. |
| `KmallocBytes.TookStores` | src/harlin/mem/kmalloc.c:87-104 | So does handing out a block, split or whole. |
| `KmallocBytes.ScribbleStores` | src/harlin/mem/kmalloc.c:78-145 | Whatever a caller writes to a live block changes no header. |
| `KmallocBytes.RunStores` | src/harlin/mem/kmalloc.c:78-145 | Over every run of legal calls and of writes to live blocks, the bytes in memory hold the headers of the model; an address without the magic number may be freed at any time. |
| `KmallocBytes.FlagKeepsIff` | src/harlin/mem/kmalloc.c:131-131 | The first write of a free leaves the 40 bytes at another address alone, whatever the memory holds, if and only if they do not meet the flag's four bytes. |
| `KmallocBytes.TornFreeBreaks` | src/harlin/mem/kmalloc.c:128-131 | Freeing an overlapped swallowed header: its magic number is there, and the first write sets the size of a block of the list to 0, so that nothing tiles the region. |
| `KmallocGrowth.GrewGrown` | src/harlin/mem/kmalloc.c:51-119 | A miss maps a region above all others and links its block in at the head; blocks stay apart and headers describe the list. |
| `KmallocGrowth.TookGrown` | src/harlin/mem/kmalloc.c:85-107 | So they do when a block of any region is handed out, split or whole. |
| `KmallocGrowth.ReleaseSoundIff` | src/harlin/mem/kmalloc.c:128-143 | After freeing a block, all blocks lie apart and in mapped memory if and only if no free neighbour in the list lies in another region. |
| `KmallocGrowth.EverSoundIff` | src/harlin/mem/kmalloc.c:78-145 | Over every run whose frees are of blocks of the list, or change nothing, they do so after every call if and only if no such free occurs. |
| `KmallocGrowth.SoundFromEmptyIff` | src/harlin/mem/kmalloc.c:14-145 | So from the empty heap. |
| `KmallocGrowth.GrownSafe` | src/harlin/mem/kmalloc.c:78-145 | In such runs an allocation that is not freed stays live, inside the mapped memory, and shares no byte with another. |
| `KmallocGrowth.OneRegionNeverCrosses` | src/harlin/mem/kmalloc.c:128-143 | In one region no free is of that kind. |
| `KmallocGrowth.ReachThreePages` | src/harlin/mem/kmalloc.c:78-120 | Three requests of a page get three regions, newest first in the list. |
| `KmallocGrowth.RegionsOverlap` | src/harlin/mem/kmalloc.c:51-145 | From the empty heap: three requests of a page, two frees, each of a live block, and one request give two live allocations that overlap. |
| `KmallocHeap.Heap.constructor` | src/harlin/mem/kmalloc.c:51-76 | The first region: whole pages, one block, handed out. |
| `KmallocHeap.Heap.Kmalloc` | src/harlin/mem/kmalloc.c:78-120 | Follows the model on linked headers in one region; returns 0 exactly for a bad size or a miss, and a miss means no vacant stretch is large enough. A call that returns 0 changes nothing. |
| `KmallocHeap.Heap.Kfree` | src/harlin/mem/kmalloc.c:122-145 | The headers change as in the model; a block of the list is removed from the live ones and no other; null, an address without a header and an already free block change no live one; for an intact swallowed header, the exact condition under which the heap survives. |
| `KmallocHeap.Heap.Krealloc` | src/harlin/mem/kmalloc.c:147-178 | The effect is the model's calls in order; for a block of the list it keeps the old bytes in the block it returns and the bytes of every other live block; the exact outcome of each special case. |
| `KmallocHeap.KnownCanRealloc` | src/harlin/mem/kmalloc.c:147-178 | Null, an address without a header and a block of the list can always be passed to it. |
| `Checksum.FoldIsOnesSum` | src/harlin/net/network.c:132-147 | Folding the plain sum gives the ones' complement sum of section 1 of RFC 1071. |
| `Checksum.NetChecksum` | src/harlin/net/network.c:132-147 | The loop computes its complement in 32 bits, exactly so for up to 131074 bytes; 0 for no data. |
| `Checksum.Resums` | src/harlin/net/network.c:651-653 | Data whose checksum was put into a zero word has checksum 0 (section 3.1 of RFC 791). |
| `Checksum.ZeroIff` | src/harlin/net/network.c:132-147 | A checksum is 0 if and only if the words sum to a multiple of 65535 above nought. |
| `Checksum.IpSend` | src/harlin/net/network.c:626-659 | Each field of the packet by its bytes: both Ethernet addresses and type, 0x45, total length, zeros, 0x40, protocol, source and destination address; the header sums to a multiple of 65535; then the payload, cut to 2014 bytes. |
| `Checksum.TcpChecksum` | src/harlin/net/network.c:786-801 | The checksum of the pseudo header and the segment (section 3.1 of RFC 9293); passes the end of its buffer if and only if the segment has more than 2036 bytes. |
| `Checksum.TcpBuild` | src/harlin/net/network.c:803-838 | Each field of the segment by its bytes (ports, sequence numbers, 0x50, flags, window) and the data, with its checksum; accepted by the kernel's check if and only if that is not 0; the checksum passes the end of its buffer if and only if there are more than 2016 data bytes. |
| `Checksum.TcpVerify` | src/harlin/net/network.c:848-862 | Accepts exactly when the field is not 0 and addresses, protocol number, length and segment sum to a multiple of 65535, and leaves the segment as it was; the same bound. |
| `Checksum.AcceptedIff` | src/harlin/net/network.c:848-862 | The expected value is in the field if and only if the field is not 0 and what the checksum covers sums to a multiple of 65535. |
| `Checksum.BuiltVerifies` | src/harlin/net/network.c:836-862 | A filled-in segment is accepted if and only if its checksum is not 0. |
| `Checksum.CutVerifies` | src/harlin/net/network.c:626-659 | A filled-in segment that is cut is accepted if and only if its checksum is not 0 and what was cut off, with the difference of the lengths, sums to a multiple of 65535. |
| `Checksum.TcpSend` | src/harlin/net/network.c:803-840 | The packet carries the built segment cut to 2014 bytes; it is accepted if and only if the checksum is not 0 and nothing was cut off, or what was satisfies that condition; the same bound. |
| `Checksum.ZeroChecksumRefused` | src/harlin/net/network.c:836-862 | A concrete segment that is built and refused. |
| `Checksum.OneWordChange` | src/harlin/net/network.c:848-862 | After one covered word of an accepted segment changes, it is accepted again if and only if the word went between 0x0000 and 0xFFFF outside the checksum field. |

## Left out

- Device drivers, port and memory-mapped I/O, interrupt stubs, descriptor tables, SMP bring-up, boot code: hardware effects.
- Display, shell, printk, proc_fs: formatting.
- Spinlock internals: locked regions are atomic steps.
- TLB and the temporary mapping window: the model claims the tables and what they translate. Bits of an entry above its frame number are not modelled.
- `pmm_init` and the memory map: the allocator starts with all pages free.
- Pmm.PageAllocator.AllocContiguous: what the scan reads and marks once it has passed the last page is not modelled; so for `AllocLow`.
- Vmm.AddressSpaces.Map: takes flags below 0x1000 and no huge entries at PDPT level, as the tables the kernel builds have none.
- Vmm.AddressSpaces.CloneKernelPml4: takes a current space whose slot 511 window shows the PML4 of some space; boot and every clone set it up to show its own.
- UserMemory.CopyFromUser: `strncpy_from_user` and the other string copies are not modelled; they would repeat the same loop.
- MemFs.FileSystem.ResolveParent: returns the name as a value; in the source it is an address in the parser's local buffer.
- `Harlin_PageFaultHandler` and the choice between demand and copy-on-write faults: a dispatch on error bits.
- ELF loading, fork, exec, `process_set_current`, the secondary-CPU loops: raw addresses and callbacks with few invariants.
- Sleepers.SpreadBoundedAsleep: states the bound until a 64-bit key would wrap, and for runs in which no sleeper comes due.
- Scheduler.SchedulerTables.ProcessExit: does not close handles or free the pages and the kernel stack, which are not modelled.
- Scheduler.SchedulerTables.ProcessCreate: kernel-stack allocation is a parameter that may refuse; handles and pages of a process are not modelled.
- Queue and semaphore numbers and the null checks of their calls: a table lookup before the turn.
- Destroying a semaphore or queue during waits, and `pipe_close`: outside the run properties.
- Ipc.SemaphoreTable.Post: does not model overflow of the count beyond 2^31 posts.
- FAT32 directory entries, long names, `Harlin_Write`, truncation and rollback on failure: the on-disk fields are not kept consistent enough for a round trip.
- SchedModel.PreemptionTransparent: says nothing of a preempted process that `schedule` resumes; that loads rip, rsp and rdi only.
- Fat32.Volume32.NextCluster: takes tables of fewer entries than the end-of-chain mark, so that every cluster number is an entry, and disks that hold the tables.
- Fat32.Volume32.WriteFatEntry: disk errors do not occur, and the four reserved top bits of an entry are written as zero, as in the source.
- FatRead.Read: a request that wraps on a chain longer than 4 GiB is only shown to stay on the chain.
- KmallocHeap.Heap.Kmalloc: models one region in place; a miss returns 0, as when no page is left. Growth over many regions is modelled on values, in `KmallocGrowth`, which leaves out frees of swallowed headers that are torn or have a free neighbour.
- KmallocHeap.Heap.Kfree: takes no header that a block handed out or a new header has gone over, nor one whose predecessor was; what such a free does depends on the bytes there. In the class headers are kept apart from payload bytes; that the bytes of memory hold them is `KmallocBytes.RunStores`. Writes outside live blocks are not modelled, and an address at which no header was ever written is taken to hold no magic number.
- KmallocHeap.Heap.Krealloc: the same; of bytes it says nothing when the address is that of a swallowed header.
- Checksum.TcpBuild: stops where the copy passes the end of the 2048-byte buffer of `tcp_compute_checksum`; `tcp_send` passes at most 1500 bytes. Sequence numbers and retransmission are not modelled.
- DHCP, DNS, HTTP, ARP and ICMP: polling around hardware.
- The slab pool, the read cache and the copy-on-write file versions: no invariant across calls worth stating.
