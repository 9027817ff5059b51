# FiXos, verified in Dafny

This project models the parts of the FiXos kernel where state is kept by hand (free lists threaded
through the pages they describe, page directories, address space identifiers, hash chains, reference
counts, ring buffers, file cursors) and proves what those parts are for. `dafny verify dfyconfig.toml`
checks all of it.

The modules follow the kernel.

- **Memory.** `PhysicalMemory` is the free-page list in page memory, `PageDirs` the ordered directory
  list of a process, `Areas` its memory areas and the eager ELF load, `Mmu` the identifiers of the TLB,
  `Paging` the fault, fork and release paths. `World` puts all processes, physical memory and the TLB
  into one state machine and says who owns each page; `KernelRuns` closes it over spawn, dispatch,
  TLB miss, store, fork, exit, reap, exec and kernel allocations; `EagerImage` relates every run to a
  machine that loads segments at once and copies images whole. `Elf` reads the headers of a program file, `Loader` goes from them to areas,
  `ArgLayout` is the argument block of exec, and `ExecRuns` puts exec together: from the program file to
  what the new program reads.
- **Pool.** The object allocator with its chains through the objects and its pages found by rounding.
- **Files.** `Smem` has the two readers of fragmented SMEM files; `InodeCache`, `InodeStore`,
  `Volumes`, `Vfs`, `Paths`, `VfsRuns` and `Directory` are the inode cache, the inodes behind it, node
  tables, walking and mounting, path resolution, whole runs and directory listing.
- **Streams.** `Fifo` is the cyclic buffer and the pipe, `Tty` the line discipline.
- **Processes and time.** `Scheduler`, `Pids` and `Rtc`.

Imperative code is imperative here: objects that are updated in place are classes with the same fields,
loops are loops. C pointers between kernel records are addresses into a map from addresses to records.
Each kernel operation is one atomic step. What hardware, other code or the environment chooses is a
parameter: the frame contents before a page is handed out, the entries the TLB drops, the object a pool
or the page an allocator gives, the file system instance a mount creates, the clock registers.

Properties that turned out not to hold of the code are stated with the exact condition under which they
do, next to a lemma that shows the failure:

- a forward seek from the current position or from the end of an SMEM file goes to the start of the file
  (`Smem.SeekExact`);
- the pointer array of exec goes where the new process looks for it only while it lies in one page
  (`ArgLayout.CursorExact`);
- exec keeps one owner per page only if the file is a program the loader accepts (its ELF header passes the
  check, every program header lies in the file, every segment is page-aligned and no two overlap); otherwise
  `elfloader_load` reports success and exec gives away the kernel stack it keeps using
  (`ExecRuns.ExecPartitionExact`, over whole runs `ExecRuns.RunPartitionExact`), for example on a file with a
  wrong magic (`ExecRuns.WrongMagicFails`);
- linking a new pool page stays in that page only if the objects leave four bytes of it
  (`Pool.Allocator.NewPage`, `Pool.TerminatorLeavesPage`), and pool_alloc takes a page although an object is
  free exactly when one was given back while first_nonfull was NULL and no page was added since
  (`Pool.NeedlessPageExact`, `Pool.TwoPagesForOne`);
- relative resolution gives away the reference to the working directory (`Paths.ConservesExact`);
- a mount does what it is for exactly when the directory is not the root of a file system
  (`Vfs.MountStepsExact`): on a root, `..` afterwards leads to whatever node the unset parent field of the
  new root names (`Vfs.RootMountSteps`, `Paths.RootPathChanges`, `Paths.NestedMountChanges`); and `..` fails
  at the global root, where POSIX has it stay (`Vfs.NoParentExact`);
- a node is created below anything, and the tree stays sound exactly when that is a directory in use
  (`Volumes.ProtoFs.CreateNode`);
- a line of 127 characters cannot be ended (`Tty.InputExact`, `Tty.FullLineIsStuck`), and a signal character
  echoed behind a line makes later erasures take back the wrong columns (`Tty.DisplayExact`);
- a pipe read and a pipe write can wait for each other exactly when both move something and together more
  than the buffer and one byte (`Fifo.BothWaitExact`, `Fifo.SixHundredEach`);
- the clock arithmetic is defined from 1970 up to the year 2038 (`Rtc.YearFitsExact`).

## Model

| member | source | states |
|---|---|---|
| Arch.SplitJoin | sys/memory.h:65-73 | splitting a page number into directory and index, and joining them, are inverse to each other |
| Arch.PhysicalPageOfP1 | arch/sh/include/arch/memory.h:40-41 | the page number of the cached address of a page is that page |
| PhysicalMemory.TakeKeepsChain | arch/sh/physical_memory.c:128-142 | taking the first free page leaves a chain of distinct pages linked through their first words |
| PhysicalMemory.GiveBackKeepsChain | arch/sh/physical_memory.c:145-167 | giving back a page that is not free puts it at the head of a sound chain |
| PhysicalMemory.StoreKeepsChain | arch/sh/physical_memory.c:128-167 | whatever an owner writes into its page, the chain in the free pages stays intact |
| PhysicalMemory.Allocator.constructor | arch/sh/physical_memory.c:86-124 | after pm_init_pages every page is on the chain exactly once, in order |
| PhysicalMemory.Allocator.BuildChain | arch/sh/physical_memory.c:110-120 | the linking loop leaves page by page the chain of all pages |
| PhysicalMemory.Allocator.GetFreePage | arch/sh/physical_memory.c:128-142 | returns the first page of the list read from memory, the list loses exactly that page and the count is its length |
| PhysicalMemory.Allocator.FreePage | arch/sh/physical_memory.c:145-167 | the page becomes the first of the list, no other page or link changes |
| PageDirs.DirList.Find | sys/memory.c:27-39 | the ordered search returns the entry exactly when a directory with that number is in the list |
| PageDirs.DirList.Insert | sys/memory.c:43-95 | the list as a map from page number to entry gets exactly this entry, stays strictly ordered by dir_id with matching next and prev links, and new neighbour entries are invalid; -1 and no change exactly when the directory is missing and the pool has none left |
| PageDirs.DirList.AddDir | sys/memory.c:56-91 | a missing directory is linked before or behind the place where the search stopped, keeping order and links |
| PageDirs.DirList.Invalidate | sys/memory.c:133-144 | clearing the valid flag removes exactly that page from the map |
| PageDirs.LinkedBefore | sys/memory.c:72-80 | relinking four pointers inserts the new directory in front of another one in a list that is sound both ways |
| PageDirs.DirList.NoPageBetween | sys/memory.c:27-39 | no page lies between neighbouring directories, so stopping the search there is right |
| Smem.FileSize | fs/casio_smemfs/smemfs_primitives_ng.c:223-236 | the size is the length of the concatenated fragments |
| Smem.BlockHeader | fs/casio_smemfs/smemfs_primitives_ng.c:239-250 | returns the first block table entry with the id |
| Smem.Locate | fs/casio_smemfs/file.c:76-84 | the fragment search ends on the fragment that holds the position, with the offset in it |
| Smem.ReadFrom | fs/casio_smemfs/file.c:86-103 | the copying loop delivers the slice of the concatenated fragments that starts at the cursor |
| Smem.ReadData | fs/casio_smemfs/file.c:53-106 | the offset reader returns the slice of the flat file, cut at its end |
| Smem.KernelFile.Lseek | fs/casio_smemfs/file.c:134-162 | the new position is the one SeekTarget computes, other fields unchanged |
| Smem.KernelFile.Read | fs/casio_smemfs/file.c:109-129 | returns the slice at the position and advances by its length |
| Smem.BootFile.constructor | bootloader/smem_file.c:23-79 | an opened file starts with a sound cursor at 0 |
| Smem.BootFile.Seek | bootloader/smem_file.c:83-117 | position, current fragment and offset in it agree after every seek |
| Smem.BootFile.Read | bootloader/smem_file.c:121-158 | returns the slice of the flat file at the cursor and moves the cursor by its length, keeping the cursor invariant |
| Smem.BootFile.ReadChar | bootloader/smem_file.c:165-187 | one byte at the cursor, or -1 at the end, with the cursor invariant kept across fragments |
| Smem.SeekExact | bootloader/smem_file.c:83-117 | the computed position is what lseek means if and only if the base is the start, the offset is not forward, or the file is empty |
| Smem.ForwardSeekGoesToStart | fs/casio_smemfs/file.c:138-144 | a concrete forward seek that lands at position 0 |
| Smem.ReadersAgree | bootloader/smem_file.c:83-187 | on any mix of seeks, block reads and char reads the cursor reader and the offset reader deliver the same bytes and stand at the same place |
| Smem.ReadsAreContiguous | fs/casio_smemfs/file.c:53-129 | successive reads deliver one contiguous stretch of the flat file |
| Areas.AreaList.Find | sys/mem_area.c:84-99 | finds the area of an address if and only if one holds it |
| Areas.AreaList.CheckRange | sys/mem_area.c:106-118 | true exactly when the range meets no area |
| Areas.AreaList.Insert | sys/mem_area.c:121-131 | the area goes in front exactly when it overlaps none, so areas stay disjoint |
| Areas.AreaList.CloneFrom | sys/process.c:298-314 | every clone of fork is inserted, because the parent's areas are disjoint; the child's list is the reverse |
| Areas.AreaUnique | sys/mem_area.c:84-99 | in a disjoint list the area of an address does not depend on list order |
| Areas.ReverseFind | sys/process.c:298-314 | lookup in the child's reversed list gives the parent's area |
| Areas.LoadSegment | bootloader/elf_loader.c:51-61 | memory holds the file bytes below filesz, zeros up to memsz, and is unchanged elsewhere |
| Areas.FillPartialPage | sys/mem_area.c:167-190 | zero-fills exactly the part of the page outside the file bytes and returns how much to read |
| Areas.FillFilePage | fs/casio_smemfs/file.c:176-213 | the faulted page is the page of the eagerly loaded segment, whatever the frame held |
| Areas.PagesAreSegment | bootloader/elf_loader.c:51-61 | the lazily filled pages put end to end are the image the eager loader builds |
| Elf.HeadersExact | loader/elfloader/loader.c:111-117 | the program headers seen are the ones announced if and only if all of these lie in the file; otherwise they end in front of the first that does not |
| Elf.GetHeader | loader/elfloader/loader.c:178-202 | accepted if and only if the file holds a whole ELF header whose magic, class, byte order, versions, ABI, type, machine and entry sizes are the expected ones |
| Elf.GetEntry | loader/elfloader/loader.c:112-117 | program header i is read if and only if it lies wholly in the file, at the place a 32-bit signed offset leads to, and is the one there |
| Elf.BootHeader | bootloader/elf_loader.c:83-86 | the bootloader accepts exactly the same headers |
| Elf.BootEntry | bootloader/elf_loader.c:95-100 | and reads exactly the same program headers |
| Elf.EntryRoundTrip | loader/elfloader/elf.h:92-101 | a program header laid out in bytes reads back, field by field |
| Elf.FileRoundTrip | loader/elfloader/elf.h:32-101 | headers laid out in front of anything else are accepted, complete, and read back as they were |
| Loader.LoadKernel | bootloader/elf_loader.c:65-126 | -1 exactly for a header that is not accepted, -2 exactly for one that announces a program header outside the file, the jump otherwise; in each case every byte of memory is that of the last segment read whose physical addresses cover it, and untouched where none does |
| Loader.LoadAll | loader/elfloader/loader.c:95-174 | succeeds if and only if the ELF header is accepted, all program headers lie in the file, all segments are page-aligned and no areas overlap; maps them front first up to the one refused or missing, and computes the break |
| Loader.Load | loader/elfloader/loader.c:58-92 | leaves exactly the areas of the file, stack included unless it did not load or a segment is in its way, and returns 0 whether or not the file could be loaded |
| Loader.ProgressExact | loader/elfloader/loader.c:111-131 | mapping goes through to the last header if and only if all segments are page-aligned and no areas overlap, and what was mapped before a refusal is aligned and disjoint |
| Loader.LoadableExact | loader/elfloader/loader.c:98-131 | the loader gets through the file if and only if header, program headers, alignment and overlap are as required |
| Loader.BreakIsBeyond | loader/elfloader/loader.c:119-125 | the break is beyond every loaded segment |
| Loader.AreasAreEager | loader/elfloader/loader.c:207-222 | at every address the mapped area stands for the byte the eager load puts there, and there is none where it puts none |
| Loader.DemandIsEager | bootloader/elf_loader.c:92-109 | a program mapped lazily and brought in page by page is the program loaded at once, placed at its virtual addresses, for all program headers |
| Mmu.SwitchIsClean | arch/sh/mmu.c:73-109 | a new identifier was nobody's and has no TLB entry, used ones stay used, and the switch fails exactly when all are in use |
| Mmu.Unit.SwitchTo | arch/sh/mmu.c:73-109 | search, cleaning and flush together do what the switch specification says, state by state |
| Mmu.Unit.CleanDirty | arch/sh/mmu.c:82-88 | every dirty identifier becomes free and the last of them is taken |
| Mmu.Unit.Release | arch/sh/mmu.c:115-124 | the identifier becomes dirty and the address space loses it |
| Paging.TlbMiss | arch/sh/exception.c:164-274 | the access is allowed exactly when the page is present or an area covers it; the page table gains exactly the faulted page with the frame the area prescribes |
| Paging.AreaFault | sys/mem_area.h:173-183 | takes the first free frame and fills it as the kind of area says |
| Paging.CopyPage | sys/memory.c:98-129 | the child gets a fresh frame with the same contents and flags |
| Paging.ForkCopyIsCopy | sys/process.c:316-329 | the copied table has the parent's pages, each on a frame of its own with equal contents, and no other frame in use changes |
| Paging.ForkPages | sys/process.c:316-329 | the double loop over directories and entries copies every present page once |
| Paging.TeardownReleases | sys/process.c:231-237 | after releasing, the listed frames are free and every other page is as before |
| Paging.ReleasePages | sys/process.c:231-237 | the directory loop gives back every page of the process exactly once and leaves an empty list |
| Paging.ReleaseDir | sys/memory.c:148-154 | releases the valid entries of one directory |
| Paging.ReleaseEntry | sys/memory.c:133-144 | a valid page goes back to the free list and loses its flag, an invalid one changes nothing |
| World.TransferKeepsPartition | arch/sh/physical_memory.c:128-167 | a step that moves pages between owners one to one keeps exactly one owner per page |
| World.ForkedKeeps | sys/process.c:257-371 | fork keeps one owner per page, disjoint areas, identifiers and TLB sound |
| World.DispatchedKeeps | sys/process.c:173-191 | a context switch gives the process an identifier of its own under which only its own translations are in the TLB |
| World.FaultedKeeps | arch/sh/exception.c:186-224 | a fault moves one free page to one process and keeps everything else |
| World.TlbLoadedKeeps | arch/sh/exception.c:250-258 | loading the entry of a page of the running process, whatever the hardware drops for it, keeps every TLB entry an entry of the page table of the process its identifier belongs to |
| World.EmptiedKeeps | sys/process.c:231-237 | releasing all pages of a process keeps one owner per page and the identifiers sound |
| KernelRuns.SwitchSucceeds | arch/sh/mmu.c:73-109 | with at most CONFIG_PROC_MAX processes a switch never runs out of identifiers (pigeonhole) |
| KernelRuns.NextKeepsInv | sys/process.c:195-371 | every kernel step, exec of a file that loads included, keeps page ownership, areas, identifiers, TLB and the process limit |
| KernelRuns.BootIsSound | arch/sh/physical_memory.c:86-124 | the state after boot, all pages free and no identifier used, is sound |
| KernelRuns.RunKeepsInv | sys/process.c:195-662 | over every run whose programs load: one owner per page, disjoint identifiers, no TLB entry that a page table does not have |
| KernelRuns.RunConservesPages | arch/sh/physical_memory.c:128-167 | over every such run the pages are the same, each is owned, by exactly one of free list slot, kernel, kernel stack or (process, virtual page) |
| KernelRuns.FailedSharesStack | loader/elfloader/loader.c:58-92 | after a failed load the process goes on with a stack that was given back |
| EagerImage.Simulates | arch/sh/exception.c:164-274 | every kernel step is the same step of a machine with eager loads and whole copies, seen through the images of the processes |
| EagerImage.LoadSeesImage | arch/sh/exception.c:226-258 | a user access that hits the TLB reads the byte of the eager image |
| EagerImage.ForkedImage | sys/process.c:298-330 | a child sees what its parent sees, on present pages and on pages not yet faulted |
| EagerImage.RunRefinesEager | bootloader/elf_loader.c:51-61 | over every such run, in any order of faults, forks, stores, exits and execs, processes see what the eager machine shows |
| EagerImage.RunIsolates | sys/process.c:316-330 | whatever the others do, fork relatives included, a process that does not run keeps its whole image |
| ArgLayout.ArgPages.CopyString | sys/process.c:464-493 | one string with its NUL is copied downwards over page borders, nothing else changes |
| ArgLayout.ArgPages.CopyOne | sys/process.c:455-507 | string k and pointer k are laid out and everything laid out before stays |
| ArgLayout.ArgPages.CopyArgArray | sys/process.c:404-517 | all strings and pointers are laid out, the pointer array ends with NULL, count, address and next free position are right, and the pages present are exactly those down to the last string |
| ArgLayout.ArgPages.CopyArgsAndEnv | sys/process.c:549-556 | the environment goes below the arguments and leaves them intact, in pages that are all present from the top on; a list that is NULL has address NULL |
| ArgLayout.ArgumentReads | sys/process.c:404-517 | in the copied pages, following argv[k] gives exactly string k, NUL-terminated |
| ArgLayout.ThroughMapping | sys/process.c:620-636 | mapped page by page below the stack top, the byte at an address is the byte laid out for it |
| ArgLayout.CursorExact | sys/process.c:500-504 | the pointer cursor stays on its slots if and only if the array lies in one page |
| ArgLayout.CursorLeavesArray | sys/process.c:500-504 | with 256 arguments the second pointer goes two pages too low |
| ExecRuns.ExecPartitionExact | sys/process.c:599-655 | exec keeps one owner per page if and only if the ELF header in the file is accepted, every program header it announces lies in the file, every segment is page-aligned and no two overlap; otherwise the running process's kernel stack is the first free page |
| ExecRuns.NoProgramFails | loader/elfloader/loader.c:98-103 | every file without an acceptable ELF header breaks it, and leaves no area |
| ExecRuns.WrongMagicFails | loader/elfloader/loader.c:181-183 | one such file: a header with one letter of the magic wrong |
| ExecRuns.CutFileFails | loader/elfloader/loader.c:113-117 | so does a file that ends one byte before its only program header does |
| ExecRuns.UnalignedFileFails | loader/elfloader/loader.c:210-221 | so does a program file whose only segment starts at address 1 |
| ExecRuns.OverlappingFileFails | sys/mem_area.c:121-131 | and one that maps a page twice |
| ExecRuns.RunPartitionExact | sys/process.c:521-662 | over every run in which programs are executed from their files, each page keeps one owner if and only if the loader accepts all of these files: header, program headers, alignment and overlap |
| ExecRuns.FileRunsAreRuns | sys/process.c:521-662 | as long as the files load, these are the runs of the kernel |
| ExecRuns.FileRunsRefineEager | bootloader/elf_loader.c:92-109 | and processes see what the eager machine shows |
| ExecRuns.ExecReadsFile | arch/sh/exception.c:164-274 | after exec of a file that loads and any run that does not write the page, a load that hits the TLB reads the byte the eager load puts at that address |
| ExecRuns.HitReads | arch/sh/exception.c:226-258 | what an image holds is what the process reads however its pages get into the TLB, as long as the page is not written |
| ExecRuns.LaidIsVector | sys/process.c:620-630 | mapped below the stack top, the copied pages hold at argv a pointer to each string and then NULL |
| ExecRuns.ExecArguments | sys/process.c:549-636 | after exec the process finds argv and envp at the addresses it is given: every pointer leads to its whole string in pages that are mapped, and both arrays end with NULL, whatever the segments are |
| Pool.SlotRounds | utils/pool_alloc.c:117-125 | rounding the address of an object down to a page gives the page it belongs to, and the object lies inside it |
| Pool.TerminatorExact | utils/pool_alloc.c:47-52 | the final NULL stays in the page if and only if the objects leave at least four bytes |
| Pool.TerminatorLeavesPage | utils/pool_alloc.c:47-52 | objects of four bytes put it into the next page |
| Pool.PoppedKeeps | utils/pool_alloc.c:102-110 | taking the first free object keeps chains, page list, counts and first_nonfull sound, and the object was not in use |
| Pool.WithPageKeeps | utils/pool_alloc.c:92-100 | a new page in front adds its objects, all free, and disturbs no other page |
| Pool.PushedKeeps | utils/pool_alloc.c:117-135 | giving back an object in use keeps all of it sound |
| Pool.WriteKeeps | utils/pool_alloc.c:21-24 | an owner may store any word anywhere in its object without harm to the chains in free objects |
| Pool.LiveApart | utils/pool_alloc.c:86-113 | objects in use never overlap |
| Pool.PushedKeepsContents | utils/pool_alloc.c:129-134 | freeing one object leaves every word of every other object in use alone |
| Pool.TakeIsFresh | utils/pool_alloc.c:86-113 | whatever pool_alloc hands out overlaps no object in use |
| Pool.RunConserves | utils/pool_alloc.c:30-135 | over every run of allocations, frees and writes, objects in use plus the sum of nbempty are pages times perpage, and each is an object of its rounded page |
| Pool.NeedlessPageExact | utils/pool_alloc.c:86-135 | over every run pool_alloc takes a page although an object is free if and only if an object was given back while first_nonfull was NULL and no page was added since |
| Pool.TwoPagesForOne | utils/pool_alloc.c:129-134 | objects of 512 bytes: take, give back and take again ends with two pages for one object |
| Pool.Allocator.NewPage | utils/pool_alloc.c:30-56 | for every object size the linking loop chains all objects of the page in order; all words it writes lie in the page if and only if the objects leave at least four bytes |
| Pool.Allocator.GetFirstNonfull | utils/pool_alloc.c:60-68 | the first page of the list with a free object, NULL if all are full |
| Pool.Allocator.CheckPageOwned | utils/pool_alloc.c:72-82 | true exactly for the pages of the pool |
| Pool.Allocator.Alloc | utils/pool_alloc.c:86-113 | NULL exactly when first_nonfull is NULL and no page is given; otherwise an object that was not in use, from the right page |
| Pool.Allocator.Free | utils/pool_alloc.c:117-135 | an object of the pool becomes free, an address outside its pages changes nothing |
| InodeCache.Cache.constructor | fs/vfs_cache.c:39-48 | the cache starts as the empty map |
| InodeCache.Cache.Find | fs/vfs_cache.c:52-63 | returns the address the map holds for the key, NULL if none |
| InodeCache.Cache.Alloc | fs/vfs_cache.c:67-82 | for a key that is not cached, as fs/vfs.h asks, the map gains exactly the new key, in its bucket, other entries untouched |
| InodeCache.Cache.Remove | fs/vfs_cache.c:85-106 | the map loses exactly the key and its entry is unlinked, first or not in its chain |
| InodeCache.InsertKeeps | fs/vfs_cache.c:73-79 | linking in front of one bucket keeps every chain sound |
| InodeCache.UnlinkKeeps | fs/vfs_cache.c:98-105 | unlinking any entry keeps every chain sound |
| InodeStore.Store.constructor | fs/vfs.c:176-187 | after the root mount the cache holds the root inode |
| InodeStore.Store.GetInode | fs/vfs.c:84-104 | the cache is asked first, so a key is entered only when it is absent; the inode is returned by its address, a cached one by the address it had, and the table by key gets exactly one more reference |
| InodeStore.Store.ReleaseInode | fs/vfs.c:66-81 | by address: one reference less in the table by key, and the entry leaves the hash table exactly when the last one goes and it is no root or mount point |
| InodeStore.GettingIsBump | fs/vfs.c:84-104 | taking an inode by address is taking a reference in the table by key, and keeps addresses distinct |
| InodeStore.DroppingIsDrop | fs/vfs.c:66-81 | releasing by address is releasing in the table by key |
| InodeStore.MountingIsMounted | fs/vfs.c:205-217 | so is the end of a mount |
| InodeStore.LiveKeepsAddress | fs/vfs_cache.c:52-106 | over every run of lookups, releases and mounts a file that stays cached keeps its address |
| InodeStore.ReferenceKeepsLive | fs/vfs.c:66-104 | a reference that is not released keeps its file cached all along a run |
| InodeStore.TwoLookups | fs/vfs.c:84-104 | two lookups of a live file give the same object, whatever happens in between |
| InodeStore.PinnedKeepsAddress | fs/vfs.c:205-217 | over every run the addresses of roots and mount points, which refer to each other by pointer, stay right |
| Volumes.CreatedFound | fs/protofs/file_system.c:193-224 | after a node is created every lookup is what it was, except that the new name finds the new node unless an older namesake comes first |
| Volumes.ProtoFs.FirstChild | fs/protofs/file_system.c:94-115 | the child with the lowest node number, none for files and empty directories |
| Volumes.ProtoFs.NextSibling | fs/protofs/file_system.c:117-139 | the next child of the same directory by node number |
| Volumes.ProtoFs.FindSubNode | fs/protofs/file_system.c:142-166 | the first child with the name, none if the target is no directory |
| Volumes.ProtoFs.CreateNode | fs/protofs/file_system.c:193-224 | fills the first empty slot and nothing else, fails exactly when none is empty; every node stays below a directory if and only if the parent is a directory in use |
| Vfs.BumpKeeps | fs/vfs.c:84-104 | taking a reference keeps the tree of cached inodes and its mounts sound |
| Vfs.DropBump | fs/vfs.c:66-104 | releasing a reference just taken restores the table exactly, eviction included |
| Vfs.DropOther | fs/vfs.c:272-277 | references to two inodes can be taken and released in any order |
| Vfs.PinnedStays | fs/vfs.c:66-81 | no release evicts a root or a mount point |
| Vfs.NoParentExact | fs/vfs.c:307-319 | ".." leads nowhere if and only if the inode is a root without mount point, the global root among them |
| Vfs.StepFromTwin | fs/vfs.c:296-331 | any name other than "." leads to the same inode from a mount point and from the root on it |
| Vfs.ChildParent | fs/vfs.c:307-328 | entering an existing child and taking ".." comes back to the same place |
| Vfs.TwinOfTwin | fs/vfs.c:335-361 | vfs_resolve_mount is its own inverse between a mount point and the root on it |
| Vfs.MountStepsExact | fs/vfs.c:205-217 | whatever the parent field of the new root held, after a mount names below the directory are those of the new root, all other steps are unchanged and directory and new root lead to the same places, if and only if the directory is not the root of a file system |
| Vfs.RootMountSteps | fs/vfs.c:307-319 | after a mount on a root, .. from it leads to the node the unset parent field of the new root names, if there is one; it used to lead to the parent of its own mount point, or nowhere from the global root |
| Vfs.MountedSteps | fs/vfs.c:205-217 | after a mount, names below the directory are those of the new root and every other step is unchanged |
| Vfs.Tree.constructor | fs/vfs.c:176-187 | after the root mount the table holds the root inode, counted once |
| Vfs.Tree.GetInode | fs/vfs.c:84-104 | None exactly for a node the file system does not have, otherwise one more reference and nothing else |
| Vfs.Tree.ReleaseInode | fs/vfs.c:66-81 | one reference less, evicted at zero, never for the last one of a root or mount point |
| Vfs.Tree.WalkEntry | fs/vfs.c:296-331 | returns where the name leads, with one more reference to it and no other change |
| Paths.NamesJoin | fs/vfs.c:261-282 | the names of two paths joined by a slash are the names of the one and then of the other |
| Paths.DoubleSlash | fs/vfs.c:231-290 | a doubled or leading slash never changes where a path leads |
| Paths.DotInPath | fs/vfs.c:301-306 | "/." inserted anywhere never changes where a path leads |
| Paths.ChildAndBack | fs/vfs.c:296-331 | "/x/.." inserted anywhere, for an existing child x, leads to the same place up to mount point and mounted root |
| Paths.StepsRespectSame | fs/vfs.c:296-331 | from a mount point and from the root on it the same names lead to the same place |
| Paths.ConservesExact | fs/vfs.c:245-254 | resolution changes no count but one more for its result if and only if the path is absolute or there is no working directory |
| Paths.RootPathChanges | fs/vfs.c:307-319 | mounting on / makes the path /.., which led nowhere, lead into the new file system |
| Paths.MountedRootPathChanges | fs/vfs.c:307-319 | after a mount on the root of a mounted file system every path that still leads to it changes its meaning when /.. is appended |
| Paths.NestedMountChanges | fs/vfs.c:205-217 | a concrete tree where /mnt/x/../.. led to / and no longer does |
| Paths.CopyName | fs/vfs.c:261-269 | copies exactly the next name, inside the buffer |
| Paths.Resolve | fs/vfs.c:231-290 | the loop ends for every path with short names, returns what the path means, and leaves one more reference to it, none on failure, on top of the table it started from |
| Paths.Mount | fs/vfs.c:156-228 | succeeds if and only if a place in the table is free, the path leads somewhere, to a directory, and an instance is given, and then takes the first free place; keeps the reference of a failed attempt; on success the two inodes refer to each other and the tree is sound exactly if the directory was no root |
| VfsRuns.BootGood | fs/vfs.c:176-187 | after the root mount the tree is sound and the one count is the root's pin |
| VfsRuns.RunConserves | fs/vfs.c:66-104 | over every run each count is the references held plus the pins, and with none held only roots and mount points are cached |
| VfsRuns.PinsStay | fs/vfs.c:205-217 | roots and mount points stay cached for the rest of every run |
| VfsRuns.ReleasingGood | fs/vfs.c:66-81 | releasing a held reference keeps the account and the tree |
| VfsRuns.MountingGood | fs/vfs.c:197-217 | a mount pins the two inodes and keeps the account and the tree |
| Directory.ChildrenExact | fs/protofs/file_system.c:94-139 | walking by first child and next sibling meets each child exactly once, by increasing node number |
| Directory.BatchIsSound | fs/vfs_directory.c:79-103 | records are 4-aligned, one behind the other, inside the buffer, with room for their names, in sibling order, and the next one did not fit |
| Directory.CallsInOrder | fs/vfs_directory.c:56-120 | whatever the buffers, successive calls list a run of the entries, none twice |
| Directory.CallsListAll | fs/vfs_directory.c:56-120 | with buffers large enough for the next record all remaining entries are listed |
| Directory.ListingComplete | fs/vfs_directory.c:56-120 | a whole listing contains exactly the children, each once, in order |
| Directory.SeekResumes | fs/vfs_directory.c:41-53 | the reported position counts the entries listed, and listing up to it and, after seeking to it, from it on is one uninterrupted listing |
| Directory.FirstChild | fs/vfs.c:107-119 | the first entry, of the mounted root on a mount point, with one reference; none for what is no directory |
| Directory.NextEntry | fs/vfs.c:122-128 | steps to the next entry, moving the one reference along |
| Directory.GetDents | fs/vfs_directory.c:56-120 | delivers exactly the records that fit from the position on, advances by their number, and leaves every count as it was |
| Fifo.Ring.Push | utils/cyclic_fifo.c:23-52 | the stored bytes grow by the data, cut to the room left, in every wrap case |
| Fifo.Ring.Pop | utils/cyclic_fifo.c:55-84 | returns and removes the oldest bytes, in every wrap case |
| Fifo.PipePage.constructor | fs/pipe.c:69-74 | a new pipe stores nothing |
| Fifo.PipePage.Write | fs/pipe.c:113-125 | waits exactly when the data does not fit; otherwise all bytes are appended to what was written |
| Fifo.PipePage.Read | fs/pipe.c:96-109 | waits exactly when less is stored; otherwise the next bytes in writing order are delivered |
| Fifo.RunInOrder | fs/pipe.c:96-125 | over any interleaving the bytes read are a prefix of the bytes written and the rest is stored, never above capacity |
| Fifo.BothWaitExact | fs/pipe.c:96-125 | a run of the pipe reaches a state where a read and a write wait for each other if and only if both move something and together more than the buffer size plus one |
| Fifo.SixHundredEach | fs/pipe.c:101-121 | with 500 bytes stored, a read of 600 and a write of 600 wait for each other |
| Fifo.TransferCompletes | fs/pipe.c:96-125 | a reader and a writer whose lengths never block each other, and add up, come to a halt only when everything is written and read, however they are scheduled |
| Tty.InputExact | sys/tty.c:120-229 | one input character follows the buffer-free line editing fold if and only if line and input buffer have room |
| Tty.FullLineIsStuck | sys/tty.c:190-192 | with 127 characters pending everything but erase and kill is lost, the newline included |
| Tty.SessionIsFold | sys/tty.c:120-250 | over any session of typing and reading with room, bytes read plus bytes ready plus pending line are the fold of what was typed |
| Tty.EraseShows | sys/tty.c:93-117 | an erasure takes back exactly the columns echoed for the character |
| Tty.KillShows | sys/tty.c:165-176 | a kill takes back exactly the columns of the whole line |
| Tty.DisplayExact | sys/tty.c:120-229 | after any character the display shows prompt and pending line if and only if no signal character was echoed behind a non-empty line |
| Tty.DisplayInSync | sys/tty.c:120-229 | over every input without such a character the display shows the line being edited |
| Tty.Terminal.InputChar | sys/tty.c:120-229 | line buffer, input FIFO, display output and signals change as specified for every character and termios |
| Tty.Terminal.Read | sys/tty.c:232-250 | waits exactly while no input is ready; otherwise delivers the oldest ready bytes, at most the length asked for |
| Scheduler.IdleExact | sys/scheduler.c:88-107 | the idle task is chosen if and only if no task is RUNNING |
| Scheduler.DecisionApproaches | sys/scheduler.c:88-107 | each decision chooses a waiting RUNNING task or brings it nearer |
| Scheduler.BoundedDecisions | sys/scheduler.c:88-107 | a task that stays RUNNING is chosen within its cyclic distance, at most SCHED_MAX_TASKS decisions, whatever the others do |
| Scheduler.WithinMaxTasks | sys/scheduler.c:27-35 | hence within SCHED_MAX_TASKS decisions |
| Scheduler.BoundedWaiting | sys/scheduler.c:139-158 | and within SCHED_MAX_TASKS times SCHED_QUANTUM_TICKS clock ticks that find preemption open, over every run of ticks, interrupts, yields and state changes |
| Scheduler.Sched.constructor | sys/scheduler.c:58-69 | empty task array, full quantum, preemption open |
| Scheduler.Sched.AddTask | sys/scheduler.c:72-85 | the first free slot gets the new process in state RUNNING, refused exactly when none is free |
| Scheduler.Sched.ContextSavedNext | sys/scheduler.c:88-107 | the cyclic search makes the specified choice and starts a new quantum |
| Scheduler.Sched.ClockTick | arch/sh/interrupt.c:155-179 | a clock interrupt counts down and switches exactly when due and not blocked |
| Scheduler.Sched.PreemptUnblock | sys/scheduler.c:166-172 | the level goes down, never below zero |
| Pids.WordExact | utils/bitfield.h:40-47 | setting or clearing one bit of a word changes no other bit |
| Pids.BitsAreSet | utils/bitfield.h:35-47 | the bit array is a set: set adds one element, clear removes one |
| Pids.Table.constructor | sys/process.c:87-95 | only identifier 0 is used at the start |
| Pids.Table.GetPid | sys/process.c:709-722 | the wrapping search ends, on the first unused identifier after the last one given, never 0 |
| Pids.Table.ReleasePid | sys/process.c:725-728 | exactly this identifier becomes unused; anything out of range changes nothing |
| Pids.SomeFree | sys/process.c:715-717 | while fewer than CONFIG_PID_MAX are used one is free |
| Pids.Processes.Alloc | sys/process.c:110-160 | fails exactly at the process limit or without memory; the new identifier differs from those of all live processes |
| Pids.Processes.Free | sys/process.c:163-170 | the process and its identifier go, the others stay distinct |
| Rtc.YearStep | arch/sh/rtc.c:70-75 | the year formula grows by 365 or, in a leap year, 366 days |
| Rtc.MonthStep | arch/sh/rtc.c:60-65 | the month tables are the running sums of the month lengths |
| Rtc.ClosedFormCounts | arch/sh/rtc.c:72-82 | counting day by day from 1970, the closed form of the nth date is n |
| Rtc.EveryDateIsCounted | arch/sh/rtc.c:72-82 | every valid date from 1970 is reached after as many days as the closed form says |
| Rtc.YearFitsExact | arch/sh/rtc.c:72-75 | from 1970 on the int arithmetic does not overflow if and only if the year is at most 2038 |
| Rtc.GetTime | arch/sh/rtc.c:54-92 | the result is the second count modulo 2^32, and the true count for every valid date up to 2038 |

## Left out

- Assembly, register contexts, interrupt masks and device drivers: hardware behaviour.
- Display VRAM mapping, mem_area_resize and sbrk: they map or grow memory outside the ownership and overlap rules modelled here.
- Shared pages: CopyPage and ReleaseEntry cover private pages, the only ones the kernel creates for processes.
- Open-file counts, signal masks, wait queues, sys_wait status, shared libraries, printk, sysctl and configuration parsing.
- Page contents of anonymous memory before the first write are arbitrary, as in the source.
- Reference counts are unbounded; the 16-bit wrap-around of an inode's count is not modelled.
- Paging.TlbMiss: the directory pool has room; what the callers of mem_insert_page do after it fails, whose result they ignore, is not modelled.
- Vfs.Tree.GetInode: an inode is allocated whenever one is needed; the failure of the pool, after which the source writes through NULL, is not modelled.
- InodeStore.Store.GetInode: the pool has an object left, as for Vfs.Tree.GetInode.
- Vfs.Tree.constructor: vfs_register_fs and the search for a file system by name are parameters of mounting.
- Paths.Resolve: names are shorter than INODE_MAX_NAME, since the source copies them into a buffer of that size unchecked; a working directory holds a reference of its own.
- InodeCache.Cache.Alloc: linking the entry and the filling of its two key fields by the file system are one step.
- Volumes.ProtoFs.CreateNode: device numbers and modes, and the copy of the name into its fixed buffer, are not modelled.
- ArgLayout.ArgPages.CopyArgArray: the arguments fit the pages for arguments; running out of them, and allocation failure, are not modelled.
- Loader.LoadAll: programs that need no shared library; the loading of those, allocation failure, and segments that wrap around the end of the address space are left out.
- Loader.Load: as for Loader.LoadAll.
- Loader.LoadKernel: segments lie in the file, which the source trusts, and in the memory given; the command line is left out.
- ExecRuns.ExecPartitionExact: segments lie in the file and the address space, which the source trusts; no shared library, and a page is left for every allocation.
- Paging.ForkPages: one fork is one step in which only the child's pages are taken; pages that the pools for directories, areas and processes take in between come before or after it, so the child's frames are consecutive in the free list here.
- KernelRuns.RunKeepsInv: runs whose programs all load, which ExecRuns.RunPartitionExact shows to be the ones that keep it; and a step that would need a page when none is free is not taken, because pm_get_free_page spins.
- Smem.ReadData: positions are inside the file; past its end the source's arithmetic is undefined.
- Fifo.PipePage.Write: one look at the waiting condition is one call; the release of the page by the last end is left out.
- Tty.DisplayExact: every echoed character is one column, a tab included; special characters are below 128 and do not coincide.
- Scheduler.BoundedWaiting: signals and the context switch itself are left out.
- Rtc.GetTime: register digits are taken as read in one instant.
