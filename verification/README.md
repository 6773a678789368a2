# Ironkernel: a verified model

Ironkernel is a small 64-bit kernel with a shell, a FAT32 volume, forked processes, pipes, a network
stack and a few user programs. This project models its stateful cores in Dafny and proves what they
promise: `dafny verify dfyconfig.toml` checks everything.

The C code changes things in place, so the model does: the frame bitmap, physical memory, the FAT and
the disk, the heap, the task and pipe tables, the pipe buffer, the editor's line array and TCP segments
are arrays or fields of classes, their functions are methods with the same branches and loops, and each
method is proved against a specification function or predicate. The theorems about whole runs are lemmas
about those specifications.

## What is modelled

**Memory** (`Pmm`, `Words`, `PageTables`, `UserSpaces`, `Rights`, `FrameCounts`, `Vmm`, `ForkSteps`, `Fork`, `Boot`,
`KernelStart`, `Reach`, `BootedForks`, `SpaceLives`, `Elf`, `Isolation`). Physical memory is one array of frames of
512 page-table words; every page table is itself such a frame. A ghost map gives each frame of an address space its
role (root, PDPT, directory, table of directory slot i, user page of slot (i, j)). The invariant `Machine.Valid` says
that the kernel's tables and those of every process are trees, that processes own disjoint sets of frames, that what a
process has of the kernel's tables sits where the kernel has it, and that no owned frame is in the free set, which is
exactly the set of clear bits of the bitmap. Creating, mapping and freeing user pages keep it, and so do forking and
loading; when the kernel maps pages of its own (`MapKernelPage`), the frames its tables take become the kernel's.
Out-of-memory is exact: `FramesFor(pages)` is three tables, a frame for every page and one for every 2 MB row that has
a page, and creating and loading succeed if and only if that many frames are free, forking with one more frame for
every page copied over a kernel entry. `KernelStart` and `BootedForks` go from the tables of boot.asm through
heap_init to the forks of the running kernel, and `Reach` says which frames the kernel finds at their own addresses
meanwhile. `Rights` says what ring 3 may load and store by the bits of all entries on the way, and every operation
states what it makes of that. `Isolation` adds stores of processes and shows that they do not interfere.

**Files** (`FatTable` to `FatWriting`, `FatOperations`, `FatRuns`, `FatLayout`, `CwdPath`, `Cwd`, `CwdDepth`). The
volume is the FAT as bytes (top nibbles included) and an array of sectors. A ghost catalog names the chains and
directories; what a name stands for does not depend on its choice (`FatFinds.FindDetermined`). `Consistent` says that
chains are in range, end in an end-of-chain mark, are acyclic and pairwise disjoint, that every visible entry names a
chain of its own, that names are unique in a directory, and that no entry behind the first 0x00 byte is in use. `Find`
is what a name stands for: nothing, a file with its bytes, or a directory. Every operation is specified by what it does
to `Find`, for the name it is given and for all other names in all directories, and succeeds under an exact condition on
free clusters. `FatLayout` and `FatOperations.OnDisk` say where chains, entries and bytes of files lie on the disk.

**Processes and pipes** (`FdCounts`, `Processes`, `Fairness`, `PipeRing`, `PipeSteps`). `Kernel` is the task table and
the pipe table with the system calls as methods; its invariant counts, for every pipe end, the descriptors of all
tasks that name it. `Fairness` and `PipeSteps` are transition systems: ticks, and single loads and stores of one
writer and one reader on the ring.

**The kernel heap** (`HeapBlocks`, `Heap`), **the editor** (`EditorText`, `Editor`), **checksums** (`Checksum`, `Tcp`)
and **DNS names** (`Dns`).

## Where the code does not do what it promises

Each of these is proved as an exact condition, and most with an input that fails.

- `vmm_clone_user_pt` does not test the USER bit of directory entries: it copies pages below 4 KB tables of the kernel,
  writes the copies into these tables (`vmm_map_page_in` does not look whose they are, `Vmm.KernelUntouchedIff`), and
  their frames are never given back. A fork can be undone if and only if it meets no such page
  (`ForkSteps.CloneSafe`, `Fork.CloneUserPt`, `Fork.ForkAndReap`). After heap_init every process has 766 such pages, so
  every fork loses 766 frames (`BootedForks.InheritorsUnsafe`, `BootedForks.ForkAfterStart`); the child is an exact copy
  all the same (`BootedForks.BootedViews`). User pages mapped at these slots are lost in the same way
  (`SpaceLives.Live`).
- The paging code reaches frame f at address 4096 f, through the kernel's own mapping. heap_init takes this away from
  the frames numbered like the pages of the heap and its guards, 4095 to 4352 (`KernelStart.IdentityAfterStart`), and
  the first fork from the pages it copies over, 3584 to 4094 and 4353 to 4607, except where a page gets the frame of its
  own number (`BootedForks.IdentityAfterFork`). The memory model reads and writes frames by their numbers, so it
  describes the running kernel as long as it finds the frames it handles where it looks for them. In the booted kernel
  that is so while all frames handed out lie below 3584 (`BootedForks.ForkReaches`); a run has that property if enough
  low frames are free at the start (`BootedForks.ForkAfterStart`), which is possible for four forks at most
  (`BootedForks.FewRounds`). What happens when a frame from 3584 to 4607 is handed out after a fork is not modelled.
- `elf_exec` and SYS_EXEC lose one frame when the page tables run out of memory (`Elf.RunProcess`), for example with four
  free frames (`Elf.FourFramesLoseOne`).
- `kmalloc` rounds a request up in 64 bits: the three largest sizes round to 0 and get a region that is too small
  (`Heap.LargeEnough`, `Heap.HugeRequest`).
- `fat32_write_file` computes the number of clusters in 32 bits: for lengths within one cluster of 4 GB it wraps and only
  one cluster is stored (`FatBytes.ClustersHold`, `FatRuns.WriteThenRead`).
- `fat32_write_file` cuts names at an inner space but looks them up uncut (`FatDir.EncodedMatchesItself`,
  `FatDir.InnerSpaceIsCut`).
- `pmm_init` truncates a region's base to 32 bits and does not round it to pages: it can release frames that are not
  wholly available (`Pmm.ReleasedIsDescribed`, `Pmm.RegionAtFourGigabytes`), and overlapping regions make the counter
  too large (`Pmm.CountExactIffDisjoint`, `Pmm.PageListedTwice`).
- dup2 of a descriptor onto itself frees a pipe that is still held when it is the last descriptor for it
  (`Processes.Kernel.SysDup2`, `Processes.SelfDupFreesHeldPipe`).
- The directory stack has eight slots: entering a ninth level makes the record inexact (`Cwd.PushedTracks`,
  `CwdDepth.NineLevels`).
- The editor saves 256 lines but loads them back only if the last is empty (`EditorText.SaveLoad`,
  `EditorText.FullBufferLosesLine`).
- `dns_skip_name` need not end on messages of more than 65344 bytes (`Dns.EndsIff`, `Dns.CycleGoesOn`).
- `dns_expand_name` with a limit of 0 uses 65535 instead (`Dns.StaysBelowOutmax`).
- The 32-bit checksum accumulator can wrap if and only if there are more than 131074 bytes (`Checksum.NoWrapIff`).

## Model

| member | source | states |
|---|---|---|
| `Pmm.FrameAllocator.AllocFrame` | src/kernel/pmm.c:280-314 | succeeds exactly when a frame is free, and hands out the lowest one, from 256 (1 MB) to 262143 (1 GB); the free set loses just that frame, and what is taken in a row lies below what is left |
| `Pmm.FrameAllocator.FreeFrame` | src/kernel/pmm.c:316-322 | the free set gains just that frame and the counter goes up by one; counter and bitmap stay in step, and the first megabyte stays reserved, if and only if the frame was in use and above it |
| `Pmm.FrameAllocator.Init` | src/kernel/pmm.c:185-256 | free are exactly the frames the regions release, less the first megabyte and the kernel image; the counter is exact if and only if no two regions share a page |
| `Pmm.FrameAllocator.ReleaseRegion` | src/kernel/pmm.c:188-211 | the region walk adds exactly the frames from the truncated base up to the end, and counts each one |
| `Pmm.FrameAllocator.ReserveRange` | src/kernel/pmm.c:226-256 | the reservation loops take a range out of the free set and keep the drift of the counter |
| `Pmm.ReservedFrames` | src/kernel/pmm.c:226-256 | reserved are the frames below 1 MB and those that any part of the kernel image lies in |
| `Pmm.CountExactIffDisjoint` | src/kernel/pmm.c:185-217 | counting each frame once per region is exact if and only if the regions are page-disjoint |
| `Pmm.ReleasedIsDescribed` | src/kernel/pmm.c:188-211 | an available region releases exactly the frames wholly inside it if and only if its base is beyond the bitmap even truncated to 32 bits, or its end wraps so that nothing is released and nothing whole, or its bounds are page-aligned as far as the bitmap reaches |
| `Pmm.RegionAtFourGigabytes` | src/kernel/pmm.c:191-206 | an available page at 4 GB makes frame 0 free |
| `Pmm.PageListedTwice` | src/kernel/pmm.c:204-210 | a page in two regions is counted twice |
| `Words.WordRoundTrip` | src/kernel/vmm.c:15-20 | page-table entries as frame and flags correspond one to one to 64-bit numbers |
| `Words.WordBytesRoundTrip` | src/kernel/vmm.c:166-168 | and to eight bytes each, so that copying bytes copies entries |
| `Words.EntryBits` | src/kernel/vmm.h:6-9 | PRESENT, RW, USER and PS are bits 0, 1, 2 and 7 of an entry, and its frame starts at bit 12 |
| `Words.WordBytesAre` | src/kernel/vmm.c:166-168 | the eight bytes of an entry, the lowest first |
| `Rights.RightsInSpace` | src/kernel/vmm.c:85-133 | what the USER and RW bits of all entries on the way allow ring 3: in every space it may load exactly where the space has a user page, and store exactly where that page is writable |
| `PageTables.LinkSplit` | src/kernel/vmm.c:108-121 | putting a table of 512 small pages in place of a 2 MB page keeps the tree and every translation |
| `PageTables.LinkZeroed` | src/kernel/vmm.c:89-104 | putting a zeroed table under an absent entry keeps the tree and every translation |
| `PageTables.PutLeaf` | src/kernel/vmm.c:129-131 | writing a lowest-level entry changes the translation of that page alone |
| `Boot.BootOk` | src/boot/boot.asm:103-143 | the tables boot.asm builds, no process, and any free set apart from the kernel satisfy every invariant of the memory model; no slot of the kernel's directory is a 4 KB table |
| `Boot.BootIdentity` | src/boot/boot.asm:103-143 | they translate the first gigabyte and the one below 4 GB to themselves and nothing else |
| `Boot.BootRights` | src/boot/boot.asm:103-143 | ring 3 could use the first gigabyte of these tables and nothing else |
| `Vmm.Machine.EnsureEntry` | src/kernel/vmm.c:89-104 | an entry is made present; fails exactly when it is absent and no frame is free, changing nothing |
| `Vmm.Machine.SplitHuge` | src/kernel/vmm.c:108-121 | a 2 MB page becomes 512 small pages with the same translation, at the cost of one free frame |
| `Vmm.Machine.MapPageIn` | src/kernel/vmm.c:85-133 | unless a 1 GB page covers the address, when nothing changes, the page translates to the frame and every other page as before, split pages included; on failure nothing translates differently; fails only when no frame is left |
| `Vmm.Machine.MapPage` | src/kernel/vmm.c:235-286 | the same for the current space: unless a 1 GB page covers the address, the page maps and no other translation changes |
| `Vmm.Machine.MapKernelPage` | src/kernel/vmm.c:235-286 | mapping in the kernel's own tables keeps every invariant: the frames taken for tables become the kernel's, every space keeps its frames, pages and flags, and no other frame changes |
| `Vmm.KernelGrew` | src/kernel/vmm.c:89-131 | a growth of the kernel's tree below a shared directory keeps every space a tree of its own and isolated |
| `KernelStart.HeapInit` | src/kernel/heap.c:82-126 | on the tables of boot.asm, heap_init succeeds exactly with at least 257 free frames; it maps 256 of them at 16 MB and a guard on each side (the lower one if a frame is left), and keeps the rest of the first gigabyte mapped as it was, with 4 KB tables just at directory slots 7 and 8 |
| `KernelStart.HeapAddresses` | src/kernel/heap.c:82-126 | address 0x1000000 + 4096 d is the start of heap frame d, the guards lead to frame 0, ring 3 may use neither, and all other addresses below 1 GB stay |
| `KernelStart.IdentityAfterStart` | src/kernel/heap.c:82-126 | after heap_init an address below 1 GB translates to itself if and only if it lies outside pages 4095 to 4352 (heap and guards), or in a heap page that got the frame of its own number |
| `Vmm.MappedAddresses` | src/kernel/vmm.c:215-286 | after it, each of the 4096 addresses translates to its place in the frame, and every address outside the page as before |
| `Vmm.Machine.GetPhysical` | src/kernel/vmm.c:215-230 | the walk computes the translation, with 1 GB and 2 MB pages, and 0 for unmapped addresses |
| `Vmm.Machine.CreateUserPt` | src/kernel/vmm.c:47-79 | a new space of three fresh frames in which ring 3 may do nothing and the kernel finds its first gigabyte where it has it itself; fails exactly when fewer than three frames are free, leaving the free set as it was |
| `Vmm.NewSpaceSees` | src/kernel/vmm.c:47-79 | with the directory copied supervisor-only the kernel finds at every address of its first gigabyte what it finds in its own space |
| `Vmm.Machine.MapUserPage` | src/kernel/vmm.c:85-133 | below 1 GB, at a free slot, with a frame of nobody else: ring 3 may then load from this page, store to it if and only if the flags passed have RW, and elsewhere do what it could before; other spaces and the kernel are untouched; under a directory entry inherited from the kernel the page goes into the kernel's table and neither the space nor its rights change; fails exactly when a table is missing and no frame is free |
| `Vmm.KernelUntouchedIff` | src/kernel/vmm.c:129-131 | a mapping leaves kernel frames alone if and only if it does not write a new entry into a table inherited from the kernel |
| `Fork.CloneUserPt` | src/kernel/vmm.c:140-182 | succeeds exactly when the frames suffice for what the loop copies, and then takes the lowest; a finished child has the parent's pages with their flags and contents, except those below a kernel table, and is an exact copy if and only if the parent has no page beside a kernel table; pages below a kernel table were copied over the kernel's entries, which now lead to the frames lost, one for each, while all other entries are as before; frames are lost if and only if the loop got past such a page; no other frame in use changes |
| `Fork.ForkRights` | src/kernel/vmm.c:140-182 | the parent keeps its rights, and the child may do at every address what its parent may, but nothing at the slots where the kernel has a table |
| `Fork.CloneDirectory` | src/kernel/vmm.c:152-179 | the loop over the parent's directory stops at the end, or at a page that the free frames do not reach |
| `Fork.CloneTable` | src/kernel/vmm.c:157-178 | so does the loop over one table |
| `Fork.ClonePage` | src/kernel/vmm.c:161-177 | one page is copied into a fresh frame and mapped, or the frames do not reach |
| `Fork.CopyPage` | src/kernel/vmm.c:161-168 | a fresh frame gets the contents of the page and is ready to be mapped |
| `ForkSteps.SlotCloned` | src/kernel/vmm.c:161-172 | a page mapped in the child's own table carries the copy one page further |
| `ForkSteps.SlotSpilt` | src/kernel/vmm.c:161-172 | a page mapped into the kernel's table changes that entry and loses the frame, and the copy goes on as from a memory where both were so before |
| `ForkSteps.CountTaken` | src/kernel/vmm.c:140-179 | at every page the frames gone are three, one for each page copied and one for each row of the child's own |
| `ForkSteps.SpiltIff` | src/kernel/vmm.c:152-179 | whether the loop has copied over the kernel's entries when it stops is decided by the parent's pages and the number of free frames alone |
| `ForkSteps.SafeIffNoneBad` | src/kernel/vmm.c:154-160 | there is no page to be copied over a kernel entry if and only if no slot with a kernel table holds a user page by its flags |
| `ForkSteps.NothingSpilt` | src/kernel/vmm.c:161-172 | no frame is lost if and only if no page went over a kernel entry, and then memory in use is as it was |
| `ForkSteps.AllCopied` | src/kernel/vmm.c:140-181 | without such pages a finished child has exactly the parent's pages |
| `ForkSteps.CopyIff` | src/kernel/vmm.c:140-181 | a finished child has exactly the parent's pages if and only if the parent has no page in a table of its own where the kernel has one |
| `Vmm.Machine.CopyFrame` | src/kernel/vmm.c:166-168 | the byte loop makes the two frames equal and changes no other |
| `Vmm.Machine.FreeUserPt` | src/kernel/vmm.c:187-212 | the free set gains exactly the frames the space owns, each freed once; the kernel's shared tables stay |
| `Fork.ForkAndReap` | src/kernel/vmm.c:140-212 | forking and freeing the child brings the free set back if and only if no page that the loop copies lies below a 4 KB table of the kernel; otherwise exactly one frame for each such page copied is lost, and the kernel's entry for it leads to one of these |
| `BootedForks.CopiesOfKernel` | src/kernel/vmm.c:152-160 | of a space created after heap_init fork copies 766 pages of the kernel and nothing else, and needs 769 frames |
| `BootedForks.InheritorsUnsafe` | src/kernel/vmm.c:152-160 | whatever a space created after heap_init has mapped since, a fork of it copies 766 pages over kernel entries |
| `BootedForks.NextForkAlike` | src/kernel/vmm.c:161-172 | a fork leaves the flags in the kernel's tables so that the next one finds the same pages |
| `Reach.RewrittenWalk` | src/kernel/vmm.c:161-172 | after, and in the midst of, any fork the kernel's page leads to a lost frame if the loop has copied over its entry, and where it led before if not |
| `Reach.ReachedThere` | src/kernel/vmm.c:163-168 | an address other than 0 is its own translation if and only if the kernel's page leads to the frame of its number |
| `Reach.ReachedWhileForking` | src/kernel/sched.c:178-185 | this holds at every page at which the loop stands |
| `BootedForks.IdentityAfterFork` | src/kernel/vmm.c:152-178 | after a fork of the booted kernel the pages copied over in 3584 to 4094 and 4353 to 4607 lead to lost frames, so to themselves if and only if the frame of their own number was lost; all others to themselves if and only if they did before |
| `BootedForks.ForkReaches` | src/kernel/vmm.c:161-168 | in a kernel whose stray pages lead below 3584, at every page of a fork the kernel reaches the frame it reads from and every frame below 3584 it writes |
| `BootedForks.FewRounds` | src/kernel/vmm.c:140-212 | the low frames suffice for four rounds at most |
| `BootedForks.ForkAfterStart` | src/kernel/kernel.c:81-120 | with 264 + 766 n frames free below page 3584: start the kernel, create a space, fork and reap it n times; every round succeeds and loses 766 frames, all frames handed out lie below 3584, and in the end the kernel reaches exactly the frames outside 3584 to 4607 at their own addresses (outside 4095 to 4352 when n is 0) |
| `SpaceLives.Live` | src/kernel/vmm.c:47-133 | create, map fresh frames at any distinct pages below 1 GB, free: one frame is lost for each page mapped where the kernel has a 4 KB table, so the free set is what it was if and only if there is none; each page is mapped exactly as long as frames suffice for it and its table |
| `FrameCounts.OwnedCount` | src/kernel/vmm.c:47-133 | a space without idle tables owns exactly three frames, one for each page and one for each 2 MB row with a page |
| `ForkSteps.NoFrameLeft` | src/kernel/vmm.c:140-182 | a page that finds no frame, or none for its table, is beyond what the frames free at the start suffice for |
| `Isolation.StoreTouchesOwnPage` | src/kernel/vmm.c:140-182 | a store of a process changes at most one frame, a user page of its own |
| `Isolation.StoreTakesEffect` | src/kernel/vmm.c:85-133 | a store that the entries on the way allow puts its byte at its address and changes no other byte of the process; one that they do not allow changes nothing |
| `Isolation.NonInterference` | src/kernel/vmm.c:140-182 | however the stores of all processes interleave, each sees exactly the effect of its own |
| `Isolation.RunBytes` | src/kernel/vmm.c:140-182 | after any interleaving each process finds at every address the byte it last stored there, if it may store there, or else what it found before |
| `Isolation.ForkedViews` | src/kernel/vmm.c:140-182 | after a fork that makes an exact copy parent and child read the same bytes; from then on neither sees the other's stores |
| `BootedForks.BootedViews` | src/kernel/sched.c:178-247 | every fork of a process made after heap_init is an exact copy, and the two see their own stores only |
| `BootedForks.CreatedInherits` | src/kernel/vmm.c:47-79 | a new space inherits every kernel table, and the others go on doing so |
| `BootedForks.MappedStillInherits` | src/kernel/vmm.c:85-133 | so they do when a user page is mapped |
| `BootedForks.IntrudedStillInherits` | src/kernel/vmm.c:121-131 | also into a kernel table |
| `BootedForks.ForkedInherits` | src/kernel/vmm.c:140-182 | and when a space is forked, the child included |
| `Elf.Abandon` | src/drivers/elf.c:151-157 | giving up frees the half-loaded space; one data frame is lost if a page table was missing |
| `Elf.CopyData` | src/drivers/elf.c:138-149 | a zeroed frame gets exactly the segment's file bytes that fall into the page |
| `Elf.LoadSegment` | src/drivers/elf.c:123-158 | the page loop adds exactly the segment's pages, each holding its part of the image |
| `Elf.LoadStack` | src/drivers/elf.c:161-180 | the stack loop completes the image with four zero pages |
| `Elf.ElfExec` | src/drivers/elf.c:105-180 | on success exactly the pages of segments and stack are mapped, with the file bytes in place and zeros elsewhere; it succeeds exactly when enough frames are free |
| `Elf.LoadedRights` | src/drivers/elf.c:105-180 | ring 3 may load from and store to the pages of segments and stack, and to nothing else |
| `Elf.LoadedSegment` | src/drivers/elf.c:123-149 | the byte at vaddr + x is byte offset + x of the file below filesz, and zero from there to memsz |
| `Elf.LoadedStack` | src/drivers/elf.c:161-180 | the stack from 0x6FD000 to 0x701000 is zero |
| `Elf.SysExec` | src/kernel/syscall.c:563-619 | the same image under the same condition |
| `Elf.SameImage` | src/kernel/syscall.c:563-619 | two loads of one file give the same user pages with the same flags and bytes |
| `Elf.HowItEnds` | src/drivers/elf.c:105-180 | a load runs out exactly below the frame count its pages call for; a frame is lost exactly when some page that starts a row is reached with one frame left |
| `Elf.FourFramesLoseOne` | src/drivers/elf.c:149-157 | with four free frames an image of the stack alone loses one |
| `Elf.RunProcess` | src/drivers/elf.c:105-180 | load and free: the free set is as before if and only if no frame was lost |
| `Elf.OwnPages` | src/drivers/elf.c:115-159 | on its own pages a segment alone decides the bytes of the image |
| `FatTable.TableSet` | src/drivers/fat32.c:160-174 | setting an entry changes its low 28 bits alone; its top nibble and all other entries stay |
| `FatTable.BytesFromEntries` | src/drivers/fat32.c:145-174 | entries and top nibbles determine the table byte for byte |
| `FatTable.ChainUnique` | src/drivers/fat32.c:145-154 | a first cluster has one chain only |
| `FatTable.ChainLength` | src/drivers/fat32.c:203-211 | a chain is shorter than the steps every walk allows itself |
| `FatLayout.ChainBytes` | src/drivers/fat32.c:145-174 | the chain in the bytes of the table: the four bytes at 4 c, without the top nibble, name the next cluster, or at the end a mark of 0x0FFFFFF8 or more |
| `FatTable.FreesExactlyTheChain` | src/drivers/fat32.c:203-211 | on a well-formed chain the walk clears exactly its entries |
| `FatVolume.Volume.NextCluster` | src/drivers/fat32.c:145-154 | the low 28 bits of the entry, end-of-chain for clusters beyond the table |
| `FatVolume.Volume.SetCluster` | src/drivers/fat32.c:160-174 | the entry is set, top nibbles and other entries stay |
| `FatVolume.Volume.AllocCluster` | src/drivers/fat32.c:181-197 | the lowest free cluster becomes an end-of-chain; 0 exactly when none is free |
| `FatVolume.Volume.FreeChain` | src/drivers/fat32.c:203-211 | on any table content, cyclic or not, the loop stops before its limit and clears what the walk reaches |
| `FatVolume.Volume.FlushFat` | src/drivers/fat32.c:217-237 | every FAT copy on the disk equals the table in memory, and the data area is untouched |
| `FatVolume.Geometry.LbaInjective` | src/drivers/fat32.c:135-138 | different sectors of clusters have different disk addresses |
| `FatVolume.Geometry.ClustersInUse` | src/drivers/fat32.c:436-522 | the clusters in use are those that lie on the volume as a whole, as far as the table goes |
| `FatDir.EncodedMatches` | src/drivers/fat32.c:253-298 | an encoded name matches exactly the names with the same key: same characters up to case, to the end or the width |
| `FatDir.EncodedMatchesItself` | src/drivers/fat32.c:253-298 | a name matches its own encoding if and only if it has no inner space |
| `FatDir.InnerSpaceIsCut` | src/drivers/fat32.c:253-298 | "A B" is stored as "A" and not found as "A B" |
| `FatDir.EarlyStopComplete` | src/drivers/fat32.c:336-381 | when no entry behind the first 0x00 is in use, the search with its early stop finds a name if and only if a visible entry matches |
| `FatDir.NewEntryFields` | src/drivers/fat32.c:303-316 | name, extension, attribute, first cluster and size of a new entry, byte for byte; what is read back is what was written |
| `FatDir.RecordsIff` | src/drivers/fat32.c:303-316 | for every entry, the cluster read is c and the size n if and only if bytes 26, 27, 20, 21 are the base-256 digits of c and 28 to 31 those of n, the lowest first |
| `FatDir.EntryKinds` | src/drivers/fat32.c:350-376 | free, visible, directory and matching entries by their bytes, with names up to case |
| `FatFiles.FileSystem.FindEntry` | src/drivers/fat32.c:336-381 | the three nested loops stop at the first hit before an end marker, and report it |
| `FatFiles.FileSystem.SearchSector` | src/drivers/fat32.c:352-376 | the innermost loop reports a hit, the end of the directory, or that no entry of the sector matches |
| `FatFiles.FileSystem.GrowDirectory` | src/drivers/fat32.c:396-428 | a zeroed cluster is linked behind the directory; 0 exactly when none is free |
| `FatFiles.FileSystem.FindFreeSlot` | src/drivers/fat32.c:389-429 | the first free entry, in a new cluster if there is none; fails exactly when a new cluster is needed and none is free |
| `FatFinds.FindsTheHit` | src/drivers/fat32.c:336-381 | in a directory in order a name finds the one entry that matches it |
| `FatFinds.FindDetermined` | src/drivers/fat32.c:336-381 | what a name stands for is determined by the volume alone |
| `FatFinds.SameNameSameFind` | src/drivers/fat32.c:253-286 | names that differ in case or padding only stand for the same |
| `FatCatalog.GrowKeepsConsistent` | src/drivers/fat32.c:409-424 | growing a full directory by a zeroed cluster keeps the volume consistent |
| `FatCatalog.FreeKeepsConsistent` | src/drivers/fat32.c:203-211 | freeing the chain of one entry keeps everything but that entry consistent |
| `FatCatalog.NewChainKeepsDirs` | src/drivers/fat32.c:823-848 | a chain built of free clusters disturbs no directory |
| `FatCatalog.SetKeepsConsistent` | src/drivers/fat32.c:853-880 | an entry that fits, at the place left out, makes the volume consistent again |
| `FatBytes.ClustersHold` | src/drivers/fat32.c:812-814 | the cluster count is the fewest that hold the data, unless its 32-bit rounding wraps, and then one |
| `FatReading.ReadFile` | src/drivers/fat32.c:740-789 | the first bytes of what the name stands for, as many as the buffer takes, and their number; fails exactly for absent names and directories, buffer unchanged |
| `FatReading.StreamFits` | src/drivers/fat32.c:765-787 | the 32-bit sums of the read loop cannot wrap on a consistent volume |
| `FatLayout.FileOnDisk` | src/drivers/fat32.c:740-789 | which byte of which disk sector is byte x of a file |
| `FatWriting.FillSector` | src/drivers/fat32.c:836-841 | a sector of source bytes padded with zeros |
| `FatWriting.BuildChain` | src/drivers/fat32.c:811-848 | a chain of fresh clusters that holds the data, zero-padded; fails exactly when there are too few free clusters |
| `FatOperations.WriteFile` | src/drivers/fat32.c:792-881 | on success the name stands for the data, its entry on the disk has the first cluster and the length in its bytes, no other name in any directory changes, chains stay disjoint, and the FAT is flushed; succeeds exactly when the name is no directory's and enough clusters are free; a creation without directory growth adds to the table just the new chain |
| `FatOperations.EntryOnDisk` | src/drivers/fat32.c:303-316 | whatever entry a name stands for lies on the disk, with the digits of its cluster at 20 and 26 and those of its size at 28 |
| `FatOperations.Delete` | src/drivers/fat32.c:884-901 | the name is gone, exactly its chain is cleared, no other name changes; fails exactly when the name finds nothing, changing nothing |
| `FatOperations.CreateThenDelete` | src/drivers/fat32.c:792-901 | creating without directory growth and deleting restores the FAT byte for byte |
| `FatOperations.Mkdir` | src/drivers/fat32.c:904-993 | the name stands for a new directory with "." and ".." alone, no other name changes; succeeds exactly when the name is free and one cluster is, or two if the directory is full |
| `FatOperations.MakeDirectory` | src/drivers/fat32.c:919-972 | a fresh cluster with the two dot entries for itself and the parent, blank otherwise |
| `FatRuns.WriteThenRead` | src/drivers/fat32.c:740-881 | what was written reads back, length and bytes, if and only if the length is not within one cluster of 4 GB |
| `FatRuns.Run` | src/drivers/fat32.c:792-993 | any sequence of successful writes, deletes and mkdirs does to every name of the directory what it does to a plain table of contents, leaves every name of every other surviving directory as it was, loses at most one directory for each deletion, and keeps the volume consistent |
| `FatRuns.StillUntouched` | src/drivers/fat32.c:792-993 | one more operation keeps every name in the other surviving directories since the start |
| `FatRuns.FormattedOk` | src/drivers/fat32.c:436-522 | a volume with an empty root directory is consistent, and nothing is found on it |
| `FatSteps.NewDirEmpty` | src/drivers/fat32.c:929-972 | a new directory has no names but the two |
| `FatSteps.DotsFind` | src/drivers/fat32.c:941-972 | "." and ".." stand for the directory and its parent |
| `FatUpdates.CreatedOthers` | src/drivers/fat32.c:862-880 | a new entry, with or without growth, changes what no other name stands for |
| `FatUpdates.ReplacedOthers` | src/drivers/fat32.c:801-860 | replacing a file's contents changes what no other name stands for |
| `FatUpdates.RemovedOthers` | src/drivers/fat32.c:884-901 | removing an entry and its chain changes what no other name stands for |
| `CwdPath.TrimRender` | src/drivers/fat32.c:1002-1015 | trimming a path takes off its last component |
| `CwdPath.TrimLast` | src/drivers/fat32.c:1002-1015 | the two loops compute that |
| `CwdPath.SplitRender` | src/drivers/fat32.c:1058-1068 | splitting the path string gives its components back |
| `CwdPath.SplitFront` | src/drivers/fat32.c:1133-1144 | a run, a slash and the rest split into the run, if not empty, and what the rest splits into |
| `CwdPath.ShownKey` | src/drivers/fat32.c:1062-1067 | the lower-case component in the path finds the directory that was entered |
| `CwdPath.ShownIs` | src/drivers/fat32.c:1062-1067 | the component shown is the name up to a space or eight characters, in lower case |
| `Cwd.PathLeadsHere` | src/drivers/fat32.c:1022-1072 | resolving the path string from the root reaches the current cluster, its components are as many as the depth, and stack slot i is the cluster the first i components lead to |
| `Cwd.PushedTracks` | src/drivers/fat32.c:1054-1071 | entering a directory keeps that record exact if and only if the depth was below eight |
| `CwdDepth.NineLevels` | src/drivers/fat32.c:1054-1071 | from the root of a volume with room, nine times mkdir and chdir reach a directory whose record is wrong |
| `Cwd.UpUndoesDown` | src/drivers/fat32.c:1022-1072 | entering a directory and going up restores the path always, and cluster, depth and the live part of the stack if and only if the depth was below eight |
| `Cwd.Cwd.ChdirOne` | src/drivers/fat32.c:1022-1072 | one component moves as the volume says, keeps the record exact down to level eight, and on failure changes nothing |
| `Cwd.Cwd.Chdir` | src/drivers/fat32.c:1075-1145 | on success the path is followed to its end; on failure the state is where the components before the failing one lead, and the record is exact in both cases down to level eight; an absolute path starts at the root |
| `Cwd.Cwd.Follow` | src/drivers/fat32.c:1114-1145 | the loop over the components goes where the components lead one after the other |
| `Cwd.PiecesSplit` | src/drivers/fat32.c:1133-1144 | if no run between slashes is longer than eleven bytes, the components are the runs |
| `Cwd.PiecesJoin` | src/drivers/fat32.c:1133-1144 | whatever the path, its components in order are its bytes without the slashes |
| `Cwd.PieceSizes` | src/drivers/fat32.c:1133-1144 | each has one to eleven bytes |
| `Cwd.RequestedIs` | src/drivers/fat32.c:1075-1132 | nothing is asked for by an empty path, a dash, the root or a leading space; otherwise the runs of the path |
| `Cwd.MoveLeads` | src/drivers/fat32.c:1022-1072 | "." stays, ".." goes to the parent, and another name to the directory it stands for |
| `Cwd.FewPiecesShallow` | src/drivers/fat32.c:1114-1145 | a path of few enough components cannot go below level eight |
| `Heap.Heap.Kmalloc` | src/kernel/heap.c:140-210 | the first free block that is large enough is cut or taken whole; 0 exactly for size 0 or when none fits; no word outside headers changes; tiling, headers and leak table stay right |
| `Heap.Heap.Kfree` | src/kernel/heap.c:214-254 | the block becomes free and swallows a free follower (`HeapBlocks.ReleasedBlocks`); a free block, or no magic word before the pointer, panics; no word outside headers changes |
| `Heap.Heap.Store` | src/kernel/heap.c:193-198 | a store of the owner into its live region keeps the heap and the leak table in order |
| `Heap.Heap.HeapFreeBytes` | src/kernel/heap.c:258-269 | the sum of the free blocks' sizes, without wrap-around |
| `Heap.Heap.LeakAdd` | src/kernel/heap.c:20-27 | an entry is appended unless the table is full |
| `Heap.Heap.LeakDel` | src/kernel/heap.c:29-38 | the first entry of the pointer is replaced by the last one |
| `Heap.Heap.constructor` | src/kernel/heap.c:82-136 | one free block fills the heap, nothing is live |
| `Heap.LargeEnough` | src/kernel/heap.c:142-163 | the region handed out holds the request if and only if rounding up does not wrap |
| `Heap.HugeRequest` | src/kernel/heap.c:142-190 | on a new heap kmalloc(2^64 - 1) hands out a region of no bytes |
| `Heap.TakeAndGiveBack` | src/kernel/heap.c:140-254 | kmalloc and kfree of its result restore the block list if and only if something was cut off or no free block follows |
| `Heap.WholeAgain` | src/kernel/heap.c:140-254 | on a new heap 100 bytes are taken and given back, and then 1048500 are granted in one piece, at the same pointer |
| `Heap.TrackedCount` | src/kernel/heap.c:20-38 | the leak table has at most one entry for each live block, and as many entries as there are live blocks when it is complete |
| `Heap.CompleteReleased` | src/kernel/heap.c:29-38 | a complete leak table stays complete when a block is freed |
| `HeapBlocks.BlocksFillHeap` | src/kernel/heap.c:140-254 | block sizes and headers sum to one megabyte |
| `HeapBlocks.PointersApart` | src/kernel/heap.c:140-254 | live regions are aligned, inside the heap and pairwise disjoint |
| `HeapBlocks.CarvedTiled` | src/kernel/heap.c:160-190 | cutting a block keeps the tiling |
| `HeapBlocks.ReleasedTiled` | src/kernel/heap.c:237-253 | so does freeing and merging |
| `HeapBlocks.ReleasedBlocks` | src/kernel/heap.c:237-253 | freed in front of a free block, a block becomes one of its own size, twelve and the size of that; all others stay, and without a free follower all of them |
| `HeapBlocks.CarvedBlocks` | src/kernel/heap.c:160-190 | what is left of 28 bytes or more becomes a free block of twelve less behind what is taken; otherwise the block is taken whole |
| `HeapBlocks.ReleaseUndoesCarve` | src/kernel/heap.c:140-254 | freeing what was taken restores the blocks if and only if something was cut off or no free block follows |
| `HeapBlocks.FreeingAdds` | src/kernel/heap.c:237-269 | the free bytes grow by the size freed, and by twelve more exactly when the next block is free |
| `HeapBlocks.TakingCosts` | src/kernel/heap.c:160-190 | they shrink by what is taken and a header, or by the whole block |
| `HeapBlocks.OthersStay` | src/kernel/heap.c:140-254 | every other block in use stays where it is, with its size |
| `FdCounts.DropKeeps` | src/kernel/syscall.c:426-443 | dropping a descriptor and closing its end keeps the counts equal to the descriptors that name each end |
| `FdCounts.CopyKeeps` | src/kernel/sched.c:219-226 | so does copying one and opening its end |
| `FdCounts.UsedIsHeld` | src/kernel/pipe.c:15-43 | a slot is marked used exactly when a descriptor names the pipe |
| `Processes.Kernel.constructor` | src/kernel/sched.c:15-42 | the initial state satisfies all invariants |
| `Processes.Kernel.PipeAlloc` | src/kernel/pipe.c:15-28 | the first unused slot, which no descriptor names |
| `Processes.Kernel.SysPipe` | src/kernel/syscall.c:354-389 | two lowest free descriptors from 3 up for a pipe none named; succeeds exactly when slot and descriptors are free; otherwise nothing changes |
| `Processes.Kernel.SysDup2` | src/kernel/syscall.c:395-421 | the counts always stay right; the used mark does if and only if the last descriptor of a pipe is not copied onto itself |
| `Processes.SelfDupFreesHeldPipe` | src/kernel/syscall.c:395-421 | pipe, close of the write end, dup2 of the read end onto itself: the descriptor is still there and its pipe is marked free |
| `Processes.Kernel.SysClose` | src/kernel/syscall.c:426-443 | the descriptor is dropped and its end closed once |
| `Processes.Kernel.SysExit` | src/kernel/syscall.c:100-126 | the child is a zombie with its code and no descriptors |
| `Processes.Kernel.SysWaitpid` | src/kernel/syscall.c:305-348 | reaps exactly zombie children and returns the code that very child exited with |
| `Processes.Kernel.SchedFork` | src/kernel/sched.c:158-247 | the child takes the first slot whose exit code was collected, or a new one, and inherits every descriptor with its counts; fails exactly when the clone does or no slot is free |
| `Processes.Kernel.SchedTick` | src/kernel/sched.c:249-277 | the next runnable task after the current one runs (`Processes.Switches`, `Processes.TickedIsFirst`); at most one task is RUNNING, the current one |
| `Processes.Switches` | src/kernel/sched.c:249-277 | the task switched to was READY or RUNNING and is RUNNING, the one that ran is READY, and no other task changes |
| `Processes.TickedIsFirst` | src/kernel/sched.c:249-277 | it is the first behind the current one, in cyclic order, that can run |
| `Processes.Dup2Keeps` | src/kernel/syscall.c:395-421 | close-then-open on dup2 keeps the counts, and the marks exactly off the self-copy |
| `Processes.HistoryExited` | src/kernel/syscall.c:100-126 | so does an exit, which records its code for that very incarnation |
| `Processes.HistoryBorn` | src/kernel/sched.c:158-172 | a new incarnation in a slot whose earlier code was collected keeps the record of who exited with what and who was reaped |
| `Fairness.TickAdvances` | src/kernel/sched.c:249-277 | each tick brings a runnable task strictly closer or runs it |
| `Fairness.FairWithinCount` | src/kernel/sched.c:249-277 | in every run without forks a runnable task becomes current within task_count - 1 ticks |
| `Fairness.TickIsStep` | src/kernel/sched.c:249-277 | a scheduler tick is a Tick step of the fairness runs |
| `Fairness.CallIsStep` | src/kernel/syscall.c:100-443 | every system call but fork, from a runnable task, is a Call step of them |
| `PipeRing.Ring.Write` | src/kernel/pipe.c:45-57 | takes as many bytes as fit below 4095 in flight, behind those already in the ring |
| `PipeRing.Ring.Read` | src/kernel/pipe.c:59-70 | delivers the oldest bytes in order |
| `PipeSteps.PipeDelivers` | src/kernel/pipe.c:45-70 | in every interleaving of single loads and stores received is a prefix of sent, at most 4095 bytes are in flight, and a read returns short only after all write ends closed and everything was delivered |
| `PipeSteps.ReadReturns` | src/kernel/syscall.c:449-475 | a read of n bytes returns the number of bytes delivered since it was called: n, or fewer when no write end is open and all that was sent is delivered |
| `PipeSteps.WriterSends` | src/kernel/pipe.c:45-57 | with fewer than 4095 bytes in flight four accesses of the writer send a byte |
| `PipeSteps.ReaderTakes` | src/kernel/pipe.c:59-70 | with a byte in the ring four accesses of the reader take the next one sent |
| `PipeSteps.ReaderGoesOn` | src/kernel/syscall.c:449-475 | a waiting reader goes on when there is a byte and returns its count when there is none and no write end |
| `PipeSteps.ClosedStays` | src/kernel/syscall.c:481-502 | once no write end is open nothing more is sent |
| `EditorText.InsertRefines` | test/edit.c:330-345 | a printable key inserts one character at the cursor offset of the flat text |
| `EditorText.EnterRefines` | test/edit.c:304-328 | Enter inserts a newline there |
| `EditorText.BackspaceRefines` | test/edit.c:269-302 | Backspace deletes the character before the cursor, across a line join too |
| `EditorText.ArrowsRefine` | test/edit.c:241-267 | arrows keep the text; left and right move the offset by one, up and down the row by one, and the column is kept as far as the line goes |
| `EditorText.OnlyEditsChange` | test/edit.c:237-347 | a refused edit changes nothing, and exactly the edits change the text |
| `EditorText.KeyEffect` | test/edit.c:237-347 | what every key makes of the flat text, and in numbers when it changes: Enter with fewer than 255 lines, a character on a line of fewer than 127, Backspace behind one or before a join to fewer than 127 |
| `EditorText.SaveLoad` | test/edit.c:97-136 | save then load rebuilds the lines if and only if there are at most 255 or the 256th is empty |
| `EditorText.ScanNextLine` | test/edit.c:97-122 | what stands before a newline becomes a line, cut at 127 characters |
| `EditorText.ScanIgnoresReturns` | test/edit.c:97-122 | carriage returns are ignored |
| `EditorText.FullBufferLosesLine` | test/edit.c:97-136 | 256 lines of one letter each do not come back |
| `Editor.Editor.HandleKey` | test/edit.c:237-347 | the line array, in place, becomes what the key makes of lines and cursor; `modified` is set exactly by edits |
| `Editor.Editor.JoinLines` | test/edit.c:279-301 | the two lines become one and the rest move up |
| `Editor.Editor.SplitAtCursor` | test/edit.c:304-328 | the line is cut at the cursor and the rest move down |
| `Editor.Editor.SaveFile` | test/edit.c:124-136 | the file gets the lines with newlines between, and its capacity is never reached |
| `Editor.Editor.LoadFile` | test/edit.c:97-122 | the line array becomes the scan of the file's bytes |
| `Editor.Editor.ScrollToCursor` | test/edit.c:139-146 | the window moves only if the cursor's row is outside it, and then just far enough |
| `Checksum.FoldedModulo` | src/drivers/net.h:106-117 | folding keeps the sum modulo 65535 |
| `Checksum.Net` | src/drivers/net.h:106-117 | the loops compute the checksum of the bytes |
| `Checksum.SumAround` | src/drivers/net.h:106-117 | a byte at an even place counts 256 times, the next one once |
| `Checksum.Rfc1071Example` | src/drivers/net.h:106-117 | the example of section 3 of RFC 1071 |
| `Checksum.SelfVerifies` | src/drivers/net.h:106-117 | storing the checksum at an even offset makes the checksum of the whole 0, odd lengths included |
| `Checksum.OnlyThatVerifies` | src/drivers/net.h:106-117 | no other value does, but for the two zeros |
| `Checksum.NoWrap` | src/drivers/net.h:106-117 | the accumulator cannot wrap up to 131074 bytes |
| `Checksum.NoWrapIff` | src/drivers/net.h:106-117 | whatever the bytes, the accumulator cannot wrap if and only if there are at most 131074 of them |
| `Checksum.HtonsStores` | src/drivers/net.h:11-14 | a 16-bit store of the swapped value is in network order |
| `Checksum.HtonlStores` | src/drivers/net.h:15-20 | a 32-bit one too |
| `Tcp.SegmentVerifies` | src/drivers/tcp.c:74-94 | a segment with its checksum stored checks out with the pseudo-header |
| `Tcp.SegmentIsNet` | src/drivers/tcp.c:74-94 | the segment checksum is that of the addresses, 0, 6, the length in two bytes and the segment (section 3.1 of RFC 793) |
| `Tcp.UnsignedCarries` | src/drivers/tcp.c:97-132 | ports, sequence, acknowledgement, flags and data of a segment at their offsets, in network order |
| `Tcp.Connection.Cksum` | src/drivers/tcp.c:74-94 | the loops compute the checksum of pseudo-header and segment |
| `Tcp.Connection.Tx` | src/drivers/tcp.c:97-132 | the segment has ports, numbers, flags and data asked for at their offsets and checks out; sent with data it is kept for retransmission |
| `Tcp.Connection.RetxCheck` | src/drivers/tcp.c:198-217 | resends exactly when 100 ticks have passed and fewer than five retries were made, with the current acknowledgement in bytes 8 to 11 and nothing else but the checksum changed, and the segment checks out again |
| `Dns.EncodeName` | src/drivers/dns.c:22-37 | writes exactly the encoded name and nothing else |
| `Dns.EncodedIsWire` | src/drivers/dns.c:22-37 | for labels of 1 to 63 bytes that is their wire format (section 3.1 of RFC 1035) |
| `Dns.WireIs` | src/drivers/dns.c:22-37 | a name on the wire is a length and that many bytes for each label, and a zero byte |
| `Dns.SkipName` | src/drivers/dns.c:41-50 | computes the offset behind the name on every message on which the loop ends; up to 65344 bytes that is the offset behind the first zero byte or pointer |
| `Dns.EndsIff` | src/drivers/dns.c:41-50 | the loop ends on every message of a length if and only if it is at most 65344 |
| `Dns.CycleGoesOn` | src/drivers/dns.c:41-50 | on a message of 65345 bytes or more, with labels of 191 bytes but one, it goes round for ever |
| `Dns.ExpandName` | src/drivers/dns.c:56-85 | ends on any bytes, pointer loops included, by (hops, offset); writes the name as far as it fits and a zero byte, and nothing behind |
| `Dns.RoundTrip` | src/drivers/dns.c:22-85 | expanding the encoding of a host gives the host, and skipping lands behind it |
| `Dns.ExpandsLabels` | src/drivers/dns.c:56-85 | labels of the message are appended with dots, and expansion goes on behind them |
| `Dns.ExpandsThroughPointer` | src/drivers/dns.c:56-85 | labels followed by a pointer expand to these labels and the name at the offset that the low six bits of its first byte and its second byte say (section 4.1.4 of RFC 1035) |
| `Dns.FifteenPointers` | src/drivers/dns.c:56-85 | a name behind pointers, one after the other, expands if and only if there are fewer than sixteen |
| `Dns.LoopEnds` | src/drivers/dns.c:56-85 | a pointer to itself adds nothing |
| `Dns.StaysBelowOutmax` | src/drivers/dns.c:56-85 | the output stays below the limit if and only if the limit is positive or the name empty |

## Left out

- Hardware: TLB and CR3 loads, port I/O, interrupts, the clock; the sector driver is an array access that always succeeds, so sector errors and the half-done states after them are not modelled.
- `fat32_init`, volume label, directory listing, rename and timestamps; the geometry is an input.
- States after a full disk: conditions for success are exact, but nothing is claimed of the volume after `fat32_write_file` or `fat32_mkdir` fails for want of clusters.
- FatOperations.WriteFile: assumes a name that does not start with a dot, 0x00 or 0xE5 and has no inner space, because with those the entry could not be found again.
- FatOperations.Delete: assumes a name that does not start with a dot, because deleting "." would free the directory's own chain.
- FatOperations.Mkdir: assumes that the encoded name does not start with a dot, 0x00 or 0xE5.
- Cwd.Cwd.ChdirOne: a component is ".", ".." or a name that begins with neither a dot nor a space and has no inner space, as legal directory names are.
- `cd -` is a no-op, since the saved state is overwritten before the swap; `Cwd.Cwd.Chdir` treats it so.
- Vmm.Machine.MapUserPage: one mapping per page and no page at or above 1 GB, as the loaders and fork use it; `MapPageIn` and `MapPage` have no such limits.
- Vmm.Machine.MapKernelPage: the model reaches frames by their numbers, not through the mapping changed here; `Reach` and `BootedForks` say when the two are the same.
- KernelStart.HeapInit: the messages of `heap_panic`.
- BootedForks.ForkAfterStart: runs that hand out frames from 3584 up, which the code then reads and writes elsewhere, in the heap for some; other processes and the child's own mappings in between.
- Heap guard pages: `vmm_map_page` always sets PRESENT, so the guards are present pages of frame 0 (`KernelStart.HeapInit`) and no fault can be claimed.
- Elf.ElfExec: program headers are given as a list (their parsing is not modelled); segments lie on pages of their own below 1 GB, not where the kernel has a 4 KB table, with at most as many file bytes as memory bytes.
- Elf.LoadSegment: the same limits on one segment.
- Elf.SysExec: loads the image only; the replacement of the caller's space and the argument string are left out.
- Heap.Heap.Kfree: a pointer into the middle of a block, where the owner's data happen to hold the magic word, is excluded; so are pointers that are no multiple of four.
- Processes.Kernel.SysExit: the exit of a forked child; that of a program run by the shell jumps back into `elf_exec`.
- Processes.Kernel.SysWaitpid: one round of the waiting loop; only the parent waits, and the freed stack of the child (one of the two is never freed) is not modelled.
- Processes.Kernel.SchedFork: the failure of the stack allocation; the address space of the child is the matter of `Fork`.
- Kernel tasks from `task_spawn`, tasks killed by the window manager, and statistics fields of tasks.
- PipeSteps.PipeDelivers: one writer and one reader; several writers on one pipe can lose bytes.
- Fairness.FairWithinCount: the scheduler is unlocked and no task is forked in between.
- Fairness.CallIsStep: dup2 of a descriptor onto itself is excluded, since it can free a pipe that is still held.
- The screen of the editor, its argument parsing and its key decoding.
- TCP delivery and the handshake: the receiver does not compare sequence numbers, so in-order delivery is not decided by this code.
- Tcp.Connection.Tx: the data is shorter than 65516 bytes, so that the 16-bit length does not wrap.
- Dns.SkipName: a message on which the loop does not end has no result; `Dns.EndsIff` says when there is one. Callers have 512 bytes.
- Dns.ExpandName: the byte behind the message is readable, since a pointer in the last byte is read with it.
- Dns.EncodeName: the output buffer has room for the name; the source does not check.
- `fat12.c`, the C library, ARP, DHCP, the logs, the shell, the window manager and the browser.
