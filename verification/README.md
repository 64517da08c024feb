# cl-os: verified models of the file system, heap, paging, loader and scheduler

cl-os is a small kernel for 32-bit x86. This project models, in Dafny, the parts of it whose correctness is a matter of
whole runs and proves what they are for. State that the kernel updates in place is updated in place here: the disk
sectors, the bytes of the heap, the bytes of physical memory, file handles, the linked process list. Each such method is
proved against a specification on values, and the theorems are about the specification.

- **FAT32 driver** (`Fat*.dfy`). `FatLayout` places FAT entries and clusters in 512-byte sectors; `FatVolume` is the
  mounted volume, whose abstract FAT and cluster contents the sectors hold. `FatTree` says what it means that a volume
  stores a tree of files and directories; `FatChains`, `FatTreeSteps`, `FatScan`, `FatSlots`, `FatOps` and `FatGrowth`
  say what each change to FAT and slots does to that tree; `FatPath` is about names; `FatFileSystem` holds the
  operations, `FatRuns` the theorems over runs, and `FatBreaks` the calls after which the volume stores no tree.
- **Kernel heap** (`HeapBlocks`, `HeapMemory`, `KernelHeap`, `HeapRuns`). The block list and its theorems; the list as
  17-byte headers threaded through bytes; `kmalloc` and `kfree` chasing and rewriting those headers; whole runs.
- **Frames, paging, ELF** (`PageFrames`, `Paging`, `KernelPaging`, `PagingRuns`, `PagingOps`, `PagingCalls`, `Elf`,
  `ElfLoader`). The bitmap allocator; the processor's walk (Intel SDM Vol. 3A, section 4.3) over frames of bytes; page
  tables edited through the recursive slot 1023; where every frame is over a run; program segments (System V gABI,
  chapter 5, "Program Header") copied in through the mapping they have just been given.
- **ext3 reads** (`Ext3Blocks`, `Ext3File`, `Ext3Runs`) and the **scheduler** (`RoundRobin`, `Scheduler`).

Some promises do not hold for all inputs. Each has its exact condition, for all inputs:

- A write keeps all bytes if and only if its size plus a cluster stays within 4 GiB (`FatOps.KeptAll`, with an input in
  `FatOps.KeptCut`).
- The allocation loop notices that clusters run out if and only if none was free or at least two are missing. With one
  missing and a directory that need not grow, the file is cut short and its entry claims the full size; with a directory
  that must grow and no cluster left for it, nothing is stored and the count is returned as if it were. A failed write
  removes the old file and loses every free cluster; a directory creation can answer yes, make nothing and lose one
  (`FatFileSystem.FileSystem.GatherClusters`, `WriteFile`, `CreateDirectory`).
- The two path functions agree if and only if the path does not end in two slashes (`FatPath.PathAgreement`). A deletion
  through such a path leaves no tree if and only if there was a cluster to free (`FatBreaks.HalfDeleteIff`).
- A write leaves no tree if and only if its target is a directory with entries and it gets as far as making an entry: at
  most one cluster is missing, not all are, and a directory that must grow finds one left
  (`FatFileSystem.FileSystem.WriteFile`, `FatBreaks.NamesakeEntered`).
- `kmalloc` rounds to at least the request if and only if rounding does not wrap (`HeapBlocks.RoundingWraps`). For a
  rounded request that fits nowhere, growth suffices if and only if no later sum wraps either
  (`HeapBlocks.SufficesIff`); if one does, a header goes astray (`HeapBlocks.WrappedRequest`,
  `HeapMemory.MisplacedHits`).
- A relative seek backwards works if and only if it does not pass the start (`Ext3File.SeekBack`,
  `Ext3File.SeekBeforeStart`).

Domain. Volumes are well formed: 512-byte sectors, up to 128 per cluster, cluster numbers below 2^28 - 10 and covered by
the FAT; a cluster marked bad counts as lost. Paths to be written name something below the root and do not end in two
slashes; new names do not begin with byte 0xE5. The heap stays below the recursive window; `kfree` gets 0, a pointer
outside the heap, the payload address of a block, or a pointer with no magic number in front of it. Page flags leave bit
7 clear, frames lie strictly inside the bitmap, and the page directory is a frame of the kernel image. Segments are
page-aligned, share no page, lie below the stack page, and there are enough free frames. Where a contract asks for a
positive cluster size, that follows from a valid volume; it is written out so that the rest of the contract is well
defined. `BlockFromInode` reads pointer block 0 when an indirect pointer is 0, as the code does.

`dafny verify dfyconfig.toml` checks everything.

## Model

| member | source | states |
|---|---|---|
| `FatRuns.Run` | src/kernel/DRIVER/fat32.c:230-578 | every run of writes, directory creations and deletions, whether or not clusters run out, keeps the volume a tree (chains acyclic, end-marked, pairwise disjoint; every non-free cluster on exactly one or among the lost; no used slot after a 0x00 slot; every live slot and its node agree); each operation whose clusters are there does what it means on a plain map from paths to contents and loses none, each other one does exactly what is said of it; only a write over a directory with entries whose clusters are there ends the run, and then the volume stores no tree |
| `FatRuns.TraceApplies` | src/kernel/DRIVER/fat32.c:230-578 | as long as the clusters of each operation are there when its turn comes, those given back by deletions and overwrites included, the run as a whole is the fold of the meanings, and nothing is lost |
| `FatRuns.IsBlocked` | src/kernel/DRIVER/fat32.c:504-533 | the lookup and the emptiness check of a deletion tell exactly the writes over directories with entries |
| `FatRuns.WriteThenRead` | src/kernel/DRIVER/fat32.c:311-389 | a write returns the length, a later read of the path returns exactly the bytes, a file under any other path reads the same before and after |
| `FatRuns.TreeDetermined` | src/kernel/DRIVER/fat32.c:36-47 | the tree is no invention of the proof: FAT and cluster contents admit at most one, so every path, chain, size and slot is a fact about the bytes on disk |
| `FatRuns.NodeDetermined` | src/kernel/DRIVER/fat32.c:140-201 | a path leads to the same chain, size and slot in any two trees stored by the same bytes |
| `FatRuns.FreshVolume` | src/kernel/DRIVER/fat32.c:301-309 | a freshly formatted volume stores the tree of its root alone, so runs have a place to begin |
| `FatBreaks.NamesakeEntered` | src/kernel/DRIVER/fat32.c:230-299 | entering a name that the directory already holds, in an opening or in a cluster by which the directory grows, leaves a volume that stores no tree |
| `FatBreaks.BlockedWriteBreaks` | src/kernel/DRIVER/fat32.c:247-269 | the case of an opening, against any tree that keeps the chains in use |
| `FatBreaks.HalfDeleteIff` | src/kernel/DRIVER/fat32.c:535-577 | a deletion through a path that ends in two slashes, a blank sibling whose entry it deletes instead included, leaves no tree if and only if there was a cluster to free |
| `FatBreaks.HalfDeleteCuts` | src/kernel/DRIVER/fat32.c:535-577 | without one, the tree there was remains, less the blank sibling and all below it, whose clusters are lost |
| `FatPath.PeriodIsBlank` | src/kernel/DRIVER/fat32.c:7-34 | a component of a single period has the blank short name, so such a sibling can be there |
| `FatBreaks.WayDetermines` | src/kernel/DRIVER/fat32.c:140-201 | a path whose chains and slots a change leaves alone leads to the same node in whatever tree the changed volume stores |
| `FatFileSystem.FileSystem.WriteFile` | src/kernel/DRIVER/fat32.c:339-389 | for any target: with the clusters needed among those free or held by the old file, and one more if the directory must grow, the path shows the bytes kept and every other path what it showed; with exactly one too few, and no growth, the file is stored cut short; otherwise the path is gone, nothing else changes, and every free cluster is lost; a directory with entries stays when clusters run out so, and else no tree is left; a missing parent changes nothing; the count returned in each case; with the least k such that k clusters hold the bytes (1 for none, and when the rounding wraps), an entry is made exactly when k suffices as said, and then the free count falls by k, and by one more if the directory grew; the entry on the disk is the name, attribute 0x20, the head of the chain, the size, and zeros |
| `FatFileSystem.FileSystem.NotBoth` | src/kernel/DRIVER/fat32.c:339-389 | the two outcomes of a write exclude each other: a volume that stores its tree is not one that stores none |
| `FatFileSystem.FileSystem.ReadFile` | src/kernel/DRIVER/fat32.c:311-337 | the bytes of the named node in chain order cut to its size, nothing if the path names nothing |
| `FatFileSystem.FileSystem.CreateDirectory` | src/kernel/DRIVER/fat32.c:404-440 | true exactly when the path names something below the root without ending in two slashes, the name is free, the parent is a directory and a cluster is free; adds exactly an empty directory, except that with one free cluster and a full parent it adds nothing and that cluster is lost; a refusal changes nothing; the entry has attribute 0x10, and the bytes of the new cluster are "." with its own number, ".." with the first cluster of the parent, and zeros |
| `FatFileSystem.FileSystem.Delete` | src/kernel/DRIVER/fat32.c:500-578 | true exactly for an existing file or empty directory; removes exactly that path and frees exactly its chain (the free count grows by its length); a refusal, a non-empty directory included, changes nothing; through a path that ends in two slashes the chain is freed, the entry stays, a blank sibling loses its entry instead, and a tree is left exactly if the chain was empty; the only byte that changes in the data area is the first of the slot, which becomes 0xE5 |
| `FatFileSystem.FileSystem.EnterName` | src/kernel/DRIVER/fat32.c:230-299 | whatever the directory holds: false, with nothing changed, exactly when it is full and no cluster is free; otherwise the entry stands in the first 0x00 or 0xE5 slot, or in the first slot of a zeroed cluster linked behind a full directory, and no other slot, chain or cluster changes |
| `FatFileSystem.FileSystem.CreateDirEntry` | src/kernel/DRIVER/fat32.c:230-299 | for a name that is free, a finished chain becomes a node, and every other path shows what it showed |
| `FatFileSystem.FileSystem.GatherClusters` | src/kernel/DRIVER/fat32.c:351-364 | as many pairwise distinct, formerly free clusters as asked for, linked, the last one marked 0x0FFFFFF8, when that many are free; all of them when one is missing; otherwise failure, with no cluster left free; entries that were in use never change |
| `FatFileSystem.FileSystem.FillChain` | src/kernel/DRIVER/fat32.c:366-385 | the chain holds the buffer as far as it reaches; no cluster outside the chain changes |
| `FatFileSystem.FileSystem.FreeChain` | src/kernel/DRIVER/fat32.c:535-542 | ends with the remaining chain as measure; clears exactly the entries of the chain |
| `FatFileSystem.FileSystem.MarkDeleted` | src/kernel/DRIVER/fat32.c:544-574 | one byte changes, the first of the slot of the child with that name, to 0xE5; without such a child nothing changes |
| `FatFileSystem.FileSystem.HasEntries` | src/kernel/DRIVER/fat32.c:506-533 | true exactly when the directory has a child other than its dot entries |
| `FatFileSystem.FileSystem.FindFile` | src/kernel/DRIVER/fat32.c:140-201 | finds exactly the paths of the tree; entry and parent cluster are those of the node and of its parent |
| `FatFileSystem.FileSystem.FindEntry` | src/kernel/DRIVER/fat32.c:100-138 | a directory lookup finds exactly the children of the tree, with the cluster that holds the slot |
| `FatFileSystem.FileSystem.ResolveParent` | src/kernel/DRIVER/fat32.c:203-228 | the head of the directory before the last slash, 0 if that is no directory; the name after it |
| `FatFileSystem.FileSystem.TrimPath` | src/kernel/DRIVER/fat32.c:146-153 | trimming slashes changes none of the names of a path |
| `FatOps.DeleteStep` | src/kernel/DRIVER/fat32.c:506-578 | clearing the chain of a childless node and deleting its slot is removal of that node from the stored tree |
| `FatOps.FreedCount` | src/kernel/DRIVER/fat32.c:535-542 | the free set gains exactly the cells of the chain, the free count exactly its length |
| `FatOps.CreateStep` | src/kernel/DRIVER/fat32.c:247-269 | filling the first opening of a directory adds exactly one child to the tree and to what the volume shows |
| `FatOps.CreateGrown` | src/kernel/DRIVER/fat32.c:275-298 | growing a full directory by a zeroed cluster and using its first slot adds exactly one child |
| `FatOps.KeptAll` | src/kernel/DRIVER/fat32.c:348-371 | a false promise made exact: all bytes are kept if and only if size plus cluster size stays within 2^32; beyond, the 32-bit rounding wraps and the file is cut short |
| `FatOps.KeptCut` | src/kernel/DRIVER/fat32.c:348-371 | an input: one byte less than 4 GiB with clusters of one sector keeps 512 bytes |
| `FatGrowth.NeededSuffices` | src/kernel/DRIVER/fat32.c:347-349 | the computed number of clusters covers the size if and only if the rounding does not wrap |
| `FatGrowth.NeededLeast` | src/kernel/DRIVER/fat32.c:347-349 | the computed number is k exactly when k clusters hold the size and k - 1 do not; it is 1 for size 0 and when the rounding wraps |
| `FatGrowth.FoundIsNew` | src/kernel/DRIVER/fat32.c:354-363 | a cluster found during the allocation is none of those found before, although the newest is still marked free |
| `FatGrowth.LoopsBack` | src/kernel/DRIVER/fat32.c:354-364 | with every free cluster gathered, the search finds the newest a second time and links it to itself |
| `FatGrowth.GatherFails` | src/kernel/DRIVER/fat32.c:356-357 | the search comes back empty only when nothing was free, or after that |
| `FatGrowth.NewestComesLast` | src/kernel/DRIVER/fat32.c:79-94 | the cursor stands just past the newest cluster, so any other free cluster is met before it |
| `FatChains.ChainUnique` | src/kernel/DRIVER/fat32.c:36-47 | following the FAT from a head gives one chain |
| `FatChains.ChainsRemove` | src/kernel/DRIVER/fat32.c:535-542 | without one node the remaining chains are well formed and its cells are the only unaccounted ones |
| `FatChains.ChainsAdd` | src/kernel/DRIVER/fat32.c:351-387 | a finished chain of unaccounted clusters can become a node without sharing or leaking a cluster |
| `FatChains.ChainsGrow` | src/kernel/DRIVER/fat32.c:275-282 | linking a free cluster behind a directory keeps all chains acyclic, disjoint and complete |
| `FatTreeSteps.RemoveEntry` | src/kernel/DRIVER/fat32.c:556-574 | deleting the slot of a childless node leaves every other slot and node in agreement |
| `FatTreeSteps.AddEntry` | src/kernel/DRIVER/fat32.c:247-269 | an entry in the first opening keeps all slots and nodes in agreement and no used slot after a 0x00 slot |
| `FatTreeSteps.GrowDir` | src/kernel/DRIVER/fat32.c:275-298 | a zeroed cluster behind a directory changes no name |
| `FatScan.HitIsChild` | src/kernel/DRIVER/fat32.c:115-131 | a slot that matches in the scan is the slot of the child with that name |
| `FatScan.AbsentAtUnused` | src/kernel/DRIVER/fat32.c:115-121 | stopping at a 0x00 slot without a match is right: there is no such child |
| `FatScan.AbsentAtEnd` | src/kernel/DRIVER/fat32.c:109-137 | neither is there one at the end of the chain |
| `FatScan.NamedIsChild` | src/kernel/DRIVER/fat32.c:562-572 | the deletion scan, which compares names only, also meets the right slot first |
| `FatScan.NoChildren` | src/kernel/DRIVER/fat32.c:515-530 | the emptiness scan passes only when the directory has no child |
| `FatSlots.DotEntriesNameNone` | src/kernel/DRIVER/fat32.c:418-433 | the first cluster of a new directory names no child |
| `FatSlots.PutEntry` | src/kernel/DRIVER/fat32.c:251-263 | the 32 bytes of the slot are those of the entry with zeros in the other fields, and no byte outside the slot changes |
| `FatTree.EntryAtSpells` | src/kernel/DRIVER/fat32.h:41-54 | an entry is read as e exactly when the bytes spell e: name at 0, attributes at 11, first cluster in halves at 26 and 20, size at 28, low bytes first |
| `FatTree.MarksMean` | src/kernel/DRIVER/fat32.c:123-191 | attribute bit 0x10 marks a directory, the four bits 0x0F together a long name |
| `FatPath.PathAgreement` | src/kernel/DRIVER/fat32.c:146-228 | walking all names and splitting at the last slash agree on parent and last component if and only if the path does not end in two slashes |
| `FatPath.DoubledSlashDisagrees` | src/kernel/DRIVER/fat32.c:150-153 | the concrete disagreement: "a//" is `a` for the walk and the empty name inside `a` for the split |
| `FatPath.LeafIsEmpty` | src/kernel/DRIVER/fat32.c:210-220 | the split yields an empty name exactly at a doubled trailing slash |
| `FatPath.NamesSplit` | src/kernel/DRIVER/fat32.c:170-198 | the names of two paths joined by a slash are the names of the first and then of the second |
| `FatPath.ShortNameIsOrdinary` | src/kernel/DRIVER/fat32.c:7-34 | a converted name is never a dot entry or an unused slot, and looks deleted exactly when it begins with byte 0xE5 |
| `FatPath.FilenameToFat32` | src/kernel/DRIVER/fat32.c:7-34 | each of the eleven bytes: the first eight are the characters before the first period, the last three those after it, small letters as capitals, blanks where there is none |
| `FatPath.ShortNameIs` | src/kernel/DRIVER/fat32.c:7-34 | so is the short name that the names of a path are made of |
| `FatPath.ConvertedUnique` | src/kernel/DRIVER/fat32.c:7-34 | no other name is that conversion |
| `FatPath.CaseIsIgnored` | src/kernel/DRIVER/fat32.c:7-34 | paths that differ only in the case of ASCII letters have the same names |
| `FatPath.NamesAreCapital` | src/kernel/DRIVER/fat32.c:7-34 | no name of a path holds a byte in 97..122 |
| `FatPath.NamesOfPart` | src/kernel/DRIVER/fat32.c:170-198 | a path without the byte 47 is one name |
| `FatVolume.Volume.SetNext` | src/kernel/DRIVER/fat32.c:49-68 | the abstract FAT changes in one entry, cut to 28 bits; on the disk the low 28 bits of one word change in each copy, its top four bits and every other byte of the disk stay |
| `FatVolume.Volume.GetNext` | src/kernel/DRIVER/fat32.c:36-47 | the 28-bit entry of the abstract FAT |
| `FatVolume.Volume.FindFree` | src/kernel/DRIVER/fat32.c:70-98 | 0, with the cursor where it began, exactly when no cluster is free; otherwise the cyclically first free cluster from the cursor, which then stands just past it |
| `FatVolume.Volume.WriteCluster` | src/kernel/DRIVER/fat32.c:373-379 | one cluster changes, in the sectors where it lies; no other sector does, so no FAT copy and no other cluster |
| `FatVolume.Volume.constructor` | src/kernel/DRIVER/fat32.c:301-309 | the boot parameters are the bytes of sector 0 at 13, 14, 16, 19, 32, 36 and 44; from then on no operation changes a sector in front of the FATs or behind the volume |
| `FatLayout.StoredSize` | src/kernel/DRIVER/fat32.c:73-75 | how many FAT entries a volume has, from the boot parameters |
| `FatLayout.StoredEntry` | src/kernel/DRIVER/fat32.c:38-45 | entry c is the low 28 bits of the little-endian word at byte 4 c of every FAT copy |
| `FatLayout.StoredByte` | src/kernel/DRIVER/fat32.c:104-112 | byte k of cluster c lies in sector k / 512 of the cluster, (c - 2) clusters behind the last FAT copy |
| `Bytes.WordIs` | src/kernel/DRIVER/fat32.c:45-45 | a word read from memory is the one whose four bytes, lowest first, stand there |
| `FatLayout.EntryWritten` | src/kernel/DRIVER/fat32.c:60-65 | after the sector is written back the copy holds the updated FAT, top bits as before |
| `FatLayout.EntryWriteKeepsWord` | src/kernel/DRIVER/fat32.c:57-65 | no entry straddles a sector: rewriting one keeps every other packed word of every copy |
| `FatLayout.EntryWriteKeepsCluster` | src/kernel/DRIVER/fat32.c:57-65 | the FAT and the data area do not overlap |
| `FatLayout.Geometry.FatApart` | src/kernel/DRIVER/fat32.c:56-58 | distinct entries share a sector only within one copy and one column |
| `KernelHeap.Heap.Kmalloc` | src/kernel/MM/heap.c:45-138 | when the request fits somewhere or no sum of the growth wraps, the headers in memory spell the list that the first-fit specification gives for the rounded request, the pointer is that block's payload, and no byte of a live payload changes; otherwise the heap grows by one step, and the header of the rest goes to the wrapped address; 0 bytes give 0 and no change |
| `HeapMemory.MisplacedHits` | src/kernel/MM/heap.c:97-134 | the header that went astray stands in the heap where it fell, so a live payload around it has been overwritten |
| `KernelHeap.Heap.Kfree` | src/kernel/MM/heap.c:140-180 | the headers spell the list with the block fused with its free neighbours on either side; no byte of a remaining live payload changes; 0, a pointer outside, a pointer with no magic number in front and an unused block change nothing |
| `KernelHeap.Heap.constructor` | src/kernel/MM/heap.c:8-22 | one free block of 65519 bytes over the first 64 KiB, whose address is 0xD0000000 |
| `HeapMemory.HeaderBytes` | src/kernel/MM/heap.h:9-15 | the heap in bytes: in front of each block 17 bytes with 0xDEADBEEF, size, use, and the addresses of its neighbours or 0, the next header right behind the block |
| `KernelHeap.Heap.SplitBlock` | src/kernel/MM/heap.c:58-75 | splitting relinks both neighbours: the segment of headers is the carved list |
| `KernelHeap.Heap.Extend` | src/kernel/MM/heap.c:83-137 | growth, merge with a free last block and split together refine the specification when no sum wraps, and misplace a header when one does |
| `KernelHeap.Heap.ExpandSize` | src/kernel/MM/heap.c:83-92 | the step count read off the last header, in 32-bit arithmetic, is the specification's |
| `HeapRuns.Run` | src/kernel/MM/heap.c:45-180 | over every run of allocations, releases and stores into live payloads the headers spell the specified list, and an allocation never given back holds at the end what was last stored in it |
| `KernelHeap.Heap.StoreByte` | src/kernel/MM/heap.c:49-77 | a byte stored in a live payload leaves every header as it is |
| `HeapRuns.Step` | src/kernel/MM/heap.c:45-180 | one call in memory is one call on the list |
| `HeapMemory.Around` | src/kernel/MM/heap.c:54-81 | a doubly linked segment of headers seen from any block: its header, the part before and the part behind |
| `HeapMemory.SplitDone` | src/kernel/MM/heap.c:58-73 | the edits of a split leave a doubly linked segment for the carved list |
| `HeapMemory.FuseDone` | src/kernel/MM/heap.c:165-179 | the edits of a fusion leave a doubly linked segment for the merged list |
| `HeapBlocks.MallocLive` | src/kernel/MM/heap.c:54-137 | kmalloc, when it serves the request, adds exactly one live allocation, of at least the rounded request and at most 24 bytes more, and extends the heap only when nothing fits |
| `HeapBlocks.RoundingWraps` | src/kernel/MM/heap.c:49-49 | the rounded request covers the request if and only if rounding does not wrap; within 7 bytes of 4 GiB it is 0 |
| `HeapBlocks.FreeLive` | src/kernel/MM/heap.c:163-179 | kfree takes away exactly the freed allocation and keeps the extent |
| `HeapBlocks.MallocKeepsWf` | src/kernel/MM/heap.c:54-137 | no two neighbours are free after kmalloc has served a request |
| `HeapBlocks.FreeKeepsWf` | src/kernel/MM/heap.c:163-179 | no two neighbours are free after kfree |
| `HeapBlocks.LiveDisjoint` | src/kernel/MM/heap.c:49-77 | any two live payloads lie at least a header apart |
| `HeapBlocks.LiveApartFromHeaders` | src/kernel/MM/heap.c:49-77 | no header lies in a live payload |
| `HeapBlocks.FirstFit` | src/kernel/MM/heap.c:54-81 | the lowest-addressed free block large enough, none if there is none |
| `HeapBlocks.SufficesIff` | src/kernel/MM/heap.c:83-92 | in a heap below its limit, growth for a request that fits nowhere suffices if and only if neither its sum with the header nor the rounding up to steps wraps |
| `HeapBlocks.WrappedRequest` | src/kernel/MM/heap.c:83-123 | an input: for 0xFFFF0000 bytes, with one live block filling the heap, the heap grows by 64 KiB and the header of the rest lands on the first bytes of the live payload |
| `HeapBlocks.ExpansionSuffices` | src/kernel/MM/heap.c:83-92 | when no sum wraps, after growth the last block fits and is the only one that does; two steps fewer would never have sufficed |
| `HeapBlocks.FreeIsMerges` | src/kernel/MM/heap.c:165-179 | merging forward and then backward is fusing the run of free blocks around the freed one |
| `HeapBlocks.FreeUndoesMalloc` | src/kernel/MM/heap.c:54-77 | freeing what was just allocated restores the list block for block when the heap did not grow |
| `HeapBlocks.AllFreed` | src/kernel/MM/heap.c:45-180 | after any run of served calls, in any order, that leaves nothing allocated, the heap is one free block over all but its header |
| `HeapBlocks.RunExtent` | src/kernel/MM/heap.c:24-43 | over served calls the extent only grows, in whole 64 KiB steps |
| `PageFrames.FrameAllocator.constructor` | src/kernel/MM/memory.c:28-34 | bounds rounded inwards, nothing in use |
| `PageFrames.FrameAllocator.Alloc` | src/kernel/MM/memory.c:40-54 | 0, with no change, exactly when no frame is free; otherwise the lowest free frame, which joins the set bits; the counter stays the number of set bits |
| `PageFrames.FrameAllocator.Free` | src/kernel/MM/memory.c:56-69 | exactly that frame leaves the set bits; a frame not in use is ignored |
| `PageFrames.SetOne` | src/kernel/MM/memory.c:42-47 | setting a bit marks that frame and no other |
| `PageFrames.ClearOne` | src/kernel/MM/memory.c:61-68 | clearing a bit frees that frame and no other |
| `PageFrames.MarkedIs` | src/kernel/MM/memory.c:42-46 | frame f is marked exactly when bit f % 8 of byte f / 8 is set |
| `Paging.RecursiveDirectory` | src/kernel/MM/memory.c:109-109 | address 0xFFFFF000 walks to the page directory itself |
| `Paging.RecursiveTable` | src/kernel/MM/memory.c:110-110 | address 0xFFC00000 + 0x1000 d walks to the page table of slot d |
| `Paging.WalkWords` | src/kernel/MM/memory.c:96-131 | the walk in words: bit 0 present, bit 7 of a directory entry 4 MiB, the frame from bit 12 on |
| `Paging.WalkIsSpace` | src/kernel/MM/memory.c:96-131 | for every user page the two-level walk gives what the abstract address space says |
| `Paging.SlotWritten` | src/kernel/MM/memory.c:123-123 | one entry written in one table moves one page of the address space |
| `Paging.NewTable` | src/kernel/MM/memory.c:113-122 | a zeroed fresh frame entered in the directory maps nothing and aliases nothing |
| `Paging.TableDropped` | src/kernel/MM/memory.c:183-188 | dropping a table in which nothing is mapped changes no translation |
| `Paging.FreshDirectory` | src/kernel/MM/memory.c:197-216 | a new directory, zero but for its own slot, maps nothing, and every frame in use is a held one |
| `Paging.FramesConserved` | src/kernel/MM/memory.c:40-69 | allocated frames are mapped pages plus page tables plus held frames, counted |
| `KernelPaging.Mmu.MapPage` | src/kernel/MM/memory.c:96-131 | the address space is updated at one page; a table is allocated exactly when the slot has none, from the lowest free frame; both entries hold exactly the frame and the ten flag bits passed on; no frame but the directory and the page tables changes, and no kernel slot of the directory; no other word of a page table in use changes, nor one that names such a table |
| `KernelPaging.Mmu.UnmapPage` | src/kernel/MM/memory.c:133-195 | an unmapped page changes nothing; otherwise the page leaves the space, its frame is freed, and its table is freed exactly when nothing else is mapped in it; no other word of a table that stays changes |
| `KernelPaging.MapRefines` | src/kernel/MM/memory.c:96-131 | the walk sends the page to the given frame and every other user page where it went before |
| `KernelPaging.KernelHalfKept` | src/kernel/MM/memory.c:96-195 | changes that spare the frames of the kernel half's page tables leave every kernel page translating as before |
| `PagingOps.HeldApart` | src/kernel/MM/memory.c:40-195 | in a sound address space those frames, being held, are spared by every mapping and unmapping |
| `ElfLoader.ProgressKernel` | src/kernel/PROC/elf.c:3-57 | and by loading |
| `KernelPaging.Mmu.ClearTable` | src/kernel/MM/memory.c:119-121 | all 1024 entries of the new table are zeroed through the recursive window, nothing else changes |
| `KernelPaging.Mmu.TableEmpty` | src/kernel/MM/memory.c:175-181 | the scan finds exactly whether an entry is present |
| `PagingRuns.RunKeeps` | src/kernel/MM/memory.c:40-195 | in every sequence of allocation, mapping and unmapping steps each allocated frame is mapped once, or is a table that maps something, or is held; the counts add up |
| `PagingCalls.Run` | src/kernel/MM/memory.c:40-195 | any run of requests carried out on the allocator and the tables is such a sequence, a request that cannot be met changing nothing; at every point the accounting holds, and total_alloc is mapped pages plus page tables plus held frames; the kernel half translates throughout as before, its page tables being held frames that no request maps |
| `PagingCalls.CounterConserved` | src/kernel/MM/memory.c:40-69 | in a sound address space total_alloc is mapped pages plus page tables plus held frames |
| `PagingCalls.TakeOne` | src/kernel/MM/memory.c:40-54 | an allocation is a step of the accounting, or nothing when no frame is free |
| `PagingCalls.MapOne` | src/kernel/MM/memory.c:96-131 | mapping a held frame is a step of the accounting; refused exactly for a page in use, a frame not held, unsuitable flags, or no frame for a missing table |
| `PagingOps.UnmapOne` | src/kernel/MM/memory.c:133-195 | unmapping is a step of the accounting |
| `PagingCalls.NoneFreeIff` | src/kernel/MM/memory.c:40-54 | no frame is free if and only if as many are in use as there are |
| `PagingRuns.MapThenUnmap` | src/kernel/MM/memory.c:96-195 | unmapping a just-mapped page restores space and tables and frees its frame and any table made for it |
| `PagingOps.MapAndUnmap` | src/kernel/MM/memory.c:40-195 | executed through the tables: allocate, map, unmap leaves every user translation, every table and the set of allocated frames as before |
| `PagingOps.MapNew` | src/kernel/PROC/elf.c:25-31 | allocate-then-map at a free page keeps every frame accounted for and uses up no more frames than reckoned; the new entry, and that of a new table, are present, writable and open to user mode, and all other words stay |
| `PagingOps.NoneFreeCount` | src/kernel/MM/memory.c:41-53 | the allocator says no only when as many frames are in use as there are |
| `ElfLoader.Load` | src/kernel/PROC/elf.c:3-57 | -1 and no change exactly for a refused header, whatever else the file holds; otherwise, all in the bytes of the file: reading through the new directory gives every segment's file bytes and then zeros, all segments at once; exactly the pages that segments have bytes in, and the stack page, are newly mapped; if the directory entries of the tables there were have bits 0, 1 and 2, then both entries of each of those pages have them; earlier mappings read as before and keep their entries, no frame outside the new address space changed, all frames stay accounted for and the old directory is active again |
| `ElfLoader.LoadSegment` | src/kernel/PROC/elf.c:17-41 | the image of one segment, its pages open to user mode, nothing mapped before disturbed |
| `ElfLoader.LoadedImage` | src/kernel/PROC/elf.c:16-42 | what was copied frame by frame is what a walk through the new directory reads |
| `ElfLoader.LeftApart` | src/kernel/PROC/elf.c:16-32 | the pages still to be mapped are free of those of earlier segments |
| `ElfLoader.SegmentProgress` | src/kernel/PROC/elf.c:34-40 | copies into a segment's own new pages disturb nothing that was mapped before |
| `ElfLoader.RightsGiven` | src/kernel/PROC/elf.c:25-31 | what loading has newly mapped are the pages of the file, each writable and open to user mode in both words that lead to it |
| `ElfLoader.AllPages` | src/kernel/PROC/elf.c:24-53 | the pages counted for mapping are those a segment has bytes in, and the stack page |
| `PagingOps.OpenedTrans` | src/kernel/PROC/elf.c:16-53 | rights once given, and words there were, survive every further step |
| `Elf.HeaderIs` | src/kernel/PROC/elf.h:112-121 | a program header is read as seg exactly when its bytes spell seg |
| `Elf.ByteWritten` | src/kernel/PROC/elf.c:34-40 | one byte written through the address space changes the byte at that address and at no other |
| `Ext3Blocks.BlockIsLeaf` | src/kernel/DRIVER/ext3.c:185-221 | the direct, indirect and double-indirect arithmetic indexes the flat list of leaves of the pointer tree, 0 beyond it |
| `Ext3Blocks.LeafAt` | src/kernel/DRIVER/ext3.c:206-218 | leaf q below entry p of a pointer block sits at p times the width plus q, at any depth |
| `Ext3Blocks.FlatAt` | src/kernel/DRIVER/ext3.c:929-930 | a part of block i is the part of the concatenated contents at i times the block size |
| `Ext3File.FileHandle.BlockOf` | src/kernel/DRIVER/ext3.c:185-221 | the stepwise index arithmetic finds that leaf, and it is the number kept, lowest byte first, in the inode, in word i of block[12], or in word q of the block that word p of block[13] names |
| `Ext3Blocks.SingleWords` | src/kernel/DRIVER/ext3.c:196-203 | with the words w in block[12], leaf 12 + i is w[i] |
| `Ext3Blocks.DoubleWords` | src/kernel/DRIVER/ext3.c:205-218 | with the words w in block[13] and v in block w[p], leaf 12 + n + p n + q is v[q], n words to a block |
| `Ext3Blocks.LeafNumber` | src/kernel/DRIVER/ext3.c:185-221 | every leaf is the number kept at its place in bytes, and there is none after the last |
| `Ext3File.FileHandle.Read` | src/kernel/DRIVER/ext3.c:907-940 | delivers the contents from the position on, as far as the size and the first missing block allow and no shorter; the rest of the buffer is untouched; the position moves by the count |
| `Ext3File.FileHandle.Seek` | src/kernel/DRIVER/ext3.c:966-986 | never past the end: from the start the smaller of offset and size, from the end size less offset or the size, from the cursor forward by the offset or back by its two's complement |
| `Ext3File.SeekReturns` | src/kernel/DRIVER/ext3.c:966-992 | going forward and back by the same amount returns; so does seeking to what was told, from the start or from the end |
| `Ext3File.SeekBeforeStart` | src/kernel/DRIVER/ext3.c:974-983 | going back beyond the start goes forward instead, to 2^32 less the excess or to the end |
| `Ext3Runs.EofMeans` | src/kernel/DRIVER/ext3.c:994-998 | on a fully mapped file end of file is exactly when a read of any length delivers nothing |
| `Ext3Runs.Open` | src/kernel/DRIVER/ext3.c:890-904 | a handle on an inode whose pointers cover its size with no hole starts at 0 with all of the file readable |
| `Ext3Runs.ReadSome` | src/kernel/DRIVER/ext3.c:907-940 | a read of a fully mapped file delivers exactly the bytes asked for that exist, as many as asked for unless the end comes first |
| `Ext3Runs.Run` | src/kernel/DRIVER/ext3.c:907-992 | any run of reads, seeks, tells and end-of-file tests on a fully mapped file answers as a cursor over the flat contents, and the position never passes the size |
| `Ext3Runs.ReadsJoin` | src/kernel/DRIVER/ext3.c:907-940 | consecutive reads deliver together what one read of their sum does, and leave the position where it would |
| `Ext3Runs.FlatSize` | src/kernel/DRIVER/ext3.c:907-940 | a whole list of blocks is as long as its blocks together |
| `RoundRobin.LeavesIff` | src/kernel/PROC/process.c:121-130 | for an arbitrary table the search ends if and only if nothing is listed, something is RUNNING, or a listed process is current |
| `RoundRobin.AllRunningLeaves` | src/kernel/PROC/process.c:121-130 | with every listed process RUNNING it always ends |
| `Scheduler.Serve` | src/kernel/PROC/process.c:8-139 | from init_process on, any sequence of creations and timer interrupts keeps every listed process RUNNING and the ids distinct, so every call of schedule returns; each interrupt is a tick of the round robin, and each creation adds one RUNNING process with the registers of one that enters user mode |
| `Scheduler.Ticks` | src/kernel/PROC/process.c:112-139 | the interrupts between two creations, carried out on the linked list, are a run of the round robin, so fairness and resumption hold of it |
| `Scheduler.ProcessTable.constructor` | src/kernel/PROC/process.c:8-17 | one idle process, current, and no id taken |
| `RoundRobin.Fair` | src/kernel/PROC/process.c:112-139 | of n listed processes every RUNNING one is resumed within any n ticks |
| `RoundRobin.ResumesWhereItStopped` | src/kernel/PROC/process.c:117-135 | a process resumes with exactly the registers it had when it was last preempted |
| `RoundRobin.StartsFresh` | src/kernel/PROC/process.c:75-95 | one that never ran starts with the registers saved at its creation |
| `Scheduler.CreateAndRun` | src/kernel/PROC/process.c:75-135 | a new process is resumed within as many interrupts as there are processes, and the first that resumes it returns exactly entry in eip, 0x1B in cs, 0x23 in ds and ss, 0x202 in eflags, 0xC0000000 in esp and useresp, and zeros |
| `RoundRobin.NextUnique` | src/kernel/PROC/process.c:121-130 | there is one cyclically next RUNNING process |
| `RoundRobin.NextIs` | src/kernel/PROC/process.c:121-130 | it is the one with no RUNNING process between it and the current one, counting up and round the list |
| `Scheduler.ProcessTable.Schedule` | src/kernel/PROC/process.c:112-139 | saves the interrupted registers in the current process alone, resumes the cyclically next RUNNING one with its own page directory and descriptor table, or returns to the interrupted context when there is none |
| `Scheduler.ProcessTable.Search` | src/kernel/PROC/process.c:119-130 | the do-while over the linked list ends at the cyclically next RUNNING process |
| `Scheduler.ProcessTable.Append` | src/kernel/PROC/process.c:97-103 | the list, linked both ways, gets the process at its end |
| `Scheduler.ProcessTable.Create` | src/kernel/PROC/process.c:67-104 | once the image is loaded, the new process is RUNNING, last in the list, with the lowest free id, or 0 when 4194303 are taken; eip is the entry, cs 0x1B, ds and ss 0x23, eflags 0x202, esp and useresp 0xC0000000, every other register 0 |
| `Scheduler.ProcessTable.AllocatePid` | src/kernel/PROC/process.c:19-33 | the lowest free id from 1 below 4194304, 0 exactly when all are taken |

## Left out

- Disk transfers are total and port I/O, timeouts and interrupts are absent.
- Driver buffers: `kmalloc`'d scratch buffers of the drivers are local values; their allocation cannot fail here.
- FatFileSystem.FileSystem.WriteFile: not for a path that ends in two slashes, whose last component is empty, nor for a last component that begins with byte 0xE5.
- FatFileSystem.FileSystem.CreateDirectory: not for a last component that begins with byte 0xE5, whose entry would look deleted.
- Long-name slots, times and dates, `fat32_list_directory`, `fat32_file_size`, `fat32_file_exists`: the first is outside the domain, the others add only easy members.
- Path buffers of 256 bytes: names are sequences of any length.
- KernelHeap.Heap.Kmalloc: growth past the recursive page-table window is excluded, and so is a request whose sums wrap when the header that goes astray falls below the start of the heap, where memory is not part of this model.
- KernelHeap.Heap.Kfree: a pointer into the heap in front of which the magic number stands by chance, or less than a header into it, is excluded; the code would take arbitrary bytes for a header.
- Heap growth: physical exhaustion panics in the code; new pages arrive here with arbitrary contents. The branch that sets `heap_head` when the list is empty is dead and absent, since the list is never empty.
- `change_heap_size` is modelled for growth in whole pages, the only way the heap calls it; its mapping loop is the paging model's.
- Multi-directory paging (`sync_page_dirs`, `vmm_new_page_dir`, `vmm_free_page_dir`): one directory's user half is described at a time; everything else it must not disturb is in the frame conditions.
- KernelPaging.Mmu.UnmapPage: user addresses only, and the page is not mapped at a page table of its own address space.
- KernelPaging.Mmu.MapPage: user addresses only, and a page-table frame is available when one is needed; the code does not check for it (src/kernel/MM/memory.c:114). The counter of mapped pages, which nothing reads, is absent.
- TLB: taken to be coherent; user and write protection bits are stored but not interpreted by the walk.
- ElfLoader.Load: the out-of-memory exits cannot be taken, since enough frames are required; the one at src/kernel/PROC/elf.c:51 would leave the new directory active.
- Elf header fields other than those `elf_load` reads, and the messages of `validate_elf`.
- ext3 beyond the handle's read path: directories, allocation, writing, symbolic links.
- Scheduler.ProcessTable.Create: the name, opening and reading the file, loading the image and the exits when that fails come before what is modelled; `deallocate_pid` is absent, as nothing calls it.
- Scheduler.Serve: states of listed processes change nowhere, as nothing in the kernel changes them.
- VFS, VGA, keyboard, boot code and string helpers.
