# A verified model of the kernel's memory, file system and process code

The project models four parts of a small x86-64 kernel in Dafny and proves what they promise.
`dafny verify dfyconfig.toml` checks all of it.

**Memory.** `Pmm` is the bitmap frame allocator. `PageTables`, `TreeSteps`, `Vmm`, `Subtrees`,
`FreeTree`, `CloneSteps` and `CloneTree` are the four-level page tables (Intel SDM Vol. 3A, chapter
4): table entries lie in physical pages, a ghost map `Places` gives the frame at each place of a
process's tree, and every operation is proved against the partial map `Translate` and against
`UserPath`, which says that the tables on the way let user code through. `Needs` counts the frames
that pages take; `HeapWindow` and `Brk` are `map_pages` with its rollback, `unmap_pages` and
`sys_brk`. `HeapLayout`, `HeapHeaders`, `HeapBytes` and `Heap` are the kernel heap: the linked
headers are maps from addresses to records, which a ghost sequence of blocks with their live cells
determines completely.

**FAT32.** `FatTable`, `FatChains` and `FatVolume` are the allocation table and its cluster chains;
`FatDriver` and `FatMount` are the one-sector write-back cache, allocation and freeing over a disk of
512-byte sectors, and mounting; `FatBytes`, `FatRead`, `FatGrow`, `FatWrite`, `FatFile` and
`FatContents` are reading and writing files as the bytes of their chains; `Lfn`, `LfnNames`,
`ShortNames`, `FatNames`, `FatDirectory`, `FatCreate`, `FatAdd` and `FatOthers` are long names,
aliases, and what lookup finds before and after a change; `FatSlots`, `FatScan`, `FatEntries`,
`FatDirOps` and `FatDirRuns` are directories on the disk: lookup, create, mkdir and unlink, and what
they mean for the volume (Microsoft FAT32 File System Specification).

**Processes.** `Protocol` has tick, spawn, fork, exit, waitpid and sleep as atomic steps on a ring of
tasks; `ProtocolRuns`, `ProtocolSafety`, `ProtocolFamily` and `ProtocolTurns` prove what every run
keeps; `Scheduler` is the ring of linked records that carries out the steps in place.

**Programs.** `ElfImage`, `Elf`, `ElfLoad` and `ElfFile` are the program loader through scattered
frames (ELF gABI, chapters 4 and 5); `UserStack` is the initial stack (System V AMD64 ABI, section 3.4.1).

Some results say where the code does not do what a caller would expect, with the exact condition:

- Reads and writes start at sector 0 of a cluster, so they are at the offset asked for if and only if
  the offset falls in the first sector of its cluster (`FatContents.InPlaceExactly`); an offset of 512
  with two sectors per cluster does not (`FatContents.SecondSectorMissed`).
- The cluster count of a write is right if and only if the 32-bit sum does not wrap
  (`FatFile.ClustersForRight`); for a size of 2^32 - 1 it is 0 (`FatFile.CountWraps`).
- After a successful create, lookup finds the entry if and only if, in the directory as it was, no 0x00
  slot lies in front of the first run of free slots that is long enough or, when there is no such run,
  there is no 0x00 slot at all (`FatAdd.CreatedFound`, `FatAdd.WillBeFoundPacked`); a directory that
  grows while a 0x00 slot is left at its tail loses the entry (`FatAdd.LostEntry`).
- Unlink frees one slot: the slots of the long name stay in use for good (`FatOthers.NothingToMark`,
  `FatOthers.RemovedKeeps`), and a file created in the slot under the alias answers to the removed
  long name (`FatOthers.DeletedNameReturns`). A new entry is taken for another name if and only if
  `FatOthers.TakenExactly` says so.
- A long name reads back unchanged if and only if all its bytes are below 0x80
  (`LfnNames.NameReadBack`); 0x80 itself becomes an underscore (`LfnNames.HighByteLost`).
- The loader's check that the file has the bytes of a segment is right if and only if the 64-bit sum
  of offset and size does not wrap (`ElfImage.CheckedExactly`); it passes a segment of 4097 bytes from
  4096 bytes in front of the file (`ElfImage.CheckWraps`).
- The scan for a free cluster looks behind the end of the table if and only if the table ends in front
  of the scan's limit and no entry from the hint on is free (`FatChains.LeavesExactly`), even when one
  in front of the hint is (`FatChains.ShortTableLeft`).
- `waitpid` looks at the low 32 bits of the pid only (`Scheduler.Scheduler.WaitPid`,
  `Scheduler.PidCut`).
- `liballoc.c`, over an allocator of frames that can fail, loses the old allocation in a `krealloc` to
  a larger size if and only if no gap and no run of frames is large enough
  (`Heap.Heap.MoveLarger`, `Heap.FullHeap`); in this kernel `pmalloc` waits there forever instead.
- A new heap block takes the allocation if and only if the size plus the headers rounds up within 32
  bits (`Heap.NewBlockTakes`, `Heap.HugeRequestTruncated`).
- The tick sets a zombie running again if and only if no task is runnable
  (`ProtocolTurns.ZombieRevived`, `ProtocolTurns.LoneZombie`); with the idle task there, it never does.
- `build_user_stack` fails if and only if the counts are out of range, the total does not fit, or
  alignment goes below the block, and the last never happens for an aligned block
  (`UserStack.BuildUserStack`, `UserStack.AlignedFits`).

## Model

| member | source | states |
|---|---|---|
| `Pmm.SetOneBit` | src/mm/pmm.c:49 | setting a bit of a packed byte sets that one and no other |
| `Pmm.ClearOneBit` | src/mm/pmm.c:45-47 | clearing a bit clears that one and no other |
| `Pmm.MaskIs` | src/mm/pmm.c:45-49 | the mask of bit k is 1 shifted by k |
| `Pmm.CreditTwice` | src/mm/pmm.c:51-63 | 32-bit updates of the free counter add up, in either direction, across wrap-around |
| `Pmm.FrameAllocator.AllocPage` | src/mm/pmm.c:49 | exactly one frame joins those in use |
| `Pmm.FrameAllocator.FreePage` | src/mm/pmm.c:45-47 | exactly one frame leaves those in use |
| `Pmm.FrameAllocator.AllocPages` | src/mm/pmm.c:58-63 | the frames of a run join those in use, and the counter goes down by 4096 for each, modulo 2^32 |
| `Pmm.FrameAllocator.FreePages` | src/mm/pmm.c:51-56 | the frames of a run leave those in use, and the counter goes up by 4096 for each, modulo 2^32 |
| `Pmm.FrameAllocator.Pmalloc` | src/mm/pmm.c:74-95 | takes the first run of free frames that is long enough, and 4096 for each off the counter; none exactly when there is none |
| `Words.LoadsAreValues` | src/fs/fat32.c:44-53 | words in files and sectors have their least significant byte first |
| `PageTables.LeafSamePage` | src/mm/vmm.c:99-126 | two user addresses have the same four indices exactly when they are on one page |
| `PageTables.IndicesOfPage` | src/mm/vmm.c:99-112 | the four indices are the digits of the page number to base 512, most significant first |
| `PageTables.PathInTree` | src/mm/vmm.c:38-60 | in a tree, user code gets through the three tables above a page exactly when they are there and their entries have the user bit; they are writable and executable all along |
| `PageTables.PathOfPage` | src/mm/vmm.c:99-126 | the way to an address is the way to its page |
| `PageTables.TranslateInTree` | src/mm/vmm.c:237-250 | an address translates exactly when its leaf is a place of the tree, and to the frame there |
| `PageTables.TreeFrame` | src/mm/vmm.c:237-250 | the walk depends on nothing but the tables of the tree |
| `TreeSteps.NewTableGrows` | src/mm/vmm.c:38-60 | an intermediate table changes no translation and keeps the tree well-formed, with one frame more |
| `TreeSteps.PathsGrow` | src/mm/vmm.c:38-60 | whatever adds tables, or puts one page in or takes one out, leaves every way that user code had open |
| `TreeSteps.StorePage` | src/mm/vmm.c:120-125 | storing the last entry adds or removes exactly one page of the tree |
| `TreeSteps.EmptyTree` | src/mm/vmm.c:167-188 | a table with an empty user half is a tree without pages |
| `Vmm.Machine.EnsureTable` | src/mm/vmm.c:38-60 | gives the next table, new and zeroed when absent, with the user bit set when asked for; no translation changes and no user bit is lost; none exactly when memory is out |
| `Vmm.Machine.EnsureTables` | src/mm/vmm.c:99-119 | adds only the three tables on the way to a page, and succeeds exactly when all of them are there afterwards; for user flags the whole way is then open to user code, and every way that was open stays open |
| `Vmm.Machine.MapPageIn` | src/mm/vmm.c:99-126 | success sets one page's translation and no other; failure changes none; at most three tables come in; a page with user flags can be reached by user code, and so can every page that could before |
| `Vmm.MappedThere` | src/mm/vmm.c:120-125 | the addresses of the mapped page, and no others, have the frame with the flags, or present and writable when the flags are zero |
| `Vmm.Machine.ReadPte` | src/mm/vmm.c:237-250 | agrees with the partial map |
| `Vmm.Machine.UnmapPageIn` | src/mm/vmm.c:137-165 | removes one page's translation and returns its frame; nothing changes when there is none; every way that was open to user code stays open |
| `Vmm.Machine.CreateUserPageTable` | src/mm/vmm.c:167-188 | a fresh root with the kernel's upper half that translates no user address |
| `Subtrees.FreeChild` | src/mm/vmm.c:215-232 | clearing a childless entry and freeing its frame leaves the tree without exactly that place |
| `Subtrees.ShrinksTransitive` | src/mm/vmm.c:189-236 | frames given back in steps are each counted once |
| `FreeTree.FreeBelow` | src/mm/vmm.c:195-232 | the loop over a table frees exactly the places below it, from any table of the tree |
| `FreeTree.FreeUserPageTable` | src/mm/vmm.c:189-236 | frees exactly the frames of the tree, each once, and changes no page outside it |
| `FreeTree.CountFrames` | src/mm/vmm.c:189-236 | a tree has as many frames as places |
| `CloneSteps.CloneTable` | src/mm/vmm.c:258-280 | a table of the parent gets a twin of its own in the child; the parent and all it shares nothing with stay |
| `CloneSteps.ClonePage` | src/mm/vmm.c:282-295 | a page gets a fresh frame with the same bytes, and the child and the parent stay twins, place by place |
| `CloneTree.CloneBelow` | src/mm/vmm.c:258-298 | the loop over a table copies everything below it, or stops with what it copied so far |
| `CloneTree.CloneUserPageTable` | src/mm/vmm.c:251-306 | a deep copy: the same user pages, equal bytes, fresh frames, the parent unchanged; each page is present, writable and for user code as the parent's is, keeps bits 3 to 11, loses the execute-disable bit, and can be reached by user code if and only if the parent's can; it fails exactly when fewer frames are free than the parent has places, and the allocator is then as before |
| `CloneTree.ClonedPath` | src/mm/vmm.c:264-281 | the tables on the way to a copied page let user code through exactly when the parent's do |
| `CloneTree.FramesSufficed` | src/mm/vmm.c:251-306 | a whole copy means that as many frames were free as the parent has places |
| `CloneTree.FramesLacked` | src/mm/vmm.c:251-306 | a copy that stopped for lack of a frame means that fewer were free from the start |
| `CloneTree.CloneThenFree` | src/mm/vmm.c:189-306 | in between there is a whole clone in frames of its own, exactly when there are frames enough; after freeing it the bitmap, the counter and every frame in use are what they were |
| `HeapWindow.ExtendsTransitive` | src/arch/x86_64/syscall/mem.c:92-125 | growth of a tree page by page charges each frame once and leaves all other frames alone |
| `HeapWindow.MappedMore` | src/arch/x86_64/syscall/mem.c:96-112 | one page more of the window is mapped to zeros and open to user code if its flags are, every other address translates as before and stays open if it was |
| `HeapWindow.FailedPage` | src/arch/x86_64/syscall/mem.c:104-109 | giving back the frame of a page that could not be mapped leaves only new tables |
| `Needs.FramesTaken` | src/mm/vmm.c:38-126 | the frames that left the free ones are as many as the places that came into the tree |
| `Needs.FramesSufficed` | src/mm/vmm.c:38-126 | pages that were all mapped had as many free frames as they and the tables that were missing take |
| `Needs.FramesLacked` | src/mm/vmm.c:38-126 | if one of the pages could not be mapped, fewer were free from the start |
| `Brk.UnmapOne` | src/arch/x86_64/syscall/mem.c:127-135 | a mapped page goes and its frame is free again; all ways that were open to user code stay open |
| `Brk.UnmapPages` | src/arch/x86_64/syscall/mem.c:127-135 | exactly the pages of the range lose their translation and their frames return |
| `Brk.RollBack` | src/arch/x86_64/syscall/mem.c:116-124 | undoes the pages mapped so far: the translation is that of the start |
| `Brk.MapFresh` | src/arch/x86_64/syscall/mem.c:97-109 | one zeroed page mapped at one address, with the way to it open for user flags; or no change to the translation, with fewer frames free than places on the way are still missing; ways that were open stay open |
| `Brk.MapPages` | src/arch/x86_64/syscall/mem.c:92-125 | all pages of the range mapped to zeros, and open to user code for user flags, or -ENOMEM with the translation unchanged; it succeeds exactly when as many frames are free as the pages and the missing tables take |
| `Brk.SysBrk` | src/arch/x86_64/syscall/mem.c:137-185 | after every call, exactly the pages from the heap's start to the break rounded up are mapped, and user code can reach, read and write all of them, but not execute; a call that raises the break is refused exactly when fewer frames are free than it takes |
| `Brk.HeapExactly` | src/arch/x86_64/syscall/mem.c:137-185 | after any call, an address above the first page of the heap is on a heap page if and only if its page starts below the break, and unmapped otherwise |
| `Brk.GrowHeap` | src/arch/x86_64/syscall/mem.c:160-172 | new pages are zero, kept pages keep their bytes |
| `Brk.ShrinkHeap` | src/arch/x86_64/syscall/mem.c:173-180 | the pages above the new break return to the allocator |
| `HeapLayout.Apart` | src/mm/liballoc.c:216-533 | two allocations of a block do not overlap |
| `HeapLayout.GapsInFree` | src/mm/liballoc.c:293-335 | a gap that takes a size means the block's free total does, so the quick check skips no gap |
| `HeapLayout.InsertSorted` | src/mm/liballoc.c:337-490 | an allocation at the start of a gap that takes it keeps the block sorted |
| `HeapLayout.SumsOfInsert` | src/mm/liballoc.c:337-490 | sizes and usage grow by the allocation and its header |
| `HeapHeaders.PlacedStands` | src/mm/liballoc.c:337-490 | the stores of a placement leave headers that stand for the layout with the new allocation, links both ways |
| `HeapHeaders.TakenStands` | src/mm/liballoc.c:596-611 | the stores of kfree leave headers that stand for the layout without it |
| `HeapHeaders.AppendedStands` | src/mm/liballoc.c:164-214 | a new block linked behind the last one leaves headers that stand for one block more |
| `HeapHeaders.DroppedStands` | src/mm/liballoc.c:615-627 | an empty block unlinked leaves headers that stand for the others |
| `HeapHeaders.UnalignAligned` | src/mm/liballoc.c:23-41 | UNALIGN undoes ALIGN on every live allocation |
| `HeapHeaders.PointerSafe` | src/mm/liballoc.c:216-533 | a pointer is 16-aligned and its bytes overlap no live header and no other live allocation |
| `HeapHeaders.ForgottenIs` | src/mm/liballoc.c:337-627 | forgetting the headers in bytes that were given out or freed keeps all live ones |
| `HeapHeaders.PlacedIntact` | src/mm/liballoc.c:337-490 | a placement leaves no known header, dead or alive, inside another live allocation |
| `HeapHeaders.PayloadSafe` | src/mm/liballoc.c:216-533 | what a caller stores in the bytes asked for changes no known header, dead or alive, and no alignment byte |
| `Heap.NewBlockTakes` | src/mm/liballoc.c:164-198 | the recorded size of a new block takes the request exactly when that fits 32 bits with the headers |
| `Heap.HugeRequestTruncated` | src/mm/liballoc.c:164-198 | a request of 4 GiB gets 16 pages |
| `Heap.Heap.AddMajor` | src/mm/liballoc.c:164-214 | a new empty block on the first run of frames that is long enough, linked last; 0 exactly when there is none |
| `Heap.Heap.LinkMinor` | src/mm/liballoc.c:337-490 | the stores of each placing case put one allocation at the start of one gap; dead headers in it are known no longer |
| `Heap.Heap.PlaceIn` | src/mm/liballoc.c:337-490 | takes the first gap of the block that is large enough, none in front of it is; or there is none in the block |
| `Heap.Heap.Advance` | src/mm/liballoc.c:494-527 | the next block, the first one again once, or a new one only when every block is full |
| `Heap.Heap.Search` | src/mm/liballoc.c:280-533 | the search ends, despite its restart from the best bet |
| `Heap.Heap.Kmalloc` | src/mm/liballoc.c:216-533 | one allocation more in a gap of a block, with new pages only if no gap was large enough; 0 exactly when no gap and no run of frames is |
| `Heap.Heap.UnlinkMinor` | src/mm/liballoc.c:596-611 | one allocation less, all else in place |
| `Heap.Heap.DropMajor` | src/mm/liballoc.c:615-627 | the block is out of the list, the best bet never dangles, its pages are free again, and no header in them is known |
| `Heap.Heap.Kfree` | src/mm/liballoc.c:535-644 | exactly the live allocation goes, with the last one of a block its pages; a dead header that nothing was written over is counted and changes nothing |
| `HeapBytes.Memory.Copy` | src/mm/liballoc.c:108-128 | on regions that do not overlap, or downwards, exactly the bytes of one are at the other, word loop and byte loop together |
| `Heap.CopyApart` | src/mm/liballoc.c:731-734 | the old bytes and the room of the new allocation do not overlap |
| `Heap.Heap.MoveLarger` | src/mm/liballoc.c:731-736 | a larger allocation holds the old bytes, the old one is free, no other byte changed; exactly when no gap and no run of frames is large enough, the bytes go to address 0 and the old one is freed all the same |
| `Heap.Heap.Krealloc` | src/mm/liballoc.c:659-737 | a request not larger stays in place; a larger one moves with its bytes, or is lost exactly when there is no room; 0 frees; a known dead header changes nothing |
| `Heap.NotExhausted` | src/mm/liballoc.c:216-533 | what was placed went into a gap that was there or a run of frames that was free |
| `Heap.FullHeap` | src/mm/liballoc.c:216-533 | with all frames in use and one block filled by one allocation, no request finds room |
| `FatTable.WithNextReads` | src/fs/fat32.c:44-63 | an entry reads back masked, its top four bits kept |
| `FatTable.ChainUnique` | src/fs/fat32.c:44-51 | a chain is determined by its first cluster |
| `FatTable.ChainKept` | src/fs/fat32.c:53-63 | entries outside a chain do not matter to it |
| `FatDriver.StoredTable` | src/fs/fat32.c:53-63 | storing a word in the cached sector changes one entry of the table and no other |
| `FatDriver.Refilled` | src/fs/fat32.c:31-38 | filling a clean cache with another sector loses nothing |
| `FatDriver.ClustersApart` | src/fs/fat32.c:40-42 | clusters share no sector |
| `FatDriver.ClustersTile` | src/fs/fat32.c:40-42 | cluster 2 starts at the first data sector, each cluster one cluster size behind the one before, and together they are all sectors of the data area, no more |
| `FatDriver.Driver.constructor` | src/fs/fat32.c:365-373 | starts with an empty cache and the hint behind the root directory |
| `FatMount.Init` | src/fs/fat32.c:357-376 | refuses a boot sector without a signature, and else takes the geometry from its bytes at their offsets, with nothing cached and the table on disk |
| `FatMount.MountedByte` | src/fs/fat32.c:357-376 | on a mounted volume, byte p of a file of one cluster is where the fields of the boot sector, by their offsets, say |
| `FatDriver.Driver.Sync` | src/fs/fat32.c:23-28 | afterwards the disk alone holds the table, which is unchanged, as is all data |
| `FatDriver.Driver.CacheGet` | src/fs/fat32.c:31-38 | the sector is the cached one; table and data are unchanged |
| `FatDriver.Driver.GetNext` | src/fs/fat32.c:44-51 | the masked entry of the table, which stays as it is |
| `FatDriver.Driver.SetNext` | src/fs/fat32.c:53-63 | one entry of the table changes and keeps its top four bits; no data sector changes |
| `FatDriver.Driver.FreeChain` | src/fs/fat32.c:1068-1077 | ends on every table, cyclic ones too, and zeroes exactly the entries reached from the start |
| `FatDriver.Driver.ZeroCluster` | src/fs/fat32.c:666-671 | zeroes the sectors of one cluster and nothing else |
| `FatDriver.Driver.Take` | src/fs/fat32.c:659-674 | the cluster is an end of chain on disk, zeroed, and the hint is behind it |
| `FatDriver.Driver.ScanFree` | src/fs/fat32.c:646-657 | the scan finds the first free entry in cyclic order from the hint, or every entry up to the limit is in use |
| `FatDriver.Driver.Allocate` | src/fs/fat32.c:646-682 | the first free entry of the cyclic scan from the hint; 0 exactly when every entry up to the limit is in use |
| `FatChains.ClosedHolds` | src/fs/fat32.c:1068-1077 | a set closed under links holds all that is reached |
| `FatChains.FreedStep` | src/fs/fat32.c:1068-1077 | an entry met again reads 0, so the walk ends |
| `FatChains.FreedAll` | src/fs/fat32.c:1068-1077 | once the walk ends, what is freed is what was reached |
| `FatChains.ReachedChain` | src/fs/fat32.c:1068-1077 | from the head of a chain exactly the chain is reached |
| `FatChains.FreeingChain` | src/fs/fat32.c:1109-1128 | freeing a chain raises the free count by exactly its length |
| `FatChains.OthersKeptByFreeing` | src/fs/fat32.c:1068-1077 | a chain that shares no cluster is kept |
| `FatChains.ReadyAfter` | src/fs/fat32.c:646-682 | an allocation uses up one of the free entries that lie ahead of the hint |
| `FatChains.LeavesExactly` | src/fs/fat32.c:646-682 | the scan looks behind the end of a table exactly when this ends in front of the limit and no entry from the hint on is free |
| `FatChains.ShortTableLeft` | src/fs/fat32.c:646-682 | in a table of 16 entries with only entry 2 free, the scan from 3 leaves the table |
| `FatVolume.NewKept` | src/fs/fat32.c:646-682 | a new chain keeps the volume sound, with one free entry less |
| `FatVolume.RemoveKept` | src/fs/fat32.c:1109-1128 | a removed chain keeps it sound and frees exactly its clusters |
| `FatVolume.GrowKept` | src/fs/fat32.c:715-729 | a grown chain keeps all chains disjoint and the table without lost clusters |
| `FatVolume.GrowCounts` | src/fs/fat32.c:820-827 | a grown chain takes as many free entries as it gained clusters |
| `FatVolume.RunKept` | src/fs/fat32.c:646-1137 | over every run the live chains are finite, acyclic, ended, disjoint and all that is in use, and the free count adds up |
| `FatBytes.SectorsApart` | src/fs/fat32.c:40-42 | different sectors of a chain are different sectors of the disk |
| `FatBytes.ByteOfChain` | src/fs/fat32.c:40-42 | byte p of a chain is byte p mod 512 of a sector counted from the start of the data area, for any chain |
| `FatBytes.SplicedOn` | src/fs/fat32.c:1032-1047 | one sector stored extends the range written and leaves every other byte of the file |
| `FatBytes.GrownBytes` | src/fs/fat32.c:666-671 | a cluster appended adds zeros behind the bytes of the file |
| `FatRead.StartIsOffset` | src/fs/fat32.c:435-452 | the loops start at the offset exactly when it is in the first sector of its cluster |
| `FatRead.Skip` | src/fs/fat32.c:439-442 | the loop that skips clusters arrives at the right one |
| `FatRead.SkipOrEnd` | src/fs/fat32.c:439-442 | the loop of read gives up exactly when the chain ends before the cluster asked for |
| `FatRead.ReadCluster` | src/fs/fat32.c:448-461 | the inner loop copies the bytes of one cluster to their place |
| `FatRead.ReadRange` | src/fs/fat32.c:435-463 | the walk and the loops deliver exactly the range, as far as the chain goes |
| `FatRead.ReadFile` | src/fs/fat32.c:426-464 | the count that is left of the file and of its chain, and that many bytes; nothing on the volume changes |
| `FatGrow.LinkedChain` | src/fs/fat32.c:1009-1013 | a free cluster linked behind the tail extends the chain by itself |
| `FatGrow.Tail` | src/fs/fat32.c:1003-1006 | the walk finds the last cluster |
| `FatGrow.GrowBy` | src/fs/fat32.c:1008-1014 | appends so many free clusters; on a full disk the chain is still one, and the bytes are kept |
| `FatWrite.WriteOne` | src/fs/fat32.c:1032-1047 | one turn of the inner loop stores one piece where it belongs |
| `FatWrite.WriteCluster` | src/fs/fat32.c:1030-1047 | the inner loop stores the bytes of one cluster |
| `FatWrite.WriteRange` | src/fs/fat32.c:1017-1049 | exactly the range is replaced; table and all other sectors stay |
| `FatFile.ClustersForRight` | src/fs/fat32.c:996-1000 | for every end of a write, the rounded-up division is the least count that holds it exactly when the sum does not wrap |
| `FatFile.CountWraps` | src/fs/fat32.c:996-1000 | for a size of 2^32 - 1 and one sector per cluster the count is 0 |
| `FatFile.Capacity` | src/fs/fat32.c:996-1008 | after the clusters counted as missing are appended, the chain holds the write |
| `FatFile.Extend` | src/fs/fat32.c:996-1015 | the chain is long enough, or the disk is full |
| `FatFile.UpdateEntry` | src/fs/fat32.c:1057-1060 | the size field of the directory entry changes and no other byte |
| `FatFile.Finish` | src/fs/fat32.c:1051-1065 | the size goes up to the end of the write, in the entry too, and the cache is clean |
| `FatFile.WriteFile` | src/fs/fat32.c:989-1066 | the whole buffer is stored, or -1 with file and size as before; the chain grew by free clusters only; nothing else on the volume changed |
| `FatContents.WrittenContents` | src/fs/fat32.c:989-1066 | contents after a write: the range replaced, a gap zero-filled, the bytes behind the size still zero |
| `FatContents.FailedContents` | src/fs/fat32.c:1009-1010 | a write that fails on a full disk leaves the contents |
| `FatContents.WriteContents` | src/fs/fat32.c:989-1066 | a write in terms of contents: the file holds its new size, contents and zero tail as stated, its entry still apart, so that writes follow one another |
| `FatContents.InPlaceExactly` | src/fs/fat32.c:1017-1036 | writes are where they should be exactly when the offset is in the first sector of its cluster |
| `FatContents.SecondSectorMissed` | src/fs/fat32.c:1017-1036 | with two sectors per cluster a write at offset 512 lands at offset 0 |
| `FatContents.ReadBack` | src/fs/fat32.c:426-464 | what was written at an offset is read back there |
| `FatContents.ReadContents` | src/fs/fat32.c:426-464 | a read is the slice of the contents |
| `FatContents.OthersKept` | src/fs/fat32.c:989-1066 | every other chain and every byte of it is kept, but for the size field of the entry |
| `Lfn.Checksum` | src/fs/fat32.c:97-103 | the rotating sum of the eleven bytes |
| `Lfn.RotateIs` | src/fs/fat32.c:97-103 | a step is a rotation right by one bit, undone by one to the left, and an addition modulo 256 |
| `Lfn.SumOfReadme` | src/fs/fat32.c:97-103 | the sum of the alias README~1.TXT is 0x6B |
| `Lfn.Accum.Extract` | src/fs/fat32.c:126-141 | a row becomes the string of the slot, all other rows stay |
| `Lfn.Accum.Join` | src/fs/fat32.c:178-182 | the rows in order, as one string |
| `Lfn.Accum.Feed` | src/fs/fat32.c:147-187 | carries out one transition of the reader, with or without a name |
| `LfnNames.WritePiece` | src/fs/fat32.c:873-921 | thirteen units of the name, one terminator, then padding |
| `LfnNames.WriteShort` | src/fs/fat32.c:927-933 | the alias, the attributes, the first cluster, size 0 |
| `LfnNames.WriteSlots` | src/fs/fat32.c:854-936 | the pieces from the last to the first, then the short entry |
| `LfnNames.PieceBytes` | src/fs/fat32.c:873-921 | the bytes of a slot of the long name: its number, the mark of the last piece, the checksum, and the characters with their low bytes first |
| `LfnNames.FirstClusterBytes` | src/fs/fat32.c:923-934 | the first cluster of an entry is in bytes 26, 27, 20 and 21 |
| `LfnNames.WritableNames` | src/fs/fat32.c:854-857 | a name fits the twenty pieces exactly when it has at most 260 bytes |
| `LfnNames.PieceText` | src/fs/fat32.c:126-141 | a piece reads as its characters, also when it has no terminator |
| `LfnNames.NameReadBack` | src/fs/fat32.c:97-187 | from any reader state the slots give the name at the short entry and nowhere before |
| `LfnNames.HighByteLost` | src/fs/fat32.c:126-141 | a name of the byte 0x80 reads back as an underscore |
| `ShortNames.DigitsUnique` | src/fs/fat32.c:254-263 | decimal digits determine the number |
| `ShortNames.DigitsValue` | src/fs/fat32.c:254-263 | the decimal digits stand for the number |
| `ShortNames.BaseIs` | src/fs/fat32.c:238-246 | the base of an alias is the name in front of its last dot, without spaces and dots, in upper case, cut to eight |
| `ShortNames.ExtIs` | src/fs/fat32.c:238-252 | the extension is what follows the last dot, in upper case, cut to three |
| `ShortNames.AliasOfShort` | src/fs/fat32.c:231-272 | the first alias of "a b.c" is "AB~1    C  " |
| `ShortNames.AliasInjective` | src/fs/fat32.c:231-272 | no two numbers give a name the same alias, even when the name has tildes |
| `ShortNames.Pigeonhole` | src/fs/fat32.c:846-852 | fewer than k names in use cannot use up the first k aliases |
| `ShortNames.GenerateAlias` | src/fs/fat32.c:231-272 | the eleven bytes of BASE~N.EXT |
| `FatNames.NameFits83` | src/fs/fat32.c:191-208 | decides whether a name needs no long form |
| `FatNames.FormatName` | src/fs/fat32.c:210-226 | upper case, cut and padded, split at the first dot |
| `FatNames.Format83Bytes` | src/fs/fat32.c:210-226 | each byte of the 8.3 form is that of the name, in upper case, or a space, split at the first dot |
| `FatNames.AliasNotFree` | src/fs/fat32.c:231-272 | an alias never looks like a free or deleted slot |
| `FatDirectory.NothingBefore` | src/fs/fat32.c:486-523 | a search that finds nothing has passed every slot in front of the first 0x00 |
| `FatCreate.FoundAt` | src/fs/fat32.c:854-936 | slots written for a name are found as the first match |
| `FatCreate.FoundExactly` | src/fs/fat32.c:486-523 | they are found exactly when no slot in front starts with 0x00 |
| `FatAdd.FindAlike` | src/fs/fat32.c:119-187 | stale chunks of the accumulator never show in a lookup |
| `FatAdd.RunBeforeZero` | src/fs/fat32.c:777-803 | in a packed directory the first run of free slots has no 0x00 slot in front |
| `FatAdd.RunningOn` | src/fs/fat32.c:785-800 | one slot more makes the run longer, complete at the first place with so many free slots, or empty |
| `FatAdd.WillBeFoundPacked` | src/fs/fat32.c:766-835 | in a packed directory an entry will be found exactly when there is a run of free slots for it, or not a single 0x00 slot |
| `FatAdd.LostEntry` | src/fs/fat32.c:766-966 | in a directory of sixteen slots with one 0x00 slot at its end, the name "a" is added and not found |
| `FatAdd.CreatedFound` | src/fs/fat32.c:939-966 | after a create, lookup finds the entry with the cluster given and size 0 exactly when, in the directory as it was, no 0x00 slot lies in front of the first run of free slots for the name or, if there is none, anywhere |
| `FatAdd.CreatedKeeps` | src/fs/fat32.c:838-937 | short names stay pairwise distinct, and no used slot follows a 0x00 slot if the entry will be found |
| `FatOthers.CreatedOthers` | src/fs/fat32.c:838-966 | in a packed directory every name that the new entry is not taken for is found as before, or not, as before |
| `FatOthers.TakenExactly` | src/fs/fat32.c:486-523 | the new entry is taken for another name exactly when that has the alias as its 8.3 form, or is spelled by pieces left in front of the slot |
| `FatOthers.NothingToMark` | src/fs/fat32.c:1116-1126 | the accumulator is empty at every short entry, so unlink marks no slot of the long name |
| `FatOthers.RemovedOthers` | src/fs/fat32.c:1079-1137 | after an unlink the name is looked for behind the entry, and every other name is found as before |
| `FatOthers.RemovedKeeps` | src/fs/fat32.c:1112-1126 | an unlink keeps the directory packed and its names distinct, and frees one slot: those of the long name stay in use |
| `FatOthers.DeletedNameReturns` | src/fs/fat32.c:687-712 | a file created under the alias of a removed one, in its slot, is found under the removed long name |
| `FatSlots.SlotPlace` | src/fs/fat32.c:482-486 | the slots of a directory are 32-byte pieces of the sectors of its chain |
| `FatSlots.SlotOfChain` | src/fs/fat32.c:477-490 | slot i of a directory is 32 bytes of a sector counted from the start of the data area |
| `FatSlots.SlotStored` | src/fs/fat32.c:924-934 | storing a slot into its sector changes this slot and no other |
| `FatSlots.SlotsGrown` | src/fs/fat32.c:820-835 | a zeroed cluster appended puts 0x00 slots behind the slots |
| `FatScan.Lookup` | src/fs/fat32.c:470-527 | over the clusters of the chain: the first entry that matches by 8.3 form or long name in front of the first 0x00 slot, with its first cluster, size, kind and place, or none |
| `FatScan.ShortNameExists` | src/fs/fat32.c:736-757 | decides whether a short name is in use in front of the first 0x00 slot |
| `FatScan.FindAlias` | src/fs/fat32.c:846-852 | ends with the first unused alias, whenever fewer than 999999 short names are in use |
| `FatScan.FindFree` | src/fs/fat32.c:766-805 | the places of the first run of free slots that is long enough, across sectors and clusters, exactly when there is one; else the last cluster |
| `FatEntries.PutSlot` | src/fs/fat32.c:924-934 | one slot of the directory changes; table and other sectors stay |
| `FatEntries.PlaceSlots` | src/fs/fat32.c:870-934 | the slots of an entry lie in order at their places, all others stay |
| `FatEntries.GrowDir` | src/fs/fat32.c:820-827 | one zeroed cluster more, linked last and on disk; fails exactly when no cluster is free |
| `FatEntries.Reserve` | src/fs/fat32.c:766-835 | the first run, or the head of a new cluster when there is none; succeeds exactly when there is a run, or the count fits a cluster and one is free |
| `FatEntries.AddNamed` | src/fs/fat32.c:838-937 | the slots of the name at the place reserved, under an unused alias; succeeds exactly when there is room, and changes nothing otherwise |
| `FatEntries.AddShort` | src/fs/fat32.c:687-734 | one short entry in the first free slot, or in a new cluster when there is none |
| `FatDirOps.GivenBack` | src/fs/fat32.c:958-963 | allocating a cluster and freeing it again leaves every entry of the table as it was |
| `FatDirOps.Create` | src/fs/fat32.c:939-966 | returns 0 exactly when the name is new, there is room and there are clusters for both; then an empty file of one zeroed cluster is in the directory and the table is on disk; else the table and the directory are as before |
| `FatDirOps.AddDots` | src/fs/fat32.c:980-983 | the new directory holds "." and ".." with the right clusters, and 0x00 slots |
| `FatDirOps.Mkdir` | src/fs/fat32.c:968-987 | like create, with the new cluster a directory of "." and ".." |
| `FatDirOps.Unlink` | src/fs/fat32.c:1079-1137 | removes exactly the entry that lookup finds: its slot is deleted, all that is reached from its first cluster is free, the table is on disk, nothing else changed; -1 exactly when there is none |
| `FatDirRuns.MadeVolume` | src/fs/fat32.c:939-987 | create and mkdir are a new chain and a growth of the directory: the volume stays sound and its free count adds up |
| `FatDirRuns.MadeOthers` | src/fs/fat32.c:939-987 | every other chain keeps its clusters and its bytes |
| `FatDirRuns.UnlinkedVolume` | src/fs/fat32.c:1079-1137 | unlink is the removal of a chain: the volume stays sound and exactly its clusters are free again |
| `FatDirRuns.UnlinkedOthers` | src/fs/fat32.c:1079-1137 | every other chain keeps its clusters, and every file its bytes |
| `FatDirRuns.MadeFound` | src/fs/fat32.c:939-966 | on the volume, for a name of bytes below 0x80: lookup finds the new entry exactly when it would be found |
| `FatDirRuns.CreateThenLookup` | src/fs/fat32.c:470-966 | a lookup after a create, of a name of bytes below 0x80, returns the new empty file exactly when it would be found |
| `FatDirRuns.CreatedWritable` | src/fs/fat32.c:939-1066 | the new file meets all that write relies on: its chain holds its size, zeros behind, its entry apart |
| `FatDirRuns.MadeThenUnlinked` | src/fs/fat32.c:939-1137 | a create without growth and the unlink of the entry leave the table exactly as it was, and the slots too but for those of the long name and a deleted one |
| `ProtocolRuns.TickKeeps` | src/kernel/sched/scheduler.c:94-137 | a tick leaves the chosen task as the only running one, and makes no zombie |
| `ProtocolRuns.ExitKeeps` | src/arch/x86_64/syscall/proc.c:18-54 | exit wakes the parent that waits, so no wakeup is lost |
| `ProtocolRuns.WaitKeeps` | src/arch/x86_64/syscall/proc.c:56-111 | waitpid blocks only for a child that is there and alive |
| `ProtocolRuns.RunKeeps` | src/kernel/sched/scheduler.c:40-137 | in every reachable state: distinct ids, one running task, an idle task, and every task blocked in waitpid has its child in the ring and not a zombie |
| `ProtocolSafety.DeadForGood` | src/arch/x86_64/syscall/proc.c:18-54 | a task that exited stays a zombie with its status, or is gone; it never runs again |
| `ProtocolSafety.CollectedOnce` | src/arch/x86_64/syscall/proc.c:73-97 | a child is collected at most once in a run |
| `ProtocolSafety.CollectedStatus` | src/arch/x86_64/syscall/proc.c:73-97 | the status collected is the one the child exited with |
| `ProtocolFamily.ForkedChild` | src/kernel/sched/scheduler.c:285-311 | over any run, the task that joins at a fork is new, runnable and the caller's child, and stays its child |
| `ProtocolFamily.CollectedByParent` | src/arch/x86_64/syscall/proc.c:65-93 | over any run, only the task that forked it collects a child |
| `ProtocolFamily.SpawnedNeverCollected` | src/arch/x86_64/syscall/proc.c:65-93 | a task that was spawned has no parent and is never collected |
| `ProtocolFamily.WaitAnswersInRun` | src/arch/x86_64/syscall/proc.c:56-111 | in every run, waitpid fails exactly when no task of the ring has the id and the caller as its parent; it takes a zombie child out with its status; for a live child it answers "not yet" with nohang and blocks the caller without |
| `ProtocolFamily.ForkExitWait` | src/arch/x86_64/syscall/proc.c:18-111 | over any run, once a forked child has exited and was not collected, waitpid by its parent returns its id and the status it exited with |
| `ProtocolFamily.ExitWakes` | src/arch/x86_64/syscall/proc.c:26-34 | an exit sets a blocked parent running again, whatever it waits for |
| `ProtocolFamily.SleepsOn` | src/kernel/sched/scheduler.c:68-91 | over any run, a sleep lasts until a tick at its time, or until a child of the sleeper exits |
| `ProtocolFamily.WakesInTime` | src/kernel/sched/scheduler.c:68-91 | the first tick at the time of a sleep or later ends it |
| `ProtocolTurns.TickNearer` | src/kernel/sched/scheduler.c:115-125 | a tick runs a waiting task or brings it strictly nearer |
| `ProtocolTurns.RunsInTime` | src/kernel/sched/scheduler.c:94-137 | a runnable task runs within as many ticks as tasks stood between or have joined since |
| `ProtocolTurns.TickRegs` | src/kernel/sched/scheduler.c:109-136 | a tick saves the registers of the task it stops and continues with those of the one it starts |
| `ProtocolTurns.ResumesAsStopped` | src/kernel/sched/scheduler.c:109-136 | over any run, a task resumes with exactly the registers saved when it was stopped |
| `ProtocolTurns.ChildRegs` | src/kernel/sched/scheduler.c:290-301 | a child starts with its parent's registers and 0 as the result |
| `ProtocolTurns.ZombieRevived` | src/kernel/sched/scheduler.c:111-125 | without a runnable task, and only then, the tick sets a zombie running |
| `ProtocolTurns.LoneZombie` | src/kernel/sched/scheduler.c:111-125 | a zombie alone in the ring runs again after a tick |
| `Scheduler.Scheduler.constructor` | src/kernel/sched/scheduler.c:21-24 | an empty ring |
| `Scheduler.Scheduler.Find` | src/kernel/sched/scheduler.c:30-38 | the first task with the id, or none |
| `Scheduler.Scheduler.Enqueue` | src/kernel/sched/scheduler.c:40-52 | the task comes last, and the links still form one ring |
| `Scheduler.Scheduler.SweepWakeup` | src/kernel/sched/scheduler.c:68-79 | exactly the blocked tasks whose time has come are runnable |
| `Scheduler.Scheduler.Choose` | src/kernel/sched/scheduler.c:115-122 | the nearest runnable task behind the current one, itself last |
| `Scheduler.Scheduler.ScheduleTick` | src/kernel/sched/scheduler.c:94-137 | carries out the tick step on the linked ring, first tick included |
| `Scheduler.Scheduler.SpawnTask` | src/kernel/sched/scheduler.c:212-242 | a new runnable task without a parent |
| `Scheduler.Scheduler.ForkTask` | src/kernel/sched/scheduler.c:244-311 | carries out the fork step, whose new task is the caller's child (`ProtocolFamily.ForkedChild`), and returns its id |
| `Scheduler.Scheduler.ExitCurrent` | src/arch/x86_64/syscall/proc.c:18-34 | carries out the exit step |
| `Scheduler.NeverOwnParent` | src/arch/x86_64/syscall/proc.c:18-34 | under the invariant no task is its own parent, as `ExitCurrent` asks |
| `Scheduler.Scheduler.SleepUntil` | src/kernel/sched/scheduler.c:81-91 | carries out the sleep step |
| `Scheduler.Scheduler.Unlink` | src/arch/x86_64/syscall/proc.c:77-90 | takes one task out and leaves one ring of the others, in order |
| `Scheduler.Scheduler.WaitPid` | src/arch/x86_64/syscall/proc.c:56-111 | carries out the waitpid step with all its results (`ProtocolFamily.WaitAnswersInRun`), for the id that the pid is when cast to 32 bits |
| `Scheduler.PidCut` | src/arch/x86_64/syscall/proc.c:65-71 | a pid of 2^32 + 1 waits for task 1 |
| `Scheduler.NeverChildZero` | src/arch/x86_64/syscall/proc.c:65-74 | under the invariant the idle task is nobody's child, as `WaitPid` asks |
| `ElfImage.ImageRight` | src/kernel/elf.c:136-255 | segments in turn put file bytes and zeros exactly where their headers say, when they are apart |
| `ElfImage.CheckedExactly` | src/kernel/elf.c:200-206 | a segment that passes the 64-bit check lies inside the file exactly when the sum of its offset and its size does not wrap, and every segment inside passes |
| `ElfImage.CheckWraps` | src/kernel/elf.c:200-206 | a segment of 4097 bytes at offset 2^64 - 4096 passes the check against a file of one page |
| `ElfImage.TrackedCount` | src/kernel/elf.c:150-197 | pages tracked once each are as many as the entries of the array |
| `ElfImage.TracksMore` | src/kernel/elf.c:162-196 | one fresh page more is mapped, open to user code and tracked, every other translation stays |
| `ElfImage.PatchShows` | src/kernel/elf.c:213-248 | a store into a tracked page changes the bytes of its addresses and no others |
| `Elf.AlreadyMapped` | src/kernel/elf.c:152-159 | decides whether a page is tracked |
| `Elf.FindKernel` | src/kernel/elf.c:122-133 | the entry of the page that holds an address, if any |
| `Elf.StoreAt` | src/kernel/elf.c:213-248 | the bytes go to their user address, tree and other pages stay |
| `Elf.MapSegment` | src/kernel/elf.c:148-198 | all pages of the segment are there, each mapped once with the flags of its first segment; it fails only for page 0 or with fewer frames free than a page still lacks |
| `Elf.CopySegment` | src/kernel/elf.c:200-232 | the file's part of the segment is at its addresses; for a sum that does not wrap, it succeeds exactly when the file has all of it and there are pages for it |
| `Elf.ZeroSegment` | src/kernel/elf.c:234-252 | the rest of the segment is zero |
| `ElfLoad.Measure` | src/kernel/elf.c:79-102 | the page count with shared pages counted for each segment, and the tightest page bounds |
| `ElfLoad.LoadSegments` | src/kernel/elf.c:135-254 | the second pass builds the image of all segments and tracks each of their pages once; it succeeds exactly when every segment is sound and as many frames are free as pages and missing tables take |
| `ElfLoad.Load` | src/kernel/elf.c:71-260 | on success the program finds its image and all else as before, frames are charged once each, and the page count is that of the segments; on failure only new pages were added; it succeeds exactly when there are pages to load, every segment is sound, and one frame more is free than pages and missing tables take |
| `ElfLoad.LoadPagesAre` | src/kernel/elf.c:148-198 | the pages counted are those that some segment touches |
| `ElfLoad.ReadableIs` | src/kernel/elf.c:200-232 | a segment's bytes are in the file and on tracked pages exactly when it is sound, page 0 apart |
| `ElfFile.Validate` | src/kernel/elf.c:7-58 | for a table size that fits `int`, accepts exactly 64-bit little-endian x86-64 executables whose header table ends, as a 64-bit sum, in the file |
| `ElfFile.ProgramBytes` | src/kernel/elf.c:7-58 | what is accepted, byte by byte of the file header |
| `ElfFile.CheckedInside` | src/kernel/elf.c:47-58 | with table entries of the usual size and a table size that fits `int`, the header table of an accepted file is inside it, unless its end wraps |
| `ElfFile.ReadHeaders` | src/kernel/elf.c:84-85 | the program headers at their places in the file, one for each entry of the table |
| `ElfFile.HeaderFields` | src/include/kernel/elf.h:54-63 | header i is at byte e_phoff + i * e_phentsize, and each of its fields is read from its own offset there |
| `ElfFile.LoadFile` | src/kernel/elf.c:71-260 | a file that is no program changes nothing; a program is loaded, with its bytes and pages as the next rows say, exactly when its segments are sound and frames are free for the pages, the missing tables and the tracking array |
| `ElfFile.BytesInPlace` | src/kernel/elf.c:200-254 | on the bytes of the file, for segments that are apart: user code reads p_filesz bytes from p_offset at p_vaddr, zeros from there up to p_memsz, and zeros on the rest of the pages |
| `ElfFile.PagesInPlace` | src/kernel/elf.c:136-196 | on the bytes of the file: a page is reachable by user code, writable and executable as bits 1 and 0 of p_flags in the first header with the page say; every address on no page of a segment is as before |
| `ElfLoad.LoadedRight` | src/kernel/elf.c:71-260 | through the page table, on a way open to user code: file bytes, then zeros to the end of the segment, zeros on the rest of its pages |
| `ElfLoad.SegmentPagesThere` | src/kernel/elf.c:148-198 | every address of a segment is on a page that is there |
| `ElfLoad.FirstFlags` | src/kernel/elf.c:148-190 | a page has the flags of the first segment on it |
| `UserStack.PushStrings` | src/kernel/sched/build_stack.c:19-34 | the strings lie below each other with their addresses known; fails exactly when they do not fit |
| `UserStack.PushPointers` | src/kernel/sched/build_stack.c:47-64 | the pointers in order and a NULL behind them |
| `UserStack.AlignedFits` | src/kernel/sched/build_stack.c:36-43 | for an aligned block, only the counts and the total decide |
| `UserStack.LaidOut` | src/kernel/sched/build_stack.c:45-73 | pointers and strings in place make a stack that reads back as the arguments |
| `UserStack.BuildUserStack` | src/kernel/sched/build_stack.c:5-77 | rsp is 16-aligned, and argc, argv and envp read back exactly, disjoint and inside the block; fails exactly when they do not fit |

## Left out

- Pmm.FrameAllocator.Pmalloc: where the source searches forever when no run of frames is long enough, the model returns none; initialisation from the memory map is left out, and frame 0 and the sentinel bit behind the last page are taken as set.
- Vmm.Machine.ReadPte: user-half addresses only.
- Vmm.Machine.UnmapPageIn: user-half addresses only.
- Vmm.Machine.MapPageIn: user-half addresses only; `invlpg`, CR3 and the kernel half are not modelled. A physical page is either a table of 512 entries or 4096 bytes of data, by the way it was last filled, so an entry cannot be read as data.
- FreeTree.FreeBelow: the four nested loops of free and clone are one recursive method per level of the tree, with the loop over 512 entries as in the source.
- Brk.SysBrk: assumes that nothing else was mapped between the heap's start and the top; `sys_mmap` and `sys_munmap` are left out.
- Heap.Heap.Kmalloc: asks that the size with its headers fits 32 bits; what happens otherwise is said by `Heap.NewBlockTakes` and `Heap.HugeRequestTruncated`. The lock hooks and `kcalloc` are left out.
- Heap.Heap.Kfree: a header is known until its bytes are given out again or freed, and pointers to others are not asked about; the bytes of allocations are kept apart from the headers, which `HeapHeaders.PayloadSafe` justifies.
- Heap.Heap.Krealloc: the copy to address 0 when no room is left is a copy of bytes below the heap; that page 0 may not be mapped is not modelled.
- Heap.Heap.AddMajor: asks, like `Kmalloc`, that the size with its headers fits 32 bits.
- Heap.Heap.Advance: asks, like `Kmalloc`, that the size with its headers fits 32 bits.
- Heap.Heap.Search: asks, like `Kmalloc`, that the size with its headers fits 32 bits.
- FatDriver.Driver.Allocate: asks for a table of at least 0x0FFFFFF0 entries or for a free entry ahead of the hint, since the source's scan goes up to that constant and not to the end of the volume; `ata_read_sector` and `ata_write_sector` always succeed.
- FatDriver.Driver.constructor: takes the fields that `FatMount.Init` reads from the boot sector.
- FatMount.Init: asks that the table lies in front of the data area and the volume within 32-bit sector numbers, which the source does not check.
- FatDriver.Driver.FreeChain: asks that every link ends a chain or names an entry of the table.
- FatRead.ReadFile: asks that offset and length add up within 64 bits.
- FatFile.WriteFile: asks that sizes with one cluster more fit 32 bits, beyond which `FatFile.ClustersForRight` says that the count is wrong, and that the directory entry lies in a cluster in use that is not the file's own.
- FatGrow.GrowBy: asks, like `Allocate`, that the scan for each cluster stays inside the table.
- FatFile.Extend: asks, like `Allocate`, that the scan for each cluster stays inside the table.
- FatEntries.GrowDir: asks, like `Allocate`, that the scan stays inside the table.
- FatEntries.Reserve: asks, like `Allocate`, that the scan stays inside the table, if there is no run.
- FatEntries.AddNamed: names are 1 to 255 bytes other than 0, and the scan stays inside the table, if there is no run.
- FatDirOps.Create: names are 1 to 255 bytes other than 0 (up to 260 can be written, by `LfnNames.WritableNames`, but the buffer of lookup takes 255), and the scan for the clusters needed stays inside the table; the mode is not used, as in the source.
- FatDirOps.Mkdir: the same as for `Create`.
- FatDirRuns.CreateThenLookup: the same as for `Create`.
- FatDirOps.Unlink: asks that the first cluster of the entry found is a cluster of the table, or none.
- FatScan.Lookup: the slots of a cluster are read before they are looked at, where the source reads sector by sector; the inode and the record of its place are a value. Long names of more than 255 bytes, for which the source has no buffer, are read whole.
- FatEntries.AddShort: the turn of the source's loop over the new cluster is the store into its first slot; the scan stays inside the table, if there is no free slot.
- Lfn.Accum.Feed: the slot positions that the accumulator records for unlink are left out; the loop of unlink over them has no turn (`FatOthers.NothingToMark`). `fat32_dir_getdents` and `fat32_read_file` are left out.
- Scheduler.Scheduler.WaitPid: the frames of the stack and the record are not given back in the model, and ids do not run out.
- Scheduler.Scheduler.ForkTask: file tables, the working directory and the copies of addresses in the record are left out; the address space is that of `CloneTree.CloneUserPageTable`. A failure of an allocation leaves the ring alone and is not a step.
- Scheduler.Scheduler.SleepUntil: without a current task the source waits and changes nothing, which is no step.
- Scheduler.Scheduler.ExitCurrent: freeing the address space is that of `FreeTree.FreeUserPageTable`, apart from the step.
- ProtocolRuns.RunKeeps: the idle task makes no system call, as in the source; `sys_exec` and `task_exit` are no steps.
- Elf.CopySegment: asks that the sum of offset and size does not wrap; otherwise, by `ElfImage.CheckedExactly`, the source copies bytes that are not in the file.
- ElfLoad.LoadSegments: asks the same as `Load`.
- ElfLoad.Load: asks, by `Loadable`, for segments in the user half whose pages are not mapped yet and whose offset and size add up within 64 bits, and at most 256 pages, the size of the tracking array; the early `break` of the zeroing loop cannot occur since the pages are all there. The model keeps the tracking array beside the frame that is taken for it.
- ElfFile.Validate: asks that the product of header count and size fits `int`, in which the source computes it.
- ElfFile.LoadFile: asks the same as `Validate` and `Load`, and that the header table of an accepted file is inside it, which follows from `ElfFile.CheckedInside` for the usual entry size.
- UserStack.BuildUserStack: on failure nothing is said about the bytes of the block.
- Hardware: ATA ports, the PIT, serial, framebuffer, descriptor tables and interrupt entry.
- Virtual file system, terminals, the C library routines and the user programs.
