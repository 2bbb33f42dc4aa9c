# LivlyOS in Dafny

A model of the stateful parts of LivlyOS, a small x86-64 kernel, with proofs of what each part keeps and of what
it promises over whole runs. Seven components are covered: the FAT32 driver, the scheduler with process creation
and the reaper, the page tables on top of the physical page allocator, the kernel heap, the text editor, line
drawing, and the scrolling text screen.

Each component has two layers. The code that changes things in place is a class whose methods have the branches
and the loops of the C functions. Each method is proved to compute a function on values (a file system volume, a
process ring, a list of heap blocks, a document). The laws are lemmas about these functions.

| files | component |
|---|---|
| `SectorBytes.dfy`, `FatVolume.dfy` | bytes and 32-bit words of a sector; where the table and the clusters lie on the disk |
| `FatChain.dfy` | the flat allocation table: chains, the forest of all chains, claiming, hanging on and clearing clusters |
| `Options.dfy` | a value that may be missing |
| `FatFile.dfy`, `FatLaws.dfy` | what allocation, extension, search, write, read and delete do to a volume; the laws about them |
| `FatSearch.dfy` | which entry a search ends at, in terms of the entries themselves |
| `FatLayout.dfy` | where every byte of the table and of a file lies; filling a new directory entry |
| `FatNames.dfy` | what a write or a deletion leaves of the other files, found by their names |
| `FatDriver.dfy` | the driver with its one-sector write-back cache |
| `SchedSpec.dfy`, `SchedLaws.dfy`, `Scheduler.dfy` | the process ring as a value; what its events promise to the processes; the linked control blocks, with their heap blocks and stack pages |
| `Pmm.dfy` | the bitmap page allocator and its set-up from the firmware's memory map |
| `PageTables.dfy`, `Vmm.dfy` | four-level tables as a tree in memory; mapping, unmapping and translating |
| `HeapSpec.dfy`, `Heap.dfy` | the heap as a list of blocks; the headers in memory |
| `EditorText.dfy` | a document as bounded lines and as a flat text |
| `EditorBlocks.dfy` | selections, and the file form of a document |
| `EditorUndo.dfy` | snapshots, undo and redo |
| `EditorLines.dfy`, `Editor.dfy` | the lines in their array, the rings of snapshots and the editor's state, changed in place |
| `LineRange.dfy`, `Line.dfy` | Bresenham's line in 32-bit arithmetic, and exactly which lines overflow |
| `Vga.dfy` | the 80 by 25 screen as a window on an endless sheet |

The layout of the table and of directory entries follows the Microsoft FAT32 File System Specification, version
1.03 (sections "FAT Data Structure" and "FAT Directory Structure"); the page tables follow the Intel SDM, Volume
3A, section 4.5 ("4-Level Paging").

## Where the code does not do what one would expect

The model keeps the code as it is. These are stated as lemmas or method contracts, with the exact condition where
there is one.

- Deleting a file writes the table past the cache, so the cached sector is stale after every deletion of a
  non-empty chain (`Fat32.Delete`: the cache is coherent afterwards if and only if the chain was empty).
- A rewrite keeps all clusters of the file if and only if it had only one, or the data fits into one, or no cluster
  is free (`RewriteKeepsClustersIff`); otherwise the old tail stays allocated but out of reach
  (`RewriteStrandsTail`). Freeing a chain keeps the table a forest exactly if nothing links to its first cluster
  (`ClearKeepsForestIff`).
- The cluster count of an allocation is the least that suffices, and 0 exactly when rounding up overflows 32 bits
  (`ClusterCountIs`, `ClusterCountSuffices`).
- A file can be found under the name it was created with if and only if the name has at most eight characters
  (`CreatedNameFoundIff`).
- The processes are counted in eight bits. For a ring of any size, the CPU is handed over at the end of a slice if
  and only if one of the next |ring| % 256 + 1 processes is alive (`SwitchesIffServed`); otherwise no run of ticks,
  yields and kills ever hands it over (`ServedIff`). Up to 255 processes this means that all are dead; with 256, one
  dead neighbour is enough (`StuckWith256`). A tick keeps the ring's invariant if and only if it does not stop a
  running process in such a ring (`TickKeepsInvIff`).
- The counter of free pages exceeds the number of clear bits by the pages that lie in two free ranges of the
  memory map (`PageAllocator.constructor`); it is exact if and only if the ranges share no page
  (`CountedOnceIffDisjoint`).
- The kernel's size is rounded up in 32 bits and the places of the bitmap and the heap in 64, so beyond that the
  pages taken at boot are fewer; the exact ranges are in `TakenAfterBoot`, the case without overflow in `SystemBytes`.
- Translating an address that was just unmapped gives its offset in the page, which is 0 only at the start of a page
  (`UnmapThenTranslate`).
- Freeing what was just allocated restores the block list if and only if the block behind the one found is in use
  or missing, or the request fails (`FreeAfterAlloc`).
- Undo does not take back a join or a split of lines (`UndoRubIff`, `UndoBreakNever`) and can move the cursor to a
  line that no longer exists (`UndoLeavesDocument`, `EditorState.DoUndo`).
- Deleting a selection takes it out of the text if and only if it was made backwards and the end of its last line is
  not dropped, which happens if the joined line would have 77 characters or more (`DeleteSelectedIff`). A selection
  made forwards is repeated instead (`NotDeleted`). The insertion limit of a line is 77 characters but joined lines may have at most 76.
- Drawing a line overflows 32 bits nowhere if and only if two extreme values of the error term fit, which the greatest
  common divisor of the box's sides determines (`NeverOverflowsIff`); a line 2^30 pixels wide and one high overflows
  (`LongLineOverflows`).
- A paste inserts the whole clipboard if and only if every line on the way stays within 77 characters and the
  document within 200 lines (`PasteInsertsIffFits`).
- Loading and saving a file gives it back with one more line break if and only if it has at most 200 lines of at
  most 77 characters (`LoadThenSaveIff`).

## Model

| member | source | states |
|---|---|---|
| FatDriver.Fat32.constructor | src/drivers/fs/fat.c:30-52 | the table and data area start where the boot sector says, nothing is cached, the disk is untouched |
| FatDriver.Fat32.CacheFlush | src/drivers/fs/fat.c:56-61 | afterwards the cache is clean, and what the driver saw before is what is on the disk |
| FatDriver.Fat32.CacheSector | src/drivers/fs/fat.c:402-406 | switching the cached sector loses no update: the disk overlaid with the cache is the same before and after |
| FatDriver.Fat32.NextCluster | src/drivers/fs/fat.c:397-410 | returns the link of the flat table, in its low 28 bits, and changes nothing the driver can see; also says exactly what an incoherent cache returns |
| FatDriver.Fat32.AllocCluster | src/drivers/fs/fat.c:342-390 | claims the lowest free clusters of the flat table, the least number that holds the bytes or as many as there are, linked in order, and leaves every other chain; the cache is clean and the disk holds the result |
| FatDriver.Fat32.ClaimCluster | src/drivers/fs/fat.c:366-381 | marking a cluster and linking its predecessor extends the claimed chain by one, also when the two entries lie in different sectors |
| FatLaws.AllocationEffect | src/drivers/fs/fat.c:342-390 | an allocation adds one chain of the least number of clusters that hold the bytes, or of all free ones if there are fewer; they were free, no free one left is lower, every other chain stays and the forest stays a forest |
| FatLaws.ClusterCountSuffices | src/drivers/fs/fat.c:343-344 | the clusters asked for hold the bytes if and only if the rounding up does not overflow 32 bits; then one cluster less would not |
| FatLaws.ClusterCountIs | src/drivers/fs/fat.c:343-344 | the count is the least number of clusters with room for the bytes, and 0 if the rounding up overflows |
| FatDriver.Fat32.ExtendChain | src/drivers/fs/fat.c:418-471 | hangs the lowest free cluster, zeroed, behind the given one, or returns an end mark and changes nothing; on success the cache is clean and the disk equals the flat view |
| FatFile.ExtendZeroes | src/drivers/fs/fat.c:441-445 | the cluster an extension adds reads as zeros |
| FatChain.EndMarks | src/drivers/fs/fat.c:397-410 | a chain ends at an entry if and only if its low 28 bits are one of the eight marks from 0x0FFFFFF8 on |
| FatChain.HighBitsIgnored | src/drivers/fs/fat.c:397-410 | chains depend on the low 28 bits of the entries, and on which entries are 0 |
| FatChain.ChainUnique | src/drivers/fs/fat.c:397-410 | the chain from a cluster is determined by the table |
| FatChain.ChainDistinct | src/drivers/fs/fat.c:397-410 | no cluster occurs twice in a chain, so every loop that follows a chain ends |
| FatChain.ClaimIsChain | src/drivers/fs/fat.c:351-386 | the claimed clusters form one chain, and no other entry of the table changes |
| FatChain.ClaimKeepsForest | src/drivers/fs/fat.c:351-386 | claiming free clusters keeps the table a forest of chains |
| FatChain.HangOnTail | src/drivers/fs/fat.c:456-468 | extending at the tail appends exactly one cluster to that chain |
| FatChain.HangKeepsOthers | src/drivers/fs/fat.c:456-468 | extending leaves every chain alone that does not run through the extended cluster |
| FatChain.HangKeepsForest | src/drivers/fs/fat.c:418-471 | extending keeps the table a forest |
| FatChain.HangOrphans | src/drivers/fs/fat.c:767-772 | extending in the middle of a chain cuts it there; the rest remains as an allocated chain of its own |
| FatChain.ClearKeepsForestIff | src/drivers/fs/fat.c:592-601 | freeing a chain keeps the table a forest if and only if no cluster links to its first one |
| FatChain.ClaimThenClear | src/drivers/fs/fat.c:342-390 | claiming free clusters and then clearing them gives back the same table |
| FatVolume.AllClustersCounted | src/drivers/fs/fat.c:345-346 | the clusters that allocation looks at are exactly those that lie in the partition as a whole |
| FatVolume.FirstSectorFormula | src/drivers/fs/fat.c:443 | the source's multiplication gives the sector at which clusters laid out one after the other start |
| FatVolume.ClustersApart | src/drivers/fs/fat.c:703 | different clusters share no sector |
| FatVolume.SetEntryInTable | src/drivers/fs/fat.c:435-438 | storing the four bytes of an entry changes that entry of the flat table and no other one |
| FatVolume.DataWriteKeepsTable | src/drivers/fs/fat.c:764 | a volume that differs only behind the table has the same flat table |
| FatDriver.Fat32.StrEqualFat | src/drivers/fs/fat.c:782-790 | a stored name answers if it agrees up to a space in it and the terminator, or in all eight characters before the terminator |
| FatLaws.StoredNameAnswersTo | src/drivers/fs/fat.c:192-193 | a name stored padded with spaces answers exactly to itself, possibly with some of the spaces typed out |
| FatDriver.Fat32.FindEntry | src/drivers/fs/fat.c:673-692 | finds an entry if and only if some entry in some cluster of the directory's chain answers to the name, and then the first of them; the disk does not change |
| FatSearch.LookupIff | src/drivers/fs/fat.c:673-692 | the entry found is the first one that answers, in the order of the chain's clusters, their sectors and the entries of a sector; none is found exactly if none answers |
| FatDriver.Fat32.ReadFile | src/drivers/fs/fat.c:658-713 | returns the size of the entry and copies the bytes of the whole chain in order; 0 and an untouched buffer for a missing or empty file |
| FatDriver.Fat32.ReadChain | src/drivers/fs/fat.c:702-712 | copies all sectors of all clusters of the chain, and changes nothing the driver can see |
| FatDriver.Fat32.WriteData | src/drivers/fs/fat.c:719-777 | the volume afterwards is that of WriteFile: the size updated, the clusters filled, the chain extended where needed |
| FatDriver.Fat32.WriteCluster | src/drivers/fs/fat.c:755-766 | fills the sectors of one cluster with the next bytes, the last one padded with zeros, and stops when the data ends |
| FatLaws.WriteEffect | src/drivers/fs/fat.c:752-776 | a write uses the file's first cluster and the lowest free ones, links them in order, fills them with the data and touches nothing else |
| FatLaws.WrittenBytes | src/drivers/fs/fat.c:752-776 | the bytes of the file's chain start with as much of the data as fits into the clusters available |
| FatLayout.RestIsZero | src/drivers/fs/fat.c:755-766 | behind the data the rest of its last sector is zero |
| FatLayout.ChainByteAt | src/drivers/fs/fat.c:702-712 | byte o of sector z of the i-th cluster of the chain is byte i * cluster size + 512 * z + o of the file |
| FatLayout.TableIsLittleEndian | src/drivers/fs/fat.c:397-410 | entry c of the flat table is the little-endian word at byte 4 * c of the table on the disk |
| FatLayout.FillSlot | src/drivers/fs/fat.c:190-207 | the entry written for a new file reads back with its padded name, size 0 and exactly the given first cluster; the other entries and fields stay |
| FatLayout.CreatedNameFoundIff | src/drivers/fs/fat.c:192-193 | the stored name answers to the name given if and only if that has at most eight characters |
| FatLaws.WriteThenRead | src/drivers/fs/fat.c:658-777 | after a write the search finds the same entry with the size written, and its chain starts with the data that fits |
| FatLaws.WholeDataIffEnoughFree | src/drivers/fs/fat.c:767-772 | the whole data comes back if and only if ceil(size / cluster size) - 1 clusters were free |
| FatDriver.Fat32.SaveAndReload | src/drivers/fs/fat.c:658-777 | writing a file and reading it returns the same size and the same bytes |
| FatLaws.WriteKeepsOtherFiles | src/drivers/fs/fat.c:719-777 | every other chain keeps its clusters and all its bytes |
| FatLaws.WriteKeepsForest | src/drivers/fs/fat.c:719-777 | a write keeps the table a forest |
| FatNames.WriteKeepsOtherEntries | src/drivers/fs/fat.c:719-777 | a write leaves every other entry of its directory as it is, byte for byte, also in the sector of the written one |
| FatNames.WriteKeepsSearch | src/drivers/fs/fat.c:719-777 | a write changes the result of no search in the directory, whatever the name |
| FatNames.WriteKeepsOtherNames | src/drivers/fs/fat.c:719-777 | another file is found under its name as before, with its size, first cluster, chain and bytes |
| FatLaws.RewriteStrandsTail | src/drivers/fs/fat.c:767-772 | rewriting a longer file leaves its old tail as a chain of allocated clusters out of reach of the file |
| FatLaws.RewriteKeepsClustersIff | src/drivers/fs/fat.c:767-772 | a rewrite keeps all clusters of the file if and only if it had one, or the data fits into one, or none is free |
| FatDriver.Fat32.Delete | src/drivers/fs/fat.c:571-615 | on disk exactly the entries of the file's chain become 0 and its name is marked; the cached sector differs from the disk at most in freed entries, and is coherent if and only if nothing was freed |
| FatDriver.Fat32.FreeChain | src/drivers/fs/fat.c:592-601 | the loop follows the chain through the cache to its end although it clears the entries on the disk |
| FatLaws.DeleteEffect | src/drivers/fs/fat.c:571-615 | as many clusters become free as the chain has; no other table entry and no other sector changes |
| FatLaws.DeletedEntryIsGone | src/drivers/fs/fat.c:589-591 | the deleted entry answers to no name, except one that itself starts with the mark |
| FatLaws.DeleteKeepsOtherFiles | src/drivers/fs/fat.c:571-615 | files that share no cluster with the deleted one keep their chain and their bytes |
| FatNames.DeleteKeepsOtherEntries | src/drivers/fs/fat.c:571-615 | a deletion leaves every other entry of its directory as it is, byte for byte |
| FatNames.DeleteKeepsOtherNames | src/drivers/fs/fat.c:571-615 | another file is found under its name as before, with its size, first cluster, chain and bytes |
| FatNames.DeletedNameIsGone | src/drivers/fs/fat.c:571-615 | if no other entry answered to the name, a search for it finds nothing afterwards |
| SchedSpec.TickKeepsInv | src/proc/schedular.c:146-188 | a timer tick leaves at most one running process, the current one, and the others ready or dead |
| SchedSpec.TickKeepsInvIff | src/proc/schedular.c:146-188 | for every size of the ring, a tick keeps the invariant if and only if it does not stop a running process in a starved ring |
| SchedSpec.SwitchesIffServed | src/proc/schedular.c:160-176 | for every size of the ring, the end of a slice hands the CPU over if and only if a living process is among those the eight-bit count lets the search reach |
| SchedSpec.StarvedIfAllDead | src/proc/schedular.c:160-176 | up to 255 processes, none is reached only if none is alive |
| SchedSpec.StepKeepsInv | src/proc/schedular.c:28-188 | every tick, yield, kill, reaper pass and creation keeps the ring's invariant |
| SchedSpec.RunKeepsInv | src/proc/schedular.c:28-188 | the invariant holds after every run in which the ring never has more than 255 members at a time, however many processes are created |
| SchedSpec.PassIsComplete | src/proc/schedular.c:115-132 | a reaper pass over at most 101 processes leaves no dead one except the head and the current one |
| SchedLaws.ReapedIff | src/proc/schedular.c:115-132 | a pass takes out exactly the zombies among the 100 processes behind the head that are not the current one |
| SchedLaws.ReapKeepsOrder | src/proc/schedular.c:115-132 | what a pass leaves was there before and stays in its order |
| SchedSpec.ReapKeepsInv | src/proc/schedular.c:115-132 | a reaper pass keeps the invariant |
| SchedSpec.ReapKeepsPlaces | src/proc/schedular.c:115-132 | a pass removes neither the current process nor a living one, and brings none further away from its turn |
| SchedSpec.WaitTick | src/proc/schedular.c:146-188 | with every tick a waiting process either gets the CPU or comes at least one tick nearer |
| SchedSpec.BoundedWaiting | src/proc/schedular.c:146-188 | a living process at distance d runs within 4 * d ticks, whatever yields, kills of others and reaper passes happen meanwhile |
| SchedSpec.StarvedForever | src/proc/schedular.c:146-188 | in a starved ring of any size no run of ticks, yields and kills hands the CPU over |
| SchedSpec.ServedIff | src/proc/schedular.c:146-188 | some run of ticks, yields and kills hands the CPU over if and only if the ring is not starved |
| SchedSpec.StuckWith256 | src/proc/schedular.c:162-176 | the instance of 256 processes and a dead neighbour: the current process never changes |
| SchedSpec.SavedFrames | src/proc/schedular.c:178-183 | after every run, every process of the ring holds the frame it was last switched out with, or its initial one |
| SchedSpec.ResumeRestoresFrame | src/proc/schedular.c:178-183 | a tick that hands over returns to exactly that frame, also when a process follows itself; otherwise the frame is untouched |
| SchedLaws.KillMarksFirst | src/proc/schedular.c:60-70 | a kill makes a zombie of the first process with the number and leaves everything else as it is |
| SchedLaws.KillOfNobody | src/proc/schedular.c:60-70 | a number that no process has changes nothing |
| SchedLaws.KilledNeverRuns | src/proc/process.c:56-64 | in every run after a kill the process is a zombie or gone, and no hand-over goes to it |
| SchedLaws.NextIsNearest | src/proc/schedular.c:159-181 | a hand-over goes to the nearest living process in link order, with a slice of 4, 3, 2 or 1 ticks for priority 0, 1, 2 or more, and leaves the others |
| SchedLaws.SliceLasts | src/proc/schedular.c:146-154 | a slice of q ticks keeps the process current for q - 1 ticks, and the q-th hands over unless the ring is starved |
| SchedLaws.YieldEndsSlice | src/proc/schedular.c:83-88 | after a yield the next tick hands over unless the ring is starved; nothing but the slice changes |
| SchedLaws.AddAppends | src/proc/schedular.c:28-58 | a new process stands behind all others, ready, with the next number, its slice and its initial frame |
| SchedLaws.FirstHandOver | src/proc/process.c:37-42 | over every run: the first hand-over to a process returns to its entry point, with the stack pointer at the end of its stack page, interrupts on, the kernel's segments and cleared registers |
| SchedLaws.NewProcessStarts | src/proc/schedular.c:28-188 | a process added to up to 254 others gets its first hand-over, to its entry point, within four ticks for each of them, whatever yields, kills of others and reaper passes happen |
| Scheduler.PCB.constructor | src/proc/process.c:25-51 | the initial contents of a control block field by field: entry point, stack pointer, segments, flags, cleared registers, and the name cut to 31 characters |
| Scheduler.RoundRobin.CreateProcess | src/proc/process.c:9-54 | refuses a missing entry point or name, and a heap without a large enough free block; otherwise a new control block in a heap block of its own, whose stack is the lowest free page, and whose frame starts at the entry point with the stack pointer one past the end of that page |
| Scheduler.RoundRobin.Add | src/proc/schedular.c:28-58 | refines the creation event; free pages and processes together keep their number, and so do used heap blocks less processes |
| Scheduler.RoundRobin.Link | src/proc/schedular.c:36-55 | appends the block behind the last one and keeps a single cycle through head and current |
| Scheduler.RoundRobin.CountRing | src/proc/schedular.c:162-169 | counts the ring modulo 256 |
| Scheduler.RoundRobin.SkipZombies | src/proc/schedular.c:171-174 | walks on past dead processes, at most as many steps as were counted |
| Scheduler.RoundRobin.Schedule | src/proc/schedular.c:146-188 | refines the tick, including the frame handed back and the kernel stack set for the next process |
| Scheduler.RoundRobin.Yield | src/proc/schedular.c:83-88 | refines the yield: only the current slice ends |
| Scheduler.RoundRobin.Remove | src/proc/schedular.c:60-70 | the first process with that number becomes a zombie and nothing else changes |
| Scheduler.RoundRobin.Detach | src/proc/schedular.c:122-124 | unlinking keeps a single cycle of the other processes |
| Scheduler.RoundRobin.Bury | src/proc/schedular.c:120-126 | the process leaves the ring, its stack page and its heap block become free once, and those of the others stay owned |
| Scheduler.RoundRobin.ReapPass | src/proc/schedular.c:110-132 | refines the reaper pass; free pages and processes together keep their number, and so do used heap blocks less processes |
| Pmm.PageAllocator.constructor | src/mm/pmm.c:91-183 | after boot a page is taken if and only if no free entry of the map contains it or it is one of pages 0 to 3, of the kernel, of the bitmap or of the heap; the counter exceeds the clear bits by the pages released twice |
| Pmm.PageAllocator.ReleaseEntry | src/mm/pmm.c:139-156 | frees the whole pages of one entry; the counter drifts by those that were free already |
| Pmm.PageAllocator.ReserveRange | src/mm/pmm.c:45-55 | takes every page that the range touches and counts each only once |
| Pmm.PageAllocator.SetBit | src/mm/pmm.c:20-29 | sets the bit of that page and of no other one |
| Pmm.PageAllocator.ClearBit | src/mm/pmm.c:31-34 | clears the bit of that page and of no other one |
| Pmm.PageAllocator.Alloc | src/mm/pmm.c:60-69 | takes the lowest free page, and fails if and only if none is free; the counter stays in step |
| Pmm.PageAllocator.Free | src/mm/pmm.c:71-77 | frees one taken page; page 0, foreign pages and free pages change nothing |
| Pmm.ReleasedIsUnion | src/mm/pmm.c:139-156 | a page is free after the release loop if and only if some free range contains it whole |
| Pmm.CountedOnceIffDisjoint | src/mm/pmm.c:139-156 | no page is counted twice if and only if the free ranges share no page |
| Pmm.BootMarksKeepPageZero | src/mm/pmm.c:164 | page 0 is taken after boot |
| Pmm.TakenAfterBoot | src/mm/pmm.c:138-181 | the marks after boot as page ranges: free entries less the pages 0 to 3, the kernel from 1 MB on, the bitmap behind the kernel's end and the 1 MB heap behind the bitmap |
| Pmm.FreePageInside | src/mm/pmm.c:140-149 | without overflow, the pages released for an entry are those that lie inside it with all their bytes |
| Pmm.ReservedTouches | src/mm/pmm.c:45-55 | reserving takes exactly the pages that the bytes of the range touch |
| Pmm.SystemBytes | src/mm/pmm.c:112-181 | without overflow, every byte of the kernel, the bitmap and the heap lies in a page taken at boot |
| Pmm.NeverHandedOut | src/mm/pmm.c:60-77 | over every run of allocations and releases after boot, no page of the kernel, the bitmap or the heap is handed out unless it was given back itself |
| Pmm.HighestIsGreatest | src/mm/pmm.c:100-105 | the highest address is the greatest end of an entry, or 0 |
| PageTables.PageNumberFromIndices | src/mm/vmm.c:9-20 | the four indices are the digits of the page number to base 512 |
| PageTables.SamePathSamePage | src/mm/vmm.c:9-20 | two addresses take the same way through the tables if and only if they lie in the same page |
| PageTables.NewTableKeepsLookups | src/mm/vmm.c:38-41 | a new, zeroed table below an absent entry changes no translation |
| PageTables.NewTableKeepsTree | src/mm/vmm.c:38-54 | a new table keeps the tables a tree of distinct pages |
| PageTables.LeafTableUnique | src/mm/vmm.c:42-56 | the last-level table determines the upper three indices |
| PageTables.LeafStoreLookup | src/mm/vmm.c:58 | storing a leaf entry changes the translation of one page and of no other |
| Vmm.AddressSpace.EnsureTable | src/mm/vmm.c:38-42 | one level of the walk: the table the entry points to; if it was absent, freshly allocated and distinct from all others, with an entry of its address plus the present and write bits |
| Vmm.AddressSpace.MapPage | src/mm/vmm.c:22-60 | the page of virt translates to phys with the flags, every other page as before, the tables stay a tree of taken pages, and exactly as many pages are taken as tables were missing |
| Vmm.AddressSpace.UnmapPage | src/mm/vmm.c:62-78 | removes the translation of one page and of no other |
| Vmm.AddressSpace.VirtToPhys | src/mm/vmm.c:88-105 | agrees with the translation of every present page; 0 if a table is missing |
| Vmm.AddressSpace.UnmapThenTranslate | src/mm/vmm.c:62-105 | an address just unmapped translates to its offset in the page |
| Vmm.AddressSpace.MapThenTranslate | src/mm/vmm.c:22-105 | a mapped page translates to its physical address plus the offset |
| Heap.KernelHeap.Init | src/mm/kmalloc.c:9-16 | one free block that fills the heap |
| Heap.KernelHeap.Kmalloc | src/mm/kmalloc.c:19-45 | refines first-fit allocation with splitting; the headers in memory go on describing the list |
| Heap.KernelHeap.Claim | src/mm/kmalloc.c:29-41 | the block found is replaced by the used part and, if it is worth a header, the free rest |
| Heap.KernelHeap.Kfree | src/mm/kmalloc.c:56-62 | refines freeing with forward merging; NULL changes nothing |
| Heap.KernelHeap.MergeBlocks | src/mm/kmalloc.c:47-53 | the block swallows all free blocks behind it |
| HeapSpec.PayloadsDisjoint | src/mm/kmalloc.c:19-45 | in a tiling, blocks do not overlap and stay inside the heap |
| HeapSpec.AllocKeepsTiling | src/mm/kmalloc.c:19-45 | allocation keeps an exact tiling of the heap |
| HeapSpec.FreeKeepsTiling | src/mm/kmalloc.c:47-62 | freeing keeps an exact tiling of the heap |
| HeapSpec.AllocEffect | src/mm/kmalloc.c:19-45 | fails if and only if no free block is large enough; otherwise the payload has at least the requested size and at most a header more, and used blocks stay |
| HeapSpec.AllocIsFirstFit | src/mm/kmalloc.c:27-41 | the first free block that is large enough is taken, whole if at most a header would be left, otherwise cut with the rest free right behind; all other blocks stay |
| HeapSpec.FreeJoins | src/mm/kmalloc.c:47-62 | the freed block becomes one with all free blocks directly behind it, up to the end of the last of them; no other block changes |
| HeapSpec.FreeKeepsOthers | src/mm/kmalloc.c:47-62 | freeing leaves every other used block as it is |
| HeapSpec.FreeKeepsSatisfiable | src/mm/kmalloc.c:47-62 | freeing never makes a request fail that would have succeeded |
| HeapSpec.AllocOwns | src/mm/kmalloc.c:19-45 | an allocation puts exactly one more block in use, at an address no block in use had, and takes none out |
| HeapSpec.FreeDisowns | src/mm/kmalloc.c:56-62 | freeing a block in use takes it, and only it, out of use, whatever is merged |
| HeapSpec.AllocKeepsNoFreeNeighbours | src/mm/kmalloc.c:19-45 | allocation creates no two neighbouring free blocks |
| HeapSpec.FreeAfterAlloc | src/mm/kmalloc.c:19-62 | freeing what was just allocated restores the list, with the exact condition |
| HeapSpec.NestedRunRestores | src/mm/kmalloc.c:19-62 | every properly nested run from a heap without free neighbours ends in the heap it began with |
| HeapSpec.InitialHeapIsTidy | src/mm/kmalloc.c:9-16 | the initial heap is a tiling without free neighbours, and exactly the requests up to the heap's size less a header succeed |
| EditorText.InsertCharFlat | src/Apps/Editor/editor.c:370-383 | inserts one character into the flat text at the cursor and moves the cursor behind it |
| EditorText.InsertNewlineFlat | src/Apps/Editor/editor.c:385-406 | inserts one line break into the flat text at the cursor |
| EditorText.BackspaceFlat | src/Apps/Editor/editor.c:408-440 | deletes the character before the cursor, also when it is the break between two lines |
| EditorText.BackspaceNothingIff | src/Apps/Editor/editor.c:408-440 | backspace does nothing exactly at the start of the document and at the start of a line too long to be joined |
| EditorText.PasteInserts | src/Apps/Editor/editor.c:134-142 | a clipboard that fits is inserted whole at the cursor, and the cursor moves behind it |
| EditorText.PasteInsertsIffFits | src/Apps/Editor/editor.c:134-142 | a paste inserts the whole clipboard if and only if it fits line by line |
| EditorBlocks.SelectedIsSlice | src/Apps/Editor/editor.c:108-131 | what is copied is the stretch of the flat text between the two ends, whichever comes first |
| EditorBlocks.FlatShort | src/Apps/Editor/editor.c:120 | the longest text is as long as the clipboard allows, so copying never truncates |
| EditorBlocks.CutDeletesIff | src/Apps/Editor/editor.c:56-104 | deleting a selection made backwards removes exactly its stretch of the text if and only if the end of the last line is not dropped |
| EditorBlocks.CutDeletes | src/Apps/Editor/editor.c:56-104 | a selection made backwards is always deleted as one stretch, up to its end or, if the rest of its last line is dropped, up to the end of that line; the cursor stays at its start |
| EditorBlocks.NotDeleted | src/Apps/Editor/editor.c:56-104 | a selection made forwards is never taken out of the text |
| EditorBlocks.GrownLine | src/Apps/Editor/editor.c:68-73 | a selection made forwards within a line repeats up to the new end of the line |
| EditorBlocks.GrownLines | src/Apps/Editor/editor.c:74-98 | a selection made forwards across lines joins its end lines and repeats the lines from there on |
| EditorBlocks.DeleteSelectedIff | src/Apps/Editor/editor.c:56-104 | for every selection, exactly its stretch is removed if and only if it was made backwards and the end of the last line is not dropped |
| EditorBlocks.EditsKeepNoBreaks | src/Apps/Editor/editor.c:370-440 | no edit puts a line break inside a line |
| EditorBlocks.LoadThenSaveIff | src/Apps/Editor/editor.c:341-367 | saving a loaded file gives it back with one more line break if and only if it keeps the limits |
| EditorBlocks.LoadTakes | src/Apps/Editor/editor.c:341-357 | the lines loaded are the segments of the file in order, at most 200, of each its first 77 characters |
| EditorBlocks.SaveThenLoad | src/Apps/Editor/editor.c:341-367 | loading a saved document gives its lines and one empty line more, or the same 200 lines |
| EditorBlocks.SaveSizeSuffices | src/Apps/Editor/editor.c:518 | the buffer asked for holds the whole file |
| EditorUndo.UndoRubIff | src/Apps/Editor/editor.c:191-215 | one undo takes back one backspace if and only if it joined no lines |
| EditorUndo.UndoBreakNever | src/Apps/Editor/editor.c:191-215 | one undo leaves the inserted line in place |
| EditorUndo.UndoLeavesDocument | src/Apps/Editor/editor.c:206-212 | an undo after a join that puts the cursor on a line that is gone |
| EditorUndo.RedoUndoIff | src/Apps/Editor/editor.c:191-230 | redo takes back one undo if and only if the snapshot is of the cursor's line or changes nothing |
| EditorUndo.EditForgetsRedo | src/Apps/Editor/editor.c:177-230 | after an edit a redo does nothing; nor does an undo or redo with an empty ring, or a line break in a document of 200 lines |
| EditorUndo.UndoRestores | src/Apps/Editor/editor.c:177-215 | after any run of at most 50 edits inside lines, with cursor moves in between, as many undos restore the text, and the cursor to where the first edit was made |
| EditorUndo.RedoRestores | src/Apps/Editor/editor.c:191-230 | if those edits were on the line the cursor is on, as many redos give the edited text and the cursor again |
| EditorUndo.PasteAll | src/Apps/Editor/editor.c:134-142 | a paste with the snapshots it saves gives the document of Paste |
| Editor.SnapRing.Save | src/Apps/Editor/editor.c:177-188 | the ring of 50 slots behaves as a stack that forgets its oldest snapshot |
| Editor.SnapRing.Restore | src/Apps/Editor/editor.c:203-212 | the newest snapshot leaves the ring and is written back to its row; every other row stays |
| EditorLines.LineBuffer.InsertAt | src/Apps/Editor/editor.c:375-378 | the shifting loop inserts the character into the row |
| EditorLines.LineBuffer.CloseGap | src/Apps/Editor/editor.c:68-73 | the shifting loop takes the characters out of the row |
| EditorLines.LineBuffer.SplitAt | src/Apps/Editor/editor.c:389-400 | the rows below move down and the row is split in two |
| EditorLines.LineBuffer.JoinUp | src/Apps/Editor/editor.c:422-431 | the row is appended to the one before and the rows below move up |
| EditorLines.LineBuffer.CutSpan | src/Apps/Editor/editor.c:68-98 | the rows after a selection made backwards was deleted |
| EditorLines.LineBuffer.GrowSpan | src/Apps/Editor/editor.c:68-98 | the rows after the same loops ran on a selection made forwards: characters or lines repeat with the period of the selection |
| EditorLines.LineBuffer.DeleteSpan | src/Apps/Editor/editor.c:56-98 | the rows after a selection of either kind was deleted are those of DeleteSelected |
| EditorLines.LineBuffer.ReadFrom | src/Apps/Editor/editor.c:341-357 | the rows are the first 200 segments of the buffer, each cut to 77 characters |
| EditorLines.LineBuffer.Save | src/Apps/Editor/editor.c:359-367 | writes the lines with their breaks, as far as the buffer goes |
| EditorLines.LineBuffer.Copy | src/Apps/Editor/editor.c:119-130 | the clipboard holds the whole stretch; the guards against a full clipboard never stop the loops |
| Editor.EditorState.InsertChar | src/Apps/Editor/editor.c:370-383 | refines typing one character: rows, cursor, undo and redo rings; the selection is given up |
| Editor.EditorState.InsertNewline | src/Apps/Editor/editor.c:385-406 | refines inserting a line break |
| Editor.EditorState.Backspace | src/Apps/Editor/editor.c:408-440 | refines backspace; a snapshot is saved even when nothing is deleted |
| Editor.EditorState.Paste | src/Apps/Editor/editor.c:134-142 | refines typing the clipboard, which stays as it is |
| Editor.EditorState.DoUndo | src/Apps/Editor/editor.c:191-215 | refines undo; the cursor stays inside the document if and only if the line of the snapshot still exists |
| Editor.EditorState.DoRedo | src/Apps/Editor/editor.c:217-230 | refines redo |
| Editor.EditorState.CopySelection | src/Apps/Editor/editor.c:108-131 | the clipboard holds the selected text and the document does not change |
| Editor.EditorState.DeleteSelection | src/Apps/Editor/editor.c:56-104 | one snapshot is saved and the text becomes that of DeleteSelected |
| Editor.EditorState.Open | src/Apps/Editor/editor.c:449-468 | opening a file gives its loaded lines, the cursor at the start and empty rings |
| Editor.EditorState.SaveFile | src/Apps/Editor/editor.c:517-522 | the file written is the whole document, never truncated |
| Line.EndOfMinor | src/drivers/graphics/framebuffer.c:52-58 | at most half a pixel off at the end of the major axis means exactly at the end of the minor one |
| Line.TestsKeepHalfPixel | src/drivers/graphics/framebuffer.c:55-57 | the two tests of the loop keep the pixel within half a pixel of the line |
| Line.StepKeepsOnTheWay | src/drivers/graphics/framebuffer.c:55-57 | each round makes one step along the major axis and keeps the error term equal to the deviation |
| LineRange.NeverOverflowsIff | src/drivers/graphics/framebuffer.c:46-58 | no value that the loop computes leaves the 32-bit range if and only if the sides of the box pass a check that can be made before the call |
| LineRange.ExtremesAttained | src/drivers/graphics/framebuffer.c:55-57 | the error term reaches the two extreme multiples of the common divisor within the line |
| LineRange.AxisFits | src/drivers/graphics/framebuffer.c:46-58 | the check for lines along an axis: below 2^30 pixels wide, or up to 2^30 high |
| LineRange.ShortLinesFit | src/drivers/graphics/framebuffer.c:46-58 | every line shorter than a third of 2^31 passes the check |
| LineRange.LongLineOverflows | src/drivers/graphics/framebuffer.c:55 | a line 2^30 pixels wide and one high overflows |
| Line.Advance | src/drivers/graphics/framebuffer.c:55-57 | the same in 32-bit arithmetic without overflow |
| Line.Framebuffer.DrawPixel | src/drivers/graphics/framebuffer.c:21-25 | changes the pixel at 0 <= x < width, 0 <= y < height and no other one, and nothing for a point outside |
| Line.Framebuffer.DrawLine | src/drivers/graphics/framebuffer.c:44-59 | for every line that does not overflow: plots max(dx, dy) + 1 points from the first to the last, each within half a pixel of the line, and changes no other pixel |
| Vga.PlainTextLayout | src/kernel/vga.c:23-29 | text without line breaks fills the sheet row by row, 80 characters each |
| Vga.TextLayout | src/kernel/vga.c:16-30 | the sheet after any text is its layout: the stretches between line breaks, each cut into rows of 80, spaces elsewhere |
| Vga.CellShows | src/kernel/vga.c:23-24 | a cell shows its character, and the colour set if and only if the character is an ASCII one or the colour is 0xFF |
| Vga.TypeKeepsProper | src/kernel/vga.c:16-30 | the place of the next character stays on the sheet and in the part that is shown |
| Vga.WriteShows | src/kernel/vga.c:23-24 | writing a cell of the screen writes that cell of the sheet's last 25 rows |
| Vga.MoveShows | src/kernel/vga.c:34-44 | moving the screen up shows one row of the sheet more |
| Vga.Screen.Scroll | src/kernel/vga.c:34-44 | the copying loops move every row up by one and blank the last one; the line lengths move along |
| Vga.LengthsMoveAlong | src/kernel/vga.c:10-44 | a break records its column as the length of its row, and the lengths move up with the rows |
| Vga.Screen.PutChar | src/kernel/vga.c:10-49 | after each character the screen shows the last 25 rows of the sheet, with the cursor inside the screen |
| Vga.Screen.Print | src/kernel/vga.c:117-121 | the same for a whole text |
| Vga.Screen.Clear | src/kernel/vga.c:123-129 | the screen shows a fresh sheet |

## Left out

- FatDriver.Fat32.StrEqualFat: the name lies in a buffer of at least nine bytes, because the source can read past the terminator of a shorter one when it meets an unused entry.
- FatDriver.Fat32.WriteData: requires that the entry exists, because the source otherwise goes on with cluster 0, and a size below 2^32 - 512, because the offset then does not overflow.
- FatDriver.Fat32.ReadFile: requires a buffer with room for the whole chain, which the source does not know and fills regardless of the size of the file.
- FatDriver.Fat32.Delete: requires a clean coherent cache and that no second entry of the same name follows in the same sector, which the source would delete too; allocation after a delete without reloading the cached sector is not modelled.
- FatDriver.Fat32.ExtendChain: extends behind any cluster, as the source does; that it appends to the chain is stated for the tail (FatChain.HangOnTail).
- FatLayout.FillSlot: the name is given with at least eight characters or bytes behind its end, the extension with three, as in the buffers of the callers.
- FatLaws.WriteThenRead: requires that the file does not start in a cluster of its own directory.
- Creating files (beyond the directory entry that FatLayout.FillSlot writes) and directories, listing, renaming, and changing directories in `src/drivers/fs/fat.c`: the duplicate check reads only the first sector of each cluster, and the claims would need many side conditions.
- FatNames.DeleteKeepsOtherNames: not for names that start with 0xE5, which the mark of the deleted entry may answer to.
- The second copy of the allocation table: the source never writes it.
- The boot sector is taken as numbers, and its consistency (table large enough, no 32-bit overflow) is assumed.
- Disk access in `src/drivers/fs/ata.c`: a sector read or write is one array access and never fails.
- Scheduler.RoundRobin.CreateProcess: assumes a free page (and so does Scheduler.RoundRobin.Add), because the source tests the wrong failure value of the allocator; the value of cr3 is a parameter.
- Scheduler.RoundRobin.ReapPass: one pass; the endless loop and its sleep are not modelled.
- Scheduler.PCB.constructor: the stack address and the address in the heap are constants of the block, since nothing changes them later; the block's bytes in the heap are not modelled.
- Process numbers do not wrap around at 2^32, and each call of the scheduler is one atomic step; pre-emption inside a kernel function and the halt in yield are not modelled.
- Pmm.NeverHandedOut: the source lets a caller give back any page but page 0; the law is for runs in which nobody gives back a page of the kernel, the bitmap or the heap.
- Pmm.PageAllocator.constructor: the address of the kernel's end, its size and the memory map are parameters.
- Vmm.AddressSpace.MapPage: requires an aligned physical address, flags below 0x1000, as many free pages as tables are missing, and free pages that read as zero, because the source does not clear new tables; the loader's 2 MB entries are outside the model, and so is the flush of the translation buffer.
- Vmm.AddressSpace.UnmapPage: requires that the tables on the way exist, since the source follows them unchecked.
- Heap.KernelHeap.Kfree: requires NULL or the address of a block's payload; a wild pointer is outside the model. A block that is already free may be freed again.
- Payload bytes of the heap: only headers are modelled, in a map from addresses.
- Editor.EditorState.DeleteSelection: what a selection made forwards writes must stay within its row and the 200 rows; beyond that the source overwrites other fields.
- Editor.EditorState.CopySelection: the start of the selection must lie in the document; the source keeps it when an undo or a paste has removed its line.
- Editor.EditorState.Open: reads from a buffer given to it; the file name, the scrolling of the view and the marks for redrawing are not modelled.
- Editor.EditorState.DoUndo: requires a cursor inside the document; after an undo that left it, the source reads a row behind the last line.
- Editor.SnapRing.Save: the undo and the redo ring are two objects of one class, while the source has one set of fields for each; the lines are an object of their own in the same way.
- Undo across joins and splits beyond one step: the source does not restore the text there.
- Line.Framebuffer.DrawPixel: scanlines are a whole number of 32-bit pixels apart.
- Vga.Screen.PutChar: the hardware cursor is not modelled, nor are backspace, writing at a position and clearing a line.
- Rendering, fonts, the status bar, the framebuffer console, kprintf, the shell, the keyboard driver, the boot code and descriptor tables: smaller versions of what is here, or effects on hardware.
