# Verified models of peanut-kernel

This project models the parts of peanut-kernel whose correctness is hardest to
see from the code, and proves what they promise, in Dafny 4.11. The scheduler,
page tables, heap, command ring, image builder and descriptor table are state
machines with theorems over all their runs. The checksum and the ext and FAT
code are specified by functions with theorems over all their inputs. Where the
kernel works in place, a class or method with the kernel's own loops is proved
against the specification.

| component | files | main results |
|---|---|---|
| page tables (`src/mm/vm.c`) | PageTables, AddressSpace, VirtualMemory, MappedFrame, IdentityMap | the tables refine a finite map over every run; when the low 4 GiB stay identity-mapped |
| scheduler (`src/cpu/sched.c`) | Scheduler, ContextSwitch, WaitingTime, Fairness, Shares, ProcessTable | table invariant, when a preempted process resumes where it was, bounded waiting under round robin, fairness by vruntime and in processor time |
| heap (`src/freelib/slab.c`, `src/freelib/kalloc.c`) | Slab, LargeHeap, Kalloc, KernelHeap, BootArenas | slot conservation, tiling, routing, disjoint live payloads and untouched foreign pages over every run; when the two arenas collide |
| xHCI command ring (`src/drivers/usb/xhci.c`) | CommandRing, CommandStores | in order, once each, for every interleaving, call by call and store by store |
| exFAT (`src/fs/exfat.c`, `tools/populate_exfat.py`) | Exfat, ExfatTool, ExfatSpace, ExfatDirectory, ExfatLookup, ExfatPath, ExfatCatalog, ExfatTree | whatever directories, names and files the image builder writes are what the kernel finds and reads |
| ext2/3/4 (`src/fs/extfs.c`) | ExtDisk, ExtMap, ExtTree, ExtFile | both block maps against flat references; overwrite and read back |
| FAT (`src/fs/fat32.c`) | Fat | table decoding for three widths; overwrite and read back |
| descriptors (`src/cpu/syscall.c`) | FdTable, Descriptors, ExfatFiles, ExfatMounted, ExtFiles | independent streams, buffer ownership, persistence across close and open, down to the bytes of an exFAT or ext image; what the image builder wrote is what an open loads |
| Internet checksum (`src/drivers/net/net.c`) | Checksum | RFC 1071 with the accumulator's exact limit |

Words, Bytes and FileData hold what several components share: machine words,
little-endian fields, and files as equal units scattered over a disk.

Where a promise does not hold for all inputs, the code is modelled as it is and
the exact condition is a theorem:

- a checksum over words whose sum reaches 2^32 is not the one of RFC 1071 (`Checksum.NetChecksum`) and may depend on byte order (`Checksum.ReturnedByteOrder`, `Checksum.ByteOrderMatters`);
- 255 pending xHCI commands can stall the controller (`CommandRing.StuckIffParked`);
- the registers of a time slice are saved if and only if the process was entered while no slot was current and no signal has reached it since (`ContextSwitch.SavesIffKnown`): a signal that does not kill it throws it back (`ContextSwitch.RolledBack`), and a process that `SYS_EXEC` enters has its registers stored in its creator's slot (`ContextSwitch.ExecMisfiled`);
- such a signal also resets the round-robin cursor and can starve a process (`WaitingTime.UnseatingStarves`, `WaitingTime.StarvesFromBoot`);
- a process created after the first tick starts at vruntime 0 (`Fairness.CreateIsFairIff`, `Fairness.LateCreateIsUnfair`);
- ticks held after a signal are charged to no one, so a process that signals itself can hold the processor for ever under CFS too (`Shares.Accounting`, `Shares.SelfSignalStarvesCfs`);
- flag bits above bit 11 change the mapped frame (`MappedFrame.MapsRequestedIff`, `MappedFrame.StrayFlags`);
- a further identity mapping of 2 MiB pages breaks the low map from 512 GiB up, without PRESENT, or with stray flag bits (`IdentityMap.LowMapKeptIff`, `IdentityMap.AliasAt512GiB`, `IdentityMap.NotPresentAtZero`);
- request sizes near 2^64 wrap (`Slab.RequestFits`, `LargeHeap.RoundUpFits`);
- the slab pages and the first-fit heap both start at the end of the kernel (`BootArenas.BlockSparedIff`, `BootArenas.PageSparedIff`, `BootArenas.EmptyHeapKeptIff`, `BootArenas.BrokenRun`);
- the image builder may use cluster count + 1, which the kernel rejects (`ExfatSpace.ToolToKernel`, `ExfatSpace.LastClusterUnreadable`);
- the builder stores at most 15 characters of a name (`ExfatDirectory.NameComesBackIff`);
- `extfs_write_file` reports failure for a short buffer that ends inside a block, although `src/tests/storage_tests.c` expects 0 (`ExtFile.WriteFile`, `ExtFile.ShortBufferFails`);
- a long rooted exFAT path is written back under another name (`FdTable.CloseStoresIff`, `FdTable.LongPathLoses`).

## Model

| member | source | states |
|---|---|---|
| `Checksum.NetChecksum` | src/drivers/net/net.c:20-37 | the two loops with a 32-bit accumulator that wraps: the complement of the residue of the word sum modulo 2^32, which is that of the ones'-complement sum if and only if the plain sum is below 2^32 |
| `Checksum.Fold` | src/drivers/net/net.c:32-34 | the folding loop terminates at the representative of the sum modulo 65535 (65535 rather than 0 for a nonzero sum) |
| `Checksum.OnesSumIsResidue` | src/drivers/net/net.c:20-37 | end-around-carry addition of all words equals that representative of their plain sum |
| `Checksum.LongestSafeLength` | src/drivers/net/net.c:23-30 | up to 131074 bytes the sum never overflows; beyond that an input of all 0xFF bytes overflows |
| `Checksum.WrapChangesResidue` | src/drivers/net/net.c:23-26 | losing 1 to 65534 carries of 2^32 always changes the result |
| `Checksum.ChecksumVerifies` | src/drivers/net/net.c:20-37 | `net_checksum` over any even-length data followed by its own checksum returns 0 (section 1 of RFC 1071), also when the sum of the data has lost carries |
| `Checksum.ByteOrderIndependence` | src/drivers/net/net.c:20-37 | byte-swapping every word byte-swaps the ones'-complement sum (section 2(B) of RFC 1071) |
| `Checksum.ReturnedByteOrder` | src/drivers/net/net.c:20-37 | byte-swapping any even-length data byte-swaps the value returned if and only if the carries lost out of bit 31 agree in both orders (256 times one is the other modulo 65535, and the low words are zero together); always, when none is lost |
| `Checksum.ByteOrderMatters` | src/drivers/net/net.c:20-37 | an input for which they do not: 65794 words of low byte 0xFF |
| `CommandRing.EnqueueKeepsDriverInv` | src/drivers/usb/xhci.c:193-207 | each `xhci_cmd` writes the next free entry with the right cycle bit, rewrites the link TRB at the wrap and toggles its cycle state |
| `CommandRing.SubmitKeepsInv` | src/drivers/usb/xhci.c:193-207 | with at most 255 pending, an enqueue never overwrites an entry the controller has still to fetch |
| `CommandRing.FetchExactly` | src/drivers/usb/xhci.c:193-207 | one controller step executes the next pending command, or follows the link, or stops on a stale entry |
| `CommandRing.InOrderOnceEach` | src/drivers/usb/xhci.c:193-207 | in every interleaving, what was executed is a prefix of what was submitted: in order, once each |
| `CommandRing.Drains` | src/drivers/usb/xhci.c:193-207 | with at most 254 pending, the controller executes all of them across any wrap and then stops |
| `CommandRing.StuckIffParked` | src/drivers/usb/xhci.c:201-207 | with commands pending the controller makes no progress if and only if it is parked on the link TRB with 255 pending |
| `CommandRing.Limit255Stalls` | src/drivers/usb/xhci.c:201-207 | a concrete run with 255 pending whose commands are never executed, so 254 is the best limit |
| `CommandRing.EveryCommandExecutes` | src/drivers/usb/xhci.c:193-207 | every command of every run with at most 254 pending is executed once the controller is left alone |
| `CommandRing.Driver.constructor` | src/drivers/usb/xhci.c:286-296 | the zeroed ring with index 0 and cycle 1 satisfies the driver invariant |
| `CommandRing.Driver.Submit` | src/drivers/usb/xhci.c:193-207 | the in-place update of ring, index and cycle is one step of the protocol |
| `CommandStores.StepRefines` | src/drivers/usb/xhci.c:193-207 | with every word of the TRB and of the link TRB a store of its own and the controller looking in between, each step is a step between whole calls or none |
| `CommandStores.InOrderStoreByStore` | src/drivers/usb/xhci.c:193-207 | in every such interleaving with at most 254 pending, what was executed is a prefix of what was submitted; no half-written entry is executed |
| `CommandStores.EveryCallExecutes` | src/drivers/usb/xhci.c:193-207 | after every such run with no call in progress, the controller left alone executes every command |
| `Scheduler.FreeSlot` | src/cpu/sched.c:70-76 | the lowest unused slot at or after a position, -1 exactly when there is none |
| `Scheduler.FindPid` | src/cpu/sched.c:121-127 | the lowest runnable slot with the pid, -1 exactly when there is none |
| `Scheduler.ChooseRr` | src/cpu/sched.c:150-158 | the runnable slot nearest ahead of the cursor going round the table, -1 exactly when none is runnable |
| `Scheduler.ChooseCfs` | src/cpu/sched.c:160-169 | a runnable slot of least vruntime, the lowest such slot, -1 exactly when none is runnable |
| `Scheduler.TableInvariant` | src/cpu/sched.c:42-133 | in every reachable state under both policies: used slots are a prefix with pid = slot + 1, the rest is blank, the current process is runnable, saved frames have a ring-3 CS |
| `Scheduler.FrameStability` | src/cpu/sched.c:179-202 | a saved frame changes only when its owner is current at an effective tick, and then becomes the interrupted frame; pids never change and zombies stay zombies |
| `Scheduler.SpawnEffect` | src/cpu/sched.c:78-119 | a create or fork fills exactly slot next_pid - 1: pid, vruntime (0 or the parent's) and an entry frame with the given instruction pointer, stack and flags |
| `Scheduler.SpawnRefused` | src/cpu/sched.c:70-119 | a full table refuses both and changes nothing |
| `Scheduler.NewProcessStarts` | src/cpu/sched.c:78-202 | however much later it is first dispatched, a new process enters where its creator said |
| `Scheduler.KillEffect` | src/cpu/sched.c:121-133 | a signal reaches exactly the runnable process of that pid, kills it if fatal and takes it off the processor if current; otherwise -1 and no change |
| `Scheduler.StoredFrameReturns` | src/cpu/sched.c:179-202 | the frame in a waiting process's slot stays until the tick that dispatches it, and that tick returns it |
| `ContextSwitch.RunAgrees` | src/cpu/sched.c:70-202 | over every run from boot, under both policies, the current slot is the one that was current when the processor last entered a process, by a create or a dispatch, or none if a signal has reached that one since |
| `ContextSwitch.KnownAfter` | src/cpu/sched.c:78-202 | event by event when the running process is that one and unsignalled: after every dispatch, after a create exactly when no slot was current, and until a signal reaches it |
| `ContextSwitch.SavesIffKnown` | src/cpu/sched.c:121-194 | over every run from boot, an effective tick saves the interrupted frame in the slot of the running process if and only if it was entered while no other slot was current and no signal has reached it since; otherwise the frame goes to the slot that was current then, or nowhere |
| `ContextSwitch.PreemptThenResume` | src/cpu/sched.c:121-202 | a process preempted at a frame resumes later with that frame if and only if it was known to be running or its stored frame is the same; otherwise with the stored one |
| `ContextSwitch.RolledBack` | src/cpu/sched.c:121-202 | a run from boot after which a signalled process is thrown back to its entry point |
| `ContextSwitch.ExecMisfiled` | src/programs/elf.c:276-292 | a run from boot without signals: a create by the running process enters the new one, and the next tick stores its frame over its creator's and leaves its own slot at the entry point |
| `WaitingTime.RankStep` | src/cpu/sched.c:70-202 | no event that leaves a waiting process undispatched raises its rank (weight of the table, then circular distance), except a non-fatal signal to the current process by at most PROC_MAX, and every effective tick lowers it |
| `WaitingTime.BoundedWaiting` | src/cpu/sched.c:70-202 | over every run a runnable process is passed over at most its rank, plus PROC_MAX for each signal that unseats the current process |
| `WaitingTime.OnceRoundTheTable` | src/cpu/sched.c:150-158 | while only ticks move the cursor, it waits fewer than PROC_MAX effective ticks |
| `WaitingTime.UnseatingStarves` | src/cpu/sched.c:121-133 | the extra term is needed: signalling the current process after each tick keeps another one waiting for any number of ticks |
| `WaitingTime.StarvesFromBoot` | src/cpu/sched.c:121-158 | that run starts from a state reached from boot by two creates, arming and one signal |
| `Fairness.CreatesFirstIsFair` | src/cpu/sched.c:99-202 | in every run whose creates all precede the first tick, runnable vruntimes differ by at most 1 and the current process has the least |
| `Fairness.CreateIsFairIff` | src/cpu/sched.c:78-97 | a later create keeps a fair table fair if and only if the table is full, or no runnable process is above vruntime 1 and the current one is at 0 |
| `Fairness.LateCreateIsUnfair` | src/cpu/sched.c:78-97 | a run from boot after which a create makes the table unfair |
| `Fairness.VruntimeCountsCharges` | src/cpu/sched.c:191-194 | over every run a slot's vruntime grows by exactly the effective ticks at which it was current |
| `Fairness.EqualCharges` | src/cpu/sched.c:160-202 | over any run without creates from a fair table two processes that stay runnable are charged for tick counts at most two apart |
| `Shares.Accounting` | src/cpu/sched.c:121-202 | over every run and both policies: vruntime gained is the ticks during which the process ran, less those charged to no one or to another slot, plus those charged to it while another ran |
| `Shares.SharesWithin` | src/cpu/sched.c:160-202 | hence over any run without creates from a fair table the ticks two processes ran differ by at most two, up to those terms |
| `Shares.EqualShares` | src/cpu/sched.c:160-202 | two processes that get no signal run for numbers of ticks at most two apart, whoever else is forked, signalled or killed, from a fair table whose running process is known |
| `Shares.SelfSignalStarvesCfs` | src/cpu/sched.c:121-202 | a run from boot to such a table, after which a process that signals itself runs at all of any number of ticks, is charged for none, and the other never runs |
| `ProcessTable.ProcessTable.constructor` | src/cpu/sched.c:42-55 | the in-place table starts as the empty table of the state machine |
| `ProcessTable.ProcessTable.AllocProc` | src/cpu/sched.c:70-76 | the loop finds the lowest unused slot, which is slot next_pid - 1 or none |
| `ProcessTable.ProcessTable.CreateUser` | src/cpu/sched.c:78-97 | table, cursor and returned pid are those of the create step, and the invariant is kept |
| `ProcessTable.ProcessTable.ForkCurrent` | src/cpu/sched.c:99-119 | table and returned pid are those of the fork step, and the invariant is kept |
| `ProcessTable.ProcessTable.Kill` | src/cpu/sched.c:121-133 | table, cursor and result are those of the signal step, and the invariant is kept |
| `ProcessTable.ProcessTable.CurrentPid` | src/cpu/sched.c:135-139 | the slot number plus one, or -1 when no process is current |
| `ProcessTable.ProcessTable.RunnableCount` | src/cpu/sched.c:141-148 | the number of runnable slots |
| `ProcessTable.ProcessTable.ChooseRoundRobin` | src/cpu/sched.c:150-158 | the loop finds the nearest runnable slot ahead of the cursor |
| `ProcessTable.ProcessTable.ChooseLeastVruntime` | src/cpu/sched.c:160-169 | the loop finds the lowest slot of least vruntime |
| `ProcessTable.ProcessTable.TimerDispatch` | src/cpu/sched.c:179-202 | table and returned frame are those of the tick step, and the invariant is kept |
| `PageTables.Digits` | src/mm/vm.c:63-66 | the four 9-bit indices determine the 36-bit page number |
| `PageTables.SamePath` | src/mm/vm.c:63-66 | two addresses share all four indices exactly when they lie in the same 48-bit page |
| `PageTables.TableEntry` | src/mm/vm.c:73-87 | or-ing the flags into a table address keeps the table's page and sets the present bit |
| `PageTables.LeafEntry` | src/mm/vm.c:91 | what frame and flag bits the last-level entry holds |
| `PageTables.HugeEntry` | src/mm/vm.c:55 | what frame and flag bits a 2 MiB entry holds |
| `PageTables.DescendKeepsTree` | src/mm/vm.c:71-90 | allocating a missing table keeps the tables an unshared tree of pages |
| `PageTables.DescendKeepsWalk` | src/mm/vm.c:71-90 | allocating a missing table changes no translation |
| `PageTables.LeafFrame` | src/mm/vm.c:91 | writing a last-level entry changes only the translation of the page whose path ends there |
| `AddressSpace.LowIdentity` | src/mm/vm.c:95-114 | under the invariant every address below 4 GiB translates to itself |
| `AddressSpace.FailedMap` | src/mm/vm.c:60-93 | outside its mappable range a call needs no memory, fails, allocates nothing and changes no table |
| `AddressSpace.SuccessfulMap` | src/mm/vm.c:60-114 | inside it, with a page left for each table it must allocate, a call succeeds, sends every byte of its page to the frame plus offset, leaves every other page's translation alone and keeps the tree |
| `MappedFrame.FlagsFit` | src/mm/vm.c:91 | or-ing in the flags leaves the frame as requested if and only if no flag bit from 12 up is clear in the physical address |
| `MappedFrame.MapsRequestedIff` | src/mm/vm.c:60-114 | after a successful call the page translates to the requested address under exactly that condition |
| `MappedFrame.StrayFlags` | src/mm/vm.c:60-114 | flag 0x1000 on frame 0x2000 maps 0x3000, and the no-execute bit never maps the requested address |
| `AddressSpace.RefinementRun` | src/mm/vm.c:27-114 | over any run of mappings, page allocations and writes by other kernel code, the tables refine a finite map |
| `AddressSpace.PageTablesRefineMap` | src/mm/vm.c:21-114 | from boot on, translation is lookup in the abstract map and the low 4 GiB stay identity-mapped throughout |
| `VirtualMemory.InitBoots` | src/mm/vm.c:21-25 | the identity map on zeroed static tables is the boot state |
| `VirtualMemory.PhysicalMemory.LinkBootTables` | src/mm/vm.c:46-48 | root entry 0 and the four directory links are written and nothing else |
| `VirtualMemory.ReachBelow` | src/mm/vm.c:49-56 | below 512 GiB the loop covers the range up to 4 GiB and stops there |
| `VirtualMemory.PhysicalMemory.MapRange` | src/mm/vm.c:49-57 | every range: one directory entry per 2 MiB page up to the first whose directory index is not one of the four, and 0 exactly when there is none; an end below the start maps nothing |
| `VirtualMemory.PhysicalMemory.MapIdentity2m` | src/mm/vm.c:43-58 | misaligned calls change nothing; aligned calls write the boot links and that range, with the end taken modulo 2^64 |
| `IdentityMap.LowMapKeptIff` | src/mm/vm.c:43-58 | in every state of the invariant a further call keeps the low 4 GiB identity-mapped if and only if it writes nothing, or starts below 512 GiB with PRESENT and no flag bit from 21 up that is clear in an address it writes |
| `IdentityMap.LowMapAfterRun` | src/mm/vm.c:21-114 | the same after every run from boot of mappings, page allocations and writes by other kernel code |
| `IdentityMap.RemapIsIdle` | src/mm/vm.c:43-58 | under that condition the call keeps the invariant and every translation, low or high |
| `IdentityMap.AliasAt512GiB` | src/mm/vm.c:43-58 | one page at 512 GiB: the call returns 0 whatever its flags, and the low map is broken |
| `IdentityMap.NotPresentAtZero` | src/mm/vm.c:43-58 | one page at address 0 without PRESENT: the call returns 0, and the low map is broken |
| `VirtualMemory.PhysicalMemory.Init` | src/mm/vm.c:21-25 | leaves the boot map, with the page region above the kernel |
| `VirtualMemory.PhysicalMemory.AllocatePage` | src/mm/vm.c:27-33 | the next page of the region, zeroed, all other pages untouched |
| `VirtualMemory.PhysicalMemory.LowerTable` | src/mm/vm.c:71-90 | follows a present entry, else links a fresh zeroed table |
| `VirtualMemory.PhysicalMemory.MapPage` | src/mm/vm.c:60-93 | the in-place code is the specified map step, return value included |
| `VirtualMemory.PhysicalMemory.VirtToPhys` | src/mm/vm.c:95-114 | the walk returns the translation, 0 when there is none |
| `Slab.ClassFrom` | src/freelib/slab.c:24-31 | the first class that holds the request with its header |
| `Slab.SlotsDisjoint` | src/freelib/slab.c:33-47 | any two slots of carved pages, of any classes, are disjoint |
| `Slab.RequestFits` | src/freelib/slab.c:24-31 | the slot of the chosen class holds the request if and only if size plus header does not wrap 64 bits |
| `Slab.RefillStep` | src/freelib/slab.c:33-47 | carving a fresh page puts each of its slots once on its class's list and keeps every other slot as it was |
| `Slab.AllocStep` | src/freelib/slab.c:49-58 | the slot handed out was not live, is of a class that fits, and conservation holds after it: earlier pages stay carved and the only page that joins them is the one just taken; a page is needed only when the class has no free slot |
| `Slab.FreeStep` | src/freelib/slab.c:60-70 | a live slot is accepted and goes back on the list of its own class; no other word changes |
| `Slab.StoreStep` | src/freelib/slab.c:33-70 | a write by the owner of a live slot keeps lists and headers intact |
| `Slab.LiveSlotsDisjoint` | src/freelib/slab.c:49-58 | live payloads share no word with each other |
| `LargeHeap.RoundUpFits` | src/freelib/kalloc.c:33 | the rounded size is a multiple of 16 that holds the request if and only if the rounding does not wrap |
| `LargeHeap.FirstFit` | src/freelib/kalloc.c:35-44 | the first free block that is large enough, or none |
| `LargeHeap.BlocksDisjoint` | src/freelib/kalloc.c:46-60 | the blocks reachable from the heap start never overlap |
| `LargeHeap.AppendTiles` | src/freelib/kalloc.c:46-60 | a new last block continues the tiling of one contiguous range |
| `LargeHeap.SetFlag` | src/freelib/kalloc.c:38-40 | marking a block free or used keeps the tiling |
| `Kalloc.LargeIsNoSlot` | src/freelib/kalloc.c:65-71 | the word before a large payload is a null or 8-aligned link and never reads as a slab header, so `kfree` routes it right |
| `Kalloc.SlotIsSlot` | src/freelib/slab.c:60-69 | the word before a live slot reads as the header of its own class |
| `Kalloc.AllocStep` | src/freelib/kalloc.c:24-63 | a non-null pointer that was not live; all other allocations kept; the heap grows only when no free block fits, and needs room only then |
| `Kalloc.FreeSmallStep` | src/freelib/kalloc.c:65-71 | freeing a live slot removes exactly that allocation |
| `Kalloc.FreeLargeStep` | src/freelib/kalloc.c:73-78 | freeing a live large block removes exactly that allocation |
| `Kalloc.LivePayloadsDisjoint` | src/freelib/kalloc.c:24-78 | no word belongs to two live payloads, whichever arena they come from |
| `Kalloc.HeapRun` | src/freelib/kalloc.c:24-78 | over every run of allocations, frees, writes by owners, and other callers of `vm_alloc_page` writing to the pages they took: tiling, slot conservation, intact headers, every page handed out either carved or another caller's, disjoint live payloads, and none in another caller's page |
| `Kalloc.OthersUntouched` | src/freelib/kalloc.c:24-78 | no allocation, free or write by an owner changes a word of another caller's page |
| `Kalloc.InitInv` | src/freelib/kalloc.c:14-22 | the state `kalloc_init` leaves satisfies the invariant |
| `BootArenas.SmallGap` | src/freelib/kalloc.c:17-18 | at boot the gap between heap start and first page is below 4096 bytes |
| `BootArenas.BlockSparedIff` | src/freelib/kalloc.c:24-63 | from the boot layout, a large `kalloc` followed by the first slab refill leaves the live block alone, whatever its owner stored, if and only if header and rounded size fit the gap |
| `BootArenas.EmptyHeapKeptIff` | src/freelib/kalloc.c:14-63 | from the boot layout, after a small `kalloc` memory still holds the empty first-fit heap if and only if there is a gap before the first page |
| `BootArenas.PageSparedIff` | src/freelib/kalloc.c:24-63 | in the order small, then large, where there is a gap: the page of the live slot keeps every word, whatever the block's owner stores, if and only if header and rounded size fit the gap |
| `BootArenas.BrokenRun` | src/freelib/kalloc.c:24-63 | a kernel that ends on a page boundary: `kalloc(8)` after any large `kalloc` replaces the live block's size by a slot header |
| `KernelHeap.KernelHeap.KallocInit` | src/freelib/kalloc.c:14-22 | sets up the empty heap once; a second call changes nothing |
| `KernelHeap.KernelHeap.ClassFor` | src/freelib/slab.c:24-31 | the loop finds the first class that fits |
| `KernelHeap.KernelHeap.TakePage` | src/mm/vm.c:27-33 | the next page, zeroed, as the allocator sees it |
| `KernelHeap.KernelHeap.Refill` | src/freelib/slab.c:33-47 | the loop carves the whole page, one pushed slot after another |
| `KernelHeap.KernelHeap.SlabAlloc` | src/freelib/slab.c:49-58 | memory, lists and pointer are those of the specified step |
| `KernelHeap.KernelHeap.SlabFree` | src/freelib/slab.c:60-70 | memory, lists and answer are those of the specified step, null and foreign pointers included |
| `KernelHeap.KernelHeap.FindFit` | src/freelib/kalloc.c:35-44 | the walk over headers in memory stops at the first fit, or at the last block |
| `KernelHeap.KernelHeap.LargeAlloc` | src/freelib/kalloc.c:35-62 | memory and pointer are those of first fit, else growth |
| `KernelHeap.KernelHeap.Grow` | src/freelib/kalloc.c:46-62 | a new last block is written and linked |
| `KernelHeap.KernelHeap.Kalloc` | src/freelib/kalloc.c:24-63 | the invariant is kept and exactly one fresh allocation is added |
| `KernelHeap.KernelHeap.Kfree` | src/freelib/kalloc.c:65-78 | the invariant is kept and exactly that allocation is removed; null is ignored |
| `Disk.ReadAfterWrite` | src/drivers/block/block.c:6-22 | sectors just written read back, and a read of other sectors gives what it gave before |
| `Disk.Device.WriteBlocks` | src/drivers/block/block.c:15-22 | exactly those sectors change, or the write fails and nothing does |
| `FileData.ReadBack` | src/fs/exfat.c:308-335 | writing data over disjoint units and gathering them gives the data followed by the old rest |
| `FileData.ScatterFrame` | src/fs/exfat.c:308-335 | bytes outside the units do not change |
| `Exfat.NextIsEntry` | src/fs/exfat.c:72-83 | the sector-wise FAT read is the FAT entry, every value from 0xFFFFFFF8 up read as end of chain |
| `Exfat.ReadFile` | src/fs/exfat.c:277-291 | all of the file's bytes, or an error when the chain ends early or leaves the clusters the kernel accepts |
| `Exfat.CollectChain` | src/fs/exfat.c:59-83 | following an acyclic chain delivers its clusters' bytes in order |
| `Exfat.CollectRejects` | src/fs/exfat.c:59-62 | a read that needs cluster count + 1 fails |
| `Exfat.WriteFile` | src/fs/exfat.c:305-335 | a buffer longer than the file is refused; otherwise the disk is the overwritten one and success is reported exactly when all bytes were written |
| `Exfat.OverwriteChain` | src/fs/exfat.c:308-335 | along a chain the overwrite is exactly the scatter of the data over its clusters |
| `Exfat.OverwriteThenRead` | src/fs/exfat.c:277-335 | write then read gives the new prefix and the old suffix; every byte outside the chain is untouched |
| `ExfatTool.FindFreeIffEnough` | tools/populate_exfat.py:38-47 | allocation succeeds if and only if enough clusters are free and not reserved |
| `ExfatTool.FindFreeTakesLowest` | tools/populate_exfat.py:38-47 | it takes the lowest free clusters, in increasing order |
| `ExfatTool.SetChainLinks` | tools/populate_exfat.py:50-53 | each cluster is linked to the next and the last to end-of-chain |
| `ExfatTool.SetChainFrame` | tools/populate_exfat.py:50-53 | no other byte of the image changes |
| `ExfatTool.NeededIsCeiling` | tools/populate_exfat.py:101-102 | the cluster count holds the data and one fewer would not |
| `ExfatTool.StoreContents` | tools/populate_exfat.py:100-111 | the clusters form a chain that reads as the data, zero-padded |
| `ExfatTool.StoreFrame` | tools/populate_exfat.py:100-111 | no cluster outside the chain changes, neither data nor FAT entry |
| `ExfatTool.BuilderRun` | tools/populate_exfat.py:100-120 | over every sequence of files and directories: each is on the image, chains are acyclic and pairwise disjoint, clusters in use and the image length are unchanged |
| `ExfatTool.KernelReadsFile` | src/fs/exfat.c:59-83 | the kernel reads a stored file byte for byte if and only if it is empty or avoids cluster count + 1 |
| `ExfatSpace.LastTakenIff` | tools/populate_exfat.py:38-47 | the search hands out cluster count + 1 if and only if it is free and every free cluster is needed |
| `ExfatSpace.PutSpace` | tools/populate_exfat.py:100-111 | storing a file lowers the free clusters by exactly those it needs |
| `ExfatSpace.RunFitsIff` | tools/populate_exfat.py:100-120 | a run succeeds if and only if the clusters of all its files are free beforehand |
| `ExfatSpace.ToolToKernel` | tools/populate_exfat.py:100-120 | every file of every run reads back byte for byte, except that a nonempty file fails if cluster count + 1 is free before the run and the files up to it need exactly the free clusters |
| `ExfatSpace.LastClusterUnreadable` | tools/populate_exfat.py:100-111 | on an empty image of two clusters the one file that fits cannot be read |
| `ExfatSpace.SmallestImage` | tools/populate_exfat.py:123-153 | such an image: three sectors of zeros |
| `ExfatTool.Builder.FindFreeClusters` | tools/populate_exfat.py:38-47 | the loop returns the allocation, or the error |
| `ExfatTool.Builder.LinkClusters` | tools/populate_exfat.py:50-53 | the loop performs the linking in place |
| `ExfatTool.Builder.WriteChunks` | tools/populate_exfat.py:106-110 | the loop writes the padded chunks in place |
| `ExfatTool.Builder.WriteFile` | tools/populate_exfat.py:100-111 | image, reserved set, first cluster and length are those of the store step; on error nothing changes |
| `ExfatTool.Builder.WriteDir` | tools/populate_exfat.py:114-120 | the same effect as storing a file without data: one zeroed, linked, reserved cluster |
| `ExfatDirectory.ParseEntrySet` | src/fs/exfat.c:122-167 | the two nested loops compute the specified parse, rejections included |
| `ExfatDirectory.ParsePrinted` | tools/populate_exfat.py:62-82 | parsing a printed entry set gives back attributes, first cluster and size, and the first 15 characters of the name |
| `ExfatDirectory.NameComesBackIff` | tools/populate_exfat.py:78-80 | as a C string the name comes back whole if and only if it has at most 15 characters, all ASCII and none of them NUL |
| `ExfatDirectory.ParseFrame` | src/fs/exfat.c:122-167 | a parse depends only on the bytes of its own entry set |
| `ExfatDirectory.AppendLists` | tools/populate_exfat.py:85-97 | after an append the kernel lists the old entries and then exactly the new one; the directory stays well-formed |
| `ExfatDirectory.AppendIffRoom` | tools/populate_exfat.py:85-97 | an append fails if and only if the set does not fit between the last entry and the end of the cluster |
| `ExfatLookup.AppendEntries` | tools/populate_exfat.py:85-97 | the scan writes the set and the new end marker at the first free slot, or changes nothing and fails |
| `ExfatLookup.ListOne` | src/fs/exfat.c:177-196 | the inner loop delivers a cluster's entries up to the end marker or the limit |
| `ExfatLookup.ListCluster` | src/fs/exfat.c:169-200 | the first `max` entries of the whole chain |
| `ExfatLookup.StreqCi` | src/fs/exfat.c:26-41 | equality of the C strings up to ASCII case |
| `ExfatLookup.FindInChain` | src/fs/exfat.c:202-212 | the first of the first 64 entries with the name |
| `ExfatPath.FindRoot` | src/fs/exfat.c:221-260 | the walk over the path's components from the root, whatever separators it uses, with every failure case |
| `ExfatCatalog.EnterStep` | tools/populate_exfat.py:85-97 | entering a name adds exactly its entry and changes no file |
| `ExfatCatalog.PublishRun` | tools/populate_exfat.py:153-178 | over every run of store and append the directory lists the old entries, then one per file, in order |
| `ExfatCatalog.PublishedFilesRead` | tools/populate_exfat.py:153-178 | after every run any published name, in any case, is found by the kernel and reads back, unless it is the nonempty file that takes the last free cluster |
| `ExfatTree.OneStep` | tools/populate_exfat.py:85-120 | making a directory, storing a file or entering a name changes the entries of no directory but the one entered |
| `ExfatTree.TreeRun` | tools/populate_exfat.py:123-178 | over every run of those steps in any order, each directory lists what it held and then the names entered in it, in order |
| `ExfatTree.RunNeeds` | tools/populate_exfat.py:100-120 | such a run needs no more clusters than are free before it |
| `ExfatTree.PutAtLastIff` | tools/populate_exfat.py:38-120 | over every run of those steps, one that stores a file or makes a directory gets cluster count + 1 if and only if that cluster is free before the run and the steps up to it need exactly the free clusters |
| `ExfatTree.WalkIsResolve` | src/fs/exfat.c:221-260 | the kernel's walk over the image is the walk over those lists |
| `ExfatTree.FindBuilt` | src/fs/exfat.c:221-260 | `exfat_find_root` on the image of any run, for any path, finds what the built tree holds there |
| `ExfatTree.StoredFilesRead` | tools/populate_exfat.py:123-178 | every file such a run stored reads back byte for byte, except that a nonempty one fails under exactly that condition |
| `ExfatTree.InitIsFound` | tools/populate_exfat.py:153-178 | a file in a subdirectory entered in the root, such as /SBIN/INIT, is found by its path in any letter case, and what is found reads back as the stored bytes under exactly that condition |
| `ExtDisk.ReadBytes` | src/fs/extfs.c:32-48 | the sector loop reads exactly the byte range, or fails when it leaves the device |
| `ExtDisk.WriteBytes` | src/fs/extfs.c:50-69 | the read-modify-write loop changes exactly the byte range; success if and only if the range fits the device |
| `ExtDisk.WriteThenRead` | src/fs/extfs.c:32-69 | a write reads back, and a read elsewhere does not see it |
| `ExtMap.ReadBlockFull` | src/fs/extfs.c:189-191 | the block's bytes, or failure outside the device |
| `ExtMap.ReadU32Block` | src/fs/extfs.c:148-156 | the pointer at an index of a block, 0 when its sector cannot be read |
| `ExtMap.FollowPointers` | src/fs/extfs.c:158-183 | the pointer reads compute the specified map |
| `ExtMap.FollowIsFlat` | src/fs/extfs.c:158-183 | following pointer indices reaches the block at that position of the flattened tree, at any depth |
| `ExtMap.IndirectIsFlattening` | src/fs/extfs.c:158-183 | for every lbn below 12 + p + p^2 + p^3 the map is element lbn of the direct, single, double and triple trees laid end to end, holes included |
| `ExtMap.SlotsDistinct` | src/fs/extfs.c:158-183 | distinct logical blocks use distinct pointer slots |
| `ExtMap.IndirectFrame` | src/fs/extfs.c:158-183 | the mapping depends only on the pointer blocks it reads |
| `ExtTree.DescentIsScan` | src/fs/extfs.c:193-218 | for a well-formed tree of any depth the index descent finds what a linear scan of all leaf extents finds |
| `ExtTree.DescentZeroIff` | src/fs/extfs.c:193-218 | it answers 0 if and only if no extent covers the block |
| `ExtTree.EncodesFrame` | src/fs/extfs.c:193-218 | the tree depends only on the root and its node blocks |
| `ExtTree.ExtentReader.SearchLeaf` | src/fs/extfs.c:196-206 | the leaf loop finds the first covering extent |
| `ExtTree.ExtentReader.PickChild` | src/fs/extfs.c:209-212 | the index loop finds the last key at most lbn |
| `ExtTree.ExtentReader.MapExtents` | src/fs/extfs.c:193-218 | the recursion through one reused static buffer computes the descent |
| `ExtFile.FindBlock` | src/fs/extfs.c:220-227 | extents or indirect map, by the inode flag |
| `ExtFile.LayoutFrame` | src/fs/extfs.c:158-227 | changing no map block changes neither map nor mapping |
| `ExtFile.CountIsCeil` | src/fs/extfs.c:344 | below 2^32 blocks the 32-bit block count is the exact ceiling |
| `ExtFile.ReadFile` | src/fs/extfs.c:311-328 | the whole file, or an error if it is not regular, too big for the buffer, or has a hole or unreadable block |
| `ExtFile.WriteFile` | src/fs/extfs.c:338-372 | the bytes always go to the file's blocks in order; 0 is returned if and only if every block visited exists and the buffer is the whole file or whole blocks |
| `ExtFile.ShortBufferFails` | src/fs/extfs.c:304-373 | writing a one-byte buffer to a longer file reports failure, and a read then gives that byte and the old rest |
| `ExtFile.OverwriteThenRead` | src/fs/extfs.c:304-373 | with data blocks distinct and apart from the map, the file then reads as the buffer and its old rest, and every other disk byte is unchanged |
| `ExtFile.WholeFileOverwrite` | src/fs/extfs.c:304-373 | both calls with a buffer of exactly the file's size: the write returns 0 and the read gives the buffer back |
| `ExtFile.WriteThenRead` | src/fs/extfs.c:304-373 | both calls one after the other, on a file whose blocks are all there: the read gives the buffer and the old rest, whatever the write returned; the write returned 0 exactly for a whole file or whole blocks |
| `Fat.NextIsEntry` | src/fs/fat32.c:65-105 | for FAT12, FAT16 and FAT32 the decoded value is the packed table's entry (section 4.1 of the Microsoft FAT specification), 12-bit entries across a sector boundary included |
| `Fat.ReadFile` | src/fs/fat32.c:422-437 | the bytes along the table's links up to the size, on any table; more than 8 sectors per cluster or a small buffer is refused |
| `Fat.CollectChain` | src/fs/fat32.c:424-437 | along an acyclic chain these are the chain's bytes; a chain that ends early is no error |
| `Fat.WriteFile` | src/fs/fat32.c:458-474 | a buffer longer than the file is refused; otherwise disk and result are those of writing along the links, on any table |
| `Fat.OverwriteChain` | src/fs/fat32.c:460-474 | along an acyclic chain the data is scattered over it, and success is reported if and only if the chain is long enough |
| `Fat.ScatterThenRead` | src/fs/fat32.c:412-475 | scattering data over a chain: new prefix, old suffix, the same chain, every byte outside it untouched |
| `Fat.OverwriteThenRead` | src/fs/fat32.c:412-475 | write, then read, along a chain that holds the file: the write succeeds and the read gives the new prefix and the old suffix; every byte outside the chain untouched |
| `Fat.OtherClusters` | src/fs/fat32.c:440-475 | no other cluster changes |
| `FdTable.NamesAgreeIff` | src/cpu/syscall.c:97-113 | open and close use the same name if and only if the volume is ext, or the path is not rooted, or it is shorter than 160 characters |
| `FdTable.FreeFd` | src/cpu/syscall.c:130-144 | the lowest free slot, none exactly when all are used |
| `FdTable.OpenRefines` | src/cpu/syscall.c:298-329 | an open adds one stream, the file's bytes from offset 0, at the lowest free descriptor, or changes nothing |
| `FdTable.ReadRefines` | src/cpu/syscall.c:218-242 | a read delivers the next bytes of its own stream and moves past them |
| `FdTable.WriteRefines` | src/cpu/syscall.c:244-278 | a write replaces the next bytes of its own stream, never beyond the file's size |
| `FdTable.CloseRefines` | src/cpu/syscall.c:331-368 | a close removes its own stream and no other |
| `FdTable.ReachableInv` | src/cpu/syscall.c:130-368 | in every reachable state each regular descriptor owns one buffer of the file's size, no two share one, no live buffer is unowned, offsets stay inside, file sizes never change |
| `FdTable.IndependentStreams` | src/cpu/syscall.c:218-368 | over any interleaving an open descriptor is what its own reads and writes make of it |
| `FdTable.FreedOnce` | src/cpu/syscall.c:361 | close frees a live buffer and no other descriptor's |
| `FdTable.NoLeak` | src/cpu/syscall.c:361-364 | with every regular descriptor closed no buffer is left |
| `FdTable.CloseStoresIff` | src/cpu/syscall.c:335-361 | after the close of a written descriptor the opened file holds the stream's bytes if and only if the stored name resolves to that file, or it held them already |
| `FdTable.StoredNameFinds` | src/cpu/syscall.c:335-354 | it does for every ext path, unrooted path and path below 160 characters; for other exFAT paths the stored name is one character shorter |
| `FdTable.CloseStores` | src/cpu/syscall.c:335-361 | closing a written ext or exFAT file stores exactly the stream's bytes, for paths whose names agree |
| `FdTable.CloseThenReopen` | src/cpu/syscall.c:298-368 | close, any run that does not write the file back, open again: the stream is what was closed, under exactly that condition |
| `ExfatFiles.LoadAgrees` | src/cpu/syscall.c:171-190 | when the volume is what an exFAT image holds, an open loads what the kernel finds and reads on the image |
| `ExfatFiles.StoreAgrees` | src/cpu/syscall.c:350-354 | the image after `exfat_write_file` holds the volume after the write-back: that file overwritten, every other file, directory and name as before |
| `ExfatFiles.RunOnDisk` | src/cpu/syscall.c:298-368 | over every run of the table the volume is what the image holds |
| `ExfatFiles.ClosedBytesOnDisk` | src/cpu/syscall.c:298-368 | after a close and any run that does not write the file back, the kernel reads the closed bytes from the image, under exactly the condition of the close |
| `ExfatMounted.MountedOnDisk` | tools/populate_exfat.py:123-178 | the tree of a mountable image is a volume that the descriptor table's exFAT theorems apply to, with every readable stored file in it |
| `ExfatMounted.InitOpens` | src/cpu/syscall.c:171-190 | from builder to open: on the image of the calls for one file in one directory, opening any path with those two components, in any letter case, loads the stored bytes |
| `ExfatMounted.InitMounts` | tools/populate_exfat.py:153-178 | those calls on an empty image give a mountable one, unless the file takes the last free cluster |
| `ExtFiles.Load` | src/fs/extfs.c:304-329 | `extfs_read_file` gives the bytes the file's blocks hold |
| `ExtFiles.Save` | src/fs/extfs.c:331-373 | the disk after `extfs_write_file`, and when it returns 0 |
| `ExtFiles.SaveAgrees` | src/fs/extfs.c:331-373 | writing one file on the image changes no other file, neither data nor map, and is writing that file in the volume |
| `ExtFiles.RunOnDisk` | src/cpu/syscall.c:298-368 | over every run of the table on an ext volume, every file of the volume is what the image holds |
| `ExtFiles.ClosedBytesOnDisk` | src/cpu/syscall.c:298-368 | after a close and any run that does not write the file back, the kernel reads the closed bytes from the ext image, for every non-empty path |
| `ExtFiles.OneFileOnDisk` | src/fs/extfs.c:304-329 | every image with an inode of a one-block file is such a volume |
| `FdTable.FatNeverWritesBack` | src/cpu/syscall.c:340-356 | on FAT volumes close never changes the volume |
| `FdTable.LongPathLoses` | src/cpu/syscall.c:298-368 | open, write, close and open again a file with a rooted path of 160 characters or more that is the volume's only name: the written byte is gone |
| `FdTable.SomeLongPath` | src/cpu/syscall.c:298-329 | such a path: a slash and 159 letters |
| `Descriptors.CopyOut` | src/cpu/syscall.c:236-237 | the read loop copies the bytes at the offset |
| `Descriptors.CopyIn` | src/cpu/syscall.c:264-265 | the write loop replaces the bytes at the offset |
| `Descriptors.Descriptors.constructor` | src/cpu/syscall.c:50 | every slot free |
| `Descriptors.Descriptors.AllocFd` | src/cpu/syscall.c:130-144 | the loop takes the lowest free slot and resets it |
| `Descriptors.Descriptors.Open` | src/cpu/syscall.c:298-329 | table, buffers and descriptor are those of the open step, failure paths included |
| `Descriptors.Descriptors.Read` | src/cpu/syscall.c:218-242 | table and bytes are those of the read step |
| `Descriptors.Descriptors.Write` | src/cpu/syscall.c:244-278 | table, buffers and count are those of the write step |
| `Descriptors.Descriptors.Close` | src/cpu/syscall.c:331-368 | table, buffers and volume are those of the close step |

## Left out

- Kalloc.HeapRun: assumes the two arenas stay apart; the kernel does not enforce it, and `BootArenas` says when the first blocks collide.
- Kalloc.InitInv: assumes room for one block header below the first page, as the separation of the arenas needs.
- VirtualMemory.PhysicalMemory.MapPage: assumes a page is left for each table it must allocate, because `vm_alloc_page` has no limit check.
- KernelHeap.KernelHeap.Kalloc: assumes room where the request needs new memory, because neither arena has a limit check.
- Disk.Device.WriteBlocks: null pointers, other sector sizes and driver failures are not modelled.
- CommandStores.InOrderStoreByStore: stores reach the controller in program order.
- ExfatTree.TreeRun: a directory stays within one cluster, as the builder keeps it.
- ExtFile.WriteFile: files of 2^32 blocks or more, where the 32-bit block count wraps, and data blocks that also hold part of the map are not covered.
- ExtTree.DescentIsScan: covers trees whose extents keep to their index keys and end below block 2^32 - 1; malformed trees can make the recursion endless.
- ExfatLookup.ListCluster: covers acyclic directory chains; a cyclic chain without entries never ends.
- ExfatLookup.FindInChain: covers acyclic directory chains, as the listing does.
- ExfatPath.FindRoot: covers volumes whose directories have acyclic chains.
- FdTable.OpenRefines: assumes a root volume is mounted; without one every open fails.
- FdTable.CloseThenReopen: a file is taken as something that reads and overwrites as a whole; `ExfatFiles` and `ExtFiles` relate this to an image, and device errors are not modelled.
- ExfatFiles.RunOnDisk: covers images on which every file a name finds has a chain of its own that the kernel can read.
- ExtFiles.RunOnDisk: covers images on which every file's blocks are all there and belong to it alone; which inode a name stands for is given and does not change.
- ContextSwitch.SavesIffKnown: a create that finds the table full panics in `jump_to_ring3` (src/programs/elf.c); here the run goes on unchanged.
- CommandRing.EveryCommandExecutes: the controller is any one that obeys cycle bits and link TRBs; doorbells and completion events are not modelled.
- Device and port drivers, interrupt set-up and assembly: hardware effects.
- xHCI event polling and device addressing: spin loops over device registers.
- ext and FAT directory lookup, inode and group tables, FAT long names: the file theorems start from the resolved inode or entry.
- Mount-time parsing of boot sectors and superblocks: only the geometry it yields is a parameter; the exFAT partition starts at sector 0 here.
- Wrap-around of vruntime, jiffies and sector numbers.
- Loading of executables, sockets, pseudo-file contents, the console and `last_errno`.
- initramfs, fat12 and iso9660 readers.
- Concurrent callers: the system calls and allocators are modelled as running one at a time.
