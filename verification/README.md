# Verified model of the kernel's memory, tasks and files

A Dafny model of five connected parts of the operating system, with proofs of what they promise each other.
Tasks and heap blocks live on pages, pages live in frames, and files live in clusters.

| part | modules |
|---|---|
| frame bitmap and four-level page tables | `Words`, `PageTables`, `PageSteps`, `PageRanges`, `PageUndo`, `PageUse`, `PageRuns`, `PageBytes`, `Bitmap`, `PageManager`, `LoaderMarks` |
| heap | `HeapBlocks`, `HeapManager`, `HeapRuns` |
| scheduler, stacks and the saved register frame | `TaskRing`, `TaskSystem`, `TaskCycle`, `StackContents`, `TaskManager`, `Registers`, `Preemption`, `TaskSwitching` |
| FAT16 reader | `Disk`, `FileChains`, `FatVolume`, `ReadPlan`, `FatName`, `FatReader` |
| decimal printer and parser | `Strings` |

Each part has two levels. A specification level describes one call as a function on plain values, and the lemmas
about it carry the main results. The code level is imperative, in the form of the C or assembly source: classes
whose methods update fields, arrays and records in place, each proved to produce exactly the specified state
(`PageManager.Paging`, `HeapManager.KernelHeap`, `TaskManager.Scheduler`, `Registers.Cpu`, `Disk.AtaDisk`,
`FatReader.Fat`, and the string methods).

**Paging.** Physical memory is a row of 512 words per frame. All upper tables are reached as the kernel reaches
them: a load or store takes a virtual address and must show that the page tables, as they are at that moment,
lead it to the frame meant. The window is one slot of one table, and `page_getframe` moves it. A ledger that
exists for the proofs only says what each marked frame is for; the invariant ties the ledger to the bitmap and to
what walking the tables finds. Page walks follow section 5.3 of the AMD64 Architecture Programmer's Manual,
Volume 2, and the interrupt frame follows section 8.9 of the same volume.

**Tasks.** `TaskSwitching` puts the scheduler's list and records, the heap, the page tables, the words on the stacks
and the registers into one machine. Its timer tick uses the same functions as the contract of
`Scheduler.IrqTimeHandle`, and each of its actions is shown to be an event of the abstract machine in `Preemption`:
which task is next comes from the list, and that stacks do not overlap comes from the ownership of their pages. The
main theorem, `PreemptedResumesInTime`, joins this to the bound on waiting in `TaskRing`; it holds in every state
reached from `task_init` (`StartGood`, `RunGood`).

**Conditions the code really needs.** Where the code misses what one would expect, the model keeps the code and
proves the exact condition:

- a heap-growing split of a block that is not last destroys the tiling (`CarveTiledIff`, `AllocTiledIff`), and
  ordinary calls can get there (`OverlapIsReachable`);
- with the last block in use and nothing fitting, `new_alloc` never returns (`StuckForever`, `ServedEventuallyIff`),
  and one allocation gets there (`StuckIsReachable`);
- `page_umapv` on an empty entry unmarks frame 0, and on others whatever frame the entry's bit belongs to
  (`UnmapEmptyFreesFrameZero`, `UnmapSparesOthersIff`); for addresses from 128 MiB to 2^47 it stores behind the
  bitmap, to whatever is mapped there (`ClearInsideIff`, `UnmapPlaceIff`, `UnmapConfinedIff`): a task's stack, or
  through the window a page table (`UnmapReachesStack`, `UnmapDropsNeighbour`, `StoreMissesAfterBoot`);
- the loader sets the mark of a frame from 128 MiB up in the frames behind the bitmap, where the page tables are
  (`LoaderPlaceIff`, `LoaderMarkIff`, `LoaderMarkBreaks`); it loads the font wherever the firmware likes, and at
  240 MiB that makes a page table entry of the kernel's present (`FontBreaksTables`);
- `page_alloc4K` overwrites whatever is mapped at the frame's own address (`Alloc4KKeepsLiveIff`,
  `Alloc4KKeepsMappedIff`); both this and the unmarked frame 0 are a call or two away from boot (`AllocDisplacesAfterBoot`,
  `UnmapFreesFrameZeroAfterBoot`);
- flags with bit 7 set make tables the processor takes for large pages (`LeadsToTableIff`);
- the 32-bit tick counter costs one more tick where it wraps (`WrapCostsATick`); the bound of `BoundedWaiting` has
  room for it;
- a new task's frame can be entered by `switch_task` only, not by the interrupt return (`NewFrameNeedsSwitchIff`);
- `fat_read` leaves its buffer when a read straddles one cluster more than its length accounts for, and always
  after a read that ended on a cluster boundary (`PlanStaysInsideIff`, `BoundaryStops`);
- a file name without a dot is looked up in the extension field (`ShortNameIff`), and one with more than three bytes
  behind its first dot is copied past the end of a local array (`StoresInsideIff`, `DotlessOverruns`);
- a file delivers no bytes only if its first cluster is an end mark, so an empty file, and the zeroed entry of a file
  that was not found, deliver at least a cluster (`EntryDeliversNothingIff`, `EmptyFileDeliversACluster`);
- `intstr` prints the least 32-bit value as a lone sign (`RoundTripIff`).

**Callers' obligations** appear as preconditions. Flags are below 0x200, contain PRESENT and leave bit 7 clear.
Ranges avoid the window's page. The loader maps memory below 128 MiB, and pages unmapped are live or have their bit
in the bitmap, clear. Frames suffice: `page_getframe` is modelled for a full bitmap too, but its callers
ignore the 2^64 - 1 it then returns. Heap requests are safe in the sense above and sizes stay below 2^32. Tasks and
interrupt handlers do not write another task's stack page (that the kernel's own page calls do not is proved,
`StackContentsSurvive`), and interrupts find room for a frame on the stack they are taken on. Volumes have 512-byte
sectors and clusters below 64 KiB.

To verify the project: `dafny verify dfyconfig.toml`.

## Model

| member | source | states |
|---|---|---|
| PageSteps.MapPageInv | kernel/page.c:239-289 | one turn of `page_mapv` keeps the whole paging invariant; only the page asked for can change its translation, an empty page gets a frame that was unmarked and is cleared, a mapped page keeps its entry, and the frames taken are the missing tables plus one in both cases |
| PageSteps.MapPhysPageInv | kernel/page.c:368-420 | one turn of `page_mapvp` changes no translation but that of an empty page asked for, and takes frames for tables only |
| PageSteps.Alloc4KInv | kernel/page.c:179-230 | identity allocation maps the lowest unmarked frame, cleared, at its own address, changes no other translation, and marks that frame and new tables only |
| PageSteps.UnmapPageInv | kernel/page.c:302-359 | one turn of `page_umapv` on a page whose bit lies in the bitmap and is its own or clear, or that has no table, empties that page alone, gives back its own memory if it had any, and leaves every table walk as it was |
| PageTables.EnsureTableInv | kernel/page.c:249-277 | creating a missing table through the window keeps the invariant and every translation, and adds exactly one table frame |
| PageTables.TablesAreDistinct | kernel/page.c:249-277 | two different paths of at most three indices never reach the same table frame |
| PageTables.LiveFramesApart | kernel/page.c:124-292 | table frames are marked; the frame of a live page is marked, is no table, and is no other live page's frame |
| PageTables.MarkedCount | kernel/page.c:424-439 | the count of set bits and the count of free frames add up to the size of the bitmap |
| Bitmap.ByteMasks | kernel/page.c:165-177 | bit j of a bitmap byte is mask 1 << j, tested, set and cleared |
| PageTables.TranslateIsWalk | kernel/page.c:232-292 | under the invariant the processor, which reads bit 7 of every upper entry, translates each page exactly as the walk used throughout says |
| PageTables.LeadsToTableIff | kernel/page.c:249-277 | an entry made of a frame and present flags leads the processor on to a table if and only if the flags have bit 7 clear |
| Words.BitOrBits | kernel/page.c:253 | the entry made with `or` from a frame and flags has exactly the bits of both |
| Words.BitsExactly | kernel/page.c:165-177 | bit k of a word is the parity of its quotient by 2^k; setting it adds 2^k if it is clear, clearing it takes 2^k away if it is set |
| PageTables.FrameBits | kernel/page.c:256 | the frame an entry leads the processor to is its bits 12 to 51, whatever stands above and below |
| PageRanges.MapPagesInv | kernel/page.c:232-292 | `page_mapv` refines a flat map: each empty page of the range is then backed by a fresh cleared frame with the given flags, every other page translates as before although tables are created on the way, and frames drop by pages plus tables |
| PageRanges.RangeIsPresent | kernel/page.c:232-292 | after `page_mapv` every page of the range has a present entry |
| PageRanges.MapPagesSplit | kernel/page.c:236-290 | mapping a range in one call is the same as mapping its pages in separate calls |
| PageRanges.MapPhysPagesInv | kernel/page.c:363-422 | `page_mapvp` as a flat-map update: empty pages of the range get consecutive physical pages, all others keep their entries, and the bitmap changes by table frames only |
| PageRanges.UnmapPagesInv | kernel/page.c:294-361 | `page_umapv` on such pages empties exactly the range and unmarks exactly the frames owned by its pages; no table is reclaimed |
| PageRanges.PageAtInjective | kernel/page.c:239-245 | pages of one range are different pages unless it spans the whole 48-bit space |
| PageBytes.MapvInBytes | kernel/page.c:232-292 | after `page_mapv` the page of every byte from `virt` to `virt + length` is present: as it was, or, if it was empty, on a frame that was unmarked, holds zeros, and carries the flags given |
| PageBytes.UmapvInBytes | kernel/page.c:294-361 | after `page_umapv` the page of every byte of the range is empty |
| PageBytes.MapvpInBytes | kernel/page.c:363-422 | after `page_mapvp` a byte `a` of the range whose page was empty is at `phys + (a - virt)` with the flags given; other entries are kept |
| PageBytes.OtherBytesKept | kernel/page.c:232-422 | whichever of the three is called, with any length, a page that holds no byte of the range keeps its entry |
| PageBytes.LoaderInBytes | boot/UEFI/page.c:62-111 | after the loader's mapping every byte of the range is at its distance from `phys`, whatever was there |
| PageBytes.LoaderKeepsOthers | boot/UEFI/page.c:62-111 | and a page that holds no byte of the range keeps its entry |
| PageUndo.UnmapUndoesMap | kernel/page.c:232-361 | mapping an empty range and unmapping it restores every translation; the bitmap then differs from before exactly at the frames of page tables created on the way |
| PageUndo.UnmapEmptyFreesFrameZero | kernel/page.c:337-339 | on a page with a table but an empty entry `page_umapv` clears bit 0, and frame 0 is handed out next |
| PageUndo.ClearInsideIff | kernel/page.c:172-177 | the byte index of `page_clear_bitmap`, cut to 32 bits, stays in the bitmap if and only if it is below 0x1000; below 128 MiB the bit is the frame's own, from there to 2^47 it is outside |
| PageUndo.UnmapPlaceIff | kernel/page.c:337-339 | the store goes through the page tables as they are then; it hits the bit meant if and only if that bit lies in the bitmap |
| PageUndo.PlaceOfByte | kernel/page.c:172-177 | bit `b` of the bitmap is hit in the byte at 0x6000 + b / 8: as a mark in frame 6, and in any other frame as bit `b % 64` of word `b / 64 % 512` |
| PageUndo.WordStored | kernel/page.c:172-177 | outside the bitmap the store takes 2^(b % 64) from the one word, if the bit is set there, and changes no other; the loader's store adds it |
| PageUndo.UnmapConfinedIff | kernel/page.c:312-359 | unmapping changes no memory but the page's own entry, the window slot and the bitmap if and only if the page has no table or the store hits no set bit of another word; with the bit inside the bitmap it never does |
| PageUndo.UnmapDropsNeighbour | kernel/page.c:337-339 | a page mapped to 0x1FEFD0000000 aims the store at the window: unmapping it also unmaps the first page of its table |
| PageUndo.UnmapSparesOthersIff | kernel/page.c:312-339 | for every entry, unmapping leaves every marked frame but the page's own memory marked if and only if the page has no table, is live, or the store hits no set mark, second mappings of the bitmap included; with the bit inside that is the bit addressed |
| PageUndo.Alloc4KKeepsLiveIff | kernel/page.c:179-230 | `page_alloc4K` keeps every live page's entry if and only if the page at the chosen frame's own address is not live: the code stores without looking |
| PageUndo.Alloc4KKeepsMappedIff | kernel/page.c:179-230 | it keeps every mapped page's entry, live or not, if and only if the entry at the frame's own address is empty or already the one it stores |
| PageUse.TablesMadeAreNew | kernel/page.c:249-277 | the frames charged to a mapping for tables are exactly as many as the table frames it adds |
| PageUse.MapPagesUse | kernel/page.c:232-292 | `page_mapv` over n pages raises memory use by 0x1000 for each of the n pages, mapped before or not, and each table frame created |
| PageUse.TablesMadeAtMost | kernel/page.c:249-277 | no page of a range makes the code create more than three tables |
| PageUse.FirstMappingIsLegal | kernel/page.c:232-292 | from boot, any range that avoids the window and takes at most a quarter of the free frames can be mapped: the frame condition of `page_mapv` follows from a count the caller knows |
| PageUse.AllocDisplacesAfterBoot | kernel/page.c:179-230 | reached from boot: mapping page 0x8000 backs it with frame 7, and the next `page_alloc4K` puts frame 8 over it |
| PageUse.UnmapFreesFrameZeroAfterBoot | kernel/page.c:337-339 | reached from boot: unmapping page 0x7000, never mapped, makes frame 0 the next to be handed out |
| PageUse.StoreMissesAfterBoot | kernel/page.c:172-177 | reached from boot: after one `page_alloc4K` and one `page_mapvp` to 0x8000000, unmapping that page would store on the page just allocated |
| PageRuns.BootInv | boot/UEFI/page.c:48-59 | the tables and bitmap the boot loader builds satisfy the invariant and map the first seven frames at their own addresses and nothing else |
| PageRuns.BootMapPagesInv | boot/UEFI/page.c:89-111 | boot-time mapping of physical ranges below 128 MiB, whatever non-live pages they replace, keeps the invariant, maps exactly the pages asked for, marks their frames, and makes no page live |
| PageRuns.BootMapPagesLow | boot/UEFI/page.c:89-111 | those mappings leave the identity region to identity allocation |
| PageRuns.LoaderPlaceIff | boot/UEFI/page.c:107-109 | the loader's mark, with its 64-bit index, is the frame's own bit in the bitmap if and only if the frame is below 0x8000 |
| PageRuns.LoaderMarkIff | boot/UEFI/page.c:107-109 | setting it leaves every word of memory as it was if and only if the frame is below 0x8000, the byte lies beyond the memory modelled, or the bit was set |
| PageRuns.LoaderMarkBreaks | boot/UEFI/page.c:107-109 | a mark that falls on the PRESENT bit of an absent entry of an upper page table breaks the invariant, for every frame number and every state |
| LoaderMarks.FontBreaksTables | boot/UEFI/main.c:99-130 | from boot, a page of the kernel image and then a font at 240 MiB: the font's mark makes entry 448 of the image's first table present |
| PageRuns.RunInv | kernel/page.c:124-422 | every legal sequence of page calls keeps the invariant |
| PageRuns.TablesFormTree | kernel/page.c:124-422 | after any legal run from boot: table frames are marked and pairwise distinct, frames of live pages are marked, pairwise distinct and never tables |
| PageRuns.PermittedIsLegal | kernel/page.c:179-230 | a run that maps no fresh memory in the identity region never has identity allocation displace a live page, so each of its calls is legal |
| PageManager.Paging.Boot | boot/UEFI/page.c:18-59 | the boot loops leave exactly the boot tables and seven marks |
| PageManager.Paging.KernelMapPagePhysical | boot/UEFI/page.c:62-111 | the boot loop performs the boot-time range mapping below 128 MiB; in bytes: every address of the range is at its distance from `phys`, and a page with none of those bytes keeps its entry |
| PageManager.Paging.MapPagePhysical | boot/UEFI/page.c:91-110 | the loop body for every physical address: path, entry and mark end in the specified state, which keeps the invariant when the frame has a bit in the bitmap |
| PageManager.Paging.LoaderMark | boot/UEFI/page.c:107-109 | the store sets the one bit addressed, in the bitmap or in the frame behind it |
| PageManager.Paging.PageGetframe | kernel/page.c:124-146 | scanning bytes then bits claims and clears the lowest unmarked frame, or returns 2^64 - 1 and changes nothing |
| PageManager.Paging.PageMapframe | kernel/page.c:148-153 | points the window slot at a frame and changes nothing else |
| PageManager.Paging.PageMapv | kernel/page.c:232-292 | the loop through the window, which `page_getframe` itself moves, ends in the state of the flat range step; in bytes: the page of every address from `virt` to `virt + length` is present afterwards, and a page with none of those bytes keeps its entry |
| PageManager.Paging.PageMapvp | kernel/page.c:363-422 | the loop through the window ends in the state of the physical range step; in bytes: an address `a` of the range whose page was empty is at `phys + (a - virt)` with the flags, and a page with none of those bytes keeps its entry |
| PageManager.Paging.PageAlloc4K | kernel/page.c:179-230 | ends in the state of the identity-allocation step and returns the lowest frame that was unmarked |
| PageManager.Paging.PageUmapv | kernel/page.c:294-361 | the loop ends in the state of the unmapping step, page by page; in bytes: the page of every address of the range is empty afterwards, and a page with none of those bytes keeps its entry |
| PageManager.Paging.PageClearBitmap | kernel/page.c:172-177 | clears the one bit addressed, wherever the page tables lead the store: a mark of the bitmap, a word of another frame, or a fault |
| PageManager.Paging.PageGetSizeMemoryUse | kernel/page.c:424-439 | with its shortcut for full bytes, returns 0x1000 times the number of set bits |
| HeapBlocks.Ordered | kernel/alloc.c:7-11 | tiled blocks lie in address order without overlap |
| HeapBlocks.SizesAddUp | kernel/alloc.c:17-143 | in a tiled heap the block sizes add up to `heap_size` and each is at least the header size |
| HeapBlocks.CarveTiledIff | kernel/alloc.c:40-81 | handing out a block breaks the tiling if and only if 17 bytes or more would remain of it, it is not the last, and twice the requested size from its start passes the heap's end |
| HeapBlocks.NewAllocExactly | kernel/alloc.c:40-81 | the heap `new_alloc` leaves, in numbers: the first block of size + 17 bytes after the retries is handed out whole if fewer than 17 would remain, and else cut into two stated blocks; `heap_size` grows by 0x1000 exactly when twice that size from its start passes the heap's end, and the rest then reaches to the new end |
| HeapBlocks.GrownExactly | kernel/alloc.c:92-97 | the heap after the retries: the last block and `heap_size` larger by the least number of pages that make something fit, nothing else changed |
| HeapBlocks.FirstRequest | kernel/alloc.c:57-81 | the first descriptor from a fresh heap: blocks of 65 and 0x1000 - 65 bytes, and `heap_size` stays 0x1000 |
| HeapBlocks.OverlapsExactly | kernel/alloc.c:57-71 | the split that overlaps, free of 32-bit words and named predicates |
| HeapBlocks.AllocTiledIff | kernel/alloc.c:29-98 | the same numbers for the block a whole request picks, decided before the call, retries included, are exact |
| HeapBlocks.OverlapIsReachable | kernel/alloc.c:57-71 | five ordinary calls reach a heap where a request breaks the tiling: the block split off runs over the block in use behind it |
| HeapBlocks.RetrySucceedsAtTail | kernel/alloc.c:92-97 | when nothing fits and the last block is available, the request is served by the last block after exactly ceil((size + 17 - tail size) / 0x1000) extensions |
| HeapBlocks.FirstFitServed | kernel/alloc.c:34-90 | when some block fits, the first one in address order is handed out |
| HeapBlocks.StuckForever | kernel/alloc.c:92-97 | when nothing fits and the last block is in use, no number of extensions makes anything fit |
| HeapBlocks.ServedEventuallyIff | kernel/alloc.c:84-97 | some number of extensions makes something fit if and only if something fits already or the last block is available |
| HeapBlocks.StuckIsReachable | kernel/alloc.c:92-97 | one allocation of a whole page from `init_alloc` reaches a heap in which no further request is ever served |
| HeapBlocks.FreeTiled | kernel/alloc.c:100-115 | freeing keeps the tiling |
| HeapBlocks.FreeMerges | kernel/alloc.c:100-115 | the freed block reaches to the end of its successor if that was available and to its own end otherwise; all other blocks keep their places |
| HeapBlocks.FreeOrderMatters | kernel/alloc.c:100-115 | two neighbours in use become one block when the upper one is freed first and stay two when the lower one is: the branch that would merge backward never runs |
| HeapBlocks.NewAllocInUse | kernel/alloc.c:29-98 | allocation adds exactly one block in use, with at least the requested bytes behind its header, and neither moves nor shrinks any other |
| HeapBlocks.FreeInUse | kernel/alloc.c:100-115 | freeing removes exactly that block from those in use and leaves the others where they are |
| HeapBlocks.PayloadsApart | kernel/alloc.c:29-143 | payloads of two blocks in use are disjoint and inside the heap |
| HeapBlocks.CallsKeepTiling | kernel/alloc.c:17-143 | every run of safe calls from `init_alloc` keeps the tiling |
| HeapManager.KernelHeap.Init | kernel/alloc.c:17-27 | one available block over one mapped page |
| HeapManager.KernelHeap.Search | kernel/alloc.c:32-90 | the walk along the links stops at the first block that fits, or ends with the last block in `end_heap` |
| HeapManager.KernelHeap.TakeBlock | kernel/alloc.c:40-81 | the header writes, 32-bit sizes included, leave headers linked as the carved block list |
| HeapManager.KernelHeap.ExtendTail | kernel/alloc.c:92-96 | one page is mapped behind the heap and given to the last block |
| HeapManager.KernelHeap.NewAlloc | kernel/alloc.c:29-98 | the recursive method terminates, leaves the specified block list, returns the specified pointer, and has mapped one page for each page of growth |
| HeapManager.KernelHeap.FreeAlloc | kernel/alloc.c:100-115 | leaves the specified block list: forward merging only |
| HeapRuns.RunSysInv | kernel/alloc.c:17-143 | under any allowed mix of heap and page calls the heap stays tiled and every one of its pages stays mapped |
| HeapRuns.HeapStaysTranslated | kernel/alloc.c:17-98 | after any such run each address from `heap_start` to `heap_start + heap_size` is translated by the page tables |
| HeapRuns.NewHeapInBytes | kernel/alloc.c:60-96 | each byte a request adds to the heap lies on a present page; one that was empty is then on an unmarked frame with flags 3 |
| TaskRing.RunSound | kernel/process/task.c:33-126 | in every reachable list addresses are distinct, ids increase, the kernel task is first and never removed, and every task but the current one has RUNNING set |
| TaskRing.TickSound | kernel/time.c:12-21 | a tick keeps that; only a task other than the kernel task can be reaped |
| TaskRing.TickDistance | kernel/time.c:12-21 | a tick that switches brings every waiting task exactly one step nearer, whether the current task is reaped or not; other ticks change nothing |
| TaskRing.EventuallyCurrent | kernel/process/task.S:11-43 | a waiting task becomes current after as many switching ticks as its distance plus the creations meanwhile, even if other tasks exit and are reaped |
| TaskRing.SkippedClosed | kernel/time.c:12-14 | closed form for the ticks that do not switch, the wrap of the 32-bit counter included |
| TaskRing.WrapCostsATick | kernel/time.c:12-14 | a concrete counter value at which, for the wrap, n + ceil(n / 999) ticks switch only n - 1 times; `BoundedWaiting` holds all the same because no distance exceeds N - 1 |
| TaskRing.BoundedWaiting | kernel/time.c:12-21 | every listed task that does not exit becomes current within N + ceil(N / 999) ticks, N counting tasks and creations, at every value of the counter |
| TaskSystem.CreateKernelInv | kernel/process/task.c:33-114 | task creation gives the task a descriptor block and an identity-mapped stack page of its own and keeps the whole kernel invariant |
| TaskSystem.NewTaskExactly | kernel/process/task.c:33-47 | the task created is behind all others with the next id and RUNNING; its record is a block in use, its 48 bytes behind the 17 of the header, and its stack page is aligned and mapped to itself with flags 3 |
| TaskSystem.ReapKernelInv | kernel/process/task.S:130-193 | reaping frees exactly that task's descriptor and stack and keeps the invariant for all others |
| TaskSystem.RunKernelInv | kernel/time.c:12-21 | every run of creations, exits, ticks and respectful heap or page calls keeps the kernel invariant |
| TaskSystem.StacksStayOwned | kernel/process/task.c:39-47 | in every reachable state stack pages of different tasks are different marked frames, each translating to itself |
| StackContents.StackContentsSurvive | kernel/page.c:124-422 | over every run, creations, ticks, reaping and other heap and page calls leave each word of a stack page as it was for as long as a task has it |
| StackContents.UnmapReachesStack | kernel/page.c:172-177 | the condition on unmapped pages is needed: with a stack on frame g, unmapping a page mapped to the (g - 6)-th 128 MiB, 0x80000000 for frame 0x16, clears a bit on that stack |
| StackContents.ReapShutsWindow | kernel/process/task.S:184-187 | a tick that reaps leaves the window mapped to nothing, so a page call it interrupted would fault at its next store |
| TaskCycle.CreateExitReap | kernel/process/task.S:184-191 | a task that is created, comes round, exits and is reaped leaves the same task list, the same heap blocks in use, every translation but those of heap growth, and new marks for page tables and that growth only |
| TaskSystem.StartInv | kernel/process/task.c:18-27 | `init_alloc` and `task_init` establish the kernel invariant on any page tables that keep to the identity region |
| TaskSystem.BootKernelInv | kernel/process/task.c:18-27 | from the boot state, with any heap address above the identity region, `init_alloc` and `task_init` establish the kernel invariant; frames always suffice |
| TaskSystem.LoadedKernelInv | kernel/kernel.c:22-44 | from the boot tables through whatever the loader maps below 128 MiB (kernel image, stage code, fonts) and page calls made before the heap exists (the framebuffer, anywhere), `task_init` and `init_alloc` establish the kernel invariant |
| TaskManager.Scheduler.TaskInit | kernel/process/task.c:18-27 | the initial record, written out, and the globals stand for the one-task list, with the kernel's own stack pointer |
| TaskManager.Scheduler.TaskCreate | kernel/process/task.c:33-114 | allocations, record and link leave exactly the specified kernel state; every word of the new record is stated: the old next id, its stack page, the stack pointer 0xD8 below its top, RUNNING, no signal, no successor; every other record keeps its stack pointer |
| TaskManager.Scheduler.TaskExit | kernel/process/task.c:116-123 | for a task with an id other than 0 the record of the current task, and no other, has the signal given and flags without RUNNING afterwards and every other field kept; for the kernel task nothing changes |
| TaskManager.Scheduler.SwitchTask | kernel/process/task.S:11-43 | stores the stack pointer in the record of the task left, changes no other, and returns the one held by the next link, or by the kernel task at the end |
| TaskManager.Scheduler.FindPrevious | kernel/process/task.S:142-170 | the predecessor search finds the predecessor and never reaches its halt |
| TaskManager.Scheduler.TaskRemove | kernel/process/task.S:130-193 | relinks, unmaps the stack, frees the descriptor and moves on, exactly as specified; no record's stack pointer changes, and the one resumed from was saved before |
| TaskManager.Scheduler.IrqTimeHandle | kernel/time.c:12-21 | the counter goes up by one in 32 bits; at a multiple of 1000 nothing else changes; otherwise the next link, or the kernel task at the end, becomes current and its stack pointer is resumed from, the interrupted one being stored in the record left unless that task has exited and is reaped |
| Registers.InterruptSaves | kernel/cpu/idt.asm:3-56 | the frame an interrupt leaves restores to exactly the interrupted registers, by either path |
| Registers.PathsAgree | kernel/cpu/idt.asm:36-56 | when the rsp slot holds the address above it, `pop rsp` and skipping the slot restore the same registers |
| Registers.NewFramePopped | kernel/process/task.c:62-87 | popped by the interrupt return instead, the frame built for a new task takes rip, rsp and the rest from the words at addresses 0 to 0x88, whatever the entry address is |
| Registers.NewFrameNeedsSwitchIff | kernel/process/task.c:81 | `switch_task` enters a new task at its address; the popping path does if and only if the word at 0x68 happens to be that address |
| Registers.NewFrameEnters | kernel/process/task.c:62-87 | the first switch to a new task enters its address with flags 0x202 on its own stack page |
| Registers.Cpu.IrqEntry | kernel/cpu/idt.asm:95-127 | the push sequence leaves exactly the 27-word frame below the aligned stack pointer |
| Registers.Cpu.PopX64 | kernel/cpu/idt.asm:36-56 | the pop sequence restores the registers the popping path is specified to |
| Registers.Cpu.SwitchRestore | kernel/process/task.S:45-67 | the pop sequence that skips the rsp slot restores the registers the switching path is specified to |
| Registers.FrameLayout | kernel/cpu/idt.asm:3-34 | every word of the interrupt frame at its address: ss at the aligned top - 8 down to cr4 at the aligned top - 0xD8 |
| Registers.NewFrameLayout | kernel/process/task.c:62-87 | every word of a new task's frame at its distance from the top of its page |
| Preemption.NextOrderly | kernel/process/task.S:11-67 | work, interrupts, switches, reaping and creation all keep every waiting task's frame intact |
| Preemption.HandledResumes | kernel/cpu/idt.asm:95-105 | an interrupt that returns to the same task leaves all its registers as they were |
| Preemption.SwitchResumes | kernel/process/task.S:101-128 | a switch or the reaper resumes the chosen task with the registers it was preempted with |
| Preemption.PreemptedTaskResumes | kernel/process/task.S:11-67 | preempted, then resumed after any run in which it did not itself run, a task has exactly the general registers, rip, rsp and rflags it had |
| TaskSwitching.StacksApart | kernel/process/task.c:39-47 | the stack areas of different tasks never overlap, the kernel task's included: derived from the ownership of stack pages |
| TaskSwitching.ActionRefines | kernel/time.c:12-21 | each action of the whole machine, kernel state and task records included, is an event of the preemption machine: ticks that switch, reap or only count, creation of a task with its first frame, and every other call |
| TaskSwitching.RunGood | kernel/process/task.S:11-67 | over every run the kernel invariant holds and each waiting task's frame is intact on its stack, where its record points |
| TaskSwitching.PreemptedResumesInTime | kernel/time.c:12-21 | a task interrupted by a switching tick runs again within N + ceil(N / 999) ticks, whatever runs, exits, is created and is reaped meanwhile, and the first time it does it has every register it was interrupted with |
| TaskSwitching.CreatedStartsInTime | kernel/process/task.c:33-114 | a new task runs within the same bound, and starts at its entry address with flags 0x202, the six values given, and the stack pointer in its own page |
| Disk.AtaDisk.StartRead | kernel/fs/disk.asm:4-34 | the 28 address bits sent through four registers select the addressed sector |
| Disk.AtaDisk.ReadDisk | kernel/fs/disk.c:8-36 | the caller's buffer receives one slice of the disk, across sectors; an offset past the sector is cut to its end |
| FatVolume.Geometry | kernel/fs/fat.c:76-79 | on a mounted volume none of the 32-bit geometry computations wraps, and they give the areas in order: table, root directory, then data, at the sectors the header fields say |
| FatVolume.EntryInSector | kernel/fs/fat.c:139-147 | word c % 256 of the table's sector c / 256 is entry c of one flat table |
| FatVolume.TableInBytes | kernel/fs/fat.c:139-147 | entry c of the flat table is the byte at 512 * (lbaStart + reservedSector) + 2 c plus 0x100 times the one behind it |
| FatVolume.SectorInCluster | kernel/fs/fat.c:216-221 | the computed block is the i-th sector of cluster c, on the disk, with no wrap-around |
| FatVolume.DataClusterAt | kernel/fs/fat.c:216-221 | data clusters lie on the disk, one behind the other from sector `lbaStart + reservedSector + fatNumber * sectorPerFat + rootDirEntries / 16` on |
| FatVolume.ClusterInBytes | kernel/fs/fat.c:216-221 | byte j of cluster c is the disk's byte at 512 * (lbaStart + reservedSector + fatNumber * sectorPerFat + rootDirEntries / 16 + (c - 2) * sectorPerCluster) + j |
| FatVolume.FindsOne | kernel/fs/fat.c:98-114 | a search of the root directory has one answer |
| FatVolume.EntryInBytes | kernel/fs/fat.h:49-62 | the fields of root entry k from the bytes of the disk, each at its offset, words low byte first |
| FatVolume.FoundInBytes | kernel/fs/fat.c:98-114 | the search answers with those fields of the first of 16 * (rootDirEntries / 16) entries whose eleven bytes are the name, or with zeros when none is |
| FileChains.EndsIffAcyclic | kernel/fs/fat.c:213-224 | following the table from a sane cluster reaches an end mark if and only if no cluster is met twice |
| FileChains.ChainIsShort | kernel/fs/fat.c:213-224 | a chain that ends has at most 0xFFF8 clusters, all distinct |
| FileChains.ReadSectorsIsContents | kernel/fs/fat.c:280-297 | repeated `fat_readSector` delivers the concatenation of the chain's clusters, passes 0xFFF8 after exactly as many reads as there are clusters, and then delivers nothing |
| FileChains.ContentsAt | kernel/fs/fat.c:227-278 | the file bytes inside one cluster are the corresponding bytes of that cluster |
| FileChains.DeliversNothingIff | kernel/fs/fat.c:206-225 | a chain delivers no bytes if and only if its first cluster is an end mark |
| FatVolume.EntryDeliversNothingIff | kernel/fs/fat.c:213-224 | whatever its size field says, an entry delivers nothing if and only if its first cluster is an end mark; the zeroed entry of a search that failed delivers something |
| FileChains.EmptyFileDeliversACluster | kernel/fs/fat.c:206-225 | an empty file names cluster 0; with an end mark in entry 0 a whole cluster is delivered for it |
| ReadPlan.PlanStaysInsideIff | kernel/fs/fat.c:234-270 | every copy of `fat_read` stays inside its one-cluster buffer if and only if the read is empty or offset + size <= (size + S - 1) / S * S |
| ReadPlan.BoundaryStops | kernel/fs/fat.c:255 | after a read that ends on a cluster boundary the offset is S, and no non-empty read from there stays inside the buffer |
| FatReader.Fat.constructor | kernel/fs/fat.c:60-62 | the six header fields are the bytes 11 to 17 and 22 of the partition's first block, words low byte first |
| FatReader.Fat.GetNextCluster | kernel/fs/fat.c:139-147 | returns the flat table's entry, for any entry the table has |
| FatReader.Fat.ReadFile | kernel/fs/fat.c:206-225 | terminates on every chain that ends and stores the concatenation of its clusters, nothing else |
| FatReader.Fat.ReadSector | kernel/fs/fat.c:280-297 | delivers the cluster and advances, or does nothing at an end mark |
| FatReader.Fat.Read | kernel/fs/fat.c:227-278 | from position p, within the non-straddle condition, delivers exactly the file's bytes p to p + size and leaves the handle at p + size, over any number of clusters; the copies it makes are exactly those of the plan |
| FatReader.Fat.FindFile | kernel/fs/fat.c:74-133 | for a path of one component: the first root entry whose eleven bytes are the converted name, or a zeroed entry; its fields are stated by the bytes of the disk |
| FatReader.Fat.FileOpen | kernel/fs/fat.c:149-170 | the handle at the start of the entry found, ready for a read, or marked for a directory; the first cluster is stated by bytes 26, 27, 20 and 21 of the entry on the disk, the directory bit by byte 11 |
| FatName.ConvertName | kernel/fs/fat.c:27-57 | for every name: the buffer receives the eleven converted bytes and keeps the rest of the upper-cased string, the extension loop stores at exactly the listed indices, and what it stores behind its array is stated |
| FatName.ShortNameOf | kernel/fs/fat.c:27-57 | a valid 8.3 name becomes its upper-cased base and extension, each padded with spaces |
| FatName.ConvertedInBytes | kernel/fs/fat.c:27-57 | for every name each of the eleven bytes: those before the first 0x2E upper-cased in the first eight, those behind it in the last three, and 0x20 elsewhere |
| FatName.ConvertAlikeIff | kernel/fs/fat.c:27-57 | two valid names convert alike if and only if they are equal ignoring case |
| FatName.StoresInsideIff | kernel/fs/fat.c:53-54 | the extension loop stays inside its array if and only if at most three bytes lie behind the first dot |
| FatName.DotlessOverruns | kernel/fs/fat.c:53-54 | a name of four bytes without a dot stores behind the array |
| FatName.ShortNameIff | kernel/fs/fat.c:31-54 | a name whose parts fit their fields is converted to its padded short name if and only if it has a dot |
| Strings.StrRev | kernel/string.c:61-71 | the string is reversed in place and the rest of the buffer untouched |
| Strings.StrUpper | kernel/string.c:31-38 | bytes 0x61 to 0x7A become 0x41 to 0x5A in place and nothing else changes |
| Strings.IntStr | kernel/string.c:72-91 | the buffer holds the decimal numeral, sign first; the least value prints as a lone sign |
| Strings.PrintedInBytes | kernel/string.c:72-91 | a printed value is a 0x2D if it is negative, then bytes 0x30 to 0x39 whose sum of (c - 0x30) * 10^k is its magnitude, with no 0x30 first unless it is zero; the least value is a lone 0x2D |
| Strings.StrInt | kernel/string.c:116-137 | the value read in 32-bit arithmetic |
| Strings.ParsedInBytes | kernel/string.c:116-137 | on bytes 0x30 to 0x39 whose sum of (c - 0x30) * 10^k is below 2^31 the value read is that sum, and its negation after a 0x2D |
| Strings.WrapsByWords | kernel/string.c:127-133 | the 32-bit arithmetic used: the result differs from the true value by a multiple of 2^32 and lies in the signed range |
| Strings.DigitsReverse | kernel/string.c:78-90 | digits emitted low first and then reversed are the decimal numeral |
| Strings.NoOverflow | kernel/string.c:127-133 | parsing a printed magnitude never leaves the 32-bit range at any step |
| Strings.RoundTripIff | kernel/string.c:72-137 | `strint( intstr( v ) ) == v` if and only if v is not the least 32-bit value |
| Strings.PrintedInjective | kernel/string.c:72-91 | different values print differently |

## Left out

- Terminal, video, fonts, `printf`, serial output and keyboard: they would add easy members only.
- Port handshakes: the busy-wait on the ATA status port, the interrupt controller, PS/2 and GDT loading are hardware.
- UEFI firmware calls: `AllocatePages` and `SetMem` are taken to succeed, and the boot-time frame search is modelled without the firmware's own allocator.
- `fat_seek` and the ELF loader: the seek loop stores a cluster before advancing, so reading after a seek is wrong past the first cluster, and the loader rests on it.
- Paths with several components: only the root directory is ever searched, and a leading slash converts an uninitialised name.
- `fat_readFile_map`, `gpt_get_lba_start_volume` and the extended boot record: near-copies, or values passed in (the partition's first block is a parameter).
- `ata_write_disk`: unused, ignores its offset and counts words for bytes.
- The drive's answer to a read past its last block: the error is not part of this model.
- Clusters whose place in the data area is not on the disk: a read there is the drive's error.
- Argument passing to new tasks: the order pushed differs from the order read; the six values are arbitrary in the model.
- System calls and user space: thin wrappers over the modelled functions.
- `page_create`, `page_setPMLT4` and several address spaces: not in use. Translation caching is not modelled; the window's `invlpg` has nothing to invalidate.
- `boot/stage`, `boot/stage64` and `shared/sources`: discontinued or near-copies.
- What `task_remove` prints, and the endless loop at the end of `task_exit`.
- `heap_end`: written but never read.
- PageManager.Paging.PageMapvp: at most 0x80000 pages, because `i * PAGE_SIZE` is a signed 32-bit product.
- PageManager.Paging.PageUmapv: at most 0x80000 pages for the same reason, and pages that have no table, are live, or whose bit lies in the bitmap and is clear; `UnmapSparesOthersIff`, `UnmapConfinedIff` and the lemmas beside them say what happens on others, and the framebuffer is usually one of them.
- PageSteps.UnmapPageInv: the same condition on the page.
- PageManager.Paging.PageClearBitmap: a store that faults ends the call; what the fault handler does is not part of this model, nor is memory above 128 MiB.
- PageManager.Paging.PageMapv: the same product is within range because every page takes a frame and there are 0x8000.
- PageManager.Paging.PageAlloc4K: requires that the frame's own page is not live, the exact condition of `Alloc4KKeepsLiveIff`.
- PageManager.Paging.KernelMapPagePhysical: requires frames below 0x8000, the exact condition of `LoaderPlaceIff`, and that no page is live or one of the three through which the kernel reaches its tables, because the boot code overwrites entries without looking.
- PageManager.Paging.Boot: the bitmap bytes are an array beside the frames rather than bytes of frame 6, and are accessed directly; that frame 6 stays mapped and reserved is part of the invariant.
- HeapManager.KernelHeap.TakeBlock: requires a split that is not overlapping, the exact condition of `CarveTiledIff`.
- HeapManager.KernelHeap.NewAlloc: requires a request that is served without an overlapping split, the exact conditions of `ServedEventuallyIff` and `AllocTiledIff`; block headers are records found by address; their bytes inside heap pages are not modelled, so a caller that writes outside its payload is not either.
- HeapManager.KernelHeap.FreeAlloc: the loop for other predecessors is omitted because `prev_block` has just been set to `heap_start`, so it never runs.
- FatName.ConvertName: `locals` stands for the stack from the local array on; what else lives there is not part of this model.
- FatReader.Fat.FindFile: requires a path of 1 to 63 bytes without a slash and with at most three bytes behind its first dot, the exact condition of `StoresInsideIff`; the name buffer has 64 bytes, and an empty path converts an uninitialised name.
- FatReader.Fat.Read: requires the non-straddle condition of `PlanStaysInsideIff`; beyond it the code reads behind its buffer.
- Disk.AtaDisk.ReadDisk: requires the slice to lie on the disk, and offsets below 2^31 because the loop counter is a signed 32-bit integer.
- TaskManager.Scheduler.TaskCreate: the frame pushed on the new stack is written by the `Create` action of `TaskSwitching`, beside the record that points to it.
- Memory in `TaskSwitching` is by virtual address; that a stack page keeps its translation and its contents is proved beside it (`StacksStayOwned`, `StackContentsSurvive`), and a second mapping of a stack's frame is the caller's to avoid.
- Interrupts inside kernel calls: heap calls, page calls, task creation and list updates are single steps in every run. The code does not mask ticks there, and a tick that reaps inside `page_mapv` shuts the window (`ReapShutsWindow`).
- Undefined behaviour of C: signed overflow of `value * -1` in `intstr` is taken to wrap.
