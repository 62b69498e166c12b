# lucidiOS memory manager, verified in Dafny

lucidiOS keeps physical pages in a bitmap, maps virtual pages through four levels of page tables, and
serves `kmalloc` from a second bitmap over a mapped window. This project models those three layers, the
part of `kmain` that stacks them, the ACPI search for the I/O APIC, and the byte moving and serial printing
helpers, and proves what they guarantee over all inputs and all runs.

`dafny verify dfyconfig.toml` checks everything.

| file | contents |
|---|---|
| `Words.dfy` | 64-bit words; bitwise and, or, not and shifts, proved digit by digit |
| `Bitmap.dfy` | bitmaps packed into 64-bit words, and the set of marked pages they stand for |
| `PagePool.dfy` | the first-free page allocator over sets, and runs of allocations |
| `MemoryMap.dfy` | the bootloader's memory map, the size and place of the page bitmap, what starts free |
| `PageTables.dfy` | translation, the tree of tables, and the exactness of mapping one page |
| `MappingRuns.dfy` | runs of allocations and mappings; exactly when one mapping does what it is for |
| `TableNeed.dfy` | how many tables a second mapping still lacks |
| `Exhaustion.dfy` | what a call does to translations when nothing is free |
| `DirectMap.dfy` | loads and stores through the tables; the mapper with every access through the direct map |
| `Boot.dfy`, `BootLimits.dfy` | the device pages and the 512-page heap loop of `kmain`, and what exactly they need |
| `HeapWindow.dfy` | what the heap loop does where its window overlaps the direct map or lies in a large page |
| `Heap.dfy`, `HeapRuns.dfy` | `kmalloc` and `kfree`, and their safety over every run |
| `HeapMemory.dfy` | the heap's words and its bitmap reached through the page tables: the separation theorem |
| `HeapOverrun.dfy` | what the heap does to a page table that lies in its bitmap |
| `Kernel.dfy` | initialisation, bring-up and heap composed, from the memory map to the last payload byte |
| `MemoryManager.dfy` | the class that changes the page bitmap and the tables in place, as `mm.c` does |
| `Madt.dfy` | the RSDT search and the MADT record walk |
| `ByteMemory.dfy`, `Serial.dfy` | `memmove`, `memcmp`, numbers and formatted printing |

## How the model is built

The C globals are fields of classes: `MemoryManager.Manager` holds the page bitmap (an array) and physical
memory (a map from frame numbers to tables of 512 words that its methods reassign), `Heap.KernelHeap` holds
the heap bitmap and the words of the heap window, `Madt.Acpi` the ACPI globals, `Serial.Port` the text
written so far. Each method is proved against a function on values, and the theorems are about those
functions. The functions for paging read entries with arithmetic on bit fields, as the Intel manual
describes them (SDM volume 3A, section 4.5); that the masks and shifts of the source compute the same is
proved in `PageTables` and `Words`. `Translate` is written independently of the mapper and knows 2 MiB and
1 GiB pages, which the mapper does not.

The source reaches every table, every page it clears and the heap bitmap at their physical addresses plus
`g_hhdm_offset`, through the very tables it is changing. `DirectMap` models those loads and stores: they go
through `Translate` and may fault, and a fault does not come back (`src/interrupts.c:50-54`). The methods of
`Manager` are proved against these functions for every content of memory, whether its tables are direct-mapped or
not; while the direct map holds, they are proved equal to the functions on physical frames. The page bitmap is the
exception: it is an array that stands for the bytes at its address and never faults. `PageBitmapReached` justifies
this for the machines that `KernelReady` describes: there each of its words is reached where it lies, in all states
that `kmain` and the heap go through.

The main results, bottom up:

* the allocator returns the lowest free page of its scan window; any run of it hands out every free page
  of the window once, in increasing order, and then only 0;
* `vmm_alloc` installs exactly the page it was asked for, leaves every other translation alone and keeps the
  tree of tables sound, if and only if no large page is on the path and the pool has a page for each missing
  table;
* over any run of allocations and mappings no table is shared, overwritten or handed out;
* with its tables, the free pages and the bitmaps direct-mapped, and the pages it maps apart from the direct
  map, the bring-up of `kmain` faults nowhere, goes nowhere astray and leaves the direct map standing; the two
  device pages then reach the frames the devices are in, and the heap's 512 pages as many frames that were free;
* the heap bitmap is the union of the live allocations over any run of `kmalloc`, `kfree` and payload
  writes, and its number of set bits is the sum of the live block counts;
* `KernelHeapIsSeparate`: from the memory map through initialisation and bring-up to any run of the heap inside
  the mapped window, no access faults, and payload bytes of live allocations at distinct addresses are distinct
  physical bytes in usable memory, outside page 0, the page bitmap, all sixteen frames of the heap bitmap and
  all page tables. `KernelReadyExample` is a memory map and a machine that meet its conditions;
* on the bytes of an RSDT and a MADT the walk finds the first I/O APIC's address and undoes their encoding;
  `kprintf` prints any message of literal pieces and arguments as the one text it can be.

## Where the code falls short of its intention

The model follows the code; each of these is a lemma.

* **Exhaustion.** `vmm_alloc` does not check for the 0 that `pmm_alloc2` returns when nothing is free
  (`src/mm.c:52`, `60`, `66`) and then uses frame 0 as a table. `MapPageKeepsTreeIff` gives the exact
  condition, `FullPoolExample` an instance. With one table missing such a call still maps its page, and the next one
  takes it away again (`SecondExhaustedCallDestroysFirst`). With two or three, frame 0 is several tables at once and
  the page is mapped only if its entries in them do not collide: `ExhaustedCallMapsIff` is exact (`ShortCallMapsIff` for
  a pool that runs out on the way), and for the first heap page of `kmain` it says no (`FirstHeapPageExample`). `kmain` ignores the 0 as well (`src/main.c:122`);
  `HeapLoopIff` says exactly when its loop backs the heap, `BootNeedIsExact` how many pages the bring-up takes.
* **Scan window.** The bitmap's length counts words, but the scan stops at length / 64 words
  (`src/mm.c:26`, `195`). `UnscannedPagesAreNeverTaken` and `ExhaustedWithFreePageExample`.
* **Heap bitmap.** One page is reserved and sixteen are cleared and used (`src/mm.c:148-150`).
  `HeapBitmapIsOverrunIff` says exactly when the next page taken lies inside the heap bitmap,
  `HeapBitmapOverrunExample` that this happens in plain free memory, and `TakenPagesAreApart` when it does not.
  `TableLandsInBitmap`: the next table made then lies in the bitmap; its entries read as set blocks
  (`EntryReadsAsBlocks`), and a heap operation that marks such a block maps or unmaps a page (`MarkingBlockRemapsPage`).
  The clearing can also wipe the page bitmap: `WipeSparesBitmapIff` says when it does not, and in
  `PageBitmapWipedExample` it makes every page look free, page 0 included.
* **Large pages.** `vmm_alloc` ignores the page-size bit. `MapPageInstallsIff` is the exact condition: with a large
  page on the path the call never does what it is for. `LargePageLosesRequest`: where the large page does not begin
  with the kernel's own tables, no translation changes and data is overwritten. `LargePageExample` is an instance.
* **Heap window.** `HEAP_VIRT_START` is a constant and the direct map's place is the bootloader's choice.
  `LoopKeepsDirectMapIff`: the heap loop costs the kernel exactly the pages whose direct-map address lies in the window;
  where both start together these are the first 512 frames (`LoopOverDirectMapIff`, and `FirstFramesLost` for the whole
  bring-up). In `HeapBitmapLostExample` `kmain` runs through and leaves `kmalloc` reading its bitmap from a frame of the
  heap. Where the direct map uses large pages there, all 512 requests are lost and no address changes its translation
  (`LargeWindowLosesAll`): the heap's words are then the memory that the large page maps. `HeapOverDirectMapIff` and
  `DirectMapSurvivesIff` treat one round and one mapping, `OffHeapWindowIff` says which frames must not be in use.
* **Unmapped heap.** The heap bitmap covers 8 MiB, of which 2 MiB are mapped. `AllocFaultsIff`: `kmalloc` faults
  exactly when the first fit starts beyond them, having marked the blocks (`KernelHeaderFaultExample`).
  `PayloadMappedIff`: of a pointer it returns, the payload can be reached exactly if the allocation ends before; a
  request for 4 MiB on a fresh heap is served all the same (`HugePayloadExample`).
* **Wrapping map.** Ends and their rounding wrap at 2^64. `LengthCoversIff` says exactly which maps the computed
  bitmap length covers.
* **Huge requests.** `amount + 15` wraps above 2^64 - 16 (`src/mm.c:154`). `PayloadCoversAmountIff`,
  `WrappedRequestExample`.
* **Unaligned bitmap.** `BitmapProtectsItselfIff`: the pages locked cover the bitmap unless it starts
  unaligned and spills over; a page-aligned map never does.
* **Least integer.** `print_int_serial` prints only a minus sign for -2^63 (negation is modelled as
  wrapping, where C leaves it undefined). `IntTextRoundTripsIff`.
* **Short RSDT.** A length below 36 makes the number of pointers wrap to about 2^62. `PointerCountWrapsIff`.
* **Zero-length records.** The MADT walk never ends on a record of length 0. `WalkTerminatesIff` and
  `EndlessMadtExample`.

## Model

| member | source | states |
|---|---|---|
| Bitmap.LockPage | src/mm.c:17-22 | setting the bit adds exactly this page to the set the bitmap stands for |
| Bitmap.FreePage | src/mm.c:10-15 | clearing the bit removes exactly this page |
| Bitmap.FullWord | src/mm.c:27 | a word of all ones has no clear bit, so skipping it skips no free page |
| Words.AndFrameMask | src/mm.h:15 | the mask 0x000FFFFFFFFFF000 cuts out the frame address, bits 51-12 |
| PageTables.AndIndex | src/mm.c:46-49 | the four shift-and-mask indices are the base-512 digits used by the hardware walk |
| PageTables.OrLeafEntry | src/mm.c:72 | the leaf or-expression is the frame of `phys` with `flags` and the present bit |
| PagePool.TakeMeaning | src/mm.c:25-37 | with page 0 locked, 0 means exactly that the window is full; otherwise the least free page, now busy |
| PagePool.TakeIsLeast | src/mm.c:25-37 | page 0 locked or not, the lowest free page of the window becomes busy and its address is the page number times 4096; with none the result is 0 and nothing changes |
| PagePool.RunOfTakes | src/mm.c:25-37 | in any run without frees exactly as many calls succeed as pages were free, with strictly increasing addresses of free pages, then only 0 |
| PagePool.RunExhaustsPool | src/mm.c:25-37 | enough calls hand out exactly the set of free pages of the window |
| MemoryManager.Manager.PmmAlloc2 | src/mm.c:25-37 | the nested scan over bit-packed words grants what the set-level allocator grants |
| MemoryMap.UnscannedPagesAreNeverTaken | src/mm.c:26 | a free page beyond length / 64 words is in no run of results |
| MemoryMap.ExhaustedWithFreePageExample | src/mm.c:26 | for every bitmap length there is a pool with a free page and a failing allocation |
| MemoryMap.GetBitmapLength | src/mm.c:89-100 | the greatest end rounded up, with wrapping; the least number of words whose pages cover every entry if no end wraps; and for any map, covers it exactly when `EndsFit` |
| MemoryMap.LengthCoversIff | src/mm.c:89-100 | the length covers the map if and only if no end exceeds 2^64, none falls in the page below it, and an end at 2^64 itself comes with one in the 64 pages before |
| MemoryMap.InitialisationStaysInBounds | src/mm.c:102-125 | every page number freed or locked during initialisation is below 64 times the length |
| MemoryMap.BitmapProtectsItselfIff | src/mm.c:117-125 | the pages locked hold every byte of the bitmap if and only if it does not spill over its last page |
| MemoryMap.AlignedEntryPages | src/mm.c:105-112 | for an aligned entry the pages freed are exactly those inside it |
| MemoryMap.EntryPages | src/mm.c:102-112 | for any entry, aligned or not: a page is counted if and only if it is usable memory, does not lie before the first byte, and the whole pages of the length, laid from the start of the first byte's page on, reach its end |
| MemoryMap.BitmapPagesAreLeast | src/mm.c:120 | the number of pages locked is the least that can hold the bitmap's bytes |
| MemoryMap.AlignedMapStartsFree | src/mm.c:194-200 | on a page-aligned map the pages that start free are exactly those wholly inside a usable entry, other than page 0, that hold no byte of the page bitmap |
| MemoryManager.Manager.BitmapPointer | src/mm.c:131-139 | the bitmap goes to the first usable entry that can hold it, and nowhere if there is none |
| MemoryManager.Manager.SetUsableRam | src/mm.c:102-115 | a page stays busy if and only if it was busy and lies in no usable entry |
| MemoryManager.Manager.BuildBitmap | src/mm.c:194-200 | just before the heap bitmap is taken a page is free if and only if it is usable, not page 0 and not the bitmap's own |
| MemoryManager.Manager.InitBitmapPmm | src/mm.c:194-202 | then the lowest free page goes to the heap bitmap and sixteen pages are cleared through the direct map, with the bits of the page bitmap that lie in them (the page bitmap itself being an array that never faults) |
| MemoryMap.HeapBitmapIsOverrunIff | src/mm.c:147-151 | the next page taken lies inside the heap bitmap if and only if one of the fifteen unreserved pages is free |
| HeapOverrun.TableLandsInBitmap | src/mm.c:51-53 | if it does, the next call that lacks a table makes it a table |
| HeapOverrun.EntryReadsAsBlocks | src/mm.c:162 | each bit of an entry of a table there reads as one block of the heap |
| HeapOverrun.PresentEntryTakesBlock | src/mm.c:162 | the block of an entry's lowest bit reads as set if and only if the entry is present |
| HeapOverrun.MarkingBlockRemapsPage | src/mm.c:10-22 | marking or freeing the block of a bottom entry's lowest bit maps or unmaps that entry's page |
| MemoryMap.HeapBitmapOverrunExample | src/mm.c:147-151 | with plain free memory the second page taken lies right behind the first |
| MemoryMap.WipeSparesBitmapIff | src/mm.c:147-151 | the clearing spares every bit of the page bitmap if and only if the two do not overlap |
| Bitmap.PageLiesInByte | src/mm.c:10-22 | page p has bit p % 8 of byte p / 8 of the bitmap as it lies in memory, which is why clearing that byte frees it |
| MemoryMap.PageBitmapWipedExample | src/mm.c:131-151 | a map for which the clearing frees every page and the next call gives out page 0 |
| Kernel.ClearingKeepsTranslations | src/mm.c:150 | clearing frames that are not tables changes no translation |
| Kernel.ClearedThroughIsPhysical | src/mm.c:148-150 | through a direct map that reaches them, the memset clears those very frames |
| Kernel.TakenPagesAreApart | src/mm.c:117-151 | pages taken are usable memory, not page 0, not the page bitmap's, and past the first not the heap bitmap's if the unreserved pages did not start free |
| MemoryManager.Manager.NextTable | src/mm.c:51-56 | one step of the walk, every load and store through the direct map, computes StepThrough; a fault does not come back |
| MemoryManager.Manager.VmmAlloc | src/mm.c:41-72 | the in-place walk computes MapPageThrough on the view of memory and bitmap, whether or not the tables are direct-mapped (the page bitmap being an array that never faults) |
| Kernel.PageBitmapReached | src/mm.c:25-37 | on a machine as `KernelReady` asks, each word of an aligned page bitmap is reached through the direct map where it lies, in every state on the way and in the midst of a call |
| DirectMap.MapPageThroughIsPhysical | src/mm.c:41-72 | with its tables and the free pages direct-mapped (frame 0 too if the pool may run out) the walk does not fault and is the walk on physical frames |
| DirectMap.DirectMapReachesWords | src/mm.c:43-56 | with a page direct-mapped, a load or a store at the physical address of any of its words plus the offset is one of that very word |
| DirectMap.MapPageThroughIsExact | src/mm.c:41-72 | if the requested page is apart from the direct map as well, the page is installed exactly and the direct map still reaches all tables and free pages |
| DirectMap.EnsureTableKeepsDirectMap | src/mm.c:51-55 | making a table never costs the kernel its direct map |
| DirectMap.DirectMapSurvivesIff | src/mm.c:41-72 | whatever is left in the pool, a call leaves the direct map of given pages in place if and only if the request is lost to a large page, or each of them reached through the page being mapped is the frame it is mapped to |
| PageTables.MapPageIsExact | src/mm.c:41-72 | the page translates to the frame of `phys` with `flags` and present; every other page translates as before; exactly the missing tables are taken, from free pages; the tree stays sound |
| PageTables.PuttingKeepsWalks | src/mm.c:51-55 | a fresh empty table below an absent entry changes no translation |
| PageTables.MapsOneLevelUp | src/mm.c:56-63 | since no table has two pointers to it, mapping below one entry leaves the walks through all others alone |
| PageTables.WalkReadsTablesOnly | src/mm.c:41-72 | translation depends on the tables of the tree only |
| PageTables.SamePageMeansSameIndices | src/mm.c:46-49 | two addresses have the same four indices if and only if they agree in bits 47-12 |
| MappingRuns.MapPageKeepsTreeIff | src/mm.c:51-69 | the tree survives the call if and only if there is a free page for every missing table |
| MappingRuns.FullPoolExample | src/mm.c:51-55 | with a full pool and an empty tree the call breaks the tree |
| Exhaustion.ExhaustedCallMapsIff | src/mm.c:51-72 | with nothing free, the call maps its page if and only if at most one table is missing, or virt's entries in frame 0 do not collide, or the frame that a colliding leaf names leads back to it |
| Exhaustion.ShortCallMapsIff | src/mm.c:51-72 | a call that runs out of pages on the way maps its page if and only if a call out of pages would, in the state with the pool's pages made its upper tables; so always if it is one page short |
| Exhaustion.FirstHeapPageExample | src/main.c:121-124 | on an empty tree with a full pool the call for the first heap page maps nothing |
| Exhaustion.SecondExhaustedCallDestroysFirst | src/mm.c:65-72 | with nothing free and one table missing the first call maps its page, and the next under another entry unmaps or redirects it |
| MappingRuns.MapPageInstallsIff | src/mm.c:41-72 | in any sound tree: page installed, all else unchanged and tree sound if and only if no large page is on the path and the pool covers the missing tables |
| TableNeed.MissingAfterMapping | src/mm.c:51-69 | after one mapping another page lacks what it lacked before, but no table above the level where the two addresses' indices part |
| MappingRuns.LargePageLosesRequest | src/mm.c:57-72 | below a 2 MiB or 1 GiB page that does not begin with the kernel's own tables no translation changes and data is overwritten |
| MappingRuns.LargePageExample | src/mm.c:57-72 | a tree with a 1 GiB page below which a request is lost |
| MappingRuns.RunKeepsSeparation | src/mm.c:25-72 | every run of allocations and mappings keeps the tree sound and apart from every page handed out, and never writes to such a page |
| MappingRuns.RunKeepsTranslation | src/mm.c:25-72 | every run leaves the translation of each address it was not asked to map, mapped or not |
| Boot.BackHeapPageIsExact | src/main.c:121-124 | one round maps its page to a fresh frame that is not and does not become a table |
| Boot.BackThroughIsPhysical | src/main.c:121-124 | the same round with its table accesses through the direct map does not fault and is that round |
| Boot.HeapLoop | src/main.c:121-124 | with n pages and the missing tables free, n rounds put n distinct fresh frames behind the first n heap pages; the tables are taken once |
| BootLimits.HeapLoopIff | src/main.c:121-124 | n rounds back n heap pages under a sound tree if and only if the window is not in a large page and the pool holds n pages and the missing tables |
| BootLimits.BootNeedIsExact | src/main.c:119-124 | with the device pages' tables in the pool, the bring-up backs the whole heap if and only if the pool covers `BootNeed`, which counts shared tables once |
| Boot.HeapLoopThrough | src/main.c:121-124 | the rounds through the direct map do not fault and are the rounds on physical frames |
| HeapWindow.LoopKeepsDirectMapIff | src/main.c:121-124 | n rounds leave the direct map of given busy pages in place if and only if none is reached through the first n heap pages |
| HeapWindow.LoopOverDirectMapIff | src/main.c:121-124 | with the direct map at HEAP_VIRT_START, the loop leaves it in place for given busy pages if and only if none is below 512 |
| HeapWindow.LargeWindowLosesAll | src/main.c:121-124 | with the window in a 2 MiB or 1 GiB page that does not begin with the kernel's tables, all rounds keep the tree and change no translation |
| HeapWindow.FirstFramesLost | src/main.c:119-124 | with the direct map at HEAP_VIRT_START the bring-up leaves each of the first 512 frames' addresses reaching a frame from the pool |
| Kernel.HeapBitmapLostExample | src/main.c:118-124 | a memory map and machine on which kmain runs through and the heap bitmap is then read from a frame of the heap |
| HeapWindow.HeapOverDirectMapIff | src/main.c:121-124 | with the direct map at HEAP_VIRT_START, a round leaves it in place if and only if it takes the frame whose place it maps |
| HeapWindow.OffHeapWindowIff | src/main.c:121-124 | with the direct map at HEAP_VIRT_START, the window misses the direct map of given pages if and only if none is among the first 512 frames |
| Boot.BootMapsEverything | src/main.c:119-124 | with `BootNeed` free pages, the direct map in place and nothing mapped over it, no access faults, all 512 heap pages are backed by distinct free frames, all pages but these and the two device pages are unchanged, exactly `BootNeed` pages are taken and the direct map stands |
| Boot.BootBringsUp | src/main.c:119-124 | and in numbers, for an I/O APIC at physical address a: hhdm + 0xFEE00000 has the entry 0xFEE00013 and reaches frame 0xFEE00, a + hhdm has the entry with the frame a / 4096 and low bits 0x13, each of the 512 pages from 0xFFFF800000000000 has an entry with low bits 3 to a free frame of its own, and no other page changes |
| BootLimits.BootReadyExample | src/main.c:117-124 | a machine with a direct map that meets the conditions of the bring-up |
| MemoryManager.Manager.MapBootPages | src/main.c:119-124 | the loop in place computes the bring-up through the direct map on the view (the page bitmap being an array that never faults), and where `BootReady` holds leaves the devices and the heap mapped as `BootBringsUp` says |
| MemoryManager.Manager.Kmain | src/main.c:118-124 | initialisation and bring-up composed, for every bootable map and every content of memory (the page bitmap being an array that never faults); if `KernelReady` holds it comes back with the machine of the separation theorem, and with the I/O APIC, the local APIC and the heap mapped to the numbers of `BootBringsUp` |
| Kernel.InitLeavesReady | src/mm.c:147-202 | from a machine as `KernelReady` asks, initialisation ends in a state the bring-up can start from |
| Kernel.KmainRunsThrough | src/main.c:118-124 | then the bring-up does not fault and computes the bring-up on physical frames |
| Kernel.KmainBringsUp | src/main.c:118-124 | and maps the local APIC to frame 0xFEE00, the I/O APIC to the frame of its physical address and the heap to free frames |
| Kernel.KernelReadyExample | src/main.c:117-124 | a memory map and a machine that meet all of these conditions |
| Kernel.KernelHeapExample | src/main.c:138-139 | on that machine the theorem applies to kmain's own two requests |
| Kernel.KernelHeapIsSeparate | src/main.c:118-142 | after kmain and any heap run payload bytes are physically distinct, in usable memory, outside page 0, both bitmaps and all tables; the tables lie outside both bitmaps; the direct map stands; no table entry, clearing or heap store hits the page bitmap's pages |
| Heap.KernelHeap.Kmalloc | src/mm.c:153-179 | the one-pass search computes the leftmost first fit, sets its bits and header, or changes nothing; it faults exactly if the header's word is not mapped |
| Heap.KernelHeap.Kfree | src/mm.c:181-191 | clears the blocks named by the header and no others; NULL changes nothing |
| Heap.FreeClearsNamedBlocks | src/mm.c:181-191 | for any pointer that keeps inside the heap, live or stale: exactly as many blocks as the word at p - 16 says are cleared, from the header's on, and no word changes |
| Heap.FitFrom | src/mm.c:157-177 | the result is clear and inside the heap, and no earlier start is clear |
| Heap.FirstFitUnique | src/mm.c:157-177 | a clear run with nothing clear before it is the first fit |
| Heap.PayloadCoversAmountIff | src/mm.c:154 | the payload covers the amount if and only if the rounding sum does not wrap |
| Heap.BlocksAreLeast | src/mm.c:154 | and then the blocks are the least number, with one for the header, whose payload of 16 bytes each covers it; otherwise there is one block |
| Heap.PointerRoundTrip | src/mm.c:170-186 | the pointer is 16-byte aligned and kfree's arithmetic recovers the start block |
| HeapRuns.StepKeepsSound | src/mm.c:153-191 | allocation, free and payload write keep the invariant: bits are the live intervals, apart, with their headers intact |
| HeapRuns.ReleaseIsExact | src/mm.c:181-191 | kfree of a live pointer clears exactly that allocation's blocks |
| HeapRuns.RunIsSound | src/mm.c:153-191 | every run ends sound, with as many set bits as live blocks, and a clear bitmap if nothing is live |
| HeapRuns.SetBitsAreLiveBlocks | src/mm.c:153-191 | the number of set bits is the sum of the live block counts |
| HeapRuns.AllocMeaning | src/mm.c:153-179 | NULL if and only if no ceil(amount / 16) + 1 of the 524288 blocks in a row are clear (one block if the rounding wraps); otherwise the pointer is aligned, leftmost, inside the heap and not live before, exactly those blocks become used, the first word holds their number and no other changes |
| HeapRuns.HeaderFaultMeaning | src/mm.c:162-171 | kmalloc faults if and only if that leftmost run starts at or beyond the mapped words; its blocks are marked by then and no word has changed |
| HeapRuns.RunKeepsPayload | src/mm.c:153-191 | over any run that neither frees an allocation nor stores to a given word of its payload, the allocation stays live and the word keeps its value |
| HeapRuns.FreedNeighboursServeCombinedRequest | src/mm.c:153-191 | neighbours freed in either order serve a request of their combined size without merging |
| HeapMemory.StoreIsLocal | src/mm.c:171 | a store through the tables into the heap window changes one word of the window, no bit of the heap bitmap and no translation |
| HeapMemory.PutBitIsExact | src/mm.c:10-22 | a bit of the heap bitmap is set or cleared through the direct map, and no other bit, no window word and no translation changes |
| HeapMemory.AllocFaultsIff | src/mm.c:165-175 | kmalloc faults if and only if the first fit starts beyond the mapped part |
| Kernel.KernelHeaderFaultExample | src/mm.c:165-175 | a machine after kmain on which the second of two requests faults |
| HeapMemory.PayloadMappedIff | src/mm.c:170-175 | every payload word of a new allocation can be loaded if and only if it ends in the mapped part |
| HeapMemory.HugePayloadExample | src/mm.c:153-175 | a request for 4 MiB on a fresh heap is served with an unmapped end |
| HeapMemory.MachineRunRefines | src/mm.c:153-191 | any run of the heap, its words and its bitmap in memory and reached through the page tables, faults nowhere, refines the abstract run and disturbs no table, translation or other frame |
| HeapMemory.WindowBytesAreSeparate | src/main.c:121-124 | distinct window addresses are distinct physical bytes outside tables and frame 0 |
| HeapMemory.PayloadsArePhysicallySeparate | src/main.c:119-124 | after the bring-up and any heap run, payload bytes of live allocations are physically distinct, in pages that were free, outside all tables and the heap bitmap |
| Madt.FindAPIC | src/apic.c:104-116 | on an RSDT that holds a list of little-endian pointers, the first whose table begins with the bytes of "APIC", or none |
| Madt.Le32ReadsBytes | src/apic.c:105-108 | a 32-bit field reads as x if and only if the four bytes of x lie there, the least significant first |
| Madt.TargetsAreThePointers | src/apic.c:105-108 | a table whose length is 36 plus four for each pointer, and at most three over, is searched for exactly the pointers behind its 36-byte header |
| Madt.PointerCountWrapsIff | src/apic.c:105 | the count wraps if and only if the length is below 36 |
| Madt.Acpi.MadtParsing | src/apic.c:133-160 | the MADT is the first pointer with the signature; the base is the address in the first I/O APIC record through the direct map, or unchanged; on a table that holds encoded records it is the address stored in the first of type 1, plus the offset |
| Madt.EncodedBase | src/apic.c:146-160 | a MADT with encoded records behind its 44 bytes, of which the first of type 1 holds the bytes of address a, gives the base a plus the offset |
| Madt.NoEncodedBase | src/apic.c:149-160 | without a record of type 1 the base stays as it was |
| Madt.WalkTerminatesIff | src/apic.c:149-160 | the loop stops if and only if no record it looks at has length 0 |
| Madt.LoopsIff | src/apic.c:149-160 | the specification walk is endless if and only if some record it looks at has length 0 |
| Madt.EndlessMadtExample | src/apic.c:149-160 | a 46-byte table on which it does not |
| Madt.WalkUndoesEncoding | src/apic.c:146-160 | on encoded records the pointer visits exactly the record boundaries up to the first of type 1 |
| Madt.FoundRecordHoldsAddress | src/apic.c:153-155 | the four bytes read are those stored in the first type-1 record |
| ByteMemory.Move | src/common.c:24-39 | under every overlap the destination gets the old source and no other byte changes |
| ByteMemory.Compare | src/common.c:41-52 | 0 for equal bytes, else the order of the first difference |
| Serial.Port.PrintIntSerial | src/common.c:102-126 | the two buffer loops write the decimal text (whose meaning the next rows give), within the 32 bytes |
| Serial.IntTextRoundTripsIff | src/common.c:102-126 | the text reads back as n if and only if n is not -2^63 |
| Serial.TextIsCanonicalIff | src/common.c:102-126 | the text is "0", or an optional minus sign, a digit from 1 to 9 and digits, if and only if n is not -2^63; then it is "-" |
| Serial.OnlyCanonicalText | src/common.c:102-126 | for any other n it is the one canonical numeral that reads as n |
| Serial.DigitsFitBuffer | src/common.c:113-120 | at most 19 digits are stored |
| Serial.Port.PrintHexSerial | src/common.c:87-100 | the loop from bit 60 down writes the sixteen digits after 0x |
| Serial.HexTextRoundTrips | src/common.c:87-100 | sixteen digits read back as every 64-bit value |
| Serial.Port.Kprintf | src/common.c:128-174 | the index loop prints the piecewise rendering of the format; for the format of any message with its arguments, just that message |
| Serial.ConversionShows | src/common.c:136-157 | `%s` prints the string or "(null)", `%d` the canonical numeral of the argument, `%c` the character, `%x` 0x and sixteen digits that read as the argument; each reads one argument |
| Serial.UnknownPrintsItself | src/common.c:162-166 | after any other character but a percent sign both are printed and no argument is read |
| Serial.MessageIsPrinted | src/common.c:128-174 | any message of literal pieces and arguments is printed piece by piece in order, and nothing else |
| Serial.RenderConcatenates | src/common.c:128-174 | printing one format after another is printing their concatenation |
| Serial.DoubledPrintsItself | src/common.c:158-161 | a string with every percent sign doubled prints itself |

## Left out

- PageTables.MapPageIsExact: asks for no large page on the path and a free page for each missing table; `MapPageInstallsIff` shows that it holds only then.
- MappingRuns.LargePageLosesRequest: asks that the large page does not begin with one of the kernel's own tables; the mapper would then change that table.
- DirectMap.DirectMapSurvivesIff: asks the same of a large page on the path.
- HeapWindow.LargeWindowLosesAll: asks the same of the large page that the window lies in.
- BootLimits.HeapLoopIff: for all 512 rounds and a 2 MiB page that is the whole window, it asks that this page does not begin with a table on the window's own path.
- Heap.KernelHeap.Kfree: asks for NULL or an aligned pointer whose header stays inside the heap; a stale or foreign pointer of that form frees whatever its header names.
- Madt.Acpi.MadtParsing: asks that the tables can be read and that the walk ends; a record cut off by the end of its table is read past that end, as in the source.
- Serial.Port.Kprintf: asks for arguments of the types the format reads and no lone percent sign at its end, where the source steps over the terminator. `%c` reads a char, although varargs promote it to int.
- MemoryManager.Manager.NextTable: the allocation inside it cannot fault, since the page bitmap is an array.
- MemoryManager.Manager.VmmAlloc: likewise.
- MemoryManager.Manager.InitBitmapPmm: likewise; and the bits it wipes are those of the frames that the clearing names.
- MemoryManager.Manager.MapBootPages: likewise.
- MemoryManager.Manager.Kmain: likewise.
- That array stands for the bytes at the page bitmap's address. `PageBitmapReached` shows that under `KernelReady` its accesses reach those bytes. That exhausted calls, which write to frame 0, could hit a page bitmap lying there is not modelled. `KernelHeapIsSeparate` shows that no other modelled store hits its pages.
- `Heap.KernelHeap` works on arrays for the heap bitmap and the window; the same operations on memory through the page tables are `HeapMemory.MachineStep`.
- Addresses are translated by their low 48 bits; that the processor rejects non-canonical ones is not modelled.
- `g_hhdm_offset` is taken to be page-aligned, as the Limine protocol has it, wherever the direct map is said to hold.
- The heap has 8 MiB of blocks but 2 MiB are mapped. Results over runs bound them to the mapped part.
- Client writes are whole 64-bit words; a narrower write is a word write of the merged value.
- The soundness of the tree that the bootloader leaves, with tables that are not in usable memory, is a precondition.
- Reading the RSDT's address out of the RSDP, and `check_RSDP`, which is never called.
- Port I/O, `invlpg` and the TLB, the MSRs and control registers (`cr3` is a parameter), interrupts, segments, the LAPIC timer and the framebuffer.
- `memset` is modelled where it is used, as the clearing of whole frames; `memcpy` is called by no modelled function; the bit-field layout `struct pte` is used by no code.
