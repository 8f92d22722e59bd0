# Symphony memory management, modelled and proved

This project models the memory-management stack of the Symphony kernel for x86_64 and its console
formatting, and proves what each layer promises to the one above it:

* the physical page allocator (`symphony/mm/pmm.c`), a first-fit run search over a bitmap that lives
  in the memory it manages;
* the four-level page tables (`symphony/arch/x86_64/mm.c`), a tree whose nodes are frames from that
  allocator, and the kernel's address space built with them (`symphony/mm/vmm.c`);
* the kernel heap (`symphony/mm/kheap.c`), a first-fit list of blocks with headers in the same memory,
  splitting, coalescing and growth;
* the integer formatting and the format-scanning loop of `symphony/debug.c`.

## How it is modelled

There is one physical memory, an `array<bv8>`. The bitmap, every page-table entry (eight bytes, bit
fields at their places in the word) and every heap header (32 bytes, little-endian fields) are read from
and written to those bytes. The properties that keep the layers apart are therefore real ones: that the
0xFF poison of a freed page misses the bitmap, that a new heap header lies in free space, that no table
is poisoned before it has been read. A kernel pointer is represented by the physical address it reaches
through the higher-half direct map; the source adds and subtracts the direct-map offset in pairs, so it
cancels. That the direct map does reach every page that may be handed out, at every moment of a run, is
`Booting.PointersReachMemory`. NULL is 0.

The layers are classes over that memory: `Pmm`, `PageTables`, `Vmm`, `Heap`, `Console`. Each carries
ghost state (the pages held, the tables and where each one sits, the block list) that its `Valid()` ties
to the bytes. A panic or failed assertion, after which the kernel halts, is `None` or `false`.

Where a specification and the code it specifies share a function, such as the number of a page, the place
of a field, the size of the bitmap, the rounding of a request or the text of a sign, a lemma of its own says
what it is in plain numbers and characters: `PageTables.IndexIsAddressBits`, `PageTableEntry.DecodeBits`,
`BootMemory.SizeIsRight`, `HeapList.RoundingIsExact`, `Output.IntegerPrints` and the others listed below.

| file | holds |
|---|---|
| `memory.dfy`, `bitmap.dfy`, `memmap.dfy`, `pmm.dfy` | memory, the bitmap, the boot memory map, the page allocator |
| `entry.dfy`, `tree.dfy`, `teardown.dfy`, `paging.dfy`, `vmm.dfy` | page-table entries, the tree and its flat map, what destroying it frees, the operations, the kernel's address space |
| `hardware.dfy` | what the processor makes of the tables in memory |
| `lifecycle.dfy` | the life of an address space from creation to teardown |
| `heaplist.dfy`, `heapmem.dfy`, `heap.dfy` | the block list as a value, its headers in memory, the heap |
| `clients.dfy`, `spaces.dfy` | what clients hold: loans of heap payloads, grants of pages, address spaces as flat maps |
| `runs.dfy`, `accounting.dfy` | what one operation may change, the record of a run, what it means for clients, and where every page is |
| `kernel.dfy`, `boot.dfy` | the machine that runs all layers, and how it is booted |
| `digits.dfy`, `debug.dfy`, `printf.dfy`, `directive.dfy` | digit reversal, integer output, format scanning, the language of directives |
| `output.dfy` | what is printed, read back character by character |

## Main results

* Whole runs (`Kernel.Machine.Run`). For any sequence of kmalloc, kzalloc, kfree, pmm_alloc, pmm_free,
  new and destroy requests, of maps, unmaps and set-flags in clients' spaces and in the kernel's own, of
  stores by clients into what they hold, and of the processor setting accessed and dirty bits, there is a
  record of moments, one before each operation and one at the end. At each the bitmap, the linked list of
  the heap with its byte counters, and the page tables are intact and apart, every loan and grant has the
  bytes its holder last left there, and the tables stand for exactly the address spaces the requests
  describe, the kernel's own included. From each to the next clients gain what they asked for (`LentMore`,
  `GrantedMore`), lose only what they gave back, the block list, the tables and the roots change as the
  operation says, and every page is accounted for (`Runs.Stepped`). So what a client does not touch stays
  as it left it (`Runs.LoanLives`, `Runs.GrantLives`), and a new grant is never an outstanding page
  (`Runs.GrantIsFresh`).
* A run panics exactly when memory is exhausted for the next operation (`Runs.Stuck`): no block fits and no
  region can be had, no run of the pages is free, or fewer pages are free than page tables are missing on
  the walk (`PageTables.PageTables.PageFromIndex`). Mapping where the leaf table exists never panics.
* Nothing is lost (`Accounting.NothingIsLost`, `Accounting.BlocksAreLoans`). From boot on each held page is
  a heap page, a table or a client's, and each live block is behind a loan still held; the exception is
  the upper-half tables of destroyed spaces, and they are all of it (`Accounting.LeaksAddUp`).
* Pointers stay multiples of 16 in any run that asks for no size that kmalloc leaves unrounded and odd
  (`Accounting.PointersStayAligned`).
* Booting (`Booting.Boot`). pmm_init, vmm_init and kheap_init compose: the heap spares the tables that
  vmm_init built, and in every run from there the processor reaches each byte that may be handed out
  through the direct map (`Booting.PointersReachMemory`).
* An address space conserves frames (`AddressSpaceLife.LiveAndDie`): new_pt, lower-half maps of freshly
  allocated frames, and destroy restore the bitmap byte for byte.
* The processor's walk (`Hardware.HardwareWalk`) takes an address and cuts its four indices and each
  entry's bits out of it and of the eight bytes in memory itself. It grants every address of a mapped page
  exactly the frame and the rights last asked for (`Runs.MapGrantsRequest`, `Runs.SetFlagsKeepsFrame`,
  `Runs.UnmapTakesAway`), because no level above a leaf restricts them (`Hardware.HardwareSeesFlat`), and of
  the kernel's space it makes what `Booting.BootMap` says in plain numbers (`Booting.KernelSpaceLives`).
* The heap: `kfree(kmalloc(n))` restores the list exactly, or adds just the new region
  (`HeapMemory.KfreeUndoesKmalloc`); full coalescing survives growth (`HeapMemory.KmallocKeepsCoalesced`);
  bytes are conserved and the blocks tile the heap's pages (`KernelHeap.Heap.Kmalloc`, `Kfree`).
* The first-fit search returns the lowest free run and panics only if there is none
  (`PhysicalPages.FirstRunIsLowest`, `PhysicalPages.Pmm.Alloc`), and `pmm_init` is exact: it succeeds if and
  only if there is a place for a bitmap of the least size that covers the last usable entry
  (`PhysicalPages.Pmm.Init`).
* debug_print_int is exact if and only if the number read backwards fits 64 bits (`Debug.PrintIsExact`).
  For any argument, what an integer directive prints is determined character by character, and it reads
  back as the value under that condition, unless zeros are padded on its right (`Output.IntegerPrints`,
  `Output.ReadsBack`). A whole format prints its pieces in order, each directive taking the next argument
  (`Output.FormatPrints`).
* The scanner of debug_vprintf reads back any directive whose flags are distinct
  (`Directives.ScanReadsBack`); any other it reads back if and only if all flags from the first repeated
  one on are zeros, and otherwise it takes a flag for the conversion (`Directives.RepeatedFlags`).

## Where the code and its documentation differ

The model follows the code.

* `kmalloc` rounds to 16 only sizes that are not a multiple of ten (`HeapList.RoundedIsAligned`), so payloads
  need not be aligned to 16: `HeapMemory.SomePointersAreUnaligned` is an input, and
  `HeapMemory.KmallocKeepsAligned` says exactly which calls keep an aligned heap aligned.
* The `ALIGN_UP` in `vmm_map_range` is discarded; the loop covers ceil(size/4096) pages all the same. An
  unaligned memory-map entry may lose its last partial page (`VirtualMemory.EntryFullyCovered` says when).
* `pmm_bitmap_last_tracked_page` never looks at entry 0 of the memory map, so `pmm_init` fails when no
  usable entry but that one has memory (`BootMemory.TracksSomething`); with no entries it fails as well.
* `pmm_alloc` of zero or fewer pages panics, since the counter is compared only after an increment.
* `arch_vmm_destroy_pt` does not look at the upper half: tables there stay held for ever. It gives back all
  tables if and only if no root entry from 256 on is present (`TreeTeardown.GivesBackAllTables`).
* 20-digit decimals can be printed wrong (`Debug.LongDecimalsAreWrong`). In `debug_vprintf` a percent
  sign counts as 37 characters and a `#` prefix as none (`Printf.CountIsExact`).
* With both `-` and `0` among its flags a directive is padded with zeros on the right, which makes another
  number of what it prints (`Output.ReadsBack`; `Output.RightZerosGoWrong` for `%-03d`).
* A flag given twice ends the scan of a directive's flags. Unless it and all flags behind it are zeros,
  the directive then prints nothing and takes no argument, so later ones get the wrong ones
  (`Directives.RepeatedFlags`; `Directives.MinusMinusGoesWrong` for `%--5d`).

## What is assumed

* The memory map is what the Limine Boot Protocol's Memory Map Feature guarantees: sorted by base;
  usable entries page-aligned, inside memory, and overlapping no other entry. The memory map, the
  direct-map offset and the kernel's addresses are parameters.
* Memory ends below 2^51, so that a frame number fits the 51-bit address field and no 64-bit sum of
  addresses and sizes overflows. Address arithmetic in `vmm_map_range` wraps at 2^64 as in the source.
* For `vmm_init`, the direct-map offset is page-aligned, and the memory-map entries and the kernel image fit
  2^48 bytes. `vmm_map_range` gets fewer than 2^64 - 4095 bytes, beyond which its counter wraps and the loop
  never ends; what it maps is stated for up to 2^48 bytes, beyond which a range overwrites itself.
* `pmm_free` gets a page-aligned base and fewer than 2^19 pages: `PAGE_SIZE*pages` is an int product.
  `kmalloc` gets a request whose page count fits an int.
* The processor addresses all of memory and at most 2^40 frames, of which it sees bits 12 to 51 of an
  entry; protection keys and large pages are off. Bits 48 and up of an address play no part in a walk:
  that the processor refuses addresses where they do not repeat bit 47 is not modelled. Between two
  operations it may set the accessed bit of any entry on a walk, and the dirty bit of a leaf entry
  (`Hardware.Access`).
* What is said of the processor is said of its walks through memory. Translations that it has cached are
  not modelled: arch_vmm_unmap invalidates that of its page, arch_vmm_map and arch_vmm_set_flags none, so
  one may outlive a change of rights.
* In a run a client asks to destroy a space only if each present lower-half page is mapped to a page of its
  own grants, each once, and no grant is mapped in part; those grants go back with it. Stores go to loans
  and grants only.
* Clients free only what they hold: `pmm_free` gets held pages, and `kfree` gets NULL or the address of a
  payload on the list (a block that is free already is handled, as in the source). When an address space
  is destroyed, its lower-half pages have held frames of their own that are no tables.

## Model

| member | source | states |
|---|---|---|
| Memory.LoadIsWord | include/symphony/arch/x86_64.h:13-30 | an eight-byte load is the number whose bytes lie there, the lowest first |
| Memory.WordOfStore | include/symphony/arch/x86_64.h:13-30 | an eight-byte store leaves bytes that are the number stored |
| Bitmap.MarkedIff | symphony/mm/pmm.c:20-31 | the set a bitmap stands for is exactly the pages whose bit, most significant first, is set |
| Bitmap.ByteIsEightPages | symphony/mm/pmm.c:16-31 | byte k of the bitmap marks page 8k by its bit 0x80, and so on to page 8k+7 by its bit 0x01 |
| Bitmap.PutPageMarks | symphony/mm/pmm.c:20-31 | setting or clearing a bit adds or removes that page and no other, and writes no byte outside the bitmap |
| Bitmap.MarkedDetermines | symphony/mm/pmm.c:16-31 | two bitmaps mark the same pages if and only if their bytes are equal |
| PhysicalPages.Pmm.BitmapSet | symphony/mm/pmm.c:20-24 | exactly one page becomes marked; callers prove the range assertion |
| PhysicalPages.Pmm.BitmapClear | symphony/mm/pmm.c:27-31 | exactly one page becomes unmarked; callers prove the range assertion |
| BootMemory.FindLastTrackedPage | symphony/mm/pmm.c:37-47 | the end of the last usable entry at index 1 or above, or 0 |
| BootMemory.TracksEveryUsablePage | symphony/mm/pmm.c:33-47 | when that is not 0, every usable page of every entry, entry 0 included, lies below it |
| BootMemory.PlaceBitmap | symphony/mm/pmm.c:85-105 | finds the first usable entry with room after page 0, and fails exactly when there is none |
| BootMemory.PlacedInMemory | symphony/mm/pmm.c:85-125 | all pages the bitmap touches are usable memory and not page 0 |
| BootMemory.PlacedInTracked | symphony/mm/pmm.c:122-129 | the bitmap's own pages are tracked, so marking them is in range |
| BootMemory.TracksSomething | symphony/mm/pmm.c:37-47 | there is something to track if and only if a usable entry at index 1 or above ends above 0 |
| BootMemory.SizeIsRight | symphony/mm/pmm.c:37-82 | the bitmap has as many bytes as pages up to the end of the last usable entry, not entry 0, take at eight a byte, and not one more |
| BootMemory.PlaceIsRight | symphony/mm/pmm.c:85-105 | it lies at the start, page 0 left out, of the first usable entry that has room for it |
| BootMemory.UsableIsWhole | symphony/mm/pmm.c:107-120 | the usable pages are those that lie whole in a usable entry |
| PhysicalPages.Pmm.Init | symphony/mm/pmm.c:78-134 | succeeds if and only if there is such a place for a bitmap of that size, both stated on the memory map alone; then a bit is set if and only if its page is page 0, not usable (padding included) or holds the bitmap, and nothing outside the bitmap is written |
| PhysicalPages.FirstRunIsLowest | symphony/mm/pmm.c:50-76 | the first run is free, no lower base starts one, and none is found only if none exists |
| PhysicalPages.ScanFindsFirstRun | symphony/mm/pmm.c:55-71 | the one-pass scan with its chunk counter finds that same run, across byte boundaries |
| PhysicalPages.Pmm.FindFreePages | symphony/mm/pmm.c:50-76 | the nested loops over bytes and bits return the first free run, or panic when there is none |
| PhysicalPages.MarkingGrants | symphony/mm/pmm.c:136-143 | marking a free run hands it out and leaves every page that may be handed out as it was |
| PhysicalPages.PageWriteKeepsTracks | symphony/mm/pmm.c:145-152 | writing pages that are not reserved cannot touch the bitmap |
| PhysicalPages.ClearingReturns | symphony/mm/pmm.c:145-152 | clearing and poisoning a held run gives it back and changes no other page |
| PhysicalPages.Pmm.Alloc | symphony/mm/pmm.c:136-143 | the lowest free run becomes held; it meets neither the held nor the reserved pages; only bitmap bytes are written |
| PhysicalPages.Pmm.Free | symphony/mm/pmm.c:145-152 | exactly the run stops being held and is 0xFF; the bitmap and every other page are intact |
| PageTableEntry.DecodeEncode | include/symphony/arch/x86_64.h:15-30 | every entry survives being stored in the 64-bit word |
| PageTableEntry.DecodeBits | include/symphony/arch/x86_64.h:15-30 | each field is at its place in the word: the flags at bits 0 to 7, avl1 at 8 to 11, the frame at 12 to 62, nx at 63 |
| PageTableEntry.EncodeDecode | include/symphony/arch/x86_64.h:15-30 | every word of 64 bits is an entry and survives being read and written back |
| PageTableEntry.LinkWord | symphony/arch/x86_64/mm.c:40-44 | a link to a table is its address with the lowest three bits set |
| PageTables.PutEntryReads | symphony/arch/x86_64/mm.c:40-44 | storing an entry in memory changes that entry of the table and no other |
| PageTables.WordInTable | symphony/arch/x86_64/mm.c:31-80 | the eight bytes of entry i of a table in memory are the word of that entry |
| PageTables.RequestInWord | symphony/arch/x86_64/mm.c:137-176 | bit by bit, what set_flags, map and unmap make of the eight bytes of a leaf entry: the rights and the frame asked for, no large page, and write-through, cache-disable, accessed and available bits as they were |
| PageTables.AccessedWord | include/symphony/arch/x86_64.h:20-24 | the processor's own bits are 5 and 6 of the word |
| PageTables.IndexOfAddress | symphony/arch/x86_64/mm.c:18-27 | the four indices of a page number are its four base-512 digits |
| PageTables.IndexIsAddressBits | symphony/arch/x86_64/mm.c:18-27 | of any virtual address they are bits 12 to 20, 21 to 29, 30 to 38 and 39 to 47, and the page number is bits 12 to 47 |
| PageTables.PageTables.PageIndex | symphony/arch/x86_64/mm.c:18-27 | the shifts and masks compute those four bit fields of the address |
| TableTree.PlaceIsReached | symphony/arch/x86_64/mm.c:31-80 | every table is what the walk from its root reaches, for every page below it |
| TableTree.PlacesAreDistinct | symphony/arch/x86_64/mm.c:31-80 | no two tables sit at one position: none is reachable twice, at two levels or from two roots |
| TableTree.TableKeepsOwned | symphony/arch/x86_64/mm.c:36-44 | linking a new table keeps single ownership |
| TableTree.TableKeepsFlat | symphony/arch/x86_64/mm.c:34-77 | creating a table on the way changes no translation of any address space |
| TableTree.EntryUpdatesFlat | symphony/arch/x86_64/mm.c:137-176 | rewriting a leaf entry changes the translation of one page of one address space |
| TableTree.TableIsFound | symphony/arch/x86_64/mm.c:36-44 | creating a missing table leaves one table less to create on the walk |
| TableTree.VisitKeepsFlat | symphony/arch/x86_64/mm.c:34-77 | the processor setting its bits in any entry changes no translation but in those bits |
| Hardware.Access | symphony/arch/x86_64/mm.c:34-77 | the tables stay owned and stored when the processor sets an accessed or dirty bit on a walk, and no other page changes |
| Hardware.HardwareSeesFlat | symphony/arch/x86_64/mm.c:34-77 | for any virtual address, walking the bytes in memory by its own bits and combining rights over the levels, as section 4.6 of the Intel SDM, volume 3A, does, yields exactly the leaf entry of its page |
| Hardware.GrantsRequest | symphony/arch/x86_64/mm.c:137-176 | bits 0 to 3 of the flags of a map are presence, writing, execution and user access, granted to the frame of any address the processor can reach |
| Hardware.FrameOfMapped | symphony/arch/x86_64/mm.c:137-147 | of any physical address mapped, the processor sees the page number modulo 2^40, and refuses those beyond its reach |
| PageTables.PageTables.PageFromIndex | symphony/arch/x86_64/mm.c:31-80 | reaches the leaf table of the page, adding only tables on that path and changing no translation; None if and only if fewer pages are free than tables are missing |
| PageTables.PageTables.NewPt | symphony/arch/x86_64/mm.c:82-87 | a new root that translates nothing, in a frame nobody held |
| PageTables.PageTables.Map | symphony/arch/x86_64/mm.c:137-147 | one page gets the frame and exactly the flags; every other page of every address space keeps its leaf entry; it fails if and only if fewer pages are free than tables are missing on the walk |
| PageTables.PageTables.Unmap | symphony/arch/x86_64/mm.c:149-161 | one page becomes absent with frame 0; everything else as before; it fails under the same condition |
| PageTables.PageTables.SetFlags | symphony/arch/x86_64/mm.c:163-176 | one page's flags change and not its frame; everything else as before; it fails under the same condition |
| TreeTeardown.FreedOnce | symphony/arch/x86_64/mm.c:89-130 | the loops free no frame twice |
| TreeTeardown.FreedExactly | symphony/arch/x86_64/mm.c:89-130 | a frame is freed if and only if it is the root, a lower-half table or the frame of a present lower-half page |
| TreeTeardown.DoomedInNumbers | symphony/arch/x86_64/mm.c:89-130 | these are the root and every table and frame that the walk for an address below 2^47 goes through |
| TreeTeardown.GivesBackAllTables | symphony/arch/x86_64/mm.c:89-130 | all tables of the space are freed if and only if no upper-half entry of its root is present |
| PageTables.ReadyRest | symphony/arch/x86_64/mm.c:93-127 | after any prefix of the frees the tables still to be read are unpoisoned |
| PageTables.PageTables.Destroy | symphony/arch/x86_64/mm.c:89-130 | exactly those frames stop being held; the other address spaces keep their tables and translations, and all other pages their bytes |
| AddressSpaceLife.MapKeepsAlive | symphony/arch/x86_64/mm.c:137-147 | mapping a fresh frame keeps the balance: whatever is held beyond the start is what destroy will free |
| AddressSpaceLife.LiveAndDie | symphony/arch/x86_64/mm.c:82-147 | new_pt, any lower-half maps of fresh frames, and destroy restore the held pages and the bitmap bytes exactly, and disturb no other page or address space |
| VirtualMemory.RangeStep | symphony/mm/vmm.c:24-25 | page k of a range has the k-th page number and frame, 64-bit wrap-around included |
| VirtualMemory.Vmm.MapRange | symphony/mm/vmm.c:20-26 | exactly ceil(size/4096) pages are mapped, page k to frame k, and no other page of any address space changes |
| VirtualMemory.RangeInNumbers | symphony/mm/vmm.c:20-26 | address by address: a page less than `size` bytes above the first one gets the frame as far above the first frame, with the flags, and no other page changes |
| VirtualMemory.DirectMapExtends | symphony/mm/vmm.c:41-53 | each memory-map entry extends the direct map by its own frames, whatever it overlaps |
| VirtualMemory.Vmm.Init | symphony/mm/vmm.c:34-64 | the translation of every page: the kernel window, the direct map of covered frames, and nothing else |
| VirtualMemory.DirectMapIsLinear | symphony/mm/vmm.c:41-53 | every present address outside the kernel window translates to itself less the offset |
| VirtualMemory.EntryFullyCovered | symphony/mm/vmm.c:20-53 | an entry's bytes are all mapped if and only if it does not spill over its last counted page |
| VirtualMemory.AlignedEntryIsMapped | symphony/mm/vmm.c:41-53 | every byte of a page-aligned entry but page 0 is mapped |
| VirtualMemory.KernelIsMapped | symphony/mm/vmm.c:57 | every byte of a page-aligned kernel image is mapped where it was loaded |
| HeapList.RoundingIsExact | symphony/mm/kheap.c:88 | a multiple of ten stays as it is, any other size becomes the multiple of 16 in [size, size + 15] |
| HeapList.RoundingIsIdempotent | symphony/mm/kheap.c:88 | rounding never shrinks a request, adds at most 15 bytes, and does nothing the second time |
| HeapList.RoundedIsAligned | symphony/mm/kheap.c:88 | the rounded size is a multiple of 16 if and only if the request is itself a multiple of 16 or is no multiple of ten |
| HeapList.FirstFitIsFirst | symphony/mm/kheap.c:90-102 | the block taken fits, is free, and no earlier one does; none only if none does |
| HeapList.FirstFitAfterGrowth | symphony/mm/kheap.c:104-106 | the retry selects exactly the new block |
| HeapList.AllocGivesOut | symphony/mm/kheap.c:50-101 | a block is given out whole if at most 32 bytes would be left over, and is else cut to exactly the size, a free block of the rest behind its 32-byte header |
| HeapList.FreeTakesBack | symphony/mm/kheap.c:132-160 | a block taken back is one free block with the free list neighbours that touch it, and nothing else changes |
| HeapList.AllocKeepsCoalesced | symphony/mm/kheap.c:94-101 | giving out a block leaves no two touching free neighbours |
| HeapList.AllocKeepsAligned | symphony/mm/kheap.c:94-101 | giving out a block keeps every header and size a multiple of 16 if and only if the size given out is a multiple of 16 or the block is given out whole |
| HeapList.FreeKeepsAligned | symphony/mm/kheap.c:132-160 | giving a block back keeps every header and size a multiple of 16 |
| HeapList.FreeKeepsCoalesced | symphony/mm/kheap.c:132-160 | merging on both sides leaves no two touching free neighbours |
| HeapList.AllocThenFreeRestores | symphony/mm/kheap.c:87-161 | giving a block out and back restores the exact list of addresses, sizes and flags |
| HeapList.GrowThenFree | symphony/mm/kheap.c:104-161 | after growth, what remains is the old list and the region, merged into the old tail exactly when that is free and touches it |
| HeapList.CutKeepsTiles | symphony/mm/kheap.c:50-70 | a split keeps the extents disjoint and covering exactly the heap's pages |
| HeapList.UncutKeepsTiles | symphony/mm/kheap.c:134-160 | so does a merge |
| HeapList.AppendKeepsTiles | symphony/mm/kheap.c:30-47 | so does growth by pages nobody held |
| HeapList.MergeKeepsTotal | symphony/mm/kheap.c:139-153 | merging conserves bytes, headers included |
| HeapMemory.HeaderInBytes | symphony/mm/kheap.c:18-23 | the 32 bytes of a header: size, free flag, next and previous address, each at its offset, lowest byte first |
| HeapMemory.SplitLinked | symphony/mm/kheap.c:57-69 | after the stores of a split the headers are the doubly linked list with the block cut in two |
| HeapMemory.MergeLinked | symphony/mm/kheap.c:136-158 | after the stores of a merge the headers are the doubly linked list with two blocks as one |
| HeapMemory.AppendLinked | symphony/mm/kheap.c:37-43 | appending links the new block behind the old last one |
| HeapMemory.HeadersIsolated | symphony/mm/kheap.c:50-70 | headers written where the heap writes them hit no live payload and no foreign page |
| HeapMemory.IsolatedTracks | symphony/mm/kheap.c:30-161 | what the heap writes leaves the page allocator's bitmap intact |
| HeapMemory.FreeIsolated | symphony/mm/kheap.c:127-160 | the poison survives the merges and touches no other live payload |
| HeapMemory.RetryTakesRegion | symphony/mm/kheap.c:104-106 | the retry after growth grows no further |
| HeapMemory.KmallocInPlace | symphony/mm/kheap.c:87-107 | in terms of the request alone: the first free block of the rounded size or more is given out, its pointer is 32 bytes behind its header, and no page is taken |
| HeapMemory.KmallocByGrowth | symphony/mm/kheap.c:30-107 | if there is none, the region is the fewest pages with room for the rounded size and a 32-byte header, at the allocator's run, and is what is given out |
| HeapMemory.KmallocKeepsCoalesced | symphony/mm/kheap.c:87-107 | kmalloc keeps full coalescing, though growth breaks it for a moment |
| HeapMemory.KmallocPanics | symphony/mm/kheap.c:87-107 | kmalloc panics exactly when no free block has the size and the bitmap has no free run of the region's pages |
| HeapMemory.KmallocKeepsAligned | symphony/mm/kheap.c:87-107 | kmalloc keeps an aligned heap aligned if and only if the rounded size is a multiple of 16 or the block or region is given out whole |
| HeapMemory.SomePointersAreUnaligned | symphony/mm/kheap.c:87-107 | kmalloc(10) and then kmalloc(1) on a new heap return a pointer that is 10 modulo 16 |
| HeapMemory.KmallocGrants | symphony/mm/kheap.c:87-107 | the pointer is the payload of a block now live, of the size asked for and at most 47 bytes more, outside every block that was live |
| HeapMemory.KfreeUndoesKmalloc | symphony/mm/kheap.c:87-161 | kfree(kmalloc(n)) restores the list, or adds just the region |
| KernelHeap.Heap.CreateBlock | symphony/mm/kheap.c:50-70 | the block is cut at n bytes, in memory and on the list |
| KernelHeap.Heap.TakePages | symphony/mm/kheap.c:34-35 | the pages come from the lowest free run, are zeroed, and nothing the heap or anyone else holds changes |
| KernelHeap.Heap.Extend | symphony/mm/kheap.c:30-47 | one free block over newly held pages is appended and accounted for, or the allocator panics |
| KernelHeap.Heap.Init | symphony/mm/kheap.c:72-85 | one free block of 16 pages less 32 bytes over the lowest 16 fresh pages, and no other page but the reserved ones is written |
| KernelHeap.Heap.Kmalloc | symphony/mm/kheap.c:87-107 | result, list, pages and held pages are those of the first fit or of one growth; the list stays linked, tiling, accounted for and coalesced; no live payload changes |
| KernelHeap.Heap.Kzalloc | symphony/mm/kheap.c:109-114 | the same, and the requested bytes are zero |
| KernelHeap.Heap.Kfree | symphony/mm/kheap.c:116-161 | NULL and free blocks change nothing; a live block is freed, merged on both sides and poisoned, and no other live payload changes |
| KernelClients.HeapSparesTables | symphony/mm/kheap.c:30-161 | no heap operation changes a page table |
| KernelClients.TablesSpareHeap | symphony/arch/x86_64/mm.c:31-176 | no page-table operation changes the heap, a loan or a page grant |
| KernelClients.LoansAreDisjoint | symphony/mm/kheap.c:87-114 | payloads held by clients never overlap |
| KernelClients.StoreKeepsLoans | symphony/mm/kheap.c:87-114 | a byte a client stores in its payload changes no other payload |
| KernelClients.StoreKeepsGrants | symphony/mm/pmm.c:136-143 | a byte a client stores in its pages changes no other page |
| Runs.ProcessorSeesSpaces | symphony/arch/x86_64/mm.c:31-176 | at every moment of a run the processor's walk for any address, in any address space or the kernel's own, sees exactly what was asked for at its page |
| Runs.MapGrantsRequest | symphony/arch/x86_64/mm.c:137-176 | after a map the processor's walk grants each address of that page exactly the requested frame and the rights of flag bits 1, 2 and 3, and every other address what it had |
| Runs.UnmapTakesAway | symphony/arch/x86_64/mm.c:149-161 | after an unmap the walk fails at each address of that page and grants every other address what it had |
| Runs.SetFlagsKeepsFrame | symphony/arch/x86_64/mm.c:163-176 | after a set_flags each address of that page keeps its frame and has exactly the rights of the flags, and every other address what it had |
| Runs.NewSpaceFaults | symphony/arch/x86_64/mm.c:82-87 | a new address space has a root nobody held and grants no address anything |
| Runs.OthersSeeNothing | symphony/mm/kheap.c:87-161 | no allocation, store or bit the processor sets changes what it sees at any address |
| Runs.LoanLives | symphony/mm/kheap.c:87-161 | a payload its holder neither frees nor writes is lent, with its bytes, at every moment of a run |
| Runs.GrantLives | symphony/mm/pmm.c:136-152 | pages their holder neither frees nor writes stay held, with their bytes, at every moment of a run |
| Runs.GrantIsFresh | symphony/mm/pmm.c:136-143 | pmm_alloc hands out exactly the pages asked for, and no page of the heap, the tables, the reserved memory or an outstanding grant |
| Accounting.LeaksAddUp | symphony/arch/x86_64/mm.c:89-130 | over a run the pages nobody owns grow by exactly the upper-half tables of the spaces destroyed |
| Accounting.LowerSpaceLeaksNothing | symphony/arch/x86_64/mm.c:89-130 | destroying a space never touched in its upper half loses no page |
| Accounting.NothingIsLost | symphony/mm/pmm.c:136-152 | if only such spaces are destroyed, at every moment of a run the held pages are exactly those of the heap, the tables and the clients |
| Accounting.PointersStayAligned | symphony/mm/kheap.c:87-161 | in a run that asks for no multiple of ten but multiples of 16, every pointer held is at every moment a multiple of 16 |
| Accounting.BlocksAreLoans | symphony/mm/kheap.c:87-161 | at every moment of a run the live blocks are exactly those behind the pointers clients still hold |
| Kernel.DestroySparesAll | symphony/arch/x86_64/mm.c:89-130 | destroying a client's space spares the heap, the loans and every grant but those mapped in it |
| Kernel.Machine.DropSpace | symphony/arch/x86_64/mm.c:89-130 | the other spaces stand as they did, the mapped grants go back, and only upper-half tables are lost |
| Kernel.Machine.Step | symphony/mm/pmm.c:136-152 | any operation keeps all layers apart and intact and has exactly its effect on loans, grants, spaces, the block list, the tables and the pages held; it panics exactly when memory is exhausted for it |
| Kernel.Machine.Run | symphony/mm/kheap.c:87-161 | the same over every sequence of operations, with the record of all its moments, header links and byte counters included |
| Booting.Boot | symphony/kernel.c:66-76 | the three initialisations in order give a machine all of whose held pages are the heap's or tables, with the kernel's address space built and one heap block of 16 pages; they fail only if no bitmap of the right size has a place or no 16 pages in a row are free |
| Booting.KernelSpaceIsBootMap | symphony/mm/vmm.c:34-64 | what vmm_init builds is, for any address, what BootMap says in plain numbers: the kernel image, else the memory map at its offset, else nothing |
| Booting.UsableIsCovered | symphony/mm/vmm.c:41-53 | every usable page but page 0 is in the direct map |
| Booting.KernelSpaceLives | symphony/mm/vmm.c:34-64 | at every moment of a run the processor's walk makes of each address in the kernel's space what BootMap says, unless the run asked for a change at its page |
| Booting.PointersReachMemory | symphony/mm/vmm.c:41-53 | at every moment of a run the processor reaches each byte that may be handed out at its address plus the offset modulo 2^64, writable and not for users, outside the kernel window and where no change was asked for |
| Digits.PeelWord | symphony/debug.c:71-123 | peeling the digits off the reversed word gives the numeral if and only if the reversed number fits 64 bits |
| Digits.Reverse | symphony/debug.c:62-76 | the loop counts the digits and leaves the reversed number modulo 2^64 |
| Debug.PrintIsExact | symphony/debug.c:55-140 | the digits printed are the numeral, and parse back, if and only if the reversed number fits 64 bits |
| Debug.TextIsExact | symphony/debug.c:115-123 | the characters printed spell the numeral under that condition and no other, in either case |
| Debug.UsualNumbersAreExact | symphony/debug.c:55-140 | exact for all base 16, signed decimals, unsigned decimals below 10^19 and octals below 2^63 |
| Debug.LongDecimalsAreWrong | symphony/debug.c:71-76 | every 20-digit decimal whose last digit is 2 or more is printed wrong |
| Debug.Console.PrintInt | symphony/debug.c:55-140 | sign, prefix, padding and digits in order, max(width, digits) wide; the count leaves out the prefix; base above 16 prints nothing |
| Printf.ConversionsAreExact | symphony/debug.c:296-319 | d, i, x, X and p always spell their value, u below 10^19 and o below 2^63 |
| Printf.IntIsSignExtended | symphony/debug.c:253-256 | an int argument prints as that int, sign and all |
| Printf.ReturnedIsLength | symphony/debug.c:296-335 | the count is the length printed, plus 36 for each percent sign, less the `#` prefixes |
| Printf.CountIsExact | symphony/debug.c:296-335 | without `#` the count is right if and only if no percent sign is printed |
| Printf.PlainTextIsPrinted | symphony/debug.c:162-167 | a format without directives prints itself |
| Directives.FlagScanEnds | symphony/debug.c:169-196 | the flag scan reads distinct flags and ends on a flag if and only if that flag was read before |
| Directives.ScanReadsBack | symphony/debug.c:169-247 | scanning a directive with distinct flags gives back its flags, width, length and conversion, and ends on the conversion, whatever surrounds it |
| Directives.RepeatedFlags | symphony/debug.c:169-335 | with any row of flags: flags, width, length, conversion and end are read back if and only if the flags from the first repeated one on are all zeros; else the directive ends on a flag, prints nothing and takes no argument |
| Directives.MinusMinusGoesWrong | symphony/debug.c:169-196 | `%--5d` prints 5d and leaves its argument for the next directive |
| Directives.FormatSplits | symphony/debug.c:162-335 | plain text, a directive and the rest print the text, what the directive means, and the rest with the remaining arguments |
| Printf.Vprintf | symphony/debug.c:153-335 | scans flags, width, length and conversion without reading past the terminator, and prints and returns what the format stands for |
| Output.SpellingReads | symphony/debug.c:115-123 | the characters printed for digits, read by their character codes, denote the number the digits denote |
| Output.OneSpelling | symphony/debug.c:71-123 | a number has one numeral in characters, so the statements below determine what is printed |
| Output.PrintedReaches | symphony/debug.c:55-140 | of any magnitude: as many characters as its numeral has, those of the numeral read from right to left and cut down to 64 bits; they denote it if and only if nothing is cut off |
| Output.FrameInNumbers | symphony/debug.c:78-134 | bit 63 makes a signed number negative; the minus sign or what flag bits 1 and 2 ask for, the prefix of bit 5, and padding of the character of bit 3 on the side of bit 0 |
| Output.DirectivesAre | symphony/debug.c:169-247 | the directives of the language, in plain characters |
| Output.FlagsAreSet | symphony/debug.c:169-196 | the flag characters of a directive are bits 0, 1, 2, 3 and 5 |
| Output.ValueInNumbers | symphony/debug.c:249-294 | the value a directive is about: of 32 bits for no length, h and hh, of 64 for the others, signed for d and i |
| Output.ConvInNumbers | symphony/debug.c:296-319 | x, X and p are in base 16, o in base 8, d, i and u in base 10; X and p in capitals |
| Output.IntegerPrints | symphony/debug.c:55-319 | what an integer directive prints for any argument: sign, prefix, digits and padding, character by character |
| Output.UsualValuesReach | symphony/debug.c:55-319 | for d, i, x, X and p, u below 10^19 and o below 2^63 the digits are the numeral of the value |
| Output.ReadsBack | symphony/debug.c:55-319 | the text reads back as the value if and only if the numeral read backwards fits 64 bits and no zeros are padded on its right; it begins with a minus sign if and only if the value is negative |
| Output.RightZerosGoWrong | symphony/debug.c:104-134 | `%-03d` of 5 prints 500 |
| Output.OthersPrint | symphony/debug.c:296-335 | c prints the low byte of its argument, s its string or (null), a percent sign itself |
| Output.CountInNumbers | symphony/debug.c:296-335 | what is counted for a directive is what it prints less the prefix |
| Output.FormatPrints | symphony/debug.c:153-335 | a whole format prints its pieces in order, each directive its own argument, taken from the front, and returns the sum of their counts |

## Left out

- PhysicalPages.Pmm.Free: an unaligned base is excluded, because the bits cleared and the bytes poisoned would then be of different pages; pmm_alloc returns aligned bases only.
- KernelHeap.Heap.Kfree: a pointer that is not a payload on the list is excluded; the source reads whatever lies before it.
- PageTables.PageTables.Destroy: the four nested loops are one recursive method over the levels, and its test of a link for NULL, which a present link to a held frame never is, is left out.
- PageTables.PageTables.StoreEntry: the bit-field stores to one entry are one store of the whole word, so states between two of them are not modelled; the header fields of a heap block are stored in one step per header for the same reason.
- KernelHeap.Heap.StoreHeader: as for page-table entries, the intermediate states between the stores to one header are not modelled.
- Printf.Vprintf: arguments are typed words and strings; fetching them from a variable argument list is not modelled, and neither is the overflow of the width counter, which a width above ten digits causes.
- Debug.Console.PrintInt: negating the least 64-bit integer, which overflows in C, gives 2^63 here.
- Interrupts and concurrency: the source takes no locks, and nothing here runs in parallel.
- vmm_kernel_pt: a getter; runs map into the kernel's space as its callers may.
- Hardware.Access: the processor sets its bits between the kernel's operations, never in the middle of one.
- Booting.Boot: the architecture's own initialisation between and after the three steps sets up descriptor tables and is not modelled.
- Loading CR3, flushing the TLB, port and serial output, and halting: foreign instructions; console output is a ghost string.
- Requests to the boot loader, interrupt and descriptor tables, and the string functions other than memset.
- debug_log, debug_panic and the assertion macros: log lines are not modelled, a panic is a failed result.
- The aarch64 and riscv64 ports.
