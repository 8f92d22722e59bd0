/** The kernel boots: page allocator, address space, heap, in that order; and what of it lasts. */
module Booting {
  import opened Wrappers
  import opened Memory
  import opened Bitmap
  import opened BootMemory
  import opened PhysicalPages
  import opened PageTableEntry
  import opened TableTree
  import opened PageTables
  import opened Hardware
  import opened VirtualMemory
  import opened HeapList
  import opened HeapMemory
  import opened KernelHeap
  import opened KernelClients
  import opened Spaces
  import opened Runs
  import opened Accounting
  import opened Kernel

  /** The memory map fits the direct map. */
  ghost predicate InDirectMap(entries: seq<MemmapEntry>) {
    forall i: int :: 0 <= i < |entries| ==> entries[i].SkipPageZero().End() <= TWO_TO_THE_48
  }

  /** Every usable page but page 0 is in the direct map. */
  lemma UsableIsCovered(entries: seq<MemmapEntry>, p: nat)
    requires UsablePage(entries, p) && p != 0
    ensures Covered(entries, |entries|, p)
    ensures InDirectMap(entries) ==> p < KEYS
  {
    var i: nat :| i < |entries| && InUsable(entries[i], p);
    EntryTakesIn(entries[i], p);
  }

  lemma EntryTakesIn(e: MemmapEntry, p: nat)
    requires InUsable(e, p) && p != 0
    ensures EntryCovers(e, p) && (e.SkipPageZero().End() <= TWO_TO_THE_48 ==> p < KEYS)
  {
    var e' := e.SkipPageZero();
    var last := e.End() - 1;
    assert p * PAGE_SIZE + PAGE_SIZE <= e.End();
    assert e'.base / PAGE_SIZE <= p && e'.End() == e.End();
    assert e'.base + e'.length <= (e'.base / PAGE_SIZE + PageCount(e'.length)) * PAGE_SIZE + e'.base % PAGE_SIZE;
  }

  /** The page tables survive a heap set up in pages nobody held. */
  lemma TablesSurvive(m: Bytes, m': Bytes, view: View, places: Places, held: set<nat>, reserved: set<nat>,
                      pages: set<nat>)
    requires Stored(m, view) && Owned(view, places) && places.Keys <= held && reserved !! held && pages !! held
    requires forall p: nat :: p !in reserved + pages ==> SamePage(m, m', p)
    ensures Stored(m', view) && forall t: nat :: t in places ==> t !in pages
  {
    StoredFrame(m, m', view);
  }

  /** The bitmap in memory has no run of n free pages. */
  ghost predicate Exhausted(m: Bytes, bitmap: nat, size: nat, n: nat) {
    bitmap + size <= |m| && NoFreeRun(Marked(m, bitmap, size), 8 * size, n)
  }

  lemma NoPageNoRun(marked: set<nat>, tracked: nat, n: nat)
    requires FirstRun(marked, tracked, 1, 0).None? && 0 < n
    ensures NoFreeRun(marked, tracked, n)
  {
    FirstRunIsLowest(marked, tracked, 1, 0);
    forall b: nat
      ensures FreeRun(marked, tracked, b, n) ==> FreeRun(marked, tracked, b, 1)
    {
    }
  }

  lemma FullIsExhausted(m: Bytes, bitmap: nat, size: nat, reserved: set<nat>, held: set<nat>)
    requires Tracks(m, bitmap, size, reserved, held)
    requires FirstRun(reserved + held, 8 * size, 1, 0).None?
    ensures Exhausted(m, bitmap, size, 16)
  {
    NoPageNoRun(reserved + held, 8 * size, 16);
  }

  lemma NoRunIsExhausted(m: Bytes, bitmap: nat, size: nat, reserved: set<nat>, held: set<nat>)
    requires Tracks(m, bitmap, size, reserved, held)
    requires FirstRun(reserved + held, 8 * size, KHEAP_INIT_PAGES, 0).None?
    ensures Exhausted(m, bitmap, size, 16)
  {
    FirstRunIsLowest(reserved + held, 8 * size, KHEAP_INIT_PAGES, 0);
  }

  /** pmm_init, vmm_init and kheap_init, in the order of the kernel's entry point. It fails only if there
      is no place for a bitmap of the right size, or memory has no 16 free pages for the heap. */
  method Boot(mem: array<bv8>, entries: seq<MemmapEntry>, hhdm: nat, physBase: nat, virtBase: nat, size: nat)
      returns (machine: Option<Machine>, ghost bitmap: nat, ghost bytes: nat)
    requires BootGuarantees(entries, mem.Length) && mem.Length <= MAX_MEMORY && InDirectMap(entries)
    requires hhdm % PAGE_SIZE == 0 && size <= TWO_TO_THE_48
    modifies mem
    ensures machine.None? ==>
        || !(exists n: nat, a: nat :: RightBitmap(entries, n, a))
        || (RightBitmap(entries, bytes, bitmap) && Exhausted(mem[..], bitmap, bytes, 16))
    ensures machine.Some? ==>
        var k := machine.value;
        && k.Valid() && k.tables.pmm.mem == mem && k.loans == [] && k.grants == [] && k.spaces == []
        && Booted(k.Base(), entries, hhdm, physBase, virtBase, size)
        && AllPagesOwned(k.Now()) && TablesTouched(k.Now()) && AllBlocksLent(k.Now())
        && AllAligned(k.heap.blocks) && k.over == map[] && OneBlock(k.heap.blocks)
  {
    hide Tracks, Stored, Owned, KernelSpace, Chain, HeadersStored, Coalesced, AllLent, GrantsOutside, StandFor,
         KernelStands, BootGuarantees, UsableBeyondFirst, HasRoom, Placement, Unallocatable, Exhausted, FirstRun,
         Spare, AllPagesOwned, TablesTouched, AllBlocksLent, BitmapBytes, Intact, RightBitmap, Barred, OneBlock,
         FitsIn, Account, TotalBytes, Marked, AllAligned;
    var pmm := new Pmm(mem);
    var ok := pmm.Init(entries);
    bitmap, bytes := pmm.bitmap, pmm.bitmapSize;
    if !ok {
      return None, bitmap, bytes;
    }
    var tables := new PageTables(pmm);
    NothingSpare(tables.Now());
    var vmm := new Vmm(tables);
    ok := vmm.Init(entries, hhdm, physBase, virtBase, size);
    if !ok {
      FullIsExhausted(mem[..], bitmap, bytes, pmm.reserved, pmm.held);
      return None, bitmap, bytes;
    }
    var heap, okHeap := SetUpHeap(tables);
    if !okHeap {
      NoRunIsExhausted(mem[..], bitmap, bytes, pmm.reserved, pmm.held);
      return None, bitmap, bytes;
    }
    var k := new Machine(tables, heap, vmm.kernelPT);
    k.ValidIsIntact();
    AllInUse(k.Base(), k.Now());
    return Some(k), bitmap, bytes;
  }

  /** The heap's list is one free block over 16 pages, less the 32 bytes of its header. */
  ghost predicate OneBlock(bs: Blocks) {
    |bs| == 1 && bs[0].free && bs[0].addr % 0x1000 == 0 && bs[0].size + 32 == 0x1_0000
  }

  lemma NothingSpare(s: State)
    requires s.held == {}
    ensures Spare(s) == {}
  {
  }

  /** Nothing handed out yet, and every page held is the heap's or a table. */
  lemma AllInUse(g: Ground, t: Moment)
    requires Intact(g, t) && t.loans == [] && t.grants == [] && t.spaces == []
    requires Spare(t.s) <= t.pages && forall i: nat :: i < |t.blocks| ==> t.blocks[i].free
    ensures AllPagesOwned(t) && TablesTouched(t) && AllBlocksLent(t)
  {
    hide AllPagesOwned, Intact;
    OwnedIffNoneUnowned(g, t);
  }

  lemma FirstBlockAligned(page: nat)
    ensures AllAligned([Block(page * PAGE_SIZE, KHEAP_INIT_PAGES * PAGE_SIZE - HEADER, true)])
  {
    PagesAligned(page, KHEAP_INIT_PAGES);
  }

  lemma MoreSpare(held: set<nat>, held': set<nat>, places: Places, pages: set<nat>)
    requires held' == held + pages && pages !! held && places.Keys <= held
    ensures held' - (set t: nat | t in places) == held - (set t: nat | t in places) + pages
  {
  }

  /** kheap_init leaves the page tables as they were. */
  method SetUpHeap(tables: PageTables) returns (heap: Heap, ok: bool)
    requires tables.Valid()
    modifies tables.pmm`held, tables.pmm.mem
    ensures fresh(heap) && heap.pmm == tables.pmm
    ensures !ok ==>
        && tables.pmm.Valid()
        && FirstRun(tables.pmm.reserved + tables.pmm.held, tables.pmm.Tracked(), KHEAP_INIT_PAGES, 0).None?
    ensures ok ==> tables.Valid() && heap.Valid() && forall t: nat :: t in tables.places ==> t !in heap.pages
    ensures ok ==> Spare(tables.Now()) == old(Spare(tables.Now())) + heap.pages
    ensures ok ==> AllAligned(heap.blocks) && forall i: nat :: i < |heap.blocks| ==> heap.blocks[i].free
    ensures ok ==> OneBlock(heap.blocks)
  {
    hide Tracks, Stored, Owned, FirstRun, Chain, HeadersStored, Coalesced, TotalBytes, Pages, AllAligned;
    ghost var m, held := tables.pmm.mem[..], tables.pmm.held;
    TracksApart(m, tables.pmm.bitmap, tables.pmm.bitmapSize, tables.pmm.reserved, held);
    heap := new Heap(tables.pmm);
    ghost var page;
    ok, page := heap.Init();
    if ok {
      TablesSurvive(m, tables.pmm.mem[..], tables.view, tables.places, held, tables.pmm.reserved, heap.pages);
      MoreSpare(held, tables.pmm.held, tables.places, heap.pages);
      FirstBlockAligned(page);
    }
  }

  /** What booting fixes for good: which pages are never handed out, and the kernel's address space. */
  ghost predicate Booted(g: Ground, entries: seq<MemmapEntry>, hhdm: nat, physBase: nat, virtBase: nat, size: nat) {
    && RightBitmap(entries, g.size, g.bitmap)
    && (forall p: nat :: p in g.reserved <==> Barred(entries, g.bitmap, g.size, p))
    && (forall p: nat :: p in g.reserved <==> Unallocatable(entries, g.bitmap, g.size, p))
    && KernelSpace(g.boot, g.kernelPT, entries, Key(hhdm), Key(virtBase), physBase / PAGE_SIZE, PageCount(size))
  }

  // ----- What lasts -----

  /** The operation asks for a change at this page of the kernel's own space. */
  predicate RemapsKernel(op: Op, page: nat) {
    IsMapping(op) && op.to.OfKernel? && op.virtAddr / 0x1000 % 0x10_0000_0000 == page
  }

  lemma KernelPageStep(g: Ground, t: Moment, op: Op, t': Moment, key: nat)
    requires Stepped(g, t, op, t') && !RemapsKernel(op, key) && key !in t.over
    ensures key !in t'.over
  {
    hide TablesStep, HeapStep, LoansStep, Wanted, RequestOn;
    hide Stepped;
    StepParts(g, t, op, t');
    if IsMapping(op) {
      IndexIsAddressBits(op.virtAddr, 1);
    }
  }

  lemma {:induction false} KernelPageStays(g: Ground, ops: seq<Op>, history: seq<Moment>, n: nat, key: nat)
    requires Recorded(g, ops, history) && n < |history| && key !in history[0].over
    requires forall k: nat :: k < n ==> !RemapsKernel(ops[k], key)
    ensures key !in history[n].over
  {
    hide Intact, Stuck, Stepped, RemapsKernel;
    if n > 0 {
      KernelPageStays(g, ops, history, n - 1, key);
      assert Stepped(g, history[n - 1], ops[n - 1], history[n]) && !RemapsKernel(ops[n - 1], key);
      KernelPageStep(g, history[n - 1], ops[n - 1], history[n], key);
    }
  }

  /** Frame f is one of those that a memory-map entry touches, in plain numbers; page 0 is none. */
  ghost predicate Touches(e: MemmapEntry, f: nat) {
    if e.base != 0 then e.base / 0x1000 <= f && 0x1000 * (f - e.base / 0x1000) < e.length
    else 1 <= f && 0x1000 * f < e.length
  }

  /** What vmm_init is to make of virtual address v, in plain numbers: the kernel image at its virtual base,
      and else, at the offset, the frames of the memory map, all writable and executable by the kernel. */
  ghost function BootMap(entries: seq<MemmapEntry>, hhdm: nat, physBase: nat, virtBase: nat, size: nat, frames: nat,
                         v: nat): Option<Translation> {
    var k := (v / 0x1000 - virtBase / 0x1000) % 0x10_0000_0000;
    var f := (v / 0x1000 - hhdm / 0x1000) % 0x10_0000_0000;
    if 0x1000 * k < size then AllRights((physBase / 0x1000 + k) % 0x100_0000_0000, frames)
    else if exists i: nat :: i < |entries| && Touches(entries[i], f) then AllRights(f, frames)
    else None
  }

  ghost function AllRights(f: nat, frames: nat): Option<Translation> {
    if f < frames then Some(Translation(f, true, false, true)) else None
  }

  lemma TouchesIsCovers(e: MemmapEntry, f: nat)
    ensures Touches(e, f) <==> EntryCovers(e, f)
  {
  }

  lemma CoveredIsTouched(entries: seq<MemmapEntry>, f: nat)
    ensures Covered(entries, |entries|, f) <==> exists i: nat :: i < |entries| && Touches(entries[i], f)
  {
    hide Touches, EntryCovers;
    forall i: nat | i < |entries|
      ensures Touches(entries[i], f) <==> EntryCovers(entries[i], f)
    {
      TouchesIsCovers(entries[i], f);
    }
  }

  lemma KernelEntryGrants(f: nat, frames: nat)
    ensures LeafTranslation(KernelEntry(f), frames) == AllRights(f % 0x100_0000_0000, frames)
  {
    FrameOfMapped(ABSENT, PAGE_SIZE * f, VMM_PRESENT + VMM_RWX, frames);
  }

  /** What vmm_init builds is that. */
  lemma KernelSpaceIsBootMap(view: View, root: nat, entries: seq<MemmapEntry>, hhdm: nat, physBase: nat, virtBase: nat,
                             size: nat, frames: nat, v: nat)
    requires KernelSpace(view, root, entries, Key(hhdm), Key(virtBase), physBase / PAGE_SIZE, PageCount(size))
    ensures LeafTranslation(Flat(view, root, v / 0x1000 % 0x10_0000_0000), frames) ==
            BootMap(entries, hhdm, physBase, virtBase, size, frames, v)
  {
    hide LeafTranslation, Covered, Flat, Touches, AllRights, KernelEntry, Offset, Key;
    var key := v / 0x1000 % 0x10_0000_0000;
    var k := (v / 0x1000 - virtBase / 0x1000) % 0x10_0000_0000;
    var f := (v / 0x1000 - hhdm / 0x1000) % 0x10_0000_0000;
    DistanceOfPages(v, virtBase);
    DistanceOfPages(v, hhdm);
    assert k < PageCount(size) <==> 0x1000 * k < size;
    CoveredIsTouched(entries, f);
    KernelEntryGrants(physBase / PAGE_SIZE + k, frames);
    KernelEntryGrants(f, frames);
    AbsentGrantsNothing(frames);
  }

  /** In a run from boot on, the processor, walking memory, makes at every moment of each address in the
      kernel's own space what vmm_init is to build, unless the run asked for a change at that very page. */
  lemma KernelSpaceLives(g: Ground, ops: seq<Op>, history: seq<Moment>, n: nat, entries: seq<MemmapEntry>, hhdm: nat,
                         physBase: nat, virtBase: nat, size: nat, frames: nat, v: nat)
    requires Booted(g, entries, hhdm, physBase, virtBase, size) && Recorded(g, ops, history) && n < |history|
    requires v / 0x1000 % 0x10_0000_0000 !in history[0].over
    requires forall k: nat :: k < n ==> !RemapsKernel(ops[k], v / 0x1000 % 0x10_0000_0000)
    requires g.limit <= 0x1000 * frames
    ensures HardwareWalk(history[n].s.mem, frames, g.kernelPT, v, 4, true, true, true) ==
            BootMap(entries, hhdm, physBase, virtBase, size, frames, v)
  {
    hide HardwareWalk, LeafTranslation, Stuck, Stepped, Intact, Flat, RemapsKernel, KernelSpace, BootMap, Unallocatable;
    var key := v / 0x1000 % 0x10_0000_0000;
    KernelPageStays(g, ops, history, n, key);
    assert Intact(g, history[n]);
    ProcessorSeesSpaces(g, history[n], frames, OfKernel, v);
    KernelSpaceIsBootMap(g.boot, g.kernelPT, entries, hhdm, physBase, virtBase, size, frames, v);
  }

  /** In a run from boot on, at every moment, the processor, walking memory, reaches every byte of every
      page that may be handed out at its physical address plus the offset, writable and for the kernel
      only, unless the kernel image lies over that address or the run asked for a change there: a kernel
      pointer does reach the memory it stands for. */
  lemma PointersReachMemory(g: Ground, ops: seq<Op>, history: seq<Moment>, n: nat, entries: seq<MemmapEntry>,
                            hhdm: nat, physBase: nat, virtBase: nat, size: nat, frames: nat, a: nat)
    requires Booted(g, entries, hhdm, physBase, virtBase, size) && Recorded(g, ops, history) && n < |history|
    requires hhdm % 0x1000 == 0 && InDirectMap(entries) && g.limit <= 0x1000 * frames && frames <= 0x100_0000_0000
    requires a < g.limit && a / 0x1000 < 8 * g.size && a / 0x1000 !in g.reserved
    requires var v := (a + hhdm) % 0x1_0000_0000_0000_0000;
             && 0x1000 * ((v / 0x1000 - virtBase / 0x1000) % 0x10_0000_0000) >= size
             && v / 0x1000 % 0x10_0000_0000 !in history[0].over
             && forall k: nat :: k < n ==> !RemapsKernel(ops[k], v / 0x1000 % 0x10_0000_0000)
    ensures var v := (a + hhdm) % 0x1_0000_0000_0000_0000;
            && HardwareWalk(history[n].s.mem, frames, g.kernelPT, v, 4, true, true, true) ==
               Some(Translation(a / 0x1000, true, false, true))
            && 0x1000 * (a / 0x1000) + v % 0x1000 == a
  {
    hide HardwareWalk, LeafTranslation, Stepped, Stuck, Intact, KernelSpace, Covered, Flat, Recorded, RemapsKernel,
         Booted, Touches;
    var v := (a + hhdm) % 0x1_0000_0000_0000_0000;
    HandedOutIsCovered(g, entries, hhdm, physBase, virtBase, size, a / PAGE_SIZE);
    KernelSpaceLives(g, ops, history, n, entries, hhdm, physBase, virtBase, size, frames, v);
    CoveredIsTouched(entries, a / PAGE_SIZE);
    OffsetAddressOf(a, hhdm);
  }

  /** The page of an address plus the offset. */
  lemma OffsetAddressOf(a: nat, hhdm: nat)
    requires hhdm % 0x1000 == 0 && a / 0x1000 < 0x10_0000_0000
    ensures var v := (a + hhdm) % 0x1_0000_0000_0000_0000;
            (v / 0x1000 - hhdm / 0x1000) % 0x10_0000_0000 == a / 0x1000 && v % 0x1000 == a % 0x1000
  {
    var v, q := (a + hhdm) % 0x1_0000_0000_0000_0000, (a + hhdm) / 0x1_0000_0000_0000_0000;
    assert v == a + hhdm - 0x1000 * (0x10_0000_0000_0000 * q);
    assert (a + hhdm) / 0x1000 == a / 0x1000 + hhdm / 0x1000;
    assert v / 0x1000 == a / 0x1000 + hhdm / 0x1000 - 0x10_0000_0000 * (0x1_0000 * q);
    DropWholeTurns(a / 0x1000, 0x1_0000 * q);
  }

  lemma DropWholeTurns(x: nat, q: nat)
    requires x < 0x10_0000_0000
    ensures (x - 0x10_0000_0000 * q) % 0x10_0000_0000 == x
  {
  }

  /** A page that may be handed out is covered by the memory map. */
  lemma HandedOutIsCovered(g: Ground, entries: seq<MemmapEntry>, hhdm: nat, physBase: nat, virtBase: nat, size: nat,
                           p: nat)
    requires Booted(g, entries, hhdm, physBase, virtBase, size) && InDirectMap(entries)
    requires p < 8 * g.size && p !in g.reserved
    ensures Covered(entries, |entries|, p) && p < KEYS
  {
    hide KernelSpace, Covered;
    UsableIsCovered(entries, p);
  }
}
