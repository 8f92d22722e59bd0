/** The layers together: one page allocator below the heap and the page tables, over any run of
    operations by any clients. */
module Kernel {
  import opened Wrappers
  import opened Memory
  import opened PhysicalPages
  import opened PageTableEntry
  import opened TableTree
  import opened TreeTeardown
  import opened PageTables
  import opened HeapList
  import opened HeapMemory
  import opened KernelHeap
  import opened KernelClients
  import opened Spaces
  import opened Hardware
  import opened Runs

  // ----- Single steps -----

  /** Remapping a page writes no page of the heap, and changes one page of one target. */
  lemma Settle(s: State, s': State, reserved: set<nat>, headers: Headers, bs: Blocks, pages: set<nat>,
               loans: seq<Loan>, grants: seq<Grant>, spaces: seq<nat>, flat: seq<FlatMap>, kernelPT: nat, boot: View,
               over: FlatMap, to: Target, key: nat, e': Entry, e: Entry)
    requires |s'.mem| == |s.mem| && reserved !! s.held
    requires pages <= s.held && forall t: nat :: t in s.places ==> t !in pages
    requires HeadersStored(s.mem, headers) && Linked(headers, bs) && Tiles(bs, pages) && AllLent(bs, s.mem, loans)
    requires GrantsOutside(s.mem, grants, s.held, pages, s.places)
    requires StandFor(s.view, s.places, spaces, flat) && KernelStands(s.view, s.places, spaces, kernelPT, boot, over)
    requires s.places.Keys <= s.held && RootOf(spaces, kernelPT, to).Some? && Alike(e', e)
    requires Remapped(s, s', reserved, RootOf(spaces, kernelPT, to).value, key, e')
    ensures TablesAdded(s, s', reserved) && NewOnPath(s, s', RootOf(spaces, kernelPT, to).value, key)
    ensures Spare(s') == Spare(s)
    ensures HeadersStored(s'.mem, headers) && AllLent(bs, s'.mem, loans)
    ensures pages <= s'.held && forall t: nat :: t in s'.places ==> t !in pages
    ensures GrantsOutside(s'.mem, grants, s'.held, pages, s'.places)
    ensures StandFor(s'.view, s'.places, spaces, PutFlat(flat, to, key, e))
    ensures KernelStands(s'.view, s'.places, spaces, kernelPT, boot, PutOver(over, to, key, e))
  {
    hide HeadersStored, Linked, Tiles, AllLent, StandFor, NewOnPath, FlatUpdated, GrantsOutside, KernelStands, Spare,
         RootOf, Alike;
    TablesAddedSpare(s, s', reserved);
    TablesSpareHeap(s, s', reserved, headers, bs, pages, loans, grants);
    PutStands(s, s', reserved, spaces, flat, kernelPT, boot, over, to, key, e', e);
  }

  /** The processor's own writes go to tables only. */
  lemma AccessSparesAll(s: State, s': State, reserved: set<nat>, headers: Headers, bs: Blocks, pages: set<nat>,
                        loans: seq<Loan>, grants: seq<Grant>, spaces: seq<nat>, flat: seq<FlatMap>, kernelPT: nat,
                        boot: View, over: FlatMap)
    requires |s'.mem| == |s.mem| && reserved !! s.held && s'.held == s.held && s'.places == s.places
    requires pages <= s.held && forall t: nat :: t in s.places ==> t !in pages
    requires HeadersStored(s.mem, headers) && Linked(headers, bs) && Tiles(bs, pages) && AllLent(bs, s.mem, loans)
    requires GrantsOutside(s.mem, grants, s.held, pages, s.places)
    requires StandFor(s.view, s.places, spaces, flat) && KernelStands(s.view, s.places, spaces, kernelPT, boot, over)
    requires forall p: nat :: p !in s.places ==> SamePage(s.mem, s'.mem, p)
    requires forall r: nat, k: nat :: Alike(Flat(s'.view, r, k), Flat(s.view, r, k))
    ensures HeadersStored(s'.mem, headers) && AllLent(bs, s'.mem, loans)
    ensures GrantsOutside(s'.mem, grants, s'.held, pages, s'.places)
    ensures StandFor(s'.view, s'.places, spaces, flat)
    ensures KernelStands(s'.view, s'.places, spaces, kernelPT, boot, over)
  {
    hide HeadersStored, Linked, Tiles, AllLent, StandFor, GrantsOutside, KernelStands, Alike, Flat;
    TablesSpareHeap(s, s', reserved, headers, bs, pages, loans, grants);
    AlikeStands(s.view, s'.view, s.places, spaces, flat, kernelPT, boot, over);
  }

  lemma NewKeepsKernel(s: State, s': State, spaces: seq<nat>, kernelPT: nat, boot: View, over: FlatMap, pt: nat)
    requires KernelStands(s.view, s.places, spaces, kernelPT, boot, over) && pt !in s.places
    requires s'.places == s.places[pt := Place(pt, 4, 0, pt)] && SameFlat(s.view, s'.view, s.places)
    ensures KernelStands(s'.view, s'.places, spaces + [pt], kernelPT, boot, over)
  {
    hide Flat;
  }

  lemma DestroyKeepsKernel(view: View, places: Places, view': View, spaces: seq<nat>, kernelPT: nat, boot: View,
                           over: FlatMap, j: nat)
    requires KernelStands(view, places, spaces, kernelPT, boot, over) && j < |spaces| && Owned(view, places)
    requires IsRoot(places, spaces[j])
    requires forall r: nat, k: nat :: r != spaces[j] && IsRoot(places, r) && k < KEYS ==>
        Flat(view', r, k) == Flat(view, r, k)
    ensures KernelStands(view', Others(places, places, spaces[j]), Removed(spaces, j), kernelPT, boot, over)
  {
    hide Flat;
    assert spaces[j] in spaces;
    RootSurvives(view, places, spaces[j], kernelPT);
  }

  /** A destroyable space meets what the teardown asks. */
  lemma MayTearDown(s: State, pages: set<nat>, spaces: seq<nat>, flat: seq<FlatMap>, grants: seq<Grant>, j: nat)
    requires StandFor(s.view, s.places, spaces, flat) && j < |spaces|
    requires GrantsOutside(s.mem, grants, s.held, pages, s.places) && Destroyable(flat[j], grants)
    ensures OwnLeaves(s.view, s.places, s.held, spaces[j])
  {
    DestroyableOwnsLeaves(s.view, s.places, s.held, spaces[j], flat[j], grants);
  }

  lemma WithoutSmall(grants: seq<Grant>, frames: set<nat>)
    requires forall k: nat :: k < |grants| ==> grants[k].n < 0x8_0000
    ensures var rest := Without(grants, frames); forall k: nat :: k < |rest| ==> rest[k].n < 0x8_0000
  {
    var rest := Without(grants, frames);
    forall k: nat | k < |rest|
      ensures rest[k].n < 0x8_0000
    {
      assert rest[k] in rest;
    }
  }

  /** Nothing handed out yet. */
  lemma EmptyHands(s: State, bs: Blocks, pages: set<nat>, kernelPT: nat)
    requires IsRoot(s.places, kernelPT)
    ensures AllLent(bs, s.mem, []) && GrantsOutside(s.mem, [], s.held, pages, s.places)
    ensures StandFor(s.view, s.places, [], []) && KernelStands(s.view, s.places, [], kernelPT, s.view, map[])
  {
  }

  /** Destroying a client's destroyable space spares the heap, the loans, the other grants and spaces, and
      the kernel's own. */
  lemma DestroySparesAll(s: State, s': State, reserved: set<nat>, headers: Headers, bs: Blocks, pages: set<nat>,
                         loans: seq<Loan>, grants: seq<Grant>, root: nat, f: FlatMap)
    requires |s'.mem| == |s.mem| && reserved !! s.held && Owned(s.view, s.places) && IsRoot(s.places, root)
    requires pages <= s.held && forall t: nat :: t in s.places ==> t !in pages
    requires HeadersStored(s.mem, headers) && Linked(headers, bs) && Tiles(bs, pages) && AllLent(bs, s.mem, loans)
    requires GrantsOutside(s.mem, grants, s.held, pages, s.places) && Destroyable(f, grants)
    requires forall k: nat :: k < KEYS ==> Alike(Flat(s.view, root, k), Look(f, k))
    requires s'.places == Others(s.places, s.places, root)
    requires forall x: nat :: x in s'.held <==> x in s.held && !Doomed(Space(s.view, s.places, s.held, root), x)
    requires forall p: nat :: p !in reserved && !Doomed(Space(s.view, s.places, s.held, root), p) ==>
        SamePage(s.mem, s'.mem, p)
    ensures HeadersStored(s'.mem, headers) && AllLent(bs, s'.mem, loans)
    ensures pages <= s'.held && forall t: nat :: t in s'.places ==> t !in pages
    ensures GrantsOutside(s'.mem, Without(grants, LeafFrames(f)), s'.held, pages, s'.places)
  {
    var sp := Space(s.view, s.places, s.held, root);
    DestroyableOwnsLeaves(s.view, s.places, s.held, root, f, grants);
    hide HeadersStored, Linked, Tiles, AllLent, AllGranted, GrantPages, Doomed, Flat, Owned, OwnLeaves, Destroyable;
    forall p: nat | p in pages || (p in GrantPages(grants) && p !in LeafFrames(f))
      ensures SamePage(s.mem, s'.mem, p) && p in s'.held
    {
      DoomedFrames(sp, f, p);
    }
    WithoutGranted(s.mem, s'.mem, grants, LeafFrames(f));
    PagesKeepHeaders(s.mem, s'.mem, headers, bs, pages);
    TablesKeepLoans(bs, pages, s.mem, s'.mem, loans);
  }

  /** Destroying a space gives back what it held, its upper-half tables apart. */
  lemma DestroyAccounts(s: State, s': State, pages: set<nat>, grants: seq<Grant>, root: nat, f: FlatMap)
    requires Owned(s.view, s.places) && IsRoot(s.places, root) && s.places.Keys <= s.held
    requires pages <= s.held && forall t: nat :: t in s.places ==> t !in pages
    requires GrantsOutside(s.mem, grants, s.held, pages, s.places) && Destroyable(f, grants)
    requires forall k: nat :: k < KEYS ==> Alike(Flat(s.view, root, k), Look(f, k))
    requires s'.places == Others(s.places, s.places, root)
    requires forall x: nat :: x in s'.held <==> x in s.held && !Doomed(Space(s.view, s.places, s.held, root), x)
    ensures Spare(s') - pages - GrantPages(Without(grants, LeafFrames(f))) ==
            Spare(s) - pages - GrantPages(grants) + UpperTables(s.places, root)
  {
    var sp := Space(s.view, s.places, s.held, root);
    DestroyableOwnsLeaves(s.view, s.places, s.held, root, f, grants);
    LeavesOf(s.view, root, f);
    hide Flat, Owned, OwnLeaves, Destroyable, GrantPages, LeafFrames, LeafAt, Lower;
    forall x: nat
      ensures x in GrantPages(Without(grants, LeafFrames(f))) <==> x in GrantPages(grants) && x !in LeafFrames(f)
    {
      WithoutPages(grants, LeafFrames(f), x);
    }
    forall x: nat
      ensures x in Spare(s') - pages - GrantPages(Without(grants, LeafFrames(f))) <==>
              x in Spare(s) - pages - GrantPages(grants) + UpperTables(s.places, root)
    {
      assert Doomed(sp, x) ==
             (x == root || x in LeafFrames(f)
              || (x in s.places && s.places[x].root == root && Lower(s.places[x].level, s.places[x].prefix)));
    }
  }

  /** A byte stored in a loan spares everything else. */
  lemma StoreSparesAll(s: State, m': Bytes, reserved: set<nat>, bitmap: nat, size: nat, headers: Headers, bs: Blocks,
                       pages: set<nat>, loans: seq<Loan>, grants: seq<Grant>, k: nat, i: nat, off: nat, b: bv8)
    requires Tracks(s.mem, bitmap, size, reserved, s.held) && Stored(s.mem, s.view) && Owned(s.view, s.places)
    requires pages <= s.held && forall t: nat :: t in s.places ==> t !in pages
    requires HeadersStored(s.mem, headers) && Linked(headers, bs) && Tiles(bs, pages) && AllLent(bs, s.mem, loans)
    requires GrantsOutside(s.mem, grants, s.held, pages, s.places)
    requires k < |loans| && i < |bs| && Backs(bs[i], s.mem, loans[k]) && off < |loans[k].contents|
    requires m' == s.mem[loans[k].ptr + off := b]
    ensures Tracks(m', bitmap, size, reserved, s.held) && Stored(m', s.view) && HeadersStored(m', headers)
    ensures AllLent(bs, m', loans[k := StoredIn(loans[k], off, b)])
    ensures GrantsOutside(m', grants, s.held, pages, s.places)
  {
    StoreKeepsLoans(bs, pages, s.mem, m', loans, k, i, off, b);
    PayloadWriteKeepsHeaders(s.mem, m', headers, bs, pages, i, bs[i].size);
    TracksApart(s.mem, bitmap, size, reserved, s.held);
    hide HeadersStored, Linked, Tiles, AllLent, AllGranted, GrantPages, Owned, Isolated, Tracks, Stored, Backs;
    HeapSparesTables(Retag(bs, i, true), pages, s.mem, m', s.view, s.places);
    IsolatedTracks(Retag(bs, i, true), pages, s.mem, m', bitmap, size, reserved, s.held);
    IsolatedWider(Retag(bs, i, true), pages, pages + reserved, s.mem, m');
    HeapSparesGrants(Retag(bs, i, true), pages, pages, reserved, s.mem, m', grants, s.held, s.held, s.places);
  }

  /** A byte stored in a grant spares everything else. */
  lemma StorePageSparesAll(s: State, m': Bytes, reserved: set<nat>, bitmap: nat, size: nat, headers: Headers,
                           bs: Blocks, pages: set<nat>, loans: seq<Loan>, grants: seq<Grant>, k: nat, off: nat, b: bv8)
    requires Tracks(s.mem, bitmap, size, reserved, s.held) && Stored(s.mem, s.view) && Owned(s.view, s.places)
    requires s.places.Keys <= s.held && pages <= s.held && forall t: nat :: t in s.places ==> t !in pages
    requires HeadersStored(s.mem, headers) && Linked(headers, bs) && Tiles(bs, pages) && AllLent(bs, s.mem, loans)
    requires GrantsOutside(s.mem, grants, s.held, pages, s.places)
    requires k < |grants| && off < |grants[k].contents| && m' == s.mem[grants[k].base * PAGE_SIZE + off := b]
    ensures Tracks(m', bitmap, size, reserved, s.held) && Stored(m', s.view) && HeadersStored(m', headers)
    ensures AllLent(bs, m', loans)
    ensures GrantsOutside(m', grants[k := StoredInPage(grants[k], off, b)], s.held, pages, s.places)
    ensures GrantPages(grants[k := StoredInPage(grants[k], off, b)]) == GrantPages(grants)
  {
    hide HeadersStored, Linked, Tiles, AllLent, AllGranted, GrantPages, Owned, Tracks, Stored;
    StoreKeepsGrants(s.mem, m', grants, k, off, b);
    GrantIn(s.mem, grants, k);
    TracksApart(s.mem, bitmap, size, reserved, s.held);
    PageWriteKeepsTracks(s.mem, m', bitmap, size, reserved, s.held, grants[k].base, grants[k].n);
    TablesStay(s, s.(mem := m'), reserved);
    PagesKeepHeaders(s.mem, m', headers, bs, pages);
    TablesKeepLoans(bs, pages, s.mem, m', loans);
  }

  /** The pages of a new block are the heap's, and nobody else's. */
  lemma LentBlock(g: Ground, t: Moment, size: nat, t': Moment)
    requires t.pages <= t.s.held && t'.s.places == t.s.places && t'.grants == t.grants
    requires |t'.loans| == |t.loans| + 1
    requires var n := RoundRequest(size);
             var out := Kmalloced(t.blocks, n, FirstRun(g.reserved + t.s.held, 8 * g.size, RegionPageCount(n), 0));
             && out.r == Some(t'.loans[|t.loans|].ptr) && t'.blocks == out.blocks && t'.pages == t.pages + out.added
             && t'.s.held == t.s.held + out.added && out.added !! t.s.held
    ensures BlockGiven(g, t, size, t') && Unowned(t') == Unowned(t)
  {
    hide Kmalloced, RoundRequest, RegionPageCount, FirstRun, GrantPages, Spare;
    TakenAreOwned(t.s, t'.s, t.pages, t'.pages, GrantPages(t.grants), GrantPages(t.grants));
  }

  // ----- The machine -----

  class Machine {
    const tables: PageTables
    const heap: Heap
    /** The kernel's own address space, and what it was when it was built. */
    const kernelPT: nat
    ghost const boot: View
    /** What clients hold: heap payloads, page runs, and address spaces with what was asked of them. */
    var loans: seq<Loan>
    var grants: seq<Grant>
    var spaces: seq<nat>
    var flat: seq<FlatMap>
    /** What has been asked of the kernel's own space since it was built. */
    ghost var over: FlatMap

    ghost predicate Layers()
      reads this, tables, heap, tables.pmm, tables.pmm.mem, heap.pmm, heap.pmm.mem
    {
      && heap.pmm == tables.pmm && tables.Valid() && heap.Valid()
      && forall t: nat :: t in tables.places ==> t !in heap.pages
    }

    ghost predicate Valid()
      reads this, tables, heap, tables.pmm, tables.pmm.mem, heap.pmm, heap.pmm.mem
    {
      && Layers()
      && AllLent(heap.blocks, tables.pmm.mem[..], loans)
      && GrantsOutside(tables.pmm.mem[..], grants, tables.pmm.held, heap.pages, tables.places)
      && (forall k: nat :: k < |grants| ==> grants[k].n < 0x8_0000)
      && StandFor(tables.view, tables.places, spaces, flat)
      && KernelStands(tables.view, tables.places, spaces, kernelPT, boot, over)
    }

    ghost function Base(): Ground
      reads this, tables.pmm
    {
      Ground(tables.pmm.mem.Length, tables.pmm.reserved, tables.pmm.bitmap, tables.pmm.bitmapSize, kernelPT, boot)
    }

    ghost function Now(): Moment
      reads this, tables, heap, tables.pmm, tables.pmm.mem
    {
      var books := Books(heap.headers, heap.blockListStart, heap.blockListEnd, heap.kheapSize, heap.kheapSizeUsable,
                         heap.regions);
      Moment(tables.Now(), heap.blocks, books, heap.pages, spaces, loans, grants, flat, over)
    }

    lemma SameCount()
      requires Valid()
      ensures |spaces| == |flat|
    {
      hide Layers, AllLent, GrantsOutside, KernelStands;
    }

    /** A valid machine is intact as a moment of a run. */
    lemma ValidIsIntact()
      requires Valid()
      ensures Intact(Base(), Now())
    {
      hide Tracks, Stored, Owned, Coalesced, AllLent, GrantsOutside, StandFor, KernelStands, HeadersStored, Chain,
           Account;
    }

    constructor (tables: PageTables, heap: Heap, kernelPT: nat)
      requires heap.pmm == tables.pmm && tables.Valid() && heap.Valid() && IsRoot(tables.places, kernelPT)
      requires forall t: nat :: t in tables.places ==> t !in heap.pages
      ensures Valid() && this.tables == tables && this.heap == heap && this.kernelPT == kernelPT
      ensures boot == tables.view && loans == [] && grants == [] && spaces == [] && flat == [] && over == map[]
    {
      hide Stored, Owned, HeadersStored, Chain, Coalesced, Tracks, StandFor, AllLent, GrantsOutside, KernelStands;
      EmptyHands(tables.Now(), heap.blocks, heap.pages, kernelPT);
      this.tables, this.heap, this.kernelPT := tables, heap, kernelPT;
      boot := tables.view;
      loans, grants, spaces, flat, over := [], [], [], [], map[];
    }

    // ----- The heap's clients -----

    /** kmalloc or kzalloc. */
    method CallHeap(size: nat, zeroed: bool) returns (r: Option<nat>)
      requires heap.Valid() && RegionPageCount(RoundRequest(size)) < 0x8000_0000
      modifies heap, heap.pmm`held, heap.pmm.mem
      ensures heap.Valid()
      ensures var out := Kmalloced(old(heap.blocks), RoundRequest(size), old(heap.NextRun(RoundRequest(size))));
              && r == out.r && heap.blocks == out.blocks && heap.pages == old(heap.pages) + out.added
              && heap.pmm.held == old(heap.pmm.held) + out.added
      ensures r.Some? && zeroed ==>
          && r.value + size <= heap.pmm.mem.Length
          && forall x: nat :: r.value <= x < r.value + size ==> heap.pmm.mem[x] == 0
      ensures Isolated(old(heap.blocks), heap.pages + heap.pmm.reserved, old(heap.pmm.mem[..]), heap.pmm.mem[..])
    {
      hide Tracks, HeadersStored, Chain, Isolated, Kmalloced, Coalesced, RoundRequest, RegionPageCount;
      if zeroed {
        r := heap.Kzalloc(size);
      } else {
        r := heap.Kmalloc(size);
      }
    }

    /** kmalloc or kzalloc, and block i behind the pointer. */
    method AllocateBlock(size: nat, zeroed: bool) returns (r: Option<nat>, ghost i: nat)
      requires Layers() && RegionPageCount(RoundRequest(size)) < 0x8000_0000
      modifies heap, tables.pmm`held, tables.pmm.mem
      ensures r.Some? <==> !old(NoBlock(Base(), Now(), RoundRequest(size)))
      ensures r.Some? ==>
          Layers() && i < |heap.blocks| && r.value == heap.blocks[i].addr + HEADER && !heap.blocks[i].free
      ensures r.Some? ==> size <= heap.blocks[i].size <= size + 47
      ensures r.Some? ==>
          var out := Kmalloced(old(heap.blocks), RoundRequest(size), old(heap.NextRun(RoundRequest(size))));
          && r == out.r && heap.blocks == out.blocks && heap.pages == old(heap.pages) + out.added
          && tables.pmm.held == old(tables.pmm.held) + out.added && out.added !! old(tables.pmm.held)
      ensures r.Some? ==> old(tables.pmm.held) <= tables.pmm.held
      ensures r.Some? ==> forall p: nat :: p in heap.pages ==> p in old(heap.pages) || p !in old(tables.pmm.held)
      ensures r.Some? ==> LiveAmong(old(heap.blocks), Retag(heap.blocks, i, true))
      ensures r.Some? && zeroed ==> r.value + size <= tables.pmm.mem.Length
      ensures r.Some? && zeroed ==> forall x: nat :: r.value <= x < r.value + size ==> tables.pmm.mem[x] == 0
      ensures r.Some? ==> Isolated(old(heap.blocks), heap.pages + tables.pmm.reserved,
                                   old(tables.pmm.mem[..]), tables.pmm.mem[..])
    {
      hide Stored, Owned, Isolated, HeadersStored, Chain, Kmalloced, Coalesced, Tracks, RoundRequest, FirstFit,
           FirstRun, Given, LiveAmong, TotalBytes, RegionPageCount, Retag, Pages, NoFreeRun, FitsIn;
      ghost var bs, m, n, held := heap.blocks, tables.pmm.mem[..], RoundRequest(size), tables.pmm.held;
      ghost var run := heap.NextRun(n);
      ghost var out := Kmalloced(bs, n, run);
      ghost var touched := heap.pages + out.added + tables.pmm.reserved;
      TracksApart(m, tables.pmm.bitmap, tables.pmm.bitmapSize, tables.pmm.reserved, held);
      GrowthIsFresh(bs, n, tables.pmm.reserved + held, tables.pmm.Tracked());
      KmallocPanics(bs, n, tables.pmm.reserved + held, tables.pmm.Tracked());
      i := Given(bs, n);
      if out.r.Some? {
        KmallocGrants(bs, size, run);
      }
      r := CallHeap(size, zeroed);
      if r.Some? {
        HeapSparesTables(bs, touched, m, tables.pmm.mem[..], tables.view, tables.places);
      }
    }

    /** What a client learns of the payload of live block i: where it is, and its bytes. */
    method LoanOf(ptr: nat, ghost i: nat) returns (loan: Loan)
      requires Layers() && i < |heap.blocks| && ptr == heap.blocks[i].addr + HEADER && !heap.blocks[i].free
      ensures loan.ptr == ptr && Backs(heap.blocks[i], tables.pmm.mem[..], loan) && Tiles(heap.blocks, heap.pages)
      ensures |loan.contents| == heap.blocks[i].size && ptr + |loan.contents| <= tables.pmm.mem.Length
      ensures forall x: nat :: x < |loan.contents| ==> loan.contents[x] == tables.pmm.mem[ptr + x]
    {
      hide Stored, Owned, HeadersStored, Chain, Coalesced, Tracks;
      ChainTiles(heap.headers, heap.blocks, heap.pages, heap.blockListStart, heap.blockListEnd, tables.pmm.mem.Length);
      BlockInChain(heap.headers, heap.blocks, heap.pages, heap.blockListStart, heap.blockListEnd,
                   tables.pmm.mem.Length, i);
      var h := heap.ReadHeader(ptr - HEADER);
      loan := Loan(ptr, tables.pmm.mem[ptr..ptr + h.size]);
    }

    /** kmalloc or kzalloc: one more loan. False is the panic. */
    method Allocate(size: nat, zeroed: bool) returns (ok: bool)
      requires Valid() && RegionPageCount(RoundRequest(size)) < 0x8000_0000
      modifies this`loans, heap, tables.pmm`held, tables.pmm.mem
      ensures ok <==> !old(NoBlock(Base(), Now(), RoundRequest(size)))
      ensures ok ==> Valid() && LentMore(old(loans), loans, size)
      ensures ok && zeroed ==> forall x: nat :: x < size ==> loans[|old(loans)|].contents[x] == 0
      ensures ok ==> BlockGiven(old(Base()), old(Now()), size, Now()) && Unowned(Now()) == old(Unowned(Now()))
    {
      hide Stored, Owned, Isolated, HeadersStored, Chain, AllLent, Coalesced, Tracks, RoundRequest, LiveAmong,
           StandFor, GrantsOutside, KernelStands, Kmalloced, RegionPageCount, Tiles, GrantPages, FirstRun, Retag,
           BlockGiven, Unowned, Backs, Account, SamePage, NoFreeRun, NoBlock;
      ghost var bs, m, pages, held := heap.blocks, tables.pmm.mem[..], heap.pages, tables.pmm.held;
      TracksApart(m, tables.pmm.bitmap, tables.pmm.bitmapSize, tables.pmm.reserved, held);
      var r, i := AllocateBlock(size, zeroed);
      if r.None? {
        return false;
      }
      ghost var m' := tables.pmm.mem[..];
      var loan := LoanOf(r.value, i);
      HeapSparesGrants(bs, pages, heap.pages, tables.pmm.reserved, m, m', grants, held, tables.pmm.held, tables.places);
      MallocLends(bs, heap.blocks, heap.pages, i, heap.pages + tables.pmm.reserved, m, m', loans, loan);
      loans := loans + [loan];
      assert tables.pmm.mem[..] == m';
      LentBlock(old(Base()), old(Now()), size, Now());
      return true;
    }

    /** kfree of the k-th loan; all other loans are as they were. */
    method GiveBack(k: nat)
      requires Valid() && k < |loans|
      modifies this`loans, heap, tables.pmm.mem
      ensures Valid() && loans == Removed(old(loans), k)
      ensures Unowned(Now()) == old(Unowned(Now()))
      ensures heap.pages == old(heap.pages) && BlockReturned(old(Now()), old(loans)[k], heap.blocks)
    {
      hide Stored, Owned, Isolated, HeadersStored, Chain, Coalesced, Tracks, FreeAt, StandFor, GrantsOutside,
           KernelStands, Account, Pages;
      ghost var bs, m, loan := heap.blocks, tables.pmm.mem[..], loans[k];
      TracksApart(m, tables.pmm.bitmap, tables.pmm.bitmapSize, tables.pmm.reserved, tables.pmm.held);
      assert Lent(bs, m, loan);
      ghost var i: nat :| i < |bs| && Backs(bs[i], m, loan);
      heap.Kfree(loans[k].ptr, i);
      ghost var m' := tables.pmm.mem[..];
      HeapSparesTables(Retag(bs, i, true), heap.pages, m, m', tables.view, tables.places);
      FreeKeepsLoans(bs, i, heap.pages, m, m', loans, k);
      IsolatedWider(Retag(bs, i, true), heap.pages, heap.pages + tables.pmm.reserved, m, m');
      HeapSparesGrants(Retag(bs, i, true), heap.pages, heap.pages, tables.pmm.reserved, m, m', grants,
                       tables.pmm.held, tables.pmm.held, tables.places);
      loans := loans[..k] + loans[k + 1..];
      assert tables.pmm.mem[..] == m';
    }

    /** A client stores a byte in one of its loans. */
    method StoreByte(k: nat, off: nat, b: bv8)
      requires Valid() && k < |loans| && off < |loans[k].contents|
      modifies this`loans, tables.pmm.mem
      ensures Valid() && loans == old(loans)[k := StoredIn(old(loans)[k], off, b)]
      ensures Unowned(Now()) == old(Unowned(Now()))
    {
      hide Stored, Owned, HeadersStored, Linked, Tiles, Coalesced, Tracks, StandFor, GrantsOutside, KernelStands,
           Account, Pages;
      ghost var s, bs := tables.Now(), heap.blocks;
      assert Lent(bs, s.mem, loans[k]);
      ghost var i: nat :| i < |bs| && Backs(bs[i], s.mem, loans[k]);
      StoreSparesAll(s, s.mem[loans[k].ptr + off := b], tables.pmm.reserved, tables.pmm.bitmap, tables.pmm.bitmapSize,
                     heap.headers, bs, heap.pages, loans, grants, k, i, off, b);
      tables.pmm.mem[loans[k].ptr + off] := b;
      ghost var m' := tables.pmm.mem[..];
      assert m' == s.mem[loans[k].ptr + off := b];
      loans := loans[k := StoredIn(loans[k], off, b)];
      assert tables.pmm.mem[..] == m';
    }

    // ----- The page allocator's clients -----

    /** pmm_alloc for a client: one more grant, the lowest free run. */
    method TakePages(n: nat) returns (ok: bool)
      requires Valid() && n < 0x8_0000
      modifies this`grants, tables.pmm`held, tables.pmm.mem
      ensures ok <==> !old(NoFreeRun(tables.pmm.reserved + tables.pmm.held, tables.pmm.Tracked(), n))
      ensures ok ==> Valid() && GrantedMore(old(Base()), old(tables.pmm.held), old(grants), grants, n)
      ensures ok ==> Unowned(Now()) == old(Unowned(Now()))
    {
      hide Stored, Owned, HeadersStored, Linked, Tiles, Coalesced, Tracks, StandFor, AllLent, AllGranted, GrantPages,
           FirstRun, KernelStands, Pages, FreeRun, SamePage;
      ghost var s, run := tables.Now(), FirstRun(tables.pmm.reserved + tables.pmm.held, tables.pmm.Tracked(), n, 0);
      TracksApart(s.mem, tables.pmm.bitmap, tables.pmm.bitmapSize, tables.pmm.reserved, s.held);
      FirstRunIsLowest(tables.pmm.reserved + tables.pmm.held, tables.pmm.Tracked(), n, 0);
      var r := tables.pmm.Alloc(n);
      if r.None? {
        return false;
      }
      ghost var s' := tables.Now();
      var base := r.value / PAGE_SIZE;
      HeldInMemory(s'.mem, tables.pmm.bitmap, tables.pmm.bitmapSize, tables.pmm.reserved, s'.held, base, n);
      TablesStay(s, s', tables.pmm.reserved);
      TablesSpareHeap(s, s', tables.pmm.reserved, heap.headers, heap.blocks, heap.pages, loans, grants);
      var g := Grant(base, n, tables.pmm.mem[base * PAGE_SIZE..(base + n) * PAGE_SIZE]);
      GrantMore(s'.mem, grants, g);
      TakenAreOwned(s, s', heap.pages, heap.pages, GrantPages(grants), GrantPages(grants + [g]));
      grants := grants + [g];
      assert tables.pmm.mem[..] == s'.mem;
      return true;
    }

    /** pmm_free of the k-th grant; all other grants, the loans and the tables are as they were. */
    method ReturnPages(k: nat)
      requires Valid() && k < |grants|
      modifies this`grants, tables.pmm`held, tables.pmm.mem
      ensures Valid() && grants == Removed(old(grants), k) && Unowned(Now()) == old(Unowned(Now()))
    {
      hide Stored, Owned, HeadersStored, Linked, Tiles, Coalesced, Tracks, StandFor, AllLent, AllGranted,
           GrantPages, KernelStands;
      ghost var s := tables.Now();
      TracksApart(s.mem, tables.pmm.bitmap, tables.pmm.bitmapSize, tables.pmm.reserved, s.held);
      GrantIn(s.mem, grants, k);
      tables.pmm.Free(grants[k].base * PAGE_SIZE, grants[k].n);
      ghost var s' := tables.Now();
      FreedSparesAll(s, s', tables.pmm.reserved, heap.headers, heap.blocks, heap.pages, loans, grants, k);
      GivenBackAreFree(s, s', heap.pages, Pages(grants[k].base, grants[k].n), GrantPages(grants));
      grants := grants[..k] + grants[k + 1..];
      assert tables.pmm.mem[..] == s'.mem;
    }

    /** A client stores a byte in one of its grants. */
    method StorePageByte(k: nat, off: nat, b: bv8)
      requires Valid() && k < |grants| && off < |grants[k].contents|
      modifies this`grants, tables.pmm.mem
      ensures Valid() && grants == old(grants)[k := StoredInPage(old(grants)[k], off, b)]
      ensures Unowned(Now()) == old(Unowned(Now()))
    {
      hide Stored, Owned, HeadersStored, Linked, Tiles, Coalesced, Tracks, StandFor, AllLent, KernelStands;
      ghost var s := tables.Now();
      assert Granted(s.mem, grants[k]);
      StorePageSparesAll(s, s.mem[grants[k].base * PAGE_SIZE + off := b], tables.pmm.reserved, tables.pmm.bitmap,
                         tables.pmm.bitmapSize, heap.headers, heap.blocks, heap.pages, loans, grants, k, off, b);
      tables.pmm.mem[grants[k].base * PAGE_SIZE + off] := b;
      ghost var m' := tables.pmm.mem[..];
      assert m' == s.mem[grants[k].base * PAGE_SIZE + off := b];
      grants := grants[k := StoredInPage(grants[k], off, b)];
      assert tables.pmm.mem[..] == m';
    }

    // ----- Address spaces -----

    /** The call that a mapping request makes. */
    method CallTables(op: Op, root: nat) returns (ok: bool)
      requires tables.Valid() && IsMapping(op) && IsRoot(tables.places, root)
      modifies tables, tables.pmm`held, tables.pmm.mem
      ensures ok <==> old(tables.Affords(root, Key(op.virtAddr)))
      ensures ok ==> tables.Valid()
      ensures ok ==> Remapped(old(tables.Now()), tables.Now(), tables.pmm.reserved, root, Key(op.virtAddr),
                              RequestOn(op, old(Flat(tables.view, root, Key(op.virtAddr)))))
    {
      hide Stored, Owned, Tracks, Flat, Remapped, Missing, Unmarked;
      match op
      case Map(_, physAddr, virtAddr, flags) => ok := tables.Map(root, physAddr, virtAddr, flags);
      case Unmap(_, virtAddr) => ok := tables.Unmap(root, virtAddr);
      case SetFlags(_, virtAddr, flags) => ok := tables.SetFlags(root, virtAddr, flags);
    }

    /** Map, unmap or set-flags, in the kernel's space or a client's. */
    method Remap(op: Op) returns (ok: bool)
      requires Valid() && IsMapping(op) && Root(Base(), Now(), op.to).Some?
      modifies this`flat, this`over, tables, tables.pmm`held, tables.pmm.mem
      ensures ok <==> !old(Unaffordable(Base(), Now(), op.to, Key(op.virtAddr)))
      ensures ok ==> Valid() && Unowned(Now()) == old(Unowned(Now()))
      ensures ok ==> TablesFor(Base(), old(Now()), op.to, Key(op.virtAddr), Now())
      ensures ok ==> SpacesStep(Base(), old(Now()), op, Now())
    {
      hide Stored, Owned, HeadersStored, Linked, Tiles, Coalesced, Tracks, Flat, StandFor, AllLent, Remapped,
           GrantsOutside, KernelStands, RequestOn, Alike, Missing, Unmarked, Look, TablesAdded, NewOnPath, Spare,
           Account;
      SameCount();
      ghost var s, g, t := tables.Now(), Base(), Now();
      var key := Key(op.virtAddr);
      TracksApart(s.mem, tables.pmm.bitmap, tables.pmm.bitmapSize, tables.pmm.reserved, s.held);
      TargetStands(s.view, s.places, spaces, flat, kernelPT, boot, over, op.to, key);
      var root := RootOf(spaces, kernelPT, op.to).value;
      RequestOnAlike(op, Flat(s.view, root, key), Wanted(g, t, op.to, key));
      ok := CallTables(op, root);
      if ok {
        ghost var s' := tables.Now();
        Settle(s, s', tables.pmm.reserved, heap.headers, heap.blocks, heap.pages, loans, grants, spaces, flat, kernelPT,
               boot, over, op.to, key, RequestOn(op, Flat(s.view, root, key)), Requested(g, t, op));
        match op.to
        case OfClient(j) => flat := flat[j := flat[j][key := RequestOn(op, Look(flat[j], key))]];
        case OfKernel => over := over[key := Requested(g, t, op)];
        assert tables.pmm.mem[..] == s'.mem;
      }
    }

    /** The processor sets its bits in an entry. */
    method Touch(to: Target, virtAddr: nat, level: nat, write: bool)
      requires Valid() && Root(Base(), Now(), to).Some? && 1 <= level <= 4
      modifies tables`view, tables.pmm.mem
      ensures Valid() && EntryAccessed(Base(), old(Now()), to, Key(virtAddr), level, write, Now())
    {
      hide Stored, Owned, HeadersStored, Linked, Tiles, Coalesced, Tracks, Flat, StandFor, AllLent, GrantsOutside,
           KernelStands, Alike, AfterAccess;
      ghost var s := tables.Now();
      TracksApart(s.mem, tables.pmm.bitmap, tables.pmm.bitmapSize, tables.pmm.reserved, s.held);
      TargetStands(s.view, s.places, spaces, flat, kernelPT, boot, over, to, Key(virtAddr));
      Hardware.Access(tables, RootOf(spaces, kernelPT, to).value, Key(virtAddr), level, write);
      AccessSparesAll(s, tables.Now(), tables.pmm.reserved, heap.headers, heap.blocks, heap.pages, loans, grants,
                      spaces, flat, kernelPT, boot, over);
    }

    /** A new, empty address space. */
    method AddSpace() returns (ok: bool)
      requires Valid()
      modifies this`spaces, this`flat, tables, tables.pmm`held, tables.pmm.mem
      ensures ok <==> old(tables.Free()) != {}
      ensures ok ==> Valid() && flat == old(flat) + [map[]] && Unowned(Now()) == old(Unowned(Now()))
      ensures ok ==> TablesStep(Base(), old(Now()), NewSpace, Now())
    {
      hide Stored, Owned, HeadersStored, Linked, Tiles, Coalesced, Tracks, Flat, StandFor, AllLent, GrantsOutside,
           KernelStands, Account, TotalBytes, Alike;
      ghost var s := tables.Now();
      TracksApart(s.mem, tables.pmm.bitmap, tables.pmm.bitmapSize, tables.pmm.reserved, s.held);
      var pt := tables.NewPt();
      if pt.None? {
        return false;
      }
      ghost var s' := tables.Now();
      TablesSpareHeap(s, s', tables.pmm.reserved, heap.headers, heap.blocks, heap.pages, loans, grants);
      NewStandsFor(s, s', spaces, flat, pt.value);
      NewKeepsKernel(s, s', spaces, kernelPT, boot, over, pt.value);
      spaces, flat := spaces + [pt.value], flat + [map[]];
      assert tables.pmm.mem[..] == s'.mem;
      return true;
    }

    /** The teardown of a destroyable space, before the clients' books are brought up to date. */
    method TearDown(j: nat)
      requires Valid() && j < |spaces| && |spaces| == |flat| && Destroyable(flat[j], grants)
      modifies tables, tables.pmm`held, tables.pmm.mem
      ensures Layers() && AllLent(heap.blocks, tables.pmm.mem[..], loans)
      ensures GrantsOutside(tables.pmm.mem[..], Without(grants, LeafFrames(flat[j])), tables.pmm.held, heap.pages,
                            tables.places)
      ensures StandFor(tables.view, tables.places, Removed(spaces, j), Removed(flat, j))
      ensures KernelStands(tables.view, tables.places, Removed(spaces, j), kernelPT, boot, over)
      ensures tables.places == old(Others(tables.places, tables.places, spaces[j]))
      ensures Spare(tables.Now()) - heap.pages - GrantPages(Without(grants, LeafFrames(flat[j]))) ==
              old(Unowned(Now())) + UpperTables(old(tables.places), spaces[j])
    {
      hide Stored, Owned, HeadersStored, Linked, Tiles, Coalesced, Tracks, Flat, StandFor, AllLent, GrantsOutside,
           KernelStands, OwnLeaves, Destroyable, LeafFrames, Doomed, Others;
      ghost var s := tables.Now();
      TracksApart(s.mem, tables.pmm.bitmap, tables.pmm.bitmapSize, tables.pmm.reserved, s.held);
      SpaceFlat(s.view, s.places, spaces, flat, j);
      MayTearDown(s, heap.pages, spaces, flat, grants, j);
      tables.Destroy(spaces[j]);
      ghost var s' := tables.Now();
      DestroySparesAll(s, s', tables.pmm.reserved, heap.headers, heap.blocks, heap.pages, loans, grants,
                       spaces[j], flat[j]);
      RemovedStandsFor(s.view, s.places, s'.view, spaces, flat, j);
      DestroyKeepsKernel(s.view, s.places, s'.view, spaces, kernelPT, boot, over, j);
      DestroyAccounts(s, s', heap.pages, grants, spaces[j], flat[j]);
    }

    /** Destroys a destroyable space: the grants mapped in its lower half go back with it. */
    method DropSpace(j: nat)
      requires Valid() && j < |spaces| && |spaces| == |flat| && Destroyable(flat[j], grants)
      modifies this`spaces, this`flat, this`grants, tables, tables.pmm`held, tables.pmm.mem
      ensures Valid() && flat == Removed(old(flat), j)
      ensures grants == Without(old(grants), LeafFrames(old(flat)[j]))
      ensures spaces == Removed(old(spaces), j)
      ensures tables.places == old(Others(tables.places, tables.places, spaces[j]))
      ensures Unowned(Now()) == old(Unowned(Now())) + UpperTables(old(tables.places), old(spaces)[j])
    {
      hide Stored, Owned, HeadersStored, Chain, Coalesced, Tracks, StandFor, AllLent, GrantsOutside, KernelStands,
           Destroyable, LeafFrames, Without, Removed;
      TearDown(j);
      ghost var m := tables.pmm.mem[..];
      WithoutSmall(grants, LeafFrames(flat[j]));
      grants := Without(grants, LeafFrames(flat[j]));
      spaces, flat := Removed(spaces, j), Removed(flat, j);
      assert tables.pmm.mem[..] == m;
    }

    ghost predicate Follows(t: Moment, g: Ground, op: Op)
      reads this, tables, heap, tables.pmm, tables.pmm.mem, heap.pmm, heap.pmm.mem
    {
      Valid() && Base() == g && Stepped(g, t, op, Now())
    }

    method HeapOp(op: Op) returns (ok: bool)
      requires Valid() && Small(op) && OnHeap(op)
      modifies this`loans, heap, tables.pmm`held, tables.pmm.mem
      ensures ok <==> !old(Stuck(Base(), Now(), op))
      ensures ok ==> Follows(old(Now()), old(Base()), op)
    {
      hide Valid, Unowned, BlockGiven, BlockReturned, NoBlock, Stepped, LentMore, RoundRequest, RegionPageCount;
      SameCount();
      ghost var g, t := Base(), Now();
      ok := true;
      match op {
        case Malloc(size) => ok := Allocate(size, false);
        case Zalloc(size) => ok := Allocate(size, true);
        case Free(k) =>
          if k >= |loans| {
            IdleStepped(g, t, op);
            return;
          }
          GiveBack(k);
        case Store(k, off, b) =>
          if k >= |loans| || off >= |loans[k].contents| {
            IdleStepped(g, t, op);
            return;
          }
          StoreByte(k, off, b);
        case _ =>
      }
      if ok {
        HeapStepped(g, t, op, Now());
      }
    }

    method PagesOp(op: Op) returns (ok: bool)
      requires Valid() && Small(op) && OnPages(op)
      modifies this`grants, tables.pmm`held, tables.pmm.mem
      ensures ok <==> !old(Stuck(Base(), Now(), op))
      ensures ok ==> Follows(old(Now()), old(Base()), op)
    {
      hide Valid, Unowned, GrantedMore, NoFreeRun, Stepped;
      SameCount();
      ghost var g, t := Base(), Now();
      ok := true;
      match op {
        case AllocPages(n) => ok := TakePages(n);
        case FreePages(k) =>
          if k >= |grants| {
            IdleStepped(g, t, op);
            return;
          }
          ReturnPages(k);
        case StorePage(k, off, b) =>
          if k >= |grants| || off >= |grants[k].contents| {
            IdleStepped(g, t, op);
            return;
          }
          StorePageByte(k, off, b);
        case _ =>
      }
      if ok {
        PagesStepped(g, t, op, Now());
      }
    }

    method MapOp(op: Op) returns (ok: bool)
      requires Valid() && IsMapping(op)
      modifies this`flat, this`over, tables, tables.pmm`held, tables.pmm.mem
      ensures ok <==> !old(Stuck(Base(), Now(), op))
      ensures ok ==> Follows(old(Now()), old(Base()), op)
    {
      hide Valid, Unowned, TablesFor, SpacesStep, Stepped, Unaffordable;
      SameCount();
      ghost var g, t := Base(), Now();
      if RootOf(spaces, kernelPT, op.to).None? {
        IdleStepped(g, t, op);
        return true;
      }
      ok := Remap(op);
      if ok {
        SpacesStepped(g, t, op, Now());
      }
    }

    method AccessOp(op: Op)
      requires Valid() && op.Access?
      modifies tables`view, tables.pmm.mem
      ensures !old(Stuck(Base(), Now(), op))
      ensures Follows(old(Now()), old(Base()), op)
    {
      hide Valid, EntryAccessed, Stepped;
      SameCount();
      ghost var g, t := Base(), Now();
      if RootOf(spaces, kernelPT, op.to).None? || !(1 <= op.level <= 4) {
        IdleStepped(g, t, op);
        return;
      }
      Touch(op.to, op.virtAddr, op.level, op.write);
      AccessStepped(g, t, op, Now());
    }

    method SpaceOp(op: Op) returns (ok: bool)
      requires Valid() && OnSpaces(op)
      modifies this`spaces, this`flat, this`grants, tables, tables.pmm`held, tables.pmm.mem
      ensures ok <==> !old(Stuck(Base(), Now(), op))
      ensures ok ==> Follows(old(Now()), old(Base()), op)
    {
      hide Valid, Unowned, RootAdded, Stepped, Destroyable, Others, UpperTables, LeafFrames, Unmarked, Without;
      SameCount();
      ghost var g, t := Base(), Now();
      if op.NewSpace? {
        ok := AddSpace();
      } else {
        ok := true;
        if op.space >= |spaces| || !Destroyable(flat[op.space], grants) {
          IdleStepped(g, t, op);
          return;
        }
        DropSpace(op.space);
      }
      if ok {
        SpacesStepped(g, t, op, Now());
      }
    }

    /** One operation. False is a panic, and happens exactly when memory is exhausted for the operation.
        Otherwise it has its effect and no other. */
    method Step(op: Op) returns (ok: bool)
      requires Valid() && Small(op)
      modifies this, tables, heap, tables.pmm`held, tables.pmm.mem
      ensures ok <==> !old(Stuck(Base(), Now(), op))
      ensures ok ==> Valid() && Base() == old(Base()) && Stepped(old(Base()), old(Now()), op, Now())
    {
      hide StandFor, AllLent, GrantsOutside, KernelStands, Tracks, Stored, Owned, HeadersStored, Chain, Coalesced,
           Stepped, Stuck, Valid;
      if OnHeap(op) {
        ok := HeapOp(op);
      } else if OnPages(op) {
        ok := PagesOp(op);
      } else if OnSpaces(op) {
        ok := SpaceOp(op);
      } else if op.Access? {
        AccessOp(op);
        ok := true;
      } else {
        ok := MapOp(op);
      }
    }

    /** Any sequence of operations, up to a panic. The record of the run has an intact moment before every
        operation and after the last, each with the effect of its operation and no other. */
    method Run(ops: seq<Op>) returns (done: nat, ghost history: seq<Moment>)
      requires Valid() && forall k: nat :: k < |ops| ==> Small(ops[k])
      modifies this, tables, heap, tables.pmm`held, tables.pmm.mem
      ensures done <= |ops| && |history| == done + 1 && history[0] == old(Now())
      ensures Recorded(old(Base()), ops, history)
      ensures if done == |ops| then Valid() && Base() == old(Base()) && history[done] == Now()
              else Stuck(old(Base()), history[done], ops[done])
    {
      hide StandFor, AllLent, GrantsOutside, KernelStands, Tracks, Stored, Owned, HeadersStored, Chain, Coalesced,
           Stepped, Stuck, Intact, Valid;
      ValidIsIntact();
      done, history := 0, [Now()];
      while done < |ops|
        invariant done <= |ops| && |history| == done + 1 && history[0] == old(Now()) && history[done] == Now()
        invariant Valid() && Base() == old(Base()) && Recorded(old(Base()), ops, history)
      {
        var ok := Step(ops[done]);
        if !ok {
          return;
        }
        ValidIsIntact();
        RecordMore(old(Base()), ops, history, Now());
        done, history := done + 1, history + [Now()];
      }
    }
  }
}
