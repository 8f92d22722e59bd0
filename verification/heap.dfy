/** The kernel heap: first fit, splitting, growth from the page allocator, and coalescing on both
    sides. Headers lie between the payloads, in the same memory. */
module KernelHeap {
  import opened Wrappers
  import opened Memory
  import opened PhysicalPages
  import opened HeapList
  import opened HeapMemory

  const KHEAP_INIT_PAGES: nat := 16

  class Heap {
    const pmm: Pmm
    var blockListStart: nat
    var blockListEnd: nat
    var kheapSize: nat
    var kheapSizeUsable: nat
    ghost var headers: Headers
    /** The blocks, in list order. */
    ghost var blocks: Blocks
    /** The pages taken from the page allocator, in `regions` runs. */
    ghost var pages: set<nat>
    ghost var regions: nat

    ghost predicate Shape()
      reads this, pmm, pmm.mem
    {
      HeadersStored(pmm.mem[..], headers)
      && Chain(headers, blocks, pages, blockListStart, blockListEnd, pmm.mem.Length)
    }

    ghost predicate Accounted()
      reads this
    {
      Account(blocks, pages, kheapSize, kheapSizeUsable, regions)
    }

    /** Everything but full coalescing, which growth breaks for a moment. */
    ghost predicate Sound()
      reads this, pmm, pmm.mem
    {
      pmm.Valid() && Shape() && Accounted() && pages <= pmm.held
    }

    ghost predicate Valid()
      reads this, pmm, pmm.mem
    {
      Sound() && Coalesced(blocks)
    }

    constructor (pmm: Pmm)
      ensures this.pmm == pmm
    {
      this.pmm := pmm;
      blockListStart, blockListEnd, kheapSize, kheapSizeUsable := 0, 0, 0, 0;
      headers, blocks, pages, regions := map[], [], {}, 0;
    }

    // ----- Headers -----

    method ReadHeader(a: nat) returns (h: Header)
      requires HeadersStored(pmm.mem[..], headers) && a in headers
      ensures h == headers[a]
    {
      h := HeaderAt(pmm.mem[..], a);
    }

    /** The stores to the fields of one header. */
    method StoreHeader(a: nat, h: Header)
      requires HeadersStored(pmm.mem[..], headers) && a + HEADER <= pmm.mem.Length && h.Fits() && Clear(headers, a)
      modifies this`headers, pmm.mem
      ensures HeadersStored(pmm.mem[..], headers) && headers == old(headers)[a := h]
      ensures SameButHeaders(old(pmm.mem[..]), pmm.mem[..], {a})
    {
      PutHeaderStored(pmm.mem[..], headers, a, h);
      OutsideIsSameBut(pmm.mem[..], PutHeader(pmm.mem[..], a, h), a);
      WriteHeader(pmm.mem, a, h);
      ghost var m := pmm.mem[..];
      headers := headers[a := h];
      assert pmm.mem[..] == m;
    }

    /** Zeroes the bytes of a new header and fills it in. */
    method NewHeader(a: nat, h: Header)
      requires HeadersStored(pmm.mem[..], headers) && a + HEADER <= pmm.mem.Length && h.Fits() && Clear(headers, a)
      requires a !in headers
      modifies this`headers, pmm.mem
      ensures HeadersStored(pmm.mem[..], headers) && headers == old(headers)[a := h]
      ensures SameButHeaders(old(pmm.mem[..]), pmm.mem[..], {a})
    {
      ghost var m := pmm.mem[..];
      Memset(pmm.mem, a, 0, HEADER);
      ghost var m1 := pmm.mem[..];
      OutsideIsSameBut(m, m1, a);
      HeadersFrame(m, m1, headers);
      StoreHeader(a, h);
      SameButTransitive(m, m1, pmm.mem[..], {a}, {a});
    }

    /** The prev field of the header at a, unless a is NULL. */
    method StorePrev(a: nat, prev: nat)
      requires HeadersStored(pmm.mem[..], headers) && prev <= MAX_MEMORY
      requires a != 0 ==> a in headers && headers[a].Fits() && Clear(headers, a)
      modifies this`headers, pmm.mem
      ensures HeadersStored(pmm.mem[..], headers) && headers == WithPrev(old(headers), a, prev)
      ensures SameButHeaders(old(pmm.mem[..]), pmm.mem[..], if a != 0 then {a} else {})
    {
      if a != 0 {
        var h := ReadHeader(a);
        StoreHeader(a, h.(prev := prev));
      }
    }

    // ----- Steps on the list -----

    /** Marks block i free or used. */
    method StoreFree(bh: nat, free: bool, ghost i: nat)
      requires Shape() && i < |blocks| && bh == blocks[i].addr
      modifies this`headers, this`blocks, pmm.mem
      ensures Shape() && blocks == Retag(old(blocks), i, free) && TotalBytes(blocks) == TotalBytes(old(blocks))
      ensures SameButHeaders(old(pmm.mem[..]), pmm.mem[..], {bh})
    {
      hide HeadersStored, SameButHeaders, Chain;
      BlockInChain(headers, blocks, pages, blockListStart, blockListEnd, pmm.mem.Length, i);
      RetagChain(headers, blocks, pages, blockListStart, blockListEnd, pmm.mem.Length, i, free);
      var h := ReadHeader(bh);
      StoreHeader(bh, h.(free := free));
      ghost var m := pmm.mem[..];
      blocks := Retag(blocks, i, free);
      assert pmm.mem[..] == m;
    }

    /** The stores of a split: the new header, then the old block's size and next, then the prev
        pointer of the old successor. */
    method SplitStores(bh: nat, newbh: nat, n: nat)
      requires HeadersStored(pmm.mem[..], headers) && bh in headers && newbh !in headers
          && newbh + HEADER <= pmm.mem.Length
      requires SplitReady(headers, bh, newbh, n)
      modifies this`headers, pmm.mem
      ensures HeadersStored(pmm.mem[..], headers)
      ensures headers == SplitHeaders(old(headers), bh, newbh, n)
      ensures SameButHeaders(old(pmm.mem[..]), pmm.mem[..], LinkSet(bh, newbh, old(headers)[bh].next))
    {
      hide HeadersStored, SameButHeaders, HeaderAt;
      var h := ReadHeader(bh);
      NewHeader(newbh, Header(h.size - (n + HEADER), true, h.next, bh));
      ghost var m1 := pmm.mem[..];
      StoreHeader(bh, h.(size := n, next := newbh));
      SameButTransitive(old(pmm.mem[..]), m1, pmm.mem[..], {newbh}, {bh});
      ghost var m2 := pmm.mem[..];
      StorePrev(h.next, newbh);
      SameButTransitive(old(pmm.mem[..]), m2, pmm.mem[..], {newbh} + {bh}, if h.next != 0 then {h.next} else {});
      assert {newbh} + {bh} + (if h.next != 0 then {h.next} else {}) == LinkSet(bh, newbh, h.next);
    }

    /** The stores of a merge of the header at b into the one at a. */
    method MergeStores(a: nat, b: nat)
      requires HeadersStored(pmm.mem[..], headers) && MergeReady(headers, a, b) && a + HEADER <= pmm.mem.Length
      modifies this`headers, pmm.mem
      ensures HeadersStored(pmm.mem[..], headers) && headers == MergeHeaders(old(headers), a, b)
      ensures SameButHeaders(old(pmm.mem[..]), pmm.mem[..], LinkSet(a, a, old(headers)[b].next))
    {
      var h := ReadHeader(a);
      var h' := ReadHeader(b);
      StorePrev(h'.next, a);
      ghost var m1 := pmm.mem[..];
      StoreHeader(a, h.(size := h.size + (h'.size + HEADER), next := h'.next));
      ghost var m2 := pmm.mem[..];
      ghost var nexts := if h'.next != 0 then {h'.next} else {};
      SameButTransitive(old(pmm.mem[..]), m1, m2, nexts, {a});
      assert nexts + {a} == LinkSet(a, a, h'.next);
      headers := headers - {b};
      assert pmm.mem[..] == m2;
    }

    /** Cuts block i down to n bytes; the rest becomes a free block after it in the list. */
    method CreateBlock(bh: nat, n: nat, ghost i: nat)
      requires Shape() && i < |blocks| && bh == blocks[i].addr && blocks[i].free && n + HEADER < blocks[i].size
      modifies this`headers, this`blocks, this`blockListEnd, pmm.mem
      ensures Shape() && blocks == Split(old(blocks), i, n) && TotalBytes(blocks) == TotalBytes(old(blocks))
      ensures Isolated(old(blocks), pages, old(pmm.mem[..]), pmm.mem[..])
    {
      hide HeadersStored, Chain, Isolated;
      ChainTiles(headers, blocks, pages, blockListStart, blockListEnd, pmm.mem.Length);
      var newbh := bh + HEADER + n;
      SplitIsReady(headers, blocks, pages, blockListStart, blockListEnd, pmm.mem.Length, i, n, newbh);
      SplitChain(headers, blocks, pages, blockListStart, blockListEnd, pmm.mem.Length, i, n, newbh);
      SplitStores(bh, newbh, n);
      ghost var m := pmm.mem[..];
      HeadersIsolated(blocks, pages, old(pmm.mem[..]), m, LinkSet(bh, newbh, Addr(blocks, i + 1)));
      if bh == blockListEnd {
        blockListEnd := newbh;
      }
      blocks := Split(blocks, i, n);
      assert pmm.mem[..] == m;
    }

    /** Gives the bytes of block i+1, at address b, to block i, at address a. */
    method MergeBlocks(a: nat, b: nat, ghost i: nat)
      requires Shape() && Mergeable(blocks, i) && a == blocks[i].addr && b == blocks[i + 1].addr
      modifies this`headers, this`blocks, this`blockListEnd, pmm.mem
      ensures Shape() && blocks == Merge(old(blocks), i) && TotalBytes(blocks) == TotalBytes(old(blocks))
      ensures SameButHeaders(old(pmm.mem[..]), pmm.mem[..], LinkSet(a, a, Addr(old(blocks), i + 2)))
    {
      hide HeadersStored, SameButHeaders, Chain, TotalBytes, MergeHeaders, Merge;
      MergeIsReady(headers, blocks, pages, blockListStart, blockListEnd, pmm.mem.Length, i);
      MergeChain(headers, blocks, pages, blockListStart, blockListEnd, pmm.mem.Length, i);
      MergeStores(a, b);
      ghost var m := pmm.mem[..];
      if b == blockListEnd {
        blockListEnd := a;
      }
      blocks := Merge(blocks, i);
      assert pmm.mem[..] == m;
    }

    // ----- Growth -----

    /** Pages from the page allocator, zeroed. None is the panic. */
    method TakePages(k: nat) returns (r: Option<nat>, ghost page: nat)
      requires Sound() && 0 < k
      modifies pmm`held, pmm.mem
      ensures pmm.Valid() && HeadersStored(pmm.mem[..], headers)
      ensures r.Some? == FirstRun(pmm.reserved + old(pmm.held), pmm.Tracked(), k, 0).Some?
      ensures r.None? ==> pmm.mem[..] == old(pmm.mem[..]) && pmm.held == old(pmm.held)
      ensures r.Some? ==>
          FirstRun(pmm.reserved + old(pmm.held), pmm.Tracked(), k, 0) == Some(page) && r.value == page * PAGE_SIZE
      ensures r.Some? ==> pmm.held == old(pmm.held) + Pages(page, k) && Pages(page, k) !! pages
      ensures r.Some? ==> 0 < page && (page + k) * PAGE_SIZE <= pmm.mem.Length
      ensures r.Some? ==> forall x: nat :: page * PAGE_SIZE <= x < (page + k) * PAGE_SIZE ==> pmm.mem[x] == 0
      ensures r.Some? ==> Isolated(blocks, pmm.reserved + Pages(page, k), old(pmm.mem[..]), pmm.mem[..])
    {
      hide FirstRun, TotalBytes, Pages, Coalesced, Account, HeadersStored, Tracks, Isolated, SamePage, Linked, Ends;
      ghost var m0, run := pmm.mem[..], FirstRun(pmm.reserved + pmm.held, pmm.Tracked(), k, 0);
      r := pmm.Alloc(k);
      page := if run.Some? then run.value else 0;
      if r.Some? {
        ghost var m1 := pmm.mem[..];
        HeldInMemory(m1, pmm.bitmap, pmm.bitmapSize, pmm.reserved, pmm.held, page, k);
        Memset(pmm.mem, r.value, 0, k * PAGE_SIZE);
        ghost var m2 := pmm.mem[..];
        PageWriteKeepsTracks(m1, m2, pmm.bitmap, pmm.bitmapSize, pmm.reserved, pmm.held, page, k);
        PagesWrite(m1, m2, page, k);
        SamePageTransitive(m0, m1, m2);
        FreshWriteIsolated(blocks, pages, pmm.reserved + Pages(page, k), m0, m2);
        PagesKeepHeaders(m0, m2, headers, blocks, pages);
      }
    }

    /** The stores that append a block: its header, and the old last block's next. */
    method AppendStores(a: nat, size: nat)
      requires HeadersStored(pmm.mem[..], headers) && a + HEADER <= pmm.mem.Length && a !in headers && Clear(headers, a)
      requires size <= MAX_MEMORY && a <= MAX_MEMORY && blockListEnd <= MAX_MEMORY
          && blockListEnd + HEADER <= pmm.mem.Length
      requires blockListEnd in headers && headers[blockListEnd].Fits() && Clear(headers, blockListEnd)
      modifies this`headers, this`blockListEnd, pmm.mem
      ensures HeadersStored(pmm.mem[..], headers) && blockListEnd == a
      ensures headers == GrowHeaders(old(headers), a, size, old(blockListEnd))
      ensures SameButHeaders(old(pmm.mem[..]), pmm.mem[..], {a} + {old(blockListEnd)})
    {
      ghost var m0 := pmm.mem[..];
      StoreHeader(a, Header(size, true, 0, blockListEnd));
      ghost var m1 := pmm.mem[..];
      var h := ReadHeader(blockListEnd);
      StoreHeader(blockListEnd, h.(next := a));
      ghost var m2 := pmm.mem[..];
      SameButTransitive(m0, m1, m2, {a}, {blockListEnd});
      blockListEnd := a;
      assert pmm.mem[..] == m2;
    }

    /** Appends the zeroed pages from newbh on as one free block. */
    method Append(newbh: nat, size: nat, ghost page: nat, ghost k: nat)
      requires Shape() && Pages(page, k) !! pages
      requires newbh == page * PAGE_SIZE && size == k * PAGE_SIZE && 0 < k && 0 < page
          && (page + k) * PAGE_SIZE <= pmm.mem.Length
      modifies this`headers, this`blocks, this`pages, this`blockListEnd, pmm.mem
      ensures Shape() && blocks == old(blocks) + [Block(newbh, size - HEADER, true)]
          && pages == old(pages) + Pages(page, k)
      ensures TotalBytes(blocks) == TotalBytes(old(blocks)) + size
      ensures Isolated(old(blocks), pages, old(pmm.mem[..]), pmm.mem[..])
    {
      hide HeadersStored, Isolated, Linked, Tiles;
      ghost var b, end := Block(newbh, size - HEADER, true), blockListEnd;
      GrowthIsReady(headers, blocks, pages, blockListStart, blockListEnd, pmm.mem.Length, page, k);
      GrowthChain(headers, blocks, pages, blockListStart, blockListEnd, pmm.mem.Length, page, k);
      ghost var m0 := pmm.mem[..];
      AppendStores(newbh, size - HEADER);
      ghost var m1 := pmm.mem[..];
      HeadersIsolated(blocks + [b], pages + Pages(page, k), m0, m1, {newbh} + {end});
      GrownIsolated(blocks, b, pages + Pages(page, k), m0, m1);
      blocks, pages := blocks + [b], pages + Pages(page, k);
      assert pmm.mem[..] == m1;
    }

    /** Appends a block and accounts for it. */
    method AppendAccounted(newbh: nat, size: nat, ghost page: nat, ghost k: nat)
      requires Shape() && Accounted() && Pages(page, k) !! pages
      requires newbh == page * PAGE_SIZE && size == k * PAGE_SIZE && 0 < k && 0 < page
          && (page + k) * PAGE_SIZE <= pmm.mem.Length
      modifies this, pmm.mem
      ensures Shape() && Accounted()
      ensures blocks == old(blocks) + [Block(newbh, size - HEADER, true)] && pages == old(pages) + Pages(page, k)
      ensures Isolated(old(blocks), pages, old(pmm.mem[..]), pmm.mem[..])
    {
      hide Chain, HeadersStored, Isolated, TotalBytes, Pages;
      PagesAdd(pages, page, k);
      Append(newbh, size, page, k);
      ghost var m := pmm.mem[..];
      kheapSize, kheapSizeUsable := kheapSize + size, kheapSizeUsable + (size - HEADER);
      regions := regions + 1;
      assert pmm.mem[..] == m;
    }

    /** Takes k pages from the page allocator and appends them to the list as one free block. False is
        the panic: the allocator has no such run. */
    method Grow(size: nat, k: nat) returns (ok: bool, ghost page: nat)
      requires Sound() && size == k * PAGE_SIZE && 0 < k
      modifies this, pmm`held, pmm.mem
      ensures Sound()
      ensures ok == FirstRun(pmm.reserved + old(pmm.held), pmm.Tracked(), k, 0).Some?
      ensures !ok ==>
          blocks == old(blocks) && pages == old(pages) && pmm.held == old(pmm.held) && pmm.mem[..] == old(pmm.mem[..])
      ensures ok ==> FirstRun(pmm.reserved + old(pmm.held), pmm.Tracked(), k, 0) == Some(page)
      ensures ok ==> blocks == old(blocks) + [Block(page * PAGE_SIZE, size - HEADER, true)]
      ensures ok ==> pages == old(pages) + Pages(page, k) && pmm.held == old(pmm.held) + Pages(page, k)
      ensures Isolated(old(blocks), pages + pmm.reserved, old(pmm.mem[..]), pmm.mem[..])
    {
      hide Tracks, Chain, HeadersStored, Isolated, FirstRun, TotalBytes, Pages;
      IsolatedReflexive(blocks, pages + pmm.reserved, pmm.mem[..]);
      var newbh;
      newbh, page := TakePages(k);
      if newbh.None? {
        return false, 0;
      }
      ghost var bs, m0, m1 := blocks, old(pmm.mem[..]), pmm.mem[..];
      AppendAccounted(newbh.value, size, page, k);
      ghost var m2 := pmm.mem[..];
      IsolatedTracks(bs, pages, m1, m2, pmm.bitmap, pmm.bitmapSize, pmm.reserved, pmm.held);
      IsolatedTransitive(bs, pmm.reserved + Pages(page, k), pages, pages + pmm.reserved, m0, m1, m2);
      return true, page;
    }

    /** The page at which the allocator would place a region for n bytes. */
    ghost function NextRun(n: nat): Option<nat>
      reads this, pmm
    {
      FirstRun(pmm.reserved + pmm.held, pmm.Tracked(), RegionPageCount(n), 0)
    }

    /** Grows the heap by a block of n bytes or more, the header not counted. */
    method Extend(n: nat) returns (ok: bool)
      requires Sound() && RegionPageCount(n) < 0x8000_0000
      modifies this, pmm`held, pmm.mem
      ensures Sound()
      ensures ok == old(NextRun(n)).Some?
      ensures !ok ==>
          blocks == old(blocks) && pages == old(pages) && pmm.held == old(pmm.held) && pmm.mem[..] == old(pmm.mem[..])
      ensures ok ==> var page := old(NextRun(n)).value;
                     && blocks == old(blocks) + [Region(page, n)]
                     && pages == old(pages) + RegionPages(page, n) && pmm.held == old(pmm.held) + RegionPages(page, n)
      ensures Isolated(old(blocks), pages + pmm.reserved, old(pmm.mem[..]), pmm.mem[..])
    {
      hide Tracks, Chain, HeadersStored, Isolated, FirstRun, TotalBytes, Pages, RegionBytes;
      var size := RegionBytes(n);
      var grown, page := Grow(size, RegionPageCount(n));
      return grown;
    }

    // ----- Allocation -----

    /** Gives out block i for n bytes. */
    method TakeBlock(bh: nat, n: nat, ghost i: nat)
      requires Shape() && i < |blocks| && bh == blocks[i].addr && FitsIn(blocks[i], n)
      modifies this`headers, this`blocks, this`blockListEnd, pmm.mem
      ensures Shape() && blocks == AllocAt(old(blocks), i, n) && TotalBytes(blocks) == TotalBytes(old(blocks))
      ensures Isolated(old(blocks), pages, old(pmm.mem[..]), pmm.mem[..])
    {
      hide HeadersStored, Chain, Isolated;
      ChainTiles(headers, blocks, pages, blockListStart, blockListEnd, pmm.mem.Length);
      ghost var bs, m0 := blocks, pmm.mem[..];
      BlockInChain(headers, blocks, pages, blockListStart, blockListEnd, pmm.mem.Length, i);
      var h := ReadHeader(bh);
      if h.size == n || (h.size > n && h.size <= n + HEADER) {
        StoreFree(bh, false, i);
        HeadersIsolated(bs, pages, m0, pmm.mem[..], {bh});
      } else {
        CreateBlock(bh, n, i);
        ghost var m1 := pmm.mem[..];
        StoreFree(bh, false, i);
        HeadersIsolated(bs, pages, m1, pmm.mem[..], {bh});
        IsolatedTransitive(bs, pages, pages, pages, m0, m1, pmm.mem[..]);
      }
    }

    /** Walks the list for the first free block with n bytes and gives it out. */
    method TakeFirstFit(n: nat) returns (r: Option<nat>)
      requires Sound()
      modifies this`headers, this`blocks, this`blockListEnd, pmm.mem
      ensures Sound() && r.Some? == FirstFit(old(blocks), n, 0).Some?
      ensures r.None? ==> blocks == old(blocks) && pmm.mem[..] == old(pmm.mem[..])
      ensures r.Some? ==> blocks == Kmalloced(old(blocks), n, None).blocks && r == Kmalloced(old(blocks), n, None).r
      ensures Isolated(old(blocks), pages, old(pmm.mem[..]), pmm.mem[..])
    {
      hide Tracks, HeadersStored, Chain, Isolated;
      ChainTiles(headers, blocks, pages, blockListStart, blockListEnd, pmm.mem.Length);
      IsolatedReflexive(blocks, pages, pmm.mem[..]);
      var bh := blockListStart;
      ghost var i := 0;
      while bh != 0
        invariant 0 <= i <= |blocks| && bh == Addr(blocks, i)
        invariant FirstFit(blocks, n, i) == FirstFit(blocks, n, 0)
        invariant Sound() && blocks == old(blocks) && pmm.mem[..] == old(pmm.mem[..])
        decreases |blocks| - i
      {
        BlockInChain(headers, blocks, pages, blockListStart, blockListEnd, pmm.mem.Length, i);
        var h := ReadHeader(bh);
        if h.free && h.size >= n {
          TakeBlock(bh, n, i);
          IsolatedTracks(old(blocks), pages, old(pmm.mem[..]), pmm.mem[..], pmm.bitmap, pmm.bitmapSize, pmm.reserved,
              pmm.held);
          return Some(bh + HEADER);
        }
        bh := h.next;
        i := i + 1;
      }
      if i < |blocks| {
        BlockInChain(headers, blocks, pages, blockListStart, blockListEnd, pmm.mem.Length, i);
      }
      return None;
    }

    /** kmalloc: the rounded request is met as `Kmalloced` says, with no live payload touched. None is
        the panic. */
    method Kmalloc(size: nat) returns (r: Option<nat>)
      requires Sound() && RegionPageCount(RoundRequest(size)) < 0x8000_0000
      modifies this, pmm`held, pmm.mem
      ensures Sound() && (old(Valid()) ==> Valid())
      ensures var out := Kmalloced(old(blocks), RoundRequest(size), old(NextRun(RoundRequest(size))));
              r == out.r && blocks == out.blocks && pages == old(pages) + out.added
                  && pmm.held == old(pmm.held) + out.added
      ensures Isolated(old(blocks), pages + pmm.reserved, old(pmm.mem[..]), pmm.mem[..])
      decreases if FirstFit(blocks, RoundRequest(size), 0).Some? then 0 else 1
    {
      hide Tracks, HeadersStored, Chain, Isolated, FirstRun, TotalBytes, Pages, RegionBytes, Coalesced, Kmalloced,
          FirstFit, RoundRequest, RegionPages, Region, Account, RegionPageCount, FitsIn, AllocAt;
      IsolatedReflexive(blocks, pages + pmm.reserved, pmm.mem[..]);
      var n := RoundRequest(size);
      RoundingIsIdempotent(size);
      ghost var bs, m0, run := blocks, pmm.mem[..], NextRun(n);
      KmallocKeepsCoalesced(bs, n, run);
      KmallocedCases(bs, n, run);
      r := TakeFirstFit(n);
      if r.Some? {
        IsolatedWider(bs, pages, pages + pmm.reserved, m0, pmm.mem[..]);
        return;
      }
      var ok := Extend(n);
      if !ok {
        return;
      }
      RetryTakesRegion(bs, n, run.value, NextRun(n));
      ghost var m1, touched := pmm.mem[..], pages + pmm.reserved;
      r := Kmalloc(n);
      GrownIsolated(bs, Region(run.value, n), pages + pmm.reserved, m1, pmm.mem[..]);
      IsolatedTransitive(bs, touched, pages + pmm.reserved, pages + pmm.reserved, m0, m1, pmm.mem[..]);
    }

    /** kzalloc: what kmalloc does, and then the requested bytes are zero. */
    method Kzalloc(size: nat) returns (r: Option<nat>)
      requires Sound() && RegionPageCount(RoundRequest(size)) < 0x8000_0000
      modifies this, pmm`held, pmm.mem
      ensures Sound() && (old(Valid()) ==> Valid())
      ensures var out := Kmalloced(old(blocks), RoundRequest(size), old(NextRun(RoundRequest(size))));
              r == out.r && blocks == out.blocks && pages == old(pages) + out.added
                  && pmm.held == old(pmm.held) + out.added
      ensures r.Some? ==> r.value + size <= pmm.mem.Length && forall x: nat :: r.value <= x < r.value + size ==>
          pmm.mem[x] == 0
      ensures Isolated(old(blocks), pages + pmm.reserved, old(pmm.mem[..]), pmm.mem[..])
    {
      hide Tracks, HeadersStored, Chain, Isolated, FirstRun, TotalBytes, Pages, RegionBytes, Kmalloced, Coalesced;
      ghost var n, bs, m0, run := RoundRequest(size), blocks, pmm.mem[..], NextRun(RoundRequest(size));
      RoundingIsIdempotent(size);
      r := Kmalloc(size);
      if r.Some? {
        KmallocGives(bs, n, run);
        ghost var m1 := pmm.mem[..];
        FillPayload(r.value, 0, size, Given(bs, n));
        ghost var m2 := pmm.mem[..];
        IsolatedAmong(bs, Retag(blocks, Given(bs, n), true), pages, m1, m2);
        IsolatedTransitive(bs, pages + pmm.reserved, pages, pages + pmm.reserved, m0, m1, m2);
        IsolatedTracks(bs, pages, m1, m2, pmm.bitmap, pmm.bitmapSize, pmm.reserved, pmm.held);
      }
    }

    /** memset within the payload of block i. */
    method FillPayload(ptr: nat, v: bv8, n: nat, ghost i: nat)
      requires Shape() && i < |blocks| && ptr == blocks[i].addr + HEADER && n <= blocks[i].size
      modifies pmm.mem
      ensures Shape() && SameOutside(old(pmm.mem[..]), pmm.mem[..], ptr, n)
      ensures ptr + n <= pmm.mem.Length && forall x: nat :: ptr <= x < ptr + n ==> pmm.mem[x] == v
      ensures Isolated(Retag(blocks, i, true), pages, old(pmm.mem[..]), pmm.mem[..])
    {
      hide HeadersStored, Isolated;
      BlockInChain(headers, blocks, pages, blockListStart, blockListEnd, pmm.mem.Length, i);
      ghost var m0 := pmm.mem[..];
      Memset(pmm.mem, ptr, v, n);
      ghost var m1 := pmm.mem[..];
      PayloadWriteKeepsHeaders(m0, m1, headers, blocks, pages, i, n);
      RetagKeepsTiles(blocks, pages, i, true);
      BlockWriteIsolated(Retag(blocks, i, true), pages, m0, m1, i, ptr, n);
      assert forall x: nat :: ptr <= x < ptr + n ==> m1[x] == v;
    }

    // ----- Giving back -----

    /** Merges block i with its list successor if both are free and touch. */
    method MergeWithNext(bh: nat, ghost i: nat)
      requires Shape() && i < |blocks| && bh == blocks[i].addr && blocks[i].free
      modifies this`headers, this`blocks, this`blockListEnd, pmm.mem
      ensures Shape() && blocks == MergeIf(old(blocks), i) && TotalBytes(blocks) == TotalBytes(old(blocks))
      ensures SameButHeaders(old(pmm.mem[..]), pmm.mem[..], Addrs(old(blocks)))
    {
      hide HeadersStored, Chain;
      ChainTiles(headers, blocks, pages, blockListStart, blockListEnd, pmm.mem.Length);
      TilesDistinct(blocks, pages);
      BlockInChain(headers, blocks, pages, blockListStart, blockListEnd, pmm.mem.Length, i);
      ghost var bs, m0 := blocks, pmm.mem[..];
      LinkSetAddrs(bs, i, i + 2);
      var h := ReadHeader(bh);
      if h.next != 0 {
        BlockInChain(headers, blocks, pages, blockListStart, blockListEnd, pmm.mem.Length, i + 1);
        var hNext := ReadHeader(h.next);
        if hNext.free && bh + h.size + HEADER == h.next {
          MergeBlocks(bh, h.next, i);
          SameButMore(m0, pmm.mem[..], LinkSet(bh, bh, Addr(bs, i + 2)), Addrs(bs));
        }
      }
    }

    /** Merges block i with its list predecessor if both are free and touch. */
    method MergeWithPrev(bh: nat, ghost i: nat)
      requires Shape() && i < |blocks| && bh == blocks[i].addr && blocks[i].free
      modifies this`headers, this`blocks, this`blockListEnd, pmm.mem
      ensures Shape() && blocks == (if i == 0 then old(blocks) else MergeIf(old(blocks), i - 1))
      ensures TotalBytes(blocks) == TotalBytes(old(blocks))
      ensures SameButHeaders(old(pmm.mem[..]), pmm.mem[..], Addrs(old(blocks)))
    {
      hide HeadersStored, Chain;
      ChainTiles(headers, blocks, pages, blockListStart, blockListEnd, pmm.mem.Length);
      TilesDistinct(blocks, pages);
      BlockInChain(headers, blocks, pages, blockListStart, blockListEnd, pmm.mem.Length, i);
      ghost var bs, m0 := blocks, pmm.mem[..];
      var h := ReadHeader(bh);
      if h.prev != 0 {
        BlockInChain(headers, blocks, pages, blockListStart, blockListEnd, pmm.mem.Length, i - 1);
        LinkSetAddrs(bs, i - 1, i + 1);
        var hPrev := ReadHeader(h.prev);
        if hPrev.free && h.prev + hPrev.size + HEADER == bh {
          MergeBlocks(h.prev, bh, i - 1);
          SameButMore(m0, pmm.mem[..], LinkSet(h.prev, h.prev, Addr(bs, i + 1)), Addrs(bs));
        }
      }
    }

    /** kfree, for NULL or a pointer to the payload of block i. A block that is free already is left
        alone (the source logs a warning); a live one is marked free, poisoned and merged on both sides. */
    method Kfree(ptr: nat, ghost i: nat)
      requires Sound() && (ptr != 0 ==> i < |blocks| && ptr == blocks[i].addr + HEADER)
      modifies this`headers, this`blocks, this`blockListEnd, pmm.mem
      ensures Sound() && (old(Valid()) ==> Valid())
      ensures ptr == 0 || old(blocks)[i].free ==> blocks == old(blocks) && pmm.mem[..] == old(pmm.mem[..])
      ensures ptr != 0 && !old(blocks)[i].free ==>
          && blocks == FreeAt(old(blocks), i)
          && Isolated(Retag(old(blocks), i, true), pages, old(pmm.mem[..]), pmm.mem[..])
          && old(blocks)[i].End() <= pmm.mem.Length
          && forall x: nat :: ptr <= x < old(blocks)[i].End() ==> pmm.mem[x] == 0xFF
    {
      hide Tracks, HeadersStored, Chain, Isolated, TotalBytes, Addrs, SameButHeaders, FreeAt, Tiles, Coalesced;
      if ptr == 0 {
        return;
      }
      var bh := ptr - HEADER;
      BlockInChain(headers, blocks, pages, blockListStart, blockListEnd, pmm.mem.Length, i);
      var h := ReadHeader(bh);
      if h.free {
        return;
      }
      ChainTiles(headers, blocks, pages, blockListStart, blockListEnd, pmm.mem.Length);
      ghost var bs, m0 := blocks, pmm.mem[..];
      StoreFree(bh, true, i);
      ghost var m1 := pmm.mem[..];
      FillPayload(ptr, 0xFF, h.size, i);
      ghost var m2 := pmm.mem[..];
      MergeBothSides(bh, i);
      ghost var m3 := pmm.mem[..];
      RetagAddrs(bs, i, true);
      FreeTwice(bs, i);
      FreeKeepsCoalesced(bs, i);
      SameButMore(m0, m1, {bh}, Addrs(bs));
      FreeIsolated(bs, pages, i, m0, m1, m2, m3);
      IsolatedTracks(Retag(bs, i, true), pages, m0, m3, pmm.bitmap, pmm.bitmapSize, pmm.reserved, pmm.held);
      assert forall x: nat :: ptr <= x < bs[i].End() ==> m3[x] == m2[x];
    }

    /** The end of kfree: block i, now free, is merged with its successor and then its predecessor. */
    method MergeBothSides(bh: nat, ghost i: nat)
      requires Shape() && i < |blocks| && bh == blocks[i].addr && blocks[i].free
      modifies this`headers, this`blocks, this`blockListEnd, pmm.mem
      ensures Shape() && blocks == FreeAt(old(blocks), i) && TotalBytes(blocks) == TotalBytes(old(blocks))
      ensures SameButHeaders(old(pmm.mem[..]), pmm.mem[..], Addrs(old(blocks)))
    {
      hide HeadersStored, Chain, SameButHeaders;
      ghost var bs, m0 := blocks, pmm.mem[..];
      assert Retag(bs, i, true) == bs;
      MergeWithNext(bh, i);
      ghost var bs', m1 := blocks, pmm.mem[..];
      MergeAddrs(bs, i);
      MergeWithPrev(bh, i);
      SameButMore(m1, pmm.mem[..], Addrs(bs'), Addrs(bs));
      SameButTransitive(m0, m1, pmm.mem[..], Addrs(bs), Addrs(bs));
      assert Addrs(bs) + Addrs(bs) == Addrs(bs);
    }

    /** The only header of a new heap. */
    method FirstHeader(a: nat, h: Header)
      requires a + HEADER <= pmm.mem.Length && h.Fits()
      modifies this`headers, pmm.mem
      ensures HeadersStored(pmm.mem[..], headers) && headers == map[a := h]
      ensures SameButHeaders(old(pmm.mem[..]), pmm.mem[..], {a})
    {
      ghost var m := pmm.mem[..];
      headers := map[];
      assert pmm.mem[..] == m;
      NewHeader(a, h);
    }

    /** A heap of one free block over KHEAP_INIT_PAGES pages. */
    method FirstBlock(start: nat, ghost page: nat)
      requires start == page * PAGE_SIZE && 0 < page
      requires (page + KHEAP_INIT_PAGES) * PAGE_SIZE <= pmm.mem.Length <= MAX_MEMORY
      modifies this, pmm.mem
      ensures Shape() && Accounted() && Coalesced(blocks) && pages == Pages(page, KHEAP_INIT_PAGES)
      ensures blocks == [Block(start, KHEAP_INIT_PAGES * PAGE_SIZE - HEADER, true)]
      ensures kheapSize == 0x1_0000 && kheapSizeUsable == 0x1_0000 - 32
      ensures Isolated(blocks, pages, old(pmm.mem[..]), pmm.mem[..])
    {
      hide Chain, HeadersStored, TotalBytes, Coalesced, Isolated, SameButHeaders, Linked, Tiles, Pages;
      ghost var b := Block(start, KHEAP_INIT_PAGES * PAGE_SIZE - HEADER, true);
      ghost var m0 := pmm.mem[..];
      FirstHeader(start, Header(KHEAP_INIT_PAGES * PAGE_SIZE - HEADER, true, 0, 0));
      ghost var m := pmm.mem[..];
      FirstChain(page, KHEAP_INIT_PAGES, pmm.mem.Length);
      ChainTiles(headers, [b], Pages(page, KHEAP_INIT_PAGES), start, start, pmm.mem.Length);
      HeadersIsolated([b], Pages(page, KHEAP_INIT_PAGES), m0, m, {start});
      blockListStart, blockListEnd := start, start;
      kheapSize, kheapSizeUsable := KHEAP_INIT_PAGES * PAGE_SIZE, KHEAP_INIT_PAGES * PAGE_SIZE - HEADER;
      blocks, pages, regions := [b], Pages(page, KHEAP_INIT_PAGES), 1;
      assert pmm.mem[..] == m;
    }

    /** kheap_init: one free block over 16 fresh pages. False is the panic. */
    method Init() returns (ok: bool, ghost page: nat)
      requires pmm.Valid()
      modifies this, pmm`held, pmm.mem
      ensures ok == FirstRun(pmm.reserved + old(pmm.held), pmm.Tracked(), KHEAP_INIT_PAGES, 0).Some?
      ensures !ok ==> pmm.Valid() && pmm.held == old(pmm.held)
      ensures ok ==> Valid() && FirstRun(pmm.reserved + old(pmm.held), pmm.Tracked(), KHEAP_INIT_PAGES, 0) == Some(page)
      ensures ok ==> pages == Pages(page, KHEAP_INIT_PAGES) && pmm.held == old(pmm.held) + pages
      ensures ok ==> pages !! old(pmm.held) + pmm.reserved
      ensures ok ==> forall p: nat :: p !in pmm.reserved + pages ==> SamePage(old(pmm.mem[..]), pmm.mem[..], p)
      ensures ok ==> blocks == [Block(page * PAGE_SIZE, KHEAP_INIT_PAGES * PAGE_SIZE - HEADER, true)]
      ensures ok ==> blocks == [Block(0x1000 * page, 0x1_0000 - 32, true)] && kheapSize == 0x1_0000
      ensures ok ==> kheapSizeUsable == 0x1_0000 - 32 && forall p: nat :: p in pages <==> page <= p < page + 16
    {
      hide Tracks, Isolated, TotalBytes, Pages, FirstRun, Chain, HeadersStored, Coalesced, Account, SamePage, Linked,
           Ends, Tiles, FreeRun, SameButHeaders;
      ghost var run := FirstRun(pmm.reserved + pmm.held, pmm.Tracked(), KHEAP_INIT_PAGES, 0);
      var start := pmm.Alloc(KHEAP_INIT_PAGES);
      if start.None? {
        return false, 0;
      }
      page := run.value;
      ghost var m1 := pmm.mem[..];
      HeldInMemory(m1, pmm.bitmap, pmm.bitmapSize, pmm.reserved, pmm.held, page, KHEAP_INIT_PAGES);
      FirstBlock(start.value, page);
      ghost var m2 := pmm.mem[..];
      IsolatedTracks(blocks, pages, m1, m2, pmm.bitmap, pmm.bitmapSize, pmm.reserved, pmm.held);
      OutsidePages(blocks, pages, pmm.reserved, old(pmm.mem[..]), m1, m2);
      return true, page;
    }
  }
}
