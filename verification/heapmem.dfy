/** Block headers in memory, the doubly linked list they form, and what a heap operation may write. */
module HeapMemory {
  import opened Wrappers
  import opened Memory
  import opened Bitmap
  import opened PhysicalPages
  import opened HeapList

  // ----- Headers in memory -----

  /** struct kheap_block_header: size at offset 0, free at 8, next at 16, prev at 24. */
  datatype Header = Header(size: nat, free: bool, next: nat, prev: nat) {
    predicate Fits() {
      size <= MAX_MEMORY && next <= MAX_MEMORY && prev <= MAX_MEMORY
    }
  }

  /** The headers of the heap, by address. */
  type Headers = map<int, Header>

  function HeaderAt(m: Bytes, a: nat): Header
    requires a + HEADER <= |m|
  {
    Header(Load(m, a, 8), m[a + 8] != 0, Load(m, a + 16, 8), Load(m, a + 24, 8))
  }

  function PutHeader(m: Bytes, a: nat, h: Header): (r: Bytes)
    requires a + HEADER <= |m|
    ensures SameOutside(m, r, a, HEADER)
  {
    Store(PutFree(Store(m, a, 8, h.size), a, h.free, h.next), a + 24, 8, h.prev)
  }

  /** The free flag, and then the next field. */
  function PutFree(m: Bytes, a: nat, free: bool, next: nat): (r: Bytes)
    requires a + HEADER <= |m|
    ensures SameOutside(m, r, a + 8, 16)
  {
    Store(m[a + 8 := if free then 1 else 0], a + 16, 8, next)
  }

  lemma WordFits(v: nat)
    requires v <= MAX_MEMORY
    ensures v < Pow256(8)
  {
  }

  lemma StoredWord(m: Bytes, m': Bytes, a: nat, v: nat)
    requires a + 8 <= |m| && v <= MAX_MEMORY && SameOn(Store(m, a, 8, v), m', a, 8)
    ensures Load(m', a, 8) == v
  {
    WordFits(v);
    LoadStore(m, a, 8, v);
    LoadFrame(Store(m, a, 8, v), m', a, 8);
  }

  lemma PutFreeReads(m: Bytes, m': Bytes, a: nat, free: bool, next: nat)
    requires a + HEADER <= |m| && next <= MAX_MEMORY && SameOn(PutFree(m, a, free, next), m', a + 8, 16)
    ensures (m'[a + 8] != 0) == free && Load(m', a + 16, 8) == next
  {
    StoredWord(m[a + 8 := if free then 1 else 0], m', a + 16, next);
  }

  lemma PutHeaderReads(m: Bytes, a: nat, h: Header)
    requires a + HEADER <= |m| && h.Fits()
    ensures HeaderAt(PutHeader(m, a, h), a) == h
  {
    var m1 := Store(m, a, 8, h.size);
    var m2 := PutFree(m1, a, h.free, h.next);
    var r := Store(m2, a + 24, 8, h.prev);
    StoredWord(m, r, a, h.size);
    PutFreeReads(m1, r, a, h.free, h.next);
    StoredWord(m2, r, a + 24, h.prev);
  }

  lemma HeaderFrame(m: Bytes, m': Bytes, a: nat)
    requires a + HEADER <= |m| && SameOn(m, m', a, HEADER)
    ensures HeaderAt(m', a) == HeaderAt(m, a)
  {
    hide Load;
    LoadFrame(m, m', a, 8);
    LoadFrame(m, m', a + 16, 8);
    LoadFrame(m, m', a + 24, 8);
  }

  /** Stores the four fields of a header. */
  method WriteHeader(mem: array<bv8>, a: nat, h: Header)
    requires a + HEADER <= mem.Length
    modifies mem
    ensures mem[..] == PutHeader(old(mem[..]), a, h)
  {
    StoreBytes(mem, a, 8, h.size);
    ghost var m := mem[..];
    mem[a + 8] := if h.free then 1 else 0;
    assert mem[..] == m[a + 8 := if h.free then 1 else 0];
    StoreBytes(mem, a + 16, 8, h.next);
    StoreBytes(mem, a + 24, 8, h.prev);
  }

  ghost predicate HeadersStored(m: Bytes, headers: Headers) {
    && (forall a: int :: a in headers ==> 0 <= a && a + HEADER <= |m|)
    && (forall a: nat {:trigger HeaderAt(m, a)} :: a in headers ==> HeaderAt(m, a) == headers[a])
  }

  /** No other header overlaps the one at address a. */
  ghost predicate Clear(headers: Headers, a: nat) {
    forall b: int :: b in headers && b != a ==> b + HEADER <= a || a + HEADER <= b
  }

  lemma PutHeaderStored(m: Bytes, headers: Headers, a: nat, h: Header)
    requires HeadersStored(m, headers) && a + HEADER <= |m| && h.Fits() && Clear(headers, a)
    ensures HeadersStored(PutHeader(m, a, h), headers[a := h])
  {
    hide HeaderAt, PutHeader;
    var m' := PutHeader(m, a, h);
    PutHeaderReads(m, a, h);
    forall b: nat | b in headers && b != a
      ensures HeaderAt(m', b) == headers[b]
    {
      assert HeaderAt(m, b) == headers[b];
      HeaderFrame(m, m', b);
    }
  }

  lemma HeadersFrame(m: Bytes, m': Bytes, headers: Headers)
    requires HeadersStored(m, headers) && |m'| == |m|
    requires forall a: int :: a in headers && 0 <= a ==> SameOn(m, m', a, HEADER)
    ensures HeadersStored(m', headers)
  {
    hide HeaderAt;
    forall a: nat | a in headers
      ensures HeaderAt(m', a) == headers[a]
    {
      assert HeaderAt(m, a) == headers[a];
      HeaderFrame(m, m', a);
    }
  }

  // ----- The linked list -----

  /** The address of block i, and NULL on either side of the list. */
  ghost function Addr(bs: Blocks, i: int): nat {
    if 0 <= i < |bs| then bs[i].addr else 0
  }

  ghost function HeaderOf(bs: Blocks, i: nat): Header
    requires i < |bs|
  {
    Header(bs[i].size, bs[i].free, Addr(bs, i + 1), Addr(bs, i - 1))
  }

  /** The headers form the doubly linked list bs, and there are no others. */
  ghost predicate Linked(headers: Headers, bs: Blocks) {
    && (forall i: nat :: i < |bs| ==> bs[i].addr in headers)
    && (forall i: nat {:trigger HeaderOf(bs, i)} :: i < |bs| ==> headers[bs[i].addr] == HeaderOf(bs, i))
    && (forall a: int :: a in headers ==> Listed(bs, a))
  }

  ghost predicate Listed(bs: Blocks, a: int) {
    exists i: nat :: i < |bs| && bs[i].addr == a
  }

  ghost predicate SameAddr(bs: Blocks, i: nat, j: nat)
    requires i < |bs| && j < |bs|
  {
    bs[i].addr == bs[j].addr
  }

  /** Every address of the list is used once, and none is NULL. */
  ghost predicate Distinct(bs: Blocks) {
    && (forall i: nat :: i < |bs| ==> 0 < bs[i].addr)
    && (forall i: nat, j: nat {:trigger SameAddr(bs, i, j)} :: i < |bs| && j < |bs| && i != j ==> !SameAddr(bs, i, j))
  }

  lemma TilesDistinct(bs: Blocks, pages: set<nat>)
    requires Tiles(bs, pages)
    ensures Distinct(bs)
  {
    forall i: nat, j: nat | i < |bs| && j < |bs| && i != j
      ensures !SameAddr(bs, i, j)
    {
      assert Apart(bs[i], bs[j]);
    }
  }

  lemma LinkedClear(headers: Headers, bs: Blocks, pages: set<nat>, i: nat)
    requires Linked(headers, bs) && Tiles(bs, pages) && i < |bs|
    ensures Clear(headers, bs[i].addr)
    ensures forall a: nat :: bs[i].addr + HEADER <= a && a + HEADER <= bs[i].End() ==> a !in headers && Clear(headers,
        a)
  {
    forall b: int | b in headers
      ensures b != bs[i].addr ==> b + HEADER <= bs[i].addr || bs[i].End() <= b
    {
      assert Listed(bs, b);
      var j: nat :| j < |bs| && bs[j].addr == b;
      assert j != i ==> Apart(bs[j], bs[i]);
    }
  }

  ghost function RetagHeader(headers: Headers, a: int, free: bool): Headers
    requires a in headers
  {
    headers[a := headers[a].(free := free)]
  }

  lemma RetagLinked(headers: Headers, bs: Blocks, i: nat, free: bool)
    requires Linked(headers, bs) && Distinct(bs) && i < |bs|
    ensures Linked(RetagHeader(headers, bs[i].addr, free), Retag(bs, i, free))
  {
    var headers', bs' := RetagHeader(headers, bs[i].addr, free), Retag(bs, i, free);
    forall j: nat | j < |bs'|
      ensures bs'[j].addr in headers' && headers'[bs'[j].addr] == HeaderOf(bs', j)
    {
      assert headers[bs[j].addr] == HeaderOf(bs, j) && (SameAddr(bs, j, i) ==> j == i);
    }
    forall a: int | a in headers'
      ensures Listed(bs', a)
    {
      assert Listed(bs, a);
      var j: nat :| j < |bs| && bs[j].addr == a;
      assert bs'[j].addr == a;
    }
  }

  /** headers with the prev field at a rewritten, unless a is NULL. */
  ghost function WithPrev(headers: Headers, a: nat, prev: nat): Headers {
    if a in headers && a != 0 then headers[a := headers[a].(prev := prev)] else headers
  }

  /** Cutting the block at a: the new header at b with the rest, then a's size and next, then the old
      successor. */
  ghost function SplitHeaders(headers: Headers, a: nat, b: nat, n: nat): Headers
    requires a in headers
  {
    var h := headers[a];
    var rest := if n + HEADER <= h.size then h.size - (n + HEADER) else 0;
    WithPrev(headers[b := Header(rest, true, h.next, a)][a := h.(size := n, next := b)], h.next, b)
  }

  lemma SplitAddr(bs: Blocks, i: nat, n: nat, j: int)
    requires i < |bs| && n + HEADER <= bs[i].size
    ensures Addr(Split(bs, i, n), j) ==
            if j <= i then Addr(bs, j) else if j == i + 1 then bs[i].addr + HEADER + n else Addr(bs, j - 1)
  {
  }

  lemma SplitHeader(headers: Headers, bs: Blocks, i: nat, n: nat, b: nat, j: nat)
    requires Linked(headers, bs) && Distinct(bs) && i < |bs| && n + HEADER <= bs[i].size
    requires b == bs[i].addr + HEADER + n && b !in headers && j < |bs| + 1
    ensures var headers', bs' := SplitHeaders(headers, bs[i].addr, b, n), Split(bs, i, n);
            bs'[j].addr in headers' && headers'[bs'[j].addr] == HeaderOf(bs', j)
  {
    var k := Squeeze(i, j);
    SplitAddr(bs, i, n, j - 1);
    SplitAddr(bs, i, n, j + 1);
    SplitCuts(bs, i, n);
    assert headers[bs[i].addr] == HeaderOf(bs, i) && headers[bs[k].addr] == HeaderOf(bs, k);
    assert k != i ==> !SameAddr(bs, k, i);
    assert i + 1 < |bs| ==> !SameAddr(bs, i + 1, i) && (SameAddr(bs, k, i + 1) ==> k == i + 1);
  }

  lemma SplitKeys(headers: Headers, a: nat, b: nat, n: nat)
    requires a in headers
    ensures SplitHeaders(headers, a, b, n).Keys == headers.Keys + {b}
  {
  }

  lemma SplitListed(bs: Blocks, i: nat, n: nat, a: int)
    requires i < |bs| && n + HEADER <= bs[i].size && (Listed(bs, a) || a == bs[i].addr + HEADER + n)
    ensures Listed(Split(bs, i, n), a)
  {
    var bs' := Split(bs, i, n);
    if a == bs[i].addr + HEADER + n {
      assert bs'[i + 1].addr == a;
    } else {
      var k: nat :| k < |bs| && bs[k].addr == a;
      assert bs'[if k <= i then k else k + 1].addr == a;
    }
  }

  lemma SplitLinked(headers: Headers, bs: Blocks, i: nat, n: nat, b: nat)
    requires Linked(headers, bs) && Distinct(bs) && i < |bs| && n + HEADER <= bs[i].size
    requires b == bs[i].addr + HEADER + n && b !in headers
    ensures Linked(SplitHeaders(headers, bs[i].addr, b, n), Split(bs, i, n))
  {
    var headers', bs' := SplitHeaders(headers, bs[i].addr, b, n), Split(bs, i, n);
    forall j: nat | j < |bs'|
      ensures bs'[j].addr in headers' && headers'[bs'[j].addr] == HeaderOf(bs', j)
    {
      SplitHeader(headers, bs, i, n, b, j);
    }
    SplitKeys(headers, bs[i].addr, b, n);
    forall a: int | a in headers'
      ensures Listed(bs', a)
    {
      SplitListed(bs, i, n, a);
    }
  }

  /** Taking the header at b, the successor of a, out of the list and giving its bytes to a. */
  ghost function MergeHeaders(headers: Headers, a: nat, b: nat): Headers
    requires a in headers && b in headers
  {
    var h, h' := headers[a], headers[b];
    WithPrev(headers, h'.next, a)[a := h.(size := h.size + (h'.size + HEADER), next := h'.next)] - {b}
  }

  lemma MergeHeader(headers: Headers, bs: Blocks, i: nat, j: nat)
    requires Linked(headers, bs) && Distinct(bs) && i + 1 < |bs| && j + 1 < |bs|
    ensures var headers', bs' := MergeHeaders(headers, bs[i].addr, bs[i + 1].addr), Merge(bs, i);
            bs'[j].addr in headers' && headers'[bs'[j].addr] == HeaderOf(bs', j)
  {
    var k := if j <= i then j else j + 1;
    assert headers[bs[i].addr] == HeaderOf(bs, i) && headers[bs[i + 1].addr] == HeaderOf(bs, i + 1);
    assert headers[bs[k].addr] == HeaderOf(bs, k) && !SameAddr(bs, k, i + 1);
    assert k != i ==> !SameAddr(bs, k, i);
    assert i + 2 < |bs| ==> !SameAddr(bs, i + 2, i) && (SameAddr(bs, k, i + 2) ==> k == i + 2);
  }

  lemma MergeListed(bs: Blocks, i: nat, a: int)
    requires i + 1 < |bs| && Listed(bs, a) && a != bs[i + 1].addr
    ensures Listed(Merge(bs, i), a)
  {
    var bs' := Merge(bs, i);
    var k: nat :| k < |bs| && bs[k].addr == a;
    assert bs'[if k <= i then k else k - 1].addr == a;
  }

  lemma MergeLinked(headers: Headers, bs: Blocks, i: nat)
    requires Linked(headers, bs) && Distinct(bs) && i + 1 < |bs|
    ensures Linked(MergeHeaders(headers, bs[i].addr, bs[i + 1].addr), Merge(bs, i))
  {
    var headers', bs' := MergeHeaders(headers, bs[i].addr, bs[i + 1].addr), Merge(bs, i);
    forall j: nat | j < |bs'|
      ensures bs'[j].addr in headers' && headers'[bs'[j].addr] == HeaderOf(bs', j)
    {
      MergeHeader(headers, bs, i, j);
    }
    forall a: int | a in headers'
      ensures Listed(bs', a)
    {
      assert Listed(bs, a);
      MergeListed(bs, i, a);
    }
  }

  lemma AppendLinked(headers: Headers, bs: Blocks, b: Block)
    requires Linked(headers, bs) && Distinct(bs) && 0 < |bs| && b.addr !in headers && 0 < b.addr
    ensures var last := bs[|bs| - 1].addr;
            Linked(headers[b.addr := Header(b.size, b.free, 0, last)][last := headers[last].(next := b.addr)], bs + [b])
  {
    var last := bs[|bs| - 1].addr;
    var headers', bs' := headers[b.addr := Header(b.size, b.free, 0, last)][last := headers[last].(next := b.addr)],
        bs + [b];
    forall j: nat | j < |bs'|
      ensures bs'[j].addr in headers' && headers'[bs'[j].addr] == HeaderOf(bs', j)
    {
      assert j < |bs| ==> headers[bs[j].addr] == HeaderOf(bs, j) && (SameAddr(bs, j, |bs| - 1) ==> j == |bs| - 1);
    }
    forall a: int | a in headers'
      ensures Listed(bs', a)
    {
      if a == b.addr {
        assert bs'[|bs|].addr == a;
      } else {
        assert Listed(bs, a);
        var k: nat :| k < |bs| && bs[k].addr == a;
        assert bs'[k].addr == a;
      }
    }
  }

  // ----- What an operation may write -----

  /** The payload of block b holds the same bytes in both memories. */
  ghost predicate SamePayload(b: Block, m: Bytes, m': Bytes) {
    SameOn(m, m', b.addr + HEADER, b.size)
  }

  /** What the world and the heap's clients see of an operation: no page outside `touched` has
      changed, and no byte of a payload that was live. */
  ghost predicate Isolated(bs: Blocks, touched: set<nat>, m: Bytes, m': Bytes) {
    && |m'| == |m|
    && (forall p: nat {:trigger SamePage(m, m', p)} :: p !in touched ==> SamePage(m, m', p))
    && (forall i: nat {:trigger SamePayload(bs[i], m, m')} :: i < |bs| && !bs[i].free ==> SamePayload(bs[i], m, m'))
  }

  lemma IsolatedReflexive(bs: Blocks, touched: set<nat>, m: Bytes)
    ensures Isolated(bs, touched, m, m)
  {
  }

  lemma IsolatedWider(bs: Blocks, touched: set<nat>, all: set<nat>, m: Bytes, m': Bytes)
    requires Isolated(bs, touched, m, m') && touched <= all
    ensures Isolated(bs, all, m, m')
  {
  }

  lemma IsolatedTransitive(bs: Blocks, touched: set<nat>, touched': set<nat>, all: set<nat>, m: Bytes, m': Bytes,
                           m'': Bytes)
    requires Isolated(bs, touched, m, m') && Isolated(bs, touched', m', m'') && touched <= all && touched' <= all
    ensures Isolated(bs, all, m, m'')
  {
    forall p: nat | p !in all
      ensures SamePage(m, m'', p)
    {
      assert SamePage(m, m', p) && SamePage(m', m'', p);
    }
    forall i: nat | i < |bs| && !bs[i].free
      ensures SamePayload(bs[i], m, m'')
    {
      assert SamePayload(bs[i], m, m') && SamePayload(bs[i], m', m'');
    }
  }

  lemma OutsidePages(bs: Blocks, pages: set<nat>, reserved: set<nat>, m: Bytes, m': Bytes, m'': Bytes)
    requires Isolated(bs, pages, m', m'') && forall p: nat :: p !in reserved ==> SamePage(m, m', p)
    ensures forall p: nat :: p !in reserved + pages ==> SamePage(m, m'', p)
  {
    SamePageTransitive(m, m', m'');
    forall p: nat | p !in reserved + pages
      ensures SamePage(m, m'', p)
    {
      assert SamePage(m, m', p) && SamePage(m', m'', p);
    }
  }

  /** Writing inside one block spares every live payload, if the block is free or only its header is
      written. */
  lemma BlockWriteIsolated(bs: Blocks, pages: set<nat>, m: Bytes, m': Bytes, j: nat, lo: nat, n: nat)
    requires Tiles(bs, pages) && j < |bs| && bs[j].addr <= lo && lo + n <= bs[j].End()
    requires bs[j].free || lo + n <= bs[j].addr + HEADER
    requires SameOutside(m, m', lo, n)
    ensures Isolated(bs, pages, m, m')
  {
    forall p: nat, x: nat | p !in pages && p * PAGE_SIZE <= x < (p + 1) * PAGE_SIZE && x < |m|
      ensures m'[x] == m[x]
    {
      assert x / PAGE_SIZE == p && !InBlocks(bs, x);
      assert bs[j].Contains(x) ==> InBlocks(bs, x);
    }
    forall i: nat | i < |bs| && !bs[i].free
      ensures SamePayload(bs[i], m, m')
    {
      assert i != j ==> Apart(bs[i], bs[j]);
    }
  }

  /** What the heap writes leaves the page allocator's account as it was. */
  lemma IsolatedTracks(bs: Blocks, pages: set<nat>, m: Bytes, m': Bytes, bitmap: nat, size: nat, reserved: set<nat>,
                       held: set<nat>)
    requires Isolated(bs, pages, m, m') && Tracks(m, bitmap, size, reserved, held) && pages <= held
    ensures Tracks(m', bitmap, size, reserved, held)
  {
    forall x: nat | bitmap <= x < bitmap + size
      ensures m'[x] == m[x]
    {
      InBitmapPage(bitmap, size, x);
      assert SamePage(m, m', x / PAGE_SIZE);
    }
    MarkedDetermines(m, m', bitmap, size);
  }

  /** A header may be written at address a: it is a header of the list already, or lies in free space. */
  ghost predicate Writable(bs: Blocks, a: nat) {
    exists j: nat :: j < |bs| && HeaderFits(bs[j], a)
  }

  ghost predicate HeaderFits(b: Block, a: nat) {
    a == b.addr || (b.free && b.addr <= a && a + HEADER <= b.End())
  }

  /** Byte x belongs to a header at one of the addresses. */
  ghost predicate InHeaders(addrs: set<nat>, x: nat) {
    exists a: nat :: a in addrs && a <= x < a + HEADER
  }

  /** The memories differ at most in the headers at the given addresses. */
  ghost predicate SameButHeaders(m: Bytes, m': Bytes, addrs: set<nat>) {
    |m'| == |m| && forall x: nat :: x < |m| && !InHeaders(addrs, x) ==> m'[x] == m[x]
  }

  lemma SameButTransitive(m: Bytes, m': Bytes, m'': Bytes, addrs: set<nat>, addrs': set<nat>)
    requires SameButHeaders(m, m', addrs) && SameButHeaders(m', m'', addrs')
    ensures SameButHeaders(m, m'', addrs + addrs')
  {
  }

  lemma OutsideIsSameBut(m: Bytes, m': Bytes, a: nat)
    requires SameOutside(m, m', a, HEADER)
    ensures SameButHeaders(m, m', {a})
  {
  }

  /** A byte of a header that may be written is a byte of the heap, and of no live payload. */
  lemma WritableByte(bs: Blocks, pages: set<nat>, a: nat, x: nat)
    requires Tiles(bs, pages) && Writable(bs, a) && a <= x < a + HEADER
    ensures x / PAGE_SIZE in pages
    ensures forall i: nat :: i < |bs| && !bs[i].free ==> !(bs[i].addr + HEADER <= x < bs[i].End())
  {
    var j: nat :| j < |bs| && HeaderFits(bs[j], a);
    assert bs[j].Contains(x) && InBlocks(bs, x);
    forall i: nat | i < |bs| && !bs[i].free
      ensures !(bs[i].addr + HEADER <= x < bs[i].End())
    {
      assert i != j ==> Apart(bs[i], bs[j]);
    }
  }

  /** Writing headers only where they may be written spares every live payload. */
  lemma HeadersIsolated(bs: Blocks, pages: set<nat>, m: Bytes, m': Bytes, addrs: set<nat>)
    requires Tiles(bs, pages) && SameButHeaders(m, m', addrs) && forall a: nat :: a in addrs ==> Writable(bs, a)
    ensures Isolated(bs, pages, m, m')
  {
    forall x: nat | x < |m| && m'[x] != m[x]
      ensures x / PAGE_SIZE in pages
      ensures forall i: nat :: i < |bs| && !bs[i].free ==> !(bs[i].addr + HEADER <= x < bs[i].End())
    {
      var a: nat :| a in addrs && a <= x < a + HEADER;
      WritableByte(bs, pages, a, x);
    }
    forall p: nat, x: nat | p !in pages && p * PAGE_SIZE <= x < (p + 1) * PAGE_SIZE && x < |m|
      ensures m'[x] == m[x]
    {
      assert x / PAGE_SIZE == p;
    }
    forall i: nat | i < |bs| && !bs[i].free
      ensures SamePayload(bs[i], m, m')
    {
    }
  }

  /** The two list ends are where the list says, and every block lies below `limit`. */
  ghost predicate Ends(bs: Blocks, start: nat, end: nat, limit: nat) {
    && 0 < |bs| && start == bs[0].addr && end == bs[|bs| - 1].addr
    && limit <= MAX_MEMORY && (forall i: nat :: i < |bs| ==> bs[i].End() <= limit)
  }

  /** Bytes are conserved: every byte of the heap's pages is in a block, header included, and all but one
      header for each region were usable once. */
  ghost predicate Account(bs: Blocks, pages: set<nat>, size: nat, usable: nat, regions: nat) {
    size == TotalBytes(bs) && size == PAGE_SIZE * |pages| && usable + HEADER * regions == size
  }

  /** The heap's list: its links, its extents, and its two ends. */
  ghost predicate Chain(headers: Headers, bs: Blocks, pages: set<nat>, start: nat, end: nat, limit: nat) {
    Linked(headers, bs) && Tiles(bs, pages) && Ends(bs, start, end, limit)
  }

  lemma ChainTiles(headers: Headers, bs: Blocks, pages: set<nat>, start: nat, end: nat, limit: nat)
    requires Chain(headers, bs, pages, start, end, limit)
    ensures Tiles(bs, pages) && 0 < |bs| && start == bs[0].addr
  {
  }

  /** Block i of a heap, as the code finds it through a pointer. */
  lemma BlockInChain(headers: Headers, bs: Blocks, pages: set<nat>, start: nat, end: nat, limit: nat, i: nat)
    requires Chain(headers, bs, pages, start, end, limit) && i < |bs|
    ensures bs[i].addr in headers && headers[bs[i].addr] == HeaderOf(bs, i) && HeaderOf(bs, i).Fits()
    ensures Clear(headers, bs[i].addr) && Writable(bs, bs[i].addr) && PAGE_SIZE <= bs[i].addr
    ensures bs[i].addr + HEADER + bs[i].size <= limit <= MAX_MEMORY && (bs[i].addr == end) == (i == |bs| - 1)
  {
    LinkedClear(headers, bs, pages, i);
    assert HeaderFits(bs[i], bs[i].addr);
    TilesDistinct(bs, pages);
    assert SameAddr(bs, i, |bs| - 1) ==> i == |bs| - 1;
  }

  /** A free block has room for a new header, clear of all others. */
  lemma RoomToSplit(headers: Headers, bs: Blocks, pages: set<nat>, i: nat, b: nat)
    requires Linked(headers, bs) && Tiles(bs, pages) && i < |bs| && bs[i].free
    requires bs[i].addr + HEADER <= b && b + HEADER <= bs[i].End()
    ensures b !in headers && Clear(headers, b) && Writable(bs, b)
    ensures i + 1 < |bs| ==> b + HEADER <= bs[i + 1].addr || bs[i + 1].addr + HEADER <= b
  {
    LinkedClear(headers, bs, pages, i);
    assert HeaderFits(bs[i], b);
  }

  lemma SplitEnds(bs: Blocks, start: nat, end: nat, limit: nat, i: nat, n: nat, b: nat)
    requires Ends(bs, start, end, limit) && i < |bs| && n + HEADER <= bs[i].size && b == bs[i].addr + HEADER + n
    ensures Ends(Split(bs, i, n), start, if i == |bs| - 1 then b else end, limit)
  {
  }

  lemma SplitChain(headers: Headers, bs: Blocks, pages: set<nat>, start: nat, end: nat, limit: nat, i: nat, n: nat,
                   b: nat)
    requires Chain(headers, bs, pages, start, end, limit) && i < |bs| && bs[i].addr in headers
    requires n + HEADER <= bs[i].size && b == bs[i].addr + HEADER + n && b !in headers
    ensures Chain(SplitHeaders(headers, bs[i].addr, b, n), Split(bs, i, n), pages,
                  start, if i == |bs| - 1 then b else end, limit)
    ensures TotalBytes(Split(bs, i, n)) == TotalBytes(bs)
  {
    TilesDistinct(bs, pages);
    SplitLinked(headers, bs, i, n, b);
    SplitCuts(bs, i, n);
    CutKeepsTiles(bs, Split(bs, i, n), i, pages);
    SplitKeepsTotal(bs, i, n);
    SplitEnds(bs, start, end, limit, i, n, b);
  }

  lemma MergeEnds(bs: Blocks, start: nat, end: nat, limit: nat, i: nat)
    requires Ends(bs, start, end, limit) && Mergeable(bs, i)
    ensures Ends(Merge(bs, i), start, if i + 1 == |bs| - 1 then bs[i].addr else end, limit)
  {
  }

  lemma MergeChain(headers: Headers, bs: Blocks, pages: set<nat>, start: nat, end: nat, limit: nat, i: nat)
    requires Chain(headers, bs, pages, start, end, limit) && Mergeable(bs, i)
    requires bs[i].addr in headers && bs[i + 1].addr in headers
    ensures Chain(MergeHeaders(headers, bs[i].addr, bs[i + 1].addr), Merge(bs, i), pages,
                  start, if i + 1 == |bs| - 1 then bs[i].addr else end, limit)
    ensures TotalBytes(Merge(bs, i)) == TotalBytes(bs)
  {
    TilesDistinct(bs, pages);
    MergeLinked(headers, bs, i);
    MergeUncuts(bs, i);
    UncutKeepsTiles(Merge(bs, i), bs, i, pages);
    MergeKeepsTotal(bs, i);
    MergeEnds(bs, start, end, limit, i);
  }

  lemma RetagEnds(bs: Blocks, start: nat, end: nat, limit: nat, i: nat, free: bool)
    requires Ends(bs, start, end, limit) && i < |bs|
    ensures Ends(Retag(bs, i, free), start, end, limit)
  {
  }

  lemma RetagChain(headers: Headers, bs: Blocks, pages: set<nat>, start: nat, end: nat, limit: nat, i: nat, free: bool)
    requires Chain(headers, bs, pages, start, end, limit) && i < |bs| && bs[i].addr in headers
    ensures Chain(RetagHeader(headers, bs[i].addr, free), Retag(bs, i, free), pages, start, end, limit)
    ensures TotalBytes(Retag(bs, i, free)) == TotalBytes(bs)
  {
    TilesDistinct(bs, pages);
    RetagLinked(headers, bs, i, free);
    RetagKeepsTiles(bs, pages, i, free);
    RetagKeepsTotal(bs, i, free);
    RetagEnds(bs, start, end, limit, i, free);
  }

  /** The headers a split or a merge writes. */
  ghost function LinkSet(a: nat, b: nat, next: nat): set<nat> {
    if next != 0 then {a, b, next} else {a, b}
  }

  /** What a split relies on: room for the new header, and the old successor out of its way. */
  ghost predicate SplitReady(headers: Headers, a: nat, b: nat, n: nat) {
    && a in headers && Clear(headers, a) && Clear(headers, b) && a + HEADER <= b <= MAX_MEMORY
    && headers[a].Fits() && n + HEADER <= headers[a].size && a <= MAX_MEMORY
    && var next := headers[a].next;
       next != 0 ==> next in headers && headers[next].Fits() && Clear(headers, next) && next != a
                     && (next + HEADER <= b || b + HEADER <= next)
  }

  lemma SplitIsReady(headers: Headers, bs: Blocks, pages: set<nat>, start: nat, end: nat, limit: nat, i: nat, n: nat,
                     b: nat)
    requires Chain(headers, bs, pages, start, end, limit) && i < |bs| && bs[i].free
    requires n + HEADER < bs[i].size && b == bs[i].addr + HEADER + n
    ensures b !in headers && b + HEADER <= limit && SplitReady(headers, bs[i].addr, b, n)
    ensures headers[bs[i].addr] == HeaderOf(bs, i) && (bs[i].addr == end) == (i == |bs| - 1)
    ensures forall a: nat :: a in LinkSet(bs[i].addr, b, Addr(bs, i + 1)) ==> Writable(bs, a)
  {
    BlockInChain(headers, bs, pages, start, end, limit, i);
    RoomToSplit(headers, bs, pages, i, b);
    if i + 1 < |bs| {
      BlockInChain(headers, bs, pages, start, end, limit, i + 1);
      TilesDistinct(bs, pages);
      assert !SameAddr(bs, i + 1, i);
    }
  }

  /** What a merge of the header at b into the one at a relies on. */
  ghost predicate MergeReady(headers: Headers, a: nat, b: nat) {
    && a in headers && b in headers && a != b && Clear(headers, a) && headers[a].Fits() && a <= MAX_MEMORY
    && headers[b].Fits() && headers[a].size + (headers[b].size + HEADER) <= MAX_MEMORY
    && var next := headers[b].next;
       next != 0 ==> next in headers && headers[next].Fits() && Clear(headers, next) && next != a && next != b
  }

  lemma MergeIsReady(headers: Headers, bs: Blocks, pages: set<nat>, start: nat, end: nat, limit: nat, i: nat)
    requires Chain(headers, bs, pages, start, end, limit) && Mergeable(bs, i)
    ensures MergeReady(headers, bs[i].addr, bs[i + 1].addr) && headers[bs[i + 1].addr] == HeaderOf(bs, i + 1)
    ensures bs[i].addr + HEADER <= limit && (bs[i + 1].addr == end) == (i + 1 == |bs| - 1)
    ensures forall a: nat :: a in LinkSet(bs[i].addr, bs[i].addr, Addr(bs, i + 2)) ==> a in headers
  {
    hide Linked, Tiles, Ends, Writable, Clear;
    BlockInChain(headers, bs, pages, start, end, limit, i);
    BlockInChain(headers, bs, pages, start, end, limit, i + 1);
    TilesDistinct(bs, pages);
    assert !SameAddr(bs, i + 1, i);
    if i + 2 < |bs| {
      assert !SameAddr(bs, i + 2, i) && !SameAddr(bs, i + 2, i + 1);
      BlockInChain(headers, bs, pages, start, end, limit, i + 2);
    }
  }

  lemma FirstTiles(page: nat, k: nat)
    requires 0 < page && 0 < k
    ensures Tiles([Block(page * PAGE_SIZE, k * PAGE_SIZE - HEADER, true)], Pages(page, k))
  {
    var b := Block(page * PAGE_SIZE, k * PAGE_SIZE - HEADER, true);
    assert Tiles([], {});
    AppendKeepsTiles([], {}, page, k);
    assert [] + [b] == [b] && {} + Pages(page, k) == Pages(page, k);
  }

  /** A heap of one free block. */
  lemma FirstChain(page: nat, k: nat, limit: nat)
    requires 0 < page && 0 < k && (page + k) * PAGE_SIZE <= limit <= MAX_MEMORY
    ensures var b := Block(page * PAGE_SIZE, k * PAGE_SIZE - HEADER, true);
            && Chain(map[b.addr := Header(b.size, true, 0, 0)], [b], Pages(page, k), b.addr, b.addr, limit)
            && Coalesced([b]) && TotalBytes([b]) == k * PAGE_SIZE == PAGE_SIZE * |Pages(page, k)|
            && Writable([b], b.addr)
  {
    hide Pages, Tiles, TotalBytes;
    var b := Block(page * PAGE_SIZE, k * PAGE_SIZE - HEADER, true);
    FirstTiles(page, k);
    PagesCount(page, k);
    TotalOfOne(b);
    assert [b][0] == b && HeaderFits(b, b.addr) && Listed([b], b.addr);
  }

  // ----- Giving back -----

  /** A write inside a payload leaves every header as it was. */
  lemma PayloadWriteKeepsHeaders(m: Bytes, m': Bytes, headers: Headers, bs: Blocks, pages: set<nat>, i: nat, n: nat)
    requires HeadersStored(m, headers) && Linked(headers, bs) && Tiles(bs, pages)
    requires i < |bs| && n <= bs[i].size && SameOutside(m, m', bs[i].addr + HEADER, n)
    ensures HeadersStored(m', headers)
  {
    forall a: int | a in headers && 0 <= a
      ensures SameOn(m, m', a, HEADER)
    {
      assert Listed(bs, a);
      var j: nat :| j < |bs| && bs[j].addr == a;
      assert j != i ==> Apart(bs[j], bs[i]);
    }
    HeadersFrame(m, m', headers);
  }

  ghost function Addrs(bs: Blocks): set<nat> {
    set i: nat | i < |bs| :: bs[i].addr
  }

  lemma AddrsWritable(bs: Blocks)
    ensures forall a: nat :: a in Addrs(bs) ==> Writable(bs, a)
  {
  }

  lemma MergeAddrs(bs: Blocks, i: nat)
    ensures Addrs(MergeIf(bs, i)) <= Addrs(bs)
  {
  }

  lemma RetagAddrs(bs: Blocks, i: nat, free: bool)
    requires i < |bs|
    ensures Addrs(Retag(bs, i, free)) == Addrs(bs) && bs[i].addr in Addrs(bs)
  {
    var bs' := Retag(bs, i, free);
    assert forall j: nat :: j < |bs| ==> bs'[j].addr == bs[j].addr;
  }

  lemma FreeTwice(bs: Blocks, i: nat)
    requires i < |bs|
    ensures FreeAt(Retag(bs, i, true), i) == FreeAt(bs, i)
  {
    assert Retag(Retag(bs, i, true), i, true) == Retag(bs, i, true);
  }

  lemma LinkSetAddrs(bs: Blocks, i: nat, j: nat)
    requires i < |bs| && Distinct(bs)
    ensures LinkSet(bs[i].addr, bs[i].addr, Addr(bs, j)) <= Addrs(bs)
  {
  }

  lemma SameButMore(m: Bytes, m': Bytes, addrs: set<nat>, more: set<nat>)
    requires SameButHeaders(m, m', addrs) && addrs <= more
    ensures SameButHeaders(m, m', more)
  {
  }

  /** Freeing block i: its header's free flag, the poison in its payload, and the headers written by
      the merges. The poison survives the merges, and no other live payload is touched. */
  lemma FreeIsolated(bs: Blocks, pages: set<nat>, i: nat, m: Bytes, m1: Bytes, m2: Bytes, m3: Bytes)
    requires Tiles(bs, pages) && i < |bs|
    requires SameButHeaders(m, m1, Addrs(bs)) && SameOutside(m1, m2, bs[i].addr + HEADER, bs[i].size)
    requires SameButHeaders(m2, m3, Addrs(bs))
    ensures Isolated(Retag(bs, i, true), pages, m, m3)
    ensures !bs[i].free ==> SamePayload(bs[i], m2, m3)
  {
    var bs' := Retag(bs, i, true);
    AddrsWritable(bs);
    HeadersIsolated(bs, pages, m, m1, Addrs(bs));
    HeadersIsolated(bs, pages, m2, m3, Addrs(bs));
    RetagKeepsTiles(bs, pages, i, true);
    BlockWriteIsolated(bs', pages, m1, m2, i, bs[i].addr + HEADER, bs[i].size);
    forall j: nat | j < |bs'| && !bs'[j].free
      ensures bs'[j] in bs
    {
      assert bs'[j] == bs[j];
    }
    IsolatedAmong(bs', bs, pages, m, m1);
    IsolatedAmong(bs', bs, pages, m2, m3);
    IsolatedTransitive(bs', pages, pages, pages, m, m1, m2);
    IsolatedTransitive(bs', pages, pages, pages, m, m2, m3);
    assert !bs[i].free ==> SamePayload(bs[i], m2, m3);
  }

  // ----- Growth -----

  /** The block that growth for n bytes makes of the pages from `page` on. */
  ghost function Region(page: nat, n: nat): (b: Block)
    ensures FitsIn(b, n)
  {
    Block(page * PAGE_SIZE, RegionBytes(n) - HEADER, true)
  }

  ghost function RegionPages(page: nat, n: nat): set<nat> {
    Pages(page, RegionPageCount(n))
  }

  /** What kmalloc does: the pages it takes, the list it leaves, and the pointer it returns. */
  datatype Outcome = Outcome(added: set<nat>, blocks: Blocks, r: Option<nat>)

  /** kmalloc for n bytes, already rounded, on the list bs when the page allocator would place a
      region at `run`: the first fitting block is given out, or else the region is appended and given
      out. No region to be had is the panic. */
  ghost function Kmalloced(bs: Blocks, n: nat, run: Option<nat>): Outcome {
    FirstFitIsFirst(bs, n, 0);
    match FirstFit(bs, n, 0)
    case Some(i) => Outcome({}, AllocAt(bs, i, n), Some(bs[i].addr + HEADER))
    case None =>
      match run
      case None => Outcome({}, bs, None)
      case Some(page) =>
        assert (bs + [Region(page, n)])[|bs|] == Region(page, n);
        Outcome(RegionPages(page, n), AllocAt(bs + [Region(page, n)], |bs|, n), Some(page * PAGE_SIZE + HEADER))
  }

  /** The index of the block kmalloc gives out. */
  ghost function Given(bs: Blocks, n: nat): (i: nat)
    ensures i < |bs| <==> FirstFit(bs, n, 0).Some?
  {
    FirstFitIsFirst(bs, n, 0);
    match FirstFit(bs, n, 0) case Some(i) => i case None => |bs|
  }

  lemma AllocAtGives(bs: Blocks, i: nat, n: nat)
    requires i < |bs| && FitsIn(bs[i], n)
    ensures var bs' := AllocAt(bs, i, n);
            && i < |bs'| && bs'[i].addr == bs[i].addr && !bs'[i].free && n <= bs'[i].size <= n + HEADER
            && LiveAmong(bs, Retag(bs', i, true))
  {
    var bs' := Retag(AllocAt(bs, i, n), i, true);
    forall j: nat | j < |bs| && !bs[j].free
      ensures bs[j] in bs'
    {
      assert bs[j] == bs'[if j < i || bs[i].size <= n + HEADER then j else j + 1];
    }
  }

  /** The pointer kmalloc returns is the payload of a block that is now live, holds at least the
      rounded request and at most 32 bytes more, and was no part of a live block before. */
  lemma KmallocGives(bs: Blocks, n: nat, run: Option<nat>)
    requires Kmalloced(bs, n, run).r.Some?
    ensures var out, i := Kmalloced(bs, n, run), Given(bs, n);
            && i < |out.blocks| && out.r == Some(out.blocks[i].addr + HEADER) && !out.blocks[i].free
            && n <= out.blocks[i].size <= n + HEADER
            && LiveAmong(bs, Retag(out.blocks, i, true))
  {
    FirstFitIsFirst(bs, n, 0);
    if FirstFit(bs, n, 0).Some? {
      AllocAtGives(bs, FirstFit(bs, n, 0).value, n);
    } else {
      var b := Region(run.value, n);
      AllocAtGives(bs + [b], |bs|, n);
      var bs' := Retag(Kmalloced(bs, n, run).blocks, |bs|, true);
      forall j: nat | j < |bs| && !bs[j].free
        ensures bs[j] in bs'
      {
        assert (bs + [b])[j] == bs[j];
      }
    }
  }

  /** A request is granted its size and at most 47 bytes more. */
  lemma KmallocGrants(bs: Blocks, size: nat, run: Option<nat>)
    requires Kmalloced(bs, RoundRequest(size), run).r.Some?
    ensures var out, i := Kmalloced(bs, RoundRequest(size), run), Given(bs, RoundRequest(size));
            && i < |out.blocks| && out.r == Some(out.blocks[i].addr + HEADER) && !out.blocks[i].free
            && size <= out.blocks[i].size <= size + 47 && LiveAmong(bs, Retag(out.blocks, i, true))
  {
    KmallocGives(bs, RoundRequest(size), run);
    RoundingIsIdempotent(size);
  }

  /** kfree undoes kmalloc. Without growth the list is restored exactly; with growth the list also has
      the new region, merged into the old last block when that is free and touches it. */
  lemma KfreeUndoesKmalloc(bs: Blocks, n: nat, run: Option<nat>)
    requires Coalesced(bs) && 0 < |bs| && Kmalloced(bs, n, run).r.Some?
    ensures Given(bs, n) < |Kmalloced(bs, n, run).blocks|
    ensures FirstFit(bs, n, 0).Some? ==> FreeAt(Kmalloced(bs, n, run).blocks, Given(bs, n)) == bs
    ensures FirstFit(bs, n, 0).None? ==>
              var last, b := bs[|bs| - 1], Region(run.value, n);
              FreeAt(Kmalloced(bs, n, run).blocks, Given(bs, n)) ==
              if last.free && last.End() == b.addr then bs[..|bs| - 1] + [last.(size := last.size + RegionBytes(n))]
              else bs + [b]
  {
    KmallocGives(bs, n, run);
    FirstFitIsFirst(bs, n, 0);
    if FirstFit(bs, n, 0).Some? {
      AllocThenFreeRestores(bs, FirstFit(bs, n, 0).value, n);
    } else {
      GrowThenFree(bs, Region(run.value, n), n);
    }
  }

  /** A list with a fitting block needs no region, and one without it and without a region is left
      alone. */
  lemma KmallocedCases(bs: Blocks, n: nat, run: Option<nat>)
    ensures FirstFit(bs, n, 0).Some? ==>
        Kmalloced(bs, n, run) == Kmalloced(bs, n, None) && Kmalloced(bs, n, run).added == {}
    ensures FirstFit(bs, n, 0).None? ==> Kmalloced(bs, n, None) == Outcome({}, bs, None)
  {
  }

  /** kmalloc panics exactly when no free block has n bytes and the bitmap has no free run of the pages
      a region would take; then it has changed nothing. */
  lemma KmallocPanics(bs: Blocks, n: nat, marked: set<nat>, tracked: nat)
    ensures var out := Kmalloced(bs, n, FirstRun(marked, tracked, RegionPageCount(n), 0));
            && (out.r.None? <==>
                  (forall i: nat :: i < |bs| ==> !FitsIn(bs[i], n)) && NoFreeRun(marked, tracked, RegionPageCount(n)))
            && (out.r.None? ==> out == Outcome({}, bs, None))
  {
    FirstFitIsFirst(bs, n, 0);
    FirstRunIsLowest(marked, tracked, RegionPageCount(n), 0);
  }

  // ----- The same in plain numbers -----

  /** kmalloc(size) when block i is the first free one of the rounded size or more: no page is taken, the
      pointer is the byte after the block's 32-byte header, and the block is given out. */
  lemma KmallocInPlace(bs: Blocks, size: nat, s: nat, i: nat, run: Option<nat>)
    requires RoundedTo(size, s) && FirstOf(bs, s, i)
    ensures var out := Kmalloced(bs, RoundRequest(size), run);
            out.added == {} && out.r == Some(bs[i].addr + 32) && GivenOut(bs, i, s, out.blocks)
  {
    hide RoundRequest, RoundedTo, GivenOut, AllocAt, FirstOf;
    RoundingIsExact(size, s);
    FirstFitIsFirstOf(bs, s, i);
    FirstFitIsFirst(bs, s, 0);
    AllocGivesOut(bs, i, s);
  }

  /** kmalloc(size) when there is none: the region is the fewest pages with room for the rounded size and a
      32-byte header, its one block is appended, and that is given out. */
  lemma KmallocByGrowth(bs: Blocks, size: nat, s: nat, k: nat, run: Option<nat>)
    requires RoundedTo(size, s) && forall j: nat :: j < |bs| ==> !(bs[j].free && s <= bs[j].size)
    requires 0x1000 * (k - 1) < s + 32 <= 0x1000 * k
    ensures RegionPageCount(RoundRequest(size)) == k
    ensures var out := Kmalloced(bs, RoundRequest(size), run);
            if run.None? then out == Outcome({}, bs, None)
            else
              var b := Block(0x1000 * run.value, 0x1000 * k - 32, true);
              && out.r == Some(0x1000 * run.value + 32) && GivenOut(bs + [b], |bs|, s, out.blocks)
              && forall p: nat :: p in out.added <==> run.value <= p < run.value + k
  {
    hide RoundRequest, RoundedTo, GivenOut, AllocAt;
    RoundingIsExact(size, s);
    FirstFitIsFirst(bs, s, 0);
    RegionIs(s, k);
    if run.Some? {
      var b := Region(run.value, s);
      assert b == Block(0x1000 * run.value, 0x1000 * k - 32, true) && (bs + [b])[|bs|] == b;
      AllocGivesOut(bs + [b], |bs|, s);
    }
  }

  lemma RegionIs(s: nat, k: nat)
    requires 0x1000 * (k - 1) < s + 32 <= 0x1000 * k
    ensures RegionPageCount(s) == k && RegionBytes(s) == 0x1000 * k
  {
  }

  /** The header of block i as bytes: its size in the first eight, the free flag in the ninth, and from
      the seventeenth and the twenty-fifth on the addresses of its neighbours in the list, or 0. */
  lemma HeaderInBytes(m: Bytes, headers: Headers, bs: Blocks, i: nat)
    requires HeadersStored(m, headers) && Linked(headers, bs) && i < |bs|
    ensures var a := bs[i].addr;
            && a + 32 <= |m| && Word(m, a) == bs[i].size && (m[a + 8] != 0) == bs[i].free
            && Word(m, a + 16) == (if i + 1 < |bs| then bs[i + 1].addr else 0)
            && Word(m, a + 24) == (if 0 < i then bs[i - 1].addr else 0)
  {
    hide Load, Word;
    var a := bs[i].addr;
    assert headers[a] == HeaderOf(bs, i) && HeaderAt(m, a) == headers[a];
    LoadIsWord(m, a);
    LoadIsWord(m, a + 16);
    LoadIsWord(m, a + 24);
  }

  // ----- Alignment -----

  lemma RegionAligned(page: nat, n: nat)
    ensures Aligned(Region(page, n))
  {
    hide RegionBytes, RegionPageCount;
    PagesAligned(page, RegionPageCount(n));
  }

  lemma PagesAligned(page: nat, k: nat)
    requires 0 < k
    ensures page * PAGE_SIZE % 16 == 0 && (k * PAGE_SIZE - HEADER) % 16 == 0
  {
    Sixteenfold(256 * page, page * PAGE_SIZE);
    Sixteenfold(256 * k - 2, k * PAGE_SIZE - HEADER);
  }

  lemma Sixteenfold(q: int, x: int)
    requires x == 16 * q
    ensures x % 16 == 0
  {
  }

  /** kmalloc leaves an aligned heap aligned exactly when the request is aligned once rounded, or a
      block is given out whole. */
  lemma KmallocKeepsAligned(bs: Blocks, n: nat, run: Option<nat>)
    requires AllAligned(bs) && Kmalloced(bs, n, run).r.Some?
    ensures var size := if FirstFit(bs, n, 0).Some? then bs[Given(bs, n)].size else Region(run.value, n).size;
            AllAligned(Kmalloced(bs, n, run).blocks) <==> n % 16 == 0 || size <= n + HEADER
  {
    hide AllocAt, Region, Aligned;
    FirstFitIsFirst(bs, n, 0);
    if FirstFit(bs, n, 0).Some? {
      AllocKeepsAligned(bs, FirstFit(bs, n, 0).value, n);
    } else {
      var b := Region(run.value, n);
      RegionAligned(run.value, n);
      assert (bs + [b])[|bs|] == b;
      forall j: nat | j < |bs + [b]|
        ensures Aligned((bs + [b])[j])
      {
        assert j < |bs| ==> Aligned(bs[j]);
      }
      AllocKeepsAligned(bs + [b], |bs|, n);
    }
  }

  /** Requests for 10 and then 16 bytes of a single free block at address a with plenty of room. */
  lemma TwoRequests(a: nat, size: nat, run: Option<nat>)
    requires 1000 <= size
    ensures var out := Kmalloced([Block(a, size, true)], 10, run);
            Kmalloced(out.blocks, 16, run).r == Some(a + 74)
  {
    var b := Block(a, size, true);
    var bs := AllocAt([b], 0, 10);
    assert FirstFit([b], 10, 0) == Some(0);
    assert bs == [Block(a, 10, false), Block(a + 42, size - 42, true)];
    assert FirstFit(bs, 16, 1) == Some(1) && FirstFit(bs, 16, 0) == FirstFit(bs, 16, 1);
  }

  /** kmalloc(10) and then kmalloc(1), on the heap that kheap_init leaves, return a pointer that is not
      aligned to 16, though the second request is rounded to 16 bytes. */
  lemma SomePointersAreUnaligned(page: nat, run: Option<nat>)
    ensures var bs := [Block(page * PAGE_SIZE, 16 * PAGE_SIZE - HEADER, true)];
            var out := Kmalloced(bs, RoundRequest(10), run);
            Kmalloced(out.blocks, RoundRequest(1), run).r == Some(page * PAGE_SIZE + 74)
            && (page * PAGE_SIZE + 74) % 16 == 10
  {
    hide Kmalloced;
    TwoRequests(page * PAGE_SIZE, 16 * PAGE_SIZE - HEADER, run);
    BehindPageStart(page);
  }

  lemma BehindPageStart(page: nat)
    ensures (page * PAGE_SIZE + 74) % 16 == 10
  {
    assert page * PAGE_SIZE + 74 == 16 * (256 * page + 4) + 10;
  }

  /** After growth the retry does not grow again, wherever the allocator would place the next region. */
  lemma RetryTakesRegion(bs: Blocks, n: nat, page: nat, run: Option<nat>)
    requires FirstFit(bs, n, 0) == None
    ensures Kmalloced(bs, n, Some(page)) == Kmalloced(bs + [Region(page, n)], n, run).(added := RegionPages(page, n))
    ensures Kmalloced(bs + [Region(page, n)], n, run).added == {} && FirstFit(bs + [Region(page, n)], n, 0).Some?
  {
    FirstFitAfterGrowth(bs, Region(page, n), n, 0);
  }

  /** kmalloc keeps the heap fully coalesced: growth may put a free block next to a free one, but the
      retry gives out exactly that block. */
  lemma KmallocKeepsCoalesced(bs: Blocks, n: nat, run: Option<nat>)
    ensures Coalesced(bs) ==> Coalesced(Kmalloced(bs, n, run).blocks)
  {
    FirstFitIsFirst(bs, n, 0);
    if Coalesced(bs) && FirstFit(bs, n, 0).Some? {
      AllocKeepsCoalesced(bs, FirstFit(bs, n, 0).value, n);
    } else if Coalesced(bs) && run.Some? {
      GrowthKeepsCoalesced(bs, Region(run.value, n), n);
    }
  }

  /** Headers lie in the heap's pages, so a memory that agrees on those pages holds the same ones. */
  lemma PagesKeepHeaders(m: Bytes, m': Bytes, headers: Headers, bs: Blocks, pages: set<nat>)
    requires HeadersStored(m, headers) && Linked(headers, bs) && Tiles(bs, pages) && |m'| == |m|
    requires forall p: nat :: p in pages ==> SamePage(m, m', p)
    ensures HeadersStored(m', headers)
  {
    forall a: int | a in headers && 0 <= a
      ensures SameOn(m, m', a, HEADER)
    {
      assert Listed(bs, a);
      var j: nat :| j < |bs| && bs[j].addr == a;
      forall x: nat | a <= x < a + HEADER
        ensures m'[x] == m[x]
      {
        assert bs[j].Contains(x) && InBlocks(bs, x);
        assert SamePage(m, m', x / PAGE_SIZE);
      }
    }
    HeadersFrame(m, m', headers);
  }

  /** Writes that spare the heap's pages spare its payloads. */
  lemma FreshWriteIsolated(bs: Blocks, pages: set<nat>, touched: set<nat>, m: Bytes, m': Bytes)
    requires Tiles(bs, pages) && pages !! touched && |m'| == |m|
    requires forall p: nat :: p !in touched ==> SamePage(m, m', p)
    ensures Isolated(bs, touched, m, m')
  {
    forall i: nat | i < |bs| && !bs[i].free
      ensures SamePayload(bs[i], m, m')
    {
      forall x: nat | bs[i].addr + HEADER <= x < bs[i].End() && x < |m|
        ensures m'[x] == m[x]
      {
        assert bs[i].Contains(x) && InBlocks(bs, x);
        assert SamePage(m, m', x / PAGE_SIZE);
      }
    }
  }

  /** Zeroing whole pages leaves every other page as it was. */
  lemma PagesWrite(m: Bytes, m': Bytes, page: nat, k: nat)
    requires SameOutside(m, m', page * PAGE_SIZE, k * PAGE_SIZE)
    ensures forall p: nat :: p !in Pages(page, k) ==> SamePage(m, m', p)
  {
  }

  /** A new header at a, linked in after the header at last. */
  ghost function GrowHeaders(headers: Headers, a: nat, size: nat, last: nat): Headers
    requires last in headers
  {
    headers[a := Header(size, true, 0, last)][last := headers[last].(next := a)]
  }

  /** Where a new region goes: clear of every header, and after a last header that can be written. */
  lemma GrowthIsReady(headers: Headers, bs: Blocks, pages: set<nat>, start: nat, end: nat, limit: nat, page: nat,
                      k: nat)
    requires Chain(headers, bs, pages, start, end, limit) && 0 < k && Pages(page, k) !! pages
    ensures page * PAGE_SIZE !in headers && Clear(headers, page * PAGE_SIZE)
    ensures end in headers && headers[end].Fits() && Clear(headers, end) && end + HEADER <= limit
  {
    BlockInChain(headers, bs, pages, start, end, limit, |bs| - 1);
    forall b: int | b in headers
      ensures b + HEADER <= page * PAGE_SIZE || page * PAGE_SIZE + HEADER <= b
    {
      assert Listed(bs, b);
      var j: nat :| j < |bs| && bs[j].addr == b;
      var x := if b <= page * PAGE_SIZE then page * PAGE_SIZE else b;
      assert bs[j].Contains(x) ==> InBlocks(bs, x);
      assert page * PAGE_SIZE <= x < page * PAGE_SIZE + HEADER ==> x / PAGE_SIZE == page;
    }
  }

  lemma GrowthChain(headers: Headers, bs: Blocks, pages: set<nat>, start: nat, end: nat, limit: nat, page: nat, k: nat)
    requires Chain(headers, bs, pages, start, end, limit) && 0 < k && 0 < page && Pages(page, k) !! pages
    requires page * PAGE_SIZE !in headers && end in headers && (page + k) * PAGE_SIZE <= limit
    ensures var b := Block(page * PAGE_SIZE, k * PAGE_SIZE - HEADER, true);
            Chain(GrowHeaders(headers, b.addr, b.size, end), bs + [b], pages + Pages(page, k), start, b.addr, limit)
            && TotalBytes(bs + [b]) == TotalBytes(bs) + k * PAGE_SIZE
            && Writable(bs + [b], b.addr) && Writable(bs + [b], end)
  {
    var b := Block(page * PAGE_SIZE, k * PAGE_SIZE - HEADER, true);
    TilesDistinct(bs, pages);
    AppendLinked(headers, bs, b);
    AppendKeepsTiles(bs, pages, page, k);
    TotalConcat(bs, [b]);
    assert (bs + [b])[|bs|] == b && HeaderFits(b, b.addr);
    assert (bs + [b])[|bs| - 1] == bs[|bs| - 1] && HeaderFits(bs[|bs| - 1], end);
  }

  /** Growing by k pages adds their bytes to the account. */
  lemma PagesAdd(pages: set<nat>, page: nat, k: nat)
    requires Pages(page, k) !! pages
    ensures PAGE_SIZE * |pages + Pages(page, k)| == PAGE_SIZE * |pages| + k * PAGE_SIZE
  {
  }

  /** Every live block of bs is also a block of bs', and live there. */
  ghost predicate LiveAmong(bs: Blocks, bs': Blocks) {
    forall i: nat :: i < |bs| && !bs[i].free ==> bs[i] in bs'
  }

  lemma IsolatedAmong(bs: Blocks, bs': Blocks, touched: set<nat>, m: Bytes, m': Bytes)
    requires Isolated(bs', touched, m, m') && LiveAmong(bs, bs')
    ensures Isolated(bs, touched, m, m')
  {
  }

  /** The live payloads of a heap are live payloads of the grown heap. */
  lemma GrownIsolated(bs: Blocks, b: Block, touched: set<nat>, m: Bytes, m': Bytes)
    requires Isolated(bs + [b], touched, m, m')
    ensures Isolated(bs, touched, m, m')
  {
    IsolatedAmong(bs, bs + [b], touched, m, m');
  }

  /** The retry after growth gives out the new block, which restores full coalescing even if the
      new block touched a free one. */
  lemma GrowthKeepsCoalesced(bs: Blocks, b: Block, n: nat)
    requires FitsIn(b, n) && Coalesced(bs)
    ensures Coalesced(AllocAt(bs + [b], |bs|, n))
  {
    forall j: nat | Mergeable(bs + [b], j)
      ensures j + 1 == |bs|
    {
      assert !Mergeable(bs, j);
    }
    AllocKeepsCoalesced(bs + [b], |bs|, n);
  }
}
