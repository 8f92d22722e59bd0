/** The kernel heap as a value: its list of blocks, in list order. List order is not address order. */
module HeapList {
  import opened Wrappers
  import opened Memory
  import opened PhysicalPages

  /** sizeof(struct kheap_block_header). */
  const HEADER: nat := 32

  datatype Block = Block(addr: nat, size: nat, free: bool) {
    /** The address after the block's last byte. */
    function End(): nat {
      addr + HEADER + size
    }

    ghost predicate Contains(x: nat) {
      addr <= x < End()
    }
  }

  type Blocks = seq<Block>

  // ----- Sizes -----

  /** The rounding at the head of kmalloc: only sizes that are not a multiple of ten are rounded. */
  function RoundRequest(size: nat): nat {
    if size % 10 != 0 then AlignUp(size, 0x10) else size
  }

  /** Rounding never shrinks a request, adds at most 15 bytes, and does nothing the second time, so
      the retry after growth asks for the same size. */
  lemma RoundingIsIdempotent(size: nat)
    ensures size <= RoundRequest(size) <= size + 15
    ensures RoundRequest(RoundRequest(size)) == RoundRequest(size)
  {
  }

  /** What a request of `size` bytes is rounded to, in plain numbers: a multiple of ten stays as it is, any
      other size becomes the next multiple of 16. */
  ghost predicate RoundedTo(size: nat, s: nat) {
    if size % 10 == 0 then s == size else s % 16 == 0 && size <= s < size + 16
  }

  lemma RoundingIsExact(size: nat, s: nat)
    ensures RoundedTo(size, s) <==> s == RoundRequest(size)
  {
  }

  /** The bytes kheap_extend takes from the page allocator for a request. */
  function RegionBytes(n: nat): (r: nat)
    ensures r % PAGE_SIZE == 0 && n + HEADER <= r < n + HEADER + PAGE_SIZE
  {
    AlignUp(n + HEADER, PAGE_SIZE)
  }

  /** The pages those bytes are: the source divides them by PAGE_SIZE. */
  function RegionPageCount(n: nat): (k: nat)
    ensures k * PAGE_SIZE == RegionBytes(n) && 0 < k
  {
    RegionBytes(n) / PAGE_SIZE
  }

  // ----- The operations on the list -----

  ghost predicate FitsIn(b: Block, n: nat) {
    b.free && n <= b.size
  }

  /** The first fitting block at index k or later. */
  ghost function FirstFit(bs: Blocks, n: nat, k: nat): Option<nat>
    decreases |bs| - k
  {
    if k >= |bs| then None
    else if FitsIn(bs[k], n) then Some(k)
    else FirstFit(bs, n, k + 1)
  }

  lemma {:induction false} FirstFitIsFirst(bs: Blocks, n: nat, k: nat)
    ensures match FirstFit(bs, n, k)
            case Some(i) => k <= i < |bs| && FitsIn(bs[i], n) && forall j: nat :: k <= j < i ==> !FitsIn(bs[j], n)
            case None => forall j: nat :: k <= j < |bs| ==> !FitsIn(bs[j], n)
    decreases |bs| - k
  {
    if k < |bs| && !FitsIn(bs[k], n) {
      FirstFitIsFirst(bs, n, k + 1);
    }
  }

  /** After growth the first fit is the new block, however the old list looks. */
  lemma {:induction false} FirstFitAfterGrowth(bs: Blocks, b: Block, n: nat, k: nat)
    requires k <= |bs| && FirstFit(bs, n, k) == None && FitsIn(b, n)
    ensures FirstFit(bs + [b], n, k) == Some(|bs|)
    decreases |bs| - k
  {
    if k < |bs| {
      FirstFitAfterGrowth(bs, b, n, k + 1);
    }
  }

  ghost function Retag(bs: Blocks, i: nat, free: bool): Blocks
    requires i < |bs|
  {
    bs[i := bs[i].(free := free)]
  }

  /** Block i cut down to n bytes, followed by a free block with the rest. */
  ghost function Split(bs: Blocks, i: nat, n: nat): Blocks
    requires i < |bs| && n + HEADER <= bs[i].size
  {
    var rest := Block(bs[i].addr + HEADER + n, bs[i].size - (n + HEADER), true);
    bs[..i] + [Block(bs[i].addr, n, bs[i].free), rest] + bs[i + 1..]
  }

  /** Block i given out for n bytes, whole if what would be left is no more than a header. */
  ghost function AllocAt(bs: Blocks, i: nat, n: nat): Blocks
    requires i < |bs| && n <= bs[i].size
  {
    if bs[i].size <= n + HEADER then Retag(bs, i, false) else Retag(Split(bs, i, n), i, false)
  }

  /** Blocks i and i+1 as one. */
  ghost function Merge(bs: Blocks, i: nat): Blocks
    requires i + 1 < |bs|
  {
    bs[..i] + [bs[i].(size := bs[i].size + (bs[i + 1].size + HEADER))] + bs[i + 2..]
  }

  /** Blocks i and i+1 touch in memory and are both free. */
  ghost predicate Mergeable(bs: Blocks, i: nat) {
    i + 1 < |bs| && bs[i].free && bs[i + 1].free && bs[i].End() == bs[i + 1].addr
  }

  ghost function MergeIf(bs: Blocks, i: nat): Blocks {
    if Mergeable(bs, i) then Merge(bs, i) else bs
  }

  /** Block i given back: merged with its list successor if they touch, then with its predecessor. */
  ghost function FreeAt(bs: Blocks, i: nat): Blocks
    requires i < |bs|
  {
    var merged := MergeIf(Retag(bs, i, true), i);
    if i == 0 then merged else MergeIf(merged, i - 1)
  }

  // ----- The same in plain numbers -----

  /** Block i is the first free one of s bytes or more. */
  ghost predicate FirstOf(bs: Blocks, s: nat, i: nat) {
    && i < |bs| && bs[i].free && s <= bs[i].size
    && forall j: nat :: j < i ==> !(bs[j].free && s <= bs[j].size)
  }

  lemma FirstFitIsFirstOf(bs: Blocks, s: nat, i: nat)
    ensures FirstOf(bs, s, i) <==> FirstFit(bs, s, 0) == Some(i)
  {
    FirstFitIsFirst(bs, s, 0);
  }

  /** Block i given out for s bytes: whole if no more than 32 bytes would be left over, and else cut down
      to exactly s bytes, with a free block of the rest behind its 32-byte header. */
  ghost predicate GivenOut(bs: Blocks, i: nat, s: nat, bs': Blocks)
    requires i < |bs|
  {
    var b := bs[i];
    if b.size <= s + 32 then bs' == bs[..i] + [Block(b.addr, b.size, false)] + bs[i + 1..]
    else bs' == bs[..i] + [Block(b.addr, s, false), Block(b.addr + 32 + s, b.size - s - 32, true)] + bs[i + 1..]
  }

  lemma AllocGivesOut(bs: Blocks, i: nat, s: nat)
    requires i < |bs| && s <= bs[i].size
    ensures GivenOut(bs, i, s, AllocAt(bs, i, s))
  {
  }

  /** Block i taken back: one free block of it and of the free neighbours in the list that touch it. */
  ghost predicate TakenBack(bs: Blocks, i: nat, bs': Blocks)
    requires i < |bs|
  {
    var lo: nat := if 0 < i && bs[i - 1].free && bs[i - 1].addr + 32 + bs[i - 1].size == bs[i].addr then i - 1 else i;
    var hi: nat :=
      if i + 1 < |bs| && bs[i + 1].free && bs[i].addr + 32 + bs[i].size == bs[i + 1].addr then i + 1 else i;
    var below := if lo < i then bs[lo].size + 32 else 0;
    var above := if i < hi then bs[hi].size + 32 else 0;
    bs' == bs[..lo] + [Block(bs[lo].addr, below + bs[i].size + above, true)] + bs[hi + 1..]
  }

  lemma FreeTakesBack(bs: Blocks, i: nat)
    requires i < |bs|
    ensures TakenBack(bs, i, FreeAt(bs, i))
  {
    var freed := Retag(bs, i, true);
    var merged := MergeIf(freed, i);
    assert Mergeable(freed, i) <==> i + 1 < |bs| && bs[i + 1].free && bs[i].addr + 32 + bs[i].size == bs[i + 1].addr;
    if i > 0 {
      assert merged[i - 1] == bs[i - 1] && merged[i].addr == bs[i].addr && merged[i].free;
    }
  }

  // ----- Full coalescing -----

  /** No two list neighbours that touch in memory are both free. */
  ghost predicate Coalesced(bs: Blocks) {
    forall i: nat :: !Mergeable(bs, i)
  }

  lemma RetagUsedKeepsCoalesced(bs: Blocks, i: nat)
    requires i < |bs| && (forall j: nat :: Mergeable(bs, j) ==> j == i || j + 1 == i)
    ensures Coalesced(Retag(bs, i, false))
  {
    forall j: nat
      ensures !Mergeable(Retag(bs, i, false), j)
    {
      assert !Mergeable(bs, j) || j == i || j + 1 == i;
    }
  }

  /** Giving out a block keeps the list coalesced; so does giving out the last block of a list whose
      other blocks are coalesced, which is what the retry after growth does. */
  lemma AllocKeepsCoalesced(bs: Blocks, i: nat, n: nat)
    requires i < |bs| && FitsIn(bs[i], n)
    requires forall j: nat :: Mergeable(bs, j) ==> j + 1 == i
    ensures Coalesced(AllocAt(bs, i, n))
  {
    if bs[i].size <= n + HEADER {
      RetagUsedKeepsCoalesced(bs, i);
    } else {
      var s := Split(bs, i, n);
      forall j: nat | Mergeable(s, j)
        ensures j == i || j + 1 == i
      {
        if j < i - 1 {
          assert Mergeable(bs, j);
        } else if j == i + 1 {
          assert Mergeable(bs, i);
        } else if j > i + 1 {
          assert Mergeable(bs, j - 1);
        }
      }
      RetagUsedKeepsCoalesced(s, i);
    }
  }

  /** Merging at i, the only mergeable places being i and i - 1, leaves at most i - 1. */
  lemma MergeIfLeavesLeft(bs: Blocks, i: nat)
    requires forall j: nat :: Mergeable(bs, j) ==> j == i || j + 1 == i
    ensures forall j: nat :: Mergeable(MergeIf(bs, i), j) ==> j + 1 == i
  {
    forall j: nat | Mergeable(MergeIf(bs, i), j)
      ensures j + 1 == i
    {
      if Mergeable(bs, i) && j >= i {
        assert Mergeable(bs, j + 1);
      } else {
        assert Mergeable(bs, j);
      }
    }
  }

  lemma MergeIfCoalesces(bs: Blocks, i: nat)
    requires forall j: nat :: Mergeable(bs, j) ==> j == i
    ensures Coalesced(MergeIf(bs, i))
  {
    MergeIfLeavesLeft(bs, i);
    if i > 0 {
      assert !Mergeable(bs, i - 1);
    }
  }

  /** Giving a block back leaves the list coalesced. */
  lemma FreeKeepsCoalesced(bs: Blocks, i: nat)
    requires i < |bs|
    ensures Coalesced(bs) ==> Coalesced(FreeAt(bs, i))
  {
    if Coalesced(bs) {
      FreeCoalesces(bs, i);
    }
  }

  lemma FreeCoalesces(bs: Blocks, i: nat)
    requires Coalesced(bs) && i < |bs|
    ensures Coalesced(FreeAt(bs, i))
  {
    var freed := Retag(bs, i, true);
    forall j: nat | Mergeable(freed, j)
      ensures j == i || j + 1 == i
    {
      assert !Mergeable(bs, j);
    }
    MergeIfLeavesLeft(freed, i);
    if i > 0 {
      MergeIfCoalesces(MergeIf(freed, i), i - 1);
    }
  }

  // ----- Round trips -----

  /** Giving a block out and back again first undoes the split, and then merges to the left. */
  lemma AllocThenFree(bs: Blocks, i: nat, n: nat)
    requires i < |bs| && FitsIn(bs[i], n) && !Mergeable(bs, i)
    ensures FreeAt(AllocAt(bs, i, n), i) == if i == 0 then bs else MergeIf(bs, i - 1)
  {
    var out := AllocAt(bs, i, n);
    var freed := Retag(out, i, true);
    if bs[i].size <= n + HEADER {
      assert freed == bs;
    } else {
      assert freed == Split(bs, i, n);
      assert Mergeable(freed, i);
      assert Merge(freed, i) == bs;
    }
  }

  /** In a coalesced heap, allocating without growth and freeing restores the list exactly. */
  lemma AllocThenFreeRestores(bs: Blocks, i: nat, n: nat)
    requires Coalesced(bs) && i < |bs| && FitsIn(bs[i], n)
    ensures FreeAt(AllocAt(bs, i, n), i) == bs
  {
    AllocThenFree(bs, i, n);
    assert !Mergeable(bs, i);
    if i > 0 {
      assert !Mergeable(bs, i - 1);
    }
  }

  /** Allocating with growth and freeing leaves the old list and the new region, merged into the old
      last block exactly when that is free and touches it. */
  lemma GrowThenFree(bs: Blocks, b: Block, n: nat)
    requires |bs| > 0 && FitsIn(b, n)
    ensures FreeAt(AllocAt(bs + [b], |bs|, n), |bs|) ==
            if bs[|bs| - 1].free && bs[|bs| - 1].End() == b.addr
            then bs[..|bs| - 1] + [bs[|bs| - 1].(size := bs[|bs| - 1].size + (b.size + HEADER))]
            else bs + [b]
  {
    AllocThenFree(bs + [b], |bs|, n);
  }

  // ----- Alignment -----

  /** The rounded size is a multiple of 16 exactly when the size is one, or is no multiple of ten. */
  lemma RoundedIsAligned(size: nat)
    ensures RoundRequest(size) % 16 == 0 <==> size % 10 != 0 || size % 16 == 0
  {
  }

  ghost predicate Aligned(b: Block) {
    b.addr % 16 == 0 && b.size % 16 == 0
  }

  /** Every header, payload and size is a multiple of 16. */
  ghost predicate AllAligned(bs: Blocks) {
    forall i: nat :: i < |bs| ==> Aligned(bs[i])
  }

  /** Giving out a block keeps the list aligned exactly when the request is aligned or the block is
      given out whole. */
  lemma AllocKeepsAligned(bs: Blocks, i: nat, n: nat)
    requires AllAligned(bs) && i < |bs| && n <= bs[i].size
    ensures AllAligned(AllocAt(bs, i, n)) <==> n % 16 == 0 || bs[i].size <= n + HEADER
  {
    var bs' := AllocAt(bs, i, n);
    assert Aligned(bs[i]);
    if bs[i].size > n + HEADER {
      assert bs'[i].size == n;
      assert n % 16 == 0 ==> Aligned(bs'[i]) && Aligned(bs'[i + 1]);
      forall j: nat | j < |bs'| && j != i && j != i + 1
        ensures Aligned(bs'[j])
      {
        assert bs'[j] == bs[if j < i then j else j - 1];
      }
    } else {
      forall j: nat | j < |bs'|
        ensures Aligned(bs'[j])
      {
        assert Aligned(bs[j]);
      }
    }
  }

  /** Giving a block back keeps the list aligned. */
  lemma FreeKeepsAligned(bs: Blocks, i: nat)
    requires AllAligned(bs) && i < |bs|
    ensures AllAligned(FreeAt(bs, i))
  {
    var freed := Retag(bs, i, true);
    assert forall j: nat :: j < |bs| ==> Aligned(freed[j]) == Aligned(bs[j]);
    MergeKeepsAligned(freed, i);
    if i > 0 {
      MergeKeepsAligned(MergeIf(freed, i), i - 1);
    }
  }

  lemma MergeKeepsAligned(bs: Blocks, i: nat)
    requires AllAligned(bs)
    ensures AllAligned(MergeIf(bs, i))
  {
    var bs' := MergeIf(bs, i);
    forall j: nat | j < |bs'|
      ensures Aligned(bs'[j])
    {
      assert Aligned(bs[if j <= i || bs' == bs then j else j + 1]);
      assert Mergeable(bs, i) ==> Aligned(bs[i]) && Aligned(bs[i + 1]);
    }
  }

  // ----- Tiling -----

  ghost predicate Apart(b: Block, c: Block) {
    b.End() <= c.addr || c.End() <= b.addr
  }

  ghost predicate DisjointBlocks(bs: Blocks) {
    forall i: nat, j: nat {:trigger Apart(bs[i], bs[j])} :: i < |bs| && j < |bs| && i != j ==> Apart(bs[i], bs[j])
  }

  ghost predicate InBlocks(bs: Blocks, x: nat) {
    exists i: nat :: i < |bs| && bs[i].Contains(x)
  }

  /** The blocks are pairwise disjoint and together are exactly the heap's pages. */
  ghost predicate Tiles(bs: Blocks, pages: set<nat>) {
    && DisjointBlocks(bs)
    && (forall i: nat :: i < |bs| ==> PAGE_SIZE <= bs[i].addr)
    && (forall x: nat :: InBlocks(bs, x) <==> x / PAGE_SIZE in pages)
  }

  ghost function TotalBytes(bs: Blocks): nat {
    if bs == [] then 0 else bs[0].size + HEADER + TotalBytes(bs[1..])
  }

  lemma {:induction false} TotalConcat(a: Blocks, b: Blocks)
    ensures TotalBytes(a + b) == TotalBytes(a) + TotalBytes(b)
  {
    if a == [] {
      assert a + b == b;
    } else {
      TotalConcat(a[1..], b);
      assert (a + b)[1..] == a[1..] + b;
    }
  }

  lemma TotalReplace(l: Blocks, mid: Blocks, mid': Blocks, r: Blocks)
    requires TotalBytes(mid) == TotalBytes(mid')
    ensures TotalBytes(l + mid + r) == TotalBytes(l + mid' + r)
  {
    TotalConcat(l, mid);
    TotalConcat(l, mid');
    TotalConcat(l + mid, r);
    TotalConcat(l + mid', r);
  }

  lemma TotalOfOne(b: Block)
    ensures TotalBytes([b]) == b.size + HEADER
  {
    assert TotalBytes([b][1..]) == 0;
  }

  lemma RetagKeepsTotal(bs: Blocks, i: nat, free: bool)
    requires i < |bs|
    ensures TotalBytes(Retag(bs, i, free)) == TotalBytes(bs)
  {
    hide TotalBytes;
    TotalOfOne(bs[i]);
    TotalOfOne(bs[i].(free := free));
    TotalReplace(bs[..i], [bs[i]], [bs[i].(free := free)], bs[i + 1..]);
    assert bs == bs[..i] + [bs[i]] + bs[i + 1..];
    assert Retag(bs, i, free) == bs[..i] + [bs[i].(free := free)] + bs[i + 1..];
  }

  /** One block, cut in two or whole, has the same bytes. */
  lemma TotalTwo(b: Block, c: Block, whole: Block)
    requires whole.size == b.size + (c.size + HEADER)
    ensures TotalBytes([b, c]) == TotalBytes([whole])
  {
    assert [b, c][1..] == [c] && [c][1..] == [] && [whole][1..] == [];
  }

  lemma SplitKeepsTotal(bs: Blocks, i: nat, n: nat)
    requires i < |bs| && n + HEADER <= bs[i].size
    ensures TotalBytes(Split(bs, i, n)) == TotalBytes(bs)
  {
    hide TotalBytes;
    var s := Split(bs, i, n);
    TotalTwo(s[i], s[i + 1], bs[i]);
    TotalReplace(bs[..i], [bs[i]], [s[i], s[i + 1]], bs[i + 1..]);
    assert bs == bs[..i] + [bs[i]] + bs[i + 1..];
  }

  lemma MergeKeepsTotal(bs: Blocks, i: nat)
    requires i + 1 < |bs|
    ensures TotalBytes(Merge(bs, i)) == TotalBytes(bs)
  {
    hide TotalBytes;
    var whole := bs[i].(size := bs[i].size + (bs[i + 1].size + HEADER));
    TotalTwo(bs[i], bs[i + 1], whole);
    TotalReplace(bs[..i], [bs[i], bs[i + 1]], [whole], bs[i + 2..]);
    assert bs == bs[..i] + [bs[i], bs[i + 1]] + bs[i + 2..];
  }

  lemma RetagKeepsTiles(bs: Blocks, pages: set<nat>, i: nat, free: bool)
    requires Tiles(bs, pages) && i < |bs|
    ensures Tiles(Retag(bs, i, free), pages)
  {
    var bs' := Retag(bs, i, free);
    forall j: nat, k: nat | j < |bs| && k < |bs| && j != k
      ensures Apart(bs'[j], bs'[k])
    {
      assert Apart(bs[j], bs[k]);
    }
    forall x: nat
      ensures InBlocks(bs', x) <==> InBlocks(bs, x)
    {
      assert forall j: nat :: j < |bs| ==> bs'[j].Contains(x) == bs[j].Contains(x);
    }
  }

  /** The index in bs of the block that block j of a list with one more block at i+1 comes from. */
  ghost function Squeeze(i: nat, j: nat): nat {
    if j <= i then j else j - 1
  }

  /** A list in which block i of bs is cut in two tiles the same pages, and the other way round. */
  ghost predicate CutAt(bs: Blocks, two: Blocks, i: nat) {
    && i < |bs| && |two| == |bs| + 1
    && (forall j: nat :: j < i ==> two[j] == bs[j])
    && (forall j: nat :: i + 2 <= j < |two| ==> two[j] == bs[j - 1])
    && two[i].addr == bs[i].addr && two[i + 1].addr == two[i].End() && two[i + 1].End() == bs[i].End()
  }

  lemma SplitCuts(bs: Blocks, i: nat, n: nat)
    requires i < |bs| && n + HEADER <= bs[i].size
    ensures CutAt(bs, Split(bs, i, n), i)
  {
  }

  lemma MergeUncuts(bs: Blocks, i: nat)
    requires Mergeable(bs, i)
    ensures CutAt(Merge(bs, i), bs, i)
  {
  }

  lemma CutCovers(bs: Blocks, two: Blocks, i: nat, x: nat)
    requires CutAt(bs, two, i)
    ensures InBlocks(two, x) <==> InBlocks(bs, x)
  {
    if InBlocks(bs, x) {
      var j: nat :| j < |bs| && bs[j].Contains(x);
      var k := if j < i then j else if j > i then j + 1 else if x < two[i].End() then i else i + 1;
      assert two[k].Contains(x);
    }
    if InBlocks(two, x) {
      var j: nat :| j < |two| && two[j].Contains(x);
      assert bs[Squeeze(i, j)].Contains(x);
    }
  }

  lemma CutKeepsTiles(bs: Blocks, two: Blocks, i: nat, pages: set<nat>)
    requires CutAt(bs, two, i) && Tiles(bs, pages)
    ensures Tiles(two, pages)
  {
    forall j: nat, k: nat | j < |two| && k < |two| && j != k
      ensures Apart(two[j], two[k])
    {
      if Squeeze(i, j) != Squeeze(i, k) {
        assert Apart(bs[Squeeze(i, j)], bs[Squeeze(i, k)]);
      }
    }
    forall x: nat
      ensures InBlocks(two, x) <==> x / PAGE_SIZE in pages
    {
      CutCovers(bs, two, i, x);
    }
  }

  lemma UncutKeepsTiles(bs: Blocks, two: Blocks, i: nat, pages: set<nat>)
    requires CutAt(bs, two, i) && Tiles(two, pages)
    ensures Tiles(bs, pages)
  {
    forall j: nat, k: nat | j < |bs| && k < |bs| && j != k
      ensures Apart(bs[j], bs[k])
    {
      var j', k' := if j <= i then j else j + 1, if k <= i then k else k + 1;
      assert Apart(two[j'], two[k']);
      assert j == i ==> Apart(two[i + 1], two[k']);
      assert k == i ==> Apart(two[j'], two[i + 1]);
    }
    forall j: nat | j < |bs|
      ensures PAGE_SIZE <= bs[j].addr
    {
      assert bs[j].addr == two[if j <= i then j else j + 1].addr;
    }
    forall x: nat
      ensures InBlocks(bs, x) <==> x / PAGE_SIZE in pages
    {
      CutCovers(bs, two, i, x);
    }
  }

  /** A new region outside the heap's pages extends the tiling. */
  lemma AppendKeepsTiles(bs: Blocks, pages: set<nat>, page: nat, n: nat)
    requires Tiles(bs, pages) && 0 < page && 0 < n && Pages(page, n) !! pages
    ensures Tiles(bs + [Block(page * PAGE_SIZE, n * PAGE_SIZE - HEADER, true)], pages + Pages(page, n))
  {
    var b := Block(page * PAGE_SIZE, n * PAGE_SIZE - HEADER, true);
    var bs' := bs + [b];
    forall x: nat
      ensures b.Contains(x) <==> x / PAGE_SIZE in Pages(page, n)
    {
    }
    forall j: nat, k: nat | j < |bs| && k < |bs| && j != k
      ensures Apart(bs'[j], bs'[k])
    {
      assert Apart(bs[j], bs[k]);
    }
    forall j: nat | j < |bs|
      ensures Apart(bs'[j], bs'[|bs|]) && Apart(bs'[|bs|], bs'[j])
    {
      var x := if bs[j].addr <= b.addr then b.addr else bs[j].addr;
      if bs[j].Contains(x) && b.Contains(x) {
        assert InBlocks(bs, x);
      }
    }
    forall x: nat
      ensures InBlocks(bs', x) <==> x / PAGE_SIZE in pages + Pages(page, n)
    {
      if InBlocks(bs, x) {
        var j: nat :| j < |bs| && bs[j].Contains(x);
        assert bs'[j].Contains(x);
      }
      if b.Contains(x) {
        assert bs'[|bs|].Contains(x);
      }
      if InBlocks(bs', x) {
        var j: nat :| j < |bs'| && bs'[j].Contains(x);
        assert j < |bs| ==> bs[j].Contains(x);
      }
    }
  }
}
