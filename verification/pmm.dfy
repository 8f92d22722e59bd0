/** The physical page allocator: a first-fit run search over a bitmap that lives inside the
    memory it manages. */
module PhysicalPages {
  import opened Wrappers
  import opened Memory
  import opened Bitmap
  import opened BootMemory

  // ----- Specification -----

  /** The pages [base, base+n). */
  ghost function Pages(base: nat, n: nat): (r: set<nat>)
    ensures forall p: nat :: p in r <==> base <= p < base + n
  {
    if n == 0 then {} else Pages(base, n - 1) + {base + n - 1}
  }

  lemma {:induction false} PagesCount(base: nat, n: nat)
    ensures |Pages(base, n)| == n
  {
    if n > 0 {
      PagesCount(base, n - 1);
    }
  }

  /** n consecutive tracked pages from base, none of them marked. */
  ghost predicate FreeRun(marked: set<nat>, tracked: nat, base: nat, n: int) {
    0 < n && base + n <= tracked && forall p: nat :: base <= p < base + n ==> p !in marked
  }

  ghost predicate LowestFreeRun(marked: set<nat>, tracked: nat, base: nat, n: int) {
    && FreeRun(marked, tracked, base, n)
    && forall b: nat :: b < base ==> !FreeRun(marked, tracked, b, n)
  }

  ghost predicate NoFreeRun(marked: set<nat>, tracked: nat, n: int) {
    forall b: nat :: !FreeRun(marked, tracked, b, n)
  }

  /** The tracked pages that are not marked. */
  ghost function Unmarked(marked: set<nat>, tracked: nat): set<nat> {
    set p: nat | p < tracked && p !in marked
  }

  lemma NoFreePage(marked: set<nat>, tracked: nat)
    ensures NoFreeRun(marked, tracked, 1) <==> Unmarked(marked, tracked) == {}
  {
    if p: nat :| p in Unmarked(marked, tracked) {
      assert FreeRun(marked, tracked, p, 1);
    }
    if b: nat :| FreeRun(marked, tracked, b, 1) {
      assert b in Unmarked(marked, tracked);
    }
  }

  lemma OneFreePageLess(marked: set<nat>, tracked: nat, f: nat)
    requires f in Unmarked(marked, tracked)
    ensures |Unmarked(marked + {f}, tracked)| + 1 == |Unmarked(marked, tracked)|
  {
    assert Unmarked(marked + {f}, tracked) == Unmarked(marked, tracked) - {f};
  }

  /** The first of the pages b, b+1, ... at which a free run of n pages starts. */
  ghost function FirstRun(marked: set<nat>, tracked: nat, n: int, b: nat): Option<nat>
    decreases tracked - b
  {
    if b >= tracked then None
    else if FreeRun(marked, tracked, b, n) then Some(b)
    else FirstRun(marked, tracked, n, b + 1)
  }

  /** FirstRun from page 0 finds the lowest free run, and finds none only if there is none. */
  lemma {:induction false} FirstRunIsLowest(marked: set<nat>, tracked: nat, n: int, b: nat)
    requires forall c: nat :: c < b ==> !FreeRun(marked, tracked, c, n)
    ensures match FirstRun(marked, tracked, n, b)
            case Some(base) => LowestFreeRun(marked, tracked, base, n)
            case None => NoFreeRun(marked, tracked, n)
    decreases tracked - b
  {
    if b < tracked && !FreeRun(marked, tracked, b, n) {
      FirstRunIsLowest(marked, tracked, n, b + 1);
    }
  }

  /** The state of the run search when the pages below q have been seen: the current chunk of
      `found` clear pages is maximal to the left and too short, and no earlier run is long enough. */
  ghost predicate Scanned(marked: set<nat>, tracked: nat, n: int, q: nat, found: nat) {
    && found <= q <= tracked && (n <= 0 || found < n)
    && (forall p: nat :: q - found <= p < q ==> p !in marked)
    && (found < q ==> q - found - 1 in marked)
    && (forall b: nat :: b + n <= q ==> !FreeRun(marked, tracked, b, n))
  }

  /** The rest of the search from page q on, with a current chunk of `found` pages. */
  ghost function Scan(marked: set<nat>, tracked: nat, n: int, q: nat, found: nat): Option<nat>
    requires found <= q
    decreases tracked - q
  {
    if q >= tracked then None
    else if q in marked then Scan(marked, tracked, n, q + 1, 0)
    else if found + 1 == n then Some(q - found)
    else Scan(marked, tracked, n, q + 1, found + 1)
  }

  /** The one-pass search finds the first free run. */
  lemma {:induction false} ScanFindsFirstRun(marked: set<nat>, tracked: nat, n: int, q: nat, found: nat)
    requires Scanned(marked, tracked, n, q, found)
    ensures Scan(marked, tracked, n, q, found) == FirstRun(marked, tracked, n, 0)
    decreases tracked - q
  {
    FirstRunIsLowest(marked, tracked, n, 0);
    forall b: nat | b + n == q + 1 && (q in marked || found + 1 < n)
      ensures !FreeRun(marked, tracked, b, n)
    {
      var p := if q in marked then q else q - found - 1;
      assert 0 < n ==> b <= p < b + n;
    }
    if q < tracked && q in marked {
      ScanFindsFirstRun(marked, tracked, n, q + 1, 0);
    } else if q < tracked && found + 1 != n {
      ScanFindsFirstRun(marked, tracked, n, q + 1, found + 1);
    } else if q < tracked {
      assert FreeRun(marked, tracked, q - found, n);
    }
  }

  lemma HeldInMemory(m: Bytes, bitmap: nat, size: nat, reserved: set<nat>, held: set<nat>, base: nat, n: nat)
    requires Tracks(m, bitmap, size, reserved, held) && 0 < n && Pages(base, n) <= held
    ensures 0 < base && (base + n) * PAGE_SIZE <= |m| <= MAX_MEMORY && base + n <= 8 * size
  {
  }

  /** The pages a bitmap of `size` bytes occupies. */
  ghost function BitmapPages(bitmap: nat, size: nat): set<nat> {
    Pages(bitmap / PAGE_SIZE, AlignUp(size, PAGE_SIZE) / PAGE_SIZE)
  }

  /** What the allocator keeps true of memory: the bitmap marks exactly the reserved and the held
      pages, and occupies reserved pages itself. */
  ghost predicate Tracks(m: Bytes, bitmap: nat, size: nat, reserved: set<nat>, held: set<nat>) {
    && 0 < size && bitmap % PAGE_SIZE == 0 && bitmap + size <= |m| <= MAX_MEMORY
    && Marked(m, bitmap, size) == reserved + held
    && reserved !! held && 0 in reserved
    && (forall p: nat :: p in reserved + held ==> p < 8 * size)
    && BitmapPages(bitmap, size) <= reserved
    && (forall p: nat :: p < 8 * size && p !in reserved ==> (p + 1) * PAGE_SIZE <= |m|)
  }

  lemma TracksApart(m: Bytes, bitmap: nat, size: nat, reserved: set<nat>, held: set<nat>)
    requires Tracks(m, bitmap, size, reserved, held)
    ensures reserved !! held && |m| <= MAX_MEMORY && bitmap + size <= |m|
  {
  }

  /** Page p holds the same bytes in both memories. */
  ghost predicate SamePage(m: Bytes, m': Bytes, p: nat) {
    SameOn(m, m', p * PAGE_SIZE, PAGE_SIZE)
  }

  lemma SamePageTransitive(m: Bytes, m': Bytes, m'': Bytes)
    ensures forall p: nat :: SamePage(m, m', p) && SamePage(m', m'', p) ==> SamePage(m, m'', p)
  {
  }

  lemma InBitmapPage(bitmap: nat, size: nat, x: nat)
    requires bitmap % PAGE_SIZE == 0
    ensures bitmap <= x < bitmap + size ==> x / PAGE_SIZE in BitmapPages(bitmap, size)
  {
  }

  /** No byte of a page that is not reserved belongs to the bitmap, so writing the bitmap leaves
      every such page as it was. */
  lemma BitmapWriteKeepsPages(m: Bytes, m': Bytes, bitmap: nat, size: nat, reserved: set<nat>, held: set<nat>)
    requires Tracks(m, bitmap, size, reserved, held) && SameOutside(m, m', bitmap, size)
    ensures forall p: nat :: p !in reserved ==> SamePage(m, m', p)
  {
  }

  /** Writing pages that are not reserved leaves the bitmap, and so the whole account, as it was:
      this is why the 0xFF poison of a freed page cannot damage the allocator. */
  lemma PageWriteKeepsTracks(m: Bytes, m': Bytes, bitmap: nat, size: nat, reserved: set<nat>, held: set<nat>,
                             base: nat, n: nat)
    requires Tracks(m, bitmap, size, reserved, held)
    requires SameOutside(m, m', base * PAGE_SIZE, n * PAGE_SIZE) && Pages(base, n) !! reserved
    ensures SameOn(m, m', bitmap, size)
    ensures Tracks(m', bitmap, size, reserved, held)
  {
    forall x: nat | bitmap <= x < bitmap + size
      ensures m'[x] == m[x]
    {
      InBitmapPage(bitmap, size, x);
      assert x / PAGE_SIZE in reserved && x / PAGE_SIZE !in Pages(base, n);
    }
    MarkedDetermines(m, m', bitmap, size);
  }

  /** A tracked page the allocator must never hand out. */
  ghost predicate Unallocatable(entries: seq<MemmapEntry>, bitmap: nat, size: nat, p: nat) {
    p < 8 * size && (p == 0 || !UsablePage(entries, p) || p in BitmapPages(bitmap, size))
  }

  /** The same in plain numbers: page 0, what is not whole in a usable entry, and what the bitmap's bytes touch. */
  ghost predicate Barred(entries: seq<MemmapEntry>, bitmap: nat, size: nat, p: nat) {
    && p < 8 * size
    && (p == 0 || !WholeUsable(entries, p) || (bitmap < 0x1000 * p + 0x1000 && 0x1000 * p < bitmap + size))
  }

  lemma BarredIs(entries: seq<MemmapEntry>, limit: nat, bitmap: nat, size: nat, p: nat)
    requires BootGuarantees(entries, limit) && bitmap % PAGE_SIZE == 0 && 0 < size
    ensures Barred(entries, bitmap, size, p) <==> Unallocatable(entries, bitmap, size, p)
  {
    hide UsablePage, WholeUsable, BootGuarantees, Pages;
    UsableIsWhole(entries, limit, p);
    BitmapTouches(bitmap, size, p);
  }

  lemma BitmapTouches(bitmap: nat, size: nat, p: nat)
    requires bitmap % PAGE_SIZE == 0 && 0 < size
    ensures p in BitmapPages(bitmap, size) <==> bitmap < 0x1000 * p + 0x1000 && 0x1000 * p < bitmap + size
  {
    var first, n := bitmap / PAGE_SIZE, AlignUp(size, PAGE_SIZE) / PAGE_SIZE;
    assert bitmap == 0x1000 * first && 0x1000 * (n - 1) < size <= 0x1000 * n;
  }

  /** A bitmap that marks exactly the pages that must not be handed out is a valid account in which
      nobody holds anything. */
  lemma InitTracks(m: Bytes, bitmap: nat, size: nat, entries: seq<MemmapEntry>)
    requires BootGuarantees(entries, |m|) && |m| <= MAX_MEMORY && 0 < size
    requires size == BitmapBytes(entries) && Placement(entries, size, bitmap) && bitmap + size <= |m|
    requires forall p: nat :: p in Marked(m, bitmap, size) <==> Unallocatable(entries, bitmap, size, p)
    ensures Tracks(m, bitmap, size, Marked(m, bitmap, size), {})
  {
    PlacedInMemory(entries, |m|, bitmap, size);
    PlacedInTracked(entries, |m|, bitmap, size);
    MarkedBound(m, bitmap, size);
    forall p: nat | p < 8 * size && p !in Marked(m, bitmap, size)
      ensures (p + 1) * PAGE_SIZE <= |m|
    {
      UsableInMemory(entries, |m|, p);
    }
  }

  /** Marking a free run and nothing else hands that run out. */
  lemma MarkingGrants(m: Bytes, m': Bytes, bitmap: nat, size: nat, reserved: set<nat>, held: set<nat>, run: set<nat>)
    requires Tracks(m, bitmap, size, reserved, held)
    requires SameOutside(m, m', bitmap, size) && Marked(m', bitmap, size) == reserved + held + run
    requires run !! reserved
    ensures Tracks(m', bitmap, size, reserved, held + run)
    ensures forall p: nat :: p !in reserved ==> SamePage(m, m', p)
  {
    MarkedBound(m', bitmap, size);
    BitmapWriteKeepsPages(m, m', bitmap, size, reserved, held);
    assert reserved + held + run == reserved + (held + run);
  }

  /** Clearing the bits of held pages and poisoning those pages gives them back. */
  lemma ClearingReturns(m: Bytes, m': Bytes, m'': Bytes, bitmap: nat, size: nat, reserved: set<nat>, held: set<nat>,
                        base: nat, n: nat)
    requires Tracks(m, bitmap, size, reserved, held) && Pages(base, n) <= held
    requires SameOutside(m, m', bitmap, size) && Marked(m', bitmap, size) == reserved + held - Pages(base, n)
    requires SameOutside(m', m'', base * PAGE_SIZE, n * PAGE_SIZE)
    ensures Tracks(m'', bitmap, size, reserved, held - Pages(base, n))
    ensures forall p: nat :: p !in reserved + Pages(base, n) ==> SamePage(m, m'', p)
  {
    BitmapWriteKeepsPages(m, m', bitmap, size, reserved, held);
    assert reserved + held - Pages(base, n) == reserved + (held - Pages(base, n));
    PageWriteKeepsTracks(m', m'', bitmap, size, reserved, held - Pages(base, n), base, n);
    forall p: nat | p !in reserved + Pages(base, n)
      ensures SamePage(m, m'', p)
    {
      assert SamePage(m, m', p);
    }
  }

  lemma BitmapIsRight(entries: seq<MemmapEntry>, limit: nat, bitmap: nat, size: nat)
    requires BootGuarantees(entries, limit) && 0 < size == BitmapBytes(entries) && Placement(entries, size, bitmap)
    ensures RightBitmap(entries, size, bitmap)
    ensures forall p: nat :: Barred(entries, bitmap, size, p) <==> Unallocatable(entries, bitmap, size, p)
  {
    hide Barred, Unallocatable, BootGuarantees, RightSize, RightPlace, Placement;
    SizeIsRight(entries, size);
    PlaceIsRight(entries, size, bitmap);
    PlacedInMemory(entries, limit, bitmap, size);
    forall p: nat
      ensures Barred(entries, bitmap, size, p) <==> Unallocatable(entries, bitmap, size, p)
    {
      BarredIs(entries, limit, bitmap, size, p);
    }
  }

  // ----- The allocator -----

  class Pmm {
    const mem: array<bv8>
    var bitmap: nat
    var bitmapSize: nat
    /** Pages the allocator never hands out: page 0, unusable pages, and its own bitmap. */
    ghost var reserved: set<nat>
    /** Pages handed out and not yet given back. */
    ghost var held: set<nat>

    ghost predicate Valid()
      reads this, mem
    {
      Tracks(mem[..], bitmap, bitmapSize, reserved, held)
    }

    /** How many pages the bitmap has a bit for. */
    ghost function Tracked(): nat
      reads this
    {
      8 * bitmapSize
    }

    constructor (mem: array<bv8>)
      ensures this.mem == mem && bitmapSize == 0
    {
      this.mem := mem;
      bitmap, bitmapSize := 0, 0;
      reserved, held := {}, {};
    }

    /** Builds the bitmap from the memory map. False stands for one of the failed assertions: no
        entries at all, a bitmap of size 0, or no usable entry large enough for the bitmap. */
    method Init(entries: seq<MemmapEntry>) returns (ok: bool)
      requires BootGuarantees(entries, mem.Length) && mem.Length <= MAX_MEMORY
      modifies this, mem
      ensures ok <==> UsableBeyondFirst(entries) && HasRoom(entries, BitmapBytes(entries))
      ensures ok ==> Valid() && held == {}
      ensures ok ==> bitmapSize == BitmapBytes(entries) && Placement(entries, bitmapSize, bitmap)
      ensures ok ==> forall p: nat :: p in reserved <==> Unallocatable(entries, bitmap, bitmapSize, p)
      ensures ok <==> exists size: nat, a: nat :: RightBitmap(entries, size, a)
      ensures ok ==> RightBitmap(entries, bitmapSize, bitmap) && bitmap + bitmapSize <= mem.Length
      ensures ok ==> forall p: nat :: p in reserved <==> Barred(entries, bitmap, bitmapSize, p)
      ensures ok ==> Marked(mem[..], bitmap, bitmapSize) == reserved
      ensures ok ==> SameOutside(old(mem[..]), mem[..], bitmap, bitmapSize)
    {
      hide RightBitmap, Barred, Tracks, Marked, BootGuarantees, UsableBeyondFirst, HasRoom, Placement, Unallocatable;
      TracksSomething(entries, mem.Length);
      BitmapExists(entries, mem.Length);
      if |entries| == 0 {
        return false;
      }
      var last := FindLastTrackedPage(entries);
      bitmapSize := AlignUp(last, 8) / 8;
      if bitmapSize == 0 {
        return false;
      }
      var place := PlaceBitmap(entries, bitmapSize);
      if place.None? {
        return false;
      }
      bitmap := place.value;
      BuildBitmap(entries);
      ghost var m := mem[..];
      reserved, held := Marked(m, bitmap, bitmapSize), {};
      assert mem[..] == m;
      BitmapIsRight(entries, mem.Length, bitmap, bitmapSize);
      return true;
    }

    /** Marks everything, clears the usable pages, then marks the bitmap's own pages and page 0. */
    method BuildBitmap(entries: seq<MemmapEntry>)
      requires BootGuarantees(entries, mem.Length) && mem.Length <= MAX_MEMORY
      requires bitmapSize == BitmapBytes(entries) && 0 < bitmapSize && Placement(entries, bitmapSize, bitmap)
      modifies mem
      ensures bitmap + bitmapSize <= mem.Length && SameOutside(old(mem[..]), mem[..], bitmap, bitmapSize)
      ensures forall p: nat :: p in Marked(mem[..], bitmap, bitmapSize) <==>
          Unallocatable(entries, bitmap, bitmapSize, p)
      ensures Tracks(mem[..], bitmap, bitmapSize, Marked(mem[..], bitmap, bitmapSize), {})
    {
      hide Marked, Tracks;
      PlacedInMemory(entries, mem.Length, bitmap, bitmapSize);
      PlacedInTracked(entries, mem.Length, bitmap, bitmapSize);
      UsablePagesAreTracked(entries, mem.Length);
      Memset(mem, bitmap, 0xFF, bitmapSize);
      FilledMarksAll(mem[..], bitmap, bitmapSize);
      MarkUsable(entries);
      SetRun(bitmap / PAGE_SIZE, AlignUp(bitmapSize, PAGE_SIZE) / PAGE_SIZE);
      BitmapSet(0);
      InitTracks(mem[..], bitmap, bitmapSize, entries);
    }

    /** Clears the bit of every page of every usable entry. */
    method MarkUsable(entries: seq<MemmapEntry>)
      requires bitmap + bitmapSize <= mem.Length
      requires forall p: nat :: UsablePage(entries, p) ==> p < 8 * bitmapSize
      modifies mem
      ensures SameOutside(old(mem[..]), mem[..], bitmap, bitmapSize)
      ensures forall p: nat :: p in Marked(mem[..], bitmap, bitmapSize) <==>
          p in Marked(old(mem[..]), bitmap, bitmapSize) && !UsablePage(entries, p)
    {
      var i := 0;
      while i < |entries|
        invariant 0 <= i <= |entries|
        invariant SameOutside(old(mem[..]), mem[..], bitmap, bitmapSize)
        invariant forall p: nat :: p in Marked(mem[..], bitmap, bitmapSize) <==>
            p in Marked(old(mem[..]), bitmap, bitmapSize) && !UsablePage(entries[..i], p)
      {
        var e := entries[i];
        UsablePageSnoc(entries, i);
        if e.kind == USABLE {
          assert e.base / PAGE_SIZE < e.LastPage() ==> InUsable(entries[i], e.LastPage() - 1);
          ClearRun(e.base / PAGE_SIZE, e.LastPage() - e.base / PAGE_SIZE);
        }
        i := i + 1;
      }
      assert entries[..|entries|] == entries;
    }

    method BitmapSet(page: nat)
      requires bitmap + bitmapSize <= mem.Length && page / 8 < bitmapSize
      modifies mem
      ensures Marked(mem[..], bitmap, bitmapSize) == Marked(old(mem[..]), bitmap, bitmapSize) + {page}
      ensures SameOutside(old(mem[..]), mem[..], bitmap, bitmapSize)
    {
      PutPageMarks(mem[..], bitmap, bitmapSize, page, true);
      mem[bitmap + page / 8] := mem[bitmap + page / 8] | (0x80 >> (page % 8));
      assert mem[..] == PutPage(old(mem[..]), bitmap, page, true);
    }

    method BitmapClear(page: nat)
      requires bitmap + bitmapSize <= mem.Length && page / 8 < bitmapSize
      modifies mem
      ensures Marked(mem[..], bitmap, bitmapSize) == Marked(old(mem[..]), bitmap, bitmapSize) - {page}
      ensures SameOutside(old(mem[..]), mem[..], bitmap, bitmapSize)
    {
      PutPageMarks(mem[..], bitmap, bitmapSize, page, false);
      mem[bitmap + page / 8] := mem[bitmap + page / 8] & !(0x80 >> (page % 8));
      assert mem[..] == PutPage(old(mem[..]), bitmap, page, false);
    }

    method BitmapTest(i: nat, j: nat) returns (used: bool)
      requires bitmap + bitmapSize <= mem.Length && i < bitmapSize && j < 8
      ensures used == (8 * i + j in Marked(mem[..], bitmap, bitmapSize))
    {
      MarkedAt(mem[..], bitmap, bitmapSize, i, j);
      used := mem[bitmap + i] & (0x80 >> j) != 0;
    }

    /** The lowest free run of the requested length; None is the panic. */
    method FindFreePages(pages: int) returns (r: Option<nat>)
      requires Valid()
      ensures r == FirstRun(reserved + held, Tracked(), pages, 0)
    {
      hide Marked, FirstRun;
      ghost var marked := reserved + held;
      ScanFindsFirstRun(marked, Tracked(), pages, 0, 0);
      var inChunk, pagesFoundInChunk := false, 0;
      var basePage: nat := 0;
      var i := 0;
      while i < bitmapSize
        invariant 0 <= i <= bitmapSize && 0 <= pagesFoundInChunk <= 8 * i
        invariant Scan(marked, Tracked(), pages, 8 * i, pagesFoundInChunk) == Scan(marked, Tracked(), pages, 0, 0)
        invariant inChunk == (0 < pagesFoundInChunk) && (inChunk ==> basePage == 8 * i - pagesFoundInChunk)
      {
        var j := 0;
        while j < 8
          invariant 0 <= j <= 8 && 0 <= pagesFoundInChunk <= 8 * i + j
          invariant Scan(marked, Tracked(), pages, 8 * i + j, pagesFoundInChunk) == Scan(marked, Tracked(), pages, 0, 0)
          invariant inChunk == (0 < pagesFoundInChunk) && (inChunk ==> basePage == 8 * i + j - pagesFoundInChunk)
        {
          var used := BitmapTest(i, j);
          if !used {
            if !inChunk {
              basePage := i * 8 + j;
              inChunk := true;
            }
            pagesFoundInChunk := pagesFoundInChunk + 1;
            if pagesFoundInChunk == pages {
              return Some(basePage);
            }
          } else {
            inChunk := false;
            pagesFoundInChunk := 0;
          }
          j := j + 1;
        }
        i := i + 1;
      }
      return None;
    }

    method SetRun(base: nat, pages: nat)
      requires bitmap + bitmapSize <= mem.Length && base + pages <= 8 * bitmapSize
      modifies mem
      ensures Marked(mem[..], bitmap, bitmapSize) == Marked(old(mem[..]), bitmap, bitmapSize) + Pages(base, pages)
      ensures SameOutside(old(mem[..]), mem[..], bitmap, bitmapSize)
    {
      var i := base;
      while i < base + pages
        invariant base <= i <= base + pages
        invariant SameOutside(old(mem[..]), mem[..], bitmap, bitmapSize)
        invariant Marked(mem[..], bitmap, bitmapSize) ==
                  Marked(old(mem[..]), bitmap, bitmapSize) + Pages(base, i - base)
      {
        BitmapSet(i);
        i := i + 1;
      }
    }

    method ClearRun(base: nat, pages: nat)
      requires bitmap + bitmapSize <= mem.Length && (0 < pages ==> base + pages <= 8 * bitmapSize)
      modifies mem
      ensures Marked(mem[..], bitmap, bitmapSize) == Marked(old(mem[..]), bitmap, bitmapSize) - Pages(base, pages)
      ensures SameOutside(old(mem[..]), mem[..], bitmap, bitmapSize)
    {
      var i := base;
      while i < base + pages
        invariant base <= i <= base + pages
        invariant SameOutside(old(mem[..]), mem[..], bitmap, bitmapSize)
        invariant Marked(mem[..], bitmap, bitmapSize) ==
                  Marked(old(mem[..]), bitmap, bitmapSize) - Pages(base, i - base)
      {
        BitmapClear(i);
        i := i + 1;
      }
    }

    /** First-fit allocation: the lowest run of `pages` pages that nobody holds and that may be
        handed out becomes held; only bitmap bytes are written. None, the panic, exactly when there
        is no such run. */
    method Alloc(pages: int) returns (r: Option<nat>)
      requires Valid()
      modifies this`held, mem
      ensures Valid()
      ensures r.None? ==> mem[..] == old(mem[..]) && held == old(held)
      ensures var run := FirstRun(reserved + old(held), Tracked(), pages, 0);
              r == if run.None? then None else Some(run.value * PAGE_SIZE)
      ensures r.Some? ==> 0 < pages && held == old(held) + Pages(r.value / PAGE_SIZE, pages)
      ensures r.Some? ==> Pages(r.value / PAGE_SIZE, pages) !! reserved + old(held)
      ensures SameOutside(old(mem[..]), mem[..], bitmap, bitmapSize)
      ensures forall p: nat :: p !in reserved ==> SamePage(old(mem[..]), mem[..], p)
    {
      var base :- FindFreePages(pages);
      FirstRunIsLowest(reserved + held, Tracked(), pages, 0);
      SetRun(base, pages);
      ghost var m := mem[..];
      MarkingGrants(old(mem[..]), m, bitmap, bitmapSize, reserved, held, Pages(base, pages));
      held := held + Pages(base, pages);
      assert mem[..] == m;
      return Some(base * PAGE_SIZE);
    }

    /** Gives back a held run and poisons it. PAGE_SIZE*pages is an int product in the source,
        hence the bound on `pages`. */
    method Free(base: nat, pages: nat)
      requires Valid()
      requires base % PAGE_SIZE == 0 && base <= mem.Length && pages < 0x8_0000
      requires Pages(base / PAGE_SIZE, pages) <= held
      modifies this`held, mem
      ensures Valid()
      ensures held == old(held) - Pages(base / PAGE_SIZE, pages)
      ensures base + PAGE_SIZE * pages <= mem.Length
      ensures forall x: nat :: base <= x < base + PAGE_SIZE * pages ==> mem[x] == 0xFF
      ensures forall p: nat :: p !in reserved + Pages(base / PAGE_SIZE, pages) ==> SamePage(old(mem[..]), mem[..], p)
    {
      ghost var first := base / PAGE_SIZE;
      if 0 < pages {
        HeldInMemory(mem[..], bitmap, bitmapSize, reserved, held, first, pages);
      }
      ClearRun(base / PAGE_SIZE, pages);
      ghost var cleared := mem[..];
      Memset(mem, base, 0xFF, PAGE_SIZE * pages);
      ghost var m := mem[..];
      ClearingReturns(old(mem[..]), cleared, m, bitmap, bitmapSize, reserved, held, first, pages);
      held := held - Pages(first, pages);
      assert mem[..] == m;
    }
  }
}
