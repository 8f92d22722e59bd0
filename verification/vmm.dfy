/** Range mapping, and the kernel's own address space: the direct map and the kernel image. */
module VirtualMemory {
  import opened Memory
  import opened BootMemory
  import opened PhysicalPages
  import opened PageTableEntry
  import opened TableTree
  import opened PageTables

  const TWO_TO_THE_48: nat := 0x1_0000_0000_0000
  const TWO_TO_THE_64: nat := 0x1_0000_0000_0000_0000

  // ----- Ranges of pages -----

  function PageCount(size: nat): nat {
    (size + PAGE_SIZE - 1) / PAGE_SIZE
  }

  /** How far `key` lies after the page number `first`, going round at the top. */
  function Offset(key: nat, first: nat): (r: nat)
    ensures r < KEYS
  {
    (key - first) % KEYS
  }

  /** The n pages from page number `first` on are mapped to the n frames from `frame` on, in order;
      every other translation, of every address space, is as before. */
  ghost predicate FlatRange(view: View, view': View, places: Places, root: nat, first: nat, frame: nat, n: nat,
                            flags: int) {
    forall r: nat, k: nat :: IsRoot(places, r) && k < KEYS ==>
      Flat(view', r, k) == if r == root && Offset(k, first) < n
                           then MappedTo(Flat(view, r, k), frame + Offset(k, first), flags) else Flat(view, r, k)
  }

  ghost predicate RangeMapped(s: State, s': State, reserved: set<nat>, root: nat, first: nat, frame: nat, n: nat,
                              flags: int) {
    TablesAdded(s, s', reserved) && FlatRange(s.view, s'.view, s.places, root, first, frame, n, flags)
  }

  /** The page number k pages after `first`. */
  function NextKey(first: nat, k: nat): nat {
    (first + k) % KEYS
  }

  /** Two frame numbers that an entry's address field cannot tell apart. */
  predicate SameFrame(f: nat, g: nat) {
    f % ADDR_LIMIT == g % ADDR_LIMIT
  }

  /** Page k of a range: the address arithmetic of the loop, 64-bit wrap-around included. */
  lemma RangeStep(a: nat, k: nat, i: nat)
    requires i == PAGE_SIZE * k
    ensures Key((a + i) % TWO_TO_THE_64) == NextKey(Key(a), k)
    ensures SameFrame((a + i) % TWO_TO_THE_64 / PAGE_SIZE, a / PAGE_SIZE + k)
  {
    assert (a + i) / PAGE_SIZE == a / PAGE_SIZE + k;
    WrapPages(a + i);
    WrapSum(a / PAGE_SIZE, k);
  }

  lemma WrapSum(p: nat, k: nat)
    ensures (p + k) % KEYS == (p % KEYS + k) % KEYS
  {
  }

  lemma WrapPages(b: nat)
    ensures b % TWO_TO_THE_64 / PAGE_SIZE % KEYS == b / PAGE_SIZE % KEYS
    ensures b % TWO_TO_THE_64 / PAGE_SIZE % ADDR_LIMIT == b / PAGE_SIZE % ADDR_LIMIT
  {
    var q, r := b / TWO_TO_THE_64, b % TWO_TO_THE_64;
    assert b / PAGE_SIZE == 0x10_0000_0000_0000 * q + r / PAGE_SIZE;
    DropKeys(0x1_0000 * q, r / PAGE_SIZE);
    DropFrames(2 * q, r / PAGE_SIZE);
  }

  lemma DropKeys(q: nat, y: nat)
    ensures (KEYS * q + y) % KEYS == y % KEYS
  {
  }

  lemma DropFrames(q: nat, y: nat)
    ensures (ADDR_LIMIT * q + y) % ADDR_LIMIT == y % ADDR_LIMIT
  {
  }

  /** Remapping the next page of a range extends the range by that page. */
  lemma RangeExtends(s: State, s1: State, s2: State, reserved: set<nat>, root: nat, first: nat, frame: nat, n: nat,
                     flags: int,
                     key: nat, next: nat)
    requires s.places.Keys <= s.held && IsRoot(s.places, root) && n < KEYS && first < KEYS
    requires RangeMapped(s, s1, reserved, root, first, frame, n, flags)
    requires key == NextKey(first, n) && SameFrame(next, frame + n)
    requires Remapped(s1, s2, reserved, root, key, MappedTo(Flat(s1.view, root, key), next, flags))
    ensures RangeMapped(s, s2, reserved, root, first, frame, n + 1, flags)
  {
    TablesAddedTransitive(s, s1, s2, reserved);
    forall r: nat, k: nat | IsRoot(s.places, r) && k < KEYS
      ensures Flat(s2.view, r, k) == if r == root && Offset(k, first) < n + 1
                                     then MappedTo(Flat(s.view, r, k), frame + Offset(k, first), flags)
                                    else Flat(s.view, r, k)
    {
      assert IsRoot(s1.places, r);
      assert Flat(s1.view, r, k) == if r == root && Offset(k, first) < n
                                    then MappedTo(Flat(s.view, r, k), frame + Offset(k, first), flags)
                                    else Flat(s.view, r, k);
      OffsetIs(k, first, n);
    }
  }

  lemma RangeExtendsAt(s: State, s1: State, s2: State, reserved: set<nat>, root: nat, first: nat, physAddr: nat,
                       n: nat, flags: int,
                       key: nat, p: nat)
    requires s.places.Keys <= s.held && IsRoot(s.places, root) && n < KEYS && first < KEYS
    requires RangeMapped(s, s1, reserved, root, first, physAddr / PAGE_SIZE, n, flags)
    requires key == NextKey(first, n) && SameFrame(p / PAGE_SIZE, physAddr / PAGE_SIZE + n)
    requires Remapped(s1, s2, reserved, root, key, MappedTo(Flat(s1.view, root, key), p / PAGE_SIZE, flags))
    ensures RangeMapped(s, s2, reserved, root, first, physAddr / PAGE_SIZE, n + 1, flags)
  {
    RangeExtends(s, s1, s2, reserved, root, first, physAddr / PAGE_SIZE, n, flags, key, p / PAGE_SIZE);
  }

  lemma OffsetIs(k: nat, first: nat, n: nat)
    requires k < KEYS && first < KEYS && n < KEYS
    ensures Offset(k, first) == n <==> k == (first + n) % KEYS
  {
  }

  /** A mapped range in plain numbers: address a of the space lies in the range if its page is less than
      `size` bytes above the page of the first address, going round after 2^36 pages; then its page is mapped
      to the frame just as far above that of the first physical address. */
  lemma RangeInNumbers(s: State, s': State, reserved: set<nat>, root: nat, physAddr: nat, virtAddr: nat, size: nat,
                       flags: int, r: nat, a: nat)
    requires RangeMapped(s, s', reserved, root, Key(virtAddr), physAddr / PAGE_SIZE, PageCount(size), flags)
    requires IsRoot(s.places, r)
    ensures var k, page := (a / 0x1000 - virtAddr / 0x1000) % 0x10_0000_0000, a / 0x1000 % 0x10_0000_0000;
            Flat(s'.view, r, page) == if r == root && 0x1000 * k < size
                                      then MappedTo(Flat(s.view, r, page), physAddr / 0x1000 + k, flags)
                                      else Flat(s.view, r, page)
  {
    hide Flat, MappedTo, TablesAdded;
    DistanceOfPages(a, virtAddr);
    var k := (a / 0x1000 - virtAddr / 0x1000) % 0x10_0000_0000;
    assert k < PageCount(size) <==> 0x1000 * k < size;
  }

  lemma DistanceOfPages(v: nat, base: nat)
    ensures Offset(v / 0x1000 % 0x10_0000_0000, Key(base)) == (v / 0x1000 - base / 0x1000) % 0x10_0000_0000
  {
    var p, b := v / 0x1000, base / 0x1000;
    DropTurns(p, b);
  }

  lemma DropTurns(p: int, b: int)
    ensures (p % 0x10_0000_0000 - b % 0x10_0000_0000) % 0x10_0000_0000 == (p - b) % 0x10_0000_0000
  {
  }

  // ----- The kernel's address space -----

  /** The leaf entry of a page mapped present, readable, writable and executable to a frame. */
  function KernelEntry(frame: nat): Entry {
    MappedTo(ABSENT, frame, VMM_PRESENT + VMM_RWX)
  }

  /** Frame f is one of those an entry's range touches, page 0 left out. */
  predicate EntryCovers(e: MemmapEntry, f: nat) {
    var e := e.SkipPageZero();
    e.base / PAGE_SIZE <= f < e.base / PAGE_SIZE + PageCount(e.length)
  }

  /** Frame f is covered by one of the first n entries. */
  ghost predicate Covered(entries: seq<MemmapEntry>, n: nat, f: nat) {
    exists i: nat :: i < n && i < |entries| && EntryCovers(entries[i], f)
  }

  /** The translation of every page, exactly, when n entries have been mapped: the page of frame f in
      the direct map is mapped to f if one of those entries covers f; everything else is absent. */
  ghost predicate DirectMap(view: View, root: nat, entries: seq<MemmapEntry>, n: nat, hhdmPage: nat) {
    forall k: nat :: k < KEYS ==>
      Flat(view, root, k) ==
        if Covered(entries, n, Offset(k, hhdmPage)) then KernelEntry(Offset(k, hhdmPage)) else ABSENT
  }

  /** The direct map, with the kernel's pages laid over it. */
  ghost predicate KernelSpace(view: View, root: nat, entries: seq<MemmapEntry>, hhdmPage: nat,
                              kernelPage: nat, kernelFrame: nat, n: nat) {
    forall k: nat :: k < KEYS ==>
      Flat(view, root, k) ==
        if Offset(k, kernelPage) < n then KernelEntry(kernelFrame + Offset(k, kernelPage))
        else if Covered(entries, |entries|, Offset(k, hhdmPage)) then KernelEntry(Offset(k, hhdmPage)) else ABSENT
  }

  /** Seen from the page a memory-map entry is mapped at, a page of the direct map lies in the entry's
      range exactly if its frame does, and at the same distance. */
  lemma DirectOffset(k: nat, hhdmPage: nat, frame: nat, n: nat)
    requires k < KEYS && hhdmPage < KEYS && frame + n <= KEYS
    ensures Offset(k, NextKey(hhdmPage, frame)) < n <==> frame <= Offset(k, hhdmPage) < frame + n
    ensures Offset(k, NextKey(hhdmPage, frame)) < n ==>
        frame + Offset(k, NextKey(hhdmPage, frame)) == Offset(k, hhdmPage)
  {
  }

  /** Mapping one more memory-map entry extends the direct map by that entry, whatever it overlaps. */
  lemma DirectMapExtends(s: State, s': State, root: nat, entries: seq<MemmapEntry>, i: nat, hhdmPage: nat, first: nat,
                         e: MemmapEntry)
    requires IsRoot(s.places, root) && i < |entries| && hhdmPage < KEYS
    requires e == entries[i].SkipPageZero() && e.End() <= TWO_TO_THE_48
    requires first == NextKey(hhdmPage, e.base / PAGE_SIZE)
    requires DirectMap(s.view, root, entries, i, hhdmPage)
    requires FlatRange(s.view, s'.view, s.places, root, first, e.base / PAGE_SIZE, PageCount(e.length),
        VMM_PRESENT + VMM_RWX)
    ensures DirectMap(s'.view, root, entries, i + 1, hhdmPage)
  {
    forall k: nat | k < KEYS
      ensures Flat(s'.view, root, k) ==
              if Covered(entries, i + 1, Offset(k, hhdmPage)) then KernelEntry(Offset(k, hhdmPage)) else ABSENT
    {
      DirectOffset(k, hhdmPage, e.base / PAGE_SIZE, PageCount(e.length));
      CoveredNext(entries, i, Offset(k, hhdmPage));
    }
  }

  lemma CoveredNext(entries: seq<MemmapEntry>, i: nat, f: nat)
    requires i < |entries|
    ensures Covered(entries, i + 1, f) <==> Covered(entries, i, f) || EntryCovers(entries[i], f)
  {
  }

  /** Mapping the kernel over the direct map. */
  lemma KernelOverDirectMap(s: State, s': State, root: nat, entries: seq<MemmapEntry>, hhdmPage: nat,
                            kernelPage: nat, kernelFrame: nat, n: nat)
    requires IsRoot(s.places, root) && DirectMap(s.view, root, entries, |entries|, hhdmPage)
    requires FlatRange(s.view, s'.view, s.places, root, kernelPage, kernelFrame, n, VMM_PRESENT + VMM_RWX)
    ensures KernelSpace(s'.view, root, entries, hhdmPage, kernelPage, kernelFrame, n)
  {
  }

  lemma HhdmPage(base: nat, hhdm: nat)
    requires hhdm % PAGE_SIZE == 0
    ensures Key((base + hhdm) % TWO_TO_THE_64) == NextKey(Key(hhdm), base / PAGE_SIZE)
  {
    WrapPages(base + hhdm);
    assert (base + hhdm) / PAGE_SIZE == hhdm / PAGE_SIZE + base / PAGE_SIZE;
    WrapSum(hhdm / PAGE_SIZE, base / PAGE_SIZE);
  }

  // ----- What the kernel's address space means -----

  /** A page of the direct map translates to its address less the offset: for every address v outside
      the kernel's window that translates at all, the physical address plus the offset is v again. */
  lemma DirectMapIsLinear(view: View, root: nat, entries: seq<MemmapEntry>, hhdm: nat,
                          kernelPage: nat, kernelFrame: nat, n: nat, v: nat)
    requires KernelSpace(view, root, entries, Key(hhdm), kernelPage, kernelFrame, n)
    requires hhdm % PAGE_SIZE == 0 && Offset(Key(v), kernelPage) >= n
    ensures var e := Flat(view, root, Key(v));
            e.present ==> (e.addr * PAGE_SIZE + v % PAGE_SIZE + hhdm) % TWO_TO_THE_48 == v % TWO_TO_THE_48
  {
    var f := Offset(Key(v), Key(hhdm));
    assert Flat(view, root, Key(v)).present ==> Flat(view, root, Key(v)).addr == f;
    OffsetAddress(v, hhdm);
  }

  lemma OffsetAddress(v: nat, hhdm: nat)
    requires hhdm % PAGE_SIZE == 0
    ensures (Offset(Key(v), Key(hhdm)) * PAGE_SIZE + v % PAGE_SIZE + hhdm) % TWO_TO_THE_48 == v % TWO_TO_THE_48
  {
    var p, h := v / PAGE_SIZE, hhdm / PAGE_SIZE;
    var f := Offset(p % KEYS, h % KEYS);
    var q := (f + h - p) / KEYS;
    OffsetSum(p, h);
    assert f + h == p + KEYS * q;
    assert f * PAGE_SIZE + v % PAGE_SIZE + hhdm == v + TWO_TO_THE_48 * q;
    WholeTurns(v, q);
  }

  lemma WholeTurns(v: int, q: int)
    ensures (v + TWO_TO_THE_48 * q) % TWO_TO_THE_48 == v % TWO_TO_THE_48
  {
  }

  lemma OffsetSum(p: nat, h: nat)
    ensures (Offset(p % KEYS, h % KEYS) + h - p) % KEYS == 0
  {
  }

  /** Exactly when an entry's pages take in all of its bytes: the last partial page is lost when the
      entry begins further into a page than its length leaves room for. */
  lemma EntryFullyCovered(e: MemmapEntry)
    requires e.base != 0
    ensures (forall a: nat :: e.base <= a < e.End() ==> EntryCovers(e, a / PAGE_SIZE)) <==>
            e.length == 0 || e.base % PAGE_SIZE + e.length <= PageCount(e.length) * PAGE_SIZE
  {
    if 0 < e.length {
      var last := e.End() - 1;
      assert EntryCovers(e, last / PAGE_SIZE) <==> last / PAGE_SIZE < e.base / PAGE_SIZE + PageCount(e.length);
      forall a: nat | e.base <= a < e.End() && EntryCovers(e, last / PAGE_SIZE)
        ensures EntryCovers(e, a / PAGE_SIZE)
      {
        assert a / PAGE_SIZE <= last / PAGE_SIZE;
      }
    }
  }

  /** Every byte of a page-aligned entry, page 0 apart, is mapped in the direct map. */
  lemma AlignedEntryIsMapped(view: View, root: nat, entries: seq<MemmapEntry>, hhdm: nat,
                             kernelPage: nat, kernelFrame: nat, n: nat, i: nat, a: nat)
    requires KernelSpace(view, root, entries, Key(hhdm), kernelPage, kernelFrame, n) && hhdm % PAGE_SIZE == 0
    requires i < |entries| && entries[i].base % PAGE_SIZE == 0
        && entries[i].base <= a < entries[i].End() <= TWO_TO_THE_48
    requires PAGE_SIZE <= a && Offset(Key((a + hhdm) % TWO_TO_THE_64), kernelPage) >= n
    ensures Flat(view, root, Key((a + hhdm) % TWO_TO_THE_64)) == KernelEntry(a / PAGE_SIZE)
  {
    HhdmPage(a, hhdm);
    var k := Key((a + hhdm) % TWO_TO_THE_64);
    DirectOffset(k, Key(hhdm), a / PAGE_SIZE, 1);
    assert Offset(k, NextKey(Key(hhdm), a / PAGE_SIZE)) == 0;
    assert EntryCovers(entries[i], a / PAGE_SIZE);
  }

  /** With page-aligned bases, every byte of the kernel image is mapped where it was loaded. */
  lemma KernelIsMapped(view: View, root: nat, entries: seq<MemmapEntry>, hhdmPage: nat,
                       physBase: nat, virtBase: nat, size: nat, d: nat)
    requires KernelSpace(view, root, entries, hhdmPage, Key(virtBase), physBase / PAGE_SIZE, PageCount(size))
    requires physBase % PAGE_SIZE == 0 && virtBase % PAGE_SIZE == 0 && d < size <= TWO_TO_THE_48
    ensures Flat(view, root, Key(virtBase + d)) == KernelEntry((physBase + d) / PAGE_SIZE)
  {
    var j := d / PAGE_SIZE;
    assert (virtBase + d) / PAGE_SIZE == virtBase / PAGE_SIZE + j
        && (physBase + d) / PAGE_SIZE == physBase / PAGE_SIZE + j;
    WrapSum(virtBase / PAGE_SIZE, j);
    OffsetIs(Key(virtBase + d), Key(virtBase), j);
  }

  // ----- The operations -----

  class Vmm {
    const tables: PageTables
    var kernelPT: nat

    constructor (tables: PageTables)
      ensures this.tables == tables
    {
      this.tables := tables;
      kernelPT := 0;
    }

    /** Maps ceil(size / 4096) consecutive pages to as many consecutive frames. */
    method MapRange(pt: nat, physAddr: nat, virtAddr: nat, size: nat, flags: int) returns (ok: bool)
      requires tables.Valid() && IsRoot(tables.places, pt) && size <= TWO_TO_THE_64 - PAGE_SIZE
      modifies tables, tables.pmm`held, tables.pmm.mem
      ensures tables.Valid() && TablesAdded(old(tables.Now()), tables.Now(), tables.pmm.reserved)
      ensures !ok ==> tables.Full()
      ensures ok && size <= TWO_TO_THE_48 ==>
          RangeMapped(old(tables.Now()), tables.Now(), tables.pmm.reserved, pt, Key(virtAddr), physAddr / PAGE_SIZE,
              PageCount(size), flags)
    {
      hide Tracks, Stored, Owned, Flat;
      var i := 0;
      ghost var n := 0;
      while i < size
        invariant i == PAGE_SIZE * n && n <= PageCount(size)
        invariant tables.Valid() && TablesAdded(old(tables.Now()), tables.Now(), tables.pmm.reserved)
        invariant size <= TWO_TO_THE_48 ==>
            RangeMapped(old(tables.Now()), tables.Now(), tables.pmm.reserved, pt, Key(virtAddr), physAddr / PAGE_SIZE,
                n, flags)
      {
        ok := MapNext(pt, physAddr, virtAddr, i, flags, old(tables.Now()), n, size);
        if !ok {
          return;
        }
        i, n := i + PAGE_SIZE, n + 1;
      }
      return true;
    }

    /** The 64-bit sum of an address and the loop counter: the address of page n of the range. */
    method Advance(a: nat, i: nat, ghost n: nat) returns (r: nat)
      requires i == PAGE_SIZE * n
      ensures Key(r) == NextKey(Key(a), n) && SameFrame(r / PAGE_SIZE, a / PAGE_SIZE + n)
    {
      RangeStep(a, n, i);
      r := (a + i) % TWO_TO_THE_64;
    }

    /** One iteration of the range loop. */
    method MapNext(pt: nat, physAddr: nat, virtAddr: nat, i: nat, flags: int, ghost s: State, ghost n: nat,
                   ghost size: nat) returns (ok: bool)
      requires tables.Valid() && IsRoot(s.places, pt) && s.places.Keys <= s.held && i == PAGE_SIZE * n && i < size
      requires TablesAdded(s, tables.Now(), tables.pmm.reserved)
      requires size <= TWO_TO_THE_48 ==>
          RangeMapped(s, tables.Now(), tables.pmm.reserved, pt, Key(virtAddr), physAddr / PAGE_SIZE, n, flags)
      modifies tables, tables.pmm`held, tables.pmm.mem
      ensures tables.Valid() && TablesAdded(s, tables.Now(), tables.pmm.reserved)
      ensures !ok ==> tables.Full()
      ensures ok && size <= TWO_TO_THE_48 ==>
          RangeMapped(s, tables.Now(), tables.pmm.reserved, pt, Key(virtAddr), physAddr / PAGE_SIZE, n + 1, flags)
    {
      hide Tracks, Stored, Owned, Flat;
      ghost var s1 := tables.Now();
      var p := Advance(physAddr, i, n);
      var v := Advance(virtAddr, i, n);
      ok := tables.Map(pt, p, v, flags);
      TablesAddedTransitive(s, s1, tables.Now(), tables.pmm.reserved);
      if ok && size <= TWO_TO_THE_48 {
        RangeExtendsAt(s, s1, tables.Now(), tables.pmm.reserved, pt, Key(virtAddr), physAddr, n, flags, Key(v), p);
      }
    }

    /** Builds the kernel's address space: every memory-map entry, page 0 left out, in the direct map
        at offset hhdm, and then the kernel image. */
    method Init(entries: seq<MemmapEntry>, hhdm: nat, physBase: nat, virtBase: nat, size: nat) returns (ok: bool)
      requires tables.Valid() && hhdm % PAGE_SIZE == 0 && size <= TWO_TO_THE_48
      requires forall i :: 0 <= i < |entries| ==> entries[i].SkipPageZero().End() <= TWO_TO_THE_48
      modifies this, tables, tables.pmm`held, tables.pmm.mem
      ensures tables.Valid()
      ensures !ok ==> tables.Full()
      ensures Spare(tables.Now()) == old(Spare(tables.Now()))
      ensures ok ==> IsRoot(tables.places, kernelPT) && kernelPT !in old(tables.pmm.held)
      ensures ok ==> KernelSpace(tables.view, kernelPT, entries, Key(hhdm), Key(virtBase), physBase / PAGE_SIZE,
          PageCount(size))
    {
      hide Tracks, Stored, Owned, Flat, KernelSpace, DirectMap, FlatRange;
      var pt := tables.NewPt();
      if pt.None? {
        return false;
      }
      kernelPT := pt.value;
      ok := MapEntries(entries, hhdm);
      if ok {
        ghost var s1 := tables.Now();
        ok := MapRange(kernelPT, physBase, virtBase, size, VMM_PRESENT + VMM_RWX);
        TablesAddedSpare(s1, tables.Now(), tables.pmm.reserved);
        if ok {
          KernelOverDirectMap(s1, tables.Now(), kernelPT, entries, Key(hhdm), Key(virtBase), physBase / PAGE_SIZE,
              PageCount(size));
        }
      }
    }

    method MapEntries(entries: seq<MemmapEntry>, hhdm: nat) returns (ok: bool)
      requires tables.Valid() && IsRoot(tables.places, kernelPT) && hhdm % PAGE_SIZE == 0
      requires forall k: nat :: k < KEYS ==> Flat(tables.view, kernelPT, k) == ABSENT
      requires forall i :: 0 <= i < |entries| ==> entries[i].SkipPageZero().End() <= TWO_TO_THE_48
      modifies tables, tables.pmm`held, tables.pmm.mem
      ensures tables.Valid() && IsRoot(tables.places, kernelPT) && Spare(tables.Now()) == old(Spare(tables.Now()))
      ensures !ok ==> tables.Full()
      ensures ok ==> DirectMap(tables.view, kernelPT, entries, |entries|, Key(hhdm))
    {
      var i := 0;
      while i < |entries|
        invariant 0 <= i <= |entries|
        invariant tables.Valid() && IsRoot(tables.places, kernelPT)
        invariant Spare(tables.Now()) == old(Spare(tables.Now()))
        invariant DirectMap(tables.view, kernelPT, entries, i, Key(hhdm))
      {
        ok := MapEntry(entries, hhdm, i);
        if !ok {
          return;
        }
        i := i + 1;
      }
      return true;
    }

    /** One iteration of the memory-map loop. */
    method MapEntry(entries: seq<MemmapEntry>, hhdm: nat, i: nat) returns (ok: bool)
      requires tables.Valid() && IsRoot(tables.places, kernelPT) && hhdm % PAGE_SIZE == 0
      requires i < |entries| && entries[i].SkipPageZero().End() <= TWO_TO_THE_48
      requires DirectMap(tables.view, kernelPT, entries, i, Key(hhdm))
      modifies tables, tables.pmm`held, tables.pmm.mem
      ensures tables.Valid() && IsRoot(tables.places, kernelPT) && Spare(tables.Now()) == old(Spare(tables.Now()))
      ensures !ok ==> tables.Full()
      ensures ok ==> DirectMap(tables.view, kernelPT, entries, i + 1, Key(hhdm))
    {
      var entry := entries[i].SkipPageZero();
      ghost var s := tables.Now();
      var virt := HhdmAddress(entry.base, hhdm);
      ok := MapRange(kernelPT, entry.base, virt, entry.length, VMM_PRESENT + VMM_RWX);
      TablesAddedSpare(s, tables.Now(), tables.pmm.reserved);
      if ok {
        assert entry.length <= TWO_TO_THE_48;
        DirectMapExtends(s, tables.Now(), kernelPT, entries, i, Key(hhdm), Key(virt), entry);
      }
    }

    method HhdmAddress(base: nat, hhdm: nat) returns (virt: nat)
      requires hhdm % PAGE_SIZE == 0
      ensures Key(virt) == NextKey(Key(hhdm), base / PAGE_SIZE)
    {
      HhdmPage(base, hhdm);
      virt := (base + hhdm) % TWO_TO_THE_64;
    }
  }
}
