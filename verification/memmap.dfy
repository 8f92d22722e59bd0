/** The boot loader's memory map, and the two searches pmm_init makes in it. */
module BootMemory {
  import opened Wrappers
  import opened Memory

  const USABLE: nat := 1

  datatype MemmapEntry = MemmapEntry(base: nat, length: nat, kind: nat) {
    function End(): nat {
      base + length
    }

    /** The page after the last one of the entry, as the source computes it. */
    function LastPage(): (r: nat)
      ensures base / PAGE_SIZE <= r
    {
      End() / PAGE_SIZE
    }

    /** The entry without page 0. */
    function SkipPageZero(): MemmapEntry {
      if base != 0 then this
      else MemmapEntry(PAGE_SIZE, if length >= PAGE_SIZE then length - PAGE_SIZE else 0, kind)
    }
  }

  /** What the Limine Boot Protocol's Memory Map Feature guarantees: entries sorted by base, usable
      entries page-aligned, inside memory, and overlapping no other entry. */
  ghost predicate BootGuarantees(entries: seq<MemmapEntry>, limit: nat) {
    && (forall i, j :: 0 <= i < j < |entries| ==> entries[i].base <= entries[j].base)
    && (forall i, j :: 0 <= i < j < |entries| && (entries[i].kind == USABLE || entries[j].kind == USABLE) ==>
          entries[i].End() <= entries[j].base)
    && (forall i :: 0 <= i < |entries| && entries[i].kind == USABLE ==>
          entries[i].base % PAGE_SIZE == 0 && entries[i].length % PAGE_SIZE == 0 && entries[i].End() <= limit)
  }

  ghost predicate UsablePage(entries: seq<MemmapEntry>, p: nat) {
    exists i :: 0 <= i < |entries| && InUsable(entries[i], p)
  }

  predicate InUsable(e: MemmapEntry, p: nat) {
    e.kind == USABLE && e.base / PAGE_SIZE <= p < e.LastPage()
  }

  lemma UsablePageSnoc(entries: seq<MemmapEntry>, i: nat)
    requires i < |entries|
    ensures forall p: nat :: UsablePage(entries[..i + 1], p) <==> UsablePage(entries[..i], p) || InUsable(entries[i], p)
    ensures forall p: nat :: InUsable(entries[i], p) ==> UsablePage(entries, p)
  {
  }

  // ----- The last tracked page -----

  /** The end, in pages, of the last usable entry at an index in 1..i, or 0. */
  function LastUsableUpTo(entries: seq<MemmapEntry>, i: nat): nat
    requires i < |entries|
  {
    if i == 0 then 0
    else if entries[i].kind == USABLE then entries[i].LastPage()
    else LastUsableUpTo(entries, i - 1)
  }

  /** The source never looks at entry 0. */
  function LastTrackedPage(entries: seq<MemmapEntry>): nat {
    if |entries| == 0 then 0 else LastUsableUpTo(entries, |entries| - 1)
  }

  function BitmapBytes(entries: seq<MemmapEntry>): nat {
    AlignUp(LastTrackedPage(entries), 8) / 8
  }

  method FindLastTrackedPage(entries: seq<MemmapEntry>) returns (r: nat)
    requires |entries| > 0
    ensures r == LastTrackedPage(entries)
  {
    var i := |entries| - 1;
    while i > 0
      invariant 0 <= i < |entries|
      invariant LastUsableUpTo(entries, i) == LastTrackedPage(entries)
    {
      if entries[i].kind == USABLE {
        return (entries[i].base + entries[i].length) / PAGE_SIZE;
      }
      i := i - 1;
    }
    return 0;
  }

  /** Some usable entry other than entry 0 is not empty. */
  ghost predicate UsableBeyondFirst(entries: seq<MemmapEntry>) {
    exists i: nat :: 1 <= i < |entries| && entries[i].kind == USABLE && 0 < entries[i].End()
  }

  lemma {:induction false} LastUsablePositive(entries: seq<MemmapEntry>, limit: nat, i: nat)
    requires BootGuarantees(entries, limit) && i < |entries|
    ensures 0 < LastUsableUpTo(entries, i) <==>
            exists k: nat :: 1 <= k <= i && entries[k].kind == USABLE && 0 < entries[k].End()
  {
    if i > 0 && entries[i].kind != USABLE {
      LastUsablePositive(entries, limit, i - 1);
    } else if i > 0 && entries[i].End() == 0 {
      forall k: nat | 1 <= k < i && entries[k].kind == USABLE
        ensures entries[k].End() == 0
      {
      }
    }
  }

  /** What the search for the last tracked page depends on, in terms of the map: entry 0 does not count. */
  lemma TracksSomething(entries: seq<MemmapEntry>, limit: nat)
    requires BootGuarantees(entries, limit)
    ensures 0 < LastTrackedPage(entries) <==> UsableBeyondFirst(entries)
  {
    if |entries| > 0 {
      LastUsablePositive(entries, limit, |entries| - 1);
    }
  }

  /** When the last tracked page is not 0, every usable page is below it, entry 0 included. */
  lemma {:induction false} TracksEveryUsablePage(entries: seq<MemmapEntry>, limit: nat, i: nat, k: nat, p: nat)
    requires BootGuarantees(entries, limit) && k <= i < |entries|
    requires 0 < LastUsableUpTo(entries, i) && InUsable(entries[k], p)
    ensures p < LastUsableUpTo(entries, i)
  {
    if k < i && entries[i].kind != USABLE {
      TracksEveryUsablePage(entries, limit, i - 1, k, p);
    } else if k < i {
      assert entries[k].End() <= entries[i].base;
    }
  }

  lemma UsablePagesAreTracked(entries: seq<MemmapEntry>, limit: nat)
    requires BootGuarantees(entries, limit) && 0 < LastTrackedPage(entries)
    ensures forall p: nat :: UsablePage(entries, p) ==> p < LastTrackedPage(entries) <= 8 * BitmapBytes(entries)
  {
    forall p: nat | UsablePage(entries, p)
      ensures p < LastTrackedPage(entries)
    {
      var k :| 0 <= k < |entries| && InUsable(entries[k], p);
      TracksEveryUsablePage(entries, limit, |entries| - 1, k, p);
    }
  }

  // ----- Where the bitmap goes -----

  predicate Fits(e: MemmapEntry, size: nat) {
    e.kind == USABLE && size <= e.SkipPageZero().length
  }

  ghost predicate HasRoom(entries: seq<MemmapEntry>, size: nat) {
    exists i :: 0 <= i < |entries| && Fits(entries[i], size)
  }

  ghost predicate FirstFitting(entries: seq<MemmapEntry>, size: nat, i: nat) {
    i < |entries| && Fits(entries[i], size) && forall k :: 0 <= k < i ==> !Fits(entries[k], size)
  }

  /** Address a is where the bitmap goes: the start of the first usable entry, less page 0, with
      room for `size` bytes. */
  ghost predicate Placement(entries: seq<MemmapEntry>, size: nat, a: nat) {
    exists i: nat :: FirstFitting(entries, size, i) && a == entries[i].SkipPageZero().base
  }

  method PlaceBitmap(entries: seq<MemmapEntry>, size: nat) returns (r: Option<nat>)
    ensures r.Some? <==> HasRoom(entries, size)
    ensures r.Some? ==> Placement(entries, size, r.value)
  {
    var i := 0;
    while i < |entries|
      invariant 0 <= i <= |entries|
      invariant forall k :: 0 <= k < i ==> !Fits(entries[k], size)
    {
      var entry := entries[i];
      if entry.kind == USABLE {
        if entry.base == 0 {
          var length := if entry.length >= PAGE_SIZE then entry.length - PAGE_SIZE else 0;
          entry := entry.(base := PAGE_SIZE, length := length);
        }
        if entry.length >= size {
          assert FirstFitting(entries, size, i);
          return Some(entry.base);
        }
      }
      i := i + 1;
    }
    return None;
  }

  // ----- The same in plain numbers -----

  /** Entry i is the last usable one. */
  ghost predicate LastUsable(entries: seq<MemmapEntry>, i: nat) {
    i < |entries| && entries[i].kind == 1 && forall j: nat :: i < j < |entries| ==> entries[j].kind != 1
  }

  /** `size` bytes, and not one less, have a bit for every page below the end of the last usable entry,
      which is not entry 0. */
  ghost predicate RightSize(entries: seq<MemmapEntry>, size: nat) {
    && 0 < size
    && exists i: nat :: 1 <= i < |entries| && LastUsable(entries, i)
         && 8 * (size - 1) < (entries[i].base + entries[i].length) / 0x1000 <= 8 * size
  }

  /** The entry is usable and has room for `size` bytes from address a on, its start but for page 0. */
  ghost predicate RoomAt(e: MemmapEntry, size: nat, a: nat) {
    e.kind == 1 && if e.base == 0 then a == 0x1000 && 0x1000 + size <= e.length else a == e.base && size <= e.length
  }

  /** The first entry with room has it at a. */
  ghost predicate RightPlace(entries: seq<MemmapEntry>, size: nat, a: nat) {
    exists i: nat :: i < |entries| && RoomAt(entries[i], size, a) && NoRoomBefore(entries, size, i)
  }

  ghost predicate NoRoomBefore(entries: seq<MemmapEntry>, size: nat, i: nat) {
    forall k: nat, a: nat :: k < i && k < |entries| ==> !RoomAt(entries[k], size, a)
  }

  /** Page p is whole in a usable entry. */
  ghost predicate WholeUsable(entries: seq<MemmapEntry>, p: nat) {
    exists i: nat :: i < |entries| && HoldsPage(entries[i], p)
  }

  ghost predicate HoldsPage(e: MemmapEntry, p: nat) {
    e.kind == 1 && e.base <= 0x1000 * p && 0x1000 * p + 0x1000 <= e.base + e.length
  }

  lemma {:induction false} LastUsableIs(entries: seq<MemmapEntry>, i: nat, k: nat)
    requires LastUsable(entries, i) && 1 <= i <= k < |entries|
    ensures LastUsableUpTo(entries, k) == (entries[i].base + entries[i].length) / 0x1000
  {
    if i < k {
      LastUsableIs(entries, i, k - 1);
    }
  }

  lemma {:induction false} LastUsableExists(entries: seq<MemmapEntry>, k: nat)
    requires k < |entries| && 0 < LastUsableUpTo(entries, k)
    requires forall j: nat :: k < j < |entries| ==> entries[j].kind != 1
    ensures exists i: nat :: 1 <= i <= k && LastUsable(entries, i)
  {
    if entries[k].kind == USABLE {
      assert LastUsable(entries, k);
    } else {
      LastUsableExists(entries, k - 1);
    }
  }

  /** The bitmap is as large as it has to be. */
  lemma SizeIsRight(entries: seq<MemmapEntry>, size: nat)
    ensures RightSize(entries, size) <==> 0 < size && size == BitmapBytes(entries)
  {
    if RightSize(entries, size) {
      var i: nat :| 1 <= i < |entries| && LastUsable(entries, i)
        && 8 * (size - 1) < (entries[i].base + entries[i].length) / 0x1000 <= 8 * size;
      LastUsableIs(entries, i, |entries| - 1);
    } else if 0 < size && size == BitmapBytes(entries) {
      LastUsableExists(entries, |entries| - 1);
      var i: nat :| 1 <= i < |entries| && LastUsable(entries, i);
      LastUsableIs(entries, i, |entries| - 1);
    }
  }

  lemma RoomIsFits(e: MemmapEntry, size: nat, a: nat)
    requires 0 < size
    ensures RoomAt(e, size, a) <==> Fits(e, size) && a == e.SkipPageZero().base
  {
  }

  /** The bitmap goes where it has to go. */
  lemma PlaceIsRight(entries: seq<MemmapEntry>, size: nat, a: nat)
    requires 0 < size
    ensures RightPlace(entries, size, a) <==> Placement(entries, size, a)
    ensures HasRoom(entries, size) <==> exists b: nat :: RightPlace(entries, size, b)
  {
    hide RoomAt, Fits;
    forall k: nat, b: nat | k < |entries|
      ensures RoomAt(entries[k], size, b) <==> Fits(entries[k], size) && b == entries[k].SkipPageZero().base
    {
      RoomIsFits(entries[k], size, b);
    }
    forall b: nat
      ensures RightPlace(entries, size, b) <==> Placement(entries, size, b)
    {
      PlacesAgree(entries, size, b);
    }
    if HasRoom(entries, size) {
      FirstFittingExists(entries, size, 0);
      var i: nat :| FirstFitting(entries, size, i);
      assert Placement(entries, size, entries[i].SkipPageZero().base);
    }
  }

  lemma PlacesAgree(entries: seq<MemmapEntry>, size: nat, a: nat)
    requires 0 < size
    requires forall k: nat, b: nat :: k < |entries| ==>
        (RoomAt(entries[k], size, b) <==> Fits(entries[k], size) && b == entries[k].SkipPageZero().base)
    ensures RightPlace(entries, size, a) <==> Placement(entries, size, a)
  {
    hide RoomAt, Fits;
    forall i: nat | i < |entries|
      ensures NoRoomBefore(entries, size, i) <==> forall k :: 0 <= k < i ==> !Fits(entries[k], size)
    {
      forall k: nat | k < i && NoRoomBefore(entries, size, i)
        ensures !Fits(entries[k], size)
      {
        assert !RoomAt(entries[k], size, entries[k].SkipPageZero().base);
      }
    }
  }

  lemma {:induction false} FirstFittingExists(entries: seq<MemmapEntry>, size: nat, k: nat)
    requires k <= |entries| && (forall j :: 0 <= j < k ==> !Fits(entries[j], size)) && HasRoom(entries, size)
    ensures exists i: nat :: FirstFitting(entries, size, i)
    decreases |entries| - k
  {
    if k < |entries| && !Fits(entries[k], size) {
      FirstFittingExists(entries, size, k + 1);
    } else if k < |entries| {
      assert FirstFitting(entries, size, k);
    }
  }

  ghost predicate RightBitmap(entries: seq<MemmapEntry>, size: nat, a: nat) {
    RightSize(entries, size) && RightPlace(entries, size, a)
  }

  /** There is such a bitmap exactly when the two searches succeed. */
  lemma BitmapExists(entries: seq<MemmapEntry>, limit: nat)
    requires BootGuarantees(entries, limit)
    ensures UsableBeyondFirst(entries) && HasRoom(entries, BitmapBytes(entries)) <==>
            exists size: nat, a: nat :: RightBitmap(entries, size, a)
  {
    hide RightSize, RightPlace, HasRoom, UsableBeyondFirst, BootGuarantees, LastTrackedPage;
    TracksSomething(entries, limit);
    var n := BitmapBytes(entries);
    SizeIsRight(entries, n);
    if 0 < n {
      PlaceIsRight(entries, n, 0);
      if b: nat :| RightPlace(entries, n, b) {
        assert RightBitmap(entries, n, b);
      }
    }
    forall size: nat, a: nat | RightBitmap(entries, size, a)
      ensures size == n
    {
      SizeIsRight(entries, size);
    }
  }

  /** Usable pages are the whole pages of usable entries. */
  lemma UsableIsWhole(entries: seq<MemmapEntry>, limit: nat, p: nat)
    requires BootGuarantees(entries, limit)
    ensures UsablePage(entries, p) <==> WholeUsable(entries, p)
  {
    hide InUsable, HoldsPage;
    forall i: nat | i < |entries|
      ensures InUsable(entries[i], p) <==> HoldsPage(entries[i], p)
    {
      PageIsWhole(entries[i], p);
    }
  }

  lemma PageIsWhole(e: MemmapEntry, p: nat)
    requires e.kind == USABLE ==> e.base % PAGE_SIZE == 0 && e.length % PAGE_SIZE == 0
    ensures InUsable(e, p) <==> HoldsPage(e, p)
  {
  }

  /** A placed bitmap is page-aligned and lies, with all the pages it touches, in usable memory
      other than page 0. */
  lemma PlacedInMemory(entries: seq<MemmapEntry>, limit: nat, bitmap: nat, size: nat)
    requires BootGuarantees(entries, limit) && Placement(entries, size, bitmap) && 0 < size
    ensures bitmap % PAGE_SIZE == 0 && 0 < bitmap && bitmap + AlignUp(size, PAGE_SIZE) <= limit
    ensures forall p: nat :: bitmap / PAGE_SIZE <= p < bitmap / PAGE_SIZE + AlignUp(size, PAGE_SIZE) / PAGE_SIZE ==>
        UsablePage(entries, p) && p != 0
  {
    var i: nat :| FirstFitting(entries, size, i) && bitmap == entries[i].SkipPageZero().base;
    assert bitmap + AlignUp(size, PAGE_SIZE) <= entries[i].End();
    forall p: nat | bitmap / PAGE_SIZE <= p < bitmap / PAGE_SIZE + AlignUp(size, PAGE_SIZE) / PAGE_SIZE
      ensures UsablePage(entries, p)
    {
      assert InUsable(entries[i], p);
    }
  }

  lemma PlacedInTracked(entries: seq<MemmapEntry>, limit: nat, bitmap: nat, size: nat)
    requires BootGuarantees(entries, limit) && 0 < LastTrackedPage(entries)
    requires size == BitmapBytes(entries) && Placement(entries, size, bitmap)
    ensures bitmap / PAGE_SIZE + AlignUp(size, PAGE_SIZE) / PAGE_SIZE <= 8 * size
  {
    PlacedInMemory(entries, limit, bitmap, size);
    UsablePagesAreTracked(entries, limit);
    assert UsablePage(entries, bitmap / PAGE_SIZE + AlignUp(size, PAGE_SIZE) / PAGE_SIZE - 1);
  }

  /** Usable pages lie in memory. */
  lemma UsableInMemory(entries: seq<MemmapEntry>, limit: nat, p: nat)
    requires BootGuarantees(entries, limit) && UsablePage(entries, p)
    ensures (p + 1) * PAGE_SIZE <= limit
  {
  }
}
