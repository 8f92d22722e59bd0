/** What the processor makes of the page tables in memory. */
module Hardware {
  import opened Wrappers
  import opened Memory
  import opened PhysicalPages
  import opened PageTableEntry
  import opened TableTree
  import opened PageTables

  /** A translation as section 4.5 of the Intel SDM, volume 3A, defines it for 4-level paging, with
      the access rights combined over the levels as in section 4.6. */
  datatype Translation = Translation(frame: nat, writable: bool, user: bool, executable: bool)

  /** The page walk for virtual address v through memory, from the table in frame t at the given level,
      with the rights of the levels above, for a processor that can address `frames` frames. None is a
      page fault, or a large page. An entry is the eight bytes at the place the address names in the
      table: bit 0 is present, bit 1 writable, bit 2 user, bit 7 large page, bits 12 to 51 the frame, and
      bit 63 not executable. A frame beyond the processor's reach sets reserved bits and makes the walk
      fail; bits 52 to 62 are ignored, protection keys being off. */
  ghost function HardwareWalk(m: Bytes, frames: nat, t: nat, v: nat, level: nat, w: bool, u: bool, x: bool):
      Option<Translation>
    requires 1 <= level <= 4
    decreases level
  {
    if (t + 1) * 0x1000 > |m| then None
    else
      var e := Word(m, 0x1000 * t + 8 * AddressBits(v, level));
      var f := e / 0x1000 % 0x100_0000_0000;
      var w', u' := w && e / 2 % 2 == 1, u && e / 4 % 2 == 1;
      var x' := x && e / 0x8000_0000_0000_0000 % 2 == 0;
      if e % 2 == 0 || f >= frames then None
      else if level == 1 then Some(Translation(f, w', u', x'))
      else if e / 0x80 % 2 == 1 then None
      else HardwareWalk(m, frames, f, v, level - 1, w', u', x')
  }

  // ----- The same in terms of entries -----

  /** One more than the largest frame number in bits 12 to 51 of an entry. */
  const FRAME_FIELD: nat := 0x100_0000_0000

  ghost function FrameOf(e: Entry, frames: nat): Option<nat> {
    if e.addr % FRAME_FIELD < frames then Some(e.addr % FRAME_FIELD) else None
  }

  /** What a leaf entry grants: the frame it names, with exactly the rights it states. */
  ghost function LeafTranslation(e: Entry, frames: nat): Option<Translation> {
    var f := FrameOf(e, frames);
    if e.present && f.Some? then Some(Translation(f.value, e.readWrite, e.userSupervisor, !e.nx)) else None
  }

  /** The bits the processor looks at are those of the entry that the kernel reads there. */
  lemma BitsOfEntry(m: Bytes, t: nat, i: nat)
    requires i < 512 && (t + 1) * PAGE_SIZE <= |m|
    ensures var e, w := EntryAt(m, t, i), Word(m, 0x1000 * t + 8 * i);
            && e.present == (w % 2 == 1) && e.readWrite == (w / 2 % 2 == 1) && e.userSupervisor == (w / 4 % 2 == 1)
            && e.pageSize == (w / 0x80 % 2 == 1) && e.addr % FRAME_FIELD == w / 0x1000 % 0x100_0000_0000
            && e.nx == (w / 0x8000_0000_0000_0000 % 2 == 1)
  {
    hide Decode, Load, Word;
    var a := t * PAGE_SIZE + 8 * i;
    assert a == 0x1000 * t + 8 * i;
    LoadIsWord(m, a);
    DecodeBits(Word(m, a));
    FieldOfField(Word(m, a) / 0x1000);
  }

  lemma TableInReach(m: Bytes, view: View, t: nat, i: nat, frames: nat)
    requires Stored(m, view) && t in view && i < 512 && |m| <= frames * PAGE_SIZE
    ensures (t + 1) * PAGE_SIZE <= |m| && t < frames && t < FRAME_FIELD && EntryAt(m, t, i) == view[t][i]
  {
    assert TableStored(m, t, view[t]);
  }

  lemma InView(view: View, places: Places, t: nat)
    requires Owned(view, places) && t in places
    ensures t in view
  {
  }

  lemma LinkInView(view: View, places: Places, t: nat, i: nat)
    requires Owned(view, places) && t in places && 1 < places[t].level && i < 512 && view[t][i].present
    ensures view[t][i].LinksTo(view[t][i].addr) && view[t][i].addr in view
  {
    assert LinkOk(view, places, t, i);
  }

  /** A present entry above the leaf level names a table the processor can reach, and allows everything. */
  lemma LinkInReach(m: Bytes, frames: nat, view: View, places: Places, t: nat, i: nat)
    requires Stored(m, view) && Owned(view, places) && |m| <= frames * PAGE_SIZE
    requires t in places && 1 < places[t].level && i < 512 && view[t][i].present
    ensures view[t][i].LinksTo(view[t][i].addr) && FrameOf(view[t][i], frames) == Some(view[t][i].addr)
  {
    LinkInView(view, places, t, i);
    hide Stored, Owned, EntryAt, FrameOf;
    TableInReach(m, view, view[t][i].addr, 0, frames);
    FrameInField(view[t][i], frames);
  }

  lemma FrameInField(e: Entry, frames: nat)
    requires e.addr < frames && e.addr < FRAME_FIELD
    ensures FrameOf(e, frames) == Some(e.addr)
  {
  }

  /** One step of the processor's walk. */
  lemma HardwareStep(m: Bytes, frames: nat, view: View, t: nat, v: nat, level: nat)
    requires Stored(m, view) && t in view && 1 <= level <= 4 && |m| <= frames * PAGE_SIZE
    ensures var e := view[t][Index(Key(v), level)];
            HardwareWalk(m, frames, t, v, level, true, true, true) ==
            if level == 1 then LeafTranslation(e, frames)
            else if !e.present || e.pageSize || FrameOf(e, frames).None? then None
            else HardwareWalk(m, frames, FrameOf(e, frames).value, v, level - 1, e.readWrite, e.userSupervisor, !e.nx)
  {
    hide Stored, EntryAt, Prefix, Word, AddressBits, Index, Key;
    IndexIsAddressBits(v, level);
    TableInReach(m, view, t, Index(Key(v), level), frames);
    BitsOfEntry(m, t, Index(Key(v), level));
  }

  lemma {:induction false} HardwareWalkFrom(m: Bytes, frames: nat, view: View, places: Places, root: nat, v: nat,
                                            level: nat)
    requires Stored(m, view) && Owned(view, places) && IsRoot(places, root) && 1 <= level <= 4
    requires |m| <= frames * PAGE_SIZE && TableAt(view, root, Key(v), level).Some?
    ensures HardwareWalk(m, frames, TableAt(view, root, Key(v), level).value, v, level, true, true, true) ==
            LeafTranslation(Flat(view, root, Key(v)), frames)
    decreases level
  {
    hide Stored, Owned, FrameOf, EntryAt, Index, HardwareWalk, LeafTranslation, Key;
    var key := Key(v);
    var t := TableAt(view, root, key, level).value;
    WalkInTree(view, places, root, key, level);
    InView(view, places, t);
    HardwareStep(m, frames, view, t, v, level);
    if 1 < level {
      if view[t][Index(key, level)].present {
        LinkInReach(m, frames, view, places, t, Index(key, level));
        HardwareWalkFrom(m, frames, view, places, root, v, level - 1);
      } else {
        MissingTableIsAbsent(view, root, key, level - 1);
        AbsentGrantsNothing(frames);
      }
    }
  }

  lemma AbsentGrantsNothing(frames: nat)
    ensures LeafTranslation(ABSENT, frames) == None
  {
  }

  /** The processor grants a page exactly what its leaf entry says: no level above restricts the rights,
      none maps a large page, and every table on the way is where the entry above says. */
  lemma HardwareSeesFlat(m: Bytes, frames: nat, view: View, places: Places, root: nat, v: nat)
    requires Stored(m, view) && Owned(view, places) && IsRoot(places, root) && |m| <= frames * PAGE_SIZE
    ensures HardwareWalk(m, frames, root, v, 4, true, true, true) ==
            LeafTranslation(Flat(view, root, v / 0x1000 % 0x10_0000_0000), frames)
  {
    IndexIsAddressBits(v, 1);
    HardwareWalkFrom(m, frames, view, places, root, v, 4);
  }

  /** A page mapped with flags to the frame of physical address p is granted that frame and exactly
      those rights, if it is mapped present and the processor can address p at all. */
  lemma GrantsRequest(e: Entry, p: nat, flags: int, frames: nat)
    requires p < frames * PAGE_SIZE && frames <= FRAME_FIELD
    ensures LeafTranslation(MappedTo(e, p / PAGE_SIZE, flags), frames) ==
            if flags % 2 == 1 then
              Some(Translation(p / 0x1000, flags / 2 % 2 == 1, flags / 8 % 2 == 1, flags / 4 % 2 == 1))
            else None
  {
    FrameInReach(p, frames);
    assert MappedTo(e, p / PAGE_SIZE, flags).addr == p / PAGE_SIZE % ADDR_LIMIT;
  }

  /** Of any physical address the processor sees the page number modulo 2^40, and refuses those beyond
      its reach. */
  lemma FrameOfMapped(e: Entry, p: nat, flags: int, frames: nat)
    ensures FrameOf(MappedTo(e, p / PAGE_SIZE, flags), frames) ==
            if p / PAGE_SIZE % FRAME_FIELD < frames then Some(p / PAGE_SIZE % FRAME_FIELD) else None
  {
    FieldOfField(p / PAGE_SIZE);
  }

  lemma FrameInReach(p: nat, frames: nat)
    requires p < frames * PAGE_SIZE && frames <= FRAME_FIELD
    ensures 0 <= p / PAGE_SIZE < frames && p / PAGE_SIZE % ADDR_LIMIT == p / PAGE_SIZE == p / PAGE_SIZE % FRAME_FIELD
  {
  }

  lemma FieldOfField(f: nat)
    ensures f % ADDR_LIMIT % FRAME_FIELD == f % FRAME_FIELD
  {
    var q := f / ADDR_LIMIT;
    assert f == FRAME_FIELD * (0x800 * q) + f % ADDR_LIMIT;
    DropTurns(0x800 * q, f % ADDR_LIMIT);
  }

  lemma DropTurns(q: nat, y: nat)
    ensures (FRAME_FIELD * q + y) % FRAME_FIELD == y % FRAME_FIELD
  {
  }

  // ----- Accessed and dirty bits -----

  /** The view after the processor has gone through the entry of the given level on the walk for `key`
      below `root`, if the walk gets there and the entry is present. */
  ghost function AfterAccess(view: View, root: nat, key: nat, level: nat, write: bool): View
    requires 1 <= level <= 4
  {
    var t := TableAt(view, root, key, level);
    if t.Some? && t.value in view && view[t.value][Index(key, level)].present then
      WithEntry(view, t.value, Index(key, level), Accessed(view[t.value][Index(key, level)], write && level == 1))
    else view
  }

  /** The processor's own bits play no part in what an entry grants. */
  lemma AlikeGrantsAlike(e: Entry, f: Entry, frames: nat)
    requires Alike(e, f)
    ensures LeafTranslation(e, frames) == LeafTranslation(f, frames)
  {
  }

  /** The table of the given level on the walk for `key`, as the processor finds it in memory. */
  method WalkTo(tables: PageTables, root: nat, key: nat, level: nat) returns (r: Option<nat>)
    requires tables.Valid() && IsRoot(tables.places, root) && key < KEYS && 1 <= level <= 4
    ensures r == TableAt(tables.view, root, key, level) && (r.Some? ==> r.value in tables.places)
  {
    hide Stored, Tracks, Owned;
    var l := 4;
    r := Some(root);
    while l > level
      invariant level <= l <= 4 && r == TableAt(tables.view, root, key, l) && r.Some?
      decreases l
    {
      WalkInTree(tables.view, tables.places, root, key, l);
      InView(tables.view, tables.places, r.value);
      var e := tables.ReadEntry(r.value, Index(key, l));
      l := l - 1;
      if !e.present {
        NoTableBelow(tables.view, root, key, l, level);
        return None;
      }
      r := Some(e.addr);
    }
    WalkInTree(tables.view, tables.places, root, key, level);
  }

  lemma {:induction false} NoTableBelow(view: View, root: nat, key: nat, level: nat, below: nat)
    requires 1 <= below <= level <= 4 && TableAt(view, root, key, level).None?
    ensures TableAt(view, root, key, below).None?
    decreases level - below
  {
    if below < level {
      NoTableBelow(view, root, key, level - 1, below);
    }
  }

  /** The processor sets the accessed bit of one entry on the walk for `key`, and the dirty bit too if
      it writes through a leaf entry. */
  method Access(tables: PageTables, root: nat, key: nat, level: nat, write: bool)
    requires tables.Valid() && IsRoot(tables.places, root) && key < KEYS && 1 <= level <= 4
    modifies tables`view, tables.pmm.mem
    ensures tables.Valid() && tables.view == AfterAccess(old(tables.view), root, key, level, write)
    ensures forall r: nat, k: nat :: Alike(Flat(tables.view, r, k), Flat(old(tables.view), r, k))
    ensures forall p: nat :: p !in tables.places ==> SamePage(old(tables.pmm.mem[..]), tables.pmm.mem[..], p)
  {
    hide Stored, Tracks, Owned, Flat;
    ghost var view := tables.view;
    var t := WalkTo(tables, root, key, level);
    if t.None? {
      return;
    }
    InView(view, tables.places, t.value);
    var i := Index(key, level);
    var e := tables.ReadEntry(t.value, i);
    if e.present {
      VisitKeepsOwned(view, tables.places, t.value, i, write && level == 1);
      tables.StoreEntry(t.value, i, Accessed(e, write && level == 1));
      forall r: nat, k: nat
        ensures Alike(Flat(tables.view, r, k), Flat(view, r, k))
      {
        VisitKeepsFlat(view, t.value, i, write && level == 1, r, k);
      }
    }
  }
}
