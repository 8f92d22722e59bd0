/** The life of an address space: created, filled with freshly allocated pages in the lower half, and
    destroyed. */
module AddressSpaceLife {
  import opened Memory
  import opened Bitmap
  import opened PhysicalPages
  import opened PageTableEntry
  import opened TableTree
  import opened TreeTeardown
  import opened PageTables

  /** A page to be mapped to a fresh frame. */
  datatype Mapping = Mapping(virtAddr: nat, flags: int)

  /** Present pages of the lower half, no page twice. */
  ghost predicate Mappable(mappings: seq<Mapping>) {
    && (forall i: nat :: i < |mappings| ==> Key(mappings[i].virtAddr) < LOWER_KEYS && Has(mappings[i].flags,
        VMM_PRESENT))
    && (forall i: nat, j: nat :: i < j < |mappings| ==> Key(mappings[i].virtAddr) != Key(mappings[j].virtAddr))
  }

  /** Everything held beyond `held0` is what destroying the address space gives back. */
  ghost predicate Alive(sp: Space, held0: set<nat>) {
    && sp.Sound() && sp.places.Keys <= sp.held && held0 <= sp.held
    && forall x: nat :: x in sp.held ==> (x in held0 <==> !Doomed(sp, x))
  }

  lemma NewSpaceAlive(view: View, places: Places, view': View, places': Places, held0: set<nat>, pt: nat)
    requires Owned(view, places) && places.Keys <= held0 && pt !in held0
    requires Owned(view', places') && places' == places[pt := Place(pt, 4, 0, pt)]
    requires forall key: nat :: key < KEYS ==> Flat(view', pt, key) == ABSENT
    ensures Alive(Space(view', places', held0 + {pt}, pt), held0)
  {
    var sp := Space(view', places', held0 + {pt}, pt);
    forall x: nat | x in held0
      ensures !Doomed(sp, x)
    {
      if x in places && places[x].root == pt {
        OwnRoot(view, places, x);
      }
    }
  }

  /** The root of a table is a table. */
  lemma OwnRoot(view: View, places: Places, t: nat)
    requires Owned(view, places) && t in places
    ensures IsRoot(places, places[t].root)
  {
  }

  /** The leaves below `pt` are those of `view`, and one more at `key` that names f. */
  ghost predicate OneMoreLeaf(view: View, view': View, pt: nat, key: nat, f: nat) {
    forall k: nat, x: nat :: k < LOWER_KEYS ==>
      (LeafAt(view', pt, k, x) <==> if k == key then x == f else LeafAt(view, pt, k, x))
  }

  /** At most lower-half tables of `pt` have been added, in frames not held before. */
  ghost predicate LowerTablesAdded(places: Places, held: set<nat>, places': Places, held': set<nat>, pt: nat) {
    && (forall t: nat :: t in places ==> t in places' && places'[t] == places[t])
    && held <= held'
    && (forall t: nat :: t in places' && t !in places ==>
          t in held' && t !in held && places'[t].root == pt && Lower(places'[t].level, places'[t].prefix))
    && (forall t: nat :: t in held' && t !in held ==> t in places')
  }

  /** What mapping a fresh frame f at an absent lower-half page does to the leaves. */
  lemma LeavesAfterMap(s: State, s': State, reserved: set<nat>, pt: nat, key: nat, f: nat, flags: int)
    requires IsRoot(s.places, pt) && key < LOWER_KEYS && Has(flags, VMM_PRESENT) && f < ADDR_LIMIT
    requires Flat(s.view, pt, key) == ABSENT
    requires Remapped(s, s', reserved, pt, key, MappedTo(ABSENT, f, flags))
    ensures OneMoreLeaf(s.view, s'.view, pt, key, f)
  {
    assert LOWER_KEYS <= KEYS;
    forall k: nat | k < LOWER_KEYS
      ensures Flat(s'.view, pt, k) == if k == key then MappedTo(ABSENT, f, flags) else Flat(s.view, pt, k)
    {
    }
  }

  /** Tables added on the way to a lower-half page are lower-half tables. */
  lemma NewTablesLower(s: State, s': State, pt: nat, key: nat, reserved: set<nat>)
    requires TablesAdded(s, s', reserved) && NewOnPath(s, s', pt, key) && key < LOWER_KEYS && Owned(s'.view, s'.places)
    ensures LowerTablesAdded(s.places, s.held, s'.places, s'.held, pt)
  {
    forall t: nat | t in s'.places && t !in s.places
      ensures s'.places[t].root == pt && Lower(s'.places[t].level, s'.places[t].prefix)
    {
      assert TableOk(s'.view, s'.places, t);
      LowerOnPath(key, s'.places[t].level);
    }
  }

  lemma LowerOnPath(key: nat, level: nat)
    requires key < LOWER_KEYS && level <= 3
    ensures Lower(level, Prefix(key, level))
  {
    PrefixOfPrefix(key, level, 3 - level);
    LowerKey(key);
    assert Prefix(key, 0) == key;
  }

  lemma MapKeepsLeaves(sp: Space, sp': Space, held: set<nat>, key: nat, f: nat)
    requires OwnLeaves(sp.view, sp.places, sp.held, sp.root) && sp'.root == sp.root && held == sp.held + {f}
    requires OneMoreLeaf(sp.view, sp'.view, sp.root, key, f)
    requires LowerTablesAdded(sp.places, held, sp'.places, sp'.held, sp.root)
    requires f !in sp.held && f !in sp.places
    ensures OwnLeaves(sp'.view, sp'.places, sp'.held, sp'.root)
  {
  }

  lemma MapKeepsDoom(sp: Space, sp': Space, held: set<nat>, key: nat, f: nat, held0: set<nat>)
    requires Alive(sp, held0) && sp'.root == sp.root && held == sp.held + {f} && sp'.Sound()
        && sp'.places.Keys <= sp'.held
    requires OneMoreLeaf(sp.view, sp'.view, sp.root, key, f)
    requires LowerTablesAdded(sp.places, held, sp'.places, sp'.held, sp.root)
    requires f !in sp.held && key < LOWER_KEYS && !Flat(sp.view, sp.root, key).present
    ensures Alive(sp', held0)
  {
    forall x: nat | x in sp'.held
      ensures x in held0 <==> !Doomed(sp', x)
    {
      DoomedAfterMap(sp, sp', key, f, x);
    }
  }

  /** Mapping a fresh frame at an absent lower-half page keeps the balance. */
  lemma MapKeepsAlive(s: State, s': State, reserved: set<nat>, pt: nat, key: nat, f: nat, flags: int, held0: set<nat>,
                      held: set<nat>)
    requires Alive(Space(s.view, s.places, held, pt), held0) && s.held == held + {f} && f !in held
    requires key < LOWER_KEYS && Has(flags, VMM_PRESENT) && f < ADDR_LIMIT && Flat(s.view, pt, key) == ABSENT
    requires Remapped(s, s', reserved, pt, key, MappedTo(ABSENT, f, flags))
    requires Owned(s'.view, s'.places) && IsRoot(s'.places, pt) && s'.places.Keys <= s'.held
    ensures Alive(Space(s'.view, s'.places, s'.held, pt), held0)
  {
    hide Flat, Lower, Owned, FlatUpdated, Prefix, OneMoreLeaf, OwnLeaves, Doomed;
    var sp, sp' := Space(s.view, s.places, held, pt), Space(s'.view, s'.places, s'.held, pt);
    LeavesAfterMap(s, s', reserved, pt, key, f, flags);
    NewTablesLower(s, s', pt, key, reserved);
    MapKeepsLeaves(sp, sp', s.held, key, f);
    MapKeepsDoom(sp, sp', s.held, key, f, held0);
  }

  lemma DoomedAfterMap(sp: Space, sp': Space, key: nat, f: nat, x: nat)
    requires sp'.root == sp.root && key < LOWER_KEYS
    requires !LeafAt(sp.view, sp.root, key, x) && OneMoreLeaf(sp.view, sp'.view, sp.root, key, f)
    requires x in sp.places ==> x in sp'.places && sp'.places[x] == sp.places[x]
    requires x in sp'.places && x !in sp.places ==>
        sp'.places[x].root == sp.root && Lower(sp'.places[x].level, sp'.places[x].prefix)
    ensures Doomed(sp', x) <==> Doomed(sp, x) || x == f || (x in sp'.places && x !in sp.places)
  {
  }

  // ----- The whole life -----

  /** What holds while the address space `pt`, created in state s0, is in use: the balance of frames;
      the tables of s0 and their translations as they were; and every page that was held in s0 and is
      no table. */
  ghost predicate InLife(s0: State, s: State, pt: nat) {
    && Alive(Space(s.view, s.places, s.held, pt), s0.held)
    && Others(s.places, s.places, pt) == s0.places
    && SameFlat(s0.view, s.view, s0.places)
    && (forall t: nat :: t in s.places && t !in s0.places ==> t !in s0.held)
    && (forall p: nat :: p in s0.held && p !in s0.places ==> SamePage(s0.mem, s.mem, p))
  }

  lemma OthersOfNew(places: Places, pt: nat)
    requires pt !in places && forall t: int :: t in places ==> places[t].root != pt
    ensures Others(places[pt := Place(pt, 4, 0, pt)], places[pt := Place(pt, 4, 0, pt)], pt) == places
  {
    var all := places[pt := Place(pt, 4, 0, pt)];
    var others := Others(all, all, pt);
    assert forall t: int :: t in places ==> t in others && others[t] == places[t];
    assert forall t: int :: t in others ==> t in places;
  }

  lemma LifeBegins(s0: State, s: State, reserved: set<nat>, pt: nat)
    requires Owned(s0.view, s0.places) && s0.places.Keys <= s0.held && pt !in s0.held && reserved !! s0.held
    requires Owned(s.view, s.places) && s.held == s0.held + {pt} && s.places == s0.places[pt := Place(pt, 4, 0, pt)]
    requires forall key: nat :: key < KEYS ==> Flat(s.view, pt, key) == ABSENT
    requires SameFlat(s0.view, s.view, s0.places)
    requires forall p: nat :: p !in reserved && p !in s.places ==> SamePage(s0.mem, s.mem, p)
    ensures InLife(s0, s, pt)
  {
    hide Flat, Prefix;
    NewSpaceAlive(s0.view, s0.places, s.view, s.places, s0.held, pt);
    forall t: nat | t in s0.places
      ensures s0.places[t].root != pt
    {
      OwnRoot(s0.view, s0.places, t);
    }
    assert forall t: int :: t in s0.places ==> t in s0.view && 0 <= t;
    OthersOfNew(s0.places, pt);
  }

  lemma OthersAfterMap(places: Places, places': Places, pt: nat)
    requires forall t: int :: t in places ==> t in places' && places'[t] == places[t]
    requires forall t: int :: t in places' && t !in places ==> places'[t].root == pt
    ensures Others(places', places', pt) == Others(places, places, pt)
  {
    var others, others' := Others(places, places, pt), Others(places', places', pt);
    assert forall t: int :: t in others ==> t in others' && others'[t] == others[t];
    assert forall t: int :: t in others' ==> t in others;
  }

  lemma RootIsItsOwn(view: View, places: Places, root: nat)
    requires Owned(view, places) && IsRoot(places, root)
    ensures places[root].root == root
  {
  }

  /** A page allocated and mapped: s is the state after the allocation of f, s' the one after the map. */
  lemma LifeGoesOn(s0: State, s1: State, s: State, s': State, reserved: set<nat>, pt: nat, key: nat, f: nat, flags: int)
    requires InLife(s0, s1, pt) && reserved !! s.held
    requires s.view == s1.view && s.places == s1.places && s.held == s1.held + {f} && f !in s1.held
    requires forall p: nat :: p !in reserved ==> SamePage(s1.mem, s.mem, p)
    requires key < LOWER_KEYS && Has(flags, VMM_PRESENT) && f < ADDR_LIMIT && Flat(s.view, pt, key) == ABSENT
    requires Remapped(s, s', reserved, pt, key, MappedTo(ABSENT, f, flags))
    requires Owned(s'.view, s'.places) && IsRoot(s'.places, pt) && s'.places.Keys <= s'.held
    ensures InLife(s0, s', pt)
  {
    hide Flat, Prefix, Owned, OwnLeaves, Doomed, Has, MappedTo;
    MapKeepsAlive(s, s', reserved, pt, key, f, flags, s0.held, s1.held);
    OthersAfterMap(s.places, s'.places, pt);
    RootIsItsOwn(s.view, s.places, pt);
    SamePageTransitive(s1.mem, s.mem, s'.mem);
    SamePageTransitive(s0.mem, s1.mem, s'.mem);
    forall r: nat, k: nat | IsRoot(s0.places, r) && k < KEYS
      ensures Flat(s'.view, r, k) == Flat(s0.view, r, k)
    {
      assert IsRoot(s.places, r) && r != pt;
      assert Flat(s.view, r, k) == Flat(s0.view, r, k);
    }
  }

  /** Destroying the address space ends its life: all that was held before, and nothing else, is held. */
  lemma LifeEnds(s0: State, s: State, pt: nat, held: set<nat>)
    requires InLife(s0, s, pt)
    requires forall x: nat :: x in held <==> x in s.held && !Doomed(Space(s.view, s.places, s.held, pt), x)
    ensures held == s0.held
  {
  }

  lemma AliveRoot(s0: State, s: State, pt: nat)
    requires InLife(s0, s, pt)
    ensures IsRoot(s.places, pt) && OwnLeaves(s.view, s.places, s.held, pt)
  {
  }

  /** Allocates a frame and maps it. */
  method MapFresh(tables: PageTables, pt: nat, mapping: Mapping, ghost s0: State) returns (ok: bool)
    requires tables.Valid() && InLife(s0, tables.Now(), pt)
    requires Key(mapping.virtAddr) < LOWER_KEYS && Has(mapping.flags, VMM_PRESENT)
    requires Flat(tables.view, pt, Key(mapping.virtAddr)) == ABSENT
    modifies tables, tables.pmm`held, tables.pmm.mem
    ensures if ok then tables.Valid() && InLife(s0, tables.Now(), pt) else tables.Full()
    ensures ok ==> forall k: nat :: k < KEYS && k != Key(mapping.virtAddr) ==>
        Flat(tables.view, pt, k) == old(Flat(tables.view, pt, k))
  {
    hide Tracks, Flat, Owned, Prefix, Alive, Stored, MappedTo;
    ghost var s1 := tables.Now();
    AliveRoot(s0, s1, pt);
    TracksApart(s1.mem, tables.pmm.bitmap, tables.pmm.bitmapSize, tables.pmm.reserved, s1.held);
    var page := tables.pmm.Alloc(1);
    if page.None? {
      return false;
    }
    ghost var f := page.value / PAGE_SIZE;
    ghost var s := tables.Now();
    TracksApart(s.mem, tables.pmm.bitmap, tables.pmm.bitmapSize, tables.pmm.reserved, s.held);
    FreshFrame(s1, s, tables.pmm.bitmap, tables.pmm.bitmapSize, tables.pmm.reserved, page.value);
    ok := tables.Map(pt, page.value, mapping.virtAddr, mapping.flags);
    if ok {
      LifeGoesOn(s0, s1, s, tables.Now(), tables.pmm.reserved, pt, Key(mapping.virtAddr), f, mapping.flags);
    }
  }

  /** A new frame fits an entry's address field and leaves the tables as they are. */
  lemma FreshFrame(s1: State, s: State, bitmap: nat, size: nat, reserved: set<nat>, page: nat)
    requires Stored(s1.mem, s1.view) && Owned(s1.view, s1.places) && s1.places.Keys <= s1.held && reserved !! s1.held
    requires s.view == s1.view && s.places == s1.places && s.held == s1.held + Pages(page / PAGE_SIZE, 1)
    requires page % PAGE_SIZE == 0 && Tracks(s.mem, bitmap, size, reserved, s.held)
    requires Pages(page / PAGE_SIZE, 1) !! reserved + s1.held
    requires forall p: nat :: p !in reserved ==> SamePage(s1.mem, s.mem, p)
    ensures Stored(s.mem, s.view) && s.places.Keys <= s.held
    ensures var f := page / PAGE_SIZE; s.held == s1.held + {f} && f !in s1.held && f < ADDR_LIMIT
  {
    var f := page / PAGE_SIZE;
    assert f in Pages(f, 1) && Pages(f, 1) == {f};
    HeldInMemory(s.mem, bitmap, size, reserved, s.held, f, 1);
    StoredFrame(s1.mem, s.mem, s1.view);
  }

  /** An address space lives and dies: a new root, a freshly allocated frame mapped at each of the
      given lower-half pages, and the teardown. Unless memory runs out on the way, afterwards exactly
      the pages held before are held, the bitmap holds the bytes it held before, every other address
      space has the tables and the translations it had, and every page that was held and is no table
      holds the bytes it held. */
  method LiveAndDie(tables: PageTables, mappings: seq<Mapping>) returns (ok: bool)
    requires tables.Valid() && Mappable(mappings)
    modifies tables, tables.pmm`held, tables.pmm.mem
    ensures !ok ==> tables.Full()
    ensures ok ==> tables.Valid() && tables.pmm.held == old(tables.pmm.held) && tables.places == old(tables.places)
    ensures ok ==> SameOn(old(tables.pmm.mem[..]), tables.pmm.mem[..], tables.pmm.bitmap, tables.pmm.bitmapSize)
    ensures ok ==> SameFlat(old(tables.view), tables.view, old(tables.places))
    ensures ok ==> forall p: nat :: p in old(tables.pmm.held) && p !in old(tables.places) ==>
                     SamePage(old(tables.pmm.mem[..]), tables.pmm.mem[..], p)
  {
    hide Tracks, Flat, Owned, Prefix, Alive, Stored, Doomed, OwnLeaves;
    ghost var s0 := tables.Now();
    var root := tables.NewPt();
    if root.None? {
      return false;
    }
    var pt := root.value;
    TracksApart(s0.mem, tables.pmm.bitmap, tables.pmm.bitmapSize, tables.pmm.reserved, s0.held);
    LifeBegins(s0, tables.Now(), tables.pmm.reserved, pt);
    var i := 0;
    while i < |mappings|
      invariant 0 <= i <= |mappings| && tables.Valid() && InLife(s0, tables.Now(), pt)
      invariant forall j: nat :: i <= j < |mappings| ==> Flat(tables.view, pt, Key(mappings[j].virtAddr)) == ABSENT
    {
      ok := MapFresh(tables, pt, mappings[i], s0);
      if !ok {
        return;
      }
      i := i + 1;
    }
    ghost var s := tables.Now();
    AliveRoot(s0, s, pt);
    TracksApart(s.mem, tables.pmm.bitmap, tables.pmm.bitmapSize, tables.pmm.reserved, s.held);
    tables.Destroy(pt);
    Afterwards(s0, s, tables.Now(), pt, tables.pmm.bitmap, tables.pmm.bitmapSize, tables.pmm.reserved);
    return true;
  }

  /** What is left after the teardown. */
  lemma Afterwards(s0: State, s: State, s': State, pt: nat, bitmap: nat, size: nat, reserved: set<nat>)
    requires InLife(s0, s, pt) && Owned(s0.view, s0.places) && s0.places.Keys <= s0.held && reserved !! s.held
    requires s'.places == Others(s.places, s.places, pt)
    requires forall x: nat :: x in s'.held <==> x in s.held && !Doomed(Space(s.view, s.places, s.held, pt), x)
    requires forall r: nat, k: nat :: r != pt && IsRoot(s.places, r) && k < KEYS ==>
        Flat(s'.view, r, k) == Flat(s.view, r, k)
    requires forall p: nat :: p !in reserved && !Doomed(Space(s.view, s.places, s.held, pt), p) ==> SamePage(s.mem,
        s'.mem, p)
    requires Tracks(s0.mem, bitmap, size, reserved, s0.held) && Tracks(s'.mem, bitmap, size, reserved, s'.held)
    requires |s'.mem| == |s0.mem|
    ensures s'.held == s0.held && s'.places == s0.places && SameFlat(s0.view, s'.view, s0.places)
    ensures SameOn(s0.mem, s'.mem, bitmap, size)
    ensures forall p: nat :: p in s0.held && p !in s0.places ==> SamePage(s0.mem, s'.mem, p)
  {
    hide Flat, Owned, Prefix, OwnLeaves, Doomed;
    LifeEnds(s0, s, pt, s'.held);
    MarkedDetermines(s0.mem, s'.mem, bitmap, size);
    SamePageTransitive(s0.mem, s.mem, s'.mem);
    RootIsItsOwn(s.view, s.places, pt);
    forall r: nat, k: nat | IsRoot(s0.places, r) && k < KEYS
      ensures Flat(s'.view, r, k) == Flat(s0.view, r, k)
    {
      assert IsRoot(s.places, r) && r != pt;
      assert Flat(s.view, r, k) == Flat(s0.view, r, k);
    }
  }
}
