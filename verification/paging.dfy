/** The four-level page tables of x86_64, in frames taken from the page allocator. */
module PageTables {
  import opened Wrappers
  import opened Memory
  import opened PhysicalPages
  import opened PageTableEntry
  import opened TableTree
  import opened TreeTeardown

  // ----- Tables in memory -----

  function EntryAt(m: Bytes, t: nat, i: nat): Entry
    requires i < 512 && (t + 1) * PAGE_SIZE <= |m|
  {
    Decode(Load(m, t * PAGE_SIZE + 8 * i, 8))
  }

  ghost predicate TableStored(m: Bytes, t: nat, table: Table) {
    && (t + 1) * PAGE_SIZE <= |m| <= MAX_MEMORY
    && forall i: nat {:trigger EntryAt(m, t, i)} :: i < 512 ==> EntryAt(m, t, i) == table[i]
  }

  /** Memory holds every table of the view, in its frame. */
  ghost predicate Stored(m: Bytes, view: View) {
    forall t: int :: t in view ==> 0 <= t && TableStored(m, t, view[t])
  }

  lemma TableFrame(m: Bytes, m': Bytes, t: nat, table: Table)
    requires TableStored(m, t, table) && SamePage(m, m', t)
    ensures TableStored(m', t, table)
  {
    forall i: nat | i < 512
      ensures EntryAt(m', t, i) == EntryAt(m, t, i)
    {
      LoadFrame(m, m', t * PAGE_SIZE + 8 * i, 8);
    }
  }

  lemma StoredFrame(m: Bytes, m': Bytes, view: View)
    requires Stored(m, view) && forall t: nat :: t in view ==> SamePage(m, m', t)
    ensures Stored(m', view)
  {
    forall t: int | t in view
      ensures 0 <= t && TableStored(m', t, view[t])
    {
      TableFrame(m, m', t, view[t]);
    }
  }

  function PutEntry(m: Bytes, t: nat, i: nat, e: Entry): Bytes
    requires i < 512 && (t + 1) * PAGE_SIZE <= |m|
  {
    Store(m, t * PAGE_SIZE + 8 * i, 8, Encode(e))
  }

  /** Storing an entry changes that entry, whole, and no other one of the table. */
  lemma PutEntryReads(m: Bytes, t: nat, i: nat, e: Entry, j: nat)
    requires i < 512 && j < 512 && (t + 1) * PAGE_SIZE <= |m| && e.Fits()
    ensures EntryAt(PutEntry(m, t, i, e), t, j) == if j == i then e else EntryAt(m, t, j)
  {
    if j == i {
      EncodeFits(e);
      LoadStore(m, t * PAGE_SIZE + 8 * i, 8, Encode(e));
      DecodeEncode(e);
    } else {
      LoadFrame(m, PutEntry(m, t, i, e), t * PAGE_SIZE + 8 * j, 8);
    }
  }

  /** The eight bytes of an entry in memory are the word of the entry in the view. */
  lemma WordInTable(m: Bytes, view: View, t: nat, i: nat)
    requires Stored(m, view) && t in view && i < 512
    ensures (t + 1) * PAGE_SIZE <= |m| && Word(m, 0x1000 * t + 8 * i) == Encode(view[t][i])
  {
    hide Decode, Encode, Load, Word;
    assert TableStored(m, t, view[t]);
    var a := t * PAGE_SIZE + 8 * i;
    assert EntryAt(m, t, i) == view[t][i] && a == 0x1000 * t + 8 * i;
    LoadIsWord(m, a);
    EncodeDecode(Word(m, a));
  }

  lemma PutEntryInTable(m: Bytes, t: nat, table: Table, i: nat, e: Entry)
    requires TableStored(m, t, table) && i < 512 && e.Fits()
    ensures TableStored(PutEntry(m, t, i, e), t, table[i := e])
  {
    forall j: nat | j < 512
      ensures EntryAt(PutEntry(m, t, i, e), t, j) == table[i := e][j]
    {
      PutEntryReads(m, t, i, e, j);
    }
  }

  lemma PutEntryElsewhere(m: Bytes, t: nat, i: nat, e: Entry)
    requires i < 512 && (t + 1) * PAGE_SIZE <= |m|
    ensures forall p: nat :: p != t ==> SamePage(m, PutEntry(m, t, i, e), p)
    ensures SameOutside(m, PutEntry(m, t, i, e), t * PAGE_SIZE, PAGE_SIZE)
  {
  }

  lemma PutEntryStored(m: Bytes, view: View, t: nat, i: nat, e: Entry)
    requires Stored(m, view) && t in view && i < 512 && e.Fits()
    ensures Stored(PutEntry(m, t, i, e), WithEntry(view, t, i, e))
  {
    var m' := PutEntry(m, t, i, e);
    PutEntryInTable(m, t, view[t], i, e);
    PutEntryElsewhere(m, t, i, e);
    forall u: int | u in view && u != t
      ensures 0 <= u && TableStored(m', u, view[u])
    {
      TableFrame(m, m', u, view[u]);
    }
  }

  /** Storing an entry of a held table updates the view, and disturbs neither the allocator nor any
      other page. */
  lemma PutEntryEffect(m: Bytes, view: View, bitmap: nat, size: nat, reserved: set<nat>, held: set<nat>,
                       t: nat, i: nat, e: Entry)
    requires Tracks(m, bitmap, size, reserved, held) && Stored(m, view)
    requires t in view && t in held && i < 512 && e.Fits()
    ensures (t + 1) * PAGE_SIZE <= |m|
    ensures Tracks(PutEntry(m, t, i, e), bitmap, size, reserved, held)
    ensures Stored(PutEntry(m, t, i, e), WithEntry(view, t, i, e))
    ensures forall p: nat :: p != t ==> SamePage(m, PutEntry(m, t, i, e), p)
  {
    assert TableStored(m, t, view[t]);
    PutEntryStored(m, view, t, i, e);
    PutEntryElsewhere(m, t, i, e);
    PageWriteKeepsTracks(m, PutEntry(m, t, i, e), bitmap, size, reserved, held, t, 1);
  }

  lemma ZeroIsAbsent()
    ensures Decode(0) == ABSENT
  {
  }

  lemma ZeroedTable(m: Bytes, f: nat)
    requires (f + 1) * PAGE_SIZE <= |m| <= MAX_MEMORY
    ensures TableStored(Fill(m, f * PAGE_SIZE, 0, PAGE_SIZE), f, EmptyTable())
  {
    hide Load, Decode;
    var m' := Fill(m, f * PAGE_SIZE, 0, PAGE_SIZE);
    ZeroIsAbsent();
    forall i: nat | i < 512
      ensures EntryAt(m', f, i) == ABSENT
    {
      LoadZeros(m', f * PAGE_SIZE + 8 * i, 8);
    }
  }

  /** Zeroing a held frame that is no table makes it an empty table and disturbs nothing else. */
  lemma ZeroedFrame(m: Bytes, view: View, bitmap: nat, size: nat, reserved: set<nat>, held: set<nat>, f: nat)
    requires Tracks(m, bitmap, size, reserved, held) && Stored(m, view) && f in held && f !in view
    ensures (f + 1) * PAGE_SIZE <= |m|
    ensures var m' := Fill(m, f * PAGE_SIZE, 0, PAGE_SIZE);
            && Tracks(m', bitmap, size, reserved, held) && Stored(m', view) && TableStored(m', f, EmptyTable())
            && forall p: nat :: p != f ==> SamePage(m, m', p)
  {
    HeldInMemory(m, bitmap, size, reserved, held, f, 1);
    var m' := Fill(m, f * PAGE_SIZE, 0, PAGE_SIZE);
    PageWriteKeepsTracks(m, m', bitmap, size, reserved, held, f, 1);
    StoredFrame(m, m', view);
    ZeroedTable(m, f);
  }

  // ----- Growth -----

  /** Everything the page tables depend on, at one moment. */
  datatype State = State(view: View, places: Places, held: set<nat>, mem: Bytes)

  /** The held frames that are no tables. */
  ghost function Spare(s: State): set<nat> {
    s.held - (set t: nat | t in s.places)
  }

  /** Every translation of every root is the same. */
  ghost predicate SameFlat(view: View, view': View, places: Places) {
    forall root: nat, key: nat :: IsRoot(places, root) && key < KEYS ==> Flat(view', root, key) == Flat(view, root, key)
  }

  /** At most tables were added, below existing roots, in newly held frames; no page outside the
      tables and the reserved pages was written. */
  ghost predicate TablesAdded(s: State, s': State, reserved: set<nat>) {
    && (forall t: int :: t in s.places ==> t in s'.places && s'.places[t] == s.places[t])
    && s.held <= s'.held
    && (forall t: int :: t in s'.places && t !in s.places ==> t in s'.held && t !in s.held && s'.places[t].level < 4)
    && (forall t: int :: t in s'.held && t !in s.held ==> t in s'.places)
    && (forall p: nat :: p !in reserved && p !in s'.places ==> SamePage(s.mem, s'.mem, p))
  }

  lemma TablesAddedTransitive(s: State, s': State, s'': State, reserved: set<nat>)
    requires s.places.Keys <= s.held && TablesAdded(s, s', reserved) && TablesAdded(s', s'', reserved)
    ensures TablesAdded(s, s'', reserved)
  {
    SamePageTransitive(s.mem, s'.mem, s''.mem);
  }

  /** Every frame taken has become a table. */
  lemma TablesAddedSpare(s: State, s': State, reserved: set<nat>)
    requires s.places.Keys <= s.held && TablesAdded(s, s', reserved)
    ensures Spare(s') == Spare(s)
  {
  }

  /** Tables were added and no translation changed. */
  ghost predicate Grew(s: State, s': State, reserved: set<nat>) {
    TablesAdded(s, s', reserved) && SameFlat(s.view, s'.view, s.places)
  }

  /** Every added table is one the walk for `key` below `root` goes through. */
  ghost predicate NewOnPath(s: State, s': State, root: nat, key: nat) {
    forall t: int :: t in s'.places && t !in s.places ==>
      s'.places[t].root == root && s'.places[t].prefix == Prefix(key, s'.places[t].level)
  }

  /** What a walk that began in state s has done so far: at most added tables on its way, and nothing
      at all if no table was missing. */
  ghost predicate Walking(s: State, s': State, reserved: set<nat>, root: nat, key: nat) {
    && s.places.Keys <= s.held && Grew(s, s', reserved) && NewOnPath(s, s', root, key)
    && (TableAt(s.view, root, key, 1).Some? ==> s' == s)
  }

  lemma WalkAdvances(s: State, s': State, s'': State, reserved: set<nat>, t: nat, root: nat, key: nat, level: nat)
    requires Walking(s, s', reserved, root, key) && Grew(s', s'', reserved)
    requires TableAt(s.view, root, key, 1).Some? ==> s'' == s'
    requires 1 < level && OnPath(s'.places, t, root, key, level)
    requires forall u: int :: u in s''.places && u !in s'.places ==>
        s''.places[u] == ChildPlace(s'.places, t, Index(key, level))
    ensures Walking(s, s'', reserved, root, key)
  {
    GrewTransitive(s, s', s'', reserved);
    ChildOnPath(s'.places, t, root, key, level);
  }

  lemma GrewTransitive(s: State, s': State, s'': State, reserved: set<nat>)
    requires s.places.Keys <= s.held && Grew(s, s', reserved) && Grew(s', s'', reserved)
    ensures Grew(s, s'', reserved)
  {
    TablesAddedTransitive(s, s', s'', reserved);
    forall root: nat, key: nat | IsRoot(s.places, root) && key < KEYS
      ensures Flat(s''.view, root, key) == Flat(s.view, root, key)
    {
      assert IsRoot(s'.places, root);
      assert Flat(s'.view, root, key) == Flat(s.view, root, key);
    }
  }

  lemma GrewReflexive(s: State, reserved: set<nat>)
    ensures Grew(s, s, reserved)
  {
  }

  lemma LinkingGrows(s: State, s': State, t: nat, i: nat, f: nat, reserved: set<nat>)
    requires Owned(s.view, s.places) && t in s.places && 1 < s.places[t].level && i < 512
    requires s.view[t][i] == ABSENT && f !in s.held && s.places.Keys <= s.held
    requires s'.view == WithTable(s.view, t, i, f) && s'.places == s.places[f := ChildPlace(s.places, t, i)]
    requires s'.held == s.held + {f}
    requires forall p: nat :: p !in reserved && p != f && p != t ==> SamePage(s.mem, s'.mem, p)
    ensures Grew(s, s', reserved)
  {
    forall root: nat, key: nat | IsRoot(s.places, root) && key < KEYS
      ensures Flat(s'.view, root, key) == Flat(s.view, root, key)
    {
      TableKeepsFlat(s.view, s.places, t, i, f, root, key);
    }
  }

  // ----- Tearing down -----

  ghost function FrameSet(s: seq<nat>): set<nat> {
    set x | x in s
  }

  /** The frames `freed` may be freed while table t is read: they are held and distinct, t is held
      and not among them, and t and every table among them is intact in memory. */
  ghost predicate Ready(m: Bytes, view: View, held: set<nat>, t: nat, freed: seq<nat>) {
    && NoDuplicates(freed) && FrameSet(freed) <= held && t in held && t !in freed
    && forall g: int :: g in view && (g == t || g in freed) ==> 0 <= g && TableStored(m, g, view[g])
  }

  /** After a prefix has been freed, the rest may still be: no table is poisoned before it is read. */
  lemma ReadyRest(m: Bytes, m': Bytes, view: View, held: set<nat>, t: nat, freed: seq<nat>, rest: seq<nat>,
                  reserved: set<nat>)
    requires Ready(m, view, held, t, freed + rest) && reserved !! held
    requires forall p: nat :: p !in reserved + FrameSet(freed) ==> SamePage(m, m', p)
    ensures Ready(m', view, held - FrameSet(freed), t, rest)
  {
    NoDuplicatesSplit(freed, rest);
    assert forall x: nat :: x in rest ==> x in freed + rest;
    forall g: int | g in view && (g == t || g in rest)
      ensures 0 <= g && TableStored(m', g, view[g])
    {
      assert g in held && g !in freed;
      TableFrame(m, m', g, view[g]);
    }
  }

  /** A table and what lies below it, ready to be freed from the table above, is ready from itself. */
  lemma ReadyChild(m: Bytes, view: View, held: set<nat>, t: nat, freed: seq<nat>, child: nat)
    requires Ready(m, view, held, t, freed + [child])
    ensures Ready(m, view, held, child, freed)
  {
    NoDuplicatesSplit(freed, [child]);
    assert child in freed + [child] && forall x: nat :: x in freed ==> x in freed + [child];
  }

  lemma ReadyFirst(m: Bytes, view: View, held: set<nat>, t: nat, freed: seq<nat>, rest: seq<nat>)
    requires Ready(m, view, held, t, freed + rest)
    ensures Ready(m, view, held, t, freed)
  {
    NoDuplicatesSplit(freed, rest);
    assert forall x: nat :: x in freed ==> x in freed + rest;
  }

  /** A whole address space may be torn down. */
  lemma ReadyRoot(m: Bytes, sp: Space)
    requires sp.Sound() && Stored(m, sp.view) && sp.places.Keys <= sp.held
    ensures Ready(m, sp.view, sp.held, sp.root, FreedBelow(sp.view, sp.root, 3, 256))
  {
    FreedOnce(sp);
    FreedExactly(sp);
    forall x: nat | x in FreedBelow(sp.view, sp.root, 3, 256)
      ensures x in sp.held
    {
      assert x in FreedBelow(sp.view, sp.root, 3, 256) + [sp.root];
    }
  }

  /** What is left after an address space is torn down is a valid set of tables. */
  lemma OthersStored(m: Bytes, m': Bytes, sp: Space, reserved: set<nat>)
    requires sp.Sound() && Stored(m, sp.view) && sp.places.Keys <= sp.held && reserved !! sp.held
    requires forall p: nat :: p !in reserved && !Doomed(sp, p) ==> SamePage(m, m', p)
    ensures Stored(m', Others(sp.view, sp.places, sp.root))
    ensures forall t: nat :: t in Others(sp.places, sp.places, sp.root) ==> !Doomed(sp, t)
  {
    forall t: nat | t in Others(sp.view, sp.places, sp.root)
      ensures !Doomed(sp, t)
    {
      assert TableOk(sp.view, sp.places, sp.root);
    }
    forall t: int | t in Others(sp.view, sp.places, sp.root)
      ensures 0 <= t && TableStored(m', t, sp.view[t])
    {
      TableFrame(m, m', t, sp.view[t]);
    }
  }

  /** What going through n entries frees begins with what going through i of them frees. */
  lemma {:induction false} FreedPrefix(view: View, t: nat, c: nat, i: nat, n: nat) returns (rest: seq<nat>)
    requires t in view && i < n <= 512
    ensures FreedBelow(view, t, c, n) == FreedBelow(view, t, c, i) + FreedByEntry(view, view[t][i], c) + rest
    decreases n
  {
    if i == n - 1 {
      rest := [];
    } else {
      rest := FreedPrefix(view, t, c, i, n - 1);
      rest := rest + FreedByEntry(view, view[t][n - 1], c);
    }
  }

  // ----- Flags -----

  const VMM_PRESENT: int := 1
  const VMM_RW: int := 2
  const VMM_EXEC: int := 4
  const VMM_USER: int := 8
  const VMM_RWX: int := VMM_RW + VMM_EXEC

  predicate Has(flags: int, bit: int)
    requires 0 < bit
  {
    flags / bit % 2 == 1
  }

  function WithFlags(e: Entry, flags: int): Entry {
    e.(present := Has(flags, VMM_PRESENT), readWrite := Has(flags, VMM_RW), userSupervisor := Has(flags, VMM_USER),
       pageSize := false, nx := !Has(flags, VMM_EXEC))
  }

  /** The leaf entry e, remapped to a frame with flags. */
  function MappedTo(e: Entry, frame: nat, flags: int): Entry {
    WithFlags(e.(addr := frame % ADDR_LIMIT), flags)
  }

  /** The two words hold the same bits 3 to 6 and 8 to 11: write-through, cache-disable, accessed, avl0, avl1. */
  predicate SameOthers(w: nat, w': nat) {
    && w' / 8 % 2 == w / 8 % 2 && w' / 0x10 % 2 == w / 0x10 % 2 && w' / 0x20 % 2 == w / 0x20 % 2
    && w' / 0x40 % 2 == w / 0x40 % 2 && w' / 0x100 % 0x10 == w / 0x100 % 0x10
  }

  /** The word has the rights that the flags ask for, in bits 0 to 2 and 63, and is no large page. */
  predicate RightsOf(w: nat, flags: int) {
    && w % 2 == flags % 2 && w / 2 % 2 == flags / 2 % 2 && w / 4 % 2 == flags / 8 % 2
    && w / 0x80 % 2 == 0 && w / 0x8000_0000_0000_0000 % 2 == 1 - flags / 4 % 2
  }

  /** What set_flags, map and unmap make of the eight bytes of a leaf entry, bit by bit. */
  lemma RequestInWord(e: Entry, p: nat, flags: int)
    requires e.Fits()
    ensures var w, w' := Encode(e), Encode(WithFlags(e, flags));
            && RightsOf(w', flags) && SameOthers(w, w')
            && w' / 0x1000 % 0x8_0000_0000_0000 == w / 0x1000 % 0x8_0000_0000_0000
    ensures var w, w' := Encode(e), Encode(MappedTo(e, p / PAGE_SIZE, flags));
            && RightsOf(w', flags) && SameOthers(w, w')
            && w' / 0x1000 % 0x8_0000_0000_0000 == p / 0x1000 % 0x8_0000_0000_0000
    ensures var w, w' := Encode(e), Encode(e.(present := false, addr := 0));
            && w' % 2 == 0 && w' / 0x1000 % 0x8_0000_0000_0000 == 0 && SameOthers(w, w')
            && w' / 2 % 2 == w / 2 % 2 && w' / 4 % 2 == w / 4 % 2 && w' / 0x80 % 2 == w / 0x80 % 2
            && w' / 0x8000_0000_0000_0000 % 2 == w / 0x8000_0000_0000_0000 % 2
  {
    hide Encode, Decode;
    BitsOfWord(e);
    BitsOfWord(WithFlags(e, flags));
    BitsOfWord(MappedTo(e, p / PAGE_SIZE, flags));
    BitsOfWord(e.(present := false, addr := 0));
  }

  function Bit(b: bool): nat {
    if b then 1 else 0
  }

  lemma BitsOfWord(e: Entry)
    requires e.Fits()
    ensures var w := Encode(e);
            && w % 2 == Bit(e.present) && w / 2 % 2 == Bit(e.readWrite) && w / 4 % 2 == Bit(e.userSupervisor)
            && w / 8 % 2 == Bit(e.writeThrough) && w / 0x10 % 2 == Bit(e.cacheDisable)
            && w / 0x20 % 2 == Bit(e.accessed) && w / 0x40 % 2 == Bit(e.avl0) && w / 0x80 % 2 == Bit(e.pageSize)
            && w / 0x100 % 0x10 == e.avl1 && w / 0x1000 % 0x8_0000_0000_0000 == e.addr
            && w / 0x8000_0000_0000_0000 % 2 == Bit(e.nx)
  {
    hide Encode, Decode;
    DecodeEncode(e);
    DecodeBits(Encode(e));
    EncodeFits(e);
    Pow256Of8();
  }

  /** The word without the bits that the processor sets. */
  ghost function WithoutVisits(e: Entry): nat {
    Bit(e.present) + 2 * Bit(e.readWrite) + 4 * Bit(e.userSupervisor) + 8 * Bit(e.writeThrough)
    + 0x10 * Bit(e.cacheDisable) + 0x80 * Bit(e.pageSize) + 0x100 * High(e)
  }

  lemma WordIsSum(e: Entry)
    ensures Encode(e) == WithoutVisits(e) + 0x20 * Bit(e.accessed) + 0x40 * Bit(e.avl0)
  {
    hide High;
  }

  lemma VisitsLeaveRest(e: Entry, write: bool)
    ensures WithoutVisits(Accessed(e, write)) == WithoutVisits(e)
  {
  }

  /** What the processor adds to the word: bit 5, and bit 6 after a write. */
  lemma AccessedWord(e: Entry, write: bool)
    ensures Encode(Accessed(e, write)) ==
            Encode(e) + (if e.accessed then 0 else 0x20) + (if write && !e.avl0 then 0x40 else 0)
  {
    hide Encode, WithoutVisits;
    WordIsSum(e);
    WordIsSum(Accessed(e, write));
    VisitsLeaveRest(e, write);
  }

  /** The page number of a virtual address; bits 48 and up play no part. */
  function Key(virtAddr: nat): (k: nat)
    ensures k < KEYS
  {
    virtAddr / PAGE_SIZE % KEYS
  }

  /** page_index on integers: each index is nine bits of the address, bits 12 and up. */
  lemma IndexOfAddress(v: nat)
    ensures Index(v % KEYS, 1) == v % 512 && Index(v % KEYS, 2) == v / 512 % 512
    ensures Index(v % KEYS, 3) == v / 512 / 512 % 512 && Index(v % KEYS, 4) == v / 512 / 512 / 512 % 512
  {
    var q, k := v / KEYS, v % KEYS;
    assert Prefix(k, 0) == k;
    assert Prefix(k, 1) == k / 512 && Prefix(k, 2) == Prefix(k, 1) / 512 && Prefix(k, 3) == Prefix(k, 2) / 512;
    ShiftIndex(q * 0x800_0000, k, v);
    ShiftIndex(q * 0x4_0000, Prefix(k, 1), v / 512);
    ShiftIndex(q * 0x200, Prefix(k, 2), v / 512 / 512);
    ShiftIndex(q, Prefix(k, 3), v / 512 / 512 / 512);
  }

  /** The four nine-bit fields of a virtual address, bits 12 to 47: which entry of the table of each level
      the processor looks at. */
  function AddressBits(v: nat, level: nat): (i: nat)
    requires 1 <= level <= 4
    ensures i < 512
  {
    if level == 1 then v / 0x1000 % 512
    else if level == 2 then v / 0x20_0000 % 512
    else if level == 3 then v / 0x4000_0000 % 512
    else v / 0x80_0000_0000 % 512
  }

  /** They are the indices on the walk for the address's page number, which is the number in bits 12 to 47. */
  lemma IndexIsAddressBits(v: nat, level: nat)
    requires 1 <= level <= 4
    ensures Index(Key(v), level) == AddressBits(v, level) && Key(v) == v / 0x1000 % 0x10_0000_0000
  {
    IndexOfAddress(v / PAGE_SIZE);
    ShiftedAddress(v);
  }

  lemma ShiftedAddress(v: nat)
    ensures v / 0x1000 / 512 == v / 0x20_0000 && v / 0x20_0000 / 512 == v / 0x4000_0000
    ensures v / 0x4000_0000 / 512 == v / 0x80_0000_0000
  {
  }

  lemma ShiftIndex(high: nat, low: nat, v: nat)
    requires v == 512 * high + low
    ensures v % 512 == low % 512 && v / 512 == high + low / 512
  {
  }

  // ----- Remapping one page -----

  /** One translation is replaced and no other changes, in any address space. */
  ghost predicate FlatUpdated(view: View, view': View, places: Places, root: nat, key: nat, e: Entry) {
    forall r: nat, k: nat :: IsRoot(places, r) && k < KEYS ==>
      Flat(view', r, k) == if r == root && k == key then e else Flat(view, r, k)
  }

  /** The page at `key` below `root` got the leaf entry e. Tables may have been added on the way to it;
      every other translation of every address space is as before. */
  ghost predicate Remapped(s: State, s': State, reserved: set<nat>, root: nat, key: nat, e: Entry) {
    && TablesAdded(s, s', reserved) && NewOnPath(s, s', root, key)
    && FlatUpdated(s.view, s'.view, s.places, root, key, e)
  }

  lemma LeafOnPath(view: View, places: Places, t: nat, root: nat, key: nat)
    requires Owned(view, places) && OnPath(places, t, root, key, 1)
    ensures Flat(view, root, key) == view[t][Index(key, 1)] && IsRoot(places, root)
  {
  }

  lemma RootOnPath(view: View, places: Places, pt: nat, key: nat)
    requires Owned(view, places) && IsRoot(places, pt) && key < KEYS
    ensures OnPath(places, pt, pt, key, 4)
  {
    PrefixTop(key);
    assert TableOk(view, places, pt);
  }

  lemma LeafInView(view: View, places: Places, t: nat, root: nat, key: nat)
    requires Owned(view, places) && OnPath(places, t, root, key, 1)
    ensures t in view
  {
  }

  lemma LeafWriteRemaps(s: State, s1: State, s2: State, t: nat, root: nat, key: nat, e: Entry, reserved: set<nat>)
    requires Walking(s, s1, reserved, root, key)
    requires Owned(s1.view, s1.places) && OnPath(s1.places, t, root, key, 1) && key < KEYS
    requires s2.view == WithEntry(s1.view, t, Index(key, 1), e) && s2.places == s1.places && s2.held == s1.held
    requires forall p: nat :: p != t ==> SamePage(s1.mem, s2.mem, p)
    ensures Remapped(s, s2, reserved, root, key, e) && Owned(s2.view, s2.places)
    ensures IsRoot(s2.places, root) && TableAt(s2.view, root, key, 1) == Some(t) && Flat(s2.view, root, key) == e
  {
    EntryKeepsOwned(s1.view, s1.places, t, Index(key, 1), e);
    PlaceIsReached(s2.view, s2.places, t, key);
    SamePageTransitive(s.mem, s1.mem, s2.mem);
    forall r: nat, k: nat | IsRoot(s.places, r) && k < KEYS
      ensures Flat(s2.view, r, k) == if r == root && k == key then e else Flat(s.view, r, k)
    {
      assert IsRoot(s1.places, r);
      assert Flat(s1.view, r, k) == Flat(s.view, r, k);
      EntryUpdatesFlat(s1.view, s1.places, t, key, e, r, k);
    }
  }

  lemma RemappedTwice(s: State, s1: State, s2: State, root: nat, key: nat, e1: Entry, e2: Entry, reserved: set<nat>)
    requires s.places.Keys <= s.held && key < KEYS
    requires Remapped(s, s1, reserved, root, key, e1) && Remapped(s1, s2, reserved, root, key, e2)
    ensures Remapped(s, s2, reserved, root, key, e2)
  {
    TablesAddedTransitive(s, s1, s2, reserved);
    forall r: nat, k: nat | IsRoot(s.places, r) && k < KEYS
      ensures Flat(s2.view, r, k) == if r == root && k == key then e2 else Flat(s.view, r, k)
    {
      assert IsRoot(s1.places, r);
      assert Flat(s1.view, r, k) == if r == root && k == key then e1 else Flat(s.view, r, k);
    }
  }

  // ----- The page tables -----

  class PageTables {
    const pmm: Pmm
    /** The contents of every table of every address space, and where each table sits. */
    ghost var view: View
    ghost var places: Places

    ghost predicate Valid()
      reads this, pmm, pmm.mem
    {
      pmm.Valid() && Stored(pmm.mem[..], view) && Owned(view, places) && places.Keys <= pmm.held
    }

    ghost function Now(): State
      reads this, pmm, pmm.mem
    {
      State(view, places, pmm.held, pmm.mem[..])
    }

    /** No page is left to allocate. */
    ghost predicate Full()
      reads this, pmm
    {
      FirstRun(pmm.reserved + pmm.held, pmm.Tracked(), 1, 0) == None
    }

    /** The pages that may be allocated. */
    ghost function Free(): set<nat>
      reads this, pmm
    {
      Unmarked(pmm.reserved + pmm.held, pmm.Tracked())
    }

    /** There are enough free pages for every table missing on the walk for `key`. */
    ghost predicate Affords(root: nat, key: nat)
      reads this, pmm
    {
      Missing(view, root, key, 4) <= |Free()|
    }

    lemma FullMeansNoneFree()
      ensures Full() <==> Free() == {}
    {
      FirstRunIsLowest(pmm.reserved + pmm.held, pmm.Tracked(), 1, 0);
      NoFreePage(pmm.reserved + pmm.held, pmm.Tracked());
    }

    constructor (pmm: Pmm)
      requires pmm.Valid()
      ensures Valid() && this.pmm == pmm && view == map[] && places == map[]
    {
      this.pmm := pmm;
      view, places := map[], map[];
    }

    method ReadEntry(t: nat, i: nat) returns (e: Entry)
      requires Stored(pmm.mem[..], view) && t in view && i < 512
      ensures e == view[t][i] && e.Fits()
    {
      assert TableStored(pmm.mem[..], t, view[t]);
      e := EntryAt(pmm.mem[..], t, i);
    }

    /** The bit-field stores to one entry, as one store of the whole word. */
    method StoreEntry(t: nat, i: nat, e: Entry)
      requires pmm.Valid() && Stored(pmm.mem[..], view) && t in view && t in pmm.held && i < 512 && e.Fits()
      modifies this`view, pmm.mem
      ensures pmm.Valid() && Stored(pmm.mem[..], view) && view == WithEntry(old(view), t, i, e)
      ensures (t + 1) * PAGE_SIZE <= pmm.mem.Length && pmm.mem[..] == PutEntry(old(pmm.mem[..]), t, i, e)
      ensures forall p: nat :: p != t ==> SamePage(old(pmm.mem[..]), pmm.mem[..], p)
    {
      PutEntryEffect(pmm.mem[..], view, pmm.bitmap, pmm.bitmapSize, pmm.reserved, pmm.held, t, i, e);
      StoreBytes(pmm.mem, t * PAGE_SIZE + 8 * i, 8, Encode(e));
      ghost var m := pmm.mem[..];
      view := WithEntry(view, t, i, e);
      assert pmm.mem[..] == m;
    }

    /** A zeroed table in a newly allocated frame. */
    method NewTable() returns (r: Option<nat>)
      requires pmm.Valid() && Stored(pmm.mem[..], view) && view.Keys <= pmm.held
      modifies pmm`held, pmm.mem
      ensures pmm.Valid() && Stored(pmm.mem[..], view)
      ensures r.None? ==> old(Full()) && pmm.held == old(pmm.held) && pmm.mem[..] == old(pmm.mem[..])
      ensures r.Some? ==> r.value !in old(pmm.held) + pmm.reserved && pmm.held == old(pmm.held) + {r.value}
      ensures r.Some? ==> r.value in old(Free())
      ensures r.Some? <==> old(Free()) != {}
      ensures r.Some? ==> TableStored(pmm.mem[..], r.value, EmptyTable())
      ensures forall p: nat :: p !in pmm.reserved && (r.Some? ==> p != r.value) ==> SamePage(old(pmm.mem[..]),
          pmm.mem[..], p)
    {
      FullMeansNoneFree();
      var page :- pmm.Alloc(1);
      var f := page / PAGE_SIZE;
      ghost var m := pmm.mem[..];
      assert f in Pages(f, 1);
      StoredFrame(old(pmm.mem[..]), m, view);
      ZeroedFrame(m, view, pmm.bitmap, pmm.bitmapSize, pmm.reserved, pmm.held, f);
      Memset(pmm.mem, f * PAGE_SIZE, 0, PAGE_SIZE);
      return Some(f);
    }

    /** One step of the walk: the table that entry i of table t links to, created if the entry is
        absent. */
    method NextTable(t: nat, i: nat) returns (r: Option<nat>)
      requires Valid() && t in places && 1 < places[t].level && i < 512
      modifies this, pmm`held, pmm.mem
      ensures Valid()
      ensures r.None? ==> Full() && Now() == old(Now())
      ensures r.Some? ==> r.value in places && places[r.value] == ChildPlace(old(places), t, i)
      ensures old(view[t][i].present) || old(view[t][i]) == ABSENT
      ensures r.Some? && !old(view[t][i].present) ==>
          && r.value !in old(places) && view == WithTable(old(view), t, i, r.value)
          && r.value in old(Free()) && pmm.held == old(pmm.held) + {r.value}
      ensures forall u: int :: u in places && u !in old(places) ==> r == Some(u)
      ensures old(view[t][i].present) ==> r.Some? && Now() == old(Now())
      ensures Grew(old(Now()), Now(), pmm.reserved)
    {
      hide Tracks, Flat, PutEntry, Grew, TablesAdded;
      var currentEntry := ReadEntry(t, i);
      assert TableOk(view, places, t) && LinkOk(view, places, t, i);
      GrewReflexive(Now(), pmm.reserved);
      if currentEntry.present {
        return Some(currentEntry.addr);
      }
      var f :- NewTable();
      currentEntry := currentEntry.(addr := f, present := true, readWrite := true, userSupervisor := true);
      SamePageTransitive(old(pmm.mem[..]), pmm.mem[..], PutEntry(pmm.mem[..], t, i, Link(f)));
      LinkTable(t, i, f);
      LinkingGrows(old(Now()), Now(), t, i, f, pmm.reserved);
      return Some(f);
    }

    /** Stores the link to a new table, which joins the tree. */
    method LinkTable(t: nat, i: nat, f: nat)
      requires pmm.Valid() && Stored(pmm.mem[..], view) && Owned(view, places)
      requires t in places && 1 < places[t].level && i < 512 && view[t][i] == ABSENT
      requires f !in places && f in pmm.held && places.Keys <= pmm.held && TableStored(pmm.mem[..], f, EmptyTable())
      modifies this, pmm.mem
      ensures Valid() && view == WithTable(old(view), t, i, f)
      ensures places == old(places)[f := ChildPlace(old(places), t, i)]
      ensures pmm.mem[..] == PutEntry(old(pmm.mem[..]), t, i, Link(f))
      ensures forall p: nat :: p != t ==> SamePage(old(pmm.mem[..]), pmm.mem[..], p)
    {
      TableKeepsOwned(view, places, t, i, f);
      StoreEntry(t, i, Link(f));
      TableFrame(old(pmm.mem[..]), pmm.mem[..], f, EmptyTable());
      ghost var m := pmm.mem[..];
      view := view[f := EmptyTable()];
      places := places[f := ChildPlace(places, t, i)];
      assert pmm.mem[..] == m;
    }

    /** The walk from a root to the leaf table of a page, allocating every missing table. The
        result is the frame of the leaf table; the entry is at index Pi in it. */
    method PageFromIndex(pt: nat, Pi: nat, PTi: nat, PDi: nat, PDPi: nat, ghost key: nat) returns (r: Option<nat>)
      requires Valid() && IsRoot(places, pt) && key < KEYS
      requires Pi == Index(key, 1) && PTi == Index(key, 2) && PDi == Index(key, 3) && PDPi == Index(key, 4)
      modifies this, pmm`held, pmm.mem
      ensures Valid()
      ensures r.None? ==> Full()
      ensures r.Some? ==> OnPath(places, r.value, pt, key, 1)
      ensures WalkingFrom(old(Now()), pt, key)
      ensures r.Some? <==> old(Affords(pt, key))
    {
      hide Tracks, Stored, Owned, Flat, Missing, Unmarked, FirstRun, Prefix, Index, Grew, SamePage;
      RootOnPath(view, places, pt, key);
      ghost var s := Now();
      GrewReflexive(s, pmm.reserved);
      ghost var free := Free();
      var PDP :- WalkStep(pt, PDPi, pt, key, 4, s, free);
      var PD :- WalkStep(PDP, PDi, pt, key, 3, s, free);
      r := WalkStep(PD, PTi, pt, key, 2, s, free);
      if r.Some? {
        PlaceIsReached(view, places, r.value, key);
        MissingFrom(view, pt, key, 1);
      }
    }

    ghost predicate WalkingFrom(s: State, root: nat, key: nat)
      reads this, pmm, pmm.mem
    {
      Walking(s, Now(), pmm.reserved, root, key)
    }

    /** The next table on the walk for `key`, and what it costs. */
    method NextPaid(t: nat, i: nat, ghost root: nat, ghost key: nat, ghost level: nat) returns (r: Option<nat>)
      requires Valid() && 1 < level <= 4 && OnPath(places, t, root, key, level) && i == Index(key, level) && key < KEYS
      modifies this, pmm`held, pmm.mem
      ensures Valid()
      ensures r.None? ==> Full() && Now() == old(Now()) && |Free()| < Missing(view, root, key, 4)
      ensures r.Some? ==> r.value in places && places[r.value] == ChildPlace(old(places), t, i)
      ensures forall u: int :: u in places && u !in old(places) ==> r == Some(u)
      ensures old(view[t][i].present) ==> r.Some? && Now() == old(Now())
      ensures Grew(old(Now()), Now(), pmm.reserved)
      ensures Paid(old(Now()), old(Free()), root, key)
    {
      hide Tracks, Stored, Missing, Unmarked, FirstRun, Flat, Grew, WithTable;
      ghost var s, free := Now(), Free();
      r := NextTable(t, i);
      if !s.view[t][i].present {
        StepPaid(s, t, root, key, level, free, r);
      }
    }

    /** The walk for `key` from state s on has used up one free page for each missing table it created. */
    ghost predicate Paid(s: State, free: set<nat>, root: nat, key: nat)
      reads this, pmm
    {
      |Free()| + Missing(s.view, root, key, 4) == |free| + Missing(view, root, key, 4)
    }

    /** One level of the walk for `key`. */
    method WalkStep(t: nat, i: nat, ghost root: nat, ghost key: nat, ghost level: nat,
                    ghost s: State, ghost free: set<nat>) returns (r: Option<nat>)
      requires Valid() && 1 < level <= 4 && OnPath(places, t, root, key, level) && i == Index(key, level) && key < KEYS
      requires WalkingFrom(s, root, key) && Paid(s, free, root, key)
      modifies this, pmm`held, pmm.mem
      ensures Valid() && WalkingFrom(s, root, key) && Paid(s, free, root, key)
      ensures r.None? ==> Full() && |free| < Missing(s.view, root, key, 4)
      ensures r.Some? ==> OnPath(places, r.value, root, key, level - 1)
    {
      hide Tracks, Stored, Missing, Unmarked, FirstRun, Flat;
      if TableAt(s.view, root, key, 1).Some? {
        CompleteWalkAt(view, places, t, root, key, level);
      }
      ChildOnPath(places, t, root, key, level);
      ghost var s' := Now();
      r := NextPaid(t, i, root, key, level);
      WalkAdvances(s, s', Now(), pmm.reserved, t, root, key, level);
    }

    /** Creating the next table costs one free page and leaves one table less to create. */
    lemma StepPaid(s: State, t: nat, root: nat, key: nat, level: nat, free: set<nat>, r: Option<nat>)
      requires Owned(s.view, s.places) && 1 < level <= 4 && OnPath(s.places, t, root, key, level) && key < KEYS
      requires s.view[t][Index(key, level)] == ABSENT && free == Unmarked(pmm.reserved + s.held, pmm.Tracked())
      requires if r.Some? then
                 && r.value !in s.places && r.value in free && pmm.held == s.held + {r.value}
                 && view == WithTable(s.view, t, Index(key, level), r.value)
               else view == s.view && pmm.held == s.held && Full()
      ensures if r.Some? then |Free()| + Missing(s.view, root, key, 4) == |free| + Missing(view, root, key, 4)
              else Free() == free == {} && 0 < Missing(view, root, key, 4)
    {
      PlaceIsReached(s.view, s.places, t, key);
      if r.Some? {
        TableIsFound(s.view, s.places, t, r.value, root, key, level);
        OneFreePageLess(pmm.reserved + s.held, pmm.Tracked(), r.value);
        assert pmm.reserved + s.held + {r.value} == pmm.reserved + pmm.held;
      } else {
        FullMeansNoneFree();
        MissingFrom(s.view, root, key, level);
      }
    }

    method PageIndex(virtAddr: nat) returns (Pi: nat, PTi: nat, PDi: nat, PDPi: nat)
      ensures Pi == Index(Key(virtAddr), 1) && PTi == Index(Key(virtAddr), 2)
      ensures PDi == Index(Key(virtAddr), 3) && PDPi == Index(Key(virtAddr), 4)
      ensures Pi == virtAddr / 0x1000 % 512 && PTi == virtAddr / 0x20_0000 % 512
      ensures PDi == virtAddr / 0x4000_0000 % 512 && PDPi == virtAddr / 0x80_0000_0000 % 512
    {
      var v := virtAddr / PAGE_SIZE;
      IndexOfAddress(v);
      ShiftedAddress(virtAddr);
      Pi := v % 512;
      v := v / 512;
      PTi := v % 512;
      v := v / 512;
      PDi := v % 512;
      v := v / 512;
      PDPi := v % 512;
    }

    /** A new, empty address space. */
    method NewPt() returns (r: Option<nat>)
      requires Valid()
      modifies this, pmm`held, pmm.mem
      ensures Valid()
      ensures r.Some? <==> old(Free()) != {}
      ensures r.None? ==> Full() && Now() == old(Now())
      ensures r.Some? ==> r.value !in old(pmm.held) + pmm.reserved && pmm.held == old(pmm.held) + {r.value}
      ensures r.Some? ==> places == old(places)[r.value := Place(r.value, 4, 0, r.value)]
      ensures r.Some? ==> forall key: nat :: key < KEYS ==> Flat(view, r.value, key) == ABSENT
      ensures r.Some? ==> SameFlat(old(view), view, old(places))
      ensures forall p: nat :: p !in pmm.reserved && p !in places ==> SamePage(old(pmm.mem[..]), pmm.mem[..], p)
    {
      var f :- NewTable();
      ghost var m := pmm.mem[..];
      RootKeepsOwned(view, places, f);
      forall root: nat, key: nat | (root == f || IsRoot(places, root)) && key < KEYS
        ensures Flat(WithRoot(view, f), root, key) == if root == f then ABSENT else Flat(view, root, key)
      {
        RootKeepsFlat(view, places, f, root, key);
      }
      view, places := WithRoot(view, f), places[f := Place(f, 4, 0, f)];
      assert pmm.mem[..] == m;
      return Some(f);
    }

    method StoreOver(t: nat, i: nat, e: Entry)
      requires pmm.Valid() && Stored(pmm.mem[..], view) && places.Keys <= pmm.held && t in places && t in view
      requires i < 512 && e.Fits()
      modifies this`view, pmm.mem
      ensures pmm.Valid() && Stored(pmm.mem[..], view) && view == WithEntry(old(view), t, i, e)
      ensures forall p: nat :: p != t ==> SamePage(old(pmm.mem[..]), pmm.mem[..], p)
    {
      StoreEntry(t, i, e);
    }

    /** Rewrites the leaf entry reached by a walk. */
    method StoreLeaf(t: nat, i: nat, e: Entry, ghost root: nat, ghost key: nat, ghost s: State)
      requires Valid() && OnPath(places, t, root, key, 1) && key < KEYS && i == Index(key, 1) && e.Fits()
      requires WalkingFrom(s, root, key)
      modifies this`view, pmm.mem
      ensures pmm.held == old(pmm.held) && places == old(places) && IsRoot(places, root)
      ensures TableAt(view, root, key, 1) == Some(t) && Flat(view, root, key) == e
      ensures Valid() && Remapped(s, Now(), pmm.reserved, root, key, e)
    {
      hide Tracks, Flat, Stored, Owned, TableAt, Remapped, Walking, PutEntry, SamePage;
      LeafInView(view, places, t, root, key);
      ghost var s1 := Now();
      StoreOver(t, i, e);
      LeafWriteRemaps(s, s1, Now(), t, root, key, e, pmm.reserved);
    }

    /** The walk that map, unmap and set_flags begin with, and the leaf entry it ends at. */
    method FindLeaf(pt: nat, virtAddr: nat) returns (pte: Option<nat>, i: nat, e: Entry)
      requires Valid() && IsRoot(places, pt)
      modifies this, pmm`held, pmm.mem
      ensures Valid() && WalkingFrom(old(Now()), pt, Key(virtAddr)) && i == Index(Key(virtAddr), 1)
      ensures pte.None? ==> Full()
      ensures pte.Some? <==> old(Affords(pt, Key(virtAddr)))
      ensures pte.Some? ==> OnPath(places, pte.value, pt, Key(virtAddr), 1)
      ensures pte.Some? ==> e == old(Flat(view, pt, Key(virtAddr))) && e.Fits()
    {
      var Pi, PTi, PDi, PDPi := PageIndex(virtAddr);
      pte := PageFromIndex(pt, Pi, PTi, PDi, PDPi, Key(virtAddr));
      i, e := Pi, ABSENT;
      if pte.Some? {
        LeafOnPath(view, places, pte.value, pt, Key(virtAddr));
        e := ReadEntry(pte.value, Pi);
      }
    }

    /** Sets the flags of one page, and changes no other page of any address space. */
    method SetFlags(pt: nat, virtAddr: nat, flags: int) returns (ok: bool)
      requires Valid() && IsRoot(places, pt)
      modifies this, pmm`held, pmm.mem
      ensures Valid()
      ensures ok ==> Remapped(old(Now()), Now(), pmm.reserved, pt, Key(virtAddr),
                              WithFlags(old(Flat(view, pt, Key(virtAddr))), flags))
      ensures ok <==> old(Affords(pt, Key(virtAddr)))
      ensures !ok ==> Full() && Grew(old(Now()), Now(), pmm.reserved)
      ensures old(TableAt(view, pt, Key(virtAddr), 1).Some?) ==>
          ok && places == old(places) && pmm.held == old(pmm.held)
    {
      hide Tracks, Flat, Stored, Owned;
      if TableAt(view, pt, Key(virtAddr), 1).Some? {
        MissingFrom(view, pt, Key(virtAddr), 1);
      }
      var pte, i, e := FindLeaf(pt, virtAddr);
      if pte.None? {
        return false;
      }
      StoreLeaf(pte.value, i, WithFlags(e, flags), pt, Key(virtAddr), old(Now()));
      return true;
    }

    /** Maps the page of virtAddr to the frame of physAddr: its leaf entry gets that frame and
        exactly the requested flags. */
    method Map(pt: nat, physAddr: nat, virtAddr: nat, flags: int) returns (ok: bool)
      requires Valid() && IsRoot(places, pt)
      modifies this, pmm`held, pmm.mem
      ensures Valid()
      ensures ok ==> Remapped(old(Now()), Now(), pmm.reserved, pt, Key(virtAddr),
                              MappedTo(old(Flat(view, pt, Key(virtAddr))), physAddr / PAGE_SIZE, flags))
      ensures ok <==> old(Affords(pt, Key(virtAddr)))
      ensures !ok ==> Full() && Grew(old(Now()), Now(), pmm.reserved)
    {
      hide Tracks, Flat, Stored, Owned;
      var pte, i, e := FindLeaf(pt, virtAddr);
      if pte.None? {
        return false;
      }
      e := e.(addr := physAddr / PAGE_SIZE % ADDR_LIMIT);
      StoreLeaf(pte.value, i, e, pt, Key(virtAddr), old(Now()));
      ghost var s1 := Now();
      ok := SetFlags(pt, virtAddr, flags);
      RemappedTwice(old(Now()), s1, Now(), pt, Key(virtAddr), e, WithFlags(e, flags), pmm.reserved);
    }

    /** Makes the page of virtAddr absent, with frame 0. The walk may create tables for it. */
    method Unmap(pt: nat, virtAddr: nat) returns (ok: bool)
      requires Valid() && IsRoot(places, pt)
      modifies this, pmm`held, pmm.mem
      ensures Valid()
      ensures ok ==> Remapped(old(Now()), Now(), pmm.reserved, pt, Key(virtAddr),
                              old(Flat(view, pt, Key(virtAddr))).(present := false, addr := 0))
      ensures ok <==> old(Affords(pt, Key(virtAddr)))
      ensures !ok ==> Full() && Grew(old(Now()), Now(), pmm.reserved)
    {
      hide Tracks, Flat, Stored, Owned;
      var pte, i, e := FindLeaf(pt, virtAddr);
      if pte.None? {
        return false;
      }
      StoreLeaf(pte.value, i, e.(present := false, addr := 0), pt, Key(virtAddr), old(Now()));
      return true;
    }

    /** What freeing the frames `freed` does: they are no longer held, and no page other than they
        and the reserved pages has changed. */
    ghost predicate Freed(freed: seq<nat>, held0: set<nat>, m0: Bytes)
      reads pmm, pmm.mem
    {
      && pmm.Valid() && pmm.held == held0 - FrameSet(freed)
      && forall p: nat :: p !in pmm.reserved + FrameSet(freed) ==> SamePage(m0, pmm.mem[..], p)
    }

    /** The loop over the first n entries of a table, whose children are at level c: frees
        everything below each present entry, and then the frame the entry names. */
    method DestroyEntries(t: nat, c: nat, n: nat)
      requires pmm.Valid() && Owned(view, places) && t in places && places[t].level == c + 1 && n <= 512
      requires Ready(pmm.mem[..], view, pmm.held, t, FreedBelow(view, t, c, n))
      modifies pmm`held, pmm.mem
      ensures Freed(FreedBelow(view, t, c, n), old(pmm.held), old(pmm.mem[..]))
      decreases c, 2
    {
      hide Ready, Owned;
      var i := 0;
      while i < n
        invariant 0 <= i <= n
        invariant Freed(FreedBelow(view, t, c, i), old(pmm.held), old(pmm.mem[..]))
      {
        DestroyNext(t, c, i, n, old(pmm.held), old(pmm.mem[..]));
        i := i + 1;
      }
    }

    method DestroyNext(t: nat, c: nat, i: nat, ghost n: nat, ghost held0: set<nat>, ghost m0: Bytes)
      requires Owned(view, places) && t in places && places[t].level == c + 1 && i < n <= 512
      requires Ready(m0, view, held0, t, FreedBelow(view, t, c, n)) && pmm.reserved !! held0
      requires Freed(FreedBelow(view, t, c, i), held0, m0)
      modifies pmm`held, pmm.mem
      ensures Freed(FreedBelow(view, t, c, i + 1), held0, m0)
      decreases c, 1
    {
      ghost var before, next := FreedBelow(view, t, c, i), FreedByEntry(view, view[t][i], c);
      ghost var rest := FreedPrefix(view, t, c, i, n);
      ReadyFirst(m0, view, held0, t, before + next, rest);
      ReadyRest(m0, pmm.mem[..], view, held0, t, before, next, pmm.reserved);
      ghost var m1 := pmm.mem[..];
      DestroyEntry(t, c, i);
      SamePageTransitive(m0, m1, pmm.mem[..]);
      assert FrameSet(before + next) == FrameSet(before) + FrameSet(next);
    }

    /** Frees everything below one entry, and then the frame it names. */
    method DestroyEntry(t: nat, c: nat, i: nat)
      requires pmm.Valid() && Owned(view, places) && t in places && places[t].level == c + 1 && i < 512
      requires Ready(pmm.mem[..], view, pmm.held, t, FreedByEntry(view, view[t][i], c))
      modifies pmm`held, pmm.mem
      ensures Freed(FreedByEntry(view, view[t][i], c), old(pmm.held), old(pmm.mem[..]))
      decreases c, 0
    {
      assert TableStored(pmm.mem[..], t, view[t]);
      var e := EntryAt(pmm.mem[..], t, i);
      if e.present {
        if c == 0 {
          FreeFrame(e.addr, [], old(pmm.held), old(pmm.mem[..]));
        } else {
          ghost var below := FreedBelow(view, e.addr, c - 1, 512);
          assert TableOk(view, places, t) && LinkOk(view, places, t, i);
          ReadyChild(pmm.mem[..], view, pmm.held, t, below, e.addr);
          DestroyEntries(e.addr, c - 1, 512);
          FreeFrame(e.addr, below, old(pmm.held), old(pmm.mem[..]));
        }
      }
    }

    /** Frees one frame after the frames `freed`. */
    method FreeFrame(f: nat, ghost freed: seq<nat>, ghost held0: set<nat>, ghost m0: Bytes)
      requires Freed(freed, held0, m0) && f in pmm.held
      modifies pmm`held, pmm.mem
      ensures Freed(freed + [f], held0, m0)
    {
      ghost var m1 := pmm.mem[..];
      HeldInMemory(m1, pmm.bitmap, pmm.bitmapSize, pmm.reserved, pmm.held, f, 1);
      pmm.Free(f * PAGE_SIZE, 1);
      SamePageTransitive(m0, m1, pmm.mem[..]);
      assert FrameSet(freed + [f]) == FrameSet(freed) + Pages(f, 1);
    }

    ghost function SpaceOf(root: nat): Space
      reads this, pmm
    {
      Space(view, places, pmm.held, root)
    }

    /** Destroys an address space. The frames given back are exactly its root, its lower-half tables
        and the frames of its present lower-half pages; its upper-half tables, which the source does
        not look at, stay held. No other address space is touched. */
    method Destroy(pt: nat)
      requires Valid() && IsRoot(places, pt) && OwnLeaves(view, places, pmm.held, pt)
      modifies this, pmm`held, pmm.mem
      ensures Valid()
      ensures view == old(Others(view, places, pt)) && places == old(Others(places, places, pt))
      ensures forall x: nat :: x in pmm.held <==> x in old(pmm.held) && !Doomed(old(SpaceOf(pt)), x)
      ensures forall r: nat, k: nat :: r != pt && old(IsRoot(places, r)) && k < KEYS ==>
          Flat(view, r, k) == old(Flat(view, r, k))
      ensures forall p: nat :: p !in pmm.reserved && !Doomed(old(SpaceOf(pt)), p) ==> SamePage(old(pmm.mem[..]),
          pmm.mem[..], p)
    {
      hide Stored, OwnLeaves, Doomed, Owned, FreedBelow;
      TearDown(pt);
      ghost var sp := old(SpaceOf(pt));
      FreedExactly(sp);
      OthersOwned(view, places, pt);
      OthersStored(old(pmm.mem[..]), pmm.mem[..], sp, pmm.reserved);
      forall r: nat, k: nat | r != pt && IsRoot(places, r) && k < KEYS
        ensures Flat(Others(view, places, pt), r, k) == Flat(view, r, k)
      {
        OthersFlat(view, places, pt, r, k);
      }
      ghost var m := pmm.mem[..];
      view, places := Others(view, places, pt), Others(places, places, pt);
      assert pmm.mem[..] == m;
    }

    /** The loops of the teardown: the lower half of the root, then the root. */
    method TearDown(pt: nat)
      requires Valid() && IsRoot(places, pt) && OwnLeaves(view, places, pmm.held, pt)
      modifies pmm`held, pmm.mem
      ensures Freed(FreedBelow(view, pt, 3, 256) + [pt], old(pmm.held), old(pmm.mem[..]))
    {
      ghost var below := FreedBelow(view, pt, 3, 256);
      ReadyRoot(pmm.mem[..], SpaceOf(pt));
      DestroyEntries(pt, 3, 256);
      FreeFrame(pt, below, old(pmm.held), old(pmm.mem[..]));
    }
  }
}
