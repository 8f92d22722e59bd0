/** Runs of the kernel's memory: what clients may ask for, what everything looks like at one moment, and
    what one operation may change. */
module Runs {
  import opened Wrappers
  import opened Memory
  import opened PhysicalPages
  import opened PageTableEntry
  import opened TableTree
  import opened TreeTeardown
  import opened PageTables
  import opened HeapList
  import opened HeapMemory
  import opened KernelClients
  import opened Spaces
  import opened Hardware

  /** What clients may do; and Access, by which the processor sets its bits in the entry of one level on
      the walk for an address, as it may at any time. Loans, grants and address spaces are named by
      their position among those handed out. An operation that names none, stores outside what it names,
      or destroys a space that is not destroyable, is not the client's to ask for, and does nothing. */
  datatype Op =
    | Malloc(size: nat)
    | Zalloc(size: nat)
    | Free(loan: nat)
    | Store(loan: nat, off: nat, byte: bv8)
    | AllocPages(n: nat)
    | FreePages(grant: nat)
    | StorePage(grant: nat, off: nat, byte: bv8)
    | NewSpace
    | Map(to: Target, physAddr: nat, virtAddr: nat, flags: int)
    | Unmap(to: Target, virtAddr: nat)
    | SetFlags(to: Target, virtAddr: nat, flags: int)
    | DestroySpace(space: nat)
    | Access(to: Target, virtAddr: nat, level: nat, write: bool)

  /** The page count of a request fits the int that the page allocator takes. */
  predicate Small(op: Op) {
    match op
    case Malloc(size) => RegionPageCount(RoundRequest(size)) < 0x8000_0000
    case Zalloc(size) => RegionPageCount(RoundRequest(size)) < 0x8000_0000
    case AllocPages(n) => n < 0x8_0000
    case _ => true
  }

  /** What does not change in a run: the size of memory, the reserved pages, the bitmap's place, and the
      kernel's address space as it was built at boot. */
  datatype Ground = Ground(limit: nat, reserved: set<nat>, bitmap: nat, size: nat, kernelPT: nat, boot: View)

  /** The heap's own books: the headers, the two ends of the list, and the byte counters. */
  datatype Books = Books(headers: Headers, first: nat, last: nat, size: nat, usable: nat, regions: nat)

  /** Everything at one moment: memory and its tables, the heap, and what clients hold and have asked for,
      of their own spaces and of the kernel's. */
  datatype Moment = Moment(s: State, blocks: Blocks, books: Books, pages: set<nat>, spaces: seq<nat>,
                           loans: seq<Loan>, grants: seq<Grant>, flat: seq<FlatMap>, over: FlatMap)

  /** The heap's list is linked through memory, its blocks tile its pages, fully coalesced, and its bytes
      are conserved. */
  ghost predicate HeapIntact(m: Bytes, blocks: Blocks, books: Books, pages: set<nat>) {
    && HeadersStored(m, books.headers) && Chain(books.headers, blocks, pages, books.first, books.last, |m|)
    && Account(blocks, pages, books.size, books.usable, books.regions) && Coalesced(blocks)
  }

  /** What is true at every moment: the bitmap marks exactly the reserved and the held pages; memory holds
      the page tables, each in one place; the heap is intact; heap, tables and grants lie apart in held
      pages; every loan and every grant holds the bytes its holder last left there; the tables stand for
      the clients' address spaces, and the kernel's own is as it was built, or as was asked for since. */
  ghost predicate Intact(g: Ground, t: Moment) {
    && |t.s.mem| == g.limit && Tracks(t.s.mem, g.bitmap, g.size, g.reserved, t.s.held)
    && Stored(t.s.mem, t.s.view) && Owned(t.s.view, t.s.places) && t.s.places.Keys <= t.s.held
    && HeapIntact(t.s.mem, t.blocks, t.books, t.pages) && t.pages <= t.s.held
    && (forall x: nat :: x in t.s.places ==> x !in t.pages)
    && AllLent(t.blocks, t.s.mem, t.loans)
    && GrantsOutside(t.s.mem, t.grants, t.s.held, t.pages, t.s.places)
    && StandFor(t.s.view, t.s.places, t.spaces, t.flat)
    && KernelStands(t.s.view, t.s.places, t.spaces, g.kernelPT, g.boot, t.over)
  }

  lemma HeapIntactTiles(m: Bytes, blocks: Blocks, books: Books, pages: set<nat>)
    requires HeapIntact(m, blocks, books, pages)
    ensures Tiles(blocks, pages) && Coalesced(blocks) && 0 < |blocks|
  {
    hide HeadersStored, Tiles, Linked, Account, Coalesced;
  }

  // ----- What one operation changes -----

  /** One more loan, of at least the bytes asked for and at most 47 more. */
  ghost predicate LentMore(loans: seq<Loan>, loans': seq<Loan>, size: nat) {
    |loans'| == |loans| + 1 && loans'[..|loans|] == loans && size <= |loans'[|loans|].contents| <= size + 47
  }

  ghost predicate LoansStep(loans: seq<Loan>, op: Op, loans': seq<Loan>) {
    match op
    case Malloc(size) => LentMore(loans, loans', size)
    case Zalloc(size) =>
      LentMore(loans, loans', size) && forall x: nat :: x < size ==> loans'[|loans|].contents[x] == 0
    case Free(k) => loans' == Removed(loans, k)
    case Store(k, off, b) =>
      loans' == if k < |loans| && off < |loans[k].contents| then
                   loans[k := Loan(loans[k].ptr, loans[k].contents[off := b])] else loans
    case _ => loans' == loans
  }

  /** One more grant: the lowest run of n pages that were neither held nor reserved. */
  ghost predicate GrantedMore(g: Ground, held: set<nat>, grants: seq<Grant>, grants': seq<Grant>, n: nat) {
    && |grants'| == |grants| + 1 && grants'[..|grants|] == grants && grants'[|grants|].n == n
    && LowestFreeRun(g.reserved + held, 8 * g.size, grants'[|grants|].base, n)
  }

  ghost predicate GrantsStep(g: Ground, t: Moment, op: Op, grants': seq<Grant>) {
    match op
    case AllocPages(n) => GrantedMore(g, t.s.held, t.grants, grants', n)
    case FreePages(k) => grants' == Removed(t.grants, k)
    case StorePage(k, off, b) =>
      grants' == if k < |t.grants| && off < |t.grants[k].contents|
                 then t.grants[k := Grant(t.grants[k].base, t.grants[k].n, t.grants[k].contents[off := b])]
                 else t.grants
    case DestroySpace(j) =>
      grants' == if MayDestroy(t, j) then Without(t.grants, LeafFrames(t.flat[j])) else t.grants
    case _ => grants' == t.grants
  }

  ghost predicate MayDestroy(t: Moment, j: nat) {
    j < |t.flat| && Destroyable(t.flat[j], t.grants)
  }

  /** The root table, and the leaf entry asked for, of a target. */
  ghost function Root(g: Ground, t: Moment, to: Target): Option<nat> {
    RootOf(t.spaces, g.kernelPT, to)
  }

  ghost function Wanted(g: Ground, t: Moment, to: Target, key: nat): Entry {
    WantedIn(t.flat, g.kernelPT, g.boot, t.over, to, key)
  }

  predicate IsMapping(op: Op) {
    op.Map? || op.Unmap? || op.SetFlags?
  }

  /** The leaf entry that a mapping request leaves where it finds e. */
  function RequestOn(op: Op, e: Entry): Entry
    requires IsMapping(op)
  {
    match op
    case Map(_, p, _, flags) => MappedTo(e, p / PAGE_SIZE, flags)
    case Unmap(_, _) => e.(present := false, addr := 0)
    case SetFlags(_, _, flags) => WithFlags(e, flags)
  }

  lemma RequestOnAlike(op: Op, e: Entry, f: Entry)
    requires IsMapping(op) && Alike(e, f)
    ensures Alike(RequestOn(op, e), RequestOn(op, f))
  {
    hide WithFlags;
    match op
    case Map(_, p, _, flags) =>
      var frame := p / PAGE_SIZE % ADDR_LIMIT;
      FlagsAlike(e.(addr := frame), f.(addr := frame), flags);
    case Unmap(_, _) =>
    case SetFlags(_, _, flags) => FlagsAlike(e, f, flags);
  }

  lemma FlagsAlike(e: Entry, f: Entry, flags: int)
    requires Alike(e, f)
    ensures Alike(WithFlags(e, flags), WithFlags(f, flags))
  {
    hide Has;
  }

  ghost function Requested(g: Ground, t: Moment, op: Op): Entry
    requires IsMapping(op)
  {
    RequestOn(op, Wanted(g, t, op.to, Key(op.virtAddr)))
  }

  /** The address spaces, as clients think of them, after an operation. */
  ghost predicate SpacesStep(g: Ground, t: Moment, op: Op, t': Moment) {
    if IsMapping(op) then
      && t'.flat == PutFlat(t.flat, op.to, Key(op.virtAddr), Requested(g, t, op))
      && t'.over == PutOver(t.over, op.to, Key(op.virtAddr), Requested(g, t, op))
    else
      && t'.over == t.over
      && t'.flat == if op.NewSpace? then t.flat + [map[]]
                    else if op.DestroySpace? && MayDestroy(t, op.space) then Removed(t.flat, op.space)
                    else t.flat
  }

  /** The heap gave out a block for the newest loan: the first fit, or else a new region. */
  ghost predicate BlockGiven(g: Ground, t: Moment, size: nat, t': Moment) {
    var n := RoundRequest(size);
    var out := Kmalloced(t.blocks, n, FirstRun(g.reserved + t.s.held, 8 * g.size, RegionPageCount(n), 0));
    && t'.blocks == out.blocks && t'.pages == t.pages + out.added
    && |t'.loans| == |t.loans| + 1 && out.r == Some(t'.loans[|t.loans|].ptr)
  }

  /** The heap took back the block behind the loan l. */
  ghost predicate BlockReturned(t: Moment, l: Loan, blocks': Blocks) {
    exists i: nat :: i < |t.blocks| && Backs(t.blocks[i], t.s.mem, l) && blocks' == FreeAt(t.blocks, i)
  }

  ghost predicate HeapStep(g: Ground, t: Moment, op: Op, t': Moment) {
    match op
    case Malloc(size) => BlockGiven(g, t, size, t')
    case Zalloc(size) => BlockGiven(g, t, size, t')
    case Free(k) =>
      && t'.pages == t.pages
      && if k < |t.loans| then BlockReturned(t, t.loans[k], t'.blocks) else t'.blocks == t.blocks
    case _ => t'.blocks == t.blocks && t'.pages == t.pages
  }

  /** The roots stay where they are, and the tables too; new ones stand only on the way to the page at
      `key` of the target. */
  ghost predicate TablesFor(g: Ground, t: Moment, to: Target, key: nat, t': Moment) {
    var root := Root(g, t, to);
    && t'.spaces == t.spaces
    && if root.Some? then TablesAdded(t.s, t'.s, g.reserved) && NewOnPath(t.s, t'.s, root.value, key)
       else t'.s.places == t.s.places
  }

  /** A new root, in a frame that nobody held. */
  ghost predicate RootAdded(t: Moment, t': Moment) {
    && |t'.spaces| == |t.spaces| + 1 && t'.spaces[..|t.spaces|] == t.spaces
    && var pt := t'.spaces[|t.spaces|]; pt !in t.s.held && t'.s.places == t.s.places[pt := Place(pt, 4, 0, pt)]
  }

  /** The processor has set its bits in one entry of the target, if that is on a walk at all. */
  ghost predicate EntryAccessed(g: Ground, t: Moment, to: Target, key: nat, level: nat, write: bool, t': Moment) {
    var root := Root(g, t, to);
    && t'.spaces == t.spaces && t'.s.places == t.s.places
    && t'.s.view == if root.Some? && 1 <= level <= 4 then AfterAccess(t.s.view, root.value, key, level, write)
                    else t.s.view
  }

  ghost predicate TablesStep(g: Ground, t: Moment, op: Op, t': Moment) {
    if IsMapping(op) then TablesFor(g, t, op.to, Key(op.virtAddr), t')
    else
      match op
      case NewSpace => RootAdded(t, t')
      case DestroySpace(j) =>
        if MayDestroy(t, j) && j < |t.spaces| then
          t'.spaces == Removed(t.spaces, j) && t'.s.places == Others(t.s.places, t.s.places, t.spaces[j])
        else t'.spaces == t.spaces && t'.s.places == t.s.places
      case Access(to, v, level, write) => EntryAccessed(g, t, to, Key(v), level, write, t')
      case _ => t'.spaces == t.spaces && t'.s.places == t.s.places
  }

  /** The pages that are held, and are no page of the heap, no table and no client's. */
  ghost function Unowned(t: Moment): set<nat> {
    Spare(t.s) - t.pages - GrantPages(t.grants)
  }

  /** Pages taken for the heap or for a client are owned from then on. */
  lemma TakenAreOwned(s: State, s': State, pages: set<nat>, pages': set<nat>, grants: set<nat>, grants': set<nat>)
    requires s'.places == s.places && s.held <= s'.held && pages <= pages' && grants <= grants'
    requires pages' - pages + (grants' - grants) == s'.held - s.held
    ensures Spare(s') - pages' - grants' == Spare(s) - pages - grants
  {
    forall x: nat
      ensures x in Spare(s') - pages' - grants' <==> x in Spare(s) - pages - grants
    {
      assert x in pages' - pages + (grants' - grants) <==> x in s'.held - s.held;
    }
  }

  /** A client's pages given back are not held any more. */
  lemma GivenBackAreFree(s: State, s': State, pages: set<nat>, back: set<nat>, grants: set<nat>)
    requires s'.places == s.places && back <= grants && s'.held == s.held - back
    ensures Spare(s') - pages - (grants - back) == Spare(s) - pages - grants
  {
  }

  /** The tables that destroying a space forgets to free: those of its upper half. */
  ghost function UpperTables(places: Places, root: nat): set<nat> {
    set x: nat | x in places && places[x].root == root && x != root && !Lower(places[x].level, places[x].prefix)
  }

  ghost function Leaked(t: Moment, op: Op): set<nat> {
    if op.DestroySpace? && MayDestroy(t, op.space) && op.space < |t.spaces| then
      UpperTables(t.s.places, t.spaces[op.space])
    else {}
  }

  /** Every page taken or given back is accounted for. */
  ghost predicate OwnedStep(t: Moment, op: Op, t': Moment) {
    if op.DestroySpace? then Unowned(t') == Unowned(t) + Leaked(t, op) else Unowned(t') == Unowned(t)
  }

  /** An operation has its effect and no other: clients gain what they asked for, lose only what they gave
      back, and find everything else as they left it; the heap's list, the tables and the roots change as
      the operation says; and every page taken or given back is accounted for. */
  ghost predicate Stepped(g: Ground, t: Moment, op: Op, t': Moment) {
    && LoansStep(t.loans, op, t'.loans)
    && GrantsStep(g, t, op, t'.grants)
    && SpacesStep(g, t, op, t')
    && HeapStep(g, t, op, t')
    && TablesStep(g, t, op, t')
    && OwnedStep(t, op, t')
  }

  // An operation touches one layer only; the others need not be looked at.

  predicate OnHeap(op: Op) {
    op.Malloc? || op.Zalloc? || op.Free? || op.Store?
  }

  predicate OnPages(op: Op) {
    op.AllocPages? || op.FreePages? || op.StorePage?
  }

  predicate OnSpaces(op: Op) {
    op.NewSpace? || op.DestroySpace?
  }

  lemma HeapStepped(g: Ground, t: Moment, op: Op, t': Moment)
    requires OnHeap(op) && LoansStep(t.loans, op, t'.loans) && HeapStep(g, t, op, t') && Unowned(t') == Unowned(t)
    requires t'.grants == t.grants && t'.flat == t.flat && t'.over == t.over
    requires t'.spaces == t.spaces && t'.s.places == t.s.places
    ensures Stepped(g, t, op, t')
  {
    hide LoansStep, HeapStep, Unowned;
  }

  lemma PagesStepped(g: Ground, t: Moment, op: Op, t': Moment)
    requires OnPages(op) && GrantsStep(g, t, op, t'.grants) && Unowned(t') == Unowned(t)
    requires t'.loans == t.loans && t'.blocks == t.blocks && t'.pages == t.pages && t'.flat == t.flat
    requires t'.over == t.over && t'.spaces == t.spaces && t'.s.places == t.s.places
    ensures Stepped(g, t, op, t')
  {
    hide GrantsStep, Unowned;
  }

  lemma SpacesStepped(g: Ground, t: Moment, op: Op, t': Moment)
    requires (OnSpaces(op) || IsMapping(op)) && SpacesStep(g, t, op, t') && TablesStep(g, t, op, t')
    requires OwnedStep(t, op, t') && GrantsStep(g, t, op, t'.grants)
    requires t'.loans == t.loans && t'.blocks == t.blocks && t'.pages == t.pages
    ensures Stepped(g, t, op, t')
  {
    hide SpacesStep, TablesStep, OwnedStep, GrantsStep;
  }

  lemma AccessStepped(g: Ground, t: Moment, op: Op, t': Moment)
    requires op.Access? && EntryAccessed(g, t, op.to, Key(op.virtAddr), op.level, op.write, t')
    requires t' == t.(s := t'.s) && t'.s.held == t.s.held
    ensures Stepped(g, t, op, t')
  {
    hide EntryAccessed, AfterAccess;
    assert t'.s.places == t.s.places by {
      AccessKeepsPlaces(g, t, op.to, Key(op.virtAddr), op.level, op.write, t');
    }
  }

  lemma AccessKeepsPlaces(g: Ground, t: Moment, to: Target, key: nat, level: nat, write: bool, t': Moment)
    requires EntryAccessed(g, t, to, key, level, write, t')
    ensures t'.s.places == t.s.places
  {
    hide AfterAccess;
  }

  /** What the operation names does not exist. */
  ghost predicate Idle(g: Ground, t: Moment, op: Op) {
    match op
    case Free(k) => |t.loans| <= k
    case Store(k, off, _) => |t.loans| <= k || |t.loans[k].contents| <= off
    case FreePages(k) => |t.grants| <= k
    case StorePage(k, off, _) => |t.grants| <= k || |t.grants[k].contents| <= off
    case DestroySpace(j) => !MayDestroy(t, j)
    case Access(to, _, level, _) => Root(g, t, to).None? || !(1 <= level <= 4)
    case _ => IsMapping(op) && Root(g, t, op.to).None?
  }

  lemma IdleStepped(g: Ground, t: Moment, op: Op)
    requires Idle(g, t, op) && |t.spaces| == |t.flat|
    ensures Stepped(g, t, op, t) && !Stuck(g, t, op)
  {
    hide Unowned, AfterAccess, Missing, Unmarked, Requested, Destroyable;
  }

  /** Memory is exhausted as far as this operation is concerned: no block fits and no region can be had;
      no run of that many pages is free; or fewer pages are free than tables are missing on the walk. */
  ghost predicate Stuck(g: Ground, t: Moment, op: Op) {
    var marked, tracked := g.reserved + t.s.held, 8 * g.size;
    match op
    case Malloc(size) => NoBlock(g, t, RoundRequest(size))
    case Zalloc(size) => NoBlock(g, t, RoundRequest(size))
    case AllocPages(n) => NoFreeRun(marked, tracked, n)
    case NewSpace => Unmarked(marked, tracked) == {}
    case Map(to, _, v, _) => Unaffordable(g, t, to, Key(v))
    case Unmap(to, v) => Unaffordable(g, t, to, Key(v))
    case SetFlags(to, v, _) => Unaffordable(g, t, to, Key(v))
    case _ => false
  }

  ghost predicate NoBlock(g: Ground, t: Moment, n: nat) {
    && (forall i: nat :: i < |t.blocks| ==> !FitsIn(t.blocks[i], n))
    && NoFreeRun(g.reserved + t.s.held, 8 * g.size, RegionPageCount(n))
  }

  ghost predicate Unaffordable(g: Ground, t: Moment, to: Target, key: nat) {
    var root := Root(g, t, to);
    root.Some? && |Unmarked(g.reserved + t.s.held, 8 * g.size)| < Missing(t.s.view, root.value, key, 4)
  }

  /** The record of a run: one moment before each operation and one at the end, each intact, each following
      from the one before by its operation, which was not stuck. */
  ghost predicate Recorded(g: Ground, ops: seq<Op>, history: seq<Moment>) {
    && 0 < |history| <= |ops| + 1
    && (forall k: nat :: k < |history| ==> Intact(g, history[k]))
    && (forall k: nat :: k + 1 < |history| ==>
          !Stuck(g, history[k], ops[k]) && Stepped(g, history[k], ops[k], history[k + 1]))
  }

  lemma RecordMore(g: Ground, ops: seq<Op>, history: seq<Moment>, t: Moment)
    requires Recorded(g, ops, history) && |history| <= |ops| && Intact(g, t)
    requires !Stuck(g, history[|history| - 1], ops[|history| - 1])
    requires Stepped(g, history[|history| - 1], ops[|history| - 1], t)
    ensures Recorded(g, ops, history + [t])
  {
    hide Intact, Stepped, Stuck;
  }

  // ----- What a run means for clients -----

  lemma Removing<T>(s: seq<T>, k: nat, x: T)
    requires x in s && (k < |s| ==> s[k] != x)
    ensures x in Removed(s, k)
  {
    var i: nat :| i < |s| && s[i] == x;
    assert Removed(s, k)[if k >= |s| || i < k then i else i - 1] == x;
  }

  /** The operation neither gives back nor writes the loan l. */
  ghost predicate Spares(loans: seq<Loan>, op: Op, l: Loan) {
    match op
    case Free(k) => k < |loans| ==> loans[k] != l
    case Store(k, _, _) => k < |loans| ==> loans[k] != l
    case _ => true
  }

  /** A pointer that its holder neither gives back nor writes keeps its bytes over the whole run, whatever
      everybody else does. */
  lemma {:induction false} LoanLives(g: Ground, ops: seq<Op>, history: seq<Moment>, l: Loan, n: nat)
    requires Recorded(g, ops, history) && l in history[0].loans && n < |history|
    requires forall k: nat :: k < n ==> Spares(history[k].loans, ops[k], l)
    ensures l in history[n].loans && Lent(history[n].blocks, history[n].s.mem, l)
    decreases n
  {
    hide Intact, Stepped;
    if n > 0 {
      LoanLives(g, ops, history, l, n - 1);
      assert Stepped(g, history[n - 1], ops[n - 1], history[n]) && Spares(history[n - 1].loans, ops[n - 1], l);
      LoanSurvives(g, history[n - 1], ops[n - 1], history[n], l);
    }
    assert Intact(g, history[n]);
    StillLent(g, history[n], l);
  }

  lemma StillLent(g: Ground, t: Moment, l: Loan)
    requires Intact(g, t) && l in t.loans
    ensures Lent(t.blocks, t.s.mem, l)
  {
    var i: nat :| i < |t.loans| && t.loans[i] == l;
  }

  lemma LoanSurvives(g: Ground, t: Moment, op: Op, t': Moment, l: Loan)
    requires Stepped(g, t, op, t') && Spares(t.loans, op, l) && l in t.loans
    ensures l in t'.loans
  {
    var i: nat :| i < |t.loans| && t.loans[i] == l;
    match op
    case Malloc(_) => assert t'.loans[..|t.loans|][i] == l;
    case Zalloc(_) => assert t'.loans[..|t.loans|][i] == l;
    case Free(k) => Removing(t.loans, k, l);
    case Store(k, _, _) => assert t'.loans[i] == l;
    case _ =>
  }

  /** The operation neither gives back nor writes the grant x. */
  ghost predicate SparesGrant(t: Moment, op: Op, x: Grant) {
    match op
    case FreePages(k) => k < |t.grants| ==> t.grants[k] != x
    case StorePage(k, _, _) => k < |t.grants| ==> t.grants[k] != x
    case DestroySpace(j) => MayDestroy(t, j) ==> !GoesBack(x, LeafFrames(t.flat[j]))
    case _ => true
  }

  lemma GrantSurvives(g: Ground, t: Moment, op: Op, t': Moment, x: Grant)
    requires Stepped(g, t, op, t') && SparesGrant(t, op, x) && x in t.grants
    ensures x in t'.grants
  {
    var i: nat :| i < |t.grants| && t.grants[i] == x;
    match op
    case AllocPages(_) => assert t'.grants[..|t.grants|][i] == x;
    case FreePages(k) => Removing(t.grants, k, x);
    case StorePage(k, _, _) => assert t'.grants[i] == x;
    case _ =>
  }

  lemma StillGranted(g: Ground, t: Moment, x: Grant)
    requires Intact(g, t) && x in t.grants
    ensures Granted(t.s.mem, x) && Pages(x.base, x.n) <= t.s.held
  {
    var i: nat :| i < |t.grants| && t.grants[i] == x;
    GrantIn(t.s.mem, t.grants, i);
  }

  /** Pages that their holder neither gives back nor writes stay held and keep their bytes over the whole
      run: no poison, no table and no heap header ever lands in them. */
  lemma {:induction false} GrantLives(g: Ground, ops: seq<Op>, history: seq<Moment>, x: Grant, n: nat)
    requires Recorded(g, ops, history) && x in history[0].grants && n < |history|
    requires forall k: nat :: k < n ==> SparesGrant(history[k], ops[k], x)
    ensures x in history[n].grants && Granted(history[n].s.mem, x) && Pages(x.base, x.n) <= history[n].s.held
    decreases n
  {
    hide Intact, Stepped;
    if n > 0 {
      GrantLives(g, ops, history, x, n - 1);
      assert Stepped(g, history[n - 1], ops[n - 1], history[n]) && SparesGrant(history[n - 1], ops[n - 1], x);
      GrantSurvives(g, history[n - 1], ops[n - 1], history[n], x);
    }
    assert Intact(g, history[n]);
    StillGranted(g, history[n], x);
  }

  /** New pages are never outstanding ones: a fresh grant shares no page with the bitmap, page 0, unusable
      memory, the heap, any page table, or any grant still held. */
  lemma GrantIsFresh(g: Ground, t: Moment, n: nat, t': Moment)
    requires Intact(g, t) && Stepped(g, t, AllocPages(n), t')
    ensures var more := t'.grants[|t.grants|];
            && more.n == n && 0 < n
            && Pages(more.base, n) !! g.reserved && Pages(more.base, n) !! t.pages
            && Pages(more.base, n) !! GrantPages(t.grants)
            && forall x: nat :: x in t.s.places ==> x !in Pages(more.base, n)
  {
    hide Tracks, Stored, Owned, HeapIntact, AllLent, StandFor, KernelStands, AllGranted;
  }

  /** At every moment of a run the processor, walking memory, sees for every address in every address
      space, the kernel's included, exactly what was asked for at its page. */
  lemma ProcessorSeesSpaces(g: Ground, t: Moment, frames: nat, to: Target, a: nat)
    requires Intact(g, t) && Root(g, t, to).Some? && g.limit <= frames * PAGE_SIZE
    ensures HardwareWalk(t.s.mem, frames, Root(g, t, to).value, a, 4, true, true, true) ==
            LeafTranslation(Wanted(g, t, to, a / 0x1000 % 0x10_0000_0000), frames)
  {
    hide HardwareWalk, LeafTranslation, Alike, Flat, Stored, Owned, Tracks, HeapIntact, AllLent, GrantsOutside;
    var root, key := Root(g, t, to).value, a / 0x1000 % 0x10_0000_0000;
    TargetStands(t.s.view, t.s.places, t.spaces, t.flat, g.kernelPT, g.boot, t.over, to, key);
    HardwareSeesFlat(t.s.mem, frames, t.s.view, t.s.places, root, a);
    AlikeGrantsAlike(Flat(t.s.view, root, key), Wanted(g, t, to, key), frames);
  }

  /** What is wanted after a mapping request. */
  lemma WantedAfter(g: Ground, t: Moment, op: Op, t': Moment, at: Target, key: nat)
    requires IsMapping(op) && SpacesStep(g, t, op, t')
    requires op.to.OfClient? ==> op.to.space < |t.flat|
    ensures Wanted(g, t', at, key) ==
            if at == op.to && key == Key(op.virtAddr) then Requested(g, t, op) else Wanted(g, t, at, key)
  {
    hide Flat, Requested;
  }

  /** The addresses name the same page: they agree in bits 12 to 47. */
  predicate SamePageOf(a: nat, v: nat) {
    a / 0x1000 % 0x10_0000_0000 == v / 0x1000 % 0x10_0000_0000
  }

  /** What a mapping request at address v of one target means to the processor at address a of any: what
      the requested leaf entry grants, or what the processor saw before. */
  lemma RequestSeen(g: Ground, t: Moment, op: Op, t': Moment, frames: nat, at: Target, a: nat)
    requires Intact(g, t) && Intact(g, t') && IsMapping(op) && Stepped(g, t, op, t')
    requires Root(g, t, op.to).Some? && Root(g, t, at).Some? && g.limit <= frames * PAGE_SIZE
    ensures Root(g, t', at) == Root(g, t, at)
    ensures HardwareWalk(t'.s.mem, frames, Root(g, t', at).value, a, 4, true, true, true) ==
            if at == op.to && SamePageOf(a, op.virtAddr) then LeafTranslation(Requested(g, t, op), frames)
            else HardwareWalk(t.s.mem, frames, Root(g, t, at).value, a, 4, true, true, true)
  {
    hide Intact, HardwareWalk, LeafTranslation, RequestOn, LoansStep, GrantsStep, HeapStep, OwnedStep, TablesAdded;
    SpacesAgree(g, t);
    IndexIsAddressBits(op.virtAddr, 1);
    WantedAfter(g, t, op, t', at, a / 0x1000 % 0x10_0000_0000);
    ProcessorSeesSpaces(g, t', frames, at, a);
    ProcessorSeesSpaces(g, t, frames, at, a);
  }

  /** A new address space translates nothing. */
  lemma NewSpaceFaults(g: Ground, t: Moment, t': Moment, frames: nat, a: nat)
    requires Intact(g, t) && Intact(g, t') && Stepped(g, t, NewSpace, t') && g.limit <= 0x1000 * frames
    ensures |t'.spaces| == |t.spaces| + 1 && t'.spaces[|t.spaces|] !in t.s.held
    ensures HardwareWalk(t'.s.mem, frames, t'.spaces[|t.spaces|], a, 4, true, true, true) == None
  {
    hide Intact, HardwareWalk, HeapStep, GrantsStep, LoansStep, OwnedStep;
    SpacesAgree(g, t);
    ProcessorSeesSpaces(g, t', frames, OfClient(|t.spaces|), a);
    AbsentGrantsNothing(frames);
  }

  /** Whatever else happens, no allocation, no store and no bit the processor sets changes what the processor
      sees at any address of any address space. */
  lemma OthersSeeNothing(g: Ground, t: Moment, op: Op, t': Moment, frames: nat, at: Target, a: nat)
    requires Intact(g, t) && Intact(g, t') && Stepped(g, t, op, t') && g.limit <= 0x1000 * frames
    requires !IsMapping(op) && !op.DestroySpace? && Root(g, t, at).Some?
    ensures Root(g, t', at) == Root(g, t, at)
    ensures HardwareWalk(t'.s.mem, frames, Root(g, t, at).value, a, 4, true, true, true) ==
            HardwareWalk(t.s.mem, frames, Root(g, t, at).value, a, 4, true, true, true)
  {
    hide Intact, HardwareWalk, LeafTranslation, HeapStep, GrantsStep, LoansStep, OwnedStep, AfterAccess, Destroyable;
    SpacesAgree(g, t);
    assert op.NewSpace? && at.OfClient? ==> t'.spaces[..|t.spaces|][at.space] == t'.spaces[at.space];
    ProcessorSeesSpaces(g, t', frames, at, a);
    ProcessorSeesSpaces(g, t, frames, at, a);
  }

  /** After a map of physical address p at virtual address v the processor, walking memory, grants every
      address of that page the frame of p and exactly the rights asked for (bit 0 of the flags is present,
      bit 1 writable, bit 2 executable, bit 3 user), and every other address what it granted before. */
  lemma MapGrantsRequest(g: Ground, t: Moment, t': Moment, frames: nat, to: Target, p: nat, v: nat, flags: int,
                         at: Target, a: nat)
    requires Intact(g, t) && Intact(g, t') && Stepped(g, t, Map(to, p, v, flags), t')
    requires Root(g, t, to).Some? && Root(g, t, at).Some?
    requires g.limit <= 0x1000 * frames && p < 0x1000 * frames && frames <= 0x100_0000_0000
    ensures Root(g, t', at) == Root(g, t, at)
    ensures HardwareWalk(t'.s.mem, frames, Root(g, t', at).value, a, 4, true, true, true) ==
            if at != to || a / 0x1000 % 0x10_0000_0000 != v / 0x1000 % 0x10_0000_0000 then
              HardwareWalk(t.s.mem, frames, Root(g, t, at).value, a, 4, true, true, true)
            else if flags % 2 == 1 then
              Some(Translation(p / 0x1000, flags / 2 % 2 == 1, flags / 8 % 2 == 1, flags / 4 % 2 == 1))
            else None
  {
    hide Intact, HardwareWalk, LeafTranslation, MappedTo, Stepped, Wanted;
    RequestSeen(g, t, Map(to, p, v, flags), t', frames, at, a);
    GrantsRequest(Wanted(g, t, to, Key(v)), p, flags, frames);
  }

  /** After an unmap at virtual address v the processor faults at every address of that page, and grants
      every other address what it granted before. */
  lemma UnmapTakesAway(g: Ground, t: Moment, t': Moment, frames: nat, to: Target, v: nat, at: Target, a: nat)
    requires Intact(g, t) && Intact(g, t') && Stepped(g, t, Unmap(to, v), t')
    requires Root(g, t, to).Some? && Root(g, t, at).Some? && g.limit <= 0x1000 * frames
    ensures Root(g, t', at) == Root(g, t, at)
    ensures HardwareWalk(t'.s.mem, frames, Root(g, t', at).value, a, 4, true, true, true) ==
            if at != to || a / 0x1000 % 0x10_0000_0000 != v / 0x1000 % 0x10_0000_0000 then
              HardwareWalk(t.s.mem, frames, Root(g, t, at).value, a, 4, true, true, true)
            else None
  {
    hide Intact, HardwareWalk, Stepped, Wanted;
    RequestSeen(g, t, Unmap(to, v), t', frames, at, a);
  }

  /** After set_flags at virtual address v the processor grants every address of that page, if it granted
      any, the same frame with exactly the rights of the flags, and every other address what it granted
      before. */
  lemma SetFlagsKeepsFrame(g: Ground, t: Moment, t': Moment, frames: nat, to: Target, v: nat, flags: int,
                           at: Target, a: nat)
    requires Intact(g, t) && Intact(g, t') && Stepped(g, t, SetFlags(to, v, flags), t')
    requires Root(g, t, to).Some? && Root(g, t, at).Some? && g.limit <= 0x1000 * frames
    ensures Root(g, t', at) == Root(g, t, at)
    ensures var before := HardwareWalk(t.s.mem, frames, Root(g, t, at).value, a, 4, true, true, true);
            var after := HardwareWalk(t'.s.mem, frames, Root(g, t', at).value, a, 4, true, true, true);
            if at != to || a / 0x1000 % 0x10_0000_0000 != v / 0x1000 % 0x10_0000_0000 then after == before
            else if flags % 2 == 0 then after == None
            else if before.Some? then
              after == Some(Translation(before.value.frame, flags / 2 % 2 == 1, flags / 8 % 2 == 1, flags / 4 % 2 == 1))
            else true
  {
    hide Intact, HardwareWalk, Stepped, Wanted;
    IndexIsAddressBits(v, 1);
    RequestSeen(g, t, SetFlags(to, v, flags), t', frames, at, a);
    ProcessorSeesSpaces(g, t, frames, at, a);
  }

  lemma SpacesAgree(g: Ground, t: Moment)
    requires Intact(g, t)
    ensures |t.spaces| == |t.flat|
  {
    hide Tracks, Stored, Owned, HeapIntact, AllLent, GrantsOutside, KernelStands;
  }
}
