/** Where every page and every block of memory is, at every moment of a run: nothing is lost but what
    arch_vmm_destroy_pt forgets. */
module Accounting {
  import opened Wrappers
  import opened Memory
  import opened PhysicalPages
  import opened PageTableEntry
  import opened TableTree
  import opened TreeTeardown
  import opened PageTables
  import opened HeapList
  import opened HeapMemory
  import opened KernelClients
  import opened Spaces
  import opened Runs

  // ----- Pages -----

  /** Every held page is a page of the heap, a page table, or in a client's hands. */
  ghost predicate AllPagesOwned(t: Moment) {
    forall p: nat :: p in t.s.held <==> p in t.pages || p in t.s.places || p in GrantPages(t.grants)
  }

  lemma OwnedIffNoneUnowned(g: Ground, t: Moment)
    requires Intact(g, t)
    ensures AllPagesOwned(t) <==> Unowned(t) == {}
  {
    hide Tracks, Stored, Owned, HeapIntact, AllLent, AllGranted, GrantPages, StandFor, KernelStands;
    if AllPagesOwned(t) {
      assert forall p: nat :: p !in Unowned(t);
    } else {
      var p: nat :| !(p in t.s.held <==> p in t.pages || p in t.s.places || p in GrantPages(t.grants));
      assert p in Unowned(t);
    }
  }

  /** All that was lost in the first n operations. */
  ghost function AllLeaked(ops: seq<Op>, history: seq<Moment>, n: nat): set<nat>
    requires n <= |ops| && n <= |history|
  {
    if n == 0 then {} else AllLeaked(ops, history, n - 1) + Leaked(history[n - 1], ops[n - 1])
  }

  /** The pages nobody owns are those that nobody owned before the run, and the upper-half tables of the
      address spaces destroyed in it. */
  lemma {:induction false} LeaksAddUp(g: Ground, ops: seq<Op>, history: seq<Moment>, n: nat)
    requires Recorded(g, ops, history) && n < |history|
    ensures Unowned(history[n]) == Unowned(history[0]) + AllLeaked(ops, history, n)
  {
    hide Intact, Stuck, Stepped, Unowned, Leaked;
    if n > 0 {
      LeaksAddUp(g, ops, history, n - 1);
      assert Stepped(g, history[n - 1], ops[n - 1], history[n]);
      LeakStep(g, history[n - 1], ops[n - 1], history[n]);
    }
  }

  lemma LeakStep(g: Ground, t: Moment, op: Op, t': Moment)
    requires Stepped(g, t, op, t')
    ensures Unowned(t') == Unowned(t) + Leaked(t, op)
  {
    assert OwnedStep(t, op, t');
    hide Stepped, Unowned, UpperTables, Destroyable;
  }

  // ----- Address spaces that are used in their lower half only -----

  /** The place is one on the way to a page that the client has mapped, unmapped or given flags. */
  ghost predicate OnTheWay(f: FlatMap, p: Place) {
    p.level < 4 && exists key: nat :: key in f && Prefix(key, p.level) == p.prefix
  }

  /** Every table of a client's space is its root or on the way to a page the client has touched. */
  ghost predicate TablesTouched(t: Moment) {
    forall j: nat, x: nat :: j < |t.spaces| && j < |t.flat| && x in t.s.places && t.s.places[x].root == t.spaces[j] ==>
      x == t.spaces[j] || OnTheWay(t.flat[j], t.s.places[x])
  }

  lemma {:induction false} RootIsTable(view: View, places: Places, x: nat)
    requires Owned(view, places) && x in places
    ensures places[x].root in places
    decreases if places[x].level < 4 then 4 - places[x].level else 0
  {
    assert TableOk(view, places, x);
    if places[x].level < 4 {
      RootIsTable(view, places, places[x].parent);
    }
  }

  lemma StillOnTheWay(f: FlatMap, f': FlatMap, p: Place)
    requires OnTheWay(f, p) && f.Keys <= f'.Keys
    ensures OnTheWay(f', p)
  {
    var key: nat :| key in f && Prefix(key, p.level) == p.prefix;
    assert key in f'.Keys;
  }

  lemma TouchedByMap(g: Ground, t: Moment, to: Target, key: nat, t': Moment, e: Entry)
    requires StandFor(t.s.view, t.s.places, t.spaces, t.flat) && g.kernelPT !in t.spaces
    requires TablesTouched(t) && TablesFor(g, t, to, key, t')
    requires t'.flat == PutFlat(t.flat, to, key, e)
    ensures TablesTouched(t')
  {
    hide OnTheWay, StandFor;
    SpacesCount(t.s.view, t.s.places, t.spaces, t.flat);
    SpacesDiffer(t.s.view, t.s.places, t.spaces, t.flat);
    forall l: nat, x: nat | l < |t'.spaces| && l < |t'.flat| && x in t'.s.places
      && t'.s.places[x].root == t'.spaces[l] && x != t'.spaces[l]
      ensures OnTheWay(t'.flat[l], t'.s.places[x])
    {
      if x in t.s.places {
        StillOnTheWay(t.flat[l], t'.flat[l], t.s.places[x]);
      } else {
        assert t.spaces[l] in t.spaces;
        assert to == OfClient(l);
        OnThisWay(t'.flat[l], t'.s.places[x], key);
      }
    }
  }

  lemma OnThisWay(f: FlatMap, p: Place, key: nat)
    requires key in f && p.level < 4 && p.prefix == Prefix(key, p.level)
    ensures OnTheWay(f, p)
  {
  }

  lemma SpacesDiffer(view: View, places: Places, spaces: seq<nat>, flat: seq<FlatMap>)
    requires StandFor(view, places, spaces, flat)
    ensures forall j: nat, l: nat :: j < |spaces| && l < |spaces| && spaces[j] == spaces[l] ==> j == l
  {
  }

  lemma SpacesOf(g: Ground, t: Moment)
    requires Intact(g, t)
    ensures |t.spaces| == |t.flat| && t.s.places.Keys <= t.s.held && Owned(t.s.view, t.s.places)
    ensures StandFor(t.s.view, t.s.places, t.spaces, t.flat) && g.kernelPT !in t.spaces
    ensures Tiles(t.blocks, t.pages)
  {
    HeapIntactTiles(t.s.mem, t.blocks, t.books, t.pages);
    SpacesCount(t.s.view, t.s.places, t.spaces, t.flat);
  }

  lemma TouchedByNew(t: Moment, t': Moment)
    requires |t.spaces| == |t.flat| && t.s.places.Keys <= t.s.held && Owned(t.s.view, t.s.places)
    requires TablesTouched(t) && RootAdded(t, t') && t'.flat == t.flat + [map[]]
    ensures TablesTouched(t')
  {
    hide OnTheWay, Owned;
    var n := |t.spaces|;
    forall l: nat, x: nat | l < |t'.spaces| && l < |t'.flat| && x in t'.s.places
      && t'.s.places[x].root == t'.spaces[l] && x != t'.spaces[l]
      ensures OnTheWay(t'.flat[l], t'.s.places[x])
    {
      if x in t.s.places {
        RootIsTable(t.s.view, t.s.places, x);
        assert l < n && t'.spaces[..n][l] == t.spaces[l];
      }
    }
  }

  lemma TouchedByDestroy(t: Moment, j: nat, t': Moment)
    requires TablesTouched(t) && |t.spaces| == |t.flat| && j < |t.spaces|
    requires t'.spaces == Removed(t.spaces, j) && t'.flat == Removed(t.flat, j)
    requires t'.s.places == Others(t.s.places, t.s.places, t.spaces[j])
    ensures TablesTouched(t')
  {
    hide OnTheWay;
    forall l: nat, x: nat | l < |t'.spaces| && l < |t'.flat| && x in t'.s.places
      && t'.s.places[x].root == t'.spaces[l] && x != t'.spaces[l]
      ensures OnTheWay(t'.flat[l], t'.s.places[x])
    {
      var n: nat := if l < j then l else l + 1;
      assert t'.spaces[l] == t.spaces[n] && t'.flat[l] == t.flat[n];
    }
  }

  lemma TouchedStep(g: Ground, t: Moment, op: Op, t': Moment)
    requires Intact(g, t) && TablesTouched(t) && Stepped(g, t, op, t')
    ensures TablesTouched(t')
  {
    hide LoansStep, HeapStep, Wanted, RootAdded;
    hide Intact, TablesTouched, Stepped, TablesFor, RequestOn, Others, Destroyable, Owned, Removed, PutFlat, StandFor;
    SpacesOf(g, t);
    StepParts(g, t, op, t');
    if IsMapping(op) {
      TouchedByMap(g, t, op.to, Key(op.virtAddr), t', Requested(g, t, op));
    } else if op.NewSpace? {
      TouchedByNew(t, t');
    } else if op.DestroySpace? && MayDestroy(t, op.space) {
      TouchedByDestroy(t, op.space, t');
    } else {
      SameTouched(t, t');
    }
  }

  lemma StepParts(g: Ground, t: Moment, op: Op, t': Moment)
    requires Stepped(g, t, op, t')
    ensures TablesStep(g, t, op, t') && SpacesStep(g, t, op, t')
    ensures HeapStep(g, t, op, t') && LoansStep(t.loans, op, t'.loans)
  {
    hide TablesStep, SpacesStep, HeapStep, LoansStep, GrantsStep, OwnedStep;
  }

  lemma SameTouched(t: Moment, t': Moment)
    requires TablesTouched(t) && t'.spaces == t.spaces && t'.flat == t.flat && t'.s.places == t.s.places
    ensures TablesTouched(t')
  {
  }

  lemma {:induction false} TouchedAlways(g: Ground, ops: seq<Op>, history: seq<Moment>, n: nat)
    requires Recorded(g, ops, history) && n < |history| && TablesTouched(history[0])
    ensures TablesTouched(history[n])
  {
    hide Intact, Stuck, Stepped, TablesTouched;
    if n > 0 {
      TouchedAlways(g, ops, history, n - 1);
      assert Intact(g, history[n - 1]) && Stepped(g, history[n - 1], ops[n - 1], history[n]);
      TouchedStep(g, history[n - 1], ops[n - 1], history[n]);
    }
  }

  ghost predicate LowerOnly(f: FlatMap) {
    forall key: int :: key in f ==> key < LOWER_KEYS
  }

  lemma LowerPlace(f: FlatMap, p: Place)
    requires LowerOnly(f) && OnTheWay(f, p)
    ensures Lower(p.level, p.prefix)
  {
    var key: nat :| key in f && Prefix(key, p.level) == p.prefix;
    PrefixOfPrefix(key, p.level, 3 - p.level);
    LowerKeyPrefix(key);
  }

  lemma LowerKeyPrefix(key: nat)
    requires key < LOWER_KEYS
    ensures Prefix(key, 3) < 256
  {
    assert Prefix(key, 1) == Prefix(key, 0) / 512;
    assert Prefix(key, 2) == Prefix(key, 1) / 512;
    assert Prefix(key, 3) == Prefix(key, 2) / 512;
  }

  /** Destroying a space whose client has touched nothing in the upper half loses no page. */
  lemma LowerSpaceLeaksNothing(t: Moment, j: nat)
    requires TablesTouched(t) && j < |t.flat| && LowerOnly(t.flat[j])
    ensures Leaked(t, DestroySpace(j)) == {}
  {
    hide LowerOnly, OnTheWay, Lower;
    if j < |t.spaces| {
        forall x: nat
        ensures x !in UpperTables(t.s.places, t.spaces[j])
      {
        if x in t.s.places && t.s.places[x].root == t.spaces[j] && x != t.spaces[j] {
          LowerPlace(t.flat[j], t.s.places[x]);
        }
      }
    }
  }

  /** The operation destroys no space that was touched in its upper half. */
  ghost predicate DropsLowerOnly(t: Moment, op: Op) {
    op.DestroySpace? && MayDestroy(t, op.space) ==> LowerOnly(t.flat[op.space])
  }

  /** If only spaces untouched in their upper half are destroyed, then in a run that begins with every page
      accounted for, at every moment each held page is a page of the heap, a table or a client's. */
  lemma NothingIsLost(g: Ground, ops: seq<Op>, history: seq<Moment>, n: nat)
    requires Recorded(g, ops, history) && n < |history|
    requires AllPagesOwned(history[0]) && TablesTouched(history[0])
    requires forall k: nat :: k < n ==> DropsLowerOnly(history[k], ops[k])
    ensures AllPagesOwned(history[n])
  {
    hide Intact, Stuck, Stepped, TablesTouched, DropsLowerOnly, Unowned, Leaked, AllPagesOwned;
    assert Intact(g, history[0]) && Intact(g, history[n]);
    OwnedIffNoneUnowned(g, history[0]);
    OwnedIffNoneUnowned(g, history[n]);
    NoneLeaked(g, ops, history, n);
    LeaksAddUp(g, ops, history, n);
  }

  lemma {:induction false} NoneLeaked(g: Ground, ops: seq<Op>, history: seq<Moment>, n: nat)
    requires Recorded(g, ops, history) && n < |history| && TablesTouched(history[0])
    requires forall k: nat :: k < n ==> DropsLowerOnly(history[k], ops[k])
    ensures AllLeaked(ops, history, n) == {}
  {
    hide Intact, Stuck, Stepped, TablesTouched, Destroyable, LowerOnly, UpperTables;
    if n > 0 {
      NoneLeaked(g, ops, history, n - 1);
      TouchedAlways(g, ops, history, n - 1);
      assert DropsLowerOnly(history[n - 1], ops[n - 1]);
      if ops[n - 1].DestroySpace? && MayDestroy(history[n - 1], ops[n - 1].space) {
        LowerSpaceLeaksNothing(history[n - 1], ops[n - 1].space);
      }
    }
  }

  // ----- Blocks of the heap -----

  /** Every live block of the heap is behind a loan that a client still holds. */
  ghost predicate AllBlocksLent(t: Moment) {
    forall i: nat :: i < |t.blocks| && !t.blocks[i].free ==> HasLoan(t.loans, t.blocks[i].addr + HEADER)
  }

  ghost predicate HasLoan(loans: seq<Loan>, ptr: nat) {
    exists k: nat :: k < |loans| && loans[k].ptr == ptr
  }

  ghost predicate HasLiveBlock(bs: Blocks, ptr: nat) {
    exists i: nat :: i < |bs| && !bs[i].free && bs[i].addr + HEADER == ptr
  }

  lemma AllocLive(bs: Blocks, i: nat, n: nat, b: Block)
    requires i < |bs| && n <= bs[i].size && b in AllocAt(bs, i, n) && !b.free
    ensures b in bs || b.addr == bs[i].addr
  {
  }

  lemma MergeIfLive(bs: Blocks, i: nat, b: Block)
    requires b in MergeIf(bs, i) && !b.free
    ensures b in bs
  {
  }

  lemma FreeLive(bs: Blocks, i: nat, b: Block)
    requires i < |bs| && b in FreeAt(bs, i) && !b.free
    ensures exists k: nat :: k < |bs| && k != i && bs[k] == b
  {
    hide MergeIf;
    var freed := Retag(bs, i, true);
    if i > 0 {
      if b in MergeIf(MergeIf(freed, i), i - 1) {
        MergeIfLive(MergeIf(freed, i), i - 1, b);
      }
    }
    MergeIfLive(freed, i, b);
    var k: nat :| k < |freed| && freed[k] == b;
    assert bs[k] == b && k != i;
  }

  /** A live block after kmalloc was live before, or is the one given out. */
  lemma KmallocedLive(bs: Blocks, n: nat, run: Option<nat>, b: Block)
    requires b in Kmalloced(bs, n, run).blocks && !b.free
    ensures b in bs || Kmalloced(bs, n, run).r == Some(b.addr + HEADER)
  {
    hide AllocAt;
    FirstFitIsFirst(bs, n, 0);
    match FirstFit(bs, n, 0)
    case Some(i) => AllocLive(bs, i, n, b);
    case None =>
      if run.Some? {
        assert (bs + [Region(run.value, n)])[|bs|] == Region(run.value, n);
        AllocLive(bs + [Region(run.value, n)], |bs|, n, b);
      }
  }

  lemma LentAfterMalloc(g: Ground, t: Moment, size: nat, t': Moment)
    requires AllBlocksLent(t) && BlockGiven(g, t, size, t') && t'.loans[..|t.loans|] == t.loans
    ensures AllBlocksLent(t')
  {
    hide Kmalloced, RoundRequest, RegionPageCount, FirstRun;
    var n := RoundRequest(size);
    var run := FirstRun(g.reserved + t.s.held, 8 * g.size, RegionPageCount(n), 0);
    forall i: nat | i < |t'.blocks| && !t'.blocks[i].free
      ensures HasLoan(t'.loans, t'.blocks[i].addr + HEADER)
    {
      KmallocedLive(t.blocks, n, run, t'.blocks[i]);
      if t'.blocks[i] in t.blocks {
        var k: nat :| k < |t.blocks| && t.blocks[k] == t'.blocks[i];
        var l: nat :| l < |t.loans| && t.loans[l].ptr == t'.blocks[i].addr + HEADER;
        assert t'.loans[..|t.loans|][l] == t'.loans[l];
      } else {
        assert t'.loans[|t.loans|].ptr == t'.blocks[i].addr + HEADER;
      }
    }
  }

  lemma LentAfterFree(t: Moment, k: nat, t': Moment)
    requires AllBlocksLent(t) && k < |t.loans| && Tiles(t.blocks, t.pages)
    requires BlockReturned(t, t.loans[k], t'.blocks) && t'.loans == Removed(t.loans, k)
    ensures AllBlocksLent(t')
  {
    hide FreeAt;
    var i: nat :| i < |t.blocks| && Backs(t.blocks[i], t.s.mem, t.loans[k]) && t'.blocks == FreeAt(t.blocks, i);
    forall j: nat | j < |t'.blocks| && !t'.blocks[j].free
      ensures HasLoan(t'.loans, t'.blocks[j].addr + HEADER)
    {
      FreeLive(t.blocks, i, t'.blocks[j]);
      var m: nat :| m < |t.blocks| && m != i && t.blocks[m] == t'.blocks[j];
      assert Apart(t.blocks[m], t.blocks[i]);
      var l: nat :| l < |t.loans| && t.loans[l].ptr == t.blocks[m].addr + HEADER;
      assert t'.loans[if l < k then l else l - 1] == t.loans[l];
    }
  }

  lemma LentStep(g: Ground, t: Moment, op: Op, t': Moment)
    requires Intact(g, t) && AllBlocksLent(t) && Stepped(g, t, op, t')
    ensures AllBlocksLent(t')
  {
    hide TablesStep, SpacesStep;
    hide Intact, Stuck, Stepped, AllBlocksLent, BlockGiven, BlockReturned, Tiles;
    SpacesOf(g, t);
    StepParts(g, t, op, t');
    match op
    case Malloc(size) => LentAfterMalloc(g, t, size, t');
    case Zalloc(size) => LentAfterMalloc(g, t, size, t');
    case Free(k) =>
      if k < |t.loans| {
        LentAfterFree(t, k, t');
      } else {
        SameLent(t, t');
      }
    case _ => SameLent(t, t');
  }

  lemma SameLent(t: Moment, t': Moment)
    requires AllBlocksLent(t) && t'.blocks == t.blocks && |t'.loans| == |t.loans|
    requires forall k: nat :: k < |t.loans| ==> t'.loans[k].ptr == t.loans[k].ptr
    ensures AllBlocksLent(t')
  {
    forall i: nat | i < |t.blocks| && !t.blocks[i].free
      ensures HasLoan(t'.loans, t.blocks[i].addr + HEADER)
    {
      var k: nat :| k < |t.loans| && t.loans[k].ptr == t.blocks[i].addr + HEADER;
      assert t'.loans[k].ptr == t.loans[k].ptr;
    }
  }

  /** In a run that begins with every live block lent, at every moment the live blocks of the heap are
      exactly those behind the loans that clients still hold: kfree loses no block. */
  lemma BlocksAreLoans(g: Ground, ops: seq<Op>, history: seq<Moment>, n: nat, ptr: nat)
    requires Recorded(g, ops, history) && n < |history| && AllBlocksLent(history[0])
    ensures HasLoan(history[n].loans, ptr) <==> HasLiveBlock(history[n].blocks, ptr)
  {
    hide Intact, Stuck, Stepped, AllBlocksLent;
    BlocksStayLent(g, ops, history, n);
    assert Intact(g, history[n]);
    LoansAreBlocks(g, history[n], ptr);
  }

  lemma LoansAreBlocks(g: Ground, t: Moment, ptr: nat)
    requires Intact(g, t) && AllBlocksLent(t)
    ensures HasLoan(t.loans, ptr) <==> HasLiveBlock(t.blocks, ptr)
  {
    if HasLoan(t.loans, ptr) {
      var k: nat :| k < |t.loans| && t.loans[k].ptr == ptr;
      StillLent(g, t, t.loans[k]);
    }
  }

  lemma {:induction false} BlocksStayLent(g: Ground, ops: seq<Op>, history: seq<Moment>, n: nat)
    requires Recorded(g, ops, history) && n < |history| && AllBlocksLent(history[0])
    ensures AllBlocksLent(history[n])
  {
    hide Intact, Stuck, Stepped, AllBlocksLent;
    if n > 0 {
      BlocksStayLent(g, ops, history, n - 1);
      assert Intact(g, history[n - 1]) && Stepped(g, history[n - 1], ops[n - 1], history[n]);
      LentStep(g, history[n - 1], ops[n - 1], history[n]);
    }
  }

  // ----- Alignment -----

  /** The operation asks the heap for no size that it would leave unrounded and odd. */
  predicate AsksAligned(op: Op) {
    match op
    case Malloc(size) => size % 10 != 0 || size % 16 == 0
    case Zalloc(size) => size % 10 != 0 || size % 16 == 0
    case _ => true
  }

  lemma AlignedAfterMalloc(g: Ground, t: Moment, size: nat, t': Moment)
    requires AllAligned(t.blocks) && BlockGiven(g, t, size, t') && (size % 10 != 0 || size % 16 == 0)
    ensures AllAligned(t'.blocks)
  {
    hide AllAligned, Kmalloced, RoundRequest, RegionPageCount, FirstRun;
    var n := RoundRequest(size);
    RoundedIsAligned(size);
    KmallocKeepsAligned(t.blocks, n, FirstRun(g.reserved + t.s.held, 8 * g.size, RegionPageCount(n), 0));
  }

  lemma AlignedAfterFree(t: Moment, l: Loan, bs: Blocks)
    requires AllAligned(t.blocks) && BlockReturned(t, l, bs)
    ensures AllAligned(bs)
  {
    hide AllAligned, FreeAt;
    var i: nat :| i < |t.blocks| && Backs(t.blocks[i], t.s.mem, l) && bs == FreeAt(t.blocks, i);
    FreeKeepsAligned(t.blocks, i);
  }

  lemma AlignedStep(g: Ground, t: Moment, op: Op, t': Moment)
    requires AllAligned(t.blocks) && Stepped(g, t, op, t') && AsksAligned(op)
    ensures AllAligned(t'.blocks)
  {
    hide LoansStep, SpacesStep, TablesStep;
    hide AllAligned, Stepped, BlockGiven, BlockReturned;
    StepParts(g, t, op, t');
    match op
    case Malloc(size) => AlignedAfterMalloc(g, t, size, t');
    case Zalloc(size) => AlignedAfterMalloc(g, t, size, t');
    case Free(k) =>
      if k < |t.loans| {
        AlignedAfterFree(t, t.loans[k], t'.blocks);
      }
    case _ =>
  }

  lemma {:induction false} BlocksStayAligned(g: Ground, ops: seq<Op>, history: seq<Moment>, n: nat)
    requires Recorded(g, ops, history) && n < |history| && AllAligned(history[0].blocks)
    requires forall k: nat :: k < n ==> AsksAligned(ops[k])
    ensures AllAligned(history[n].blocks)
  {
    hide Intact, Stuck, Stepped, AllAligned, AsksAligned;
    if n > 0 {
      BlocksStayAligned(g, ops, history, n - 1);
      assert Stepped(g, history[n - 1], ops[n - 1], history[n]) && AsksAligned(ops[n - 1]);
      AlignedStep(g, history[n - 1], ops[n - 1], history[n]);
    }
  }

  lemma AlignedLoan(g: Ground, t: Moment, l: Loan)
    requires Intact(g, t) && AllAligned(t.blocks) && l in t.loans
    ensures l.ptr % 16 == 0
  {
    hide Intact, AllAligned;
    StillLent(g, t, l);
    LentAligned(t.blocks, t.s.mem, l);
  }

  lemma LentAligned(bs: Blocks, m: Bytes, l: Loan)
    requires AllAligned(bs) && Lent(bs, m, l)
    ensures l.ptr % 16 == 0
  {
    var i: nat :| i < |bs| && Backs(bs[i], m, l);
    assert Aligned(bs[i]);
  }

  /** In a run that begins with an aligned heap, as a new one is, and that asks for no multiple of ten
      but multiples of 16, every pointer a client holds is at every moment a multiple of 16. */
  lemma PointersStayAligned(g: Ground, ops: seq<Op>, history: seq<Moment>, n: nat, l: Loan)
    requires Recorded(g, ops, history) && n < |history| && AllAligned(history[0].blocks) && l in history[n].loans
    requires forall k: nat :: k < n ==> AsksAligned(ops[k])
    ensures l.ptr % 16 == 0
  {
    hide Intact, Stuck, Stepped, AllAligned, AsksAligned;
    BlocksStayAligned(g, ops, history, n);
    assert Intact(g, history[n]);
    AlignedLoan(g, history[n], l);
  }
}
