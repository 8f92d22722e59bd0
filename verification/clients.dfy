/** What clients of the kernel's memory hold, and why no operation on one layer disturbs another layer
    or another client. */
module KernelClients {
  import opened Memory
  import opened PhysicalPages
  import opened TableTree
  import opened PageTables
  import opened HeapList
  import opened HeapMemory

  // ----- Each layer leaves the other alone -----

  /** A heap operation changes no table that lies outside what it may touch, so no translation of any
      address space. */
  lemma HeapSparesTables(bs: Blocks, touched: set<nat>, m: Bytes, m': Bytes, view: View, places: Places)
    requires Isolated(bs, touched, m, m') && Stored(m, view) && Owned(view, places)
    requires forall t: nat :: t in places ==> t !in touched
    ensures Stored(m', view)
  {
    forall t: nat | t in view
      ensures SamePage(m, m', t)
    {
    }
    StoredFrame(m, m', view);
  }

  /** The bytes of the heap's pages are in its blocks: memories that agree on the pages agree on every
      payload. */
  lemma PagesKeepPayloads(m: Bytes, m': Bytes, bs: Blocks, pages: set<nat>)
    requires Tiles(bs, pages) && |m'| == |m| && forall p: nat :: p in pages ==> SamePage(m, m', p)
    ensures forall i: nat :: i < |bs| ==> SamePayload(bs[i], m, m')
  {
    forall i: nat, x: nat | i < |bs| && bs[i].addr + HEADER <= x < bs[i].End() && x < |m|
      ensures m'[x] == m[x]
    {
      assert bs[i].Contains(x) && InBlocks(bs, x);
      assert SamePage(m, m', x / PAGE_SIZE);
    }
  }

  // ----- Loans -----

  /** A pointer a client got from the heap, and the bytes its payload held then. */
  datatype Loan = Loan(ptr: nat, contents: Bytes)

  /** Live block b is the one behind the loan, and its payload still holds the loan's bytes. */
  ghost predicate Backs(b: Block, m: Bytes, loan: Loan) {
    && !b.free && loan.ptr == b.addr + HEADER && |loan.contents| == b.size && b.End() <= |m|
    && m[loan.ptr..b.End()] == loan.contents
  }

  ghost predicate Lent(bs: Blocks, m: Bytes, loan: Loan) {
    exists i: nat :: i < |bs| && Backs(bs[i], m, loan)
  }

  ghost predicate AllLent(bs: Blocks, m: Bytes, loans: seq<Loan>) {
    && (forall k: nat :: k < |loans| ==> Lent(bs, m, loans[k]))
    && (forall j: nat, k: nat :: j < k < |loans| ==> loans[j].ptr != loans[k].ptr)
  }

  lemma SamePayloadBacks(b: Block, m: Bytes, m': Bytes, loan: Loan)
    requires Backs(b, m, loan) && SamePayload(b, m, m')
    ensures Backs(b, m', loan)
  {
  }

  /** Two loans never overlap. */
  lemma LoansAreDisjoint(bs: Blocks, pages: set<nat>, m: Bytes, a: Loan, b: Loan)
    requires Tiles(bs, pages) && Lent(bs, m, a) && Lent(bs, m, b) && a.ptr != b.ptr
    ensures a.ptr + |a.contents| <= b.ptr || b.ptr + |b.contents| <= a.ptr
  {
    var i: nat :| i < |bs| && Backs(bs[i], m, a);
    var j: nat :| j < |bs| && Backs(bs[j], m, b);
    assert Apart(bs[i], bs[j]);
  }

  /** An operation that spares the live payloads keeps a loan, if the loan's block stays live. */
  lemma LoanKept(bs: Blocks, bs': Blocks, touched: set<nat>, m: Bytes, m': Bytes, loan: Loan)
    requires Isolated(bs, touched, m, m') && LiveAmong(bs, bs') && Lent(bs, m, loan)
    ensures Lent(bs', m', loan)
  {
    var i: nat :| i < |bs| && Backs(bs[i], m, loan);
    assert SamePayload(bs[i], m, m');
    SamePayloadBacks(bs[i], m, m', loan);
    var j: nat :| j < |bs'| && bs'[j] == bs[i];
    assert Backs(bs'[j], m', loan);
  }

  /** Allocation keeps every loan and makes one more. */
  lemma MallocLends(bs: Blocks, bs': Blocks, pages: set<nat>, i: nat, touched: set<nat>, m: Bytes, m': Bytes,
                    loans: seq<Loan>, loan: Loan)
    requires AllLent(bs, m, loans) && Isolated(bs, touched, m, m')
    requires i < |bs'| && LiveAmong(bs, Retag(bs', i, true)) && Tiles(bs', pages) && Backs(bs'[i], m', loan)
    ensures AllLent(bs', m', loans + [loan])
  {
    var freed := Retag(bs', i, true);
    forall k: nat | k < |loans|
      ensures Lent(bs', m', loans[k]) && loans[k].ptr != loan.ptr
    {
      LoanKept(bs, freed, touched, m, m', loans[k]);
      var j: nat :| j < |freed| && Backs(freed[j], m', loans[k]);
      assert Backs(bs'[j], m', loans[k]) && j != i;
      assert Apart(bs'[j], bs'[i]);
    }
    assert Lent(bs', m', loan);
  }

  lemma FreeKeepsLive(bs: Blocks, i: nat)
    requires i < |bs|
    ensures LiveAmong(Retag(bs, i, true), FreeAt(bs, i))
  {
  }

  /** The loan after its holder has stored a byte in it. */
  function StoredIn(loan: Loan, off: nat, b: bv8): Loan
    requires off < |loan.contents|
  {
    loan.(contents := loan.contents[off := b])
  }

  /** A byte stored in one loan leaves all others as they were. */
  lemma StoreKeepsLoans(bs: Blocks, pages: set<nat>, m: Bytes, m': Bytes, loans: seq<Loan>, k: nat, i: nat, off: nat,
                        b: bv8)
    requires Tiles(bs, pages) && AllLent(bs, m, loans) && k < |loans| && i < |bs| && Backs(bs[i], m, loans[k])
    requires off < |loans[k].contents| && m' == m[loans[k].ptr + off := b]
    ensures AllLent(bs, m', loans[k := StoredIn(loans[k], off, b)]) && Isolated(Retag(bs, i, true), pages, m, m')
  {
    var freed, loans' := Retag(bs, i, true), loans[k := StoredIn(loans[k], off, b)];
    RetagKeepsTiles(bs, pages, i, true);
    BlockWriteIsolated(freed, pages, m, m', i, bs[i].addr + HEADER + off, 1);
    forall l: nat | l < |loans'|
      ensures Lent(bs, m', loans'[l]) && loans'[l].ptr == loans[l].ptr
    {
      if l == k {
        assert m'[loans[k].ptr..bs[i].End()] == loans[k].contents[off := b];
        assert Backs(bs[i], m', loans'[k]);
      } else {
        assert Lent(bs, m, loans[l]);
        var n: nat :| n < |bs| && Backs(bs[n], m, loans[l]);
        assert loans[l].ptr != loans[k].ptr && freed[n] == bs[n];
        assert SamePayload(freed[n], m, m');
        SamePayloadBacks(bs[n], m, m', loans[l]);
      }
    }
  }

  /** Giving back one loan keeps all others. */
  lemma FreeKeepsLoans(bs: Blocks, i: nat, touched: set<nat>, m: Bytes, m': Bytes, loans: seq<Loan>, k: nat)
    requires AllLent(bs, m, loans) && k < |loans| && i < |bs| && loans[k].ptr == bs[i].addr + HEADER
    requires Isolated(Retag(bs, i, true), touched, m, m')
    ensures AllLent(FreeAt(bs, i), m', loans[..k] + loans[k + 1..])
  {
    var freed, rest := Retag(bs, i, true), loans[..k] + loans[k + 1..];
    FreeKeepsLive(bs, i);
    forall j: nat | j < |rest|
      ensures Lent(FreeAt(bs, i), m', rest[j])
    {
      var l: nat := if j < k then j else j + 1;
      assert rest[j] == loans[l] && loans[l].ptr != loans[k].ptr;
      var n: nat :| n < |bs| && Backs(bs[n], m, loans[l]);
      assert freed[n] == bs[n] && Backs(freed[n], m, rest[j]);
      LoanKept(freed, FreeAt(bs, i), touched, m, m', rest[j]);
    }
  }

  /** Writes outside the heap's pages keep every loan. */
  lemma TablesKeepLoans(bs: Blocks, pages: set<nat>, m: Bytes, m': Bytes, loans: seq<Loan>)
    requires AllLent(bs, m, loans) && Tiles(bs, pages) && |m'| == |m| && forall p: nat :: p in pages ==> SamePage(m,
        m', p)
    ensures AllLent(bs, m', loans)
  {
    PagesKeepPayloads(m, m', bs, pages);
    forall k: nat | k < |loans|
      ensures Lent(bs, m', loans[k])
    {
      assert Lent(bs, m, loans[k]);
      var i: nat :| i < |bs| && Backs(bs[i], m, loans[k]);
      SamePayloadBacks(bs[i], m, m', loans[k]);
    }
  }

  // ----- Grants -----

  /** A run of n pages a client got from the page allocator, and the bytes it held then. */
  datatype Grant = Grant(base: nat, n: nat, contents: Bytes)

  ghost function GrantPages(grants: seq<Grant>): set<nat> {
    set k: nat, p: nat | k < |grants| && p in Pages(grants[k].base, grants[k].n) :: p
  }

  ghost predicate Granted(m: Bytes, g: Grant) {
    (g.base + g.n) * PAGE_SIZE <= |m| && m[g.base * PAGE_SIZE..(g.base + g.n) * PAGE_SIZE] == g.contents
  }

  /** Every grant still holds its bytes, and no page belongs to two of them. */
  ghost predicate AllGranted(m: Bytes, grants: seq<Grant>) {
    && (forall k: nat :: k < |grants| ==> Granted(m, grants[k]))
    && Separate(grants)
  }

  ghost predicate NoCommonPage(g: Grant, h: Grant) {
    Pages(g.base, g.n) !! Pages(h.base, h.n)
  }

  ghost predicate Separate(grants: seq<Grant>) {
    forall j: nat, k: nat {:trigger NoCommonPage(grants[j], grants[k])} :: j < k < |grants| ==>
        NoCommonPage(grants[j], grants[k])
  }

  /** The grants are held, and apart from the heap and the page tables. */
  ghost predicate GrantsOutside(m: Bytes, grants: seq<Grant>, held: set<nat>, pages: set<nat>, places: Places) {
    && AllGranted(m, grants) && GrantPages(grants) <= held && GrantPages(grants) !! pages
    && forall t: nat :: t in places ==> t !in GrantPages(grants)
  }

  lemma GrantKept(m: Bytes, m': Bytes, g: Grant)
    requires Granted(m, g) && |m'| == |m| && forall p: nat :: p in Pages(g.base, g.n) ==> SamePage(m, m', p)
    ensures Granted(m', g)
  {
    forall x: nat | g.base * PAGE_SIZE <= x < (g.base + g.n) * PAGE_SIZE
      ensures m'[x] == m[x]
    {
      assert x / PAGE_SIZE in Pages(g.base, g.n);
      assert SamePage(m, m', x / PAGE_SIZE);
    }
    assert m'[g.base * PAGE_SIZE..(g.base + g.n) * PAGE_SIZE] == m[g.base * PAGE_SIZE..(g.base + g.n) * PAGE_SIZE];
  }

  lemma GrantsKept(m: Bytes, m': Bytes, grants: seq<Grant>)
    requires AllGranted(m, grants) && |m'| == |m| && forall p: nat :: p in GrantPages(grants) ==> SamePage(m, m', p)
    ensures AllGranted(m', grants)
  {
    forall k: nat | k < |grants|
      ensures Granted(m', grants[k])
    {
      assert forall p: nat :: p in Pages(grants[k].base, grants[k].n) ==> p in GrantPages(grants);
      GrantKept(m, m', grants[k]);
    }
  }

  /** A heap operation takes only pages that nobody held, and spares every grant. */
  lemma HeapSparesGrants(bs: Blocks, pages: set<nat>, pages': set<nat>, reserved: set<nat>, m: Bytes, m': Bytes,
                         grants: seq<Grant>, held: set<nat>, held': set<nat>, places: Places)
    requires Isolated(bs, pages' + reserved, m, m') && GrantsOutside(m, grants, held, pages, places)
    requires held <= held' && reserved !! held && forall p: nat :: p in pages' ==> p in pages || p !in held
    ensures GrantsOutside(m', grants, held', pages', places)
  {
    hide AllGranted, GrantPages;
    GrantsKept(m, m', grants);
  }

  /** A new grant of pages that were no part of the others. */
  lemma GrantMore(m: Bytes, grants: seq<Grant>, g: Grant)
    requires AllGranted(m, grants) && Granted(m, g) && Pages(g.base, g.n) !! GrantPages(grants)
    ensures AllGranted(m, grants + [g]) && GrantPages(grants + [g]) == GrantPages(grants) + Pages(g.base, g.n)
  {
    var more := grants + [g];
    forall j: nat, k: nat | j < k < |more|
      ensures NoCommonPage(more[j], more[k])
    {
      assert k < |grants| ==> NoCommonPage(grants[j], grants[k]);
      assert forall p: nat :: p in Pages(grants[j].base, grants[j].n) ==> p in GrantPages(grants);
    }
    forall p: nat
      ensures p in GrantPages(more) <==> p in GrantPages(grants) || p in Pages(g.base, g.n)
    {
      if p in GrantPages(grants) {
        var k: nat :| k < |grants| && p in Pages(grants[k].base, grants[k].n);
        assert p in Pages(more[k].base, more[k].n);
      }
      if p in Pages(g.base, g.n) {
        assert p in Pages(more[|grants|].base, more[|grants|].n);
      }
    }
  }

  lemma GrantLess(m: Bytes, m': Bytes, grants: seq<Grant>, k: nat, reserved: set<nat>)
    requires AllGranted(m, grants) && k < |grants| && |m'| == |m| && GrantPages(grants) !! reserved
    requires forall p: nat :: p !in reserved + Pages(grants[k].base, grants[k].n) ==> SamePage(m, m', p)
    ensures AllGranted(m', grants[..k] + grants[k + 1..])
    ensures GrantPages(grants[..k] + grants[k + 1..]) == GrantPages(grants) - Pages(grants[k].base, grants[k].n)
  {
    var rest := grants[..k] + grants[k + 1..];
    RestSeparate(grants, k);
    forall j: nat | j < |rest|
      ensures Granted(m', rest[j]) && Pages(rest[j].base, rest[j].n) !! Pages(grants[k].base, grants[k].n)
    {
      var l: nat := if j < k then j else j + 1;
      assert rest[j] == grants[l];
      assert forall p: nat :: p in Pages(grants[l].base, grants[l].n) ==> p in GrantPages(grants);
      GrantKept(m, m', grants[l]);
    }
    RestPages(grants, k);
  }

  lemma RestSeparate(grants: seq<Grant>, k: nat)
    requires Separate(grants) && k < |grants|
    ensures Separate(grants[..k] + grants[k + 1..])
    ensures forall j: nat :: j < |grants| && j != k ==> Pages(grants[j].base, grants[j].n) !! Pages(grants[k].base,
        grants[k].n)
  {
    var rest := grants[..k] + grants[k + 1..];
    forall i: nat, j: nat | i < j < |rest|
      ensures NoCommonPage(rest[i], rest[j])
    {
      var i', j' := if i < k then i else i + 1, if j < k then j else j + 1;
      assert NoCommonPage(grants[i'], grants[j']);
    }
    forall j: nat | j < |grants| && j != k
      ensures Pages(grants[j].base, grants[j].n) !! Pages(grants[k].base, grants[k].n)
    {
      assert if j < k then NoCommonPage(grants[j], grants[k]) else NoCommonPage(grants[k], grants[j]);
    }
  }

  lemma RestPages(grants: seq<Grant>, k: nat)
    requires Separate(grants) && k < |grants|
    ensures GrantPages(grants[..k] + grants[k + 1..]) == GrantPages(grants) - Pages(grants[k].base, grants[k].n)
  {
    hide Pages, Separate;
    RestSeparate(grants, k);
    var rest := grants[..k] + grants[k + 1..];
    forall p: nat
      ensures p in GrantPages(rest) <==> p in GrantPages(grants) && p !in Pages(grants[k].base, grants[k].n)
    {
      if p in GrantPages(rest) {
        var j: nat :| j < |rest| && p in Pages(rest[j].base, rest[j].n);
        var l: nat := if j < k then j else j + 1;
        assert rest[j] == grants[l];
      }
      if p in GrantPages(grants) && p !in Pages(grants[k].base, grants[k].n) {
        var l: nat :| l < |grants| && p in Pages(grants[l].base, grants[l].n);
        var j: nat := if l < k then l else l - 1;
        assert rest[j] == grants[l];
      }
    }
  }

  /** The grant after its holder has stored a byte in it. */
  function StoredInPage(g: Grant, off: nat, b: bv8): Grant
    requires off < |g.contents|
  {
    g.(contents := g.contents[off := b])
  }

  /** A byte stored in one grant leaves all others as they were. */
  lemma StoreKeepsGrants(m: Bytes, m': Bytes, grants: seq<Grant>, k: nat, off: nat, b: bv8)
    requires AllGranted(m, grants) && k < |grants| && off < |grants[k].contents|
    requires m' == m[grants[k].base * PAGE_SIZE + off := b]
    ensures var grants' := grants[k := StoredInPage(grants[k], off, b)];
            AllGranted(m', grants') && GrantPages(grants') == GrantPages(grants)
    ensures SameOutside(m, m', grants[k].base * PAGE_SIZE, grants[k].n * PAGE_SIZE)
    ensures forall p: nat :: p !in Pages(grants[k].base, grants[k].n) ==> SamePage(m, m', p)
  {
    var grants' := grants[k := StoredInPage(grants[k], off, b)];
    PagesWrite(m, m', grants[k].base, grants[k].n);
    forall j: nat | j < |grants|
      ensures Granted(m', grants'[j])
    {
      if j == k {
        assert Granted(m, grants[k]);
        var lo, hi := grants[k].base * PAGE_SIZE, (grants[k].base + grants[k].n) * PAGE_SIZE;
        assert m'[lo..hi] == grants[k].contents[off := b];
      } else {
        assert if j < k then NoCommonPage(grants[j], grants[k]) else NoCommonPage(grants[k], grants[j]);
        GrantKept(m, m', grants[j]);
      }
    }
    forall i: nat, j: nat | i < j < |grants|
      ensures NoCommonPage(grants'[i], grants'[j])
    {
      assert NoCommonPage(grants[i], grants[j]);
    }
    SamePages(grants, grants');
  }

  lemma SamePages(grants: seq<Grant>, grants': seq<Grant>)
    requires |grants'| == |grants|
    requires forall k: nat :: k < |grants| ==> grants'[k].base == grants[k].base && grants'[k].n == grants[k].n
    ensures GrantPages(grants') == GrantPages(grants)
  {
    forall p: nat
      ensures p in GrantPages(grants') <==> p in GrantPages(grants)
    {
      if p in GrantPages(grants) {
        var k: nat :| k < |grants| && p in Pages(grants[k].base, grants[k].n);
        assert p in Pages(grants'[k].base, grants'[k].n);
      }
      if p in GrantPages(grants') {
        var k: nat :| k < |grants'| && p in Pages(grants'[k].base, grants'[k].n);
        assert p in Pages(grants[k].base, grants[k].n);
      }
    }
  }

  // ----- Some of the grants -----

  /** All pages of the grant are among the frames, or none is. */
  predicate AllOrNone(g: Grant, frames: set<nat>) {
    forall p: nat :: g.base <= p < g.base + g.n ==> (p in frames <==> g.base in frames)
  }

  predicate TakenWhole(grants: seq<Grant>, frames: set<nat>) {
    forall k: nat :: k < |grants| ==> AllOrNone(grants[k], frames)
  }

  /** The grant's pages are among the frames. */
  predicate GoesBack(g: Grant, frames: set<nat>) {
    0 < g.n && g.base in frames
  }

  /** The grants whose pages are not among the frames. */
  function Without(grants: seq<Grant>, frames: set<nat>): (rest: seq<Grant>)
    ensures forall g: Grant :: g in rest <==> g in grants && !GoesBack(g, frames)
  {
    if grants == [] then []
    else
      var front, g := Without(grants[..|grants| - 1], frames), grants[|grants| - 1];
      assert grants == grants[..|grants| - 1] + [g];
      if GoesBack(g, frames) then front else front + [g]
  }

  ghost predicate ApartFromAll(grants: seq<Grant>, g: Grant) {
    forall h: Grant :: h in grants ==> NoCommonPage(h, g)
  }

  lemma FrontSeparate(grants: seq<Grant>)
    requires Separate(grants) && grants != []
    ensures Separate(grants[..|grants| - 1])
    ensures ApartFromAll(grants[..|grants| - 1], grants[|grants| - 1])
  {
    hide NoCommonPage;
    var l := |grants| - 1;
    forall i: nat, j: nat | i < j < l
      ensures NoCommonPage(grants[..l][i], grants[..l][j])
    {
      assert NoCommonPage(grants[i], grants[j]);
    }
    forall g: Grant | g in grants[..l]
      ensures NoCommonPage(g, grants[l])
    {
      var k: nat :| k < l && grants[..l][k] == g;
      assert NoCommonPage(grants[k], grants[l]);
    }
  }

  lemma SeparateMore(front: seq<Grant>, g: Grant)
    requires Separate(front) && ApartFromAll(front, g)
    ensures Separate(front + [g])
  {
    hide NoCommonPage;
    var all := front + [g];
    forall i: nat, j: nat | i < j < |all|
      ensures NoCommonPage(all[i], all[j])
    {
      assert front[i] in front;
      assert j < |front| ==> NoCommonPage(front[i], front[j]);
    }
  }

  lemma {:induction false} WithoutSeparate(grants: seq<Grant>, frames: set<nat>)
    requires Separate(grants)
    ensures Separate(Without(grants, frames))
  {
    hide Separate, NoCommonPage;
    if grants == [] {
      NoneSeparate();
    } else {
      var l := |grants| - 1;
      FrontSeparate(grants);
      WithoutSeparate(grants[..l], frames);
      if !GoesBack(grants[l], frames) {
        SeparateMore(Without(grants[..l], frames), grants[l]);
      }
    }
  }

  lemma NoneSeparate()
    ensures Separate([])
  {
  }

  /** The page is in the hands of a client. */
  predicate InGrants(grants: seq<Grant>, f: nat) {
    exists k: nat :: k < |grants| && grants[k].base <= f < grants[k].base + grants[k].n
  }

  lemma InGrantsIff(grants: seq<Grant>, f: nat)
    ensures InGrants(grants, f) <==> f in GrantPages(grants)
  {
    if k: nat :| k < |grants| && grants[k].base <= f < grants[k].base + grants[k].n {
      assert f in Pages(grants[k].base, grants[k].n);
    }
  }

  lemma WithoutPages(grants: seq<Grant>, frames: set<nat>, p: nat)
    requires TakenWhole(grants, frames)
    ensures p in GrantPages(Without(grants, frames)) <==> p in GrantPages(grants) && p !in frames
  {
    var rest := Without(grants, frames);
    if p in GrantPages(rest) {
      var k: nat :| k < |rest| && p in Pages(rest[k].base, rest[k].n);
      assert rest[k] in rest;
      var l: nat :| l < |grants| && grants[l] == rest[k];
      assert p in Pages(grants[l].base, grants[l].n) && AllOrNone(grants[l], frames);
    }
    if p in GrantPages(grants) && p !in frames {
      var l: nat :| l < |grants| && p in Pages(grants[l].base, grants[l].n);
      assert AllOrNone(grants[l], frames) && grants[l] in rest;
      var k: nat :| k < |rest| && rest[k] == grants[l];
      assert p in Pages(rest[k].base, rest[k].n);
    }
  }

  /** Giving back whole grants leaves the others as they were. */
  lemma WithoutGranted(m: Bytes, m': Bytes, grants: seq<Grant>, frames: set<nat>)
    requires AllGranted(m, grants) && |m'| == |m| && TakenWhole(grants, frames)
    requires forall p: nat :: p in GrantPages(grants) && p !in frames ==> SamePage(m, m', p)
    ensures AllGranted(m', Without(grants, frames))
    ensures forall p: nat :: p in GrantPages(Without(grants, frames)) <==> p in GrantPages(grants) && p !in frames
  {
    var rest := Without(grants, frames);
    WithoutSeparate(grants, frames);
    forall p: nat
      ensures p in GrantPages(rest) <==> p in GrantPages(grants) && p !in frames
    {
      WithoutPages(grants, frames, p);
    }
    forall k: nat | k < |rest|
      ensures Granted(m', rest[k])
    {
      assert rest[k] in rest;
      var l: nat :| l < |grants| && grants[l] == rest[k];
      assert forall p: nat :: p in Pages(rest[k].base, rest[k].n) ==> p in GrantPages(rest);
      GrantKept(m, m', grants[l]);
    }
  }

  /** The pages kmalloc takes were held by nobody. */
  lemma GrowthIsFresh(bs: Blocks, n: nat, marked: set<nat>, tracked: nat)
    ensures Kmalloced(bs, n, FirstRun(marked, tracked, RegionPageCount(n), 0)).added !! marked
  {
    FirstRunIsLowest(marked, tracked, RegionPageCount(n), 0);
  }

  /** A page-table operation takes no page of the heap and writes none, so the heap stays as it is,
      loans included. */
  lemma TablesSpareHeap(s: State, s': State, reserved: set<nat>, headers: Headers, bs: Blocks, pages: set<nat>,
                        loans: seq<Loan>, grants: seq<Grant>)
    requires forall p: nat :: p !in reserved && p !in s'.places ==> SamePage(s.mem, s'.mem, p)
    requires forall t: int :: t in s'.places && t !in s.places ==> t !in s.held
    requires s.held <= s'.held && |s'.mem| == |s.mem| && reserved !! s.held
    requires pages <= s.held && forall t: nat :: t in s.places ==> t !in pages
    requires HeadersStored(s.mem, headers) && Linked(headers, bs) && Tiles(bs, pages) && AllLent(bs, s.mem, loans)
    requires GrantsOutside(s.mem, grants, s.held, pages, s.places)
    ensures HeadersStored(s'.mem, headers) && AllLent(bs, s'.mem, loans)
    ensures pages <= s'.held && forall t: nat :: t in s'.places ==> t !in pages
    ensures GrantsOutside(s'.mem, grants, s'.held, pages, s'.places)
  {
    hide HeadersStored, Linked, Tiles, AllLent, AllGranted, GrantPages;
    forall p: nat | p in GrantPages(grants)
      ensures SamePage(s.mem, s'.mem, p)
    {
    }
    GrantsKept(s.mem, s'.mem, grants);
    forall p: nat | p in pages
      ensures SamePage(s.mem, s'.mem, p)
    {
    }
    PagesKeepHeaders(s.mem, s'.mem, headers, bs, pages);
    TablesKeepLoans(bs, pages, s.mem, s'.mem, loans);
  }

  lemma TablesStay(s: State, s': State, reserved: set<nat>)
    requires Stored(s.mem, s.view) && Owned(s.view, s.places) && s.places.Keys <= s.held && reserved !! s.held
    requires s'.view == s.view && forall p: nat :: p in s.held && p in s.places ==> SamePage(s.mem, s'.mem, p)
    ensures Stored(s'.mem, s.view)
  {
    StoredFrame(s.mem, s'.mem, s.view);
  }

  lemma GrantIn(m: Bytes, grants: seq<Grant>, k: nat)
    requires AllGranted(m, grants) && k < |grants|
    ensures Pages(grants[k].base, grants[k].n) <= GrantPages(grants) && grants[k].base * PAGE_SIZE <= |m|
  {
  }

  /** Freeing a grant spares the tables, the heap, the loans and the other grants. */
  lemma FreedSparesAll(s: State, s': State, reserved: set<nat>, headers: Headers, bs: Blocks, pages: set<nat>,
                       loans: seq<Loan>,
                       grants: seq<Grant>, k: nat)
    requires k < |grants| && s'.held == s.held - Pages(grants[k].base, grants[k].n) && s'.view == s.view
        && s'.places == s.places
    requires forall p: nat :: p !in reserved + Pages(grants[k].base, grants[k].n) ==> SamePage(s.mem, s'.mem, p)
    requires |s'.mem| == |s.mem| && reserved !! s.held && Stored(s.mem, s.view) && Owned(s.view, s.places)
        && s.places.Keys <= s.held
    requires pages <= s.held && forall t: nat :: t in s.places ==> t !in pages
    requires HeadersStored(s.mem, headers) && Linked(headers, bs) && Tiles(bs, pages) && AllLent(bs, s.mem, loans)
    requires GrantsOutside(s.mem, grants, s.held, pages, s.places)
    ensures Stored(s'.mem, s'.view) && s'.places.Keys <= s'.held
    ensures HeadersStored(s'.mem, headers) && AllLent(bs, s'.mem, loans) && pages <= s'.held
    ensures GrantsOutside(s'.mem, grants[..k] + grants[k + 1..], s'.held, pages, s'.places)
    ensures GrantPages(grants[..k] + grants[k + 1..]) == GrantPages(grants) - Pages(grants[k].base, grants[k].n)
    ensures Pages(grants[k].base, grants[k].n) <= GrantPages(grants)
  {
    hide HeadersStored, Linked, Tiles, AllLent, AllGranted, GrantPages, Stored, Owned;
    GrantIn(s.mem, grants, k);
    GrantLess(s.mem, s'.mem, grants, k, reserved);
    forall p: nat | p in pages
      ensures SamePage(s.mem, s'.mem, p)
    {
    }
    TablesStay(s, s', reserved);
    PagesKeepHeaders(s.mem, s'.mem, headers, bs, pages);
    TablesKeepLoans(bs, pages, s.mem, s'.mem, loans);
  }
}
