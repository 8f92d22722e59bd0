/** What destroying an address space frees, and in which order. */
module TreeTeardown {
  import opened Wrappers
  import opened PageTableEntry
  import opened TableTree

  /** Keys below this one are in the lower half of the address space. */
  const LOWER_KEYS: nat := 0x8_0000_0000

  /** The frames freed, in order, by going through the first n entries of a table whose children
      are at level c: for each present entry, everything below it and then the frame it names. */
  ghost function FreedBelow(view: View, t: nat, c: nat, n: nat): seq<nat>
    requires n <= 512
    decreases c, 1, n
  {
    if n == 0 || t !in view then []
    else FreedBelow(view, t, c, n - 1) + FreedByEntry(view, view[t][n - 1], c)
  }

  ghost function FreedByEntry(view: View, e: Entry, c: nat): seq<nat>
    decreases c, 0
  {
    if !e.present then []
    else if c == 0 then [e.addr]
    else FreedBelow(view, e.addr, c - 1, 512) + [e.addr]
  }

  ghost predicate NoDuplicates(s: seq<nat>) {
    forall i: nat, j: nat :: i < j < |s| ==> s[i] != s[j]
  }

  lemma NoDuplicatesJoin(s: seq<nat>, s': seq<nat>)
    requires NoDuplicates(s) && NoDuplicates(s') && forall x: nat :: x in s ==> x !in s'
    ensures NoDuplicates(s + s')
  {
    forall i: nat, j: nat | i < j < |s + s'|
      ensures (s + s')[i] != (s + s')[j]
    {
      assert i < |s| <= j ==> s[i] in s && s'[j - |s|] in s';
    }
  }

  lemma NoDuplicatesSplit(s: seq<nat>, s': seq<nat>)
    requires NoDuplicates(s + s')
    ensures NoDuplicates(s) && NoDuplicates(s') && forall x: nat :: x in s ==> x !in s'
  {
    var all := s + s';
    forall i: nat, j: nat | i < j < |s|
      ensures s[i] != s[j]
    {
      assert all[i] != all[j];
    }
    forall i: nat, j: nat | i < j < |s'|
      ensures s'[i] != s'[j]
    {
      assert all[|s| + i] != all[|s| + j];
    }
    forall x: nat | x in s
      ensures x !in s'
    {
      var i: nat :| i < |s| && s[i] == x;
      forall j: nat | j < |s'|
        ensures s'[j] != x
      {
        assert all[i] != all[|s| + j];
      }
    }
  }

  // ----- Where a frame lies below a root -----

  /** The present leaf entry at `key` names frame x. */
  ghost predicate LeafAt(view: View, root: nat, key: nat, x: nat) {
    Flat(view, root, key).present && Flat(view, root, key).addr == x
  }

  /** Every lower-half page of this address space has a frame of its own: held, and no table. */
  ghost predicate OwnLeaves(view: View, places: Places, held: set<nat>, root: nat) {
    && (forall key: nat, x: nat :: key < LOWER_KEYS && LeafAt(view, root, key, x) ==> x in held && x !in places)
    && (forall key: nat, key': nat, x: nat ::
          key < LOWER_KEYS && key' < LOWER_KEYS && LeafAt(view, root, key, x) && LeafAt(view, root, key', x) ==>
            key == key')
  }

  /** One address space among all tables. */
  datatype Space = Space(view: View, places: Places, held: set<nat>, root: nat) {

    ghost predicate Sound() {
      Owned(view, places) && IsRoot(places, root) && OwnLeaves(view, places, held, root)
    }

    /** Table t sits at (level, prefix). */
    ghost predicate Sits(t: nat, level: nat, prefix: nat) {
      && 1 <= level <= 4 && t in view && t in places && places[t].root == root
      && places[t].level == level && places[t].prefix == prefix
    }

    /** Frame x is a table at or below the position (level, prefix). */
    ghost predicate TableBelow(x: nat, level: nat, prefix: nat) {
      x in places && places[x].root == root && places[x].level <= level
      && Prefix(places[x].prefix, level - places[x].level) == prefix
    }

    /** Frame x is the frame of a lower-half page below the position (level, prefix). */
    ghost predicate LeafBelow(x: nat, level: nat, prefix: nat) {
      x !in places && exists key: nat :: key < LOWER_KEYS && LeafAt(view, root, key, x) && Prefix(key, level) == prefix
    }

    ghost predicate Below(x: nat, level: nat, prefix: nat) {
      TableBelow(x, level, prefix) || LeafBelow(x, level, prefix)
    }

    /** Frame x lies below one of the first n entries, at level c, of a table with this prefix. */
    ghost predicate BelowEntries(x: nat, c: nat, prefix: nat, n: nat) {
      exists q: nat :: prefix * 512 <= q < prefix * 512 + n && Below(x, c, q)
    }
  }

  lemma {:induction false} PrefixOfPrefix(k: nat, a: nat, b: nat)
    ensures Prefix(Prefix(k, a), b) == Prefix(k, a + b)
  {
    if b > 0 {
      PrefixOfPrefix(k, a, b - 1);
    }
  }

  lemma BelowParent(sp: Space, x: nat, level: nat, prefix: nat)
    requires sp.Below(x, level, prefix)
    ensures sp.Below(x, level + 1, prefix / 512)
  {
  }

  // ----- The lower half -----

  /** The position (level, prefix) is in the lower half. */
  ghost predicate Lower(level: nat, prefix: nat) {
    level <= 3 && Prefix(prefix, 3 - level) < 256
  }

  /** The first n entries, at level c, of a table with this prefix lead to the lower half. */
  ghost predicate LowerEntries(c: nat, prefix: nat, n: nat) {
    forall q: nat :: prefix * 512 <= q < prefix * 512 + n ==> Lower(c, q)
  }

  lemma LowerEntriesOfLower(c: nat, prefix: nat)
    requires Lower(c + 1, prefix)
    ensures LowerEntries(c, prefix, 512)
  {
    forall q: nat | prefix * 512 <= q < prefix * 512 + 512
      ensures Lower(c, q)
    {
      PrefixOfPrefix(q, 1, 2 - c);
      assert Prefix(q, 1) == Prefix(q, 0) / 512;
    }
  }

  lemma LowerKey(key: nat)
    ensures Lower(0, key) <==> key < LOWER_KEYS
  {
    assert Prefix(key, 1) == Prefix(key, 0) / 512;
    assert Prefix(key, 2) == Prefix(key, 1) / 512;
    assert Prefix(key, 3) == Prefix(key, 2) / 512;
  }

  // ----- Everything freed lies below the table -----

  /** A leaf table's entry is the leaf entry of its key. */
  lemma LeafEntry(sp: Space, t: nat, prefix: nat, q: nat)
    requires sp.Sound() && sp.Sits(t, 1, prefix) && prefix * 512 <= q < prefix * 512 + 512 && Lower(0, q)
    ensures q < LOWER_KEYS && Flat(sp.view, sp.root, q) == sp.view[t][q - prefix * 512]
  {
    LowerKey(q);
    assert Prefix(q, 1) == Prefix(q, 0) / 512;
    PlaceIsReached(sp.view, sp.places, t, q);
    assert Index(q, 1) == q - prefix * 512;
  }

  /** A present entry above the leaf level leads to a table that sits at the entry's position. */
  lemma LinkedTable(sp: Space, t: nat, c: nat, prefix: nat, q: nat)
    requires sp.Sound() && sp.Sits(t, c + 1, prefix) && 0 < c && prefix * 512 <= q < prefix * 512 + 512
    requires sp.view[t][q - prefix * 512].present
    ensures sp.Sits(sp.view[t][q - prefix * 512].addr, c, q)
  {
    assert TableOk(sp.view, sp.places, t) && LinkOk(sp.view, sp.places, t, q - prefix * 512);
  }

  /** What one entry frees lies below that entry's position. */
  lemma {:induction false} EntryFreesBelow(sp: Space, t: nat, c: nat, prefix: nat, q: nat, e: Entry)
    requires sp.Sound() && sp.Sits(t, c + 1, prefix) && prefix * 512 <= q < prefix * 512 + 512 && Lower(c, q)
    requires e == sp.view[t][q - prefix * 512]
    ensures forall x: nat :: x in FreedByEntry(sp.view, e, c) ==> sp.Below(x, c, q)
    decreases c, 0
  {
    if e.present && c == 0 {
      LeafEntry(sp, t, prefix, q);
      assert LeafAt(sp.view, sp.root, q, e.addr) && Prefix(q, 0) == q;
    } else if e.present {
      LinkedTable(sp, t, c, prefix, q);
      LowerEntriesOfLower(c - 1, q);
      TableFreesBelow(sp, e.addr, c - 1, q, 512);
      var s := FreedBelow(sp.view, e.addr, c - 1, 512);
      forall x: nat | x in s
        ensures sp.Below(x, c, q)
      {
        var r: nat :| q * 512 <= r < q * 512 + 512 && sp.Below(x, c - 1, r);
        BelowParent(sp, x, c - 1, r);
      }
      assert sp.TableBelow(e.addr, c, q);
    }
  }

  lemma {:induction false} TableFreesBelow(sp: Space, t: nat, c: nat, prefix: nat, n: nat)
    requires sp.Sound() && sp.Sits(t, c + 1, prefix) && n <= 512 && LowerEntries(c, prefix, n)
    ensures forall x: nat :: x in FreedBelow(sp.view, t, c, n) ==> sp.BelowEntries(x, c, prefix, n)
    decreases c, 1, n
  {
    if n > 0 {
      var q := prefix * 512 + (n - 1);
      TableFreesBelow(sp, t, c, prefix, n - 1);
      EntryFreesBelow(sp, t, c, prefix, q, sp.view[t][n - 1]);
      forall x: nat | x in FreedBelow(sp.view, t, c, n)
        ensures sp.BelowEntries(x, c, prefix, n)
      {
        if x in FreedBelow(sp.view, t, c, n - 1) {
          var r: nat :| prefix * 512 <= r < prefix * 512 + (n - 1) && sp.Below(x, c, r);
          assert sp.Below(x, c, r);
        } else {
          assert sp.Below(x, c, q);
        }
      }
    }
  }

  // ----- No frame is freed twice -----

  lemma TableNotBelowItself(sp: Space, t: nat, c: nat, prefix: nat, n: nat)
    requires sp.Sound() && sp.Sits(t, c + 1, prefix)
    ensures !sp.BelowEntries(t, c, prefix, n)
  {
  }

  lemma {:induction false} EntryFreesOnce(sp: Space, t: nat, c: nat, prefix: nat, q: nat, e: Entry)
    requires sp.Sound() && sp.Sits(t, c + 1, prefix) && prefix * 512 <= q < prefix * 512 + 512 && Lower(c, q)
    requires e == sp.view[t][q - prefix * 512]
    ensures NoDuplicates(FreedByEntry(sp.view, e, c))
    decreases c, 0
  {
    if e.present && 0 < c {
      LinkedTable(sp, t, c, prefix, q);
      LowerEntriesOfLower(c - 1, q);
      TableFreesOnce(sp, e.addr, c - 1, q, 512);
      TableFreesBelow(sp, e.addr, c - 1, q, 512);
      TableNotBelowItself(sp, e.addr, c - 1, q, 512);
      NoDuplicatesJoin(FreedBelow(sp.view, e.addr, c - 1, 512), [e.addr]);
    }
  }

  lemma {:induction false} TableFreesOnce(sp: Space, t: nat, c: nat, prefix: nat, n: nat)
    requires sp.Sound() && sp.Sits(t, c + 1, prefix) && n <= 512 && LowerEntries(c, prefix, n)
    ensures NoDuplicates(FreedBelow(sp.view, t, c, n))
    decreases c, 1, n
  {
    if n > 0 {
      var q, e := prefix * 512 + (n - 1), sp.view[t][n - 1];
      TableFreesOnce(sp, t, c, prefix, n - 1);
      EntryFreesOnce(sp, t, c, prefix, q, e);
      TableFreesBelow(sp, t, c, prefix, n - 1);
      EntryFreesBelow(sp, t, c, prefix, q, e);
      EntriesDisjoint(sp, c, prefix, q, FreedBelow(sp.view, t, c, n - 1), FreedByEntry(sp.view, e, c));
      NoDuplicatesJoin(FreedBelow(sp.view, t, c, n - 1), FreedByEntry(sp.view, e, c));
    }
  }

  lemma EntriesDisjoint(sp: Space, c: nat, prefix: nat, q: nat, s: seq<nat>, s': seq<nat>)
    requires sp.Sound() && prefix * 512 <= q
    requires forall x: nat :: x in s ==> sp.BelowEntries(x, c, prefix, q - prefix * 512)
    requires forall x: nat :: x in s' ==> sp.Below(x, c, q)
    ensures forall x: nat :: x in s ==> x !in s'
  {
  }

  // ----- Everything below the table is freed -----

  lemma {:induction false} EntryIsFreed(view: View, t: nat, c: nat, n: nat, i: nat)
    requires t in view && i < n <= 512
    ensures forall x: nat :: x in FreedByEntry(view, view[t][i], c) ==> x in FreedBelow(view, t, c, n)
    decreases n
  {
    if i < n - 1 {
      EntryIsFreed(view, t, c, n - 1, i);
    }
  }

  /** The walk for `key` passes through frame x: as the table at level `at`, or, at level 0, as the
      frame of the page itself. */
  ghost predicate Walked(view: View, root: nat, key: nat, x: nat, at: nat) {
    at <= 4 && if at == 0 then LeafAt(view, root, key, x) else TableAt(view, root, key, at) == Some(x)
  }

  /** A present entry frees the frame it names and everything below it. */
  lemma FreedThrough(view: View, e: Entry, c: nat)
    requires e.present
    ensures e.addr in FreedByEntry(view, e, c)
    ensures 0 < c ==> forall x: nat :: x in FreedBelow(view, e.addr, c - 1, 512) ==> x in FreedByEntry(view, e, c)
  {
  }

  /** The walk for `key` goes from table t to what the entry it selects there names. */
  lemma WalkOnwards(sp: Space, t: nat, c: nat, key: nat)
    requires sp.Sound() && key < KEYS && c < 4 && TableAt(sp.view, sp.root, key, c + 1) == Some(t)
    ensures t in sp.view
    ensures var e := sp.view[t][Index(key, c + 1)];
            if c == 0 then Flat(sp.view, sp.root, key) == e
            else TableAt(sp.view, sp.root, key, c) == if e.present then Some(e.addr) else None
  {
    WalkInTree(sp.view, sp.places, sp.root, key, c + 1);
  }

  /** If the walk for `key` passes through table t and on to frame x, the entry it selects in t is
      present, and names x or the next table on the way to x. */
  lemma WalkedThrough(sp: Space, t: nat, c: nat, key: nat, x: nat, at: nat)
    requires sp.Sound() && key < KEYS && c < 4 && at <= c
    requires TableAt(sp.view, sp.root, key, c + 1) == Some(t) && Walked(sp.view, sp.root, key, x, at)
    ensures t in sp.view
    ensures var e := sp.view[t][Index(key, c + 1)];
            e.present && if at == c then e.addr == x else TableAt(sp.view, sp.root, key, c) == Some(e.addr)
  {
    WalkOnwards(sp, t, c, key);
    if 0 < c {
      WalkContinues(sp.view, sp.root, key, c, x, at);
    }
  }

  /** Then going through the entries of t up to the one that `key` selects frees x. */
  lemma {:induction false} WalkedIsFreed(sp: Space, t: nat, c: nat, key: nat, n: nat, x: nat, at: nat)
    requires sp.Sound() && key < KEYS && c < 4 && n <= 512 && at <= c
    requires TableAt(sp.view, sp.root, key, c + 1) == Some(t) && Index(key, c + 1) < n
    requires Walked(sp.view, sp.root, key, x, at)
    ensures x in FreedBelow(sp.view, t, c, n)
    decreases c
  {
    hide Flat, TableAt, Prefix, FreedBelow, FreedByEntry, Owned, OwnLeaves, Walked;
    WalkedThrough(sp, t, c, key, x, at);
    var e := sp.view[t][Index(key, c + 1)];
    FreedThrough(sp.view, e, c);
    if at < c {
      WalkedIsFreed(sp, e.addr, c - 1, key, 512, x, at);
    }
    EntryIsFreed(sp.view, t, c, n, Index(key, c + 1));
  }

  /** A walk that gets as far as level `at` has a table at every level above. */
  lemma {:induction false} WalkContinues(view: View, root: nat, key: nat, level: nat, x: nat, at: nat)
    requires 1 <= level <= 4 && at <= level && Walked(view, root, key, x, at)
    ensures TableAt(view, root, key, level).Some?
    decreases level - at
  {
    if at < level && 1 < level {
      if at == level - 1 {
      } else {
        WalkContinues(view, root, key, level - 1, x, at);
      }
    }
  }

  // ----- The whole address space -----

  /** The frames destroying an address space must free: its root, its lower-half tables, and the
      frames of its present lower-half pages. */
  ghost predicate Doomed(sp: Space, x: nat) {
    || x == sp.root
    || (x in sp.places && sp.places[x].root == sp.root && Lower(sp.places[x].level, sp.places[x].prefix))
    || exists key: nat :: key < LOWER_KEYS && LeafAt(sp.view, sp.root, key, x)
  }

  lemma RootPrefix(key: nat)
    requires Prefix(key, 3) < 256
    ensures key < KEYS && Index(key, 4) < 256
  {
    assert Prefix(key, 1) == Prefix(key, 0) / 512;
    assert Prefix(key, 2) == Prefix(key, 1) / 512;
    assert Prefix(key, 3) == Prefix(key, 2) / 512;
  }

  lemma DoomedIsFreed(sp: Space, x: nat)
    requires sp.Sound() && Doomed(sp, x) && x != sp.root
    ensures x in FreedBelow(sp.view, sp.root, 3, 256)
  {
    if x in sp.places && sp.places[x].root == sp.root && Lower(sp.places[x].level, sp.places[x].prefix) {
      var p := sp.places[x];
      assert TableOk(sp.view, sp.places, x);
      var key := KeyBelow(p.prefix, p.level);
      KeyBelowHasPrefix(p.prefix, p.level);
      PrefixOfPrefix(key, p.level, 3 - p.level);
      RootPrefix(key);
      PlaceIsReached(sp.view, sp.places, x, key);
      WalkedIsFreed(sp, sp.root, 3, key, 256, x, p.level);
    } else {
      var key: nat :| key < LOWER_KEYS && LeafAt(sp.view, sp.root, key, x);
      LowerKey(key);
      RootPrefix(key);
      WalkedIsFreed(sp, sp.root, 3, key, 256, x, 0);
    }
  }

  lemma RootSits(sp: Space)
    requires sp.Sound()
    ensures sp.Sits(sp.root, 4, 0) && LowerEntries(3, 0, 256)
  {
  }

  lemma FreedIsDoomed(sp: Space, x: nat)
    requires sp.Sound() && x in FreedBelow(sp.view, sp.root, 3, 256)
    ensures Doomed(sp, x)
  {
    RootSits(sp);
    TableFreesBelow(sp, sp.root, 3, 0, 256);
    var q: nat :| q < 256 && sp.Below(x, 3, q);
  }

  lemma FreedOnce(sp: Space)
    requires sp.Sound()
    ensures NoDuplicates(FreedBelow(sp.view, sp.root, 3, 256)) && sp.root !in FreedBelow(sp.view, sp.root, 3, 256)
  {
    RootSits(sp);
    TableFreesBelow(sp, sp.root, 3, 0, 256);
    TableFreesOnce(sp, sp.root, 3, 0, 256);
    TableNotBelowItself(sp, sp.root, 3, 0, 256);
  }

  /** Going through the lower half of the root, and then freeing the root, frees exactly the doomed
      frames, each once. */
  lemma FreedExactly(sp: Space)
    requires sp.Sound()
    ensures NoDuplicates(FreedBelow(sp.view, sp.root, 3, 256) + [sp.root])
    ensures forall x: nat :: x in FreedBelow(sp.view, sp.root, 3, 256) + [sp.root] <==> Doomed(sp, x)
  {
    FreedOnce(sp);
    NoDuplicatesJoin(FreedBelow(sp.view, sp.root, 3, 256), [sp.root]);
    forall x: nat | x != sp.root
      ensures x in FreedBelow(sp.view, sp.root, 3, 256) <==> Doomed(sp, x)
    {
      if x in FreedBelow(sp.view, sp.root, 3, 256) {
        FreedIsDoomed(sp, x);
      } else if Doomed(sp, x) {
        DoomedIsFreed(sp, x);
      }
    }
  }

  // ----- The same in plain numbers -----

  /** The walk for virtual address v goes through a table in frame x at the given level. */
  ghost predicate WalksThrough(view: View, root: nat, v: nat, level: nat, x: nat) {
    1 <= level <= 3 && TableAt(view, root, v / 0x1000, level) == Some(x)
  }

  /** Virtual address v is mapped to frame x. */
  ghost predicate MapsTo(view: View, root: nat, v: nat, x: nat) {
    var e := Flat(view, root, v / 0x1000);
    e.present && e.addr == x
  }

  /** Destroying an address space must free its root, and every table and every mapped frame that the walk
      for an address below 2^47 goes through. */
  lemma DoomedInNumbers(sp: Space, x: nat)
    requires sp.Sound()
    ensures Doomed(sp, x) <==>
            || x == sp.root
            || (exists v: nat, level: nat :: v < 0x8000_0000_0000 && WalksThrough(sp.view, sp.root, v, level, x))
            || (exists v: nat :: v < 0x8000_0000_0000 && MapsTo(sp.view, sp.root, v, x))
  {
    if x in sp.places && sp.places[x].root == sp.root && Lower(sp.places[x].level, sp.places[x].prefix) {
      LowerTableIsWalked(sp, x);
    }
    if key: nat :| key < LOWER_KEYS && LeafAt(sp.view, sp.root, key, x) {
      assert 0x1000 * key / 0x1000 == key;
      assert MapsTo(sp.view, sp.root, 0x1000 * key, x);
    }
    if v: nat, level: nat :| v < 0x8000_0000_0000 && WalksThrough(sp.view, sp.root, v, level, x) {
      WalkedTableIsLower(sp, v / 0x1000, level, x);
    }
    if v: nat :| v < 0x8000_0000_0000 && MapsTo(sp.view, sp.root, v, x) {
      assert LeafAt(sp.view, sp.root, v / 0x1000, x);
    }
  }

  lemma LowerTableIsWalked(sp: Space, x: nat)
    requires sp.Sound() && x in sp.places && sp.places[x].root == sp.root
    requires Lower(sp.places[x].level, sp.places[x].prefix)
    ensures exists v: nat, level: nat :: v < 0x8000_0000_0000 && WalksThrough(sp.view, sp.root, v, level, x)
  {
    var p := sp.places[x];
    assert TableOk(sp.view, sp.places, x);
    var key := KeyBelow(p.prefix, p.level);
    KeyBelowHasPrefix(p.prefix, p.level);
    PrefixOfPrefix(key, p.level, 3 - p.level);
    LowerKey(key);
    PlaceIsReached(sp.view, sp.places, x, key);
    assert Prefix(key, 0) == key && 0x1000 * key / 0x1000 == key;
    assert WalksThrough(sp.view, sp.root, 0x1000 * key, p.level, x);
  }

  lemma WalkedTableIsLower(sp: Space, key: nat, level: nat, x: nat)
    requires sp.Sound() && key < LOWER_KEYS && 1 <= level <= 3 && TableAt(sp.view, sp.root, key, level) == Some(x)
    ensures x in sp.places && sp.places[x].root == sp.root && Lower(sp.places[x].level, sp.places[x].prefix)
  {
    WalkReachesPlace(sp.view, sp.places, sp.root, key, level);
    PrefixOfPrefix(key, level, 3 - level);
    LowerKey(key);
    assert Prefix(key, 0) == key;
  }

  // ----- The upper half -----

  /** No entry of the root's upper half is present. */
  ghost predicate UpperHalfEmpty(sp: Space)
    requires sp.root in sp.view
  {
    forall i: nat :: 256 <= i < 512 ==> !sp.view[sp.root][i].present
  }

  lemma LowerChild(level: nat, prefix: nat)
    requires level < 3 && Lower(level + 1, prefix / 512)
    ensures Lower(level, prefix)
  {
    PrefixOfPrefix(prefix, 1, 2 - level);
    assert Prefix(prefix, 1) == Prefix(prefix, 0) / 512;
  }

  /** With an empty upper half every table but the root is in the lower half. */
  lemma {:induction false} AllTablesLower(sp: Space, t: nat)
    requires sp.Sound() && t in sp.places && sp.places[t].root == sp.root && t != sp.root
    requires sp.root in sp.view && UpperHalfEmpty(sp)
    ensures Lower(sp.places[t].level, sp.places[t].prefix)
    decreases 4 - sp.places[t].level
  {
    var p := sp.places[t];
    assert TableOk(sp.view, sp.places, t);
    if p.level == 3 {
      assert TableOk(sp.view, sp.places, p.parent);
      assert sp.view[sp.root][p.prefix % 512].present && p.prefix / 512 == 0;
    } else {
      AllTablesLower(sp, p.parent);
      LowerChild(p.level, p.prefix);
    }
  }

  /** Destroying an address space gives back all of its tables exactly when no upper-half entry of its
      root is present; otherwise the tables below that entry stay held. */
  lemma GivesBackAllTables(sp: Space)
    requires sp.Sound()
    ensures sp.root in sp.view
    ensures (forall t: nat :: t in sp.places && sp.places[t].root == sp.root ==> Doomed(sp, t)) <==> UpperHalfEmpty(sp)
  {
    RootSits(sp);
    if UpperHalfEmpty(sp) {
      forall t: nat | t in sp.places && sp.places[t].root == sp.root
        ensures Doomed(sp, t)
      {
        if t != sp.root {
          AllTablesLower(sp, t);
        }
      }
    } else {
      var i: nat :| 256 <= i < 512 && sp.view[sp.root][i].present;
      LinkedTable(sp, sp.root, 3, 0, i);
      assert Prefix(i, 0) == i && !Doomed(sp, sp.view[sp.root][i].addr);
    }
  }

  /** The tables of the other address spaces. */
  ghost function Others<T>(m: map<int, T>, places: Places, root: nat): map<int, T> {
    map t | t in m && !(t in places && places[t].root == root) :: m[t]
  }

  lemma OthersOwned(view: View, places: Places, root: nat)
    requires Owned(view, places)
    ensures Owned(Others(view, places, root), Others(places, places, root))
  {
    var view', places' := Others(view, places, root), Others(places, places, root);
    forall t: nat | t in places'
      ensures TableOk(view', places', t)
    {
      assert TableOk(view, places, t);
      forall i: nat | i < 512 && 1 < places[t].level
        ensures LinkOk(view', places', t, i)
      {
        assert LinkOk(view, places, t, i);
      }
    }
  }

  lemma OthersStep(view: View, places: Places, root: nat, w: Option<nat>, j: nat)
    requires view.Keys == places.Keys && j < 512
    requires w.Some? ==> w.value in places && places[w.value].root != root
    ensures Descend(Others(view, places, root), w, j) == Descend(view, w, j)
  {
  }

  lemma {:induction false} OthersWalk(view: View, places: Places, root: nat, r: nat, key: nat, level: nat)
    requires Owned(view, places) && IsRoot(places, r) && r != root && key < KEYS && 1 <= level <= 4
    ensures TableAt(Others(view, places, root), r, key, level) == TableAt(view, r, key, level)
    decreases 4 - level
  {
    if level < 4 {
      OthersWalk(view, places, root, r, key, level + 1);
      WalkInTree(view, places, r, key, level + 1);
      OthersStep(view, places, root, TableAt(view, r, key, level + 1), Index(key, level + 1));
    }
  }

  /** Forgetting one address space changes no translation of another. */
  lemma OthersFlat(view: View, places: Places, root: nat, r: nat, key: nat)
    requires Owned(view, places) && IsRoot(places, r) && r != root && key < KEYS
    ensures Flat(Others(view, places, root), r, key) == Flat(view, r, key)
  {
    OthersWalk(view, places, root, r, key, 1);
    assert TableOk(view, places, r);
    WalkInTree(view, places, r, key, 1);
  }
}
