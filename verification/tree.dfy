/** The four-level page-table tree as a value, and the flat map from page numbers to leaf entries
    that it stands for. A page number (key) is bits 12..47 of a virtual address. */
module TableTree {
  import opened Wrappers
  import opened PageTableEntry

  const KEYS: nat := 0x10_0000_0000

  type Table = s: seq<Entry> | |s| == 512 witness seq(512, _ => ABSENT)

  /** The contents of every table, by frame number. */
  type View = map<int, Table>

  function EmptyTable(): (t: Table)
    ensures forall i: nat :: i < 512 ==> t[i] == ABSENT
  {
    seq(512, _ => ABSENT)
  }

  // ----- Page numbers -----

  /** What is left of a key above the tables of the given level. */
  function Prefix(key: nat, level: nat): nat {
    if level == 0 then key else Prefix(key, level - 1) / 512
  }

  /** The entry a key selects in its table of the given level. */
  function Index(key: nat, level: nat): (i: nat)
    requires 0 < level
    ensures i < 512
  {
    Prefix(key, level - 1) % 512
  }

  lemma PrefixTop(key: nat)
    requires key < KEYS
    ensures Prefix(key, 4) == 0
  {
    assert Prefix(key, 1) == key / 512;
    assert Prefix(key, 2) == Prefix(key, 1) / 512;
    assert Prefix(key, 3) == Prefix(key, 2) / 512;
  }

  // ----- The flat map -----

  /** The frame of the table of the given level that the walk for `key` goes through. */
  ghost function TableAt(view: View, root: nat, key: nat, level: nat): Option<nat>
    requires 1 <= level <= 4
    decreases 4 - level
  {
    if level == 4 then Some(root)
    else Descend(view, TableAt(view, root, key, level + 1), Index(key, level + 1))
  }

  /** The frame that entry i of a table links to. */
  ghost function Descend(view: View, table: Option<nat>, i: nat): Option<nat>
    requires i < 512
  {
    if table.Some? && table.value in view && view[table.value][i].present then Some(view[table.value][i].addr) else None
  }

  /** The leaf entry of a page; a page without a leaf table has an absent one. */
  ghost function Flat(view: View, root: nat, key: nat): Entry {
    var leaf := TableAt(view, root, key, 1);
    if leaf.Some? && leaf.value in view then view[leaf.value][Index(key, 1)] else ABSENT
  }

  /** How many tables below the given level the walk for `key` would have to create. */
  ghost function Missing(view: View, root: nat, key: nat, level: nat): nat
    requires 1 <= level <= 4
  {
    if level == 1 then 0
    else (if TableAt(view, root, key, level - 1).None? then 1 else 0) + Missing(view, root, key, level - 1)
  }

  /** Nothing is missing down to a table that is there... */
  lemma {:induction false} NoneMissingAbove(view: View, root: nat, key: nat, level: nat, top: nat)
    requires 1 <= level <= top <= 4 && TableAt(view, root, key, level).Some?
    ensures TableAt(view, root, key, top).Some?
    ensures Missing(view, root, key, top) == Missing(view, root, key, level)
    decreases top - level
  {
    if level < top {
      NoneMissingAbove(view, root, key, level + 1, top);
    }
  }

  /** ...and everything below one that is not. */
  lemma {:induction false} AllMissingBelow(view: View, root: nat, key: nat, level: nat)
    requires 1 < level <= 4 && TableAt(view, root, key, level - 1).None?
    ensures Missing(view, root, key, level) == level - 1
    decreases level
  {
    if 2 < level {
      AllMissingBelow(view, root, key, level - 1);
    }
  }

  /** The walk for `key` breaks off below the table of the given level. */
  lemma MissingFrom(view: View, root: nat, key: nat, level: nat)
    requires 1 <= level <= 4 && TableAt(view, root, key, level).Some?
    requires level == 1 || TableAt(view, root, key, level - 1).None?
    ensures Missing(view, root, key, 4) == level - 1
  {
    NoneMissingAbove(view, root, key, level, 4);
    if level > 1 {
      AllMissingBelow(view, root, key, level);
    }
  }

  // ----- Ownership -----

  /** Where a table sits: its root, its level (4 is the top), the key prefix of the pages below it,
      and the frame of the table that links to it. */
  datatype Place = Place(root: nat, level: nat, prefix: nat, parent: nat)

  type Places = map<int, Place>

  /** An entry above the leaf level is absent, or links to the one table whose place says so. */
  ghost predicate LinkOk(view: View, places: Places, t: nat, i: nat)
    requires t in view && t in places && i < 512 && 1 < places[t].level
  {
    var e := view[t][i];
    e == ABSENT
    || (e.LinksTo(e.addr) && e.addr in places
        && places[e.addr] == Place(places[t].root, places[t].level - 1, places[t].prefix * 512 + i, t))
  }

  ghost predicate TableOk(view: View, places: Places, t: nat)
    requires t in view && t in places
  {
    var p := places[t];
    && 1 <= p.level <= 4
    && (p.level == 4 ==> p.root == t && p.prefix == 0)
    && (p.level < 4 ==>
          p.parent in places && p.parent in view && places[p.parent].level == p.level + 1
          && places[p.parent].root == p.root && places[p.parent].prefix == p.prefix / 512
          && view[p.parent][p.prefix % 512].LinksTo(t))
    && (1 < p.level ==> forall i: nat :: i < 512 ==> LinkOk(view, places, t, i))
  }

  /** Every table has one place: it is linked to by exactly one entry, and sits at one level below
      one root. */
  ghost predicate Owned(view: View, places: Places) {
    && places.Keys == view.Keys
    && forall t: nat :: t in places ==> TableOk(view, places, t)
  }

  ghost predicate IsRoot(places: Places, root: nat) {
    root in places && places[root].level == 4
  }

  /** A walk ends in a table whose place is the one walked to. */
  lemma {:induction false} WalkReachesPlace(view: View, places: Places, root: nat, key: nat, level: nat)
    requires Owned(view, places) && IsRoot(places, root) && key < KEYS && 1 <= level <= 4
    ensures var t := TableAt(view, root, key, level);
            t.Some? ==> t.value in places && places[t.value].root == root && places[t.value].level == level
                        && places[t.value].prefix == Prefix(key, level)
    decreases 4 - level
  {
    if level == 4 {
      PrefixTop(key);
    } else {
      WalkReachesPlace(view, places, root, key, level + 1);
      var above := TableAt(view, root, key, level + 1);
      if above.Some? {
        assert LinkOk(view, places, above.value, Index(key, level + 1));
      }
    }
  }

  lemma WalkInTree(view: View, places: Places, root: nat, key: nat, level: nat)
    requires Owned(view, places) && IsRoot(places, root) && key < KEYS && 1 <= level <= 4
    ensures var t := TableAt(view, root, key, level);
            t.Some? ==> t.value in places && places[t.value].root == root && places[t.value].level == level
  {
    WalkReachesPlace(view, places, root, key, level);
  }

  /** Every table is reached by the walk, from its root, for every key below its place. */
  lemma {:induction false} PlaceIsReached(view: View, places: Places, t: nat, key: nat)
    requires Owned(view, places) && t in places && Prefix(key, places[t].level) == places[t].prefix
    ensures IsRoot(places, places[t].root)
    ensures TableAt(view, places[t].root, key, places[t].level) == Some(t)
    decreases 4 - places[t].level
  {
    var p := places[t];
    assert TableOk(view, places, t);
    if p.level < 4 {
      assert Prefix(key, p.level + 1) == p.prefix / 512;
      PlaceIsReached(view, places, p.parent, key);
      assert Index(key, p.level + 1) == p.prefix % 512;
    }
  }

  /** A key below a given prefix. */
  function KeyBelow(prefix: nat, level: nat): nat
    decreases level
  {
    if level == 0 then prefix else KeyBelow(prefix * 512, level - 1)
  }

  lemma {:induction false} KeyBelowHasPrefix(prefix: nat, level: nat)
    ensures Prefix(KeyBelow(prefix, level), level) == prefix
    decreases level
  {
    if level > 0 {
      KeyBelowHasPrefix(prefix * 512, level - 1);
    }
  }

  /** No two tables share a place: a table is reachable at one position only. */
  lemma PlacesAreDistinct(view: View, places: Places, t: nat, u: nat)
    requires Owned(view, places) && t in places && u in places
    requires places[t].root == places[u].root && places[t].level == places[u].level
    requires places[t].prefix == places[u].prefix
    ensures t == u
  {
  }

  /** Table t is the one the walk for `key` below `root` goes through at the given level. */
  ghost predicate OnPath(places: Places, t: nat, root: nat, key: nat, level: nat) {
    t in places && places[t].root == root && places[t].level == level && places[t].prefix == Prefix(key, level)
  }

  lemma ChildOnPath(places: Places, t: nat, root: nat, key: nat, level: nat)
    requires 1 < level && OnPath(places, t, root, key, level)
    ensures ChildPlace(places, t, Index(key, level)) == Place(root, level - 1, Prefix(key, level - 1), t)
  {
  }

  lemma CompleteWalkAt(view: View, places: Places, t: nat, root: nat, key: nat, level: nat)
    requires Owned(view, places) && 1 < level <= 4 && OnPath(places, t, root, key, level)
    requires TableAt(view, root, key, 1).Some?
    ensures view[t][Index(key, level)].present
  {
    CompleteWalk(view, root, key, level);
    PlaceIsReached(view, places, t, key);
  }

  /** A complete walk has a present entry at every level above the leaf. */
  lemma {:induction false} CompleteWalk(view: View, root: nat, key: nat, level: nat)
    requires 1 < level <= 4 && TableAt(view, root, key, 1).Some?
    ensures var t := TableAt(view, root, key, level);
            t.Some? && t.value in view && view[t.value][Index(key, level)].present
    decreases level
  {
    if 2 < level {
      CompleteWalk(view, root, key, level - 1);
    }
  }

  // ----- The three ways a tree changes -----

  /** A new root table. */
  ghost function WithRoot(view: View, f: nat): View {
    view[f := EmptyTable()]
  }

  /** A new, empty table in frame f, linked to by entry i of table t. */
  ghost function WithTable(view: View, t: nat, i: nat, f: nat): View
    requires t in view && i < 512
  {
    view[t := view[t][i := Link(f)]][f := EmptyTable()]
  }

  ghost function ChildPlace(places: Places, t: nat, i: nat): Place
    requires t in places && 1 < places[t].level
  {
    Place(places[t].root, places[t].level - 1, places[t].prefix * 512 + i, t)
  }

  /** A leaf entry is rewritten. */
  ghost function WithEntry(view: View, t: nat, i: nat, e: Entry): View
    requires t in view && i < 512
  {
    view[t := view[t][i := e]]
  }

  lemma RootKeepsOwned(view: View, places: Places, f: nat)
    requires Owned(view, places) && f !in places
    ensures Owned(WithRoot(view, f), places[f := Place(f, 4, 0, f)])
  {
    var view', places' := WithRoot(view, f), places[f := Place(f, 4, 0, f)];
    forall t: nat | t in places'
      ensures TableOk(view', places', t)
    {
      if t != f {
        assert TableOk(view, places, t);
        forall i: nat | i < 512 && 1 < places[t].level
          ensures LinkOk(view', places', t, i)
        {
          assert LinkOk(view, places, t, i);
        }
      }
    }
  }

  lemma RootStep(view: View, f: nat, w: Option<nat>, j: nat)
    requires j < 512 && f !in view && (w.Some? ==> w.value in view)
    ensures Descend(WithRoot(view, f), w, j) == Descend(view, w, j)
  {
  }

  lemma {:induction false} RootKeepsWalk(view: View, places: Places, f: nat, root: nat, key: nat, level: nat)
    requires Owned(view, places) && f !in places && IsRoot(places, root) && key < KEYS && 1 <= level <= 4
    ensures TableAt(WithRoot(view, f), root, key, level) == TableAt(view, root, key, level)
    decreases 4 - level
  {
    if level < 4 {
      RootKeepsWalk(view, places, f, root, key, level + 1);
      WalkInTree(view, places, root, key, level + 1);
      RootStep(view, f, TableAt(view, root, key, level + 1), Index(key, level + 1));
    }
  }

  /** A new root changes no translation of another root, and itself translates nothing. */
  lemma RootKeepsFlat(view: View, places: Places, f: nat, root: nat, key: nat)
    requires Owned(view, places) && f !in places && key < KEYS && (root == f || IsRoot(places, root))
    ensures Flat(WithRoot(view, f), root, key) == if root == f then ABSENT else Flat(view, root, key)
  {
    var view' := WithRoot(view, f);
    if root == f {
      assert TableAt(view', f, key, 4) == Some(f);
      assert TableAt(view', f, key, 3) == None;
      assert TableAt(view', f, key, 2) == None;
      assert TableAt(view', f, key, 1) == None;
    } else {
      RootKeepsWalk(view, places, f, root, key, 1);
      WalkReachesPlace(view, places, root, key, 1);
    }
  }

  lemma TableKeepsOwned(view: View, places: Places, t: nat, i: nat, f: nat)
    requires Owned(view, places) && t in places && 1 < places[t].level && i < 512
    requires view[t][i] == ABSENT && f !in places
    ensures Owned(WithTable(view, t, i, f), places[f := ChildPlace(places, t, i)])
  {
    var view', places' := WithTable(view, t, i, f), places[f := ChildPlace(places, t, i)];
    forall u: nat | u in places'
      ensures TableOk(view', places', u)
    {
      assert u != f ==> TableOk(view, places, u);
      assert TableOk(view, places, t);
      forall j: nat | j < 512 && 1 < places'[u].level
        ensures LinkOk(view', places', u, j)
      {
        assert u != f ==> LinkOk(view, places, u, j);
      }
    }
  }

  /** w' is w, or, where w is nowhere, nowhere or the new table f. */
  ghost predicate Extends(w: Option<nat>, w': Option<nat>, f: nat) {
    if w.Some? then w' == w else w' == None || w' == Some(f)
  }

  lemma TableExtendsStep(view: View, t: nat, i: nat, f: nat, w: Option<nat>, w': Option<nat>, j: nat)
    requires t in view && i < 512 && j < 512 && view[t][i] == ABSENT && f !in view
    requires (w.Some? ==> w.value in view) && Extends(w, w', f)
    ensures Extends(Descend(view, w, j), Descend(WithTable(view, t, i, f), w', j), f)
  {
  }

  /** After a table is added, old walks still go where they went, and new ones stop at it. */
  lemma {:induction false} TableExtendsWalk(view: View, places: Places, t: nat, i: nat, f: nat,
                                            root: nat, key: nat, level: nat)
    requires Owned(view, places) && t in places && i < 512 && view[t][i] == ABSENT && f !in places
    requires IsRoot(places, root) && key < KEYS && 1 <= level <= 4
    ensures Extends(TableAt(view, root, key, level), TableAt(WithTable(view, t, i, f), root, key, level), f)
    decreases 4 - level
  {
    if level < 4 {
      TableExtendsWalk(view, places, t, i, f, root, key, level + 1);
      WalkInTree(view, places, root, key, level + 1);
      TableExtendsStep(view, t, i, f, TableAt(view, root, key, level + 1),
                       TableAt(WithTable(view, t, i, f), root, key, level + 1), Index(key, level + 1));
    }
  }

  /** Adding an empty table changes no translation. */
  lemma TableKeepsFlat(view: View, places: Places, t: nat, i: nat, f: nat, root: nat, key: nat)
    requires Owned(view, places) && t in places && 1 < places[t].level && i < 512
    requires view[t][i] == ABSENT && f !in places && IsRoot(places, root) && key < KEYS
    ensures Flat(WithTable(view, t, i, f), root, key) == Flat(view, root, key)
  {
    TableExtendsWalk(view, places, t, i, f, root, key, 1);
    WalkReachesPlace(view, places, root, key, 1);
  }

  /** The new table is the one that was missing. */
  lemma TableIsFound(view: View, places: Places, t: nat, f: nat, root: nat, key: nat, level: nat)
    requires Owned(view, places) && IsRoot(places, root) && key < KEYS && f !in places
    requires 1 < level <= 4 && OnPath(places, t, root, key, level) && view[t][Index(key, level)] == ABSENT
    ensures Missing(view, root, key, 4) == level - 1
    ensures Missing(WithTable(view, t, Index(key, level), f), root, key, 4) == level - 2
  {
    var i := Index(key, level);
    var view' := WithTable(view, t, i, f);
    PlaceIsReached(view, places, t, key);
    MissingFrom(view, root, key, level);
    TableExtendsWalk(view, places, t, i, f, root, key, level);
    assert TableAt(view', root, key, level) == Some(t);
    assert TableAt(view', root, key, level - 1) == Some(f);
    MissingFrom(view', root, key, level - 1);
  }

  lemma EntryKeepsOwned(view: View, places: Places, t: nat, i: nat, e: Entry)
    requires Owned(view, places) && t in places && places[t].level == 1 && i < 512
    ensures Owned(WithEntry(view, t, i, e), places)
  {
    var view' := WithEntry(view, t, i, e);
    forall u: nat | u in places
      ensures TableOk(view', places, u)
    {
      assert TableOk(view, places, u);
      forall j: nat | j < 512 && 1 < places[u].level
        ensures LinkOk(view', places, u, j)
      {
        assert LinkOk(view, places, u, j);
      }
    }
  }

  lemma EntryStep(view: View, t: nat, i: nat, e: Entry, w: Option<nat>, j: nat)
    requires t in view && i < 512 && j < 512 && w != Some(t)
    ensures Descend(WithEntry(view, t, i, e), w, j) == Descend(view, w, j)
  {
  }

  lemma {:induction false} EntryKeepsWalk(view: View, places: Places, t: nat, i: nat, e: Entry,
                                          root: nat, key: nat, level: nat)
    requires Owned(view, places) && t in places && places[t].level == 1 && i < 512
    requires IsRoot(places, root) && key < KEYS && 1 <= level <= 4
    ensures TableAt(WithEntry(view, t, i, e), root, key, level) == TableAt(view, root, key, level)
    decreases 4 - level
  {
    if level < 4 {
      EntryKeepsWalk(view, places, t, i, e, root, key, level + 1);
      WalkInTree(view, places, root, key, level + 1);
      EntryStep(view, t, i, e, TableAt(view, root, key, level + 1), Index(key, level + 1));
    }
  }

  /** Rewriting the leaf entry of one page changes the translation of that page and no other, in
      that address space and no other. */
  lemma EntryUpdatesFlat(view: View, places: Places, t: nat, at: nat, e: Entry, root: nat, key: nat)
    requires Owned(view, places) && t in places && places[t].level == 1
    requires at < KEYS && places[t].prefix == Prefix(at, 1)
    requires IsRoot(places, root) && key < KEYS
    ensures Flat(WithEntry(view, t, Index(at, 1), e), root, key) ==
            if root == places[t].root && key == at then e else Flat(view, root, key)
  {
    EntryKeepsWalk(view, places, t, Index(at, 1), e, root, key, 1);
    WalkReachesPlace(view, places, root, key, 1);
    if root == places[t].root && key == at {
      PlaceIsReached(view, places, t, key);
    }
  }

  // ----- The processor's own writes -----

  /** The processor setting bits of a present entry keeps ownership... */
  lemma VisitKeepsOwned(view: View, places: Places, t: nat, i: nat, write: bool)
    requires Owned(view, places) && t in places && i < 512 && view[t][i].present
    ensures Owned(WithEntry(view, t, i, Accessed(view[t][i], write)), places)
  {
    var view' := WithEntry(view, t, i, Accessed(view[t][i], write));
    forall u: nat | u in places
      ensures TableOk(view', places, u)
    {
      assert TableOk(view, places, u);
      forall j: nat | j < 512 && 1 < places[u].level
        ensures LinkOk(view', places, u, j)
      {
        assert LinkOk(view, places, u, j);
      }
    }
  }

  lemma VisitStep(view: View, t: nat, i: nat, write: bool, w: Option<nat>, j: nat)
    requires t in view && i < 512 && j < 512
    ensures Descend(WithEntry(view, t, i, Accessed(view[t][i], write)), w, j) == Descend(view, w, j)
  {
  }

  lemma {:induction false} VisitKeepsWalk(view: View, t: nat, i: nat, write: bool, root: nat, key: nat, level: nat)
    requires t in view && i < 512 && 1 <= level <= 4
    ensures TableAt(WithEntry(view, t, i, Accessed(view[t][i], write)), root, key, level) ==
            TableAt(view, root, key, level)
    decreases 4 - level
  {
    if level < 4 {
      VisitKeepsWalk(view, t, i, write, root, key, level + 1);
      VisitStep(view, t, i, write, TableAt(view, root, key, level + 1), Index(key, level + 1));
    }
  }

  /** ...and every translation, but for those bits. */
  lemma VisitKeepsFlat(view: View, t: nat, i: nat, write: bool, root: nat, key: nat)
    requires t in view && i < 512
    ensures Alike(Flat(WithEntry(view, t, i, Accessed(view[t][i], write)), root, key), Flat(view, root, key))
  {
    hide TableAt, Index;
    VisitKeepsWalk(view, t, i, write, root, key, 1);
  }

  lemma {:induction false} MissingTableIsAbsent(view: View, root: nat, key: nat, level: nat)
    requires 1 <= level <= 4 && TableAt(view, root, key, level).None?
    ensures Flat(view, root, key) == ABSENT
    decreases level
  {
    if 1 < level {
      MissingTableIsAbsent(view, root, key, level - 1);
    }
  }
}
