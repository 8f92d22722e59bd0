/** Address spaces as clients think of them: a flat map from page numbers to leaf entries each. */
module Spaces {
  import opened Wrappers
  import opened PageTableEntry
  import opened TableTree
  import opened TreeTeardown
  import opened PageTables
  import opened KernelClients

  /** The leaf entries a client has asked for; every other page is absent. */
  type FlatMap = map<int, Entry>

  function Look(f: FlatMap, key: int): Entry {
    if key in f then f[key] else ABSENT
  }

  /** Where a client's mapping request goes: to the kernel's own address space or to one of the clients'. */
  datatype Target = OfKernel | OfClient(space: nat)

  function RootOf(spaces: seq<nat>, kernelPT: nat, to: Target): Option<nat> {
    match to
    case OfKernel => Some(kernelPT)
    case OfClient(j) => if j < |spaces| then Some(spaces[j]) else None
  }

  /** The leaf entry that was asked for: in the kernel's space, where nothing was, the one built at boot. */
  ghost function WantedIn(flat: seq<FlatMap>, kernelPT: nat, boot: View, over: FlatMap, to: Target, key: nat): Entry {
    match to
    case OfKernel => if key in over then over[key] else Flat(boot, kernelPT, key)
    case OfClient(j) => if j < |flat| then Look(flat[j], key) else ABSENT
  }

  function PutFlat(flat: seq<FlatMap>, to: Target, key: nat, e: Entry): seq<FlatMap> {
    if to.OfClient? && to.space < |flat| then flat[to.space := flat[to.space][key := e]] else flat
  }

  function PutOver(over: FlatMap, to: Target, key: nat, e: Entry): FlatMap {
    if to.OfKernel? then over[key := e] else over
  }

  /** The tables stand for these address spaces, but for the bits the processor sets. */
  ghost predicate StandFor(view: View, places: Places, spaces: seq<nat>, flat: seq<FlatMap>) {
    && |spaces| == |flat|
    && (forall j: nat :: j < |spaces| ==> IsRoot(places, spaces[j]))
    && (forall j: nat, l: nat :: j < l < |spaces| ==> spaces[j] != spaces[l])
    && (forall j: nat, k: nat :: j < |spaces| && k < KEYS ==> Alike(Flat(view, spaces[j], k), Look(flat[j], k)))
  }

  /** The kernel's address space is no client's, and translates every page as asked for or as at boot. */
  ghost predicate KernelStands(view: View, places: Places, spaces: seq<nat>, kernelPT: nat, boot: View, over: FlatMap) {
    && IsRoot(places, kernelPT) && kernelPT !in spaces
    && forall k: nat :: k < KEYS ==> Alike(Flat(view, kernelPT, k), WantedIn([], kernelPT, boot, over, OfKernel, k))
  }

  lemma SpacesCount(view: View, places: Places, spaces: seq<nat>, flat: seq<FlatMap>)
    requires StandFor(view, places, spaces, flat)
    ensures |spaces| == |flat|
  {
  }

  lemma SpaceFlat(view: View, places: Places, spaces: seq<nat>, flat: seq<FlatMap>, j: nat)
    requires StandFor(view, places, spaces, flat) && j < |spaces|
    ensures |spaces| == |flat| && IsRoot(places, spaces[j])
    ensures forall k: nat :: k < KEYS ==> Alike(Flat(view, spaces[j], k), Look(flat[j], k))
  {
  }

  /** The sequence without its k-th element, if it has one. */
  function Removed<T>(s: seq<T>, k: nat): seq<T> {
    if k < |s| then s[..k] + s[k + 1..] else s
  }

  /** Any target's root and leaf entries. */
  lemma TargetStands(view: View, places: Places, spaces: seq<nat>, flat: seq<FlatMap>, kernelPT: nat, boot: View,
                     over: FlatMap, to: Target, key: nat)
    requires StandFor(view, places, spaces, flat) && KernelStands(view, places, spaces, kernelPT, boot, over)
    requires RootOf(spaces, kernelPT, to).Some? && key < KEYS
    ensures IsRoot(places, RootOf(spaces, kernelPT, to).value)
    ensures Alike(Flat(view, RootOf(spaces, kernelPT, to).value, key), WantedIn(flat, kernelPT, boot, over, to, key))
  {
  }

  /** One page of one target has been remapped, and the books say so. */
  lemma PutStands(s: State, s': State, reserved: set<nat>, spaces: seq<nat>, flat: seq<FlatMap>, kernelPT: nat,
                  boot: View, over: FlatMap, to: Target, key: nat, e': Entry, e: Entry)
    requires StandFor(s.view, s.places, spaces, flat) && KernelStands(s.view, s.places, spaces, kernelPT, boot, over)
    requires RootOf(spaces, kernelPT, to).Some? && Alike(e', e)
    requires Remapped(s, s', reserved, RootOf(spaces, kernelPT, to).value, key, e')
    ensures StandFor(s'.view, s'.places, spaces, PutFlat(flat, to, key, e))
    ensures KernelStands(s'.view, s'.places, spaces, kernelPT, boot, PutOver(over, to, key, e))
  {
    hide Flat;
    var root := RootOf(spaces, kernelPT, to).value;
    forall l: nat, k: nat | l < |spaces| && k < KEYS
      ensures Alike(Flat(s'.view, spaces[l], k), Look(PutFlat(flat, to, key, e)[l], k))
    {
      assert IsRoot(s.places, spaces[l]) && spaces[l] in spaces;
      assert to != OfClient(l) ==> spaces[l] != root;
    }
    assert to.OfClient? ==> spaces[to.space] in spaces;
    forall k: nat | k < KEYS
      ensures Alike(Flat(s'.view, kernelPT, k), WantedIn([], kernelPT, boot, PutOver(over, to, key, e), OfKernel, k))
    {
      assert Alike(Flat(s.view, kernelPT, k), WantedIn([], kernelPT, boot, over, OfKernel, k));
    }
  }

  /** The processor's own bits make no difference. */
  lemma AlikeStands(view: View, view': View, places: Places, spaces: seq<nat>, flat: seq<FlatMap>, kernelPT: nat,
                    boot: View, over: FlatMap)
    requires StandFor(view, places, spaces, flat) && KernelStands(view, places, spaces, kernelPT, boot, over)
    requires forall r: nat, k: nat :: Alike(Flat(view', r, k), Flat(view, r, k))
    ensures StandFor(view', places, spaces, flat) && KernelStands(view', places, spaces, kernelPT, boot, over)
  {
    hide Flat;
    forall l: nat, k: nat | l < |spaces| && k < KEYS
      ensures Alike(Flat(view', spaces[l], k), Look(flat[l], k))
    {
      assert Alike(Flat(view', spaces[l], k), Flat(view, spaces[l], k));
    }
    forall k: nat | k < KEYS
      ensures Alike(Flat(view', kernelPT, k), WantedIn([], kernelPT, boot, over, OfKernel, k))
    {
      assert Alike(Flat(view', kernelPT, k), Flat(view, kernelPT, k));
    }
  }

  lemma NewStandsFor(s: State, s': State, spaces: seq<nat>, flat: seq<FlatMap>, pt: nat)
    requires StandFor(s.view, s.places, spaces, flat) && pt !in s.places
    requires s'.places == s.places[pt := Place(pt, 4, 0, pt)] && SameFlat(s.view, s'.view, s.places)
    requires forall k: nat :: k < KEYS ==> Flat(s'.view, pt, k) == ABSENT
    ensures StandFor(s'.view, s'.places, spaces + [pt], flat + [map[]])
  {
    hide Flat;
    var all := spaces + [pt];
    forall l: nat, k: nat | l < |all| && k < KEYS
      ensures Alike(Flat(s'.view, all[l], k), Look((flat + [map[]])[l], k))
    {
      assert l < |spaces| ==> IsRoot(s.places, spaces[l]);
    }
  }

  // ----- Destroying a space -----

  predicate IsLeaf(f: FlatMap, key: int) {
    key in f && 0 <= key < LOWER_KEYS && f[key].present
  }

  /** The frames of the space's present lower-half pages. */
  function LeafFrames(f: FlatMap): (r: set<nat>)
    ensures forall x: nat :: x in r <==> exists k: int :: IsLeaf(f, k) && f[k].addr == x
  {
    set k: int | k in f.Keys && IsLeaf(f, k) :: f[k].addr
  }

  /** A client may destroy the space: every present lower-half page has a frame of its own, which the
      client holds, and no grant is mapped in part. */
  predicate Destroyable(f: FlatMap, grants: seq<Grant>) {
    && (forall k: int :: k in f.Keys && IsLeaf(f, k) ==> InGrants(grants, f[k].addr))
    && (forall k: int, l: int :: k in f.Keys && l in f.Keys && IsLeaf(f, k) && IsLeaf(f, l) ==>
          f[k].addr == f[l].addr ==> k == l)
    && TakenWhole(grants, LeafFrames(f))
  }

  lemma LeavesOf(view: View, root: nat, f: FlatMap)
    requires forall k: nat :: k < KEYS ==> Alike(Flat(view, root, k), Look(f, k))
    ensures forall k: nat, x: nat :: k < LOWER_KEYS ==> (LeafAt(view, root, k, x) <==> IsLeaf(f, k) && f[k].addr == x)
    ensures forall x: nat :: x in LeafFrames(f) <==> exists k: nat :: k < LOWER_KEYS && LeafAt(view, root, k, x)
  {
    forall k: nat, x: nat | k < LOWER_KEYS
      ensures LeafAt(view, root, k, x) <==> IsLeaf(f, k) && f[k].addr == x
    {
      assert k < KEYS;
    }
    forall x: nat
      ensures x in LeafFrames(f) <==> exists k: nat :: k < LOWER_KEYS && LeafAt(view, root, k, x)
    {
      if x in LeafFrames(f) {
        var k: int :| IsLeaf(f, k) && f[k].addr == x;
        assert LeafAt(view, root, k, x);
      }
    }
  }

  /** A destroyable space meets what the teardown asks. */
  lemma DestroyableOwnsLeaves(view: View, places: Places, held: set<nat>, root: nat, f: FlatMap, grants: seq<Grant>)
    requires forall k: nat :: k < KEYS ==> Alike(Flat(view, root, k), Look(f, k))
    requires Destroyable(f, grants) && GrantPages(grants) <= held
    requires forall t: nat :: t in places ==> t !in GrantPages(grants)
    ensures OwnLeaves(view, places, held, root)
    ensures forall x: nat :: x in LeafFrames(f) ==> x in GrantPages(grants)
  {
    LeavesOf(view, root, f);
    forall x: nat | x in LeafFrames(f)
      ensures x in GrantPages(grants)
    {
      InGrantsIff(grants, x);
    }
    forall k: nat, x: nat | k < LOWER_KEYS && LeafAt(view, root, k, x)
      ensures x in held && x !in places
    {
      assert x in LeafFrames(f);
    }
  }

  /** What destroying a destroyable space frees: its root, its lower-half tables, and the grants that
      were mapped. */
  lemma DoomedFrames(sp: Space, f: FlatMap, x: nat)
    requires forall k: nat :: k < KEYS ==> Alike(Flat(sp.view, sp.root, k), Look(f, k))
    requires x !in sp.places && sp.root in sp.places
    ensures Doomed(sp, x) <==> x in LeafFrames(f)
  {
    LeavesOf(sp.view, sp.root, f);
  }

  lemma RootSurvives(view: View, places: Places, pt: nat, r: nat)
    requires Owned(view, places) && IsRoot(places, pt) && IsRoot(places, r) && r != pt
    ensures IsRoot(Others(places, places, pt), r)
  {
    assert TableOk(view, places, r) && TableOk(view, places, pt);
  }

  /** The other spaces stand as they did. */
  lemma RemovedStandsFor(view: View, places: Places, view': View, spaces: seq<nat>, flat: seq<FlatMap>, j: nat)
    requires Owned(view, places) && StandFor(view, places, spaces, flat) && j < |spaces|
    requires forall r: nat, k: nat :: r != spaces[j] && IsRoot(places, r) && k < KEYS ==>
        Flat(view', r, k) == Flat(view, r, k)
    ensures StandFor(view', Others(places, places, spaces[j]), Removed(spaces, j), Removed(flat, j))
  {
    hide Flat, Owned;
    var spaces', flat' := Removed(spaces, j), Removed(flat, j);
    forall l: nat | l < |spaces'|
      ensures IsRoot(Others(places, places, spaces[j]), spaces'[l])
      ensures forall k: nat :: k < KEYS ==> Alike(Flat(view', spaces'[l], k), Look(flat'[l], k))
    {
      var n: nat := if l < j then l else l + 1;
      assert spaces'[l] == spaces[n] && flat'[l] == flat[n] && spaces[n] != spaces[j];
      assert IsRoot(places, spaces[n]);
      RootSurvives(view, places, spaces[j], spaces[n]);
    }
  }
}
