/** Byte-addressed physical memory. Every other module keeps its state in one `array<bv8>`:
    the page bitmap, the page tables and the heap headers are all read from and written to the
    same bytes. A kernel pointer is represented by the physical address it reaches through the
    higher-half direct map. */
module Memory {

  const PAGE_SIZE: nat := 4096

  /** No physical address reaches this bound, so a frame number fits a page-table entry. */
  const MAX_MEMORY: nat := 0x8_0000_0000_0000

  type Bytes = seq<bv8>

  /** The ALIGN_UP macro. */
  function AlignUp(x: nat, alignment: nat): nat
    requires 0 < alignment
  {
    if x % alignment == 0 then x else x + (alignment - x % alignment)
  }

  // ----- Regions -----

  /** The two memories agree on every byte of [lo, lo+n). */
  ghost predicate SameOn(m: Bytes, m': Bytes, lo: nat, n: nat) {
    |m'| == |m| && forall x: nat :: lo <= x < lo + n && x < |m| ==> m'[x] == m[x]
  }

  /** The two memories agree on every byte outside [lo, lo+n). */
  ghost predicate SameOutside(m: Bytes, m': Bytes, lo: nat, n: nat) {
    |m'| == |m| && forall x: nat :: x < |m| && !(lo <= x < lo + n) ==> m'[x] == m[x]
  }

  // ----- memset -----

  function Fill(m: Bytes, a: nat, v: bv8, n: nat): (r: Bytes)
    requires a + n <= |m|
    ensures SameOutside(m, r, a, n)
    ensures forall x: nat :: a <= x < a + n ==> r[x] == v
  {
    m[..a] + seq(n, _ => v) + m[a + n..]
  }

  method Memset(mem: array<bv8>, a: nat, v: bv8, n: nat)
    requires a + n <= mem.Length
    modifies mem
    ensures mem[..] == Fill(old(mem[..]), a, v, n)
  {
    var i := 0;
    while i < n
      invariant 0 <= i <= n
      invariant forall x: nat :: a <= x < a + i ==> mem[x] == v
      invariant forall x: nat :: x < mem.Length && !(a <= x < a + i) ==> mem[x] == old(mem[x])
    {
      mem[a + i] := v;
      i := i + 1;
    }
  }

  // ----- Little-endian words -----

  lemma ByteOfInt(b: bv8)
    ensures (b as int) as bv8 == b
  {
  }

  lemma ByteSuccessor(b: bv8)
    requires b != 0xFF
    ensures (b + 1) as int == b as int + 1
  {
  }

  lemma {:induction false} ByteRoundTrip(x: nat)
    requires x < 256
    ensures (x as bv8) as int == x
  {
    if x > 0 {
      ByteRoundTrip(x - 1);
      var b := (x - 1) as bv8;
      ByteSuccessor(b);
      ByteOfInt(b + 1);
    }
  }

  function Low(v: nat): (b: bv8)
    ensures b as int == v % 256
  {
    ByteRoundTrip(v % 256);
    (v % 256) as bv8
  }

  function Pow256(n: nat): (r: nat)
    ensures r > 0
  {
    if n == 0 then 1 else 256 * Pow256(n - 1)
  }

  /** The n-byte little-endian number at address a. */
  function Load(m: Bytes, a: nat, n: nat): (v: nat)
    requires a + n <= |m|
    ensures v < Pow256(n)
    decreases n
  {
    if n == 0 then 0 else m[a] as nat + 256 * Load(m, a + 1, n - 1)
  }

  /** The memory after an n-byte little-endian store at address a. */
  function Store(m: Bytes, a: nat, n: nat, v: nat): (r: Bytes)
    requires a + n <= |m|
    ensures SameOutside(m, r, a, n)
    decreases n
  {
    if n == 0 then m else Store(m[a := Low(v)], a + 1, n - 1, v / 256)
  }

  /** Loads see only the bytes they cover. */
  lemma {:induction false} LoadFrame(m: Bytes, m': Bytes, a: nat, n: nat)
    requires a + n <= |m| && SameOn(m, m', a, n)
    ensures Load(m', a, n) == Load(m, a, n)
    decreases n
  {
    if n > 0 {
      LoadFrame(m, m', a + 1, n - 1);
    }
  }

  /** A store is undone by a load of the same width, whenever the value fits. */
  lemma {:induction false} LoadStore(m: Bytes, a: nat, n: nat, v: nat)
    requires a + n <= |m| && v < Pow256(n)
    ensures Load(Store(m, a, n, v), a, n) == v
    decreases n
  {
    if n > 0 {
      var m1 := m[a := Low(v)];
      LoadStore(m1, a + 1, n - 1, v / 256);
      assert Store(m, a, n, v)[a] == Low(v);
    }
  }

  lemma {:induction false} LoadZeros(m: Bytes, a: nat, n: nat)
    requires a + n <= |m| && forall x: nat :: a <= x < a + n ==> m[x] == 0
    ensures Load(m, a, n) == 0
    decreases n
  {
    if n > 0 {
      LoadZeros(m, a + 1, n - 1);
    }
  }

  /** The 64-bit number whose eight bytes lie at address a, the lowest first. */
  function Word(m: Bytes, a: nat): nat
    requires a + 8 <= |m|
  {
    m[a] as nat + 0x100 * m[a + 1] as nat + 0x1_0000 * m[a + 2] as nat + 0x100_0000 * m[a + 3] as nat
    + 0x1_0000_0000 * m[a + 4] as nat + 0x100_0000_0000 * m[a + 5] as nat
    + 0x1_0000_0000_0000 * m[a + 6] as nat + 0x100_0000_0000_0000 * m[a + 7] as nat
  }

  /** An eight-byte load is that number... */
  lemma LoadIsWord(m: Bytes, a: nat)
    requires a + 8 <= |m|
    ensures Load(m, a, 8) == Word(m, a) < 0x1_0000_0000_0000_0000
  {
    assert Load(m, a + 8, 0) == 0;
    assert Load(m, a + 7, 1) == m[a + 7] as nat;
    assert Load(m, a + 6, 2) == m[a + 6] as nat + 256 * Load(m, a + 7, 1);
    assert Load(m, a + 5, 3) == m[a + 5] as nat + 256 * Load(m, a + 6, 2);
    assert Load(m, a + 4, 4) == m[a + 4] as nat + 256 * Load(m, a + 5, 3);
    assert Load(m, a + 3, 5) == m[a + 3] as nat + 256 * Load(m, a + 4, 4);
    assert Load(m, a + 2, 6) == m[a + 2] as nat + 256 * Load(m, a + 3, 5);
    assert Load(m, a + 1, 7) == m[a + 1] as nat + 256 * Load(m, a + 2, 6);
    Pow256Of8();
  }

  /** ...and an eight-byte store leaves bytes that are the number stored. */
  lemma WordOfStore(m: Bytes, a: nat, v: nat)
    requires a + 8 <= |m| && v < 0x1_0000_0000_0000_0000
    ensures Word(Store(m, a, 8, v), a) == v
  {
    Pow256Of8();
    LoadStore(m, a, 8, v);
    LoadIsWord(Store(m, a, 8, v), a);
  }

  lemma Pow256Of8()
    ensures Pow256(8) == 0x1_0000_0000_0000_0000
  {
  }

  method StoreBytes(mem: array<bv8>, a: nat, n: nat, v: nat)
    requires a + n <= mem.Length
    modifies mem
    ensures mem[..] == Store(old(mem[..]), a, n, v)
  {
    var i, rest := 0, v;
    while i < n
      invariant 0 <= i <= n
      invariant Store(mem[..], a + i, n - i, rest) == Store(old(mem[..]), a, n, v)
    {
      ghost var before := mem[..];
      mem[a + i] := Low(rest);
      assert mem[..] == before[a + i := Low(rest)];
      i, rest := i + 1, rest / 256;
    }
  }
}
