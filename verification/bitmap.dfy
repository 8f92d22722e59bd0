/** The page bitmap as a view of memory: page p is bit 7 - p%8 of byte p/8, and a set bit marks
    an allocated page. */
module Bitmap {
  import opened Memory

  predicate BitOf(b: bv8, j: nat)
    requires j < 8
  {
    b & (0x80 >> j) != 0
  }

  function WithBit(b: bv8, j: nat, used: bool): bv8
    requires j < 8
  {
    if used then b | (0x80 >> j) else b & !(0x80 >> j)
  }

  predicate Used(m: Bytes, bitmap: nat, page: nat)
    requires bitmap + page / 8 < |m|
  {
    BitOf(m[bitmap + page / 8], page % 8)
  }

  /** The abstract value of a bitmap of `size` bytes: the set of pages it marks. */
  ghost function Marked(m: Bytes, bitmap: nat, size: nat): set<nat>
    requires bitmap + size <= |m|
  {
    if size == 0 then {} else Marked(m, bitmap, size - 1) + ByteMarks(m[bitmap + size - 1], 8 * (size - 1), 8)
  }

  /** The pages marked by the first n bits of a byte whose first page is `first`. */
  ghost function ByteMarks(b: bv8, first: nat, n: nat): set<nat>
    requires n <= 8
  {
    if n == 0 then {} else ByteMarks(b, first, n - 1) + if BitOf(b, n - 1) then {first + n - 1} else {}
  }

  function PutPage(m: Bytes, bitmap: nat, page: nat, used: bool): Bytes
    requires bitmap + page / 8 < |m|
  {
    m[bitmap + page / 8 := WithBit(m[bitmap + page / 8], page % 8, used)]
  }

  lemma {:induction false} ByteMarksIff(b: bv8, first: nat, n: nat, p: nat)
    requires n <= 8
    ensures p in ByteMarks(b, first, n) <==> first <= p < first + n && BitOf(b, p - first)
  {
    if n > 0 {
      ByteMarksIff(b, first, n - 1, p);
    }
  }

  /** The marked pages are exactly those whose bit is set. */
  lemma {:induction false} MarkedIff(m: Bytes, bitmap: nat, size: nat, p: nat)
    requires bitmap + size <= |m|
    ensures p in Marked(m, bitmap, size) <==> p < 8 * size && Used(m, bitmap, p)
  {
    if size > 0 {
      MarkedIff(m, bitmap, size - 1, p);
      ByteMarksIff(m[bitmap + size - 1], 8 * (size - 1), 8, p);
    }
  }

  /** The bits of a byte, the most significant first. */
  lemma BitsAreMsbFirst(b: bv8)
    ensures (BitOf(b, 0) <==> b & 0x80 != 0) && (BitOf(b, 1) <==> b & 0x40 != 0)
    ensures (BitOf(b, 2) <==> b & 0x20 != 0) && (BitOf(b, 3) <==> b & 0x10 != 0)
    ensures (BitOf(b, 4) <==> b & 0x08 != 0) && (BitOf(b, 5) <==> b & 0x04 != 0)
    ensures (BitOf(b, 6) <==> b & 0x02 != 0) && (BitOf(b, 7) <==> b & 0x01 != 0)
  {
  }

  /** Which pages byte k of the bitmap marks. */
  lemma ByteIsEightPages(m: Bytes, bitmap: nat, size: nat, k: nat)
    requires bitmap + size <= |m| && k < size
    ensures var b, marked := m[bitmap + k], Marked(m, bitmap, size);
            && (8 * k in marked <==> b & 0x80 != 0) && (8 * k + 1 in marked <==> b & 0x40 != 0)
            && (8 * k + 2 in marked <==> b & 0x20 != 0) && (8 * k + 3 in marked <==> b & 0x10 != 0)
            && (8 * k + 4 in marked <==> b & 0x08 != 0) && (8 * k + 5 in marked <==> b & 0x04 != 0)
            && (8 * k + 6 in marked <==> b & 0x02 != 0) && (8 * k + 7 in marked <==> b & 0x01 != 0)
  {
    hide BitOf, Marked;
    BitsAreMsbFirst(m[bitmap + k]);
    MarkedAt(m, bitmap, size, k, 0);
    MarkedAt(m, bitmap, size, k, 1);
    MarkedAt(m, bitmap, size, k, 2);
    MarkedAt(m, bitmap, size, k, 3);
    MarkedAt(m, bitmap, size, k, 4);
    MarkedAt(m, bitmap, size, k, 5);
    MarkedAt(m, bitmap, size, k, 6);
    MarkedAt(m, bitmap, size, k, 7);
  }

  lemma MarkedBound(m: Bytes, bitmap: nat, size: nat)
    requires bitmap + size <= |m|
    ensures forall p: nat :: p in Marked(m, bitmap, size) ==> p < 8 * size
  {
    forall p: nat | p in Marked(m, bitmap, size)
      ensures p < 8 * size
    {
      MarkedIff(m, bitmap, size, p);
    }
  }

  lemma MarkedAt(m: Bytes, bitmap: nat, size: nat, i: nat, j: nat)
    requires bitmap + size <= |m| && i < size && j < 8
    ensures 8 * i + j in Marked(m, bitmap, size) <==> BitOf(m[bitmap + i], j)
  {
    MarkedIff(m, bitmap, size, 8 * i + j);
    assert (8 * i + j) / 8 == i && (8 * i + j) % 8 == j;
  }

  // ----- One byte -----

  lemma WithBitOwn(b: bv8, j: nat, used: bool)
    requires j < 8
    ensures BitOf(WithBit(b, j, used), j) == used
  {
  }

  lemma DistinctMasks(j: nat, k: nat)
    requires j < 8 && k < 8 && j != k
    ensures (0x80 as bv8 >> j) & (0x80 as bv8 >> k) == 0
  {
  }

  lemma WithBitOther(b: bv8, j: nat, k: nat, used: bool)
    requires j < 8 && k < 8 && j != k
    ensures BitOf(WithBit(b, j, used), k) == BitOf(b, k)
  {
    DistinctMasks(j, k);
  }

  /** Eight bits determine a byte. */
  lemma BitsDetermineByte(b: bv8, c: bv8)
    requires forall j: nat | j < 8 :: BitOf(b, j) == BitOf(c, j)
    ensures b == c
  {
    assert BitOf(b, 0) == BitOf(c, 0) && BitOf(b, 1) == BitOf(c, 1);
    assert BitOf(b, 2) == BitOf(c, 2) && BitOf(b, 3) == BitOf(c, 3);
    assert BitOf(b, 4) == BitOf(c, 4) && BitOf(b, 5) == BitOf(c, 5);
    assert BitOf(b, 6) == BitOf(c, 6) && BitOf(b, 7) == BitOf(c, 7);
  }

  // ----- The whole bitmap -----

  /** Setting or clearing one bit adds or removes exactly that page. */
  lemma PutPageMarks(m: Bytes, bitmap: nat, size: nat, page: nat, used: bool)
    requires bitmap + size <= |m| && page / 8 < size
    ensures Marked(PutPage(m, bitmap, page, used), bitmap, size) ==
            if used then Marked(m, bitmap, size) + {page} else Marked(m, bitmap, size) - {page}
    ensures SameOutside(m, PutPage(m, bitmap, page, used), bitmap, size)
  {
    forall q: nat
      ensures q in Marked(PutPage(m, bitmap, page, used), bitmap, size) <==>
              if q == page then used else q in Marked(m, bitmap, size)
    {
      MarkedIff(m, bitmap, size, q);
      MarkedIff(PutPage(m, bitmap, page, used), bitmap, size, q);
      if q < 8 * size {
        PutPageBit(m, bitmap, page, used, q);
      }
    }
  }

  lemma PutPageBit(m: Bytes, bitmap: nat, page: nat, used: bool, q: nat)
    requires bitmap + page / 8 < |m| && bitmap + q / 8 < |m|
    ensures Used(PutPage(m, bitmap, page, used), bitmap, q) == if q == page then used else Used(m, bitmap, q)
  {
    if q == page {
      WithBitOwn(m[bitmap + page / 8], page % 8, used);
    } else if q / 8 == page / 8 {
      WithBitOther(m[bitmap + page / 8], page % 8, q % 8, used);
    }
  }

  /** A bitmap whose bytes are all ones marks every page. */
  lemma FilledMarksAll(m: Bytes, bitmap: nat, size: nat)
    requires bitmap + size <= |m| && forall x: nat :: bitmap <= x < bitmap + size ==> m[x] == 0xFF
    ensures forall p: nat :: p in Marked(m, bitmap, size) <==> p < 8 * size
  {
    forall p: nat
      ensures p in Marked(m, bitmap, size) <==> p < 8 * size
    {
      MarkedIff(m, bitmap, size, p);
      OnesHaveEveryBit(p % 8);
    }
  }

  lemma OnesHaveEveryBit(j: nat)
    requires j < 8
    ensures BitOf(0xFF, j)
  {
  }

  /** The marked set depends on the bitmap bytes only, and determines them. */
  lemma MarkedDetermines(m: Bytes, m': Bytes, bitmap: nat, size: nat)
    requires |m'| == |m| && bitmap + size <= |m|
    ensures Marked(m', bitmap, size) == Marked(m, bitmap, size) <==> SameOn(m, m', bitmap, size)
  {
    if Marked(m', bitmap, size) == Marked(m, bitmap, size) {
      forall x: nat | bitmap <= x < bitmap + size
        ensures m'[x] == m[x]
      {
        forall j: nat | j < 8
          ensures BitOf(m'[x], j) == BitOf(m[x], j)
        {
          MarkedAt(m, bitmap, size, x - bitmap, j);
          MarkedAt(m', bitmap, size, x - bitmap, j);
        }
        BitsDetermineByte(m'[x], m[x]);
      }
    } else {
      var p :| (p in Marked(m', bitmap, size)) != (p in Marked(m, bitmap, size));
      MarkedIff(m, bitmap, size, p);
      MarkedIff(m', bitmap, size, p);
      assert m'[bitmap + p / 8] != m[bitmap + p / 8];
    }
  }
}
