/** One 64-bit page-table entry: the bit fields of struct page_table_entry and their place in the
    word. */
module PageTableEntry {
  import opened Memory

  const ADDR_LIMIT: nat := 0x8_0000_0000_0000

  datatype Entry = Entry(
    present: bool, readWrite: bool, userSupervisor: bool, writeThrough: bool, cacheDisable: bool,
    accessed: bool, avl0: bool, pageSize: bool, avl1: nat, addr: nat, nx: bool)
  {
    predicate Fits() {
      avl1 < 16 && addr < ADDR_LIMIT
    }

    /** The entry links to a table in frame f and restricts no rights. The accessed bit, which the
        processor sets when it goes through the entry, may be either. */
    predicate LinksTo(f: nat) {
      present && readWrite && userSupervisor && !pageSize && !nx && addr == f
    }
  }

  /** The entry e after the processor has gone through it: the accessed bit is set, and after a write
      through a leaf entry the dirty bit, which the source calls avl0. */
  function Accessed(e: Entry, write: bool): Entry {
    e.(accessed := true, avl0 := e.avl0 || write)
  }

  /** The entries differ in no bit but those that the processor sets. */
  predicate Alike(e: Entry, f: Entry) {
    e.(accessed := f.accessed, avl0 := f.avl0) == f
  }

  const ABSENT: Entry := Entry(false, false, false, false, false, false, false, false, 0, 0, false)

  /** The entry that links to a table in frame f: present, writable, user-accessible, executable and
      not a large page. */
  function Link(f: nat): Entry {
    Entry(true, true, true, false, false, false, false, false, 0, f, false)
  }

  // The word is laid out from bit 0 up, one flag at a time.

  function Push(b: bool, rest: nat): nat {
    (if b then 1 else 0) + 2 * rest
  }

  function Encode(e: Entry): nat {
    Push(e.present, Push(e.readWrite, Push(e.userSupervisor, Push(e.writeThrough, Push(e.cacheDisable,
      Push(e.accessed, Push(e.avl0, Push(e.pageSize, High(e)))))))))
  }

  /** Bits 8 and up: avl1, addr and nx. */
  function High(e: Entry): nat {
    e.avl1 + 16 * (e.addr + ADDR_LIMIT * (if e.nx then 1 else 0))
  }

  function Decode(w: nat): (e: Entry)
    ensures e.Fits()
  {
    var w1 := w / 2;
    var w2 := w1 / 2;
    var w3 := w2 / 2;
    var w4 := w3 / 2;
    var w5 := w4 / 2;
    var w6 := w5 / 2;
    var w7 := w6 / 2;
    var w8 := w7 / 2;
    Entry(w % 2 == 1, w1 % 2 == 1, w2 % 2 == 1, w3 % 2 == 1, w4 % 2 == 1, w5 % 2 == 1, w6 % 2 == 1, w7 % 2 == 1,
          w8 % 16, w8 / 16 % ADDR_LIMIT, w8 / 16 / ADDR_LIMIT % 2 == 1)
  }

  lemma Pop(b: bool, rest: nat)
    ensures (Push(b, rest) % 2 == 1) == b && Push(b, rest) / 2 == rest
  {
  }

  lemma EncodeFits(e: Entry)
    requires e.Fits()
    ensures Encode(e) < Pow256(8)
  {
    Pow256Of8();
  }

  lemma DecodeFrom(e: Entry, w: nat, w1: nat, w2: nat, w3: nat, w4: nat, w5: nat, w6: nat, w7: nat, w8: nat)
    requires (w % 2 == 1) == e.present && w / 2 == w1 && (w1 % 2 == 1) == e.readWrite && w1 / 2 == w2
    requires (w2 % 2 == 1) == e.userSupervisor && w2 / 2 == w3 && (w3 % 2 == 1) == e.writeThrough && w3 / 2 == w4
    requires (w4 % 2 == 1) == e.cacheDisable && w4 / 2 == w5 && (w5 % 2 == 1) == e.accessed && w5 / 2 == w6
    requires (w6 % 2 == 1) == e.avl0 && w6 / 2 == w7 && (w7 % 2 == 1) == e.pageSize && w7 / 2 == w8
    requires w8 == High(e) && e.Fits()
    ensures Decode(w) == e
  {
  }

  /** Encoding loses nothing. */
  lemma DecodeEncode(e: Entry)
    requires e.Fits()
    ensures Decode(Encode(e)) == e
  {
    var w8 := High(e);
    var w7 :| w7 == Push(e.pageSize, w8);
    Pop(e.pageSize, w8);
    var w6 :| w6 == Push(e.avl0, w7);
    Pop(e.avl0, w7);
    var w5 :| w5 == Push(e.accessed, w6);
    Pop(e.accessed, w6);
    var w4 :| w4 == Push(e.cacheDisable, w5);
    Pop(e.cacheDisable, w5);
    var w3 :| w3 == Push(e.writeThrough, w4);
    Pop(e.writeThrough, w4);
    var w2 :| w2 == Push(e.userSupervisor, w3);
    Pop(e.userSupervisor, w3);
    var w1 :| w1 == Push(e.readWrite, w2);
    Pop(e.readWrite, w2);
    var w :| w == Push(e.present, w1);
    Pop(e.present, w1);
    DecodeFrom(e, w, w1, w2, w3, w4, w5, w6, w7, w8);
  }

  // ----- Where the fields are in the word -----

  lemma Halves(w: nat)
    ensures w / 2 / 2 == w / 4 && w / 4 / 2 == w / 8 && w / 8 / 2 == w / 16 && w / 16 / 2 == w / 32
    ensures w / 32 / 2 == w / 64 && w / 64 / 2 == w / 128 && w / 128 / 2 == w / 256
  {
  }

  lemma Upper(w: nat)
    ensures w / 256 / 16 == w / 0x1000 && w / 0x1000 / ADDR_LIMIT == w / 0x8000_0000_0000_0000
  {
  }

  /** Decoding reads each field at its place in the 64-bit word: the flags at bits 0 to 7, avl1 at bits
      8 to 11, the frame at bits 12 to 62 and nx at bit 63. */
  lemma DecodeBits(w: nat)
    ensures var e := Decode(w);
            && e.present == (w % 2 == 1) && e.readWrite == (w / 2 % 2 == 1) && e.userSupervisor == (w / 4 % 2 == 1)
            && e.writeThrough == (w / 8 % 2 == 1) && e.cacheDisable == (w / 0x10 % 2 == 1)
            && e.accessed == (w / 0x20 % 2 == 1) && e.avl0 == (w / 0x40 % 2 == 1) && e.pageSize == (w / 0x80 % 2 == 1)
            && e.avl1 == w / 0x100 % 0x10 && e.addr == w / 0x1000 % 0x8_0000_0000_0000
            && e.nx == (w / 0x8000_0000_0000_0000 % 2 == 1)
  {
    Halves(w);
    Upper(w);
  }

  /** The word of a link to a table: its address, and the lowest three bits set. */
  lemma LinkWord(f: nat)
    ensures Encode(Link(f)) == 0x1000 * f + 7
  {
  }

  lemma PushBit(w: nat)
    ensures Push(w % 2 == 1, w / 2) == w
  {
  }

  lemma HighOfWord(w8: nat)
    requires w8 < 0x100_0000_0000_0000
    ensures w8 % 16 + 16 * (w8 / 16 % ADDR_LIMIT + ADDR_LIMIT * (if w8 / 16 / ADDR_LIMIT % 2 == 1 then 1 else 0)) == w8
  {
    var x := w8 / 16;
    assert x / ADDR_LIMIT < 2;
  }

  /** The word and the entry determine each other. */
  lemma EncodeDecode(w: nat)
    requires w < 0x1_0000_0000_0000_0000
    ensures Encode(Decode(w)) == w
  {
    hide Push;
    PushBit(w);
    PushBit(w / 2);
    PushBit(w / 2 / 2);
    PushBit(w / 2 / 2 / 2);
    PushBit(w / 2 / 2 / 2 / 2);
    PushBit(w / 2 / 2 / 2 / 2 / 2);
    PushBit(w / 2 / 2 / 2 / 2 / 2 / 2);
    PushBit(w / 2 / 2 / 2 / 2 / 2 / 2 / 2);
    HighOfWord(w / 2 / 2 / 2 / 2 / 2 / 2 / 2 / 2);
  }
}
