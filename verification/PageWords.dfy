/**
 The 64-bit layout of a page-table entry (kernel/src/arch/amd64/paging.hh), and the bit operations `map_page`
 uses.
 */
module PageWords {
  import opened PageTables

  const ADDRESS: bv64 := 0x0000_7fff_ffff_f000   // the bits that survive the way to and from the direct map
  const NX: bv64 := 0x8000_0000_0000_0000
  const DIRECT: bv64 := 0xffff_8000_0000_0000
  const LOW: bv64 := 0xfff
  const OTHER: bv64 := 0xf78

  /** The frame number in a word. */
  function FrameOf(w: bv64): nat {
    ((w & ADDRESS) >> 12) as nat
  }

  /** What the walker reads out of a word. */
  function Decode(w: bv64): Entry {
    Entry(w & 1 != 0, w & 2 != 0, w & 4 != 0, w & 0x80 != 0, w & NX != 0, FrameOf(w), (w & OTHER) as nat)
  }

  /** `entry.flags |= USER`. */
  lemma SetUser(w: bv64)
    ensures Decode(w | 4) == Decode(w).(user := true)
  {
    KeepsUnder(w, 4);
  }

  lemma KeepsUnder(w: bv64, bit: bv64)
    requires bit == 4
    ensures (w | bit) & ADDRESS == w & ADDRESS && (w | bit) & OTHER == w & OTHER && (w | bit) & NX == w & NX
    ensures (w | bit) & 1 == w & 1 && (w | bit) & 2 == w & 2 && (w | bit) & 0x80 == w & 0x80 && (w | bit) & 4 == 4
  {
  }

  /** `bitset(entry.addr, 63, 0)`. */
  lemma ClearNx(w: bv64)
    ensures Decode(w & !NX) == Decode(w).(nx := false)
  {
    ClearedBits(w);
  }

  lemma ClearedBits(w: bv64)
    ensures w & !NX & ADDRESS == w & ADDRESS && w & !NX & OTHER == w & OTHER && w & !NX & NX == 0
    ensures w & !NX & 1 == w & 1 && w & !NX & 2 == w & 2 && w & !NX & 0x80 == w & 0x80 && w & !NX & 4 == w & 4
  {
  }

  /** `entry.addr = phys | exemask; entry.flags = f`: the twelve-bit field replaces the low bits and nothing else. */
  function Stored(phys: bv64, exe: bool, f: bv64): bv64 {
    Word(phys, exe, f & LOW)
  }

  function Word(phys: bv64, exe: bool, field: bv64): bv64 {
    ((phys | (if exe then 0 else NX)) & !LOW) | field
  }

  /** A page-aligned address the direct map can carry and the flags come back out of the word unharmed. */
  lemma StoredDecodes(phys: bv64, exe: bool, f: bv64)
    requires phys & !ADDRESS == 0
    ensures Decode(Stored(phys, exe, f)) ==
            Entry(f & 1 != 0, f & 2 != 0, f & 4 != 0, f & 0x80 != 0, !exe, FrameOf(phys), (f & OTHER) as nat)
  {
    StoredLow(phys, exe, f);
    StoredHigh(phys, exe, f);
  }

  lemma StoredLow(phys: bv64, exe: bool, f: bv64)
    ensures Stored(phys, exe, f) & LOW == f & LOW
    ensures Stored(phys, exe, f) & OTHER == f & OTHER
    ensures Stored(phys, exe, f) & 1 == f & 1 && Stored(phys, exe, f) & 2 == f & 2
    ensures Stored(phys, exe, f) & 4 == f & 4 && Stored(phys, exe, f) & 0x80 == f & 0x80
  {
  }

  lemma StoredHigh(phys: bv64, exe: bool, f: bv64)
    requires phys & !ADDRESS == 0
    ensures Stored(phys, exe, f) & ADDRESS == phys & ADDRESS
    ensures Stored(phys, exe, f) & NX == if exe then 0 else NX
  {
  }

  /** The address the walker follows. */
  function TablePointer(w: bv64): bv64 {
    (w & !LOW) | DIRECT
  }

  /** It depends on the frame alone: NX and the bits above the direct map do not disturb it. */
  lemma PointerFollowsFrame(w: bv64, v: bv64)
    ensures TablePointer(w) == (w & ADDRESS) | DIRECT
    ensures w & ADDRESS == v & ADDRESS ==> TablePointer(w) == TablePointer(v)
  {
    PointerBits(w);
    PointerBits(v);
  }

  lemma PointerBits(w: bv64)
    ensures TablePointer(w) == (w & ADDRESS) | DIRECT
  {
  }

  /**
   The third cache bit of a 2 MiB page is bit 12, which the twelve-bit field cannot hold: the word is the same
   without it.
   */
  lemma PatBitLost(phys: bv64, exe: bool, f: bv64)
    ensures Stored(phys, exe, f | 0x1000) == Stored(phys, exe, f)
  {
    hide Word;
    BeyondTheField(f);
  }

  lemma BeyondTheField(f: bv64)
    ensures (f | 0x1000) & LOW == f & LOW
  {
  }

  /** For a 4 KiB page it is bit 7, where a directory keeps the mark of a large page, and it is kept. */
  lemma PatBitKept(phys: bv64, exe: bool, f: bv64)
    requires phys & !ADDRESS == 0
    ensures Decode(Stored(phys, exe, f | 0x80)) == Decode(Stored(phys, exe, f)).(huge := true)
  {
    StoredDecodes(phys, exe, f);
    StoredDecodes(phys, exe, f | 0x80);
    PatBits(f);
  }

  lemma PatBits(f: bv64)
    ensures (f | 0x80) & 1 == f & 1 && (f | 0x80) & 2 == f & 2 && (f | 0x80) & 4 == f & 4
    ensures (f | 0x80) & 0x80 == 0x80 && (f | 0x80) & OTHER == f & OTHER
  {
  }

  // ---- from a flag word and a cache number to the entries ----

  const EXE: bv64 := 0x1_0000_0000
  const CUSTOM: bv64 := 0x1fff   // what is left of the flag word below the kernel's own flags

  /** The cache number in the bits of a 4 KiB and of a 2 MiB entry. */
  function Pat4k(cache: bv64): bv64 {
    ((cache & 1) << 3) | (((cache >> 1) & 1) << 4) | (((cache >> 2) & 1) << 7)
  }

  function Pat2m(cache: bv64): bv64 {
    ((cache & 1) << 3) | (((cache >> 1) & 1) << 4) | (((cache >> 2) & 1) << 12)
  }

  /** The flag fields `map_page` stores: for a page, for a 2 MiB page and for a new table. */
  function SmallField(flags: bv64, cache: bv64): bv64 {
    (flags & CUSTOM) | Pat4k(cache)
  }

  function LargeField(flags: bv64, cache: bv64): bv64 {
    (flags & CUSTOM) | 0x80 | Pat2m(cache)
  }

  function UpperField(flags: bv64): bv64 {
    flags & CUSTOM
  }

  /** An address the direct map can carry, page aligned. */
  predicate Carried(phys: bv64) {
    phys & !ADDRESS == 0
  }

  predicate Has(w: bv64, bit: bv64) {
    w & bit != 0
  }

  /** The bits of the flag word and the cache number that nothing but the hardware looks at. */
  function CachedBits(flags: bv64, cache: bv64): bv64 {
    (flags | Pat4k(cache)) & OTHER
  }

  /** The flags of a request as the entries see them. */
  function FlagsOf(flags: bv64, cache: bv64): Flags {
    Flags(Has(flags, 2), Has(flags, 4), Has(flags, EXE), (flags & OTHER) as nat, CachedBits(flags, cache) as nat,
          Has(cache, 4))
  }

  /** A stored word, read back field by field. */
  lemma StoredFields(phys: bv64, exe: bool, f: bv64, rest: bv64)
    requires Carried(phys) && f & OTHER == rest
    ensures Decode(Stored(phys, exe, f)) ==
            Entry(Has(f, 1), Has(f, 2), Has(f, 4), Has(f, 0x80), !exe, FrameOf(phys), rest as nat)
  {
    hide FrameOf;
    StoredDecodes(phys, exe, f);
  }

  lemma SmallBits(flags: bv64, cache: bv64)
    requires !Has(flags, 0x80)
    ensures var f := SmallField(flags, cache);
            && (Has(f, 1) <==> Has(flags, 1)) && (Has(f, 2) <==> Has(flags, 2)) && (Has(f, 4) <==> Has(flags, 4))
            && f & OTHER == CachedBits(flags, cache) && (Has(f, 0x80) <==> Has(cache, 4))
  {
  }

  lemma LargeBits(flags: bv64, cache: bv64)
    ensures var f := LargeField(flags, cache);
            && (Has(f, 1) <==> Has(flags, 1)) && (Has(f, 2) <==> Has(flags, 2)) && (Has(f, 4) <==> Has(flags, 4))
            && f & OTHER == CachedBits(flags, cache) && Has(f, 0x80)
  {
  }

  lemma UpperBits(flags: bv64)
    ensures var f := UpperField(flags);
            && (Has(f, 1) <==> Has(flags, 1)) && (Has(f, 2) <==> Has(flags, 2)) && (Has(f, 4) <==> Has(flags, 4))
            && f & OTHER == flags & OTHER && (Has(f, 0x80) <==> Has(flags, 0x80))
  {
  }

  /** The model's leaf is the word the code stores, bit for bit. */
  lemma SmallIsWord(s: Slot, phys: bv64, flags: bv64, cache: bv64)
    requires Carried(phys) && Has(flags, 1) && !Has(flags, 0x80)
    ensures Decode(Stored(phys, Has(flags, EXE), SmallField(flags, cache))) ==
            LeafOf(Mapping(s, FrameOf(phys), FlagsOf(flags, cache), false))
  {
    hide Carried, Stored, FrameOf, Decode, SmallField, CachedBits, Has;
    SmallBits(flags, cache);
    StoredFields(phys, Has(flags, EXE), SmallField(flags, cache), CachedBits(flags, cache));
  }

  lemma LargeIsWord(s: Slot, phys: bv64, flags: bv64, cache: bv64)
    requires Carried(phys) && Has(flags, 1)
    ensures Decode(Stored(phys, Has(flags, EXE), LargeField(flags, cache))) ==
            LeafOf(Mapping(s, FrameOf(phys), FlagsOf(flags, cache), true))
  {
    hide Carried, Stored, FrameOf, Decode, LargeField, CachedBits, Has;
    LargeBits(flags, cache);
    StoredFields(phys, Has(flags, EXE), LargeField(flags, cache), CachedBits(flags, cache));
  }

  /** And so is the entry above a new table. */
  lemma UpperIsWord(table: bv64, flags: bv64, cache: bv64)
    requires Carried(table) && Has(flags, 1) && !Has(flags, 0x80)
    ensures Decode(Stored(table, Has(flags, EXE), UpperField(flags))) == UpperOf(FlagsOf(flags, cache), FrameOf(table))
  {
    hide Carried, Stored, FrameOf, Decode, UpperField, CachedBits, Has;
    UpperBits(flags);
    StoredFields(table, Has(flags, EXE), UpperField(flags), flags & OTHER);
  }

  /** The two low cache bits are write-through and cache-disable; the other bits are those of the flag word. */
  lemma CacheBits(flags: bv64, cache: bv64)
    ensures Has(CachedBits(flags, cache), 8) <==> Has(flags, 8) || Has(cache, 1)
    ensures Has(CachedBits(flags, cache), 16) <==> Has(flags, 16) || Has(cache, 2)
    ensures CachedBits(flags, cache) & 0xf60 == flags & 0xf60
  {
  }
}
