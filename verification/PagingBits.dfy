/** Page-table entries down to their bits: what `map_page` leaves of a flag word and a cache number. */
module PagingBits {
  import opened Machine
  import opened PageTables
  import opened Paging
  import opened PagingRuns
  import opened PageWords

  /** The four indices and the offset are the address, as far as the hardware looks at it. */
  lemma IndicesAre(v: nat)
    ensures var s := Split(v);
            v % 0x1_0000_0000_0000 ==
            s.i4 * 0x80_0000_0000 + s.i3 * 0x4000_0000 + s.i2 * 0x20_0000 + s.i1 * 0x1000 + v % 0x1000
  {
    SmallNumber(v);
    hide Split;
    var w := v % SPAN;
    assert w == w / PAGE * PAGE + w % PAGE;
    ModOfMod(v);
  }

  lemma ModOfMod(v: nat)
    ensures v % SPAN % PAGE == v % PAGE
  {
    ModMul(v, PAGE, 0x10_0000_0000);
    DivModUnique(v % SPAN, PAGE, v / PAGE % 0x10_0000_0000, v % PAGE);
  }

  /** The word a request stores for its page. */
  function PageWord(phys: bv64, flags: bv64, cache: bv64, large: bool): bv64 {
    Stored(phys, Has(flags, EXE), if large then LargeField(flags, cache) else SmallField(flags, cache))
  }

  /** The request is what `map_page` makes of the address, the flag word and the cache number. */
  ghost predicate Asks(op: Mapping, phys: bv64, flags: bv64, cache: bv64) {
    && Carried(phys) && Has(flags, 1) && !Has(flags, 0x80)
    && op.frame == FrameOf(phys) && op.fl == FlagsOf(flags, cache)
  }

  /**
   After a mapping every root that reaches its table finds, at every address of the page, the very word: address, NX,
   rights and all three cache bits (the third one at a 4 KiB page only).
   */
  lemma PageHoldsWord(roots: set<nat>, ts: Tables, ts': Tables, root: nat, op: Mapping, r: nat, s: Slot,
                      phys: bv64, flags: bv64, cache: bv64)
    requires root in roots && r in roots && MapEffect(roots, ts, ts', root, op) && Asks(op, phys, flags, cache)
    requires Covers(op, s) && Reaches(ts, r, root, s.i4)
    ensures var p := Walk(ts', r, s);
            !p.Unmapped? && p.Large? == op.large && Leaf(p) == Decode(PageWord(phys, flags, cache, op.large))
  {
    hide MapEffect, TrailOf, FlagsOf, Decode, Stored, FrameOf, Has, SmallField, LargeField, Carried, TrailAfter, Leaf;
    WalkAfter(roots, ts, ts', root, op, r, s);
    SmallIsWord(op.s, phys, flags, cache);
    LargeIsWord(op.s, phys, flags, cache);
    assert Mapping(op.s, op.frame, op.fl, op.large) == op;
  }

  /** A new entry above the page has the flag word without the cache number; an old one keeps all but USER and NX. */
  lemma UppersHoldWord(roots: set<nat>, ts: Tables, ts': Tables, root: nat, op: Mapping, s: Slot,
                       phys: bv64, flags: bv64, cache: bv64, table: bv64)
    requires root in roots && MapEffect(roots, ts, ts', root, op) && Asks(op, phys, flags, cache)
    requires Covers(op, s) && Carried(table)
    ensures var t, t' := TrailOf(ts, root, s), TrailOf(ts', root, s);
            && UpperHolds(t.e4, t'.e4, table, flags) && UpperHolds(t.e3, t'.e3, table, flags)
            && (!op.large ==> UpperHolds(t.e2, t'.e2, table, flags))
  {
    hide MapEffect, TrailOf, FlagsOf, Decode, Stored, FrameOf, Has, Carried;
    WalkAfter(roots, ts, ts', root, op, root, s);
    UpperIsWord(table, flags, cache);
  }

  predicate UpperHolds(e: Entry, e': Entry, table: bv64, flags: bv64) {
    if e.present then e' == e.(user := e'.user, nx := e'.nx)
    else e'.frame == FrameOf(table) ==> e' == Decode(Stored(table, Has(flags, EXE), UpperField(flags)))
  }

  const S2M: bv64 := 0x4000_0000

  /**
   `map_page` as it is called, with a flag word and a cache number; `word` is the physical address cut to the page. On
   success the walk of the address ends at the word the code stores.
   */
  method MapWord(a: AddressSpaces, root: nat, virt: nat, phys: nat, flags: bv64, cache: bv64, ghost word: bv64)
    returns (r: Outcome<()>)
    requires a.Valid() && IsRoot(a.ids, root) && phys < PHYS_LIMIT && Has(flags, 1) && !Has(flags, 0x80)
    requires Carried(word) && FrameOf(word) == Request(virt, phys, FlagsOf(flags, cache), Has(flags, S2M)).frame
    modifies a
    ensures var op := Request(virt, phys, FlagsOf(flags, cache), Has(flags, S2M));
            && (r.Done? ==> a.Valid() && MapEffect(Roots(old(a.ids)), old(a.tables), a.tables, root, op))
            && (r.Done? ==>
                  var p := Walk(a.tables, root, Split(virt));
                  && !p.Unmapped? && p.Large? == Has(flags, S2M)
                  && Leaf(p) == Decode(PageWord(word, flags, cache, Has(flags, S2M))))
  {
    hide MapEffect, FlagsOf, Decode, PageWord, FrameOf, Has, Carried, Leaf, Walk, Request, Split, Tree;
    ghost var roots, ts := Roots(a.ids), a.tables;
    r := a.MapPage(root, virt, phys, FlagsOf(flags, cache), Has(flags, S2M));
    if r.Done? {
      RequestCovers(virt, phys, FlagsOf(flags, cache), Has(flags, S2M));
      var op := Request(virt, phys, FlagsOf(flags, cache), Has(flags, S2M));
      PageHoldsWord(roots, ts, a.tables, root, op, root, Split(virt), word, flags, cache);
    }
  }

  lemma RequestCovers(virt: nat, phys: nat, fl: Flags, large: bool)
    ensures var op := Request(virt, phys, fl, large); Covers(op, Split(virt)) && op.fl == fl && op.large == large
  {
    hide Split;
    RequestSlot(virt, phys, fl, large);
  }
}
