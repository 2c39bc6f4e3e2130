/**
 `map_page` and the watermark allocator its tables come from (kernel/src/arch/amd64/paging.cc,
 kernel/src/mm/vmm.cc).
 */
module Paging {
  import opened Machine
  import opened PageTables

  const LARGE_PAGE := 0x20_0000

  /** Physical addresses above this do not survive the conversion to and from the direct map. */
  const PHYS_LIMIT := 0x8000_0000_0000

  /** The request `map_page` makes of its arguments: both addresses are cut down to the page. */
  function Request(virt: nat, phys: nat, fl: Flags, large: bool): Mapping {
    var size := if large then LARGE_PAGE else PAGE;
    Mapping(Split(virt / size * size), phys / size * size / PAGE, fl, large)
  }

  lemma PageIsAligned()
    ensures AlignUp(PAGE, 16) == PAGE
  {
  }

  lemma AlignedAgain(p: nat)
    requires p % PAGE == 0
    ensures AlignUp(p + PAGE, PAGE) == p + PAGE
  {
    AlignUpIsLeast(p + PAGE, PAGE);
  }

  lemma CopyIsTree(ts: Tables, ids: Ids, kernel: nat, r: nat, t: Table)
    requires Tree(ts, ids) && IsRoot(ids, kernel) && r !in ts
    requires forall i: Index :: t[i] == if i < KERNEL_HALF then ZERO else ts[kernel][i]
    ensures Tree(ts[r := t], ids[r := Root])
  {
    var ts', ids' := ts[r := t], ids[r := Root];
    forall f, i: Index | f in ts' ensures SlotOk(ts', ids', f, i) {
      assert SlotOk(ts, ids, if f == r then kernel else f, i);
    }
    forall g | g in ids' ensures ParentOk(ts', ids', g) {
      if g != r {
        assert ParentOk(ts, ids, g);
        if ids[g].Pt? {
          assert SlotOk(ts, ids, ids[g].pdp, ids[g].i3);
        }
      }
    }
  }

  lemma RequestSlot(virt: nat, phys: nat, fl: Flags, large: bool)
    ensures var s := Request(virt, phys, fl, large).s;
            s == if large then Split(virt).(i1 := 0) else Split(virt)
  {
    if large {
      LargeSlot(virt);
    } else {
      SmallSlot(virt);
    }
    hide Split;
  }

  lemma LargeSlot(virt: nat)
    ensures Split(virt / LARGE_PAGE * LARGE_PAGE) == Split(virt).(i1 := 0)
  {
    var w := virt / LARGE_PAGE * LARGE_PAGE;
    assert w / LARGE_PAGE == virt / LARGE_PAGE by { CutThenDiv(virt, LARGE_PAGE, 1); }
    assert w / 0x4000_0000 == virt / 0x4000_0000 by { CutThenDiv(virt, LARGE_PAGE, 0x200); }
    assert w / 0x80_0000_0000 == virt / 0x80_0000_0000 by { CutThenDiv(virt, LARGE_PAGE, 0x4_0000); }
    assert w / 0x1000 % 512 == 0 by {
      DivModUnique(w, 0x1000, virt / LARGE_PAGE * 512, 0);
      MulMod(virt / LARGE_PAGE, 512);
    }
  }

  lemma SmallSlot(virt: nat)
    ensures Split(virt / PAGE * PAGE) == Split(virt)
  {
    var w := virt / PAGE * PAGE;
    assert w / PAGE == virt / PAGE by { CutThenDiv(virt, PAGE, 1); }
    assert w / LARGE_PAGE == virt / LARGE_PAGE by { CutThenDiv(virt, PAGE, 0x200); }
    assert w / 0x4000_0000 == virt / 0x4000_0000 by { CutThenDiv(virt, PAGE, 0x4_0000); }
    assert w / 0x80_0000_0000 == virt / 0x80_0000_0000 by { CutThenDiv(virt, PAGE, 0x800_0000); }
  }

  lemma CopyEffect(ts: Tables, ids: Ids, kernel: nat, r: nat, t: Table)
    requires Tree(ts, ids) && IsRoot(ids, kernel) && r !in ts
    requires forall i: Index :: t[i] == if i < KERNEL_HALF then ZERO else ts[kernel][i]
    ensures SpaceEffect(Roots(ids), ts, ts[r := t], kernel, r)
  {
    var ts' := ts[r := t];
    forall q, s: Slot | q in Roots(ids) ensures TrailOf(ts', q, s) == TrailOf(ts, q, s) {
      WalkIds(ts, ids, q, s);
    }
    forall s: Slot
      ensures TrailOf(ts', r, s) == if s.i4 < KERNEL_HALF then Trail(ZERO, ZERO, ZERO, ZERO) else TrailOf(ts, kernel, s)
    {
      WalkIds(ts, ids, kernel, s);
    }
  }

  // ---- what the steps of the descent do, entry by entry ----

  /** Tables are only added, and only slot (f, i) changes. */
  ghost predicate OneSlot(ts: Tables, ts': Tables, f: nat, i: Index) {
    && ts.Keys <= ts'.Keys
    && forall g, j: Index {:trigger Get(ts', g, j)} :: g != f || j != i ==> Get(ts', g, j) == Get(ts, g, j)
  }

  /** The entry e' leads to `child`: it is e with USER granted if asked, or a new one to a table that was not there. */
  predicate Ensured(ts: Tables, e: Entry, e': Entry, fl: Flags, child: nat) {
    && e' == (if e.present then e.(user := e.user || fl.user) else UpperOf(fl, child))
    && e'.frame == child && (e.present || child !in ts)
  }

  predicate UpperSlot(root: nat, op: Mapping, pdp: nat, pd: nat, g: nat, j: Index) {
    (g == root && j == op.s.i4) || (g == pdp && j == op.s.i3) || (!op.large && g == pd && j == op.s.i2)
  }

  /** The way to the leaf is open, and nothing else has changed. */
  ghost predicate Opened(ts: Tables, ts': Tables, root: nat, op: Mapping, pdp: nat, pd: nat, f: nat) {
    && Ensured(ts, Get(ts, root, op.s.i4), Get(ts', root, op.s.i4), op.fl, pdp)
    && Ensured(ts, Get(ts, pdp, op.s.i3), Get(ts', pdp, op.s.i3), op.fl, pd)
    && (if op.large then f == pd
        else Ensured(ts, Get(ts, pd, op.s.i2), Get(ts', pd, op.s.i2), op.fl, f)
             && (Get(ts, pd, op.s.i2).present ==> !Get(ts, pd, op.s.i2).huge))
    && forall g, j: Index {:trigger Get(ts', g, j)} ::
         !UpperSlot(root, op, pdp, pd, g, j) ==> Get(ts', g, j) == Get(ts, g, j)
  }

  lemma TwoOpened(t0: Tables, t1: Tables, t2: Tables, root: nat, op: Mapping, pdp: nat, pd: nat)
    requires root != pdp && OneSlot(t0, t1, root, op.s.i4) && OneSlot(t1, t2, pdp, op.s.i3)
    requires Ensured(t0, Get(t0, root, op.s.i4), Get(t1, root, op.s.i4), op.fl, pdp)
    requires Ensured(t1, Get(t1, pdp, op.s.i3), Get(t2, pdp, op.s.i3), op.fl, pd)
    ensures Opened(t0, t2, root, op.(large := true), pdp, pd, pd) && t0.Keys <= t2.Keys
  {
  }

  lemma ThreeOpened(t0: Tables, t2: Tables, t3: Tables, root: nat, op: Mapping, pdp: nat, pd: nat, f: nat)
    requires !op.large && pd != root && pd != pdp && t0.Keys <= t2.Keys
    requires Opened(t0, t2, root, op.(large := true), pdp, pd, pd) && OneSlot(t2, t3, pd, op.s.i2)
    requires Ensured(t2, Get(t2, pd, op.s.i2), Get(t3, pd, op.s.i2), op.fl, f)
    requires Get(t0, pd, op.s.i2).present ==> !Get(t0, pd, op.s.i2).huge
    ensures Opened(t0, t3, root, op, pdp, pd, f)
  {
  }

  lemma HungSlot(ts: Tables, f: nat, i: Index, e: Entry)
    requires f in ts && e.frame !in ts
    ensures OneSlot(ts, Hung(ts, f, i, e), f, i) && Get(Hung(ts, f, i, e), f, i) == e
  {
  }

  /** A page that is not large has no large page in its way, so the directory slot leads to a table or nowhere. */
  lemma NothingHuge(ids: Ids, t0: Tables, t2: Tables, root: nat, op: Mapping, pdp: nat, pd: nat)
    requires Tree(t0, ids) && IsRoot(ids, root) && !Walk(t0, root, op.s).Large? && pd != root && pd != pdp
    requires Opened(t0, t2, root, op.(large := true), pdp, pd, pd)
    ensures Get(t2, pd, op.s.i2) == Get(t0, pd, op.s.i2)
    ensures Get(t0, pd, op.s.i2).present ==> !Get(t0, pd, op.s.i2).huge
  {
    WalkIds(t0, ids, root, op.s);
    hide Tree;
  }

  /** What switching NX off on the way up does. */
  ghost predicate NxCleared(ts: Tables, ts': Tables, root: nat, op: Mapping, pdp: nat, pd: nat) {
    forall g, j: Index {:trigger Get(ts', g, j)} ::
      Get(ts', g, j) ==
      if op.fl.exe && UpperSlot(root, op, pdp, pd, g, j) then Get(ts, g, j).(nx := false) else Get(ts, g, j)
  }

  lemma ThreeCleared(t0: Tables, t1: Tables, t2: Tables, t3: Tables, root: nat, op: Mapping, pdp: nat, pd: nat)
    requires op.fl.exe && root != pdp && root != pd && pdp != pd
    requires OneSlot(t0, t1, root, op.s.i4) && Get(t1, root, op.s.i4) == Get(t0, root, op.s.i4).(nx := false)
    requires OneSlot(t1, t2, pdp, op.s.i3) && Get(t2, pdp, op.s.i3) == Get(t1, pdp, op.s.i3).(nx := false)
    requires if op.large then t3 == t2
             else OneSlot(t2, t3, pd, op.s.i2) && Get(t3, pd, op.s.i2) == Get(t2, pd, op.s.i2).(nx := false)
    ensures NxCleared(t0, t3, root, op, pdp, pd)
  {
    forall g, j: Index
      ensures Get(t3, g, j) == if UpperSlot(root, op, pdp, pd, g, j) then Get(t0, g, j).(nx := false) else Get(t0, g, j)
    {
      var e1, e2, e3 := Get(t1, g, j), Get(t2, g, j), Get(t3, g, j);
      assert e1 == if g == root && j == op.s.i4 then Get(t0, g, j).(nx := false) else Get(t0, g, j);
      assert e2 == if g == pdp && j == op.s.i3 then e1.(nx := false) else e1;
      assert e3 == if !op.large && g == pd && j == op.s.i2 then e2.(nx := false) else e2;
      hide OneSlot, Get;
    }
  }

  /** Opening the way, writing the leaf and clearing NX add up to the rewrite that is one mapping. */
  lemma RewrittenBy(ids: Ids, t0: Tables, t1: Tables, t3: Tables, root: nat, op: Mapping, pdp: nat, pd: nat, f: nat)
    requires Opened(t0, t1, root, op, pdp, pd, f) && PathIds(ids, root, op, pdp, pd, f) && f in t1
    requires NxCleared(With(t1, f, LeafIndex(op), LeafOf(op)), t3, root, op, pdp, pd)
    ensures Rewritten(t0, t3, root, op, pdp, pd, f)
  {
    hide With, PathIds, Get;
    OneWrite(t1, f, LeafIndex(op), LeafOf(op));
    PathApart(ids, root, op, pdp, pd, f);
  }

  lemma OneWrite(ts: Tables, f: nat, i: Index, e: Entry)
    requires f in ts
    ensures OneSlot(ts, With(ts, f, i, e), f, i) && Get(With(ts, f, i, e), f, i) == e
  {
  }

  /** The tables on the way are different ones. */
  lemma PathApart(ids: Ids, root: nat, op: Mapping, pdp: nat, pd: nat, f: nat)
    requires PathIds(ids, root, op, pdp, pd, f)
    ensures root != pdp && root != pd && pdp != pd && f != root && f != pdp && (!op.large ==> f != pd)
  {
  }

  /** How many pages an arena from `cursor` to `end` can still give. */
  function PagesBetween(cursor: nat, end: nat): (n: nat)
    ensures n > 0 ==> AlignUp(cursor, PAGE) + n * PAGE <= end
    ensures AlignUp(cursor, PAGE) + (n + 1) * PAGE > end
  {
    var a := AlignUp(cursor, PAGE);
    if a <= end then (end - a) / PAGE else 0
  }

  class AddressSpaces {
    var tables: Tables
    var wmCursor: nat
    var wmFree: nat
    ghost var ids: Ids

    /** One address space with nothing mapped, and an arena that does not hold its root. */
    constructor (root: nat, wmCursor: nat, wmFree: nat)
      requires !(wmCursor <= root * PAGE < wmCursor + wmFree)
      ensures Valid() && tables == map[root := Empty()] && ids == map[root := Root]
      ensures this.wmCursor == wmCursor && this.wmFree == wmFree
    {
      tables, ids := map[root := Empty()], map[root := Root];
      this.wmCursor, this.wmFree := wmCursor, wmFree;
    }

    /** The tables form trees, and none of them lies in the part of the arena still to be handed out. */
    ghost predicate Valid()
      reads this
    {
      Tree(tables, ids) && forall f :: f in tables ==> Spent(f)
    }

    predicate Spent(f: nat)
      reads this
    {
      !(wmCursor <= f * PAGE < wmCursor + wmFree)
    }

    /** Where the arena ends; nothing ever moves that. */
    function ArenaEnd(): nat
      reads `wmCursor, `wmFree
    {
      wmCursor + wmFree
    }

    /** How many more pages the arena can give. */
    function PagesLeft(): nat
      reads `wmCursor, `wmFree
    {
      PagesBetween(wmCursor, ArenaEnd())
    }

    /** `wm_alloc`: the alignment is raised to the size, and the arena never shrinks below zero. */
    method WmAlloc(size: nat, align: nat) returns (r: Outcome<nat>)
      modifies `wmCursor, `wmFree
      ensures var n := AlignUp(size, 16);
              var a := if n > align then n else align;
              if a == 0 then r.Halted?   // a division by zero
              else
                && (r.Done? <==> old(AlignUp(wmCursor, a) + n <= wmCursor + wmFree))
                && (r.Done? ==>
                      && r.value == old(AlignUp(wmCursor, a)) && r.value % a == 0 && n >= size
                      && wmCursor == r.value + n && ArenaEnd() == old(ArenaEnd()))
    {
      AlignUpIsLeast(size, 16);
      var n := AlignUp(size, 16);
      var a := if n > align then n else align;
      if a == 0 {
        return Halted;
      }
      AlignUpIsLeast(wmCursor, a);
      hide AlignUp;
      var alignfix := AlignUp(wmCursor, a) - wmCursor;
      var p := wmCursor + alignfix;
      if wmFree < n + alignfix {
        return Halted;
      }
      wmCursor := p + n;
      wmFree := wmFree - (n + alignfix);
      return Done(p);
    }

    /** `allocpage`: a frame no table uses. */
    method AllocPage() returns (r: Outcome<nat>)
      requires Valid()
      modifies `wmCursor, `wmFree
      ensures r.Done? <==> old(PagesLeft()) > 0
      ensures r.Done? ==> Valid() && r.value !in tables && Spent(r.value) && PagesLeft() == old(PagesLeft()) - 1
      ensures r.Done? ==> wmCursor >= old(wmCursor) && ArenaEnd() == old(ArenaEnd())
    {
      AlignUpIsLeast(wmCursor, PAGE);
      PageIsAligned();
      var p := WmAlloc(PAGE, PAGE);
      if p.Halted? {
        return Halted;
      }
      AlignedAgain(p.value);
      return Done(p.value / PAGE);
    }

    /** One level of the descent: slot (f, i) leads to a table, which is new if there was none. */
    method EnsureTable(f: nat, i: Index, fl: Flags) returns (r: Outcome<nat>)
      requires Valid() && f in tables && !ids[f].Pt? && (ids[f].Pd? && tables[f][i].present ==> !tables[f][i].huge)
      modifies this
      ensures r.Done? ==>
                && Valid() && Extends(old(ids), ids) && Roots(ids) == Roots(old(ids))
                && OneSlot(old(tables), tables, f, i)
                && Ensured(old(tables), Get(old(tables), f, i), Get(tables, f, i), fl, r.value)
                && Get(tables, f, i).present && Get(tables, f, i).frame == r.value
      ensures old(PagesLeft()) > 0 ==> r.Done?
      ensures r.Done? ==> PagesLeft() >= old(PagesLeft()) - 1
      ensures r.Done? ==> wmCursor >= old(wmCursor) && ArenaEnd() == old(ArenaEnd())
    {
      hide AlignUp;
      var e := tables[f][i];
      assert SlotOk(tables, ids, f, i);
      hide Tree;
      if e.present {
        if fl.user {
          GrantTree(tables, ids, f, i, e.(user := true));
          tables := With(tables, f, i, e.(user := true));
        }
        return Done(e.frame);
      }
      r := NewTable(f, i, fl);
    }

    method NewTable(f: nat, i: Index, fl: Flags) returns (r: Outcome<nat>)
      requires Valid() && f in tables && !ids[f].Pt? && !tables[f][i].present
      modifies this
      ensures r.Done? ==>
                && Valid() && Extends(old(ids), ids) && Roots(ids) == Roots(old(ids))
                && OneSlot(old(tables), tables, f, i)
                && Ensured(old(tables), Get(old(tables), f, i), Get(tables, f, i), fl, r.value)
                && Get(tables, f, i).present && Get(tables, f, i).frame == r.value
      ensures r.Done? <==> old(PagesLeft()) > 0
      ensures r.Done? ==> PagesLeft() == old(PagesLeft()) - 1
      ensures r.Done? ==> wmCursor >= old(wmCursor) && ArenaEnd() == old(ArenaEnd())
    {
      hide Tree, PagesLeft, ArenaEnd, OneSlot;
      TreeKeys(tables, ids);
      var g := AllocPage();
      if g.Halted? {
        return Halted;
      }
      HangTree(tables, ids, f, i, UpperOf(fl, g.value));
      HungSlot(tables, f, i, UpperOf(fl, g.value));
      tables := Hung(tables, f, i, UpperOf(fl, g.value));
      ids := ids[g.value := NewId(f, ids[f], i)];
      return g;
    }

    /** The first two levels of the descent. */
    method DescendToPd(root: nat, op: Mapping) returns (r: Outcome<(nat, nat)>)
      requires Valid() && IsRoot(ids, root)
      modifies this
      ensures r.Done? ==>
                var (pdp, pd) := r.value;
                && Valid() && Extends(old(ids), ids) && Roots(ids) == Roots(old(ids)) && old(tables).Keys <= tables.Keys
                && Opened(old(tables), tables, root, op.(large := true), pdp, pd, pd)
                && PathIds(ids, root, op.(large := true), pdp, pd, pd)
      ensures old(PagesLeft()) > 1 ==> r.Done?
      ensures r.Done? ==> PagesLeft() >= old(PagesLeft()) - 2
      ensures r.Done? ==> wmCursor >= old(wmCursor) && ArenaEnd() == old(ArenaEnd())
    {
      hide PagesLeft, ArenaEnd, OneSlot, Ensured, Opened;
      ghost var t0 := tables;
      var pdp := EnsureTable(root, op.s.i4, op.fl);
      if pdp.Halted? {
        return Halted;
      }
      ghost var t1 := tables;
      assert SlotOk(tables, ids, root, op.s.i4);
      var pd := EnsureTable(pdp.value, op.s.i3, op.fl);
      if pd.Halted? {
        return Halted;
      }
      assert SlotOk(tables, ids, pdp.value, op.s.i3);
      hide Tree;
      TwoOpened(t0, t1, tables, root, op, pdp.value, pd.value);
      return Done((pdp.value, pd.value));
    }

    /** The descent to the table the leaf goes into, and that table's parents. */
    method Descend(root: nat, op: Mapping) returns (r: Outcome<(nat, nat, nat)>)
      requires Valid() && IsRoot(ids, root) && (!op.large ==> !Walk(tables, root, op.s).Large?)
      modifies this
      ensures r.Done? ==>
                var (pdp, pd, f) := r.value;
                && Valid() && Extends(old(ids), ids) && Roots(ids) == Roots(old(ids))
                && Opened(old(tables), tables, root, op, pdp, pd, f) && PathIds(ids, root, op, pdp, pd, f)
      ensures old(PagesLeft()) > 2 ==> r.Done?
      ensures r.Done? ==> PagesLeft() >= old(PagesLeft()) - 3
      ensures r.Done? ==> wmCursor >= old(wmCursor) && ArenaEnd() == old(ArenaEnd())
    {
      hide Tree, PagesLeft, ArenaEnd, OneSlot, Opened, Walk;
      ghost var t0, ids0 := tables, ids;
      var upper := DescendToPd(root, op);
      if upper.Halted? {
        return Halted;
      }
      var (pdp, pd) := upper.value;
      if op.large {
        assert op.(large := true) == op;
        return Done((pdp, pd, pd));
      }
      ghost var t2 := tables;
      TreeKeys(t2, ids);
      NothingHuge(ids0, t0, t2, root, op, pdp, pd);
      var pt := EnsureTable(pd, op.s.i2, op.fl);
      if pt.Halted? {
        return Halted;
      }
      TreeSlot(tables, ids, pd, op.s.i2);
      ThreeOpened(t0, t2, tables, root, op, pdp, pd, pt.value);
      return Done((pdp, pd, pt.value));
    }

    method ClearNx(f: nat, i: Index)
      requires Valid() && f in tables
      modifies `tables
      ensures Valid() && OneSlot(old(tables), tables, f, i) && Get(tables, f, i) == Get(old(tables), f, i).(nx := false)
    {
      var e := tables[f][i].(nx := false);
      GrantTree(tables, ids, f, i, e);
      hide Tree;
      tables := With(tables, f, i, e);
    }

    /** After the leaf is in place: an executable page needs NX off all the way up. */
    method ClearPathNx(root: nat, op: Mapping, pdp: nat, pd: nat, ghost f: nat)
      requires Valid() && PathIds(ids, root, op, pdp, pd, f)
      modifies `tables
      ensures Valid() && NxCleared(old(tables), tables, root, op, pdp, pd)
    {
      assert root in tables && pdp in tables && pd in tables;
      hide Tree, OneSlot, NxCleared;
      if op.fl.exe {
        ghost var t0 := tables;
        ClearNx(root, op.s.i4);
        ghost var t1 := tables;
        ClearNx(pdp, op.s.i3);
        ghost var t2 := tables;
        if !op.large {
          ClearNx(pd, op.s.i2);
        }
        ThreeCleared(t0, t1, t2, tables, root, op, pdp, pd);
      }
    }

    /**
     `map_page`: what every walk of every address space is afterwards, entry by entry; three free pages are always
     enough. Asked for a 4 KiB page inside a 2 MiB page it would take that page for a table, which has no result here.
     */
    method MapPage(root: nat, virt: nat, phys: nat, fl: Flags, large: bool) returns (r: Outcome<()>)
      requires Valid() && IsRoot(ids, root) && phys < PHYS_LIMIT
      modifies this
      ensures r.Done? ==>
                && Valid() && Extends(old(ids), ids) && Roots(ids) == Roots(old(ids))
                && MapEffect(Roots(old(ids)), old(tables), tables, root, Request(virt, phys, fl, large))
      ensures !large && Walk(old(tables), root, Split(virt)).Large? ==> r.Halted?
      ensures old(PagesLeft()) > 2 && (large || !Walk(old(tables), root, Split(virt)).Large?) ==> r.Done?
      ensures r.Done? ==> PagesLeft() >= old(PagesLeft()) - 3
      ensures r.Done? ==> wmCursor >= old(wmCursor) && ArenaEnd() == old(ArenaEnd())
    {
      hide Tree, PagesLeft, ArenaEnd, Walk, TrailOf, MapEffect, Opened, Rewritten, NxCleared;
      if !large && Walk(tables, root, Split(virt)).Large? {
        return Halted;
      }
      ghost var t0, ids0 := tables, ids;
      var op := Request(virt, phys, fl, large);
      RequestSlot(virt, phys, fl, large);
      var d := Descend(root, op);
      if d.Halted? {
        return Halted;
      }
      hide Request, Split;
      var (pdp, pd, f) := d.value;
      ghost var t1 := tables;
      TreeKeys(t1, ids);
      LeafTree(t1, ids, f, LeafIndex(op), LeafOf(op));
      tables := With(tables, f, LeafIndex(op), LeafOf(op));
      ClearPathNx(root, op, pdp, pd, f);
      RewrittenBy(ids, t0, t1, tables, root, op, pdp, pd, f);
      EffectOfRewrite(ids0, ids, t0, tables, root, op, pdp, pd, f);
      return Done(());
    }

    /** A program's address space: the kernel's upper half is copied, the lower half starts empty. */
    method NewSpace(kernel: nat, r: nat)
      requires Valid() && IsRoot(ids, kernel) && r !in tables && Spent(r)
      modifies `tables, `ids
      ensures Valid() && Extends(old(ids), ids) && Roots(ids) == Roots(old(ids)) + {r}
      ensures SpaceEffect(Roots(old(ids)), old(tables), tables, kernel, r)
    {
      var t: Table := Empty()[..KERNEL_HALF] + tables[kernel][KERNEL_HALF..];
      CopyIsTree(tables, ids, kernel, r, t);
      CopyEffect(tables, ids, kernel, r, t);
      hide Tree, TrailOf, SpaceEffect;
      tables := tables[r := t];
      ids := ids[r := Root];
    }
  }
}
