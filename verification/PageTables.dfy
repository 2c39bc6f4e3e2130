/** Four-level page tables as the walker sees them: entries, walks, and which walks read which slot. */
module PageTables {

  /** One table entry; `rest` is the part of the low twelve bits nothing here depends on. */
  datatype Entry = Entry(present: bool, rw: bool, user: bool, huge: bool, nx: bool, frame: nat, rest: nat)

  const ZERO := Entry(false, false, false, false, false, 0, 0)

  type Table = t: seq<Entry> | |t| == 512 witness seq(512, _ => ZERO)

  /** A zeroed table. */
  function Empty(): (t: Table)
    ensures forall i: Index :: t[i] == ZERO
  {
    seq(512, i => ZERO)
  }

  /** Table frames and what is in them. */
  type Tables = map<nat, Table>

  type Index = i: nat | i < 512

  /** The four indices of a virtual address. */
  datatype Slot = Slot(i4: Index, i3: Index, i2: Index, i1: Index)

  /** ADDR_PML4I, ADDR_PDPI, ADDR_PDI, ADDR_PTI. */
  function Split(virt: nat): Slot {
    Slot(virt / 0x80_0000_0000 % 512, virt / 0x4000_0000 % 512, virt / 0x20_0000 % 512, virt / 0x1000 % 512)
  }

  function Get(ts: Tables, f: nat, i: Index): Entry {
    if f in ts then ts[f][i] else ZERO
  }

  /** The entries on the way of an address, one per level; below an absent or large entry there is nothing. */
  datatype Trail = Trail(e4: Entry, e3: Entry, e2: Entry, e1: Entry)

  function Below(ts: Tables, e: Entry, i: Index): Entry {
    if e.present then Get(ts, e.frame, i) else ZERO
  }

  /** The trail below a PML4 entry. */
  function Under(ts: Tables, e4: Entry, s: Slot): Trail {
    var e3 := Below(ts, e4, s.i3);
    var e2 := Below(ts, e3, s.i2);
    Trail(e4, e3, e2, if e2.huge then ZERO else Below(ts, e2, s.i1))
  }

  function TrailOf(ts: Tables, root: nat, s: Slot): Trail {
    Under(ts, Get(ts, root, s.i4), s)
  }

  /** Where a walk ends, with the entries it went through. */
  datatype Path =
    | Unmapped
    | Large(e4: Entry, e3: Entry, e2: Entry)
    | Small(e4: Entry, e3: Entry, e2: Entry, e1: Entry)

  /** A walk ends at the first entry that is absent, or at a large page, or at a page. */
  function PathOf(t: Trail): Path {
    if !t.e4.present || !t.e3.present || !t.e2.present then Unmapped
    else if t.e2.huge then Large(t.e4, t.e3, t.e2)
    else if !t.e1.present then Unmapped
    else Small(t.e4, t.e3, t.e2, t.e1)
  }

  /** `paging_lookup`, keeping the entries it looked at. */
  function Walk(ts: Tables, root: nat, s: Slot): Path {
    PathOf(TrailOf(ts, root, s))
  }

  // ---- which table is which ----

  /**
   The place of a table in the tree. A directory-pointer table knows its PML4 index and, in the lower half,
   the one root that may use it; the tables below know the directory-pointer table they hang from.
   */
  datatype Id = Root | Pdp(i4: Index, owner: nat) | Pd(pdp: nat, i3: Index) | Pt(pdp: nat, i3: Index, i2: Index)

  type Ids = map<nat, Id>

  const KERNEL_HALF := 256

  /** Entry i of table f leads where its place in the tree says. */
  predicate SlotOk(ts: Tables, ids: Ids, f: nat, i: Index)
    requires f in ts && ids.Keys == ts.Keys
  {
    var e := ts[f][i];
    e.present ==>
      match ids[f]
      case Root =>
        && !e.huge && e.frame in ts
        && ids[e.frame].Pdp? && ids[e.frame].i4 == i && (i < KERNEL_HALF ==> ids[e.frame].owner == f)
      case Pdp(_, _) => !e.huge && e.frame in ts && ids[e.frame] == Pd(f, i)
      case Pd(p, i3) => e.huge || (e.frame in ts && ids[e.frame] == Pt(p, i3, i))
      case Pt(_, _, _) => true
  }

  /** Table g is still announced by the slot it was hung under. */
  predicate ParentOk(ts: Tables, ids: Ids, g: nat)
    requires g in ids && ids.Keys == ts.Keys
  {
    match ids[g]
    case Pd(p, i3) => p in ids && ids[p].Pdp? && ts[p][i3].present
    case Pt(p, i3, i2) => p in ids && ids[p].Pdp? && ts[p][i3].present && Get(ts, ts[p][i3].frame, i2).present
    case _ => true
  }

  ghost predicate Tree(ts: Tables, ids: Ids) {
    && ids.Keys == ts.Keys
    && (forall f, i: Index :: f in ts ==> SlotOk(ts, ids, f, i))
    && (forall g :: g in ids ==> ParentOk(ts, ids, g))
    && Unique(ids)
  }

  /** No two directories, and no two page tables, claim the same place. */
  ghost predicate Unique(ids: Ids) {
    forall f, g :: f in ids && g in ids && ids[f] == ids[g] && (ids[f].Pd? || ids[f].Pt?) ==> f == g
  }

  lemma TreeSlot(ts: Tables, ids: Ids, f: nat, i: Index)
    requires Tree(ts, ids) && f in ts
    ensures ids.Keys == ts.Keys && SlotOk(ts, ids, f, i)
  {
  }

  lemma TreeKeys(ts: Tables, ids: Ids)
    requires Tree(ts, ids)
    ensures ids.Keys == ts.Keys
  {
  }

  ghost predicate IsRoot(ids: Ids, r: nat) {
    r in ids && ids[r].Root?
  }

  /** The tables a walk passes through are the ones its indices name. */
  lemma WalkIds(ts: Tables, ids: Ids, root: nat, s: Slot)
    requires Tree(ts, ids) && IsRoot(ids, root)
    ensures var e4 := Get(ts, root, s.i4);
            e4.present ==>
              && !e4.huge && e4.frame in ids && ids[e4.frame].Pdp? && ids[e4.frame].i4 == s.i4
              && var e3 := Get(ts, e4.frame, s.i3);
                 e3.present ==>
                   && !e3.huge && e3.frame in ids && ids[e3.frame] == Pd(e4.frame, s.i3)
                   && var e2 := Get(ts, e3.frame, s.i2);
                      e2.present && !e2.huge ==> e2.frame in ids && ids[e2.frame] == Pt(e4.frame, s.i3, s.i2)
  {
    assert SlotOk(ts, ids, root, s.i4);
    var e4 := Get(ts, root, s.i4);
    if e4.present {
      assert SlotOk(ts, ids, e4.frame, s.i3);
      var e3 := Get(ts, e4.frame, s.i3);
      if e3.present {
        assert SlotOk(ts, ids, e3.frame, s.i2);
      }
    }
  }

  function With(ts: Tables, f: nat, i: Index, e: Entry): Tables
    requires f in ts
  {
    ts[f := ts[f][i := e]]
  }

  // ---- writes that keep the tree ----

  /** Only rights differ: the entry leads where it led. */
  predicate SameTarget(e: Entry, e': Entry) {
    e' == e.(user := e'.user, nx := e'.nx)
  }

  lemma GrantTree(ts: Tables, ids: Ids, f: nat, i: Index, e': Entry)
    requires Tree(ts, ids) && f in ts && SameTarget(ts[f][i], e')
    ensures Tree(With(ts, f, i, e'), ids)
  {
    var ts' := With(ts, f, i, e');
    forall g, j: Index | g in ts' ensures SlotOk(ts', ids, g, j) {
      assert SlotOk(ts, ids, g, j);
    }
    forall g | g in ids ensures ParentOk(ts', ids, g) {
      assert ParentOk(ts, ids, g);
    }
  }

  /** The identity a new table gets when it is hung under slot (f, i). */
  function NewId(f: nat, id: Id, i: Index): Id
    requires !id.Pt?
  {
    match id
    case Root => Pdp(i, f)
    case Pdp(_, _) => Pd(f, i)
    case Pd(p, i3) => Pt(p, i3, i)
  }

  function Hung(ts: Tables, f: nat, i: Index, e: Entry): Tables
    requires f in ts
  {
    With(ts, f, i, e)[e.frame := Empty()]
  }

  ghost predicate CanHang(ts: Tables, ids: Ids, f: nat, i: Index, e: Entry) {
    && Tree(ts, ids) && f in ts && !ids[f].Pt? && !ts[f][i].present
    && e.present && !e.huge && e.frame !in ts
  }

  lemma HangTree(ts: Tables, ids: Ids, f: nat, i: Index, e: Entry)
    requires CanHang(ts, ids, f, i, e)
    ensures Tree(Hung(ts, f, i, e), ids[e.frame := NewId(f, ids[f], i)])
  {
    var g := e.frame;
    var ts', ids' := Hung(ts, f, i, e), ids[g := NewId(f, ids[f], i)];
    forall h, j: Index | h in ts' ensures SlotOk(ts', ids', h, j) {
      if h != g {
        assert SlotOk(ts, ids, h, j);
      }
    }
    HangParents(ts, ids, f, i, e);
    PlaceIsFree(ts, ids, f, i, e);
  }

  lemma HangParents(ts: Tables, ids: Ids, f: nat, i: Index, e: Entry)
    requires CanHang(ts, ids, f, i, e)
    ensures var ts', ids' := Hung(ts, f, i, e), ids[e.frame := NewId(f, ids[f], i)];
            ids'.Keys == ts'.Keys && forall h :: h in ids' ==> ParentOk(ts', ids', h)
  {
    var g := e.frame;
    var ts', ids' := Hung(ts, f, i, e), ids[g := NewId(f, ids[f], i)];
    forall h | h in ids' ensures ParentOk(ts', ids', h) {
      if h != g {
        assert ParentOk(ts, ids, h);
        if ids[h].Pt? {
          assert SlotOk(ts, ids, ids[h].pdp, ids[h].i3);
        }
      } else if ids[f].Pd? {
        assert ParentOk(ts, ids, f) && SlotOk(ts, ids, ids[f].pdp, ids[f].i3);
      }
    }
  }

  /** An absent slot means nobody claims the place below it. */
  lemma PlaceIsFree(ts: Tables, ids: Ids, f: nat, i: Index, e: Entry)
    requires CanHang(ts, ids, f, i, e)
    ensures Unique(ids[e.frame := NewId(f, ids[f], i)])
  {
    var id := NewId(f, ids[f], i);
    if id.Pd? || id.Pt? {
      forall b | b in ids ensures ids[b] != id {
        assert ParentOk(ts, ids, b);
        if id.Pt? {
          assert SlotOk(ts, ids, id.pdp, id.i3);
        }
      }
    }
  }

  /** Entry e maps memory: a page in a page table, or a 2 MiB page in a directory. */
  ghost predicate IsLeafSlot(ids: Ids, f: nat, e: Entry) {
    f in ids && e.present && (ids[f].Pt? || (ids[f].Pd? && e.huge))
  }

  lemma LeafTree(ts: Tables, ids: Ids, f: nat, i: Index, e: Entry)
    requires Tree(ts, ids) && IsLeafSlot(ids, f, e)
    ensures Tree(With(ts, f, i, e), ids)
  {
    var ts' := With(ts, f, i, e);
    forall g, j: Index | g in ts' ensures SlotOk(ts', ids, g, j) {
      assert SlotOk(ts, ids, g, j);
    }
    forall g | g in ids ensures ParentOk(ts', ids, g) {
      assert ParentOk(ts, ids, g);
    }
  }

  // ---- what a mapping is, and what making it must do ----

  /**
   The flags of a request: `rest` is what the upper entries get besides the named bits, `cached` the same with the
   two low cache bits or-ed in, and `pat` the third cache bit.
   */
  datatype Flags = Flags(rw: bool, user: bool, exe: bool, rest: nat, cached: nat, pat: bool)

  /** A request to map the page (4 KiB, or 2 MiB when large) at slot s to a physical frame. */
  datatype Mapping = Mapping(s: Slot, frame: nat, fl: Flags, large: bool)

  /** In a page table bit 7 is the third cache bit; in a directory it says that the page is large. */
  function LeafOf(op: Mapping): Entry {
    Entry(true, op.fl.rw, op.fl.user, op.large || op.fl.pat, !op.fl.exe, op.frame, op.fl.cached)
  }

  /** A new entry above a new table carries the flags of the mapping that needed it. */
  function UpperOf(fl: Flags, frame: nat): Entry {
    Entry(true, fl.rw, fl.user, false, !fl.exe, frame, fl.rest)
  }

  /** An entry already there gains USER and loses NX as the mapping asks, and nothing else. */
  function Raised(e: Entry, fl: Flags): Entry {
    e.(user := e.user || fl.user, nx := e.nx && !fl.exe)
  }

  /** An entry above the page after the mapping. */
  function Lifted(e: Entry, fl: Flags, frame: nat): Entry {
    if e.present then Raised(e, fl) else UpperOf(fl, frame)
  }

  predicate Covers(op: Mapping, s: Slot) {
    op.s.i4 == s.i4 && op.s.i3 == s.i3 && op.s.i2 == s.i2 && (op.large || op.s.i1 == s.i1)
  }

  /** Both roots have the same directory-pointer table at index i4. */
  predicate SharePdp(ts: Tables, r: nat, root: nat, i4: Index) {
    Get(ts, r, i4).present && Get(ts, root, i4).present && Get(ts, r, i4).frame == Get(ts, root, i4).frame
  }

  function Leaf(p: Path): Entry
    requires !p.Unmapped?
  {
    if p.Large? then p.e2 else p.e1
  }

  /** The walk ends at the new leaf. */
  predicate EndsAt(p: Path, op: Mapping) {
    !p.Unmapped? && p.Large? == op.large && Leaf(p) == LeafOf(op)
  }

  /**
   A trail under the PML4 index of the mapping, afterwards: the entries above the page are lifted, the page is there,
   and the rest is as it was. `mine` says that the PML4 entry is the one of the calling root; the frames of new tables
   are read off the new trail.
   */
  function TrailAfter(t: Trail, t': Trail, op: Mapping, s: Slot, mine: bool): Trail {
    var third := s.i3 == op.s.i3;
    var second := third && s.i2 == op.s.i2;
    Trail(
      if mine then Lifted(t.e4, op.fl, t'.e4.frame) else t.e4,
      if third then Lifted(t.e3, op.fl, t'.e3.frame) else t.e3,
      if second then (if op.large then LeafOf(op) else Lifted(t.e2, op.fl, t'.e2.frame)) else t.e2,
      if second then (if op.large then ZERO else if s.i1 == op.s.i1 then LeafOf(op) else t.e1) else t.e1)
  }

  /** r finds the page through the directory-pointer table that root has for it. */
  predicate Reaches(ts: Tables, r: nat, root: nat, i4: Index) {
    r == root || SharePdp(ts, r, root, i4)
  }

  predicate TrailChanges(ts: Tables, ts': Tables, root: nat, op: Mapping, r: nat, s: Slot) {
    var t, t' := TrailOf(ts, r, s), TrailOf(ts', r, s);
    t' == if s.i4 == op.s.i4 && Reaches(ts, r, root, s.i4) then TrailAfter(t, t', op, s, r == root) else t
  }

  /** What a mapping made through `root` does to every entry on every way in every address space. */
  ghost predicate MapEffect(roots: set<nat>, ts: Tables, ts': Tables, root: nat, op: Mapping) {
    && (forall r, s: Slot {:trigger TrailOf(ts', r, s)} :: r in roots ==> TrailChanges(ts, ts', root, op, r, s))
    && (op.large || !Walk(ts, root, op.s).Large?)   // a page is never put inside a large one
    && (!Get(ts, root, op.s.i4).present ==>         // a new table is nobody else's
          forall r :: r in roots && r != root ==> !SharePdp(ts', r, root, op.s.i4))
  }

  /** What making a new address space does: the kernel half is shared, the rest is empty, and no other root changes. */
  ghost predicate SpaceEffect(roots: set<nat>, ts: Tables, ts': Tables, kernel: nat, r: nat) {
    && (forall q, s: Slot {:trigger TrailOf(ts', q, s)} :: q in roots ==> TrailOf(ts', q, s) == TrailOf(ts, q, s))
    && (forall s: Slot ::
          TrailOf(ts', r, s) == if s.i4 < KERNEL_HALF then Trail(ZERO, ZERO, ZERO, ZERO) else TrailOf(ts, kernel, s))
  }

  // ---- from entries to walks ----

  function LeafIndex(op: Mapping): Index {
    if op.large then op.s.i2 else op.s.i1
  }

  /** The slots a mapping may write: one per level on the way, and the leaf. */
  predicate PathSlot(root: nat, op: Mapping, pdp: nat, pd: nat, f: nat, g: nat, j: Index) {
    || (g == root && j == op.s.i4)
    || (g == pdp && j == op.s.i3)
    || (g == pd && j == op.s.i2)
    || (g == f && j == LeafIndex(op))
  }

  /** The tables after the mapping, entry by entry: pdp, pd and f are the tables on the way to the leaf. */
  ghost predicate Rewritten(ts: Tables, ts': Tables, root: nat, op: Mapping, pdp: nat, pd: nat, f: nat) {
    var e4, e3, e2 := Get(ts, root, op.s.i4), Get(ts, pdp, op.s.i3), Get(ts, pd, op.s.i2);
    && Get(ts', root, op.s.i4) == Lifted(e4, op.fl, pdp) && (if e4.present then e4.frame == pdp else pdp !in ts)
    && Get(ts', pdp, op.s.i3) == Lifted(e3, op.fl, pd) && (if e3.present then e3.frame == pd else pd !in ts)
    && (if op.large then f == pd
        else
          && Get(ts', pd, op.s.i2) == Lifted(e2, op.fl, f)
          && if e2.present then !e2.huge && e2.frame == f else f !in ts)
    && Get(ts', f, LeafIndex(op)) == LeafOf(op)
    && forall g, j: Index {:trigger Get(ts', g, j)} :: !PathSlot(root, op, pdp, pd, f, g, j) ==>
       Get(ts', g, j) == Get(ts, g, j)
  }

  /** The tables on the way have the places in the tree that their indices name. */
  predicate PathIds(ids: Ids, root: nat, op: Mapping, pdp: nat, pd: nat, f: nat) {
    && root in ids && ids[root].Root?
    && pdp in ids && ids[pdp].Pdp? && ids[pdp].i4 == op.s.i4
    && pd in ids && ids[pd] == Pd(pdp, op.s.i3)
    && f in ids && ids[f] == if op.large then Pd(pdp, op.s.i3) else Pt(pdp, op.s.i3, op.s.i2)
  }

  ghost function Roots(ids: Ids): set<nat> {
    set r | r in ids && ids[r].Root?
  }

  ghost predicate Extends(ids: Ids, ids': Ids) {
    forall g :: g in ids ==> g in ids' && ids'[g] == ids[g]
  }

  lemma EffectOfRewrite(ids: Ids, ids': Ids, ts: Tables, ts': Tables, root: nat, op: Mapping, pdp: nat, pd: nat, f: nat)
    requires Tree(ts, ids) && Extends(ids, ids') && IsRoot(ids, root) && (op.large || !Walk(ts, root, op.s).Large?)
    requires Rewritten(ts, ts', root, op, pdp, pd, f) && PathIds(ids', root, op, pdp, pd, f)
    ensures MapEffect(Roots(ids), ts, ts', root, op)
  {
    hide Tree, TrailOf, TrailChanges, Rewritten, Walk, SharePdp, PathIds, Extends;
    forall r, s: Slot | r in Roots(ids) ensures TrailChanges(ts, ts', root, op, r, s) {
      TrailOfRewrite(ids, ids', ts, ts', root, op, pdp, pd, f, r, s);
    }
    forall r | r in Roots(ids) && r != root && !Get(ts, root, op.s.i4).present
      ensures !SharePdp(ts', r, root, op.s.i4)
    {
      NewTableUnshared(ids, ids', ts, ts', root, op, pdp, pd, f, r);
    }
  }

  /** A new directory-pointer table hangs from the calling root only. */
  lemma NewTableUnshared(ids: Ids, ids': Ids, ts: Tables, ts': Tables, root: nat, op: Mapping, pdp: nat, pd: nat,
                         f: nat, r: nat)
    requires Tree(ts, ids) && Extends(ids, ids') && IsRoot(ids, root) && IsRoot(ids, r) && r != root
    requires Rewritten(ts, ts', root, op, pdp, pd, f) && PathIds(ids', root, op, pdp, pd, f)
    requires !Get(ts, root, op.s.i4).present
    ensures !SharePdp(ts', r, root, op.s.i4)
  {
    hide Tree, Rewritten;
    Kept(ts, ts', root, op, pdp, pd, f);
    TreeKeys(ts, ids);
    TreeSlot(ts, ids, r, op.s.i4);
  }

  lemma TrailOfRewrite(ids: Ids, ids': Ids, ts: Tables, ts': Tables, root: nat, op: Mapping, pdp: nat, pd: nat, f: nat,
                       r: nat, s: Slot)
    requires Tree(ts, ids) && Extends(ids, ids') && IsRoot(ids, root) && IsRoot(ids, r)
    requires Rewritten(ts, ts', root, op, pdp, pd, f) && PathIds(ids', root, op, pdp, pd, f)
    ensures TrailChanges(ts, ts', root, op, r, s)
  {
    hide Tree, Rewritten, TrailOf;
    if s.i4 != op.s.i4 || !Reaches(ts, r, root, s.i4) {
      TrailElsewhere(ids, ids', ts, ts', root, op, pdp, pd, f, r, s);
    } else if s.i3 != op.s.i3 {
      TrailBeside(ids, ids', ts, ts', root, op, pdp, pd, f, r, s);
    } else if s.i2 != op.s.i2 {
      TrailNear(ids, ids', ts, ts', root, op, pdp, pd, f, r, s);
    } else {
      TrailAlong(ids, ids', ts, ts', root, op, pdp, pd, f, r, s);
    }
  }

  /** The frame of a rewrite, and its topmost slot. */
  lemma Kept(ts: Tables, ts': Tables, root: nat, op: Mapping, pdp: nat, pd: nat, f: nat)
    requires Rewritten(ts, ts', root, op, pdp, pd, f)
    ensures forall g, j: Index {:trigger Get(ts', g, j)} ::
              !PathSlot(root, op, pdp, pd, f, g, j) ==> Get(ts', g, j) == Get(ts, g, j)
    ensures Get(ts', root, op.s.i4) == Lifted(Get(ts, root, op.s.i4), op.fl, pdp)
    ensures if Get(ts, root, op.s.i4).present then Get(ts, root, op.s.i4).frame == pdp else pdp !in ts
  {
  }

  lemma TrailElsewhere(ids: Ids, ids': Ids, ts: Tables, ts': Tables, root: nat, op: Mapping, pdp: nat, pd: nat, f: nat,
                       r: nat, s: Slot)
    requires Tree(ts, ids) && Extends(ids, ids') && IsRoot(ids, root) && IsRoot(ids, r)
    requires Rewritten(ts, ts', root, op, pdp, pd, f) && PathIds(ids', root, op, pdp, pd, f)
    requires s.i4 != op.s.i4 || !Reaches(ts, r, root, s.i4)
    ensures TrailOf(ts', r, s) == TrailOf(ts, r, s)
  {
    WalkIds(ts, ids, r, s);
    Kept(ts, ts', root, op, pdp, pd, f);
    hide Tree, Rewritten, TrailOf;
    var e4 := Get(ts, r, s.i4);
    assert Get(ts', r, s.i4) == e4;
    if e4.present {
      assert e4.frame != pdp && ids'[e4.frame].Pdp?;
      SameBelow(ids', ts, ts', root, op, pdp, pd, f, e4.frame, s);
    }
    SameTrail(ts, ts', r, s);
  }

  /** Nothing changes below a directory-pointer slot that is not the one on the way. */
  lemma SameBelow(ids: Ids, ts: Tables, ts': Tables, root: nat, op: Mapping, pdp: nat, pd: nat, f: nat, p: nat, s: Slot)
    requires PathIds(ids, root, op, pdp, pd, f) && p in ids && ids[p].Pdp? && (p != pdp || s.i3 != op.s.i3)
    requires forall g, j: Index {:trigger Get(ts', g, j)} ::
               !PathSlot(root, op, pdp, pd, f, g, j) ==> Get(ts', g, j) == Get(ts, g, j)
    requires var e3 := Get(ts, p, s.i3);
             e3.present ==>
               && e3.frame in ids && ids[e3.frame] == Pd(p, s.i3)
               && var e2 := Get(ts, e3.frame, s.i2);
                  e2.present && !e2.huge ==> e2.frame in ids && ids[e2.frame] == Pt(p, s.i3, s.i2)
    ensures SameFrom(ts, ts', p, s)
  {
    var e3 := Get(ts, p, s.i3);
    assert p != root && p != pd && p != f;
    assert Get(ts', p, s.i3) == e3;
    if e3.present {
      var e2 := Get(ts, e3.frame, s.i2);
      OtherTable(ids, root, op, pdp, pd, f, e3.frame, p, s.i3);
      hide PathIds;
      assert Get(ts', e3.frame, s.i2) == e2;
      if e2.present && !e2.huge {
        OtherTable(ids, root, op, pdp, pd, f, e2.frame, p, s.i3);
        assert Get(ts', e2.frame, s.i1) == Get(ts, e2.frame, s.i1);
      }
    }
  }

  /** The entries below the directory-pointer table p are the same. */
  predicate SameFrom(ts: Tables, ts': Tables, p: nat, s: Slot) {
    var e3 := Get(ts, p, s.i3);
    var e2 := Get(ts, e3.frame, s.i2);
    && Get(ts', p, s.i3) == e3
    && (e3.present ==> Get(ts', e3.frame, s.i2) == e2)
    && (e3.present && e2.present && !e2.huge ==> Get(ts', e2.frame, s.i1) == Get(ts, e2.frame, s.i1))
  }

  lemma SameTrail(ts: Tables, ts': Tables, r: nat, s: Slot)
    requires var e4 := Get(ts, r, s.i4); Get(ts', r, s.i4) == e4 && (e4.present ==> SameFrom(ts, ts', e4.frame, s))
    ensures TrailOf(ts', r, s) == TrailOf(ts, r, s)
  {
    hide Get;
    SilentZero();
  }

  lemma SilentZero()
    ensures !ZERO.present
  {
  }

  /** A directory or page table under another directory-pointer slot is none of the tables on the way. */
  lemma OtherTable(ids: Ids, root: nat, op: Mapping, pdp: nat, pd: nat, f: nat, g: nat, p: nat, i3: Index)
    requires PathIds(ids, root, op, pdp, pd, f) && g in ids && (p != pdp || i3 != op.s.i3)
    requires ids[g] == Pd(p, i3) || (ids[g].Pt? && ids[g].pdp == p && ids[g].i3 == i3)
    ensures g != root && g != pdp && g != pd && g != f
  {
  }

  lemma TrailBeside(ids: Ids, ids': Ids, ts: Tables, ts': Tables, root: nat, op: Mapping, pdp: nat, pd: nat, f: nat,
                    r: nat, s: Slot)
    requires Tree(ts, ids) && Extends(ids, ids') && IsRoot(ids, root) && IsRoot(ids, r)
    requires Rewritten(ts, ts', root, op, pdp, pd, f) && PathIds(ids', root, op, pdp, pd, f)
    requires s.i4 == op.s.i4 && Reaches(ts, r, root, s.i4) && s.i3 != op.s.i3
    ensures TrailOf(ts', r, s) == TrailAfter(TrailOf(ts, r, s), TrailOf(ts', r, s), op, s, r == root)
  {
    WalkIds(ts, ids, r, s);
    Kept(ts, ts', root, op, pdp, pd, f);
    hide Tree, Rewritten, TrailOf, TrailAfter;
    assert !Get(ts, r, s.i4).present ==> Get(ts, pdp, s.i3) == ZERO;
    SameBelow(ids', ts, ts', root, op, pdp, pd, f, pdp, s);
    BesideTrail(ts, ts', root, op, pdp, r, s);
  }

  lemma BesideTrail(ts: Tables, ts': Tables, root: nat, op: Mapping, pdp: nat, r: nat, s: Slot)
    requires s.i3 != op.s.i3 && SameFrom(ts, ts', pdp, s)
    requires var e4 := Get(ts, r, s.i4);
             && Get(ts', r, s.i4) == (if r == root then Lifted(e4, op.fl, pdp) else e4)
             && (if e4.present then e4.frame == pdp else r == root && Get(ts, pdp, s.i3) == ZERO)
    ensures TrailOf(ts', r, s) == TrailAfter(TrailOf(ts, r, s), TrailOf(ts', r, s), op, s, r == root)
  {
    hide Get;
    SilentZero();
  }

  lemma TrailNear(ids: Ids, ids': Ids, ts: Tables, ts': Tables, root: nat, op: Mapping, pdp: nat, pd: nat, f: nat,
                  r: nat, s: Slot)
    requires Tree(ts, ids) && Extends(ids, ids') && IsRoot(ids, root) && IsRoot(ids, r)
    requires Rewritten(ts, ts', root, op, pdp, pd, f) && PathIds(ids', root, op, pdp, pd, f)
    requires s.i4 == op.s.i4 && Reaches(ts, r, root, s.i4) && s.i3 == op.s.i3 && s.i2 != op.s.i2
    ensures TrailOf(ts', r, s) == TrailAfter(TrailOf(ts, r, s), TrailOf(ts', r, s), op, s, r == root)
  {
    hide Tree, TrailOf, TrailAfter;
    WalkIds(ts, ids, r, s);
    var e4, e3, e2 := Get(ts, r, s.i4), Get(ts, pdp, s.i3), Get(ts, pd, s.i2);
    assert Get(ts', pd, s.i2) == e2;
    if e4.present && e3.present && e2.present && !e2.huge {
      assert ids'[e2.frame] == Pt(pdp, s.i3, s.i2);
      assert Get(ts', e2.frame, s.i1) == Get(ts, e2.frame, s.i1);
    }
    NearTrail(ts, ts', root, op, pdp, pd, r, s);
  }

  lemma NearTrail(ts: Tables, ts': Tables, root: nat, op: Mapping, pdp: nat, pd: nat, r: nat, s: Slot)
    requires s.i3 == op.s.i3 && s.i2 != op.s.i2
    requires var e4, e3, e2 := Get(ts, r, s.i4), Get(ts, pdp, s.i3), Get(ts, pd, s.i2);
             && Get(ts', r, s.i4) == (if r == root then Lifted(e4, op.fl, pdp) else e4)
             && (if e4.present then e4.frame == pdp else r == root && e3 == ZERO)
             && Get(ts', pdp, s.i3) == Lifted(e3, op.fl, pd)
             && (if e3.present then e3.frame == pd else e2 == ZERO)
             && Get(ts', pd, s.i2) == e2
             && (e3.present && e2.present && !e2.huge ==> Get(ts', e2.frame, s.i1) == Get(ts, e2.frame, s.i1))
    ensures TrailOf(ts', r, s) == TrailAfter(TrailOf(ts, r, s), TrailOf(ts', r, s), op, s, r == root)
  {
    hide Get;
    SilentZero();
  }

  lemma TrailAlong(ids: Ids, ids': Ids, ts: Tables, ts': Tables, root: nat, op: Mapping, pdp: nat, pd: nat, f: nat,
                   r: nat, s: Slot)
    requires Tree(ts, ids) && Extends(ids, ids') && IsRoot(ids, root) && IsRoot(ids, r)
    requires Rewritten(ts, ts', root, op, pdp, pd, f) && PathIds(ids', root, op, pdp, pd, f)
    requires s.i4 == op.s.i4 && Reaches(ts, r, root, s.i4) && s.i3 == op.s.i3 && s.i2 == op.s.i2
    ensures TrailOf(ts', r, s) == TrailAfter(TrailOf(ts, r, s), TrailOf(ts', r, s), op, s, r == root)
  {
    hide Tree, TrailOf, TrailAfter;
    WalkIds(ts, ids, r, s);
    assert !op.large && s.i1 != op.s.i1 ==> Get(ts', f, s.i1) == Get(ts, f, s.i1);
    hide PathIds, Extends;
    AlongTrail(ts, ts', root, op, pdp, pd, f, r, s);
  }

  lemma AlongTrail(ts: Tables, ts': Tables, root: nat, op: Mapping, pdp: nat, pd: nat, f: nat, r: nat, s: Slot)
    requires s.i3 == op.s.i3 && s.i2 == op.s.i2 && op.s.i4 == s.i4
    requires var e4, e3, e2 := Get(ts, r, s.i4), Get(ts, pdp, s.i3), Get(ts, pd, s.i2);
             && Get(ts', r, s.i4) == (if r == root then Lifted(e4, op.fl, pdp) else e4)
             && (if e4.present then e4.frame == pdp else r == root && e3 == ZERO)
             && Get(ts', pdp, s.i3) == Lifted(e3, op.fl, pd)
             && (if e3.present then e3.frame == pd else e2 == ZERO)
             && (if op.large then Get(ts', pd, s.i2) == LeafOf(op)
                 else
                   && Get(ts', pd, s.i2) == Lifted(e2, op.fl, f)
                   && (if e2.present then !e2.huge && e2.frame == f else Get(ts, f, s.i1) == ZERO)
                   && Get(ts', f, s.i1) == if s.i1 == op.s.i1 then LeafOf(op) else Get(ts, f, s.i1))
    ensures TrailOf(ts', r, s) == TrailAfter(TrailOf(ts, r, s), TrailOf(ts', r, s), op, s, r == root)
  {
    hide Get;
    SilentZero();
  }
}
