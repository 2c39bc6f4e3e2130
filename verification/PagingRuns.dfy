/** What runs of `map_page` leave behind: translations, permissions and the shared kernel half. */
module PagingRuns {
  import opened Machine
  import opened PageTables
  import opened Paging

  const SPAN := 0x1_0000_0000_0000   // the 48 bits of an address the walk looks at

  // ---- translation of addresses ----

  /** `paging_lookup` on a whole address. */
  function Lookup(ts: Tables, root: nat, virt: nat): Option<nat> {
    match Walk(ts, root, Split(virt))
    case Unmapped => None
    case Large(_, _, e2) => Some(e2.frame * PAGE + virt % LARGE_PAGE)
    case Small(_, _, _, e1) => Some(e1.frame * PAGE + virt % PAGE)
  }

  function PageSize(large: bool): nat {
    if large then LARGE_PAGE else PAGE
  }

  /** The two addresses lie in the same page, as far as the walk can tell. */
  predicate SamePage(v: nat, w: nat, large: bool) {
    v % SPAN / PageSize(large) == w % SPAN / PageSize(large)
  }

  /** The indices of an address are the base-512 digits of its page number. */
  function PageNumber(s: Slot, large: bool): nat {
    var n := (s.i4 * 512 + s.i3) * 512 + s.i2;
    if large then n else n * 512 + s.i1
  }

  lemma LargeNumber(v: nat)
    ensures v % SPAN / LARGE_PAGE == PageNumber(Split(v), true)
  {
    var n := v / LARGE_PAGE;
    ModThenDiv(v, LARGE_PAGE, 0x800_0000);
    NestedDiv(v, LARGE_PAGE, 512);
    NestedDiv(v, LARGE_PAGE, 0x4_0000);
    NestedDiv(n, 512, 512);
    ModMul(n, 512, 0x4_0000);
    ModMul(n / 512, 512, 512);
  }

  lemma SmallNumber(v: nat)
    ensures v % SPAN / PAGE == PageNumber(Split(v), false)
  {
    var n := v / PAGE;
    LargeNumber(v);
    ModThenDiv(v, PAGE, 0x10_0000_0000);
    ModThenDiv(v, LARGE_PAGE, 0x800_0000);
    NestedDiv(v, PAGE, 512);
    ModMul(n, 512, 0x800_0000);
  }

  /** A mapping covers exactly the addresses of its page. */
  lemma CoversIffSamePage(virt: nat, phys: nat, fl: Flags, large: bool, v: nat)
    ensures Covers(Request(virt, phys, fl, large), Split(v)) <==> SamePage(virt, v, large)
  {
    RequestSlot(virt, phys, fl, large);
    hide Split;
    if large {
      LargeNumber(virt);
      LargeNumber(v);
      SameDigits(Split(virt), Split(v), true);
    } else {
      SmallNumber(virt);
      SmallNumber(v);
      SameDigits(Split(virt), Split(v), false);
    }
  }

  lemma SameDigits(s: Slot, t: Slot, large: bool)
    ensures PageNumber(s, large) == PageNumber(t, large) <==>
            s.i4 == t.i4 && s.i3 == t.i3 && s.i2 == t.i2 && (large || s.i1 == t.i1)
  {
    SameDigit(s.i4, s.i3, t.i4, t.i3);
    SameDigit(s.i4 * 512 + s.i3, s.i2, t.i4 * 512 + t.i3, t.i2);
    SameDigit((s.i4 * 512 + s.i3) * 512 + s.i2, s.i1, (t.i4 * 512 + t.i3) * 512 + t.i2, t.i1);
  }

  lemma SameDigit(q: nat, r: nat, q': nat, r': nat)
    requires r < 512 && r' < 512
    ensures q * 512 + r == q' * 512 + r' <==> q == q' && r == r'
  {
  }

  // ---- trails ----

  /** Below an absent or large entry there is nothing. */
  predicate Proper(t: Trail) {
    && (!t.e4.present ==> t.e3 == ZERO)
    && (!t.e3.present ==> t.e2 == ZERO)
    && (!t.e2.present || t.e2.huge ==> t.e1 == ZERO)
  }

  lemma TrailIsProper(ts: Tables, r: nat, s: Slot)
    ensures Proper(TrailOf(ts, r, s)) && TrailOf(ts, r, s).e4 == Get(ts, r, s.i4)
  {
  }

  /** Two roots with the same directory-pointer table have the same entries below it. */
  lemma SharedTrail(ts: Tables, r: nat, root: nat, s: Slot)
    requires SharePdp(ts, r, root, s.i4)
    ensures TrailOf(ts, r, s) == TrailOf(ts, root, s).(e4 := Get(ts, r, s.i4))
  {
  }

  /** Both walks end at the same place, or nowhere. */
  predicate SameLeaf(p: Path, q: Path) {
    match p
    case Unmapped => q.Unmapped?
    case Large(_, _, e2) => q.Large? && q.e2 == e2
    case Small(_, _, _, e1) => q.Small? && q.e1 == e1
  }

  /** A small page is not asked for inside a large one. */
  predicate NothingLarge(t: Trail, op: Mapping) {
    op.large || !PathOf(t).Large?
  }

  /** A reaching trail after the mapping: the page is there if it is covered, and the leaf is as it was if not. */
  lemma LeafAfter(t: Trail, t': Trail, op: Mapping, s: Slot, mine: bool)
    requires Proper(t) && t' == TrailAfter(t, t', op, s, mine) && (mine || t.e4.present) && op.s.i4 == s.i4
    requires s.i3 == op.s.i3 && s.i2 == op.s.i2 ==> NothingLarge(t, op)
    ensures Covers(op, s) ==> EndsAt(PathOf(t'), op)
    ensures !Covers(op, s) ==> SameLeaf(PathOf(t), PathOf(t'))
  {
  }

  /** What a mapping means for the walk of any root: this is `MapEffect` read at one slot. */
  lemma WalkAfter(roots: set<nat>, ts: Tables, ts': Tables, root: nat, op: Mapping, r: nat, s: Slot)
    requires root in roots && r in roots && MapEffect(roots, ts, ts', root, op)
    ensures var t, t' := TrailOf(ts, r, s), TrailOf(ts', r, s);
            if s.i4 == op.s.i4 && Reaches(ts, r, root, s.i4) then
              && t' == TrailAfter(t, t', op, s, r == root) && t'.e4.present
              && (if Covers(op, s) then EndsAt(Walk(ts', r, s), op) else SameLeaf(Walk(ts, r, s), Walk(ts', r, s)))
            else t' == t
  {
    assert TrailChanges(ts, ts', root, op, r, s);
    if s.i4 == op.s.i4 && Reaches(ts, r, root, s.i4) {
      TrailIsProper(ts, r, s);
      if r != root {
        SharedTrail(ts, r, root, s);
      }
      SecondLarge(ts, root, op.s, s);
      hide TrailOf, MapEffect;
      LeafAfter(TrailOf(ts, r, s), TrailOf(ts', r, s), op, s, r == root);
    }
  }

  /** Whether a large page is in the way depends on the first three indices alone. */
  lemma SecondLarge(ts: Tables, root: nat, s: Slot, s': Slot)
    requires s.i4 == s'.i4
    ensures s.i3 == s'.i3 && s.i2 == s'.i2 ==> (Walk(ts, root, s).Large? <==> Walk(ts, root, s').Large?)
  {
  }

  /** The writer and the walker agree: phys plus offset for every address of the page, and nothing else moves. */
  lemma MapThenLookup(roots: set<nat>, ts: Tables, ts': Tables, root: nat, virt: nat, phys: nat, fl: Flags,
                      large: bool, v: nat)
    requires root in roots && MapEffect(roots, ts, ts', root, Request(virt, phys, fl, large))
    ensures Lookup(ts', root, v) ==
            if SamePage(virt, v, large) then Some(phys / PageSize(large) * PageSize(large) + v % PageSize(large))
            else Lookup(ts, root, v)
  {
    CoversIffSamePage(virt, phys, fl, large, v);
    FrameAddress(phys, large);
    WalkAfter(roots, ts, ts', root, Request(virt, phys, fl, large), root, Split(v));
    hide Split, TrailOf, MapEffect;
  }

  lemma FrameAddress(phys: nat, large: bool)
    ensures phys / PageSize(large) * PageSize(large) / PAGE * PAGE == phys / PageSize(large) * PageSize(large)
  {
    var q := phys / PageSize(large);
    DivModUnique(q * PageSize(large), PAGE, if large then q * 512 else q, 0);
  }

  // ---- effective permissions ----

  /** What the hardware makes of a walk: an access right counts only if every level grants it. */
  datatype View = View(frame: nat, large: bool, exe: bool, user: bool)

  function ViewOf(p: Path): Option<View> {
    match p
    case Unmapped => None
    case Large(e4, e3, e2) => Some(View(e2.frame, true, !e4.nx && !e3.nx && !e2.nx, e4.user && e3.user && e2.user))
    case Small(e4, e3, e2, e1) =>
      Some(View(e1.frame, false, !e4.nx && !e3.nx && !e2.nx && !e1.nx, e4.user && e3.user && e2.user && e1.user))
  }

  /** Below the PML4 entry nothing withholds what the leaf grants. */
  predicate LowerGrants(p: Path) {
    !p.Unmapped? ==>
      && (Leaf(p).user ==> p.e3.user && (p.Small? ==> p.e2.user))
      && (!Leaf(p).nx ==> !p.e3.nx && (p.Small? ==> !p.e2.nx))
  }

  /** A leaf seen through a PML4 entry with these rights. */
  function Seen(leaf: Entry, large: bool, exe: bool, user: bool): View {
    View(leaf.frame, large, !leaf.nx && exe, leaf.user && user)
  }

  lemma ViewThroughTop(p: Path)
    requires LowerGrants(p)
    ensures ViewOf(p) == if p.Unmapped? then None else Some(Seen(Leaf(p), p.Large?, !p.e4.nx, p.e4.user))
  {
  }

  lemma GrantsAfter(t: Trail, t': Trail, op: Mapping, s: Slot, mine: bool)
    requires Proper(t) && t' == TrailAfter(t, t', op, s, mine) && (mine || t.e4.present) && op.s.i4 == s.i4
    requires s.i3 == op.s.i3 && s.i2 == op.s.i2 ==> NothingLarge(t, op)
    requires LowerGrants(PathOf(t))
    ensures LowerGrants(PathOf(t'))
  {
  }

  /** Over every mapping the entries below the PML4 keep granting what the leaves grant. */
  lemma GrantsKept(roots: set<nat>, ts: Tables, ts': Tables, root: nat, op: Mapping, r: nat, s: Slot)
    requires root in roots && r in roots && MapEffect(roots, ts, ts', root, op) && LowerGrants(Walk(ts, r, s))
    ensures LowerGrants(Walk(ts', r, s))
  {
    WalkAfter(roots, ts, ts', root, op, r, s);
    TrailIsProper(ts, r, s);
    if s.i4 == op.s.i4 && Reaches(ts, r, root, s.i4) {
      if r != root {
        SharedTrail(ts, r, root, s);
      }
      SecondLarge(ts, root, op.s, s);
      hide TrailOf, MapEffect;
      GrantsAfter(TrailOf(ts, r, s), TrailOf(ts', r, s), op, s, r == root);
    }
  }

  /**
   A mapping through `root` gives its page exactly the rights it asked for and changes no other page's rights
   there.
   */
  lemma MapDecides(roots: set<nat>, ts: Tables, ts': Tables, root: nat, op: Mapping, s: Slot)
    requires root in roots && MapEffect(roots, ts, ts', root, op)
    requires LowerGrants(Walk(ts, root, s)) && TopGrants(Walk(ts, root, s))
    ensures LowerGrants(Walk(ts', root, s)) && TopGrants(Walk(ts', root, s))
    ensures ViewOf(Walk(ts', root, s)) ==
            if Covers(op, s) then Some(View(op.frame, op.large, op.fl.exe, op.fl.user)) else ViewOf(Walk(ts, root, s))
  {
    WalkAfter(roots, ts, ts', root, op, root, s);
    GrantsKept(roots, ts, ts', root, op, root, s);
    hide TrailOf, MapEffect;
  }

  predicate TopGrants(p: Path) {
    !p.Unmapped? ==> (Leaf(p).user ==> p.e4.user) && (!Leaf(p).nx ==> !p.e4.nx)
  }

  /**
   A kernel mapping under an entry two address spaces share translates alike in both, but both see the same page with
   the same rights exactly when the other one's own PML4 entry already grants what the mapping asks: `map_page` sets
   USER and clears NX in the calling root only.
   */
  lemma KernelMappingIsShared(roots: set<nat>, ts: Tables, ts': Tables, root: nat, op: Mapping, r: nat, v: nat)
    requires root in roots && r in roots && r != root && MapEffect(roots, ts, ts', root, op)
    requires SharePdp(ts, r, root, op.s.i4) && Split(v).i4 == op.s.i4
    ensures SharePdp(ts', r, root, op.s.i4) && Lookup(ts', r, v) == Lookup(ts', root, v)
    ensures Covers(op, Split(v)) ==>
              (ViewOf(Walk(ts', r, Split(v))) == ViewOf(Walk(ts', root, Split(v))) <==>
               (op.fl.exe ==> !Get(ts, r, op.s.i4).nx) && (op.fl.user ==> Get(ts, r, op.s.i4).user))
  {
    hide Split, TrailOf, MapEffect, TrailAfter, ViewOf, EndsAt, SameLeaf, Covers, Lookup;
    var s := Split(v);
    WalkAfter(roots, ts, ts', root, op, r, s);
    WalkAfter(roots, ts, ts', root, op, root, s);
    TrailIsProper(ts, r, s);
    TopAfter(roots, ts, ts', root, op, r, s.i4);
    TopAfter(roots, ts, ts', root, op, root, s.i4);
    SharedTrail(ts', r, root, s);
    TrailIsProper(ts', root, s);
    SharedLookup(ts', r, root, v);
    if Covers(op, s) {
      SharedRights(TrailOf(ts, r, s), TrailOf(ts', r, s), TrailOf(ts', root, s), op, s);
    }
  }

  lemma SharedLookup(ts: Tables, r: nat, root: nat, v: nat)
    requires SharePdp(ts, r, root, Split(v).i4)
    ensures Lookup(ts, r, v) == Lookup(ts, root, v)
  {
    hide Split;
    SharedTrail(ts, r, root, Split(v));
    TrailIsProper(ts, root, Split(v));
    hide TrailOf;
  }

  /** Two walks that differ in their PML4 entries only, and end at a new page. */
  lemma SharedRights(t: Trail, t': Trail, u': Trail, op: Mapping, s: Slot)
    requires Covers(op, s) && t' == TrailAfter(t, t', op, s, false)
    requires EndsAt(PathOf(t'), op) && EndsAt(PathOf(u'), op) && u' == t'.(e4 := u'.e4)
    requires (op.fl.exe ==> !u'.e4.nx) && (op.fl.user ==> u'.e4.user)
    ensures ViewOf(PathOf(t')) == ViewOf(PathOf(u')) <==> (op.fl.exe ==> !t.e4.nx) && (op.fl.user ==> t.e4.user)
  {
  }

  // ---- runs ----

  datatype Spaces = Spaces(tables: Tables, roots: set<nat>)

  /** A mapping made through a root, or a new address space. */
  datatype Event = Map(root: nat, op: Mapping) | Space(kernel: nat, r: nat)

  ghost predicate Step(a: Spaces, e: Event, b: Spaces) {
    match e
    case Map(root, op) => root in a.roots && b.roots == a.roots && MapEffect(a.roots, a.tables, b.tables, root, op)
    case Space(kernel, r) =>
      kernel in a.roots && r !in a.roots && b.roots == a.roots + {r}
        && SpaceEffect(a.roots, a.tables, b.tables, kernel, r)
  }

  ghost predicate StepOk(states: seq<Spaces>, run: seq<Event>, i: int)
    requires |states| == |run| + 1 && 0 <= i < |run|
  {
    Step(states[i], run[i], states[i + 1])
  }

  /** states[i + 1] is what event i made of states[i]. */
  ghost predicate Run(states: seq<Spaces>, run: seq<Event>) {
    |states| == |run| + 1 && forall i :: 0 <= i < |run| ==> StepOk(states, run, i)
  }

  lemma RunPrefix(states: seq<Spaces>, run: seq<Event>)
    requires Run(states, run) && run != []
    ensures var n := |run| - 1;
            && Run(states[..n + 1], run[..n]) && Step(states[n], run[n], states[n + 1])
            && states[..n + 1][n] == states[n] && states[..n + 1][0] == states[0]
  {
    hide Step;
    var n := |run| - 1;
    var before, made := states[..n + 1], run[..n];
    forall i | 0 <= i < n ensures StepOk(before, made, i) {
      assert StepOk(states, run, i);
    }
    assert StepOk(states, run, n);
  }

  lemma RunExtended(states: seq<Spaces>, run: seq<Event>, e: Event, b: Spaces)
    requires Run(states, run) && |states| == |run| + 1 && Step(states[|run|], e, b)
    ensures Run(states + [b], run + [e])
  {
    hide Step;
    var after, made := states + [b], run + [e];
    forall i | 0 <= i < |made| ensures StepOk(after, made, i) {
      if i < |run| {
        assert StepOk(states, run, i);
      }
    }
  }

  /** Roots never go away. */
  lemma {:induction false} RootsStay(states: seq<Spaces>, run: seq<Event>, r: nat)
    requires Run(states, run) && r in states[0].roots
    ensures r in states[|run|].roots
  {
    if run != [] {
      RunPrefix(states, run);
      RootsStay(states[..|run|], run[..|run| - 1], r);
      hide MapEffect, SpaceEffect;
    }
  }

  // ---- what stays as it is ----

  predicate Uses(e: Event, i: Index) {
    e.Map? && e.op.s.i4 == i
  }

  /** Under a PML4 index that no mapping of the run uses, no entry changes in any address space. */
  lemma {:induction false} UnusedIndexStable(states: seq<Spaces>, run: seq<Event>, r: nat, s: Slot)
    requires Run(states, run) && r in states[0].roots && forall i :: 0 <= i < |run| ==> !Uses(run[i], s.i4)
    ensures TrailOf(states[|run|].tables, r, s) == TrailOf(states[0].tables, r, s)
  {
    if run != [] {
      var n := |run| - 1;
      RunPrefix(states, run);
      UnusedIndexStable(states[..n + 1], run[..n], r, s);
      RootsStay(states[..n + 1], run[..n], r);
      assert !Uses(run[n], s.i4);
      hide TrailOf;
      if run[n].Map? {
        assert TrailChanges(states[n].tables, states[n + 1].tables, run[n].root, run[n].op, r, s);
      }
    }
  }

  /**
   Over any run of lower-half mappings through any roots the kernel half of every address space stays, rights
   included.
   */
  lemma KernelHalfStable(states: seq<Spaces>, run: seq<Event>, r: nat, s: Slot)
    requires Run(states, run) && r in states[0].roots && s.i4 >= KERNEL_HALF
    requires forall i :: 0 <= i < |run| && run[i].Map? ==> run[i].op.s.i4 < KERNEL_HALF
    ensures Walk(states[|run|].tables, r, s) == Walk(states[0].tables, r, s)
  {
    UnusedIndexStable(states, run, r, s);
  }

  /** No two address spaces share a table of the lower half. */
  ghost predicate PrivateLower(a: Spaces) {
    forall r, q, i: Index :: r in a.roots && q in a.roots && r != q && i < KERNEL_HALF ==> !SharePdp(a.tables, r, q, i)
  }

  lemma TreeIsPrivate(ts: Tables, ids: Ids)
    requires Tree(ts, ids)
    ensures PrivateLower(Spaces(ts, Roots(ids)))
  {
    forall r, q, i: Index | r in Roots(ids) && q in Roots(ids) && r != q && i < KERNEL_HALF
      ensures !SharePdp(ts, r, q, i)
    {
      assert SlotOk(ts, ids, r, i) && SlotOk(ts, ids, q, i);
    }
  }

  function At(i: Index): Slot {
    Slot(i, 0, 0, 0)
  }

  lemma TopIs(ts: Tables, r: nat, i: Index)
    ensures TrailOf(ts, r, At(i)).e4 == Get(ts, r, i)
  {
  }

  /** The PML4 entries after a mapping. */
  lemma TopAfter(roots: set<nat>, ts: Tables, ts': Tables, root: nat, op: Mapping, r: nat, i: Index)
    requires root in roots && r in roots && MapEffect(roots, ts, ts', root, op)
    ensures Get(ts', r, i) ==
            if r == root && i == op.s.i4 then Lifted(Get(ts, r, i), op.fl, Get(ts', r, i).frame) else Get(ts, r, i)
  {
    assert TrailChanges(ts, ts', root, op, r, At(i));
    TopIs(ts, r, i);
    TopIs(ts', r, i);
    hide TrailOf;
  }

  lemma TopInSpace(roots: set<nat>, ts: Tables, ts': Tables, kernel: nat, r: nat, q: nat, i: Index)
    requires SpaceEffect(roots, ts, ts', kernel, r)
    ensures q in roots ==> Get(ts', q, i) == Get(ts, q, i)
    ensures Get(ts', r, i) == if i < KERNEL_HALF then ZERO else Get(ts, kernel, i)
  {
    TopIs(ts, q, i);
    TopIs(ts', q, i);
    TopIs(ts', r, i);
    TopIs(ts, kernel, i);
    assert q in roots ==> TrailOf(ts', q, At(i)) == TrailOf(ts, q, At(i));
    assert TrailOf(ts', r, At(i)) ==
           if i < KERNEL_HALF then Trail(ZERO, ZERO, ZERO, ZERO) else TrailOf(ts, kernel, At(i));
    hide TrailOf;
  }

  lemma PrivateStep(a: Spaces, e: Event, b: Spaces)
    requires Step(a, e, b) && PrivateLower(a)
    ensures PrivateLower(b)
  {
    forall r, q, i: Index | r in b.roots && q in b.roots && r != q && i < KERNEL_HALF
      ensures !SharePdp(b.tables, r, q, i)
    {
      if e.Map? {
        TopAfter(a.roots, a.tables, b.tables, e.root, e.op, r, i);
        TopAfter(a.roots, a.tables, b.tables, e.root, e.op, q, i);
        assert !SharePdp(a.tables, r, q, i) && SharePdp(b.tables, r, q, i) == SharePdp(b.tables, q, r, i);
        assert !Get(a.tables, e.root, e.op.s.i4).present ==>
                 !SharePdp(b.tables, if r == e.root then q else r, e.root, e.op.s.i4) || (r != e.root && q != e.root);
        hide PrivateLower, MapEffect;
      } else {
        TopInSpace(a.roots, a.tables, b.tables, e.kernel, e.r, r, i);
        TopInSpace(a.roots, a.tables, b.tables, e.kernel, e.r, q, i);
        assert r in a.roots && q in a.roots ==> !SharePdp(a.tables, r, q, i);
      }
    }
  }

  /** Lower-half mappings through other roots, and new address spaces, change nothing at all in this one. */
  lemma {:induction false} LowerHalfIsPrivate(states: seq<Spaces>, run: seq<Event>, r: nat, s: Slot)
    requires Run(states, run) && PrivateLower(states[0]) && r in states[0].roots
    requires forall i :: 0 <= i < |run| && run[i].Map? ==> run[i].root != r && run[i].op.s.i4 < KERNEL_HALF
    ensures TrailOf(states[|run|].tables, r, s) == TrailOf(states[0].tables, r, s) && PrivateLower(states[|run|])
  {
    if run != [] {
      var n := |run| - 1;
      RunPrefix(states, run);
      LowerHalfIsPrivate(states[..n + 1], run[..n], r, s);
      RootsStay(states[..n + 1], run[..n], r);
      PrivateStep(states[n], run[n], states[n + 1]);
      hide TrailOf;
      if run[n].Map? {
        assert TrailChanges(states[n].tables, states[n + 1].tables, run[n].root, run[n].op, r, s);
        assert !SharePdp(states[n].tables, r, run[n].root, run[n].op.s.i4);
      }
    }
  }

  // ---- the rights of a PML4 entry over runs ----

  /** Event e is a mapping through r under PML4 index i. */
  predicate Through(e: Event, r: nat, i: Index) {
    e.Map? && e.root == r && e.op.s.i4 == i
  }

  ghost predicate AskedExe(run: seq<Event>, r: nat, i: Index) {
    exists k :: 0 <= k < |run| && Through(run[k], r, i) && run[k].op.fl.exe
  }

  ghost predicate AskedUser(run: seq<Event>, r: nat, i: Index) {
    exists k :: 0 <= k < |run| && Through(run[k], r, i) && run[k].op.fl.user
  }

  lemma AskedNothing(r: nat, i: Index)
    ensures !AskedExe([], r, i) && !AskedUser([], r, i)
  {
  }

  /** One event and one PML4 entry: only a mapping through it changes its rights. */
  lemma TopStep(a: Spaces, e: Event, b: Spaces, r: nat, i: Index)
    requires Step(a, e, b) && r in a.roots && Get(a.tables, r, i).present
    ensures var t, t' := Get(a.tables, r, i), Get(b.tables, r, i);
            t' == if Through(e, r, i) then Raised(t, e.op.fl) else t
  {
    hide MapEffect, SpaceEffect, Get;
    match e
    case Map(root, op) => TopAfter(a.roots, a.tables, b.tables, root, op, r, i);
    case Space(kernel, q) => TopInSpace(a.roots, a.tables, b.tables, kernel, q, r, i);
  }

  lemma AskedStep(run: seq<Event>, r: nat, i: Index)
    requires run != []
    ensures var n := |run| - 1;
            && (AskedExe(run, r, i) <==> AskedExe(run[..n], r, i) || (Through(run[n], r, i) && run[n].op.fl.exe))
            && (AskedUser(run, r, i) <==> AskedUser(run[..n], r, i) || (Through(run[n], r, i) && run[n].op.fl.user))
  {
    var n := |run| - 1;
    var before := run[..n];
    assert forall k :: 0 <= k < n ==> before[k] == run[k];
    if AskedExe(before, r, i) {
      var k :| 0 <= k < n && Through(before[k], r, i) && before[k].op.fl.exe;
      assert Through(run[k], r, i);
    }
    if AskedUser(before, r, i) {
      var k :| 0 <= k < n && Through(before[k], r, i) && before[k].op.fl.user;
      assert Through(run[k], r, i);
    }
  }

  /**
   Over any run an entry that was there stays, leads where it led and keeps its RW; NX is off at the end exactly when it
   was off or a mapping through this very root under this very index asked for EXE, and likewise for USER.
   */
  lemma {:induction false} TopOverRun(states: seq<Spaces>, run: seq<Event>, r: nat, i: Index)
    requires Run(states, run) && r in states[0].roots && Get(states[0].tables, r, i).present
    ensures var e, e' := Get(states[0].tables, r, i), Get(states[|run|].tables, r, i);
            && e' == e.(user := e'.user, nx := e'.nx)
            && (!e'.nx <==> !e.nx || AskedExe(run, r, i))
            && (e'.user <==> e.user || AskedUser(run, r, i))
  {
    hide Step, AskedExe, AskedUser, Get;
    AskedNothing(r, i);
    if run != [] {
      var n := |run| - 1;
      var a, b := states[n], states[n + 1];
      RunPrefix(states, run);
      TopOverRun(states[..n + 1], run[..n], r, i);
      RootsStay(states[..n + 1], run[..n], r);
      AskedStep(run, r, i);
      TopStep(a, run[n], b, r, i);
    }
  }

  /** So no page below an entry with NX is executable until this root itself maps something executable there. */
  lemma NeverExecutable(states: seq<Spaces>, run: seq<Event>, r: nat, s: Slot)
    requires Run(states, run) && r in states[0].roots
    requires Get(states[0].tables, r, s.i4).present && Get(states[0].tables, r, s.i4).nx && !AskedExe(run, r, s.i4)
    ensures var v := ViewOf(Walk(states[|run|].tables, r, s)); v.Some? ==> !v.value.exe
  {
    TopOverRun(states, run, r, s.i4);
    hide Run;
  }

  // ---- write permission ----

  predicate Writable(p: Path) {
    !p.Unmapped? && p.e4.rw && p.e3.rw && (p.Small? ==> p.e2.rw) && Leaf(p).rw
  }

  /** Every entry that is already above the page allows writing. */
  predicate UppersAllow(t: Trail, large: bool) {
    && (t.e4.present ==> t.e4.rw)
    && (t.e3.present ==> t.e3.rw)
    && (!large && t.e2.present ==> t.e2.rw)
  }

  /**
   Unlike USER and NX, RW is not passed on to the entries above: the mapped page is writable exactly when writing was
   asked for and every entry that was already above it allowed it, and no other page's write permission changes.
   */
  lemma WritableIffUppersWere(roots: set<nat>, ts: Tables, ts': Tables, root: nat, op: Mapping, r: nat, s: Slot)
    requires root in roots && r in roots && MapEffect(roots, ts, ts', root, op)
    ensures Writable(Walk(ts', r, s)) <==>
            if Covers(op, s) && Reaches(ts, r, root, s.i4) then op.fl.rw && UppersAllow(TrailOf(ts, r, s), op.large)
            else Writable(Walk(ts, r, s))
  {
    WalkAfter(roots, ts, ts', root, op, r, s);
    TrailIsProper(ts, r, s);
    hide TrailOf, MapEffect;
  }

  /** Between two mappings of a page its write permission is settled: later events do not change it. */
  lemma {:induction false} WritableOverRun(states: seq<Spaces>, run: seq<Event>, r: nat, s: Slot)
    requires Run(states, run) && r in states[0].roots
    requires forall i :: 0 <= i < |run| && run[i].Map? ==> !Covers(run[i].op, s)
    ensures Writable(Walk(states[|run|].tables, r, s)) <==> Writable(Walk(states[0].tables, r, s))
  {
    if run != [] {
      var n := |run| - 1;
      RunPrefix(states, run);
      WritableOverRun(states[..n + 1], run[..n], r, s);
      RootsStay(states[..n + 1], run[..n], r);
      hide TrailOf, Writable;
      if run[n].Map? {
        WritableIffUppersWere(states[n].roots, states[n].tables, states[n + 1].tables, run[n].root, run[n].op, r, s);
      }
    }
  }

  /** The entries of t that are there and forbid writing. */
  predicate Forbids4(t: Trail) {
    t.e4.present && !t.e4.rw
  }

  predicate Forbids3(t: Trail) {
    t.e4.present && t.e3.present && !t.e3.rw
  }

  predicate Forbids2(t: Trail) {
    t.e4.present && t.e3.present && t.e2.present && !t.e2.huge && !t.e2.rw
  }

  lemma ForbidsStep(a: Spaces, e: Event, b: Spaces, r: nat, s: Slot)
    requires Step(a, e, b) && r in a.roots
    ensures var t, t' := TrailOf(a.tables, r, s), TrailOf(b.tables, r, s);
            && (Forbids4(t) ==> Forbids4(t')) && (Forbids3(t) ==> Forbids3(t'))
            && (Forbids2(t) && !(e.Map? && e.op.large && Covers(e.op, s)) ==> Forbids2(t'))
  {
    if e.Map? {
      assert TrailChanges(a.tables, b.tables, e.root, e.op, r, s);
    }
    hide TrailOf;
  }

  /**
   A read-only entry on the way keeps everything below it read-only for ever: at the two upper levels whatever is
   mapped, at the directory level until a 2 MiB page takes the place of the whole table.
   */
  lemma {:induction false} ReadOnlyForEver(states: seq<Spaces>, run: seq<Event>, r: nat, s: Slot)
    requires Run(states, run) && r in states[0].roots
    ensures var t, t' := TrailOf(states[0].tables, r, s), TrailOf(states[|run|].tables, r, s);
            && (Forbids4(t) ==> Forbids4(t')) && (Forbids3(t) ==> Forbids3(t'))
            && (Forbids2(t) && (forall i :: 0 <= i < |run| && run[i].Map? && run[i].op.large ==> !Covers(run[i].op, s))
                ==> Forbids2(t'))
            && (Forbids4(t') || Forbids3(t') || Forbids2(t') ==> !Writable(Walk(states[|run|].tables, r, s)))
  {
    hide TrailOf;
    if run != [] {
      var n := |run| - 1;
      RunPrefix(states, run);
      ReadOnlyForEver(states[..n + 1], run[..n], r, s);
      RootsStay(states[..n + 1], run[..n], r);
      ForbidsStep(states[n], run[n], states[n + 1], r, s);
      hide Step;
    }
  }
}
