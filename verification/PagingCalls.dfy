/** Sequences of calls on the page tables themselves: they make the runs the flat map is about, and show its limits. */
module PagingCalls {
  import opened Machine
  import opened PageTables
  import opened Paging
  import opened PagingRuns
  import opened PagingViews
  import opened PagingWrites

  /** A call of `map_page`, or the making of a program's address space in frame r. */
  datatype Wish = Wish(root: nat, virt: nat, phys: nat, fl: Flags, large: bool) | Fresh(kernel: nat, r: nat)

  function EventOf(w: Wish): Event {
    match w
    case Wish(root, virt, phys, fl, large) => Map(root, Request(virt, phys, fl, large))
    case Fresh(kernel, r) => Space(kernel, r)
  }

  function Events(ws: seq<Wish>): (es: seq<Event>)
    ensures |es| == |ws| && forall i :: 0 <= i < |ws| ==> es[i] == EventOf(ws[i])
  {
    seq(|ws|, i requires 0 <= i < |ws| => EventOf(ws[i]))
  }

  /**
   The call cannot be made with the arena from `cursor` to `end`: too few pages for its tables, a 2 MiB page in the way,
   or a new root in a frame that is a table already or still the arena's.
   */
  predicate Blocked(b: Spaces, cursor: nat, end: nat, w: Wish) {
    match w
    case Wish(root, virt, _, _, large) =>
      PagesBetween(cursor, end) < 3 || (!large && Walk(b.tables, root, Split(virt)).Large?)
    case Fresh(_, r) => r in b.tables || cursor <= r * PAGE < end
  }

  ghost function StateOf(a: AddressSpaces): Spaces
    reads a
  {
    Spaces(a.tables, Roots(a.ids))
  }

  /** The root a call goes through. */
  function RootOf(w: Wish): nat {
    if w.Wish? then w.root else w.kernel
  }

  /** One call. */
  method Grant(a: AddressSpaces, w: Wish) returns (ok: bool)
    requires a.Valid() && (w.Wish? ==> w.phys < PHYS_LIMIT) && RootOf(w) in Roots(a.ids)
    modifies a
    ensures ok ==> a.Valid() && Step(old(StateOf(a)), EventOf(w), StateOf(a)) && a.PagesLeft() >= old(a.PagesLeft()) - 3
    ensures ok ==> a.wmCursor >= old(a.wmCursor) && a.ArenaEnd() == old(a.ArenaEnd())
    ensures !ok ==> old(Blocked(StateOf(a), a.wmCursor, a.ArenaEnd(), w))
  {
    hide MapEffect, SpaceEffect, Walk, Split, PagesBetween;
    match w {
      case Wish(root, virt, phys, fl, large) =>
        var r := a.MapPage(root, virt, phys, fl, large);
        return r.Done?;
      case Fresh(kernel, r) =>
        if r in a.tables || !a.Spent(r) {
          return false;
        }
        a.NewSpace(kernel, r);
        return true;
    }
  }

  /** The roots there are once the calls have been made. */
  function RootsAfter(roots: set<nat>, ws: seq<Wish>): set<nat> {
    if ws == [] then roots
    else
      var before := RootsAfter(roots, ws[..|ws| - 1]);
      var w := ws[|ws| - 1];
      if w.Fresh? then before + {w.r} else before
  }

  predicate Rooted(roots: set<nat>, ws: seq<Wish>) {
    forall i :: 0 <= i < |ws| ==> RootOf(ws[i]) in RootsAfter(roots, ws[..i])
  }

  /**
   Any sequence of calls: the first `n` of them are made, every address space then shows what those calls say, and the
   next one, if there is one, cannot be made. `reached` and `cursor` are the state and the arena after the n calls.
   */
  method MapAll(a: AddressSpaces, ws: seq<Wish>) returns (n: nat, ghost reached: Spaces, ghost cursor: nat)
    requires a.Valid() && Sound(StateOf(a)) && Rooted(Roots(a.ids), ws)
    requires forall i :: 0 <= i < |ws| && ws[i].Wish? ==> ws[i].phys < PHYS_LIMIT
    modifies a
    ensures n <= |ws| && cursor >= old(a.wmCursor)
    ensures PagesBetween(cursor, old(a.ArenaEnd())) >= old(a.PagesLeft()) - 3 * n
    ensures reached.roots == RootsAfter(old(Roots(a.ids)), ws[..n])
    ensures forall r, s: Slot {:trigger Walk(reached.tables, r, s)} :: r in reached.roots ==>
              && ViewOf(Walk(reached.tables, r, s)) == Expected(old(StateOf(a)), Events(ws[..n]), r, s)
              && (Writable(Walk(reached.tables, r, s)) <==> MayWrite(old(StateOf(a)), Events(ws[..n]), r, s))
    ensures n == |ws| ==>
              a.Valid() && StateOf(a) == reached && a.wmCursor == cursor && a.ArenaEnd() == old(a.ArenaEnd())
    ensures n < |ws| ==> Blocked(reached, cursor, old(a.ArenaEnd()), ws[n])
  {
    hide Step, Sound, Expected, ViewOf, Walk, Writable, MayWrite, Blocked, PagesBetween, AddressSpaces.ArenaEnd, Tree;
    ghost var start, end := StateOf(a), a.ArenaEnd();
    ghost var states := [start];
    n, reached, cursor := 0, start, a.wmCursor;
    assert Run(states, Events(ws[..0]));
    while n < |ws|
      invariant n <= |ws| && a.Valid() && reached == StateOf(a) && cursor == a.wmCursor >= old(a.wmCursor)
      invariant end == a.ArenaEnd() && a.PagesLeft() >= old(a.PagesLeft()) - 3 * n
      invariant |states| == n + 1 && states[0] == start && states[n] == reached && Run(states, Events(ws[..n]))
      invariant reached.roots == RootsAfter(start.roots, ws[..n])
    {
      assert RootOf(ws[n]) in RootsAfter(start.roots, ws[..n]);
      var ok := Grant(a, ws[n]);
      if !ok {
        break;
      }
      RunExtended(states, Events(ws[..n]), EventOf(ws[n]), StateOf(a));
      MoreEvents(ws, n);
      RootsStep(start.roots, ws, n, reached, StateOf(a));
      states := states + [StateOf(a)];
      n, reached, cursor := n + 1, StateOf(a), a.wmCursor;
    }
    forall r, s: Slot | r in reached.roots
      ensures ViewOf(Walk(reached.tables, r, s)) == Expected(start, Events(ws[..n]), r, s)
      ensures Writable(Walk(reached.tables, r, s)) <==> MayWrite(start, Events(ws[..n]), r, s)
    {
      RunRefinesFlatMap(states, Events(ws[..n]), r, s);
      WritesReadOffRun(states, Events(ws[..n]), r, s);
    }
  }

  lemma MoreEvents(ws: seq<Wish>, n: nat)
    requires n < |ws|
    ensures Events(ws[..n]) + [EventOf(ws[n])] == Events(ws[..n + 1])
  {
  }

  lemma RootsStep(roots: set<nat>, ws: seq<Wish>, n: nat, b: Spaces, c: Spaces)
    requires n < |ws| && b.roots == RootsAfter(roots, ws[..n]) && Step(b, EventOf(ws[n]), c)
    ensures c.roots == RootsAfter(roots, ws[..n + 1])
  {
    assert ws[..n + 1][..n] == ws[..n];
  }

  // ---- where the code falls short: three calls that show it ----

  const KDATA := Flags(true, false, false, 0, 0, false)
  const KCODE := Flags(false, false, true, 0, 0, false)
  const UCODE := Flags(false, true, true, 0, 0, false)

  /** The first address of the kernel half. */
  const KERNEL_BASE := 0xffff_8000_0000_0000

  lemma KernelSlots()
    ensures Split(KERNEL_BASE).i4 == KERNEL_HALF && Split(KERNEL_BASE + 0x1000).i4 == KERNEL_HALF
    ensures Split(KERNEL_BASE).i1 == 0 && Split(KERNEL_BASE + 0x1000).i1 == 1
  {
  }

  lemma NothingMapped(root: nat, s: Slot)
    ensures TrailOf(map[root := Empty()], root, s) == Trail(ZERO, ZERO, ZERO, ZERO)
  {
  }

  /** One root and a megabyte for tables. */
  method Boot() returns (a: AddressSpaces)
    ensures fresh(a) && a.Valid() && Roots(a.ids) == {1} && a.tables == map[1 := Empty()] && a.PagesLeft() == 256
    ensures a.wmCursor == 0x10_0000 && a.wmFree == 0x10_0000
  {
    a := new AddressSpaces(1, 0x10_0000, 0x10_0000);
    assert AlignUp(0x10_0000, PAGE) == 0x10_0000;
  }

  /** The first mapping of an empty address space decides the PML4 entry above its neighbour. */
  lemma FirstMapping(ts: Tables, ts': Tables, fl: Flags)
    requires ts == map[1 := Empty()] && MapEffect({1}, ts, ts', 1, Request(KERNEL_BASE, 0x4000, fl, false))
    ensures Walk(ts', 1, Split(KERNEL_BASE + 0x1000)) == Unmapped
    ensures var e := Get(ts', 1, KERNEL_HALF); e == UpperOf(fl, e.frame)
  {
    var s, op := Split(KERNEL_BASE + 0x1000), Request(KERNEL_BASE, 0x4000, fl, false);
    KernelSlots();
    RequestSlot(KERNEL_BASE, 0x4000, fl, false);
    hide Split;
    NothingMapped(1, s);
    WalkAfter({1}, ts, ts', 1, op, 1, s);
    TopAfter({1}, ts, ts', 1, op, 1, KERNEL_HALF);
    TrailIsProper(ts, 1, s);
    hide TrailOf, MapEffect;
  }

  lemma DataBesideCode(ts: Tables, ts': Tables)
    requires Get(ts, 1, KERNEL_HALF).present && !Get(ts, 1, KERNEL_HALF).rw
    requires MapEffect({1}, ts, ts', 1, Request(KERNEL_BASE + 0x1000, 0x5000, KDATA, false))
    ensures Lookup(ts', 1, KERNEL_BASE + 0x1000) == Some(0x5000)
    ensures !Writable(Walk(ts', 1, Split(KERNEL_BASE + 0x1000)))
  {
    var v := KERNEL_BASE + 0x1000;
    KernelSlots();
    RequestSlot(v, 0x5000, KDATA, false);
    MapThenLookup({1}, ts, ts', 1, v, 0x5000, KDATA, false, v);
    hide Split, MapEffect;
    WritableIffUppersWere({1}, ts, ts', 1, Request(v, 0x5000, KDATA, false), 1, Split(v));
  }

  /** Code is mapped first, data next to it: the data page was asked for writable and is not. */
  method CodeThenData() returns (a: AddressSpaces)
    ensures Roots(a.ids) == {1} && Lookup(a.tables, 1, KERNEL_BASE + 0x1000) == Some(0x5000)
    ensures !Writable(Walk(a.tables, 1, Split(KERNEL_BASE + 0x1000)))
  {
    a := Boot();
    NothingMapped(1, Split(KERNEL_BASE));
    hide Split, TrailOf, MapEffect, Request, Lookup, Writable;
    ghost var t0 := a.tables;
    var one := a.MapPage(1, KERNEL_BASE, 0x4000, KCODE, false);
    ghost var t1 := a.tables;
    FirstMapping(t0, t1, KCODE);
    hide Walk;
    var two := a.MapPage(1, KERNEL_BASE + 0x1000, 0x5000, KDATA, false);
    DataBesideCode(t1, a.tables);
  }

  lemma CodeBesideData(ts: Tables, ts': Tables, r: nat)
    requires r != 1 && Get(ts, 1, KERNEL_HALF).present && Get(ts, r, KERNEL_HALF) == Get(ts, 1, KERNEL_HALF)
    requires Get(ts, r, KERNEL_HALF).nx && !Get(ts, r, KERNEL_HALF).user
    requires MapEffect({1, r}, ts, ts', 1, Request(KERNEL_BASE + 0x1000, 0x5000, UCODE, false))
    ensures var s := Split(KERNEL_BASE + 0x1000);
            && ViewOf(Walk(ts', 1, s)) == Some(View(5, false, true, true))
            && ViewOf(Walk(ts', r, s)) == Some(View(5, false, false, false))
  {
    var v := KERNEL_BASE + 0x1000;
    KernelSlots();
    RequestSlot(v, 0x5000, UCODE, false);
    var s, op := Split(v), Request(v, 0x5000, UCODE, false);
    assert op.frame == 5;
    hide Split, Request;
    WalkAfter({1, r}, ts, ts', 1, op, 1, s);
    WalkAfter({1, r}, ts, ts', 1, op, r, s);
    TrailIsProper(ts, 1, s);
    TrailIsProper(ts, r, s);
    hide TrailOf, MapEffect;
  }

  lemma SpaceShares(ts: Tables, ts': Tables, r: nat)
    requires SpaceEffect({1}, ts, ts', 1, r) && Walk(ts, 1, Split(KERNEL_BASE + 0x1000)) == Unmapped
    ensures Walk(ts', 1, Split(KERNEL_BASE + 0x1000)) == Unmapped
    ensures Get(ts', r, KERNEL_HALF) == Get(ts', 1, KERNEL_HALF) == Get(ts, 1, KERNEL_HALF)
  {
    TopInSpace({1}, ts, ts', 1, r, 1, KERNEL_HALF);
    hide Split, TrailOf;
  }

  /**
   Data is mapped and a program starts, its root in a new page: both roots lead to the same table, with NX and
   without USER.
   */
  method DataThenSpace() returns (a: AddressSpaces, r: nat)
    ensures fresh(a) && a.Valid() && r != 1 && Roots(a.ids) == {1, r} && a.PagesLeft() > 2
    ensures Walk(a.tables, 1, Split(KERNEL_BASE + 0x1000)) == Unmapped
    ensures var e := Get(a.tables, 1, KERNEL_HALF); e == UpperOf(KDATA, e.frame) && Get(a.tables, r, KERNEL_HALF) == e
  {
    hide Tree, Split, TrailOf, MapEffect, SpaceEffect, Request, AlignUp, AddressSpaces.PagesLeft, Empty;
    a := Boot();
    NothingMapped(1, Split(KERNEL_BASE));
    ghost var t0 := a.tables;
    var one := a.MapPage(1, KERNEL_BASE, 0x4000, KDATA, false);
    ghost var t1 := a.tables;
    FirstMapping(t0, t1, KDATA);
    hide Walk;
    TreeKeys(a.tables, a.ids);
    assert 1 in Roots(a.ids);
    var page := a.AllocPage();
    r := page.value;
    a.NewSpace(1, r);
    SpaceShares(t1, a.tables, r);
  }

  /**
   Then code is mapped through the kernel's root next to the data: the kernel's own address space may run it, in user
   mode too, and the program's may not.
   */
  method DataThenSpaceThenCode() returns (a: AddressSpaces, r: nat)
    ensures r != 1 && Roots(a.ids) == {1, r}
    ensures var s := Split(KERNEL_BASE + 0x1000);
            && ViewOf(Walk(a.tables, 1, s)) == Some(View(5, false, true, true))
            && ViewOf(Walk(a.tables, r, s)) == Some(View(5, false, false, false))
  {
    a, r := DataThenSpace();
    hide Split, Walk, MapEffect, Request, ViewOf, Tree, AlignUp;
    ghost var t2 := a.tables;
    var two := a.MapPage(1, KERNEL_BASE + 0x1000, 0x5000, UCODE, false);
    CodeBesideData(t2, a.tables, r);
  }
}
