/**
 What every address space shows after any run of mappings and new address spaces: a flat map, read off the run
 alone.
 */
module PagingViews {
  import opened Machine
  import opened PageTables
  import opened Paging
  import opened PagingRuns

  /** Which directory-pointer table a PML4 entry leads to: one that was there at the start, or the one event k made. */
  datatype Group = Initial(frame: nat) | Made(k: nat)

  datatype Rights = Rights(exe: bool, user: bool)

  /** The group of a PML4 entry after the run: an absent entry gets its own, and a new space shares the kernel's. */
  function GroupOf(a: Spaces, run: seq<Event>, r: nat, i: Index): Option<Group>
    decreases |run|
  {
    if run == [] then
      var e := Get(a.tables, r, i);
      if r in a.roots && e.present then Some(Initial(e.frame)) else None
    else
      var n := |run| - 1;
      match run[n]
      case Map(root, op) =>
        var g := GroupOf(a, run[..n], r, i);
        if r == root && i == op.s.i4 && g.None? then Some(Made(n)) else g
      case Space(kernel, q) =>
        if r != q then GroupOf(a, run[..n], r, i)
        else if i < KERNEL_HALF then None
        else GroupOf(a, run[..n], kernel, i)
  }

  /** The rights of a PML4 entry after the run: each mapping through it adds what it asks for. */
  function TopRights(a: Spaces, run: seq<Event>, r: nat, i: Index): Rights
    decreases |run|
  {
    if run == [] then
      var e := Get(a.tables, r, i);
      Rights(e.present && !e.nx, e.present && e.user)
    else
      var n := |run| - 1;
      match run[n]
      case Map(root, op) =>
        var t := TopRights(a, run[..n], r, i);
        if r == root && i == op.s.i4 then Rights(t.exe || op.fl.exe, t.user || op.fl.user) else t
      case Space(kernel, q) =>
        if r != q then TopRights(a, run[..n], r, i)
        else if i < KERNEL_HALF then Rights(false, false)
        else TopRights(a, run[..n], kernel, i)
  }

  /** The latest mapping of the run that covers s, among those made through an entry of the group. */
  function LatestIn(a: Spaces, run: seq<Event>, g: Group, s: Slot): Option<Mapping>
    decreases |run|
  {
    if run == [] then None
    else
      var n := |run| - 1;
      match run[n]
      case Map(root, op) =>
        if Covers(op, s) && GroupOf(a, run, root, s.i4) == Some(g) then Some(op) else LatestIn(a, run[..n], g, s)
      case Space(_, _) => LatestIn(a, run[..n], g, s)
  }

  /** The walk at the start through a directory-pointer table. */
  function StartWalk(a: Spaces, frame: nat, s: Slot): Path {
    PathOf(Under(a.tables, ZERO.(present := true, frame := frame), s))
  }

  /** What root r shows at s after the run. */
  function Expected(a: Spaces, run: seq<Event>, r: nat, s: Slot): Option<View> {
    var top := TopRights(a, run, r, s.i4);
    match GroupOf(a, run, r, s.i4)
    case None => None
    case Some(g) =>
      match LatestIn(a, run, g, s)
      case Some(op) => Some(View(op.frame, op.large, op.fl.exe && top.exe, op.fl.user && top.user))
      case None =>
        match g
        case Made(_) => None
        case Initial(frame) =>
          var p := StartWalk(a, frame, s);
          if p.Unmapped? then None else Some(Seen(Leaf(p), p.Large?, top.exe, top.user))
  }

  lemma {:induction false} GroupBound(a: Spaces, run: seq<Event>, r: nat, i: Index)
    ensures GroupOf(a, run, r, i).Some? && GroupOf(a, run, r, i).value.Made? ==> GroupOf(a, run, r, i).value.k < |run|
    decreases |run|
  {
    if run != [] {
      var n := |run| - 1;
      GroupBound(a, run[..n], r, i);
      if run[n].Space? {
        GroupBound(a, run[..n], run[n].kernel, i);
      }
    }
  }

  /** No mapping went through a group that does not exist yet. */
  lemma {:induction false} LatestBound(a: Spaces, run: seq<Event>, k: nat, s: Slot)
    requires k >= |run|
    ensures LatestIn(a, run, Made(k), s) == None
    decreases |run|
  {
    if run != [] {
      var n := |run| - 1;
      LatestBound(a, run[..n], k, s);
      if run[n].Map? {
        GroupBound(a, run, run[n].root, s.i4);
      }
    }
  }

  // ---- the tables follow the run ----

  ghost predicate TopTracks(a: Spaces, run: seq<Event>, b: Spaces, r: nat, i: Index) {
    var e := Get(b.tables, r, i);
    && (e.present <==> GroupOf(a, run, r, i).Some?)
    && (e.present ==> Rights(!e.nx, e.user) == TopRights(a, run, r, i))
    && (!e.present ==> TopRights(a, run, r, i) == Rights(false, false))
  }

  ghost predicate GroupsTrack(a: Spaces, run: seq<Event>, b: Spaces, r: nat, q: nat, i: Index) {
    var e, d := Get(b.tables, r, i), Get(b.tables, q, i);
    e.present && d.present ==> (e.frame == d.frame <==> GroupOf(a, run, r, i) == GroupOf(a, run, q, i))
  }

  ghost predicate LeafTracks(a: Spaces, run: seq<Event>, b: Spaces, r: nat, s: Slot) {
    var p := Walk(b.tables, r, s);
    && LowerGrants(p)
    && (GroupOf(a, run, r, s.i4).Some? ==> LeafIs(a, run, GroupOf(a, run, r, s.i4).value, s, p))
  }

  predicate LeafIs(a: Spaces, run: seq<Event>, g: Group, s: Slot, p: Path) {
    match LatestIn(a, run, g, s)
    case Some(op) => EndsAt(p, op)
    case None =>
      match g
      case Made(_) => p.Unmapped?
      case Initial(frame) => SameLeaf(StartWalk(a, frame, s), p)
  }

  ghost predicate Tracks(a: Spaces, run: seq<Event>, b: Spaces) {
    && (forall r, i: Index :: r in b.roots ==> TopTracks(a, run, b, r, i))
    && (forall r, q, i: Index :: r in b.roots && q in b.roots ==> GroupsTrack(a, run, b, r, q, i))
    && (forall r, s: Slot :: r in b.roots ==> LeafTracks(a, run, b, r, s))
  }

  /** At the start no entry below a PML4 entry withholds what a leaf grants. */
  ghost predicate Sound(a: Spaces) {
    forall r, s: Slot :: r in a.roots ==> LowerGrants(Walk(a.tables, r, s))
  }

  lemma TracksStart(a: Spaces)
    requires Sound(a)
    ensures Tracks(a, [], a)
  {
    forall r, s: Slot | r in a.roots ensures LeafTracks(a, [], a, r, s) {
      assert LowerGrants(Walk(a.tables, r, s));
    }
  }

  /** What a tracked address space shows is what the run says. */
  lemma TrackedView(a: Spaces, run: seq<Event>, b: Spaces, r: nat, s: Slot)
    requires r in b.roots && TopTracks(a, run, b, r, s.i4) && LeafTracks(a, run, b, r, s)
    ensures ViewOf(Walk(b.tables, r, s)) == Expected(a, run, r, s)
  {
    TrailIsProper(b.tables, r, s);
    ViewThroughTop(Walk(b.tables, r, s));
    hide TrailOf, StartWalk, GroupOf, LatestIn, TopRights;
  }

  // ---- one mapping ----

  /** The run with one more event, and what its functions make of it. */
  lemma GroupAfterMap(a: Spaces, run: seq<Event>, root: nat, op: Mapping, r: nat, i: Index)
    ensures var g := GroupOf(a, run, r, i);
            GroupOf(a, run + [Map(root, op)], r, i) ==
            if r == root && i == op.s.i4 && g.None? then Some(Made(|run|)) else g
    ensures var t := TopRights(a, run, r, i);
            TopRights(a, run + [Map(root, op)], r, i) ==
            if r == root && i == op.s.i4 then Rights(t.exe || op.fl.exe, t.user || op.fl.user) else t
  {
    assert (run + [Map(root, op)])[..|run|] == run;
  }

  lemma LatestAfterMap(a: Spaces, run: seq<Event>, root: nat, op: Mapping, g: Group, s: Slot)
    ensures var after := run + [Map(root, op)];
            LatestIn(a, after, g, s) ==
            if Covers(op, s) && GroupOf(a, after, root, s.i4) == Some(g) then Some(op) else LatestIn(a, run, g, s)
  {
    assert (run + [Map(root, op)])[..|run|] == run;
  }

  lemma TopMap(a: Spaces, run: seq<Event>, b: Spaces, c: Spaces, root: nat, op: Mapping, r: nat, i: Index)
    requires Step(b, Map(root, op), c) && r in b.roots && TopTracks(a, run, b, r, i)
    ensures TopTracks(a, run + [Map(root, op)], c, r, i)
  {
    TopAfter(b.roots, b.tables, c.tables, root, op, r, i);
    GroupAfterMap(a, run, root, op, r, i);
    hide Step, GroupOf, TopRights;
  }

  lemma GroupsMap(a: Spaces, run: seq<Event>, b: Spaces, c: Spaces, root: nat, op: Mapping, r: nat, q: nat, i: Index)
    requires Step(b, Map(root, op), c) && r in b.roots && q in b.roots && GroupsTrack(a, run, b, r, q, i)
    requires TopTracks(a, run, b, r, i) && TopTracks(a, run, b, q, i) && TopTracks(a, run, b, root, i)
    ensures GroupsTrack(a, run + [Map(root, op)], c, r, q, i)
  {
    TopAfter(b.roots, b.tables, c.tables, root, op, r, i);
    TopAfter(b.roots, b.tables, c.tables, root, op, q, i);
    GroupAfterMap(a, run, root, op, r, i);
    GroupAfterMap(a, run, root, op, q, i);
    GroupBound(a, run, r, i);
    GroupBound(a, run, q, i);
    if i == op.s.i4 && !Get(b.tables, root, i).present && r != q && (r == root || q == root) {
      assert !SharePdp(c.tables, if r == root then q else r, root, i);
    }
    hide Step, GroupOf, TopRights;
  }

  lemma LeafMap(a: Spaces, run: seq<Event>, b: Spaces, c: Spaces, root: nat, op: Mapping, r: nat, s: Slot)
    requires Step(b, Map(root, op), c) && r in b.roots && LeafTracks(a, run, b, r, s)
    requires TopTracks(a, run, b, r, s.i4) && TopTracks(a, run, b, root, s.i4) && GroupsTrack(a, run, b, r, root, s.i4)
    ensures LeafTracks(a, run + [Map(root, op)], c, r, s)
  {
    WalkAfter(b.roots, b.tables, c.tables, root, op, r, s);
    GrantsKept(b.roots, b.tables, c.tables, root, op, r, s);
    TrailIsProper(b.tables, r, s);
    GroupAfterMap(a, run, root, op, r, s.i4);
    GroupAfterMap(a, run, root, op, root, s.i4);
    GroupBound(a, run, r, s.i4);
    hide Step, TrailOf, StartWalk, GroupOf, TopRights, LowerGrants;
    var after := run + [Map(root, op)];
    if GroupOf(a, after, r, s.i4).Some? {
      var g := GroupOf(a, after, r, s.i4).value;
      LatestAfterMap(a, run, root, op, g, s);
      LatestBound(a, run, |run|, s);
      hide LatestIn;
    }
  }

  lemma TracksMap(a: Spaces, run: seq<Event>, b: Spaces, c: Spaces, root: nat, op: Mapping)
    requires Step(b, Map(root, op), c) && Tracks(a, run, b)
    ensures Tracks(a, run + [Map(root, op)], c)
  {
    hide TopTracks, GroupsTrack, LeafTracks, MapEffect;
    var after := run + [Map(root, op)];
    forall r, i: Index | r in c.roots ensures TopTracks(a, after, c, r, i) {
      TopMap(a, run, b, c, root, op, r, i);
    }
    forall r, q, i: Index | r in c.roots && q in c.roots ensures GroupsTrack(a, after, c, r, q, i) {
      GroupsMap(a, run, b, c, root, op, r, q, i);
    }
    forall r, s: Slot | r in c.roots ensures LeafTracks(a, after, c, r, s) {
      LeafMap(a, run, b, c, root, op, r, s);
    }
  }

  // ---- one new address space ----

  /** The root whose entries r has after the event. */
  function Source(kernel: nat, q: nat, r: nat): nat {
    if r == q then kernel else r
  }

  lemma AfterSpace(a: Spaces, run: seq<Event>, kernel: nat, q: nat, r: nat, i: Index)
    ensures var after := run + [Space(kernel, q)];
            && GroupOf(a, after, r, i) ==
               (if r == q && i < KERNEL_HALF then None else GroupOf(a, run, Source(kernel, q, r), i))
            && TopRights(a, after, r, i) ==
               (if r == q && i < KERNEL_HALF then Rights(false, false) else TopRights(a, run, Source(kernel, q, r), i))
            && forall g, s: Slot :: LatestIn(a, after, g, s) == LatestIn(a, run, g, s)
  {
    assert (run + [Space(kernel, q)])[..|run|] == run;
  }

  lemma TracksSpace(a: Spaces, run: seq<Event>, b: Spaces, c: Spaces, kernel: nat, q: nat)
    requires Step(b, Space(kernel, q), c) && Tracks(a, run, b)
    ensures Tracks(a, run + [Space(kernel, q)], c)
  {
    hide TopTracks, GroupsTrack, LeafTracks, SpaceEffect;
    var after := run + [Space(kernel, q)];
    forall r, i: Index | r in c.roots ensures TopTracks(a, after, c, r, i) {
      TopSpace(a, run, b, c, kernel, q, r, i);
    }
    forall r, p, i: Index | r in c.roots && p in c.roots ensures GroupsTrack(a, after, c, r, p, i) {
      GroupsSpace(a, run, b, c, kernel, q, r, p, i);
    }
    forall r, s: Slot | r in c.roots ensures LeafTracks(a, after, c, r, s) {
      LeafSpace(a, run, b, c, kernel, q, r, s);
    }
  }

  lemma TopSpace(a: Spaces, run: seq<Event>, b: Spaces, c: Spaces, kernel: nat, q: nat, r: nat, i: Index)
    requires Step(b, Space(kernel, q), c) && r in c.roots && TopTracks(a, run, b, Source(kernel, q, r), i)
    ensures TopTracks(a, run + [Space(kernel, q)], c, r, i)
  {
    TopInSpace(b.roots, b.tables, c.tables, kernel, q, r, i);
    AfterSpace(a, run, kernel, q, r, i);
    hide GroupOf, TopRights, LatestIn, SpaceEffect;
  }

  lemma GroupsSpace(a: Spaces, run: seq<Event>, b: Spaces, c: Spaces, kernel: nat, q: nat, r: nat, p: nat, i: Index)
    requires Step(b, Space(kernel, q), c) && r in c.roots && p in c.roots
    requires GroupsTrack(a, run, b, Source(kernel, q, r), Source(kernel, q, p), i)
    ensures GroupsTrack(a, run + [Space(kernel, q)], c, r, p, i)
  {
    TopInSpace(b.roots, b.tables, c.tables, kernel, q, r, i);
    TopInSpace(b.roots, b.tables, c.tables, kernel, q, p, i);
    AfterSpace(a, run, kernel, q, r, i);
    AfterSpace(a, run, kernel, q, p, i);
    hide GroupOf, TopRights, LatestIn, SpaceEffect;
  }

  lemma LeafSpace(a: Spaces, run: seq<Event>, b: Spaces, c: Spaces, kernel: nat, q: nat, r: nat, s: Slot)
    requires Step(b, Space(kernel, q), c) && r in c.roots && LeafTracks(a, run, b, Source(kernel, q, r), s)
    ensures LeafTracks(a, run + [Space(kernel, q)], c, r, s)
  {
    AfterSpace(a, run, kernel, q, r, s.i4);
    assert r != q ==> TrailOf(c.tables, r, s) == TrailOf(b.tables, r, s);
    assert r == q ==>
             TrailOf(c.tables, r, s) ==
             if s.i4 < KERNEL_HALF then Trail(ZERO, ZERO, ZERO, ZERO) else TrailOf(b.tables, kernel, s);
    hide GroupOf, TopRights, TrailOf, SpaceEffect, StartWalk;
  }

  // ---- any run ----

  lemma {:induction false} RunTracks(states: seq<Spaces>, run: seq<Event>)
    requires Run(states, run) && |states| == |run| + 1 && Sound(states[0])
    ensures Tracks(states[0], run, states[|run|])
  {
    hide Tracks, Step, Sound;
    if run == [] {
      TracksStart(states[0]);
    } else {
      var n := |run| - 1;
      RunPrefix(states, run);
      RunTracks(states[..n + 1], run[..n]);
      assert run[..n] + [run[n]] == run;
      match run[n] {
        case Map(root, op) => TracksMap(states[0], run[..n], states[n], states[n + 1], root, op);
        case Space(kernel, q) => TracksSpace(states[0], run[..n], states[n], states[n + 1], kernel, q);
      }
    }
  }

  /**
   After any run of mappings through any roots and of new address spaces, every page of every address space has the
   frame, the size and the rights that the run itself says: those of the latest mapping made through an entry that
   leads to the same table, seen through the rights the address space's own PML4 entry has gathered.
   */
  lemma RunRefinesFlatMap(states: seq<Spaces>, run: seq<Event>, r: nat, s: Slot)
    requires Run(states, run) && |states| == |run| + 1 && Sound(states[0]) && r in states[|run|].roots
    ensures ViewOf(Walk(states[|run|].tables, r, s)) == Expected(states[0], run, r, s)
  {
    RunTracks(states, run);
    TrackedView(states[0], run, states[|run|], r, s);
  }

  // ---- runs through one root ----

  /** The last mapping of the run that covers s. */
  function Latest(run: seq<Event>, s: Slot): Option<Mapping> {
    if run == [] then None
    else
      var e := run[|run| - 1];
      if e.Map? && Covers(e.op, s) then Some(e.op) else Latest(run[..|run| - 1], s)
  }

  /**
   An address space that is only ever mapped through its own root shows each page exactly as its latest mapping
   asked.
   */
  lemma {:induction false} OwnMappingsDecide(states: seq<Spaces>, run: seq<Event>, r: nat, s: Slot)
    requires Run(states, run) && |states| == |run| + 1 && r in states[0].roots
    requires LowerGrants(Walk(states[0].tables, r, s)) && TopGrants(Walk(states[0].tables, r, s))
    requires forall i :: 0 <= i < |run| && run[i].Map? ==> run[i].root == r
    ensures LowerGrants(Walk(states[|run|].tables, r, s)) && TopGrants(Walk(states[|run|].tables, r, s))
    ensures ViewOf(Walk(states[|run|].tables, r, s)) ==
            match Latest(run, s)
            case Some(op) => Some(View(op.frame, op.large, op.fl.exe, op.fl.user))
            case None => ViewOf(Walk(states[0].tables, r, s))
  {
    hide ViewOf, LowerGrants, TopGrants, TrailOf;
    if run != [] {
      var n := |run| - 1;
      RunPrefix(states, run);
      OwnMappingsDecide(states[..n + 1], run[..n], r, s);
      RootsStay(states[..n + 1], run[..n], r);
      if run[n].Map? {
        MapDecides(states[n].roots, states[n].tables, states[n + 1].tables, r, run[n].op, s);
      }
    }
  }
}
