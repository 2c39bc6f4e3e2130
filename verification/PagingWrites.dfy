/** Which pages of which address space may be written after any run, read off the run alone. */
module PagingWrites {
  import opened Machine
  import opened PageTables
  import opened Paging
  import opened PagingRuns
  import opened PagingViews

  /** RW of a PML4 entry after the run: the mapping that makes the entry decides, and a new space copies it. */
  function TopWrites(a: Spaces, run: seq<Event>, r: nat, i: Index): bool
    decreases |run|
  {
    if run == [] then Get(a.tables, r, i).present && Get(a.tables, r, i).rw
    else
      var n := |run| - 1;
      match run[n]
      case Map(root, op) =>
        if r == root && i == op.s.i4 && GroupOf(a, run[..n], r, i).None? then op.fl.rw
        else TopWrites(a, run[..n], r, i)
      case Space(kernel, q) =>
        if r != q then TopWrites(a, run[..n], r, i) else i >= KERNEL_HALF && TopWrites(a, run[..n], kernel, i)
  }

  /** The entries below a directory-pointer table at the start. */
  function StartTrail(a: Spaces, frame: nat, s: Slot): Trail {
    Under(a.tables, ZERO.(present := true, frame := frame), s)
  }

  /** The last event of the run is a mapping through an entry of the group, in the same 1 GiB as s. */
  predicate LandsIn(a: Spaces, run: seq<Event>, g: Group, s: Slot)
    requires run != []
  {
    match run[|run| - 1]
    case Map(root, op) => op.s.i4 == s.i4 && op.s.i3 == s.i3 && GroupOf(a, run, root, s.i4) == Some(g)
    case Space(_, _) => false
  }

  /** RW of the group's directory-pointer entry above s, if there is one: whoever made it decided. */
  function ThirdWrites(a: Spaces, run: seq<Event>, g: Group, s: Slot): Option<bool>
    decreases |run|
  {
    if run == [] then
      match g
      case Made(_) => None
      case Initial(frame) => var e3 := StartTrail(a, frame, s).e3; if e3.present then Some(e3.rw) else None
    else
      var n := |run| - 1;
      var before := ThirdWrites(a, run[..n], g, s);
      if before.None? && LandsIn(a, run, g, s) then Some(run[n].op.fl.rw) else before
  }

  /** The same for the directory entry, while it leads to a page table: a 2 MiB page puts an end to it. */
  function SecondWrites(a: Spaces, run: seq<Event>, g: Group, s: Slot): Option<bool>
    decreases |run|
  {
    if run == [] then
      match g
      case Made(_) => None
      case Initial(frame) =>
        var e2 := StartTrail(a, frame, s).e2; if e2.present && !e2.huge then Some(e2.rw) else None
    else
      var n := |run| - 1;
      var before := SecondWrites(a, run[..n], g, s);
      if !LandsIn(a, run, g, s) || run[n].op.s.i2 != s.i2 then before
      else if run[n].op.large then None
      else if before.None? then Some(run[n].op.fl.rw)
      else before
  }

  /** The page at s in the group, if there is one: whether it was asked for writable, and whether it is large. */
  function LeafWrites(a: Spaces, run: seq<Event>, g: Group, s: Slot): Option<(bool, bool)> {
    match LatestIn(a, run, g, s)
    case Some(op) => Some((op.fl.rw, op.large))
    case None =>
      match g
      case Made(_) => None
      case Initial(frame) =>
        var p := StartWalk(a, frame, s); if p.Unmapped? then None else Some((Leaf(p).rw, p.Large?))
  }

  /** Root r may write to the page at s: every entry on the way was made writable. */
  predicate MayWrite(a: Spaces, run: seq<Event>, r: nat, s: Slot) {
    match GroupOf(a, run, r, s.i4)
    case None => false
    case Some(g) =>
      match LeafWrites(a, run, g, s)
      case None => false
      case Some(leaf) =>
        && leaf.0 && TopWrites(a, run, r, s.i4) && ThirdWrites(a, run, g, s) == Some(true)
        && (leaf.1 || SecondWrites(a, run, g, s) == Some(true))
  }

  // ---- the entries keep to it ----

  predicate UppersAre(a: Spaces, run: seq<Event>, g: Group, s: Slot, t: Trail) {
    && ThirdWrites(a, run, g, s) == (if t.e3.present then Some(t.e3.rw) else None)
    && SecondWrites(a, run, g, s) == (if t.e2.present && !t.e2.huge then Some(t.e2.rw) else None)
  }

  ghost predicate UppersTrack(a: Spaces, run: seq<Event>, b: Spaces, r: nat, s: Slot) {
    var t := TrailOf(b.tables, r, s);
    && (t.e4.present ==> (t.e4.rw <==> TopWrites(a, run, r, s.i4)))
    && (GroupOf(a, run, r, s.i4).Some? ==> UppersAre(a, run, GroupOf(a, run, r, s.i4).value, s, t))
  }

  ghost predicate WritesTrack(a: Spaces, run: seq<Event>, b: Spaces) {
    forall r, s: Slot :: r in b.roots ==> UppersTrack(a, run, b, r, s)
  }

  lemma WritesStart(a: Spaces)
    ensures WritesTrack(a, [], a)
  {
  }

  /** Nothing is above a page in a group that does not exist yet. */
  lemma {:induction false} UppersBound(a: Spaces, run: seq<Event>, k: nat, s: Slot)
    requires k >= |run|
    ensures ThirdWrites(a, run, Made(k), s) == None && SecondWrites(a, run, Made(k), s) == None
    decreases |run|
  {
    if run != [] {
      var n := |run| - 1;
      UppersBound(a, run[..n], k, s);
      if run[n].Map? {
        GroupBound(a, run, run[n].root, s.i4);
      }
    }
  }

  lemma UppersAfterMap(a: Spaces, run: seq<Event>, root: nat, op: Mapping, r: nat, g: Group, s: Slot)
    ensures var after := run + [Map(root, op)];
            var lands := op.s.i4 == s.i4 && op.s.i3 == s.i3 && GroupOf(a, after, root, s.i4) == Some(g);
            var third, second := ThirdWrites(a, run, g, s), SecondWrites(a, run, g, s);
            && TopWrites(a, after, r, s.i4) ==
               (if r == root && s.i4 == op.s.i4 && GroupOf(a, run, r, s.i4).None? then op.fl.rw
                else TopWrites(a, run, r, s.i4))
            && ThirdWrites(a, after, g, s) == (if lands && third.None? then Some(op.fl.rw) else third)
            && SecondWrites(a, after, g, s) ==
               (if !lands || op.s.i2 != s.i2 then second
                else if op.large then None
                else if second.None? then Some(op.fl.rw)
                else second)
  {
    var after := run + [Map(root, op)];
    assert after[..|run|] == run;
    hide GroupOf;
  }

  /** One trail: what the mapping makes of the entries above the page. */
  lemma UppersAfter(t: Trail, t': Trail, op: Mapping, s: Slot, mine: bool)
    requires Proper(t) && t' == TrailAfter(t, t', op, s, mine) && (mine || t.e4.present) && op.s.i4 == s.i4
    requires s.i3 == op.s.i3 && s.i2 == op.s.i2 ==> NothingLarge(t, op)
    ensures t'.e4.rw == if mine && !t.e4.present then op.fl.rw else t.e4.rw
    ensures t'.e3.present == (t.e3.present || s.i3 == op.s.i3)
    ensures t'.e3.present ==> t'.e3.rw == if t.e3.present then t.e3.rw else op.fl.rw
    ensures var second := s.i3 == op.s.i3 && s.i2 == op.s.i2;
            && (!second ==> t'.e2 == t.e2)
            && (second && op.large ==> t'.e2.huge)
            && (second && !op.large ==>
                  && t'.e2.present && !t'.e2.huge
                  && t'.e2.rw == if t.e2.present then t.e2.rw else op.fl.rw)
  {
  }

  /** A mapping that was made had no large page in its way, in whichever root one looks. */
  lemma NothingInTheWay(roots: set<nat>, ts: Tables, ts': Tables, root: nat, op: Mapping, r: nat, s: Slot)
    requires MapEffect(roots, ts, ts', root, op) && s.i4 == op.s.i4 && Reaches(ts, r, root, s.i4)
    ensures s.i3 == op.s.i3 && s.i2 == op.s.i2 ==> NothingLarge(TrailOf(ts, r, s), op)
  {
    if r != root {
      SharedTrail(ts, r, root, s);
    }
    SecondLarge(ts, root, op.s, s);
  }

  lemma UppersMap(a: Spaces, run: seq<Event>, b: Spaces, c: Spaces, root: nat, op: Mapping, r: nat, s: Slot)
    requires Step(b, Map(root, op), c) && r in b.roots && UppersTrack(a, run, b, r, s)
    requires TopTracks(a, run, b, r, s.i4) && TopTracks(a, run, b, root, s.i4) && GroupsTrack(a, run, b, r, root, s.i4)
    ensures UppersTrack(a, run + [Map(root, op)], c, r, s)
  {
    var t, t' := TrailOf(b.tables, r, s), TrailOf(c.tables, r, s);
    var after := run + [Map(root, op)];
    WalkAfter(b.roots, b.tables, c.tables, root, op, r, s);
    TrailIsProper(b.tables, r, s);
    GroupAfterMap(a, run, root, op, r, s.i4);
    GroupAfterMap(a, run, root, op, root, s.i4);
    GroupBound(a, run, r, s.i4);
    UppersBound(a, run, |run|, s);
    var g := if GroupOf(a, after, r, s.i4).Some? then GroupOf(a, after, r, s.i4).value else Made(0);
    UppersAfterMap(a, run, root, op, r, g, s);
    hide MapEffect, TrailOf, GroupOf, TopRights, TopWrites, ThirdWrites, SecondWrites, TrailAfter;
    if s.i4 == op.s.i4 && Reaches(b.tables, r, root, s.i4) {
      NothingInTheWay(b.roots, b.tables, c.tables, root, op, r, s);
      UppersAfter(t, t', op, s, r == root);
    }
  }

  lemma UppersAfterSpace(a: Spaces, run: seq<Event>, kernel: nat, q: nat, r: nat, s: Slot)
    ensures var after := run + [Space(kernel, q)];
            && TopWrites(a, after, r, s.i4) ==
               (if r == q && s.i4 < KERNEL_HALF then false else TopWrites(a, run, Source(kernel, q, r), s.i4))
            && forall g :: ThirdWrites(a, after, g, s) == ThirdWrites(a, run, g, s)
                        && SecondWrites(a, after, g, s) == SecondWrites(a, run, g, s)
  {
    assert (run + [Space(kernel, q)])[..|run|] == run;
  }

  lemma UppersSpace(a: Spaces, run: seq<Event>, b: Spaces, c: Spaces, kernel: nat, q: nat, r: nat, s: Slot)
    requires Step(b, Space(kernel, q), c) && r in c.roots && UppersTrack(a, run, b, Source(kernel, q, r), s)
    ensures UppersTrack(a, run + [Space(kernel, q)], c, r, s)
  {
    AfterSpace(a, run, kernel, q, r, s.i4);
    UppersAfterSpace(a, run, kernel, q, r, s);
    assert r != q ==> TrailOf(c.tables, r, s) == TrailOf(b.tables, r, s);
    assert r == q ==>
             TrailOf(c.tables, r, s) ==
             if s.i4 < KERNEL_HALF then Trail(ZERO, ZERO, ZERO, ZERO) else TrailOf(b.tables, kernel, s);
    hide GroupOf, TopRights, TrailOf, SpaceEffect, TopWrites, ThirdWrites, SecondWrites;
  }

  lemma WritesStep(a: Spaces, run: seq<Event>, b: Spaces, e: Event, c: Spaces)
    requires Step(b, e, c) && Tracks(a, run, b) && WritesTrack(a, run, b)
    ensures WritesTrack(a, run + [e], c)
  {
    hide UppersTrack, TopTracks, GroupsTrack, LeafTracks, MapEffect, SpaceEffect;
    forall r, s: Slot | r in c.roots ensures UppersTrack(a, run + [e], c, r, s) {
      match e {
        case Map(root, op) => UppersMap(a, run, b, c, root, op, r, s);
        case Space(kernel, q) => UppersSpace(a, run, b, c, kernel, q, r, s);
      }
    }
  }

  lemma {:induction false} RunWrites(states: seq<Spaces>, run: seq<Event>)
    requires Run(states, run) && |states| == |run| + 1 && Sound(states[0])
    ensures WritesTrack(states[0], run, states[|run|])
  {
    hide Tracks, WritesTrack, Step, Sound;
    if run == [] {
      WritesStart(states[0]);
    } else {
      var n := |run| - 1;
      RunPrefix(states, run);
      RunTracks(states[..n + 1], run[..n]);
      RunWrites(states[..n + 1], run[..n]);
      assert run[..n] + [run[n]] == run;
      WritesStep(states[0], run[..n], states[n], run[n], states[n + 1]);
    }
  }

  /** One walk whose entries are as tracked is writable exactly when the run says so. */
  lemma TrackedWrite(a: Spaces, run: seq<Event>, b: Spaces, r: nat, s: Slot)
    requires r in b.roots && TopTracks(a, run, b, r, s.i4)
    requires LeafTracks(a, run, b, r, s) && UppersTrack(a, run, b, r, s)
    ensures Writable(Walk(b.tables, r, s)) <==> MayWrite(a, run, r, s)
  {
    TrailIsProper(b.tables, r, s);
    hide GroupOf, TopRights, TrailOf, TopWrites, ThirdWrites, SecondWrites, LatestIn, LowerGrants, StartWalk;
  }

  /**
   After any run of mappings through any roots and of new address spaces, a page is writable in an address space exactly
   when the run says so: its latest mapping, and whoever made each entry above it, asked for RW.
   */
  lemma WritesReadOffRun(states: seq<Spaces>, run: seq<Event>, r: nat, s: Slot)
    requires Run(states, run) && |states| == |run| + 1 && Sound(states[0]) && r in states[|run|].roots
    ensures Writable(Walk(states[|run|].tables, r, s)) <==> MayWrite(states[0], run, r, s)
  {
    hide Writable, Walk, MayWrite, Sound, Run, TopTracks, LeafTracks, UppersTrack, GroupsTrack;
    RunTracks(states, run);
    RunWrites(states, run);
    TrackedWrite(states[0], run, states[|run|], r, s);
  }
}
