/**
 `realloc` among other threads (kernel/src/util/mm.cc): its three guarded calls are atomic, but its size query and its
 copy run without the lock.
 */
module ReallocRace {
  import opened Machine
  import opened HeapBlocks
  import opened HeapOps
  import opened HeapState
  import opened HeapRuns
  import opened LockedHeap

  /** Thread `tid` reallocates p to `newsize` bytes. */
  datatype Job = Job(tid: nat, p: nat, newsize: nat)

  /** How far it is. */
  datatype Phase =
    | Trying                                            // in `try_realloc`
    | Allocating                                        // in `alloc`
    | Sizing(q: nat, node: Option<nat>, addr: nat)      // in `get_size`, about to look at a descriptor
    | Copying(q: nat, n: nat, i: nat)                   // about to copy byte i of n
    | Freeing(q: nat)                                   // in `free`
    | Finished(ret: nat)

  /** The machine, the descriptors of the block list in list order, and the phase of the job. */
  datatype Race = Race(world: World, nodes: seq<nat>, phase: Phase)

  /** A move of the machine, with the descriptors it may take for new blocks, or one turn of the size query. */
  datatype Act = Do(m: Move, x: nat, y: nat) | Look

  // ---- descriptors ----

  predicate Unlike(nodes: seq<nat>) {
    forall i, j :: 0 <= i < j < |nodes| ==> nodes[i] != nodes[j]
  }

  function IndexOf(nodes: seq<nat>, d: nat): (k: nat)
    requires d in nodes
    ensures k < |nodes| && nodes[k] == d
  {
    if nodes[0] == d then 0 else 1 + IndexOf(nodes[1..], d)
  }

  lemma IndexIs(nodes: seq<nat>, k: nat)
    requires Unlike(nodes) && k < |nodes|
    ensures IndexOf(nodes, nodes[k]) == k
  {
  }

  function Inserted(nodes: seq<nat>, k: nat, x: nat): (r: seq<nat>)
    requires k <= |nodes|
    ensures |r| == |nodes| + 1
  {
    nodes[..k] + [x] + nodes[k..]
  }

  function Without(nodes: seq<nat>, lo: nat, hi: nat): (r: seq<nat>)
    requires lo <= hi <= |nodes|
    ensures |r| == |nodes| - (hi - lo)
  {
    nodes[..lo] + nodes[hi..]
  }

  lemma InsertedUnlike(nodes: seq<nat>, k: nat, x: nat)
    requires Unlike(nodes) && k <= |nodes| && x !in nodes
    ensures Unlike(Inserted(nodes, k, x))
    ensures forall y :: y in Inserted(nodes, k, x) ==> y == x || y in nodes
  {
    var r := Inserted(nodes, k, x);
    forall i, j | 0 <= i < j < |r| ensures r[i] != r[j] {
      assert i < k ==> r[i] == nodes[i];
      assert i > k ==> r[i] == nodes[i - 1];
      assert j < k ==> r[j] == nodes[j];
      assert j > k ==> r[j] == nodes[j - 1];
    }
  }

  lemma WithoutUnlike(nodes: seq<nat>, lo: nat, hi: nat)
    requires Unlike(nodes) && lo <= hi <= |nodes|
    ensures Unlike(Without(nodes, lo, hi))
  {
    var r := Without(nodes, lo, hi);
    forall i, j | 0 <= i < j < |r| ensures r[i] != r[j] {
      assert i >= lo ==> r[i] == nodes[i - lo + hi];
      assert j >= lo ==> r[j] == nodes[j - lo + hi];
    }
  }

  /** The descriptors after the list surgery of one step: what each split, growth and merge does to them. */
  function Relabelled(call: Call, pc: Pc, bs: seq<Block>, nodes: seq<nat>, x: nat, y: nat): seq<nat>
    requires |nodes| == |bs|
  {
    match pc
    case Edit(k, addr) =>
      if k >= |bs| then nodes
      else if Places(call) then
        if AlignOf(call) == 0 then nodes
        else
          var gap := Skip(addr, AlignOf(call));
          var front := if gap > 0 then Inserted(nodes, k, x) else nodes;
          if bs[k].length > gap + Wanted(call) then Inserted(front, |front| - |nodes| + k + 1, y) else front
      else if call.CTry? && CanGrow(bs, k, Wanted(call)) && bs[k + 1].length == Wanted(call) - bs[k].length then
        Without(nodes, k + 1, k + 2)
      else nodes
    case Join(k) =>
      if k >= |bs| then nodes else Without(nodes, k - LeftFree(bs, k) + 1, k + 1 + RightFree(bs, k))
    case _ => nodes
  }

  function NodesAfter(w: World, m: Move, nodes: seq<nat>, x: nat, y: nat): seq<nat>
    requires |nodes| == |w.heap.blocks|
  {
    if m.Access? && m.tid in w.threads && w.threads[m.tid].Inside?
    then Relabelled(w.threads[m.tid].call, w.threads[m.tid].pc, w.heap.blocks, nodes, x, y)
    else nodes
  }

  /** New descriptors are not in use. */
  predicate Unused(nodes: seq<nat>, x: nat, y: nat) {
    x !in nodes && y !in nodes && x != y
  }

  lemma PlacedSize(bs: seq<Block>, k: nat, gap: nat, n: nat)
    requires k < |bs| && gap + n <= bs[k].length
    ensures |Place(bs, k, gap, n)| == |bs| + (if gap > 0 then 1 else 0) + (if bs[k].length > gap + n then 1 else 0)
  {
  }

  lemma GrownSize(bs: seq<Block>, k: nat, n: nat)
    requires k < |bs| && CanGrow(bs, k, n)
    ensures |Grow(bs, k, n)| == |bs| - (if bs[k + 1].length == n - bs[k].length then 1 else 0)
  {
  }

  lemma EditFits(call: Call, k: nat, addr: nat, h: Heap, nodes: seq<nat>, x: nat, y: nat)
    requires |nodes| == |h.blocks| && Unlike(nodes) && Unused(nodes, x, y) && EditStep(call, k, addr, h).Done?
    ensures var after := Relabelled(call, Edit(k, addr), h.blocks, nodes, x, y);
            |after| == |EditStep(call, k, addr, h).value.1.blocks| && Unlike(after)
  {
    hide CheckOk, Skip, Wanted, AlignOf, Place, Grow, Inserted, Without, Unlike;
    if Places(call) {
      var gap := Skip(addr, AlignOf(call));
      PlacedSize(h.blocks, k, gap, Wanted(call));
      InsertedUnlike(nodes, k, x);
      var front := if gap > 0 then Inserted(nodes, k, x) else nodes;
      InsertedUnlike(front, |front| - |nodes| + k + 1, y);
    } else if call.CTry? && CanGrow(h.blocks, k, Wanted(call)) {
      GrownSize(h.blocks, k, Wanted(call));
      WithoutUnlike(nodes, k + 1, k + 2);
    }
  }

  lemma RelabelFits(call: Call, pc: Pc, h: Heap, nodes: seq<nat>, x: nat, y: nat)
    requires |nodes| == |h.blocks| && Unlike(nodes) && Unused(nodes, x, y) && !pc.Return? && Micro(call, pc, h).Done?
    ensures var after := Relabelled(call, pc, h.blocks, nodes, x, y);
            |after| == |Micro(call, pc, h).value.1.blocks| && Unlike(after)
  {
    hide EditStep, Without, Unlike, Total, StopsAt, Wanted;
    match pc
    case Edit(k, addr) => EditFits(call, k, addr, h, nodes, x, y);
    case Join(k) => WithoutUnlike(nodes, k - LeftFree(h.blocks, k) + 1, k + 1 + RightFree(h.blocks, k));
    case _ =>
  }

  // ---- the job ----

  /** Where the descriptor's block starts. */
  function StartOf(h: Heap, nodes: seq<nat>, d: nat): nat
    requires |nodes| == |h.blocks| && d in nodes
  {
    h.base + Total(h.blocks[..IndexOf(nodes, d)])
  }

  /** The guarded call of a phase. */
  function CallOf(job: Job, phase: Phase): Option<Call> {
    match phase
    case Trying => Some(CTry(job.p, job.newsize))
    case Allocating => Some(CAlloc(job.newsize))
    case Freeing(_) => Some(CFree(job.p))
    case _ => None
  }

  /** The thread does what `realloc` says: its guarded calls, and one byte after the other. */
  predicate Follows(job: Job, r: Race, m: Move) {
    match r.phase
    case Copying(q, n, i) =>
      if i < n then
        InHeap(r.world.heap, job.p + i, 1) && m == ClientStore(job.tid, q, i, Contents(r.world.heap, job.p + i, 1))
      else m == Begin(job.tid, CFree(job.p))
    case Freeing(_) => !m.Begin? && !m.ClientStore?
    case _ => CallOf(job, r.phase).Some? && !m.ClientStore? && (m.Begin? ==> m.call == CallOf(job, r.phase).value)
  }

  /** What the call that ends with this move returned. */
  function Returning(w: World, m: Move): nat {
    if m.Unlock? && m.tid in w.threads && w.threads[m.tid].Inside? && w.threads[m.tid].pc.Return?
    then w.threads[m.tid].pc.ret else 0
  }

  function PhaseAfter(job: Job, r: Race, m: Move): Phase {
    if m.tid != job.tid then r.phase
    else
      var ret := Returning(r.world, m);
      match r.phase
      case Copying(q, n, i) => if i < n then Copying(q, n, i + 1) else Freeing(q)
      case Trying => if !m.Unlock? then Trying else if ret != 0 then Finished(job.p) else Allocating
      case Allocating =>
        if !m.Unlock? then Allocating
        else Sizing(ret, if r.nodes == [] then None else Some(r.nodes[0]), r.world.heap.base)
      case Freeing(q) => if m.Unlock? then Finished(q) else r.phase
      case _ => r.phase
  }

  /** One turn of the loop of `get_size`: an unlinked descriptor has no next one. */
  function LookStep(job: Job, r: Race): Option<Outcome<Race>>
    requires |r.nodes| == |r.world.heap.blocks|
  {
    match r.phase
    case Sizing(q, Some(d), addr) =>
      if d !in r.nodes then Some(Halted)
      else
        var k := IndexOf(r.nodes, d);
        var length := r.world.heap.blocks[k].length;
        if addr == job.p - REDZONE then Some(Done(r.(phase := Copying(q, (length - 2 * REDZONE) % TWO64, 0))))
        else
          var next := if k + 1 < |r.nodes| then Some(r.nodes[k + 1]) else None;
          Some(Done(r.(phase := Sizing(q, next, addr + length))))
    case Sizing(_, None, _) => Some(Halted)
    case _ => None
  }

  /** One act; None when it cannot happen, Halted when it stops the machine. */
  function Advance(job: Job, r: Race, a: Act): Option<Outcome<Race>>
    requires |r.nodes| == |r.world.heap.blocks|
  {
    match a
    case Look => LookStep(job, r)
    case Do(m, x, y) =>
      if !Unused(r.nodes, x, y) || (m.tid == job.tid && !Follows(job, r, m)) then None
      else
        match Next(r.world, m)
        case Some(Done(v)) => Some(Done(Race(v, NodesAfter(r.world, m, r.nodes, x, y), PhaseAfter(job, r, m))))
        case Some(Halted) => Some(Halted)
        case None => None
  }

  // ---- what the other threads must not do ----

  predicate Names(call: Call, p: nat) {
    (call.CFree? || call.CTry?) && call.p == p
  }

  /** The new block, once the job has one. */
  predicate IsNew(phase: Phase, q: nat) {
    match phase
    case Sizing(n, _, _) => n == q
    case Copying(n, _, _) => n == q
    case Freeing(n) => n == q
    case Finished(n) => n == q
    case _ => false
  }

  /** The job's two blocks are its own business. */
  predicate Private(job: Job, phase: Phase, p: nat) {
    p == job.p || IsNew(phase, p)
  }

  ghost function Sequential(h: Heap, w: World): Heap
    requires Replay(h, w.done).Done?
  {
    Replay(h, w.done).value
  }

  /** The other threads name neither block in a call, and ask for nothing the allocator cannot do. */
  ghost predicate Civil(job: Job, h: Heap, r: Race)
    requires Replay(h, r.world.done).Done?
  {
    forall u :: u in r.world.threads && u != job.tid && !r.world.threads[u].Idle? ==>
      var call := r.world.threads[u].call;
      && (forall p :: Private(job, r.phase, p) ==> !Names(call, p))
      && (r.world.threads[u].Inside? ==> Allowed(Sequential(h, r.world), OpOf(Returned(u, call, 0))))
  }

  /** Nor do they store into them. */
  ghost predicate CivilAct(job: Job, h: Heap, r: Race, a: Act)
    requires Replay(h, r.world.done).Done?
  {
    a.Do? && a.m.ClientStore? && a.m.tid != job.tid ==>
      !Private(job, r.phase, a.m.p) && Allowed(Sequential(h, r.world), WriteOp(a.m.p, a.m.at, a.m.data))
  }

  /** The size query stands on a descriptor: no surgery moves the start of its block, or takes it out of the list. */
  predicate Steady(r: Race, r': Race) {
    && |r.nodes| == |r.world.heap.blocks| && |r'.nodes| == |r'.world.heap.blocks|
    && (r.phase.Sizing? && r.phase.node.Some? && r'.phase == r.phase ==>
          var d := r.phase.node.value;
          d in r.nodes ==> d in r'.nodes && StartOf(r'.world.heap, r'.nodes, d) == StartOf(r.world.heap, r.nodes, d))
  }

  // ---- what one call or store leaves of a block it does not name ----

  /** Extent f is live in both heaps, with the same bytes. */
  ghost predicate Same(g: Heap, g': Heap, f: Extent) {
    && f in g.Allocs() && f in g'.Allocs() && g'.base == g.base && |g'.mem| == |g.mem|
    && forall i :: 0 <= i < |g.mem| && f.start <= g.base + i < f.start + f.length ==> g'.mem[i] == g.mem[i]
  }

  lemma EffectSame(g: Heap, op: Op, g': Heap, e: Extent, f: Extent)
    requires Effect(g, op, g', e) && f in g.Allocs() && f.start + REDZONE != Target(op)
    ensures Inv(g') && Same(g, g', f)
  {
    hide Inv;
  }

  lemma CallSame(g: Heap, call: Call, f: Extent)
    requires Inv(g) && Allowed(g, OpOf(Returned(0, call, 0))) && Whole(call, g).Done?
    requires f in g.Allocs() && !Names(call, f.start + REDZONE)
    ensures Inv(Whole(call, g).value.heap) && Same(g, Whole(call, g).value.heap, f)
  {
    hide Inv, Allowed, Effect, Same, Alloc, AllocAligned, FreePtr, TryRealloc, Realloc, Live;
    var op := OpOf(Returned(0, call, 0));
    LiveInHeap(g, f);
    if call.CTry? {
      AllowedSize(g, call.p, call.newsize);
      var e := TryEffect(g, call.p, call.newsize);
      EffectSame(g, op, Whole(call, g).value.heap, e, f);
    } else {
      var e := StepEffect(g, op);
      EffectSame(g, op, Whole(call, g).value.heap, e, f);
    }
  }

  lemma LiveInHeap(g: Heap, f: Extent)
    requires Inv(g) && f in g.Allocs()
    ensures g.base <= f.start && f.start + f.length <= g.base + |g.mem| && f.length >= MIN_USED
  {
    LiveBounds(g.blocks, g.base, f);
  }

  lemma StoreSame(g: Heap, p: nat, at: nat, data: seq<Byte>, f: Extent)
    requires Inv(g) && Allowed(g, WriteOp(p, at, data)) && f in g.Allocs() && p != f.start + REDZONE
    ensures InHeap(g, p + at, |data|) && Inv(Written(g, p + at, data)) && Same(g, Written(g, p + at, data), f)
  {
    hide Inv, Allowed, Effect, Same, Live;
    var e := WriteEffect(g, p, at, data);
    EffectSame(g, WriteOp(p, at, data), Written(g, p + at, data), e, f);
  }

  // ---- the invariant ----

  /** Extent e is live and its usable bytes are these. */
  ghost predicate Holding(g: Heap, e: Extent, bytes: seq<Byte>) {
    && e in g.Allocs() && |bytes| == e.length - 2 * REDZONE && e.start >= 0
    && InHeap(g, e.start + REDZONE, |bytes|) && Contents(g, e.start + REDZONE, |bytes|) == bytes
  }

  /** The first bytes behind q, which is live, are these. */
  ghost predicate Delivered(g: Heap, q: nat, bytes: seq<Byte>) {
    exists f :: DeliveredIn(g, f, q, bytes)
  }

  ghost predicate DeliveredIn(g: Heap, f: Extent, q: nat, bytes: seq<Byte>) {
    && f in g.Allocs() && f.start + REDZONE == q && |bytes| <= f.length - 2 * REDZONE
    && InHeap(g, q, |bytes|) && Contents(g, q, |bytes|) == bytes
  }

  lemma HoldingKept(g: Heap, g': Heap, e: Extent, bytes: seq<Byte>)
    requires Holding(g, e, bytes) && Same(g, g', e)
    ensures Holding(g', e, bytes)
  {
  }

  lemma DeliveredKept(g: Heap, g': Heap, f: Extent, q: nat, bytes: seq<Byte>)
    requires DeliveredIn(g, f, q, bytes) && Same(g, g', f)
    ensures DeliveredIn(g', f, q, bytes)
  {
  }

  /** The size query is right so far: its address is where its descriptor's block starts, and e is not behind it. */
  ghost predicate WalkOk(h: Heap, nodes: seq<nat>, node: Option<nat>, addr: nat, e: Extent) {
    && |nodes| == |h.blocks| && Unlike(nodes) && e in h.Allocs()
    && node.Some? && node.value in nodes && addr == StartOf(h, nodes, node.value) <= e.start
  }

  /** f is the new block: another one, and longer. */
  ghost predicate Room(g: Heap, e: Extent, f: Extent, q: nat) {
    f in g.Allocs() && f != e && f.start + REDZONE == q && f.length >= e.length
  }

  ghost predicate PhaseOk(job: Job, g: Heap, h: Heap, nodes: seq<nat>, phase: Phase, e: Extent, f: Extent,
                          bytes: seq<Byte>) {
    match phase
    case Trying => Holding(g, e, bytes)
    case Allocating => Holding(g, e, bytes) && Padded(job.newsize) > e.length
    case Sizing(q, node, addr) => Holding(g, e, bytes) && Room(g, e, f, q) && WalkOk(h, nodes, node, addr, e)
    case Copying(q, n, i) =>
      Holding(g, e, bytes) && Room(g, e, f, q) && i <= n == |bytes| && DeliveredIn(g, f, q, bytes[..i])
    case Freeing(q) => Holding(g, e, bytes) && Room(g, e, f, q) && DeliveredIn(g, f, q, bytes)
    case Finished(ret) => DeliveredIn(g, f, ret, bytes)
  }

  /** The thread is in the guarded call of its phase, or in none. */
  predicate ThreadFits(job: Job, r: Race) {
    && job.tid in r.world.threads
    && var t := r.world.threads[job.tid];
       t.Idle? || CallOf(job, r.phase) == Some(t.call)
  }

  ghost predicate Good(job: Job, h: Heap, r: Race, e: Extent, f: Extent, bytes: seq<Byte>) {
    && Serial(h, r.world) && StoresOwned(h, r.world.done) && Inv(Sequential(h, r.world))
    && |r.nodes| == |r.world.heap.blocks| && Unlike(r.nodes) && ThreadFits(job, r)
    && e.start + REDZONE == job.p && job.p != 0 && job.newsize <= MAX_REQUEST
    && PhaseOk(job, Sequential(h, r.world), r.world.heap, r.nodes, r.phase, e, f, bytes)
  }

  // ---- the block is in the list at every moment ----

  /** In the middle of a call the list is the one before it or the one after it. */
  lemma MidBlocks(call: Call, h0: Heap, pc: Pc, h: Heap)
    requires OnWay(call, h0, pc, h)
    ensures h.base == h0.base
    ensures h.blocks == h0.blocks || (Whole(call, h0).Done? && h.blocks == Whole(call, h0).value.heap.blocks)
  {
    hide Whole, Enter, StopFrom, Total, Gentle, ClientByte;
    if !pc.Walk? && !pc.Edit? && !EndsInJoin(pc) {
      FinishBlocks(pc, h);
    }
  }

  lemma {:induction false} FinishBlocks(pc: Pc, h: Heap)
    requires Straight(pc) && !EndsInJoin(pc)
    ensures Finish(pc, h).Done? && Finish(pc, h).value.heap.blocks == h.blocks
    decreases pc
  {
    hide Fill;
    match pc
    case Book(d, next) => FinishBlocks(next, Booked(h, d));
    case Paint(off, next) => FinishBlocks(next, Painted(h, off));
    case _ =>
  }

  /** A block nobody is freeing or resizing is in the list of the shared heap, whoever holds the lock. */
  lemma InTheList(job: Job, h: Heap, r: Race, e: Extent)
    requires Serial(h, r.world) && Inv(Sequential(h, r.world)) && Civil(job, h, r)
    requires e in Sequential(h, r.world).Allocs() && e.start + REDZONE == job.p
    requires job.tid in r.world.threads && r.world.threads[job.tid].Idle?
    ensures e in r.world.heap.Allocs() && r.world.heap.base == Sequential(h, r.world).base
    ensures Shape(r.world.heap.blocks)
    ensures Quiet(Sequential(h, r.world), r.world.heap)
  {
    hide Inv, OnWay, Replay, Allowed, Names;
    var w, g := r.world, Sequential(h, r.world);
    SoundIsShaped(g);
    if w.lockvar != 0 {
      var u :| Holds(h, w, u);
      var call := w.threads[u].call;
      MidBlocks(call, g, w.threads[u].pc, w.heap);
      SameMemory(call, g, w.threads[u].pc, w.heap);
      assert Private(job, r.phase, job.p);
      if Whole(call, g).Done? {
        OpOfIs(u, call);
        CallSame(g, call, e);
        SoundIsShaped(Whole(call, g).value.heap);
      }
    }
  }

  lemma SoundIsShaped(g: Heap)
    requires Inv(g)
    ensures Shape(g.blocks)
  {
  }

  lemma OpOfIs(u: nat, call: Call)
    ensures OpOf(Returned(u, call, 0)) == OpOf(Returned(0, call, 0))
  {
  }

  // ---- one act ----

  lemma OwnedMore(h: Heap, done: seq<Event>, event: Event)
    requires StoresOwned(h, done) && Replay(h, done).Done?
    requires event.Wrote? ==> Allowed(Replay(h, done).value, WriteOp(event.p, event.at, event.data))
    ensures StoresOwned(h, done + [event])
  {
    assert (done + [event])[..|done|] == done;
  }

  /** What a move adds to the log. */
  function Logged(w: World, m: Move): seq<Event> {
    if m.tid !in w.threads then []
    else match (m, w.threads[m.tid])
      case (Unlock(t), Inside(call, Return(ret))) => [Returned(t, call, ret)]
      case (ClientStore(t, p, at, data), Idle) => [Wrote(t, p, at, data)]
      case _ => []
  }

  lemma LogOf(w: World, m: Move)
    requires Next(w, m).Some? && Next(w, m).value.Done?
    ensures Next(w, m).value.value.done == w.done + Logged(w, m)
  {
    hide Micro, Enter;
  }

  /** A logged event is what the sequential run does next. */
  lemma SequentialStep(h: Heap, w: World, m: Move)
    requires Serial(h, w) && StoresOwned(h, w.done) && Next(w, m).Some? && Next(w, m).value.Done?
    requires m.ClientStore? ==> Allowed(Sequential(h, w), WriteOp(m.p, m.at, m.data))
    ensures var v := Next(w, m).value.value;
            && Serial(h, v) && StoresOwned(h, v.done)
            && if Logged(w, m) == [] then Sequential(h, v) == Sequential(h, w)
               else Redo(Sequential(h, w), Logged(w, m)[0]) == Done(Sequential(h, v))
  {
    hide Serial, StoresOwned, Redo, Replay, Next, Allowed;
    LogOf(w, m);
    SerialIsReplayed(h, w);
    var v := Next(w, m).value.value;
    if Logged(w, m) == [] {
      assert v.done == w.done;
    } else {
      var event := Logged(w, m)[0];
      OwnedMore(h, w.done, event);
      ReplayMore(h, w.done, event);
      assert v.done == w.done + [event];
    }
    NextIsSerial(h, w, m);
    SerialIsReplayed(h, v);
  }

  lemma SerialIsReplayed(h: Heap, w: World)
    requires Serial(h, w)
    ensures Replay(h, w.done).Done?
  {
  }

  /** A move of another thread leaves the job's blocks alone. */
  lemma OtherMove(job: Job, h: Heap, r: Race, m: Move, x: Extent)
    requires Serial(h, r.world) && StoresOwned(h, r.world.done) && Inv(Sequential(h, r.world))
    requires m.tid != job.tid && Next(r.world, m).Some? && Next(r.world, m).value.Done?
    requires Civil(job, h, r) && CivilAct(job, h, r, Do(m, 0, 0))
    requires x in Sequential(h, r.world).Allocs() && x.start >= 0 && Private(job, r.phase, x.start + REDZONE)
    ensures var v := Next(r.world, m).value.value;
            && Serial(h, v) && StoresOwned(h, v.done)
            && Inv(Sequential(h, v)) && Same(Sequential(h, r.world), Sequential(h, v), x)
  {
    hide Serial, StoresOwned, Replay, Next, Allowed, Inv, Same, Whole, Private, Names;
    SerialIsReplayed(h, r.world);
    var w, g := r.world, Sequential(h, r.world);
    SequentialStep(h, w, m);
    if Logged(w, m) == [] {
      SameItself(g, x);
    } else if m.Unlock? {
      var call := w.threads[m.tid].call;
      OpOfIs(m.tid, call);
      CallSame(g, call, x);
    } else {
      StoreSame(g, m.p, m.at, m.data, x);
    }
  }

  lemma SameItself(g: Heap, x: Extent)
    requires x in g.Allocs()
    ensures Same(g, g, x)
  {
  }

  /** The phase is as it was, in the new sequential heap; a size query in progress is treated apart. */
  lemma PhaseKept(job: Job, g: Heap, g': Heap, h: Heap, nodes: seq<nat>, h': Heap, nodes': seq<nat>, phase: Phase,
                  e: Extent, f: Extent, bytes: seq<Byte>)
    requires PhaseOk(job, g, h, nodes, phase, e, f, bytes)
    requires !phase.Finished? ==> Same(g, g', e)
    requires !phase.Trying? && !phase.Allocating? ==> Same(g, g', f)
    requires phase.Sizing? ==> WalkOk(h', nodes', phase.node, phase.addr, e)
    ensures PhaseOk(job, g', h', nodes', phase, e, f, bytes)
  {
    hide Same, Holding, DeliveredIn, WalkOk, Padded;
    if !phase.Finished? {
      HoldingKept(g, g', e, bytes);
    }
    if !phase.Trying? && !phase.Allocating? {
      SameLive(g, g', f);
    }
    match phase
    case Copying(q, n, i) => DeliveredKept(g, g', f, q, bytes[..i]);
    case Freeing(q) => DeliveredKept(g, g', f, q, bytes);
    case Finished(q) => DeliveredKept(g, g', f, q, bytes);
    case _ =>
  }

  lemma SameLive(g: Heap, g': Heap, f: Extent)
    requires Same(g, g', f)
    ensures f in g.Allocs() && f in g'.Allocs()
  {
  }

  /** An act of another thread. */
  lemma OtherAct(job: Job, h: Heap, r: Race, a: Act, r': Race, e: Extent, f: Extent, bytes: seq<Byte>)
    requires Good(job, h, r, e, f, bytes) && a.Do? && a.m.tid != job.tid && Advance(job, r, a) == Some(Done(r'))
    requires Civil(job, h, r) && CivilAct(job, h, r, a) && Steady(r, r')
    requires Replay(h, r'.world.done).Done? ==> Civil(job, h, r')
    ensures Good(job, h, r', e, f, bytes)
  {
    var g, m := Sequential(h, r.world), a.m;
    SequentialStep(h, r.world, m);
    var v := r'.world;
    var g' := Sequential(h, v);
    NodesFit(r.world, m, r.nodes, a.x, a.y);
    OtherThread(job, r.world, m);
    BlocksOfPhase(job, g, r.world.heap, r.nodes, r.phase, e, f, bytes);
    if !r.phase.Finished? {
      OtherMove(job, h, r, m, e);
    }
    if !r.phase.Trying? && !r.phase.Allocating? {
      OtherMove(job, h, r, m, f);
    }
    if r.phase.Sizing? {
      SameLive(g, g', e);
      InTheList(job, h, r', e);
    }
    hide Serial, StoresOwned, Replay, Next, Inv, Same, Civil, CivilAct, Holding, DeliveredIn, Room;
    PhaseKept(job, g, g', r.world.heap, r.nodes, v.heap, r'.nodes, r.phase, e, f, bytes);
  }

  lemma BlocksOfPhase(job: Job, g: Heap, h: Heap, nodes: seq<nat>, phase: Phase, e: Extent, f: Extent, bytes: seq<Byte>)
    requires PhaseOk(job, g, h, nodes, phase, e, f, bytes) && Inv(g) && e.start + REDZONE == job.p
    ensures !phase.Finished? ==> e in g.Allocs() && e.start >= 0 && Private(job, phase, e.start + REDZONE)
    ensures !phase.Trying? && !phase.Allocating? ==>
              f in g.Allocs() && f.start >= 0 && Private(job, phase, f.start + REDZONE)
  {
    if !phase.Trying? && !phase.Allocating? {
      LiveInHeap(g, f);
    }
  }

  lemma NodesFit(w: World, m: Move, nodes: seq<nat>, x: nat, y: nat)
    requires |nodes| == |w.heap.blocks| && Unlike(nodes) && Unused(nodes, x, y)
    requires Next(w, m).Some? && Next(w, m).value.Done?
    ensures var after := NodesAfter(w, m, nodes, x, y);
            |after| == |Next(w, m).value.value.heap.blocks| && Unlike(after)
  {
    hide Micro, Enter, Relabelled;
    if m.Access? {
      RelabelFits(w.threads[m.tid].call, w.threads[m.tid].pc, w.heap, nodes, x, y);
    }
  }

  /** Another thread's move leaves this thread where it is. */
  lemma OtherThread(job: Job, w: World, m: Move)
    requires m.tid != job.tid && job.tid in w.threads && Next(w, m).Some? && Next(w, m).value.Done?
    ensures job.tid in Next(w, m).value.value.threads
    ensures Next(w, m).value.value.threads[job.tid] == w.threads[job.tid]
  {
    hide Micro, Enter;
  }

  // ---- the size query ----

  /** Standing on the right descriptor, the query finds the block of e there, or goes on to the next one. */
  lemma LookRight(h: Heap, nodes: seq<nat>, d: nat, addr: nat, e: Extent)
    requires WalkOk(h, nodes, Some(d), addr, e) && Shape(h.blocks)
    ensures var k := IndexOf(nodes, d);
            if addr == e.start then h.blocks[k].length == e.length
            else k + 1 < |nodes| && WalkOk(h, nodes, Some(nodes[k + 1]), addr + h.blocks[k].length, e)
  {
    hide Total, Live;
    var k := IndexOf(nodes, d);
    var j := LiveIndex(h.blocks, h.base, e);
    if addr == e.start {
      FindAt(h.blocks, h.base, addr);
    } else {
      if j < k {
        BlocksInOrder(h.blocks, j, k);
        ShapeAt(h.blocks, j);
      }
      BlocksInOrder(h.blocks, k, j);
      BlockInside(h.blocks, k);
      IndexIs(nodes, k + 1);
    }
  }

  lemma ShapeAt(bs: seq<Block>, j: nat)
    requires Shape(bs) && j < |bs|
    ensures bs[j].length > 0
  {
    assert BlockOk(bs[j]);
  }

  lemma LookAct(job: Job, h: Heap, r: Race, e: Extent, f: Extent, bytes: seq<Byte>)
    requires Good(job, h, r, e, f, bytes) && r.phase.Sizing? && Civil(job, h, r)
    ensures LookStep(job, r).Some? && LookStep(job, r).value.Done?
    ensures Good(job, h, LookStep(job, r).value.value, e, f, bytes)
  {
    hide Serial, StoresOwned, Replay, Inv, Civil, Holding, DeliveredIn, WalkOk, Unlike, Quiet, Shape, IndexOf;
    SerialIsReplayed(h, r.world);
    var g := Sequential(h, r.world);
    HoldingLive(g, e, bytes);
    InTheList(job, h, r, e);
    SmallUsable(g, e);
    HoldingSize(g, e, bytes);
    NothingYet(g, f, r.phase.q, bytes);
    WalkNode(r.world.heap, r.nodes, r.phase.node, r.phase.addr, e);
    LookRight(r.world.heap, r.nodes, r.phase.node.value, r.phase.addr, e);
  }

  lemma WalkNode(h: Heap, nodes: seq<nat>, node: Option<nat>, addr: nat, e: Extent)
    requires WalkOk(h, nodes, node, addr, e)
    ensures node.Some? && node.value in nodes
  {
  }

  lemma SmallUsable(g: Heap, e: Extent)
    requires Inv(g) && e in g.Allocs()
    ensures (e.length - 2 * REDZONE) % TWO64 == e.length - 2 * REDZONE
  {
    LiveBounds(g.blocks, g.base, e);
  }

  lemma NothingYet(g: Heap, f: Extent, q: nat, bytes: seq<Byte>)
    requires Inv(g) && f in g.Allocs() && f.start + REDZONE == q
    ensures DeliveredIn(g, f, q, bytes[..0])
  {
    LiveBounds(g.blocks, g.base, f);
  }

  // ---- the job's own moves ----

  /** `try_realloc` has returned. */
  lemma TryOutcome(job: Job, g: Heap, g': Heap, ret: nat, e: Extent, bytes: seq<Byte>) returns (f: Extent)
    requires Inv(g) && Holding(g, e, bytes) && e.start + REDZONE == job.p && job.p != 0 && job.newsize <= MAX_REQUEST
    requires Whole(CTry(job.p, job.newsize), g) == Done(Result(g', ret))
    ensures Inv(g')
    ensures if ret != 0 then DeliveredIn(g', f, job.p, bytes)
            else Holding(g', e, bytes) && Padded(job.newsize) > e.length
  {
    hide Inv, Moved, Padded, Total, Find, Grown, HeapState.Move, Live;
    var _ := TryEffect(g, job.p, job.newsize);
    assert IsLive(g, job.p);
    OwnedBlock(g, job.p);
    f := e;
    if ret != 0 {
      f := ReallocKeeps(g, job.p, job.newsize);
      MovedDelivers(g, job.p, job.newsize, Reply(g', job.p), e, f, bytes);
    }
  }

  lemma MovedDelivers(g: Heap, p: nat, newsize: nat, r: Reply, e: Extent, f: Extent, bytes: seq<Byte>)
    requires Inv(g) && IsLive(g, p) && Holding(g, e, bytes) && e.start + REDZONE == p && Moved(g, p, newsize, r, f)
    ensures DeliveredIn(r.heap, f, r.addr, bytes)
  {
    hide Inv, IsLive, Live, Contents, OnlyWithin, Owned;
    assert Owned(g, p) == e;
  }

  /** `alloc` has returned. */
  lemma AllocOutcome(job: Job, g: Heap, g': Heap, ret: nat, e: Extent, bytes: seq<Byte>) returns (f: Extent)
    requires Inv(g) && Holding(g, e, bytes) && job.newsize <= MAX_REQUEST && Padded(job.newsize) > e.length
    requires Whole(CAlloc(job.newsize), g) == Done(Result(g', ret))
    ensures Inv(g') && Holding(g', e, bytes) && Room(g', e, f, ret) && g'.base == g.base
  {
    LiveInHeap(g, e);
    PaddedIsEnough(job.newsize);
    hide Inv, AllocAt, Padded, Live, Holding, Same;
    AllocAtKeeps(g, Padded(job.newsize), MIN_ALLOC);
    f := Extent(ret - REDZONE, Padded(job.newsize));
    CallSame(g, CAlloc(job.newsize), e);
    HoldingKept(g, g', e, bytes);
    SameBase(g, g', e);
  }

  lemma SameBase(g: Heap, g': Heap, f: Extent)
    requires Same(g, g', f)
    ensures g'.base == g.base
  {
  }

  /** `free` has returned. */
  lemma FreeOutcome(job: Job, g: Heap, g': Heap, ret: nat, e: Extent, f: Extent, q: nat, bytes: seq<Byte>)
    requires Inv(g) && Holding(g, e, bytes) && e.start + REDZONE == job.p
    requires Room(g, e, f, q) && DeliveredIn(g, f, q, bytes)
    requires Whole(CFree(job.p), g) == Done(Result(g', ret))
    ensures Inv(g') && DeliveredIn(g', f, q, bytes)
  {
    hide Inv, FreePtr, Live;
    assert IsLive(g, job.p);
    FreeKeeps(g, job.p);
  }

  lemma OneMoreByte(g: Heap, f: Extent, q: nat, i: nat, bytes: seq<Byte>)
    requires i < |bytes| <= f.length - 2 * REDZONE && InHeap(g, q, |bytes|) && DeliveredIn(g, f, q, bytes[..i])
    ensures DeliveredIn(Written(g, q + i, [bytes[i]]), f, q, bytes[..i + 1])
  {
    var g' := Written(g, q + i, [bytes[i]]);
    assert Contents(g', q, i) == Contents(g, q, i);
    assert Contents(g', q, i + 1) == Contents(g', q, i) + [bytes[i]];
  }

  /** One more byte has been copied. */
  lemma CopyOutcome(g: Heap, q: nat, i: nat, e: Extent, f: Extent, bytes: seq<Byte>)
    requires Inv(g) && Holding(g, e, bytes) && Room(g, e, f, q) && i < |bytes| && DeliveredIn(g, f, q, bytes[..i])
    ensures Allowed(g, WriteOp(q, i, [bytes[i]])) && InHeap(g, q + i, 1)
    ensures var g' := Written(g, q + i, [bytes[i]]);
            Inv(g') && Holding(g', e, bytes) && Room(g', e, f, q) && DeliveredIn(g', f, q, bytes[..i + 1])
  {
    hide Inv, Live, Same, Written, DeliveredIn, Contents, Store;
    LiveInHeap(g, f);
    StoreRoom(g, f, q, i, [bytes[i]]);
    OtherStart(g, e, f);
    StoreSame(g, q, i, [bytes[i]], e);
    var g' := Written(g, q + i, [bytes[i]]);
    HoldingKept(g, g', e, bytes);
    OneMoreByte(g, f, q, i, bytes);
    StoreBlocks(g, q + i, [bytes[i]]);
  }

  lemma OtherStart(g: Heap, e: Extent, f: Extent)
    requires Inv(g) && e in g.Allocs() && f in g.Allocs() && e != f
    ensures e.start != f.start
  {
    LiveInHeap(g, e);
    LiveInHeap(g, f);
    LiveDisjoint(g.blocks, g.base, e, f);
  }

  lemma StoreRoom(g: Heap, f: Extent, q: nat, i: nat, data: seq<Byte>)
    requires f in g.Allocs() && f.start + REDZONE == q && i + |data| <= f.length - 2 * REDZONE
    ensures Allowed(g, WriteOp(q, i, data))
  {
  }

  lemma StoreBlocks(g: Heap, a: nat, data: seq<Byte>)
    requires InHeap(g, a, |data|)
    ensures Written(g, a, data).Allocs() == g.Allocs()
  {
  }

  // ---- every act ----

  /** A move of the job itself that returns from no call and stores nothing. */
  lemma QuietMove(job: Job, h: Heap, r: Race, m: Move, v: World, e: Extent, f: Extent, bytes: seq<Byte>)
    requires Good(job, h, r, e, f, bytes) && m.tid == job.tid && Follows(job, r, m) && !r.phase.Sizing?
    requires Next(r.world, m) == Some(Done(v)) && Logged(r.world, m) == [] && Serial(h, v)
    requires Sequential(h, v) == Sequential(h, r.world)
    ensures var phase := PhaseAfter(job, r, m);
            && PhaseOk(job, Sequential(h, v), v.heap, r.nodes, phase, e, f, bytes)
            && ThreadFits(job, Race(v, r.nodes, phase))
  {
    hide Serial, StoresOwned, Replay, Inv, Holding, DeliveredIn, Room, Micro, Enter, Padded;
    assert !m.Unlock? && !m.ClientStore?;
    if r.phase.Copying? {
      assert bytes[..|bytes|] == bytes;
    }
  }

  lemma UnlockIs(w: World, m: Move, v: World)
    requires m.Unlock? && Next(w, m) == Some(Done(v))
    ensures m.tid in w.threads && w.threads[m.tid].Inside? && w.threads[m.tid].pc.Return?
    ensures v.lockvar == 0 && v.heap == w.heap && v.threads == w.threads[m.tid := Idle]
  {
  }

  /** A guarded call of the job returns. */
  lemma ReturnMove(job: Job, h: Heap, r: Race, m: Move, v: World, e: Extent, f: Extent, bytes: seq<Byte>)
    returns (f': Extent)
    requires Good(job, h, r, e, f, bytes) && m.Unlock? && m.tid == job.tid && Follows(job, r, m)
    requires Next(r.world, m) == Some(Done(v)) && Serial(h, v) && Logged(r.world, m) != []
    requires Redo(Sequential(h, r.world), Logged(r.world, m)[0]) == Done(Sequential(h, v))
    ensures var phase := PhaseAfter(job, r, m);
            && Inv(Sequential(h, v)) && PhaseOk(job, Sequential(h, v), v.heap, r.nodes, phase, e, f', bytes)
            && ThreadFits(job, Race(v, r.nodes, phase))
  {
    hide Serial, StoresOwned, Replay, Inv, Holding, DeliveredIn, Room, Padded, Whole, Next, WalkOk, Unlike;
    SerialIsReplayed(h, r.world);
    SerialIsReplayed(h, v);
    var g, g' := Sequential(h, r.world), Sequential(h, v);
    UnlockIs(r.world, m, v);
    var call, ret := r.world.threads[m.tid].call, r.world.threads[m.tid].pc.ret;
    FreeHeap(h, v);
    f' := f;
    match r.phase
    case Trying =>
      f' := TryOutcome(job, g, g', ret, e, bytes);
    case Allocating =>
      f' := AllocOutcome(job, g, g', ret, e, bytes);
      StartWalk(g', r.nodes, e, bytes);
    case Freeing(q) =>
      FreeOutcome(job, g, g', ret, e, f, q, bytes);
    case _ =>
  }

  /** Right after an unlock the shared heap is the sequential one. */
  lemma FreeHeap(h: Heap, v: World)
    requires Serial(h, v)
    ensures v.lockvar == 0 ==> v.heap == Sequential(h, v)
  {
  }

  lemma StartWalk(g: Heap, nodes: seq<nat>, e: Extent, bytes: seq<Byte>)
    requires Inv(g) && Holding(g, e, bytes) && |nodes| == |g.blocks| && Unlike(nodes)
    ensures nodes != [] && WalkOk(g, nodes, Some(nodes[0]), g.base, e)
  {
    LiveInHeap(g, e);
    IndexIs(nodes, 0);
    assert g.blocks[..0] == [];
  }

  /** The job stores the byte it has just read. */
  lemma CopyMove(job: Job, h: Heap, r: Race, m: Move, v: World, e: Extent, f: Extent, bytes: seq<Byte>)
    requires Good(job, h, r, e, f, bytes) && Civil(job, h, r)
    requires m.tid == job.tid && m.ClientStore? && Follows(job, r, m)
    requires Next(r.world, m) == Some(Done(v))
    ensures Allowed(Sequential(h, r.world), WriteOp(m.p, m.at, m.data))
    ensures Serial(h, v) && StoresOwned(h, v.done)
    ensures var phase := PhaseAfter(job, r, m);
            && Inv(Sequential(h, v)) && PhaseOk(job, Sequential(h, v), v.heap, r.nodes, phase, e, f, bytes)
            && ThreadFits(job, Race(v, r.nodes, phase))
  {
    hide Serial, StoresOwned, Inv, Holding, DeliveredIn, Room, Civil, Contents, Quiet, Allowed, Written, Next, Replay;
    hide ThreadFits;
    SerialIsReplayed(h, r.world);
    var g := Sequential(h, r.world);
    var q, i := r.phase.q, r.phase.i;
    HoldingLive(g, e, bytes);
    StoreNext(job, r, m, v);
    InTheList(job, h, r, e);
    ByteRead(g, r.world.heap, e, i, bytes);
    CopyOutcome(g, q, i, e, f, bytes);
    SequentialStep(h, r.world, m);
  }

  lemma HoldingSize(g: Heap, e: Extent, bytes: seq<Byte>)
    requires Holding(g, e, bytes)
    ensures |bytes| == e.length - 2 * REDZONE
  {
  }

  lemma HoldingLive(g: Heap, e: Extent, bytes: seq<Byte>)
    requires Holding(g, e, bytes)
    ensures e in g.Allocs()
  {
  }

  lemma StoreNext(job: Job, r: Race, m: Move, v: World)
    requires m.ClientStore? && m.tid == job.tid && Next(r.world, m) == Some(Done(v)) && ThreadFits(job, r)
    requires r.phase.Copying? && r.phase.i < r.phase.n
    ensures r.world.threads[job.tid].Idle? && Logged(r.world, m) == [Wrote(m.tid, m.p, m.at, m.data)]
    ensures ThreadFits(job, Race(v, r.nodes, PhaseAfter(job, r, m)))
  {
  }

  /** What is read from the shared heap is the byte of the sequential one. */
  lemma ByteRead(g: Heap, h: Heap, e: Extent, i: nat, bytes: seq<Byte>)
    requires Inv(g) && Quiet(g, h) && Holding(g, e, bytes) && i < |bytes|
    ensures InHeap(h, e.start + REDZONE + i, 1) && Contents(h, e.start + REDZONE + i, 1) == [bytes[i]]
  {
    var a := e.start + REDZONE + i;
    assert Usable(e, a);
    assert ClientByte(g, a);
    assert bytes[i] == Contents(g, e.start + REDZONE, |bytes|)[i] == g.mem[a - g.base];
  }

  /** An act of the job. */
  lemma OwnAct(job: Job, h: Heap, r: Race, a: Act, r': Race, e: Extent, f: Extent, bytes: seq<Byte>)
    returns (f': Extent)
    requires Good(job, h, r, e, f, bytes) && a.Do? && a.m.tid == job.tid && Advance(job, r, a) == Some(Done(r'))
    requires Civil(job, h, r)
    ensures Good(job, h, r', e, f', bytes)
  {
    var m, v := a.m, r'.world;
    f' := f;
    NodesFit(r.world, m, r.nodes, a.x, a.y);
    if m.ClientStore? {
      CopyMove(job, h, r, m, v, e, f, bytes);
    } else {
      SequentialStep(h, r.world, m);
      if Logged(r.world, m) == [] {
        QuietMove(job, h, r, m, v, e, f, bytes);
        OwnAccess(job, h, r, m, a.x, a.y, v, e, f, bytes);
      } else {
        f' := ReturnMove(job, h, r, m, v, e, f, bytes);
      }
    }
    hide Serial, StoresOwned, Replay, Inv, Holding, DeliveredIn, Room, Micro, Enter, Civil, Padded, Follows, WalkOk;
  }

  /** Outside the size query the phase does not look at the descriptors. */
  lemma OwnAccess(job: Job, h: Heap, r: Race, m: Move, x: nat, y: nat, v: World, e: Extent, f: Extent, bytes: seq<Byte>)
    requires |r.nodes| == |r.world.heap.blocks| && m.tid == job.tid && Follows(job, r, m) && Logged(r.world, m) == []
    requires Next(r.world, m) == Some(Done(v)) && Replay(h, v.done).Done?
    requires PhaseOk(job, Sequential(h, v), v.heap, r.nodes, PhaseAfter(job, r, m), e, f, bytes)
    ensures PhaseOk(job, Sequential(h, v), v.heap, NodesAfter(r.world, m, r.nodes, x, y), PhaseAfter(job, r, m), e, f,
                    bytes)
  {
    hide Replay, Holding, DeliveredIn, Room, Micro, Enter, Padded, WalkOk, Relabelled;
  }

  // ---- whole runs ----

  function AfterActs(job: Job, r: Race, acts: seq<Act>): Option<Race>
    decreases |acts|
  {
    if acts == [] then Some(r)
    else if |r.nodes| != |r.world.heap.blocks| then None
    else
      match Advance(job, r, acts[0])
      case Some(Done(r')) => AfterActs(job, r', acts[1..])
      case _ => None
  }

  /** At every point the other threads keep away from the job's blocks and from under its size query. */
  ghost predicate Undisturbed(job: Job, h: Heap, r: Race, acts: seq<Act>)
    decreases |acts|
  {
    Replay(h, r.world.done).Done? && |r.nodes| == |r.world.heap.blocks| ==>
      && Civil(job, h, r)
      && (acts != [] ==>
            && CivilAct(job, h, r, acts[0])
            && match Advance(job, r, acts[0])
               case Some(Done(r')) => Steady(r, r') && Undisturbed(job, h, r', acts[1..])
               case _ => true)
  }

  lemma ActGood(job: Job, h: Heap, r: Race, a: Act, r': Race, e: Extent, f: Extent, bytes: seq<Byte>)
    returns (f': Extent)
    requires Good(job, h, r, e, f, bytes) && Advance(job, r, a) == Some(Done(r'))
    requires Civil(job, h, r) && CivilAct(job, h, r, a) && Steady(r, r')
    requires Replay(h, r'.world.done).Done? ==> Civil(job, h, r')
    ensures Good(job, h, r', e, f', bytes)
  {
    f' := f;
    hide Good, Civil, CivilAct, Steady, Replay;
    if a.Look? {
      LookAct(job, h, r, e, f, bytes);
    } else if a.m.tid == job.tid {
      f' := OwnAct(job, h, r, a, r', e, f, bytes);
    } else {
      OtherAct(job, h, r, a, r', e, f, bytes);
    }
  }

  lemma GoodFacts(job: Job, h: Heap, r: Race, e: Extent, f: Extent, bytes: seq<Byte>)
    requires Good(job, h, r, e, f, bytes)
    ensures Replay(h, r.world.done).Done? && |r.nodes| == |r.world.heap.blocks|
  {
  }

  lemma {:induction false} ActsGood(job: Job, h: Heap, r: Race, acts: seq<Act>, e: Extent, f: Extent, bytes: seq<Byte>)
    returns (f': Extent)
    requires Good(job, h, r, e, f, bytes) && AfterActs(job, r, acts).Some? && Undisturbed(job, h, r, acts)
    ensures Good(job, h, AfterActs(job, r, acts).value, e, f', bytes)
    decreases |acts|
  {
    hide Good, Civil, CivilAct, Steady, Replay, Advance;
    f' := f;
    if acts != [] {
      GoodFacts(job, h, r, e, f, bytes);
      var r' := Advance(job, r, acts[0]).value.value;
      assert Replay(h, r'.world.done).Done? && |r'.nodes| == |r'.world.heap.blocks| ==> Civil(job, h, r');
      SteadyFits(r, r');
      var f1 := ActGood(job, h, r, acts[0], r', e, f, bytes);
      f' := ActsGood(job, h, r', acts[1..], e, f1, bytes);
    }
  }

  lemma SteadyFits(r: Race, r': Race)
    requires Steady(r, r')
    ensures |r'.nodes| == |r'.world.heap.blocks|
  {
  }

  lemma QuietNow(h: Heap, w: World)
    requires Serial(h, w)
    ensures Quiet(Sequential(h, w), w.heap)
  {
    hide Replay, OnWay;
    if w.lockvar != 0 {
      var u :| Holds(h, w, u);
      SameMemory(w.threads[u].call, Sequential(h, w), w.threads[u].pc, w.heap);
    }
  }

  lemma SeenByOwner(g: Heap, h: Heap, f: Extent, q: nat, bytes: seq<Byte>)
    requires Inv(g) && Quiet(g, h) && DeliveredIn(g, f, q, bytes)
    ensures InHeap(h, q, |bytes|) && Contents(h, q, |bytes|) == bytes
  {
    var seen := Contents(h, q, |bytes|);
    forall i | 0 <= i < |bytes| ensures seen[i] == bytes[i] {
      assert Usable(f, q + i);
      assert ClientByte(g, q + i);
      assert bytes[i] == Contents(g, q, |bytes|)[i];
    }
  }

  /**
   However the threads interleave: if the others leave the two blocks alone and no list surgery moves the descriptor the
   size query stands on, a finished `realloc` has delivered every usable byte of the old block, in a live block.
   */
  lemma ReallocDelivers(job: Job, h: Heap, r: Race, acts: seq<Act>, e: Extent, bytes: seq<Byte>)
    requires Serial(h, r.world) && StoresOwned(h, r.world.done) && Inv(Sequential(h, r.world))
    requires |r.nodes| == |r.world.heap.blocks| && Unlike(r.nodes) && r.phase.Trying?
    requires job.tid in r.world.threads && r.world.threads[job.tid].Idle? && job.newsize <= MAX_REQUEST
    requires Holding(Sequential(h, r.world), e, bytes) && e.start + REDZONE == job.p
    requires AfterActs(job, r, acts).Some? && Undisturbed(job, h, r, acts)
    ensures var r' := AfterActs(job, r, acts).value;
            && Replay(h, r'.world.done).Done? && Inv(Sequential(h, r'.world))
            && (r'.phase.Finished? ==>
                  var q := r'.phase.ret;
                  && Delivered(Sequential(h, r'.world), q, bytes)
                  && InHeap(r'.world.heap, q, |bytes|) && Contents(r'.world.heap, q, |bytes|) == bytes)
  {
    hide Serial, StoresOwned, Replay, Inv, Holding, DeliveredIn, Undisturbed, AfterActs, Quiet, Contents;
    SerialIsReplayed(h, r.world);
    HoldingLive(Sequential(h, r.world), e, bytes);
    LiveInHeap(Sequential(h, r.world), e);
    var f := ActsGood(job, h, r, acts, e, e, bytes);
    var r' := AfterActs(job, r, acts).value;
    SerialIsReplayed(h, r'.world);
    if r'.phase.Finished? {
      QuietNow(h, r'.world);
      SeenByOwner(Sequential(h, r'.world), r'.world.heap, f, r'.phase.ret, bytes);
    }
  }
}
