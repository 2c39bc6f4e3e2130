/** Where `realloc` falls short among other threads: list surgery under its size query (kernel/src/util/mm.cc). */
module ReallocTorn {
  import opened Machine
  import opened HeapBlocks
  import opened HeapOps
  import opened HeapState
  import opened HeapRuns
  import opened LockedHeap
  import opened ReallocRace

  /** Four blocks; the third, at address 592, is the one to be reallocated, and the first one its new home. */
  function TornHeap(): Heap {
    var blocks := [Block(176, false), Block(304, true), Block(160, false), Block(144, false)];
    Heap(112, blocks, seq(784, _ => MAGIC), 480, 304, 64)
  }

  /** The job is about to look at the first descriptor; one more thread is there. */
  function TornStart(): Race {
    Race(World(0, TornHeap(), map[0 := Idle, 1 := Idle], [], []), [0, 1, 2, 3], Sizing(176, Some(0), 112))
  }

  /** The query looks once, the other thread makes an aligned allocation, and the query goes on. */
  function TornActs(): seq<Act> {
    var step := Do(Access(1), 4, 5);
    [Look, Do(Begin(1, CAligned(16, 256)), 4, 5), Do(CompareExchange(1), 4, 5), step, step, step, Look, Look, Look]
  }

  lemma TornBlocks()
    ensures var h := TornHeap();
            && h.Allocs() == {Extent(112, 176), Extent(592, 160), Extent(752, 144)}
            && Total(h.blocks) == 784 && Used(h.blocks) == 480 && HeapBlocks.Free(h.blocks) == 304
  {
    var b0, b1, b2, b3 := Block(176, false), Block(304, true), Block(160, false), Block(144, false);
    var s3, s2, s1, s0 := [b3], [b2, b3], [b1, b2, b3], [b0, b1, b2, b3];
    assert s3[1..] == [] && s2[1..] == s3 && s1[1..] == s2 && s0[1..] == s1;
    assert Live(s3, 752) == {Extent(752, 144)};
    assert Live(s2, 592) == {Extent(592, 160), Extent(752, 144)};
    assert Live(s1, 288) == {Extent(592, 160), Extent(752, 144)};
    assert Total(s3) == 144 && Used(s3) == 144 && HeapBlocks.Free(s3) == 0;
    assert Total(s2) == 304 && Used(s2) == 304 && HeapBlocks.Free(s2) == 0;
    assert Total(s1) == 608 && Used(s1) == 304 && HeapBlocks.Free(s1) == 304;
  }

  /** It is a sound heap with nobody in it; the block has 32 usable bytes, and its new home is longer. */
  lemma TornIsSound()
    ensures var h, w := TornHeap(), TornStart().world;
            && Inv(h) && Serial(h, w) && Sequential(h, w) == h
            && Holding(h, Extent(592, 160), seq(32, _ => MAGIC)) && Room(h, Extent(592, 160), Extent(112, 176), 176)
  {
    TornBlocks();
    hide Live, Total, Used, HeapBlocks.Free;
    var h, w := TornHeap(), TornStart().world;
    assert forall t :: !IsInside(w, t);
    assert Contents(h, 656, 32) == seq(32, _ => MAGIC);
  }

  const TORN_JOB := Job(0, 656, 48)
  const TORN_CALL := CAligned(16, 256)

  /** The machine while the other thread is at t. */
  function TornWorld(t: Thread, h: Heap): World {
    World(if t.Inside? then 1 else 0, h, map[0 := Idle, 1 := t], if t.Inside? then [(1, t.call)] else [], [])
  }

  lemma OneAct(job: Job, r: Race, acts: seq<Act>, k: nat, r': Race)
    requires k < |acts| && |r.nodes| == |r.world.heap.blocks| && Advance(job, r, acts[k]) == Some(Done(r'))
    ensures AfterActs(job, r, acts[k..]) == AfterActs(job, r', acts[k + 1..])
  {
    hide Advance;
    assert acts[k..][0] == acts[k] && acts[k..][1..] == acts[k + 1..];
  }

  /** The moves of the other thread, on any heap. */
  lemma OtherBegins(call: Call, h: Heap)
    ensures Next(TornWorld(Idle, h), Begin(1, call)) == Some(Done(TornWorld(Spinning(call), h)))
  {
    assert map[0 := Idle, 1 := Idle][1 := Spinning(call)] == map[0 := Idle, 1 := Spinning(call)];
  }

  lemma OtherLocks(call: Call, h: Heap, pc: Pc)
    requires Enter(call, h.base) == Done(pc)
    ensures Next(TornWorld(Spinning(call), h), CompareExchange(1)) == Some(Done(TornWorld(Inside(call, pc), h)))
  {
    assert map[0 := Idle, 1 := Spinning(call)][1 := Inside(call, pc)] == map[0 := Idle, 1 := Inside(call, pc)];
    assert [] + [(1, call)] == [(1, call)];
  }

  lemma OtherSteps(call: Call, pc: Pc, h: Heap, pc': Pc, h': Heap)
    requires !pc.Return? && Micro(call, pc, h) == Done((pc', h'))
    ensures Next(TornWorld(Inside(call, pc), h), Access(1)) == Some(Done(TornWorld(Inside(call, pc'), h')))
  {
    assert map[0 := Idle, 1 := Inside(call, pc)][1 := Inside(call, pc')] == map[0 := Idle, 1 := Inside(call, pc')];
  }

  lemma OtherAdvances(job: Job, r: Race, m: Move, x: nat, y: nat, v: World)
    requires |r.nodes| == |r.world.heap.blocks| && Unused(r.nodes, x, y) && m.tid != job.tid
    requires Next(r.world, m) == Some(Done(v))
    ensures Advance(job, r, Do(m, x, y)) == Some(Done(Race(v, NodesAfter(r.world, m, r.nodes, x, y), r.phase)))
  {
    hide Next, NodesAfter;
  }

  lemma LookGoes(job: Job, r: Race, k: nat, q: nat, addr: nat)
    requires |r.nodes| == |r.world.heap.blocks| && Unlike(r.nodes) && k < |r.nodes|
    requires r.phase == Sizing(q, Some(r.nodes[k]), addr)
    ensures var length := r.world.heap.blocks[k].length;
            Advance(job, r, Look) == Some(Done(r.(phase :=
              if addr == job.p - REDZONE then Copying(q, (length - 2 * REDZONE) % TWO64, 0)
              else Sizing(q, if k + 1 < |r.nodes| then Some(r.nodes[k + 1]) else None, addr + length))))
  {
    IndexIs(r.nodes, k);
  }

  /** The allocation goes into the second block, 160 bytes in. */
  lemma TornStops()
    ensures Wanted(TORN_CALL) == 144 && AlignOf(TORN_CALL) == 256 && Skip(288, 256) == 160
    ensures !StopsAt(TORN_CALL, Block(176, false), 112) && StopsAt(TORN_CALL, Block(304, true), 288)
  {
  }

  const TORN_AT := Sizing(176, Some(1), 288)

  lemma TornMicros()
    ensures var h := TornHeap();
            && Enter(TORN_CALL, h.base) == Done(Walk(0, 112))
            && Micro(TORN_CALL, Walk(0, 112), h) == Done((Walk(1, 288), h))
            && Micro(TORN_CALL, Walk(1, 288), h) == Done((Edit(1, 288), h))
  {
    hide StopsAt;
    TornStops();
  }

  lemma TornFirst()
    ensures |TornActs()| == 9 && TornActs()[0] == Look && TornActs()[1] == Do(Begin(1, TORN_CALL), 4, 5)
    ensures TornActs()[2] == Do(CompareExchange(1), 4, 5) && TornActs()[3] == TornActs()[4] == Do(Access(1), 4, 5)
  {
  }

  lemma SameNodes(w: World, m: Move, nodes: seq<nat>, x: nat, y: nat)
    requires |nodes| == |w.heap.blocks|
    requires m.Access? ==> m.tid in w.threads && w.threads[m.tid].Inside? && w.threads[m.tid].pc.Walk?
    ensures NodesAfter(w, m, nodes, x, y) == nodes
  {
  }

  /** Until the surgery: the query has gone on to the second descriptor, and the other thread has stopped there. */
  lemma TornBefore()
    ensures AfterActs(TORN_JOB, TornStart(), TornActs()) ==
            AfterActs(TORN_JOB, Race(TornWorld(Inside(TORN_CALL, Edit(1, 288)), TornHeap()), [0, 1, 2, 3], TORN_AT),
                      TornActs()[5..])
  {
    hide AfterActs, StopsAt, Micro, Enter, Next, Advance, NodesAfter, IndexOf, TornHeap, TornWorld, TornStart, TornActs;
    var h, nodes, acts := TornHeap(), [0, 1, 2, 3], TornActs();
    TornMicros();
    TornFirst();
    var w0, w1 := TornWorld(Idle, h), TornWorld(Spinning(TORN_CALL), h);
    var w2, w3 := TornWorld(Inside(TORN_CALL, Walk(0, 112)), h), TornWorld(Inside(TORN_CALL, Walk(1, 288)), h);
    var w4 := TornWorld(Inside(TORN_CALL, Edit(1, 288)), h);
    TornHeaps(h);
    assert acts[0..] == acts;
    LookGoes(TORN_JOB, TornStart(), 0, 176, 112);
    OneAct(TORN_JOB, TornStart(), acts, 0, Race(w0, nodes, TORN_AT));
    OtherBegins(TORN_CALL, h);
    SameNodes(w0, Begin(1, TORN_CALL), nodes, 4, 5);
    OtherAdvances(TORN_JOB, Race(w0, nodes, TORN_AT), Begin(1, TORN_CALL), 4, 5, w1);
    OneAct(TORN_JOB, Race(w0, nodes, TORN_AT), acts, 1, Race(w1, nodes, TORN_AT));
    OtherLocks(TORN_CALL, h, Walk(0, 112));
    SameNodes(w1, CompareExchange(1), nodes, 4, 5);
    OtherAdvances(TORN_JOB, Race(w1, nodes, TORN_AT), CompareExchange(1), 4, 5, w2);
    OneAct(TORN_JOB, Race(w1, nodes, TORN_AT), acts, 2, Race(w2, nodes, TORN_AT));
    OtherSteps(TORN_CALL, Walk(0, 112), h, Walk(1, 288), h);
    SameNodes(w2, Access(1), nodes, 4, 5);
    OtherAdvances(TORN_JOB, Race(w2, nodes, TORN_AT), Access(1), 4, 5, w3);
    OneAct(TORN_JOB, Race(w2, nodes, TORN_AT), acts, 3, Race(w3, nodes, TORN_AT));
    OtherSteps(TORN_CALL, Walk(1, 288), h, Edit(1, 288), h);
    SameNodes(w3, Access(1), nodes, 4, 5);
    OtherAdvances(TORN_JOB, Race(w3, nodes, TORN_AT), Access(1), 4, 5, w4);
    OneAct(TORN_JOB, Race(w3, nodes, TORN_AT), acts, 4, Race(w4, nodes, TORN_AT));
  }

  lemma TornHeaps(h: Heap)
    ensures forall t :: TornWorld(t, h).heap == h
    ensures forall t :: 1 in TornWorld(t, h).threads && TornWorld(t, h).threads[1] == t
    ensures |TornHeap().blocks| == 4 && TornHeap().blocks[0] == Block(176, false)
    ensures TornStart() == Race(TornWorld(Idle, TornHeap()), [0, 1, 2, 3], Sizing(176, Some(0), 112))
  {
  }

  /** After the surgery: a gap in front, the new block, and the descriptor the query stands on has moved. */
  function TornBlocksAfter(): seq<Block> {
    [Block(176, false), Block(160, true), Block(144, false), Block(160, false), Block(144, false)]
  }

  lemma TornSurgery()
    ensures var h := TornHeap();
            && Micro(TORN_CALL, Edit(1, 288), h).Done?
            && Micro(TORN_CALL, Edit(1, 288), h).value.1 == h.(blocks := TornBlocksAfter())
            && Relabelled(TORN_CALL, Edit(1, 288), h.blocks, [0, 1, 2, 3], 4, 5) == [0, 4, 1, 2, 3]
  {
    TornStops();
    hide Padded, RoundedAlign, Skip, Wanted, AlignOf;
    var h, nodes := TornHeap(), [0, 1, 2, 3];
    assert Place(h.blocks, 1, 160, 144) == TornBlocksAfter();
    assert Inserted(nodes, 1, 4) == [0, 4, 1, 2, 3];
  }

  lemma TornLast()
    ensures |TornActs()| == 9 && TornActs()[5] == Do(Access(1), 4, 5)
    ensures TornActs()[6] == TornActs()[7] == TornActs()[8] == Look
  {
  }

  /** From there the query finds the wrong block at the right address. */
  lemma TornAfter(w: World, acts: seq<Act>)
    requires w.heap.blocks == TornBlocksAfter() && |acts| == 9 && acts[6] == acts[7] == acts[8] == Look
    ensures AfterActs(TORN_JOB, Race(w, [0, 4, 1, 2, 3], TORN_AT), acts[6..]) ==
            Some(Race(w, [0, 4, 1, 2, 3], Copying(176, 16, 0)))
  {
    hide AfterActs, Advance;
    var nodes := [0, 4, 1, 2, 3];
    var r6, r7 := Race(w, nodes, TORN_AT), Race(w, nodes, Sizing(176, Some(2), 432));
    var r8, r9 := Race(w, nodes, Sizing(176, Some(3), 592)), Race(w, nodes, Copying(176, 16, 0));
    LookGoes(TORN_JOB, r6, 2, 176, 288);
    OneAct(TORN_JOB, r6, acts, 6, r7);
    LookGoes(TORN_JOB, r7, 3, 176, 432);
    OneAct(TORN_JOB, r7, acts, 7, r8);
    LookGoes(TORN_JOB, r8, 4, 176, 592);
    OneAct(TORN_JOB, r8, acts, 8, r9);
    NoActs(TORN_JOB, r9, acts[9..]);
  }

  /**
   A whole allocation by another thread while the size query runs, naming neither block: the query adds up lengths that
   no longer belong together and takes the block behind for the one it looks for. It will copy 16 bytes of 32.
   */
  lemma TornWalk()
    ensures AfterActs(TORN_JOB, TornStart(), TornActs()).Some?
    ensures AfterActs(TORN_JOB, TornStart(), TornActs()).value.phase == Copying(176, 16, 0)
  {
    hide AfterActs, Micro, Next, Advance, IndexOf, TornHeap, TornWorld, Relabelled, TornActs, TornStart;
    var h := TornHeap();
    var h' := h.(blocks := TornBlocksAfter());
    var r5 := Race(TornWorld(Inside(TORN_CALL, Edit(1, 288)), h), [0, 1, 2, 3], TORN_AT);
    TornBefore();
    TornSurgery();
    TornHeaps(h);
    TornHeaps(h');
    TornLast();
    var pc := Micro(TORN_CALL, Edit(1, 288), h).value.0;
    var w := TornWorld(Inside(TORN_CALL, pc), h');
    OtherSteps(TORN_CALL, Edit(1, 288), h, pc, h');
    OtherAdvances(TORN_JOB, r5, Access(1), 4, 5, w);
    OneAct(TORN_JOB, r5, TornActs(), 5, Race(w, [0, 4, 1, 2, 3], TORN_AT));
    TornAfter(w, TornActs());
  }

  lemma NoActs(job: Job, r: Race, acts: seq<Act>)
    requires acts == []
    ensures AfterActs(job, r, acts) == Some(r)
  {
  }
}
