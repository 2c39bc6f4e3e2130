/** Whole runs of heap calls and client writes, and what every such run keeps. */
module HeapRuns {
  import opened Machine
  import opened HeapBlocks
  import opened HeapOps
  import opened HeapState

  datatype Op =
    | AllocOp(size: nat)
    | AlignedOp(size: nat, align: nat)
    | FreeOp(p: nat)
    | ReallocOp(p: nat, newsize: nat)
    | WriteOp(p: nat, at: nat, data: seq<Byte>)   // a client store through p

  const MAX_ALIGN: nat := 0xffff_fff0

  function Step(h: Heap, op: Op): Outcome<Reply> {
    match op
    case AllocOp(size) => Alloc(h, size)
    case AlignedOp(size, align) => AllocAligned(h, size, align)
    case FreeOp(p) => (match FreePtr(h, p) case Halted => Halted case Done(g) => Done(Reply(g, 0)))
    case ReallocOp(p, newsize) => Realloc(h, p, newsize)
    case WriteOp(p, at, data) => if InHeap(h, p + at, |data|) then Done(Reply(Written(h, p + at, data), p)) else Halted
  }

  /** Free block k has a suitably aligned place p for `size` bytes. */
  predicate RoomAt(h: Heap, size: nat, align: nat, k: nat, p: nat) {
    align > 0 && k < |h.blocks| && Placement(h.blocks[k], h.base + Total(h.blocks[..k]), size, align, p)
  }

  ghost predicate HasRoom(h: Heap, size: nat, align: nat) {
    exists k, p :: RoomAt(h, size, align, k, p)
  }

  /**
   What the allocator asks of its callers: requests whose padded size fits 64 bits, an aligned request
   that some block can take, and stores that stay inside an allocation. Any address may be freed or
   reallocated: live, free or neither.
   */
  ghost predicate Allowed(h: Heap, op: Op) {
    match op
    case AllocOp(size) => size <= MAX_REQUEST
    case AlignedOp(size, align) =>
      0 < size <= MAX_REQUEST && HasRoom(h, Padded(size), RoundedAlign(align))
    case FreeOp(p) => true
    case ReallocOp(p, newsize) => newsize <= MAX_REQUEST
    case WriteOp(p, at, data) =>
      exists e :: e in h.Allocs() && e.start + REDZONE == p && at + |data| <= e.length - 2 * REDZONE
  }

  // ---- one step ----

  /** The rounding gives an alignment at least as strict, unless it wraps to zero. */
  lemma RoundedAlignFits(align: nat)
    requires align < TWO32
    ensures RoundedAlign(align) % MIN_ALLOC == 0
    ensures 0 < align <= MAX_ALIGN ==> RoundedAlign(align) == AlignUp(align, MIN_ALLOC) >= align
    ensures align == 0 || align > MAX_ALIGN <==> RoundedAlign(align) == 0
  {
  }

  lemma RoundedAligned(align: nat)
    ensures RoundedAlign(align) % MIN_ALLOC == 0
  {
  }

  /** The search finds a block exactly when there is room somewhere, and then no lower block has room. */
  lemma SearchIsComplete(h: Heap, size: nat, align: nat)
    requires align > 0
    ensures var k := FirstFit(h.blocks, h.base, size, align);
            && (k < |h.blocks| <==> HasRoom(h, size, align))
            && (k < |h.blocks| ==> exists p :: RoomAt(h, size, align, k, p))
            && forall i, p :: RoomAt(h, size, align, i, p) ==> k <= i
  {
    var k := FirstFit(h.blocks, h.base, size, align);
    FirstFitIsLowest(h.blocks, h.base, size, align);
    forall i: nat, p: nat | RoomAt(h, size, align, i, p) ensures k <= i {
      FitsIffPlacement(h.blocks[i], h.base + Total(h.blocks[..i]), size, align);
    }
    if k < |h.blocks| {
      var here := h.base + Total(h.blocks[..k]);
      FitsIffPlacement(h.blocks[k], here, size, align);
      assert RoomAt(h, size, align, k, here + Skip(here, align));
    }
  }

  lemma AlignedIsAllocAt(h: Heap, size: nat, align: nat)
    requires Allowed(h, AlignedOp(size, align))
    ensures RoundedAlign(align) > 0 && AllocAligned(h, size, align) == AllocAt(h, Padded(size), RoundedAlign(align))
  {
    SearchIsComplete(h, Padded(size), RoundedAlign(align));
  }

  /** The extent a step works in: everything outside it stays as it was. */
  ghost predicate Effect(h: Heap, op: Op, g: Heap, e: Extent) {
    && Inv(g) && OnlyWithin(h, g, e)
    && g.Allocs() <= h.Allocs() + {e}
    && (forall f :: f in h.Allocs() && f.start + REDZONE != Target(op) ==> f in g.Allocs() && Apart(e, f))
  }

  function Target(op: Op): nat {
    match op
    case AllocOp(_) => 0
    case AlignedOp(_, _) => 0
    case FreeOp(p) => p
    case ReallocOp(p, _) => p
    case WriteOp(p, _, _) => p
  }

  lemma EmptyEffect(h: Heap, op: Op)
    requires Inv(h)
    ensures Effect(h, op, h, Extent(h.base, 0))
  {
    forall f | f in h.Allocs() ensures Apart(Extent(h.base, 0), f) {
      LiveBounds(h.blocks, h.base, f);
    }
  }

  lemma AllocEffect(h: Heap, op: Op, size: nat, align: nat) returns (e: Extent)
    requires Inv(h) && align > 0 && align % MIN_ALLOC == 0 && size % MIN_ALLOC == 0 && size >= MIN_USED
    requires AllocAt(h, size, align).Done?
    ensures Effect(h, op, AllocAt(h, size, align).value.heap, e)
  {
    hide AllocAt, Live, Inv;
    AllocAtKeeps(h, size, align);
    e := Extent(AllocAt(h, size, align).value.addr - REDZONE, size);
  }

  lemma FreeEffect(h: Heap, p: nat) returns (e: Extent)
    requires Inv(h) && FreePtr(h, p).Done?
    ensures Effect(h, FreeOp(p), FreePtr(h, p).value, e)
  {
    EmptyEffect(h, FreeOp(p));
    e := Extent(h.base, 0);
    if p != 0 {
      CheckIffLive(h, p);
      FreeKeeps(h, p);
    }
  }

  /** Whatever happens, reallocating a live pointer delivers what `Moved` asks. */
  lemma ReallocKeeps(h: Heap, p: nat, newsize: nat) returns (e: Extent)
    requires Inv(h) && IsLive(h, p) && newsize <= MAX_REQUEST && Realloc(h, p, newsize).Done?
    ensures Moved(h, p, newsize, Realloc(h, p, newsize).value, e)
  {
    hide Live, Total, Used, HeapBlocks.Free, Move, Moved, Guarded, Padded, FirstFit, Grown, Inv, IsLive;
    OwnedBlock(h, p);
    var k := Find(h.blocks, h.base, p - REDZONE);
    if Padded(newsize) <= Owned(h, p).length {
      StayKeeps(h, p, newsize);
      e := Owned(h, p);
    } else if CanGrow(h.blocks, k, Padded(newsize)) {
      GrowKeeps(h, p, newsize);
      e := Extent(p - REDZONE, Padded(newsize));
    } else {
      assert TryRealloc(h, p, newsize) == Done(Attempt(h, false));
      MoveKeeps(h, p, newsize);
      e := Extent(Move(h, p, newsize).value.addr - REDZONE, Padded(newsize));
    }
  }

  /** A null pointer is not reallocated: the block is allocated and its address is thrown away. */
  lemma ReallocNull(h: Heap, newsize: nat)
    requires Inv(h)
    ensures newsize > 0 ==> (Realloc(h, 0, newsize).Done? <==> Alloc(h, newsize).Done?)
    ensures newsize == 0 ==> Realloc(h, 0, newsize).Halted?
    ensures Realloc(h, 0, newsize).Done? && newsize <= MAX_REQUEST ==>
              && Realloc(h, 0, newsize) == Done(Reply(Alloc(h, newsize).value.heap, 0))
              && Alloc(h, newsize).value.addr != 0
  {
    FindAt(h.blocks, h.base, 0 - REDZONE);
    if newsize > 0 && Alloc(h, newsize).Done? && newsize <= MAX_REQUEST {
      PaddedIsEnough(newsize);
      AllocAtKeeps(h, Padded(newsize), MIN_ALLOC);
    }
  }

  /** What `try_realloc` works in, whatever it answers. */
  lemma TryEffect(h: Heap, p: nat, newsize: nat) returns (e: Extent)
    requires Inv(h) && newsize <= MAX_REQUEST && TryRealloc(h, p, newsize).Done?
    ensures Effect(h, ReallocOp(p, newsize), TryRealloc(h, p, newsize).value.heap, e)
  {
    hide Inv, AllocAt, Padded, Total, Live, Grown, FirstFit, Effect, Moved, Find, Move;
    PaddedIsEnough(newsize);
    EmptyEffect(h, ReallocOp(p, newsize));
    e := Extent(h.base, 0);
    if p == 0 {
      if newsize > 0 {
        e := AllocEffect(h, ReallocOp(p, newsize), Padded(newsize), MIN_ALLOC);
      }
    } else if IsLive(h, p) {
      if TryRealloc(h, p, newsize).value.ok {
        e := ReallocKeeps(h, p, newsize);
        MovedEffect(h, p, newsize, Realloc(h, p, newsize).value, e);
      } else {
        OwnedBlock(h, p);
      }
    } else {
      FreeStay(h, p, newsize);
      if TryRealloc(h, p, newsize).value.ok {
        e := Extent(p - REDZONE, h.blocks[Find(h.blocks, h.base, p - REDZONE)].length);
        KeptEffect(h, ReallocOp(p, newsize), TryRealloc(h, p, newsize).value.heap, e);
      }
    }
  }

  lemma KeptEffect(h: Heap, op: Op, g: Heap, e: Extent)
    requires Inv(g) && OnlyWithin(h, g, e) && g.Allocs() == h.Allocs() && forall f :: f in h.Allocs() ==> Apart(e, f)
    ensures Effect(h, op, g, e)
  {
  }

  lemma MovedEffect(h: Heap, p: nat, newsize: nat, r: Reply, e: Extent)
    requires Inv(h) && IsLive(h, p) && Moved(h, p, newsize, r, e)
    ensures Effect(h, ReallocOp(p, newsize), r.heap, e)
  {
  }

  lemma ReallocEffect(h: Heap, p: nat, newsize: nat) returns (e: Extent)
    requires Inv(h) && Allowed(h, ReallocOp(p, newsize)) && Realloc(h, p, newsize).Done?
    ensures Effect(h, ReallocOp(p, newsize), Realloc(h, p, newsize).value.heap, e)
  {
    hide AllocAt, Move, Total, Used, HeapBlocks.Free, Live, Padded, Inv, FirstFit, Grown, TryRealloc;
    if IsLive(h, p) {
      e := ReallocKeeps(h, p, newsize);
    } else if p != 0 {
      FreeStay(h, p, newsize);
      e := Extent(p - REDZONE, h.blocks[Find(h.blocks, h.base, p - REDZONE)].length);
    } else {
      ReallocNull(h, newsize);
      PaddedIsEnough(newsize);
      e := AllocEffect(h, ReallocOp(p, newsize), Padded(newsize), MIN_ALLOC);
    }
  }

  lemma WriteEffect(h: Heap, p: nat, at: nat, data: seq<Byte>) returns (e: Extent)
    requires Inv(h) && Allowed(h, WriteOp(p, at, data))
    ensures InHeap(h, p + at, |data|) && Effect(h, WriteOp(p, at, data), Written(h, p + at, data), e)
  {
    hide Inv, Live, OnlyWithin, Written;
    e :| e in h.Allocs() && e.start + REDZONE == p && at + |data| <= e.length - 2 * REDZONE;
    WriteKeeps(h, e, at, data);
    OthersApart(h, e);
  }

  lemma OthersApart(h: Heap, e: Extent)
    requires Inv(h) && e in h.Allocs()
    ensures forall f :: f in h.Allocs() && f != e ==> Apart(e, f)
  {
    hide Live, AllGuarded;
    forall f | f in h.Allocs() && f != e ensures Apart(e, f) {
      LiveDisjoint(h.blocks, h.base, e, f);
    }
  }

  lemma StepEffect(h: Heap, op: Op) returns (e: Extent)
    requires Inv(h) && Allowed(h, op) && Step(h, op).Done?
    ensures Effect(h, op, Step(h, op).value.heap, e)
  {
    hide AllocAt, FreePtr, Total, Used, HeapBlocks.Free, Live, Padded, RoundedAlign, Realloc, Inv, Store;
    hide AllocAligned, FirstFit;
    match op
    case AllocOp(size) =>
      EmptyEffect(h, op);
      e := Extent(h.base, 0);
      if size > 0 {
        PaddedIsEnough(size);
        e := AllocEffect(h, op, Padded(size), MIN_ALLOC);
      }
    case AlignedOp(size, align) =>
      PaddedIsEnough(size);
      RoundedAligned(align);
      AlignedIsAllocAt(h, size, align);
      e := AllocEffect(h, op, Padded(size), RoundedAlign(align));
    case FreeOp(p) =>
      e := FreeEffect(h, p);
    case ReallocOp(p, newsize) =>
      e := ReallocEffect(h, p, newsize);
    case WriteOp(p, at, data) =>
      e := WriteEffect(h, p, at, data);
  }

  // ---- whole runs ----

  function Run(h: Heap, ops: seq<Op>): Outcome<Heap>
    decreases |ops|
  {
    if ops == [] then Done(h)
    else match Step(h, ops[0])
      case Halted => Halted
      case Done(r) => Run(r.heap, ops[1..])
  }

  /** Every step of the run respects what the allocator asks of its callers. */
  ghost predicate RunAllowed(h: Heap, ops: seq<Op>)
    decreases |ops|
  {
    ops != [] ==> Allowed(h, ops[0]) && (Step(h, ops[0]).Done? ==> RunAllowed(Step(h, ops[0]).value.heap, ops[1..]))
  }

  /** The heap is sound after every run that did not stop the machine; its extent never changes. */
  lemma {:induction false} RunKeeps(h: Heap, ops: seq<Op>)
    requires Inv(h) && RunAllowed(h, ops) && Run(h, ops).Done?
    ensures var g := Run(h, ops).value;
            && Inv(g) && g.base == h.base && g.slots == h.slots && |g.mem| == |h.mem|
            && g.usedmem + g.freemem == h.usedmem + h.freemem == |h.mem|
    decreases |ops|
  {
    hide Step, Total, Used, HeapBlocks.Free, Live, Allowed, Canonical, AllGuarded;
    UsedPlusFree(h.blocks);
    if ops != [] {
      var _ := StepEffect(h, ops[0]);
      RunKeeps(Step(h, ops[0]).value.heap, ops[1..]);
    }
  }

  /** `check_all`: every used block passes `check`. */
  ghost predicate AllChecked(h: Heap) {
    forall k :: 0 <= k < |h.blocks| ==> Checked(h, k)
  }

  predicate Checked(h: Heap, k: nat)
    requires k < |h.blocks|
  {
    !h.blocks[k].free ==> CheckOk(h, h.base + Total(h.blocks[..k]) + REDZONE)
  }

  /** Clients that stay inside their allocations never make `check_all` report corruption. */
  lemma NoCorruptionReported(h: Heap, ops: seq<Op>)
    requires Inv(h) && RunAllowed(h, ops) && Run(h, ops).Done?
    ensures AllChecked(Run(h, ops).value)
  {
    RunKeeps(h, ops);
    SoundIsChecked(Run(h, ops).value);
  }

  lemma SoundIsChecked(g: Heap)
    requires Inv(g)
    ensures AllChecked(g)
  {
    hide CheckOk, Total, Used, HeapBlocks.Free, Live, BlockOk, Coalesced;
    forall k | 0 <= k < |g.blocks| ensures Checked(g, k) {
      if !g.blocks[k].free {
        LiveAt(g.blocks, g.base, k);
        var e := Extent(g.base + Total(g.blocks[..k]), g.blocks[k].length);
        assert e in g.Allocs() && e.start + REDZONE == g.base + Total(g.blocks[..k]) + REDZONE;
        CheckIffLive(g, g.base + Total(g.blocks[..k]) + REDZONE);
      }
    }
  }

  /** No memory of the past: two runs that end with the same live allocations end with the same block list. */
  lemma HistoryIndependence(h1: Heap, ops1: seq<Op>, h2: Heap, ops2: seq<Op>)
    requires Inv(h1) && RunAllowed(h1, ops1) && Run(h1, ops1).Done?
    requires Inv(h2) && RunAllowed(h2, ops2) && Run(h2, ops2).Done?
    requires h1.base == h2.base && |h1.mem| == |h2.mem|
    requires Run(h1, ops1).value.Allocs() == Run(h2, ops2).value.Allocs()
    ensures var g1, g2 := Run(h1, ops1).value, Run(h2, ops2).value;
            g1.blocks == g2.blocks && g1.usedmem == g2.usedmem && g1.freemem == g2.freemem
  {
    RunKeeps(h1, ops1);
    RunKeeps(h2, ops2);
    CanonicalForm(Run(h1, ops1).value.blocks, Run(h2, ops2).value.blocks, h1.base);
  }

  /** A run that gives back what it took leaves the link count as it found it. */
  lemma BalancedRun(h: Heap, ops: seq<Op>)
    requires Inv(h) && RunAllowed(h, ops) && Run(h, ops).Done?
    requires Run(h, ops).value.Allocs() == h.Allocs()
    ensures Run(h, ops).value.blocks == h.blocks
    ensures CountAllocs(Run(h, ops).value) == CountAllocs(h)
  {
    assert Run(h, []) == Done(h);
    HistoryIndependence(h, ops, h, []);
  }

  function CountAllocs(h: Heap): nat {
    |h.blocks|
  }

  /** An allocation, plain or aligned, followed by the free of its result restores the block list. */
  lemma AllocThenFree(h: Heap, op: Op)
    requires Inv(h) && Allowed(h, op) && (op.AllocOp? || op.AlignedOp?) && Step(h, op).Done?
    ensures var r := Step(h, op).value;
            Step(r.heap, FreeOp(r.addr)).Done? && Step(r.heap, FreeOp(r.addr)).value.heap.blocks == h.blocks
  {
    hide AllocAt, CheckOk, Release, Find, Total, Used, HeapBlocks.Free, Live, Padded, RoundedAlign, AllGuarded;
    hide AllocAligned, FirstFit;
    var r := Step(h, op).value;
    if op.size > 0 {
      var size, align := Padded(op.size), if op.AllocOp? then MIN_ALLOC else RoundedAlign(op.align);
      PaddedIsEnough(op.size);
      if op.AlignedOp? {
        RoundedAligned(op.align);
        AlignedIsAllocAt(h, op.size, op.align);
      }
      AllocAtKeeps(h, size, align);
      assert Extent(r.addr - REDZONE, size) in r.heap.Allocs();
      FreeKeeps(r.heap, r.addr);
      CanonicalForm(FreePtr(r.heap, r.addr).value.blocks, h.blocks, h.base);
    }
  }

  // ---- contents over whole runs ----

  /** No step of the run frees, reallocates or writes through p. */
  predicate LeavesAlone(ops: seq<Op>, p: nat) {
    p != 0 && forall i :: 0 <= i < |ops| ==> Target(ops[i]) != p
  }

  /** An allocation nobody touches stays live, in place, with every byte as it was. */
  lemma {:induction false} ContentsPersist(h: Heap, ops: seq<Op>, e: Extent)
    requires Inv(h) && RunAllowed(h, ops) && Run(h, ops).Done?
    requires e in h.Allocs() && LeavesAlone(ops, e.start + REDZONE)
    ensures var g := Run(h, ops).value;
            && e in g.Allocs() && InHeap(h, e.start, e.length) && InHeap(g, e.start, e.length)
            && Contents(g, e.start, e.length) == Contents(h, e.start, e.length)
    decreases |ops|
  {
    hide Step, Total, Used, HeapBlocks.Free, Live, Allowed, Coalesced, AllGuarded, BlockOk;
    LiveBounds(h.blocks, h.base, e);
    if ops != [] {
      var w := StepEffect(h, ops[0]);
      var g := Step(h, ops[0]).value.heap;
      assert Target(ops[0]) != e.start + REDZONE;
      assert Contents(g, e.start, e.length) == Contents(h, e.start, e.length);
      ContentsPersist(g, ops[1..], e);
    }
  }

  // ---- where the code falls short ----

  /** A used block too short for its own redzones is no sound heap. */
  lemma TooShort(h: Heap, size: nat, align: nat)
    requires align > 0 && size < MIN_USED && AllocAt(h, size, align).Done?
    ensures !Inv(AllocAt(h, size, align).value.heap)
  {
    hide Total, FirstFit, Skip, Guard;
    var k := FirstFit(h.blocks, h.base, size, align);
    FirstFitFits(h.blocks, h.base, size, align);
    var gap := Skip(h.base + Total(h.blocks[..k]), align);
    var g := AllocAt(h, size, align).value.heap;
    assert !BlockOk(g.blocks[k + |FreeBlock(gap)|]);
  }

  /** Plain requests keep the heap sound exactly when their padded size does not wrap around. */
  lemma AllocSoundIff(h: Heap, size: nat)
    requires Inv(h) && size < TWO64 && Alloc(h, size).Done?
    ensures Inv(Alloc(h, size).value.heap) <==> size <= MAX_REQUEST
  {
    hide AllocAt, Inv, Padded;
    PaddedIsEnough(size);
    if size > MAX_REQUEST {
      PaddedWraps(size);
      TooShort(h, Padded(size), MIN_ALLOC);
    } else if size > 0 {
      AllocAtKeeps(h, Padded(size), MIN_ALLOC);
    }
  }

  /** Booking bytes past the end is noticed by the counters, unless there are no bytes to book. */
  lemma PastEndSoundIff(h: Heap, n: nat)
    requires Inv(h) && n < TWO64
    ensures Inv(PastEnd(h, n).heap) <==> n == 0
    ensures PastEnd(h, n).addr == h.base + |h.mem| + REDZONE
  {
    var g := PastEnd(h, n).heap;
    UsedPlusFree(h.blocks);
    if n > 0 {
      WrapMoves(h.usedmem, n);
    } else {
      forall e | e in g.Allocs() ensures Guarded(g.mem, e.start - g.base, e.length) {
        assert Guarded(h.mem, e.start - h.base, e.length);
      }
    }
  }

  /**
   An aligned request keeps the heap sound exactly when some block has room for it and the size is one
   a plain request could have; without room it returns an address past the end of the heap.
   */
  lemma AlignedSoundIff(h: Heap, size: nat, align: nat)
    requires Inv(h) && size < TWO64 && AllocAligned(h, size, align).Done?
    ensures var r := AllocAligned(h, size, align).value;
            if HasRoom(h, Padded(size), RoundedAlign(align)) then Inv(r.heap) <==> 0 < size <= MAX_REQUEST
            else (Inv(r.heap) <==> Padded(size) == 0) && r.addr == h.base + |h.mem| + REDZONE
  {
    hide AllocAt, Inv, Padded, RoundedAlign, PastEnd, FirstFit;
    var n, a := Padded(size), RoundedAlign(align);
    PaddedIsEnough(size);
    RoundedAligned(align);
    if a > 0 {
      SearchIsComplete(h, n, a);
    }
    if !HasRoom(h, n, a) {
      PaddedBelow(size);
      PastEndSoundIff(h, n);
    } else if 0 < size <= MAX_REQUEST {
      AllocAtKeeps(h, n, a);
    } else {
      PaddedWraps(size);
      TooShort(h, n, a);
    }
  }

  lemma PaddedBelow(size: nat)
    ensures Padded(size) < TWO64
  {
  }

  lemma PaddedWraps(size: nat)
    requires size < TWO64 && (size == 0 || size > MAX_REQUEST)
    ensures Padded(size) <= 2 * REDZONE
  {
  }

  lemma WrapMoves(x: nat, d: nat)
    requires x < TWO64 && 0 < d < TWO64
    ensures (x + d) % TWO64 != x
  {
  }

  /** One free block of n bytes, zero-filled. */
  function Fresh(n: nat): Heap {
    Heap(MIN_ALLOC, [Block(n, true)], seq(n, _ => 0 as Byte), 0, n, 2)
  }

  lemma FreshIsSound(n: nat)
    requires 0 < n < 0x1_0000 && n % MIN_ALLOC == 0
    ensures Inv(Fresh(n))
  {
    var h := Fresh(n);
    NothingLive(h.blocks, h.base);
  }

  /** A heap too small for any aligned request grants one all the same, past its end. */
  lemma NoRoomYetGranted()
    ensures Inv(Fresh(16)) && AllocAligned(Fresh(16), 1, 16).Done?
    ensures !Inv(AllocAligned(Fresh(16), 1, 16).value.heap)
    ensures AllocAligned(Fresh(16), 1, 16).value.addr > Fresh(16).base + |Fresh(16).mem|
  {
    var h := Fresh(16);
    FreshIsSound(16);
    assert Padded(1) == 144 && RoundedAlign(16) == 16;
    assert h.blocks[1..] == [] && FirstFit(h.blocks, h.base, 144, 16) == 1;
    AlignedSoundIff(h, 1, 16);
    SearchIsComplete(h, 144, 16);
  }

  /** The largest 64-bit request wraps around and is granted 128 bytes, all of them redzone. */
  lemma WrappedYetGranted()
    ensures Inv(Fresh(256)) && Alloc(Fresh(256), TWO64 - 1).Done?
    ensures Padded(TWO64 - 1) == 2 * REDZONE && !Inv(Alloc(Fresh(256), TWO64 - 1).value.heap)
  {
    var h := Fresh(256);
    FreshIsSound(256);
    assert Padded(TWO64 - 1) == 128;
    NoSkip(h.base);
    assert FirstFit(h.blocks, h.base, 128, 16) == 0 && h.blocks[..0] == [];
    AllocSoundIff(h, TWO64 - 1);
  }
}
