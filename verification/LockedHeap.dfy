/** The spinlock around the heap (kernel/src/util/async.hh) under any interleaving of any number of threads. */
module LockedHeap {
  import opened Machine
  import opened HeapBlocks
  import opened HeapOps
  import opened HeapState
  import opened HeapRuns

  /** The calls that run under the lock. */
  datatype Call = CAlloc(size: nat) | CAligned(size: nat, align: nat) | CFree(p: nat) | CTry(p: nat, newsize: nat)

  datatype Result = Result(heap: Heap, ret: nat)

  function Answer(r: Outcome<Reply>): Outcome<Result> {
    match r
    case Halted => Halted
    case Done(reply) => Done(Result(reply.heap, reply.addr))
  }

  /** The call run alone, from start to end. */
  function Whole(call: Call, h: Heap): Outcome<Result> {
    match call
    case CAlloc(size) => Answer(Alloc(h, size))
    case CAligned(size, align) => Answer(AllocAligned(h, size, align))
    case CFree(p) => (match FreePtr(h, p) case Halted => Halted case Done(g) => Done(Result(g, 0)))
    case CTry(p, newsize) =>
      match TryRealloc(h, p, newsize)
      case Halted => Halted
      case Done(t) => Done(Result(t.heap, if t.ok then 1 else 0))
  }

  // ---- the same calls step by step ----

  /**
   Where a thread is inside a guarded call; the locals live in the program counter. A step looks at one
   descriptor, does the list surgery at one descriptor, moves bytes between the two counters, or writes one redzone.
   */
  datatype Pc =
    | Walk(k: nat, addr: nat)                 // about to look at descriptor k
    | Edit(k: nat, addr: nat)                 // stopped at descriptor k
    | Book(d: int, then_: Pc)                 // about to move d bytes between the counters
    | Paint(off: int, then_: Pc)              // about to write one redzone
    | Join(k: nat)                            // about to free and coalesce block k
    | Return(ret: nat)

  /** What the allocating calls look for. */
  function Wanted(call: Call): nat
    requires !call.CFree?
  {
    Padded(if call.CTry? then call.newsize else call.size)
  }

  function AlignOf(call: Call): nat {
    if call.CAligned? then RoundedAlign(call.align) else MIN_ALLOC
  }

  /** A call that places a new block. */
  predicate Places(call: Call) {
    call.CAlloc? || call.CAligned? || (call.CTry? && call.p == 0)
  }

  function Enter(call: Call, base: nat): Outcome<Pc> {
    if (call.CAlloc? && call.size == 0) || (call.CTry? && call.p == 0 && call.newsize == 0)
      || (call.CFree? && call.p == 0) then
      Done(Return(0))
    else if call.CTry? && call.p % 16 != 0 then Halted
    else Done(Walk(0, base))
  }

  predicate StopsAt(call: Call, b: Block, addr: nat) {
    if !Places(call) then addr == call.p - REDZONE
    else if AlignOf(call) == 0 then b.free && b.length >= Wanted(call)
    else Fits(b, addr, Wanted(call), AlignOf(call))
  }

  function PlacedReturn(trying: bool, addr: nat): Pc {
    Return(if trying then 1 else addr)
  }

  /** The two counters, kept in 64-bit words. */
  function Booked(h: Heap, d: int): Heap {
    h.(usedmem := (h.usedmem + d) % TWO64, freemem := (h.freemem - d) % TWO64)
  }

  function Painted(h: Heap, off: int): Heap {
    h.(mem := Fill(h.mem, off, REDZONE, MAGIC))
  }

  /** One step by the thread that holds the lock, reading and writing the shared heap. */
  function Micro(call: Call, pc: Pc, h: Heap): Outcome<(Pc, Heap)>
    requires !pc.Return?
  {
    match pc
    case Walk(k, addr) =>
      if k < |h.blocks| then
        if StopsAt(call, h.blocks[k], addr) then Done((Edit(k, addr), h))
        else Done((Walk(k + 1, addr + h.blocks[k].length), h))
      else if call.CAligned? then Done((GuardPc(Wanted(call), addr - h.base, Return(addr + REDZONE)), h))
      else Halted
    case Edit(k, addr) => EditStep(call, k, addr, h)
    case Book(d, next) => Done((next, Booked(h, d)))
    case Paint(off, next) => Done((next, Painted(h, off)))
    case Join(k) => if k < |h.blocks| then Done((Return(0), h.(blocks := Release(h.blocks, k)))) else Halted
  }

  /** The tail both allocators share: the counters and the two redzones. */
  function GuardPc(n: nat, off: int, last: Pc): Pc {
    Book(n, Paint(off, Paint(off + n - REDZONE, last)))
  }

  function PlaceStep(n: nat, gap: nat, trying: bool, k: nat, addr: nat, h: Heap): Outcome<(Pc, Heap)>
    requires k < |h.blocks|
  {
    if gap + n > h.blocks[k].length then Halted
    else
      var bs := Place(h.blocks, k, gap, n);
      if |bs| > h.slots then Halted
      else Done((GuardPc(n, addr + gap - h.base, PlacedReturn(trying, addr + gap + REDZONE)), h.(blocks := bs)))
  }

  function EditStep(call: Call, k: nat, addr: nat, h: Heap): Outcome<(Pc, Heap)> {
    if k >= |h.blocks| then Halted
    else if Places(call) then
      if AlignOf(call) == 0 then Halted   // a division by zero
      else PlaceStep(Wanted(call), Skip(addr, AlignOf(call)), call.CTry?, k, addr, h)
    else if call.CFree? then
      if CheckOk(h, call.p) then Done((Book(0 - h.blocks[k].length, Join(k)), h)) else Halted
    else
      var n, len := Wanted(call), h.blocks[k].length;
      if n <= len then Done((Paint(addr - h.base + len - REDZONE, Return(1)), h))
      else if CanGrow(h.blocks, k, n) then
        Done((Book(n - len, Paint(addr - h.base + n - REDZONE, Return(1))), h.(blocks := Grow(h.blocks, k, n))))
      else Done((Return(0), h))
  }

  // ---- bytes that belong to a client ----

  /** The byte at address a is one the owner of a live allocation may use. */
  ghost predicate ClientByte(h: Heap, a: int) {
    exists e :: e in h.Allocs() && Usable(e, a)
  }

  /** Painting a redzone at `off` touches no client byte. */
  ghost predicate Harmless(h: Heap, off: int) {
    forall a :: h.base + off <= a < h.base + off + REDZONE ==> !ClientByte(h, a)
  }

  ghost predicate Gentle(h: Heap, pc: Pc) {
    match pc
    case Book(_, next) => Gentle(h, next)
    case Paint(off, next) => Harmless(h, off) && Gentle(h, next)
    case _ => true
  }

  /** g still holds every client byte of h. */
  ghost predicate Quiet(h: Heap, g: Heap) {
    && g.base == h.base && |g.mem| == |h.mem|
    && forall i :: 0 <= i < |h.mem| && ClientByte(h, h.base + i) ==> g.mem[i] == h.mem[i]
  }

  /** A redzone lies before an allocation, or behind its usable bytes. */
  lemma RedzoneBeside(h: Heap, off: int)
    requires forall e :: e in h.Allocs() ==> h.base + off <= e.start || h.base + off >= e.start + e.length - REDZONE
    ensures Harmless(h, off)
  {
  }

  /** Both redzones of n bytes inside free block k. */
  lemma PlaceIsHarmless(h: Heap, k: nat, gap: nat, n: nat)
    requires k < |h.blocks| && h.blocks[k].free && gap + n <= h.blocks[k].length
    ensures var off := Total(h.blocks[..k]) + gap; Harmless(h, off) && Harmless(h, off + n - REDZONE)
  {
    var off := Total(h.blocks[..k]) + gap;
    forall e | e in h.Allocs()
      ensures h.base + off + n <= e.start || h.base + off >= e.start + e.length
    {
      LiveBeside(h.blocks, h.base, k, e);
    }
    RedzoneBeside(h, off);
    RedzoneBeside(h, off + n - REDZONE);
  }

  /** The end of block k, and the end of block k grown into the free block after it. */
  lemma ResizeIsHarmless(h: Heap, k: nat, n: nat)
    requires k < |h.blocks| && (n == h.blocks[k].length || CanGrow(h.blocks, k, n))
    ensures Harmless(h, Total(h.blocks[..k]) + n - REDZONE)
  {
    var here := h.base + Total(h.blocks[..k]);
    forall e | e in h.Allocs()
      ensures here + n <= e.start || here + n >= e.start + e.length
    {
      LiveBeside(h.blocks, h.base, k, e);
      if n > h.blocks[k].length {
        BlockInside(h.blocks, k);
        LiveBeside(h.blocks, h.base, k + 1, e);
      }
    }
    RedzoneBeside(h, Total(h.blocks[..k]) + n - REDZONE);
  }

  lemma EndIsHarmless(h: Heap, n: nat)
    ensures Harmless(h, Total(h.blocks)) && Harmless(h, Total(h.blocks) + n - REDZONE)
  {
    forall e | e in h.Allocs() ensures e.start + e.length <= h.base + Total(h.blocks) {
      var i := LiveIndex(h.blocks, h.base, e);
      BlockInside(h.blocks, i);
    }
    RedzoneBeside(h, Total(h.blocks));
    RedzoneBeside(h, Total(h.blocks) + n - REDZONE);
  }

  // ---- run alone, the steps add up to the whole call ----

  /** Finishing from pc: the straight-line rest of a call after its list surgery. */
  function Finish(pc: Pc, h: Heap): Outcome<Result> {
    match pc
    case Return(ret) => Done(Result(h, ret))
    case Book(d, next) => Finish(next, Booked(h, d))
    case Paint(off, next) => Finish(next, Painted(h, off))
    case Join(k) => if k < |h.blocks| then Done(Result(h.(blocks := Release(h.blocks, k)), 0)) else Halted
    case Walk(_, _) => Halted
    case Edit(_, _) => Halted
  }

  /** Only straight-line code is left. */
  predicate Straight(pc: Pc) {
    match pc
    case Return(_) => true
    case Join(_) => true
    case Book(_, next) => Straight(next)
    case Paint(_, next) => Straight(next)
    case _ => false
  }

  /** The list surgery is still to come: `free` does it last. */
  predicate EndsInJoin(pc: Pc) {
    match pc
    case Join(_) => true
    case Book(_, next) => EndsInJoin(next)
    case Paint(_, next) => EndsInJoin(next)
    case _ => false
  }

  /** Where a walk that stops by the call's own rule ends up; |bs| when it does not stop. */
  function StopFrom(call: Call, bs: seq<Block>, addr: nat): (k: nat)
    ensures k <= |bs|
  {
    if bs == [] || StopsAt(call, bs[0], addr) then 0 else 1 + StopFrom(call, bs[1..], addr + bs[0].length)
  }

  function Stop(call: Call, h: Heap): nat {
    StopFrom(call, h.blocks, h.base)
  }

  /** The walk is the search the specification names. */
  lemma {:induction false} StopIsSearch(call: Call, bs: seq<Block>, addr: nat)
    ensures !Places(call) ==> StopFrom(call, bs, addr) == Find(bs, addr, call.p - REDZONE)
    ensures Places(call) && AlignOf(call) > 0 ==>
              StopFrom(call, bs, addr) == FirstFit(bs, addr, Wanted(call), AlignOf(call))
    ensures Places(call) && AlignOf(call) == 0 ==>
              (StopFrom(call, bs, addr) < |bs| <==> SomeLongEnough(bs, Wanted(call)))
  {
    hide AlignOf, Wanted, Fits;
    if bs != [] && !StopsAt(call, bs[0], addr) {
      StopIsSearch(call, bs[1..], addr + bs[0].length);
      if Places(call) && AlignOf(call) == 0 {
        TailLongEnough(bs, Wanted(call));
      }
    }
  }

  lemma TailLongEnough(bs: seq<Block>, n: nat)
    requires bs != [] && !(bs[0].free && bs[0].length >= n)
    ensures SomeLongEnough(bs, n) <==> SomeLongEnough(bs[1..], n)
  {
    if SomeLongEnough(bs, n) {
      var k :| 0 <= k < |bs| && bs[k].free && bs[k].length >= n;
      assert bs[1..][k - 1].free;
    }
    if SomeLongEnough(bs[1..], n) {
      var k :| 0 <= k < |bs[1..]| && bs[1..][k].free && bs[1..][k].length >= n;
      assert bs[k + 1].free;
    }
  }

  /** (pc, h) is a point on the way of a call that started alone on h0. */
  ghost predicate OnWay(call: Call, h0: Heap, pc: Pc, h: Heap) {
    match pc
    case Walk(k, addr) =>
      && h == h0 && Enter(call, h0.base) == Done(Walk(0, h0.base)) && k <= |h0.blocks|
      && addr == h0.base + Total(h0.blocks[..k])
      && Stop(call, h0) == k + StopFrom(call, h0.blocks[k..], addr)
    case Edit(k, addr) =>
      && h == h0 && Enter(call, h0.base) == Done(Walk(0, h0.base)) && k == Stop(call, h0) < |h0.blocks|
      && addr == h0.base + Total(h0.blocks[..k])
    case _ =>
      && Straight(pc) && Whole(call, h0) == Finish(pc, h) && Gentle(h0, pc) && Quiet(h0, h)
      && (EndsInJoin(pc) ==> h.blocks == h0.blocks)
  }

  lemma FinishPaint(off: int, ret: nat, h: Heap)
    ensures Finish(Paint(off, Return(ret)), h) == Done(Result(Painted(h, off), ret))
    ensures Straight(Paint(off, Return(ret))) && !EndsInJoin(Paint(off, Return(ret)))
  {
  }

  lemma FinishBookPaint(d: int, off: int, ret: nat, h: Heap)
    ensures Straight(Book(d, Paint(off, Return(ret)))) && !EndsInJoin(Book(d, Paint(off, Return(ret))))
    ensures Finish(Book(d, Paint(off, Return(ret))), h) == Done(Result(Painted(Booked(h, d), off), ret))
  {
    hide Painted, Booked;
    FinishPaint(off, ret, Booked(h, d));
  }

  lemma FinishGuard(n: nat, off: nat, ret: nat, h: Heap)
    ensures Straight(GuardPc(n, off, Return(ret))) && !EndsInJoin(GuardPc(n, off, Return(ret)))
    ensures Finish(GuardPc(n, off, Return(ret)), h) == Done(Result(Booked(h, n).(mem := Guard(h.mem, off, n)), ret))
  {
    hide Fill;
    var g := Booked(h, n);
    var tail := Paint(off + n - REDZONE, Return(ret));
    FinishPaint(off + n - REDZONE, ret, Painted(g, off));
    assert !EndsInJoin(Paint(off, tail));
    assert Finish(Paint(off, tail), g) == Finish(tail, Painted(g, off));
    assert Finish(Book(n, Paint(off, tail)), h) == Finish(Paint(off, tail), g);
  }

  lemma GentleGuard(h: Heap, n: nat, off: int, ret: nat)
    requires Harmless(h, off) && Harmless(h, off + n - REDZONE)
    ensures Gentle(h, GuardPc(n, off, Return(ret)))
  {
    hide Harmless;
    assert Gentle(h, Paint(off + n - REDZONE, Return(ret)));
    assert Gentle(h, Paint(off, Paint(off + n - REDZONE, Return(ret))));
  }

  lemma StopStep(call: Call, bs: seq<Block>, k: nat, addr: nat)
    requires k < |bs|
    ensures StopFrom(call, bs[k..], addr) ==
            if StopsAt(call, bs[k], addr) then 0 else 1 + StopFrom(call, bs[k + 1..], addr + bs[k].length)
    ensures Total(bs[..k + 1]) == Total(bs[..k]) + bs[k].length
  {
    assert bs[k..][0] == bs[k] && bs[k..][1..] == bs[k + 1..];
    BlockInside(bs, k);
  }

  lemma WalkOn(call: Call, h: Heap, k: nat, addr: nat)
    requires OnWay(call, h, Walk(k, addr), h)
    ensures match Micro(call, Walk(k, addr), h)
            case Done(next) => OnWay(call, h, next.0, next.1)
            case Halted => Whole(call, h).Halted?
  {
    hide Total, StopsAt, Whole, Wanted, Finish, Gentle, GuardPc, EditStep, Enter;
    if k < |h.blocks| {
      StopStep(call, h.blocks, k, addr);
    } else {
      assert h.blocks[..k] == h.blocks;
      assert StopFrom(call, h.blocks[k..], addr) == 0;
      WalkedOff(call, h);
    }
  }

  /** A walk that reaches the end: everybody stops the machine, except the aligned allocator. */
  lemma WalkedOff(call: Call, h: Heap)
    requires Enter(call, h.base) == Done(Walk(0, h.base)) && Stop(call, h) == |h.blocks|
    ensures !call.CAligned? ==> Whole(call, h).Halted?
    ensures call.CAligned? ==>
              var pc := GuardPc(Wanted(call), Total(h.blocks), Return(h.base + Total(h.blocks) + REDZONE));
              pc.Book? && Straight(pc) && Whole(call, h) == Finish(pc, h) && Gentle(h, pc) && !EndsInJoin(pc)
  {
    hide Total, FirstFit, Find, Padded, RoundedAlign, CanGrow, Guarded, Gentle, Harmless, Guard, SomeLongEnough;
    hide StopFrom;
    StopIsSearch(call, h.blocks, h.base);
    if call.CAligned? {
      var n, off := Wanted(call), Total(h.blocks);
      FinishGuard(n, off, h.base + off + REDZONE, h);
      EndIsHarmless(h, n);
      GentleGuard(h, n, off, h.base + off + REDZONE);
    }
  }

  /** The list surgery leaves straight-line code that finishes the call and spares the client bytes. */
  ghost predicate Surgery(call: Call, h: Heap, next: Outcome<(Pc, Heap)>) {
    match next
    case Done(n) =>
      && Straight(n.0) && Whole(call, h) == Finish(n.0, n.1) && Gentle(h, n.0)
      && n.1 == h.(blocks := n.1.blocks) && (EndsInJoin(n.0) ==> n.1 == h)
    case Halted => Whole(call, h).Halted?
  }

  lemma EditOn(call: Call, h: Heap, k: nat, addr: nat)
    requires OnWay(call, h, Edit(k, addr), h)
    ensures Surgery(call, h, EditStep(call, k, addr, h))
  {
    hide Total, Find, Padded, CheckOk, Release, RoundedAlign, StopFrom, Fits, FirstFit;
    StopIsSearch(call, h.blocks, h.base);
    if Places(call) && AlignOf(call) > 0 {
      PlaceOn(call, h, k, addr);
    } else if call.CTry? && call.p != 0 {
      ResizeOn(call, h, k, addr);
    } else if call.CFree? {
      FreeOn(h, call.p, k);
    }
  }

  lemma FreeOn(h: Heap, p: nat, k: nat)
    requires p != 0 && k == Find(h.blocks, h.base, p - REDZONE) < |h.blocks|
    ensures Surgery(CFree(p), h, EditStep(CFree(p), k, h.base + Total(h.blocks[..k]), h))
  {
    hide Total, Find, CheckOk, Release;
    var d := 0 - h.blocks[k].length;
    assert Straight(Join(k)) && Gentle(h, Join(k));
    assert Finish(Book(d, Join(k)), h) == Finish(Join(k), Booked(h, d));
  }

  lemma WholePlaces(call: Call, h: Heap)
    requires Places(call) && AlignOf(call) > 0 && Enter(call, h.base) == Done(Walk(0, h.base))
             && Stop(call, h) < |h.blocks|
    ensures Whole(call, h) ==
            match AllocAt(h, Wanted(call), AlignOf(call))
            case Halted => Halted
            case Done(r) => Done(Result(r.heap, PlacedReturn(call.CTry?, r.addr).ret))
  {
    hide Total, FirstFit, Padded, RoundedAlign, Placed, StopFrom;
    StopIsSearch(call, h.blocks, h.base);
  }

  lemma PlaceOn(call: Call, h: Heap, k: nat, addr: nat)
    requires Places(call) && AlignOf(call) > 0 && OnWay(call, h, Edit(k, addr), h)
    ensures Surgery(call, h, EditStep(call, k, addr, h))
  {
    hide Total, FirstFit, AllocAt, Skip, Whole, Finish, Straight, Enter, Wanted, AlignOf, PlaceStep, Gentle, StopFrom;
    WholePlaces(call, h);
    StopIsSearch(call, h.blocks, h.base);
    PlaceStepIs(h, Wanted(call), AlignOf(call), k, call.CTry?);
  }

  lemma PlaceStepIs(h: Heap, n: nat, align: nat, k: nat, trying: bool)
    requires align > 0 && k == FirstFit(h.blocks, h.base, n, align) < |h.blocks|
    ensures var addr := h.base + Total(h.blocks[..k]);
            match PlaceStep(n, Skip(addr, align), trying, k, addr, h)
            case Halted => AllocAt(h, n, align) == Halted
            case Done(next) =>
              && Straight(next.0) && AllocAt(h, n, align).Done?
              && Finish(next.0, next.1) ==
                 Done(Result(AllocAt(h, n, align).value.heap,
                             PlacedReturn(trying, AllocAt(h, n, align).value.addr).ret))
              && Gentle(h, next.0) && next.1 == h.(blocks := next.1.blocks) && !EndsInJoin(next.0)
  {
    var addr := h.base + Total(h.blocks[..k]);
    var gap := Skip(addr, align);
    FirstFitFits(h.blocks, h.base, n, align);
    AllocAtChosen(h, n, align, k, gap);
    hide Total, FirstFit, Place, Guard, AllocAt, Skip, Finish, Straight, Gentle, Harmless, GuardPc;
    PlaceIsHarmless(h, k, gap, n);
    var ret := PlacedReturn(trying, addr + gap + REDZONE).ret;
    GentleGuard(h, n, addr + gap - h.base, ret);
    if |Place(h.blocks, k, gap, n)| <= h.slots {
      FinishGuard(n, addr + gap - h.base, ret, h.(blocks := Place(h.blocks, k, gap, n)));
    }
  }

  lemma ResizeOn(call: Call, h: Heap, k: nat, addr: nat)
    requires call.CTry? && call.p != 0 && OnWay(call, h, Edit(k, addr), h)
    ensures Surgery(call, h, EditStep(call, k, addr, h))
  {
    hide Total, Find, Padded, Fill, Harmless, StopFrom;
    StopIsSearch(call, h.blocks, h.base);
    var n, len := Wanted(call), h.blocks[k].length;
    var off := addr - h.base;
    FinishPaint(off + len - REDZONE, 1, h);
    ResizeIsHarmless(h, k, len);
    assert Gentle(h, Return(1)) && Gentle(h, Paint(off + len - REDZONE, Return(1)));
    if n > len && CanGrow(h.blocks, k, n) {
      ResizeIsHarmless(h, k, n);
      FinishBookPaint(n - len, off + n - REDZONE, 1, h.(blocks := Grow(h.blocks, k, n)));
      assert Gentle(h, Paint(off + n - REDZONE, Return(1)));
    }
  }

  lemma MicroOnWay(call: Call, h0: Heap, pc: Pc, h: Heap)
    requires !pc.Return? && OnWay(call, h0, pc, h)
    ensures match Micro(call, pc, h)
            case Done(next) => OnWay(call, h0, next.0, next.1)
            case Halted => Whole(call, h0).Halted?
  {
    hide Booked, Fill, Total, Whole, Enter, StopFrom, AlignOf, Wanted, EditStep, Finish, Gentle, Straight, Harmless;
    hide ClientByte;
    match pc
    case Walk(k, addr) => WalkOn(call, h0, k, addr);
    case Edit(k, addr) =>
      EditOn(call, h0, k, addr);
      NotWalking(EditStep(call, k, addr, h0));
    case _ => StraightOn(call, h0, pc, h);
  }

  lemma NotWalking(next: Outcome<(Pc, Heap)>)
    ensures next.Done? && Straight(next.value.0) ==> !next.value.0.Walk? && !next.value.0.Edit?
  {
  }

  lemma StraightOn(call: Call, h0: Heap, pc: Pc, h: Heap)
    requires (pc.Book? || pc.Paint? || pc.Join?) && OnWay(call, h0, pc, h)
    ensures match Micro(call, pc, h)
            case Done(next) => OnWay(call, h0, next.0, next.1)
            case Halted => Whole(call, h0).Halted?
  {
    hide Booked, Total, Whole, Enter, StopFrom, AlignOf, Wanted, EditStep, Release, ClientByte;
    match pc
    case Book(d, next) =>
      assert Straight(next) && Gentle(h0, next) && Finish(pc, h) == Finish(next, Booked(h, d));
      BookIsQuiet(h, d);
    case Paint(off, next) =>
      assert Straight(next) && Gentle(h0, next) && Finish(pc, h) == Finish(next, Painted(h, off));
      PaintIsQuiet(h0, h, off);
    case Join(_) =>
  }

  lemma BookIsQuiet(h: Heap, d: int)
    ensures Booked(h, d) == h.(usedmem := Booked(h, d).usedmem, freemem := Booked(h, d).freemem)
  {
  }

  lemma PaintIsQuiet(h0: Heap, h: Heap, off: int)
    requires Quiet(h0, h) && Harmless(h0, off)
    ensures Quiet(h0, Painted(h, off))
  {
    hide ClientByte;
  }

  // ---- client stores during a call ----

  /** The store stays on client bytes. */
  ghost predicate Owns(h: Heap, a: nat, data: seq<Byte>) {
    InHeap(h, a, |data|) && forall i :: a <= i < a + |data| ==> ClientByte(h, i)
  }

  function Lifted(r: Outcome<Result>, a: nat, data: seq<Byte>): Outcome<Result>
    requires r.Done? ==> InHeap(r.value.heap, a, |data|)
  {
    match r
    case Halted => Halted
    case Done(v) => Done(v.(heap := Written(v.heap, a, data)))
  }

  lemma PaintCommutes(h0: Heap, h: Heap, off: int, a: nat, data: seq<Byte>)
    requires Owns(h0, a, data) && InHeap(h, a, |data|) && h.base == h0.base && Harmless(h0, off)
    ensures Painted(Written(h, a, data), off) == Written(Painted(h, off), a, data)
  {
    hide ClientByte;
    var one, two := Painted(Written(h, a, data), off).mem, Written(Painted(h, off), a, data).mem;
    forall i | 0 <= i < |one| ensures one[i] == two[i] {
      assert a <= h.base + i < a + |data| ==> ClientByte(h0, h.base + i);
    }
  }

  /** The rest of a call does to a heap with the store what it does without, and the store stays. */
  lemma {:induction false} FinishCommutes(h0: Heap, pc: Pc, h: Heap, a: nat, data: seq<Byte>)
    requires Owns(h0, a, data) && InHeap(h, a, |data|) && h.base == h0.base && Gentle(h0, pc)
    ensures Finish(pc, h).Done? ==> InHeap(Finish(pc, h).value.heap, a, |data|)
    ensures Finish(pc, Written(h, a, data)) == Lifted(Finish(pc, h), a, data)
    decreases pc
  {
    hide Harmless, ClientByte, Owns, Release, Fill;
    match pc
    case Book(d, next) =>
      FinishCommutes(h0, next, Booked(h, d), a, data);
    case Paint(off, next) =>
      PaintCommutes(h0, h, off, a, data);
      FinishCommutes(h0, next, Painted(h, off), a, data);
    case _ =>
  }

  /** `check` reads redzones, which a client store does not touch. */
  lemma CheckCommutes(h: Heap, p: nat, a: nat, data: seq<Byte>)
    requires Owns(h, a, data)
    ensures CheckOk(Written(h, a, data), p) == CheckOk(h, p)
  {
    var k := Find(h.blocks, h.base, p - REDZONE);
    if k < |h.blocks| && h.blocks[k].length >= MIN_USED && Total(h.blocks[..k]) + h.blocks[k].length <= |h.mem| {
      ResizeIsHarmless(h, k, h.blocks[k].length);
      HeadIsHarmless(h, k);
      hide Total, Find, Harmless;
      RedzoneReads(h, Total(h.blocks[..k]), a, data);
      RedzoneReads(h, Total(h.blocks[..k]) + h.blocks[k].length - REDZONE, a, data);
    }
  }

  lemma HeadIsHarmless(h: Heap, k: nat)
    requires k < |h.blocks|
    ensures Harmless(h, Total(h.blocks[..k]))
  {
    forall e | e in h.Allocs()
      ensures h.base + Total(h.blocks[..k]) <= e.start || h.base + Total(h.blocks[..k]) >= e.start + e.length
    {
      LiveBeside(h.blocks, h.base, k, e);
    }
    RedzoneBeside(h, Total(h.blocks[..k]));
  }

  lemma RedzoneReads(h: Heap, off: nat, a: nat, data: seq<Byte>)
    requires Owns(h, a, data) && Harmless(h, off) && off + REDZONE <= |h.mem|
    ensures AllMagic(Written(h, a, data).mem, off, REDZONE) == AllMagic(h.mem, off, REDZONE)
  {
    hide ClientByte;
    var g := Written(h, a, data);
    forall i | off <= i < off + REDZONE ensures g.mem[i] == h.mem[i] {
      assert !ClientByte(h, h.base + i);
    }
  }

  /** The list surgery does not see a client store. */
  lemma EditCommutes(call: Call, k: nat, addr: nat, h: Heap, a: nat, data: seq<Byte>)
    requires Owns(h, a, data)
    ensures var w := Written(h, a, data);
            match EditStep(call, k, addr, h)
            case Halted => EditStep(call, k, addr, w) == Halted
            case Done(n) => EditStep(call, k, addr, w) == Done((n.0, n.1.(mem := w.mem)))
  {
    hide Owns, CheckOk, Place, Grow, CanGrow, Padded, Skip;
    if call.CFree? {
      CheckCommutes(h, call.p, a, data);
    }
  }

  lemma EnterIsWhole(call: Call, h: Heap)
    ensures Enter(call, h.base).Halted? ==> Whole(call, h).Halted?
    ensures Enter(call, h.base).Done? && Enter(call, h.base).value.Return? ==>
              Whole(call, h) == Done(Result(h, Enter(call, h.base).value.ret))
    ensures Enter(call, h.base).Done? && !Enter(call, h.base).value.Return? ==>
              Enter(call, h.base) == Done(Walk(0, h.base))
  {
    hide AllocAt, Find, CheckOk, Padded;
  }

  /** A client store before a call comes to the same as the store after it. */
  lemma WholeCommutes(call: Call, h: Heap, a: nat, data: seq<Byte>)
    requires Owns(h, a, data)
    ensures Whole(call, h).Done? ==> InHeap(Whole(call, h).value.heap, a, |data|)
    ensures Whole(call, Written(h, a, data)) == Lifted(Whole(call, h), a, data)
  {
    hide ClientByte, Whole, Finish, Gentle, Straight, Enter, EditStep, StopFrom, Total, GuardPc, Wanted, Store;
    var w := Written(h, a, data);
    EnterIsWhole(call, h);
    EnterIsWhole(call, w);
    if Enter(call, h.base) == Done(Walk(0, h.base)) {
      var k := Stop(call, h);
      if k == |h.blocks| {
        WalkedOff(call, h);
        WalkedOff(call, w);
        if call.CAligned? {
          var end := Total(h.blocks);
          FinishCommutes(h, GuardPc(Wanted(call), end, Return(h.base + end + REDZONE)), h, a, data);
        }
      } else {
        EditedCommutes(call, h, k, a, data);
      }
    }
  }

  lemma EditedCommutes(call: Call, h: Heap, k: nat, a: nat, data: seq<Byte>)
    requires Owns(h, a, data) && Enter(call, h.base) == Done(Walk(0, h.base)) && k == Stop(call, h) < |h.blocks|
    ensures Whole(call, h).Done? ==> InHeap(Whole(call, h).value.heap, a, |data|)
    ensures Whole(call, Written(h, a, data)) == Lifted(Whole(call, h), a, data)
  {
    hide ClientByte, Whole, Finish, Gentle, Straight, Enter, EditStep, StopFrom, Total, Store;
    var w := Written(h, a, data);
    var addr := h.base + Total(h.blocks[..k]);
    EditOn(call, h, k, addr);
    EditOn(call, w, k, addr);
    EditCommutes(call, k, addr, h, a, data);
    var next := EditStep(call, k, addr, h);
    if next.Done? {
      FinishCommutes(h, next.value.0, next.value.1, a, data);
      assert Written(next.value.1, a, data) == next.value.1.(mem := w.mem);
    }
  }

  /** A call in progress does not notice a client store: it is on its way from the heap with the store. */
  lemma StoreOn(call: Call, h0: Heap, pc: Pc, h: Heap, a: nat, data: seq<Byte>)
    requires OnWay(call, h0, pc, h) && Owns(h0, a, data)
    ensures InHeap(h, a, |data|) && OnWay(call, Written(h0, a, data), pc, Written(h, a, data))
  {
    hide ClientByte, Whole, Finish, Straight, Enter, StopFrom, Total, Store, Gentle, Quiet;
    if !pc.Walk? && !pc.Edit? {
      StoreIsQuiet(h0, h, a, data);
      StoreIsGentle(h0, pc, a, data);
      WholeCommutes(call, h0, a, data);
      FinishCommutes(h0, pc, h, a, data);
    }
  }

  lemma StoreIsQuiet(h0: Heap, h: Heap, a: nat, data: seq<Byte>)
    requires Owns(h0, a, data) && Quiet(h0, h)
    ensures InHeap(h, a, |data|) && h.base == h0.base && Quiet(Written(h0, a, data), Written(h, a, data))
  {
    var g := Written(h0, a, data);
    forall i: nat | i < |h0.mem| && ClientByte(g, g.base + i) ensures Written(h, a, data).mem[i] == g.mem[i] {
      assert g.Allocs() == h0.Allocs();
    }
  }

  lemma {:induction false} StoreIsGentle(h: Heap, pc: Pc, a: nat, data: seq<Byte>)
    requires InHeap(h, a, |data|) && Gentle(h, pc)
    ensures Gentle(Written(h, a, data), pc)
    decreases pc
  {
    var g := Written(h, a, data);
    assert g.Allocs() == h.Allocs();
    match pc
    case Book(_, next) => StoreIsGentle(h, next, a, data);
    case Paint(off, next) =>
      StoreIsGentle(h, next, a, data);
      forall x | h.base + off <= x < h.base + off + REDZONE ensures !ClientByte(g, x) {
        assert !ClientByte(h, x);
      }
    case _ =>
  }

  // ---- any interleaving ----

  datatype Thread = Idle | Spinning(call: Call) | Inside(call: Call, pc: Pc)

  /** What the log holds: a call that has returned, with what it gave, or a store by a client. */
  datatype Event = Returned(tid: nat, call: Call, ret: nat) | Wrote(tid: nat, p: nat, at: nat, data: seq<Byte>)

  /**
   The machine: the lock word, the shared heap, and one state per thread. The two logs only record:
   `acquired` the order in which the lock was taken, `done` the calls that have returned and the client stores.
   */
  datatype World = World(lockvar: int, heap: Heap, threads: map<nat, Thread>, acquired: seq<(nat, Call)>,
                         done: seq<Event>)

  datatype Move =
    | Begin(tid: nat, call: Call)
    | CompareExchange(tid: nat)
    | Access(tid: nat)
    | Unlock(tid: nat)
    | ClientStore(tid: nat, p: nat, at: nat, data: seq<Byte>)   // at any time, lock or no lock

  /** One move of one thread; None when the thread cannot make it, Halted when it stops the machine. */
  function Next(w: World, m: Move): Option<Outcome<World>> {
    if m.tid !in w.threads then None
    else match (m, w.threads[m.tid])
      case (Begin(t, call), Idle) => Some(Done(w.(threads := w.threads[t := Spinning(call)])))
      case (CompareExchange(t), Spinning(call)) =>
        if w.lockvar != 0 then Some(Done(w))
        else (match Enter(call, w.heap.base)
              case Halted => Some(Halted)
              case Done(pc) =>
                Some(Done(w.(lockvar := 1, threads := w.threads[t := Inside(call, pc)],
                             acquired := w.acquired + [(t, call)]))))
      case (Access(t), Inside(call, pc)) =>
        if pc.Return? then None
        else (match Micro(call, pc, w.heap)
              case Halted => Some(Halted)
              case Done(n) => Some(Done(w.(heap := n.1, threads := w.threads[t := Inside(call, n.0)]))))
      case (Unlock(t), Inside(call, Return(ret))) =>
        Some(Done(w.(lockvar := 0, threads := w.threads[t := Idle], done := w.done + [Returned(t, call, ret)])))
      case (ClientStore(t, p, at, data), Idle) =>
        if InHeap(w.heap, p + at, |data|) then
          Some(Done(w.(heap := Written(w.heap, p + at, data), done := w.done + [Wrote(t, p, at, data)])))
        else Some(Halted)
      case _ => None
  }

  /** One logged event, run alone: a call has to return what was logged. */
  function Redo(h: Heap, event: Event): Outcome<Heap> {
    match event
    case Returned(_, call, ret) =>
      (match Whole(call, h)
       case Halted => Halted
       case Done(r) => if r.ret == ret then Done(r.heap) else Halted)
    case Wrote(_, p, at, data) => if InHeap(h, p + at, |data|) then Done(Written(h, p + at, data)) else Halted
  }

  /** The logged events one after the other, each alone. */
  function Replay(h: Heap, done: seq<Event>): Outcome<Heap> {
    if done == [] then Done(h)
    else
      match Replay(h, done[..|done| - 1])
      case Halted => Halted
      case Done(g) => Redo(g, done[|done| - 1])
  }

  lemma ReplayMore(h: Heap, done: seq<Event>, event: Event)
    requires Replay(h, done).Done?
    ensures Replay(h, done + [event]) == Redo(Replay(h, done).value, event)
  {
    assert (done + [event])[..|done|] == done;
  }

  /** The calls of a log, in order. */
  function Calls(done: seq<Event>): seq<(nat, Call)> {
    if done == [] then []
    else
      var last := done[|done| - 1];
      Calls(done[..|done| - 1]) + if last.Returned? then [(last.tid, last.call)] else []
  }

  lemma CallsMore(done: seq<Event>, event: Event)
    ensures Calls(done + [event]) == Calls(done) + if event.Returned? then [(event.tid, event.call)] else []
  {
    assert (done + [event])[..|done|] == done;
  }

  /** The store lies in an allocation that is live in h. */
  ghost predicate StoreAllowed(h: Heap, p: nat, at: nat, data: seq<Byte>) {
    Allowed(h, WriteOp(p, at, data))
  }

  /** Every client store of the log went into an allocation that was live at that point of the log. */
  ghost predicate StoresOwned(h: Heap, done: seq<Event>) {
    done != [] ==>
      var before, last := done[..|done| - 1], done[|done| - 1];
      && StoresOwned(h, before)
      && (last.Wrote? && Replay(h, before).Done? ==> StoreAllowed(Replay(h, before).value, last.p, last.at, last.data))
  }

  lemma {:induction false} StoresOwnedBefore(h: Heap, done: seq<Event>, k: nat)
    requires StoresOwned(h, done) && k <= |done|
    ensures StoresOwned(h, done[..k])
  {
    if k < |done| {
      var before := done[..|done| - 1];
      StoresOwnedBefore(h, before, k);
      assert before[..k] == done[..k];
    } else {
      assert done[..k] == done;
    }
  }

  lemma StoreIsOwned(h: Heap, p: nat, at: nat, data: seq<Byte>)
    requires StoreAllowed(h, p, at, data) && InHeap(h, p + at, |data|)
    ensures Owns(h, p + at, data)
  {
    var e :| e in h.Allocs() && e.start + REDZONE == p && at + |data| <= e.length - 2 * REDZONE;
    forall i | p + at <= i < p + at + |data| ensures ClientByte(h, i) {
      assert Usable(e, i);
    }
  }

  ghost predicate IsInside(w: World, t: nat) {
    t in w.threads && w.threads[t].Inside?
  }

  /** Nobody is inside and the heap is the sequential one, or exactly one thread is on the way of its call. */
  ghost predicate Serial(h0: Heap, w: World) {
    && Replay(h0, w.done).Done?
    && (w.lockvar == 0 ==>
          (forall t :: !IsInside(w, t)) && w.heap == Replay(h0, w.done).value && w.acquired == Calls(w.done))
    && (w.lockvar != 0 ==> exists t :: Holds(h0, w, t))
  }

  ghost predicate Holds(h0: Heap, w: World, t: nat)
    requires Replay(h0, w.done).Done?
  {
    && IsInside(w, t) && (forall u :: IsInside(w, u) ==> u == t)
    && var call := w.threads[t].call;
       && w.acquired == Calls(w.done) + [(t, call)]
       && OnWay(call, Replay(h0, w.done).value, w.threads[t].pc, w.heap)
  }

  lemma EnterOnWay(call: Call, h: Heap)
    requires Enter(call, h.base).Done?
    ensures OnWay(call, h, Enter(call, h.base).value, h)
  {
    hide Whole, Enter, StopFrom;
    EnterIsWhole(call, h);
    assert h.blocks[..0] == [] && h.blocks[0..] == h.blocks;
  }

  lemma NextIsSerial(h0: Heap, w: World, m: Move)
    requires Serial(h0, w) && Next(w, m).Some? && Next(w, m).value.Done?
    requires StoresOwned(h0, Next(w, m).value.value.done)
    ensures Serial(h0, Next(w, m).value.value)
  {
    hide OnWay, Micro, Enter, Whole, Replay, Calls, StoresOwned;
    if m.ClientStore? {
      StoreIsSerial(h0, w, m);
    } else {
      var v := Next(w, m).value.value;
      var t := m.tid;
      assert forall u :: u != t ==> (IsInside(v, u) <==> IsInside(w, u));
      assert IsInside(w, t) ==> w.lockvar != 0;
      if w.lockvar == 0 {
        if m.CompareExchange? {
          EnterOnWay(w.threads[t].call, w.heap);
          assert Holds(h0, v, t);
        }
      } else {
        var u :| Holds(h0, w, u);
        match m
        case Begin(_, _) => assert Holds(h0, v, u);
        case CompareExchange(_) =>
        case Access(_) =>
          assert IsInside(w, t);
          MicroOnWay(w.threads[t].call, Replay(h0, w.done).value, w.threads[t].pc, w.heap);
          assert Holds(h0, v, t);
        case Unlock(_) =>
          assert IsInside(w, t);
          Completed(h0, w, t);
      }
    }
  }

  lemma Completed(h0: Heap, w: World, t: nat)
    requires Replay(h0, w.done).Done? && Holds(h0, w, t) && w.threads[t].pc.Return?
    ensures var done := w.done + [Returned(t, w.threads[t].call, w.threads[t].pc.ret)];
            Replay(h0, done) == Done(w.heap) && w.acquired == Calls(done)
  {
    hide Whole;
    var event := Returned(t, w.threads[t].call, w.threads[t].pc.ret);
    ReplayMore(h0, w.done, event);
    CallsMore(w.done, event);
  }

  /** A client store is logged before the call in progress, which goes on as if it had come first. */
  lemma StoreIsSerial(h0: Heap, w: World, m: Move)
    requires m.ClientStore? && Serial(h0, w) && Next(w, m).Some? && Next(w, m).value.Done?
    requires StoresOwned(h0, Next(w, m).value.value.done)
    ensures Serial(h0, Next(w, m).value.value)
  {
    hide OnWay, Replay, Calls, Whole, Written, Owns;
    var v := Next(w, m).value.value;
    var event := Wrote(m.tid, m.p, m.at, m.data);
    assert v.done == w.done + [event];
    LastStore(h0, w.done, event);
    ReplayMore(h0, w.done, event);
    CallsMore(w.done, event);
    assert forall u :: IsInside(v, u) <==> IsInside(w, u);
    var g := Replay(h0, w.done).value;
    if w.lockvar != 0 {
      var u :| Holds(h0, w, u);
      SameMemory(w.threads[u].call, g, w.threads[u].pc, w.heap);
      StoreIsOwned(g, m.p, m.at, m.data);
      StoreOn(w.threads[u].call, g, w.threads[u].pc, w.heap, m.p + m.at, m.data);
      assert Holds(h0, v, u);
    }
  }

  lemma LastStore(h: Heap, done: seq<Event>, event: Event)
    requires event.Wrote? && StoresOwned(h, done + [event]) && Replay(h, done).Done?
    ensures StoreAllowed(Replay(h, done).value, event.p, event.at, event.data)
  {
    assert (done + [event])[..|done|] == done;
  }

  lemma SameMemory(call: Call, h0: Heap, pc: Pc, h: Heap)
    requires OnWay(call, h0, pc, h)
    ensures Quiet(h0, h)
  {
  }

  // ---- whole runs of the machine ----

  ghost predicate Initial(h: Heap, w: World) {
    w.lockvar == 0 && w.heap == h && w.acquired == [] && w.done == []
      && forall t :: t in w.threads ==> w.threads[t].Idle?
  }

  /** The world after the given moves; None if one of them is not possible or stops the machine. */
  function After(w: World, moves: seq<Move>): Option<World>
    decreases |moves|
  {
    if moves == [] then Some(w)
    else match Next(w, moves[0])
      case Some(Done(v)) => After(v, moves[1..])
      case _ => None
  }

  lemma {:induction false} LogGrows(w: World, moves: seq<Move>)
    requires After(w, moves).Some?
    ensures w.done <= After(w, moves).value.done
    decreases |moves|
  {
    hide Micro, Enter;
    if moves != [] {
      LogGrows(Next(w, moves[0]).value.value, moves[1..]);
    }
  }

  lemma {:induction false} AfterIsSerial(h: Heap, w: World, moves: seq<Move>)
    requires Serial(h, w) && After(w, moves).Some? && StoresOwned(h, After(w, moves).value.done)
    ensures Serial(h, After(w, moves).value)
    decreases |moves|
  {
    hide Next, Serial, StoresOwned;
    if moves != [] {
      var v := Next(w, moves[0]).value.value;
      LogGrows(v, moves[1..]);
      StoresOwnedBefore(h, After(w, moves).value.done, |v.done|);
      assert After(w, moves).value.done[..|v.done|] == v.done;
      NextIsSerial(h, w, moves[0]);
      AfterIsSerial(h, v, moves[1..]);
    }
  }

  lemma InitialIsSerial(h: Heap, w: World)
    requires Initial(h, w)
    ensures Serial(h, w)
  {
    assert forall t :: !IsInside(w, t);
    assert Calls(w.done) == [];
  }

  /**
   However the threads interleave, with client stores at any moment: at most one thread is inside a guarded
   call, the calls that have returned gave what they would have given run alone in the order the lock was taken,
   whenever the lock is free the heap is the one that sequential run leaves, and even in the middle of a call
   every byte of every allocation reads as in the sequential run.
   */
  lemma LockedHeapIsSequential(h: Heap, start: World, moves: seq<Move>)
    requires Initial(h, start) && After(start, moves).Some? && StoresOwned(h, After(start, moves).value.done)
    ensures var w := After(start, moves).value;
            && (forall t, u :: IsInside(w, t) && IsInside(w, u) ==> t == u)
            && Calls(w.done) <= w.acquired && |w.acquired| <= |Calls(w.done)| + 1
            && Replay(h, w.done).Done?
            && (w.lockvar == 0 ==> Replay(h, w.done) == Done(w.heap) && w.acquired == Calls(w.done))
            && Quiet(Replay(h, w.done).value, w.heap)
  {
    InitialIsSerial(h, start);
    AfterIsSerial(h, start, moves);
    var w := After(start, moves).value;
    hide After, Replay, Calls, OnWay;
    if w.lockvar != 0 {
      var t :| Holds(h, w, t);
      SameMemory(w.threads[t].call, Replay(h, w.done).value, w.threads[t].pc, w.heap);
    }
  }

  /** What stops the machine would also stop it run alone, in its turn. */
  lemma HaltsOnlySequentially(h: Heap, start: World, moves: seq<Move>, m: Move)
    requires Initial(h, start) && After(start, moves).Some? && StoresOwned(h, After(start, moves).value.done)
    requires Next(After(start, moves).value, m) == Some(Halted)
    ensures var w := After(start, moves).value;
            && Replay(h, w.done).Done?
            && if m.ClientStore? then Redo(Replay(h, w.done).value, Wrote(m.tid, m.p, m.at, m.data)).Halted?
               else !w.threads[m.tid].Idle? && Whole(w.threads[m.tid].call, Replay(h, w.done).value).Halted?
  {
    LockedHeapIsSequential(h, start, moves);
    InitialIsSerial(h, start);
    AfterIsSerial(h, start, moves);
    var w := After(start, moves).value;
    hide After, Replay, Calls, OnWay, Micro, Enter, Whole;
    if m.CompareExchange? {
      EnterIsWhole(w.threads[m.tid].call, w.heap);
    } else if m.Access? {
      assert IsInside(w, m.tid);
      var t :| Holds(h, w, t);
      MicroOnWay(w.threads[t].call, Replay(h, w.done).value, w.threads[t].pc, w.heap);
    }
  }

  // ---- the heap invariant whenever the lock is free ----

  function OpOf(event: Event): Op {
    match event
    case Returned(_, CAlloc(size), _) => AllocOp(size)
    case Returned(_, CAligned(size, align), _) => AlignedOp(size, align)
    case Returned(_, CFree(p), _) => FreeOp(p)
    case Returned(_, CTry(p, newsize), _) => ReallocOp(p, newsize)
    case Wrote(_, p, at, data) => WriteOp(p, at, data)
  }

  lemma RedoKeeps(event: Event, h: Heap)
    requires Inv(h) && Allowed(h, OpOf(event)) && Redo(h, event).Done?
    ensures Inv(Redo(h, event).value)
  {
    hide Inv, Allowed, Alloc, AllocAligned, FreePtr, TryRealloc, Realloc, IsLive, Padded;
    if event.Returned? && event.call.CTry? {
      assert OpOf(event) == ReallocOp(event.call.p, event.call.newsize);
      AllowedSize(h, event.call.p, event.call.newsize);
      var _ := TryEffect(h, event.call.p, event.call.newsize);
    } else {
      var _ := StepEffect(h, OpOf(event));
    }
  }

  lemma AllowedSize(h: Heap, p: nat, newsize: nat)
    requires Allowed(h, ReallocOp(p, newsize))
    ensures newsize <= MAX_REQUEST
  {
  }

  /** Every logged event was one its author was allowed, at the point where it ran. */
  ghost predicate AllAllowed(h: Heap, done: seq<Event>) {
    done != [] ==>
      var before := done[..|done| - 1];
      AllAllowed(h, before) && (Replay(h, before).Done? ==> Allowed(Replay(h, before).value, OpOf(done[|done| - 1])))
  }

  lemma {:induction false} AllowedAreOwned(h: Heap, done: seq<Event>)
    requires AllAllowed(h, done)
    ensures StoresOwned(h, done)
  {
    hide Replay, Allowed;
    if done != [] {
      AllowedAreOwned(h, done[..|done| - 1]);
    }
  }

  lemma {:induction false} ReplayKeeps(h: Heap, done: seq<Event>)
    requires Inv(h) && AllAllowed(h, done) && Replay(h, done).Done?
    ensures Inv(Replay(h, done).value)
  {
    hide Inv, Redo, Allowed;
    if done != [] {
      ReplayKeeps(h, done[..|done| - 1]);
      RedoKeeps(done[|done| - 1], Replay(h, done[..|done| - 1]).value);
    }
  }

  /** With callers that ask for nothing the allocator cannot do, the heap is sound whenever the lock is free. */
  lemma SoundWhenFree(h: Heap, start: World, moves: seq<Move>)
    requires Inv(h) && Initial(h, start) && After(start, moves).Some?
    requires AllAllowed(h, After(start, moves).value.done) && After(start, moves).value.lockvar == 0
    ensures Inv(After(start, moves).value.heap)
  {
    hide Inv;
    AllowedAreOwned(h, After(start, moves).value.done);
    LockedHeapIsSequential(h, start, moves);
    ReplayKeeps(h, After(start, moves).value.done);
  }
}
