/** The kernel heap (kernel/src/util/mm.cc): the code, proved to do what HeapState says. */
module HeapManager {
  import opened Machine
  import opened Bitmaps
  import opened HeapBlocks
  import opened HeapOps
  import opened HeapState
  import opened HeapRuns
  import opened LinkList

  const LINK_BYTES := 48

  /** A descriptor's bit is set exactly when the descriptor is in the list. */
  predicate Tracks(bits: seq<bool>, order: seq<int>) {
    InRange(order, |bits|) && forall j :: 0 <= j < |bits| ==> (bits[j] <==> j in order)
  }

  function Elements(order: seq<int>): set<int> {
    set x | x in order
  }

  lemma {:induction false} DistinctSize(order: seq<int>)
    requires Distinct(order)
    ensures |Elements(order)| == |order|
  {
    if order != [] {
      var front, last := order[..|order| - 1], order[|order| - 1];
      DistinctSize(front);
      assert Elements(order) == Elements(front) + {last};
    }
  }

  function Range(n: nat): (r: set<int>)
    ensures forall x :: x in r <==> 0 <= x < n
    ensures |r| == n
  {
    if n == 0 then {} else Range(n - 1) + {n - 1}
  }

  lemma SubsetSize(a: set<int>, b: set<int>)
    requires a <= b
    ensures |a| <= |b|
  {
    assert b == a + (b - a);
  }

  /** The list never holds more descriptors than the bitmap has bits, and fills it only when every bit is set. */
  lemma Pigeonhole(bits: seq<bool>, order: seq<int>)
    requires Distinct(order) && Tracks(bits, order)
    ensures |order| <= |bits|
    ensures (forall j :: 0 <= j < |bits| ==> bits[j]) ==> |order| == |bits|
  {
    DistinctSize(order);
    SubsetSize(Elements(order), Range(|bits|));
    if forall j :: 0 <= j < |bits| ==> bits[j] {
      assert Range(|bits|) == Elements(order);
    }
  }

  lemma NextBlock(bs: seq<Block>, k: nat)
    requires k < |bs|
    ensures Total(bs[..k + 1]) == Total(bs[..k]) + bs[k].length
    ensures bs[k..][0] == bs[k] && bs[k..][1..] == bs[k + 1..]
  {
    assert bs[..k + 1] == bs[..k] + [bs[k]];
    Concat(bs[..k], [bs[k]], 0);
  }

  /** One step of a search for room, and of a search for an address. */
  lemma FitStep(bs: seq<Block>, k: nat, addr: nat, size: nat, align: nat)
    requires k < |bs| && align > 0
    ensures FirstFit(bs[k..], addr, size, align) ==
            if Fits(bs[k], addr, size, align) then 0 else 1 + FirstFit(bs[k + 1..], addr + bs[k].length, size, align)
  {
    NextBlock(bs, k);
  }

  lemma PlainFitStep(bs: seq<Block>, k: nat, base: nat, size: nat)
    requires k < |bs| && Shape(bs) && base % MIN_ALLOC == 0
    ensures var addr := base + Total(bs[..k]);
            FirstFit(bs[k..], addr, size, MIN_ALLOC) ==
            if bs[k].free && bs[k].length >= size then 0
            else 1 + FirstFit(bs[k + 1..], addr + bs[k].length, size, MIN_ALLOC)
    ensures Total(bs[..k + 1]) == Total(bs[..k]) + bs[k].length
  {
    NextBlock(bs, k);
    PrefixAligned(bs, k);
    NoSkip(base + Total(bs[..k]));
    FitStep(bs, k, base + Total(bs[..k]), size, MIN_ALLOC);
  }

  lemma FindStep(bs: seq<Block>, k: nat, addr: int, p: int)
    requires k < |bs|
    ensures Find(bs[k..], addr, p) == if addr == p then 0 else 1 + Find(bs[k + 1..], addr + bs[k].length, p)
  {
    NextBlock(bs, k);
  }

  lemma NoneLeft(bs: seq<Block>, addr: nat, size: nat, align: nat)
    ensures align > 0 ==> FirstFit(bs[|bs|..], addr, size, align) == 0
  {
  }

  lemma NotFound(bs: seq<Block>, addr: int, p: int)
    ensures Find(bs[|bs|..], addr, p) == 0
  {
  }

  /** How the code tests for alignment agrees with the skip it computes. */
  lemma SkipTests(addr: nat, align: nat)
    requires align > 0
    ensures Skip(addr, align) == AlignUp(addr + REDZONE, align) - (addr + REDZONE)
    ensures Skip(addr, align) == 0 <==> (addr + REDZONE) % align == 0
  {
    AlignUpIsLeast(addr + REDZONE, align);
    if (addr + REDZONE) % align == 0 {
      MultiplesApart(addr + REDZONE, AlignUp(addr + REDZONE, align), align);
    }
  }

  function GapSplit(bs: seq<Block>, k: nat, gap: nat): seq<Block>
    requires k < |bs| && gap <= bs[k].length
  {
    bs[..k] + [Block(gap, true), bs[k].(length := bs[k].length - gap)] + bs[k + 1..]
  }

  lemma GapSplitAt(bs: seq<Block>, k: nat, gap: nat)
    requires k < |bs| && gap <= bs[k].length
    ensures var cs := GapSplit(bs, k, gap);
            && |cs| == |bs| + 1
            && (forall i :: 0 <= i < k ==> cs[i] == bs[i])
            && cs[k] == Block(gap, true) && cs[k + 1] == bs[k].(length := bs[k].length - gap)
            && (forall i :: k + 1 < i < |cs| ==> cs[i] == bs[i - 1])
  {
  }

  lemma PlaceAfterGap(bs: seq<Block>, k: nat, gap: nat, n: nat)
    requires k < |bs| && 0 < gap && gap + n <= bs[k].length
    ensures |GapSplit(bs, k, gap)| == |bs| + 1 && GapSplit(bs, k, gap)[k + 1] == bs[k].(length := bs[k].length - gap)
    ensures Place(GapSplit(bs, k, gap), k + 1, 0, n) == Place(bs, k, gap, n)
    ensures |Place(bs, k, gap, n)| >= |bs| + 1
  {
    var cs := GapSplit(bs, k, gap);
    assert cs[..k + 1] == bs[..k] + [Block(gap, true)];
    assert cs[k + 2..] == bs[k + 1..];
  }

  /** Writing two descriptors leaves the others. */
  lemma OthersSame(ls: seq<Link>, ls': seq<Link>, order: seq<int>, k: nat, node: int)
    requires InRange(order, |ls|) && Distinct(order) && |ls'| == |ls| && k < |order| && 0 <= node < |ls|
             && node !in order
    requires ls' == ls[order[k] := ls'[order[k]]][node := ls'[node]]
    ensures forall i :: 0 <= i < |order| && i != k ==> ls'[order[i]] == ls[order[i]]
  {
  }

  lemma SplitBlocks(ls: seq<Link>, ls': seq<Link>, order: seq<int>, k: nat, node: int, gap: nat)
    requires InRange(order, |ls|) && Distinct(order) && |ls'| == |ls| && k < |order| && 0 <= node < |ls|
             && node !in order
    requires gap <= ls[order[k]].length
    requires ls' == ls[order[k] := ls'[order[k]]][node := ls'[node]]
    requires ls'[order[k]].length == ls[order[k]].length - gap && ls'[order[k]].free == ls[order[k]].free
    requires ls'[node].length == gap && ls'[node].free
    ensures InRange(Inserted(order, k, node), |ls'|)
    ensures forall ls'' :: SameBlocks(ls', ls'') ==>
              BlocksOf(ls'', Inserted(order, k, node)) == GapSplit(BlocksOf(ls, order), k, gap)
  {
    hide Distinct, GapSplit;
    OthersSame(ls, ls', order, k, node);
    GapSplitAt(BlocksOf(ls, order), k, gap);
    forall ls'' | SameBlocks(ls', ls'')
      ensures BlocksOf(ls'', Inserted(order, k, node)) == GapSplit(BlocksOf(ls, order), k, gap)
    {
      var bs, cs := BlocksOf(ls'', Inserted(order, k, node)), GapSplit(BlocksOf(ls, order), k, gap);
      forall i | 0 <= i < |bs| ensures bs[i] == cs[i] {
      }
    }
  }

  function Absorb(bs: seq<Block>, k: nat): seq<Block>
    requires k + 1 < |bs|
  {
    bs[..k] + [bs[k].(length := bs[k].length + bs[k + 1].length)] + bs[k + 2..]
  }

  /** What `merge` does: first the block after, then the block before. */
  function Merged(bs: seq<Block>, k: nat): seq<Block>
    requires k < |bs|
  {
    var cs := if k + 1 < |bs| && bs[k + 1].free then Absorb(bs, k) else bs;
    if k > 0 && cs[k - 1].free then Absorb(cs, k - 1) else cs
  }

  lemma MergedIsRelease(bs: seq<Block>, k: nat)
    requires k < |bs|
    ensures Merged(bs[k := bs[k].(free := true)], k) == Release(bs, k)
  {
    var lo, hi := k - LeftFree(bs, k), k + 1 + RightFree(bs, k);
    StretchTotal(bs, k, lo, hi);
    var fs := bs[k := bs[k].(free := true)];
    var ms, rs := Merged(fs, k), Release(bs, k);
    hide Total;
    assert |ms| == |rs|;
    forall i | 0 <= i < |ms| ensures ms[i] == rs[i] {
    }
  }

  lemma StretchTotal(bs: seq<Block>, k: nat, lo: nat, hi: nat)
    requires k - 1 <= lo <= k < hi <= k + 2 && hi <= |bs|
    ensures Total(bs[lo..hi]) == (if lo < k then bs[lo].length else 0) + bs[k].length
              + (if k + 1 < hi then bs[k + 1].length else 0)
  {
    var left, right := bs[lo..k], bs[k + 1..hi];
    assert bs[lo..hi] == left + [bs[k]] + right;
    ThreeParts(left, [bs[k]], right);
    assert lo < k ==> left == [bs[lo]];
    assert k + 1 < hi ==> right == [bs[k + 1]];
  }

  lemma TracksRemoved(bits: seq<bool>, order: seq<int>, p: nat)
    requires Tracks(bits, order) && Distinct(order) && p < |order|
    ensures 0 <= order[p] < |bits| && order[p] !in Removed(order, p)
    ensures Tracks(bits[order[p] := false], Removed(order, p))
  {
    var o := Removed(order, p);
    forall j ensures j in o <==> j != order[p] && j in order {
      if j in order && j != order[p] {
        var i :| 0 <= i < |order| && order[i] == j;
        assert o[if i < p then i else i - 1] == j;
      }
    }
  }

  lemma AbsorbedBlocks(ls: seq<Link>, ls': seq<Link>, order: seq<int>, k: nat)
    requires InRange(order, |ls|) && Distinct(order) && k + 1 < |order|
    requires ls' == ls[order[k] := ls[order[k]].(length := ls[order[k]].length + ls[order[k + 1]].length)]
    ensures InRange(Removed(order, k + 1), |ls'|)
    ensures forall ls'' :: SameBlocks(ls', ls'') ==>
              BlocksOf(ls'', Removed(order, k + 1)) == Absorb(BlocksOf(ls, order), k)
  {
    forall ls'' | SameBlocks(ls', ls'')
      ensures BlocksOf(ls'', Removed(order, k + 1)) == Absorb(BlocksOf(ls, order), k)
    {
      var bs, cs := BlocksOf(ls'', Removed(order, k + 1)), Absorb(BlocksOf(ls, order), k);
      forall i | 0 <= i < |bs| ensures bs[i] == cs[i] {
      }
    }
  }

  /** What a walk knows of the descriptor at position k. */
  lemma AtNode(ls: seq<Link>, first: int, order: seq<int>, k: nat)
    requires Linked(ls, first, order) && k < |order|
    ensures 0 <= order[k] < |ls| && ls[order[k]].next == At(order, k + 1) && ls[order[k]].prev == At(order, k - 1)
    ensures k + 1 < |order| ==> 0 <= order[k + 1] < |ls|
    ensures k > 0 ==> 0 <= order[k - 1] < |ls|
    ensures BlocksOf(ls, order)[k] == Block(ls[order[k]].length, ls[order[k]].free)
  {
    assert NodeOk(ls, order, k);
  }

  lemma AtFirst(ls: seq<Link>, first: int, order: seq<int>)
    requires Linked(ls, first, order)
    ensures first == At(order, 0)
  {
  }

  lemma AtEnd(ls: seq<Link>, first: int, order: seq<int>, k: nat)
    requires Linked(ls, first, order) && k <= |order| && At(order, k) == NIL
    ensures k == |order|
  {
  }

  lemma NoBlocks(bs: seq<Block>)
    ensures Total(bs[..0]) == 0 && bs[0..] == bs
  {
  }

  /** Growing over the whole of the next block absorbs it. */
  lemma GrowWhole(bs: seq<Block>, k: nat, n: nat)
    requires k < |bs| && !bs[k].free && CanGrow(bs, k, n) && n == bs[k].length + bs[k + 1].length
    ensures Grow(bs, k, n) == Absorb(bs, k)
  {
  }

  lemma GrownBlocks(ls: seq<Link>, ls': seq<Link>, order: seq<int>, k: nat, n: nat)
    requires InRange(order, |ls|) && Distinct(order) && k < |order| && !ls[order[k]].free
    requires CanGrow(BlocksOf(ls, order), k, n) && n < ls[order[k]].length + ls[order[k + 1]].length
    requires var i, next := order[k], order[k + 1];
             ls' == ls[next := ls[next].(length := ls[next].length + ls[i].length - n)][i := ls[i].(length := n)]
    ensures BlocksOf(ls', order) == Grow(BlocksOf(ls, order), k, n)
  {
    var bs, cs := BlocksOf(ls', order), Grow(BlocksOf(ls, order), k, n);
    forall j | 0 <= j < |bs| ensures bs[j] == cs[j] {
    }
  }

  /** A `try_realloc` that says no has changed nothing. */
  lemma TryFails(h: Heap, p: nat, newsize: nat)
    requires Inv(h)
    ensures var t := HeapState.TryRealloc(h, p, newsize); t.Done? && !t.value.ok ==> t.value.heap == h
  {
    hide Total, FirstFit, Find, Padded, Skip, Placed, Grown, CanGrow;
  }

  /** Only a used block can grow: two free blocks are never neighbours. */
  lemma OnlyUsedGrow(h: Heap, p: nat, n: nat)
    requires Inv(h) && Find(h.blocks, h.base, p - REDZONE) < |h.blocks|
    ensures var k := Find(h.blocks, h.base, p - REDZONE);
            && (CanGrow(h.blocks, k, n) ==> !h.blocks[k].free) && BlockOk(h.blocks[k])
            && h.base + Total(h.blocks[..k]) + REDZONE == p
  {
    FindAt(h.blocks, h.base, p - REDZONE);
  }

  lemma TotalIsMemory(h: Heap)
    requires Inv(h)
    ensures Total(h.blocks) == |h.mem|
  {
  }

  lemma AllowedFits(h: Heap, op: Op)
    requires Inv(h) && Allowed(h, op)
    ensures match op
            case AllocOp(size) => size < TWO64
            case AlignedOp(size, _) => size < TWO64
            case ReallocOp(_, newsize) => newsize <= MAX_REQUEST
            case FreeOp(_) => true
            case WriteOp(p, at, data) => InHeap(h, p + at, |data|)
  {
    if op.WriteOp? {
      var _ := WriteEffect(h, op.p, op.at, op.data);
    }
  }

  lemma AlignedSearch(h: Heap, size: nat, align: nat)
    ensures Allowed(h, AlignedOp(size, align)) ==>
              && 0 < size <= MAX_REQUEST && RoundedAlign(align) > 0
              && FirstFit(h.blocks, h.base, Padded(size), RoundedAlign(align)) < |h.blocks|
  {
    if RoundedAlign(align) > 0 {
      SearchIsComplete(h, Padded(size), RoundedAlign(align));
    }
  }

  lemma AllocTotal(h: Heap, size: nat)
    requires Inv(h)
    ensures Alloc(h, size).Done? ==>
              Total(Alloc(h, size).value.heap.blocks) == |h.mem| == |Alloc(h, size).value.heap.mem|
  {
    hide Total, FirstFit, Place, Padded, Skip;
    if size > 0 && Alloc(h, size).Done? {
      var k := FirstFit(h.blocks, h.base, Padded(size), MIN_ALLOC);
      FirstFitFits(h.blocks, h.base, Padded(size), MIN_ALLOC);
      PlaceTotal(h.blocks, k, Skip(h.base + Total(h.blocks[..k]), MIN_ALLOC), Padded(size));
    }
  }

  lemma NoRoom(h: Heap, n: nat, align: nat)
    requires align > 0 && FirstFit(h.blocks, h.base, n, align) == |h.blocks|
    ensures AllocAt(h, n, align) == Halted
  {
  }

  lemma OneLink(ls: seq<Link>, bits: seq<bool>, size: nat)
    requires ls != [] && ls[0] == Link(NIL, NIL, size, true)
    requires bits != [] && forall j :: 0 <= j < |bits| ==> bits[j] == (j == 0)
    ensures Linked(ls, 0, [0]) && Tracks(bits, [0]) && BlocksOf(ls, [0]) == [Block(size, true)]
  {
    assert NodeOk(ls, [0], 0);
  }

  /** What an allocator that has chosen its block may rely on. */
  lemma ChosenReady(h: Heap, n: nat, align: nat, k: nat, gap: nat)
    requires Inv(h) && n % MIN_ALLOC == 0 && align > 0 && align % MIN_ALLOC == 0 && Chosen(h, n, align, k, gap)
    ensures k < |h.blocks| && h.blocks[k].free && gap + n <= h.blocks[k].length
    ensures AllocAt(h, n, align) ==
            if |Place(h.blocks, k, gap, n)| > h.slots then Halted
            else Done(Reply(Placed(h, k, gap, n), h.base + Total(h.blocks[..k]) + gap + REDZONE))
    ensures AllocAt(h, n, align).Done? && n >= MIN_USED ==> Inv(Placed(h, k, gap, n))
  {
    ChosenFits(h, n, align, k, gap);
    AllocAtChosen(h, n, align, k, gap);
    hide Inv, Chosen, AllocAt, Place, Total, Guard, Placed;
    if AllocAt(h, n, align).Done? && n >= MIN_USED {
      AllocAtKeeps(h, n, align);
    }
  }

  lemma PlainChosen(h: Heap, n: nat, k: nat)
    requires Inv(h) && k == FirstFit(h.blocks, h.base, n, MIN_ALLOC) < |h.blocks|
    ensures Chosen(h, n, MIN_ALLOC, k, 0)
  {
    hide Total, FirstFit, Skip;
    PrefixAligned(h.blocks, k);
    NoSkip(h.base + Total(h.blocks[..k]));
  }

  lemma InvShape(h: Heap)
    requires Inv(h)
    ensures Shape(h.blocks) && h.base % MIN_ALLOC == 0
  {
  }

  lemma TrySound(h: Heap, p: nat, newsize: nat)
    requires Inv(h) && newsize <= MAX_REQUEST
    ensures var t := HeapState.TryRealloc(h, p, newsize); t.Done? ==> Inv(t.value.heap)
  {
    hide Inv, HeapState.TryRealloc;
    if HeapState.TryRealloc(h, p, newsize).Done? {
      var _ := TryEffect(h, p, newsize);
    }
  }

  lemma StepSound(h: Heap, op: Op)
    requires Inv(h) && Allowed(h, op)
    ensures Step(h, op).Done? ==> Inv(Step(h, op).value.heap)
  {
    hide Inv, Allowed, Step;
    if Step(h, op).Done? {
      var _ := StepEffect(h, op);
    }
  }

  lemma FreshHeap(h: Heap)
    requires h.blocks == [Block(|h.mem|, true)] && h.usedmem == 0 && h.freemem == |h.mem| && h.slots > 0
    requires h.base % MIN_ALLOC == 0 && 0 < h.base && |h.mem| % MIN_ALLOC == 0 && 0 < |h.mem|
             && h.base + |h.mem| < TWO64
    ensures Inv(h)
  {
    NothingLive(h.blocks, h.base);
  }

  lemma TracksInserted(bits: seq<bool>, order: seq<int>, p: nat, node: int)
    requires Tracks(bits, order) && p <= |order| && 0 <= node < |bits|
    ensures Tracks(bits[node := true], Inserted(order, p, node))
    ensures |Inserted(order, p, node)| == |order| + 1
  {
    var o := Inserted(order, p, node);
    forall j ensures j in o <==> j == node || j in order {
      assert order == order[..p] + order[p..];
    }
  }

  lemma PlacedWhole(ls: seq<Link>, ls': seq<Link>, order: seq<int>, k: nat)
    requires InRange(order, |ls|) && Distinct(order) && k < |order|
    requires ls' == ls[order[k] := ls[order[k]].(free := false)]
    ensures BlocksOf(ls', order) == Place(BlocksOf(ls, order), k, 0, ls[order[k]].length)
  {
    var bs, cs := BlocksOf(ls', order), Place(BlocksOf(ls, order), k, 0, ls[order[k]].length);
    forall i | 0 <= i < |bs| ensures bs[i] == cs[i] {
    }
  }

  /** Placing at the front of a block that is longer, block by block. */
  lemma PlacedInFront(bs: seq<Block>, k: nat, size: nat)
    requires k < |bs| && size < bs[k].length
    ensures var cs := Place(bs, k, 0, size);
            && |cs| == |bs| + 1
            && (forall i :: 0 <= i < k ==> cs[i] == bs[i])
            && cs[k] == Block(size, false) && cs[k + 1] == Block(bs[k].length - size, true)
            && (forall i :: k + 1 < i < |cs| ==> cs[i] == bs[i - 1])
  {
  }

  lemma PlacedBlocks(ls: seq<Link>, ls': seq<Link>, order: seq<int>, k: nat, node: int, size: nat)
    requires InRange(order, |ls|) && Distinct(order) && |ls'| == |ls| && k < |order| && 0 <= node < |ls|
             && node !in order
    requires size < ls[order[k]].length
    requires ls' == ls[order[k] := ls'[order[k]]][node := ls'[node]]
    requires ls'[order[k]].length == size && !ls'[order[k]].free
    requires ls'[node].length == ls[order[k]].length - size && ls'[node].free
    ensures InRange(Inserted(order, k + 1, node), |ls'|)
    ensures forall ls'' :: SameBlocks(ls', ls'') ==>
              BlocksOf(ls'', Inserted(order, k + 1, node)) == Place(BlocksOf(ls, order), k, 0, size)
  {
    hide Distinct, Place;
    OthersSame(ls, ls', order, k, node);
    PlacedInFront(BlocksOf(ls, order), k, size);
    forall ls'' | SameBlocks(ls', ls'')
      ensures BlocksOf(ls'', Inserted(order, k + 1, node)) == Place(BlocksOf(ls, order), k, 0, size)
    {
      var bs := BlocksOf(ls'', Inserted(order, k + 1, node));
      var cs := Place(BlocksOf(ls, order), k, 0, size);
      assert |bs| == |cs|;
      forall i | 0 <= i < |bs| ensures bs[i] == cs[i] {
      }
    }
  }

  /** The chain only depends on the `next` and `prev` of its own nodes. */
  lemma SameLinks(ls: seq<Link>, ls': seq<Link>, first: int, order: seq<int>)
    requires Linked(ls, first, order) && |ls'| == |ls|
    requires forall i :: 0 <= i < |order| ==>
               ls'[order[i]].next == ls[order[i]].next && ls'[order[i]].prev == ls[order[i]].prev
    ensures Linked(ls', first, order)
  {
    forall i | 0 <= i < |order| ensures NodeOk(ls', order, i) {
      assert NodeOk(ls, order, i);
    }
  }

  class MemoryMgr {
    const links: array<Link>
    const bm: Bitmap
    const mem: array<Byte>
    const heapBase: nat
    var first: int
    var usedmem: nat
    var freemem: nat
    ghost var order: seq<int>

    /** The three buffers are different memory. */
    ghost predicate Apart() {
      links as object != bm.buffer && mem as object != links && mem as object != bm.buffer
    }

    ghost predicate Structure()
      reads this, links, bm.buffer
    {
      && Apart() && bm.Valid() && bm.sz <= links.Length
      && Linked(links[..], first, order) && Tracks(bm.Bits(), order)
    }

    ghost function Blocks(): seq<Block>
      requires Structure()
      reads this, links, bm.buffer
    {
      BlocksOf(links[..], order)
    }

    /** The heap this object stands for. */
    ghost function Snapshot(): Heap
      requires Structure()
      reads this, links, bm.buffer, mem
    {
      Heap(heapBase, Blocks(), mem[..], usedmem, freemem, bm.sz)
    }

    ghost predicate Valid()
      reads this, links, bm.buffer, mem
    {
      Structure() && Inv(Snapshot())
    }

    constructor (heap: nat, size: nat)
      requires heap % MIN_ALLOC == 0 && 0 < heap && size % MIN_ALLOC == 0 && 0 < size && heap + size < TWO64
      ensures Valid() && fresh(links) && fresh(bm.buffer) && fresh(mem)
      ensures heapBase == heap && mem.Length == size && bm.sz == 64
      ensures Blocks() == [Block(size, true)] && usedmem == 0 && freemem == size
    {
      hide Bit, Inv, Linked, Tracks, BlocksOf;
      var capacity := PAGE / LINK_BYTES;
      links := new Link[capacity](i => Link(NIL, NIL, 0, false));
      var store := new bv64[PAGE / 8](i => 0);
      bm := new Bitmap(store, capacity, false);
      mem := new Byte[size](i => 0);
      heapBase := heap;
      first := 0;
      usedmem := 0;
      freemem := size;
      order := [0];
      new;
      links[0] := Link(NIL, NIL, size, true);
      var _ := bm.Set(0, true);
      OneLink(links[..], bm.Bits(), size);
      FreshHeap(Snapshot());
    }

    // ---- descriptors ----

    method CreateLink() returns (idx: int)
      requires Structure()
      modifies bm.buffer
      ensures idx == NIL ==> |order| == bm.sz
      ensures idx != NIL ==> 0 <= idx < bm.sz && idx !in order && bm.Bits() == old(bm.Bits())[idx := true]
    {
      Pigeonhole(bm.Bits(), order);
      var o := bm.FindAndSet();
      idx := if o.Some? then o.value else NIL;
    }

    /** The descriptor has already been unlinked. */
    method DeleteLink(l: int)
      requires Apart() && bm.Valid() && bm.sz <= links.Length && 0 <= l < bm.sz && l !in order
      requires Linked(links[..], if links[l].prev == NIL then links[l].next else first, order)
      requires Tracks(bm.Bits()[l := false], order)
      modifies links, bm.buffer, `first
      ensures Structure()
      ensures SameBlocks(old(links[..]), links[..])
    {
      if links[l].prev == NIL {
        first := links[l].next;
      }
      var _ := bm.Set(l, false);
      links[l] := links[l].(next := NIL, prev := NIL);
      SameLinks(old(links[..]), links[..], first, order);
    }

    /** Takes a free block, leaving what it does not need as a new free block behind it. */
    method AllocateIntoFree(current: int, size: nat, ghost k: nat) returns (r: Outcome<()>)
      requires Structure() && k < |order| && order[k] == current
      requires links[current].free && size <= links[current].length
      modifies this`order, links, bm.buffer
      ensures match r
              case Halted => |Place(old(Blocks()), k, 0, size)| > bm.sz
              case Done(_) => Structure() && Blocks() == Place(old(Blocks()), k, 0, size) && |Blocks()| <= bm.sz
    {
      hide NodeOk, Distinct, Inserted, Tracks, Bit, BlocksOf, Place;
      ghost var ls := links[..];
      links[current] := links[current].(free := false);
      var rem := links[current].length - size;
      SameLinks(ls, links[..], first, order);
      if rem > 0 {
        PlacedInFront(old(Blocks()), k, size);
        var newlink := CreateLink();
        if newlink == NIL {
          return Halted;
        }
        links[current] := links[current].(length := size);
        links[newlink] := links[newlink].(length := rem, free := true);
        SameLinks(ls, links[..], first, order);
        PlacedBlocks(ls, links[..], order, k, newlink, size);
        TracksInserted(old(bm.Bits()), order, k + 1, newlink);
        InsertAfter(links, first, current, newlink, order, k);
        order := Inserted(order, k + 1, newlink);
      } else {
        PlacedWhole(ls, links[..], order, k);
      }
      Pigeonhole(bm.Bits(), order);
      return Done(());
    }

    // ---- memory ----

    /** Bytes outside the heap are not part of the model: a store there is dropped. */
    method MemSet(off: int, v: Byte, n: nat)
      modifies mem
      ensures mem[..] == Fill(old(mem[..]), off, n, v)
    {
      for i := 0 to n
        invariant mem[..] == Fill(old(mem[..]), off, i, v)
      {
        if 0 <= off + i < mem.Length {
          mem[off + i] := v;
        }
      }
    }

    method MemCopy(dst: nat, src: nat, n: nat)
      requires dst + n <= mem.Length && src + n <= mem.Length
      modifies mem
      ensures mem[..] == CopyUp(old(mem[..]), dst, src, n)
    {
      hide CopyUp, AfterChunk;
      var d, s, count := dst, src, n;
      while count % 8 != 0
        invariant d - dst == s - src == n - count && 0 <= count <= n
        invariant CopyUp(mem[..], d, s, count) == CopyUp(old(mem[..]), dst, src, n)
        decreases count
      {
        CopyUpStep(mem[..], d, s, count);
        MoveByte(d, s, count);
        d, s, count := d + 1, s + 1, count - 1;
      }
      while count > 0
        invariant d - dst == s - src == n - count && 0 <= count <= n && count % 8 == 0
        invariant CopyUp(mem[..], d, s, count) == CopyUp(old(mem[..]), dst, src, n)
        decreases count
      {
        CopyUpStep(mem[..], d, s, count);
        MoveWord(d, s, count);
        d, s, count := d + 8, s + 8, count - 8;
      }
      CopyNothing(mem[..], d, s);
    }

    method MoveByte(d: nat, s: nat, ghost count: nat)
      requires d + count <= mem.Length && s + count <= mem.Length && count % 8 != 0
      modifies mem
      ensures mem[..] == AfterChunk(old(mem[..]), d, s, count)
    {
      mem[d] := mem[s];
    }

    /** One `movsq`: eight bytes are read, then eight are written. */
    method MoveWord(d: nat, s: nat, ghost count: nat)
      requires d + count <= mem.Length && s + count <= mem.Length && count > 0 && count % 8 == 0
      modifies mem
      ensures mem[..] == AfterChunk(old(mem[..]), d, s, count)
    {
      var word := mem[s..s + 8];
      forall i | 0 <= i < 8 {
        mem[d + i] := word[i];
      }
    }

    /** `memchk`, with the answer turned round: true when the range is all magic. */
    method MemIsMagic(off: nat, n: nat) returns (ok: bool)
      requires off + n <= mem.Length
      ensures ok == AllMagic(mem[..], off, n)
    {
      var count: nat := n;
      while count > 0
        invariant 0 <= count <= n
        invariant AllMagic(mem[..], off + count, n - count)
      {
        count := count - 1;
        if mem[off + count] != MAGIC {
          return false;
        }
      }
      return true;
    }

    // ---- walks ----

    method CountAllocs() returns (n: nat)
      requires Structure()
      ensures n == |Blocks()|
    {
      hide Linked, Tracks, BlocksOf, Bit;
      AtFirst(links[..], first, order);
      var l := first;
      n := 0;
      while l != NIL
        invariant n <= |order| && l == At(order, n)
        decreases |order| - n
      {
        AtNode(links[..], first, order, n);
        l := links[l].next;
        n := n + 1;
      }
      AtEnd(links[..], first, order, n);
    }

    /** The search of `alloc_nomutex`: first free block that is long enough. */
    method WalkToFit(size: nat) returns (l: int, address: nat, ghost k: nat)
      requires Structure() && Shape(Blocks()) && heapBase % MIN_ALLOC == 0
      ensures k == FirstFit(Blocks(), heapBase, size, MIN_ALLOC) && l == At(order, k) && (l == NIL ==> k == |order|)
      ensures address == heapBase + Total(Blocks()[..k])
    {
      hide Total, FirstFit, Tracks, Linked, Shape, BlocksOf, Bit;
      AtFirst(links[..], first, order);
      ghost var bs := Blocks();
      NoBlocks(bs);
      l, address, k := first, heapBase, 0;
      while l != NIL
        invariant k <= |order| && l == At(order, k)
        invariant address == heapBase + Total(bs[..k])
        invariant FirstFit(bs, heapBase, size, MIN_ALLOC) == k + FirstFit(bs[k..], address, size, MIN_ALLOC)
        decreases |order| - k
      {
        AtNode(links[..], first, order, k);
        PlainFitStep(bs, k, heapBase, size);
        if links[l].free && links[l].length >= size {
          break;
        }
        address := address + links[l].length;
        l := links[l].next;
        k := k + 1;
      }
      if l == NIL {
        AtEnd(links[..], first, order, k);
        NoneLeft(bs, address, size, MIN_ALLOC);
      }
    }

    /** The search every pointer-taking call begins with. */
    method WalkTo(p: int) returns (l: int, address: nat, ghost k: nat)
      requires Structure()
      ensures k == Find(Blocks(), heapBase, p) && l == At(order, k) && (l == NIL ==> k == |order|)
      ensures address == heapBase + Total(Blocks()[..k])
    {
      hide Total, Find, Tracks, Linked, BlocksOf, Bit;
      AtFirst(links[..], first, order);
      ghost var bs := Blocks();
      NoBlocks(bs);
      l, address, k := first, heapBase, 0;
      while l != NIL
        invariant k <= |order| && l == At(order, k)
        invariant address == heapBase + Total(bs[..k])
        invariant Find(bs, heapBase, p) == k + Find(bs[k..], address, p)
        decreases |order| - k
      {
        AtNode(links[..], first, order, k);
        NextBlock(bs, k);
        FindStep(bs, k, address, p);
        if address == p {
          break;
        }
        address := address + links[l].length;
        l := links[l].next;
        k := k + 1;
      }
      if l == NIL {
        AtEnd(links[..], first, order, k);
        NotFound(bs, address, p);
      }
    }

    // ---- allocation ----

    /** The tail both allocators share: the counters and the redzones. */
    method Commit(off: nat, n: nat)
      requires Structure()
      modifies `usedmem, `freemem, mem
      ensures Structure() && Blocks() == old(Blocks())
      ensures usedmem == (old(usedmem) + n) % TWO64 && freemem == (old(freemem) - n) % TWO64
      ensures mem[..] == Guard(old(mem[..]), off, n)
    {
      usedmem := (usedmem + n) % TWO64;
      freemem := (freemem - n) % TWO64;
      MemSet(off, MAGIC, REDZONE);
      MemSet(off + n - REDZONE, MAGIC, REDZONE);
    }

    /** The chosen block is already suitably placed: carve it, book it, guard it. */
    method TakeBlock(l: int, address: nat, n: nat, ghost align: nat, ghost k: nat) returns (r: Outcome<nat>)
      requires Valid() && n % MIN_ALLOC == 0 && align > 0 && align % MIN_ALLOC == 0
      requires Chosen(Snapshot(), n, align, k, 0) && l == order[k] && address == heapBase + Total(Blocks()[..k])
      modifies this, links, bm.buffer, mem
      ensures Agrees(AllocAt(old(Snapshot()), n, align), r)
      ensures r.Done? && n >= MIN_USED ==> Valid()
    {
      hide Total, Tracks, Linked, Inv, BlocksOf, Place, Bit, AllocAt, Guard, Chosen;
      ghost var h := Snapshot();
      ChosenReady(h, n, align, k, 0);
      AtNode(links[..], first, order, k);
      var placed := AllocateIntoFree(l, n, k);
      if placed.Halted? {
        return Halted;
      }
      Commit(address - heapBase, n);
      assert Snapshot() == Placed(h, k, 0, n);
      return Done(address + REDZONE);
    }

    method AllocNoMutex(size: nat) returns (r: Outcome<nat>)
      requires Valid() && size < TWO64
      modifies this, links, bm.buffer, mem
      ensures Agrees(Alloc(old(Snapshot()), size), r)
      ensures r.Done? && size <= MAX_REQUEST ==> Valid()
    {
      hide Total, FirstFit, Tracks, Linked, Inv, Shape, Chosen, BlocksOf, Padded, Bit, AllocAt;
      if size == 0 {
        return Done(0);
      }
      var n := Padded(size);
      PaddedIsEnough(size);
      InvShape(Snapshot());
      var l, address, k := WalkToFit(n);
      if l == NIL {
        NoRoom(Snapshot(), n, MIN_ALLOC);
        return Halted;   // a null descriptor is dereferenced
      }
      PlainChosen(Snapshot(), n, k);
      r := TakeBlock(l, address, n, MIN_ALLOC, k);
    }

    /** The search of `alloc_aligned`; an alignment of zero is divided by at the first block that is long enough. */
    method WalkToAlignedFit(size: nat, align: nat) returns (l: int, address: nat, faulted: bool, ghost k: nat)
      requires Structure()
      ensures faulted <==> align == 0 && SomeLongEnough(Blocks(), size)
      ensures align > 0 ==> k == FirstFit(Blocks(), heapBase, size, align)
      ensures align == 0 && !faulted ==> k == |order|
      ensures !faulted ==> k <= |order| && l == At(order, k) && (l == NIL ==> k == |order|)
      ensures !faulted ==> address == heapBase + Total(Blocks()[..k])
    {
      hide Total, FirstFit, Tracks, Linked, BlocksOf, Bit, Skip, AlignUp;
      AtFirst(links[..], first, order);
      ghost var bs := Blocks();
      NoBlocks(bs);
      l, address, faulted, k := first, heapBase, false, 0;
      while l != NIL
        invariant k <= |order| && l == At(order, k)
        invariant address == heapBase + Total(bs[..k])
        invariant align > 0 ==> FirstFit(bs, heapBase, size, align) == k + FirstFit(bs[k..], address, size, align)
        invariant align == 0 ==> forall i :: 0 <= i < k ==> !(bs[i].free && bs[i].length >= size)
        decreases |order| - k
      {
        AtNode(links[..], first, order, k);
        NextBlock(bs, k);
        if align > 0 {
          FitStep(bs, k, address, size, align);
          SkipTests(address, align);
        }
        if links[l].free && links[l].length >= size {
          if align == 0 {
            faulted := true;
            return;
          }
          if (address + REDZONE) % align == 0 {
            break;
          } else if links[l].length > size {
            var alignfix := AlignUp(address + REDZONE, align) - (address + REDZONE);
            if links[l].length >= size + alignfix {
              break;
            }
          }
        }
        address := address + links[l].length;
        l := links[l].next;
        k := k + 1;
      }
      if l == NIL {
        AtEnd(links[..], first, order, k);
        NoneLeft(bs, address, size, align);
      }
    }

    /** Splits `gap` bytes off the front of a free block. */
    method CarveGap(l: int, gap: nat, ghost k: nat) returns (r: Outcome<()>)
      requires Structure() && k < |order| && order[k] == l && 0 < gap <= links[l].length
      modifies this`order, this`first, links, bm.buffer
      ensures match r
              case Halted => |old(Blocks())| + 1 > bm.sz
              case Done(_) => && Structure() && Blocks() == GapSplit(old(Blocks()), k, gap)
                              && k + 1 < |order| && order[k + 1] == l
    {
      hide NodeOk, Distinct, Tracks, Bit, BlocksOf;
      ghost var ls := links[..];
      var alignfixl := CreateLink();
      if alignfixl == NIL {
        return Halted;
      }
      links[alignfixl] := links[alignfixl].(free := true, length := gap);
      links[l] := links[l].(length := links[l].length - gap);
      SameLinks(ls, links[..], first, order);
      SplitBlocks(ls, links[..], order, k, alignfixl, gap);
      TracksInserted(old(bm.Bits()), order, k, alignfixl);
      first := InsertBefore(links, first, l, alignfixl, order, k);
      order := Inserted(order, k, alignfixl);
      return Done(());
    }

    /** A gap has to go in front of the new block. */
    method TakeAligned(l: int, address: nat, n: nat, gap: nat, ghost align: nat, ghost k: nat) returns (r: Outcome<nat>)
      requires Valid() && n % MIN_ALLOC == 0 && align > 0 && align % MIN_ALLOC == 0
      requires Chosen(Snapshot(), n, align, k, gap) && gap > 0 && l == order[k]
      requires address == heapBase + Total(Blocks()[..k])
      modifies this, links, bm.buffer, mem
      ensures Agrees(AllocAt(old(Snapshot()), n, align), r)
      ensures r.Done? && n >= MIN_USED ==> Valid()
    {
      hide Total, Tracks, Linked, Inv, BlocksOf, Place, Bit, AllocAt, Guard, Chosen, GapSplit;
      ghost var h := Snapshot();
      ChosenReady(h, n, align, k, gap);
      PlaceAfterGap(h.blocks, k, gap, n);
      AtNode(links[..], first, order, k);
      var carved := CarveGap(l, gap, k);
      if carved.Halted? {
        return Halted;
      }
      var placed := AllocateIntoFree(l, n, k + 1);
      if placed.Halted? {
        return Halted;
      }
      Commit(address + gap - heapBase, n);
      assert Snapshot() == Placed(h, k, gap, n);
      return Done(address + gap + REDZONE);
    }

    /** The search stopped at a block with room: the gap, if any, goes in front. */
    method TakeFit(l: int, address: nat, n: nat, a: nat, ghost k: nat) returns (r: Outcome<nat>)
      requires Valid() && n % MIN_ALLOC == 0 && a > 0 && a % MIN_ALLOC == 0
      requires k == FirstFit(Blocks(), heapBase, n, a) < |order| && l == order[k]
      requires address == heapBase + Total(Blocks()[..k])
      modifies this, links, bm.buffer, mem
      ensures Agrees(AllocAt(old(Snapshot()), n, a), r)
      ensures r.Done? && n >= MIN_USED ==> Valid()
    {
      hide Total, Skip, FirstFit, Tracks, Linked, Inv, BlocksOf, Bit, AllocAt, AlignUp;
      SkipTests(address, a);
      if (address + REDZONE) % a == 0 {
        r := TakeBlock(l, address, n, a, k);
      } else {
        r := TakeAligned(l, address, n, AlignUp(address + REDZONE, a) - (address + REDZONE), a, k);
      }
    }

    method AllocAligned(size: nat, align: nat) returns (r: Outcome<nat>)
      requires Valid() && size < TWO64
      modifies this, links, bm.buffer, mem
      ensures Agrees(HeapState.AllocAligned(old(Snapshot()), size, align), r)
      ensures r.Done? && old(Allowed(Snapshot(), AlignedOp(size, align))) ==> Valid()
    {
      hide Total, FirstFit, Tracks, Linked, Inv, BlocksOf, Padded, Bit, AllocAt, RoundedAlign, HasRoom, Guard, Allowed;
      RoundedAligned(align);
      PaddedIsEnough(size);
      AlignedSearch(Snapshot(), size, align);
      var n, a := Padded(size), RoundedAlign(align);
      var l, address, faulted, k := WalkToAlignedFit(n, a);
      if faulted {
        return Halted;
      }
      if l == NIL {
        assert Blocks()[..k] == Blocks();
        Commit(address - heapBase, n);   // nothing fits: the call goes on past the end of the heap
        return Done(address + REDZONE);
      }
      r := TakeFit(l, address, n, a, k);
    }

    // ---- release ----

    /** Adds the next block to this one and drops its descriptor. */
    method AbsorbNext(l: int, ghost k: nat)
      requires Structure() && k + 1 < |order| && order[k] == l
      modifies this`order, this`first, links, bm.buffer
      ensures Structure() && Blocks() == Absorb(old(Blocks()), k) && order == Removed(old(order), k + 1)
    {
      hide Tracks, Bit, BlocksOf, Distinct, NodeOk, Absorb;
      ghost var ls := links[..];
      AtNode(ls, first, order, k);
      AtNode(ls, first, order, k + 1);
      links[l] := links[l].(length := links[l].length + links[links[l].next].length);
      SameLinks(ls, links[..], first, order);
      AbsorbedBlocks(ls, links[..], order, k);
      TracksRemoved(bm.Bits(), order, k + 1);
      var gone := UnlinkNext(links, first, l, order, k);
      order := Removed(order, k + 1);
      DeleteLink(gone);
    }

    method Merge(l: int, ghost k: nat)
      requires Structure() && k < |order| && order[k] == l && links[l].free
      modifies this`order, this`first, links, bm.buffer
      ensures Structure() && Blocks() == Merged(old(Blocks()), k)
    {
      hide Tracks, Bit, Linked, BlocksOf;
      AtNode(links[..], first, order, k);
      if links[l].next != NIL && links[links[l].next].free {
        AbsorbNext(l, k);
      }
      AtNode(links[..], first, order, k);
      if links[l].prev != NIL && links[links[l].prev].free {
        AbsorbNext(links[l].prev, k - 1);
      }
    }

    /** Walks to the block and inspects it; the redzones are scanned from the top down. */
    method Check(p: nat) returns (ok: bool)
      requires Structure() && Total(Blocks()) == mem.Length
      ensures ok == CheckOk(Snapshot(), p)
    {
      hide Total, Used, HeapBlocks.Free, Live, Find, AllGuarded, BlockOk, Coalesced, BlocksOf, Tracks, NodeOk;
      hide Distinct, Bit, AllMagic;
      var l, address, k := WalkTo(p - REDZONE);
      if l == NIL || links[l].free || links[l].length < MIN_USED {
        return false;
      }
      BlockInside(Blocks(), k);
      var leading := MemIsMagic(address - heapBase, REDZONE);
      if !leading {
        return false;
      }
      ok := MemIsMagic(address - heapBase + links[l].length - REDZONE, REDZONE);
    }

    /** `check_all`, run by the timer: it goes through exactly when every used block passes. */
    method CheckAll() returns (ok: bool)
      requires Structure() && Total(Blocks()) == mem.Length
      ensures ok <==> AllChecked(Snapshot())
      ensures Valid() ==> ok
    {
      hide Total, CheckOk, Tracks, Linked, BlocksOf, Bit, Inv;
      AtFirst(links[..], first, order);
      ghost var bs := Blocks();
      NoBlocks(bs);
      var l, a := first, heapBase;
      ghost var k := 0;
      if Valid() {
        SoundIsChecked(Snapshot());
      }
      while l != NIL
        invariant k <= |order| && l == At(order, k)
        invariant a == heapBase + Total(bs[..k])
        invariant forall j :: 0 <= j < k ==> Checked(Snapshot(), j)
        decreases |order| - k
      {
        AtNode(links[..], first, order, k);
        NextBlock(bs, k);
        if !links[l].free {
          ok := Check(a + REDZONE);
          if !ok {
            assert !Checked(Snapshot(), k);
            return;
          }
        }
        assert Checked(Snapshot(), k);
        a := a + links[l].length;
        l := links[l].next;
        k := k + 1;
      }
      AtEnd(links[..], first, order, k);
      return true;
    }

    method FreeNoMutex(p: nat) returns (r: Outcome<()>)
      requires Structure() && Total(Blocks()) == mem.Length
      modifies this, links, bm.buffer
      ensures match FreePtr(old(Snapshot()), p)
              case Halted => r.Halted?
              case Done(g) => r == Done(()) && Structure() && Snapshot() == g
      ensures r.Done? && old(Valid()) ==> Valid()
    {
      ghost var h := Snapshot();
      if p == 0 {
        return Done(());
      }
      hide Total, Inv, CheckOk, Release;
      var ok := Check(p);
      if !ok {
        return Halted;
      }
      FreeChecked(p);
      if Inv(h) {
        var _ := FreeEffect(h, p);
      }
      return Done(());
    }

    /** `free_nomutex` after its check. */
    method FreeChecked(p: nat)
      requires Structure() && CheckOk(Snapshot(), p) && p != 0
      modifies this, links, bm.buffer
      ensures Structure() && FreePtr(old(Snapshot()), p) == Done(Snapshot())
    {
      hide Total, Find, Tracks, NodeOk, Distinct, Bit, BlocksOf, Release, Guarded;
      var l, address, k := WalkTo(p - REDZONE);
      GiveBack(l, k);
    }

    /** The bookkeeping of `free_nomutex` once the block is found. */
    method GiveBack(l: int, ghost k: nat)
      requires Structure() && k < |order| && order[k] == l
      modifies this, links, bm.buffer
      ensures Structure() && Blocks() == Release(old(Blocks()), k)
      ensures usedmem == (old(usedmem) - old(Blocks())[k].length) % TWO64
      ensures freemem == (old(freemem) + old(Blocks())[k].length) % TWO64
    {
      hide Total, Tracks, Linked, BlocksOf, Bit, Merged, Release;
      AtNode(links[..], first, order, k);
      MergedIsRelease(Blocks(), k);
      var linksize := links[l].length;
      usedmem := (usedmem - linksize) % TWO64;
      freemem := (freemem + linksize) % TWO64;
      MarkFree(l, k);
      Merge(l, k);
    }

    method MarkFree(l: int, ghost k: nat)
      requires Structure() && k < |order| && order[k] == l
      modifies links
      ensures Structure() && Blocks() == old(Blocks())[k := old(Blocks())[k].(free := true)] && links[l].free
    {
      links[l] := links[l].(free := true);
      SameLinks(old(links[..]), links[..], first, order);
    }

    // ---- reallocation ----

    /** Extends a used block into the free block after it. */
    method GrowInto(i: int, n: nat, ghost k: nat)
      requires Structure() && k < |order| && order[k] == i && !links[i].free && CanGrow(Blocks(), k, n)
      modifies this, links, bm.buffer
      ensures Structure() && Blocks() == Grow(old(Blocks()), k, n)
      ensures usedmem == (old(usedmem) + (n - old(Blocks())[k].length)) % TWO64
      ensures freemem == (old(freemem) - (n - old(Blocks())[k].length)) % TWO64
    {
      var need := n - links[i].length;
      assert need == n - Blocks()[k].length;
      hide Tracks, Linked, Bit, CanGrow, Grow;
      usedmem := (usedmem + need) % TWO64;
      freemem := (freemem - need) % TWO64;
      TakeFromNext(i, n, k);
    }

    method TakeFromNext(i: int, n: nat, ghost k: nat)
      requires Structure() && k < |order| && order[k] == i && !links[i].free && CanGrow(Blocks(), k, n)
      modifies this`order, this`first, links, bm.buffer
      ensures Structure() && Blocks() == Grow(old(Blocks()), k, n)
    {
      hide Tracks, Bit, Distinct, NodeOk, BlocksOf, Grow, Absorb;
      ghost var ls := links[..];
      AtNode(ls, first, order, k);
      var next, need := links[i].next, n - links[i].length;
      if links[next].length == need {
        GrowWhole(Blocks(), k, n);
        AbsorbNext(i, k);
      } else {
        links[next] := links[next].(length := links[next].length - need);
        links[i] := links[i].(length := n);
        SameLinks(ls, links[..], first, order);
        GrownBlocks(ls, links[..], order, k, n);
      }
    }

    method TryRealloc(p: nat, newsize: nat) returns (r: Outcome<bool>)
      requires Valid() && newsize < TWO64
      modifies this, links, bm.buffer, mem
      ensures match HeapState.TryRealloc(old(Snapshot()), p, newsize)
              case Halted => r.Halted?
              case Done(t) => r == Done(t.ok) && Structure() && Snapshot() == t.heap
      ensures r.Done? && newsize <= MAX_REQUEST ==> Valid()
    {
      hide Total, Find, Tracks, Linked, Bit, BlocksOf, Inv, Live, Alloc, Padded, Fill, Grown, CanGrow;
      ghost var h := Snapshot();
      if newsize <= MAX_REQUEST {
        TrySound(h, p, newsize);
      }
      if p == 0 {
        var a := AllocNoMutex(newsize);
        return if a.Halted? then Halted else Done(a.value != 0);
      }
      if p % 16 != 0 {
        return Halted;
      }
      var i, addr, k := WalkTo(p - REDZONE);
      if i == NIL {
        return Halted;
      }
      r := ResizeInPlace(i, p, newsize, k);
    }

    /** `try_realloc` from the found block on, be it used or free. */
    method ResizeInPlace(i: int, p: nat, newsize: nat, ghost k: nat) returns (r: Outcome<bool>)
      requires Valid() && newsize < TWO64 && p != 0 && p % 16 == 0
      requires k == Find(Blocks(), heapBase, p - REDZONE) < |order| && order[k] == i
      modifies this, links, bm.buffer, mem
      ensures r.Done? && Structure()
      ensures HeapState.TryRealloc(old(Snapshot()), p, newsize) == Done(Attempt(Snapshot(), r.value))
    {
      ghost var h := Snapshot();
      OnlyUsedGrow(h, p, Padded(newsize));
      PaddedIsEnough(newsize);
      AtNode(links[..], first, order, k);
      hide Total, Find, Tracks, Linked, Bit, BlocksOf, Inv, Live, Padded, Fill, Guarded, Grow, IsLive, Grown;
      var n := Padded(newsize);
      if n <= links[i].length {
        MemSet(p - REDZONE - heapBase + links[i].length - REDZONE, MAGIC, REDZONE);
        return Done(true);
      } else if links[i].next != NIL && links[links[i].next].free
        && links[links[i].next].length >= n - links[i].length {
        Extend(i, n, p - REDZONE - heapBase, k);
        return Done(true);
      } else {
        return Done(false);
      }
    }

    method Extend(i: int, n: nat, off: nat, ghost k: nat)
      requires Structure() && k < |order| && order[k] == i && !links[i].free && CanGrow(Blocks(), k, n)
      requires off == Total(Blocks()[..k])
      modifies this, links, bm.buffer, mem
      ensures Structure() && Snapshot() == Grown(old(Snapshot()), k, n)
    {
      hide Total, Tracks, Linked, Bit, BlocksOf, Fill, Grow, CanGrow;
      GrowInto(i, n, k);
      MemSet(off + n - REDZONE, MAGIC, REDZONE);
    }

    method GetSize(p: nat) returns (r: Outcome<nat>)
      requires Structure()
      ensures r == HeapState.GetSize(Snapshot(), p)
    {
      hide Total, Find, Tracks, NodeOk, Distinct, Bit, BlocksOf;
      var i, addr, k := WalkTo(p - REDZONE);
      if i == NIL {
        return Halted;
      }
      return Done((links[i].length - 2 * REDZONE) % TWO64);
    }

    method CopyBytes(p: nat, q: nat, n: nat)
      requires Structure() && InHeap(Snapshot(), p, n) && InHeap(Snapshot(), q, n)
      modifies mem
      ensures Structure() && Snapshot() == Copied(old(Snapshot()), p, q, n)
    {
      hide Total, Tracks, Linked, Bit, BlocksOf, CopyUp;
      MemCopy(q - heapBase, p - heapBase, n);
    }

    /** The slow path of `realloc`; a copy that would leave the heap stops the machine. */
    method MoveTo(p: nat, newsize: nat) returns (r: Outcome<nat>)
      requires Valid() && newsize < TWO64
      modifies this, links, bm.buffer, mem
      ensures Agrees(Move(old(Snapshot()), p, newsize), r)
    {
      hide Total, Find, Tracks, Linked, Bit, BlocksOf, FreePtr, Inv, Alloc, HeapState.GetSize, CopyUp;
      AllocTotal(Snapshot(), newsize);
      var a := AllocNoMutex(newsize);
      if a.Halted? {
        return Halted;
      }
      var oldsize := GetSize(p);
      if oldsize.Halted? {
        return Halted;
      }
      var q, n := a.value, oldsize.value;
      if p < heapBase || q < heapBase || p + n > heapBase + mem.Length || q + n > heapBase + mem.Length {
        return Halted;
      }
      r := CopyThenFree(p, q, n);
    }

    method CopyThenFree(p: nat, q: nat, n: nat) returns (r: Outcome<nat>)
      requires Structure() && Total(Blocks()) == mem.Length
      requires InHeap(Snapshot(), p, n) && InHeap(Snapshot(), q, n)
      modifies this, links, bm.buffer, mem
      ensures match FreePtr(Copied(old(Snapshot()), p, q, n), p)
              case Halted => r.Halted?
              case Done(g) => r == Done(q) && Structure() && Snapshot() == g
    {
      hide Total, Tracks, Linked, Bit, BlocksOf, FreePtr, Inv, CopyUp;
      CopyBytes(p, q, n);
      var f := FreeNoMutex(p);
      return if f.Halted? then Halted else Done(q);
    }

    method Realloc(p: nat, newsize: nat) returns (r: Outcome<nat>)
      requires Valid() && newsize < TWO64
      modifies this, links, bm.buffer, mem
      ensures Agrees(HeapState.Realloc(old(Snapshot()), p, newsize), r)
      ensures r.Done? && newsize <= MAX_REQUEST ==> Valid()
    {
      ghost var h := Snapshot();
      if HeapState.Realloc(h, p, newsize).Done? && newsize <= MAX_REQUEST {
        ghost var _ := ReallocEffect(h, p, newsize);
      }
      TryFails(h, p, newsize);
      hide Move, HeapState.TryRealloc, Inv, Padded;
      var t := TryRealloc(p, newsize);
      if t.Halted? {
        return Halted;
      }
      if t.value {
        return Done(p);
      }
      r := MoveTo(p, newsize);
    }

    // ---- whole runs ----

    /** A client's store through an allocation. */
    method StoreBytes(off: nat, data: seq<Byte>)
      requires Structure() && off + |data| <= mem.Length
      modifies mem
      ensures Structure() && Snapshot() == old(Snapshot()).(mem := Store(old(mem[..]), off, data))
    {
      hide Tracks, Linked, Bit, BlocksOf, Store;
      WriteMem(off, data);
    }

    method WriteMem(off: nat, data: seq<Byte>)
      requires off + |data| <= mem.Length
      modifies mem
      ensures mem[..] == Store(old(mem[..]), off, data)
    {
      for i := 0 to |data|
        invariant mem[..] == Store(old(mem[..]), off, data[..i])
      {
        mem[off + i] := data[i];
      }
      assert data[..|data|] == data;
    }

    /** One step of a run on the object itself. */
    method Perform(op: Op) returns (r: Outcome<nat>)
      requires Valid() && Allowed(Snapshot(), op)
      modifies this, links, bm.buffer, mem
      ensures Agrees(Step(old(Snapshot()), op), r)
      ensures r.Done? ==> Valid()
    {
      hide Total, Inv, Allowed, Alloc, HeapState.AllocAligned, FreePtr, HeapState.Realloc;
      hide BlocksOf, Tracks, Linked, Bit;
      ghost var h := Snapshot();
      StepSound(h, op);
      AllowedFits(h, op);
      TotalIsMemory(h);
      match op {
        case AllocOp(size) => r := AllocNoMutex(size);
        case AlignedOp(size, align) => r := AllocAligned(size, align);
        case FreeOp(p) =>
          var f := FreeNoMutex(p);
          r := if f.Halted? then Halted else Done(0);
        case ReallocOp(p, newsize) => r := Realloc(p, newsize);
        case WriteOp(p, at, data) =>
          StoreBytes(p + at - heapBase, data);
          r := Done(p);
      }
    }

    /** Any run the callers are allowed leaves the object where the run of the model ends, and sound. */
    method PerformAll(ops: seq<Op>) returns (done: bool)
      requires Valid() && RunAllowed(Snapshot(), ops)
      modifies this, links, bm.buffer, mem
      ensures match Run(old(Snapshot()), ops)
              case Halted => !done
              case Done(g) => done && Valid() && Snapshot() == g
    {
      hide Step, Allowed, Inv, BlocksOf, Tracks, Linked, Bit;
      assert ops[0..] == ops;
      for i := 0 to |ops|
        invariant Valid() && RunAllowed(Snapshot(), ops[i..]) && Run(Snapshot(), ops[i..]) == Run(old(Snapshot()), ops)
      {
        assert ops[i..][0] == ops[i] && ops[i..][1..] == ops[i + 1..];
        var r := Perform(ops[i]);
        if r.Halted? {
          return false;
        }
      }
      return true;
    }

    /** The object is in the state the model predicts, and returned the address it predicts. */
    ghost predicate Agrees(expected: Outcome<Reply>, r: Outcome<nat>)
      reads this, links, bm.buffer, mem
    {
      match expected
      case Halted => r.Halted?
      case Done(reply) => r == Done(reply.addr) && Structure() && Snapshot() == reply.heap
    }
  }
}
