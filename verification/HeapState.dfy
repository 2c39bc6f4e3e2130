/** The heap with its memory: what each call of the allocator does, byte for byte. */
module HeapState {
  import opened Machine
  import opened HeapBlocks
  import opened HeapOps

  const MAGIC: Byte := 0xbc

  /** The largest request whose padded size does not wrap around. */
  const MAX_REQUEST: nat := 0xffff_ffff_ffff_ff70

  datatype Heap = Heap(base: nat, blocks: seq<Block>, mem: seq<Byte>, usedmem: nat, freemem: nat, slots: nat)
  {
    ghost function Allocs(): set<Extent> {
      Live(blocks, base)
    }
  }

  /** The heap after a call, and the address the call returned (0 is the null pointer). */
  datatype Reply = Reply(heap: Heap, addr: nat)

  // ---- memory ----

  function Fill(mem: seq<Byte>, off: int, n: nat, v: Byte): (r: seq<Byte>)
    ensures |r| == |mem|
    ensures forall i :: 0 <= i < |mem| ==> r[i] == if off <= i < off + n then v else mem[i]
  {
    seq(|mem|, i requires 0 <= i < |mem| => if off <= i < off + n then v else mem[i])
  }

  predicate AllMagic(mem: seq<Byte>, off: nat, n: nat)
    requires off + n <= |mem|
  {
    forall i :: off <= i < off + n ==> mem[i] == MAGIC
  }

  /** Both redzones of the block at offset `off` are intact. */
  predicate Guarded(mem: seq<Byte>, off: int, length: nat) {
    && length >= 2 * REDZONE && 0 <= off && off + length <= |mem|
    && AllMagic(mem, off, REDZONE) && AllMagic(mem, off + length - REDZONE, REDZONE)
  }

  function Guard(mem: seq<Byte>, off: nat, length: nat): seq<Byte> {
    Fill(Fill(mem, off, REDZONE, MAGIC), off + length - REDZONE, REDZONE, MAGIC)
  }

  /** `memcpy` goes up: single bytes until a multiple of eight is left, then eight bytes at a time. */
  function CopyUp(mem: seq<Byte>, dst: nat, src: nat, n: nat): (r: seq<Byte>)
    requires dst + n <= |mem| && src + n <= |mem|
    ensures |r| == |mem|
    decreases n
  {
    if n == 0 then mem
    else
      var w := Chunk(n);
      CopyUp(Store(mem, dst, mem[src..src + w]), dst + w, src + w, n - w)
  }

  function Chunk(n: nat): (w: nat)
    ensures n > 0 ==> 0 < w <= n
  {
    if n % 8 == 0 then 8 else 1
  }

  /** The regions overlap and a chunk is written before it has been read. */
  predicate Clobbers(dst: nat, src: nat, n: nat) {
    src < dst < src + n && n != 8
  }

  function AfterChunk(mem: seq<Byte>, dst: nat, src: nat, n: nat): (r: seq<Byte>)
    requires dst + n <= |mem| && src + n <= |mem| && n > 0
    ensures |r| == |mem|
  {
    Store(mem, dst, mem[src..src + Chunk(n)])
  }

  lemma ChunkAt(mem: seq<Byte>, dst: nat, src: nat, n: nat, i: nat)
    requires dst + n <= |mem| && src + n <= |mem| && n > 0 && i < |mem|
    ensures AfterChunk(mem, dst, src, n)[i] == if dst <= i < dst + Chunk(n) then mem[src + (i - dst)] else mem[i]
  {
  }

  lemma CopyUpStep(mem: seq<Byte>, dst: nat, src: nat, n: nat)
    requires dst + n <= |mem| && src + n <= |mem| && n > 0
    ensures var w := Chunk(n);
            CopyUp(mem, dst, src, n) == CopyUp(AfterChunk(mem, dst, src, n), dst + w, src + w, n - w)
  {
  }

  lemma CopyNothing(mem: seq<Byte>, dst: nat, src: nat)
    requires dst <= |mem| && src <= |mem|
    ensures CopyUp(mem, dst, src, 0) == mem
  {
  }

  lemma ClobbersNot(dst: nat, src: nat, n: nat)
    requires n > 0 && !Clobbers(dst, src, n)
    ensures dst <= src || src + n <= dst || Chunk(n) == n
    ensures !Clobbers(dst + Chunk(n), src + Chunk(n), n - Chunk(n))
  {
  }

  lemma {:induction false} CopyUpAt(mem: seq<Byte>, dst: nat, src: nat, n: nat, i: nat)
    requires dst + n <= |mem| && src + n <= |mem| && !Clobbers(dst, src, n) && i < |mem|
    ensures CopyUp(mem, dst, src, n)[i] == if dst <= i < dst + n then mem[src + (i - dst)] else mem[i]
    decreases n
  {
    hide CopyUp, Chunk, Clobbers, AfterChunk;
    if n == 0 {
      CopyNothing(mem, dst, src);
    } else {
      var w := Chunk(n);
      CopyUpStep(mem, dst, src, n);
      ClobbersNot(dst, src, n);
      ChunkAt(mem, dst, src, n, i);
      if dst + w <= i < dst + n {
        ChunkAt(mem, dst, src, n, src + (i - dst));
      }
      CopyUpAt(AfterChunk(mem, dst, src, n), dst + w, src + w, n - w, i);
    }
  }

  /** Below itself or beside itself, or one word, the copy is the bytes that were there. */
  lemma CopyUpMoves(mem: seq<Byte>, dst: nat, src: nat, n: nat)
    requires dst + n <= |mem| && src + n <= |mem| && !Clobbers(dst, src, n)
    ensures CopyUp(mem, dst, src, n) == Store(mem, dst, mem[src..src + n])
  {
    hide CopyUp, Clobbers;
    var a, b := CopyUp(mem, dst, src, n), Store(mem, dst, mem[src..src + n]);
    forall i | 0 <= i < |mem| ensures a[i] == b[i] {
      CopyUpAt(mem, dst, src, n, i);
    }
  }

  lemma {:induction false} CopyUpBeside(mem: seq<Byte>, dst: nat, src: nat, n: nat, i: nat)
    requires dst + n <= |mem| && src + n <= |mem| && i < dst
    ensures CopyUp(mem, dst, src, n)[i] == mem[i]
    decreases n
  {
    if n > 0 {
      var w := Chunk(n);
      CopyUpBeside(Store(mem, dst, mem[src..src + w]), dst + w, src + w, n - w, i);
    }
  }

  /** A byte below the destination is still what it was when it is read. */
  lemma {:induction false} CopyUpReads(mem: seq<Byte>, dst: nat, src: nat, n: nat, t: nat)
    requires dst + n <= |mem| && src + n <= |mem| && t < n && src + t < dst
    ensures CopyUp(mem, dst, src, n)[dst + t] == mem[src + t]
    decreases n
  {
    hide CopyUp, Chunk, AfterChunk;
    CopyUpStep(mem, dst, src, n);
    var w := Chunk(n);
    var next := AfterChunk(mem, dst, src, n);
    if t < w {
      ChunkAt(mem, dst, src, n, dst + t);
      CopyUpBeside(next, dst + w, src + w, n - w, dst + t);
    } else {
      ChunkAt(mem, dst, src, n, src + t);
      CopyUpReads(next, dst + w, src + w, n - w, t - w);
    }
  }

  /** The byte j that is read too late comes out as one the first chunk has put there. */
  lemma CopyUpLate(mem: seq<Byte>, dst: nat, src: nat, n: nat, j: nat)
    requires dst + n <= |mem| && src + n <= |mem|
    requires Chunk(n) <= j < n && src < dst <= src + j < dst + Chunk(n)
    ensures CopyUp(mem, dst, src, n)[dst + j] == mem[src + j - (dst - src)]
  {
    hide CopyUp, Chunk, AfterChunk;
    CopyUpStep(mem, dst, src, n);
    var w := Chunk(n);
    ChunkAt(mem, dst, src, n, src + j);
    CopyUpReads(AfterChunk(mem, dst, src, n), dst + w, src + w, n - w, j - w);
  }

  function LateByte(dst: nat, src: nat, n: nat): (j: nat)
    requires Clobbers(dst, src, n)
    ensures Chunk(n) <= j < n && src < dst <= src + j < dst + Chunk(n)
  {
    if Chunk(n) <= dst - src then dst - src else Chunk(n)
  }

  lemma CopyUpSpoils(length: nat, dst: nat, src: nat, n: nat) returns (mem: seq<Byte>)
    requires dst + n <= length && src + n <= length && Clobbers(dst, src, n)
    ensures |mem| == length && CopyUp(mem, dst, src, n) != Store(mem, dst, mem[src..src + n])
  {
    hide CopyUp, Clobbers, Chunk, LateByte;
    var j := LateByte(dst, src, n);
    mem := seq(length, i => if i == src + j then 1 as Byte else 0);
    CopyUpLate(mem, dst, src, n, j);
    assert CopyUp(mem, dst, src, n)[dst + j] != Store(mem, dst, mem[src..src + n])[dst + j];
  }

  /** `memcpy` delivers the bytes that were there, whatever they are, exactly when it does not clobber its source. */
  lemma CopyIsExactIff(length: nat, dst: nat, src: nat, n: nat)
    requires dst + n <= length && src + n <= length
    ensures !Clobbers(dst, src, n) <==>
            forall mem: seq<Byte> :: |mem| == length ==>
              CopyUp(mem, dst, src, n) == Store(mem, dst, mem[src..src + n])
  {
    hide CopyUp, Clobbers, Store;
    if !Clobbers(dst, src, n) {
      forall mem: seq<Byte> | |mem| == length
        ensures CopyUp(mem, dst, src, n) == Store(mem, dst, mem[src..src + n])
      {
        CopyUpMoves(mem, dst, src, n);
      }
    } else {
      var mem := CopyUpSpoils(length, dst, src, n);
    }
  }

  // ---- the invariant ----

  ghost predicate Inv(h: Heap) {
    && 0 < h.base && h.base % MIN_ALLOC == 0 && h.base + |h.mem| < TWO64
    && h.blocks != [] && |h.blocks| <= h.slots && Canonical(h.blocks)
    && Total(h.blocks) == |h.mem|
    && h.usedmem == Used(h.blocks) && h.freemem == Free(h.blocks)
    && AllGuarded(h)
  }

  ghost predicate AllGuarded(h: Heap) {
    forall e :: e in h.Allocs() ==> Guarded(h.mem, e.start - h.base, e.length)
  }

  /** A pointer the allocator handed out and has not taken back. */
  ghost predicate IsLive(h: Heap, p: int) {
    exists e :: e in h.Allocs() && e.start + REDZONE == p
  }

  /** The bytes the owner of p may use. */
  ghost predicate Usable(e: Extent, a: int) {
    e.start + REDZONE <= a < e.start + e.length - REDZONE
  }

  // ---- request sizes ----

  /** The block length for a request, in 64-bit arithmetic: `align(size, 16) + 128`. */
  function Padded(size: nat): nat {
    ((size + 15) % TWO64 / 16 * 16 + 2 * REDZONE) % TWO64
  }

  /** A request gets the room it asked for exactly when the 64-bit sum does not wrap. */
  lemma PaddedIsEnough(size: nat)
    requires size < TWO64
    ensures Padded(size) % MIN_ALLOC == 0 && Padded(0) == 2 * REDZONE
    ensures size <= MAX_REQUEST <==> Padded(size) >= size + 2 * REDZONE
    ensures 0 < size <= MAX_REQUEST ==> Padded(size) == AlignUp(size, MIN_ALLOC) + 2 * REDZONE >= MIN_USED
  {
    hide Padded, AlignUp;
    PaddedCases(size);
    PaddedCases(0);
    AlignUpIsLeast(size, MIN_ALLOC);
    AlignUpIsLeast(0, MIN_ALLOC);
  }

  lemma PaddedCases(size: nat)
    requires size < TWO64
    ensures Padded(size) ==
            if size + 15 < TWO64 then (AlignUp(size, MIN_ALLOC) + 2 * REDZONE) % TWO64 else 2 * REDZONE
  {
    if size + 15 < TWO64 {
      assert (size + 15) % TWO64 == size + 15;
    } else {
      assert (size + 15) % TWO64 == size + 15 - TWO64 < 16;
    }
  }

  // ---- the operations ----

  /** Block k split as [gap, guarded block of n bytes, rest], with the books adjusted. */
  function Placed(h: Heap, k: nat, gap: nat, n: nat): Heap
    requires k < |h.blocks| && gap + n <= h.blocks[k].length
  {
    h.(blocks := Place(h.blocks, k, gap, n), mem := Guard(h.mem, Total(h.blocks[..k]) + gap, n),
       usedmem := (h.usedmem + n) % TWO64, freemem := (h.freemem - n) % TWO64)
  }

  function AllocAt(h: Heap, size: nat, align: nat): Outcome<Reply>
    requires align > 0
  {
    var k := FirstFit(h.blocks, h.base, size, align);
    if k == |h.blocks| then Halted
    else
      FirstFitFits(h.blocks, h.base, size, align);
      var here := Total(h.blocks[..k]);
      var gap := Skip(h.base + here, align);
      var g := Placed(h, k, gap, size);
      if |g.blocks| > h.slots then Halted else Done(Reply(g, h.base + here + gap + REDZONE))
  }

  function Alloc(h: Heap, size: nat): Outcome<Reply> {
    if size == 0 then Done(Reply(h, 0)) else AllocAt(h, Padded(size), MIN_ALLOC)
  }

  /** The alignment is rounded up in 32-bit arithmetic. */
  function RoundedAlign(align: nat): nat {
    (align + 15) % TWO32 / 16 * 16
  }

  /** A free block of at least n bytes: where the aligned search first looks at the address. */
  predicate SomeLongEnough(bs: seq<Block>, n: nat) {
    exists k :: 0 <= k < |bs| && bs[k].free && bs[k].length >= n
  }

  /** What the aligned call does at the end of the heap: it books and guards n bytes that are not there. */
  function PastEnd(h: Heap, n: nat): Reply {
    Reply(h.(mem := Guard(h.mem, Total(h.blocks), n),
             usedmem := (h.usedmem + n) % TWO64, freemem := (h.freemem - n) % TWO64),
          h.base + Total(h.blocks) + REDZONE)
  }

  /**
   Without a fitting block the loop ends at the end of the heap and the call goes on. An alignment that
   rounds to zero divides by zero at the first free block that is long enough.
   */
  function AllocAligned(h: Heap, size: nat, align: nat): Outcome<Reply> {
    var n, a := Padded(size), RoundedAlign(align);
    if a == 0 then (if SomeLongEnough(h.blocks, n) then Halted else Done(PastEnd(h, n)))
    else if FirstFit(h.blocks, h.base, n, a) == |h.blocks| then Done(PastEnd(h, n))
    else AllocAt(h, n, a)
  }

  /** `check`: a used block of legal size with intact redzones starts there. */
  predicate CheckOk(h: Heap, p: nat) {
    var k := Find(h.blocks, h.base, p - REDZONE);
    && k < |h.blocks| && !h.blocks[k].free && h.blocks[k].length >= MIN_USED
    && Guarded(h.mem, Total(h.blocks[..k]), h.blocks[k].length)
  }

  function FreePtr(h: Heap, p: nat): Outcome<Heap> {
    if p == 0 then Done(h)
    else if !CheckOk(h, p) then Halted
    else
      var k := Find(h.blocks, h.base, p - REDZONE);
      var n := h.blocks[k].length;
      Done(h.(blocks := Release(h.blocks, k), usedmem := (h.usedmem - n) % TWO64, freemem := (h.freemem + n) % TWO64))
  }

  /** Block k extended to n bytes, with a new trailing redzone. */
  function Grown(h: Heap, k: nat, n: nat): Heap
    requires k < |h.blocks| && CanGrow(h.blocks, k, n)
  {
    var d := n - h.blocks[k].length;
    h.(blocks := Grow(h.blocks, k, n),
       mem := Fill(h.mem, Total(h.blocks[..k]) + n - REDZONE, REDZONE, MAGIC),
       usedmem := (h.usedmem + d) % TWO64, freemem := (h.freemem - d) % TWO64)
  }

  datatype Attempt = Attempt(heap: Heap, ok: bool)

  function TryRealloc(h: Heap, p: nat, newsize: nat): Outcome<Attempt> {
    if p == 0 then
      match Alloc(h, newsize)
      case Halted => Halted
      case Done(r) => Done(Attempt(r.heap, r.addr != 0))
    else if p % 16 != 0 then Halted
    else
      var n := Padded(newsize);
      var k := Find(h.blocks, h.base, p - REDZONE);
      if k == |h.blocks| then Halted
      else
        var off, len := Total(h.blocks[..k]), h.blocks[k].length;
        if n <= len then
          Done(Attempt(h.(mem := Fill(h.mem, off + len - REDZONE, REDZONE, MAGIC)), true))
        else if CanGrow(h.blocks, k, n) then
          Done(Attempt(Grown(h, k, n), true))
        else Done(Attempt(h, false))
  }

  function GetSize(h: Heap, p: nat): Outcome<nat> {
    var k := Find(h.blocks, h.base, p - REDZONE);
    if k == |h.blocks| then Halted else Done((h.blocks[k].length - 2 * REDZONE) % TWO64)
  }

  predicate InHeap(h: Heap, p: nat, n: nat) {
    h.base <= p && p + n <= h.base + |h.mem|
  }

  function Contents(h: Heap, p: nat, n: nat): seq<Byte>
    requires InHeap(h, p, n)
  {
    h.mem[p - h.base..p - h.base + n]
  }

  function Copied(g: Heap, src: nat, dst: nat, n: nat): Heap
    requires InHeap(g, src, n) && InHeap(g, dst, n)
  {
    g.(mem := CopyUp(g.mem, dst - g.base, src - g.base, n))
  }

  /** The slow path of `realloc`: a new block, a copy of the old usable bytes, and the old block given back. */
  function Move(h: Heap, p: nat, newsize: nat): Outcome<Reply> {
    match Alloc(h, newsize)
    case Halted => Halted
    case Done(r) =>
      match GetSize(r.heap, p)
      case Halted => Halted
      case Done(n) =>
        var g := r.heap;
        if !InHeap(g, p, n) || !InHeap(g, r.addr, n) then Halted
        else
          match FreePtr(Copied(g, p, r.addr, n), p)
          case Halted => Halted
          case Done(f) => Done(Reply(f, r.addr))
  }

  function Realloc(h: Heap, p: nat, newsize: nat): Outcome<Reply> {
    match TryRealloc(h, p, newsize)
    case Halted => Halted
    case Done(t) => if t.ok then Done(Reply(t.heap, p)) else Move(t.heap, p, newsize)
  }

  // ---- what the operations keep and promise ----

  /** Where memory differs, the address lies in e. */
  ghost predicate OnlyWithin(h: Heap, g: Heap, e: Extent) {
    && |g.mem| == |h.mem| && g.base == h.base && g.slots == h.slots
    && forall i :: 0 <= i < |h.mem| && !(e.start <= h.base + i < e.start + e.length) ==> g.mem[i] == h.mem[i]
  }

  /** Redzones survive a write that stays inside one extent, everywhere but in that extent. */
  lemma GuardsKept(h: Heap, g: Heap, e: Extent)
    requires AllGuarded(h) && OnlyWithin(h, g, e)
    requires g.Allocs() <= h.Allocs() + {e}
    requires forall f :: f in g.Allocs() && f != e ==> Apart(e, f)
    requires e in g.Allocs() ==> Guarded(g.mem, e.start - g.base, e.length)
    ensures AllGuarded(g)
  {
    forall f | f in g.Allocs() ensures Guarded(g.mem, f.start - g.base, f.length) {
      assert f != e ==> Guarded(h.mem, f.start - h.base, f.length);
    }
  }

  lemma GuardGuards(mem: seq<Byte>, off: nat, length: nat)
    requires length >= 2 * REDZONE && off + length <= |mem|
    ensures Guarded(Guard(mem, off, length), off, length)
  {
  }

  lemma PrefixAligned(bs: seq<Block>, k: nat)
    requires Shape(bs) && k <= |bs|
    ensures Total(bs[..k]) % MIN_ALLOC == 0 && Total(bs[..k]) <= Total(bs)
  {
    TotalAligned(bs[..k]);
    assert bs == bs[..k] + bs[k..];
    Concat(bs[..k], bs[k..], 0);
  }

  lemma BlockInside(bs: seq<Block>, k: nat)
    requires k < |bs|
    ensures Total(bs[..k + 1]) == Total(bs[..k]) + bs[k].length <= Total(bs)
  {
    hide Total;
    assert bs == bs[..k + 1] + bs[k + 1..] && bs[..k + 1] == bs[..k] + [bs[k]];
    OneLive(bs[k], 0);
    Concat(bs[..k + 1], bs[k + 1..], 0);
    Concat(bs[..k], [bs[k]], 0);
  }

  lemma CountersAgree(bs: seq<Block>, cs: seq<Block>, d: int)
    requires Total(bs) == Total(cs) < TWO64 && Used(cs) == Used(bs) + d
    ensures (Used(bs) + d) % TWO64 == Used(cs) && (Free(bs) - d) % TWO64 == Free(cs)
  {
    UsedPlusFree(bs);
    UsedPlusFree(cs);
  }

  /** The block an allocation lands in, and how far into it. */
  ghost predicate Chosen(h: Heap, size: nat, align: nat, k: nat, gap: nat)
    requires align > 0
  {
    && k == FirstFit(h.blocks, h.base, size, align) < |h.blocks|
    && gap == Skip(h.base + Total(h.blocks[..k]), align)
  }

  lemma SumAligned(x: nat, y: nat)
    requires x % MIN_ALLOC == 0 && y % MIN_ALLOC == 0
    ensures (x + y) % MIN_ALLOC == 0
  {
  }

  lemma ChosenFits(h: Heap, size: nat, align: nat, k: nat, gap: nat)
    requires Canonical(h.blocks) && h.base % MIN_ALLOC == 0 && align > 0 && align % MIN_ALLOC == 0
    requires Chosen(h, size, align, k, gap)
    ensures h.blocks[k].free && gap + size <= h.blocks[k].length && gap % MIN_ALLOC == 0
    ensures (h.base + Total(h.blocks[..k]) + gap + REDZONE) % align == 0
    ensures Total(h.blocks[..k]) + gap + size <= Total(h.blocks)
  {
    hide Total, Skip, FirstFit, Shape, Coalesced;
    BlockInside(h.blocks, k);
    FirstFitFits(h.blocks, h.base, size, align);
    PrefixAligned(h.blocks, k);
    var here := h.base + Total(h.blocks[..k]);
    SumAligned(h.base, Total(h.blocks[..k]));
    SkipAligned(here, align);
    SkipLands(here, align);
  }

  lemma AllocAtChosen(h: Heap, size: nat, align: nat, k: nat, gap: nat)
    requires align > 0 && Chosen(h, size, align, k, gap) && gap + size <= h.blocks[k].length
    ensures AllocAt(h, size, align) ==
            if |Place(h.blocks, k, gap, size)| > h.slots then Halted
            else Done(Reply(Placed(h, k, gap, size), h.base + Total(h.blocks[..k]) + gap + REDZONE))
  {
  }

  /** A successful allocation hands out a fresh, disjoint, aligned and guarded extent and keeps the invariant. */
  lemma AllocAtKeeps(h: Heap, size: nat, align: nat)
    requires Inv(h) && size % MIN_ALLOC == 0 && size >= MIN_USED && align > 0 && align % MIN_ALLOC == 0
    requires AllocAt(h, size, align).Done?
    ensures var r := AllocAt(h, size, align).value;
            var e := Extent(r.addr - REDZONE, size);
            && Inv(r.heap) && r.addr % align == 0 && r.addr > 0
            && e !in h.Allocs() && r.heap.Allocs() == h.Allocs() + {e}
            && (forall f :: f in h.Allocs() ==> Apart(e, f))
            && OnlyWithin(h, r.heap, e)
  {
    hide Total, Live, FirstFit, Skip, Place, Guard, Shape, Coalesced, AllGuarded, OnlyWithin, Apart;
    var k := FirstFit(h.blocks, h.base, size, align);
    var gap := Skip(h.base + Total(h.blocks[..k]), align);
    ChosenFits(h, size, align, k, gap);
    AllocAtChosen(h, size, align, k, gap);
    hide AllocAt, Inv, Placed;
    PlacedKeeps(h, k, gap, size);
  }

  lemma PlacedKeeps(h: Heap, k: nat, gap: nat, size: nat)
    requires Inv(h) && size % MIN_ALLOC == 0 && size >= MIN_USED && gap % MIN_ALLOC == 0
    requires k < |h.blocks| && h.blocks[k].free && gap + size <= h.blocks[k].length
    requires |Place(h.blocks, k, gap, size)| <= h.slots && Total(h.blocks[..k]) + gap + size <= Total(h.blocks)
    ensures var g, e := Placed(h, k, gap, size), Extent(h.base + Total(h.blocks[..k]) + gap, size);
            && Inv(g) && e.start >= 0 && e !in h.Allocs() && g.Allocs() == h.Allocs() + {e}
            && (forall f :: f in h.Allocs() ==> Apart(e, f))
            && OnlyWithin(h, g, e)
  {
    hide Total, Used, HeapBlocks.Free, Live, BlockOk, Coalesced, Guarded, Place;
    PlaceEffect(h.blocks, k, gap, size, h.base);
    PlaceSome(h.blocks, k, gap, size);
    var g, e := Placed(h, k, gap, size), Extent(h.base + Total(h.blocks[..k]) + gap, size);
    CountersAgree(h.blocks, g.blocks, size);
    LiveBounds(g.blocks, h.base, e);
    GuardGuards(h.mem, Total(h.blocks[..k]) + gap, size);
    GuardsKept(h, g, e);
  }

  // ---- pointers ----

  /** The extent a live pointer names, read off the block list. */
  ghost function Owned(h: Heap, p: int): (e: Extent)
    requires Inv(h) && IsLive(h, p)
    ensures e in h.Allocs() && e.start + REDZONE == p
    ensures forall f :: f in h.Allocs() && f.start + REDZONE == p ==> f == e
  {
    var k := Find(h.blocks, h.base, p - REDZONE);
    FindLive(h.blocks, h.base, p - REDZONE);
    FindAt(h.blocks, h.base, p - REDZONE);
    LiveAt(h.blocks, h.base, k);
    Extent(p - REDZONE, h.blocks[k].length)
  }

  lemma OwnedBlock(h: Heap, p: int)
    requires Inv(h) && IsLive(h, p)
    ensures var k := Find(h.blocks, h.base, p - REDZONE);
            && k < |h.blocks| && !h.blocks[k].free
            && h.base + Total(h.blocks[..k]) + REDZONE == p
            && Owned(h, p) == Extent(p - REDZONE, h.blocks[k].length)
            && p % MIN_ALLOC == 0
  {
    hide Total, Find, Live, Shape, Coalesced, AllGuarded;
    var k := Find(h.blocks, h.base, p - REDZONE);
    FindLive(h.blocks, h.base, p - REDZONE);
    FindAt(h.blocks, h.base, p - REDZONE);
    PrefixAligned(h.blocks, k);
    SumAligned(h.base, Total(h.blocks[..k]));
  }

  /** In a sound heap `check` accepts exactly the live pointers: it never reports corruption. */
  lemma CheckIffLive(h: Heap, p: nat)
    requires Inv(h)
    ensures CheckOk(h, p) <==> IsLive(h, p)
  {
    FindLive(h.blocks, h.base, p - REDZONE);
    if IsLive(h, p) {
      OwnedBlock(h, p);
      LiveBounds(h.blocks, h.base, Owned(h, p));
    }
  }

  /** Giving a live pointer back removes that extent, changes no byte, and keeps the invariant. */
  lemma FreeKeeps(h: Heap, p: nat)
    requires Inv(h) && IsLive(h, p)
    ensures FreePtr(h, p).Done?
    ensures var g := FreePtr(h, p).value;
            Inv(g) && g.Allocs() == h.Allocs() - {Owned(h, p)} && g.mem == h.mem && g.base == h.base
              && g.slots == h.slots
  {
    hide Total, Used, HeapBlocks.Free, Live, BlockOk, Coalesced, Find, CheckOk, Guarded;
    CheckIffLive(h, p);
    OwnedBlock(h, p);
    LiveBounds(h.blocks, h.base, Owned(h, p));
    var k := Find(h.blocks, h.base, p - REDZONE);
    ReleaseEffect(h.blocks, k, h.base);
    CountersAgree(h.blocks, Release(h.blocks, k), 0 - h.blocks[k].length);
  }

  // ---- realloc ----

  /** r is what a reallocation of the live pointer p to `newsize` bytes has to deliver, in the extent e'. */
  ghost predicate Moved(h: Heap, p: nat, newsize: nat, r: Reply, e': Extent)
    requires Inv(h) && IsLive(h, p)
  {
    var e := Owned(h, p);
    var n := e.length - 2 * REDZONE;
    && Inv(r.heap) && r.addr == e'.start + REDZONE
    && e'.length >= newsize + 2 * REDZONE && e'.length >= e.length
    && r.heap.Allocs() == h.Allocs() - {e} + {e'}
    && (forall f :: f in h.Allocs() && f != e ==> Apart(e', f))
    && OnlyWithin(h, r.heap, e')
    && n >= 0 && InHeap(h, p, n) && InHeap(r.heap, r.addr, n)
    && Contents(r.heap, r.addr, n) == Contents(h, p, n)
  }

  lemma OwnedRange(h: Heap, p: nat)
    requires Inv(h) && IsLive(h, p)
    ensures var e := Owned(h, p);
            && e.length >= MIN_USED && h.base <= e.start && e.start + e.length <= h.base + |h.mem|
            && Guarded(h.mem, e.start - h.base, e.length)
            && forall f :: f in h.Allocs() && f != e ==> Apart(e, f)
  {
    var e := Owned(h, p);
    LiveBounds(h.blocks, h.base, e);
    forall f | f in h.Allocs() && f != e ensures Apart(e, f) {
      LiveDisjoint(h.blocks, h.base, e, f);
    }
  }

  /** Painting a redzone that is intact changes nothing. */
  lemma RepaintGuarded(mem: seq<Byte>, off: nat, length: nat)
    requires Guarded(mem, off, length)
    ensures Fill(mem, off + length - REDZONE, REDZONE, MAGIC) == mem
  {
  }

  lemma StayKeeps(h: Heap, p: nat, newsize: nat)
    requires Inv(h) && IsLive(h, p) && newsize <= MAX_REQUEST
    requires Padded(newsize) <= Owned(h, p).length
    ensures TryRealloc(h, p, newsize) == Done(Attempt(h, true))
    ensures Moved(h, p, newsize, Reply(h, p), Owned(h, p))
  {
    hide Inv, IsLive, Padded, Total, Find, Fill, Guarded, Live, Owned, Grown, CanGrow;
    OwnedBlock(h, p);
    OwnedRange(h, p);
    PaddedIsEnough(newsize);
    RepaintGuarded(h.mem, p - REDZONE - h.base, Owned(h, p).length);
  }

  lemma GrownKeeps(h: Heap, k: nat, n: nat)
    requires Inv(h) && k < |h.blocks| && !h.blocks[k].free && CanGrow(h.blocks, k, n) && n % MIN_ALLOC == 0
    ensures var g := Grown(h, k, n);
            var here := h.base + Total(h.blocks[..k]);
            var e, e' := Extent(here, h.blocks[k].length), Extent(here, n);
            && Inv(g) && g.Allocs() == h.Allocs() - {e} + {e'} && OnlyWithin(h, g, e')
            && here + n <= h.base + |h.mem|
            && forall f :: f in h.Allocs() && f != e ==> Apart(e', f)
  {
    hide Total, Used, HeapBlocks.Free, Live, BlockOk, Coalesced, Guarded;
    var g := Grown(h, k, n);
    var here := h.base + Total(h.blocks[..k]);
    var e, e' := Extent(here, h.blocks[k].length), Extent(here, n);
    GrowEffect(h.blocks, k, n, h.base);
    CountersAgree(h.blocks, g.blocks, n - e.length);
    LiveBounds(h.blocks, h.base, e);
    LiveBounds(g.blocks, h.base, e');
    GrownGuarded(h, g, e, e');
    GuardsKept(h, g, e');
  }

  lemma GrownGuarded(h: Heap, g: Heap, e: Extent, e': Extent)
    requires g.base == h.base && e.start == e'.start && e.length <= e'.length && e'.length >= 2 * REDZONE
    requires h.base <= e.start && e'.start + e'.length <= h.base + |h.mem|
    requires Guarded(h.mem, e.start - h.base, e.length)
    requires g.mem == Fill(h.mem, e.start - h.base + e'.length - REDZONE, REDZONE, MAGIC)
    ensures Guarded(g.mem, e'.start - g.base, e'.length)
  {
  }

  lemma GrowKeeps(h: Heap, p: nat, newsize: nat)
    requires Inv(h) && IsLive(h, p) && newsize <= MAX_REQUEST
    requires var k := Find(h.blocks, h.base, p - REDZONE); k < |h.blocks| && CanGrow(h.blocks, k, Padded(newsize))
    ensures var g := Grown(h, Find(h.blocks, h.base, p - REDZONE), Padded(newsize));
            && TryRealloc(h, p, newsize) == Done(Attempt(g, true))
            && Moved(h, p, newsize, Reply(g, p), Extent(p - REDZONE, Padded(newsize)))
  {
    hide Inv, IsLive, Padded, Total, Find, Fill, Guarded, Live, Owned, Grown, Contents;
    var k := Find(h.blocks, h.base, p - REDZONE);
    var n := Padded(newsize);
    OwnedBlock(h, p);
    OwnedRange(h, p);
    PaddedIsEnough(newsize);
    GrownKeeps(h, k, n);
    GrownBytes(h, k, n, Owned(h, p));
  }

  /** Growing paints behind the old usable bytes. */
  lemma GrownBytes(h: Heap, k: nat, n: nat, e: Extent)
    requires k < |h.blocks| && CanGrow(h.blocks, k, n) && e == Extent(h.base + Total(h.blocks[..k]), h.blocks[k].length)
    requires e.length >= 2 * REDZONE && e.start + n <= h.base + |h.mem|
    ensures var m := e.length - 2 * REDZONE;
            && InHeap(h, e.start + REDZONE, m) && InHeap(Grown(h, k, n), e.start + REDZONE, m)
            && Contents(Grown(h, k, n), e.start + REDZONE, m) == Contents(h, e.start + REDZONE, m)
  {
    hide Total;
  }

  function Written(h: Heap, p: nat, data: seq<Byte>): Heap
    requires InHeap(h, p, |data|)
  {
    h.(mem := Store(h.mem, p - h.base, data))
  }

  lemma WriteKeeps(h: Heap, e: Extent, at: nat, data: seq<Byte>)
    requires Inv(h) && e in h.Allocs() && at + |data| <= e.length - 2 * REDZONE
    ensures InHeap(h, e.start + REDZONE + at, |data|)
    ensures var g := Written(h, e.start + REDZONE + at, data);
            Inv(g) && OnlyWithin(h, g, e) && g.blocks == h.blocks
  {
    LiveBounds(h.blocks, h.base, e);
    var g := Written(h, e.start + REDZONE + at, data);
    assert Guarded(h.mem, e.start - h.base, e.length);
    assert Guarded(g.mem, e.start - g.base, e.length);
    forall f | f in g.Allocs() && f != e ensures Apart(e, f) {
      LiveDisjoint(h.blocks, h.base, e, f);
    }
    GuardsKept(h, g, e);
  }

  lemma CopyIsWrite(g: Heap, src: nat, dst: nat, n: nat)
    requires InHeap(g, src, n) && InHeap(g, dst, n) && !Clobbers(dst - g.base, src - g.base, n)
    ensures Copied(g, src, dst, n) == Written(g, dst, Contents(g, src, n))
    ensures Contents(Copied(g, src, dst, n), dst, n) == Contents(g, src, n) && |Contents(g, src, n)| == n
  {
    hide CopyUp;
    CopyUpMoves(g.mem, dst - g.base, src - g.base, n);
  }

  /** The copy stays between the redzones of the new block. */
  lemma CopyKeeps(g: Heap, src: nat, dst: nat, e: Extent, e': Extent)
    requires Inv(g) && e in g.Allocs() && e' in g.Allocs() && e != e'
    requires e.start + REDZONE == src && e'.start + REDZONE == dst && e.length <= e'.length
    ensures e.length >= 2 * REDZONE && InHeap(g, src, e.length - 2 * REDZONE) && InHeap(g, dst, e.length - 2 * REDZONE)
    ensures var c := Copied(g, src, dst, e.length - 2 * REDZONE);
            && Inv(c) && OnlyWithin(g, c, e') && c.blocks == g.blocks
            && Contents(c, dst, e.length - 2 * REDZONE) == Contents(g, src, e.length - 2 * REDZONE)
  {
    hide Inv, CopyUp, Contents, Written, OnlyWithin;
    CopyFits(g, src, dst, e, e');
    var n := e.length - 2 * REDZONE;
    CopyIsWrite(g, src, dst, n);
    WriteKeeps(g, e', 0, Contents(g, src, n));
  }

  lemma CopyFits(g: Heap, src: nat, dst: nat, e: Extent, e': Extent)
    requires Inv(g) && e in g.Allocs() && e' in g.Allocs() && e != e'
    requires e.start + REDZONE == src && e'.start + REDZONE == dst && e.length <= e'.length
    ensures g.base <= src && g.base <= dst && e.length >= 2 * REDZONE
    ensures var n := e.length - 2 * REDZONE;
            InHeap(g, src, n) && InHeap(g, dst, n) && !Clobbers(dst - g.base, src - g.base, n)
  {
    hide Live, AllGuarded;
    LiveBounds(g.blocks, g.base, e);
    LiveBounds(g.blocks, g.base, e');
    LiveDisjoint(g.blocks, g.base, e, e');
  }

  lemma Untouched(h: Heap, g: Heap, e: Extent, e': Extent)
    requires OnlyWithin(h, g, e') && Apart(e', e) && e.length >= 2 * REDZONE
    requires h.base <= e.start && e.start + e.length <= h.base + |h.mem|
    ensures Contents(g, e.start + REDZONE, e.length - 2 * REDZONE) ==
            Contents(h, e.start + REDZONE, e.length - 2 * REDZONE)
  {
  }

  /** After the new block is there, the copy and the free go through. */
  lemma MoveSteps(h: Heap, p: nat, newsize: nat, r: Reply, e: Extent, e': Extent)
    requires newsize > 0 && Alloc(h, newsize) == Done(r)
    requires Inv(r.heap) && e in r.heap.Allocs() && e' in r.heap.Allocs() && e != e'
    requires e.start + REDZONE == p && e'.start + REDZONE == r.addr && e.length <= e'.length
    ensures e.length >= 2 * REDZONE && InHeap(r.heap, p, e.length - 2 * REDZONE)
            && InHeap(r.heap, r.addr, e.length - 2 * REDZONE)
    ensures var c := Copied(r.heap, p, r.addr, e.length - 2 * REDZONE);
            && FreePtr(c, p).Done? && Move(h, p, newsize) == Done(Reply(FreePtr(c, p).value, r.addr))
            && Inv(FreePtr(c, p).value) && OnlyWithin(r.heap, FreePtr(c, p).value, e')
            && FreePtr(c, p).value.Allocs() == r.heap.Allocs() - {e}
            && Contents(FreePtr(c, p).value, r.addr, e.length - 2 * REDZONE) ==
               Contents(r.heap, p, e.length - 2 * REDZONE)
  {
    hide Release, Total, Used, HeapBlocks.Free, Live, Find, Padded, CopyUp, Guarded, CheckOk, FreePtr, Alloc, Canonical;
    assert IsLive(r.heap, p);
    OwnedBlock(r.heap, p);
    CopyKeeps(r.heap, p, r.addr, e, e');
    var c := Copied(r.heap, p, r.addr, e.length - 2 * REDZONE);
    assert c.Allocs() == r.heap.Allocs();
    assert Owned(c, p) == e;
    FreeKeeps(c, p);
  }

  lemma MoveKeeps(h: Heap, p: nat, newsize: nat)
    requires Inv(h) && IsLive(h, p) && newsize <= MAX_REQUEST
    requires Padded(newsize) > Owned(h, p).length
    requires Move(h, p, newsize).Done?
    ensures var r := Move(h, p, newsize).value;
            Moved(h, p, newsize, r, Extent(r.addr - REDZONE, Padded(newsize)))
  {
    hide Inv, Live, AllocAt, Padded, Guarded, FreePtr, Owned, IsLive, Contents, CopyUp, Move;
    var e := Owned(h, p);
    OwnedRange(h, p);
    PaddedIsEnough(newsize);
    MoveAllocates(h, p, newsize);
    var r := Alloc(h, newsize).value;
    var e' := Extent(r.addr - REDZONE, Padded(newsize));
    MoveSteps(h, p, newsize, r, e, e');
    Untouched(h, r.heap, e, e');
    var f := Move(h, p, newsize).value.heap;
    WithinTwice(h, r.heap, f, e');
    assert f.Allocs() == h.Allocs() - {e} + {e'};
  }

  /** The slow path got its block. */
  lemma MoveAllocates(h: Heap, p: nat, newsize: nat)
    requires Inv(h) && newsize <= MAX_REQUEST && Padded(newsize) > 2 * REDZONE && Move(h, p, newsize).Done?
    ensures newsize > 0 && Alloc(h, newsize).Done?
    ensures var r := Alloc(h, newsize).value;
            var e := Extent(r.addr - REDZONE, Padded(newsize));
            && Inv(r.heap) && e !in h.Allocs() && r.heap.Allocs() == h.Allocs() + {e}
            && (forall f :: f in h.Allocs() ==> Apart(e, f)) && OnlyWithin(h, r.heap, e)
  {
    hide Inv, AllocAt, Padded, GetSize, FreePtr, Live;
    PaddedIsEnough(newsize);
    AllocAtKeeps(h, Padded(newsize), MIN_ALLOC);
  }

  lemma WithinTwice(h: Heap, g: Heap, f: Heap, e: Extent)
    requires OnlyWithin(h, g, e) && OnlyWithin(g, f, e)
    ensures OnlyWithin(h, f, e)
  {
  }

  // ---- realloc of a block that is free ----

  /** An address that starts a block without being live starts a free block, with a used one after it if any. */
  lemma FreeBlockAt(h: Heap, p: nat, n: nat)
    requires Inv(h) && !IsLive(h, p) && Find(h.blocks, h.base, p - REDZONE) < |h.blocks|
    ensures var k := Find(h.blocks, h.base, p - REDZONE);
            && h.blocks[k].free && BlockOk(h.blocks[k]) && !CanGrow(h.blocks, k, n)
            && h.base + Total(h.blocks[..k]) + REDZONE == p
            && Total(h.blocks[..k]) + h.blocks[k].length <= |h.mem|
  {
    var k := Find(h.blocks, h.base, p - REDZONE);
    FindLive(h.blocks, h.base, p - REDZONE);
    FindAt(h.blocks, h.base, p - REDZONE);
    LiveAt(h.blocks, h.base, k);
    BlockInside(h.blocks, k);
  }

  /** Writing only inside a free block keeps the invariant. */
  lemma FreeWrite(h: Heap, g: Heap, k: nat)
    requires Inv(h) && k < |h.blocks| && h.blocks[k].free && g == h.(mem := g.mem)
    requires OnlyWithin(h, g, Extent(h.base + Total(h.blocks[..k]), h.blocks[k].length))
    ensures Inv(g)
    ensures forall f :: f in h.Allocs() ==> Apart(Extent(h.base + Total(h.blocks[..k]), h.blocks[k].length), f)
  {
    var e := Extent(h.base + Total(h.blocks[..k]), h.blocks[k].length);
    forall f | f in h.Allocs() ensures Apart(e, f) {
      LiveBeside(h.blocks, h.base, k, f);
    }
    LiveAt(h.blocks, h.base, k);
    GuardsKept(h, g, e);
  }

  /** Reallocating a free block that is long enough answers yes and paints the end of that free block. */
  lemma FreeStay(h: Heap, p: nat, newsize: nat)
    requires Inv(h) && p != 0 && !IsLive(h, p) && newsize <= MAX_REQUEST
    requires TryRealloc(h, p, newsize).Done?
    ensures Find(h.blocks, h.base, p - REDZONE) < |h.blocks|
    ensures var t := TryRealloc(h, p, newsize).value;
            if t.ok then
              var e := Extent(p - REDZONE, h.blocks[Find(h.blocks, h.base, p - REDZONE)].length);
              && Inv(t.heap) && t.heap.Allocs() == h.Allocs() && OnlyWithin(h, t.heap, e)
              && forall f :: f in h.Allocs() ==> Apart(e, f)
            else t.heap == h && Move(h, p, newsize) == Halted
  {
    hide Total, Find, Live, Padded, Inv, Fill, CanGrow, Move, Grown;
    PaddedIsEnough(newsize);
    FreeBlockAt(h, p, Padded(newsize));
    var k := Find(h.blocks, h.base, p - REDZONE);
    if Padded(newsize) <= h.blocks[k].length {
      FreeWrite(h, TryRealloc(h, p, newsize).value.heap, k);
    } else {
      MoveHalts(h, p, newsize);
    }
  }

  /** The slow path cannot give back what is free: the machine stops. */
  lemma MoveHalts(h: Heap, p: nat, newsize: nat)
    requires Inv(h) && p != 0 && !IsLive(h, p) && newsize <= MAX_REQUEST
    requires var k := Find(h.blocks, h.base, p - REDZONE); k < |h.blocks| && h.blocks[k].length < Padded(newsize)
    ensures Move(h, p, newsize) == Halted
  {
    hide Total, Live, Padded, Find, FirstFit, AllocAt, CopyUp;
    if newsize > 0 && Alloc(h, newsize).Done? {
      var r := Alloc(h, newsize).value;
      PaddedIsEnough(newsize);
      NotLiveYet(h, p, Padded(newsize));
      NotFreeable(r.heap, p);
    }
  }

  lemma NotLiveYet(h: Heap, p: nat, n: nat)
    requires Inv(h) && !IsLive(h, p) && n % MIN_ALLOC == 0 && n >= MIN_USED && AllocAt(h, n, MIN_ALLOC).Done?
    requires var k := Find(h.blocks, h.base, p - REDZONE); k < |h.blocks| && h.blocks[k].length < n
    ensures Inv(AllocAt(h, n, MIN_ALLOC).value.heap) && !IsLive(AllocAt(h, n, MIN_ALLOC).value.heap, p)
  {
    hide Total, Live, Find, FirstFit, Skip, Placed, AllGuarded, Coalesced;
    AllocAtKeeps(h, n, MIN_ALLOC);
    FindAt(h.blocks, h.base, p - REDZONE);
    var i := FirstFit(h.blocks, h.base, n, MIN_ALLOC);
    FirstFitFits(h.blocks, h.base, n, MIN_ALLOC);
    PrefixAligned(h.blocks, i);
    SumAligned(h.base, Total(h.blocks[..i]));
    NoSkip(h.base + Total(h.blocks[..i]));
  }

  lemma NotFreeable(g: Heap, p: nat)
    requires Inv(g) && !IsLive(g, p) && p != 0
    ensures forall c: Heap :: c == g.(mem := c.mem) ==> FreePtr(c, p) == Halted
  {
    hide Total, Guarded, Release;
    FindLive(g.blocks, g.base, p - REDZONE);
  }
}
