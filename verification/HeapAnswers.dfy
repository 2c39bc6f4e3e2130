/** What the heap's calls answer, told by the live allocations and the bytes of memory alone (kernel/src/util/mm.cc). */
module HeapAnswers {
  import opened Machine
  import opened HeapBlocks
  import opened HeapOps
  import opened HeapState
  import opened HeapRuns

  /** n bytes from p on are heap that no allocation but perhaps `mine` has. */
  ghost predicate Open(h: Heap, mine: set<Extent>, p: int, n: nat) {
    && h.base <= p && p + n <= h.base + |h.mem|
    && forall f :: f in h.Allocs() && f !in mine ==> Apart(Extent(p, n), f)
  }

  // ---- an open stretch lies in one free block ----

  lemma {:induction false} BlockAt(bs: seq<Block>, addr: int, p: int) returns (k: nat)
    requires addr <= p < addr + Total(bs)
    ensures k < |bs| && addr + Total(bs[..k]) <= p < addr + Total(bs[..k]) + bs[k].length
  {
    if p < addr + bs[0].length {
      k := 0;
      NoTotal(bs);
    } else {
      var j := BlockAt(bs[1..], addr + bs[0].length, p);
      k := j + 1;
      PrefixTotal(bs, k);
    }
  }

  /** Where the block after k starts, and what it is after a free one. */
  lemma After(h: Heap, k: nat)
    requires Inv(h) && k < |h.blocks|
    ensures var end := h.base + Total(h.blocks[..k]) + h.blocks[k].length;
            && BlockOk(h.blocks[k])
            && (k + 1 < |h.blocks| ==> end == h.base + Total(h.blocks[..k + 1]) && BlockOk(h.blocks[k + 1]))
            && (k + 1 < |h.blocks| && h.blocks[k].free ==> !h.blocks[k + 1].free)
            && (k + 1 == |h.blocks| ==> end == h.base + |h.mem|)
  {
    hide Total, BlockOk, AllGuarded;
    BlockInside(h.blocks, k);
    if k + 1 == |h.blocks| {
      assert h.blocks[..k + 1] == h.blocks;
    }
  }

  lemma UsedIsLive(h: Heap, k: nat)
    requires Inv(h) && k < |h.blocks| && !h.blocks[k].free
    ensures Extent(h.base + Total(h.blocks[..k]), h.blocks[k].length) in h.Allocs()
  {
    hide Total, Live, AllGuarded, Coalesced;
    LiveAt(h.blocks, h.base, k);
  }

  /** Nothing is open across the end of a free block. */
  lemma OpenInBlock(h: Heap, p: int, n: nat) returns (k: nat)
    requires Inv(h) && Open(h, {}, p, n) && n > 0
    ensures k < |h.blocks| && h.blocks[k].free
    ensures h.base + Total(h.blocks[..k]) <= p && p + n <= h.base + Total(h.blocks[..k]) + h.blocks[k].length
  {
    TotalIs(h);
    hide Total, Inv, BlockOk, Live;
    k := BlockAt(h.blocks, h.base, p);
    After(h, k);
    if !h.blocks[k].free {
      UsedIsLive(h, k);
    } else if k + 1 < |h.blocks| {
      UsedIsLive(h, k + 1);
      UsedLength(h, k + 1);
    }
  }

  lemma TotalIs(h: Heap)
    requires Inv(h)
    ensures Total(h.blocks) == |h.mem|
  {
  }

  lemma UsedLength(h: Heap, k: nat)
    requires Inv(h) && k < |h.blocks|
    ensures h.blocks[k].length > 0
  {
    assert BlockOk(h.blocks[k]);
  }

  /** And what is inside a free block is open. */
  lemma BlockIsOpen(h: Heap, k: nat, p: int, n: nat)
    requires Inv(h) && k < |h.blocks| && h.blocks[k].free
    requires h.base + Total(h.blocks[..k]) <= p && p + n <= h.base + Total(h.blocks[..k]) + h.blocks[k].length
    ensures Open(h, {}, p, n)
  {
    TotalIs(h);
    hide Total, Live, Inv;
    BlockInside(h.blocks, k);
    forall f | f in h.Allocs() ensures Apart(Extent(p, n), f) {
      LiveBeside(h.blocks, h.base, k, f);
    }
  }

  // ---- allocation ----

  /** A place where n bytes can go so that the address behind the leading redzone is a multiple of `align`. */
  ghost predicate Site(h: Heap, n: nat, align: nat, p: int) {
    align > 0 && p + REDZONE >= 0 && (p + REDZONE) % align == 0 && Open(h, {}, p, n)
  }

  lemma RoomIsPlace(h: Heap, n: nat, align: nat, k: nat, p: nat)
    requires Inv(h) && RoomAt(h, n, align, k, p)
    ensures Site(h, n, align, p)
  {
    hide Total, Inv;
    BlockIsOpen(h, k, p, n);
  }

  lemma PlaceIsRoom(h: Heap, n: nat, align: nat, p: nat) returns (k: nat)
    requires Inv(h) && n > 0 && Site(h, n, align, p)
    ensures RoomAt(h, n, align, k, p)
  {
    hide Total, Inv;
    k := OpenInBlock(h, p, n);
  }

  ghost predicate Lowest(h: Heap, n: nat, align: nat, p: nat) {
    Site(h, n, align, p) && forall q: nat :: Site(h, n, align, q) ==> p <= q
  }

  /** How many more descriptors an allocation of [p, p + n) takes: one for what is left on either side. */
  ghost function Extra(h: Heap, p: int, n: nat): nat {
    (if Open(h, {}, p - 1, 1) then 1 else 0) + (if Open(h, {}, p + n, 1) then 1 else 0)
  }

  /**
   An allocation goes to the lowest suitably aligned place of the whole heap, and with such a place it stops only for
   want of descriptors.
   */
  lemma LowestSite(h: Heap, n: nat, align: nat, p: nat)
    requires Inv(h) && n > 0 && Lowest(h, n, align, p)
    ensures AllocAt(h, n, align).Done? <==> |h.blocks| + Extra(h, p, n) <= h.slots
    ensures AllocAt(h, n, align).Done? ==> AllocAt(h, n, align).value.addr == p + REDZONE
  {
    hide Inv, Total, FirstFit, Skip, Place, Live, Fits, Open;
    var k := PlaceIsRoom(h, n, align, p);
    SearchIsComplete(h, n, align);
    var f := FirstFit(h.blocks, h.base, n, align);
    var here := h.base + Total(h.blocks[..f]);
    FitsIffPlacement(h.blocks[f], here, n, align);
    RoomFits(h, n, align, f);
    var q := here + Skip(here, align);
    assert RoomAt(h, n, align, f, q);
    RoomIsPlace(h, n, align, f, q);
    LowerBlockLower(h, n, align, f, q, k, p);
    AllocAtChosen(h, n, align, f, q - here);
    PlaceSize(h.blocks, f, q - here, n);
    Edges(h, f, q, n);
  }

  lemma RoomFits(h: Heap, n: nat, align: nat, f: nat)
    requires align > 0 && f == FirstFit(h.blocks, h.base, n, align) < |h.blocks|
    ensures var here := h.base + Total(h.blocks[..f]);
            h.blocks[f].free && h.blocks[f].length >= n + Skip(here, align)
            && RoomAt(h, n, align, f, here + Skip(here, align))
  {
    hide Total, Skip;
    FirstFitFits(h.blocks, h.base, n, align);
    FitsIffPlacement(h.blocks[f], h.base + Total(h.blocks[..f]), n, align);
  }

  /** The least place of the lowest block with one is the least place. */
  lemma LowerBlockLower(h: Heap, n: nat, align: nat, f: nat, q: nat, k: nat, p: nat)
    requires RoomAt(h, n, align, f, q) && RoomAt(h, n, align, k, p) && f <= k && p <= q && n > 0
    requires q == h.base + Total(h.blocks[..f]) + Skip(h.base + Total(h.blocks[..f]), align)
    ensures p == q
  {
    hide Total, Skip;
    if f < k {
      BlocksInOrder(h.blocks, f, k);
    } else {
      FitsIffPlacement(h.blocks[f], h.base + Total(h.blocks[..f]), n, align);
    }
  }

  lemma PlaceSize(bs: seq<Block>, k: nat, gap: nat, n: nat)
    requires k < |bs| && gap + n <= bs[k].length
    ensures |Place(bs, k, gap, n)| ==
            |bs| + (if gap > 0 then 1 else 0) + (if bs[k].length > gap + n then 1 else 0)
  {
  }

  /** The byte before a stretch of a free block is open exactly when the stretch does not start the block. */
  lemma Edges(h: Heap, k: nat, p: int, n: nat)
    requires Inv(h) && k < |h.blocks| && h.blocks[k].free && n > 0
    requires var here := h.base + Total(h.blocks[..k]); here <= p && p + n <= here + h.blocks[k].length
    ensures var here := h.base + Total(h.blocks[..k]);
            && (Open(h, {}, p - 1, 1) <==> p > here)
            && (Open(h, {}, p + n, 1) <==> p + n < here + h.blocks[k].length)
  {
    hide Total, Inv, Live, Open;
    var here := h.base + Total(h.blocks[..k]);
    if p > here {
      BlockIsOpen(h, k, p - 1, 1);
    } else if Open(h, {}, p - 1, 1) {
      OneBlock(h, k, p - 1, p);
    }
    if p + n < here + h.blocks[k].length {
      BlockIsOpen(h, k, p + n, 1);
    } else if Open(h, {}, p + n, 1) {
      OneBlock(h, k, p + n, p);
    }
  }

  /** Two free blocks never touch, so next to block k nothing else is open. */
  lemma OneBlock(h: Heap, k: nat, a: int, p: int)
    requires Inv(h) && k < |h.blocks| && h.blocks[k].free && Open(h, {}, a, 1)
    requires var here := h.base + Total(h.blocks[..k]); here <= p < here + h.blocks[k].length
    requires var here := h.base + Total(h.blocks[..k]); here - 1 <= a <= here + h.blocks[k].length
    ensures var here := h.base + Total(h.blocks[..k]); here <= a < here + h.blocks[k].length
  {
    hide Total, Inv, Live, Open;
    var j := OpenInBlock(h, a, 1);
    if j < k {
      BlocksInOrder(h.blocks, j, k);
      After(h, j);
      if j + 1 < k {
        BlocksInOrder(h.blocks, j + 1, k);
      }
    } else if k < j {
      BlocksInOrder(h.blocks, k, j);
      After(h, k);
      if k + 1 < j {
        BlocksInOrder(h.blocks, k + 1, j);
      }
    }
  }

  lemma NoSite(h: Heap, n: nat, align: nat)
    requires Inv(h) && n > 0 && align > 0 && forall q: nat :: !Site(h, n, align, q)
    ensures AllocAt(h, n, align).Halted?
  {
    hide Inv, Total, FirstFit, Skip, Place, Live, Open;
    SearchIsComplete(h, n, align);
    if FirstFit(h.blocks, h.base, n, align) < |h.blocks| {
      var k := FirstFit(h.blocks, h.base, n, align);
      var p: nat :| RoomAt(h, n, align, k, p);
      RoomIsPlace(h, n, align, k, p);
    }
  }

  /** A plain request of `size` bytes goes to the lowest place for its padded length, on a multiple of 16. */
  lemma AllocAnswer(h: Heap, size: nat, n: nat)
    requires Inv(h) && 0 < size <= MAX_REQUEST && n == (size + 15) / 16 * 16 + 128
    ensures forall p: nat :: Lowest(h, n, 16, p) ==>
              && (Alloc(h, size).Done? <==> |h.blocks| + Extra(h, p, n) <= h.slots)
              && (Alloc(h, size).Done? ==> Alloc(h, size).value.addr == p + 64)
    ensures (forall p: nat :: !Site(h, n, 16, p)) ==> Alloc(h, size).Halted?
  {
    hide Inv, Site, Extra, AllocAt, Lowest, Padded;
    PaddedIs(size);
    forall p: nat | Lowest(h, n, 16, p)
      ensures Alloc(h, size).Done? <==> |h.blocks| + Extra(h, p, n) <= h.slots
      ensures Alloc(h, size).Done? ==> Alloc(h, size).value.addr == p + 64
    {
      LowestSite(h, n, 16, p);
    }
    if forall p: nat :: !Site(h, n, 16, p) {
      NoSite(h, n, 16);
    }
  }

  /** An aligned request likewise, on a multiple of its rounded alignment; without a place it goes past the end. */
  lemma AlignedAnswer(h: Heap, size: nat, align: nat, n: nat, a: nat)
    requires Inv(h) && 0 < size <= MAX_REQUEST && n == (size + 15) / 16 * 16 + 128
    requires 0 < align <= MAX_ALIGN && a == (align + 15) / 16 * 16
    ensures forall p: nat :: Lowest(h, n, a, p) ==>
              && (AllocAligned(h, size, align).Done? <==> |h.blocks| + Extra(h, p, n) <= h.slots)
              && (AllocAligned(h, size, align).Done? ==> AllocAligned(h, size, align).value.addr == p + 64)
    ensures (forall p: nat :: !Site(h, n, a, p)) ==>
              AllocAligned(h, size, align).Done? && AllocAligned(h, size, align).value.addr == h.base + |h.mem| + 64
  {
    hide Inv, Extra, AllocAt, Open, Padded, RoundedAlign, FirstFit, Total, SomeLongEnough;
    PaddedIs(size);
    RoundedAlignFits(align);
    AlignedRoutes(h, size, align, n, a);
    forall p: nat | Lowest(h, n, a, p)
      ensures AllocAligned(h, size, align).Done? <==> |h.blocks| + Extra(h, p, n) <= h.slots
      ensures AllocAligned(h, size, align).Done? ==> AllocAligned(h, size, align).value.addr == p + 64
    {
      LowestSite(h, n, a, p);
      var k := PlaceIsRoom(h, n, a, p);
    }
    if FirstFit(h.blocks, h.base, n, a) < |h.blocks| {
      RoomFits(h, n, a, FirstFit(h.blocks, h.base, n, a));
      var k := FirstFit(h.blocks, h.base, n, a);
      var p: nat :| RoomAt(h, n, a, k, p);
      RoomIsPlace(h, n, a, k, p);
    }
  }

  /** Which of the two ways an aligned request takes. */
  lemma AlignedRoutes(h: Heap, size: nat, align: nat, n: nat, a: nat)
    requires Inv(h) && n == Padded(size) && a == RoundedAlign(align) && a > 0
    ensures (exists k, p :: RoomAt(h, n, a, k, p)) ==> AllocAligned(h, size, align) == AllocAt(h, n, a)
    ensures FirstFit(h.blocks, h.base, n, a) == |h.blocks| ==>
              && AllocAligned(h, size, align).Done?
              && AllocAligned(h, size, align).value.addr == h.base + |h.mem| + 64
    ensures FirstFit(h.blocks, h.base, n, a) <= |h.blocks|
  {
    hide Padded, RoundedAlign, Guard, AllocAt;
    SearchIsComplete(h, n, a);
  }

  lemma PaddedIs(size: nat)
    requires size <= MAX_REQUEST
    ensures Padded(size) == (size + 15) / 16 * 16 + 128
  {
    PaddedCases(size);
  }

  // ---- reallocation ----

  /**
   `try_realloc` of a live pointer says yes exactly when the padded new length, from where the block starts, stays in
   the heap and meets no other allocation.
   */
  lemma GrantedInPlaceIff(h: Heap, p: nat, newsize: nat)
    requires Inv(h) && IsLive(h, p) && newsize <= MAX_REQUEST
    ensures var t := TryRealloc(h, p, newsize);
            t.Done? && (t.value.ok <==> Open(h, {Owned(h, p)}, Owned(h, p).start, Padded(newsize)))
  {
    hide Inv, IsLive, Padded, Total, Find, Fill, Live, Owned, Grown, Open, Guarded;
    var e, n, k := Owned(h, p), Padded(newsize), Find(h.blocks, h.base, p - REDZONE);
    OwnedBlock(h, p);
    OwnedRange(h, p);
    PaddedIsEnough(newsize);
    if n <= e.length {
      ShorterIsOpen(h, e, n);
    } else if CanGrow(h.blocks, k, n) {
      GrownKeeps(h, k, n);
      LongerIsOpen(h, e, n);
    } else if Open(h, {e}, e.start, n) {
      BlockedGrowth(h, k, e, n);
    }
  }

  lemma ShorterIsOpen(h: Heap, e: Extent, n: nat)
    requires n <= e.length && h.base <= e.start && e.start + e.length <= h.base + |h.mem|
    requires forall f :: f in h.Allocs() && f != e ==> Apart(e, f)
    ensures Open(h, {e}, e.start, n)
  {
  }

  lemma LongerIsOpen(h: Heap, e: Extent, n: nat)
    requires h.base <= e.start && e.start + n <= h.base + |h.mem|
    requires forall f :: f in h.Allocs() && f != e ==> Apart(Extent(e.start, n), f)
    ensures Open(h, {e}, e.start, n)
  {
  }

  /** If there is room behind a block, it is the free block after it. */
  lemma BlockedGrowth(h: Heap, k: nat, e: Extent, n: nat)
    requires Inv(h) && k < |h.blocks| && !h.blocks[k].free && n > h.blocks[k].length
    requires e == Extent(h.base + Total(h.blocks[..k]), h.blocks[k].length) && Open(h, {e}, e.start, n)
    ensures CanGrow(h.blocks, k, n)
  {
    hide Inv, Total, Live;
    var end := e.start + e.length;
    After(h, k);
    BehindIsOpen(h, e, n);
    var j := OpenInBlock(h, end, n - e.length);
    if j < k {
      BlocksInOrder(h.blocks, j, k);
    } else if j > k + 1 {
      UsedLength(h, k + 1);
      BlocksInOrder(h.blocks, k + 1, j);
    }
  }

  lemma BehindIsOpen(h: Heap, e: Extent, n: nat)
    requires n > e.length && Open(h, {e}, e.start, n)
    ensures Open(h, {}, e.start + e.length, n - e.length)
  {
  }

  /** The whole call: the same pointer exactly when there is room in place, else what `alloc` answers. */
  lemma ReallocAnswer(h: Heap, p: nat, newsize: nat)
    requires Inv(h) && IsLive(h, p) && newsize <= MAX_REQUEST
    ensures var r := Realloc(h, p, newsize);
            if Open(h, {Owned(h, p)}, Owned(h, p).start, Padded(newsize)) then r.Done? && r.value.addr == p
            else
              var a := Alloc(h, newsize);
              (r.Done? <==> a.Done?) && (r.Done? ==> r.value.addr == a.value.addr != p)
  {
    hide Inv, IsLive, Padded, Total, Find, Fill, Live, Owned, Grown, Open, Alloc, Move, CanGrow, Guarded;
    GrantedInPlaceIff(h, p, newsize);
    OwnedBlock(h, p);
    OwnedRange(h, p);
    if !TryRealloc(h, p, newsize).value.ok {
      ShortFails(h, p, newsize);
      if Alloc(h, newsize).Done? {
        MoveGoesThrough(h, p, newsize);
      } else {
        MoveStops(h, p, newsize);
      }
    }
  }

  lemma ShortFails(h: Heap, p: nat, newsize: nat)
    requires Inv(h) && IsLive(h, p) && TryRealloc(h, p, newsize).Done? && !TryRealloc(h, p, newsize).value.ok
    ensures TryRealloc(h, p, newsize).value.heap == h && Padded(newsize) > Owned(h, p).length
  {
    hide Inv, IsLive, Padded, Total, Find, Fill, Live, Owned, Grown, CanGrow, Guarded;
    OwnedBlock(h, p);
    OwnedRange(h, p);
  }

  lemma MoveStops(h: Heap, p: nat, newsize: nat)
    requires Alloc(h, newsize).Halted?
    ensures Move(h, p, newsize).Halted?
  {
    hide Alloc;
  }

  lemma MoveGoesThrough(h: Heap, p: nat, newsize: nat)
    requires Inv(h) && IsLive(h, p) && newsize <= MAX_REQUEST && Padded(newsize) > Owned(h, p).length
    requires Alloc(h, newsize).Done?
    ensures Move(h, p, newsize).Done? && Move(h, p, newsize).value.addr == Alloc(h, newsize).value.addr != p
  {
    hide Inv, Live, AllocAt, Padded, Guarded, Owned, IsLive, Move, FreePtr, Contents, CopyUp, Apart, OnlyWithin;
    var e := Owned(h, p);
    OwnedRange(h, p);
    PaddedIsEnough(newsize);
    AllocAtKeeps(h, Padded(newsize), MIN_ALLOC);
    var r := Alloc(h, newsize).value;
    MoveSteps(h, p, newsize, r, e, Extent(r.addr - REDZONE, Padded(newsize)));
    FreshAddress(h, r, e, Padded(newsize));
  }

  lemma FreshAddress(h: Heap, r: Reply, e: Extent, n: nat)
    requires e.length > 0 && n > 0 && Apart(Extent(r.addr - REDZONE, n), e)
    ensures r.addr != e.start + REDZONE
  {
  }

  // ---- the check ----

  /** Everything but the redzones is right. */
  ghost predicate Structured(h: Heap) {
    0 < h.base && Canonical(h.blocks) && Total(h.blocks) == |h.mem|
  }

  /** Every byte of both redzones of e is as it was painted. */
  ghost predicate Intact(h: Heap, e: Extent) {
    forall a :: 0 <= a < |h.mem| && Painted(e, h.base + a) ==> h.mem[a] == 0xbc
  }

  /** a is one of the 64 bytes before or behind the usable ones. */
  predicate Painted(e: Extent, a: int) {
    e.start <= a < e.start + 64 || e.start + e.length - 64 <= a < e.start + e.length
  }

  lemma GuardedIffIntact(h: Heap, e: Extent)
    requires h.base <= e.start && e.start + e.length <= h.base + |h.mem| && e.length >= 128
    ensures Guarded(h.mem, e.start - h.base, e.length) <==> Intact(h, e)
  {
    if Intact(h, e) {
      forall i | e.start - h.base <= i < e.start - h.base + REDZONE ensures h.mem[i] == MAGIC {
        assert Painted(e, h.base + i);
      }
      var last := e.start - h.base + e.length - REDZONE;
      forall i | last <= i < last + REDZONE ensures h.mem[i] == MAGIC {
        assert Painted(e, h.base + i);
      }
    }
  }

  /**
   Whatever has been written over memory, `check` accepts a pointer exactly when it is live and no byte of its redzones
   has been overwritten.
   */
  lemma CheckDetects(h: Heap, p: nat)
    requires Structured(h)
    ensures CheckOk(h, p) <==> exists e :: e in h.Allocs() && e.start + REDZONE == p && Intact(h, e)
  {
    hide Total, Live, Find, Guarded, Intact, Coalesced;
    var k := Find(h.blocks, h.base, p - REDZONE);
    FindAt(h.blocks, h.base, p - REDZONE);
    if k < |h.blocks| {
      LiveAt(h.blocks, h.base, k);
      BlockInside(h.blocks, k);
      var b := Extent(p - REDZONE, h.blocks[k].length);
      if !h.blocks[k].free {
        assert BlockOk(h.blocks[k]);
        GuardedIffIntact(h, b);
      }
    }
    forall e | e in h.Allocs() && e.start + REDZONE == p ensures k < |h.blocks| {
      var i := LiveIndex(h.blocks, h.base, e);
    }
  }

  /** `free` goes through exactly for a null pointer and for those. */
  lemma FreeDetects(h: Heap, p: nat)
    requires Structured(h)
    ensures FreePtr(h, p).Done? <==> p == 0 || exists e :: e in h.Allocs() && e.start + REDZONE == p && Intact(h, e)
  {
    hide CheckOk, Live, Intact, Release, Find, Structured;
    CheckDetects(h, p);
  }

  /** And `check_all` finds nothing exactly when every redzone of every allocation is whole. */
  lemma CheckAllDetects(h: Heap)
    requires Structured(h)
    ensures AllChecked(h) <==> forall e :: e in h.Allocs() ==> Intact(h, e)
  {
    hide CheckOk, Live, Intact, Total, Coalesced, Shape;
    if AllChecked(h) {
      forall e | e in h.Allocs() ensures Intact(h, e) {
        var i := LiveIndex(h.blocks, h.base, e);
        assert Checked(h, i);
        LiveFrom(h, e);
        CheckDetects(h, e.start + REDZONE);
        SameStart(h, e, e.start + REDZONE);
      }
    }
    if forall e :: e in h.Allocs() ==> Intact(h, e) {
      forall k | 0 <= k < |h.blocks| ensures Checked(h, k) {
        if !h.blocks[k].free {
          LiveAt(h.blocks, h.base, k);
          var e := Extent(h.base + Total(h.blocks[..k]), h.blocks[k].length);
          assert e in h.Allocs();
          CheckDetects(h, e.start + REDZONE);
        }
      }
    }
  }

  lemma LiveFrom(h: Heap, e: Extent)
    requires Structured(h) && e in h.Allocs()
    ensures e.start >= h.base
  {
    LiveBounds(h.blocks, h.base, e);
  }

  /** Two allocations at the same address are one. */
  lemma SameStart(h: Heap, e: Extent, p: int)
    requires Structured(h) && e in h.Allocs() && e.start + REDZONE == p
    ensures forall f :: f in h.Allocs() && f.start + REDZONE == p ==> f == e
  {
    forall f | f in h.Allocs() && f.start + REDZONE == p ensures f == e {
      if f != e {
        LiveDisjoint(h.blocks, h.base, e, f);
        LiveBounds(h.blocks, h.base, e);
        LiveBounds(h.blocks, h.base, f);
      }
    }
  }
}
