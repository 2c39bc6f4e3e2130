/** What the allocator's operations do to the block list, and what that does to the live set. */
module HeapOps {
  import opened Machine
  import opened HeapBlocks

  // ---- choosing a block ----

  /** Bytes to skip so that the address after the leading redzone is a multiple of `align`. */
  function Skip(addr: nat, align: nat): nat
    requires align > 0
  {
    AlignUpIsLeast(addr + REDZONE, align);
    AlignUp(addr + REDZONE, align) - (addr + REDZONE)
  }

  predicate Fits(b: Block, addr: nat, size: nat, align: nat)
    requires align > 0
  {
    b.free && b.length >= size + Skip(addr, align)
  }

  /** The first block, walking up from `addr`, that can take the request; |bs| when there is none. */
  function FirstFit(bs: seq<Block>, addr: nat, size: nat, align: nat): (k: nat)
    requires align > 0
    ensures k <= |bs|
  {
    if bs == [] || Fits(bs[0], addr, size, align) then 0
    else 1 + FirstFit(bs[1..], addr + bs[0].length, size, align)
  }

  /** p is a place inside the block at addr where `size` bytes can go, suitably aligned. */
  predicate Placement(b: Block, addr: nat, size: nat, align: nat, p: nat)
    requires align > 0
  {
    b.free && addr <= p && p + size <= addr + b.length && (p + REDZONE) % align == 0
  }

  /** The alignment skip is the least one: a block fits exactly when it has any suitable place at all. */
  lemma FitsIffPlacement(b: Block, addr: nat, size: nat, align: nat)
    requires align > 0
    ensures Fits(b, addr, size, align) <==> exists p :: Placement(b, addr, size, align, p)
    ensures Fits(b, addr, size, align) ==> Placement(b, addr, size, align, addr + Skip(addr, align))
    ensures forall p :: Placement(b, addr, size, align, p) ==> addr + Skip(addr, align) <= p
  {
    AlignUpIsLeast(addr + REDZONE, align);
    forall p: nat | Placement(b, addr, size, align, p) ensures addr + Skip(addr, align) <= p {
      MultiplesApart(p + REDZONE, AlignUp(addr + REDZONE, align), align);
    }
    if Fits(b, addr, size, align) {
      assert Placement(b, addr, size, align, addr + Skip(addr, align));
    }
  }

  lemma MultiplesApart(x: nat, y: nat, a: nat)
    requires a > 0 && x % a == 0 && y % a == 0 && x > y - a
    ensures x >= y
  {
    var i, j := x / a, y / a;
    assert x == i * a && y == j * a;
    assert i <= j - 1 ==> i * a <= (j - 1) * a;
  }

  /** First fit is lowest-address fit. */
  lemma PrefixTotal(bs: seq<Block>, i: nat)
    requires 0 < i <= |bs|
    ensures Total(bs[..i]) == bs[0].length + Total(bs[1..][..i - 1])
  {
    assert bs[..i][1..] == bs[1..][..i - 1];
  }

  lemma {:induction false} FirstFitIsLowest(bs: seq<Block>, addr: nat, size: nat, align: nat)
    requires align > 0
    ensures var k := FirstFit(bs, addr, size, align);
            && (k < |bs| ==> Fits(bs[k], addr + Total(bs[..k]), size, align))
            && forall i :: 0 <= i < k ==> !Fits(bs[i], addr + Total(bs[..i]), size, align)
  {
    hide Total, Fits;
    var k := FirstFit(bs, addr, size, align);
    NoTotal(bs);
    if bs != [] && k > 0 {
      var next := addr + bs[0].length;
      FirstFitIsLowest(bs[1..], next, size, align);
      PrefixTotal(bs, k);
      forall i | 0 <= i < k ensures !Fits(bs[i], addr + Total(bs[..i]), size, align) {
        if i > 0 {
          PrefixTotal(bs, i);
          assert bs[i] == bs[1..][i - 1];
        }
      }
    }
  }

  lemma NoTotal(bs: seq<Block>)
    ensures Total(bs[..0]) == 0
  {
  }

  lemma FirstFitFits(bs: seq<Block>, addr: nat, size: nat, align: nat)
    requires align > 0 && FirstFit(bs, addr, size, align) < |bs|
    ensures var k := FirstFit(bs, addr, size, align);
            bs[k].free && bs[k].length >= size + Skip(addr + Total(bs[..k]), align)
  {
    FirstFitIsLowest(bs, addr, size, align);
  }

  /** A plain request is an aligned request for 16: no skip is ever needed. */
  lemma NoSkip(addr: nat)
    requires addr % MIN_ALLOC == 0
    ensures Skip(addr, MIN_ALLOC) == 0
  {
  }

  lemma SkipAligned(addr: nat, align: nat)
    requires addr % MIN_ALLOC == 0 && align > 0 && align % MIN_ALLOC == 0
    ensures Skip(addr, align) % MIN_ALLOC == 0
  {
    hide AlignUp;
    AlignUpIsLeast(addr + REDZONE, align);
    MultipleOfMultiple(AlignUp(addr + REDZONE, align), align);
    GapAligned(addr, AlignUp(addr + REDZONE, align));
  }

  lemma GapAligned(addr: nat, up: nat)
    requires addr % MIN_ALLOC == 0 && up % MIN_ALLOC == 0
    ensures (up - (addr + REDZONE)) % MIN_ALLOC == 0
  {
  }

  lemma MultipleOfMultiple(x: nat, a: nat)
    requires a > 0 && x % a == 0 && a % MIN_ALLOC == 0
    ensures x % MIN_ALLOC == 0
  {
    var q, b := x / a, a / MIN_ALLOC;
    assert x == q * (b * MIN_ALLOC) == q * b * MIN_ALLOC;
    MulMod(q * b, MIN_ALLOC);
  }

  lemma SkipLands(addr: nat, align: nat)
    requires align > 0
    ensures (addr + Skip(addr, align) + REDZONE) % align == 0
  {
    AlignUpIsLeast(addr + REDZONE, align);
  }

  // ---- list surgery ----

  function FreeBlock(length: nat): seq<Block> {
    if length == 0 then [] else [Block(length, true)]
  }

  /** Block k becomes [gap, used block of `size`, rest]. */
  function Place(bs: seq<Block>, k: nat, gap: nat, size: nat): seq<Block>
    requires k < |bs| && gap + size <= bs[k].length
  {
    bs[..k] + (FreeBlock(gap) + [Block(size, false)] + FreeBlock(bs[k].length - gap - size)) + bs[k + 1..]
  }

  function LeftFree(bs: seq<Block>, k: nat): nat
    requires k < |bs|
  {
    if k > 0 && bs[k - 1].free then 1 else 0
  }

  function RightFree(bs: seq<Block>, k: nat): nat
    requires k < |bs|
  {
    if k + 1 < |bs| && bs[k + 1].free then 1 else 0
  }

  /** Block k is given back and coalesced with its free neighbours. */
  function Release(bs: seq<Block>, k: nat): seq<Block>
    requires k < |bs|
  {
    var lo, hi := k - LeftFree(bs, k), k + 1 + RightFree(bs, k);
    bs[..lo] + [Block(Total(bs[lo..hi]), true)] + bs[hi..]
  }

  predicate CanGrow(bs: seq<Block>, k: nat, length: nat)
    requires k < |bs|
  {
    k + 1 < |bs| && bs[k + 1].free && bs[k].length < length <= bs[k].length + bs[k + 1].length
  }

  /** Block k grows to `length` at the expense of the free block after it. */
  function Grow(bs: seq<Block>, k: nat, length: nat): seq<Block>
    requires k < |bs| && CanGrow(bs, k, length)
  {
    bs[..k] + ([Block(length, false)] + FreeBlock(bs[k].length + bs[k + 1].length - length)) + bs[k + 2..]
  }

  lemma ThreeParts(a: seq<Block>, b: seq<Block>, c: seq<Block>)
    ensures Total(a + b + c) == Total(a) + Total(b) + Total(c)
    ensures Used(a + b + c) == Used(a) + Used(b) + Used(c)
  {
    Concat(a + b, c, 0);
    Concat(a, b, 0);
  }

  lemma ThreePartsLive(a: seq<Block>, b: seq<Block>, c: seq<Block>, off: int)
    ensures Live(a + b + c, off) == Live(a, off) + Live(b, off + Total(a)) + Live(c, off + Total(a) + Total(b))
  {
    hide Live, Total;
    Concat(a + b, c, off);
    Concat(a, b, off);
  }

  lemma {:induction false} NothingLive(bs: seq<Block>, off: int)
    requires forall i :: 0 <= i < |bs| ==> bs[i].free
    ensures Live(bs, off) == {} && Used(bs) == 0
  {
    if bs != [] {
      NothingLive(bs[1..], off + bs[0].length);
    }
  }

  lemma SingleLive(gap: nat, size: nat, rest: nat, off: int)
    ensures var mid := FreeBlock(gap) + [Block(size, false)] + FreeBlock(rest);
            Total(mid) == gap + size + rest && Used(mid) == size && Live(mid, off) == {Extent(off + gap, size)}
  {
    ThreeParts(FreeBlock(gap), [Block(size, false)], FreeBlock(rest));
    ThreePartsLive(FreeBlock(gap), [Block(size, false)], FreeBlock(rest), off);
    NothingLive(FreeBlock(gap), off);
    NothingLive(FreeBlock(rest), off + gap + size);
  }

  // ---- what each operation does to the abstract heap ----

  /** A canonical list cut off at either end is canonical. */
  lemma CutCanonical(bs: seq<Block>, lo: nat, hi: nat)
    requires Canonical(bs) && lo <= |bs| && hi <= |bs|
    ensures Canonical(bs[..lo]) && Canonical(bs[hi..])
  {
  }

  /** Two canonical lists joined at a used block are canonical. */
  lemma JoinCanonical(a: seq<Block>, b: seq<Block>)
    requires Canonical(a) && Canonical(b)
    requires a == [] || b == [] || !a[|a| - 1].free || !b[0].free
    ensures Canonical(a + b)
  {
  }

  lemma OneBlock(b: Block)
    ensures Total([b]) == b.length
  {
  }

  lemma PlaceTotal(bs: seq<Block>, k: nat, gap: nat, size: nat)
    requires k < |bs| && gap + size <= bs[k].length
    ensures Total(Place(bs, k, gap, size)) == Total(bs)
  {
    hide Total, Used, Live, FreeBlock;
    OneBlock(bs[k]);
    SingleLive(gap, size, bs[k].length - gap - size, 0);
    ThreeParts(bs[..k], FreeBlock(gap) + [Block(size, false)] + FreeBlock(bs[k].length - gap - size), bs[k + 1..]);
    assert bs == bs[..k] + [bs[k]] + bs[k + 1..];
    ThreeParts(bs[..k], [bs[k]], bs[k + 1..]);
  }

  lemma PlaceCanonical(bs: seq<Block>, k: nat, gap: nat, size: nat)
    requires Canonical(bs) && k < |bs| && bs[k].free && gap + size <= bs[k].length
    requires gap % MIN_ALLOC == 0 && size % MIN_ALLOC == 0 && size >= MIN_USED
    ensures Canonical(Place(bs, k, gap, size))
  {
    hide Canonical, FreeBlock;
    FreeNeighbours(bs, k);
    var rest := bs[k].length - gap - size;
    PlacedCanonical(gap, size, rest);
    CutCanonical(bs, k, k + 1);
    var mid := FreeBlock(gap) + [Block(size, false)] + FreeBlock(rest);
    JoinCanonical(bs[..k], mid);
    JoinCanonical(bs[..k] + mid, bs[k + 1..]);
  }

  /** Around a free block the list is used. */
  lemma FreeNeighbours(bs: seq<Block>, k: nat)
    requires Canonical(bs) && k < |bs| && bs[k].free
    ensures BlockOk(bs[k]) && (k > 0 ==> !bs[k - 1].free) && (k + 1 < |bs| ==> !bs[k + 1].free)
  {
  }

  lemma PlacedCanonical(gap: nat, size: nat, rest: nat)
    requires gap % MIN_ALLOC == 0 && size % MIN_ALLOC == 0 && size >= MIN_USED && rest % MIN_ALLOC == 0
    ensures Canonical(FreeBlock(gap) + [Block(size, false)] + FreeBlock(rest))
  {
  }

  lemma PlaceEffect(bs: seq<Block>, k: nat, gap: nat, size: nat, off: int)
    requires Canonical(bs) && k < |bs| && bs[k].free && gap + size <= bs[k].length
    requires gap % MIN_ALLOC == 0 && size % MIN_ALLOC == 0 && size >= MIN_USED
    ensures var cs := Place(bs, k, gap, size);
            var e := Extent(off + Total(bs[..k]) + gap, size);
            && Canonical(cs) && Total(cs) == Total(bs) && Used(cs) == Used(bs) + size
            && e !in Live(bs, off) && Live(cs, off) == Live(bs, off) + {e}
            && forall f :: f in Live(bs, off) ==> Apart(e, f)
  {
    PlaceCanonical(bs, k, gap, size);
    assert bs == bs[..k] + [bs[k]] + bs[k + 1..];
    var here := off + Total(bs[..k]);
    var rest := bs[k].length - gap - size;
    SingleLive(gap, size, rest, here);
    NothingLive([bs[k]], here);
    var mid := FreeBlock(gap) + [Block(size, false)] + FreeBlock(rest);
    PlacePart(bs[..k], [bs[k]], bs[k + 1..], mid, off, Extent(here + gap, size));
  }

  lemma PlaceSome(bs: seq<Block>, k: nat, gap: nat, size: nat)
    requires k < |bs| && gap + size <= bs[k].length
    ensures Place(bs, k, gap, size) != []
  {
  }

  lemma PlacePart(pre: seq<Block>, old_: seq<Block>, post: seq<Block>, mid: seq<Block>, off: int, e: Extent)
    requires Shape(pre) && Shape(post) && Total(mid) == Total(old_)
    requires Live(old_, off + Total(pre)) == {} && Used(old_) == 0
    requires Live(mid, off + Total(pre)) == {e} && Used(mid) == e.length > 0
    requires off + Total(pre) <= e.start && e.start + e.length <= off + Total(pre) + Total(old_)
    ensures var bs, cs := pre + old_ + post, pre + mid + post;
            && Total(cs) == Total(bs) && Used(cs) == Used(bs) + e.length
            && e !in Live(bs, off) && Live(cs, off) == Live(bs, off) + {e}
            && forall f :: f in Live(bs, off) ==> Apart(e, f)
  {
    hide Total, Used, Live, Shape;
    var here := off + Total(pre);
    Replace(pre, old_, post, mid, off);
    Outside(pre, old_, post, off);
    InsideApart(Live(pre, off) + Live(post, here + Total(old_)), Extent(here, Total(old_)), e);
  }

  /** What lies apart from a stretch lies apart from everything inside it. */
  lemma InsideApart(live: set<Extent>, stretch: Extent, e: Extent)
    requires forall f :: f in live ==> Apart(stretch, f) && f.length > 0
    requires stretch.start <= e.start && e.start + e.length <= stretch.start + stretch.length && e.length > 0
    ensures e !in live && forall f :: f in live ==> Apart(e, f)
  {
  }

  lemma PartsShape(bs: seq<Block>, lo: nat, hi: nat)
    requires Shape(bs) && lo <= hi <= |bs|
    ensures Shape(bs[..lo]) && Shape(bs[lo..hi]) && Shape(bs[hi..])
  {
  }

  /** Replacing a stretch by another of the same total length moves nothing else. */
  lemma Replace(pre: seq<Block>, old_: seq<Block>, post: seq<Block>, mid: seq<Block>, off: int)
    requires Total(mid) == Total(old_)
    ensures Total(pre + mid + post) == Total(pre + old_ + post)
    ensures Used(pre + mid + post) == Used(pre + old_ + post) - Used(old_) + Used(mid)
    ensures var here := off + Total(pre);
            var rest := Live(pre, off) + Live(post, here + Total(old_));
            && Live(pre + mid + post, off) == rest + Live(mid, here)
            && Live(pre + old_ + post, off) == rest + Live(old_, here)
  {
    hide Total, Used, Live;
    ThreeParts(pre, old_, post);
    ThreeParts(pre, mid, post);
    ThreePartsLive(pre, old_, post, off);
    ThreePartsLive(pre, mid, post, off);
  }

  /** What is live before and after a stretch lies outside that stretch. */
  lemma Outside(pre: seq<Block>, old_: seq<Block>, post: seq<Block>, off: int)
    requires Shape(pre) && Shape(post)
    ensures var here := off + Total(pre);
            forall f :: f in Live(pre, off) + Live(post, here + Total(old_)) ==>
              Apart(Extent(here, Total(old_)), f) && f.length > 0
  {
    var here := off + Total(pre);
    forall f | f in Live(pre, off) + Live(post, here + Total(old_))
      ensures Apart(Extent(here, Total(old_)), f) && f.length > 0
    {
      if f in Live(pre, off) {
        LiveBounds(pre, off, f);
      } else {
        LiveBounds(post, here + Total(old_), f);
      }
    }
  }

  /** Around a used block with free neighbours only that block is live. */
  lemma Neighbourhood(bs: seq<Block>, k: nat, lo: nat, hi: nat, off: int)
    requires lo <= k < hi <= |bs| && !bs[k].free
    requires forall i :: lo <= i < hi && i != k ==> bs[i].free
    ensures Used(bs[lo..hi]) == bs[k].length
    ensures Live(bs[lo..hi], off) == {Extent(off + Total(bs[lo..k]), bs[k].length)}
  {
    var left, right := bs[lo..k], bs[k + 1..hi];
    assert bs[lo..hi] == left + [bs[k]] + right;
    ThreeParts(left, [bs[k]], right);
    ThreePartsLive(left, [bs[k]], right, off);
    NothingLive(left, off);
    NothingLive(right, off + Total(left) + bs[k].length);
  }

  /** Replacing the stretch around a used block takes that block, and only it, out of the live set. */
  lemma ReplaceUsed(bs: seq<Block>, k: nat, lo: nat, hi: nat, mid: seq<Block>, off: int)
    requires Shape(bs) && lo <= k < hi <= |bs| && !bs[k].free
    requires forall i :: lo <= i < hi && i != k ==> bs[i].free
    requires Total(mid) == Total(bs[lo..hi])
    ensures var cs := bs[..lo] + mid + bs[hi..];
            var e := Extent(off + Total(bs[..k]), bs[k].length);
            var here := off + Total(bs[..lo]);
            && Total(cs) == Total(bs) && Used(cs) == Used(bs) - bs[k].length + Used(mid)
            && e in Live(bs, off) && Live(cs, off) == Live(bs, off) - {e} + Live(mid, here)
            && forall f :: f in Live(bs, off) && f != e ==> Apart(Extent(here, Total(mid)), f)
  {
    hide Total, Used, Live;
    assert bs == bs[..lo] + bs[lo..hi] + bs[hi..];
    assert bs[..k] == bs[..lo] + bs[lo..k];
    Concat(bs[..lo], bs[lo..k], off);
    PartsShape(bs, lo, hi);
    Neighbourhood(bs, k, lo, hi, off + Total(bs[..lo]));
    ReplaceUsedPart(bs[..lo], bs[lo..hi], bs[hi..], mid, off, Extent(off + Total(bs[..k]), bs[k].length));
  }

  lemma ReplaceUsedPart(pre: seq<Block>, old_: seq<Block>, post: seq<Block>, mid: seq<Block>, off: int, e: Extent)
    requires Shape(pre) && Shape(old_) && Shape(post) && Total(mid) == Total(old_)
    requires Live(old_, off + Total(pre)) == {e} && Used(old_) == e.length
    ensures var bs, cs := pre + old_ + post, pre + mid + post;
            var here := off + Total(pre);
            && Total(cs) == Total(bs) && Used(cs) == Used(bs) - e.length + Used(mid)
            && e in Live(bs, off) && Live(cs, off) == Live(bs, off) - {e} + Live(mid, here)
            && forall f :: f in Live(bs, off) && f != e ==> Apart(Extent(here, Total(mid)), f)
  {
    hide Total, Used, Live, Shape;
    var here := off + Total(pre);
    Replace(pre, old_, post, mid, off);
    LiveBounds(old_, here, e);
    Outside(pre, old_, post, off);
    Swap(Live(pre + old_ + post, off), Live(pre + mid + post, off), Live(pre, off) + Live(post, here + Total(old_)),
         e, Live(mid, here), Extent(here, Total(mid)));
  }

  lemma Swap(before: set<Extent>, after: set<Extent>, rest: set<Extent>, e: Extent, m: set<Extent>, stretch: Extent)
    requires before == rest + {e} && after == rest + m
    requires stretch.start <= e.start && e.start + e.length <= stretch.start + stretch.length && e.length > 0
    requires forall f :: f in rest ==> Apart(stretch, f)
    ensures e in before && after == before - {e} + m
    ensures forall f :: f in before && f != e ==> Apart(stretch, f)
  {
    assert e !in rest;
  }

  lemma ReleaseCanonical(bs: seq<Block>, k: nat)
    requires Canonical(bs) && k < |bs| && !bs[k].free
    ensures Canonical(Release(bs, k))
  {
    hide Total, Canonical, Shape, Coalesced;
    var lo, hi := k - LeftFree(bs, k), k + 1 + RightFree(bs, k);
    StretchOk(bs, lo, hi);
    UsedAround(bs, k);
    CutCanonical(bs, lo, hi);
    var mid := [Block(Total(bs[lo..hi]), true)];
    OneCanonical(mid[0]);
    JoinCanonical(bs[..lo], mid);
    JoinCanonical(bs[..lo] + mid, bs[hi..]);
  }

  lemma StretchOk(bs: seq<Block>, lo: nat, hi: nat)
    requires Canonical(bs) && lo < hi <= |bs|
    ensures BlockOk(Block(Total(bs[lo..hi]), true))
  {
    TotalAligned(bs[lo..hi]);
  }

  lemma OneCanonical(b: Block)
    requires BlockOk(b)
    ensures Canonical([b])
  {
  }

  /** Beyond the free neighbours of a used block the list is used again. */
  lemma UsedAround(bs: seq<Block>, k: nat)
    requires Canonical(bs) && k < |bs| && !bs[k].free
    ensures var lo, hi := k - LeftFree(bs, k), k + 1 + RightFree(bs, k);
            && 0 <= lo <= k < hi <= |bs|
            && (lo > 0 ==> !bs[lo - 1].free) && (hi < |bs| ==> !bs[hi].free)
  {
  }

  lemma ReleaseEffect(bs: seq<Block>, k: nat, off: int)
    requires Canonical(bs) && k < |bs| && !bs[k].free
    ensures var cs := Release(bs, k);
            var e := Extent(off + Total(bs[..k]), bs[k].length);
            && Canonical(cs) && Total(cs) == Total(bs) && Used(cs) == Used(bs) - bs[k].length
            && e in Live(bs, off) && Live(cs, off) == Live(bs, off) - {e}
  {
    var lo, hi := k - LeftFree(bs, k), k + 1 + RightFree(bs, k);
    var mid := [Block(Total(bs[lo..hi]), true)];
    ReleaseCanonical(bs, k);
    NothingLive(mid, off + Total(bs[..lo]));
    ReplaceUsed(bs, k, lo, hi, mid, off);
  }

  lemma GrowCanonical(bs: seq<Block>, k: nat, length: nat)
    requires Canonical(bs) && k < |bs| && !bs[k].free && CanGrow(bs, k, length) && length % MIN_ALLOC == 0
    ensures Canonical(Grow(bs, k, length))
  {
    assert BlockOk(bs[k]) && BlockOk(bs[k + 1]);
    assert k + 2 < |bs| ==> !bs[k + 2].free;
    hide Canonical;
    var rest := bs[k].length + bs[k + 1].length - length;
    PlacedCanonical(0, length, rest);
    CutCanonical(bs, k, k + 2);
    var mid := [Block(length, false)] + FreeBlock(rest);
    assert mid == FreeBlock(0) + [Block(length, false)] + FreeBlock(rest);
    JoinCanonical(bs[..k], mid);
    JoinCanonical(bs[..k] + mid, bs[k + 2..]);
  }

  lemma GrowEffect(bs: seq<Block>, k: nat, length: nat, off: int)
    requires Canonical(bs) && k < |bs| && !bs[k].free && CanGrow(bs, k, length) && length % MIN_ALLOC == 0
    ensures var cs := Grow(bs, k, length);
            var here := off + Total(bs[..k]);
            && Canonical(cs) && Total(cs) == Total(bs) && Used(cs) == Used(bs) + length - bs[k].length
            && Extent(here, bs[k].length) in Live(bs, off)
            && Live(cs, off) == Live(bs, off) - {Extent(here, bs[k].length)} + {Extent(here, length)}
            && forall f :: f in Live(bs, off) && f != Extent(here, bs[k].length) ==> Apart(Extent(here, length), f)
  {
    hide Total, Used, Live;
    var here := off + Total(bs[..k]);
    var rest := bs[k].length + bs[k + 1].length - length;
    var mid := [Block(length, false)] + FreeBlock(rest);
    GrowCanonical(bs, k, length);
    assert mid == FreeBlock(0) + [Block(length, false)] + FreeBlock(rest);
    SingleLive(0, length, rest, here);
    PairTotal(bs, k);
    ReplaceUsed(bs, k, k, k + 2, mid, off);
  }

  lemma PairTotal(bs: seq<Block>, k: nat)
    requires k + 1 < |bs|
    ensures Total(bs[k..k + 2]) == bs[k].length + bs[k + 1].length
    ensures Total(bs[k..k]) == 0
  {
    assert bs[k..k + 2] == [bs[k]] + [bs[k + 1]];
    Concat([bs[k]], [bs[k + 1]], 0);
  }

  // ---- history independence ----

  /** Giving back what was just placed restores the list exactly, descriptor count included. */
  lemma PlaceThenRelease(bs: seq<Block>, k: nat, gap: nat, size: nat, j: nat)
    requires Canonical(bs) && k < |bs| && bs[k].free && gap + size <= bs[k].length
    requires gap % MIN_ALLOC == 0 && size % MIN_ALLOC == 0 && size >= MIN_USED
    requires j < |Place(bs, k, gap, size)| && Total(Place(bs, k, gap, size)[..j]) == Total(bs[..k]) + gap
    ensures Release(Place(bs, k, gap, size), j) == bs
  {
    var cs := Place(bs, k, gap, size);
    var e := Extent(Total(bs[..k]) + gap, size);
    PlaceEffect(bs, k, gap, size, 0);
    LiveAt(cs, 0, j);
    assert e in Live(cs, 0);
    ReleaseEffect(cs, j, 0);
    CanonicalForm(Release(cs, j), bs, 0);
  }

  // ---- finding a block by address ----

  /** The block whose address is p, walking up from addr; |bs| when there is none. */
  function Find(bs: seq<Block>, addr: int, p: int): (k: nat)
    ensures k <= |bs|
  {
    if bs == [] || addr == p then 0 else 1 + Find(bs[1..], addr + bs[0].length, p)
  }

  lemma {:induction false} FindAt(bs: seq<Block>, addr: int, p: int)
    requires Shape(bs)
    ensures var k := Find(bs, addr, p);
            && (k < |bs| ==> addr + Total(bs[..k]) == p)
            && forall i :: 0 <= i < |bs| && addr + Total(bs[..i]) == p ==> i == k
  {
    if bs != [] {
      assert bs[..0] == [];
      FindAt(bs[1..], addr + bs[0].length, p);
      forall i | 0 < i <= |bs| ensures Total(bs[..i]) == bs[0].length + Total(bs[1..][..i - 1]) > 0 {
        assert bs[..i] == [bs[0]] + bs[1..][..i - 1];
      }
    }
  }

  /** An address is that of a live allocation exactly when the walk stops at a used block. */
  lemma FindLive(bs: seq<Block>, addr: int, p: int)
    requires Shape(bs)
    ensures var k := Find(bs, addr, p);
            (k < |bs| && !bs[k].free) <==> exists e :: e in Live(bs, addr) && e.start == p
  {
    var k := Find(bs, addr, p);
    FindAt(bs, addr, p);
    if k < |bs| {
      LiveAt(bs, addr, k);
    }
    forall e | e in Live(bs, addr) && e.start == p ensures k < |bs| {
      var i := LiveIndex(bs, addr, e);
    }
  }

  lemma {:induction false} LiveIndex(bs: seq<Block>, addr: int, e: Extent) returns (i: nat)
    requires e in Live(bs, addr)
    ensures i < |bs| && !bs[i].free && bs[i].length == e.length && addr + Total(bs[..i]) == e.start
  {
    if !bs[0].free && e == Extent(addr, bs[0].length) {
      assert bs[..0] == [];
      i := 0;
    } else {
      var j := LiveIndex(bs[1..], addr + bs[0].length, e);
      i := j + 1;
      assert bs[..i] == [bs[0]] + bs[1..][..j];
    }
  }

  lemma BlocksInOrder(bs: seq<Block>, i: nat, j: nat)
    requires i < j < |bs|
    ensures Total(bs[..i]) + bs[i].length <= Total(bs[..j])
  {
    assert bs[..j] == bs[..i] + ([bs[i]] + bs[i + 1..j]);
    Concat(bs[..i], [bs[i]] + bs[i + 1..j], 0);
    Concat([bs[i]], bs[i + 1..j], 0);
  }

  /** A live allocation is block k itself, if that is used, or lies beside it. */
  lemma LiveBeside(bs: seq<Block>, addr: int, k: nat, f: Extent)
    requires k < |bs| && f in Live(bs, addr)
    ensures var b := Extent(addr + Total(bs[..k]), bs[k].length);
            (f == b && !bs[k].free) || Apart(b, f)
  {
    var i := LiveIndex(bs, addr, f);
    if i < k {
      BlocksInOrder(bs, i, k);
    } else if k < i {
      BlocksInOrder(bs, k, i);
    }
  }
}
