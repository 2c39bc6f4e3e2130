/** The physical page allocator (kernel/src/mm/pmm.cc). */
module PhysicalPages {
  import opened Machine
  import opened Bitmaps

  const WM_SIZE := 0x400_0000   // 64 MiB for the watermark arena

  datatype Kind = Usable | Reserved | Other

  /** One line of the boot loader's memory map. */
  datatype Region = Region(base: nat, length: nat, kind: Kind)

  /** Sorted, disjoint, page aligned and without empty lines. */
  predicate WellFormed(mmap: seq<Region>) {
    && (forall i :: 0 <= i < |mmap| ==> mmap[i].base % PAGE == 0 && mmap[i].length % PAGE == 0 && mmap[i].length > 0)
    && forall i, j :: 0 <= i < j < |mmap| ==> mmap[i].base + mmap[i].length <= mmap[j].base
  }

  /** Page p lies in region i. */
  predicate InRegion(mmap: seq<Region>, i: int, p: nat) {
    0 <= i < |mmap| && mmap[i].base <= p * PAGE && p * PAGE + PAGE <= mmap[i].base + mmap[i].length
  }

  /** What the arena and the bitmap take at the start of region k: `bmSize` bytes are set aside for the bitmap. */
  predicate SetAside(mmap: seq<Region>, k: int, bmSize: nat, p: nat) {
    0 <= k < |mmap| && mmap[k].base <= p * PAGE < mmap[k].base + WM_SIZE + bmSize
  }

  /** The pages that may ever be handed out, region by region up to n. */
  ghost predicate Available(mmap: seq<Region>, k: int, bmSize: nat, n: nat, p: nat) {
    exists i :: i < n && InRegion(mmap, i, p) && mmap[i].kind.Usable? && !(i == k && SetAside(mmap, k, bmSize, p))
  }

  /** The last region that counts: a trailing reserved one is skipped. */
  function LastIndex(mmap: seq<Region>): int
    requires mmap != []
  {
    if mmap[|mmap| - 1].kind.Reserved? then |mmap| - 2 else |mmap| - 1
  }

  /** How many pages, and bytes of bitmap, the map calls for. */
  function BitmapUnits(mmap: seq<Region>): nat
    requires mmap != [] && LastIndex(mmap) >= 0
  {
    var last := mmap[LastIndex(mmap)];
    AlignUp(last.base + last.length, PAGE) / PAGE
  }

  /** A line that counts: every one but a trailing reserved one. */
  predicate Counts(mmap: seq<Region>, i: int) {
    0 <= i < |mmap| && !(i == |mmap| - 1 && mmap[i].kind.Reserved?)
  }

  /** There is a bit to ask for for every page of every line that counts, and for no more pages than that takes. */
  lemma UnitsCover(mmap: seq<Region>)
    requires WellFormed(mmap) && mmap != [] && LastIndex(mmap) >= 0
    ensures forall i, p: nat :: Counts(mmap, i) && InRegion(mmap, i, p) ==> p < BitmapUnits(mmap)
    ensures BitmapUnits(mmap) > 0 && exists i :: Counts(mmap, i) && InRegion(mmap, i, BitmapUnits(mmap) - 1)
  {
    var n := LastIndex(mmap);
    var top := mmap[n].base + mmap[n].length;
    AlignUpIsLeast(top, PAGE);
    hide AlignUp;
    var q := top / PAGE;
    assert top == q * PAGE;
    assert AlignUp(top, PAGE) == top;
    assert BitmapUnits(mmap) == q;
    assert Counts(mmap, n) && InRegion(mmap, n, q - 1);
    forall i, p: nat | Counts(mmap, i) && InRegion(mmap, i, p) ensures p < q {
      assert i < n ==> mmap[i].base + mmap[i].length <= mmap[n].base;
    }
  }

  predicate HasRoom(r: Region, units: nat) {
    r.kind.Usable? && r.length >= units / 8 + WM_SIZE
  }

  /** k is the region the arena and the bitmap go into. */
  ghost predicate Arena(mmap: seq<Region>, units: nat, k: int) {
    0 <= k < |mmap| && HasRoom(mmap[k], units) && forall i :: 0 <= i < k ==> !HasRoom(mmap[i], units)
  }

  /** The arena and the words of the bitmap lie in that region, and no region before it could hold them. */
  lemma ArenaInRegion(mmap: seq<Region>, units: nat, k: int)
    requires Arena(mmap, units, k)
    ensures mmap[k].kind.Usable? && WM_SIZE + 8 * (units / 64) <= mmap[k].length
    ensures forall i :: 0 <= i < k && mmap[i].kind.Usable? ==> mmap[i].length < WM_SIZE + units / 8
  {
    assert HasRoom(mmap[k], units);
  }

  /** The bytes of usable memory in the first n lines. */
  function UsableBytes(mmap: seq<Region>, n: nat): nat
    requires n <= |mmap|
  {
    if n == 0 then 0 else UsableBytes(mmap, n - 1) + if mmap[n - 1].kind.Usable? then mmap[n - 1].length else 0
  }

  /** The bits as the setup loop leaves them after n regions. */
  ghost predicate Cleared(bits: seq<bool>, mmap: seq<Region>, k: int, units: nat, n: nat) {
    forall p :: 0 <= p < |bits| ==> (!bits[p] <==> Available(mmap, k, units, n, p))
  }

  // ---- the loops of `pmm_init` ----

  method FindArena(mmap: seq<Region>, units: nat) returns (r: Option<nat>)
    ensures match r
            case Some(k) => Arena(mmap, units, k)
            case None => forall i :: 0 <= i < |mmap| ==> !HasRoom(mmap[i], units)
  {
    for i := 0 to |mmap|
      invariant forall j :: 0 <= j < i ==> !HasRoom(mmap[j], units)
    {
      if mmap[i].kind.Usable? && mmap[i].length >= units / 8 + WM_SIZE {
        return Some(i);
      }
    }
    return None;
  }

  /** Every page of the range has a bit. */
  predicate InBitmap(base: nat, bytes: nat, sz: nat) {
    bytes > 0 ==> base + bytes <= sz * PAGE
  }

  /** The bits of the pages in the first j bytes have been written. */
  predicate Marked(before: seq<bool>, bits: seq<bool>, base: nat, bytes: nat, j: nat, val: bool) {
    |bits| == |before| && forall p :: 0 <= p < |bits| ==>
      bits[p] == if base <= p * PAGE < base + j && p * PAGE < base + bytes then val else before[p]
  }

  lemma NoneMarked(bits: seq<bool>, base: nat, bytes: nat, val: bool)
    ensures Marked(bits, bits, base, bytes, 0, val)
  {
  }

  lemma MarkNext(before: seq<bool>, bits: seq<bool>, base: nat, bytes: nat, j: nat, val: bool)
    requires Marked(before, bits, base, bytes, j, val) && base % PAGE == 0 && j % PAGE == 0 && j < bytes
    requires (base + j) / PAGE < |bits|
    ensures Marked(before, bits[(base + j) / PAGE := val], base, bytes, j + PAGE, val)
  {
  }

  lemma AllMarked(before: seq<bool>, bits: seq<bool>, base: nat, bytes: nat, j: nat, val: bool)
    requires Marked(before, bits, base, bytes, j, val) && j >= bytes
    ensures |bits| == |before| && forall p :: 0 <= p < |bits| ==>
              bits[p] == if base <= p * PAGE < base + bytes then val else before[p]
  {
  }

  /** Writes one value to the bits of consecutive pages; false when a page is beyond the bitmap. */
  method MarkPages(bm: Bitmap, base: nat, bytes: nat, val: bool) returns (ok: bool)
    requires bm.Valid() && base % PAGE == 0
    modifies bm.buffer
    ensures ok <==> InBitmap(base, bytes, bm.sz)
    ensures ok ==> forall p :: 0 <= p < bm.sz ==>
              bm.Bits()[p] == if base <= p * PAGE < base + bytes then val else old(bm.Bits())[p]
  {
    hide Bit, Marked;
    NoneMarked(bm.Bits(), base, bytes, val);
    var j := 0;
    while j < bytes
      invariant 0 <= j < bytes + PAGE && j % PAGE == 0 && (j > 0 ==> base + j <= bm.sz * PAGE)
      invariant Marked(old(bm.Bits()), bm.Bits(), base, bytes, j, val)
    {
      ghost var bits := bm.Bits();
      var o := bm.Set((base + j) / PAGE, val);
      if o.Halted? {
        return false;
      }
      MarkNext(old(bm.Bits()), bits, base, bytes, j, val);
      j := j + PAGE;
    }
    AllMarked(old(bm.Bits()), bm.Bits(), base, bytes, j, val);
    return true;
  }

  /** The bits the setup loop writes for region i exist. */
  predicate RegionInBitmap(mmap: seq<Region>, i: nat, k: int, units: nat, sz: nat)
    requires i < |mmap|
  {
    InBitmap(mmap[i].base, mmap[i].length, sz) && (i == k ==> InBitmap(mmap[i].base, units + WM_SIZE, sz))
  }

  /** One turn of the setup loop. */
  method AddRegion(bm: Bitmap, mmap: seq<Region>, i: nat, ghost k: int, bmBase: nat, units: nat) returns (ok: bool)
    requires bm.Valid() && WellFormed(mmap) && i < |mmap| && mmap[i].kind.Usable?
    requires Arena(mmap, units, k) && bmBase == mmap[k].base + WM_SIZE
    requires Cleared(bm.Bits(), mmap, k, units, i)
    modifies bm.buffer
    ensures ok <==> RegionInBitmap(mmap, i, k, units, bm.sz)
    ensures ok ==> Cleared(bm.Bits(), mmap, k, units, i + 1)
  {
    var e := mmap[i];
    ghost var b0 := bm.Bits();
    ok := MarkPages(bm, e.base, e.length, false);
    if !ok {
      return;
    }
    ghost var b1 := bm.Bits();
    if e.base + WM_SIZE == bmBase {
      ok := MarkPages(bm, e.base, units + WM_SIZE, true);
    }
    if ok {
      RegionCleared(b0, b1, bm.Bits(), mmap, i, k, units);
    }
  }

  lemma RegionCleared(b0: seq<bool>, b1: seq<bool>, b2: seq<bool>, mmap: seq<Region>, i: nat, k: int, units: nat)
    requires WellFormed(mmap) && i < |mmap| && mmap[i].kind.Usable? && Arena(mmap, units, k)
    requires |b0| == |b1| == |b2| && Cleared(b0, mmap, k, units, i)
    requires forall p :: 0 <= p < |b0| ==>
               b1[p] == if mmap[i].base <= p * PAGE < mmap[i].base + mmap[i].length then false else b0[p]
    requires forall p :: 0 <= p < |b0| ==>
               b2[p] ==
               if mmap[i].base == mmap[k].base && mmap[i].base <= p * PAGE < mmap[i].base + (units + WM_SIZE) then true
               else b1[p]
    ensures Cleared(b2, mmap, k, units, i + 1)
  {
    forall p: nat | p < |b2| ensures !b2[p] <==> Available(mmap, k, units, i + 1, p) {
      PageCleared(b0[p], b1[p], b2[p], mmap, i, k, units, p);
    }
  }

  lemma PageCleared(b0: bool, b1: bool, b2: bool, mmap: seq<Region>, i: nat, k: int, units: nat, p: nat)
    requires WellFormed(mmap) && i < |mmap| && mmap[i].kind.Usable? && Arena(mmap, units, k)
    requires !b0 <==> Available(mmap, k, units, i, p)
    requires b1 == if mmap[i].base <= p * PAGE < mmap[i].base + mmap[i].length then false else b0
    requires b2 ==
             if mmap[i].base == mmap[k].base && mmap[i].base <= p * PAGE < mmap[i].base + (units + WM_SIZE) then true
             else b1
    ensures !b2 <==> Available(mmap, k, units, i + 1, p)
  {
    assert InRegion(mmap, i, p) <==> mmap[i].base <= p * PAGE < mmap[i].base + mmap[i].length;
    assert mmap[i].base == mmap[k].base <==> i == k;
    if Available(mmap, k, units, i, p) {
      var j :| j < i && InRegion(mmap, j, p) && mmap[j].kind.Usable? && !(j == k && SetAside(mmap, k, units, p));
      assert j < i + 1;
    }
    if InRegion(mmap, i, p) && !(i == k && SetAside(mmap, k, units, p)) {
      assert Available(mmap, k, units, i + 1, p);
    }
  }

  /**
   The bitmap has a bit for every page the setup writes. It has whole 64-bit words only, so up to 63 pages at the
   end of memory have none, and a usable one among them stops the machine.
   */
  predicate Representable(mmap: seq<Region>, k: int)
    requires WellFormed(mmap) && mmap != [] && LastIndex(mmap) >= 0
  {
    var units := BitmapUnits(mmap);
    && units / 64 * 64 > 0
    && forall i: nat :: i < |mmap| && mmap[i].kind.Usable? ==> RegionInBitmap(mmap, i, k, units, units / 64 * 64)
  }

  /** One page more than 100 MiB, all of it usable, cannot be set up. */
  lemma OnePageTooMany(mmap: seq<Region>, k: int)
    requires mmap == [Region(0, 0x640_1000, Usable)]
    ensures WellFormed(mmap) && LastIndex(mmap) == 0 && Arena(mmap, BitmapUnits(mmap), 0) && !Representable(mmap, k)
  {
    assert BitmapUnits(mmap) == 25601;
    assert !RegionInBitmap(mmap, 0, k, 25601, 25600);
  }

  /** After `pmm_init` every clear bit is a page the allocator may hand out, and every such page has a clear bit. */
  method PmmInit(mmap: seq<Region>) returns (r: Outcome<Pmm>)
    requires WellFormed(mmap) && mmap != [] && LastIndex(mmap) >= 0
    ensures r.Done? <==> exists k :: Arena(mmap, BitmapUnits(mmap), k) && Representable(mmap, k)
    ensures r.Done? ==>
              var m := r.value;
              && fresh(m) && fresh(m.bm.buffer) && m.Valid() && m.handed == {}
              && m.freemem == UsableBytes(mmap, |mmap|) && m.usedmem == 0
              && exists k :: Arena(mmap, BitmapUnits(mmap), k) && PoolIs(mmap, k, m.bm.sz, m.pool)
                             && m.wmBase == mmap[k].base && m.bmBase == mmap[k].base + WM_SIZE
  {
    hide Bit, Available, InRegion, SetAside, HasRoom, BitmapUnits;
    var units := BitmapUnits(mmap);
    var found := FindArena(mmap, units);
    if found.None? {
      return Halted;
    }
    var k := found.value;
    var bmBase := mmap[k].base + WM_SIZE;
    var store := new bv64[units / 64];
    var bm := new Bitmap(store, units, true);
    var freemem: nat := 0;
    NothingAvailable(bm.Bits(), mmap, k, units);
    for i := 0 to |mmap|
      invariant Cleared(bm.Bits(), mmap, k, units, i)
      invariant bm.buffer == store && freemem == UsableBytes(mmap, i)
      invariant forall j: nat :: j < i && mmap[j].kind.Usable? ==> RegionInBitmap(mmap, j, k, units, bm.sz)
    {
      if mmap[i].kind.Usable? {
        freemem := freemem + mmap[i].length;
        var ok := AddRegion(bm, mmap, i, k, bmBase, units);
        if !ok {
          return Halted;
        }
      } else {
        OtherRegion(bm.Bits(), mmap, i, k, units);
      }
    }
    ghost var bits := bm.Bits();
    var zero := bm.Set(0, true);
    if zero.Halted? {
      return Halted;
    }
    ghost var pool := set p | 0 <= p < bm.sz && !bm.Bits()[p] :: p as nat;
    var m := new Pmm(bm, mmap[k].base, bmBase, freemem, pool);
    ClearIsPool(mmap, k, bits, pool);
    return Done(m);
  }

  lemma NothingAvailable(bits: seq<bool>, mmap: seq<Region>, k: int, units: nat)
    requires forall p :: 0 <= p < |bits| ==> bits[p]
    ensures Cleared(bits, mmap, k, units, 0)
  {
  }

  lemma OtherRegion(bits: seq<bool>, mmap: seq<Region>, i: nat, k: int, units: nat)
    requires i < |mmap| && !mmap[i].kind.Usable? && Cleared(bits, mmap, k, units, i)
    ensures Cleared(bits, mmap, k, units, i + 1)
  {
    forall p: nat | p < |bits| ensures Available(mmap, k, units, i, p) <==> Available(mmap, k, units, i + 1, p) {
      if Available(mmap, k, units, i, p) {
        var j :| j < i && InRegion(mmap, j, p) && mmap[j].kind.Usable? && !(j == k && SetAside(mmap, k, units, p));
        assert j < i + 1;
      }
    }
  }

  /** The pool is exactly the usable pages outside what the arena and the bitmap take, page 0 excepted. */
  ghost predicate PoolIs(mmap: seq<Region>, k: int, sz: nat, pool: set<nat>)
    requires mmap != [] && LastIndex(mmap) >= 0
  {
    forall p: nat :: p in pool <==> p < sz && p != 0 && Available(mmap, k, BitmapUnits(mmap), |mmap|, p)
  }

  lemma ClearIsPool(mmap: seq<Region>, k: int, bits: seq<bool>, pool: set<nat>)
    requires mmap != [] && LastIndex(mmap) >= 0 && Cleared(bits, mmap, k, BitmapUnits(mmap), |mmap|)
    requires forall p: nat :: p in pool <==> p < |bits| && p != 0 && !bits[p]
    ensures PoolIs(mmap, k, |bits|, pool)
  {
    hide Available, BitmapUnits;
  }

  /** No page of the pool is page 0, outside usable memory, in the arena, or under the bitmap. */
  lemma PoolIsSafe(mmap: seq<Region>, k: int, sz: nat, pool: set<nat>, p: nat)
    requires WellFormed(mmap) && mmap != [] && LastIndex(mmap) >= 0
    requires Arena(mmap, BitmapUnits(mmap), k) && PoolIs(mmap, k, sz, pool) && sz <= BitmapUnits(mmap) && p in pool
    ensures p != 0
    ensures exists i :: InRegion(mmap, i, p) && mmap[i].kind.Usable?
    ensures var top := mmap[k].base + WM_SIZE + sz / 8;
            p * PAGE + PAGE <= mmap[k].base || top <= p * PAGE
  {
    var units := BitmapUnits(mmap);
    var i :| i < |mmap| && InRegion(mmap, i, p) && mmap[i].kind.Usable? && !(i == k && SetAside(mmap, k, units, p));
    hide BitmapUnits;
  }

  /**
   Exactly: a page with a bit is in the pool if and only if it is not page 0 and lies in a usable region, and not in the
   64 MiB and one byte per page set aside at the start of the arena's own region.
   */
  lemma PoolExactly(mmap: seq<Region>, k: int, sz: nat, pool: set<nat>, p: nat)
    requires WellFormed(mmap) && mmap != [] && LastIndex(mmap) >= 0
    requires Arena(mmap, BitmapUnits(mmap), k) && PoolIs(mmap, k, sz, pool)
    ensures p in pool <==>
            && 0 < p < sz
            && exists i :: 0 <= i < |mmap| && mmap[i].kind.Usable? && mmap[i].base <= p * 4096
                           && p * 4096 + 4096 <= mmap[i].base + mmap[i].length
                           && !(i == k && p * 4096 < mmap[k].base + 0x400_0000 + BitmapUnits(mmap))
  {
    hide BitmapUnits;
    var units := BitmapUnits(mmap);
    if p in pool {
      var i :| i < |mmap| && InRegion(mmap, i, p) && mmap[i].kind.Usable? && !(i == k && SetAside(mmap, k, units, p));
      assert mmap[i].base <= p * 4096;
    }
    forall i | 0 <= i < |mmap| && mmap[i].kind.Usable? && InRegion(mmap, i, p)
               && !(i == k && SetAside(mmap, k, units, p))
      ensures Available(mmap, k, units, |mmap|, p)
    {
    }
  }

  /** Page p holds one of the `size` bytes from `address` on. */
  predicate Holds(p: nat, address: nat, size: nat) {
    p * PAGE < address + size && address < p * PAGE + PAGE
  }

  class Pmm {
    const bm: Bitmap
    const wmBase: nat     // where the watermark arena starts
    const bmBase: nat     // where the bitmap's words are
    var freemem: nat
    var usedmem: nat
    ghost var pool: set<nat>     // pages that were clear when the allocator was set up
    ghost var handed: set<nat>   // pages handed out since

    /** A bit is clear exactly when its page is in the pool and has not been handed out. */
    ghost predicate Valid()
      reads this, bm.buffer
    {
      && bm.Valid() && handed <= pool
      && (forall p :: p in pool ==> p < bm.sz)
      && forall p :: 0 <= p < bm.sz ==> (!bm.Bits()[p] <==> p in pool && p !in handed)
    }

    constructor (bm: Bitmap, wmBase: nat, bmBase: nat, freemem: nat, ghost pool: set<nat>)
      requires bm.Valid() && forall p: nat :: p in pool <==> p < bm.sz && !bm.Bits()[p]
      ensures Valid() && this.bm == bm && this.pool == pool && handed == {}
      ensures this.wmBase == wmBase && this.bmBase == bmBase && this.freemem == freemem && usedmem == 0
    {
      this.bm, this.wmBase, this.bmBase, this.freemem, this.usedmem := bm, wmBase, bmBase, freemem, 0;
      this.pool, this.handed := pool, {};
    }

    /**
     `pmm_alloc` with the page its search starts at, and `pmm_alloc4g` with start 0: the run returned is fresh,
     and it is the one the wrap-around search promises.
     */
    method Alloc(size: nat, start: nat) returns (r: Outcome<nat>)
      requires Valid() && size < TWO64
      modifies this, bm.buffer
      ensures match r
              case Halted => true
              case Done(address) =>
                && Valid() && address % PAGE == 0 && size > 0
                && Found(old(bm.Bits()), start, Pages(size), address / PAGE)
                && (forall p: nat :: Holds(p, address, size) ==> p in pool && p !in old(handed))
                && (forall p: nat :: p in handed <==> p in old(handed) || Holds(p, address, size))
                && usedmem == (old(usedmem) + Pages(size) * PAGE) % TWO64
                && freemem == (old(freemem) - Pages(size) * PAGE) % TWO64
      ensures pool == old(pool)
      ensures 0 < size <= TWO64 - PAGE && r.Halted? ==> Pages(size) > 0 && Missing(old(bm.Bits()), start, Pages(size))
    {
      hide Bit, AlignUp, Found, Run, Missing, Rounded, Holds, Pages;
      PageCount(size);
      var bytes := Rounded(size);
      usedmem := (usedmem + bytes) % TWO64;
      freemem := (freemem - bytes) % TWO64;
      var o := Take(bytes / PAGE, start);
      if o.Halted? {
        return Halted;
      }
      DivModUnique(o.value * PAGE, PAGE, o.value, 0);
      HeldPages(o.value, size);
      return Done(o.value * PAGE);
    }

    /** The pages themselves: a run of `n` clear bits is found, set and handed out. */
    method Take(n: nat, start: nat) returns (r: Outcome<nat>)
      requires Valid()
      modifies this`handed, bm.buffer
      ensures r.Done? ==>
                && Valid() && n > 0 && Found(old(bm.Bits()), start, n, r.value)
                && (forall p: nat :: r.value <= p < r.value + n ==> p in pool && p !in old(handed))
                && handed == old(handed) + Run(r.value, n)
      ensures n > 0 && r.Halted? ==> Missing(old(bm.Bits()), start, n)
    {
      hide Bit, Found, Missing;
      var o := bm.FindAndSetMultiple(n, start);
      if o.Halted? || o.value.None? {
        return Halted;
      }
      var bit := o.value.value;
      SearchIsExact(old(bm.Bits()), start, n, bit);
      handed := handed + Run(bit, n);
      return Done(bit);
    }
  }

  /** `align(size, PAGE)` in 64-bit arithmetic. */
  function Rounded(size: nat): nat {
    (size + (PAGE - 1)) % TWO64 / PAGE * PAGE
  }

  /** The rounding wraps to nothing for the last page of sizes. */
  lemma PageCount(size: nat)
    requires size < TWO64
    ensures Rounded(size) == if size <= TWO64 - PAGE then AlignUp(size, PAGE) else 0
    ensures Rounded(size) == Rounded(size) / PAGE * PAGE
    ensures Rounded(size) / PAGE == if size <= TWO64 - PAGE then Pages(size) else 0
  {
    if size <= TWO64 - PAGE {
      assert (size + (PAGE - 1)) % TWO64 == size + (PAGE - 1);
    } else {
      assert (size + (PAGE - 1)) % TWO64 == size + (PAGE - 1) - TWO64 < PAGE;
    }
  }

  /** The pages from `first` on that a size takes are the ones that hold its bytes. */
  lemma HeldPages(first: nat, size: nat)
    ensures forall p: nat :: size > 0 ==> (Holds(p, first * PAGE, size) <==> first <= p < first + Pages(size))
  {
  }

  function Run(first: nat, n: nat): (r: set<nat>)
    ensures forall p :: p in r <==> first <= p < first + n
  {
    if n == 0 then {} else Run(first, n - 1) + {first + n - 1}
  }

  /**
   Over any run of calls the bytes handed out never overlap, they lie in pages of the pool, those pages and no others
   are gone, and a call fails only for want of a free run. `handed` is what is gone when the run ends.
   */
  method AllocAll(m: Pmm, sizes: seq<nat>, starts: seq<nat>) returns (rs: seq<nat>, ghost handed: set<nat>)
    requires m.Valid() && |starts| == |sizes| && forall i :: 0 <= i < |sizes| ==> sizes[i] < TWO64
    modifies m, m.bm.buffer
    ensures |rs| <= |sizes| && forall i :: 0 <= i < |rs| ==> rs[i] % PAGE == 0
    ensures forall i, p: nat :: 0 <= i < |rs| && Holds(p, rs[i], sizes[i]) ==> p in old(m.pool) && p !in old(m.handed)
    ensures forall i, j :: 0 <= i < j < |rs| ==> rs[i] + sizes[i] <= rs[j] || rs[j] + sizes[j] <= rs[i]
    ensures forall p: nat :: p in handed <==> p in old(m.handed) || HeldByOne(p, rs, sizes)
    ensures |rs| < |sizes| && 0 < sizes[|rs|] <= TWO64 - PAGE ==>
              NoneFree(old(m.pool), handed, starts[|rs|], Pages(sizes[|rs|]))
  {
    hide Bit, AlignUp, Found, Missing, NoneFree, Pages, Holds;
    rs, handed := [], m.handed;
    for k := 0 to |sizes|
      invariant m.Valid() && m.pool == old(m.pool) && |rs| == k && handed == m.handed
      invariant forall i :: 0 <= i < k ==> rs[i] % PAGE == 0 && sizes[i] > 0
      invariant forall p: nat :: p in handed <==> p in old(m.handed) || HeldByOne(p, rs, sizes)
      invariant forall i, p: nat :: 0 <= i < k && Holds(p, rs[i], sizes[i]) ==> p in m.pool && p !in old(m.handed)
      invariant forall i, j :: 0 <= i < j < k ==> rs[i] + sizes[i] <= rs[j] || rs[j] + sizes[j] <= rs[i]
    {
      ghost var bits := m.bm.Bits();
      var a := m.Alloc(sizes[k], starts[k]);
      if a.Halted? {
        if 0 < sizes[k] <= TWO64 - PAGE {
          NothingFree(bits, m.pool, handed, starts[k], Pages(sizes[k]));
        }
        return;
      }
      OneMore(rs, sizes, a.value);
      forall i | 0 <= i < k ensures rs[i] + sizes[i] <= a.value || a.value + sizes[k] <= rs[i] {
        assert forall p: nat :: Holds(p, rs[i], sizes[i]) ==> HeldByOne(p, rs, sizes);
        BytesApart(rs[i], sizes[i], a.value, sizes[k]);
      }
      rs, handed := rs + [a.value], m.handed;
    }
  }

  /** Page p holds a byte of one of the allocations. */
  ghost predicate HeldByOne(p: nat, rs: seq<nat>, sizes: seq<nat>)
    requires |rs| <= |sizes|
  {
    exists i :: 0 <= i < |rs| && Holds(p, rs[i], sizes[i])
  }

  lemma OneMore(rs: seq<nat>, sizes: seq<nat>, a: nat)
    requires |rs| < |sizes|
    ensures forall p: nat :: HeldByOne(p, rs + [a], sizes) <==> HeldByOne(p, rs, sizes) || Holds(p, a, sizes[|rs|])
  {
    hide Holds;
    var rs' := rs + [a];
    forall p: nat ensures HeldByOne(p, rs', sizes) <==> HeldByOne(p, rs, sizes) || Holds(p, a, sizes[|rs|]) {
      if HeldByOne(p, rs, sizes) {
        var i :| 0 <= i < |rs| && Holds(p, rs[i], sizes[i]);
        assert Holds(p, rs'[i], sizes[i]);
      }
      if Holds(p, a, sizes[|rs|]) {
        assert Holds(p, rs'[|rs|], sizes[|rs|]);
      }
    }
  }

  /** Without a page in common two allocations have no byte in common. */
  lemma BytesApart(a: nat, s: nat, b: nat, t: nat)
    requires s > 0 && t > 0 && forall p: nat :: !(Holds(p, a, s) && Holds(p, b, t))
    ensures a + s <= b || b + t <= a
  {
    var x := if a < b then b else a;
    var p := x / PAGE;
    assert p * PAGE <= x < p * PAGE + PAGE;
    assert !(Holds(p, a, s) && Holds(p, b, t));
  }

  /** How many pages a size takes: the least number that is enough. */
  function Pages(size: nat): (n: nat)
    ensures size <= n * PAGE < size + PAGE
  {
    AlignUpIsLeast(size, PAGE);
    AlignUp(size, PAGE) / PAGE
  }

  /** `n` pages from `s` on are all in the pool and not handed out. */
  ghost predicate Free(pool: set<nat>, handed: set<nat>, s: nat, n: nat) {
    forall p: nat :: s <= p < s + n ==> p in pool && p !in handed
  }

  /** No run of n free pages, except perhaps one that straddles `start`. */
  ghost predicate NoneFree(pool: set<nat>, handed: set<nat>, start: nat, n: nat) {
    forall s: nat :: s >= start || s + n <= start ==> !Free(pool, handed, s, n)
  }

  lemma NothingFree(bits: seq<bool>, pool: set<nat>, handed: set<nat>, start: nat, n: nat)
    requires Missing(bits, start, n) && n > 0
    requires forall p: nat :: p < |bits| ==> (!bits[p] <==> p in pool && p !in handed)
    requires forall p :: p in pool ==> p < |bits|
    ensures NoneFree(pool, handed, start, n)
  {
    forall s: nat | (s >= start || s + n <= start) && Free(pool, handed, s, n) ensures false {
      assert s + n - 1 in pool;
      assert ClearRun(bits, s, n);
    }
  }
}
