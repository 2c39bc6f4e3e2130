/**
 The heap as a value: the blocks the descriptor list describes, in address order.
 Offsets are relative to the heap base.
 */
module HeapBlocks {
  const MIN_ALLOC := 16
  const REDZONE := 64
  const MIN_USED := MIN_ALLOC + 2 * REDZONE

  datatype Block = Block(length: nat, free: bool)

  /** A live allocation: where its block starts and how long it is, redzones included. */
  datatype Extent = Extent(start: int, length: nat)

  // ---- measures ----

  function Total(bs: seq<Block>): nat {
    if bs == [] then 0 else bs[0].length + Total(bs[1..])
  }

  function Used(bs: seq<Block>): nat {
    if bs == [] then 0 else (if bs[0].free then 0 else bs[0].length) + Used(bs[1..])
  }

  function Free(bs: seq<Block>): nat {
    if bs == [] then 0 else (if bs[0].free then bs[0].length else 0) + Free(bs[1..])
  }

  /** The live allocations of blocks laid out from `off`. */
  function Live(bs: seq<Block>, off: int): set<Extent> {
    if bs == [] then {}
    else (if bs[0].free then {} else {Extent(off, bs[0].length)}) + Live(bs[1..], off + bs[0].length)
  }

  lemma {:induction false} ConcatSums(a: seq<Block>, b: seq<Block>)
    ensures Total(a + b) == Total(a) + Total(b)
    ensures Used(a + b) == Used(a) + Used(b)
  {
    if a == [] {
      assert a + b == b;
    } else {
      assert (a + b)[1..] == a[1..] + b;
      ConcatSums(a[1..], b);
    }
  }

  lemma {:induction false} ConcatLive(a: seq<Block>, b: seq<Block>, off: int)
    ensures Live(a + b, off) == Live(a, off) + Live(b, off + Total(a))
  {
    if a == [] {
      assert a + b == b;
    } else {
      assert (a + b)[1..] == a[1..] + b;
      ConcatLive(a[1..], b, off + a[0].length);
    }
  }

  lemma Concat(a: seq<Block>, b: seq<Block>, off: int)
    ensures Total(a + b) == Total(a) + Total(b)
    ensures Used(a + b) == Used(a) + Used(b)
    ensures Live(a + b, off) == Live(a, off) + Live(b, off + Total(a))
  {
    ConcatSums(a, b);
    ConcatLive(a, b, off);
  }

  lemma {:induction false} UsedPlusFree(bs: seq<Block>)
    ensures Used(bs) + Free(bs) == Total(bs)
  {
    if bs != [] {
      UsedPlusFree(bs[1..]);
    }
  }

  // ---- the invariant of the block list ----

  predicate BlockOk(b: Block) {
    b.length > 0 && b.length % MIN_ALLOC == 0 && (!b.free ==> b.length >= MIN_USED)
  }

  predicate Shape(bs: seq<Block>) {
    forall i :: 0 <= i < |bs| ==> BlockOk(bs[i])
  }

  predicate Coalesced(bs: seq<Block>) {
    forall i :: 0 <= i < |bs| - 1 ==> !(bs[i].free && bs[i + 1].free)
  }

  predicate Canonical(bs: seq<Block>) {
    Shape(bs) && Coalesced(bs)
  }

  lemma {:induction false} TotalAligned(bs: seq<Block>)
    requires Shape(bs)
    ensures Total(bs) % MIN_ALLOC == 0
    ensures bs != [] ==> Total(bs) > 0
  {
    if bs != [] {
      TotalAligned(bs[1..]);
    }
  }

  lemma {:induction false} LiveBounds(bs: seq<Block>, off: int, e: Extent)
    requires Shape(bs) && e in Live(bs, off)
    ensures off <= e.start && e.start + e.length <= off + Total(bs)
    ensures (e.start - off) % MIN_ALLOC == 0 && e.length % MIN_ALLOC == 0 && e.length >= MIN_USED
  {
    if e != Extent(off, bs[0].length) || bs[0].free {
      LiveBounds(bs[1..], off + bs[0].length, e);
    }
  }

  predicate Apart(a: Extent, b: Extent) {
    a.start + a.length <= b.start || b.start + b.length <= a.start
  }

  /** Live allocations never overlap. */
  lemma {:induction false} LiveDisjoint(bs: seq<Block>, off: int, e: Extent, f: Extent)
    requires Shape(bs) && e in Live(bs, off) && f in Live(bs, off) && e != f
    ensures Apart(e, f)
  {
    var next := off + bs[0].length;
    if e in Live(bs[1..], next) && f in Live(bs[1..], next) {
      LiveDisjoint(bs[1..], next, e, f);
    } else if e in Live(bs[1..], next) {
      LiveBounds(bs[1..], next, e);
    } else if f in Live(bs[1..], next) {
      LiveBounds(bs[1..], next, f);
    }
  }

  lemma OneLive(b: Block, off: int)
    ensures Total([b]) == b.length && Live([b], off) == if b.free then {} else {Extent(off, b.length)}
  {
    assert [b][1..] == [];
  }

  /** Every block of the list at index k is live exactly when it is used. */
  lemma {:induction false} LiveAt(bs: seq<Block>, off: int, k: nat)
    requires Shape(bs) && k < |bs|
    ensures Extent(off + Total(bs[..k]), bs[k].length) in Live(bs, off) <==> !bs[k].free
    ensures forall e :: e in Live(bs, off) && e.start == off + Total(bs[..k]) ==>
              !bs[k].free && e.length == bs[k].length
  {
    hide Live, Total;
    var pre, post := bs[..k], bs[k + 1..];
    var here := off + Total(pre);
    assert bs == pre + ([bs[k]] + post);
    OneLive(bs[k], here);
    assert BlockOk(bs[k]);
    Concat(pre, [bs[k]] + post, off);
    Concat([bs[k]], post, here);
    forall e | e in Live(pre, off) ensures e.start < here {
      LiveBounds(pre, off, e);
    }
    forall e | e in Live(post, here + bs[k].length) ensures e.start > here {
      LiveBounds(post, here + bs[k].length, e);
    }
  }

  // ---- the canonical form ----

  lemma NoLiveNoBlocks(bs: seq<Block>, off: int)
    requires Canonical(bs) && Live(bs, off) == {}
    ensures |bs| <= 1 && (|bs| == 1 ==> bs[0].free)
  {
    if |bs| >= 1 {
      LiveAt(bs, off, 0);
      if |bs| >= 2 {
        LiveAt(bs, off, 1);
      }
    }
  }

  /** The first live extent of a list that starts with a free block sits right after that block. */
  lemma LeadingGap(bs: seq<Block>, off: int, e: Extent)
    requires Canonical(bs) && bs != [] && bs[0].free && e in Live(bs, off)
    ensures |bs| > 1 && Extent(off + bs[0].length, bs[1].length) in Live(bs, off)
    ensures off + bs[0].length <= e.start
  {
    LiveBounds(bs[1..], off + bs[0].length, e);
    LiveAt(bs, off, 1);
    assert bs[..1] == [bs[0]];
  }

  /**
   The live allocations and the total length determine the whole block list:
   the heap has no memory of how it got there.
   */
  lemma {:induction false} CanonicalForm(bs: seq<Block>, cs: seq<Block>, off: int)
    requires Canonical(bs) && Canonical(cs)
    requires Total(bs) == Total(cs) && Live(bs, off) == Live(cs, off)
    ensures bs == cs
  {
    if bs == [] || cs == [] {
      if bs != [] { TotalAligned(bs); }
      if cs != [] { TotalAligned(cs); }
    } else if Live(bs, off) == {} {
      NoLiveNoBlocks(bs, off);
      NoLiveNoBlocks(cs, off);
      assert bs[1..] == [] == cs[1..];
    } else {
      SameHead(bs, cs, off);
      var next := off + bs[0].length;
      TailLive(bs, off);
      TailLive(cs, off);
      CanonicalForm(bs[1..], cs[1..], next);
      assert bs == [bs[0]] + bs[1..] && cs == [cs[0]] + cs[1..];
    }
  }

  lemma SameHead(bs: seq<Block>, cs: seq<Block>, off: int)
    requires Canonical(bs) && Canonical(cs) && bs != [] && cs != []
    requires Live(bs, off) == Live(cs, off) && Live(bs, off) != {}
    ensures bs[0] == cs[0]
  {
    LiveAt(bs, off, 0);
    LiveAt(cs, off, 0);
    assert bs[..0] == [] == cs[..0];
    if bs[0].free {
      var e :| e in Live(bs, off);
      LeadingGap(bs, off, e);
      LeadingGap(cs, off, e);
      LeadingGap(bs, off, Extent(off + cs[0].length, cs[1].length));
      LeadingGap(cs, off, Extent(off + bs[0].length, bs[1].length));
    }
  }

  lemma TailLive(bs: seq<Block>, off: int)
    requires Shape(bs) && bs != []
    ensures Live(bs[1..], off + bs[0].length) ==
            (if bs[0].free then Live(bs, off) else Live(bs, off) - {Extent(off, bs[0].length)})
  {
    if Extent(off, bs[0].length) in Live(bs[1..], off + bs[0].length) {
      LiveBounds(bs[1..], off + bs[0].length, Extent(off, bs[0].length));
    }
  }
}
