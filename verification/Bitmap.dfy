/** The word-packed bitmap (kernel/src/util/bitmap.hh). */
module Bitmaps {
  import opened Machine

  // ---- one word ----

  function Mask(i: bv6): bv64 {
    1 << i
  }

  function Common(w: bv64, m: bv64): bv64 {
    w & m
  }

  function Joined(w: bv64, m: bv64): bv64 {
    w | m
  }

  function Stripped(w: bv64, m: bv64): bv64 {
    w & !m
  }

  predicate BitAt(w: bv64, i: bv6) {
    Common(w, Mask(i)) != 0
  }

  function WithBitAt(w: bv64, i: bv6, val: bool): bv64 {
    if val then Joined(w, Mask(i)) else Stripped(w, Mask(i))
  }

  lemma MasksApart(i: bv6, j: bv6)
    requires i != j
    ensures Common(Mask(i), Mask(j)) == 0
  {
  }

  lemma JoinedElsewhere(w: bv64, m: bv64, n: bv64)
    requires Common(m, n) == 0
    ensures Common(Joined(w, m), n) == Common(w, n)
  {
  }

  lemma StrippedElsewhere(w: bv64, m: bv64, n: bv64)
    requires Common(m, n) == 0
    ensures Common(Stripped(w, m), n) == Common(w, n)
  {
  }

  lemma OwnBit(w: bv64, m: bv64)
    requires m != 0
    ensures Common(Joined(w, m), m) != 0 && Common(Stripped(w, m), m) == 0
  {
  }

  lemma MaskNonzero(i: bv6)
    ensures Mask(i) != 0
  {
  }

  lemma WrittenBit(w: bv64, i: bv6, val: bool)
    ensures BitAt(WithBitAt(w, i, val), i) == val
  {
    hide Mask, Common, Joined, Stripped;
    MaskNonzero(i);
    OwnBit(w, Mask(i));
  }

  lemma WrittenElsewhere(w: bv64, i: bv6, val: bool, j: bv6)
    requires i != j
    ensures BitAt(WithBitAt(w, i, val), j) == BitAt(w, j)
  {
    hide Mask, Common, Joined, Stripped;
    MasksApart(i, j);
    JoinedElsewhere(w, Mask(i), Mask(j));
    StrippedElsewhere(w, Mask(i), Mask(j));
  }

  lemma IndexRoundTrip(i: nat)
    requires i < 64
    ensures (i as bv6) as nat == i
  {
  }

  /** Bit i of a word, and the word with that bit written, as `get` and `set` compute them. */
  predicate Bit(w: bv64, i: nat)
    requires i < 64
  {
    BitAt(w, i as bv6)
  }

  function WithBit(w: bv64, i: nat, val: bool): bv64
    requires i < 64
  {
    WithBitAt(w, i as bv6, val)
  }

  lemma OwnBitWritten(w: bv64, i: nat, val: bool)
    requires i < 64
    ensures Bit(WithBit(w, i, val), i) == val
  {
    WrittenBit(w, i as bv6, val);
  }

  lemma IndicesDistinct(i: nat, j: nat)
    requires i < 64 && j < 64 && i != j
    ensures i as bv6 != j as bv6
  {
    IndexRoundTrip(i);
    IndexRoundTrip(j);
  }

  lemma OtherBitsKept(w: bv64, i: nat, val: bool, j: nat)
    requires i < 64 && j < 64 && i != j
    ensures Bit(WithBit(w, i, val), j) == Bit(w, j)
  {
    IndicesDistinct(i, j);
    WrittenElsewhere(w, i as bv6, val, j as bv6);
  }

  lemma UniformWord(i: nat)
    requires i < 64
    ensures !Bit(0, i)
    ensures Bit(0xffff_ffff_ffff_ffff, i)
  {
    hide Mask;
    MaskNonzero(i as bv6);
    AllOnes(Mask(i as bv6));
  }

  lemma AllOnes(m: bv64)
    ensures 0xffff_ffff_ffff_ffff & m == m
  {
  }

  // ---- runs of clear bits, on the sequence of bools the words stand for ----

  ghost predicate ClearRun(bits: seq<bool>, s: int, n: nat) {
    0 <= s && s + n <= |bits| && forall i :: s <= i < s + n ==> !bits[i]
  }

  /** r is the lowest start in [lo, hi) of a clear run of n bits that ends by hi. */
  ghost predicate LowestRun(bits: seq<bool>, lo: nat, hi: nat, n: nat, r: nat) {
    && lo <= r && r + n <= hi
    && ClearRun(bits, r, n)
    && forall s :: lo <= s < r ==> !ClearRun(bits, s, n)
  }

  ghost predicate HasRun(bits: seq<bool>, lo: nat, hi: nat, n: nat) {
    exists s :: lo <= s && s + n <= hi && ClearRun(bits, s, n)
  }

  /** No run of n bits goes over a set bit. */
  lemma RunBroken(bits: seq<bool>, current: nat, i: nat, n: nat)
    requires current <= i < |bits| && bits[i] && i - current < n
    ensures forall s :: current <= s <= i ==> !ClearRun(bits, s, n)
  {
  }

  /** The bits after a run has been taken. */
  function Taken(bits: seq<bool>, s: nat, n: nat): (r: seq<bool>)
    requires s + n <= |bits|
    ensures |r| == |bits|
    ensures forall i :: 0 <= i < |bits| ==> r[i] == (bits[i] || s <= i < s + n)
  {
    seq(|bits|, i requires 0 <= i < |bits| => bits[i] || s <= i < s + n)
  }

  /** What a search from `start` that wraps around must answer. */
  ghost predicate Found(bits: seq<bool>, start: nat, n: nat, r: nat) {
    var sz := |bits|;
    || LowestRun(bits, start, sz, n, r)
    || (!HasRun(bits, start, sz, n) && LowestRun(bits, 0, Min(start, sz), n, r))
  }

  ghost predicate Missing(bits: seq<bool>, start: nat, n: nat) {
    var sz := |bits|;
    !HasRun(bits, start, sz, n) && !HasRun(bits, 0, Min(start, sz), n)
  }

  class Bitmap {
    const buffer: array<bv64>
    const sz: nat

    ghost predicate Valid() {
      sz <= 64 * buffer.Length
    }

    ghost function Bits(): (bits: seq<bool>)
      requires Valid()
      reads buffer
    {
      seq(sz, i requires 0 <= i < sz reads buffer => Bit(buffer[i / 64], i % 64))
    }

    /** `init`: the unit count is rounded down to whole words. */
    constructor (store: array<bv64>, units: nat, def: bool)
      requires units / 64 <= store.Length
      ensures Valid() && buffer == store && sz == units / 64 * 64
      modifies store
      ensures Bits() == seq(sz, _ => def)
    {
      buffer := store;
      sz := units / 64 * 64;
      new;
      var word: bv64 := if def then 0xffff_ffff_ffff_ffff else 0;
      for i := 0 to sz / 64
        invariant forall k :: 0 <= k < i ==> buffer[k] == word
      {
        buffer[i] := word;
      }
      forall i | 0 <= i < sz ensures Bits()[i] == def {
        UniformWord(i % 64);
      }
    }

    method Set(idx: nat, val: bool) returns (r: Outcome<()>)
      requires Valid()
      modifies buffer
      ensures r.Done? <==> idx < sz
      ensures Bits() == if idx < sz then old(Bits())[idx := val] else old(Bits())
    {
      var bufidx, bitidx := idx / 64, idx % 64;
      if idx >= sz {
        return Halted;
      }
      var old_ := buffer[bufidx];
      buffer[bufidx] := WithBit(old_, bitidx, val);
      forall i | 0 <= i < sz ensures Bits()[i] == if i == idx then val else old(Bits())[i] {
        if i == idx {
          OwnBitWritten(old_, bitidx, val);
        } else if i / 64 == bufidx {
          OtherBitsKept(old_, bitidx, val, i % 64);
        }
      }
      return Done(());
    }

    method Get(idx: nat) returns (r: Outcome<bool>)
      requires Valid()
      ensures r == if idx < sz then Done(Bits()[idx]) else Halted
    {
      if idx >= sz {
        return Halted;
      }
      return Done(Bit(buffer[idx / 64], idx % 64));
    }

    method AllocateRange(start: nat, limit: nat, n: nat) returns (r: Outcome<Option<nat>>)
      requires Valid()
      modifies buffer
      ensures r.Halted? <==> n == 0
      ensures n > 0 ==>
                match r.value
                case Some(s) =>
                  LowestRun(old(Bits()), start, Min(limit, sz), n, s) && Bits() == Taken(old(Bits()), s, n)
                case None => !HasRun(old(Bits()), start, Min(limit, sz), n) && Bits() == old(Bits())
    {
      hide Bit;
      var end := Min(limit, sz);
      if n == 0 {
        return Halted;
      }
      ghost var bits := Bits();
      var current := start;
      var i := start;
      while i < end
        invariant start <= current <= i
        invariant start <= end ==> i <= end
        invariant Bits() == bits
        invariant i <= sz ==> ClearRun(bits, current, i - current) && i - current < n
        invariant i > sz ==> i == current == start
        invariant forall s :: start <= s < current && s < sz ==> !ClearRun(bits, s, n)
      {
        var b := Get(i);
        if !b.value {
          if i - current + 1 == n {
            MarkRun(current, i);
            return Done(Some(current));
          }
        } else {
          RunBroken(bits, current, i, n);
          current := i + 1;
        }
        i := i + 1;
      }
      return Done(None);
    }

    /** The marking loop inside `allocate_range`. */
    method MarkRun(lo: nat, hi: nat)
      requires Valid() && lo <= hi < sz
      modifies buffer
      ensures Bits() == Taken(old(Bits()), lo, hi + 1 - lo)
    {
      for j := lo to hi + 1
        invariant Bits() == Taken(old(Bits()), lo, j - lo)
      {
        var _ := Set(j, true);
      }
    }

    method FindAndSetMultiple(n: nat, start: nat) returns (r: Outcome<Option<nat>>)
      requires Valid()
      modifies buffer
      ensures r.Halted? <==> n == 0
      ensures n > 0 ==>
                match r.value
                case Some(s) => Found(old(Bits()), start, n, s) && Bits() == Taken(old(Bits()), s, n)
                case None => Missing(old(Bits()), start, n) && Bits() == old(Bits())
    {
      r := AllocateRange(start, sz, n);
      if r.Done? && r.value.None? {
        r := AllocateRange(0, start, n);
      }
    }

    /** `find_and_set` searches for one bit, always from 0: it drops its argument. */
    method FindAndSet(start: nat := 0) returns (r: Option<nat>)
      requires Valid()
      modifies buffer
      ensures match r
              case Some(s) => s < sz && !old(Bits())[s] && (forall i :: 0 <= i < s ==> old(Bits())[i])
                              && Bits() == old(Bits())[s := true]
              case None => Bits() == old(Bits()) && forall i :: 0 <= i < sz ==> Bits()[i]
    {
      ghost var bits := Bits();
      var o := FindAndSetMultiple(1, 0);
      r := o.value;
      if r.None? {
        forall i | 0 <= i < sz ensures bits[i] {
          assert !ClearRun(bits, i, 1);
        }
      } else {
        forall i | 0 <= i < r.value ensures bits[i] {
          assert !ClearRun(bits, i, 1);
        }
      }
    }
  }

  /** Runs that exist are found, runs that are found were clear, and nothing is found twice. */
  lemma SearchIsExact(bits: seq<bool>, start: nat, n: nat, r: nat)
    requires n > 0 && Found(bits, start, n, r)
    ensures !Missing(bits, start, n)
    ensures ClearRun(bits, r, n)
    ensures forall r' :: Found(bits, start, n, r') ==> r' == r
    ensures forall s, k :: 0 <= s && 0 < k && s < r + n && r < s + k ==> !ClearRun(Taken(bits, r, n), s, k)
  {
    forall s, k | 0 <= s && 0 < k && s < r + n && r < s + k ensures !ClearRun(Taken(bits, r, n), s, k) {
      if s + k <= |bits| {
        var i := if s < r then r else s;
        assert Taken(bits, r, n)[i];
      }
    }
  }
}
